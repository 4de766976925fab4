/**
 * The provisioning handlers: the JSON array of scan_get_handler, built piece by piece in a buffer, and
 * the loop of wifi_config_post_handler that assembles the body of a form.
 */
module ScanJson {
  import opened Bytes
  import opened Text
  import UrlCodec

  const MAX_APS := 20
  const MAX_SSID := 32

  /** wifi_ap_record_t: the SSID up to its NUL, an int8_t and an int. */
  datatype Record = Record(ssid: string, rssi: int, auth: int, bssid: Mac)

  predicate Sound(r: Record) {
    && |r.ssid| <= MAX_SSID && NUL !in r.ssid
    && -128 <= r.rssi < 128 && -0x8000_0000 <= r.auth < 0x8000_0000
  }

  type Ap = r: Record | Sound(r) witness Record("", 0, 0, [0, 0, 0, 0, 0, 0])

  function Entry(ap: Record): string {
    "{\"ssid\":\"" + ap.ssid + "\",\"rssi\":" + Signed(ap.rssi) + ",\"auth\":" + Signed(ap.auth)
    + ",\"bssid\":\"" + PrintMac(ap.bssid) + "\"}"
  }

  /** The access points that are not hidden, in order. */
  function Visible(aps: seq<Ap>): seq<Ap> {
    if aps == [] then []
    else if aps[|aps| - 1].ssid == "" then Visible(aps[..|aps| - 1])
    else Visible(aps[..|aps| - 1]) + [aps[|aps| - 1]]
  }

  function Commas(aps: seq<Ap>): string {
    if aps == [] then ""
    else if |aps| == 1 then Entry(aps[0])
    else Commas(aps[..|aps| - 1]) + "," + Entry(aps[|aps| - 1])
  }

  function Json(aps: seq<Ap>): string { "[" + Commas(Visible(aps)) + "]" }

  lemma SignedLength(n: int)
    requires -0x8000_0000 <= n < 0x8000_0000
    ensures 1 <= |Signed(n)| <= 11 && (-128 <= n < 128 ==> |Signed(n)| <= 4)
  {
    assert Power(10, 10) == 10000000000 by {
      assert Power(10, 3) == 1000;
      assert Power(10, 6) == 1000000;
    }
    var m := if n < 0 then -n else n;
    DecLength(m, 10);
    if -128 <= n < 128 {
      DecLength(m, 3) by { assert Power(10, 3) == 1000; }
    }
  }

  lemma EntryLength(ap: Ap)
    ensures 0 < |Entry(ap)| <= 102 && Entry(ap)[0] == '{' && Entry(ap)[|Entry(ap)| - 1] == '}'
  {
    SignedLength(ap.rssi);
    SignedLength(ap.auth);
  }

  // ---------- which access points are listed ----------

  /** Exactly those with an SSID, in the order in which they were found. */
  lemma {:induction false} VisibleIs(aps: seq<Ap>) returns (at: seq<nat>)
    ensures |at| == |Visible(aps)| && forall i, j | 0 <= i < j < |at| :: at[i] < at[j]
    ensures forall i | 0 <= i < |at| :: at[i] < |aps| && Visible(aps)[i] == aps[at[i]] && aps[at[i]].ssid != ""
    ensures forall k | 0 <= k < |aps| && aps[k].ssid != "" :: k in at
  {
    at := [];
    if aps != [] {
      var n := |aps| - 1;
      var before := aps[..n];
      at := VisibleIs(before);
      VisibleMore(aps, n);
      assert aps[..n + 1] == aps;
      hide Visible, Sound;
      forall i | 0 <= i < |at| ensures aps[at[i]] == before[at[i]] {}
      forall k | 0 <= k < n && aps[k].ssid != "" ensures k in at { assert before[k] == aps[k]; }
      if aps[n].ssid != "" {
        at := at + [n];
      }
    }
  }

  // ---------- reading the reply back ----------

  /** A parser: what it has read, and what is left. */
  datatype Read<T> = Bad | Read(value: T, rest: string) {
    predicate IsFailure() { Bad? }

    function PropagateFailure<U>(): Read<U>
      requires Bad?
    {
      Bad
    }

    function Extract(): (T, string)
      requires Read?
    {
      (value, rest)
    }
  }

  predicate IsRead<T(==)>(r: Read<T>, value: T, rest: string) { r.Read? && r.value == value && r.rest == rest }

  function Literal(s: string, lit: string): (r: Read<string>)
    ensures r.Read? ==> |r.rest| == |s| - |lit|
  {
    if lit <= s then Read(lit, s[|lit|..]) else Bad
  }

  function UpTo(s: string, mark: char): (r: Read<string>)
    ensures r.Read? ==> |r.rest| < |s|
  {
    if mark in s then Read(s[..First(s, mark)], s[First(s, mark) + 1..]) else Bad
  }

  /** One object: its four members by name, in order. */
  function ReadEntry(s: string): (r: Read<Record>)
    ensures r.Read? ==> |r.rest| < |s|
  {
    var (_, s) :- Literal(s, "{\"ssid\":\"");
    var (ssid, s) :- UpTo(s, '"');
    var (_, s) :- Literal(s, ",\"rssi\":");
    var (rssi, s) :- UpTo(s, ',');
    var (_, s) :- Literal(s, "\"auth\":");
    var (auth, s) :- UpTo(s, ',');
    var (_, s) :- Literal(s, "\"bssid\":\"");
    var (bssid, s) :- UpTo(s, '"');
    var (_, s) :- Literal(s, "}");
    match UrlCodec.ParsedMac(bssid)
    case None => Bad
    case Some(mac) => Read(Record(ssid, SignedNumber(rssi), SignedNumber(auth), mac), s)
  }

  /** Objects with commas between them, up to the bracket that ends the array. */
  function ReadEntries(s: string): Read<seq<Record>>
    decreases |s|
  {
    var (entry, s) :- ReadEntry(s);
    if s != "" && s[0] == ',' then
      var (more, s) :- ReadEntries(s[1..]);
      Read([entry] + more, s)
    else
      var (_, s) :- Literal(s, "]");
      Read([entry], s)
  }

  function ReadJson(s: string): Read<seq<Record>> {
    var (_, s) :- Literal(s, "[");
    if s == "]" then Read([], "") else ReadEntries(s)
  }

  predicate Quotable(ap: Record) { '"' !in ap.ssid }

  lemma LiteralReads(lit: string, rest: string)
    ensures Literal(lit + rest, lit) == Read(lit, rest)
  {
  }

  lemma UpToReads(p: string, mark: char, rest: string)
    requires mark !in p
    ensures UpTo(p + ([mark] + rest), mark) == Read(p, rest)
  {
    var s := p + ([mark] + rest);
    assert s[..|p|] == p && s[|p| + 1..] == rest;
    FirstIs(s, mark, |p|);
  }

  lemma DigitsHaveNo(s: string, c: char)
    requires Numeral(10, s) && c in [',', '"', NUL, '-']
    ensures c !in s
  {
  }

  lemma SignedHasNo(n: int, c: char)
    requires c in [',', NUL]
    ensures c !in Signed(n)
  {
    DecReads(if n < 0 then -n else n);
    DigitsHaveNo(Dec(if n < 0 then -n else n), c);
  }

  lemma MacHasNo(m: Mac, c: char)
    requires c in ['"', NUL]
    ensures c !in PrintMac(m)
  {
    forall b: byte ensures c !in Hex2(b) {
      Hex2Reads(b);
    }
    hide Hex2;
  }

  /** An entry reads back as its access point, whatever follows it. */
  lemma EntryReads(a: Ap, x: string)
    requires Quotable(a)
    ensures IsRead(ReadEntry(Entry(a) + x), a, x)
  {
    EntryInPieces(a, x);
    var r, t, m := Signed(a.rssi), Signed(a.auth), PrintMac(a.bssid);
    SignedReads(a.rssi);
    SignedReads(a.auth);
    UrlCodec.PrintedMacParses(a.bssid);
    SignedHasNo(a.rssi, ',');
    SignedHasNo(a.auth, ',');
    MacHasNo(a.bssid, '"');
    hide Entry, Signed, PrintMac, SignedNumber, UrlCodec.ParsedMac, Literal, UpTo;
    var s8 := "}" + x;
    var s7 := m + (['"'] + s8);
    var s6 := "\"bssid\":\"" + s7;
    var s5 := t + ([','] + s6);
    var s4 := "\"auth\":" + s5;
    var s3 := r + ([','] + s4);
    var s2 := ",\"rssi\":" + s3;
    var s1 := a.ssid + (['"'] + s2);
    LiteralReads("{\"ssid\":\"", s1);
    UpToReads(a.ssid, '"', s2);
    LiteralReads(",\"rssi\":", s3);
    UpToReads(r, ',', s4);
    LiteralReads("\"auth\":", s5);
    UpToReads(t, ',', s6);
    LiteralReads("\"bssid\":\"", s7);
    UpToReads(m, '"', s8);
    LiteralReads("}", x);
  }

  lemma EntryInPieces(a: Ap, x: string)
    ensures Entry(a) + x
         == "{\"ssid\":\"" + (a.ssid + (['"'] + (",\"rssi\":" + (Signed(a.rssi) + ([','] + ("\"auth\":"
            + (Signed(a.auth) + ([','] + ("\"bssid\":\"" + (PrintMac(a.bssid) + (['"'] + ("}" + x))))))))))))
  {
    hide Signed, PrintMac;
    var i, r, t, m := a.ssid, Signed(a.rssi), Signed(a.auth), PrintMac(a.bssid);
    var e3 := "{\"ssid\":\"" + i + "\",\"rssi\":" + r + ",\"auth\":" + t;
    var w := [','] + ("\"bssid\":\"" + (m + (['"'] + ("}" + x))));
    assert Entry(a) + x == e3 + w;
    var v := [','] + ("\"auth\":" + (t + w));
    assert e3 + w == "{\"ssid\":\"" + i + "\",\"rssi\":" + r + v;
    assert "{\"ssid\":\"" + i + "\",\"rssi\":" + r + v
        == "{\"ssid\":\"" + (i + (['"'] + (",\"rssi\":" + (r + v))));
  }

  /** So it can be read off the front of a text in one way only. */
  lemma EntryIsPrefixFree(a: Ap, b: Ap, x: string, y: string)
    requires Quotable(a) && Quotable(b) && Entry(a) + x == Entry(b) + y
    ensures a == b && x == y
  {
    EntryReads(a, x);
    EntryReads(b, y);
  }

  lemma {:induction false} CommasFromFront(aps: seq<Ap>)
    requires |aps| >= 2
    ensures Commas(aps) == Entry(aps[0]) + ("," + Commas(aps[1..]))
    decreases |aps|
  {
    hide Entry;
    var n := |aps| - 1;
    if n == 1 {
      assert aps[..1] == [aps[0]] && aps[1..] == [aps[1]];
    } else {
      CommasFromFront(aps[..n]);
      assert aps[..n][1..] == aps[1..][..n - 1] && aps[1..][n - 1] == aps[n];
      assert Commas(aps) == Entry(aps[0]) + ("," + Commas(aps[1..n])) + "," + Entry(aps[n]) by {
        assert aps[..n][1..] == aps[1..n];
      }
      assert Commas(aps[1..]) == Commas(aps[1..n]) + "," + Entry(aps[n]) by {
        assert aps[1..][..n - 1] == aps[1..n];
      }
    }
  }

  /** What follows the first entry. */
  function After(aps: seq<Ap>): string
    requires aps != []
  {
    if |aps| == 1 then "]" else "," + (Commas(aps[1..]) + "]")
  }

  lemma FirstAndAfter(aps: seq<Ap>)
    requires aps != []
    ensures Commas(aps) + "]" == Entry(aps[0]) + After(aps) && (Commas(aps) + "]")[0] == '{'
  {
    EntryLength(aps[0]);
    hide Entry;
    if |aps| >= 2 {
      CommasFromFront(aps);
      hide Commas;
      RegroupInner(Entry(aps[0]), ",", Commas(aps[1..]), "]");
    }
  }

  lemma {:induction false} CommasRead(aps: seq<Ap>)
    requires aps != [] && forall ap <- aps :: Quotable(ap)
    ensures IsRead(ReadEntries(Commas(aps) + "]"), aps, "")
    decreases |aps|
  {
    hide Entry, Quotable, ReadEntry;
    FirstAndAfter(aps);
    EntryReads(aps[0], After(aps));
    if |aps| == 1 {
      LiteralReads("]", "");
      assert "]" + "" == "]" && [aps[0]] == aps;
    } else {
      hide Commas;
      var more := Commas(aps[1..]) + "]";
      assert After(aps) == "," + more && After(aps)[1..] == more;
      CommasRead(aps[1..]);
      assert [aps[0]] + aps[1..] == aps;
    }
  }

  lemma CommasDetermine(aps: seq<Ap>, bps: seq<Ap>)
    requires (forall ap <- aps :: Quotable(ap)) && (forall ap <- bps :: Quotable(ap))
    requires Commas(aps) + "]" == Commas(bps) + "]"
    ensures aps == bps
  {
    JoinedReads(aps);
    JoinedReads(bps);
  }

  lemma JoinedReads(aps: seq<Ap>)
    requires forall ap <- aps :: Quotable(ap)
    ensures IsRead(ReadJson("[" + (Commas(aps) + "]")), aps, "")
  {
    LiteralReads("[", Commas(aps) + "]");
    if aps == [] {
      assert Commas(aps) + "]" == "]";
    } else {
      CommasRead(aps);
      FirstAndAfter(aps);
    }
  }

  /** If no SSID contains a quote, the reply reads back as exactly the visible access points, in order. */
  lemma JsonReadsBack(aps: seq<Ap>)
    requires forall ap <- Visible(aps) :: Quotable(ap)
    ensures IsRead(ReadJson(Json(aps)), Visible(aps), "")
  {
    hide Visible, Commas, ReadJson;
    JoinedReads(Visible(aps));
    Regroup("[", Commas(Visible(aps)), "]");
  }

  /** So it says exactly which visible access points were found. */
  lemma JsonDeterminesTheList(aps: seq<Ap>, bps: seq<Ap>)
    requires (forall ap <- Visible(aps) :: Quotable(ap)) && (forall ap <- Visible(bps) :: Quotable(ap))
    requires Json(aps) == Json(bps)
    ensures Visible(aps) == Visible(bps)
  {
    hide Visible, Json, ReadJson, Quotable;
    JsonReadsBack(aps);
    JsonReadsBack(bps);
  }

  // ---------- the builder in place ----------

  lemma EntryHasNoNul(ap: Ap)
    ensures NUL !in Entry(ap)
  {
    SignedHasNo(ap.rssi, NUL);
    SignedHasNo(ap.auth, NUL);
    MacHasNo(ap.bssid, NUL);
    hide Signed, PrintMac;
  }

  lemma {:induction false} CommasFit(aps: seq<Ap>)
    ensures NUL !in Commas(aps)
    ensures if aps == [] then Commas(aps) == "" else
              0 < |Commas(aps)| < 103 * |aps| && Commas(aps)[|Commas(aps)| - 1] == '}'
  {
    hide Entry;
    if aps != [] {
      EntryLength(aps[|aps| - 1]);
      EntryHasNoNul(aps[|aps| - 1]);
      CommasFit(aps[..|aps| - 1]);
    }
  }

  lemma {:induction false} VisibleFit(aps: seq<Ap>)
    ensures |Visible(aps)| <= |aps|
  {
    if aps != [] {
      VisibleFit(aps[..|aps| - 1]);
    }
  }

  /** The list after `i` rounds: a comma hangs on unless the last round has just printed the last record. */
  function Listed(aps: seq<Ap>, i: nat): string
    requires i <= |aps|
  {
    var v := Visible(aps[..i]);
    if v != [] && (i < |aps| || aps[i - 1].ssid == "") then Commas(v) + "," else Commas(v)
  }

  lemma ListedMore(aps: seq<Ap>, i: nat)
    requires i < |aps|
    ensures |Listed(aps, i)| <= 103 * i
    ensures Listed(aps, i + 1)
         == if aps[i].ssid == "" then Listed(aps, i)
            else if i < |aps| - 1 then Listed(aps, i) + Entry(aps[i]) + ","
            else Listed(aps, i) + Entry(aps[i])
  {
    var v := Visible(aps[..i]);
    CommasFit(v);
    VisibleFit(aps[..i]);
    VisibleMore(aps, i);
    CommasMore(v, aps[i]);
    hide Entry, Commas, Visible;
    assert v == [] ==> Listed(aps, i) == "" && "" + Entry(aps[i]) == Entry(aps[i]);
  }

  lemma VisibleMore(aps: seq<Ap>, i: nat)
    requires i < |aps|
    ensures Visible(aps[..i + 1])
         == if aps[i].ssid == "" then Visible(aps[..i]) else Visible(aps[..i]) + [aps[i]]
  {
    assert aps[..i + 1][..i] == aps[..i];
  }

  lemma CommasMore(v: seq<Ap>, a: Ap)
    ensures Commas(v + [a]) == if v == [] then Entry(a) else Commas(v) + "," + Entry(a)
  {
    assert (v + [a])[..|v|] == v;
  }

  lemma ListedNone(aps: seq<Ap>)
    ensures Listed(aps, 0) == ""
  {
  }

  lemma ListedIs(aps: seq<Ap>)
    ensures var l, c := Listed(aps, |aps|), Commas(Visible(aps));
            && |l| <= 103 * |aps| && NUL !in c && (l == c || l == c + ",")
            && (c == "" ==> l == "") && (c != "" ==> c[|c| - 1] == '}')
  {
    assert aps[..|aps|] == aps;
    CommasFit(Visible(aps));
    VisibleFit(aps);
    hide Commas, Visible;
  }

  class Builder {
    const buf: array<char>
    var ptr: nat // ptr - json_buf

    ghost predicate Valid()
      reads this, buf
    {
      ptr < buf.Length
    }

    ghost function Text(): string
      requires Valid()
      reads this, buf
    {
      buf[..ptr]
    }

    /** malloc(ap_count * 128 + 10) and the first sprintf */
    constructor (apCount: nat)
      ensures Valid() && fresh(buf) && buf.Length == apCount * 128 + 10 && Text() == "["
    {
      buf := new char[apCount * 128 + 10](_ => '?');
      ptr := 1;
      new;
      buf[0], buf[1] := '[', NUL;
    }

    /** ptr += sprintf(ptr, ...): the text and its NUL must fit. */
    method Sprintf(text: string)
      requires Valid() && ptr + |text| < buf.Length
      modifies this`ptr, buf
      ensures Valid() && Text() == old(Text()) + text && buf[ptr] == NUL
    {
      ghost var before := buf[..ptr];
      for i := 0 to |text|
        modifies buf
        invariant buf[..ptr + i] == before + text[..i]
      {
        buf[ptr + i] := text[i];
      }
      buf[ptr + |text|] := NUL;
      ptr := ptr + |text|;
    }

    method Entries(aps: seq<Ap>)
      requires Valid() && Text() == "[" && buf.Length == |aps| * 128 + 10
      modifies this`ptr, buf
      ensures Valid() && Text() == "[" + Listed(aps, |aps|)
    {
      hide Entry, Listed;
      ListedNone(aps);
      for i := 0 to |aps|
        invariant Valid() && Text() == "[" + Listed(aps, i)
      {
        ListedMore(aps, i);
        EntryLength(aps[i]);
        if |aps[i].ssid| == 0 {
          continue;
        }
        ghost var l, e := Listed(aps, i), Entry(aps[i]);
        Sprintf(Entry(aps[i]));
        assert Text() == "[" + (l + e);
        if i < |aps| - 1 {
          Sprintf(",");
          assert Text() == "[" + (l + e + ",");
        }
      }
    }

    /** The loop of scan_get_handler and what follows it: the trailing comma goes, the bracket comes. */
    method Build(aps: seq<Ap>)
      requires Valid() && Text() == "[" && buf.Length == |aps| * 128 + 10
      modifies this`ptr, buf
      ensures Valid() && Text() == Json(aps) && buf[ptr] == NUL && NUL !in Text()
    {
      hide Entry, Listed, Commas, Visible;
      Entries(aps);
      ListedIs(aps);
      if buf[ptr - 1] == ',' {
        ptr := ptr - 1;
      }
      Sprintf("]");
    }
  }

  datatype Reply = ServerError | Sent(text: string)

  /** scan_get_handler once the scan is over; `memory` is how many of its two allocations succeed. */
  method ScanGetHandler(found: seq<Ap>, memory: nat) returns (reply: Reply)
    ensures found != [] && memory < 2 ==> reply == ServerError
    ensures found == [] || memory >= 2 ==> reply == Sent(Json(found[..Min(|found|, 20)]))
  {
    var apCount := |found|;
    if apCount == 0 {
      assert Visible([]) == [] && Commas([]) == "";
      assert found[..0] == [];
      return Sent("[]");
    }
    if apCount > MAX_APS {
      apCount := MAX_APS;
    }
    if memory < 2 {
      return ServerError;
    }
    var builder := new Builder(apCount);
    builder.Build(found[..apCount]);
    return Sent(builder.buf[..builder.ptr]);
  }

  // ---------- the body of a form ----------

  /** What the connection delivers before its first failure, which an empty piece stands for. */
  function Stream(pieces: seq<string>): string {
    if pieces == [] || pieces[0] == "" then "" else pieces[0] + Stream(pieces[1..])
  }

  /** What is left of the pieces after `n` bytes of the first. */
  function Rest(pieces: seq<string>, n: nat): seq<string>
    requires pieces != [] && n <= |pieces[0]|
  {
    if n < |pieces[0]| then [pieces[0][n..]] + pieces[1..] else pieces[1..]
  }

  lemma StreamAfter(pieces: seq<string>, n: nat)
    requires pieces != [] && pieces[0] != "" && n <= |pieces[0]|
    ensures n <= |Stream(pieces)| && Stream(pieces)[..n] == pieces[0][..n]
    ensures Stream(Rest(pieces, n)) == Stream(pieces)[n..]
  {
    var more := Stream(pieces[1..]);
    assert Stream(pieces) == pieces[0] + more;
    if n < |pieces[0]| {
      assert Rest(pieces, n)[1..] == pieces[1..];
    }
  }

  lemma Onward(s: string, at: nat, n: nat)
    requires at <= |s| && n <= |s[at..]|
    ensures s[at..][n..] == s[at + n..] && s[..at + n] == s[..at] + s[at..][..n]
  {
  }

  datatype Body = Failed | Received(text: string)

  /** httpd_req_recv, as far as it stores: `n` bytes of a piece. */
  method Store(buf: array<char>, at: nat, piece: string, n: nat)
    requires n <= |piece| && at + n <= buf.Length
    modifies buf
    ensures buf[..at + n] == old(buf[..at]) + piece[..n]
  {
    ghost var before := buf[..at];
    for i := 0 to n
      invariant buf[..at + i] == before + piece[..i]
    {
      buf[at + i] := piece[i];
    }
  }

  /**
   * The receive loop of wifi_config_post_handler: httpd_req_recv returns at most what is asked for and
   * keeps the rest of a piece.  However the body is cut, the same bytes arrive.
   */
  method AssembleBody(totalLen: nat, arrivals: seq<string>, memory: bool) returns (body: Body)
    ensures body == if memory && |Stream(arrivals)| >= totalLen then Received(Stream(arrivals)[..totalLen]) else Failed
  {
    if !memory {
      return Failed;
    }
    var buf := new char[totalLen + 1](_ => '?');
    var curLen := 0;
    var pieces := arrivals;
    ghost var all := Stream(arrivals);
    assert all[0..] == all && all[..0] == "";
    while curLen < totalLen
      invariant curLen <= totalLen && curLen <= |all|
      invariant buf[..curLen] == all[..curLen] && Stream(pieces) == all[curLen..]
      decreases totalLen - curLen
    {
      if pieces == [] || pieces[0] == "" {
        return Failed;
      }
      var received := Min(|pieces[0]|, totalLen - curLen);
      StreamAfter(pieces, received);
      hide Stream, Rest;
      Onward(all, curLen, received);
      Store(buf, curLen, pieces[0], received);
      pieces := Rest(pieces, received);
      curLen := curLen + received;
    }
    buf[totalLen] := NUL;
    return Received(buf[..totalLen]);
  }
}
