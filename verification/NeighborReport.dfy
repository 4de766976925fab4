/**
 * get_btm_neighbor_list: Neighbor Report elements (section 9.4.2.37 of IEEE Std 802.11-2016) are checked,
 * nested subelements included, and rendered into a text of at most 512 bytes.
 *
 * Measurement subelements are copied for a log line only, which is not part of this model, and `calloc`
 * succeeds.
 */
module NeighborReport {
  import opened Bytes
  import opened Text

  const NEIGHBOR_REPORT := 52 // WLAN_EID_NEIGHBOR_REPORT
  const MIN_LEN := 13         // NR_IE_MIN_LEN
  const MAX_TEXT := 512       // MAX_NEIGHBOR_LEN

  datatype Neighbor = Neighbor(bssid: Mac, info: u32, opClass: byte, channel: byte, phy: byte)

  /** WPA_GET_LE32 */
  function GetLe32(r: seq<byte>, p: nat): u32
    requires p + 4 <= |r|
  {
    FromLe32(r[p], r[p + 1], r[p + 2], r[p + 3])
  }

  function NeighborAt(r: seq<byte>, p: nat): Neighbor
    requires p + MIN_LEN <= |r|
  {
    Neighbor(r[p..p + 6], GetLe32(r, p + 6), r[p + 10], r[p + 11], r[p + 12])
  }

  // ---------- what the loops accept ----------

  /** The inner loop: subelements follow each other until at most two bytes are left. */
  predicate SubelementsOk(r: seq<byte>, p: nat, end: nat)
    requires p <= end <= |r|
    decreases end - p
  {
    end - p <= 2 || (p + 2 + r[p + 1] <= end && SubelementsOk(r, p + 2 + r[p + 1], end))
  }

  predicate ElementOk(r: seq<byte>, d: nat)
    requires d + 2 + MIN_LEN <= |r|
  {
    && r[d] == NEIGHBOR_REPORT && r[d + 1] >= MIN_LEN && d + 2 + r[d + 1] <= |r|
    && SubelementsOk(r, d + 2 + MIN_LEN, d + 2 + r[d + 1])
  }

  /** The neighbors visited before the outer loop ends, and whether it ends at a malformed element. */
  datatype Walked = Walked(neighbors: seq<Neighbor>, bad: bool)

  function Walk(r: seq<byte>, d: nat): Walked
    requires d <= |r|
    decreases |r| - d
  {
    if |r| - d < 2 + MIN_LEN then Walked([], false)
    else if !ElementOk(r, d) then Walked([], true)
    else
      var rest := Walk(r, d + 2 + r[d + 1]);
      Walked([NeighborAt(r, d + 2)] + rest.neighbors, rest.bad)
  }

  // ---------- the text ----------

  function Head(n: Neighbor): string {
    " neighbor=" + PrintMac(n.bssid) + "," + ("0x" + Hex4(n.info)) + "," + Dec(n.opClass) + "," + Dec(n.channel) + ","
  }

  function Line(n: Neighbor): string { Head(n) + Dec(n.phy) }

  function Render(ns: seq<Neighbor>): string {
    if ns == [] then "" else Render(ns[..|ns| - 1]) + Line(ns[|ns| - 1])
  }

  /** The start of the last piece printed, which is the furthest that any `snprintf` starts. */
  function LastStart(ns: seq<Neighbor>): nat {
    if ns == [] then 0 else |Render(ns[..|ns| - 1])| + |Head(ns[|ns| - 1])|
  }

  /** NULL, a C string, or a write beyond the buffer. */
  datatype Outcome = NoList | List(text: string) | Outside

  function Shown(text: string): string { text[..Min(|text|, MAX_TEXT - 1)] }

  /** get_btm_neighbor_list */
  function Result(r: seq<byte>): Outcome {
    var w := Walk(r, 0);
    if r == [] then NoList
    else if LastStart(w.neighbors) > MAX_TEXT then Outside
    else if w.bad then NoList
    else List(Shown(Render(w.neighbors)))
  }

  lemma LineLength(n: Neighbor)
    ensures 40 <= |Line(n)| <= 50 && |Line(n)| - 3 <= |Head(n)| < |Line(n)|
  {
    Hex4Length(n.info);
    ByteLength(n.opClass);
    ByteLength(n.channel);
    ByteLength(n.phy);
  }

  lemma {:induction false} RenderLength(ns: seq<Neighbor>)
    ensures 40 * |ns| <= |Render(ns)| <= 50 * |ns|
  {
    if ns != [] {
      LineLength(ns[|ns| - 1]);
      RenderLength(ns[..|ns| - 1]);
    }
  }

  /** Up to ten neighbors always fit with their NUL, thirteen or more never do. */
  lemma TenFitThirteenDoNot(ns: seq<Neighbor>)
    ensures |ns| <= 10 ==> |Render(ns)| < MAX_TEXT && LastStart(ns) <= MAX_TEXT
    ensures |ns| >= 13 ==> LastStart(ns) > MAX_TEXT
  {
    RenderLength(ns);
    if ns != [] {
      LineLength(ns[|ns| - 1]);
      RenderLength(ns[..|ns| - 1]);
    }
  }

  // ---------- the format ----------

  datatype Subelement = Subelement(id: byte, body: seq<byte>)

  /** `slack` is what may follow the last subelement: too short for another one. */
  datatype Element = Element(neighbor: Neighbor, subs: seq<Subelement>, slack: seq<byte>)

  function EncodeSubs(subs: seq<Subelement>): seq<byte>
    requires forall s <- subs :: |s.body| < 256
  {
    if subs == [] then [] else [subs[0].id, |subs[0].body|] + subs[0].body + EncodeSubs(subs[1..])
  }

  ghost predicate Fits(e: Element) {
    && |e.slack| <= 2
    && (forall s <- e.subs :: |s.body| < 256)
    && MIN_LEN + |EncodeSubs(e.subs)| + |e.slack| < 256
  }

  function Fixed(n: Neighbor): (s: seq<byte>)
    ensures |s| == MIN_LEN
  {
    n.bssid + Le32(n.info) + [n.opClass, n.channel, n.phy]
  }

  ghost function Encode(e: Element): seq<byte>
    requires Fits(e)
  {
    var body: seq<byte> := Fixed(e.neighbor) + EncodeSubs(e.subs) + e.slack;
    [NEIGHBOR_REPORT, |body|] + body
  }

  ghost function EncodeAll(es: seq<Element>): seq<byte>
    requires forall e <- es :: Fits(e)
  {
    if es == [] then [] else Encode(es[0]) + EncodeAll(es[1..])
  }

  function Neighbors(es: seq<Element>): (ns: seq<Neighbor>)
    ensures |ns| == |es| && forall i | 0 <= i < |es| :: ns[i] == es[i].neighbor
  {
    seq(|es|, i requires 0 <= i < |es| => es[i].neighbor)
  }

  lemma {:induction false} EncodedSubsAreOk(r: seq<byte>, p: nat, end: nat, subs: seq<Subelement>, slack: seq<byte>)
    requires (forall s <- subs :: |s.body| < 256) && |slack| <= 2
    requires PartOf(EncodeSubs(subs) + slack, r, p) && end == p + |EncodeSubs(subs)| + |slack|
    ensures SubelementsOk(r, p, end)
    decreases |subs|
  {
    if subs != [] && end - p > 2 {
      var t := EncodeSubs(subs) + slack;
      assert r[p + 1] == t[1] == |subs[0].body|;
      var q := p + 2 + r[p + 1];
      var u := EncodeSubs(subs[1..]) + slack;
      assert t == [subs[0].id, |subs[0].body|] + subs[0].body + u;
      forall i | 0 <= i < |u|
        ensures r[q + i] == u[i]
      {
        assert u[i] == t[2 + r[p + 1] + i];
        assert r[p + (2 + r[p + 1] + i)] == t[2 + r[p + 1] + i];
      }
      EncodedSubsAreOk(r, q, end, subs[1..], slack);
    }
  }

  lemma {:induction false} OkSubsAreEncoded(r: seq<byte>, p: nat, end: nat)
    returns (subs: seq<Subelement>, slack: seq<byte>)
    requires p <= end <= |r| && SubelementsOk(r, p, end)
    ensures (forall s <- subs :: |s.body| < 256) && |slack| <= 2 && r[p..end] == EncodeSubs(subs) + slack
    decreases end - p
  {
    if end - p <= 2 {
      subs, slack := [], r[p..end];
    } else {
      var q := p + 2 + r[p + 1];
      var rest;
      rest, slack := OkSubsAreEncoded(r, q, end);
      var s := Subelement(r[p], r[p + 2..q]);
      subs := [s] + rest;
      assert subs[1..] == rest;
      assert r[p..end] == [r[p], r[p + 1]] + r[p + 2..q] + r[q..end];
      assert EncodeSubs(subs) + slack == [s.id, |s.body|] + s.body + (EncodeSubs(rest) + slack);
    }
  }

  lemma EncodedNeighbor(r: seq<byte>, p: nat, n: Neighbor)
    requires PartOf(Fixed(n), r, p)
    ensures NeighborAt(r, p) == n
  {
    var t := Fixed(n);
    assert t == n.bssid + (Le32(n.info) + [n.opClass, n.channel, n.phy]);
    PartOfPart(n.bssid, Le32(n.info) + [n.opClass, n.channel, n.phy], r, p);
    assert r[p..p + 6] == n.bssid;
    PartOfPart(Le32(n.info), [n.opClass, n.channel, n.phy], r, p + 6);
    var last := [n.opClass, n.channel, n.phy];
    assert r[p + 10 + 0] == last[0] && r[p + 10 + 1] == last[1] && r[p + 10 + 2] == last[2];
    var le := Le32(n.info);
    assert r[p + 6 + 0] == le[0] && r[p + 6 + 1] == le[1] && r[p + 6 + 2] == le[2] && r[p + 6 + 3] == le[3];
    Le32Back(n.info);
  }

  lemma EncodeForm(e: Element)
    requires Fits(e)
    ensures var body: seq<byte> := Fixed(e.neighbor) + (EncodeSubs(e.subs) + e.slack);
            && MIN_LEN <= |body| < 256 && Encode(e) == [NEIGHBOR_REPORT, |body|] + body
            && |Encode(e)| == 2 + |body| && |body| == MIN_LEN + |EncodeSubs(e.subs)| + |e.slack|
  {
    var fixed, subs := Fixed(e.neighbor), EncodeSubs(e.subs);
    assert fixed + subs + e.slack == fixed + (subs + e.slack);
  }

  lemma EncodedHead(r: seq<byte>, d: nat, n: byte, body: seq<byte>)
    requires PartOf([NEIGHBOR_REPORT, n] + body, r, d)
    ensures d + 2 + |body| <= |r| && r[d] == NEIGHBOR_REPORT && r[d + 1] == n && PartOf(body, r, d + 2)
  {
    var head: seq<byte> := [NEIGHBOR_REPORT, n];
    PartOfPart(head, body, r, d);
    assert r[d + 0] == head[0] && r[d + 1] == head[1];
  }

  lemma EncodedElementIsOk(r: seq<byte>, d: nat, e: Element)
    requires Fits(e) && PartOf(Encode(e), r, d)
    ensures d + 2 + MIN_LEN <= |r| && ElementOk(r, d) && NeighborAt(r, d + 2) == e.neighbor
    ensures d + 2 + r[d + 1] == d + |Encode(e)|
  {
    EncodeForm(e);
    var fixed: seq<byte>, subs: seq<byte>, n := Fixed(e.neighbor), EncodeSubs(e.subs) + e.slack, |Encode(e)| - 2;
    assert Encode(e) == [NEIGHBOR_REPORT, n] + (fixed + subs);
    assert Fits(e);
    hide *;
    EncodedHead(r, d, n, fixed + subs);
    PartOfPart(fixed, subs, r, d + 2);
    EncodedNeighbor(r, d + 2, e.neighbor);
    ElementIsOk(r, d, e.subs, e.slack);
  }

  lemma ElementIsOk(r: seq<byte>, d: nat, subs: seq<Subelement>, slack: seq<byte>)
    requires d + 15 <= |r| && r[d] == NEIGHBOR_REPORT
    requires (forall s <- subs :: |s.body| < 256) && |slack| <= 2 && r[d + 1] == 13 + |EncodeSubs(subs)| + |slack|
    requires PartOf(EncodeSubs(subs) + slack, r, d + 15)
    ensures ElementOk(r, d)
  {
    EncodedSubsAreOk(r, d + 15, d + 2 + r[d + 1], subs, slack);
  }

  lemma {:induction false} EncodingIsWalked(r: seq<byte>, d: nat, es: seq<Element>)
    requires (forall e <- es :: Fits(e)) && PartOf(EncodeAll(es), r, d)
    requires |r| - (d + |EncodeAll(es)|) < 2 + MIN_LEN
    ensures Walk(r, d) == Walked(Neighbors(es), false)
    decreases |es|
  {
    if es != [] {
      var t, u := Encode(es[0]), EncodeAll(es[1..]);
      PartOfPart(t, u, r, d);
      EncodedElementIsOk(r, d, es[0]);
      var q := d + |t|;
      hide Encode, ElementOk, NeighborAt;
      EncodingIsWalked(r, q, es[1..]);
      assert Neighbors(es) == [es[0].neighbor] + Neighbors(es[1..]);
    }
  }

  lemma OkElementIsEncoded(r: seq<byte>, d: nat) returns (e: Element)
    requires d + 2 + MIN_LEN <= |r| && ElementOk(r, d)
    ensures Fits(e) && e.neighbor == NeighborAt(r, d + 2) && r[d..d + 2 + r[d + 1]] == Encode(e)
  {
    var end := d + 2 + r[d + 1];
    var subs, slack := OkSubsAreEncoded(r, d + 15, end);
    e := Element(NeighborAt(r, d + 2), subs, slack);
    FixedAgain(r, d + 2);
    hide Fixed, NeighborAt, SubelementsOk;
    assert |r[d + 15..end]| == r[d + 1] - MIN_LEN;
    assert MIN_LEN + |EncodeSubs(subs)| + |slack| == r[d + 1];
    hide EncodeSubs;
    EncodeForm(e);
    CutElement(r, d, end);
    hide Encode;
  }

  lemma CutElement(r: seq<byte>, d: nat, end: nat)
    requires d + 15 <= end <= |r|
    ensures r[d..end] == [r[d], r[d + 1]] + (r[d + 2..d + 15] + r[d + 15..end])
  {
  }

  lemma FixedAgain(r: seq<byte>, p: nat)
    requires p + MIN_LEN <= |r|
    ensures Fixed(NeighborAt(r, p)) == r[p..p + MIN_LEN]
  {
    Le32Again(r[p + 6], r[p + 7], r[p + 8], r[p + 9]);
    assert r[p..p + MIN_LEN]
        == r[p..p + 6] + [r[p + 6], r[p + 7], r[p + 8], r[p + 9]] + [r[p + 10], r[p + 11], r[p + 12]];
  }

  lemma {:induction false} WalkedIsEncoding(r: seq<byte>, d: nat) returns (es: seq<Element>, tail: seq<byte>)
    requires d <= |r| && !Walk(r, d).bad
    ensures (forall e <- es :: Fits(e)) && |tail| < 2 + MIN_LEN && r[d..] == EncodeAll(es) + tail
    decreases |r| - d
  {
    if |r| - d < 2 + MIN_LEN {
      es, tail := [], r[d..];
    } else {
      var e := OkElementIsEncoded(r, d);
      var q := d + 2 + r[d + 1];
      var rest;
      rest, tail := WalkedIsEncoding(r, q);
      es := [e] + rest;
      assert es[1..] == rest;
      assert r[d..] == r[d..q] + r[q..];
      assert EncodeAll(es) + tail == Encode(e) + (EncodeAll(rest) + tail);
    }
  }

  /** The report is Neighbor Report elements, well formed inside, and less than the smallest one after them. */
  ghost predicate IsReport(r: seq<byte>, es: seq<Element>, tail: seq<byte>) {
    (forall e <- es :: Fits(e)) && |tail| < 2 + MIN_LEN && r == EncodeAll(es) + tail
  }

  /** No element that is visited is malformed, exactly if the report has that form. */
  lemma AcceptedIffWellFormed(r: seq<byte>)
    ensures !Walk(r, 0).bad <==> exists es, tail :: IsReport(r, es, tail)
  {
    if !Walk(r, 0).bad {
      var es, tail := WalkedIsEncoding(r, 0);
      assert r[0..] == r && IsReport(r, es, tail);
    }
    if es, tail :| IsReport(r, es, tail) {
      EncodingIsWalked(r, 0, es);
    }
  }

  /**
   * For every well-formed report: the text is exactly the rendering of its neighbors if and only if that
   * fits with its NUL, and the buffer is left if and only if the last piece starts beyond it.
   */
  lemma TextOfReport(r: seq<byte>, es: seq<Element>, tail: seq<byte>)
    requires IsReport(r, es, tail) && r != []
    ensures var text := Render(Neighbors(es));
            && (Result(r) == List(text) <==> |text| < MAX_TEXT)
            && (Result(r) == Outside <==> LastStart(Neighbors(es)) > MAX_TEXT)
            && (|text| >= MAX_TEXT && Result(r) != Outside ==> Result(r) == List(text[..MAX_TEXT - 1]))
    ensures |es| <= 10 ==> Result(r) == List(Render(Neighbors(es))) && |Render(Neighbors(es))| <= 50 * |es|
  {
    var ns := Neighbors(es);
    EncodingIsWalked(r, 0, es);
    RenderLength(ns);
    TenFitThirteenDoNot(ns);
    if ns != [] {
      LineLength(ns[|ns| - 1]);
    }
    hide Walk, Neighbors, EncodeAll;
    assert |Render(ns)| < MAX_TEXT ==> Shown(Render(ns)) == Render(ns);
  }

  /** NULL exactly for the empty report and, unless the buffer was left before, for a malformed element. */
  lemma NoListIffMalformed(r: seq<byte>)
    ensures var ns := Walk(r, 0).neighbors;
            && (Result(r) == NoList <==>
                  r == [] || (LastStart(ns) <= MAX_TEXT && !exists es, tail :: IsReport(r, es, tail)))
            && (|ns| <= 10 ==> LastStart(ns) <= MAX_TEXT)
  {
    AcceptedIffWellFormed(r);
    TenFitThirteenDoNot(Walk(r, 0).neighbors);
  }

  // ---------- reports that do not fit ----------

  /** An element with nothing but the fixed fields, all zero but the last three. */
  function Bare(opClass: byte, channel: byte, phy: byte): Element {
    Element(Neighbor([0, 0, 0, 0, 0, 0], 0, opClass, channel, phy), [], [])
  }

  lemma BareLength(opClass: byte, channel: byte, phy: byte)
    ensures Fits(Bare(opClass, channel, phy))
    ensures var n := Bare(opClass, channel, phy).neighbor;
            |Line(n)| == 37 + |Dec(opClass)| + |Dec(channel)| + |Dec(phy)| && |Head(n)| == |Line(n)| - |Dec(phy)|
  {
    assert EncodeSubs([]) == [];
  }

  function Copies<T>(x: T, k: nat): (s: seq<T>)
    ensures |s| == k && forall i | 0 <= i < k :: s[i] == x
  {
    seq(k, _ => x)
  }

  function Times(k: nat, l: nat): nat { if k == 0 then 0 else Times(k - 1, l) + l }

  lemma {:induction false} RenderCopies(n: Neighbor, k: nat)
    ensures |Render(Copies(n, k))| == Times(k, |Line(n)|)
    decreases k
  {
    hide Line;
    if k > 0 {
      assert Copies(n, k) == Copies(n, k - 1) + [n];
      RenderMore(Copies(n, k - 1), n);
      RenderCopies(n, k - 1);
    }
  }

  lemma EncodedReport(es: seq<Element>)
    requires es != [] && forall e <- es :: Fits(e)
    ensures EncodeAll(es) != [] && IsReport(EncodeAll(es), es, [])
  {
    assert EncodeAll(es) + [] == EncodeAll(es);
    assert |Encode(es[0])| > 0;
  }

  /** Thirteen of the smallest elements, 195 bytes in all: the text leaves its buffer. */
  lemma ThirteenLeaveTheBuffer()
    ensures var es := Copies(Bare(0, 0, 0), 13);
            (forall e <- es :: Fits(e)) && Result(EncodeAll(es)) == Outside
  {
    var es := Copies(Bare(0, 0, 0), 13);
    BareLength(0, 0, 0);
    EncodedReport(es);
    TextOfReport(EncodeAll(es), es, []);
    TenFitThirteenDoNot(Neighbors(es));
  }

  /** Twelve, the last of them short: the buffer is not left, but the text loses its last two characters. */
  lemma TwelveCanBeCut()
    ensures var es := Copies(Bare(1, 10, 100), 11) + [Bare(0, 0, 0)];
            var text := Render(Neighbors(es));
            (forall e <- es :: Fits(e)) && |text| == 513 && Result(EncodeAll(es)) == List(text[..511])
  {
    var e, last := Bare(1, 10, 100), Bare(0, 0, 0);
    var es := Copies(e, 11) + [last];
    BareLength(1, 10, 100);
    BareLength(0, 0, 0);
    hide Bare, Line, Head, Render, LastStart, Result, Fits, EncodeAll;
    TwelveLines(e.neighbor, last.neighbor);
    assert Neighbors(es) == Copies(e.neighbor, 11) + [last.neighbor];
    EncodedReport(es);
    TextOfReport(EncodeAll(es), es, []);
  }

  lemma TwelveLines(n: Neighbor, last: Neighbor)
    requires n == Bare(1, 10, 100).neighbor && last == Bare(0, 0, 0).neighbor
    ensures var ns := Copies(n, 11) + [last]; |Render(ns)| == 513 && LastStart(ns) == 512
  {
    BareLength(1, 10, 100);
    BareLength(0, 0, 0);
    TwoAndThreeDigits();
    RenderCopies(n, 11);
    RenderMore(Copies(n, 11), last);
    hide Bare, Line, Head, Render, LastStart, Copies;
    assert Times(11, 43) == 473;
  }

  lemma TwoAndThreeDigits()
    ensures |Dec(0)| == |Dec(1)| == 1 && |Dec(10)| == 2 && |Dec(100)| == 3
  {
    assert |Dec(10)| == |Dec(1)| + 1;
    assert |Dec(100)| == |Dec(10)| + 1;
  }

  // ---------- in place ----------

  /** One more line: what the loop adds. */
  lemma RenderMore(ns: seq<Neighbor>, n: Neighbor)
    ensures Render(ns + [n]) == Render(ns) + Line(n)
    ensures LastStart(ns + [n]) == |Render(ns)| + |Head(n)| && LastStart(ns) <= |Render(ns)|
  {
    assert (ns + [n])[..|ns|] == ns;
  }

  lemma WalkMore(r: seq<byte>, d: nat, ns: seq<Neighbor>)
    requires WalkedSoFar(r, d, ns) && d + 2 + MIN_LEN <= |r|
    ensures !ElementOk(r, d) ==> Walk(r, 0) == Walked(ns, true)
    ensures ElementOk(r, d) ==>
              d + 2 + r[d + 1] <= |r| && WalkedSoFar(r, d + 2 + r[d + 1], ns + [NeighborAt(r, d + 2)])
  {
    hide SubelementsOk, NeighborAt;
    if ElementOk(r, d) {
      var q := d + 2 + r[d + 1];
      assert ns + ([NeighborAt(r, d + 2)] + Walk(r, q).neighbors) == ns + [NeighborAt(r, d + 2)] + Walk(r, q).neighbors;
    }
  }

  class NeighborText {
    const buf: array<char>
    var len: nat
    var inside: bool // every `snprintf` so far started within the buffer
    ghost var text: string

    ghost predicate Valid()
      reads this, buf
    {
      && buf.Length == MAX_TEXT && len == |text|
      && (inside ==> buf[..|Shown(text)|] == Shown(text) && buf[|Shown(text)|] == NUL)
    }

    /** calloc */
    constructor ()
      ensures Valid() && fresh(buf) && inside && text == ""
    {
      buf := new char[MAX_TEXT](_ => NUL);
      len, inside, text := 0, true, "";
    }

    /** len += snprintf(buf + len, MAX_NEIGHBOR_LEN - len, piece) */
    method Print(piece: string, ghost t: string, ghost line: string)
      requires Valid() && text == t + line
      modifies this`len, this`inside, this`text, buf
      ensures Valid() && text == t + (line + piece) && inside == (old(inside) && old(len) <= MAX_TEXT)
    {
      ghost var all := text + piece;
      assert all == t + (line + piece);
      if len <= MAX_TEXT {
        var room := MAX_TEXT - len;
        if room > 0 {
          var k := Min(|piece|, room - 1);
          var i := 0;
          while i < k
            modifies buf
            invariant i <= k
            invariant inside ==> buf[..len + i] == all[..len + i]
          {
            buf[len + i] := piece[i];
            i := i + 1;
          }
          buf[len + k] := NUL;
        }
      } else {
        inside := false;
      }
      len := len + |piece|;
      text := all;
    }

    /** What the caller reads in the buffer. */
    method CString() returns (s: string)
      requires Valid() && inside
      ensures s == Shown(text)
    {
      s := buf[..Min(len, MAX_TEXT - 1)];
    }

    method PrintNeighbor(report: array<byte>, nr: nat)
      requires Valid() && nr + MIN_LEN <= report.Length
      modifies this`len, this`inside, this`text, buf
      ensures Valid() && text == old(text) + Line(NeighborAt(report[..], nr))
      ensures inside == (old(inside) && |old(text)| + |Head(NeighborAt(report[..], nr))| <= MAX_TEXT)
    {
      ghost var t, n := text, NeighborAt(report[..], nr);
      var mac := PrintMac(report[nr..nr + 6]);
      var info := "0x" + Hex4(FromLe32(report[nr + 6], report[nr + 7], report[nr + 8], report[nr + 9]));
      var opClass, channel, phy := Dec(report[nr + 10]), Dec(report[nr + 11]), Dec(report[nr + 12]);
      assert report[nr..nr + 6] == n.bssid;
      hide Valid, PrintMac, Hex4, Dec, NeighborAt;
      Print(" neighbor=", t, "");
      Print(mac, t, " neighbor=");
      Print(",", t, " neighbor=" + mac);
      Print(info, t, " neighbor=" + mac + ",");
      Print(",", t, " neighbor=" + mac + "," + info);
      Print(opClass, t, " neighbor=" + mac + "," + info + ",");
      Print(",", t, " neighbor=" + mac + "," + info + "," + opClass);
      Print(channel, t, " neighbor=" + mac + "," + info + "," + opClass + ",");
      Print(",", t, " neighbor=" + mac + "," + info + "," + opClass + "," + channel);
      Print(phy, t, " neighbor=" + mac + "," + info + "," + opClass + "," + channel + ",");
    }
  }

  /** The inner loop; false is its `goto cleanup`. */
  method CheckSubelements(report: array<byte>, start: nat, end: nat) returns (ok: bool)
    requires start <= end <= report.Length
    ensures ok == SubelementsOk(report[..], start, end)
  {
    var pos := start;
    while end - pos > 2
      invariant start <= pos <= end
      invariant SubelementsOk(report[..], start, end) == SubelementsOk(report[..], pos, end)
    {
      var sLen := report[pos + 1];
      pos := pos + 2;
      if sLen > end - pos {
        return false;
      }
      pos := pos + sLen;
    }
    return true;
  }

  /** The body of the outer loop up to the printing; false is a `goto cleanup`. */
  method CheckElement(report: array<byte>, data: nat, reportLen: nat) returns (ok: bool)
    requires data + reportLen == report.Length && reportLen >= 2 + MIN_LEN
    ensures ok == ElementOk(report[..], data)
  {
    var nrLen := report[data + 1];
    if report[data] != NEIGHBOR_REPORT || nrLen < MIN_LEN {
      return false;
    }
    if 2 + nrLen > reportLen {
      return false;
    }
    ok := CheckSubelements(report, data + 2 + MIN_LEN, data + 2 + nrLen);
  }

  /** The outer loop; `ret` is negative after a `goto cleanup`. */
  method VisitElements(report: array<byte>, list: NeighborText) returns (ret: int)
    requires list.Valid() && list.inside && list.text == ""
    modifies list`len, list`inside, list`text, list.buf
    ensures list.Valid()
    ensures var w := Walk(report[..], 0);
            && list.text == Render(w.neighbors) && list.inside == (LastStart(w.neighbors) <= MAX_TEXT)
            && (ret < 0) == w.bad
  {
    hide Walk, WalkedSoFar, Render, Line, Head, LastStart, NeighborAt, ElementOk, list.Valid;
    var data, reportLen := 0, report.Length;
    ghost var r, ns := report[..], [];
    ret := 0;
    StartOfWalk(r);
    while reportLen >= 2 + MIN_LEN && ret == 0
      invariant data + reportLen == report.Length && reportLen >= 0 && report[..] == r && ret <= 0
      invariant list.Valid() && list.text == Render(ns) && list.inside == (LastStart(ns) <= MAX_TEXT)
      invariant if ret == 0 then WalkedSoFar(r, data, ns) else Walk(r, 0) == Walked(ns, true)
      decreases reportLen, ret == 0
    {
      var ok := CheckElement(report, data, reportLen);
      WalkMore(r, data, ns);
      if !ok {
        ret := -1;
      } else {
        list.PrintNeighbor(report, data + 2);
        RenderMore(ns, NeighborAt(r, data + 2));
        ns := ns + [NeighborAt(r, data + 2)];
        var nrLen: int := report[data + 1];
        reportLen := reportLen - (2 + nrLen);
        data := data + 2 + nrLen;
      }
    }
    if ret == 0 {
      EndOfWalk(r, data, ns);
    }
  }

  method GetBtmNeighborList(report: array?<byte>) returns (out: Outcome)
    ensures out == Result(if report == null then [] else report[..])
  {
    if report == null || report.Length == 0 {
      return NoList;
    }
    hide Walk, Render, LastStart, Shown;
    var list := new NeighborText();
    var ret := VisitElements(report, list);
    if !list.inside {
      return Outside;
    }
    if ret < 0 {
      return NoList;
    }
    var text := list.CString();
    return List(text);
  }

  ghost predicate WalkedSoFar(r: seq<byte>, d: nat, ns: seq<Neighbor>) {
    d <= |r| && Walk(r, 0) == Walked(ns + Walk(r, d).neighbors, Walk(r, d).bad)
  }

  lemma StartOfWalk(r: seq<byte>)
    ensures WalkedSoFar(r, 0, []) && Render([]) == "" && LastStart([]) == 0
  {
    assert [] + Walk(r, 0).neighbors == Walk(r, 0).neighbors;
  }

  lemma EndOfWalk(r: seq<byte>, d: nat, ns: seq<Neighbor>)
    requires WalkedSoFar(r, d, ns) && |r| - d < 2 + MIN_LEN
    ensures Walk(r, 0) == Walked(ns, false)
  {
  }
}
