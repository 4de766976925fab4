/**
 * The text codecs of the provisioning page: url_decode (section 2.1 of RFC 3986, and '+' for a space),
 * parse_mac_address, and the way of a BSSID from the scan list through a form back to six bytes.
 */
module UrlCodec {
  import opened Bytes
  import opened Text

  predicate IsHex(c: char) { '0' <= c <= '9' || 'a' <= c <= 'f' || 'A' <= c <= 'F' }

  /** What the source's subtractions make of a hexadecimal digit. */
  function Value(c: char): (v: nat)
    requires IsHex(c)
    ensures v < 16
  {
    var upper := if c >= 'a' then c as int - ('a' as int - 'A' as int) else c as int;
    if upper >= 'A' as int then upper - ('A' as int - 10) else upper - '0' as int
  }

  predicate IsEscape(s: string) { |s| >= 3 && s[0] == '%' && IsHex(s[1]) && IsHex(s[2]) }

  /** The whole decoding, of any text. */
  function Decode(s: string): string {
    if s == "" then ""
    else if IsEscape(s) then [(16 * Value(s[1]) + Value(s[2])) as char] + Decode(s[3..])
    else if s[0] == '+' then " " + Decode(s[1..])
    else [s[0]] + Decode(s[1..])
  }

  /**
   * e is one of the form encodings of t: every character as itself, as '+' or escaped, in either case.  A
   * percent sign that starts no escape stands for itself.
   */
  predicate Encodes(e: string, t: string)
    decreases |t|
  {
    if t == "" then e == "" else
    || (e != "" && e[0] == t[0] && !IsEscape(e) && e[0] != '+' && Encodes(e[1..], t[1..]))
    || (e != "" && e[0] == '+' && t[0] == ' ' && Encodes(e[1..], t[1..]))
    || (IsEscape(e) && 16 * Value(e[1]) + Value(e[2]) == t[0] as int && Encodes(e[3..], t[1..]))
  }

  /** Decoding gives back the text of each of its encodings. */
  lemma {:induction false} EncodingsDecode(e: string, t: string)
    requires Encodes(e, t)
    ensures Decode(e) == t
    decreases |t|
  {
    if t != "" {
      assert t == [t[0]] + t[1..];
      if IsEscape(e) && 16 * Value(e[1]) + Value(e[2]) == t[0] as int && Encodes(e[3..], t[1..]) {
        EncodingsDecode(e[3..], t[1..]);
      } else {
        EncodingsDecode(e[1..], t[1..]);
      }
    }
  }

  /** Nor does it decode to anything else: decoding is exactly the inverse of encoding, on every text. */
  lemma {:induction false} DecodesIff(e: string, t: string)
    ensures Decode(e) == t <==> Encodes(e, t)
    decreases |e|
  {
    if Encodes(e, t) {
      EncodingsDecode(e, t);
    }
    if Decode(e) == t && e != "" {
      var n := if IsEscape(e) then 3 else 1;
      assert t == [t[0]] + Decode(e[n..]) && t[1..] == Decode(e[n..]);
      DecodesIff(e[n..], t[1..]);
    }
  }

  /** The digits in both cases, and no other character is one. */
  lemma HexTable(c: char, d: nat)
    requires d < 16
    ensures IsHex(c) && Value(c) == d <==> c == "0123456789abcdef"[d] || c == "0123456789ABCDEF"[d]
  {
  }

  /** What a form leaves as it is. */
  predicate Safe(c: char) { '0' <= c <= '9' || 'a' <= c <= 'z' || 'A' <= c <= 'Z' || c in "-._*" }

  /** The usual form encoding is one of them, for text of single bytes. */
  function FormEncode(t: string): string {
    if t == "" then ""
    else if Safe(t[0]) then [t[0]] + FormEncode(t[1..])
    else if t[0] == ' ' then "+" + FormEncode(t[1..])
    else "%" + Hex2(t[0] as int % 256) + FormEncode(t[1..])
  }

  lemma HexValue(d: nat)
    requires d < 16
    ensures var c := HexDigit(d); IsHex(c) && Value(c) == d && c != 'x' && c != 'X' && !IsSpace(c)
  {
  }

  lemma EscapeOf(b: byte, rest: string)
    ensures var e := "%" + Hex2(b) + rest; IsEscape(e) && 16 * Value(e[1]) + Value(e[2]) == b && e[3..] == rest
  {
    HexValue(b / 16);
    HexValue(b % 16);
  }

  lemma NoEscape(e: string)
    ensures e != "" && e[0] != '%' ==> !IsEscape(e)
  {
  }

  lemma {:induction false} FormEncodeEncodes(t: string)
    requires forall i | 0 <= i < |t| :: t[i] as int < 256
    ensures Encodes(FormEncode(t), t)
    decreases |t|
  {
    hide IsEscape, Value, Hex2;
    if t != "" {
      FormEncodeEncodes(t[1..]);
      NoEscape(FormEncode(t));
      if Safe(t[0]) {
        assert FormEncode(t)[1..] == FormEncode(t[1..]);
      } else if t[0] == ' ' {
        assert FormEncode(t)[1..] == FormEncode(t[1..]);
      } else {
        EscapeOf(t[0] as int, FormEncode(t[1..]));
      }
    }
  }

  // ---------- parse_mac_address ----------

  datatype Scanned = Mismatch | Scanned(value: nat, rest: string)

  function SkipSpace(s: string): string { if s != "" && IsSpace(s[0]) then SkipSpace(s[1..]) else s }

  /** The digits of %x, clamped to 32 bits as strtoul does. */
  function Digits(s: string, value: nat): (nat, string)
    decreases |s|
  {
    if s != "" && IsHex(s[0]) then Digits(s[1..], Min(16 * value + Value(s[0]), TWO_32 - 1)) else (value, s)
  }

  function AfterSign(s: string): string { if s != "" && (s[0] == '-' || s[0] == '+') then s[1..] else s }

  function AfterPrefix(s: string): string {
    if |s| >= 3 && s[0] == '0' && (s[1] == 'x' || s[1] == 'X') && IsHex(s[2]) then s[2..] else s
  }

  /** One %x of sscanf: blanks, a sign, 0x, and at least one digit. */
  function ScanHex(s: string): Scanned {
    var s := SkipSpace(s);
    var negative := s != "" && s[0] == '-';
    var s := AfterPrefix(AfterSign(s));
    if s == "" || !IsHex(s[0]) then Mismatch else
    var (value, rest) := Digits(s, 0);
    Scanned(if negative then Sub32(0, value) else value, rest)
  }

  predicate AllHex(s: string) { forall i | 0 <= i < |s| :: IsHex(s[i]) }

  predicate Blanks(s: string) { forall i | 0 <= i < |s| :: IsSpace(s[i]) }

  /** The number that hexadecimal digits write behind the number `before`. */
  function HexNumber(s: string, before: nat): nat {
    if s == "" then before else HexNumber(s[1..], 16 * before + if IsHex(s[0]) then Value(s[0]) else 0)
  }

  lemma {:induction false} HexNumberGrows(s: string, before: nat)
    ensures HexNumber(s, before) >= before
    decreases |s|
  {
    if s != "" {
      HexNumberGrows(s[1..], 16 * before + if IsHex(s[0]) then Value(s[0]) else 0);
    }
  }

  lemma {:induction false} DigitsRead(digits: string, rest: string, before: nat)
    requires AllHex(digits) && (rest == "" || !IsHex(rest[0]))
    ensures Digits(digits + rest, Min(before, TWO_32 - 1)) == (Min(HexNumber(digits, before), TWO_32 - 1), rest)
    decreases |digits|
  {
    if digits == "" {
      assert digits + rest == rest;
    } else {
      assert (digits + rest)[1..] == digits[1..] + rest;
      DigitsRead(digits[1..], rest, 16 * before + Value(digits[0]));
    }
  }

  lemma {:induction false} SkipBlanks(blanks: string, rest: string)
    requires Blanks(blanks) && (rest == "" || !IsSpace(rest[0]))
    ensures SkipSpace(blanks + rest) == rest
    decreases |blanks|
  {
    if blanks == "" {
      assert blanks + rest == rest;
    } else {
      assert (blanks + rest)[1..] == blanks[1..] + rest;
      SkipBlanks(blanks[1..], rest);
    }
  }

  /** No 0x can be read out of the digits and what follows them. */
  predicate NoPrefix(digits: string, rest: string) {
    digits == "0" && |rest| >= 2 && rest[0] in "xX" ==> !IsHex(rest[1])
  }

  /** %x reads blanks, a sign or none, 0x or none, and all the digits that follow; it stops at 32 bits. */
  lemma ScanHexReads(blanks: string, sign: string, prefix: string, digits: string, rest: string)
    requires Blanks(blanks) && sign in ["", "+", "-"] && prefix in ["", "0x", "0X"]
    requires digits != "" && AllHex(digits) && (rest == "" || !IsHex(rest[0]))
    requires prefix == "" ==> NoPrefix(digits, rest)
    ensures var v := Min(HexNumber(digits, 0), TWO_32 - 1);
            ScanHex(blanks + (sign + (prefix + (digits + rest))))
              == Scanned(if sign == "-" then Sub32(0, v) else v, rest)
  {
    var body := digits + rest;
    var signed := sign + (prefix + body);
    SignIs(sign, prefix, digits, rest);
    PrefixIs(prefix, digits, rest);
    SkipBlanks(blanks, signed);
    assert body != "" && body[0] == digits[0] && IsHex(digits[0]);
    hide SkipSpace, Blanks, HexNumber, Digits, AfterSign, AfterPrefix, AllHex, IsHex, NoPrefix, IsSpace;
    DigitsRead(digits, rest, 0);
  }

  lemma SignIs(sign: string, prefix: string, digits: string, rest: string)
    requires sign in ["", "+", "-"] && prefix in ["", "0x", "0X"] && digits != "" && AllHex(digits)
    ensures var x := prefix + (digits + rest);
            && AfterSign(sign + x) == x && sign + x != "" && !IsSpace((sign + x)[0])
            && ((sign + x)[0] == '-' <==> sign == "-")
  {
    var x := prefix + (digits + rest);
    assert IsHex(x[0]) by { assert x[0] == if prefix == "" then digits[0] else '0'; }
    assert sign != "" ==> (sign + x)[1..] == x && (sign + x)[0] == sign[0];
    assert sign == "" ==> sign + x == x;
  }

  lemma PrefixIs(prefix: string, digits: string, rest: string)
    requires prefix in ["", "0x", "0X"] && digits != "" && AllHex(digits)
    requires prefix == "" ==> NoPrefix(digits, rest)
    ensures AfterPrefix(prefix + (digits + rest)) == digits + rest
  {
    var body := digits + rest;
    if prefix != "" {
      var s := prefix + body;
      assert s[2] == body[0] == digits[0] && IsHex(digits[0]) && s[0] == '0' && s[1] == prefix[1];
      assert s[2..] == body;
    } else {
      assert prefix + body == body;
      assert |digits| >= 2 ==> body[1] == digits[1] && IsHex(digits[1]);
      assert |digits| == 1 && |rest| >= 1 ==> body[1] == rest[0];
      assert |digits| == 1 && |rest| >= 2 ==> body[2] == rest[1];
      assert digits[0] == '0' && |digits| == 1 ==> digits == "0";
    }
  }

  /** Without a digit there it reads nothing. */
  lemma ScanHexNeedsADigit(blanks: string, sign: string, rest: string)
    requires Blanks(blanks) && sign in ["", "+", "-"]
    requires rest == "" || (!IsHex(rest[0]) && (sign == "" ==> !IsSpace(rest[0]) && rest[0] != '+' && rest[0] != '-'))
    ensures ScanHex(blanks + (sign + rest)) == Mismatch
  {
    var signed := sign + rest;
    SkipBlanks(blanks, signed);
    assert sign != "" ==> signed[1..] == rest;
    assert sign == "" ==> signed == rest;
    hide SkipSpace, Blanks, Digits;
  }

  /** `n` fields of %x with ':' between them; the values that sscanf stores. */
  function ScanFields(s: string, n: nat): seq<nat>
    requires n > 0
    decreases n
  {
    match ScanHex(s)
    case Mismatch => []
    case Scanned(v, rest) =>
      if n > 1 && rest != "" && rest[0] == ':' then [v] + ScanFields(rest[1..], n - 1) else [v]
  }

  function LowBytes(f: seq<nat>): Mac
    requires |f| == 6
  {
    seq(6, i requires 0 <= i < 6 => f[i] % 256)
  }

  lemma LowBytesOfBytes(m: Mac)
    ensures LowBytes(m) == m
  {
  }

  /** parse_mac_address: six fields, each cut to a byte. */
  function ParsedMac(s: string): Option<Mac> {
    var f := ScanFields(s, 6);
    if |f| == 6 then Some(LowBytes(f)) else None
  }

  /** Any number of printed bytes with ':' between them. */
  function Colons(bs: seq<byte>): string {
    if bs == [] then "" else Hex2(bs[0]) + (if |bs| == 1 then "" else ":" + Colons(bs[1..]))
  }

  /** Printed bytes with ':' between them and anything else behind them: sscanf stores the first `n`. */
  lemma {:induction false} FieldsAreStored(bs: seq<byte>, tail: string, n: nat)
    requires bs != [] && n > 0 && (tail == "" || (!IsHex(tail[0]) && tail[0] != ':' && tail[0] !in "xX"))
    ensures ScanFields(Colons(bs) + tail, n) == bs[..Min(n, |bs|)]
    decreases |bs|
  {
    hide ScanHex, Hex2;
    if |bs| == 1 {
      ScanPrintedThen(bs[0], tail);
      assert Colons(bs) + tail == Hex2(bs[0]) + tail;
    } else {
      var more := Colons(bs[1..]) + tail;
      ScanPrintedThen(bs[0], ":" + more);
      assert Colons(bs) + tail == Hex2(bs[0]) + (":" + more);
      assert (":" + more)[1..] == more;
      if n > 1 {
        FieldsAreStored(bs[1..], tail, n - 1);
        assert bs[..Min(n, |bs|)] == [bs[0]] + bs[1..][..Min(n - 1, |bs| - 1)];
      }
    }
  }

  lemma ScanPrintedThen(b: byte, rest: string)
    requires rest == "" || (!IsHex(rest[0]) && rest[0] !in "xX")
    ensures ScanHex(Hex2(b) + rest) == Scanned(b, rest)
  {
    HexValue(b / 16);
    HexValue(b % 16);
    var s := Hex2(b) + rest;
    assert s[1..][1..] == rest;
    assert Digits(s, 0) == Digits(s[1..], b / 16) == Digits(rest, b);
  }

  /** parse_mac_address succeeds exactly with six bytes or more, and takes the first six. */
  lemma SixFieldsParse(bs: seq<byte>, tail: string)
    requires bs != [] && (tail == "" || (!IsHex(tail[0]) && tail[0] != ':' && tail[0] !in "xX"))
    ensures ParsedMac(Colons(bs) + tail) == if |bs| >= 6 then (var m: Mac := bs[..6]; Some(m)) else None
  {
    FieldsAreStored(bs, tail, 6);
    hide ScanFields, Colons;
    if |bs| >= 6 {
      LowBytesOfBytes(bs[..6]);
    }
  }

  lemma PrintMacIsColons(m: Mac)
    ensures PrintMac(m) == Colons(m)
  {
    hide Hex2;
    var h0, h1, h2, h3, h4, h5 := Hex2(m[0]), Hex2(m[1]), Hex2(m[2]), Hex2(m[3]), Hex2(m[4]), Hex2(m[5]);
    assert m[1..][1..] == m[2..] && m[2..][1..] == m[3..] && m[3..][1..] == m[4..] && m[4..][1..] == m[5..];
    assert Colons(m[5..]) == h5 + "" == h5;
    assert Colons(m[4..]) == h4 + (":" + h5);
    assert Colons(m[3..]) == h3 + (":" + (h4 + (":" + h5)));
    assert Colons(m[2..]) == h2 + (":" + (h3 + (":" + (h4 + (":" + h5)))));
    assert Colons(m[1..]) == h1 + (":" + (h2 + (":" + (h3 + (":" + (h4 + (":" + h5)))))));
    assert Colons(m) == h0 + (":" + (h1 + (":" + (h2 + (":" + (h3 + (":" + (h4 + (":" + h5)))))))));
    hide Colons;
    SixPieces(h0, h1, h2, h3, h4, h5);
  }

  /** A printed address parses back to the same six bytes. */
  lemma PrintedMacParses(m: Mac)
    ensures ParsedMac(PrintMac(m)) == Some(m)
  {
    PrintMacIsColons(m);
    SixFieldsParse(m, "");
    hide ParsedMac, Colons, PrintMac;
    assert Colons(m) + "" == Colons(m) && m[..6] == m;
  }

  /** What url_decode writes before its NUL; `dst_len - 1` wraps for 0, as `size_t` does. */
  function Fitted(text: string, dstLen: nat): string { text[..Min(|text|, Sub32(dstLen, 1))] }

  /** A text comes back from url_decode as a C string exactly if it is one and fits with its NUL. */
  lemma FieldComesBackIffItFits(t: string, e: string, dstLen: nat)
    requires Encodes(e, t) && 0 < dstLen < TWO_32
    ensures UpToNul(Fitted(Decode(e), dstLen)) == t <==> NUL !in t && |t| < dstLen
  {
    EncodingsDecode(e, t);
    UpToNulIsWhole(Fitted(t, dstLen));
  }

  /** The BSSID of the scan list, form-encoded in any way and decoded into 20 bytes, is the same BSSID. */
  lemma BssidComesBack(m: Mac, e: string)
    requires Encodes(e, PrintMac(m))
    ensures ParsedMac(Fitted(Decode(e), 20)) == Some(m)
  {
    EncodingsDecode(e, PrintMac(m));
    assert Fitted(PrintMac(m), 20) == PrintMac(m);
    PrintedMacParses(m);
  }

  // ---------- in place ----------

  lemma {:induction false} DecodeShrinks(s: string)
    ensures |Decode(s)| <= |s|
    decreases |s|
  {
    if s != "" {
      DecodeShrinks(if IsEscape(s) then s[3..] else s[1..]);
    }
  }

  lemma DecodeStep(s: string, p: nat)
    requires p < |s|
    ensures IsEscape(s[p..]) <==> p + 2 < |s| && s[p] == '%' && IsHex(s[p + 1]) && IsHex(s[p + 2])
    ensures if IsEscape(s[p..]) then
              Decode(s[p..]) == [(16 * Value(s[p + 1]) + Value(s[p + 2])) as char] + Decode(s[p + 3..])
            else Decode(s[p..]) == [if s[p] == '+' then ' ' else s[p]] + Decode(s[p + 1..])
  {
    var t := s[p..];
    assert t[1..] == s[p + 1..];
    assert IsEscape(t) ==> t[3..] == s[p + 3..];
  }

  lemma DecodeEnd()
    ensures Decode("") == "" && !IsHex(NUL)
  {
  }

  lemma FittedIs(full: string, n: nat, dstLen: nat)
    requires n <= |full| && n <= Sub32(dstLen, 1) && (n == |full| || n == Sub32(dstLen, 1))
    ensures Fitted(full, dstLen) == full[..n]
  {
  }

  /** The digit arithmetic of the source on one `char`. */
  method HexDigitValue(c: char) returns (v: nat)
    requires IsHex(c)
    ensures v == Value(c)
  {
    var a := c as int;
    if a >= 'a' as int {
      a := a - ('a' as int - 'A' as int);
    }
    if a >= 'A' as int {
      a := a - ('A' as int - 10);
    } else {
      a := a - '0' as int;
    }
    v := a;
  }

  /** One round of the loop: the next character, and where the source goes on. */
  method DecodeOne(src: array<char>, p: nat, ghost s: string) returns (c: char, q: nat)
    requires p < |s| == src.Length - 1 && NUL !in s
    requires forall i | p <= i < src.Length :: src[i] == (s + [NUL])[i]
    ensures p < q <= |s| && Decode(s[p..]) == [c] + Decode(s[q..])
  {
    hide Value, IsHex, Decode;
    DecodeEnd();
    DecodeStep(s, p);
    assert src[p] == s[p];
    assert p + 1 < |s| ==> src[p + 1] == s[p + 1];
    assert p + 2 < |s| ==> src[p + 2] == s[p + 2];
    if src[p] == '%' && src[p + 1] != NUL && src[p + 2] != NUL && IsHex(src[p + 1]) && IsHex(src[p + 2]) {
      var a := HexDigitValue(src[p + 1]);
      var b := HexDigitValue(src[p + 2]);
      return (16 * a + b) as char, p + 3;
    } else if src[p] == '+' {
      return ' ', p + 1;
    } else {
      return src[p], p + 1;
    }
  }

  /** The same with the store, which may be into the source behind its reader. */
  method DecodeAndStore(dst: array<char>, at: nat, src: array<char>, p: nat, ghost s: string)
    returns (ghost c: char, q: nat)
    requires p < |s| == src.Length - 1 && NUL !in s && at < dst.Length && (dst == src ==> at <= p)
    requires forall i | p <= i < src.Length :: src[i] == (s + [NUL])[i]
    modifies dst
    ensures p < q <= |s| && Decode(s[p..]) == [c] + Decode(s[q..]) && dst[..] == old(dst[..])[at := c]
    ensures forall i | q <= i < src.Length :: src[i] == (s + [NUL])[i]
  {
    hide Decode;
    var d;
    d, q := DecodeOne(src, p, s);
    dst[at] := d;
    c := d;
  }

  /** Both before and after the loop the destination holds part of the decoding and its old rest. */
  ghost predicate Half(now: string, before: string, full: string, n: nat) {
    n <= |full| && n <= |now| == |before| && now[..n] == full[..n] && now[n..] == before[n..]
  }

  lemma HalfMore(now: string, before: string, full: string, n: nat, c: char, rest: string)
    requires Half(now, before, full, n) && n < |now| && full[n..] == [c] + rest
    ensures Half(now[n := c], before, full, n + 1) && full[n + 1..] == rest
  {
    HeadOfRest(full, n, c, rest);
    StoreOne(now, n, c);
    assert now[n..][1..] == before[n..][1..] == before[n + 1..];
  }

  lemma HalfDone(now: string, before: string, full: string, n: nat)
    requires Half(now, before, full, n) && n < |now|
    ensures now[n := NUL] == full[..n] + [NUL] + before[n + 1..]
  {
    StoreOne(now, n, NUL);
    assert now[n..][1..] == before[n..][1..] == before[n + 1..];
  }

  /** The loop of url_decode. */
  method DecodeLoop(dst: array<char>, src: array<char>, maxWritten: nat, ghost s: string)
    returns (written: nat)
    requires |s| == src.Length - 1 && NUL !in s && src[..] == s + [NUL] && Min(|Decode(s)|, maxWritten) < dst.Length
    modifies dst
    ensures Half(dst[..], old(dst[..]), Decode(s), written) && written == Min(|Decode(s)|, maxWritten)
  {
    hide Value, IsHex, Decode, Half;
    DecodeEnd();
    ghost var before, full := dst[..], Decode(s);
    var p: nat;
    written, p := 0, 0;
    assert s[0..] == s && Half(before, before, full, 0) by { HalfNone(before, full); }
    while src[p] != NUL && written < maxWritten
      invariant p <= |s| && written <= maxWritten && written <= |full| && (dst == src ==> written <= p)
      invariant Half(dst[..], before, full, written) && full[written..] == Decode(s[p..])
      invariant forall q | p <= q < src.Length :: src[q] == (s + [NUL])[q]
      decreases |s| - p
    {
      ghost var out, at := dst[..], written;
      assert src[p] == s[p];
      ghost var c: char;
      c, p := DecodeAndStore(dst, written, src, p, s);
      written := written + 1;
      HalfMore(out, before, full, at, c, Decode(s[p..]));
    }
    if p == |s| {
      assert s[p..] == "";
    } else {
      assert src[p] == s[p] && s[p] in s;
    }
  }

  lemma HalfNone(before: string, full: string)
    ensures Half(before, before, full, 0)
  {
  }

  /**
   * url_decode, also in place (`dst` and `src` may be one buffer).  `src` is exactly a C string, so a read
   * past its NUL would be an index out of range; `dst` gets as much of the decoding as `dst_len` allows, a
   * NUL, and nothing else.
   */
  method UrlDecode(dst: array<char>, src: array<char>, dstLen: nat)
    requires src.Length > 0 && src[src.Length - 1] == NUL && NUL !in src[..src.Length - 1]
    requires |Fitted(Decode(src[..src.Length - 1]), dstLen)| < dst.Length
    modifies dst
    ensures var text := Fitted(Decode(old(src[..src.Length - 1])), dstLen);
            dst[..] == text + [NUL] + old(dst[..])[|text| + 1..]
  {
    ghost var s, before := src[..src.Length - 1], dst[..];
    assert src[..] == s + [NUL];
    var maxWritten := Sub32(dstLen, 1);
    assert Min(|Decode(s)|, maxWritten) < dst.Length;
    hide Decode, Fitted, Sub32;
    var written := DecodeLoop(dst, src, maxWritten, s);
    FittedIs(Decode(s), written, dstLen);
    ghost var out := dst[..];
    HalfDone(out, before, Decode(s), written);
    dst[written] := NUL;
    assert dst[..] == out[written := NUL];
  }

  /** parse_mac_address; `bytes` is what sscanf stored, and `mac` is written only if it stored all six. */
  method ParseMacAddress(str: string, mac: array<byte>) returns (ok: bool)
    requires mac.Length == 6
    modifies mac
    ensures ok == ParsedMac(str).Some?
    ensures mac[..] == if ok then ParsedMac(str).value else old(mac[..])
  {
    var bytes := ScanFields(str, 6);
    if |bytes| != 6 {
      return false;
    }
    for i := 0 to 6
      invariant mac[..i] == LowBytes(bytes)[..i]
    {
      mac[i] := bytes[i] % 256;
    }
    assert mac[..] == mac[..6];
    return true;
  }
}
