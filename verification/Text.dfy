/** What the C conversions %x, %02x, %04x, %u and %d write, MAC addresses in print, and isspace. */
module Text {
  import opened Bytes

  const NUL := '\0'

  /** What is read of a buffer as a C string. */
  function UpToNul(s: string): string { if s == "" || s[0] == NUL then "" else [s[0]] + UpToNul(s[1..]) }

  lemma {:induction false} UpToNulIsWhole(s: string)
    ensures NUL !in UpToNul(s) && |UpToNul(s)| <= |s| && (NUL !in s ==> UpToNul(s) == s)
    decreases |s|
  {
    if s != "" && s[0] != NUL {
      var rest := s[1..];
      UpToNulIsWhole(rest);
      assert s == [s[0]] + rest;
      assert NUL in rest ==> NUL in s;
    }
  }

  predicate IsSpace(c: char) { c == ' ' || '\t' <= c <= '\r' }

  /** isspace in the C locale: HT, LF, VT, FF, CR and the space. */
  lemma SpaceTable(c: char)
    ensures IsSpace(c) <==> c as int in [9, 10, 11, 12, 13, 32]
  {
  }

  /** The first place of a mark. */
  function First(s: string, mark: char): (k: nat)
    requires mark in s
    ensures k < |s| && s[k] == mark && mark !in s[..k]
  {
    if s[0] == mark then 0 else 1 + First(s[1..], mark)
  }

  lemma {:induction false} FirstIs(s: string, mark: char, k: nat)
    requires k < |s| && s[k] == mark && mark !in s[..k]
    ensures mark in s && First(s, mark) == k
    decreases k
  {
    assert s[k] in s;
    if k > 0 {
      assert s[..k][0] == s[0] && s[1..][..k - 1] == s[..k][1..];
      FirstIs(s[1..], mark, k - 1);
    }
  }

  function HexDigit(d: nat): char
    requires d < 16
  {
    if d < 10 then '0' + d as char else 'a' + (d - 10) as char
  }

  function Hex2(b: byte): (s: string)
    ensures |s| == 2
  {
    [HexDigit(b / 16), HexDigit(b % 16)]
  }

  function Hex(n: nat): string {
    if n < 16 then [HexDigit(n)] else Hex(n / 16) + [HexDigit(n % 16)]
  }

  /** %04x */
  function Hex4(n: nat): string {
    if n < 0x10 then "000" + Hex(n)
    else if n < 0x100 then "00" + Hex(n)
    else if n < 0x1000 then "0" + Hex(n)
    else Hex(n)
  }

  /** %u */
  function Dec(n: nat): string {
    if n < 10 then ['0' + n as char] else Dec(n / 10) + ['0' + (n % 10) as char]
  }

  /** %d */
  function Signed(n: int): string { if n < 0 then "-" + Dec(-n) else Dec(n) }

  function Power(base: nat, k: nat): nat { if k == 0 then 1 else base * Power(base, k - 1) }

  lemma {:induction false} HexLength(n: nat, k: nat)
    requires n < Power(16, k) && k >= 1
    ensures 1 <= |Hex(n)| <= k
    decreases k
  {
    if n >= 16 {
      assert k > 1 by { assert Power(16, 1) == 16 * Power(16, 0); }
      HexLength(n / 16, k - 1);
    }
  }

  lemma {:induction false} DecLength(n: nat, k: nat)
    requires n < Power(10, k) && k >= 1
    ensures 1 <= |Dec(n)| <= k
    decreases k
  {
    if n >= 10 {
      assert k > 1 by { assert Power(10, 1) == 10 * Power(10, 0); }
      DecLength(n / 10, k - 1);
    }
  }

  lemma Hex4Length(n: nat)
    requires n < TWO_32
    ensures 4 <= |Hex4(n)| <= 8
  {
    assert Power(16, 8) == TWO_32 by {
      assert Power(16, 2) == 256;
      assert Power(16, 4) == 65536;
      assert Power(16, 6) == 16777216;
    }
    HexLength(n, 8);
    if n >= 0x1000 {
      assert |Hex(n)| == 1 + |Hex(n / 16)| == 2 + |Hex(n / 16 / 16)|;
      HexLength(n / 16 / 16 / 16, 8);
    } else if n >= 0x100 {
      HexLength(n, 3) by { assert Power(16, 3) == 4096; }
      assert |Hex(n)| == 1 + |Hex(n / 16)| == 2 + |Hex(n / 16 / 16)|;
    } else if n >= 0x10 {
      assert |Hex(n)| == 1 + |Hex(n / 16)|;
    }
  }

  lemma ByteLength(b: byte)
    ensures 1 <= |Dec(b)| <= 3
  {
    assert Power(10, 3) == 1000;
    DecLength(b, 3);
  }

  // ---------- reading the digits back ----------

  const DIGITS := "0123456789abcdef"

  /** The place of a digit in the alphabet of `base`. */
  predicate IsDigit(base: nat, c: char) {
    if c <= '9' then '0' <= c && c as int - '0' as int < base else 'a' <= c <= 'f' && c as int - 'a' as int + 10 < base
  }

  function DigitValue(c: char): int { if c <= '9' then c as int - '0' as int else c as int - 'a' as int + 10 }

  /** The number that a row of digits writes. */
  function Number(base: nat, s: string): int {
    if s == "" then 0 else base * Number(base, s[..|s| - 1]) + DigitValue(s[|s| - 1])
  }

  /** Digits of `base`, and no zero in front of another digit. */
  predicate Numeral(base: nat, s: string) {
    s != "" && (forall i | 0 <= i < |s| :: IsDigit(base, s[i])) && (|s| > 1 ==> s[0] != '0')
  }

  lemma DigitTable(d: nat)
    requires d < 16
    ensures HexDigit(d) == DIGITS[d] && IsDigit(16, HexDigit(d)) && DigitValue(HexDigit(d)) == d
    ensures d < 10 ==> '0' + d as char == DIGITS[d] && IsDigit(10, DIGITS[d])
  {
  }

  /** %u writes the number in decimal. */
  lemma {:induction false} DecReads(n: nat)
    ensures Numeral(10, Dec(n)) && Number(10, Dec(n)) == n && (n > 0 ==> Dec(n)[0] != '0')
  {
    DigitTable(n % 10);
    var last := ['0' + (n % 10) as char];
    if n >= 10 {
      DecReads(n / 10);
      assert Dec(n) == Dec(n / 10) + last && Dec(n)[..|Dec(n)| - 1] == Dec(n / 10);
    } else {
      assert Number(10, Dec(n)[..0]) == 0;
    }
  }

  /** %x writes it in hexadecimal ... */
  lemma {:induction false} HexReads(n: nat)
    ensures Numeral(16, Hex(n)) && Number(16, Hex(n)) == n && (n > 0 ==> Hex(n)[0] != '0')
  {
    DigitTable(n % 16);
    if n >= 16 {
      HexReads(n / 16);
      assert Hex(n) == Hex(n / 16) + [HexDigit(n % 16)] && Hex(n)[..|Hex(n)| - 1] == Hex(n / 16);
    } else {
      assert Number(16, Hex(n)[..0]) == 0;
    }
  }

  lemma {:induction false} LeadingZero(base: nat, s: string)
    ensures Number(base, "0" + s) == Number(base, s)
    decreases |s|
  {
    if s == "" {
      assert ("0" + s)[..0] == "" && ("0" + s)[0] == '0';
    } else {
      LeadingZero(base, s[..|s| - 1]);
      assert ("0" + s)[..|s|] == "0" + s[..|s| - 1];
    }
  }

  /** ... %04x in at least four digits, of which the first is a zero only among four ... */
  lemma Hex4Reads(n: nat)
    ensures Number(16, Hex4(n)) == n && |Hex4(n)| >= 4 && forall i | 0 <= i < |Hex4(n)| :: IsDigit(16, Hex4(n)[i])
    ensures |Hex4(n)| > 4 ==> Numeral(16, Hex4(n))
  {
    HexReads(n);
    HexHasDigits(n);
    var s := Hex(n);
    hide Hex, Number;
    LeadingZero(16, s);
    LeadingZero(16, "0" + s);
    LeadingZero(16, "0" + ("0" + s));
    assert "00" + s == "0" + ("0" + s) && "000" + s == "0" + ("0" + ("0" + s));
  }

  lemma HexHasDigits(n: nat)
    ensures |Hex(n)| == if n < 0x10 then 1 else if n < 0x100 then 2 else if n < 0x1000 then 3 else |Hex(n)|
    ensures n >= 0x1000 ==> |Hex(n)| >= 4
  {
    if n >= 0x10 {
      assert |Hex(n)| == 1 + |Hex(n / 16)|;
      if n >= 0x100 {
        assert |Hex(n / 16)| == 1 + |Hex(n / 16 / 16)|;
        if n >= 0x1000 {
          assert |Hex(n / 16 / 16)| == 1 + |Hex(n / 16 / 16 / 16)|;
          HexReads(n / 16 / 16 / 16);
        }
      }
    }
  }

  /** ... and %02x a byte in two. */
  lemma Hex2Reads(b: byte)
    ensures Number(16, Hex2(b)) == b && IsDigit(16, Hex2(b)[0]) && IsDigit(16, Hex2(b)[1])
  {
    DigitTable(b / 16);
    DigitTable(b % 16);
    var s := Hex2(b);
    assert s[..1][..0] == "" && s[..1][0] == s[0];
    assert Number(16, s[..1]) == 16 * Number(16, s[..1][..0]) + b / 16;
  }

  /** What a decimal number with or without a sign stands for. */
  function SignedNumber(s: string): int {
    if s != "" && s[0] == '-' then -Number(10, s[1..]) else Number(10, s)
  }

  /** %d writes the number with its sign, and no "-0". */
  lemma SignedReads(n: int)
    ensures SignedNumber(Signed(n)) == n
    ensures var s := Signed(n); Numeral(10, if n < 0 then s[1..] else s) && (n < 0 <==> s[0] == '-')
  {
    DecReads(if n < 0 then -n else n);
    if n < 0 {
      assert Signed(n)[1..] == Dec(-n);
    } else {
      assert IsDigit(10, Dec(n)[0]);
    }
  }

  type Mac = m: seq<byte> | |m| == 6 witness [0, 0, 0, 0, 0, 0]

  /** "%02x:%02x:%02x:%02x:%02x:%02x", which is also what MACSTR stands for. */
  function PrintMac(m: Mac): (s: string)
    ensures |s| == 17
  {
    Hex2(m[0]) + ":" + Hex2(m[1]) + ":" + Hex2(m[2]) + ":" + Hex2(m[3]) + ":" + Hex2(m[4]) + ":" + Hex2(m[5])
  }

  lemma SixPieces(a: string, b: string, c: string, d: string, e: string, f: string)
    ensures a + ":" + b + ":" + c + ":" + d + ":" + e + ":" + f
         == a + (":" + (b + (":" + (c + (":" + (d + (":" + (e + (":" + f)))))))))
  {
    assert a + ":" + b + ":" + c + ":" + d + (":" + (e + (":" + f)))
        == a + ":" + b + ":" + c + ":" + d + ":" + e + ":" + f;
    assert a + ":" + b + (":" + (c + (":" + (d + (":" + (e + (":" + f)))))))
        == a + ":" + b + ":" + c + ":" + d + (":" + (e + (":" + f)));
  }
}
