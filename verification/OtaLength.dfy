/**
 * Which number the slicer learns: whatever stands before and behind the key line, a decimal length with
 * any blanks before it is read as itself.
 */
module OtaLength {
  import opened Bytes
  import opened OtaChunks
  import opened OtaSlicer
  import opened Text

  predicate Decimal(s: string) { forall i | 0 <= i < |s| :: '0' <= s[i] <= '9' }

  predicate Blanks(s: string) { forall i | 0 <= i < |s| :: IsSpace(s[i]) }

  /** The digits that have been read up to `m`. */
  function Fold(t: string, i: nat, m: nat, acc: int): int
    requires i <= m <= |t|
    decreases m - i
  {
    if i == m then acc else Fold(t, i + 1, m, 10 * acc + DigitValue(t[i]))
  }

  lemma {:induction false} FoldLast(t: string, i: nat, m: nat, acc: int)
    requires i < m <= |t|
    ensures Fold(t, i, m, acc) == 10 * Fold(t, i, m - 1, acc) + DigitValue(t[m - 1])
    decreases m - i
  {
    if i + 1 < m {
      FoldLast(t, i + 1, m, 10 * acc + DigitValue(t[i]));
    }
  }

  lemma {:induction false} FoldIsNumber(t: string, i: nat, m: nat)
    requires i <= m <= |t|
    ensures Fold(t, i, m, 0) == Number(10, t[i..m])
    decreases m - i
  {
    if i < m {
      FoldLast(t, i, m, 0);
      FoldIsNumber(t, i, m - 1);
      assert t[i..m][..m - i - 1] == t[i..m - 1];
    }
  }

  lemma {:induction false} DigitsFold(t: string, i: nat, m: nat, j: nat, acc: nat)
    requires i <= m <= j <= |t| && Decimal(t[i..m]) && (m < j ==> !('0' <= t[m] <= '9'))
    ensures Digits(t, i, j, acc) == Fold(t, i, m, acc)
    decreases m - i
  {
    if i < m {
      assert t[i] == t[i..m][0] && t[i..m][1..] == t[i + 1..m];
      DigitsFold(t, i + 1, m, j, 10 * acc + (t[i] as int - '0' as int));
    }
  }

  lemma DigitsRead(t: string, i: nat, s: string, j: nat)
    requires PartOf(s, t, i) && i + |s| <= j <= |t| && Decimal(s)
    requires i + |s| < j ==> !('0' <= t[i + |s|] <= '9')
    ensures Digits(t, i, j, 0) == Number(10, s)
  {
    assert t[i..i + |s|] == s;
    DigitsFold(t, i, i + |s|, j, 0);
    FoldIsNumber(t, i, i + |s|);
  }

  /** atoi: blanks, a sign or none, and then exactly the digits that follow. */
  lemma {:induction false} AtoiReads(t: string, i: nat, blanks: string, sign: string, s: string, j: nat)
    requires PartOf(blanks + (sign + s), t, i) && i + |blanks + (sign + s)| <= j <= |t|
    requires Blanks(blanks) && sign in ["", "+", "-"] && s != "" && Decimal(s)
    requires var e := i + |blanks + (sign + s)|; e < j ==> !('0' <= t[e] <= '9')
    ensures Atoi(t, i, j) == if sign == "-" then -Number(10, s) else Number(10, s)
    decreases |blanks|
  {
    PartOfPart(blanks, sign + s, t, i);
    if blanks != "" {
      assert t[i] == blanks[0] && blanks == [blanks[0]] + blanks[1..];
      assert blanks[1..] + (sign + s) == (blanks + (sign + s))[1..];
      PartOfPart([blanks[0]], blanks[1..] + (sign + s), t, i) by {
        assert [blanks[0]] + (blanks[1..] + (sign + s)) == blanks + (sign + s);
      }
      AtoiReads(t, i + 1, blanks[1..], sign, s, j);
    } else {
      PartOfPart(sign, s, t, i);
      DigitsRead(t, i + |sign|, s, j);
      assert t[i] == (sign + s)[0];
      assert '0' <= s[0] <= '9' && !IsSpace('+') && !IsSpace('-');
    }
  }

  const KEY_LINE := "Content-Length: "

  lemma {:induction false} NumeralIsDecimal(s: string)
    requires Numeral(10, s)
    ensures Decimal(s) && '\r' !in s
  {
    forall i | 0 <= i < |s| ensures '0' <= s[i] <= '9' {
      assert IsDigit(10, s[i]);
    }
  }

  /** The first CRLF behind a row of characters that are none. */
  lemma EndOfField(h: string, i: nat, field: string)
    requires PartOf(field + CRLF, h, i) && '\r' !in field
    ensures Find(h, CRLF, i) == Some(i + |field|)
  {
    PartOfPart(field, CRLF, h, i);
    forall k | i <= k < i + |field| ensures !MatchAt(h, CRLF, k) {
      assert h[i + (k - i)] == field[k - i] && field[k - i] in field && CRLF[0] == '\r';
      assert h[k + 0] != CRLF[0];
    }
    forall k | 0 <= k < |CRLF| ensures h[i + |field| + k] == CRLF[k] {}
    FindIs(h, CRLF, i, i + |field|);
  }

  lemma FieldIsRead(h: string, i: nat, blanks: string, s: string)
    requires PartOf(blanks + s, h, i) && Blanks(blanks) && s != "" && Decimal(s)
    ensures Atoi(h, i, i + |blanks + s|) == Number(10, s)
  {
    hide Decimal, Blanks, Atoi, Number, PartOf;
    assert blanks + ("" + s) == blanks + s;
    assert i + |blanks + s| <= |h| by { EndOfPart(blanks + s, h, i); }
    AtoiReads(h, i, blanks, "", s, i + |blanks + s|);
  }

  lemma EndOfPart(v: string, t: string, c: nat)
    requires PartOf(v, t, c)
    ensures c + |v| <= |t|
  {
  }

  lemma Behind(a: string, key: string, field: string, b: string)
    ensures PartOf(field, a + key + field + b, |a| + |key|)
  {
  }

  lemma FindLengthIs(h: string, i: nat, j: nat, n: u32)
    requires Visible(h) == h && FieldBehind(h, KEY, CRLF) == Value((i, j)) && i <= j <= |h| && Atoi(h, i, j) == n
    ensures FindLength(h) == Value(n)
  {
    hide FieldBehind, Visible, Atoi;
  }

  lemma NotIn(a: string, b: string, c: char)
    requires c !in a && c !in b
    ensures c !in a + b
  {
  }

  lemma NumeralIsLearnt(h: string, p: nat, blanks: string, s: string)
    requires NUL !in h && Find(h, KEY, 0) == Some(p) && PartOf(blanks + s + CRLF, h, p + 16)
    requires Blanks(blanks) && '\r' !in blanks && Numeral(10, s) && 0 <= Number(10, s) < TWO_32
    requires |blanks + s| < 32
    ensures FindLength(h) == Value(Number(10, s))
  {
    hide *;
    var i, field := p + 16, blanks + s;
    NumeralIsDecimal(s);
    NotIn(blanks, s, '\r');
    AllVisible(h);
    EndOfPart(field + CRLF, h, i);
    EndOfField(h, i, field);
    PartOfPart(field, CRLF, h, i);
    NumeralHasDigits(s);
    FieldIsRead(h, i, blanks, s);
    FieldIs(h, KEY, CRLF, p, i + |field|);
    FindLengthIs(h, i, i + |field|, Number(10, s));
  }

  lemma NumeralHasDigits(s: string)
    requires Numeral(10, s)
    ensures s != ""
  {
  }

  /** The length that the slicer learns is the one that is announced, for every 32-bit number. */
  lemma LengthIsRead(h: string, a: string, blanks: string, n: u32, b: string)
    requires h == a + KEY_LINE + (blanks + Dec(n) + CRLF) + b && NUL !in h
    requires Find(h, "Content-Length", 0) == Some(|a|)
    requires Blanks(blanks) && '\r' !in blanks && |blanks| + |Dec(n)| < 32
    ensures FindLength(h) == Value(n)
  {
    assert KEY == "Content-Length";
    hide *;
    KeyLineLength();
    DecReads(n);
    Behind(a, KEY_LINE, blanks + Dec(n) + CRLF, b);
    NumeralIsLearnt(h, |a|, blanks, Dec(n));
  }

  lemma KeyLineLength()
    ensures |KEY_LINE| == 16
  {
  }

  // ---------- behind a NUL ----------

  lemma VisibleUpTo(a: string, x: string)
    requires NUL !in a
    ensures Visible(a + ([NUL] + x)) == a
  {
    var t := a + ([NUL] + x);
    NulFirst(t, 0);
    var n := NulAt(t, 0);
    forall k | 0 <= k < |a| ensures t[k] != NUL { assert t[k] == a[k] && a[k] in a; }
    assert t[|a|] == NUL;
    assert n == |a|;
    assert t[..|a|] == a;
  }

  /** No length is read behind a NUL ... */
  lemma NulHidesTheLength(a: string, x: string)
    requires NUL !in a
    ensures FindLength(a + ([NUL] + x)) == FindLength(a)
  {
    VisibleUpTo(a, x);
    AllVisible(a);
    hide Visible, FieldBehind, Atoi;
  }

  /** ... nor is the header ended there. */
  lemma {:induction false} NulHidesTheRest(a: string, x: string, i: nat, known: bool)
    requires NUL !in a && (a == "" || a[|a| - 1] == '\n') && i <= |a| && LineStart(a, i)
    requires forall j | 0 <= j < |a| - 1 && LineStart(a, j) && a[j + 1] == '\n' :: a[j] == '\n'
    ensures Walk(a + ([NUL] + x), i, known) == More
    decreases |a| - i
  {
    var t := a + ([NUL] + x);
    if i < |a| {
      var n := LineLen(t, i);
      assert t[i] == a[i] && a[i] in a && t[|a| - 1] == '\n';
      assert forall j :: i <= j < i + n - 1 ==> t[j] != '\n';
      assert i + n <= |a| && a[i + n - 1] == '\n';
      NulHidesTheRest(a, x, i + n, known);
    }
  }
}
