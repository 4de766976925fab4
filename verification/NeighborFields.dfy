/**
 * Reading the neighbor text back: a parser of its own takes the text apart and finds, line by line, the
 * bytes that stand at their places in the elements of the report.
 */
module NeighborFields {
  import opened Bytes
  import opened NeighborReport
  import opened Text

  // ---------- the parser ----------

  /** The fields between the marks. */
  function Split(s: string, mark: char): seq<string>
    decreases |s|
  {
    if mark !in s then [s] else
    var k := First(s, mark);
    [s[..k]] + Split(s[k + 1..], mark)
  }

  /** One line as it is read back: the address, the 32-bit number and the three bytes behind it. */
  datatype Fields = Fields(address: seq<int>, info: int, opClass: int, channel: int, phy: int)

  function Numbers(base: nat, fields: seq<string>): (ns: seq<int>)
    ensures |ns| == |fields| && forall i | 0 <= i < |fields| :: ns[i] == Number(base, fields[i])
  {
    seq(|fields|, i requires 0 <= i < |fields| => Number(base, fields[i]))
  }

  const NAME := "neighbor="

  function ReadLine(s: string): Option<Fields> { ReadFields(Split(s, ',')) }

  function ReadFields(f: seq<string>): Option<Fields> {
    if |f| == 5 && NAME <= f[0] && "0x" <= f[1] then
      Some(Fields(Numbers(16, Split(f[0][|NAME|..], ':')), Number(16, f[1][2..]),
                  Number(10, f[2]), Number(10, f[3]), Number(10, f[4])))
    else None
  }

  /** The lines of the text, each behind a space. */
  function Lines(text: string): seq<string> { Split(text, ' ')[1..] }

  /** What is to be read for the element at position `d` of the report. */
  function FieldsAt(r: seq<byte>, d: nat): Fields
    requires d + 15 <= |r|
  {
    Fields([r[d + 2], r[d + 3], r[d + 4], r[d + 5], r[d + 6], r[d + 7]],
           r[d + 8] as int + 256 * r[d + 9] as int + 65536 * r[d + 10] as int + 16777216 * r[d + 11] as int,
           r[d + 12], r[d + 13], r[d + 14])
  }

  /** The line shows the element at position `d` of the report. */
  ghost predicate ReadsAs(line: string, r: seq<byte>, d: nat) {
    d + 15 <= |r| && r[d] == 52 && ReadLine(line) == Some(FieldsAt(r, d))
  }

  // ---------- splitting what was joined ----------

  function Joined(fields: seq<string>, mark: char): string
    requires fields != []
  {
    if |fields| == 1 then fields[0] else fields[0] + ([mark] + Joined(fields[1..], mark))
  }

  lemma {:induction false} SplitFirst(a: string, mark: char, rest: string)
    requires mark !in a
    ensures Split(a + ([mark] + rest), mark) == [a] + Split(rest, mark)
  {
    var s := a + ([mark] + rest);
    assert s[..|a|] == a && s[|a| + 1..] == rest;
    FirstIs(s, mark, |a|);
  }

  lemma {:induction false} SplitJoined(fields: seq<string>, mark: char)
    requires fields != [] && forall f <- fields :: mark !in f
    ensures Split(Joined(fields, mark), mark) == fields
    decreases |fields|
  {
    if |fields| > 1 {
      SplitJoined(fields[1..], mark);
      SplitFirst(fields[0], mark, Joined(fields[1..], mark));
    }
  }

  // ---------- a line ----------

  lemma NoMark(base: nat, s: string, mark: char)
    requires base <= 16 && (forall i | 0 <= i < |s| :: IsDigit(base, s[i])) && mark in [' ', ',', ':']
    ensures mark !in s
  {
  }

  lemma NumeralMarks(s: string, mark: char)
    requires Numeral(10, s) && mark in [' ', ',', ':']
    ensures mark !in s
  {
    NoMark(10, s, mark);
  }

  lemma Hex2Marks(b: byte, mark: char)
    requires mark in [' ', ',', ':']
    ensures mark !in Hex2(b)
  {
    Hex2Reads(b);
    NoMark(16, Hex2(b), mark);
  }

  function MacFields(m: Mac): seq<string> { [Hex2(m[0]), Hex2(m[1]), Hex2(m[2]), Hex2(m[3]), Hex2(m[4]), Hex2(m[5])] }

  lemma {:induction false} JoinTwo(a: string, b: string, mark: char)
    ensures Joined([a, b], mark) == a + ([mark] + b)
  {
    assert [a, b][1..] == [b];
  }

  lemma JoinMore(a: string, more: seq<string>, mark: char)
    requires more != []
    ensures Joined([a] + more, mark) == a + ([mark] + Joined(more, mark))
  {
    assert ([a] + more)[1..] == more;
  }

  lemma JoinFive(a: string, b: string, c: string, d: string, e: string, mark: char)
    ensures Joined([a, b, c, d, e], mark) == a + ([mark] + (b + ([mark] + (c + ([mark] + (d + ([mark] + e)))))))
  {
    JoinTwo(d, e, mark);
    JoinMore(c, [d, e], mark);
    JoinMore(b, [c, d, e], mark);
    JoinMore(a, [b, c, d, e], mark);
    assert [c] + [d, e] == [c, d, e] && [b] + [c, d, e] == [b, c, d, e] && [a] + [b, c, d, e] == [a, b, c, d, e];
  }

  lemma MacIsJoined(m: Mac)
    ensures PrintMac(m) == Joined(MacFields(m), ':')
  {
    hide Hex2;
    var a, b, c, d, e, f := Hex2(m[0]), Hex2(m[1]), Hex2(m[2]), Hex2(m[3]), Hex2(m[4]), Hex2(m[5]);
    JoinFive(b, c, d, e, f, ':');
    JoinMore(a, [b, c, d, e, f], ':');
    assert [a] + [b, c, d, e, f] == MacFields(m);
    hide MacFields, Joined;
    SixPieces(a, b, c, d, e, f);
  }

  lemma MacReads(m: Mac)
    ensures Numbers(16, Split(PrintMac(m), ':')) == m
    ensures ',' !in PrintMac(m) && ' ' !in PrintMac(m)
  {
    var f := MacFields(m);
    forall i | 0 <= i < 6 ensures f[i] == Hex2(m[i]) && ':' !in f[i] && ',' !in f[i] && ' ' !in f[i] {
      Hex2Marks(m[i], ':');
      Hex2Marks(m[i], ',');
      Hex2Marks(m[i], ' ');
    }
    MacIsJoined(m);
    hide Hex2, PrintMac, MacFields;
    SplitJoined(f, ':');
    JoinedMarks(f, ':', ',');
    JoinedMarks(f, ':', ' ');
    forall i | 0 <= i < 6 ensures Numbers(16, f)[i] == m[i] { Hex2Reads(m[i]); }
  }

  lemma {:induction false} JoinedMarks(fields: seq<string>, mark: char, other: char)
    requires fields != [] && mark != other && forall f <- fields :: other !in f
    ensures other !in Joined(fields, mark)
    decreases |fields|
  {
    if |fields| > 1 {
      JoinedMarks(fields[1..], mark, other);
    }
  }

  /** The line without its leading space, as its five fields. */
  function LineFields(n: Neighbor): seq<string> {
    [NAME + PrintMac(n.bssid), "0x" + Hex4(n.info), Dec(n.opClass), Dec(n.channel), Dec(n.phy)]
  }

  lemma LineIsJoined(n: Neighbor)
    ensures Line(n) == " " + Joined(LineFields(n), ',')
  {
    hide PrintMac, Hex4, Dec;
    var m, i, o, c, p := PrintMac(n.bssid), "0x" + Hex4(n.info), Dec(n.opClass), Dec(n.channel), Dec(n.phy);
    JoinFive(NAME + m, i, o, c, p, ',');
    assert " neighbor=" == " " + NAME;
    LinePieces(" ", NAME, m, i, o, c, p);
  }

  lemma LinePieces(s: string, name: string, m: string, i: string, o: string, c: string, p: string)
    ensures s + name + m + "," + i + "," + o + "," + c + "," + p
         == s + (name + m + ("," + (i + ("," + (o + ("," + (c + ("," + p))))))))
  {
    assert s + name + m + "," + i + "," + o + ("," + (c + ("," + p)))
        == s + name + m + "," + i + "," + o + "," + c + "," + p;
    assert s + name + m + ("," + (i + ("," + (o + ("," + (c + ("," + p)))))))
        == s + name + m + "," + i + "," + o + ("," + (c + ("," + p)));
  }

  lemma LineMarks(n: Neighbor)
    ensures forall f <- LineFields(n) :: ',' !in f && ' ' !in f
  {
    hide PrintMac, Hex4, Dec, Number, Numbers, Split, Numeral;
    MacReads(n.bssid);
    Hex4Reads(n.info);
    NoMark(16, Hex4(n.info), ',');
    NoMark(16, Hex4(n.info), ' ');
    forall b: byte ensures ',' !in Dec(b) && ' ' !in Dec(b) {
      DecReads(b);
      NumeralMarks(Dec(b), ',');
      NumeralMarks(Dec(b), ' ');
    }
  }

  lemma LineSplits(n: Neighbor)
    ensures Split(Joined(LineFields(n), ','), ',') == LineFields(n) && ' ' !in Joined(LineFields(n), ',')
  {
    LineMarks(n);
    hide LineFields;
    assert LineFields(n) != [] by { LineFieldsFive(n); }
    SplitJoined(LineFields(n), ',');
    JoinedMarks(LineFields(n), ',', ' ');
  }

  lemma LineFieldsFive(n: Neighbor)
    ensures |LineFields(n)| == 5
  {
  }

  lemma FieldsRead(m: string, i: string, o: string, c: string, p: string)
    ensures ReadFields([NAME + m, "0x" + i, o, c, p])
         == Some(Fields(Numbers(16, Split(m, ':')), Number(16, i), Number(10, o), Number(10, c), Number(10, p)))
  {
    hide Split, Number, Numbers;
    assert (NAME + m)[|NAME|..] == m && ("0x" + i)[2..] == i;
  }

  lemma TailOf(a: string, b: string)
    requires a == " " + b
    ensures a[1..] == b
  {
  }

  /** What is read back of a line. */
  lemma LineReads(n: Neighbor)
    ensures |Line(n)| > 0 && Line(n) == " " + Line(n)[1..] && ' ' !in Line(n)[1..]
    ensures ReadLine(Line(n)[1..]) == Some(Fields(n.bssid, n.info, n.opClass, n.channel, n.phy))
  {
    hide Line, Joined, Split, PrintMac, Hex4, Dec, Number, Numbers, ReadFields;
    LineIsJoined(n);
    LineSplits(n);
    TailOf(Line(n), Joined(LineFields(n), ','));
    MacReads(n.bssid);
    Hex4Reads(n.info);
    DecReads(n.opClass);
    DecReads(n.channel);
    DecReads(n.phy);
    FieldsRead(PrintMac(n.bssid), Hex4(n.info), Dec(n.opClass), Dec(n.channel), Dec(n.phy));
  }

  // ---------- the whole text ----------

  lemma {:induction false} LinesOfText(ns: seq<Neighbor>)
    ensures var f := Split(Render(ns), ' ');
            && |f| == |ns| + 1
            && forall k | 0 <= k < |ns| :: |Line(ns[k])| > 0 && f[k + 1] == Line(ns[k])[1..]
    decreases |ns|
  {
    if ns != [] {
      hide *;
      var before, last := ns[..|ns| - 1], ns[|ns| - 1];
      assert ns == before + [last];
      LinesOfText(before);
      LineReads(last);
      RenderMore(before, last);
      SplitSnoc(Render(before), ' ', Line(last)[1..]);
      var f := Split(Render(before), ' ');
      forall k | 0 <= k < |ns|
        ensures |Line(ns[k])| > 0 && (f + [Line(last)[1..]])[k + 1] == Line(ns[k])[1..]
      {
        if k < |before| {
          assert ns[k] == before[k];
        }
      }
    } else {
      assert Render(ns) == "" && Split("", ' ') == [""];
    }
  }

  lemma {:induction false} SplitStep(s: string, mark: char)
    requires mark in s
    ensures var k := First(s, mark);
            Split(s, mark) == [s[..k]] + Split(s[k + 1..], mark) && s == s[..k] + ([mark] + s[k + 1..])
  {
    hide First;
    CutAtMark(s, First(s, mark));
  }

  lemma CutAtMark(s: string, k: nat)
    requires k < |s|
    ensures s == s[..k] + ([s[k]] + s[k + 1..])
  {
  }

  lemma {:induction false} SplitSnoc(s: string, mark: char, last: string)
    requires mark !in last
    ensures Split(s + ([mark] + last), mark) == Split(s, mark) + [last]
    decreases |s|
  {
    hide First;
    if mark in s {
      hide Split;
      var k := First(s, mark);
      var a, rest, end := s[..k], s[k + 1..], [mark] + last;
      SplitStep(s, mark);
      SplitSnoc(rest, mark, last);
      RegroupInner(a, [mark], rest, end);
      SplitFirst(a, mark, rest + end);
    } else {
      SplitFirst(s, mark, last);
    }
  }

  /** Where the k-th element stands in the report. */
  ghost function StartOf(es: seq<Element>, k: nat): nat
    requires k <= |es| && forall e <- es :: Fits(e)
  {
    if k == 0 then 0 else |Encode(es[0])| + StartOf(es[1..], k - 1)
  }

  lemma {:induction false} ElementStands(r: seq<byte>, d: nat, es: seq<Element>, k: nat)
    requires k < |es| && (forall e <- es :: Fits(e)) && PartOf(EncodeAll(es), r, d)
    ensures PartOf(Encode(es[k]), r, d + StartOf(es, k))
    decreases k
  {
    var t, u := Encode(es[0]), EncodeAll(es[1..]);
    PartOfPart(t, u, r, d);
    if k > 0 {
      hide Encode;
      ElementStands(r, d + |t|, es[1..], k - 1);
    }
  }

  lemma ElementReads(r: seq<byte>, d: nat, e: Element)
    requires Fits(e) && PartOf(Encode(e), r, d)
    ensures |Line(e.neighbor)| > 0 && ReadsAs(Line(e.neighbor)[1..], r, d)
  {
    hide Line, ReadLine, Encode, Fits, SubelementsOk;
    EncodedElementIsOk(r, d, e);
    LineReads(e.neighbor);
    assert r[d + 2..d + 8] == [r[d + 2], r[d + 3], r[d + 4], r[d + 5], r[d + 6], r[d + 7]];
  }

  /**
   * For every well-formed report that fits: the text has one line for each element, in order, and the k-th
   * line reads as the bytes of the k-th element: six of the address, four of the number, and three more.
   */
  lemma TextReadsBack(r: seq<byte>, es: seq<Element>, tail: seq<byte>)
    requires IsReport(r, es, tail) && |Render(Neighbors(es))| < MAX_TEXT && r != []
    ensures Result(r).List? && forall e <- es :: Fits(e)
    ensures var lines := Lines(Result(r).text);
            && |lines| == |es|
            && forall k | 0 <= k < |es| :: ReadsAs(lines[k], r, StartOf(es, k))
  {
    hide *;
    var ns := Neighbors(es);
    FitsAsText(r, es, tail);
    LinesOfText(ns);
    forall k | 0 <= k < |es|
      ensures |Line(ns[k])| > 0 && ReadsAs(Line(ns[k])[1..], r, StartOf(es, k))
    {
      ElementStands(r, 0, es, k);
      LineReads(ns[k]);
      ElementReads(r, StartOf(es, k), es[k]);
    }
    TailLines(Result(r).text, Split(Render(ns), ' '));
  }

  lemma TailLines(text: string, f: seq<string>)
    requires f == Split(text, ' ') && |f| >= 1
    ensures Lines(text) == f[1..]
  {
  }

  lemma FitsAsText(r: seq<byte>, es: seq<Element>, tail: seq<byte>)
    requires IsReport(r, es, tail) && |Render(Neighbors(es))| < MAX_TEXT && r != []
    ensures (forall e <- es :: Fits(e)) && Result(r) == List(Render(Neighbors(es))) && PartOf(EncodeAll(es), r, 0)
  {
    TextOfReport(r, es, tail);
    hide Result, Render;
  }
}
