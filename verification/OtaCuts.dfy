/**
 * Every split of the response, cuts inside header lines included: such a cut makes the task give up
 * before it has written anything.
 */
module OtaCuts {
  import opened Bytes
  import opened OtaChunks
  import opened OtaSlicer
  import opened Text

  /** `chunks` cuts `t` from position `c` on, anywhere. */
  ghost predicate Cuts(chunks: seq<string>, t: string, c: nat)
    requires c <= |t|
    decreases |chunks|
  {
    if chunks == [] then c == |t|
    else
      var d := c + |chunks[0]|;
      0 < |chunks[0]| <= RECV_MAX && d <= |t| && chunks[0] == t[c..d] && Cuts(chunks[1..], t, d)
  }

  /** The lines of a chunk that ends in the middle of one of them. */
  lemma {:induction false} WalkCut(h: string, t: string, text: string, c: nat, i: nat, known: bool)
    requires PartOf(h, t, 0) && PartOf(text, t, c) && HeaderLines(h)
    requires i <= |text| && c + |text| < |h| && LineStart(h, c + i) && !LineStart(h, c + |text|)
    ensures Walk(text, i, known) == Fatal
    decreases |text| - i
  {
    assert text[i] == h[c + i] && h[c + i] in h;
    var n := LineLen(text, i);
    if n <= |text| - i {
      forall k | c + i <= k < c + i + n - 1 ensures h[k] != '\n' {
        assert h[k] == text[k - c];
      }
      assert h[c + i + n - 1] == text[i + n - 1];
      LastLine(h, c + i, n);
      WalkCut(h, t, text, c, i + n, known);
    }
  }

  /** Whether the chunk ends between the key and the end of its line, so that the C code searches beyond it. */
  ghost predicate CutsField(h: string, key: nat, c: nat, d: nat)
    requires OneLine(h, KEY, CRLF) && Find(h, KEY, 0) == Some(key)
  {
    c <= key && key + |KEY| <= d < Find(h, CRLF, key + 16).value + |CRLF|
  }

  lemma FieldCut(h: string, t: string, v: string, c: nat, key: nat)
    requires PartOf(h, t, 0) && PartOf(v, t, c) && OneLine(h, KEY, CRLF) && Find(h, KEY, 0) == Some(key) && c <= key
    requires CutsField(h, key, c, c + |v|)
    ensures FieldBehind(v, KEY, CRLF) == Wild
  {
    var q := Find(h, CRLF, key + 16).value;
    assert Find(h, CRLF, key + 16) == Some(q);
    hide Find;
    FindInPart(h, t, KEY, 0, key, v, c, 0);
    if key - c + 16 <= |v| {
      FindInPart(h, t, CRLF, key + 16, q, v, c, key - c + 16);
    }
  }

  lemma FieldNotCut(h: string, t: string, v: string, c: nat, key: nat)
    requires PartOf(h, t, 0) && PartOf(v, t, c) && OneLine(h, KEY, CRLF) && Find(h, KEY, 0) == Some(key) && c <= key
    requires !CutsField(h, key, c, c + |v|)
    ensures FieldBehind(v, KEY, CRLF) != Wild
  {
    var q := Find(h, CRLF, key + 16).value;
    assert Find(h, CRLF, key + 16) == Some(q);
    hide Find;
    if q + |CRLF| <= c + |v| {
      FieldPresent(h, t, KEY, CRLF, v, c, key, q);
    } else {
      FindInPart(h, t, KEY, 0, key, v, c, 0);
    }
  }

  /** A part of a header has no NUL to stop at. */
  lemma PartIsVisible(h: string, t: string, text: string, c: nat)
    requires PartOf(h, t, 0) && PartOf(text, t, c) && NUL !in h && c + |text| < |h|
    ensures Visible(text) == text
  {
    forall k | 0 <= k < |text| ensures text[k] != NUL { assert text[k] == h[c + k] && h[c + k] in h; }
    AllVisible(text);
  }

  lemma LearnCut(v: Variant, f: Firm, h: string, t: string, key: nat, c: nat, text: string)
    requires IsHeader(h) && ValidVariant(v) && Find(h, KEY, 0) == Some(key)
    requires PartOf(h, t, 0) && PartOf(text, t, c) && c + |text| < |h|
    requires if c <= key then f.contentLen == 0 else f.contentLen != 0
    ensures Learn(v, f, text).None? <==> CutsField(h, key, c, c + |text|)
  {
    PartIsVisible(h, t, text, c);
    hide Find, HeaderLines, Visible, NulAt;
    if c <= key {
      if CutsField(h, key, c, c + |text|) {
        FieldCut(h, t, text, c, key);
      } else {
        FieldNotCut(h, t, text, c, key);
      }
    }
    hide FieldBehind, OneLine;
  }

  lemma ParseIs(v: Variant, f: Firm, text: string)
    requires ValidVariant(v) && text != "" && text[0] != NUL && (forall known :: Walk(text, 0, known) == Fatal)
    ensures ParseHttp(v, f, text).1 == if Learn(v, f, text).None? then Undefined else Fatal
  {
  }

  lemma ParseCut(v: Variant, f: Firm, h: string, t: string, key: nat, c: nat, text: string)
    requires IsHeader(h) && ValidVariant(v) && Find(h, KEY, 0) == Some(key)
    requires PartOf(h, t, 0) && PartOf(text, t, c) && text != ""
    requires c + |text| < |h| && LineStart(h, c) && !LineStart(h, c + |text|)
    requires if c <= key then f.contentLen == 0 else f.contentLen != 0
    ensures ParseHttp(v, f, text).1 == if CutsField(h, key, c, c + |text|) then Undefined else Fatal
  {
    FirstByte(h, t, c, text);
    LearnCut(v, f, h, t, key, c, text);
    WalkCut(h, t, text, c, 0, false);
    WalkCut(h, t, text, c, 0, true);
    hide *;
    ParseIs(v, f, text);
  }

  /** A chunk that ends inside a header line ends the task, without a byte written. */
  lemma CutChunk(v: Variant, s: Session, h: string, t: string, key: nat, c: nat, text: string)
    requires IsHeader(h) && ValidVariant(v) && Find(h, KEY, 0) == Some(key)
    requires PartOf(h, t, 0) && PartOf(text, t, c) && text != ""
    requires c + |text| < |h| && !LineStart(h, c + |text|) && HeaderAt(s, PlanOf(v, h), h, key, c)
    ensures var r := Feed(v, s, text);
            r.flash == "" && r.exit == if CutsField(h, key, c, c + |text|) then Crashed else GaveUp
  {
    PlanPositive(v, h);
    ParseCut(v, s.f, h, t, key, c, text);
    hide ParseHttp, IsHeader, CutsField, PlanOf, Find, LineStart;
  }

  lemma CutHead(h: string, b: string, c: nat, chunks: seq<string>)
    requires c <= |h + b| && Cuts(chunks, h + b, c) && !Splits(chunks, h + b, c, |h|)
    ensures chunks != []
    ensures var d := c + |chunks[0]|;
            && d < |h| && d <= |h + b| && 0 < |chunks[0]| <= RECV_MAX
            && PartOf(h, h + b, 0) && PartOf(chunks[0], h + b, c)
            && Cuts(chunks[1..], h + b, d) && (LineStart(h, d) ==> !Splits(chunks[1..], h + b, d, |h|))
  {
    CutInHeader(chunks, h + b, c, |h|);
  }

  /** Some chunk ends inside a header line; those before it do not. */
  lemma {:induction false} CutFrom(
      v: Variant, s: Session, h: string, b: string, key: nat, c: nat, chunks: seq<string>)
    requires IsHeader(h) && ValidVariant(v) && Find(h, KEY, 0) == Some(key)
    requires c <= |h + b| && At(s, PlanOf(v, h), h, b, key, c) && Cuts(chunks, h + b, c)
    requires !Splits(chunks, h + b, c, |h|)
    ensures var r := Finished(FeedAll(v, s, chunks)); r.flash == "" && (r.exit.GaveUp? || r.exit.Crashed?)
    decreases |chunks|
  {
    hide *;
    CutHead(h, b, c, chunks);
    var text, d := chunks[0], c + |chunks[0]|;
    FeedFirst(v, s, chunks);
    if LineStart(h, d) {
      WholeLinesStep(v, s, h, b, key, c, text);
      CutFrom(v, Feed(v, s, text), h, b, key, d, chunks[1..]);
    } else {
      AtHeader(s, PlanOf(v, h), h, b, key, c);
      CutChunk(v, s, h, h + b, key, c, text);
      Stopped(Feed(v, s, text));
      FeedAllStops(v, Feed(v, s, text), chunks[1..]);
    }
  }

  lemma FeedFirst(v: Variant, s: Session, chunks: seq<string>)
    requires ValidVariant(v) && chunks != []
    ensures FeedAll(v, s, chunks) == FeedAll(v, Feed(v, s, chunks[0]), chunks[1..])
  {
  }

  lemma AtHeader(s: Session, p: Plan, h: string, b: string, key: nat, c: nat)
    requires c < |h| && At(s, p, h, b, key, c)
    ensures HeaderAt(s, p, h, key, c)
  {
  }

  lemma Stopped(s: Session)
    requires s.exit.GaveUp? || s.exit.Crashed?
    ensures Finished(s) == s && !s.exit.Receiving?
  {
  }

  /** A chunk of whole header lines keeps the state, since it does not reach the image. */
  lemma WholeLinesStep(v: Variant, s: Session, h: string, b: string, key: nat, c: nat, text: string)
    requires IsHeader(h) && ValidVariant(v) && Find(h, KEY, 0) == Some(key)
    requires c + |text| < |h| && 0 < |text| <= RECV_MAX && PartOf(text, h + b, c) && LineStart(h, c + |text|)
    requires At(s, PlanOf(v, h), h, b, key, c)
    ensures At(Feed(v, s, text), PlanOf(v, h), h, b, key, c + |text|)
  {
    hide Feed, IsHeader, PlanOf, At, Find, LineStart, PartOf;
    FeedStep(v, s, h, b, key, c, text);
  }

  lemma {:induction false} CutInHeader(chunks: seq<string>, t: string, c: nat, h: nat)
    requires c <= |t| && h <= |t| && Cuts(chunks, t, c) && !Splits(chunks, t, c, h)
    ensures chunks != [] && c + |chunks[0]| < h
    decreases |chunks|
  {
    if chunks != [] && c + |chunks[0]| >= h {
      CutInHeader(chunks[1..], t, c + |chunks[0]|, h);
    }
  }

  /**
   * For every split of the response whatsoever: flash holds exactly the image and the loop was left in
   * order if and only if no header line is cut and the chunk that reaches the image ends inside it; and
   * with a header line cut nothing is written at all.
   */
  lemma GoodImageIff(v: Variant, h: string, b: string, chunks: seq<string>)
    requires IsHeader(h) && ValidVariant(v) && Cuts(chunks, h + b, 0)
    ensures var p, r := PlanOf(v, h), Download(v, chunks);
            && (GoodImage(r, p, b) <==>
                  Splits(chunks, h + b, 0, |h|) && CrossingFits(chunks, h, 0, p.off, p.size))
            && (!Splits(chunks, h + b, 0, |h|) ==> r.flash == "" && (r.exit.GaveUp? || r.exit.Crashed?))
  {
    if Splits(chunks, h + b, 0, |h|) {
      FlashHoldsTheSlice(v, h, b, chunks);
    } else {
      CutFrom(v, Begin(), h, b, Find(h, KEY, 0).value, 0, chunks);
    }
  }
}
