/**
 * What ends up in flash does not depend on how TCP cuts the response, as long as no header line is cut.
 */
module OtaChunks {
  import opened Bytes
  import opened OtaSlicer
  import opened Text

  ghost predicate LineStart(t: string, i: nat)
    requires i <= |t|
  {
    i == 0 || t[i - 1] == '\n'
  }

  /** Whole lines without NULs, of which exactly the last has two bytes. */
  ghost predicate HeaderLines(h: string) {
    && |h| >= 2 && NUL !in h && h[|h| - 1] == '\n' && h[|h| - 2] != '\n' && LineStart(h, |h| - 2)
    && forall i | 0 <= i < |h| - 2 && LineStart(h, i) && h[i + 1] == '\n' :: h[i] == '\n'
  }

  /** The first `key` and the `end` behind it stand on one line. */
  ghost predicate OneLine(h: string, key: string, end: string) {
    match Find(h, key, 0)
    case None => false
    case Some(p) =>
      && p + 16 <= |h|
      && match Find(h, end, p + 16)
         case None => false
         case Some(q) => q - (p + 16) < 32 && forall k | p <= k < q + |end| - 1 :: h[k] != '\n'
  }

  /** Whole lines, one of which announces a positive length. */
  ghost predicate IsHeader(h: string) {
    HeaderLines(h) && OneLine(h, KEY, CRLF) && FindLength(h).Value? && FindLength(h).v > 0
  }

  function LengthOf(h: string): nat
    requires FindLength(h).Value?
  {
    FindLength(h).v
  }

  /** `chunks` cuts `t` from position `c` on, and never in the middle of a line of the first `h` bytes. */
  ghost predicate Splits(chunks: seq<string>, t: string, c: nat, h: nat)
    requires c <= |t|
    decreases |chunks|
  {
    if chunks == [] then c == |t|
    else
      var d := c + |chunks[0]|;
      && 0 < |chunks[0]| <= RECV_MAX && d <= |t| && chunks[0] == t[c..d]
      && (d < h ==> LineStart(t, d))
      && Splits(chunks[1..], t, d, h)
  }

  /** The bytes of `b` that the image occupies, as far as `b` reaches. */
  function Slice(b: string, off: nat, size: nat): string {
    b[Min(off, |b|)..Min(off + size, |b|)]
  }

  // ---------- searching in a part of a text ----------

  lemma {:induction false} FindIs(t: string, pat: string, i: nat, j: nat)
    requires i <= j && MatchAt(t, pat, j) && forall k :: i <= k < j ==> !MatchAt(t, pat, k)
    ensures Find(t, pat, i) == Some(j)
    decreases j - i
  {
    if i < j {
      FindIs(t, pat, i + 1, j);
    }
  }

  lemma {:induction false} FindNone(t: string, pat: string, i: nat)
    requires forall k :: i <= k <= |t| ==> !MatchAt(t, pat, k)
    requires pat != ""
    ensures Find(t, pat, i) == None
    decreases |t| - i
  {
    if i < |t| {
      FindNone(t, pat, i + 1);
    }
  }

  lemma {:induction false} FindFirst(t: string, pat: string, i: nat)
    requires pat != ""
    ensures var r := Find(t, pat, i);
            && (r.Some? ==> MatchAt(t, pat, r.value))
            && forall k :: i <= k < (if r.Some? then r.value else |t| + 1) ==> !MatchAt(t, pat, k)
    decreases |t| - i
  {
    if !MatchAt(t, pat, i) && i < |t| {
      FindFirst(t, pat, i + 1);
    }
  }

  lemma MatchInPart(v: string, t: string, c: nat, pat: string, j: nat)
    requires PartOf(v, t, c)
    ensures MatchAt(v, pat, j) <==> MatchAt(t, pat, c + j) && j + |pat| <= |v|
  {
    if j + |pat| <= |v| {
      forall k | j <= k < j + |pat| ensures v[k] == t[c + k] {
      }
      assert MatchAt(t, pat, c + j) ==> forall k | 0 <= k < |pat| :: pat[k] == v[j + k];
    }
  }

  /** The first match of the header, searched for in a part of the response that starts before it. */
  lemma FindInPart(h: string, t: string, pat: string, i: nat, p: nat, v: string, c: nat, j: nat)
    requires PartOf(h, t, 0) && PartOf(v, t, c)
    requires pat != "" && Find(h, pat, i) == Some(p) && i <= c + j <= p
    ensures Find(v, pat, j) == if p + |pat| <= c + |v| then Some(p - c) else None
  {
    FindFirst(h, pat, i);
    forall k | j <= k <= p - c ensures MatchAt(v, pat, k) <==> k == p - c && p + |pat| <= c + |v| {
      MatchInPart(v, t, c, pat, k);
      MatchInPart(h, t, 0, pat, c + k);
      assert MatchAt(h, pat, c + k) <==> c + k == p;
    }
    if p + |pat| <= c + |v| {
      FindIs(v, pat, j, p - c);
    } else {
      assert forall k :: p - c < k ==> !MatchAt(v, pat, k);
      FindNone(v, pat, j);
    }
  }

  // ---------- header chunks ----------

  lemma {:induction false} NulFirst(t: string, i: nat)
    requires i <= |t|
    ensures var n := NulAt(t, i); (n < |t| ==> t[n] == NUL) && forall k :: i <= k < n ==> t[k] != NUL
    decreases |t| - i
  {
    if i < |t| && t[i] != NUL {
      NulFirst(t, i + 1);
    }
  }

  lemma AllVisible(t: string)
    requires NUL !in t
    ensures Visible(t) == t
  {
    NulFirst(t, 0);
  }

  /** What `strstr` sees of a header chunk: all of it, or everything up to the end of the header. */
  lemma VisiblePart(h: string, t: string, text: string, c: nat)
    requires PartOf(h, t, 0) && NUL !in h && PartOf(text, t, c)
    ensures PartOf(Visible(text), t, c) && |Visible(text)| <= |text|
    ensures Visible(text) == text || c + |Visible(text)| >= |h|
  {
    NulFirst(text, 0);
    var n := NulAt(text, 0);
    assert n < |text| ==> t[c + n] == NUL;
    assert c + n < |h| ==> h[c + n] != NUL;
  }

  lemma FieldIs(v: string, key: string, end: string, i: nat, j: nat)
    requires Find(v, key, 0) == Some(i) && Find(v, end, i + 16) == Some(j) && j - (i + 16) < 32
    requires i + 16 <= j <= |v|
    ensures FieldBehind(v, key, end) == Value((i + 16, j))
  {
  }

  /** The chunk that holds the key line holds the field of the whole header. */
  lemma FieldPresent(h: string, t: string, key: string, end: string, v: string, c: nat, p: nat, q: nat)
    requires PartOf(h, t, 0) && PartOf(v, t, c) && 0 < |key| <= 16 && end != ""
    requires Find(h, key, 0) == Some(p) && Find(h, end, p + 16) == Some(q) && q - (p + 16) < 32
    requires c <= p && q + |end| <= c + |v|
    ensures FieldBehind(v, key, end) == Value((p - c + 16, q - c))
  {
    hide Find;
    FindInPart(h, t, key, 0, p, v, c, 0);
    FindInPart(h, t, end, p + 16, q, v, c, p - c + 16);
    FieldIs(v, key, end, p - c, q - c);
  }

  /** A cut at a line end does not split the key line. */
  lemma CutBesideKeyLine(h: string, e: nat, p: nat, k: nat, q: nat)
    requires p + k <= q < |h| && (forall i | p <= i < q :: h[i] != '\n') && k > 0
    requires e < |h| ==> LineStart(h, e)
    ensures if p < e then q < e else e < p + k
  {
  }

  lemma {:induction false} DigitsInPart(h: string, v: string, c: nat, i: nat, j: nat, acc: nat)
    requires i <= j <= |v| && c + j <= |h| && forall k :: i <= k < j ==> v[k] == h[c + k]
    ensures Digits(v, i, j, acc) == Digits(h, c + i, c + j, acc)
    decreases j - i
  {
    if i < j && '0' <= v[i] <= '9' {
      DigitsInPart(h, v, c, i + 1, j, 10 * acc + (v[i] as int - '0' as int));
    }
  }

  lemma {:induction false} AtoiInPart(h: string, v: string, c: nat, i: nat, j: nat)
    requires i <= j <= |v| && c + j <= |h| && forall k :: i <= k < j ==> v[k] == h[c + k]
    ensures Atoi(v, i, j) == Atoi(h, c + i, c + j)
    decreases j - i
  {
    if i < j {
      if IsSpace(v[i]) {
        AtoiInPart(h, v, c, i + 1, j);
      } else {
        DigitsInPart(h, v, c, i + 1, j, 0);
        DigitsInPart(h, v, c, i, j, 0);
      }
    }
  }

  lemma LengthPresent(h: string, t: string, text: string, v: string, c: nat, p: nat, q: nat)
    requires PartOf(h, t, 0) && PartOf(v, t, c) && Visible(h) == h && Visible(text) == v
    requires Find(h, KEY, 0) == Some(p) && Find(h, CRLF, p + 16) == Some(q) && q - (p + 16) < 32
    requires c <= p && q + 2 <= c + |v|
    ensures FindLength(text) == FindLength(h)
  {
    hide Find;
    FieldPresent(h, t, KEY, CRLF, v, c, p, q);
    FieldPresent(h, h, KEY, CRLF, h, 0, p, q);
    AtoiInPart(h, v, c, p - c + 16, q - c);
  }

  /** The chunk that holds the key line announces the length of the whole header; earlier ones none. */
  lemma LengthInChunk(h: string, t: string, text: string, c: nat, p: nat)
    requires PartOf(h, t, 0) && PartOf(text, t, c) && NUL !in h
    requires OneLine(h, KEY, CRLF) && Find(h, KEY, 0) == Some(p)
    requires c <= p && (c + |text| < |h| ==> LineStart(h, c + |text|))
    ensures FindLength(text) == if p < c + |text| then FindLength(h) else Absent
  {
    hide Find, NulAt;
    var v := Visible(text);
    var q := Find(h, CRLF, p + 16).value;
    VisiblePart(h, t, text, c);
    AllVisible(h);
    CutBesideKeyLine(h, c + |v|, p, |KEY|, q + 1);
    if p < c + |v| {
      LengthPresent(h, t, text, v, c, p, q);
    } else {
      FindInPart(h, t, KEY, 0, p, v, c, 0);
    }
  }

  /** Only the last line of a header has two bytes. */
  lemma LastLine(h: string, j: nat, n: nat)
    requires HeaderLines(h) && 1 <= n && j + n <= |h| && LineStart(h, j) && h[j + n - 1] == '\n'
    requires forall k :: j <= k < j + n - 1 ==> h[k] != '\n'
    ensures n == 2 <==> j + n == |h|
  {
  }

  /** The line of a chunk at position `i`, as a line of the header. */
  lemma NextLine(h: string, t: string, text: string, c: nat, i: nat) returns (n: nat)
    requires PartOf(h, t, 0) && PartOf(text, t, c) && HeaderLines(h)
    requires c + i < |h| && i < |text| && LineStart(h, c + i)
    requires c + |text| < |h| ==> LineStart(h, c + |text|)
    ensures text[i] != NUL && n == LineLen(text, i)
    ensures c + i + n <= |h| && i + n <= |text| && LineStart(h, c + i + n) && (n == 2 <==> c + i + n == |h|)
  {
    n := LineLen(text, i);
    var end := if c + |text| < |h| then c + |text| - 1 else |h| - 1; // a newline of the header in the chunk
    assert text[end - c] == h[end] == '\n';
    forall k | c + i <= k < c + i + n - 1 ensures k < |h| && h[k] != '\n' {
      assert text[k - c] != '\n';
    }
    assert text[i] == h[c + i] && text[i + n - 1] == h[c + i + n - 1];
    LastLine(h, c + i, n);
  }

  /** The lines of a chunk that starts at a line of the header. */
  lemma {:induction false} WalkHeader(h: string, t: string, text: string, c: nat, i: nat, known: bool)
    requires PartOf(h, t, 0) && PartOf(text, t, c) && HeaderLines(h)
    requires c + i < |h| && i <= |text| && LineStart(h, c + i)
    requires c + |text| < |h| ==> LineStart(h, c + |text|)
    ensures Walk(text, i, known) ==
            if c + |text| < |h| then More else if known then Done(|h| - c) else Fatal
    decreases |h| - i
  {
    if i < |text| {
      var n := NextLine(h, t, text, c, i);
      if n != 2 && i + n < |text| {
        WalkHeader(h, t, text, c, i + n, known);
      }
    }
  }

  // ---------- one chunk at a time ----------

  /** How much of the body lies before position `c` of the response. */
  function Body(h: string, c: nat): nat { if c < |h| then 0 else c - |h| }

  /** A chunk that takes the body from `i` to `j` bytes is the one that reaches the image. */
  predicate Crosses(off: nat, i: nat, j: nat) { (i < off || i == 0) && 0 < j && off <= j }

  /** The chunk that reaches the image does not reach past its end. */
  ghost predicate CrossingFits(chunks: seq<string>, h: string, c: nat, off: nat, size: nat)
    decreases |chunks|
  {
    chunks == [] ||
    var d := c + |chunks[0]|;
    && (Crosses(off, Body(h, c), Body(h, d)) ==> Body(h, d) - off <= size)
    && CrossingFits(chunks[1..], h, d, off, size)
  }

  /** What the parser has learnt once it knows the length. */
  datatype Plan = Plan(len: nat, size: nat, off: nat)

  ghost function PlanOf(v: Variant, h: string): Plan
    requires IsHeader(h) && ValidVariant(v)
  {
    Plan(LengthOf(h), Size(v, LengthOf(h)), Offset(v, LengthOf(h)))
  }

  ghost predicate Knows(f: Firm, p: Plan) {
    f.contentLen == p.len && f.otaSize == p.size && f.otaOffset == p.off
  }

  /** The state when the header and `i` bytes of the body have been fed. */
  ghost predicate BodyAt(s: Session, p: Plan, b: string, i: nat)
    requires i <= |b|
  {
    && Knows(s.f, p)
    && if s.exit.Receiving? && s.f.stage.Prepare? then
         (i < p.off || i == 0) && s.f.readBytes == i && s.f.writeBytes == 0 && s.flash == ""
       else if s.exit.Receiving? then
         && s.f.stage.Start? && 0 < i && p.off <= i <= p.off + p.size
         && s.f.writeBytes == i - p.off && s.flash == b[p.off..i]
       else
         s.exit.Complete? && p.off + p.size < i && s.flash == b[p.off..p.off + p.size]
  }

  /** The state before position `c` of the header; the key stands at `key`. */
  ghost predicate HeaderAt(s: Session, p: Plan, h: string, key: nat, c: nat)
    requires c <= |h|
  {
    && (if c <= key then s.f.contentLen == 0 else Knows(s.f, p))
    && s.exit.Receiving? && s.f.stage.Init? && LineStart(h, c)
    && s.f.readBytes == s.f.writeBytes == 0 && s.flash == ""
  }

  ghost predicate At(s: Session, p: Plan, h: string, b: string, key: nat, c: nat)
    requires c <= |h + b|
  {
    if c < |h| then HeaderAt(s, p, h, key, c) else BodyAt(s, p, b, c - |h|)
  }

  /** The image has been overshot: more than `ota_size` bytes are in flash. */
  ghost predicate Overshot(s: Session, p: Plan) {
    && s.exit.Receiving? && s.f.stage.Start? && |s.flash| == s.f.writeBytes && s.f.otaSize == p.size
    && p.size < s.f.writeBytes <= p.size + RECV_MAX && p.size < TWO_32
  }

  /** In a header chunk the parser learns the plan exactly when the key line is in it. */
  lemma LearnInChunk(v: Variant, f: Firm, h: string, t: string, key: nat, c: nat, text: string)
    requires IsHeader(h) && ValidVariant(v) && Find(h, KEY, 0) == Some(key)
    requires PartOf(h, t, 0) && PartOf(text, t, c) && (c + |text| < |h| ==> LineStart(h, c + |text|))
    requires if c <= key then f.contentLen == 0 else Knows(f, PlanOf(v, h))
    ensures var l, p := Learn(v, f, text), PlanOf(v, h);
            l == Some(if c <= key < c + |text| then f.(contentLen := p.len, otaSize := p.size, otaOffset := p.off)
                      else f)
  {
    if c <= key {
      LengthInChunk(h, t, text, c, key);
    }
  }

  /** A header chunk up to the line that ends it: only the length may change. */
  lemma HeaderChunk(v: Variant, s: Session, h: string, t: string, key: nat, c: nat, text: string)
    requires IsHeader(h) && ValidVariant(v) && Find(h, KEY, 0) == Some(key)
    requires c < |h| && HeaderAt(s, PlanOf(v, h), h, key, c)
    requires PartOf(h, t, 0) && PartOf(text, t, c) && text != ""
    requires c + |text| < |h| ==> LineStart(h, c + |text|)
    ensures var (g, r) := ParseHttp(v, s.f, text);
            && (if c + |text| <= key then g.contentLen == 0 else Knows(g, PlanOf(v, h)))
            && g.stage == s.f.stage && g.readBytes == s.f.readBytes && g.writeBytes == s.f.writeBytes
            && r == if c + |text| < |h| then More else Done(|h| - c)
  {
    hide Learn, Walk, FindLength, Find, OneLine, PlanOf, LineStart;
    PlanPositive(v, h);
    FirstByte(h, t, c, text);
    LearnInChunk(v, s.f, h, t, key, c, text);
    WalkHeader(h, t, text, c, 0, c + |text| > key);
  }

  lemma PlanPositive(v: Variant, h: string)
    requires IsHeader(h) && ValidVariant(v)
    ensures PlanOf(v, h).len > 0
  {
  }

  lemma FirstByte(h: string, t: string, c: nat, text: string)
    requires NUL !in h && c < |h| && PartOf(h, t, 0) && PartOf(text, t, c) && text != ""
    ensures text[0] != NUL
  {
    assert text[0] == h[c];
  }

  /** What PREPARE does with body bytes `i` to `j`. */
  lemma PrepareStepAt(f: Firm, b: string, i: nat, text: string)
    requires PartOf(text, b, i) && f.readBytes == i && (i < f.otaOffset || i == 0)
    ensures var j, off, g := i + |text|, f.otaOffset, PrepareStep(f, text);
            if off <= j then
              && g == f.(readBytes := j, stage := Start, bytes := j - off, writeBytes := f.writeBytes + j - off,
                         buf := g.buf)
              && g.buf == b[off..j]
            else g == f.(readBytes := j)
  {
    var j := i + |text|;
    if f.otaOffset <= j {
      var excess := j - f.otaOffset;
      assert text[|text| - excess..] == b[f.otaOffset..j];
    }
  }

  /** After PREPARE the receive loop writes what lies behind the offset. */
  lemma PreparedChunk(s: Session, p: Plan, b: string, i: nat, text: string, g: Firm)
    requires PartOf(text, b, i) && |text| <= RECV_MAX && text != "" && p.size < TWO_32
    requires Knows(s.f, p) && s.f.readBytes == i && s.f.writeBytes == 0 && s.flash == "" && (i < p.off || i == 0)
    requires s.exit.Receiving? && s.f.stage.Prepare? && g == PrepareStep(s.f, text)
    ensures var j := i + |text|;
            var t := if g.stage.Start? then Session(g, s.flash + g.buf[..g.bytes], Receiving) else s.(f := g);
            && (g.stage.Start? ==> g.bytes <= |g.buf|)
            && if Crosses(p.off, i, j) && j - p.off > p.size then Overshot(t, p) else BodyAt(t, p, b, j)
  {
    PrepareStepAt(s.f, b, i, text);
  }

  lemma StartedChunk(v: Variant, s: Session, p: Plan, b: string, i: nat, text: string)
    requires ValidVariant(v) && PartOf(text, b, i) && text != "" && BodyAt(s, p, b, i) && p.size < TWO_32
    requires s.exit.Receiving? && s.f.stage.Start?
    ensures BodyAt(Feed(v, s, text), p, b, i + |text|)
  {
    var end := p.off + p.size;
    if i + |text| <= end {
      assert b[p.off..i] + text == b[p.off..i + |text|];
    } else {
      assert b[p.off..i] + text[..end - i] == b[p.off..end];
    }
  }

  lemma BodyChunk(v: Variant, s: Session, p: Plan, b: string, i: nat, text: string)
    requires ValidVariant(v) && PartOf(text, b, i) && 0 < |text| <= RECV_MAX && p.size < TWO_32
    requires BodyAt(s, p, b, i)
    ensures var t, j := Feed(v, s, text), i + |text|;
            if Crosses(p.off, i, j) && j - p.off > p.size then Overshot(t, p) else BodyAt(t, p, b, j)
  {
    if s.exit.Receiving? {
      if s.f.stage.Prepare? {
        PreparedChunk(s, p, b, i, text, PrepareStep(s.f, text));
      } else {
        StartedChunk(v, s, p, b, i, text);
      }
    }
  }

  lemma MiddleHeaderChunk(v: Variant, s: Session, p: Plan, h: string, key: nat, c: nat, text: string)
    requires ValidVariant(v) && c + |text| < |h| && LineStart(h, c + |text|) && HeaderAt(s, p, h, key, c)
    requires var (g, r) := ParseHttp(v, s.f, text);
             && (if c + |text| <= key then g.contentLen == 0 else Knows(g, p))
             && g.stage.Init? && g.readBytes == g.writeBytes == 0 && r == More
    ensures HeaderAt(Feed(v, s, text), p, h, key, c + |text|)
  {
    hide ParseHttp;
  }

  lemma LastHeaderChunk(v: Variant, s: Session, p: Plan, h: string, b: string, key: nat, c: nat, text: string, n: nat)
    requires ValidVariant(v) && PartOf(text, h + b, c) && |text| <= RECV_MAX && p.size < TWO_32
    requires c < |h| && n == |h| - c <= |text| && HeaderAt(s, p, h, key, c)
    requires var (g, r) := ParseHttp(v, s.f, text);
             Knows(g, p) && g.readBytes == g.writeBytes == 0 && r == Done(n)
    ensures var t, j := Feed(v, s, text), |text| - n;
            if Crosses(p.off, 0, j) && j - p.off > p.size then Overshot(t, p) else BodyAt(t, p, b, j)
  {
    hide ParseHttp, PrepareStep;
    var g := ParseHttp(v, s.f, text).0.(stage := Prepare);
    if n < |text| {
      var rest := text[n..];
      assert PartOf(rest, b, 0);
      PreparedChunk(s.(f := g), p, b, 0, rest, PrepareStep(g, rest));
    }
  }

  lemma FeedStep(v: Variant, s: Session, h: string, b: string, key: nat, c: nat, text: string)
    requires IsHeader(h) && ValidVariant(v) && Find(h, KEY, 0) == Some(key)
    requires c + |text| <= |h + b| && 0 < |text| <= RECV_MAX && PartOf(text, h + b, c)
    requires c + |text| < |h| ==> LineStart(h, c + |text|)
    requires At(s, PlanOf(v, h), h, b, key, c)
    ensures var p, t, i, j := PlanOf(v, h), Feed(v, s, text), Body(h, c), Body(h, c + |text|);
            if Crosses(p.off, i, j) && j - p.off > p.size then Overshot(t, p)
            else At(t, p, h, b, key, c + |text|)
  {
    hide Feed, ParseHttp, PlanOf, BodyAt;
    var p := PlanOf(v, h);
    SizeFits(v, h);
    if |h| <= c {
      BodyChunk(v, s, p, b, c - |h|, text);
    } else {
      HeaderChunk(v, s, h, h + b, key, c, text);
      if |h| <= c + |text| {
        LastHeaderChunk(v, s, p, h, b, key, c, text, |h| - c);
      } else {
        MiddleHeaderChunk(v, s, p, h, key, c, text);
      }
    }
  }

  lemma SizeFits(v: Variant, h: string)
    requires IsHeader(h) && ValidVariant(v)
    ensures PlanOf(v, h).size < TWO_32
  {
    if v.Tiled? {
      DivideShrinks(LengthOf(h), v.otaNum);
    }
  }

  lemma {:induction false} Grows(q: nat, n: nat)
    requires n > 0
    ensures q <= q * n
  {
    if n > 1 {
      Grows(q, n - 1);
      assert q * n == q * (n - 1) + q;
    }
  }

  lemma DivideShrinks(a: nat, n: nat)
    requires n > 0
    ensures a / n <= a
  {
    var q, r := a / n, a % n;
    Grows(q, n);
    assert a == q * n + r;
  }

  lemma OvershotChunk(v: Variant, s: Session, p: Plan, text: string)
    requires ValidVariant(v) && Overshot(s, p) && 0 < |text| <= RECV_MAX
    ensures Feed(v, s, text).exit.Crashed? && Feed(v, s, text).flash == s.flash
  {
  }

  // ---------- the whole download ----------

  function Finished(s: Session): Session {
    if s.exit.Receiving? then s.(exit := Closed) else s
  }

  /** The receive loop was left in order, and flash holds exactly the slice. */
  ghost predicate GoodImage(s: Session, p: Plan, b: string) {
    && s.flash == Slice(b, p.off, p.size)
    && (s.exit.Complete? || s.exit.Closed?) && (s.exit.Complete? <==> |b| > p.off + p.size)
  }

  lemma OvershotEnds(v: Variant, s: Session, p: Plan, b: string, chunks: seq<string>)
    requires ValidVariant(v) && Overshot(s, p)
    requires chunks != [] ==> 0 < |chunks[0]| <= RECV_MAX
    ensures var r := Finished(FeedAll(v, s, chunks)); !GoodImage(r, p, b) && |r.flash| > p.size
  {
    if chunks != [] {
      OvershotChunk(v, s, p, chunks[0]);
      FeedAllStops(v, Feed(v, s, chunks[0]), chunks[1..]);
    } else {
      assert |s.flash| > |Slice(b, p.off, p.size)|;
    }
  }

  lemma BodyEnds(s: Session, p: Plan, b: string)
    requires BodyAt(s, p, b, |b|)
    ensures GoodImage(Finished(s), p, b)
  {
    if s.exit.Receiving? && s.f.stage.Prepare? {
      assert Slice(b, p.off, p.size) == "";
    } else if s.exit.Receiving? {
      assert s.flash == b[p.off..|b|] == Slice(b, p.off, p.size);
    }
  }

  lemma SplitHead(h: string, b: string, c: nat, chunks: seq<string>)
    requires c <= |h + b| && Splits(chunks, h + b, c, |h|) && chunks != []
    ensures var d := c + |chunks[0]|;
            && 0 < |chunks[0]| <= RECV_MAX && d <= |h + b| && PartOf(chunks[0], h + b, c)
            && (d < |h| ==> LineStart(h, d))
            && Splits(chunks[1..], h + b, d, |h|)
            && (|chunks| > 1 ==> 0 < |chunks[1..][0]| <= RECV_MAX)
  {
  }

  lemma {:induction false} FeedFrom(v: Variant, s: Session, h: string, b: string, key: nat, c: nat, chunks: seq<string>)
    requires IsHeader(h) && ValidVariant(v) && Find(h, KEY, 0) == Some(key)
    requires c <= |h + b| && At(s, PlanOf(v, h), h, b, key, c) && Splits(chunks, h + b, c, |h|)
    ensures var p, r := PlanOf(v, h), Finished(FeedAll(v, s, chunks));
            && (CrossingFits(chunks, h, c, p.off, p.size) <==> GoodImage(r, p, b))
            && (!CrossingFits(chunks, h, c, p.off, p.size) ==> |r.flash| > p.size)
    decreases |chunks|
  {
    hide Feed, IsHeader, PlanOf, BodyAt;
    var p := PlanOf(v, h);
    if chunks == [] {
      BodyEnds(s, p, b);
    } else {
      var text, d := chunks[0], c + |chunks[0]|;
      var t := Feed(v, s, text);
      SplitHead(h, b, c, chunks);
      FeedStep(v, s, h, b, key, c, text);
      if Crosses(p.off, Body(h, c), Body(h, d)) && Body(h, d) - p.off > p.size {
        OvershotEnds(v, t, p, b, chunks[1..]);
      } else {
        FeedFrom(v, t, h, b, key, d, chunks[1..]);
      }
    }
  }

  /**
   * For every split of the response: flash holds exactly the image, as far as the response reached, and
   * the loop was left through RECVED exactly when the response went past it -- if and only if the chunk
   * that reaches the image does not reach past its end.  If it does, flash holds too much.
   */
  lemma FlashHoldsTheSlice(v: Variant, h: string, b: string, chunks: seq<string>)
    requires IsHeader(h) && ValidVariant(v) && Splits(chunks, h + b, 0, |h|)
    ensures var p := PlanOf(v, h);
            && (GoodImage(Download(v, chunks), p, b) <==> CrossingFits(chunks, h, 0, p.off, p.size))
            && (!CrossingFits(chunks, h, 0, p.off, p.size) ==> |Download(v, chunks).flash| > p.size)
  {
    var key := Find(h, KEY, 0).value;
    FeedFrom(v, Begin(), h, b, key, 0, chunks);
  }

  /** The condition holds for every split if an image is no smaller than a chunk, or ends the body. */
  lemma {:induction false} CrossingAlwaysFits(chunks: seq<string>, h: string, b: string, c: nat, off: nat, size: nat)
    requires c <= |h + b| && Splits(chunks, h + b, c, |h|)
    requires size >= RECV_MAX || |b| <= off + size
    ensures CrossingFits(chunks, h, c, off, size)
    decreases |chunks|
  {
    if chunks != [] {
      CrossingAlwaysFits(chunks[1..], h, b, c + |chunks[0]|, off, size);
    }
  }

  /** Two ways of cutting the same response leave the same flash and the same exit. */
  lemma ChunkingDoesNotMatter(v: Variant, h: string, b: string, cut: seq<string>, cut': seq<string>)
    requires IsHeader(h) && ValidVariant(v) && Splits(cut, h + b, 0, |h|) && Splits(cut', h + b, 0, |h|)
    requires var p := PlanOf(v, h); p.size >= RECV_MAX || |b| <= p.off + p.size
    ensures Download(v, cut).flash == Download(v, cut').flash == Slice(b, PlanOf(v, h).off, PlanOf(v, h).size)
    ensures Download(v, cut).exit == Download(v, cut').exit
  {
    var p := PlanOf(v, h);
    CrossingAlwaysFits(cut, h, b, 0, p.off, p.size);
    CrossingAlwaysFits(cut', h, b, 0, p.off, p.size);
    FlashHoldsTheSlice(v, h, b, cut);
    FlashHoldsTheSlice(v, h, b, cut');
  }

  /** Otherwise not: a first image that is shorter than the chunk it arrives in is overrun. */
  lemma ShortImagesCanBeOverrun(v: Variant, h: string, b: string)
    requires IsHeader(h) && ValidVariant(v) && |h| <= RECV_MAX
    requires PlanOf(v, h).off == 0 && PlanOf(v, h).size < |b| <= RECV_MAX
    ensures Splits([h, b], h + b, 0, |h|) && !GoodImage(Download(v, [h, b]), PlanOf(v, h), b)
  {
    hide Download, IsHeader, PlanOf, GoodImage;
    assert |h| > 0 by {
      HeaderNotEmpty(h);
    }
    assert [h, b][1..] == [b] && [b][1..] == [];
    assert Splits([b], h + b, |h|, |h|);
    var p := PlanOf(v, h);
    assert !CrossingFits([b], h, |h|, p.off, p.size);
    FlashHoldsTheSlice(v, h, b, [h, b]);
  }

  lemma HeaderNotEmpty(h: string)
    requires IsHeader(h)
    ensures |h| > 0
  {
  }

  const LEAST := "Content-Length: 9\r\n\r\n"

  lemma LeastFinds()
    ensures Find(LEAST, KEY, 0) == Some(0) && Find(LEAST, CRLF, 16) == Some(17)
  {
    hide Find;
    FindIs(LEAST, KEY, 0, 0);
    assert LEAST[16] != CRLF[0] && LEAST[17] == CRLF[0] && LEAST[18] == CRLF[1];
    FindIs(LEAST, CRLF, 16, 17);
  }

  lemma LeastAtoi()
    ensures Atoi(LEAST, 16, 17) == 9
  {
    assert Atoi(LEAST, 16, 17) == Digits(LEAST, 16, 17, 0) == Digits(LEAST, 17, 17, 9) == 9;
  }

  lemma LeastLength()
    ensures OneLine(LEAST, KEY, CRLF) && FindLength(LEAST) == Value(9)
  {
    hide Find, NulAt, Atoi, Digits, MatchAt;
    AllVisible(LEAST);
    LeastFinds();
    LeastAtoi();
    FieldIs(LEAST, KEY, CRLF, 0, 17);
  }

  /** The shortest header that announces a length. */
  lemma HeadersExist()
    ensures IsHeader(LEAST) && LengthOf(LEAST) == 9
  {
    hide FindLength, OneLine, KEY, CRLF;
    LeastLength();
  }

  // ---------- one image, whole or behind an old one ----------

  /** The 2+MB variant leaves the whole body in flash. */
  lemma WholeImage(h: string, b: string, chunks: seq<string>)
    requires IsHeader(h) && LengthOf(h) == |b| && Splits(chunks, h + b, 0, |h|)
    ensures Download(Whole, chunks).flash == b && Download(Whole, chunks).exit == Closed
  {
    FlashHoldsTheSlice(Whole, h, b, chunks);
    CrossingAlwaysFits(chunks, h, b, 0, 0, |b|);
    assert Slice(b, 0, |b|) == b;
  }

  /** The variant with an old firmware leaves what follows its first `skip` bytes, and nothing if there are no more. */
  lemma ImageBehind(h: string, b: string, skip: nat, chunks: seq<string>)
    requires IsHeader(h) && LengthOf(h) == |b| && Splits(chunks, h + b, 0, |h|)
    ensures Download(Skip(skip), chunks).flash == b[Min(skip, |b|)..] && Download(Skip(skip), chunks).exit == Closed
  {
    var size := Sub32(|b|, skip);
    SkipSize(|b|, skip);
    assert PlanOf(Skip(skip), h) == Plan(|b|, size, skip);
    FlashHoldsTheSlice(Skip(skip), h, b, chunks);
    hide IsHeader, PlanOf, Sub32, Splits, Download, CrossingFits;
    CrossingAlwaysFits(chunks, h, b, 0, skip, size);
  }

  lemma SkipSize(len: nat, skip: nat)
    requires len < TWO_32
    ensures len <= skip + Sub32(len, skip) && (skip <= len ==> Sub32(len, skip) == len - skip)
  {
  }

  // ---------- n images in one response ----------

  function Joined(parts: seq<string>): string {
    if parts == [] then "" else Joined(parts[..|parts| - 1]) + parts[|parts| - 1]
  }

  lemma {:induction false} TileEnds(k: nat, n: nat, size: nat)
    requires k <= n
    ensures 0 <= size * k <= size * n && size * (k + 1) == size * k + size
    decreases n - k
  {
    if k < n {
      TileEnds(k + 1, n, size);
    }
  }

  lemma {:induction false} JoinedTiles(b: string, n: nat, size: nat, parts: seq<string>, k: nat)
    requires |parts| == k <= n && size * n <= |b|
    requires forall i | 0 <= i < k :: parts[i] == Slice(b, size * i, size)
    ensures 0 <= size * k <= |b| && Joined(parts) == b[..size * k]
    decreases k
  {
    TileEnds(k, n, size);
    if k > 0 {
      var i, j := size * (k - 1), size * k;
      TileEnds(k - 1, n, size);
      JoinedTiles(b, n, size, parts[..k - 1], k - 1);
      assert i + size == j;
      assert b[..i] + b[i..j] == b[..j];
    }
  }

  /** Image `k` of `n`, of `size` bytes each, or more than that. */
  lemma TilePlan(h: string, b: string, n: nat, k: nat, size: nat, chunks: seq<string>)
    requires IsHeader(h) && n > 0 && LengthOf(h) == |b| && size == |b| / n
    requires Splits(chunks, h + b, 0, |h|)
    ensures var image := Download(Tiled(n, k), chunks).flash;
            if CrossingFits(chunks, h, 0, size * k, size) then image == Slice(b, size * k, size) else |image| > size
  {
    FlashHoldsTheSlice(Tiled(n, k), h, b, chunks);
  }

  lemma DivideBack(a: nat, n: nat)
    requires n > 0
    ensures 0 <= (a / n) * n <= a
  {
    assert a == (a / n) * n + a % n;
  }

  /** Parts of at least `size` bytes are together as long as `size` says only if each is. */
  lemma {:induction false} JoinedLength(parts: seq<string>, size: nat)
    requires forall i | 0 <= i < |parts| :: |parts[i]| >= size
    ensures |Joined(parts)| >= size * |parts|
    ensures |Joined(parts)| == size * |parts| ==> forall i | 0 <= i < |parts| :: |parts[i]| == size
    decreases |parts|
  {
    if parts != [] {
      var k := |parts| - 1;
      JoinedLength(parts[..k], size);
      TileEnds(k, k + 1, size);
      assert forall i | 0 <= i < k :: parts[..k][i] == parts[i];
    }
  }

  lemma TileLength(b: string, n: nat, k: nat, size: nat)
    requires k < n && size * n <= |b|
    ensures |Slice(b, size * k, size)| == size
  {
    TileEnds(k, n, size);
    TileEnds(k + 1, n, size);
  }

  /**
   * The images that n devices cut from one body, each from its own split, tile the body without gap or
   * overlap if and only if no device's crossing chunk reaches past its image.
   */
  lemma ImagesTileTheBody(h: string, b: string, n: nat, size: nat, cuts: seq<seq<string>>, images: seq<string>)
    requires IsHeader(h) && n > 0 && LengthOf(h) == |b| && size == |b| / n
    requires |cuts| == |images| == n && forall k | 0 <= k < n :: Splits(cuts[k], h + b, 0, |h|)
    requires forall k | 0 <= k < n :: images[k] == Download(Tiled(n, k), cuts[k]).flash
    ensures 0 <= size * n <= |b|
    ensures Joined(images) == b[..size * n] <==> forall k | 0 <= k < n :: CrossingFits(cuts[k], h, 0, size * k, size)
  {
    hide *;
    DivideBack(|b|, n);
    forall k | 0 <= k < n
      ensures if CrossingFits(cuts[k], h, 0, size * k, size) then images[k] == Slice(b, size * k, size)
              else |images[k]| > size
      ensures |Slice(b, size * k, size)| == size
    {
      TilePlan(h, b, n, k, size, cuts[k]);
      TileLength(b, n, k, size);
    }
    JoinedLength(images, size);
    if forall k | 0 <= k < n :: CrossingFits(cuts[k], h, 0, size * k, size) {
      JoinedTiles(b, n, size, images, n);
    }
  }

  /** In particular they do if every image has at least the size of a chunk. */
  lemma BigImagesTileTheBody(h: string, b: string, n: nat, size: nat, cuts: seq<seq<string>>, images: seq<string>)
    requires IsHeader(h) && n > 0 && LengthOf(h) == |b| && size == |b| / n && size >= RECV_MAX
    requires |cuts| == |images| == n && forall k | 0 <= k < n :: Splits(cuts[k], h + b, 0, |h|)
    requires forall k | 0 <= k < n :: images[k] == Download(Tiled(n, k), cuts[k]).flash
    ensures 0 <= size * n <= |b| && Joined(images) == b[..size * n]
  {
    hide *;
    forall k | 0 <= k < n ensures CrossingFits(cuts[k], h, 0, size * k, size) {
      CrossingAlwaysFits(cuts[k], h, b, 0, size * k, size);
    }
    ImagesTileTheBody(h, b, n, size, cuts, images);
  }
}
