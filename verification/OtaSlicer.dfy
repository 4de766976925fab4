/**
 * The native OTA example: cut one image out of an HTTP response that arrives in chunks.
 *
 * `Session` is the state of the receive loop as a value and `Feed` what one received chunk does to it;
 * class `Firmware` is `esp_ota_firm_t` with the loop itself, statement by statement.  A `char` stands
 * for one byte.  The three source variants differ in `Size` and `Offset` only.
 */
module OtaSlicer {
  import opened Bytes
  import opened Text

  const RECV_MAX := 1024 // TEXT_BUFFSIZE

  datatype Stage = Init | Prepare | Start | Recved | Finish

  /** How a variant of the example computes `ota_size` and `ota_offset` from the content length. */
  datatype Variant =
    | Tiled(otaNum: nat, updateNum: nat) // 1MB, no old firmware: image `updateNum` of `otaNum`
    | Skip(skipSize: nat)                // 1MB, old firmware: everything behind the first `skipSize` bytes
    | Whole                              // 2+MB: everything

  ghost predicate ValidVariant(v: Variant) { v.Tiled? ==> v.otaNum > 0 }

  function Size(v: Variant, len: nat): nat
    requires ValidVariant(v)
  {
    match v
    case Tiled(n, _) => len / n
    case Skip(skip) => Sub32(len, skip)
    case Whole => len
  }

  function Offset(v: Variant, len: nat): nat
    requires ValidVariant(v)
  {
    match v
    case Tiled(n, k) => (len / n) * k
    case Skip(skip) => skip
    case Whole => 0
  }

  datatype Firm = Firm(
    stage: Stage, contentLen: nat, readBytes: nat, writeBytes: nat,
    otaSize: nat, otaOffset: nat, buf: string, bytes: nat)

  // ---------- libc on the received text ----------

  /** strlen from position `i`. */
  function NulAt(t: string, i: nat): (n: nat)
    requires i <= |t|
    ensures i <= n <= |t|
    decreases |t| - i
  {
    if i == |t| || t[i] == NUL then i else NulAt(t, i + 1)
  }

  /** A C string ends at its first NUL. */
  function Visible(t: string): string { t[..NulAt(t, 0)] }

  predicate MatchAt(t: string, pat: string, j: nat) {
    j + |pat| <= |t| && forall k | 0 <= k < |pat| :: t[j + k] == pat[k]
  }

  /** strstr from position `i`. */
  function Find(t: string, pat: string, i: nat): (r: Option<nat>)
    ensures r.Some? ==> i <= r.value && r.value + |pat| <= |t|
    decreases |t| - i
  {
    if MatchAt(t, pat, i) then Some(i)
    else if i >= |t| then None
    else Find(t, pat, i + 1)
  }

  function Digits(t: string, i: nat, j: nat, acc: nat): nat
    requires i <= j <= |t|
    decreases j - i
  {
    if i == j || !('0' <= t[i] <= '9') then acc
    else Digits(t, i + 1, j, 10 * acc + (t[i] as int - '0' as int))
  }

  /** atoi of the bytes from `i` to `j`: white space, a sign, digits. */
  function Atoi(t: string, i: nat, j: nat): int
    requires i <= j <= |t|
    decreases j - i
  {
    if i == j then 0
    else if IsSpace(t[i]) then Atoi(t, i + 1, j)
    else if t[i] == '-' then -(Digits(t, i + 1, j, 0) as int)
    else if t[i] == '+' then Digits(t, i + 1, j, 0)
    else Digits(t, i, j, 0)
  }

  // ---------- _esp_ota_firm_parse_http ----------

  const KEY := "Content-Length"
  const CRLF := "\r\n"

  /** What the search for a header field finds; `Wild` is where the C code leaves its buffers. */
  datatype Found<T> = Absent | Value(v: T) | Wild

  /** Where the text 16 bytes behind the start of the first `key`, up to the next `end`, stands. */
  function FieldBehind(t: string, key: string, end: string): (r: Found<(nat, nat)>)
    ensures r.Value? ==> r.v.0 <= r.v.1 <= |t| && r.v.1 - r.v.0 < 32
  {
    match Find(t, key, 0)
    case None => Absent
    case Some(p) =>
      if p + 16 > |t| then Wild else
      match Find(t, end, p + 16)
      case None => Wild
      case Some(q) => if q - (p + 16) >= 32 then Wild else Value((p + 16, q))
  }

  function FindLength(text: string): Found<nat> {
    var t := Visible(text);
    match FieldBehind(t, KEY, CRLF)
    case Absent => Absent
    case Wild => Wild
    case Value((i, j)) => Value(Atoi(t, i, j) % TWO_32)
  }

  /** read_until: bytes up to and including the next newline, or one more than there are. */
  function LineLen(text: string, i: nat): (n: nat)
    requires i <= |text|
    ensures 1 <= n <= |text| - i + 1
    ensures forall j :: i <= j < i + n - 1 ==> text[j] != '\n'
    ensures i + n <= |text| ==> text[i + n - 1] == '\n'
    decreases |text| - i
  {
    if i == |text| || text[i] == '\n' then 1 else 1 + LineLen(text, i + 1)
  }

  /** `Done(n)`: the header ends after `n` bytes.  `Fatal`: ota_example_task gives up. */
  datatype Http = Done(n: nat) | More | Fatal | Undefined

  /** The lines of `text` from position `i` on. */
  function Walk(text: string, i: nat, lengthKnown: bool): (r: Http)
    requires i <= |text|
    ensures r.Done? ==> i + 2 <= r.n <= |text| && text[r.n - 1] == '\n' && text[r.n - 2] != '\n'
    ensures r.Done? && r.n > i + 2 ==> text[r.n - 3] == '\n'
    decreases |text| - i
  {
    if i == |text| || text[i] == NUL then More else
    var n := LineLen(text, i);
    if n > |text| - i then Fatal
    else if n == 2 then (if lengthKnown then Done(i + 2) else Fatal)
    else Walk(text, i + n, lengthKnown)
  }

  /** Lines 129-138: the length is looked for as long as it is zero. */
  function Learn(v: Variant, f: Firm, text: string): Option<Firm>
    requires ValidVariant(v)
  {
    if f.contentLen != 0 then Some(f) else
    match FindLength(text)
    case Absent => Some(f)
    case Wild => None
    case Value(n) => Some(f.(contentLen := n, otaSize := Size(v, n), otaOffset := Offset(v, n)))
  }

  lemma LearnTwice(v: Variant, f: Firm, text: string)
    requires ValidVariant(v)
    ensures var l := Learn(v, f, text); l.Some? ==> Learn(v, l.value, text) == l
  {
  }

  function ParseHttp(v: Variant, f: Firm, text: string): (Firm, Http)
    requires ValidVariant(v)
  {
    if text == "" || text[0] == NUL then (f, More) else
    match Learn(v, f, text)
    case None => (f, Undefined)
    case Some(g) => (g, Walk(text, 0, g.contentLen != 0))
  }

  // ---------- esp_ota_firm_parse_msg ----------

  function PrepareStep(f: Firm, inBuf: string): Firm {
    var read := f.readBytes + |inBuf|;
    if read >= f.otaOffset then
      var excess := read - f.otaOffset;
      f.(readBytes := read, stage := Start, bytes := excess, writeBytes := f.writeBytes + excess,
         buf := if excess <= |inBuf| then inBuf[|inBuf| - excess..] else "")
    else f.(readBytes := read)
  }

  function StartStep(f: Firm, inBuf: string): Firm {
    var cut := f.writeBytes + |inBuf| > f.otaSize;
    var bytes := if cut then Sub32(f.otaSize, f.writeBytes) else |inBuf|;
    f.(stage := if cut then Recved else Start, bytes := bytes, buf := inBuf,
       writeBytes := f.writeBytes + bytes)
  }

  /** One round of the do-while: the new state and the bytes it has consumed. */
  function DoParse(v: Variant, f: Firm, inBuf: string): (Firm, Http)
    requires ValidVariant(v)
  {
    match f.stage
    case Init =>
      var (g, http) := ParseHttp(v, f, inBuf);
      (match http
       case Done(n) => (g.(stage := Prepare), Done(n))
       case More => (g, Done(|inBuf|))
       case _ => (g, http))
    case Prepare => (PrepareStep(f, inBuf), Done(|inBuf|))
    case Start => (StartStep(f, inBuf), Done(|inBuf|))
    case Recved => (f.(stage := Finish), Done(0))
    case Finish => (f, Done(0))
  }

  /** The whole do-while, for the states in which it ends (see `RoundsAfterTheImageNeverEnd`). */
  function ParseMsg(v: Variant, f: Firm, chunk: string): (Firm, Http)
    requires ValidVariant(v)
  {
    var (g, r) := DoParse(v, f, chunk);
    if !r.Done? then (g, r)
    else if f.stage.Init? && r.n < |chunk| then (DoParse(v, g, chunk[r.n..]).0, Done(|chunk|))
    else (g, Done(|chunk|))
  }

  // ---------- the receive loop ----------

  /** Complete: left because the image is there.  Closed: the peer closed.  Crashed: left its buffers. */
  datatype Exit = Receiving | Complete | Closed | GaveUp | Crashed

  datatype Session = Session(f: Firm, flash: string, exit: Exit)

  function Begin(): Session {
    Session(Firm(Init, 0, 0, 0, 0, 0, "", 0), "", Receiving)
  }

  function Feed(v: Variant, s: Session, chunk: string): Session
    requires ValidVariant(v)
  {
    if !s.exit.Receiving? then s else
    var (f, r) := ParseMsg(v, s.f, chunk);
    if r.Fatal? then s.(f := f, exit := GaveUp)
    else if r.Undefined? then s.(f := f, exit := Crashed)
    else if !(f.stage.Start? || f.stage.Recved?) then s.(f := f)
    else if f.bytes > |f.buf| then s.(f := f, exit := Crashed)
    else Session(f, s.flash + f.buf[..f.bytes], if f.stage.Recved? then Complete else Receiving)
  }

  function FeedAll(v: Variant, s: Session, chunks: seq<string>): Session
    requires ValidVariant(v)
    decreases |chunks|
  {
    if chunks == [] then s else FeedAll(v, Feed(v, s, chunks[0]), chunks[1..])
  }

  /** ota_example_task: every chunk until it leaves its loop, then `recv` returns 0. */
  function Download(v: Variant, chunks: seq<string>): Session
    requires ValidVariant(v)
  {
    var s := FeedAll(v, Begin(), chunks);
    if s.exit.Receiving? then s.(exit := Closed) else s
  }

  /** While the loop runs, the parser is never entered after the image is complete. */
  lemma FeedStage(v: Variant, s: Session, chunk: string)
    requires ValidVariant(v) && (s.exit.Receiving? ==> s.f.stage.Init? || s.f.stage.Prepare? || s.f.stage.Start?)
    ensures var t := Feed(v, s, chunk);
            t.exit.Receiving? ==> t.f.stage.Init? || t.f.stage.Prepare? || t.f.stage.Start?
  {
  }

  lemma {:induction false} FeedAllStops(v: Variant, s: Session, chunks: seq<string>)
    requires ValidVariant(v) && !s.exit.Receiving?
    ensures FeedAll(v, s, chunks) == s
    decreases |chunks|
  {
    if chunks != [] {
      FeedAllStops(v, s, chunks[1..]);
    }
  }

  function Rounds(v: Variant, f: Firm, inBuf: string, k: nat): (Firm, nat)
    requires ValidVariant(v) && (f.stage.Recved? || f.stage.Finish?)
    decreases k
  {
    if k == 0 then (f, 0) else
    var (g, r) := DoParse(v, f, inBuf);
    var (h, n) := Rounds(v, g, inBuf, k - 1);
    (h, r.n + n)
  }

  /** Entered with the image complete, the do-while would stay in FINISH and consume nothing, for ever. */
  lemma {:induction false} RoundsAfterTheImageNeverEnd(v: Variant, f: Firm, inBuf: string, k: nat)
    requires ValidVariant(v) && (f.stage.Recved? || f.stage.Finish?)
    ensures Rounds(v, f, inBuf, k).1 == 0 && (k > 0 ==> Rounds(v, f, inBuf, k).0.stage.Finish?)
    decreases k
  {
    if k > 0 {
      RoundsAfterTheImageNeverEnd(v, DoParse(v, f, inBuf).0, inBuf, k - 1);
    }
  }

  // ---------- the same code in place ----------

  /** `esp_ota_firm_t` together with the update partition it fills. */
  class Firmware {
    const v: Variant
    var stage: Stage
    var contentLen: nat
    var readBytes: nat
    var writeBytes: nat
    var otaSize: nat
    var otaOffset: nat
    var buf: string
    var bytes: nat
    var flash: string
    var exit: Exit

    ghost function Fields(): Firm
      reads this
    {
      Firm(stage, contentLen, readBytes, writeBytes, otaSize, otaOffset, buf, bytes)
    }

    ghost function State(): Session
      reads this
    {
      Session(Fields(), flash, exit)
    }

    constructor (v: Variant)
      ensures this.v == v && State() == Begin()
    {
      this.v := v;
      stage, contentLen, readBytes, writeBytes, otaSize, otaOffset := Init, 0, 0, 0, 0, 0;
      buf, bytes, flash, exit := "", 0, "", Receiving;
    }

    static method ReadUntil(text: string, i: nat, len: nat) returns (n: nat)
      requires i + len == |text|
      ensures n == LineLen(text, i)
    {
      var k := 0;
      while k < len && text[i + k] != '\n'
        invariant k <= len
        invariant LineLen(text, i) == k + LineLen(text, i + k)
      {
        k := k + 1;
      }
      return k + 1;
    }

    method LearnLength(text: string) returns (ok: bool)
      requires ValidVariant(v)
      modifies this`contentLen, this`otaSize, this`otaOffset
      ensures var l := Learn(v, old(Fields()), text); ok == l.Some? && Fields() == if ok then l.value else old(Fields())
    {
      if contentLen == 0 {
        match FindLength(text) {
          case Absent =>
          case Wild => return false;
          case Value(n) =>
            contentLen := n;
            otaSize := Size(v, n);
            otaOffset := Offset(v, n);
        }
      }
      return true;
    }

    method ParseHttpHeader(text: string) returns (r: Http)
      requires ValidVariant(v)
      modifies this`contentLen, this`otaSize, this`otaOffset
      ensures (Fields(), r) == ParseHttp(v, old(Fields()), text)
    {
      hide Learn, LineLen;
      ghost var learned := Learn(v, Fields(), text);
      var i := 0;
      while i < |text| && text[i] != NUL
        invariant i <= |text|
        invariant i == 0 ==> Fields() == old(Fields())
        invariant i > 0 ==> text[0] != NUL && learned == Some(Fields())
        invariant i > 0 ==> Walk(text, 0, contentLen != 0) == Walk(text, i, contentLen != 0)
      {
        if i > 0 {
          LearnTwice(v, old(Fields()), text);
        }
        var ok := LearnLength(text);
        if !ok {
          return Undefined;
        }
        var n := ReadUntil(text, i, |text| - i);
        if n > |text| - i {
          return Fatal;
        }
        if n == 2 {
          if contentLen == 0 {
            return Fatal;
          }
          return Done(i + 2);
        }
        i := i + n;
      }
      return More;
    }

    method DoParseMsg(inBuf: string) returns (r: Http)
      requires ValidVariant(v)
      modifies this`stage, this`contentLen, this`otaSize, this`otaOffset, this`readBytes, this`writeBytes,
               this`buf, this`bytes
      ensures (Fields(), r) == DoParse(v, old(Fields()), inBuf)
    {
      r := Done(|inBuf|);
      match stage {
        case Init =>
          var http := ParseHttpHeader(inBuf);
          if http.Done? {
            stage := Prepare;
            r := http;
          } else if !http.More? {
            r := http;
          }
        case Prepare =>
          readBytes := readBytes + |inBuf|;
          if readBytes >= otaOffset {
            var excess := readBytes - otaOffset;
            buf := if excess <= |inBuf| then inBuf[|inBuf| - excess..] else "";
            bytes := excess;
            writeBytes := writeBytes + excess;
            stage := Start;
          }
        case Start =>
          if writeBytes + |inBuf| > otaSize {
            bytes := Sub32(otaSize, writeBytes);
            stage := Recved;
          } else {
            bytes := |inBuf|;
          }
          buf := inBuf;
          writeBytes := writeBytes + bytes;
        case Recved =>
          r := Done(0);
          stage := Finish;
        case Finish =>
          r := Done(0);
      }
    }

    /** esp_ota_firm_parse_msg; `rounds` counts the passes of its do-while. */
    method ParseMessage(inBuf: string) returns (r: Http, ghost rounds: nat)
      requires ValidVariant(v) && (stage.Init? || stage.Prepare? || stage.Start?)
      modifies this`stage, this`contentLen, this`otaSize, this`otaOffset, this`readBytes, this`writeBytes,
               this`buf, this`bytes
      ensures (Fields(), r) == ParseMsg(v, old(Fields()), inBuf)
      ensures rounds <= 2 // and every byte has been consumed
    {
      var parsed: nat := 0;
      rounds := 0;
      while true
        invariant rounds <= 1 && parsed <= |inBuf|
        invariant rounds == 0 ==> parsed == 0 && Fields() == old(Fields())
        invariant rounds == 1 ==> (Fields(), Done(parsed)) == DoParse(v, old(Fields()), inBuf)
                                  && old(stage).Init? && stage.Prepare? && parsed < |inBuf|
        decreases 2 - rounds
      {
        rounds := rounds + 1;
        assert inBuf[0..] == inBuf;
        r := DoParseMsg(inBuf[parsed..]);
        if !r.Done? {
          return;
        }
        parsed := parsed + r.n;
        if parsed == |inBuf| {
          return Done(|inBuf|), rounds;
        }
      }
    }

    /** The receive loop of ota_example_task on the chunks that `recv` returns before the peer closes. */
    method Task(chunks: seq<string>)
      requires ValidVariant(v) && State() == Begin()
      modifies this
      ensures State() == Download(v, chunks)
    {
      var k := 0;
      while k < |chunks| && exit.Receiving?
        invariant k <= |chunks|
        invariant FeedAll(v, State(), chunks[k..]) == FeedAll(v, Begin(), chunks)
        invariant exit.Receiving? ==> stage.Init? || stage.Prepare? || stage.Start?
      {
        ghost var before := State();
        Packet(chunks[k]);
        FeedStage(v, before, chunks[k]);
        k := k + 1;
      }
      if exit.Receiving? {
        exit := Closed;
      } else {
        FeedAllStops(v, State(), chunks[k..]);
      }
    }

    /** One pass of the loop with `buff_len > 0`. */
    method Packet(text: string)
      requires ValidVariant(v) && exit.Receiving? && (stage.Init? || stage.Prepare? || stage.Start?)
      modifies this
      ensures State() == Feed(v, old(State()), text)
    {
      var r, _ := ParseMessage(text);
      if r.Fatal? {
        exit := GaveUp;
        return;
      }
      if r.Undefined? {
        exit := Crashed;
        return;
      }
      if !(stage.Start? || stage.Recved?) {
        return;
      }
      if bytes > |buf| {
        exit := Crashed;
        return;
      }
      flash := flash + buf[..bytes];
      if stage.Finish? || stage.Recved? {
        exit := Complete;
      }
    }
  }
}
