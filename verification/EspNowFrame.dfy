/**
 * The packed frame of the ESP-NOW example: type, state, little-endian sequence number, CRC and magic,
 * then the payload.  The CRC is computed over the frame with its CRC field zeroed; `crc16_le` is any
 * deterministic function, passed in as `crc`.
 */
module EspNowFrame {
  import opened Bytes

  const HEADER := 10 // sizeof(example_espnow_data_t)

  type Crc = seq<byte> -> u16

  datatype Kind = Broadcast | Unicast

  /** What example_espnow_data_parse returns in `ret` and, separately, through its pointers. */
  datatype Parsed = TooShort | Parsed(ret: int, state: byte, seqNum: u16, magic: int)

  function Le16(n: u16): seq<byte> { [n % 256, n / 256] }

  function FromLe16(a: byte, b: byte): u16 { 256 * b + a }

  /** The frame's magic is a `uint32_t`; the receiver stores it in an `int` and compares it as unsigned again. */
  function AsInt(n: u32): int { if n < TWO_32 / 2 then n else n - TWO_32 }

  function AsUnsigned(i: int): u32 { i % TWO_32 }

  function Code(k: Kind): byte { if k.Broadcast? then 0 else 1 }

  /** The sequence counters, indexed by the type of the frame. */
  type Counters = s: seq<u16> | |s| == 2 witness [0, 0]

  function Counted(s: Counters, k: Kind): Counters { s[Code(k) := (s[Code(k)] + 1) % TWO_16] }

  function Layout(k: Kind, state: byte, seqNum: u16, crc: u16, magic: u32, payload: seq<byte>): seq<byte> {
    [Code(k), state] + Le16(seqNum) + Le16(crc) + Le32(magic) + payload
  }

  /** example_espnow_data_prepare */
  function Prepared(crc: Crc, k: Kind, state: byte, seqNum: u16, magic: u32, payload: seq<byte>): seq<byte> {
    Layout(k, state, seqNum, crc(Layout(k, state, seqNum, 0, magic, payload)), magic, payload)
  }

  /** example_espnow_data_parse: `ret` is the type byte, or -1 if the CRC does not match. */
  function Parse(crc: Crc, data: seq<byte>): Parsed {
    if |data| < HEADER then TooShort else
    var zeroed: seq<byte> := data[4 := 0][5 := 0];
    Parsed(if crc(zeroed) == FromLe16(data[4], data[5]) then data[0] else -1,
           data[1], FromLe16(data[2], data[3]), AsInt(FromLe32(data[6], data[7], data[8], data[9])))
  }

  lemma UnsignedAgain(n: u32)
    ensures AsUnsigned(AsInt(n)) == n
  {
  }

  /** Every prepared frame parses back to what went in. */
  lemma RoundTrip(crc: Crc, k: Kind, state: byte, seqNum: u16, magic: u32, payload: seq<byte>)
    ensures Parse(crc, Prepared(crc, k, state, seqNum, magic, payload))
         == Parsed(Code(k), state, seqNum, AsInt(magic))
  {
    var zero := Layout(k, state, seqNum, 0, magic, payload);
    var data := Prepared(crc, k, state, seqNum, magic, payload);
    assert data[4 := 0][5 := 0] == zero;
    Le32Back(magic);
  }

  /** Where each field stands on the air: byte by byte, little-endian, with no gap. */
  lemma FrameOnTheAir(crc: Crc, k: Kind, state: byte, seqNum: u16, magic: u32, payload: seq<byte>)
    ensures var d := Prepared(crc, k, state, seqNum, magic, payload);
            && |d| == 10 + |payload| && d[0] == (if k.Unicast? then 1 else 0) && d[1] == state
            && d[2] as int + 256 * d[3] as int == seqNum
            && d[4] as int + 256 * d[5] as int == crc(d[..4] + [0, 0] + d[6..])
            && d[6] as int + 256 * d[7] as int + 65536 * d[8] as int + 16777216 * d[9] as int == magic
            && d[10..] == payload
  {
    var d, zero := Prepared(crc, k, state, seqNum, magic, payload), Layout(k, state, seqNum, 0, magic, payload);
    assert d[..4] + [0, 0] + d[6..] == zero;
    Le32Back(magic);
    hide Le32;
  }

  /** The frame as the CRC sees it. */
  function Zeroed(data: seq<byte>): seq<byte>
    requires |data| >= HEADER
  {
    data[..4] + [0, 0] + data[6..]
  }

  /** A frame that was altered on the way, but for its CRC, is accepted exactly if the CRCs collide. */
  lemma AcceptedIffCrcCollides(
      crc: Crc, k: Kind, state: byte, seqNum: u16, magic: u32, payload: seq<byte>, data: seq<byte>)
    requires |data| >= HEADER && data[4..6] == Prepared(crc, k, state, seqNum, magic, payload)[4..6]
    ensures Parse(crc, data).ret != -1
       <==> crc(Zeroed(data)) == crc(Zeroed(Prepared(crc, k, state, seqNum, magic, payload)))
  {
    var sent := Prepared(crc, k, state, seqNum, magic, payload);
    assert data[4] == data[4..6][0] == sent[4..6][0] == sent[4];
    assert data[5] == data[4..6][1] == sent[4..6][1] == sent[5];
    assert data[4 := 0][5 := 0] == Zeroed(data);
    assert Zeroed(sent) == Layout(k, state, seqNum, 0, magic, payload);
  }

  /** The node's transmit side: the static sequence counters and the frame buffer. */
  class Transmitter {
    const crc: Crc
    var seqs: Counters // s_example_espnow_seq

    constructor (crc: Crc)
      ensures this.crc == crc && seqs == [0, 0]
    {
      this.crc := crc;
      seqs := [0, 0];
    }

    /** example_espnow_data_prepare; `random` is what esp_random yields, byte by byte. */
    method Prepare(buffer: array<byte>, k: Kind, state: byte, magic: u32, random: seq<byte>)
      requires buffer.Length >= HEADER && |random| == buffer.Length - HEADER
      modifies this`seqs, buffer
      ensures seqs == Counted(old(seqs), k)
      ensures buffer[..] == Prepared(crc, k, state, old(seqs)[Code(k)], magic, random)
    {
      var n := seqs[Code(k)];
      seqs := Counted(seqs, k);
      FillHeader(buffer, k, state, n, magic);
      FillPayload(buffer, random);
      ghost var zeroed := Layout(k, state, n, 0, magic, random);
      assert buffer[..] == buffer[..HEADER] + random == zeroed;
      var c := crc(buffer[..]);
      Store16(buffer, 4, c);
      CrcFilledIn(k, state, n, magic, random, c);
    }
  }

  lemma CrcFilledIn(k: Kind, state: byte, n: u16, magic: u32, payload: seq<byte>, c: u16)
    ensures Layout(k, state, n, 0, magic, payload)[4 := c % 256][5 := c / 256] == Layout(k, state, n, c, magic, payload)
  {
  }

  method FillHeader(buffer: array<byte>, k: Kind, state: byte, n: u16, magic: u32)
    requires buffer.Length >= HEADER
    modifies buffer
    ensures buffer[..HEADER] == Layout(k, state, n, 0, magic, [])
  {
    buffer[0] := Code(k);
    buffer[1] := state;
    Store16(buffer, 2, n);
    Store16(buffer, 4, 0);
    Store32(buffer, 6, magic);
  }

  method FillPayload(buffer: array<byte>, random: seq<byte>)
    requires buffer.Length == HEADER + |random|
    modifies buffer
    ensures buffer[..HEADER] == old(buffer[..HEADER]) && buffer[HEADER..] == random
  {
    var i := 0;
    while i < buffer.Length - HEADER
      invariant i <= |random|
      invariant buffer[..HEADER] == old(buffer[..HEADER])
      invariant buffer[HEADER..HEADER + i] == random[..i]
    {
      buffer[HEADER + i] := random[i];
      i := i + 1;
    }
  }

  method Store16(buffer: array<byte>, at: nat, n: u16)
    requires at + 2 <= buffer.Length
    modifies buffer
    ensures buffer[..] == old(buffer[..])[at := n % 256][at + 1 := n / 256]
  {
    buffer[at] := n % 256;
    buffer[at + 1] := n / 256;
  }

  method Store32(buffer: array<byte>, at: nat, n: u32)
    requires at + 4 <= buffer.Length
    modifies buffer
    ensures var s := Le32(n);
            buffer[..] == old(buffer[..])[at := s[0]][at + 1 := s[1]][at + 2 := s[2]][at + 3 := s[3]]
  {
    var s := Le32(n);
    buffer[at] := s[0];
    buffer[at + 1] := s[1];
    buffer[at + 2] := s[2];
    buffer[at + 3] := s[3];
  }

  /** example_espnow_data_parse in place: it zeroes the CRC field of the received copy. */
  method ParseInPlace(crc: Crc, data: array<byte>) returns (p: Parsed)
    modifies data
    ensures p == Parse(crc, old(data[..]))
  {
    if data.Length < HEADER {
      return TooShort;
    }
    ghost var before: seq<byte> := data[..];
    var state, seqNum := data[1], FromLe16(data[2], data[3]);
    var magic := AsInt(FromLe32(data[6], data[7], data[8], data[9]));
    var sent := FromLe16(data[4], data[5]);
    Store16(data, 4, 0);
    assert data[..] == before[4 := 0][5 := 0];
    var cal := crc(data[..]);
    return Parsed(if cal == sent then data[0] else -1, state, seqNum, magic);
  }
}
