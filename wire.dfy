/**
  The kernel's input-event record as the decoder reads it from the device
  node (koboin/koboin.go:10-38): the event-type and event-code constants it
  tests, and the fixed 16-byte little-endian record layout that
  `binary.Read(t.devFile, binary.LittleEndian, &in)` decodes.
 */
module Wire {
  import opened Wrappers

  type byte = b: int | 0 <= b < 0x100
  type u16 = v: int | 0 <= v < 0x1_0000
  type u32 = v: int | 0 <= v < 0x1_0000_0000
  type i32 = v: int | -0x8000_0000 <= v < 0x8000_0000

  /** Event types. */
  const EvSyn: u16 := 0x00
  const EvKey: u16 := 0x01
  const EvAbs: u16 := 0x03

  /** Event codes. */
  const SynReport: u16 := 0x00
  const SynDropped: u16 := 0x03
  const BtnTouch: u16 := 0x14a
  const AbsX: u16 := 0x00
  const AbsY: u16 := 0x01
  const AbsMtPositionX: u16 := 0x35
  const AbsMtPositionY: u16 := 0x36
  const AbsMtPressure: u16 := 0x3a
  const AbsMtTouchWidthMajor: u16 := 0x30

  /** One record of the event stream, fields in wire order. */
  datatype InputEvent = InputEvent(timeSec: u32, timeUsec: u32, evType: u16, evCode: u16, evValue: i32)

  /** The end of one atomic hardware sample: type and code must both match. */
  predicate IsSynReport(e: InputEvent) {
    e.evType == EvSyn && e.evCode == SynReport
  }

  /** The kernel's notice that its buffer overran and events were lost. */
  predicate IsSynDropped(e: InputEvent) {
    e.evType == EvSyn && e.evCode == SynDropped
  }

  /** Number of bytes one record occupies on the wire. */
  const RecordSize: nat := 16

  function Pow256(n: nat): (r: nat)
    ensures r > 0
  {
    if n == 0 then 1 else 0x100 * Pow256(n - 1)
  }

  /** The unsigned value of a little-endian byte string. */
  function FromLittleEndian(b: seq<byte>): (v: nat)
    ensures v < Pow256(|b|)
  {
    if b == [] then 0 else b[0] + 0x100 * FromLittleEndian(b[1..])
  }

  /** The `n`-byte little-endian encoding of `v`. */
  function ToLittleEndian(v: nat, n: nat): (b: seq<byte>)
    requires v < Pow256(n)
    ensures |b| == n
  {
    if n == 0 then [] else [v % 0x100] + ToLittleEndian(v / 0x100, n - 1)
  }

  lemma {:induction false} FromToLittleEndian(v: nat, n: nat)
    requires v < Pow256(n)
    ensures FromLittleEndian(ToLittleEndian(v, n)) == v
  {
    if n > 0 {
      FromToLittleEndian(v / 0x100, n - 1);
      assert ToLittleEndian(v, n)[1..] == ToLittleEndian(v / 0x100, n - 1);
    }
  }

  lemma {:induction false} ToFromLittleEndian(b: seq<byte>)
    ensures ToLittleEndian(FromLittleEndian(b), |b|) == b
  {
    if b != [] {
      var v := FromLittleEndian(b);
      assert v % 0x100 == b[0] && v / 0x100 == FromLittleEndian(b[1..]);
      ToFromLittleEndian(b[1..]);
    }
  }

  /** Two's-complement reading of a 32-bit word, as Go's int32 does. */
  function ToSigned32(u: u32): i32 {
    if u < 0x8000_0000 then u else u - 0x1_0000_0000
  }

  function FromSigned32(v: i32): u32 {
    if v >= 0 then v else v + 0x1_0000_0000
  }

  /**
    The record held by exactly 16 bytes: TimeSec, TimeUsec, EvType, EvCode,
    EvValue, each at its fixed offset, least significant byte first.
   */
  function DecodeEvent(b: seq<byte>): (e: InputEvent)
    requires |b| == RecordSize
    ensures e.timeSec == (b[0] as int) + 0x100 * (b[1] as int) + 0x1_0000 * (b[2] as int) + 0x100_0000 * (b[3] as int)
    ensures e.timeUsec == (b[4] as int) + 0x100 * (b[5] as int) + 0x1_0000 * (b[6] as int) + 0x100_0000 * (b[7] as int)
    ensures e.evType == (b[8] as int) + 0x100 * (b[9] as int)
    ensures e.evCode == (b[10] as int) + 0x100 * (b[11] as int)
    ensures e.evValue ==
              (b[12] as int) + 0x100 * (b[13] as int) + 0x1_0000 * (b[14] as int) + 0x100_0000 * (b[15] as int)
              - (if b[15] >= 0x80 then 0x1_0000_0000 else 0)
  {
    Unfold4(b[0..4]);
    Unfold4(b[4..8]);
    Unfold2(b[8..10]);
    Unfold2(b[10..12]);
    Unfold4(b[12..16]);
    InputEvent(FromLittleEndian(b[0..4]), FromLittleEndian(b[4..8]),
               FromLittleEndian(b[8..10]), FromLittleEndian(b[10..12]),
               ToSigned32(FromLittleEndian(b[12..16])))
  }

  /** The bytes the kernel writes for one record. */
  function EncodeEvent(e: InputEvent): (b: seq<byte>)
    ensures |b| == RecordSize
  {
    ToLittleEndian(e.timeSec, 4) + ToLittleEndian(e.timeUsec, 4) +
    ToLittleEndian(e.evType, 2) + ToLittleEndian(e.evCode, 2) +
    ToLittleEndian(FromSigned32(e.evValue), 4)
  }

  /**
    One read of the device: `binary.Read` fills the whole record or fails;
    a chunk shorter (or longer) than a record is a failed read.
   */
  function ReadRecord(chunk: seq<byte>): (r: Option<InputEvent>)
    ensures r.Some? <==> |chunk| == RecordSize
  {
    if |chunk| == RecordSize then Some(DecodeEvent(chunk)) else None
  }

  lemma Unfold2(b: seq<byte>)
    requires |b| == 2
    ensures FromLittleEndian(b) == (b[0] as int) + 0x100 * (b[1] as int)
  {
    assert b[1..][1..] == [];
  }

  lemma Unfold4(b: seq<byte>)
    requires |b| == 4
    ensures FromLittleEndian(b) == (b[0] as int) + 0x100 * (b[1] as int) + 0x1_0000 * (b[2] as int) + 0x100_0000 * (b[3] as int)
  {
    Unfold2(b[2..]);
    assert FromLittleEndian(b[1..]) == b[1] + 0x100 * FromLittleEndian(b[2..]);
  }

  /** Decoding what the kernel wrote gives back the same record. */
  lemma DecodeEncode(e: InputEvent)
    ensures DecodeEvent(EncodeEvent(e)) == e
  {
    var b := EncodeEvent(e);
    assert b[0..4] == ToLittleEndian(e.timeSec, 4);
    assert b[4..8] == ToLittleEndian(e.timeUsec, 4);
    assert b[8..10] == ToLittleEndian(e.evType, 2);
    assert b[10..12] == ToLittleEndian(e.evCode, 2);
    assert b[12..16] == ToLittleEndian(FromSigned32(e.evValue), 4);
    FromToLittleEndian(e.timeSec, 4);
    FromToLittleEndian(e.timeUsec, 4);
    FromToLittleEndian(e.evType, 2);
    FromToLittleEndian(e.evCode, 2);
    FromToLittleEndian(FromSigned32(e.evValue), 4);
  }

  /** Every 16-byte record is the encoding of the event it decodes to. */
  lemma EncodeDecode(b: seq<byte>)
    requires |b| == RecordSize
    ensures EncodeEvent(DecodeEvent(b)) == b
  {
    ToFromLittleEndian(b[0..4]);
    ToFromLittleEndian(b[4..8]);
    ToFromLittleEndian(b[8..10]);
    ToFromLittleEndian(b[10..12]);
    ToFromLittleEndian(b[12..16]);
    assert b == b[0..4] + b[4..8] + b[8..10] + b[10..12] + b[12..16];
  }
}
