/**
 The C integer types the driver's accessors use, the conversions between them,
 and the multi-byte values the driver assembles from, or splits into,
 consecutive register bytes (lowest address = least significant byte).
 */
module Words {

  /** The value of one register byte, as the driver's `uint8_t` arithmetic sees it. */
  type uint8 = x: int | 0 <= x < 0x100
  type int16 = x: int | -0x8000 <= x < 0x8000
  type uint16 = x: int | 0 <= x < 0x1_0000
  type int32 = x: int | -0x8000_0000 <= x < 0x8000_0000
  type uint32 = x: int | 0 <= x < 0x1_0000_0000

  /** Conversion of an integer to `uint16_t`: reduction modulo 2^16. */
  function ToUInt16(x: int): uint16 {
    x % 0x1_0000
  }

  /** Conversion of an integer to `uint32_t`: reduction modulo 2^32. */
  function ToUInt32(x: int): uint32 {
    x % 0x1_0000_0000
  }

  /**
   Conversion of an integer to `int16_t`. C leaves out-of-range conversions to
   the implementation; this is the two's-complement wrap every compiler the
   driver targets performs.
   */
  function ToInt16(x: int): (v: int16)
    ensures ToUInt16(v) == ToUInt16(x)
  {
    var u := x % 0x1_0000;
    if u < 0x8000 then u else u - 0x1_0000
  }

  lemma SmallMod(x: int, m: int)
    requires 0 <= x < m
    ensures x % m == x
  {}

  /**
   The two bytes `pressure_ref_set` and `pressure_offset_set` write, low byte
   first: `hi = (uint8_t)((uint16_t)v / 256)`, `lo = (uint8_t)((uint16_t)v - hi * 256)`.
   Together they hold the 16-bit two's-complement pattern of `v`.
   */
  function SplitInt16(v: int16): (b: seq<uint8>)
    ensures |b| == 2
    ensures b[1] as int * 0x100 + b[0] == ToUInt16(v)
  {
    var u := ToUInt16(v);
    var hi := (u / 0x100) % 0x100;
    var lo := (u - hi * 0x100) % 0x100;
    [lo, hi]
  }

  /**
   The getters' reassembly of a signed 16-bit value from its low and high byte:
   `v = (int16_t)hi; v = v * 256 + (int16_t)lo`, the sum converted back to `int16_t`.
   The result is the two's-complement reading of `hi:lo`; it is negative exactly
   when the top bit of `hi` is set.
   */
  function JoinInt16(lo: uint8, hi: uint8): (v: int16)
    ensures ToUInt16(v) == hi * 0x100 + lo
    ensures v < 0 <==> hi >= 0x80
  {
    SmallMod(hi * 0x100 + lo, 0x1_0000);
    ToInt16(ToInt16(hi) * 0x100 + lo)
  }

  /**
   `pressure_raw_get`: three bytes accumulated most significant first into a
   `uint32_t`, then multiplied by 256. No step wraps: the result is the 24-bit
   reading shifted up one byte, so its low byte is always zero.
   */
  function PressureRaw(x0: uint8, x1: uint8, x2: uint8): (r: uint32)
    ensures r == (x2 * 0x1_0000 + x1 * 0x100 + x0) * 0x100
    ensures r % 0x100 == 0
  {
    SmallMod(x2 * 0x100 + x1, 0x1_0000_0000);
    SmallMod((x2 * 0x100 + x1) * 0x100 + x0, 0x1_0000_0000);
    SmallMod(((x2 * 0x100 + x1) * 0x100 + x0) * 0x100, 0x1_0000_0000);
    ToUInt32(ToUInt32(ToUInt32(x2 * 0x100 + x1) * 0x100 + x0) * 0x100)
  }

  /** Every `int16` survives the write-then-read of `pressure_ref_*` and `pressure_offset_*`. */
  lemma JoinSplit(v: int16)
    ensures JoinInt16(SplitInt16(v)[0], SplitInt16(v)[1]) == v
  {
    var b := SplitInt16(v);
    var w := JoinInt16(b[0], b[1]);
    assert ToUInt16(w) == ToUInt16(v);
  }

  /** Conversely, every pair of register bytes survives a read-then-write. */
  lemma SplitJoin(lo: uint8, hi: uint8)
    ensures SplitInt16(JoinInt16(lo, hi)) == [lo, hi]
  {
    var b := SplitInt16(JoinInt16(lo, hi));
    assert b[1] as int * 0x100 + b[0] == hi as int * 0x100 + lo;
  }

  /** The three sample bytes can be read back out of the raw pressure value. */
  lemma PressureRawBytes(x0: uint8, x1: uint8, x2: uint8)
    ensures (PressureRaw(x0, x1, x2) / 0x100) % 0x100 == x0
    ensures (PressureRaw(x0, x1, x2) / 0x1_0000) % 0x100 == x1
    ensures PressureRaw(x0, x1, x2) / 0x100_0000 == x2
  {
    var r := PressureRaw(x0, x1, x2);
    assert r / 0x100 == x2 * 0x1_0000 + x1 * 0x100 + x0;
    assert r / 0x1_0000 == x2 * 0x100 + x1;
  }
}
