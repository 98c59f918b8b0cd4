/**
 A device register is one byte; the driver views it through a C struct of
 `uint8_t name : width` bitfields. This module models such a bitfield as a
 bit range of a byte, with the two operations the driver performs on it:
 reading a field out of a byte and assigning a value to a field.
 */
module Bits {

  type byte = bv8

  /** The unsigned value of a register byte. */
  function Val(b: byte): (x: int)
    ensures 0 <= x < 0x100
  {
    b as int
  }

  /** The conversion `(uint8_t)x`: the byte holding `x` modulo 2^8. */
  function ToByte(x: int): (b: byte)
    ensures Val(b) == x % 0x100
  {
    ByteOf(x % 0x100)
  }

  /** The byte whose value is `k`, counted up from zero. */
  function ByteOf(k: nat): (b: byte)
    requires k < 0x100
    ensures Val(b) == k
  {
    if k == 0 then 0 else ValStep(ByteOf(k - 1)); ByteOf(k - 1) + 1
  }

  lemma ValStep(a: byte)
    requires a != 0xFF
    ensures Val(a + 1) == Val(a) + 1
  {}

  /** Adding one to a byte wraps from 0xFF to 0x00. */
  lemma ValSucc(a: byte)
    ensures Val(a + 1) == (Val(a) + 1) % 0x100
  {
    if a == 0xFF {
      assert a + 1 == 0;
    } else {
      ValStep(a);
    }
  }

  /** Distinct bytes have distinct values. */
  lemma ValDistinct(a: byte, b: byte)
    requires a != b
    ensures Val(a) != Val(b)
  {}

  /** Bytes compare as their values do. */
  lemma ValMonotone(a: byte, b: byte)
    ensures a <= b <==> Val(a) <= Val(b)
  {}

  /** A byte is determined by its value. */
  lemma ValInjective(a: byte, b: byte)
    requires Val(a) == Val(b)
    ensures a == b
  {}

  /** `width` bits starting at bit `offset` (bit 0 is the least significant). */
  datatype BitRange = BitRange(offset: byte, width: byte)

  /** A bitfield lies inside one byte and is at least one bit wide. */
  predicate Valid(f: BitRange) {
    1 <= f.width <= 8 && f.offset <= 8 - f.width
  }

  /** The largest value a `w`-bit field holds: `w` one-bits. */
  function Low(w: byte): byte
    requires 1 <= w <= 8
  {
    0xFF >> (8 - w)
  }

  /** The bits of a register that belong to field `f`. */
  function Mask(f: BitRange): byte
    requires Valid(f)
  {
    Low(f.width) << f.offset
  }

  /** Two fields of the same register that share no bit. */
  predicate Disjoint(f: BitRange, g: BitRange)
    requires Valid(f) && Valid(g)
  {
    Mask(f) & Mask(g) == 0
  }

  /** Reading `reg.name` out of a register byte. */
  function Extract(b: byte, f: BitRange): (v: byte)
    requires Valid(f)
    ensures v <= Low(f.width)
  {
    RawExtractBound(b, f.offset, f.width);
    (b >> f.offset) & Low(f.width)
  }

  /**
   The assignment `reg.name = v` on a register byte: an unsigned bitfield keeps
   the low `width` bits of `v`, and the rest of the byte is untouched.
   */
  function Insert(b: byte, f: BitRange, v: byte): byte
    requires Valid(f)
  {
    (b & !Mask(f)) | ((v & Low(f.width)) << f.offset)
  }

  // The facts below are stated once on the spelled-out bit-vector expressions,
  // where the solver decides them by bit-blasting, and then lifted to the
  // named functions.

  lemma RawExtractBound(b: byte, o: byte, w: byte)
    requires 1 <= w <= 8 && o <= 8 - w
    ensures (b >> o) & (0xFF >> (8 - w)) <= 0xFF >> (8 - w)
  {}

  lemma RawReadBack(b: byte, o: byte, w: byte, v: byte)
    requires 1 <= w <= 8 && o <= 8 - w
    ensures var l := 0xFF >> (8 - w);
      (((b & !(l << o)) | ((v & l) << o)) >> o) & l == v & l
  {}

  lemma RawFrame(b: byte, o: byte, w: byte, v: byte)
    requires 1 <= w <= 8 && o <= 8 - w
    ensures var l := 0xFF >> (8 - w);
      ((b & !(l << o)) | ((v & l) << o)) & !(l << o) == b & !(l << o)
  {}

  lemma RawSame(b: byte, o: byte, w: byte)
    requires 1 <= w <= 8 && o <= 8 - w
    ensures var l := 0xFF >> (8 - w);
      (b & !(l << o)) | ((((b >> o) & l) & l) << o) == b
  {}

  lemma RawTwice(b: byte, o: byte, w: byte, u: byte, v: byte)
    requires 1 <= w <= 8 && o <= 8 - w
    ensures var l := 0xFF >> (8 - w);
      var m := l << o;
      (((b & !m) | ((u & l) << o)) & !m) | ((v & l) << o) == (b & !m) | ((v & l) << o)
  {}

  lemma RawMasked(b: byte, o: byte, w: byte)
    requires 1 <= w <= 8 && o <= 8 - w
    ensures var l := 0xFF >> (8 - w);
      (b >> o) & l == ((b & (l << o)) >> o) & l
  {}

  lemma RawAgree(x: byte, b: byte, m: byte, n: byte)
    requires x & !m == b & !m && n & m == 0
    ensures x & n == b & n
  {}

  lemma RawInsertAgree(b: byte, o: byte, w: byte, v: byte, n: byte)
    requires 1 <= w <= 8 && o <= 8 - w
    requires (((0xFF as byte) >> (8 - w)) << o) & n == 0
    ensures var l := 0xFF >> (8 - w);
      ((b & !(l << o)) | ((v & l) << o)) & n == b & n
  {}

  lemma RawFrames(b: byte, x: byte, y: byte, m: byte, n: byte)
    requires x & !m == b & !m && y & !n == x & !n
    ensures y & !(m | n) == b & !(m | n)
  {}

  lemma RawUnique(b: byte, c: byte, o: byte, w: byte)
    requires 1 <= w <= 8 && o <= 8 - w
    requires var l := 0xFF >> (8 - w); (b >> o) & l == (c >> o) & l && b & !(l << o) == c & !(l << o)
    ensures b == c
  {}

  lemma RawFits(v: byte, w: byte)
    requires 1 <= w <= 8
    ensures v <= 0xFF >> (8 - w) <==> v & (0xFF >> (8 - w)) == v
  {}

  /** After `reg.name = v`, the field reads back as `v` cut to the field's width. */
  lemma InsertReadBack(b: byte, f: BitRange, v: byte)
    requires Valid(f)
    ensures Extract(Insert(b, f, v), f) == v & Low(f.width)
  {
    RawReadBack(b, f.offset, f.width, v);
  }

  /** Assigning a field changes no bit outside its mask. */
  lemma InsertFrame(b: byte, f: BitRange, v: byte)
    requires Valid(f)
    ensures Insert(b, f, v) & !Mask(f) == b & !Mask(f)
  {
    RawFrame(b, f.offset, f.width, v);
  }

  /** Writing back the value a field already holds leaves the byte as it was. */
  lemma InsertExtract(b: byte, f: BitRange)
    requires Valid(f)
    ensures Insert(b, f, Extract(b, f)) == b
  {
    RawSame(b, f.offset, f.width);
  }

  /** Of two assignments to the same field, the second wins. */
  lemma InsertTwice(b: byte, f: BitRange, u: byte, v: byte)
    requires Valid(f)
    ensures Insert(Insert(b, f, u), f, v) == Insert(b, f, v)
  {
    RawTwice(b, f.offset, f.width, u, v);
  }

  /** Assigning a field leaves the bits of every disjoint field as they were. */
  lemma InsertAgree(b: byte, f: BitRange, g: BitRange, v: byte)
    requires Valid(f) && Valid(g) && Disjoint(f, g)
    ensures Insert(b, f, v) & Mask(g) == b & Mask(g)
  {
    RawInsertAgree(b, f.offset, f.width, v, Mask(g));
  }

  /** Bytes that agree on a field's bits read the same value from it. */
  lemma ExtractAgree(x: byte, b: byte, f: BitRange)
    requires Valid(f) && x & Mask(f) == b & Mask(f)
    ensures Extract(x, f) == Extract(b, f)
  {
    ExtractMasked(x, f);
    ExtractMasked(b, f);
  }

  /** A field is read from its own bits only. */
  lemma ExtractMasked(b: byte, f: BitRange)
    requires Valid(f)
    ensures Extract(b, f) == ((b & Mask(f)) >> f.offset) & Low(f.width)
  {
    RawMasked(b, f.offset, f.width);
  }

  /** Byte `b` is `prev` with field `f` assigned `u`, and no other bit changed. */
  predicate Assigns1(prev: byte, b: byte, f: BitRange, u: byte)
    requires Valid(f)
  {
    Extract(b, f) == u & Low(f.width) && b & !Mask(f) == prev & !Mask(f)
  }

  /** Assigning a field is exactly what `Assigns1` describes. */
  lemma OneField(b: byte, f: BitRange, u: byte)
    requires Valid(f)
    ensures Assigns1(b, Insert(b, f, u), f, u)
  {
    InsertReadBack(b, f, u);
    InsertFrame(b, f, u);
  }

  /** Byte `b` is `prev` with field `f` assigned `u` and field `g` assigned `v`, and no other bit changed. */
  predicate Assigns2(prev: byte, b: byte, f: BitRange, u: byte, g: BitRange, v: byte)
    requires Valid(f) && Valid(g)
  {
    && Extract(b, f) == u & Low(f.width)
    && Extract(b, g) == v & Low(g.width)
    && b & !(Mask(f) | Mask(g)) == prev & !(Mask(f) | Mask(g))
  }

  /** Assigning two disjoint fields one after the other sets both and nothing else. */
  lemma TwoFields(b: byte, f: BitRange, g: BitRange, u: byte, v: byte)
    requires Valid(f) && Valid(g) && Disjoint(f, g)
    ensures Assigns2(b, Insert(Insert(b, f, u), g, v), f, u, g, v)
  {
    OneField(b, f, u);
    OneField(Insert(b, f, u), g, v);
    Compose(b, Insert(b, f, u), Insert(Insert(b, f, u), g, v), f, u, g, v);
  }

  /** Two single-field assignments to disjoint fields, one after the other. */
  lemma Compose(b: byte, x: byte, y: byte, f: BitRange, u: byte, g: BitRange, v: byte)
    requires Valid(f) && Valid(g) && Disjoint(f, g)
    requires Assigns1(b, x, f, u) && Assigns1(x, y, g, v)
    ensures Assigns2(b, y, f, u, g, v)
  {
    KeepsDisjoint(x, y, g, f);
    ExtractAgree(y, x, f);
    FramesCompose(b, x, y, f, g);
  }

  /** A byte that changed only inside `g` still agrees on the bits of a field disjoint from it. */
  lemma KeepsDisjoint(x: byte, y: byte, g: BitRange, f: BitRange)
    requires Valid(f) && Valid(g) && Disjoint(f, g)
    requires y & !Mask(g) == x & !Mask(g)
    ensures y & Mask(f) == x & Mask(f)
  {
    RawAgree(y, x, Mask(g), Mask(f));
  }

  /** Two changes confined to `f` and to `g` leave every bit outside both as it was. */
  lemma FramesCompose(b: byte, x: byte, y: byte, f: BitRange, g: BitRange)
    requires Valid(f) && Valid(g)
    requires x & !Mask(f) == b & !Mask(f) && y & !Mask(g) == x & !Mask(g)
    ensures y & !(Mask(f) | Mask(g)) == b & !(Mask(f) | Mask(g))
  {
    RawFrames(b, x, y, Mask(f), Mask(g));
  }

  /** `Assigns1` pins the new byte down: it is exactly the byte `Insert` computes. */
  lemma AssignsInsert(prev: byte, b: byte, f: BitRange, u: byte)
    requires Valid(f)
    ensures Assigns1(prev, b, f, u) <==> b == Insert(prev, f, u)
  {
    OneField(prev, f, u);
    if Assigns1(prev, b, f, u) {
      AssignsUnique(prev, b, Insert(prev, f, u), f, u);
    }
  }

  lemma AssignsUnique(prev: byte, b: byte, c: byte, f: BitRange, u: byte)
    requires Valid(f) && Assigns1(prev, b, f, u) && Assigns1(prev, c, f, u)
    ensures b == c
  {
    RawUnique(b, c, f.offset, f.width);
  }

  /** A byte that changed only in field `f` reads the same from every field disjoint from `f`. */
  lemma AssignsOther(prev: byte, b: byte, f: BitRange, u: byte, g: BitRange)
    requires Valid(f) && Valid(g) && Disjoint(g, f) && Assigns1(prev, b, f, u)
    ensures Extract(b, g) == Extract(prev, g)
  {
    KeepsDisjoint(prev, b, f, g);
    ExtractAgree(b, prev, g);
  }

  /** A value that fits a `w`-bit field survives being cut to the field's width. */
  lemma FitsLow(x: int, w: byte)
    requires 1 <= w <= 8 && 0 <= x <= Val(Low(w))
    ensures Val(ToByte(x) & Low(w)) == x
  {
    ValMonotone(ToByte(x), Low(w));
    RawFits(ToByte(x), w);
  }

  /** The value 1 fits every field. */
  lemma OneFits(w: byte)
    requires 1 <= w <= 8
    ensures 1 & Low(w) == 1
  {}

  /** On one bit, the complement of `v` is one minus `v`. */
  lemma ComplementBit(v: byte)
    ensures !v & 1 == 1 - (v & 1)
  {}

  /** An 8-bit field is the whole byte. */
  lemma WholeByte(v: byte)
    ensures v & Low(8) == v
  {}
}
