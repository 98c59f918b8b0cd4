/**
 What the accessors promise when they are used together: a setter followed by
 its getter returns the value set, a setter touches no other field, setting a
 field twice or writing back what was read changes nothing, and a failed bus
 transaction stops the accessor before anything is written.
 */
module Properties {
  import opened Bits
  import opened Words
  import opened Transport
  import opened Layout
  import opened Fields
  import opened Composite

  /** The value field `n` holds in the register file `regs`. */
  function Read(L: Layout, regs: RegFile, n: Name): byte
    requires Valid(L.bits(n))
  {
    Extract(regs[Val(AddrOf(L, n))], L.bits(n))
  }

  /** Every field other than `n` holds in `after` what it held in `before`. */
  predicate OthersKept(L: Layout, before: RegFile, after: RegFile, n: Name)
    requires WellFormed(L)
  {
    forall m | m != n :: Read(L, after, m) == Read(L, before, m)
  }

  // ---------------------------------------------------------------------------
  // Single-field setters and getters

  /**
   A field setter that returned 0 assigned its field, cut to the field's
   width, and left every other field of the device as it was.
   */
  lemma FieldSetFields(ctx: Ctx, L: Layout, n: Name, v: byte)
    requires WellFormed(L)
    ensures var s := FieldSet(ctx, L, n, v);
      s.status == 0 ==>
        && ctx.Live? && s.ctx.Live?
        && Read(L, s.ctx.regs, n) == v & Low(L.bits(n).width)
        && OthersKept(L, ctx.regs, s.ctx.regs, n)
  {
    var s := FieldSet(ctx, L, n, v);
    if s.status == 0 {
      var b := s.trace[1].data[0];
      forall m | m != n
        ensures Read(L, s.ctx.regs, m) == Read(L, ctx.regs, m)
      {
        if Home(m) == Home(n) {
          SameRegister(L, m, n);
        }
        AssignKeepsField(L, ctx.regs, n, b, v, m);
      }
    }
  }

  /** Writing back a byte that differs from its register only in field `n` leaves every other field as it was. */
  lemma AssignKeepsField(L: Layout, regs: RegFile, n: Name, b: byte, v: byte, m: Name)
    requires Valid(L.bits(n)) && Valid(L.bits(m))
    requires Home(m) == Home(n) ==> Disjoint(L.bits(m), L.bits(n))
    requires Home(m) != Home(n) ==> L.addr(Home(m)) != L.addr(Home(n))
    requires Assigns1(regs[Val(AddrOf(L, n))], b, L.bits(n), v)
    ensures Read(L, regs[Val(AddrOf(L, n)) := b], m) == Read(L, regs, m)
  {
    if Home(m) == Home(n) {
      AssignsOther(regs[Val(AddrOf(L, n))], b, L.bits(n), v, L.bits(m));
    } else {
      ValDistinct(AddrOf(L, m), AddrOf(L, n));
    }
  }

  /**
   `*_set` then `*_get` of a `uint8_t` flag: when both return 0 the getter
   reports the value set, cut to the field's width, and exactly the value when
   it fits.
   */
  lemma FlagRoundTrip(ctx: Ctx, L: Layout, n: Name, val: uint8)
    requires FlagSetter(n) && Valid(L.bits(n))
    ensures var s := FlagSet(ctx, L, n, val);
      var g := FlagGet(s.ctx, L, n);
      s.status == 0 && g.status == 0 ==>
        && g.out == Val(ToByte(val) & Low(L.bits(n).width))
        && (val <= Val(Low(L.bits(n).width)) ==> g.out == val)
  {
    var s := FlagSet(ctx, L, n, val);
    var g := FlagGet(s.ctx, L, n);
    if s.status == 0 && g.status == 0 {
      var a := Val(AddrOf(L, n));
      ReadAssigned(ctx.regs[a], s.ctx.regs[a], L.bits(n), val);
    }
  }

  /**
   `*_set` then `*_get` of an enumerated field: when both return 0 the getter
   reports the value set, cut to the field's width and decoded, which is the
   value itself when it is a member of the enumeration that fits the field.
   */
  lemma EnumRoundTrip(ctx: Ctx, L: Layout, n: Name, E: EnumName, val: int)
    requires EnumSetter(n) && EnumOf(n) == Some(E) && Valid(L.bits(n))
    ensures var s := EnumSet(ctx, L, n, val);
      var g := EnumGet(s.ctx, L, n);
      var e := L.enums(E);
      s.status == 0 && g.status == 0 ==>
        && g.out == Decode(e, Val(ToByte(val) & Low(L.bits(n).width)))
        && (val in Members(e) && 0 <= val <= Val(Low(L.bits(n).width)) ==> g.out == val)
  {
    var s := EnumSet(ctx, L, n, val);
    var g := EnumGet(s.ctx, L, n);
    var e := L.enums(E);
    if s.status == 0 && g.status == 0 {
      var a := Val(AddrOf(L, n));
      ReadAssigned(ctx.regs[a], s.ctx.regs[a], L.bits(n), val);
    }
  }

  /** Setting a field twice to the same value leaves the registers as the first setting did. */
  lemma FieldSetTwice(ctx: Ctx, L: Layout, n: Name, v: byte)
    requires Valid(L.bits(n))
    ensures var s1 := FieldSet(ctx, L, n, v);
      var s2 := FieldSet(s1.ctx, L, n, v);
      s1.status == 0 && s2.status == 0 ==> s2.ctx.regs == s1.ctx.regs
  {
    var s1 := FieldSet(ctx, L, n, v);
    var s2 := FieldSet(s1.ctx, L, n, v);
    if s1.status == 0 && s2.status == 0 {
      var r, f := ctx.regs[Val(AddrOf(L, n))], L.bits(n);
      var b1, b2 := s1.trace[1].data[0], s2.trace[1].data[0];
      AssignsInsert(r, b1, f, v);
      AssignsInsert(b1, b2, f, v);
      InsertTwice(r, f, v, v);
    }
  }

  /** Writing back the value a getter just read leaves the registers as they were. */
  lemma FieldGetSet(ctx: Ctx, L: Layout, n: Name)
    requires Valid(L.bits(n))
    ensures var g := FieldGet(ctx, L, n);
      var s := FieldSet(g.ctx, L, n, g.out);
      g.status == 0 && s.status == 0 ==> s.ctx.regs == ctx.regs
  {
    var g := FieldGet(ctx, L, n);
    var s := FieldSet(g.ctx, L, n, g.out);
    if g.status == 0 && s.status == 0 {
      var r, f := ctx.regs[Val(AddrOf(L, n))], L.bits(n);
      AssignsInsert(r, s.trace[1].data[0], f, g.out);
      InsertExtract(r, f);
    }
  }

  /** A setter whose read fails writes nothing: its trace is that one read, and the registers are as they were. */
  lemma FieldSetFailedRead(ctx: Ctx, L: Layout, n: Name, v: byte)
    requires Valid(L.bits(n))
    ensures var s := FieldSet(ctx, L, n, v);
      |s.trace| >= 1 && s.trace[0].status != 0 ==>
        && s.trace == [s.trace[0]] && s.trace[0].Rd?
        && s.ctx == Live(ctx.regs, Consume(ctx.replies, 1))
  {
    var s := FieldSet(ctx, L, n, v);
    if |s.trace| >= 1 && s.trace[0].status != 0 {
      var a := AddrOf(L, n);
      ShortCircuitStops(ctx, [RdOp(a, 1), WrOp(a)], s.status, s.ctx, s.trace, 0);
    }
  }

  /** `pin_int_route_set` then `pin_int_route_get`: the byte written is the byte read. */
  lemma RegisterRoundTrip(ctx: Ctx, L: Layout, v: byte)
    ensures var s := RegisterSet(ctx, L, v);
      var g := RegisterGet(s.ctx, L, CtrlReg3);
      && (AllOk(ctx) ==> s.status == 0 && g.status == 0)
      && (s.status == 0 && g.status == 0 ==> g.out == v)
  {
    var s := RegisterSet(ctx, L, v);
    var g := RegisterGet(s.ctx, L, CtrlReg3);
    if AllOk(ctx) {
      ShortCircuitAllOk(ctx, [WrOp(L.addr(CtrlReg3))], s.status, s.ctx, s.trace);
      ShortCircuitAllOk(s.ctx, [RdOp(L.addr(CtrlReg3), 1)], g.status, g.ctx, g.trace);
    }
  }

  /** A field assigned `(uint8_t)val` reads `val` cut to the field's width, and exactly `val` when it fits. */
  lemma ReadAssigned(prev: byte, b: byte, f: BitRange, val: int)
    requires Valid(f) && Assigns1(prev, b, f, ToByte(val))
    ensures Val(Extract(b, f)) == Val(ToByte(val) & Low(f.width))
    ensures 0 <= val <= Val(Low(f.width)) ==> Val(Extract(b, f)) == val
  {
    if 0 <= val <= Val(Low(f.width)) {
      FitsLow(val, f.width);
    }
  }

  /** A member that fits the field it was assigned to decodes back to itself. */
  lemma DecodeAssigned(e: Enum, b: byte, f: BitRange, val: int)
    requires Valid(f) && val in Members(e) && 0 <= val <= Val(Low(f.width))
    requires Extract(b, f) == ToByte(val) & Low(f.width)
    ensures Decode(e, Val(Extract(b, f))) == val
  {
    FitsLow(val, f.width);
  }

  // ---------------------------------------------------------------------------
  // Accessors that assign two fields

  /** After `int_on_threshold_set` returned 0, `diff_en` is 0 exactly when the value set is NO_THRESHOLD. */
  lemma ThresholdDiffEn(ctx: Ctx, L: Layout, val: int)
    requires Pair(L, Pe, DiffEn)
    ensures var s := IntOnThresholdSet(ctx, L, val);
      s.status == 0 ==> (Read(L, s.ctx.regs, DiffEn) == 0 <==> val == L.enums(PeEnum).first)
  {
    OneFits(L.bits(DiffEn).width);
  }

  /**
   `int_on_threshold_set` then `int_on_threshold_get`: when both return 0 the
   getter reports the value set if it is a member that fits the `pe` field.
   */
  lemma IntOnThresholdRoundTrip(ctx: Ctx, L: Layout, val: int)
    requires Pair(L, Pe, DiffEn)
    ensures var s := IntOnThresholdSet(ctx, L, val);
      var g := EnumGet(s.ctx, L, Pe);
      s.status == 0 && g.status == 0 && val in Members(L.enums(PeEnum)) && 0 <= val <= Val(Low(L.bits(Pe).width)) ==>
        g.out == val
  {
    var s := IntOnThresholdSet(ctx, L, val);
    var g := EnumGet(s.ctx, L, Pe);
    var e := L.enums(PeEnum);
    if s.status == 0 && g.status == 0 && val in Members(e) && 0 <= val <= Val(Low(L.bits(Pe).width)) {
      DecodeAssigned(e, s.ctx.regs[Val(L.addr(InterruptCfg))], L.bits(Pe), val);
    }
  }

  /**
   After `i3c_interface_set` returned 0, with the one-bit fields of the
   register map, `int_en_i3c` holds the complement of `i3c_disable`.
   */
  lemma I3cComplement(ctx: Ctx, L: Layout, val: int)
    requires Pair(L, I3cDisable, IntEnI3c) && L.bits(I3cDisable).width == 1 && L.bits(IntEnI3c).width == 1
    ensures var s := I3cInterfaceSet(ctx, L, val);
      s.status == 0 ==>
        var b := s.ctx.regs[Val(L.addr(IfCtrl))];
        Extract(b, L.bits(IntEnI3c)) == 1 - Extract(b, L.bits(I3cDisable))
  {
    var s := I3cInterfaceSet(ctx, L, val);
    if s.status == 0 {
      var b := s.ctx.regs[Val(L.addr(IfCtrl))];
      ComplementFields(ctx.regs[Val(L.addr(IfCtrl))], b, L.bits(I3cDisable), L.bits(IntEnI3c), ToByte(val));
    }
  }

  /** Two one-bit fields assigned a value and its complement end up complementary. */
  lemma ComplementFields(prev: byte, b: byte, f: BitRange, g: BitRange, v: byte)
    requires Valid(f) && Valid(g) && f.width == 1 && g.width == 1 && Assigns2(prev, b, f, v, g, !v)
    ensures Extract(b, g) == 1 - Extract(b, f)
  {
    ComplementBit(v);
  }

  /**
   `i3c_interface_set` then `i3c_interface_get`: when both return 0 the getter
   reports the value set if it is a member that fits the `i3c_disable` field.
   */
  lemma I3cRoundTrip(ctx: Ctx, L: Layout, val: int)
    requires Pair(L, I3cDisable, IntEnI3c)
    ensures var s := I3cInterfaceSet(ctx, L, val);
      var g := EnumGet(s.ctx, L, I3cDisable);
      s.status == 0 && g.status == 0 && val in Members(L.enums(I3cEnum)) && 0 <= val <= Val(Low(L.bits(I3cDisable).width)) ==>
        g.out == val
  {
    var s := I3cInterfaceSet(ctx, L, val);
    var g := EnumGet(s.ctx, L, I3cDisable);
    var e := L.enums(I3cEnum);
    if s.status == 0 && g.status == 0 && val in Members(e) && 0 <= val <= Val(Low(L.bits(I3cDisable).width)) {
      var prev, b := ctx.regs[Val(L.addr(IfCtrl))], s.ctx.regs[Val(L.addr(IfCtrl))];
      assert Assigns2(prev, b, L.bits(I3cDisable), ToByte(val), L.bits(IntEnI3c), !ToByte(val));
      assert g.out == Decode(e, Val(Extract(b, L.bits(I3cDisable))));
      I3cAssigned(L, prev, b, val);
    }
  }

  /** A register byte that `i3c_interface_set` produced decodes back to the value set, when that fits the field. */
  lemma I3cAssigned(L: Layout, prev: byte, b: byte, val: int)
    requires Pair(L, I3cDisable, IntEnI3c)
    requires Assigns2(prev, b, L.bits(I3cDisable), ToByte(val), L.bits(IntEnI3c), !ToByte(val))
    requires val in Members(L.enums(I3cEnum)) && 0 <= val <= Val(Low(L.bits(I3cDisable).width))
    ensures Decode(L.enums(I3cEnum), Val(Extract(b, L.bits(I3cDisable)))) == val
  {
    DecodeAssigned(L.enums(I3cEnum), b, L.bits(I3cDisable), val);
  }

  // ---------------------------------------------------------------------------
  // Accessors that span registers

  /**
   `data_rate_set` then `data_rate_get`: when both return 0 the getter
   reports the value set if it is a member of the ODR table below 32, the
   largest code the three fields can hold.
   */
  lemma DataRateRoundTrip(ctx: Ctx, L: Layout, val: int)
    requires OdrFields(L) && L.addr(CtrlReg1) != L.addr(CtrlReg2)
    ensures var s := DataRateSet(ctx, L, val);
      var g := DataRateGet(s.ctx, L);
      s.status == 0 && g.status == 0 && val in Members(L.enums(OdrEnum)) && 0 <= val < 32 ==> g.out == Some(val)
  {
    var s := DataRateSet(ctx, L, val);
    var g := DataRateGet(s.ctx, L);
    if s.status == 0 && g.status == 0 && val in Members(L.enums(OdrEnum)) && 0 <= val < 32 {
      DataRateRegisters(L, val, ctx.regs, s.ctx.regs);
    }
  }

  /** The registers `data_rate_set` leaves behind hold the ODR code it was given, if that is below 32. */
  lemma DataRateRegisters(L: Layout, val: int, regs: RegFile, regs': RegFile)
    requires OdrFields(L) && L.addr(CtrlReg1) != L.addr(CtrlReg2) && 0 <= val < 32
    requires var (b1, b2) := DataRateBytes(L, val, regs[Val(L.addr(CtrlReg1))], regs[Val(L.addr(CtrlReg2))]);
      regs' == regs[Val(L.addr(CtrlReg1)) := b1][Val(L.addr(CtrlReg2)) := b2]
    ensures OdrCode(L, regs'[Val(L.addr(CtrlReg1))], regs'[Val(L.addr(CtrlReg2))]) == val
  {
    var c1, c2 := L.addr(CtrlReg1), L.addr(CtrlReg2);
    ValDistinct(c1, c2);
    DataRateCode(L, val, regs[Val(c1)], regs[Val(c2)]);
  }

  /** The bytes `data_rate_set` computes reassemble, as `data_rate_get` does it, into the code below 32 they were computed from. */
  lemma DataRateCode(L: Layout, val: int, reg1: byte, reg2: byte)
    requires OdrFields(L) && 0 <= val < 32
    ensures var (b1, b2) := DataRateBytes(L, val, reg1, reg2);
      OdrCode(L, b1, b2) == val
  {
    var (b1, b2) := DataRateBytes(L, val, reg1, reg2);
    var v := ToByte(val);
    DataRateAssigns(L, val, reg1, reg2);
    SmallMod(val, 0x100);
    assert Extract(b1, L.bits(Odr)) == OdrPart(v) & Low(3);
    assert Extract(b2, L.bits(LowNoiseEn)) == LowNoisePart(v) & Low(1);
    assert Extract(b2, L.bits(OneShot)) == OneShotPart(v) & Low(1);
    OdrParts(v);
  }

  /**
   `pressure_ref_set` then `pressure_ref_get` (likewise for the offset): when
   both return 0 the getter reports the value set.
   */
  lemma Int16RoundTrip(ctx: Ctx, L: Layout, reg: Reg, val: int16)
    requires reg in {RefPL, RpdsL}
    ensures var s := Int16Set(ctx, L, reg, val);
      var g := Int16Get(s.ctx, L, reg);
      s.status == 0 && g.status == 0 ==> g.out == val
  {
    var s := Int16Set(ctx, L, reg, val);
    var g := Int16Get(s.ctx, L, reg);
    if s.status == 0 && g.status == 0 {
      var d := Int16Bytes(val);
      StoreTwoBytes(ctx.regs, L.addr(reg), d);
      Int16BytesJoin(val);
    }
  }

  /** A two-byte write puts its first byte at the address and its second at the next one. */
  lemma StoreTwoBytes(regs: RegFile, a: byte, d: seq<byte>)
    requires |d| == 2
    ensures Store(regs, a, d)[Val(a)] == d[0] && Store(regs, a, d)[Val(a + 1)] == d[1]
  {
    assert d == [d[0], d[1]];
    StoreTwo(regs, a, d[0], d[1]);
    ValSucc(a);
  }

  /** The two bytes the 16-bit setters write reassemble, as the getters do it, into the value written. */
  lemma Int16BytesJoin(val: int16)
    ensures JoinInt16(Val(Int16Bytes(val)[0]), Val(Int16Bytes(val)[1])) == val
  {
    var b := SplitInt16(val);
    SmallMod(b[0], 0x100);
    SmallMod(b[1], 0x100);
    JoinSplit(val);
  }

  /**
   `int_threshold_set` then `int_threshold_get`: when both return 0 the getter
   reports the low byte of the value set cut to THS_P_L's field and its high
   byte cut to THS_P_H's, so exactly the value set when the low field is a
   whole byte and the high byte fits its field.
   */
  lemma ThresholdRoundTrip(ctx: Ctx, L: Layout, buff: uint16, junkL: byte, junkH: byte)
    requires Valid(L.bits(ThsL)) && Valid(L.bits(ThsH)) && L.addr(ThsPL) != L.addr(ThsPH)
    ensures var s := IntThresholdSet(ctx, L, buff, junkL, junkH);
      var g := IntThresholdGet(s.ctx, L);
      s.status == 0 && g.status == 0 ==>
        && g.out.Some?
        && g.out.value % 0x100 == Val(ToByte(buff) & Low(L.bits(ThsL).width))
        && g.out.value / 0x100 == Val(ToByte(buff / 0x100) & Low(L.bits(ThsH).width))
        && (L.bits(ThsL).width == 8 && buff / 0x100 <= Val(Low(L.bits(ThsH).width)) ==> g.out == Some(buff))
  {
    var s := IntThresholdSet(ctx, L, buff, junkL, junkH);
    var g := IntThresholdGet(s.ctx, L);
    if s.status == 0 && g.status == 0 {
      ThresholdRegisters(L, buff, junkL, junkH, ctx.regs, s.ctx.regs);
      ThresholdLow(L, buff, junkL, junkH);
      ThresholdHigh(L, buff, junkL, junkH);
      if L.bits(ThsL).width == 8 && buff / 0x100 <= Val(Low(L.bits(ThsH).width)) {
        ThresholdExact(L, buff, junkL, junkH);
      }
    }
  }

  /** The registers `int_threshold_set` leaves behind hold the two bytes it computed. */
  lemma ThresholdRegisters(L: Layout, buff: uint16, junkL: byte, junkH: byte, regs: RegFile, regs': RegFile)
    requires Valid(L.bits(ThsL)) && Valid(L.bits(ThsH)) && L.addr(ThsPL) != L.addr(ThsPH)
    requires var (lB, hB) := ThresholdBytes(L, buff, junkL, junkH);
      regs' == regs[Val(L.addr(ThsPL)) := lB][Val(L.addr(ThsPH)) := hB]
    ensures var (lB, hB) := ThresholdBytes(L, buff, junkL, junkH);
      regs'[Val(L.addr(ThsPL))] == lB && regs'[Val(L.addr(ThsPH))] == hB
  {
    ValDistinct(L.addr(ThsPL), L.addr(ThsPH));
  }

  /** The low byte of the threshold read back is the low byte of the value set, cut to THS_P_L's field. */
  lemma ThresholdLow(L: Layout, buff: uint16, junkL: byte, junkH: byte)
    requires Valid(L.bits(ThsL)) && Valid(L.bits(ThsH))
    ensures var r := ThresholdBytes(L, buff, junkL, junkH);
      ThresholdValue(L, r.0, r.1) % 0x100 == Val(ToByte(buff) & Low(L.bits(ThsL).width))
  {
    var r := ThresholdBytes(L, buff, junkL, junkH);
    var x := ToByte(buff);
    assert Assigns1(junkL, r.0, L.bits(ThsL), x);
    LowOfBytes(L, junkL, r.0, r.1, x);
  }

  /** The high byte of the threshold read back is the high byte of the value set, cut to THS_P_H's field. */
  lemma ThresholdHigh(L: Layout, buff: uint16, junkL: byte, junkH: byte)
    requires Valid(L.bits(ThsL)) && Valid(L.bits(ThsH))
    ensures var r := ThresholdBytes(L, buff, junkL, junkH);
      ThresholdValue(L, r.0, r.1) / 0x100 == Val(ToByte(buff / 0x100) & Low(L.bits(ThsH).width))
  {
    var r := ThresholdBytes(L, buff, junkL, junkH);
    var x := ToByte(buff / 0x100);
    assert Assigns1(junkH, r.1, L.bits(ThsH), x);
    HighOfBytes(L, junkH, r.0, r.1, x);
  }

  /** With a whole-byte low field and a high byte that fits its field, the threshold reads back exactly. */
  lemma ThresholdExact(L: Layout, buff: uint16, junkL: byte, junkH: byte)
    requires Valid(L.bits(ThsL)) && Valid(L.bits(ThsH))
    requires L.bits(ThsL).width == 8 && buff / 0x100 <= Val(Low(L.bits(ThsH).width))
    ensures var r := ThresholdBytes(L, buff, junkL, junkH);
      ThresholdValue(L, r.0, r.1) == buff
  {
    var r := ThresholdBytes(L, buff, junkL, junkH);
    ExactOfBytes(L, buff, junkL, junkH, r.0, r.1);
  }

  /** Value level: once THS_P_L's field is assigned `x`, the threshold's low byte is `x` cut to the field. */
  lemma LowOfBytes(L: Layout, junk: byte, lo: byte, hi: byte, x: byte)
    requires Valid(L.bits(ThsL)) && Valid(L.bits(ThsH))
    requires Assigns1(junk, lo, L.bits(ThsL), x)
    ensures ThresholdValue(L, lo, hi) % 0x100 == Val(x & Low(L.bits(ThsL).width))
  {}

  /** Value level: once THS_P_H's field is assigned `x`, the threshold's high byte is `x` cut to the field. */
  lemma HighOfBytes(L: Layout, junk: byte, lo: byte, hi: byte, x: byte)
    requires Valid(L.bits(ThsL)) && Valid(L.bits(ThsH))
    requires Assigns1(junk, hi, L.bits(ThsH), x)
    ensures ThresholdValue(L, lo, hi) / 0x100 == Val(x & Low(L.bits(ThsH).width))
  {}

  /** Value level: fields assigned both bytes of `buff`, neither cut, give `buff` back. */
  lemma ExactOfBytes(L: Layout, buff: uint16, junkL: byte, junkH: byte, lo: byte, hi: byte)
    requires Valid(L.bits(ThsL)) && Valid(L.bits(ThsH))
    requires L.bits(ThsL).width == 8 && buff / 0x100 <= Val(Low(L.bits(ThsH).width))
    requires Assigns1(junkL, lo, L.bits(ThsL), ToByte(buff))
    requires Assigns1(junkH, hi, L.bits(ThsH), ToByte(buff / 0x100))
    ensures ThresholdValue(L, lo, hi) == buff
  {
    var v := ThresholdValue(L, lo, hi);
    FitsLow(buff / 0x100, L.bits(ThsH).width);
    WholeByte(ToByte(buff));
    assert v / 0x100 == buff / 0x100;
    assert v % 0x100 == buff % 0x100;
    ByteDigits(v, buff);
  }

  /** A number is determined by its low byte and the rest. */
  lemma ByteDigits(x: int, y: int)
    requires x / 0x100 == y / 0x100 && x % 0x100 == y % 0x100
    ensures x == y
  {}
}
