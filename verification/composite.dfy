/**
 The accessors that span more than one register or more than one bus
 transaction: the output data rate (split over CTRL_REG1 and CTRL_REG2), the
 16-bit reference and offset pressures, the raw pressure and temperature
 samples, the two-register interrupt threshold, and the snapshot of all
 interrupt sources.
 */
module Composite {
  import opened Bits
  import opened Words
  import opened Transport
  import opened Layout
  import opened Fields

  // ---------------------------------------------------------------------------
  // Output data rate

  /** The 3-bit rate code of an ODR value, `(uint8_t)val & 0x07`. */
  function OdrPart(v: byte): byte {
    v & 0x07
  }

  /** The low-noise flag of an ODR value, `((uint8_t)val & 0x10) >> 4`. */
  function LowNoisePart(v: byte): byte {
    (v & 0x10) >> 4
  }

  /** The one-shot flag of an ODR value, `((uint8_t)val & 0x08) >> 3`. */
  function OneShotPart(v: byte): byte {
    (v & 0x08) >> 3
  }

  /**
   The ODR value the getter's `switch` examines,
   `(low_noise_en << 4) + (one_shot << 3) + odr`, taken from CTRL_REG1 and CTRL_REG2.
   */
  function OdrCode(L: Layout, reg1: byte, reg2: byte): (c: int)
    requires OdrFields(L)
    ensures 0 <= c < 32
  {
    RawExtractBound(reg2, L.bits(LowNoiseEn).offset, 1);
    RawExtractBound(reg2, L.bits(OneShot).offset, 1);
    RawExtractBound(reg1, L.bits(Odr).offset, 3);
    Val(Extract(reg2, L.bits(LowNoiseEn))) * 16
      + Val(Extract(reg2, L.bits(OneShot))) * 8
      + Val(Extract(reg1, L.bits(Odr)))
  }

  /** A code below 32 is the sum of its parts, weighted as the getter reassembles them. */
  lemma OdrParts(v: byte)
    requires Val(v) < 32
    ensures Val(LowNoisePart(v) & Low(1)) * 16 + Val(OneShotPart(v) & Low(1)) * 8 + Val(OdrPart(v) & Low(3)) == Val(v)
  {}

  /**
   The two bytes `data_rate_set` writes back: CTRL_REG1 with `odr` assigned
   bits 0-2 of the code, and CTRL_REG2 with `low_noise_en` assigned bit 4 and
   then `one_shot` bit 3.
   */
  function DataRateBytes(L: Layout, val: int, reg1: byte, reg2: byte): (byte, byte)
    requires OdrFields(L)
  {
    var v := ToByte(val);
    (Insert(reg1, L.bits(Odr), OdrPart(v)),
     Insert(Insert(reg2, L.bits(LowNoiseEn), LowNoisePart(v)), L.bits(OneShot), OneShotPart(v)))
  }

  /** Each written byte differs from the byte read only in the fields the code is split into. */
  lemma DataRateAssigns(L: Layout, val: int, reg1: byte, reg2: byte)
    requires OdrFields(L)
    ensures var (b1, b2) := DataRateBytes(L, val, reg1, reg2);
      var v := ToByte(val);
      && Assigns1(reg1, b1, L.bits(Odr), OdrPart(v))
      && Assigns2(reg2, b2, L.bits(LowNoiseEn), LowNoisePart(v), L.bits(OneShot), OneShotPart(v))
  {
    var v := ToByte(val);
    OneField(reg1, L.bits(Odr), OdrPart(v));
    TwoFields(reg2, L.bits(LowNoiseEn), L.bits(OneShot), LowNoisePart(v), OneShotPart(v));
  }

  /**
   Two one-byte writes, the second only if the first returned 0 (the tail of
   `data_rate_set` and all of `int_threshold_set`). A failure of the second
   write leaves the first register already written.
   */
  function WriteBoth(ctx: Ctx, a1: byte, b1: byte, a2: byte, b2: byte): (s: Step<()>)
    ensures ShortCircuit(ctx, [WrOp(a1), WrOp(a2)], s.status, s.ctx, s.trace)
    ensures |s.trace| >= 1 ==> s.trace[0] == Wr(a1, [b1], s.trace[0].status)
    ensures |s.trace| == 2 ==> s.trace[1] == Wr(a2, [b2], s.status)
    ensures s.status == 0 ==> ctx.Live? && s.ctx.Live? && |s.trace| == 2 && s.ctx.regs == ctx.regs[Val(a1) := b1][Val(a2) := b2]
    ensures s.status != 0 && s.ctx.Live? ==>
      ctx.Live? && s.ctx.regs == if |s.trace| == 2 then ctx.regs[Val(a1) := b1] else ctx.regs
  {
    var w1 := WriteReg(ctx, a1, [b1]);
    if w1.status != 0 then
      ShortCircuitStop(ctx, WrOp(a1), [WrOp(a2)], w1.status, w1.ctx, w1.trace);
      Step(w1.status, (), w1.ctx, w1.trace)
    else
      var w2 := WriteReg(w1.ctx, a2, [b2]);
      ShortCircuitThen(ctx, WrOp(a1), [WrOp(a2)], w1.ctx, w1.trace, w2.status, w2.ctx, w2.trace);
      StoreOne(ctx.regs, a1, b1);
      StoreOne(w1.ctx.regs, a2, b2);
      Step(w2.status, (), w2.ctx, w1.trace + w2.trace)
  }

  /**
   `data_rate_set`: read CTRL_REG1 and CTRL_REG2, then write CTRL_REG1 with
   `odr` assigned and CTRL_REG2 with `low_noise_en` and `one_shot` assigned,
   each step only after every earlier one returned 0. A failure of the last
   write leaves CTRL_REG1 already updated.
   */
  function DataRateSet(ctx: Ctx, L: Layout, val: int): (s: Step<()>)
    requires OdrFields(L)
    ensures ShortCircuit(ctx, [RdOp(L.addr(CtrlReg1), 1), RdOp(L.addr(CtrlReg2), 1), WrOp(L.addr(CtrlReg1)), WrOp(L.addr(CtrlReg2))],
                         s.status, s.ctx, s.trace)
    ensures s.status == 0 ==>
      && ctx.Live? && s.ctx.Live? && |s.trace| == 4
      && var (b1, b2) := DataRateBytes(L, val, ctx.regs[Val(L.addr(CtrlReg1))], ctx.regs[Val(L.addr(CtrlReg2))]);
         s.ctx.regs == ctx.regs[Val(L.addr(CtrlReg1)) := b1][Val(L.addr(CtrlReg2)) := b2]
    ensures s.status != 0 && s.ctx.Live? ==>
      if |s.trace| == 4 then
        && ctx.Live?
        && var (b1, _) := DataRateBytes(L, val, ctx.regs[Val(L.addr(CtrlReg1))], ctx.regs[Val(L.addr(CtrlReg2))]);
           s.ctx.regs == ctx.regs[Val(L.addr(CtrlReg1)) := b1]
      else
        s.ctx.regs == ctx.regs
  {
    var c1 := L.addr(CtrlReg1);
    var p1, rest := RdOp(c1, 1), [RdOp(L.addr(CtrlReg2), 1), WrOp(c1), WrOp(L.addr(CtrlReg2))];
    assert [p1] + rest == [p1, rest[0], rest[1], rest[2]];
    var r1 := ReadReg(ctx, c1, 1);
    if r1.status != 0 then
      ShortCircuitStop(ctx, p1, rest, r1.status, r1.ctx, r1.trace);
      Step(r1.status, (), r1.ctx, r1.trace)
    else
      var t := DataRateTail(r1.ctx, L, val, r1.data[0]);
      ShortCircuitThen(ctx, p1, rest, r1.ctx, r1.trace, t.status, t.ctx, t.trace);
      Step(t.status, (), t.ctx, r1.trace + t.trace)
  }

  /**
   The rest of `data_rate_set` once CTRL_REG1 was read as `reg1`: read
   CTRL_REG2, then write both registers back.
   */
  function DataRateTail(ctx: Ctx, L: Layout, val: int, reg1: byte): (s: Step<()>)
    requires OdrFields(L)
    ensures ShortCircuit(ctx, [RdOp(L.addr(CtrlReg2), 1), WrOp(L.addr(CtrlReg1)), WrOp(L.addr(CtrlReg2))],
                         s.status, s.ctx, s.trace)
    ensures s.status == 0 ==>
      && ctx.Live? && s.ctx.Live? && |s.trace| == 3
      && var (b1, b2) := DataRateBytes(L, val, reg1, ctx.regs[Val(L.addr(CtrlReg2))]);
         s.ctx.regs == ctx.regs[Val(L.addr(CtrlReg1)) := b1][Val(L.addr(CtrlReg2)) := b2]
    ensures s.status != 0 && s.ctx.Live? ==>
      if |s.trace| == 3 then
        && ctx.Live?
        && var (b1, _) := DataRateBytes(L, val, reg1, ctx.regs[Val(L.addr(CtrlReg2))]);
           s.ctx.regs == ctx.regs[Val(L.addr(CtrlReg1)) := b1]
      else
        s.ctx.regs == ctx.regs
  {
    var c1, c2 := L.addr(CtrlReg1), L.addr(CtrlReg2);
    var p2 := RdOp(c2, 1);
    var r2 := ReadReg(ctx, c2, 1);
    if r2.status != 0 then
      ShortCircuitStop(ctx, p2, [WrOp(c1), WrOp(c2)], r2.status, r2.ctx, r2.trace);
      Step(r2.status, (), r2.ctx, r2.trace)
    else
      var (b1, b2) := DataRateBytes(L, val, reg1, r2.data[0]);
      var w := WriteBoth(r2.ctx, c1, b1, c2, b2);
      ShortCircuitThen(ctx, p2, [WrOp(c1), WrOp(c2)], r2.ctx, r2.trace, w.status, w.ctx, w.trace);
      Step(w.status, (), w.ctx, r2.trace + w.trace)
  }

  /**
   `data_rate_get`: read CTRL_REG1, then CTRL_REG2, then CTRL_REG2 again; once
   the first two reads succeeded the output is assigned from the third read's
   buffer whatever that read returned, decoded through the ODR table. The
   status is that of the last read.
   */
  function DataRateGet(ctx: Ctx, L: Layout): (s: Step<Option<int>>)
    requires OdrFields(L)
    ensures ShortCircuit(ctx, [RdOp(L.addr(CtrlReg1), 1), RdOp(L.addr(CtrlReg2), 1), RdOp(L.addr(CtrlReg2), 1)],
                         s.status, s.ctx, s.trace)
    ensures s.out.Some? <==> |s.trace| == 3
    ensures s.out.Some? ==> s.out.value in Members(L.enums(OdrEnum))
    ensures s.status == 0 ==>
      ctx.Live? && s.out == Some(Decode(L.enums(OdrEnum), OdrCode(L, ctx.regs[Val(L.addr(CtrlReg1))], ctx.regs[Val(L.addr(CtrlReg2))])))
    ensures s.ctx.Live? ==> s.ctx.regs == ctx.regs
  {
    var c1, c2 := L.addr(CtrlReg1), L.addr(CtrlReg2);
    var p1, p2, p3 := RdOp(c1, 1), RdOp(c2, 1), RdOp(c2, 1);
    assert [p1, p2, p3] == [p1] + ([p2] + [p3]);
    var r1 := ReadReg(ctx, c1, 1);
    if r1.status != 0 then
      ShortCircuitStop(ctx, p1, [p2, p3], r1.status, r1.ctx, r1.trace);
      Step(r1.status, None, r1.ctx, r1.trace)
    else
      var r2 := ReadReg(r1.ctx, c2, 1);
      if r2.status != 0 then
        ShortCircuitStop(r1.ctx, p2, [p3], r2.status, r2.ctx, r2.trace);
        ShortCircuitThen(ctx, p1, [p2] + [p3], r1.ctx, r1.trace, r2.status, r2.ctx, r2.trace);
        Step(r2.status, None, r2.ctx, r1.trace + r2.trace)
      else
        var r3 := ReadReg(r2.ctx, c2, 1);
        ShortCircuitThen(r1.ctx, p2, [p3], r2.ctx, r2.trace, r3.status, r3.ctx, r3.trace);
        ShortCircuitThen(ctx, p1, [p2] + [p3], r1.ctx, r1.trace, r3.status, r3.ctx, r2.trace + r3.trace);
        var code := OdrCode(L, r1.data[0], r3.data[0]);
        Step(r3.status, Some(Decode(L.enums(OdrEnum), code)), r3.ctx, r1.trace + (r2.trace + r3.trace))
  }

  // ---------------------------------------------------------------------------
  // Two- and three-byte values

  /** The registers a signed 16-bit value is read from or written to, low byte first. */
  predicate Int16Reg(reg: Reg) {
    reg in {RefPL, RpdsL, TempOutL, FifoDataOutTempL}
  }

  /** The buffer `pressure_ref_set` and `pressure_offset_set` write: low byte, then high byte. */
  function Int16Bytes(val: int16): (d: seq<byte>)
    ensures |d| == 2 && Val(d[1]) * 0x100 + Val(d[0]) == ToUInt16(val)
  {
    var b := SplitInt16(val);
    [ToByte(b[0]), ToByte(b[1])]
  }

  /**
   `pressure_ref_set` and `pressure_offset_set`: one two-byte write, low byte
   first, of the value's 16-bit two's-complement pattern.
   */
  function Int16Set(ctx: Ctx, L: Layout, reg: Reg, val: int16): (s: Step<()>)
    requires reg in {RefPL, RpdsL}
    ensures ShortCircuit(ctx, [WrOp(L.addr(reg))], s.status, s.ctx, s.trace)
    ensures |s.trace| == 1 ==>
      && s.trace[0].Wr? && |s.trace[0].data| == 2
      && Val(s.trace[0].data[1]) * 0x100 + Val(s.trace[0].data[0]) == ToUInt16(val)
    ensures s.status == 0 ==> ctx.Live? && s.ctx.Live? && s.ctx.regs == Store(ctx.regs, L.addr(reg), Int16Bytes(val))
    ensures s.status != 0 && s.ctx.Live? ==> s.ctx.regs == ctx.regs
  {
    var w := WriteReg(ctx, L.addr(reg), Int16Bytes(val));
    Step(w.status, (), w.ctx, w.trace)
  }

  /**
   `pressure_ref_get`, `pressure_offset_get`, `temperature_raw_get` and
   `fifo_temperature_raw_get`: one two-byte read, low byte first, assembled
   into a signed 16-bit value whatever the read returned.
   */
  function Int16Get(ctx: Ctx, L: Layout, reg: Reg): (s: Step<int16>)
    requires Int16Reg(reg)
    ensures ShortCircuit(ctx, [RdOp(L.addr(reg), 2)], s.status, s.ctx, s.trace)
    ensures s.status == 0 ==>
      ctx.Live? && s.out == JoinInt16(Val(ctx.regs[Val(L.addr(reg))]), Val(ctx.regs[Val(L.addr(reg) + 1)]))
    ensures s.ctx.Live? ==> s.ctx.regs == ctx.regs
  {
    var r := ReadReg(ctx, L.addr(reg), 2);
    Step(r.status, JoinInt16(Val(r.data[0]), Val(r.data[1])), r.ctx, r.trace)
  }

  /**
   `pressure_raw_get` and `fifo_pressure_raw_get`: one three-byte read, low
   byte first, assembled into the 24-bit sample shifted up by one byte.
   */
  function PressureRawGet(ctx: Ctx, L: Layout, reg: Reg): (s: Step<uint32>)
    requires reg in {PressOutXl, FifoDataOutPressXl}
    ensures ShortCircuit(ctx, [RdOp(L.addr(reg), 3)], s.status, s.ctx, s.trace)
    ensures s.out % 0x100 == 0
    ensures s.status == 0 ==>
      && ctx.Live?
      && s.out == PressureRaw(Val(ctx.regs[Val(L.addr(reg))]), Val(ctx.regs[Val(L.addr(reg) + 1)]),
                              Val(ctx.regs[Val(L.addr(reg) + 1 + 1)]))
    ensures s.ctx.Live? ==> s.ctx.regs == ctx.regs
  {
    var r := ReadReg(ctx, L.addr(reg), 3);
    Step(r.status, PressureRaw(Val(r.data[0]), Val(r.data[1]), Val(r.data[2])), r.ctx, r.trace)
  }

  // ---------------------------------------------------------------------------
  // Interrupt threshold

  /**
   `int_threshold_set`: `ths_p_h.ths = (uint8_t)(buff / 256)` and
   `ths_p_l.ths = (uint8_t)(buff - ths_p_h.ths * 256)` are assigned in two
   uninitialised structs, whose remaining bits are the parameters `junkL` and
   `junkH`; THS_P_L is written, then THS_P_H if that returned 0. The low field
   receives the low byte of `buff` even when the high field cut off bits.
   */
  function IntThresholdSet(ctx: Ctx, L: Layout, buff: uint16, junkL: byte, junkH: byte): (s: Step<()>)
    requires Valid(L.bits(ThsL)) && Valid(L.bits(ThsH))
    ensures ShortCircuit(ctx, [WrOp(L.addr(ThsPL)), WrOp(L.addr(ThsPH))], s.status, s.ctx, s.trace)
    ensures s.status == 0 ==>
      && ctx.Live? && s.ctx.Live? && |s.trace| == 2
      && var (lB, hB) := ThresholdBytes(L, buff, junkL, junkH);
         s.ctx.regs == ctx.regs[Val(L.addr(ThsPL)) := lB][Val(L.addr(ThsPH)) := hB]
    ensures s.status != 0 && s.ctx.Live? ==>
      && ctx.Live?
      && s.ctx.regs == if |s.trace| == 2 then ctx.regs[Val(L.addr(ThsPL)) := ThresholdBytes(L, buff, junkL, junkH).0] else ctx.regs
  {
    var (lB, hB) := ThresholdBytes(L, buff, junkL, junkH);
    WriteBoth(ctx, L.addr(ThsPL), lB, L.addr(ThsPH), hB)
  }

  /**
   The two bytes `int_threshold_set` writes: the high field takes
   `(uint8_t)(buff / 256)` cut to its width, and the low field the low byte of
   `buff - ths_h * 256`, which is the low byte of `buff`, cut to its width.
   */
  function ThresholdBytes(L: Layout, buff: uint16, junkL: byte, junkH: byte): (r: (byte, byte))
    requires Valid(L.bits(ThsL)) && Valid(L.bits(ThsH))
    ensures Assigns1(junkL, r.0, L.bits(ThsL), ToByte(buff))
    ensures Assigns1(junkH, r.1, L.bits(ThsH), ToByte(buff / 0x100))
  {
    var hB := Insert(junkH, L.bits(ThsH), ToByte(buff / 0x100));
    var k := Val(Extract(hB, L.bits(ThsH)));
    var lo := ToByte(buff - k * 0x100);
    LowByte(buff, k);
    OneField(junkH, L.bits(ThsH), ToByte(buff / 0x100));
    OneField(junkL, L.bits(ThsL), lo);
    (Insert(junkL, L.bits(ThsL), lo), hB)
  }

  /** Subtracting whole multiples of 256 does not change the low byte. */
  lemma LowByte(x: int, k: int)
    ensures ToByte(x - k * 0x100) == ToByte(x)
  {
    assert (x - k * 0x100) % 0x100 == x % 0x100;
    ValInjective(ToByte(x - k * 0x100), ToByte(x));
  }

  /**
   `int_threshold_get`: read THS_P_L; only if that returned 0, read THS_P_H
   and assemble `ths_h * 256 + ths_l`, whatever the second read returned. The
   output is left untouched (`None`) when the first read fails.
   */
  function IntThresholdGet(ctx: Ctx, L: Layout): (s: Step<Option<uint16>>)
    requires Valid(L.bits(ThsL)) && Valid(L.bits(ThsH))
    ensures ShortCircuit(ctx, [RdOp(L.addr(ThsPL), 1), RdOp(L.addr(ThsPH), 1)], s.status, s.ctx, s.trace)
    ensures s.out.Some? <==> |s.trace| == 2
    ensures s.status == 0 ==>
      && ctx.Live?
      && s.out == Some(ThresholdValue(L, ctx.regs[Val(L.addr(ThsPL))], ctx.regs[Val(L.addr(ThsPH))]))
    ensures s.ctx.Live? ==> s.ctx.regs == ctx.regs
  {
    var pl, ph := RdOp(L.addr(ThsPL), 1), RdOp(L.addr(ThsPH), 1);
    var rl := ReadReg(ctx, pl.addr, 1);
    if rl.status != 0 then
      ShortCircuitStop(ctx, pl, [ph], rl.status, rl.ctx, rl.trace);
      Step(rl.status, None, rl.ctx, rl.trace)
    else
      var rh := ReadReg(rl.ctx, ph.addr, 1);
      ShortCircuitThen(ctx, pl, [ph], rl.ctx, rl.trace, rh.status, rh.ctx, rh.trace);
      Step(rh.status, Some(ThresholdValue(L, rl.data[0], rh.data[0])), rh.ctx, rl.trace + rh.trace)
  }

  /**
   The value `int_threshold_get` assembles, `(uint16_t)ths_h * 256 + ths_l`:
   its high byte is the THS_P_H field and its low byte the THS_P_L field.
   */
  function ThresholdValue(L: Layout, lo: byte, hi: byte): (v: uint16)
    requires Valid(L.bits(ThsL)) && Valid(L.bits(ThsH))
    ensures v / 0x100 == Val(Extract(hi, L.bits(ThsH)))
    ensures v % 0x100 == Val(Extract(lo, L.bits(ThsL)))
  {
    var h, l := Val(Extract(hi, L.bits(ThsH))), Val(Extract(lo, L.bits(ThsL)));
    SmallMod(h * 0x100 + l, 0x1_0000);
    ToUInt16(h * 0x100 + l)
  }


  // ---------------------------------------------------------------------------
  // Interrupt sources

  /** `lps22ch_all_sources_t`: each member is `None` while the accessor has not read into it. */
  datatype Sources = Sources(intSource: Option<byte>, fifoStatus2: Option<byte>, status: Option<byte>)

  /**
   `all_sources_get`: read INT_SOURCE, then FIFO_STATUS2, then STATUS, each
   only if every earlier read returned 0.
   */
  function AllSourcesGet(ctx: Ctx, L: Layout): (s: Step<Sources>)
    ensures ShortCircuit(ctx, [RdOp(L.addr(IntSource), 1), RdOp(L.addr(FifoStatus2), 1), RdOp(L.addr(Status), 1)],
                         s.status, s.ctx, s.trace)
    ensures s.out.intSource.Some? <==> |s.trace| >= 1
    ensures s.out.fifoStatus2.Some? <==> |s.trace| >= 2
    ensures s.out.status.Some? <==> |s.trace| == 3
    ensures s.status == 0 ==>
      ctx.Live? && s.out == Sources(Some(ctx.regs[Val(L.addr(IntSource))]), Some(ctx.regs[Val(L.addr(FifoStatus2))]),
                                    Some(ctx.regs[Val(L.addr(Status))]))
    ensures s.ctx.Live? ==> s.ctx.regs == ctx.regs
  {
    var p1, p2, p3 := RdOp(L.addr(IntSource), 1), RdOp(L.addr(FifoStatus2), 1), RdOp(L.addr(Status), 1);
    assert [p1, p2, p3] == [p1] + ([p2] + [p3]);
    var r1 := ReadReg(ctx, p1.addr, 1);
    if r1.status != 0 then
      ShortCircuitStop(ctx, p1, [p2, p3], r1.status, r1.ctx, r1.trace);
      Step(r1.status, Sources(if ctx.Live? then Some(r1.data[0]) else None, None, None), r1.ctx, r1.trace)
    else
      var r2 := ReadReg(r1.ctx, p2.addr, 1);
      if r2.status != 0 then
        ShortCircuitStop(r1.ctx, p2, [p3], r2.status, r2.ctx, r2.trace);
        ShortCircuitThen(ctx, p1, [p2] + [p3], r1.ctx, r1.trace, r2.status, r2.ctx, r2.trace);
        Step(r2.status, Sources(Some(r1.data[0]), Some(r2.data[0]), None), r2.ctx, r1.trace + r2.trace)
      else
        var r3 := ReadReg(r2.ctx, p3.addr, 1);
        ShortCircuitThen(r1.ctx, p2, [p3], r2.ctx, r2.trace, r3.status, r3.ctx, r3.trace);
        ShortCircuitThen(ctx, p1, [p2] + [p3], r1.ctx, r1.trace, r3.status, r3.ctx, r2.trace + r3.trace);
        Step(r3.status, Sources(Some(r1.data[0]), Some(r2.data[0]), Some(r3.data[0])), r3.ctx, r1.trace + (r2.trace + r3.trace))
  }

}
