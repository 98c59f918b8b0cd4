/**
 The single-register accessors. Every `*_set` reads the register that holds
 its field, and only if that read succeeded assigns the field and writes the
 byte back; every `*_get` reads the register and extracts the field, also when
 the read failed (then its output is unspecified). Enumerated getters decode
 the field through a closed table whose unknown patterns fall back to the
 table's first member.
 */
module Fields {
  import opened Bits
  import opened Words
  import opened Transport
  import opened Layout

  /** What an accessor hands back: its status, its output, the handle afterwards and the transactions it ran. */
  datatype Step<T> = Step(status: int32, out: T, ctx: Ctx, trace: seq<Txn>)

  /** The address of the register holding field `n`. */
  function AddrOf(L: Layout, n: Name): byte {
    L.addr(Home(n))
  }

  /** Fields with a `uint8_t` setter and getter (autozero_rst, autozero, ..., fifo_full_on_int). */
  predicate FlagSetter(n: Name) {
    n in {ResetAz, Autozero, ResetArp, Autorefp, Bdu, Swreset, IfAddInc, Boot,
          StopOnWtm, Wtm, IntFOvr, IntFWtm, IntFFull}
  }

  /** Fields with a `uint8_t` getter: the above and the read-only status flags. */
  predicate FlagGetter(n: Name) {
    FlagSetter(n) || n in {PDa, TDa, FifoFullIa, FifoOvrIa, FifoWtmIa}
  }

  /** Enumerated fields whose setter assigns the one field `reg.name = (uint8_t)val`. */
  predicate EnumSetter(n: Name) {
    n in {LpfpCfg, I2cDisable, SdoPuEn, SdaPuEn, Sim, Lir, PpOd, IntHL, FMode}
  }

  /** Enumerated fields with a decoding getter. */
  predicate EnumGetter(n: Name) {
    EnumSetter(n) || n in {I3cDisable, Pe}
  }

  /**
   The read-modify-write every setter performs: read the register at `a`; only
   if that returned 0, write back the byte `m` makes of the one read. Returns
   the status of the last transaction.
   */
  function Modify(ctx: Ctx, a: byte, m: byte -> byte): (s: Step<()>)
    ensures ShortCircuit(ctx, [RdOp(a, 1), WrOp(a)], s.status, s.ctx, s.trace)
    ensures |s.trace| == 2 ==> ctx.Live? && s.trace[1] == Wr(a, [m(ctx.regs[Val(a)])], s.status)
    ensures s.status == 0 ==> ctx.Live? && s.ctx.Live? && |s.trace| == 2 && s.ctx.regs == ctx.regs[Val(a) := m(ctx.regs[Val(a)])]
    ensures s.status != 0 && s.ctx.Live? ==> s.ctx.regs == ctx.regs
  {
    var r := ReadReg(ctx, a, 1);
    if r.status != 0 then
      ShortCircuitStop(ctx, RdOp(a, 1), [WrOp(a)], r.status, r.ctx, r.trace);
      Step(r.status, (), r.ctx, r.trace)
    else
      var b := m(r.data[0]);
      var w := WriteReg(r.ctx, a, [b]);
      ShortCircuitThen(ctx, RdOp(a, 1), [WrOp(a)], r.ctx, r.trace, w.status, w.ctx, w.trace);
      StoreOne(ctx.regs, a, b);
      Step(w.status, (), w.ctx, r.trace + w.trace)
  }

  /**
   The read-modify-write of one field: the byte written back is the byte read
   with field `n` assigned `v` and every other bit as it was; no write follows
   a failed read.
   */
  function FieldSet(ctx: Ctx, L: Layout, n: Name, v: byte): (s: Step<()>)
    requires Valid(L.bits(n))
    ensures ShortCircuit(ctx, [RdOp(AddrOf(L, n), 1), WrOp(AddrOf(L, n))], s.status, s.ctx, s.trace)
    ensures |s.trace| == 2 ==>
      && ctx.Live? && s.trace[1].Wr? && |s.trace[1].data| == 1
      && Assigns1(ctx.regs[Val(AddrOf(L, n))], s.trace[1].data[0], L.bits(n), v)
    ensures s.status == 0 ==>
      && ctx.Live? && s.ctx.Live? && |s.trace| == 2 && s.trace[1].Wr? && |s.trace[1].data| == 1
      && s.ctx.regs == ctx.regs[Val(AddrOf(L, n)) := s.trace[1].data[0]]
    ensures s.status != 0 && s.ctx.Live? ==> s.ctx.regs == ctx.regs
  {
    var f := L.bits(n);
    var s := Modify(ctx, AddrOf(L, n), b => Insert(b, f, v));
    if ctx.Live? then
      OneField(ctx.regs[Val(AddrOf(L, n))], f, v);
      s
    else
      s
  }

  /** Reading one field: a single read of its register; the output is meaningful when the status is 0. */
  function FieldGet(ctx: Ctx, L: Layout, n: Name): (s: Step<byte>)
    requires Valid(L.bits(n))
    ensures ShortCircuit(ctx, [RdOp(AddrOf(L, n), 1)], s.status, s.ctx, s.trace)
    ensures s.status == 0 ==> ctx.Live? && s.out == Extract(ctx.regs[Val(AddrOf(L, n))], L.bits(n))
    ensures s.out <= Low(L.bits(n).width)
    ensures s.ctx.Live? ==> s.ctx.regs == ctx.regs
  {
    var r := ReadReg(ctx, AddrOf(L, n), 1);
    Step(r.status, Extract(r.data[0], L.bits(n)), r.ctx, r.trace)
  }

  /**
   The `switch` of an enumerated getter: a recognised code decodes to itself,
   anything else to the first member; the result is always a member.
   */
  function Decode(e: Enum, raw: int): (r: int)
    ensures r in Members(e)
    ensures raw in Members(e) ==> r == raw
    ensures raw !in Members(e) ==> r == e.first
  {
    if raw in Members(e) then raw else e.first
  }

  /** A `uint8_t`-valued setter (`autozero_rst_set`, `block_data_update_set`, ...). */
  function FlagSet(ctx: Ctx, L: Layout, n: Name, val: uint8): (s: Step<()>)
    requires FlagSetter(n) && Valid(L.bits(n))
    ensures ShortCircuit(ctx, [RdOp(AddrOf(L, n), 1), WrOp(AddrOf(L, n))], s.status, s.ctx, s.trace)
    ensures s.status == 0 ==>
      && ctx.Live? && s.ctx.Live?
      && s.ctx.regs == ctx.regs[Val(AddrOf(L, n)) := s.ctx.regs[Val(AddrOf(L, n))]]
      && Assigns1(ctx.regs[Val(AddrOf(L, n))], s.ctx.regs[Val(AddrOf(L, n))], L.bits(n), ToByte(val))
    ensures s.status != 0 && s.ctx.Live? ==> s.ctx.regs == ctx.regs
  {
    FieldSet(ctx, L, n, ToByte(val))
  }


  /** A `uint8_t`-valued getter (`autozero_rst_get`, ..., `fifo_wtm_flag_get`): the raw field value. */
  function FlagGet(ctx: Ctx, L: Layout, n: Name): (s: Step<uint8>)
    requires FlagGetter(n) && Valid(L.bits(n))
    ensures ShortCircuit(ctx, [RdOp(AddrOf(L, n), 1)], s.status, s.ctx, s.trace)
    ensures s.ctx.Live? ==> s.ctx.regs == ctx.regs
    ensures s.status == 0 ==> ctx.Live? && s.out == Val(Extract(ctx.regs[Val(AddrOf(L, n))], L.bits(n)))
    ensures s.out <= Val(Low(L.bits(n).width))
  {
    var g := FieldGet(ctx, L, n);
    Step(g.status, Val(g.out), g.ctx, g.trace)
  }

  /** An enumerated setter (`lp_bandwidth_set`, ..., `fifo_mode_set`): `reg.name = (uint8_t)val`. */
  function EnumSet(ctx: Ctx, L: Layout, n: Name, val: int): (s: Step<()>)
    requires EnumSetter(n) && Valid(L.bits(n))
    ensures ShortCircuit(ctx, [RdOp(AddrOf(L, n), 1), WrOp(AddrOf(L, n))], s.status, s.ctx, s.trace)
    ensures s.status == 0 ==>
      && ctx.Live? && s.ctx.Live?
      && s.ctx.regs == ctx.regs[Val(AddrOf(L, n)) := s.ctx.regs[Val(AddrOf(L, n))]]
      && Assigns1(ctx.regs[Val(AddrOf(L, n))], s.ctx.regs[Val(AddrOf(L, n))], L.bits(n), ToByte(val))
    ensures s.status != 0 && s.ctx.Live? ==> s.ctx.regs == ctx.regs
  {
    FieldSet(ctx, L, n, ToByte(val))
  }


  /**
   An enumerated getter (`lp_bandwidth_get`, ..., `fifo_mode_get`): the field
   decoded through the enumeration's table, so the output is always a member,
   whatever the register holds and whatever the status.
   */
  function EnumGet(ctx: Ctx, L: Layout, n: Name): (s: Step<int>)
    requires EnumGetter(n) && Valid(L.bits(n))
    ensures ShortCircuit(ctx, [RdOp(AddrOf(L, n), 1)], s.status, s.ctx, s.trace)
    ensures s.ctx.Live? ==> s.ctx.regs == ctx.regs
    ensures s.out in Members(L.enums(EnumOf(n).value))
    ensures s.status == 0 ==>
      ctx.Live? && s.out == Decode(L.enums(EnumOf(n).value), Val(Extract(ctx.regs[Val(AddrOf(L, n))], L.bits(n))))
  {
    var g := FieldGet(ctx, L, n);
    Step(g.status, Decode(L.enums(EnumOf(n).value), Val(g.out)), g.ctx, g.trace)
  }

  /**
   The read-modify-write of two disjoint fields of one register: read it; only
   if that returned 0, assign `f = u` and then `g = v` and write the byte back.
   */
  function PairSet(ctx: Ctx, a: byte, f: BitRange, u: byte, g: BitRange, v: byte): (s: Step<()>)
    requires Valid(f) && Valid(g) && Disjoint(f, g)
    ensures ShortCircuit(ctx, [RdOp(a, 1), WrOp(a)], s.status, s.ctx, s.trace)
    ensures s.status == 0 ==>
      && ctx.Live? && s.ctx.Live?
      && s.ctx.regs == ctx.regs[Val(a) := s.ctx.regs[Val(a)]]
      && Assigns2(ctx.regs[Val(a)], s.ctx.regs[Val(a)], f, u, g, v)
    ensures s.status != 0 && s.ctx.Live? ==> s.ctx.regs == ctx.regs
  {
    var s := Modify(ctx, a, b => Insert(Insert(b, f, u), g, v));
    if ctx.Live? then
      var prev := ctx.regs[Val(a)];
      TwoFields(prev, f, g, u, v);
      var b := Insert(Insert(prev, f, u), g, v);
      assert s.status == 0 ==> s.ctx.regs == ctx.regs[Val(a) := b] && s.ctx.regs[Val(a)] == b;
      s
    else
      s
  }

  /**
   `int_on_threshold_set`: one read-modify-write that assigns `pe = val` and
   `diff_en`, which is 0 exactly when `val` is NO_THRESHOLD (the first member
   of the `pe` enumeration) and 1 otherwise.
   */
  function IntOnThresholdSet(ctx: Ctx, L: Layout, val: int): (s: Step<()>)
    requires Pair(L, Pe, DiffEn)
    ensures ShortCircuit(ctx, [RdOp(L.addr(InterruptCfg), 1), WrOp(L.addr(InterruptCfg))], s.status, s.ctx, s.trace)
    ensures s.status == 0 ==>
      && ctx.Live? && s.ctx.Live?
      && s.ctx.regs == ctx.regs[Val(L.addr(InterruptCfg)) := s.ctx.regs[Val(L.addr(InterruptCfg))]]
      && Assigns2(ctx.regs[Val(L.addr(InterruptCfg))], s.ctx.regs[Val(L.addr(InterruptCfg))],
                  L.bits(Pe), ToByte(val), L.bits(DiffEn), if val == L.enums(PeEnum).first then 0 else 1)
    ensures s.status != 0 && s.ctx.Live? ==> s.ctx.regs == ctx.regs
  {
    PairSet(ctx, L.addr(InterruptCfg), L.bits(Pe), ToByte(val), L.bits(DiffEn),
            if val == L.enums(PeEnum).first then 0 else 1)
  }

  /**
   `i3c_interface_set`: one read-modify-write that assigns `i3c_disable = val`
   and `int_en_i3c = (uint8_t)~val`, the bitwise complement, cut to the field.
   */
  function I3cInterfaceSet(ctx: Ctx, L: Layout, val: int): (s: Step<()>)
    requires Pair(L, I3cDisable, IntEnI3c)
    ensures ShortCircuit(ctx, [RdOp(L.addr(IfCtrl), 1), WrOp(L.addr(IfCtrl))], s.status, s.ctx, s.trace)
    ensures s.status == 0 ==>
      && ctx.Live? && s.ctx.Live?
      && s.ctx.regs == ctx.regs[Val(L.addr(IfCtrl)) := s.ctx.regs[Val(L.addr(IfCtrl))]]
      && Assigns2(ctx.regs[Val(L.addr(IfCtrl))], s.ctx.regs[Val(L.addr(IfCtrl))],
                  L.bits(I3cDisable), ToByte(val), L.bits(IntEnI3c), !ToByte(val))
    ensures s.status != 0 && s.ctx.Live? ==> s.ctx.regs == ctx.regs
  {
    PairSet(ctx, L.addr(IfCtrl), L.bits(I3cDisable), ToByte(val), L.bits(IntEnI3c), TildeByte(val))
  }

  /** `(uint8_t)~val`: in two's complement `~val == -val - 1`; its low byte is the complement of `val`'s. */
  function TildeByte(val: int): (b: byte)
    ensures b == !ToByte(val)
  {
    Complement(val);
    ToByte(-val - 1)
  }

  lemma Complement(val: int)
    ensures ToByte(-val - 1) == !ToByte(val)
  {
    var b := ToByte(val);
    ComplementVal(b);
    ComplementMod(val);
    ValInjective(ToByte(-val - 1), !b);
  }

  lemma ComplementVal(b: byte)
    ensures Val(!b) == 0xFF - Val(b)
  {}

  lemma ComplementMod(x: int)
    ensures (-x - 1) % 0x100 == 0xFF - x % 0x100
  {}

  /**
   The whole-register accessors (`device_id_get`, `status_reg_get`,
   `fifo_src_get`, `fifo_data_level_get`, `pin_int_route_get`): one read of the
   register into the caller's byte.
   */
  function RegisterGet(ctx: Ctx, L: Layout, reg: Reg): (s: Step<byte>)
    requires reg in {WhoAmI, Status, FifoStatus2, FifoStatus1, CtrlReg3}
    ensures ShortCircuit(ctx, [RdOp(L.addr(reg), 1)], s.status, s.ctx, s.trace)
    ensures s.status == 0 ==> ctx.Live? && s.out == ctx.regs[Val(L.addr(reg))]
    ensures s.ctx.Live? ==> s.ctx.regs == ctx.regs
  {
    var r := ReadReg(ctx, L.addr(reg), 1);
    Step(r.status, r.data[0], r.ctx, r.trace)
  }

  /** `pin_int_route_set`: the caller's byte written to CTRL_REG3 as a whole, without reading it first. */
  function RegisterSet(ctx: Ctx, L: Layout, v: byte): (s: Step<()>)
    ensures ShortCircuit(ctx, [WrOp(L.addr(CtrlReg3))], s.status, s.ctx, s.trace)
    ensures s.status == 0 ==> ctx.Live? && s.ctx.regs == ctx.regs[Val(L.addr(CtrlReg3)) := v]
    ensures s.status != 0 && s.ctx.Live? ==> s.ctx.regs == ctx.regs
  {
    var w := WriteReg(ctx, L.addr(CtrlReg3), [v]);
    StoreOne(if ctx.Live? then ctx.regs else seq(0x100, _ => 0), L.addr(CtrlReg3), v);
    Step(w.status, (), w.ctx, w.trace)
  }
}
