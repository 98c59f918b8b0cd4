/**
 The bus behind a driver handle. The C handle (`stmdev_ctx_t`) carries a read
 and a write callback that move bytes between host and device and return an
 `int32_t` status, 0 meaning success. Here the device is its register file and
 the callbacks' outcomes are a script of status codes fixed in advance: the
 n-th bus transaction returns the n-th code of the script, and 0 once the
 script has run out. Every transaction is recorded in a trace.
 */
module Transport {
  import opened Bits
  import opened Words

  /** The device's register space: one byte for each 8-bit address. */
  type RegFile = r: seq<byte> | |r| == 0x100 witness seq(0x100, _ => 0)

  /** A driver handle: NULL, or a live bus with the device's registers and the script of replies still to come. */
  datatype Ctx = Null | Live(regs: RegFile, replies: seq<int32>)

  /** One invocation of a transport callback, with the status it returned. */
  datatype Txn =
    | Rd(addr: byte, len: uint16, status: int32)
    | Wr(addr: byte, data: seq<byte>, status: int32)

  /** One step of an accessor's fixed sequence of bus transactions. */
  datatype Op = RdOp(addr: byte, len: uint16) | WrOp(addr: byte)

  predicate Performs(t: Txn, op: Op) {
    match op
    case RdOp(a, n) => t.Rd? && t.addr == a && t.len == n
    case WrOp(a) => t.Wr? && t.addr == a
  }

  /** The status the `i`-th transaction from now returns. */
  function Reply(replies: seq<int32>, i: nat): int32 {
    if i < |replies| then replies[i] else 0
  }

  /** The script left after `n` transactions. */
  function Consume(replies: seq<int32>, n: nat): seq<int32> {
    if n <= |replies| then replies[n..] else []
  }

  lemma ReplyConsume(replies: seq<int32>, n: nat, i: nat)
    ensures Reply(Consume(replies, n), i) == Reply(replies, n + i)
  {}

  lemma ConsumeConsume(replies: seq<int32>, n: nat, m: nat)
    ensures Consume(Consume(replies, n), m) == Consume(replies, n + m)
  {}

  /** How far address `j` lies past `a`, counting upwards with wrap-around. */
  function Distance(a: byte, j: int): int {
    (j - Val(a)) % 0x100
  }

  /** The `n` bytes a read of `n` registers starting at `a` delivers. */
  function Load(r: RegFile, a: byte, n: nat): (d: seq<byte>)
    ensures |d| == n
    decreases n
  {
    if n == 0 then [] else [r[Val(a)]] + Load(r, a + 1, n - 1)
  }

  /**
   The register file after `d` is written starting at `a`: byte `k` of `d` goes
   to address `a + k`; once a transfer wraps around the address space, later
   bytes overwrite earlier ones.
   */
  function Store(r: RegFile, a: byte, d: seq<byte>): RegFile
    decreases |d|
  {
    if |d| == 0 then r else Store(r[Val(a) := d[0]], a + 1, d[1..])
  }

  /** A write changes no register outside the addresses it covers. */
  lemma {:induction false} StoreFrame(r: RegFile, a: byte, d: seq<byte>, j: int)
    requires 0 <= j < 0x100 && Distance(a, j) >= |d|
    ensures Store(r, a, d)[j] == r[j]
    decreases |d|
  {
    if |d| > 0 {
      ValSucc(a);
      DistanceStep(Val(a), Val(a + 1), j);
      StoreFrame(r[Val(a) := d[0]], a + 1, d[1..], j);
    }
  }

  /** One address further on, every address other than the current one is one step closer. */
  lemma DistanceStep(x: int, y: int, j: int)
    requires 0 <= x < 0x100 && y == (x + 1) % 0x100 && 0 <= j < 0x100 && (j - x) % 0x100 >= 1
    ensures j != x && (j - y) % 0x100 == (j - x) % 0x100 - 1
  {}

  /** What a transfer of at most 256 bytes writes can be read back. */
  lemma {:induction false} LoadStore(r: RegFile, a: byte, d: seq<byte>)
    requires |d| <= 0x100
    ensures Load(Store(r, a, d), a, |d|) == d
    decreases |d|
  {
    if |d| > 0 {
      var r' := r[Val(a) := d[0]];
      ValSucc(a);
      WrapDistance(Val(a), Val(a + 1));
      StoreFrame(r', a + 1, d[1..], Val(a));
      LoadStore(r', a + 1, d[1..]);
    }
  }

  /** The address just before the start of a transfer is the farthest from it. */
  lemma WrapDistance(x: int, y: int)
    requires 0 <= x < 0x100 && y == (x + 1) % 0x100
    ensures (x - y) % 0x100 == 0xFF
  {}

  /** A one-byte write replaces exactly the register it addresses. */
  lemma StoreOne(r: RegFile, a: byte, x: byte)
    ensures Store(r, a, [x]) == r[Val(a) := x]
  {
    assert [x][1..] == [];
  }

  /** A two-byte write replaces the addressed register and the one after it. */
  lemma StoreTwo(r: RegFile, a: byte, x: byte, y: byte)
    ensures Store(r, a, [x, y]) == r[Val(a) := x][Val(a + 1) := y]
  {
    assert [x, y][1..] == [y];
    StoreOne(r[Val(a) := x], a + 1, y);
  }

  datatype Reading = Reading(status: int32, data: seq<byte>, ctx: Ctx, trace: seq<Txn>)

  datatype Writing = Writing(status: int32, ctx: Ctx, trace: seq<Txn>)

  /**
   `lps22ch_read_reg`: with a NULL handle, -1 and no bus transaction; otherwise
   the read callback runs and its status is passed through. A failed read
   leaves the buffer unspecified; the model hands back zeros.
   */
  function ReadReg(ctx: Ctx, a: byte, n: uint16): (r: Reading)
    ensures |r.data| == n
    ensures ctx.Null? ==> r.status == -1 && r.trace == [] && r.ctx == ctx
    ensures ctx.Live? ==>
      && r.status == Reply(ctx.replies, 0)
      && r.trace == [Rd(a, n, r.status)]
      && r.ctx == Live(ctx.regs, Consume(ctx.replies, 1))
    ensures r.status == 0 ==> ctx.Live? && r.data == Load(ctx.regs, a, n)
    ensures r.status == 0 && n > 0 ==> ctx.Live? && r.data[0] == ctx.regs[Val(a)]
    ensures ShortCircuit(ctx, [RdOp(a, n)], r.status, r.ctx, r.trace)
  {
    if ctx.Null? then
      Reading(-1, seq(n, _ => 0), ctx, [])
    else
      var status := Reply(ctx.replies, 0);
      var data := if status == 0 then Load(ctx.regs, a, n) else seq(n, _ => 0);
      Reading(status, data, Live(ctx.regs, Consume(ctx.replies, 1)), [Rd(a, n, status)])
  }

  /**
   `lps22ch_write_reg`: with a NULL handle, -1 and no bus transaction; otherwise
   the write callback runs and its status is passed through. The registers
   change only when the write succeeds.
   */
  function WriteReg(ctx: Ctx, a: byte, d: seq<byte>): (w: Writing)
    requires |d| < 0x1_0000
    ensures ctx.Null? ==> w.status == -1 && w.trace == [] && w.ctx == ctx
    ensures ctx.Live? ==>
      && w.status == Reply(ctx.replies, 0)
      && w.trace == [Wr(a, d, w.status)]
      && w.ctx.Live?
      && w.ctx.replies == Consume(ctx.replies, 1)
      && w.ctx.regs == (if w.status == 0 then Store(ctx.regs, a, d) else ctx.regs)
    ensures ShortCircuit(ctx, [WrOp(a)], w.status, w.ctx, w.trace)
  {
    if ctx.Null? then
      Writing(-1, ctx, [])
    else
      var status := Reply(ctx.replies, 0);
      var regs := if status == 0 then Store(ctx.regs, a, d) else ctx.regs;
      Writing(status, Live(regs, Consume(ctx.replies, 1)), [Wr(a, d, status)])
  }

  /**
   The transactions of an accessor whose steps each run only if every earlier
   one returned 0 (`if (ret == 0) { ... }`) and which returns the status of the
   last step it ran: the trace follows `plan`, every step but the last
   succeeded, and it stops short of the plan only on a failure. A NULL handle
   stops the accessor at its first step, with -1 and no transaction.
   */
  predicate ShortCircuit(ctx: Ctx, plan: seq<Op>, status: int32, ctx': Ctx, trace: seq<Txn>) {
    if ctx.Null? then
      status == -1 && trace == [] && ctx' == ctx
    else
      && Chain(ctx.replies, plan, status, trace)
      && ctx'.Live?
      && ctx'.replies == Consume(ctx.replies, |trace|)
  }

  /** `trace` runs a prefix of `plan` against the script `replies`, stopping after the first failure or the last step. */
  predicate Chain(replies: seq<int32>, plan: seq<Op>, status: int32, trace: seq<Txn>)
    decreases |plan|
  {
    && |plan| > 0
    && |trace| > 0
    && Performs(trace[0], plan[0])
    && trace[0].status == Reply(replies, 0)
    && if trace[0].status != 0 || |plan| == 1 then
         |trace| == 1 && status == trace[0].status
       else
         Chain(Consume(replies, 1), plan[1..], status, trace[1..])
  }

  /** A failed first step ends the accessor, whatever else was planned. */
  lemma ShortCircuitStop(ctx: Ctx, op: Op, rest: seq<Op>, status: int32, ctx': Ctx, trace: seq<Txn>)
    requires ShortCircuit(ctx, [op], status, ctx', trace) && status != 0
    ensures ShortCircuit(ctx, [op] + rest, status, ctx', trace)
  {
    assert ([op] + rest)[0] == op;
  }

  /** A first step that returned 0 is followed by the rest of the plan, run from where it left the handle. */
  lemma ShortCircuitThen(ctx: Ctx, op: Op, rest: seq<Op>, mid: Ctx, first: seq<Txn>, status: int32, ctx': Ctx, trace: seq<Txn>)
    requires ShortCircuit(ctx, [op], 0, mid, first)
    requires ShortCircuit(mid, rest, status, ctx', trace)
    ensures ShortCircuit(ctx, [op] + rest, status, ctx', first + trace)
  {
    var plan, all := [op] + rest, first + trace;
    assert plan[0] == op && plan[1..] == rest;
    assert all[0] == first[0] && all[1..] == trace;
    ConsumeConsume(ctx.replies, 1, |trace|);
  }

  /**
   The recursive definition spelled out: the trace is no longer than the plan,
   its `i`-th transaction performs the `i`-th step and returns the `i`-th
   reply, every transaction but the last returned 0, the accessor returns the
   last status, and it stops short of the plan only on a failure.
   */
  lemma {:induction false} ChainSteps(replies: seq<int32>, plan: seq<Op>, status: int32, trace: seq<Txn>)
    requires Chain(replies, plan, status, trace)
    ensures 1 <= |trace| <= |plan|
    ensures forall i | 0 <= i < |trace| :: Performs(trace[i], plan[i]) && trace[i].status == Reply(replies, i)
    ensures forall i | 0 <= i < |trace| - 1 :: trace[i].status == 0
    ensures status == trace[|trace| - 1].status
    ensures |trace| < |plan| ==> status != 0
    decreases |plan|
  {
    if trace[0].status == 0 && |plan| > 1 {
      var rs := Consume(replies, 1);
      ChainSteps(rs, plan[1..], status, trace[1..]);
      forall i | 1 <= i < |trace|
        ensures trace[i].status == Reply(replies, i)
      {
        assert trace[i] == trace[1..][i - 1];
        ReplyConsume(replies, 1, i - 1);
      }
    }
  }

  /** A script that lets every transaction succeed. */
  predicate AllOk(ctx: Ctx) {
    ctx.Live? && forall i | 0 <= i < |ctx.replies| :: ctx.replies[i] == 0
  }

  /** With every transaction succeeding, a short-circuiting accessor runs its whole plan and returns 0. */
  lemma {:induction false} ShortCircuitAllOk(ctx: Ctx, plan: seq<Op>, status: int32, ctx': Ctx, trace: seq<Txn>)
    requires AllOk(ctx) && ShortCircuit(ctx, plan, status, ctx', trace)
    ensures |trace| == |plan| && status == 0 && AllOk(ctx')
  {
    ChainSteps(ctx.replies, plan, status, trace);
    assert status == Reply(ctx.replies, |trace| - 1);
  }

  /** The first failing transaction is the last one: nothing runs after a non-zero status. */
  lemma ShortCircuitStops(ctx: Ctx, plan: seq<Op>, status: int32, ctx': Ctx, trace: seq<Txn>, k: nat)
    requires ShortCircuit(ctx, plan, status, ctx', trace)
    requires k < |trace| && trace[k].status != 0
    ensures |trace| == k + 1 && status == trace[k].status
  {
    ChainSteps(ctx.replies, plan, status, trace);
  }
}
