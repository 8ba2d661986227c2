/** The flattened form of an expression: ops, the stack machine that runs them,
    and the static walk that hands out temporaries. */
module StackMachine {
  import opened ExpressionSyntax
  import opened Wrappers

  /** `dest` is the temporary of an op that computes a `Data`; it is 0 until
      `assign_dest_registers` runs. */
  datatype Op =
    | LoadField(header: int, fieldOffset: int)
    | LoadHeader(header: int)
    | LoadBool(b: bool)
    | LoadConst(constOffset: nat)
    | LoadLocal(localOffset: int)
    | LoadRegisterRef(registerArray: int, idx: nat)
    | LoadRegisterGen(registerArray: int)
    | ArithOp(arith: ExpressionSyntax.ArithOp, dest: nat)
    | BitNegOp(dest: nat)
    | BoolToDataOp(dest: nat)
    | CompareOp(compare: ExpressionSyntax.CompareOp)
    | AndOp | OrOp | NotOp
    | ValidHeaderOp
    | DataToBoolOp
    | TernaryOp
    | Skip(skipNum: nat)

  predicate WritesTemp(op: Op) {
    op.ArithOp? || op.BitNegOp? || op.BoolToDataOp?
  }

  function SetDest(op: Op, d: nat): Op
    requires WritesTemp(op)
  {
    op.(dest := d)
  }

  /** An op without its temporary. */
  function Erase(op: Op): Op {
    if WritesTemp(op) then SetDest(op, 0) else op
  }

  // ----- the machine -----

  /** A stack entry is a pointer: to a temporary, or to a location that no op
      writes (packet, constants, action data, registers), given by its contents. */
  datatype Ptr = Temp(reg: nat) | Ext(value: Data)

  datatype Machine = Machine(temps: seq<Data>, bools: seq<bool>, datas: seq<Ptr>, headers: seq<int>)

  predicate Readable(p: Ptr, temps: seq<Data>) {
    p.Temp? ==> p.reg < |temps|
  }

  function Deref(p: Ptr, temps: seq<Data>): Data
    requires Readable(p, temps)
  {
    match p
    case Temp(r) => temps[r]
    case Ext(v) => v
  }

  /** How many data pointers an op pops when it runs. */
  function DataArgs(op: Op): nat {
    if op.ArithOp? || op.CompareOp? then 2
    else if op.BitNegOp? || op.DataToBoolOp? || op.LoadRegisterGen? then 1
    else 0
  }

  function BoolArgs(op: Op): nat {
    if op.AndOp? || op.OrOp? then 2
    else if op.NotOp? || op.BoolToDataOp? || op.TernaryOp? then 1
    else 0
  }

  /** What the C++ leaves undefined: popping an empty stack, reading a constant
      or touching a temporary that does not exist. */
  predicate CanRun(op: Op, consts: seq<Data>, m: Machine) {
    && DataArgs(op) <= |m.datas|
    && BoolArgs(op) <= |m.bools|
    && (op.ValidHeaderOp? ==> m.headers != [])
    && (op.LoadConst? ==> op.constOffset < |consts|)
    && (WritesTemp(op) ==> op.dest < |m.temps|)
    && (forall k | |m.datas| - DataArgs(op) <= k < |m.datas| :: Readable(m.datas[k], m.temps))
  }

  /** The `k`-th data operand of `op`, left to right. */
  function Arg(op: Op, m: Machine, k: nat): Data
    requires k < DataArgs(op) <= |m.datas|
    requires Readable(m.datas[|m.datas| - DataArgs(op) + k], m.temps)
  {
    Deref(m.datas[|m.datas| - DataArgs(op) + k], m.temps)
  }

  /** One op: the new machine, and how many of the following ops are leapt over. */
  function Exec(op: Op, consts: seq<Data>, env: Env, m: Machine): (r: (Machine, nat))
    requires CanRun(op, consts, m)
    ensures |r.0.temps| == |m.temps|
  {
    var ds := m.datas[..|m.datas| - DataArgs(op)];
    var bs := m.bools[..|m.bools| - BoolArgs(op)];
    match op
    case LoadField(h, f) => (m.(datas := ds + [Ext(env.field(h, f))]), 0)
    case LoadHeader(h) => (m.(headers := m.headers + [h]), 0)
    case LoadBool(b) => (m.(bools := bs + [b]), 0)
    case LoadConst(o) => (m.(datas := ds + [Ext(consts[o])]), 0)
    case LoadLocal(o) => (m.(datas := ds + [Ext(env.local(o))]), 0)
    case LoadRegisterRef(a, i) => (m.(datas := ds + [Ext(env.register(a, i))]), 0)
    case LoadRegisterGen(a) =>
      (m.(datas := ds + [Ext(env.register(a, env.ops.toSize(Arg(op, m, 0))))]), 0)
    case ArithOp(a, d) =>
      (m.(temps := m.temps[d := env.ops.arith(a, Arg(op, m, 0), Arg(op, m, 1))], datas := ds + [Temp(d)]), 0)
    case BitNegOp(d) =>
      (m.(temps := m.temps[d := env.ops.bitNeg(Arg(op, m, 0))], datas := ds + [Temp(d)]), 0)
    case BoolToDataOp(d) =>
      (m.(temps := m.temps[d := if m.bools[|m.bools| - 1] then 1 else 0],
          bools := bs, datas := ds + [Temp(d)]), 0)
    case CompareOp(c) =>
      (m.(datas := ds, bools := bs + [EvalCompare(c, Arg(op, m, 0), Arg(op, m, 1))]), 0)
    case AndOp => (m.(bools := bs + [m.bools[|m.bools| - 2] && m.bools[|m.bools| - 1]]), 0)
    case OrOp => (m.(bools := bs + [m.bools[|m.bools| - 2] || m.bools[|m.bools| - 1]]), 0)
    case NotOp => (m.(bools := bs + [!m.bools[|m.bools| - 1]]), 0)
    case ValidHeaderOp =>
      (m.(headers := m.headers[..|m.headers| - 1],
          bools := bs + [env.headerValid(m.headers[|m.headers| - 1])]), 0)
    case DataToBoolOp => (m.(datas := ds, bools := bs + [Arg(op, m, 0) != 0]), 0)
    case TernaryOp => (m.(bools := bs), if m.bools[|m.bools| - 1] then 1 else 0)
    case Skip(n) => (m, n)
  }

  /** The evaluation loop from position `pc`; `None` when some op cannot run. */
  function Run(ops: seq<Op>, consts: seq<Data>, env: Env, pc: nat, m: Machine): Option<Machine>
    decreases |ops| - pc
  {
    if pc >= |ops| then Some(m)
    else if !CanRun(ops[pc], consts, m) then None
    else
      var (m', skip) := Exec(ops[pc], consts, env, m);
      Run(ops, consts, env, pc + 1 + skip, m')
  }

  // ----- the register walk -----

  /** How many entries the walk pops from its own stack at an op, and what it pushes. */
  function StaticPops(op: Op): nat {
    if op.ArithOp? || op.CompareOp? then 2
    else if op.BitNegOp? || op.DataToBoolOp? || op.LoadRegisterGen? then 1
    else 0
  }

  function StaticPush(op: Op): seq<nat> {
    if WritesTemp(op) then [1]
    else if op.LoadField? || op.LoadConst? || op.LoadLocal? || op.LoadRegisterRef? || op.LoadRegisterGen? then [0]
    else []
  }

  /** `registers_curr` is the sum of the stack. */
  function Sum(st: seq<nat>): nat {
    if st == [] then 0 else Sum(st[..|st| - 1]) + st[|st| - 1]
  }

  /** The walk's stack before op `i`; `None` once it has popped an
      empty stack, and past the end of the ops. */
  function StackAt(ops: seq<Op>, i: nat): Option<seq<nat>> {
    if i == 0 then Some([])
    else if i > |ops| then None
    else
      match StackAt(ops, i - 1)
      case None => None
      case Some(st) =>
        var op := ops[i - 1];
        if StaticPops(op) > |st| then None
        else Some(st[..|st| - StaticPops(op)] + StaticPush(op))
  }

  /** The temporary that the walk gives to op `i`. */
  function DestAt(ops: seq<Op>, i: nat): nat
    requires i < |ops|
    requires StackAt(ops, i).Some? && StaticPops(ops[i]) <= |StackAt(ops, i).value|
  {
    var st := StackAt(ops, i).value;
    Sum(st[..|st| - StaticPops(ops[i])])
  }

  /** `registers_cnt` after the first `i` ops: the largest sum seen. */
  function PeakAt(ops: seq<Op>, i: nat): nat
    requires StackAt(ops, i).Some?
  {
    if i == 0 then 0
    else
      var prev, cur := PeakAt(ops, i - 1), Sum(StackAt(ops, i).value);
      if prev < cur then cur else prev
  }

  /** Every op carries the temporary that the walk gives it. */
  ghost predicate Assigned(ops: seq<Op>) {
    StackAt(ops, |ops|).Some? &&
    forall i | 0 <= i < |ops| && WritesTemp(ops[i]) :: DestIs(ops, i)
  }

  ghost predicate DestIs(ops: seq<Op>, i: nat)
    requires i < |ops| && WritesTemp(ops[i])
  {
    && StackAt(ops, i).Some?
    && StaticPops(ops[i]) <= |StackAt(ops, i).value|
    && ops[i].dest == DestAt(ops, i)
  }

  /** Same code up to temporaries. */
  ghost predicate SameCode(op: Op, op': Op) {
    Erase(op) == Erase(op')
  }

  lemma SameCodeWalksAlike(op: Op, op': Op)
    requires SameCode(op, op')
    ensures StaticPops(op) == StaticPops(op') && StaticPush(op) == StaticPush(op')
    ensures WritesTemp(op) == WritesTemp(op')
  {
    assert StaticPops(op) == StaticPops(Erase(op)) && StaticPush(op) == StaticPush(Erase(op));
  }

  /** The walk reads opcodes only, so it does not see the temporaries it assigns. */
  lemma {:induction false} StackAtIgnoresDest(ops: seq<Op>, ops': seq<Op>, i: nat)
    requires i <= |ops| && i <= |ops'|
    requires forall k | 0 <= k < i :: SameCode(ops[k], ops'[k])
    ensures StackAt(ops, i) == StackAt(ops', i)
  {
    if i > 0 {
      StackAtIgnoresDest(ops, ops', i - 1);
      SameCodeWalksAlike(ops[i - 1], ops'[i - 1]);
    }
  }

  lemma {:induction false} PeakAtIgnoresDest(ops: seq<Op>, ops': seq<Op>, i: nat)
    requires i <= |ops| && i <= |ops'|
    requires forall k | 0 <= k < i :: SameCode(ops[k], ops'[k])
    requires StackAt(ops, i).Some?
    ensures StackAt(ops', i).Some? && PeakAt(ops, i) == PeakAt(ops', i)
  {
    StackAtIgnoresDest(ops, ops', i);
    if i > 0 {
      PeakAtIgnoresDest(ops, ops', i - 1);
    }
  }

  lemma {:induction false} StackAtBefore(ops: seq<Op>, i: nat, j: nat)
    requires i <= j && StackAt(ops, j).Some?
    ensures j <= |ops| && StackAt(ops, i).Some?
    ensures i < j ==> StaticPops(ops[i]) <= |StackAt(ops, i).value|
    ensures Sum(StackAt(ops, i).value) <= PeakAt(ops, j)
  {
    if i < j {
      StackAtBefore(ops, i, j - 1);
    }
  }

  lemma {:induction false} SumExtend(st: seq<nat>, ext: seq<nat>)
    ensures Sum(st) <= Sum(st + ext)
  {
    if ext == [] {
      assert st + ext == st;
    } else {
      var k := |ext| - 1;
      assert (st + ext)[..|st + ext| - 1] == st + ext[..k];
      SumExtend(st, ext[..k]);
    }
  }

  lemma SumPush(st: seq<nat>, w: nat)
    ensures Sum(st + [w]) == Sum(st) + w
  {
    assert (st + [w])[..|st|] == st;
  }

  /** One step of the walk over code whose walk goes through. */
  lemma WalkNext(raw: seq<Op>, i: nat)
    requires i < |raw| && StackAt(raw, |raw|).Some?
    ensures StackAt(raw, i).Some? && StaticPops(raw[i]) <= |StackAt(raw, i).value|
    ensures var st := StackAt(raw, i).value;
            StackAt(raw, i + 1) == Some(st[..|st| - StaticPops(raw[i])] + StaticPush(raw[i]))
  {
    hide PeakAt, Sum, StaticPops, StaticPush;
    StackAtBefore(raw, i, |raw|);
    StackAtBefore(raw, i + 1, |raw|);
  }

  lemma PeakNext(raw: seq<Op>, i: nat)
    requires i < |raw| && StackAt(raw, |raw|).Some?
    ensures StackAt(raw, i).Some? && StackAt(raw, i + 1).Some?
    ensures var cur := Sum(StackAt(raw, i + 1).value);
            PeakAt(raw, i + 1) == if PeakAt(raw, i) < cur then cur else PeakAt(raw, i)
  {
    StackAtBefore(raw, i, |raw|);
    StackAtBefore(raw, i + 1, |raw|);
    hide StackAt, Sum;
  }
}
