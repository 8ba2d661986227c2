/** `Expression` as the switch builds and evaluates it: ops appended in place, one
    pass that writes the temporaries, and a loop over the ops with three stacks. */
module Expressions {
  import opened ExpressionSyntax
  import opened StackMachine
  import opened Compiler
  import opened CompilerTheorems
  import opened Wrappers

  /** Constant indices move by `k` when their code is appended to another expression. */
  function Shift(op: Op, k: nat): Op {
    if op.LoadConst? then LoadConst(op.constOffset + k) else op
  }

  function ShiftAll(ops: seq<Op>, k: nat): seq<Op> {
    seq(|ops|, i requires 0 <= i < |ops| => Shift(ops[i], k))
  }

  lemma ShiftConcat(a: seq<Op>, b: seq<Op>, k: nat)
    ensures ShiftAll(a + b, k) == ShiftAll(a, k) + ShiftAll(b, k)
  {
  }

  /** Appending compiled code is compiling at a later constant index. */
  lemma {:induction false} ShiftComp(t: Tree, base: nat, k: nat, data: DataOps)
    ensures ShiftAll(Comp(t, base, data), k) == Comp(t, base + k, data)
    decreases t, 1
  {
    match t {
      case Register(a, i) =>
        if !i.Hexstr? {
          ShiftComp(i, base, k, data);
          ShiftConcat(Comp(i, base, data), [LoadRegisterGen(a)], k);
        }
      case Ternary(c, l, r) =>
        ShiftTernary(c, l, r, base, k, data);
      case Operation(op, l, r) =>
        ShiftOperation(op, l, r, base, k, data);
      case _ =>
    }
  }

  lemma ShiftBranches(e1: seq<Op>, e2: seq<Op>, k: nat)
    ensures ShiftAll(Branches(e1, e2), k) == Branches(ShiftAll(e1, k), ShiftAll(e2, k))
  {
  }

  lemma TernaryCode(c: Tree, l: Tree, r: Tree, base: nat, data: DataOps)
    ensures var bl := base + |Consts(c)|;
            Comp(Ternary(c, l, r), base, data) ==
            Comp(c, base, data) + Branches(Comp(l, bl, data), Comp(r, bl + |Consts(l)|, data))
  {
    hide Branches, Consts;
  }

  lemma {:induction false} ShiftTernary(c: Tree, l: Tree, r: Tree, base: nat, k: nat, data: DataOps)
    ensures ShiftAll(Comp(Ternary(c, l, r), base, data), k) == Comp(Ternary(c, l, r), base + k, data)
    decreases Ternary(c, l, r), 0
  {
    hide *;
    var bl := base + |Consts(c)|;
    var br := bl + |Consts(l)|;
    ShiftComp(c, base, k, data);
    ShiftComp(l, bl, k, data);
    ShiftComp(r, br, k, data);
    TernaryCode(c, l, r, base, data);
    TernaryCode(c, l, r, base + k, data);
    var e1, e2 := Comp(l, bl, data), Comp(r, br, data);
    assert bl + k == base + k + |Consts(c)| && br + k == bl + k + |Consts(l)|;
    ShiftBranches(e1, e2, k);
    ShiftConcat(Comp(c, base, data), Branches(e1, e2), k);
  }

  lemma {:induction false} ShiftOperation(op: Operator, l: Tree, r: Tree, base: nat, k: nat, data: DataOps)
    ensures ShiftAll(Comp(Operation(op, l, r), base, data), k) == Comp(Operation(op, l, r), base + k, data)
    decreases Operation(op, l, r), 0
  {
    hide *;
    var lc, base' := LeftOps(op, l, base, data), base + |LeftConsts(op, l)|;
    OperationCode(op, l, r, base, data);
    OperationCode(op, l, r, base + k, data);
    ShiftLeft(op, l, base, k, data);
    ShiftComp(r, base', k, data);
    OpForLoads(op);
    ShiftOne(OpFor(op), k);
    assert base' + k == base + k + |LeftConsts(op, l)|;
    ShiftConcat(lc + Comp(r, base', data), [OpFor(op)], k);
    ShiftConcat(lc, Comp(r, base', data), k);
  }

  lemma OperationCode(op: Operator, l: Tree, r: Tree, base: nat, data: DataOps)
    ensures Comp(Operation(op, l, r), base, data) ==
            LeftOps(op, l, base, data) + Comp(r, base + |LeftConsts(op, l)|, data) + [OpFor(op)]
  {
    hide LeftOps, LeftConsts, OpFor;
  }

  lemma ShiftOne(op: Op, k: nat)
    requires !op.LoadConst?
    ensures ShiftAll([op], k) == [op]
  {
  }

  lemma {:induction false} ShiftLeft(op: Operator, l: Tree, base: nat, k: nat, data: DataOps)
    ensures ShiftAll(LeftOps(op, l, base, data), k) == LeftOps(op, l, base + k, data)
    decreases l, 2
  {
    if !(IsSignOp(op) && l.Null?) {
      ShiftComp(l, base, k, data);
    }
  }

  lemma SetDestSame(op: Op, d: nat)
    requires WritesTemp(op)
    ensures forall op' :: SameCode(op, op') ==> SameCode(SetDest(op, d), op')
    ensures WritesTemp(SetDest(op, d))
  {
  }

  lemma WalkStart(raw: seq<Op>)
    ensures StackAt(raw, 0) == Some([]) && PeakAt(raw, 0) == 0 && Sum([]) == 0
    ensures forall k | 0 <= k < |raw| :: SameCode(raw[k], raw[k])
  {
  }

  class Expression {
    var ops: seq<Op>
    var constValues: seq<Data>
    var dataRegistersCnt: nat
    var built: bool

    constructor ()
      ensures ops == [] && constValues == [] && dataRegistersCnt == 0 && !built
    {
      ops, constValues, dataRegistersCnt, built := [], [], 0, false;
    }

    method PushBackOp(op: Op)
      requires !op.LoadConst?
      modifies this`ops
      ensures ops == old(ops) + [op]
    {
      ops := ops + [op];
    }

    method PushBackLoadConst(data: Data)
      modifies this`ops, this`constValues
      ensures ops == old(ops) + [LoadConst(|old(constValues)|)]
      ensures constValues == old(constValues) + [data]
    {
      constValues := constValues + [data];
      ops := ops + [LoadConst(|constValues| - 1)];
    }

    method AppendExpression(e: Expression)
      requires e != this
      modifies this`ops, this`constValues
      ensures ops == old(ops) + ShiftAll(e.ops, |old(constValues)|)
      ensures constValues == old(constValues) + e.constValues
    {
      var offsetConsts := |constValues|;
      for i := 0 to |e.ops|
        invariant ops == old(ops) + ShiftAll(e.ops[..i], offsetConsts)
        invariant constValues == old(constValues)
      {
        ops := ops + [e.ops[i]];
        if e.ops[i].LoadConst? {
          ops := ops[|ops| - 1 := LoadConst(e.ops[i].constOffset + offsetConsts)];
        }
      }
      assert e.ops[..|e.ops|] == e.ops;
      constValues := constValues + e.constValues;
    }

    method PushBackTernaryOp(e1: Expression, e2: Expression)
      requires e1 != this && e2 != this
      modifies this`ops, this`constValues
      ensures var k := |old(constValues)|;
              ops == old(ops) + Branches(ShiftAll(e1.ops, k), ShiftAll(e2.ops, k + |e1.constValues|))
      ensures constValues == old(constValues) + e1.constValues + e2.constValues
    {
      ops := ops + [TernaryOp];
      ops := ops + [Skip(|e1.ops| + 1)];
      AppendExpression(e1);
      ops := ops + [Skip(|e2.ops|)];
      AppendExpression(e2);
    }

    /** One pass over the ops with a stack of how many temporaries each entry holds.
        The caller's duty is that the ops never make the pass pop an empty stack. */
    method AssignDestRegisters() returns (registersCnt: nat)
      requires StackAt(ops, |ops|).Some?
      modifies this`ops
      ensures |ops| == |old(ops)| && forall i | 0 <= i < |ops| :: SameCode(ops[i], old(ops)[i])
      ensures Assigned(ops) && registersCnt == PeakAt(ops, |ops|)
    {
      hide StackAt, PeakAt, Sum, StaticPops, StaticPush, Erase, SameCode;
      ghost var raw := ops;
      registersCnt := 0;
      WalkStart(raw);
      var registersCurr := 0;
      var newRegisters: seq<nat> := [];
      for i := 0 to |ops|
        invariant |ops| == |raw|
        invariant forall k | 0 <= k < |raw| :: SameCode(ops[k], raw[k])
        invariant StackAt(raw, i) == Some(newRegisters)
        invariant registersCurr == Sum(newRegisters)
        invariant registersCnt == PeakAt(raw, i)
        invariant forall k | 0 <= k < i && WritesTemp(ops[k]) :: DestIn(raw, k, ops[k])
      {
        WalkNext(raw, i);
        PeakNext(raw, i);
        SameCodeWalksAlike(ops[i], raw[i]);
        newRegisters, registersCurr := Release(ops[i], newRegisters, registersCurr);
        if WritesTemp(ops[i]) {
          SetDestSame(ops[i], registersCurr);
          ops := ops[i := SetDest(ops[i], registersCurr)];
          SameCodeWalksAlike(ops[i], raw[i]);
        }
        newRegisters, registersCurr := Push(ops[i], newRegisters, registersCurr);
        registersCnt := if registersCnt < registersCurr then registersCurr else registersCnt;
      }
      StackAtIgnoresDest(ops, raw, |ops|);
      PeakAtIgnoresDest(ops, raw, |ops|);
      forall k | 0 <= k < |ops| && WritesTemp(ops[k]) ensures DestIs(ops, k) {
        assert DestIn(raw, k, ops[k]);
        StackAtIgnoresDest(ops, raw, k);
        SameCodeWalksAlike(ops[k], raw[k]);
      }
    }

    /** The entries of the operands give their temporaries back. */
    static method Release(op: Op, newRegisters: seq<nat>, registersCurr: nat) returns (st: seq<nat>, curr: nat)
      requires StaticPops(op) <= |newRegisters| && registersCurr == Sum(newRegisters)
      ensures st == newRegisters[..|newRegisters| - StaticPops(op)] && curr == Sum(st)
    {
      st, curr := newRegisters, registersCurr;
      if StaticPops(op) >= 1 {
        st, curr := st[..|st| - 1], curr - st[|st| - 1];
      }
      if StaticPops(op) == 2 {
        st, curr := st[..|st| - 1], curr - st[|st| - 1];
      }
    }

    static method Push(op: Op, newRegisters: seq<nat>, registersCurr: nat) returns (st: seq<nat>, curr: nat)
      requires registersCurr == Sum(newRegisters)
      ensures st == newRegisters + StaticPush(op) && curr == Sum(st)
    {
      hide Sum;
      st, curr := newRegisters, registersCurr;
      if WritesTemp(op) {
        SumPush(st, 1);
        st, curr := st + [1], curr + 1;
      } else if StaticPush(op) != [] {
        SumPush(st, 0);
        st := st + [0];
      }
    }

    ghost predicate Compiled(t: Tree, data: DataOps)
      reads this
    {
      && built && Built(t, ops, data) && constValues == Consts(t)
      && dataRegistersCnt == PeakAt(ops, |ops|)
    }

    method Build()
      requires StackAt(ops, |ops|).Some?
      modifies this
      ensures |ops| == |old(ops)| && forall i | 0 <= i < |ops| :: SameCode(ops[i], old(ops)[i])
      ensures Assigned(ops) && dataRegistersCnt == PeakAt(ops, |ops|)
      ensures constValues == old(constValues) && built
    {
      dataRegistersCnt := AssignDestRegisters();
      built := true;
    }
  }

  /** `op` carries the temporary that the walk over `raw` gives to op `k`. */
  ghost predicate DestIn(raw: seq<Op>, k: nat, op: Op)
    requires k < |raw| && WritesTemp(op)
  {
    && StackAt(raw, k).Some? && StaticPops(raw[k]) <= |StackAt(raw, k).value|
    && op.dest == DestAt(raw, k)
  }

  // ----- evaluation -----

  class Evaluator {
    // the stacks of one evaluation
    var bools: seq<bool>
    var datas: seq<Ptr>
    var headers: seq<int>
    // the temporaries of the thread, kept from one evaluation to the next
    var dataTemps: seq<Data>

    ghost function State(): Machine
      reads this
    {
      Machine(dataTemps, bools, datas, headers)
    }

    constructor ()
      ensures |dataTemps| == 4
    {
      dataTemps := [0, 0, 0, 0];
      bools, datas, headers := [], [], [];
    }

    method PopData() returns (p: Data)
      requires datas != [] && Readable(datas[|datas| - 1], dataTemps)
      modifies this`datas
      ensures p == Deref(old(datas)[|old(datas)| - 1], dataTemps)
      ensures datas == old(datas)[..|old(datas)| - 1]
    {
      p := Deref(datas[|datas| - 1], dataTemps);
      datas := datas[..|datas| - 1];
    }

    method PopBool() returns (b: bool)
      requires bools != []
      modifies this`bools
      ensures b == old(bools)[|old(bools)| - 1] && bools == old(bools)[..|old(bools)| - 1]
    {
      b := bools[|bools| - 1];
      bools := bools[..|bools| - 1];
    }

    /** The body of the switch for one op. */
    method Dispatch(op: Op, consts: seq<Data>, env: Env) returns (skip: nat)
      requires CanRun(op, consts, State())
      modifies this
      ensures (State(), skip) == Exec(op, consts, env, old(State()))
    {
      skip := 0;
      match op
      case LoadField(_, _) | LoadHeader(_) | LoadBool(_) | LoadConst(_) | LoadLocal(_) | LoadRegisterRef(_, _) =>
        Load(op, consts, env);
      case ArithOp(_, _) | BitNegOp(_) | LoadRegisterGen(_) | CompareOp(_) | DataToBoolOp =>
        ComputeData(op, consts, env);
      case BoolToDataOp(_) | AndOp | OrOp | NotOp | ValidHeaderOp =>
        ComputeBool(op, consts, env);
      case TernaryOp =>
        var b := PopBool();
        skip := if b then 1 else 0;
        assert datas[..|datas|] == datas;
      case Skip(n) => skip := n;
    }

    method Load(op: Op, consts: seq<Data>, env: Env)
      requires op.LoadField? || op.LoadHeader? || op.LoadBool? || op.LoadConst? || op.LoadLocal? || op.LoadRegisterRef?
      requires CanRun(op, consts, State())
      modifies this
      ensures (State(), 0) == Exec(op, consts, env, old(State()))
    {
      assert datas[..|datas|] == datas && bools[..|bools|] == bools;
      match op
      case LoadField(h, f) => datas := datas + [Ext(env.field(h, f))];
      case LoadHeader(h) => headers := headers + [h];
      case LoadBool(b) => bools := bools + [b];
      case LoadConst(o) => datas := datas + [Ext(consts[o])];
      case LoadLocal(o) => datas := datas + [Ext(env.local(o))];
      case LoadRegisterRef(a, idx) => datas := datas + [Ext(env.register(a, idx))];
    }

    method ComputeData(op: Op, consts: seq<Data>, env: Env)
      requires op.ArithOp? || op.BitNegOp? || op.LoadRegisterGen? || op.CompareOp? || op.DataToBoolOp?
      requires CanRun(op, consts, State())
      modifies this
      ensures (State(), 0) == Exec(op, consts, env, old(State()))
    {
      assert bools[..|bools|] == bools;
      ghost var ds := datas;
      var rd := PopData();
      match op
      case LoadRegisterGen(a) => datas := datas + [Ext(env.register(a, env.ops.toSize(rd)))];
      case BitNegOp(dest) =>
        dataTemps := dataTemps[dest := env.ops.bitNeg(rd)];
        datas := datas + [Temp(dest)];
      case DataToBoolOp => bools := bools + [rd != 0];
      case ArithOp(a, dest) =>
        var ld := PopData();
        dataTemps := dataTemps[dest := env.ops.arith(a, ld, rd)];
        datas := datas + [Temp(dest)];
        assert ds[..|ds| - 1][..|ds| - 2] == ds[..|ds| - 2];
      case CompareOp(c) =>
        var ld := PopData();
        var res := match c
          case Eq => ld == rd
          case Neq => ld != rd
          case Gt => ld > rd
          case Lt => ld < rd
          case Ge => ld >= rd
          case Le => ld <= rd;
        bools := bools + [res];
        assert ds[..|ds| - 1][..|ds| - 2] == ds[..|ds| - 2];
    }

    method ComputeBool(op: Op, consts: seq<Data>, env: Env)
      requires op.BoolToDataOp? || op.AndOp? || op.OrOp? || op.NotOp? || op.ValidHeaderOp?
      requires CanRun(op, consts, State())
      modifies this
      ensures (State(), 0) == Exec(op, consts, env, old(State()))
    {
      assert datas[..|datas|] == datas && bools[..|bools|] == bools;
      ghost var bs := bools;
      match op
      case BoolToDataOp(dest) =>
        var rb := PopBool();
        dataTemps := dataTemps[dest := if rb then 1 else 0];
        datas := datas + [Temp(dest)];
      case AndOp =>
        var rb := PopBool();
        var lb := PopBool();
        bools := bools + [lb && rb];
        assert bs[..|bs| - 1][..|bs| - 2] == bs[..|bs| - 2];
      case OrOp =>
        var rb := PopBool();
        var lb := PopBool();
        bools := bools + [lb || rb];
        assert bs[..|bs| - 1][..|bs| - 2] == bs[..|bs| - 2];
      case NotOp =>
        var rb := PopBool();
        bools := bools + [!rb];
      case ValidHeaderOp =>
        bools := bools + [env.headerValid(headers[|headers| - 1])];
        headers := headers[..|headers| - 1];
    }

    /** The loop over the ops, from cleared stacks. */
    method Loop(e: Expression, env: Env)
      requires e.built && Run(e.ops, e.constValues, env, 0, Start(Grown(dataTemps, e.dataRegistersCnt))).Some?
      modifies this
      ensures Some(State()) == Run(e.ops, e.constValues, env, 0, Start(Grown(old(dataTemps), e.dataRegistersCnt)))
    {
      hide Exec, CanRun;
      while |dataTemps| < e.dataRegistersCnt
        invariant Grown(dataTemps, e.dataRegistersCnt) == Grown(old(dataTemps), e.dataRegistersCnt)
      {
        dataTemps := dataTemps + [0];
      }
      bools, datas, headers := [], [], [];
      ghost var m0 := State();
      var i := 0;
      while i < |e.ops|
        invariant Run(e.ops, e.constValues, env, i, State()) == Run(e.ops, e.constValues, env, 0, m0)
        decreases |e.ops| - i
      {
        var skip := Dispatch(e.ops[i], e.constValues, env);
        i := i + 1 + skip;
      }
    }

    method EvalArith(e: Expression, env: Env, ghost t: Tree) returns (d: Data)
      requires e.Compiled(t, env.ops) && TypeOf(t) == Some(DataT)
      modifies this
      ensures DataV(d) == Eval(t, env)
    {
      hide Built, Eval, TypeOf, Run, PeakAt, Consts, Grown, Start;
      CompiledMeansTree(t, e.ops, e.constValues, env, Grown(dataTemps, e.dataRegistersCnt));
      EvalHasType(t, env);
      Loop(e, env);
      d := Deref(datas[|datas| - 1], dataTemps);
    }

    method EvalBool(e: Expression, env: Env, ghost t: Tree) returns (b: bool)
      requires e.Compiled(t, env.ops) && TypeOf(t) == Some(BoolT)
      modifies this
      ensures BoolV(b) == Eval(t, env)
    {
      hide Built, Eval, TypeOf, Run, PeakAt, Consts, Grown, Start;
      CompiledMeansTree(t, e.ops, e.constValues, env, Grown(dataTemps, e.dataRegistersCnt));
      EvalHasType(t, env);
      Loop(e, env);
      b := bools[|bools| - 1];
    }
  }

  /** The thread's temporaries once there are at least `n` of them. */
  function Grown(temps: seq<Data>, n: nat): (r: seq<Data>)
    ensures |r| >= n && temps <= r
  {
    if |temps| < n then temps + seq(n - |temps|, _ => 0) else temps
  }

  lemma OpForLoads(op: Operator)
    ensures !OpFor(op).LoadConst?
  {
  }

  /** `build_expression`: appends the code of a tree to an expression. */
  method BuildExpression(t: Tree, expr: Expression, data: DataOps)
    modifies expr`ops, expr`constValues
    ensures expr.ops == old(expr.ops) + Comp(t, |old(expr.constValues)|, data)
    ensures expr.constValues == old(expr.constValues) + Consts(t)
    decreases t, 2
  {
    hide Comp, Consts;
    match t
    case Null =>
      NullCode(|expr.constValues|, data);
    case HeaderRef(_) | FieldRef(_, _) | BoolConst(_) | Hexstr(_) | Local(_) =>
      BuildLeaf(t, expr, data);
    case Register(_, _) =>
      BuildRegister(t, expr, data);
    case Ternary(_, _, _) =>
      BuildTernary(t, expr, data);
    case Operation(op, l, r) =>
      BuildOperation(op, l, r, expr, data);
  }

  lemma NullCode(base: nat, data: DataOps)
    ensures Comp(Null, base, data) == [] && Consts(Null) == []
  {
  }

  /** A register with a literal index is loaded by reference. */
  method BuildRegister(t: Tree, expr: Expression, data: DataOps)
    requires t.Register?
    modifies expr`ops, expr`constValues
    ensures expr.ops == old(expr.ops) + Comp(t, |old(expr.constValues)|, data)
    ensures expr.constValues == old(expr.constValues) + Consts(t)
    decreases t, 0
  {
    if t.index.Hexstr? {
      expr.PushBackOp(LoadRegisterRef(t.registerArray, data.toUint(t.index.value)));
    } else {
      BuildExpression(t.index, expr, data);
      expr.PushBackOp(LoadRegisterGen(t.registerArray));
    }
  }

  method BuildOperation(op: Operator, l: Tree, r: Tree, expr: Expression, data: DataOps)
    modifies expr`ops, expr`constValues
    ensures expr.ops == old(expr.ops) + Comp(Operation(op, l, r), |old(expr.constValues)|, data)
    ensures expr.constValues == old(expr.constValues) + Consts(Operation(op, l, r))
    decreases Operation(op, l, r), 0
  {
    hide Comp, LeftOps, LeftConsts, OpFor;
    OperationCode(op, l, r, |expr.constValues|, data);
    OpForLoads(op);
    BuildLeft(op, l, expr, data);
    BuildExpression(r, expr, data);
    expr.PushBackOp(OpFor(op));
  }

  method BuildLeaf(t: Tree, expr: Expression, data: DataOps)
    requires t.HeaderRef? || t.FieldRef? || t.BoolConst? || t.Hexstr? || t.Local?
    modifies expr`ops, expr`constValues
    ensures expr.ops == old(expr.ops) + Comp(t, |old(expr.constValues)|, data)
    ensures expr.constValues == old(expr.constValues) + Consts(t)
  {
    match t
    case HeaderRef(h) => expr.PushBackOp(LoadHeader(h));
    case FieldRef(h, f) => expr.PushBackOp(LoadField(h, f));
    case BoolConst(b) => expr.PushBackOp(LoadBool(b));
    case Hexstr(d) => expr.PushBackLoadConst(d);
    case Local(o) => expr.PushBackOp(LoadLocal(o));
  }

  method BuildLeft(op: Operator, l: Tree, expr: Expression, data: DataOps)
    modifies expr`ops, expr`constValues
    ensures expr.ops == old(expr.ops) + LeftOps(op, l, |old(expr.constValues)|, data)
    ensures expr.constValues == old(expr.constValues) + LeftConsts(op, l)
    decreases l, 3
  {
    if IsSignOp(op) && l.Null? {
      expr.PushBackLoadConst(0);
    } else {
      BuildExpression(l, expr, data);
    }
  }

  method BuildTernary(t: Tree, expr: Expression, data: DataOps)
    requires t.Ternary?
    modifies expr`ops, expr`constValues
    ensures expr.ops == old(expr.ops) + Comp(t, |old(expr.constValues)|, data)
    ensures expr.constValues == old(expr.constValues) + Consts(t)
    decreases t, 1
  {
    hide Comp, Branches;
    TernaryCode(t.cond, t.left, t.right, |expr.constValues|, data);
    BuildExpression(t.cond, expr, data);
    BuildBranches(t, expr, data);
  }

  /** The branches are built as expressions of their own, then appended. */
  method BuildBranches(t: Tree, expr: Expression, data: DataOps)
    requires t.Ternary?
    modifies expr`ops, expr`constValues
    ensures var k := |old(expr.constValues)|;
            expr.ops == old(expr.ops) + Branches(Comp(t.left, k, data), Comp(t.right, k + |Consts(t.left)|, data))
    ensures expr.constValues == old(expr.constValues) + Consts(t.left) + Consts(t.right)
    decreases t, 0
  {
    hide ShiftAll, Branches, Comp, Consts;
    ghost var k := |expr.constValues|;
    ShiftComp(t.left, 0, k, data);
    ShiftComp(t.right, 0, k + |Consts(t.left)|, data);
    var e1 := new Expression();
    var e2 := new Expression();
    BuildExpression(t.left, e1, data);
    BuildExpression(t.right, e2, data);
    assert e1.ops == Comp(t.left, 0, data) && e1.constValues == Consts(t.left);
    assert e2.ops == Comp(t.right, 0, data) && e2.constValues == Consts(t.right);
    expr.PushBackTernaryOp(e1, e2);
  }

  /** What the switch does with a tree it will evaluate: build it once, then
      evaluate it for packet after packet. */
  method Compile(t: Tree, data: DataOps) returns (e: Expression)
    requires TypeOf(t).Some?
    ensures fresh(e) && e.Compiled(t, data)
  {
    e := new Expression();
    BuildExpression(t, e, data);
    ghost var raw := e.ops;
    assert raw == Comp(t, 0, data);
    assert Seg(raw, 0, Comp(t, 0, data));
    TypedCanBeAllocated(t, raw, data);
    e.Build();
  }

  // ----- header length expressions -----

  /** The action-data offsets that the ops load, in order. */
  function LocalOffsets(ops: seq<Op>): seq<int> {
    if ops == [] then []
    else LocalOffsets(ops[..|ops| - 1]) + if ops[|ops| - 1].LoadLocal? then [ops[|ops| - 1].localOffset] else []
  }

  function Resolved(op: Op, header: int): Op {
    if op.LoadLocal? then LoadField(header, op.localOffset) else op
  }

  class VLHeaderExpression {
    const expr: Expression
    var offsets: seq<int>

    constructor (e: Expression)
      ensures expr == e && offsets == LocalOffsets(e.ops)
    {
      expr := e;
      new;
      offsets := [];
      for i := 0 to |expr.ops|
        invariant offsets == LocalOffsets(expr.ops[..i])
      {
        assert expr.ops[..i + 1][..i] == expr.ops[..i];
        if expr.ops[i].LoadLocal? {
          offsets := offsets + [expr.ops[i].localOffset];
        }
      }
      assert expr.ops[..|expr.ops|] == expr.ops;
    }

    /** A copy whose locals are read from the fields of `header`. */
    method Resolve(header: int) returns (e: Expression)
      requires expr.built
      ensures fresh(e) && e.built && e.constValues == expr.constValues && e.dataRegistersCnt == expr.dataRegistersCnt
      ensures |e.ops| == |expr.ops| && forall i | 0 <= i < |e.ops| :: e.ops[i] == Resolved(expr.ops[i], header)
    {
      e := new Expression();
      e.ops, e.constValues, e.dataRegistersCnt, e.built := expr.ops, expr.constValues, expr.dataRegistersCnt, true;
      for i := 0 to |e.ops|
        invariant |e.ops| == |expr.ops| && e.constValues == expr.constValues
        invariant e.dataRegistersCnt == expr.dataRegistersCnt && e.built
        invariant forall k | 0 <= k < i :: e.ops[k] == Resolved(expr.ops[k], header)
        invariant forall k | i <= k < |e.ops| :: e.ops[k] == expr.ops[k]
      {
        if e.ops[i].LoadLocal? {
          e.ops := e.ops[i := LoadField(header, e.ops[i].localOffset)];
        }
      }
    }
  }

  /** Locals taken from the fields of a header. */
  function FieldsAsLocals(env: Env, header: int): Env {
    env.(local := o => env.field(header, o))
  }

  /** Resolving keeps the meaning: the copy computes from the header what the
      original computes from action data equal to the header's fields. */
  lemma {:induction false} ResolvedRunsAlike(ops: seq<Op>, ops': seq<Op>, header: int, consts: seq<Data>, env: Env,
                                             pc: nat, m: Machine)
    requires |ops'| == |ops| && forall i | 0 <= i < |ops| :: ops'[i] == Resolved(ops[i], header)
    ensures Run(ops', consts, env, pc, m) == Run(ops, consts, FieldsAsLocals(env, header), pc, m)
    decreases |ops| - pc
  {
    hide Exec, CanRun, Resolved;
    if pc < |ops| {
      var env' := FieldsAsLocals(env, header);
      ResolvedCanRun(ops[pc], header, consts, m);
      if CanRun(ops[pc], consts, m) {
        ResolvedOp(ops[pc], header, consts, env, m);
        var (m', skip) := Exec(ops[pc], consts, env', m);
        ResolvedRunsAlike(ops, ops', header, consts, env, pc + 1 + skip, m');
      }
    }
  }

  lemma ResolvedCanRun(op: Op, header: int, consts: seq<Data>, m: Machine)
    ensures CanRun(Resolved(op, header), consts, m) == CanRun(op, consts, m)
  {
  }

  lemma ResolvedOp(op: Op, header: int, consts: seq<Data>, env: Env, m: Machine)
    requires CanRun(op, consts, m)
    ensures CanRun(Resolved(op, header), consts, m)
    ensures Exec(Resolved(op, header), consts, env, m) == Exec(op, consts, FieldsAsLocals(env, header), m)
  {
  }

  /** The collected offsets are all that an evaluation reads of its action data. */
  lemma {:induction false} OnlyInputsMatter(ops: seq<Op>, consts: seq<Data>, env: Env, local': int -> Data, pc: nat,
                                            m: Machine)
    requires forall o | o in LocalOffsets(ops) :: env.local(o) == local'(o)
    ensures Run(ops, consts, env, pc, m) == Run(ops, consts, env.(local := local'), pc, m)
    decreases |ops| - pc
  {
    hide Exec, CanRun, LocalOffsets;
    if pc < |ops| && CanRun(ops[pc], consts, m) {
      LocalIsInput(ops, pc);
      var (m', skip) := Exec(ops[pc], consts, env, m);
      LocalOp(ops[pc], consts, env, local', m);
      OnlyInputsMatter(ops, consts, env, local', pc + 1 + skip, m');
    }
  }

  lemma LocalOp(op: Op, consts: seq<Data>, env: Env, local': int -> Data, m: Machine)
    requires CanRun(op, consts, m)
    requires op.LoadLocal? ==> env.local(op.localOffset) == local'(op.localOffset)
    ensures Exec(op, consts, env, m) == Exec(op, consts, env.(local := local'), m)
  {
  }

  lemma {:induction false} LocalIsInput(ops: seq<Op>, i: nat)
    ensures i < |ops| && ops[i].LoadLocal? ==> ops[i].localOffset in LocalOffsets(ops)
    decreases |ops|
  {
    if i + 1 < |ops| {
      LocalIsInput(ops[..|ops| - 1], i);
    }
  }
}
