/** The results about whole programs: the value of a run, and the safety of every
    configuration a run goes through. */
module CompilerTheorems {
  import opened ExpressionSyntax
  import opened StackMachine
  import opened Registers
  import opened Compiler
  import opened CompilerCorrect
  import opened Wrappers

  /** `ops` is the code of `t` after register allocation. */
  ghost predicate Built(t: Tree, ops: seq<Op>, data: DataOps) {
    && Seg(ops, 0, Comp(t, 0, data)) && |ops| == |Comp(t, 0, data)|
    && Assigned(ops)
  }

  function Start(temps: seq<Data>): Machine {
    Machine(temps, [], [], [])
  }

  /** What is on the stacks after the value `v` of a whole expression. */
  ghost predicate Leaves(m: Machine, v: Value) {
    match v
    case DataV(d) => |m.datas| == 1 && PointsTo(m.datas[0], m.temps, d) && m.bools == [] && m.headers == []
    case BoolV(b) => m.bools == [b] && m.datas == [] && m.headers == []
    case HeaderV(h) => m.headers == [h] && m.datas == [] && m.bools == []
    case NoValue => false
  }

  /** Compiler correctness: whatever the temporaries held before, the run ends,
      and leaves exactly the value of the tree. */
  lemma CompiledMeansTree(t: Tree, ops: seq<Op>, consts: seq<Data>, env: Env, temps: seq<Data>)
    requires TypeOf(t).Some? && Built(t, ops, env.ops) && consts == Consts(t)
    requires PeakAt(ops, |ops|) <= |temps|
    ensures var r := Run(ops, consts, env, 0, Start(temps));
            r.Some? && Leaves(r.value, Eval(t, env))
  {
    assert consts[0..0 + |Consts(t)|] == Consts(t);
    hide StackAt, PeakAt, Seg, Assigned, Comp, Consts, Sum, Eval;
    Starts(ops, temps);
    var m := RunTree(t, 0, ops, consts, env, 0, Start(temps));
    EvalHasType(t, env);
  }

  /** What the compiled code of a comparison leaves is the comparison of the numbers that
      the operands mean, the left one first. */
  lemma CompiledComparison(c: ExpressionSyntax.CompareOp, l: Tree, r: Tree, ops: seq<Op>, consts: seq<Data>,
                           env: Env, temps: seq<Data>, a: Data, b: Data)
    requires var t := Operation(Compare(c), l, r);
             TypeOf(t).Some? && Built(t, ops, env.ops) && consts == Consts(t)
    requires PeakAt(ops, |ops|) <= |temps|
    requires Eval(l, env) == DataV(a) && Eval(r, env) == DataV(b)
    ensures var m := Run(ops, consts, env, 0, Start(temps));
            && m.Some? && m.value.datas == [] && m.value.headers == []
            && m.value.bools == [match c { case Eq => a == b case Neq => a != b case Gt => b < a
                                           case Lt => a < b case Ge => b <= a case Le => a <= b }]
  {
    hide Eval, StackAt, PeakAt, Assigned, Comp, Consts, Run;
    CompiledMeansTree(Operation(Compare(c), l, r), ops, consts, env, temps);
    CompareMeans(l, r, env, a, b);
  }

  lemma Starts(ops: seq<Op>, temps: seq<Data>)
    requires Assigned(ops) && PeakAt(ops, |ops|) <= |temps|
    ensures Inv(ops, 0, Start(temps))
  {
  }

  /** A typed tree's code can be allocated: the walk never pops an empty stack. */
  lemma TypedCanBeAllocated(t: Tree, ops: seq<Op>, data: DataOps)
    requires TypeOf(t).Some?
    requires Seg(ops, 0, Comp(t, 0, data)) && |ops| == |Comp(t, 0, data)|
    ensures StackAt(ops, |ops|).Some?
  {
    WalkTree(t, 0, data, ops, 0);
  }

  // ----- every configuration of every run -----

  /** The configuration after `n` ops; `None` when the run is over or stuck before. */
  function After(ops: seq<Op>, consts: seq<Data>, env: Env, m0: Machine, n: nat): Option<(nat, Machine)> {
    if n == 0 then Some((0, m0))
    else
      match After(ops, consts, env, m0, n - 1)
      case None => None
      case Some((pc, m)) =>
        if pc >= |ops| || !CanRun(ops[pc], consts, m) then None
        else
          var (m', skip) := Exec(ops[pc], consts, env, m);
          Some((pc + 1 + skip, m'))
  }

  /** Where the jump of op `i` can land, the walk's stack extends what it was before. */
  ghost predicate JumpOk(ops: seq<Op>, i: nat)
    requires i < |ops|
  {
    && (ops[i].TernaryOp? ==> Grows(StackAt(ops, i + 1), StackAt(ops, i + 2), 0))
    && (ops[i].Skip? ==> Grows(StackAt(ops, i), StackAt(ops, i + 1 + ops[i].skipNum), 0))
  }

  ghost predicate JumpsOk(ops: seq<Op>, lo: nat, hi: nat) {
    hi <= |ops| && forall i | lo <= i < hi :: JumpOk(ops, i)
  }

  predicate NoJump(op: Op) {
    !op.TernaryOp? && !op.Skip?
  }

  lemma {:induction false} TreeJumpsOk(t: Tree, base: nat, data: DataOps, ops: seq<Op>, off: nat)
    requires TypeOf(t).Some? && Seg(ops, off, Comp(t, base, data)) && StackAt(ops, off).Some?
    ensures JumpsOk(ops, off, off + |Comp(t, base, data)|)
    decreases t, 2
  {
    if t.Ternary? {
      TernaryJumpsOk(t, base, data, ops, off);
    } else if t.Operation? {
      OperationJumpsOk(t, base, data, ops, off);
    } else if IsLeaf(t) {
      LeafCode(t, base, ops, off, data);
    } else {
      var ci := Comp(t.index, base, data);
      SegSplit(ops, off, ci, [LoadRegisterGen(t.registerArray)]);
      TreeJumpsOk(t.index, base, data, ops, off);
      assert SameCode(ops[off + |ci| + 0], [LoadRegisterGen(t.registerArray)][0]);
    }
  }

  lemma {:induction false} OperationJumpsOk(t: Tree, base: nat, data: DataOps, ops: seq<Op>, off: nat)
    requires t.Operation? && TypeOf(t).Some?
    requires Seg(ops, off, Comp(t, base, data)) && StackAt(ops, off).Some?
    ensures JumpsOk(ops, off, off + |Comp(t, base, data)|)
    decreases t, 1
  {
    hide StackAt, JumpOk, JumpsOk, Seg, TypeOf, LeftOps;
    var lc, base' := LeftOps(t.op, t.left, base, data), base + |LeftConsts(t.op, t.left)|;
    var rc := Comp(t.right, base', data);
    SegSplit(ops, off, lc + rc, [OpFor(t.op)]);
    SegSplit(ops, off, lc, rc);
    PlainCode(ops, off + |lc| + |rc|, OpFor(t.op));
    LeftJumpsOk(t, base, data, ops, off);
    RightIsTyped(t);
    if t.right.Null? {
      NoJumps(ops, off + |lc|, rc);
    } else {
      TreeJumpsOk(t.right, base', data, ops, off + |lc|);
    }
    JoinJumps(ops, off, off + |lc|, off + |lc| + |rc|);
    JoinJumps(ops, off, off + |lc| + |rc|, off + |lc| + |rc| + 1);
  }

  lemma RightIsTyped(t: Tree)
    requires t.Operation? && TypeOf(t).Some?
    ensures !t.right.Null? ==> TypeOf(t.right).Some?
    ensures !t.left.Null? ==> TypeOf(t.left).Some?
  {
  }

  lemma {:induction false} LeftJumpsOk(t: Tree, base: nat, data: DataOps, ops: seq<Op>, off: nat)
    requires t.Operation? && TypeOf(t).Some?
    requires Seg(ops, off, LeftOps(t.op, t.left, base, data)) && StackAt(ops, off).Some?
    ensures var end := off + |LeftOps(t.op, t.left, base, data)|;
            JumpsOk(ops, off, end) && StackAt(ops, end).Some?
    decreases t, 0
  {
    hide StackAt, JumpOk, JumpsOk, Seg, TypeOf, Comp;
    RightIsTyped(t);
    if t.left.Null? {
      if IsSignOp(t.op) {
        PlainCode(ops, off, LoadConst(base));
        WalkOp(ops, off, LoadConst(base), StackAt(ops, off));
      } else {
        NoCode(base, data);
        NoJumps(ops, off, []);
      }
    } else {
      TreeJumpsOk(t.left, base, data, ops, off);
      WalkTree(t.left, base, data, ops, off);
    }
  }

  lemma NoCode(base: nat, data: DataOps)
    ensures Comp(Null, base, data) == []
  {
  }

  lemma NoJumps(ops: seq<Op>, off: nat, code: seq<Op>)
    requires Seg(ops, off, code) && code == []
    ensures JumpsOk(ops, off, off)
  {
  }

  lemma JoinJumps(ops: seq<Op>, lo: nat, mid: nat, hi: nat)
    requires lo <= mid <= hi && JumpsOk(ops, lo, mid) && JumpsOk(ops, mid, hi)
    ensures JumpsOk(ops, lo, hi)
  {
    hide JumpOk;
  }

  lemma PlainCode(ops: seq<Op>, off: nat, op: Op)
    requires Seg(ops, off, [op]) && NoJump(op)
    ensures JumpsOk(ops, off, off + 1)
  {
    assert SameCode(ops[off + 0], [op][0]);
  }

  lemma {:induction false} TernaryJumpsOk(t: Tree, base: nat, data: DataOps, ops: seq<Op>, off: nat)
    requires t.Ternary? && TypeOf(t).Some?
    requires Seg(ops, off, Comp(t, base, data)) && StackAt(ops, off).Some?
    ensures JumpsOk(ops, off, off + |Comp(t, base, data)|)
    decreases t, 0
  {
    hide StackAt, Seg, Comp;
    var y := LayoutOf(t, base, data, off);
    TernarySegs(t, base, data, ops, off);
    WalkTernary(t, base, data, ops, off);
    TreeJumpsOk(t.cond, base, data, ops, off);
    TreeJumpsOk(t.left, y.bl, data, ops, y.Left());
    TreeJumpsOk(t.right, y.br, data, ops, y.Right());
    assert y.o + 2 == y.Left() && y.o + 2 + (|y.e1| + 1) == y.Right() && y.LeftEnd() + 1 == y.Right();
    assert y.LeftEnd() + 1 + |y.e2| == y.End();
    assert JumpOk(ops, y.o) && JumpOk(ops, y.o + 1) && JumpOk(ops, y.LeftEnd());
  }

  lemma StepKeepsInv(ops: seq<Op>, i: nat, consts: seq<Data>, env: Env, m: Machine)
    requires i < |ops| && Inv(ops, i, m) && CanRun(ops[i], consts, m) && JumpOk(ops, i)
    ensures var (m', skip) := Exec(ops[i], consts, env, m); Inv(ops, i + 1 + skip, m')
  {
    hide StackAt, PeakAt, Assigned, Embeds, CanRun, Inv, Grows;
    var (m', skip) := Exec(ops[i], consts, env, m);
    if ops[i].Skip? {
      MoveInv(ops, i, i + 1 + skip, m');
    } else {
      StepEmbeds(ops, i, consts, env, m);
      if skip != 0 {
        MoveInv(ops, i + 1, i + 2, m');
      }
    }
  }

  lemma {:induction false} AfterIsSafe(ops: seq<Op>, consts: seq<Data>, env: Env, m0: Machine, n: nat)
    requires Inv(ops, 0, m0) && JumpsOk(ops, 0, |ops|) && Run(ops, consts, env, 0, m0).Some?
    requires After(ops, consts, env, m0, n).Some?
    ensures var (pc, m) := After(ops, consts, env, m0, n).value;
            && Inv(ops, pc, m)
            && Run(ops, consts, env, pc, m) == Run(ops, consts, env, 0, m0)
  {
    hide StackAt, PeakAt, Assigned, Embeds, Exec, CanRun, Inv, JumpOk;
    if n > 0 {
      AfterIsSafe(ops, consts, env, m0, n - 1);
      var (pc, m) := After(ops, consts, env, m0, n - 1).value;
      StepKeepsInv(ops, pc, consts, env, m);
    }
  }

  /** Safety of every run of a built expression, at every op: no stack is popped
      empty, jumps stay inside the program, and the temporary an op writes exists
      and is not one that a remaining stack pointer refers to. */
  lemma EveryStepIsSafe(t: Tree, ops: seq<Op>, consts: seq<Data>, env: Env, temps: seq<Data>, n: nat)
    requires TypeOf(t).Some? && Built(t, ops, env.ops) && consts == Consts(t)
    requires PeakAt(ops, |ops|) <= |temps|
    requires After(ops, consts, env, Start(temps), n).Some?
    ensures var (pc, m) := After(ops, consts, env, Start(temps), n).value;
            && pc <= |ops|
            && (pc < |ops| ==>
                  && CanRun(ops[pc], consts, m)
                  && (WritesTemp(ops[pc]) ==>
                        && ops[pc].dest < PeakAt(ops, |ops|)
                        && forall k | 0 <= k < |m.datas| - DataArgs(ops[pc]) :: m.datas[k] != Temp(ops[pc].dest)))
  {
    Starts(ops, temps);
    CompiledMeansTree(t, ops, consts, env, temps);
    TreeJumpsOk(t, 0, env.ops, ops, 0);
    AfterIsSafe(ops, consts, env, Start(temps), n);
    var (pc, m) := After(ops, consts, env, Start(temps), n).value;
    StackAtBefore(ops, pc, pc);
    if pc < |ops| && WritesTemp(ops[pc]) {
      WalkAt(ops, pc);
      NoLiveTempIsWritten(ops, pc, m);
    }
  }
}
