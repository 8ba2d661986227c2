/** Running the ops of a tree leaves exactly the tree's value on the right stack. */
module CompilerCorrect {
  import opened ExpressionSyntax
  import opened StackMachine
  import opened Registers
  import opened Compiler
  import opened Wrappers

  /** What holds whenever the machine is about to run op `i`. */
  ghost predicate Inv(ops: seq<Op>, i: nat, m: Machine) {
    && Assigned(ops)
    && StackAt(ops, i).Some?
    && Embeds(m.datas, StackAt(ops, i).value)
    && PeakAt(ops, |ops|) <= |m.temps|
  }

  /** The walk at an op of an allocated program. */
  lemma WalkAt(ops: seq<Op>, i: nat)
    requires i < |ops| && Assigned(ops)
    ensures StackAt(ops, i).Some? && StaticPops(ops[i]) <= |StackAt(ops, i).value|
    ensures var st := StackAt(ops, i).value;
            && StackAt(ops, i + 1) == Some(st[..|st| - StaticPops(ops[i])] + StaticPush(ops[i]))
            && Sum(st) <= PeakAt(ops, |ops|)
            && (WritesTemp(ops[i]) ==>
                  && ops[i].dest == Sum(st[..|st| - StaticPops(ops[i])])
                  && ops[i].dest < PeakAt(ops, |ops|))
  {
    hide StackAt, PeakAt, Sum;
    WalkNext(ops, i);
    StackAtBefore(ops, i, |ops|);
    StackAtBefore(ops, i + 1, |ops|);
    if WritesTemp(ops[i]) {
      assert DestIs(ops, i);
      var st := StackAt(ops, i).value;
      SumPush(st[..|st| - StaticPops(ops[i])], 1);
    }
  }

  lemma AllReadable(ops: seq<Op>, i: nat, m: Machine)
    requires i < |ops| && Inv(ops, i, m)
    ensures forall k | 0 <= k < |m.datas| :: Readable(m.datas[k], m.temps)
  {
    WalkAt(ops, i);
    hide StackAt, PeakAt, Assigned, Embeds, Sum;
    forall k | 0 <= k < |m.datas| ensures Readable(m.datas[k], m.temps) {
      EmbedsBelow(m.datas, StackAt(ops, i).value, k);
    }
  }

  /** No op of an allocated program writes a temporary that a pointer below its
      operands still refers to, or one that does not exist. */
  lemma NoLiveTempIsWritten(ops: seq<Op>, i: nat, m: Machine)
    requires i < |ops| && Inv(ops, i, m)
    requires WritesTemp(ops[i]) && DataArgs(ops[i]) <= |m.datas|
    ensures ops[i].dest < |m.temps|
    ensures forall k | 0 <= k < |m.datas| - DataArgs(ops[i]) :: m.datas[k] != Temp(ops[i].dest)
  {
    WalkAt(ops, i);
    hide StackAt, PeakAt, Assigned, Embeds, Sum;
    var st := StackAt(ops, i).value;
    var below := m.datas[..|m.datas| - DataArgs(ops[i])];
    EmbedsPops(m.datas, st, DataArgs(ops[i]));
    forall k | 0 <= k < |below| ensures m.datas[k] != Temp(ops[i].dest) {
      EmbedsBelow(below, st[..|st| - StaticPops(ops[i])], k);
      assert below[k] == m.datas[k];
    }
  }

  /** What an op does to the stack of data pointers. */
  lemma ExecDatas(op: Op, consts: seq<Data>, env: Env, m: Machine)
    requires CanRun(op, consts, m)
    ensures var ds := m.datas[..|m.datas| - DataArgs(op)];
            var m' := Exec(op, consts, env, m).0;
            if WritesTemp(op) then m'.datas == ds + [Temp(op.dest)]
            else if StaticPush(op) == [] then m'.datas == ds
            else m'.datas != [] && m'.datas == ds + [m'.datas[|m'.datas| - 1]] && m'.datas[|m'.datas| - 1].Ext?
  {
    assert m.datas[..|m.datas|] == m.datas;
  }

  /** Each op keeps the embedding, jumps aside. */
  lemma StepEmbeds(ops: seq<Op>, i: nat, consts: seq<Data>, env: Env, m: Machine)
    requires i < |ops| && Inv(ops, i, m) && CanRun(ops[i], consts, m)
    ensures Inv(ops, i + 1, Exec(ops[i], consts, env, m).0)
  {
    hide StackAt, PeakAt, Assigned, Embeds, Sum, Exec;
    var op := ops[i];
    WalkAt(ops, i);
    ExecDatas(op, consts, env, m);
    var st := StackAt(ops, i).value;
    EmbedsPops(m.datas, st, DataArgs(op));
    var ds, st' := m.datas[..|m.datas| - DataArgs(op)], st[..|st| - StaticPops(op)];
    var m' := Exec(op, consts, env, m).0;
    if WritesTemp(op) {
      EmbedsPush(ds, st', Temp(op.dest), 1);
    } else if StaticPush(op) != [] {
      EmbedsPush(ds, st', m'.datas[|m'.datas| - 1], 0);
    } else {
      assert st' + [] == st';
    }
  }

  lemma MoveInv(ops: seq<Op>, i: nat, j: nat, m: Machine)
    requires Inv(ops, i, m) && Grows(StackAt(ops, i), StackAt(ops, j), 0)
    ensures Inv(ops, j, m)
  {
    var st, st' := StackAt(ops, i).value, StackAt(ops, j).value;
    assert st' == st + st'[|st|..];
    EmbedsExtend(m.datas, st, st'[|st|..]);
  }

  lemma PrefixSum(st: seq<nat>, st': seq<nat>)
    requires st <= st'
    ensures Sum(st) <= Sum(st')
  {
    assert st' == st + st'[|st|..];
    SumExtend(st, st'[|st|..]);
  }

  /** `m'` is `m` with `v` pushed, and with every temporary below `floor` as it was. */
  ghost predicate Pushed(m: Machine, m': Machine, v: Value, floor: nat) {
    && |m'.temps| == |m.temps|
    && (forall r | 0 <= r < floor && r < |m.temps| :: m'.temps[r] == m.temps[r])
    && match v
       case DataV(d) =>
         && m'.bools == m.bools && m'.headers == m.headers
         && |m'.datas| == |m.datas| + 1 && m'.datas[..|m.datas|] == m.datas
         && PointsTo(m'.datas[|m.datas|], m'.temps, d)
       case BoolV(b) => m'.bools == m.bools + [b] && m'.datas == m.datas && m'.headers == m.headers
       case HeaderV(h) => m'.headers == m.headers + [h] && m'.datas == m.datas && m'.bools == m.bools
       case NoValue => false
  }

  ghost predicate PointsTo(p: Ptr, temps: seq<Data>, d: Data) {
    Readable(p, temps) && Deref(p, temps) == d
  }

  /** The operands of `op`: `a` (unless `op` is unary) and `b` on top of `m0`'s stacks. */
  ghost predicate Loaded(op: Operator, m0: Machine, m: Machine, a: Value, b: Value) {
    var n := if IsUnary(op) then 1 else 2;
    && |m.temps| == |m0.temps|
    && match ArgType(op)
       case DataT =>
         && m.bools == m0.bools && m.headers == m0.headers
         && |m.datas| == |m0.datas| + n && m.datas[..|m0.datas|] == m0.datas
         && (n == 2 ==> PointsTo(m.datas[|m0.datas|], m.temps, AsData(a)))
         && PointsTo(m.datas[|m.datas| - 1], m.temps, AsData(b))
       case BoolT =>
         && m.datas == m0.datas && m.headers == m0.headers
         && m.bools == m0.bools + (if n == 2 then [AsBool(a), AsBool(b)] else [AsBool(b)])
       case HeaderT =>
         m.datas == m0.datas && m.bools == m0.bools && m.headers == m0.headers + [AsHeader(b)]
  }

  /** Everything that `code`, the op for `op`, needs to run on its operands. */
  ghost predicate Ready(op: Operator, code: Op, m0: Machine, m: Machine, a: Value, b: Value) {
    && SameCode(code, OpFor(op)) && Loaded(op, m0, m, a, b)
    && (forall k | 0 <= k < |m.datas| :: Readable(m.datas[k], m.temps))
    && (WritesTemp(code) ==> code.dest < |m.temps|)
  }

  /** It pops the operands, pushes the result, and changes no temporary below its own. */
  ghost predicate Computes(op: Operator, code: Op, consts: seq<Data>, env: Env,
                           m0: Machine, m: Machine, a: Value, b: Value)
  {
    && CanRun(code, consts, m) && Exec(code, consts, env, m).1 == 0
    && Pushed(m0.(temps := m.temps), Exec(code, consts, env, m).0, Apply(op, a, b, env),
              if WritesTemp(code) then code.dest else |m.temps|)
  }

  lemma ExecArith(op: Operator, code: Op, consts: seq<Data>, env: Env, m0: Machine, m: Machine, a: Value, b: Value)
    requires op.Arith?
    requires Ready(op, code, m0, m, a, b)
    ensures Computes(op, code, consts, env, m0, m, a, b)
  {
  }

  lemma ExecCompare(op: Operator, code: Op, consts: seq<Data>, env: Env, m0: Machine, m: Machine, a: Value, b: Value)
    requires op.Compare?
    requires Ready(op, code, m0, m, a, b)
    ensures Computes(op, code, consts, env, m0, m, a, b)
  {
  }

  lemma ExecData(op: Operator, code: Op, consts: seq<Data>, env: Env, m0: Machine, m: Machine, a: Value, b: Value)
    requires op.BitNeg? || op.DataToBool?
    requires Ready(op, code, m0, m, a, b)
    ensures Computes(op, code, consts, env, m0, m, a, b)
  {
    hide Embeds, StackAt, Comp;
    assert m.datas[..|m.datas| - 1] == m0.datas;
  }

  lemma ExecAnd(op: Operator, code: Op, consts: seq<Data>, env: Env, m0: Machine, m: Machine, a: Value, b: Value)
    requires op.And?
    requires Ready(op, code, m0, m, a, b)
    ensures Computes(op, code, consts, env, m0, m, a, b)
  {
    TwoBools(m0.bools, AsBool(a), AsBool(b));
  }

  lemma ExecOr(op: Operator, code: Op, consts: seq<Data>, env: Env, m0: Machine, m: Machine, a: Value, b: Value)
    requires op.Or?
    requires Ready(op, code, m0, m, a, b)
    ensures Computes(op, code, consts, env, m0, m, a, b)
  {
    TwoBools(m0.bools, AsBool(a), AsBool(b));
  }

  lemma TwoBools(s: seq<bool>, a: bool, b: bool)
    ensures var t := s + [a, b]; t[..|t| - 2] == s && t[|t| - 2] == a && t[|t| - 1] == b
  {
  }

  lemma ExecNot(op: Operator, code: Op, consts: seq<Data>, env: Env, m0: Machine, m: Machine, a: Value, b: Value)
    requires op.Not?
    requires Ready(op, code, m0, m, a, b)
    ensures Computes(op, code, consts, env, m0, m, a, b)
  {
    hide Embeds, StackAt, Comp;
    assert m.bools[..|m.bools| - 1] == m0.bools && m.bools[|m.bools| - 1] == AsBool(b);
  }

  lemma ExecBoolToData(op: Operator, code: Op, consts: seq<Data>, env: Env, m0: Machine, m: Machine, a: Value, b: Value)
    requires op.BoolToData?
    requires Ready(op, code, m0, m, a, b)
    ensures Computes(op, code, consts, env, m0, m, a, b)
  {
    hide Embeds, StackAt, Comp;
    assert m.bools[..|m.bools| - 1] == m0.bools && m.bools[|m.bools| - 1] == AsBool(b);
  }

  lemma ExecHeader(op: Operator, code: Op, consts: seq<Data>, env: Env, m0: Machine, m: Machine, a: Value, b: Value)
    requires op.ValidHeader?
    requires Ready(op, code, m0, m, a, b)
    ensures Computes(op, code, consts, env, m0, m, a, b)
  {
  }

  lemma ExecOperator(op: Operator, code: Op, consts: seq<Data>, env: Env, m0: Machine, m: Machine, a: Value, b: Value)
    requires Ready(op, code, m0, m, a, b)
    ensures Computes(op, code, consts, env, m0, m, a, b)
  {
    hide *;
    match op {
      case Arith(_) => ExecArith(op, code, consts, env, m0, m, a, b);
      case Compare(_) => ExecCompare(op, code, consts, env, m0, m, a, b);
      case And => ExecAnd(op, code, consts, env, m0, m, a, b);
      case Or => ExecOr(op, code, consts, env, m0, m, a, b);
      case Not => ExecNot(op, code, consts, env, m0, m, a, b);
      case BoolToData => ExecBoolToData(op, code, consts, env, m0, m, a, b);
      case BitNeg | DataToBool => ExecData(op, code, consts, env, m0, m, a, b);
      case ValidHeader => ExecHeader(op, code, consts, env, m0, m, a, b);
    }
  }

  lemma PushedFrom(m0: Machine, m: Machine, m': Machine, v: Value, f0: nat, f: nat)
    requires |m.temps| == |m0.temps|
    requires forall r | 0 <= r < f0 && r < |m.temps| :: m.temps[r] == m0.temps[r]
    requires Pushed(m0.(temps := m.temps), m', v, f) && f0 <= f
    ensures Pushed(m0, m', v, f0)
  {
  }

  lemma SegOne(ops: seq<Op>, pc: nat, op: Op)
    requires Seg(ops, pc, [op])
    ensures pc < |ops| && SameCode(ops[pc], op)
  {
    assert SameCode(ops[pc + 0], [op][0]);
  }

  lemma StepRun(ops: seq<Op>, pc: nat, consts: seq<Data>, env: Env, m: Machine)
    requires pc < |ops| && CanRun(ops[pc], consts, m) && Exec(ops[pc], consts, env, m).1 == 0
    ensures Run(ops, consts, env, pc, m) == Run(ops, consts, env, pc + 1, Exec(ops[pc], consts, env, m).0)
  {
    hide Exec, CanRun;
  }

  /** The op that ends an operation pops its operands and pushes the result. */
  lemma RunOperator(op: Operator, ops: seq<Op>, pc: nat, consts: seq<Data>, env: Env,
                    m0: Machine, m: Machine, a: Value, b: Value, st0: Option<seq<nat>>) returns (m': Machine)
    requires Seg(ops, pc, [OpFor(op)]) && Inv(ops, pc, m)
    requires Loaded(op, m0, m, a, b)
    requires st0.Some?
    requires forall r | 0 <= r < Sum(st0.value) && r < |m.temps| && r < |m0.temps| :: m.temps[r] == m0.temps[r]
    requires Grows(st0, StackAt(ops, pc), StaticPops(OpFor(op)))
    ensures Run(ops, consts, env, pc, m) == Run(ops, consts, env, pc + 1, m')
    ensures Inv(ops, pc + 1, m')
    ensures Pushed(m0, m', Apply(op, a, b, env), Sum(st0.value))
  {
    hide StackAt, PeakAt, Assigned, Embeds, Sum, Exec, Apply, Pushed, Run, OpFor, CanRun, Readable;
    SegOne(ops, pc, OpFor(op));
    var code := ops[pc];
    SameCodeWalksAlike(code, OpFor(op));
    AllReadable(ops, pc, m);
    WalkAt(ops, pc);
    ExecOperator(op, code, consts, env, m0, m, a, b);
    m' := Exec(code, consts, env, m).0;
    StepRun(ops, pc, consts, env, m);
    StepEmbeds(ops, pc, consts, env, m);
    var st := StackAt(ops, pc).value;
    PrefixSum(st0.value, st[..|st| - StaticPops(code)]);
    PrefixSum(st0.value, st);
    PushedFrom(m0, m, m', Apply(op, a, b, env), Sum(st0.value), if WritesTemp(code) then code.dest else |m.temps|);
  }

  predicate IsLeaf(t: Tree) {
    TypeOf(t).Some? && !t.Operation? && !t.Ternary? && (t.Register? ==> t.index.Hexstr?)
  }

  lemma ExecLeaf(t: Tree, base: nat, code: Op, consts: seq<Data>, env: Env, m: Machine)
    requires IsLeaf(t)
    requires Comp(t, base, env.ops) == [code] && ConstSeg(consts, base, Consts(t))
    ensures CanRun(code, consts, m) && Exec(code, consts, env, m).1 == 0
    ensures Pushed(m, Exec(code, consts, env, m).0, Eval(t, env), |m.temps|)
  {
    if t.Hexstr? {
      assert consts[base..base + 1][0] == consts[base];
    }
    assert m.datas[..|m.datas|] == m.datas;
    assert m.bools[..|m.bools|] == m.bools;
  }

  lemma LeafCode(t: Tree, base: nat, ops: seq<Op>, off: nat, data: DataOps)
    requires IsLeaf(t) && Seg(ops, off, Comp(t, base, data))
    ensures off < |ops| && Comp(t, base, data) == [ops[off]]
  {
    assert SameCode(ops[off + 0], Comp(t, base, data)[0]);
  }

  /** A leaf pushes its value without touching any temporary. */
  lemma RunLeaf(t: Tree, base: nat, ops: seq<Op>, consts: seq<Data>, env: Env, off: nat, m: Machine)
    returns (m': Machine)
    requires IsLeaf(t) && Here(t, base, ops, consts, env, off, m)
    ensures Done(t, base, ops, consts, env, off, m, m')
  {
    hide StackAt, PeakAt, Assigned, Embeds, Sum, Seg, ConstSeg, Comp, Consts, Exec, CanRun, Eval, IsLeaf;
    LeafCode(t, base, ops, off, env.ops);
    ExecLeaf(t, base, ops[off], consts, env, m);
    WalkAt(ops, off);
    m' := Exec(ops[off], consts, env, m).0;
    StepEmbeds(ops, off, consts, env, m);
  }

  /** The value `v` of `t` on top of the stacks of `m`, at the end of its ops. */
  ghost predicate Done(t: Tree, base: nat, ops: seq<Op>, consts: seq<Data>, env: Env, off: nat,
                       m: Machine, m': Machine)
  {
    var end := off + |Comp(t, base, env.ops)|;
    && Run(ops, consts, env, off, m) == Run(ops, consts, env, end, m')
    && Inv(ops, end, m')
    && StackAt(ops, off).Some?
    && Pushed(m, m', Eval(t, env), Sum(StackAt(ops, off).value))
  }

  ghost predicate Here(t: Tree, base: nat, ops: seq<Op>, consts: seq<Data>, env: Env, off: nat, m: Machine) {
    && TypeOf(t).Some?
    && Seg(ops, off, Comp(t, base, env.ops))
    && ConstSeg(consts, base, Consts(t))
    && Inv(ops, off, m)
  }

  /** Compiler correctness, for a tree anywhere in a program. */
  lemma {:induction false} RunTree(t: Tree, base: nat, ops: seq<Op>, consts: seq<Data>, env: Env, off: nat, m: Machine)
    returns (m': Machine)
    requires Here(t, base, ops, consts, env, off, m)
    ensures Done(t, base, ops, consts, env, off, m, m')
    decreases t, 1
  {
    hide StackAt, Seg, ConstSeg, Comp, Consts, Inv, Pushed, Eval;
    if t.Ternary? {
      m' := RunTernary(t, base, ops, consts, env, off, m);
    } else if t.Operation? {
      if IsUnary(t.op) {
        m' := RunUnary(t, base, ops, consts, env, off, m);
      } else {
        m' := RunBinary(t, base, ops, consts, env, off, m);
      }
    } else if IsLeaf(t) {
      m' := RunLeaf(t, base, ops, consts, env, off, m);
    } else {
      m' := RunRegister(t, base, ops, consts, env, off, m);
    }
  }

  lemma {:induction false} RunRegister(t: Tree, base: nat, ops: seq<Op>, consts: seq<Data>, env: Env, off: nat,
                                       m: Machine)
    returns (m': Machine)
    requires t.Register? && !t.index.Hexstr? && Here(t, base, ops, consts, env, off, m)
    ensures Done(t, base, ops, consts, env, off, m, m')
    decreases t, 0
  {
    hide StackAt, PeakAt, Assigned, Embeds, Sum;
    var ci := Comp(t.index, base, env.ops);
    SegSplit(ops, off, ci, [LoadRegisterGen(t.registerArray)]);
    var m1 := RunTree(t.index, base, ops, consts, env, off, m);
    EvalHasType(t.index, env);
    var pc := off + |ci|;
    assert SameCode(ops[pc + 0], [LoadRegisterGen(t.registerArray)][0]);
    m' := Exec(ops[pc], consts, env, m1).0;
    StepEmbeds(ops, pc, consts, env, m1);
  }

  lemma TernaryConsts(t: Tree, base: nat, data: DataOps, consts: seq<Data>, off: nat)
    requires t.Ternary? && ConstSeg(consts, base, Consts(t))
    ensures var y := LayoutOf(t, base, data, off);
            && ConstSeg(consts, base, Consts(t.cond))
            && ConstSeg(consts, y.bl, Consts(t.left)) && ConstSeg(consts, y.br, Consts(t.right))
  {
    ConstSplit(consts, base, Consts(t.cond) + Consts(t.left), Consts(t.right));
    ConstSplit(consts, base, Consts(t.cond), Consts(t.left));
  }

  lemma {:induction false} RunTernary(t: Tree, base: nat, ops: seq<Op>, consts: seq<Data>, env: Env, off: nat,
                                      m: Machine)
    returns (m': Machine)
    requires t.Ternary? && Here(t, base, ops, consts, env, off, m)
    ensures Done(t, base, ops, consts, env, off, m, m')
    decreases t, 0
  {
    hide StackAt, PeakAt, Assigned, Embeds, Sum, Seg, ConstSeg, Comp, Consts, Exec, CanRun, Run;
    var y := LayoutOf(t, base, env.ops, off);
    TernarySegs(t, base, env.ops, ops, off);
    TernaryConsts(t, base, env.ops, consts, off);
    WalkTernary(t, base, env.ops, ops, off);
    var m1 := RunTree(t.cond, base, ops, consts, env, off, m);
    EvalHasType(t.cond, env);
    EvalHasType(t, env);
    var m2 := TakeBranch(t, y, ops, consts, env, m1);
    var b := AsBool(Eval(t.cond, env));
    var f := Sum(StackAt(ops, off).value);
    if b {
      PrefixSum(StackAt(ops, off).value, StackAt(ops, y.Left()).value);
      m' := RunTree(t.left, y.bl, ops, consts, env, y.Left(), m2);
      PushedFrom(m, m2, m', Eval(t, env), f, Sum(StackAt(ops, y.Left()).value));
      MoveInv(ops, y.LeftEnd(), y.End(), m');
      RunSkip(ops, consts, env, y.LeftEnd(), m');
    } else {
      PrefixSum(StackAt(ops, off).value, StackAt(ops, y.Right()).value);
      m' := RunTree(t.right, y.br, ops, consts, env, y.Right(), m2);
      PushedFrom(m, m2, m', Eval(t, env), f, Sum(StackAt(ops, y.Right()).value));
    }
  }

  lemma RunSkip(ops: seq<Op>, consts: seq<Data>, env: Env, pc: nat, m: Machine)
    requires pc < |ops| && ops[pc].Skip?
    ensures Run(ops, consts, env, pc, m) == Run(ops, consts, env, pc + 1 + ops[pc].skipNum, m)
  {
  }

  /** From the condition on the stack to the start of the branch it selects. */
  lemma TakeBranch(t: Tree, y: Layout, ops: seq<Op>, consts: seq<Data>, env: Env, m: Machine) returns (m': Machine)
    requires t.Ternary? && m.bools != [] && Inv(ops, y.o, m)
    requires y.End() <= |ops| && ops[y.o] == TernaryOp && ops[y.o + 1] == Skip(|y.e1| + 1)
    requires Grows(StackAt(ops, y.o + 1), StackAt(ops, y.Left()), 0)
    requires Grows(StackAt(ops, y.o + 1), StackAt(ops, y.Right()), 0)
    ensures m' == m.(bools := m.bools[..|m.bools| - 1])
    ensures var pc := if m.bools[|m.bools| - 1] then y.Left() else y.Right();
            Run(ops, consts, env, y.o, m) == Run(ops, consts, env, pc, m') && Inv(ops, pc, m')
  {
    hide StackAt, PeakAt, Assigned, Embeds, Sum;
    m' := Exec(ops[y.o], consts, env, m).0;
    StepEmbeds(ops, y.o, consts, env, m);
    if m.bools[|m.bools| - 1] {
      MoveInv(ops, y.o + 1, y.Left(), m');
    } else {
      MoveInv(ops, y.o + 1, y.Right(), m');
      RunSkip(ops, consts, env, y.o + 1, m');
    }
  }

  /** A unary operation is its operand followed by one op. */
  lemma UnarySyntax(t: Tree, base: nat, env: Env)
    requires t.Operation? && IsUnary(t.op) && TypeOf(t).Some?
    ensures var u := Operand(t.left, t.right);
            && u < t && TypeOf(u) == Some(ArgType(t.op))
            && Comp(t, base, env.ops) == Comp(u, base, env.ops) + [OpFor(t.op)] && Consts(t) == Consts(u)
            && Eval(t, env) == Apply(t.op, NoValue, Eval(u, env), env)
  {
    assert LeftOps(t.op, t.left, base, env.ops) + Comp(t.right, base + |LeftConsts(t.op, t.left)|, env.ops)
        == Comp(Operand(t.left, t.right), base, env.ops);
    assert Consts(t) == Consts(Operand(t.left, t.right));
  }

  lemma {:induction false} RunUnary(t: Tree, base: nat, ops: seq<Op>, consts: seq<Data>, env: Env, off: nat, m: Machine)
    returns (m': Machine)
    requires t.Operation? && IsUnary(t.op) && Here(t, base, ops, consts, env, off, m)
    ensures Done(t, base, ops, consts, env, off, m, m')
    decreases t, 0
  {
    hide *;
    HereParts(t, base, ops, consts, env, off, m);
    UnarySyntax(t, base, env);
    var u := Operand(t.left, t.right);
    var cu := Comp(u, base, env.ops);
    var st0 := StackAt(ops, off);
    SegSplit(ops, off, cu, [OpFor(t.op)]);
    WalkTree(u, base, env.ops, ops, off);
    IsHere(u, base, ops, consts, env, off, m);
    var m1 := RunTree(u, base, ops, consts, env, off, m);
    DoneParts(u, base, ops, consts, env, off, m, m1);
    EvalHasType(u, env);
    OneLoaded(t.op, m, m1, Eval(u, env), Sum(st0.value));
    OneGrows(t.op, st0, StackAt(ops, off + |cu|));
    m' := RunOperator(t.op, ops, off + |cu|, consts, env, m, m1, NoValue, Eval(u, env), st0);
    IsDone(t, base, ops, consts, env, off, m, m');
  }

  lemma HereParts(t: Tree, base: nat, ops: seq<Op>, consts: seq<Data>, env: Env, off: nat, m: Machine)
    requires Here(t, base, ops, consts, env, off, m)
    ensures TypeOf(t).Some? && Seg(ops, off, Comp(t, base, env.ops)) && ConstSeg(consts, base, Consts(t))
    ensures Inv(ops, off, m) && StackAt(ops, off).Some?
  {
  }

  lemma IsHere(t: Tree, base: nat, ops: seq<Op>, consts: seq<Data>, env: Env, off: nat, m: Machine)
    requires TypeOf(t).Some? && Seg(ops, off, Comp(t, base, env.ops)) && ConstSeg(consts, base, Consts(t))
    requires Inv(ops, off, m)
    ensures Here(t, base, ops, consts, env, off, m)
  {
  }

  lemma DoneParts(t: Tree, base: nat, ops: seq<Op>, consts: seq<Data>, env: Env, off: nat, m: Machine, m': Machine)
    requires Done(t, base, ops, consts, env, off, m, m')
    ensures var end := off + |Comp(t, base, env.ops)|;
            Run(ops, consts, env, off, m) == Run(ops, consts, env, end, m') && Inv(ops, end, m')
    ensures StackAt(ops, off).Some? && Pushed(m, m', Eval(t, env), Sum(StackAt(ops, off).value))
  {
    hide Run, Inv, Comp, Pushed, Eval, StackAt, Sum;
  }

  lemma IsDone(t: Tree, base: nat, ops: seq<Op>, consts: seq<Data>, env: Env, off: nat, m: Machine, m': Machine)
    requires var end := off + |Comp(t, base, env.ops)|;
             Run(ops, consts, env, off, m) == Run(ops, consts, env, end, m') && Inv(ops, end, m')
    requires StackAt(ops, off).Some? && Pushed(m, m', Eval(t, env), Sum(StackAt(ops, off).value))
    ensures Done(t, base, ops, consts, env, off, m, m')
  {
  }

  lemma OneLoaded(op: Operator, m: Machine, m1: Machine, b: Value, f: nat)
    requires IsUnary(op) && HasType(b, ArgType(op)) && Pushed(m, m1, b, f)
    ensures Loaded(op, m, m1, NoValue, b)
    ensures forall r | 0 <= r < f && r < |m1.temps| && r < |m.temps| :: m1.temps[r] == m.temps[r]
  {
  }

  /** The first operand of a binary operation: a tree, or the 0 of a sign. */
  function LeftValue(t: Tree, env: Env): Value
    requires t.Operation?
  {
    if t.left.Null? then DataV(0) else Eval(t.left, env)
  }

  lemma BinarySyntax(t: Tree, base: nat, env: Env)
    requires t.Operation? && !IsUnary(t.op) && TypeOf(t).Some?
    ensures TypeOf(t.right) == Some(ArgType(t.op)) && TypeOf(LeftTree(t)) == Some(ArgType(t.op))
    ensures Comp(t, base, env.ops) ==
            Comp(LeftTree(t), base, env.ops) + Comp(t.right, base + |Consts(LeftTree(t))|, env.ops) + [OpFor(t.op)]
    ensures Consts(t) == Consts(LeftTree(t)) + Consts(t.right)
  {
    LeftSyntax(t, base, env.ops);
    hide LeftOps, LeftConsts, OpFor;
  }

  lemma LeftSyntax(t: Tree, base: nat, data: DataOps)
    requires t.Operation? && (t.left.Null? ==> IsSignOp(t.op))
    ensures LeftOps(t.op, t.left, base, data) == Comp(LeftTree(t), base, data)
    ensures LeftConsts(t.op, t.left) == Consts(LeftTree(t))
  {
  }

  lemma BinaryMeaning(t: Tree, env: Env)
    requires t.Operation? && !IsUnary(t.op) && TypeOf(t).Some?
    ensures LeftValue(t, env) == Eval(LeftTree(t), env)
    ensures Eval(t, env) == Apply(t.op, LeftValue(t, env), Eval(t.right, env), env)
  {
  }

  /** A sign with no left operand compiles as if it had a literal 0 there. */
  function LeftTree(t: Tree): Tree
    requires t.Operation?
  {
    if t.left.Null? then Hexstr(0) else t.left
  }

  lemma {:induction false} RunBinary(t: Tree, base: nat, ops: seq<Op>, consts: seq<Data>, env: Env, off: nat,
                                     m: Machine)
    returns (m': Machine)
    requires t.Operation? && !IsUnary(t.op) && Here(t, base, ops, consts, env, off, m)
    ensures Done(t, base, ops, consts, env, off, m, m')
    decreases t, 0
  {
    hide *;
    HereParts(t, base, ops, consts, env, off, m);
    BinarySyntax(t, base, env);
    BinaryMeaning(t, env);
    var lt := LeftTree(t);
    var lc, base' := Comp(lt, base, env.ops), base + |Consts(lt)|;
    var rc, mid := Comp(t.right, base', env.ops), off + |lc|;
    var a, b := Eval(lt, env), Eval(t.right, env);
    SegSplit(ops, off, lc + rc, [OpFor(t.op)]);
    SegSplit(ops, off, lc, rc);
    ConstSplit(consts, base, Consts(lt), Consts(t.right));
    WalkTree(lt, base, env.ops, ops, off);
    OneGrows(t.op, StackAt(ops, off), StackAt(ops, mid));
    WalkTree(t.right, base', env.ops, ops, mid);
    var m1 := RunLeft(t, base, ops, consts, env, off, m);
    DoneParts(lt, base, ops, consts, env, off, m, m1);
    IsHere(t.right, base', ops, consts, env, mid, m1);
    var m2 := RunTree(t.right, base', ops, consts, env, mid, m1);
    DoneParts(t.right, base', ops, consts, env, mid, m1, m2);
    EvalHasType(lt, env);
    EvalHasType(t.right, env);
    BothGrow(t.op, StackAt(ops, off), StackAt(ops, mid), StackAt(ops, mid + |rc|));
    LastBelow(ops, mid, m1);
    BothLoaded(t.op, m, m1, m2, a, b, Sum(StackAt(ops, off).value), Sum(StackAt(ops, mid).value));
    m' := RunOperator(t.op, ops, mid + |rc|, consts, env, m, m2, a, b, StackAt(ops, off));
    IsDone(t, base, ops, consts, env, off, m, m');
  }

  lemma OneGrows(op: Operator, s0: Option<seq<nat>>, s1: Option<seq<nat>>)
    requires Grows(s0, s1, Entries(ArgType(op)))
    ensures s0.Some? && s1.Some? && (IsUnary(op) ==> Grows(s0, s1, StaticPops(OpFor(op))))
  {
  }

  lemma BothGrow(op: Operator, s0: Option<seq<nat>>, s1: Option<seq<nat>>, s2: Option<seq<nat>>)
    requires Grows(s0, s1, Entries(ArgType(op))) && Grows(s1, s2, Entries(ArgType(op)))
    ensures Grows(s0, s2, StaticPops(OpFor(op)))
    ensures s0.Some? && s1.Some? && Sum(s0.value) <= Sum(s1.value)
  {
    PrefixSum(s0.value, s1.value);
  }

  lemma {:induction false} RunLeft(t: Tree, base: nat, ops: seq<Op>, consts: seq<Data>, env: Env, off: nat, m: Machine)
    returns (m': Machine)
    requires t.Operation? && !IsUnary(t.op) && TypeOf(t).Some? && Here(LeftTree(t), base, ops, consts, env, off, m)
    ensures Done(LeftTree(t), base, ops, consts, env, off, m, m')
    decreases t.left, 2
  {
    if t.left.Null? {
      m' := RunLeaf(Hexstr(0), base, ops, consts, env, off, m);
    } else {
      m' := RunTree(t.left, base, ops, consts, env, off, m);
    }
  }

  lemma LastBelow(ops: seq<Op>, i: nat, m: Machine)
    requires Inv(ops, i, m)
    ensures m.datas != [] && m.datas[|m.datas| - 1].Temp? ==>
              StackAt(ops, i).Some? && m.datas[|m.datas| - 1].reg < Sum(StackAt(ops, i).value)
  {
    if m.datas != [] {
      EmbedsBelow(m.datas, StackAt(ops, i).value, |m.datas| - 1);
    }
  }

  /** The second operand leaves the temporary of the first alone. */
  lemma BothLoaded(op: Operator, m: Machine, m1: Machine, m2: Machine, a: Value, b: Value, f: nat, f1: nat)
    requires !IsUnary(op) && HasType(a, ArgType(op)) && HasType(b, ArgType(op))
    requires Pushed(m, m1, a, f) && Pushed(m1, m2, b, f1) && f <= f1
    requires m1.datas != [] && m1.datas[|m1.datas| - 1].Temp? ==> m1.datas[|m1.datas| - 1].reg < f1
    ensures Loaded(op, m, m2, a, b)
    ensures forall r | 0 <= r < f && r < |m2.temps| && r < |m.temps| :: m2.temps[r] == m.temps[r]
  {
    if ArgType(op).DataT? {
      assert m2.datas[..|m1.datas|][..|m.datas|] == m2.datas[..|m.datas|];
      assert m2.datas[..|m1.datas|][|m.datas|] == m2.datas[|m.datas|];
    }
  }
}
