/** From trees to ops, and the proof that running the ops means the tree. */
module Compiler {
  import opened ExpressionSyntax
  import opened StackMachine
  import opened Wrappers

  function OpFor(op: Operator): Op {
    match op
    case Arith(a) => ArithOp(a, 0)
    case Compare(c) => CompareOp(c)
    case And => AndOp
    case Or => OrOp
    case Not => NotOp
    case BitNeg => BitNegOp(0)
    case ValidHeader => ValidHeaderOp
    case DataToBool => DataToBoolOp
    case BoolToData => BoolToDataOp(0)
  }

  /** The constants a tree needs, in the order in which they are pushed. */
  function Consts(t: Tree): seq<Data>
    decreases t, 0
  {
    match t
    case Hexstr(d) => [d]
    case Register(_, i) => if i.Hexstr? then [] else Consts(i)
    case Ternary(c, l, r) => Consts(c) + Consts(l) + Consts(r)
    case Operation(op, l, r) => LeftConsts(op, l) + Consts(r)
    case _ => []
  }

  /** A sign with no left operand has the constant 0 there. */
  function LeftConsts(op: Operator, l: Tree): seq<Data>
    decreases l, 1
  {
    if IsSignOp(op) && l.Null? then [0] else Consts(l)
  }

  /** The ops of a tree whose first constant has index `base`. */
  function Comp(t: Tree, base: nat, data: DataOps): seq<Op>
    decreases t, 0
  {
    match t
    case Null => []
    case HeaderRef(h) => [LoadHeader(h)]
    case FieldRef(h, f) => [LoadField(h, f)]
    case BoolConst(b) => [LoadBool(b)]
    case Hexstr(d) => [LoadConst(base)]
    case Local(o) => [LoadLocal(o)]
    case Register(a, i) =>
      if i.Hexstr? then [LoadRegisterRef(a, data.toUint(i.value))]
      else Comp(i, base, data) + [LoadRegisterGen(a)]
    case Ternary(c, l, r) =>
      Comp(c, base, data) + Branches(Comp(l, base + |Consts(c)|, data), Comp(r, base + |Consts(c)| + |Consts(l)|, data))
    case Operation(op, l, r) =>
      LeftOps(op, l, base, data) + Comp(r, base + |LeftConsts(op, l)|, data) + [OpFor(op)]
  }

  function LeftOps(op: Operator, l: Tree, base: nat, data: DataOps): seq<Op>
    decreases l, 1
  {
    if IsSignOp(op) && l.Null? then [LoadConst(base)] else Comp(l, base, data)
  }

  function Branches(e1: seq<Op>, e2: seq<Op>): seq<Op> {
    [TernaryOp, Skip(|e1| + 1)] + e1 + [Skip(|e2|)] + e2
  }

  /** `code` sits in `ops` at `off`, whatever temporaries its ops carry. */
  ghost predicate Seg(ops: seq<Op>, off: nat, code: seq<Op>) {
    off + |code| <= |ops| && forall i | 0 <= i < |code| :: SameCode(ops[off + i], code[i])
  }

  lemma SegSplit(ops: seq<Op>, off: nat, a: seq<Op>, b: seq<Op>)
    requires Seg(ops, off, a + b)
    ensures Seg(ops, off, a) && Seg(ops, off + |a|, b)
  {
    forall i | 0 <= i < |a| ensures SameCode(ops[off + i], a[i]) {
      assert (a + b)[i] == a[i];
    }
    forall i | 0 <= i < |b| ensures SameCode(ops[off + |a| + i], b[i]) {
      assert (a + b)[|a| + i] == b[i];
      assert SameCode(ops[off + (|a| + i)], (a + b)[|a| + i]);
    }
  }

  ghost predicate ConstSeg(consts: seq<Data>, base: nat, cs: seq<Data>) {
    base + |cs| <= |consts| && consts[base..base + |cs|] == cs
  }

  lemma ConstSplit(consts: seq<Data>, base: nat, a: seq<Data>, b: seq<Data>)
    requires ConstSeg(consts, base, a + b)
    ensures ConstSeg(consts, base, a) && ConstSeg(consts, base + |a|, b)
  {
    var s := consts[base..base + |a + b|];
    assert s[..|a|] == a && s[|a|..] == b;
    assert consts[base..base + |a|] == s[..|a|];
    assert consts[base + |a|..base + |a| + |b|] == s[|a|..];
  }

  // ----- what the walk does over a tree's ops -----

  /** The walk's stack keeps what it had, under at least `n` more entries. */
  ghost predicate Grows(st: Option<seq<nat>>, st': Option<seq<nat>>, n: nat) {
    st.Some? && st'.Some? && st.value <= st'.value && |st.value| + n <= |st'.value|
  }

  function Entries(ty: Ty): nat {
    if ty.DataT? then 1 else 0
  }

  lemma WalkOp(ops: seq<Op>, off: nat, op: Op, st: Option<seq<nat>>)
    requires Seg(ops, off, [op])
    requires Grows(st, StackAt(ops, off), StaticPops(op))
    ensures Grows(st, StackAt(ops, off + 1), |StaticPush(op)|)
  {
    assert SameCode(ops[off + 0], [op][0]);
    SameCodeWalksAlike(ops[off], op);
  }

  lemma SegBranches(ops: seq<Op>, off: nat, e1: seq<Op>, e2: seq<Op>)
    requires Seg(ops, off, Branches(e1, e2))
    ensures off + |e1| + |e2| + 3 <= |ops|
    ensures ops[off] == TernaryOp && ops[off + 1] == Skip(|e1| + 1)
    ensures ops[off + 2 + |e1|] == Skip(|e2|)
    ensures Seg(ops, off, [TernaryOp]) && Seg(ops, off + 1, [Skip(|e1| + 1)])
    ensures Seg(ops, off + 2, e1) && Seg(ops, off + 2 + |e1|, [Skip(|e2|)])
    ensures Seg(ops, off + 3 + |e1|, e2)
  {
    SegSplit(ops, off, [TernaryOp, Skip(|e1| + 1)] + e1 + [Skip(|e2|)], e2);
    SegSplit(ops, off, [TernaryOp, Skip(|e1| + 1)] + e1, [Skip(|e2|)]);
    SegSplit(ops, off, [TernaryOp, Skip(|e1| + 1)], e1);
    assert [TernaryOp, Skip(|e1| + 1)] == [TernaryOp] + [Skip(|e1| + 1)];
    SegSplit(ops, off, [TernaryOp], [Skip(|e1| + 1)]);
    assert SameCode(ops[off + 0], [TernaryOp][0]);
    assert SameCode(ops[off + 1 + 0], [Skip(|e1| + 1)][0]);
    assert SameCode(ops[off + 2 + |e1| + 0], [Skip(|e2|)][0]);
  }

  /** The pieces of the code of a `?`: where its parts start and end. */
  datatype Layout = Layout(cc: seq<Op>, e1: seq<Op>, e2: seq<Op>, bl: nat, br: nat, o: nat) {
    function Left(): nat { o + 2 }
    function LeftEnd(): nat { o + 2 + |e1| }
    function Right(): nat { o + 3 + |e1| }
    function End(): nat { o + 3 + |e1| + |e2| }
  }

  function LayoutOf(t: Tree, base: nat, data: DataOps, off: nat): Layout
    requires t.Ternary?
  {
    var bl := base + |Consts(t.cond)|;
    var br := bl + |Consts(t.left)|;
    var cc := Comp(t.cond, base, data);
    Layout(cc, Comp(t.left, bl, data), Comp(t.right, br, data), bl, br, off + |cc|)
  }

  lemma TernarySegs(t: Tree, base: nat, data: DataOps, ops: seq<Op>, off: nat)
    requires t.Ternary? && Seg(ops, off, Comp(t, base, data))
    ensures var y := LayoutOf(t, base, data, off);
            && y.End() == off + |Comp(t, base, data)| <= |ops|
            && Seg(ops, off, y.cc) && Seg(ops, y.Left(), y.e1) && Seg(ops, y.Right(), y.e2)
            && ops[y.o] == TernaryOp && ops[y.o + 1] == Skip(|y.e1| + 1) && ops[y.LeftEnd()] == Skip(|y.e2|)
            && Seg(ops, y.o, [TernaryOp]) && Seg(ops, y.o + 1, [Skip(|y.e1| + 1)])
            && Seg(ops, y.LeftEnd(), [Skip(|y.e2|)])
  {
    var y := LayoutOf(t, base, data, off);
    hide Seg;
    SegSplit(ops, off, y.cc, Branches(y.e1, y.e2));
    SegBranches(ops, y.o, y.e1, y.e2);
  }

  /** Over the ops of a typed tree the walk never pops an empty stack, nor
      anything that was there before. */
  lemma {:induction false} WalkTree(t: Tree, base: nat, data: DataOps, ops: seq<Op>, off: nat)
    requires TypeOf(t).Some?
    requires Seg(ops, off, Comp(t, base, data)) && StackAt(ops, off).Some?
    ensures Grows(StackAt(ops, off), StackAt(ops, off + |Comp(t, base, data)|), Entries(TypeOf(t).value))
    decreases t, 1
  {
    hide StackAt, Seg;
    var st := StackAt(ops, off);
    match t {
      case Register(a, i) =>
        if i.Hexstr? {
          WalkOp(ops, off, LoadRegisterRef(a, data.toUint(i.value)), st);
        } else {
          SegSplit(ops, off, Comp(i, base, data), [LoadRegisterGen(a)]);
          WalkTree(i, base, data, ops, off);
          WalkOp(ops, off + |Comp(i, base, data)|, LoadRegisterGen(a), st);
        }
      case Ternary(c, l, r) =>
        WalkTernary(t, base, data, ops, off);
        TernarySegs(t, base, data, ops, off);
      case Operation(op, l, r) =>
        WalkOperation(t, base, data, ops, off);
      case Null =>
      case HeaderRef(_) | FieldRef(_, _) | BoolConst(_) | Hexstr(_) | Local(_) =>
        WalkOp(ops, off, Comp(t, base, data)[0], st);
    }
  }

  /** The walk's stack at a branch, and after it, extends what it was at the jump there. */
  lemma {:induction false} WalkTernary(t: Tree, base: nat, data: DataOps, ops: seq<Op>, off: nat)
    requires t.Ternary? && TypeOf(t).Some?
    requires Seg(ops, off, Comp(t, base, data)) && StackAt(ops, off).Some?
    ensures var y := LayoutOf(t, base, data, off);
            && Grows(StackAt(ops, off), StackAt(ops, y.o), 0)
            && Grows(StackAt(ops, y.o), StackAt(ops, y.o + 1), 0)
            && Grows(StackAt(ops, y.o + 1), StackAt(ops, y.Left()), 0)
            && Grows(StackAt(ops, y.o + 1), StackAt(ops, y.Right()), 0)
            && Grows(StackAt(ops, y.LeftEnd()), StackAt(ops, y.End()), 0)
            && Grows(StackAt(ops, y.Right()), StackAt(ops, y.End()), 0)
            && Grows(StackAt(ops, off), StackAt(ops, y.End()), Entries(TypeOf(t).value))
    decreases t, 0
  {
    hide StackAt, Seg, Comp;
    var y := LayoutOf(t, base, data, off);
    TernarySegs(t, base, data, ops, off);
    WalkTree(t.cond, base, data, ops, off);
    WalkOp(ops, y.o, TernaryOp, StackAt(ops, y.o));
    WalkOp(ops, y.o + 1, Skip(|y.e1| + 1), StackAt(ops, y.o + 1));
    WalkTree(t.left, y.bl, data, ops, y.Left());
    WalkOp(ops, y.LeftEnd(), Skip(|y.e2|), StackAt(ops, y.LeftEnd()));
    WalkTree(t.right, y.br, data, ops, y.Right());
  }

  lemma {:induction false} WalkOperation(t: Tree, base: nat, data: DataOps, ops: seq<Op>, off: nat)
    requires t.Operation? && TypeOf(t).Some?
    requires Seg(ops, off, Comp(t, base, data)) && StackAt(ops, off).Some?
    ensures Grows(StackAt(ops, off), StackAt(ops, off + |Comp(t, base, data)|), Entries(TypeOf(t).value))
    decreases t, 0
  {
    hide StackAt, Seg;
    var Operation(op, l, r) := t;
    var st := StackAt(ops, off);
    var lc := LeftOps(op, l, base, data);
    var base' := base + |LeftConsts(op, l)|;
    var rc := Comp(r, base', data);
    SegSplit(ops, off, lc + rc, [OpFor(op)]);
    SegSplit(ops, off, lc, rc);
    if IsSignOp(op) && l.Null? {
      WalkOp(ops, off, LoadConst(base), st);
    } else if !l.Null? {
      WalkTree(l, base, data, ops, off);
    }
    if !r.Null? {
      WalkTree(r, base', data, ops, off + |lc|);
    }
    WalkOp(ops, off + |lc| + |rc|, OpFor(op), st);
  }
}
