/** The expressions of a P4 program as the JSON input spells them, with their
    types and their direct meaning.  The compiler in `Compiler.dfy` is proved
    against `Eval`. */
module ExpressionSyntax {
  import opened Wrappers

  /** A `Data` is an arbitrary-precision integer. */
  type Data = int

  datatype ArithOp =
    | Add | Sub | Mul | ShiftLeft | ShiftRight
    | BitAnd | BitOr | BitXor | TwoCompMod

  datatype CompareOp = Eq | Neq | Gt | Lt | Ge | Le

  /** The operator names of the opcode table, grouped by operand and result types. */
  datatype Operator =
    | Arith(arith: ArithOp)
    | Compare(compare: CompareOp)
    | And | Or | Not
    | BitNeg
    | ValidHeader
    | DataToBool
    | BoolToData

  datatype Tree =
    | Null
    | Operation(op: Operator, left: Tree, right: Tree)
    | Ternary(cond: Tree, left: Tree, right: Tree)
    | HeaderRef(header: int)
    | FieldRef(header: int, fieldOffset: int)
    | BoolConst(b: bool)
    | Hexstr(value: Data)
    | Local(localOffset: int)
    | Register(registerArray: int, index: Tree)

  /** The operations of `Data` that the compiler and the machine only pass values to. */
  datatype DataOps = DataOps(
    arith: (ArithOp, Data, Data) -> Data,
    bitNeg: Data -> Data,
    toUint: Data -> nat,   // get<unsigned int>(), used when the index is a literal
    toSize: Data -> nat    // get<size_t>(), used when the index is computed
  )

  /** What an evaluation reads: the packet, the action data and the register arrays. */
  datatype Env = Env(
    ops: DataOps,
    field: (int, int) -> Data,
    headerValid: int -> bool,
    local: int -> Data,
    register: (int, nat) -> Data
  )

  datatype Ty = DataT | BoolT | HeaderT

  datatype Value = DataV(d: Data) | BoolV(b: bool) | HeaderV(h: int) | NoValue

  function AsData(v: Value): Data { if v.DataV? then v.d else 0 }
  function AsBool(v: Value): bool { v.BoolV? && v.b }
  function AsHeader(v: Value): int { if v.HeaderV? then v.h else 0 }

  function EvalCompare(c: CompareOp, l: Data, r: Data): bool {
    match c
    case Eq => l == r
    case Neq => l != r
    case Gt => l > r
    case Lt => l < r
    case Ge => l >= r
    case Le => l <= r
  }

  /** Unary + and - are spelled with a missing left operand, which stands for 0. */
  predicate IsSignOp(op: Operator) {
    op == Arith(Add) || op == Arith(Sub)
  }

  predicate IsUnary(op: Operator) {
    op.Not? || op.BitNeg? || op.ValidHeader? || op.DataToBool? || op.BoolToData?
  }

  /** The operand of a unary operator, whichever side it is written on. */
  function Operand(left: Tree, right: Tree): Tree {
    if left.Null? then right else left
  }

  function ArgType(op: Operator): Ty {
    match op
    case Arith(_) => DataT
    case Compare(_) => DataT
    case And => BoolT
    case Or => BoolT
    case Not => BoolT
    case BitNeg => DataT
    case ValidHeader => HeaderT
    case DataToBool => DataT
    case BoolToData => BoolT
  }

  function ResultType(op: Operator): Ty {
    match op
    case Arith(_) => DataT
    case BitNeg => DataT
    case BoolToData => DataT
    case _ => BoolT
  }

  function TypeOf(t: Tree): Option<Ty> {
    match t
    case Null => None
    case HeaderRef(_) => Some(HeaderT)
    case FieldRef(_, _) => Some(DataT)
    case BoolConst(_) => Some(BoolT)
    case Hexstr(_) => Some(DataT)
    case Local(_) => Some(DataT)
    case Register(_, i) => if TypeOf(i) == Some(DataT) then Some(DataT) else None
    case Ternary(c, l, r) =>
      if TypeOf(c) == Some(BoolT) && TypeOf(l) == TypeOf(r) then TypeOf(l) else None
    case Operation(op, l, r) =>
      var a := Some(ArgType(op));
      if IsUnary(op) then
        if (l.Null? && TypeOf(r) == a) || (r.Null? && TypeOf(l) == a)
        then Some(ResultType(op)) else None
      else if TypeOf(r) == a && (TypeOf(l) == a || (IsSignOp(op) && l.Null?))
      then Some(ResultType(op)) else None
  }

  /** The direct meaning of a tree: only the selected branch of a `?` counts. */
  function Eval(t: Tree, env: Env): Value {
    match t
    case Null => NoValue
    case HeaderRef(h) => HeaderV(h)
    case FieldRef(h, f) => DataV(env.field(h, f))
    case BoolConst(b) => BoolV(b)
    case Hexstr(d) => DataV(d)
    case Local(o) => DataV(env.local(o))
    case Register(a, Hexstr(d)) => DataV(env.register(a, env.ops.toUint(d)))
    case Register(a, i) => DataV(env.register(a, env.ops.toSize(AsData(Eval(i, env)))))
    case Ternary(c, l, r) => if AsBool(Eval(c, env)) then Eval(l, env) else Eval(r, env)
    case Operation(op, l, r) =>
      if IsUnary(op) then Apply(op, NoValue, Eval(Operand(l, r), env), env)
      else Apply(op, Eval(l, env), Eval(r, env), env)
  }

  /** An operator applied to its operands; a unary one has only the second. */
  function Apply(op: Operator, a: Value, b: Value, env: Env): Value {
    match op
    case Arith(o) => DataV(env.ops.arith(o, AsData(a), AsData(b)))
    case Compare(c) => BoolV(EvalCompare(c, AsData(a), AsData(b)))
    case And => BoolV(AsBool(a) && AsBool(b))
    case Or => BoolV(AsBool(a) || AsBool(b))
    case Not => BoolV(!AsBool(b))
    case BitNeg => DataV(env.ops.bitNeg(AsData(b)))
    case ValidHeader => BoolV(env.headerValid(AsHeader(b)))
    case DataToBool => BoolV(AsData(b) != 0)
    case BoolToData => DataV(if AsBool(b) then 1 else 0)
  }

  predicate HasType(v: Value, ty: Ty) {
    match ty
    case DataT => v.DataV?
    case BoolT => v.BoolV?
    case HeaderT => v.HeaderV?
  }

  /** Type soundness: a typed tree means a value of its type. */
  lemma {:induction false} EvalHasType(t: Tree, env: Env)
    requires TypeOf(t).Some?
    ensures HasType(Eval(t, env), TypeOf(t).value)
  {
    match t {
      case Ternary(c, l, r) =>
        EvalHasType(l, env);
        EvalHasType(r, env);
      case _ =>
    }
  }

  // ----- what each form means -----

  /** The six comparisons, of the left operand with the right one. */
  lemma CompareMeans(l: Tree, r: Tree, env: Env, a: Data, b: Data)
    requires Eval(l, env) == DataV(a) && Eval(r, env) == DataV(b)
    ensures Eval(Operation(Compare(Eq), l, r), env) == BoolV(a == b)
    ensures Eval(Operation(Compare(Neq), l, r), env) == BoolV(!(a == b))
    ensures Eval(Operation(Compare(Gt), l, r), env) == BoolV(b < a)
    ensures Eval(Operation(Compare(Lt), l, r), env) == BoolV(a < b)
    ensures Eval(Operation(Compare(Ge), l, r), env) == BoolV(!(a < b))
    ensures Eval(Operation(Compare(Le), l, r), env) == BoolV(!(b < a))
  {
  }

  /** An operator of the data takes the left operand first.  A sign alone works on 0 and
      its operand. */
  lemma ArithMeans(o: ArithOp, l: Tree, r: Tree, env: Env, a: Data, b: Data)
    requires Eval(l, env) == DataV(a) && Eval(r, env) == DataV(b)
    ensures Eval(Operation(Arith(o), l, r), env) == DataV(env.ops.arith(o, a, b))
    ensures Eval(Operation(Arith(o), Null, r), env) == DataV(env.ops.arith(o, 0, b))
  {
  }

  lemma LogicMeans(l: Tree, r: Tree, env: Env, a: bool, b: bool)
    requires Eval(l, env) == BoolV(a) && Eval(r, env) == BoolV(b)
    ensures Eval(Operation(And, l, r), env) == BoolV(true) <==> a && b
    ensures Eval(Operation(And, l, r), env) == BoolV(false) <==> !a || !b
    ensures Eval(Operation(Or, l, r), env) == BoolV(true) <==> a || b
    ensures Eval(Operation(Or, l, r), env) == BoolV(false) <==> !a && !b
  {
  }

  /** The operand of a unary operator counts on whichever side it is written. */
  lemma UnaryMeans(t: Tree, env: Env)
    requires !t.Null?
    ensures forall op | IsUnary(op) :: Eval(Operation(op, t, Null), env) == Eval(Operation(op, Null, t), env)
    ensures match Eval(t, env) {
              case BoolV(b) =>
                && Eval(Operation(Not, Null, t), env) == BoolV(b == false)
                && Eval(Operation(BoolToData, Null, t), env) == (if b then DataV(1) else DataV(0))
              case DataV(d) =>
                && Eval(Operation(DataToBool, Null, t), env) == BoolV(d < 0 || d > 0)
                && Eval(Operation(BitNeg, Null, t), env) == DataV(env.ops.bitNeg(d))
              case HeaderV(h) => Eval(Operation(ValidHeader, Null, t), env) == BoolV(env.headerValid(h))
              case NoValue => true
            }
  {
  }

  /** A condition selects one branch, and the other does not matter. */
  lemma TernaryMeans(c: Tree, l: Tree, r: Tree, env: Env, b: bool)
    requires Eval(c, env) == BoolV(b)
    ensures Eval(Ternary(c, l, r), env) == if b then Eval(l, env) else Eval(r, env)
  {
    hide Apply, Operand, IsUnary;
  }

  /** Fields, constants and action data are read from their own places.  The index of a
      register is its value, whether it is a literal or computed. */
  lemma LeavesMean(h: int, f: int, d: Data, o: int, b: bool, i: Tree, env: Env)
    requires Eval(i, env) == DataV(d)
    ensures Eval(FieldRef(h, f), env) == DataV(env.field(h, f)) && Eval(HeaderRef(h), env) == HeaderV(h)
    ensures Eval(Hexstr(d), env) == DataV(d) && Eval(BoolConst(b), env) == BoolV(b)
    ensures Eval(Local(o), env) == DataV(env.local(o))
    ensures forall a: int ::
              Eval(Register(a, i), env) ==
              DataV(env.register(a, if i.Hexstr? then env.ops.toUint(d) else env.ops.toSize(d)))
  {
  }

  /** The operands that each operator takes, and that nothing else is typed. */
  lemma TypedOperations(op: Operator, l: Tree, r: Tree)
    ensures TypeOf(Operation(op, l, r)).Some? <==>
            match op {
              case Arith(o) =>
                TypeOf(r) == Some(DataT) && (TypeOf(l) == Some(DataT) || (l.Null? && o in {Add, Sub}))
              case Compare(_) => TypeOf(l) == Some(DataT) && TypeOf(r) == Some(DataT)
              case And => TypeOf(l) == Some(BoolT) && TypeOf(r) == Some(BoolT)
              case Or => TypeOf(l) == Some(BoolT) && TypeOf(r) == Some(BoolT)
              case Not => OneIs(BoolT, l, r)
              case BoolToData => OneIs(BoolT, l, r)
              case BitNeg => OneIs(DataT, l, r)
              case DataToBool => OneIs(DataT, l, r)
              case ValidHeader => OneIs(HeaderT, l, r)
            }
    ensures TypeOf(Operation(op, l, r)).Some? ==>
              TypeOf(Operation(op, l, r)) ==
              Some(if op.Arith? || op in {BitNeg, BoolToData} then DataT else BoolT)
  {
  }

  /** All other trees: a condition chooses between two of a type, and an index is a number. */
  lemma TypedTrees(t: Tree, c: Tree, l: Tree, r: Tree)
    ensures TypeOf(Ternary(c, l, r)).Some? <==>
            TypeOf(c) == Some(BoolT) && TypeOf(l) == TypeOf(r) && TypeOf(r) != None
    ensures TypeOf(Ternary(c, l, r)).Some? ==> TypeOf(Ternary(c, l, r)) == TypeOf(r)
    ensures t.FieldRef? || t.Hexstr? || t.Local? ==> TypeOf(t) == Some(DataT)
    ensures t.BoolConst? ==> TypeOf(t) == Some(BoolT)
    ensures t.HeaderRef? ==> TypeOf(t) == Some(HeaderT)
    ensures t.Register? ==> TypeOf(t) == if TypeOf(t.index) == Some(DataT) then Some(DataT) else None
  {
  }

  /** One operand has the type, and the other is left out. */
  predicate OneIs(ty: Ty, l: Tree, r: Tree) {
    (l.Null? && TypeOf(r) == Some(ty)) || (r.Null? && TypeOf(l) == Some(ty))
  }
}
