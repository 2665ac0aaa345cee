/** The expression language of the symbolic engine (class `Expr` and its
    subclasses, `Array`, `UpdateNode`, `UpdateList`) and its meaning: the value
    of an expression under an assignment of input bytes. */
module Exprs {
  import opened Bits

  const BOOL: nat := 1
  const INT8: nat := 8
  const INT32: nat := 32

  type Byte = b: Bits | |b| == INT8 witness Zeros(INT8)

  /** An array is symbolic when it has no constant contents. */
  datatype RawArray = Array(name: string, size: nat, constantValues: seq<Byte>) {
    predicate IsConstantArray() { constantValues != [] }
    predicate Valid() { IsConstantArray() ==> |constantValues| == size }
  }

  type Array = r: RawArray | r.Valid() witness Array("", 0, [])

  datatype BinOp =
    | Add | Sub | Mul | UDiv | SDiv | URem | SRem
    | And | Or | Xor | Shl | LShr | AShr
    | Eq | Ne | Ult | Ule | Ugt | Uge | Slt | Sle | Sgt | Sge
  {
    predicate IsCompare() {
      Eq? || Ne? || Ult? || Ule? || Ugt? || Uge? || Slt? || Sle? || Sgt? || Sge?
    }
    predicate IsDivision() { UDiv? || SDiv? || URem? || SRem? }
  }

  datatype Expr =
    | Constant(value: Bits)
    | NotOptimized(src: Expr)
    | Read(root: RawArray, head: Updates, index: Expr)
    | Select(cond: Expr, trueExpr: Expr, falseExpr: Expr)
    | Concat(left: Expr, right: Expr)
    | Extract(expr: Expr, offset: nat, width: nat)
    | ZExt(src: Expr, width: nat)
    | SExt(src: Expr, width: nat)
    | Not(expr: Expr)
    | Binary(op: BinOp, left: Expr, right: Expr)

  /** A list of byte writes, the most recent first. */
  datatype Updates = NoUpdates | Update(index: Expr, value: Expr, next: Updates)

  const True: Expr := Constant([true])
  const False: Expr := Constant([false])

  function Width(e: Expr): nat {
    match e
    case Constant(v) => |v|
    case NotOptimized(s) => Width(s)
    case Read(_, _, _) => INT8
    case Select(_, t, _) => Width(t)
    case Concat(l, r) => Width(l) + Width(r)
    case Extract(_, _, w) => w
    case ZExt(_, w) => w
    case SExt(_, w) => w
    case Not(s) => Width(s)
    case Binary(op, l, _) => if op.IsCompare() then BOOL else Width(l)
  }

  predicate WF(e: Expr)
    ensures WF(e) ==> Width(e) >= 1
  {
    match e
    case Constant(v) => |v| >= 1
    case NotOptimized(s) => WF(s)
    case Read(root, head, index) => root.Valid() && WFUpdates(head) && WF(index) && Width(index) == INT32
    case Select(c, t, f) => WF(c) && WF(t) && WF(f) && Width(c) == BOOL && Width(t) == Width(f)
    case Concat(l, r) => WF(l) && WF(r)
    case Extract(s, off, w) => WF(s) && w >= 1 && off + w <= Width(s)
    case ZExt(s, w) => WF(s) && Width(s) < w
    case SExt(s, w) => WF(s) && Width(s) < w
    case Not(s) => WF(s)
    case Binary(_, l, r) => WF(l) && WF(r) && Width(l) == Width(r)
  }

  predicate WFUpdates(u: Updates) {
    match u
    case NoUpdates => true
    case Update(index, value, next) =>
      WF(index) && Width(index) == INT32 && WF(value) && Width(value) == INT8 && WFUpdates(next)
  }

  /** The expressions the engine builds: widths agree and fit. */
  type Term = e: Expr | WF(e) witness True
  type Formula = e: Expr | WF(e) && Width(e) == BOOL witness True
  type WriteList = u: Updates | WFUpdates(u) witness NoUpdates

  // ----- meaning -----

  type Assignment = (Array, nat) -> Byte

  /** Division by zero is undefined in the engine. The value given to it here is
      the one the one-bit constructors pick, and 0 at every other width. */
  function ApplyDivision(op: BinOp, x: Bits, y: Bits): (v: Bits)
    requires op.IsDivision() && |x| == |y| >= 1
    ensures |v| == |x|
  {
    SignedZero(y);
    if ToNat(y) == 0 then (if |x| == 1 && (op == UDiv || op == SDiv) then x else Zeros(|x|))
    else if op == UDiv then FromInt(Over(ToNat(x), ToNat(y)), |x|)
    else if op == URem then FromInt(TruncRem(ToNat(x), ToNat(y)), |x|)
    else if op == SDiv then FromInt(TruncOver(Signed(x), Signed(y)), |x|)
    else FromInt(TruncRem(Signed(x), Signed(y)), |x|)
  }

  predicate Compare(op: BinOp, x: Bits, y: Bits)
    requires op.IsCompare() && |x| == |y| >= 1
  {
    match op
    case Eq => x == y
    case Ne => x != y
    case Ult => ToNat(x) < ToNat(y)
    case Ule => ToNat(x) <= ToNat(y)
    case Ugt => ToNat(x) > ToNat(y)
    case Uge => ToNat(x) >= ToNat(y)
    case Slt => Signed(x) < Signed(y)
    case Sle => Signed(x) <= Signed(y)
    case Sgt => Signed(x) > Signed(y)
    case Sge => Signed(x) >= Signed(y)
  }

  /** The value of a binary operation on two values of one width. */
  function Apply(op: BinOp, x: Bits, y: Bits): (v: Bits)
    requires |x| == |y| >= 1
    ensures |v| == if op.IsCompare() then BOOL else |x|
  {
    if op.IsCompare() then [Compare(op, x, y)]
    else if op.IsDivision() then ApplyDivision(op, x, y)
    else match op
      case Add => Plus(x, y)
      case Sub => Minus(x, y)
      case Mul => Product(x, y)
      case And => AndBits(x, y)
      case Or => OrBits(x, y)
      case Xor => XorBits(x, y)
      case Shl => ShiftLeft(x, ToNat(y))
      case LShr => ShiftRight(x, ToNat(y), false)
      case AShr => ShiftRight(x, ToNat(y), x[|x| - 1])
  }

  function Eval(e: Term, a: Assignment): (v: Bits)
    ensures |v| == Width(e)
    decreases e
  {
    match e
    case Constant(v) => v
    case NotOptimized(s) => Eval(s, a)
    case Read(root, head, index) => ReadAt(root, head, Eval(index, a), a)
    case Select(c, t, f) => if Eval(c, a)[0] then Eval(t, a) else Eval(f, a)
    case Concat(l, r) => Eval(r, a) + Eval(l, a)
    case Extract(s, off, w) => Eval(s, a)[off..off + w]
    case ZExt(s, w) => ZeroExtend(Eval(s, a), w)
    case SExt(s, w) => SignExtend(Eval(s, a), w)
    case Not(s) => NotBits(Eval(s, a))
    case Binary(op, l, r) => Apply(op, Eval(l, a), Eval(r, a))
  }

  /** The byte an update list holds at cell `i`: the most recent write to that
      cell, else the array's own content. */
  function ReadAt(root: Array, head: WriteList, i: Bits, a: Assignment): (v: Byte)
    decreases head
  {
    match head
    case NoUpdates => InitialByte(root, ToNat(i), a)
    case Update(index, value, next) =>
      if Eval(index, a) == i then Eval(value, a) else ReadAt(root, next, i, a)
  }

  /** A read past the end of a constant array is never made by the engine; it is
      given the value 0. */
  function InitialByte(root: Array, i: nat, a: Assignment): Byte
  {
    if !root.IsConstantArray() then a(root, i)
    else if i < root.size then root.constantValues[i]
    else Zeros(INT8)
  }

  /** A Boolean expression holds under an assignment. */
  predicate Holds(e: Formula, a: Assignment)
  {
    Eval(e, a)[0]
  }

  // ----- constraint sets -----

  ghost predicate Sat(c: set<Formula>, a: Assignment) {
    forall e :: e in c ==> Holds(e, a)
  }

  ghost predicate Satisfiable(c: set<Formula>) {
    exists a: Assignment :: Sat(c, a)
  }
}
