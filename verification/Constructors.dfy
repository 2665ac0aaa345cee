/** The remaining `create` functions of lib/Expr/Expr.cpp with two operands
    (products, quotients, shifts, comparisons), `SelectExpr::create` and
    `NotExpr::create`, and one statement for all binary kinds. */
module Constructors {
  import opened Bits
  import opened Exprs
  import opened SmartConstructors
  import opened ArithmeticConstructors

  function MulPartialR(c: Term, r: Term): (e: Term)
    requires c.Constant? && Width(c) == Width(r)
    ensures Width(e) == Width(c)
  {
    if Width(c) == BOOL then AndPartial(r, c)
    else if c.value == FromInt(1, Width(c)) then r
    else if IsZeroConst(c) then c
    else Binary(Mul, c, r)
  }

  function MulCreate(l: Term, r: Term): (e: Term)
    requires Width(l) == Width(r)
    ensures Width(e) == Width(l)
  {
    if l.Constant? && r.Constant? then Fold(Mul, l, r)
    else if l.Constant? then MulPartialR(l, r)
    else if r.Constant? then MulPartialR(r, l)
    else if Width(l) == BOOL then Binary(And, l, r)
    else Binary(Mul, l, r)
  }

  function DivisionCreate(op: BinOp, l: Term, r: Term): (e: Term)
    requires Width(l) == Width(r) && op.IsDivision()
    ensures Width(e) == Width(l)
  {
    if l.Constant? && r.Constant? then Fold(op, l, r)
    else if Width(l) != BOOL then Binary(op, l, r)
    else if op == UDiv || op == SDiv then l   // the divisor must be 1
    else False
  }

  function ShiftCreate(op: BinOp, l: Term, r: Term): (e: Term)
    requires Width(l) == Width(r) && (op == Shl || op == LShr || op == AShr)
    ensures Width(e) == Width(l)
  {
    if l.Constant? && r.Constant? then Fold(op, l, r)
    else if Width(l) != BOOL then Binary(op, l, r)
    else if op == AShr then l
    else AndCreate(l, IsZero(r))
  }

  /** `UltExpr`, `UleExpr`, `SltExpr` and `SleExpr`. */
  function OrderCreate(op: BinOp, l: Term, r: Term): (e: Formula)
    requires Width(l) == Width(r) && (op == Ult || op == Ule || op == Slt || op == Sle)
  {
    if l.Constant? && r.Constant? then Fold(op, l, r)
    else if Width(l) != BOOL then Binary(op, l, r)
    else if op == Ult then AndCreate(IsZero(l), r)
    else if op == Ule then OrCreate(IsZero(l), r)
    else if op == Slt then AndCreate(l, IsZero(r))
    else OrCreate(l, IsZero(r))
  }

  function CompareCreate(op: BinOp, l: Term, r: Term): (e: Formula)
    requires Width(l) == Width(r) && op.IsCompare()
  {
    match op
    case Eq => EqCreate(l, r)
    case Ne => NeCreate(l, r)
    case Ult => OrderCreate(Ult, l, r)
    case Ule => OrderCreate(Ule, l, r)
    case Ugt => OrderCreate(Ult, r, l)
    case Uge => OrderCreate(Ule, r, l)
    case Slt => OrderCreate(Slt, l, r)
    case Sle => OrderCreate(Sle, l, r)
    case Sgt => OrderCreate(Slt, r, l)
    case Sge => OrderCreate(Sle, r, l)
  }

  /** `XExpr::create(l, r)` for every binary kind `X`. */
  function Create(op: BinOp, l: Term, r: Term): (e: Term)
    requires Width(l) == Width(r)
    ensures Width(e) == if op.IsCompare() then BOOL else Width(l)
  {
    if op.IsCompare() then CompareCreate(op, l, r)
    else if op.IsDivision() then DivisionCreate(op, l, r)
    else if op == Shl || op == LShr || op == AShr then ShiftCreate(op, l, r)
    else match op
      case Add => AddCreate(l, r)
      case Sub => SubCreate(l, r)
      case Mul => MulCreate(l, r)
      case And => AndCreate(l, r)
      case Or => OrCreate(l, r)
      case Xor => XorCreate(l, r)
  }

  function NotCreate(e: Term): (r: Term)
    ensures Width(r) == Width(e)
  {
    if e.Constant? then Constant(NotBits(e.value)) else Not(e)
  }

  function SelectCreate(c: Formula, t: Term, f: Term): (e: Term)
    requires Width(t) == Width(f)
    ensures Width(e) == Width(t)
  {
    if c.Constant? then (if c == True then t else f)
    else if t == f then t
    else if Width(t) == BOOL && t.Constant? then
      if t == True then OrCreate(c, f) else AndCreate(IsZero(c), f)
    else if Width(t) == BOOL && f.Constant? then
      if f == True then OrCreate(IsZero(c), t) else AndCreate(c, t)
    else Select(c, t, f)
  }

  // ----- each keeps the value of the plain node -----

  lemma MulPartialRSound(c: Term, r: Term, a: Assignment)
    requires c.Constant? && Width(c) == Width(r)
    ensures Eval(MulPartialR(c, r), a) == Product(c.value, Eval(r, a))
  {
    hide Plus, Minus, Product, ApplyDivision, Compare;
    var y := Eval(r, a);
    ProductLaws(c.value, y);
    ProductLaws(y, c.value);
    if Width(c) == BOOL {
      AndPartialSound(r, c, a);
      AndLaws(c.value, y);
    } else {
      assert Eval(Binary(Mul, c, r), a) == Product(c.value, y);
    }
  }

  lemma MulSound(l: Term, r: Term, a: Assignment)
    requires Width(l) == Width(r)
    ensures Eval(MulCreate(l, r), a) == Product(Eval(l, a), Eval(r, a))
  {
    hide Plus, Minus, Product, ApplyDivision, Compare, MulPartialR;
    ProductLaws(Eval(l, a), Eval(r, a));
    if l.Constant? && r.Constant? {
      assert MulCreate(l, r) == Constant(Apply(Mul, l.value, r.value));
    } else if l.Constant? {
      MulPartialRSound(l, r, a);
    } else if r.Constant? {
      MulPartialRSound(r, l, a);
    } else if Width(l) == BOOL {
      assert Eval(Binary(And, l, r), a) == AndBits(Eval(l, a), Eval(r, a));
    } else {
      assert Eval(Binary(Mul, l, r), a) == Product(Eval(l, a), Eval(r, a));
    }
  }

  /** On one bit a divisor that is not zero is 1. */
  lemma OneBitDivision(op: BinOp, x: Bits, y: Bits)
    requires op.IsDivision() && |x| == |y| == 1
    ensures ApplyDivision(op, x, y) == if op == UDiv || op == SDiv then x else [false]
  {
    OneBitValues(x);
    OneBitValues(y);
    TimesZeroOne(1);
    assert Over(1, 1) == 1 + Over(0, 1);
    var q := ApplyDivision(op, x, y);
    OneBit(q, x);
    OneBit(q, [false]);
  }

  lemma DivisionSound(op: BinOp, l: Term, r: Term, a: Assignment)
    requires Width(l) == Width(r) && op.IsDivision()
    ensures Eval(DivisionCreate(op, l, r), a) == Apply(op, Eval(l, a), Eval(r, a))
  {
    hide Plus, Minus, Product, ApplyDivision, Compare;
    if Width(l) == BOOL {
      OneBitDivision(op, Eval(l, a), Eval(r, a));
    }
    if l.Constant? && r.Constant? {
    } else if Width(l) != BOOL {
      assert Eval(Binary(op, l, r), a) == Apply(op, Eval(l, a), Eval(r, a));
    }
  }

  lemma OneBitShift(op: BinOp, x: Bits, y: Bits)
    requires |x| == |y| == 1 && (op == Shl || op == LShr || op == AShr)
    ensures Apply(op, x, y) == [if op == AShr then x[0] else x[0] && !y[0]]
  {
    OneBitValues(y);
    OneBit(Apply(op, x, y), [if op == AShr then x[0] else x[0] && !y[0]]);
  }

  lemma ShiftSound(op: BinOp, l: Term, r: Term, a: Assignment)
    requires Width(l) == Width(r) && (op == Shl || op == LShr || op == AShr)
    ensures Eval(ShiftCreate(op, l, r), a) == Apply(op, Eval(l, a), Eval(r, a))
  {
    if l.Constant? && r.Constant? {
    } else if Width(l) == BOOL {
      OneBitShift(op, Eval(l, a), Eval(r, a));
      NegationSound(r, a);
      BoolAnd(l, IsZero(r), a);
      OneBit(Eval(ShiftCreate(op, l, r), a), Apply(op, Eval(l, a), Eval(r, a)));
    } else {
      assert Eval(Binary(op, l, r), a) == Apply(op, Eval(l, a), Eval(r, a));
    }
  }

  lemma OrderSound(op: BinOp, l: Term, r: Term, a: Assignment)
    requires Width(l) == Width(r) && (op == Ult || op == Ule || op == Slt || op == Sle)
    ensures Holds(OrderCreate(op, l, r), a) <==> Compare(op, Eval(l, a), Eval(r, a))
  {
    if l.Constant? && r.Constant? {
    } else if Width(l) == BOOL {
      OneBitValues(Eval(l, a));
      OneBitValues(Eval(r, a));
      NegationSound(l, a);
      NegationSound(r, a);
      BoolAnd(IsZero(l), r, a);
      BoolOr(IsZero(l), r, a);
      BoolAnd(l, IsZero(r), a);
      BoolOr(l, IsZero(r), a);
    } else {
      assert Eval(Binary(op, l, r), a) == [Compare(op, Eval(l, a), Eval(r, a))];
    }
  }

  lemma CompareSound(op: BinOp, l: Term, r: Term, a: Assignment)
    requires Width(l) == Width(r) && op.IsCompare()
    ensures Holds(CompareCreate(op, l, r), a) <==> Compare(op, Eval(l, a), Eval(r, a))
  {
    hide Eval, WF, EqCreate, NeCreate, OrderCreate, ToNat, Signed;
    match op
    case Eq => EqSound(l, r, a);
    case Ne => NeSound(l, r, a);
    case Ult => OrderSound(Ult, l, r, a);
    case Ule => OrderSound(Ule, l, r, a);
    case Ugt => OrderSound(Ult, r, l, a);
    case Uge => OrderSound(Ule, r, l, a);
    case Slt => OrderSound(Slt, l, r, a);
    case Sle => OrderSound(Sle, l, r, a);
    case Sgt => OrderSound(Slt, r, l, a);
    case Sge => OrderSound(Sle, r, l, a);
  }

  /** Every binary `create` has the value of the operation it names, for every
      width, operand shape and assignment. */
  lemma CreateSound(op: BinOp, l: Term, r: Term, a: Assignment)
    requires Width(l) == Width(r)
    ensures Eval(Create(op, l, r), a) == Apply(op, Eval(l, a), Eval(r, a))
  {
    hide Eval, WF, AddCreate, SubCreate, MulCreate, AndCreate, OrCreate, XorCreate;
    hide ShiftCreate, DivisionCreate, CompareCreate, ApplyDivision, Compare, Plus, Minus, Product;
    if op.IsCompare() {
      CompareSound(op, l, r, a);
      OneBit(Eval(Create(op, l, r), a), Apply(op, Eval(l, a), Eval(r, a)));
    } else if op.IsDivision() {
      DivisionSound(op, l, r, a);
    } else if op == Shl || op == LShr || op == AShr {
      ShiftSound(op, l, r, a);
    } else {
      match op
      case Add => AddSound(l, r, a);
      case Sub => SubSound(l, r, a);
      case Mul => MulSound(l, r, a);
      case And => AndSound(l, r, a);
      case Or => OrSound(l, r, a);
      case Xor => XorSound(l, r, a);
    }
  }

  lemma SelectSound(c: Formula, t: Term, f: Term, a: Assignment)
    requires Width(t) == Width(f)
    ensures Eval(SelectCreate(c, t, f), a) == if Holds(c, a) then Eval(t, a) else Eval(f, a)
  {
    NegationSound(c, a);
    if c.Constant? {
      OneBit(c.value, [true]);
    } else if t == f {
    } else if Width(t) == BOOL && (t.Constant? || f.Constant?) {
      BoolOr(c, f, a);
      BoolAnd(IsZero(c), f, a);
      BoolOr(IsZero(c), t, a);
      BoolAnd(c, t, a);
      OneBit(Eval(t, a), [true]);
      OneBit(Eval(f, a), [true]);
      OneBit(Eval(SelectCreate(c, t, f), a), Eval(t, a));
      OneBit(Eval(SelectCreate(c, t, f), a), Eval(f, a));
    } else {
      assert Eval(Select(c, t, f), a) == if Holds(c, a) then Eval(t, a) else Eval(f, a);
    }
  }

  lemma NotSound(e: Term, a: Assignment)
    ensures Eval(NotCreate(e), a) == NotBits(Eval(e, a))
  {
    assert !e.Constant? ==> Eval(Not(e), a) == NotBits(Eval(e, a));
  }
}
