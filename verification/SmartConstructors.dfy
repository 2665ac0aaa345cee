/** The simplifying constructors of lib/Expr/Expr.cpp for the bitwise, equality
    and arithmetic kinds: every `XExpr::create`, with its partial forms for one
    constant operand, and the proof that each keeps the value of the plain node
    under every assignment. */
module SmartConstructors {
  import opened Bits
  import opened Exprs

  function Fold(op: BinOp, l: Term, r: Term): (e: Term)
    requires l.Constant? && r.Constant? && Width(l) == Width(r)
    ensures e.Constant? && Width(e) == if op.IsCompare() then BOOL else Width(l)
  {
    Constant(Apply(op, l.value, r.value))
  }

  predicate IsZeroConst(e: Expr) { e.Constant? && e.value == Zeros(|e.value|) }
  predicate IsAllOnes(e: Expr) { e.Constant? && e.value == Ones(|e.value|) }

  lemma ConstantMarks(e: Expr)
    ensures IsAllOnes(e) || IsZeroConst(e) ==> e.Constant?
  {
  }

  /** Number of nodes, update lists included. */
  function Size(e: Expr): (n: nat)
    ensures n >= 1
    ensures !e.Constant? ==> n >= 2
  {
    match e
    case Constant(_) => 1
    case NotOptimized(s) => 1 + Size(s)
    case Read(_, head, index) => 1 + UpdatesSize(head) + Size(index)
    case Select(c, t, f) => 1 + Size(c) + Size(t) + Size(f)
    case Concat(l, r) => 1 + Size(l) + Size(r)
    case Extract(s, _, _) => 1 + Size(s)
    case ZExt(s, _) => 1 + Size(s)
    case SExt(s, _) => 1 + Size(s)
    case Not(s) => 1 + Size(s)
    case Binary(_, l, r) => 1 + Size(l) + Size(r)
  }

  function UpdatesSize(u: Updates): nat {
    match u
    case NoUpdates => 0
    case Update(i, v, next) => 1 + Size(i) + Size(v) + UpdatesSize(next)
  }

  // ----- And, Or -----

  function AndPartial(l: Term, c: Term): (e: Term)
    requires c.Constant? && Width(l) == Width(c)
    ensures Width(e) == Width(l)
  {
    if IsAllOnes(c) then l else if IsZeroConst(c) then c else Binary(And, l, c)
  }

  function AndCreate(l: Term, r: Term): (e: Term)
    requires Width(l) == Width(r)
    ensures Width(e) == Width(l)
  {
    if l.Constant? && r.Constant? then Fold(And, l, r)
    else if l.Constant? then AndPartial(r, l)
    else if r.Constant? then AndPartial(l, r)
    else Binary(And, l, r)
  }

  function OrPartial(l: Term, c: Term): (e: Term)
    requires c.Constant? && Width(l) == Width(c)
    ensures Width(e) == Width(l)
  {
    if IsAllOnes(c) then c else if IsZeroConst(c) then l else Binary(Or, l, c)
  }

  function OrCreate(l: Term, r: Term): (e: Term)
    requires Width(l) == Width(r)
    ensures Width(e) == Width(l)
  {
    if l.Constant? && r.Constant? then Fold(Or, l, r)
    else if l.Constant? then OrPartial(r, l)
    else if r.Constant? then OrPartial(l, r)
    else Binary(Or, l, r)
  }

  lemma AndSound(l: Term, r: Term, a: Assignment)
    requires Width(l) == Width(r)
    ensures Eval(AndCreate(l, r), a) == AndBits(Eval(l, a), Eval(r, a))
  {
    if l.Constant? && r.Constant? {
    } else if l.Constant? {
      AndPartialSound(r, l, a);
      AndLaws(Eval(r, a), l.value);
    } else if r.Constant? {
      AndPartialSound(l, r, a);
    } else {
      assert Eval(Binary(And, l, r), a) == AndBits(Eval(l, a), Eval(r, a));
    }
  }

  lemma AndPartialSound(l: Term, c: Term, a: Assignment)
    requires c.Constant? && Width(l) == Width(c)
    ensures Eval(AndPartial(l, c), a) == AndBits(Eval(l, a), c.value)
  {
    AndLaws(Eval(l, a), c.value);
    assert Eval(Binary(And, l, c), a) == AndBits(Eval(l, a), c.value);
  }

  lemma OrSound(l: Term, r: Term, a: Assignment)
    requires Width(l) == Width(r)
    ensures Eval(OrCreate(l, r), a) == OrBits(Eval(l, a), Eval(r, a))
  {
    if l.Constant? && r.Constant? {
    } else if l.Constant? {
      OrPartialSound(r, l, a);
      OrLaws(Eval(r, a), l.value);
    } else if r.Constant? {
      OrPartialSound(l, r, a);
    } else {
      assert Eval(Binary(Or, l, r), a) == OrBits(Eval(l, a), Eval(r, a));
    }
  }

  lemma OrPartialSound(l: Term, c: Term, a: Assignment)
    requires c.Constant? && Width(l) == Width(c)
    ensures Eval(OrPartial(l, c), a) == OrBits(Eval(l, a), c.value)
  {
    OrLaws(Eval(l, a), c.value);
    assert Eval(Binary(Or, l, c), a) == OrBits(Eval(l, a), c.value);
  }

  /** On one-bit operands the bitwise kinds are the logical connectives. */
  lemma BoolAnd(l: Formula, r: Formula, a: Assignment)
    ensures Holds(AndCreate(l, r), a) <==> Holds(l, a) && Holds(r, a)
  {
    AndSound(l, r, a);
  }

  lemma BoolOr(l: Formula, r: Formula, a: Assignment)
    ensures Holds(OrCreate(l, r), a) <==> Holds(l, a) || Holds(r, a)
  {
    OrSound(l, r, a);
  }

  // ----- Eq -----

  function EqAlloc(l: Term, r: Term): (e: Formula)
    requires Width(l) == Width(r)
  {
    if l == r then True else Binary(Eq, l, r)
  }

  function EqPartialR(c: Term, r: Term): (e: Formula)
    requires c.Constant? && Width(c) == Width(r)
    decreases r, 0
  {
    if Width(c) == BOOL then
      if c == True then r
      else if r.Binary? && r.op == Eq && r.left == False then r.right
      else if r.Binary? && r.op == Or then AndCreate(IsZero(r.left), IsZero(r.right))
      else EqAlloc(c, r)
    else if r.SExt? then
      var t := Constant(c.value[..Width(r.src)]);
      if c.value == SignExtend(t.value, r.width) then EqWithConst(r.src, t) else False
    else if r.ZExt? then
      var t := Constant(c.value[..Width(r.src)]);
      if c.value == ZeroExtend(t.value, r.width) then EqWithConst(r.src, t) else False
    else if r.Binary? && r.op == Add && r.left.Constant? then
      EqPartialR(Fold(Sub, c, r.left), r.right)
    else if r.Binary? && r.op == Sub && r.left.Constant? then
      EqPartialR(Fold(Sub, r.left, c), r.right)
    else EqAlloc(c, r)
  }

  /** `EqExpr::create` with a constant on the right. */
  function EqWithConst(l: Term, c: Term): (e: Formula)
    requires c.Constant? && Width(l) == Width(c)
    decreases l, 1
  {
    if l.Constant? then Fold(Eq, l, c) else EqPartialR(c, l)
  }

  /** `Expr::createIsZero`. */
  function IsZero(e: Term): (z: Formula)
    decreases e, 2
  {
    EqWithConst(e, Constant(Zeros(Width(e))))
  }

  function EqCreate(l: Term, r: Term): (e: Formula)
    requires Width(l) == Width(r)
  {
    if r.Constant? then EqWithConst(l, r)
    else if l.Constant? then EqPartialR(l, r)
    else EqAlloc(l, r)
  }

  function NeCreate(l: Term, r: Term): (e: Formula)
    requires Width(l) == Width(r)
  {
    EqCreate(False, EqCreate(l, r))
  }

  /** Moving a constant across an equation of residues. */
  lemma MoveAcross(c0: Bits, c1: Bits, b: Bits)
    requires |c0| == |c1| == |b|
    ensures Plus(c1, b) == c0 <==> Minus(c0, c1) == b
    ensures Minus(c1, b) == c0 <==> Minus(c1, c0) == b
  {
    ReassociateMixed(b, c1, c1);
    ReassociateMixed(c1, c0, c1);
    ReassociateDifference(c1, c1, b);
    ReassociateDifference(c1, c1, c0);
    PlusMinusZero(c1, b);
    PlusMinusZero(b, c1);
    PlusMinusZero(c0, c1);
    PlusMinusZero(c1, c0);
    PlusMinusZero(Zeros(|b|), b);
    PlusMinusZero(Zeros(|b|), c0);
    assert Minus(Plus(c1, b), c1) == b;
    assert Plus(c1, Minus(c0, c1)) == c0;
    assert Minus(c1, Minus(c1, b)) == b;
    assert Minus(c1, Minus(c1, c0)) == c0;
  }

  lemma EqNode(l: Term, r: Term, a: Assignment)
    requires Width(l) == Width(r)
    ensures Holds(Binary(Eq, l, r), a) <==> Eval(l, a) == Eval(r, a)
  {
    assert Eval(Binary(Eq, l, r), a) == [Eval(l, a) == Eval(r, a)];
  }

  lemma OrNode(l: Formula, r: Formula, a: Assignment)
    ensures Holds(Binary(Or, l, r), a) <==> Holds(l, a) || Holds(r, a)
  {
    assert Eval(Binary(Or, l, r), a) == OrBits(Eval(l, a), Eval(r, a));
  }

  lemma EqAllocSound(l: Term, r: Term, a: Assignment)
    requires Width(l) == Width(r)
    ensures Holds(EqAlloc(l, r), a) <==> Eval(l, a) == Eval(r, a)
  {
    if l != r {
      EqNode(l, r, a);
    }
  }

  lemma {:induction false} EqBoolSound(c: Term, r: Term, a: Assignment)
    requires c.Constant? && Width(c) == Width(r) == BOOL
    ensures Holds(EqPartialR(c, r), a) <==> c.value == Eval(r, a)
    decreases r, 0
  {
    OneBit(c.value, Eval(r, a));
    OneBit(c.value, [true]);
    if c == True {
    } else if r.Binary? && r.op == Eq && r.left == False {
      EqNode(r.left, r.right, a);
      OneBit([false], Eval(r.right, a));
    } else if r.Binary? && r.op == Or {
      OrNode(r.left, r.right, a);
      NegationSound(r.left, a);
      NegationSound(r.right, a);
      BoolAnd(IsZero(r.left), IsZero(r.right), a);
    } else {
      EqAllocSound(c, r, a);
    }
  }

  lemma {:induction false} EqCastSound(c: Term, r: Term, a: Assignment)
    requires c.Constant? && Width(c) == Width(r) != BOOL
    requires r.SExt? || r.ZExt?
    ensures Holds(EqPartialR(c, r), a) <==> c.value == Eval(r, a)
    decreases r, 0
  {
    var t := Constant(c.value[..Width(r.src)]);
    EqWithConstSound(r.src, t, a);
  }

  lemma {:induction false} EqPartialRSound(c: Term, r: Term, a: Assignment)
    requires c.Constant? && Width(c) == Width(r)
    ensures Holds(EqPartialR(c, r), a) <==> c.value == Eval(r, a)
    decreases r, 1
  {
    if Width(c) == BOOL {
      EqBoolSound(c, r, a);
    } else if r.SExt? || r.ZExt? {
      EqCastSound(c, r, a);
    } else if r.Binary? && r.op == Add && r.left.Constant? {
      EqPartialRSound(Fold(Sub, c, r.left), r.right, a);
      MoveAcross(c.value, r.left.value, Eval(r.right, a));
    } else if r.Binary? && r.op == Sub && r.left.Constant? {
      EqPartialRSound(Fold(Sub, r.left, c), r.right, a);
      MoveAcross(c.value, r.left.value, Eval(r.right, a));
    } else {
      EqAllocSound(c, r, a);
    }
  }

  lemma EqWithConstSound(l: Term, c: Term, a: Assignment)
    requires c.Constant? && Width(l) == Width(c)
    ensures Holds(EqWithConst(l, c), a) <==> Eval(l, a) == c.value
    decreases l, 2
  {
    if !l.Constant? {
      EqPartialRSound(c, l, a);
    }
  }

  lemma IsZeroSound(e: Term, a: Assignment)
    ensures Holds(IsZero(e), a) <==> Eval(e, a) == Zeros(Width(e))
    decreases e, 3
  {
    EqWithConstSound(e, Constant(Zeros(Width(e))), a);
  }

  /** `Expr::createIsZero` on a Boolean is negation. */
  lemma NegationSound(e: Formula, a: Assignment)
    ensures Holds(IsZero(e), a) <==> !Holds(e, a)
    decreases e, 4
  {
    IsZeroSound(e, a);
    OneBit(Eval(e, a), Zeros(1));
  }

  lemma EqSound(l: Term, r: Term, a: Assignment)
    requires Width(l) == Width(r)
    ensures Holds(EqCreate(l, r), a) <==> Eval(l, a) == Eval(r, a)
  {
    if r.Constant? {
      EqWithConstSound(l, r, a);
    } else if l.Constant? {
      EqPartialRSound(l, r, a);
    } else {
      EqAllocSound(l, r, a);
    }
  }

  lemma NeSound(l: Term, r: Term, a: Assignment)
    requires Width(l) == Width(r)
    ensures Holds(NeCreate(l, r), a) <==> Eval(l, a) != Eval(r, a)
  {
    EqSound(l, r, a);
    EqSound(False, EqCreate(l, r), a);
    OneBit([false], Eval(EqCreate(l, r), a));
  }
}
