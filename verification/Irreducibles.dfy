/** Expressions as the `create` functions build them: no rule of theirs applies to
    any node, at any depth. No `create` function loses this property, so it holds of
    every expression built with them, and such an expression is what they give back
    for its operands. */
module Irreducibles {
  import opened Bits
  import opened Exprs
  import opened SmartConstructors
  import opened ArithmeticConstructors
  import opened Constructors
  import opened SliceConstructors
  import opened ArrayReads

  /** No rule applies to a binary node: a constant stands first, except in the bitwise
      kinds, decides nothing, and leads no operand of a sum. */
  predicate Settled(op: BinOp, l: Expr, r: Expr) {
    && !(l.Constant? && r.Constant?)
    && match op
       case Add => Summed(l, r) && !IsZeroConst(l)
       case Sub => Summed(l, r) && l != r
       case Mul =>
         Width(l) != BOOL && !r.Constant? && (l.Constant? ==> !IsZeroConst(l) && l.value != FromInt(1, Width(l)))
       case And => Masked(l, r)
       case Or => Masked(l, r)
       case Xor => !r.Constant? && (l.Constant? ==> Width(l) != BOOL && !IsZeroConst(l))
       case Eq => l != r && !r.Constant? && (l.Constant? ==> Equated(l, r))
       case Ne => false
       case Ugt => false
       case Uge => false
       case Sgt => false
       case Sge => false
       case _ => Width(l) != BOOL   // divisions, shifts, orders
  }

  predicate Masked(l: Expr, r: Expr) { !l.Constant? && !IsAllOnes(r) && !IsZeroConst(r) }

  predicate Summed(l: Expr, r: Expr) { Width(l) != BOOL && !r.Constant? && !Linear(l) && !Linear(r) }

  predicate Equated(c: Expr, r: Expr) {
    if Width(c) == BOOL then
      c == False && !(r.Binary? && (r.op == Or || (r.op == Eq && r.left == False)))
    else !r.SExt? && !r.ZExt? && !Linear(r)
  }

  /** The newest write not to another cell, as far as `create` can tell, is to the
      cell read. */
  predicate Answered(head: WriteList, index: Term)
    requires Width(index) == INT32
  {
    head.Update? &&
    (EqCreate(index, head.index) == True || (EqCreate(index, head.index) == False && Answered(head.next, index)))
  }

  /** No rule applies to a read: nothing written or constant answers it, and a
      constant index starts from a write that may be to its cell. */
  predicate Asked(root: Array, head: WriteList, index: Term)
    requires Width(index) == INT32
  {
    && !Answered(head, index)
    && (index.Constant? && ToNat(index.value) < root.size ==>
          if head.Update? then !EqCreate(index, head.index).Constant? else !root.IsConstantArray())
  }

  predicate Chosen(c: Expr, t: Expr, f: Expr) {
    !c.Constant? && t != f && (Width(t) == BOOL ==> !t.Constant? && !f.Constant?)
  }

  predicate Joined(l: Expr, r: Expr) {
    && !(l.Constant? && r.Constant?) && !IsZeroConst(l)
    && !(l.Extract? && r.Extract? && l.expr == r.expr && r.offset + r.width == l.offset)
  }

  predicate Sliced(e: Expr, off: nat, w: nat) {
    && w < Width(e) && !e.Constant? && !e.Concat?
    && (e.ZExt? || e.SExt? ==> off + w > Width(e.src))
  }

  predicate Irreducible(e: Term) {
    match e
    case Constant(_) => true
    case NotOptimized(s) => Irreducible(s)
    case Read(root, head, index) => IrreducibleList(head) && Irreducible(index) && Asked(root, head, index)
    case Select(c, t, f) => Irreducible(c) && Irreducible(t) && Irreducible(f) && Chosen(c, t, f)
    case Concat(l, r) => Irreducible(l) && Irreducible(r) && Joined(l, r)
    case Extract(s, off, w) => Irreducible(s) && Sliced(s, off, w)
    case ZExt(s, _) => Irreducible(s) && !s.Constant?
    case SExt(s, _) => Irreducible(s) && !s.Constant?
    case Not(s) => Irreducible(s) && !s.Constant?
    case Binary(op, l, r) => Settled(op, l, r) && Irreducible(l) && Irreducible(r)
  }

  predicate IrreducibleList(u: WriteList) {
    u.Update? ==> Irreducible(u.index) && Irreducible(u.value) && IrreducibleList(u.next)
  }

  /** Such a condition does not become a constant when negated. */
  lemma {:induction false} NegationSymbolic(e: Formula)
    requires Irreducible(e) && !e.Constant?
    ensures !IsZero(e).Constant?
  {
    hide Eval, Apply, ReadAt, Asked, Settled;
    var c: Term := Constant(Zeros(1));
    assert c.value[0] == false && c != True;
    assert Width(e) == BOOL && IsZero(e) == EqPartialR(c, e);
    if e.Binary? {
      BinaryParts(e);
      if e.op == Or {
        OrParts(e);
        NegationSymbolic(e.left);
        NegationSymbolic(e.right);
      }
      EqParts(e);
    }
  }

  lemma OrParts(e: Term)
    requires e.Binary? && e.op == Or && Width(e) == BOOL && Irreducible(e)
    ensures !e.left.Constant? && !e.right.Constant?
  {
    if e.right.Constant? {
      OneBitConstant(e.right);
    }
  }

  lemma EqParts(e: Term)
    requires e.Binary? && Irreducible(e)
    ensures !(e.left.Constant? && e.right.Constant?)
    ensures e.op == Eq ==> !e.right.Constant?
    ensures e.op == Add || e.op == Sub ==> !e.right.Constant? && !Linear(e.right)
  {
  }

  // ----- bitwise operations and equations -----

  lemma Literal(v: Bits)
    requires |v| >= 1
    ensures WF(Constant(v)) && Irreducible(Constant(v))
  {
  }

  lemma Constants(e: Term)
    requires e.Constant?
    ensures Irreducible(e)
  {
  }

  lemma Node(op: BinOp, l: Term, r: Term)
    requires Width(l) == Width(r) && Irreducible(l) && Irreducible(r)
    ensures Irreducible(Binary(op, l, r)) <==> Settled(op, l, r)
  {
    hide Settled;
  }

  lemma AndIrreducible(l: Term, r: Term)
    requires Width(l) == Width(r) && Irreducible(l) && Irreducible(r)
    ensures Irreducible(AndCreate(l, r))
  {
    hide Apply, WF, Width, Irreducible, IsAllOnes, IsZeroConst;
    Node(And, l, r);
    Node(And, r, l);
    ConstantMarks(l);
    ConstantMarks(r);
    if l.Constant? && r.Constant? {
      Constants(Fold(And, l, r));
    }
  }

  /** A constant of one bit never stays in a disjunction. */
  lemma OneBitConstant(c: Term)
    requires c.Constant? && Width(c) == BOOL
    ensures IsAllOnes(c) || IsZeroConst(c)
  {
    assert c.value == if c.value[0] then Ones(1) else Zeros(1);
  }

  lemma OrIrreducible(l: Term, r: Term)
    requires Width(l) == Width(r) && Irreducible(l) && Irreducible(r)
    ensures Irreducible(OrCreate(l, r))
  {
    hide Apply, WF, Width, Irreducible, IsAllOnes, IsZeroConst;
    Node(Or, l, r);
    Node(Or, r, l);
    ConstantMarks(l);
    ConstantMarks(r);
    if l.Constant? && r.Constant? {
      Constants(Fold(Or, l, r));
    }
  }

  lemma {:induction false} EqPartialIrreducible(c: Term, r: Term)
    requires c.Constant? && Width(c) == Width(r) && Irreducible(r) && !r.Constant?
    ensures Irreducible(EqPartialR(c, r))
    decreases r, 0
  {
    hide Apply, AndCreate, WF, SignExtend, ZeroExtend, IsZero, EqWithConst, Irreducible;
    Constants(c);
    Node(Eq, c, r);
    if Width(c) == BOOL {
      OneBit(c.value, [false]);
      OneBit(c.value, [true]);
      if r.Binary? {
        BinaryParts(r);
      }
      if r.Binary? && r.op == Or {
        IsZeroIrreducible(r.left);
        IsZeroIrreducible(r.right);
        AndIrreducible(IsZero(r.left), IsZero(r.right));
      }
    } else if r.SExt? || r.ZExt? {
      EqCastIrreducible(c, r);
    } else if Linear(r) {
      BinaryParts(r);
      EqParts(r);
      if r.op == Add {
        EqPartialIrreducible(Fold(Sub, c, r.left), r.right);
      } else {
        EqPartialIrreducible(Fold(Sub, r.left, c), r.right);
      }
    }
  }

  lemma BinaryParts(e: Term)
    requires e.Binary?
    ensures WF(e.left) && WF(e.right) && Width(e.left) == Width(e.right)
    ensures Width(e) == if e.op.IsCompare() then BOOL else Width(e.left)
    ensures Irreducible(e) ==> Irreducible(e.left) && Irreducible(e.right) && Settled(e.op, e.left, e.right)
  {
    hide Settled;
  }

  lemma {:induction false} EqCastIrreducible(c: Term, r: Term)
    requires c.Constant? && Width(c) == Width(r) != BOOL && (r.SExt? || r.ZExt?) && Irreducible(r)
    ensures Irreducible(EqPartialR(c, r))
    decreases r, -1
  {
    hide Apply, SignExtend, ZeroExtend, EqWithConst;
    Literal([false]);
    EqConstIrreducible(r.src, Constant(c.value[..Width(r.src)]));
  }

  lemma {:induction false} EqConstIrreducible(l: Term, c: Term)
    requires c.Constant? && Width(l) == Width(c) && Irreducible(l)
    ensures Irreducible(EqWithConst(l, c))
    decreases l, 1
  {
    hide Apply, EqPartialR, WF;
    if !l.Constant? {
      EqPartialIrreducible(c, l);
    }
  }

  lemma {:induction false} IsZeroIrreducible(e: Term)
    requires Irreducible(e)
    ensures Irreducible(IsZero(e))
    decreases e, 2
  {
    hide Apply, EqWithConst;
    EqConstIrreducible(e, Constant(Zeros(Width(e))));
  }

  lemma EqIrreducible(l: Term, r: Term)
    requires Width(l) == Width(r) && Irreducible(l) && Irreducible(r)
    ensures Irreducible(EqCreate(l, r))
  {
    hide Apply, EqPartialR, EqWithConst, WF, Irreducible;
    Literal([true]);
    if r.Constant? {
      EqConstIrreducible(l, r);
    } else if l.Constant? {
      EqPartialIrreducible(l, r);
    } else {
      Node(Eq, l, r);
    }
  }

  lemma NeIrreducible(l: Term, r: Term)
    requires Width(l) == Width(r) && Irreducible(l) && Irreducible(r)
    ensures Irreducible(NeCreate(l, r))
  {
    hide Apply, EqCreate, Irreducible;
    Literal([false]);
    EqIrreducible(l, r);
    EqIrreducible(False, EqCreate(l, r));
  }

  lemma XorPartialIrreducible(c: Term, r: Term)
    requires c.Constant? && Width(c) == Width(r) && Irreducible(r) && !r.Constant?
    ensures Irreducible(XorPartialR(c, r))
  {
    hide Apply, EqPartialR, Irreducible;
    Constants(c);
    Node(Xor, c, r);
    if Width(c) == BOOL {
      EqPartialIrreducible(False, r);
    }
  }

  lemma XorIrreducible(l: Term, r: Term)
    requires Width(l) == Width(r) && Irreducible(l) && Irreducible(r)
    ensures Irreducible(XorCreate(l, r))
  {
    hide Apply, XorPartialR, WF, Irreducible;
    Node(Xor, l, r);
    if l.Constant? && r.Constant? {
      Constants(Fold(Xor, l, r));
    } else if l.Constant? {
      XorPartialIrreducible(l, r);
    } else if r.Constant? {
      XorPartialIrreducible(r, l);
    }
  }

  // ----- sums and differences -----

  lemma {:induction false} PartialIrreducible(c: Term, r: Term)
    requires c.Constant? && Width(c) == Width(r) && Irreducible(r) && !r.Constant?
    ensures Irreducible(AddPartialR(c, r)) && Irreducible(SubPartialR(c, r))
    decreases Size(c) + Size(r), 1, 0
  {
    hide Apply, XorPartialR, AddCreate, SubCreate, WF, Size, Irreducible;
    Constants(c);
    Node(Add, c, r);
    Node(Sub, c, r);
    if Width(c) == BOOL {
      XorPartialIrreducible(c, r);
    } else if Linear(r) {
      LinearParts(r);
      BinaryParts(r);
      Folds(c, r.left);
      AddIrreducible(Fold(Add, c, r.left), r.right);
      SubIrreducible(Fold(Add, c, r.left), r.right);
      AddIrreducible(Fold(Sub, c, r.left), r.right);
      SubIrreducible(Fold(Sub, c, r.left), r.right);
    }
  }

  lemma Folds(c: Term, d: Term)
    requires c.Constant? && d.Constant? && Width(c) == Width(d)
    ensures Size(c) == Size(d) == Size(Fold(Add, c, d)) == Size(Fold(Sub, c, d)) == 1
    ensures Irreducible(c) && Irreducible(Fold(Add, c, d)) && Irreducible(Fold(Sub, c, d))
  {
    hide Apply;
  }

  lemma {:induction false} AddIrreducible(l: Term, r: Term)
    requires Width(l) == Width(r) && Irreducible(l) && Irreducible(r)
    ensures Irreducible(AddCreate(l, r))
    decreases Size(l) + Size(r), Symbolic(l) + Symbolic(r), 1
  {
    hide Apply, XorCreate, Fold, AddPartialR, SubPartialR, SubCreate, WF, Size, Width, Irreducible;
    Node(Add, l, r);
    if l.Constant? && r.Constant? {
      Folds(l, r);
    } else if l.Constant? {
      PartialIrreducible(l, r);
    } else if r.Constant? {
      PartialIrreducible(r, l);
    } else if Width(l) == BOOL {
      XorIrreducible(l, r);
    } else if Linear(l) {
      AddLeftIrreducible(l, r);
    } else if Linear(r) {
      AddRightIrreducible(l, r);
    }
  }

  lemma {:induction false} AddLeftIrreducible(l: Term, r: Term)
    requires BothSymbolic(l, r) && Linear(l) && Irreducible(l) && Irreducible(r)
    ensures Irreducible(AddCreate(l, r))
    decreases Size(l) + Size(r), Symbolic(l) + Symbolic(r), 0
  {
    hide Apply, WF, Width, Size, XorCreate, Fold, AddPartialR, SubPartialR, Irreducible;
    LinearParts(l);
    BinaryParts(l);
    if l.op == Add {
      AddIrreducible(l.right, r);
      AddIrreducible(l.left, AddCreate(l.right, r));
    } else {
      SubIrreducible(r, l.right);
      AddIrreducible(l.left, SubCreate(r, l.right));
    }
  }

  lemma {:induction false} AddRightIrreducible(l: Term, r: Term)
    requires BothSymbolic(l, r) && !Linear(l) && Linear(r) && Irreducible(l) && Irreducible(r)
    ensures Irreducible(AddCreate(l, r))
    decreases Size(l) + Size(r), Symbolic(l) + Symbolic(r), 0
  {
    hide Apply, WF, Width, Size, XorCreate, Fold, AddPartialR, SubPartialR, Irreducible;
    LinearParts(r);
    BinaryParts(r);
    if r.op == Add {
      AddIrreducible(l, r.right);
      AddIrreducible(r.left, AddCreate(l, r.right));
    } else {
      SubIrreducible(l, r.right);
      AddIrreducible(r.left, SubCreate(l, r.right));
    }
  }

  lemma {:induction false} SubIrreducible(l: Term, r: Term)
    requires Width(l) == Width(r) && Irreducible(l) && Irreducible(r)
    ensures Irreducible(SubCreate(l, r))
    decreases Size(l) + Size(r), Symbolic(l) + Symbolic(r), 1
  {
    hide Apply, XorCreate, Fold, AddPartialR, SubPartialR, AddCreate, WF, Size, Width, Negated, Irreducible;
    Node(Sub, l, r);
    if l.Constant? && r.Constant? {
      Folds(l, r);
    } else if l.Constant? {
      PartialIrreducible(l, r);
    } else if r.Constant? {
      Folds(Negated(r), r);
      PartialIrreducible(Negated(r), l);
    } else if Width(l) == BOOL {
      XorIrreducible(l, r);
    } else if l == r {
      Literal(Zeros(Width(l)));
    } else if Linear(l) {
      SubLeftIrreducible(l, r);
    } else if Linear(r) {
      SubRightIrreducible(l, r);
    }
  }

  lemma {:induction false} SubLeftIrreducible(l: Term, r: Term)
    requires BothSymbolic(l, r) && l != r && Linear(l) && Irreducible(l) && Irreducible(r)
    ensures Irreducible(SubCreate(l, r))
    decreases Size(l) + Size(r), Symbolic(l) + Symbolic(r), 0
  {
    hide Apply, WF, Width, Size, XorCreate, Fold, AddPartialR, SubPartialR, Irreducible;
    LinearParts(l);
    BinaryParts(l);
    if l.op == Add {
      SubIrreducible(l.right, r);
      AddIrreducible(l.left, SubCreate(l.right, r));
    } else {
      AddIrreducible(l.right, r);
      SubIrreducible(l.left, AddCreate(l.right, r));
    }
  }

  lemma {:induction false} SubRightIrreducible(l: Term, r: Term)
    requires BothSymbolic(l, r) && l != r && !Linear(l) && Linear(r) && Irreducible(l) && Irreducible(r)
    ensures Irreducible(SubCreate(l, r))
    decreases Size(l) + Size(r), Symbolic(l) + Symbolic(r), 0
  {
    hide Apply, WF, Width, Size, XorCreate, Fold, AddPartialR, SubPartialR, Irreducible;
    LinearParts(r);
    BinaryParts(r);
    if r.op == Add {
      SubIrreducible(l, r.right);
      SubIrreducible(SubCreate(l, r.right), r.left);
    } else {
      AddIrreducible(l, r.right);
      SubIrreducible(AddCreate(l, r.right), r.left);
    }
  }

  // ----- the other kinds -----

  lemma MulIrreducible(l: Term, r: Term)
    requires Width(l) == Width(r) && Irreducible(l) && Irreducible(r)
    ensures Irreducible(MulCreate(l, r))
  {
    hide Apply, WF, Width, FromInt, Fold, IsZeroConst, IsAllOnes, Irreducible;
    Node(Mul, l, r);
    Node(Mul, r, l);
    ConstantMarks(l);
    ConstantMarks(r);
    if l.Constant? && r.Constant? {
      Constants(Fold(Mul, l, r));
    } else if Width(l) == BOOL {
      AndIrreducible(l, r);
      AndIrreducible(r, l);
    }
  }

  lemma DivisionIrreducible(op: BinOp, l: Term, r: Term)
    requires Width(l) == Width(r) && op.IsDivision() && Irreducible(l) && Irreducible(r)
    ensures Irreducible(DivisionCreate(op, l, r))
  {
    hide Apply, WF, Irreducible;
    Node(op, l, r);
    Literal([false]);
    if l.Constant? && r.Constant? {
      Constants(Fold(op, l, r));
    }
  }

  lemma ShiftIrreducible(op: BinOp, l: Term, r: Term)
    requires Width(l) == Width(r) && (op == Shl || op == LShr || op == AShr) && Irreducible(l) && Irreducible(r)
    ensures Irreducible(ShiftCreate(op, l, r))
  {
    hide Apply, WF, AndCreate, IsZero, Irreducible;
    Node(op, l, r);
    if l.Constant? && r.Constant? {
      Constants(Fold(op, l, r));
    } else if Width(l) == BOOL {
      IsZeroIrreducible(r);
      AndIrreducible(l, IsZero(r));
    }
  }

  lemma OrderIrreducible(op: BinOp, l: Term, r: Term)
    requires Width(l) == Width(r) && (op == Ult || op == Ule || op == Slt || op == Sle) && Irreducible(l) && Irreducible(r)
    ensures Irreducible(OrderCreate(op, l, r))
  {
    hide Apply, WF, AndCreate, OrCreate, IsZero, Irreducible;
    Node(op, l, r);
    if l.Constant? && r.Constant? {
      Constants(Fold(op, l, r));
    } else if Width(l) == BOOL {
      IsZeroIrreducible(l);
      IsZeroIrreducible(r);
      AndIrreducible(l, IsZero(r));
      AndIrreducible(IsZero(l), r);
      OrIrreducible(l, IsZero(r));
      OrIrreducible(IsZero(l), r);
    }
  }

  lemma CompareIrreducible(op: BinOp, l: Term, r: Term)
    requires Width(l) == Width(r) && op.IsCompare() && Irreducible(l) && Irreducible(r)
    ensures Irreducible(CompareCreate(op, l, r))
  {
    hide Apply, WF, Width, OrderCreate, EqCreate, NeCreate, Irreducible;
    match op
    case Eq => EqIrreducible(l, r);
    case Ne => NeIrreducible(l, r);
    case Ult => OrderIrreducible(Ult, l, r);
    case Ule => OrderIrreducible(Ule, l, r);
    case Ugt => OrderIrreducible(Ult, r, l);
    case Uge => OrderIrreducible(Ule, r, l);
    case Slt => OrderIrreducible(Slt, l, r);
    case Sle => OrderIrreducible(Sle, l, r);
    case Sgt => OrderIrreducible(Slt, r, l);
    case Sge => OrderIrreducible(Sle, r, l);
  }

  lemma CreateIrreducible(op: BinOp, l: Term, r: Term)
    requires Width(l) == Width(r) && Irreducible(l) && Irreducible(r)
    ensures Irreducible(Create(op, l, r))
  {
    hide Apply, WF, Width, AndCreate, OrCreate, XorCreate, AddCreate, SubCreate, MulCreate, DivisionCreate, ShiftCreate;
    hide CompareCreate, Irreducible;
    if op.IsCompare() {
      CompareIrreducible(op, l, r);
    } else if op.IsDivision() {
      DivisionIrreducible(op, l, r);
    } else if op == Shl || op == LShr || op == AShr {
      ShiftIrreducible(op, l, r);
    } else if op == Add {
      AddIrreducible(l, r);
    } else if op == Sub {
      SubIrreducible(l, r);
    } else if op == Mul {
      MulIrreducible(l, r);
    } else if op == Xor {
      XorIrreducible(l, r);
    } else if op == And {
      AndIrreducible(l, r);
    } else {
      OrIrreducible(l, r);
    }
  }

  lemma SelectIrreducible(c: Formula, t: Term, f: Term)
    requires Width(t) == Width(f) && Irreducible(c) && Irreducible(t) && Irreducible(f)
    ensures Irreducible(SelectCreate(c, t, f))
  {
    hide Apply, WF, AndCreate, OrCreate, IsZero;
    if Width(t) == BOOL {
      IsZeroIrreducible(c);
      OrIrreducible(c, f);
      AndIrreducible(IsZero(c), f);
      OrIrreducible(IsZero(c), t);
      AndIrreducible(c, t);
    }
  }

  lemma NotIrreducible(e: Term)
    requires Irreducible(e)
    ensures Irreducible(NotCreate(e))
  {
  }

  lemma {:induction false} ConcatIrreducible(l: Term, r: Term)
    requires Irreducible(l) && Irreducible(r)
    ensures Irreducible(ConcatCreate(l, r))
    decreases Size(l), 0
  {
    hide ExtractCreate;
    if l.Extract? && r.Extract? && l.expr == r.expr && r.offset + r.width == l.offset {
      ExtractIrreducible(l.expr, r.offset, Width(l) + Width(r));
    }
  }

  lemma {:induction false} ExtractIrreducible(e: Term, off: nat, w: nat)
    requires w >= 1 && off + w <= Width(e) && Irreducible(e)
    ensures Irreducible(ExtractCreate(e, off, w))
    decreases Size(e), 1, 1
  {
    hide ConcatCreate, ConstantExtract;
    if w == Width(e) || e.Constant? {
    } else if e.Concat? {
      ExtractConcatIrreducible(e, off, w);
    } else if (e.ZExt? || e.SExt?) && off + w <= Width(e.src) && !(off == 0 && w == Width(e.src)) {
      ExtractIrreducible(e.src, off, w);
    }
  }

  lemma {:induction false} ExtractConcatIrreducible(e: Term, off: nat, w: nat)
    requires e.Concat? && w >= 1 && off + w <= Width(e) && w != Width(e) && Irreducible(e)
    ensures Irreducible(ExtractCreate(e, off, w))
    decreases Size(e), 1, 0
  {
    hide ConcatCreate, ExtractCreate, Size, Joined;
    ExtractConcatIs(e, off, w);
    var rw := Width(e.right);
    if off >= rw {
      ExtractIrreducible(e.left, off - rw, w);
    } else if off + w <= rw {
      ExtractIrreducible(e.right, off, w);
    } else {
      ExtractIrreducible(e.left, 0, w - rw + off);
      ExtractIrreducible(e.right, off, rw - off);
      ConcatIrreducible(ExtractCreate(e.left, 0, w - rw + off), ExtractCreate(e.right, off, rw - off));
    }
  }

  lemma CastIrreducible(e: Term, w: nat)
    requires w >= 1 && Irreducible(e)
    ensures Irreducible(ZExtCreate(e, w)) && Irreducible(SExtCreate(e, w))
  {
    hide ExtractCreate, WF;
    if w < Width(e) {
      ExtractIrreducible(e, 0, w);
    }
  }

  lemma {:induction false} RollBackIrreducible(head: WriteList, index: Term)
    requires Width(index) == INT32 && IrreducibleList(head)
    ensures IrreducibleList(RollBack(head, index))
  {
    hide EqCreate, Irreducible, WF;
    if head.Update? && EqCreate(index, head.index) == False {
      RollBackIrreducible(head.next, index);
    }
  }

  lemma {:induction false} AnsweredBy(head: WriteList, index: Term)
    requires Width(index) == INT32
    ensures var un := RollBack(head, index); Answered(head, index) <==> un.Update? && EqCreate(index, un.index) == True
    ensures var un := RollBack(head, index); RollBack(un, index) == un && (un.Update? ==> EqCreate(index, un.index) != False)
  {
    hide EqCreate, WF;
    if head.Update? && EqCreate(index, head.index) == False {
      AnsweredBy(head.next, index);
    }
  }

  lemma ReadIrreducible(root: Array, head: WriteList, index: Term)
    requires Width(index) == INT32 && IrreducibleList(head) && Irreducible(index)
    ensures Irreducible(ReadCreate(root, head, index))
  {
    hide EqCreate, RollBack, Answered;
    var un := RollBack(head, index);
    RollBackIrreducible(head, index);
    AnsweredBy(head, index);
    AnsweredBy(un, index);
    if un.Update? && EqCreate(index, un.index).Constant? {
      OneBit(EqCreate(index, un.index).value, [true]);
      OneBit(EqCreate(index, un.index).value, [false]);
    }
  }

  // ----- what cannot be reduced is built again as it is -----

  lemma SumAgain(l: Term, r: Term)
    requires Width(l) == Width(r)
    ensures Settled(Add, l, r) ==> AddCreate(l, r) == Binary(Add, l, r)
    ensures Settled(Sub, l, r) ==> SubCreate(l, r) == Binary(Sub, l, r)
  {
    hide Apply, FromInt, EqPartialR, WF, Size, XorCreate, XorPartialR, Fold, IsZeroConst, Width;
    if l.Constant? && Summed(l, r) {
      assert !IsZeroConst(l) ==> AddPartialR(l, r) == Binary(Add, l, r);
      assert SubPartialR(l, r) == Binary(Sub, l, r);
    }
  }

  lemma BinaryAgain(e: Term)
    requires e.Binary? && Irreducible(e)
    ensures Create(e.op, e.left, e.right) == e
  {
    hide Apply, FromInt, EqWithConst, IsZero, Irreducible, AddCreate, SubCreate, WF;
    BinaryParts(e);
    SumAgain(e.left, e.right);
    if e.op == Eq && e.left.Constant? && Width(e.left) == BOOL {
      OneBit(e.left.value, [true]);
    }
  }

  /** Every expression the `create` functions build is the one they build from its
      operands. */
  lemma BuiltAgain(e: Term)
    requires Irreducible(e)
    ensures e.Binary? ==> Create(e.op, e.left, e.right) == e
    ensures e.Select? ==> SelectCreate(e.cond, e.trueExpr, e.falseExpr) == e
    ensures e.Concat? ==> ConcatCreate(e.left, e.right) == e
    ensures e.Extract? ==> ExtractCreate(e.expr, e.offset, e.width) == e
    ensures e.ZExt? ==> ZExtCreate(e.src, e.width) == e
    ensures e.SExt? ==> SExtCreate(e.src, e.width) == e
    ensures e.Not? ==> NotCreate(e.expr) == e
    ensures e.Read? ==> ReadCreate(e.root, e.head, e.index) == e
  {
    hide EqCreate, Create, AndCreate, OrCreate, IsZero, Answered, Settled, RollBack;
    if e.Binary? {
      BinaryAgain(e);
    } else if e.Read? {
      AnsweredBy(e.head, e.index);
      RollsNowhere(e.head, e.index);
    }
  }

  lemma RollsNowhere(head: WriteList, index: Term)
    requires Width(index) == INT32
    ensures head.Update? && !EqCreate(index, head.index).Constant? ==> RollBack(head, index) == head
    ensures head.NoUpdates? ==> RollBack(head, index) == head
  {
    hide EqCreate;
  }
}
