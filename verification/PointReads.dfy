/** Expressions that read arrays of input bytes at constant indices only. No
    `create` function loses this property, so neither does rewriting. */
module PointReads {
  import opened Bits
  import opened Exprs
  import opened SmartConstructors
  import opened ArithmeticConstructors
  import opened Constructors
  import opened SliceConstructors
  import opened ArrayReads

  /** Every read is at a constant index, or of a constant array without updates. */
  predicate Pointwise(e: Expr) {
    match e
    case Constant(_) => true
    case NotOptimized(s) => Pointwise(s)
    case Read(root, head, index) =>
      PointwiseList(head) && Pointwise(index) && (index.Constant? || (root.IsConstantArray() && head.NoUpdates?))
    case Select(c, t, f) => Pointwise(c) && Pointwise(t) && Pointwise(f)
    case Concat(l, r) => Pointwise(l) && Pointwise(r)
    case Extract(s, _, _) => Pointwise(s)
    case ZExt(s, _) => Pointwise(s)
    case SExt(s, _) => Pointwise(s)
    case Not(s) => Pointwise(s)
    case Binary(_, l, r) => Pointwise(l) && Pointwise(r)
  }

  predicate PointwiseList(u: Updates) {
    u.Update? ==> Pointwise(u.index) && Pointwise(u.value) && PointwiseList(u.next)
  }

  lemma Constants(e: Expr)
    requires e.Constant?
    ensures Pointwise(e)
  {
  }

  lemma AndPointwise(l: Term, r: Term)
    requires Width(l) == Width(r) && Pointwise(l) && Pointwise(r)
    ensures Pointwise(AndCreate(l, r)) && Pointwise(OrCreate(l, r))
  {
    hide Apply, WF, Width, Pointwise, IsAllOnes, IsZeroConst;
    Node(And, l, r);
    Node(And, r, l);
    Node(Or, l, r);
    Node(Or, r, l);
    if l.Constant? && r.Constant? {
      Constants(Fold(And, l, r));
      Constants(Fold(Or, l, r));
    }
  }

  lemma {:induction false} EqPartialPointwise(c: Term, r: Term)
    requires c.Constant? && Width(c) == Width(r) && Pointwise(r)
    ensures Pointwise(EqPartialR(c, r))
    decreases r, 0
  {
    hide Apply, AndCreate, WF, SignExtend, ZeroExtend, IsZero, EqWithConst;
    if Width(c) == BOOL {
      if r.Binary? && r.op == Or {
        BinaryParts(r);
        IsZeroPointwise(r.left);
        IsZeroPointwise(r.right);
        AndPointwise(IsZero(r.left), IsZero(r.right));
      }
    } else if r.SExt? || r.ZExt? {
      EqCastPointwise(c, r);
    } else if r.Binary? {
      BinaryParts(r);
      if r.op == Add && r.left.Constant? {
        EqPartialPointwise(Fold(Sub, c, r.left), r.right);
      } else if r.op == Sub && r.left.Constant? {
        EqPartialPointwise(Fold(Sub, r.left, c), r.right);
      }
    }
  }

  lemma BinaryParts(e: Term)
    requires e.Binary?
    ensures WF(e.left) && WF(e.right) && Width(e.left) == Width(e.right)
    ensures Width(e) == if e.op.IsCompare() then BOOL else Width(e.left)
    ensures Pointwise(e) <==> Pointwise(e.left) && Pointwise(e.right)
  {
  }

  lemma {:induction false} EqCastPointwise(c: Term, r: Term)
    requires c.Constant? && Width(c) == Width(r) != BOOL && (r.SExt? || r.ZExt?) && Pointwise(r)
    ensures Pointwise(EqPartialR(c, r))
    decreases r, -1
  {
    hide Apply, SignExtend, ZeroExtend, EqWithConst;
    EqConstPointwise(r.src, Constant(c.value[..Width(r.src)]));
  }

  lemma {:induction false} EqConstPointwise(l: Term, c: Term)
    requires c.Constant? && Width(l) == Width(c) && Pointwise(l)
    ensures Pointwise(EqWithConst(l, c))
    decreases l, 1
  {
    hide Apply, EqPartialR, WF;
    if !l.Constant? {
      EqPartialPointwise(c, l);
    }
  }

  lemma {:induction false} IsZeroPointwise(e: Term)
    requires Pointwise(e)
    ensures Pointwise(IsZero(e))
    decreases e, 2
  {
    hide Apply, EqWithConst;
    EqConstPointwise(e, Constant(Zeros(Width(e))));
  }

  lemma EqPointwise(l: Term, r: Term)
    requires Width(l) == Width(r) && Pointwise(l) && Pointwise(r)
    ensures Pointwise(EqCreate(l, r))
  {
    hide Apply, EqPartialR, EqWithConst, WF;
    if r.Constant? {
      EqConstPointwise(l, r);
    } else if l.Constant? {
      EqPartialPointwise(l, r);
    }
  }

  lemma NePointwise(l: Term, r: Term)
    requires Width(l) == Width(r) && Pointwise(l) && Pointwise(r)
    ensures Pointwise(NeCreate(l, r))
  {
    hide Apply, EqCreate;
    EqPointwise(l, r);
    EqPointwise(False, EqCreate(l, r));
  }

  lemma XorPartialPointwise(c: Term, r: Term)
    requires c.Constant? && Width(c) == Width(r) && Pointwise(r)
    ensures Pointwise(XorPartialR(c, r))
  {
    hide Apply, EqPartialR;
    if Width(c) == BOOL {
      EqPartialPointwise(False, r);
    }
  }

  lemma XorPointwise(l: Term, r: Term)
    requires Width(l) == Width(r) && Pointwise(l) && Pointwise(r)
    ensures Pointwise(XorCreate(l, r))
  {
    hide Apply, XorPartialR, WF;
    if l.Constant? && !r.Constant? {
      XorPartialPointwise(l, r);
    } else if r.Constant? && !l.Constant? {
      XorPartialPointwise(r, l);
    }
  }

  // ----- sums and differences -----

  lemma {:induction false} PartialPointwise(c: Term, r: Term)
    requires c.Constant? && Width(c) == Width(r) && Pointwise(r)
    ensures Pointwise(AddPartialR(c, r)) && Pointwise(SubPartialR(c, r))
    decreases Size(c) + Size(r), 1, 0
  {
    hide Apply, XorPartialR, AddCreate, SubCreate, WF, Size, Pointwise;
    Constants(c);
    Node(Add, c, r);
    Node(Sub, c, r);
    if Width(c) == BOOL {
      XorPartialPointwise(c, r);
    } else if Linear(r) {
      LinearParts(r);
      BinaryParts(r);
      Folds(c, r.left);
      AddPointwise(Fold(Add, c, r.left), r.right);
      SubPointwise(Fold(Add, c, r.left), r.right);
      AddPointwise(Fold(Sub, c, r.left), r.right);
      SubPointwise(Fold(Sub, c, r.left), r.right);
    }
  }

  lemma Folds(c: Term, d: Term)
    requires c.Constant? && d.Constant? && Width(c) == Width(d)
    ensures Size(c) == Size(d) == Size(Fold(Add, c, d)) == Size(Fold(Sub, c, d)) == 1
    ensures Pointwise(c) && Pointwise(Fold(Add, c, d)) && Pointwise(Fold(Sub, c, d))
  {
    hide Apply;
  }

  lemma {:induction false} AddPointwise(l: Term, r: Term)
    requires Width(l) == Width(r) && Pointwise(l) && Pointwise(r)
    ensures Pointwise(AddCreate(l, r))
    decreases Size(l) + Size(r), Symbolic(l) + Symbolic(r), 1
  {
    hide Apply, XorCreate, Fold, AddPartialR, SubPartialR, SubCreate, WF, Size, Width, Pointwise;
    Node(Add, l, r);
    if l.Constant? && r.Constant? {
      Folds(l, r);
    } else if l.Constant? {
      PartialPointwise(l, r);
    } else if r.Constant? {
      PartialPointwise(r, l);
    } else if Width(l) == BOOL {
      XorPointwise(l, r);
    } else if Linear(l) {
      AddLeftPointwise(l, r);
    } else if Linear(r) {
      AddRightPointwise(l, r);
    }
  }

  lemma Node(op: BinOp, l: Term, r: Term)
    requires Pointwise(l) && Pointwise(r)
    ensures Pointwise(Binary(op, l, r))
  {
  }

  lemma {:induction false} AddLeftPointwise(l: Term, r: Term)
    requires BothSymbolic(l, r) && Linear(l) && Pointwise(l) && Pointwise(r)
    ensures Pointwise(AddCreate(l, r))
    decreases Size(l) + Size(r), Symbolic(l) + Symbolic(r), 0
  {
    hide Apply, WF, Width, Size, XorCreate, Fold, AddPartialR, SubPartialR, Pointwise;
    LinearParts(l);
    BinaryParts(l);
    if l.op == Add {
      AddPointwise(l.right, r);
      AddPointwise(l.left, AddCreate(l.right, r));
    } else {
      SubPointwise(r, l.right);
      AddPointwise(l.left, SubCreate(r, l.right));
    }
  }

  lemma {:induction false} AddRightPointwise(l: Term, r: Term)
    requires BothSymbolic(l, r) && !Linear(l) && Linear(r) && Pointwise(l) && Pointwise(r)
    ensures Pointwise(AddCreate(l, r))
    decreases Size(l) + Size(r), Symbolic(l) + Symbolic(r), 0
  {
    hide Apply, WF, Width, Size, XorCreate, Fold, AddPartialR, SubPartialR, Pointwise;
    LinearParts(r);
    BinaryParts(r);
    if r.op == Add {
      AddPointwise(l, r.right);
      AddPointwise(r.left, AddCreate(l, r.right));
    } else {
      SubPointwise(l, r.right);
      AddPointwise(r.left, SubCreate(l, r.right));
    }
  }

  lemma {:induction false} SubPointwise(l: Term, r: Term)
    requires Width(l) == Width(r) && Pointwise(l) && Pointwise(r)
    ensures Pointwise(SubCreate(l, r))
    decreases Size(l) + Size(r), Symbolic(l) + Symbolic(r), 1
  {
    hide Apply, XorCreate, Fold, AddPartialR, SubPartialR, AddCreate, WF, Size, Width, Negated, Pointwise;
    Node(Sub, l, r);
    if l.Constant? && r.Constant? {
      Folds(l, r);
    } else if l.Constant? {
      PartialPointwise(l, r);
    } else if r.Constant? {
      Folds(Negated(r), r);
      PartialPointwise(Negated(r), l);
    } else if Width(l) == BOOL {
      XorPointwise(l, r);
    } else if l == r {
      Constants(Constant(Zeros(Width(l))));
    } else if Linear(l) {
      SubLeftPointwise(l, r);
    } else if Linear(r) {
      SubRightPointwise(l, r);
    }
  }

  lemma {:induction false} SubLeftPointwise(l: Term, r: Term)
    requires BothSymbolic(l, r) && l != r && Linear(l) && Pointwise(l) && Pointwise(r)
    ensures Pointwise(SubCreate(l, r))
    decreases Size(l) + Size(r), Symbolic(l) + Symbolic(r), 0
  {
    hide Apply, WF, Width, Size, XorCreate, Fold, AddPartialR, SubPartialR, Pointwise;
    LinearParts(l);
    BinaryParts(l);
    if l.op == Add {
      SubPointwise(l.right, r);
      AddPointwise(l.left, SubCreate(l.right, r));
    } else {
      AddPointwise(l.right, r);
      SubPointwise(l.left, AddCreate(l.right, r));
    }
  }

  lemma {:induction false} SubRightPointwise(l: Term, r: Term)
    requires BothSymbolic(l, r) && l != r && !Linear(l) && Linear(r) && Pointwise(l) && Pointwise(r)
    ensures Pointwise(SubCreate(l, r))
    decreases Size(l) + Size(r), Symbolic(l) + Symbolic(r), 0
  {
    hide Apply, WF, Width, Size, XorCreate, Fold, AddPartialR, SubPartialR, Pointwise;
    LinearParts(r);
    BinaryParts(r);
    if r.op == Add {
      SubPointwise(l, r.right);
      SubPointwise(SubCreate(l, r.right), r.left);
    } else {
      AddPointwise(l, r.right);
      SubPointwise(AddCreate(l, r.right), r.left);
    }
  }

  // ----- the other kinds -----

  lemma MulPointwise(l: Term, r: Term)
    requires Width(l) == Width(r) && Pointwise(l) && Pointwise(r)
    ensures Pointwise(MulCreate(l, r))
  {
    hide Apply, WF, Width, FromInt, Fold, IsZeroConst, IsAllOnes, Pointwise;
    Node(Mul, l, r);
    Node(Mul, r, l);
    Node(And, l, r);
    Node(And, r, l);
    if l.Constant? && r.Constant? {
      Constants(Fold(Mul, l, r));
    }
  }

  lemma DivisionPointwise(op: BinOp, l: Term, r: Term)
    requires Width(l) == Width(r) && op.IsDivision() && Pointwise(l) && Pointwise(r)
    ensures Pointwise(DivisionCreate(op, l, r))
  {
    hide Apply, WF;
  }

  lemma ShiftPointwise(op: BinOp, l: Term, r: Term)
    requires Width(l) == Width(r) && (op == Shl || op == LShr || op == AShr) && Pointwise(l) && Pointwise(r)
    ensures Pointwise(ShiftCreate(op, l, r))
  {
    hide Apply, WF, AndCreate, IsZero;
    if Width(l) == BOOL {
      IsZeroPointwise(r);
      AndPointwise(l, IsZero(r));
    }
  }

  lemma OrderPointwise(op: BinOp, l: Term, r: Term)
    requires Width(l) == Width(r) && (op == Ult || op == Ule || op == Slt || op == Sle) && Pointwise(l) && Pointwise(r)
    ensures Pointwise(OrderCreate(op, l, r))
  {
    hide Apply, WF, AndCreate, OrCreate, IsZero;
    if Width(l) == BOOL {
      IsZeroPointwise(l);
      IsZeroPointwise(r);
      AndPointwise(l, IsZero(r));
      AndPointwise(IsZero(l), r);
    }
  }

  lemma ComparePointwise(op: BinOp, l: Term, r: Term)
    requires Width(l) == Width(r) && op.IsCompare() && Pointwise(l) && Pointwise(r)
    ensures Pointwise(CompareCreate(op, l, r))
  {
    hide Apply, WF, Width, OrderCreate, EqCreate, NeCreate, Pointwise;
    match op
    case Eq => EqPointwise(l, r);
    case Ne => NePointwise(l, r);
    case Ult => OrderPointwise(Ult, l, r);
    case Ule => OrderPointwise(Ule, l, r);
    case Ugt => OrderPointwise(Ult, r, l);
    case Uge => OrderPointwise(Ule, r, l);
    case Slt => OrderPointwise(Slt, l, r);
    case Sle => OrderPointwise(Sle, l, r);
    case Sgt => OrderPointwise(Slt, r, l);
    case Sge => OrderPointwise(Sle, r, l);
  }

  lemma CreatePointwise(op: BinOp, l: Term, r: Term)
    requires Width(l) == Width(r) && Pointwise(l) && Pointwise(r)
    ensures Pointwise(Create(op, l, r))
  {
    hide Apply, WF, Width, AndCreate, OrCreate, XorCreate, AddCreate, SubCreate, MulCreate, DivisionCreate, ShiftCreate;
    hide CompareCreate, Pointwise;
    if op.IsCompare() {
      ComparePointwise(op, l, r);
    } else if op.IsDivision() {
      DivisionPointwise(op, l, r);
    } else if op == Shl || op == LShr || op == AShr {
      ShiftPointwise(op, l, r);
    } else if op == Add {
      AddPointwise(l, r);
    } else if op == Sub {
      SubPointwise(l, r);
    } else if op == Mul {
      MulPointwise(l, r);
    } else if op == Xor {
      XorPointwise(l, r);
    } else {
      AndPointwise(l, r);
    }
  }

  lemma SelectPointwise(c: Formula, t: Term, f: Term)
    requires Width(t) == Width(f) && Pointwise(c) && Pointwise(t) && Pointwise(f)
    ensures Pointwise(SelectCreate(c, t, f))
  {
    hide Apply, WF, AndCreate, OrCreate, IsZero;
    if Width(t) == BOOL {
      IsZeroPointwise(c);
      AndPointwise(c, f);
      AndPointwise(c, t);
      AndPointwise(IsZero(c), f);
      AndPointwise(IsZero(c), t);
    }
  }

  lemma {:induction false} ConcatPointwise(l: Term, r: Term)
    requires Pointwise(l) && Pointwise(r)
    ensures Pointwise(ConcatCreate(l, r))
    decreases Size(l), 0
  {
    hide ExtractCreate;
    if l.Extract? && r.Extract? && l.expr == r.expr && r.offset + r.width == l.offset {
      ExtractPointwise(l.expr, r.offset, Width(l) + Width(r));
    }
  }

  lemma {:induction false} ExtractPointwise(e: Term, off: nat, w: nat)
    requires w >= 1 && off + w <= Width(e) && Pointwise(e)
    ensures Pointwise(ExtractCreate(e, off, w))
    decreases Size(e), 1
  {
    hide ConcatCreate, ConstantExtract;
    if w == Width(e) || e.Constant? {
    } else if e.Concat? {
      var rw := Width(e.right);
      if off >= rw {
        ExtractPointwise(e.left, off - rw, w);
      } else if off + w <= rw {
        ExtractPointwise(e.right, off, w);
      } else {
        ExtractPointwise(e.left, 0, w - rw + off);
        ExtractPointwise(e.right, off, rw - off);
        ConcatPointwise(ExtractCreate(e.left, 0, w - rw + off), ExtractCreate(e.right, off, rw - off));
      }
    } else if (e.ZExt? || e.SExt?) && off + w <= Width(e.src) && !(off == 0 && w == Width(e.src)) {
      ExtractPointwise(e.src, off, w);
    }
  }

  lemma CastPointwise(e: Term, w: nat)
    requires w >= 1 && Pointwise(e)
    ensures Pointwise(ZExtCreate(e, w)) && Pointwise(SExtCreate(e, w))
  {
    hide ExtractCreate, WF;
    if w < Width(e) {
      ExtractPointwise(e, 0, w);
    }
  }

  lemma {:induction false} RollBackPointwise(head: WriteList, index: Term)
    requires Width(index) == INT32 && PointwiseList(head)
    ensures PointwiseList(RollBack(head, index))
  {
    hide EqCreate, Pointwise, WF;
    if head.Update? && EqCreate(index, head.index) == False {
      RollBackPointwise(head.next, index);
    }
  }

  lemma ReadPointwise(root: Array, head: WriteList, index: Term)
    requires Width(index) == INT32 && Pointwise(Read(root, head, index))
    ensures Pointwise(ReadCreate(root, head, index))
  {
    hide EqCreate, RollBack;
    RollBackPointwise(head, index);
  }
}
