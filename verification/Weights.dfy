/** A weight that no `create` function increases: the expression it returns
    weighs no more than the plain node it stands for. Rewriting that makes one
    operand lighter therefore makes the rebuilt expression lighter, which is why
    replacement and the constraint worklist end. */
module Weights {
  import opened Bits
  import opened Exprs
  import opened SmartConstructors
  import opened ArithmeticConstructors
  import opened Constructors
  import opened SliceConstructors
  import opened ArrayReads

  /** Kinds that `create` may spell out with other kinds weigh more. */
  function OpWeight(op: BinOp): nat {
    match op
    case And => 1 case Eq => 1 case Xor => 1 case Add => 1 case Sub => 1 case Mul => 1
    case UDiv => 1 case SDiv => 1 case URem => 1 case SRem => 1
    case Or => 3 case Shl => 3 case LShr => 3 case AShr => 3
    case Ne => 5 case Ult => 5 case Ule => 5 case Ugt => 5 case Uge => 5
    case Slt => 5 case Sle => 5 case Sgt => 5 case Sge => 5
  }

  /** Extracts weigh nothing: splitting one over a concatenation makes two. */
  function Weight(e: Expr): (n: nat)
    ensures n >= 1
    ensures !e.Constant? ==> n >= 2
  {
    match e
    case Constant(_) => 1
    case NotOptimized(s) => 1 + Weight(s)
    case Read(_, head, index) => 1 + ListWeight(head) + Weight(index)
    case Select(c, t, f) => 4 + Weight(c) + Weight(t) + Weight(f)
    case Concat(l, r) => 1 + Weight(l) + Weight(r)
    case Extract(s, _, _) => (if s.Constant? then 1 else 0) + Weight(s)
    case ZExt(s, _) => 1 + Weight(s)
    case SExt(s, _) => 1 + Weight(s)
    case Not(s) => 1 + Weight(s)
    case Binary(op, l, r) => OpWeight(op) + Weight(l) + Weight(r)
  }

  function ListWeight(u: Updates): nat {
    match u
    case NoUpdates => 0
    case Update(i, v, next) => 1 + Weight(i) + Weight(v) + ListWeight(next)
  }

  lemma BinaryWeight(op: BinOp, l: Term, r: Term)
    ensures Weight(Binary(op, l, r)) == OpWeight(op) + Weight(l) + Weight(r)
  {
  }

  lemma ConstantWeight(e: Expr)
    requires e.Constant?
    ensures Weight(e) == 1
  {
  }

  lemma AndWeight(l: Term, r: Term)
    requires Width(l) == Width(r)
    ensures Weight(AndCreate(l, r)) <= 1 + Weight(l) + Weight(r)
  {
    hide WF, Apply, Eval;
  }

  lemma OrWeight(l: Term, r: Term)
    requires Width(l) == Width(r)
    ensures Weight(OrCreate(l, r)) <= 3 + Weight(l) + Weight(r)
  {
    hide WF, Width, Apply, Eval, Weight, Fold, IsAllOnes, IsZeroConst;
    BinaryWeight(Or, l, r);
    BinaryWeight(Or, r, l);
    if l.Constant? && r.Constant? {
      ConstantWeight(Fold(Or, l, r));
    }
  }

  lemma BinaryKids(e: Term)
    requires e.Binary?
    ensures WF(e.left) && WF(e.right) && Width(e.left) == Width(e.right)
    ensures Width(e) == if e.op.IsCompare() then BOOL else Width(e.left)
    ensures Weight(e) == OpWeight(e.op) + Weight(e.left) + Weight(e.right)
  {
  }

  lemma {:induction false} EqPartialWeight(c: Term, r: Term)
    requires c.Constant? && Width(c) == Width(r)
    ensures Weight(EqPartialR(c, r)) <= 2 + Weight(r)
    decreases r, 0
  {
    hide Apply, Eval, AndCreate, WF, SignExtend, ZeroExtend, IsZero, EqWithConst, Weight, Width;
    BOOLWidth();
    EqAllocWeight(c, r);
    if Width(c) == BOOL {
      if r.Binary? {
        BinaryKids(r);
        if r.op == Or {
          IsZeroWeight(r.left);
          IsZeroWeight(r.right);
          AndWeight(IsZero(r.left), IsZero(r.right));
        }
      }
    } else if r.SExt? || r.ZExt? {
      EqCastWeight(c, r);
    } else if r.Binary? {
      BinaryKids(r);
      if r.op == Add && r.left.Constant? {
        EqPartialWeight(Fold(Sub, c, r.left), r.right);
      } else if r.op == Sub && r.left.Constant? {
        EqPartialWeight(Fold(Sub, r.left, c), r.right);
      }
    }
  }

  lemma BOOLWidth()
    ensures Width(True) == BOOL && Weight(False) == 1 && Weight(True) == 1
  {
  }

  lemma EqAllocWeight(c: Term, r: Term)
    requires c.Constant? && Width(c) == Width(r)
    ensures Weight(EqAlloc(c, r)) <= 2 + Weight(r)
  {
    hide Eval, WF;
  }

  lemma {:induction false} EqCastWeight(c: Term, r: Term)
    requires c.Constant? && Width(c) == Width(r) != BOOL && (r.SExt? || r.ZExt?)
    ensures Weight(EqPartialR(c, r)) <= 2 + Weight(r)
    decreases r, -1
  {
    hide Apply, Eval, SignExtend, ZeroExtend, EqWithConst;
    EqConstWeight(r.src, Constant(c.value[..Width(r.src)]));
  }

  lemma {:induction false} EqConstWeight(l: Term, c: Term)
    requires c.Constant? && Width(l) == Width(c)
    ensures Weight(EqWithConst(l, c)) <= 2 + Weight(l)
    decreases l, 1
  {
    hide Apply, Eval, EqPartialR, WF;
    if !l.Constant? {
      EqPartialWeight(c, l);
    }
  }

  lemma {:induction false} IsZeroWeight(e: Term)
    ensures Weight(IsZero(e)) <= 2 + Weight(e)
    decreases e, 2
  {
    hide Apply, Eval, EqWithConst, WF;
    ZerosTerm(Width(e));
    EqConstWeight(e, Constant(Zeros(Width(e))));
  }

  lemma ZerosTerm(w: nat)
    requires w >= 1
    ensures WF(Constant(Zeros(w))) && Width(Constant(Zeros(w))) == w
  {
  }

  lemma EqWeight(l: Term, r: Term)
    requires Width(l) == Width(r)
    ensures Weight(EqCreate(l, r)) <= 1 + Weight(l) + Weight(r)
  {
    hide Apply, Eval, EqPartialR, EqWithConst, WF;
    if r.Constant? {
      EqConstWeight(l, r);
    } else if l.Constant? {
      EqPartialWeight(l, r);
    }
  }

  lemma NeWeight(l: Term, r: Term)
    requires Width(l) == Width(r)
    ensures Weight(NeCreate(l, r)) <= 3 + Weight(l) + Weight(r)
  {
    hide Apply, Eval, EqPartialR, EqCreate;
    EqWeight(l, r);
    EqWeight(False, EqCreate(l, r));
  }

  lemma XorPartialWeight(c: Term, r: Term)
    requires c.Constant? && Width(c) == Width(r)
    ensures Weight(XorPartialR(c, r)) <= 2 + Weight(r)
  {
    hide Apply, Eval, EqPartialR;
    if Width(c) == BOOL {
      EqPartialWeight(False, r);
    }
  }

  lemma XorWeight(l: Term, r: Term)
    requires Width(l) == Width(r)
    ensures Weight(XorCreate(l, r)) <= 1 + Weight(l) + Weight(r)
  {
    hide Apply, Eval, XorPartialR, WF;
    if l.Constant? && !r.Constant? {
      XorPartialWeight(l, r);
    } else if r.Constant? && !l.Constant? {
      XorPartialWeight(r, l);
    }
  }

  // ----- sums and differences -----

  lemma {:induction false} AddPartialWeight(c: Term, r: Term)
    requires c.Constant? && Width(c) == Width(r)
    ensures Weight(AddPartialR(c, r)) <= 2 + Weight(r)
    decreases Size(c) + Size(r), 1, 0
  {
    hide Apply, Eval, XorPartialR, AddCreate, SubCreate, WF, Size;
    if Width(c) == BOOL {
      XorPartialWeight(c, r);
    } else if Linear(r) {
      LinearParts(r);
      BinaryKids(r);
      ConstantSize(c, r.left);
      AddWeight(Fold(Add, c, r.left), r.right);
      SubWeight(Fold(Add, c, r.left), r.right);
    }
  }

  lemma ConstantSize(c: Term, d: Term)
    requires c.Constant? && d.Constant? && Width(c) == Width(d)
    ensures Size(c) == Size(d) == Size(Fold(Add, c, d)) == Size(Fold(Sub, c, d)) == 1
    ensures Weight(c) == Weight(d) == Weight(Fold(Add, c, d)) == Weight(Fold(Sub, c, d)) == 1
  {
    hide Apply;
  }

  lemma {:induction false} SubPartialWeight(c: Term, r: Term)
    requires c.Constant? && Width(c) == Width(r)
    ensures Weight(SubPartialR(c, r)) <= 2 + Weight(r)
    decreases Size(c) + Size(r), 1, 0
  {
    hide Apply, Eval, XorPartialR, AddCreate, SubCreate, WF, Size;
    if Width(c) == BOOL {
      XorPartialWeight(c, r);
    } else if Linear(r) {
      LinearParts(r);
      BinaryKids(r);
      ConstantSize(c, r.left);
      AddWeight(Fold(Sub, c, r.left), r.right);
      SubWeight(Fold(Sub, c, r.left), r.right);
    }
  }

  lemma {:induction false} AddWeight(l: Term, r: Term)
    requires Width(l) == Width(r)
    ensures Weight(AddCreate(l, r)) <= 1 + Weight(l) + Weight(r)
    decreases Size(l) + Size(r), Symbolic(l) + Symbolic(r), 1
  {
    hide Apply, Eval, XorCreate, Fold, AddPartialR, SubPartialR, SubCreate, WF, Size, Width, Weight;
    BinaryWeight(Add, l, r);
    if l.Constant? && r.Constant? {
      ConstantSize(l, r);
    } else if l.Constant? {
      AddPartialWeight(l, r);
    } else if r.Constant? {
      AddPartialWeight(r, l);
    } else if Width(l) == BOOL {
      XorWeight(l, r);
    } else if Linear(l) {
      AddLeftWeight(l, r);
    } else if Linear(r) {
      AddRightWeight(l, r);
    }
  }

  lemma {:induction false} AddLeftWeight(l: Term, r: Term)
    requires BothSymbolic(l, r) && Linear(l)
    ensures Weight(AddCreate(l, r)) <= 1 + Weight(l) + Weight(r)
    decreases Size(l) + Size(r), Symbolic(l) + Symbolic(r), 0
  {
    hide Apply, Eval, WF, Width, Size, Weight, XorCreate, Fold, AddPartialR, SubPartialR;
    LinearParts(l);
    BinaryKids(l);
    if l.op == Add {
      AddWeight(l.right, r);
      AddWeight(l.left, AddCreate(l.right, r));
    } else {
      SubWeight(r, l.right);
      AddWeight(l.left, SubCreate(r, l.right));
    }
  }

  lemma {:induction false} AddRightWeight(l: Term, r: Term)
    requires BothSymbolic(l, r) && !Linear(l) && Linear(r)
    ensures Weight(AddCreate(l, r)) <= 1 + Weight(l) + Weight(r)
    decreases Size(l) + Size(r), Symbolic(l) + Symbolic(r), 0
  {
    hide Apply, Eval, WF, Width, Size, Weight, XorCreate, Fold, AddPartialR, SubPartialR;
    LinearParts(r);
    BinaryKids(r);
    if r.op == Add {
      AddWeight(l, r.right);
      AddWeight(r.left, AddCreate(l, r.right));
    } else {
      SubWeight(l, r.right);
      AddWeight(r.left, SubCreate(l, r.right));
    }
  }

  lemma {:induction false} SubWeight(l: Term, r: Term)
    requires Width(l) == Width(r)
    ensures Weight(SubCreate(l, r)) <= 1 + Weight(l) + Weight(r)
    decreases Size(l) + Size(r), Symbolic(l) + Symbolic(r), 1
  {
    hide Apply, Eval, XorCreate, Fold, AddPartialR, SubPartialR, AddCreate, WF, Size, Width, Weight, Negated;
    BinaryWeight(Sub, l, r);
    if l.Constant? && r.Constant? {
      ConstantSize(l, r);
    } else if l.Constant? {
      SubPartialWeight(l, r);
    } else if r.Constant? {
      ConstantSize(Negated(r), r);
      AddPartialWeight(Negated(r), l);
    } else if Width(l) == BOOL {
      XorWeight(l, r);
    } else if l == r {
      ConstantWeight(Constant(Zeros(Width(l))));
    } else if Linear(l) {
      SubLeftWeight(l, r);
    } else if Linear(r) {
      SubRightWeight(l, r);
    }
  }

  lemma {:induction false} SubLeftWeight(l: Term, r: Term)
    requires BothSymbolic(l, r) && l != r && Linear(l)
    ensures Weight(SubCreate(l, r)) <= 1 + Weight(l) + Weight(r)
    decreases Size(l) + Size(r), Symbolic(l) + Symbolic(r), 0
  {
    hide Apply, Eval, WF, Width, Size, Weight, XorCreate, Fold, AddPartialR, SubPartialR;
    LinearParts(l);
    BinaryKids(l);
    if l.op == Add {
      SubWeight(l.right, r);
      AddWeight(l.left, SubCreate(l.right, r));
    } else {
      AddWeight(l.right, r);
      SubWeight(l.left, AddCreate(l.right, r));
    }
  }

  lemma {:induction false} SubRightWeight(l: Term, r: Term)
    requires BothSymbolic(l, r) && l != r && !Linear(l) && Linear(r)
    ensures Weight(SubCreate(l, r)) <= 1 + Weight(l) + Weight(r)
    decreases Size(l) + Size(r), Symbolic(l) + Symbolic(r), 0
  {
    hide Apply, Eval, WF, Width, Size, Weight, XorCreate, Fold, AddPartialR, SubPartialR;
    LinearParts(r);
    BinaryKids(r);
    if r.op == Add {
      SubWeight(l, r.right);
      SubWeight(SubCreate(l, r.right), r.left);
    } else {
      AddWeight(l, r.right);
      SubWeight(AddCreate(l, r.right), r.left);
    }
  }

  // ----- the other binary kinds -----

  lemma MulWeight(l: Term, r: Term)
    requires Width(l) == Width(r)
    ensures Weight(MulCreate(l, r)) <= 1 + Weight(l) + Weight(r)
  {
    hide Apply, Eval, WF, Width, FromInt, Weight, Fold, IsAllOnes;
    BinaryWeight(Mul, l, r);
    BinaryWeight(Mul, r, l);
    BinaryWeight(And, l, r);
    BinaryWeight(And, r, l);
    if l.Constant? {
      ConstantWeight(l);
    }
    if r.Constant? {
      ConstantWeight(r);
    }
    if l.Constant? && r.Constant? {
      ConstantWeight(Fold(Mul, l, r));
    }
  }

  lemma DivisionWeight(op: BinOp, l: Term, r: Term)
    requires Width(l) == Width(r) && op.IsDivision()
    ensures Weight(DivisionCreate(op, l, r)) <= 1 + Weight(l) + Weight(r)
  {
    hide *;
    DivisionKinds(op, l, r);
    BinaryWeight(op, l, r);
    Heavy(l);
    Heavy(r);
    if DivisionCreate(op, l, r).Constant? {
      ConstantWeight(DivisionCreate(op, l, r));
    }
  }

  lemma DivisionKinds(op: BinOp, l: Term, r: Term)
    requires Width(l) == Width(r) && op.IsDivision()
    ensures var e := DivisionCreate(op, l, r); e.Constant? || e == l || (e == Binary(op, l, r) && OpWeight(op) == 1)
  {
    hide Eval, Apply;
  }

  lemma Heavy(e: Expr)
    ensures Weight(e) >= 1
  {
  }

  lemma ShiftWeight(op: BinOp, l: Term, r: Term)
    requires Width(l) == Width(r) && (op == Shl || op == LShr || op == AShr)
    ensures Weight(ShiftCreate(op, l, r)) <= 3 + Weight(l) + Weight(r)
  {
    hide Apply, Eval, WF, Width, AndCreate, IsZero;
    if Width(l) == BOOL {
      IsZeroWeight(r);
      AndWeight(l, IsZero(r));
    }
  }

  lemma OrderWeight(op: BinOp, l: Term, r: Term)
    requires Width(l) == Width(r) && (op == Ult || op == Ule || op == Slt || op == Sle)
    ensures Weight(OrderCreate(op, l, r)) <= 5 + Weight(l) + Weight(r)
  {
    hide Apply, Eval, WF, Width, AndCreate, OrCreate, IsZero;
    if Width(l) == BOOL {
      IsZeroWeight(l);
      IsZeroWeight(r);
      AndWeight(l, IsZero(r));
      OrWeight(l, IsZero(r));
      AndWeight(IsZero(l), r);
      OrWeight(IsZero(l), r);
    }
  }

  /** No binary `create` weighs more than the plain node. */
  lemma CreateWeight(op: BinOp, l: Term, r: Term)
    requires Width(l) == Width(r)
    ensures Weight(Create(op, l, r)) <= Weight(Binary(op, l, r))
  {
    hide Apply, Eval, WF, Width, Weight, EqCreate, NeCreate, OrderCreate, DivisionCreate, ShiftCreate;
    hide AddCreate, SubCreate, MulCreate, AndCreate, OrCreate, XorCreate;
    BinaryWeight(op, l, r);
    match op
    case Add => AddWeight(l, r);
    case Sub => SubWeight(l, r);
    case Mul => MulWeight(l, r);
    case UDiv => DivisionWeight(op, l, r);
    case SDiv => DivisionWeight(op, l, r);
    case URem => DivisionWeight(op, l, r);
    case SRem => DivisionWeight(op, l, r);
    case And => AndWeight(l, r);
    case Or => OrWeight(l, r);
    case Xor => XorWeight(l, r);
    case Shl => ShiftWeight(op, l, r);
    case LShr => ShiftWeight(op, l, r);
    case AShr => ShiftWeight(op, l, r);
    case Eq => EqWeight(l, r);
    case Ne => NeWeight(l, r);
    case Ult => OrderWeight(Ult, l, r);
    case Ule => OrderWeight(Ule, l, r);
    case Ugt => OrderWeight(Ult, r, l);
    case Uge => OrderWeight(Ule, r, l);
    case Slt => OrderWeight(Slt, l, r);
    case Sle => OrderWeight(Sle, l, r);
    case Sgt => OrderWeight(Slt, r, l);
    case Sge => OrderWeight(Sle, r, l);
  }

  // ----- the other kinds -----

  lemma SelectWeight(c: Formula, t: Term, f: Term)
    requires Width(t) == Width(f)
    ensures Weight(SelectCreate(c, t, f)) <= Weight(Select(c, t, f))
  {
    hide Apply, Eval, WF, Width, AndCreate, OrCreate, IsZero;
    if Width(t) == BOOL {
      IsZeroWeight(c);
      AndWeight(IsZero(c), f);
      OrWeight(c, f);
      OrWeight(IsZero(c), t);
      AndWeight(c, t);
    }
  }

  lemma NotWeight(e: Term)
    ensures Weight(NotCreate(e)) <= Weight(Not(e))
  {
  }

  lemma {:induction false} ConcatWeight(l: Term, r: Term)
    ensures Weight(ConcatCreate(l, r)) <= 1 + Weight(l) + Weight(r)
    decreases Size(l), 0
  {
    hide Eval, ExtractCreate;
    if l.Extract? && r.Extract? && l.expr == r.expr && r.offset + r.width == l.offset {
      ExtractWeight(l.expr, r.offset, Width(l) + Width(r));
    }
  }

  lemma {:induction false} ExtractWeight(e: Term, off: nat, w: nat)
    requires w >= 1 && off + w <= Width(e)
    ensures Weight(ExtractCreate(e, off, w)) <= Weight(e)
    decreases Size(e), 1
  {
    hide Eval, ConcatCreate, ConstantExtract;
    if w == Width(e) || e.Constant? {
    } else if e.Concat? {
      ExtractConcatWeight(e, off, w);
    } else if (e.ZExt? || e.SExt?) && off + w <= Width(e.src) && !(off == 0 && w == Width(e.src)) {
      ExtractWeight(e.src, off, w);
    }
  }

  lemma {:induction false} ExtractConcatWeight(e: Term, off: nat, w: nat)
    requires w >= 1 && off + w <= Width(e) && w != Width(e) && e.Concat?
    ensures Weight(ExtractCreate(e, off, w)) <= Weight(e)
    decreases Size(e), 0
  {
    hide Eval, ConcatCreate, ConstantExtract;
    var rw := Width(e.right);
    if off >= rw {
      ExtractWeight(e.left, off - rw, w);
    } else if off + w <= rw {
      ExtractWeight(e.right, off, w);
    } else {
      ExtractWeight(e.left, 0, w - rw + off);
      ExtractWeight(e.right, off, rw - off);
      ConcatWeight(ExtractCreate(e.left, 0, w - rw + off), ExtractCreate(e.right, off, rw - off));
    }
  }

  lemma CastWeight(e: Term, w: nat)
    requires w >= 1
    ensures Weight(ZExtCreate(e, w)) <= 1 + Weight(e) && Weight(SExtCreate(e, w)) <= 1 + Weight(e)
  {
    hide Eval, ExtractCreate, WF, Width;
    if w < Width(e) {
      ExtractWeight(e, 0, w);
    }
  }

  lemma {:induction false} RollBackWeight(head: WriteList, index: Term)
    requires Width(index) == INT32
    ensures ListWeight(RollBack(head, index)) <= ListWeight(head)
  {
    hide Eval, EqCreate, Weight, WF;
    if head.Update? && EqCreate(index, head.index) == False {
      UpdateKids(head);
      RollBackWeight(head.next, index);
    }
  }

  lemma UpdateKids(u: WriteList)
    requires u.Update?
    ensures WF(u.index) && Width(u.index) == INT32 && WF(u.value) && Width(u.value) == INT8 && WFUpdates(u.next)
    ensures ListWeight(u) == 1 + Weight(u.index) + Weight(u.value) + ListWeight(u.next)
  {
  }

  lemma ReadWeight(root: Array, head: WriteList, index: Term)
    requires Width(index) == INT32
    ensures Weight(ReadCreate(root, head, index)) <= Weight(Read(root, head, index))
  {
    hide Eval, EqCreate, WF, RollBack;
    RollBackWeight(head, index);
    var un := RollBack(head, index);
    if un.Update? {
      UpdateKids(un);
    }
  }
}
