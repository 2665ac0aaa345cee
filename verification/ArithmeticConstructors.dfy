/** The arithmetic, shift, comparison and select constructors of
    lib/Expr/Expr.cpp. `AddExpr::create` and `SubExpr::create` call each other,
    nested, to float constants to the front of a linear formula; that recursion
    ends because a result is never larger than its operands plus one node. */
module ArithmeticConstructors {
  import opened Bits
  import opened Exprs
  import opened SmartConstructors

  // ----- Xor -----

  function XorPartialR(c: Term, r: Term): (e: Term)
    requires c.Constant? && Width(c) == Width(r)
    ensures Width(e) == Width(c)
  {
    if IsZeroConst(c) then r
    else if Width(c) == BOOL then EqPartialR(False, r)
    else Binary(Xor, c, r)
  }

  function XorCreate(l: Term, r: Term): (e: Term)
    requires Width(l) == Width(r)
    ensures Width(e) == Width(l)
  {
    if l.Constant? && r.Constant? then Fold(Xor, l, r)
    else if l.Constant? then XorPartialR(l, r)
    else if r.Constant? then XorPartialR(r, l)
    else Binary(Xor, l, r)
  }

  lemma XorPartialRSound(c: Term, r: Term, a: Assignment)
    requires c.Constant? && Width(c) == Width(r)
    ensures Eval(XorPartialR(c, r), a) == XorBits(c.value, Eval(r, a))
  {
    hide Plus, Minus, Product, ApplyDivision, Compare;
    XorLaws(Eval(r, a), c.value);
    if IsZeroConst(c) {
    } else if Width(c) == BOOL {
      FlipSound(r, a);
      OneBit(c.value, Zeros(1));
      OneBit(Eval(EqPartialR(False, r), a), XorBits(c.value, Eval(r, a)));
    } else {
      assert Eval(Binary(Xor, c, r), a) == XorBits(c.value, Eval(r, a));
    }
  }

  lemma FlipSound(r: Formula, a: Assignment)
    ensures Holds(EqPartialR(False, r), a) <==> !Holds(r, a)
  {
    EqPartialRSound(False, r, a);
    OneBit([false], Eval(r, a));
  }

  lemma XorSound(l: Term, r: Term, a: Assignment)
    requires Width(l) == Width(r)
    ensures Eval(XorCreate(l, r), a) == XorBits(Eval(l, a), Eval(r, a))
  {
    if l.Constant? && !r.Constant? {
      XorPartialRSound(l, r, a);
    } else if r.Constant? && !l.Constant? {
      XorPartialRSound(r, l, a);
      XorLaws(Eval(l, a), Eval(r, a));
    } else if !l.Constant? {
      assert Eval(Binary(Xor, l, r), a) == XorBits(Eval(l, a), Eval(r, a));
    }
  }

  // ----- Add, Sub -----

  /** A node `Binary(op, constant, _)`. */
  predicate LeadsWithConst(op: BinOp, e: Expr) {
    e.Binary? && e.op == op && e.left.Constant?
  }

  function Symbolic(e: Expr): nat { if e.Constant? then 0 else 1 }

  ghost predicate Bounded(l: Expr, r: Expr, e: Expr) {
    Width(l) != BOOL ==> Size(e) <= Size(l) + Size(r) + 1
  }

  function AddPartialR(c: Term, r: Term): (e: Term)
    requires c.Constant? && Width(c) == Width(r)
    ensures Width(e) == Width(c) && Bounded(c, r, e)
    decreases Size(c) + Size(r), 1, 0
  {
    if Width(c) == BOOL then XorPartialR(c, r)
    else if IsZeroConst(c) then r
    else if LeadsWithConst(Add, r) then AddCreate(Fold(Add, c, r.left), r.right)
    else if LeadsWithConst(Sub, r) then SubCreate(Fold(Add, c, r.left), r.right)
    else Binary(Add, c, r)
  }

  function SubPartialR(c: Term, r: Term): (e: Term)
    requires c.Constant? && Width(c) == Width(r)
    ensures Width(e) == Width(c) && Bounded(c, r, e)
    decreases Size(c) + Size(r), 1, 0
  {
    if Width(c) == BOOL then XorPartialR(c, r)
    else if LeadsWithConst(Add, r) then SubCreate(Fold(Sub, c, r.left), r.right)
    else if LeadsWithConst(Sub, r) then AddCreate(Fold(Sub, c, r.left), r.right)
    else Binary(Sub, c, r)
  }

  function AddCreate(l: Term, r: Term): (e: Term)
    requires Width(l) == Width(r)
    ensures Width(e) == Width(l) && Bounded(l, r, e)
    decreases Size(l) + Size(r), Symbolic(l) + Symbolic(r), 1
  {
    if l.Constant? && r.Constant? then Fold(Add, l, r)
    else if l.Constant? then AddPartialR(l, r)
    else if r.Constant? then AddPartialR(r, l)
    else if Width(l) == BOOL then XorCreate(l, r)
    else if LeadsWithConst(Add, l) then AddCreate(l.left, AddCreate(l.right, r))
    else if LeadsWithConst(Sub, l) then AddCreate(l.left, SubCreate(r, l.right))
    else if LeadsWithConst(Add, r) then AddCreate(r.left, AddCreate(l, r.right))
    else if LeadsWithConst(Sub, r) then AddCreate(r.left, SubCreate(l, r.right))
    else Binary(Add, l, r)
  }

  function SubCreate(l: Term, r: Term): (e: Term)
    requires Width(l) == Width(r)
    ensures Width(e) == Width(l) && Bounded(l, r, e)
    decreases Size(l) + Size(r), Symbolic(l) + Symbolic(r), 1
  {
    if l.Constant? && r.Constant? then Fold(Sub, l, r)
    else if l.Constant? then SubPartialR(l, r)
    else if r.Constant? then AddPartialR(Negated(r), l)
    else if Width(l) == BOOL then XorCreate(l, r)
    else if l == r then Constant(Zeros(Width(l)))
    else if LeadsWithConst(Add, l) then AddCreate(l.left, SubCreate(l.right, r))
    else if LeadsWithConst(Sub, l) then SubCreate(l.left, AddCreate(l.right, r))
    else if LeadsWithConst(Add, r) then SubCreate(SubCreate(l, r.right), r.left)
    else if LeadsWithConst(Sub, r) then SubCreate(AddCreate(l, r.right), r.left)
    else Binary(Sub, l, r)
  }

  function Negated(c: Term): (e: Term)
    requires c.Constant?
    ensures e.Constant? && Width(e) == Width(c)
  {
    Fold(Sub, Constant(Zeros(Width(c))), c)
  }

  // One lemma per rewrite family, so that each proof sees few rewrites.

  lemma {:induction false} AddPartialRSound(c: Term, r: Term, a: Assignment)
    requires c.Constant? && Width(c) == Width(r)
    ensures Eval(AddPartialR(c, r), a) == Plus(c.value, Eval(r, a))
    decreases Size(c) + Size(r), 1, 0
  {
    hide Plus, Minus, Product, ApplyDivision, Compare;
    if Width(c) == BOOL {
      XorPartialRSound(c, r, a);
      OneBitSum(c.value, Eval(r, a));
    } else if IsZeroConst(c) {
      PlusMinusZero(Eval(r, a), c.value);
    } else if LeadsWithConst(Add, r) {
      AddSound(Fold(Add, c, r.left), r.right, a);
      ReassociateSum(c.value, r.left.value, Eval(r.right, a));
    } else if LeadsWithConst(Sub, r) {
      SubSound(Fold(Add, c, r.left), r.right, a);
      ReassociateMixed(c.value, r.left.value, Eval(r.right, a));
    }
  }

  lemma {:induction false} SubPartialRSound(c: Term, r: Term, a: Assignment)
    requires c.Constant? && Width(c) == Width(r)
    ensures Eval(SubPartialR(c, r), a) == Minus(c.value, Eval(r, a))
    decreases Size(c) + Size(r), 1, 0
  {
    hide Plus, Minus, Product, ApplyDivision, Compare;
    if Width(c) == BOOL {
      XorPartialRSound(c, r, a);
      OneBitSum(c.value, Eval(r, a));
    } else if LeadsWithConst(Add, r) {
      SubSound(Fold(Sub, c, r.left), r.right, a);
      ReassociateDifference(c.value, r.left.value, Eval(r.right, a));
    } else if LeadsWithConst(Sub, r) {
      AddSound(Fold(Sub, c, r.left), r.right, a);
      ReassociateDifference(c.value, r.left.value, Eval(r.right, a));
    }
  }

  /** The rewrites of two symbolic operands, at a width above one. */
  ghost predicate BothSymbolic(l: Term, r: Term) {
    Width(l) == Width(r) != BOOL && !l.Constant? && !r.Constant?
  }

  predicate Linear(e: Expr) { LeadsWithConst(Add, e) || LeadsWithConst(Sub, e) }

  lemma {:induction false} AddLeftSound(l: Term, r: Term, a: Assignment)
    requires BothSymbolic(l, r) && Linear(l)
    ensures Eval(AddCreate(l, r), a) == Plus(Eval(l, a), Eval(r, a))
    decreases Size(l) + Size(r), Symbolic(l) + Symbolic(r), 0
  {
    hide Plus, Minus, Product, ApplyDivision, Compare;
    var y, k, z := Eval(r, a), l.left.value, Eval(l.right, a);
    if LeadsWithConst(Add, l) {
      AddSound(l.right, r, a);
      AddSound(l.left, AddCreate(l.right, r), a);
      ReassociateSum(k, z, y);
    } else {
      SubSound(r, l.right, a);
      AddSound(l.left, SubCreate(r, l.right), a);
      ReassociateMixed(y, k, z);
      PlusMinusZero(Eval(l, a), y);
    }
  }

  lemma {:induction false} AddRightSound(l: Term, r: Term, a: Assignment)
    requires BothSymbolic(l, r) && Linear(r) && !Linear(l)
    ensures Eval(AddCreate(l, r), a) == Plus(Eval(l, a), Eval(r, a))
    decreases Size(l) + Size(r), Symbolic(l) + Symbolic(r), 0
  {
    hide Plus, Minus, Product, ApplyDivision, Compare, Size, Fold, XorCreate, AddPartialR, SubPartialR;
    LinearParts(r);
    var x, k, z := Eval(l, a), r.left.value, Eval(r.right, a);
    if LeadsWithConst(Add, r) {
      AddSound(l, r.right, a);
      AddSound(r.left, AddCreate(l, r.right), a);
      ReassociateSum(x, k, z);
    } else {
      SubSound(l, r.right, a);
      AddSound(r.left, SubCreate(l, r.right), a);
      ReassociateMixed(x, k, z);
    }
  }

  /** `AddExpr::create` adds, for every width, shape and assignment. */
  lemma {:induction false} AddSound(l: Term, r: Term, a: Assignment)
    requires Width(l) == Width(r)
    ensures Eval(AddCreate(l, r), a) == Plus(Eval(l, a), Eval(r, a))
    decreases Size(l) + Size(r), Symbolic(l) + Symbolic(r), 1
  {
    hide Plus, Minus, Product, ApplyDivision, Compare;
    if l.Constant? && r.Constant? {
    } else if l.Constant? {
      AddPartialRSound(l, r, a);
    } else if r.Constant? {
      AddPartialRSound(r, l, a);
      PlusMinusZero(Eval(l, a), Eval(r, a));
    } else if Width(l) == BOOL {
      XorSound(l, r, a);
      OneBitSum(Eval(l, a), Eval(r, a));
    } else if Linear(l) {
      AddLeftSound(l, r, a);
    } else if Linear(r) {
      AddRightSound(l, r, a);
    } else {
      assert Eval(Binary(Add, l, r), a) == Plus(Eval(l, a), Eval(r, a));
    }
  }

  lemma {:induction false} SubLeftSound(l: Term, r: Term, a: Assignment)
    requires BothSymbolic(l, r) && Linear(l) && l != r
    ensures Eval(SubCreate(l, r), a) == Minus(Eval(l, a), Eval(r, a))
    decreases Size(l) + Size(r), Symbolic(l) + Symbolic(r), 0
  {
    hide Plus, Minus, Product, ApplyDivision, Compare;
    var y, k, z := Eval(r, a), l.left.value, Eval(l.right, a);
    if LeadsWithConst(Add, l) {
      SubSound(l.right, r, a);
      AddSound(l.left, SubCreate(l.right, r), a);
      ReassociateMixed(k, z, y);
    } else {
      AddSound(l.right, r, a);
      SubSound(l.left, AddCreate(l.right, r), a);
      ReassociateDifference(k, z, y);
    }
  }

  lemma {:induction false} SubRightSound(l: Term, r: Term, a: Assignment)
    requires BothSymbolic(l, r) && Linear(r) && !Linear(l) && l != r
    ensures Eval(SubCreate(l, r), a) == Minus(Eval(l, a), Eval(r, a))
    decreases Size(l) + Size(r), Symbolic(l) + Symbolic(r), 0
  {
    hide Plus, Minus, Product, ApplyDivision, Compare;
    var x, k, z := Eval(l, a), r.left.value, Eval(r.right, a);
    if LeadsWithConst(Add, r) {
      SubSound(l, r.right, a);
      SubSound(SubCreate(l, r.right), r.left, a);
      ReassociateDifference(x, z, k);
      PlusMinusZero(z, k);
    } else {
      AddSound(l, r.right, a);
      SubSound(AddCreate(l, r.right), r.left, a);
      ReassociateDifference(x, k, z);
    }
  }

  /** `SubExpr::create` subtracts, for every width, shape and assignment. */
  lemma {:induction false} SubSound(l: Term, r: Term, a: Assignment)
    requires Width(l) == Width(r)
    ensures Eval(SubCreate(l, r), a) == Minus(Eval(l, a), Eval(r, a))
    decreases Size(l) + Size(r), Symbolic(l) + Symbolic(r), 1
  {
    hide Plus, Minus, Product, ApplyDivision, Compare;
    if l.Constant? && r.Constant? {
    } else if l.Constant? {
      SubPartialRSound(l, r, a);
    } else if r.Constant? {
      AddPartialRSound(Negated(r), l, a);
      PlusMinusZero(Eval(r, a), Eval(l, a));
    } else if Width(l) == BOOL {
      XorSound(l, r, a);
      OneBitSum(Eval(l, a), Eval(r, a));
    } else if l == r {
      PlusMinusZero(Eval(l, a), Eval(r, a));
    } else if Linear(l) {
      SubLeftSound(l, r, a);
    } else if Linear(r) {
      SubRightSound(l, r, a);
    } else {
      assert Eval(Binary(Sub, l, r), a) == Minus(Eval(l, a), Eval(r, a));
    }
  }

  // ----- sums of a constant and a symbolic term stay symbolic -----

  /** No constant is added to, or reduced by, another constant. */
  predicate Folded(e: Expr) {
    Linear(e) ==> !e.right.Constant? && Folded(e.right)
  }

  /** A constant combined with a folded symbolic term is folded and symbolic. */
  lemma {:induction false} FoldedPartial(c: Term, r: Term)
    requires c.Constant? && Width(c) == Width(r) != BOOL && !r.Constant? && Folded(r)
    ensures !AddPartialR(c, r).Constant? && Folded(AddPartialR(c, r))
    ensures !SubPartialR(c, r).Constant? && Folded(SubPartialR(c, r))
    decreases Size(r)
  {
    hide Apply, Eval;
    if Linear(r) {
      FoldedPartial(Fold(Add, c, r.left), r.right);
      FoldedPartial(Fold(Sub, c, r.left), r.right);
    }
  }

  lemma LinearParts(e: Term)
    requires Linear(e)
    ensures WF(e.left) && WF(e.right) && Width(e.left) == Width(e.right) == Width(e)
    ensures Size(e.left) + Size(e.right) < Size(e)
  {
  }

  /** `AddExpr::create` and `SubExpr::create` keep sums and differences folded. */
  lemma {:induction false} FoldedAdd(l: Term, r: Term)
    requires Width(l) == Width(r) != BOOL && Folded(l) && Folded(r)
    ensures Folded(AddCreate(l, r))
    decreases Size(l) + Size(r), Symbolic(l) + Symbolic(r), 1
  {
    hide Apply, Eval, WF, Width, Size, XorCreate, Fold, AddPartialR, SubPartialR, SubCreate;
    if l.Constant? && r.Constant? {
    } else if l.Constant? {
      FoldedPartial(l, r);
    } else if r.Constant? {
      FoldedPartial(r, l);
    } else if Linear(l) {
      FoldedAddLeft(l, r);
    } else if Linear(r) {
      FoldedAddRight(l, r);
    }
  }

  lemma {:induction false} FoldedAddLeft(l: Term, r: Term)
    requires BothSymbolic(l, r) && Linear(l) && Folded(l) && Folded(r)
    ensures Folded(AddCreate(l, r))
    decreases Size(l) + Size(r), Symbolic(l) + Symbolic(r), 0
  {
    hide Apply, Eval, WF, Width, Size, XorCreate, Fold, AddPartialR, SubPartialR;
    LinearParts(l);
    if l.op == Add {
      FoldedAdd(l.right, r);
      FoldedAdd(l.left, AddCreate(l.right, r));
    } else {
      FoldedSub(r, l.right);
      FoldedAdd(l.left, SubCreate(r, l.right));
    }
  }

  lemma {:induction false} FoldedAddRight(l: Term, r: Term)
    requires BothSymbolic(l, r) && !Linear(l) && Linear(r) && Folded(l) && Folded(r)
    ensures Folded(AddCreate(l, r))
    decreases Size(l) + Size(r), Symbolic(l) + Symbolic(r), 0
  {
    hide Apply, Eval, WF, Width, Size, XorCreate, Fold, AddPartialR, SubPartialR;
    LinearParts(r);
    if r.op == Add {
      FoldedAdd(l, r.right);
      FoldedAdd(r.left, AddCreate(l, r.right));
    } else {
      FoldedSub(l, r.right);
      FoldedAdd(r.left, SubCreate(l, r.right));
    }
  }

  lemma {:induction false} FoldedSub(l: Term, r: Term)
    requires Width(l) == Width(r) != BOOL && Folded(l) && Folded(r)
    ensures Folded(SubCreate(l, r))
    decreases Size(l) + Size(r), Symbolic(l) + Symbolic(r), 1
  {
    hide Apply, Eval, WF, Width, Size, XorCreate, Fold, AddPartialR, SubPartialR, AddCreate;
    if l.Constant? && r.Constant? {
    } else if l.Constant? {
      FoldedPartial(l, r);
    } else if r.Constant? {
      FoldedPartial(Negated(r), l);
    } else if l == r {
    } else if Linear(l) {
      FoldedSubLeft(l, r);
    } else if Linear(r) {
      FoldedSubRight(l, r);
    }
  }

  lemma {:induction false} FoldedSubLeft(l: Term, r: Term)
    requires BothSymbolic(l, r) && l != r && Linear(l) && Folded(l) && Folded(r)
    ensures Folded(SubCreate(l, r))
    decreases Size(l) + Size(r), Symbolic(l) + Symbolic(r), 0
  {
    hide Apply, Eval, WF, Width, Size, XorCreate, Fold, AddPartialR, SubPartialR;
    LinearParts(l);
    if l.op == Add {
      FoldedSub(l.right, r);
      FoldedAdd(l.left, SubCreate(l.right, r));
    } else {
      FoldedAdd(l.right, r);
      FoldedSub(l.left, AddCreate(l.right, r));
    }
  }

  lemma {:induction false} FoldedSubRight(l: Term, r: Term)
    requires BothSymbolic(l, r) && !Linear(l) && Linear(r) && Folded(l) && Folded(r)
    ensures Folded(SubCreate(l, r))
    decreases Size(l) + Size(r), Symbolic(l) + Symbolic(r), 0
  {
    hide Apply, Eval, WF, Width, Size, XorCreate, Fold, AddPartialR, SubPartialR;
    LinearParts(r);
    if r.op == Add {
      FoldedSub(l, r.right);
      FoldedSub(SubCreate(l, r.right), r.left);
    } else {
      FoldedAdd(l, r.right);
      FoldedSub(AddCreate(l, r.right), r.left);
    }
  }
}
