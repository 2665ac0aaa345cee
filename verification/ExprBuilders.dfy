/** The constant-folding and simplifying expression builders
    (lib/Expr/ExprBuilder.cpp), stacked on the default builder, which allocates
    plain nodes. Sums and differences are reassociated by mutually recursive,
    nested calls; the recursion ends because a result is never larger than its
    operands plus one node. */
module ExprBuilders {
  import opened Bits
  import opened Exprs
  import opened SmartConstructors
  import opened ArithmeticConstructors
  import opened SliceConstructors
  import opened ArrayReads

  predicate IsSum(e: Expr) { e.Binary? && e.op == Add }
  predicate IsDifference(e: Expr) { e.Binary? && e.op == Sub }

  lemma Parts(e: Term)
    requires IsSum(e) || IsDifference(e)
    ensures WF(e.left) && WF(e.right) && Width(e.left) == Width(e.right) == Width(e)
    ensures Size(e) == 1 + Size(e.left) + Size(e.right)
  {
  }

  lemma PartsValue(e: Term, a: Assignment)
    requires IsSum(e) || IsDifference(e)
    ensures WF(e.left) && WF(e.right) && Width(e.left) == Width(e.right) == Width(e)
    ensures Eval(e, a) == if IsSum(e) then Plus(Eval(e.left, a), Eval(e.right, a)) else Minus(Eval(e.left, a), Eval(e.right, a))
    ensures e.left.Constant? ==> Eval(e.left, a) == e.left.value
    ensures e.right.Constant? ==> Eval(e.right, a) == e.right.value
  {
  }

  // ----- constant folding: sums and differences -----

  function FoldAdd(l: Term, r: Term): (e: Term)
    requires Width(l) == Width(r)
    ensures Width(e) == Width(l) && Size(e) <= Size(l) + Size(r) + 1
    decreases Size(l) + Size(r), Size(l), 2
  {
    if l.Constant? && r.Constant? then Fold(Add, l, r)
    else if l.Constant? then AddConst(l, r)
    else if r.Constant? then AddConst(r, l)
    else AddBoth(l, r)
  }

  function AddConst(c: Term, r: Term): (e: Term)
    requires Width(c) == Width(r) && c.Constant? && !r.Constant?
    ensures Width(e) == Width(c) && Size(e) <= Size(c) + Size(r) + 1
    decreases Size(c) + Size(r), Size(c), 0
  {
    if IsZeroConst(c) then r
    else if IsSum(r) then
      Parts(r);
      if r.left.Constant? then FoldAdd(Fold(Add, c, r.left), r.right)
      else if r.right.Constant? then FoldAdd(Fold(Add, c, r.right), r.left)
      else Binary(Add, c, r)
    else if IsDifference(r) then
      Parts(r);
      if r.left.Constant? then FoldSub(Fold(Add, c, r.left), r.right)
      else if r.right.Constant? then FoldAdd(Fold(Sub, c, r.right), r.left)
      else Binary(Add, c, r)
    else Binary(Add, c, r)
  }

  function AddBoth(l: Term, r: Term): (e: Term)
    requires Width(l) == Width(r) && !l.Constant? && !r.Constant?
    ensures Width(e) == Width(l) && Size(e) <= Size(l) + Size(r) + 1
    decreases Size(l) + Size(r), Size(l), 1
  {
    if IsSum(l) then
      Parts(l);
      FoldAdd(l.left, FoldAdd(l.right, r))
    else if IsDifference(l) then
      Parts(l);
      FoldAdd(l.left, FoldSub(r, l.right))
    else AddRight(l, r)
  }

  function AddRight(l: Term, r: Term): (e: Term)
    requires Width(l) == Width(r) && !l.Constant? && !r.Constant?
    ensures Width(e) == Width(l) && Size(e) <= Size(l) + Size(r) + 1
    decreases Size(l) + Size(r), Size(l), 0
  {
    if IsSum(r) then
      Parts(r);
      if r.left.Constant? then FoldAdd(r.left, FoldAdd(l, r.right))
      else if r.right.Constant? then FoldAdd(r.right, FoldAdd(l, r.left))
      else Binary(Add, l, r)
    else if IsDifference(r) then
      Parts(r);
      if r.left.Constant? then FoldAdd(r.left, FoldSub(l, r.right))
      else if r.right.Constant? then FoldAdd(Negated(r.right), FoldAdd(l, r.left))
      else Binary(Add, l, r)
    else Binary(Add, l, r)
  }

  function FoldSub(l: Term, r: Term): (e: Term)
    requires Width(l) == Width(r)
    ensures Width(e) == Width(l) && Size(e) <= Size(l) + Size(r) + 1
    decreases Size(l) + Size(r), Size(l), 2
  {
    if l.Constant? && r.Constant? then Fold(Sub, l, r)
    else if l.Constant? then SubConst(l, r)
    else if r.Constant? then AddConst(Negated(r), l)
    else SubBoth(l, r)
  }

  function SubConst(c: Term, r: Term): (e: Term)
    requires Width(c) == Width(r) && c.Constant? && !r.Constant?
    ensures Width(e) == Width(c) && Size(e) <= Size(c) + Size(r) + 1
    decreases Size(c) + Size(r), Size(c), 0
  {
    if IsSum(r) then
      Parts(r);
      if r.left.Constant? then FoldSub(Fold(Sub, c, r.left), r.right)
      else if r.right.Constant? then FoldSub(Fold(Sub, c, r.right), r.left)
      else Binary(Sub, c, r)
    else if IsDifference(r) then
      Parts(r);
      if r.left.Constant? then FoldAdd(Fold(Sub, c, r.left), r.right)
      else if r.right.Constant? then FoldSub(Fold(Add, c, r.right), r.left)
      else Binary(Sub, c, r)
    else Binary(Sub, c, r)
  }

  function SubBoth(l: Term, r: Term): (e: Term)
    requires Width(l) == Width(r) && !l.Constant? && !r.Constant?
    ensures Width(e) == Width(l) && Size(e) <= Size(l) + Size(r) + 1
    decreases Size(l) + Size(r), Size(l), 1
  {
    if IsSum(l) then
      Parts(l);
      FoldAdd(l.left, FoldSub(l.right, r))
    else if IsDifference(l) then
      Parts(l);
      FoldSub(l.left, FoldAdd(l.right, r))
    else SubRight(l, r)
  }

  function SubRight(l: Term, r: Term): (e: Term)
    requires Width(l) == Width(r) && !l.Constant? && !r.Constant?
    ensures Width(e) == Width(l) && Size(e) <= Size(l) + Size(r) + 1
    decreases Size(l) + Size(r), Size(l), 0
  {
    if IsSum(r) then
      Parts(r);
      if r.left.Constant? then FoldAdd(Negated(r.left), FoldSub(l, r.right))
      else if r.right.Constant? then FoldAdd(Negated(r.right), FoldSub(l, r.left))
      else Binary(Sub, l, r)
    else if IsDifference(r) then
      Parts(r);
      if r.left.Constant? then FoldAdd(Negated(r.left), FoldAdd(l, r.right))
      else if r.right.Constant? then FoldAdd(r.right, FoldSub(l, r.left))
      else Binary(Sub, l, r)
    else Binary(Sub, l, r)
  }

  // ----- their soundness, one lemma per family of rewrites -----

  lemma FoldValue(op: BinOp, l: Term, r: Term)
    requires l.Constant? && r.Constant? && Width(l) == Width(r) && (op == Add || op == Sub)
    ensures |l.value| == |r.value| == Width(l) >= 1 && Size(Fold(op, l, r)) == Size(l)
    ensures Fold(op, l, r).value == if op == Add then Plus(l.value, r.value) else Minus(l.value, r.value)
  {
  }

  lemma NegatedValue(c: Term)
    requires c.Constant?
    ensures Negated(c).value == Minus(Zeros(Width(c)), c.value) && |c.value| == Width(c) >= 1
  {
  }

  lemma SumNode(l: Term, r: Term, a: Assignment)
    requires Width(l) == Width(r)
    ensures Eval(Binary(Add, l, r), a) == Plus(Eval(l, a), Eval(r, a))
    ensures Eval(Binary(Sub, l, r), a) == Minus(Eval(l, a), Eval(r, a))
  {
  }

  lemma {:induction false} FoldAddSound(l: Term, r: Term, a: Assignment)
    requires Width(l) == Width(r)
    ensures Eval(FoldAdd(l, r), a) == Plus(Eval(l, a), Eval(r, a))
    decreases Size(l) + Size(r), Size(l), 2
  {
    hide Plus, Minus, Eval, AddConst, AddBoth, Fold, Size;
    PlusMinusZero(Eval(l, a), Eval(r, a));
    if l.Constant? && r.Constant? {
      FoldValue(Add, l, r);
      ConstantNode(l, a);
      ConstantNode(r, a);
      ConstantNode(Fold(Add, l, r), a);
    } else if l.Constant? {
      AddConstSound(l, r, a);
    } else if r.Constant? {
      Ranked(r, l);
      AddConstSound(r, l, a);
    } else {
      AddBothSound(l, r, a);
    }
  }

  lemma {:induction false} AddConstSound(c: Term, r: Term, a: Assignment)
    requires Width(c) == Width(r) && c.Constant? && !r.Constant?
    ensures Eval(AddConst(c, r), a) == Plus(Eval(c, a), Eval(r, a))
    decreases Size(c) + Size(r), Size(c), 0
  {
    hide Plus, Minus, Eval, FoldAdd, FoldSub, Fold, Size;
    ConstantNode(c, a);
    SumNode(c, r, a);
    PlusMinusZero(Eval(r, a), Eval(c, a));
    if !IsZeroConst(c) && (IsSum(r) || IsDifference(r)) {
      Parts(r);
      PartsValue(r, a);
      var x, y := Eval(r.left, a), Eval(r.right, a);
      ReassociateSum(c.value, x, y);
      ReassociateMixed(c.value, x, y);
      PlusMinusZero(x, y);
      PlusMinusZero(x, Minus(c.value, y));
      if r.left.Constant? {
        FoldValue(Add, c, r.left);
        ConstantNode(Fold(Add, c, r.left), a);
        if IsSum(r) {
          FoldAddSound(Fold(Add, c, r.left), r.right, a);
        } else {
          FoldSubSound(Fold(Add, c, r.left), r.right, a);
        }
      } else if r.right.Constant? {
        var op: BinOp := if IsSum(r) then Add else Sub;
        FoldValue(op, c, r.right);
        ConstantNode(Fold(op, c, r.right), a);
        FoldAddSound(Fold(op, c, r.right), r.left, a);
        ReassociateSum(c.value, y, x);
      }
    }
  }

  lemma {:induction false} AddBothSound(l: Term, r: Term, a: Assignment)
    requires Width(l) == Width(r) && !l.Constant? && !r.Constant?
    ensures Eval(AddBoth(l, r), a) == Plus(Eval(l, a), Eval(r, a))
    decreases Size(l) + Size(r), Size(l), 1
  {
    hide Plus, Minus, Eval, FoldAdd, FoldSub, AddRight, Size;
    if IsSum(l) {
      Parts(l);
      PartsValue(l, a);
      FoldAddSound(l.right, r, a);
      FoldAddSound(l.left, FoldAdd(l.right, r), a);
      ReassociateSum(Eval(l.left, a), Eval(l.right, a), Eval(r, a));
    } else if IsDifference(l) {
      Parts(l);
      PartsValue(l, a);
      FoldSubSound(r, l.right, a);
      FoldAddSound(l.left, FoldSub(r, l.right), a);
      ReassociateMixed(Eval(l.left, a), Eval(r, a), Eval(l.right, a));
      PlusMinusZero(Eval(l, a), Eval(r, a));
    } else {
      AddRightSound(l, r, a);
    }
  }

  lemma {:induction false} AddRightSound(l: Term, r: Term, a: Assignment)
    requires Width(l) == Width(r) && !l.Constant? && !r.Constant?
    ensures Eval(AddRight(l, r), a) == Plus(Eval(l, a), Eval(r, a))
    decreases Size(l) + Size(r), Size(l), 0
  {
    hide Plus, Minus, Eval, FoldAdd, FoldSub, Negated, Size;
    SumNode(l, r, a);
    if IsSum(r) || IsDifference(r) {
      Parts(r);
      PartsValue(r, a);
      var w, x, y := Eval(l, a), Eval(r.left, a), Eval(r.right, a);
      if r.left.Constant? {
        Ranked(r.left, l);
        ReassociateSum(w, x, y);
        ReassociateMixed(w, x, y);
        if IsSum(r) {
          FoldAddSound(l, r.right, a);
          FoldAddSound(r.left, FoldAdd(l, r.right), a);
        } else {
          FoldSubSound(l, r.right, a);
          FoldAddSound(r.left, FoldSub(l, r.right), a);
        }
      } else if r.right.Constant? {
        Ranked(r.right, l);
        FoldAddSound(l, r.left, a);
        if IsSum(r) {
          FoldAddSound(r.right, FoldAdd(l, r.left), a);
          PlusMinusZero(x, y);
          ReassociateSum(w, y, x);
        } else {
          Ranked(Negated(r.right), l);
          NegatedSound(r.right, Plus(w, x), a);
          FoldAddSound(Negated(r.right), FoldAdd(l, r.left), a);
          ReassociateMixed(w, x, y);
        }
      }
    }
  }

  /** Adding a negated constant subtracts it. */
  lemma NegatedSound(c: Term, x: Bits, a: Assignment)
    requires c.Constant? && |x| == Width(c)
    ensures Plus(Eval(Negated(c), a), x) == Minus(x, Eval(c, a))
  {
    hide Plus, Minus, Negated;
    NegatedValue(c);
    ConstantNode(c, a);
    ConstantNode(Negated(c), a);
    PlusMinusZero(c.value, x);
  }

  lemma {:induction false} FoldSubSound(l: Term, r: Term, a: Assignment)
    requires Width(l) == Width(r)
    ensures Eval(FoldSub(l, r), a) == Minus(Eval(l, a), Eval(r, a))
    decreases Size(l) + Size(r), Size(l), 2
  {
    hide Plus, Minus, Eval, AddConst, SubConst, SubBoth, Negated, Fold, Size;
    if l.Constant? && r.Constant? {
      FoldValue(Sub, l, r);
      ConstantNode(l, a);
      ConstantNode(r, a);
      ConstantNode(Fold(Sub, l, r), a);
    } else if l.Constant? {
      SubConstSound(l, r, a);
    } else if r.Constant? {
      Ranked(r, l);
      Ranked(Negated(r), l);
      NegatedSound(r, Eval(l, a), a);
      AddConstSound(Negated(r), l, a);
    } else {
      SubBothSound(l, r, a);
    }
  }

  lemma {:induction false} SubConstSound(c: Term, r: Term, a: Assignment)
    requires Width(c) == Width(r) && c.Constant? && !r.Constant?
    ensures Eval(SubConst(c, r), a) == Minus(Eval(c, a), Eval(r, a))
    decreases Size(c) + Size(r), Size(c), 0
  {
    hide Plus, Minus, Eval, FoldAdd, FoldSub, Fold, Size;
    ConstantNode(c, a);
    SumNode(c, r, a);
    if IsSum(r) || IsDifference(r) {
      Parts(r);
      PartsValue(r, a);
      var x, y := Eval(r.left, a), Eval(r.right, a);
      if r.left.Constant? {
        FoldValue(Sub, c, r.left);
        ConstantNode(Fold(Sub, c, r.left), a);
        ReassociateDifference(c.value, x, y);
        if IsSum(r) {
          FoldSubSound(Fold(Sub, c, r.left), r.right, a);
        } else {
          FoldAddSound(Fold(Sub, c, r.left), r.right, a);
        }
      } else if r.right.Constant? {
        var op: BinOp := if IsSum(r) then Sub else Add;
        FoldValue(op, c, r.right);
        ConstantNode(Fold(op, c, r.right), a);
        FoldSubSound(Fold(op, c, r.right), r.left, a);
        PlusMinusZero(x, y);
        ReassociateDifference(c.value, y, x);
        ReassociateDifference(c.value, x, y);
      }
    }
  }

  lemma {:induction false} SubBothSound(l: Term, r: Term, a: Assignment)
    requires Width(l) == Width(r) && !l.Constant? && !r.Constant?
    ensures Eval(SubBoth(l, r), a) == Minus(Eval(l, a), Eval(r, a))
    decreases Size(l) + Size(r), Size(l), 1
  {
    hide Plus, Minus, Eval, FoldAdd, FoldSub, SubRight, Size;
    if IsSum(l) {
      Parts(l);
      PartsValue(l, a);
      FoldSubSound(l.right, r, a);
      FoldAddSound(l.left, FoldSub(l.right, r), a);
      ReassociateMixed(Eval(l.left, a), Eval(l.right, a), Eval(r, a));
    } else if IsDifference(l) {
      Parts(l);
      PartsValue(l, a);
      FoldAddSound(l.right, r, a);
      FoldSubSound(l.left, FoldAdd(l.right, r), a);
      ReassociateDifference(Eval(l.left, a), Eval(l.right, a), Eval(r, a));
    } else {
      SubRightSound(l, r, a);
    }
  }

  lemma {:induction false} SubRightSound(l: Term, r: Term, a: Assignment)
    requires Width(l) == Width(r) && !l.Constant? && !r.Constant?
    ensures Eval(SubRight(l, r), a) == Minus(Eval(l, a), Eval(r, a))
    decreases Size(l) + Size(r), Size(l), 0
  {
    hide Plus, Minus, Eval, FoldAdd, FoldSub, Negated, Size;
    SumNode(l, r, a);
    if IsSum(r) || IsDifference(r) {
      Parts(r);
      PartsValue(r, a);
      var w, x, y := Eval(l, a), Eval(r.left, a), Eval(r.right, a);
      ReassociateDifference(w, x, y);
      if r.left.Constant? {
        Ranked(Negated(r.left), l);
        Ranked(r.left, l);
        if IsSum(r) {
          FoldSubSound(l, r.right, a);
          NegatedSound(r.left, Minus(w, y), a);
          FoldAddSound(Negated(r.left), FoldSub(l, r.right), a);
          PlusMinusZero(x, y);
          ReassociateDifference(w, y, x);
        } else {
          FoldAddSound(l, r.right, a);
          NegatedSound(r.left, Plus(w, y), a);
          FoldAddSound(Negated(r.left), FoldAdd(l, r.right), a);
        }
      } else if r.right.Constant? {
        Ranked(Negated(r.right), l);
        Ranked(r.right, l);
        FoldSubSound(l, r.left, a);
        if IsSum(r) {
          NegatedSound(r.right, Minus(w, x), a);
          FoldAddSound(Negated(r.right), FoldSub(l, r.left), a);
        } else {
          FoldAddSound(r.right, FoldSub(l, r.left), a);
          PlusMinusZero(Minus(w, x), y);
        }
      }
    }
  }

  lemma Ranked(c: Term, r: Term)
    requires c.Constant? && !r.Constant?
    ensures Size(c) == 1 < Size(r)
  {
  }

  // ----- constant folding: the other operations -----

  function FoldNot(e: Term): (r: Term)
    ensures Width(r) == Width(e)
  {
    if e.Not? then e.expr else if e.Constant? then Constant(NotBits(e.value)) else Not(e)
  }

  function MulConst(c: Term, r: Term): (e: Term)
    requires Width(c) == Width(r) && c.Constant?
    ensures Width(e) == Width(c)
  {
    if IsZeroConst(c) then c else if c.value == FromInt(1, |c.value|) then r else Binary(Mul, c, r)
  }

  function AndConst(c: Term, r: Term): (e: Term)
    requires Width(c) == Width(r) && c.Constant?
    ensures Width(e) == Width(c)
  {
    if IsZeroConst(c) then c else if IsAllOnes(c) then r else Binary(And, c, r)
  }

  function OrConst(c: Term, r: Term): (e: Term)
    requires Width(c) == Width(r) && c.Constant?
    ensures Width(e) == Width(c)
  {
    if IsZeroConst(c) then r else if IsAllOnes(c) then c else Binary(Or, c, r)
  }

  function XorConst(c: Term, r: Term): (e: Term)
    requires Width(c) == Width(r) && c.Constant?
    ensures Width(e) == Width(c)
  {
    if IsZeroConst(c) then r else Binary(Xor, c, r)
  }

  function EqConst(c: Term, r: Term): (e: Formula)
    requires Width(c) == Width(r) && c.Constant?
  {
    if Width(c) == BOOL then if c == True then r else Not(r)
    else Binary(Eq, c, r)
  }

  predicate Commutes(op: BinOp) { op == Mul || op == And || op == Or || op == Xor || op == Eq }

  function WithConst(op: BinOp, c: Term, r: Term): (e: Term)
    requires Width(c) == Width(r) && c.Constant? && Commutes(op)
    ensures Width(e) == if op == Eq then BOOL else Width(c)
  {
    match op
    case Mul => MulConst(c, r)
    case And => AndConst(c, r)
    case Or => OrConst(c, r)
    case Xor => XorConst(c, r)
    case Eq => EqConst(c, r)
  }

  /** The constant-folding builder. */
  function FoldBinary(op: BinOp, l: Term, r: Term): (e: Term)
    requires Width(l) == Width(r)
    ensures Width(e) == if op.IsCompare() then BOOL else Width(l)
  {
    if l.Constant? && r.Constant? then Fold(op, l, r)
    else if op == Add then FoldAdd(l, r)
    else if op == Sub then FoldSub(l, r)
    else if Commutes(op) && l.Constant? then WithConst(op, l, r)
    else if Commutes(op) && r.Constant? then WithConst(op, r, l)
    else Binary(op, l, r)
  }

  lemma BinaryNode(op: BinOp, l: Term, r: Term, a: Assignment)
    requires Width(l) == Width(r)
    ensures Eval(Binary(op, l, r), a) == Apply(op, Eval(l, a), Eval(r, a))
  {
  }

  lemma ApplyIs(x: Bits, y: Bits)
    requires |x| == |y| >= 1
    ensures Apply(Mul, x, y) == Product(x, y) && Apply(And, x, y) == AndBits(x, y)
    ensures Apply(Or, x, y) == OrBits(x, y) && Apply(Xor, x, y) == XorBits(x, y)
    ensures Apply(Add, x, y) == Plus(x, y) && Apply(Sub, x, y) == Minus(x, y) && Apply(Eq, x, y) == [x == y]
    ensures Apply(Ne, x, y) == [x != y]
  {
  }

  /** These operations give the same value with their operands swapped. */
  lemma ApplyCommutes(op: BinOp, x: Bits, y: Bits)
    requires |x| == |y| >= 1 && Commutes(op)
    ensures Apply(op, x, y) == Apply(op, y, x)
  {
    hide Apply, Product;
    ApplyIs(x, y);
    ApplyIs(y, x);
    ProductLaws(x, y);
  }

  lemma WithConstWidths(c: Term, r: Term, a: Assignment)
    requires Width(c) == Width(r) && c.Constant?
    ensures |c.value| == |Eval(r, a)| == Width(c) >= 1
  {
  }

  lemma WithConstSound(op: BinOp, c: Term, r: Term, a: Assignment)
    requires Width(c) == Width(r) && c.Constant? && Commutes(op)
    ensures Eval(WithConst(op, c, r), a) == Apply(op, Eval(c, a), Eval(r, a))
  {
    hide Eval, Apply, Product, FromInt, WF, Width;
    WithConstWidths(c, r, a);
    var v := Eval(r, a);
    ConstantNode(c, a);
    BinaryNode(op, c, r, a);
    ApplyIs(c.value, v);
    ProductLaws(v, v);
    AndLaws(v, c.value);
    OrLaws(v, c.value);
    XorLaws(v, c.value);
    if op == Eq && Width(c) == BOOL {
      EqBool(c, r, a);
    }
  }

  lemma EqBool(c: Term, r: Formula, a: Assignment)
    requires c.Constant? && Width(c) == BOOL
    ensures Eval(EqConst(c, r), a) == [c.value == Eval(r, a)]
  {
    OneBit(c.value, Eval(r, a));
    OneBit(c.value, [true]);
    OneBit(Eval(EqConst(c, r), a), [c.value == Eval(r, a)]);
  }

  /** The constant-folding builder preserves evaluation, for every operation, width
      and assignment. */
  lemma FoldBinarySound(op: BinOp, l: Term, r: Term, a: Assignment)
    requires Width(l) == Width(r)
    ensures Eval(FoldBinary(op, l, r), a) == Apply(op, Eval(l, a), Eval(r, a))
  {
    hide Eval, Apply, FoldAdd, FoldSub, WithConst;
    var x, y := Eval(l, a), Eval(r, a);
    ApplyIs(x, y);
    BinaryNode(op, l, r, a);
    if l.Constant? && r.Constant? {
      ConstantNode(l, a);
      ConstantNode(r, a);
      ConstantNode(Fold(op, l, r), a);
    } else if op == Add {
      FoldAddSound(l, r, a);
    } else if op == Sub {
      FoldSubSound(l, r, a);
    } else if Commutes(op) && l.Constant? {
      WithConstSound(op, l, r, a);
    } else if Commutes(op) && r.Constant? {
      WithConstSound(op, r, l, a);
      ApplyCommutes(op, x, y);
    }
  }

  lemma FoldNotSound(e: Term, a: Assignment)
    ensures Eval(FoldNot(e), a) == NotBits(Eval(e, a))
  {
    if e.Not? {
      assert NotBits(NotBits(Eval(e.expr, a))) == Eval(e.expr, a);
    }
  }

  // ----- the simplifying builder -----

  function SimplifyNot(e: Term): (r: Term)
    ensures Width(r) == Width(e)
  {
    if e.Not? then e.expr
    else if e.Constant? then Constant(NotBits(e.value))
    else if e.Binary? && e.op == Or then FoldBinary(And, SimplifyNot(e.left), SimplifyNot(e.right))
    else FoldNot(e)
  }

  function SimplifyEqConst(c: Term, r: Term): (e: Formula)
    requires Width(c) == Width(r) && c.Constant?
  {
    if Width(c) == BOOL then if c == True then r else FoldNot(r)
    else FoldBinary(Eq, c, r)
  }

  function SimplifyEq(l: Term, r: Term): (e: Formula)
    requires Width(l) == Width(r)
  {
    if l.Constant? && r.Constant? then Fold(Eq, l, r)
    else if l.Constant? then SimplifyEqConst(l, r)
    else if r.Constant? then SimplifyEqConst(r, l)
    else if l == r then True
    else FoldBinary(Eq, l, r)
  }

  function Swapped(op: BinOp): (r: BinOp)
    requires op == Ugt || op == Uge || op == Sgt || op == Sge
    ensures r.IsCompare()
  {
    match op
    case Ugt => Ult
    case Uge => Ule
    case Sgt => Slt
    case Sge => Sle
  }

  function SimplifyBinary(op: BinOp, l: Term, r: Term): (e: Term)
    requires Width(l) == Width(r)
    ensures Width(e) == if op.IsCompare() then BOOL else Width(l)
  {
    if l.Constant? && r.Constant? then Fold(op, l, r)
    else if op == Eq then SimplifyEq(l, r)
    else if op == Ne then SimplifyNot(SimplifyEq(l, r))
    else if op == Ugt || op == Uge || op == Sgt || op == Sge then FoldBinary(Swapped(op), r, l)
    else FoldBinary(op, l, r)
  }

  lemma NotOrValue(e: Term, a: Assignment)
    ensures e.Not? ==> Eval(e, a) == NotBits(Eval(e.expr, a)) && NotBits(NotBits(Eval(e.expr, a))) == Eval(e.expr, a)
    ensures e.Binary? && e.op == Or ==> Width(e.left) == Width(e.right) && Eval(e, a) == OrBits(Eval(e.left, a), Eval(e.right, a))
  {
    if e.Not? {
      assert NotBits(NotBits(Eval(e.expr, a))) == Eval(e.expr, a);
    }
  }

  lemma DeMorgan(x: Bits, y: Bits)
    requires |x| == |y|
    ensures AndBits(NotBits(x), NotBits(y)) == NotBits(OrBits(x, y))
  {
  }

  lemma {:induction false} SimplifyNotSound(e: Term, a: Assignment)
    ensures Eval(SimplifyNot(e), a) == NotBits(Eval(e, a))
    decreases e
  {
    hide Eval, Apply, FoldBinary, FoldNot;
    NotOrValue(e, a);
    FoldNotSound(e, a);
    if !e.Not? && !e.Constant? && e.Binary? && e.op == Or {
      SimplifyNotSound(e.left, a);
      SimplifyNotSound(e.right, a);
      var x, y := NotBits(Eval(e.left, a)), NotBits(Eval(e.right, a));
      FoldBinarySound(And, SimplifyNot(e.left), SimplifyNot(e.right), a);
      ApplyIs(x, y);
      DeMorgan(Eval(e.left, a), Eval(e.right, a));
    } else if !e.Not? && e.Constant? {
      ConstantNode(e, a);
      ConstantNode(Constant(NotBits(e.value)), a);
    }
  }

  lemma SimplifyEqSound(l: Term, r: Term, a: Assignment)
    requires Width(l) == Width(r)
    ensures Eval(SimplifyEq(l, r), a) == [Eval(l, a) == Eval(r, a)]
  {
    hide Eval, Apply, FoldBinary, FoldNot, SimplifyEqConst;
    ApplyIs(Eval(l, a), Eval(r, a));
    FoldBinarySound(Eq, l, r, a);
    ConstantNode(True, a);
    if l.Constant? && r.Constant? {
      ConstantNode(l, a);
      ConstantNode(r, a);
      ConstantNode(Fold(Eq, l, r), a);
    } else if l.Constant? {
      SimplifyEqConstSound(l, r, a);
    } else if r.Constant? {
      SimplifyEqConstSound(r, l, a);
    }
  }

  lemma SimplifyEqConstSound(c: Term, r: Term, a: Assignment)
    requires Width(c) == Width(r) && c.Constant?
    ensures Eval(SimplifyEqConst(c, r), a) == [Eval(c, a) == Eval(r, a)]
  {
    hide Eval, Apply, FoldBinary, FoldNot;
    ConstantNode(c, a);
    ApplyIs(c.value, Eval(r, a));
    FoldBinarySound(Eq, c, r, a);
    FoldNotSound(r, a);
    if Width(c) == BOOL {
      OneBit(c.value, Eval(r, a));
      OneBit(c.value, [true]);
      OneBit(Eval(SimplifyEqConst(c, r), a), [c.value == Eval(r, a)]);
    }
  }

  lemma SwappedValue(op: BinOp, x: Bits, y: Bits)
    requires |x| == |y| >= 1 && (op == Ugt || op == Uge || op == Sgt || op == Sge)
    ensures Apply(Swapped(op), y, x) == Apply(op, x, y)
  {
  }

  /** So does the simplifying builder. */
  lemma SimplifyBinarySound(op: BinOp, l: Term, r: Term, a: Assignment)
    requires Width(l) == Width(r)
    ensures Eval(SimplifyBinary(op, l, r), a) == Apply(op, Eval(l, a), Eval(r, a))
  {
    hide Eval, Apply, FoldBinary, SimplifyEq, SimplifyNot;
    FoldBinarySound(op, l, r, a);
    ApplyIs(Eval(l, a), Eval(r, a));
    if l.Constant? && r.Constant? {
      ConstantNode(l, a);
      ConstantNode(r, a);
      ConstantNode(Fold(op, l, r), a);
    } else if op == Eq {
      SimplifyEqSound(l, r, a);
    } else if op == Ne {
      SimplifyEqSound(l, r, a);
      SimplifyNotSound(SimplifyEq(l, r), a);
    } else if op == Ugt || op == Uge || op == Sgt || op == Sge {
      FoldBinarySound(Swapped(op), r, l, a);
      SwappedValue(op, Eval(l, a), Eval(r, a));
    }
  }

  // ----- reads -----

  /** The equality each builder uses to step back over writes. */
  function BuilderEq(simplify: bool, l: Term, r: Term): (e: Formula)
    requires Width(l) == Width(r)
  {
    if simplify then SimplifyEq(l, r) else FoldBinary(Eq, l, r)
  }

  lemma BuilderEqSound(simplify: bool, l: Term, r: Term, a: Assignment)
    requires Width(l) == Width(r)
    ensures Holds(BuilderEq(simplify, l, r), a) <==> Eval(l, a) == Eval(r, a)
  {
    hide Eval, Apply, FoldBinary, SimplifyEq;
    FoldBinarySound(Eq, l, r, a);
    SimplifyEqSound(l, r, a);
    ApplyIs(Eval(l, a), Eval(r, a));
  }

  /** The newest write not known to be to another cell. */
  function StepBack(simplify: bool, head: WriteList, index: Term): (u: WriteList)
    requires Width(index) == INT32
  {
    if head.Update? && BuilderEq(simplify, index, head.index) == False then StepBack(simplify, head.next, index) else head
  }

  lemma {:induction false} StepBackSound(simplify: bool, root: Array, head: WriteList, index: Term, a: Assignment)
    requires Width(index) == INT32
    ensures ReadAt(root, StepBack(simplify, head, index), Eval(index, a), a) == ReadAt(root, head, Eval(index, a), a)
  {
    hide Eval, BuilderEq;
    if head.Update? && BuilderEq(simplify, index, head.index) == False {
      BuilderEqSound(simplify, index, head.index, a);
      FalseIsFalse(a);
      StepBackSound(simplify, root, head.next, index, a);
    }
  }

  /** The write stepped back to may be to the cell. */
  lemma {:induction false} StepBackStops(simplify: bool, head: WriteList, index: Term)
    requires Width(index) == INT32
    ensures var un := StepBack(simplify, head, index); un.Update? ==> BuilderEq(simplify, index, un.index) != False
  {
    hide BuilderEq;
    if head.Update? && BuilderEq(simplify, index, head.index) == False {
      StepBackStops(simplify, head.next, index);
    }
  }

  lemma StopsForBoth(un: WriteList, index: Term)
    requires Width(index) == INT32 && (un.Update? ==> BuilderEq(true, index, un.index) != False)
    ensures StepBack(false, un, index) == StepBack(true, un, index) == un
  {
    hide BuilderEq;
    if un.Update? {
      BuildersAgree(index, un.index);
    }
  }

  /** What the folding builder tells apart the simplifying one does, and it knows a
      term to be equal to itself. */
  lemma BuildersAgree(l: Term, r: Term)
    requires Width(l) == Width(r) != BOOL
    ensures BuilderEq(false, l, r) == False ==> BuilderEq(true, l, r) == False
    ensures BuilderEq(true, l, l) == True
  {
    hide Apply;
    if l.Constant? {
      ApplyIs(l.value, l.value);
    }
  }

  /** `Read` of either builder; the simplifying one goes on with that of the
      folding one. The value read is that of the whole list, and the read starts from
      a write that may be to the cell. */
  method BuildRead(simplify: bool, root: Array, head: WriteList, index: Term) returns (e: Term)
    requires Width(index) == INT32
    ensures Width(e) == INT8
    ensures forall a: Assignment :: Eval(e, a) == ReadAt(root, head, Eval(index, a), a)
    ensures e == Read(root, StepBack(simplify, head, index), index)
    decreases simplify
  {
    hide Eval, BuilderEq, ReadAt;
    var un := head;
    while un.Update? && BuilderEq(simplify, index, un.index) == False
      invariant WFUpdates(un) && StepBack(simplify, un, index) == StepBack(simplify, head, index)
      decreases un
    {
      un := un.next;
    }
    if simplify {
      StopsForBoth(un, index);
      e := BuildRead(false, root, un, index);
    } else {
      e := Read(root, un, index);
    }
    forall a: Assignment ensures Eval(e, a) == ReadAt(root, head, Eval(index, a), a) {
      if !simplify {
        ReadNode(e, a);
      }
      StepBackSound(simplify, root, head, index, a);
    }
  }
}
