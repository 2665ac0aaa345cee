/** What the expression builders leave behind: no rule of the constant-folding builder
    applies again to what it builds, so constants are collected at the front of right-
    nested sums; the simplifying builder also keeps out the comparisons it swaps or
    negates, and equations of a term with itself. */
module BuilderForms {
  import opened Bits
  import opened Exprs
  import opened SmartConstructors
  import opened ArithmeticConstructors
  import opened ExprBuilders

  predicate Additive(e: Expr) { IsSum(e) || IsDifference(e) }

  predicate HasConstant(e: Expr) { Additive(e) && (e.left.Constant? || e.right.Constant?) }

  /** No reassociation applies to a sum or a difference. */
  predicate Flat(l: Expr, r: Expr) { !r.Constant? && !HasConstant(r) && !Additive(l) }

  /** No rule applies to a binary node. */
  predicate Closed(simplify: bool, op: BinOp, l: Expr, r: Expr) {
    && !(l.Constant? && r.Constant?)
    && (op == Add || op == Sub ==> Flat(l, r))
    && (Commutes(op) ==> !r.Constant?)
    && (op == Add || op == Mul || op == And || op == Or || op == Xor ==> !IsZeroConst(l))
    && (op == And || op == Or ==> !IsAllOnes(l))
    && (op == Mul && l.Constant? ==> l.value != FromInt(1, |l.value|))
    && (op == Eq && l.Constant? ==> Width(l) != BOOL)
    && (simplify ==> Kept(op) && (op == Eq ==> l != r))
  }

  /** The kinds the simplifying builder keeps. */
  predicate Kept(op: BinOp) { op != Ne && op != Ugt && op != Uge && op != Sgt && op != Sge }

  /** No rule applies to any binary node above the other kinds of node. */
  predicate Compact(simplify: bool, e: Expr) {
    match e
    case Binary(op, l, r) => Closed(simplify, op, l, r) && Compact(simplify, l) && Compact(simplify, r)
    case Not(s) => !s.Constant? && Compact(simplify, s)
    case _ => true
  }

  lemma Closing(simplify: bool, op: BinOp, l: Term, r: Term)
    requires Compact(simplify, l) && Compact(simplify, r) && Closed(simplify, op, l, r)
    ensures Compact(simplify, Binary(op, l, r))
  {
  }

  lemma Opening(simplify: bool, e: Term)
    requires e.Binary? && Compact(simplify, e)
    ensures Compact(simplify, e.left) && Compact(simplify, e.right) && Closed(simplify, e.op, e.left, e.right)
  {
  }

  lemma Numeral(simplify: bool, e: Expr)
    requires e.Constant?
    ensures Compact(simplify, e) && !Additive(e)
  {
  }

  // ----- sums and differences -----

  lemma {:induction false} AddCompact(s: bool, l: Term, r: Term)
    requires Width(l) == Width(r) && Compact(s, l) && Compact(s, r)
    ensures Compact(s, FoldAdd(l, r))
    decreases Size(l) + Size(r), Size(l), 2
  {
    hide AddConst, AddBoth, Fold, Size, Compact;
    if l.Constant? && r.Constant? {
      Numeral(s, Fold(Add, l, r));
    } else if l.Constant? {
      AddConstCompact(s, l, r);
    } else if r.Constant? {
      Ranked(r, l);
      AddConstCompact(s, r, l);
    } else {
      AddBothCompact(s, l, r);
    }
  }

  lemma {:induction false} AddConstCompact(s: bool, c: Term, r: Term)
    requires Width(c) == Width(r) && c.Constant? && !r.Constant? && Compact(s, r)
    ensures Compact(s, AddConst(c, r))
    decreases Size(c) + Size(r), Size(c), 0
  {
    hide FoldAdd, FoldSub, Fold, Size, Compact;
    Numeral(s, c);
    if IsZeroConst(c) {
    } else if HasConstant(r) {
      Parts(r);
      Opening(s, r);
      Numeral(s, Fold(Add, c, r.left));
      FoldValue(Add, c, r.left);
      if IsSum(r) {
        AddCompact(s, Fold(Add, c, r.left), r.right);
      } else {
        SubCompact(s, Fold(Add, c, r.left), r.right);
      }
    } else {
      Closing(s, Add, c, r);
    }
  }

  lemma {:induction false} AddBothCompact(s: bool, l: Term, r: Term)
    requires Width(l) == Width(r) && !l.Constant? && !r.Constant? && Compact(s, l) && Compact(s, r)
    ensures Compact(s, AddBoth(l, r))
    decreases Size(l) + Size(r), Size(l), 1
  {
    hide FoldAdd, FoldSub, AddRight, Size, Compact;
    if IsSum(l) {
      Parts(l);
      Opening(s, l);
      AddCompact(s, l.right, r);
      AddCompact(s, l.left, FoldAdd(l.right, r));
    } else if IsDifference(l) {
      Parts(l);
      Opening(s, l);
      SubCompact(s, r, l.right);
      AddCompact(s, l.left, FoldSub(r, l.right));
    } else {
      AddRightCompact(s, l, r);
    }
  }

  lemma {:induction false} AddRightCompact(s: bool, l: Term, r: Term)
    requires Width(l) == Width(r) && !l.Constant? && !r.Constant? && !Additive(l) && Compact(s, l) && Compact(s, r)
    ensures Compact(s, AddRight(l, r))
    decreases Size(l) + Size(r), Size(l), 0
  {
    hide FoldAdd, FoldSub, Negated, Size, Compact;
    if HasConstant(r) {
      Parts(r);
      Opening(s, r);
      Numeral(s, r.left);
      Ranked(r.left, l);
      if IsSum(r) {
        AddCompact(s, l, r.right);
        AddCompact(s, r.left, FoldAdd(l, r.right));
      } else {
        SubCompact(s, l, r.right);
        AddCompact(s, r.left, FoldSub(l, r.right));
      }
    } else {
      Closing(s, Add, l, r);
    }
  }

  lemma {:induction false} SubCompact(s: bool, l: Term, r: Term)
    requires Width(l) == Width(r) && Compact(s, l) && Compact(s, r)
    ensures Compact(s, FoldSub(l, r))
    decreases Size(l) + Size(r), Size(l), 2
  {
    hide AddConst, SubConst, SubBoth, Fold, Size, Compact, Negated;
    if l.Constant? && r.Constant? {
      Numeral(s, Fold(Sub, l, r));
    } else if l.Constant? {
      SubConstCompact(s, l, r);
    } else if r.Constant? {
      Ranked(r, l);
      Ranked(Negated(r), l);
      AddConstCompact(s, Negated(r), l);
    } else {
      SubBothCompact(s, l, r);
    }
  }

  lemma {:induction false} SubConstCompact(s: bool, c: Term, r: Term)
    requires Width(c) == Width(r) && c.Constant? && !r.Constant? && Compact(s, r)
    ensures Compact(s, SubConst(c, r))
    decreases Size(c) + Size(r), Size(c), 0
  {
    hide FoldAdd, FoldSub, Fold, Size, Compact;
    Numeral(s, c);
    if HasConstant(r) {
      Parts(r);
      Opening(s, r);
      Numeral(s, Fold(Sub, c, r.left));
      FoldValue(Sub, c, r.left);
      if IsSum(r) {
        SubCompact(s, Fold(Sub, c, r.left), r.right);
      } else {
        AddCompact(s, Fold(Sub, c, r.left), r.right);
      }
    } else {
      Closing(s, Sub, c, r);
    }
  }

  lemma {:induction false} SubBothCompact(s: bool, l: Term, r: Term)
    requires Width(l) == Width(r) && !l.Constant? && !r.Constant? && Compact(s, l) && Compact(s, r)
    ensures Compact(s, SubBoth(l, r))
    decreases Size(l) + Size(r), Size(l), 1
  {
    hide FoldAdd, FoldSub, SubRight, Size, Compact;
    if IsSum(l) {
      Parts(l);
      Opening(s, l);
      SubCompact(s, l.right, r);
      AddCompact(s, l.left, FoldSub(l.right, r));
    } else if IsDifference(l) {
      Parts(l);
      Opening(s, l);
      AddCompact(s, l.right, r);
      SubCompact(s, l.left, FoldAdd(l.right, r));
    } else {
      SubRightCompact(s, l, r);
    }
  }

  lemma {:induction false} SubRightCompact(s: bool, l: Term, r: Term)
    requires Width(l) == Width(r) && !l.Constant? && !r.Constant? && !Additive(l) && Compact(s, l) && Compact(s, r)
    ensures Compact(s, SubRight(l, r))
    decreases Size(l) + Size(r), Size(l), 0
  {
    hide FoldAdd, FoldSub, Negated, Size, Compact;
    if HasConstant(r) {
      Parts(r);
      Opening(s, r);
      Ranked(r.left, l);
      Ranked(Negated(r.left), l);
      Numeral(s, Negated(r.left));
      if IsSum(r) {
        SubCompact(s, l, r.right);
        AddCompact(s, Negated(r.left), FoldSub(l, r.right));
      } else {
        AddCompact(s, l, r.right);
        AddCompact(s, Negated(r.left), FoldAdd(l, r.right));
      }
    } else {
      Closing(s, Sub, l, r);
    }
  }

  // ----- the other operations -----

  lemma WithConstCompact(s: bool, op: BinOp, c: Term, r: Term)
    requires Width(c) == Width(r) && c.Constant? && !r.Constant? && Commutes(op) && Compact(s, r)
    ensures Compact(s, WithConst(op, c, r))
  {
    hide FromInt, Compact, WF;
    Numeral(s, c);
    NegationCompact(s, r);
    if Closed(s, op, c, r) {
      Closing(s, op, c, r);
    }
  }

  lemma NegationCompact(s: bool, e: Term)
    requires Compact(s, e) && !e.Constant?
    ensures Compact(s, Not(e))
  {
  }

  /** The constant-folding builder leaves nothing to fold; over it, the simplifying
      one. */
  lemma FoldCompact(s: bool, op: BinOp, l: Term, r: Term)
    requires Width(l) == Width(r) && Compact(s, l) && Compact(s, r)
    requires s ==> Kept(op) && (op == Eq ==> l != r)
    ensures Compact(s, FoldBinary(op, l, r))
  {
    hide Compact, FoldAdd, FoldSub, WithConst, Fold;
    if l.Constant? && r.Constant? {
      Numeral(s, Fold(op, l, r));
    } else if op == Add {
      AddCompact(s, l, r);
    } else if op == Sub {
      SubCompact(s, l, r);
    } else if Commutes(op) && l.Constant? {
      WithConstCompact(s, op, l, r);
    } else if Commutes(op) && r.Constant? {
      WithConstCompact(s, op, r, l);
    } else {
      ConstantMarks(l);
      Closing(s, op, l, r);
    }
  }

  lemma NotCompact(s: bool, e: Term)
    requires Compact(s, e)
    ensures Compact(s, FoldNot(e))
    ensures FoldNot(e).Not? ==> e == Not(FoldNot(e)) || (FoldNot(e).expr == e && !e.Constant?)
  {
  }

  /** Negation is cancelled, and pushed through disjunctions: no whole disjunction is
      negated. */
  lemma {:induction false} SimplifyNotCompact(e: Term)
    requires Compact(true, e)
    ensures Compact(true, SimplifyNot(e))
    ensures !(e.Binary? && e.op == Or) && SimplifyNot(e).Not? ==>
              e == Not(SimplifyNot(e)) || (SimplifyNot(e).expr == e && !e.Constant?)
    ensures e.Binary? && e.op == Or ==> SimplifyNot(e) != Not(e)
    ensures SimplifyNot(e).Not? ==> Size(SimplifyNot(e)) <= Size(e) + 1
  {
    hide FoldBinary, Compact, SimplifyNot, Size, WF, Width;
    SimplifyNotIs(e);
    NodeSizes(e);
    if e.Not? {
      NegationParts(true, e);
    } else if e.Constant? {
      Numeral(true, SimplifyNot(e));
    } else if e.Binary? && e.op == Or {
      Opening(true, e);
      var l, r := SimplifyNot(e.left), SimplifyNot(e.right);
      SimplifyNotCompact(e.left);
      SimplifyNotCompact(e.right);
      FoldCompact(true, And, l, r);
      Conjunction(l, r);
    } else {
      NegationCompact(true, e);
    }
  }

  lemma {:induction false} SimplifyNotIs(e: Term)
    ensures e.Not? ==> WF(e.expr) && SimplifyNot(e) == e.expr
    ensures e.Constant? ==> SimplifyNot(e).Constant?
    ensures e.Binary? && e.op == Or ==>
              && WF(e.left) && WF(e.right) && Width(e.left) == Width(e.right)
              && SimplifyNot(e) == FoldBinary(And, SimplifyNot(e.left), SimplifyNot(e.right))
    ensures !e.Not? && !e.Constant? && !(e.Binary? && e.op == Or) ==> SimplifyNot(e) == Not(e)
  {
    hide FoldBinary, Size;
  }

  lemma NodeSizes(e: Expr)
    ensures Size(Not(e)) == Size(e) + 1
    ensures e.Not? ==> Size(e.expr) < Size(e)
    ensures e.Binary? ==> Size(e.left) < Size(e) && Size(e.right) < Size(e)
  {
  }

  lemma NegationParts(s: bool, e: Term)
    requires e.Not? && Compact(s, e)
    ensures Compact(s, e.expr)
  {
  }

  lemma Conjunction(l: Term, r: Term)
    requires Width(l) == Width(r)
    ensures var e := FoldBinary(And, l, r); e.Not? ==> e == l || e == r
  {
    hide Fold;
  }

  lemma SimplifyEqCompact(l: Term, r: Term)
    requires Width(l) == Width(r) && Compact(true, l) && Compact(true, r)
    ensures Compact(true, SimplifyEq(l, r))
  {
    hide FoldBinary, FoldNot, Fold, Compact;
    Numeral(true, True);
    NotCompact(true, l);
    NotCompact(true, r);
    if l.Constant? && r.Constant? {
      Numeral(true, Fold(Eq, l, r));
    } else if l != r {
      FoldCompact(true, Eq, l, r);
      FoldCompact(true, Eq, r, l);
    }
  }

  /** So does every operation of the simplifying builder. */
  lemma SimplifyCompact(op: BinOp, l: Term, r: Term)
    requires Width(l) == Width(r) && Compact(true, l) && Compact(true, r)
    ensures Compact(true, SimplifyBinary(op, l, r))
  {
    hide Compact, FoldBinary, SimplifyEq, SimplifyNot, Fold;
    if l.Constant? && r.Constant? {
      Numeral(true, Fold(op, l, r));
    } else if op == Eq || op == Ne {
      SimplifyEqCompact(l, r);
      SimplifyNotCompact(SimplifyEq(l, r));
    } else if op == Ugt || op == Uge || op == Sgt || op == Sge {
      FoldCompact(true, Swapped(op), r, l);
    } else {
      FoldCompact(true, op, l, r);
    }
  }
}
