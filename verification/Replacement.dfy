/** When one expression may stand for another: equal under every assignment that
    satisfies a set of constraints, and rebuilding a node from such operands. */
module Replacement {
  import opened Bits
  import opened Exprs
  import opened SmartConstructors
  import opened Constructors
  import opened SliceConstructors
  import opened ArrayReads
  import opened Weights
  import opened PointReads
  import opened Irreducibles

  /** `r` may replace `e` wherever the constraints hold. */
  ghost predicate Same(c: set<Formula>, e: Term, r: Term) {
    Width(e) == Width(r) && forall a: Assignment :: Sat(c, a) ==> Eval(e, a) == Eval(r, a)
  }

  ghost predicate SameList(c: set<Formula>, u: WriteList, v: WriteList) {
    forall root: Array, i: Bits, a: Assignment :: Sat(c, a) ==> ReadAt(root, u, i, a) == ReadAt(root, v, i, a)
  }

  /** Unchanged, or lighter. */
  predicate Lighter(e: Expr, r: Expr) { r == e || Weight(r) < Weight(e) }
  predicate LighterList(u: Updates, v: Updates) { v == u || ListWeight(v) < ListWeight(u) }

  /** No read at a symbolic index where there was none before, and nothing left to
      reduce. */
  predicate Keeps(e: Term, r: Term) { (Pointwise(e) ==> Pointwise(r)) && (Irreducible(e) ==> Irreducible(r)) }
  predicate KeepsList(u: WriteList, v: WriteList) {
    && (PointwiseList(u) ==> PointwiseList(v)) && (IrreducibleList(u) ==> IrreducibleList(v))
    && (u.NoUpdates? <==> v.NoUpdates?)
  }

  ghost predicate Stands(c: set<Formula>, e: Term, r: Term) {
    Same(c, e, r) && Lighter(e, r) && Keeps(e, r)
  }

  ghost predicate StandsList(c: set<Formula>, u: WriteList, v: WriteList) {
    SameList(c, u, v) && LighterList(u, v) && KeepsList(u, v)
  }

  lemma SameTrans(c: set<Formula>, e: Term, r: Term, s: Term)
    requires Stands(c, e, r) && Stands(c, r, s)
    ensures Stands(c, e, s)
  {
    hide Same, WF, Width, Weight, Pointwise, Irreducible;
    SameChain(c, e, r, s);
  }

  lemma SameChain(c: set<Formula>, e: Term, r: Term, s: Term)
    requires Same(c, e, r) && Same(c, r, s)
    ensures Same(c, e, s)
  {
    hide Eval, WF, Width, Sat;
  }

  lemma SameSelf(c: set<Formula>, e: Term)
    ensures Stands(c, e, e)
  {
  }

  /** What holds under some constraints holds under more of them. */
  lemma SameMore(c: set<Formula>, d: set<Formula>, e: Term, r: Term)
    requires Stands(c, e, r) && forall a: Assignment :: Sat(d, a) ==> Sat(c, a)
    ensures Stands(d, e, r)
  {
    hide Eval, WF, Width, Weight, Sat, Pointwise, Irreducible;
  }

  lemma SameListMore(c: set<Formula>, d: set<Formula>, u: WriteList, v: WriteList)
    requires StandsList(c, u, v) && forall a: Assignment :: Sat(d, a) ==> Sat(c, a)
    ensures StandsList(d, u, v)
  {
    hide Eval, WFUpdates, ReadAt, ListWeight, Sat, PointwiseList, IrreducibleList;
  }

  // ----- rebuilding a node from its operands -----

  /** The operands of a node other than a read. */
  function Kids(e: Term): (k: seq<Term>)
    requires !e.Constant? && !e.Read?
    ensures 1 <= |k| <= 3
    ensures forall i :: 0 <= i < |k| ==> Weight(k[i]) <= Weight(e) && Size(k[i]) < Size(e)
  {
    match e
    case NotOptimized(s) => [s]
    case Select(c, t, f) => [c, t, f]
    case Concat(l, r) => [l, r]
    case Extract(s, _, _) => [s]
    case ZExt(s, _) => [s]
    case SExt(s, _) => [s]
    case Not(s) => [s]
    case Binary(_, l, r) => [l, r]
  }

  ghost predicate Fits(e: Term, k: seq<Term>)
    requires !e.Constant? && !e.Read?
  {
    |k| == |Kids(e)| && forall i :: 0 <= i < |k| ==> Width(k[i]) == Width(Kids(e)[i])
  }

  /** `Expr::rebuild`. */
  function Rebuild(e: Term, k: seq<Term>): (r: Term)
    requires !e.Constant? && !e.Read? && Fits(e, k)
    ensures Width(r) == Width(e)
  {
    match e
    case NotOptimized(_) => NotOptimized(k[0])
    case Select(c, t, f) =>
      SelectCreate(k[0], k[1], k[2])
    case Concat(_, _) => ConcatCreate(k[0], k[1])
    case Extract(_, off, w) => ExtractCreate(k[0], off, w)
    case ZExt(_, w) => ZExtCreate(k[0], w)
    case SExt(_, w) => SExtCreate(k[0], w)
    case Not(_) => NotCreate(k[0])
    case Binary(op, _, _) => Create(op, k[0], k[1])
  }

  lemma NodeValue(e: Term, a: Assignment)
    ensures e.NotOptimized? ==> Eval(e, a) == Eval(e.src, a)
    ensures e.Select? ==> Eval(e, a) == if Eval(e.cond, a)[0] then Eval(e.trueExpr, a) else Eval(e.falseExpr, a)
    ensures e.Not? ==> Eval(e, a) == NotBits(Eval(e.expr, a))
    ensures e.Binary? ==> Eval(e, a) == Apply(e.op, Eval(e.left, a), Eval(e.right, a))
    ensures e.Concat? ==> Eval(e, a) == Eval(e.right, a) + Eval(e.left, a)
    ensures e.Extract? ==> Eval(e, a) == Eval(e.expr, a)[e.offset..e.offset + e.width]
    ensures e.ZExt? ==> Eval(e, a) == ZeroExtend(Eval(e.src, a), e.width)
    ensures e.SExt? ==> Eval(e, a) == SignExtend(Eval(e.src, a), e.width)
  {
  }

  lemma NodeParts(e: Term, k: seq<Term>)
    requires !e.Constant? && !e.Read? && Fits(e, k)
    ensures e.NotOptimized? ==> Kids(e) == [e.src] && |k| == 1 && Rebuild(e, k) == NotOptimized(k[0])
    ensures e.Select? ==> Kids(e) == [e.cond, e.trueExpr, e.falseExpr] && |k| == 3 && Width(k[0]) == BOOL &&
                          Width(k[1]) == Width(k[2]) && Rebuild(e, k) == SelectCreate(k[0], k[1], k[2])
    ensures e.Not? ==> Kids(e) == [e.expr] && |k| == 1 && Rebuild(e, k) == NotCreate(k[0])
    ensures e.Binary? ==> Kids(e) == [e.left, e.right] && |k| == 2 && Width(k[0]) == Width(k[1]) &&
                          Rebuild(e, k) == Create(e.op, k[0], k[1])
    ensures e.Concat? ==> Kids(e) == [e.left, e.right] && |k| == 2 && Rebuild(e, k) == ConcatCreate(k[0], k[1])
    ensures e.Extract? ==> Kids(e) == [e.expr] && |k| == 1 && e.width >= 1 && e.offset + e.width <= Width(k[0]) &&
                           Rebuild(e, k) == ExtractCreate(k[0], e.offset, e.width)
    ensures e.ZExt? ==> Kids(e) == [e.src] && |k| == 1 && Width(k[0]) < e.width && Rebuild(e, k) == ZExtCreate(k[0], e.width)
    ensures e.SExt? ==> Kids(e) == [e.src] && |k| == 1 && Width(k[0]) < e.width && Rebuild(e, k) == SExtCreate(k[0], e.width)
  {
    hide Create, SelectCreate, NotCreate, ConcatCreate, ExtractCreate, ZExtCreate, SExtCreate, Weight, Size;
  }

  /** Rebuilding from operands of equal value keeps the value. */
  lemma RebuildValue(e: Term, k: seq<Term>, a: Assignment)
    requires !e.Constant? && !e.Read? && Fits(e, k)
    requires forall i :: 0 <= i < |k| ==> Eval(k[i], a) == Eval(Kids(e)[i], a)
    ensures Eval(Rebuild(e, k), a) == Eval(e, a)
  {
    hide *;
    NodeParts(e, k);
    NodeValue(e, a);
    NodeValue(Rebuild(e, k), a);
    if e.Select? {
      SelectValue(k[0], k[1], k[2], a);
    } else if e.Not? {
      NotSound(k[0], a);
    } else if e.Binary? {
      CreateSound(e.op, k[0], k[1], a);
    } else if e.Concat? {
      ConcatSound(k[0], k[1], a);
    } else if e.Extract? {
      ExtractSound(k[0], e.offset, e.width, a);
    } else if e.ZExt? {
      ZExtSound(k[0], e.width, a);
    } else if e.SExt? {
      SExtSound(k[0], e.width, a);
    }
  }

  lemma SelectValue(c: Formula, t: Term, f: Term, a: Assignment)
    requires Width(t) == Width(f)
    ensures Eval(SelectCreate(c, t, f), a) == if Eval(c, a)[0] then Eval(t, a) else Eval(f, a)
  {
    hide SelectCreate, Eval, WF;
    SelectSound(c, t, f, a);
  }

  /** Rebuilding from operands one of which became lighter is lighter. */
  lemma RebuildWeight(e: Term, k: seq<Term>, j: nat)
    requires !e.Constant? && !e.Read? && Fits(e, k)
    requires forall i :: 0 <= i < |k| ==> Weight(k[i]) <= Weight(Kids(e)[i])
    requires j < |k| && Weight(k[j]) < Weight(Kids(e)[j])
    ensures Weight(Rebuild(e, k)) < Weight(e)
  {
    hide *;
    NodeParts(e, k);
    NodeWeight(e);
    if e.Select? {
      SelectWeight(k[0], k[1], k[2]);
      NodeWeight(Select(k[0], k[1], k[2]));
    } else if e.Not? {
      NotWeight(k[0]);
      NodeWeight(Not(k[0]));
    } else if e.Binary? {
      CreateWeight(e.op, k[0], k[1]);
      BinaryWeight(e.op, k[0], k[1]);
    } else if e.Concat? {
      ConcatWeight(k[0], k[1]);
    } else if e.Extract? {
      ExtractWeight(k[0], e.offset, e.width);
    } else if e.ZExt? || e.SExt? {
      CastWeight(k[0], e.width);
    } else {
      NodeWeight(NotOptimized(k[0]));
    }
  }

  lemma NodeWeight(e: Expr)
    ensures e.NotOptimized? ==> Weight(e) == 1 + Weight(e.src)
    ensures e.Select? ==> Weight(e) == 4 + Weight(e.cond) + Weight(e.trueExpr) + Weight(e.falseExpr)
    ensures e.Not? ==> Weight(e) == 1 + Weight(e.expr)
    ensures e.Binary? ==> Weight(e) == OpWeight(e.op) + Weight(e.left) + Weight(e.right)
    ensures e.Concat? ==> Weight(e) == 1 + Weight(e.left) + Weight(e.right)
    ensures e.Extract? ==> Weight(e) >= Weight(e.expr)
    ensures e.ZExt? || e.SExt? ==> Weight(e) == 1 + Weight(e.src)
    ensures e.Read? ==> Weight(e) == 1 + ListWeight(e.head) + Weight(e.index)
  {
  }

  /** Rebuilding from operands without symbolic reads adds none. */
  lemma RebuildPointwise(e: Term, k: seq<Term>)
    requires !e.Constant? && !e.Read? && Fits(e, k) && forall i :: 0 <= i < |k| ==> Pointwise(k[i])
    ensures Pointwise(Rebuild(e, k))
  {
    hide *;
    NodeParts(e, k);
    if e.Select? {
      SelectPointwise(k[0], k[1], k[2]);
    } else if e.Binary? {
      CreatePointwise(e.op, k[0], k[1]);
    } else if e.Concat? {
      ConcatPointwise(k[0], k[1]);
    } else if e.Extract? {
      ExtractPointwise(k[0], e.offset, e.width);
    } else if e.ZExt? || e.SExt? {
      CastPointwise(k[0], e.width);
    } else {
      UnaryPointwise(k[0]);
    }
  }

  lemma UnaryPointwise(e: Term)
    requires Pointwise(e)
    ensures Pointwise(NotCreate(e)) && Pointwise(NotOptimized(e))
  {
  }

  lemma KidsPointwise(e: Term)
    requires !e.Constant? && !e.Read?
    ensures Pointwise(e) ==> forall i :: 0 <= i < |Kids(e)| ==> Pointwise(Kids(e)[i])
  {
  }

  /** Operands that may stand for a node's own, and the node rebuilt from them. */
  ghost predicate StandAll(c: set<Formula>, e: Term, k: seq<Term>, n: nat)
    requires !e.Constant? && !e.Read? && n <= |k| == |Kids(e)|
  {
    forall i :: 0 <= i < n ==> Stands(c, Kids(e)[i], k[i])
  }

  lemma RebuildStands(c: set<Formula>, e: Term, k: seq<Term>)
    requires !e.Constant? && !e.Read? && |k| == |Kids(e)| && k != Kids(e) && StandAll(c, e, k, |k|)
    ensures Fits(e, k) && Same(c, e, Rebuild(e, k)) && Weight(Rebuild(e, k)) < Weight(e) && Keeps(e, Rebuild(e, k))
  {
    hide Eval, WF, Width, Weight, Size, Kids, Rebuild, Sat, Pointwise, Irreducible;
    KidsPointwise(e);
    KidsIrreducible(e);
    forall i | 0 <= i < |k| ensures Stands(c, Kids(e)[i], k[i]) {
    }
    assert Fits(e, k);
    var j :| 0 <= j < |k| && k[j] != Kids(e)[j];
    RebuildWeight(e, k, j);
    if Pointwise(e) {
      RebuildPointwise(e, k);
    }
    if Irreducible(e) {
      RebuildIrreducible(e, k);
    }
    forall a: Assignment | Sat(c, a) ensures Eval(e, a) == Eval(Rebuild(e, k), a) {
      RebuildValue(e, k, a);
    }
  }

  lemma KidsIrreducible(e: Term)
    requires !e.Constant? && !e.Read?
    ensures Irreducible(e) ==> forall i :: 0 <= i < |Kids(e)| ==> Irreducible(Kids(e)[i])
  {
  }

  lemma RebuildIrreducible(e: Term, k: seq<Term>)
    requires !e.Constant? && !e.Read? && Fits(e, k) && forall i :: 0 <= i < |k| ==> Irreducible(k[i])
    ensures Irreducible(Rebuild(e, k))
  {
    hide *;
    NodeParts(e, k);
    if e.Binary? {
      CreateIrreducible(e.op, k[0], k[1]);
    } else if e.Select? {
      SelectIrreducible(k[0], k[1], k[2]);
    } else if e.Concat? {
      ConcatIrreducible(k[0], k[1]);
    } else if e.Extract? {
      ExtractIrreducible(k[0], e.offset, e.width);
    } else if e.NotOptimized? {
      MarkedIrreducible(k[0]);
    } else if e.Not? {
      NotIrreducible(k[0]);
    } else {
      CastIrreducible(k[0], e.width);
    }
  }

  lemma MarkedIrreducible(e: Term)
    requires Irreducible(e)
    ensures WF(NotOptimized(e)) && Irreducible(NotOptimized(e))
  {
  }

  /** Constants combine to a constant. */
  lemma RebuildConstant(e: Term, k: seq<Term>)
    requires !e.Constant? && !e.Read? && Fits(e, k) && !e.NotOptimized? && forall i :: 0 <= i < |k| ==> k[i].Constant?
    ensures Rebuild(e, k).Constant?
  {
    hide *;
    NodeParts(e, k);
    if e.Binary? {
      CreateConstant(e.op, k[0], k[1]);
    } else if e.Select? {
      SelectConstant(k[0], k[1], k[2]);
    } else if e.Concat? {
      SliceConstant(k[0], k[1], 0, 1);
    } else if e.Extract? {
      SliceConstant(k[0], k[0], e.offset, e.width);
    } else {
      CastConstant(k[0], if e.Not? then Width(k[0]) else e.width);
    }
  }

  lemma CreateConstant(op: BinOp, l: Term, r: Term)
    requires Width(l) == Width(r) && l.Constant? && r.Constant?
    ensures Create(op, l, r).Constant?
  {
    hide Apply, WF;
  }

  lemma SelectConstant(c: Formula, t: Term, f: Term)
    requires Width(t) == Width(f) && c.Constant? && t.Constant? && f.Constant?
    ensures SelectCreate(c, t, f).Constant?
  {
    hide WF;
  }

  lemma SliceConstant(l: Term, r: Term, off: nat, w: nat)
    requires l.Constant? && r.Constant?
    ensures ConcatCreate(l, r).Constant?
    ensures w >= 1 && off + w <= Width(l) ==> ExtractCreate(l, off, w).Constant?
  {
  }

  lemma CastConstant(e: Term, w: nat)
    requires e.Constant? && w >= 1
    ensures NotCreate(e).Constant? && ZExtCreate(e, w).Constant? && SExtCreate(e, w).Constant?
  {
  }

  /** The same for a read, whose operands are an index and a list of writes. */
  lemma RebuildRead(c: set<Formula>, e: Term, head: WriteList, index: Term)
    requires e.Read? && StandsList(c, e.head, head) && Stands(c, e.index, index)
    requires head != e.head || index != e.index
    ensures Width(index) == INT32 && Same(c, e, ReadCreate(e.root, head, index))
    ensures Weight(ReadCreate(e.root, head, index)) < Weight(e) && Keeps(e, ReadCreate(e.root, head, index))
  {
    hide Eval, WFUpdates, Weight, ListWeight, ReadAt, ReadCreate, Sat, Pointwise, PointwiseList, Irreducible;
    hide IrreducibleList;
    ReadKept(e, head, index);
    ReadWeight(e.root, head, index);
    NodeWeight(e);
    NodeWeight(Read(e.root, head, index));
    forall a: Assignment | Sat(c, a) ensures Eval(e, a) == Eval(ReadCreate(e.root, head, index), a) {
      ReadSound(e.root, head, index, a);
      ReadNode(e, a);
    }
  }

  lemma ReadKept(e: Term, head: WriteList, index: Term)
    requires e.Read? && KeepsList(e.head, head) && Keeps(e.index, index) && Lighter(e.index, index) && Width(index) == INT32
    ensures Keeps(e, ReadCreate(e.root, head, index))
  {
    hide ReadCreate, Asked;
    if Pointwise(e) {
      ReadPointwise(e.root, head, index);
    }
    if Irreducible(e) {
      ReadIrreducible(e.root, head, index);
    }
  }

  /** One write, rebuilt. */
  lemma RebuildWrite(c: set<Formula>, u: WriteList, index: Term, value: Term, next: WriteList)
    requires u.Update? && Stands(c, u.index, index) && Stands(c, u.value, value) && StandsList(c, u.next, next)
    ensures WFUpdates(Update(index, value, next)) && StandsList(c, u, Update(index, value, next))
  {
    hide Eval, WF, Weight, Sat;
    var v := Update(index, value, next);
    forall root: Array, i: Bits, a: Assignment | Sat(c, a) ensures ReadAt(root, u, i, a) == ReadAt(root, v, i, a) {
      assert ReadAt(root, u.next, i, a) == ReadAt(root, next, i, a);
    }
  }
}
