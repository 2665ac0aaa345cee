/** `ConstraintManager` of lib/Expr/Constraints.cpp: adding a constraint simplifies
    it by the known equalities, splits conjunctions, rewrites the stored constraints
    by a new equality, and keeps the independence factors in step. */
module ConstraintManagers {
  import opened Bits
  import opened Exprs
  import opened Footprints
  import opened FactorIndex
  import opened Indexers
  import opened FactorTables
  import opened Sequences
  import opened Weights
  import opened PointReads
  import opened Replacement
  import opened ReplaceVisitors
  import opened ConstraintSets
  import opened KnownBytes
  import opened Facts

  datatype Outcome =
    | Added
    | Inconsistent   // addConstraint returns false
    | Aborted        // an assertion of the source fails

  class ConstraintManager {
    var constraints: set<Formula>
    var equalities: map<Term, Term>
    const table: FactorTable
    const memo: UpdateMemo
    const visitor: ReplaceVisitor

    ghost function Repr(): set<object>
      reads this, table.indexer
    {
      {this, table, table.indexer, memo, visitor} + table.indexer.factors
    }

    /** Constraints and factors agree, every equality comes from a constraint,
        everything memoised stands under the constraints, and known bytes decide what
        they can in spite of it. */
    ghost predicate Valid()
      reads this, table, table.indexer, table.indexer.factors, memo, visitor
    {
      && table.Factored() && table.representative.Keys == constraints
      && Supported(equalities, constraints)
      && visitor.memo == memo && visitor.Valid(constraints) && visitor.Deciding(equalities)
    }

    /** The value of an input byte is known and used: the byte occurs in no other
        constraint outside the lists of writes. */
    ghost predicate Learnt(fact: Formula)
      reads this
    {
      Known(constraints, equalities, fact)
    }

    /** Nothing stored says what the byte is, or denies the fact. */
    ghost predicate News(fact: Formula)
      reads this
    {
      New(constraints, equalities, fact)
    }

    /** A manager for a given constraint set, nothing simplified. */
    constructor (cs: set<Formula>)
      ensures Valid() && table.Independent() && constraints == cs && fresh(Repr())
    {
      hide FactorTable.Factored, FactorTable.Independent, ReplaceVisitor.Valid, UpdateMemo.Valid;
      constraints, equalities := cs, map[];
      table := new FactorTable.FromConstraints(cs);
      var m := new UpdateMemo();
      memo := m;
      visitor := new ReplaceVisitor(m, false);
      new;
    }

    /** `simplifyExpr`: no equality applies to the result, unless one applies to
        something remembered; and what known bytes decide is decided even then. */
    method SimplifyExpr(e: Formula) returns (r: Formula)
      requires Valid()
      modifies visitor, memo
      ensures Valid() && Stands(constraints, e, r)
      ensures old(visitor.Thorough(equalities)) ==> visitor.Thorough(equalities) && !Touches(equalities, r)
      ensures !e.Constant? && e in old(visitor.visited) ==> r == old(visitor.visited)[e]
      ensures Resolved(equalities, e, r)
    {
      hide FactorTable.Factored, ReplaceVisitor.Valid, ReplaceVisitor.Thorough, ReplaceVisitor.Deciding;
      hide Supported, Stands, RulesHold, Resolved, Touches;
      if e.Constant? {
        ConstantResolved(equalities, e);
        SameSelf(constraints, e);
        return e;
      }
      SupportedRules(equalities, constraints);
      var t := visitor.Visit(e, equalities, constraints);
      StandsWidth(constraints, e, t);
      r := t;
    }

    /** The stored constraints of the factors that share a cell with `src`. */
    method Candidates(src: Term) returns (order: seq<Term>)
      requires Valid()
      ensures Elements(order) <= constraints && NoRepeats(order)
      ensures table.Independent() ==> forall x :: x in order <==>
                exists f :: f in table.indexer.factors && Overlap(f.fp, FootprintOf(src)) && x in f.fp.exprs
    {
      hide Indexer.Sound, AllFaithful, Placed, Supported, ReplaceVisitor.Valid, FootprintOf, Overlap, Exact;
      var fp := Construct(src);
      var hits := table.indexer.GetIntersection(fp);
      var xs := set f, x | f in hits && x in f.fp.exprs :: x;
      forall x | x in xs ensures x in constraints {
        var f :| f in hits && x in f.fp.exprs;
        assert table.indexer.Fps()[f] == f.fp;
      }
      order := Enumerate(xs);
      assert forall x :: x in order <==> x in Elements(order);
    }

    /** No stored constraint in which a term occurs is missed by looking at the
        factors that share a cell with it, if it reads any cell. */
    lemma NoneMissed(src: Term, x: Formula)
      requires Valid() && x in constraints && Occurs(src, x) && ReadsCells(src)
      ensures exists f :: f in table.indexer.factors && Overlap(f.fp, FootprintOf(src)) && x in f.fp.exprs
    {
      hide Indexer.Sound, Supported, ReplaceVisitor.Valid, FootprintOf, Occurs, Reads;
      OccursOverlap(src, x);
      var f := table.representative[x];
      assert f in table.indexer.Fps() && table.indexer.Fps()[f] == f.fp;
      var arr, i :| FootprintOf(x).Covers(arr, i) && FootprintOf(src).Covers(arr, i);
      assert f.fp.Covers(arr, i);
    }

    /** `rewriteConstraints`: the stored constraints that the equality `eq` changes
        leave the set; their rewritten forms are returned. */
    method RewriteConstraints(eq: Formula) returns (ds: seq<Formula>, rs: seq<Formula>)
      requires Valid() && IsConstEq(eq)
      modifies this`constraints, memo, visitor
      ensures Distinct(ds) && Members(ds) <= old(constraints) && constraints == old(constraints) - Members(ds)
      ensures Rewritten({eq}, ds, rs)
      ensures visitor.Valid({eq}) && visitor.visited == map[]
      ensures Applied(eq, ds, rs)
      ensures table.Independent() && ReadsCells(eq.right) ==> forall x :: x in constraints ==> !Occurs(eq.right, x)
    {
      hide *;
      ConstEqRule(eq);
      ghost var rules: map<Term, Term> := map[eq.right := eq.left];
      var order := Candidates(eq.right);
      AllCandidates(eq.right, order);
      ValidMemo();
      memo.Clear(constraints);
      visitor.ResetVisited();
      var single := new ReplaceVisitor(memo, true);
      ghost var c := constraints;
      ds, rs := [], [];
      SiftNone(c, order, eq);
      for k := 0 to |order|
        invariant single.memo == memo && single.Valid({eq}) && single.Thorough(rules) && single.Deciding(rules)
        invariant visitor.visited == map[]
        invariant Sifted(c, order, k, ds, rs, eq) && constraints == c - Members(ds)
      {
        var e, r := RewriteOne(single, order, k, ds, rs, eq, c);
        if r != e {
          ds, rs := ds + [e], rs + [r];
          constraints := constraints - {e};
        }
      }
      single.MemoValid({eq});
      visitor.MemoValid({eq});
      SiftDone(c, order, ds, rs, eq);
      if ReadsCells(eq.right) {
        SomeCells(eq.right);
      }
    }

    /** The candidates include every stored constraint in which the term occurs. */
    lemma AllCandidates(src: Term, order: seq<Term>)
      requires Valid()
      ensures (table.Independent() ==> forall x :: x in order <==>
                exists f :: f in table.indexer.factors && Overlap(f.fp, FootprintOf(src)) && x in f.fp.exprs) ==>
              (table.Independent() && ReadsCells(src) ==> forall x :: x in constraints && Occurs(src, x) ==> x in order)
    {
      hide FactorTable.Independent, FactorTable.Factored, Supported, ReplaceVisitor.Valid, FootprintOf, Occurs, Overlap;
      if ReadsCells(src) {
        forall x | x in constraints && Occurs(src, x)
          ensures exists f :: f in table.indexer.factors && Overlap(f.fp, FootprintOf(src)) && x in f.fp.exprs
        {
          NoneMissed(src, x);
        }
      }
    }

    lemma ValidMemo()
      requires Valid()
      ensures memo.Valid(constraints) && visitor.memo == memo
    {
      visitor.MemoValid(constraints);
    }

    /** One candidate constraint and its rewritten form. */
    method RewriteOne(single: ReplaceVisitor, order: seq<Term>, k: nat,
                      ghost ds: seq<Formula>, ghost rs: seq<Formula>, eq: Formula, ghost c: set<Formula>)
      returns (e: Formula, r: Formula)
      requires IsConstEq(eq) && single.Valid({eq}) && k < |order| && Elements(order) <= c
      requires Sifted(c, order, k, ds, rs, eq) && NoRepeats(order)
      requires single.Thorough(map[eq.right := eq.left]) && single.Deciding(map[eq.right := eq.left])
      modifies single, single.memo
      ensures single.Valid({eq}) && e in c
      ensures single.Thorough(map[eq.right := eq.left]) && single.Deciding(map[eq.right := eq.left])
      ensures r == e ==> Sifted(c, order, k + 1, ds, rs, eq)
      ensures r != e ==> Sifted(c, order, k + 1, ds + [e], rs + [r], eq) && Members(ds + [e]) == Members(ds) + {e}
    {
      hide *;
      InOrder(c, order, k);
      e := order[k];
      ConstEqRule(eq);
      var t := single.Visit(e, map[eq.right := eq.left], {eq});
      StandsWidth({eq}, e, t);
      ConstraintWidth(e);
      r := t;
      RuleTouches(eq, e, r);
      SiftStep(c, order, k, ds, rs, eq, e, r);
    }

    /** `updateEqualities`: learn from `e`, forget what the deleted ones said. */
    method UpdateEqualities(e: Formula, ds: seq<Formula>)
      modifies this`equalities
      ensures equalities == old(equalities)[EqKey(e) := EqValue(e)] - Keys(ds)
    {
      hide EqKey, EqValue;
      equalities := equalities[EqKey(e) := EqValue(e)];
      ghost var learnt := equalities;
      assert learnt - Keys(ds[..0]) == learnt;
      for k := 0 to |ds|
        invariant equalities == learnt - Keys(ds[..k])
      {
        assert ds[..k + 1] == ds[..k] + [ds[k]];
        assert Keys(ds[..k + 1]) == Keys(ds[..k]) + {EqKey(ds[k])};
        DropOne(learnt, Keys(ds[..k]), EqKey(ds[k]));
        equalities := equalities - {EqKey(ds[k])};
      }
      assert ds[..|ds|] == ds;
    }

    /** Insert `e` where the constraints `ds` have left, and bring equalities and
        factors into step. */
    method Store(e: Formula, ds: seq<Formula>, ghost c: set<Formula>) returns (ok: bool, ghost sighted: bool)
      requires table.Factored() && table.representative.Keys == c && Supported(equalities, c)
      requires Distinct(ds) && Members(ds) <= c && constraints == c - Members(ds) && e !in c
      requires visitor.memo == memo && (visitor.Valid(c - Members(ds)) || visitor.Valid({e}))
      requires visitor.visited == map[] || (visitor.Deciding(equalities) && ds == [] && !Replaces(e))
      modifies Repr()
      ensures fresh(Repr() - old(Repr()))
      ensures ok ==> Valid() && constraints == old(constraints) + {e}
      ensures equalities == old(equalities)[EqKey(e) := EqValue(e)] - Keys(ds)
      ensures old(table.Independent()) && sighted ==> ok && table.Independent()
      ensures AllPointwise(c) ==> sighted
    {
      hide FactorTable.Factored, FactorTable.Independent, Supported, ReplaceVisitor.Valid, UpdateMemo.Valid;
      hide ReplaceVisitor.Deciding, Replaces;
      hide Distinct, EqKey, EqValue, Keys, Elements, Members, WF, AllPointwise, Unmixed;
      DeletesFit(ds, c);
      PointwiseUnmixed(c, table.representative.Keys);
      EqualitiesKept(equalities, c, e, Members(ds), Keys(ds));
      StoreVisitor(e, ds, c);
      StoreDeciding(e, ds);
      constraints := constraints + {e};
      UpdateEqualities(e, ds);
      sighted, ok := true, true;
      if ds != [] {
        ok, sighted := table.Delete(ds);
      }
      if ok {
        ok := table.Add(e);
      }
    }

    /** A new equality about something other than an input byte leaves the memo as
        good as it was; for the others it has been cleared. */
    lemma StoreDeciding(e: Formula, ds: seq<Formula>)
      requires visitor.visited == map[] || (visitor.Deciding(equalities) && ds == [] && !Replaces(e))
      ensures visitor.Deciding(equalities[EqKey(e) := EqValue(e)] - Keys(ds))
    {
      hide Resolved;
      if visitor.visited != map[] {
        assert Keys(ds) == {};
        var now := equalities[EqKey(e) := EqValue(e)];
        assert now - Keys(ds) == now;
        BooleanKey(e);
        visitor.MoreRules(equalities, now);
      }
    }

    lemma StoreVisitor(e: Formula, ds: seq<Formula>, c: set<Formula>)
      requires visitor.Valid(c - Members(ds)) || visitor.Valid({e})
      ensures visitor.Valid((c - Members(ds)) + {e})
    {
      hide Eval, WF, ReplaceVisitor.Valid, Members;
      var now := (c - Members(ds)) + {e};
      forall a: Assignment | Sat(now, a) ensures Sat(c - Members(ds), a) && Sat({e}, a) {
        SatUnion(c - Members(ds), {e}, a);
      }
      if visitor.Valid({e}) {
        visitor.MoreConstraints({e}, now);
      } else {
        visitor.MoreConstraints(c - Members(ds), now);
      }
    }

    /** `addConstraintInternal`: one simplified constraint is taken in; what it
        rewrites goes back to the worklist. */
    method AddInternal(e: Formula, worklist: seq<Formula>, ghost fact: Formula)
      returns (more: seq<Formula>, ok: bool, ghost sighted: bool)
      requires Valid()
      modifies Repr()
      ensures fresh(Repr() - old(Repr()))
      ensures ok ==> Valid() && Settled(old(constraints), worklist, e, constraints, more)
      ensures old(table.Independent()) && sighted && ok ==> table.Independent()
      ensures ok ==> worklist <= more
      ensures ok && old(Learnt(fact)) && Skips(fact, e) ==> Learnt(fact)
      ensures ok && e == fact && old(News(fact)) && old(table.Independent()) ==>
                Learnt(fact) && (Denied(fact, old(constraints)) ==> False in more)
      ensures old(table.Independent()) && sighted && !ok ==> !Satisfiable(old(constraints) + {e} + Members(worklist))
      ensures AllPointwise(old(constraints) + {e} + Members(worklist)) ==> sighted
      ensures ok && e !in old(constraints) && old(table.Independent()) ==> Scrubbed(constraints, e)
      decreases e, 1
    {
      hide FactorTable.Factored, FactorTable.Independent, Supported, ReplaceVisitor.Valid, UpdateMemo.Valid;
      hide Settled, Satisfiable, Distinct, Members, Rewritten, WF, Width, Eval, AllPointwise;
      hide Known, New, Denied, Skips, Applied, ReplaceVisitor.Deciding, EqKey, EqValue, Keys, Replaces, Occurs, ReadsCells;
      FewerPointwise(constraints, e, worklist);
      ghost var c := constraints;
      NewsSimple(c, equalities, fact);
      ReplacesIs(e);
      more, ok, sighted := worklist, true, true;
      if e in constraints {
        SettleKnown(c, worklist, e);
      } else if e.Constant? {
        ok := e == True;
        if ok {
          SettleKnown(c, worklist, e);
        } else {
          FalseUnsatisfiable(c, e, worklist);
        }
      } else if e.Binary? && e.op == And {
        more, ok, sighted := AddBoth(e, worklist, fact);
      } else {
        more, ok, sighted := TakeIn(e, worklist, fact);
      }
    }

    /** Any other constraint: rewrite what it applies to, and store it. */
    method TakeIn(e: Formula, worklist: seq<Formula>, ghost fact: Formula)
      returns (more: seq<Formula>, ok: bool, ghost sighted: bool)
      requires Valid() && e !in constraints && !e.Constant? && !(e.Binary? && e.op == And)
      modifies Repr()
      ensures fresh(Repr() - old(Repr()))
      ensures ok ==> Valid() && Settled(old(constraints), worklist, e, constraints, more)
      ensures old(table.Independent()) && sighted ==> ok && table.Independent()
      ensures ok ==> worklist <= more
      ensures ok && old(Learnt(fact)) && Skips(fact, e) ==> Learnt(fact)
      ensures ok && e == fact && old(News(fact)) && old(table.Independent()) ==>
                Learnt(fact) && (Denied(fact, old(constraints)) ==> False in more)
      ensures AllPointwise(old(constraints)) ==> sighted
      ensures ok && old(table.Independent()) ==> Scrubbed(constraints, e)
      ensures ok ==> Noted(old(constraints), equalities, e)
    {
      hide FactorTable.Factored, FactorTable.Independent, Supported, ReplaceVisitor.Valid, UpdateMemo.Valid;
      hide Settled, Satisfiable, Distinct, Members, Rewritten, WF, Width, Eval, AllPointwise;
      hide Known, New, Denied, Skips, Applied, ReplaceVisitor.Deciding, EqKey, EqValue, Keys, Replaces, Occurs, ReadsCells;
      ghost var c, eqs := constraints, equalities;
      ghost var good := table.Independent();
      var ds: seq<Formula>, rs: seq<Formula> := [], [];
      NoRewrites(c, e);
      ReplacesIs(e);
      if IsConstEq(e) && e.left != False {
        ds, rs := RewriteConstraints(e);
      }
      more := worklist + rs;
      ghost var left := constraints;
      Recorded(c, eqs, e, ds);
      ok, sighted := Store(e, ds, c);
      SettleRewritten(c, worklist, e, ds, rs);
      KeepsKnown(c, eqs, e, ds, rs, left, fact);
      if e == fact && New(c, eqs, fact) && good {
        FactReplaces(c, eqs, fact);
        LearnsFact(c, eqs, e, ds, rs, left, worklist);
      }
    }

    /** Both conjuncts of a conjunction. */
    method AddBoth(e: Formula, worklist: seq<Formula>, ghost fact: Formula)
      returns (more: seq<Formula>, ok: bool, ghost sighted: bool)
      requires Valid() && e.Binary? && e.op == And
      modifies Repr()
      ensures fresh(Repr() - old(Repr()))
      ensures ok ==> Valid() && Settled(old(constraints), worklist, e, constraints, more)
      ensures old(table.Independent()) && sighted && ok ==> table.Independent()
      ensures ok ==> worklist <= more
      ensures ok && old(Learnt(fact)) && Skips(fact, e) ==> Learnt(fact)
      ensures old(table.Independent()) && sighted && !ok ==> !Satisfiable(old(constraints) + {e} + Members(worklist))
      ensures AllPointwise(old(constraints) + {e} + Members(worklist)) ==> sighted
      decreases e, 0
    {
      hide FactorTable.Factored, FactorTable.Independent, Supported, ReplaceVisitor.Valid, UpdateMemo.Valid;
      hide Settled, Satisfiable, Members, WF, Width, Eval, AllPointwise, Known, New, Denied, Skips, ReplaceVisitor.Deciding;
      ghost var c := constraints;
      AndKids(e);
      AndSkips(fact, e);
      AndPointwiseBoth(c, worklist, e, c, worklist);
      more, ok, sighted := AddInternal(e.left, worklist, fact);
      if ok {
        ghost var d, v := constraints, more;
        SettledPointwise(c, worklist, e.left, d, v);
        AndPointwiseBoth(c, worklist, e, d, v);
        ghost var seen := sighted;
        more, ok, sighted := AddInternal(e.right, more, fact);
        sighted := sighted && seen;
        if ok {
          SettleAnd(c, worklist, e, d, v, constraints, more);
        } else {
          RightUnsatisfiable(c, worklist, e, d, v);
        }
      } else {
        LeftUnsatisfiable(c, worklist, e);
      }
    }

    /** `addConstraint`: when it succeeds the stored conjunction is the old one and
        `e`; when it returns false that conjunction is unsatisfiable. The worklist
        always runs dry. An assertion inside can fail on a satisfiable conjunction
        only after regrouping has met a pair `intersects` is blind to, which takes
        a constraint that reads at a symbolic index. A constraint about known bytes
        is decided at once and never stored; a new fact about a byte is learnt, and
        not accepted when it decides a stored constraint the other way. */
    method AddConstraint(e: Formula) returns (r: Outcome, ghost sighted: bool)
      requires Valid()
      modifies Repr()
      ensures fresh(Repr() - old(Repr()))
      ensures r == Added ==> Valid() && Equivalent(constraints, old(constraints) + {e})
      ensures r == Inconsistent ==> !Satisfiable(old(constraints) + {e})
      ensures r == Aborted && old(table.Independent()) && sighted ==> !Satisfiable(old(constraints) + {e})
      ensures r == Added && old(table.Independent()) && sighted ==> table.Independent()
      ensures e !in old(constraints) && Determined(old(equalities), e) ==>
                r == Inconsistent || (r == Added && constraints == old(constraints) && equalities == old(equalities))
      ensures old(News(e)) && old(table.Independent()) && r == Added ==> Learnt(e) && !Denied(e, old(constraints))
      ensures AllPointwise(old(constraints) + {e}) ==> sighted && (r == Added ==> AllPointwise(constraints))
    {
      hide FactorTable.Factored, FactorTable.Independent, Supported, ReplaceVisitor.Valid, UpdateMemo.Valid;
      hide Satisfiable, Equivalent, Members, WF, Width, Eval, SetWeight, SeqWeight, Weight, AllPointwise;
      hide Known, New, Denied, Resolved, Determined, Touches, Stands, ReplaceVisitor.Deciding, ReplaceVisitor.Thorough;
      ghost var goal := constraints + {e};
      sighted := true;
      NewsSimple(constraints, equalities, e);
      if e in constraints {
        assert goal == constraints;
        EquivalentSelf(goal);
        return Added, true;
      }
      var worklist := [e];
      ghost var good := table.Independent();
      ghost var news := good && News(e);
      ghost var decided, started := Determined(equalities, e), false;
      StartWork(constraints, e);
      while worklist != []
        invariant Valid() && fresh(Repr() - old(Repr()))
        invariant Equivalent(constraints + Members(worklist), goal)
        invariant !started ==> worklist == [e] && constraints == old(constraints) && equalities == old(equalities)
        invariant !started ==> table.Independent() == good
        invariant started && news ==> Learnt(e) && (Denied(e, old(constraints)) ==> False in worklist)
        invariant started && decided ==> worklist == [] && constraints == old(constraints) && equalities == old(equalities)
        invariant good && sighted ==> table.Independent()
        invariant AllPointwise(goal) ==> sighted && AllPointwise(constraints + Members(worklist))
        decreases SetWeight(constraints) + SeqWeight(worklist), |worklist|
      {
        ghost var seen, form;
        ghost var before, eqs := worklist, equalities;
        worklist, r, form, seen := TakeOne(worklist, goal, e);
        sighted := sighted && seen;
        DecidedForm(eqs, before[|before| - 1], form);
        if r != Added {
          return;
        }
        FalseStays(before, worklist);
        started := true;
      }
      NoWork(constraints);
      r := Added;
    }

    /** The last constraint of the worklist: simplified, and taken in unless that
        decides it. */
    method TakeOne(worklist: seq<Formula>, ghost goal: set<Formula>, ghost fact: Formula)
      returns (more: seq<Formula>, r: Outcome, ghost form: Formula, ghost sighted: bool)
      requires Valid() && worklist != [] && Equivalent(constraints + Members(worklist), goal)
      modifies Repr()
      ensures fresh(Repr() - old(Repr()))
      ensures r == Added ==> Valid() && Equivalent(constraints + Members(more), goal)
      ensures r == Added ==> SetWeight(constraints) + SeqWeight(more) <= SetWeight(old(constraints)) + SeqWeight(worklist)
      ensures r == Added && SetWeight(constraints) + SeqWeight(more) == SetWeight(old(constraints)) + SeqWeight(worklist) ==>
                |more| < |worklist|
      ensures var t := worklist[|worklist| - 1];
              && Stands(old(constraints), t, form) && Resolved(old(equalities), t, form)
              && (old(visitor.Thorough(equalities)) ==> !Touches(old(equalities), form))
      ensures r == Inconsistent <==> form == False
      ensures form == True ==> r == Added && constraints == old(constraints) && equalities == old(equalities)
      ensures form == True ==> more == worklist[..|worklist| - 1]
      ensures r == Added ==> worklist[..|worklist| - 1] <= more
      ensures r == Added && old(Learnt(fact)) ==> Learnt(fact)
      ensures worklist[|worklist| - 1] == fact && old(News(fact)) && old(table.Independent()) && r == Added ==>
                Learnt(fact) && (Denied(fact, old(constraints)) ==> False in more)
      ensures r == Inconsistent ==> !Satisfiable(goal)
      ensures r == Aborted && old(table.Independent()) && sighted ==> !Satisfiable(goal)
      ensures r == Added && old(table.Independent()) && sighted ==> table.Independent()
      ensures AllPointwise(old(constraints) + Members(worklist)) ==> sighted
      ensures AllPointwise(old(constraints) + Members(worklist)) && r == Added ==> AllPointwise(constraints + Members(more))
    {
      hide FactorTable.Factored, FactorTable.Independent, Supported, ReplaceVisitor.Valid, UpdateMemo.Valid;
      hide Settled, Satisfiable, Equivalent, Members, WF, Width, Eval, Stands, SetWeight, SeqWeight, Weight, AllPointwise;
      hide Known, New, Denied, Skips, Resolved, Touches, ReplaceVisitor.Deciding, ReplaceVisitor.Thorough;
      ghost var c, eqs := constraints, equalities;
      NewsSimple(c, eqs, fact);
      sighted, r := true, Added;
      var t := worklist[|worklist| - 1];
      more := worklist[..|worklist| - 1];
      ghost var w := more;
      var simplified := SimplifyExpr(t);
      form := simplified;
      PopWork(c, worklist, w, t, simplified, goal);
      KnownSkips(c, eqs, fact, t, simplified);
      if simplified == False {
        return more, Inconsistent, form, true;
      }
      if simplified != True {
        var ok;
        more, ok, sighted := AddInternal(simplified, more, fact);
        if !ok {
          SameUnsatisfiable(c + {simplified} + Members(w), goal);
          return more, Aborted, form, sighted;
        }
        SettledWork(c, w, simplified, constraints, more, goal);
      }
    }
  }

  lemma EquivalentSelf(c: set<Formula>)
    ensures Equivalent(c, c)
  {
  }

  lemma NoWork(c: set<Formula>)
    ensures c + Members([]) == c
  {
  }

  lemma StartWork(c: set<Formula>, e: Formula)
    ensures Equivalent(c + Members([e]), c + {e}) && c + Members([e]) == c + {e}
  {
    assert Members([e]) == {e};
  }

  lemma SameUnsatisfiable(c: set<Formula>, goal: set<Formula>)
    requires Equivalent(c, goal)
    ensures Satisfiable(c) <==> Satisfiable(goal)
  {
    hide Sat;
  }

  /** Taking the last constraint off the worklist and simplifying it. */
  lemma PopWork(c: set<Formula>, before: seq<Formula>, w: seq<Formula>, t: Formula, s: Formula, goal: set<Formula>)
    requires before == w + [t] && Stands(c, t, s) && Equivalent(c + Members(before), goal)
    ensures Equivalent(c + {s} + Members(w), goal)
    ensures s == False ==> !Satisfiable(goal)
    ensures s == True ==> Equivalent(c + Members(w), goal)
    ensures AllPointwise(c + Members(before)) ==> AllPointwise(c + {s} + Members(w)) && AllPointwise(c + Members(w))
    ensures SeqWeight(w) + Weight(s) <= SeqWeight(before) && SeqWeight(w) < SeqWeight(before)
  {
    hide Sat, Members, Eval, SeqWeight, Pointwise;
    MembersAdd(w, t);
    SeqWeightAdd(w, t);
    if AllPointwise(c + Members(before)) {
      assert t in c + Members(before);
      assert AllPointwise(c + Members(w)) && AllPointwise(c + {s} + Members(w));
    }
    forall a: Assignment ensures Sat(c + {s} + Members(w), a) <==> Sat(c + Members(before), a) {
      SatUnion(c, Members(w) + {t}, a);
      SatUnion(Members(w), {t}, a);
      SatOne(t, a);
      SatThree(c, s, w, a);
    }
    if s == False {
      FalseUnsatisfiable(c, s, w);
    }
    if s == True {
      SettleKnown(c, w, s);
    }
  }

  lemma SettledWork(c: set<Formula>, w: seq<Formula>, s: Formula, d: set<Formula>, v: seq<Formula>, goal: set<Formula>)
    requires Settled(c, w, s, d, v) && Equivalent(c + {s} + Members(w), goal)
    ensures Equivalent(d + Members(v), goal)
    ensures SetWeight(d) + SeqWeight(v) <= SetWeight(c) + Weight(s) + SeqWeight(w)
    ensures v != w ==> SetWeight(d) + SeqWeight(v) < SetWeight(c) + Weight(s) + SeqWeight(w)
    ensures AllPointwise(c + {s} + Members(w)) ==> AllPointwise(d + Members(v))
  {
    hide Sat, Members, SetWeight, SeqWeight, Weight;
  }

  lemma SettledPointwise(c: set<Formula>, w: seq<Formula>, e: Formula, d: set<Formula>, v: seq<Formula>)
    requires Settled(c, w, e, d, v)
    ensures AllPointwise(c + {e} + Members(w)) ==> AllPointwise(d + Members(v))
  {
    hide AllPointwise, Members, Equivalent, SetWeight, SeqWeight, Weight;
  }

  lemma FewerPointwise(c: set<Formula>, e: Formula, w: seq<Formula>)
    ensures AllPointwise(c + {e} + Members(w)) ==> AllPointwise(c)
  {
    hide Pointwise, Members, WF, Width;
    if AllPointwise(c + {e} + Members(w)) {
      forall x | x in c ensures Pointwise(x) {
        assert x in c + {e} + Members(w);
      }
    }
  }

  /** Reads at constant indices cover single cells only. */
  lemma {:induction false} PointReadsOnly(e: Term)
    requires Pointwise(e)
    ensures forall r :: r in Reads(e) ==> r.index.Constant? || !Aliases(r)
    decreases e
  {
    match e
    case Constant(_) =>
    case NotOptimized(s) => PointReadsOnly(s);
    case Read(_, head, index) =>
      PointReadsOnly(index);
      PointListOnly(head);
    case Select(c, t, f) =>
      PointReadsOnly(c);
      PointReadsOnly(t);
      PointReadsOnly(f);
    case Concat(l, r) =>
      PointReadsOnly(l);
      PointReadsOnly(r);
    case Extract(s, _, _) => PointReadsOnly(s);
    case ZExt(s, _) => PointReadsOnly(s);
    case SExt(s, _) => PointReadsOnly(s);
    case Not(s) => PointReadsOnly(s);
    case Binary(_, l, r) =>
      PointReadsOnly(l);
      PointReadsOnly(r);
  }

  lemma {:induction false} PointListOnly(u: WriteList)
    requires PointwiseList(u)
    ensures forall r :: r in ListReads(u) ==> r.index.Constant? || !Aliases(r)
    decreases u
  {
    if u.Update? {
      PointReadsOnly(u.index);
      PointReadsOnly(u.value);
      PointListOnly(u.next);
    }
  }

  lemma PointwiseWhole(e: Term)
    requires Pointwise(e)
    ensures FootprintOf(e).whole == {}
  {
    hide Reads, Pointwise;
    PointReadsOnly(e);
  }

  lemma PointwiseUnmixed(c: set<Formula>, xs: set<Term>)
    requires xs == c
    ensures AllPointwise(c) ==> Unmixed(xs)
  {
    hide FootprintOf, Pointwise;
    if AllPointwise(c) {
      forall x, y | x in xs && y in xs ensures FootprintOf(x).whole !! FootprintOf(y).elements.Keys {
        PointwiseWhole(x);
      }
    }
  }

  lemma FalseUnsatisfiable(c: set<Formula>, e: Formula, w: seq<Formula>)
    requires e.Constant? && e != True
    ensures !Satisfiable(c + {e} + Members(w))
  {
    forall a: Assignment ensures !Sat(c + {e} + Members(w), a) {
      SatThree(c, e, w, a);
      OneBit(e.value, [true]);
    }
  }

  lemma NoRewrites(c: set<Formula>, e: Formula)
    ensures Distinct([]) && Members([]) == {} && Rewritten({e}, [], []) && Applied(e, [], []) && c - Members([]) == c
  {
  }

  lemma AndKids(e: Formula)
    requires e.Binary? && e.op == And
    ensures WF(e.left) && WF(e.right) && Width(e.left) == Width(e.right) == BOOL
  {
  }

  lemma LeftUnsatisfiable(c: set<Formula>, w: seq<Formula>, e: Formula)
    requires e.Binary? && e.op == And && WF(e.left) && Width(e.left) == BOOL
    ensures !Satisfiable(c + {e.left} + Members(w)) ==> !Satisfiable(c + {e} + Members(w))
  {
    hide Sat, Members, Eval, WF;
    forall a: Assignment | Sat(c + {e} + Members(w), a) ensures Sat(c + {e.left} + Members(w), a) {
      AndHolds(e, a);
      SatThree(c, e, w, a);
      SatThree(c, e.left, w, a);
    }
  }

  lemma RightUnsatisfiable(c: set<Formula>, w: seq<Formula>, e: Formula, d: set<Formula>, v: seq<Formula>)
    requires e.Binary? && e.op == And && WF(e.left) && WF(e.right) && Width(e.left) == Width(e.right) == BOOL
    requires Settled(c, w, e.left, d, v)
    ensures !Satisfiable(d + {e.right} + Members(v)) ==> !Satisfiable(c + {e} + Members(w))
  {
    hide Sat, Members, Eval, WF, SetWeight, SeqWeight, Weight;
    forall a: Assignment | Sat(c + {e} + Members(w), a) ensures Sat(d + {e.right} + Members(v), a) {
      AndHolds(e, a);
      SatThree(c, e, w, a);
      SatThree(c, e.left, w, a);
      SatUnion(d, Members(v), a);
      SatThree(d, e.right, v, a);
    }
  }

  lemma DeletesFit(ds: seq<Formula>, c: set<Formula>)
    requires Distinct(ds) && Members(ds) <= c
    ensures forall k :: 0 <= k < |ds| ==> ds[k] in c
    ensures NoRepeats(ds)
    ensures Elements<Term>(ds) == Members(ds) && (ds == [] ==> Members(ds) == {})
    ensures Keys(ds) == set d | d in Members(ds) :: EqKey(d)
  {
    hide EqKey;
    forall k | 0 <= k < |ds| ensures ds[k] in c {
      assert ds[k] in Members(ds);
    }
  }


  /** How far `rewriteConstraints` has come. */
  ghost predicate Sifted(c: set<Formula>, order: seq<Term>, k: nat, ds: seq<Formula>, rs: seq<Formula>, eq: Formula) {
    && k <= |order| && Distinct(ds) && Members(ds) <= c && Rewritten({eq}, ds, rs) && Applied(eq, ds, rs)
    && (forall d :: d in ds ==> d in order[..k])
    && (IsConstEq(eq) && !eq.right.Constant? ==> forall x :: x in order[..k] && x !in ds ==> !Occurs(eq.right, x))
  }

  lemma SiftNone(c: set<Formula>, order: seq<Term>, eq: Formula)
    ensures Sifted(c, order, 0, [], [], eq) && c - Members([]) == c
  {
  }

  lemma SiftDone(c: set<Formula>, order: seq<Term>, ds: seq<Formula>, rs: seq<Formula>, eq: Formula)
    requires Sifted(c, order, |order|, ds, rs, eq)
    ensures Distinct(ds) && Members(ds) <= c && Rewritten({eq}, ds, rs) && Applied(eq, ds, rs)
    ensures IsConstEq(eq) && !eq.right.Constant? ==> forall x :: x in order && x !in Members(ds) ==> !Occurs(eq.right, x)
  {
    hide Occurs;
    assert order[..|order|] == order;
  }

  lemma SiftStep(c: set<Formula>, order: seq<Term>, k: nat, ds: seq<Formula>, rs: seq<Formula>,
                 eq: Formula, e: Formula, r: Formula)
    requires Sifted(c, order, k, ds, rs, eq) && k < |order| && order[k] == e && e in c && Stands({eq}, e, r)
    requires NoRepeats(order) && (IsConstEq(eq) && !eq.right.Constant? && Occurs(eq.right, e) ==> r != e)
    requires r != e ==> AppliedTo(eq, e, r)
    ensures r == e ==> Sifted(c, order, k + 1, ds, rs, eq)
    ensures r != e ==> Sifted(c, order, k + 1, ds + [e], rs + [r], eq) && Members(ds + [e]) == Members(ds) + {e}
  {
    hide Same, Weight, WF, Pointwise, Occurs, AppliedTo;
    assert order[..k + 1] == order[..k] + [e];
    assert e !in order[..k];
    MembersAdd(ds, e);
  }

  lemma InOrder(c: set<Formula>, order: seq<Term>, k: nat)
    requires k < |order| && Elements(order) <= c
    ensures order[k] in c && WF(order[k]) && Width(order[k]) == BOOL
  {
    assert order[k] in Elements(order);
  }

  lemma RuleTouches(eq: Formula, e: Formula, r: Formula)
    requires IsConstEq(eq) && !Touches(map[eq.right := eq.left], r) && Resolved(map[eq.right := eq.left], e, r)
    ensures !eq.right.Constant? && Occurs(eq.right, e) ==> r != e
    ensures r != e ==> AppliedTo(eq, e, r)
  {
    hide Occurs, Resolved;
    var s, rules: map<Term, Term> := eq.right, map[eq.right := eq.left];
    assert s in rules;
  }

  lemma SomeCells(e: Term)
    requires ReadsCells(e)
    ensures !e.Constant?
  {
  }

  lemma ConstEqRule(eq: Formula)
    requires IsConstEq(eq)
    ensures eq.Binary? && WF(eq.right) && WF(eq.left) && RulesHold({eq}, map[eq.right := eq.left])
  {
    ConstEqSame(eq);
  }

  lemma ConstraintWidth(e: Formula)
    ensures Width(e) == BOOL
  {
  }

  lemma StandsWidth(c: set<Formula>, e: Term, r: Term)
    requires Stands(c, e, r)
    ensures Width(r) == Width(e) && Weight(r) <= Weight(e)
  {
  }
}
