/** The independence factors of a constraint set: each constraint belongs to one
    factor, found through `representative`, and the factors are kept in the
    inverted index. `updateIndependentSetAdd`, `updateIndependentSetDelete` and
    the constructors of lib/Expr/Constraints.cpp. */
module FactorTables {
  import opened Exprs
  import opened Footprints
  import opened FactorIndex
  import opened Indexers
  import opened Regrouping
  import opened Sequences

  // ----- factors and representatives as values -----

  ghost predicate AllFaithful<F>(fps: map<F, Footprint>) {
    forall f :: f in fps ==> Faithful(fps[f])
  }

  /** Every expression of a factor is represented by it. */
  ghost predicate Owned<F>(fps: map<F, Footprint>, rep: map<Term, F>) {
    forall f, x :: f in fps && x in fps[f].exprs ==> x in rep && rep[x] == f
  }

  /** Every expression outside `pending` is in the factor that represents it. */
  ghost predicate Placed<F>(fps: map<F, Footprint>, rep: map<Term, F>, pending: set<Term>) {
    forall x :: x in rep && x !in pending ==> rep[x] in fps && x in fps[rep[x]].exprs
  }

  /** Each expression belongs to exactly one factor, its representative. */
  ghost predicate Sorted<F>(fps: map<F, Footprint>, rep: map<Term, F>) {
    AllFaithful(fps) && Owned(fps, rep) && Placed(fps, rep, {})
  }

  /** Growing one factor by one expression. */
  lemma GrowSorted<F>(fps: map<F, Footprint>, rep: map<Term, F>, f: F, e: Term)
    requires Sorted(fps, rep) && f in fps && e !in rep
    ensures Sorted(fps[f := fps[f].Join(FootprintOf(e))], rep[e := f])
  {
    hide Faithful, FootprintOf;
    FaithfulOne(e);
    FaithfulJoin(fps[f], FootprintOf(e));
  }

  lemma GrowUndivided<F>(fps: map<F, Footprint>, rep: map<Term, F>, f: F, e: Term)
    requires Sorted(fps, rep) && Undivided(fps) && f in fps && Overlap(fps[f], FootprintOf(e))
    ensures Undivided(fps[f := fps[f].Join(FootprintOf(e))])
  {
    hide Faithful, FootprintOf, Connected, Overlap;
    FaithfulOne(e);
    ConnectedOne(e);
    ConnectedJoin(fps[f], FootprintOf(e));
    UndividedMore(fps, f, fps[f].Join(FootprintOf(e)));
  }

  /** The expressions `xs` represented by `n` from now on. */
  function Represent<F>(rep: map<Term, F>, xs: set<Term>, n: F): (r: map<Term, F>)
    ensures r.Keys == rep.Keys + xs
    ensures forall x :: x in r ==> r[x] == if x in xs then n else rep[x]
  {
    rep + map x | x in xs :: n
  }

  /** Replacing some factors by one that holds their expressions and more. */
  lemma ReplaceSorted<F>(fps: map<F, Footprint>, rep: map<Term, F>, victims: set<F>, pending: set<Term>, n: F, big: Footprint)
    requires AllFaithful(fps) && Owned(fps, rep) && Placed(fps, rep, pending)
    requires n !in fps && Faithful(big)
    requires forall f, x :: f in fps && x in fps[f].exprs ==> (x in big.exprs <==> f in victims)
    ensures var now := (fps - victims)[n := big];
            AllFaithful(now) && Owned(now, Represent(rep, big.exprs, n)) &&
            Placed(now, Represent(rep, big.exprs, n), pending - big.exprs)
  {
    hide Faithful, Represent;
    var now, rep1 := (fps - victims)[n := big], Represent(rep, big.exprs, n);
    forall x | x in rep1 && x !in pending - big.exprs ensures rep1[x] in now && x in now[rep1[x]].exprs {
      if x !in big.exprs {
        assert rep[x] in fps && x in fps[rep[x]].exprs;
      }
    }
  }

  /** No factor can be divided. */
  ghost predicate Undivided<F>(fps: map<F, Footprint>) {
    forall f :: f in fps ==> Connected(fps[f])
  }

  lemma UndividedEach<F>(fps: map<F, Footprint>)
    ensures Undivided(fps) <==> forall f :: f in fps ==> Connected(fps[f])
  {
  }

  lemma UndividedMore<F>(fps: map<F, Footprint>, n: F, big: Footprint)
    requires Undivided(fps) && Connected(big)
    ensures Undivided(fps[n := big])
  {
    hide Connected;
  }

  lemma UndividedLess<F>(fps: map<F, Footprint>, gone: set<F>)
    requires Undivided(fps)
    ensures Undivided(fps - gone)
  {
    hide Connected;
  }

  /** Independent factors are the connected components of the constraints: a factor
      shares no cell with the others, and whatever else shares none with the rest is
      made up of whole factors. */
  lemma Components<F>(ix: Index<F>, fps: map<F, Footprint>, rep: map<Term, F>, some: set<Term>, f: F)
    requires Sorted(fps, rep) && Exact(ix, fps) && Undivided(fps) && f in fps && some <= rep.Keys
    ensures !Linked(fps[f].exprs, rep.Keys - fps[f].exprs)
    ensures !Linked(some, rep.Keys - some) ==> fps[f].exprs <= some || fps[f].exprs !! some
  {
    hide FootprintOf, Overlap, Live, Complete, Faithful;
    if Linked(fps[f].exprs, rep.Keys - fps[f].exprs) {
      var x, y :| x in fps[f].exprs && y in rep.Keys - fps[f].exprs && Overlap(FootprintOf(x), FootprintOf(y));
      FactorsOverlap(fps[f], fps[rep[y]], x, y);
    }
    if !(fps[f].exprs <= some) && !(fps[f].exprs !! some) {
      CutThrough(fps[f], some, rep.Keys);
    }
  }

  /** Whatever cuts through connected constraints shares a cell with the rest. */
  lemma CutThrough(f: Footprint, some: set<Term>, all: set<Term>)
    requires Connected(f) && f.exprs <= all && !(f.exprs <= some) && !(f.exprs !! some)
    ensures Linked(some, all - some)
  {
    hide FootprintOf, Overlap;
    var part := f.exprs * some;
    var z :| z in f.exprs && z in some;
    assert z in part;
    assert Linked(part, f.exprs - part);
    var x, y :| x in part && y in f.exprs - part && Overlap(FootprintOf(x), FootprintOf(y));
  }

  lemma FactorsOverlap(f: Footprint, g: Footprint, x: Term, y: Term)
    requires Faithful(f) && Faithful(g) && x in f.exprs && y in g.exprs && Overlap(FootprintOf(x), FootprintOf(y))
    ensures Overlap(f, g)
  {
    hide FootprintOf;
    var arr, i :| FootprintOf(x).Covers(arr, i) && FootprintOf(y).Covers(arr, i);
    assert f.Covers(arr, i) && g.Covers(arr, i);
  }

  // ----- footprints of several factors -----

  /** `big` is `base` joined with the footprints of `done`. */
  ghost predicate Joined<F>(big: Footprint, base: Footprint, fps: map<F, Footprint>, done: set<F>)
    requires done <= fps.Keys
  {
    && Faithful(big)
    && (forall x :: x in big.exprs <==> x in base.exprs || exists f :: f in done && x in fps[f].exprs)
    && (forall arr, i :: big.Covers(arr, i) <==> base.Covers(arr, i) || exists f :: f in done && fps[f].Covers(arr, i))
  }

  lemma JoinMore<F>(big: Footprint, base: Footprint, fps: map<F, Footprint>, done: set<F>, f: F)
    requires done <= fps.Keys && f in fps && Joined(big, base, fps, done) && Faithful(fps[f])
    ensures Joined(big.Join(fps[f]), base, fps, done + {f})
    ensures Connected(big) && Connected(fps[f]) && Overlap(fps[f], base) ==> Connected(big.Join(fps[f]))
  {
    hide Faithful, Connected;
    FaithfulJoin(big, fps[f]);
    if Connected(big) && Connected(fps[f]) && Overlap(fps[f], base) {
      var arr, i :| fps[f].Covers(arr, i) && base.Covers(arr, i);
      assert big.Covers(arr, i);
      ConnectedJoin(big, fps[f]);
    }
    forall arr, i ensures big.Join(fps[f]).Covers(arr, i) <==>
                          base.Covers(arr, i) || exists g :: g in done + {f} && fps[g].Covers(arr, i)
    {
      assert big.Join(fps[f]).Covers(arr, i) <==> big.Covers(arr, i) || fps[f].Covers(arr, i);
      assert f in done + {f};
    }
    forall x ensures x in big.Join(fps[f]).exprs <==>
                     x in base.exprs || exists g :: g in done + {f} && x in fps[g].exprs
    {
      assert f in done + {f};
    }
  }

  /** A factor apart from the base and from every factor joined is apart from
      the whole. */
  lemma JoinedApart<F>(big: Footprint, base: Footprint, fps: map<F, Footprint>, done: set<F>, g: Footprint)
    requires done <= fps.Keys && Joined(big, base, fps, done) && !Overlap(g, base)
    requires forall f :: f in done ==> !Overlap(g, fps[f])
    ensures !Overlap(g, big)
  {
    hide Faithful;
  }

  class FactorTable {
    const indexer: Indexer
    var representative: map<Term, Factor>

    /** Every represented constraint is in exactly one factor. */
    ghost predicate Factored()
      reads this, indexer, indexer.factors
    {
      indexer.Sound() && Sorted(indexer.Fps(), representative)
    }

    /** The factors are the connected components: no two share a cell, none can be
        divided, and the index answers as a comparison of cells would. */
    ghost predicate Independent()
      reads this, indexer, indexer.factors
    {
      Exact(indexer.Ix(), indexer.Fps()) && Undivided(indexer.Fps())
    }

    constructor ()
      ensures Factored() && Independent() && representative == map[] && fresh(indexer) && indexer.factors == {}
    {
      indexer := new Indexer();
      representative := map[];
    }

    /** The factors of a constraint set built from scratch. */
    constructor FromConstraints(cs: set<Term>)
      ensures Factored() && Independent() && representative.Keys == cs
      ensures fresh(indexer) && fresh(indexer.factors)
    {
      indexer := new Indexer();
      representative := map[];
      new;
      AddAll(cs);
    }

    method AddAll(cs: set<Term>)
      requires Factored() && Independent() && representative == map[]
      modifies this, indexer, indexer.factors
      ensures Factored() && Independent() && representative.Keys == cs
      ensures fresh(indexer.factors - old(indexer.factors))
    {
      hide *;
      var order := Enumerate(cs);
      NoElements(order);
      for k := 0 to |order|
        invariant Factored() && Independent() && representative.Keys == Elements(order[..k])
        invariant fresh(indexer.factors - old(indexer.factors))
      {
        ElementsStep(order, k);
        AddNext(order[k], Elements(order[..k]));
      }
      assert order[..|order|] == order;
    }

    method AddNext(e: Term, ghost done: set<Term>)
      requires Factored() && Independent() && representative.Keys == done && e !in done
      modifies this, indexer, indexer.factors
      ensures Factored() && Independent() && representative.Keys == done + {e}
      ensures fresh(indexer.factors - old(indexer.factors))
    {
      hide *;
      var ok := Add(e);
    }

    /** Join `current` with every factor of `hits`. */
    method JoinAll(current: Factor, base: Footprint, hits: set<Factor>)
      requires Factored() && hits <= indexer.factors && current !in indexer.factors
      requires current.fp == base && Faithful(base)
      modifies current
      ensures Joined(current.fp, base, old(indexer.Fps()), hits)
      ensures Undivided(old(indexer.Fps())) && Connected(base) && (forall f :: f in hits ==> Overlap(old(f.fp), base)) ==>
                Connected(current.fp)
    {
      hide *;
      ghost var fps := indexer.Fps();
      var todo := hits;
      ghost var done: set<Factor> := {};
      JoinNone(base, fps);
      AllInFactors();
      ghost var tight := Undivided(fps) && Connected(base) && forall f :: f in hits ==> Overlap(fps[f], base);
      UndividedEach(fps);
      while todo != {}
        invariant todo <= hits && done == hits - todo
        invariant Joined(current.fp, base, fps, done)
        invariant tight ==> Connected(current.fp)
        decreases |todo|
      {
        var f :| f in todo;
        todo := todo - {f};
        JoinOne(current, base, f, fps, done);
        done := done + {f};
      }
      assert done == hits;
    }

    method JoinOne(current: Factor, base: Footprint, f: Factor, ghost fps: map<Factor, Footprint>, ghost done: set<Factor>)
      requires f in fps && done <= fps.Keys && fps[f] == f.fp && current != f
      requires Faithful(f.fp) && Joined(current.fp, base, fps, done)
      modifies current
      ensures Joined(current.fp, base, fps, done + {f})
      ensures old(Connected(current.fp)) && Connected(fps[f]) && Overlap(fps[f], base) ==> Connected(current.fp)
    {
      hide *;
      JoinedNormal(current.fp, base, fps, done);
      FaithfulNormal(f.fp);
      JoinMore(current.fp, base, fps, done, f);
      var _ := current.Add(f.fp);
    }

    lemma AllInFactors()
      requires Factored()
      ensures forall f :: f in indexer.factors ==> Faithful(f.fp) && f.fp.Normal()
    {
      hide Faithful, Live;
      assert forall f :: f in indexer.factors ==> Faithful(indexer.Fps()[f]);
    }

    /** Erase every factor of `hits`; false when an assertion fails. */
    method EraseAll(hits: set<Factor>) returns (ok: bool)
      requires indexer.Sound() && hits <= indexer.factors
      modifies indexer
      ensures indexer.factors <= old(indexer.factors)
      ensures ok ==> indexer.Sound() && indexer.factors == old(indexer.factors) - hits
      ensures ok ==> indexer.Fps() == old(indexer.Fps()) - hits
      ensures old(Independent()) ==> ok && Independent()
    {
      hide Indexer.Sound, Exact, Erasable, Indexer.Fps, Undivided;
      ok := true;
      var todo := hits;
      while todo != {}
        invariant todo <= hits && ok
        invariant indexer.Sound() && indexer.factors == old(indexer.factors) - (hits - todo)
        invariant indexer.Fps() == old(indexer.Fps()) - (hits - todo)
        invariant old(Independent()) ==> Independent()
        decreases |todo|
      {
        var f :| f in todo;
        assert f in indexer.factors;
        EraseAllowed(f);
        ghost var fps := indexer.Fps();
        ok := indexer.Erase(f);
        if Undivided(fps) {
          UndividedLess(fps, {f});
        }
        if !ok {
          return;
        }
        assert hits - (todo - {f}) == hits - todo + {f};
        DropOne(old(indexer.Fps()), hits - todo, f);
        todo := todo - {f};
      }
      assert hits - todo == hits;
    }

    /** `updateIndependentSetAdd`: a constraint joins the one factor it overlaps,
        or is merged with all of them into a new factor. */
    method Add(e: Term) returns (ok: bool)
      requires Factored() && e !in representative
      modifies this, indexer, indexer.factors
      ensures fresh(indexer.factors - old(indexer.factors))
      ensures ok ==> Factored() && representative.Keys == old(representative.Keys) + {e}
      ensures old(Independent()) ==> ok && Independent()
    {
      hide Sorted, Indexer.Sound, Exact, Overlap, Faithful, FootprintOf, Indexer.Fps, Undivided, Connected;
      ghost var fps := indexer.Fps();
      ok := true;
      var fp := Construct(e);
      FaithfulOne(e);
      FaithfulNormal(fp);
      var hits := indexer.GetIntersection(fp);
      if |hits| == 1 {
        var f :| f in hits;
        OnlyOne(hits, f);
        GrowSorted(fps, representative, f, e);
        if Independent() {
          GrowUndivided(fps, representative, f, e);
        }
        indexer.Grow(f, fp);
        representative := representative[e := f];
      } else {
        ok := Merge(e, fp, hits);
      }
    }

    /** Replace the factors of `hits` by one that also holds `e`. */
    method Merge(e: Term, fp: Footprint, hits: set<Factor>) returns (ok: bool)
      requires Factored() && e !in representative && fp == FootprintOf(e) && hits <= indexer.factors
      requires Independent() ==> forall f :: f in hits <==> f in indexer.factors && Overlap(f.fp, fp)
      modifies this, indexer
      ensures fresh(indexer.factors - old(indexer.factors))
      ensures ok ==> Factored() && representative.Keys == old(representative.Keys) + {e}
      ensures old(Independent()) ==> ok && Independent()
    {
      hide *;
      Parts();
      ghost var fps, rep := indexer.Fps(), representative;
      FaithfulOne(e);
      ConnectedOne(e);
      var current := new Factor(fp);
      JoinAll(current, fp, hits);
      JoinedNormal(current.fp, fp, fps, hits);
      representative := Represent(representative, current.fp.exprs, current);
      Parts();
      ok := EraseAll(hits);
      Parts();
      if ok {
        MergeSorted(fps, rep, hits, current, e, current.fp);
        if old(Independent()) {
          MergedApart(fps, hits, fp, current.fp, old(indexer.Ix()));
          UndividedMore(indexer.Fps(), current, current.fp);
        }
        indexer.Insert(current);
        Parts();
      }
    }

    lemma Parts()
      ensures Factored() <==> indexer.Sound() && Sorted(indexer.Fps(), representative)
      ensures Independent() <==> Exact(indexer.Ix(), indexer.Fps()) && Undivided(indexer.Fps())
    {
    }

    // ----- updateIndependentSetDelete -----

    /** Add one rebuilt group as a factor; its expressions stop waiting. */
    method InsertGroup(group: Footprint, ghost pending: set<Term>)
      requires indexer.Sound() && Awaiting(indexer.Fps(), representative, pending)
      requires Faithful(group) && group.exprs <= pending
      modifies this, indexer
      ensures fresh(indexer.factors - old(indexer.factors)) && old(indexer.factors) <= indexer.factors
      ensures indexer.Sound() && Awaiting(indexer.Fps(), representative, pending - group.exprs)
      ensures representative.Keys == old(representative.Keys)
      ensures forall x :: x in representative && x !in group.exprs ==> representative[x] == old(representative)[x]
      ensures forall g :: g in indexer.factors && g !in old(indexer.factors) ==> g.fp == group
      ensures old(Independent()) && Connected(group) && (forall g :: g in old(indexer.factors) ==> !Overlap(g.fp, group)) ==>
                Independent()
    {
      hide Awaiting, Indexer.Sound, Exact, Overlap, Faithful, Represent, Indexer.Fps, Redirected, Undivided, Connected;
      FaithfulNormal(group);
      var f := new Factor(group);
      PlaceGroup(indexer.Fps(), representative, pending, f, group);
      if Undivided(indexer.Fps()) && Connected(group) {
        UndividedMore(indexer.Fps(), f, group);
      }
      indexer.Insert(f);
      representative := Represent(representative, group.exprs, f);
    }

    /** A footprint shares no cell with a group from `k` on. */
    static ghost predicate ApartOf(f: Footprint, groups: seq<Footprint>, k: nat) {
      forall l :: k <= l < |groups| ==> !Overlap(f, groups[l])
    }

    /** No factor shares a cell with a group from `k` on. */
    ghost predicate ApartFrom(groups: seq<Footprint>, k: nat)
      reads indexer, indexer.factors
    {
      forall g :: g in indexer.factors ==> ApartOf(g.fp, groups, k)
    }

    /** Add every rebuilt group. */
    method InsertGroups(groups: seq<Footprint>, ghost pending: set<Term>)
      requires indexer.Sound() && Awaiting(indexer.Fps(), representative, pending)
      requires Partition(groups) && forall x :: InSome(groups, x) ==> x in pending
      modifies this, indexer
      ensures fresh(indexer.factors - old(indexer.factors)) && old(indexer.factors) <= indexer.factors
      ensures indexer.Sound() && Awaiting(indexer.Fps(), representative, Unplaced(pending, groups))
      ensures representative.Keys == old(representative.Keys)
      ensures forall x :: x in representative && !InSome(groups, x) ==> representative[x] == old(representative)[x]
      ensures forall g :: g in indexer.factors && g !in old(indexer.factors) ==> g.fp in groups
      ensures old(Independent()) && Separate(groups) && AllConnected(groups) && old(ApartFrom(groups, 0)) ==> Independent()
    {
      hide *;
      ghost var good := Independent() && Separate(groups) && AllConnected(groups) && ApartFrom(groups, 0);
      UnplacedNone(pending, groups);
      for k := 0 to |groups|
        invariant fresh(indexer.factors - old(indexer.factors)) && old(indexer.factors) <= indexer.factors
        invariant indexer.Sound() && Awaiting(indexer.Fps(), representative, Unplaced(pending, groups[..k]))
        invariant representative.Keys == old(representative.Keys)
        invariant forall x :: x in representative && !InSome(groups[..k], x) ==> representative[x] == old(representative)[x]
        invariant forall g :: g in indexer.factors && g !in old(indexer.factors) ==> g.fp in groups
        invariant good ==> Independent() && ApartFrom(groups, k)
      {
        UnplacedStep(pending, groups, k);
        ghost var before := indexer.factors;
        NextApart(groups, k);
        EachConnected(groups, k);
        InsertGroup(groups[k], Unplaced(pending, groups[..k]));
        if good {
          StillApart(groups, k, before);
        }
      }
      assert groups[..|groups|] == groups;
    }

    lemma EachConnected(groups: seq<Footprint>, k: nat)
      requires k < |groups|
      ensures AllConnected(groups) ==> Connected(groups[k])
    {
    }

    lemma NextApart(groups: seq<Footprint>, k: nat)
      requires k < |groups|
      ensures ApartFrom(groups, k) ==>
                forall g :: g in indexer.factors ==> ApartOf(g.fp, groups, k) && !Overlap(g.fp, groups[k])
    {
      hide Overlap;
    }

    lemma StillApart(groups: seq<Footprint>, k: nat, before: set<Factor>)
      requires k < |groups| && Separate(groups) && forall g :: g in before ==> ApartOf(g.fp, groups, k)
      requires forall g :: g in indexer.factors ==> g in before || g.fp == groups[k]
      ensures ApartFrom(groups, k + 1)
    {
      hide Overlap;
    }

    /** Rebuild the factors of what is left of an erased one. */
    method RebuildFactor(f: Footprint, keep: set<Term>, ghost pending: set<Term>) returns (ghost sighted: bool)
      requires indexer.Sound() && Awaiting(indexer.Fps(), representative, pending)
      requires Faithful(f) && keep <= f.exprs && keep <= pending
      modifies this, indexer
      ensures fresh(indexer.factors - old(indexer.factors)) && old(indexer.factors) <= indexer.factors
      ensures indexer.Sound() && Awaiting(indexer.Fps(), representative, pending - keep)
      ensures representative.Keys == old(representative.Keys)
      ensures forall x :: x in representative && x !in keep ==> representative[x] == old(representative)[x]
      ensures forall g :: g in indexer.factors && g !in old(indexer.factors) ==> Inside(g.fp, f)
      ensures old(Independent()) && sighted && (forall g :: g in old(indexer.factors) ==> !Overlap(g.fp, f)) ==> Independent()
      ensures Unmixed(keep) ==> sighted
    {
      hide Awaiting, Indexer.Sound, Exact, Overlap, Faithful, Indexer.Fps, Partition, InSome, Unplaced, Inside;
      hide RegroupSighted, Unmixed, Separate, Connected, Undivided;
      var temp := FootprintsOf(keep);
      sighted := RegroupSighted(temp, []);
      SightedIfUnmixed(keep, temp);
      var groups := RegroupLoop(temp);
      NoGroups();
      RegroupPartition(temp, []);
      RegroupConnected(temp, []);
      if sighted {
        RegroupSeparate(temp, []);
      }
      GroupsInside(f, keep, groups);
      if forall g :: g in indexer.factors ==> !Overlap(g.fp, f) {
        forall g, l | g in indexer.factors && 0 <= l < |groups| ensures !Overlap(g.fp, groups[l]) {
          InsideApart(g.fp, groups[l], f);
        }
      }
      UnplacedKeep(pending, keep, groups);
      InsertGroups(groups, pending);
    }

    /** The factors to rebuild, each with the constraints it loses. */
    method Collect(ds: seq<Term>) returns (updateList: map<Factor, set<Term>>)
      requires (forall k :: 0 <= k < |ds| ==> ds[k] in representative) && NoRepeats(ds)
      modifies this
      ensures representative == old(representative) - Elements(ds)
      ensures Losing(updateList, old(representative), Elements(ds))
    {
      hide Elements, Losing;
      updateList := map[];
      LosingNone<Factor>(representative, ds);
      for k := 0 to |ds|
        invariant representative == old(representative) - Elements(ds[..k])
        invariant Losing(updateList, old(representative), Elements(ds[..k]))
      {
        ElementsStep(ds, k);
        LosingStep(updateList, old(representative), Elements(ds[..k]), ds[k]);
        DropOne(old(representative), Elements(ds[..k]), ds[k]);
        var f := representative[ds[k]];
        updateList := updateList[f := (if f in updateList then updateList[f] else {}) + {ds[k]}];
        representative := representative - {ds[k]};
      }
      assert ds[..|ds|] == ds;
    }

    /** Between erasing and rebuilding: the surviving constraints of the factors
        in `todo` wait for a factor. */
    ghost predicate Rebuilding(rep: map<Term, Factor>, gone: set<Term>, todo: set<Factor>)
      reads this, indexer, indexer.factors
    {
      && indexer.Sound() && representative.Keys == rep.Keys - gone
      && Awaiting(indexer.Fps(), representative, WaitingIn(rep, gone, todo))
    }

    /** No factor shares a cell with one still to be rebuilt. */
    ghost predicate Clear(todo: set<Factor>)
      reads indexer, indexer.factors, todo
    {
      forall g, f :: g in indexer.factors && f in todo ==> !Overlap(g.fp, f.fp)
    }

    method RebuildNext(f: Factor, updateList: map<Factor, set<Term>>, ghost fps: map<Factor, Footprint>,
                       ghost rep: map<Term, Factor>, ghost gone: set<Term>, ghost todo: set<Factor>)
      returns (ghost seen: bool)
      requires Sorted(fps, rep) && Losing(updateList, rep, gone) && f in todo && todo <= updateList.Keys <= fps.Keys
      requires fps[f] == f.fp && Rebuilding(rep, gone, todo)
      modifies this, indexer
      ensures fresh(indexer.factors - old(indexer.factors)) && old(indexer.factors) <= indexer.factors
      ensures Rebuilding(rep, gone, todo - {f})
      ensures forall g :: g in indexer.factors && g !in old(indexer.factors) ==> Inside(g.fp, f.fp)
      ensures old(Independent()) && seen && old(Clear(todo)) ==> Independent()
      ensures Unmixed(rep.Keys) ==> seen
    {
      hide Losing, Sorted, Awaiting, Indexer.Sound, Exact, Overlap, Faithful, Indexer.Fps, Inside, Unmixed, WaitingIn;
      var keep := f.fp.exprs - updateList[f];
      WaitingStep(fps, rep, updateList, gone, todo, f, keep);
      SortedFaithful(fps, rep, f);
      seen := RebuildFactor(f.fp, keep, WaitingIn(rep, gone, todo));
      UnmixedSome(rep.Keys, keep);
    }

    method RebuildAll(updateList: map<Factor, set<Term>>, ghost fps: map<Factor, Footprint>,
                      ghost rep: map<Term, Factor>, ghost gone: set<Term>, ghost good: bool)
      returns (ghost sighted: bool)
      requires Sorted(fps, rep) && Losing(updateList, rep, gone) && updateList.Keys <= fps.Keys
      requires (forall f :: f in updateList ==> f.fp == fps[f]) && Rebuilding(rep, gone, updateList.Keys)
      requires good ==> Independent() && Clear(updateList.Keys)
      requires good ==> forall f, g :: f in updateList && g in updateList && f != g ==> !Overlap(f.fp, g.fp)
      modifies this, indexer
      ensures fresh(indexer.factors - old(indexer.factors))
      ensures Rebuilding(rep, gone, {})
      ensures good && sighted ==> Independent()
      ensures Unmixed(rep.Keys) ==> sighted
    {
      hide Losing, Sorted, Indexer.Sound, Exact, Overlap, Inside, Unmixed, Rebuilding;
      sighted := true;
      var todo := updateList.Keys;
      while todo != {}
        invariant todo <= updateList.Keys
        invariant fresh(indexer.factors - old(indexer.factors))
        invariant Rebuilding(rep, gone, todo)
        invariant good && sighted ==> Independent()
        invariant good ==> Clear(todo)
        invariant Unmixed(rep.Keys) ==> sighted
        decreases |todo|
      {
        var f :| f in todo;
        ghost var before := indexer.factors;
        ghost var seen := RebuildNext(f, updateList, fps, rep, gone, todo);
        if good {
          forall g, h | g in indexer.factors && h in todo - {f} ensures !Overlap(g.fp, h.fp) {
            if g !in before {
              OverlapSymmetric(h.fp, g.fp);
              InsideApart(h.fp, g.fp, f.fp);
            }
          }
        }
        sighted := sighted && seen;
        todo := todo - {f};
      }
    }

    /** `updateIndependentSetDelete`: constraints leave, and the factors they were
        in are rebuilt from what is left. */
    method Delete(ds: seq<Term>) returns (ok: bool, ghost sighted: bool)
      requires Factored()
      requires (forall k :: 0 <= k < |ds| ==> ds[k] in representative) && NoRepeats(ds)
      modifies this, indexer
      ensures fresh(indexer.factors - old(indexer.factors))
      ensures ok ==> Factored() && representative.Keys == old(representative.Keys) - Elements(ds)
      ensures old(Independent()) ==> ok
      ensures old(Independent()) && sighted ==> Independent()
      ensures Unmixed(old(representative.Keys)) ==> sighted
    {
      hide Elements, Losing, Sorted, Awaiting, Indexer.Sound, Exact, Overlap, Faithful, Indexer.Fps, Unmixed, WaitingIn;
      ghost var fps, rep := indexer.Fps(), representative;
      ghost var good := Independent();
      var updateList := Collect(ds);
      LosingFactors(fps, rep, updateList, Elements(ds));
      ok := EraseAll(updateList.Keys);
      sighted := true;
      if ok {
        AwaitErased(fps, rep, updateList, Elements(ds));
        if good {
          ErasedApart(fps, updateList.Keys, old(indexer.Ix()));
        }
        sighted := RebuildAll(updateList, fps, rep, Elements(ds), good);
        AllPlaced(indexer.Fps(), representative, rep, Elements(ds));
      }
    }

    lemma EraseAllowed(f: Factor)
      requires f in indexer.factors
      ensures Independent() ==> Erasable(indexer.Ix(), f.fp)
    {
      hide Exact, Erasable;
      if Independent() {
        ExactErasable(indexer.Ix(), indexer.Fps(), f);
      }
    }
  }

  /** Some expressions wait to be placed: their factor has been erased. */
  ghost predicate Awaiting<F>(fps: map<F, Footprint>, rep: map<Term, F>, pending: set<Term>) {
    && AllFaithful(fps) && Owned(fps, rep) && Placed(fps, rep, pending)
    && forall x :: x in pending ==> x in rep && rep[x] !in fps
  }

  lemma PlaceGroup<F>(fps: map<F, Footprint>, rep: map<Term, F>, pending: set<Term>, n: F, group: Footprint)
    requires Awaiting(fps, rep, pending) && n !in fps && (forall x :: x in rep ==> rep[x] != n)
    requires Faithful(group) && group.exprs <= pending
    ensures Awaiting(fps[n := group], Represent(rep, group.exprs, n), pending - group.exprs)
    ensures Represent(rep, group.exprs, n).Keys == rep.Keys
  {
    hide Faithful, Represent;
    ReplaceSorted(fps, rep, {}, pending, n, group);
    assert fps - {} == fps;
  }

  /** The expressions still waiting once some groups are in place. */
  ghost function Unplaced(pending: set<Term>, groups: seq<Footprint>): set<Term> {
    set x | x in pending && !InSome(groups, x)
  }

  lemma UnplacedNone(pending: set<Term>, groups: seq<Footprint>)
    ensures Unplaced(pending, groups[..0]) == pending && forall x :: !InSome(groups[..0], x)
  {
  }

  lemma UnplacedStep(pending: set<Term>, groups: seq<Footprint>, k: nat)
    requires k < |groups| && Partition(groups) && forall x :: InSome(groups, x) ==> x in pending
    ensures groups[k].exprs <= Unplaced(pending, groups[..k]) && Faithful(groups[k])
    ensures Unplaced(pending, groups[..k + 1]) == Unplaced(pending, groups[..k]) - groups[k].exprs
    ensures forall x :: InSome(groups[..k + 1], x) <==> InSome(groups[..k], x) || x in groups[k].exprs
  {
    hide Faithful;
    assert groups[..k + 1] == groups[..k] + [groups[k]];
    Snoc(groups[..k], groups[k]);
    forall x | x in groups[k].exprs ensures InSome(groups, x) && !InSome(groups[..k], x) {
    }
  }

  ghost predicate Inside(g: Footprint, f: Footprint) {
    forall arr, i :: g.Covers(arr, i) ==> f.Covers(arr, i)
  }

  lemma InsideApart(h: Footprint, g: Footprint, f: Footprint)
    requires Inside(g, f) && !Overlap(h, f)
    ensures !Overlap(h, g)
  {
  }

  /** Groups of some of a factor's expressions stay within its cells. */
  lemma GroupsInside(f: Footprint, keep: set<Term>, groups: seq<Footprint>)
    requires Faithful(f) && keep <= f.exprs && Partition(groups) && forall x :: InSome(groups, x) ==> x in keep
    ensures forall l :: 0 <= l < |groups| ==> Inside(groups[l], f)
  {
    hide FootprintOf;
    forall l | 0 <= l < |groups| ensures Inside(groups[l], f) {
      assert Faithful(groups[l]);
      forall arr, i | groups[l].Covers(arr, i) ensures f.Covers(arr, i) {
        var x :| x in groups[l].exprs && FootprintOf(x).Covers(arr, i);
        assert InSome(groups, x);
      }
    }
  }

  lemma UnplacedKeep(pending: set<Term>, keep: set<Term>, groups: seq<Footprint>)
    requires keep <= pending && forall x :: InSome(groups, x) <==> x in keep
    ensures Unplaced(pending, groups) == pending - keep
  {
  }

  /** No array is read as a whole by one of the expressions and by element by
      another. */
  ghost predicate Unmixed(xs: set<Term>) {
    forall x, y :: x in xs && y in xs ==> FootprintOf(x).whole !! FootprintOf(y).elements.Keys
  }

  /** One footprint for each expression. */
  ghost predicate OneEach(xs: set<Term>, temp: seq<Footprint>) {
    && Partition(temp)
    && AllConnected(temp)
    && (forall k :: 0 <= k < |temp| ==> exists x :: x in xs && temp[k] == FootprintOf(x))
    && forall x :: InSome(temp, x) <==> x in xs
  }

  method FootprintsOf(xs: set<Term>) returns (temp: seq<Footprint>)
    ensures OneEach(xs, temp)
  {
    hide OneEach, FootprintOf;
    temp := [];
    var todo := xs;
    ghost var done: set<Term> := {};
    OneEachNone();
    while todo != {}
      invariant todo <= xs && done == xs - todo && OneEach(done, temp)
      decreases |todo|
    {
      var x :| x in todo;
      todo := todo - {x};
      var f := Construct(x);
      OneEachMore(done, temp, x);
      temp := temp + [f];
      done := done + {x};
    }
    assert done == xs;
  }

  lemma OneEachNone()
    ensures OneEach({}, [])
  {
    NoGroups();
  }

  lemma OneEachMore(done: set<Term>, temp: seq<Footprint>, x: Term)
    requires OneEach(done, temp) && x !in done
    ensures OneEach(done + {x}, temp + [FootprintOf(x)])
  {
    hide FootprintOf, Faithful, Partition, InSome, Connected;
    FaithfulOne(x);
    ConnectedOne(x);
    Snoc(temp, FootprintOf(x));
    var now := temp + [FootprintOf(x)];
    forall k | 0 <= k < |now| ensures exists y :: y in done + {x} && now[k] == FootprintOf(y) {
      if k < |temp| {
        var y :| y in done && temp[k] == FootprintOf(y);
        assert y in done + {x};
      } else {
        assert x in done + {x};
      }
    }
  }

  lemma SightedIfUnmixed(xs: set<Term>, temp: seq<Footprint>)
    requires OneEach(xs, temp)
    ensures Unmixed(xs) ==> RegroupSighted(temp, [])
  {
    hide FootprintOf, Partition, InSome, RegroupSighted, Connected;
    if Unmixed(xs) {
      var w := set k, arr | 0 <= k < |temp| && arr in temp[k].whole :: arr;
      var e := set k, arr | 0 <= k < |temp| && arr in temp[k].elements :: arr;
      UnmixedSighted(temp, [], w, e);
    }
  }

  // ----- deleting constraints -----

  /** Each factor that loses constraints, with those it loses. */
  ghost predicate Losing<F>(updates: map<F, set<Term>>, rep: map<Term, F>, gone: set<Term>) {
    && gone <= rep.Keys
    && (forall d :: d in gone ==> rep[d] in updates && d in updates[rep[d]])
    && (forall f, d :: f in updates && d in updates[f] ==> d in gone && rep[d] == f)
    && (forall f :: f in updates ==> updates[f] != {})
  }

  lemma LosingNone<F>(rep: map<Term, F>, ds: seq<Term>)
    ensures Losing(map[], rep, Elements(ds[..0])) && rep - Elements(ds[..0]) == rep
  {
  }

  lemma LosingStep<F>(updates: map<F, set<Term>>, rep: map<Term, F>, gone: set<Term>, d: Term)
    requires Losing(updates, rep, gone) && d in rep
    ensures var f := rep[d];
            Losing(updates[f := (if f in updates then updates[f] else {}) + {d}], rep, gone + {d})
  {
  }

  lemma LosingFactors<F>(fps: map<F, Footprint>, rep: map<Term, F>, updates: map<F, set<Term>>, gone: set<Term>)
    requires Sorted(fps, rep) && Losing(updates, rep, gone)
    ensures updates.Keys <= fps.Keys
  {
    hide Faithful;
    forall f | f in updates ensures f in fps {
      var d :| d in updates[f];
      assert rep[d] == f;
    }
  }

  /** The surviving constraints of some erased factors. */
  ghost function WaitingIn<F>(rep: map<Term, F>, gone: set<Term>, todo: set<F>): set<Term> {
    set x | x in rep && x !in gone && rep[x] in todo
  }

  lemma AwaitErased<F>(fps: map<F, Footprint>, rep: map<Term, F>, updates: map<F, set<Term>>, gone: set<Term>)
    requires Sorted(fps, rep) && Losing(updates, rep, gone)
    ensures Awaiting(fps - updates.Keys, rep - gone, WaitingIn(rep, gone, updates.Keys))
  {
    hide Faithful;
  }

  lemma ErasedApart<F>(fps: map<F, Footprint>, gone: set<F>, ix: Index<F>)
    requires Exact(ix, fps) && gone <= fps.Keys
    ensures forall g, f :: g in fps - gone && f in gone ==> !Overlap(fps[g], fps[f])
    ensures forall f, g :: f in gone && g in gone && f != g ==> !Overlap(fps[f], fps[g])
  {
    hide Overlap, Live, Complete;
  }

  lemma WaitingStep<F>(fps: map<F, Footprint>, rep: map<Term, F>, updates: map<F, set<Term>>, gone: set<Term>,
                       todo: set<F>, f: F, keep: set<Term>)
    requires Sorted(fps, rep) && Losing(updates, rep, gone) && f in todo && todo <= updates.Keys <= fps.Keys
    requires keep == fps[f].exprs - updates[f]
    ensures keep <= WaitingIn(rep, gone, todo)
    ensures WaitingIn(rep, gone, todo) - keep == WaitingIn(rep, gone, todo - {f})
    ensures keep <= rep.Keys
  {
    hide AllFaithful, WaitingIn;
    forall x ensures x in keep <==> x in rep && x !in gone && rep[x] == f {
      if x in fps[f].exprs {
        assert rep[x] == f;
      }
    }
    WaitingWithout(rep, gone, todo, f, keep);
  }

  lemma WaitingWithout<F>(rep: map<Term, F>, gone: set<Term>, todo: set<F>, f: F, keep: set<Term>)
    requires f in todo && forall x :: x in keep <==> x in rep && x !in gone && rep[x] == f
    ensures keep <= WaitingIn(rep, gone, todo)
    ensures WaitingIn(rep, gone, todo) - keep == WaitingIn(rep, gone, todo - {f})
  {
  }

  lemma AllPlaced<F>(fps: map<F, Footprint>, rep: map<Term, F>, was: map<Term, F>, gone: set<Term>)
    requires Awaiting(fps, rep, WaitingIn(was, gone, {}))
    ensures Sorted(fps, rep)
  {
    hide Faithful;
    assert WaitingIn(was, gone, {}) == {};
  }

  lemma SortedFaithful<F>(fps: map<F, Footprint>, rep: map<Term, F>, f: F)
    requires Sorted(fps, rep) && f in fps
    ensures Faithful(fps[f])
  {
  }

  lemma UnmixedSome(xs: set<Term>, some: set<Term>)
    requires some <= xs
    ensures Unmixed(xs) ==> Unmixed(some)
  {
    hide FootprintOf;
  }

  lemma OnlyOne<T>(s: set<T>, x: T)
    requires |s| == 1 && x in s
    ensures s == {x}
  {
    assert |s - {x}| == 0;
  }

  /** Merging keeps each expression in one factor. */
  lemma MergeSorted<F>(fps: map<F, Footprint>, rep: map<Term, F>, hits: set<F>, n: F, e: Term, big: Footprint)
    requires Sorted(fps, rep) && hits <= fps.Keys && n !in fps && e !in rep && Joined(big, FootprintOf(e), fps, hits)
    ensures Sorted((fps - hits)[n := big], Represent(rep, big.exprs, n))
    ensures Represent(rep, big.exprs, n).Keys == rep.Keys + {e}
  {
    hide Faithful, Represent;
    forall f, x | f in fps && x in fps[f].exprs ensures x in big.exprs <==> f in hits {
      assert x in rep && rep[x] == f;
      if g :| g in hits && x in fps[g].exprs {
        assert rep[x] == g;
      }
    }
    ReplaceSorted(fps, rep, hits, {}, n, big);
    assert {} - big.exprs == {};
  }

  /** The factors left over share no cell with the merged one. */
  lemma MergedApart<F>(fps: map<F, Footprint>, hits: set<F>, fp: Footprint, big: Footprint, was: Index<F>)
    requires Exact(was, fps) && hits <= fps.Keys && Joined(big, fp, fps, hits)
    requires forall f :: f in fps && Overlap(fps[f], fp) ==> f in hits
    ensures forall g :: g in fps - hits ==> !Overlap((fps - hits)[g], big)
  {
    hide Joined, Overlap, Live, Complete;
    forall g | g in fps - hits ensures !Overlap(fps[g], big) {
      JoinedApart(big, fp, fps, hits, fps[g]);
    }
  }

  lemma JoinNone<F>(base: Footprint, fps: map<F, Footprint>)
    requires Faithful(base)
    ensures Joined(base, base, fps, {})
  {
    hide Faithful;
  }

  lemma JoinedNormal<F>(big: Footprint, base: Footprint, fps: map<F, Footprint>, done: set<F>)
    requires done <= fps.Keys && Joined(big, base, fps, done)
    ensures big.Normal()
  {
  }
}
