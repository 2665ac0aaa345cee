/** Rebuilding the factors of the constraints that survive a deletion
    (`updateIndependentSetDelete`): footprints are merged with those they
    intersect. */
module Regrouping {
  import opened Exprs
  import opened Footprints
  import opened FactorIndex

  /** One footprint against the groups from position `i` on: it absorbs every
      group it intersects, the last group taking the place of the absorbed one. */
  function Absorb(current: Footprint, result: seq<Footprint>, i: nat): (r: (Footprint, seq<Footprint>))
    requires i <= |result|
    decreases |result| - i
  {
    if i == |result| then (current, result)
    else if Intersects(current, result[i]) then Absorb(current.Join(result[i]), SwapOut(result, i), i)
    else Absorb(current, result, i + 1)
  }

  function SwapOut(s: seq<Footprint>, i: nat): (t: seq<Footprint>)
    requires i < |s|
    ensures |t| == |s| - 1
  {
    s[i := s[|s| - 1]][..|s| - 1]
  }

  /** The groups of `temp`, taken from the back, added to `result`. */
  function Regroup(temp: seq<Footprint>, result: seq<Footprint>): (r: seq<Footprint>)
    decreases |temp|
  {
    if temp == [] then result
    else
      var (c, rest) := Absorb(temp[|temp| - 1], result, 0);
      Regroup(temp[..|temp| - 1], rest + [c])
  }

  method AbsorbLoop(first: Footprint, groups: seq<Footprint>) returns (current: Footprint, result: seq<Footprint>)
    ensures (current, result) == Absorb(first, groups, 0)
  {
    hide Intersects;
    current, result := first, groups;
    var i := 0;
    while i < |result|
      invariant i <= |result| && Absorb(current, result, i) == Absorb(first, groups, 0)
      decreases |result| - i
    {
      if Intersects(current, result[i]) {
        current := current.Join(result[i]);
        result := result[i := result[|result| - 1]];
        result := result[..|result| - 1];
      } else {
        i := i + 1;
      }
    }
  }

  method RegroupLoop(temp: seq<Footprint>) returns (result: seq<Footprint>)
    ensures result == Regroup(temp, [])
  {
    hide Absorb;
    result := [];
    var left := temp;
    while left != []
      invariant Regroup(left, result) == Regroup(temp, [])
      decreases |left|
    {
      var current := left[|left| - 1];
      left := left[..|left| - 1];
      current, result := AbsorbLoop(current, result);
      result := result + [current];
    }
  }

  // ----- what regrouping keeps -----

  /** Some group holds an expression. */
  ghost predicate InSome(s: seq<Footprint>, x: Term) {
    exists k :: 0 <= k < |s| && x in s[k].exprs
  }

  /** Groups cover what their expressions read, and share no expression. */
  ghost predicate Partition(s: seq<Footprint>) {
    && (forall k :: 0 <= k < |s| ==> Faithful(s[k]))
    && (forall k, l :: 0 <= k < l < |s| ==> s[k].exprs !! s[l].exprs)
  }

  /** Groups share no cell. */
  ghost predicate Separate(s: seq<Footprint>) {
    forall k, l :: 0 <= k < l < |s| ==> !Overlap(s[k], s[l])
  }

  /** A footprint covers what its expressions read. */
  ghost predicate Faithful(f: Footprint) {
    && f.Normal()
    && forall arr, j :: f.Covers(arr, j) <==> exists x :: x in f.exprs && FootprintOf(x).Covers(arr, j)
  }

  lemma FaithfulOne(e: Term)
    ensures Faithful(FootprintOf(e))
  {
    hide Reads, WF;
    var f := FootprintOf(e);
    forall arr, j ensures f.Covers(arr, j) <==> exists x :: x in f.exprs && FootprintOf(x).Covers(arr, j) {
      assert e in f.exprs;
    }
  }

  lemma FaithfulJoin(f: Footprint, g: Footprint)
    requires Faithful(f) && Faithful(g)
    ensures Faithful(f.Join(g))
  {
    hide FootprintOf;
    var r := f.Join(g);
    forall arr, j ensures r.Covers(arr, j) <==> exists x :: x in r.exprs && FootprintOf(x).Covers(arr, j) {
      if x :| x in r.exprs && FootprintOf(x).Covers(arr, j) {
        assert x in f.exprs || x in g.exprs;
      }
      if f.Covers(arr, j) {
        var x :| x in f.exprs && FootprintOf(x).Covers(arr, j);
        assert x in r.exprs;
      }
      if g.Covers(arr, j) {
        var x :| x in g.exprs && FootprintOf(x).Covers(arr, j);
        assert x in r.exprs;
      }
    }
  }

  /** Absorbing one group: the groups left over, the grown footprint last. */
  lemma SwapPartition(current: Footprint, result: seq<Footprint>, i: nat)
    requires i < |result| && Partition(result + [current])
    ensures Partition(SwapOut(result, i) + [current.Join(result[i])])
    ensures forall x :: InSome(SwapOut(result, i) + [current.Join(result[i])], x) <==> InSome(result + [current], x)
  {
    hide Faithful, Footprint.Covers;
    var n, before, after := |result|, result + [current], SwapOut(result, i) + [current.Join(result[i])];
    assert before[i] == result[i] && before[n] == current;
    FaithfulJoin(current, result[i]);
    assert forall k :: 0 <= k < n - 1 ==> after[k] == before[if k == i then n - 1 else k];
    forall x ensures InSome(after, x) <==> InSome(before, x) {
      if k :| 0 <= k < |before| && x in before[k].exprs {
        var l := if k == n || k == i then n - 1 else if k == n - 1 then i else k;
        assert x in after[l].exprs;
      }
      if k :| 0 <= k < |after| && x in after[k].exprs {
        if k == n - 1 {
          assert x in before[n].exprs || x in before[i].exprs;
        } else {
          assert x in before[if k == i then n - 1 else k].exprs;
        }
      }
    }
  }

  /** Absorbing loses and duplicates no expression. */
  lemma {:induction false} AbsorbPartition(current: Footprint, result: seq<Footprint>, i: nat)
    requires i <= |result| && Partition(result + [current])
    ensures var (c, rest) := Absorb(current, result, i);
            && Partition(rest + [c])
            && forall x :: InSome(rest + [c], x) <==> InSome(result + [current], x)
    decreases |result| - i
  {
    hide Partition, InSome, Intersects;
    if i < |result| {
      if Intersects(current, result[i]) {
        SwapPartition(current, result, i);
        AbsorbPartition(current.Join(result[i]), SwapOut(result, i), i);
      } else {
        AbsorbPartition(current, result, i + 1);
      }
    }
  }

  lemma Snoc(s: seq<Footprint>, f: Footprint)
    ensures forall x :: InSome(s + [f], x) <==> InSome(s, x) || x in f.exprs
    ensures Partition(s + [f]) <==> Partition(s) && Faithful(f) && forall x :: x in f.exprs ==> !InSome(s, x)
    ensures Separate(s + [f]) <==> Separate(s) && forall k :: 0 <= k < |s| ==> !Overlap(s[k], f)
  {
    hide Faithful, Overlap;
    var t := s + [f];
    assert t[|s|] == f && forall k :: 0 <= k < |s| ==> t[k] == s[k];
    forall x ensures InSome(t, x) <==> InSome(s, x) || x in f.exprs {
      if k :| 0 <= k < |s| && x in s[k].exprs {
        assert x in t[k].exprs;
      }
      if x in f.exprs {
        assert x in t[|s|].exprs;
      }
    }
  }

  /** Regrouping partitions the same expressions. */
  lemma {:induction false} RegroupPartition(temp: seq<Footprint>, result: seq<Footprint>)
    requires Partition(temp) && Partition(result) && forall x :: !(InSome(temp, x) && InSome(result, x))
    ensures Partition(Regroup(temp, result))
    ensures forall x :: InSome(Regroup(temp, result), x) <==> InSome(temp, x) || InSome(result, x)
    decreases |temp|
  {
    hide Partition, InSome, Intersects;
    if temp == [] {
      NoGroups();
    } else {
      var current, left := temp[|temp| - 1], temp[..|temp| - 1];
      assert temp == left + [current];
      Snoc(left, current);
      Snoc(result, current);
      AbsorbPartition(current, result, 0);
      var (c, rest) := Absorb(current, result, 0);
      RegroupPartition(left, rest + [c]);
    }
  }

  lemma NoGroups()
    ensures Partition([]) && Separate([]) && forall x :: !InSome([], x)
  {
  }

  // ----- why the expressions of a group belong together -----

  /** An expression of `a` shares a cell with one of `b`. */
  ghost predicate Linked(a: set<Term>, b: set<Term>) {
    exists x, y :: x in a && y in b && Overlap(FootprintOf(x), FootprintOf(y))
  }

  /** The expressions of a footprint cannot be told apart: however they are divided,
      some cell is shared. */
  ghost predicate Connected(f: Footprint) {
    forall part: set<Term> :: part != {} && part < f.exprs ==> Linked(part, f.exprs - part)
  }

  ghost predicate AllConnected(s: seq<Footprint>) {
    forall k :: 0 <= k < |s| ==> Connected(s[k])
  }

  lemma ConnectedOne(e: Term)
    ensures Connected(FootprintOf(e))
  {
    hide Linked;
    assert FootprintOf(e).exprs == {e};
  }

  /** Two connected footprints that share a cell make a connected one. */
  lemma ConnectedJoin(f: Footprint, g: Footprint)
    requires Faithful(f) && Faithful(g) && Connected(f) && Connected(g) && Overlap(f, g)
    ensures Connected(f.Join(g))
  {
    hide Faithful, Overlap, Connected, Linked;
    var all := f.Join(g).exprs;
    assert all == f.exprs + g.exprs;
    forall part: set<Term> | part != {} && part < all ensures Linked(part, all - part) {
      if part * f.exprs != {} && part * f.exprs < f.exprs {
        PartLinked(f, part, all);
      } else if part * g.exprs != {} && part * g.exprs < g.exprs {
        PartLinked(g, part, all);
      } else {
        AcrossLinked(f, g, part, all);
      }
    }
    MakeConnected(f.Join(g));
  }

  lemma MakeConnected(f: Footprint)
    requires forall part: set<Term> :: part != {} && part < f.exprs ==> Linked(part, f.exprs - part)
    ensures Connected(f)
  {
  }

  lemma PartLinked(f: Footprint, part: set<Term>, all: set<Term>)
    requires Connected(f) && f.exprs <= all && part * f.exprs != {} && part * f.exprs < f.exprs
    ensures Linked(part, all - part)
  {
    hide Overlap, FootprintOf;
    var own := part * f.exprs;
    assert Linked(own, f.exprs - own);
    var x, y :| x in own && y in f.exprs - own && Overlap(FootprintOf(x), FootprintOf(y));
    assert x in part && y in all - part;
  }

  lemma AcrossLinked(f: Footprint, g: Footprint, part: set<Term>, all: set<Term>)
    requires Faithful(f) && Faithful(g) && Overlap(f, g) && all == f.exprs + g.exprs && part != {} && part < all
    requires part * f.exprs == {} || part * f.exprs == f.exprs
    requires part * g.exprs == {} || part * g.exprs == g.exprs
    ensures Linked(part, all - part)
  {
    hide FootprintOf;
    var arr, i :| f.Covers(arr, i) && g.Covers(arr, i);
    var x :| x in f.exprs && FootprintOf(x).Covers(arr, i);
    var y :| y in g.exprs && FootprintOf(y).Covers(arr, i);
    assert Overlap(FootprintOf(x), FootprintOf(y)) && Overlap(FootprintOf(y), FootprintOf(x));
    assert x in part <==> y !in part by {
      Divided(f.exprs, g.exprs, part, x, y);
    }
    if x in part {
      assert y in all - part;
    } else {
      assert x in all - part;
    }
  }

  lemma Divided(a: set<Term>, b: set<Term>, part: set<Term>, x: Term, y: Term)
    requires x in a && y in b && part != {} && part < a + b
    requires (part * a == {} || part * a == a) && (part * b == {} || part * b == b)
    ensures x in part <==> y !in part
  {
    assert x in part <==> x in part * a;
    assert y in part <==> y in part * b;
    assert part == part * a + part * b;
  }

  lemma {:induction false} AbsorbConnected(current: Footprint, result: seq<Footprint>, i: nat)
    requires i <= |result| && Partition(result + [current]) && AllConnected(result) && Connected(current)
    ensures var (c, rest) := Absorb(current, result, i); AllConnected(rest + [c])
    decreases |result| - i
  {
    hide Intersects, Faithful, Connected, Overlap;
    if i < |result| {
      if Intersects(current, result[i]) {
        var all := result + [current];
        assert all[i] == result[i] && all[|result|] == current;
        FaithfulNormal(current);
        FaithfulNormal(result[i]);
        IntersectsExact(current, result[i]);
        ConnectedJoin(current, result[i]);
        SwapPartition(current, result, i);
        AbsorbConnected(current.Join(result[i]), SwapOut(result, i), i);
      } else {
        AbsorbConnected(current, result, i + 1);
      }
    }
  }

  /** Regrouping joins nothing that need not be joined. */
  lemma {:induction false} RegroupConnected(temp: seq<Footprint>, result: seq<Footprint>)
    requires Partition(temp) && Partition(result) && forall x :: !(InSome(temp, x) && InSome(result, x))
    requires AllConnected(temp) && AllConnected(result)
    ensures AllConnected(Regroup(temp, result))
    decreases |temp|
  {
    hide Partition, InSome, Intersects, Connected;
    if temp != [] {
      var current, left := temp[|temp| - 1], temp[..|temp| - 1];
      assert temp == left + [current];
      Snoc(left, current);
      Snoc(result, current);
      AbsorbPartition(current, result, 0);
      AbsorbConnected(current, result, 0);
      var (c, rest) := Absorb(current, result, 0);
      RegroupConnected(left, rest + [c]);
    }
  }

  // ----- when the groups share no cell -----

  /** Every comparison the absorbing loop makes is one `intersects` sees. */
  ghost predicate AbsorbSighted(current: Footprint, result: seq<Footprint>, i: nat)
    requires i <= |result|
    decreases |result| - i
  {
    i < |result| ==>
      && !Blind(current, result[i])
      && if Intersects(current, result[i]) then AbsorbSighted(current.Join(result[i]), SwapOut(result, i), i)
         else AbsorbSighted(current, result, i + 1)
  }

  ghost predicate RegroupSighted(temp: seq<Footprint>, result: seq<Footprint>)
    decreases |temp|
  {
    temp != [] ==>
      var (c, rest) := Absorb(temp[|temp| - 1], result, 0);
      AbsorbSighted(temp[|temp| - 1], result, 0) && RegroupSighted(temp[..|temp| - 1], rest + [c])
  }

  lemma JoinApart(f: Footprint, g: Footprint, h: Footprint)
    requires !Overlap(f, g) && !Overlap(f, h)
    ensures !Overlap(f, g.Join(h))
  {
  }

  /** Groups already compared need no second look after the footprint has grown,
      because the groups share no cell among themselves. */
  lemma {:induction false} AbsorbSeparate(current: Footprint, result: seq<Footprint>, i: nat)
    requires i <= |result| && Partition(result + [current]) && Separate(result)
    requires forall k :: 0 <= k < i ==> !Overlap(result[k], current)
    requires AbsorbSighted(current, result, i)
    ensures var (c, rest) := Absorb(current, result, i); Separate(rest + [c])
    decreases |result| - i
  {
    hide Intersects, Overlap, Faithful, Blind;
    Snoc(result, current);
    if i == |result| {
    } else {
      assert Faithful(result[i]);
      FaithfulNormal(result[i]);
      FaithfulNormal(current);
      IntersectsExact(current, result[i]);
      OverlapSymmetric(current, result[i]);
      if Intersects(current, result[i]) {
        SwapPartition(current, result, i);
        forall k | 0 <= k < i ensures !Overlap(SwapOut(result, i)[k], current.Join(result[i])) {
          JoinApart(result[k], current, result[i]);
        }
        SwapSeparate(result, i);
        AbsorbSeparate(current.Join(result[i]), SwapOut(result, i), i);
      } else {
        AbsorbSeparate(current, result, i + 1);
      }
    }
  }

  lemma FaithfulNormal(f: Footprint)
    requires Faithful(f)
    ensures f.Normal()
  {
  }

  lemma SwapSeparate(result: seq<Footprint>, i: nat)
    requires i < |result| && Separate(result)
    ensures Separate(SwapOut(result, i))
  {
    hide Overlap;
    var n, t := |result|, SwapOut(result, i);
    forall k, l | 0 <= k < l < |t| ensures !Overlap(t[k], t[l]) {
      var p, q := if k == i then n - 1 else k, if l == i then n - 1 else l;
      assert t[k] == result[p] && t[l] == result[q];
      OverlapSymmetric(result[p], result[q]);
    }
  }

  /** Regrouping yields groups that share no cell. */
  lemma {:induction false} RegroupSeparate(temp: seq<Footprint>, result: seq<Footprint>)
    requires Partition(temp) && Partition(result) && forall x :: !(InSome(temp, x) && InSome(result, x))
    requires Separate(result) && RegroupSighted(temp, result)
    ensures Separate(Regroup(temp, result))
    decreases |temp|
  {
    hide Partition, InSome, Intersects, Separate, AbsorbSighted;
    if temp != [] {
      var current, left := temp[|temp| - 1], temp[..|temp| - 1];
      assert temp == left + [current];
      Snoc(left, current);
      Snoc(result, current);
      AbsorbPartition(current, result, 0);
      AbsorbSeparate(current, result, 0);
      var (c, rest) := Absorb(current, result, 0);
      RegroupSeparate(left, rest + [c]);
    }
  }

  /** Whole arrays among `w` only, single elements of arrays in `e` only. */
  ghost predicate Within(s: seq<Footprint>, w: set<Array>, e: set<Array>) {
    forall k :: 0 <= k < |s| ==> s[k].whole <= w && s[k].elements.Keys <= e
  }

  lemma {:induction false} UnmixedAbsorb(current: Footprint, result: seq<Footprint>, i: nat, w: set<Array>, e: set<Array>)
    requires i <= |result| && w !! e && Within(result, w, e) && current.whole <= w && current.elements.Keys <= e
    ensures AbsorbSighted(current, result, i)
    ensures var (c, rest) := Absorb(current, result, i);
            Within(rest, w, e) && c.whole <= w && c.elements.Keys <= e
    decreases |result| - i
  {
    hide Intersects, Blind, SwapOut, Footprint.Join;
    if i < |result| {
      NotBlind(current, result[i], w, e);
      WithinSwap(result, i, w, e);
      JoinWithin(current, result[i], w, e);
      if Intersects(current, result[i]) {
        UnmixedAbsorb(current.Join(result[i]), SwapOut(result, i), i, w, e);
      } else {
        UnmixedAbsorb(current, result, i + 1, w, e);
      }
    }
  }

  lemma WithinSwap(s: seq<Footprint>, i: nat, w: set<Array>, e: set<Array>)
    requires i < |s| && Within(s, w, e)
    ensures Within(SwapOut(s, i), w, e)
  {
  }

  lemma JoinWithin(f: Footprint, g: Footprint, w: set<Array>, e: set<Array>)
    requires f.whole <= w && g.whole <= w && f.elements.Keys <= e && g.elements.Keys <= e
    ensures f.Join(g).whole <= w && f.Join(g).elements.Keys <= e
  {
  }

  lemma NotBlind(f: Footprint, g: Footprint, w: set<Array>, e: set<Array>)
    requires w !! e && f.whole <= w && g.whole <= w && f.elements.Keys <= e && g.elements.Keys <= e
    ensures !Blind(f, g)
  {
  }

  /** Footprints that use no array both ways are regrouped without blind spots. */
  lemma {:induction false} UnmixedSighted(temp: seq<Footprint>, result: seq<Footprint>, w: set<Array>, e: set<Array>)
    requires w !! e && Within(temp, w, e) && Within(result, w, e)
    ensures RegroupSighted(temp, result)
    decreases |temp|
  {
    hide AbsorbSighted, Absorb;
    if temp != [] {
      var current, left := temp[|temp| - 1], temp[..|temp| - 1];
      UnmixedAbsorb(current, result, 0, w, e);
      var (c, rest) := Absorb(current, result, 0);
      UnmixedSighted(left, rest + [c], w, e);
    }
  }

  lemma RegroupPair(f: Footprint, g: Footprint)
    requires !Intersects(g, f)
    ensures Regroup([g, f], []) == [f, g]
  {
    hide Intersects;
    assert [g, f][..1] == [g] && [g][..0] == [];
    assert Absorb(f, [], 0) == (f, []) && [] + [f] == [f];
    assert Absorb(g, [f], 0) == Absorb(g, [f], 1) == (g, [f]);
    assert Regroup([g], [f]) == Regroup([], [f] + [g]) == [f] + [g];
  }

  lemma RegroupJoined(f: Footprint, g: Footprint)
    requires Intersects(g, f)
    ensures Regroup([g, f], []) == [g.Join(f)]
  {
    hide Intersects;
    assert [g, f][..1] == [g] && [g][..0] == [];
    assert Absorb(f, [], 0) == (f, []) && [] + [f] == [f];
    assert SwapOut([f], 0) == [];
    assert Absorb(g, [f], 0) == Absorb(g.Join(f), [], 0) == (g.Join(f), []);
    assert Regroup([g], [f]) == Regroup([], [g.Join(f)]) == [g.Join(f)];
  }

  /** Two footprints are regrouped apart exactly when they are not a pair that
      `intersects` is blind to. */
  lemma RegroupPairExact(f: Footprint, g: Footprint)
    requires f.Normal() && g.Normal()
    ensures Separate(Regroup([g, f], [])) <==> !Blind(g, f)
  {
    hide Intersects, Overlap, Blind;
    IntersectsExact(g, f);
    OverlapSymmetric(f, g);
    if Intersects(g, f) {
      RegroupJoined(f, g);
    } else {
      RegroupPair(f, g);
      var groups := Regroup([g, f], []);
      assert groups[0] == f && groups[1] == g;
    }
  }

  /** Otherwise two constraints that share a cell may end in different groups. */
  lemma RegroupMisses()
    ensures !Separate(Regroup([FootprintOf(WholeArray()), FootprintOf(OneElement())], []))
  {
    hide FootprintOf, Intersects, Overlap;
    MissedPair();
    var f, g := FootprintOf(OneElement()), FootprintOf(WholeArray());
    RegroupPair(f, g);
    var groups := Regroup([g, f], []);
    assert groups[0] == f && groups[1] == g;
  }

  // ----- when the groups can be erased again -----

  /** No array is a whole in both, and no cell a single element of both. */
  ghost predicate KindApart(f: Footprint, g: Footprint) {
    f.whole !! g.whole && forall arr :: arr in f.elements && arr in g.elements ==> f.elements[arr] !! g.elements[arr]
  }

  ghost predicate KindsApart(s: seq<Footprint>) {
    forall k, l :: 0 <= k < l < |s| ==> KindApart(s[k], s[l])
  }

  /** Cells recorded the same way never escape `intersects`. */
  lemma NotIntersecting(f: Footprint, g: Footprint)
    requires !Intersects(f, g)
    ensures KindApart(f, g) && KindApart(g, f)
  {
    var (fewer, more) := if FewerWhole(f, g) then (f, g) else (g, f);
    assert !WholeMeets(fewer, more);
    var (small, large) := if FewerElements(f, g) then (f, g) else (g, f);
    assert !ElementsMeet(small, large);
    forall arr | arr in f.elements && arr in g.elements ensures f.elements[arr] !! g.elements[arr] {
      assert forall j :: j in f.elements[arr] && j in g.elements[arr] ==> j in small.elements[arr] * large.elements[arr];
    }
  }

  lemma JoinKindApart(f: Footprint, g: Footprint, h: Footprint)
    requires KindApart(f, g) && KindApart(f, h)
    ensures KindApart(f, g.Join(h))
  {
  }

  lemma {:induction false} AbsorbKinds(current: Footprint, result: seq<Footprint>, i: nat)
    requires i <= |result| && KindsApart(result) && forall k :: 0 <= k < i ==> KindApart(result[k], current)
    ensures var (c, rest) := Absorb(current, result, i); KindsApart(rest + [c])
    decreases |result| - i
  {
    hide Intersects, KindApart;
    if i < |result| {
      if Intersects(current, result[i]) {
        forall k | 0 <= k < i ensures KindApart(SwapOut(result, i)[k], current.Join(result[i])) {
          JoinKindApart(result[k], current, result[i]);
        }
        SwapKinds(result, i);
        AbsorbKinds(current.Join(result[i]), SwapOut(result, i), i);
      } else {
        NotIntersecting(current, result[i]);
        AbsorbKinds(current, result, i + 1);
      }
    }
  }

  lemma KindSymmetric(f: Footprint, g: Footprint)
    ensures KindApart(f, g) <==> KindApart(g, f)
  {
  }

  lemma SwapKinds(result: seq<Footprint>, i: nat)
    requires i < |result| && KindsApart(result)
    ensures KindsApart(SwapOut(result, i))
  {
    hide KindApart;
    var n, t := |result|, SwapOut(result, i);
    forall k, l | 0 <= k < l < |t| ensures KindApart(t[k], t[l]) {
      var p, q := if k == i then n - 1 else k, if l == i then n - 1 else l;
      assert t[k] == result[p] && t[l] == result[q];
      KindSymmetric(result[p], result[q]);
    }
  }

  /** Groups that share a cell after all record it in different ways. */
  lemma {:induction false} RegroupKinds(temp: seq<Footprint>, result: seq<Footprint>)
    requires KindsApart(result)
    ensures KindsApart(Regroup(temp, result))
    decreases |temp|
  {
    hide Absorb, KindsApart;
    if temp != [] {
      AbsorbKinds(temp[|temp| - 1], result, 0);
      var (c, rest) := Absorb(temp[|temp| - 1], result, 0);
      RegroupKinds(temp[..|temp| - 1], rest + [c]);
    }
  }

  lemma OverlapMixed(f: Footprint, g: Footprint)
    requires f.Normal() && g.Normal()
    ensures f.whole !! g.elements.Keys && g.whole !! f.elements.Keys && KindApart(f, g) ==> !Overlap(f, g)
    ensures !Overlap(f, g) ==> f.whole !! g.elements.Keys && g.whole !! f.elements.Keys
  {
    OverlapParts(f, g);
    OverlapParts(g, f);
    OverlapSymmetric(f, g);
  }

  /** Regrouping any constraints and inserting the groups into an index that has no
      array of theirs as a whole: the assertions of `erase` hold for every group
      exactly if no two groups share a cell. So the first deletion after an overlap
      was missed can stop the engine. */
  lemma RegroupErasable<F>(temp: seq<Footprint>, ixs: seq<Index<F>>, ps: seq<F>)
    requires Partition(temp) && Inserted(ixs, Regroup(temp, []), ps)
    requires ixs[0].whole.Keys !! ByElement(Regroup(temp, []))
    ensures var groups := Regroup(temp, []);
            (forall k :: 0 <= k < |groups| ==> Erasable(ixs[|groups|], groups[k])) <==> Separate(groups)
  {
    hide Erasable, Inserted, Overlap, Regroup, Faithful, KindApart;
    var groups := Regroup(temp, []);
    NoGroups();
    RegroupPartition(temp, []);
    RegroupKinds(temp, []);
    AllErasable(ixs, groups, ps);
    forall k | 0 <= k < |groups| ensures groups[k].Normal() {
      FaithfulNormal(groups[k]);
    }
    forall k, l | 0 <= k < l < |groups|
      ensures !Overlap(groups[k], groups[l]) <==>
              groups[k].whole !! groups[l].elements.Keys && groups[l].whole !! groups[k].elements.Keys
    {
      OverlapMixed(groups[k], groups[l]);
    }
  }

  /** The missed pair: whatever the index held, once the two groups are in it the
      one that reads single elements cannot be erased. */
  lemma MissedErase<F>(ixs: seq<Index<F>>, ps: seq<F>)
    requires Inserted(ixs, Regroup([FootprintOf(WholeArray()), FootprintOf(OneElement())], []), ps)
    ensures |ixs| == 3 && !Erasable(ixs[2], FootprintOf(OneElement()))
  {
    hide FootprintOf, Intersects, Overlap, Erasable, Inserted;
    MissedPair();
    var f, g := FootprintOf(OneElement()), FootprintOf(WholeArray());
    RegroupPair(f, g);
    InsertedLength(ixs, [f, g], ps);
    ErasableInserted(ixs, [f, g], ps, 0);
    assert [f, g][1] == g && Bytes("a") in Wholes([f, g]);
  }
}
