/** Least distance to a return (lib/Core/StatsTracker.cpp,
    `computeReachableUncovered`, first phase): a fixpoint over arbitrary cyclic
    control-flow and call graphs. */
module Distances {
  datatype Kind = Return | Call(targets: seq<nat>) | Plain

  datatype Instruction = Instruction(kind: Kind, succs: seq<nat>, function_: nat)

  datatype Function = Declared(returning: bool) | Defined(entry: nat)

  datatype Graph = Graph(insts: seq<Instruction>, funcs: seq<Function>) {
    ghost predicate Valid() {
      && (forall i :: 0 <= i < |insts| ==> ValidInstruction(insts[i]))
      && (forall f :: 0 <= f < |funcs| && funcs[f].Defined? ==>
            funcs[f].entry < |insts| && insts[funcs[f].entry].function_ == f)
    }

    ghost predicate ValidInstruction(i: Instruction) {
      && i.function_ < |funcs| && (i.kind.Return? ==> i.succs == [])
      && (forall s :: s in i.succs ==> s < |insts|)
      && (i.kind.Call? ==> forall t :: t in i.kind.targets ==> t < |funcs|)
    }
  }

  // ----- the cost of reaching a return -----

  /** A return can be reached from instruction `i` at cost `c`, by a derivation of
      depth at most `k`: a return costs one, any other instruction one more than
      what follows, a call one more than a complete run of a callee besides. */
  ghost predicate Reaches(g: Graph, i: nat, c: nat, k: nat)
    requires g.Valid() && i < |g.insts|
    decreases k, 1
  {
    k > 0 && ((g.insts[i].kind.Return? && c == 1) || Steps(g, i, c, k - 1))
  }

  ghost predicate Steps(g: Graph, i: nat, c: nat, k: nat)
    requires g.Valid() && i < |g.insts|
    decreases k, 4
  {
    exists s: nat, b: nat, d: nat ::
      s in g.insts[i].succs && s < |g.insts| && Passes(g, i, b, k) && Reaches(g, s, d, k) && c == b + d
  }

  /** Instruction `i` itself can be passed at cost `b`. */
  ghost predicate Passes(g: Graph, i: nat, b: nat, k: nat)
    requires g.Valid() && i < |g.insts|
    decreases k, 3
  {
    if g.insts[i].kind.Call? then
      exists t: nat, d: nat :: t in g.insts[i].kind.targets && t < |g.funcs| && Returns(g, t, d, k) && b == 1 + d
    else b == 1
  }

  /** Function `f` can run from entry to return at cost `d`. */
  ghost predicate Returns(g: Graph, f: nat, d: nat, k: nat)
    requires g.Valid() && f < |g.funcs|
    decreases k, 2
  {
    if g.funcs[f].Declared? then g.funcs[f].returning && d == 1 else Reaches(g, g.funcs[f].entry, d, k)
  }

  lemma {:induction false} ReachesMore(g: Graph, i: nat, c: nat, k: nat, m: nat)
    requires g.Valid() && i < |g.insts| && k <= m && Reaches(g, i, c, k)
    ensures Reaches(g, i, c, m)
    decreases k, 1
  {
    if !(g.insts[i].kind.Return? && c == 1) {
      var s: nat, b: nat, d: nat :|
        s in g.insts[i].succs && s < |g.insts| && Passes(g, i, b, k - 1) && Reaches(g, s, d, k - 1) && c == b + d;
      PassesMore(g, i, b, k - 1, m - 1);
      ReachesMore(g, s, d, k - 1, m - 1);
    }
  }

  lemma {:induction false} PassesMore(g: Graph, i: nat, b: nat, k: nat, m: nat)
    requires g.Valid() && i < |g.insts| && k <= m && Passes(g, i, b, k)
    ensures Passes(g, i, b, m)
    decreases k, 3
  {
    if g.insts[i].kind.Call? {
      var t: nat, d: nat :| t in g.insts[i].kind.targets && t < |g.funcs| && Returns(g, t, d, k) && b == 1 + d;
      if g.funcs[t].Defined? {
        ReachesMore(g, g.funcs[t].entry, d, k, m);
      }
      assert Returns(g, t, d, m);
    }
  }

  ghost predicate CanReach(g: Graph, i: nat, c: nat)
    requires g.Valid() && i < |g.insts|
  {
    exists k: nat :: Reaches(g, i, c, k)
  }

  ghost predicate CanReturn(g: Graph, f: nat, d: nat)
    requires g.Valid() && f < |g.funcs|
  {
    exists k: nat :: Returns(g, f, d, k)
  }

  /** Instruction `i` can be passed at cost `b`. */
  ghost predicate CanPass(g: Graph, i: nat, b: nat)
    requires g.Valid() && i < |g.insts|
  {
    if g.insts[i].kind.Call? then
      exists t: nat, d: nat :: t in g.insts[i].kind.targets && t < |g.funcs| && CanReturn(g, t, d) && b == 1 + d
    else b == 1
  }

  lemma CanStep(g: Graph, i: nat, s: nat, b: nat, d: nat)
    requires g.Valid() && i < |g.insts| && s in g.insts[i].succs && s < |g.insts| && CanPass(g, i, b) && CanReach(g, s, d)
    ensures CanReach(g, i, b + d)
  {
    var k: nat :| Reaches(g, s, d, k);
    if g.insts[i].kind.Call? {
      var t: nat, e: nat :| t in g.insts[i].kind.targets && t < |g.funcs| && CanReturn(g, t, e) && b == 1 + e;
      var m: nat :| Returns(g, t, e, m);
      var n := if k < m then m else k;
      ReachesMore(g, s, d, k, n);
      if g.funcs[t].Defined? {
        ReachesMore(g, g.funcs[t].entry, e, m, n);
      }
      assert Returns(g, t, e, n) && Passes(g, i, b, n);
      assert Reaches(g, i, b + d, n + 1);
    } else {
      assert Passes(g, i, b, k);
      assert Reaches(g, i, b + d, k + 1);
    }
  }

  // ----- the fixpoint -----

  type Distance = seq<nat>

  ghost predicate Fits(g: Graph, dist: Distance, short: Distance) {
    |dist| == |g.insts| && |short| == |g.funcs|
  }

  /** Every non-zero distance is the cost of some way to return. */
  ghost predicate Attained(g: Graph, dist: Distance, short: Distance)
    requires g.Valid() && Fits(g, dist, short)
  {
    && (forall i :: 0 <= i < |dist| && dist[i] > 0 ==> CanReach(g, i, dist[i]))
    && (forall f :: 0 <= f < |short| && short[f] > 0 ==> CanReturn(g, f, short[f]))
  }

  /** What holds between the two tables whatever has been found so far. */
  ghost predicate Linked(g: Graph, dist: Distance, short: Distance)
    requires g.Valid() && Fits(g, dist, short)
  {
    && (forall f :: 0 <= f < |short| && g.funcs[f].Declared? ==> short[f] == if g.funcs[f].returning then 1 else 0)
    && (forall f :: 0 <= f < |short| && g.funcs[f].Defined? && short[f] > 0 ==> dist[g.funcs[f].entry] > 0)
    && (forall i :: 0 <= i < |dist| && g.insts[i].kind.Return? ==> dist[i] == 1)
    && (forall i :: 0 <= i < |dist| && dist[i] > 0 && !g.insts[i].kind.Return? ==> Passable(g, short, i))
  }

  ghost predicate Passable(g: Graph, short: Distance, i: nat)
    requires g.Valid() && i < |g.insts| && |short| == |g.funcs|
  {
    g.insts[i].kind.Call? ==> exists t :: t in g.insts[i].kind.targets && short[t] > 0
  }

  predicate IsEntry(g: Graph, i: nat)
    requires i < |g.insts| && g.insts[i].function_ < |g.funcs|
  {
    g.funcs[g.insts[i].function_] == Defined(i)
  }

  /** `b` is the least cost of passing `i` by the callee costs in `short`, 0 when
      no callee is known to return. */
  ghost predicate Through(g: Graph, short: Distance, i: nat, b: nat)
    requires g.Valid() && i < |g.insts| && |short| == |g.funcs|
  {
    if g.insts[i].kind.Call? then
      && (b > 0 ==> exists t :: t in g.insts[i].kind.targets && short[t] > 0 && b == 1 + short[t])
      && (forall t :: t in g.insts[i].kind.targets && short[t] > 0 ==> 0 < b <= 1 + short[t])
    else b == 1
  }

  /** `best` is the least of the current distance and the ways through a
      successor whose distance is known. */
  ghost predicate Best(g: Graph, dist: Distance, i: nat, b: nat, best: nat)
    requires g.Valid() && i < |g.insts| == |dist|
  {
    && (best == dist[i] || exists s :: s in g.insts[i].succs && dist[s] > 0 && best == b + dist[s])
    && (dist[i] > 0 ==> 0 < best <= dist[i])
    && (forall s :: s in g.insts[i].succs && dist[s] > 0 ==> 0 < best <= b + dist[s])
  }

  /** Nothing to change at instruction `i`. */
  ghost predicate Stable(g: Graph, dist: Distance, short: Distance, i: nat)
    requires g.Valid() && Fits(g, dist, short) && i < |g.insts|
  {
    exists b: nat :: Through(g, short, i, b) &&
      (b > 0 ==> Best(g, dist, i, b, dist[i]) && (IsEntry(g, i) ==> short[g.insts[i].function_] == dist[i]))
  }

  // ----- progress -----

  function Zeros(d: Distance): nat {
    if d == [] then 0 else (if d[0] == 0 then 1 else 0) + Zeros(d[1..])
  }

  function Sum(d: Distance): nat {
    if d == [] then 0 else d[0] + Sum(d[1..])
  }

  /** Functions whose cost is not that of their entry. */
  ghost function Stale(g: Graph, dist: Distance, short: Distance): set<nat>
    requires g.Valid() && Fits(g, dist, short)
  {
    set f: nat | f < |g.funcs| && g.funcs[f].Defined? && short[f] != dist[g.funcs[f].entry]
  }

  lemma {:induction false} Written(d: Distance, i: nat, v: nat)
    requires i < |d|
    ensures Zeros(d[i := v]) == Zeros(d) - (if d[i] == 0 then 1 else 0) + (if v == 0 then 1 else 0)
    ensures Sum(d[i := v]) == Sum(d) - d[i] + v
  {
    if i > 0 {
      Written(d[1..], i - 1, v);
      assert d[i := v][1..] == d[1..][i - 1 := v];
    } else {
      assert d[i := v][1..] == d[1..];
    }
  }

  ghost predicate Less(a: (nat, nat, set<nat>), b: (nat, nat, set<nat>)) {
    a.0 < b.0 || (a.0 == b.0 && (a.1 < b.1 || (a.1 == b.1 && a.2 < b.2)))
  }

  ghost function Measure(g: Graph, dist: Distance, short: Distance): (nat, nat, set<nat>)
    requires g.Valid() && Fits(g, dist, short)
  {
    (Zeros(dist), Sum(dist), Stale(g, dist, short))
  }

  /** The tables after instruction `i` has been given distance `best`. */
  ghost function Updated(g: Graph, dist: Distance, short: Distance, i: nat, best: nat): (Distance, Distance)
    requires g.Valid() && Fits(g, dist, short) && i < |g.insts|
  {
    (dist[i := best], if IsEntry(g, i) then short[g.insts[i].function_ := best] else short)
  }

  lemma UpdateProgress(g: Graph, dist: Distance, short: Distance, i: nat, b: nat, best: nat)
    requires g.Valid() && Fits(g, dist, short) && i < |g.insts| && b > 0 && Best(g, dist, i, b, best)
    requires best != dist[i] || (IsEntry(g, i) && short[g.insts[i].function_] != best)
    ensures Less(Measure(g, Updated(g, dist, short, i, best).0, Updated(g, dist, short, i, best).1), Measure(g, dist, short))
  {
    Written(dist, i, best);
    var (d, s) := Updated(g, dist, short, i, best);
    if best == dist[i] {
      assert d == dist;
      var f := g.insts[i].function_;
      assert f in Stale(g, dist, short) && f !in Stale(g, d, s);
      assert Stale(g, d, s) <= Stale(g, dist, short);
    }
  }

  lemma UpdateAttained(g: Graph, dist: Distance, short: Distance, i: nat, b: nat, best: nat)
    requires g.Valid() && Fits(g, dist, short) && i < |g.insts| && b > 0
    requires Attained(g, dist, short) && Linked(g, dist, short) && Through(g, short, i, b) && Best(g, dist, i, b, best)
    ensures var (d, s) := Updated(g, dist, short, i, best); Fits(g, d, s) && Attained(g, d, s) && Linked(g, d, s)
  {
    BestReached(g, dist, short, i, b, best);
    var (d, s) := Updated(g, dist, short, i, best);
    UpdateLinked(g, dist, short, i, b, best);
    forall f | 0 <= f < |s| && s[f] > 0 ensures CanReturn(g, f, s[f]) {
      if s[f] != short[f] {
        var k: nat :| Reaches(g, i, best, k);
        assert Returns(g, f, best, k);
      }
    }
  }

  lemma BestReached(g: Graph, dist: Distance, short: Distance, i: nat, b: nat, best: nat)
    requires g.Valid() && Fits(g, dist, short) && i < |g.insts| && b > 0
    requires Attained(g, dist, short) && Through(g, short, i, b) && Best(g, dist, i, b, best)
    ensures best > 0 ==> CanReach(g, i, best)
  {
    if best != dist[i] {
      var s :| s in g.insts[i].succs && dist[s] > 0 && best == b + dist[s];
      assert CanPass(g, i, b) by {
        if g.insts[i].kind.Call? {
          var t :| t in g.insts[i].kind.targets && short[t] > 0 && b == 1 + short[t];
          assert CanReturn(g, t, short[t]);
        }
      }
      CanStep(g, i, s, b, dist[s]);
    }
  }

  lemma UpdateLinked(g: Graph, dist: Distance, short: Distance, i: nat, b: nat, best: nat)
    requires g.Valid() && Fits(g, dist, short) && i < |g.insts| && b > 0
    requires Linked(g, dist, short) && Through(g, short, i, b) && Best(g, dist, i, b, best)
    ensures var (d, s) := Updated(g, dist, short, i, best); Fits(g, d, s) && Linked(g, d, s)
  {
    var (d, s) := Updated(g, dist, short, i, best);
    assert best == 0 ==> dist[i] == 0;
    assert Passable(g, short, i);
    forall j | 0 <= j < |d| && d[j] > 0 && !g.insts[j].kind.Return? ensures Passable(g, s, j) {
      if g.insts[j].kind.Call? {
        assert Passable(g, short, j);
        var t :| t in g.insts[j].kind.targets && short[t] > 0;
        assert s[t] > 0;
      }
    }
  }

  // ----- at the fixpoint -----

  /** Once nothing changes, no way to return costs less than the distance. */
  lemma {:induction false} ReachesBound(g: Graph, dist: Distance, short: Distance, i: nat, c: nat, k: nat)
    requires g.Valid() && Fits(g, dist, short) && i < |g.insts| && Linked(g, dist, short)
    requires forall j :: 0 <= j < |dist| ==> Stable(g, dist, short, j)
    requires Reaches(g, i, c, k)
    ensures 0 < dist[i] <= c
    decreases k, 1
  {
    if !(g.insts[i].kind.Return? && c == 1) {
      var s: nat, b: nat, d: nat :|
        s in g.insts[i].succs && s < |g.insts| && Passes(g, i, b, k - 1) && Reaches(g, s, d, k - 1) && c == b + d;
      ReachesBound(g, dist, short, s, d, k - 1);
      var m: nat := PassesBound(g, dist, short, i, b, k - 1);
    }
  }

  lemma {:induction false} PassesBound(g: Graph, dist: Distance, short: Distance, i: nat, b: nat, k: nat) returns (m: nat)
    requires g.Valid() && Fits(g, dist, short) && i < |g.insts| && Linked(g, dist, short)
    requires forall j :: 0 <= j < |dist| ==> Stable(g, dist, short, j)
    requires Passes(g, i, b, k)
    ensures 0 < m <= b && Through(g, short, i, m) && Best(g, dist, i, m, dist[i])
    decreases k, 3
  {
    assert Stable(g, dist, short, i);
    m :| Through(g, short, i, m) &&
      (m > 0 ==> Best(g, dist, i, m, dist[i]) && (IsEntry(g, i) ==> short[g.insts[i].function_] == dist[i]));
    if g.insts[i].kind.Call? {
      var t: nat, d: nat :| t in g.insts[i].kind.targets && t < |g.funcs| && Returns(g, t, d, k) && b == 1 + d;
      ReturnsBound(g, dist, short, t, d, k);
    }
  }

  lemma {:induction false} ReturnsBound(g: Graph, dist: Distance, short: Distance, f: nat, d: nat, k: nat)
    requires g.Valid() && Fits(g, dist, short) && f < |g.funcs| && Linked(g, dist, short)
    requires forall j :: 0 <= j < |dist| ==> Stable(g, dist, short, j)
    requires Returns(g, f, d, k)
    ensures 0 < short[f] <= d
    decreases k, 2
  {
    if g.funcs[f].Defined? {
      ReachesBound(g, dist, short, g.funcs[f].entry, d, k);
      EntrySettled(g, dist, short, f);
    }
  }

  lemma EntrySettled(g: Graph, dist: Distance, short: Distance, f: nat)
    requires g.Valid() && Fits(g, dist, short) && f < |g.funcs| && Linked(g, dist, short) && g.funcs[f].Defined?
    requires Stable(g, dist, short, g.funcs[f].entry)
    ensures short[f] == dist[g.funcs[f].entry]
  {
    var i := g.funcs[f].entry;
    if g.insts[i].kind.Call? && dist[i] > 0 {
      assert Passable(g, short, i);
    }
  }

  ghost predicate LeastTo(g: Graph, i: nat, v: nat)
    requires g.Valid() && i < |g.insts|
  {
    && (v == 0 ==> forall c: nat :: !CanReach(g, i, c))
    && (v > 0 ==> CanReach(g, i, v) && forall c: nat :: CanReach(g, i, c) ==> v <= c)
  }

  ghost predicate LeastOf(g: Graph, f: nat, v: nat)
    requires g.Valid() && f < |g.funcs|
  {
    && (v == 0 ==> forall c: nat :: !CanReturn(g, f, c))
    && (v > 0 ==> CanReturn(g, f, v) && forall c: nat :: CanReturn(g, f, c) ==> v <= c)
  }

  /** Attained values that nothing changes are the least costs. */
  lemma FixpointLeast(g: Graph, dist: Distance, short: Distance)
    requires g.Valid() && Fits(g, dist, short) && Attained(g, dist, short) && Linked(g, dist, short)
    requires forall j :: 0 <= j < |dist| ==> Stable(g, dist, short, j)
    ensures forall i :: 0 <= i < |dist| ==> LeastTo(g, i, dist[i])
    ensures forall f :: 0 <= f < |short| ==> LeastOf(g, f, short[f])
  {
    forall i | 0 <= i < |dist| ensures LeastTo(g, i, dist[i]) {
      forall c: nat | CanReach(g, i, c) ensures 0 < dist[i] <= c {
        var k: nat :| Reaches(g, i, c, k);
        ReachesBound(g, dist, short, i, c, k);
      }
    }
    forall f | 0 <= f < |short| ensures LeastOf(g, f, short[f]) {
      forall c: nat | CanReturn(g, f, c) ensures 0 < short[f] <= c {
        var k: nat :| Returns(g, f, c, k);
        ReturnsBound(g, dist, short, f, c, k);
      }
    }
  }

  // ----- the loops -----

  method BestThrough(g: Graph, short: array<nat>, i: nat) returns (b: nat)
    requires g.Valid() && i < |g.insts| && short.Length == |g.funcs|
    ensures Through(g, short[..], i, b)
  {
    b := 0;
    if g.insts[i].kind.Call? {
      var targets := g.insts[i].kind.targets;
      assert g.ValidInstruction(g.insts[i]);
      assert forall m :: 0 <= m < |targets| ==> targets[m] in targets;
      for n := 0 to |targets|
        invariant b > 0 ==> exists t :: t in targets && short[t] > 0 && b == 1 + short[t]
        invariant forall m :: 0 <= m < n && short[targets[m]] > 0 ==> 0 < b <= 1 + short[targets[m]]
      {
        var dist := short[targets[n]];
        if dist != 0 {
          if b == 0 || 1 + dist < b {
            b := 1 + dist;
          }
        }
      }
    } else {
      b := 1;
    }
  }

  method BestOver(g: Graph, dist: array<nat>, i: nat, b: nat) returns (best: nat)
    requires g.Valid() && i < |g.insts| == dist.Length && b > 0
    ensures Best(g, dist[..], i, b, best)
  {
    best := dist[i];
    var succs := g.insts[i].succs;
    assert g.ValidInstruction(g.insts[i]);
    assert forall m :: 0 <= m < |succs| ==> succs[m] in succs;
    for n := 0 to |succs|
      invariant best == dist[i] || exists s :: s in succs && dist[s] > 0 && best == b + dist[s]
      invariant dist[i] > 0 ==> 0 < best <= dist[i]
      invariant forall m :: 0 <= m < n && dist[succs[m]] > 0 ==> 0 < best <= b + dist[succs[m]]
    {
      var d := dist[succs[n]];
      if d != 0 {
        if best == 0 || b + d < best {
          best := b + d;
        }
      }
    }
  }

  ghost predicate Sound(g: Graph, dist: Distance, short: Distance)
    requires g.Valid()
  {
    Fits(g, dist, short) && Attained(g, dist, short) && Linked(g, dist, short)
  }

  /** The body of the pass over the instructions: either a step down, or nothing
      to change here. */
  method Relax(g: Graph, dist: array<nat>, short: array<nat>, i: nat) returns (changed: bool)
    requires g.Valid() && Sound(g, dist[..], short[..]) && i < |g.insts| && dist != short
    modifies dist, short
    ensures Sound(g, dist[..], short[..])
    ensures changed ==> Less(Measure(g, dist[..], short[..]), Measure(g, old(dist[..]), old(short[..])))
    ensures !changed ==> dist[..] == old(dist[..]) && short[..] == old(short[..]) && Stable(g, dist[..], short[..], i)
  {
    hide Attained, Linked, Best, Through, Zeros, Sum, Stale;
    changed := false;
    var b := BestThrough(g, short, i);
    if b != 0 {
      var best := BestOver(g, dist, i, b);
      var f := g.insts[i].function_;
      ghost var d, s := dist[..], short[..];
      if best != dist[i] || (IsEntry(g, i) && short[f] != best) {
        UpdateAttained(g, d, s, i, b, best);
        UpdateProgress(g, d, s, i, b, best);
        dist[i] := best;
        changed := true;
        if IsEntry(g, i) {
          short[f] := best;
        }
        assert (dist[..], short[..]) == Updated(g, d, s, i, best);
      }
    }
  }

  lemma LessTrans(a: (nat, nat, set<nat>), b: (nat, nat, set<nat>), c: (nat, nat, set<nat>))
    requires Less(a, b) && Less(b, c)
    ensures Less(a, c)
  {
  }

  /** One pass over all instructions, the last first. */
  method Pass(g: Graph, dist: array<nat>, short: array<nat>) returns (changed: bool)
    requires g.Valid() && Sound(g, dist[..], short[..]) && dist != short
    modifies dist, short
    ensures Sound(g, dist[..], short[..])
    ensures changed ==> Less(Measure(g, dist[..], short[..]), Measure(g, old(dist[..]), old(short[..])))
    ensures !changed ==> dist[..] == old(dist[..]) && short[..] == old(short[..])
    ensures !changed ==> forall i :: 0 <= i < |g.insts| ==> Stable(g, dist[..], short[..], i)
  {
    hide Attained, Linked, Best, Through, Zeros, Sum, Stale, Stable, Less;
    changed := false;
    for n := |g.insts| downto 0
      invariant Sound(g, dist[..], short[..])
      invariant changed ==> Less(Measure(g, dist[..], short[..]), Measure(g, old(dist[..]), old(short[..])))
      invariant !changed ==> dist[..] == old(dist[..]) && short[..] == old(short[..])
      invariant !changed ==> forall i :: n <= i < |g.insts| ==> Stable(g, dist[..], short[..], i)
    {
      ghost var before := Measure(g, dist[..], short[..]);
      var here := Relax(g, dist, short, n);
      if here {
        if changed {
          LessTrans(Measure(g, dist[..], short[..]), before, Measure(g, old(dist[..]), old(short[..])));
        }
        changed := true;
      }
    }
  }

  lemma Initial(g: Graph, dist: Distance, short: Distance)
    requires g.Valid() && Fits(g, dist, short)
    requires forall i :: 0 <= i < |dist| ==> dist[i] == if g.insts[i].kind.Return? then 1 else 0
    requires forall f :: 0 <= f < |short| ==> short[f] == if g.funcs[f] == Declared(true) then 1 else 0
    ensures Sound(g, dist, short)
  {
    forall i | 0 <= i < |dist| && dist[i] > 0 ensures CanReach(g, i, dist[i]) {
      assert Reaches(g, i, 1, 1);
    }
    forall f | 0 <= f < |short| && short[f] > 0 ensures CanReturn(g, f, short[f]) {
      assert Returns(g, f, 1, 0);
    }
  }

  /** The first phase of `computeReachableUncovered`: it terminates on every graph
      and finds the least costs, 0 exactly where no return can be reached. */
  method ComputeDistances(g: Graph) returns (dist: array<nat>, short: array<nat>)
    requires g.Valid()
    ensures dist.Length == |g.insts| && short.Length == |g.funcs|
    ensures forall i :: 0 <= i < dist.Length ==> LeastTo(g, i, dist[i])
    ensures forall f :: 0 <= f < short.Length ==> LeastOf(g, f, short[f])
  {
    hide Attained, Linked, Best, Through, Zeros, Sum, Stale, Stable, LeastTo, LeastOf;
    dist := new nat[|g.insts|](i requires 0 <= i < |g.insts| => if g.insts[i].kind.Return? then 1 else 0);
    short := new nat[|g.funcs|](f requires 0 <= f < |g.funcs| => if g.funcs[f] == Declared(true) then 1 else 0);
    Initial(g, dist[..], short[..]);
    var changed := true;
    while changed
      invariant Sound(g, dist[..], short[..])
      invariant !changed ==> forall i :: 0 <= i < |g.insts| ==> Stable(g, dist[..], short[..], i)
      decreases Zeros(dist[..]), Sum(dist[..]), Stale(g, dist[..], short[..]), changed
    {
      changed := Pass(g, dist, short);
    }
    FixpointLeast(g, dist[..], short[..]);
  }
}
