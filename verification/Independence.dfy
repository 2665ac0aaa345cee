/** What the factors are for: constraints in different factors can be solved
    apart. */
module Independence {
  import Bits
  import opened Exprs
  import opened Footprints
  import opened FactorIndex
  import opened Regrouping
  import opened FactorTables

  ghost predicate AllHold(xs: set<Term>, a: Assignment) {
    forall x :: x in xs ==> Width(x) == BOOL && Holds(x, a)
  }

  ghost predicate Solvable(xs: set<Term>) {
    exists a: Assignment :: AllHold(xs, a)
  }

  /** `b` on the cells of a footprint, `a` elsewhere. */
  ghost function Spliced(f: Footprint, b: Assignment, a: Assignment): Assignment {
    (arr: Array, i: nat) => if f.Covers(arr, i) then b(arr, i) else a(arr, i)
  }

  /** Constraints hold under any assignment that agrees on the cells they read. */
  lemma HoldOnCells(f: Footprint, a: Assignment, b: Assignment)
    requires Faithful(f) && AllHold(f.exprs, a)
    requires forall arr, i :: f.Covers(arr, i) ==> a(arr, i) == b(arr, i)
    ensures AllHold(f.exprs, b)
  {
    hide Eval, FootprintOf, WF;
    forall x | x in f.exprs ensures Width(x) == BOOL && Holds(x, b) {
      assert Width(x) == BOOL && Holds(x, a);
      forall arr, i | FootprintOf(x).Covers(arr, i) ensures a(arr, i) == b(arr, i) {
        assert f.Covers(arr, i);
      }
      FootprintDecides(x, a, b);
    }
  }

  /** One assignment for several factors, from one for each. */
  lemma {:induction false} SolveTogether<F>(fps: map<F, Footprint>, some: set<F>) returns (a: Assignment)
    requires AllFaithful(fps) && Disjoint(fps) && some <= fps.Keys
    requires forall f :: f in some ==> Solvable(fps[f].exprs)
    ensures forall f :: f in some ==> AllHold(fps[f].exprs, a)
    decreases |some|
  {
    hide AllHold, Faithful, Overlap;
    if some == {} {
      a := (arr: Array, i: nat) => Bits.Zeros(INT8);
    } else {
      var f :| f in some;
      var rest := SolveTogether(fps, some - {f});
      var b: Assignment :| AllHold(fps[f].exprs, b);
      a := Spliced(fps[f], b, rest);
      forall g | g in some ensures AllHold(fps[g].exprs, a) {
        if g == f {
          HoldOnCells(fps[f], b, a);
        } else {
          forall arr, i | fps[g].Covers(arr, i) ensures rest(arr, i) == a(arr, i) {
            NotBoth(fps[f], fps[g], arr, i);
          }
          HoldOnCells(fps[g], rest, a);
        }
      }
    }
  }

  /** A constraint set whose factors share no cell is satisfiable exactly when
      every factor is. */
  lemma FactorsDecide<F>(fps: map<F, Footprint>, rep: map<Term, F>)
    requires Sorted(fps, rep) && Disjoint(fps)
    ensures Solvable(rep.Keys) <==> forall f :: f in fps ==> Solvable(fps[f].exprs)
  {
    hide Faithful, Overlap;
    if Solvable(rep.Keys) {
      var a: Assignment :| AllHold(rep.Keys, a);
      forall f | f in fps ensures Solvable(fps[f].exprs) {
        assert AllHold(fps[f].exprs, a);
      }
    }
    if forall f :: f in fps ==> Solvable(fps[f].exprs) {
      var a := SolveTogether(fps, fps.Keys);
      forall x | x in rep ensures Width(x) == BOOL && Holds(x, a) {
        assert AllHold(fps[rep[x]].exprs, a);
      }
      assert AllHold(rep.Keys, a);
    }
  }
}
