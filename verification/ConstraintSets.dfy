/** Constraint sets as values: their meaning, the equalities drawn from them, and
    the weight that bounds rewriting. */
module ConstraintSets {
  import opened Bits
  import opened Exprs
  import opened SmartConstructors
  import opened Weights
  import opened PointReads
  import opened Replacement
  import opened ReplaceVisitors

  // ----- meaning -----

  ghost predicate Equivalent(c: set<Formula>, d: set<Formula>) {
    forall a: Assignment :: Sat(c, a) <==> Sat(d, a)
  }

  /** No constraint reads an array of input bytes at a symbolic index. */
  ghost predicate AllPointwise(c: set<Formula>) {
    forall e :: e in c ==> Pointwise(e)
  }

  function Members(w: seq<Formula>): (s: set<Formula>) { set x | x in w }

  lemma SatUnion(c: set<Formula>, d: set<Formula>, a: Assignment)
    ensures Sat(c + d, a) <==> Sat(c, a) && Sat(d, a)
  {
    hide Eval, WF;
  }

  lemma SatOne(e: Formula, a: Assignment)
    ensures Sat({e}, a) <==> Holds(e, a)
  {
    hide Eval, WF;
    assert e in {e};
  }

  lemma MembersAdd(w: seq<Formula>, e: Formula)
    ensures Members(w + [e]) == Members(w) + {e}
  {
  }

  /** A conjunction holds when both conjuncts do. */
  lemma AndHolds(e: Formula, a: Assignment)
    requires e.Binary? && e.op == And
    ensures WF(e.left) && WF(e.right) && Width(e.left) == Width(e.right) == BOOL
    ensures Holds(e, a) <==> Holds(e.left, a) && Holds(e.right, a)
  {
    assert Eval(e, a) == AndBits(Eval(e.left, a), Eval(e.right, a));
  }

  /** An equality with a constant says the other side has that value. */
  predicate IsConstEq(e: Expr) { e.Binary? && e.op == Eq && e.left.Constant? }

  lemma ConstEqSame(e: Formula)
    requires IsConstEq(e)
    ensures WF(e.left) && WF(e.right) && Width(e.left) == Width(e.right) && Same({e}, e.right, e.left)
  {
    hide ReadAt, Apply;
    forall a: Assignment | Sat({e}, a) ensures Eval(e.right, a) == Eval(e.left, a) {
      SatOne(e, a);
      EqNode(e.left, e.right, a);
    }
  }

  // ----- the equalities drawn from the constraints -----

  /** What a constraint lets be replaced, and by what. */
  function EqKey(e: Formula): (k: Term) { if IsConstEq(e) then e.right else e }
  function EqValue(e: Formula): (v: Term)
    ensures v.Constant?
  {
    if IsConstEq(e) then e.left else True
  }

  /** Every entry comes from a constraint that is still there. */
  ghost predicate Supported(eqs: map<Term, Term>, c: set<Formula>) {
    forall k :: k in eqs ==> exists e :: e in c && EqKey(e) == k && EqValue(e) == eqs[k]
  }

  lemma {:induction false} SupportedRules(eqs: map<Term, Term>, c: set<Formula>)
    requires Supported(eqs, c)
    ensures RulesHold(c, eqs)
  {
    hide Eval, WF;
    forall k | k in eqs ensures eqs[k].Constant? && Same(c, k, eqs[k]) {
      var e :| e in c && EqKey(e) == k && EqValue(e) == eqs[k];
      ConstraintSame(e);
      forall a: Assignment | Sat(c, a) ensures Eval(k, a) == Eval(eqs[k], a) {
        SatOne(e, a);
      }
    }
  }

  lemma ConstraintSame(e: Formula)
    ensures Same({e}, EqKey(e), EqValue(e))
  {
    hide ReadAt, Apply;
    if IsConstEq(e) {
      ConstEqSame(e);
    } else {
      forall a: Assignment | Sat({e}, a) ensures Eval(e, a) == Eval(True, a) {
        SatOne(e, a);
        OneBit(Eval(e, a), [true]);
      }
    }
  }

  /** `updateEqualities`: the new constraint's entry, less those of the deleted. */
  lemma EqualitiesKept(eqs: map<Term, Term>, c: set<Formula>, e: Formula, gone: set<Formula>, keys: set<Term>)
    requires Supported(eqs, c) && keys == set d | d in gone :: EqKey(d)
    ensures Supported(eqs[EqKey(e) := EqValue(e)] - keys, (c - gone) + {e})
  {
    hide Eval, WF, EqKey, EqValue;
    var now := eqs[EqKey(e) := EqValue(e)] - keys;
    forall k | k in now ensures exists d :: d in (c - gone) + {e} && EqKey(d) == k && EqValue(d) == now[k] {
      if k == EqKey(e) {
        assert e in (c - gone) + {e};
      } else {
        var d :| d in c && EqKey(d) == k && EqValue(d) == eqs[k];
        assert d !in gone;
        assert d in (c - gone) + {e};
      }
    }
  }

  // ----- rewritten constraints -----

  /** Each of `rs` may replace its partner in `ds`, and is lighter. */
  ghost predicate Rewritten(c: set<Formula>, ds: seq<Formula>, rs: seq<Formula>) {
    && |ds| == |rs|
    && forall k :: 0 <= k < |ds| ==> Same(c, ds[k], rs[k]) && Weight(rs[k]) < Weight(ds[k]) && Keeps(ds[k], rs[k])
  }

  ghost predicate Distinct(w: seq<Formula>) {
    forall i, j :: 0 <= i < j < |w| ==> w[i] != w[j]
  }

  /** Replacing constraints under a new one, and keeping the replacements for
      later, changes nothing. */
  lemma RewriteMeaning(c: set<Formula>, e: Formula, ds: seq<Formula>, rs: seq<Formula>, w: seq<Formula>)
    requires Rewritten({e}, ds, rs)
    ensures Equivalent((c - Members(ds)) + {e} + Members(w + rs), (c + Members(ds)) + {e} + Members(w))
  {
    hide Eval, WF, Weight;
    forall a: Assignment
      ensures Sat((c - Members(ds)) + {e} + Members(w + rs), a) <==> Sat((c + Members(ds)) + {e} + Members(w), a)
    {
      var left, right := (c - Members(ds)) + {e} + Members(w + rs), (c + Members(ds)) + {e} + Members(w);
      if Sat(left, a) {
        assert e in left;
        SatOne(e, a);
        forall x | x in right ensures Holds(x, a) {
          if x in Members(ds) {
            var k :| 0 <= k < |ds| && ds[k] == x;
            assert rs[k] in w + rs && Same({e}, ds[k], rs[k]);
            assert rs[k] in left;
          } else {
            assert x in left;
          }
        }
      }
      if Sat(right, a) {
        assert e in right;
        SatOne(e, a);
        forall x | x in left ensures Holds(x, a) {
          if x in w + rs && x !in w {
            var k :| 0 <= k < |rs| && rs[k] == x;
            assert ds[k] in Members(ds) && Same({e}, ds[k], rs[k]);
            assert ds[k] in right;
          } else {
            assert x in right;
          }
        }
      }
    }
  }

  // ----- the weight of what is stored and what waits -----

  ghost function SetWeight(s: set<Formula>): nat
    decreases |s|
  {
    if s == {} then 0 else
      var x :| x in s;
      Weight(x) + SetWeight(s - {x})
  }

  lemma {:induction false} SetWeightRemove(s: set<Formula>, x: Formula)
    requires x in s
    ensures SetWeight(s) == Weight(x) + SetWeight(s - {x})
    decreases |s|
  {
    hide Weight, WF;
    var y :| y in s && SetWeight(s) == Weight(y) + SetWeight(s - {y});
    if y != x {
      SetWeightRemove(s - {y}, x);
      SetWeightRemove(s - {x}, y);
      assert s - {y} - {x} == s - {x} - {y};
    }
  }

  function SeqWeight(w: seq<Formula>): nat {
    if w == [] then 0 else SeqWeight(w[..|w| - 1]) + Weight(w[|w| - 1])
  }

  lemma SeqWeightAdd(w: seq<Formula>, e: Formula)
    ensures SeqWeight(w + [e]) == SeqWeight(w) + Weight(e)
  {
    hide Weight, WF;
    assert (w + [e])[..|w|] == w;
  }

  lemma {:induction false} SeqWeightAppend(w: seq<Formula>, v: seq<Formula>)
    ensures SeqWeight(w + v) == SeqWeight(w) + SeqWeight(v)
  {
    hide Weight, WF;
    if v == [] {
      assert w + v == w;
    } else {
      var n := |v| - 1;
      assert w + v == w + v[..n] + [v[n]] && v == v[..n] + [v[n]];
      SeqWeightAdd(w + v[..n], v[n]);
      SeqWeightAdd(v[..n], v[n]);
      SeqWeightAppend(w, v[..n]);
    }
  }

  /** Moving constraints to the worklist in rewritten form makes the whole
      lighter. */
  lemma {:induction false} RewriteLighter(c: set<Formula>, k: set<Formula>, ds: seq<Formula>, rs: seq<Formula>)
    requires Rewritten(k, ds, rs) && Members(ds) <= c && Distinct(ds)
    ensures SetWeight(c - Members(ds)) + SeqWeight(rs) + |ds| <= SetWeight(c)
    decreases |ds|
  {
    hide Weight, WF, Same;
    if ds == [] {
      assert c - Members(ds) == c;
    } else {
      var n := |ds| - 1;
      assert ds == ds[..n] + [ds[n]] && rs == rs[..n] + [rs[n]];
      MembersAdd(ds[..n], ds[n]);
      SeqWeightAdd(rs[..n], rs[n]);
      RewriteLighter(c, k, ds[..n], rs[..n]);
      SetWeightRemove(c - Members(ds[..n]), ds[n]);
      assert c - Members(ds) == c - Members(ds[..n]) - {ds[n]};
    }
  }

  // ----- one constraint settled -----

  /** From constraints `c` and worklist `w`, taking `e` in led to `d` and `v`: the
      same meaning, either nothing more to do or less weight in all, and no new
      symbolic read. */
  ghost predicate Settled(c: set<Formula>, w: seq<Formula>, e: Formula, d: set<Formula>, v: seq<Formula>) {
    && Equivalent(d + Members(v), c + {e} + Members(w))
    && SetWeight(d) + SeqWeight(v) <= SetWeight(c) + Weight(e) + SeqWeight(w)
    && (v != w ==> SetWeight(d) + SeqWeight(v) < SetWeight(c) + Weight(e) + SeqWeight(w))
    && (AllPointwise(c + {e} + Members(w)) ==> AllPointwise(d + Members(v)))
  }

  lemma SettleKnown(c: set<Formula>, w: seq<Formula>, e: Formula)
    requires e in c || e == True
    ensures Settled(c, w, e, c, w)
  {
    hide Weight, SetWeight, SeqWeight, Members, Pointwise;
    forall a: Assignment ensures Sat(c + Members(w), a) <==> Sat(c + {e} + Members(w), a) {
      SatUnion(c + {e}, Members(w), a);
      SatUnion(c, Members(w), a);
      SatUnion(c, {e}, a);
      SatOne(e, a);
      if e in c {
        assert c + {e} == c;
      }
    }
  }

  lemma SettleRewritten(c: set<Formula>, w: seq<Formula>, e: Formula, ds: seq<Formula>, rs: seq<Formula>)
    requires e !in c && Rewritten({e}, ds, rs) && Members(ds) <= c && Distinct(ds)
    ensures Settled(c, w, e, (c - Members(ds)) + {e}, w + rs)
  {
    hide Weight, Sat, Rewritten, SetWeight, SeqWeight, Distinct, Members, AllPointwise;
    RewritePointwise(c, w, e, ds, rs);
    RewriteMeaning(c, e, ds, rs, w);
    assert c + Members(ds) == c;
    RewriteLighter(c, {e}, ds, rs);
    SeqWeightAppend(w, rs);
    SetWeightRemove((c - Members(ds)) + {e}, e);
    assert (c - Members(ds)) + {e} - {e} == c - Members(ds);
    RewrittenLength({e}, ds, rs);
    assert rs == [] ==> w + rs == w;
  }

  lemma RewritePointwise(c: set<Formula>, w: seq<Formula>, e: Formula, ds: seq<Formula>, rs: seq<Formula>)
    requires Rewritten({e}, ds, rs) && Members(ds) <= c
    ensures AllPointwise(c + {e} + Members(w)) ==> AllPointwise((c - Members(ds)) + {e} + Members(w + rs))
  {
    hide Pointwise, Same, Weight, WF, Width;
    if AllPointwise(c + {e} + Members(w)) {
      forall x | x in (c - Members(ds)) + {e} + Members(w + rs) ensures Pointwise(x) {
        if x in c + {e} + Members(w) {
        } else {
          var k :| 0 <= k < |rs| && rs[k] == x;
          assert ds[k] in Members(ds);
          assert ds[k] in c + {e} + Members(w);
        }
      }
    }
  }

  lemma RewrittenLength(c: set<Formula>, ds: seq<Formula>, rs: seq<Formula>)
    requires Rewritten(c, ds, rs)
    ensures |ds| == |rs|
  {
  }

  lemma SettleAnd(c: set<Formula>, w: seq<Formula>, e: Formula, d: set<Formula>, v: seq<Formula>,
                  b: set<Formula>, u: seq<Formula>)
    requires e.Binary? && e.op == And && WF(e.left) && WF(e.right) && Width(e.left) == Width(e.right) == BOOL
    requires Settled(c, w, e.left, d, v) && Settled(d, v, e.right, b, u)
    ensures Settled(c, w, e, b, u)
  {
    hide SetWeight, SeqWeight, Members, Weight, Sat, AllPointwise;
    BinaryKids(e);
    AndPointwiseBoth(c, w, e, d, v);
    forall a: Assignment ensures Sat(b + Members(u), a) <==> Sat(c + {e} + Members(w), a) {
      AndHolds(e, a);
      SatThree(c, e, w, a);
      SatThree(c, e.left, w, a);
      SatThree(d, e.right, v, a);
      SatUnion(d, Members(v), a);
    }
  }

  lemma AndPointwiseBoth(c: set<Formula>, w: seq<Formula>, e: Formula, d: set<Formula>, v: seq<Formula>)
    requires e.Binary? && WF(e.left) && WF(e.right) && Width(e.left) == Width(e.right) == BOOL
    ensures AllPointwise(c + {e} + Members(w)) ==> AllPointwise(c + {e.left} + Members(w))
    ensures AllPointwise(c + {e} + Members(w)) && AllPointwise(d + Members(v)) ==> AllPointwise(d + {e.right} + Members(v))
  {
    hide WF, Width, Members;
    if AllPointwise(c + {e} + Members(w)) {
      assert e in c + {e} + Members(w);
      forall x | x in c + {e.left} + Members(w) ensures Pointwise(x) {
        assert x in c + {e} + Members(w) || x == e.left;
      }
      if AllPointwise(d + Members(v)) {
        forall x | x in d + {e.right} + Members(v) ensures Pointwise(x) {
          assert x in d + Members(v) || x == e.right;
        }
      }
    }
  }

  lemma SatThree(c: set<Formula>, e: Formula, w: seq<Formula>, a: Assignment)
    ensures Sat(c + {e} + Members(w), a) <==> Sat(c, a) && Holds(e, a) && Sat(Members(w), a)
  {
    hide Sat, Members, Eval, WF;
    SatUnion(c + {e}, Members(w), a);
    SatUnion(c, {e}, a);
    SatOne(e, a);
  }
}
