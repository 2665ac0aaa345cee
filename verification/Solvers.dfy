/** The constraint solver as the engine sees it: a complete oracle. */
module Solvers {
  import opened Bits
  import opened Exprs
  import opened SmartConstructors
  import opened ConstraintSets

  datatype Validity = MustBeTrue | MustBeFalse | Unknown

  datatype Solver = Solver(
    feasible: (set<Formula>, Formula) -> bool,    // mayBeTrue
    pick: (set<Formula>, Term) -> Bits)           // getValue
  {
    /** A condition is feasible when some assignment satisfies it with the
        constraints, and a picked value is one the constraints allow. */
    ghost predicate Exact() {
      && (forall c: set<Formula>, e: Formula :: feasible(c, e) <==> Satisfiable(c + {e}))
      && (forall c: set<Formula>, e: Term :: |pick(c, e)| == Width(e))
      && (forall c: set<Formula>, e: Term :: Satisfiable(c) ==> exists a: Assignment :: Sat(c, a) && Eval(e, a) == pick(c, e))
    }

    predicate MayBeTrue(c: set<Formula>, e: Formula) { feasible(c, e) }

    predicate MustBeTrue(c: set<Formula>, e: Formula) { !feasible(c, IsZero(e)) }

    /** `Solver::evaluate`. */
    function Evaluate(c: set<Formula>, e: Formula): Validity {
      if MustBeTrue(c, e) then Validity.MustBeTrue
      else if !feasible(c, e) then MustBeFalse
      else Unknown
    }

    /** `Executor::toUnique`: the value of a term the constraints allow only one
        value for. */
    function ToUnique(c: set<Formula>, e: Term): (r: Term)
      requires forall d: set<Formula>, t: Term :: |pick(d, t)| == Width(t)
      ensures Width(r) == Width(e)
    {
      if e.Constant? then e
      else
        var v := pick(c, e);
        if MustBeTrue(c, EqCreate(e, Constant(v))) then Constant(v) else e
    }
  }

  ghost function Allowed(c: set<Formula>, e: Term): (v: Bits)
    ensures |v| == Width(e)
    ensures Satisfiable(c) ==> exists a: Assignment :: Sat(c, a) && Eval(e, a) == v
  {
    if Satisfiable(c) then
      var a: Assignment :| Sat(c, a);
      Eval(e, a)
    else Zeros(Width(e))
  }

  /** There is such a solver. */
  lemma ExactSolver() returns (s: Solver)
    ensures s.Exact()
  {
    hide Sat, Eval, WF, Allowed, Satisfiable;
    s := Solver((c: set<Formula>, e: Formula) => Satisfiable(c + {e}), (c: set<Formula>, e: Term) => Allowed(c, e));
    forall c: set<Formula>, e: Term
      ensures |s.pick(c, e)| == Width(e)
      ensures Satisfiable(c) ==> exists a: Assignment :: Sat(c, a) && Eval(e, a) == s.pick(c, e)
    {
      assert s.pick(c, e) == Allowed(c, e);
    }
  }

  lemma PicksFit(s: Solver)
    requires s.Exact()
    ensures forall d: set<Formula>, t: Term :: |s.pick(d, t)| == Width(t)
  {
  }

  lemma MustBeTrueMeans(s: Solver, c: set<Formula>, e: Formula)
    requires s.Exact()
    ensures s.MustBeTrue(c, e) <==> forall a: Assignment :: Sat(c, a) ==> Holds(e, a)
  {
    hide Sat, Eval, IsZero, WF;
    var n := IsZero(e);
    forall a: Assignment ensures Sat(c + {n}, a) <==> Sat(c, a) && !Holds(e, a) {
      NegationSound(e, a);
      SatUnion(c, {n}, a);
      SatOne(n, a);
    }
  }

  lemma MayBeTrueMeans(s: Solver, c: set<Formula>, e: Formula)
    requires s.Exact()
    ensures s.MayBeTrue(c, e) <==> exists a: Assignment :: Sat(c, a) && Holds(e, a)
  {
    hide Sat, Eval, WF;
    forall a: Assignment ensures Sat(c + {e}, a) <==> Sat(c, a) && Holds(e, a) {
      SatUnion(c, {e}, a);
      SatOne(e, a);
    }
  }

  /** Under the constraints a unique value is the term's value. */
  lemma ToUniqueValue(s: Solver, c: set<Formula>, e: Term, a: Assignment)
    requires s.Exact() && Sat(c, a)
    ensures Eval(s.ToUnique(c, e), a) == Eval(e, a)
  {
    hide Sat, EqCreate, ReadAt, Apply;
    if !e.Constant? {
      var v: Term := Constant(s.pick(c, e));
      if s.MustBeTrue(c, EqCreate(e, v)) {
        MustBeTrueMeans(s, c, EqCreate(e, v));
        EqSound(e, v, a);
      }
    }
  }

  lemma ToUniqueKeeps(s: Solver, c: set<Formula>, e: Term)
    requires forall d: set<Formula>, t: Term :: |s.pick(d, t)| == Width(t)
    ensures var r := s.ToUnique(c, e);
            && (!r.Constant? ==> r == e) && Width(r) == Width(e)
            && (r.Constant? ==> forall a: Assignment :: Eval(r, a) == r.value)
  {
    hide EqCreate;
  }

  /** And a term becomes a constant exactly when the constraints leave it one value. */
  lemma ToUniqueConstant(s: Solver, c: set<Formula>, e: Term)
    requires s.Exact()
    ensures s.ToUnique(c, e).Constant? <==>
            e.Constant? || forall a: Assignment, b: Assignment :: Sat(c, a) && Sat(c, b) ==> Eval(e, a) == Eval(e, b)
    ensures s.ToUnique(c, e).Constant? || s.ToUnique(c, e) == e
  {
    hide Sat, EqCreate, ReadAt, Apply;
    if !e.Constant? {
      var v: Term := Constant(s.pick(c, e));
      MustBeTrueMeans(s, c, EqCreate(e, v));
      forall a: Assignment ensures Holds(EqCreate(e, v), a) <==> Eval(e, a) == v.value {
        EqSound(e, v, a);
      }
    }
  }

  /** `Solver::evaluate` tells which values the condition can take; of contradictory
      constraints it says that the condition is true. */
  lemma EvaluateMeans(s: Solver, c: set<Formula>, e: Formula)
    requires s.Exact()
    ensures s.Evaluate(c, e) == MustBeTrue <==> forall a: Assignment :: Sat(c, a) ==> Holds(e, a)
    ensures s.Evaluate(c, e) == MustBeFalse <==> Satisfiable(c) && forall a: Assignment :: Sat(c, a) ==> !Holds(e, a)
  {
    hide Sat, Eval, IsZero, WF;
    MustBeTrueMeans(s, c, e);
    MayBeTrueMeans(s, c, e);
  }
}
