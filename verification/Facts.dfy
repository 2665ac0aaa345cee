/** What the constraint manager knows about single input bytes: when a fact is new,
    when it is known and used, and how storing and rewriting constraints keep it. */
module Facts {
  import opened Bits
  import opened Exprs
  import opened SmartConstructors
  import opened Weights
  import opened Replacement
  import opened ReplaceVisitors
  import opened Footprints
  import opened KnownBytes
  import opened ConstraintSets

  // ----- what storing a constraint changes -----

  /** An equality with a constant other than false, which rewrites what is stored. */
  predicate Replaces(e: Formula) { IsConstEq(e) && e.left != False }

  /** A term with a value is left in no other constraint. */
  ghost predicate Scrubbed(c: set<Formula>, e: Formula) {
    Replaces(e) && ReadsCells(e.right) ==> forall x :: x in c && x != e ==> !Occurs(e.right, x)
  }

  lemma BooleanKey(e: Formula)
    requires !Replaces(e)
    ensures !InputByte(EqKey(e))
  {
  }

  function Keys(ds: seq<Formula>): set<Term> { set d | d in ds :: EqKey(d) }

  /** Each of `rs` is what the equality makes of its partner in `ds`: something else,
      in which the replaced term no longer occurs. */
  ghost predicate Applied(eq: Formula, ds: seq<Formula>, rs: seq<Formula>) {
    |ds| == |rs| && forall k :: 0 <= k < |ds| ==> AppliedTo(eq, ds[k], rs[k])
  }

  ghost predicate AppliedTo(eq: Formula, d: Formula, r: Formula) {
    IsConstEq(eq) ==>
      var rules: map<Term, Term> := map[eq.right := eq.left];
      r != d && !Touches(rules, r) && Resolved(rules, d, r)
  }

  /** No constraint says what value a term has. */
  ghost predicate Unstated(c: set<Formula>, k: Term) {
    k !in c && forall x :: x in c && IsConstEq(x) ==> x.right != k
  }

  /** A constraint is on record: as the value of one side, if nothing else said what
      that is, or as true. */
  ghost predicate Noted(c: set<Formula>, now: map<Term, Term>, e: Formula) {
    if IsConstEq(e) then Unstated(c, e.right) ==> e.right in now && now[e.right] == e.left
    else e in now && now[e] == True
  }

  lemma Recorded(c: set<Formula>, eqs: map<Term, Term>, e: Formula, ds: seq<Formula>)
    requires Members(ds) <= c && (ds != [] ==> IsConstEq(e)) && e !in c
    ensures Noted(c, eqs[EqKey(e) := EqValue(e)] - Keys(ds), e)
  {
    forall d | d in ds ensures d in c {
      assert d in Members(ds);
    }
  }

  // ----- facts about input bytes -----

  /** `fact` says what value an input byte has, the value is on record, and no other
      constraint has the byte outside its lists of writes. */
  ghost predicate Known(c: set<Formula>, eqs: map<Term, Term>, fact: Formula) {
    && IsConstEq(fact) && InputByte(fact.right)
    && fact in c && fact.right in eqs && eqs[fact.right] == fact.left
    && forall x :: x in c && x != fact ==> !Surface(fact.right, x)
  }

  ghost predicate New(c: set<Formula>, eqs: map<Term, Term>, fact: Formula) {
    && IsConstEq(fact) && InputByte(fact.right)
    && fact !in c && fact !in eqs && forall x :: x in c && IsConstEq(x) ==> x.right != fact.right
  }

  /** The byte does not occur outside lists of writes. */
  ghost predicate Skips(fact: Formula, e: Formula) { IsConstEq(fact) ==> !Surface(fact.right, e) }

  /** The fact alone decides a stored constraint, and the other way. */
  ghost predicate Denied(fact: Formula, c: set<Formula>) {
    exists x :: x in c && Refutes(fact, x)
  }

  ghost predicate Refutes(fact: Formula, x: Formula) {
    && IsConstEq(fact) && !x.Constant? && Determined(map[fact.right := fact.left], x)
    && forall a: Assignment :: Holds(fact, a) ==> !Holds(x, a)
  }

  /** What a fact is made of. */
  lemma FactParts(fact: Formula)
    requires IsConstEq(fact) && InputByte(fact.right)
    ensures WF(fact.right) && Width(fact.right) == INT8 && Width(fact.left) == INT8 && fact.left != False && Replaces(fact)
    ensures Surface(fact.right, fact) && Plain(fact) && !fact.right.Constant?
    ensures forall s: Term :: Occurs(s, fact) && !s.Constant? ==> s == fact || s == fact.right
  {
    hide Size;
    assert Kids(fact) == [fact.left, fact.right] && Kids(fact)[1] == fact.right;
    assert Plain(fact.right.index) && Plain(fact.right);
    assert Surface(fact.right, Kids(fact)[1]);
    forall s: Term | Occurs(s, fact) && !s.Constant? ensures s == fact || s == fact.right {
      FactOccurs(s, fact);
    }
  }

  lemma FactOccurs(s: Term, fact: Formula)
    requires IsConstEq(fact) && InputByte(fact.right) && Occurs(s, fact) && !s.Constant?
    ensures s == fact || s == fact.right
  {
    if s != fact {
      assert !Occurs(s, fact.left);
      assert Occurs(s, fact.right);
      assert !Occurs(s, fact.right.index) && !OccursInList(s, fact.right.head);
    }
  }

  lemma NewsSimple(c: set<Formula>, eqs: map<Term, Term>, fact: Formula)
    ensures New(c, eqs, fact) ==> fact !in c && IsConstEq(fact) && !fact.Constant?
  {
  }

  lemma FactReplaces(c: set<Formula>, eqs: map<Term, Term>, fact: Formula)
    requires New(c, eqs, fact)
    ensures IsConstEq(fact) && fact.left != False
  {
    FactParts(fact);
  }

  lemma ReplacesIs(e: Formula)
    ensures Replaces(e) <==> IsConstEq(e) && e.left != False
  {
  }

  /** No equality applies to a new fact. */
  lemma NewsUntouched(c: set<Formula>, eqs: map<Term, Term>, fact: Formula)
    ensures New(c, eqs, fact) && Supported(eqs, c) ==> Plain(fact) && !Touches(eqs, fact)
  {
    hide Occurs, Plain;
    if New(c, eqs, fact) && Supported(eqs, c) {
      FactParts(fact);
      if fact.right in eqs {
        var x :| x in c && EqKey(x) == fact.right && EqValue(x) == eqs[fact.right];
        KeyOf(x, fact.right);
      }
    }
  }

  lemma KeyOf(x: Formula, k: Term)
    requires EqKey(x) == k && Width(k) == INT8
    ensures IsConstEq(x) && x.right == k
  {
  }

  lemma KnownSkips(c: set<Formula>, eqs: map<Term, Term>, fact: Formula, t: Formula, s: Formula)
    requires Resolved(eqs, t, s)
    ensures Known(c, eqs, fact) ==> Skips(fact, s)
    ensures New(c, eqs, fact) && Supported(eqs, c) && t == fact ==> s == fact
  {
    hide Surface, Determined, Plain, Touches;
    NewsUntouched(c, eqs, fact);
  }

  lemma DecidedForm(eqs: map<Term, Term>, t: Formula, form: Formula)
    requires Resolved(eqs, t, form)
    ensures Determined(eqs, t) ==> form == True || form == False
    ensures t.Constant? ==> form == t
  {
    hide Determined, Clean, Plain, Touches;
    if t.Constant? {
      ConstantKnown(eqs, t);
      ConstantUntouched(eqs, t);
    }
    if Determined(eqs, t) {
      OneBit(form.value, [form.value[0]]);
    }
  }

  lemma FalseStays(before: seq<Formula>, more: seq<Formula>)
    requires before != [] && before[..|before| - 1] <= more
    ensures False in before && before[|before| - 1] != False ==> False in more
  {
  }

  lemma AndSkips(fact: Formula, e: Formula)
    requires e.Binary? && e.op == And && WF(e.left) && WF(e.right) && Width(e.left) == Width(e.right) == BOOL
    ensures Skips(fact, e) ==> Skips(fact, e.left) && Skips(fact, e.right)
  {
    hide Size;
    assert Kids(e) == [e.left, e.right] && Kids(e)[0] == e.left && Kids(e)[1] == e.right;
  }

  /** A known fact is neither rewritten nor forgotten when a constraint is stored that
      does not mention the byte. */
  lemma KeepsKnown(c: set<Formula>, eqs: map<Term, Term>, e: Formula, ds: seq<Formula>, rs: seq<Formula>,
                   left: set<Formula>, fact: Formula)
    requires left == c - Members(ds) && Members(ds) <= c && Applied(e, ds, rs) && (ds != [] ==> IsConstEq(e))
    ensures Known(c, eqs, fact) && Skips(fact, e) ==> Known(left + {e}, eqs[EqKey(e) := EqValue(e)] - Keys(ds), fact)
  {
    hide Surface, Plain, Determined, Clean, Occurs;
    if Known(c, eqs, fact) && Skips(fact, e) {
      FactParts(fact);
      if fact in ds {
        var k :| 0 <= k < |ds| && ds[k] == fact;
        NotApplied(fact, e, rs[k]);
      }
      if fact.right in Keys(ds) {
        var d :| d in ds && EqKey(d) == fact.right;
        assert d in Members(ds);
        KeyOf(d, fact.right);
        OwnSurface(d);
      }
      if EqKey(e) == fact.right {
        KeyOf(e, fact.right);
        OwnSurface(e);
      }
    }
  }

  lemma NotApplied(fact: Formula, e: Formula, r: Formula)
    requires IsConstEq(fact) && InputByte(fact.right) && IsConstEq(e) && Skips(fact, e)
    ensures !AppliedTo(e, fact, r)
  {
    hide Surface, Plain, Determined, Clean, Touches;
    FactParts(fact);
    SkipsUntouched(fact, e);
  }

  lemma OwnSurface(d: Formula)
    requires IsConstEq(d)
    ensures Surface(d.right, d)
  {
    hide Size;
    assert Kids(d) == [d.left, d.right] && Kids(d)[1] == d.right;
  }

  lemma SkipsUntouched(fact: Formula, e: Formula)
    requires IsConstEq(fact) && InputByte(fact.right) && IsConstEq(e) && Skips(fact, e)
    ensures !Touches(map[e.right := e.left], fact)
  {
    hide Occurs, Plain;
    FactParts(fact);
    OwnSurface(e);
    if e.right == fact {
      InnerSurface(fact.right, e);
    }
  }

  lemma InnerSurface(s: Term, e: Formula)
    requires IsConstEq(e) && Surface(s, e.right)
    ensures Surface(s, e)
  {
    hide Size;
    assert Kids(e) == [e.left, e.right] && Kids(e)[1] == e.right;
  }

  /** Storing a new fact: it is known from then on, and a constraint it refutes comes
      back as false. */
  lemma LearnsFact(c: set<Formula>, eqs: map<Term, Term>, fact: Formula, ds: seq<Formula>, rs: seq<Formula>,
                   left: set<Formula>, w: seq<Formula>)
    requires New(c, eqs, fact) && left == c - Members(ds) && Members(ds) <= c
    requires Applied(fact, ds, rs) && Rewritten({fact}, ds, rs)
    requires ReadsCells(fact.right) ==> forall x :: x in left ==> !Occurs(fact.right, x)
    ensures Known(left + {fact}, eqs[EqKey(fact) := EqValue(fact)] - Keys(ds), fact)
    ensures Denied(fact, c) ==> False in w + rs
  {
    hide Surface, Plain, Determined, Clean, Occurs, ReadsCells, AppliedTo, Same, Weight;
    FactParts(fact);
    ByteCells(fact.right);
    forall x | x in left ensures !Surface(fact.right, x) {
      if Surface(fact.right, x) {
        SurfaceOccurs(fact.right, x);
      }
    }
    if fact.right in Keys(ds) {
      var d :| d in ds && EqKey(d) == fact.right;
      assert d in Members(ds);
      KeyOf(d, fact.right);
    }
    if Denied(fact, c) {
      var x :| x in c && Refutes(fact, x);
      DeterminedOccurs(fact.right, fact.left, x);
      assert x in Members(ds);
      var k :| 0 <= k < |ds| && ds[k] == x;
      assert AppliedTo(fact, ds[k], rs[k]) && Same({fact}, ds[k], rs[k]);
      RefutedFalse(fact, x, rs[k]);
      assert rs[k] in w + rs;
    }
  }

  lemma ByteCells(k: Term)
    requires InputByte(k)
    ensures ReadsCells(k)
  {
    hide WF;
    assert k in Reads(k);
    assert FootprintOf(k).Covers(Root(k), ToNat(k.index.value));
  }

  lemma {:induction false} DeterminedOccurs(k: Term, v: Term, x: Term)
    requires Determined(map[k := v], x) && !x.Constant?
    ensures Occurs(k, x)
    decreases Size(x)
  {
    hide Size, Kids;
    if !x.Read? {
      var i :| 0 <= i < |Kids(x)| && !Kids(x)[i].Constant?;
      DeterminedOccurs(k, v, Kids(x)[i]);
      KidOccurs(k, x, i);
    }
  }

  lemma RefutedFalse(fact: Formula, x: Formula, r: Formula)
    requires IsConstEq(fact) && InputByte(fact.right) && Refutes(fact, x) && AppliedTo(fact, x, r) && Same({fact}, x, r)
    ensures r == False
  {
    hide Determined, Clean, Plain, Touches, Sat;
    var a := FactHolds(fact);
    SatOne(fact, a);
    assert r.Constant? && Eval(r, a) == Eval(x, a);
    OneBit(r.value, [false]);
  }

  /** A fact about an input byte can hold. */
  lemma FactHolds(fact: Formula) returns (a: Assignment)
    requires IsConstEq(fact) && InputByte(fact.right)
    ensures Holds(fact, a)
  {
    FactParts(fact);
    var v: Byte := fact.left.value;
    a := (arr: Array, i: nat) => v;
    EqNode(fact.left, fact.right, a);
  }
}
