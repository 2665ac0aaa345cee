/** Input bytes with known values: where they occur in an expression, and which
    expressions they decide. */
module KnownBytes {
  import opened Exprs
  import opened SmartConstructors
  import opened Replacement
  import opened Footprints

  /** A byte of an input array, read at a constant index and past no write. */
  predicate InputByte(e: Expr) {
    e.Read? && e.head.NoUpdates? && e.index.Constant? && !e.root.IsConstantArray()
  }

  /** `s` occurs in `e` outside every list of writes. */
  ghost predicate Surface(s: Term, e: Term)
    decreases Size(e)
  {
    e == s ||
    if e.Constant? then false
    else if e.Read? then Surface(s, e.index)
    else exists i :: 0 <= i < |Kids(e)| && Surface(s, Kids(e)[i])
  }

  /** No byte with a known value occurs outside the lists of writes. */
  ghost predicate Clean(rules: map<Term, Term>, e: Term) {
    forall s :: s in rules && InputByte(s) ==> !Surface(s, e)
  }

  /** Every read is of a byte with a known value, nothing is marked not to be
      optimised, and no node has operands that are all constant. */
  ghost predicate Determined(rules: map<Term, Term>, e: Term)
    decreases Size(e)
  {
    if e.Constant? then true
    else if e.Read? then InputByte(e) && e in rules
    else
      && !e.NotOptimized?
      && (exists i :: 0 <= i < |Kids(e)| && !Kids(e)[i].Constant?)
      && (forall i :: 0 <= i < |Kids(e)| ==> Determined(rules, Kids(e)[i]))
  }

  /** Nothing is read past a write. */
  ghost predicate Plain(e: Term)
    decreases Size(e)
  {
    if e.Constant? then true
    else if e.Read? then e.head.NoUpdates? && Plain(e.index)
    else forall i :: 0 <= i < |Kids(e)| ==> Plain(Kids(e)[i])
  }

  lemma ConstantKnown(rules: map<Term, Term>, e: Term)
    requires e.Constant?
    ensures Clean(rules, e) && Determined(rules, e) && Plain(e)
  {
  }

  lemma ReadKnown(rules: map<Term, Term>, e: Term)
    requires e.Read?
    ensures Clean(rules, e.index) && e !in rules ==> Clean(rules, e)
    ensures Determined(rules, e) <==> InputByte(e) && e in rules
    ensures Plain(e) ==> e.head.NoUpdates? && Plain(e.index)
  {
    hide Size;
  }

  lemma NodeKnown(rules: map<Term, Term>, e: Term)
    requires !e.Constant? && !e.Read?
    ensures (forall i :: 0 <= i < |Kids(e)| ==> Clean(rules, Kids(e)[i])) && e !in rules ==> Clean(rules, e)
    ensures Determined(rules, e) ==> !e.NotOptimized? && exists i :: 0 <= i < |Kids(e)| && !Kids(e)[i].Constant?
    ensures Determined(rules, e) ==> forall i :: 0 <= i < |Kids(e)| ==> Determined(rules, Kids(e)[i])
    ensures Plain(e) ==> forall i :: 0 <= i < |Kids(e)| ==> Plain(Kids(e)[i])
  {
    hide Size, Kids;
  }

  lemma {:induction false} SurfaceOccurs(s: Term, e: Term)
    requires Surface(s, e)
    ensures Occurs(s, e)
    decreases Size(e)
  {
    hide Size;
    if e != s {
      if e.Read? {
        IndexSmaller(e);
        SurfaceOccurs(s, e.index);
      } else {
        var i :| 0 <= i < |Kids(e)| && Surface(s, Kids(e)[i]);
        SurfaceOccurs(s, Kids(e)[i]);
        KidOccurs(s, e, i);
      }
    }
  }

  lemma IndexSmaller(e: Term)
    requires e.Read?
    ensures Size(e.index) < Size(e)
  {
  }

  lemma KidOccurs(s: Term, e: Term, i: nat)
    requires !e.Constant? && !e.Read? && i < |Kids(e)| && Occurs(s, Kids(e)[i])
    ensures Occurs(s, e)
  {
    hide Size;
  }

  /** Only rules about input bytes matter. */
  lemma {:induction false} SameBytes(rules: map<Term, Term>, more: map<Term, Term>, e: Term)
    requires forall s: Term :: InputByte(s) ==> (s in rules <==> s in more)
    ensures Determined(rules, e) <==> Determined(more, e)
    ensures Clean(rules, e) <==> Clean(more, e)
    decreases Size(e)
  {
    hide Size, Kids;
    if !e.Constant? && !e.Read? {
      forall i | 0 <= i < |Kids(e)| ensures Determined(rules, Kids(e)[i]) <==> Determined(more, Kids(e)[i]) {
        SameBytes(rules, more, Kids(e)[i]);
      }
    }
  }
}
