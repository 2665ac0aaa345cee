/** `findReads` of lib/Expr/ExprUtil.cpp: the search for the reads in an expression,
    with or without those in its lists of writes, visits each shared part once. */
module ReadSearch {
  import opened Exprs
  import opened SmartConstructors
  import opened Replacement
  import opened Footprints
  import opened KnownBytes
  import opened Sequences

  /** The operands of the writes of a list. */
  function Writes(u: WriteList): (k: seq<Term>)
    ensures forall x :: x in k ==> Size(x) <= UpdatesSize(u)
  {
    if u.NoUpdates? then [] else [u.index, u.value] + Writes(u.next)
  }

  /** What the search goes on to from a node. */
  function Onward(updates: bool, e: Term): (k: seq<Term>)
    requires !e.Constant?
    ensures forall x :: x in k ==> Size(x) < Size(e)
  {
    if e.Read? then [e.index] + if updates then Writes(e.head) else [] else Kids(e)
  }

  ghost function Parts(updates: bool, e: Term): (s: set<Term>)
    ensures e in s
    decreases Size(e)
  {
    {e} + if e.Constant? then {} else set k, x | k in Onward(updates, e) && x in Parts(updates, k) :: x
  }

  // ----- parts are what occurs -----

  lemma {:induction false} WritesOccur(u: WriteList, s: Term)
    ensures OccursInList(s, u) <==> exists k :: k in Writes(u) && Occurs(s, k)
  {
    hide Occurs;
    if u.Update? {
      WritesOccur(u.next, s);
      assert Writes(u) == [u.index, u.value] + Writes(u.next);
      assert u.index in Writes(u) && u.value in Writes(u);
    }
  }

  lemma KidsOccur(e: Term, s: Term)
    requires !e.Constant? && !e.Read?
    ensures Occurs(s, e) <==> e == s || exists k :: k in Kids(e) && Occurs(s, k)
  {
    hide Size;
    var k := Kids(e);
    assert k[0] in k && (|k| > 1 ==> k[1] in k) && (|k| > 2 ==> k[2] in k);
  }

  lemma OccursOnward(e: Term, s: Term)
    requires !e.Constant?
    ensures Occurs(s, e) <==> e == s || exists k :: k in Onward(true, e) && Occurs(s, k)
  {
    hide Occurs, OccursInList, Kids, Writes;
    if e.Read? {
      WritesOccur(e.head, s);
      ReadOccurs(e, s);
      assert forall k :: k in Onward(true, e) <==> k == e.index || k in Writes(e.head);
    } else {
      KidsOccur(e, s);
    }
  }

  lemma ReadOccurs(e: Term, s: Term)
    requires e.Read?
    ensures Occurs(s, e) <==> e == s || Occurs(s, e.index) || OccursInList(s, e.head)
  {
  }

  lemma ConstantOccurs(e: Term, s: Term)
    requires e.Constant?
    ensures Occurs(s, e) <==> s == e
    ensures Surface(s, e) <==> s == e
  {
  }

  lemma {:induction false} AllParts(e: Term, s: Term)
    ensures s in Parts(true, e) <==> Occurs(s, e)
    decreases Size(e)
  {
    hide Occurs, Onward, Size;
    if e.Constant? {
      ConstantOccurs(e, s);
    } else {
      OccursOnward(e, s);
      forall k | k in Onward(true, e) ensures s in Parts(true, k) <==> Occurs(s, k) {
        AllParts(k, s);
      }
    }
  }

  lemma {:induction false} SurfaceParts(e: Term, s: Term)
    ensures s in Parts(false, e) <==> Surface(s, e)
    decreases Size(e)
  {
    hide Size, Kids;
    if e.Constant? {
      ConstantOccurs(e, s);
    } else {
      forall k | k in Onward(false, e) ensures s in Parts(false, k) <==> Surface(s, k) {
        SurfaceParts(k, s);
      }
      assert e.Read? ==> forall k :: k in Onward(false, e) <==> k == e.index;
      assert !e.Read? ==> forall k :: k in Onward(false, e) <==> exists i :: 0 <= i < |Kids(e)| && k == Kids(e)[i];
    }
  }

  // ----- the search -----

  /** The terms on the stack and those met so far; whatever left the stack has had its
      operands met. */
  ghost predicate Searching(updates: bool, e: Term, stack: seq<Term>, visited: set<Term>, results: seq<Term>) {
    && NoRepeats(stack) && NoRepeats(results) && visited <= Parts(updates, e)
    && (forall x :: x in stack ==> x in visited)
    && (forall x :: x in visited ==> !x.Constant? && (x !in stack ==> Met(visited, Onward(updates, x))))
    && (forall x :: x in results <==> x in visited && x !in stack && x.Read?)
  }

  ghost predicate Met(visited: set<Term>, ks: seq<Term>) {
    forall k :: k in ks ==> k.Constant? || k in visited
  }

  /** Push what has not been met. */
  method Push(ks: seq<Term>, stack: seq<Term>, visited: set<Term>) returns (more: seq<Term>, met: set<Term>)
    requires NoRepeats(stack) && forall x :: x in stack ==> x in visited
    ensures stack <= more && NoRepeats(more) && Met(met, ks) && visited <= met
    ensures forall x :: x in met ==> x in visited || (x in ks && !x.Constant?)
    ensures forall x :: x in more <==> x in stack || (x in met && x !in visited)
    ensures met == visited ==> more == stack
  {
    more, met := stack, visited;
    for i := 0 to |ks|
      invariant stack <= more && NoRepeats(more) && visited <= met
      invariant forall j :: 0 <= j < i ==> ks[j].Constant? || ks[j] in met
      invariant forall x :: x in met ==> x in visited || (x in ks && !x.Constant?)
      invariant forall x :: x in more <==> x in stack || (x in met && x !in visited)
      invariant met == visited ==> more == stack
    {
      if !ks[i].Constant? && ks[i] !in met {
        more, met := more + [ks[i]], met + {ks[i]};
      }
    }
  }

  /** Operands of a part are parts. */
  lemma PartsOnward(updates: bool, e: Term, x: Term)
    requires x in Parts(updates, e) && !x.Constant?
    ensures forall k :: k in Onward(updates, x) ==> k in Parts(updates, e)
    decreases Size(e)
  {
    hide Onward, Size;
    if x == e {
      forall k | k in Onward(updates, e) ensures k in Parts(updates, e) {
        assert k in Parts(updates, k);
      }
    } else {
      var k :| k in Onward(updates, e) && x in Parts(updates, k);
      PartsOnward(updates, k, x);
    }
  }

  /** A set closed under operands has every part that is not constant. */
  lemma {:induction false} Closed(updates: bool, e: Term, visited: set<Term>, x: Term)
    requires e in visited && x in Parts(updates, e) && !x.Constant?
    requires forall y :: y in visited ==> !y.Constant? && Met(visited, Onward(updates, y))
    ensures x in visited
    decreases Size(e)
  {
    hide Onward, Size;
    if x != e {
      var k :| k in Onward(updates, e) && x in Parts(updates, k);
      if !k.Constant? {
        Closed(updates, k, visited, x);
      }
    }
  }

  /** `findReads`: the reads that occur in the expression, or only those outside its
      lists of writes, each once. */
  method FindReads(e: Term, updates: bool) returns (results: seq<Term>)
    ensures NoRepeats(results)
    ensures forall r: Term :: r in results <==> r.Read? && if updates then Occurs(r, e) else Surface(r, e)
    ensures updates ==> Elements(results) == Reads(e)
  {
    hide Onward, Occurs, Surface, Size, Parts, Reads;
    results := [];
    var stack: seq<Term>, visited: set<Term>, heads: set<WriteList> := [], {}, {};
    if !e.Constant? {
      stack, visited := [e], {e};
    }
    while stack != []
      invariant Searching(updates, e, stack, visited, results) && (!e.Constant? ==> e in visited)
      invariant forall h :: h in heads ==> Met(visited, Writes(h))
      decreases Parts(updates, e) - visited, |stack|
    {
      stack, visited, heads, results := Turn(e, updates, stack, visited, heads, results);
    }
    forall r: Term
      ensures r in results <==> r.Read? && if updates then Occurs(r, e) else Surface(r, e)
      ensures updates ==> (r in results <==> r in Reads(e))
    {
      AllParts(e, r);
      SurfaceParts(e, r);
      ReadsOccur(e, r);
      if e.Constant? {
        ConstantOccurs(e, r);
      } else if r in Parts(updates, e) && !r.Constant? {
        Closed(updates, e, visited, r);
      }
    }
  }

  /** One turn of the loop. */
  method Turn(ghost e: Term, updates: bool, stack: seq<Term>, visited: set<Term>, heads: set<WriteList>, results: seq<Term>)
    returns (more: seq<Term>, met: set<Term>, seen: set<WriteList>, found: seq<Term>)
    requires stack != [] && Searching(updates, e, stack, visited, results)
    requires forall h :: h in heads ==> Met(visited, Writes(h))
    ensures Searching(updates, e, more, met, found) && visited <= met && (visited == met ==> |more| < |stack|)
    ensures var top := stack[|stack| - 1]; seen == if updates && top.Read? then heads + {top.head} else heads
    ensures forall h :: h in seen ==> Met(met, Writes(h))
  {
    hide Parts, Writes, Kids, Size, Searching, Onward;
    var top, rest := stack[|stack| - 1], stack[..|stack| - 1];
    Popped(updates, e, stack, visited, results);
    seen, found := heads, results;
    if top.Read? {
      found := found + [top];
      more, met := Push([top.index], rest, visited);
      if updates && top.head !in seen {
        seen := seen + {top.head};
        more, met := Push(Writes(top.head), more, met);
      }
    } else {
      more, met := Push(Kids(top), rest, visited);
    }
    OnwardIs(updates, top);
    Turned(updates, e, stack, visited, results, more, met);
  }

  lemma OnwardIs(updates: bool, e: Term)
    requires !e.Constant?
    ensures e.Read? ==> forall k :: k in Onward(updates, e) <==> k == e.index || (updates && k in Writes(e.head))
    ensures !e.Read? ==> Onward(updates, e) == Kids(e)
  {
  }

  lemma Popped(updates: bool, e: Term, stack: seq<Term>, visited: set<Term>, results: seq<Term>)
    requires stack != [] && Searching(updates, e, stack, visited, results)
    ensures var top, rest := stack[|stack| - 1], stack[..|stack| - 1];
            && !top.Constant? && NoRepeats(rest) && (forall x :: x in rest ==> x in visited)
            && (forall x :: x in stack <==> x in rest || x == top) && top !in rest
  {
    hide Parts, Onward;
  }

  /** A turn that has met the operands of the top goes on searching. */
  lemma Turned(updates: bool, e: Term, stack: seq<Term>, visited: set<Term>, results: seq<Term>,
               more: seq<Term>, met: set<Term>)
    requires stack != [] && Searching(updates, e, stack, visited, results) && !stack[|stack| - 1].Constant?
    requires NoRepeats(more) && visited <= met && Met(met, Onward(updates, stack[|stack| - 1]))
    requires forall x :: x in met ==> x in visited || (x in Onward(updates, stack[|stack| - 1]) && !x.Constant?)
    requires forall x :: x in more <==> x in stack[..|stack| - 1] || (x in met && x !in visited)
    ensures var top := stack[|stack| - 1]; Searching(updates, e, more, met, if top.Read? then results + [top] else results)
  {
    hide Parts, Onward;
    var top := stack[|stack| - 1];
    PartsOnward(updates, e, top);
    Popped(updates, e, stack, visited, results);
    forall x | x in met && x !in more ensures Met(met, Onward(updates, x)) {
      if x != top {
        assert x in visited && x !in stack;
        assert Met(visited, Onward(updates, x));
      }
    }
  }
}
