/** The replacing visitors of lib/Expr/ExprReplaceVisitor.cpp over the traversal
    of lib/Expr/ExprVisitor.cpp: memoised, revisiting what they rebuilt, with an
    explicit stack for update lists. */
module ReplaceVisitors {
  import opened Exprs
  import opened SmartConstructors
  import opened ArrayReads
  import opened Weights
  import opened PointReads
  import opened Irreducibles
  import opened Replacement
  import opened Footprints
  import opened KnownBytes

  /** Every rule replaces a term by a constant of equal value. */
  ghost predicate RulesHold(c: set<Formula>, rules: map<Term, Term>) {
    forall k :: k in rules ==> rules[k].Constant? && Same(c, k, rules[k])
  }

  /** Applying a rule makes a symbolic term lighter. */
  lemma RuleStands(c: set<Formula>, rules: map<Term, Term>, e: Term)
    requires RulesHold(c, rules) && e in rules && !e.Constant?
    ensures Stands(c, e, rules[e]) && rules[e].Constant?
  {
    hide Same;
  }

  /** A symbolic term that some rule replaces occurs in `e`. */
  ghost predicate Touches(rules: map<Term, Term>, e: Term) {
    exists s: Term :: s in rules && !s.Constant? && Occurs(s, e)
  }

  ghost predicate TouchesList(rules: map<Term, Term>, u: WriteList) {
    exists s: Term :: s in rules && !s.Constant? && OccursInList(s, u)
  }

  lemma ConstantUntouched(rules: map<Term, Term>, e: Term)
    requires e.Constant?
    ensures !Touches(rules, e)
  {
  }

  /** What a rule touches below a node, it touches in an operand. */
  lemma KidTouched(rules: map<Term, Term>, e: Term)
    requires !e.Constant? && !e.Read? && e !in rules && Touches(rules, e)
    ensures exists i :: 0 <= i < |Kids(e)| && Touches(rules, Kids(e)[i])
  {
    var s: Term :| s in rules && !s.Constant? && Occurs(s, e);
    var i := OccursKid(s, e);
    assert Touches(rules, Kids(e)[i]);
  }

  lemma OccursKid(s: Term, e: Term) returns (i: nat)
    requires !e.Constant? && !e.Read? && e != s && Occurs(s, e)
    ensures i < |Kids(e)| && Occurs(s, Kids(e)[i])
  {
    hide Weight, Size;
    if e.Select? {
      assert Kids(e) == [e.cond, e.trueExpr, e.falseExpr];
      i := if Occurs(s, e.cond) then 0 else if Occurs(s, e.trueExpr) then 1 else 2;
    } else if e.Concat? || e.Binary? {
      assert Kids(e) == [e.left, e.right];
      i := if Occurs(s, e.left) then 0 else 1;
    } else {
      i := 0;
    }
  }

  lemma ReadTouched(rules: map<Term, Term>, e: Term)
    requires e.Read? && e !in rules && Touches(rules, e)
    ensures Touches(rules, e.index) || TouchesList(rules, e.head)
  {
    var s: Term :| s in rules && !s.Constant? && Occurs(s, e);
    assert Occurs(s, e.index) || OccursInList(s, e.head);
  }

  lemma WriteTouched(rules: map<Term, Term>, u: WriteList)
    requires u.Update? && TouchesList(rules, u)
    ensures Touches(rules, u.index) || Touches(rules, u.value) || TouchesList(rules, u.next)
  {
    var s: Term :| s in rules && !s.Constant? && OccursInList(s, u);
    assert Occurs(s, u.index) || Occurs(s, u.value) || OccursInList(s, u.next);
  }

  /** The update nodes seen so far; shared by the visitors of one manager. */
  class UpdateMemo {
    var visitedUN: map<WriteList, WriteList>
    var replacedUN: map<WriteList, WriteList>

    /** Memoised lists may stand for the lists they replace; equal lists are
        represented by themselves. */
    ghost predicate Valid(c: set<Formula>)
      reads this
    {
      && (forall u :: u in visitedUN ==> StandsList(c, u, visitedUN[u]))
      && (forall u :: u in replacedUN ==> replacedUN[u] == u)
    }

    /** Rules touch nothing in the lists remembered. */
    ghost predicate Thorough(rules: map<Term, Term>)
      reads this
    {
      forall u :: u in visitedUN ==> !TouchesList(rules, visitedUN[u])
    }

    constructor ()
      ensures visitedUN == map[] && replacedUN == map[] && forall c :: Valid(c)
    {
      visitedUN, replacedUN := map[], map[];
    }

    method Clear(ghost c: set<Formula>)
      requires Valid(c)
      modifies this
      ensures visitedUN == map[] && replacedUN == old(replacedUN)
      ensures (forall d :: Valid(d)) && forall rules :: Thorough(rules)
    {
      visitedUN := map[];
    }

    lemma MoreConstraints(c: set<Formula>, d: set<Formula>)
      requires Valid(c) && forall a: Assignment :: Sat(d, a) ==> Sat(c, a)
      ensures Valid(d)
    {
      hide StandsList, Sat;
      forall u | u in visitedUN ensures StandsList(d, u, visitedUN[u]) {
        SameListMore(c, d, u, visitedUN[u]);
      }
    }

    /** Remember `v` for `u`, through the table of known lists. */
    method Remember(u: WriteList, v: WriteList, ghost rules: map<Term, Term>, ghost c: set<Formula>) returns (w: WriteList)
      requires Valid(c) && StandsList(c, u, v)
      modifies this
      ensures Valid(c) && w == v && visitedUN == old(visitedUN)[u := v]
      ensures replacedUN == if v == u then old(replacedUN) else old(replacedUN)[v := v]
      ensures old(Thorough(rules)) && !TouchesList(rules, v) ==> Thorough(rules)
    {
      hide StandsList, TouchesList;
      w := v;
      if v != u {
        if v in replacedUN {
          w := replacedUN[v];
        } else {
          replacedUN := replacedUN[v := v];
        }
      }
      visitedUN := visitedUN[u := w];
    }
  }

  /** The stack of `visitUpdateNode`: consecutive tails of one list. */
  ghost predicate Chain(un: WriteList, worklist: seq<WriteList>) {
    && (worklist != [] ==> worklist[0] == un)
    && (forall k :: 0 <= k < |worklist| ==> worklist[k].Update?)
    && (forall k :: 0 <= k < |worklist| - 1 ==> worklist[k].next == worklist[k + 1])
  }

  /** `next` stands for everything after the write at the head of `n`. */
  ghost predicate RestDone(c: set<Formula>, n: WriteList, next: WriteList) {
    n.Update? && StandsList(c, n.next, next)
  }

  /** What the memo and a visit promise for `e` whatever else is remembered: no known
      byte is left outside the lists of writes, known bytes decide what they can, and
      what no rule touches stays as it is. */
  ghost predicate Resolved(rules: map<Term, Term>, e: Term, r: Term) {
    && Clean(rules, r)
    && (Determined(rules, e) ==> r.Constant?)
    && (Plain(e) && !Touches(rules, e) ==> r == e)
  }

  /** The same before a rule is applied to the node itself. */
  ghost predicate OperandsResolved(rules: map<Term, Term>, e: Term, r: Term) {
    && (r == e && e !in rules ==> Clean(rules, e))
    && (Determined(rules, e) ==> if e.Read? then r == e else r.Constant?)
    && (Plain(e) && !Touches(rules, e) ==> r == e)
  }

  lemma ConstantResolved(rules: map<Term, Term>, e: Term)
    requires e.Constant?
    ensures Resolved(rules, e, e) && !Touches(rules, e)
  {
    ConstantKnown(rules, e);
    ConstantUntouched(rules, e);
  }

  lemma RuleResolved(rules: map<Term, Term>, e: Term, r: Term)
    requires e in rules && !e.Constant? && r.Constant?
    ensures Resolved(rules, e, r) && !Touches(rules, r)
  {
    ConstantKnown(rules, r);
    ConstantUntouched(rules, r);
    SelfTouched(rules, e);
  }

  lemma SelfTouched(rules: map<Term, Term>, e: Term)
    requires e in rules && !e.Constant?
    ensures Touches(rules, e)
  {
    assert Occurs(e, e);
  }

  /** A node whose operands are done, after the rebuilt one has been visited. */
  lemma VisitedResolved(rules: map<Term, Term>, e: Term, m: Term, r: Term)
    requires OperandsResolved(rules, e, m) && m != e && Resolved(rules, m, r)
    ensures Resolved(rules, e, r)
  {
    if m.Constant? {
      ConstantKnown(rules, m);
    }
  }

  lemma UnchangedResolved(rules: map<Term, Term>, e: Term)
    requires OperandsResolved(rules, e, e) && e !in rules && !e.Constant?
    ensures Resolved(rules, e, e)
  {
    if e.Read? {
      ReadKnown(rules, e);
    }
  }

  lemma AppliedResolved(rules: map<Term, Term>, e: Term, r: Term, v: Term)
    requires r in rules && !r.Constant? && v.Constant? && (r == e || Resolved(rules, e, r))
    ensures Resolved(rules, e, v) && !Touches(rules, v)
  {
    ConstantKnown(rules, v);
    ConstantUntouched(rules, v);
    SelfTouched(rules, r);
  }

  /** Reads: the index and the list of writes are done. */
  lemma ReadResolved(rules: map<Term, Term>, e: Term, index: Term, head: WriteList, m: Term)
    requires e.Read? && Resolved(rules, e.index, index) && (e.head.NoUpdates? ==> head == e.head)
    requires e.index.Constant? ==> index == e.index
    requires m == e <==> index == e.index && head == e.head
    ensures OperandsResolved(rules, e, m)
  {
    hide Clean, Determined, Plain, Touches;
    ReadKnown(rules, e);
    if !Touches(rules, e) {
      IndexUntouched(rules, e);
    }
  }

  lemma IndexUntouched(rules: map<Term, Term>, e: Term)
    requires e.Read? && !Touches(rules, e)
    ensures !Touches(rules, e.index)
  {
    forall s: Term | s in rules && !s.Constant? ensures !Occurs(s, e.index) {
      assert !Occurs(s, e);
    }
  }

  /** Other nodes: every operand is done. */
  lemma NodeResolved(rules: map<Term, Term>, e: Term, kids: seq<Term>, m: Term)
    requires !e.Constant? && !e.Read? && Fits(e, kids) && forall i :: 0 <= i < |kids| ==> Resolved(rules, Kids(e)[i], kids[i])
    requires if kids == Kids(e) then m == e else m == Rebuild(e, kids) != e
    ensures OperandsResolved(rules, e, m)
  {
    hide Clean, Determined, Plain, Touches, Kids, Rebuild, Width;
    NodeKnown(rules, e);
    if Determined(rules, e) {
      var i :| 0 <= i < |Kids(e)| && !Kids(e)[i].Constant?;
      assert kids[i].Constant? && kids != Kids(e);
      RebuildConstant(e, kids);
    }
    if !Touches(rules, e) {
      KidsUntouched(rules, e);
      if Plain(e) {
        assert kids == Kids(e);
      }
    }
  }

  lemma KidsUntouched(rules: map<Term, Term>, e: Term)
    requires !e.Constant? && !e.Read? && !Touches(rules, e)
    ensures forall i :: 0 <= i < |Kids(e)| ==> !Touches(rules, Kids(e)[i])
  {
    hide Kids, Occurs;
    forall i, s: Term | 0 <= i < |Kids(e)| && s in rules && !s.Constant? ensures !Occurs(s, Kids(e)[i]) {
      if Occurs(s, Kids(e)[i]) {
        KidOccurs(s, e, i);
      }
    }
  }

  lemma ReadTouchedParts(rules: map<Term, Term>, e: Term)
    requires e.Read? && WF(e.index) && WFUpdates(e.head)
    ensures e !in rules && Touches(rules, e) ==> Touches(rules, e.index) || TouchesList(rules, e.head)
    ensures e.head.NoUpdates? ==> !TouchesList(rules, e.head)
  {
    if e !in rules && Touches(rules, e) {
      ReadTouched(rules, e);
    }
  }

  lemma KidsTouched(rules: map<Term, Term>, e: Term)
    requires !e.Constant? && !e.Read?
    ensures (forall j :: 0 <= j < |Kids(e)| ==> !Touches(rules, Kids(e)[j])) && e !in rules ==> !Touches(rules, e)
  {
    hide Touches, Kids;
    if e !in rules && Touches(rules, e) {
      KidTouched(rules, e);
    }
  }

  lemma WriteUntouched(rules: map<Term, Term>, index: Term, value: Term, next: WriteList)
    requires WFUpdates(Update(index, value, next))
    ensures !Touches(rules, index) && !Touches(rules, value) && !TouchesList(rules, next) ==>
              !TouchesList(rules, Update(index, value, next))
  {
    hide Touches, TouchesList;
    if TouchesList(rules, Update(index, value, next)) {
      WriteTouched(rules, Update(index, value, next));
    }
  }

  lemma EmptyUntouched(rules: map<Term, Term>)
    ensures !TouchesList(rules, NoUpdates)
  {
  }

  lemma StartChain(un: WriteList)
    requires un.Update?
    ensures Chain(un, [un])
  {
  }

  /** What popping or pushing at the end of the stack keeps. */
  lemma {:induction false} ChainTop(un: WriteList, worklist: seq<WriteList>)
    requires Chain(un, worklist) && worklist != []
    ensures var n := worklist[|worklist| - 1];
            && n.Update? && ListWeight(n) <= ListWeight(un) && UpdatesSize(n) <= UpdatesSize(un)
            && Length(n) == 1 + Length(n.next)
            && WFUpdates(n.next) && (n.next.Update? ==> Chain(un, worklist + [n.next]))
            && Chain(un, worklist[..|worklist| - 1])
            && (|worklist| == 1 ==> n == un)
            && (|worklist| > 1 ==> worklist[|worklist| - 2].Update? && worklist[|worklist| - 2].next == n)
  {
    hide Weight, Size, WF;
    var n := worklist[|worklist| - 1];
    UpdateKids(n);
    if |worklist| > 1 {
      ChainTop(un, worklist[..|worklist| - 1]);
      UpdateKids(worklist[|worklist| - 2]);
      assert worklist[|worklist| - 2].next == n;
    }
  }

  // ----- small steps of the traversal -----

  lemma ChangedStands(c: set<Formula>, e: Term, m: Term, r: Term)
    requires Same(c, e, m) && m != e && Weight(m) < Weight(e) && Keeps(e, m) && Stands(c, m, r)
    ensures Stands(c, e, r) && r != e
  {
    hide Same, Weight, Pointwise, Irreducible;
    SameTrans(c, e, m, r);
  }

  lemma ReadParts(e: Term)
    requires e.Read?
    ensures WF(e.index) && Width(e.index) == INT32 && WFUpdates(e.head) && e.root.Valid()
    ensures Weight(e.index) < Weight(e) && ListWeight(e.head) < Weight(e)
  {
  }

  lemma SameListSelf(c: set<Formula>, u: WriteList)
    ensures StandsList(c, u, u)
  {
    hide ReadAt, ListWeight, Sat;
  }

  lemma SameValue(c: set<Formula>, e: Term)
    ensures Same(c, e, e) && Keeps(e, e)
  {
    hide Eval, Sat, WF, Pointwise, Irreducible;
  }

  lemma StandNone(c: set<Formula>, e: Term)
    requires !e.Constant? && !e.Read?
    ensures StandAll(c, e, Kids(e), 0)
  {
  }

  lemma AddStand(c: set<Formula>, e: Term, kids: seq<Term>, i: nat, kid: Term)
    requires !e.Constant? && !e.Read? && i < |kids| == |Kids(e)| && StandAll(c, e, kids, i) && Stands(c, Kids(e)[i], kid)
    ensures StandAll(c, e, kids[i := kid], i + 1)
  {
    hide Kids, Stands, WF;
  }

  lemma StandFits(c: set<Formula>, e: Term, kids: seq<Term>)
    requires !e.Constant? && !e.Read? && |kids| == |Kids(e)| && StandAll(c, e, kids, |kids|)
    ensures Fits(e, kids)
  {
    hide Kids, Weight, Size;
  }

  class ReplaceVisitor {
    const memo: UpdateMemo
    /** Whether a term is looked up before its operands are visited. */
    const eager: bool
    var visited: map<Term, Term>

    ghost predicate Valid(c: set<Formula>)
      reads this, memo
    {
      memo.Valid(c) && forall e :: e in visited ==> Stands(c, e, visited[e])
    }

    /** Rules touch nothing that is remembered. */
    ghost predicate Thorough(rules: map<Term, Term>)
      reads this, memo
    {
      memo.Thorough(rules) && forall e :: e in visited ==> !Touches(rules, visited[e])
    }

    /** What is remembered keeps the promises of a visit. */
    ghost predicate Deciding(rules: map<Term, Term>)
      reads this
    {
      forall e :: e in visited ==> Resolved(rules, e, visited[e])
    }

    constructor (memo: UpdateMemo, eager: bool)
      ensures this.memo == memo && this.eager == eager && visited == map[]
      ensures forall c :: memo.Valid(c) ==> Valid(c)
      ensures forall rules :: Deciding(rules) && (memo.Thorough(rules) ==> Thorough(rules))
    {
      this.memo, this.eager, visited := memo, eager, map[];
    }

    method ResetVisited()
      modifies this
      ensures visited == map[] && (forall c :: memo.Valid(c) ==> Valid(c)) && forall rules :: Deciding(rules)
    {
      visited := map[];
    }

    lemma MemoValid(c: set<Formula>)
      ensures Valid(c) ==> memo.Valid(c)
      ensures visited == map[] && memo.Valid(c) ==> Valid(c)
    {
    }

    /** What stands under some constraints stands under more of them. */
    lemma MoreConstraints(c: set<Formula>, d: set<Formula>)
      requires Valid(c) && forall a: Assignment :: Sat(d, a) ==> Sat(c, a)
      ensures Valid(d)
    {
      hide Stands, StandsList, Sat;
      memo.MoreConstraints(c, d);
      forall e | e in visited ensures Stands(d, e, visited[e]) {
        SameMore(c, d, e, visited[e]);
      }
    }

    /** Rules about input bytes are what matters to a memo. */
    lemma MoreRules(rules: map<Term, Term>, more: map<Term, Term>)
      requires Deciding(rules) && rules.Keys <= more.Keys
      requires forall s: Term :: InputByte(s) ==> (s in rules <==> s in more)
      ensures Deciding(more)
    {
      hide Clean, Determined, Plain, Occurs;
      forall e | e in visited ensures Resolved(more, e, visited[e]) {
        SameBytes(rules, more, e);
        SameBytes(rules, more, visited[e]);
        assert Touches(rules, e) ==> Touches(more, e);
      }
    }

    /** The replaced term stands for the original under the constraints, for any
        valid memo, and is lighter whenever it differs. No rule touches it unless
        rules touch what is remembered; and what known bytes decide is decided even
        then. */
    method Visit(e: Term, rules: map<Term, Term>, ghost c: set<Formula>) returns (r: Term)
      requires Valid(c) && RulesHold(c, rules)
      modifies this, memo
      ensures Valid(c) && Stands(c, e, r)
      ensures e.Constant? ==> r == e
      ensures !e.Constant? ==> e in visited && visited[e] == r && (e in old(visited) ==> r == old(visited)[e])
      ensures old(Thorough(rules)) ==> Thorough(rules) && !Touches(rules, r)
      ensures old(Deciding(rules)) ==> Deciding(rules) && Resolved(rules, e, r)
      decreases Weight(e), Size(e), 2
    {
      hide Weight, Size, Stands, UpdateMemo.Valid, UpdateMemo.Thorough, RulesHold, Touches, Resolved;
      if e.Constant? {
        ConstantResolved(rules, e);
        SameSelf(c, e);
        return e;
      }
      if e in visited {
        return visited[e];
      }
      r := VisitActual(e, rules, c);
      visited := visited[e := r];
    }

    method VisitActual(e: Term, rules: map<Term, Term>, ghost c: set<Formula>) returns (r: Term)
      requires Valid(c) && RulesHold(c, rules) && !e.Constant?
      modifies this, memo
      ensures Valid(c) && Stands(c, e, r)
      ensures old(Thorough(rules)) ==> Thorough(rules) && !Touches(rules, r)
      ensures old(Deciding(rules)) ==> Deciding(rules) && Resolved(rules, e, r)
      decreases Weight(e), Size(e), 1
    {
      hide *;
      if eager && e in rules {
        RuleStands(c, rules, e);
        RuleResolved(rules, e, rules[e]);
        return rules[e];
      }
      var rebuilt := VisitOperands(e, rules, c);
      r := rebuilt;
      if r != e {
        r := Visit(r, rules, c);
        ChangedStands(c, e, rebuilt, r);
        if old(Deciding(rules)) {
          VisitedResolved(rules, e, rebuilt, r);
        }
      } else {
        SameSelf(c, e);
      }
      if !r.Constant? && r in rules {
        RuleStands(c, rules, r);
        SameTrans(c, e, r, rules[r]);
        if old(Deciding(rules)) {
          AppliedResolved(rules, e, r, rules[r]);
        }
        RuleResolved(rules, r, rules[r]);
        r := rules[r];
      } else if r == e && old(Deciding(rules)) {
        UnchangedResolved(rules, e);
      }
    }

    /** Visit the operands and rebuild the node if one of them changed. */
    method VisitOperands(e: Term, rules: map<Term, Term>, ghost c: set<Formula>) returns (r: Term)
      requires Valid(c) && RulesHold(c, rules) && !e.Constant?
      modifies this, memo
      ensures Valid(c) && Same(c, e, r) && (r != e ==> Weight(r) < Weight(e)) && Keeps(e, r)
      ensures old(Thorough(rules)) ==> Thorough(rules) && (r == e && e !in rules ==> !Touches(rules, e))
      ensures old(Deciding(rules)) ==> Deciding(rules) && OperandsResolved(rules, e, r)
      decreases Weight(e), Size(e), 0
    {
      hide *;
      if e.Read? {
        ReadParts(e);
        ReadTouchedParts(rules, e);
        var index := Visit(e.index, rules, c);
        var head := e.head;
        if head.Update? {
          head := VisitUpdateNode(head, rules, c);
        } else {
          SameListSelf(c, head);
        }
        if index != e.index || head != e.head {
          RebuildRead(c, e, head, index);
          r := ReadExprCreate(e.root, head, index);
        } else {
          r := e;
          SameValue(c, e);
        }
        if old(Deciding(rules)) {
          ReadResolved(rules, e, index, head, r);
        }
      } else {
        var own: seq<Term> := Kids(e);
        var kids: seq<Term> := own;
        StandNone(c, e);
        for i := 0 to |own|
          invariant Valid(c) && |kids| == |own| && StandAll(c, e, kids, i)
          invariant old(Thorough(rules)) ==> Thorough(rules)
          invariant old(Deciding(rules)) ==> Deciding(rules)
          invariant old(Thorough(rules)) ==> forall j :: 0 <= j < i ==> !Touches(rules, kids[j])
          invariant old(Deciding(rules)) ==> forall j :: 0 <= j < i ==> Resolved(rules, own[j], kids[j])
        {
          var kid := Visit(own[i], rules, c);
          AddStand(c, e, kids, i, kid);
          kids := kids[i := kid];
        }
        KidsTouched(rules, e);
        if kids != own {
          RebuildStands(c, e, kids);
          r := Rebuild(e, kids);
        } else {
          r := e;
          SameValue(c, e);
        }
        if old(Deciding(rules)) {
          StandFits(c, e, kids);
          NodeResolved(rules, e, kids, r);
        }
      }
    }

    /** `visitUpdateNode`: an explicit stack of nodes with a flag each, telling
        whether the rest of the list has been pushed. */
    method VisitUpdateNode(un: WriteList, rules: map<Term, Term>, ghost c: set<Formula>) returns (nextUN: WriteList)
      requires Valid(c) && RulesHold(c, rules) && un.Update?
      modifies this, memo
      ensures Valid(c) && StandsList(c, un, nextUN)
      ensures old(Thorough(rules)) ==> Thorough(rules) && !TouchesList(rules, nextUN)
      ensures old(Deciding(rules)) ==> Deciding(rules)
      decreases ListWeight(un), UpdatesSize(un), 1
    {
      hide StandsList, Stands, RulesHold, Valid, Thorough, Deciding, TouchesList, Chain, Length, ListWeight, UpdatesSize, WF;
      var worklist: seq<WriteList> := [un];
      var flags: seq<bool> := [false];
      nextUN := NoUpdates;
      StartChain(un);
      EmptyUntouched(rules);
      while worklist != []
        invariant |flags| == |worklist| && Chain(un, worklist)
        invariant forall k :: 0 <= k < |flags| - 1 ==> flags[k]
        invariant Valid(c)
        invariant worklist != [] && flags[|flags| - 1] ==> RestDone(c, worklist[|worklist| - 1], nextUN)
        invariant worklist == [] ==> StandsList(c, un, nextUN)
        invariant old(Thorough(rules)) ==> Thorough(rules) && !TouchesList(rules, nextUN)
        invariant old(Deciding(rules)) ==> Deciding(rules)
        decreases if worklist != [] && !flags[|flags| - 1] then |worklist| + 2 * Length(worklist[|worklist| - 1]) else |worklist|
      {
        var top := |worklist| - 1;
        var n := worklist[top];
        ChainTop(un, worklist);
        if !flags[top] {
          if n in memo.visitedUN {
            MemoHolds(c, n, rules);
            worklist, flags := worklist[..top], flags[..top];
            nextUN := memo.visitedUN[n];
          } else {
            flags := flags[top := true];
            if n.next.NoUpdates? {
              nextUN := NoUpdates;
              SameListSelf(c, n.next);
            } else {
              worklist, flags := worklist + [n.next], flags + [false];
            }
          }
        } else {
          var newUN := VisitWrite(n, nextUN, rules, c);
          nextUN := newUN;
          worklist, flags := worklist[..top], flags[..top];
        }
      }
    }

    /** Rebuild one write over the rest of the list, already replaced. */
    method VisitWrite(n: WriteList, next: WriteList, rules: map<Term, Term>, ghost c: set<Formula>)
      returns (r: WriteList)
      requires Valid(c) && RulesHold(c, rules) && n.Update? && StandsList(c, n.next, next)
      modifies this, memo
      ensures Valid(c) && StandsList(c, n, r) && n in memo.visitedUN && memo.visitedUN[n] == r
      ensures old(Thorough(rules)) && !TouchesList(rules, next) ==> Thorough(rules) && !TouchesList(rules, r)
      ensures old(Deciding(rules)) ==> Deciding(rules)
      decreases ListWeight(n), UpdatesSize(n), 0
    {
      hide *;
      UpdateKids(n);
      SameSelf(c, n.index);
      SameSelf(c, n.value);
      var index, value := n.index, n.value;
      if !n.index.Constant? {
        index := Visit(n.index, rules, c);
      } else {
        ConstantUntouched(rules, n.index);
      }
      if !n.value.Constant? {
        value := Visit(n.value, rules, c);
      } else {
        ConstantUntouched(rules, n.value);
      }
      RebuildWrite(c, n, index, value, next);
      WriteUntouched(rules, index, value, next);
      r := RememberWrite(n, Update(index, value, next), rules, c);
    }

    method RememberWrite(n: WriteList, v: WriteList, ghost rules: map<Term, Term>, ghost c: set<Formula>) returns (r: WriteList)
      requires Valid(c) && StandsList(c, n, v)
      modifies memo
      ensures Valid(c) && r == v && memo.visitedUN == old(memo.visitedUN)[n := v]
      ensures old(Thorough(rules)) && !TouchesList(rules, v) ==> Thorough(rules)
      ensures old(Deciding(rules)) ==> Deciding(rules)
    {
      hide StandsList, Stands, Touches, TouchesList;
      r := memo.Remember(n, v, rules, c);
    }

    lemma MemoHolds(c: set<Formula>, n: WriteList, rules: map<Term, Term>)
      requires Valid(c) && n in memo.visitedUN
      ensures StandsList(c, n, memo.visitedUN[n])
      ensures Thorough(rules) ==> !TouchesList(rules, memo.visitedUN[n])
    {
      hide StandsList, Stands, TouchesList;
    }
  }
}
