/** `ExecutionState::merge`: one state that stands for two, by selecting between
    their values on the condition that tells them apart. */
module Merging {
  import opened Options
  import opened Exprs
  import opened SmartConstructors
  import opened PointReads
  import opened Constructors
  import opened ObjectCells
  import opened ObjectStates
  import opened FactorTables
  import opened Sequences
  import opened ConstraintSets
  import opened ConstraintManagers

  datatype Frame = Frame(caller: nat, function_: nat, locals: seq<Option<Term>>)

  // ----- the condition of a state -----

  /** The conjunction of the first `n` constraints, as `merge` builds it. */
  function Conjunction(cs: seq<Formula>, n: nat): (f: Formula)
    requires n <= |cs|
  {
    if n == 0 then True else AndCreate(Conjunction(cs, n - 1), cs[n - 1])
  }

  lemma {:induction false} ConjunctionHolds(cs: seq<Formula>, n: nat, a: Assignment)
    requires n <= |cs|
    ensures Holds(Conjunction(cs, n), a) <==> forall i :: 0 <= i < n ==> Holds(cs[i], a)
  {
    hide AndCreate, ReadAt, Apply;
    if n > 0 {
      ConjunctionHolds(cs, n - 1, a);
      BoolAnd(Conjunction(cs, n - 1), cs[n - 1], a);
    }
  }

  lemma {:induction false} ConjunctionPointwise(cs: seq<Formula>, n: nat)
    requires n <= |cs| && AllPointwise(Members(cs))
    ensures Pointwise(Conjunction(cs, n))
  {
    hide AndCreate;
    if n > 0 {
      ConjunctionPointwise(cs, n - 1);
      assert cs[n - 1] in Members(cs);
      AndPointwise(Conjunction(cs, n - 1), cs[n - 1]);
    }
  }

  method Conjoin(cs: seq<Formula>) returns (f: Formula)
    ensures forall a: Assignment :: Holds(f, a) <==> Sat(Members(cs), a)
    ensures AllPointwise(Members(cs)) ==> Pointwise(f)
  {
    hide AndCreate, ReadAt, Apply;
    f := True;
    for i := 0 to |cs|
      invariant f == Conjunction(cs, i)
    {
      f := AndCreate(f, cs[i]);
    }
    if AllPointwise(Members(cs)) {
      ConjunctionPointwise(cs, |cs|);
    }
    forall a: Assignment ensures Holds(f, a) <==> Sat(Members(cs), a) {
      ConjunctionHolds(cs, |cs|, a);
      assert forall i :: 0 <= i < |cs| ==> cs[i] in Members(cs);
    }
  }

  // ----- constraints -----

  /** Splitting both constraint sets into what they share and what is their own. */
  lemma MergedConstraints(ca: set<Formula>, cb: set<Formula>, inA: Formula, inB: Formula, a: Assignment)
    requires Holds(inA, a) <==> Sat(ca - ca * cb, a)
    requires Holds(inB, a) <==> Sat(cb - ca * cb, a)
    ensures Sat(ca * cb + {OrCreate(inA, inB)}, a) <==> Sat(ca, a) || Sat(cb, a)
    ensures Sat(ca * cb, a) ==> (Holds(inA, a) <==> Sat(ca, a))
  {
    hide Sat, Eval, WF, OrCreate;
    var common := ca * cb;
    assert common + (ca - common) == ca && common + (cb - common) == cb;
    SatUnion(common, ca - common, a);
    SatUnion(common, cb - common, a);
    SatUnion(common, {OrCreate(inA, inB)}, a);
    SatOne(OrCreate(inA, inB), a);
    BoolOr(inA, inB, a);
  }

  // ----- locals -----

  /** A local of the merged state; one that is null in either state stays as it is. */
  function MergeLocal(inA: Formula, av: Option<Term>, bv: Option<Term>): Option<Term>
    requires av.Some? && bv.Some? ==> Width(av.value) == Width(bv.value)
  {
    if av.None? || bv.None? then av else Some(SelectCreate(inA, av.value, bv.value))
  }

  lemma MergeLocalValue(inA: Formula, av: Term, bv: Term, a: Assignment)
    requires Width(av) == Width(bv)
    ensures Eval(SelectCreate(inA, av, bv), a) == if Holds(inA, a) then Eval(av, a) else Eval(bv, a)
  {
    hide SelectCreate, Eval;
    SelectSound(inA, av, bv, a);
  }

  // ----- memory -----

  /** Byte by byte, the first object where `inA` holds and the second elsewhere. */
  ghost predicate Selects(inA: Formula, merged: seq<Byte>, as_: seq<Byte>, bs: seq<Byte>, n: nat, a: Assignment) {
    && |merged| == |as_| == |bs| && n <= |as_|
    && (forall i :: 0 <= i < n ==> merged[i] == if Holds(inA, a) then as_[i] else bs[i])
    && (forall i :: n <= i < |as_| ==> merged[i] == as_[i])
  }

  lemma SelectsNone(inA: Formula, as_: seq<Byte>, bs: seq<Byte>, a: Assignment)
    requires |as_| == |bs|
    ensures Selects(inA, as_, as_, bs, 0, a)
  {
  }

  lemma SelectsNext(inA: Formula, merged: seq<Byte>, now: seq<Byte>, as_: seq<Byte>, bs: seq<Byte>, n: nat,
                    a: Assignment, av: Term, bv: Term)
    requires Selects(inA, merged, as_, bs, n, a) && n < |as_| && Width(av) == Width(bv) == INT8
    requires Eval(av, a) == merged[n] && Eval(bv, a) == bs[n]
    requires now == merged[n := Eval(SelectCreate(inA, av, bv), a)]
    ensures Selects(inA, now, as_, bs, n + 1, a)
  {
    hide SelectCreate, Eval, WF;
    MergeLocalValue(inA, av, bv, a);
  }

  /** The cells of an object, as values, read as plain bytes. */
  ghost predicate Holding(o: ObjectState, c: Cells)
    reads o, o.Repr
  {
    o.Valid() && Shape(c) && forall a: Assignment :: o.Bytes(a) == Contents(c, a)
  }

  ghost predicate HoldsMerge(inA: Formula, o: ObjectState, ca: Cells, cb: Cells, n: nat)
    reads o, o.Repr
  {
    && o.Valid() && Shape(ca) && Shape(cb)
    && forall a: Assignment :: Selects(inA, o.Bytes(a), Contents(ca, a), Contents(cb, a), n, a)
  }

  /** One byte of the merged object. */
  method MergeByte(inA: Formula, wos: ObjectState, other: ObjectState, i: nat, ghost ca: Cells, ghost cb: Cells)
    requires HoldsMerge(inA, wos, ca, cb, i) && Holding(other, cb) && i < wos.size == other.size && wos.Repr !! other.Repr
    modifies wos.Repr, other
    ensures fresh(wos.Repr - old(wos.Repr)) && other.Repr == old(other.Repr)
    ensures HoldsMerge(inA, wos, ca, cb, i + 1) && Holding(other, cb)
  {
    hide ObjectState.Bytes, Selects, Shape, SelectCreate, Eval, WF, Contents;
    hide ObjectState.Snapshot, Consistent;
    var av := wos.Read8(i);
    var bv := other.Read8(i);
    label Read:
    wos.Write8(i, SelectCreate(inA, av, bv));
    forall a: Assignment ensures Selects(inA, wos.Bytes(a), Contents(ca, a), Contents(cb, a), i + 1, a) {
      SelectsSize(inA, old@Read(wos.Bytes(a)), Contents(ca, a), Contents(cb, a), i, a);
      SelectsNext(inA, old@Read(wos.Bytes(a)), wos.Bytes(a), Contents(ca, a), Contents(cb, a), i, a, av, bv);
    }
  }

  lemma SelectsSize(inA: Formula, merged: seq<Byte>, as_: seq<Byte>, bs: seq<Byte>, n: nat, a: Assignment)
    requires Selects(inA, merged, as_, bs, n, a)
    ensures |merged| == |as_| == |bs|
  {
  }

  /** Merge the contents of `other` into a copy of `os`. */
  method MergeObject(inA: Formula, os: ObjectState, other: ObjectState, ghost ca: Cells, ghost cb: Cells)
    returns (wos: ObjectState)
    requires Holding(os, ca) && Holding(other, cb) && os.size == other.size
    modifies other
    ensures fresh(wos) && fresh(wos.Repr) && wos.size == os.size && other.Repr == old(other.Repr)
    ensures HoldsMerge(inA, wos, ca, cb, os.size) && Holding(other, cb)
  {
    hide ObjectState.Bytes, Selects, Shape, Eval, WF, Contents, ObjectState.Snapshot, Consistent;
    wos := new ObjectState.Copy(os);
    CopyHolds(wos, os, ca);
    forall a: Assignment ensures Selects(inA, wos.Bytes(a), Contents(ca, a), Contents(cb, a), 0, a) {
      SelectsNone(inA, Contents(ca, a), Contents(cb, a), a);
    }
    for i := 0 to os.size
      invariant fresh(wos.Repr) && other.Repr == old(other.Repr)
      invariant HoldsMerge(inA, wos, ca, cb, i) && Holding(other, cb)
    {
      MergeByte(inA, wos, other, i, ca, cb);
    }
  }

  lemma CopyHolds(wos: ObjectState, os: ObjectState, c: Cells)
    requires Holding(os, c) && wos.Valid() && wos.Snapshot() == os.Snapshot()
    ensures Holding(wos, c)
  {
    hide Contents, ObjectState.Snapshot, Shape, Consistent;
    forall a: Assignment ensures wos.Bytes(a) == Contents(c, a) {
      assert os.Bytes(a) == Contents(c, a);
    }
  }

  /** The bytes of every object in sight; objects do not share storage. */
  ghost predicate Memory(content: map<ObjectState, Cells>)
    reads content.Keys, set o, r | o in content.Keys && r in o.Repr :: r
  {
    && (forall o :: o in content ==> Holding(o, content[o]) && o in o.Repr)
    && (forall o, p :: o in content && p in content && o != p ==> o.Repr !! p.Repr)
  }

  method MergeNext(inA: Formula, os: ObjectState, other: ObjectState, ghost content: map<ObjectState, Cells>)
    returns (wos: ObjectState)
    requires Memory(content) && os in content && other in content && os.size == other.size
    modifies other
    ensures Memory(content) && fresh(wos) && fresh(wos.Repr) && wos.size == os.size
    ensures HoldsMerge(inA, wos, content[os], content[other], os.size)
    ensures forall o :: o in content ==> o.Repr == old(o.Repr)
  {
    hide Holding, HoldsMerge;
    wos := MergeObject(inA, os, other, content[os], content[other]);
    forall o | o in content ensures Holding(o, content[o]) && o.Repr == old(o.Repr) {
      if o != other {
        assert other !in o.Repr;
        assert old(Holding(o, content[o]));
      }
    }
  }

  /** Merge every object that differs between the states. */
  method MergeObjects(inA: Formula, objects: map<nat, ObjectState>, others: map<nat, ObjectState>,
                      ghost content: map<ObjectState, Cells>)
    returns (merged: map<nat, ObjectState>)
    requires Memory(content) && objects.Keys == others.Keys
    requires forall m :: m in objects ==> objects[m] in content && others[m] in content && objects[m].size == others[m].size
    modifies others.Values
    ensures merged.Keys == objects.Keys && Memory(content)
    ensures forall m :: m in objects && objects[m] == others[m] ==> merged[m] == objects[m]
    ensures forall m :: m in objects && objects[m] != others[m] ==>
              HoldsMerge(inA, merged[m], content[objects[m]], content[others[m]], merged[m].size)
    ensures forall m :: m in objects && objects[m] != others[m] ==> fresh(merged[m]) && fresh(merged[m].Repr)
    ensures forall o :: o in content ==> o.Repr == old(o.Repr)
  {
    hide Memory, HoldsMerge;
    merged := objects;
    var order := Enumerate(objects.Keys);
    forall i | 0 <= i < |order| ensures order[i] in objects {
      assert order[i] in Elements(order);
    }
    for k := 0 to |order|
      invariant merged.Keys == objects.Keys && Memory(content) && forall o :: o in content ==> o.Repr == old(o.Repr)
      invariant forall m :: m in objects && objects[m] == others[m] ==> merged[m] == objects[m]
      invariant forall i :: 0 <= i < k && objects[order[i]] != others[order[i]] ==>
                  fresh(merged[order[i]]) && fresh(merged[order[i]].Repr) &&
                  HoldsMerge(inA, merged[order[i]], content[objects[order[i]]], content[others[order[i]]], merged[order[i]].size)
    {
      var m := order[k];
      assert others[m] in others.Values;
      if objects[m] != others[m] {
        var wos := MergeNext(inA, objects[m], others[m], content);
        merged := merged[m := wos];
      }
    }
    forall m | m in objects ensures m in order {
      assert m in Elements(order);
    }
  }

  // ----- stacks -----

  /** Two frames of one function, called from one place. */
  predicate SameCall(f: Frame, g: Frame) { f.caller == g.caller && f.function_ == g.function_ }

  predicate SameStack(fs: seq<Frame>, gs: seq<Frame>) {
    |fs| == |gs| && forall i :: 0 <= i < |fs| ==> fs[i].caller == gs[i].caller && fs[i].function_ == gs[i].function_
  }

  /** The registers of one function have the same types in both states. */
  ghost predicate Typed(fs: seq<Frame>, gs: seq<Frame>) {
    forall i :: 0 <= i < |fs| && i < |gs| && SameCall(fs[i], gs[i]) ==> SameTypes(fs[i], gs[i])
  }

  ghost predicate SameTypes(f: Frame, g: Frame) {
    |f.locals| == |g.locals| && forall k :: 0 <= k < |f.locals| ==> Agreeing(f.locals[k], g.locals[k])
  }

  ghost predicate Agreeing(v: Option<Term>, w: Option<Term>) {
    v.Some? && w.Some? ==> Width(v.value) == Width(w.value)
  }

  method CompareStacks(fs: seq<Frame>, gs: seq<Frame>) returns (same: bool)
    ensures same <==> SameStack(fs, gs)
  {
    var i := 0;
    while i < |fs| && i < |gs|
      invariant i <= |fs| && i <= |gs| && forall k :: 0 <= k < i ==> SameCall(fs[k], gs[k])
    {
      if !SameCall(fs[i], gs[i]) {
        return false;
      }
      i := i + 1;
    }
    same := i == |fs| && i == |gs|;
  }

  /** A frame of the merged state. */
  ghost predicate FrameMerged(inA: Formula, m: Frame, f: Frame, g: Frame)
    requires SameTypes(f, g)
  {
    && SameCall(m, f) && |m.locals| == |f.locals|
    && forall k :: 0 <= k < |f.locals| ==> LocalMerged(inA, m.locals[k], f.locals[k], g.locals[k])
  }

  ghost predicate LocalMerged(inA: Formula, m: Option<Term>, v: Option<Term>, w: Option<Term>)
    requires Agreeing(v, w)
  {
    m == MergeLocal(inA, v, w)
  }

  method MergeFrame(inA: Formula, f: Frame, g: Frame) returns (m: Frame)
    requires SameTypes(f, g)
    ensures FrameMerged(inA, m, f, g)
  {
    hide MergeLocal;
    var locals := f.locals;
    for k := 0 to |f.locals|
      invariant |locals| == |f.locals|
      invariant forall j :: 0 <= j < k ==> LocalMerged(inA, locals[j], f.locals[j], g.locals[j])
    {
      assert Agreeing(f.locals[k], g.locals[k]);
      locals := locals[k := MergeLocal(inA, f.locals[k], g.locals[k])];
    }
    m := f.(locals := locals);
  }

  method MergeFrames(inA: Formula, fs: seq<Frame>, gs: seq<Frame>) returns (ms: seq<Frame>)
    requires SameStack(fs, gs) && Typed(fs, gs)
    ensures |ms| == |fs| && forall i :: 0 <= i < |fs| ==> SameTypes(fs[i], gs[i]) && FrameMerged(inA, ms[i], fs[i], gs[i])
  {
    hide FrameMerged, SameTypes;
    ms := [];
    for i := 0 to |fs|
      invariant |ms| == i
      invariant forall k :: 0 <= k < i ==> SameTypes(fs[k], gs[k]) && FrameMerged(inA, ms[k], fs[k], gs[k])
    {
      assert SameCall(fs[i], gs[i]);
      var m := MergeFrame(inA, fs[i], gs[i]);
      ms := ms + [m];
    }
  }

  // ----- constraints of the merged state -----

  /** A new constraint store for what the states share and the disjunction of what
      is their own. A satisfiable conjunction is never refused. */
  method MergeConstraints(common: set<Formula>, either: Formula)
    returns (cm: ConstraintManager, last: Outcome, ghost sighted: bool)
    ensures fresh(cm) && fresh(cm.Repr())
    ensures last == Added ==> cm.Valid() && Equivalent(cm.constraints, common + {either})
    ensures Satisfiable(common + {either}) ==> last != Inconsistent && (sighted ==> last == Added)
    ensures AllPointwise(common) && Pointwise(either) ==> sighted
  {
    hide ConstraintManager.Valid, FactorTable.Independent, Equivalent, Satisfiable, Pointwise;
    cm := new ConstraintManager({});
    var order := Enumerate(common);
    sighted := true;
    StartCommon(order, either);
    var k := 0;
    while k < |order|
      invariant k <= |order| && fresh(cm) && fresh(cm.Repr()) && cm.Valid()
      invariant Equivalent(cm.constraints, Elements(order[..k]))
      invariant sighted ==> cm.table.Independent()
      invariant AllPointwise(common) ==> sighted && AllPointwise(cm.constraints)
    {
      ghost var seen;
      ghost var c := cm.constraints;
      assert order[k] in Elements(order);
      last, seen := cm.AddConstraint(order[k]);
      sighted := sighted && seen;
      if last != Added {
        SubsetUnsatisfiable(c, order, k, common + {either});
        return;
      }
      MoreCommon(c, cm.constraints, order, k);
      k := k + 1;
    }
    ghost var seen;
    ghost var c := cm.constraints;
    assert order[..|order|] == order;
    last, seen := cm.AddConstraint(either);
    sighted := sighted && seen;
    LastCommon(c, cm.constraints, common, either);
  }

  lemma StartCommon(order: seq<Formula>, either: Formula)
    ensures Equivalent({}, Elements(order[..0]))
  {
    NoElements(order);
  }

  lemma MoreCommon(c: set<Formula>, d: set<Formula>, order: seq<Formula>, k: nat)
    requires k < |order| && NoRepeats(order) && Equivalent(c, Elements(order[..k])) && Equivalent(d, c + {order[k]})
    ensures Equivalent(d, Elements(order[..k + 1]))
  {
    hide Sat, Elements;
    ElementsStep(order, k);
    forall a: Assignment ensures Sat(d, a) <==> Sat(Elements(order[..k + 1]), a) {
      SatUnion(c, {order[k]}, a);
      SatUnion(Elements(order[..k]), {order[k]}, a);
    }
  }

  lemma SubsetUnsatisfiable(c: set<Formula>, order: seq<Formula>, k: nat, all: set<Formula>)
    requires k < |order| && NoRepeats(order) && Equivalent(c, Elements(order[..k])) && Elements(order) <= all
    ensures !Satisfiable(c + {order[k]}) ==> !Satisfiable(all)
  {
    hide Sat;
    ElementsStep(order, k);
    forall a: Assignment | Sat(all, a) ensures Sat(c + {order[k]}, a) {
      assert Elements(order[..k + 1]) <= all;
      SatSubset(Elements(order[..k + 1]), all, a);
      SatUnion(Elements(order[..k]), {order[k]}, a);
      SatUnion(c, {order[k]}, a);
    }
  }

  lemma SatSubset(c: set<Formula>, d: set<Formula>, a: Assignment)
    requires c <= d && Sat(d, a)
    ensures Sat(c, a)
  {
  }

  lemma LastCommon(c: set<Formula>, d: set<Formula>, common: set<Formula>, either: Formula)
    requires Equivalent(c, common)
    ensures Equivalent(d, c + {either}) ==> Equivalent(d, common + {either})
    ensures Satisfiable(c + {either}) <==> Satisfiable(common + {either})
  {
    hide Sat;
    forall a: Assignment ensures Sat(c + {either}, a) <==> Sat(common + {either}, a) {
      SatUnion(c, {either}, a);
      SatUnion(common, {either}, a);
    }
  }

  // ----- what the merged state stands for -----

  /** The merged constraints admit exactly what either state admits. */
  ghost predicate ConstraintsMerged(m: set<Formula>, ca: set<Formula>, cb: set<Formula>) {
    forall a: Assignment :: Sat(m, a) <==> Sat(ca, a) || Sat(cb, a)
  }

  /** A merged local has the first state's value or the second's; one that is null
      in either state is left alone. */
  ghost predicate Follows(first: bool, m: Option<Term>, v: Option<Term>, w: Option<Term>, a: Assignment) {
    if v.None? || w.None? then m == v
    else m.Some? && Eval(m.value, a) == if first then Eval(v.value, a) else Eval(w.value, a)
  }

  ghost predicate FrameFollows(first: bool, m: Frame, f: Frame, g: Frame, a: Assignment) {
    && SameCall(m, f) && |m.locals| == |f.locals| == |g.locals|
    && forall k :: 0 <= k < |f.locals| ==> Follows(first, m.locals[k], f.locals[k], g.locals[k], a)
  }

  /** Under every admitted assignment each local is the first state's if that state
      admits it, and the second's otherwise. */
  ghost predicate FramesMerged(m: set<Formula>, ca: set<Formula>, ms: seq<Frame>, fs: seq<Frame>, gs: seq<Frame>) {
    && |ms| == |fs| == |gs|
    && forall a: Assignment, i :: Sat(m, a) && 0 <= i < |ms| ==> FrameFollows(Sat(ca, a), ms[i], fs[i], gs[i], a)
  }

  /** The same for each byte of each memory object. */
  ghost predicate ObjectsMerged(m: set<Formula>, ca: set<Formula>, ms: map<nat, ObjectState>,
                                os: map<nat, ObjectState>, ps: map<nat, ObjectState>, content: map<ObjectState, Cells>)
    reads ms.Values, set o, r | o in ms.Values && r in o.Repr :: r
  {
    && ms.Keys == os.Keys == ps.Keys && (forall k :: k in os ==> os[k] in content && ps[k] in content)
    && forall k :: k in ms ==> ObjectFollows(m, ca, ms[k], content[os[k]], content[ps[k]])
  }

  ghost predicate ObjectFollows(m: set<Formula>, ca: set<Formula>, o: ObjectState, c: Cells, d: Cells)
    reads o, o.Repr
  {
    && o.Valid() && Shape(c) && Shape(d)
    && forall a: Assignment :: Sat(m, a) ==> o.Bytes(a) == if Sat(ca, a) then Contents(c, a) else Contents(d, a)
  }

  /** `inA` tells the states apart wherever the merged constraints hold. */
  ghost predicate Tells(m: set<Formula>, ca: set<Formula>, inA: Formula) {
    forall a: Assignment :: Sat(m, a) ==> (Holds(inA, a) <==> Sat(ca, a))
  }

  lemma FrameFollowing(inA: Formula, m: Frame, f: Frame, g: Frame, a: Assignment)
    requires SameTypes(f, g) && FrameMerged(inA, m, f, g)
    ensures FrameFollows(Holds(inA, a), m, f, g, a)
  {
    hide Eval, WF, SelectCreate;
    forall k | 0 <= k < |f.locals| ensures Follows(Holds(inA, a), m.locals[k], f.locals[k], g.locals[k], a) {
      assert Agreeing(f.locals[k], g.locals[k]) && LocalMerged(inA, m.locals[k], f.locals[k], g.locals[k]);
      if f.locals[k].Some? && g.locals[k].Some? {
        MergeLocalValue(inA, f.locals[k].value, g.locals[k].value, a);
      }
    }
  }

  lemma ObjectFollowing(m: set<Formula>, ca: set<Formula>, inA: Formula, o: ObjectState, c: Cells, d: Cells, n: nat)
    requires Tells(m, ca, inA) && HoldsMerge(inA, o, c, d, n) && n == o.size
    ensures ObjectFollows(m, ca, o, c, d)
  {
    hide Eval, WF, Sat, Contents, Shape, ObjectState.Snapshot, Consistent;
    forall a: Assignment | Sat(m, a) ensures o.Bytes(a) == if Sat(ca, a) then Contents(c, a) else Contents(d, a) {
      assert Selects(inA, o.Bytes(a), Contents(c, a), Contents(d, a), n, a);
    }
  }

  lemma ObjectSame(m: set<Formula>, ca: set<Formula>, o: ObjectState, c: Cells)
    requires Holding(o, c)
    ensures ObjectFollows(m, ca, o, c, c)
  {
    hide Sat, Contents, Shape;
  }

  // ----- whole states -----

  /** Merge the parts of two states. */
  method MergeParts(ca: set<Formula>, cb: set<Formula>, fs: seq<Frame>, gs: seq<Frame>,
                    os: map<nat, ObjectState>, ps: map<nat, ObjectState>, ghost content: map<ObjectState, Cells>)
    returns (ms: seq<Frame>, objects: map<nat, ObjectState>, cm: ConstraintManager, last: Outcome, ghost sighted: bool)
    requires Satisfiable(ca) && SameStack(fs, gs) && Typed(fs, gs) && Memory(content) && os.Keys == ps.Keys
    requires forall m :: m in os ==> os[m] in content && ps[m] in content && os[m].size == ps[m].size
    modifies ps.Values
    ensures fresh(cm) && fresh(cm.Repr())
    ensures last == Added ==> cm.Valid() && ConstraintsMerged(cm.constraints, ca, cb)
    ensures last == Added ==> FramesMerged(cm.constraints, ca, ms, fs, gs)
    ensures last == Added ==> ObjectsMerged(cm.constraints, ca, objects, os, ps, content)
    ensures forall k :: k in objects ==>
              (objects[k] in content && objects[k].Repr == old(objects[k].Repr)) || (fresh(objects[k]) && fresh(objects[k].Repr))
    ensures last != Inconsistent && (sighted ==> last == Added)
    ensures AllPointwise(ca + cb) ==> sighted
  {
    hide ConstraintManager.Valid, Satisfiable, Sat, Memory, HoldsMerge, Eval, WF, OrCreate, FrameMerged, FrameFollows;
    hide ObjectFollows, ConstraintsMerged, SameTypes, Typed, Equivalent, AllPointwise, Pointwise;
    var common := ca * cb;
    var inA, either := Conditions(ca, cb);
    ms := MergeFrames(inA, fs, gs);
    objects := MergeObjects(inA, os, ps, content);
    cm, last, sighted := MergeConstraints(common, either);
    if last == Added {
      ConditionsDecide(cm.constraints, common + {either}, ca, cb, inA);
      forall a: Assignment, i | Sat(cm.constraints, a) && 0 <= i < |ms|
        ensures FrameFollows(Sat(ca, a), ms[i], fs[i], gs[i], a)
      {
        FrameFollowing(inA, ms[i], fs[i], gs[i], a);
      }
      forall k | k in objects ensures ObjectFollows(cm.constraints, ca, objects[k], content[os[k]], content[ps[k]]) {
        if os[k] == ps[k] {
          MemoryHolds(content, os[k]);
          ObjectSame(cm.constraints, ca, os[k], content[os[k]]);
        } else {
          ObjectFollowing(cm.constraints, ca, inA, objects[k], content[os[k]], content[ps[k]], objects[k].size);
        }
      }
    }
  }

  lemma MemoryHolds(content: map<ObjectState, Cells>, o: ObjectState)
    requires Memory(content) && o in content
    ensures Holding(o, content[o])
  {
  }

  /** The condition of the first state, and the disjunction of both. */
  method Conditions(ca: set<Formula>, cb: set<Formula>) returns (inA: Formula, either: Formula)
    requires Satisfiable(ca)
    ensures Satisfiable(ca * cb + {either})
    ensures forall a: Assignment :: Sat(ca * cb + {either}, a) <==> Sat(ca, a) || Sat(cb, a)
    ensures forall a: Assignment :: Sat(ca * cb + {either}, a) ==> (Holds(inA, a) <==> Sat(ca, a))
    ensures AllPointwise(ca + cb) ==> AllPointwise(ca * cb) && Pointwise(either)
  {
    hide Sat, Eval, WF, OrCreate, Members, Elements, Pointwise;
    var common := ca * cb;
    var sa := Enumerate(ca - common);
    var sb := Enumerate(cb - common);
    inA := Conjoin(sa);
    var inB := Conjoin(sb);
    MembersOf(sa);
    MembersOf(sb);
    either := OrCreate(inA, inB);
    if AllPointwise(ca + cb) {
      assert AllPointwise(ca - common) && AllPointwise(cb - common);
      AndPointwise(inA, inB);
    }
    forall a: Assignment
      ensures Sat(common + {either}, a) <==> Sat(ca, a) || Sat(cb, a)
      ensures Sat(common + {either}, a) ==> (Holds(inA, a) <==> Sat(ca, a))
    {
      MergedConstraints(ca, cb, inA, inB, a);
      SatUnion(common, {either}, a);
    }
  }

  lemma MembersOf(q: seq<Formula>)
    ensures Members(q) == Elements(q)
  {
  }

  lemma ConditionsDecide(m: set<Formula>, goal: set<Formula>, ca: set<Formula>, cb: set<Formula>, inA: Formula)
    requires Equivalent(m, goal) && forall a: Assignment :: Sat(goal, a) <==> Sat(ca, a) || Sat(cb, a)
    requires forall a: Assignment :: Sat(goal, a) ==> (Holds(inA, a) <==> Sat(ca, a))
    ensures ConstraintsMerged(m, ca, cb) && Tells(m, ca, inA)
  {
    hide Sat, Eval, WF;
  }

  datatype Verdict =
    | Merged
    | Refused       // merge returns false
    | NotWritable   // an object that differs is read-only, which the source asserts it is not

  class State {
    var pc: nat
    var symbolics: seq<nat>
    var frames: seq<Frame>
    var objects: map<nat, ObjectState>
    var readOnly: set<nat>
    var constraints: ConstraintManager

    constructor (pc: nat, symbolics: seq<nat>, frames: seq<Frame>, objects: map<nat, ObjectState>, readOnly: set<nat>,
                 constraints: ConstraintManager)
      ensures this.pc == pc && this.symbolics == symbolics && this.frames == frames && this.objects == objects
      ensures this.readOnly == readOnly && this.constraints == constraints
    {
      this.pc, this.symbolics, this.frames, this.objects := pc, symbolics, frames, objects;
      this.readOnly, this.constraints := readOnly, constraints;
    }

    /** States at one place, with one call stack and the same memory objects. */
    ghost predicate Mergeable(b: State)
      reads this, b
    {
      pc == b.pc && symbolics == b.symbolics && SameStack(frames, b.frames) && objects.Keys == b.objects.Keys
    }

    /** Objects that differ may be written. */
    predicate Writable(b: State)
      reads this, b
    {
      forall m :: m in readOnly && m in objects && m in b.objects ==> objects[m] == b.objects[m]
    }

    /** Merge `b` into this state, or refuse and change nothing. The new constraints
        are never refused, so the merged state is exact unless an assertion of the
        source stops the engine while they are stored. */
    method Merge(b: State, ghost content: map<ObjectState, Cells>)
      returns (r: Verdict, last: Outcome, ghost sighted: bool)
      requires Satisfiable(constraints.constraints) && Typed(frames, b.frames) && Memory(content)
      requires forall m :: m in objects ==> objects[m] in content
      requires forall m :: m in b.objects ==> b.objects[m] in content
      requires forall m :: m in objects && m in b.objects ==> objects[m].size == b.objects[m].size
      requires forall o :: o in content ==> this !in o.Repr
      modifies this, b.objects.Values
      ensures r == Refused <==> !old(Mergeable(b))
      ensures r == NotWritable <==> old(Mergeable(b)) && !old(Writable(b))
      ensures r != Merged ==> unchanged(this)
      ensures r == Merged && last == Added ==> constraints.Valid()
      ensures r == Merged && last == Added ==>
                ConstraintsMerged(constraints.constraints, old(constraints.constraints), old(b.constraints.constraints))
      ensures r == Merged && last == Added ==>
                FramesMerged(constraints.constraints, old(constraints.constraints), frames, old(frames), old(b.frames))
      ensures r == Merged && last == Added ==>
                ObjectsMerged(constraints.constraints, old(constraints.constraints), objects,
                              old(objects), old(b.objects), content)
      ensures last != Inconsistent && (sighted ==> last == Added)
      ensures AllPointwise(old(constraints.constraints) + old(b.constraints.constraints)) ==> sighted
    {
      hide ConstraintManager.Valid, Satisfiable, Sat, Memory, SameStack, Typed, AllPointwise;
      hide ObjectFollows, ObjectsMerged, ConstraintsMerged, FramesMerged;
      r, last, sighted := Refused, Added, true;
      if pc != b.pc || symbolics != b.symbolics {
        return;
      }
      var same := CompareStacks(frames, b.frames);
      if !same || objects.Keys != b.objects.Keys {
        return;
      }
      if !Writable(b) {
        return NotWritable, Added, true;
      }
      r := Merged;
      var ms, os, cm;
      ms, os, cm, last, sighted :=
        MergeParts(constraints.constraints, b.constraints.constraints, frames, b.frames, objects, b.objects, content);
      frames, objects, constraints := ms, os, cm;
    }
  }
}
