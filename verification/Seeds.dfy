/** Patching a seed so that it meets a new branch condition
    (`SeedInfo::patchSeed`, lib/Core/SeedInfo.cpp). */
module Seeds {
  import opened Bits
  import opened Exprs
  import opened SmartConstructors
  import opened PointReads
  import opened ArrayReads
  import opened Replacement
  import opened Sequences
  import opened FactorTables
  import opened ConstraintSets
  import opened KnownBytes
  import opened Facts
  import opened ConstraintManagers
  import opened Solvers
  import opened Evaluators

  type Cell = (Array, nat)

  /** The cells an expression reads at a constant index, update lists aside. */
  function DirectReads(e: Term): set<Cell> {
    match e
    case Constant(_) => {}
    case NotOptimized(s) => DirectReads(s)
    case Read(root, _, index) => if index.Constant? then {(root, ToNat(index.value))} else DirectReads(index)
    case Select(c, t, f) => DirectReads(c) + DirectReads(t) + DirectReads(f)
    case Concat(l, r) => DirectReads(l) + DirectReads(r)
    case Extract(s, _, _) => DirectReads(s)
    case ZExt(s, _) => DirectReads(s)
    case SExt(s, _) => DirectReads(s)
    case Not(s) => DirectReads(s)
    case Binary(_, l, r) => DirectReads(l) + DirectReads(r)
  }

  /** A read at a constant index, of a given cell. */
  ghost predicate ReadsAt(r: Term, cell: Cell) {
    r.Read? && r.index.Constant? && cell == (r.root, ToNat(r.index.value))
  }

  /** Exactly the cells that reads outside the update lists name by a constant. */
  lemma {:induction false} DirectlyRead(e: Term, cell: Cell)
    ensures cell in DirectReads(e) <==> exists r: Term :: Surface(r, e) && ReadsAt(r, cell)
    decreases Size(e)
  {
    hide Size, ToNat;
    if e.Constant? {
      assert forall r: Term :: Surface(r, e) ==> r == e;
    } else if e.Read? {
      IndexSmaller(e);
      DirectlyRead(e.index, cell);
      assert Surface(e, e);
      assert forall r: Term :: Surface(r, e) <==> r == e || Surface(r, e.index);
    } else {
      forall i | 0 <= i < |Kids(e)|
        ensures cell in DirectReads(Kids(e)[i]) <==> exists r: Term :: Surface(r, Kids(e)[i]) && ReadsAt(r, cell)
      {
        DirectlyRead(Kids(e)[i], cell);
      }
      KidsRead(e, cell);
      if r: Term :| Surface(r, e) && ReadsAt(r, cell) {
        var i :| 0 <= i < |Kids(e)| && Surface(r, Kids(e)[i]);
        assert cell in DirectReads(Kids(e)[i]);
      }
      if cell in DirectReads(e) {
        var i :| 0 <= i < |Kids(e)| && cell in DirectReads(Kids(e)[i]);
        var r: Term :| Surface(r, Kids(e)[i]) && ReadsAt(r, cell);
        assert Surface(r, e);
      }
    }
  }

  lemma KidsRead(e: Term, cell: Cell)
    requires !e.Constant? && !e.Read?
    ensures cell in DirectReads(e) <==> exists i :: 0 <= i < |Kids(e)| && cell in DirectReads(Kids(e)[i])
  {
    hide Size;
    var k := Kids(e);
    assert cell in DirectReads(e) ==>
        cell in DirectReads(k[0]) || (|k| > 1 && cell in DirectReads(k[1])) || (|k| > 2 && cell in DirectReads(k[2]));
  }

  /** A binding for an array has a byte for each of its cells. */
  ghost predicate Sized(b: Bindings) {
    forall arr :: arr in b ==> |b[arr]| == arr.size < Pow2(INT32)
  }

  ghost predicate Bound(b: Bindings, c: Cell) { c.0 in b && c.1 < |b[c.0]| }

  ghost function ByteAt(b: Bindings, c: Cell): Byte
    requires Bound(b, c)
  {
    b[c.0][c.1]
  }

  function InitialRead(arr: Array, i: nat): (e: Term)
    requires i < Pow2(INT32)
    ensures Width(e) == INT8
  {
    ReadCreate(arr, NoUpdates, Constant(FromInt(i, INT32)))
  }

  /** The constraint that a byte has its seed value. */
  function IsSeed(arr: Array, i: nat, v: Byte): (e: Formula)
    requires i < Pow2(INT32)
  {
    EqCreate(InitialRead(arr, i), Constant(v))
  }

  lemma InitialReadMeans(arr: Array, i: nat, a: Assignment)
    requires i < Pow2(INT32)
    ensures Eval(InitialRead(arr, i), a) == InitialByte(arr, i, a)
  {
    hide ReadCreate;
    var v: Index := FromInt(i, INT32);
    Indexed(v);
    ToFromInt(i, INT32);
    ReadSound(arr, NoUpdates, Constant(v), a);
  }

  lemma IsSeedMeans(arr: Array, i: nat, v: Byte, a: Assignment)
    requires i < Pow2(INT32)
    ensures Holds(IsSeed(arr, i, v), a) <==> InitialByte(arr, i, a) == v
  {
    hide ReadCreate, InitialByte, InitialRead, EqCreate;
    InitialReadMeans(arr, i, a);
    EqSound(InitialRead(arr, i), Constant(v), a);
  }

  lemma SeedPointwise(c: set<Formula>, p: Cell, v: Byte)
    requires p.1 < Pow2(INT32)
    ensures AllPointwise(c) ==> AllPointwise(c + {IsSeed(p.0, p.1, v)})
  {
    hide ReadCreate, EqCreate, FromInt;
    var at: Index := FromInt(p.1, INT32);
    Indexed(at);
    ReadPointwise(p.0, NoUpdates, Constant(at));
    EqPointwise(InitialRead(p.0, p.1), Constant(v));
  }

  // ----- the pinned bytes -----

  /** `c` says what `base` says, and that the cells in `pinned` have their bound
      bytes. */
  ghost predicate Pins(c: set<Formula>, base: set<Formula>, b: Bindings, pinned: set<Cell>)
    requires forall p: Cell :: p in pinned ==> Bound(b, p)
  {
    forall a: Assignment :: Sat(c, a) <==> Sat(base, a) && Has(b, pinned, a)
  }

  ghost predicate Has(b: Bindings, pinned: set<Cell>, a: Assignment)
    requires forall p: Cell :: p in pinned ==> Bound(b, p)
  {
    forall p: Cell :: p in pinned ==> InitialByte(p.0, p.1, a) == ByteAt(b, p)
  }

  function Patched(b: Bindings, p: Cell, v: Byte): Bindings
    requires Bound(b, p)
  {
    var bytes: seq<Byte> := b[p.0][p.1 := v];
    b[p.0 := bytes]
  }

  lemma PatchedBound(b: Bindings, p: Cell, v: Byte, q: Cell)
    requires Bound(b, p)
    ensures Bound(Patched(b, p, v), q) <==> Bound(b, q)
    ensures Bound(b, q) ==> ByteAt(Patched(b, p, v), q) == if q == p then v else ByteAt(b, q)
  {
  }

  /** Pinning one more cell, or one already pinned to that byte. */
  lemma PinOne(c: set<Formula>, base: set<Formula>, b: Bindings, pinned: set<Cell>, p: Cell, v: Byte, d: set<Formula>)
    requires (forall q: Cell :: q in pinned ==> Bound(b, q)) && Bound(b, p) && p.1 < Pow2(INT32)
    requires Pins(c, base, b, pinned) && (p in pinned ==> v == ByteAt(b, p))
    requires Equivalent(d, c + {IsSeed(p.0, p.1, v)})
    ensures forall q: Cell :: q in pinned + {p} ==> Bound(Patched(b, p, v), q)
    ensures Pins(d, base, Patched(b, p, v), pinned + {p})
  {
    hide Sat, IsSeed, InitialByte, Patched, Bound, ByteAt;
    var now := Patched(b, p, v);
    forall q: Cell | q in pinned + {p} ensures Bound(now, q) {
      PatchedBound(b, p, v, q);
    }
    forall a: Assignment ensures Sat(d, a) <==> Sat(base, a) && Has(now, pinned + {p}, a) {
      SatUnion(c, {IsSeed(p.0, p.1, v)}, a);
      SatOne(IsSeed(p.0, p.1, v), a);
      IsSeedMeans(p.0, p.1, v, a);
      HasOne(b, pinned, p, v, a);
    }
  }

  lemma HasOne(b: Bindings, pinned: set<Cell>, p: Cell, v: Byte, a: Assignment)
    requires (forall q: Cell :: q in pinned ==> Bound(b, q)) && Bound(b, p) && (p in pinned ==> v == ByteAt(b, p))
    requires forall q: Cell :: q in pinned + {p} ==> Bound(Patched(b, p, v), q)
    ensures Has(Patched(b, p, v), pinned + {p}, a) <==> Has(b, pinned, a) && InitialByte(p.0, p.1, a) == v
  {
    hide InitialByte, Patched, Bound, ByteAt;
    var now := Patched(b, p, v);
    forall q: Cell | q in pinned + {p} ensures ByteAt(now, q) == if q == p then v else ByteAt(b, q) {
      PatchedBound(b, p, v, q);
    }
  }

  // ----- one byte -----

  /** The byte kept or chosen for a cell. */
  function NewByte(s: Solver, c: set<Formula>, p: Cell, v: Byte): (r: Byte)
    requires p.1 < Pow2(INT32) && forall d: set<Formula>, t: Term :: |s.pick(d, t)| == Width(t)
  {
    if s.MustBeTrue(c, IsZero(IsSeed(p.0, p.1, v))) then s.pick(c, InitialRead(p.0, p.1)) else v
  }

  /** The old byte is ruled out by the constraints exactly when it is called so. */
  lemma RuledOut(s: Solver, c: set<Formula>, p: Cell, v: Byte)
    requires p.1 < Pow2(INT32) && s.Exact()
    ensures s.MustBeTrue(c, IsZero(IsSeed(p.0, p.1, v))) <==> !Satisfiable(c + {IsSeed(p.0, p.1, v)})
  {
    hide Sat, IsSeed, IsZero, Eval, WF, Solver.Exact, Solver.MustBeTrue;
    var e := IsSeed(p.0, p.1, v);
    MustBeTrueMeans(s, c, IsZero(e));
    forall a: Assignment ensures Holds(IsZero(e), a) <==> !Holds(e, a) {
      NegationSound(e, a);
    }
    forall a: Assignment ensures Sat(c + {e}, a) <==> Sat(c, a) && Holds(e, a) {
      SatUnion(c, {e}, a);
      SatOne(e, a);
    }
  }

  /** The constraints stay satisfiable, and the byte changes only if it must. */
  lemma NewByteMeans(s: Solver, c: set<Formula>, p: Cell, v: Byte)
    requires p.1 < Pow2(INT32) && s.Exact() && Satisfiable(c)
    ensures Satisfiable(c + {IsSeed(p.0, p.1, NewByte(s, c, p, v))})
    ensures NewByte(s, c, p, v) == v <==> Satisfiable(c + {IsSeed(p.0, p.1, v)})
  {
    hide Sat, IsSeed, IsZero, Eval, WF, InitialRead, InitialByte, Solver.MustBeTrue;
    RuledOut(s, c, p, v);
    if !Satisfiable(c + {IsSeed(p.0, p.1, v)}) {
      var r := s.pick(c, InitialRead(p.0, p.1));
      var a: Assignment :| Sat(c, a) && Eval(InitialRead(p.0, p.1), a) == r;
      InitialReadMeans(p.0, p.1, a);
      SeedFeasible(c, p, r, a);
    }
  }

  lemma SeedFeasible(c: set<Formula>, p: Cell, v: Byte, a: Assignment)
    requires p.1 < Pow2(INT32) && Sat(c, a) && InitialByte(p.0, p.1, a) == v
    ensures Satisfiable(c + {IsSeed(p.0, p.1, v)})
  {
    hide Sat, IsSeed, InitialByte, Eval, WF;
    var e := IsSeed(p.0, p.1, v);
    IsSeedMeans(p.0, p.1, v, a);
    SatUnion(c, {e}, a);
    SatOne(e, a);
  }

  /** A satisfiable working set: what the state and the condition say, and the
      bytes pinned so far. */
  ghost predicate Working(c: set<Formula>, base: set<Formula>, b: Bindings, pinned: set<Cell>) {
    Sized(b) && Satisfiable(c) && (forall p: Cell :: p in pinned ==> Bound(b, p)) && Pins(c, base, b, pinned)
  }

  /** The seed as it is meets the constraints. */
  ghost predicate Meets(b: Bindings, base: set<Formula>) {
    exists a: Assignment :: Sat(base, a) && Agrees(b, true, a)
  }

  lemma PinnedKept(c: set<Formula>, base: set<Formula>, b: Bindings, pinned: set<Cell>, p: Cell)
    requires Working(c, base, b, pinned) && Bound(b, p) && p.1 < Pow2(INT32)
    ensures p in pinned || Meets(b, base) ==> Satisfiable(c + {IsSeed(p.0, p.1, ByteAt(b, p))})
  {
    hide Sat, IsSeed, InitialByte, Eval, WF;
    if p in pinned {
      var a: Assignment :| Sat(c, a);
      SeedFeasible(c, p, ByteAt(b, p), a);
    } else if Meets(b, base) {
      var a: Assignment :| Sat(base, a) && Agrees(b, true, a);
      SeedFeasible(c, p, ByteAt(b, p), a);
    }
  }

  /** One more cell pinned. */
  lemma WorkingStep(s: Solver, c: set<Formula>, base: set<Formula>, b: Bindings, pinned: set<Cell>, p: Cell, d: set<Formula>)
    requires s.Exact() && Working(c, base, b, pinned) && Bound(b, p) && p.1 < Pow2(INT32)
    requires Equivalent(d, c + {IsSeed(p.0, p.1, NewByte(s, c, p, ByteAt(b, p)))})
    ensures Working(d, base, Patched(b, p, NewByte(s, c, p, ByteAt(b, p))), pinned + {p})
  {
    hide Sat, IsSeed, InitialByte, Eval, WF, NewByte, ByteAt, Solver.Exact, Pins;
    PicksFit(s);
    var v := NewByte(s, c, p, ByteAt(b, p));
    NewByteMeans(s, c, p, ByteAt(b, p));
    PinnedKept(c, base, b, pinned, p);
    PinOne(c, base, b, pinned, p, v, d);
  }

  lemma PatchedSame(b: Bindings, p: Cell)
    requires Bound(b, p)
    ensures Patched(b, p, ByteAt(b, p)) == b
  {
    assert b[p.0][p.1 := b[p.0][p.1]] == b[p.0];
  }

  lemma ChosenFacts(s: Solver, c: set<Formula>, base: set<Formula>, b: Bindings, pinned: set<Cell>, p: Cell)
    requires s.Exact() && Working(c, base, b, pinned) && Bound(b, p) && p.1 < Pow2(INT32)
    ensures forall d: set<Formula>, t: Term :: |s.pick(d, t)| == Width(t)
    ensures p.0 in b && p.1 < |b[p.0]| && b[p.0][p.1] == ByteAt(b, p)
    ensures Satisfiable(c + {IsSeed(p.0, p.1, NewByte(s, c, p, ByteAt(b, p)))})
    ensures NewByte(s, c, p, ByteAt(b, p)) == ByteAt(b, p) <==> Satisfiable(c + {IsSeed(p.0, p.1, ByteAt(b, p))})
    ensures Patched(b, p, ByteAt(b, p)) == b
  {
    hide Sat, IsSeed, Eval, WF, NewByte, Patched, Solver.Exact;
    PicksFit(s);
    NewByteMeans(s, c, p, ByteAt(b, p));
    PatchedSame(b, p);
  }

  /** Only bytes of some cells differ. */
  ghost predicate Untouched(b: Bindings, d: Bindings, cells: set<Cell>) {
    && b.Keys == d.Keys && (forall arr :: arr in b ==> |b[arr]| == |d[arr]|)
    && forall p: Cell :: Bound(b, p) && p !in cells ==> ByteAt(d, p) == ByteAt(b, p)
  }

  lemma UntouchedSelf(b: Bindings, cells: set<Cell>)
    ensures Untouched(b, b, cells)
  {
  }

  lemma UntouchedMore(b: Bindings, c: Bindings, d: Bindings, cells: set<Cell>, p: Cell)
    requires Untouched(b, c, cells) && Untouched(c, d, {p})
    ensures Untouched(b, d, cells + {p})
  {
  }

  lemma PatchedUntouched(b: Bindings, p: Cell, v: Byte)
    requires Bound(b, p)
    ensures Untouched(b, Patched(b, p, v), {p})
  {
  }

  /** Some assignment meets the constraints and has the bytes of the seed at some
      cells. */
  ghost predicate MeetsAt(b: Bindings, base: set<Formula>, cells: set<Cell>) {
    exists a: Assignment :: Sat(base, a) &&
      forall p: Cell :: p in cells && Bound(b, p) ==> InitialByte(p.0, p.1, a) == ByteAt(b, p)
  }

  lemma WorkingMeets(c: set<Formula>, base: set<Formula>, b: Bindings, pinned: set<Cell>, cells: set<Cell>)
    requires Working(c, base, b, pinned) && forall p: Cell :: p in cells && p.0 in b ==> p in pinned
    ensures MeetsAt(b, base, cells)
  {
    hide Sat, InitialByte;
    var a: Assignment :| Sat(c, a);
    assert Has(b, pinned, a);
  }

  /** A condition that evaluates to something feasible, and that reads known bytes
      only, holds of every assignment with the bytes of the seed. */
  lemma SeedSatisfies(constraints: set<Formula>, condition: Formula, b: Bindings)
    requires Feasible(constraints, Evaluated(b, true, condition)) && Decidable(b, true, condition)
    ensures forall a: Assignment :: Agrees(b, true, a) ==> Holds(condition, a)
  {
    hide *;
    var x := FeasibleAt(constraints, Evaluated(b, true, condition));
    EvaluatedConstant(b, true, condition);
    var r := Evaluated(b, true, condition);
    forall a: Assignment | Agrees(b, true, a) ensures Holds(condition, a) {
      EvaluatedSound(b, true, condition, a);
      SameConstant(condition, r, a, x);
    }
  }

  lemma FeasibleAt(c: set<Formula>, e: Formula) returns (x: Assignment)
    requires Feasible(c, e)
    ensures Holds(e, x)
  {
    x :| Sat(c, x) && Holds(e, x);
  }

  lemma SameConstant(e: Formula, r: Formula, a: Assignment, x: Assignment)
    requires r.Constant? && Eval(r, a) == Eval(e, a) && Holds(r, x)
    ensures Holds(e, a)
  {
  }

  datatype Outcome = Consistent | Failed | Broken

  class SeedInfo {
    var bindings: Bindings

    /** Keep a byte the working set allows, replace one it rules out. */
    method ChooseByte(solver: Solver, c: set<Formula>, p: Cell, ghost base: set<Formula>, ghost pinned: set<Cell>)
      returns (v: Byte)
      requires solver.Exact() && Working(c, base, bindings, pinned) && Bound(bindings, p) && p.1 < Pow2(INT32)
      modifies this
      ensures (forall d: set<Formula>, t: Term :: |solver.pick(d, t)| == Width(t))
      ensures v == NewByte(solver, c, p, old(ByteAt(bindings, p))) && bindings == Patched(old(bindings), p, v)
      ensures v == old(ByteAt(bindings, p)) <==> Satisfiable(c + {IsSeed(p.0, p.1, old(ByteAt(bindings, p)))})
      ensures v == old(ByteAt(bindings, p)) ==> bindings == old(bindings)
    {
      hide Satisfiable, Working, Bound, ByteAt, IsSeed, NewByte, Patched, Solver.Exact, Width;
      ChosenFacts(solver, c, base, bindings, pinned, p);
      var was := bindings[p.0][p.1];
      v := NewByte(solver, c, p, was);
      if v != was {
        bindings := Patched(bindings, p, v);
      }
    }

    /** Pin the byte chosen. */
    method PatchByte(tmp: ConstraintManager, solver: Solver, p: Cell, ghost base: set<Formula>, ghost pinned: set<Cell>)
      returns (ok: bool, ghost sighted: bool)
      requires tmp.Valid() && this !in tmp.Repr() && solver.Exact()
      requires Working(tmp.constraints, base, bindings, pinned) && Bound(bindings, p) && p.1 < Pow2(INT32)
      modifies this, tmp.Repr()
      ensures fresh(tmp.Repr() - old(tmp.Repr()))
      ensures ok ==> tmp.Valid() && Working(tmp.constraints, base, bindings, pinned + {p})
      ensures old(tmp.table.Independent()) && sighted ==> ok && tmp.table.Independent()
      ensures Satisfiable(old(tmp.constraints) + {IsSeed(p.0, p.1, old(ByteAt(bindings, p)))}) ==> bindings == old(bindings)
      ensures !Satisfiable(old(tmp.constraints) + {IsSeed(p.0, p.1, old(ByteAt(bindings, p)))}) ==>
                exists v: Byte :: v != old(ByteAt(bindings, p)) && bindings == Patched(old(bindings), p, v)
      ensures AllPointwise(old(tmp.constraints)) ==> sighted && (ok ==> AllPointwise(tmp.constraints))
    {
      hide ConstraintManager.Valid, FactorTable.Independent, Satisfiable, Equivalent, Working, Sized, Bound, ByteAt;
      hide IsSeed, NewByte, Patched, Solver.Exact, Sat, Eval, WF, Width, AllPointwise;
      hide Determined, ConstraintManager.News, ConstraintManager.Learnt, Denied;
      ghost var c, b := tmp.constraints, bindings;
      ChosenFacts(solver, c, base, b, pinned, p);
      var v := ChooseByte(solver, tmp.constraints, p, base, pinned);
      ok, sighted := PinByte(tmp, p, v);
      if ok {
        WorkingStep(solver, c, base, b, pinned, p, tmp.constraints);
      }
    }

    method PinByte(tmp: ConstraintManager, p: Cell, v: Byte) returns (ok: bool, ghost sighted: bool)
      requires tmp.Valid() && p.1 < Pow2(INT32) && Satisfiable(tmp.constraints + {IsSeed(p.0, p.1, v)})
      modifies tmp.Repr()
      ensures fresh(tmp.Repr() - old(tmp.Repr()))
      ensures ok ==> tmp.Valid() && Equivalent(tmp.constraints, old(tmp.constraints) + {IsSeed(p.0, p.1, v)})
      ensures old(tmp.table.Independent()) && sighted ==> ok && tmp.table.Independent()
      ensures AllPointwise(old(tmp.constraints)) ==> sighted && (ok ==> AllPointwise(tmp.constraints))
    {
      hide *;
      SeedPointwise(tmp.constraints, p, v);
      var out;
      out, sighted := tmp.AddConstraint(IsSeed(p.0, p.1, v));
      ok := out == Added;
    }

    method PatchCell(tmp: ConstraintManager, solver: Solver, p: Cell, ghost base: set<Formula>, ghost pinned: set<Cell>)
      returns (ok: bool, ghost sighted: bool)
      requires tmp.Valid() && this !in tmp.Repr() && solver.Exact()
      requires Working(tmp.constraints, base, bindings, pinned) && p.0 in bindings && p.1 < p.0.size
      modifies this, tmp.Repr()
      ensures fresh(tmp.Repr() - old(tmp.Repr()))
      ensures bindings.Keys == old(bindings.Keys) && (Meets(old(bindings), base) ==> bindings == old(bindings))
      ensures Untouched(old(bindings), bindings, {p})
      ensures ok ==> tmp.Valid() && Working(tmp.constraints, base, bindings, pinned + {p})
      ensures old(tmp.table.Independent()) && sighted ==> ok && tmp.table.Independent()
      ensures AllPointwise(old(tmp.constraints)) ==> sighted && (ok ==> AllPointwise(tmp.constraints))
    {
      hide ConstraintManager.Valid, FactorTable.Independent, Satisfiable, Working, Sized, Bound, ByteAt, Meets;
      hide IsSeed, Patched, Untouched, Solver.Exact, AllPointwise;
      CellBound(tmp.constraints, base, bindings, pinned, p);
      ghost var b := bindings;
      ok, sighted := PatchByte(tmp, solver, p, base, pinned);
      UntouchedSelf(b, {p});
      if bindings != b {
        var v: Byte :| bindings == Patched(b, p, v);
        PatchedUntouched(b, p, v);
      }
    }

    /** The cells the condition reads directly. */
    method PatchDirect(tmp: ConstraintManager, solver: Solver, reads_: set<Cell>,
                       ghost base: set<Formula>, ghost pinned: set<Cell>)
      returns (ok: bool, ghost done: set<Cell>, ghost sighted: bool)
      requires tmp.Valid() && this !in tmp.Repr() && solver.Exact()
      requires Working(tmp.constraints, base, bindings, pinned)
      requires forall p: Cell :: p in reads_ && p.0 in bindings ==> p.1 < p.0.size
      modifies this, tmp.Repr()
      ensures fresh(tmp.Repr() - old(tmp.Repr()))
      ensures bindings.Keys == old(bindings.Keys) && (Meets(old(bindings), base) ==> bindings == old(bindings))
      ensures ok ==> tmp.Valid() && Working(tmp.constraints, base, bindings, done) && pinned <= done
      ensures ok ==> forall p: Cell :: p in reads_ && p.0 in bindings ==> p in done
      ensures Untouched(old(bindings), bindings, reads_)
      ensures old(tmp.table.Independent()) && sighted ==> ok && tmp.table.Independent()
      ensures AllPointwise(old(tmp.constraints)) ==> sighted && (ok ==> AllPointwise(tmp.constraints))
    {
      hide ConstraintManager.Valid, FactorTable.Independent, Satisfiable, Working, Sized, Bound, ByteAt, Meets;
      hide IsSeed, Patched, Untouched, Solver.Exact, AllPointwise;
      ok, done, sighted := true, pinned, true;
      var order := Enumerate(reads_);
      ghost var b := bindings;
      UntouchedSelf(b, reads_);
      for k := 0 to |order|
        invariant tmp.Valid() && this !in tmp.Repr() && fresh(tmp.Repr() - old(tmp.Repr()))
        invariant bindings.Keys == old(bindings.Keys) && (Meets(old(bindings), base) ==> bindings == old(bindings))
        invariant Working(tmp.constraints, base, bindings, done) && pinned <= done
        invariant Untouched(b, bindings, reads_)
        invariant forall i :: 0 <= i < k && order[i].0 in bindings ==> order[i] in done
        invariant old(tmp.table.Independent()) && sighted ==> tmp.table.Independent()
        invariant AllPointwise(old(tmp.constraints)) ==> sighted && AllPointwise(tmp.constraints)
      {
        if order[k].0 in bindings {
          assert order[k] in Elements<Cell>(order);
          ghost var seen;
          ghost var c := bindings;
          ok, seen := PatchCell(tmp, solver, order[k], base, done);
          UntouchedMore(b, c, bindings, reads_, order[k]);
          assert reads_ + {order[k]} == reads_;
          sighted := sighted && seen;
          if !ok {
            return;
          }
          done := done + {order[k]};
        }
      }
      forall p: Cell | p in reads_ ensures p in order {
        assert p in Elements<Cell>(order);
      }
    }

    /** The bytes of one array. */
    method PatchArray(tmp: ConstraintManager, solver: Solver, arr: Array, ghost base: set<Formula>, ghost pinned: set<Cell>)
      returns (ok: bool, ghost done: set<Cell>, ghost sighted: bool)
      requires tmp.Valid() && this !in tmp.Repr() && solver.Exact()
      requires Working(tmp.constraints, base, bindings, pinned) && arr in bindings
      modifies this, tmp.Repr()
      ensures fresh(tmp.Repr() - old(tmp.Repr()))
      ensures bindings.Keys == old(bindings.Keys) && (Meets(old(bindings), base) ==> bindings == old(bindings))
      ensures ok ==> tmp.Valid() && Working(tmp.constraints, base, bindings, done)
      ensures ok ==> pinned <= done && forall i :: 0 <= i < arr.size ==> (arr, i) in done
      ensures old(tmp.table.Independent()) && sighted ==> ok && tmp.table.Independent()
      ensures AllPointwise(old(tmp.constraints)) ==> sighted && (ok ==> AllPointwise(tmp.constraints))
    {
      hide ConstraintManager.Valid, FactorTable.Independent, Satisfiable, Working, Sized, Bound, ByteAt, Meets;
      hide IsSeed, Patched, Solver.Exact, AllPointwise;
      ok, done, sighted := true, pinned, true;
      for i := 0 to arr.size
        invariant tmp.Valid() && this !in tmp.Repr() && fresh(tmp.Repr() - old(tmp.Repr()))
        invariant bindings.Keys == old(bindings.Keys) && (Meets(old(bindings), base) ==> bindings == old(bindings))
        invariant Working(tmp.constraints, base, bindings, done)
        invariant old(tmp.table.Independent()) && sighted ==> tmp.table.Independent()
        invariant AllPointwise(old(tmp.constraints)) ==> sighted && AllPointwise(tmp.constraints)
        invariant pinned <= done && forall j :: 0 <= j < i ==> (arr, j) in done
      {
        ghost var seen;
        ok, seen := PatchCell(tmp, solver, (arr, i), base, done);
        sighted := sighted && seen;
        if !ok {
          return;
        }
        done := done + {(arr, i)};
      }
    }

    /** Every bound byte. */
    method PatchAll(tmp: ConstraintManager, solver: Solver, ghost base: set<Formula>, ghost pinned: set<Cell>)
      returns (ok: bool, ghost sighted: bool)
      requires tmp.Valid() && this !in tmp.Repr() && solver.Exact()
      requires Working(tmp.constraints, base, bindings, pinned)
      modifies this, tmp.Repr()
      ensures fresh(tmp.Repr() - old(tmp.Repr()))
      ensures bindings.Keys == old(bindings.Keys) && (Meets(old(bindings), base) ==> bindings == old(bindings))
      ensures ok ==> tmp.Valid() && Meets(bindings, base)
      ensures old(tmp.table.Independent()) && sighted ==> ok && tmp.table.Independent()
      ensures AllPointwise(old(tmp.constraints)) ==> sighted
    {
      hide ConstraintManager.Valid, FactorTable.Independent, Satisfiable, Working, Sized, Bound, ByteAt, Meets;
      hide IsSeed, Patched, Solver.Exact, AllPointwise;
      ghost var done := pinned;
      ok, sighted := true, true;
      var order := Enumerate(bindings.Keys);
      for k := 0 to |order|
        invariant tmp.Valid() && this !in tmp.Repr() && fresh(tmp.Repr() - old(tmp.Repr()))
        invariant bindings.Keys == old(bindings.Keys) && (Meets(old(bindings), base) ==> bindings == old(bindings))
        invariant Working(tmp.constraints, base, bindings, done)
        invariant old(tmp.table.Independent()) && sighted ==> tmp.table.Independent()
        invariant AllPointwise(old(tmp.constraints)) ==> sighted && AllPointwise(tmp.constraints)
        invariant forall n, i :: 0 <= n < k && 0 <= i < order[n].size ==> (order[n], i) in done
      {
        ghost var seen, more;
        assert order[k] in Elements<Array>(order);
        ok, more, seen := PatchArray(tmp, solver, order[k], base, done);
        sighted := sighted && seen;
        if !ok {
          return;
        }
        done := more;
      }
      AllPinned(tmp.constraints, base, bindings, done, order);
    }

    /** Both loops and the tests after each. */
    method Repair(tmp: ConstraintManager, constraints: set<Formula>, condition: Formula, solver: Solver)
      returns (r: Outcome, ghost direct: Bindings, ghost sighted: bool)
      requires tmp.Valid() && this !in tmp.Repr() && solver.Exact()
      requires Working(tmp.constraints, constraints + {condition}, bindings, {})
      requires forall p: Cell :: p in DirectReads(condition) && p.0 in bindings ==> p.1 < p.0.size
      modifies this, tmp.Repr()
      ensures bindings.Keys == old(bindings.Keys)
      ensures Meets(old(bindings), constraints + {condition}) ==> bindings == old(bindings)
      ensures r != Failed && (old(tmp.table.Independent()) && sighted ==> r == Consistent)
      ensures r == Consistent ==> Feasible(constraints, Evaluated(bindings, true, condition))
      ensures r == Consistent ==> Directly(old(bindings), direct, constraints, condition)
      ensures r == Consistent ==>
                if Feasible(constraints, Evaluated(direct, true, condition)) then bindings == direct
                else Meets(bindings, constraints + {condition})
      ensures r == Consistent && Decidable(bindings, true, condition) ==>
                forall a: Assignment :: Agrees(bindings, true, a) ==> Holds(condition, a)
      ensures AllPointwise(old(tmp.constraints)) ==> sighted
    {
      hide ConstraintManager.Valid, FactorTable.Independent, Working, Meets;
      hide Solver.Exact, Solver.MayBeTrue, DirectReads, Evaluated, Feasible, AllPointwise, Decidable, Agrees, MeetsAt;
      hide Untouched, Eval, WF;
      ghost var base := constraints + {condition};
      direct := bindings;
      ghost var pinned, seen;
      var ok;
      ok, pinned, sighted := PatchDirect(tmp, solver, DirectReads(condition), base, {});
      if !ok {
        return Broken, direct, sighted;
      }
      direct := bindings;
      WorkingMeets(tmp.constraints, base, direct, pinned, DirectReads(condition));
      FeasibleMeans(solver, constraints, Evaluated(direct, true, condition));
      Closing(constraints, condition, direct);
      if solver.MayBeTrue(constraints, Evaluated(bindings, true, condition)) {
        return Consistent, direct, sighted;
      }
      ok, seen := PatchAll(tmp, solver, base, pinned);
      sighted := sighted && seen;
      if !ok {
        return Broken, direct, sighted;
      }
      Closing(constraints, condition, bindings);
      ClosingHolds(solver, constraints, condition, bindings);
      r := if solver.MayBeTrue(constraints, Evaluated(bindings, true, condition)) then Consistent else Failed;
    }

    /** `patchSeed`: when the state and the condition can hold together, the closing
        assertion holds; a seed that meets them already is left alone. */
    method PatchSeed(constraints: set<Formula>, condition: Formula, solver: Solver)
      returns (r: Outcome, ghost direct: Bindings, ghost sighted: bool)
      requires solver.Exact() && Sized(bindings) && Satisfiable(constraints + {condition})
      requires forall p: Cell :: p in DirectReads(condition) && p.0 in bindings ==> p.1 < p.0.size
      modifies this
      ensures bindings.Keys == old(bindings.Keys)
      ensures Meets(old(bindings), constraints + {condition}) ==> bindings == old(bindings)
      ensures r != Failed && (sighted ==> r == Consistent)
      ensures r == Consistent ==> Feasible(constraints, Evaluated(bindings, true, condition))
      ensures r == Consistent ==> Directly(old(bindings), direct, constraints, condition)
      ensures r == Consistent ==>
                if Feasible(constraints, Evaluated(direct, true, condition)) then bindings == direct
                else Meets(bindings, constraints + {condition})
      ensures r == Consistent && Decidable(bindings, true, condition) ==>
                forall a: Assignment :: Agrees(bindings, true, a) ==> Holds(condition, a)
      ensures AllPointwise(constraints + {condition}) ==> sighted
    {
      hide ConstraintManager.Valid, FactorTable.Independent, Satisfiable, Equivalent, Working, Sized, Meets;
      hide Solver.Exact, DirectReads, Evaluated, Feasible, AllPointwise, Decidable, Agrees, MeetsAt, Untouched, Eval, WF;
      hide Directly;
      var tmp := new ConstraintManager(constraints);
      var out;
      ghost var seen;
      out, sighted := tmp.AddConstraint(condition);
      if out != Added {
        return Broken, bindings, sighted;
      }
      StartWorking(tmp.constraints, constraints + {condition}, bindings);
      r, direct, seen := Repair(tmp, constraints, condition, solver);
      sighted := sighted && seen;
    }
  }

  /** What the first loop leaves: the bytes read directly are as some assignment has
      them that satisfies state and condition, and the others are as they were. */
  ghost predicate Directly(was: Bindings, direct: Bindings, constraints: set<Formula>, condition: Formula) {
    && Untouched(was, direct, DirectReads(condition))
    && MeetsAt(direct, constraints + {condition}, DirectReads(condition))
  }

  lemma Closing(constraints: set<Formula>, condition: Formula, b: Bindings)
    ensures Feasible(constraints, Evaluated(b, true, condition)) && Decidable(b, true, condition) ==>
              forall a: Assignment :: Agrees(b, true, a) ==> Holds(condition, a)
  {
    hide *;
    if Feasible(constraints, Evaluated(b, true, condition)) && Decidable(b, true, condition) {
      SeedSatisfies(constraints, condition, b);
    }
  }

  /** Some assignment satisfies the constraints and `e`. */
  ghost predicate Feasible(c: set<Formula>, e: Formula) {
    exists a: Assignment :: Sat(c, a) && Holds(e, a)
  }

  lemma FeasibleMeans(s: Solver, c: set<Formula>, e: Formula)
    requires s.Exact()
    ensures s.MayBeTrue(c, e) <==> Feasible(c, e)
  {
    hide Sat, Eval, WF, Solver.Exact;
    MayBeTrueMeans(s, c, e);
  }

  lemma StartWorking(c: set<Formula>, base: set<Formula>, b: Bindings)
    requires Equivalent(c, base) && Satisfiable(base) && Sized(b)
    ensures Working(c, base, b, {})
  {
    hide Sat;
  }

  /** With every byte pinned, the working set is satisfied by the seed itself. */
  lemma AllPinned(c: set<Formula>, base: set<Formula>, b: Bindings, pinned: set<Cell>, order: seq<Array>)
    requires Working(c, base, b, pinned) && Elements<Array>(order) == b.Keys
    requires forall n, i :: 0 <= n < |order| && 0 <= i < order[n].size ==> (order[n], i) in pinned
    ensures Meets(b, base)
  {
    hide Sat, InitialByte;
    var a: Assignment :| Sat(c, a);
    assert Has(b, pinned, a);
    forall arr, i | arr in b && 0 <= i < |b[arr]| ensures InitialByte(arr, i, a) == b[arr][i] {
      assert arr in Elements<Array>(order);
      var n :| 0 <= n < |order| && order[n] == arr;
      assert (order[n], i) in pinned;
    }
  }

  /** Evaluating the condition under a seed that meets it leaves it feasible. */
  lemma ClosingHolds(s: Solver, constraints: set<Formula>, condition: Formula, b: Bindings)
    requires s.Exact() && Meets(b, constraints + {condition})
    ensures s.MayBeTrue(constraints, Evaluated(b, true, condition)) && Feasible(constraints, Evaluated(b, true, condition))
  {
    hide Sat, Evaluated, Agrees, Solver.Exact, Eval, WF;
    var a: Assignment :| Sat(constraints + {condition}, a) && Agrees(b, true, a);
    EvaluatedSound(b, true, condition, a);
    SatUnion(constraints, {condition}, a);
    SatOne(condition, a);
    MayBeTrueMeans(s, constraints, Evaluated(b, true, condition));
  }

  lemma CellBound(c: set<Formula>, base: set<Formula>, b: Bindings, pinned: set<Cell>, p: Cell)
    requires Working(c, base, b, pinned) && p.0 in b && p.1 < p.0.size
    ensures Bound(b, p) && p.1 < Pow2(INT32)
    ensures Meets(b, base) ==> Satisfiable(c + {IsSeed(p.0, p.1, ByteAt(b, p))})
    ensures forall v: Byte :: Patched(b, p, v).Keys == b.Keys
  {
    hide IsSeed, Pins, Satisfiable, Sat, Meets;
    PinnedKept(c, base, b, pinned, p);
  }
}
