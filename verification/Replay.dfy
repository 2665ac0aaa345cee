/** Trace-driven replay (`Executor::fork`, the `Switch` and `IndirectBr` arms of
    `executeInstruction`, `getNextPathEntry`): replaying the trace of a concrete run
    reproduces the run, and the constraints gathered admit only inputs that make
    the same decisions. */
module Replay {
  import opened Options
  import opened Bits
  import opened Exprs
  import opened SmartConstructors
  import opened PointReads
  import opened Irreducibles
  import opened FactorTables
  import opened ConstraintSets
  import opened Replacement
  import opened KnownBytes
  import opened Facts
  import opened ConstraintManagers
  import opened Solvers
  import opened Branching

  type SwitchIndex = i: nat | i < 0x10000
  type LabelIndex = i: nat | i < 0x100

  datatype PathEntry =
    | FORK(br: bool)
    | SWITCH_EXPIDX(switchIndex: SwitchIndex)
    | SWITCH_BBIDX(switchIndex: SwitchIndex)
    | INDIRECTBR(indirectbrIndex: LabelIndex)

  /** Events are well formed, and no negation of a symbolic condition is a constant,
      as with every condition the constructors build. */
  ghost predicate Recordable(e: Event) {
    e.WellFormed() && (e.Branch? ==> e.cond.Constant? || !IsZero(e.cond).Constant?)
  }

  /** What the engine asserts after counting the distinct blocks of a switch in 16
      bits and the distinct labels of an indirect branch in 8. */
  predicate Countable(e: Event) {
    match e
    case Switch(_, cases, default_) => |AllBlocks(cases, default_)| < 0x10000
    case IndirectBr(_, labels) => |Unique(labels)| < 0x100
    case _ => true
  }

  /** The index of the case taken fits an entry of the trace, or is known anyway. */
  predicate Indexable(e: Event, x: Assignment) {
    e.Switch? && !e.value.Constant? ==> FindCase(e.cases, Eval(e.value, x)) < 0x10000
  }

  // ----- traces -----

  /** An entry that names the decision an event takes under `x`. A switch on a
      symbolic condition may have been recorded by its successor block; on a constant
      one only 16 bits of the index are compared. */
  ghost predicate Records(entry: PathEntry, e: Event, x: Assignment)
    requires !e.Halt?
  {
    match e
    case Branch(cond) => entry == FORK(Holds(cond, x))
    case Switch(value, cases, default_) =>
      var i := FindCase(cases, Eval(value, x));
      (entry.SWITCH_EXPIDX? && entry.switchIndex == if value.Constant? then i % 0x10000 else i) ||
      (entry.SWITCH_BBIDX? && !value.Constant? && entry.switchIndex < |AllBlocks(cases, default_)| &&
       AllBlocks(cases, default_)[entry.switchIndex] == Successor(cases, default_, i))
    case IndirectBr(address, labels) =>
      entry.INDIRECTBR? && entry.indirectbrIndex < |Unique(labels)| &&
      Unique(labels)[entry.indirectbrIndex] == Eval(address, x)
  }

  type Program = seq<Target> -> Event

  /** The decisions of a complete concrete run. */
  ghost predicate RunOf(p: Program, x: Assignment, targets: seq<Target>) {
    && (forall k :: 0 <= k < |targets| ==> !p(targets[..k]).Halt? && Decide(p(targets[..k]), x) == targets[k])
    && p(targets).Halt?
  }

  ghost predicate TraceOf(p: Program, x: Assignment, targets: seq<Target>, trace: seq<PathEntry>) {
    && RunOf(p, x, targets) && |trace| == |targets|
    && forall k :: 0 <= k < |targets| ==> Recordable(p(targets[..k])) && Records(trace[k], p(targets[..k]), x)
  }

  // ----- recording -----

  /** Events a concrete run can record: an indirect branch goes to one of its
      labels. */
  ghost predicate Legal(e: Event, x: Assignment) {
    Recordable(e) && (e.IndirectBr? ==> Eval(e.address, x) in e.labels)
  }

  /** The entry a run on concrete input writes at an event: the branch taken, the
      index of the matching case, or the index among the distinct labels. There is
      none when an assertion on a count fails, and the index of a case is truncated
      to 16 bits. */
  method RecordEntry(e: Event, x: Assignment) returns (entry: Option<PathEntry>)
    requires !e.Halt? && Legal(e, x)
    ensures entry.Some? <==> Countable(e)
    ensures entry.Some? ==> (Records(entry.value, e, x) <==> Indexable(e, x))
  {
    hide Eval, WF, AllBlocks, FindCase, Successor, Width;
    match e
    case Branch(cond) => entry := Some(FORK(Holds(cond, x)));
    case Switch(value, cases, default_) =>
      var _, counted := CollectBlocks(cases, default_);
      if !counted {
        return None;
      }
      entry := Some(SWITCH_EXPIDX(FindCase(cases, Eval(value, x)) % 0x10000));
    case IndirectBr(address, labels) =>
      var dests, counted := CollectLabels(labels);
      if !counted {
        return None;
      }
      var i := FindLabel(dests, Eval(address, x));
      entry := Some(INDIRECTBR(i));
  }

  method FindLabel(dests: seq<Bits>, at: Bits) returns (i: nat)
    requires at in dests
    ensures i < |dests| && dests[i] == at && at !in dests[..i]
  {
    i := 0;
    while dests[i] != at
      invariant i < |dests| && at !in dests[..i]
      decreases |dests| - i
    {
      i := i + 1;
    }
  }

  /** No count on the way overflows. */
  ghost predicate CountableRun(p: Program, targets: seq<Target>) {
    forall k :: 0 <= k < |targets| ==> Countable(p(targets[..k]))
  }

  ghost predicate IndexableRun(p: Program, x: Assignment, targets: seq<Target>) {
    forall k :: 0 <= k < |targets| ==> Indexable(p(targets[..k]), x)
  }

  /** The trace of a run on concrete input, unless an assertion on a count stops
      the run. */
  method RecordRun(p: Program, x: Assignment, ghost targets: seq<Target>) returns (trace: seq<PathEntry>, ok: bool)
    requires RunOf(p, x, targets) && forall k :: 0 <= k < |targets| ==> Legal(p(targets[..k]), x)
    ensures ok <==> CountableRun(p, targets)
    ensures ok ==> |trace| == |targets| && (TraceOf(p, x, targets, trace) <==> IndexableRun(p, x, targets))
  {
    hide Decide, Eval, Records, Recordable, Countable, Indexable;
    trace, ok := [], true;
    var path: seq<Target> := [];
    while !p(path).Halt?
      invariant |path| == |trace| <= |targets| && path == targets[..|path|] && ok
      invariant forall k :: 0 <= k < |trace| ==> Countable(p(targets[..k]))
      invariant forall k :: 0 <= k < |trace| ==> (Records(trace[k], p(targets[..k]), x) <==> Indexable(p(targets[..k]), x))
      decreases |targets| - |path|
    {
      assert |path| < |targets| by {
        assert targets[..|targets|] == targets;
      }
      var e := p(path);
      var entry := RecordEntry(e, x);
      if entry.None? {
        return trace, false;
      }
      trace := trace + [entry.value];
      path := path + [Decide(e, x)];
    }
  }

  // ----- one step -----

  datatype Step =
    | Went(target: Target)
    | Mismatch      // an assertion on the trace fails, or the state is terminated
    | StoreFailed   // an assertion inside the constraint manager fails
    | TooMany       // an assertion on the count of blocks or labels fails
    | Forced(target: Target)   // the constraint is refused, which `Executor::branch` ignores

  /** The shape of an entry is one the event can be replayed with. */
  predicate Replayable(entry: PathEntry, e: Event)
    requires !e.Halt?
  {
    match e
    case Branch(_) => entry.FORK?
    case Switch(value, cases, default_) =>
      || (entry.SWITCH_EXPIDX? && (value.Constant? || entry.switchIndex <= |cases|))
      || (entry.SWITCH_BBIDX? && !value.Constant? && entry.switchIndex < |AllBlocks(cases, default_)|)
    case IndirectBr(_, labels) => entry.INDIRECTBR? && entry.indirectbrIndex < |Unique(labels)|
  }

  /** The constraints have grown by exactly what the entry says, and whatever
      satisfies them goes to `t`. */
  ghost predicate Narrowed(c: set<Formula>, d: set<Formula>, entry: PathEntry, e: Event, t: Target)
    requires !e.Halt?
  {
    && (forall y: Assignment :: Sat(d, y) <==> Sat(c, y) && Records(entry, e, y))
    && forall y: Assignment :: Sat(d, y) ==> Decide(e, y) == t
  }

  /** No input the constraints admit does what the entry says. */
  ghost predicate Refused(c: set<Formula>, entry: PathEntry, e: Event)
    requires !e.Halt?
  {
    forall y: Assignment :: Sat(c, y) ==> !Records(entry, e, y)
  }

  /** A constraint that stands for an entry under the constraints, and leads to `t`. */
  ghost predicate StandsFor(f: Formula, c: set<Formula>, entry: PathEntry, e: Event, t: Target)
    requires !e.Halt?
  {
    && (forall y: Assignment :: Sat(c, y) ==> (Holds(f, y) <==> Records(entry, e, y)))
    && forall y: Assignment :: Holds(f, y) ==> Decide(e, y) == t
  }

  /** A decision settled by one new constraint, or refused by it. */
  lemma NarrowedBy(c: set<Formula>, f: Formula, d: set<Formula>, entry: PathEntry, e: Event, t: Target)
    requires !e.Halt? && StandsFor(f, c, entry, e, t)
    ensures Equivalent(d, c + {f}) ==> Narrowed(c, d, entry, e, t)
    ensures !Satisfiable(c + {f}) ==> Refused(c, entry, e)
  {
    hide Decide, Records, Sat, Eval, WF;
    forall y: Assignment ensures Sat(c + {f}, y) <==> Sat(c, y) && Holds(f, y) {
      SatUnion(c, {f}, y);
      SatOne(f, y);
    }
  }

  /** What `Executor::addConstraint` comes to. */
  datatype AddResult =
    | Accepted
    | Trivial        // a constant true condition: it returns false
    | Rejected       // the constraint manager returns false
    | Fatal          // a constant false condition
    | Broken         // an assertion inside the constraint manager fails

  class Replayer {
    const trace: seq<PathEntry>
    const callSolver: bool
    const solver: Solver
    const store: ConstraintManager
    var position: nat

    constructor (trace: seq<PathEntry>, callSolver: bool, solver: Solver, store: ConstraintManager)
      ensures this.trace == trace && this.callSolver == callSolver && this.solver == solver && this.store == store
      ensures position == 0
    {
      this.trace, this.callSolver, this.solver, this.store, position := trace, callSolver, solver, store, 0;
    }

    /** `Executor::addConstraint`. A condition is rejected or fatal only if no input
        the state admits satisfies it. */
    method AddPathConstraint(f: Formula) returns (r: AddResult, ghost sighted: bool)
      requires store.Valid()
      modifies store.Repr()
      ensures fresh(store.Repr() - old(store.Repr()))
      ensures r == Trivial <==> f == True
      ensures r == Fatal <==> f == False
      ensures r == Accepted || r == Trivial ==>
                store.Valid() && Equivalent(store.constraints, old(store.constraints) + {f})
      ensures r == Rejected || r == Fatal ==> !Satisfiable(old(store.constraints) + {f})
      ensures old(store.table.Independent()) && sighted && r == Broken ==> !Satisfiable(old(store.constraints) + {f})
      ensures old(store.table.Independent()) && sighted && (r == Accepted || r == Trivial) ==> store.table.Independent()
      ensures AllPointwise(old(store.constraints)) && Pointwise(f) ==>
                sighted && (r == Accepted || r == Trivial ==> AllPointwise(store.constraints))
    {
      hide ConstraintManager.Valid, FactorTable.Independent, Equivalent, Satisfiable, Sat, Eval, WF, AllPointwise, Pointwise;
      hide ConstraintManager.News, ConstraintManager.Learnt, Denied, Determined;
      sighted := true;
      ghost var c := store.constraints;
      MorePointwise(c, f);
      if f.Constant? {
        ConstantCondition(c, f);
        return if f != True then Fatal else Trivial, true;
      }
      var out;
      out, sighted := store.AddConstraint(f);
      r := match out case Added => Accepted case Inconsistent => Rejected case Aborted => Broken;
    }

    /** `getNextPathEntry`. */
    method NextEntry() returns (entry: PathEntry)
      requires position < |trace|
      modifies this
      ensures entry == trace[old(position)] && position == old(position) + 1
    {
      entry := trace[position];
      position := position + 1;
    }

    /** There is an entry to replay the event with. */
    ghost predicate Ready(e: Event)
      reads this, store, store.table, store.table.indexer, store.table.indexer.factors, store.memo, store.visitor
    {
      store.Valid() && solver.Exact() && !e.Halt? && Recordable(e) && position < |trace|
    }

    /** Add the constraint that pins a decision. `Executor::branch` ignores what
        adding it returns; `Executor::fork` (strict) takes false for an error, even
        for a condition that is the constant true. */
    method Pin(f: Formula, strict: bool, ghost entry: PathEntry, ghost e: Event, t: Target) returns (s: Step, ghost sighted: bool)
      requires store.Valid() && !e.Halt? && StandsFor(f, store.constraints, entry, e, t) && (strict ==> !f.Constant?)
      modifies store.Repr()
      ensures fresh(store.Repr() - old(store.Repr()))
      ensures s == Went(t) || s == StoreFailed || s == if strict || f == False then Mismatch else Forced(t)
      ensures s == Went(t) ==> store.Valid() && Narrowed(old(store.constraints), store.constraints, entry, e, t)
      ensures s == Mismatch || s.Forced? ==> Refused(old(store.constraints), entry, e)
      ensures old(store.table.Independent()) && sighted ==>
                if s.Went? then store.table.Independent() else Refused(old(store.constraints), entry, e)
      ensures AllPointwise(old(store.constraints)) && Pointwise(f) ==>
                sighted && (s.Went? ==> AllPointwise(store.constraints))
    {
      hide ConstraintManager.Valid, FactorTable.Independent, Equivalent, Satisfiable, Sat, Eval, WF, Decide, Records;
      hide AllPointwise, Pointwise, StandsFor, Narrowed, Refused;
      var r;
      ghost var c := store.constraints;
      r, sighted := AddPathConstraint(f);
      NarrowedBy(c, f, store.constraints, entry, e, t);
      if r == Accepted || (r == Trivial && !strict) {
        s := Went(t);
      } else if r == Broken {
        s := StoreFailed;
      } else if r == Rejected && !strict {
        s := Forced(t);
      } else {
        s := Mismatch;
      }
    }

    /** `Executor::fork` while replaying. */
    method Fork(cond: Formula) returns (s: Step, ghost sighted: bool)
      requires Ready(Branch(cond))
      modifies this, store.Repr()
      ensures fresh(store.Repr() - old(store.Repr()))
      ensures !s.Forced? && s != TooMany && position == old(position) + 1
      ensures Followed(old(store.constraints), old(trace[position]), Branch(cond), s)
      ensures s.Went? ==> store.Valid()
      ensures s.Went? ==> Narrowed(old(store.constraints), store.constraints, old(trace[position]), Branch(cond), s.target)
      ensures old(store.table.Independent()) && sighted ==>
                if s.Went? then store.table.Independent()
                else Refused(old(store.constraints), old(trace[position]), Branch(cond))
      ensures AllPointwise(old(store.constraints)) && Pointwise(cond) ==>
                sighted && (s.Went? ==> AllPointwise(store.constraints))
    {
      hide ConstraintManager.Valid, FactorTable.Independent, Equivalent, Sat, Eval, WF, Solver.Exact, Recordable;
      hide AllPointwise, Pointwise, StandsFor, Narrowed, Refused;
      sighted := true;
      ghost var c := store.constraints;
      var res := Unknown;
      if callSolver {
        res := solver.Evaluate(store.constraints, cond);
      } else if cond.Constant? {
        res := if cond == True then MustBeTrue else MustBeFalse;
      }
      var entry := NextEntry();
      SettledBranch(solver, c, cond, res, callSolver, entry);
      if !entry.FORK? {
        return Mismatch, true;
      }
      if res == MustBeTrue || res == MustBeFalse {
        if entry.br != (res == MustBeTrue) {
          return Mismatch, true;
        }
        s := Went(Edge(entry.br));
      } else {
        var f := if entry.br then cond else IsZero(cond);
        BranchConstraint(c, cond, entry, f);
        s, sighted := Pin(f, true, entry, Branch(cond), Edge(entry.br));
      }
    }

    /** The `Switch` arm while replaying. */
    method Switch(value: Term, cases: seq<Case>, default_: nat) returns (s: Step, ghost sighted: bool)
      requires Ready(Event.Switch(value, cases, default_))
      modifies this, store.Repr()
      ensures fresh(store.Repr() - old(store.Repr()))
      ensures var e := Event.Switch(value, cases, default_);
              && (s == TooMany <==> !Countable(e)) && position == old(position) + (if s == TooMany then 0 else 1)
              && (s != TooMany ==> Followed(old(store.constraints), old(trace[position]), e, s))
              && (s.Went? ==> Narrowed(old(store.constraints), store.constraints, old(trace[position]), e, s.target))
              && (old(store.table.Independent()) && sighted && s != TooMany ==>
                    if s.Went? then store.table.Independent() else Refused(old(store.constraints), old(trace[position]), e))
      ensures s.Went? ==> store.Valid()
      ensures AllPointwise(old(store.constraints)) && Pointwise(value) ==>
                sighted && (s.Went? ==> AllPointwise(store.constraints))
    {
      hide ConstraintManager.Valid, FactorTable.Independent, Sat, WF, Solver.Exact, Decide, Event.WellFormed, Records;
      hide CaseConstraint, IntoBlock, AllBlocks, FindCase, Successor, Eval, AllPointwise, Pointwise;
      hide StandsFor, Narrowed, Refused;
      sighted := true;
      ghost var c, e := store.constraints, Event.Switch(value, cases, default_);
      SwitchParts(value, cases, default_);
      var blocks, counted := CollectBlocks(cases, default_);
      if !counted {
        return TooMany, true;
      }
      var entry := NextEntry();
      SwitchEntries(c, value, cases, default_, entry);
      if value.Constant? {
        var taken := FindCase(cases, value.value);
        if !entry.SWITCH_EXPIDX? || entry.switchIndex != taken % 0x10000 {
          return Mismatch, true;
        }
        return Went(Block(Successor(cases, default_, taken))), true;
      }
      var constraints := CaseConstraints(value, cases);
      if entry.SWITCH_EXPIDX? {
        if entry.switchIndex > |cases| {
          return Mismatch, true;
        }
        if Pointwise(value) {
          IntoBlockPointwise(value, cases, default_, 0, |cases| + 1);
        }
        s, sighted := Pin(constraints[entry.switchIndex], false, entry, e, Block(Successor(cases, default_, entry.switchIndex)));
      } else if entry.SWITCH_BBIDX? {
        if entry.switchIndex >= |blocks| {
          return Mismatch, true;
        }
        var f := BlockConstraint(value, cases, default_, constraints, blocks[entry.switchIndex]);
        if Pointwise(value) {
          IntoBlockPointwise(value, cases, default_, blocks[entry.switchIndex], |cases| + 1);
        }
        s, sighted := Pin(f, false, entry, e, Block(blocks[entry.switchIndex]));
      } else {
        s := Mismatch;
      }
    }

    /** The `IndirectBr` arm while replaying. */
    method IndirectBr(address: Term, labels: seq<Bits>) returns (s: Step, ghost sighted: bool)
      requires Ready(Event.IndirectBr(address, labels))
      modifies this, store.Repr()
      ensures fresh(store.Repr() - old(store.Repr()))
      ensures var e := Event.IndirectBr(address, labels);
              && (s == TooMany <==> !Countable(e)) && position == old(position) + (if s == TooMany then 0 else 1)
              && (s != TooMany ==> Followed(old(store.constraints), old(trace[position]), e, s))
              && (s.Went? ==> Narrowed(old(store.constraints), store.constraints, old(trace[position]), e, s.target))
              && (old(store.table.Independent()) && sighted && s != TooMany ==>
                    if s.Went? then store.table.Independent() else Refused(old(store.constraints), old(trace[position]), e))
      ensures s.Went? ==> store.Valid()
      ensures AllPointwise(old(store.constraints)) && Pointwise(address) ==>
                sighted && (s.Went? ==> AllPointwise(store.constraints))
    {
      hide ConstraintManager.Valid, FactorTable.Independent, Sat, WF, Solver.Exact, Solver.ToUnique, Eval, Records, Decide;
      hide LabelConstraint, AllPointwise, Pointwise, StandsFor, Narrowed, Refused;
      sighted := true;
      ghost var c, e := store.constraints, Event.IndirectBr(address, labels);
      PicksFit(solver);
      var at := solver.ToUnique(store.constraints, address);
      var dests, exprs, _, counted := FeasibleLabels(store.constraints, at, labels);
      if !counted {
        return TooMany, true;
      }
      var entry := NextEntry();
      LabelEntries(c, address, at, labels, entry);
      if !entry.INDIRECTBR? {
        return Mismatch, true;
      }
      var i := entry.indirectbrIndex;
      if at.Constant? {
        // the index of the concrete address among the feasible labels
        if i >= |dests| || exprs[i].None? || dests[i] != at.value {
          return Mismatch, true;
        }
        return Went(Label(at.value)), true;
      }
      if i >= |dests| || exprs[i].None? {
        return Mismatch, true;
      }
      LabelPointwise(address, dests[i]);
      s, sighted := Pin(exprs[i].value, false, entry, e, Label(dests[i]));
    }

    /** The distinct labels, each with its constraint if that is feasible, the
        condition that the address is none of them, and whether the counter of 8
        bits has their number. */
    method FeasibleLabels(c: set<Formula>, at: Term, labels: seq<Bits>)
      returns (dests: seq<Bits>, exprs: seq<Option<Formula>>, errorCase: Formula, counted: bool)
      requires forall i :: 0 <= i < |labels| ==> |labels[i]| == Width(at)
      ensures dests == Unique(labels) && |exprs| == |dests|
      ensures forall i :: 0 <= i < |dests| ==> |dests[i]| == Width(at)
      ensures forall i :: 0 <= i < |dests| ==> exprs[i] == FeasibleLabel(c, at, dests[i])
      ensures forall a: Assignment :: Holds(errorCase, a) <==> Eval(at, a) !in dests
      ensures counted <==> |Unique(labels)| < 0x100
    {
      hide LabelConstraint, FeasibleLabel, AndCreate, IsZero, Eval, WF, Unique;
      TrueHolds();
      NoLabels(labels);
      dests, exprs, errorCase := [], [], True;
      var bbindex: LabelIndex := 0;
      for k := 0 to |labels|
        invariant dests == Unique(labels[..k]) && |exprs| == |dests| && bbindex == |dests| % 0x100
        invariant forall i :: 0 <= i < |dests| ==> |dests[i]| == Width(at)
        invariant forall i :: 0 <= i < |dests| ==> exprs[i] == FeasibleLabel(c, at, dests[i])
        invariant forall a: Assignment :: Holds(errorCase, a) <==> Eval(at, a) !in dests
      {
        OneMoreLabel(labels, k);
        if labels[k] !in dests {
          AnotherLabel(errorCase, at, dests, labels[k]);
          errorCase := AndCreate(errorCase, IsZero(LabelConstraint(at, labels[k])));
          dests := dests + [labels[k]];
          exprs := exprs + [FeasibleLabel(c, at, labels[k])];
          bbindex := (bbindex + 1) % 0x100;
        }
      }
      assert labels[..|labels|] == labels;
      counted := |dests| == bbindex;
    }

    function FeasibleLabel(c: set<Formula>, at: Term, l: Bits): Option<Formula>
      requires |l| == Width(at)
    {
      if solver.MayBeTrue(c, LabelConstraint(at, l)) then Some(LabelConstraint(at, l)) else None
    }

    /** What each way of replaying an indirect branch comes to. */
    lemma LabelEntries(c: set<Formula>, address: Term, at: Term, labels: seq<Bits>, entry: PathEntry)
      requires solver.Exact() && (forall i :: 0 <= i < |labels| ==> |labels[i]| == Width(address))
      requires (forall d: set<Formula>, t: Term :: |solver.pick(d, t)| == Width(t)) && at == solver.ToUnique(c, address)
      ensures !at.Constant? ==> at == address
      ensures var e := Event.IndirectBr(address, labels);
              if !Replayable(entry, e) then Refused(c, entry, e)
              else
                var l := Unique(labels)[entry.indirectbrIndex];
                && |l| == Width(at)
                && (FeasibleLabel(c, at, l).None? ==> Refused(c, entry, e))
                && (at.Constant? ==> if l == at.value then Narrowed(c, c, entry, e, Label(l)) else Refused(c, entry, e))
                && (!at.Constant? ==> StandsFor(LabelConstraint(at, l), c, entry, e, Label(l)))
    {
      hide Solver.Exact, LabelConstraint, Sat, Eval, Unique, WF, Width, Solver.ToUnique;
      ToUniqueKeeps(solver, c, address);
      forall y: Assignment | Sat(c, y) ensures Eval(at, y) == Eval(address, y) {
        ToUniqueValue(solver, c, address, y);
      }
      var e := Event.IndirectBr(address, labels);
      if Replayable(entry, e) {
        var l := Unique(labels)[entry.indirectbrIndex];
        assert l in Unique(labels) && l in labels;
        forall y: Assignment ensures Holds(LabelConstraint(at, l), y) <==> Eval(at, y) == l {
          LabelHolds(at, l, y);
        }
        MayBeTrueMeans(solver, c, LabelConstraint(at, l));
      }
    }

    /** Replay one event, whatever the trace says. */
    method Advance(e: Event) returns (s: Step, ghost sighted: bool)
      requires Ready(e)
      modifies this, store.Repr()
      ensures fresh(store.Repr() - old(store.Repr()))
      ensures (s == TooMany <==> !Countable(e)) && position == old(position) + (if s == TooMany then 0 else 1)
      ensures s != TooMany ==> Followed(old(store.constraints), old(trace[position]), e, s)
      ensures s.Went? ==> store.Valid()
      ensures s.Went? ==> Narrowed(old(store.constraints), store.constraints, old(trace[position]), e, s.target)
      ensures old(store.table.Independent()) && sighted && s != TooMany ==>
                if s.Went? then store.table.Independent() else Refused(old(store.constraints), old(trace[position]), e)
      ensures AllPointwise(old(store.constraints)) && PointwiseEvent(e) ==>
                sighted && (s.Went? ==> AllPointwise(store.constraints))
    {
      hide *;
      ReadyEvent(e);
      EventPointwise(e);
      BranchCountable(e);
      if e.Branch? {
        s, sighted := Fork(e.cond);
      } else if e.Switch? {
        s, sighted := Switch(e.value, e.cases, e.default_);
      } else {
        s, sighted := IndirectBr(e.address, e.labels);
      }
    }

    /** Replay: whatever the trace, the path taken is the one its entries name, and the
        constraints gathered are those of the start and what the entries say, no more
        and no less; so they admit only inputs that run that path. It stops early when
        the trace ends or no admitted input follows it, when a count overflows, or when
        the constraint store aborts. The trace of a run on `x` that the state admits is
        never refused: it is followed to its end. */
    method Run(p: Program, ghost x: Assignment, ghost targets: seq<Target>)
      returns (path: seq<Target>, stop: Option<Step>, ghost sighted: bool)
      requires store.Valid() && solver.Exact() && position == 0
      requires (forall q :: Recordable(p(q))) || (Sat(store.constraints, x) && TraceOf(p, x, targets, trace))
      modifies this, store.Repr()
      ensures fresh(store.Repr() - old(store.Repr()))
      ensures |path| <= position <= |path| + 1 && position <= |trace|
      ensures stop.None? ==> p(path).Halt? && position == |path| && store.Valid()
      ensures stop.None? ==> Gathered(old(store.constraints), store.constraints, p, trace, path)
      ensures stop.None? ==> forall y: Assignment :: Sat(store.constraints, y) ==> RunOf(p, y, path)
      ensures stop.Some? ==> !stop.value.Went? && !p(path).Halt?
      ensures stop == Some(TooMany) ==> !Countable(p(path))
      ensures stop.None? ==> CountableRun(p, path)
      ensures Sat(old(store.constraints), x) && TraceOf(p, x, targets, trace) ==>
                && path <= targets && (stop == None || stop == Some(StoreFailed) || stop == Some(TooMany))
                && (stop.None? ==> path == targets && position == |trace| && Sat(store.constraints, x))
                && (old(store.table.Independent()) && sighted ==> (stop.None? <==> CountableRun(p, targets)))
      ensures Sat(old(store.constraints), x) && TraceOf(p, x, targets, trace) ==>
                AllPointwise(old(store.constraints)) && PointwiseRun(p, targets) ==> sighted
    {
      hide ConstraintManager.Valid, FactorTable.Independent, Sat, TraceOf, RunOf, Solver.Exact, Gathered, Decide;
      hide Recordable, Records, Ready, AllPointwise, PointwiseEvent, Countable, Narrowed, Refused, Followed;
      path, stop, sighted := [], None, true;
      ghost var good, start := store.table.Independent(), store.constraints;
      ghost var recorded := Sat(start, x) && TraceOf(p, x, targets, trace);
      StartRun(start, p, trace);
      while !p(path).Halt?
        invariant store.Valid() && fresh(store.Repr() - old(store.Repr())) && stop.None?
        invariant position == |path| <= |trace| && Gathered(start, store.constraints, p, trace, path)
        invariant recorded ==> |path| <= |targets| && path == targets[..|path|] && Sat(store.constraints, x)
        invariant forall k :: 0 <= k < |path| ==> Countable(p(path[..k]))
        invariant recorded && good && sighted ==> store.table.Independent()
        invariant AllPointwise(start) && recorded && PointwiseRun(p, targets) ==> sighted && AllPointwise(store.constraints)
        decreases |trace| - |path|
      {
        ghost var c := store.constraints;
        if recorded {
          NextReady(p, x, targets, trace, |path|);
        }
        if position == |trace| {
          return path, Some(Mismatch), sighted;
        }
        MakeReady(p(path));
        var s;
        ghost var seen;
        s, seen := Advance(p(path));
        sighted := sighted && seen;
        if recorded {
          NotRefused(c, trace[|path|], p(path), x, s, store.constraints);
        }
        if !s.Went? {
          return path, Some(s), sighted;
        }
        GatherMore(start, c, store.constraints, p, trace, path, s.target);
        assert path[..|path|] == path && forall k :: 0 <= k <= |path| ==> (path + [s.target])[..k] == path[..k];
        path := path + [s.target];
      }
      GatheredRuns(start, store.constraints, p, trace, path);
      if recorded {
        EndRun(p, x, targets, trace, |path|);
      }
    }

    lemma ReadyEvent(e: Event)
      requires Ready(e)
      ensures !e.Halt?
    {
    }

    lemma MakeReady(e: Event)
      requires store.Valid() && solver.Exact() && !e.Halt? && Recordable(e) && position < |trace|
      ensures Ready(e)
    {
    }
  }

  lemma TrueHolds()
    ensures WF(True) && Width(True) == BOOL && forall a: Assignment :: Holds(True, a)
  {
  }

  /** Excluding one more label from the error case. */
  lemma AnotherLabel(errorCase: Formula, at: Term, dests: seq<Bits>, l: Bits)
    requires |l| == Width(at) && forall a: Assignment :: Holds(errorCase, a) <==> Eval(at, a) !in dests
    ensures var more := AndCreate(errorCase, IsZero(LabelConstraint(at, l)));
            forall a: Assignment :: Holds(more, a) <==> Eval(at, a) !in dests + [l]
  {
    hide LabelConstraint, AndCreate, IsZero, Eval, WF;
    var f := LabelConstraint(at, l);
    var more := AndCreate(errorCase, IsZero(f));
    forall a: Assignment ensures Holds(more, a) <==> Eval(at, a) !in dests + [l] {
      LabelHolds(at, l, a);
      NegationSound(f, a);
      BoolAnd(errorCase, IsZero(f), a);
    }
  }

  /** What a step says of the entry: it is refused only if no admitted input follows
      it, and always if it does not have the right shape. */
  ghost predicate Followed(c: set<Formula>, entry: PathEntry, e: Event, s: Step)
    requires !e.Halt?
  {
    && (s == Mismatch || s.Forced? ==> Refused(c, entry, e))
    && (!Replayable(entry, e) ==> s == Mismatch)
  }

  lemma ConstantCondition(c: set<Formula>, f: Formula)
    requires f.Constant?
    ensures f == True || f == False
    ensures f == True ==> Equivalent(c, c + {f})
    ensures f == False ==> !Satisfiable(c + {f})
  {
    OneBit(f.value, [true]);
    OneBit(f.value, [false]);
    forall a: Assignment ensures Sat(c + {f}, a) <==> Sat(c, a) && f == True {
      SatUnion(c, {f}, a);
      SatOne(f, a);
    }
  }

  /** A branch the solver, or the condition itself, settles. */
  lemma SettledBranch(solver: Solver, c: set<Formula>, cond: Formula, res: Validity, callSolver: bool, entry: PathEntry)
    requires solver.Exact()
    requires res == if callSolver then solver.Evaluate(c, cond)
                    else if cond.Constant? then (if cond == True then MustBeTrue else MustBeFalse) else Unknown
    ensures res != Unknown && entry == FORK(res == MustBeTrue) ==>
              Narrowed(c, c, entry, Branch(cond), Edge(res == MustBeTrue))
    ensures res != Unknown && entry != FORK(res == MustBeTrue) ==> Refused(c, entry, Branch(cond))
    ensures !entry.FORK? ==> Refused(c, entry, Branch(cond))
    ensures res == Unknown ==> !cond.Constant?
  {
    hide Sat, ReadAt, Apply, Solver.Exact;
    MustBeTrueMeans(solver, c, cond);
    MayBeTrueMeans(solver, c, cond);
    if cond.Constant? {
      OneBit(cond.value, [true]);
    }
    if res != Unknown {
      assert forall y: Assignment :: Sat(c, y) ==> (Holds(cond, y) <==> res == MustBeTrue);
    }
  }

  lemma BranchConstraint(c: set<Formula>, cond: Formula, entry: PathEntry, f: Formula)
    requires Recordable(Branch(cond)) && entry.FORK? && f == if entry.br then cond else IsZero(cond)
    ensures StandsFor(f, c, entry, Branch(cond), Edge(entry.br))
    ensures !cond.Constant? ==> !f.Constant?
    ensures Keeps(cond, f)
  {
    hide IsZero, Eval, Irreducible, Pointwise, Sat;
    if Pointwise(cond) {
      IsZeroPointwise(cond);
    }
    if Irreducible(cond) {
      IsZeroIrreducible(cond);
    }
    forall y: Assignment ensures Holds(f, y) <==> Holds(cond, y) == entry.br {
      NegationSound(cond, y);
    }
  }

  lemma SwitchParts(value: Term, cases: seq<Case>, default_: nat)
    requires Event.Switch(value, cases, default_).WellFormed()
    ensures DistinctCases(cases) && forall i :: 0 <= i < |cases| ==> |cases[i].value| == Width(value)
  {
  }

  /** What each way of replaying a switch comes to. */
  lemma SwitchEntries(c: set<Formula>, value: Term, cases: seq<Case>, default_: nat, entry: PathEntry)
    requires DistinctCases(cases) && forall i :: 0 <= i < |cases| ==> |cases[i].value| == Width(value)
    ensures var e := Event.Switch(value, cases, default_);
            && (!Replayable(entry, e) ==> Refused(c, entry, e))
            && (value.Constant? ==>
                  var taken := FindCase(cases, value.value);
                  if entry == SWITCH_EXPIDX(taken % 0x10000) then
                    Narrowed(c, c, entry, e, Block(Successor(cases, default_, taken)))
                  else Refused(c, entry, e))
            && (!value.Constant? && entry.SWITCH_EXPIDX? && entry.switchIndex <= |cases| ==>
                  StandsFor(CaseConstraint(value, cases, entry.switchIndex), c, entry, e,
                            Block(Successor(cases, default_, entry.switchIndex))))
            && (!value.Constant? && entry.SWITCH_BBIDX? && entry.switchIndex < |AllBlocks(cases, default_)| ==>
                  StandsFor(IntoBlock(value, cases, default_, AllBlocks(cases, default_)[entry.switchIndex], |cases| + 1),
                            c, entry, e, Block(AllBlocks(cases, default_)[entry.switchIndex])))
  {
    hide CaseConstraint, IntoBlock, FindCase, Successor, AllBlocks, Apply, ReadAt, Sat;
    forall i, y: Assignment | 0 <= i <= |cases|
      ensures Holds(CaseConstraint(value, cases, i), y) <==> FindCase(cases, Eval(value, y)) == i
    {
      CaseHolds(value, cases, i, y);
    }
    if entry.SWITCH_BBIDX? && entry.switchIndex < |AllBlocks(cases, default_)| {
      var b := AllBlocks(cases, default_)[entry.switchIndex];
      forall y: Assignment
        ensures Holds(IntoBlock(value, cases, default_, b, |cases| + 1), y) <==>
                Successor(cases, default_, FindCase(cases, Eval(value, y))) == b
      {
        IntoBlockHolds(value, cases, default_, b, |cases| + 1, y);
      }
    }
  }

  // ----- the loops of the switch arm -----

  /** The blocks a switch leads to, in order of first appearance, and whether the
      counter of 16 bits has their number. */
  method CollectBlocks(cases: seq<Case>, default_: nat) returns (blocks: seq<nat>, counted: bool)
    ensures blocks == AllBlocks(cases, default_)
    ensures counted <==> |AllBlocks(cases, default_)| < 0x10000
  {
    blocks := [];
    var bbindex: SwitchIndex := 0;
    for i := 0 to |cases|
      invariant blocks == Blocks(cases[..i]) && bbindex == |blocks| % 0x10000
    {
      assert cases[..i + 1][..i] == cases[..i];
      if cases[i].succ !in blocks {
        blocks := blocks + [cases[i].succ];
        bbindex := (bbindex + 1) % 0x10000;
      }
    }
    assert cases[..|cases|] == cases;
    if default_ !in blocks {
      blocks := blocks + [default_];
      bbindex := (bbindex + 1) % 0x10000;
    }
    counted := |blocks| == bbindex;
  }

  /** The same for the labels of an indirect branch and a counter of 8 bits. */
  method CollectLabels(labels: seq<Bits>) returns (dests: seq<Bits>, counted: bool)
    ensures dests == Unique(labels) && (counted <==> |Unique(labels)| < 0x100)
  {
    hide Unique;
    dests := [];
    NoLabels(labels);
    var bbindex: LabelIndex := 0;
    for k := 0 to |labels|
      invariant dests == Unique(labels[..k]) && bbindex == |dests| % 0x100
    {
      OneMoreLabel(labels, k);
      if labels[k] !in dests {
        dests := dests + [labels[k]];
        bbindex := (bbindex + 1) % 0x100;
      }
    }
    assert labels[..|labels|] == labels;
    counted := |dests| == bbindex;
  }

  lemma NoLabels(labels: seq<Bits>)
    ensures Unique(labels[..0]) == []
  {
  }

  lemma OneMoreLabel(labels: seq<Bits>, k: nat)
    requires k < |labels|
    ensures var u := Unique(labels[..k]); Unique(labels[..k + 1]) == if labels[k] in u then u else u + [labels[k]]
  {
    assert labels[..k + 1][..k] == labels[..k];
  }

  lemma BranchCountable(e: Event)
    ensures e.Branch? ==> Countable(e)
  {
  }

  // ----- counts and indices that overflow -----

  /** A label list one too long for its counter. */
  lemma LabelsOverflow() returns (e: Event)
    ensures e.IndirectBr? && Recordable(e) && |e.labels| == 0x100 && !Countable(e)
  {
    var address: Term := Constant(Zeros(INT32));
    e := Event.IndirectBr(address, seq(0x100, i requires 0 <= i < 0x100 => FromInt(i, INT32)));
    forall i, j | 0 <= i < j < |e.labels| ensures e.labels[i] != e.labels[j] {
      NumbersDiffer(i, j);
    }
    UniqueDistinct(e.labels);
  }

  /** A switch whose cases have an index each, and whose blocks do not. */
  lemma BlocksOverflow() returns (e: Event)
    ensures e.Switch? && Recordable(e) && |e.cases| == 0xFFFF && !Countable(e)
  {
    var value: Term := Constant(Zeros(INT32));
    e := Event.Switch(value, seq(0xFFFF, i requires 0 <= i < 0xFFFF => Case(FromInt(i, INT32), i)), 0xFFFF);
    forall i, j | 0 <= i < j < |e.cases| ensures e.cases[i].value != e.cases[j].value {
      NumbersDiffer(i, j);
    }
    BlocksDistinct(e.cases);
  }

  lemma NumbersDiffer(i: nat, j: nat)
    requires i < j <= 0x10000
    ensures FromInt(i, INT32) != FromInt(j, INT32)
  {
    hide FromInt, ToNat;
    PowerOf32();
    ToFromInt(i, INT32);
    ToFromInt(j, INT32);
  }

  lemma PowerOf32()
    ensures Pow2(INT32) > 0x10000
  {
    assert Pow2(8) == 0x100;
    assert Pow2(16) == 0x10000;
    assert Pow2(24) == 0x1000000;
  }

  /** A switch with few blocks and one case too many for an index. */
  lemma CasesOverflow(x: Assignment) returns (e: Event)
    ensures e.Switch? && !e.value.Constant? && Recordable(e) && Countable(e) && !Indexable(e, x)
  {
    hide FromInt, ToNat, FindCase;
    var last := FromInt(0xFFFF, INT32);
    var c: Term := Constant(last);
    var value: Term := NotOptimized(c);
    e := Event.Switch(value, seq(0x10000, i requires 0 <= i < 0x10000 => Case(FromInt(i, INT32), 0)), 0);
    forall i, j | 0 <= i < j < |e.cases| ensures e.cases[i].value != e.cases[j].value {
      NumbersDiffer(i, j);
    }
    assert e.cases[0xFFFF].value == last && Eval(value, x) == last;
    OneBlock(e.cases);
  }

  lemma SmallerRemainder(i: nat, m: nat)
    requires m > 0
    ensures i % m <= i && (i % m == i <==> i < m)
  {
  }

  /** The constraint a truncated index stands for holds under the recorded input
      exactly if nothing was cut off. */
  lemma TruncatedCase(value: Term, cases: seq<Case>, x: Assignment)
    requires DistinctCases(cases) && forall k :: 0 <= k < |cases| ==> |cases[k].value| == Width(value)
    ensures var i := FindCase(cases, Eval(value, x));
            i % 0x10000 <= |cases| && (Holds(CaseConstraint(value, cases, i % 0x10000), x) <==> i < 0x10000)
  {
    hide *;
    var i := FindCase(cases, Eval(value, x));
    SmallerRemainder(i, 0x10000);
    CaseHolds(value, cases, i % 0x10000, x);
  }

  /** The constraint of every case, the default being the conjunction of all
      negated matches. */
  method CaseConstraints(value: Term, cases: seq<Case>) returns (cs: seq<Formula>)
    requires forall i :: 0 <= i < |cases| ==> |cases[i].value| == Width(value)
    ensures |cs| == |cases| + 1 && forall i :: 0 <= i <= |cases| ==> cs[i] == CaseConstraint(value, cases, i)
  {
    hide AndCreate, IsZero, MatchCase;
    var default_: Formula, matches: seq<Formula> := True, [];
    for i := 0 to |cases|
      invariant |matches| == i && default_ == NoCase(value, cases, i)
      invariant forall k :: 0 <= k < i ==> matches[k] == MatchCase(value, cases[k])
    {
      var m := MatchCase(value, cases[i]);
      matches := matches + [m];
      default_ := AndCreate(default_, IsZero(m));
    }
    cs := [default_] + matches;
  }

  /** The disjunction of the constraints of all cases that lead to a block. */
  method BlockConstraint(value: Term, cases: seq<Case>, default_: nat, cs: seq<Formula>, block: nat) returns (f: Formula)
    requires forall i :: 0 <= i < |cases| ==> |cases[i].value| == Width(value)
    requires |cs| == |cases| + 1 && forall i :: 0 <= i <= |cases| ==> cs[i] == CaseConstraint(value, cases, i)
    ensures f == IntoBlock(value, cases, default_, block, |cases| + 1)
  {
    hide OrCreate, CaseConstraint;
    f := False;
    for i := 0 to |cases| + 1
      invariant f == IntoBlock(value, cases, default_, block, i)
    {
      if Successor(cases, default_, i) == block {
        f := OrCreate(f, cs[i]);
      }
    }
  }

  function LabelConstraint(at: Term, l: Bits): (f: Formula)
    requires |l| == Width(at)
  {
    EqCreate(at, Constant(l))
  }

  lemma LabelHolds(at: Term, l: Bits, y: Assignment)
    requires |l| == Width(at)
    ensures Holds(LabelConstraint(at, l), y) <==> Eval(at, y) == l
  {
    hide EqCreate, ReadAt, Apply;
    var v: Term := Constant(l);
    EqSound(at, v, y);
  }

  lemma LabelPointwise(at: Term, l: Bits)
    requires |l| == Width(at)
    ensures Keeps(at, LabelConstraint(at, l))
  {
    hide EqCreate, Irreducible;
    var v: Term := Constant(l);
    if Pointwise(at) {
      EqPointwise(at, v);
    }
    if Irreducible(at) {
      Literal(l);
      EqIrreducible(at, v);
    }
  }

  lemma EventPointwise(e: Event)
    ensures e.Branch? ==> (PointwiseEvent(e) <==> Pointwise(e.cond))
    ensures e.Switch? ==> (PointwiseEvent(e) <==> Pointwise(e.value))
    ensures e.IndirectBr? ==> (PointwiseEvent(e) <==> Pointwise(e.address))
  {
  }

  lemma MorePointwise(c: set<Formula>, f: Formula)
    ensures AllPointwise(c) && Pointwise(f) ==> AllPointwise(c + {f})
  {
    hide Pointwise;
  }

  // ----- whole runs -----

  /** No event of the run reads an array of input bytes at a symbolic index. */
  ghost predicate PointwiseRun(p: Program, targets: seq<Target>) {
    forall k :: 0 <= k < |targets| ==> PointwiseEvent(p(targets[..k]))
  }

  /** The constraints are those of the start and what the entries say, no more and no
      less, and whatever satisfies them takes the path. */
  ghost predicate Gathered(start: set<Formula>, c: set<Formula>, p: Program, trace: seq<PathEntry>, path: seq<Target>) {
    && |path| <= |trace| && (forall k :: 0 <= k < |path| ==> !p(path[..k]).Halt?)
    && (forall y: Assignment :: Sat(c, y) <==> Sat(start, y) && Obeys(p, trace, path, y))
    && forall y: Assignment, k :: Sat(c, y) && 0 <= k < |path| ==> Decide(p(path[..k]), y) == path[k]
  }

  /** An input does at each event of the path what the trace says. */
  ghost predicate Obeys(p: Program, trace: seq<PathEntry>, path: seq<Target>, y: Assignment)
    requires |path| <= |trace| && forall k :: 0 <= k < |path| ==> !p(path[..k]).Halt?
  {
    forall k :: 0 <= k < |path| ==> Records(trace[k], p(path[..k]), y)
  }

  lemma StartRun(c: set<Formula>, p: Program, trace: seq<PathEntry>)
    ensures Gathered(c, c, p, trace, [])
  {
    hide Sat, Decide, Records;
  }

  lemma GatherMore(start: set<Formula>, c: set<Formula>, d: set<Formula>, p: Program, trace: seq<PathEntry>,
                   path: seq<Target>, t: Target)
    requires Gathered(start, c, p, trace, path) && |path| < |trace| && !p(path).Halt?
    requires Narrowed(c, d, trace[|path|], p(path), t)
    ensures Gathered(start, d, p, trace, path + [t])
  {
    hide Sat, Decide, Records;
    var more := path + [t];
    assert forall k :: 0 <= k <= |path| ==> more[..k] == path[..k];
    assert path[..|path|] == path;
    forall y: Assignment ensures Sat(d, y) <==> Sat(start, y) && Obeys(p, trace, more, y) {
      assert Sat(d, y) <==> Sat(c, y) && Records(trace[|path|], p(path), y);
      assert Obeys(p, trace, more, y) <==> Obeys(p, trace, path, y) && Records(trace[|path|], p(path), y) by {
        ObeysMore(p, trace, path, t, y);
      }
    }
  }

  lemma ObeysMore(p: Program, trace: seq<PathEntry>, path: seq<Target>, t: Target, y: Assignment)
    requires |path| < |trace| && (forall k :: 0 <= k < |path| ==> !p(path[..k]).Halt?) && !p(path).Halt?
    requires forall k :: 0 <= k <= |path| ==> (path + [t])[..k] == path[..k]
    ensures forall k :: 0 <= k <= |path| ==> !p((path + [t])[..k]).Halt?
    ensures Obeys(p, trace, path + [t], y) <==> Obeys(p, trace, path, y) && Records(trace[|path|], p(path), y)
  {
    hide Decide, Records;
    var more := path + [t];
    assert path[..|path|] == path;
    if Obeys(p, trace, more, y) {
      forall k | 0 <= k < |path| ensures Records(trace[k], p(path[..k]), y) {
        assert Records(trace[k], p(more[..k]), y);
      }
      assert Records(trace[|path|], p(more[..|path|]), y);
    }
  }

  lemma GatheredRuns(start: set<Formula>, c: set<Formula>, p: Program, trace: seq<PathEntry>, path: seq<Target>)
    requires Gathered(start, c, p, trace, path) && p(path).Halt?
    ensures forall y: Assignment :: Sat(c, y) ==> RunOf(p, y, path)
  {
    hide Sat, Decide, Records;
  }

  /** The recorded input is not refused. */
  lemma NotRefused(c: set<Formula>, entry: PathEntry, e: Event, x: Assignment, s: Step, d: set<Formula>)
    requires !e.Halt? && Sat(c, x) && Records(entry, e, x) && (s != TooMany ==> Followed(c, entry, e, s))
    requires s.Went? ==> Narrowed(c, d, entry, e, s.target)
    ensures !Refused(c, entry, e) && s != Mismatch && !s.Forced?
    ensures s.Went? ==> Sat(d, x) && s.target == Decide(e, x)
  {
    hide Sat, Decide, Records, Replayable;
  }

  lemma NextReady(p: Program, x: Assignment, targets: seq<Target>, trace: seq<PathEntry>, k: nat)
    requires TraceOf(p, x, targets, trace) && k <= |targets| && !p(targets[..k]).Halt?
    ensures k < |targets| == |trace| && Recordable(p(targets[..k])) && Records(trace[k], p(targets[..k]), x)
    ensures Decide(p(targets[..k]), x) == targets[k] && targets[..k] + [targets[k]] == targets[..k + 1]
  {
    hide Sat, Decide, Recordable, Records;
    assert targets[..|targets|] == targets;
  }

  lemma EndRun(p: Program, x: Assignment, targets: seq<Target>, trace: seq<PathEntry>, k: nat)
    requires TraceOf(p, x, targets, trace) && k <= |targets| && p(targets[..k]).Halt?
    ensures k == |targets| && |trace| == k && targets[..k] == targets
  {
    hide Sat, Decide, Recordable, Records;
    assert targets[..|targets|] == targets;
  }
}
