/** The control decisions a trace records (`br`, `switch`, `indirectbr`), what a
    concrete run decides, and the constraints that stand for each decision. */
module Branching {
  import opened Bits
  import opened Exprs
  import opened SmartConstructors
  import opened PointReads

  datatype Case = Case(value: Bits, succ: nat)

  /** What the program does next. Basic blocks are numbered; the destinations of
      an indirect branch are label addresses. */
  datatype Event =
    | Branch(cond: Formula)
    | Switch(value: Term, cases: seq<Case>, default_: nat)
    | IndirectBr(address: Term, labels: seq<Bits>)
    | Halt
  {
    /** Case values have the width of the condition and differ; labels are
        addresses. */
    ghost predicate WellFormed() {
      && (Switch? ==> DistinctCases(cases) && forall i :: 0 <= i < |cases| ==> |cases[i].value| == Width(value))
      && (IndirectBr? ==> forall i :: 0 <= i < |labels| ==> |labels[i]| == Width(address))
    }
  }

  datatype Target = Edge(taken: bool) | Block(block: nat) | Label(at: Bits)

  ghost predicate DistinctCases(cases: seq<Case>) {
    forall i, j :: 0 <= i < j < |cases| ==> cases[i].value != cases[j].value
  }

  // ----- concrete decisions -----

  /** `findCaseValue`: the successor index, 0 for the default. */
  function FindCase(cases: seq<Case>, v: Bits): (i: nat)
    ensures i <= |cases|
    ensures i > 0 ==> cases[i - 1].value == v
    ensures i == 0 ==> forall k :: 0 <= k < |cases| ==> cases[k].value != v
  {
    if cases == [] then 0
    else if cases[|cases| - 1].value == v then |cases|
    else FindCase(cases[..|cases| - 1], v)
  }

  function Successor(cases: seq<Case>, default_: nat, i: nat): nat
    requires i <= |cases|
  {
    if i == 0 then default_ else cases[i - 1].succ
  }

  /** Where an event leads under an assignment. */
  function Decide(e: Event, x: Assignment): Target
    requires !e.Halt?
  {
    match e
    case Branch(cond) => Edge(Holds(cond, x))
    case Switch(value, cases, default_) => Block(Successor(cases, default_, FindCase(cases, Eval(value, x))))
    case IndirectBr(address, _) => Label(Eval(address, x))
  }

  /** A switch goes where the case with the value of its condition leads, and to the
      default if there is none. */
  lemma SwitchGoes(value: Term, cases: seq<Case>, default_: nat, x: Assignment)
    requires DistinctCases(cases)
    ensures forall i :: 0 <= i < |cases| && cases[i].value == Eval(value, x) ==>
              Decide(Switch(value, cases, default_), x) == Block(cases[i].succ)
    ensures (forall i :: 0 <= i < |cases| ==> cases[i].value != Eval(value, x)) ==>
              Decide(Switch(value, cases, default_), x) == Block(default_)
  {
    hide Eval, WF;
  }

  // ----- the constraint of each switch case -----

  function MatchCase(value: Term, c: Case): (f: Formula)
    requires |c.value| == Width(value)
  {
    EqCreate(value, Constant(c.value))
  }

  /** No case matches: conjunction over the first `n` cases. */
  function NoCase(value: Term, cases: seq<Case>, n: nat): (f: Formula)
    requires n <= |cases| && forall i :: 0 <= i < |cases| ==> |cases[i].value| == Width(value)
  {
    if n == 0 then True else AndCreate(NoCase(value, cases, n - 1), IsZero(MatchCase(value, cases[n - 1])))
  }

  function CaseConstraint(value: Term, cases: seq<Case>, i: nat): (f: Formula)
    requires i <= |cases| && forall k :: 0 <= k < |cases| ==> |cases[k].value| == Width(value)
  {
    if i == 0 then NoCase(value, cases, |cases|) else MatchCase(value, cases[i - 1])
  }

  lemma MatchHolds(value: Term, c: Case, y: Assignment)
    requires |c.value| == Width(value)
    ensures Holds(MatchCase(value, c), y) <==> Eval(value, y) == c.value
  {
    hide EqCreate, ReadAt, Apply;
    var v: Term := Constant(c.value);
    EqSound(value, v, y);
  }

  lemma {:induction false} NoCaseHolds(value: Term, cases: seq<Case>, n: nat, y: Assignment)
    requires n <= |cases| && forall i :: 0 <= i < |cases| ==> |cases[i].value| == Width(value)
    ensures Holds(NoCase(value, cases, n), y) <==> forall i :: 0 <= i < n ==> cases[i].value != Eval(value, y)
  {
    hide AndCreate, IsZero, MatchCase, ReadAt, Apply;
    if n > 0 {
      NoCaseHolds(value, cases, n - 1, y);
      var m := MatchCase(value, cases[n - 1]);
      MatchHolds(value, cases[n - 1], y);
      NegationSound(m, y);
      BoolAnd(NoCase(value, cases, n - 1), IsZero(m), y);
    }
  }

  /** The constraint of a case holds exactly where the run takes it. */
  lemma CaseHolds(value: Term, cases: seq<Case>, i: nat, y: Assignment)
    requires i <= |cases| && DistinctCases(cases) && forall k :: 0 <= k < |cases| ==> |cases[k].value| == Width(value)
    ensures Holds(CaseConstraint(value, cases, i), y) <==> FindCase(cases, Eval(value, y)) == i
  {
    hide NoCase, MatchCase, Eval, WF;
    if i == 0 {
      NoCaseHolds(value, cases, |cases|, y);
    } else {
      MatchHolds(value, cases[i - 1], y);
    }
  }

  // ----- the constraint of a successor block -----

  /** Disjunction of the constraints of the first `n` successor indices that lead
      to a block. */
  function IntoBlock(value: Term, cases: seq<Case>, default_: nat, block: nat, n: nat): (f: Formula)
    requires n <= |cases| + 1 && forall k :: 0 <= k < |cases| ==> |cases[k].value| == Width(value)
  {
    if n == 0 then False
    else
      var rest := IntoBlock(value, cases, default_, block, n - 1);
      if Successor(cases, default_, n - 1) == block then OrCreate(rest, CaseConstraint(value, cases, n - 1)) else rest
  }

  lemma {:induction false} IntoBlockHolds(value: Term, cases: seq<Case>, default_: nat, block: nat, n: nat, y: Assignment)
    requires n <= |cases| + 1 && DistinctCases(cases) && forall k :: 0 <= k < |cases| ==> |cases[k].value| == Width(value)
    ensures Holds(IntoBlock(value, cases, default_, block, n), y) <==>
            FindCase(cases, Eval(value, y)) < n && Successor(cases, default_, FindCase(cases, Eval(value, y))) == block
  {
    hide OrCreate, CaseConstraint, ReadAt, Apply;
    if n > 0 {
      IntoBlockHolds(value, cases, default_, block, n - 1, y);
      CaseHolds(value, cases, n - 1, y);
      BoolOr(IntoBlock(value, cases, default_, block, n - 1), CaseConstraint(value, cases, n - 1), y);
    }
  }

  /** The successor blocks in order of first appearance, the default last. */
  function Blocks(cases: seq<Case>): (b: seq<nat>)
  {
    if cases == [] then []
    else
      var b := Blocks(cases[..|cases| - 1]);
      if cases[|cases| - 1].succ in b then b else b + [cases[|cases| - 1].succ]
  }

  function AllBlocks(cases: seq<Case>, default_: nat): seq<nat> {
    if default_ in Blocks(cases) then Blocks(cases) else Blocks(cases) + [default_]
  }

  /** Every successor has one index among the blocks. */
  lemma {:induction false} BlocksListed(cases: seq<Case>)
    ensures forall i :: 0 <= i < |cases| ==> cases[i].succ in Blocks(cases)
    ensures forall i, j :: 0 <= i < j < |Blocks(cases)| ==> Blocks(cases)[i] != Blocks(cases)[j]
  {
    if cases != [] {
      BlocksListed(cases[..|cases| - 1]);
      assert forall i :: 0 <= i < |cases| - 1 ==> cases[i] == cases[..|cases| - 1][i];
    }
  }

  /** A block is numbered after those that appear before it. */
  lemma {:induction false} BlocksInOrder(cases: seq<Case>, n: nat)
    requires n <= |cases|
    ensures Blocks(cases[..n]) <= Blocks(cases)
    decreases |cases|
  {
    if n == |cases| {
      assert cases[..n] == cases;
    } else {
      var last := |cases| - 1;
      BlocksInOrder(cases[..last], n);
      assert cases[..last][..n] == cases[..n];
    }
  }

  /** A case that leads somewhere new gives its block the next number. */
  lemma NextBlock(cases: seq<Case>, n: nat)
    requires n < |cases| && forall i :: 0 <= i < n ==> cases[i].succ != cases[n].succ
    ensures var k := |Blocks(cases[..n])|; k < |Blocks(cases)| && Blocks(cases)[k] == cases[n].succ
  {
    var before := cases[..n];
    BlocksFrom(before);
    assert cases[..n + 1][..n] == before;
    assert Blocks(cases[..n + 1]) == Blocks(before) + [cases[n].succ];
    BlocksInOrder(cases, n + 1);
  }

  lemma {:induction false} BlocksFrom(cases: seq<Case>)
    ensures forall b :: b in Blocks(cases) ==> exists i :: 0 <= i < |cases| && cases[i].succ == b
  {
    if cases != [] {
      var rest := cases[..|cases| - 1];
      BlocksFrom(rest);
      forall b | b in Blocks(cases) ensures exists i :: 0 <= i < |cases| && cases[i].succ == b {
        if b in Blocks(rest) {
          var i :| 0 <= i < |rest| && rest[i].succ == b;
          assert cases[i].succ == b;
        } else {
          assert cases[|cases| - 1].succ == b;
        }
      }
    }
  }

  /** The blocks of the cases come first, and the default, if no case leads there,
      last. */
  lemma DefaultLast(cases: seq<Case>, default_: nat)
    ensures Blocks(cases) <= AllBlocks(cases, default_)
    ensures (exists i :: 0 <= i < |cases| && cases[i].succ == default_) <==> AllBlocks(cases, default_) == Blocks(cases)
    ensures (forall i :: 0 <= i < |cases| ==> cases[i].succ != default_) ==>
              |AllBlocks(cases, default_)| == |Blocks(cases)| + 1 && AllBlocks(cases, default_)[|Blocks(cases)|] == default_
  {
    BlocksFrom(cases);
    BlocksListed(cases);
  }

  lemma {:induction false} BlocksDistinct(cases: seq<Case>)
    requires forall i, j :: 0 <= i < j < |cases| ==> cases[i].succ != cases[j].succ
    ensures |Blocks(cases)| == |cases| && forall b :: b in Blocks(cases) ==> exists i :: 0 <= i < |cases| && cases[i].succ == b
  {
    BlocksFrom(cases);
    if cases != [] {
      var rest := cases[..|cases| - 1];
      BlocksDistinct(rest);
      assert cases[|cases| - 1].succ !in Blocks(rest);
    }
  }

  lemma {:induction false} OneBlock(cases: seq<Case>)
    requires forall i :: 0 <= i < |cases| ==> cases[i].succ == 0
    ensures AllBlocks(cases, 0) == [0] && Blocks(cases) == if cases == [] then [] else [0]
  {
    if cases != [] {
      OneBlock(cases[..|cases| - 1]);
    }
  }

  // ----- reads at constant indices -----

  /** The event reads no array of input bytes at a symbolic index. */
  predicate PointwiseEvent(e: Event) {
    match e
    case Branch(cond) => Pointwise(cond)
    case Switch(value, _, _) => Pointwise(value)
    case IndirectBr(address, _) => Pointwise(address)
    case Halt => true
  }

  lemma {:induction false} NoCasePointwise(value: Term, cases: seq<Case>, n: nat)
    requires n <= |cases| && forall i :: 0 <= i < |cases| ==> |cases[i].value| == Width(value)
    requires Pointwise(value)
    ensures Pointwise(NoCase(value, cases, n))
    ensures forall i :: 0 <= i < n ==> Pointwise(MatchCase(value, cases[i]))
  {
    hide AndCreate, IsZero, EqCreate;
    if n > 0 {
      NoCasePointwise(value, cases, n - 1);
      var v: Term := Constant(cases[n - 1].value);
      EqPointwise(value, v);
      IsZeroPointwise(MatchCase(value, cases[n - 1]));
      AndPointwise(NoCase(value, cases, n - 1), IsZero(MatchCase(value, cases[n - 1])));
    }
  }

  lemma {:induction false} IntoBlockPointwise(value: Term, cases: seq<Case>, default_: nat, block: nat, n: nat)
    requires n <= |cases| + 1 && forall k :: 0 <= k < |cases| ==> |cases[k].value| == Width(value)
    requires Pointwise(value)
    ensures Pointwise(IntoBlock(value, cases, default_, block, n))
    ensures forall i :: 0 <= i < n ==> Pointwise(CaseConstraint(value, cases, i))
  {
    hide OrCreate, NoCase, MatchCase;
    NoCasePointwise(value, cases, |cases|);
    if n > 0 {
      IntoBlockPointwise(value, cases, default_, block, n - 1);
      AndPointwise(IntoBlock(value, cases, default_, block, n - 1), CaseConstraint(value, cases, n - 1));
    }
  }

  // ----- the destinations of an indirect branch -----

  /** Labels without repetition, in order. */
  function Unique(labels: seq<Bits>): (u: seq<Bits>)
    ensures forall l :: l in u <==> l in labels
    ensures forall i, j :: 0 <= i < j < |u| ==> u[i] != u[j]
  {
    if labels == [] then []
    else
      var u := Unique(labels[..|labels| - 1]);
      if labels[|labels| - 1] in u then u else u + [labels[|labels| - 1]]
  }

  lemma {:induction false} UniqueDistinct(labels: seq<Bits>)
    requires forall i, j :: 0 <= i < j < |labels| ==> labels[i] != labels[j]
    ensures Unique(labels) == labels
  {
    if labels != [] {
      UniqueDistinct(labels[..|labels| - 1]);
    }
  }

  /** A label is numbered after those that appear before it. */
  lemma {:induction false} UniqueInOrder(labels: seq<Bits>, n: nat)
    requires n <= |labels|
    ensures Unique(labels[..n]) <= Unique(labels)
    decreases |labels|
  {
    if n == |labels| {
      assert labels[..n] == labels;
    } else {
      UniqueInOrder(labels[..|labels| - 1], n);
      assert labels[..|labels| - 1][..n] == labels[..n];
    }
  }

  lemma NextLabel(labels: seq<Bits>, n: nat)
    requires n < |labels| && labels[n] !in labels[..n]
    ensures var k := |Unique(labels[..n])|; k < |Unique(labels)| && Unique(labels)[k] == labels[n]
  {
    assert labels[..n + 1][..n] == labels[..n];
    assert Unique(labels[..n + 1]) == Unique(labels[..n]) + [labels[n]];
    UniqueInOrder(labels, n + 1);
  }
}
