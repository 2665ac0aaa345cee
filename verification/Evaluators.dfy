/** Partial evaluation of an expression under bindings of some of its input bytes
    (`Assignment::evaluate`, lib/Expr/ExprEvaluator.cpp). */
module Evaluators {
  import opened Bits
  import opened Exprs
  import opened SmartConstructors
  import opened SliceConstructors
  import opened ArrayReads
  import opened Replacement

  type Bindings = map<Array, seq<Byte>>

  type Index = v: Bits | |v| == INT32 witness Zeros(INT32)

  lemma Indexed(v: Index)
    ensures WF(Constant(v)) && Width(Constant(v)) == INT32
  {
  }

  lemma ByteTerm(v: Byte)
    ensures WF(Constant(v))
  {
  }

  /** `Assignment::evaluate(array, index)`: an unbound byte stays free, or is 0. */
  function InitialValue(b: Bindings, free: bool, root: Array, v: Index): (r: Term)
    ensures Width(r) == INT8
  {
    Indexed(v);
    if root in b && ToNat(v) < |b[root]| then Constant(b[root][ToNat(v)])
    else if free then ReadCreate(root, NoUpdates, Constant(v))
    else Constant(Zeros(INT8))
  }

  /** `NotOptimized` is dropped from a result. */
  function Post(e: Term): (r: Term)
    ensures Width(r) == Width(e)
  {
    if e.NotOptimized? then e.src else e
  }

  lemma PostValue(e: Term, a: Assignment)
    ensures Eval(Post(e), a) == Eval(e, a)
  {
    hide *;
    NodeValue(e, a);
    PostIs(e);
  }

  lemma PostIs(e: Term)
    ensures Post(e) == if e.NotOptimized? then e.src else e
  {
  }

  function ReadFrom(e: Term, v: Term): (r: Term)
    requires e.Read? && Width(v) == INT32
    ensures Width(r) == Width(e)
  {
    Post(if v != e.index then ReadCreate(e.root, e.head, v) else e)
  }

  lemma ReadFromValue(e: Term, v: Term, a: Assignment)
    requires e.Read? && Width(v) == INT32 && Eval(v, a) == Eval(e.index, a)
    ensures Eval(ReadFrom(e, v), a) == Eval(e, a)
  {
    hide Eval, ReadAt, WFUpdates, ReadCreate, Post;
    ReadNode(e, a);
    ReadSound(e.root, e.head, v, a);
    PostValue(ReadCreate(e.root, e.head, v), a);
    PostValue(e, a);
  }

  function NodeFrom(e: Term, k: seq<Term>): (r: Term)
    requires !e.Constant? && !e.Read? && Fits(e, k)
    ensures Width(r) == Width(e)
  {
    Post(if k != Kids(e) then Rebuild(e, k) else e)
  }

  /** A divisor that became 0 is left as it was. */
  function DivisionFrom(e: Term, k: seq<Term>): (r: Term)
    requires e.Binary? && Fits(e, k)
    ensures Width(r) == Width(e)
  {
    var d := if IsZeroConst(k[1]) then [k[0], e.right] else k;
    if d != Kids(e) then Rebuild(e, d) else e
  }

  lemma FromValue(e: Term, k: seq<Term>, a: Assignment)
    requires !e.Constant? && !e.Read? && Fits(e, k)
    requires forall i :: 0 <= i < |k| ==> Eval(k[i], a) == Eval(Kids(e)[i], a)
    ensures Eval(NodeFrom(e, k), a) == Eval(e, a)
    ensures e.Binary? ==> Eval(DivisionFrom(e, k), a) == Eval(e, a)
  {
    hide Eval, Rebuild, Post, Width;
    RebuildValue(e, k, a);
    PostValue(Rebuild(e, k), a);
    PostValue(e, a);
    if e.Binary? {
      var right: Term := Kids(e)[1];
      assert right == e.right;
      RebuildValue(e, [k[0], right], a);
    }
  }

  function Evaluated(b: Bindings, free: bool, e: Term): (r: Term)
    ensures Width(r) == Width(e)
    decreases Size(e)
  {
    if e.Constant? then e
    else if e.Read? then
      var v := Evaluated(b, free, e.index);
      if v.Constant? then EvaluatedRead(b, free, e.root, e.head, v.value)
      else ReadFrom(e, v)
    else if forall k :: k in Kids(e) ==> k.Constant? then Rebuild(e, Kids(e))
    else
      var k := seq(|Kids(e)|, i requires 0 <= i < |Kids(e)| => Evaluated(b, free, Kids(e)[i]));
      if e.Binary? && e.op.IsDivision() then DivisionFrom(e, k) else NodeFrom(e, k)
  }

  /** `evalRead`: the newest write known to be to this cell, unless one that may
      be comes first. */
  function EvaluatedRead(b: Bindings, free: bool, root: Array, u: WriteList, v: Index): (r: Term)
    ensures Width(r) == INT8
    decreases UpdatesSize(u)
  {
    Indexed(v);
    if u.Update? then
      var at := Evaluated(b, free, u.index);
      if at.Constant? then
        if at.value == v then Evaluated(b, free, u.value) else EvaluatedRead(b, free, root, u.next, v)
      else ReadCreate(root, u, Constant(v))
    else if root.IsConstantArray() && ToNat(v) < root.size then Constant(root.constantValues[ToNat(v)])
    else InitialValue(b, free, root, v)
  }

  /** The assignment has the bound bytes, and 0 for the others unless they are free;
      constant arrays have their own. */
  ghost predicate Agrees(b: Bindings, free: bool, a: Assignment) {
    && (forall root, i :: root in b && 0 <= i < |b[root]| ==> InitialByte(root, i, a) == b[root][i])
    && (!free ==> forall root: Array, i: nat ::
          !root.IsConstantArray() && (root in b ==> i >= |b[root]|) ==> InitialByte(root, i, a) == Zeros(INT8))
  }

  /** The assignment that bindings of symbolic arrays stand for. */
  function AssignmentOf(b: Bindings): Assignment { (root: Array, i: nat) => BoundByte(b, root, i) }

  function BoundByte(b: Bindings, root: Array, i: nat): Byte {
    if root in b && i < |b[root]| then b[root][i] else Zeros(INT8)
  }

  lemma AssignmentAgrees(b: Bindings, free: bool)
    requires forall root :: root in b ==> !root.IsConstantArray()
    ensures Agrees(b, free, AssignmentOf(b))
  {
  }

  lemma InitialSound(b: Bindings, free: bool, root: Array, v: Index, a: Assignment)
    requires Agrees(b, free, a)
    ensures free || !root.IsConstantArray() || ToNat(v) >= root.size ==>
              Eval(InitialValue(b, free, root, v), a) == InitialByte(root, ToNat(v), a)
    ensures !free || (root in b && ToNat(v) < |b[root]|) ==> InitialValue(b, free, root, v).Constant?
  {
    hide ReadCreate, ToNat;
    Indexed(v);
    ReadSound(root, NoUpdates, Constant(v), a);
  }

  lemma EvaluatedStep(b: Bindings, free: bool, e: Term) returns (k: seq<Term>)
    ensures e.Constant? ==> Evaluated(b, free, e) == e
    ensures e.Read? ==> var v := Evaluated(b, free, e.index);
              Evaluated(b, free, e) == if v.Constant? then EvaluatedRead(b, free, e.root, e.head, v.value) else ReadFrom(e, v)
    ensures !e.Constant? && !e.Read? ==> Fits(e, k) && Fits(e, Kids(e))
    ensures !e.Constant? && !e.Read? ==> forall i :: 0 <= i < |k| ==> k[i] == Evaluated(b, free, Kids(e)[i])
    ensures !e.Constant? && !e.Read? ==>
              || Evaluated(b, free, e) == Rebuild(e, Kids(e))
              || Evaluated(b, free, e) == NodeFrom(e, k)
              || (e.Binary? && Evaluated(b, free, e) == DivisionFrom(e, k))
  {
    k := [];
    if !e.Constant? && !e.Read? {
      k := seq(|Kids(e)|, i requires 0 <= i < |Kids(e)| => Evaluated(b, free, Kids(e)[i]));
    }
  }

  /** Under every assignment with the bound bytes the result has the value of the
      expression. */
  lemma {:induction false} EvaluatedSound(b: Bindings, free: bool, e: Term, a: Assignment)
    requires Agrees(b, free, a)
    ensures Eval(Evaluated(b, free, e), a) == Eval(e, a)
    decreases Size(e)
  {
    hide *;
    var k := EvaluatedStep(b, free, e);
    Smaller(e);
    if e.Read? {
      EvaluatedSound(b, free, e.index, a);
      var v := Evaluated(b, free, e.index);
      if v.Constant? {
        ConstantNode(v, a);
        ReadNode(e, a);
        EvaluatedReadSound(b, free, e.root, e.head, v.value, a);
      } else {
        ReadFromValue(e, v, a);
      }
    } else if !e.Constant? {
      forall i | 0 <= i < |Kids(e)| ensures Eval(k[i], a) == Eval(Kids(e)[i], a) {
        EvaluatedSound(b, free, Kids(e)[i], a);
      }
      FromValue(e, k, a);
      RebuildValue(e, Kids(e), a);
    }
  }

  lemma {:induction false} EvaluatedReadSound(b: Bindings, free: bool, root: Array, u: WriteList, v: Index, a: Assignment)
    requires Agrees(b, free, a)
    ensures Eval(EvaluatedRead(b, free, root, u, v), a) == ReadAt(root, u, v, a)
    decreases UpdatesSize(u)
  {
    hide Evaluated, Agrees, ReadCreate, InitialValue, Eval, Size, WF;
    Indexed(v);
    ConstantNode(Constant(v), a);
    if u.Update? {
      EvaluatedSound(b, free, u.index, a);
      var at := Evaluated(b, free, u.index);
      if at.Constant? {
        ConstantNode(at, a);
        if at.value == v {
          EvaluatedSound(b, free, u.value, a);
        } else {
          EvaluatedReadSound(b, free, root, u.next, v, a);
        }
      } else {
        ReadSound(root, u, Constant(v), a);
      }
    } else if root.IsConstantArray() && ToNat(v) < root.size {
      ByteTerm(root.constantValues[ToNat(v)]);
      ConstantNode(Constant(root.constantValues[ToNat(v)]), a);
    } else {
      InitialSound(b, free, root, v, a);
    }
  }

  lemma Smaller(e: Term)
    ensures e.Read? ==> WF(e.index) && WFUpdates(e.head) && e.root.Valid() && Width(e.index) == INT32
    ensures e.Read? ==> Size(e.index) < Size(e) && UpdatesSize(e.head) < Size(e)
    ensures !e.Constant? && !e.Read? ==> forall i :: 0 <= i < |Kids(e)| ==> Size(Kids(e)[i]) < Size(e)
  {
  }

  // ----- when evaluation gives a constant -----

  /** A divisor that evaluates to 0 without being a constant, which keeps the
      division as it was; at one bit only if the dividend was a constant. */
  predicate Blocked(b: Bindings, free: bool, l: Term, r: Term) {
    !r.Constant? && IsZeroConst(Evaluated(b, free, r)) && (Width(l) != BOOL || l.Constant?)
  }

  /** A node that evaluation cannot turn into a constant even if its kids are. */
  predicate Stuck(b: Bindings, free: bool, e: Term) {
    || (e.NotOptimized? && e.src.Constant?)
    || (e.Binary? && e.op.IsDivision() && Blocked(b, free, e.left, e.right))
  }

  /** The byte of a cell is known: from a constant array, or from the bindings. */
  predicate KnownCell(b: Bindings, root: Array, v: Bits) {
    (root.IsConstantArray() && ToNat(v) < root.size) || (root in b && ToNat(v) < |b[root]|)
  }

  /** No cell is read whose byte would stay free. */
  predicate KnownRead(b: Bindings, free: bool, root: Array, index: Term) {
    var v := Evaluated(b, free, index);
    free && v.Constant? ==> KnownCell(b, root, v.value)
  }

  /** A known byte evaluates to itself, whether or not the others are free. */
  lemma KnownByte(b: Bindings, free: bool, root: Array, v: Index, a: Assignment)
    requires KnownCell(b, root, v) && Agrees(b, free, a)
    ensures EvaluatedRead(b, free, root, NoUpdates, v) == Constant(InitialByte(root, ToNat(v), a))
  {
    hide ToNat, Evaluated;
  }

  /** No part of the expression is stuck, and no free byte is read. */
  predicate Decidable(b: Bindings, free: bool, e: Term)
    decreases e
  {
    !Stuck(b, free, e) &&
    match e
    case Constant(_) => true
    case NotOptimized(s) => Decidable(b, free, s)
    case Read(root, head, index) =>
      DecidableList(b, free, head) && Decidable(b, free, index) && KnownRead(b, free, root, index)
    case Select(c, t, f) => Decidable(b, free, c) && Decidable(b, free, t) && Decidable(b, free, f)
    case Concat(l, r) => Decidable(b, free, l) && Decidable(b, free, r)
    case Extract(s, _, _) => Decidable(b, free, s)
    case ZExt(s, _) => Decidable(b, free, s)
    case SExt(s, _) => Decidable(b, free, s)
    case Not(s) => Decidable(b, free, s)
    case Binary(_, l, r) => Decidable(b, free, l) && Decidable(b, free, r)
  }

  predicate DecidableList(b: Bindings, free: bool, u: WriteList)
    decreases u
  {
    u.Update? ==> Decidable(b, free, u.index) && Decidable(b, free, u.value) && DecidableList(b, free, u.next)
  }

  lemma KidsDecidable(b: Bindings, free: bool, e: Term)
    requires !e.Constant? && !e.Read? && Decidable(b, free, e)
    ensures forall i :: 0 <= i < |Kids(e)| ==> Decidable(b, free, Kids(e)[i])
    ensures !Stuck(b, free, e)
  {
    hide Size, Stuck;
  }

  /** A node whose kids evaluate to constants becomes a constant itself exactly if
      it is not stuck. */
  lemma NodeEvaluated(b: Bindings, free: bool, e: Term, k: seq<Term>)
    requires !e.Constant? && !e.Read? && Fits(e, k)
    requires forall i :: 0 <= i < |k| ==> k[i] == Evaluated(b, free, Kids(e)[i]) && k[i].Constant?
    ensures Evaluated(b, free, e).Constant? <==> !Stuck(b, free, e)
  {
    hide Rebuild, Kids, Size, Width, WF, Stuck;
    if e.NotOptimized? {
      Unwrapped(b, free, e, k);
    } else if e.Binary? && e.op.IsDivision() {
      DivisionEvaluated(b, free, e, k);
    } else {
      NeverStuck(b, free, e);
      RebuildConstant(e, k);
      if forall i :: 0 <= i < |Kids(e)| ==> Kids(e)[i].Constant? {
        RebuildConstant(e, Kids(e));
      } else {
        assert k == seq(|Kids(e)|, i requires 0 <= i < |Kids(e)| => Evaluated(b, free, Kids(e)[i]));
      }
    }
  }

  lemma NeverStuck(b: Bindings, free: bool, e: Term)
    requires !e.NotOptimized? && !(e.Binary? && e.op.IsDivision())
    ensures !Stuck(b, free, e)
  {
  }

  lemma FewKids(e: Term)
    ensures e.NotOptimized? ==> WF(e.src) && Kids(e) == [e.src]
    ensures e.Binary? ==> WF(e.left) && WF(e.right) && Width(e.left) == Width(e.right) && Kids(e) == [e.left, e.right]
  {
  }

  /** `NotOptimized` is dropped, unless it stands directly over a constant. */
  lemma Unwrapped(b: Bindings, free: bool, e: Term, k: seq<Term>)
    requires e.NotOptimized? && Fits(e, k) && k[0] == Evaluated(b, free, Kids(e)[0]) && k[0].Constant?
    ensures Evaluated(b, free, e) == if Stuck(b, free, e) then e else k[0]
  {
    hide Size, Kids;
    FewKids(e);
    if !e.src.Constant? {
      assert k == seq(|Kids(e)|, i requires 0 <= i < |Kids(e)| => Evaluated(b, free, Kids(e)[i]));
      assert Evaluated(b, free, e) == NodeFrom(e, k);
    }
  }

  lemma DivisionEvaluated(b: Bindings, free: bool, e: Term, k: seq<Term>)
    requires e.Binary? && e.op.IsDivision() && Fits(e, k)
    requires forall i :: 0 <= i < |k| ==> k[i] == Evaluated(b, free, Kids(e)[i]) && k[i].Constant?
    ensures Evaluated(b, free, e).Constant? <==> !Stuck(b, free, e)
  {
    hide Size, WF, Width, Kids, Rebuild, IsZeroConst, Evaluated, DivisionFrom;
    FewKids(e);
    DivisionIs(b, free, e, k);
    DivisionFromIs(e, k);
    assert Evaluated(b, free, Kids(e)[0]) == k[0] && Evaluated(b, free, Kids(e)[1]) == k[1];
    if e.left.Constant? && e.right.Constant? {
      RebuildDivision(e, Kids(e));
    } else if IsZeroConst(k[1]) {
      RebuildDivision(e, [k[0], e.right]);
    } else {
      RebuildDivision(e, k);
    }
  }

  lemma DivisionIs(b: Bindings, free: bool, e: Term, k: seq<Term>)
    requires e.Binary? && e.op.IsDivision() && Fits(e, k)
    requires forall i :: 0 <= i < |k| ==> k[i] == Evaluated(b, free, Kids(e)[i])
    ensures Fits(e, Kids(e)) && Evaluated(b, free, e) ==
              if e.left.Constant? && e.right.Constant? then Rebuild(e, Kids(e)) else DivisionFrom(e, k)
    ensures e.left.Constant? ==> k[0] == e.left
    ensures e.right.Constant? ==> k[1] == e.right
  {
    hide Size, Kids, Rebuild, DivisionFrom;
    FewKids(e);
    assert k == seq(|Kids(e)|, i requires 0 <= i < |Kids(e)| => Evaluated(b, free, Kids(e)[i]));
  }

  lemma DivisionFromIs(e: Term, k: seq<Term>)
    requires e.Binary? && Fits(e, k)
    ensures WF(e.right) && Fits(e, [k[0], e.right])
    ensures var d := if IsZeroConst(k[1]) then [k[0], e.right] else k;
            DivisionFrom(e, k) == if d != Kids(e) then Rebuild(e, d) else e
  {
  }

  lemma RebuildDivision(e: Term, k: seq<Term>)
    requires e.Binary? && e.op.IsDivision() && Fits(e, k) && k[0].Constant?
    ensures Rebuild(e, k).Constant? <==> k[1].Constant? || Width(e) == BOOL
    ensures Width(e) == Width(e.left)
  {
    hide Apply, Kids, WF;
  }

  /** Evaluation decides every such expression. */
  lemma {:induction false} EvaluatedConstant(b: Bindings, free: bool, e: Term)
    requires Decidable(b, free, e)
    ensures Evaluated(b, free, e).Constant?
    decreases Size(e)
  {
    hide *;
    Smaller(e);
    if e.Read? {
      ReadDecidable(b, free, e);
      EvaluatedConstant(b, free, e.index);
      var v := Evaluated(b, free, e.index);
      var _ := EvaluatedStep(b, free, e);
      ConstantWidth(v);
      EvaluatedReadConstant(b, free, e.root, e.head, v.value);
    } else if !e.Constant? {
      KidsDecidable(b, free, e);
      var k := EvaluatedStep(b, free, e);
      forall i | 0 <= i < |Kids(e)| ensures k[i].Constant? {
        EvaluatedConstant(b, free, Kids(e)[i]);
      }
      NodeEvaluated(b, free, e, k);
    } else {
      var _ := EvaluatedStep(b, free, e);
    }
  }

  lemma ReadDecidable(b: Bindings, free: bool, e: Term)
    requires e.Read? && Decidable(b, free, e)
    ensures Decidable(b, free, e.index) && DecidableList(b, free, e.head)
    ensures var v := Evaluated(b, free, e.index); free && v.Constant? ==> KnownCell(b, e.root, v.value)
  {
  }

  lemma {:induction false} EvaluatedReadConstant(b: Bindings, free: bool, root: Array, u: WriteList, v: Index)
    requires DecidableList(b, free, u) && (free ==> KnownCell(b, root, v))
    ensures EvaluatedRead(b, free, root, u, v).Constant?
    decreases UpdatesSize(u)
  {
    hide Evaluated, ReadCreate, Decidable, Size, WF, ToNat;
    if u.Update? {
      EvaluatedConstant(b, free, u.index);
      var at := Evaluated(b, free, u.index);
      if at.value == v {
        EvaluatedConstant(b, free, u.value);
      } else {
        EvaluatedReadConstant(b, free, root, u.next, v);
      }
    }
  }

  // ----- satisfies -----

  /** `Assignment::satisfies`: with no byte left free, every constraint evaluates to
      the constant true. */
  method Satisfies(b: Bindings, cs: seq<Formula>) returns (ok: bool)
    ensures ok <==> forall i :: 0 <= i < |cs| ==> Evaluated(b, false, cs[i]) == True
  {
    hide Evaluated;
    for k := 0 to |cs|
      invariant forall i :: 0 <= i < k ==> Evaluated(b, false, cs[i]) == True
    {
      if Evaluated(b, false, cs[k]) != True {
        return false;
      }
    }
    ok := true;
  }

  /** Then the assignment of the bound bytes, 0 elsewhere, satisfies the constraints;
      and where every constraint can be decided, only then. */
  lemma SatisfiesMeans(b: Bindings, cs: seq<Formula>, a: Assignment)
    requires Agrees(b, false, a)
    ensures (forall i :: 0 <= i < |cs| ==> Evaluated(b, false, cs[i]) == True) ==> Sat(Stated(cs), a)
    ensures (forall i :: 0 <= i < |cs| ==> Decidable(b, false, cs[i])) ==>
              ((forall i :: 0 <= i < |cs| ==> Evaluated(b, false, cs[i]) == True) <==> Sat(Stated(cs), a))
  {
    hide *;
    forall i | 0 <= i < |cs|
      ensures Evaluated(b, false, cs[i]) == True ==> Holds(cs[i], a)
      ensures Decidable(b, false, cs[i]) ==> (Evaluated(b, false, cs[i]) == True <==> Holds(cs[i], a))
    {
      SatisfiesOne(b, cs[i], a);
    }
    StatedMeans(cs, a);
  }

  ghost function Stated(cs: seq<Formula>): set<Formula> { set i | 0 <= i < |cs| :: cs[i] }

  lemma StatedMeans(cs: seq<Formula>, a: Assignment)
    ensures Sat(Stated(cs), a) <==> forall i :: 0 <= i < |cs| ==> Holds(cs[i], a)
  {
    hide Eval, WF;
    assert forall i :: 0 <= i < |cs| ==> cs[i] in Stated(cs);
  }

  lemma SatisfiesOne(b: Bindings, e: Formula, a: Assignment)
    requires Agrees(b, false, a)
    ensures Evaluated(b, false, e) == True ==> Holds(e, a)
    ensures Decidable(b, false, e) ==> (Evaluated(b, false, e) == True <==> Holds(e, a))
  {
    hide *;
    EvaluatedSound(b, false, e, a);
    var r := Evaluated(b, false, e);
    if Decidable(b, false, e) {
      EvaluatedConstant(b, false, e);
    }
    ConstantHolds(e, r, a);
  }

  lemma ConstantHolds(e: Formula, r: Formula, a: Assignment)
    requires Eval(r, a) == Eval(e, a)
    ensures r == True ==> Holds(e, a)
    ensures r.Constant? ==> (r == True <==> Holds(e, a))
  {
    if r.Constant? {
      OneBit(r.value, [true]);
    }
  }
}
