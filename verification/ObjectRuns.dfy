/** Sequences of operations on one memory object against a plain byte array. */
module ObjectRuns {
  import opened Bits
  import opened Exprs
  import opened SliceConstructors
  import opened ByteArrays
  import opened ObjectStates

  datatype Access =
    | InitZero
    | InitRandom
    | Write(offset: Term, value: Term)
    | Read(offset: Term, width: nat)
  {
    predicate Touches() { Write? || Read? }

    /** The bits moved. */
    function Moved(): nat
      requires Touches()
    {
      if Write? then Width(value) else width
    }

    /** Offsets are used modulo 2^32. */
    function Address(): (o: Term)
      requires Touches()
      ensures Width(o) == INT32
    {
      ZExtCreate(offset, INT32)
    }

    /** What the accessors ask of their callers. */
    ghost predicate Allowed(size: nat) {
      Touches() ==>
        && Movable(Moved())
        && if Address().Constant? then ToNat(Address().value) + Extent(Moved()) <= size
           else Moved() == BOOL || LanesSymbolic(Address(), Extent(Moved()))
    }

    /** The access stays inside the object under an assignment. */
    ghost predicate InBounds(size: nat, a: Assignment)
      requires Allowed(size)
    {
      Touches() ==> ToNat(Eval(Address(), a)) + Extent(Moved()) <= size
    }
  }

  /** One access on a plain byte array. */
  ghost function Plain(op: Access, s: seq<Byte>, a: Assignment, little: bool): (t: seq<Byte>)
    requires op.Allowed(|s|)
    ensures |t| == |s|
  {
    match op
    case InitZero => Filled(|s|, Zeros(INT8))
    case InitRandom => Filled(|s|, FromInt(0xAB, INT8))
    case Write(_, value) =>
      if op.InBounds(|s|, a) then StoreValue(s, ToNat(Eval(op.Address(), a)), Eval(value, a), little) else s
    case Read(_, _) => s
  }

  ghost predicate AllAllowed(ops: seq<Access>, size: nat) {
    forall k :: 0 <= k < |ops| ==> ops[k].Allowed(size)
  }

  ghost predicate AllInBounds(ops: seq<Access>, size: nat, a: Assignment)
    requires AllAllowed(ops, size)
  {
    forall k :: 0 <= k < |ops| ==> ops[k].InBounds(size, a)
  }

  /** The first `k` accesses on a plain byte array. */
  ghost function PlainRun(ops: seq<Access>, k: nat, s: seq<Byte>, a: Assignment, little: bool): (t: seq<Byte>)
    requires k <= |ops| && AllAllowed(ops, |s|)
    ensures |t| == |s|
  {
    if k == 0 then s else Plain(ops[k - 1], PlainRun(ops, k - 1, s, a, little), a, little)
  }

  /** The `k`-th result is what a plain byte array holds at that point. */
  ghost predicate Agrees(ops: seq<Access>, k: nat, e: Term, s: seq<Byte>, a: Assignment, little: bool)
    requires k < |ops| && AllAllowed(ops, |s|)
  {
    ops[k].Read? && ops[k].InBounds(|s|, a) ==>
      Eval(e, a) == LoadValue(PlainRun(ops, k, s, a, little), ToNat(Eval(ops[k].Address(), a)), ops[k].width, little)
  }

  lemma StartRun(ops: seq<Access>, s: seq<Byte>, a: Assignment, little: bool)
    requires AllAllowed(ops, |s|)
    ensures PlainRun(ops, 0, s, a, little) == s
  {
  }

  lemma NextAllowed(ops: seq<Access>, size: nat, k: nat)
    requires k < |ops| && AllAllowed(ops, size)
    ensures ops[k].Allowed(size)
  {
    hide Eval, WF, LanesSymbolic, ZExtCreate;
  }

  /** What one more access does, for the run as a whole. */
  lemma ExtendRun(ops: seq<Access>, k: nat, e: Term, s: seq<Byte>, t: seq<Byte>, a: Assignment, little: bool)
    requires k < |ops| && AllAllowed(ops, |s|) && ops[k].Allowed(|s|) && AllInBounds(ops, |s|, a)
    requires ops[k].InBounds(|s|, a) ==> t == Plain(ops[k], PlainRun(ops, k, s, a, little), a, little)
    requires ops[k].Read? && ops[k].InBounds(|s|, a) ==>
               Eval(e, a) == LoadValue(PlainRun(ops, k, s, a, little), ToNat(Eval(ops[k].Address(), a)), ops[k].width, little)
    ensures t == PlainRun(ops, k + 1, s, a, little)
    ensures Agrees(ops, k, e, s, a, little)
  {
    hide Eval, WF, LanesSymbolic, ZExtCreate, Plain;
  }

  /** One access on the object. */
  method Step(os: ObjectState, op: Access, little: bool) returns (e: Term)
    requires os.Valid() && op.Allowed(os.size)
    modifies os.Repr
    ensures os.Valid() && fresh(os.Repr - old(os.Repr))
    ensures forall a: Assignment :: op.InBounds(os.size, a) ==>
              os.Bytes(a) == Plain(op, old(os.Bytes(a)), a, little)
    ensures forall a: Assignment :: op.Read? && op.InBounds(os.size, a) ==>
              Eval(e, a) == LoadValue(old(os.Bytes(a)), ToNat(Eval(op.Address(), a)), op.width, little)
  {
    e := True;
    match op
    case InitZero => os.InitializeToZero();
    case InitRandom => os.InitializeToRandom();
    case Write(offset, value) => os.Write(offset, value, little);
    case Read(offset, width) => e := os.Read(offset, width, little);
  }

  /** Any run of accesses: every read evaluates, under every assignment that keeps
      the run inside the object, to what a plain byte array would hold. */
  method Run(os: ObjectState, ops: seq<Access>, little: bool) returns (values: seq<Term>)
    requires os.Valid() && AllAllowed(ops, os.size)
    modifies os.Repr
    ensures os.Valid() && fresh(os.Repr - old(os.Repr)) && |values| == |ops|
    ensures forall a: Assignment :: AllInBounds(ops, os.size, a) ==>
              os.Bytes(a) == PlainRun(ops, |ops|, old(os.Bytes(a)), a, little)
    ensures forall a: Assignment, k :: AllInBounds(ops, os.size, a) && 0 <= k < |ops| ==>
              Agrees(ops, k, values[k], old(os.Bytes(a)), a, little)
  {
    hide *;
    values := [];
    forall a: Assignment ensures os.Bytes(a) == PlainRun(ops, 0, old(os.Bytes(a)), a, little) {
      StartRun(ops, os.Bytes(a), a, little);
    }
    for k := 0 to |ops|
      invariant os.Valid() && fresh(os.Repr - old(os.Repr)) && |values| == k
      invariant forall a: Assignment :: AllInBounds(ops, os.size, a) ==>
                  os.Bytes(a) == PlainRun(ops, k, old(os.Bytes(a)), a, little)
      invariant forall a: Assignment, i :: AllInBounds(ops, os.size, a) && 0 <= i < k ==>
                  Agrees(ops, i, values[i], old(os.Bytes(a)), a, little)
    {
      NextAllowed(ops, os.size, k);
      var e := Step(os, ops[k], little);
      forall a: Assignment | AllInBounds(ops, os.size, a)
        ensures os.Bytes(a) == PlainRun(ops, k + 1, old(os.Bytes(a)), a, little)
        ensures Agrees(ops, k, e, old(os.Bytes(a)), a, little)
      {
        ExtendRun(ops, k, e, old(os.Bytes(a)), os.Bytes(a), a, little);
      }
      values := values + [e];
    }
  }
}
