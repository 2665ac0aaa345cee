/** Byte reads through update lists: `ReadExpr::create`, which rolls past writes
    to provably different cells and shortens the list, and the lazy building of a
    constant array from the oldest concrete writes (`ObjectState::getUpdates`). */
module ArrayReads {
  import opened Bits
  import opened Exprs
  import opened SmartConstructors

  /** The first write, counted from the most recent, that is not provably to
      another cell. */
  function RollBack(head: WriteList, index: Term): (u: WriteList)
    requires Width(index) == INT32
  {
    if head.Update? && EqCreate(index, head.index) == False then RollBack(head.next, index) else head
  }

  function ReadCreate(root: Array, head: WriteList, index: Term): (e: Term)
    requires Width(index) == INT32
    ensures Width(e) == INT8
  {
    var un := RollBack(head, index);
    if un.Update? && EqCreate(index, un.index) == True then un.value
    else if index.Constant? && ToNat(index.value) < root.size then
      if root.IsConstantArray() && un.NoUpdates? then Constant(root.constantValues[ToNat(index.value)])
      else Read(root, un, index)
    else Read(root, head, index)
  }

  /** `ReadExpr::create`: the loop over the update list. */
  method ReadExprCreate(root: Array, head: WriteList, index: Term) returns (e: Term)
    requires Width(index) == INT32
    ensures e == ReadCreate(root, head, index)
  {
    var un := head;
    while un.Update?
      invariant WFUpdates(un) && RollBack(un, index) == RollBack(head, index)
      decreases un
    {
      var cond := EqCreate(index, un.index);
      if cond.Constant? {
        OneBit(cond.value, [true]);
        OneBit(cond.value, [false]);
        if cond == True {
          return un.value;
        }
      } else {
        break;
      }
      un := un.next;
    }
    if root.IsConstantArray() && un.NoUpdates? {
      if index.Constant? && ToNat(index.value) < root.size {
        return Constant(root.constantValues[ToNat(index.value)]);
      }
    }
    if index.Constant? && ToNat(index.value) < root.size {
      return Read(root, un, index);
    }
    return Read(root, head, index);
  }

  /** Rolling back leaves the value of the cell read unchanged. */
  lemma {:induction false} RollBackSound(root: Array, head: WriteList, index: Term, a: Assignment)
    requires Width(index) == INT32
    ensures ReadAt(root, RollBack(head, index), Eval(index, a), a) == ReadAt(root, head, Eval(index, a), a)
  {
    hide Eval, EqCreate;
    if head.Update? && EqCreate(index, head.index) == False {
      EqSound(index, head.index, a);
      FalseIsFalse(a);
      RollBackSound(root, head.next, index, a);
    }
  }

  lemma FalseIsFalse(a: Assignment)
    ensures Eval(False, a) == [false] && Eval(True, a) == [true]
  {
  }

  lemma ReadNode(e: Term, a: Assignment)
    requires e.Read?
    ensures Eval(e, a) == ReadAt(e.root, e.head, Eval(e.index, a), a)
  {
  }

  /** `ReadExpr::create` reads the cell: for every update list, index and
      assignment, in bounds or not. */
  lemma ReadSound(root: Array, head: WriteList, index: Term, a: Assignment)
    requires Width(index) == INT32
    ensures Eval(ReadCreate(root, head, index), a) == ReadAt(root, head, Eval(index, a), a)
  {
    var un := RollBack(head, index);
    RollBackSound(root, head, index, a);
    if un.Update? && EqCreate(index, un.index) == True {
      EqSound(index, un.index, a);
      FalseIsFalse(a);
    } else if index.Constant? && ToNat(index.value) < root.size {
      ReadNode(Read(root, un, index), a);
      assert Eval(index, a) == index.value;
    } else {
      ReadNode(Read(root, head, index), a);
    }
  }

  // ----- the lazily built constant array -----

  const CONST_ARRAY := "const_arr"

  function ZeroBytes(size: nat): (s: seq<Byte>)
    ensures |s| == size && forall i :: 0 <= i < size ==> s[i] == Zeros(INT8)
  {
    seq(size, _ => Zeros(INT8))
  }

  /** What a missing root stands for. */
  function ZeroArray(size: nat): Array { Array(CONST_ARRAY, size, ZeroBytes(size)) }

  function Length(u: Updates): nat {
    if u.NoUpdates? then 0 else 1 + Length(u.next)
  }

  /** The list of the `n` oldest writes. */
  function Oldest(u: WriteList, n: nat): (r: WriteList)
    requires n <= Length(u)
    ensures Length(r) == n
    ensures n == Length(u) ==> r == u
    decreases u
  {
    if n == Length(u) then u else Oldest(u.next, n)
  }

  predicate IsConcreteWrite(u: Updates) {
    u.Update? && u.index.Constant? && u.value.Constant?
  }

  /** Writes at constant cells stay inside the object. */
  predicate ConstantCellsFit(u: WriteList, size: nat) {
    u.Update? ==> (u.index.Constant? ==> ToNat(u.index.value) < size) && ConstantCellsFit(u.next, size)
  }

  /** Constant contents absorbing the leading concrete writes, and the writes
      that remain. */
  function Absorb(u: WriteList, size: nat): (r: (seq<Byte>, WriteList))
    requires ConstantCellsFit(u, size)
    ensures |r.0| == size && ConstantCellsFit(r.1, size)
  {
    if u.NoUpdates? then (ZeroBytes(size), NoUpdates)
    else
      var (contents, rest) := Absorb(u.next, size);
      if rest.NoUpdates? && IsConcreteWrite(u) then (contents[ToNat(u.index.value) := u.value.value], NoUpdates)
      else (contents, Update(u.index, u.value, rest))
  }

  lemma {:induction false} OldestNext(u: WriteList, n: nat, size: nat)
    requires n < Length(u) && ConstantCellsFit(u, size)
    ensures Oldest(u, n + 1).Update? && Oldest(u, n + 1).next == Oldest(u, n)
    ensures ConstantCellsFit(Oldest(u, n + 1), size) && ConstantCellsFit(Oldest(u, n), size)
    decreases u
  {
    if n + 1 < Length(u) {
      OldestNext(u.next, n, size);
    }
  }

  lemma {:induction false} AbsorbStopped(u: WriteList, size: nat)
    requires ConstantCellsFit(u, size) && u.Update?
    ensures !IsConcreteWrite(u) || Absorb(u.next, size).1.Update? ==>
              Absorb(u, size) == (Absorb(u.next, size).0, Update(u.index, u.value, Absorb(u.next, size).1))
  {
  }

  ghost predicate OldestFirst(writes: seq<Updates>, head: WriteList) {
    |writes| == Length(head) && forall k :: 0 <= k < |writes| ==> writes[k] == Oldest(head, k + 1)
  }

  /** The writes of a list, the oldest first. */
  method CollectWrites(head: WriteList, size: nat) returns (writes: seq<Updates>)
    requires ConstantCellsFit(head, size)
    ensures OldestFirst(writes, head)
  {
    writes := [];
    var un := head;
    while un.Update?
      invariant WFUpdates(un) && Length(un) + |writes| == Length(head) && Oldest(head, Length(un)) == un
      invariant forall k :: 0 <= k < |writes| ==> writes[k] == Oldest(head, Length(un) + k + 1)
      decreases un
    {
      OldestNext(head, Length(un) - 1, size);
      writes, un := [un] + writes, un.next;
    }
  }

  /** Push the leading concrete writes into the contents. */
  method AbsorbLeading(writes: seq<Updates>, head: WriteList, size: nat) returns (contents: seq<Byte>, begin: nat)
    requires ConstantCellsFit(head, size) && OldestFirst(writes, head)
    ensures begin <= |writes| && ConstantCellsFit(Oldest(head, begin), size)
    ensures Absorb(Oldest(head, begin), size) == (contents, NoUpdates)
    ensures begin < |writes| ==> !IsConcreteWrite(writes[begin])
  {
    contents, begin := ZeroBytes(size), 0;
    while begin < |writes| && IsConcreteWrite(writes[begin])
      invariant begin <= |writes| && |contents| == size
      invariant ConstantCellsFit(Oldest(head, begin), size)
      invariant Absorb(Oldest(head, begin), size) == (contents, NoUpdates)
    {
      OldestNext(head, begin, size);
      contents := contents[ToNat(writes[begin].index.value) := writes[begin].value.value];
      begin := begin + 1;
    }
  }

  /** `ObjectState::getUpdates` on an object without a root array. */
  method BuildConstantArray(head: WriteList, size: nat) returns (root: Array, rest: WriteList)
    requires ConstantCellsFit(head, size)
    ensures root == Array(CONST_ARRAY, size, Absorb(head, size).0) && rest == Absorb(head, size).1
  {
    var writes := CollectWrites(head, size);
    var contents, begin := AbsorbLeading(writes, head, size);
    root := Array(CONST_ARRAY, size, contents);
    // Apply the remaining writes.
    rest := NoUpdates;
    ghost var first := begin;
    while begin < |writes|
      invariant first <= begin <= |writes|
      invariant ConstantCellsFit(Oldest(head, begin), size)
      invariant Absorb(Oldest(head, begin), size) == (contents, rest)
      invariant begin > first ==> rest.Update?
    {
      OldestNext(head, begin, size);
      AbsorbStopped(Oldest(head, begin + 1), size);
      rest := Update(writes[begin].index, writes[begin].value, rest);
      begin := begin + 1;
    }
  }

  /** Absorbing concrete writes into the constant array changes no byte. */
  lemma {:induction false} AbsorbSound(u: WriteList, size: nat, i: Bits, a: Assignment)
    requires ConstantCellsFit(u, size) && ToNat(i) < size && |i| == INT32
    ensures ReadAt(Array(CONST_ARRAY, size, Absorb(u, size).0), Absorb(u, size).1, i, a) ==
            ReadAt(ZeroArray(size), u, i, a)
  {
    if u.Update? {
      AbsorbSound(u.next, size, i, a);
      var (contents, rest) := Absorb(u.next, size);
      if rest.NoUpdates? && IsConcreteWrite(u) {
        ToNatInjective(u.index.value, i);
        ConstantValues(u, a);
      }
    }
  }

  ghost predicate AllConcrete(u: Updates) {
    u.Update? ==> IsConcreteWrite(u) && AllConcrete(u.next)
  }

  /** `rest` is what is left of `u` without its oldest writes, all concrete; the
      oldest write left is not. */
  ghost predicate LeavesOff(u: Updates, rest: Updates) {
    if rest.NoUpdates? then AllConcrete(u)
    else
      && u.Update? && u.index == rest.index && u.value == rest.value && LeavesOff(u.next, rest.next)
      && (rest.next.NoUpdates? ==> !IsConcreteWrite(u))
  }

  /** It absorbs the oldest writes up to the first that is not concrete, and keeps
      the newer ones, in their order. */
  lemma {:induction false} AbsorbsOldest(u: WriteList, size: nat)
    requires ConstantCellsFit(u, size)
    ensures LeavesOff(u, Absorb(u, size).1)
  {
    if u.Update? {
      AbsorbsOldest(u.next, size);
    }
  }

  lemma ConstantValues(u: WriteList, a: Assignment)
    requires IsConcreteWrite(u)
    ensures Eval(u.index, a) == u.index.value && Eval(u.value, a) == u.value.value
  {
  }
}
