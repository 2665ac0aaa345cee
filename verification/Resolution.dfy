/** Pointer resolution against the solver (lib/Core/AddressSpace.cpp): the objects a
    symbolic pointer can point into, found by searching outwards from one feasible
    value. */
module Resolution {
  import opened Options
  import opened Bits
  import opened Exprs
  import opened ArithmeticConstructors
  import opened Constructors
  import opened SliceConstructors
  import opened Solvers
  import opened Sequences

  datatype MemoryObject = MemoryObject(address: nat, size: nat)

  /** Objects in address order, apart, within a `w`-bit address space. */
  ghost predicate Laid(objects: seq<MemoryObject>, w: nat) {
    && (forall i, j :: 0 <= i < j < |objects| ==>
          objects[i].address < objects[j].address && objects[i].address + objects[i].size <= objects[j].address)
    && (forall i :: 0 <= i < |objects| ==>
          objects[i].address < Pow2(w) && objects[i].size < Pow2(w) && objects[i].address + objects[i].size <= Pow2(w))
  }

  predicate Contains(mo: MemoryObject, v: nat) { mo.address <= v < mo.address + mo.size }

  function Value(p: Term, a: Assignment): nat { ToNat(Eval(p, a)) }

  // ----- the expressions of Memory.h -----

  function Address(v: nat, w: nat): (e: Term)
    requires w >= 1
    ensures Width(e) == w && e.Constant? && e.value == FromInt(v, w)
  {
    Constant(FromInt(v, w))
  }

  /** `getBoundsCheckPointer`. */
  function InBounds(mo: MemoryObject, p: Term): (f: Formula) {
    if mo.size == 0 then False
    else CompareCreate(Ult, SubCreate(p, Address(mo.address, Width(p))), Address(mo.size, Width(p)))
  }

  function AtOrAbove(p: Term, mo: MemoryObject): (f: Formula) { CompareCreate(Uge, p, Address(mo.address, Width(p))) }
  function Below(p: Term, mo: MemoryObject): (f: Formula) { CompareCreate(Ult, p, Address(mo.address, Width(p))) }

  lemma AddressValue(v: nat, w: nat, a: Assignment)
    requires w >= 1 && v < Pow2(w)
    ensures Eval(Address(v, w), a) == FromInt(v, w) && ToNat(FromInt(v, w)) == v
  {
    hide FromInt;
    ConstantNode(Address(v, w), a);
    ToFromInt(v, w);
  }

  lemma OrderHolds(op: BinOp, l: Term, r: Term, a: Assignment)
    requires Width(l) == Width(r) && (op == Ult || op == Uge)
    ensures Holds(CompareCreate(op, l, r), a) <==> if op == Ult then Value(l, a) < Value(r, a) else Value(l, a) >= Value(r, a)
  {
    hide CompareCreate, Eval, WF;
    CompareSound(op, l, r, a);
  }

  lemma MinusIs(x: Bits, y: Bits)
    requires |x| == |y|
    ensures Minus(x, y) == FromInt(ToNat(x) - ToNat(y), |x|)
  {
  }

  /** The offset of a pointer wraps around below the base. */
  lemma OffsetWraps(x: Bits, base: nat)
    requires base < Pow2(|x|)
    ensures ToNat(x) < Pow2(|x|)
    ensures ToNat(Minus(x, FromInt(base, |x|))) == ToNat(x) - base + if ToNat(x) < base then Pow2(|x|) else 0
  {
    hide *;
    ToNatBound(x);
    ToFromInt(base, |x|);
    MinusIs(x, FromInt(base, |x|));
    var d := ToNat(x) - base;
    if d >= 0 {
      ToFromInt(d, |x|);
    } else {
      ToFromNegative(d, |x|);
    }
  }

  /** There it is out of bounds. */
  lemma OffsetValue(x: Bits, base: nat, size: nat)
    requires base < Pow2(|x|) && base + size <= Pow2(|x|)
    ensures ToNat(Minus(x, FromInt(base, |x|))) < size <==> base <= ToNat(x) < base + size
  {
    hide *;
    OffsetWraps(x, base);
  }

  lemma InBoundsHolds(mo: MemoryObject, p: Term, a: Assignment)
    requires mo.address < Pow2(Width(p)) && mo.size < Pow2(Width(p)) && mo.address + mo.size <= Pow2(Width(p))
    ensures Holds(InBounds(mo, p), a) <==> Contains(mo, Value(p, a))
  {
    hide CompareCreate, SubCreate, ReadAt, Apply, FromInt, Minus;
    if mo.size > 0 {
      var w := Width(p);
      AddressValue(mo.address, w, a);
      AddressValue(mo.size, w, a);
      SubSound(p, Address(mo.address, w), a);
      OrderHolds(Ult, SubCreate(p, Address(mo.address, w)), Address(mo.size, w), a);
      OffsetValue(Eval(p, a), mo.address, mo.size);
    }
  }

  // ----- accesses of several bytes -----

  /** `getBoundsCheckOffset(offset, bytes)`, whose bound is an unsigned number of 32
      bits. */
  function AccessOffset(mo: MemoryObject, offset: Term, bytes: nat): (f: Formula) {
    if bytes <= mo.size then CompareCreate(Ult, offset, Address((mo.size - bytes + 1) % Pow2(INT32), Width(offset)))
    else False
  }

  /** `getBoundsCheckPointer(pointer, bytes)`. */
  function Access(mo: MemoryObject, p: Term, bytes: nat): (f: Formula) {
    AccessOffset(mo, SubCreate(p, Address(mo.address, Width(p))), bytes)
  }

  lemma {:induction false} Pow2Grows(m: nat, n: nat)
    requires m <= n
    ensures Pow2(m) <= Pow2(n)
  {
    if m < n {
      Pow2Grows(m, n - 1);
    }
  }

  /** An offset passes exactly if the bytes from it on end within the object; no
      offset does when the object is smaller than the access, or when the bound for
      an access of no bytes wraps around to 0. */
  lemma AccessOffsetHolds(mo: MemoryObject, offset: Term, bytes: nat, a: Assignment)
    requires mo.size < Pow2(INT32) && Width(offset) >= INT32
    ensures Holds(AccessOffset(mo, offset, bytes), a) <==>
              Value(offset, a) + bytes <= mo.size && !(bytes == 0 && mo.size + 1 == Pow2(INT32))
  {
    hide CompareCreate, Eval, FromInt, WF, Pow2, Width, ToNat;
    if bytes <= mo.size {
      var w, bound := Width(offset), mo.size - bytes + 1;
      Pow2Grows(INT32, w);
      SmallRemainder(bound, Pow2(INT32));
      AddressValue(bound % Pow2(INT32), w, a);
      OrderHolds(Ult, offset, Address(bound % Pow2(INT32), w), a);
    } else {
      FalseFails(a);
    }
  }

  lemma SmallRemainder(x: nat, m: nat)
    requires 0 < x <= m
    ensures x % m == if x == m then 0 else x
  {
  }

  lemma FalseFails(a: Assignment)
    ensures WF(False) && Width(False) == BOOL && !Holds(False, a)
  {
  }

  /** The pointer is where an object at the top of the address space ends. */
  predicate EndsAtTop(mo: MemoryObject, p: Term, a: Assignment) {
    Value(p, a) == 0 && mo.address + mo.size == Pow2(Width(p))
  }

  /** A pointer passes exactly if every byte of the access lies in the object. An
      access of no bytes may also start where the object ends, which is address 0
      for an object at the top of the address space. */
  lemma AccessHolds(mo: MemoryObject, p: Term, bytes: nat, a: Assignment)
    requires Fits(mo, Width(p)) && mo.size < Pow2(INT32) && Width(p) >= INT32
    ensures bytes > 0 ==> (Holds(Access(mo, p, bytes), a) <==>
              mo.address <= Value(p, a) && Value(p, a) + bytes <= mo.address + mo.size)
    ensures bytes == 0 ==> (Holds(Access(mo, p, bytes), a) <==>
              mo.size + 1 != Pow2(INT32) && (mo.address <= Value(p, a) <= mo.address + mo.size || EndsAtTop(mo, p, a)))
  {
    hide CompareCreate, SubCreate, Eval, FromInt, WF, Pow2, Width, ToNat, Minus, AccessOffset;
    var w := Width(p);
    AddressValue(mo.address, w, a);
    SubSound(p, Address(mo.address, w), a);
    AccessOffsetHolds(mo, SubCreate(p, Address(mo.address, w)), bytes, a);
    OffsetWraps(Eval(p, a), mo.address);
  }

  lemma BaseHolds(mo: MemoryObject, p: Term, a: Assignment)
    requires mo.address < Pow2(Width(p))
    ensures Holds(AtOrAbove(p, mo), a) <==> Value(p, a) >= mo.address
    ensures Holds(Below(p, mo), a) <==> Value(p, a) < mo.address
  {
    hide CompareCreate, Eval, FromInt, WF;
    AddressValue(mo.address, Width(p), a);
    OrderHolds(Uge, p, Address(mo.address, Width(p)), a);
    OrderHolds(Ult, p, Address(mo.address, Width(p)), a);
  }

  // ----- what the solver is asked -----

  /** Some value the pointer can have lies in the object. */
  ghost predicate Feasible(c: set<Formula>, p: Term, mo: MemoryObject) {
    exists a: Assignment :: Sat(c, a) && Contains(mo, Value(p, a))
  }

  ghost predicate Fits(mo: MemoryObject, w: nat) {
    mo.address < Pow2(w) && mo.size < Pow2(w) && mo.address + mo.size <= Pow2(w)
  }

  lemma QueryMeans(s: Solver, c: set<Formula>, p: Term, mo: MemoryObject)
    requires s.Exact() && Fits(mo, Width(p))
    ensures s.MayBeTrue(c, InBounds(mo, p)) <==> Feasible(c, p, mo)
    ensures s.MustBeTrue(c, InBounds(mo, p)) <==> forall a: Assignment :: Sat(c, a) ==> Contains(mo, Value(p, a))
    ensures s.MustBeTrue(c, AtOrAbove(p, mo)) <==> forall a: Assignment :: Sat(c, a) ==> Value(p, a) >= mo.address
    ensures s.MustBeTrue(c, Below(p, mo)) <==> forall a: Assignment :: Sat(c, a) ==> Value(p, a) < mo.address
  {
    hide Sat, InBounds, AtOrAbove, Below, Eval, WF, Solver.Exact;
    forall a: Assignment
      ensures Holds(InBounds(mo, p), a) <==> Contains(mo, Value(p, a))
      ensures Holds(AtOrAbove(p, mo), a) <==> Value(p, a) >= mo.address
      ensures Holds(Below(p, mo), a) <==> Value(p, a) < mo.address
    {
      InBoundsHolds(mo, p, a);
      BaseHolds(mo, p, a);
    }
    MayBeTrueMeans(s, c, InBounds(mo, p));
    MustBeTrueMeans(s, c, InBounds(mo, p));
    MustBeTrueMeans(s, c, AtOrAbove(p, mo));
    MustBeTrueMeans(s, c, Below(p, mo));
  }

  lemma LaidFits(objects: seq<MemoryObject>, w: nat)
    requires Laid(objects, w)
    ensures forall i :: 0 <= i < |objects| ==> Fits(objects[i], w)
  {
  }

  /** No object below one whose base the pointer never falls short of. */
  lemma NoneBelow(objects: seq<MemoryObject>, c: set<Formula>, p: Term, i: nat)
    requires i < |objects| && Laid(objects, Width(p))
    requires forall a: Assignment :: Sat(c, a) ==> Value(p, a) >= objects[i].address
    ensures forall k :: 0 <= k < i ==> !Feasible(c, p, objects[k])
  {
    hide Sat, Eval, WF;
  }

  lemma NoneAbove(objects: seq<MemoryObject>, c: set<Formula>, p: Term, i: nat)
    requires i < |objects| && Laid(objects, Width(p))
    requires forall a: Assignment :: Sat(c, a) ==> Value(p, a) < objects[i].address
    ensures forall k :: i <= k < |objects| ==> !Feasible(c, p, objects[k])
  {
    hide Sat, Eval, WF;
  }

  /** An object the pointer always falls in is the only one. */
  lemma NoOther(objects: seq<MemoryObject>, c: set<Formula>, p: Term, i: nat)
    requires i < |objects| && Laid(objects, Width(p))
    requires forall a: Assignment :: Sat(c, a) ==> Contains(objects[i], Value(p, a))
    ensures forall k :: 0 <= k < |objects| && k != i ==> !Feasible(c, p, objects[k])
  {
    hide Sat, Eval, WF;
    forall k, a: Assignment | 0 <= k < |objects| && k != i && Sat(c, a) ensures !Contains(objects[k], Value(p, a)) {
      assert Contains(objects[i], Value(p, a));
      if k < i {
        assert objects[k].address + objects[k].size <= objects[i].address;
      } else {
        assert objects[i].address + objects[i].size <= objects[k].address;
      }
    }
  }

  // ----- lookups by address -----

  /** `upper_bound`: the first object that starts above an address. */
  method UpperBound(objects: seq<MemoryObject>, address: nat) returns (n: nat)
    requires forall i, j :: 0 <= i < j < |objects| ==> objects[i].address < objects[j].address
    ensures StartsAt(objects, address, n)
  {
    n := 0;
    while n < |objects| && objects[n].address <= address
      invariant n <= |objects| && forall k :: 0 <= k < n ==> objects[k].address <= address
    {
      n := n + 1;
    }
  }

  /** `resolveOne` on a constant: the object that contains the address. */
  method ResolveConstant(objects: seq<MemoryObject>, address: nat, ghost w: nat) returns (r: Option<nat>)
    requires Laid(objects, w)
    ensures r.Some? ==> r.value < |objects| && Contains(objects[r.value], address)
    ensures forall k :: 0 <= k < |objects| && Contains(objects[k], address) ==> r == Some(k)
  {
    r := None;
    var n := UpperBound(objects, address);
    if n > 0 && address - objects[n - 1].address < objects[n - 1].size {
      r := Some(n - 1);
    }
  }

  // ----- resolve -----

  /** `rl` lists exactly the feasible objects among those from `lo` to `hi`. */
  ghost predicate Lists(rl: seq<nat>, objects: seq<MemoryObject>, c: set<Formula>, p: Term, lo: nat, hi: nat) {
    && lo <= hi <= |objects| && NoRepeats(rl)
    && (forall k :: k in rl ==> lo <= k < hi && Feasible(c, p, objects[k]))
    && (forall k :: lo <= k < hi && Feasible(c, p, objects[k]) ==> k in rl)
  }

  // ----- the order of the search -----

  /** Objects are looked at downwards from `start`, and then upwards. */
  function Rank(start: nat, k: nat): nat { if k < start then start - 1 - k else k }

  /** Results come in the order in which objects are looked at. */
  ghost predicate Outward(rl: seq<nat>, start: nat) {
    forall i, j :: 0 <= i < j < |rl| ==> Rank(start, rl[i]) < Rank(start, rl[j])
  }

  /** No feasible object is left out in favour of one looked at later. */
  ghost predicate Foremost(rl: seq<nat>, objects: seq<MemoryObject>, c: set<Formula>, p: Term, start: nat) {
    forall k, i :: 0 <= k < |objects| && 0 <= i < |rl| && Feasible(c, p, objects[k]) && Rank(start, k) < Rank(start, rl[i]) ==>
      k in rl
  }

  /** The search starts below the first object above one feasible value. */
  ghost predicate StartsAt(objects: seq<MemoryObject>, v: nat, start: nat) {
    && start <= |objects| && (forall k :: 0 <= k < start ==> objects[k].address <= v)
    && forall k :: start <= k < |objects| ==> objects[k].address > v
  }

  lemma OutwardDown(rl: seq<nat>, objects: seq<MemoryObject>, c: set<Formula>, p: Term, start: nat, i: nat)
    requires Lists(rl, objects, c, p, i + 1, start) && Outward(rl, start)
    ensures Outward(rl + [i], start)
  {
    hide Feasible;
    assert forall k :: 0 <= k < |rl| ==> rl[k] in rl;
  }

  lemma OutwardUp(rl: seq<nat>, objects: seq<MemoryObject>, c: set<Formula>, p: Term, start: nat, i: nat)
    requires Lists(rl, objects, c, p, 0, i) && Outward(rl, start) && start <= i
    ensures Outward(rl + [i], start)
  {
    hide Feasible;
    assert forall k :: 0 <= k < |rl| ==> rl[k] in rl;
  }

  lemma ForemostDown(rl: seq<nat>, objects: seq<MemoryObject>, c: set<Formula>, p: Term, start: nat, lo: nat)
    requires Lists(rl, objects, c, p, lo, start)
    ensures Foremost(rl, objects, c, p, start)
  {
    hide Feasible;
    assert forall k :: 0 <= k < |rl| ==> rl[k] in rl;
  }

  lemma ForemostUp(rl: seq<nat>, objects: seq<MemoryObject>, c: set<Formula>, p: Term, start: nat, hi: nat)
    requires Lists(rl, objects, c, p, 0, hi) && start <= hi
    ensures Foremost(rl, objects, c, p, start)
  {
    hide Feasible;
    assert forall k :: 0 <= k < |rl| ==> rl[k] in rl;
  }

  datatype Check = Complete | Incomplete | GoOn

  /** `checkPointerInObject`. */
  method CheckPointerInObject(s: Solver, objects: seq<MemoryObject>, c: set<Formula>, p: Term, i: nat, rl: seq<nat>, max: nat)
    returns (r: Check, out: seq<nat>)
    requires s.Exact() && Laid(objects, Width(p)) && i < |objects| && i !in rl && NoRepeats(rl)
    ensures out == if Feasible(c, p, objects[i]) then rl + [i] else rl
    ensures r == Complete <==>
            && rl == [] && Feasible(c, p, objects[i])
            && forall a: Assignment :: Sat(c, a) ==> Contains(objects[i], Value(p, a))
    ensures r == Complete ==> out == [i]
    ensures r == Incomplete <==> rl != [] && Feasible(c, p, objects[i]) && |out| == max
  {
    hide Sat, InBounds, AtOrAbove, Below, Eval, WF, Solver.Exact;
    LaidFits(objects, Width(p));
    QueryMeans(s, c, p, objects[i]);
    out, r := rl, GoOn;
    var inBounds := InBounds(objects[i], p);
    if s.MayBeTrue(c, inBounds) {
      out := rl + [i];
      if |out| == 1 {
        if s.MustBeTrue(c, inBounds) {
          r := Complete;
        }
      } else if |out| == max {
        r := Incomplete;
      }
    }
  }

  /** The outcome of a search that has looked at the objects below `hi`. */
  ghost predicate Searched(r: Check, rl: seq<nat>, objects: seq<MemoryObject>, c: set<Formula>, p: Term,
                           start: nat, hi: nat, max: nat)
  {
    && Outward(rl, start) && Foremost(rl, objects, c, p, start)
    && match r
    case Complete => Lists(rl, objects, c, p, 0, |objects|) && |rl| == 1
    case Incomplete =>
      max >= 2 && |rl| == max && NoRepeats(rl) && forall k :: k in rl ==> k < |objects| && Feasible(c, p, objects[k])
    case GoOn => Lists(rl, objects, c, p, 0, hi) && (max >= 2 ==> |rl| < max)
  }

  lemma ListsMore(rl: seq<nat>, out: seq<nat>, objects: seq<MemoryObject>, c: set<Formula>, p: Term, lo: nat, hi: nat, i: nat)
    requires Lists(rl, objects, c, p, lo, hi) && i < |objects| && (i == lo - 1 || i == hi)
    requires out == if Feasible(c, p, objects[i]) then rl + [i] else rl
    ensures Lists(out, objects, c, p, if i < lo then i else lo, if i < lo then hi else hi + 1)
  {
    hide Feasible;
  }

  lemma ListsParts(rl: seq<nat>, objects: seq<MemoryObject>, c: set<Formula>, p: Term, lo: nat, hi: nat, i: nat)
    requires Lists(rl, objects, c, p, lo, hi) && (i < lo || i >= hi)
    ensures i !in rl && NoRepeats(rl)
    ensures forall k :: k in rl ==> k < |objects| && Feasible(c, p, objects[k])
  {
    hide Feasible;
  }

  lemma ListsWiden(rl: seq<nat>, objects: seq<MemoryObject>, c: set<Formula>, p: Term, lo: nat, hi: nat, lo1: nat, hi1: nat)
    requires Lists(rl, objects, c, p, lo, hi) && lo1 <= lo && hi <= hi1 <= |objects|
    requires forall k :: lo1 <= k < lo || hi <= k < hi1 ==> !Feasible(c, p, objects[k])
    ensures Lists(rl, objects, c, p, lo1, hi1)
  {
    hide Feasible;
  }

  lemma OnlyOne(objects: seq<MemoryObject>, c: set<Formula>, p: Term, i: nat)
    requires i < |objects| && Feasible(c, p, objects[i])
    requires forall k :: 0 <= k < |objects| && k != i ==> !Feasible(c, p, objects[k])
    ensures Lists([i], objects, c, p, 0, |objects|)
  {
    hide Feasible;
  }

  method SearchBackwards(s: Solver, objects: seq<MemoryObject>, c: set<Formula>, p: Term, start: nat, max: nat)
    returns (r: Check, rl: seq<nat>)
    requires s.Exact() && Laid(objects, Width(p)) && start <= |objects|
    ensures Searched(r, rl, objects, c, p, start, start, max)
  {
    hide Sat, InBounds, AtOrAbove, Below, Eval, WF, Solver.Exact, Feasible;
    hide Lists, Outward, Foremost;
    rl := [];
    var i: nat := start;
    LaidFits(objects, Width(p));
    ListsNone(objects, c, p, start);
    ForemostDown(rl, objects, c, p, start, start);
    while i > 0
      invariant i <= start && Lists(rl, objects, c, p, i, start) && (max >= 2 ==> |rl| < max)
      invariant Outward(rl, start) && Foremost(rl, objects, c, p, start)
    {
      i := i - 1;
      QueryMeans(s, c, p, objects[i]);
      ghost var before := rl;
      ListsParts(rl, objects, c, p, i + 1, start, i);
      r, rl := CheckPointerInObject(s, objects, c, p, i, rl, max);
      ListsMore(before, rl, objects, c, p, i + 1, start, i);
      OutwardDown(before, objects, c, p, start, i);
      ForemostDown(rl, objects, c, p, start, i);
      if r == Complete {
        NoOther(objects, c, p, i);
        ListsParts(rl, objects, c, p, i, start, start);
        OnlyOne(objects, c, p, i);
        return;
      } else if r == Incomplete {
        ListsParts(rl, objects, c, p, i, start, start);
        return;
      }
      if s.MustBeTrue(c, AtOrAbove(p, objects[i])) {
        NoneBelow(objects, c, p, i);
        ListsWiden(rl, objects, c, p, i, start, 0, start);
        return GoOn, rl;
      }
    }
    r := GoOn;
  }

  lemma ListsNone(objects: seq<MemoryObject>, c: set<Formula>, p: Term, i: nat)
    requires i <= |objects|
    ensures Lists([], objects, c, p, i, i) && Outward([], i)
  {
  }

  method SearchForwards(s: Solver, objects: seq<MemoryObject>, c: set<Formula>, p: Term, start: nat, found: seq<nat>, max: nat)
    returns (r: Check, rl: seq<nat>)
    requires s.Exact() && Laid(objects, Width(p)) && start <= |objects| && Searched(GoOn, found, objects, c, p, start, start, max)
    ensures Searched(r, rl, objects, c, p, start, |objects|, max)
  {
    hide Sat, InBounds, AtOrAbove, Below, Eval, WF, Solver.Exact, Feasible;
    hide Lists, Outward, Foremost;
    rl := found;
    var i := start;
    LaidFits(objects, Width(p));
    while i < |objects|
      invariant start <= i <= |objects| && Lists(rl, objects, c, p, 0, i) && (max >= 2 ==> |rl| < max)
      invariant Outward(rl, start) && Foremost(rl, objects, c, p, start)
    {
      QueryMeans(s, c, p, objects[i]);
      if s.MustBeTrue(c, Below(p, objects[i])) {
        NoneAbove(objects, c, p, i);
        ListsWiden(rl, objects, c, p, 0, i, 0, |objects|);
        return GoOn, rl;
      }
      ghost var before := rl;
      ListsParts(rl, objects, c, p, 0, i, i);
      r, rl := CheckPointerInObject(s, objects, c, p, i, rl, max);
      ListsMore(before, rl, objects, c, p, 0, i, i);
      OutwardUp(before, objects, c, p, start, i);
      ForemostUp(rl, objects, c, p, start, i + 1);
      ListsParts(rl, objects, c, p, 0, i + 1, i + 1);
      if r == Complete {
        NoOther(objects, c, p, i);
        OnlyOne(objects, c, p, i);
        return;
      } else if r == Incomplete {
        return;
      }
      i := i + 1;
    }
    r := GoOn;
  }

  /** `resolve`: unless a limit of two or more is reached, it is complete and lists
      exactly the objects some feasible value of the pointer falls in, each once, in
      the order of the search; else the first ones in that order. A limit of one is
      never applied. */
  method Resolve(s: Solver, objects: seq<MemoryObject>, c: set<Formula>, p: Term, max: nat)
    returns (incomplete: bool, rl: seq<nat>, ghost start: nat)
    requires s.Exact() && Laid(objects, Width(p)) && Satisfiable(c)
    ensures !incomplete ==> Lists(rl, objects, c, p, 0, |objects|)
    ensures incomplete ==> max >= 2 && |rl| == max && NoRepeats(rl)
    ensures incomplete ==> forall k :: k in rl ==> k < |objects| && Feasible(c, p, objects[k])
    ensures !incomplete && max >= 2 ==> |rl| < max || |rl| <= 1
    ensures !p.Constant? ==> StartsAt(objects, ToNat(s.pick(c, p)), start)
    ensures Outward(rl, start) && Foremost(rl, objects, c, p, start)
  {
    hide Sat, InBounds, AtOrAbove, Below, Eval, WF, Solver.Exact, Feasible;
    start := |objects|;
    if p.Constant? {
      var r := ResolveConstant(objects, ToNat(p.value), Width(p));
      rl := if r.Some? then [r.value] else [];
      ConstantFeasible(objects, c, p);
      return false, rl, start;
    }
    var example := s.pick(c, p);
    var from := UpperBound(objects, ToNat(example));
    start := from;
    var r;
    r, rl := SearchBackwards(s, objects, c, p, from, max);
    if r == GoOn {
      r, rl := SearchForwards(s, objects, c, p, from, rl, max);
    }
    incomplete := r == Incomplete;
  }

  lemma ConstantFeasible(objects: seq<MemoryObject>, c: set<Formula>, p: Term)
    requires p.Constant? && Satisfiable(c)
    ensures forall k :: 0 <= k < |objects| ==> (Feasible(c, p, objects[k]) <==> Contains(objects[k], ToNat(p.value)))
  {
    hide Sat;
    var a: Assignment :| Sat(c, a);
    forall b: Assignment ensures Value(p, b) == ToNat(p.value) {
      ConstantNode(p, b);
    }
  }

  // ----- resolveOne -----

  /** `resolveOne`: the first object in the order of the search that a feasible value
      of the pointer falls in, if there is one. */
  method ResolveOne(s: Solver, objects: seq<MemoryObject>, c: set<Formula>, p: Term) returns (r: Option<nat>, ghost start: nat)
    requires s.Exact() && Laid(objects, Width(p)) && Satisfiable(c)
    ensures r.Some? ==> r.value < |objects| && Feasible(c, p, objects[r.value])
    ensures r.None? ==> forall k :: 0 <= k < |objects| ==> !Feasible(c, p, objects[k])
    ensures !p.Constant? ==> StartsAt(objects, ToNat(s.pick(c, p)), start)
    ensures r.Some? ==> forall k :: 0 <= k < |objects| && Feasible(c, p, objects[k]) ==> Rank(start, r.value) <= Rank(start, k)
  {
    hide Sat, InBounds, AtOrAbove, Below, Eval, WF, Solver.Exact, Feasible;
    start := |objects|;
    if p.Constant? {
      r := ResolveConstant(objects, ToNat(p.value), Width(p));
      ConstantFeasible(objects, c, p);
      return;
    }
    // cheap search: the object around one feasible value
    var example := ToNat(s.pick(c, p));
    var from := UpperBound(objects, example);
    start := from;
    if from > 0 && example - objects[from - 1].address < objects[from - 1].size {
      PickFeasible(s, c, p, objects[from - 1]);
      return Some(from - 1), start;
    }
    r := FindBackwards(s, objects, c, p, from);
    if r.None? {
      r := FindForwards(s, objects, c, p, from);
    }
  }

  lemma PickFeasible(s: Solver, c: set<Formula>, p: Term, mo: MemoryObject)
    requires s.Exact() && Satisfiable(c) && Contains(mo, ToNat(s.pick(c, p)))
    ensures Feasible(c, p, mo)
  {
    hide Sat, WF;
    var a: Assignment :| Sat(c, a) && Eval(p, a) == s.pick(c, p);
    assert Contains(mo, Value(p, a));
  }

  method FindBackwards(s: Solver, objects: seq<MemoryObject>, c: set<Formula>, p: Term, start: nat) returns (r: Option<nat>)
    requires s.Exact() && Laid(objects, Width(p)) && start <= |objects|
    ensures r.Some? ==> r.value < start && Feasible(c, p, objects[r.value])
    ensures forall k :: (if r.Some? then r.value + 1 else 0) <= k < start ==> !Feasible(c, p, objects[k])
  {
    hide Sat, InBounds, AtOrAbove, Below, Eval, WF, Solver.Exact, Feasible;
    var i: nat := start;
    LaidFits(objects, Width(p));
    while i > 0
      invariant i <= start && forall k :: i <= k < start ==> !Feasible(c, p, objects[k])
    {
      i := i - 1;
      QueryMeans(s, c, p, objects[i]);
      if s.MayBeTrue(c, InBounds(objects[i], p)) {
        return Some(i);
      }
      if s.MustBeTrue(c, AtOrAbove(p, objects[i])) {
        NoneBelow(objects, c, p, i);
        return None;
      }
    }
    r := None;
  }

  method FindForwards(s: Solver, objects: seq<MemoryObject>, c: set<Formula>, p: Term, start: nat) returns (r: Option<nat>)
    requires s.Exact() && Laid(objects, Width(p)) && start <= |objects|
    ensures r.Some? ==> start <= r.value < |objects| && Feasible(c, p, objects[r.value])
    ensures forall k :: start <= k < (if r.Some? then r.value else |objects|) ==> !Feasible(c, p, objects[k])
  {
    hide Sat, InBounds, AtOrAbove, Below, Eval, WF, Solver.Exact, Feasible;
    var i := start;
    LaidFits(objects, Width(p));
    while i < |objects|
      invariant start <= i <= |objects| && forall k :: start <= k < i ==> !Feasible(c, p, objects[k])
    {
      QueryMeans(s, c, p, objects[i]);
      if s.MustBeTrue(c, Below(p, objects[i])) {
        NoneAbove(objects, c, p, i);
        return None;
      }
      if s.MayBeTrue(c, InBounds(objects[i], p)) {
        return Some(i);
      }
      i := i + 1;
    }
    r := None;
  }
}
