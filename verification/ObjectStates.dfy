/** `ObjectState` of lib/Core/Memory.cpp: a memory object with a concrete byte
    store, lazily allocated masks, known symbolic bytes and an update list. Every
    method is proved against the plain byte array the object stands for. */
module ObjectStates {
  import opened Bits
  import opened Exprs
  import opened Options
  import opened ArrayReads
  import opened ObjectCells
  import opened ArithmeticConstructors
  import opened SliceConstructors
  import opened ByteArrays

  function Nones(n: nat): (s: seq<Option<Expr>>)
    ensures |s| == n && forall i :: 0 <= i < n ==> s[i] == None
  {
    seq(n, _ => None)
  }

  function Filled(n: nat, v: Byte): (s: seq<Byte>)
    ensures |s| == n && forall i :: 0 <= i < n ==> s[i] == v
  {
    seq(n, _ => v)
  }

  method Duplicate<T>(a: array<T>) returns (b: array<T>)
    ensures fresh(b) && b.Length == a.Length && b[..] == a[..]
  {
    if a.Length == 0 {
      b := new T[0];
    } else {
      var first := a[0];
      b := new T[a.Length](_ => first);
      for i := 0 to a.Length
        invariant b[..i] == a[..i]
      {
        b[i] := a[i];
      }
    }
  }

  method DuplicateMask(a: array?<bool>) returns (b: array?<bool>)
    ensures a == null <==> b == null
    ensures b != null ==> fresh(b) && b.Length == a.Length && b[..] == a[..]
  {
    b := null;
    if a != null {
      b := Duplicate(a);
    }
  }

  method DuplicateKnown(a: array?<Option<Expr>>) returns (b: array?<Option<Expr>>)
    ensures a == null <==> b == null
    ensures b != null ==> fresh(b) && b.Length == a.Length && b[..] == a[..]
  {
    b := null;
    if a != null {
      b := Duplicate(a);
    }
  }

  lemma AllOnes(n: nat)
    ensures |Ones(n)| == n && forall i :: 0 <= i < n ==> Ones(n)[i]
  {
  }

  lemma OriginalByte(c: Cells, i: nat, a: Assignment)
    requires c.head == NoUpdates && i < Pow2(INT32)
    ensures ListByte(c, i, a) == InitialByte(if c.root.Some? then c.root.value else ZeroArray(|c.store|), i, a)
  {
    OffsetInjective(i, i);
  }

  /** Adding a byte's position to the offset leaves it symbolic, as the accessors
      assert. */
  ghost predicate LanesSymbolic(offset: Term, n: nat)
    requires Width(offset) == INT32
  {
    forall i :: 0 <= i < n ==> !AddCreate(offset, Cell(i)).Constant?
  }

  lemma FoldedLanes(offset: Term, n: nat)
    requires Width(offset) == INT32 && !offset.Constant? && Folded(offset)
    ensures LanesSymbolic(offset, n)
  {
    hide Eval, WF, AddPartialR, Offset;
    forall i | 0 <= i < n ensures !AddCreate(offset, Cell(i)).Constant? {
      FoldedPartial(Cell(i), offset);
    }
  }

  lemma LaneSymbolic(offset: Term, i: nat, n: nat)
    requires Width(offset) == INT32 && i < n && LanesSymbolic(offset, n)
    ensures !AddCreate(offset, Cell(i)).Constant?
  {
    hide Eval, WF, AddCreate, Offset;
  }

  lemma StoredByte(s: seq<Byte>, i: nat, v: Byte)
    requires i < |s|
    ensures StoreByte(s, i, v) == s[i := v]
  {
  }

  lemma LaneAddress(offset: Term, i: nat, a: Assignment)
    requires Width(offset) == INT32 && ToNat(Eval(offset, a)) + i < Pow2(INT32)
    ensures ToNat(Eval(AddCreate(offset, Cell(i)), a)) == ToNat(Eval(offset, a)) + i
  {
    hide *;
    AddSound(offset, Cell(i), a);
    CellNode(i, a);
    OffsetInjective(i, i);
    PlusExact(Eval(offset, a), Offset(i));
  }

  class ObjectState {
    const size: nat
    var concreteStore: array<Byte>
    var concreteMask: array?<bool>
    var flushMask: array?<bool>
    var knownSymbolics: array?<Option<Expr>>
    var root: Option<Array>
    var head: WriteList
    ghost var Repr: set<object>

    ghost predicate Layout()
      reads this, Repr
    {
      && this in Repr && concreteStore in Repr && concreteStore.Length == size
      && (concreteMask != null ==> concreteMask in Repr && concreteMask.Length == size)
      && (flushMask != null ==> flushMask in Repr && flushMask.Length == size && flushMask != concreteMask)
      && (knownSymbolics != null ==> knownSymbolics in Repr && knownSymbolics.Length == size)
    }

    ghost function Snapshot(): (c: Cells)
      requires Layout()
      reads this, Repr
      ensures |c.store| == |c.concrete| == |c.flushed| == |c.known| == size && c.root == root && c.head == head
    {
      Cells(concreteStore[..],
            if concreteMask == null then Ones(size) else concreteMask[..],
            if flushMask == null then Zeros(size) else NotBits(flushMask[..]),
            if knownSymbolics == null then Nones(size) else knownSymbolics[..],
            root, head)
    }

    /** The object's cells satisfy the cache invariants. */
    ghost predicate Valid()
      reads this, Repr
    {
      Layout() && Consistent(Snapshot())
    }

    /** The bytes of the object under an assignment. */
    ghost function Bytes(a: Assignment): (s: seq<Byte>)
      requires Valid()
      reads this, Repr
      ensures |s| == size
    {
      Contents(Snapshot(), a)
    }

    lemma PlainState()
      requires Layout() && size < Pow2(INT32) && ConstantCellsFit(head, size)
      requires concreteMask == flushMask == null && knownSymbolics == null
      ensures Valid() && forall a: Assignment :: Bytes(a) == concreteStore[..]
    {
      hide Eval, ReadAt, WF, ByteOK, ByteAt;
      PlainContents(Snapshot());
    }

    lemma ArrayState()
      requires Layout() && size < Pow2(INT32) && head == NoUpdates
      requires forall k :: 0 <= k < size ==> var c := Snapshot(); !c.concrete[k] && c.flushed[k] && c.known[k] == None
      ensures Valid() && forall i, a: Assignment :: 0 <= i < size ==>
                Bytes(a)[i] == InitialByte(if root.Some? then root.value else ZeroArray(size), i, a)
    {
      hide Eval, ReadAt, WF, ByteOK, ByteAt, Snapshot;
      ArrayContents(Snapshot());
      forall i, a: Assignment | 0 <= i < size
        ensures Bytes(a)[i] == InitialByte(if root.Some? then root.value else ZeroArray(size), i, a)
      {
        OriginalByte(Snapshot(), i, a);
      }
    }

    // ----- construction -----

    /** A new object with zeroed concrete contents. Its array is either built
        when first needed or, without constant arrays, the given one. */
    constructor (size: nat, root: Option<Array>)
      requires size < Pow2(INT32)
      ensures Valid() && fresh(Repr) && this.size == size
      ensures forall a: Assignment :: Bytes(a) == Filled(size, Zeros(INT8))
    {
      hide Eval, ReadAt, WF, Consistent, Shape, Contents, Pow2;
      this.size := size;
      concreteStore := new Byte[size](_ => Zeros(INT8));
      concreteMask, flushMask, knownSymbolics := null, null, null;
      this.root, head := root, NoUpdates;
      new;
      Repr := {this, concreteStore};
      assert concreteStore[..] == Filled(size, Zeros(INT8));
      PlainState();
    }

    /** A new object whose bytes are those of an array. */
    constructor FromArray(size: nat, contents: Array)
      requires size < Pow2(INT32)
      ensures Valid() && fresh(Repr) && this.size == size
      ensures forall i, a: Assignment :: 0 <= i < size ==> Bytes(a)[i] == InitialByte(contents, i, a)
    {
      hide Eval, ReadAt, WF, Consistent, Shape, Contents, Pow2;
      this.size := size;
      concreteStore := new Byte[size](_ => Zeros(INT8));
      concreteMask, flushMask, knownSymbolics := null, null, null;
      root, head := Some(contents), NoUpdates;
      new;
      Repr := {this, concreteStore};
      MakeSymbolic();
    }

    /** A copy that shares nothing with the original. */
    constructor Copy(os: ObjectState)
      requires os.Valid()
      ensures Valid() && fresh(Repr) && size == os.size
      ensures Snapshot() == os.Snapshot()
    {
      hide Consistent, Eval, ReadAt, WF, WFUpdates;
      size := os.size;
      var store := Duplicate(os.concreteStore);
      var concrete := DuplicateMask(os.concreteMask);
      var flush := DuplicateMask(os.flushMask);
      var known := DuplicateKnown(os.knownSymbolics);
      concreteStore, concreteMask, flushMask, knownSymbolics := store, concrete, flush, known;
      root, head := os.root, os.head;
      new;
      Repr := {this, store};
      if concrete != null {
        Repr := Repr + {concrete};
      }
      if flush != null {
        Repr := Repr + {flush};
      }
      if known != null {
        Repr := Repr + {known};
      }
    }

    // ----- masks -----

    method MarkByteConcrete(offset: nat)
      requires Layout() && offset < size
      modifies Repr
      ensures Layout() && Repr == old(Repr)
      ensures Snapshot() == old(Snapshot()).(concrete := old(Snapshot().concrete)[offset := true])
    {
      if concreteMask != null {
        concreteMask[offset] := true;
      }
    }

    method MarkByteSymbolic(offset: nat)
      requires Layout() && offset < size
      modifies Repr
      ensures Layout() && fresh(Repr - old(Repr)) && flushMask == old(flushMask)
      ensures Snapshot() == old(Snapshot()).(concrete := old(Snapshot().concrete)[offset := false])
    {
      if concreteMask == null {
        concreteMask := new bool[size](_ => true);
        Repr := Repr + {concreteMask};
        assert concreteMask[..] == Ones(size);
      }
      concreteMask[offset] := false;
    }

    method MarkByteUnflushed(offset: nat)
      requires Layout() && offset < size
      modifies Repr
      ensures Layout() && Repr == old(Repr)
      ensures Snapshot() == old(Snapshot()).(flushed := old(Snapshot().flushed)[offset := false])
    {
      if flushMask != null {
        flushMask[offset] := true;
        assert NotBits(flushMask[..]) == old(NotBits(flushMask[..]))[offset := false];
      }
    }

    /** A mask that does not exist yet is created with every byte flushed. */
    method MarkByteFlushed(offset: nat)
      requires Layout() && offset < size
      modifies Repr
      ensures Layout() && fresh(Repr - old(Repr))
      ensures Snapshot() == old(Snapshot()).(flushed :=
                if old(flushMask) == null then Ones(size) else old(Snapshot().flushed)[offset := true])
      ensures flushMask != null
    {
      if flushMask == null {
        flushMask := new bool[size](_ => false);
        Repr := Repr + {flushMask};
        assert NotBits(flushMask[..]) == Ones(size);
      } else {
        flushMask[offset] := false;
        assert NotBits(flushMask[..]) == old(NotBits(flushMask[..]))[offset := true];
      }
    }

    method SetKnownSymbolic(offset: nat, value: Option<Expr>)
      requires Layout() && offset < size
      modifies Repr
      ensures Layout() && fresh(Repr - old(Repr)) && flushMask == old(flushMask)
      ensures Snapshot() == old(Snapshot()).(known := old(Snapshot().known)[offset := value])
    {
      if knownSymbolics == null && value.Some? {
        knownSymbolics := new Option<Expr>[size](_ => None);
        Repr := Repr + {knownSymbolics};
        assert knownSymbolics[..] == Nones(size);
      }
      if knownSymbolics != null {
        knownSymbolics[offset] := value;
      }
    }

    // ----- initialisation -----

    /** Forget the masks and the known bytes: every byte is as in the store. */
    method MakeConcrete()
      requires Valid()
      modifies this
      ensures Valid() && Repr == old(Repr)
      ensures concreteMask == flushMask == null && knownSymbolics == null && concreteStore == old(concreteStore)
      ensures forall a: Assignment :: Bytes(a) == old(concreteStore[..])
    {
      hide Eval, ReadAt, WF;
      concreteMask, flushMask, knownSymbolics := null, null, null;
      PlainState();
    }

    /** Overwrite every byte of an object without masks. */
    method Fill(v: Byte)
      requires Valid() && concreteMask == flushMask == null && knownSymbolics == null
      modifies concreteStore
      ensures Valid() && Repr == old(Repr)
      ensures forall a: Assignment :: Bytes(a) == Filled(size, v)
    {
      hide Eval, ReadAt, WF;
      for i := 0 to size
        invariant forall k :: 0 <= k < i ==> concreteStore[k] == v
      {
        concreteStore[i] := v;
      }
      assert concreteStore[..] == Filled(size, v);
      PlainState();
    }

    method InitializeToZero()
      requires Valid()
      modifies Repr
      ensures Valid() && Repr == old(Repr)
      ensures forall a: Assignment :: Bytes(a) == Filled(size, Zeros(INT8))
    {
      MakeConcrete();
      Fill(Zeros(INT8));
    }

    /** "Random" contents are the byte 0xAB. */
    method InitializeToRandom()
      requires Valid()
      modifies Repr
      ensures Valid() && Repr == old(Repr)
      ensures forall a: Assignment :: Bytes(a) == Filled(size, FromInt(0xAB, INT8))
    {
      MakeConcrete();
      Fill(FromInt(0xAB, INT8));
    }

    /** Every byte becomes the array's own. */
    method MakeSymbolic()
      requires Layout() && size < Pow2(INT32) && head == NoUpdates
      modifies Repr
      ensures Valid() && fresh(Repr - old(Repr))
      ensures root == old(root) && head == old(head)
      ensures forall i, a: Assignment :: 0 <= i < size ==>
                Bytes(a)[i] == InitialByte(if root.Some? then root.value else ZeroArray(size), i, a)
    {
      hide *;
      for i := 0 to size
        invariant Layout() && fresh(Repr - old(Repr)) && root == old(root) && head == old(head)
        invariant forall k :: 0 <= k < i ==> var c := Snapshot(); !c.concrete[k] && c.flushed[k] && c.known[k] == None
      {
        MarkByteSymbolic(i);
        SetKnownSymbolic(i, None);
        MarkByteFlushed(i);
        AllOnes(size);
      }
      ArrayState();
    }

    // ----- flushing -----

    predicate IsByteConcrete(offset: nat)
      requires Layout() && offset < size
      reads this, Repr
      ensures IsByteConcrete(offset) == Snapshot().concrete[offset]
    {
      concreteMask == null || concreteMask[offset]
    }

    predicate IsByteFlushed(offset: nat)
      requires Layout() && offset < size
      reads this, Repr
      ensures IsByteFlushed(offset) == Snapshot().flushed[offset]
    {
      flushMask != null && !flushMask[offset]
    }

    predicate IsByteKnownSymbolic(offset: nat)
      requires Layout() && offset < size
      reads this, Repr
      ensures IsByteKnownSymbolic(offset) == Snapshot().known[offset].Some?
    {
      knownSymbolics != null && knownSymbolics[offset].Some?
    }

    /** A flush mask, with no byte flushed where there was none. */
    method EnsureFlushMask()
      requires Layout()
      modifies this
      ensures Layout() && fresh(Repr - old(Repr)) && flushMask != null
      ensures Snapshot() == old(Snapshot())
    {
      if flushMask == null {
        flushMask := new bool[size](_ => true);
        Repr := Repr + {flushMask};
        assert NotBits(flushMask[..]) == Zeros(size);
      }
    }

    method Unset(offset: nat)
      requires Layout() && flushMask != null && offset < size
      modifies flushMask
      ensures Layout() && Snapshot() == old(Snapshot()).(flushed := old(Snapshot().flushed)[offset := true])
    {
      flushMask[offset] := false;
      assert NotBits(flushMask[..]) == old(NotBits(flushMask[..]))[offset := true];
    }

    /** One byte of `flushRangeForRead`. */
    method FlushByteForRead(offset: nat)
      requires Valid() && flushMask != null && offset < size
      modifies this, flushMask
      ensures Layout() && Repr == old(Repr) && flushMask == old(flushMask)
      ensures Snapshot() == FlushForRead(old(Snapshot()), offset)
    {
      hide Eval, ReadAt, WF;
      if !IsByteFlushed(offset) {
        assert ByteOK(Snapshot(), offset);
        if IsByteConcrete(offset) {
          head := ExtendAt(head, offset, ConstantByte(concreteStore[offset]));
        } else {
          head := ExtendAt(head, offset, knownSymbolics[offset].value);
        }
        Unset(offset);
      }
    }

    /** Flush every byte to the update list, keeping what is cached. */
    method FlushRangeForRead()
      requires Valid()
      modifies Repr
      ensures Layout() && fresh(Repr - old(Repr))
      ensures Snapshot() == AllFlushedForRead(old(Snapshot()), size)
    {
      hide Consistent, Snapshot, FlushForRead;
      EnsureFlushMask();
      for i := 0 to size
        invariant Layout() && fresh(Repr - old(Repr)) && flushMask != null
        invariant Snapshot() == AllFlushedForRead(old(Snapshot()), i)
      {
        AllFlushedForReadKeeps(old(Snapshot()), i);
        FlushByteForRead(i);
      }
    }

    /** Drop the cached value of a byte. */
    method Uncache(offset: nat)
      requires Layout() && offset < size
      requires Snapshot().known[offset].Some? ==> !Snapshot().concrete[offset]
      modifies Repr
      ensures Layout() && fresh(Repr - old(Repr)) && flushMask == old(flushMask)
      ensures Snapshot() == old(Snapshot()).(concrete := old(Snapshot().concrete)[offset := false],
                                             known := old(Snapshot().known)[offset := None])
    {
      hide Snapshot;
      ghost var c := Snapshot();
      assert c.concrete[offset := c.concrete[offset]] == c.concrete;
      assert c.known[offset := c.known[offset]] == c.known;
      if IsByteConcrete(offset) {
        MarkByteSymbolic(offset);
      } else if IsByteKnownSymbolic(offset) {
        SetKnownSymbolic(offset, None);
      }
    }

    /** One byte of `flushRangeForWrite`; a flushed byte only loses its cached
        value. */
    method FlushByteForWrite(offset: nat)
      requires Valid() && flushMask != null && offset < size
      modifies Repr
      ensures Layout() && fresh(Repr - old(Repr)) && flushMask != null
      ensures Snapshot() == FlushForWrite(old(Snapshot()), offset)
    {
      hide Eval, ReadAt, WF, Snapshot;
      assert ByteOK(Snapshot(), offset);
      FlushByteForRead(offset);
      Uncache(offset);
    }

    /** Flush every byte to the update list and cache none. */
    method FlushRangeForWrite()
      requires Valid()
      modifies Repr
      ensures Layout() && fresh(Repr - old(Repr))
      ensures Snapshot() == AllFlushedForWrite(old(Snapshot()), size)
    {
      hide Consistent, Snapshot, FlushForWrite;
      EnsureFlushMask();
      for i := 0 to size
        invariant Layout() && fresh(Repr - old(Repr)) && flushMask != null
        invariant Snapshot() == AllFlushedForWrite(old(Snapshot()), i)
      {
        AllFlushedForWriteKeeps(old(Snapshot()), i);
        FlushByteForWrite(i);
      }
    }

    /** The update list, over an array that is built when first needed. */
    method GetUpdates() returns (array_: Array, updates: WriteList)
      requires Valid()
      modifies this
      ensures Layout() && Repr == old(Repr) && Snapshot() == WithRoot(old(Snapshot()))
      ensures root == Some(array_) && head == updates
    {
      hide Eval, ReadAt, WF, ByteOK;
      if root.None? {
        var r, rest := BuildConstantArray(head, size);
        root, head := Some(r), rest;
      }
      array_, updates := root.value, head;
    }

    // ----- reading and writing one byte -----

    method Read8(offset: nat) returns (e: Term)
      requires Valid() && offset < size
      modifies this
      ensures Valid() && Repr == old(Repr) && Width(e) == INT8
      ensures forall a: Assignment :: Bytes(a) == old(Bytes(a)) && Eval(e, a) == old(Bytes(a))[offset]
    {
      hide Eval, ReadAt, WF, ByteOK, WithRoot, ReadCreate;
      ghost var c := Snapshot();
      if IsByteConcrete(offset) || IsByteKnownSymbolic(offset) {
        e := if IsByteConcrete(offset) then ConstantByte(concreteStore[offset]) else knownSymbolics[offset].value;
        forall a: Assignment ensures Eval(e, a) == old(Bytes(a))[offset] {
          CachedValue(c, offset, a);
        }
      } else {
        var r, u := GetUpdates();
        WithRootKeeps(c);
        SameContents(c, WithRoot(c));
        e := ReadExprCreate(r, u, Cell(offset));
        forall a: Assignment ensures Eval(e, a) == old(Bytes(a))[offset] {
          ReadFlushed(c, offset, a);
        }
      }
    }

    /** A read at a symbolic offset flushes the whole object first. */
    method ReadSymbolic8(offset: Term) returns (e: Term)
      requires Valid() && !offset.Constant? && Width(offset) == INT32
      modifies Repr
      ensures Valid() && fresh(Repr - old(Repr)) && Width(e) == INT8
      ensures forall a: Assignment :: Bytes(a) == old(Bytes(a))
      ensures forall a: Assignment :: ToNat(Eval(offset, a)) < size ==>
                Eval(e, a) == old(Bytes(a))[ToNat(Eval(offset, a))]
    {
      hide Eval, ReadAt, WF, ByteOK, WithRoot, ReadCreate, AllFlushedForRead, Snapshot;
      ghost var c := Snapshot();
      FlushRangeForRead();
      ghost var d := Snapshot();
      AllFlushedForReadKeeps(c, size);
      WithRootKeeps(d);
      SameContents(c, d);
      SameContents(d, WithRoot(d));
      var r, u := GetUpdates();
      e := ReadExprCreate(r, u, ZExtCreate(offset, INT32));
      forall a: Assignment | ToNat(Eval(offset, a)) < size
        ensures Eval(e, a) == old(Bytes(a))[ToNat(Eval(offset, a))]
      {
        ReadSymbolic(d, offset, a);
      }
    }

    method Write8Concrete(offset: nat, value: Byte)
      requires Valid() && offset < size
      modifies Repr
      ensures Valid() && fresh(Repr - old(Repr))
      ensures forall a: Assignment :: Bytes(a) == old(Bytes(a))[offset := value]
    {
      hide Eval, ReadAt, WF, ByteOK;
      WriteConcreteSets(Snapshot(), offset, value);
      concreteStore[offset] := value;
      assert Snapshot() == old(Snapshot()).(store := old(concreteStore[..])[offset := value]);
      hide Snapshot;
      SetKnownSymbolic(offset, None);
      MarkByteConcrete(offset);
      MarkByteUnflushed(offset);
      assert Snapshot() == WriteConcrete(old(Snapshot()), offset, value);
    }

    method Write8(offset: nat, value: Term)
      requires Valid() && offset < size && Width(value) == INT8
      modifies Repr
      ensures Valid() && fresh(Repr - old(Repr))
      ensures forall a: Assignment :: Bytes(a) == old(Bytes(a))[offset := Eval(value, a)]
    {
      hide Eval, ReadAt, WF, ByteOK;
      if value.Constant? {
        ConstantWidth(value);
        forall a: Assignment ensures Eval(value, a) == value.value {
          ConstantNode(value, a);
        }
        Write8Concrete(offset, value.value);
      } else {
        WriteKnownSets(Snapshot(), offset, value);
        hide Snapshot;
        SetKnownSymbolic(offset, Some(value));
        MarkByteSymbolic(offset);
        MarkByteUnflushed(offset);
        assert Snapshot() == WriteKnown(old(Snapshot()), offset, value);
      }
    }

    /** A write at a symbolic offset flushes the whole object, caches nothing,
        and extends the update list. */
    method WriteSymbolic8(offset: Term, value: Term)
      requires Valid() && !offset.Constant? && Width(offset) == INT32 && Width(value) == INT8
      modifies Repr
      ensures Valid() && fresh(Repr - old(Repr))
      ensures forall a: Assignment ::
                Bytes(a) == StoreByte(old(Bytes(a)), ToNat(Eval(offset, a)), Eval(value, a))
    {
      hide Eval, ReadAt, WF, ByteOK, AllFlushedForWrite;
      ghost var c := Snapshot();
      FlushRangeForWrite();
      ghost var d := Snapshot();
      AllFlushedForWriteKeeps(c, size);
      SameContents(c, d);
      WriteSymbolicSets(d, offset, value);
      ExtendSymbolic(ZExtCreate(offset, INT32), value);
    }

    method ExtendSymbolic(offset: Term, value: Term)
      requires Layout() && Shape(Snapshot()) && !offset.Constant? && Width(offset) == INT32 && Width(value) == INT8
      modifies this`head
      ensures Layout() && Snapshot() == WriteSymbolic(old(Snapshot()), offset, value)
    {
      hide Eval, ReadAt, WF, Extend, Shape;
      head := Extend(head, offset, value);
    }

    // ----- reading and writing values -----

    method ReadBytes(offset: nat, n: nat, little: bool) returns (e: Term)
      requires Valid() && 1 <= n <= n + offset <= size
      modifies this
      ensures Valid() && Repr == old(Repr) && Width(e) == 8 * n
      ensures forall a: Assignment :: Bytes(a) == old(Bytes(a))
      ensures forall a: Assignment :: Eval(e, a) == Load(old(Bytes(a)), offset, n, n, little)
    {
      hide *;
      EightBits();
      e := Read8(offset + Lane(0, n, little));
      forall a: Assignment ensures Eval(e, a) == Load(old(Bytes(a)), offset, n, 1, little) {
        LoadStep(old(Bytes(a)), offset, n, 0, little);
      }
      for i := 1 to n
        invariant Valid() && Repr == old(Repr) && Width(e) == 8 * i
        invariant forall a: Assignment :: Bytes(a) == old(Bytes(a))
        invariant forall a: Assignment :: Eval(e, a) == Load(old(Bytes(a)), offset, n, i, little)
      {
        var byte := Read8(offset + Lane(i, n, little));
        var wider := ConcatCreate(byte, e);
        forall a: Assignment ensures Eval(wider, a) == Load(old(Bytes(a)), offset, n, i + 1, little) {
          ConcatSound(byte, e, a);
          LoadStep(old(Bytes(a)), offset, n, i, little);
        }
        e := wider;
      }
    }

    /** A read of any width at a constant offset. */
    method ReadFixed(offset: nat, width: nat, little: bool) returns (e: Term)
      requires Valid() && Movable(width) && offset + Extent(width) <= size
      modifies this
      ensures Valid() && Repr == old(Repr) && Width(e) == width
      ensures forall a: Assignment :: Bytes(a) == old(Bytes(a))
      ensures forall a: Assignment :: Eval(e, a) == LoadValue(old(Bytes(a)), offset, width, little)
    {
      hide *;
      EightBits();
      Extents(width);
      if width == BOOL {
        var byte := Read8(offset);
        e := ExtractCreate(byte, 0, BOOL);
        forall a: Assignment ensures Eval(e, a) == LoadValue(old(Bytes(a)), offset, width, little) {
          ExtractSound(byte, 0, BOOL, a);
          LoadParts(old(Bytes(a)), offset, width, little);
        }
      } else {
        e := ReadBytes(offset, width / 8, little);
        forall a: Assignment ensures Eval(e, a) == LoadValue(old(Bytes(a)), offset, width, little) {
          LoadParts(old(Bytes(a)), offset, width, little);
        }
      }
    }

    method ReadSymbolicBytes(offset: Term, n: nat, little: bool) returns (e: Term)
      requires Valid() && Width(offset) == INT32 && n >= 1 && LanesSymbolic(offset, n)
      modifies Repr
      ensures Valid() && fresh(Repr - old(Repr)) && Width(e) == 8 * n
      ensures forall a: Assignment :: Bytes(a) == old(Bytes(a))
      ensures forall a: Assignment :: ToNat(Eval(offset, a)) + n <= size ==>
                Eval(e, a) == Load(old(Bytes(a)), ToNat(Eval(offset, a)), n, n, little)
    {
      hide *;
      EightBits();
      e := ReadLane(offset, 0, n, little);
      forall a: Assignment | ToNat(Eval(offset, a)) + n <= size
        ensures Eval(e, a) == Load(old(Bytes(a)), ToNat(Eval(offset, a)), n, 1, little)
      {
        LoadStep(old(Bytes(a)), ToNat(Eval(offset, a)), n, 0, little);
      }
      for i := 1 to n
        invariant Valid() && fresh(Repr - old(Repr)) && Width(e) == 8 * i
        invariant forall a: Assignment :: Bytes(a) == old(Bytes(a))
        invariant forall a: Assignment :: ToNat(Eval(offset, a)) + n <= size ==>
                    Eval(e, a) == Load(old(Bytes(a)), ToNat(Eval(offset, a)), n, i, little)
      {
        var byte := ReadLane(offset, i, n, little);
        var wider := ConcatCreate(byte, e);
        forall a: Assignment | ToNat(Eval(offset, a)) + n <= size
          ensures Eval(wider, a) == Load(old(Bytes(a)), ToNat(Eval(offset, a)), n, i + 1, little)
        {
          ConcatSound(byte, e, a);
          LoadStep(old(Bytes(a)), ToNat(Eval(offset, a)), n, i, little);
        }
        e := wider;
      }
    }

    method ReadLane(offset: Term, i: nat, n: nat, little: bool) returns (e: Term)
      requires Valid() && Width(offset) == INT32 && i < n && LanesSymbolic(offset, n)
      modifies Repr
      ensures Valid() && fresh(Repr - old(Repr)) && Width(e) == INT8
      ensures forall a: Assignment :: Bytes(a) == old(Bytes(a))
      ensures forall a: Assignment :: ToNat(Eval(offset, a)) + n <= size ==>
                Eval(e, a) == old(Bytes(a))[ToNat(Eval(offset, a)) + Lane(i, n, little)]
    {
      hide *;
      var k := Lane(i, n, little);
      LaneSymbolic(offset, k, n);
      e := ReadSymbolic8(AddCreate(offset, Cell(k)));
      SizeFits();
      forall a: Assignment | ToNat(Eval(offset, a)) + n <= size
        ensures Eval(e, a) == old(Bytes(a))[ToNat(Eval(offset, a)) + k]
      {
        LaneAddress(offset, k, a);
      }
    }

    lemma SizeFits()
      requires Valid()
      ensures size < Pow2(INT32)
    {
    }

    /** A read of any width at any offset. */
    method Read(offset: Term, width: nat, little: bool) returns (e: Term)
      requires Valid() && Movable(width)
      requires var o := ZExtCreate(offset, INT32);
               if o.Constant? then ToNat(o.value) + Extent(width) <= size
               else width == BOOL || LanesSymbolic(o, Extent(width))
      modifies Repr
      ensures Valid() && fresh(Repr - old(Repr)) && Width(e) == width
      ensures forall a: Assignment :: Bytes(a) == old(Bytes(a))
      ensures forall a: Assignment :: ToNat(Eval(ZExtCreate(offset, INT32), a)) + Extent(width) <= size ==>
                Eval(e, a) == LoadValue(old(Bytes(a)), ToNat(Eval(ZExtCreate(offset, INT32), a)), width, little)
    {
      hide *;
      EightBits();
      Extents(width);
      RootInRepr();
      var o := ZExtCreate(offset, INT32);
      if o.Constant? {
        e := ReadFixed(ToNat(o.value), width, little);
        forall a: Assignment ensures Eval(o, a) == o.value {
          ConstantNode(o, a);
        }
      } else if width == BOOL {
        var byte := ReadSymbolic8(o);
        e := ExtractCreate(byte, 0, BOOL);
        forall a: Assignment | ToNat(Eval(o, a)) + 1 <= size
          ensures Eval(e, a) == LoadValue(old(Bytes(a)), ToNat(Eval(o, a)), width, little)
        {
          ExtractSound(byte, 0, BOOL, a);
          LoadParts(old(Bytes(a)), ToNat(Eval(o, a)), width, little);
        }
      } else {
        e := ReadSymbolicBytes(o, width / 8, little);
        forall a: Assignment | ToNat(Eval(o, a)) + width / 8 <= size
          ensures Eval(e, a) == LoadValue(old(Bytes(a)), ToNat(Eval(o, a)), width, little)
        {
          LoadParts(old(Bytes(a)), ToNat(Eval(o, a)), width, little);
        }
      }
    }

    lemma RootInRepr()
      requires Valid()
      ensures this in Repr
    {
    }

    /** `write16`, `write32` and `write64`: the bytes of a constant. */
    method WriteConcreteBytes(offset: nat, value: Bits, n: nat, little: bool)
      requires Valid() && |value| == 8 * n && offset + n <= size
      modifies Repr
      ensures Valid() && fresh(Repr - old(Repr))
      ensures forall a: Assignment :: Bytes(a) == Store(old(Bytes(a)), offset, n, n, value, little)
    {
      hide *;
      EightBits();
      forall a: Assignment ensures Bytes(a) == Store(old(Bytes(a)), offset, n, 0, value, little) {
        StoreNone(old(Bytes(a)), offset, n, value, little);
      }
      for i := 0 to n
        invariant Valid() && fresh(Repr - old(Repr))
        invariant forall a: Assignment :: Bytes(a) == Store(old(Bytes(a)), offset, n, i, value, little)
      {
        Write8Concrete(offset + Lane(i, n, little), value[8 * i..8 * (i + 1)]);
        forall a: Assignment ensures Bytes(a) == Store(old(Bytes(a)), offset, n, i + 1, value, little) {
          StoreStep(old(Bytes(a)), offset, n, i, value, little);
        }
      }
    }

    method WriteBytes(offset: nat, value: Term, n: nat, little: bool)
      requires Valid() && Width(value) == 8 * n && offset + n <= size
      modifies Repr
      ensures Valid() && fresh(Repr - old(Repr))
      ensures forall a: Assignment :: Bytes(a) == Store(old(Bytes(a)), offset, n, n, Eval(value, a), little)
    {
      hide *;
      EightBits();
      forall a: Assignment ensures Bytes(a) == Store(old(Bytes(a)), offset, n, 0, Eval(value, a), little) {
        StoreNone(old(Bytes(a)), offset, n, Eval(value, a), little);
      }
      for i := 0 to n
        invariant Valid() && fresh(Repr - old(Repr))
        invariant forall a: Assignment :: Bytes(a) == Store(old(Bytes(a)), offset, n, i, Eval(value, a), little)
      {
        Write8(offset + Lane(i, n, little), ExtractCreate(value, 8 * i, INT8));
        forall a: Assignment ensures Bytes(a) == Store(old(Bytes(a)), offset, n, i + 1, Eval(value, a), little) {
          StoreStep(old(Bytes(a)), offset, n, i, Eval(value, a), little);
          ExtractSound(value, 8 * i, INT8, a);
        }
      }
    }

    method WriteSymbolicBytes(offset: Term, value: Term, n: nat, little: bool)
      requires Valid() && Width(offset) == INT32 && Width(value) == 8 * n && LanesSymbolic(offset, n)
      modifies Repr
      ensures Valid() && fresh(Repr - old(Repr))
      ensures forall a: Assignment :: ToNat(Eval(offset, a)) + n <= size ==>
                Bytes(a) == Store(old(Bytes(a)), ToNat(Eval(offset, a)), n, n, Eval(value, a), little)
    {
      hide *;
      EightBits();
      forall a: Assignment | ToNat(Eval(offset, a)) + n <= size
        ensures Bytes(a) == Store(old(Bytes(a)), ToNat(Eval(offset, a)), n, 0, Eval(value, a), little)
      {
        StoreNone(old(Bytes(a)), ToNat(Eval(offset, a)), n, Eval(value, a), little);
      }
      for i := 0 to n
        invariant Valid() && fresh(Repr - old(Repr))
        invariant forall a: Assignment :: ToNat(Eval(offset, a)) + n <= size ==>
                    Bytes(a) == Store(old(Bytes(a)), ToNat(Eval(offset, a)), n, i, Eval(value, a), little)
      {
        WriteLane(offset, ExtractCreate(value, 8 * i, INT8), i, n, little);
        forall a: Assignment | ToNat(Eval(offset, a)) + n <= size
          ensures Bytes(a) == Store(old(Bytes(a)), ToNat(Eval(offset, a)), n, i + 1, Eval(value, a), little)
        {
          StoreStep(old(Bytes(a)), ToNat(Eval(offset, a)), n, i, Eval(value, a), little);
          ExtractSound(value, 8 * i, INT8, a);
        }
      }
    }

    method WriteLane(offset: Term, byte: Term, i: nat, n: nat, little: bool)
      requires Valid() && Width(offset) == INT32 && Width(byte) == INT8 && i < n && LanesSymbolic(offset, n)
      modifies Repr
      ensures Valid() && fresh(Repr - old(Repr))
      ensures forall a: Assignment :: ToNat(Eval(offset, a)) + n <= size ==>
                Bytes(a) == old(Bytes(a))[ToNat(Eval(offset, a)) + Lane(i, n, little) := Eval(byte, a)]
    {
      hide *;
      var k := Lane(i, n, little);
      LaneSymbolic(offset, k, n);
      SizeFits();
      WriteSymbolic8(AddCreate(offset, Cell(k)), byte);
      forall a: Assignment | ToNat(Eval(offset, a)) + n <= size
        ensures Bytes(a) == old(Bytes(a))[ToNat(Eval(offset, a)) + k := Eval(byte, a)]
      {
        LaneAddress(offset, k, a);
        StoredByte(old(Bytes(a)), ToNat(Eval(offset, a)) + k, Eval(byte, a));
      }
    }

    /** A write at a constant offset; constants of machine widths are written
        byte by byte without building expressions. */
    method WriteFixed(offset: nat, value: Term, little: bool)
      requires Valid() && Movable(Width(value)) && offset + Extent(Width(value)) <= size
      modifies Repr
      ensures Valid() && fresh(Repr - old(Repr))
      ensures forall a: Assignment :: Bytes(a) == StoreValue(old(Bytes(a)), offset, Eval(value, a), little)
    {
      hide *;
      EightBits();
      var w := Width(value);
      Extents(w);
      if value.Constant? {
        ConstantWidth(value);
        forall a: Assignment ensures Eval(value, a) == value.value {
          ConstantNode(value, a);
        }
      }
      if value.Constant? && w == BOOL {
        Write8Concrete(offset, ZeroExtend(value.value, INT8));
      } else if value.Constant? && (w == 8 || w == 16 || w == 32 || w == 64) {
        WriteConcreteBytes(offset, value.value, w / 8, little);
      } else if w == BOOL {
        Write8(offset, ZExtCreate(value, INT8));
        forall a: Assignment ensures Eval(ZExtCreate(value, INT8), a) == ZeroExtend(Eval(value, a), INT8) {
          ZExtSound(value, INT8, a);
        }
      } else {
        WriteBytes(offset, value, w / 8, little);
      }
      forall a: Assignment ensures Bytes(a) == StoreValue(old(Bytes(a)), offset, Eval(value, a), little) {
        StoreParts(old(Bytes(a)), offset, Eval(value, a), little);
      }
    }

    /** A write of any width at any offset. */
    method Write(offset: Term, value: Term, little: bool)
      requires Valid() && Movable(Width(value))
      requires var o := ZExtCreate(offset, INT32);
               if o.Constant? then ToNat(o.value) + Extent(Width(value)) <= size
               else Width(value) == BOOL || LanesSymbolic(o, Extent(Width(value)))
      modifies Repr
      ensures Valid() && fresh(Repr - old(Repr))
      ensures forall a: Assignment :: ToNat(Eval(ZExtCreate(offset, INT32), a)) + Extent(Width(value)) <= size ==>
                Bytes(a) == StoreValue(old(Bytes(a)), ToNat(Eval(ZExtCreate(offset, INT32), a)), Eval(value, a), little)
    {
      hide *;
      EightBits();
      var w := Width(value);
      Extents(w);
      var o := ZExtCreate(offset, INT32);
      if o.Constant? {
        forall a: Assignment ensures Eval(o, a) == o.value {
          ConstantNode(o, a);
        }
        WriteFixed(ToNat(o.value), value, little);
      } else if w == BOOL {
        WriteSymbolic8(o, ZExtCreate(value, INT8));
        forall a: Assignment | ToNat(Eval(o, a)) + 1 <= size
          ensures Bytes(a) == StoreValue(old(Bytes(a)), ToNat(Eval(o, a)), Eval(value, a), little)
        {
          ZExtSound(value, INT8, a);
          StoredByte(old(Bytes(a)), ToNat(Eval(o, a)), ZeroExtend(Eval(value, a), INT8));
          StoreParts(old(Bytes(a)), ToNat(Eval(o, a)), Eval(value, a), little);
        }
      } else {
        WriteSymbolicBytes(o, value, w / 8, little);
        forall a: Assignment | ToNat(Eval(o, a)) + w / 8 <= size
          ensures Bytes(a) == StoreValue(old(Bytes(a)), ToNat(Eval(o, a)), Eval(value, a), little)
        {
          StoreParts(old(Bytes(a)), ToNat(Eval(o, a)), Eval(value, a), little);
        }
      }
    }
  }
}
