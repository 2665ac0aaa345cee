/** The cached contents of a memory object as a value: which bytes are concrete,
    which are known symbolic, which have been flushed to the update list, and the
    plain byte array they stand for under each assignment. */
module ObjectCells {
  import opened Bits
  import opened Exprs
  import opened Options
  import opened ArrayReads

  datatype Cells = Cells(
    store: seq<Byte>,             // concreteStore
    concrete: seq<bool>,          // concreteMask
    flushed: seq<bool>,           // flushMask, complemented
    known: seq<Option<Expr>>,     // knownSymbolics
    root: Option<Array>,          // updates.root, absent until first needed
    head: WriteList)              // updates.head

  function Offset(i: nat): (b: Bits)
    ensures |b| == INT32
  {
    FromInt(i, INT32)
  }

  function Cell(i: nat): (e: Term)
    ensures Width(e) == INT32
  {
    Constant(Offset(i))
  }

  /** `UpdateList::extend`. */
  function Extend(head: WriteList, index: Term, e: Term): (u: WriteList)
    requires Width(index) == INT32 && Width(e) == INT8
  {
    Update(index, e, head)
  }

  function ExtendAt(head: WriteList, i: nat, e: Term): (u: WriteList)
    requires Width(e) == INT8
  {
    Extend(head, Cell(i), e)
  }

  ghost predicate Shape(c: Cells) {
    && |c.store| == |c.concrete| == |c.flushed| == |c.known| < Pow2(INT32)
    && ConstantCellsFit(c.head, |c.store|)
    && forall i :: 0 <= i < |c.known| && c.known[i].Some? ==> WF(c.known[i].value) && Width(c.known[i].value) == INT8
  }

  /** What the update list holds; a missing root reads as zeros. */
  ghost function ListByte(c: Cells, i: nat, a: Assignment): Byte {
    ReadAt(if c.root.Some? then c.root.value else ZeroArray(|c.store|), c.head, Offset(i), a)
  }

  /** The byte at offset `i`, as `read8` finds it. */
  ghost function ByteAt(c: Cells, i: nat, a: Assignment): Byte
    requires Shape(c) && i < |c.store|
  {
    if c.concrete[i] then c.store[i]
    else if c.known[i].Some? then Eval(c.known[i].value, a)
    else ListByte(c, i, a)
  }

  /** The cache invariants of one byte. A byte that is both flushed and cached
      has the same value in both places. */
  ghost predicate ByteOK(c: Cells, i: nat)
    requires Shape(c) && i < |c.store|
  {
    && (c.known[i].Some? ==> !c.concrete[i])
    && (!c.flushed[i] ==> c.concrete[i] || c.known[i].Some?)
    && (c.flushed[i] ==> forall a: Assignment :: ListByte(c, i, a) == ByteAt(c, i, a))
  }

  ghost predicate Consistent(c: Cells) {
    Shape(c) && forall i :: 0 <= i < |c.store| ==> ByteOK(c, i)
  }

  /** The plain byte array the object stands for. */
  ghost function Contents(c: Cells, a: Assignment): (s: seq<Byte>)
    requires Shape(c)
    ensures |s| == |c.store| && forall i :: 0 <= i < |s| ==> s[i] == ByteAt(c, i, a)
  {
    seq(|c.store|, i requires 0 <= i < |c.store| => ByteAt(c, i, a))
  }

  ghost predicate SameBytes(c: Cells, d: Cells)
    requires Shape(c) && Shape(d)
  {
    |c.store| == |d.store| && forall i, a: Assignment :: 0 <= i < |c.store| ==> ByteAt(c, i, a) == ByteAt(d, i, a)
  }

  lemma OffsetInjective(i: nat, j: nat)
    requires i < Pow2(INT32) && j < Pow2(INT32)
    ensures Offset(i) == Offset(j) <==> i == j
    ensures ToNat(Offset(i)) == i
  {
    ToFromInt(i, INT32);
    ToFromInt(j, INT32);
  }

  // ----- flushing -----

  function ConstantByte(b: Byte): (e: Term)
    ensures Width(e) == INT8
  {
    Constant(b)
  }

  /** The cached value of a byte, as an expression. */
  function Cached(c: Cells, i: nat): (e: Term)
    requires Shape(c) && i < |c.store| && (c.concrete[i] || c.known[i].Some?)
    ensures Width(e) == INT8
  {
    if c.concrete[i] then ConstantByte(c.store[i]) else c.known[i].value
  }

  /** `flushRangeForRead` on one byte. */
  function FlushForRead(c: Cells, i: nat): (d: Cells)
    requires Consistent(c) && i < |c.store|
    ensures |d.store| == |c.store|
  {
    assert ByteOK(c, i);
    if c.flushed[i] then c
    else c.(head := ExtendAt(c.head, i, Cached(c, i)), flushed := c.flushed[i := true])
  }

  lemma FlushedList(c: Cells, i: nat)
    requires Consistent(c) && i < |c.store| && !c.flushed[i]
    ensures Shape(FlushForRead(c, i))
    ensures forall j, a: Assignment :: 0 <= j < |c.store| ==>
              ListByte(FlushForRead(c, i), j, a) == if j == i then ByteAt(c, i, a) else ListByte(c, j, a)
  {
    hide Eval, ReadAt, WF;
    assert ByteOK(c, i);
    OffsetInjective(i, i);
    var d := FlushForRead(c, i);
    forall j, a: Assignment | 0 <= j < |c.store|
      ensures ListByte(d, j, a) == if j == i then ByteAt(c, i, a) else ListByte(c, j, a)
    {
      ListByteExtended(c, i, Cached(c, i), j, a);
      CachedValue(c, i, a);
    }
  }

  lemma FlushForReadKeeps(c: Cells, i: nat)
    requires Consistent(c) && i < |c.store|
    ensures Consistent(FlushForRead(c, i)) && SameBytes(c, FlushForRead(c, i))
  {
    hide Eval, ReadAt, WF, ListByte, ExtendAt;
    if !c.flushed[i] {
      var d := FlushForRead(c, i);
      FlushedList(c, i);
      forall j | 0 <= j < |c.store| ensures ByteOK(d, j) {
        assert ByteOK(c, j);
        assert ByteOK(c, i);
      }
    }
  }

  lemma FlushForReadFlushes(c: Cells, i: nat)
    requires Consistent(c) && i < |c.store|
    ensures |FlushForRead(c, i).flushed| == |c.flushed|
    ensures forall j :: 0 <= j < |c.store| ==> FlushForRead(c, i).flushed[j] == (c.flushed[j] || j == i)
  {
  }

  /** `flushRangeForRead` on the first `n` bytes. */
  ghost function AllFlushedForRead(c: Cells, n: nat): (d: Cells)
    requires Consistent(c) && n <= |c.store|
    ensures Consistent(d) && |d.store| == |c.store|
  {
    if n == 0 then c
    else
      var m := AllFlushedForRead(c, n - 1);
      FlushForReadKeeps(m, n - 1);
      FlushForRead(m, n - 1)
  }

  /** Flushing caches nothing away and changes no byte. */
  lemma {:induction false} AllFlushedForReadKeeps(c: Cells, n: nat)
    requires Consistent(c) && n <= |c.store|
    ensures SameBytes(c, AllFlushedForRead(c, n))
    ensures forall j :: 0 <= j < n ==> AllFlushedForRead(c, n).flushed[j]
  {
    hide Eval, ReadAt, WF, ByteAt, ByteOK;
    if n > 0 {
      AllFlushedForReadKeeps(c, n - 1);
      FlushForReadKeeps(AllFlushedForRead(c, n - 1), n - 1);
      FlushForReadFlushes(AllFlushedForRead(c, n - 1), n - 1);
    }
  }

  lemma CachedValue(c: Cells, i: nat, a: Assignment)
    requires Shape(c) && i < |c.store| && (c.concrete[i] || c.known[i].Some?)
    ensures Eval(Cached(c, i), a) == ByteAt(c, i, a)
  {
  }

  /** A write to one constant cell is seen in that cell only. */
  lemma ListByteExtended(c: Cells, i: nat, e: Term, j: nat, a: Assignment)
    requires Shape(c) && i < |c.store| && j < |c.store| && Width(e) == INT8
    ensures ListByte(c.(head := ExtendAt(c.head, i, e)), j, a) ==
            if j == i then Eval(e, a) else ListByte(c, j, a)
  {
    hide Eval, ReadAt, WF, ExtendAt;
    OffsetInjective(i, j);
    ReadExtended(if c.root.Some? then c.root.value else ZeroArray(|c.store|), c.head, i, e, j, a);
  }

  lemma ReadExtended(root: Array, head: WriteList, i: nat, e: Term, j: nat, a: Assignment)
    requires Width(e) == INT8
    ensures ReadAt(root, ExtendAt(head, i, e), Offset(j), a) ==
            if Offset(i) == Offset(j) then Eval(e, a) else ReadAt(root, head, Offset(j), a)
  {
    var u := ExtendAt(head, i, e);
    assert Eval(u.index, a) == Offset(i);
  }

  /** `flushRangeForWrite` on one byte: flushed, and no longer cached. */
  function FlushForWrite(c: Cells, i: nat): (d: Cells)
    requires Consistent(c) && i < |c.store|
    ensures |d.store| == |c.store|
  {
    FlushForRead(c, i).(concrete := c.concrete[i := false], known := c.known[i := None])
  }

  lemma FlushForWriteKeeps(c: Cells, i: nat)
    requires Consistent(c) && i < |c.store|
    ensures Consistent(FlushForWrite(c, i)) && SameBytes(c, FlushForWrite(c, i))
  {
    hide Eval, ReadAt, WF;
    FlushForReadKeeps(c, i);
    var m, d := FlushForRead(c, i), FlushForWrite(c, i);
    assert ByteOK(m, i);
    forall j, a: Assignment | 0 <= j < |c.store| ensures ListByte(d, j, a) == ListByte(m, j, a) {
    }
    forall j | 0 <= j < |c.store| ensures ByteOK(d, j) {
      assert ByteOK(m, j);
    }
  }

  /** `flushRangeForWrite` on the first `n` bytes. */
  ghost function AllFlushedForWrite(c: Cells, n: nat): (d: Cells)
    requires Consistent(c) && n <= |c.store|
    ensures Consistent(d) && |d.store| == |c.store|
  {
    if n == 0 then c
    else
      var m := AllFlushedForWrite(c, n - 1);
      FlushForWriteKeeps(m, n - 1);
      FlushForWrite(m, n - 1)
  }

  lemma {:induction false} AllFlushedForWriteKeeps(c: Cells, n: nat)
    requires Consistent(c) && n <= |c.store|
    ensures SameBytes(c, AllFlushedForWrite(c, n))
    ensures forall j :: 0 <= j < n ==>
              var d := AllFlushedForWrite(c, n);
              d.flushed[j] && !d.concrete[j] && d.known[j].None?
  {
    hide Eval, ReadAt, WF, ByteAt, ByteOK;
    if n > 0 {
      AllFlushedForWriteKeeps(c, n - 1);
      FlushForWriteKeeps(AllFlushedForWrite(c, n - 1), n - 1);
      FlushForReadFlushes(AllFlushedForWrite(c, n - 1), n - 1);
    }
  }

  // ----- writes -----

  lemma SetContents(c: Cells, d: Cells, i: nat, a: Assignment, v: Byte)
    requires Shape(c) && Shape(d) && |d.store| == |c.store| && i < |c.store|
    requires forall j :: 0 <= j < |c.store| ==> ByteAt(d, j, a) == if j == i then v else ByteAt(c, j, a)
    ensures Contents(d, a) == Contents(c, a)[i := v]
  {
    hide Eval, ReadAt, WF;
  }

  /** `write8` of a concrete byte. */
  function WriteConcrete(c: Cells, i: nat, v: Byte): (d: Cells)
    requires Consistent(c) && i < |c.store|
    ensures |d.store| == |c.store|
  {
    c.(store := c.store[i := v], known := c.known[i := None],
       concrete := c.concrete[i := true], flushed := c.flushed[i := false])
  }

  lemma WriteConcreteSets(c: Cells, i: nat, v: Byte)
    requires Consistent(c) && i < |c.store|
    ensures Consistent(WriteConcrete(c, i, v))
    ensures forall a: Assignment :: Contents(WriteConcrete(c, i, v), a) == Contents(c, a)[i := v]
  {
    hide Eval, ReadAt, WF;
    var d := WriteConcrete(c, i, v);
    forall j | 0 <= j < |c.store| ensures ByteOK(d, j) {
      assert ByteOK(c, j);
      assert forall a: Assignment :: ListByte(d, j, a) == ListByte(c, j, a);
    }
    forall a: Assignment ensures Contents(d, a) == Contents(c, a)[i := v] {
      assert forall j :: 0 <= j < |c.store| ==> ListByte(d, j, a) == ListByte(c, j, a);
      SetContents(c, d, i, a, v);
    }
  }

  /** `write8` of a symbolic byte at a constant offset. */
  function WriteKnown(c: Cells, i: nat, e: Term): (d: Cells)
    requires Consistent(c) && i < |c.store| && Width(e) == INT8
    ensures |d.store| == |c.store|
  {
    c.(known := c.known[i := Some(e)], concrete := c.concrete[i := false], flushed := c.flushed[i := false])
  }

  lemma WriteKnownSets(c: Cells, i: nat, e: Term)
    requires Consistent(c) && i < |c.store| && Width(e) == INT8
    ensures Consistent(WriteKnown(c, i, e))
    ensures forall a: Assignment :: Contents(WriteKnown(c, i, e), a) == Contents(c, a)[i := Eval(e, a)]
  {
    hide Eval, ReadAt, WF;
    var d := WriteKnown(c, i, e);
    forall j | 0 <= j < |c.store| ensures ByteOK(d, j) {
      assert ByteOK(c, j);
      assert forall a: Assignment :: ListByte(d, j, a) == ListByte(c, j, a);
    }
    forall a: Assignment ensures Contents(d, a) == Contents(c, a)[i := Eval(e, a)] {
      assert forall j :: 0 <= j < |c.store| ==> ListByte(d, j, a) == ListByte(c, j, a);
      SetContents(c, d, i, a, Eval(e, a));
    }
  }

  /** A store into the plain array at a cell given by bits; a cell beyond the
      end changes nothing. */
  ghost function StoreByte(s: seq<Byte>, i: nat, v: Byte): (r: seq<Byte>)
    ensures |r| == |s|
  {
    if i < |s| then s[i := v] else s
  }

  /** `write8` at a symbolic offset, once every byte is flushed and uncached. */
  ghost predicate AllFlushed(c: Cells) {
    Shape(c) && forall i :: 0 <= i < |c.store| ==> c.flushed[i] && !c.concrete[i] && c.known[i].None?
  }

  function WriteSymbolic(c: Cells, offset: Term, value: Term): (d: Cells)
    requires Shape(c) && !offset.Constant? && Width(offset) == INT32 && Width(value) == INT8
    ensures |d.store| == |c.store|
  {
    c.(head := Extend(c.head, offset, value))
  }

  lemma WriteSymbolicSets(c: Cells, offset: Term, value: Term)
    requires AllFlushed(c) && !offset.Constant? && Width(offset) == INT32 && Width(value) == INT8
    ensures Consistent(WriteSymbolic(c, offset, value))
    ensures forall a: Assignment ::
              Contents(WriteSymbolic(c, offset, value), a) ==
              StoreByte(Contents(c, a), ToNat(Eval(offset, a)), Eval(value, a))
  {
    var d := WriteSymbolic(c, offset, value);
    hide Eval;
    forall j | 0 <= j < |c.store| ensures ByteOK(d, j) {
    }
    forall a: Assignment
      ensures Contents(d, a) == StoreByte(Contents(c, a), ToNat(Eval(offset, a)), Eval(value, a))
    {
      WriteSymbolicBytes(c, offset, value, a);
      if ToNat(Eval(offset, a)) < |c.store| {
        SetContents(c, d, ToNat(Eval(offset, a)), a, Eval(value, a));
      } else {
        assert Contents(d, a) == Contents(c, a);
      }
    }
  }

  lemma WriteSymbolicBytes(c: Cells, offset: Term, value: Term, a: Assignment)
    requires AllFlushed(c) && !offset.Constant? && Width(offset) == INT32 && Width(value) == INT8
    ensures forall j :: 0 <= j < |c.store| ==>
              ByteAt(WriteSymbolic(c, offset, value), j, a) ==
              if j == ToNat(Eval(offset, a)) then Eval(value, a) else ByteAt(c, j, a)
  {
    hide Eval;
    var o, d := Eval(offset, a), WriteSymbolic(c, offset, value);
    forall j | 0 <= j < |c.store|
      ensures ByteAt(d, j, a) == if j == ToNat(o) then Eval(value, a) else ByteAt(c, j, a)
    {
      FromToNat(o);
      OffsetInjective(j, j);
    }
  }

  // ----- getUpdates -----

  function WithRoot(c: Cells): (d: Cells)
    requires Shape(c)
    ensures |d.store| == |c.store| && d.root.Some?
  {
    if c.root.Some? then c
    else
      var (contents, rest) := Absorb(c.head, |c.store|);
      c.(root := Some(Array(CONST_ARRAY, |c.store|, contents)), head := rest)
  }

  lemma WithRootKeeps(c: Cells)
    requires Consistent(c)
    ensures Consistent(WithRoot(c)) && SameBytes(c, WithRoot(c))
    ensures forall i, a: Assignment :: 0 <= i < |c.store| ==> ListByte(WithRoot(c), i, a) == ListByte(c, i, a)
  {
    hide Eval, ReadAt, WF;
    var d := WithRoot(c);
    forall i, a: Assignment | 0 <= i < |c.store| ensures ListByte(d, i, a) == ListByte(c, i, a) {
      if c.root.None? {
        OffsetInjective(i, i);
        AbsorbSound(c.head, |c.store|, Offset(i), a);
      }
    }
    forall i | 0 <= i < |c.store| ensures ByteOK(d, i) {
      assert ByteOK(c, i);
    }
  }

  lemma SameContents(c: Cells, d: Cells)
    requires Shape(c) && Shape(d) && SameBytes(c, d)
    ensures forall a: Assignment :: Contents(c, a) == Contents(d, a)
  {
    hide Eval, ReadAt, WF;
    forall a: Assignment ensures Contents(c, a) == Contents(d, a) {
      assert forall i :: 0 <= i < |c.store| ==> ByteAt(c, i, a) == ByteAt(d, i, a);
    }
  }

  // ----- initial contents -----

  /** An object whose bytes are all concrete, none flushed. */
  lemma PlainContents(c: Cells)
    requires Shape(c) && forall i :: 0 <= i < |c.store| ==> c.concrete[i] && !c.flushed[i] && c.known[i].None?
    ensures Consistent(c) && forall a: Assignment :: Contents(c, a) == c.store
  {
    hide Eval, ReadAt, WF;
    forall a: Assignment ensures Contents(c, a) == c.store {
      assert forall i :: 0 <= i < |c.store| ==> ByteAt(c, i, a) == c.store[i];
    }
  }

  /** An object whose bytes all stand in its array. */
  lemma ArrayContents(c: Cells)
    requires AllFlushed(c)
    ensures Consistent(c) && forall i, a: Assignment :: 0 <= i < |c.store| ==> Contents(c, a)[i] == ListByte(c, i, a)
  {
    hide Eval, ReadAt, WF;
  }

  // ----- reads -----

  /** A byte that is not cached is read from the update list. */
  lemma ReadFlushed(c: Cells, i: nat, a: Assignment)
    requires Consistent(c) && i < |c.store| && !c.concrete[i] && c.known[i].None?
    ensures c.flushed[i]
    ensures Contents(WithRoot(c), a)[i] == Contents(c, a)[i]
    ensures Eval(ReadCreate(WithRoot(c).root.value, WithRoot(c).head, Cell(i)), a) == Contents(c, a)[i]
  {
    hide Eval, ReadAt, WF, ReadCreate;
    assert ByteOK(c, i);
    WithRootKeeps(c);
    CellNode(i, a);
    ReadSound(WithRoot(c).root.value, WithRoot(c).head, Cell(i), a);
  }

  lemma CellNode(i: nat, a: Assignment)
    ensures Eval(Cell(i), a) == Offset(i)
  {
  }

  /** Once every byte is flushed, the update list is the whole object. */
  lemma ReadSymbolic(c: Cells, offset: Term, a: Assignment)
    requires Consistent(c) && (forall i :: 0 <= i < |c.store| ==> c.flushed[i]) && Width(offset) == INT32
    requires ToNat(Eval(offset, a)) < |c.store|
    ensures Eval(ReadCreate(WithRoot(c).root.value, WithRoot(c).head, offset), a) ==
            Contents(c, a)[ToNat(Eval(offset, a))]
  {
    hide Eval, ReadAt, WF, ReadCreate;
    var i := ToNat(Eval(offset, a));
    assert ByteOK(c, i);
    WithRootKeeps(c);
    FromToNat(Eval(offset, a));
    ReadSound(WithRoot(c).root.value, WithRoot(c).head, offset, a);
  }
}
