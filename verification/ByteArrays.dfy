/** Multi-byte loads and stores on a plain byte array, in either byte order. */
module ByteArrays {
  import opened Bits
  import opened Exprs

  /** Where the `k`-th least significant of `n` bytes lies. */
  function Lane(k: nat, n: nat, little: bool): (i: nat)
    requires k < n
    ensures i < n
  {
    if little then k else n - 1 - k
  }

  /** The `k` least significant bytes of the `n` bytes at `off`. */
  function Load(s: seq<Byte>, off: nat, n: nat, k: nat, little: bool): (v: Bits)
    requires off + n <= |s| && k <= n
    ensures |v| == 8 * k
    decreases k
  {
    if k == 0 then [] else Load(s, off, n, k - 1, little) + s[off + Lane(k - 1, n, little)]
  }

  lemma LoadStep(s: seq<Byte>, off: nat, n: nat, k: nat, little: bool)
    requires off + n <= |s| && k < n
    ensures Load(s, off, n, k + 1, little) == Load(s, off, n, k, little) + s[off + Lane(k, n, little)]
    ensures Load(s, off, n, 0, little) == []
  {
  }

  /** The array after the `k` least significant bytes of `v` were stored. */
  function Store(s: seq<Byte>, off: nat, n: nat, k: nat, v: Bits, little: bool): (t: seq<Byte>)
    requires off + n <= |s| && k <= n && |v| == 8 * n
    ensures |t| == |s|
    decreases k
  {
    if k == 0 then s
    else Store(s, off, n, k - 1, v, little)[off + Lane(k - 1, n, little) := v[8 * (k - 1)..8 * k]]
  }

  lemma StoreStep(s: seq<Byte>, off: nat, n: nat, k: nat, v: Bits, little: bool)
    requires off + n <= |s| && k < n && |v| == 8 * n
    ensures Store(s, off, n, k + 1, v, little) ==
            Store(s, off, n, k, v, little)[off + Lane(k, n, little) := v[8 * k..8 * (k + 1)]]
  {
  }

  lemma StoreNone(s: seq<Byte>, off: nat, n: nat, v: Bits, little: bool)
    requires off + n <= |s| && |v| == 8 * n
    ensures Store(s, off, n, 0, v, little) == s
  {
  }

  /** A store changes the `n` bytes at `off` and no other. */
  lemma {:induction false} StoreFrame(s: seq<Byte>, off: nat, n: nat, k: nat, v: Bits, little: bool)
    requires off + n <= |s| && k <= n && |v| == 8 * n
    ensures forall i :: 0 <= i < |s| && !(off <= i < off + n) ==> Store(s, off, n, k, v, little)[i] == s[i]
    ensures forall j :: 0 <= j < k ==>
              Store(s, off, n, k, v, little)[off + Lane(j, n, little)] == v[8 * j..8 * (j + 1)]
    decreases k
  {
    hide Store, Lane;
    if k == 0 {
      StoreNone(s, off, n, v, little);
    } else {
      StoreFrame(s, off, n, k - 1, v, little);
      StoreStep(s, off, n, k - 1, v, little);
      forall j | 0 <= j < k - 1 ensures Lane(j, n, little) != Lane(k - 1, n, little) {
        LanesDiffer(j, k - 1, n, little);
      }
    }
  }

  lemma LanesDiffer(j: nat, k: nat, n: nat, little: bool)
    requires j < k < n
    ensures Lane(j, n, little) != Lane(k, n, little)
  {
  }

  /** A load after a store of the same width gives the value stored. */
  lemma {:induction false} LoadAfterStore(s: seq<Byte>, off: nat, n: nat, v: Bits, little: bool)
    requires off + n <= |s| && |v| == 8 * n
    ensures Load(Store(s, off, n, n, v, little), off, n, n, little) == v
  {
    StoreFrame(s, off, n, n, v, little);
    LoadLanes(Store(s, off, n, n, v, little), off, n, n, v, little);
    assert v[..8 * n] == v;
  }

  lemma {:induction false} LoadLanes(t: seq<Byte>, off: nat, n: nat, k: nat, v: Bits, little: bool)
    requires off + n <= |t| && k <= n && |v| == 8 * n
    requires forall j :: 0 <= j < k ==> t[off + Lane(j, n, little)] == v[8 * j..8 * (j + 1)]
    ensures Load(t, off, n, k, little) == v[..8 * k]
    decreases k
  {
    if k > 0 {
      LoadLanes(t, off, n, k - 1, v, little);
      assert v[..8 * k] == v[..8 * (k - 1)] + v[8 * (k - 1)..8 * k];
    }
  }

  // ----- where the bytes lie -----

  /** The `j`-th least significant byte of a load is the `j`-th in memory on a
      little-endian machine, and the `j`-th from the end on a big-endian one. */
  lemma {:induction false} LoadLane(s: seq<Byte>, off: nat, n: nat, k: nat, little: bool, j: nat)
    requires off + n <= |s| && j < k <= n
    ensures Load(s, off, n, k, little)[8 * j..8 * (j + 1)] == s[off + if little then j else n - 1 - j]
    decreases k
  {
    var rest := Load(s, off, n, k - 1, little);
    if j < k - 1 {
      LoadLane(s, off, n, k - 1, little, j);
      assert Load(s, off, n, k, little)[8 * j..8 * (j + 1)] == rest[8 * j..8 * (j + 1)];
    } else {
      assert |rest| == 8 * j;
    }
  }

  /** The same for the bytes of a store, read off by their place in memory. */
  lemma StoreLane(s: seq<Byte>, off: nat, n: nat, v: Bits, little: bool, i: nat)
    requires off + n <= |s| && |v| == 8 * n && i < n
    ensures var j := if little then i else n - 1 - i;
            Store(s, off, n, n, v, little)[off + i] == v[8 * j..8 * (j + 1)]
  {
    var t, j := Store(s, off, n, n, v, little), if little then i else n - 1 - i;
    LoadAfterStore(s, off, n, v, little);
    LoadLane(t, off, n, n, little, j);
  }

  // ----- values of every width the engine moves -----

  /** A Boolean or a whole number of bytes. */
  predicate Movable(width: nat) { width == BOOL || (width >= 8 && width % 8 == 0) }

  /** How many bytes a value takes. */
  function Extent(width: nat): (n: nat)
    requires Movable(width)
    ensures n >= 1
  {
    if width == BOOL then 1 else width / 8
  }

  function LoadValue(s: seq<Byte>, off: nat, width: nat, little: bool): (v: Bits)
    requires Movable(width) && off + Extent(width) <= |s|
    ensures |v| == width
  {
    if width == BOOL then s[off][0..1] else Load(s, off, width / 8, width / 8, little)
  }

  lemma EightBits()
    ensures BOOL == 1 && INT8 == 8 && INT32 == 32
  {
  }

  lemma Extents(width: nat)
    requires Movable(width)
    ensures Extent(width) == if width == 1 then 1 else width / 8
    ensures width != 1 ==> width % 8 == 0 && 8 * (width / 8) == width
  {
  }

  lemma LoadParts(s: seq<Byte>, off: nat, width: nat, little: bool)
    requires Movable(width) && off + Extent(width) <= |s|
    ensures width == 1 ==> LoadValue(s, off, width, little) == s[off][0..1]
    ensures width != 1 ==> LoadValue(s, off, width, little) == Load(s, off, width / 8, width / 8, little)
  {
  }

  function StoreValue(s: seq<Byte>, off: nat, v: Bits, little: bool): (t: seq<Byte>)
    requires Movable(|v|) && off + Extent(|v|) <= |s|
    ensures |t| == |s|
  {
    if |v| == BOOL then s[off := ZeroExtend(v, INT8)] else Store(s, off, |v| / 8, |v| / 8, v, little)
  }

  lemma StoreParts(s: seq<Byte>, off: nat, v: Bits, little: bool)
    requires Movable(|v|) && off + Extent(|v|) <= |s|
    ensures |v| == 1 ==> StoreValue(s, off, v, little) == s[off := ZeroExtend(v, 8)]
    ensures |v| != 1 ==> StoreValue(s, off, v, little) == Store(s, off, |v| / 8, |v| / 8, v, little)
  {
  }

  /** What is stored is what is loaded, and nothing outside is touched. */
  lemma {:induction false} StoredValue(s: seq<Byte>, off: nat, v: Bits, little: bool)
    requires Movable(|v|) && off + Extent(|v|) <= |s|
    ensures LoadValue(StoreValue(s, off, v, little), off, |v|, little) == v
    ensures forall i :: 0 <= i < |s| && !(off <= i < off + Extent(|v|)) ==> StoreValue(s, off, v, little)[i] == s[i]
  {
    if |v| == BOOL {
      assert ZeroExtend(v, INT8)[0..1] == v;
    } else {
      LoadAfterStore(s, off, |v| / 8, v, little);
      StoreFrame(s, off, |v| / 8, |v| / 8, v, little);
    }
  }

  /** Each byte of a value read is the byte of memory the byte order says; a
      Boolean is the lowest bit of its byte. */
  lemma ValueByte(s: seq<Byte>, off: nat, width: nat, little: bool, j: nat)
    requires Movable(width) && off + Extent(width) <= |s| && j < Extent(width)
    ensures width == 1 ==> LoadValue(s, off, width, little) == [s[off][0]]
    ensures width != 1 ==>
              LoadValue(s, off, width, little)[8 * j..8 * (j + 1)] == s[off + if little then j else width / 8 - 1 - j]
  {
    hide Load;
    if width != 1 {
      LoadLane(s, off, width / 8, width / 8, little, j);
    }
  }

  /** After a value is written each byte of memory in its range is the byte of the
      value the byte order says; a Boolean fills the rest of its byte with 0. */
  lemma WrittenByte(s: seq<Byte>, off: nat, v: Bits, little: bool, i: nat)
    requires Movable(|v|) && off + Extent(|v|) <= |s| && i < Extent(|v|)
    ensures |v| == 1 ==> StoreValue(s, off, v, little)[off] == v + [false, false, false, false, false, false, false]
    ensures |v| != 1 ==>
              var j := if little then i else |v| / 8 - 1 - i;
              StoreValue(s, off, v, little)[off + i] == v[8 * j..8 * (j + 1)]
  {
    hide Store;
    if |v| != 1 {
      StoreLane(s, off, |v| / 8, v, little, i);
    }
  }
}
