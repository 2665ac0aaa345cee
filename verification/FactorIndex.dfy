/** The inverted index from input cells to factors (`IndepElementSetIndexer`) as a
    value, and the proof that looking a footprint up in it is the same as comparing
    the footprint with every factor in turn. */
module FactorIndex {
  import opened Exprs
  import opened Footprints
  import opened Options

  datatype Index<F> = Index(whole: map<Array, F>, elements: map<Array, map<nat, F>>)

  /** A factor mentions an array. */
  predicate Mentions(f: Footprint, arr: Array) { arr in f.whole || arr in f.elements }

  /** Cell `(arr, i)` of the index. */
  function At<F>(ix: Index<F>, arr: Array, i: nat): Option<F> {
    if arr in ix.whole then Some(ix.whole[arr])
    else if arr in ix.elements && i in ix.elements[arr] then Some(ix.elements[arr][i])
    else None
  }

  function Row<F>(ix: Index<F>, arr: Array): map<nat, F> {
    if arr in ix.elements then ix.elements[arr] else map[]
  }

  // ----- what the operations do to every cell -----

  /** `redirect`: the cells of some whole arrays and of some elements point at
      `dst`; an array indexed as a whole stays so. */
  ghost predicate Redirected<F>(ix: Index<F>, now: Index<F>, whole: set<Array>, els: map<Array, set<nat>>, dst: F) {
    && now.whole.Keys == ix.whole.Keys + whole
    && now.elements.Keys == (ix.elements.Keys + els.Keys) - (ix.whole.Keys + whole)
    && forall arr, i :: At(now, arr, i) == RedirectedAt(ix, whole, els, dst, arr, i)
  }

  function RedirectedAt<F>(ix: Index<F>, whole: set<Array>, els: map<Array, set<nat>>, dst: F, arr: Array, i: nat): Option<F> {
    if arr in whole || (arr in els && (arr in ix.whole || i in els[arr])) then Some(dst) else At(ix, arr, i)
  }

  /** What `erase` asserts. */
  predicate Erasable<F>(ix: Index<F>, f: Footprint) {
    f.whole !! ix.elements.Keys && f.elements.Keys !! ix.whole.Keys
  }

  /** `erase`: the cells of a footprint point nowhere. */
  ghost predicate Erased<F>(ix: Index<F>, now: Index<F>, whole: set<Array>, els: map<Array, set<nat>>) {
    && now.whole.Keys == ix.whole.Keys - whole
    && now.elements.Keys == ix.elements.Keys
    && forall arr, i :: At(now, arr, i) == if arr in whole || (arr in els && i in els[arr]) then None else At(ix, arr, i)
  }

  /** `getIntersection`: the factors found at the cells of `s`. */
  ghost predicate Found<F>(ix: Index<F>, s: Footprint, p: F) {
    exists arr, i :: s.Covers(arr, i) && At(ix, arr, i) == Some(p)
  }

  // ----- invariants -----

  ghost predicate AllNormal<F>(fps: map<F, Footprint>) {
    forall f :: f in fps ==> fps[f].Normal()
  }

  /** The factor a cell points at mentions the array, and covers the cell if the
      array is indexed by element. */
  ghost predicate Backed<F>(ix: Index<F>, fps: map<F, Footprint>, arr: Array, i: nat) {
    At(ix, arr, i).Some? ==>
      var p := At(ix, arr, i).value;
      p in fps && if arr in ix.whole then Mentions(fps[p], arr) else fps[p].Covers(arr, i)
  }

  /** Entries are live, and no array is indexed both ways. */
  ghost predicate Live<F>(ix: Index<F>, fps: map<F, Footprint>) {
    && ix.whole.Keys !! ix.elements.Keys
    && (forall arr, i :: Backed(ix, fps, arr, i))
  }

  ghost predicate Disjoint<F>(fps: map<F, Footprint>) {
    forall f, g :: f in fps && g in fps && f != g ==> !Overlap(fps[f], fps[g])
  }

  /** Entries are complete as well: every cell of every factor points at it, and
      is indexed the way the factor records it. */
  ghost predicate Complete<F>(ix: Index<F>, fps: map<F, Footprint>) {
    && (forall f, arr, i :: f in fps && fps[f].Covers(arr, i) ==> At(ix, arr, i) == Some(f))
    && (forall f, arr :: f in fps && arr in fps[f].whole ==> arr in ix.whole)
    && (forall f, arr :: f in fps && arr in fps[f].elements ==> arr in ix.elements)
  }

  ghost predicate Exact<F>(ix: Index<F>, fps: map<F, Footprint>) {
    AllNormal(fps) && Live(ix, fps) && Disjoint(fps) && Complete(ix, fps)
  }

  // ----- looking up -----

  /** In an exact index a cell points at the one factor that covers it. */
  lemma AtExact<F>(ix: Index<F>, fps: map<F, Footprint>, arr: Array, i: nat, p: F)
    requires Exact(ix, fps)
    ensures At(ix, arr, i) == Some(p) <==> p in fps && fps[p].Covers(arr, i)
  {
    assert Backed(ix, fps, arr, i);
  }

  /** The index answers as a scan over all factors would. */
  lemma FoundExact<F>(ix: Index<F>, fps: map<F, Footprint>, s: Footprint, p: F)
    requires Exact(ix, fps)
    ensures Found(ix, s, p) <==> p in fps && Overlap(fps[p], s)
  {
    if Found(ix, s, p) {
      var arr, i :| s.Covers(arr, i) && At(ix, arr, i) == Some(p);
      AtExact(ix, fps, arr, i, p);
    }
    if p in fps && Overlap(fps[p], s) {
      var arr, i :| fps[p].Covers(arr, i) && s.Covers(arr, i);
      AtExact(ix, fps, arr, i, p);
    }
  }

  /** The scan over all factors the engine can compare the answer with uses
      `intersects`: it agrees exactly if no factor is one `intersects` is blind to.
      So the comparison fails on a correct index, not on a wrong one. */
  lemma ScanExact<F>(ix: Index<F>, fps: map<F, Footprint>, s: Footprint)
    requires Exact(ix, fps) && s.Normal()
    ensures (forall p :: Found(ix, s, p) <==> p in fps && Intersects(s, fps[p])) <==>
            forall p :: p in fps ==> !Blind(s, fps[p])
  {
    hide Found, Intersects, Blind, Overlap, Live, Disjoint, Complete;
    forall p ensures Found(ix, s, p) <==> p in fps && Overlap(s, fps[p]) {
      FoundExact(ix, fps, s, p);
      if p in fps {
        OverlapSymmetric(fps[p], s);
      }
    }
    forall p | p in fps
      ensures Intersects(s, fps[p]) <==> Overlap(s, fps[p]) && !Blind(s, fps[p])
      ensures Blind(s, fps[p]) ==> Overlap(s, fps[p])
    {
      IntersectsExact(s, fps[p]);
    }
  }

  /** Such a factor: the index finds either constraint of the missed pair from the
      other, and the scan does not. */
  lemma MissedScan<F>(ix: Index<F>, fps: map<F, Footprint>, p: F)
    requires Exact(ix, fps) && p in fps
    ensures var (f, g) := (FootprintOf(OneElement()), FootprintOf(WholeArray()));
            && (fps[p] == g ==> Found(ix, f, p) && !Intersects(f, fps[p]))
            && (fps[p] == f ==> Found(ix, g, p) && !Intersects(g, fps[p]))
  {
    hide FootprintOf, Found, Intersects, Overlap, Live, Disjoint, Complete;
    var f, g := FootprintOf(OneElement()), FootprintOf(WholeArray());
    MissedPair();
    OverlapSymmetric(f, g);
    FoundExact(ix, fps, f, p);
    FoundExact(ix, fps, g, p);
  }

  // ----- pointing cells at a factor -----

  ghost predicate Contains(big: Footprint, small: Footprint) {
    && (forall arr :: Mentions(small, arr) ==> Mentions(big, arr))
    && (forall arr, i :: small.Covers(arr, i) ==> big.Covers(arr, i))
  }

  lemma JoinContains(f: Footprint, g: Footprint)
    requires f.Normal() && g.Normal()
    ensures Contains(f.Join(g), f) && Contains(f.Join(g), g)
  {
  }

  lemma RedirectLive<F>(ix: Index<F>, now: Index<F>, fps: map<F, Footprint>, src: Footprint, dst: F, big: Footprint)
    requires Live(ix, fps) && src.Normal() && Contains(big, src) && (dst in fps ==> Contains(big, fps[dst]))
    requires Redirected(ix, now, src.whole, src.elements, dst)
    ensures Live(now, fps[dst := big])
  {
    hide At;
    var grown := fps[dst := big];
    forall arr, i ensures Backed(now, grown, arr, i) {
      assert Backed(ix, fps, arr, i);
      assert At(now, arr, i) == RedirectedAt(ix, src.whole, src.elements, dst, arr, i);
    }
  }

  /** Inserting a factor, or growing the one factor that overlaps, keeps the
      index exact. */
  lemma RedirectExact<F>(ix: Index<F>, now: Index<F>, fps: map<F, Footprint>, src: Footprint, dst: F)
    requires Exact(ix, fps) && src.Normal()
    requires forall f :: f in fps && f != dst ==> !Overlap(fps[f], src)
    requires Redirected(ix, now, src.whole, src.elements, dst)
    ensures Exact(now, fps[dst := if dst in fps then fps[dst].Join(src) else src])
  {
    hide At, Redirected, Complete, Overlap, Contains, Live;
    var big := if dst in fps then fps[dst].Join(src) else src;
    ContainsSelf(src);
    if dst in fps {
      JoinContains(fps[dst], src);
    }
    RedirectLive(ix, now, fps, src, dst, big);
    JoinDisjoint(fps, src, dst);
    RedirectComplete(ix, now, fps, src, dst);
  }

  lemma ContainsSelf(f: Footprint)
    ensures Contains(f, f)
  {
  }

  lemma RedirectComplete<F>(ix: Index<F>, now: Index<F>, fps: map<F, Footprint>, src: Footprint, dst: F)
    requires Exact(ix, fps) && src.Normal()
    requires forall f :: f in fps && f != dst ==> !Overlap(fps[f], src)
    requires Redirected(ix, now, src.whole, src.elements, dst)
    ensures Complete(now, fps[dst := if dst in fps then fps[dst].Join(src) else src])
  {
    hide At, Live, Disjoint, Overlap;
    var big := if dst in fps then fps[dst].Join(src) else src;
    var grown := fps[dst := big];
    LiveKeys(ix, fps);
    forall f, arr | f in fps && f != dst && Mentions(fps[f], arr) && Mentions(src, arr)
      ensures arr in fps[f].elements && arr in src.elements
    {
      NoOverlapTouching(fps[f], src, arr);
    }
    forall arr | arr in src.elements && arr in ix.whole ensures dst in fps && arr in fps[dst].whole {
      WholeOwner(ix, fps, arr);
    }
    forall f, arr, i | f in grown && grown[f].Covers(arr, i) ensures At(now, arr, i) == Some(f) {
      assert At(now, arr, i) == RedirectedAt(ix, src.whole, src.elements, dst, arr, i);
      if f != dst {
        NotBoth(fps[f], src, arr, i);
      }
    }
  }

  lemma LiveKeys<F>(ix: Index<F>, fps: map<F, Footprint>)
    requires Live(ix, fps)
    ensures ix.whole.Keys !! ix.elements.Keys
  {
  }

  lemma NotBoth(f: Footprint, g: Footprint, arr: Array, i: nat)
    requires !Overlap(f, g)
    ensures !(f.Covers(arr, i) && g.Covers(arr, i))
  {
  }

  lemma NoOverlapTouching(f: Footprint, g: Footprint, arr: Array)
    requires f.Normal() && g.Normal() && !Overlap(f, g) && Mentions(f, arr) && Mentions(g, arr)
    ensures arr in f.elements && arr in g.elements
  {
    OverlapParts(f, g);
    OverlapParts(g, f);
    OverlapSymmetric(f, g);
  }

  /** An array indexed as a whole belongs, as a whole, to the factor it points at. */
  lemma WholeOwner<F>(ix: Index<F>, fps: map<F, Footprint>, arr: Array)
    requires Exact(ix, fps) && arr in ix.whole
    ensures ix.whole[arr] in fps && arr in fps[ix.whole[arr]].whole
  {
    assert Backed(ix, fps, arr, 0);
  }

  lemma JoinDisjoint<F>(fps: map<F, Footprint>, src: Footprint, dst: F)
    requires AllNormal(fps) && Disjoint(fps) && src.Normal()
    requires forall f :: f in fps && f != dst ==> !Overlap(fps[f], src)
    ensures var now := fps[dst := if dst in fps then fps[dst].Join(src) else src];
            AllNormal(now) && Disjoint(now)
  {
    var now := fps[dst := if dst in fps then fps[dst].Join(src) else src];
    forall f, g | f in now && g in now && f != g ensures !Overlap(now[f], now[g]) {
      if Overlap(now[f], now[g]) {
        var arr, i :| now[f].Covers(arr, i) && now[g].Covers(arr, i);
      }
    }
  }

  // ----- erasing a factor -----

  /** Entries stay live: none is left that points at the erased factor. */
  lemma EraseLive<F>(ix: Index<F>, now: Index<F>, fps: map<F, Footprint>, f: F)
    requires Live(ix, fps) && AllNormal(fps) && f in fps && Erasable(ix, fps[f])
    requires Erased(ix, now, fps[f].whole, fps[f].elements)
    ensures Live(now, fps - {f})
  {
    hide At;
    forall arr, i ensures Backed(now, fps - {f}, arr, i) {
      assert Backed(ix, fps, arr, i);
      if arr in ix.whole {
        WholeEntry(ix, arr, i);
      }
    }
  }

  lemma WholeEntry<F>(ix: Index<F>, arr: Array, i: nat)
    requires arr in ix.whole
    ensures At(ix, arr, i) == Some(ix.whole[arr])
  {
  }

  lemma ExactErasable<F>(ix: Index<F>, fps: map<F, Footprint>, f: F)
    requires Exact(ix, fps) && f in fps
    ensures Erasable(ix, fps[f])
  {
  }

  /** Erasing a factor of an exact index leaves an exact index. */
  lemma EraseExact<F>(ix: Index<F>, now: Index<F>, fps: map<F, Footprint>, f: F)
    requires Exact(ix, fps) && f in fps && Erased(ix, now, fps[f].whole, fps[f].elements)
    ensures Exact(now, fps - {f})
  {
    hide At, Overlap;
    ExactErasable(ix, fps, f);
    EraseLive(ix, now, fps, f);
    var left := fps - {f};
    forall g, arr, i | g in left && left[g].Covers(arr, i) ensures At(now, arr, i) == Some(g) {
      NotBoth(fps[f], fps[g], arr, i);
    }
    forall g, arr | g in left && arr in left[g].whole ensures arr !in fps[f].whole {
      NotBoth(fps[f], fps[g], arr, 0);
    }
  }

  // ----- erasing once factors overlap -----

  /** The indices while footprints are inserted one after the other. */
  ghost predicate Inserted<F>(ixs: seq<Index<F>>, fs: seq<Footprint>, ps: seq<F>) {
    && |ixs| == |fs| + 1 && |ps| == |fs|
    && forall k :: 0 <= k < |fs| ==> Redirected(ixs[k], ixs[k + 1], fs[k].whole, fs[k].elements, ps[k])
  }

  lemma InsertedLength<F>(ixs: seq<Index<F>>, fs: seq<Footprint>, ps: seq<F>)
    requires Inserted(ixs, fs, ps)
    ensures |ixs| == |fs| + 1
  {
  }

  ghost function Wholes(fs: seq<Footprint>): set<Array> {
    set k, arr | 0 <= k < |fs| && arr in fs[k].whole :: arr
  }

  ghost function ByElement(fs: seq<Footprint>): set<Array> {
    set k, arr | 0 <= k < |fs| && arr in fs[k].elements :: arr
  }

  /** Whichever way and order arrays are inserted, the whole of one wins. */
  lemma {:induction false} InsertedKeys<F>(ixs: seq<Index<F>>, fs: seq<Footprint>, ps: seq<F>)
    requires Inserted(ixs, fs, ps) && fs != []
    ensures ixs[|fs|].whole.Keys == ixs[0].whole.Keys + Wholes(fs)
    ensures ixs[|fs|].elements.Keys == (ixs[0].elements.Keys + ByElement(fs)) - ixs[|fs|].whole.Keys
  {
    hide At, RedirectedAt;
    var n := |fs| - 1;
    assert Redirected(ixs[n], ixs[n + 1], fs[n].whole, fs[n].elements, ps[n]);
    assert Wholes(fs) == Wholes(fs[..n]) + fs[n].whole;
    assert ByElement(fs) == ByElement(fs[..n]) + fs[n].elements.Keys;
    if n > 0 {
      InsertedKeys(ixs[..n + 1], fs[..n], ps[..n]);
    }
  }

  /** After any insertions, overlapping or not, `erase` passes its assertions on one
      of the footprints exactly if no array it records by element is recorded as a
      whole by another of them, or was so before. */
  lemma ErasableInserted<F>(ixs: seq<Index<F>>, fs: seq<Footprint>, ps: seq<F>, k: nat)
    requires Inserted(ixs, fs, ps) && k < |fs|
    ensures Erasable(ixs[|fs|], fs[k]) <==> fs[k].elements.Keys !! ixs[0].whole.Keys + Wholes(fs)
  {
    hide Redirected;
    InsertedKeys(ixs, fs, ps);
    assert fs[k].whole <= Wholes(fs);
  }

  /** From an index with no array of theirs as a whole, such as an empty one, every
      footprint can be erased exactly if no array is recorded as a whole by one and
      by element by another. */
  lemma AllErasable<F>(ixs: seq<Index<F>>, fs: seq<Footprint>, ps: seq<F>)
    requires Inserted(ixs, fs, ps) && ixs[0].whole.Keys !! ByElement(fs)
    ensures (forall k :: 0 <= k < |fs| ==> Erasable(ixs[|fs|], fs[k])) <==>
            forall j, k :: 0 <= j < |fs| && 0 <= k < |fs| ==> fs[j].whole !! fs[k].elements.Keys
  {
    hide Redirected, Erasable;
    forall k | 0 <= k < |fs|
      ensures Erasable(ixs[|fs|], fs[k]) <==> forall j :: 0 <= j < |fs| ==> fs[j].whole !! fs[k].elements.Keys
    {
      ErasableInserted(ixs, fs, ps, k);
      assert forall j :: 0 <= j < |fs| ==> fs[j].whole <= Wholes(fs);
      assert fs[k].elements.Keys <= ByElement(fs);
    }
  }

  /** Two factors in either order, from any index: if one has an array as a whole
      and the other by element, the other cannot be erased first, but it can once
      the one is gone, unless it meets whole arrays from before. Whether the engine
      survives erasing both thus depends on the order. */
  lemma EraseOrder<F>(ix: Index<F>, mid: Index<F>, now: Index<F>, after: Index<F>, f: Footprint, g: Footprint,
                      p: F, q: F, arr: Array)
    requires ix.whole.Keys !! ix.elements.Keys && f.Normal() && g.Normal() && arr in f.whole && arr in g.elements
    requires || (Redirected(ix, mid, f.whole, f.elements, p) && Redirected(mid, now, g.whole, g.elements, q))
             || (Redirected(ix, mid, g.whole, g.elements, q) && Redirected(mid, now, f.whole, f.elements, p))
    requires Erasable(now, f) ==> Erased(now, after, f.whole, f.elements)
    ensures !Erasable(now, g)
    ensures Erasable(now, f) <==> f.elements.Keys !! ix.whole.Keys + g.whole
    ensures Erasable(now, f) ==> (Erasable(after, g) <==> g.elements.Keys !! ix.whole.Keys - f.whole)
  {
    hide At, RedirectedAt;
  }
}
