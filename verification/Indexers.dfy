/** `IndependentElementSet` and `IndepElementSetIndexer` as objects that are
    updated in place; each method is proved against the functions of `Footprints`
    and `FactorIndex`. */
module Indexers {
  import opened Exprs
  import opened Footprints
  import opened FactorIndex
  import opened Options

  lemma DropOne<K, V>(m: map<K, V>, s: set<K>, k: K)
    ensures (m - s) - {k} == m - (s + {k})
    ensures k !in m - s ==> m - (s + {k}) == m - s
  {
  }

  /** The whole arrays of `b`, absorbing elements. */
  method AddWhole(f: Footprint, b: Footprint)
    returns (whole: set<Array>, elements: map<Array, set<nat>>, modified: bool)
    ensures whole == f.whole + b.whole && elements == f.elements - b.whole
    ensures modified <==> whole != f.whole || elements != f.elements
  {
    whole, elements, modified := f.whole, f.elements, false;
    var todo := b.whole;
    ghost var done: set<Array> := {};
    while todo != {}
      invariant todo <= b.whole && done == b.whole - todo
      invariant whole == f.whole + done && elements == f.elements - done
      invariant modified <==> whole != f.whole || elements != f.elements
      decreases |todo|
    {
      var arr :| arr in todo;
      todo := todo - {arr};
      var changed;
      whole, elements, changed := AddOneWhole(f, done, arr, whole, elements);
      modified := modified || changed;
      done := done + {arr};
    }
  }

  method AddOneWhole(f: Footprint, ghost done: set<Array>, arr: Array, whole: set<Array>, elements: map<Array, set<nat>>)
    returns (whole': set<Array>, elements': map<Array, set<nat>>, changed: bool)
    requires whole == f.whole + done && elements == f.elements - done
    ensures whole' == f.whole + (done + {arr}) && elements' == f.elements - (done + {arr})
    ensures changed || whole != f.whole || elements != f.elements <==> whole' != f.whole || elements' != f.elements
  {
    DropOne(f.elements, done, arr);
    changed := arr in elements || arr !in whole;
    elements' := if arr in elements then elements - {arr} else elements;
    whole' := whole + {arr};
    assert arr in elements ==> arr in f.elements && arr !in elements';
    assert arr !in whole ==> arr !in f.whole && arr in whole';
    assert f.whole <= whole <= whole' && forall k :: k in elements' ==> k in elements;
  }

  /** `els` with the elements of some arrays of `more` added. */
  ghost function Merged(els: map<Array, set<nat>>, more: map<Array, set<nat>>, arrays: set<Array>): map<Array, set<nat>>
    requires arrays <= more.Keys
  {
    map arr | arr in els.Keys + arrays ::
      if arr !in els then more[arr] else if arr in arrays then els[arr] + more[arr] else els[arr]
  }

  lemma MergeOne(els: map<Array, set<nat>>, more: map<Array, set<nat>>, arrays: set<Array>, arr: Array)
    requires arrays <= more.Keys && arr in more && arr !in arrays
    ensures Merged(els, more, arrays + {arr}) ==
            Merged(els, more, arrays)[arr := if arr in els then els[arr] + more[arr] else more[arr]]
    ensures arr in Merged(els, more, arrays) <==> arr in els
    ensures arr in els ==> Merged(els, more, arrays)[arr] == els[arr]
  {
  }

  /** Merging one more array changes something, or something has changed before. */
  lemma MergeChanges(els: map<Array, set<nat>>, more: map<Array, set<nat>>, arrays: set<Array>, arr: Array)
    requires arrays <= more.Keys && arr in more && arr !in arrays
    ensures Merged(els, more, arrays + {arr}) != els <==>
            Merged(els, more, arrays) != els || arr !in els || !(more[arr] <= els[arr])
  {
    var before, after := Merged(els, more, arrays), Merged(els, more, arrays + {arr});
    MergeOne(els, more, arrays, arr);
    if before != els {
      if k :| k in before && (k !in els || before[k] != els[k]) {
        assert k != arr && k in after && (k !in els || after[k] != els[k]);
      }
    } else if arr in els && !(more[arr] <= els[arr]) {
      assert after[arr] != els[arr];
    } else if arr in els {
      assert els[arr] + more[arr] == els[arr] && after == els;
    } else {
      assert arr in after;
    }
  }

  lemma MergeNone(els: map<Array, set<nat>>, more: map<Array, set<nat>>)
    ensures Merged(els, more, {}) == els
  {
  }

  method AddElements(els: map<Array, set<nat>>, more: map<Array, set<nat>>, whole: set<Array>)
    returns (elements: map<Array, set<nat>>, modified: bool)
    ensures elements == Merged(els, more, more.Keys - whole)
    ensures modified <==> elements != els
  {
    hide Merged;
    elements, modified := els, false;
    var todo := more.Keys;
    ghost var done: set<Array> := {};
    MergeNone(els, more);
    while todo != {}
      invariant todo <= more.Keys && done == more.Keys - todo - whole
      invariant elements == Merged(els, more, done)
      invariant modified <==> elements != els
      decreases |todo|
    {
      var arr :| arr in todo;
      todo := todo - {arr};
      if arr !in whole {
        MergeOne(els, more, done, arr);
        MergeChanges(els, more, done, arr);
        modified := modified || arr !in elements || !(more[arr] <= elements[arr]);
        if arr !in elements {
          elements := elements[arr := more[arr]];
        } else {
          elements := elements[arr := elements[arr] + more[arr]];
        }
        done := done + {arr};
      }
    }
    assert done == more.Keys - whole;
  }

  /** A mutable `IndependentElementSet`. */
  class Factor {
    var fp: Footprint

    constructor (fp: Footprint)
      ensures this.fp == fp
    {
      this.fp := fp;
    }

    /** `IndependentElementSet::add`, which tells whether the cells have changed. */
    method Add(b: Footprint) returns (modified: bool)
      requires fp.Normal() && b.Normal()
      modifies this
      ensures fp == old(fp).Join(b)
      ensures modified <==> fp.whole != old(fp.whole) || fp.elements != old(fp.elements)
    {
      var whole, elements, changed := AddWhole(fp, b);
      elements, modified := AddElements(elements, b.elements, whole);
      modified := modified || changed;
      fp := Footprint(fp.exprs + b.exprs, whole, elements);
    }
  }

  // ----- steps of the index loops -----

  function Restrict(els: map<Array, set<nat>>, arrays: set<Array>): map<Array, set<nat>> {
    map arr | arr in els && arr in arrays :: els[arr]
  }

  /** `redirect` at one whole array. */
  function PointWhole<F>(ix: Index<F>, arr: Array, dst: F): Index<F> {
    Index(ix.whole[arr := dst], ix.elements - {arr})
  }

  /** One array of `redirect`'s first loop. */
  lemma RedirectWholeStep<F>(ix: Index<F>, now: Index<F>, whole: set<Array>, arr: Array, dst: F)
    requires Redirected(ix, now, whole, map[], dst)
    ensures Redirected(ix, PointWhole(now, arr, dst), whole + {arr}, map[], dst)
  {
    var next := PointWhole(now, arr, dst);
    forall b, i ensures At(next, b, i) == RedirectedAt(ix, whole + {arr}, map[], dst, b, i) {
      assert At(now, b, i) == RedirectedAt(ix, whole, map[], dst, b, i);
    }
  }

  /** `redirect` at one array of elements. */
  function PointRow<F>(ix: Index<F>, arr: Array, indices: set<nat>, dst: F): Index<F> {
    if arr in ix.whole then Index(ix.whole[arr := dst], ix.elements)
    else Index(ix.whole, ix.elements[arr := Row(ix, arr) + (map i | i in indices :: dst)])
  }

  lemma PointRowAt<F>(ix: Index<F>, arr: Array, indices: set<nat>, dst: F)
    ensures var next := PointRow(ix, arr, indices, dst);
            && next.whole.Keys == ix.whole.Keys
            && next.elements.Keys == (if arr in ix.whole then ix.elements.Keys else ix.elements.Keys + {arr})
            && forall b, i :: At(next, b, i) ==
                 if b == arr && (arr in ix.whole || i in indices) then Some(dst) else At(ix, b, i)
  {
  }

  lemma MoreKeys(a: set<Array>, b: set<Array>, c: set<Array>, arr: Array)
    ensures (a + (b + {arr})) - c == if arr in c then (a + b) - c else (a + b) - c + {arr}
  {
  }

  lemma RestrictMore(els: map<Array, set<nat>>, done: set<Array>, arr: Array)
    requires arr in els
    ensures Restrict(els, done + {arr}) == Restrict(els, done)[arr := els[arr]]
    ensures arr in Restrict(els, done) ==> Restrict(els, done)[arr] == els[arr]
  {
  }

  /** One array of its second loop. */
  lemma RedirectElementsStep<F>(ix: Index<F>, now: Index<F>, whole: set<Array>, els: map<Array, set<nat>>,
                                done: set<Array>, arr: Array, dst: F)
    requires whole !! els.Keys && ix.whole.Keys !! ix.elements.Keys
    requires Redirected(ix, now, whole, Restrict(els, done), dst) && arr in els
    ensures Redirected(ix, PointRow(now, arr, els[arr], dst), whole, Restrict(els, done + {arr}), dst)
  {
    hide PointRow, At, Restrict;
    var next := PointRow(now, arr, els[arr], dst);
    PointRowAt(now, arr, els[arr], dst);
    var was, more := Restrict(els, done), Restrict(els, done + {arr});
    RestrictMore(els, done, arr);
    MoreKeys(ix.elements.Keys, was.Keys, ix.whole.Keys + whole, arr);
    assert more.Keys == was.Keys + {arr};
    forall b, i ensures At(next, b, i) == RedirectedAt(ix, whole, more, dst, b, i) {
      assert At(now, b, i) == RedirectedAt(ix, whole, was, dst, b, i);
    }
  }

  // ----- steps of erase -----

  lemma EraseWholeStep<F>(ix: Index<F>, now: Index<F>, whole: set<Array>, arr: Array)
    requires Erased(ix, now, whole, map[]) && arr !in ix.elements
    ensures Erased(ix, Index(now.whole - {arr}, now.elements), whole + {arr}, map[])
  {
    var next := Index(now.whole - {arr}, now.elements);
    forall b, i ensures At(next, b, i) == if b in whole + {arr} then None else At(ix, b, i) {
      assert At(now, b, i) == if b in whole then None else At(ix, b, i);
    }
  }

  /** `erase` at one array of elements. */
  function ClearRow<F>(ix: Index<F>, arr: Array, indices: set<nat>): Index<F> {
    if arr in ix.elements then Index(ix.whole, ix.elements[arr := ix.elements[arr] - indices]) else ix
  }

  lemma ClearRowAt<F>(ix: Index<F>, arr: Array, indices: set<nat>)
    requires arr !in ix.whole
    ensures var next := ClearRow(ix, arr, indices);
            && next.whole.Keys == ix.whole.Keys && next.elements.Keys == ix.elements.Keys
            && forall b, i :: At(next, b, i) == if b == arr && i in indices then None else At(ix, b, i)
  {
  }

  lemma EraseElementsStep<F>(ix: Index<F>, now: Index<F>, whole: set<Array>, els: map<Array, set<nat>>,
                             done: set<Array>, arr: Array)
    requires Erased(ix, now, whole, Restrict(els, done)) && arr in els && arr !in ix.whole
    ensures Erased(ix, ClearRow(now, arr, els[arr]), whole, Restrict(els, done + {arr}))
  {
    hide ClearRow, At;
    ClearRowAt(now, arr, els[arr]);
    var next, was, more := ClearRow(now, arr, els[arr]), Restrict(els, done), Restrict(els, done + {arr});
    forall b, i ensures At(next, b, i) == if b in whole || (b in more && i in more[b]) then None else At(ix, b, i) {
      assert At(now, b, i) == if b in whole || (b in was && i in was[b]) then None else At(ix, b, i);
    }
  }

  lemma NothingRedirected<F>(ix: Index<F>, dst: F)
    requires ix.whole.Keys !! ix.elements.Keys
    ensures Redirected(ix, ix, {}, map[], dst)
  {
  }

  lemma NormalKeys(f: Footprint)
    requires f.Normal()
    ensures f.whole !! f.elements.Keys
  {
  }

  lemma RestrictAll(els: map<Array, set<nat>>)
    ensures Restrict(els, {}) == map[] && Restrict(els, els.Keys) == els
  {
  }

  lemma NothingErased<F>(ix: Index<F>)
    ensures Erased(ix, ix, {}, map[])
  {
  }

  /** `IndepElementSetIndexer`. */
  class Indexer {
    var wholeObjIndex: map<Array, Factor>
    var elementsIndex: map<Array, map<nat, Factor>>
    var factors: set<Factor>

    constructor ()
      ensures factors == {} && Exact(Ix(), Fps())
    {
      wholeObjIndex, elementsIndex, factors := map[], map[], {};
    }

    ghost function Ix(): Index<Factor>
      reads this
    {
      Index(wholeObjIndex, elementsIndex)
    }

    ghost function Fps(): (m: map<Factor, Footprint>)
      reads this, factors
      ensures m.Keys == factors && forall f :: f in factors ==> m[f] == f.fp
    {
      map f | f in factors :: f.fp
    }

    /** Entries are live and footprints normal: what every state satisfies. */
    ghost predicate Sound()
      reads this, factors
    {
      AllNormal(Fps()) && Live(Ix(), Fps())
    }

    /** Point the cells of `src` at `dst`. */
    method Redirect(src: Footprint, dst: Factor)
      requires src.Normal() && Ix().whole.Keys !! Ix().elements.Keys
      modifies this
      ensures factors == old(factors)
      ensures Redirected(old(Ix()), Ix(), src.whole, src.elements, dst)
    {
      hide *;
      ghost var ix := Ix();
      NormalKeys(src);
      RestrictAll(src.elements);
      RedirectAllWhole(src.whole, dst);
      var todo := src.elements.Keys;
      ghost var done: set<Array> := {};
      while todo != {}
        invariant todo + done == src.elements.Keys && todo !! done && factors == old(factors)
        invariant Redirected(ix, Ix(), src.whole, Restrict(src.elements, done), dst)
        decreases |todo|
      {
        var arr :| arr in todo;
        RedirectElementsStep(ix, Ix(), src.whole, src.elements, done, arr, dst);
        SetRow(arr, src.elements[arr], dst);
        todo, done := todo - {arr}, done + {arr};
      }
    }

    method RedirectAllWhole(whole: set<Array>, dst: Factor)
      requires Ix().whole.Keys !! Ix().elements.Keys
      modifies this
      ensures factors == old(factors)
      ensures Redirected(old(Ix()), Ix(), whole, map[], dst)
    {
      hide *;
      ghost var ix := Ix();
      NothingRedirected(ix, dst);
      var todo := whole;
      ghost var done: set<Array> := {};
      while todo != {}
        invariant todo <= whole && done == whole - todo && factors == old(factors)
        invariant Redirected(ix, Ix(), done, map[], dst)
        decreases |todo|
      {
        var arr :| arr in todo;
        todo := todo - {arr};
        SetOneWhole(arr, dst, ix, done);
        done := done + {arr};
      }
      assert done == whole;
    }

    method SetOneWhole(arr: Array, dst: Factor, ghost ix: Index<Factor>, ghost done: set<Array>)
      requires Redirected(ix, Ix(), done, map[], dst)
      modifies this
      ensures factors == old(factors) && Redirected(ix, Ix(), done + {arr}, map[], dst)
    {
      hide *;
      RedirectWholeStep(ix, Ix(), done, arr, dst);
      SetWhole(arr, dst);
    }

    method SetWhole(arr: Array, dst: Factor)
      modifies this
      ensures factors == old(factors) && Ix() == PointWhole(old(Ix()), arr, dst)
    {
      elementsIndex := elementsIndex - {arr};
      wholeObjIndex := wholeObjIndex[arr := dst];
    }

    method SetRow(arr: Array, indices: set<nat>, dst: Factor)
      modifies this
      ensures factors == old(factors) && Ix() == PointRow(old(Ix()), arr, indices, dst)
    {
      if arr in wholeObjIndex {
        wholeObjIndex := wholeObjIndex[arr := dst];
      } else {
        var row := if arr in elementsIndex then elementsIndex[arr] else map[];
        elementsIndex := elementsIndex[arr := row + map i | i in indices :: dst];
      }
    }

    /** Add a factor. */
    method Insert(f: Factor)
      requires Sound() && f !in factors && f.fp.Normal()
      modifies this
      ensures factors == old(factors) + {f} && Sound() && Fps() == old(Fps())[f := f.fp]
      ensures Redirected(old(Ix()), Ix(), f.fp.whole, f.fp.elements, f)
      ensures old(Exact(Ix(), Fps())) && (forall g :: g in old(factors) ==> !Overlap(g.fp, f.fp)) ==> Exact(Ix(), Fps())
    {
      hide Redirected, Contains, Overlap;
      ghost var ix, fps := Ix(), Fps();
      LiveKeys(ix, fps);
      Redirect(f.fp, f);
      factors := factors + {f};
      assert Fps() == fps[f := f.fp];
      ContainsSelf(f.fp);
      RedirectLive(ix, Ix(), fps, f.fp, f, f.fp);
      if Exact(ix, fps) && forall g :: g in fps ==> !Overlap(fps[g], f.fp) {
        RedirectExact(ix, Ix(), fps, f.fp, f);
      }
    }

    /** Grow the factor `f` by `more`, the one factor that overlaps it. */
    method Grow(f: Factor, more: Footprint)
      requires Sound() && f in factors && more.Normal()
      modifies this, f
      ensures factors == old(factors) && Sound() && f.fp == old(f.fp).Join(more) && Fps() == old(Fps())[f := f.fp]
      ensures old(Exact(Ix(), Fps())) && (forall g :: g in factors && g != f ==> !Overlap(g.fp, more)) ==>
                Exact(Ix(), Fps())
    {
      hide Redirected, Contains, Overlap, Live, Complete;
      ghost var ix, fps := Ix(), Fps();
      LiveKeys(ix, fps);
      var _ := f.Add(more);
      Redirect(more, f);
      assert Fps() == fps[f := f.fp];
      JoinContains(fps[f], more);
      RedirectLive(ix, Ix(), fps, more, f, f.fp);
      if Exact(ix, fps) && forall g :: g in fps && g != f ==> !Overlap(fps[g], more) {
        RedirectExact(ix, Ix(), fps, more, f);
      }
    }

    /** Remove a factor; false when an assertion of the source fails. */
    method Erase(f: Factor) returns (ok: bool)
      requires Sound() && f in factors
      modifies this
      ensures ok <==> old(Erasable(Ix(), f.fp))
      ensures factors <= old(factors)
      ensures ok ==> factors == old(factors) - {f} && Sound() && Fps() == old(Fps()) - {f}
      ensures ok && old(Exact(Ix(), Fps())) ==> Exact(Ix(), Fps())
    {
      hide Erased, Overlap, Live, Complete;
      ghost var ix, fps := Ix(), Fps();
      LiveKeys(ix, fps);
      ok := f.fp.whole !! elementsIndex.Keys && f.fp.elements.Keys !! wholeObjIndex.Keys;
      if ok {
        EraseWhole(f.fp.whole);
        EraseElements(f.fp.elements, ix, f.fp.whole);
        factors := factors - {f};
        assert Fps() == fps - {f};
        EraseLive(ix, Ix(), fps, f);
        if Exact(ix, fps) {
          EraseExact(ix, Ix(), fps, f);
        }
      }
    }

    method EraseWhole(whole: set<Array>)
      requires whole !! Ix().elements.Keys && Ix().whole.Keys !! Ix().elements.Keys
      modifies this
      ensures factors == old(factors) && Erased(old(Ix()), Ix(), whole, map[])
    {
      hide *;
      ghost var ix := Ix();
      var todo := whole;
      ghost var done: set<Array> := {};
      NothingErased(ix);
      while todo != {}
        invariant todo + done == whole && todo !! done && factors == old(factors)
        invariant Erased(ix, Ix(), done, map[])
        decreases |todo|
      {
        var arr :| arr in todo;
        EraseWholeStep(ix, Ix(), done, arr);
        DropWhole(arr);
        todo, done := todo - {arr}, done + {arr};
      }
    }

    method DropWhole(arr: Array)
      modifies this
      ensures factors == old(factors) && Ix() == Index(old(Ix()).whole - {arr}, old(Ix()).elements)
    {
      wholeObjIndex := wholeObjIndex - {arr};
    }

    method EraseElements(els: map<Array, set<nat>>, ghost ix: Index<Factor>, ghost whole: set<Array>)
      requires els.Keys !! ix.whole.Keys && Erased(ix, Ix(), whole, map[])
      modifies this
      ensures factors == old(factors) && Erased(ix, Ix(), whole, els)
    {
      hide *;
      RestrictAll(els);
      var todo := els.Keys;
      ghost var done: set<Array> := {};
      while todo != {}
        invariant todo + done == els.Keys && todo !! done && factors == old(factors)
        invariant Erased(ix, Ix(), whole, Restrict(els, done))
        decreases |todo|
      {
        var arr :| arr in todo;
        EraseElementsStep(ix, Ix(), whole, els, done, arr);
        DropRow(arr, els[arr]);
        todo, done := todo - {arr}, done + {arr};
      }
    }

    method DropRow(arr: Array, indices: set<nat>)
      modifies this
      ensures factors == old(factors) && Ix() == ClearRow(old(Ix()), arr, indices)
    {
      if arr in elementsIndex {
        elementsIndex := elementsIndex[arr := elementsIndex[arr] - indices];
      }
    }

    /** The factors at the cells of `s`: in an exact index, exactly the factors
        that overlap it. */
    method GetIntersection(s: Footprint) returns (out: set<Factor>)
      requires Sound() && s.Normal()
      ensures out <= factors
      ensures Exact(Ix(), Fps()) ==> forall f :: f in out <==> f in factors && Overlap(f.fp, s)
    {
      hide *;
      out := HitAllWhole(s);
      var todo := s.elements.Keys;
      ghost var done: set<Array> := {};
      assert s.whole + done == s.whole;
      while todo != {}
        invariant todo <= s.elements.Keys && done == s.elements.Keys - todo
        invariant Hits(Ix(), s, s.whole + done, out)
        decreases |todo|
      {
        var arr :| arr in todo;
        todo := todo - {arr};
        out := HitElements(s, arr, s.whole + done, out);
        assert s.whole + done + {arr} == s.whole + (done + {arr});
        done := done + {arr};
      }
      assert done == s.elements.Keys;
      AllHit(s, out);
    }

    /** `DebugIndependentIntersection`: the same factors, and whether a scan with
        `intersects` finds them too. In an exact index it does exactly if it is
        blind to none of them; the assertion that it does can thus fail. */
    method CrossCheck(s: Footprint) returns (out: set<Factor>, agrees: bool)
      requires Sound() && s.Normal()
      ensures out <= factors
      ensures Exact(Ix(), Fps()) ==> forall f :: f in out <==> f in factors && Overlap(f.fp, s)
      ensures Exact(Ix(), Fps()) ==> (agrees <==> forall f :: f in factors ==> !Blind(s, f.fp))
    {
      hide Intersects, Overlap, Blind, Exact, Sound;
      out := GetIntersection(s);
      var slow := Scan(s);
      agrees := out == slow;
      if Exact(Ix(), Fps()) {
        Agreement(s, out);
      }
    }

    method Scan(s: Footprint) returns (slow: set<Factor>)
      ensures slow == set f | f in factors && Intersects(s, f.fp)
    {
      hide Intersects;
      slow := {};
      var todo := factors;
      while todo != {}
        invariant todo <= factors && slow == set f | f in factors - todo && Intersects(s, f.fp)
        decreases |todo|
      {
        var f :| f in todo;
        todo := todo - {f};
        if Intersects(s, f.fp) {
          slow := slow + {f};
        }
      }
    }

    lemma Agreement(s: Footprint, out: set<Factor>)
      requires Exact(Ix(), Fps()) && s.Normal() && forall f :: f in out <==> f in factors && Overlap(f.fp, s)
      ensures out == (set f | f in factors && Intersects(s, f.fp)) <==> forall f :: f in factors ==> !Blind(s, f.fp)
    {
      hide Intersects, Overlap, Blind, Found, Exact;
      var slow := set f | f in factors && Intersects(s, f.fp);
      ScanExact(Ix(), Fps(), s);
      forall p ensures Found(Ix(), s, p) <==> p in out {
        FoundExact(Ix(), Fps(), s, p);
      }
      if out == slow {
        assert forall p :: Found(Ix(), s, p) <==> p in Fps() && Intersects(s, Fps()[p]);
        assert forall f :: f in factors ==> !Blind(s, Fps()[f]);
      }
      if forall f :: f in factors ==> !Blind(s, f.fp) {
        assert forall f :: f in Fps() ==> !Blind(s, Fps()[f]);
        assert forall f :: f in out <==> f in slow;
      }
    }

    method HitAllWhole(s: Footprint) returns (out: set<Factor>)
      ensures Hits(Ix(), s, s.whole, out)
    {
      hide *;
      out := {};
      var todo := s.whole;
      ghost var done: set<Array> := {};
      NoHits(Ix(), s);
      while todo != {}
        invariant todo <= s.whole && done == s.whole - todo && Hits(Ix(), s, done, out)
        decreases |todo|
      {
        var arr :| arr in todo;
        todo := todo - {arr};
        out := HitWhole(s, arr, done, out);
        done := done + {arr};
      }
      assert done == s.whole;
    }

    method HitWhole(s: Footprint, arr: Array, ghost done: set<Array>, out: set<Factor>) returns (more: set<Factor>)
      requires arr in s.whole && Hits(Ix(), s, done, out)
      ensures Hits(Ix(), s, done + {arr}, more)
    {
      var found: set<Factor> := {};
      if arr in wholeObjIndex {
        found := {wholeObjIndex[arr]};
        assert At(Ix(), arr, 0) == Some(wholeObjIndex[arr]);
      } else if arr in elementsIndex {
        found := elementsIndex[arr].Values;
        forall p | p in found ensures Found(Ix(), s, p) {
          var i :| i in elementsIndex[arr] && elementsIndex[arr][i] == p;
          assert s.Covers(arr, i) && At(Ix(), arr, i) == Some(p);
        }
      }
      more := out + found;
    }

    method HitElements(s: Footprint, arr: Array, ghost done: set<Array>, out: set<Factor>) returns (more: set<Factor>)
      requires arr in s.elements && s.Normal() && Hits(Ix(), s, done, out)
      ensures Hits(Ix(), s, done + {arr}, more)
    {
      var found: set<Factor> := {};
      if arr in wholeObjIndex {
        found := {wholeObjIndex[arr]};
        ghost var i :| i in s.elements[arr];
        assert s.Covers(arr, i) && At(Ix(), arr, i) == Some(wholeObjIndex[arr]);
      } else if arr in elementsIndex {
        var row := elementsIndex[arr];
        found := set i | i in s.elements[arr] && i in row :: row[i];
        forall p | p in found ensures Found(Ix(), s, p) {
          var i :| i in s.elements[arr] && i in row && row[i] == p;
          assert s.Covers(arr, i) && At(Ix(), arr, i) == Some(p);
        }
      }
      more := out + found;
    }

    lemma AllHit(s: Footprint, out: set<Factor>)
      requires Sound() && Hits(Ix(), s, s.whole + s.elements.Keys, out)
      ensures out <= factors
      ensures Exact(Ix(), Fps()) ==> forall f :: f in out <==> f in factors && Overlap(f.fp, s)
    {
      forall p | p in out ensures p in factors {
        var arr, i :| s.Covers(arr, i) && At(Ix(), arr, i) == Some(p);
        assert Backed(Ix(), Fps(), arr, i);
      }
      if Exact(Ix(), Fps()) {
        forall f | f in out || f in factors ensures f in out <==> Overlap(f.fp, s) {
          FoundExact(Ix(), Fps(), s, f);
        }
      }
    }
  }

  /** `out` holds what the index has at the cells of `s` in some arrays. */
  ghost predicate Hits<F>(ix: Index<F>, s: Footprint, arrays: set<Array>, out: set<F>) {
    && (forall p :: p in out ==> Found(ix, s, p))
    && (forall arr, i :: arr in arrays && s.Covers(arr, i) && At(ix, arr, i).Some? ==> At(ix, arr, i).value in out)
  }

  lemma NoHits<F>(ix: Index<F>, s: Footprint)
    ensures Hits(ix, s, {}, {})
  {
  }
}
