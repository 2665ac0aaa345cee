/** `IndependentElementSet`: which input cells a set of expressions may depend on,
    as whole arrays and single elements. */
module Footprints {
  import opened Bits
  import opened Exprs

  datatype Footprint = Footprint(exprs: set<Term>, whole: set<Array>, elements: map<Array, set<nat>>) {
    /** An array is recorded one way only, and never without a cell. */
    ghost predicate Normal() {
      whole !! elements.Keys && forall arr :: arr in elements ==> elements[arr] != {}
    }

    predicate Covers(arr: Array, i: nat) {
      arr in whole || (arr in elements && i in elements[arr])
    }

    /** `IndependentElementSet::add`: union, whole arrays absorbing elements. */
    function Join(g: Footprint): (r: Footprint)
      ensures Normal() && g.Normal() ==> r.Normal()
      ensures r.exprs == exprs + g.exprs
      ensures forall arr, i :: r.Covers(arr, i) <==> Covers(arr, i) || g.Covers(arr, i)
    {
      var w := whole + g.whole;
      Footprint(exprs + g.exprs, w,
                map arr | arr in elements.Keys + g.elements.Keys - w ::
                  if arr !in elements then g.elements[arr]
                  else if arr in g.elements then elements[arr] + g.elements[arr] else elements[arr])
    }
  }

  /** Some cell is covered by both. */
  ghost predicate Overlap(f: Footprint, g: Footprint) {
    exists arr, i :: f.Covers(arr, i) && g.Covers(arr, i)
  }

  // ----- intersects -----

  /** The footprint with fewer whole arrays, and the one with fewer arrays of
      single elements; `g` when equal. */
  predicate FewerWhole(f: Footprint, g: Footprint) { |f.whole| < |g.whole| }
  predicate FewerElements(f: Footprint, g: Footprint) { |f.elements| < |g.elements| }

  predicate WholeMeets(small: Footprint, large: Footprint) {
    exists arr :: arr in small.whole && (arr in large.whole || arr in large.elements)
  }

  predicate ElementsMeet(small: Footprint, large: Footprint) {
    exists arr :: arr in small.elements &&
      (arr in large.whole || (arr in large.elements && small.elements[arr] * large.elements[arr] != {}))
  }

  /** `IndependentElementSet::intersects`, which picks the smaller side twice. */
  predicate Intersects(f: Footprint, g: Footprint) {
    (if FewerWhole(f, g) then WholeMeets(f, g) else WholeMeets(g, f)) ||
    (if FewerElements(f, g) then ElementsMeet(f, g) else ElementsMeet(g, f))
  }

  /** The comparison `intersects` leaves out when the two picks differ: whole
      arrays of the side with more of them against elements of the other side,
      when nothing else overlaps. */
  ghost predicate Blind(f: Footprint, g: Footprint) {
    (|f.whole| < |g.whole|) != (|f.elements| < |g.elements|) &&
    var (small, large) := if |f.whole| < |g.whole| then (f, g) else (g, f);
    && large.whole * small.elements.Keys != {}
    && !WholeMeets(small, large)
    && !ElementsMeet(large, small)
  }

  lemma OverlapParts(f: Footprint, g: Footprint)
    requires f.Normal() && g.Normal()
    ensures Overlap(f, g) <==> WholeMeets(f, g) || ElementsMeet(f, g)
  {
    if WholeMeets(f, g) {
      var arr :| arr in f.whole && (arr in g.whole || arr in g.elements);
      var i := if arr in g.whole then 0 else var i :| i in g.elements[arr]; i;
      assert f.Covers(arr, i) && g.Covers(arr, i);
    }
    if ElementsMeet(f, g) {
      var arr :| arr in f.elements && (arr in g.whole || (arr in g.elements && f.elements[arr] * g.elements[arr] != {}));
      var i :| i in f.elements[arr] && (arr in g.whole || i in g.elements[arr]);
      assert f.Covers(arr, i) && g.Covers(arr, i);
    }
    if Overlap(f, g) {
      var arr, i :| f.Covers(arr, i) && g.Covers(arr, i);
      if arr in f.whole {
        assert WholeMeets(f, g);
      } else if arr in g.elements {
        assert i in f.elements[arr] * g.elements[arr];
        assert ElementsMeet(f, g);
      } else {
        assert ElementsMeet(f, g);
      }
    }
  }

  lemma OverlapSymmetric(f: Footprint, g: Footprint)
    ensures Overlap(f, g) <==> Overlap(g, f)
  {
  }

  /** `intersects` answers overlap exactly, except for the pairs it is blind to. */
  lemma IntersectsExact(f: Footprint, g: Footprint)
    requires f.Normal() && g.Normal()
    ensures Intersects(f, g) <==> Overlap(f, g) && !Blind(f, g)
    ensures Blind(f, g) ==> Overlap(f, g)
  {
    OverlapParts(f, g);
    OverlapParts(g, f);
    OverlapSymmetric(f, g);
    var (small, large) := if FewerWhole(f, g) then (f, g) else (g, f);
    if large.whole * small.elements.Keys != {} {
      var arr :| arr in large.whole * small.elements.Keys;
      assert ElementsMeet(small, large);
    }
    if ElementsMeet(small, large) && large.whole * small.elements.Keys == {} {
      var arr :| arr in small.elements &&
        (arr in large.whole || (arr in large.elements && small.elements[arr] * large.elements[arr] != {}));
      assert arr !in large.whole by {
        assert arr in small.elements.Keys && arr !in large.whole * small.elements.Keys;
      }
      assert large.elements[arr] * small.elements[arr] == small.elements[arr] * large.elements[arr];
      assert ElementsMeet(large, small);
    }
  }

  // ----- the cells an expression reads -----

  /** Every read in an expression, those in update lists included. */
  function Reads(e: Term): (r: set<Term>)
    ensures forall x :: x in r ==> x.Read?
    decreases e
  {
    match e
    case Constant(_) => {}
    case NotOptimized(s) => Reads(s)
    case Read(_, head, index) => {e} + Reads(index) + ListReads(head)
    case Select(c, t, f) => Reads(c) + Reads(t) + Reads(f)
    case Concat(l, r) => Reads(l) + Reads(r)
    case Extract(s, _, _) => Reads(s)
    case ZExt(s, _) => Reads(s)
    case SExt(s, _) => Reads(s)
    case Not(s) => Reads(s)
    case Binary(_, l, r) => Reads(l) + Reads(r)
  }

  function ListReads(u: WriteList): (r: set<Term>)
    ensures forall x :: x in r ==> x.Read?
    decreases u
  {
    match u
    case NoUpdates => {}
    case Update(index, value, next) => Reads(index) + Reads(value) + ListReads(next)
  }

  /** Reads of a constant array without updates depend on no input. */
  predicate Aliases(r: Term)
    requires r.Read?
  {
    !(r.root.IsConstantArray() && r.head.NoUpdates?)
  }

  function Root(r: Term): Array
    requires r.Read?
  {
    r.root
  }

  ghost predicate ReadsCell(r: Term, arr: Array, i: nat)
    requires r.Read?
  {
    Aliases(r) && r.root == arr && (r.index.Constant? ==> ToNat(r.index.value) == i)
  }

  /** Two assignments give every cell some read touches the same byte. */
  ghost predicate Agree(reads_: set<Term>, a: Assignment, b: Assignment)
    requires forall x :: x in reads_ ==> x.Read?
  {
    forall r, arr, i :: r in reads_ && ReadsCell(r, arr, i) ==> a(arr, i) == b(arr, i)
  }

  lemma {:induction false} ReadsDecide(e: Term, a: Assignment, b: Assignment)
    requires Agree(Reads(e), a, b)
    ensures Eval(e, a) == Eval(e, b)
    decreases e
  {
    match e
    case Constant(_) =>
    case NotOptimized(s) => ReadsDecide(s, a, b);
    case Read(root, head, index) =>
      ReadsDecide(index, a, b);
      assert e in Reads(e);
      assert Aliases(e) ==> ReadsCell(e, root, ToNat(Eval(index, a)));
      ListReadsDecide(root, head, Eval(index, a), a, b);
    case Select(c, t, f) =>
      ReadsDecide(c, a, b);
      ReadsDecide(t, a, b);
      ReadsDecide(f, a, b);
    case Concat(l, r) =>
      ReadsDecide(l, a, b);
      ReadsDecide(r, a, b);
    case Extract(s, _, _) => ReadsDecide(s, a, b);
    case ZExt(s, _) => ReadsDecide(s, a, b);
    case SExt(s, _) => ReadsDecide(s, a, b);
    case Not(s) => ReadsDecide(s, a, b);
    case Binary(_, l, r) =>
      ReadsDecide(l, a, b);
      ReadsDecide(r, a, b);
  }

  lemma {:induction false} ListReadsDecide(root: Array, u: WriteList, i: Bits, a: Assignment, b: Assignment)
    requires Agree(ListReads(u), a, b)
    requires InitialByte(root, ToNat(i), a) == InitialByte(root, ToNat(i), b)
    ensures ReadAt(root, u, i, a) == ReadAt(root, u, i, b)
    decreases u
  {
    if u.Update? {
      ReadsDecide(u.index, a, b);
      ReadsDecide(u.value, a, b);
      ListReadsDecide(root, u.next, i, a, b);
    }
  }

  // ----- the footprint of an expression -----

  function WholeOf(rs: set<Term>): (w: set<Array>)
    requires forall x :: x in rs ==> x.Read?
  {
    set r | r in rs && Aliases(r) && !r.index.Constant? :: Root(r)
  }

  function FixedOf(rs: set<Term>): (w: set<Array>)
    requires forall x :: x in rs ==> x.Read?
  {
    set r | r in rs && Aliases(r) && r.index.Constant? :: Root(r)
  }

  function IndicesOf(rs: set<Term>, arr: Array): (s: set<nat>)
    requires forall x :: x in rs ==> x.Read?
  {
    set r | r in rs && Aliases(r) && r.index.Constant? && r.root == arr :: ToNat(r.index.value)
  }

  function ElementsOf(rs: set<Term>): (m: map<Array, set<nat>>)
    requires forall x :: x in rs ==> x.Read?
  {
    map arr | arr in FixedOf(rs) - WholeOf(rs) :: IndicesOf(rs, arr)
  }

  /** The constructor of `IndependentElementSet`: the cells covered are those
      some read touches. */
  function FootprintOf(e: Term): (f: Footprint)
    ensures f.exprs == {e} && f.Normal()
    ensures forall arr, i :: f.Covers(arr, i) <==> exists r :: r in Reads(e) && ReadsCell(r, arr, i)
  {
    FootprintCovers(e);
    Footprint({e}, WholeOf(Reads(e)), ElementsOf(Reads(e)))
  }

  lemma FootprintCovers(e: Term)
    ensures Footprint({e}, WholeOf(Reads(e)), ElementsOf(Reads(e))).Normal()
    ensures forall arr, i :: Footprint({e}, WholeOf(Reads(e)), ElementsOf(Reads(e))).Covers(arr, i) <==>
              exists r :: r in Reads(e) && ReadsCell(r, arr, i)
  {
    hide Reads, WF;
    var rs := Reads(e);
    var f := Footprint({e}, WholeOf(rs), ElementsOf(rs));
    forall arr | arr in f.elements ensures f.elements[arr] != {} {
      var r :| r in rs && Aliases(r) && r.index.Constant? && r.root == arr;
      assert ToNat(r.index.value) in f.elements[arr];
    }
    forall arr: Array, i: nat ensures f.Covers(arr, i) <==> exists r :: r in rs && ReadsCell(r, arr, i) {
      if arr in f.whole {
        var r :| r in rs && Aliases(r) && !r.index.Constant? && r.root == arr;
        assert ReadsCell(r, arr, i);
      } else if f.Covers(arr, i) {
        var r :| r in rs && Aliases(r) && r.index.Constant? && r.root == arr && ToNat(r.index.value) == i;
        assert ReadsCell(r, arr, i);
      }
      if r :| r in rs && ReadsCell(r, arr, i) {
        if r.index.Constant? && arr !in f.whole {
          assert arr in f.elements && i in f.elements[arr];
        }
      }
    }
  }

  /** An expression depends on no cell outside its footprint. */
  lemma FootprintDecides(e: Term, a: Assignment, b: Assignment)
    requires forall arr, i :: FootprintOf(e).Covers(arr, i) ==> a(arr, i) == b(arr, i)
    ensures Eval(e, a) == Eval(e, b)
  {
    hide Eval, Reads, WF;
    forall r, arr, i | r in Reads(e) && ReadsCell(r, arr, i) ensures a(arr, i) == b(arr, i) {
      assert FootprintOf(e).Covers(arr, i);
    }
    ReadsDecide(e, a, b);
  }

  /** The expression reads some cell of an array of input bytes. */
  ghost predicate ReadsCells(e: Term) {
    exists arr, i :: FootprintOf(e).Covers(arr, i)
  }

  /** `s` occurs in `e`, in a list of writes or elsewhere. */
  ghost predicate Occurs(s: Term, e: Term)
    decreases e
  {
    e == s || match e
      case Constant(_) => false
      case NotOptimized(k) => Occurs(s, k)
      case Read(_, head, index) => Occurs(s, index) || OccursInList(s, head)
      case Select(c, t, f) => Occurs(s, c) || Occurs(s, t) || Occurs(s, f)
      case Concat(l, r) => Occurs(s, l) || Occurs(s, r)
      case Extract(k, _, _) => Occurs(s, k)
      case ZExt(k, _) => Occurs(s, k)
      case SExt(k, _) => Occurs(s, k)
      case Not(k) => Occurs(s, k)
      case Binary(_, l, r) => Occurs(s, l) || Occurs(s, r)
  }

  ghost predicate OccursInList(s: Term, u: WriteList)
    decreases u
  {
    u.Update? && (Occurs(s, u.index) || Occurs(s, u.value) || OccursInList(s, u.next))
  }

  lemma {:induction false} OccursReads(s: Term, e: Term)
    requires Occurs(s, e)
    ensures Reads(s) <= Reads(e)
    decreases e
  {
    if e != s {
      match e
      case NotOptimized(k) => OccursReads(s, k);
      case Read(_, head, index) =>
        if Occurs(s, index) { OccursReads(s, index); } else { OccursListReads(s, head); }
      case Select(c, t, f) =>
        if Occurs(s, c) { OccursReads(s, c); } else if Occurs(s, t) { OccursReads(s, t); } else { OccursReads(s, f); }
      case Concat(l, r) =>
        if Occurs(s, l) { OccursReads(s, l); } else { OccursReads(s, r); }
      case Extract(k, _, _) => OccursReads(s, k);
      case ZExt(k, _) => OccursReads(s, k);
      case SExt(k, _) => OccursReads(s, k);
      case Not(k) => OccursReads(s, k);
      case Binary(_, l, r) =>
        if Occurs(s, l) { OccursReads(s, l); } else { OccursReads(s, r); }
    }
  }

  /** The reads of an expression are those that occur in it. */
  lemma {:induction false} ReadsOccur(e: Term, r: Term)
    ensures r in Reads(e) <==> r.Read? && Occurs(r, e)
    decreases e
  {
    if r in Reads(e) && r != e {
      match e
      case NotOptimized(k) => ReadsOccur(k, r);
      case Read(_, head, index) =>
        ReadsOccur(index, r);
        if r in ListReads(head) {
          ListReadsOccur(head, r);
        }
      case Select(c, t, f) =>
        ReadsOccur(c, r);
        ReadsOccur(t, r);
        ReadsOccur(f, r);
      case Concat(x, y) =>
        ReadsOccur(x, r);
        ReadsOccur(y, r);
      case Extract(k, _, _) => ReadsOccur(k, r);
      case ZExt(k, _) => ReadsOccur(k, r);
      case SExt(k, _) => ReadsOccur(k, r);
      case Not(k) => ReadsOccur(k, r);
      case Binary(_, x, y) =>
        ReadsOccur(x, r);
        ReadsOccur(y, r);
    } else if r.Read? && Occurs(r, e) {
      OccursReads(r, e);
    }
  }

  lemma {:induction false} ListReadsOccur(u: WriteList, r: Term)
    requires r in ListReads(u)
    ensures OccursInList(r, u)
    decreases u
  {
    ReadsOccur(u.index, r);
    ReadsOccur(u.value, r);
    if r in ListReads(u.next) {
      ListReadsOccur(u.next, r);
    }
  }

  lemma {:induction false} OccursListReads(s: Term, u: WriteList)
    requires OccursInList(s, u)
    ensures Reads(s) <= ListReads(u)
    decreases u
  {
    if Occurs(s, u.index) {
      OccursReads(s, u.index);
    } else if Occurs(s, u.value) {
      OccursReads(s, u.value);
    } else {
      OccursListReads(s, u.next);
    }
  }

  /** A term that reads a cell occurs only in expressions that share a cell with
      it, so looking at those misses none. */
  lemma OccursOverlap(s: Term, e: Term)
    requires Occurs(s, e) && ReadsCells(s)
    ensures Overlap(FootprintOf(e), FootprintOf(s))
  {
    hide Reads, Occurs;
    OccursReads(s, e);
    var arr, i :| FootprintOf(s).Covers(arr, i);
    assert FootprintOf(e).Covers(arr, i);
  }

  /** One more read in the loop of the constructor. */
  lemma OneMorePart(rs: set<Term>, re: Term)
    requires re.Read? && forall x :: x in rs ==> x.Read?
    ensures WholeOf(rs + {re}) == WholeOf(rs) + if Aliases(re) && !re.index.Constant? then {Root(re)} else {}
    ensures FixedOf(rs + {re}) == FixedOf(rs) + if Aliases(re) && re.index.Constant? then {Root(re)} else {}
    ensures forall arr :: IndicesOf(rs + {re}, arr) ==
              if Aliases(re) && re.index.Constant? && Root(re) == arr then IndicesOf(rs, arr) + {ToNat(re.index.value)}
              else IndicesOf(rs, arr)
    ensures forall arr :: arr !in FixedOf(rs) ==> IndicesOf(rs, arr) == {}
  {
    hide WF, ToNat;
  }

  lemma OneMoreRead(rs: set<Term>, re: Term)
    requires re.Read? && forall x :: x in rs ==> x.Read?
    ensures var (more, root) := (rs + {re}, Root(re));
            if !Aliases(re) || root in WholeOf(rs) then
              WholeOf(more) == WholeOf(rs) && ElementsOf(more) == ElementsOf(rs)
            else if re.index.Constant? then
              && WholeOf(more) == WholeOf(rs)
              && ElementsOf(more) == ElementsOf(rs)[root := IndicesOf(rs, root) + {ToNat(re.index.value)}]
            else
              && WholeOf(more) == WholeOf(rs) + {root}
              && ElementsOf(more) == ElementsOf(rs) - {root}
    ensures Root(re) !in WholeOf(rs) ==>
              IndicesOf(rs, Root(re)) == if Root(re) in ElementsOf(rs) then ElementsOf(rs)[Root(re)] else {}
  {
    hide WF, ToNat, WholeOf, FixedOf, IndicesOf;
    OneMorePart(rs, re);
    var more, root, was, now := rs + {re}, Root(re), ElementsOf(rs), ElementsOf(rs + {re});
    assert was.Keys == FixedOf(rs) - WholeOf(rs) && now.Keys == FixedOf(more) - WholeOf(more);
    if !Aliases(re) || root in WholeOf(rs) {
      assert now.Keys == was.Keys;
    } else if re.index.Constant? {
      assert now.Keys == was.Keys + {root};
    } else {
      assert now.Keys == was.Keys - {root};
    }
  }

  /** The loop of the constructor, in any order of the reads. */
  method Construct(e: Term) returns (f: Footprint)
    ensures f == FootprintOf(e)
  {
    hide WF, ToNat, Reads, WholeOf, ElementsOf, IndicesOf;
    var todo := Reads(e);
    ghost var done: set<Term> := {};
    var whole: set<Array>, elements: map<Array, set<nat>> := {}, map[];
    NoReads();
    while todo != {}
      invariant todo + done == Reads(e)
      invariant forall x :: x in done ==> x.Read?
      invariant whole == WholeOf(done) && elements == ElementsOf(done)
      decreases |todo|
    {
      var re :| re in todo;
      OneMoreRead(done, re);
      todo, done := todo - {re}, done + {re};
      var root := Root(re);
      if Aliases(re) && root !in whole {
        if re.index.Constant? {
          var sofar := if root in elements then elements[root] else {};
          elements := elements[root := sofar + {ToNat(re.index.value)}];
        } else {
          elements := elements - {root};
          whole := whole + {root};
        }
      }
    }
    f := Footprint({e}, whole, elements);
  }

  lemma NoReads()
    ensures WholeOf({}) == {} && ElementsOf({}) == map[]
  {
  }

  // ----- a pair `intersects` does not see -----

  function FirstByte(arr: Array): (e: Term)
    ensures Width(e) == INT8 && e.Read?
  {
    var i: Term := Constant(Zeros(INT32));
    assert Width(i) == INT32 && WFUpdates(NoUpdates);
    Read(arr, NoUpdates, i)
  }

  function IndexedBy(arr: Array, i: Term): (e: Term)
    requires Width(i) == INT8
    ensures Width(e) == INT8 && e.Read?
  {
    var wide: Term := ZExt(i, INT32);
    assert Width(wide) == INT32 && WFUpdates(NoUpdates);
    Read(arr, NoUpdates, wide)
  }

  function AreEqual(l: Term, r: Term): (e: Formula)
    requires Width(l) == Width(r)
  {
    Binary(Eq, l, r)
  }

  function Bytes(name: string): Array { Array(name, 4, []) }

  /** `a[0] == c[0]`: reads one element of `a`. */
  function OneElement(): Formula { AreEqual(FirstByte(Bytes("a")), FirstByte(Bytes("c"))) }

  /** `a[b[0]] == b[0]`: reads the whole of `a`. */
  function WholeArray(): Formula { AreEqual(IndexedBy(Bytes("a"), FirstByte(Bytes("b"))), FirstByte(Bytes("b"))) }

  /** In either order `intersects` does not see that these share a cell. */
  lemma MissedPair()
    ensures var (f, g) := (FootprintOf(OneElement()), FootprintOf(WholeArray()));
            && Overlap(f, g) && !Intersects(f, g) && !Intersects(g, f)
            && Bytes("a") in f.elements && Bytes("a") in g.whole
  {
    hide FootprintOf, Intersects;
    var a, b, c, x, y := Bytes("a"), Bytes("b"), Bytes("c"), OneElement(), WholeArray();
    MissedParts(a, b, c, x, y);
    MissedFootprints(a, b, c, FootprintOf(x), FootprintOf(y));
  }

  lemma ReadsOfParts(arr: Array, i: Term, l: Term, r: Term)
    requires Width(i) == INT8 && Width(l) == Width(r)
    ensures Reads(FirstByte(arr)) == {FirstByte(arr)}
    ensures Reads(IndexedBy(arr, i)) == {IndexedBy(arr, i)} + Reads(i)
    ensures Reads(AreEqual(l, r)) == Reads(l) + Reads(r)
  {
    var first := FirstByte(arr);
    assert Reads(first) == {first} + Reads(first.index) + ListReads(first.head);
    assert Reads(IndexedBy(arr, i)) == {IndexedBy(arr, i)} + Reads(ZExt(i, INT32)) + ListReads(NoUpdates);
  }

  lemma ReadShapes(arr: Array, i: Term)
    requires Width(i) == INT8 && !arr.IsConstantArray()
    ensures var r := FirstByte(arr); Aliases(r) && Root(r) == arr && r.index.Constant? && ToNat(r.index.value) == 0
    ensures var r := IndexedBy(arr, i); Aliases(r) && Root(r) == arr && !r.index.Constant?
  {
    ToNatZeros(INT32);
  }

  lemma MissedParts(a: Array, b: Array, c: Array, x: Formula, y: Formula)
    requires !a.IsConstantArray() && !b.IsConstantArray() && !c.IsConstantArray() && a != b && a != c && b != c
    requires x == AreEqual(FirstByte(a), FirstByte(c)) && y == AreEqual(IndexedBy(a, FirstByte(b)), FirstByte(b))
    ensures FootprintOf(x) == Footprint({x}, {}, map[a := {0}, c := {0}])
    ensures FootprintOf(y) == Footprint({y}, {a}, map[b := {0}])
  {
    hide Reads, FirstByte, IndexedBy, AreEqual, Aliases, WF;
    ReadsOfParts(a, FirstByte(b), FirstByte(a), FirstByte(c));
    ReadsOfParts(b, FirstByte(b), IndexedBy(a, FirstByte(b)), FirstByte(b));
    ReadsOfParts(c, FirstByte(b), FirstByte(a), FirstByte(c));
    ReadShapes(a, FirstByte(b));
    ReadShapes(b, FirstByte(b));
    ReadShapes(c, FirstByte(b));
    var rx, ry := {FirstByte(a), FirstByte(c)}, {IndexedBy(a, FirstByte(b)), FirstByte(b)};
    assert Reads(x) == rx && Reads(y) == ry;
    assert FirstByte(a) in rx && FirstByte(c) in rx && FirstByte(b) in ry && IndexedBy(a, FirstByte(b)) in ry;
    assert WholeOf(rx) == {} && FixedOf(rx) == {a, c} && IndicesOf(rx, a) == {0} && IndicesOf(rx, c) == {0};
    assert WholeOf(ry) == {a} && FixedOf(ry) == {b} && IndicesOf(ry, b) == {0};
  }

  lemma MissedFootprints(a: Array, b: Array, c: Array, f: Footprint, g: Footprint)
    requires a != b && a != c && b != c
    requires f.whole == {} && f.elements == map[a := {0}, c := {0}] && g.whole == {a} && g.elements == map[b := {0}]
    ensures Overlap(f, g) && !Intersects(f, g) && !Intersects(g, f)
  {
    assert f.Covers(a, 0) && g.Covers(a, 0);
    assert f.elements.Keys == {a, c} && g.elements.Keys == {b};
    assert |f.whole| == 0 && |g.whole| == 1 && |f.elements| == 2 && |g.elements| == 1;
    assert !WholeMeets(f, g) && !ElementsMeet(g, f);
  }
}
