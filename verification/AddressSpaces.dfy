/** Copy-on-write address spaces (lib/Core/AddressSpace.cpp): copies share their
    objects until one of them writes. Ownership is decided by epoch numbers, and a
    copy gets the same number as the space it was copied from. */
module AddressSpaces {
  import opened ObjectCells
  import opened Sequences

  /** A memory object, by its address. */
  type MemoryObject = int

  /** An object state with its contents as a value. */
  class Object {
    var copyOnWriteOwner: nat
    var readOnly: bool
    var cells: Cells

    constructor (cells: Cells)
      ensures copyOnWriteOwner == 0 && !readOnly && this.cells == cells
    {
      copyOnWriteOwner, readOnly, this.cells := 0, false, cells;
    }
  }

  class AddressSpace {
    var cowKey: nat
    var objects: map<MemoryObject, Object>

    constructor ()
      ensures cowKey == 1 && objects == map[]
    {
      cowKey, objects := 1, map[];
    }

    /** The copy constructor advances the key of the space it copies, and takes the
        same key. */
    constructor Copy(b: AddressSpace)
      modifies b
      ensures b.cowKey == old(b.cowKey) + 1 && b.objects == old(b.objects)
      ensures cowKey == b.cowKey && objects == b.objects
    {
      var key := b.cowKey + 1;
      b.cowKey := key;
      cowKey := key;
      objects := b.objects;
    }

    /** What the space holds. */
    ghost function View(): (v: map<MemoryObject, Cells>)
      reads this, objects.Values
    {
      map m | m in objects :: objects[m].cells
    }

    method BindObject(m: MemoryObject, os: Object)
      requires os.copyOnWriteOwner == 0
      modifies this`objects, os`copyOnWriteOwner
      ensures objects == old(objects)[m := os] && os.copyOnWriteOwner == cowKey
    {
      os.copyOnWriteOwner := cowKey;
      objects := objects[m := os];
    }

    method UnbindObject(m: MemoryObject)
      modifies this`objects
      ensures objects == old(objects) - {m}
    {
      objects := objects - {m};
    }

    /** The object itself if the space owns it, else a copy bound in its place. */
    method GetWriteable(m: MemoryObject, os: Object) returns (wos: Object)
      requires m in objects && objects[m] == os && !os.readOnly
      modifies this`objects
      ensures objects == old(objects)[m := wos] && wos.copyOnWriteOwner == cowKey && wos.cells == os.cells && !wos.readOnly
      ensures if cowKey == os.copyOnWriteOwner then wos == os else fresh(wos)
    {
      if cowKey == os.copyOnWriteOwner {
        return os;
      }
      wos := new Object(os.cells);
      wos.copyOnWriteOwner := cowKey;
      objects := objects[m := wos];
    }
  }

  // ----- ownership, on values -----

  /** Keys of the spaces, what they bind, and the owner and contents of each
      object. */
  datatype Epochs<S, O> = Epochs(key: map<S, nat>, binds: map<S, map<MemoryObject, O>>, owner: map<O, nat>, cells: map<O, Cells>)

  /** No object is owned by a later epoch than a space that binds it. */
  ghost predicate Owned<S, O>(w: Epochs<S, O>, s: S, m: MemoryObject)
    requires s in w.binds && m in w.binds[s]
  {
    s in w.key && w.binds[s][m] in w.owner && 1 <= w.owner[w.binds[s][m]] <= w.key[s]
  }

  /** An object bound twice is bound in two spaces, to one address, and is owned by
      neither. */
  ghost predicate Shared<S, O>(w: Epochs<S, O>, s: S, m: MemoryObject, t: S, n: MemoryObject)
    requires s in w.binds && m in w.binds[s] && t in w.binds && n in w.binds[t] && w.binds[s][m] == w.binds[t][n]
  {
    && m == n && Owned(w, s, m) && Owned(w, t, n)
    && (s != t ==> w.owner[w.binds[s][m]] < w.key[s] && w.owner[w.binds[s][m]] < w.key[t])
  }

  ghost predicate Isolated<S, O>(w: Epochs<S, O>) {
    && w.key.Keys == w.binds.Keys && w.owner.Keys == w.cells.Keys && (forall s :: s in w.key ==> w.key[s] >= 1)
    && (forall s, m :: s in w.binds && m in w.binds[s] ==> Owned(w, s, m))
    && (forall s, m, t, n :: (s in w.binds && m in w.binds[s] && t in w.binds && n in w.binds[t]) ==>
          (w.binds[s][m] == w.binds[t][n] ==> Shared(w, s, m, t, n)))
  }

  // ----- the steps -----

  /** Copying `b` as `s` advances the key of `b` and gives `s` the same one. */
  function Forked<S, O>(w: Epochs<S, O>, b: S, s: S): Epochs<S, O>
    requires b in w.key && b in w.binds
  {
    w.(key := w.key[b := w.key[b] + 1][s := w.key[b] + 1], binds := w.binds[s := w.binds[b]])
  }

  lemma ForkIsolated<S, O>(w: Epochs<S, O>, b: S, s: S)
    requires Isolated(w) && b in w.key && s !in w.key
    ensures Isolated(Forked(w, b, s))
  {
    var v := Forked(w, b, s);
    forall x, m | x in v.binds && m in v.binds[x] ensures Owned(v, x, m) {
      assert Owned(w, if x == s then b else x, m);
    }
    forall x, m, y, n | x in v.binds && m in v.binds[x] && y in v.binds && n in v.binds[y] && v.binds[x][m] == v.binds[y][n]
      ensures Shared(v, x, m, y, n)
    {
      assert Shared(w, if x == s then b else x, m, if y == s then b else y, n);
    }
  }

  /** Binding a new object, by `bindObject` or by `getWriteable` copying. */
  function Bound<S, O>(w: Epochs<S, O>, s: S, m: MemoryObject, o: O, c: Cells): Epochs<S, O>
    requires s in w.key && s in w.binds
  {
    w.(binds := w.binds[s := w.binds[s][m := o]], owner := w.owner[o := w.key[s]], cells := w.cells[o := c])
  }

  lemma BindIsolated<S, O>(w: Epochs<S, O>, s: S, m: MemoryObject, o: O, c: Cells)
    requires Isolated(w) && s in w.key && o !in w.owner
    ensures Isolated(Bound(w, s, m, o, c))
  {
    var v := Bound(w, s, m, o, c);
    forall x, k | x in v.binds && k in v.binds[x] ensures Owned(v, x, k) {
      if v.binds[x][k] != o {
        assert Owned(w, x, k);
      }
    }
    forall x, k, y, n | x in v.binds && k in v.binds[x] && y in v.binds && n in v.binds[y] && v.binds[x][k] == v.binds[y][n]
      ensures Shared(v, x, k, y, n)
    {
      if v.binds[x][k] != o {
        assert Shared(w, x, k, y, n);
      } else {
        OnlyBinding(w, v, s, m, o, x, k);
        OnlyBinding(w, v, s, m, o, y, n);
      }
    }
  }

  lemma OnlyBinding<S, O>(w: Epochs<S, O>, v: Epochs<S, O>, s: S, m: MemoryObject, o: O, x: S, k: MemoryObject)
    requires Isolated(w) && s in w.key && o !in w.owner && v.binds == w.binds[s := w.binds[s][m := o]]
    requires x in v.binds && k in v.binds[x] && v.binds[x][k] == o
    ensures x == s && k == m
  {
  }

  function Unbound<S, O>(w: Epochs<S, O>, s: S, m: MemoryObject): Epochs<S, O>
    requires s in w.binds
  {
    w.(binds := w.binds[s := w.binds[s] - {m}])
  }

  lemma UnbindIsolated<S, O>(w: Epochs<S, O>, s: S, m: MemoryObject)
    requires Isolated(w) && s in w.key
    ensures Isolated(Unbound(w, s, m))
  {
    var v := Unbound(w, s, m);
    forall x, k | x in v.binds && k in v.binds[x] ensures Owned(v, x, k) {
      assert Owned(w, x, k);
    }
    forall x, k, y, n | x in v.binds && k in v.binds[x] && y in v.binds && n in v.binds[y] && v.binds[x][k] == v.binds[y][n]
      ensures Shared(v, x, k, y, n)
    {
      assert Shared(w, x, k, y, n);
    }
  }

  /** An object its space owns is bound nowhere else, although other spaces may
      have the same key. */
  lemma OwnedUnshared<S, O>(w: Epochs<S, O>, s: S, m: MemoryObject, t: S, n: MemoryObject)
    requires Isolated(w) && s in w.binds && m in w.binds[s] && t in w.binds && n in w.binds[t]
    requires w.binds[s][m] == w.binds[t][n] && w.owner[w.binds[s][m]] == w.key[s]
    ensures s == t && m == n
  {
    assert Shared(w, s, m, t, n);
  }

  // ----- what the spaces hold -----

  ghost function ViewOf<S, O>(w: Epochs<S, O>, s: S): map<MemoryObject, Cells>
    requires Isolated(w) && s in w.binds
  {
    map m | m in w.binds[s] :: assert Owned(w, s, m); w.cells[w.binds[s][m]]
  }

  lemma ForkView<S, O>(w: Epochs<S, O>, b: S, s: S, t: S)
    requires Isolated(w) && b in w.key && s !in w.key && Isolated(Forked(w, b, s)) && t in w.key
    ensures ViewOf(Forked(w, b, s), s) == ViewOf(w, b) && ViewOf(Forked(w, b, s), t) == ViewOf(w, t)
  {
  }

  lemma BindView<S, O>(w: Epochs<S, O>, s: S, m: MemoryObject, o: O, c: Cells, t: S)
    requires Isolated(w) && s in w.key && o !in w.owner && Isolated(Bound(w, s, m, o, c)) && t in w.key
    ensures ViewOf(Bound(w, s, m, o, c), t) == if t == s then ViewOf(w, s)[m := c] else ViewOf(w, t)
  {
    forall n | n in w.binds[t] ensures w.binds[t][n] != o {
      assert Owned(w, t, n);
    }
  }

  lemma UnbindView<S, O>(w: Epochs<S, O>, s: S, m: MemoryObject, t: S)
    requires Isolated(w) && s in w.key && Isolated(Unbound(w, s, m)) && t in w.key
    ensures ViewOf(Unbound(w, s, m), t) == if t == s then ViewOf(w, s) - {m} else ViewOf(w, t)
  {
  }

  /** Writing an owned object in place. */
  function Written<S, O>(w: Epochs<S, O>, o: O, c: Cells): Epochs<S, O> { w.(cells := w.cells[o := c]) }

  lemma WriteView<S, O>(w: Epochs<S, O>, s: S, m: MemoryObject, c: Cells, t: S)
    requires Isolated(w) && s in w.key && m in w.binds[s] && w.binds[s][m] in w.owner
    requires w.owner[w.binds[s][m]] == w.key[s] && t in w.key
    ensures Isolated(Written(w, w.binds[s][m], c))
    ensures ViewOf(Written(w, w.binds[s][m], c), t) == if t == s then ViewOf(w, s)[m := c] else ViewOf(w, t)
  {
    var o := w.binds[s][m];
    var v := Written(w, o, c);
    forall x, k | x in v.binds && k in v.binds[x] ensures Owned(v, x, k) {
      assert Owned(w, x, k);
    }
    forall x, k, y, n | x in v.binds && k in v.binds[x] && y in v.binds && n in v.binds[y] && v.binds[x][k] == v.binds[y][n]
      ensures Shared(v, x, k, y, n)
    {
      assert Shared(w, x, k, y, n);
    }
    forall n | n in w.binds[t] && w.binds[t][n] == o ensures t == s && n == m {
      OwnedUnshared(w, s, m, t, n);
    }
  }

  // ----- a tree of spaces -----

  datatype Command =
    | Fork(i: nat)
    | Bind(i: nat, m: MemoryObject, cells: Cells)
    | Unbind(i: nat, m: MemoryObject)
    | Write(i: nat, m: MemoryObject, cells: Cells)

  type Views = seq<map<MemoryObject, Cells>>

  /** A command can be carried out: the space exists, and so does the object
      written. */
  predicate Possible(c: Command, v: Views) {
    c.i < |v| && (c.Write? ==> c.m in v[c.i])
  }

  /** What a command does when every copy is made at once. */
  function Eager(c: Command, v: Views): (r: Views)
    requires Possible(c, v)
  {
    match c
    case Fork(i) => v + [v[i]]
    case Bind(i, m, cells) => v[i := v[i][m := cells]]
    case Unbind(i, m) => v[i := v[i] - {m}]
    case Write(i, m, cells) => v[i := v[i][m := cells]]
  }

  class World {
    var spaces: seq<AddressSpace>
    ghost var members: set<AddressSpace>
    ghost var pool: set<Object>

    constructor ()
      ensures Valid() && Seen() == [map[]]
    {
      var s := new AddressSpace();
      spaces, members, pool := [s], {s}, {};
    }

    ghost function Keys(): (m: map<AddressSpace, nat>)
      reads this`members, members
      ensures m.Keys == members && forall s :: s in members ==> m[s] == s.cowKey
    {
      map s | s in members :: s.cowKey
    }

    ghost function Bindings(): (m: map<AddressSpace, map<MemoryObject, Object>>)
      reads this`members, members
      ensures m.Keys == members && forall s :: s in members ==> m[s] == s.objects
    {
      map s | s in members :: s.objects
    }

    ghost function Owners(): (m: map<Object, nat>)
      reads this`pool, pool
      ensures m.Keys == pool && forall o :: o in pool ==> m[o] == o.copyOnWriteOwner
    {
      map o | o in pool :: o.copyOnWriteOwner
    }

    ghost function Contents(): (m: map<Object, Cells>)
      reads this`pool, pool
      ensures m.Keys == pool && forall o :: o in pool ==> m[o] == o.cells
    {
      map o | o in pool :: o.cells
    }

    ghost function Now(): Epochs<AddressSpace, Object>
      reads this, members, pool
    {
      Epochs(Keys(), Bindings(), Owners(), Contents())
    }

    ghost predicate Valid()
      reads this, members, pool
    {
      NoRepeats(spaces) && Elements(spaces) == members && Isolated(Now()) && forall o :: o in pool ==> !o.readOnly
    }

    /** What each space holds. */
    ghost function Seen(): (v: Views)
      requires Valid()
      reads this, members, pool
    {
      AllViews(Now(), spaces)
    }

    method ForkSpace(i: nat)
      requires Valid() && i < |spaces|
      modifies this, spaces[i]
      ensures Valid() && Seen() == Eager(Fork(i), old(Seen()))
      ensures fresh(members - old(members)) && pool == old(pool)
    {
      hide *;
      ghost var w, ss := Now(), spaces;
      ValidParts();
      var s := CopySpace(i);
      NoRepeatsMore(ss, s);
      ForkIsolated(w, ss[i], s);
      MakeValid(Forked(w, ss[i], s));
      ForkViews(w, ss, i, s);
    }

    method CopySpace(i: nat) returns (s: AddressSpace)
      requires i < |spaces| && spaces[i] in members
      modifies this`spaces, this`members, spaces[i]
      ensures fresh(s) && spaces == old(spaces) + [s] && members == old(members) + {s}
      ensures Now() == Forked(old(Now()), old(spaces)[i], s)
    {
      hide Keys, Bindings, Owners, Contents, NoRepeats;
      ghost var w := Now();
      var b := spaces[i];
      s := new AddressSpace.Copy(b);
      spaces, members := spaces + [s], members + {s};
      SpacesAre(w.key[b := b.cowKey][s := b.cowKey], w.binds[s := b.objects]);
      PoolIs(w.owner, w.cells);
    }

    lemma SpacesAre(key: map<AddressSpace, nat>, binds: map<AddressSpace, map<MemoryObject, Object>>)
      requires key.Keys == binds.Keys == members
      requires forall s :: s in members ==> key[s] == s.cowKey && binds[s] == s.objects
      ensures Keys() == key && Bindings() == binds
    {
    }

    lemma PoolIs(owner: map<Object, nat>, cells: map<Object, Cells>)
      requires owner.Keys == cells.Keys == pool && forall o :: o in pool ==> owner[o] == o.copyOnWriteOwner && cells[o] == o.cells
      ensures Owners() == owner && Contents() == cells
    {
    }

    /** Bind a new object with given contents. */
    method BindNew(i: nat, m: MemoryObject, cells: Cells)
      requires Valid() && i < |spaces|
      modifies this, spaces[i]
      ensures Valid() && Seen() == Eager(Bind(i, m, cells), old(Seen()))
      ensures members == old(members) && fresh(pool - old(pool))
    {
      hide *;
      ghost var w := Now();
      ValidParts();
      var o := BindFresh(i, m, cells);
      BindIsolated(w, spaces[i], m, o, cells);
      MakeValid(Bound(w, spaces[i], m, o, cells));
      BindViews(w, spaces, i, m, o, cells);
    }

    method BindFresh(i: nat, m: MemoryObject, cells: Cells) returns (o: Object)
      requires i < |spaces| && spaces[i] in members
      modifies this`pool, spaces[i]
      ensures fresh(o) && !o.readOnly && pool == old(pool) + {o} && members == old(members) && spaces == old(spaces)
      ensures Now() == Bound(old(Now()), spaces[i], m, o, cells)
    {
      hide Keys, Bindings, Owners, Contents;
      ghost var w := Now();
      var s := spaces[i];
      o := new Object(cells);
      s.BindObject(m, o);
      pool := pool + {o};
      SpacesAre(w.key, w.binds[s := s.objects]);
      PoolIs(w.owner[o := s.cowKey], w.cells[o := cells]);
    }

    method UnbindAt(i: nat, m: MemoryObject)
      requires Valid() && i < |spaces|
      modifies spaces[i]
      ensures Valid() && Seen() == Eager(Unbind(i, m), old(Seen()))
    {
      hide *;
      ghost var w := Now();
      ValidParts();
      Drop(i, m);
      UnbindIsolated(w, spaces[i], m);
      MakeValid(Unbound(w, spaces[i], m));
      UnbindViews(w, spaces, i, m);
    }

    method Drop(i: nat, m: MemoryObject)
      requires i < |spaces| && spaces[i] in members
      modifies spaces[i]
      ensures Now() == Unbound(old(Now()), spaces[i], m)
    {
      hide Keys, Bindings, Owners, Contents;
      ghost var w := Now();
      var s := spaces[i];
      s.UnbindObject(m);
      SpacesAre(w.key, w.binds[s := s.objects]);
    }

    /** `getWriteable` and what it does to ownership. */
    method Obtain(i: nat, m: MemoryObject) returns (wos: Object)
      requires i < |spaces| && spaces[i] in members && m in spaces[i].objects && !spaces[i].objects[m].readOnly
      requires spaces[i].objects[m] in pool
      modifies this`pool, spaces[i]
      ensures members == old(members) && spaces == old(spaces) && spaces[i].cowKey == old(spaces[i].cowKey)
      ensures m in spaces[i].objects && spaces[i].objects[m] == wos && wos in pool && wos.copyOnWriteOwner == spaces[i].cowKey
      ensures wos == old(spaces[i].objects[m]) ==> Now() == old(Now()) && pool == old(pool)
      ensures wos != old(spaces[i].objects[m]) ==>
                fresh(wos) && pool == old(pool) + {wos} && !wos.readOnly &&
                Now() == Bound(old(Now()), spaces[i], m, wos, old(spaces[i].objects[m].cells))
    {
      hide Keys, Bindings, Owners, Contents;
      ghost var w := Now();
      var s := spaces[i];
      ghost var os := s.objects[m];
      wos := s.GetWriteable(m, s.objects[m]);
      if wos != os {
        pool := pool + {wos};
        SpacesAre(w.key, w.binds[s := s.objects]);
        PoolIs(w.owner[wos := s.cowKey], w.cells[wos := os.cells]);
      } else {
        assert s.objects == old(s.objects);
        SpacesAre(w.key, w.binds);
      }
    }

    method SetCells(o: Object, cells: Cells)
      requires o in pool
      modifies o`cells
      ensures Now() == Written(old(Now()), o, cells)
    {
      hide Keys, Bindings, Owners, Contents;
      ghost var w := Now();
      o.cells := cells;
      PoolIs(w.owner, w.cells[o := cells]);
      SpacesAre(w.key, w.binds);
    }

    lemma BoundObject(i: nat, m: MemoryObject)
      requires Valid() && i < |spaces| && m in spaces[i].objects
      ensures spaces[i].objects[m] in pool && !spaces[i].objects[m].readOnly && spaces[i] in members
      ensures Now().binds[spaces[i]] == spaces[i].objects && Now().key[spaces[i]] == spaces[i].cowKey
      ensures Now().cells[spaces[i].objects[m]] == spaces[i].objects[m].cells
      ensures Now().owner[spaces[i].objects[m]] == spaces[i].objects[m].copyOnWriteOwner
    {
      assert Owned(Now(), spaces[i], m);
    }

    lemma ValidParts()
      requires Valid()
      ensures NoRepeats(spaces) && Elements(spaces) == members && Isolated(Now())
      ensures (forall o :: o in pool ==> !o.readOnly) && forall s :: s in spaces ==> s in members
      ensures Now().key.Keys == Now().binds.Keys == members && Now().owner.Keys == pool && Now().cells.Keys == pool
      ensures Seen() == AllViews(Now(), spaces)
    {
    }

    lemma MakeValid(w: Epochs<AddressSpace, Object>)
      requires NoRepeats(spaces) && Elements(spaces) == members && Now() == w && Isolated(w)
      requires forall o :: o in pool ==> !o.readOnly
      ensures Valid() && (forall s :: s in spaces ==> s in w.binds) && Seen() == AllViews(w, spaces)
    {
    }

    /** `getWriteable` changes no view. */
    method MakeWriteable(i: nat, m: MemoryObject) returns (wos: Object)
      requires Valid() && i < |spaces| && m in spaces[i].objects
      modifies this`pool, spaces[i]
      ensures Valid() && Seen() == old(Seen()) && spaces == old(spaces)
      ensures members == old(members) && fresh(pool - old(pool))
      ensures m in spaces[i].objects && spaces[i].objects[m] == wos && wos.copyOnWriteOwner == spaces[i].cowKey
      ensures wos == old(spaces[i].objects[m]) || fresh(wos)
    {
      hide *;
      ghost var w := Now();
      ValidParts();
      BoundObject(i, m);
      ghost var os := spaces[i].objects[m];
      ghost var c := os.cells;
      wos := Obtain(i, m);
      if wos == os {
        MakeValid(w);
      } else {
        BindIsolated(w, spaces[i], m, wos, c);
        MakeValid(Bound(w, spaces[i], m, wos, c));
        BindNothing(w, spaces, i, m, wos, c);
      }
    }

    /** A write through `getWriteable` is seen at that object of that space and
        nowhere else. */
    method WriteAt(i: nat, m: MemoryObject, cells: Cells)
      requires Valid() && i < |spaces| && m in spaces[i].objects
      modifies this`pool, spaces[i], spaces[i].objects[m]
      ensures Valid() && Possible(Write(i, m, cells), old(Seen()))
      ensures Seen() == Eager(Write(i, m, cells), old(Seen()))
      ensures members == old(members) && fresh(pool - old(pool))
    {
      hide *;
      var wos := MakeWriteable(i, m);
      ghost var w := Now();
      ValidParts();
      BoundObject(i, m);
      WriteViews(w, spaces, i, m, cells);
      SetCells(wos, cells);
      MakeValid(Written(w, wos, cells));
    }

    method Step(c: Command)
      requires Valid() && Possible(c, Seen())
      modifies this, members, pool
      ensures Valid() && Seen() == Eager(c, old(Seen()))
      ensures fresh(members - old(members)) && fresh(pool - old(pool))
    {
      hide *;
      CanDo(c);
      match c
      case Fork(i) => ForkSpace(i);
      case Bind(i, m, cells) => BindNew(i, m, cells);
      case Unbind(i, m) => UnbindAt(i, m);
      case Write(i, m, cells) => WriteAt(i, m, cells);
    }

    lemma CanDo(c: Command)
      requires Valid() && Possible(c, Seen())
      ensures c.i < |spaces| && spaces[c.i] in members
      ensures c.Write? ==> c.m in spaces[c.i].objects && spaces[c.i].objects[c.m] in pool
    {
      ValidParts();
      if c.Write? {
        ViewKeys(Now(), spaces[c.i]);
        BoundObject(c.i, c.m);
      }
    }

    /** Over any tree of copies and any interleaving of commands, every space holds
        what it would hold had each copy been made in full at once. */
    method Run(cs: seq<Command>)
      requires Valid() && AllPossible(cs, Seen())
      modifies this, members, pool
      ensures Valid() && Seen() == EagerRun(cs, old(Seen()))
    {
      hide *;
      RunNone(cs, Seen());
      for k := 0 to |cs|
        invariant Valid() && fresh(members - old(members)) && fresh(pool - old(pool))
        invariant AllPossible(cs[k..], Seen()) && EagerRun(cs[k..], Seen()) == EagerRun(cs, old(Seen()))
      {
        RunNext(cs, k, Seen());
        Step(cs[k]);
      }
      RunDone(cs, Seen());
    }
  }

  predicate AllPossible(cs: seq<Command>, v: Views) {
    cs != [] ==> Possible(cs[0], v) && AllPossible(cs[1..], Eager(cs[0], v))
  }

  function EagerRun(cs: seq<Command>, v: Views): Views
    requires AllPossible(cs, v)
  {
    if cs == [] then v else EagerRun(cs[1..], Eager(cs[0], v))
  }

  lemma RunNone(cs: seq<Command>, v: Views)
    requires AllPossible(cs, v)
    ensures cs[0..] == cs
  {
  }

  lemma RunNext(cs: seq<Command>, k: nat, v: Views)
    requires k < |cs| && AllPossible(cs[k..], v)
    ensures Possible(cs[k], v) && AllPossible(cs[k + 1..], Eager(cs[k], v))
    ensures EagerRun(cs[k..], v) == EagerRun(cs[k + 1..], Eager(cs[k], v))
  {
    hide Eager;
    assert cs[k..][1..] == cs[k + 1..];
  }

  lemma RunDone(cs: seq<Command>, v: Views)
    requires AllPossible(cs[|cs|..], v)
    ensures EagerRun(cs[|cs|..], v) == v
  {
  }

  ghost function AllViews<S, O>(w: Epochs<S, O>, spaces: seq<S>): (v: Views)
    requires Isolated(w) && forall s :: s in spaces ==> s in w.binds
    ensures |v| == |spaces| && forall i :: 0 <= i < |v| ==> v[i] == ViewOf(w, spaces[i])
  {
    if spaces == [] then [] else AllViews(w, spaces[..|spaces| - 1]) + [ViewOf(w, spaces[|spaces| - 1])]
  }

  lemma ForkViews<S, O>(w: Epochs<S, O>, spaces: seq<S>, i: nat, s: S)
    requires Isolated(w) && i < |spaces| && (forall t :: t in spaces ==> t in w.key)
    requires s !in w.key && Isolated(Forked(w, spaces[i], s))
    ensures AllViews(Forked(w, spaces[i], s), spaces + [s]) == Eager(Fork(i), AllViews(w, spaces))
  {
    hide ViewOf, AllViews;
    var v := Forked(w, spaces[i], s);
    forall k | 0 <= k < |spaces| ensures ViewOf(v, spaces[k]) == ViewOf(w, spaces[k]) {
      ForkView(w, spaces[i], s, spaces[k]);
    }
    ForkView(w, spaces[i], s, spaces[i]);
  }

  lemma NoRepeatsMore<T>(q: seq<T>, x: T)
    requires NoRepeats(q) && x !in q
    ensures NoRepeats(q + [x]) && Elements(q + [x]) == Elements(q) + {x}
  {
  }

  /** Views that differ in one space. */
  lemma OneViewChanged<S, O>(w: Epochs<S, O>, v: Epochs<S, O>, spaces: seq<S>, i: nat, view: map<MemoryObject, Cells>)
    requires Isolated(w) && Isolated(v) && i < |spaces| && NoRepeats(spaces)
    requires forall t :: t in spaces ==> t in w.binds && t in v.binds
    requires forall t :: t in spaces ==> ViewOf(v, t) == if t == spaces[i] then view else ViewOf(w, t)
    ensures AllViews(v, spaces) == AllViews(w, spaces)[i := view]
  {
    hide ViewOf, AllViews, Isolated;
  }

  lemma BindViews<S, O>(w: Epochs<S, O>, spaces: seq<S>, i: nat, m: MemoryObject, o: O, c: Cells)
    requires Isolated(w) && i < |spaces| && NoRepeats(spaces) && (forall t :: t in spaces ==> t in w.key)
    requires o !in w.owner && Isolated(Bound(w, spaces[i], m, o, c))
    ensures AllViews(Bound(w, spaces[i], m, o, c), spaces) == Eager(Bind(i, m, c), AllViews(w, spaces))
  {
    hide ViewOf, AllViews;
    forall t | t in spaces
      ensures ViewOf(Bound(w, spaces[i], m, o, c), t) == if t == spaces[i] then ViewOf(w, spaces[i])[m := c] else ViewOf(w, t)
    {
      BindView(w, spaces[i], m, o, c, t);
    }
    OneViewChanged(w, Bound(w, spaces[i], m, o, c), spaces, i, ViewOf(w, spaces[i])[m := c]);
  }

  lemma UnbindViews<S, O>(w: Epochs<S, O>, spaces: seq<S>, i: nat, m: MemoryObject)
    requires Isolated(w) && i < |spaces| && NoRepeats(spaces) && (forall t :: t in spaces ==> t in w.key)
    requires Isolated(Unbound(w, spaces[i], m))
    ensures AllViews(Unbound(w, spaces[i], m), spaces) == Eager(Unbind(i, m), AllViews(w, spaces))
  {
    hide ViewOf, AllViews;
    forall t | t in spaces
      ensures ViewOf(Unbound(w, spaces[i], m), t) == if t == spaces[i] then ViewOf(w, spaces[i]) - {m} else ViewOf(w, t)
    {
      UnbindView(w, spaces[i], m, t);
    }
    OneViewChanged(w, Unbound(w, spaces[i], m), spaces, i, ViewOf(w, spaces[i]) - {m});
  }

  lemma WriteViews<S, O>(w: Epochs<S, O>, spaces: seq<S>, i: nat, m: MemoryObject, c: Cells)
    requires Isolated(w) && i < |spaces| && NoRepeats(spaces) && (forall t :: t in spaces ==> t in w.key)
    requires m in w.binds[spaces[i]] && w.binds[spaces[i]][m] in w.owner
    requires w.owner[w.binds[spaces[i]][m]] == w.key[spaces[i]]
    ensures Possible(Write(i, m, c), AllViews(w, spaces))
    ensures var v := Written(w, w.binds[spaces[i]][m], c);
            Isolated(v) && AllViews(v, spaces) == Eager(Write(i, m, c), AllViews(w, spaces))
  {
    hide ViewOf, AllViews;
    var v := Written(w, w.binds[spaces[i]][m], c);
    forall t | t in spaces
      ensures Isolated(v) && ViewOf(v, t) == if t == spaces[i] then ViewOf(w, spaces[i])[m := c] else ViewOf(w, t)
    {
      WriteView(w, spaces[i], m, c, t);
    }
    WriteView(w, spaces[i], m, c, spaces[i]);
    OneViewChanged(w, v, spaces, i, ViewOf(w, spaces[i])[m := c]);
    ViewKeys(w, spaces[i]);
  }

  lemma ViewKeys<S, O>(w: Epochs<S, O>, s: S)
    requires Isolated(w) && s in w.binds
    ensures ViewOf(w, s).Keys == w.binds[s].Keys
  {
  }

  lemma SameView<S, O>(w: Epochs<S, O>, spaces: seq<S>, i: nat, m: MemoryObject)
    requires Isolated(w) && i < |spaces| && (forall t :: t in spaces ==> t in w.binds) && m in w.binds[spaces[i]]
    requires w.binds[spaces[i]][m] in w.cells
    ensures var v := AllViews(w, spaces); v[i := v[i][m := w.cells[w.binds[spaces[i]][m]]]] == v
  {
    hide AllViews;
    var v := AllViews(w, spaces);
    assert v[i][m := w.cells[w.binds[spaces[i]][m]]] == v[i];
  }

  /** Binding a copy of what is bound changes no view. */
  lemma BindNothing<S, O>(w: Epochs<S, O>, spaces: seq<S>, i: nat, m: MemoryObject, o: O, c: Cells)
    requires Isolated(w) && i < |spaces| && NoRepeats(spaces) && (forall t :: t in spaces ==> t in w.key)
    requires o !in w.owner && Isolated(Bound(w, spaces[i], m, o, c))
    requires m in w.binds[spaces[i]] && w.binds[spaces[i]][m] in w.cells && w.cells[w.binds[spaces[i]][m]] == c
    ensures AllViews(Bound(w, spaces[i], m, o, c), spaces) == AllViews(w, spaces)
  {
    hide ViewOf, AllViews, Bound;
    BindViews(w, spaces, i, m, o, c);
    SameView(w, spaces, i, m);
  }
}
