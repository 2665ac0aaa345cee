/** The process tree (lib/Core/PTree.cpp) and the random descent over it
    (`RandomPathSearcher::selectState` in lib/Core/Searcher.cpp). */
module ProcessTree {
  import opened Bits

  /** An execution state, as far as the tree is concerned. */
  class State {
    var node: Node?

    constructor ()
      ensures node == null
    {
      node := null;
    }
  }

  class Node {
    var parent: Node?
    var left: Node?
    var right: Node?
    var state: State?

    constructor (parent: Node?, state: State)
      modifies state
      ensures this.parent == parent && left == null && right == null && this.state == state
      ensures state.node == this
    {
      this.parent, left, right, this.state := parent, null, null, state;
      new;
      state.node := this;
    }

    method Split(leftState: State, rightState: State)
      requires IsLeaf() && leftState != rightState
      modifies this, leftState, rightState
      ensures left != null && right != null && left != right && fresh(left) && fresh(right)
      ensures state == null && parent == old(parent)
      ensures leftState.node == left && rightState.node == right
      ensures left.View() == Links(this, null, null, leftState) && right.View() == Links(this, null, null, rightState)
    {
      state := null;
      left := new Node(this, leftState);
      right := new Node(this, rightState);
    }

    /** Forget a child. */
    method Drop(child: Node)
      requires child == left || child == right
      modifies this
      ensures View() == if child == old(left) then old(View()).(left := null) else old(View()).(right := null)
    {
      if child == left {
        left := null;
      } else {
        right := null;
      }
    }

    predicate IsLeaf()
      reads this
    {
      left == null && right == null
    }

    ghost function View(): Links
      reads this
    {
      Links(parent, left, right, state)
    }
  }

  // ----- the tree as a value -----

  datatype Links = Links(parent: Node?, left: Node?, right: Node?, state: State?) {
    predicate IsLeaf() { left == null && right == null }
  }

  /** The links of the nodes of a tree and their distances from the root. */
  datatype Shape = Shape(root: Node, links: map<Node, Links>, depth: map<Node, nat>) {
    ghost predicate Valid() {
      && root in links && links[root].parent == null
      && links.Keys == depth.Keys
      && (forall n :: n in links ==> Linked(n))
    }

    ghost predicate Linked(n: Node)
      requires n in links && links.Keys == depth.Keys
    {
      && (depth[n] == 0 <==> n == root)
      && (n != root ==> Child(links[n].parent, n))
      && (links[n].left != null ==> Parent(n, links[n].left) && links[n].left != links[n].right)
      && (links[n].right != null ==> Parent(n, links[n].right))
    }

    /** `c` points up to `n`, one level further from the root. */
    ghost predicate Parent(n: Node, c: Node?)
      requires n in links && links.Keys == depth.Keys
    {
      c in links && links[c].parent == n && depth[c] == depth[n] + 1
    }

    ghost predicate Child(p: Node?, n: Node) {
      p in links && (n == links[p].left || n == links[p].right)
    }

    /** The nodes further from the root than `n`. */
    ghost function Below(n: Node): set<Node>
      requires n in depth
    {
      set m | m in depth && depth[m] > depth[n]
    }

    /** The shape with two leaves below the leaf `n`. */
    ghost function Split(n: Node, l: Node, r: Node, leftState: State, rightState: State): Shape
      requires n in links && n in depth
    {
      Shape(root,
            links[n := Links(links[n].parent, l, r, null)]
                 [l := Links(n, null, null, leftState)][r := Links(n, null, null, rightState)],
            depth[l := depth[n] + 1][r := depth[n] + 1])
    }

    /** The shape without the leaf `n`, which is not the root. */
    ghost function Without(n: Node): Shape
      requires n in links && links[n].parent in links
    {
      var p: Node := links[n].parent;
      var up := if n == links[p].left then links[p].(left := null) else links[p].(right := null);
      Shape(root, links[p := up] - {n}, depth - {n})
    }
  }

  /** Leaves and live states point at each other, and inner nodes have no state;
      a childless node `hole` that is about to go is not counted. */
  ghost predicate Labelled(links: map<Node, Links>, homes: map<State, Node?>, hole: Node?) {
    && (forall n :: n in links && n != hole ==> NodeLabelled(links[n], homes, n))
    && (forall s :: s in homes ==> StateHoused(links, homes[s], s) && homes[s] != hole)
  }

  ghost predicate NodeLabelled(l: Links, homes: map<State, Node?>, n: Node) {
    if l.IsLeaf() then l.state in homes && homes[l.state] == n else l.state == null
  }

  ghost predicate StateHoused(links: map<Node, Links>, home: Node?, s: State) {
    home in links && links[home].state == s
  }

  lemma SplitValid(t: Shape, n: Node, l: Node, r: Node, leftState: State, rightState: State)
    requires t.Valid() && n in t.links && t.links[n].IsLeaf() && l !in t.links && r !in t.links && l != r
    ensures t.Split(n, l, r, leftState, rightState).Valid()
  {
    var u := t.Split(n, l, r, leftState, rightState);
    forall m | m in u.links ensures u.Linked(m) {
      if m in t.links {
        assert t.Linked(m);
        SplitLinks(t, n, l, r, leftState, rightState, m);
      } else {
        assert t.Linked(n);
      }
    }
  }

  lemma SplitLinks(t: Shape, n: Node, l: Node, r: Node, leftState: State, rightState: State, m: Node)
    requires t.Valid() && n in t.links && t.links[n].IsLeaf() && l !in t.links && r !in t.links && l != r
    requires m in t.links && t.Linked(m)
    ensures var u := t.Split(n, l, r, leftState, rightState); u.links.Keys == u.depth.Keys && u.Linked(m)
  {
  }

  lemma SplitLabelled(t: Shape, homes: map<State, Node?>, n: Node, l: Node, r: Node, leftState: State, rightState: State)
    requires t.Valid() && n in t.links && t.links[n].IsLeaf() && l !in t.links && r !in t.links && l != r
    requires Labelled(t.links, homes, null) && leftState != rightState
    requires leftState !in homes || leftState == t.links[n].state
    requires rightState !in homes || rightState == t.links[n].state
    ensures Labelled(t.Split(n, l, r, leftState, rightState).links,
                     (homes - {t.links[n].state})[leftState := l][rightState := r], null)
  {
    var u := t.Split(n, l, r, leftState, rightState);
    var now := (homes - {t.links[n].state})[leftState := l][rightState := r];
    assert NodeLabelled(t.links[n], homes, n);
    forall m | m in u.links ensures NodeLabelled(u.links[m], now, m) {
      if m in t.links && m != n {
        assert NodeLabelled(t.links[m], homes, m);
      }
    }
    forall s | s in now ensures StateHoused(u.links, now[s], s) {
      if s != leftState && s != rightState {
        assert StateHoused(t.links, homes[s], s);
      }
    }
  }

  lemma WithoutValid(t: Shape, n: Node)
    requires t.Valid() && n in t.links && t.links[n].IsLeaf() && n != t.root
    ensures t.links[n].parent in t.links && t.Without(n).Valid()
  {
    assert t.Linked(n);
    var u := t.Without(n);
    forall m | m in u.links ensures u.Linked(m) {
      assert t.Linked(m);
      WithoutLinks(t, n, m);
    }
  }

  lemma WithoutLinks(t: Shape, n: Node, m: Node)
    requires t.Valid() && n in t.links && t.links[n].IsLeaf() && n != t.root && t.Linked(n)
    requires m in t.links && m != n && t.Linked(m)
    ensures var u := t.Without(n); u.links.Keys == u.depth.Keys && u.Linked(m)
  {
    var p: Node := t.links[n].parent;
    assert t.Linked(p);
  }

  /** Taking out the hole moves it up, when its parent has no other child. */
  lemma WithoutLabelled(t: Shape, homes: map<State, Node?>, n: Node)
    requires t.Valid() && n in t.links && t.links[n].IsLeaf() && n != t.root && Labelled(t.links, homes, n)
    ensures t.links[n].parent in t.links
    ensures var p: Node := t.links[n].parent;
            p in t.Without(n).links && Labelled(t.Without(n).links, homes, if t.Without(n).links[p].IsLeaf() then p else null)
  {
    assert t.Linked(n);
    var p: Node := t.links[n].parent;
    assert t.Linked(p) && p != n;
    assert NodeLabelled(t.links[p], homes, p);
    var u := t.Without(n);
    forall m | m in u.links && m != p ensures NodeLabelled(u.links[m], homes, m) {
      assert NodeLabelled(t.links[m], homes, m);
    }
    forall s | s in homes ensures StateHoused(u.links, homes[s], s) && homes[s] != p {
      assert StateHoused(t.links, homes[s], s);
    }
  }

  /** A root without children has no node below it. */
  lemma {:induction false} RootHasChild(t: Shape, n: Node)
    requires t.Valid() && n in t.links && n != t.root
    ensures !t.links[t.root].IsLeaf()
    decreases t.depth[n]
  {
    assert t.Linked(n);
    var p: Node := t.links[n].parent;
    assert t.Linked(p);
    if p != t.root {
      RootHasChild(t, p);
    }
  }

  lemma NotRoot(t: Shape, n: Node)
    requires t.Valid() && n in t.links && t.links[n].parent != null
    ensures n != t.root && t.links[n].parent in t.links && t.links[n].parent in t.depth
    ensures n in t.depth && t.depth[t.links[n].parent] < t.depth[n]
    ensures n == t.links[t.links[n].parent].left || n == t.links[t.links[n].parent].right
  {
    assert t.Linked(n);
    assert t.Linked(t.links[n].parent);
  }

  lemma HoleIsRoot(t: Shape, n: Node)
    requires t.Valid() && n in t.links && t.links[n].parent == null
    ensures n == t.root
  {
    assert t.Linked(n);
  }

  lemma BelowChild(t: Shape, n: Node, c: Node)
    requires t.Valid() && n in t.links && c in t.links && t.Linked(n) && (c == t.links[n].left || c == t.links[n].right)
    ensures t.Below(c) < t.Below(n)
  {
    assert c in t.Below(n) && c !in t.Below(c);
  }

  lemma {:induction false} LeafBelow(t: Shape, n: Node) returns (m: Node)
    requires t.Valid() && n in t.links
    ensures m in t.links && t.links[m].IsLeaf()
    decreases t.Below(n)
  {
    if t.links[n].IsLeaf() {
      m := n;
    } else {
      assert t.Linked(n);
      var c: Node := if t.links[n].left != null then t.links[n].left else t.links[n].right;
      BelowChild(t, n, c);
      m := LeafBelow(t, c);
    }
  }

  lemma HoleGone(t: Shape, homes: map<State, Node?>)
    requires t.Valid() && Labelled(t.links, homes, t.root) && t.links[t.root].IsLeaf()
    ensures homes == map[]
  {
    if s :| s in homes {
      assert StateHoused(t.links, homes[s], s);
      RootHasChild(t, homes[s]);
    }
  }

  lemma WithoutState(links: map<Node, Links>, homes: map<State, Node?>, n: Node)
    requires Labelled(links, homes, null) && n in links && links[n].IsLeaf()
    ensures links[n].state in homes && Labelled(links, homes - {links[n].state}, n)
  {
    assert NodeLabelled(links[n], homes, n);
    var rest := homes - {links[n].state};
    forall m | m in links && m != n ensures NodeLabelled(links[m], rest, m) {
      assert NodeLabelled(links[m], homes, m);
    }
    forall s | s in rest ensures StateHoused(links, rest[s], s) && rest[s] != n {
      assert StateHoused(links, homes[s], s);
    }
  }

  // ----- the tree -----

  class Tree {
    const root: Node
    /** The nodes reachable from the root with their depths, and the states at the
        leaves. */
    ghost var depth: map<Node, nat>
    ghost var live: set<State>

    ghost function Nodes(): set<Node>
      reads this`depth
    {
      depth.Keys
    }

    ghost function View(): Shape
      reads this`depth, Nodes()
    {
      Shape(root, map n | n in depth :: n.View(), depth)
    }

    ghost function Homes(): map<State, Node?>
      reads this`live, live
    {
      map s | s in live :: s.node
    }

    ghost predicate Valid()
      reads this, Nodes(), live
    {
      View().Valid() && Labelled(View().links, Homes(), null)
    }

    constructor (state: State)
      modifies state
      ensures Valid() && live == {state} && fresh(Nodes())
    {
      var n := new Node(null, state);
      root, depth, live := n, map[n := 0], {state};
      new;
      assert View().Linked(n);
      assert NodeLabelled(View().links[n], Homes(), n);
      assert StateHoused(View().links, n, state);
    }

    /** A leaf becomes an inner node with a leaf for each of the two states. */
    method Attach(node: Node, leftState: State, rightState: State)
      requires Valid() && node in Nodes() && node.IsLeaf()
      requires leftState != rightState
      requires leftState !in live || leftState == node.state
      requires rightState !in live || rightState == node.state
      modifies this, node, leftState, rightState
      ensures Valid() && live == old(live) - {old(node.state)} + {leftState, rightState}
      ensures node.left != null && node.right != null && fresh(node.left) && fresh(node.right)
      ensures Nodes() == old(Nodes()) + {node.left, node.right}
      ensures leftState.node == node.left && rightState.node == node.right
    {
      hide *;
      Unfold();
      UnfoldNode(node);
      ghost var before, homes := View(), Homes();
      node.Split(leftState, rightState);
      ghost var l: Node, r: Node := node.left, node.right;
      live := live - {old(node.state)} + {leftState, rightState};
      depth := depth[l := depth[node] + 1][r := depth[node] + 1];
      SplitValid(before, node, l, r, leftState, rightState);
      SplitLabelled(before, homes, node, l, r, leftState, rightState);
      assert forall m :: m in before.links && m != node ==> m.View() == before.links[m];
      UnfoldNode(node);
      assert forall s :: s in homes && s != leftState && s != rightState ==> s.node == homes[s];
      SplitView(before, homes, node, l, r, leftState, rightState);
      Unfold();
    }

    lemma Unfold()
      ensures Valid() <==> View().Valid() && Labelled(View().links, Homes(), null)
      ensures View().root == root && View().depth == depth && View().links.Keys == depth.Keys && Nodes() == depth.Keys
      ensures forall m :: m in depth ==> View().links[m] == m.View()
      ensures Homes().Keys == live && forall s :: s in live ==> Homes()[s] == s.node
    {
    }

    static lemma UnfoldNode(n: Node)
      ensures n.View() == Links(n.parent, n.left, n.right, n.state) && n.IsLeaf() == n.View().IsLeaf()
    {
    }

    lemma SplitView(t: Shape, homes: map<State, Node?>, n: Node, l: Node, r: Node, leftState: State, rightState: State)
      requires n in t.links && n in t.depth && l !in t.links && r !in t.links && l != r
      requires leftState != rightState && t.root == root
      requires t.links.Keys == t.depth.Keys && depth == t.depth[l := t.depth[n] + 1][r := t.depth[n] + 1]
      requires live == homes.Keys - {t.links[n].state} + {leftState, rightState}
      requires forall m :: m in t.links && m != n ==> m.View() == t.links[m]
      requires n.View() == Links(t.links[n].parent, l, r, null)
      requires l.View() == Links(n, null, null, leftState) && r.View() == Links(n, null, null, rightState)
      requires leftState.node == l && rightState.node == r
      requires forall s :: s in homes && s != leftState && s != rightState ==> s.node == homes[s]
      ensures View() == t.Split(n, l, r, leftState, rightState)
      ensures Homes() == (homes - {t.links[n].state})[leftState := l][rightState := r]
    {
      assert View().links == t.Split(n, l, r, leftState, rightState).links;
    }

    /** One turn of the loop of `remove`: unlink a childless node. */
    method RemoveOne(n: Node) returns (p: Node?)
      requires n in Nodes() && n.IsLeaf() && View().Valid() && Labelled(View().links, Homes(), n)
      modifies this`depth, Nodes()
      ensures p == null ==> live == {} && root.IsLeaf()
      ensures Nodes() <= old(Nodes())
      ensures p != null ==> p in Nodes() && old(p in Nodes()) && depth[p] < old(depth[n])
      ensures p != null ==> View().Valid() && Labelled(View().links, Homes(), if p.IsLeaf() then p else null)
    {
      hide *;
      Unfold();
      UnfoldNode(n);
      ghost var before, homes := View(), Homes();
      p := n.parent;
      if p == null {
        HoleIsRoot(before, n);
        HoleGone(before, homes);
      } else {
        NotRoot(before, n);
        WithoutValid(before, n);
        WithoutLabelled(before, homes, n);
        UnfoldNode(p);
        p.Drop(n);
        depth := depth - {n};
        UnfoldNode(p);
        assert forall m :: m in before.links && m != p ==> m.View() == before.links[m];
        assert forall s :: s in homes ==> s.node == homes[s];
        WithoutView(before, homes, n, p);
        Unfold();
      }
    }

    lemma WithoutView(t: Shape, homes: map<State, Node?>, n: Node, p: Node)
      requires n in t.links && p in t.links && n != p && t.links[n].parent == p && t.root == root
      requires t.links.Keys == t.depth.Keys && depth == t.depth - {n} && live == homes.Keys
      requires p.View() == if n == t.links[p].left then t.links[p].(left := null) else t.links[p].(right := null)
      requires forall m :: m in t.links && m != p ==> m.View() == t.links[m]
      requires forall s :: s in homes ==> s.node == homes[s]
      ensures View() == t.Without(n) && Homes() == homes
    {
      assert View().links == t.Without(n).links;
    }

    /** A leaf goes, and every ancestor that is left without a child. */
    method Remove(node: Node)
      requires Valid() && node in Nodes() && node.IsLeaf()
      modifies this, Nodes()
      ensures live == old(live) - {old(node.state)} && Nodes() <= old(Nodes())
      ensures live != {} ==> Valid()
      ensures live == {} ==> root.IsLeaf()
    {
      hide *;
      Unfold();
      UnfoldNode(node);
      var n: Node := node;
      ghost var homes := Homes();
      WithoutState(View().links, homes, node);
      live := live - {node.state};
      Unfold();
      assert Homes() == homes - {old(node.state)};
      while true
        invariant n in depth && n in Nodes() && n.IsLeaf()
        invariant View().Valid() && Labelled(View().links, Homes(), n)
        invariant Nodes() <= old(Nodes()) && live == old(live) - {old(node.state)}
        decreases depth[n]
      {
        Unfold();
        var up := RemoveOne(n);
        Unfold();
        if up == null || !up.IsLeaf() {
          if up != null {
            SomeLive();
          }
          break;
        }
        n := up;
      }
    }

    /** What `Valid` promises: leaves and live states correspond one to one, and an
        inner node has no state and at least one child. */
    lemma Bijection(n: Node, s: State)
      requires Valid()
      ensures s in live ==> s.node != null && s.node in Nodes() && s.node.IsLeaf() && s.node.state == s
      ensures n in Nodes() && n.IsLeaf() ==> n.state != null && n.state in live && n.state.node == n
      ensures n in Nodes() && !n.IsLeaf() ==> n.state == null && (n.left != null || n.right != null)
    {
      if s in live {
        assert StateHoused(View().links, Homes()[s], s);
        assert NodeLabelled(View().links[s.node], Homes(), s.node);
      }
      if n in Nodes() {
        assert NodeLabelled(View().links[n], Homes(), n);
      }
    }

    lemma SomeLive()
      requires Valid()
      ensures live != {}
    {
      var n := LeafBelow(View(), root);
      assert NodeLabelled(View().links[n], Homes(), n);
    }

    // ----- the random descent -----

    /** Where the descent from `n` ends, given the results of the coin tosses from
        the `k`th on. */
    ghost function Pick(n: Node, coins: nat -> bool, k: nat): State
      reads this, Nodes(), live
      requires Valid() && n in Nodes()
      decreases Deeper(n)
    {
      if n.state != null then n.state
      else
        assert View().Linked(n);
        assert NodeLabelled(View().links[n], Homes(), n);
        BelowChild(View(), n, if n.left == null then n.right else n.left);
        if n.left == null then Pick(n.right, coins, k)
        else if n.right == null then Pick(n.left, coins, k)
        else Pick(if coins(k) then n.left else n.right, coins, k + 1)
    }

    lemma Rooted()
      requires Valid()
      ensures root in Nodes()
    {
    }

    ghost function Deeper(n: Node): set<Node>
      reads this`depth, Nodes()
      requires n in Nodes()
    {
      View().Below(n)
    }

    /** The state a stream of random words selects. */
    ghost function Selected(random: nat -> Word): State
      reads this, Nodes(), live
      requires Valid()
    {
      Rooted();
      Pick(root, Tosses(random), 0)
    }

    lemma SelectedIs(random: nat -> Word)
      requires Valid()
      ensures root in Nodes() && Selected(random) == Pick(root, Tosses(random), 0)
    {
    }

    /** One step of the descent. */
    lemma PickStep(n: Node, coins: nat -> bool, k: nat)
      requires Valid() && n in Nodes()
      ensures n.state != null ==> n.state in live && Pick(n, coins, k) == n.state
      ensures n.state == null <==> n.left != null || n.right != null
      ensures n.left != null ==> n.left in Nodes() && Deeper(n.left) < Deeper(n)
      ensures n.right != null ==> n.right in Nodes() && Deeper(n.right) < Deeper(n)
      ensures n.state == null && n.left == null ==> Pick(n, coins, k) == Pick(n.right, coins, k)
      ensures n.state == null && n.right == null ==> Pick(n, coins, k) == Pick(n.left, coins, k)
      ensures n.left != null && n.right != null && coins(k) ==> Pick(n, coins, k) == Pick(n.left, coins, k + 1)
      ensures n.left != null && n.right != null && !coins(k) ==> Pick(n, coins, k) == Pick(n.right, coins, k + 1)
    {
      assert NodeLabelled(View().links[n], Homes(), n);
      assert View().Linked(n);
      if n.left != null {
        BelowChild(View(), n, n.left);
      }
      if n.right != null {
        BelowChild(View(), n, n.right);
      }
    }

    /** `RandomPathSearcher::selectState`: the bits of each random word are tossed
        from the highest down. The descent ends, and at a live state. */
    method SelectState(random: nat -> Word) returns (s: State)
      requires Valid()
      ensures s in live && s == Selected(random)
    {
      hide *;
      WordBits();
      SelectedIs(random);
      var flips: Word, bits: nat := NoWord(), 0;
      var draws: nat := 0;
      var n := root;
      ghost var coins := Tosses(random);
      PickStep(n, coins, 0);
      while n.state == null
        invariant Valid() && n in Nodes() && root in Nodes() && bits <= WORD * draws && bits < WORD
        invariant draws > 0 ==> flips == random(draws - 1)
        invariant Pick(root, coins, 0) == Pick(n, coins, WORD * draws - bits)
        decreases Deeper(n)
      {
        PickStep(n, coins, WORD * draws - bits);
        if n.left == null {
          n := n.right;
        } else if n.right == null {
          n := n.left;
        } else {
          if bits == 0 {
            flips, draws := random(draws), draws + 1;
            bits := WORD;
          }
          bits := bits - 1;
          TossAt(random, draws - 1, bits);
          n := if flips[bits] then n.left else n.right;
        }
      }
      PickStep(n, coins, WORD * draws - bits);
      SelectedIs(random);
      s := n.state;
    }

    lemma {:induction false} PickAgree(n: Node, c: nat -> bool, k: nat, d: nat -> bool, m: nat)
      requires Valid() && n in Nodes() && Agree(c, k, d, m)
      ensures Pick(n, c, k) == Pick(n, d, m)
      decreases Deeper(n)
    {
      hide *;
      PickStep(n, c, k);
      PickStep(n, d, m);
      if n.state == null {
        if n.left == null {
          PickAgree(n.right, c, k, d, m);
        } else if n.right == null {
          PickAgree(n.left, c, k, d, m);
        } else {
          AgreeNext(c, k, d, m);
          PickAgree(if c(k) then n.left else n.right, c, k + 1, d, m + 1);
        }
      }
    }

    lemma ParentOf(n: Node)
      requires Valid() && n in Nodes() && n != root
      ensures n.parent != null && n.parent in Nodes() && depth[n.parent] < depth[n] && (n == n.parent.left || n == n.parent.right)
    {
      assert View().Linked(n);
      assert View().Linked(n.parent);
    }

    /** Tosses that lead down from the root to `n` and go on there as given. */
    lemma {:induction false} Leading(n: Node, coins: nat -> bool) returns (c: nat -> bool)
      requires Valid() && n in Nodes() && root in Nodes()
      ensures Pick(root, c, 0) == Pick(n, coins, 0)
      decreases depth[n]
    {
      hide Valid, Pick;
      if n == root {
        c := coins;
      } else {
        ParentOf(n);
        var p := n.parent;
        if p.left != null && p.right != null {
          var leftward := n == p.left;
          var more := (j: nat) => if j == 0 then leftward else coins(j - 1);
          PickStep(p, more, 0);
          PickAgree(n, more, 1, coins, 0);
          c := Leading(p, more);
        } else {
          PickStep(p, coins, 0);
          c := Leading(p, coins);
        }
      }
    }

    /** No live state is out of reach of the random descent. */
    lemma Selectable(s: State) returns (random: nat -> Word)
      requires Valid() && s in live
      ensures Selected(random) == s
    {
      Rooted();
      assert StateHoused(View().links, Homes()[s], s);
      var c := Leading(s.node, k => true);
      PickStep(s.node, k => true, 0);
      random := (j: nat) => Packed(c, j);
      forall k: nat ensures At(Tosses(random), 0, k) == At(c, 0, k) {
        TossAt(random, k / WORD, WORD - 1 - k % WORD);
      }
      PickAgree(root, Tosses(random), 0, c, 0);
    }
  }

  const WORD: nat := 32

  type Word = b: Bits | |b| == WORD witness Zeros(WORD)

  lemma WordBits()
    ensures WORD == 32
  {
  }

  function NoWord(): Word { Zeros(WORD) }

  /** The coin tosses a stream of random words gives. */
  function Tosses(random: nat -> Word): nat -> bool {
    (k: nat) => random(k / WORD)[WORD - 1 - k % WORD]
  }

  /** The word whose bits are the tosses number `WORD * j` and on. */
  function Packed(c: nat -> bool, j: nat): Word {
    seq(WORD, b requires 0 <= b < WORD => c(WORD * j + (WORD - 1 - b)))
  }

  function At(c: nat -> bool, k: nat, j: nat): bool { c(k + j) }

  ghost predicate Agree(c: nat -> bool, k: nat, d: nat -> bool, m: nat) {
    forall j: nat :: At(c, k, j) == At(d, m, j)
  }

  lemma AgreeNext(c: nat -> bool, k: nat, d: nat -> bool, m: nat)
    requires Agree(c, k, d, m)
    ensures c(k) == d(m) && Agree(c, k + 1, d, m + 1)
  {
    assert At(c, k, 0) == At(d, m, 0);
    var x, y := k + 1, m + 1;
    forall j: nat ensures At(c, x, j) == At(d, y, j) {
      assert At(c, k, j + 1) == At(d, m, j + 1);
    }
  }

  lemma TossAt(random: nat -> Word, draw: nat, bit: nat)
    requires bit < WORD
    ensures Tosses(random)(WORD * (draw + 1) - bit - 1) == random(draw)[bit]
  {
    var k := WORD * (draw + 1) - bit - 1;
    assert k == WORD * draw + (WORD - 1 - bit);
    assert k / WORD == draw && k % WORD == WORD - 1 - bit;
  }
}
