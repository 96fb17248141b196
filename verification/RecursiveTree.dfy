/** The recursive seed tree of sage-ref/seedtree.py: update, delete, path, patch and lookup of one node.
    The traversal of ref/seed.c agrees with it node by node. */
module RecursiveTree {
  import opened Params
  import opened Loops
  import opened Bits
  import opened SeedTree
  import opened PathNodes
  import opened Traversal

  /** Node: a deleted leaf takes the values on its way to the root with it. */
  datatype Tree = Leaf(value: Option<Seed>) | Fork(value: Option<Seed>, left: Tree, right: Tree)

  /** Node.update */
  ghost function Grow(salt: seq<Octet>, seed: Seed, h: nat, i: nat): Tree
    requires h <= H
    decreases H - h
  {
    if h == H then Leaf(Some(seed))
    else Fork(Some(seed),
      Grow(salt, Child(salt, seed, Addr(h, i), 0), h + 1, 2 * i),
      Grow(salt, Child(salt, seed, Addr(h, i), 1), h + 1, 2 * i + 1))
  }

  /** Node.delete of the leaf at place key among the 2^d leaves of the tree. */
  ghost function Delete(t: Tree, key: nat, d: nat): Tree
    decreases t
  {
    match t
    case Leaf(_) => Leaf(None)
    case Fork(_, left, right) =>
      if d == 0 then t
      else if key < Pow2(d - 1) then Fork(None, Delete(left, key, d - 1), right)
      else Fork(None, left, Delete(right, key - Pow2(d - 1), d - 1))
  }

  /** Node.path, for a tree with d levels below its root at the given offset. */
  ghost function Path(t: Tree, d: nat, offset: nat): seq<Seed>
    decreases t
  {
    match t.value
    case Some(seed) => if offset * Pow2(d) < T then [seed] else []
    case None =>
      if t.Leaf? || d == 0 then []
      else Path(t.left, d - 1, 2 * offset) + Path(t.right, d - 1, 2 * offset + 1)
  }

  datatype Patched = Patched(tree: Tree, rest: seq<Seed>)

  /** Node.patch: nodes that still have a value take the next seed of the path, while there is one. */
  ghost function Patch(t: Tree, salt: seq<Octet>, path: seq<Seed>, h: nat, i: nat): Patched
    requires h <= H
    decreases t
  {
    if t.value.Some? then
      if path == [] then Patched(t, path) else Patched(Grow(salt, path[0], h, i), path[1..])
    else if t.Leaf? || h == H then Patched(t, path)
    else
      var l := Patch(t.left, salt, path, h + 1, 2 * i);
      var r := Patch(t.right, salt, l.rest, h + 1, 2 * i + 1);
      Patched(Fork(None, l.tree, r.tree), r.rest)
  }

  /** Node.__getitem__ */
  ghost function Lookup(t: Tree, key: nat, d: nat): Option<Seed>
    decreases t
  {
    match t
    case Leaf(v) => v
    case Fork(_, left, right) =>
      if d == 0 then None
      else if key < Pow2(d - 1) then Lookup(left, key, d - 1) else Lookup(right, key - Pow2(d - 1), d - 1)
  }

  // ----- deletion -----

  /** What is left of the tree when the leaves that h marks have been deleted. */
  ghost function Pruned(hd: Challenge, salt: seq<Octet>, seed: Seed, h: nat, i: nat): Tree
    requires h <= H
    decreases H - h
  {
    if Clean(hd, h, i) then Grow(salt, seed, h, i)
    else if h == H then Leaf(None)
    else Fork(None,
      Pruned(hd, salt, Child(salt, seed, Addr(h, i), 0), h + 1, 2 * i),
      Pruned(hd, salt, Child(salt, seed, Addr(h, i), 1), h + 1, 2 * i + 1))
  }

  lemma PrunedClean(hd: Challenge, salt: seq<Octet>, seed: Seed, h: nat, i: nat)
    requires h <= H && Clean(hd, h, i)
    ensures Pruned(hd, salt, seed, h, i) == Grow(salt, seed, h, i) && Grow(salt, seed, h, i).value == Some(seed)
  {
    hide Left, Child;
  }

  lemma CleanHalves(hd: Challenge, h: nat, i: nat)
    requires h < H && Clean(hd, h, i)
    ensures Clean(hd, h + 1, 2 * i) && Clean(hd, h + 1, 2 * i + 1)
  {
    hide Left;
    Halves(h, i);
  }

  lemma PrunedCases(hd: Challenge, salt: seq<Octet>, seed: Seed, h: nat, i: nat)
    requires h < H
    ensures var t := Pruned(hd, salt, seed, h, i);
      && t.Fork? && t.value == (if Clean(hd, h, i) then Some(seed) else None)
      && t.left == Pruned(hd, salt, Child(salt, seed, Addr(h, i), 0), h + 1, 2 * i)
      && t.right == Pruned(hd, salt, Child(salt, seed, Addr(h, i), 1), h + 1, 2 * i + 1)
  {
    hide Left, Clean, Child;
    if Clean(hd, h, i) {
      CleanHalves(hd, h, i);
      hide Pruned;
      PrunedClean(hd, salt, seed, h, i);
      PrunedClean(hd, salt, Child(salt, seed, Addr(h, i), 0), h + 1, 2 * i);
      PrunedClean(hd, salt, Child(salt, seed, Addr(h, i), 1), h + 1, 2 * i + 1);
    } else {
      hide Grow;
    }
  }

  lemma CleanSet(hd: Challenge, j: nat, v: Octet, h: nat, i: nat)
    requires h <= H && j < |hd| && v > 0
    ensures Clean(hd[j := v], h, i) == (Clean(hd, h, i) && !Covers(Node(h, i), j))
  {
    hide Left;
    var hd' := hd[j := v];
    assert hd'[j] == v;
    if Clean(hd', h, i) {
      forall k | Left(h, i) <= k < Left(h, i + 1) && k < |hd| ensures hd[k] == 0 {
        assert hd'[k] == 0;
      }
    }
  }

  lemma {:induction false} PrunedElsewhere(hd: Challenge, salt: seq<Octet>, seed: Seed, j: nat, v: Octet, h: nat,
      i: nat)
    requires h <= H && j < |hd| && v > 0 && !Covers(Node(h, i), j)
    ensures Pruned(hd[j := v], salt, seed, h, i) == Pruned(hd, salt, seed, h, i)
    decreases H - h
  {
    hide Left, Clean, Child, Grow;
    CleanSet(hd, j, v, h, i);
    if h < H {
      Halves(h, i);
      PrunedElsewhere(hd, salt, Child(salt, seed, Addr(h, i), 0), j, v, h + 1, 2 * i);
      PrunedElsewhere(hd, salt, Child(salt, seed, Addr(h, i), 1), j, v, h + 1, 2 * i + 1);
    }
  }

  /** Deleting one more leaf. */
  lemma {:induction false} DeletePrunes(hd: Challenge, salt: seq<Octet>, seed: Seed, j: nat, v: Octet, h: nat, i: nat)
    requires h <= H && j < |hd| && v > 0 && Covers(Node(h, i), j)
    ensures Delete(Pruned(hd, salt, seed, h, i), j - Left(h, i), H - h) == Pruned(hd[j := v], salt, seed, h, i)
    decreases H - h
  {
    hide Left, Clean, Child, Pruned, Pow2;
    CleanSet(hd, j, v, h, i);
    if h == H {
      PrunedLeaf(hd, salt, seed, i);
      PrunedLeaf(hd[j := v], salt, seed, i);
    } else {
      Halves(h, i);
      LeftWidth(h + 1, 2 * i);
      PrunedCases(hd, salt, seed, h, i);
      PrunedCases(hd[j := v], salt, seed, h, i);
      var l, r := Child(salt, seed, Addr(h, i), 0), Child(salt, seed, Addr(h, i), 1);
      if j < Left(h + 1, 2 * i + 1) {
        DeletePrunes(hd, salt, l, j, v, h + 1, 2 * i);
        PrunedElsewhere(hd, salt, r, j, v, h + 1, 2 * i + 1);
      } else {
        DeletePrunes(hd, salt, r, j, v, h + 1, 2 * i + 1);
        PrunedElsewhere(hd, salt, l, j, v, h + 1, 2 * i);
      }
    }
  }

  lemma PrunedLeaf(hd: Challenge, salt: seq<Octet>, seed: Seed, i: nat)
    ensures Pruned(hd, salt, seed, H, i) == Leaf(if Clean(hd, H, i) then Some(seed) else None)
  {
  }

  /** All leaves before k that are punctured have been deleted, one after the other. */
  ghost function DeleteAll(t: Tree, hd: Challenge, k: nat): Tree
    requires k <= |hd|
  {
    if k == 0 then t
    else if hd[k - 1] > 0 then Delete(DeleteAll(t, hd, k - 1), k - 1, H)
    else DeleteAll(t, hd, k - 1)
  }

  ghost function Marked(hd: Challenge, k: nat): Challenge
    requires k <= |hd|
  {
    seq<Octet>(|hd|, j requires 0 <= j < |hd| => if j < k then hd[j] else 0)
  }

  lemma {:induction false} DeleteAllPrunes(hd: Challenge, salt: seq<Octet>, root: Seed, k: nat)
    requires |hd| == T && k <= T
    ensures DeleteAll(Grow(salt, root, 0, 0), hd, k) == Pruned(Marked(hd, k), salt, root, 0, 0)
  {
    hide Left, Clean, Child, Grow, Delete, Pow2;
    if k == 0 {
      NoneMarked(hd, salt, root);
    } else {
      var m := k - 1;
      DeleteAllPrunes(hd, salt, root, m);
      RootLeaves();
      if hd[m] > 0 {
        assert Marked(hd, k) == Marked(hd, m)[m := hd[m]];
        DeletePrunes(Marked(hd, m), salt, root, m, hd[m], 0, 0);
      } else {
        assert Marked(hd, k) == Marked(hd, m);
      }
    }
  }

  lemma NoneMarked(hd: Challenge, salt: seq<Octet>, root: Seed)
    ensures Pruned(Marked(hd, 0), salt, root, 0, 0) == Grow(salt, root, 0, 0)
  {
    hide Grow, Left;
  }

  // ----- trees with any values, such as the placeholders of a verifier -----

  /** All nodes of the d levels below the root, and the root, hold some value. */
  ghost predicate IsComplete(t: Tree, d: nat)
    decreases t
  {
    && t.value.Some? && (t.Leaf? <==> d == 0)
    && (t.Fork? ==> d > 0 && IsComplete(t.left, d - 1) && IsComplete(t.right, d - 1))
  }

  /** What is left of such a tree after deletions: a node holds a value when none of its leaves is marked. */
  ghost predicate IsPruned(t: Tree, hd: Challenge, h: nat, i: nat)
    requires h <= H
    decreases t
  {
    && (t.value.Some? <==> Clean(hd, h, i)) && (t.Leaf? <==> h == H)
    && (t.Fork? ==> h < H && IsPruned(t.left, hd, h + 1, 2 * i) && IsPruned(t.right, hd, h + 1, 2 * i + 1))
  }

  lemma {:induction false} CompleteIsPruned(t: Tree, hd: Challenge, h: nat, i: nat)
    requires h <= H && IsComplete(t, H - h) && Clean(hd, h, i)
    ensures IsPruned(t, hd, h, i)
    decreases H - h
  {
    hide Left, Clean;
    if h < H {
      CleanHalves(hd, h, i);
      CompleteIsPruned(t.left, hd, h + 1, 2 * i);
      CompleteIsPruned(t.right, hd, h + 1, 2 * i + 1);
    }
  }

  lemma {:induction false} StaysPruned(t: Tree, hd: Challenge, j: nat, v: Octet, h: nat, i: nat)
    requires h <= H && j < |hd| && v > 0 && !Covers(Node(h, i), j) && IsPruned(t, hd, h, i)
    ensures IsPruned(t, hd[j := v], h, i)
    decreases H - h
  {
    hide Left, Clean;
    CleanSet(hd, j, v, h, i);
    if h < H {
      Halves(h, i);
      StaysPruned(t.left, hd, j, v, h + 1, 2 * i);
      StaysPruned(t.right, hd, j, v, h + 1, 2 * i + 1);
    }
  }

  /** Deleting one more leaf clears the values on its way to the root and no others. */
  lemma {:induction false} DeleteKeepsPruned(t: Tree, hd: Challenge, j: nat, v: Octet, h: nat, i: nat)
    requires h <= H && j < |hd| && v > 0 && Covers(Node(h, i), j) && IsPruned(t, hd, h, i)
    ensures IsPruned(Delete(t, j - Left(h, i), H - h), hd[j := v], h, i)
    decreases H - h
  {
    hide Left, Clean, Pow2;
    CleanSet(hd, j, v, h, i);
    if h < H {
      Halves(h, i);
      LeftWidth(h + 1, 2 * i);
      if j < Left(h + 1, 2 * i + 1) {
        DeleteKeepsPruned(t.left, hd, j, v, h + 1, 2 * i);
        StaysPruned(t.right, hd, j, v, h + 1, 2 * i + 1);
      } else {
        DeleteKeepsPruned(t.right, hd, j, v, h + 1, 2 * i + 1);
        StaysPruned(t.left, hd, j, v, h + 1, 2 * i);
      }
    }
  }

  lemma {:induction false} DeleteAllIsPruned(t: Tree, hd: Challenge, k: nat)
    requires |hd| == T && k <= T && IsComplete(t, H)
    ensures IsPruned(DeleteAll(t, hd, k), Marked(hd, k), 0, 0)
  {
    hide Left, Delete, Pow2, IsComplete, IsPruned;
    if k == 0 {
      NoneMarkedIsClean(hd);
      CompleteIsPruned(t, Marked(hd, 0), 0, 0);
    } else {
      var m := k - 1;
      DeleteAllIsPruned(t, hd, m);
      RootLeaves();
      if hd[m] > 0 {
        assert Marked(hd, k) == Marked(hd, m)[m := hd[m]];
        DeleteKeepsPruned(DeleteAll(t, hd, m), Marked(hd, m), m, hd[m], 0, 0);
      } else {
        assert Marked(hd, k) == Marked(hd, m);
      }
    }
  }

  lemma NoneMarkedIsClean(hd: Challenge)
    ensures Clean(Marked(hd, 0), 0, 0)
  {
    hide Left;
  }

  // ----- the path -----

  lemma LeftIsShifted(h: nat, i: nat)
    requires h <= H
    ensures Left(h, i) == i * Pow2(H - h)
  {
  }

  /** The seeds of some nodes, as they follow from the seed of (h0, i0). */
  ghost function SeedsOf(nodes: seq<Node>, salt: seq<Octet>, seed: Seed, h0: nat): seq<Seed> {
    seq(|nodes|, k requires 0 <= k < |nodes| =>
      if nodes[k].h >= h0 then Derived(salt, seed, h0, nodes[k].h, nodes[k].i) else ZeroSeed())
  }

  lemma SeedsOfConcat(a: seq<Node>, b: seq<Node>, salt: seq<Octet>, seed: Seed, h0: nat)
    ensures SeedsOf(a + b, salt, seed, h0) == SeedsOf(a, salt, seed, h0) + SeedsOf(b, salt, seed, h0)
  {
    hide Derived;
  }

  /** Seeds below a child can be derived from the child's seed. */
  lemma SeedsOfHalf(hd: Challenge, salt: seq<Octet>, seed: Seed, h: nat, i: nat, side: nat)
    requires h < H && side < 2
    ensures var nodes := Nodes(hd, h + 1, 2 * i + side);
      SeedsOf(nodes, salt, Child(salt, seed, Addr(h, i), side), h + 1) == SeedsOf(nodes, salt, seed, h)
  {
    hide Left, Nodes, Derived, Child, Edge;
    var g, c, nodes := h + 1, 2 * i + side, Nodes(hd, h + 1, 2 * i + side);
    ChildSeed(salt, seed, h, i, side);
    forall k | 0 <= k < |nodes|
      ensures nodes[k].h >= g && Derived(salt, Derived(salt, seed, h, g, c), g, nodes[k].h, nodes[k].i) ==
        Derived(salt, seed, h, nodes[k].h, nodes[k].i)
    {
      NodesInside(hd, g, c, nodes[k]);
      InsideIsUnder(g, c, nodes[k]);
      DerivedTwice(salt, seed, h, g, c, nodes[k].h, nodes[k].i);
    }
  }

  lemma ChildSeed(salt: seq<Octet>, seed: Seed, h: nat, i: nat, side: nat)
    requires side < 2
    ensures Derived(salt, seed, h, h + 1, 2 * i + side) == Child(salt, seed, Addr(h, i), side)
  {
    hide Child;
    var c := 2 * i + side;
    assert c / 2 == i && c % 2 == side;
    assert Derived(salt, seed, h, h, i) == seed;
  }

  /** A node whose leaves lie among those of (g, c) is a descendant of it. */
  lemma InsideIsUnder(g: nat, c: nat, x: Node)
    requires g <= x.h <= H && Left(g, c) <= Left(x.h, x.i) && Left(x.h, x.i + 1) <= Left(g, c + 1)
    ensures Under(g, c, x.h, x.i)
  {
    EdgeTwice(g, c, x.h, H);
    EdgeTwice(g, c + 1, x.h, H);
    var lo, hi := Edge(g, c, x.h), Edge(g, c + 1, x.h);
    hide Edge;
    if x.i < lo {
      EdgeMonotone(x.h, x.i + 1, lo, H);
      LeftGrows(x.h, x.i);
    }
    if x.i >= hi {
      EdgeMonotone(x.h, hi, x.i, H);
      LeftGrows(x.h, x.i);
    }
  }

  lemma DirtyIsBefore(hd: Challenge, h: nat, i: nat)
    requires h <= H && |hd| == T && !Clean(hd, h, i)
    ensures Left(h, i) < T
  {
    hide Left;
  }

  /** The path of what is left of a signer's tree below (h, i). */
  ghost function PathOf(hd: Challenge, salt: seq<Octet>, seed: Seed, h: nat, i: nat): seq<Seed>
    requires h <= H
  {
    Path(Pruned(hd, salt, seed, h, i), H - h, i)
  }

  lemma PathOfCases(hd: Challenge, salt: seq<Octet>, seed: Seed, h: nat, i: nat)
    requires h <= H && |hd| == T
    ensures PathOf(hd, salt, seed, h, i) ==
      if Clean(hd, h, i) then (if Left(h, i) < T then [seed] else [])
      else if h == H then []
      else
        PathOf(hd, salt, Child(salt, seed, Addr(h, i), 0), h + 1, 2 * i)
        + PathOf(hd, salt, Child(salt, seed, Addr(h, i), 1), h + 1, 2 * i + 1)
  {
    LeftIsShifted(h, i);
    hide Left, Clean, Child, Pruned, Pow2;
    if Clean(hd, h, i) {
      PrunedClean(hd, salt, seed, h, i);
    } else if h < H {
      PrunedCases(hd, salt, seed, h, i);
    } else {
      PrunedLeaf(hd, salt, seed, i);
    }
  }

  /** Node.path of the pruned tree is the seeds of the path nodes, in the same order. */
  lemma {:induction false} PathIsNodes(hd: Challenge, salt: seq<Octet>, seed: Seed, h: nat, i: nat)
    requires h <= H && |hd| == T
    ensures PathOf(hd, salt, seed, h, i) == SeedsOf(Nodes(hd, h, i), salt, seed, h)
    decreases H - h
  {
    hide Clean, Child, Nodes, PathOf, Left, SeedsOf;
    NodesCases(hd, h, i);
    PathOfCases(hd, salt, seed, h, i);
    if Clean(hd, h, i) {
      SeedsOfSelf(salt, seed, h, i);
    } else if h < H {
      DirtyIsBefore(hd, h, i);
      PathIsNodes(hd, salt, Child(salt, seed, Addr(h, i), 0), h + 1, 2 * i);
      PathIsNodes(hd, salt, Child(salt, seed, Addr(h, i), 1), h + 1, 2 * i + 1);
      SeedsOfHalf(hd, salt, seed, h, i, 0);
      SeedsOfHalf(hd, salt, seed, h, i, 1);
      SeedsOfConcat(Nodes(hd, h + 1, 2 * i), Nodes(hd, h + 1, 2 * i + 1), salt, seed, h);
    } else {
      DirtyIsBefore(hd, h, i);
      SeedsOfSelf(salt, seed, h, i);
    }
  }

  lemma SeedsOfSelf(salt: seq<Octet>, seed: Seed, h: nat, i: nat)
    ensures SeedsOf([Node(h, i)], salt, seed, h) == [seed] && SeedsOf([], salt, seed, h) == []
  {
    assert Derived(salt, seed, h, h, i) == seed;
  }

  /** The traversal emits what the recursive path returns for the tree with all punctured leaves deleted. */
  lemma TraversalIsRecursivePath(hd: Challenge, salt: seq<Octet>, root: Seed, s: seq<Seed>, path: seq<Octet>,
      off: nat, k: nat)
    requires |hd| == T && IsFull(s, salt, root) && IsPath(path, off, s, Nodes(hd, 0, 0))
    ensures var recursive := Path(DeleteAll(Grow(salt, root, 0, 0), hd, T), H, 0);
      && |recursive| == |Nodes(hd, 0, 0)|
      && (k < |recursive| ==> PathSeed(path, off, k) == recursive[k])
  {
    hide Left, Nodes, Derived, PathSeed, Grow, Pruned, SeedAt, DeleteAll;
    DeleteAllPrunes(hd, salt, root, T);
    assert Marked(hd, T) == hd;
    PathIsNodes(hd, salt, root, 0, 0);
    RootIsNode();
    if k < |Nodes(hd, 0, 0)| { NodesInside(hd, 0, 0, Nodes(hd, 0, 0)[k]); }
  }

  // ----- patching -----

  /** A leaf lies below one of the two children, and derives from it. */
  lemma LeafBelowChild(salt: seq<Octet>, seed: Seed, h: nat, i: nat, j: nat)
    requires h < H && Covers(Node(h, i), j)
    ensures var side := if j < Left(h + 1, 2 * i + 1) then 0 else 1;
      && Covers(Node(h + 1, 2 * i + side), j)
      && Derived(salt, Child(salt, seed, Addr(h, i), side), h + 1, H, j) == Derived(salt, seed, h, H, j)
  {
    hide Derived, Child, Edge;
    Halves(h, i);
    var side := if j < Left(h + 1, 2 * i + 1) then 0 else 1;
    ChildSeed(salt, seed, h, i, side);
    DerivedTwice(salt, seed, h, h + 1, 2 * i + side, H, j);
  }

  /** Leaf j in the tree whose root is (h, i). */
  ghost function LeafOf(t: Tree, h: nat, i: nat, j: nat): Option<Seed>
    requires h <= H && Covers(Node(h, i), j)
  {
    Lookup(t, j - Left(h, i), H - h)
  }

  lemma LeafOfFork(t: Tree, h: nat, i: nat, j: nat)
    requires h < H && Covers(Node(h, i), j) && t.Fork?
    ensures var side := if j < Left(h + 1, 2 * i + 1) then 0 else 1;
      && Covers(Node(h + 1, 2 * i + side), j)
      && LeafOf(t, h, i, j) == LeafOf(if side == 0 then t.left else t.right, h + 1, 2 * i + side, j)
  {
    hide Left, Pow2;
    Halves(h, i);
    LeftWidth(h + 1, 2 * i);
  }

  lemma {:induction false} GrowLookup(salt: seq<Octet>, seed: Seed, h: nat, i: nat, j: nat)
    requires h <= H && Covers(Node(h, i), j)
    ensures LeafOf(Grow(salt, seed, h, i), h, i, j) == Some(Derived(salt, seed, h, H, j))
    decreases H - h
  {
    hide Left, Child, Pow2, LeafOf, Derived, Grow;
    GrowCases(salt, seed, h, i, j);
    if h < H {
      LeafOfFork(Grow(salt, seed, h, i), h, i, j);
      LeafBelowChild(salt, seed, h, i, j);
      var side := if j < Left(h + 1, 2 * i + 1) then 0 else 1;
      GrowLookup(salt, Child(salt, seed, Addr(h, i), side), h + 1, 2 * i + side, j);
    }
  }

  lemma GrowCases(salt: seq<Octet>, seed: Seed, h: nat, i: nat, j: nat)
    requires h <= H && Covers(Node(h, i), j)
    ensures var t := Grow(salt, seed, h, i);
      if h == H then LeafOf(t, h, i, j) == Some(Derived(salt, seed, h, H, j))
      else
        && t.Fork?
        && t.left == Grow(salt, Child(salt, seed, Addr(h, i), 0), h + 1, 2 * i)
        && t.right == Grow(salt, Child(salt, seed, Addr(h, i), 1), h + 1, 2 * i + 1)
  {
    hide Left, Child;
  }

  /** The leaves before T that are not punctured have the seeds that follow from the seed of (h, i). */
  ghost predicate IsRestored(t: Tree, hd: Challenge, salt: seq<Octet>, seed: Seed, h: nat, i: nat)
    requires h <= H && |hd| == T
  {
    forall j: nat :: Covers(Node(h, i), j) && j < T && hd[j] == 0 ==>
      LeafOf(t, h, i, j) == Some(Derived(salt, seed, h, H, j))
  }

  lemma GrowIsRestored(hd: Challenge, salt: seq<Octet>, seed: Seed, h: nat, i: nat)
    requires h <= H && |hd| == T
    ensures IsRestored(Grow(salt, seed, h, i), hd, salt, seed, h, i)
  {
    hide Left, Grow, LeafOf, Derived;
    forall j: nat | Covers(Node(h, i), j)
      ensures LeafOf(Grow(salt, seed, h, i), h, i, j) == Some(Derived(salt, seed, h, H, j))
    {
      GrowLookup(salt, seed, h, i, j);
    }
  }

  lemma ForkIsRestored(t: Tree, hd: Challenge, salt: seq<Octet>, seed: Seed, h: nat, i: nat)
    requires h < H && |hd| == T && t.Fork?
    requires IsRestored(t.left, hd, salt, Child(salt, seed, Addr(h, i), 0), h + 1, 2 * i)
    requires IsRestored(t.right, hd, salt, Child(salt, seed, Addr(h, i), 1), h + 1, 2 * i + 1)
    ensures IsRestored(t, hd, salt, seed, h, i)
  {
    hide Left, LeafOf, Derived, Child;
    forall j: nat | Covers(Node(h, i), j) && j < T && hd[j] == 0
      ensures LeafOf(t, h, i, j) == Some(Derived(salt, seed, h, H, j))
    {
      LeafOfFork(t, h, i, j);
      LeafBelowChild(salt, seed, h, i, j);
    }
  }

  lemma PunctureIsRestored(hd: Challenge, salt: seq<Octet>, seed: Seed, i: nat, t: Tree)
    requires |hd| == T && !Clean(hd, H, i)
    ensures IsRestored(t, hd, salt, seed, H, i)
  {
    LeafLeft(i);
    LeafLeft(i + 1);
    hide Left, Derived;
  }

  lemma LateIsRestored(t: Tree, hd: Challenge, salt: seq<Octet>, seed: Seed, h: nat, i: nat)
    requires h <= H && |hd| == T && Left(h, i) >= T
    ensures IsRestored(t, hd, salt, seed, h, i)
  {
    hide Left, Derived;
  }

  /** Node.patch with the path of the signer's tree restores that tree before T, whatever values the
      verifier's tree holds: the leaves that are not punctured get the signer's seeds. */
  lemma {:induction false} PatchRestores(t: Tree, hd: Challenge, salt: seq<Octet>, seed: Seed, rest: seq<Seed>,
      h: nat, i: nat)
    requires h <= H && |hd| == T && IsPruned(t, hd, h, i) && (rest != [] ==> Left(h, i + 1) <= T)
    ensures var patched := Patch(t, salt, PathOf(hd, salt, seed, h, i) + rest, h, i);
      patched.rest == rest && IsRestored(patched.tree, hd, salt, seed, h, i)
    decreases H - h
  {
    hide Left, Clean, Child, Pruned, Grow, Pow2, PathOf, IsRestored;
    PathOfCases(hd, salt, seed, h, i);
    LeftGrows(h, i);
    if Clean(hd, h, i) {
      GrowIsRestored(hd, salt, seed, h, i);
      if Left(h, i) >= T { LateIsRestored(t, hd, salt, seed, h, i); }
    } else if h == H {
      PunctureIsRestored(hd, salt, seed, i, t);
    } else {
      PatchHalves(t, hd, salt, seed, rest, h, i);
    }
  }

  lemma PatchHalves(t: Tree, hd: Challenge, salt: seq<Octet>, seed: Seed, rest: seq<Seed>, h: nat, i: nat)
    requires h < H && |hd| == T && IsPruned(t, hd, h, i) && (rest != [] ==> Left(h, i + 1) <= T) && !Clean(hd, h, i)
    ensures var patched := Patch(t, salt, PathOf(hd, salt, seed, h, i) + rest, h, i);
      patched.rest == rest && IsRestored(patched.tree, hd, salt, seed, h, i)
    decreases H - h, 0
  {
    hide Left, Clean, Child, Pruned, Grow, Pow2, PathOf, IsRestored;
    PathOfCases(hd, salt, seed, h, i);
    Halves(h, i);
    var l, r := Child(salt, seed, Addr(h, i), 0), Child(salt, seed, Addr(h, i), 1);
    var a, b := PathOf(hd, salt, l, h + 1, 2 * i), PathOf(hd, salt, r, h + 1, 2 * i + 1);
    assert (a + b) + rest == a + (b + rest);
    PathAfter(hd, salt, r, h + 1, 2 * i + 1);
    LeftGrows(h + 1, 2 * i + 1);
    PatchRestores(t.left, hd, salt, l, b + rest, h + 1, 2 * i);
    PatchRestores(t.right, hd, salt, r, rest, h + 1, 2 * i + 1);
    ForkIsRestored(Patch(t, salt, (a + b) + rest, h, i).tree, hd, salt, seed, h, i);
  }

  /** A path from beyond T is empty. */
  lemma PathAfter(hd: Challenge, salt: seq<Octet>, seed: Seed, h: nat, i: nat)
    requires h <= H && |hd| == T
    ensures Left(h, i) >= T ==> PathOf(hd, salt, seed, h, i) == []
  {
    PathIsNodes(hd, salt, seed, h, i);
    hide Left, Pruned, Path;
    NodesCases(hd, h, i);
  }

  /** SeedTree.delete, path and patch together: a verifier's tree with any values ends up with the signer's seeds. */
  lemma RecursiveRoundTrip(hd: Challenge, salt: seq<Octet>, root: Seed, blank: Tree, j: nat)
    requires |hd| == T && j < T && hd[j] == 0 && IsComplete(blank, H)
    ensures var path := Path(DeleteAll(Grow(salt, root, 0, 0), hd, T), H, 0);
      var t := Patch(DeleteAll(blank, hd, T), salt, path, 0, 0);
      t.rest == [] && Lookup(t.tree, j, H) == Some(Derived(salt, root, 0, H, j))
  {
    hide Left, Derived, Grow, Pruned, DeleteAll, Patch, Path, Lookup, IsPruned, IsComplete;
    DeleteAllPrunes(hd, salt, root, T);
    DeleteAllIsPruned(blank, hd, T);
    assert Marked(hd, T) == hd;
    PatchRestores(DeleteAll(blank, hd, T), hd, salt, root, [], 0, 0);
    RootLeaves();
    assert PathOf(hd, salt, root, 0, 0) + [] == PathOf(hd, salt, root, 0, 0);
    assert Covers(Node(0, 0), j);
  }
}
