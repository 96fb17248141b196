/** The nodes a punctured tree is described by: the largest subtrees without a punctured leaf, in
    preorder (Node.path of sage-ref/seedtree.py), and how many there can be (include/params.py). */
module PathNodes {
  import opened Arithmetic
  import opened Params
  import opened Bits
  import opened SeedTree

  /** The challenge h: one entry per leaf, positive where the leaf is punctured. */
  type Challenge = seq<Octet>

  datatype Node = Node(h: nat, i: nat)

  /** No leaf below (h, i) is punctured. */
  ghost predicate Clean(hd: Challenge, h: nat, i: nat)
    requires h <= H
  {
    forall j :: Left(h, i) <= j < Left(h, i + 1) && j < |hd| ==> hd[j] == 0
  }

  ghost function Nodes(hd: Challenge, h: nat, i: nat): seq<Node>
    requires h <= H
    decreases H - h
  {
    if Left(h, i) >= T then []
    else if Clean(hd, h, i) then [Node(h, i)]
    else if h == H then []
    else Nodes(hd, h + 1, 2 * i) + Nodes(hd, h + 1, 2 * i + 1)
  }

  /** Leaf j lies below x. */
  ghost predicate Covers(x: Node, j: nat)
    requires x.h <= H
  {
    Left(x.h, x.i) <= j < Left(x.h, x.i + 1)
  }

  /** x lies in the subtree of (h, i), starts before the end of the tree and is clean. */
  ghost predicate IsPathNode(hd: Challenge, h: nat, i: nat, x: Node)
    requires h <= H
  {
    && h <= x.h <= H && Left(h, i) <= Left(x.h, x.i) < T && Left(x.h, x.i + 1) <= Left(h, i + 1)
    && Clean(hd, x.h, x.i) && (IsNode(h, i) ==> IsNode(x.h, x.i))
  }

  lemma NodesCases(hd: Challenge, h: nat, i: nat)
    requires h <= H
    ensures Nodes(hd, h, i) ==
      if Left(h, i) >= T then []
      else if Clean(hd, h, i) then [Node(h, i)]
      else if h == H then []
      else Nodes(hd, h + 1, 2 * i) + Nodes(hd, h + 1, 2 * i + 1)
  {
    hide Left, Clean;
  }

  /** The two halves of (h, i). */
  lemma Halves(h: nat, i: nat)
    requires h < H
    ensures Left(h, i) == Left(h + 1, 2 * i) <= Left(h + 1, 2 * i + 1) <= Left(h + 1, 2 * i + 2) == Left(h, i + 1)
    ensures IsNode(h, i) ==> IsNode(h + 1, 2 * i) && IsNode(h + 1, 2 * i + 1)
  {
    hide Left;
    ChildLeft(h, i);
    LeftMonotone(h + 1, 2 * i, 2 * i + 1);
    LeftMonotone(h + 1, 2 * i + 1, 2 * i + 2);
  }

  lemma {:induction false} NodesInside(hd: Challenge, h: nat, i: nat, x: Node)
    requires h <= H && x in Nodes(hd, h, i)
    ensures IsPathNode(hd, h, i, x)
    decreases H - h
  {
    hide Left, Clean, Nodes;
    NodesCases(hd, h, i);
    if !Clean(hd, h, i) {
      Halves(h, i);
      NodesInside(hd, h + 1, if x in Nodes(hd, h + 1, 2 * i) then 2 * i else 2 * i + 1, x);
    }
  }

  ghost predicate Before(x: Node, y: Node) {
    x.h <= H && y.h <= H && Left(x.h, x.i + 1) <= Left(y.h, y.i)
  }

  /** Disjoint, and in the order of the leaves. */
  lemma {:induction false} NodesOrdered(hd: Challenge, h: nat, i: nat, k: nat, l: nat)
    requires h <= H && k < l < |Nodes(hd, h, i)|
    ensures Before(Nodes(hd, h, i)[k], Nodes(hd, h, i)[l])
    decreases H - h
  {
    hide Left, Clean, Nodes;
    NodesCases(hd, h, i);
    var a, b := Nodes(hd, h + 1, 2 * i), Nodes(hd, h + 1, 2 * i + 1);
    if l < |a| {
      NodesOrdered(hd, h + 1, 2 * i, k, l);
    } else if k >= |a| {
      NodesOrdered(hd, h + 1, 2 * i + 1, k - |a|, l - |a|);
    } else {
      NodesInside(hd, h + 1, 2 * i, a[k]);
      NodesInside(hd, h + 1, 2 * i + 1, b[l - |a|]);
    }
  }

  ghost predicate Covered(nodes: seq<Node>, j: nat) {
    exists x :: x in nodes && x.h <= H && Covers(x, j)
  }

  /** A leaf before T is below some path node exactly when it is not punctured. */
  lemma {:induction false} NodesCover(hd: Challenge, h: nat, i: nat, j: nat)
    requires h <= H && |hd| == T && j < T && Covers(Node(h, i), j)
    ensures hd[j] == 0 <==> Covered(Nodes(hd, h, i), j)
    decreases H - h
  {
    hide Left, Nodes, Clean, Covered;
    NodesCases(hd, h, i);
    if Clean(hd, h, i) {
      CleanCovered(hd, h, i, j);
    } else if h == H {
      PuncturedLeaf(hd, i, j);
    } else {
      Halves(h, i);
      var half := if j < Left(h + 1, 2 * i + 1) then 2 * i else 2 * i + 1;
      NodesCover(hd, h + 1, half, j);
      NotCovered(hd, h + 1, 4 * i + 1 - half, j);
      CoveredConcat(Nodes(hd, h + 1, 2 * i), Nodes(hd, h + 1, 2 * i + 1), j);
    }
  }

  lemma CleanCovered(hd: Challenge, h: nat, i: nat, j: nat)
    requires h <= H && Clean(hd, h, i) && Covers(Node(h, i), j) && j < |hd|
    ensures hd[j] == 0 && Covered([Node(h, i)], j)
  {
    hide Left;
    assert Node(h, i) in [Node(h, i)];
  }

  lemma PuncturedLeaf(hd: Challenge, i: nat, j: nat)
    requires !Clean(hd, H, i) && Covers(Node(H, i), j) && j < |hd|
    ensures hd[j] > 0 && !Covered([], j)
  {
    hide Left;
    LeafLeft(i);
    LeafLeft(i + 1);
  }

  lemma CoveredConcat(a: seq<Node>, b: seq<Node>, j: nat)
    ensures Covered(a + b, j) <==> Covered(a, j) || Covered(b, j)
  {
    hide Covers;
    forall x | x in a || x in b ensures x in a + b {
    }
  }

  lemma NotCovered(hd: Challenge, h: nat, i: nat, j: nat)
    requires h <= H && !Covers(Node(h, i), j)
    ensures !Covered(Nodes(hd, h, i), j)
  {
    hide Left, Clean, Nodes;
    forall x | x in Nodes(hd, h, i) ensures x.h <= H && !Covers(x, j) {
      NodesInside(hd, h, i, x);
    }
  }

  lemma LeafLeft(i: nat)
    ensures Left(H, i) == i
  {
    EdgeSelf(H, i);
  }

  /** No path node can be replaced by its parent. */
  lemma {:induction false} NodesMaximal(hd: Challenge, h: nat, i: nat, x: Node)
    requires h <= H && !Clean(hd, h, i) && x in Nodes(hd, h, i)
    ensures h < x.h <= H && !Clean(hd, x.h - 1, x.i / 2)
    decreases H - h
  {
    hide Left, Clean, Nodes;
    NodesCases(hd, h, i);
    var s := if x in Nodes(hd, h + 1, 2 * i) then 2 * i else 2 * i + 1;
    NodesCases(hd, h + 1, s);
    if !Clean(hd, h + 1, s) { NodesMaximal(hd, h + 1, s, x); }
  }

  // ----- how many -----

  /** Punctured leaves from lo to hi. */
  function Count(hd: Challenge, lo: nat, hi: nat): nat
    decreases hi
  {
    if hi <= lo then 0
    else Count(hd, lo, hi - 1) + (if hi - 1 < |hd| && hd[hi - 1] > 0 then 1 else 0)
  }

  lemma {:induction false} CountSplit(hd: Challenge, lo: nat, mid: nat, hi: nat)
    requires lo <= mid <= hi
    ensures Count(hd, lo, hi) == Count(hd, lo, mid) + Count(hd, mid, hi)
    decreases hi
  {
    if mid < hi { CountSplit(hd, lo, mid, hi - 1); }
  }

  lemma {:induction false} CountZero(hd: Challenge, lo: nat, hi: nat)
    ensures Count(hd, lo, hi) == 0 <==> forall j :: lo <= j < hi && j < |hd| ==> hd[j] == 0
    decreases hi
  {
    if lo < hi { CountZero(hd, lo, hi - 1); }
  }

  /** ceil(log2(w)) */
  function CeilLog2(w: nat): (c: nat)
    requires w >= 1
    ensures w <= Pow2(c) && (c > 0 ==> Pow2(c - 1) < w)
  {
    if w == 1 then 0 else CeilLog2((w + 1) / 2) + 1
  }

  /** seed_max_tree_len for w punctured leaves in a tree with d levels below its root. */
  function MaxNodes(w: nat, d: nat): int
    requires w >= 1
  {
    Pow2(CeilLog2(w)) + w * (d - CeilLog2(w) - 1)
  }

  /** 2^c - w (c + 1) */
  function Saving(w: nat, c: nat): int { Pow2(c) - w * (c + 1) }

  lemma SavingStep(w: nat, c: nat)
    ensures Saving(w, c + 1) - Saving(w, c) == Pow2(c) - w
  {
    assert w * (c + 2) == w * (c + 1) + w;
  }

  /** The saving is smallest at ceil(log2(w)). */
  lemma {:induction false} SavingLeast(w: nat, c: nat)
    requires w >= 1
    ensures Saving(w, CeilLog2(w)) <= Saving(w, c)
    decreases if c < CeilLog2(w) then CeilLog2(w) - c else c - CeilLog2(w)
  {
    hide Saving, CeilLog2;
    var least := CeilLog2(w);
    if c < least {
      SavingStep(w, c);
      Pow2Monotone(c, least - 1);
      SavingLeast(w, c + 1);
    } else if c > least {
      SavingStep(w, c - 1);
      Pow2Monotone(least, c - 1);
      SavingLeast(w, c - 1);
    }
  }

  lemma MaxNodesSaving(w: nat, d: nat)
    requires w >= 1
    ensures MaxNodes(w, d) == w * d + Saving(w, CeilLog2(w))
  {
    var c := CeilLog2(w);
    assert w * (d - c - 1) == w * d - w * (c + 1);
  }

  /** Splitting the punctured leaves over the two halves. */
  lemma MaxNodesSplit(w1: nat, w2: nat, d: nat)
    requires w1 >= 1 && w2 >= 1 && d >= 1
    ensures MaxNodes(w1, d - 1) + MaxNodes(w2, d - 1) <= MaxNodes(w1 + w2, d)
  {
    hide MaxNodes, CeilLog2, Saving;
    var w, e := w1 + w2, d - 1;
    var c := CeilLog2(w);
    assert c >= 1 by { PowZero(c); }
    SavingLeast(w1, c - 1);
    SavingLeast(w2, c - 1);
    MaxNodesSaving(w1, e);
    MaxNodesSaving(w2, e);
    MaxNodesSaving(w, d);
    SavingSum(w1, w2, c);
    LevelSum(w1, w2, e);
  }

  lemma PowZero(c: nat)
    ensures Pow2(c) > 1 ==> c >= 1
  {
  }

  lemma LevelSum(w1: nat, w2: nat, e: nat)
    ensures (w1 + w2) * (e + 1) == w1 * e + w2 * e + w1 + w2
  {
  }

  lemma SavingSum(w1: nat, w2: nat, c: nat)
    requires c >= 1
    ensures Saving(w1, c - 1) + Saving(w2, c - 1) == Saving(w1 + w2, c) + w1 + w2
  {
    assert w1 * c + w2 * c == (w1 + w2) * c;
    assert (w1 + w2) * (c + 1) == (w1 + w2) * c + (w1 + w2);
  }

  /** One more level costs w, and at least the one node of a clean half. */
  lemma MaxNodesLevel(w: nat, d: nat)
    requires w >= 1 && d >= 1
    ensures MaxNodes(w, d - 1) + 1 <= MaxNodes(w, d)
  {
    var c := CeilLog2(w);
    assert w * (d - c - 1) == w * (d - 1 - c - 1) + w;
  }

  lemma MaxNodesLeaf()
    ensures MaxNodes(1, 0) == 0
  {
    assert Pow2(0) == 1;
  }

  lemma MaxNodesPositive(w: nat, d: nat)
    requires 1 <= w <= Pow2(d)
    ensures MaxNodes(w, d) >= 0
  {
    hide CeilLog2, Pow2;
    var c := CeilLog2(w);
    if c > d {
      Pow2Monotone(d, c - 1);
    } else if c == d {
      assert w * (d - c - 1) + w == 0;
    } else {
      MulLe(0, d - c - 1, w);
    }
  }

  /** With w >= 1 punctured leaves below (h, i), the path has at most MaxNodes(w, H - h) nodes there. */
  lemma {:induction false} NodesBound(hd: Challenge, h: nat, i: nat)
    requires h <= H
    ensures var w := Count(hd, Left(h, i), Left(h, i + 1));
      if w == 0 then |Nodes(hd, h, i)| <= 1 else |Nodes(hd, h, i)| <= MaxNodes(w, H - h)
    decreases H - h
  {
    hide Left, MaxNodes, Nodes, Count;
    NodesCases(hd, h, i);
    var w := Count(hd, Left(h, i), Left(h, i + 1));
    CountZero(hd, Left(h, i), Left(h, i + 1));
    if w > 0 && h < H {
      Halves(h, i);
      CountSplit(hd, Left(h, i), Left(h + 1, 2 * i + 1), Left(h, i + 1));
      NodesBound(hd, h + 1, 2 * i);
      NodesBound(hd, h + 1, 2 * i + 1);
      var w1 := Count(hd, Left(h + 1, 2 * i), Left(h + 1, 2 * i + 1));
      var w2 := Count(hd, Left(h + 1, 2 * i + 1), Left(h + 1, 2 * i + 2));
      if w1 > 0 && w2 > 0 {
        MaxNodesSplit(w1, w2, H - h);
      } else {
        MaxNodesLevel(w, H - h);
      }
    } else if w > 0 {
      OneLeaf(hd, i);
      MaxNodesLeaf();
    }
  }

  lemma OneLeaf(hd: Challenge, i: nat)
    ensures Count(hd, Left(H, i), Left(H, i + 1)) <= 1
  {
    hide Left;
    LeafLeft(i);
    LeafLeft(i + 1);
    assert Count(hd, i, i) == 0;
  }

  // ----- the bound is attained -----

  /** w punctured leaves spread evenly over 2^d. */
  ghost function Spread(w: nat, d: nat): (hd: Challenge)
    requires w <= Pow2(d)
    ensures |hd| == Pow2(d)
    decreases d
  {
    if d == 0 then [w] else Spread((w + 1) / 2, d - 1) + Spread(w / 2, d - 1)
  }

  lemma {:induction false} SpreadCount(w: nat, d: nat)
    requires w <= Pow2(d)
    ensures Count(Spread(w, d), 0, Pow2(d)) == w
    decreases d
  {
    if d == 0 {
      assert Count([w], 0, 0) == 0 && Pow2(0) == 1;
    } else {
      PowDouble(d);
      hide Count, Pow2;
      var a, b := Spread((w + 1) / 2, d - 1), Spread(w / 2, d - 1);
      SpreadCount((w + 1) / 2, d - 1);
      SpreadCount(w / 2, d - 1);
      CountConcat(a, b);
    }
  }

  lemma CountConcat(a: Challenge, b: Challenge)
    ensures Count(a + b, 0, |a| + |b|) == Count(a, 0, |a|) + Count(b, 0, |b|)
  {
    hide Count;
    CountSplit(a + b, 0, |a|, |a| + |b|);
    CountPart(a + b, 0, a, |a|);
    CountPart(a + b, |a|, b, |b|);
  }

  lemma PowDouble(d: nat)
    requires d > 0
    ensures Pow2(d) == 2 * Pow2(d - 1)
  {
  }

  lemma {:induction false} CountPart(hd: Challenge, off: nat, part: Challenge, k: nat)
    requires k <= |part| && off + k <= |hd| && hd[off..off + k] == part[..k]
    ensures Count(hd, off, off + k) == Count(part, 0, k)
    decreases k
  {
    if k > 0 {
      assert hd[off..off + (k - 1)] == hd[off..off + k][..k - 1] == part[..k - 1];
      assert hd[off + (k - 1)] == hd[off..off + k][k - 1] == part[k - 1];
      CountPart(hd, off, part, k - 1);
    }
  }

  /** Halving the punctured leaves loses nothing. */
  lemma MaxNodesHalved(w: nat, d: nat)
    requires w >= 2 && d >= 1
    ensures MaxNodes((w + 1) / 2, d - 1) + MaxNodes(w / 2, d - 1) == MaxNodes(w, d)
  {
    hide MaxNodes, CeilLog2, Saving, Pow2;
    var w1, w2, c, e := (w + 1) / 2, w / 2, CeilLog2(w), d - 1;
    HalfSaving(w);
    UpperHalfLog(w);
    MaxNodesSaving(w1, e);
    MaxNodesSaving(w2, e);
    MaxNodesSaving(w, d);
    assert w1 + w2 == w;
    SavingSum(w1, w2, c);
    LevelSum(w1, w2, e);
  }

  lemma UpperHalfLog(w: nat)
    requires w >= 2
    ensures CeilLog2(w) == CeilLog2((w + 1) / 2) + 1
  {
  }

  lemma HalfSaving(w: nat)
    requires w >= 2
    ensures Saving(w / 2, CeilLog2(w / 2)) == Saving(w / 2, CeilLog2(w) - 1)
  {
    hide CeilLog2, Saving, Pow2;
    var c2 := CeilLog2(w / 2);
    HalfLog(w, CeilLog2(w), c2);
    if c2 + 2 == CeilLog2(w) { SavingStep(w / 2, c2); }
  }

  ghost predicate IsCeilLog2(w: nat, c: nat) {
    w <= Pow2(c) && (c > 0 ==> Pow2(c - 1) < w)
  }

  lemma HalfLog(w: nat, c: nat, c2: nat)
    requires w >= 2 && IsCeilLog2(w, c) && IsCeilLog2(w / 2, c2)
    ensures c >= 1 && (c2 + 1 == c || (c2 + 2 == c && Pow2(c2) == w / 2))
  {
    hide Pow2;
    PowZero(c);
    PowDouble(c);
    var v := w / 2;
    assert 2 * v <= w <= 2 * v + 1;
    if c2 + 1 > c {
      Pow2Monotone(c - 1, c2 - 1);
    } else if c2 + 1 < c {
      PowDouble(c - 1);
      Pow2Monotone(c2, c - 2);
      if c2 + 2 < c {
        PowDouble(c2 + 1);
        Pow2Monotone(c2 + 1, c - 2);
      }
    }
  }

  lemma MaxNodesOne(d: nat)
    ensures MaxNodes(1, d) == d
  {
    assert Pow2(0) == 1;
  }

  ghost predicate SpreadAt(hd: Challenge, lo: nat, w: nat, d: nat) {
    w <= Pow2(d) && lo + Pow2(d) <= |hd| && hd[lo..lo + Pow2(d)] == Spread(w, d)
  }

  lemma SpreadSplit(w: nat, d: nat)
    requires d >= 1 && w <= Pow2(d)
    ensures (w + 1) / 2 <= Pow2(d - 1)
    ensures Spread(w, d) == Spread((w + 1) / 2, d - 1) + Spread(w / 2, d - 1)
  {
  }

  lemma SliceHalves(hd: Challenge, lo: nat, q: nat, s1: Challenge, s2: Challenge)
    requires |s1| == |s2| == q && lo + 2 * q <= |hd| && hd[lo..lo + 2 * q] == s1 + s2
    ensures hd[lo..lo + q] == s1 && hd[lo + q..lo + 2 * q] == s2
  {
    var s := hd[lo..lo + 2 * q];
    assert hd[lo..lo + q] == s[..q] && hd[lo + q..lo + 2 * q] == s[q..];
  }

  lemma SpreadHalves(hd: Challenge, lo: nat, w: nat, d: nat)
    requires d >= 1 && SpreadAt(hd, lo, w, d)
    ensures SpreadAt(hd, lo, (w + 1) / 2, d - 1) && SpreadAt(hd, lo + Pow2(d - 1), w / 2, d - 1)
  {
    PowDouble(d);
    SpreadSplit(w, d);
    hide Pow2, Spread;
    SliceHalves(hd, lo, Pow2(d - 1), Spread((w + 1) / 2, d - 1), Spread(w / 2, d - 1));
  }

  lemma SpreadPunctures(hd: Challenge, lo: nat, w: nat, d: nat)
    requires SpreadAt(hd, lo, w, d)
    ensures Count(hd, lo, lo + Pow2(d)) == w
  {
    hide Count, Pow2, Spread;
    var s := Spread(w, d);
    assert s[..Pow2(d)] == s;
    CountPart(hd, lo, s, Pow2(d));
    SpreadCount(w, d);
  }

  lemma {:induction false} SpreadNodes(hd: Challenge, h: nat, i: nat, w: nat)
    requires h <= H && |hd| == T && SpreadAt(hd, Left(h, i), w, H - h)
    ensures |Nodes(hd, h, i)| == if w == 0 then 1 else MaxNodes(w, H - h)
    decreases H - h
  {
    hide Left, Nodes, MaxNodes, Count, SpreadAt, Pow2;
    NodesCases(hd, h, i);
    LeftWidth(h, i);
    var lo := Left(h, i);
    SpreadBound(hd, lo, w, H - h);
    SpreadPunctures(hd, lo, w, H - h);
    CountZero(hd, lo, Left(h, i + 1));
    if w > 0 && h == H {
      MaxNodesLeaf();
    } else if w > 0 {
      ChildLeft(h, i);
      SpreadHalves(hd, lo, w, H - h);
      SpreadNodes(hd, h + 1, 2 * i, (w + 1) / 2);
      SpreadNodes(hd, h + 1, 2 * i + 1, w / 2);
      if w == 1 {
        MaxNodesOne(H - h);
        MaxNodesOne(H - h - 1);
      } else {
        MaxNodesHalved(w, H - h);
      }
    }
  }

  lemma SpreadBound(hd: Challenge, lo: nat, w: nat, d: nat)
    requires SpreadAt(hd, lo, w, d)
    ensures lo < |hd| && (d == 0 ==> w <= 1)
  {
  }

  lemma LeftWidth(h: nat, i: nat)
    requires h <= H
    ensures Left(h, i + 1) == Left(h, i) + Pow2(H - h)
  {
  }

  /** In a full tree some challenge needs all the nodes the bound allows. */
  lemma BoundIsAttained(w: nat)
    requires T == Pow2(H) && 1 <= w <= T
    ensures exists hd: Challenge :: |hd| == T && Count(hd, 0, T) == w && |Nodes(hd, 0, 0)| == MaxNodes(w, H)
  {
    var hd := Spread(w, H);
    SpreadCount(w, H);
    assert Left(0, 0) == 0;
    assert hd[0..0 + Pow2(H)] == hd;
    SpreadNodes(hd, 0, 0, w);
  }
}
