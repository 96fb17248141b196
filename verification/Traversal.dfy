/** stree_to_path_to_stree (ref/seed.c): one iterative depth-first traversal that emits the path nodes
    or fills a tree from them, and the round trip between signer and verifier. */
module Traversal {
  import opened Arithmetic
  import opened Params
  import opened Bits
  import opened BitStream
  import opened SeedTree
  import opened PathNodes

  const L: nat := PAR.seedBytes
  const WEIGHT: nat := PAR.weight

  /** MEDS_max_path_len, and the bytes of the path slot. */
  const MAX_PATH: nat := (MaxNodesPositive(WEIGHT, CeilLog2(T)); MaxNodes(WEIGHT, CeilLog2(T)))
  const PATH_BYTES: nat := (MulLe(0, MAX_PATH, L); MAX_PATH * L)

  /** One entry for every round, as many positive ones as the parameter w says (parse_hash). */
  ghost predicate IsChallenge(hd: Challenge) {
    |hd| == T && Count(hd, 0, T) == WEIGHT
  }

  lemma LeavesNeedNoMore()
    ensures CeilLog2(T) <= H
  {
    hide CeilLog2, Pow2;
    if CeilLog2(T) > H { Pow2Monotone(H, CeilLog2(T) - 1); }
  }

  /** The leftmost subtree of level h, as long as it holds all leaves, has no more path nodes than the
      bound for a tree as high as its leaves need: right halves that start behind them add nothing. */
  lemma {:induction false} SpineBound(hd: Challenge, h: nat)
    requires IsChallenge(hd) && CeilLog2(T) <= H && h <= H - CeilLog2(T)
    ensures |Nodes(hd, h, 0)| <= MAX_PATH
    decreases H - h
  {
    hide Left, Nodes, MaxNodes, Count, CeilLog2, Clean;
    SpineLeaves(h);
    Pow2Monotone(CeilLog2(T), H - h);
    CountSplit(hd, 0, T, Left(h, 1));
    NoneBeyond(hd, Left(h, 1));
    if h == H - CeilLog2(T) {
      NodesBound(hd, h, 0);
    } else {
      SpineBound(hd, h + 1);
      SpineLeaves(h + 1);
      Pow2Monotone(CeilLog2(T), H - h - 1);
      NodesCases(hd, h, 0);
      NodesCases(hd, h + 1, 1);
      SpinePunctured(hd, h);
    }
  }

  lemma SpineLeaves(h: nat)
    requires h <= H
    ensures Left(h, 0) == 0 && Left(h, 1) == Pow2(H - h)
  {
  }

  lemma SpinePunctured(hd: Challenge, h: nat)
    requires h <= H && IsChallenge(hd) && Left(h, 0) == 0 && Left(h, 1) >= T
    ensures !Clean(hd, h, 0)
  {
    hide Left;
    CountZero(hd, 0, T);
  }

  /** The path of every challenge fits its slot, whatever the height of the tree. */
  lemma PathFits(hd: Challenge)
    requires IsChallenge(hd)
    ensures |Nodes(hd, 0, 0)| <= MAX_PATH
  {
    hide Nodes, Count, CeilLog2, IsChallenge;
    LeavesNeedNoMore();
    SpineBound(hd, 0);
  }

  lemma RootLeaves()
    ensures Left(0, 0) == 0 && Left(0, 1) == Pow2(H)
  {
  }

  lemma {:induction false} NoneBeyond(hd: Challenge, hi: nat)
    requires |hd| <= hi
    ensures Count(hd, |hd|, hi) == 0
    decreases hi
  {
    if |hd| < hi { NoneBeyond(hd, hi - 1); }
  }

  // ----- the index array -----

  /** ind lists the punctured leaves below k, in order. */
  ghost predicate IsIndex(ind: seq<nat>, hd: Challenge, k: nat) {
    && (forall a :: 0 <= a < |ind| ==> ind[a] < k && ind[a] < |hd| && hd[ind[a]] > 0)
    && (forall a, b :: 0 <= a < b < |ind| ==> ind[a] < ind[b])
    && (forall j :: 0 <= j < k && j < |hd| && hd[j] > 0 ==> j in ind)
  }

  /** The first c entries list the punctured leaves, at least one; zeros follow. */
  ghost predicate IsPadded(ind: seq<nat>, hd: Challenge, c: nat) {
    && 1 <= c <= |ind| && IsIndex(ind[..c], hd, T)
    && forall a :: c <= a < |ind| ==> ind[a] == 0
  }

  /** Entry id is the first punctured leaf not before lo, or there is none. */
  ghost predicate NextIndex(ind: seq<nat>, c: nat, id: nat, lo: nat) {
    && id < |ind| && c <= |ind|
    && ((id < c && ind[id] >= lo && forall a :: 0 <= a < id ==> ind[a] < lo)
      || forall a :: 0 <= a < c ==> ind[a] < lo)
  }

  /** The loop test: the next punctured leaf lies below (h, i). */
  lemma NextIsBelow(ind: seq<nat>, hd: Challenge, c: nat, id: nat, h: nat, i: nat)
    requires h <= H && |hd| == T && IsPadded(ind, hd, c) && NextIndex(ind, c, id, Left(h, i))
    ensures ind[id] / Pow2(H - h) == i <==> !Clean(hd, h, i)
  {
    QuotientIsNode(ind[id], h, i);
    hide Left, Pow2;
    if !Clean(hd, h, i) {
      var j :| Left(h, i) <= j < Left(h, i + 1) && j < |hd| && hd[j] != 0;
      var a :| 0 <= a < c && ind[..c][a] == j;
      if id < a { assert ind[..c][id] < ind[..c][a]; }
    } else if id < c {
      assert hd[ind[..c][id]] > 0;
    } else {
      assert ind[id] == 0 && ind[0] < Left(h, i);
    }
  }

  lemma QuotientIsNode(x: nat, h: nat, i: nat)
    requires h <= H
    ensures x / Pow2(H - h) == i <==> Left(h, i) <= x < Left(h, i + 1)
  {
    LeftWidth(h, i);
    QuotientIs(x, Pow2(H - h), i);
  }

  lemma QuotientIs(x: nat, q: nat, i: nat)
    requires q > 0
    ensures x / q == i <==> i * q <= x < i * q + q
  {
    if i * q <= x < i * q + q { DivUnique(x, q, i, x - i * q); }
    assert x == (x / q) * q + x % q;
  }

  // ----- what is still to be visited -----

  /** The path nodes after the subtree of (h, i), in preorder. */
  ghost function After(hd: Challenge, h: nat, i: nat): seq<Node>
    requires h <= H
    decreases h
  {
    if h == 0 then []
    else if i % 2 == 0 then Nodes(hd, h, i + 1) + After(hd, h - 1, i / 2)
    else After(hd, h - 1, i / 2)
  }

  lemma Descend(hd: Challenge, h: nat, i: nat)
    requires h < H && Left(h, i) < T && !Clean(hd, h, i)
    ensures Nodes(hd, h, i) + After(hd, h, i) == Nodes(hd, h + 1, 2 * i) + After(hd, h + 1, 2 * i)
  {
    hide Left, Clean, Nodes, After;
    NodesCases(hd, h, i);
    AfterLeftHalf(hd, h, i);
    var a, b, c := Nodes(hd, h + 1, 2 * i), Nodes(hd, h + 1, 2 * i + 1), After(hd, h, i);
    assert (a + b) + c == a + (b + c);
  }

  lemma AfterLeftHalf(hd: Challenge, h: nat, i: nat)
    requires h < H
    ensures After(hd, h + 1, 2 * i) == Nodes(hd, h + 1, 2 * i + 1) + After(hd, h, i)
  {
    hide Nodes, Left, Clean, Pow2;
    var g, j := h + 1, 2 * i;
    assert j / 2 == i && j % 2 == 0;
    assert After(hd, g, j) == Nodes(hd, g, j + 1) + After(hd, g - 1, j / 2);
  }

  lemma {:induction false} NothingAfter(hd: Challenge, h: nat, i: nat)
    requires h <= H && Left(h, i + 1) >= T
    ensures After(hd, h, i) == []
    decreases h
  {
    hide Left, Clean;
    if h > 0 {
      ChildLeft(h - 1, i / 2);
      LeftMonotone(h, i + 1, i + 2);
      NothingAfter(hd, h - 1, i / 2);
    }
  }

  lemma LeftGrows(h: nat, i: nat)
    requires h <= H
    ensures Left(h, i) < Left(h, i + 1)
  {
    LeftWidth(h, i);
  }

  // ----- the path as bytes -----

  /** Where the k-th seed of the path starts. */
  ghost function PathPos(off: nat, k: nat): nat { off + k * L }

  lemma PathPosStep(off: nat, k: nat, l: nat)
    requires k < l
    ensures PathPos(off, 0) == off <= PathPos(off, k) && PathPos(off, k + 1) == PathPos(off, k) + L <= PathPos(off, l)
  {
    MulLe(k + 1, l, L);
  }

  /** The k-th seed in the path buffer. */
  ghost function PathSeed(path: seq<Octet>, off: nat, k: nat): Seed {
    var pos := PathPos(off, k);
    if pos + L <= |path| then path[pos..pos + L] else ZeroSeed()
  }

  /** The path holds the seeds of the given nodes. */
  ghost predicate IsPath(path: seq<Octet>, off: nat, s: seq<Seed>, nodes: seq<Node>) {
    && PathPos(off, |nodes|) <= |path|
    && forall k :: 0 <= k < |nodes| ==> PathSeed(path, off, k) == SeedAt(s, nodes[k].h, nodes[k].i)
  }

  /** Every leaf below a path node has the seed that follows from the path; leaves below no path node
      are as they were. */
  ghost predicate IsFilled(s0: seq<Seed>, s: seq<Seed>, salt: seq<Octet>, path: seq<Octet>, off: nat,
      nodes: seq<Node>)
  {
    && |s| == |s0|
    && (forall k, j :: 0 <= k < |nodes| && 0 <= j < T && nodes[k].h <= H && Covers(nodes[k], j) ==>
      SeedAt(s, H, j) == Derived(salt, PathSeed(path, off, k), nodes[k].h, H, j))
    && (forall j :: 0 <= j < T && !Covered(nodes, j) ==> SeedAt(s, H, j) == SeedAt(s0, H, j))
  }

  datatype Mode = StreeToPath | PathToStree

  /** The state after the given nodes have been visited. */
  ghost predicate Visited(mode: Mode, s0: seq<Seed>, s: seq<Seed>, salt: seq<Octet>,
      p0: seq<Octet>, path: seq<Octet>, off: nat, nodes: seq<Node>)
  {
    match mode
    case StreeToPath =>
      s == s0 && IsPath(path, off, s, nodes) && Outside(p0, path, off, PathPos(off, |nodes|))
    case PathToStree =>
      path == p0 && IsFilled(s0, s, salt, path, off, nodes)
  }

  ghost predicate AllBefore(nodes: seq<Node>, h: nat, i: nat)
    requires h <= H
  {
    forall x :: x in nodes ==> x.h <= H && Left(x.h, x.i + 1) <= Left(h, i)
  }

  lemma ConsumeStep(s0: seq<Seed>, s: seq<Seed>, s': seq<Seed>, salt: seq<Octet>, path: seq<Octet>, off: nat,
      nodes: seq<Node>, h: nat, i: nat)
    requires IsTree(s) && IsNode(h, i) && AllBefore(nodes, h, i)
    requires IsFilled(s0, s, salt, path, off, nodes) && Addr(h, i) < |s|
    requires IsHashed(s[Addr(h, i) := PathSeed(path, off, |nodes|)], s', salt, h, i)
    ensures IsFilled(s0, s', salt, path, off, nodes + [Node(h, i)])
  {
    hide Edge, Pow2, Derived, PathSeed, SeedAt;
    var seed := PathSeed(path, off, |nodes|);
    var s1 := s[Addr(h, i) := seed];
    forall j: nat | j < T
      ensures SeedAt(s', H, j) == if Covers(Node(h, i), j) then Derived(salt, seed, h, H, j) else SeedAt(s, H, j)
    {
      ConsumedLeaf(s, s', salt, seed, h, i, j);
    }
    var all := nodes + [Node(h, i)];
    forall k, j | 0 <= k < |all| && 0 <= j < T && all[k].h <= H && Covers(all[k], j)
      ensures SeedAt(s', H, j) == Derived(salt, PathSeed(path, off, k), all[k].h, H, j)
    {
      if k < |nodes| { assert nodes[k] in nodes; }
    }
    forall j: nat | j < T && !Covered(all, j) ensures SeedAt(s', H, j) == SeedAt(s0, H, j) {
      CoveredConcat(nodes, [Node(h, i)], j);
      assert Node(h, i) in [Node(h, i)];
    }
  }

  lemma ConsumedLeaf(s: seq<Seed>, s': seq<Seed>, salt: seq<Octet>, seed: Seed, h: nat, i: nat, j: nat)
    requires IsTree(s) && IsNode(h, i) && j < T && Addr(h, i) < |s|
    requires IsHashed(s[Addr(h, i) := seed], s', salt, h, i)
    ensures SeedAt(s', H, j) == if Covers(Node(h, i), j) then Derived(salt, seed, h, H, j) else SeedAt(s, H, j)
  {
    hide Edge, Child;
    LeafLeft(j);
    LeafLeft(j + 1);
    LeafIsNode(j);
    AddrBound(H, j);
    assert SeedAt(s', H, j) == Hashed(s[Addr(h, i) := seed], salt, h, i, H, 0, H, j);
    if Addr(H, j) == Addr(h, i) { AddrInjective(H, j, h, i); }
    if h == H {
      LeafLeft(i);
      LeafLeft(i + 1);
    }
  }

  lemma LeafIsNode(j: nat)
    requires j < T
    ensures IsNode(H, j)
  {
  }

  /** memcpy of one seed into the path. */
  method EmitSeed(path: array<Octet>, pos: nat, seed: Seed)
    requires pos + L <= path.Length
    modifies path
    ensures path[pos..pos + L] == seed && Outside(old(path[..]), path[..], pos, pos + L)
  {
    ghost var p0 := path[..];
    for j := 0 to L
      invariant path[pos..pos + j] == seed[..j]
      invariant path[..pos] == p0[..pos] && path[pos + L..] == p0[pos + L..]
    {
      path[pos + j] := seed[j];
    }
    assert seed[..L] == seed;
  }

  lemma EmitStep(s: seq<Seed>, p0: seq<Octet>, path: seq<Octet>, path': seq<Octet>, off: nat, nodes: seq<Node>, x: Node)
    requires IsPath(path, off, s, nodes) && Outside(p0, path, off, PathPos(off, |nodes|))
    requires Outside(path, path', PathPos(off, |nodes|), PathPos(off, |nodes|) + L)
    requires PathSeed(path', off, |nodes|) == SeedAt(s, x.h, x.i)
    ensures IsPath(path', off, s, nodes + [x]) && Outside(p0, path', off, PathPos(off, |nodes + [x]|))
  {
    hide SeedAt, PathPos, Outside;
    var e, all := PathPos(off, |nodes|), nodes + [x];
    PathPosStep(off, |nodes|, |all|);
    forall k | 0 <= k < |nodes| ensures PathSeed(path', off, k) == PathSeed(path, off, k) {
      PathPosStep(off, k, |nodes|);
      SliceKept(path, path', PathPos(off, k), PathPos(off, k) + L, e, e + L);
    }
    OutsideWiden(path, path', off, e, e + L);
    OutsideTrans(p0, path, path', off, e, e + L);
    OutsideLength(p0, path', off, e + L);
    hide PathSeed;
    forall k | 0 <= k < |all| ensures PathSeed(path', off, k) == SeedAt(s, all[k].h, all[k].i) {
      if k < |nodes| { assert all[k] == nodes[k]; }
    }
  }

  lemma OutsideLength(a: seq<Octet>, b: seq<Octet>, lo: nat, hi: nat)
    requires Outside(a, b, lo, hi)
    ensures lo <= hi <= |a| == |b|
  {
  }

  lemma SliceKept(a: seq<Octet>, b: seq<Octet>, lo: nat, hi: nat, e: nat, e': nat)
    requires lo <= hi <= e && Outside(a, b, e, e')
    ensures hi <= |a| == |b| && a[lo..hi] == b[lo..hi]
  {
    assert a[lo..hi] == a[..e][lo..hi] && b[lo..hi] == b[..e][lo..hi];
  }

  lemma OutsideWiden(a: seq<Octet>, b: seq<Octet>, lo: nat, mid: nat, hi: nat)
    requires lo <= mid && Outside(a, b, mid, hi)
    ensures Outside(a, b, lo, hi)
  {
    assert a[..lo] == a[..mid][..lo] && b[..lo] == b[..mid][..lo];
  }

  /** A node without punctured leaves: its seed goes to the path, or comes from the path and is expanded. */
  method Visit(stree: array<Seed>, path: array<Octet>, off: nat, pos: nat, h: nat, i: nat, salt: seq<Octet>, mode: Mode,
      ghost s0: seq<Seed>, ghost p0: seq<Octet>, ghost nodes: seq<Node>)
    requires IsTree(stree[..]) && IsNode(h, i) && AllBefore(nodes, h, i)
    requires pos == PathPos(off, |nodes|) && pos + L <= path.Length
    requires Visited(mode, s0, stree[..], salt, p0, path[..], off, nodes)
    modifies if mode == StreeToPath then {path} else {stree}
    ensures Visited(mode, s0, stree[..], salt, p0, path[..], off, nodes + [Node(h, i)])
  {
    hide IsPath, IsFilled, IsHashed, AllBefore, Outside, PathPos;
    AddrBound(h, i);
    ghost var s, bytes := stree[..], path[..];
    if mode == StreeToPath {
      assert SeedAt(s, h, i) == s[Addr(h, i)];
      EmitSeed(path, pos, stree[Addr(h, i)]);
      assert PathSeed(path[..], off, |nodes|) == SeedAt(s, h, i);
      EmitStep(s, p0, bytes, path[..], off, nodes, Node(h, i));
    } else {
      assert path[pos..pos + L] == PathSeed(bytes, off, |nodes|);
      stree[Addr(h, i)] := path[pos..pos + L];
      assert stree[..] == s[Addr(h, i) := PathSeed(bytes, off, |nodes|)];
      THash(stree, salt, h, i);
      ConsumeStep(s0, s, stree[..], salt, bytes, off, nodes, h, i);
    }
  }

  /** The marks of at most w leaves: all that the index array has room for. */
  ghost predicate IsMask(hd: Challenge) {
    |hd| == T && Count(hd, 0, T) <= WEIGHT
  }

  /** The marks the traversal acts on: an index array without entries reads as the mark of leaf 0. */
  ghost function Seen(hd: Challenge): (hd': Challenge)
    requires |hd| == T
    ensures |hd'| == T
  {
    if Count(hd, 0, T) == 0 then hd[0 := 1] else hd
  }

  lemma ChallengeIsSeen(hd: Challenge)
    requires IsChallenge(hd)
    ensures IsMask(hd) && Seen(hd) == hd && forall off: nat :: PathPos(off, |Nodes(hd, 0, 0)|) <= off + PATH_BYTES
  {
    hide Nodes;
    PathFits(hd);
    MulLe(|Nodes(hd, 0, 0)|, MAX_PATH, L);
  }

  /** The positions of the positive entries, ascending, and zeros behind them. */
  method FillIndices(hd: Challenge) returns (indices: array<nat>)
    requires IsMask(hd)
    ensures fresh(indices) && indices.Length == WEIGHT
    ensures IsIndex(indices[..Count(hd, 0, T)], hd, T)
    ensures forall a :: Count(hd, 0, T) <= a < WEIGHT ==> indices[a] == 0
  {
    hide IsIndex;
    indices := new nat[WEIGHT](_ => 0);
    IndexNone(hd);
    assert indices[..0] == [];
    var idx := 0;
    for i := 0 to T
      invariant idx == Count(hd, 0, i) && idx <= WEIGHT
      invariant IsIndex(indices[..idx], hd, i)
      invariant forall a :: idx <= a < WEIGHT ==> indices[a] == 0
    {
      CountSplit(hd, 0, i + 1, T);
      if hd[i] > 0 {
        IndexStep(indices[..idx], hd, i);
        ghost var before := indices[..idx];
        indices[idx] := i;
        idx := idx + 1;
        assert indices[..idx] == before + [i];
      } else {
        IndexSkip(indices[..idx], hd, i);
      }
    }
  }

  lemma PaddedIndex(hd: Challenge, ind: seq<nat>)
    requires IsMask(hd) && |ind| == WEIGHT && IsIndex(ind[..Count(hd, 0, T)], hd, T)
    requires forall a :: Count(hd, 0, T) <= a < WEIGHT ==> ind[a] == 0
    ensures IsPadded(ind, Seen(hd), if Count(hd, 0, T) == 0 then 1 else Count(hd, 0, T))
  {
    if Count(hd, 0, T) == 0 {
      CountZero(hd, 0, T);
      assert ind[..1] == [0];
    }
  }

  lemma IndexNone(hd: Challenge)
    ensures IsIndex([], hd, 0)
  {
  }

  lemma IndexStep(ind: seq<nat>, hd: Challenge, i: nat)
    requires IsIndex(ind, hd, i) && i < |hd| && hd[i] > 0
    ensures IsIndex(ind + [i], hd, i + 1)
  {
    forall j | 0 <= j < i + 1 && j < |hd| && hd[j] > 0 ensures j in ind + [i] {
      if j < i { assert j in ind; }
    }
  }

  lemma IndexSkip(ind: seq<nat>, hd: Challenge, i: nat)
    requires IsIndex(ind, hd, i) && i < |hd| && hd[i] == 0
    ensures IsIndex(ind, hd, i + 1)
  {
  }

  /** Where the traversal stands: out has been visited, (h, i) is next. */
  ghost predicate Standing(hd: Challenge, ind: seq<nat>, c: nat, id: nat, h: nat, i: nat, out: seq<Node>) {
    && IsNode(h, i) && Left(h, i) < T
    && Nodes(hd, 0, 0) == out + (Nodes(hd, h, i) + After(hd, h, i))
    && NextIndex(ind, c, id, Left(h, i))
    && AllBefore(out, h, i)
  }

  /** (h, i) is done: what remains starts at the right edge of its subtree. */
  ghost predicate Leaving(hd: Challenge, ind: seq<nat>, c: nat, id: nat, h: nat, i: nat, out: seq<Node>) {
    && IsNode(h, i)
    && Nodes(hd, 0, 0) == out + After(hd, h, i)
    && NextIndex(ind, c, id, Left(h, i + 1))
    && AllBefore(out, h, i + 1)
  }

  lemma StandingFirst(hd: Challenge, ind: seq<nat>, c: nat)
    requires IsPadded(ind, hd, c)
    ensures Standing(hd, ind, c, 0, 0, 0, [])
  {
    RootLeaves();
  }

  lemma StepDown(hd: Challenge, ind: seq<nat>, c: nat, id: nat, h: nat, i: nat, out: seq<Node>)
    requires Standing(hd, ind, c, id, h, i, out) && h < H && !Clean(hd, h, i)
    ensures Standing(hd, ind, c, id, h + 1, 2 * i, out) && Left(h + 1, 2 * i) == Left(h, i)
  {
    hide Left, Clean, Nodes, After;
    Descend(hd, h, i);
    Halves(h, i);
  }

  /** At a punctured leaf the index array is advanced. */
  lemma LeaveLeaf(hd: Challenge, ind: seq<nat>, c: nat, id: nat, i: nat, out: seq<Node>)
    requires Standing(hd, ind, c, id, H, i, out) && !Clean(hd, H, i) && |hd| == T && IsPadded(ind, hd, c)
    ensures Leaving(hd, ind, c, if id + 1 < |ind| then id + 1 else id, H, i, out)
  {
    hide Left, Clean, After, IsPadded, Nodes, NextIndex, AllBefore;
    NextAfterLeaf(ind, hd, c, id, i);
    AllBeforeGrows(out, H, i);
    NodesCases(hd, H, i);
    assert out + ([] + After(hd, H, i)) == out + After(hd, H, i);
  }

  lemma NextAfterLeaf(ind: seq<nat>, hd: Challenge, c: nat, id: nat, i: nat)
    requires |hd| == T && IsPadded(ind, hd, c) && NextIndex(ind, c, id, Left(H, i)) && !Clean(hd, H, i)
    ensures NextIndex(ind, c, if id + 1 < |ind| then id + 1 else id, Left(H, i + 1))
  {
    hide Left, Clean;
    NextIsBelow(ind, hd, c, id, H, i);
    QuotientIsNode(ind[id], H, i);
    LeafLeft(i);
    LeafLeft(i + 1);
  }

  lemma NextAfterNode(ind: seq<nat>, hd: Challenge, c: nat, id: nat, h: nat, i: nat)
    requires h <= H && |hd| == T && IsPadded(ind, hd, c) && NextIndex(ind, c, id, Left(h, i)) && Clean(hd, h, i)
    ensures NextIndex(ind, c, id, Left(h, i + 1))
  {
    hide Left, Clean, IsPadded;
    NextIsBelow(ind, hd, c, id, h, i);
    QuotientIsNode(ind[id], h, i);
    LeftGrows(h, i);
  }

  lemma AllBeforeGrows(out: seq<Node>, h: nat, i: nat)
    requires h <= H && AllBefore(out, h, i)
    ensures AllBefore(out, h, i + 1) && AllBefore(out + [Node(h, i)], h, i + 1)
  {
    hide Left;
    LeftGrows(h, i);
  }

  lemma LeaveVisited(hd: Challenge, ind: seq<nat>, c: nat, id: nat, h: nat, i: nat, out: seq<Node>)
    requires Standing(hd, ind, c, id, h, i, out) && Clean(hd, h, i) && |hd| == T && IsPadded(ind, hd, c)
    ensures Leaving(hd, ind, c, id, h, i, out + [Node(h, i)])
  {
    hide Left, Clean, After, Nodes, IsPadded, NextIndex, AllBefore;
    NextAfterNode(ind, hd, c, id, h, i);
    AllBeforeGrows(out, h, i);
    NodesCases(hd, h, i);
    assert out + ([Node(h, i)] + After(hd, h, i)) == (out + [Node(h, i)]) + After(hd, h, i);
  }

  lemma BackUp(hd: Challenge, ind: seq<nat>, c: nat, id: nat, h: nat, i: nat, out: seq<Node>)
    requires Leaving(hd, ind, c, id, h, i, out) && i % 2 == 1
    ensures h > 0 && Leaving(hd, ind, c, id, h - 1, i / 2, out) && Left(h - 1, i / 2 + 1) == Left(h, i + 1)
  {
    hide Left, Nodes;
    assert h == 0 ==> Pow2(h) == 1;
    ChildLeft(h - 1, i / 2);
  }

  lemma Advance(hd: Challenge, ind: seq<nat>, c: nat, id: nat, h: nat, i: nat, out: seq<Node>)
    requires Leaving(hd, ind, c, id, h, i, out) && i % 2 == 0 && Left(h, i + 1) < T
    ensures Standing(hd, ind, c, id, h, i + 1, out)
  {
    RootLeaves();
    hide Left, Nodes, NextIndex, AllBefore;
    assert h == 0 ==> Pow2(h) == 1;
  }

  lemma Finish(hd: Challenge, ind: seq<nat>, c: nat, id: nat, h: nat, i: nat, out: seq<Node>)
    requires Leaving(hd, ind, c, id, h, i, out) && Left(h, i + 1) >= T
    ensures out == Nodes(hd, 0, 0)
  {
    NothingAfter(hd, h, i);
  }

  /** A further seed fits into a path that has room for all of them. */
  lemma RoomForOne(hd: Challenge, h: nat, i: nat, out: seq<Node>, off: nat)
    requires h <= H && Clean(hd, h, i) && Left(h, i) < T
    requires Nodes(hd, 0, 0) == out + (Nodes(hd, h, i) + After(hd, h, i))
    ensures PathPos(off, |out|) + L <= PathPos(off, |Nodes(hd, 0, 0)|)
  {
    hide After, Left, Nodes, PathPos;
    NodesCases(hd, h, i);
    PathPosStep(off, |out|, |Nodes(hd, 0, 0)|);
  }

  /** stree_to_path_to_stree, in either mode, for the marks of at most w leaves and a path buffer with
      room for the nodes it visits. */
  method StreeToPathToStree(stree: array<Seed>, mask: Challenge, path: array<Octet>, off: nat, salt: seq<Octet>,
      mode: Mode)
    requires IsTree(stree[..]) && |mask| == T && IsMask(mask)
    requires PathPos(off, |Nodes(Seen(mask), 0, 0)|) <= path.Length
    modifies if mode == StreeToPath then {path} else {stree}
    ensures Visited(mode, old(stree[..]), stree[..], salt, old(path[..]), path[..], off, Nodes(Seen(mask), 0, 0))
  {
    hide Left, Clean, Nodes, After, Visited, Standing, Leaving, IsIndex, IsPadded, Count, Pow2, Seen, IsMask, PathPos;
    ghost var s0, p0 := stree[..], path[..];
    var h: nat, i: nat, id: nat, pos: nat := 0, 0, 0, off;
    var indices := FillIndices(mask);
    ghost var ind, hd, c := indices[..], Seen(mask), if Count(mask, 0, T) == 0 then 1 else Count(mask, 0, T);
    PaddedIndex(mask, ind);
    ghost var out: seq<Node> := [];
    StandingFirst(hd, ind, c);
    PathStart(off, |Nodes(hd, 0, 0)|);
    VisitedNone(mode, s0, salt, p0, off);
    while true
      invariant Standing(hd, ind, c, id, h, i, out) && h <= H && id < WEIGHT
      invariant indices[..] == ind && stree.Length == |s0| && path.Length == |p0| && pos == PathPos(off, |out|)
      invariant Visited(mode, s0, stree[..], salt, p0, path[..], off, out)
      decreases T - Left(h, i)
    {
      var indexLeaf := false;
      ghost var edge := Left(h, i);
      while indices[id] / Pow2(H - h) == i
        invariant Standing(hd, ind, c, id, h, i, out) && h <= H && Left(h, i) == edge
        invariant Visited(mode, s0, stree[..], salt, p0, path[..], off, out) && indices[..] == ind
        decreases H - h
      {
        ghost var g, j := h, i;
        LoopTest(hd, ind, c, id, h, i, out);
        h := h + 1;
        i := 2 * i;
        if h > H {
          h := h - 1;
          i := i / 2;
          LeaveLeaf(hd, ind, c, id, j, out);
          if id + 1 < WEIGHT { id := id + 1; }
          indexLeaf := true;
          break;
        }
        StepDown(hd, ind, c, id, g, j, out);
      }
      LeftGrows(h, i);
      if !indexLeaf {
        LoopTest(hd, ind, c, id, h, i, out);
        StandingFacts(hd, ind, c, id, h, i, out);
        RoomForOne(hd, h, i, out, off);
        Visit(stree, path, off, pos, h, i, salt, mode, s0, p0, out);
        LeaveVisited(hd, ind, c, id, h, i, out);
        PathPosStep(off, |out|, |out| + 1);
        pos := pos + L;
        out := out + [Node(h, i)];
      }
      while i % 2 == 1
        invariant Leaving(hd, ind, c, id, h, i, out) && h <= H && Left(h, i + 1) > edge
        invariant Visited(mode, s0, stree[..], salt, p0, path[..], off, out) && indices[..] == ind
        decreases h
      {
        BackUp(hd, ind, c, id, h, i, out);
        h := h - 1;
        i := i / 2;
      }
      i := i + 1;
      if Left(h, i) >= T {
        Finish(hd, ind, c, id, h, i - 1, out);
        return;
      }
      Advance(hd, ind, c, id, h, i - 1, out);
    }
  }

  lemma StandingFacts(hd: Challenge, ind: seq<nat>, c: nat, id: nat, h: nat, i: nat, out: seq<Node>)
    requires Standing(hd, ind, c, id, h, i, out)
    ensures IsNode(h, i) && Left(h, i) < T && AllBefore(out, h, i)
    ensures Nodes(hd, 0, 0) == out + (Nodes(hd, h, i) + After(hd, h, i))
  {
  }

  lemma LoopTest(hd: Challenge, ind: seq<nat>, c: nat, id: nat, h: nat, i: nat, out: seq<Node>)
    requires Standing(hd, ind, c, id, h, i, out) && |hd| == T && IsPadded(ind, hd, c)
    ensures id < |ind| && h <= H && (ind[id] / Pow2(H - h) == i <==> !Clean(hd, h, i))
  {
    NextIsBelow(ind, hd, c, id, h, i);
  }

  lemma PathStart(off: nat, k: nat)
    ensures off <= PathPos(off, k)
  {
    MulLe(0, k, L);
  }

  lemma VisitedNone(mode: Mode, s: seq<Seed>, salt: seq<Octet>, bytes: seq<Octet>, off: nat)
    requires off <= |bytes|
    ensures PathPos(off, 0) == off
    ensures Visited(mode, s, s, salt, bytes, bytes, off, [])
  {
  }

  // ----- signer and verifier -----

  /** Every node that starts before T has the seed that follows from the root. */
  ghost predicate IsFull(s: seq<Seed>, salt: seq<Octet>, root: Seed) {
    forall h, i :: IsNode(h, i) && Left(h, i) < T ==> SeedAt(s, h, i) == Derived(salt, root, 0, h, i)
  }

  /** t_hash from the root makes the tree full, whatever the other nodes held: a second call also
      restores the leaves that have been overwritten since the first. */
  lemma HashedIsFull(s0: seq<Seed>, s: seq<Seed>, salt: seq<Octet>)
    requires IsHashed(s0, s, salt, 0, 0)
    ensures IsFull(s, salt, SeedAt(s0, 0, 0))
  {
    hide Left, SeedAt, Child;
    forall h, i | IsNode(h, i) && Left(h, i) < T ensures SeedAt(s, h, i) == Derived(salt, SeedAt(s0, 0, 0), 0, h, i) {
      UnderRoot(h, i);
      assert SeedAt(s, h, i) == Hashed(s0, salt, 0, 0, H, 0, h, i);
      if h == 0 { assert i == 0; }
    }
  }

  lemma UnderRoot(h: nat, i: nat)
    requires IsNode(h, i)
    ensures Under(0, 0, h, i)
    ensures h == 0 ==> i == 0
  {
    RootEdges(h);
    hide Edge, Pow2;
  }

  lemma RootEdges(h: nat)
    ensures Edge(0, 0, h) == 0 && Edge(0, 1, h) == Pow2(h)
    ensures h == 0 ==> Pow2(h) == 1
  {
  }

  /** The verifier's tree has the signer's seed at every leaf that is not punctured, and nothing new at
      the punctured ones. */
  lemma SeedTreeRoundTrip(hd: Challenge, s: seq<Seed>, salt: seq<Octet>, root: Seed, path: seq<Octet>, off: nat,
      v0: seq<Seed>, v: seq<Seed>, j: nat)
    requires |hd| == T && j < T && IsFull(s, salt, root)
    requires IsPath(path, off, s, Nodes(hd, 0, 0)) && IsFilled(v0, v, salt, path, off, Nodes(hd, 0, 0))
    ensures SeedAt(v, H, j) == if hd[j] == 0 then SeedAt(s, H, j) else SeedAt(v0, H, j)
  {
    hide Left, Nodes, SeedAt, Edge, PathSeed, Derived, PathPos;
    RootLeaves();
    NodesCover(hd, 0, 0, j);
    if hd[j] == 0 {
      var x :| x in Nodes(hd, 0, 0) && x.h <= H && Covers(x, j);
      var k :| 0 <= k < |Nodes(hd, 0, 0)| && Nodes(hd, 0, 0)[k] == x;
      RoundTripLeaf(hd, s, salt, root, x, j);
    }
  }

  lemma RoundTripLeaf(hd: Challenge, s: seq<Seed>, salt: seq<Octet>, root: Seed, x: Node, j: nat)
    requires x in Nodes(hd, 0, 0) && x.h <= H && Covers(x, j) && j < T && IsFull(s, salt, root)
    ensures Derived(salt, SeedAt(s, x.h, x.i), x.h, H, j) == SeedAt(s, H, j)
  {
    hide Nodes, Derived, SeedAt, Edge, Pow2;
    NodesInside(hd, 0, 0, x);
    RootIsNode();
    LeafIsNode(j);
    LeafLeft(j);
    DerivedTwice(salt, root, 0, x.h, x.i, H, j);
  }

  lemma RootIsNode()
    ensures IsNode(0, 0)
  {
  }

  /** The path nodes: disjoint and in order, before T, over exactly the leaves that are not punctured, and
      none could be larger. */
  lemma TraversalIsCorrect(hd: Challenge)
    requires IsChallenge(hd)
    ensures forall k, l :: 0 <= k < l < |Nodes(hd, 0, 0)| ==> Before(Nodes(hd, 0, 0)[k], Nodes(hd, 0, 0)[l])
    ensures forall x :: x in Nodes(hd, 0, 0) ==>
      IsNode(x.h, x.i) && x.h > 0 && Left(x.h, x.i) < T && Clean(hd, x.h, x.i) && !Clean(hd, x.h - 1, x.i / 2)
    ensures forall j :: 0 <= j < T ==> (hd[j] == 0 <==> Covered(Nodes(hd, 0, 0), j))
    ensures |Nodes(hd, 0, 0)| <= MAX_PATH
  {
    hide Left, Nodes, Clean, MaxNodes, Covered;
    RootLeaves();
    RootIsNode();
    RootPunctured(hd);
    PathFits(hd);
    forall k: nat, l: nat | k < l < |Nodes(hd, 0, 0)| ensures Before(Nodes(hd, 0, 0)[k], Nodes(hd, 0, 0)[l]) {
      NodesOrdered(hd, 0, 0, k, l);
    }
    forall x | x in Nodes(hd, 0, 0)
      ensures IsPathNode(hd, 0, 0, x) && 0 < x.h <= H && !Clean(hd, x.h - 1, x.i / 2)
    {
      NodesInside(hd, 0, 0, x);
      NodesMaximal(hd, 0, 0, x);
    }
    forall j: nat | j < T ensures hd[j] == 0 <==> Covered(Nodes(hd, 0, 0), j) {
      NodesCover(hd, 0, 0, j);
    }
  }

  /** Marking at most w leaves, the traversal covers exactly the unmarked ones if and only if at least one
      leaf is marked: without a mark it takes leaf 0 for marked. */
  lemma CoversExactly(mask: Challenge)
    requires IsMask(mask)
    ensures (forall j :: 0 <= j < T ==> (mask[j] == 0 <==> Covered(Nodes(Seen(mask), 0, 0), j))) <==>
      Count(mask, 0, T) > 0
  {
    hide Left, Nodes, Covered, Clean;
    RootLeaves();
    forall j: nat | j < T ensures Seen(mask)[j] == 0 <==> Covered(Nodes(Seen(mask), 0, 0), j) {
      NodesCover(Seen(mask), 0, 0, j);
    }
    CountZero(mask, 0, T);
    hide Count;
    if Count(mask, 0, T) == 0 {
      assert mask[0] == 0 && Seen(mask)[0] == 1;
    }
  }

  lemma RootPunctured(hd: Challenge)
    requires IsChallenge(hd)
    ensures !Clean(hd, 0, 0)
  {
    RootLeaves();
    CountZero(hd, 0, T);
    hide Left;
  }
}
