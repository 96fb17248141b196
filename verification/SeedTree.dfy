/** The punctured seed tree of ref/seed.c: t_hash, and the iterative traversal that writes or reads
    the path.  The recursive form is Node.path and Node.patch of sage-ref/seedtree.py. */
module SeedTree {
  import opened Arithmetic
  import opened Params
  import opened Bits
  import opened Shake

  type Seed = s: seq<Octet> | |s| == PAR.seedBytes witness seq<Octet>(PAR.seedBytes, _ => 0)

  function ZeroSeed(): Seed {
    seq<Octet>(PAR.seedBytes, _ => 0)
  }

  const H: nat := PAR.height
  const T: nat := PAR.rounds

  // ----- nodes -----

  /** SEED_TREE_ADDR */
  function Addr(h: nat, i: nat): nat { Pow2(h) - 1 + i }

  ghost predicate IsNode(h: nat, i: nat) {
    h <= H && i < Pow2(h)
  }

  /** The leftmost descendant of (h0, i0) on level h. */
  function Edge(h0: nat, i0: nat, h: nat): nat
    requires h0 <= h
  {
    i0 * Pow2(h - h0)
  }

  /** Node (h, i) covers the leaves Left(h, i) to Left(h, i + 1) - 1. */
  function Left(h: nat, i: nat): nat
    requires h <= H
  {
    Edge(h, i, H)
  }

  /** (h, i) lies in the subtree of (h0, i0). */
  ghost predicate Under(h0: nat, i0: nat, h: nat, i: nat) {
    h0 <= h && Edge(h0, i0, h) <= i < Edge(h0, i0 + 1, h)
  }

  lemma EdgeSelf(h0: nat, i0: nat)
    ensures Edge(h0, i0, h0) == i0
  {
    assert Pow2(0) == 1;
  }

  lemma EdgeStep(h0: nat, i0: nat, h: nat)
    requires h0 < h
    ensures Edge(h0, i0, h) == 2 * Edge(h0, i0, h - 1)
  {
    var q := Pow2(h - 1 - h0);
    assert i0 * (2 * q) == 2 * (i0 * q);
  }

  lemma EdgeMonotone(h0: nat, i: nat, j: nat, h: nat)
    requires h0 <= h && i <= j
    ensures Edge(h0, i, h) <= Edge(h0, j, h)
  {
    MulLe(i, j, Pow2(h - h0));
  }

  /** The descendants of a descendant. */
  lemma EdgeTwice(h0: nat, i0: nat, h1: nat, h: nat)
    requires h0 <= h1 <= h
    ensures Edge(h1, Edge(h0, i0, h1), h) == Edge(h0, i0, h)
  {
    hide Pow2;
    Pow2Add(h1 - h0, h - h1);
    MulAssoc(i0, Pow2(h1 - h0), Pow2(h - h1));
  }

  lemma AddrInjective(h: nat, i: nat, h': nat, i': nat)
    requires i < Pow2(h) && i' < Pow2(h') && Addr(h, i) == Addr(h', i')
    ensures h == h' && i == i'
  {
    if h < h' { Pow2Monotone(h + 1, h'); }
    if h' < h { Pow2Monotone(h' + 1, h); }
  }

  lemma AddrBound(h: nat, i: nat)
    requires IsNode(h, i)
    ensures Addr(h, i) < Pow2(H + 1) - 1
  {
    Pow2Monotone(h + 1, H + 1);
  }

  lemma UnderParent(h0: nat, i0: nat, h: nat, i: nat)
    requires h0 < h
    ensures Under(h0, i0, h, i) <==> Under(h0, i0, h - 1, i / 2)
  {
    hide Edge;
    EdgeStep(h0, i0, h);
    EdgeStep(h0, i0 + 1, h);
  }

  // ----- derivation of seeds -----

  /** The four address bytes, little-endian. */
  function Le32(a: nat): (x: seq<Octet>)
    ensures |x| == 4
  {
    [a % 256, (a / 256) % 256, (a / 65536) % 256, (a / 16777216) % 256]
  }

  function HashInput(salt: seq<Octet>, seed: Seed, addr: nat): seq<Octet> {
    salt + seed + Le32(addr)
  }

  lemma BytePowers()
    ensures Pow2(0) == 1 && Pow2(8) == 256 && Pow2(16) == 65536 && Pow2(24) == 16777216
  {
    assert Pow2(8) == 256;
    Pow2Add(8, 8);
    Pow2Add(16, 8);
  }

  lemma FourBytes(x: seq<Octet>, a0: nat, a1: nat, a2: nat, a3: nat)
    requires x == [a0, a1, a2, a3] && a0 < 256 && a1 < 256 && a2 < 256 && a3 < 256
    ensures LeValue(x) == a0 + 256 * a1 + 65536 * a2 + 16777216 * a3
  {
    BytePowers();
    hide LeValue, Pow2;
    LeValueNone(x);
    LeValueNext(x, 0);
    LeValueNext(x, 1);
    LeValueNext(x, 2);
    LeValueNext(x, 3);
    assert x[..4] == x;
  }

  lemma FourDigits(a: nat)
    requires a < 0x1_0000_0000
    ensures a == a % 256 + 256 * ((a / 256) % 256) + 65536 * ((a / 65536) % 256) + 16777216 * ((a / 16777216) % 256)
  {
    assert a / 65536 == (a / 256) / 256 && a / 16777216 == (a / 65536) / 256;
  }

  /** The address bytes are the little-endian form of the address. */
  lemma Le32Value(a: nat)
    requires a < 0x1_0000_0000
    ensures LeValue(Le32(a)) == a
  {
    FourBytes(Le32(a), a % 256, (a / 256) % 256, (a / 65536) % 256, (a / 16777216) % 256);
    FourDigits(a);
  }

  /** Different seeds, and different addresses, are hashed as different inputs. */
  lemma HashInputInjective(salt: seq<Octet>, seed: Seed, addr: nat, salt': seq<Octet>, seed': Seed, addr': nat)
    requires |salt| == |salt'| && addr < 0x1_0000_0000 && addr' < 0x1_0000_0000
    requires HashInput(salt, seed, addr) == HashInput(salt', seed', addr')
    ensures salt == salt' && seed == seed' && addr == addr'
  {
    hide LeValue, Le32;
    var x, x', k := HashInput(salt, seed, addr), HashInput(salt', seed', addr'), |salt| + PAR.seedBytes;
    assert salt == x[..|salt|] && salt' == x'[..|salt|];
    assert seed == x[|salt|..k] && seed' == x'[|salt|..k];
    assert Le32(addr) == x[k..] && Le32(addr') == x'[k..];
    Le32Value(addr);
    Le32Value(addr');
  }

  /** The left (side 0) or right (side 1) child of the node at addr. */
  ghost function Child(salt: seq<Octet>, seed: Seed, addr: nat, side: nat): Seed {
    Bytes(HashInput(salt, seed, addr), side * PAR.seedBytes, PAR.seedBytes)
  }

  /** The seed of (h, i) as it follows from the seed of its ancestor (h0, i0). */
  ghost function Derived(salt: seq<Octet>, seed: Seed, h0: nat, h: nat, i: nat): Seed
    requires h0 <= h
    decreases h
  {
    if h == h0 then seed else Child(salt, Derived(salt, seed, h0, h - 1, i / 2), Addr(h - 1, i / 2), i % 2)
  }

  /** The seeds of the two children are consecutive parts of the stream of their parent's seed and address. */
  lemma DerivedChildren(salt: seq<Octet>, root: Seed, h: nat, i: nat)
    ensures Derived(salt, root, 0, h + 1, 2 * i) + Derived(salt, root, 0, h + 1, 2 * i + 1) ==
      Bytes(HashInput(salt, Derived(salt, root, 0, h, i), Pow2(h) - 1 + i), 0, PAR.seedBytes + PAR.seedBytes)
  {
    hide Bytes, HashInput, Pow2;
    assert (2 * i) / 2 == i && (2 * i) % 2 == 0 && (2 * i + 1) / 2 == i && (2 * i + 1) % 2 == 1;
    BytesConcat(HashInput(salt, Derived(salt, root, 0, h, i), Addr(h, i)), 0, PAR.seedBytes, PAR.seedBytes);
  }

  /** No two nodes of a tree are hashed as the same input, whatever their seeds. */
  lemma NodesHashApart(salt: seq<Octet>, h: nat, i: nat, h': nat, i': nat, seed: Seed, seed': Seed)
    requires IsNode(h, i) && IsNode(h', i') && (h != h' || i != i')
    ensures HashInput(salt, seed, Addr(h, i)) != HashInput(salt, seed', Addr(h', i'))
  {
    hide HashInput;
    AddressFits(h, i);
    AddressFits(h', i');
    if HashInput(salt, seed, Addr(h, i)) == HashInput(salt, seed', Addr(h', i')) {
      HashInputInjective(salt, seed, Addr(h, i), salt, seed', Addr(h', i'));
      AddrInjective(h, i, h', i');
    }
  }

  lemma AddressFits(h: nat, i: nat)
    requires IsNode(h, i)
    ensures Addr(h, i) < 0x1_0000_0000
  {
    Pow2Monotone(h + 1, 30);
    assert Pow2(30) == 1024 * 1024 * 1024 by { assert Pow2(10) == 1024; Pow2Add(10, 10); Pow2Add(20, 10); }
  }

  /** Deriving in two stages is deriving at once. */
  lemma {:induction false} DerivedTwice(salt: seq<Octet>, seed: Seed, h0: nat, h1: nat, i1: nat, h: nat, i: nat)
    requires h0 <= h1 && Under(h1, i1, h, i)
    ensures Derived(salt, Derived(salt, seed, h0, h1, i1), h1, h, i) == Derived(salt, seed, h0, h, i)
    decreases h
  {
    hide Child, Edge;
    if h > h1 {
      UnderParent(h1, i1, h, i);
      DerivedTwice(salt, seed, h0, h1, i1, h - 1, i / 2);
    } else {
      EdgeSelf(h, i1);
      EdgeSelf(h, i1 + 1);
    }
  }

  // ----- t_hash -----

  ghost predicate IsTree(s: seq<Seed>) {
    |s| >= Pow2(H + 1) - 1
  }

  ghost function SeedAt(s: seq<Seed>, h: nat, i: nat): Seed {
    if Addr(h, i) < |s| then s[Addr(h, i)] else ZeroSeed()
  }

  /** What t_hash puts at (h, i) when levels up to hi, and level hi + 1 left of lim, are done. */
  ghost function Hashed(s: seq<Seed>, salt: seq<Octet>, h0: nat, i0: nat, hi: nat, lim: nat, h: nat, i: nat): Seed
    requires h <= H
  {
    if h0 < h && Under(h0, i0, h, i) && Left(h, i) < T && (h <= hi || (h == hi + 1 && i < lim))
    then Derived(salt, SeedAt(s, h0, i0), h0, h, i) else SeedAt(s, h, i)
  }

  ghost predicate HashedUpTo(s: seq<Seed>, s': seq<Seed>, salt: seq<Octet>, h0: nat, i0: nat, hi: nat, lim: nat) {
    && |s'| == |s|
    && forall h, i :: IsNode(h, i) ==> SeedAt(s', h, i) == Hashed(s, salt, h0, i0, hi, lim, h, i)
  }

  /** t_hash from (h0, i0): exactly the descendants that start below T get their derived seeds. */
  ghost predicate IsHashed(s: seq<Seed>, s': seq<Seed>, salt: seq<Octet>, h0: nat, i0: nat) {
    HashedUpTo(s, s', salt, h0, i0, H, 0)
  }

  lemma ChildLeft(h: nat, i: nat)
    requires h < H
    ensures Left(h + 1, 2 * i) == Left(h, i) && Left(h + 1, 2 * i + 2) == Left(h, i + 1)
    ensures Left(h + 1, 2 * i + 1) == Left(h, i) + Pow2(H - h - 1)
  {
    var q := Pow2(H - h - 1);
    assert Pow2(H - h) == 2 * q;
    hide Pow2;
    MulAssoc(i, 2, q);
    MulAssoc(i + 1, 2, q);
    MulAdd(2 * i, 1, q);
  }

  lemma LeftMonotone(h: nat, i: nat, j: nat)
    requires h <= H && i <= j
    ensures Left(h, i) <= Left(h, j)
  {
    EdgeMonotone(h, i, j, H);
  }

  lemma UnderNode(h0: nat, i0: nat, h: nat, i: nat)
    requires IsNode(h0, i0) && h <= H && Under(h0, i0, h, i)
    ensures IsNode(h, i)
  {
    hide Pow2;
    Pow2Add(h0, h - h0);
    MulLe(i0 + 1, Pow2(h0), Pow2(h - h0));
  }

  /** One pass of the inner loop. */
  lemma HashStep(s: seq<Seed>, s1: seq<Seed>, s2: seq<Seed>, salt: seq<Octet>, h0: nat, i0: nat, h: nat, i: nat)
    requires IsTree(s) && IsNode(h0, i0) && h0 < h <= H && i % 2 == 0 && Under(h0, i0, h, i) && Left(h, i) < T
    requires HashedUpTo(s, s1, salt, h0, i0, h - 1, i)
    requires |s2| == |s| && Addr(h, i) + 1 < |s|
    requires forall a :: 0 <= a < |s| && a != Addr(h, i) && a != Addr(h, i) + 1 ==> s2[a] == s1[a]
    requires s2[Addr(h, i)] == Child(salt, SeedAt(s1, h - 1, i / 2), Addr(h - 1, i / 2), 0)
    requires s2[Addr(h, i) + 1] ==
      if Left(h, i + 1) >= T then s1[Addr(h, i) + 1] else Child(salt, SeedAt(s1, h - 1, i / 2), Addr(h - 1, i / 2), 1)
    ensures HashedUpTo(s, s2, salt, h0, i0, h - 1, i + 2)
  {
    hide Child, Left, Pow2, Edge;
    UnderNode(h0, i0, h, i);
    UnderParent(h0, i0, h, i);
    UnderParent(h0, i0, h, i + 1);
    UnderNode(h0, i0, h, i + 1);
    assert SeedAt(s1, h - 1, i / 2) == Derived(salt, SeedAt(s, h0, i0), h0, h - 1, i / 2) by {
      ParentReady(s, s1, salt, h0, i0, h, i);
    }
    forall g, j | IsNode(g, j) ensures SeedAt(s2, g, j) == Hashed(s, salt, h0, i0, h - 1, i + 2, g, j) {
      if Addr(g, j) == Addr(h, i) {
        AddrInjective(g, j, h, i);
      } else if Addr(g, j) == Addr(h, i + 1) {
        AddrInjective(g, j, h, i + 1);
      } else {
        HashedElsewhere(s, salt, h0, i0, h, i, g, j);
      }
    }
  }

  /** A pass changes no node but the two it is for. */
  lemma HashedElsewhere(s: seq<Seed>, salt: seq<Octet>, h0: nat, i0: nat, h: nat, i: nat, g: nat, j: nat)
    requires IsTree(s) && 0 < h <= H && IsNode(g, j) && Addr(g, j) != Addr(h, i) && Addr(g, j) != Addr(h, i + 1)
    ensures Hashed(s, salt, h0, i0, h - 1, i + 2, g, j) == Hashed(s, salt, h0, i0, h - 1, i, g, j)
  {
    hide Left, Pow2, Edge, Derived, SeedAt, Under;
  }

  /** The parent has its seed when a child is derived. */
  lemma ParentReady(s: seq<Seed>, s1: seq<Seed>, salt: seq<Octet>, h0: nat, i0: nat, h: nat, i: nat)
    requires IsTree(s) && IsNode(h0, i0) && h0 < h <= H && i % 2 == 0 && Under(h0, i0, h, i) && Left(h, i) < T
    requires HashedUpTo(s, s1, salt, h0, i0, h - 1, i)
    ensures SeedAt(s1, h - 1, i / 2) == Derived(salt, SeedAt(s, h0, i0), h0, h - 1, i / 2)
  {
    hide Child, SeedAt, Edge, Pow2, Left;
    UnderParent(h0, i0, h, i);
    UnderNode(h0, i0, h - 1, i / 2);
    ChildLeft(h - 1, i / 2);
    if h - 1 == h0 {
      EdgeSelf(h0, i0);
      EdgeSelf(h0, i0 + 1);
    }
  }

  lemma LevelDone(s: seq<Seed>, s': seq<Seed>, salt: seq<Octet>, h0: nat, i0: nat, h: nat, lim: nat)
    requires 0 < h <= H && h0 < h && HashedUpTo(s, s', salt, h0, i0, h - 1, lim)
    requires forall i: nat :: Under(h0, i0, h, i) && Left(h, i) < T ==> i < lim
    ensures HashedUpTo(s, s', salt, h0, i0, h, 0)
  {
    hide Derived, SeedAt, Left, Edge;
  }

  lemma LevelStart(s: seq<Seed>, s': seq<Seed>, salt: seq<Octet>, h0: nat, i0: nat, h: nat, start: nat)
    requires h < H && h0 <= h && HashedUpTo(s, s', salt, h0, i0, h, 0)
    requires start == Edge(h0, i0, h + 1)
    ensures HashedUpTo(s, s', salt, h0, i0, h, start)
  {
    hide Derived, SeedAt, Left, Edge;
  }

  /** The two children of one node, or only the left one at the right end of the tree. */
  method HashPair(stree: array<Seed>, shake: KeccakState, salt: seq<Octet>, h: nat, i: nat)
    requires shake.s.Length == 25 && 0 < h <= H
    requires Addr(h, i) + 1 < stree.Length && Addr(h - 1, i / 2) < stree.Length
    modifies stree, shake, shake.s
    ensures forall a :: 0 <= a < stree.Length && a != Addr(h, i) && a != Addr(h, i) + 1 ==> stree[a] == old(stree[a])
    ensures stree[Addr(h, i)] == Child(salt, old(SeedAt(stree[..], h - 1, i / 2)), Addr(h - 1, i / 2), 0)
    ensures stree[Addr(h, i) + 1] == if Left(h, i + 1) >= T then old(stree[Addr(h, i) + 1])
      else Child(salt, old(SeedAt(stree[..], h - 1, i / 2)), Addr(h - 1, i / 2), 1)
  {
    hide Left, Pow2, Le32, KeccakState.Absorbing, KeccakState.Squeezing, Stream, Bytes;
    ghost var parent := SeedAt(stree[..], h - 1, i / 2);
    assert parent == stree[Addr(h - 1, i / 2)];
    var buf := HashInput(salt, stree[Addr(h - 1, i / 2)], Addr(h - 1, i / 2));
    shake.Init();
    shake.AbsorbMore(buf);
    shake.FinishAbsorbing();
    assert shake.message == buf;
    var both := Left(h, i + 1) < T;
    var len := if both then 2 * PAR.seedBytes else PAR.seedBytes;
    var out := shake.Squeeze(len);
    PairBytes(buf, len, out);
    stree[Addr(h, i)] := out[..PAR.seedBytes];
    if both {
      stree[Addr(h, i + 1)] := out[PAR.seedBytes..];
    }
  }

  lemma PairBytes(buf: seq<Octet>, len: nat, out: seq<Octet>)
    requires len == PAR.seedBytes || len == 2 * PAR.seedBytes
    requires out == Bytes(buf, 0, len)
    ensures out[..PAR.seedBytes] == Bytes(buf, 0 * PAR.seedBytes, PAR.seedBytes)
    ensures len == 2 * PAR.seedBytes ==> out[PAR.seedBytes..] == Bytes(buf, 1 * PAR.seedBytes, PAR.seedBytes)
  {
    hide Bytes;
    BytesSplit(buf, 0, PAR.seedBytes, len - PAR.seedBytes);
  }

  /** The inner loop of t_hash: level h, pairs of children from start to end. */
  method HashLevel(stree: array<Seed>, salt: seq<Octet>, h: nat, start: nat, end: nat,
      ghost s: seq<Seed>, ghost h0: nat, ghost i0: nat)
    requires IsTree(stree[..]) && IsTree(s) && IsNode(h0, i0) && h0 < h <= H
    requires start == Edge(h0, i0, h) && end == Edge(h0, i0 + 1, h)
    requires HashedUpTo(s, stree[..], salt, h0, i0, h - 1, 0)
    modifies stree
    ensures HashedUpTo(s, stree[..], salt, h0, i0, h, 0)
  {
    hide Child, Derived, SeedAt, Left, Edge, Pow2;
    LevelStart(s, stree[..], salt, h0, i0, h - 1, start);
    EvenBounds(h0, i0, h);
    var shake := new KeccakState();
    var i: nat := start;
    while i < end
      invariant start <= i <= end && i % 2 == 0 && fresh(shake) && fresh(shake.s) && shake.s.Length == 25
      invariant stree.Length == |s| && HashedUpTo(s, stree[..], salt, h0, i0, h - 1, i)
    {
      if Left(h, i) >= T { break; }
      UnderNode(h0, i0, h, i);
      UnderNode(h0, i0, h, i + 1);
      AddrBound(h, i + 1);
      UnderParent(h0, i0, h, i);
      UnderParent(h0, i0, h, i + 1);
      UnderNode(h0, i0, h - 1, i / 2);
      AddrBound(h - 1, i / 2);
      ghost var s1 := stree[..];
      HashPair(stree, shake, salt, h, i);
      HashStep(s, s1, stree[..], salt, h0, i0, h, i);
      i := i + 2;
    }
    forall j: nat | Under(h0, i0, h, j) && Left(h, j) < T ensures j < i {
      if i < end && i <= j { LeftMonotone(h, i, j); }
    }
    LevelDone(s, stree[..], salt, h0, i0, h, i);
  }

  /** t_hash */
  method THash(stree: array<Seed>, salt: seq<Octet>, h0: nat, i0: nat)
    requires IsTree(stree[..]) && IsNode(h0, i0)
    modifies stree
    ensures IsHashed(old(stree[..]), stree[..], salt, h0, i0)
  {
    hide Child, Derived, SeedAt, Left, Edge, Pow2;
    ghost var s := stree[..];
    var start, end := i0, i0 + 1;
    var h := h0 + 1;
    EdgeSelf(h0, i0);
    EdgeSelf(h0, i0 + 1);
    NothingHashed(s, salt, h0, i0);
    while h < H + 1
      invariant h0 < h <= H + 1 && stree.Length == |s|
      invariant start == Edge(h0, i0, h - 1) && end == Edge(h0, i0 + 1, h - 1)
      invariant HashedUpTo(s, stree[..], salt, h0, i0, h - 1, 0)
    {
      EdgeStep(h0, i0, h);
      EdgeStep(h0, i0 + 1, h);
      start := 2 * start;
      end := 2 * end;
      if Left(h, start) >= T { break; }
      HashLevel(stree, salt, h, start, end, s, h0, i0);
      h := h + 1;
    }
    if h <= H { RestOutside(s, stree[..], salt, h0, i0, h); }
  }

  lemma NothingHashed(s: seq<Seed>, salt: seq<Octet>, h0: nat, i0: nat)
    ensures HashedUpTo(s, s, salt, h0, i0, h0, 0)
  {
    hide Derived;
  }

  /** When the left edge is past T, no descendant starts before T. */
  lemma RestOutside(s: seq<Seed>, s': seq<Seed>, salt: seq<Octet>, h0: nat, i0: nat, h: nat)
    requires h0 < h <= H && HashedUpTo(s, s', salt, h0, i0, h - 1, 0)
    requires Left(h, Edge(h0, i0, h)) >= T
    ensures IsHashed(s, s', salt, h0, i0)
  {
    hide Derived, SeedAt, Left, Pow2, Under, Edge;
    forall g: nat, j: nat | h <= g <= H && Under(h0, i0, g, j) ensures Left(g, j) >= T {
      RightOf(h0, i0, h, g, j);
    }
  }

  lemma RightOf(h0: nat, i0: nat, h: nat, g: nat, j: nat)
    requires h0 <= h <= g <= H && Under(h0, i0, g, j)
    ensures Left(g, j) >= Left(h, Edge(h0, i0, h))
  {
    hide Edge;
    EdgeTwice(h0, i0, h, H);
    EdgeTwice(h0, i0, g, H);
    LeftMonotone(g, Edge(h0, i0, g), j);
  }

  lemma EvenBounds(h0: nat, i0: nat, h: nat)
    requires h0 < h
    ensures Edge(h0, i0, h) % 2 == 0 && Edge(h0, i0 + 1, h) % 2 == 0
    ensures Edge(h0, i0, h) <= Edge(h0, i0 + 1, h)
  {
    hide Edge;
    EdgeStep(h0, i0, h);
    EdgeStep(h0, i0 + 1, h);
    EdgeMonotone(h0, i0, i0 + 1, h);
  }
}
