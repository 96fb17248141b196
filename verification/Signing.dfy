/** crypto_sign (ref/meds_serial.c). */
module Signing {
  import opened Arithmetic
  import opened Params
  import opened Loops
  import opened Matrix
  import opened Products
  import opened Action
  import opened Bits
  import opened Shake
  import opened BitStream
  import opened SeedTree
  import opened PathNodes
  import opened Traversal
  import opened Sampling
  import opened ParseHash
  import opened Challenges
  import opened Packing
  import opened Scheme
  import opened SigningRuns
  import opened Codec
  import opened Keypair
  import opened Rounds

  // ----- the secret key -----

  ghost function LoadedParts(sk: seq<Octet>, lo: nat, hi: nat): (list: seq<Mat>)
    requires |sk| == SK_BYTES && lo <= hi
    ensures |list| == hi - lo
  {
    seq(hi - lo, j requires 0 <= j < hi - lo => LoadedPart(sk, lo + j))
  }

  lemma LoadedNext(sk: seq<Octet>, lo: nat, hi: nat)
    requires |sk| == SK_BYTES && lo <= hi
    ensures LoadedParts(sk, lo, hi + 1) == LoadedParts(sk, lo, hi) + [LoadedPart(sk, hi)]
  {
    hide LoadedPart;
  }

  /** KEYS matrices, each in a segment of its own. */
  method LoadMatrices(bs: BitStream, ghost sk: seq<Octet>, ghost lo: nat) returns (ms: seq<array<int>>)
    requires |sk| == SK_BYTES && lo + KEYS <= 2 * KEYS && Reading(bs, sk[SEC + PUB..], SegmentPos(lo, NN), 0)
    modifies bs
    ensures Reading(bs, sk[SEC + PUB..], SegmentPos(lo + KEYS, NN), 0)
    ensures Store(ms, LoadedParts(sk, lo, lo + KEYS)) && fresh(ms)
  {
    hide Reading, SegmentPos, Unpack, PackedLen;
    ms := [];
    ghost var bytes := sk[SEC + PUB..];
    for si := 0 to KEYS
      invariant Reading(bs, bytes, SegmentPos(lo + si, NN), 0)
      invariant Store(ms, LoadedParts(sk, lo, lo + si)) && fresh(ms)
    {
      var m := new int[NN](_ => 0);
      SegmentPosStep(lo + si, NN);
      SegmentPosWithin(lo + si, 2 * KEYS, NN);
      ReadMatrix(bs, m, bytes, SegmentPos(lo + si, NN));
      LoadedNext(sk, lo, lo + si);
      ms := ms + [m];
    }
  }

  lemma SegmentPosWithin(j: nat, total: nat, count: nat)
    requires j < total
    ensures SegmentPos(j, count) + PackedLen(count) <= SegmentPos(total, count)
  {
    hide PackedLen;
    MulLe(j + 1, total, PackedLen(count));
  }

  method LoadSecretKey(sk: array<Octet>) returns (aInvs: seq<array<int>>, bInvs: seq<array<int>>)
    requires sk.Length == SK_BYTES
    ensures Store(aInvs, LoadedParts(sk[..], 0, KEYS)) && Store(bInvs, LoadedParts(sk[..], KEYS, 2 * KEYS))
    ensures fresh(aInvs) && fresh(bInvs)
  {
    hide LoadedParts, Reading, SegmentPos;
    ghost var s := sk[..];
    var bs := new BitStream(sk, SEC + PUB, SK_BYTES - SEC - PUB);
    StartReading(bs, s[SEC + PUB..]);
    SegmentPosStep(0, NN);
    SegmentPosSplit(KEYS, NN);
    aInvs := LoadMatrices(bs, s, 0);
    bInvs := LoadMatrices(bs, s, KEYS);
    ReadingValid(bs, s[SEC + PUB..], SegmentPos(KEYS + KEYS, NN));
    var last := bs.Finalize();
  }

  lemma ReadingValid(bs: BitStream, bytes: seq<Octet>, pos: nat)
    requires Reading(bs, bytes, pos, 0)
    ensures bs.Valid()
  {
  }

  lemma StartReading(bs: BitStream, bytes: seq<Octet>)
    requires bs.Valid() && bs.Position() == 0 && bs.Window() == bytes
    ensures Reading(bs, bytes, 0, 0)
  {
    BitPosStep(0, 0);
  }

  // ----- the rounds -----

  ghost function As(rs: seq<Round>): (list: seq<Mat>)
    ensures |list| == |rs|
  {
    seq(|rs|, i requires 0 <= i < |rs| => rs[i].a)
  }

  ghost function Bs(rs: seq<Round>): (list: seq<Mat>)
    ensures |list| == |rs|
  {
    seq(|rs|, i requires 0 <= i < |rs| => rs[i].b)
  }

  lemma {:induction false} RoundsPrefix(g0: Mat, alpha: seq<Octet>, rho: Seed, count: nat, i: nat)
    requires RoundsOf(g0, alpha, rho, count).Some? && i <= count
    ensures RoundsOf(g0, alpha, rho, i).Some?
    ensures i < count ==> RoundOf(g0, alpha, i, Derived(alpha, rho, 0, H, i)).Some?
    decreases count
  {
    hide RoundOf, Derived;
    if i < count {
      RoundsPrefix(g0, alpha, rho, count - 1, i);
    }
  }

  lemma RoundsAppend(g0: Mat, alpha: seq<Octet>, rho: Seed, i: nat)
    requires RoundsOf(g0, alpha, rho, i).Some? && RoundOf(g0, alpha, i, Derived(alpha, rho, 0, H, i)).Some?
    ensures var rs, r := RoundsOf(g0, alpha, rho, i).value, RoundOf(g0, alpha, i, Derived(alpha, rho, 0, H, i)).value;
      && RoundsOf(g0, alpha, rho, i + 1) == Some(rs + [r])
      && IsMatrix(r.g, N * NN) && GoodRounds(rs) && GoodRounds(rs + [r])
      && Commitments(rs + [r]) == Commitments(rs) + Commitment(r.g)
  {
    hide RoundOf, Derived, Commitment;
    var rs, r := RoundsOf(g0, alpha, rho, i).value, RoundOf(g0, alpha, i, Derived(alpha, rho, 0, H, i)).value;
    TheseAreGood(g0, alpha, rho, i);
    RoundIsGood(g0, alpha, i, Derived(alpha, rho, 0, H, i));
    hide Singular, SystForm, Pi, RoundsOf;
    assert (rs + [r])[..|rs|] == rs;
  }

  lemma RoundsNone(g0: Mat, alpha: seq<Octet>, rho: Seed)
    ensures RoundsOf(g0, alpha, rho, 0) == Some([]) && GoodRounds([]) && Commitments([]) == []
  {
  }

  /** The leaves from i on still hold the seeds that follow from the root, and so does the root. */
  ghost predicate LeavesFrom(s: seq<Seed>, alpha: seq<Octet>, rho: Seed, i: nat) {
    && IsTree(s) && SeedAt(s, 0, 0) == rho
    && forall j :: i <= j < T ==> SeedAt(s, H, j) == Derived(alpha, rho, 0, H, j)
  }

  lemma LeavesKeepRoot(s: seq<Seed>, alpha: seq<Octet>, rho: Seed, i: nat)
    requires LeavesFrom(s, alpha, rho, i)
    ensures IsTree(s) && SeedAt(s, 0, 0) == rho
  {
  }

  lemma NextLeaf(s: seq<Seed>, alpha: seq<Octet>, rho: Seed, i: nat)
    requires LeavesFrom(s, alpha, rho, i) && i < T
    ensures Addr(H, i) < |s| && s[Addr(H, i)] == Derived(alpha, rho, 0, H, i)
  {
    hide Derived;
    LeafIsNode(i);
    AddrBound(H, i);
    assert SeedAt(s, H, i) == s[Addr(H, i)];
  }

  lemma LeavesStep(s: seq<Seed>, s': seq<Seed>, alpha: seq<Octet>, rho: Seed, i: nat)
    requires LeavesFrom(s, alpha, rho, i) && i < T && Addr(H, i) < |s| == |s'| && s' == s[Addr(H, i) := s'[Addr(H, i)]]
    ensures LeavesFrom(s', alpha, rho, i + 1)
  {
    hide Derived;
    LeafIsNode(i);
    Pow2Monotone(1, H);
    forall j: nat | i < j < T ensures Addr(H, j) != Addr(H, i) && SeedAt(s', H, j) == SeedAt(s, H, j) {
    }
  }

  lemma FullLeaves(s: seq<Seed>, alpha: seq<Octet>, rho: Seed)
    requires IsTree(s) && IsFull(s, alpha, rho)
    ensures LeavesFrom(s, alpha, rho, 0)
  {
    hide Derived, Left, SeedAt;
    RootIsNode();
    RootLeaves();
    assert Derived(alpha, rho, 0, 0, 0) == rho by { DerivedRoot(alpha, rho); }
    forall j: nat | j < T ensures IsNode(H, j) && Left(H, j) < T {
      LeafIsNode(j);
      LeafLeft(j);
    }
  }

  lemma DerivedRoot(alpha: seq<Octet>, rho: Seed)
    ensures Derived(alpha, rho, 0, 0, 0) == rho
  {
  }

  /** All rounds, each absorbed into the hash as soon as it is there. */
  method RunRounds(g0: array<int>, alpha: seq<Octet>, stree: array<Seed>, shake: KeccakState, ghost rho: Seed)
    returns (ats: seq<array<int>>, bts: seq<array<int>>)
    requires g0.Length == N * NN && LeavesFrom(stree[..], alpha, rho, 0) && RoundsOf(g0[..], alpha, rho, T).Some?
    requires shake.Absorbing() && shake.message == []
    modifies stree, shake, shake.s
    ensures g0[..] == old(g0[..]) && fresh(ats) && fresh(bts)
    ensures IsTree(stree[..]) && SeedAt(stree[..], 0, 0) == rho
    ensures var rs := RoundsOf(g0[..], alpha, rho, T).value;
      && Store(ats, As(rs)) && Store(bts, Bs(rs))
      && GoodRounds(rs) && shake.Absorbing() && shake.message == Commitments(rs)
  {
    hide KeccakState.Absorbing, RoundsOf, RoundOf, Derived, Commitment, Commitments, GoodRounds, LeavesFrom, SeedAt;
    ghost var c := g0[..];
    ats, bts := [], [];
    RoundsNone(c, alpha, rho);
    for i := 0 to T
      invariant g0[..] == c && LeavesFrom(stree[..], alpha, rho, i)
      invariant RoundsOf(c, alpha, rho, i).Some? && fresh(ats) && fresh(bts)
      invariant Store(ats, As(RoundsOf(c, alpha, rho, i).value)) && Store(bts, Bs(RoundsOf(c, alpha, rho, i).value))
      invariant GoodRounds(RoundsOf(c, alpha, rho, i).value)
      invariant shake.Absorbing() && shake.message == Commitments(RoundsOf(c, alpha, rho, i).value)
    {
      RoundsPrefix(c, alpha, rho, T, i);
      RoundsAppend(c, alpha, rho, i);
      ghost var s := stree[..];
      NextLeaf(s, alpha, rho, i);
      var at, bt, gt := RunRound(g0, alpha, i, stree, Addr(H, i));
      LeavesStep(s, stree[..], alpha, rho, i);
      var buf := WriteHashed(gt);
      shake.AbsorbMore(buf[..]);
      ats := ats + [at];
      bts := bts + [bt];
    }
    LeavesKeepRoot(stree[..], alpha, rho, T);
  }

  // ----- the responses -----

  lemma ResponsesNext(sk: seq<Octet>, tr: Transcript, i: nat)
    requires |sk| == SK_BYTES && WellFormedTranscript(tr) && i < T
    ensures AreSegments(Responses(sk, tr, i), NN) && AreSegments(Responses(sk, tr, i + 1), NN)
    ensures tr.h[i] == 0 ==> Responses(sk, tr, i + 1) == Responses(sk, tr, i)
    ensures tr.h[i] > 0 ==>
      var mu, nu := Mu(sk, tr.rounds[i], tr.h[i]), Nu(sk, tr.rounds[i], tr.h[i]);
      && IsMatrix(mu, NN) && IsMatrix(nu, NN) && Small(mu) && Small(nu)
      && PackAll(Responses(sk, tr, i + 1), NN) == PackAll(Responses(sk, tr, i), NN) + Pack(mu) + Pack(nu)
      && |PackAll(Responses(sk, tr, i), NN)| + PackedLen(NN) + PackedLen(NN) <= MUNU
  {
    hide Mu, Nu, Pack, Small, Count, PackAll, SegmentPos, PackedLen;
    ResponsesAreSegments(sk, tr, i);
    ResponsesAreSegments(sk, tr, i + 1);
    if tr.h[i] > 0 {
      MuIsSmall(sk, tr.rounds[i], tr.h[i]);
      var list, mu, nu := Responses(sk, tr, i), Mu(sk, tr.rounds[i], tr.h[i]), Nu(sk, tr.rounds[i], tr.h[i]);
      PackTwo(list, mu, nu);
      CountBelow(tr.h, i);
      SegmentPosStep(|list|, NN);
      SegmentPosStep(|list| + 1, NN);
      SegmentPosMonotone(|list| + 2, 2 * WEIGHT, NN);
    }
  }

  lemma SegmentPosMonotone(j: nat, k: nat, count: nat)
    requires j <= k
    ensures SegmentPos(j, count) <= SegmentPos(k, count)
  {
    hide PackedLen;
    MulLe(j, k, PackedLen(count));
  }

  lemma PackTwo(list: seq<seq<int>>, mu: Mat, nu: Mat)
    requires AreSegments(list + [mu, nu], NN)
    ensures AreSegments(list, NN) && Small(mu) && Small(nu)
    ensures PackAll(list + [mu, nu], NN) == PackAll(list, NN) + Pack(mu) + Pack(nu)
  {
    hide Pack, Small;
    var all := list + [mu, nu];
    assert all[..|list|] == list && all[|list|] == mu && all[|list| + 1] == nu;
    PackAllNext(all, NN, |list|);
    PackAllNext(all, NN, |list| + 1);
    assert all[..|list| + 1 + 1] == all;
  }

  lemma CountBelow(h: Challenge, i: nat)
    requires IsChallenge(h) && i < T && h[i] > 0
    ensures Count(h, 0, i) + 1 <= WEIGHT
  {
    CountSplit(h, 0, i + 1, T);
  }

  /** One product of two stored matrices, written out. */
  method WriteProduct(bs: BitStream, a: array<int>, b: array<int>, ghost product: Mat, ghost content: seq<Octet>)
    requires a.Length == b.Length == NN && product == Times(N, a[..], b[..], N) && IsMatrix(product, NN)
    requires Small(product)
    requires Aligned(bs, content) && |content| + PackedLen(NN) <= bs.bufLen
    modifies bs, bs.data
    ensures Aligned(bs, content + Pack(product))
    ensures Outside(old(bs.data[..]), bs.data[..], bs.off, bs.off + bs.bufLen)
  {
    hide Aligned, Times, Outside, Pack, Small;
    var c := new int[NN](_ => 0);
    assert Window(a, 0, NN) == a[..] && Window(b, 0, NN) == b[..];
    MatMul(c, 0, a, 0, N, b, 0, N);
    assert Window(c, 0, NN) == c[..];
    WriteMatrix(bs, c, content);
  }

  method WriteResponse(bs: BitStream, a: array<int>, b: array<int>, aInv: array<int>, bInv: array<int>,
      ghost sk: seq<Octet>, ghost tr: Transcript, ghost i: nat)
    requires |sk| == SK_BYTES && WellFormedTranscript(tr) && i < T && tr.h[i] > 0
    requires a[..] == tr.rounds[i].a && b[..] == tr.rounds[i].b
    requires aInv[..] == LoadedPart(sk, tr.h[i] - 1) && bInv[..] == LoadedPart(sk, KEYS + tr.h[i] - 1)
    requires AreSegments(Responses(sk, tr, i), NN) && Aligned(bs, PackAll(Responses(sk, tr, i), NN))
    requires bs.bufLen == MUNU
    modifies bs, bs.data
    ensures AreSegments(Responses(sk, tr, i + 1), NN) && Aligned(bs, PackAll(Responses(sk, tr, i + 1), NN))
    ensures Outside(old(bs.data[..]), bs.data[..], bs.off, bs.off + bs.bufLen)
  {
    hide Aligned, Times, Outside, Pack, Small, PackAll, Responses, LoadedPart, AreSegments, PackedLen, IsChallenge;
    ghost var content, r, d0 := PackAll(Responses(sk, tr, i), NN), tr.rounds[i], bs.data[..];
    ResponsesNext(sk, tr, i);
    assert IsMatrix(r.a, NN) && IsMatrix(r.b, NN);
    assert |a[..]| == |b[..]| == |aInv[..]| == |bInv[..]| == NN;
    ghost var mu, nu := Mu(sk, r, tr.h[i]), Nu(sk, r, tr.h[i]);
    WriteProduct(bs, a, aInv, mu, content);
    ghost var d1 := bs.data[..];
    WriteProduct(bs, bInv, b, nu, content + Pack(mu));
    AlignedInside(bs, content + Pack(mu) + Pack(nu));
    OutsideAgain(d0, d1, bs.data[..], bs.off, bs.off + bs.bufLen);
  }

  method WriteResponses(bs: BitStream, h: array<Octet>, ats: seq<array<int>>, bts: seq<array<int>>,
      aInvs: seq<array<int>>, bInvs: seq<array<int>>, ghost sk: seq<Octet>, ghost tr: Transcript)
    requires |sk| == SK_BYTES && WellFormedTranscript(tr) && h[..] == tr.h && h != bs.data
    requires Store(ats, As(tr.rounds)) && Store(bts, Bs(tr.rounds))
    requires Store(aInvs, LoadedParts(sk, 0, KEYS)) && Store(bInvs, LoadedParts(sk, KEYS, 2 * KEYS))
    requires Aligned(bs, []) && bs.bufLen == MUNU
    modifies bs, bs.data
    ensures AreSegments(Responses(sk, tr, T), NN) && Aligned(bs, PackAll(Responses(sk, tr, T), NN))
    ensures Outside(old(bs.data[..]), bs.data[..], bs.off, bs.off + bs.bufLen)
  {
    hide Aligned, Outside, PackAll, Responses, LoadedPart, AreSegments, IsChallenge, GoodRounds;
    ghost var d0 := bs.data[..];
    AlignedInside(bs, []);
    OutsideNone(d0, bs.off, bs.off + bs.bufLen);
    NoResponses(sk, tr);
    for i := 0 to T
      invariant h[..] == tr.h && Store(ats, As(tr.rounds)) && Store(bts, Bs(tr.rounds))
      invariant Store(aInvs, LoadedParts(sk, 0, KEYS)) && Store(bInvs, LoadedParts(sk, KEYS, 2 * KEYS))
      invariant AreSegments(Responses(sk, tr, i), NN) && Aligned(bs, PackAll(Responses(sk, tr, i), NN))
      invariant Outside(d0, bs.data[..], bs.off, bs.off + bs.bufLen)
    {
      assert h[i] == tr.h[i];
      if h[i] > 0 {
        ghost var d1 := bs.data[..];
        WriteResponse(bs, ats[i], bts[i], aInvs[h[i] - 1], bInvs[h[i] - 1], sk, tr, i);
        OutsideAgain(d0, d1, bs.data[..], bs.off, bs.off + bs.bufLen);
      } else {
        ResponsesNext(sk, tr, i);
      }
    }
  }

  lemma NoResponses(sk: seq<Octet>, tr: Transcript)
    requires |sk| == SK_BYTES && WellFormedTranscript(tr)
    ensures AreSegments(Responses(sk, tr, 0), NN) && PackAll(Responses(sk, tr, 0), NN) == []
  {
  }

  // ----- the whole run -----

  /** Everything up to the digest: the seed tree, the secret round matrices and the hash of what was
      committed to.  Afterwards the leaves of the tree hold left-over seeds, its root is intact. */
  method Commit(sk: array<Octet>, delta: array<Octet>, m: array<Octet>)
    returns (stree: array<Seed>, alpha: array<Octet>, ats: seq<array<int>>, bts: seq<array<int>>, digest: seq<Octet>)
    requires sk.Length == SK_BYTES && TranscriptOf(sk[..], delta[..], m[..]).Some?
    ensures fresh(stree) && fresh(alpha) && fresh(ats) && fresh(bts)
    ensures IsTree(stree[..]) && SeedAt(stree[..], 0, 0) == Root(delta[..]) && alpha[..] == Alpha(delta[..])
    ensures var tr := TranscriptOf(sk[..], delta[..], m[..]).value;
      Store(ats, As(tr.rounds)) && Store(bts, Bs(tr.rounds)) && digest == tr.digest
  {
    hide KeccakState.Absorbing, KeccakState.Squeezing, TranscriptOf, Bytes;
    hide SysMatOf, GoodRound, Commitments, LeavesFrom;
    hide SeedAt, Store, RoundsOf;
    ghost var s, d, msg := sk[..], delta[..], m[..];
    TranscriptParts(s, d, msg);
    var g0 := BaseCode(sk[SEC..SEC + PUB]);
    stree, alpha := GrowTree(delta);
    ghost var salt := alpha[..];
    var shake := new KeccakState();
    shake.Init();
    ats, bts := RunRounds(g0, alpha[..], stree, shake, Root(d));
    assert alpha[..] == salt && m[..] == msg;
    shake.AbsorbMore(m[..]);
    shake.FinishAbsorbing();
    digest := shake.Squeeze(DIGEST);
    assert sk[..] == s && delta[..] == d && m[..] == msg;
  }

  /** The seed tree of a signing run. */
  method GrowTree(delta: array<Octet>) returns (stree: array<Seed>, alpha: array<Octet>)
    ensures fresh(stree) && fresh(alpha) && alpha[..] == Alpha(delta[..])
    ensures LeavesFrom(stree[..], alpha[..], Root(delta[..]), 0)
  {
    hide IsHashed, IsFull, LeavesFrom, SeedAt, Bytes;
    stree, alpha := NewTree(delta);
    ghost var s0 := stree[..];
    THash(stree, alpha[..], 0, 0);
    HashedIsFull(s0, stree[..], alpha[..]);
    HashedTree(s0, stree[..], alpha[..]);
    FullLeaves(stree[..], alpha[..], Root(delta[..]));
  }

  lemma HashedTree(s0: seq<Seed>, s: seq<Seed>, salt: seq<Octet>)
    requires IsTree(s0) && IsHashed(s0, s, salt, 0, 0)
    ensures IsTree(s)
  {
    hide Hashed, SeedAt;
  }

  /** The tree buffer, zero but for the root, and the salt. */
  method NewTree(delta: array<Octet>) returns (stree: array<Seed>, alpha: array<Octet>)
    ensures fresh(stree) && fresh(alpha) && IsTree(stree[..])
    ensures SeedAt(stree[..], 0, 0) == Root(delta[..]) && alpha[..] == Alpha(delta[..])
  {
    hide Bytes;
    var rho := new Octet[L](_ => 0);
    alpha := new Octet[SALT](_ => 0);
    stree := new Seed[Pow2(H + 1) - 1](_ => ZeroSeed());
    var buf := [rho, alpha];
    TwoLengths(buf);
    Xof(buf, delta);
    assert buf[0] == rho && buf[1] == alpha;
    Pow2Monotone(1, H + 1);
    stree[Addr(0, 0)] := rho[..];
  }

  /** Digest, salt and message behind the path slot. */
  method AppendTail(sm: array<Octet>, digest: seq<Octet>, alpha: seq<Octet>, m: seq<Octet>)
    requires sm.Length >= SIG_BYTES + |m| && |digest| == DIGEST && |alpha| == SALT
    modifies sm
    ensures sm[..DIGEST_POS] == old(sm[..DIGEST_POS])
    ensures sm[DIGEST_POS..DIGEST_POS + DIGEST] == digest
    ensures sm[SIG_BYTES - SALT..SIG_BYTES] == alpha
    ensures sm[SIG_BYTES..SIG_BYTES + |m|] == m
    ensures sm[SIG_BYTES + |m|..] == old(sm[SIG_BYTES + |m|..])
  {
    Positions();
    hide Outside, MUNU, DIGEST_POS, SIG_BYTES, PATH_BYTES;
    ghost var p0 := sm[..];
    CopyBytes(sm, DIGEST_POS, digest);
    ghost var p1 := sm[..];
    CopyBytes(sm, SIG_BYTES - SALT, alpha);
    ghost var p2 := sm[..];
    CopyBytes(sm, SIG_BYTES, m);
    TailParts(p0, p1, p2, sm[..], m);
  }

  lemma TailParts(p0: seq<Octet>, p1: seq<Octet>, p2: seq<Octet>, p3: seq<Octet>, m: seq<Octet>)
    requires |p0| >= SIG_BYTES + |m| && Outside(p0, p1, DIGEST_POS, DIGEST_POS + DIGEST)
    requires Outside(p1, p2, SIG_BYTES - SALT, SIG_BYTES) && Outside(p2, p3, SIG_BYTES, SIG_BYTES + |m|)
    ensures p3[..DIGEST_POS] == p0[..DIGEST_POS] && p3[SIG_BYTES + |m|..] == p0[SIG_BYTES + |m|..]
    ensures p3[DIGEST_POS..DIGEST_POS + DIGEST] == p1[DIGEST_POS..DIGEST_POS + DIGEST]
    ensures p3[SIG_BYTES - SALT..SIG_BYTES] == p2[SIG_BYTES - SALT..SIG_BYTES]
  {
    Positions();
    hide Outside, MUNU, DIGEST_POS, SIG_BYTES, PATH_BYTES;
    TailKept(p0, p1, DIGEST_POS, DIGEST_POS + DIGEST, 0, DIGEST_POS, SIG_BYTES + |m|);
    TailKept(p1, p2, SIG_BYTES - SALT, SIG_BYTES, 0, DIGEST_POS, SIG_BYTES + |m|);
    TailKept(p2, p3, SIG_BYTES, SIG_BYTES + |m|, 0, DIGEST_POS, SIG_BYTES + |m|);
    TailKept(p1, p2, SIG_BYTES - SALT, SIG_BYTES, DIGEST_POS, DIGEST_POS + DIGEST, SIG_BYTES + |m|);
    TailKept(p2, p3, SIG_BYTES, SIG_BYTES + |m|, DIGEST_POS, DIGEST_POS + DIGEST, SIG_BYTES + |m|);
    TailKept(p2, p3, SIG_BYTES, SIG_BYTES + |m|, SIG_BYTES - SALT, SIG_BYTES, SIG_BYTES + |m|);
  }

  lemma TailKept(a: seq<Octet>, b: seq<Octet>, lo: nat, hi: nat, i: nat, j: nat, end: nat)
    requires Outside(a, b, lo, hi) && i <= j <= lo && hi <= end <= |a|
    ensures |b| == |a| && b[i..j] == a[i..j] && b[..j] == a[..j] && b[end..] == a[end..]
  {
    assert b[..j] == b[..lo][..j] && a[..j] == a[..lo][..j];
    assert b[i..j] == b[..j][i..] && a[i..j] == a[..j][i..];
    assert b[end..] == b[hi..][end - hi..] && a[end..] == a[hi..][end - hi..];
  }

  /** The path nodes of a full tree carry the seeds that follow from the root. */
  lemma PathIsHeld(path: seq<Octet>, sm: seq<Octet>, s: seq<Seed>, delta: seq<Octet>, h: Challenge)
    requires IsChallenge(h) && IsFull(s, Alpha(delta), Root(delta)) && IsPath(path, MUNU, s, Nodes(h, 0, 0))
    requires |path| >= DIGEST_POS && |sm| >= DIGEST_POS && sm[MUNU..DIGEST_POS] == path[MUNU..DIGEST_POS]
    ensures HoldsPath(sm, delta, h)
  {
    hide Nodes, Derived, SeedAt, Left, MaxNodes, Alpha, Root;
    PathFits(h);
    RootIsNode();
    var nodes := Nodes(h, 0, 0);
    forall k | 0 <= k < |nodes|
      ensures PathSeed(sm, MUNU, k) == Derived(Alpha(delta), Root(delta), 0, nodes[k].h, nodes[k].i)
    {
      NodesInside(h, 0, 0, nodes[k]);
      SlotKept(path, sm, k);
      assert PathSeed(path, MUNU, k) == SeedAt(s, nodes[k].h, nodes[k].i);
    }
  }

  lemma SlotKept(a: seq<Octet>, b: seq<Octet>, k: nat)
    requires k < MAX_PATH && |a| >= DIGEST_POS && |b| >= DIGEST_POS && a[MUNU..DIGEST_POS] == b[MUNU..DIGEST_POS]
    ensures PathSeed(a, MUNU, k) == PathSeed(b, MUNU, k)
  {
    hide MaxNodes, PathPos;
    PathPosStep(MUNU, k, MAX_PATH);
    SlotEnd();
    SubSlice(a, b, MUNU, DIGEST_POS, PathPos(MUNU, k), PathPos(MUNU, k + 1));
  }

  lemma SubSlice(a: seq<Octet>, b: seq<Octet>, u: nat, v: nat, lo: nat, hi: nat)
    requires u <= lo <= hi <= v <= |a| && v <= |b| && a[u..v] == b[u..v]
    ensures a[lo..hi] == b[lo..hi]
  {
    forall j | 0 <= j < hi - lo ensures a[lo..hi][j] == b[lo..hi][j] {
      assert a[lo + j] == a[u..v][lo + j - u] && b[lo + j] == b[u..v][lo + j - u];
    }
  }

  lemma SlotEnd()
    ensures PathPos(MUNU, MAX_PATH) == DIGEST_POS
  {
  }

  /** The second hashing of the tree and the path slot. */
  method WritePath(sm: array<Octet>, stree: array<Seed>, alpha: seq<Octet>, h: array<Octet>, ghost delta: seq<Octet>)
    returns (ghost s: seq<Seed>)
    requires sm.Length >= SIG_BYTES && sm != h && IsChallenge(h[..]) && alpha == Alpha(delta)
    requires IsTree(stree[..]) && SeedAt(stree[..], 0, 0) == Root(delta)
    modifies sm, stree
    ensures IsFull(s, alpha, Root(delta)) && IsPath(sm[..], MUNU, s, Nodes(h[..], 0, 0))
    ensures Outside(old(sm[..]), sm[..], MUNU, DIGEST_POS)
  {
    hide IsHashed, IsFull, IsPath, SeedAt, Outside, IsChallenge, Nodes, SegmentPos, MAX_PATH;
    ghost var s0, p0, hs := stree[..], sm[..], h[..];
    THash(stree, alpha, 0, 0);
    HashedIsFull(s0, stree[..], alpha);
    HashedTree(s0, stree[..], alpha);
    s := stree[..];
    ChallengeIsSeen(hs);
    StreeToPathToStree(stree, h[..], sm, MUNU, alpha, StreeToPath);
    PathEnds(p0, sm[..], hs);
  }

  /** The path and the responses: everything in front of the digest. */
  method WriteFront(sm: array<Octet>, sk: array<Octet>, stree: array<Seed>, alpha: seq<Octet>, h: array<Octet>,
      ats: seq<array<int>>, bts: seq<array<int>>, ghost delta: seq<Octet>, ghost tr: Transcript)
    requires sm.Length >= SIG_BYTES && sk.Length == SK_BYTES && sm != sk && sm != h
    requires WellFormedTranscript(tr) && h[..] == tr.h && alpha == Alpha(delta)
    requires IsTree(stree[..]) && SeedAt(stree[..], 0, 0) == Root(delta)
    requires Store(ats, As(tr.rounds)) && Store(bts, Bs(tr.rounds))
    modifies sm, stree
    ensures AreSegments(Responses(sk[..], tr, T), NN) && sm[..MUNU] == PackAll(Responses(sk[..], tr, T), NN)
    ensures HoldsPath(sm[..], delta, tr.h) && sm[DIGEST_POS..] == old(sm[DIGEST_POS..])
  {
    hide IsHashed, IsFull, IsPath, HoldsPath, PackAll, Responses, AreSegments, Aligned, SeedAt, Outside, IsChallenge;
    hide Nodes, GoodRounds, SegmentPos, LoadedPart, MAX_PATH;
    ghost var p0, secret := sm[..], sk[..];
    ghost var s := WritePath(sm, stree, alpha, h, delta);
    ghost var p1 := sm[..];
    var aInvs, bInvs := LoadSecretKey(sk);
    var bs := new BitStream(sm, 0, MUNU);
    StartAligned(bs);
    WriteResponses(bs, h, ats, bts, aInvs, bInvs, secret, tr);
    AlignedFull(bs, PackAll(Responses(secret, tr, T), NN)) by { ResponsesFill(secret, tr); }
    FrontKept(p0, p1, sm[..]);
    PathIsHeld(p1, sm[..], s, delta, tr.h);
  }

  lemma ResponsesFill(sk: seq<Octet>, tr: Transcript)
    requires |sk| == SK_BYTES && WellFormedTranscript(tr)
    ensures AreSegments(Responses(sk, tr, T), NN) && |PackAll(Responses(sk, tr, T), NN)| == MUNU
  {
    hide SegmentPos, GoodRounds;
    ResponsesAreSegments(sk, tr, T);
  }

  lemma PathEnds(p0: seq<Octet>, p1: seq<Octet>, h: Challenge)
    requires IsChallenge(h) && |p0| >= DIGEST_POS && Outside(p0, p1, MUNU, PathPos(MUNU, |Nodes(h, 0, 0)|))
    ensures Outside(p0, p1, MUNU, DIGEST_POS)
  {
    hide MaxNodes, Nodes;
    PathFits(h);
    SlotEnd();
    MulLe(|Nodes(h, 0, 0)|, MAX_PATH, L);
    OutsideGrow(p0, p1, MUNU, PathPos(MUNU, |Nodes(h, 0, 0)|), DIGEST_POS);
  }

  lemma FrontKept(p0: seq<Octet>, p1: seq<Octet>, p2: seq<Octet>)
    requires |p0| >= SIG_BYTES && Outside(p0, p1, MUNU, DIGEST_POS) && Outside(p1, p2, 0, MUNU)
    ensures |p2| == |p1| == |p0| && p2[DIGEST_POS..] == p0[DIGEST_POS..] && p2[MUNU..DIGEST_POS] == p1[MUNU..DIGEST_POS]
  {
    assert p2[DIGEST_POS..] == p2[MUNU..][DIGEST_POS - MUNU..] && p1[DIGEST_POS..] == p1[MUNU..][DIGEST_POS - MUNU..];
    assert p2[MUNU..DIGEST_POS] == p2[MUNU..][..DIGEST_POS - MUNU];
    assert p1[MUNU..DIGEST_POS] == p1[MUNU..][..DIGEST_POS - MUNU];
  }

  /** crypto_sign */
  method CryptoSign(sm: array<Octet>, m: array<Octet>, sk: array<Octet>, delta: array<Octet>)
    returns (ret: int, smlen: nat)
    requires sk.Length == SK_BYTES && sm.Length >= SIG_BYTES + m.Length && sm != m && sm != sk && sm != delta
    requires TranscriptOf(sk[..], delta[..], m[..]).Some?
    modifies sm
    ensures ret == 0 && smlen == SIG_BYTES + m.Length
    ensures IsSignature(sm[..smlen], sk[..], delta[..], m[..]) && IsSigned(sm[..smlen], sk[..], delta[..], m[..])
    ensures sm[smlen..] == old(sm[smlen..])
  {
    Positions();
    hide TranscriptOf, HoldsPath, PackAll, Responses, AreSegments, SeedAt, Store, IsSignature, IsSigned;
    hide MUNU, DIGEST_POS, SIG_BYTES, PATH_BYTES, SK_BYTES;
    ghost var secret, d, msg := sk[..], delta[..], m[..];
    ghost var tr := TranscriptOf(secret, d, msg).value;
    var stree, alpha, ats, bts, digest := Commit(sk, delta, m);
    var h := ChallengeOf(digest, secret, d, msg);
    hide WellFormedTranscript;
    WriteFront(sm, sk, stree, alpha[..], h, ats, bts, d, tr);
    ghost var front := sm[..];
    AppendTail(sm, digest, alpha[..], m[..]);
    smlen := SIG_BYTES + m.Length;
    ret := 0;
    Signed(front, sm[..], smlen, secret, d, msg);
    SignatureIsSigned(sm[..smlen], secret, d, msg);
  }

  method ChallengeOf(digest: seq<Octet>, ghost sk: seq<Octet>, ghost delta: seq<Octet>, ghost msg: seq<Octet>)
    returns (h: array<Octet>)
    requires |sk| == SK_BYTES && TranscriptOf(sk, delta, msg).Some?
    requires digest == TranscriptOf(sk, delta, msg).value.digest
    ensures fresh(h) && h[..] == TranscriptOf(sk, delta, msg).value.h
  {
    hide TranscriptOf, ParseHashOf, RoundsOf, SysMatOf, Commitments, Bytes, GoodRound;
    TranscriptParts(sk, delta, msg);
    h := new Octet[T](_ => 0);
    var parsed := Parse(digest, h);
    assert h[..] == h[..T];
  }

  lemma Signed(front: seq<Octet>, q: seq<Octet>, smlen: nat, sk: seq<Octet>, delta: seq<Octet>, msg: seq<Octet>)
    requires |sk| == SK_BYTES && TranscriptOf(sk, delta, msg).Some? && smlen == SIG_BYTES + |msg| <= |q| == |front|
    requires q[..DIGEST_POS] == front[..DIGEST_POS]
    requires var tr := TranscriptOf(sk, delta, msg).value;
      && AreSegments(Responses(sk, tr, T), NN) && front[..MUNU] == PackAll(Responses(sk, tr, T), NN)
      && HoldsPath(front, delta, tr.h) && q[DIGEST_POS..DIGEST_POS + DIGEST] == tr.digest
    requires q[SIG_BYTES - SALT..SIG_BYTES] == Alpha(delta) && q[SIG_BYTES..SIG_BYTES + |msg|] == msg
    ensures IsSignature(q[..smlen], sk, delta, msg)
  {
    hide TranscriptOf, PackAll, Responses, AreSegments, HoldsPath, SegmentPos, PackedLen, MAX_PATH, Alpha, Nodes;
    hide IsSignature;
    var sm, tr := q[..smlen], TranscriptOf(sk, delta, msg).value;
    assert IsChallenge(tr.h);
    hide WellFormedTranscript, IsChallenge;
    Positions();
    hide MUNU, DIGEST_POS, SIG_BYTES, PATH_BYTES;
    TakeOfTake(sm, q, front, smlen, DIGEST_POS, MUNU);
    SliceOfTake(q, smlen, DIGEST_POS, DIGEST_POS + DIGEST);
    SliceOfTake(q, smlen, SIG_BYTES - SALT, SIG_BYTES);
    SliceOfTake(q, smlen, SIG_BYTES, smlen);
    PathStays(sm, front, delta, tr.h);
    SignatureParts(sm, sk, delta, msg, tr);
  }

  lemma SignatureParts(sm: seq<Octet>, sk: seq<Octet>, delta: seq<Octet>, msg: seq<Octet>, tr: Transcript)
    requires |sk| == SK_BYTES && TranscriptOf(sk, delta, msg) == Some(tr) && |sm| == SIG_BYTES + |msg|
    requires AreSegments(Responses(sk, tr, T), NN) && sm[..MUNU] == PackAll(Responses(sk, tr, T), NN)
    requires HoldsPath(sm, delta, tr.h) && sm[DIGEST_POS..DIGEST_POS + DIGEST] == tr.digest
    requires sm[SIG_BYTES - SALT..SIG_BYTES] == Alpha(delta) && sm[SIG_BYTES..] == msg
    ensures IsSignature(sm, sk, delta, msg)
  {
    hide TranscriptOf, PackAll, Responses, AreSegments, HoldsPath, SegmentPos, PackedLen, MAX_PATH, Alpha, Nodes;
  }

  lemma SliceOfTake(q: seq<Octet>, end: nat, lo: nat, hi: nat)
    requires lo <= hi <= end <= |q|
    ensures q[..end][lo..hi] == q[lo..hi]
    ensures hi == end ==> q[..end][lo..] == q[lo..end]
  {
  }

  lemma TakeOfTake(sm: seq<Octet>, q: seq<Octet>, front: seq<Octet>, end: nat, mid: nat, lo: nat)
    requires lo <= mid <= end <= |q| && mid <= |front| && sm == q[..end] && q[..mid] == front[..mid]
    ensures sm[..lo] == front[..lo] && sm[lo..mid] == front[lo..mid]
  {
    assert sm[..mid] == q[..mid];
    assert sm[..lo] == sm[..mid][..lo] && front[..lo] == front[..mid][..lo];
    assert sm[lo..mid] == sm[..mid][lo..] && front[lo..mid] == front[..mid][lo..];
  }

  lemma PathStays(a: seq<Octet>, b: seq<Octet>, delta: seq<Octet>, h: Challenge)
    requires IsChallenge(h) && HoldsPath(b, delta, h)
    requires |a| >= DIGEST_POS && |b| >= DIGEST_POS && a[MUNU..DIGEST_POS] == b[MUNU..DIGEST_POS]
    ensures HoldsPath(a, delta, h)
  {
    hide Nodes, PathSeed, Derived, MaxNodes;
    PathFits(h);
    forall k | 0 <= k < |Nodes(h, 0, 0)| ensures PathSeed(a, MUNU, k) == PathSeed(b, MUNU, k) {
      SlotKept(a, b, k);
    }
  }
}
