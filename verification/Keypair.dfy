/** crypto_sign_keypair (ref/meds_serial.c). */
module Keypair {
  import opened Arithmetic
  import opened Params
  import opened Loops
  import opened Matrix
  import opened Elimination
  import opened Products
  import opened Action
  import opened Solver
  import opened Bits
  import opened Shake
  import opened BitStream
  import opened Sampling
  import opened Packing
  import opened PublicKey
  import opened Scheme
  import opened KeyRuns
  import opened Codec

  lemma SolveIs(g0p: Mat, amm: int, a: Mat, b: Mat)
    requires |g0p| == N * NN && IsOnlySolution(a, b, Word(g0p, 0), Word(g0p, 1), amm)
    requires !LeftSingular(Word(g0p, 1), N - 1) && !LeftSingular(Word(g0p, 1), N)
    ensures SolveOf(g0p, amm) == Some((a, b))
  {
    hide IsSolution, LeftSingular;
  }

  /** Ti and A[m-1][m-1] of one attempt. */
  method DrawAttempt(sigma: array<Octet>) returns (t: array<int>, amm: int)
    requires sigma.Length == SEC
    requires RndInvOf(Bytes(sigma[..], SEC, SEC), N, N).Some? && RndGfOf(Bytes(sigma[..], 0, SEC), 0).Some?
    modifies sigma
    ensures fresh(t) && RndInvOf(Bytes(old(sigma[..]), SEC, SEC), N, N) == Some(t[..])
    ensures RndGfOf(Bytes(old(sigma[..]), 0, SEC), 0).Some?
    ensures amm == RndGfOf(Bytes(old(sigma[..]), 0, SEC), 0).value.value && 0 <= amm < P
    ensures sigma[..] == Bytes(old(sigma[..]), SEC + SEC, SEC)
  {
    hide Bytes, RndInvOf, RndGfOf, KeccakState.Squeezing;
    ghost var sigma0 := sigma[..];
    var sigmaA, sigmaT := new Octet[SEC](_ => 0), new Octet[SEC](_ => 0);
    var buf := [sigmaA, sigmaT, sigma];
    ThreeLengths(buf);
    Xof(buf, sigma);
    assert buf[0] == sigmaA && buf[1] == sigmaT && buf[2] == sigma;
    t := new int[NN](_ => 0);
    RndInvMatrix(t, N, N, sigmaT[..]);
    var shake := new KeccakState();
    shake.AbsorbOnce(sigmaA[..]);
    amm := RndGf(shake);
  }

  lemma ThreeLengths(buf: seq<array<Octet>>)
    requires |buf| == 3
    ensures LengthBefore(buf, 0) == 0 && LengthBefore(buf, 1) == buf[0].Length
    ensures LengthBefore(buf, 2) == buf[0].Length + buf[1].Length
  {
  }

  /** From the drawn T and A[m-1][m-1] to the key; false when the attempt fails. */
  method FinishKey(g0: array<int>, t: array<int>, amm: int, aInv: array<int>, bInv: array<int>, g: array<int>)
    returns (ok: bool)
    requires g0.Length == g.Length == N * NN && Reduced(g0[..]) && t.Length == NN && Reduced(t[..]) && 0 <= amm < P
    requires aInv.Length == bInv.Length == NN && aInv != bInv && g != g0 && aInv != g0 && bInv != g0
    requires aInv != g && bInv != g && t != aInv && t != bInv && t != g
    modifies aInv, bInv, g
    ensures MakeKey(g0[..], t[..], amm) == if ok then Some(Key(aInv[..], bInv[..], g[..])) else None
  {
    hide IsOnlySolution, LeftSingular, Times, Pi, InverseOf, SystForm, Singular, SolveOf;
    ghost var c := g0[..];
    var g0prime, a, b := new int[N * NN](_ => 0), new int[NN](_ => 0), new int[NN](_ => 0);
    assert Window(t, 0, NN) == t[..] && Window(g0, 0, N * NN) == g0[..];
    MatMul(g0prime, 0, t, 0, N, g0, 0, NN);
    assert Window(g0prime, 0, N * NN) == g0prime[..];
    TimesReduced(N, t[..], c, NN);
    ghost var g0p := g0prime[..];
    var ret := Solve(a, bInv, g0prime, amm);
    if ret < 0 {
      SolveFails(g0p, amm);
      return false;
    }
    SolveIs(g0p, amm, a[..], bInv[..]);
    SolvedShape(a[..], bInv[..], g0p, amm);
    ret := MatInv(b, bInv, N);
    if ret < 0 { return false; }
    ret := MatInv(aInv, a, N);
    if ret < 0 { return false; }
    PiInto(g, a, b, g0);
    PiReduced(a[..], b[..], c);
    Shape();
    ret := SystCt(g, N, NN);
    return ret == 0;
  }

  /** The body of the retry loop for one code. */
  method AttemptKey(g0: array<int>, sigma: array<Octet>, aInv: array<int>, bInv: array<int>, g: array<int>)
    returns (ok: bool)
    requires sigma.Length == SEC && g0.Length == g.Length == N * NN && Reduced(g0[..])
    requires aInv.Length == bInv.Length == NN && aInv != bInv && g != g0 && aInv != g0 && bInv != g0
    requires aInv != g && bInv != g
    requires !TryKeyFrom(g0[..])(sigma[..]).Stuck?
    modifies sigma, aInv, bInv, g
    ensures ok ==> TryKeyFrom(g0[..])(old(sigma[..])) == Exit(MadeKey(Key(aInv[..], bInv[..], g[..]), sigma[..]))
    ensures !ok ==> TryKeyFrom(g0[..])(old(sigma[..])) == Again(sigma[..])
  {
    hide Bytes, RndInvOf, RndGfOf, MakeKey;
    var t, amm := DrawAttempt(sigma);
    RndInvIsNonsingular(Bytes(old(sigma[..]), SEC, SEC), N, N);
    ok := FinishKey(g0, t, amm, aInv, bInv, g);
  }

  lemma SolvedShape(a: Mat, bInv: Mat, g0p: Mat, amm: int)
    requires |g0p| == N * NN && IsOnlySolution(a, bInv, Word(g0p, 0), Word(g0p, 1), amm)
    ensures Reduced(a) && Reduced(bInv)
  {
    hide IsSolution;
    SolutionShape(a, bInv, Word(g0p, 0), Word(g0p, 1), amm);
  }

  lemma SolveFails(g0p: Mat, amm: int)
    requires |g0p| == N * NN && (LeftSingular(Word(g0p, 1), N - 1) || LeftSingular(Word(g0p, 1), N))
    ensures SolveOf(g0p, amm) == None
  {
    hide LeftSingular, IsOnlySolution;
  }

  /** The retry loop for one code. */
  method NextKey(g0: array<int>, sigma: array<Octet>) returns (aInv: array<int>, bInv: array<int>, g: array<int>)
    requires sigma.Length == SEC && g0.Length == N * NN && Reduced(g0[..])
    requires KeyFrom(g0[..], sigma[..]).Some?
    modifies sigma
    ensures fresh(aInv) && fresh(bInv) && fresh(g)
    ensures KeyFrom(g0[..], old(sigma[..])) == Some(MadeKey(Key(aInv[..], bInv[..], g[..]), sigma[..]))
  {
    hide Loop, Passes, TryKeyFrom;
    ghost var c := g0[..];
    ghost var body := TryKeyFrom(c);
    aInv, bInv, g := new int[NN](_ => 0), new int[NN](_ => 0), new int[N * NN](_ => 0);
    while true
      invariant g0[..] == c && aInv.Length == bInv.Length == NN && g.Length == N * NN
      invariant fresh(aInv) && fresh(bInv) && fresh(g) && aInv != bInv && aInv != g && bInv != g
      invariant Loop(body, sigma[..]) == Loop(body, old(sigma[..])) && Loop(body, sigma[..]).Some?
      decreases Passes(body, sigma[..])
    {
      LoopUnfold(body, sigma[..]);
      if body(sigma[..]).Again? { PassesDecrease(body, sigma[..]); }
      var ok := AttemptKey(g0, sigma, aInv, bInv, g);
      if ok { return; }
    }
  }

  /** The arrays hold the given matrices. */
  ghost predicate Store(arrays: seq<array<int>>, list: seq<Mat>)
    reads arrays
  {
    |arrays| == |list| && forall i :: 0 <= i < |arrays| ==> arrays[i][..] == list[i]
  }

  ghost function AInvs(keys: seq<Key>): (list: seq<Mat>)
    ensures |list| == |keys|
  {
    seq(|keys|, i requires 0 <= i < |keys| => keys[i].aInv)
  }

  ghost function BInvs(keys: seq<Key>): (list: seq<Mat>)
    ensures |list| == |keys|
  {
    seq(|keys|, i requires 0 <= i < |keys| => keys[i].bInv)
  }

  ghost function Codes(keys: seq<Key>): (list: seq<Mat>)
    ensures |list| == |keys|
  {
    seq(|keys|, i requires 0 <= i < |keys| => keys[i].g)
  }

  /** Shorter runs of key generation finish as well. */
  lemma {:induction false} KeysPrefix(g0: Mat, sigma: seq<Octet>, count: nat, i: nat)
    requires KeysFrom(g0, sigma, count).Some? && i < count
    ensures KeysFrom(g0, sigma, i).Some? && KeyFrom(g0, KeysFrom(g0, sigma, i).value.1).Some?
    decreases count
  {
    hide KeyFrom;
    if i < count - 1 { KeysPrefix(g0, sigma, count - 1, i); }
  }

  lemma KeysAppend(g0: Mat, sigma: seq<Octet>, i: nat)
    requires KeysFrom(g0, sigma, i).Some? && KeyFrom(g0, KeysFrom(g0, sigma, i).value.1).Some?
    ensures KeysFrom(g0, sigma, i + 1).Some?
    ensures var (keys, s) := KeysFrom(g0, sigma, i).value; var made := KeyFrom(g0, s).value;
      KeysFrom(g0, sigma, i + 1).value == (keys + [made.key], made.sigma)
  {
    hide KeyFrom;
  }

  /** The codes 1 to s - 1, each from the seed the one before has left. */
  method GenerateKeys(g0: array<int>, sigma: array<Octet>)
    returns (aInvs: seq<array<int>>, bInvs: seq<array<int>>, gs: seq<array<int>>)
    requires sigma.Length == SEC && g0.Length == N * NN && Reduced(g0[..])
    requires KeysFrom(g0[..], sigma[..], KEYS).Some?
    modifies sigma
    ensures var keys := KeysFrom(g0[..], old(sigma[..]), KEYS).value.0;
      Store(aInvs, AInvs(keys)) && Store(bInvs, BInvs(keys)) && Store(gs, Codes(keys))
    ensures g0[..] == old(g0[..])
    ensures fresh(aInvs) && fresh(bInvs) && fresh(gs)
  {
    hide KeyFrom, KeysFrom;
    ghost var c, sigma0 := g0[..], sigma[..];
    aInvs, bInvs, gs := [], [], [];
    KeysNone(c, sigma0);
    for i := 0 to KEYS
      invariant g0[..] == c && KeysFrom(c, sigma0, i).Some? && sigma[..] == KeysFrom(c, sigma0, i).value.1
      invariant Store(aInvs, AInvs(KeysFrom(c, sigma0, i).value.0))
      invariant Store(bInvs, BInvs(KeysFrom(c, sigma0, i).value.0))
      invariant Store(gs, Codes(KeysFrom(c, sigma0, i).value.0))
      invariant fresh(aInvs) && fresh(bInvs) && fresh(gs)
    {
      KeysPrefix(c, sigma0, KEYS, i);
      KeysAppend(c, sigma0, i);
      var aInv, bInv, g := NextKey(g0, sigma);
      aInvs := aInvs + [aInv];
      bInvs := bInvs + [bInv];
      gs := gs + [g];
    }
  }

  lemma KeysNone(g0: Mat, sigma: seq<Octet>)
    ensures KeysFrom(g0, sigma, 0) == Some(([], sigma))
  {
  }

  method CopyBytes(dst: array<Octet>, off: nat, src: seq<Octet>)
    requires off + |src| <= dst.Length
    modifies dst
    ensures dst[off..off + |src|] == src && Outside(old(dst[..]), dst[..], off, off + |src|)
  {
    for j := 0 to |src|
      invariant dst[off..off + j] == src[..j]
      invariant dst[..off] == old(dst[..off]) && dst[off + |src|..] == old(dst[off + |src|..])
    {
      dst[off + j] := src[j];
    }
    assert src[..|src|] == src;
  }

  lemma PackedSoFar(list: seq<seq<int>>, count: nat, j: nat, total: nat)
    requires AreSegments(list, count) && j < |list| && total == SegmentPos(|list|, count)
    ensures AreSegments(list[..j], count) && AreSegments(list[..j + 1], count)
    ensures PackAll(list[..j + 1], count) == PackAll(list[..j], count) + Pack(list[j])
    ensures |PackAll(list[..j], count)| + PackedLen(count) <= total
  {
    hide Pack, Small, PackedLen;
    PackAllNext(list, count, j);
    SegmentPosStep(j, count);
    MulLe(j + 1, |list|, PackedLen(count));
  }

  /** One packed segment per matrix, behind what is there. */
  method WriteMatrices(bs: BitStream, ms: seq<array<int>>, ghost mats: seq<Mat>, ghost content: seq<Octet>)
    requires Aligned(bs, content) && Store(ms, mats)
    requires AreSegments(mats, NN) && forall i :: 0 <= i < |mats| ==> IsMatrix(mats[i], NN)
    requires |content| + SegmentPos(|mats|, NN) <= bs.bufLen
    modifies bs, bs.data
    ensures Aligned(bs, content + PackAll(mats, NN))
    ensures Outside(old(bs.data[..]), bs.data[..], bs.off, bs.off + bs.bufLen)
  {
    hide Aligned, Pack, Small, Outside, PackAll, SegmentPos, PackedLen;
    ghost var d0 := bs.data[..];
    AlignedInside(bs, content);
    OutsideNone(d0, bs.off, bs.off + bs.bufLen);
    NonePacked(mats, NN);
    assert content + [] == content;
    for i := 0 to |ms|
      invariant Store(ms, mats) && AreSegments(mats[..i], NN)
      invariant Aligned(bs, content + PackAll(mats[..i], NN))
      invariant Outside(d0, bs.data[..], bs.off, bs.off + bs.bufLen)
    {
      ghost var d1, before := bs.data[..], PackAll(mats[..i], NN);
      PackedSoFar(mats, NN, i, SegmentPos(|mats|, NN));
      WriteMatrix(bs, ms[i], content + before);
      assert (content + before) + Pack(mats[i]) == content + (before + Pack(mats[i]));
      OutsideAgain(d0, d1, bs.data[..], bs.off, bs.off + bs.bufLen);
    }
    assert mats[..|ms|] == mats;
  }

  lemma NonePacked(list: seq<seq<int>>, count: nat)
    requires AreSegments(list, count)
    ensures AreSegments(list[..0], count) && PackAll(list[..0], count) == []
  {
  }

  /** The sent part of every code. */
  method WriteCodes(bs: BitStream, gs: seq<array<int>>, ghost keys: seq<Key>)
    requires Aligned(bs, []) && Store(gs, Codes(keys)) && WellFormedKeys(keys)
    requires AreSegments(SentParts(keys), SENT) && SegmentPos(|keys|, SENT) <= bs.bufLen
    modifies bs, bs.data
    ensures Aligned(bs, PackAll(SentParts(keys), SENT))
    ensures Outside(old(bs.data[..]), bs.data[..], bs.off, bs.off + bs.bufLen)
  {
    hide Aligned, Pack, Small, Outside, PackAll, SegmentPos, PackedLen, SentPart;
    ghost var d0, list := bs.data[..], SentParts(keys);
    AlignedInside(bs, []);
    OutsideNone(d0, bs.off, bs.off + bs.bufLen);
    NonePacked(list, SENT);
    for i := 0 to |gs|
      invariant Store(gs, Codes(keys)) && AreSegments(list[..i], SENT)
      invariant Aligned(bs, PackAll(list[..i], SENT))
      invariant Outside(d0, bs.data[..], bs.off, bs.off + bs.bufLen)
    {
      ghost var d1 := bs.data[..];
      PackedSoFar(list, SENT, i, SegmentPos(|keys|, SENT));
      WriteSent(bs, gs[i], PackAll(list[..i], SENT));
      OutsideAgain(d0, d1, bs.data[..], bs.off, bs.off + bs.bufLen);
    }
    assert list[..|gs|] == list;
  }

  /** A buffer that starts with a prefix and is filled by the stream. */
  lemma Filled(data: seq<Octet>, data': seq<Octet>, pre: seq<Octet>, content: seq<Octet>)
    requires Outside(data, data', |pre|, |data|) && |data| == |pre| + |content|
    requires data[..|pre|] == pre && data'[|pre|..|data|] == content
    ensures data' == pre + content
  {
    assert data' == data'[..|pre|] + data'[|pre|..];
  }

  lemma AlignedFull(bs: BitStream, content: seq<Octet>)
    requires Aligned(bs, content) && |content| == bs.bufLen
    ensures bs.Valid() && bs.data[bs.off..bs.off + bs.bufLen] == content && bs.bytePos == bs.bufLen && bs.bitPos == 0
  {
    assert bs.Window()[..|content|] == bs.Window();
  }

  method WritePublicKey(pk: array<Octet>, sigmaG0: seq<Octet>, gs: seq<array<int>>, ghost keys: seq<Key>)
    returns (ret: int)
    requires pk.Length == PK_BYTES && |sigmaG0| == PUB && |keys| == KEYS && Store(gs, Codes(keys))
    requires WellFormedKeys(keys)
    requires AreSegments(SentParts(keys), SENT)
    modifies pk
    ensures ret == 0 && pk[..] == sigmaG0 + PackAll(SentParts(keys), SENT)
  {
    hide Aligned, Outside, PackAll, SegmentPos, AreSegments, WellFormedKeys, SentParts;
    CopyBytes(pk, 0, sigmaG0);
    ghost var d := pk[..];
    var bs := new BitStream(pk, PUB, PK_BYTES - PUB);
    StartAligned(bs);
    WriteCodes(bs, gs, keys);
    AlignedFull(bs, PackAll(SentParts(keys), SENT));
    assert d[..|sigmaG0|] == sigmaG0;
    Filled(d, pk[..], sigmaG0, PackAll(SentParts(keys), SENT));
    if PK_BYTES != PUB + bs.bytePos + (if bs.bitPos > 0 then 1 else 0) { return -1; }
    return 0;
  }

  lemma PackAllConcat(a: seq<seq<int>>, b: seq<seq<int>>, count: nat)
    requires AreSegments(a, count) && AreSegments(b, count)
    ensures AreSegments(a + b, count) && PackAll(a + b, count) == PackAll(a, count) + PackAll(b, count)
  {
    hide Pack, Small, SegmentPos, PackAll;
    if b == [] {
      assert a + b == a;
      PackAllNone(count);
    } else {
      var m := |b| - 1;
      PackAllConcat(a, b[..m], count);
      AppendedSegments(a, b[..m], b[m], count);
      assert b[..m] + [b[m]] == b;
    }
  }

  lemma PackAllNone(count: nat)
    ensures PackAll([], count) == []
  {
  }

  /** One more segment behind those of b, and behind those of a and b. */
  lemma AppendedSegments(a: seq<seq<int>>, b: seq<seq<int>>, x: seq<int>, count: nat)
    requires AreSegments(a + b, count) && AreSegments(b, count) && |x| == count && Small(x)
    ensures AreSegments(b + [x], count) && AreSegments(a + (b + [x]), count)
    ensures PackAll(b + [x], count) == PackAll(b, count) + Pack(x)
    ensures PackAll(a + (b + [x]), count) == PackAll(a + b, count) + Pack(x)
  {
    hide Pack, Small, SegmentPos;
    var list, whole := b + [x], a + (b + [x]);
    assert list[..|b|] == b && whole[..|a + b|] == a + b;
    hide PackAll;
    PackAllNext(list, count, |b|);
    PackAllNext(whole, count, |a + b|);
    assert list[..|b| + 1] == list && whole[..|a + b| + 1] == whole;
  }

  /** All A_inv, then all B_inv. */
  method WriteSecretParts(bs: BitStream, aInvs: seq<array<int>>, bInvs: seq<array<int>>, ghost keys: seq<Key>)
    requires Aligned(bs, []) && WellFormedKeys(keys) && bs.bufLen == SegmentPos(2 * |keys|, NN)
    requires Store(aInvs, AInvs(keys)) && Store(bInvs, BInvs(keys)) && AreSegments(SecretParts(keys), NN)
    modifies bs, bs.data
    ensures Aligned(bs, PackAll(SecretParts(keys), NN))
    ensures Outside(old(bs.data[..]), bs.data[..], bs.off, bs.off + bs.bufLen)
  {
    ghost var list, k, d := SecretParts(keys), |keys|, bs.data[..];
    assert list == AInvs(keys) + BInvs(keys);
    assert list[..k] == AInvs(keys) && list[k..] == BInvs(keys);
    hide Aligned, Outside, PackAll, SegmentPos, SecretParts, Pack, Small;
    PackAllConcat(AInvs(keys), BInvs(keys), NN);
    SegmentPosSplit(k, NN);
    WriteMatrices(bs, aInvs, AInvs(keys), []);
    assert [] + PackAll(AInvs(keys), NN) == PackAll(AInvs(keys), NN);
    ghost var d1 := bs.data[..];
    WriteMatrices(bs, bInvs, BInvs(keys), PackAll(AInvs(keys), NN));
    OutsideAgain(d, d1, bs.data[..], bs.off, bs.off + bs.bufLen);
  }

  method WriteSecretKey(sk: array<Octet>, delta: seq<Octet>, sigmaG0: seq<Octet>,
      aInvs: seq<array<int>>, bInvs: seq<array<int>>, ghost keys: seq<Key>)
    requires sk.Length == SK_BYTES && |delta| == SEC && |sigmaG0| == PUB && |keys| == KEYS && WellFormedKeys(keys)
    requires Store(aInvs, AInvs(keys)) && Store(bInvs, BInvs(keys)) && AreSegments(SecretParts(keys), NN)
    modifies sk
    ensures sk[..] == delta + sigmaG0 + PackAll(SecretParts(keys), NN)
  {
    hide Aligned, PackAll, SegmentPos, SecretParts, AreSegments, WellFormedKeys;
    CopyBytes(sk, 0, delta);
    CopyBytes(sk, SEC, sigmaG0);
    ghost var d, content := sk[..], PackAll(SecretParts(keys), NN);
    SecretHeader(d, delta, sigmaG0);
    hide Outside;
    var bs := new BitStream(sk, SEC + PUB, SK_BYTES - SEC - PUB);
    StartAligned(bs);
    WriteSecretParts(bs, aInvs, bInvs, keys);
    AlignedFull(bs, content);
    Filled(d, sk[..], delta + sigmaG0, content);
  }

  lemma SegmentPosSplit(k: nat, count: nat)
    ensures SegmentPos(2 * k, count) == SegmentPos(k, count) + SegmentPos(k, count)
  {
    hide PackedLen;
    MulAdd(k, k, PackedLen(count));
  }

  lemma SecretHeader(d: seq<Octet>, delta: seq<Octet>, sigmaG0: seq<Octet>)
    requires |d| >= |delta| + |sigmaG0|
    requires d[|delta|..|delta| + |sigmaG0|] == sigmaG0 && d[..|delta|] == delta
    ensures d[..|delta + sigmaG0|] == delta + sigmaG0
  {
  }

  /** The base code from its seed. */
  method BaseCode(seed: seq<Octet>) returns (g0: array<int>)
    requires SysMatOf(seed, N, NN).Some?
    ensures fresh(g0) && g0.Length == N * NN && SysMatOf(seed, N, NN) == Some(g0[..])
  {
    hide SysMatOf;
    g0 := new int[N * NN](_ => 0);
    Shape();
    RndSysMat(g0, N, NN, seed);
  }

  /** crypto_sign_keypair: the size check at its end never fails. */
  method CryptoSignKeypair(pk: array<Octet>, sk: array<Octet>, delta: array<Octet>) returns (ret: int)
    requires delta.Length == SEC && pk.Length == PK_BYTES && sk.Length == SK_BYTES
    requires pk != sk && pk != delta && sk != delta && KeyGen(delta[..]).Some?
    modifies pk, sk
    ensures ret == 0 && pk[..] == KeyGen(delta[..]).value.pk && sk[..] == KeyGen(delta[..]).value.sk
    ensures IsGenerated(delta[..], pk[..], sk[..])
  {
    hide Bytes, KeysFrom, SysMatOf, PackAll, AreSegments;
    hide SentParts, SecretParts, WellFormedKeys, HonestKeys, Systematic;
    ghost var seed := delta[..];
    SecretKeysAreHonest(seed);
    ghost var keys := SecretKeys(seed).value;
    KeyPartsAreSegments(keys);
    var sigmaG0, sigma := new Octet[PUB](_ => 0), new Octet[SEC](_ => 0);
    var buf := [sigmaG0, sigma];
    TwoLengths(buf);
    Xof(buf, delta);
    assert buf[0] == sigmaG0 && buf[1] == sigma;
    var g0 := BaseCode(sigmaG0[..]);
    Shape();
    SysMatIsSystematic(sigmaG0[..], N, NN);
    var aInvs, bInvs, gs := GenerateKeys(g0, sigma);
    ret := WritePublicKey(pk, sigmaG0[..], gs, keys);
    WriteSecretKey(sk, delta[..], sigmaG0[..], aInvs, bInvs, keys);
    hide IsGenerated;
    KeyGenIsRun(delta[..], pk[..], sk[..]);
  }

  lemma TwoLengths(buf: seq<array<Octet>>)
    requires |buf| == 2
    ensures LengthBefore(buf, 0) == 0 && LengthBefore(buf, 1) == buf[0].Length
  {
  }
}
