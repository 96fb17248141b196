/** crypto_sign_open (ref/meds_serial.c). */
module Opening {
  import opened Arithmetic
  import opened Params
  import opened Loops
  import opened Matrix
  import opened Elimination
  import opened Action
  import opened Bits
  import opened Shake
  import opened BitStream
  import opened SeedTree
  import opened PathNodes
  import opened Traversal
  import opened Sampling
  import opened ParseHash
  import opened Challenges
  import opened Packing
  import opened PublicKey
  import opened Scheme
  import opened Acceptance
  import opened Codec
  import opened Keypair
  import opened Rounds
  import opened Signing

  // ----- the public key -----

  /** A part of a matrix of n x nn entries is as it is rebuilt from the values. */
  ghost predicate RebuiltRows(g: Mat, values: seq<int>, lo: nat, hi: nat, from: nat, to: nat) {
    forall r, c :: lo <= r < hi && from <= c < to ==> At(g, NN, r, c) == RebuiltAt(values, r, c)
  }

  /** The identity block, before rows 0 and 1 are filled in. */
  method PutIdentity(g: array<int>)
    requires g.Length == N * NN
    modifies g
    ensures forall r, c :: 0 <= r < N && 0 <= c < N ==> At(g[..], NN, r, c) == if r == c then 1 else 0
  {
    hide At;
    Shape();
    for r := 0 to N
      invariant forall i, c :: 0 <= i < r && 0 <= c < N ==> At(g[..], NN, i, c) == if i == c then 1 else 0
    {
      for c := 0 to N
        invariant forall i, j :: 0 <= i < r && 0 <= j < N ==> At(g[..], NN, i, j) == if i == j then 1 else 0
        invariant forall j :: 0 <= j < c ==> At(g[..], NN, r, j) == if r == j then 1 else 0
      {
        SetCell(g, N, NN, r, c, if r == c then 1 else 0);
      }
    }
  }

  lemma RebuiltSent(values: seq<int>, r: nat, c: nat, k: nat)
    requires |values| == SENT && 1 <= r < N && (if r == 1 then (N - 1) * N else N) <= c < NN && k == SentPos(r, c)
    ensures k < SENT && RebuiltAt(values, r, c) == values[k]
  {
    Shape();
    if r == 1 { SentSize(1, 0); } else { SentSize(r, c - N); }
  }

  /** bs_read of one entry. */
  method ReadEntry(bs: BitStream, g: array<int>, r: nat, c: nat, ghost bytes: seq<Octet>, ghost pos: nat, ghost k: nat)
    requires g.Length == N * NN && r < N && c < NN
    requires Reading(bs, bytes, pos, k) && k < SENT && pos + PackedLen(SENT) <= |bytes|
    modifies bs, g
    ensures Reading(bs, bytes, pos, k + 1)
    ensures forall i, j :: 0 <= j < NN ==>
      At(g[..], NN, i, j) == if i == r && j == c then Unpack(bytes, pos, SENT)[k] else At(old(g[..]), NN, i, j)
  {
    hide At, Reading, ValueAt;
    var v := ReadNext(bs, bytes, pos, k, SENT);
    SetCell(g, N, NN, r, c, v);
  }

  /** The first rows * n entries of row r: ones where the word, as an n x n matrix, has a one shifted to
      the right of its diagonal. */
  method PutShifted(g: array<int>, r: nat, rows: nat, shift: nat)
    requires g.Length == N * NN && r < N && rows <= N
    modifies g
    ensures forall c :: 0 <= c < rows * N ==> At(g[..], NN, r, c) == if c / N + shift == c % N then 1 else 0
    ensures forall i, j :: 0 <= j < NN && (i != r || j >= rows * N) ==> At(g[..], NN, i, j) == At(old(g[..]), NN, i, j)
  {
    hide At;
    ghost var g0 := g[..];
    var off := 0;
    for ii := 0 to rows
      invariant off == N * ii
      invariant forall c :: 0 <= c < off ==> At(g[..], NN, r, c) == if c / N + shift == c % N then 1 else 0
      invariant forall i, j :: 0 <= j < NN && (i != r || j >= off) ==> At(g[..], NN, i, j) == At(g0, NN, i, j)
    {
      RowOffset(N, N, ii);
      for j := 0 to N
        invariant forall c :: 0 <= c < off + j ==> At(g[..], NN, r, c) == if c / N + shift == c % N then 1 else 0
        invariant forall i, c :: 0 <= c < NN && (i != r || c >= off + j) ==> At(g[..], NN, i, c) == At(g0, NN, i, c)
      {
        QuotientOf(off + j, N, ii, j);
        SetCell(g, N, NN, r, off + j, if ii + shift == j then 1 else 0);
      }
      off := off + N;
    }
    MulCommutes(N, rows);
  }

  /** One public code: the identity, then what is read, then the constant rows; bs_finalize. */
  method ReadCode(bs: BitStream, g: array<int>, ghost bytes: seq<Octet>, ghost pos: nat)
    requires g.Length == N * NN && Reading(bs, bytes, pos, 0) && pos + PackedLen(SENT) <= |bytes|
    modifies bs, g
    ensures Reading(bs, bytes, pos + PackedLen(SENT), 0)
    ensures g[..] == Rebuilt(Unpack(bytes, pos, SENT))
  {
    hide At, Reading, Unpack, SentPos, RebuiltAt, PackedLen, Rebuilt;
    ghost var values := Unpack(bytes, pos, SENT);
    Shape();
    PutIdentity(g);
    IdentityRows(g[..], values);
    SentPosStep(1);
    ghost var k: nat := 0;
    for j := (N - 1) * N to NN
      invariant k == SentPos(1, j) && Reading(bs, bytes, pos, k)
      invariant RebuiltRows(g[..], values, 2, N, 0, N) && RebuiltRows(g[..], values, 1, 2, (N - 1) * N, j)
    {
      RebuiltSent(values, 1, j, k);
      ReadEntry(bs, g, 1, j, bytes, pos, k);
      k := k + 1;
    }
    for r := 2 to N
      invariant k == SentPos(r, N) && Reading(bs, bytes, pos, k)
      invariant RebuiltRows(g[..], values, 2, N, 0, N) && RebuiltRows(g[..], values, 1, 2, (N - 1) * N, NN)
      invariant RebuiltRows(g[..], values, 2, r, N, NN)
    {
      SentPosStep(r);
      for j := N to NN
        invariant k == SentPos(r, j) && Reading(bs, bytes, pos, k)
        invariant RebuiltRows(g[..], values, 2, N, 0, N) && RebuiltRows(g[..], values, 1, 2, (N - 1) * N, NN)
        invariant RebuiltRows(g[..], values, 2, r, N, NN) && RebuiltRows(g[..], values, r, r + 1, N, j)
      {
        RebuiltSent(values, r, j, k);
        ReadEntry(bs, g, r, j, bytes, pos, k);
        k := k + 1;
      }
    }
    PutShifted(g, 0, N, 0);
    PutShifted(g, 1, N - 1, 1);
    FinishReading(bs, bytes, pos, SENT);
    ConstantRows(g[..], values);
  }

  lemma IdentityRows(g: Mat, values: seq<int>)
    requires forall r, c :: 0 <= r < N && 0 <= c < N ==> At(g, NN, r, c) == if r == c then 1 else 0
    ensures RebuiltRows(g, values, 2, N, 0, N)
  {
    hide At;
  }

  lemma ConstantRows(g: Mat, values: seq<int>)
    requires |g| == N * NN
    requires RebuiltRows(g, values, 2, N, 0, N) && RebuiltRows(g, values, 2, N, N, NN)
    requires RebuiltRows(g, values, 1, 2, (N - 1) * N, NN)
    requires forall c :: 0 <= c < N * N ==> At(g, NN, 0, c) == if c / N + 0 == c % N then 1 else 0
    requires forall c :: 0 <= c < (N - 1) * N ==> At(g, NN, 1, c) == if c / N + 1 == c % N then 1 else 0
    ensures g == Rebuilt(values)
  {
    hide At, Rebuilt;
    forall r, c | 0 <= r < N && 0 <= c < NN ensures At(g, NN, r, c) == At(Rebuilt(values), NN, r, c) {
      RebuiltIs(values, r, c);
      if r >= 2 { hide RebuiltAt; }
    }
    MatEqual(N, NN, g, Rebuilt(values));
  }

  ghost function PublicCodes(pk: seq<Octet>, count: nat): (list: seq<Mat>)
    requires |pk| == PK_BYTES && count <= KEYS
    ensures |list| == count
  {
    seq(count, i requires 0 <= i < count => PublicCode(pk, i + 1))
  }

  lemma PublicNext(pk: seq<Octet>, count: nat)
    requires |pk| == PK_BYTES && count < KEYS
    ensures PublicCodes(pk, count + 1) == PublicCodes(pk, count) + [PublicCode(pk, count + 1)]
  {
    hide PublicCode;
  }

  method LoadCodes(pk: array<Octet>) returns (gs: seq<array<int>>)
    requires pk.Length == PK_BYTES
    ensures fresh(gs) && Store(gs, PublicCodes(pk[..], KEYS))
  {
    hide Reading, SegmentPos, Rebuilt, Unpack, PackedLen;
    gs := [];
    ghost var s, bytes := pk[..], pk[PUB..];
    var bs := new BitStream(pk, PUB, PK_BYTES - PUB);
    StartReading(bs, bytes);
    SegmentPosStep(0, SENT);
    for i := 0 to KEYS
      invariant pk[..] == s && pk[PUB..] == bytes && Reading(bs, bytes, SegmentPos(i, SENT), 0)
      invariant fresh(bs) && fresh(gs) && Store(gs, PublicCodes(s, i))
    {
      var g := new int[N * NN](_ => 0);
      SegmentPosStep(i, SENT);
      SegmentPosWithin(i, KEYS, SENT);
      ReadCode(bs, g, bytes, SegmentPos(i, SENT));
      PublicNext(s, i);
      gs := gs + [g];
    }
  }

  // ----- one round -----

  /** A copy is eliminated to see whether the matrix is invertible. */
  method IsInvertible(m: array<int>) returns (ok: bool)
    requires m.Length == NN && Reduced(m[..])
    ensures ok <==> !Singular(m[..], N, N)
  {
    hide Singular;
    var tmp := new int[NN](i requires 0 <= i < m.Length reads m => m[i]);
    assert tmp[..] == m[..];
    var ret := SystCt(tmp, N, N);
    ok := ret == 0;
  }

  /** The response of the next punctured round, and the commitment it leads to. */
  method CheckResponse(bs: BitStream, g: array<int>, gHat: array<int>, ghost sm: seq<Octet>, ghost c: nat)
    returns (ok: bool)
    requires |sm| >= SIG_BYTES && g.Length == gHat.Length == N * NN && g != gHat
    requires c < WEIGHT && Reading(bs, sm[..MUNU], SegmentPos(2 * c, NN), 0)
    modifies bs, gHat
    ensures Reading(bs, sm[..MUNU], SegmentPos(2 * c + 2, NN), 0)
    ensures FromResponse(ReadResponse(sm, 2 * c), ReadResponse(sm, 2 * c + 1), g[..]) ==
      if ok then Some(gHat[..]) else None
    ensures ok ==> IsMatrix(gHat[..], N * NN)
  {
    hide Reading, SegmentPos, Unpack, ModAll, PackedLen, Singular, Pi, SystForm;
    ghost var bytes, g0 := sm[..MUNU], g[..];
    var mu, nu := new int[NN](_ => 0), new int[NN](_ => 0);
    SegmentPosStep(2 * c, NN);
    SegmentPosStep(2 * c + 1, NN);
    SegmentPosWithin(2 * c, 2 * WEIGHT, NN);
    SegmentPosWithin(2 * c + 1, 2 * WEIGHT, NN);
    ReadModMatrix(bs, mu, bytes, SegmentPos(2 * c, NN));
    ReadModMatrix(bs, nu, bytes, SegmentPos(2 * c + 1, NN));
    ok := IsInvertible(mu);
    if !ok { return; }
    ok := IsInvertible(nu);
    if !ok { return; }
    PiInto(gHat, mu, nu, g);
    PiReduced(mu[..], nu[..], g0);
    Shape();
    var ret := SystCt(gHat, N, NN);
    ok := ret == 0;
  }

  /** The leaves from i on that are not punctured hold the seeds that follow from the path. */
  ghost predicate SeedsFrom(s: seq<Seed>, h: Challenge, sm: seq<Octet>, i: nat)
    requires |sm| >= SIG_BYTES && |h| == T
  {
    && IsTree(s)
    && forall j :: i <= j < T && h[j] == 0 ==> SeedAt(s, H, j) == PathLeaf(h, sm, MUNU, AlphaOf(sm), j)
  }

  lemma FilledLeaf(v0: seq<Seed>, v: seq<Seed>, salt: seq<Octet>, path: seq<Octet>, off: nat, h: Challenge, j: nat)
    requires IsFilled(v0, v, salt, path, off, Nodes(h, 0, 0)) && |h| == T && j < T && h[j] == 0
    ensures SeedAt(v, H, j) == PathLeaf(h, path, off, salt, j)
  {
    hide Nodes, Derived, PathSeed, SeedAt, Left;
    RootLeaves();
    NodesCover(h, 0, 0, j);
    var x :| x in Nodes(h, 0, 0) && x.h <= H && Covers(x, j);
    var k: nat :| k < |Nodes(h, 0, 0)| && Nodes(h, 0, 0)[k] == x;
  }

  /** The verifier's tree, filled from the path in the signature. */
  method FillTree(sm: array<Octet>, h: Challenge, alpha: seq<Octet>) returns (stree: array<Seed>)
    requires sm.Length >= SIG_BYTES && IsChallenge(h) && alpha == AlphaOf(sm[..])
    ensures fresh(stree) && SeedsFrom(stree[..], h, sm[..], 0)
  {
    hide IsFilled, Nodes, SeedAt, PathLeaf, AlphaOf;
    stree := new Seed[Pow2(H + 1) - 1](_ => ZeroSeed());
    ghost var v0, path := stree[..], sm[..];
    ChallengeIsSeen(h);
    StreeToPathToStree(stree, h, sm, MUNU, alpha, PathToStree);
    ghost var v := stree[..];
    FilledTree(v0, v, alpha, path, MUNU, Nodes(h, 0, 0));
    forall j: nat | j < T && h[j] == 0 ensures SeedAt(v, H, j) == PathLeaf(h, path, MUNU, alpha, j) {
      FilledLeaf(v0, v, alpha, path, MUNU, h, j);
    }
  }

  lemma FilledTree(v0: seq<Seed>, v: seq<Seed>, salt: seq<Octet>, path: seq<Octet>, off: nat, nodes: seq<Node>)
    requires IsTree(v0) && IsFilled(v0, v, salt, path, off, nodes)
    ensures IsTree(v)
  {
  }

  lemma SeedsStep(s: seq<Seed>, s': seq<Seed>, h: Challenge, sm: seq<Octet>, i: nat)
    requires |sm| >= SIG_BYTES && |h| == T && i < T && SeedsFrom(s, h, sm, i)
    requires Addr(H, i) < |s| == |s'| && s' == s[Addr(H, i) := s'[Addr(H, i)]]
    ensures SeedsFrom(s', h, sm, i + 1)
  {
    hide PathLeaf, AlphaOf;
    forall j: nat | i < j < T ensures Addr(H, j) != Addr(H, i) && SeedAt(s', H, j) == SeedAt(s, H, j) {
    }
  }

  /** Where the verifier stands before round i. */
  ghost predicate BeforeRound(bs: BitStream, s: seq<Seed>, h: Challenge, sm: seq<Octet>, i: nat)
    requires |sm| >= SIG_BYTES && |h| == T
    reads bs, bs.data
  {
    Reading(bs, sm[..MUNU], SegmentPos(2 * Count(h, 0, i), NN), 0) && SeedsFrom(s, h, sm, i)
  }

  /** A punctured round. */
  method CheckPunctured(gs: seq<array<int>>, stree: array<Seed>, bs: BitStream, h: array<Octet>, i: nat,
      ghost g0: Mat, ghost pk: seq<Octet>, ghost sm: seq<Octet>) returns (ok: bool, gHat: array<int>)
    requires |pk| == PK_BYTES && |sm| >= SIG_BYTES && h.Length == T && IsChallenge(h[..]) && i < T && 0 < h[i] <= KEYS
    requires Store(gs, PublicCodes(pk, KEYS)) && BeforeRound(bs, stree[..], h[..], sm, i)
    modifies bs
    ensures fresh(gHat) && CheckRound(pk, sm, g0, h[..], i) == Some(if ok then Some(gHat[..]) else None)
    ensures ok ==> IsMatrix(gHat[..], N * NN) && BeforeRound(bs, stree[..], h[..], sm, i + 1)
  {
    Positions();
    hide Reading, SegmentPos, SeedsFrom, FromResponse, ReadResponse, PublicCode, AnswerOf, BeforeRound, CheckRound;
    hide AlphaOf, Count, MUNU, SIG_BYTES, PK_BYTES;
    gHat := new int[N * NN](_ => 0);
    ghost var hs, s, c := h[..], stree[..], Count(h[..], 0, i);
    CountBelow(hs, i);
    RoundParts(bs, s, hs, sm, i);
    PuncturedAnswer(pk, sm, g0, hs, i);
    var g := gs[h[i] - 1];
    assert g[..] == PublicCode(pk, hs[i]);
    hide Store, PublicCodes;
    ok := CheckResponse(bs, g, gHat, sm, c);
    assert h[..] == hs && stree[..] == s;
    if ok { RoundDone(bs, s, hs, sm, i, c); }
  }

  lemma PuncturedAnswer(pk: seq<Octet>, sm: seq<Octet>, g0: Mat, h: Challenge, i: nat)
    requires |pk| == PK_BYTES && |sm| >= SIG_BYTES && i < |h| && 0 < h[i] <= KEYS
    ensures |sm| >= MUNU
    ensures var c := Count(h, 0, i);
      CheckRound(pk, sm, g0, h, i) ==
        Some(FromResponse(ReadResponse(sm, 2 * c), ReadResponse(sm, 2 * c + 1), PublicCode(pk, h[i])))
  {
    Positions();
    hide FromResponse, ReadResponse, PublicCode, Count, MUNU, SIG_BYTES, PK_BYTES;
  }

  lemma RoundParts(bs: BitStream, s: seq<Seed>, h: Challenge, sm: seq<Octet>, i: nat)
    requires |sm| >= SIG_BYTES && |h| == T && BeforeRound(bs, s, h, sm, i)
    ensures Reading(bs, sm[..MUNU], SegmentPos(2 * Count(h, 0, i), NN), 0) && SeedsFrom(s, h, sm, i)
  {
  }

  lemma RoundDone(bs: BitStream, s: seq<Seed>, h: Challenge, sm: seq<Octet>, i: nat, c: nat)
    requires |sm| >= SIG_BYTES && |h| == T && i < T && h[i] > 0 && SeedsFrom(s, h, sm, i)
    requires c == Count(h, 0, i) && |sm| >= MUNU && Reading(bs, sm[..MUNU], SegmentPos(2 * c + 2, NN), 0)
    ensures BeforeRound(bs, s, h, sm, i + 1)
  {
    hide Reading, SegmentPos, SeedsFrom, Count;
    CountStep(h, i);
    SeedsLater(s, h, sm, i);
    assert 2 * Count(h, 0, i + 1) == 2 * c + 2;
  }

  lemma CountStep(h: Challenge, i: nat)
    requires i < |h|
    ensures Count(h, 0, i + 1) == Count(h, 0, i) + (if h[i] > 0 then 1 else 0)
  {
  }

  lemma SeedsLater(s: seq<Seed>, h: Challenge, sm: seq<Octet>, i: nat)
    requires |sm| >= SIG_BYTES && |h| == T && SeedsFrom(s, h, sm, i)
    ensures SeedsFrom(s, h, sm, i + 1)
  {
    hide PathLeaf, AlphaOf;
  }

  /** A round whose seed is in the tree. */
  method CheckUnpunctured(g0: array<int>, stree: array<Seed>, bs: BitStream, h: array<Octet>, alpha: seq<Octet>, i: nat,
      ghost pk: seq<Octet>, ghost sm: seq<Octet>) returns (gHat: array<int>)
    requires g0.Length == N * NN && |pk| == PK_BYTES && |sm| >= SIG_BYTES && h.Length == T
    requires IsChallenge(h[..]) && i < T && h[i] == 0
    requires alpha == AlphaOf(sm) && BeforeRound(bs, stree[..], h[..], sm, i)
    requires CheckRound(pk, sm, g0[..], h[..], i).Some?
    modifies stree
    ensures fresh(gHat) && CheckRound(pk, sm, g0[..], h[..], i) == Some(Some(gHat[..]))
    ensures BeforeRound(bs, stree[..], h[..], sm, i + 1)
  {
    hide Reading, SegmentPos, RoundOf, PathLeaf, AlphaOf, IsChallenge, Count, SeedsFrom, SeedAt, Addr;
    ghost var s, hd := stree[..], h[..];
    CountStep(hd, i);
    SeedsTree(s, hd, sm, i);
    var a, b;
    a, b, gHat := RunRound(g0, alpha, i, stree, Addr(H, i));
    SeedsStep(s, stree[..], hd, sm, i);
  }

  lemma SeedsTree(s: seq<Seed>, h: Challenge, sm: seq<Octet>, i: nat)
    requires |sm| >= SIG_BYTES && |h| == T && i < T && SeedsFrom(s, h, sm, i) && h[i] == 0
    ensures Addr(H, i) < |s| && s[Addr(H, i)] == PathLeaf(h, sm, MUNU, AlphaOf(sm), i)
  {
    hide PathLeaf, AlphaOf;
    LeafIsNode(i);
    AddrBound(H, i);
  }

  // ----- all rounds -----

  /** If all rounds terminate, so do the first i, and the next one unless a response was malformed. */
  lemma {:induction false} ChecksPrefix(pk: seq<Octet>, sm: seq<Octet>, g0: Mat, h: Challenge, count: nat, i: nat)
    requires |pk| == PK_BYTES && |sm| >= SIG_BYTES && i <= count <= |h| && forall j :: 0 <= j < count ==> h[j] <= KEYS
    requires CheckRounds(pk, sm, g0, h, count).Some?
    ensures CheckRounds(pk, sm, g0, h, i).Some?
    ensures CheckRounds(pk, sm, g0, h, i).value.None? ==> CheckRounds(pk, sm, g0, h, count).value.None?
    ensures i < count && CheckRounds(pk, sm, g0, h, i).value.Some? ==> CheckRound(pk, sm, g0, h, i).Some?
    decreases count
  {
    hide CheckRound, Commitment;
    if i < count { ChecksPrefix(pk, sm, g0, h, count - 1, i); }
  }

  method CheckAll(g0: array<int>, gs: seq<array<int>>, stree: array<Seed>, bs: BitStream, h: array<Octet>,
      alpha: seq<Octet>, shake: KeccakState, ghost pk: seq<Octet>, ghost sm: seq<Octet>)
    returns (ok: bool)
    requires g0.Length == N * NN && |pk| == PK_BYTES && |sm| >= SIG_BYTES && IsChallenge(h[..])
    requires h.Length == T && forall j :: 0 <= j < T ==> h[j] <= KEYS
    requires Store(gs, PublicCodes(pk, KEYS)) && alpha == AlphaOf(sm) && BeforeRound(bs, stree[..], h[..], sm, 0)
    requires CheckRounds(pk, sm, g0[..], h[..], T).Some?
    requires shake.Absorbing() && shake.message == []
    modifies stree, bs, shake, shake.s
    ensures shake.Absorbing()
    ensures CheckRounds(pk, sm, g0[..], h[..], T) == Some(if ok then Some(shake.message) else None)
  {
    hide MUNU, SIG_BYTES, PK_BYTES;
    hide KeccakState.Absorbing, BeforeRound, CheckRound, Commitment, IsChallenge, AlphaOf, Store;
    ghost var c, hd := g0[..], h[..];
    for i := 0 to T
      invariant g0[..] == c && h[..] == hd && Store(gs, PublicCodes(pk, KEYS)) && BeforeRound(bs, stree[..], hd, sm, i)
      invariant shake.Absorbing() && CheckRounds(pk, sm, c, hd, i) == Some(Some(shake.message))
    {
      ChecksPrefix(pk, sm, c, hd, T, i);
      var gHat: array<int>;
      if h[i] > 0 {
        ok, gHat := CheckPunctured(gs, stree, bs, h, i, c, pk, sm);
        if !ok {
          ChecksPrefix(pk, sm, c, hd, T, i + 1);
          return;
        }
      } else {
        gHat := CheckUnpunctured(g0, stree, bs, h, alpha, i, pk, sm);
      }
      var buf := WriteHashed(gHat);
      shake.AbsorbMore(buf[..]);
    }
    ok := true;
  }

  /** The rounds of a verification: the public codes, the tree from the path, the commitments hashed. */
  method HashRounds(g0: array<int>, pk: array<Octet>, sm: array<Octet>, h: array<Octet>, alpha: seq<Octet>)
    returns (ok: bool, shake: KeccakState)
    requires g0.Length == N * NN && pk.Length == PK_BYTES && sm.Length >= SIG_BYTES && alpha == AlphaOf(sm[..])
    requires h.Length == T && IsChallenge(h[..]) && forall j :: 0 <= j < T ==> h[j] <= KEYS
    requires CheckRounds(pk[..], sm[..], g0[..], h[..], T).Some?
    ensures fresh(shake) && fresh(shake.s) && shake.Absorbing()
    ensures CheckRounds(pk[..], sm[..], g0[..], h[..], T) == Some(if ok then Some(shake.message) else None)
  {
    hide KeccakState.Absorbing, CheckRounds, AlphaOf, Store, BeforeRound, IsChallenge, SeedsFrom, PublicCodes;
    ghost var key, sig := pk[..], sm[..];
    var gs := LoadCodes(pk);
    var bs := new BitStream(sm, 0, MUNU);
    var stree := FillTree(sm, h[..], alpha);
    FirstRound(bs, stree[..], h[..], sig);
    shake := new KeccakState();
    shake.Init();
    ok := CheckAll(g0, gs, stree, bs, h, alpha, shake, key, sig);
  }

  /** crypto_sign_open: 0 with the message, or -1 and nothing written. */
  method CryptoSignOpen(m: array<Octet>, sm: array<Octet>, pk: array<Octet>) returns (ret: int, mlen: nat)
    requires pk.Length == PK_BYTES && sm.Length >= SIG_BYTES && m.Length >= sm.Length - SIG_BYTES && m != sm && m != pk
    requires Open(pk[..], sm[..]).Some?
    modifies m
    ensures ret == 0 || ret == -1
    ensures ret == 0 <==> Accepts(pk[..], sm[..], sm[SIG_BYTES..])
    ensures ret == 0 ==>
      mlen <= m.Length && Open(pk[..], sm[..]).value == Some(m[..mlen]) && m[mlen..] == old(m[mlen..])
    ensures ret == -1 ==> Open(pk[..], sm[..]).value == None && m[..] == old(m[..])
  {
    hide KeccakState.Absorbing, KeccakState.Squeezing, Open, SysMatOf, ParseHashOf, Accepts;
    hide CheckRounds, Bytes, DigestOf, AlphaOf;
    hide IsChallenge;
    mlen := 0;
    ghost var key, sig := pk[..], sm[..];
    OpenParts(key, sig);
    OpenIsAcceptance(key, sig, sig[SIG_BYTES..]);
    var g0 := BaseCode(pk[..PUB]);
    var digest, alpha := TailOf(sm);
    var h := new Octet[T](_ => 0);
    var parsed := Parse(digest, h);
    assert h[..] == h[..T];
    var ok, shake := HashRounds(g0, pk, sm, h, alpha);
    if !ok { return -1, 0; }
    shake.AbsorbMore(sm[SIG_BYTES..]);
    shake.FinishAbsorbing();
    var check := shake.Squeeze(DIGEST);
    if digest != check { return -1, 0; }
    mlen := sm.Length - SIG_BYTES;
    CopyBytes(m, 0, sm[SIG_BYTES..]);
    ret := 0;
  }

  method TailOf(sm: array<Octet>) returns (digest: seq<Octet>, alpha: seq<Octet>)
    requires sm.Length >= SIG_BYTES
    ensures digest == DigestOf(sm[..]) && alpha == AlphaOf(sm[..])
  {
    digest := sm[DIGEST_POS..DIGEST_POS + DIGEST];
    alpha := sm[SIG_BYTES - SALT..SIG_BYTES];
  }

  lemma FirstRound(bs: BitStream, s: seq<Seed>, h: Challenge, sm: seq<Octet>)
    requires |sm| >= SIG_BYTES && |h| == T && SeedsFrom(s, h, sm, 0)
    requires bs.Valid() && bs.Position() == 0 && bs.Window() == sm[..MUNU]
    ensures BeforeRound(bs, s, h, sm, 0)
  {
    hide SeedsFrom, SegmentPos, Reading;
    StartReading(bs, sm[..MUNU]);
    SegmentPosStep(0, NN);
    assert Count(h, 0, 0) == 0;
  }
}
