/** The end-to-end theorem: what crypto_sign produces under a generated key is accepted by
    crypto_sign_open, which returns exactly the signed message. */
module Completeness {
  import opened Params
  import opened Loops
  import opened Field
  import opened Matrix
  import opened Products
  import opened Action
  import opened Bits
  import opened Shake
  import opened SeedTree
  import opened PathNodes
  import opened Traversal
  import opened Sampling
  import opened ParseHash
  import opened Packing
  import opened PublicKey
  import opened Scheme

  // ----- the keys as the two sides load them -----

  lemma KeyBytes(delta: seq<Octet>)
    requires KeyGen(delta).Some? && |delta| == SEC
    ensures SecretKeys(delta).Some? && |SecretKeys(delta).value| == KEYS
    ensures |KeyGen(delta).value.pk| == PK_BYTES && |KeyGen(delta).value.sk| == SK_BYTES
    ensures KeyGen(delta).value.pk[..PUB] == SeedOfCode(delta)
    ensures KeyGen(delta).value.sk[SEC..SEC + PUB] == SeedOfCode(delta)
  {
    hide SecretKeys, PackAll, Bytes;
    SecretKeysAreHonest(delta);
    KeyPartsAreSegments(SecretKeys(delta).value);
    hide AreSegments;
  }

  /** The verifier rebuilds the public code that key generation computed. */
  lemma LoadedPublicCode(delta: seq<Octet>, key: nat)
    requires KeyGen(delta).Some? && |delta| == SEC && 1 <= key <= KEYS
    ensures |KeyGen(delta).value.pk| == PK_BYTES && SecretKeys(delta).Some? && |SecretKeys(delta).value| == KEYS
    ensures PublicCode(KeyGen(delta).value.pk, key) == SecretKeys(delta).value[key - 1].g
  {
    hide SecretKeys, PackAll, Bytes, Unpack, Rebuilt, SentPart, IsPairOf, Small, SysMatOf;
    KeyBytes(delta);
    SecretKeysAreHonest(delta);
    hide WellFormedKey;
    var keys := SecretKeys(delta).value;
    KeyPartsAreSegments(keys);
    var list := SentParts(keys);
    var pk := KeyGen(delta).value.pk;
    assert pk[PUB..] == [] + PackAll(list, SENT) + [];
    UnpackAll([], list, SENT, [], key - 1);
    assert HonestKey(keys[key - 1], SysMatOf(SeedOfCode(delta), N, NN).value);
  }

  /** The signer loads the secret matrices that key generation stored. */
  lemma LoadedSecretPart(delta: seq<Octet>, key: nat)
    requires KeyGen(delta).Some? && |delta| == SEC && 1 <= key <= KEYS
    ensures |KeyGen(delta).value.sk| == SK_BYTES && SecretKeys(delta).Some? && |SecretKeys(delta).value| == KEYS
    ensures LoadedPart(KeyGen(delta).value.sk, key - 1) == SecretKeys(delta).value[key - 1].aInv
    ensures LoadedPart(KeyGen(delta).value.sk, KEYS + key - 1) == SecretKeys(delta).value[key - 1].bInv
  {
    hide SecretKeys, PackAll, Bytes, Unpack, Small, SysMatOf, HonestKeys, WellFormedKey;
    KeyBytes(delta);
    SecretKeysAreHonest(delta);
    var keys := SecretKeys(delta).value;
    KeyPartsAreSegments(keys);
    var list := SecretParts(keys);
    var sk := KeyGen(delta).value.sk;
    assert sk[SEC + PUB..] == [] + PackAll(list, NN) + [];
    UnpackAll([], list, NN, [], key - 1);
    UnpackAll([], list, NN, [], KEYS + key - 1);
  }

  // ----- one response -----

  /** The response to round r under an honest key leads the verifier to the commitment of the round. */
  lemma ResponseIsAccepted(k: Key, g0: Mat, r: Round)
    requires HonestKey(k, g0) && GoodRound(g0, r)
    ensures FromResponse(Times(N, r.a, k.aInv, N), Times(N, k.bInv, r.b, N), k.g) == Some(r.g)
  {
    hide Times, Pi, Singular, Rebuilt, SentPart, SystForm;
    var a, b :| IsPairOf(k, g0, a, b);
    InvertibleNonsingular(N, k.aInv, a);
    InvertibleNonsingular(N, k.bInv, b);
    ProductNonsingular(N, r.a, k.aInv);
    ProductNonsingular(N, k.bInv, r.b);
    ResponseMatchesCommitment(a, k.aInv, b, k.bInv, r.a, r.b, g0, k.g);
  }

  lemma {:induction false} ResponsePosition(sk: seq<Octet>, tr: Transcript, i: nat, hi: nat)
    requires |sk| == SK_BYTES && WellFormedTranscript(tr) && i < hi <= T && tr.h[i] > 0
    ensures var c, list := Count(tr.h, 0, i), Responses(sk, tr, hi);
      && 2 * c + 1 < |list|
      && list[2 * c] == Mu(sk, tr.rounds[i], tr.h[i])
      && list[2 * c + 1] == Nu(sk, tr.rounds[i], tr.h[i])
    decreases hi
  {
    hide Mu, Nu, Count, WellFormedTranscript;
    var m := hi - 1;
    ResponsesAreSegments(sk, tr, m);
    if i < m { ResponsePosition(sk, tr, i, m); }
  }

  lemma ModAllReduced(m: Mat)
    requires Reduced(m)
    ensures ModAll(m) == m
  {
    forall k | 0 <= k < |m| ensures Mod(m[k]) == m[k] {
      ModIdem(m[k]);
    }
  }

  // ----- one seed -----

  /** The verifier derives the signer's seed of every leaf that is not punctured. */
  lemma LeafFromPath(sm: seq<Octet>, delta: seq<Octet>, h: Challenge, j: nat)
    requires |h| == T && j < T && h[j] == 0 && HoldsPath(sm, delta, h)
    ensures PathLeaf(h, sm, MUNU, Alpha(delta), j) == Derived(Alpha(delta), Root(delta), 0, H, j)
  {
    hide Nodes, Derived, PathSeed, Edge, Alpha, Root;
    RootLeaves();
    NodesCover(h, 0, 0, j);
    var x :| x in Nodes(h, 0, 0) && x.h <= H && Covers(x, j);
    var k: nat :| k < |Nodes(h, 0, 0)| && Nodes(h, 0, 0)[k] == x;
    forall k: nat | k < |Nodes(h, 0, 0)| && Nodes(h, 0, 0)[k].h <= H && Covers(Nodes(h, 0, 0)[k], j)
      ensures Derived(Alpha(delta), PathSeed(sm, MUNU, k), Nodes(h, 0, 0)[k].h, H, j)
           == Derived(Alpha(delta), Root(delta), 0, H, j)
    {
      var y := Nodes(h, 0, 0)[k];
      DerivedTwice(Alpha(delta), Root(delta), 0, y.h, y.i, H, j);
    }
  }

  // ----- all rounds -----

  lemma {:induction false} RoundAt(g0: Mat, alpha: seq<Octet>, rho: Seed, count: nat, i: nat)
    requires i < count && RoundsOf(g0, alpha, rho, count).Some?
    ensures |RoundsOf(g0, alpha, rho, count).value| == count
    ensures RoundOf(g0, alpha, i, Derived(alpha, rho, 0, H, i)) == Some(RoundsOf(g0, alpha, rho, count).value[i])
  {
    hide RoundOf, Derived;
    RoundsAreGood(g0, alpha, rho, count);
    if i < count - 1 {
      RoundsAreGood(g0, alpha, rho, count - 1);
      RoundAt(g0, alpha, rho, count - 1, i);
    }
  }

  /** A generated key pair, and a signature made with it. */
  ghost predicate HonestRun(delta: seq<Octet>, delta': seq<Octet>, msg: seq<Octet>, sm: seq<Octet>) {
    && |delta| == SEC && KeyGen(delta).Some?
    && |KeyGen(delta).value.sk| == SK_BYTES && |KeyGen(delta).value.pk| == PK_BYTES
    && IsSignature(sm, KeyGen(delta).value.sk, delta', msg)
  }

  /** The values that meet in such a run. */
  datatype Run = Run(keys: seq<Key>, g0: Mat, pk: seq<Octet>, sk: seq<Octet>, delta: seq<Octet>, sm: seq<Octet>,
      tr: Transcript)

  ghost predicate KeyMatches(run: Run, key: nat)
    requires |run.pk| == PK_BYTES && |run.sk| == SK_BYTES && 1 <= key <= KEYS == |run.keys|
  {
    && PublicCode(run.pk, key) == run.keys[key - 1].g
    && LoadedPart(run.sk, key - 1) == run.keys[key - 1].aInv
    && LoadedPart(run.sk, KEYS + key - 1) == run.keys[key - 1].bInv
  }

  /** Both sides hold the generated keys. */
  ghost predicate KeysMatch(run: Run) {
    && |run.pk| == PK_BYTES && |run.sk| == SK_BYTES
    && |run.keys| == KEYS && HonestKeys(run.keys, run.g0)
    && forall key :: 1 <= key <= KEYS ==> KeyMatches(run, key)
  }

  /** The signature is laid out as signed. */
  ghost predicate SignatureMatches(run: Run)
    requires |run.sk| == SK_BYTES
  {
    && |run.sm| >= SIG_BYTES && |run.sm| >= MUNU && WellFormedTranscript(run.tr)
    && AlphaOf(run.sm) == Alpha(run.delta) && HoldsPath(run.sm, run.delta, run.tr.h)
    && AreSegments(Responses(run.sk, run.tr, T), NN)
    && run.sm[..MUNU] == PackAll(Responses(run.sk, run.tr, T), NN)
  }

  ghost predicate RoundsMatch(run: Run) {
    && RoundsOf(run.g0, Alpha(run.delta), Root(run.delta), T) == Some(run.tr.rounds)
    && |run.tr.rounds| == T && forall i :: 0 <= i < T ==> GoodRound(run.g0, run.tr.rounds[i])
  }

  ghost predicate Matches(run: Run) {
    KeysMatch(run) && SignatureMatches(run) && RoundsMatch(run)
  }

  /** The verifier reads the response that the signer wrote for round i. */
  lemma ReadBackResponse(run: Run, i: nat)
    requires |run.sk| == SK_BYTES && SignatureMatches(run) && i < T && run.tr.h[i] > 0
    ensures var c := Count(run.tr.h, 0, i);
      && ReadResponse(run.sm, 2 * c) == Mu(run.sk, run.tr.rounds[i], run.tr.h[i])
      && ReadResponse(run.sm, 2 * c + 1) == Nu(run.sk, run.tr.rounds[i], run.tr.h[i])
  {
    hide Mu, Nu, Count, PackAll, Responses, HoldsPath, ReadResponse, AlphaOf, AreSegments, IsChallenge, GoodRounds;
    var sm, sk, tr := run.sm, run.sk, run.tr;
    var c, list := Count(tr.h, 0, i), Responses(sk, tr, T);
    ResponsePosition(sk, tr, i, T);
    MuIsSmall(sk, tr.rounds[i], tr.h[i]);
    ReadSegment(sm, list, 2 * c);
    ReadSegment(sm, list, 2 * c + 1);
  }

  lemma ReadSegment(sm: seq<Octet>, list: seq<seq<int>>, j: nat)
    requires |sm| >= MUNU && AreSegments(list, NN) && sm[..MUNU] == PackAll(list, NN) && j < |list| && Reduced(list[j])
    ensures ReadResponse(sm, j) == list[j]
  {
    hide PackAll, Unpack, AreSegments, ModAll, SegmentPos;
    assert sm[..MUNU] == [] + PackAll(list, NN) + [];
    UnpackAll([], list, NN, [], j);
    ModAllReduced(list[j]);
  }

  lemma PuncturedRound(run: Run, i: nat)
    requires Matches(run) && i < T && run.tr.h[i] > 0
    ensures CheckRound(run.pk, run.sm, run.g0, run.tr.h, i) == Some(Some(run.tr.rounds[i].g))
  {
    hide RoundsOf, HonestKey, GoodRound, FromResponse, PublicCode, ReadResponse, LoadedPart, HoldsPath, AlphaOf, Count;
    hide Responses, PackAll, AreSegments, IsChallenge, Times, SegmentPos;
    hide MAX_PATH, PackedLen, MUNU, SIG_BYTES, PK_BYTES;
    var key := run.tr.h[i];
    assert KeyMatches(run, key);
    ReadBackResponse(run, i);
    ResponseIsAccepted(run.keys[key - 1], run.g0, run.tr.rounds[i]);
  }

  lemma UnpuncturedRound(run: Run, i: nat)
    requires Matches(run) && i < T && run.tr.h[i] == 0
    ensures CheckRound(run.pk, run.sm, run.g0, run.tr.h, i) == Some(Some(run.tr.rounds[i].g))
  {
    hide RoundsOf, RoundOf, HonestKeys, GoodRound, PublicCode, LoadedPart, HoldsPath, AlphaOf, Count, PathLeaf, Derived;
    hide Responses, PackAll, AreSegments, IsChallenge;
    LeafFromPath(run.sm, run.delta, run.tr.h, i);
    RoundAt(run.g0, Alpha(run.delta), Root(run.delta), T, i);
  }

  lemma {:induction false} RoundsAreAccepted(run: Run, count: nat)
    requires Matches(run) && count <= T
    ensures CheckRounds(run.pk, run.sm, run.g0, run.tr.h, count) == Some(Some(Commitments(run.tr.rounds[..count])))
    decreases count
  {
    hide KeysMatch, RoundsMatch, CheckRound, Commitment, IsChallenge;
    hide HoldsPath, AlphaOf, AreSegments, PackAll, Responses;
    var tr := run.tr;
    if count > 0 {
      var m := count - 1;
      RoundsAreAccepted(run, m);
      if tr.h[m] > 0 { PuncturedRound(run, m); } else { UnpuncturedRound(run, m); }
      assert tr.rounds[..count][..m] == tr.rounds[..m] && tr.rounds[..count][m] == tr.rounds[m];
    }
  }

  // ----- a run satisfies all this -----

  lemma KeyIsMatched(delta: seq<Octet>, run: Run, key: nat)
    requires KeyGen(delta) == Some(KeyPair(run.pk, run.sk)) && |delta| == SEC && SecretKeys(delta) == Some(run.keys)
    requires |run.pk| == PK_BYTES && |run.sk| == SK_BYTES && 1 <= key <= KEYS == |run.keys|
    ensures KeyMatches(run, key)
  {
    hide KeyGen, SecretKeys, PublicCode, LoadedPart;
    LoadedPublicCode(delta, key);
    LoadedSecretPart(delta, key);
  }

  lemma KeysAreMatched(delta: seq<Octet>, run: Run)
    requires KeyGen(delta) == Some(KeyPair(run.pk, run.sk)) && |delta| == SEC && SecretKeys(delta) == Some(run.keys)
    requires SysMatOf(SeedOfCode(delta), N, NN) == Some(run.g0)
    ensures KeysMatch(run)
  {
    hide KeyGen, SecretKeys, HonestKeys, SysMatOf, WellFormedKeys, KeyMatches;
    KeyBytes(delta);
    SecretKeysAreHonest(delta);
    forall key | 1 <= key <= KEYS ensures KeyMatches(run, key) {
      KeyIsMatched(delta, run, key);
    }
  }

  lemma SignatureIsMatched(sm: seq<Octet>, sk: seq<Octet>, delta: seq<Octet>, msg: seq<Octet>, run: Run)
    requires |sk| == SK_BYTES && IsSignature(sm, sk, delta, msg)
    requires run.sk == sk && run.delta == delta && run.sm == sm && Some(run.tr) == TranscriptOf(sk, delta, msg)
    ensures SignatureMatches(run)
    ensures |sm| >= SIG_BYTES && DigestOf(sm) == run.tr.digest && sm[SIG_BYTES..] == msg
  {
    hide TranscriptOf, PackAll, Responses, HoldsPath, AreSegments;
    ResponsesAreSegments(sk, run.tr, T);
    hide WellFormedTranscript;
  }

  /** Completeness: for every generated key pair, every message and all random bytes on which the retry
      loops exit, the signature is accepted and the message comes back unchanged. */
  lemma HonestSignatureIsAccepted(delta: seq<Octet>, delta': seq<Octet>, msg: seq<Octet>, sm: seq<Octet>)
    requires HonestRun(delta, delta', msg, sm)
    ensures |sm| >= SIG_BYTES && Open(KeyGen(delta).value.pk, sm) == Some(Some(msg))
  {
    hide KeyGen, TranscriptOf, CheckRounds, Commitments, SysMatOf, ParseHashOf, RoundsOf, GoodRound, IsSignature;
    hide KeysMatch, SignatureMatches, Bytes, SecretKeys, HonestKeys, WellFormedKeys;
    KeyBytes(delta);
    SecretKeysAreHonest(delta);
    var kp, g0 := KeyGen(delta).value, SysMatOf(SeedOfCode(delta), N, NN).value;
    SignatureIsTranscribed(sm, kp.sk, delta', msg);
    var tr := TranscriptOf(kp.sk, delta', msg).value;
    var run := Run(SecretKeys(delta).value, g0, kp.pk, kp.sk, delta', sm, tr);
    KeysAreMatched(delta, run);
    SignatureIsMatched(sm, kp.sk, delta', msg, run);
    TranscriptParts(kp.sk, delta', msg);
    RoundsAreAccepted(run, T);
    assert tr.rounds[..T] == tr.rounds;
  }

  lemma SignatureIsTranscribed(sm: seq<Octet>, sk: seq<Octet>, delta: seq<Octet>, msg: seq<Octet>)
    requires |sk| == SK_BYTES && IsSignature(sm, sk, delta, msg)
    ensures TranscriptOf(sk, delta, msg).Some?
  {
    hide TranscriptOf;
  }
}
