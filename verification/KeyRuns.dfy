/** Key generation as a run: the seeds of the attempts, which of them succeed, and what a successful attempt
    yields, all in terms of byte streams, inverses and the equations that are solved. */
module KeyRuns {
  import opened Params
  import opened Loops
  import opened Matrix
  import opened Products
  import opened Action
  import opened Inverses
  import opened Solver
  import opened Bits
  import opened Shake
  import opened Sampling
  import opened Draws
  import opened Packing
  import opened PublicKey
  import opened Scheme

  // ----- one attempt -----

  /** The key that T and A[m-1][m-1] give: (A, B_inv) is the only solution for T G_0, both have inverses, and
      the public code is the systematic basis of pi(A, B, G_0). */
  ghost predicate MakesWith(g0: Mat, t: Mat, amm: int, key: Key, a: Mat, b: Mat) {
    var g0p := Times(N, t, g0, NN);
    && !LeftSingular(Word(g0p, 1), N - 1) && !LeftSingular(Word(g0p, 1), N)
    && IsOnlySolution(a, key.bInv, Word(g0p, 0), Word(g0p, 1), amm)
    && IsInverse(N, a, key.aInv) && IsInverse(N, key.bInv, b)
    && SystematicBasis(Pi(a, b, g0), key.g, N, NN)
  }

  ghost predicate Makes(g0: Mat, t: Mat, amm: int, key: Key) {
    exists a, b :: MakesWith(g0, t, amm, key, a, b)
  }

  lemma PiIsCode(a: Mat, b: Mat, g: Mat)
    ensures N <= NN && |Pi(a, b, g)| == N * NN && Reduced(Pi(a, b, g))
  {
    Shape();
    PiReduced(a, b, g);
  }

  lemma OnlyOne(p0: Mat, p1: Mat, amm: int, a: Mat, b: Mat, a': Mat, b': Mat)
    requires IsOnlySolution(a, b, p0, p1, amm) && IsOnlySolution(a', b', p0, p1, amm)
    ensures a == a' && b == b'
  {
    hide IsSolution;
  }

  lemma SolveOfIs(g0p: Mat, amm: int, a: Mat, b: Mat)
    requires |g0p| == N * NN
    ensures SolveOf(g0p, amm) == Some((a, b)) <==>
      !LeftSingular(Word(g0p, 1), N - 1) && !LeftSingular(Word(g0p, 1), N)
      && IsOnlySolution(a, b, Word(g0p, 0), Word(g0p, 1), amm)
  {
    hide LeftSingular, IsOnlySolution;
    var p0, p1 := Word(g0p, 0), Word(g0p, 1);
    if !LeftSingular(p1, N - 1) && !LeftSingular(p1, N) && IsOnlySolution(a, b, p0, p1, amm) {
      var r := SolveOf(g0p, amm).value;
      OnlyOne(p0, p1, amm, a, b, r.0, r.1);
    }
  }

  lemma MakeKeyIs(g0: Mat, t: Mat, amm: int, key: Key)
    ensures MakeKey(g0, t, amm) == Some(key) <==> Makes(g0, t, amm, key)
  {
    hide Times, Pi, LeftSingular, IsOnlySolution, SolveOf, InverseOf, SystForm, SystematicBasis, IsInverse;
    var g0p := Times(N, t, g0, NN);
    if MakeKey(g0, t, amm) == Some(key) {
      var (a, bInv) := SolveOf(g0p, amm).value;
      SolveOfIs(g0p, amm, a, bInv);
      var b := InverseOf(N, bInv).value;
      PiIsCode(a, b, g0);
      SystFormIsSystematicBasis(Pi(a, b, g0), key.g, N, NN);
      assert MakesWith(g0, t, amm, key, a, b);
    }
    if a, b :| MakesWith(g0, t, amm, key, a, b) {
      SolveOfIs(g0p, amm, a, key.bInv);
      InverseIs(N, key.bInv, b);
      InverseIs(N, a, key.aInv);
      PiIsCode(a, b, g0);
      SystFormIsSystematicBasis(Pi(a, b, g0), key.g, N, NN);
    }
  }

  /** T and A[m-1][m-1] are drawn from two seeds that the seed of the attempt expands to. */
  ghost predicate DrawsAttempt(z: seq<Octet>, t: Mat, amm: int) {
    && (exists l: nat, n: nat :: DrawsInvertible(Bytes(z, SEC, SEC), N, N, t, l, n))
    && exists q: nat :: IsFirst(Bytes(z, 0, SEC), 0, q) && amm == Pair(Bytes(z, 0, SEC), 2 * q)
  }

  ghost predicate Succeeds(g0: Mat, z: seq<Octet>, key: Key) {
    exists t, amm :: DrawsAttempt(z, t, amm) && Makes(g0, t, amm, key)
  }

  ghost predicate Fails(g0: Mat, z: seq<Octet>) {
    exists t, amm :: DrawsAttempt(z, t, amm) && forall key :: !Makes(g0, t, amm, key)
  }

  /** The seed of the next attempt. */
  ghost function NextSeed(z: seq<Octet>): seq<Octet> { Bytes(z, SEC + SEC, SEC) }

  lemma DrawsAttemptIs(z: seq<Octet>, t: Mat, amm: int)
    ensures DrawsAttempt(z, t, amm) <==>
      RndInvOf(Bytes(z, SEC, SEC), N, N) == Some(t)
      && RndGfOf(Bytes(z, 0, SEC), 0).Some? && RndGfOf(Bytes(z, 0, SEC), 0).value.value == amm
  {
    hide Bytes, RndInvOf, RndGfOf, DrawsInvertible, IsFirst, Pair;
    RndInvIsFirst(Bytes(z, SEC, SEC), N, N, t);
    var seed := Bytes(z, 0, SEC);
    if RndGfOf(seed, 0).Some? { RndGfIsFirst(seed, 0, RndGfOf(seed, 0).value); }
    if q: nat :| IsFirst(seed, 0, q) && amm == Pair(seed, 2 * q) {
      RndGfIsFirst(seed, 0, Drawn(Pair(seed, 0 + 2 * q), 0 + 2 * q + 2));
    }
  }

  lemma NoKeyMade(g0: Mat, t: Mat, amm: int)
    ensures MakeKey(g0, t, amm) == None <==> forall key :: !Makes(g0, t, amm, key)
  {
    hide MakeKey, Makes;
    if MakeKey(g0, t, amm).Some? { MakeKeyIs(g0, t, amm, MakeKey(g0, t, amm).value); }
    if key :| Makes(g0, t, amm, key) { MakeKeyIs(g0, t, amm, key); }
  }

  /** The loop body is an attempt, and hands on the third part of the stream of its seed either way. */
  lemma AttemptIs(g0: Mat, z: seq<Octet>)
    ensures TryKeyFrom(g0)(z).Exit? ==>
      TryKeyFrom(g0)(z).result.sigma == NextSeed(z) && Succeeds(g0, z, TryKeyFrom(g0)(z).result.key)
    ensures TryKeyFrom(g0)(z).Again? ==> TryKeyFrom(g0)(z).state == NextSeed(z) && Fails(g0, z)
    ensures Fails(g0, z) ==> TryKeyFrom(g0)(z).Again?
    ensures forall key :: Succeeds(g0, z, key) ==> TryKeyFrom(g0)(z) == Exit(MadeKey(key, NextSeed(z)))
  {
    hide Bytes, RndInvOf, RndGfOf, DrawsAttempt, Makes, MakeKey;
    forall t, amm
      ensures DrawsAttempt(z, t, amm) <==>
        RndInvOf(Bytes(z, SEC, SEC), N, N) == Some(t)
        && RndGfOf(Bytes(z, 0, SEC), 0).Some? && RndGfOf(Bytes(z, 0, SEC), 0).value.value == amm
      ensures MakeKey(g0, t, amm) == None <==> forall key :: !Makes(g0, t, amm, key)
    {
      DrawsAttemptIs(z, t, amm);
      NoKeyMade(g0, t, amm);
    }
    forall t, amm, k ensures MakeKey(g0, t, amm) == Some(k) <==> Makes(g0, t, amm, k) {
      MakeKeyIs(g0, t, amm, k);
    }
  }

  // ----- one key -----

  /** The seed of attempt j of a run that starts from z. */
  ghost function SeedAfter(z: seq<Octet>, j: nat): seq<Octet> {
    if j == 0 then z else NextSeed(SeedAfter(z, j - 1))
  }

  /** From attempt k on, attempt j is the first that succeeds. */
  ghost predicate IsNextSuccess(g0: Mat, z: seq<Octet>, k: nat, j: nat, key: Key) {
    && k <= j && Succeeds(g0, SeedAfter(z, j), key)
    && forall i :: k <= i < j ==> Fails(g0, SeedAfter(z, i))
  }

  lemma {:induction false} SuccessOfKey(g0: Mat, z: seq<Octet>, k: nat) returns (j: nat)
    requires KeyFrom(g0, SeedAfter(z, k)).Some?
    ensures IsNextSuccess(g0, z, k, j, KeyFrom(g0, SeedAfter(z, k)).value.key)
    ensures KeyFrom(g0, SeedAfter(z, k)).value.sigma == SeedAfter(z, j + 1)
    decreases Passes(TryKeyFrom(g0), SeedAfter(z, k))
  {
    hide Loop, Passes, TryKeyFrom, Succeeds, Fails, NextSeed;
    var seed := SeedAfter(z, k);
    AttemptIs(g0, seed);
    LoopUnfold(TryKeyFrom(g0), seed);
    if TryKeyFrom(g0)(seed).Again? {
      PassesDecrease(TryKeyFrom(g0), seed);
      j := SuccessOfKey(g0, z, k + 1);
    } else {
      j := k;
    }
  }

  lemma {:induction false} KeyOfSuccess(g0: Mat, z: seq<Octet>, k: nat, j: nat, key: Key)
    requires IsNextSuccess(g0, z, k, j, key)
    ensures KeyFrom(g0, SeedAfter(z, k)) == Some(MadeKey(key, SeedAfter(z, j + 1)))
    decreases j - k
  {
    hide Loop, TryKeyFrom, Succeeds, Fails, NextSeed;
    var seed := SeedAfter(z, k);
    AttemptIs(g0, seed);
    LoopUnfold(TryKeyFrom(g0), seed);
    if k < j { KeyOfSuccess(g0, z, k + 1, j, key); }
  }

  // ----- all keys -----

  /** Key i is made by attempt idx[i], the first to succeed behind attempt idx[i - 1]. */
  ghost predicate IsKeyStep(g0: Mat, z: seq<Octet>, keys: seq<Key>, idx: seq<nat>, i: nat)
    requires i < |keys| == |idx|
  {
    IsNextSuccess(g0, z, if i == 0 then 0 else idx[i - 1] + 1, idx[i], keys[i])
  }

  ghost predicate IsKeyRun(g0: Mat, z: seq<Octet>, keys: seq<Key>, idx: seq<nat>) {
    |idx| == |keys| && forall i :: 0 <= i < |keys| ==> IsKeyStep(g0, z, keys, idx, i)
  }

  /** The attempt behind a run. */
  ghost function Behind(idx: seq<nat>): nat {
    if idx == [] then 0 else idx[|idx| - 1] + 1
  }

  lemma KeyRunAppend(g0: Mat, z: seq<Octet>, keys: seq<Key>, idx: seq<nat>, key: Key, j: nat)
    ensures |idx| == |keys| && IsKeyRun(g0, z, keys + [key], idx + [j]) <==>
      IsKeyRun(g0, z, keys, idx) && IsNextSuccess(g0, z, Behind(idx), j, key)
  {
    hide IsNextSuccess;
    var keys', idx' := keys + [key], idx + [j];
    if |idx| == |keys| {
      forall i | 0 <= i < |keys| ensures IsKeyStep(g0, z, keys', idx', i) == IsKeyStep(g0, z, keys, idx, i) {
        assert keys'[i] == keys[i] && idx'[i] == idx[i] && (i > 0 ==> idx'[i - 1] == idx[i - 1]);
      }
      assert IsKeyStep(g0, z, keys', idx', |keys|) == IsNextSuccess(g0, z, Behind(idx), j, key);
      hide IsKeyStep;
      assert IsKeyRun(g0, z, keys', idx') ==> forall i :: 0 <= i < |keys| ==> IsKeyStep(g0, z, keys', idx', i);
    }
  }

  lemma {:induction false} RunOfKeys(g0: Mat, z: seq<Octet>, count: nat) returns (idx: seq<nat>)
    requires KeysFrom(g0, z, count).Some?
    ensures |KeysFrom(g0, z, count).value.0| == count && IsKeyRun(g0, z, KeysFrom(g0, z, count).value.0, idx)
    ensures KeysFrom(g0, z, count).value.1 == SeedAfter(z, Behind(idx))
  {
    hide KeyFrom, IsNextSuccess;
    if count == 0 {
      idx := [];
    } else {
      var before := RunOfKeys(g0, z, count - 1);
      var (keys, s) := KeysFrom(g0, z, count - 1).value;
      var j := SuccessOfKey(g0, z, Behind(before));
      KeyRunAppend(g0, z, keys, before, KeyFrom(g0, s).value.key, j);
      idx := before + [j];
    }
  }

  lemma {:induction false} KeysOfRun(g0: Mat, z: seq<Octet>, keys: seq<Key>, idx: seq<nat>)
    requires IsKeyRun(g0, z, keys, idx)
    ensures KeysFrom(g0, z, |keys|) == Some((keys, SeedAfter(z, Behind(idx))))
    decreases |keys|
  {
    hide KeyFrom, IsNextSuccess, IsKeyRun;
    if keys != [] {
      var m := |keys| - 1;
      LengthOfRun(g0, z, keys, idx);
      assert keys == keys[..m] + [keys[m]] && idx == idx[..m] + [idx[m]];
      KeyRunAppend(g0, z, keys[..m], idx[..m], keys[m], idx[m]);
      KeysOfRun(g0, z, keys[..m], idx[..m]);
      KeyOfSuccess(g0, z, Behind(idx[..m]), idx[m], keys[m]);
    } else {
      LengthOfRun(g0, z, keys, idx);
    }
  }

  lemma LengthOfRun(g0: Mat, z: seq<Octet>, keys: seq<Key>, idx: seq<nat>)
    requires IsKeyRun(g0, z, keys, idx)
    ensures |idx| == |keys|
  {
  }

  /** The successful attempts come one after the other, each from a seed of its own. */
  lemma RunIncreases(g0: Mat, z: seq<Octet>, keys: seq<Key>, idx: seq<nat>, i: nat)
    requires IsKeyRun(g0, z, keys, idx) && i + 1 < |keys|
    ensures idx[i] < idx[i + 1]
  {
    hide Succeeds, Fails;
    assert IsKeyStep(g0, z, keys, idx, i + 1);
  }

  /** The keys that the random bytes delta lead to. */
  ghost predicate IsKeyGeneration(delta: seq<Octet>, keys: seq<Key>, g0: Mat, n: nat, idx: seq<nat>) {
    && DrawsSystematicCode(Bytes(delta, 0, PUB), g0, n)
    && |keys| == KEYS && IsKeyRun(g0, Bytes(delta, PUB, SEC), keys, idx)
  }

  /** G_0 is read off the first n pairs of the stream of its seed. */
  ghost predicate DrawsSystematicCode(seed: seq<Octet>, g0: Mat, n: nat) {
    Shape();
    DrawsSystematic(seed, N, NN, g0, n)
  }

  lemma BaseCodeIs(seed: seq<Octet>, g0: Mat)
    ensures N <= NN
    ensures SysMatOf(seed, N, NN) == Some(g0) <==> exists n: nat :: DrawsSystematicCode(seed, g0, n)
  {
    Shape();
    hide DrawsSystematic, SysMatOf;
    SysMatIsAccepted(seed, N, NN, g0);
    if n: nat :| DrawsSystematic(seed, N, NN, g0, n) { assert DrawsSystematicCode(seed, g0, n); }
    if n: nat :| DrawsSystematicCode(seed, g0, n) { assert DrawsSystematic(seed, N, NN, g0, n); }
  }

  /** Key generation makes key i from the seed of attempt idx[i]: seed after seed, no attempt twice. */
  lemma SecretKeysAreRun(delta: seq<Octet>, keys: seq<Key>)
    ensures SecretKeys(delta) == Some(keys) <==> exists g0, n: nat, idx :: IsKeyGeneration(delta, keys, g0, n, idx)
  {
    hide SysMatOf, KeysFrom, IsKeyRun, DrawsSystematicCode, Bytes;
    if SecretKeys(delta) == Some(keys) {
      var g0 := SysMatOf(SeedOfCode(delta), N, NN).value;
      BaseCodeIs(SeedOfCode(delta), g0);
      var n: nat :| DrawsSystematicCode(SeedOfCode(delta), g0, n);
      var idx := RunOfKeys(g0, Bytes(delta, PUB, SEC), KEYS);
      assert IsKeyGeneration(delta, keys, g0, n, idx);
    }
    if g0, n: nat, idx :| IsKeyGeneration(delta, keys, g0, n, idx) {
      BaseCodeIs(SeedOfCode(delta), g0);
      KeysOfRun(g0, Bytes(delta, PUB, SEC), keys, idx);
    }
  }

  /** The seeds of the base code and of the first attempt are consecutive parts of the stream of delta. */
  lemma SeedsOfDelta(delta: seq<Octet>)
    ensures Bytes(delta, 0, PUB + SEC) == SeedOfCode(delta) + Bytes(delta, PUB, SEC)
  {
    hide Bytes;
    BytesConcat(delta, 0, PUB, SEC);
  }

  /** What is made of the keys: the seed of G_0 and the sent parts, and delta, the seed and the secret parts. */
  ghost predicate IsKeyPair(delta: seq<Octet>, keys: seq<Key>, pk: seq<Octet>, sk: seq<Octet>) {
    && AreSegments(SentParts(keys), SENT) && AreSegments(SecretParts(keys), NN)
    && pk == Bytes(delta, 0, PUB) + PackAll(SentParts(keys), SENT)
    && sk == delta + Bytes(delta, 0, PUB) + PackAll(SecretParts(keys), NN)
  }

  /** The key pair belongs to a run of attempts on the stream of delta. */
  ghost predicate IsGenerated(delta: seq<Octet>, pk: seq<Octet>, sk: seq<Octet>) {
    exists keys, g0, n: nat, idx :: IsKeyGeneration(delta, keys, g0, n, idx) && IsKeyPair(delta, keys, pk, sk)
  }

  /** crypto_sign_keypair as a run. */
  lemma KeyGenIsRun(delta: seq<Octet>, pk: seq<Octet>, sk: seq<Octet>)
    ensures KeyGen(delta) == Some(KeyPair(pk, sk)) <==> IsGenerated(delta, pk, sk)
  {
    hide SecretKeys, IsKeyGeneration, Bytes, PackAll, AreSegments, SentParts, SecretParts, WellFormedKeys, HonestKeys;
    hide SysMatOf;
    if KeyGen(delta) == Some(KeyPair(pk, sk)) {
      var keys := SecretKeys(delta).value;
      SecretKeysAreHonest(delta);
      KeyPartsAreSegments(keys);
      SecretKeysAreRun(delta, keys);
      var g0, n: nat, idx :| IsKeyGeneration(delta, keys, g0, n, idx);
      assert IsKeyPair(delta, keys, pk, sk);
    }
    if keys, g0, n: nat, idx :| IsKeyGeneration(delta, keys, g0, n, idx) && IsKeyPair(delta, keys, pk, sk) {
      SecretKeysAreRun(delta, keys);
      SecretKeysAreHonest(delta);
      KeyPartsAreSegments(keys);
    }
  }
}
