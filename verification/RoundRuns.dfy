/** A round of signing or verification as a run of attempts: the seeds of the attempts, the matrices drawn,
    and the first attempt whose code has a systematic basis. */
module RoundRuns {
  import opened Params
  import opened Loops
  import opened Matrix
  import opened Action
  import opened Inverses
  import opened Bits
  import opened Shake
  import opened SeedTree
  import opened Traversal
  import opened Sampling
  import opened Draws
  import opened Scheme
  import opened KeyRuns

  /** The seed of attempt j of round i. */
  ghost function RoundSeed(alpha: seq<Octet>, i: nat, seed: Seed, j: nat): Seed {
    if j == 0 then seed else Bytes(HashInput(alpha, RoundSeed(alpha, i, seed, j - 1), i), PUB + PUB, L)
  }

  /** A and B are drawn from the first two parts of the stream of the input of an attempt. */
  ghost predicate DrawsPair(input: seq<Octet>, a: Mat, b: Mat) {
    && (exists l: nat, n: nat :: DrawsInvertible(Bytes(input, 0, PUB), N, N, a, l, n))
    && exists l: nat, n: nat :: DrawsInvertible(Bytes(input, PUB, PUB), N, N, b, l, n)
  }

  /** pi(A, B, G_0) has the systematic basis g. */
  ghost predicate Grows(g0: Mat, r: Round) {
    SystematicBasis(Pi(r.a, r.b, g0), r.g, N, NN)
  }

  ghost predicate AttemptGrows(g0: Mat, input: seq<Octet>, r: Round) {
    DrawsPair(input, r.a, r.b) && Grows(g0, r)
  }

  ghost predicate AttemptFails(g0: Mat, input: seq<Octet>) {
    exists a, b :: DrawsPair(input, a, b) && forall g :: !Grows(g0, Round(a, b, g))
  }

  /** Attempt j, counted from attempt k, is the first that succeeds. */
  ghost predicate GrowsAt(g0: Mat, alpha: seq<Octet>, i: nat, seed: Seed, k: nat, j: nat, r: Round) {
    && k <= j && AttemptGrows(g0, HashInput(alpha, RoundSeed(alpha, i, seed, j), i), r)
    && forall u :: k <= u < j ==> AttemptFails(g0, HashInput(alpha, RoundSeed(alpha, i, seed, u), i))
  }

  /** The round that grows from the seed of leaf i. */
  ghost predicate IsGrown(g0: Mat, alpha: seq<Octet>, i: nat, seed: Seed, r: Round) {
    exists j: nat :: GrowsAt(g0, alpha, i, seed, 0, j, r)
  }

  lemma DrawsPairIs(input: seq<Octet>, a: Mat, b: Mat)
    ensures DrawsPair(input, a, b) <==>
      RndInvOf(Bytes(input, 0, PUB), N, N) == Some(a) && RndInvOf(Bytes(input, PUB, PUB), N, N) == Some(b)
  {
    hide Bytes, RndInvOf, DrawsInvertible;
    RndInvIsFirst(Bytes(input, 0, PUB), N, N, a);
    RndInvIsFirst(Bytes(input, PUB, PUB), N, N, b);
  }

  lemma GrowsIs(g0: Mat, r: Round)
    ensures SystForm(Pi(r.a, r.b, g0), N, NN) == Some(r.g) <==> Grows(g0, r)
  {
    hide Pi, SystForm, SystematicBasis;
    PiIsCode(r.a, r.b, g0);
    SystFormIsSystematicBasis(Pi(r.a, r.b, g0), r.g, N, NN);
  }

  lemma NothingGrows(g0: Mat, a: Mat, b: Mat)
    ensures SystForm(Pi(a, b, g0), N, NN) == None <==> forall g :: !Grows(g0, Round(a, b, g))
  {
    hide Pi, SystForm, Grows;
    if SystForm(Pi(a, b, g0), N, NN).Some? { GrowsIs(g0, Round(a, b, SystForm(Pi(a, b, g0), N, NN).value)); }
    if g :| Grows(g0, Round(a, b, g)) { GrowsIs(g0, Round(a, b, g)); }
  }

  lemma RoundAttemptIs(g0: Mat, alpha: seq<Octet>, i: nat, seed: Seed)
    ensures var input, step := HashInput(alpha, seed, i), TryRound(g0, alpha, i)(seed);
      && (step.Exit? ==> AttemptGrows(g0, input, step.result))
      && (step.Again? ==> step.state == Bytes(input, PUB + PUB, L) && AttemptFails(g0, input))
      && (AttemptFails(g0, input) ==> step.Again?)
      && forall r :: AttemptGrows(g0, input, r) ==> step == Exit(r)
  {
    hide Bytes, RndInvOf, DrawsPair, Grows, Pi, SystForm, HashInput;
    var input := HashInput(alpha, seed, i);
    forall a, b
      ensures DrawsPair(input, a, b) <==>
        RndInvOf(Bytes(input, 0, PUB), N, N) == Some(a) && RndInvOf(Bytes(input, PUB, PUB), N, N) == Some(b)
      ensures SystForm(Pi(a, b, g0), N, NN) == None <==> forall g :: !Grows(g0, Round(a, b, g))
    {
      DrawsPairIs(input, a, b);
      NothingGrows(g0, a, b);
    }
    forall r: Round ensures SystForm(Pi(r.a, r.b, g0), N, NN) == Some(r.g) <==> Grows(g0, r) {
      GrowsIs(g0, r);
    }
  }

  lemma {:induction false} GrownOfLoop(g0: Mat, alpha: seq<Octet>, i: nat, seed: Seed, k: nat) returns (j: nat)
    requires RoundOf(g0, alpha, i, RoundSeed(alpha, i, seed, k)).Some?
    ensures GrowsAt(g0, alpha, i, seed, k, j, RoundOf(g0, alpha, i, RoundSeed(alpha, i, seed, k)).value)
    decreases Passes(TryRound(g0, alpha, i), RoundSeed(alpha, i, seed, k))
  {
    hide Loop, Passes, TryRound, AttemptGrows, AttemptFails, HashInput, Bytes;
    var s := RoundSeed(alpha, i, seed, k);
    RoundAttemptIs(g0, alpha, i, s);
    LoopUnfold(TryRound(g0, alpha, i), s);
    if TryRound(g0, alpha, i)(s).Again? {
      PassesDecrease(TryRound(g0, alpha, i), s);
      j := GrownOfLoop(g0, alpha, i, seed, k + 1);
    } else {
      j := k;
    }
  }

  lemma {:induction false} LoopOfGrown(g0: Mat, alpha: seq<Octet>, i: nat, seed: Seed, k: nat, j: nat, r: Round)
    requires GrowsAt(g0, alpha, i, seed, k, j, r)
    ensures RoundOf(g0, alpha, i, RoundSeed(alpha, i, seed, k)) == Some(r)
    decreases j - k
  {
    hide Loop, TryRound, AttemptGrows, AttemptFails, HashInput, Bytes;
    var s := RoundSeed(alpha, i, seed, k);
    RoundAttemptIs(g0, alpha, i, s);
    LoopUnfold(TryRound(g0, alpha, i), s);
    if k < j { LoopOfGrown(g0, alpha, i, seed, k + 1, j, r); }
  }

  /** The retry loop of a round returns the matrices of the first attempt whose code has a systematic basis. */
  lemma RoundIsGrown(g0: Mat, alpha: seq<Octet>, i: nat, seed: Seed, r: Round)
    ensures RoundOf(g0, alpha, i, seed) == Some(r) <==> IsGrown(g0, alpha, i, seed, r)
  {
    hide RoundOf, GrowsAt;
    assert RoundSeed(alpha, i, seed, 0) == seed;
    if RoundOf(g0, alpha, i, seed) == Some(r) {
      var j := GrownOfLoop(g0, alpha, i, seed, 0);
    }
    if j: nat :| GrowsAt(g0, alpha, i, seed, 0, j, r) {
      LoopOfGrown(g0, alpha, i, seed, 0, j, r);
    }
  }
}
