/** A signing run on the streams of its random bytes: the salt and the root seed, the round of every leaf, the
    digest of commitments and message, and the challenge it stands for. */
module SigningRuns {
  import opened Params
  import opened Loops
  import opened Matrix
  import opened Action
  import opened Bits
  import opened Shake
  import opened SeedTree
  import opened Traversal
  import opened Sampling
  import opened ParseHash
  import opened Challenges
  import opened Packing
  import opened Scheme
  import opened KeyRuns
  import opened RoundRuns
  import opened Binding

  /** Root seed and salt are consecutive parts of the stream of delta. */
  lemma RootAndSalt(delta: seq<Octet>)
    ensures Bytes(delta, 0, L + SALT) == Root(delta) + Alpha(delta)
  {
    hide Bytes;
    BytesConcat(delta, 0, L, SALT);
  }

  ghost function CodesOf(rs: seq<Round>): (gs: seq<Mat>)
    ensures |gs| == |rs|
  {
    seq(|rs|, i requires 0 <= i < |rs| => rs[i].g)
  }

  /** Round i grows from the seed of leaf i. */
  ghost predicate AllGrown(g0: Mat, alpha: seq<Octet>, rho: Seed, rs: seq<Round>) {
    forall i :: 0 <= i < |rs| ==> IsGrown(g0, alpha, i, Derived(alpha, rho, 0, H, i), rs[i])
  }

  lemma {:induction false} RoundsAreGrown(g0: Mat, alpha: seq<Octet>, rho: Seed, rs: seq<Round>)
    requires |rs| <= T
    ensures RoundsOf(g0, alpha, rho, |rs|) == Some(rs) <==> AllGrown(g0, alpha, rho, rs)
    decreases |rs|
  {
    hide RoundOf, IsGrown, Derived;
    if rs != [] {
      var m := |rs| - 1;
      RoundsAreGrown(g0, alpha, rho, rs[..m]);
      RoundIsGrown(g0, alpha, m, Derived(alpha, rho, 0, H, m), rs[m]);
      assert rs == rs[..m] + [rs[m]];
      if RoundsOf(g0, alpha, rho, |rs|) == Some(rs) {
        LengthOfRounds(g0, alpha, rho, m);
        assert RoundsOf(g0, alpha, rho, m).value == rs[..m];
      }
    }
  }

  lemma {:induction false} LengthOfRounds(g0: Mat, alpha: seq<Octet>, rho: Seed, count: nat)
    requires RoundsOf(g0, alpha, rho, count).Some?
    ensures |RoundsOf(g0, alpha, rho, count).value| == count
  {
    hide RoundOf, Derived;
    if count > 0 { LengthOfRounds(g0, alpha, rho, count - 1); }
  }

  /** The bytes hashed are those of the commitments. */
  lemma {:induction false} CommitmentsAreCodes(rs: seq<Round>)
    requires GoodRounds(rs) && AllCommitted(CodesOf(rs))
    ensures Commitments(rs) == HashedCodes(CodesOf(rs))
    decreases |rs|
  {
    hide Commitment, IsCommitted;
    if rs != [] {
      var m := |rs| - 1;
      assert CodesOf(rs)[..m] == CodesOf(rs[..m]);
      CommitmentsAreCodes(rs[..m]);
    }
  }

  lemma GoodIsCommitted(g0: Mat, rs: seq<Round>)
    requires forall i :: 0 <= i < |rs| ==> GoodRound(g0, rs[i])
    ensures AllCommitted(CodesOf(rs))
  {
    hide Singular, SystForm, Systematic, Pi;
    forall i | 0 <= i < |rs| ensures IsCommitted(CodesOf(rs)[i]) {
      assert GoodRound(g0, rs[i]);
      SystFormShape(Pi(rs[i].a, rs[i].b, g0), N, NN);
    }
  }

  /** What the random bytes delta and the message fix: base code, rounds, digest and challenge. */
  ghost predicate IsSigningRun(sk: seq<Octet>, delta: seq<Octet>, msg: seq<Octet>, tr: Transcript, g0: Mat, n: nat,
      draws: seq<Draw>)
    requires |sk| == SK_BYTES
  {
    && DrawsSystematicCode(sk[SEC..SEC + PUB], g0, n)
    && |tr.rounds| == T && AllGrown(g0, Bytes(delta, L, SALT), Bytes(delta, 0, L), tr.rounds)
    && AllCommitted(CodesOf(tr.rounds))
    && tr.digest == Bytes(HashedCodes(CodesOf(tr.rounds)) + msg, 0, DIGEST)
    && IsPlacement(tr.digest, draws, tr.h)
  }

  lemma RunOfTranscript(sk: seq<Octet>, delta: seq<Octet>, msg: seq<Octet>, tr: Transcript)
      returns (g0: Mat, n: nat, draws: seq<Draw>)
    requires |sk| == SK_BYTES && TranscriptOf(sk, delta, msg) == Some(tr)
    ensures IsSigningRun(sk, delta, msg, tr, g0, n, draws)
  {
    hide TranscriptOf, RoundsOf, ParseHashOf, SysMatOf, GoodRound, Commitments, Bytes, HashedCodes, AllCommitted;
    hide DrawsSystematicCode, IsPlacement, AllGrown, IsChallenge, GoodRounds;
    var seed := sk[SEC..SEC + PUB];
    TranscriptParts(sk, delta, msg);
    g0 := SysMatOf(seed, N, NN).value;
    BaseCodeIs(seed, g0);
    n :| DrawsSystematicCode(seed, g0, n);
    RoundsAreGrown(g0, Alpha(delta), Root(delta), tr.rounds);
    GoodIsCommitted(g0, tr.rounds);
    CommitmentsAreCodes(tr.rounds);
    ParseHashIsPlacement(tr.digest, tr.h);
    draws :| IsPlacement(tr.digest, draws, tr.h);
  }

  lemma TranscriptOfRun(sk: seq<Octet>, delta: seq<Octet>, msg: seq<Octet>, tr: Transcript, g0: Mat, n: nat,
      draws: seq<Draw>)
    requires |sk| == SK_BYTES && IsSigningRun(sk, delta, msg, tr, g0, n, draws)
    ensures TranscriptOf(sk, delta, msg) == Some(tr)
  {
    hide RoundsOf, ParseHashOf, SysMatOf, Commitments, Bytes, HashedCodes, AllCommitted, IsChallenge, GoodRounds;
    hide DrawsSystematicCode, IsPlacement, AllGrown;
    BaseCodeIs(sk[SEC..SEC + PUB], g0);
    RoundsAreGrown(g0, Alpha(delta), Root(delta), tr.rounds);
    TheseAreGood(g0, Alpha(delta), Root(delta), T);
    CommitmentsAreCodes(tr.rounds);
    ParseHashIsPlacement(tr.digest, tr.h);
  }

  /** The rounds, digest and challenge of crypto_sign are those of a run, and of no other. */
  lemma TranscriptIsRun(sk: seq<Octet>, delta: seq<Octet>, msg: seq<Octet>, tr: Transcript)
    requires |sk| == SK_BYTES
    ensures TranscriptOf(sk, delta, msg) == Some(tr) <==>
      exists g0, n: nat, draws :: IsSigningRun(sk, delta, msg, tr, g0, n, draws)
  {
    hide TranscriptOf, IsSigningRun;
    if TranscriptOf(sk, delta, msg) == Some(tr) {
      var g0, n, draws := RunOfTranscript(sk, delta, msg, tr);
    }
    if g0, n: nat, draws :| IsSigningRun(sk, delta, msg, tr, g0, n, draws) {
      TranscriptOfRun(sk, delta, msg, tr, g0, n, draws);
    }
  }

  /** Responses, path, digest, salt and message in their places. */
  ghost predicate IsLaidOut(sm: seq<Octet>, sk: seq<Octet>, delta: seq<Octet>, msg: seq<Octet>, tr: Transcript)
    requires |sk| == SK_BYTES
  {
    Positions();
    && WellFormedTranscript(tr) && |sm| == SIG_BYTES + |msg| && AreSegments(Responses(sk, tr, T), NN)
    && sm[..MUNU] == PackAll(Responses(sk, tr, T), NN)
    && HoldsPath(sm, delta, tr.h)
    && sm[DIGEST_POS..DIGEST_POS + DIGEST] == tr.digest
    && sm[SIG_BYTES - SALT..SIG_BYTES] == Bytes(delta, L, SALT)
    && sm[SIG_BYTES..] == msg
  }

  /** sm carries a signing run on sk, delta and msg. */
  ghost predicate IsSigned(sm: seq<Octet>, sk: seq<Octet>, delta: seq<Octet>, msg: seq<Octet>)
    requires |sk| == SK_BYTES
  {
    exists tr, g0, n: nat, draws :: IsSigningRun(sk, delta, msg, tr, g0, n, draws) && IsLaidOut(sm, sk, delta, msg, tr)
  }

  lemma SignatureIsSigned(sm: seq<Octet>, sk: seq<Octet>, delta: seq<Octet>, msg: seq<Octet>)
    requires |sk| == SK_BYTES
    ensures IsSignature(sm, sk, delta, msg) <==> IsSigned(sm, sk, delta, msg)
  {
    hide TranscriptOf, IsSigningRun, PackAll, Responses, HoldsPath, AreSegments, Bytes, SegmentPos, MAX_PATH;
    if IsSignature(sm, sk, delta, msg) {
      var tr := TranscriptOf(sk, delta, msg).value;
      ResponsesAreSegments(sk, tr, T);
      var g0, n, draws := RunOfTranscript(sk, delta, msg, tr);
      hide WellFormedTranscript;
      assert IsLaidOut(sm, sk, delta, msg, tr);
    }
    if tr, g0, n: nat, draws :| IsSigningRun(sk, delta, msg, tr, g0, n, draws) && IsLaidOut(sm, sk, delta, msg, tr) {
      TranscriptOfRun(sk, delta, msg, tr, g0, n, draws);
    }
  }
}
