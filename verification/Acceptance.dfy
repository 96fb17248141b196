/** When verification accepts, said without its code: which commitments the responses and the path stand for,
    and that they hash to the digest.  Two accepted signatures with one digest agree, or SHAKE256 collides. */
module Acceptance {
  import opened Params
  import opened Loops
  import opened Matrix
  import opened Products
  import opened Action
  import opened Inverses
  import opened Bits
  import opened Shake
  import opened SeedTree
  import opened PathNodes
  import opened Traversal
  import opened Sampling
  import opened ParseHash
  import opened Challenges
  import opened Packing
  import opened Scheme
  import opened KeyRuns
  import opened RoundRuns
  import opened Binding

  // ----- one round -----

  /** Both matrices of a response have a two-sided inverse, and g is the systematic basis of
      pi(mu, nu, code). */
  ghost predicate Answers(mu: Mat, nu: Mat, code: Mat, g: Mat) {
    && (exists x :: IsInverse(N, mu, x)) && (exists y :: IsInverse(N, nu, y))
    && SystematicBasis(Pi(mu, nu, code), g, N, NN)
  }

  lemma FromResponseIs(mu: Mat, nu: Mat, code: Mat, g: Mat)
    requires IsMatrix(mu, NN) && IsMatrix(nu, NN)
    ensures FromResponse(mu, nu, code) == Some(g) <==> Answers(mu, nu, code, g)
  {
    hide Pi, Singular, SystForm, SystematicBasis, IsInverse;
    InverseExists(N, mu);
    InverseExists(N, nu);
    PiIsCode(mu, nu, code);
    SystFormIsSystematicBasis(Pi(mu, nu, code), g, N, NN);
  }

  lemma ResponseIsMatrix(sm: seq<Octet>, j: nat)
    requires |sm| >= MUNU
    ensures IsMatrix(ReadResponse(sm, j), NN)
  {
    hide Unpack, SegmentPos;
  }

  /** g is the commitment that signature sm stands for in round i: what the response makes of the public code
      named by the challenge, or what grows from the seed that the path gives for leaf i. */
  ghost predicate StandsFor(pk: seq<Octet>, sm: seq<Octet>, g0: Mat, h: Challenge, i: nat, g: Mat)
    requires |pk| == PK_BYTES && |sm| >= SIG_BYTES && i < |h| && h[i] <= KEYS
  {
    Positions();
    var c := Count(h, 0, i);
    if h[i] > 0 then Answers(ReadResponse(sm, 2 * c), ReadResponse(sm, 2 * c + 1), PublicCode(pk, h[i]), g)
    else exists r: Round :: r.g == g && IsGrown(g0, AlphaOf(sm), i, PathLeaf(h, sm, MUNU, AlphaOf(sm), i), r)
  }

  lemma CheckRoundIs(pk: seq<Octet>, sm: seq<Octet>, g0: Mat, h: Challenge, i: nat, g: Mat)
    requires |pk| == PK_BYTES && |sm| >= SIG_BYTES && i < |h| && h[i] <= KEYS
    ensures CheckRound(pk, sm, g0, h, i) == Some(Some(g)) <==> StandsFor(pk, sm, g0, h, i, g)
  {
    Positions();
    hide SegmentPos, MAX_PATH, MUNU, SIG_BYTES, PK_BYTES, PublicCode, ReadResponse, FromResponse, Answers;
    hide RoundOf, IsGrown, PathLeaf, Count, AlphaOf;
    if h[i] > 0 {
      var c := Count(h, 0, i);
      var mu, nu := ReadResponse(sm, 2 * c), ReadResponse(sm, 2 * c + 1);
      ResponseIsMatrix(sm, 2 * c);
      ResponseIsMatrix(sm, 2 * c + 1);
      FromResponseIs(mu, nu, PublicCode(pk, h[i]), g);
    } else {
      var alpha, seed := AlphaOf(sm), PathLeaf(h, sm, MUNU, AlphaOf(sm), i);
      forall r ensures RoundOf(g0, alpha, i, seed) == Some(r) <==> IsGrown(g0, alpha, i, seed, r) {
        RoundIsGrown(g0, alpha, i, seed, r);
      }
    }
  }

  lemma BasisIsCommitted(m: Mat, g: Mat)
    requires SystematicBasis(m, g, N, NN)
    ensures IsCommitted(g)
  {
    hide Times, IsInverse, Systematic;
    var l :| Invertible(N, l) && g == Times(N, l, m, NN);
    TimesReduced(N, l, m, NN);
  }

  lemma StandsForCommitted(pk: seq<Octet>, sm: seq<Octet>, g0: Mat, h: Challenge, i: nat, g: Mat)
    requires |pk| == PK_BYTES && |sm| >= SIG_BYTES && i < |h| && h[i] <= KEYS && StandsFor(pk, sm, g0, h, i, g)
    ensures IsCommitted(g)
  {
    hide SystematicBasis, IsCommitted, DrawsPair, Pi, AttemptFails, IsInverse;
    Positions();
    if h[i] > 0 {
      var c := Count(h, 0, i);
      BasisIsCommitted(Pi(ReadResponse(sm, 2 * c), ReadResponse(sm, 2 * c + 1), PublicCode(pk, h[i])), g);
    } else {
      var r: Round :| r.g == g && IsGrown(g0, AlphaOf(sm), i, PathLeaf(h, sm, MUNU, AlphaOf(sm), i), r);
      BasisIsCommitted(Pi(r.a, r.b, g0), g);
    }
  }

  // ----- all rounds -----

  /** gs are the commitments of the first rounds. */
  ghost predicate AllStandFor(pk: seq<Octet>, sm: seq<Octet>, g0: Mat, h: Challenge, gs: seq<Mat>)
    requires |pk| == PK_BYTES && |sm| >= SIG_BYTES && |gs| <= |h|
    requires forall i :: 0 <= i < |gs| ==> h[i] <= KEYS
  {
    forall i :: 0 <= i < |gs| ==> StandsFor(pk, sm, g0, h, i, gs[i])
  }

  lemma AllStandForCommitted(pk: seq<Octet>, sm: seq<Octet>, g0: Mat, h: Challenge, gs: seq<Mat>)
    requires |pk| == PK_BYTES && |sm| >= SIG_BYTES && |gs| <= |h|
    requires forall i :: 0 <= i < |gs| ==> h[i] <= KEYS
    requires AllStandFor(pk, sm, g0, h, gs)
    ensures AllCommitted(gs)
  {
    hide StandsFor, IsCommitted, MUNU, SIG_BYTES, PK_BYTES;
    forall i | 0 <= i < |gs| ensures IsCommitted(gs[i]) {
      StandsForCommitted(pk, sm, g0, h, i, gs[i]);
    }
  }

  lemma {:induction false} CodesOfChecks(pk: seq<Octet>, sm: seq<Octet>, g0: Mat, h: Challenge, count: nat)
      returns (gs: seq<Mat>)
    requires |pk| == PK_BYTES && |sm| >= SIG_BYTES && count <= |h| && forall i :: 0 <= i < count ==> h[i] <= KEYS
    requires CheckRounds(pk, sm, g0, h, count).Some? && CheckRounds(pk, sm, g0, h, count).value.Some?
    ensures |gs| == count && AllStandFor(pk, sm, g0, h, gs) && AllCommitted(gs)
    ensures CheckRounds(pk, sm, g0, h, count) == Some(Some(HashedCodes(gs)))
    decreases count
  {
    hide CheckRound, StandsFor, Commitment, IsCommitted, MUNU, SIG_BYTES, PK_BYTES;
    if count == 0 {
      gs := [];
    } else {
      var m := count - 1;
      var before := CodesOfChecks(pk, sm, g0, h, m);
      var g := CheckRound(pk, sm, g0, h, m).value.value;
      CheckRoundIs(pk, sm, g0, h, m, g);
      gs := before + [g];
      assert gs[..m] == before && gs[m] == g;
      AllStandForCommitted(pk, sm, g0, h, gs);
    }
  }

  lemma {:induction false} ChecksOfCodes(pk: seq<Octet>, sm: seq<Octet>, g0: Mat, h: Challenge, gs: seq<Mat>)
    requires |pk| == PK_BYTES && |sm| >= SIG_BYTES && |gs| <= |h| && forall i :: 0 <= i < |gs| ==> h[i] <= KEYS
    requires AllStandFor(pk, sm, g0, h, gs)
    ensures AllCommitted(gs) && CheckRounds(pk, sm, g0, h, |gs|) == Some(Some(HashedCodes(gs)))
    decreases |gs|
  {
    hide CheckRound, StandsFor, Commitment, IsCommitted, MUNU, SIG_BYTES, PK_BYTES;
    AllStandForCommitted(pk, sm, g0, h, gs);
    if gs != [] {
      var m := |gs| - 1;
      ChecksOfCodes(pk, sm, g0, h, gs[..m]);
      CheckRoundIs(pk, sm, g0, h, m, gs[m]);
    }
  }

  // ----- the signature -----

  /** The base code, the challenge and the commitments that pk and sm stand for, and their digest with m. */
  ghost predicate AcceptsWith(pk: seq<Octet>, sm: seq<Octet>, m: seq<Octet>, g0: Mat, n: nat, draws: seq<Draw>,
      h: Challenge, gs: seq<Mat>)
    requires |pk| == PK_BYTES && |sm| >= SIG_BYTES
  {
    && m == sm[SIG_BYTES..]
    && DrawsSystematicCode(pk[..PUB], g0, n)
    && IsPlacement(DigestOf(sm), draws, h)
    && |gs| == |h| == T && (forall i :: 0 <= i < T ==> h[i] <= KEYS)
    && AllStandFor(pk, sm, g0, h, gs) && AllCommitted(gs)
    && Bytes(HashedCodes(gs) + m, 0, DIGEST) == DigestOf(sm)
  }

  ghost predicate Accepts(pk: seq<Octet>, sm: seq<Octet>, m: seq<Octet>)
    requires |pk| == PK_BYTES && |sm| >= SIG_BYTES
  {
    exists g0, n: nat, draws, h, gs :: AcceptsWith(pk, sm, m, g0, n, draws, h, gs)
  }

  /** What a verification run consists of. */
  lemma OpenParts(pk: seq<Octet>, sm: seq<Octet>)
    requires |pk| == PK_BYTES && |sm| >= SIG_BYTES && Open(pk, sm).Some?
    ensures SysMatOf(pk[..PUB], N, NN).Some? && ParseHashOf(DigestOf(sm)).Some?
    ensures var g0, h := SysMatOf(pk[..PUB], N, NN).value, ParseHashOf(DigestOf(sm)).value;
      && IsChallenge(h) && |h| == T && (forall j :: 0 <= j < T ==> h[j] <= KEYS)
      && CheckRounds(pk, sm, g0, h, T).Some?
      && Open(pk, sm) == Some(
        match CheckRounds(pk, sm, g0, h, T).value
        case None => None
        case Some(bytes) =>
          if Bytes(bytes + sm[SIG_BYTES..], 0, DIGEST) == DigestOf(sm) then Some(sm[SIG_BYTES..]) else None)
  {
    hide SysMatOf, ParseHashOf, CheckRounds, Bytes, DigestOf, Count;
    ParseHashIsChallenge(DigestOf(sm));
  }

  /** The bytes that were hashed are those of the commitments that were found. */
  lemma OpenedBytes(pk: seq<Octet>, sm: seq<Octet>, m: seq<Octet>, g0: Mat, h: Challenge) returns (gs: seq<Mat>)
    requires |pk| == PK_BYTES && |sm| >= SIG_BYTES && Open(pk, sm) == Some(Some(m))
    requires SysMatOf(pk[..PUB], N, NN) == Some(g0) && ParseHashOf(DigestOf(sm)) == Some(h)
    ensures |h| == |gs| == T && (forall i :: 0 <= i < T ==> h[i] <= KEYS)
    ensures AllStandFor(pk, sm, g0, h, gs) && AllCommitted(gs) && m == sm[SIG_BYTES..]
    ensures Bytes(HashedCodes(gs) + m, 0, DIGEST) == DigestOf(sm)
  {
    hide SysMatOf, ParseHashOf, CheckRounds, Bytes, DigestOf, Count, HashedCodes, AllStandFor, AllCommitted;
    hide PK_BYTES, IsChallenge;
    OpenParts(pk, sm);
    hide Open;
    gs := CodesOfChecks(pk, sm, g0, h, T);
  }

  lemma OpenAccepts(pk: seq<Octet>, sm: seq<Octet>, m: seq<Octet>)
    requires |pk| == PK_BYTES && |sm| >= SIG_BYTES && Open(pk, sm) == Some(Some(m))
    ensures Accepts(pk, sm, m)
  {
    var seed := pk[..PUB];
    hide SysMatOf, ParseHashOf, CheckRounds, Bytes, DigestOf, Count, DrawsSystematicCode, IsPlacement, HashedCodes;
    hide AllStandFor, AllCommitted, MUNU, SIG_BYTES, PK_BYTES, IsChallenge;
    OpenParts(pk, sm);
    hide Open;
    var g0, h := SysMatOf(seed, N, NN).value, ParseHashOf(DigestOf(sm)).value;
    BaseCodeIs(seed, g0);
    var n: nat :| DrawsSystematicCode(seed, g0, n);
    ParseHashIsPlacement(DigestOf(sm), h);
    var draws :| IsPlacement(DigestOf(sm), draws, h);
    var gs := OpenedBytes(pk, sm, m, g0, h);
    assert AcceptsWith(pk, sm, m, g0, n, draws, h, gs);
  }

  lemma AcceptedOpens(pk: seq<Octet>, sm: seq<Octet>, m: seq<Octet>, g0: Mat, n: nat, draws: seq<Draw>,
      h: Challenge, gs: seq<Mat>)
    requires |pk| == PK_BYTES && |sm| >= SIG_BYTES && AcceptsWith(pk, sm, m, g0, n, draws, h, gs)
    ensures Open(pk, sm) == Some(Some(m))
  {
    var seed := pk[..PUB];
    hide SysMatOf, ParseHashOf, CheckRounds, Bytes, DigestOf, Count, DrawsSystematicCode, IsPlacement, HashedCodes;
    hide AllStandFor, AllCommitted, MUNU, SIG_BYTES, PK_BYTES, IsChallenge;
    BaseCodeIs(seed, g0);
    ParseHashIsPlacement(DigestOf(sm), h);
    ParseHashIsChallenge(DigestOf(sm));
    ChecksOfCodes(pk, sm, g0, h, gs);
  }

  /** Verification accepts exactly the signatures whose responses and path stand for commitments that hash,
      with the message, to the digest. */
  lemma OpenIsAcceptance(pk: seq<Octet>, sm: seq<Octet>, m: seq<Octet>)
    requires |pk| == PK_BYTES && |sm| >= SIG_BYTES
    ensures Open(pk, sm) == Some(Some(m)) <==> Accepts(pk, sm, m)
  {
    hide Open, AcceptsWith;
    if Open(pk, sm) == Some(Some(m)) { OpenAccepts(pk, sm, m); }
    if g0, n: nat, draws, h, gs :| AcceptsWith(pk, sm, m, g0, n, draws, h, gs) {
      AcceptedOpens(pk, sm, m, g0, n, draws, h, gs);
    }
  }

  /** Two accepted signatures with the same digest, even under different keys, carry the same message and stand
      for the same commitments, or two byte strings collide. */
  lemma SameDigestSameCommitments(
      pk: seq<Octet>, sm: seq<Octet>, m: seq<Octet>, g0: Mat, n: nat, draws: seq<Draw>, h: Challenge, gs: seq<Mat>,
      pk': seq<Octet>, sm': seq<Octet>, m': seq<Octet>, g0': Mat, n': nat, draws': seq<Draw>, h': Challenge,
      gs': seq<Mat>)
    requires |pk| == |pk'| == PK_BYTES && |sm| >= SIG_BYTES && |sm'| >= SIG_BYTES
    requires AcceptsWith(pk, sm, m, g0, n, draws, h, gs) && AcceptsWith(pk', sm', m', g0', n', draws', h', gs')
    requires DigestOf(sm) == DigestOf(sm')
    ensures (m == m' && gs == gs' && h == h') || exists x, y :: Collide(x, y)
  {
    hide AllStandFor, DrawsSystematicCode, IsPlacement, AllCommitted, HashedCodes, Bytes, DigestOf, Collide;
    hide MUNU, SIG_BYTES, PK_BYTES;
    ParseHashIsPlacement(DigestOf(sm), h);
    ParseHashIsPlacement(DigestOf(sm), h');
    DigestBinds(gs, m, gs', m');
  }
}
