/** What crypto_sign_keypair, crypto_sign and crypto_sign_open (ref/meds_serial.c) compute, as functions
    of their inputs and of the random bytes they draw; None stands for a retry loop that never exits. */
module Scheme {
  import opened Params
  import opened Loops
  import opened Field
  import opened Matrix
  import opened Products
  import opened Action
  import opened Solver
  import opened Bits
  import opened Shake
  import opened SeedTree
  import opened PathNodes
  import opened Traversal
  import opened Sampling
  import opened ParseHash
  import opened Packing
  import opened PublicKey

  const KEYS: nat := PAR.keys - 1
  const PUB: nat := PAR.pubSeedBytes
  const SEC: nat := PAR.secSeedBytes
  const SALT: nat := PAR.saltBytes
  const DIGEST: nat := PAR.digestBytes

  /** Bytes of the responses, of the keys and of the signature without the message. */
  const MUNU: nat := SegmentPos(2 * WEIGHT, NN)
  const PK_BYTES: nat := PUB + SegmentPos(KEYS, SENT)
  const SK_BYTES: nat := SEC + PUB + SegmentPos(2 * KEYS, NN)
  const SIG_BYTES: nat := MUNU + PATH_BYTES + DIGEST + SALT

  /** Where the digest starts in a signature. */
  const DIGEST_POS: nat := MUNU + PATH_BYTES

  lemma Positions()
    ensures MUNU <= DIGEST_POS && DIGEST_POS + DIGEST == SIG_BYTES - SALT
  {
    hide SegmentPos, MAX_PATH;
  }

  // ----- key generation -----

  /** What is kept of the i-th secret pair (A, B), and the public code. */
  datatype Key = Key(aInv: Mat, bInv: Mat, g: Mat)

  ghost predicate IsMatrix(m: Mat, size: nat) {
    |m| == size && Reduced(m)
  }

  ghost predicate WellFormedKey(k: Key) {
    IsMatrix(k.aInv, NN) && IsMatrix(k.bInv, NN) && IsMatrix(k.g, N * NN)
  }

  /** solve as a function: the only solution where the two blocks are nonsingular. */
  ghost function SolveOf(g0p: Mat, amm: int): (r: Option<(Mat, Mat)>)
    requires |g0p| == N * NN
    ensures r.Some? ==> IsOnlySolution(r.value.0, r.value.1, Word(g0p, 0), Word(g0p, 1), amm)
  {
    hide IsOnlySolution, LeftSingular;
    var p0, p1 := Word(g0p, 0), Word(g0p, 1);
    if !LeftSingular(p1, N - 1) && !LeftSingular(p1, N) && exists a, b :: IsOnlySolution(a, b, p0, p1, amm) then
      var a, b :| IsOnlySolution(a, b, p0, p1, amm);
      Some((a, b))
    else None
  }

  /** One attempt at a public code, from T and A[m-1][m-1]. */
  ghost function MakeKey(g0: Mat, t: Mat, amm: int): Option<Key> {
    match SolveOf(Times(N, t, g0, NN), amm)
    case None => None
    case Some((a, bInv)) =>
      match InverseOf(N, bInv)
      case None => None
      case Some(b) =>
        match InverseOf(N, a)
        case None => None
        case Some(aInv) =>
          match SystForm(Pi(a, b, g0), N, NN)
          case None => None
          case Some(g) => Some(Key(aInv, bInv, g))
  }

  /** A code and the seed for the next one. */
  datatype MadeKey = MadeKey(key: Key, sigma: seq<Octet>)

  ghost function TryKeyFrom(g0: Mat): seq<Octet> -> Step<seq<Octet>, MadeKey> {
    (sigma: seq<Octet>) =>
      var next := Bytes(sigma, SEC + SEC, SEC);
      match RndInvOf(Bytes(sigma, SEC, SEC), N, N)
      case None => Stuck
      case Some(t) =>
        match RndGfOf(Bytes(sigma, 0, SEC), 0)
        case None => Stuck
        case Some(amm) =>
          match MakeKey(g0, t, amm.value)
          case None => Again(next)
          case Some(key) => Exit(MadeKey(key, next))
  }

  ghost function KeyFrom(g0: Mat, sigma: seq<Octet>): Option<MadeKey> {
    Loop(TryKeyFrom(g0), sigma)
  }

  /** The first count codes: the keys and the seed behind them. */
  ghost function KeysFrom(g0: Mat, sigma: seq<Octet>, count: nat): Option<(seq<Key>, seq<Octet>)> {
    if count == 0 then Some(([], sigma))
    else match KeysFrom(g0, sigma, count - 1)
      case None => None
      case Some((keys, s)) =>
        match KeyFrom(g0, s)
        case None => None
        case Some(made) => Some((keys + [made.key], made.sigma))
  }

  /** The key matrices that are packed, segment by segment. */
  ghost function SentParts(keys: seq<Key>): (list: seq<seq<int>>)
    ensures |list| == |keys|
  {
    seq(|keys|, i requires 0 <= i < |keys| => SentPart(keys[i].g))
  }

  ghost function SecretParts(keys: seq<Key>): (list: seq<seq<int>>)
    ensures |list| == 2 * |keys|
  {
    seq(2 * |keys|, i requires 0 <= i < 2 * |keys| => if i < |keys| then keys[i].aInv else keys[i - |keys|].bInv)
  }

  datatype KeyPair = KeyPair(pk: seq<Octet>, sk: seq<Octet>)

  ghost function SeedOfCode(delta: seq<Octet>): seq<Octet> { Bytes(delta, 0, PUB) }

  /** The keys for the random bytes delta. */
  ghost function SecretKeys(delta: seq<Octet>): Option<seq<Key>> {
    match SysMatOf(SeedOfCode(delta), N, NN)
    case None => None
    case Some(g0) =>
      match KeysFrom(g0, Bytes(delta, PUB, SEC), KEYS)
      case None => None
      case Some((keys, _)) => Some(keys)
  }

  /** A pair (A, B) behind a key: the public code is the systematic form of its action on g0. */
  ghost predicate IsPairOf(k: Key, g0: Mat, a: Mat, b: Mat) {
    && IsInverse(N, a, k.aInv) && IsInverse(N, k.bInv, b)
    && SystForm(Pi(a, b, g0), N, NN) == Some(k.g)
  }

  /** What every generated key satisfies. */
  ghost predicate HonestKey(k: Key, g0: Mat) {
    && WellFormedKey(k)
    && Rebuilt(SentPart(k.g)) == k.g
    && exists a, b :: IsPairOf(k, g0, a, b)
  }

  lemma MakeKeyIsHonest(g0: Mat, t: Mat, amm: int)
    requires MakeKey(g0, t, amm).Some? && IsMatrix(t, NN) && !Singular(t, N, N)
    ensures HonestKey(MakeKey(g0, t, amm).value, g0)
  {
    hide Singular, Times, Pi, IsSolution, SolveOf, InverseOf, Rebuilt, SentPart, IsSystForm, HasFixedRows;
    var g0p := Times(N, t, g0, NN);
    var (a, bInv) := SolveOf(g0p, amm).value;
    var b, key := InverseOf(N, bInv).value, MakeKey(g0, t, amm).value;
    assert IsPairOf(key, g0, a, b);
    TimesReduced(N, a, Word(g0p, 0), N);
    SolutionShape(a, bInv, Word(g0p, 0), Word(g0p, 1), amm);
    SystFormShape(Pi(a, b, g0), N, NN);
    PublicCodeRoundTrip(t, g0, a, b, bInv, amm, key.g);
  }

  lemma SolutionShape(a: Mat, bInv: Mat, p0: Mat, p1: Mat, amm: int)
    requires IsSolution(a, bInv, p0, p1, amm)
    ensures IsMatrix(a, NN) && IsMatrix(bInv, NN)
  {
    hide Times;
    TimesReduced(N, a, p0, N);
  }

  lemma SystFormShape(m: Mat, rows: nat, cols: nat)
    requires SystForm(m, rows, cols).Some?
    ensures IsMatrix(SystForm(m, rows, cols).value, rows * cols)
    ensures Systematic(SystForm(m, rows, cols).value, rows, cols)
  {
  }

  lemma {:induction false} KeyWithinIsHonest(g0: Mat, sigma: seq<Octet>, l: nat)
    requires Within(TryKeyFrom(g0), sigma, l).Some?
    ensures HonestKey(Within(TryKeyFrom(g0), sigma, l).value.key, g0)
    decreases l
  {
    hide MakeKey, HonestKey, RndInvOf, RndGfOf, Bytes;
    if TryKeyFrom(g0)(sigma).Again? {
      KeyWithinIsHonest(g0, TryKeyFrom(g0)(sigma).state, l - 1);
    } else {
      var seed := Bytes(sigma, SEC, SEC);
      RndInvIsNonsingular(seed, N, N);
      hide Singular;
      MakeKeyIsHonest(g0, RndInvOf(seed, N, N).value, RndGfOf(Bytes(sigma, 0, SEC), 0).value.value);
    }
  }

  lemma KeyFromIsHonest(g0: Mat, sigma: seq<Octet>)
    requires KeyFrom(g0, sigma).Some?
    ensures HonestKey(KeyFrom(g0, sigma).value.key, g0)
  {
    hide Within, TryKeyFrom, HonestKey;
    var body := TryKeyFrom(g0);
    var l: nat :| Within(body, sigma, l).Some? && Loop(body, sigma) == Within(body, sigma, l);
    KeyWithinIsHonest(g0, sigma, l);
  }

  ghost predicate HonestKeys(keys: seq<Key>, g0: Mat) {
    forall i :: 0 <= i < |keys| ==> HonestKey(keys[i], g0)
  }

  lemma {:induction false} KeysAreHonest(g0: Mat, sigma: seq<Octet>, count: nat)
    requires KeysFrom(g0, sigma, count).Some?
    ensures |KeysFrom(g0, sigma, count).value.0| == count && HonestKeys(KeysFrom(g0, sigma, count).value.0, g0)
  {
    hide KeyFrom, HonestKey;
    if count > 0 {
      KeysAreHonest(g0, sigma, count - 1);
      KeyFromIsHonest(g0, KeysFrom(g0, sigma, count - 1).value.1);
    }
  }

  ghost predicate WellFormedKeys(keys: seq<Key>) {
    forall i :: 0 <= i < |keys| ==> WellFormedKey(keys[i])
  }

  lemma SecretKeysAreHonest(delta: seq<Octet>)
    requires SecretKeys(delta).Some?
    ensures SysMatOf(SeedOfCode(delta), N, NN).Some?
    ensures var g0 := SysMatOf(SeedOfCode(delta), N, NN).value; var keys := SecretKeys(delta).value;
      |keys| == KEYS && WellFormedKeys(keys) && HonestKeys(keys, g0)
  {
    hide KeysFrom, SysMatOf, SentPart, Rebuilt, IsPairOf;
    KeysAreHonest(SysMatOf(SeedOfCode(delta), N, NN).value, Bytes(delta, PUB, SEC), KEYS);
  }

  /** Everything that is packed fits the width of a field element. */
  lemma KeyPartsAreSegments(keys: seq<Key>)
    requires WellFormedKeys(keys)
    ensures AreSegments(SentParts(keys), SENT) && AreSegments(SecretParts(keys), NN)
  {
    hide Small;
    forall i | 0 <= i < |keys| ensures Small(SentPart(keys[i].g)) && Small(keys[i].aInv) && Small(keys[i].bInv) {
      SentPartIsSmall(keys[i].g);
      ReducedIsSmall(keys[i].aInv);
      ReducedIsSmall(keys[i].bInv);
    }
  }

  lemma SentPartIsSmall(g: Mat)
    requires Reduced(g)
    ensures Small(SentPart(g))
  {
    hide At;
    forall k | 0 <= k < SENT ensures 0 <= SentPart(g)[k] < P {
      AtReduced(g, NN, SentRow(k), SentCol(k));
    }
  }

  /** crypto_sign_keypair for the random bytes delta. */
  ghost function KeyGen(delta: seq<Octet>): (r: Option<KeyPair>)
  {
    if SecretKeys(delta).None? then None
    else
      SecretKeysAreHonest(delta);
      var keys := SecretKeys(delta).value;
      KeyPartsAreSegments(keys);
      Some(KeyPair(
        SeedOfCode(delta) + PackAll(SentParts(keys), SENT),
        delta + SeedOfCode(delta) + PackAll(SecretParts(keys), NN)))
  }

  // ----- one round -----

  /** Two invertible matrices and the systematic form of their action on g0. */
  datatype Round = Round(a: Mat, b: Mat, g: Mat)

  ghost function TryRound(g0: Mat, alpha: seq<Octet>, i: nat): Seed -> Step<Seed, Round> {
    (seed: Seed) =>
      var buf := HashInput(alpha, seed, i);
      match RndInvOf(Bytes(buf, 0, PUB), N, N)
      case None => Stuck
      case Some(a) =>
        match RndInvOf(Bytes(buf, PUB, PUB), N, N)
        case None => Stuck
        case Some(b) =>
          match SystForm(Pi(a, b, g0), N, NN)
          case None => Again(Bytes(buf, PUB + PUB, L))
          case Some(g) => Exit(Round(a, b, g))
  }

  /** The round that grows from the seed of leaf i; signer and verifier share it. */
  ghost function RoundOf(g0: Mat, alpha: seq<Octet>, i: nat, seed: Seed): Option<Round> {
    Loop(TryRound(g0, alpha, i), seed)
  }

  ghost predicate GoodRound(g0: Mat, r: Round) {
    && IsMatrix(r.a, NN) && IsMatrix(r.b, NN) && !Singular(r.a, N, N) && !Singular(r.b, N, N)
    && SystForm(Pi(r.a, r.b, g0), N, NN) == Some(r.g) && IsMatrix(r.g, N * NN)
  }

  lemma {:induction false} RoundWithin(g0: Mat, alpha: seq<Octet>, i: nat, seed: Seed, l: nat)
    requires Within(TryRound(g0, alpha, i), seed, l).Some?
    ensures GoodRound(g0, Within(TryRound(g0, alpha, i), seed, l).value)
    decreases l
  {
    hide RndInvOf, Bytes, Pi, Singular, SystForm;
    var body := TryRound(g0, alpha, i);
    if body(seed).Again? {
      RoundWithin(g0, alpha, i, body(seed).state, l - 1);
    } else {
      var buf := HashInput(alpha, seed, i);
      RndInvIsNonsingular(Bytes(buf, 0, PUB), N, N);
      RndInvIsNonsingular(Bytes(buf, PUB, PUB), N, N);
      var r := body(seed).result;
      SystFormShape(Pi(r.a, r.b, g0), N, NN);
    }
  }

  lemma RoundIsGood(g0: Mat, alpha: seq<Octet>, i: nat, seed: Seed)
    requires RoundOf(g0, alpha, i, seed).Some?
    ensures GoodRound(g0, RoundOf(g0, alpha, i, seed).value)
  {
    hide Within, TryRound, GoodRound;
    var body := TryRound(g0, alpha, i);
    var l: nat :| Within(body, seed, l).Some? && Loop(body, seed) == Within(body, seed, l);
    RoundWithin(g0, alpha, i, seed, l);
  }

  /** The part of a commitment that is hashed: everything right of the identity. */
  ghost function HashPart(g: Mat): (values: seq<int>)
    ensures |values| == N * REST
  {
    seq(N * REST, k requires 0 <= k < N * REST => At(g, NN, k / REST, N + k % REST))
  }

  lemma HashPartIsSmall(g: Mat)
    requires Reduced(g)
    ensures Small(HashPart(g))
  {
    hide At;
    forall k | 0 <= k < N * REST ensures 0 <= HashPart(g)[k] < P {
      AtReduced(g, NN, k / REST, N + k % REST);
    }
  }

  /** The bytes of one commitment that enter the digest. */
  ghost function Commitment(g: Mat): seq<Octet>
    requires Reduced(g)
  {
    HashPartIsSmall(g);
    Pack(HashPart(g))
  }

  // ----- signing -----

  /** The secret code matrices as crypto_sign reads them from sk, for keys 1 to KEYS. */
  ghost function LoadedPart(sk: seq<Octet>, j: nat): (m: Mat)
    requires |sk| == SK_BYTES
    ensures |m| == NN
  {
    Unpack(sk[SEC + PUB..], SegmentPos(j, NN), NN)
  }

  /** mu = A~ A_inv[key] */
  ghost function Mu(sk: seq<Octet>, r: Round, key: nat): Mat
    requires |sk| == SK_BYTES && 1 <= key <= KEYS
  {
    Times(N, r.a, LoadedPart(sk, key - 1), N)
  }

  /** nu = B_inv[key] B~ */
  ghost function Nu(sk: seq<Octet>, r: Round, key: nat): Mat
    requires |sk| == SK_BYTES && 1 <= key <= KEYS
  {
    Times(N, LoadedPart(sk, KEYS + key - 1), r.b, N)
  }

  /** The rounds 0 to count - 1 of a signer. */
  ghost function RoundsOf(g0: Mat, alpha: seq<Octet>, rho: Seed, count: nat): Option<seq<Round>> {
    if count == 0 then Some([])
    else match RoundsOf(g0, alpha, rho, count - 1)
      case None => None
      case Some(rs) =>
        match RoundOf(g0, alpha, count - 1, Derived(alpha, rho, 0, H, count - 1))
        case None => None
        case Some(r) => Some(rs + [r])
  }

  lemma {:induction false} RoundsAreGood(g0: Mat, alpha: seq<Octet>, rho: Seed, count: nat)
    requires RoundsOf(g0, alpha, rho, count).Some?
    ensures |RoundsOf(g0, alpha, rho, count).value| == count
    ensures forall i :: 0 <= i < count ==> GoodRound(g0, RoundsOf(g0, alpha, rho, count).value[i])
  {
    hide GoodRound, RoundOf, Derived;
    if count > 0 {
      RoundsAreGood(g0, alpha, rho, count - 1);
      RoundIsGood(g0, alpha, count - 1, Derived(alpha, rho, 0, H, count - 1));
    }
  }

  ghost predicate GoodRounds(rs: seq<Round>) {
    forall i :: 0 <= i < |rs| ==> IsMatrix(rs[i].a, NN) && IsMatrix(rs[i].b, NN) && IsMatrix(rs[i].g, N * NN)
  }

  ghost function Commitments(rs: seq<Round>): seq<Octet>
    requires GoodRounds(rs)
  {
    if rs == [] then [] else Commitments(rs[..|rs| - 1]) + Commitment(rs[|rs| - 1].g)
  }

  /** What a signing run fixes: the rounds, the digest and the challenge. */
  datatype Transcript = Transcript(rounds: seq<Round>, digest: seq<Octet>, h: Challenge)

  ghost predicate WellFormedTranscript(tr: Transcript) {
    && GoodRounds(tr.rounds) && |tr.rounds| == T && |tr.digest| == DIGEST
    && IsChallenge(tr.h) && |tr.h| == T && forall i :: 0 <= i < T ==> tr.h[i] <= KEYS
  }

  ghost function Root(delta: seq<Octet>): Seed { Bytes(delta, 0, L) }

  ghost function Alpha(delta: seq<Octet>): (alpha: seq<Octet>)
    ensures |alpha| == SALT
  {
    Bytes(delta, L, SALT)
  }

  /** The run of crypto_sign on message msg with the random bytes delta. */
  ghost function TranscriptOf(sk: seq<Octet>, delta: seq<Octet>, msg: seq<Octet>): (r: Option<Transcript>)
    requires |sk| == SK_BYTES
    ensures r.Some? ==> WellFormedTranscript(r.value)
  {
    hide ParseHashOf, RoundsOf, SysMatOf, IsChallenge, Commitments, GoodRound;
    match SysMatOf(sk[SEC..SEC + PUB], N, NN)
    case None => None
    case Some(g0) =>
      match RoundsOf(g0, Alpha(delta), Root(delta), T)
      case None => None
      case Some(rs) =>
        TheseAreGood(g0, Alpha(delta), Root(delta), T);
        var digest := Bytes(Commitments(rs) + msg, 0, DIGEST);
        match ParseHashOf(digest)
        case None => None
        case Some(h) =>
          ParseHashIsChallenge(digest);
          Some(Transcript(rs, digest, h))
  }

  lemma TheseAreGood(g0: Mat, alpha: seq<Octet>, rho: Seed, count: nat)
    requires RoundsOf(g0, alpha, rho, count).Some?
    ensures GoodRounds(RoundsOf(g0, alpha, rho, count).value) && |RoundsOf(g0, alpha, rho, count).value| == count
  {
    hide RoundsOf;
    RoundsAreGood(g0, alpha, rho, count);
    hide Singular, SystForm;
  }

  /** What a signing run consists of. */
  lemma TranscriptParts(sk: seq<Octet>, delta: seq<Octet>, msg: seq<Octet>)
    requires |sk| == SK_BYTES && TranscriptOf(sk, delta, msg).Some?
    ensures SysMatOf(sk[SEC..SEC + PUB], N, NN).Some?
    ensures var tr := TranscriptOf(sk, delta, msg).value; var g0 := SysMatOf(sk[SEC..SEC + PUB], N, NN).value;
      && RoundsOf(g0, Alpha(delta), Root(delta), T) == Some(tr.rounds)
      && tr.digest == Bytes(Commitments(tr.rounds) + msg, 0, DIGEST)
      && ParseHashOf(tr.digest) == Some(tr.h)
      && forall i :: 0 <= i < T ==> GoodRound(g0, tr.rounds[i])
  {
    hide RoundsOf, ParseHashOf, Commitments, SysMatOf, GoodRound, IsChallenge, Bytes;
    RoundsAreGood(SysMatOf(sk[SEC..SEC + PUB], N, NN).value, Alpha(delta), Root(delta), T);
  }

  /** The responses of the rounds before i: mu and nu of every punctured one. */
  ghost function Responses(sk: seq<Octet>, tr: Transcript, i: nat): (list: seq<seq<int>>)
    requires |sk| == SK_BYTES && WellFormedTranscript(tr) && i <= T
  {
    if i == 0 then []
    else
      Responses(sk, tr, i - 1) +
      (if tr.h[i - 1] == 0 then []
       else [Mu(sk, tr.rounds[i - 1], tr.h[i - 1]), Nu(sk, tr.rounds[i - 1], tr.h[i - 1])])
  }

  lemma {:induction false} ResponsesAreSegments(sk: seq<Octet>, tr: Transcript, i: nat)
    requires |sk| == SK_BYTES && WellFormedTranscript(tr) && i <= T
    ensures AreSegments(Responses(sk, tr, i), NN)
    ensures |Responses(sk, tr, i)| == 2 * Count(tr.h, 0, i)
  {
    hide Times, Small, LoadedPart;
    if i > 0 {
      ResponsesAreSegments(sk, tr, i - 1);
      if tr.h[i - 1] > 0 {
        MuIsSmall(sk, tr.rounds[i - 1], tr.h[i - 1]);
      }
    }
  }

  lemma MuIsSmall(sk: seq<Octet>, r: Round, key: nat)
    requires |sk| == SK_BYTES && 1 <= key <= KEYS
    ensures Small(Mu(sk, r, key)) && |Mu(sk, r, key)| == NN && Reduced(Mu(sk, r, key))
    ensures Small(Nu(sk, r, key)) && |Nu(sk, r, key)| == NN && Reduced(Nu(sk, r, key))
  {
    hide Times;
    TimesReduced(N, r.a, LoadedPart(sk, key - 1), N);
    TimesReduced(N, LoadedPart(sk, KEYS + key - 1), r.b, N);
    ReducedIsSmall(Mu(sk, r, key));
    ReducedIsSmall(Nu(sk, r, key));
  }

  /** The path part of a signature: the signer's seeds of the path nodes, in order. */
  ghost predicate HoldsPath(sm: seq<Octet>, delta: seq<Octet>, h: Challenge) {
    forall k :: 0 <= k < |Nodes(h, 0, 0)| ==>
      var x := Nodes(h, 0, 0)[k];
      PathSeed(sm, MUNU, k) == Derived(Alpha(delta), Root(delta), 0, x.h, x.i)
  }

  /** sm is a signature of msg as crypto_sign leaves it: responses, path, digest, salt and message; the
      path slot behind the path nodes keeps whatever was in the caller's buffer. */
  ghost predicate IsSignature(sm: seq<Octet>, sk: seq<Octet>, delta: seq<Octet>, msg: seq<Octet>)
    requires |sk| == SK_BYTES
  {
    TranscriptOf(sk, delta, msg).Some? && |sm| == SIG_BYTES + |msg| &&
    var tr := TranscriptOf(sk, delta, msg).value;
    ResponsesAreSegments(sk, tr, T);
    && sm[..MUNU] == PackAll(Responses(sk, tr, T), NN)
    && HoldsPath(sm, delta, tr.h)
    && sm[DIGEST_POS..DIGEST_POS + DIGEST] == tr.digest
    && sm[SIG_BYTES - SALT..SIG_BYTES] == Alpha(delta)
    && sm[SIG_BYTES..] == msg
  }

  // ----- verification -----

  /** The public code of key number key as crypto_sign_open rebuilds it from pk. */
  ghost function PublicCode(pk: seq<Octet>, key: nat): (g: Mat)
    requires |pk| == PK_BYTES && 1 <= key <= KEYS
    ensures |g| == N * NN
  {
    Rebuilt(Unpack(pk[PUB..], SegmentPos(key - 1, SENT), SENT))
  }

  /** bs_read(...) % MEDS_p, entry by entry. */
  ghost function ModAll(values: seq<int>): (m: Mat)
    ensures |m| == |values|
  {
    seq(|values|, k requires 0 <= k < |values| => Mod(values[k]))
  }

  /** The j-th response matrix of a signature. */
  ghost function ReadResponse(sm: seq<Octet>, j: nat): Mat
    requires |sm| >= MUNU
  {
    ModAll(Unpack(sm[..MUNU], SegmentPos(j, NN), NN))
  }

  /** The seed of leaf j as it follows from the path in a signature. */
  ghost function PathLeaf(h: Challenge, sm: seq<Octet>, off: nat, alpha: seq<Octet>, j: nat): Seed {
    if k: nat :| k < |Nodes(h, 0, 0)| && Nodes(h, 0, 0)[k].h <= H && Covers(Nodes(h, 0, 0)[k], j)
    then Derived(alpha, PathSeed(sm, off, k), Nodes(h, 0, 0)[k].h, H, j)
    else ZeroSeed()
  }

  /** The commitment that a response carries the public code to; None when a matrix is singular. */
  ghost function FromResponse(mu: Mat, nu: Mat, g: Mat): Option<Mat> {
    if Singular(mu, N, N) || Singular(nu, N, N) then None else SystForm(Pi(mu, nu, g), N, NN)
  }

  ghost function AlphaOf(sm: seq<Octet>): seq<Octet>
    requires |sm| >= SIG_BYTES
  {
    sm[SIG_BYTES - SALT..SIG_BYTES]
  }

  ghost function DigestOf(sm: seq<Octet>): seq<Octet>
    requires |sm| >= SIG_BYTES
  {
    sm[DIGEST_POS..DIGEST_POS + DIGEST]
  }

  /** The commitment that the c-th response and a public key give; None when the response is malformed. */
  ghost function AnswerOf(pk: seq<Octet>, sm: seq<Octet>, c: nat, key: nat): (r: Option<Mat>)
    requires |pk| == PK_BYTES && |sm| >= SIG_BYTES && 1 <= key <= KEYS
    ensures r.Some? ==> IsMatrix(r.value, N * NN)
  {
    hide SegmentPos, PublicCode, ReadResponse, SystForm, Pi;
    var mu, nu, g := ReadResponse(sm, 2 * c), ReadResponse(sm, 2 * c + 1), PublicCode(pk, key);
    if FromResponse(mu, nu, g).Some? then SystFormShape(Pi(mu, nu, g), N, NN); FromResponse(mu, nu, g) else None
  }

  /** Commitment i: None when the retry loop does not exit, Some(None) when the response is malformed. */
  ghost function CheckRound(pk: seq<Octet>, sm: seq<Octet>, g0: Mat, h: Challenge, i: nat): (r: Option<Option<Mat>>)
    requires |pk| == PK_BYTES && |sm| >= SIG_BYTES && i < |h| && h[i] <= KEYS
    ensures r.Some? && r.value.Some? ==> IsMatrix(r.value.value, N * NN)
  {
    Positions();
    hide SegmentPos, MAX_PATH, MUNU, SIG_BYTES, PK_BYTES, RoundOf, PathLeaf, GoodRound, Count, AnswerOf;
    if h[i] > 0 then Some(AnswerOf(pk, sm, Count(h, 0, i), h[i]))
    else
      match RoundOf(g0, AlphaOf(sm), i, PathLeaf(h, sm, MUNU, AlphaOf(sm), i))
      case None => None
      case Some(r) =>
        RoundIsGood(g0, AlphaOf(sm), i, PathLeaf(h, sm, MUNU, AlphaOf(sm), i));
        Some(Some(r.g))
  }

  /** The hashed bytes of the first count commitments; a malformed response ends the run. */
  ghost function CheckRounds(pk: seq<Octet>, sm: seq<Octet>, g0: Mat, h: Challenge,
      count: nat): Option<Option<seq<Octet>>>
    requires |pk| == PK_BYTES && |sm| >= SIG_BYTES && count <= |h| && forall i :: 0 <= i < count ==> h[i] <= KEYS
    decreases count
  {
    if count == 0 then Some(Some([]))
    else match CheckRounds(pk, sm, g0, h, count - 1)
      case None => None
      case Some(None) => Some(None)
      case Some(Some(bytes)) =>
        match CheckRound(pk, sm, g0, h, count - 1)
        case None => None
        case Some(None) => Some(None)
        case Some(Some(g)) => Some(Some(bytes + Commitment(g)))
  }

  /** crypto_sign_open: Some(Some(m)) accepts message m, Some(None) is the return value -1. */
  ghost function Open(pk: seq<Octet>, sm: seq<Octet>): Option<Option<seq<Octet>>>
    requires |pk| == PK_BYTES && |sm| >= SIG_BYTES
  {
    match SysMatOf(pk[..PUB], N, NN)
    case None => None
    case Some(g0) =>
      match ParseHashOf(DigestOf(sm))
      case None => None
      case Some(h) =>
        ParseHashIsChallenge(DigestOf(sm));
        match CheckRounds(pk, sm, g0, h, T)
        case None => None
        case Some(None) => Some(None)
        case Some(Some(bytes)) =>
          var msg := sm[SIG_BYTES..];
          if Bytes(bytes + msg, 0, DIGEST) == DigestOf(sm) then Some(Some(msg)) else Some(None)
  }
}
