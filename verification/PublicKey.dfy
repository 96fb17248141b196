/** The compressed public key (ref/meds_serial.c): rows 0 and 1 of every public code are constant up to
    the last n entries of row 1, because solve forces them, so they are not sent. */
module PublicKey {
  import opened Arithmetic
  import opened Params
  import opened Sums
  import opened Field
  import opened Loops
  import opened Matrix
  import opened Products
  import opened Action
  import opened Solver

  /** Columns of the non-systematic part. */
  const REST: nat := NN - N

  /** Field elements sent for one code. */
  const SENT: nat := N + (N - 2) * REST

  lemma Shape()
    ensures N * N == NN == N + REST && (N - 1) * N == REST && N <= REST && 2 * N <= NN
  {
    MulSub(N, 1, N);
    MulLe(2, N, N);
  }

  /** Where element k of the sent part comes from. */
  function SentRow(k: nat): nat {
    if k < N then 1 else 2 + (k - N) / REST
  }

  function SentCol(k: nat): nat {
    if k < N then (N - 1) * N + k else N + (k - N) % REST
  }

  /** The sent part of a code: the end of row 1, then the rest of the rows from 2 on. */
  ghost function SentPart(g: Mat): (values: seq<int>)
    ensures |values| == SENT
  {
    seq(SENT, k requires 0 <= k < SENT => At(g, NN, SentRow(k), SentCol(k)))
  }

  /** Row 0 is the n x n identity, row 1 the identity shifted by one row and then the sent end, the
      other rows continue the identity with what was sent. */
  ghost function RebuiltAt(values: seq<int>, r: int, c: int): int {
    if r == 0 then (if c / N == c % N then 1 else 0)
    else if r == 1 && c < (N - 1) * N then (if c / N + 1 == c % N then 1 else 0)
    else if r == 1 then At(values, N, 0, c - (N - 1) * N)
    else if c < N then (if r == c then 1 else 0)
    else At(values, 1, N + REST * (r - 2) + (c - N), 0)
  }

  ghost function Rebuilt(values: seq<int>): (g: Mat)
    ensures |g| == N * NN
  {
    Build(N, NN, (r, c) => RebuiltAt(values, r, c))
  }

  lemma RebuiltIs(values: seq<int>, r: int, c: int)
    requires 0 <= r < N && 0 <= c < NN
    ensures At(Rebuilt(values), NN, r, c) == RebuiltAt(values, r, c)
  {
    hide At, RebuiltAt;
    BuildAt(N, NN, (r, c) => RebuiltAt(values, r, c), r, c);
  }

  /** The first two rows of a code have the constant form. */
  ghost predicate HasFixedRows(g: Mat) {
    && (forall c :: 0 <= c < NN ==> At(g, NN, 0, c) == (if c / N == c % N then 1 else 0))
    && (forall c :: 0 <= c < (N - 1) * N ==> At(g, NN, 1, c) == (if c / N + 1 == c % N then 1 else 0))
  }

  /** Decompression undoes compression exactly on the codes of the fixed form. */
  lemma RebuiltFromSent(g: Mat)
    requires |g| == N * NN && Systematic(g, N, NN)
    ensures Rebuilt(SentPart(g)) == g <==> HasFixedRows(g)
  {
    hide At;
    var values := SentPart(g);
    Shape();
    forall r, c | 0 <= r < N && 0 <= c < NN
      ensures At(Rebuilt(values), NN, r, c) == RebuiltAt(values, r, c)
      ensures !(r == 0 || (r == 1 && c < (N - 1) * N)) ==> RebuiltAt(values, r, c) == At(g, NN, r, c)
    {
      RebuiltIs(values, r, c);
      if r == 1 && c >= (N - 1) * N {
        SentEnd(g, c);
      } else if r >= 2 {
        if c >= N { SentRest(g, r, c); }
      }
    }
    if HasFixedRows(g) {
      MatEqual(N, NN, Rebuilt(values), g);
    }
    if Rebuilt(values) == g {
      forall c | 0 <= c < NN ensures At(g, NN, 0, c) == (if c / N == c % N then 1 else 0) {
        assert At(Rebuilt(values), NN, 0, c) == RebuiltAt(values, 0, c);
      }
      forall c | 0 <= c < (N - 1) * N ensures At(g, NN, 1, c) == (if c / N + 1 == c % N then 1 else 0) {
        assert At(Rebuilt(values), NN, 1, c) == RebuiltAt(values, 1, c);
      }
    }
  }

  lemma SentEnd(g: Mat, c: int)
    requires (N - 1) * N <= c < NN
    ensures At(SentPart(g), N, 0, c - (N - 1) * N) == At(g, NN, 1, c)
  {
    Shape();
    SentSize(1, 0);
    var k := c - (N - 1) * N;
    assert SentPart(g)[k] == At(g, NN, SentRow(k), SentCol(k));
  }

  lemma SentRest(g: Mat, r: int, c: int)
    requires 2 <= r < N && N <= c < NN
    ensures At(SentPart(g), 1, N + REST * (r - 2) + (c - N), 0) == At(g, NN, r, c)
  {
    Shape();
    SentSize(r, c - N);
    var k := N + REST * (r - 2) + (c - N);
    SentAddress(r, c - N, k);
    assert SentPart(g)[k] == At(g, NN, SentRow(k), SentCol(k));
  }

  lemma SentSize(r: int, c: int)
    requires 1 <= r < N && 0 <= c < REST
    ensures N <= SENT && (r >= 2 ==> N <= N + REST * (r - 2) + c < SENT)
  {
    MulLe(0, N - 2, REST);
    if r >= 2 { IndexBound(N - 2, REST, r - 2, c); }
  }

  lemma SentAddress(r: int, c: int, k: int)
    requires r >= 2 && 0 <= c < REST && k == N + REST * (r - 2) + c && k >= N
    ensures SentRow(k) == r && SentCol(k) == N + c
  {
    var d := k - N;
    assert d == REST * (d / REST) + d % REST;
    IndexInjective(REST, r - 2, c, d / REST, d % REST);
  }

  // ----- what solve forces -----

  /** A row of m that already has the form of row r of a systematic matrix is that row. */
  lemma RowOfSystForm(m: Mat, g: Mat, r: int, c: int)
    requires IsSystForm(m, g, N, NN) && Reduced(m) && 0 <= r < N && 0 <= c < NN
    requires forall l :: 0 <= l < N ==> At(m, NN, r, l) == if r == l then 1 else 0
    ensures At(g, NN, r, c) == At(m, NN, r, c)
  {
    hide At;
    Shape();
    SystFormFactor(m, g, N, NN, r, c);
    SumOne(N, l => At(m, NN, r, l) * At(g, NN, l, c), r);
    AtReduced(m, NN, r, c);
    AtReduced(g, NN, r, c);
    ModIdem(At(m, NN, r, c));
    ModIdem(At(g, NN, r, c));
  }

  /** Word 0 of the transformed code is the identity, because A P0 = B^-1. */
  lemma FirstWord(a: Mat, b: Mat, bInv: Mat, g0p: Mat, amm: int)
    requires |g0p| == N * NN && IsSolution(a, bInv, Word(g0p, 0), Word(g0p, 1), amm) && IsInverse(N, bInv, b)
    ensures Block(Pi(a, b, g0p), 0) == Identity(N)
  {
    hide Pi, Times;
    BlockOfPi(a, b, g0p, 0);
    BlockIsWindow(g0p, 0, 0);
    assert Word(g0p, 0) == g0p[0..0 + NN];
  }

  /** Row l < n - 1 of word 1 is row l + 1 of the identity, because row l of A P1 is row l + 1 of B^-1. */
  lemma SecondWord(a: Mat, b: Mat, bInv: Mat, g0p: Mat, amm: int, l: int, j: int)
    requires |g0p| == N * NN && IsSolution(a, bInv, Word(g0p, 0), Word(g0p, 1), amm) && IsInverse(N, bInv, b)
    requires 0 <= l < N - 1 && 0 <= j < N
    ensures At(Block(Pi(a, b, g0p), 1), N, l, j) == if l + 1 == j then 1 else 0
  {
    hide Pi, Times, At, Block;
    Shape();
    BlockOfPi(a, b, g0p, 1);
    BlockIsWindow(g0p, 1, NN);
    assert Word(g0p, 1) == g0p[NN..NN + NN];
    var ap := Times(N, a, Word(g0p, 1), N);
    TimesAt(N, ap, b, N, l, j);
    TimesAt(N, bInv, b, N, l + 1, j);
    forall i | 0 <= i < N ensures At(ap, N, l, i) == At(bInv, N, l + 1, i) {
      assert ShiftEquation(a, bInv, Word(g0p, 1), l, i);
    }
    SumEq(N, i => At(ap, N, l, i) * At(b, N, i, j), i => At(bInv, N, l + 1, i) * At(b, N, i, j));
    IdentityAt(N, l + 1, j);
  }

  /** Rows 0 and 1 of the transformed code. */
  lemma TransformedRows(a: Mat, b: Mat, bInv: Mat, g0p: Mat, amm: int, c: int)
    requires |g0p| == N * NN && IsSolution(a, bInv, Word(g0p, 0), Word(g0p, 1), amm) && IsInverse(N, bInv, b)
    requires 0 <= c < NN
    ensures At(Pi(a, b, g0p), NN, 0, c) == if c / N == c % N then 1 else 0
    ensures c < (N - 1) * N ==> At(Pi(a, b, g0p), NN, 1, c) == if c / N + 1 == c % N then 1 else 0
  {
    hide Pi, Times, At, Block, IsSolution;
    IndexSplit(N, N, c);
    FirstWord(a, b, bInv, g0p, amm);
    BlockAt(Pi(a, b, g0p), 0, c / N, c % N);
    IdentityAt(N, c / N, c % N);
    if c < (N - 1) * N {
      IndexSplit(N - 1, N, c);
      SecondWord(a, b, bInv, g0p, amm, c / N, c % N);
      BlockAt(Pi(a, b, g0p), 1, c / N, c % N);
    }
  }

  lemma SmallColumn(c: int)
    requires 0 <= c < N
    ensures c / N == 0 && c % N == c
  {
  }

  /** Every code that key generation accepts has the constant rows, so the verifier rebuilds it from what
      is sent. */
  lemma PublicCodeRoundTrip(t: Mat, g0: Mat, a: Mat, b: Mat, bInv: Mat, amm: int, g: Mat)
    requires |t| == NN && !Singular(t, N, N)
    requires var g0p := Times(N, t, g0, NN);
      IsSolution(a, bInv, Word(g0p, 0), Word(g0p, 1), amm)
    requires IsInverse(N, bInv, b)
    requires SystForm(Pi(a, b, g0), N, NN) == Some(g)
    ensures HasFixedRows(g) && Rebuilt(SentPart(g)) == g
  {
    hide Pi, At, Singular, IsSolution, Systematic;
    var g0p := Times(N, t, g0, NN);
    var m := Pi(a, b, g0p);
    Shape();
    PiChangeOfBasis(a, b, t, g0);
    TimesIsLeftMultiple(N, t, Pi(a, b, g0), NN);
    LeftMultipleKernel(m, t, Pi(a, b, g0), N, NN);
    PiReduced(a, b, g0p);
    assert IsSystForm(m, g, N, NN);
    forall c | 0 <= c < NN
      ensures At(m, NN, 0, c) == (if c / N == c % N then 1 else 0)
      ensures c < (N - 1) * N ==> At(m, NN, 1, c) == (if c / N + 1 == c % N then 1 else 0)
    {
      TransformedRows(a, b, bInv, g0p, amm, c);
    }
    forall l | 0 <= l < N
      ensures At(m, NN, 0, l) == (if 0 == l then 1 else 0) && At(m, NN, 1, l) == (if 1 == l then 1 else 0)
    {
      SmallColumn(l);
    }
    forall c | 0 <= c < NN ensures At(g, NN, 0, c) == At(m, NN, 0, c) && At(g, NN, 1, c) == At(m, NN, 1, c) {
      RowOfSystForm(m, g, 0, c);
      RowOfSystForm(m, g, 1, c);
    }
    RebuiltFromSent(g);
  }
}
