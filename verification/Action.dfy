/** pmod_mat_mul (ref/matrixmod.c) and the matrix-code action pi (ref/util.c). */
module Action {
  import opened Arithmetic
  import opened Params
  import opened Sums
  import opened Field
  import opened Loops
  import opened Matrix
  import opened Elimination
  import opened Products

  // ----- pmod_mat_mul -----

  /** The matrix of the given shape at a pointer into a buffer. */
  ghost function Window(m: array<int>, off: nat, len: nat): (s: Mat)
    requires off + len <= m.Length
    reads m
    ensures |s| == len
  {
    m[off..off + len]
  }

  function CellFrom(m: array<int>, off: nat, rows: nat, cols: nat, r: int, c: int): (v: int)
    requires off + rows * cols <= m.Length && 0 <= r < rows && 0 <= c < cols
    reads m
    ensures v == At(Window(m, off, rows * cols), cols, r, c)
  {
    IndexBound(rows, cols, r, c);
    m[off + cols * r + c]
  }

  method InnerProduct(a: array<int>, ao: nat, b: array<int>, bo: nat, k: nat, cols: nat, r: int, c: int)
    returns (v: int)
    requires ao + k * k <= a.Length && bo + k * cols <= b.Length && 0 <= r < k && 0 <= c < cols
    ensures v == Mod(Entry(k, Window(a, ao, k * k), Window(b, bo, k * cols), cols, r, c))
  {
    hide At;
    hide Window;
    ghost var left, right := Window(a, ao, k * k), Window(b, bo, k * cols);
    var val := 0;
    for i := 0 to k
      invariant val == PartialEntry(k, left, right, cols, r, c, i)
    {
      var x := CellFrom(a, ao, k, k, r, i);
      var y := CellFrom(b, bo, k, cols, i, c);
      val := val + x * y;
    }
    v := Mod(val);
  }

  /** The running value of the inner product after i terms. */
  ghost function PartialEntry(k: nat, a: Mat, b: Mat, cols: nat, r: int, c: int, i: nat): int {
    Sum(i, i => At(a, k, r, i) * At(b, cols, i, c))
  }

  /** The accumulator never leaves 64 bits: entries have at most 16 bits, and there are at most 2^31 of
      them in a row. */
  lemma {:induction false} AccumulatorFits(k: nat, a: Mat, b: Mat, cols: nat, r: int, c: int, i: nat)
    requires i <= k <= 0x8000_0000
    requires forall j :: 0 <= j < k ==> 0 <= At(a, k, r, j) <= 0xFFFF && 0 <= At(b, cols, j, c) <= 0xFFFF
    ensures 0 <= PartialEntry(k, a, b, cols, r, c, i) <= i * 0xFFFE_0001 < 0x1_0000_0000_0000_0000
  {
    hide At;
    if i > 0 {
      var j := i - 1;
      var x, y := At(a, k, r, j), At(b, cols, j, c);
      AccumulatorFits(k, a, b, cols, r, c, j);
      MulLe(0, x, y);
      MulLe(x, 0xFFFF, y);
    }
  }

  /** pmod_mat_mul with a square left factor (the sum runs over A_r): c may alias a or b, because the
      product is collected in a local buffer first. */
  method MatMul(c: array<int>, co: nat, a: array<int>, ao: nat, k: nat, b: array<int>, bo: nat, cols: nat)
    requires co + k * cols <= c.Length && ao + k * k <= a.Length && bo + k * cols <= b.Length
    modifies c
    ensures Window(c, co, k * cols) == Times(k, old(Window(a, ao, k * k)), old(Window(b, bo, k * cols)), cols)
    ensures c[..co] == old(c[..co]) && c[co + k * cols..] == old(c[co + k * cols..])
  {
    hide At, Window, IsProduct;
    ghost var left, right := Window(a, ao, k * k), Window(b, bo, k * cols);
    var tmp := new int[k * cols](_ => 0);
    NoProduct(tmp[..], k, left, right, cols);
    for j := 0 to cols
      invariant fresh(tmp) && Window(a, ao, k * k) == left && Window(b, bo, k * cols) == right && c[..] == old(c[..])
      invariant IsProduct(tmp[..], k, left, right, cols, j, 0)
    {
      for r := 0 to k
        invariant fresh(tmp) && Window(a, ao, k * k) == left && Window(b, bo, k * cols) == right && c[..] == old(c[..])
        invariant IsProduct(tmp[..], k, left, right, cols, j, r)
      {
        ghost var t := tmp[..];
        var v := InnerProduct(a, ao, b, bo, k, cols, r, j);
        SetCell(tmp, k, cols, r, j, v);
        ProductStep(t, tmp[..], k, left, right, cols, j, r);
      }
      ProductColumn(tmp[..], k, left, right, cols, j);
    }
    WholeProduct(tmp[..], k, left, right, cols);
    CopyTo(c, co, tmp);
  }

  /** The columns before j of the product are there, and the first rows of column j. */
  ghost predicate IsProduct(t: Mat, k: nat, a: Mat, b: Mat, cols: nat, j: nat, rows: nat) {
    && |t| == k * cols
    && forall r, q :: 0 <= r < k && 0 <= q < cols && (q < j || (q == j && r < rows)) ==>
      At(t, cols, r, q) == Mod(Entry(k, a, b, cols, r, q))
  }

  lemma NoProduct(t: Mat, k: nat, a: Mat, b: Mat, cols: nat)
    requires |t| == k * cols
    ensures IsProduct(t, k, a, b, cols, 0, 0)
  {
  }

  lemma ProductStep(t: Mat, t': Mat, k: nat, a: Mat, b: Mat, cols: nat, j: nat, r: nat)
    requires IsProduct(t, k, a, b, cols, j, r) && r < k && j < cols && |t'| == |t|
    requires forall i, q :: 0 <= q < cols ==>
      At(t', cols, i, q) == if i == r && q == j then Mod(Entry(k, a, b, cols, r, j)) else At(t, cols, i, q)
    ensures IsProduct(t', k, a, b, cols, j, r + 1)
  {
    hide At;
  }

  lemma ProductColumn(t: Mat, k: nat, a: Mat, b: Mat, cols: nat, j: nat)
    requires IsProduct(t, k, a, b, cols, j, k)
    ensures IsProduct(t, k, a, b, cols, j + 1, 0)
  {
    hide At;
  }

  lemma WholeProduct(t: Mat, k: nat, a: Mat, b: Mat, cols: nat)
    requires IsProduct(t, k, a, b, cols, cols, 0)
    ensures t == Times(k, a, b, cols)
  {
    hide At, Times;
    forall r, q | 0 <= r < k && 0 <= q < cols ensures At(t, cols, r, q) == At(Times(k, a, b, cols), cols, r, q) {
      TimesAt(k, a, b, cols, r, q);
    }
    MatEqual(k, cols, t, Times(k, a, b, cols));
  }

  method CopyTo(c: array<int>, co: nat, tmp: array<int>)
    requires co + tmp.Length <= c.Length && c != tmp
    modifies c
    ensures Window(c, co, tmp.Length) == tmp[..]
    ensures c[..co] == old(c[..co]) && c[co + tmp.Length..] == old(c[co + tmp.Length..])
  {
    for i := 0 to tmp.Length
      invariant c[co..co + i] == tmp[..i]
      invariant c[..co] == old(c[..co]) && c[co + tmp.Length..] == old(c[co + tmp.Length..])
    {
      c[co + i] := tmp[i];
    }
  }

  // ----- pi -----

  /** Length of one code word: an n x n matrix. */
  const NN: nat := N * N

  /** The l-th basis word of g, as an n x n matrix. */
  ghost function Block(g: Mat, l: int): (s: Mat)
    ensures |s| == NN
  {
    Build(N, N, (a, b) => At(g, NN, l, N * a + b))
  }

  lemma BlockAt(g: Mat, l: int, a: int, b: int)
    requires 0 <= a < N && 0 <= b < N
    ensures At(Block(g, l), N, a, b) == At(g, NN, l, N * a + b)
  {
    hide At;
    BuildAt(N, N, (a, b) => At(g, NN, l, N * a + b), a, b);
  }

  /** a * word * b */
  ghost function Conjugate(a: Mat, b: Mat, word: Mat): (s: Mat)
    ensures |s| == NN
  {
    Times(N, Times(N, a, word, N), b, N)
  }

  /** The action of (a, b) on a code: every basis word is multiplied on both sides. */
  ghost function Pi(a: Mat, b: Mat, g: Mat): (s: Mat)
    ensures |s| == N * NN
  {
    Build(N, NN, (l, c) => At(Conjugate(a, b, Block(g, l)), N, c / N, c % N))
  }

  lemma PiAt(a: Mat, b: Mat, g: Mat, l: int, c: int)
    requires 0 <= l < N && 0 <= c < NN
    ensures 0 <= c / N < N && 0 <= c % N < N && c == N * (c / N) + c % N
    ensures At(Pi(a, b, g), NN, l, c) == At(Conjugate(a, b, Block(g, l)), N, c / N, c % N)
  {
    hide At;
    hide Conjugate;
    IndexSplit(N, N, c);
    BuildAt(N, NN, (l, c) => At(Conjugate(a, b, Block(g, l)), N, c / N, c % N), l, c);
  }

  lemma BlockOfPi(a: Mat, b: Mat, g: Mat, l: int)
    requires 0 <= l < N
    ensures Block(Pi(a, b, g), l) == Conjugate(a, b, Block(g, l))
  {
    hide At;
    hide Conjugate;
    forall i, j | 0 <= i < N && 0 <= j < N
      ensures At(Block(Pi(a, b, g), l), N, i, j) == At(Conjugate(a, b, Block(g, l)), N, i, j)
    {
      BlockAt(Pi(a, b, g), l, i, j);
      IndexBound(N, N, i, j);
      PiAt(a, b, g, l, N * i + j);
      IndexInjective(N, i, j, (N * i + j) / N, (N * i + j) % N);
    }
    MatEqual(N, N, Block(Pi(a, b, g), l), Conjugate(a, b, Block(g, l)));
  }

  lemma PiReduced(a: Mat, b: Mat, g: Mat)
    ensures Reduced(Pi(a, b, g))
  {
    hide At;
    forall l, c | 0 <= l < N && 0 <= c < NN ensures 0 <= At(Pi(a, b, g), NN, l, c) < P {
      PiAt(a, b, g, l, c);
      TimesReduced(N, Times(N, a, Block(g, l), N), b, N);
      AtReduced(Conjugate(a, b, Block(g, l)), N, c / N, c % N);
    }
    ReducedByEntries(N, NN, Pi(a, b, g));
  }

  /** Codes that agree word by word are equal. */
  lemma BlocksEqual(g: Mat, g': Mat)
    requires |g| == |g'| == N * NN && forall l :: 0 <= l < N ==> Block(g, l) == Block(g', l)
    ensures g == g'
  {
    hide At;
    forall l, c | 0 <= l < N && 0 <= c < NN ensures At(g, NN, l, c) == At(g', NN, l, c) {
      IndexSplit(N, N, c);
      BlockAt(g, l, c / N, c % N);
      BlockAt(g', l, c / N, c % N);
    }
    MatEqual(N, NN, g, g');
  }

  /** pi is an action of pairs of matrices. */
  lemma PiCompose(a1: Mat, b1: Mat, a2: Mat, b2: Mat, g: Mat)
    ensures Pi(a1, b1, Pi(a2, b2, g)) == Pi(Times(N, a1, a2, N), Times(N, b2, b1, N), g)
  {
    hide Pi;
    forall l | 0 <= l < N
      ensures Block(Pi(a1, b1, Pi(a2, b2, g)), l) == Block(Pi(Times(N, a1, a2, N), Times(N, b2, b1, N), g), l)
    {
      var w := Block(g, l);
      BlockOfPi(a1, b1, Pi(a2, b2, g), l);
      BlockOfPi(a2, b2, g, l);
      BlockOfPi(Times(N, a1, a2, N), Times(N, b2, b1, N), g, l);
      ConjugateCompose(a1, b1, a2, b2, w);
    }
    BlocksEqual(Pi(a1, b1, Pi(a2, b2, g)), Pi(Times(N, a1, a2, N), Times(N, b2, b1, N), g));
  }

  lemma ConjugateCompose(a1: Mat, b1: Mat, a2: Mat, b2: Mat, w: Mat)
    ensures Conjugate(a1, b1, Conjugate(a2, b2, w)) == Conjugate(Times(N, a1, a2, N), Times(N, b2, b1, N), w)
  {
    hide Times;
    var aw := Times(N, a2, w, N);
    TimesAssoc(N, a1, aw, b2, N);
    TimesAssoc(N, Times(N, a1, aw, N), b2, b1, N);
    TimesAssoc(N, a1, a2, w, N);
  }

  lemma PiIdentity(g: Mat)
    requires |g| == N * NN && Reduced(g)
    ensures Pi(Identity(N), Identity(N), g) == g
  {
    forall l | 0 <= l < N ensures Block(Pi(Identity(N), Identity(N), g), l) == Block(g, l) {
      BlockOfPi(Identity(N), Identity(N), g, l);
      BlockReduced(g, l);
      TimesIdentityLeft(N, Block(g, l), N);
      TimesIdentityRight(N, Block(g, l));
    }
    BlocksEqual(Pi(Identity(N), Identity(N), g), g);
  }

  lemma BlockReduced(g: Mat, l: int)
    requires Reduced(g)
    ensures Reduced(Block(g, l))
  {
    hide At;
    forall a, b | 0 <= a < N && 0 <= b < N ensures 0 <= At(Block(g, l), N, a, b) < P {
      BlockAt(g, l, a, b);
      AtReduced(g, NN, l, N * a + b);
    }
    ReducedByEntries(N, N, Block(g, l));
  }

  // ----- pi commutes with a change of basis -----

  /** x is the combination of the words y(i) with weights f(i). */
  ghost predicate Combines(x: Mat, f: int -> int, y: int -> Mat) {
    forall a, b :: 0 <= a < N && 0 <= b < N ==>
      Mod(At(x, N, a, b)) == Mod(Sum(N, i => f(i) * At(y(i), N, a, b)))
  }

  /** If x = sum_i f(i) y_i, then x . m = sum_i f(i) (y_i . m), for one inner product. */
  lemma CombineInner(f: int -> int, x: int -> int, y: (int, int) -> int, m: int -> int, z: int -> int, w: int)
    requires forall b :: 0 <= b < N ==> Mod(x(b)) == Mod(Sum(N, i => f(i) * y(i, b)))
    requires forall i :: 0 <= i < N ==> Mod(z(i)) == Mod(Sum(N, b => y(i, b) * m(b)))
    requires Mod(w) == Mod(Sum(N, b => x(b) * m(b)))
    ensures Mod(w) == Mod(Sum(N, i => f(i) * z(i)))
  {
    var mid := b => Sum(N, i => f(i) * y(i, b)) * m(b);
    forall b | 0 <= b < N ensures Mod(x(b) * m(b)) == Mod(mid(b)) {
      ModFactor(x(b), Sum(N, i => f(i) * y(i, b)), m(b));
    }
    SumMod(N, b => x(b) * m(b), mid);
    SumRegroup(N, N, f, y, m);
    SumEq(N, mid, b => Sum(N, i => f(i) * y(i, b)) * m(b));
    var outer := i => f(i) * Sum(N, b => y(i, b) * m(b));
    forall i | 0 <= i < N ensures Mod(outer(i)) == Mod(f(i) * z(i)) {
      ModMul(f(i), f(i), Sum(N, b => y(i, b) * m(b)), z(i));
    }
    SumMod(N, outer, i => f(i) * z(i));
    SumEq(N, outer, i => f(i) * Sum(N, b => y(i, b) * m(b)));
  }

  lemma CombinesRight(x: Mat, f: int -> int, y: int -> Mat, m: Mat)
    requires Combines(x, f, y)
    ensures Combines(Times(N, x, m, N), f, i => Times(N, y(i), m, N))
  {
    hide At;
    hide Times;
    var t: int -> Mat := i => Times(N, y(i), m, N);
    forall a, g | 0 <= a < N && 0 <= g < N
      ensures Mod(At(Times(N, x, m, N), N, a, g)) == Mod(Sum(N, i => f(i) * At(t(i), N, a, g)))
    {
      var xl, yl, ml := b => At(x, N, a, b), (i, b) => At(y(i), N, a, b), b => At(m, N, b, g);
      var z := i => At(t(i), N, a, g);
      forall b | 0 <= b < N ensures Mod(xl(b)) == Mod(Sum(N, i => f(i) * yl(i, b))) {
        SumEq(N, i => f(i) * yl(i, b), i => f(i) * At(y(i), N, a, b));
      }
      forall i | 0 <= i < N ensures Mod(z(i)) == Mod(Sum(N, b => yl(i, b) * ml(b))) {
        TimesAt(N, y(i), m, N, a, g);
        ModIdem(Entry(N, y(i), m, N, a, g));
        SumEq(N, b => yl(i, b) * ml(b), b => At(y(i), N, a, b) * At(m, N, b, g));
      }
      TimesAt(N, x, m, N, a, g);
      ModIdem(Entry(N, x, m, N, a, g));
      SumEq(N, b => xl(b) * ml(b), b => At(x, N, a, b) * At(m, N, b, g));
      CombineInner(f, xl, yl, ml, z, At(Times(N, x, m, N), N, a, g));
      SumEq(N, i => f(i) * z(i), i => f(i) * At(t(i), N, a, g));
    }
    CombinesFamily(Times(N, x, m, N), f, t, i => Times(N, y(i), m, N));
  }

  /** Entry (a, g) of m * x with the factors of each term exchanged. */
  lemma FlippedEntry(x: Mat, m: Mat, a: int, g: int)
    requires 0 <= a < N && 0 <= g < N
    ensures Mod(At(Times(N, m, x, N), N, a, g)) == Mod(Sum(N, b => At(x, N, b, g) * At(m, N, a, b)))
  {
    hide At;
    TimesAt(N, m, x, N, a, g);
    ModIdem(Entry(N, m, x, N, a, g));
    SumEq(N, b => At(m, N, a, b) * At(x, N, b, g), b => At(x, N, b, g) * At(m, N, a, b));
    SumEq(N, b => At(m, N, a, b) * At(x, N, b, g), i => At(m, N, a, i) * At(x, N, i, g));
  }

  lemma CombinesLeft(x: Mat, f: int -> int, y: int -> Mat, m: Mat)
    requires Combines(x, f, y)
    ensures Combines(Times(N, m, x, N), f, i => Times(N, m, y(i), N))
  {
    hide At;
    hide Times;
    var t: int -> Mat := i => Times(N, m, y(i), N);
    forall a, g | 0 <= a < N && 0 <= g < N
      ensures Mod(At(Times(N, m, x, N), N, a, g)) == Mod(Sum(N, i => f(i) * At(t(i), N, a, g)))
    {
      var xl, yl, ml := b => At(x, N, b, g), (i, b) => At(y(i), N, b, g), b => At(m, N, a, b);
      var z := i => At(t(i), N, a, g);
      forall b | 0 <= b < N ensures Mod(xl(b)) == Mod(Sum(N, i => f(i) * yl(i, b))) {
        SumEq(N, i => f(i) * yl(i, b), i => f(i) * At(y(i), N, b, g));
      }
      forall i | 0 <= i < N ensures Mod(z(i)) == Mod(Sum(N, b => yl(i, b) * ml(b))) {
        FlippedEntry(y(i), m, a, g);
        SumEq(N, b => yl(i, b) * ml(b), b => At(y(i), N, b, g) * At(m, N, a, b));
      }
      FlippedEntry(x, m, a, g);
      SumEq(N, b => xl(b) * ml(b), b => At(x, N, b, g) * At(m, N, a, b));
      CombineInner(f, xl, yl, ml, z, At(Times(N, m, x, N), N, a, g));
      SumEq(N, i => f(i) * z(i), i => f(i) * At(t(i), N, a, g));
    }
    CombinesFamily(Times(N, m, x, N), f, t, i => Times(N, m, y(i), N));
  }

  lemma CombinesFamily(x: Mat, f: int -> int, y: int -> Mat, y': int -> Mat)
    requires forall i :: 0 <= i < N ==> y(i) == y'(i)
    requires forall a, b :: 0 <= a < N && 0 <= b < N ==>
      Mod(At(x, N, a, b)) == Mod(Sum(N, i => f(i) * At(y(i), N, a, b)))
    ensures Combines(x, f, y')
  {
    hide At;
    forall a, b | 0 <= a < N && 0 <= b < N
      ensures Mod(At(x, N, a, b)) == Mod(Sum(N, i => f(i) * At(y'(i), N, a, b)))
    {
      SumEq(N, i => f(i) * At(y(i), N, a, b), i => f(i) * At(y'(i), N, a, b));
    }
  }

  /** pi commutes with every change of basis of the code. */
  lemma PiChangeOfBasis(a: Mat, b: Mat, t: Mat, g: Mat)
    ensures Pi(a, b, Times(N, t, g, NN)) == Times(N, t, Pi(a, b, g), NN)
  {
    hide At;
    hide Pi;
    hide Block;
    var tg := Times(N, t, g, NN);
    forall l, c | 0 <= l < N && 0 <= c < NN
      ensures At(Pi(a, b, tg), NN, l, c) == At(Times(N, t, Pi(a, b, g), NN), NN, l, c)
    {
      PiAt(a, b, tg, l, c);
      TimesAt(N, t, Pi(a, b, g), NN, l, c);
      BasisEntry(a, b, t, g, l, c / N, c % N);
      var f, z := i => At(t, N, l, i), i => At(Conjugate(a, b, Block(g, i)), N, c / N, c % N);
      forall i | 0 <= i < N ensures f(i) * z(i) == At(t, N, l, i) * At(Pi(a, b, g), NN, i, c) {
        PiAt(a, b, g, i, c);
      }
      SumEq(N, i => f(i) * z(i), i => At(t, N, l, i) * At(Pi(a, b, g), NN, i, c));
      SumEq(N, i => f(i) * z(i), i => At(t, N, l, i) * At(Conjugate(a, b, Block(g, i)), N, c / N, c % N));
      TimesReduced(N, Times(N, a, Block(tg, l), N), b, N);
      AtReduced(Conjugate(a, b, Block(tg, l)), N, c / N, c % N);
      ModIdem(At(Pi(a, b, tg), NN, l, c));
    }
    MatEqual(N, NN, Pi(a, b, tg), Times(N, t, Pi(a, b, g), NN));
  }

  lemma BasisEntry(a: Mat, b: Mat, t: Mat, g: Mat, l: int, j: int, q: int)
    requires 0 <= l < N && 0 <= j < N && 0 <= q < N
    ensures Mod(At(Conjugate(a, b, Block(Times(N, t, g, NN), l)), N, j, q))
         == Mod(Sum(N, i => At(t, N, l, i) * At(Conjugate(a, b, Block(g, i)), N, j, q)))
  {
    hide At;
    hide Times;
    var tg := Times(N, t, g, NN);
    var f, y: int -> Mat := i => At(t, N, l, i), i => Block(g, i);
    forall r, c | 0 <= r < N && 0 <= c < N
      ensures Mod(At(Block(tg, l), N, r, c)) == Mod(Sum(N, i => f(i) * At(y(i), N, r, c)))
    {
      BlockAt(tg, l, r, c);
      IndexBound(N, N, r, c);
      TimesAt(N, t, g, NN, l, N * r + c);
      ModIdem(Entry(N, t, g, NN, l, N * r + c));
      forall i | 0 <= i < N ensures At(t, N, l, i) * At(g, NN, i, N * r + c) == f(i) * At(y(i), N, r, c) {
        BlockAt(g, i, r, c);
      }
      SumEq(N, i => At(t, N, l, i) * At(g, NN, i, N * r + c), i => f(i) * At(y(i), N, r, c));
    }
    CombinesLeft(Block(tg, l), f, y, a);
    CombinesRight(Times(N, a, Block(tg, l), N), f, i => Times(N, a, y(i), N), b);
    CombinesFamily(Conjugate(a, b, Block(tg, l)), f, i => Times(N, (i => Times(N, a, y(i), N))(i), b, N),
      i => Conjugate(a, b, Block(g, i)));
    SumEq(N, i => f(i) * At((i => Conjugate(a, b, Block(g, i)))(i), N, j, q),
      i => At(t, N, l, i) * At(Conjugate(a, b, Block(g, i)), N, j, q));
  }

  // ----- the verification equation -----

  lemma TimesIsLeftMultiple(k: nat, a: Mat, b: Mat, cols: nat)
    ensures LeftMultiple(Times(k, a, b, cols), a, b, k, cols)
  {
    hide At;
    forall r, c | 0 <= r < k && 0 <= c < cols
      ensures Mod(At(Times(k, a, b, cols), cols, r, c)) == Mod(Sum(k, l => At(a, k, r, l) * At(b, cols, l, c)))
    {
      TimesAt(k, a, b, cols, r, c);
      ModIdem(Entry(k, a, b, cols, r, c));
      SumEq(k, i => At(a, k, r, i) * At(b, cols, i, c), l => At(a, k, r, l) * At(b, cols, l, c));
    }
  }

  /** The product of nonsingular matrices is nonsingular. */
  lemma ProductNonsingular(k: nat, a: Mat, b: Mat)
    requires !Singular(a, k, k) && !Singular(b, k, k)
    ensures !Singular(Times(k, a, b, k), k, k)
  {
    TimesIsLeftMultiple(k, a, b, k);
    LeftMultipleKernel(Times(k, a, b, k), a, b, k, k);
    if Singular(Times(k, a, b, k), k, k) {
      SingularOfKernel(b, Times(k, a, b, k), k, k);
    }
  }

  function LeftBlock(h: Mat, k: nat, cols: nat): (f: Mat)
    ensures |f| == k * k
  {
    Build(k, k, (r, l) => At(h, cols, r, l))
  }

  lemma LeftBlockNonsingular(h: Mat, k: nat, cols: nat)
    requires k <= cols && !Singular(h, k, cols)
    ensures !Singular(LeftBlock(h, k, cols), k, k)
  {
    hide At;
    var f := LeftBlock(h, k, cols);
    forall x: Vec | InKernel(f, k, k, x) ensures !Nonzero(x, k) {
      var y: Vec := c => if c < k then x(c) else 0;
      forall r | 0 <= r < k ensures Mod(Dot(h, cols, r, y)) == 0 {
        SumTail(cols, k, c => At(h, cols, r, c) * y(c));
        forall c | 0 <= c < k ensures At(f, k, r, c) == At(h, cols, r, c) {
          BuildAt(k, k, (r, l) => At(h, cols, r, l), r, c);
        }
        SumEq(k, c => At(h, cols, r, c) * y(c), c => At(f, k, r, c) * x(c));
        assert Mod(Dot(f, k, r, x)) == 0;
      }
      assert InKernel(h, k, cols, y) && Supported(y, k, cols);
      assert !Nonzero(y, k);
      assert forall c :: 0 <= c < k ==> x(c) == y(c);
    }
  }

  /** Row reduction is a change of basis by the (nonsingular) left block. */
  lemma SystFormIsChangeOfBasis(h: Mat, t: Mat, k: nat, cols: nat)
    requires k <= cols && |h| == k * cols && Reduced(h) && SystForm(h, k, cols) == Some(t)
    ensures h == Times(k, LeftBlock(h, k, cols), t, cols)
    ensures !Singular(LeftBlock(h, k, cols), k, k)
  {
    SystFormNonsingular(h, k, cols);
    LeftBlockNonsingular(h, k, cols);
    hide At;
    var f := LeftBlock(h, k, cols);
    forall r, c | 0 <= r < k && 0 <= c < cols ensures At(h, cols, r, c) == At(Times(k, f, t, cols), cols, r, c) {
      SystFormFactor(h, t, k, cols, r, c);
      forall l | 0 <= l < k ensures At(f, k, r, l) == At(h, cols, r, l) {
        BuildAt(k, k, (r, l) => At(h, cols, r, l), r, l);
      }
      SumEq(k, l => At(h, cols, r, l) * At(t, cols, l, c), i => At(f, k, r, i) * At(t, cols, i, c));
      TimesAt(k, f, t, cols, r, c);
      AtReduced(h, cols, r, c);
      ModIdem(At(h, cols, r, c));
    }
    MatEqual(k, cols, h, Times(k, f, t, cols));
  }


  lemma LeftBlockReduced(h: Mat, k: nat, cols: nat)
    requires k <= cols && Reduced(h)
    ensures Reduced(LeftBlock(h, k, cols))
  {
    hide At;
    forall r, c | 0 <= r < k && 0 <= c < k ensures 0 <= At(LeftBlock(h, k, cols), k, r, c) < P {
      BuildAt(k, k, (r, l) => At(h, cols, r, l), r, c);
      AtReduced(h, cols, r, c);
    }
    ReducedByEntries(k, k, LeftBlock(h, k, cols));
  }

  /** The inverse of the left block carries the code to its systematic form. */
  lemma InverseGivesSystForm(h: Mat, t: Mat, l: Mat, k: nat, cols: nat)
    requires k <= cols && |h| == k * cols && Reduced(h) && SystForm(h, k, cols) == Some(t)
    requires IsInverse(k, LeftBlock(h, k, cols), l)
    ensures t == Times(k, l, h, cols)
  {
    assert IsSystForm(h, t, k, cols);
    assert |t| == k * cols && Reduced(t);
    hide SystForm, LeftBlock, Times, Singular, IsSystForm;
    SystFormIsChangeOfBasis(h, t, k, cols);
    TimesAssoc(k, l, LeftBlock(h, k, cols), t, cols);
    TimesIdentityLeft(k, t, cols);
  }

  /** pmod_mat_syst_ct next to pmod_mat_inv on the left block: the systematic form is T = L M for the matrix L
      that inverts the left block of M. */
  method ChangeOfBasis(m: array<int>, k: nat, cols: nat) returns (ret: int, l: array<int>)
    requires k <= cols && m.Length == k * cols && Reduced(m[..])
    modifies m
    ensures fresh(l) && (ret == 0 || ret == -1)
    ensures ret == 0 <==> !Singular(old(m[..]), k, cols)
    ensures ret == 0 ==> SystForm(old(m[..]), k, cols) == Some(m[..])
    ensures ret == 0 ==> IsInverse(k, LeftBlock(old(m[..]), k, cols), l[..])
    ensures ret == 0 ==> m[..] == Times(k, l[..], old(m[..]), cols)
  {
    hide SystForm, LeftBlock, Times, Singular, SameKernel, Systematic, RowsKept, InverseOf;
    var h := m[..];
    var left := LeftBlock(h, k, cols);
    var f := new int[k * k](i requires 0 <= i < |left| => left[i]);
    assert f[..] == left;
    LeftBlockReduced(h, k, cols);
    l := new int[k * k](_ => 0);
    ret := SystCt(m, k, cols);
    if ret == 0 {
      ghost var t := m[..];
      SystFormIsChangeOfBasis(h, t, k, cols);
      var inverted := MatInv(l, f, k);
      assert m[..] == t;
      InverseGivesSystForm(h, t, l[..], k, cols);
    }
  }
  /** The response (A~ A^-1, B^-1 B~) carries the public code G_h to the commitment: the systematic
      form the verifier computes from it is the one the signer hashed. */
  lemma ResponseMatchesCommitment(
      a: Mat, aInv: Mat, b: Mat, bInv: Mat, at: Mat, bt: Mat, g0: Mat, gh: Mat)
    requires |at| == |bt| == NN && Reduced(at) && Reduced(bt)
    requires IsInverse(N, a, aInv) && IsInverse(N, bInv, b)
    requires SystForm(Pi(a, b, g0), N, NN) == Some(gh)
    ensures SystForm(Pi(Times(N, at, aInv, N), Times(N, bInv, bt, N), gh), N, NN)
         == SystForm(Pi(at, bt, g0), N, NN)
  {
    hide Pi;
    hide Times;
    var h, mu, nu := Pi(a, b, g0), Times(N, at, aInv, N), Times(N, bInv, bt, N);
    assert N <= NN by { MulMonotone(N, N); }
    PiReduced(a, b, g0);
    SystFormIsChangeOfBasis(h, gh, N, NN);
    var f := LeftBlock(h, N, NN);
    calc {
      Times(N, f, Pi(mu, nu, gh), NN);
      { PiChangeOfBasis(mu, nu, f, gh); }
      Pi(mu, nu, h);
      { PiCompose(mu, nu, a, b, g0); }
      Pi(Times(N, mu, a, N), Times(N, b, nu, N), g0);
      { TimesAssoc(N, at, aInv, a, N); TimesIdentityRight(N, at); }
      Pi(at, Times(N, b, nu, N), g0);
      { TimesAssoc(N, b, bInv, bt, N); TimesIdentityLeft(N, bt, N); }
      Pi(at, bt, g0);
    }
    TimesIsLeftMultiple(N, f, Pi(mu, nu, gh), NN);
    LeftMultipleKernel(Pi(at, bt, g0), f, Pi(mu, nu, gh), N, NN);
  }

  // ----- the method -----

  lemma WindowCell(g: Mat, cols: nat, l: nat, off: nat, i: nat)
    requires off == cols * l && i < cols && off + cols <= |g|
    ensures At(g, cols, l, i) == g[off..off + cols][i]
  {
  }

  lemma RowOffset(rows: nat, cols: nat, l: nat)
    requires l < rows
    ensures cols * l + cols <= rows * cols && cols * (l + 1) == cols * l + cols
  {
    MulLe(l + 1, rows, cols);
    MulAdd(l, 1, cols);
    MulCommutes(l, cols);
    MulCommutes(l + 1, cols);
  }

  lemma BlockIsWindow(g: Mat, l: nat, off: nat)
    requires |g| == N * NN && l < N && off == NN * l
    ensures off + NN <= |g| && Block(g, l) == g[off..off + NN]
  {
    RowOffset(N, NN, l);
    var w := g[off..off + NN];
    forall a, b | 0 <= a < N && 0 <= b < N ensures At(Block(g, l), N, a, b) == At(w, N, a, b) {
      BlockAt(g, l, a, b);
      IndexBound(N, N, a, b);
      WindowCell(g, NN, l, off, N * a + b);
    }
    hide At;
    MatEqual(N, N, Block(g, l), w);
  }

  method ConjugateInto(gout: array<int>, a: array<int>, b: array<int>, g: array<int>, off: nat)
    requires off + NN <= gout.Length == g.Length && a.Length == b.Length == NN
    requires gout != a && gout != b
    modifies gout
    ensures Window(gout, off, NN) == Conjugate(a[..], b[..], old(Window(g, off, NN)))
    ensures gout[..off] == old(gout[..off]) && gout[off + NN..] == old(gout[off + NN..])
  {
    hide Times;
    MatMul(gout, off, a, 0, N, g, off, N);
    assert a[..] == Window(a, 0, NN) && b[..] == Window(b, 0, NN);
    MatMul(gout, off, gout, off, N, b, 0, N);
  }

  lemma ExtendPrefix(s: Mat, t: Mat, off: nat, len: nat)
    requires off + len <= |s| == |t| && s[..off] == t[..off] && s[off..off + len] == t[off..off + len]
    ensures s[..off + len] == t[..off + len]
  {
    assert s[..off + len] == s[..off] + s[off..off + len];
    assert t[..off + len] == t[..off] + t[off..off + len];
  }

  lemma DropWindow(s: Mat, t: Mat, off: nat, len: nat)
    requires off + len <= |s| == |t| && s[off..] == t[off..]
    ensures s[off..off + len] == t[off..off + len] && s[off + len..] == t[off + len..]
  {
    assert s[off..off + len] == s[off..][..len] && t[off..off + len] == t[off..][..len];
    assert s[off + len..] == s[off..][len..] && t[off + len..] == t[off..][len..];
  }

  /** The words up to off are done, those from off on still hold the input. */
  ghost predicate PiProgress(gout: Mat, g: Mat, res: Mat, g0: Mat, off: nat, l: nat) {
    && |gout| == |g| == |res| == |g0| && off == NN * l && off <= |res|
    && gout[..off] == res[..off] && g[off..] == g0[off..]
  }

  lemma PiProgressStep(gout: Mat, g: Mat, gout': Mat, g': Mat, a: Mat, b: Mat, g0: Mat, off: nat, l: nat)
    requires |g0| == N * NN && l < N && PiProgress(gout, g, Pi(a, b, g0), g0, off, l)
    requires off + NN <= |gout'| == |gout| && |g'| == |g|
    requires gout'[..off] == gout[..off] && (g' == g || g'[off + NN..] == g[off + NN..])
    requires gout'[off..off + NN] == Conjugate(a, b, g[off..off + NN])
    ensures PiProgress(gout', g', Pi(a, b, g0), g0, off + NN, l + 1)
  {
    var res := Pi(a, b, g0);
    hide Pi;
    hide Conjugate;
    BlockIsWindow(g0, l, off);
    BlockIsWindow(res, l, off);
    BlockOfPi(a, b, g0, l);
    DropWindow(g, g0, off, NN);
    ExtendPrefix(gout', res, off, NN);
    RowOffset(N, NN, l);
  }

  /** One word of pi. */
  method PiWord(gout: array<int>, a: array<int>, b: array<int>, g: array<int>, off: nat, l: nat, ghost g0: Mat)
    requires gout.Length == g.Length == |g0| == N * NN && a.Length == b.Length == NN && gout != a && gout != b
    requires l < N && PiProgress(gout[..], g[..], Pi(a[..], b[..], g0), g0, off, l)
    modifies gout
    ensures PiProgress(gout[..], g[..], Pi(a[..], b[..], g0), g0, off + NN, l + 1)
  {
    hide Pi, Conjugate;
    ghost var a0, b0, gout1, g1 := a[..], b[..], gout[..], g[..];
    BlockIsWindow(g0, l, off);
    ConjugateInto(gout, a, b, g, off);
    assert a[..] == a0 && b[..] == b0;
    hide PiProgress;
    PiProgressStep(gout1, g1, gout[..], g[..], a0, b0, g0, off, l);
  }

  /** pi, in place or not: gout may be the buffer of g. */
  method PiInto(gout: array<int>, a: array<int>, b: array<int>, g: array<int>)
    requires gout.Length == g.Length == N * NN && a.Length == b.Length == NN
    requires gout != a && gout != b
    modifies gout
    ensures gout[..] == Pi(old(a[..]), old(b[..]), old(g[..]))
  {
    hide Pi, PiProgress;
    ghost var a0, b0, g0 := a[..], b[..], g[..];
    var off := 0;
    PiStarts(gout[..], g0, Pi(a0, b0, g0));
    for l := 0 to N
      invariant off >= 0 && a[..] == a0 && b[..] == b0 && PiProgress(gout[..], g[..], Pi(a0, b0, g0), g0, off, l)
    {
      PiWord(gout, a, b, g, off, l, g0);
      off := off + NN;
    }
    PiEnds(gout[..], g[..], Pi(a0, b0, g0), g0, off);
  }

  lemma PiStarts(gout: Mat, g: Mat, res: Mat)
    requires |gout| == |g| == |res|
    ensures PiProgress(gout, g, res, g, 0, 0)
  {
  }

  lemma PiEnds(gout: Mat, g: Mat, res: Mat, g0: Mat, off: nat)
    requires |res| == N * NN && PiProgress(gout, g, res, g0, off, N)
    ensures gout == res
  {
    MulCommutes(N, NN);
    assert gout[..off] == gout && res[..off] == res;
  }
}
