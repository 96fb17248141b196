/** Row-major matrices over GF(p) as flat sequences (include/matrixmod.h), their kernels, and the
    argument that makes row reduction canonical: a reduced matrix is determined by its kernel. */
module Matrix {
  import opened Params
  import opened Sums
  import opened Field
  import opened Loops

  type Mat = seq<int>

  ghost predicate Reduced(s: seq<int>) {
    forall i :: 0 <= i < |s| ==> 0 <= s[i] < P
  }

  /** pmod_mat_entry; total, so that sums can range over it freely. */
  function At(s: Mat, cols: nat, r: int, c: int): int {
    if 0 <= cols * r + c < |s| then s[cols * r + c] else 0
  }

  lemma IndexBound(rows: nat, cols: nat, r: int, c: int)
    requires 0 <= r < rows && 0 <= c < cols
    ensures 0 <= cols * r + c < rows * cols
  {
    assert cols * (r + 1) <= cols * rows by { assert (rows - (r + 1)) * cols >= 0; }
    assert cols * r >= 0;
  }

  lemma IndexInjective(cols: nat, r: int, c: int, r': int, c': int)
    requires 0 <= c < cols && 0 <= c' < cols && cols * r + c == cols * r' + c'
    ensures r == r' && c == c'
  {
    assert cols * (r - r') == c' - c;
    MulMonotone(r - r', cols);
  }

  /** The matrix with the given entries. */
  function Build(rows: nat, cols: nat, f: (int, int) -> int): (s: Mat)
    ensures |s| == rows * cols
  {
    seq(rows * cols, i requires 0 <= i < rows * cols => if cols == 0 then 0 else f(i / cols, i % cols))
  }

  lemma BuildAt(rows: nat, cols: nat, f: (int, int) -> int, r: int, c: int)
    requires 0 <= r < rows && 0 <= c < cols
    ensures At(Build(rows, cols, f), cols, r, c) == f(r, c)
  {
    IndexBound(rows, cols, r, c);
    var i := cols * r + c;
    assert i == cols * (i / cols) + i % cols;
    IndexInjective(cols, r, c, i / cols, i % cols);
  }

  lemma DivBelow(rows: nat, cols: nat, i: int)
    requires cols > 0 && i < rows * cols
    ensures i / cols < rows
  {
    assert i == cols * (i / cols) + i % cols;
    assert cols * rows - cols * (i / cols) == cols * (rows - i / cols);
    MulMonotone(rows - i / cols, cols);
  }

  lemma IndexSplit(rows: nat, cols: nat, i: int)
    requires 0 <= i < rows * cols
    ensures cols > 0 && 0 <= i / cols < rows && 0 <= i % cols < cols && i == cols * (i / cols) + i % cols
  {
    assert cols == 0 ==> rows * cols == 0;
    DivBelow(rows, cols, i);
  }

  /** Two matrices of equal shape with equal entries are equal. */
  lemma MatEqual(rows: nat, cols: nat, s: Mat, s': Mat)
    requires |s| == |s'| == rows * cols
    requires forall r, c :: 0 <= r < rows && 0 <= c < cols ==> At(s, cols, r, c) == At(s', cols, r, c)
    ensures s == s'
  {
    forall i | 0 <= i < |s| ensures s[i] == s'[i] {
      IndexSplit(rows, cols, i);
      assert At(s, cols, i / cols, i % cols) == At(s', cols, i / cols, i % cols);
    }
  }

  lemma AtReduced(s: Mat, cols: nat, r: int, c: int)
    requires Reduced(s)
    ensures 0 <= At(s, cols, r, c) < P
  {
  }

  // ----- kernels -----

  type Vec = int -> int

  ghost function Dot(s: Mat, cols: nat, r: int, x: Vec): int {
    Sum(cols, c => At(s, cols, r, c) * x(c))
  }

  ghost predicate InKernel(s: Mat, rows: nat, cols: nat, x: Vec) {
    forall r :: 0 <= r < rows ==> Mod(Dot(s, cols, r, x)) == 0
  }

  ghost predicate SameKernel(s: Mat, s': Mat, rows: nat, cols: nat) {
    forall x: Vec :: InKernel(s, rows, cols, x) <==> InKernel(s', rows, cols, x)
  }

  /** x is supported on the first k coordinates. */
  ghost predicate Supported(x: Vec, k: nat, cols: nat) {
    forall c :: k <= c < cols ==> x(c) == 0
  }

  ghost predicate Nonzero(x: Vec, k: nat) {
    exists c :: 0 <= c < k && Mod(x(c)) != 0
  }

  /** The left rows x rows block is singular: it sends a nonzero vector to zero. */
  ghost predicate Singular(s: Mat, rows: nat, cols: nat) {
    exists x: Vec :: InKernel(s, rows, cols, x) && Supported(x, rows, cols) && Nonzero(x, rows)
  }

  lemma DotMod(s: Mat, s': Mat, cols: nat, r: int, r': int, x: Vec)
    requires forall c :: 0 <= c < cols && x(c) != 0 ==> Mod(At(s, cols, r, c)) == Mod(At(s', cols, r', c))
    ensures Mod(Dot(s, cols, r, x)) == Mod(Dot(s', cols, r', x))
  {
    hide At;
    var f, g := c => At(s, cols, r, c) * x(c), c => At(s', cols, r', c) * x(c);
    forall c | 0 <= c < cols ensures Mod(f(c)) == Mod(g(c)) {
      if x(c) != 0 { ModMul(At(s, cols, r, c), At(s', cols, r', c), x(c), x(c)); }
    }
    SumMod(cols, f, g);
  }

  /** Replacing row r by a * row r + b * row r2 combines the products in the same way. */
  lemma DotCombine(s: Mat, s': Mat, cols: nat, r: int, r2: int, a: int, b: int, x: Vec)
    requires forall c :: 0 <= c < cols && x(c) != 0 ==>
      Mod(At(s', cols, r, c)) == Mod(a * At(s, cols, r, c) + b * At(s, cols, r2, c))
    ensures Mod(Dot(s', cols, r, x)) == Mod(a * Dot(s, cols, r, x) + b * Dot(s, cols, r2, x))
  {
    hide At;
    var f, g := c => At(s, cols, r, c) * x(c), c => At(s, cols, r2, c) * x(c);
    var h := c => a * f(c) + b * g(c);
    var f' := c => At(s', cols, r, c) * x(c);
    forall c | 0 <= c < cols ensures Mod(f'(c)) == Mod(h(c)) {
      var u, v, w := At(s, cols, r, c), At(s, cols, r2, c), x(c);
      if w != 0 { ModMul(At(s', cols, r, c), a * u + b * v, w, w); }
      CombineFactor(a, u, b, v, w);
    }
    SumMod(cols, f', h);
    SumLinear(cols, h, a, f, b, g);
  }

  lemma CombineFactor(a: int, u: int, b: int, v: int, w: int)
    ensures (a * u + b * v) * w == a * (u * w) + b * (v * w)
  {
    assert (a * u) * w == a * (u * w);
    assert (b * v) * w == b * (v * w);
  }

  ghost predicate RowCombination(s: Mat, s': Mat, rows: nat, cols: nat, r: int, r2: int, a: int, b: int) {
    && (forall c :: 0 <= c < cols ==>
      Mod(At(s', cols, r, c)) == Mod(a * At(s, cols, r, c) + b * At(s, cols, r2, c)))
    && forall i, c :: 0 <= i < rows && i != r && 0 <= c < cols ==> At(s', cols, i, c) == At(s, cols, i, c)
  }

  /** A row operation keeps a vector in or out of the kernel; columns where the vector is zero do not
      matter. */
  lemma RowOperationOnVector(s: Mat, s': Mat, rows: nat, cols: nat, r: int, r2: int, a: int, b: int, x: Vec)
    requires 0 <= r < rows && 0 <= r2 < rows && (r != r2 || b == 0) && Mod(a) != 0
    requires forall c :: 0 <= c < cols && x(c) != 0 ==>
      Mod(At(s', cols, r, c)) == Mod(a * At(s, cols, r, c) + b * At(s, cols, r2, c))
    requires forall i, c :: 0 <= i < rows && i != r && 0 <= c < cols && x(c) != 0 ==>
      At(s', cols, i, c) == At(s, cols, i, c)
    ensures InKernel(s, rows, cols, x) <==> InKernel(s', rows, cols, x)
  {
    hide At, Dot;
    forall i | 0 <= i < rows && i != r ensures Mod(Dot(s', cols, i, x)) == Mod(Dot(s, cols, i, x)) {
      DotMod(s', s, cols, i, i, x);
    }
    DotCombine(s, s', cols, r, r2, a, b, x);
    CombinationZero(a, Dot(s, cols, r, x), b, Dot(s, cols, r2, x), Dot(s', cols, r, x));
  }

  /** Every elementary row operation keeps the kernel. */
  lemma RowOperationKeepsKernel(s: Mat, s': Mat, rows: nat, cols: nat, r: int, r2: int, a: int, b: int)
    requires 0 <= r < rows && 0 <= r2 < rows && (r != r2 || b == 0) && Mod(a) != 0
    requires RowCombination(s, s', rows, cols, r, r2, a, b)
    ensures SameKernel(s, s', rows, cols)
  {
    hide At;
    forall x: Vec ensures InKernel(s, rows, cols, x) <==> InKernel(s', rows, cols, x) {
      RowOperationOnVector(s, s', rows, cols, r, r2, a, b, x);
    }
  }

  lemma CombinationZero(a: int, u: int, b: int, v: int, z: int)
    requires Mod(z) == Mod(a * u + b * v) && Mod(a) != 0
    ensures Mod(v) == 0 || b == 0 ==> (Mod(u) == 0 <==> Mod(z) == 0)
  {
    if Mod(v) == 0 || b == 0 {
      if b != 0 { ModMul(b, b, v, 0); }
      ModLinear(a * u, a * u, b * v, 0);
      if Mod(u) == 0 { ModMul(a, a, u, 0); }
      if Mod(z) == 0 { ModProductNonzero(a, u); }
    }
  }

  lemma SameKernelSelf(s: Mat, rows: nat, cols: nat)
    ensures SameKernel(s, s, rows, cols)
  {
  }

  lemma SameKernelFlip(s: Mat, s': Mat, rows: nat, cols: nat)
    requires SameKernel(s, s', rows, cols)
    ensures SameKernel(s', s, rows, cols)
  {
  }

  lemma SameKernelTrans(s: Mat, s': Mat, s'': Mat, rows: nat, cols: nat)
    requires SameKernel(s, s', rows, cols) && SameKernel(s', s'', rows, cols)
    ensures SameKernel(s, s'', rows, cols)
  {
  }

  // ----- systematic form -----

  ghost predicate Systematic(s: Mat, rows: nat, cols: nat) {
    forall r, c :: 0 <= r < rows && 0 <= c < rows ==> At(s, cols, r, c) == (if r == c then 1 else 0)
  }

  /** s' = [I | X] spans the same code as s. */
  ghost predicate IsSystForm(s: Mat, s': Mat, rows: nat, cols: nat) {
    && |s'| == rows * cols && Reduced(s')
    && Systematic(s', rows, cols)
    && SameKernel(s, s', rows, cols)
  }

  /** The systematic form of a matrix, None when its left block is singular. */
  ghost function SystForm(s: Mat, rows: nat, cols: nat): Option<Mat> {
    if exists s' :: IsSystForm(s, s', rows, cols) then
      var s' :| IsSystForm(s, s', rows, cols);
      Some(s')
    else None
  }

  /** (-T_j, e_j): the kernel vector of [I | X] that belongs to column j when T = X. */
  ghost function ColumnVector(t: Mat, rows: nat, cols: nat, j: int): Vec {
    c => if c < rows then -At(t, cols, c, j) else if c == j then 1 else 0
  }

  lemma DotColumnVector(s: Mat, t: Mat, rows: nat, cols: nat, r: int, j: int)
    requires rows <= j < cols
    ensures Dot(s, cols, r, ColumnVector(t, rows, cols, j))
         == At(s, cols, r, j) - Sum(rows, l => At(s, cols, r, l) * At(t, cols, l, j))
  {
    hide At;
    var x := ColumnVector(t, rows, cols, j);
    var f := c => At(s, cols, r, c) * x(c);
    var g := l => At(s, cols, r, l) * At(t, cols, l, j);
    var left := c => if c < rows then -g(c) else 0;
    var right := c => if c == j then At(s, cols, r, j) else 0;
    forall c | 0 <= c < cols ensures f(c) == left(c) + right(c) {
      if c < rows {
        var u, v := At(s, cols, r, c), At(t, cols, c, j);
        assert u * (-v) == -(u * v);
      }
    }
    SumAdd(cols, f, left, right);
    SumOne(cols, right, j);
    SumTail(cols, rows, left);
    SumScale(rows, left, -1, g);
  }

  lemma DotSystematic(s: Mat, t: Mat, rows: nat, cols: nat, r: int, j: int)
    requires rows <= j < cols && 0 <= r < rows && Systematic(s, rows, cols)
    ensures Dot(s, cols, r, ColumnVector(t, rows, cols, j)) == At(s, cols, r, j) - At(t, cols, r, j)
  {
    hide At;
    DotColumnVector(s, t, rows, cols, r, j);
    SumOne(rows, l => At(s, cols, r, l) * At(t, cols, l, j), r);
  }

  lemma ColumnVectorInKernel(s: Mat, rows: nat, cols: nat, j: int)
    requires rows <= j < cols && Systematic(s, rows, cols)
    ensures InKernel(s, rows, cols, ColumnVector(s, rows, cols, j))
  {
    forall r | 0 <= r < rows
      ensures Mod(Dot(s, cols, r, ColumnVector(s, rows, cols, j))) == 0
    {
      DotSystematic(s, s, rows, cols, r, j);
    }
  }

  /** Systematic form is canonical: it depends on the kernel alone. */
  lemma SystFormUnique(s: Mat, s': Mat, t: Mat, t': Mat, rows: nat, cols: nat)
    requires IsSystForm(s, t, rows, cols) && IsSystForm(s', t', rows, cols)
    requires SameKernel(s, s', rows, cols)
    ensures t == t'
  {
    forall r, j | 0 <= r < rows && 0 <= j < cols
      ensures At(t, cols, r, j) == At(t', cols, r, j)
    {
      if j >= rows {
        ColumnVectorInKernel(t, rows, cols, j);
        DotSystematic(t', t, rows, cols, r, j);
        ModDifferenceZero(At(t', cols, r, j), At(t, cols, r, j));
        AtReduced(t, cols, r, j);
        AtReduced(t', cols, r, j);
      }
    }
    MatEqual(rows, cols, t, t');
  }

  lemma ModDifferenceZero(a: int, b: int)
    requires Mod(a - b) == 0
    ensures Mod(a) == Mod(b)
    ensures 0 <= a < P && 0 <= b < P ==> a == b
  {
    ModLinear(a - b, 0, b, b);
    ModIdem(a);
    ModIdem(b);
  }

  lemma SystFormIs(s: Mat, t: Mat, rows: nat, cols: nat)
    requires IsSystForm(s, t, rows, cols)
    ensures SystForm(s, rows, cols) == Some(t)
  {
    var t' := SystForm(s, rows, cols).value;
    SystFormUnique(s, s, t, t', rows, cols);
  }

  lemma SystFormOfKernel(s: Mat, s': Mat, rows: nat, cols: nat)
    requires SameKernel(s, s', rows, cols)
    ensures SystForm(s, rows, cols) == SystForm(s', rows, cols)
  {
    if t :| IsSystForm(s, t, rows, cols) {
      SystFormIs(s, t, rows, cols);
      SystFormIs(s', t, rows, cols);
    } else if t' :| IsSystForm(s', t', rows, cols) {
      assert IsSystForm(s, t', rows, cols);
    }
  }

  lemma SystematicNonsingular(s: Mat, t: Mat, rows: nat, cols: nat)
    requires rows <= cols && Systematic(t, rows, cols) && SameKernel(s, t, rows, cols)
    ensures !Singular(s, rows, cols)
  {
    hide At;
    forall x: Vec | InKernel(s, rows, cols, x) && Supported(x, rows, cols)
      ensures !Nonzero(x, rows)
    {
      forall r | 0 <= r < rows ensures Mod(x(r)) == 0 {
        SumOne(cols, c => At(t, cols, r, c) * x(c), r);
        assert Mod(Dot(t, cols, r, x)) == 0;
      }
    }
  }

  /** A matrix with a systematic form has a nonsingular left block. */
  lemma SystFormNonsingular(s: Mat, rows: nat, cols: nat)
    requires rows <= cols && SystForm(s, rows, cols).Some?
    ensures !Singular(s, rows, cols)
  {
    SystematicNonsingular(s, SystForm(s, rows, cols).value, rows, cols);
  }

  /** s = (left block of s) * t: row reduction is a change of basis. */
  lemma SystFormFactor(s: Mat, t: Mat, rows: nat, cols: nat, r: int, j: int)
    requires rows <= cols && IsSystForm(s, t, rows, cols) && 0 <= r < rows && 0 <= j < cols
    ensures Mod(At(s, cols, r, j)) == Mod(Sum(rows, l => At(s, cols, r, l) * At(t, cols, l, j)))
  {
    hide At;
    var g := l => At(s, cols, r, l) * At(t, cols, l, j);
    if j < rows {
      SumOne(rows, g, j);
    } else {
      ColumnVectorInKernel(t, rows, cols, j);
      DotColumnVector(s, t, rows, cols, r, j);
      ModDifferenceZero(At(s, cols, r, j), Sum(rows, g));
    }
  }

  /** s(r,c) = sum over l of f(r,l) * s'(l,c): s is s' multiplied from the left by f. */
  ghost predicate LeftMultiple(s: Mat, f: Mat, s': Mat, rows: nat, cols: nat) {
    forall r, c :: 0 <= r < rows && 0 <= c < cols ==>
      Mod(At(s, cols, r, c)) == Mod(Sum(rows, l => At(f, rows, r, l) * At(s', cols, l, c)))
  }

  lemma DotLeftMultiple(s: Mat, f: Mat, s': Mat, rows: nat, cols: nat, r: int, x: Vec)
    requires LeftMultiple(s, f, s', rows, cols) && 0 <= r < rows
    ensures Mod(Dot(s, cols, r, x)) == Mod(Dot(f, rows, r, l => Dot(s', cols, l, x)))
  {
    hide At;
    var fr, sl := l => At(f, rows, r, l), (l, c) => At(s', cols, l, c);
    var lhs := c => At(s, cols, r, c) * x(c);
    var mid := c => Sum(rows, l => fr(l) * sl(l, c)) * x(c);
    forall c | 0 <= c < cols ensures Mod(lhs(c)) == Mod(mid(c)) {
      SumEq(rows, l => fr(l) * sl(l, c), l => At(f, rows, r, l) * At(s', cols, l, c));
      ModFactor(At(s, cols, r, c), Sum(rows, l => fr(l) * sl(l, c)), x(c));
    }
    SumMod(cols, lhs, mid);
    SumRegroup(rows, cols, fr, sl, x);
    SumEq(cols, mid, c => Sum(rows, l => fr(l) * sl(l, c)) * x(c));
    forall l | 0 <= l < rows ensures Sum(cols, c => sl(l, c) * x(c)) == Dot(s', cols, l, x) {
      SumEq(cols, c => sl(l, c) * x(c), c => At(s', cols, l, c) * x(c));
    }
    var y := l => Dot(s', cols, l, x);
    SumEq(rows, l => fr(l) * Sum(cols, c => sl(l, c) * x(c)), l => At(f, rows, r, l) * y(l));
    DotEq(f, rows, r, y, l => Dot(s', cols, l, x));
  }

  lemma DotEq(s: Mat, cols: nat, r: int, x: Vec, y: Vec)
    requires forall c :: 0 <= c < cols ==> x(c) == y(c)
    ensures Dot(s, cols, r, x) == Dot(s, cols, r, y)
  {
    SumEq(cols, c => At(s, cols, r, c) * x(c), c => At(s, cols, r, c) * y(c));
  }

  lemma LeftMultipleVector(s: Mat, f: Mat, s': Mat, rows: nat, cols: nat, x: Vec)
    requires LeftMultiple(s, f, s', rows, cols) && !Singular(f, rows, rows)
    ensures InKernel(s, rows, cols, x) <==> InKernel(s', rows, cols, x)
  {
    var y := l => Dot(s', cols, l, x);
    assert Supported(y, rows, rows);
    assert InKernel(s, rows, cols, x) <==> InKernel(f, rows, rows, y) by {
      forall r | 0 <= r < rows ensures Mod(Dot(s, cols, r, x)) == Mod(Dot(f, rows, r, y)) {
        DotLeftMultiple(s, f, s', rows, cols, r, x);
        DotEq(f, rows, r, l => Dot(s', cols, l, x), y);
      }
      hide Dot;
    }
    hide Dot;
    if InKernel(s', rows, cols, x) {
      forall r | 0 <= r < rows ensures Mod(Dot(f, rows, r, y)) == 0 {
        DotVanishes(f, rows, r, y);
      }
    } else if InKernel(f, rows, rows, y) {
      assert !Nonzero(y, rows);
      forall l | 0 <= l < rows ensures Mod(Dot(s', cols, l, x)) == 0 {
        assert Mod(y(l)) == 0;
      }
    }
  }

  /** An invertible left factor changes neither the kernel nor, therefore, the systematic form. */
  lemma LeftMultipleKernel(s: Mat, f: Mat, s': Mat, rows: nat, cols: nat)
    requires LeftMultiple(s, f, s', rows, cols) && !Singular(f, rows, rows)
    ensures SameKernel(s, s', rows, cols)
    ensures SystForm(s, rows, cols) == SystForm(s', rows, cols)
  {
    forall x: Vec ensures InKernel(s, rows, cols, x) <==> InKernel(s', rows, cols, x) {
      LeftMultipleVector(s, f, s', rows, cols, x);
    }
    SystFormOfKernel(s, s', rows, cols);
  }

  lemma DotVanishes(s: Mat, cols: nat, r: int, x: Vec)
    requires forall c :: 0 <= c < cols ==> Mod(x(c)) == 0
    ensures Mod(Dot(s, cols, r, x)) == 0
  {
    hide At;
    var f := c => At(s, cols, r, c) * x(c);
    forall c | 0 <= c < cols ensures Mod(f(c)) == 0 {
      ModTimesZero(At(s, cols, r, c), x(c));
    }
    ModIdem(0);
    SumMod(cols, f, c => 0);
    SumZero(cols, c => 0);
  }
}
