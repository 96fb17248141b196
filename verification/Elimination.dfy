/** pmod_mat_syst_ct (ref/matrixmod.c): branch-free Gaussian elimination, in place. */
module Elimination {
  import opened Params
  import opened Sums
  import opened Field
  import opened Loops
  import opened Matrix

  /** The first rows * cols cells of the array are a matrix; solve passes a taller buffer. */
  ghost predicate Holds(m: array<int>, rows: nat, cols: nat)
    reads m
  {
    rows * cols <= m.Length && Reduced(m[..])
  }

  /** What a step leaves in every cell: upd(r, c) in the given row, the old value elsewhere. */
  ghost predicate RowUpdated(s: Mat, s': Mat, cols: nat, row: int, upd: int -> int) {
    && |s'| == |s|
    && (forall r, c :: r != row && 0 <= c < cols ==> At(s', cols, r, c) == At(s, cols, r, c))
    && (forall c :: 0 <= c < cols ==> At(s', cols, row, c) == upd(c))
  }

  function Cell(m: array<int>, rows: nat, cols: nat, r: int, c: int): (v: int)
    requires rows * cols <= m.Length && 0 <= r < rows && 0 <= c < cols
    reads m
    ensures v == At(m[..], cols, r, c)
  {
    IndexBound(rows, cols, r, c);
    m[cols * r + c]
  }

  method SetCell(m: array<int>, rows: nat, cols: nat, r: int, c: int, v: int)
    requires rows * cols <= m.Length && 0 <= r < rows && 0 <= c < cols
    modifies m
    ensures |m[..]| == |old(m[..])|
    ensures forall i, j :: 0 <= j < cols ==>
      At(m[..], cols, i, j) == if i == r && j == c then v else At(old(m[..]), cols, i, j)
    ensures Reduced(old(m[..])) && 0 <= v < P ==> Reduced(m[..])
  {
    IndexBound(rows, cols, r, c);
    m[cols * r + c] := v;
    assert m[..] == old(m[..])[cols * r + c := v];
    SetAt(old(m[..]), m[..], cols, r, c, v);
  }

  lemma SetAtOne(s: Mat, cols: nat, r: int, c: int, v: int, i: int, j: int)
    requires 0 <= cols * r + c < |s| && 0 <= c < cols && 0 <= j < cols
    ensures At(s[cols * r + c := v], cols, i, j) == if i == r && j == c then v else At(s, cols, i, j)
  {
    if cols * i + j == cols * r + c { IndexInjective(cols, r, c, i, j); }
  }

  lemma SetAt(s: Mat, s': Mat, cols: nat, r: int, c: int, v: int)
    requires 0 <= cols * r + c < |s| && 0 <= c < cols && s' == s[cols * r + c := v]
    ensures forall i, j :: 0 <= j < cols ==>
      At(s', cols, i, j) == if i == r && j == c then v else At(s, cols, i, j)
  {
    forall i, j | 0 <= j < cols
      ensures At(s', cols, i, j) == if i == r && j == c then v else At(s, cols, i, j)
    {
      SetAtOne(s, cols, r, c, v, i, j);
    }
  }

  // ----- the inner loops -----

  /** "swap": row r2 is added to row r when the pivot of row r is zero. */
  method AddRowIfZero(m: array<int>, rows: nat, cols: nat, r: int, r2: int)
    requires Holds(m, rows, cols) && 0 <= r < r2 < rows <= cols
    modifies m
    ensures Holds(m, rows, cols)
    ensures var s := old(m[..]); var take := if At(s, cols, r, r) == 0 then 1 else 0;
      RowUpdated(s, m[..], cols, r, c => if c < r then At(s, cols, r, c)
        else Mod(At(s, cols, r, c) + At(s, cols, r2, c) * take))
  {
    ghost var s := m[..];
    hide At;
    var pivot := Cell(m, rows, cols, r, r);
    var take := if pivot == 0 then 1 else 0;
    for c := r to cols
      invariant Holds(m, rows, cols) && |m[..]| == |s|
      invariant forall i, j :: 0 <= j < cols ==>
        At(m[..], cols, i, j) == (if i == r && r <= j < c then Mod(At(s, cols, r, j) + At(s, cols, r2, j) * take)
          else At(s, cols, i, j))
    {
      var val := Cell(m, rows, cols, r2, c);
      var mrc := Cell(m, rows, cols, r, c);
      SetCell(m, rows, cols, r, c, Mod(mrc + val * take));
    }
  }

  /** Row r, columns lo to hi, scaled by val. */
  method ScaleRange(m: array<int>, rows: nat, cols: nat, r: int, val: int, lo: int, hi: int)
    requires Holds(m, rows, cols) && 0 <= r < rows && 0 <= lo <= hi <= cols
    modifies m
    ensures Holds(m, rows, cols)
    ensures var s := old(m[..]);
      RowUpdated(s, m[..], cols, r, c => if lo <= c < hi then Mod(At(s, cols, r, c) * val) else At(s, cols, r, c))
  {
    ghost var s := m[..];
    hide At;
    for c := lo to hi
      invariant Holds(m, rows, cols) && |m[..]| == |s|
      invariant forall i, j :: 0 <= j < cols ==>
        At(m[..], cols, i, j) == (if i == r && lo <= j < c then Mod(At(s, cols, r, j) * val) else At(s, cols, i, j))
    {
      var mrc := Cell(m, rows, cols, r, c);
      SetCell(m, rows, cols, r, c, Mod(mrc * val));
    }
  }

  /** Modular subtraction by one conditional correction: t1 - t0 * factor. */
  function SubMul(t1: int, t0: int, factor: int): (v: int)
    requires 0 <= t1 < P
    ensures v == Mod(t1 - t0 * factor)
  {
    var val := t1 - Mod(t0 * factor);
    var v := val + P * (if val < 0 then 1 else 0);
    ModIdem(t0 * factor);
    ModLinear(t1, t1, Mod(t0 * factor), t0 * factor);
    ModShift(val, if val < 0 then 1 else 0);
    ModIdem(v);
    v
  }

  /** Row dst minus factor times row src, columns lo to hi. */
  method SubtractRange(m: array<int>, rows: nat, cols: nat, src: int, dst: int, factor: int, lo: int, hi: int)
    requires Holds(m, rows, cols) && 0 <= src < rows && 0 <= dst < rows && src != dst && 0 <= lo <= hi <= cols
    modifies m
    ensures Holds(m, rows, cols)
    ensures var s := old(m[..]);
      RowUpdated(s, m[..], cols, dst,
        c => if lo <= c < hi then Mod(At(s, cols, dst, c) - At(s, cols, src, c) * factor) else At(s, cols, dst, c))
  {
    ghost var s := m[..];
    hide At;
    for c := lo to hi
      invariant Holds(m, rows, cols) && |m[..]| == |s|
      invariant forall i, j :: 0 <= j < cols ==>
        At(m[..], cols, i, j) == (if i == dst && lo <= j < c
          then Mod(At(s, cols, dst, j) - At(s, cols, src, j) * factor) else At(s, cols, i, j))
    {
      var t0 := Cell(m, rows, cols, src, c);
      var t1 := Cell(m, rows, cols, dst, c);
      AtReduced(m[..], cols, dst, c);
      SetCell(m, rows, cols, dst, c, SubMul(t1, t0, factor));
    }
  }

  /** Back substitution touches the pivot column r and the columns right of the square block only. */
  method BackSubstituteRow(m: array<int>, rows: nat, cols: nat, r: int, r2: int)
    requires Holds(m, rows, cols) && 0 <= r2 < r < rows <= cols
    modifies m
    ensures Holds(m, rows, cols)
    ensures var s := old(m[..]); var factor := At(s, cols, r2, r);
      RowUpdated(s, m[..], cols, r2,
        c => if c == r || rows <= c then Mod(At(s, cols, r2, c) - At(s, cols, r, c) * factor) else At(s, cols, r2, c))
  {
    hide At;
    var factor := Cell(m, rows, cols, r2, r);
    SubtractRange(m, rows, cols, r, r2, factor, r, r + 1);
    SubtractRange(m, rows, cols, r, r2, factor, rows, cols);
  }

  // ----- what each step keeps -----

  /** Columns left of r are zero below the diagonal and rows above r have pivot 1. */
  ghost predicate Echelon(s: Mat, rows: nat, cols: nat, r: int) {
    && (forall i, j :: 0 <= i < rows && 0 <= j < r && j < i ==> At(s, cols, i, j) == 0)
    && (forall i :: 0 <= i < r ==> At(s, cols, i, i) == 1)
  }

  /** Columns right of r, inside the square block, are zero above the diagonal as well. */
  ghost predicate Cleared(s: Mat, rows: nat, cols: nat, r: int) {
    && Echelon(s, rows, cols, rows)
    && (forall i, j :: 0 <= i < j && r < j < rows ==> At(s, cols, i, j) == 0)
  }

  /** Rows from lo up to hi have not changed. */
  ghost predicate RowsKept(s: Mat, s': Mat, cols: nat, lo: int, hi: int) {
    forall i, j :: lo <= i < hi && 0 <= j < cols ==> At(s', cols, i, j) == At(s, cols, i, j)
  }

  lemma AddStep(s: Mat, s': Mat, rows: nat, cols: nat, r: int, r2: int, take: int)
    requires 0 <= r < r2 < rows <= cols && Reduced(s) && Echelon(s, rows, cols, r)
    requires take == if At(s, cols, r, r) == 0 then 1 else 0
    requires RowUpdated(s, s', cols, r,
      c => if c < r then At(s, cols, r, c) else Mod(At(s, cols, r, c) + At(s, cols, r2, c) * take))
    ensures SameKernel(s, s', rows, cols) && Echelon(s', rows, cols, r)
    ensures At(s', cols, r, r) == 0 ==> At(s, cols, r, r) == 0 && At(s, cols, r2, r) == 0
  {
    AtReduced(s, cols, r, r);
    AtReduced(s, cols, r2, r);
    hide At;
    ModIdem(At(s, cols, r, r));
    ModIdem(At(s, cols, r2, r));
    forall c | 0 <= c < cols
      ensures Mod(At(s', cols, r, c)) == Mod(1 * At(s, cols, r, c) + take * At(s, cols, r2, c))
    {
      ModIdem(At(s, cols, r, c) + At(s, cols, r2, c) * take);
    }
    ModIdem(1);
    RowOperationKeepsKernel(s, s', rows, cols, r, r2, 1, take);
  }

  lemma NormalizeStep(s: Mat, s': Mat, rows: nat, cols: nat, r: int, val: int)
    requires 0 <= r < rows <= cols && Reduced(s) && Echelon(s, rows, cols, r)
    requires Mod(At(s, cols, r, r) * val) == 1
    requires RowUpdated(s, s', cols, r, c => if r <= c < cols then Mod(At(s, cols, r, c) * val) else At(s, cols, r, c))
    ensures SameKernel(s, s', rows, cols) && Echelon(s', rows, cols, r) && At(s', cols, r, r) == 1
  {
    hide At;
    forall c | 0 <= c < cols
      ensures Mod(At(s', cols, r, c)) == Mod(val * At(s, cols, r, c) + 0 * At(s, cols, r, c))
    {
      ModIdem(At(s, cols, r, c) * val);
      assert c < r ==> At(s, cols, r, c) == 0;
    }
    if Mod(val) == 0 { ModTimesZero(At(s, cols, r, r), val); }
    RowOperationKeepsKernel(s, s', rows, cols, r, r, val, 0);
  }

  /** Row dst loses factor times row src; where the code skips a column, row src is zero. */
  lemma SubtractKeepsKernel(s: Mat, s': Mat, rows: nat, cols: nat, src: int, dst: int, factor: int)
    requires 0 <= src < rows && 0 <= dst < rows && src != dst
    requires forall i, c :: i != dst && 0 <= c < cols ==> At(s', cols, i, c) == At(s, cols, i, c)
    requires forall c :: 0 <= c < cols ==>
      || At(s', cols, dst, c) == Mod(At(s, cols, dst, c) - At(s, cols, src, c) * factor)
      || (At(s', cols, dst, c) == At(s, cols, dst, c) && At(s, cols, src, c) == 0)
    ensures SameKernel(s, s', rows, cols)
  {
    hide At;
    forall c | 0 <= c < cols
      ensures Mod(At(s', cols, dst, c)) == Mod(1 * At(s, cols, dst, c) + (-factor) * At(s, cols, src, c))
    {
      ModIdem(At(s, cols, dst, c) - At(s, cols, src, c) * factor);
      NegateFactor(At(s, cols, src, c), factor);
    }
    ModIdem(1);
    RowOperationKeepsKernel(s, s', rows, cols, dst, src, 1, -factor);
  }

  lemma NegateFactor(a: int, b: int)
    ensures (-b) * a == -(a * b)
  {
  }

  lemma EliminateStep(s: Mat, s': Mat, rows: nat, cols: nat, r: int, r2: int, factor: int)
    requires 0 <= r < r2 < rows <= cols && Reduced(s) && Echelon(s, rows, cols, r)
    requires At(s, cols, r, r) == 1 && factor == At(s, cols, r2, r)
    requires RowUpdated(s, s', cols, r2,
      c => if r <= c < cols then Mod(At(s, cols, r2, c) - At(s, cols, r, c) * factor) else At(s, cols, r2, c))
    ensures SameKernel(s, s', rows, cols) && Echelon(s', rows, cols, r) && At(s', cols, r2, r) == 0
  {
    hide At;
    ModIdem(0);
    assert At(s, cols, r2, r) - At(s, cols, r, r) * factor == 0;
    SubtractKeepsKernel(s, s', rows, cols, r, r2, factor);
  }

  lemma BackStep(s: Mat, s': Mat, rows: nat, cols: nat, r: int, r2: int, factor: int)
    requires 0 <= r2 < r < rows <= cols && Reduced(s) && Cleared(s, rows, cols, r)
    requires factor == At(s, cols, r2, r)
    requires RowUpdated(s, s', cols, r2,
      c => if c == r || rows <= c then Mod(At(s, cols, r2, c) - At(s, cols, r, c) * factor) else At(s, cols, r2, c))
    ensures SameKernel(s, s', rows, cols) && Cleared(s', rows, cols, r) && At(s', cols, r2, r) == 0
  {
    hide At;
    ModIdem(0);
    assert At(s, cols, r2, r) - At(s, cols, r, r) * factor == 0;
    SubtractKeepsKernel(s, s', rows, cols, r, r2, factor);
  }

  // ----- a failed pivot means a singular block -----

  /** When column r vanishes from row r down, back substitution yields a kernel vector. */
  lemma {:induction false} KernelVector(s: Mat, rows: nat, cols: nat, r: int, j: nat) returns (x: Vec)
    requires 0 <= j <= r < rows <= cols && Echelon(s, rows, cols, r)
    requires forall i :: r <= i < rows ==> At(s, cols, i, r) == 0
    ensures x(r) == 1 && (forall c :: 0 <= c < cols && !(j <= c <= r) ==> x(c) == 0)
    ensures forall i :: j <= i < rows ==> Dot(s, cols, i, x) == 0
    decreases r - j
  {
    hide At;
    if j == r {
      x := c => if c == r then 1 else 0;
      forall i | r <= i < rows ensures Dot(s, cols, i, x) == 0 {
        SumZero(cols, c => At(s, cols, i, c) * x(c));
      }
    } else {
      var y := KernelVector(s, rows, cols, r, j + 1);
      var d := Dot(s, cols, j, y);
      x := c => if c == j then -d else y(c);
      forall i | j <= i < rows ensures Dot(s, cols, i, x) == 0 {
        DotChange(s, cols, i, y, x, j, -d);
        assert At(s, cols, i, j) == if i == j then 1 else 0;
      }
    }
  }

  lemma DotChange(s: Mat, cols: nat, r: int, y: Vec, x: Vec, j: int, v: int)
    requires 0 <= j < cols && y(j) == 0 && x(j) == v
    requires forall c :: 0 <= c < cols && c != j ==> x(c) == y(c)
    ensures Dot(s, cols, r, x) == Dot(s, cols, r, y) + At(s, cols, r, j) * v
  {
    hide At;
    var delta := c => if c == j then At(s, cols, r, j) * v else 0;
    SumOne(cols, delta, j);
    SumAdd(cols, c => At(s, cols, r, c) * x(c), c => At(s, cols, r, c) * y(c), delta);
  }

  lemma PivotlessIsSingular(s: Mat, rows: nat, cols: nat, r: int)
    requires 0 <= r < rows <= cols && Echelon(s, rows, cols, r)
    requires forall i :: r <= i < rows ==> At(s, cols, i, r) == 0
    ensures Singular(s, rows, cols)
  {
    hide At;
    hide Dot;
    var x := KernelVector(s, rows, cols, r, 0);
    ModIdem(0);
    ModIdem(1);
    assert Mod(x(r)) != 0;
    assert InKernel(s, rows, cols, x) && Supported(x, rows, cols) && Nonzero(x, rows);
  }

  /** Back substitution in an echelon form with unit pivots leaves only the zero vector. */
  lemma {:induction false} EchelonKernel(s: Mat, rows: nat, cols: nat, x: Vec, j: nat)
    requires j <= rows <= cols && Echelon(s, rows, cols, rows)
    requires InKernel(s, rows, cols, x) && Supported(x, rows, cols)
    ensures forall c :: j <= c < rows ==> Mod(x(c)) == 0
    decreases rows - j
  {
    if j < rows {
      EchelonKernel(s, rows, cols, x, j + 1);
      PivotDot(s, rows, cols, x, j);
      hide Dot, Echelon;
      assert Mod(Dot(s, cols, j, x)) == 0;
    }
  }

  /** With the later coordinates zero, a row of the echelon form picks out its pivot coordinate. */
  lemma PivotDot(s: Mat, rows: nat, cols: nat, x: Vec, j: nat)
    requires j < rows <= cols && Echelon(s, rows, cols, rows) && Supported(x, rows, cols)
    requires forall c :: j < c < rows ==> Mod(x(c)) == 0
    ensures Mod(Dot(s, cols, j, x)) == Mod(x(j))
  {
    hide At;
    var f, g := c => At(s, cols, j, c) * x(c), c => if c == j then x(j) else 0;
    forall c | 0 <= c < cols ensures Mod(f(c)) == Mod(g(c)) {
      PivotTerm(s, rows, cols, x, j, c);
    }
    SumMod(cols, f, g);
    SumOne(cols, g, j);
  }

  lemma PivotTerm(s: Mat, rows: nat, cols: nat, x: Vec, j: nat, c: nat)
    requires j < rows <= cols && Echelon(s, rows, cols, rows) && Supported(x, rows, cols) && c < cols
    requires j < c < rows ==> Mod(x(c)) == 0
    ensures Mod(At(s, cols, j, c) * x(c)) == if c == j then Mod(x(j)) else Mod(0)
  {
    hide At, Mod;
    if j < c < rows {
      ModTimesZero(At(s, cols, j, c), x(c));
      ModIdem(0);
    }
  }

  lemma EchelonNonsingular(s: Mat, s': Mat, rows: nat, cols: nat)
    requires rows <= cols && SameKernel(s, s', rows, cols) && Echelon(s', rows, cols, rows)
    ensures !Singular(s, rows, cols)
  {
    hide At, Echelon;
    forall x: Vec | InKernel(s, rows, cols, x) && Supported(x, rows, cols) ensures !Nonzero(x, rows) {
      EchelonKernel(s', rows, cols, x, 0);
    }
  }

  lemma SingularOfKernel(s: Mat, s': Mat, rows: nat, cols: nat)
    requires SameKernel(s, s', rows, cols) && Singular(s', rows, cols)
    ensures Singular(s, rows, cols)
  {
    var x: Vec :| InKernel(s', rows, cols, x) && Supported(x, rows, cols) && Nonzero(x, rows);
    assert InKernel(s, rows, cols, x);
  }

  // ----- the outer loops -----

  method ChoosePivot(m: array<int>, rows: nat, cols: nat, r: int)
    requires Holds(m, rows, cols) && 0 <= r < rows <= cols && Echelon(m[..], rows, cols, r)
    modifies m
    ensures Holds(m, rows, cols) && Echelon(m[..], rows, cols, r) && |m[..]| == |old(m[..])|
    ensures SameKernel(old(m[..]), m[..], rows, cols)
    ensures RowsKept(old(m[..]), m[..], cols, rows, m.Length)
    ensures At(m[..], cols, r, r) == 0 ==> forall i :: r <= i < rows ==> At(m[..], cols, i, r) == 0
  {
    ghost var s := m[..];
    hide At;
    for r2 := r + 1 to rows
      invariant Holds(m, rows, cols) && Echelon(m[..], rows, cols, r) && |m[..]| == |s|
      invariant SameKernel(s, m[..], rows, cols) && RowsKept(s, m[..], cols, rows, m.Length)
      invariant At(m[..], cols, r, r) == 0 ==> forall i :: r <= i < r2 ==> At(m[..], cols, i, r) == 0
    {
      ghost var s0 := m[..];
      ghost var take := if At(s0, cols, r, r) == 0 then 1 else 0;
      AddRowIfZero(m, rows, cols, r, r2);
      AddStep(s0, m[..], rows, cols, r, r2, take);
      SameKernelTrans(s, s0, m[..], rows, cols);
    }
  }

  method ClearBelow(m: array<int>, rows: nat, cols: nat, r: int)
    requires Holds(m, rows, cols) && 0 <= r < rows <= cols && Echelon(m[..], rows, cols, r)
    requires At(m[..], cols, r, r) == 1
    modifies m
    ensures Holds(m, rows, cols) && Echelon(m[..], rows, cols, r + 1) && |m[..]| == |old(m[..])|
    ensures SameKernel(old(m[..]), m[..], rows, cols)
    ensures RowsKept(old(m[..]), m[..], cols, rows, m.Length)
  {
    ghost var s := m[..];
    hide At;
    for r2 := r + 1 to rows
      invariant Holds(m, rows, cols) && Echelon(m[..], rows, cols, r) && |m[..]| == |s|
      invariant SameKernel(s, m[..], rows, cols) && RowsKept(s, m[..], cols, rows, m.Length)
      invariant At(m[..], cols, r, r) == 1 && forall i :: r < i < r2 ==> At(m[..], cols, i, r) == 0
    {
      ghost var s0 := m[..];
      var factor := Cell(m, rows, cols, r2, r);
      SubtractRange(m, rows, cols, r, r2, factor, r, cols);
      EliminateStep(s0, m[..], rows, cols, r, r2, factor);
      SameKernelTrans(s, s0, m[..], rows, cols);
    }
  }

  /** The forward pass, shared by pmod_mat_syst_ct and the acceptance test of rnd_inv_matrix. */
  method Forward(m: array<int>, rows: nat, cols: nat) returns (ok: bool)
    requires Holds(m, rows, cols) && rows <= cols
    modifies m
    ensures Holds(m, rows, cols) && |m[..]| == |old(m[..])|
    ensures SameKernel(old(m[..]), m[..], rows, cols)
    ensures RowsKept(old(m[..]), m[..], cols, rows, m.Length)
    ensures ok ==> Echelon(m[..], rows, cols, rows)
    ensures ok <==> !Singular(old(m[..]), rows, cols)
  {
    ghost var s := m[..];
    hide At;
    for r := 0 to rows
      invariant Holds(m, rows, cols) && Echelon(m[..], rows, cols, r) && |m[..]| == |s|
      invariant SameKernel(s, m[..], rows, cols) && RowsKept(s, m[..], cols, rows, m.Length)
    {
      ghost var s0 := m[..];
      ChoosePivot(m, rows, cols, r);
      ghost var s1 := m[..];
      SameKernelTrans(s, s0, s1, rows, cols);
      var val := Cell(m, rows, cols, r, r);
      AtReduced(m[..], cols, r, r);
      if val == 0 {
        PivotlessIsSingular(m[..], rows, cols, r);
        SingularOfKernel(s, m[..], rows, cols);
        return false;
      }
      ModIdem(val);
      var inv := GfInv(val);
      ScaleRange(m, rows, cols, r, inv, r, cols);
      ghost var s2 := m[..];
      NormalizeStep(s1, s2, rows, cols, r, inv);
      SameKernelTrans(s, s1, s2, rows, cols);
      ClearBelow(m, rows, cols, r);
      SameKernelTrans(s, s2, m[..], rows, cols);
    }
    EchelonNonsingular(s, m[..], rows, cols);
    return true;
  }

  method ClearAbove(m: array<int>, rows: nat, cols: nat, r: int)
    requires Holds(m, rows, cols) && 0 <= r < rows <= cols && Cleared(m[..], rows, cols, r)
    modifies m
    ensures Holds(m, rows, cols) && Cleared(m[..], rows, cols, r - 1) && |m[..]| == |old(m[..])|
    ensures SameKernel(old(m[..]), m[..], rows, cols)
    ensures RowsKept(old(m[..]), m[..], cols, rows, m.Length)
  {
    ghost var s := m[..];
    hide At;
    for r2 := 0 to r
      invariant Holds(m, rows, cols) && Cleared(m[..], rows, cols, r) && |m[..]| == |s|
      invariant SameKernel(s, m[..], rows, cols) && RowsKept(s, m[..], cols, rows, m.Length)
      invariant forall i :: 0 <= i < r2 ==> At(m[..], cols, i, r) == 0
    {
      ghost var s0 := m[..];
      BackSubstituteRow(m, rows, cols, r, r2);
      BackStep(s0, m[..], rows, cols, r, r2, At(s0, cols, r2, r));
      SameKernelTrans(s, s0, m[..], rows, cols);
    }
  }

  /** pmod_mat_syst_ct: returns 0 exactly when the left block is nonsingular, and then leaves the
      systematic form; rows below the first `rows` rows are not touched. */
  method SystCt(m: array<int>, rows: nat, cols: nat) returns (ret: int)
    requires Holds(m, rows, cols) && rows <= cols
    modifies m
    ensures Holds(m, rows, cols) && |m[..]| == |old(m[..])|
    ensures ret == 0 || ret == -1
    ensures ret == 0 <==> !Singular(old(m[..]), rows, cols)
    ensures ret == 0 ==> Systematic(m[..], rows, cols)
    ensures ret == 0 ==> SameKernel(old(m[..]), m[..], rows, cols)
    ensures RowsKept(old(m[..]), m[..], cols, rows, m.Length)
    ensures m.Length == rows * cols ==>
      SystForm(old(m[..]), rows, cols) == if ret == 0 then Some(m[..]) else None
  {
    ghost var s := m[..];
    hide At;
    var ok := Forward(m, rows, cols);
    if !ok {
      SingularHasNoForm(s, rows, cols);
      return -1;
    }
    for r := rows downto 0
      invariant Holds(m, rows, cols) && Cleared(m[..], rows, cols, r - 1) && |m[..]| == |s|
      invariant SameKernel(s, m[..], rows, cols) && RowsKept(s, m[..], cols, rows, m.Length)
    {
      ghost var s0 := m[..];
      ClearAbove(m, rows, cols, r);
      SameKernelTrans(s, s0, m[..], rows, cols);
    }
    SystematicNonsingular(s, m[..], rows, cols);
    if m.Length == rows * cols { SystFormIs(s, m[..], rows, cols); }
    return 0;
  }

  lemma SingularHasNoForm(s: Mat, rows: nat, cols: nat)
    requires rows <= cols && Singular(s, rows, cols)
    ensures SystForm(s, rows, cols) == None
  {
    if SystForm(s, rows, cols).Some? { SystFormNonsingular(s, rows, cols); }
  }
}
