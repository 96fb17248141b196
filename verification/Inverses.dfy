/** Gaussian elimination as an existence proof: every matrix with a nonsingular left block has a systematic
    form, every nonsingular matrix has a two-sided inverse, and the systematic form is the only systematic
    matrix that a change of basis can reach. */
module Inverses {
  import opened Params
  import opened Sums
  import opened Field
  import opened Loops
  import opened Matrix
  import opened Products
  import opened Action

  // ----- elimination without an order of operations -----

  /** The first j columns are those of the identity. */
  ghost predicate Cleared(s: Mat, rows: nat, cols: nat, j: nat) {
    forall r, c :: 0 <= r < rows && 0 <= c < j ==> At(s, cols, r, c) == (if r == c then 1 else 0)
  }

  /** Column j is 1 in row j and 0 in the other rows before lim. */
  ghost predicate ColumnDone(s: Mat, cols: nat, j: nat, lim: nat) {
    && At(s, cols, j, j) == 1
    && forall r :: 0 <= r < lim && r != j ==> At(s, cols, r, j) == 0
  }

  /** Row r replaced by a times itself plus b times row r2. */
  ghost function RowOp(s: Mat, rows: nat, cols: nat, r: int, r2: int, a: int, b: int): (s': Mat)
    ensures |s'| == rows * cols
  {
    Build(rows, cols, (i, c) =>
      if i == r then Mod(a * At(s, cols, r, c) + b * At(s, cols, r2, c)) else At(s, cols, i, c))
  }

  lemma RowOpAt(s: Mat, rows: nat, cols: nat, r: int, r2: int, a: int, b: int, i: int, c: int)
    requires 0 <= i < rows && 0 <= c < cols
    ensures At(RowOp(s, rows, cols, r, r2, a, b), cols, i, c) ==
      if i == r then Mod(a * At(s, cols, r, c) + b * At(s, cols, r2, c)) else At(s, cols, i, c)
  {
    hide At;
    BuildAt(rows, cols, (i, c) =>
      if i == r then Mod(a * At(s, cols, r, c) + b * At(s, cols, r2, c)) else At(s, cols, i, c), i, c);
  }

  lemma RowOpKeeps(s: Mat, rows: nat, cols: nat, r: int, r2: int, a: int, b: int)
    requires 0 <= r < rows && 0 <= r2 < rows && (r != r2 || b == 0) && Mod(a) != 0 && Reduced(s)
    ensures SameKernel(s, RowOp(s, rows, cols, r, r2, a, b), rows, cols)
    ensures Reduced(RowOp(s, rows, cols, r, r2, a, b))
  {
    hide At, RowOp, SameKernel;
    var s' := RowOp(s, rows, cols, r, r2, a, b);
    forall i, c | 0 <= i < rows && 0 <= c < cols
      ensures 0 <= At(s', cols, i, c) < P
      ensures i != r ==> At(s', cols, i, c) == At(s, cols, i, c)
      ensures i == r ==> Mod(At(s', cols, r, c)) == Mod(a * At(s, cols, r, c) + b * At(s, cols, r2, c))
    {
      RowOpAt(s, rows, cols, r, r2, a, b, i, c);
      AtReduced(s, cols, i, c);
      ModIdem(a * At(s, cols, r, c) + b * At(s, cols, r2, c));
    }
    ReducedByEntries(rows, cols, s');
    RowOperationKeepsKernel(s, s', rows, cols, r, r2, a, b);
  }

  /** Below identity columns, a row operation with a row that is zero there keeps them. */
  lemma RowOpCleared(s: Mat, rows: nat, cols: nat, r: int, r2: int, a: int, b: int, j: nat)
    requires Cleared(s, rows, cols, j) && j <= cols && j <= r2 < rows && 0 <= r < rows && (r >= j || a == 1)
    ensures Cleared(RowOp(s, rows, cols, r, r2, a, b), rows, cols, j)
  {
    hide At, RowOp;
    forall i, c | 0 <= i < rows && 0 <= c < j
      ensures At(RowOp(s, rows, cols, r, r2, a, b), cols, i, c) == (if i == c then 1 else 0)
    {
      RowOpAt(s, rows, cols, r, r2, a, b, i, c);
      ModIdem(0);
      ModIdem(1);
    }
  }

  /** A column without pivot gives a kernel vector on the left block. */
  lemma NoPivot(s: Mat, rows: nat, cols: nat, j: nat)
    requires j < rows <= cols && Cleared(s, rows, cols, j)
    requires forall r :: j <= r < rows ==> At(s, cols, r, j) == 0
    ensures Singular(s, rows, cols)
  {
    hide At;
    var x := ColumnVector(s, j, cols, j);
    forall i | 0 <= i < rows ensures Mod(Dot(s, cols, i, x)) == 0 {
      DotColumnVector(s, s, j, cols, i, j);
      var g := l => At(s, cols, i, l) * At(s, cols, l, j);
      SumEq(j, l => At(s, cols, i, l) * At(s, cols, l, j), g);
      if i < j { SumOne(j, g, i); } else { SumZero(j, g); }
      ModIdem(0);
    }
    ModIdem(1);
    assert Mod(x(j)) != 0;
    assert InKernel(s, rows, cols, x) && Supported(x, rows, cols) && Nonzero(x, rows);
  }

  lemma PivotExists(s: Mat, rows: nat, cols: nat, j: nat) returns (r: nat)
    requires j < rows <= cols && Cleared(s, rows, cols, j) && !Singular(s, rows, cols)
    ensures j <= r < rows && At(s, cols, r, j) != 0
  {
    hide At, Singular, Cleared;
    if forall i :: j <= i < rows ==> At(s, cols, i, j) == 0 { NoPivot(s, rows, cols, j); }
    r :| j <= r < rows && At(s, cols, r, j) != 0;
  }

  /** Column j gets its pivot 1. */
  lemma PivotOne(s: Mat, rows: nat, cols: nat, j: nat) returns (s': Mat)
    requires j < rows <= cols && Reduced(s) && Cleared(s, rows, cols, j) && !Singular(s, rows, cols)
    ensures |s'| == rows * cols && Reduced(s') && Cleared(s', rows, cols, j) && SameKernel(s, s', rows, cols)
    ensures At(s', cols, j, j) == 1
  {
    hide At, Singular, SameKernel, RowOp, Cleared;
    var s1 := s;
    SameKernelSelf(s, rows, cols);
    if At(s, cols, j, j) == 0 {
      var r := PivotExists(s, rows, cols, j);
      ModIdem(1);
      s1 := RowOp(s, rows, cols, j, r, 1, 1);
      RowOpKeeps(s, rows, cols, j, r, 1, 1);
      RowOpCleared(s, rows, cols, j, r, 1, 1, j);
      RowOpAt(s, rows, cols, j, r, 1, 1, j, j);
      AtReduced(s, cols, r, j);
      ModIdem(At(s, cols, r, j));
    }
    var v := At(s1, cols, j, j);
    AtReduced(s1, cols, j, j);
    ModIdem(v);
    var a := Inverse(v);
    InverseNonzero(v);
    s' := RowOp(s1, rows, cols, j, j, a, 0);
    RowOpKeeps(s1, rows, cols, j, j, a, 0);
    RowOpCleared(s1, rows, cols, j, j, a, 0, j);
    RowOpAt(s1, rows, cols, j, j, a, 0, j, j);
    SameKernelTrans(s, s1, s', rows, cols);
  }

  lemma InverseNonzero(v: nat)
    requires Mod(v) != 0
    ensures Mod(Inverse(v)) != 0 && Mod(Inverse(v) * v + 0 * v) == 1
  {
    var a := Inverse(v);
    assert a * v == v * a;
    if Mod(a) == 0 { ModTimesZero(v, a); }
  }

  /** The other rows lose their entry in column j. */
  lemma {:induction false} ClearOthers(s: Mat, rows: nat, cols: nat, j: nat, lim: nat) returns (s': Mat)
    requires j < rows <= cols && lim <= rows && |s| == rows * cols && Reduced(s)
    requires Cleared(s, rows, cols, j) && At(s, cols, j, j) == 1
    ensures |s'| == rows * cols && Reduced(s') && Cleared(s', rows, cols, j) && SameKernel(s, s', rows, cols)
    ensures ColumnDone(s', cols, j, lim)
    decreases lim
  {
    hide At, SameKernel, RowOp, Cleared;
    if lim == 0 {
      SameKernelSelf(s, rows, cols);
      s' := s;
    } else {
      var i := lim - 1;
      var s1 := ClearOthers(s, rows, cols, j, i);
      if i == j {
        s' := s1;
      } else {
        s' := ClearEntry(s1, rows, cols, j, i);
        SameKernelTrans(s, s1, s', rows, cols);
      }
    }
  }

  lemma ClearEntry(s: Mat, rows: nat, cols: nat, j: nat, i: nat) returns (s': Mat)
    requires j < rows <= cols && i < rows && i != j && |s| == rows * cols && Reduced(s)
    requires Cleared(s, rows, cols, j) && ColumnDone(s, cols, j, i)
    ensures |s'| == rows * cols && Reduced(s') && Cleared(s', rows, cols, j) && SameKernel(s, s', rows, cols)
    ensures ColumnDone(s', cols, j, i + 1)
  {
    hide At, SameKernel, RowOp, Cleared;
    var w := At(s, cols, i, j);
    ModIdem(1);
    s' := RowOp(s, rows, cols, i, j, 1, -w);
    RowOpKeeps(s, rows, cols, i, j, 1, -w);
    RowOpCleared(s, rows, cols, i, j, 1, -w, j);
    forall r | 0 <= r < rows ensures At(s', cols, r, j) == if r == i then 0 else At(s, cols, r, j) {
      RowOpAt(s, rows, cols, i, j, 1, -w, r, j);
      ModIdem(0);
    }
  }

  lemma {:induction false} Reduces(s: Mat, rows: nat, cols: nat, j: nat) returns (s': Mat)
    requires j <= rows <= cols && |s| == rows * cols && Reduced(s)
    requires Cleared(s, rows, cols, j) && !Singular(s, rows, cols)
    ensures IsSystForm(s, s', rows, cols)
    decreases rows - j
  {
    hide At, Singular, SameKernel;
    if j == rows {
      SameKernelSelf(s, rows, cols);
      s' := s;
    } else {
      var s1 := PivotOne(s, rows, cols, j);
      var s2 := ClearOthers(s1, rows, cols, j, rows);
      SameKernelTrans(s, s1, s2, rows, cols);
      KernelSingular(s, s2, rows, cols);
      s' := Reduces(s2, rows, cols, j + 1);
      SameKernelTrans(s, s2, s', rows, cols);
    }
  }

  lemma KernelSingular(s: Mat, s': Mat, rows: nat, cols: nat)
    requires SameKernel(s, s', rows, cols) && !Singular(s, rows, cols)
    ensures !Singular(s', rows, cols)
  {
  }

  /** A matrix has a systematic form if and only if its left block is nonsingular. */
  lemma SystFormExists(s: Mat, rows: nat, cols: nat)
    requires rows <= cols && |s| == rows * cols && Reduced(s)
    ensures SystForm(s, rows, cols).Some? <==> !Singular(s, rows, cols)
  {
    hide IsSystForm, Singular;
    if !Singular(s, rows, cols) {
      var s' := Reduces(s, rows, cols, 0);
    } else if SystForm(s, rows, cols).Some? {
      SystFormNonsingular(s, rows, cols);
    }
  }

  // ----- inverses -----

  /** [A | I] */
  ghost function Augmented(a: Mat, k: nat): (s: Mat)
    ensures |s| == k * (2 * k)
  {
    Build(k, 2 * k, (r, c) => AugmentedAt(a, k, r, c))
  }

  lemma AugmentedIs(a: Mat, k: nat)
    requires Reduced(a)
    ensures IsAugmented(Augmented(a, k), a, k) && Reduced(Augmented(a, k))
  {
    hide At;
    var s := Augmented(a, k);
    forall r, c | 0 <= r < k && 0 <= c < 2 * k
      ensures At(s, 2 * k, r, c) == AugmentedAt(a, k, r, c) && 0 <= At(s, 2 * k, r, c) < P
    {
      BuildAt(k, 2 * k, (r, c) => AugmentedAt(a, k, r, c), r, c);
      AtReduced(a, k, r, c);
    }
    ReducedByEntries(k, 2 * k, s);
  }

  /** A matrix has a two-sided inverse if and only if it is nonsingular. */
  lemma InverseExists(k: nat, a: Mat)
    requires |a| == k * k && Reduced(a)
    ensures (exists b :: IsInverse(k, a, b)) <==> !Singular(a, k, k)
    ensures InverseOf(k, a).Some? <==> !Singular(a, k, k)
  {
    hide Singular, IsInverse, IsAugmented, IsSystForm;
    var s := Augmented(a, k);
    AugmentedIs(a, k);
    SystFormExists(s, k, 2 * k);
    if Singular(s, k, 2 * k) {
      AugmentedSingular(s, a, k);
    } else {
      RightHalfIsInverse(s, SystForm(s, k, 2 * k).value, a, k);
    }
  }

  /** l has a two-sided inverse. */
  ghost predicate Invertible(k: nat, l: Mat) {
    |l| == k * k && Reduced(l) && exists b :: IsInverse(k, l, b)
  }

  /** t is systematic and spans the same code as m. */
  ghost predicate SystematicBasis(m: Mat, t: Mat, k: nat, cols: nat) {
    Systematic(t, k, cols) && exists l :: Invertible(k, l) && t == Times(k, l, m, cols)
  }

  /** The systematic form is what an invertible change of basis makes systematic, and nothing else is. */
  lemma SystFormIsSystematicBasis(m: Mat, t: Mat, k: nat, cols: nat)
    requires k <= cols && |m| == k * cols && Reduced(m)
    ensures SystForm(m, k, cols) == Some(t) <==> SystematicBasis(m, t, k, cols)
  {
    hide Singular, Times, Systematic, IsInverse, LeftBlock, SameKernel;
    if SystForm(m, k, cols) == Some(t) {
      var f := LeftBlock(m, k, cols);
      SystFormIsChangeOfBasis(m, t, k, cols);
      LeftBlockReduced(m, k, cols);
      InverseExists(k, f);
      var l :| IsInverse(k, f, l);
      InverseGivesSystForm(m, t, l, k, cols);
      InverseIsInvertible(k, f, l);
      assert Invertible(k, l);
    }
    if l :| Systematic(t, k, cols) && Invertible(k, l) && t == Times(k, l, m, cols) {
      InverseExists(k, l);
      TimesIsLeftMultiple(k, l, m, cols);
      LeftMultipleKernel(t, l, m, k, cols);
      TimesReduced(k, l, m, cols);
      SameKernelFlip(t, m, k, cols);
      SystFormIs(m, t, k, cols);
    }
  }

  lemma InverseIsInvertible(k: nat, a: Mat, b: Mat)
    requires |a| == k * k && Reduced(a) && IsInverse(k, a, b)
    ensures Invertible(k, b)
  {
    hide Times;
    assert IsInverse(k, b, a);
  }
}
