/** solve (ref/util.c): the sparse form of the linear system that makes the first two code words of
    the new key constant.  The plain form of the system is solve_symb in sage-ref/util.py. */
module Solver {
  import opened Arithmetic
  import opened Params
  import opened Sums
  import opened Field
  import opened Matrix
  import opened Elimination
  import opened Products
  import opened Action

  /** Entry (l, j) of A P1 is entry (l + 1, j) of B^-1; the last row of A P1 is zero. */
  ghost predicate ShiftEquation(a: Mat, bInv: Mat, p1: Mat, l: int, j: int) {
    At(Times(N, a, p1, N), N, l, j) == if l < N - 1 then At(bInv, N, l + 1, j) else 0
  }

  /** The equations: A P0 = B^-1 (the first word becomes the identity), and A P1 is B^-1 shifted up
      by one row except in its very last entry; the last entry of A is given. */
  ghost predicate IsSolution(a: Mat, bInv: Mat, p0: Mat, p1: Mat, amm: int) {
    && |a| == NN && Reduced(a) && bInv == Times(N, a, p0, N)
    && At(a, N, N - 1, N - 1) == amm
    && forall l, j :: 0 <= l < N && 0 <= j < N && !(l == N - 1 && j == N - 1) ==> ShiftEquation(a, bInv, p1, l, j)
  }

  /** Column j of the row vector u times the first d rows of p1. */
  ghost function RowTimes(u: Vec, p1: Mat, d: nat, j: int): int {
    Sum(d, i => u(i) * At(p1, N, i, j))
  }

  /** u annihilates the leading d x d block. */
  ghost predicate Annihilates(u: Vec, p1: Mat, d: nat) {
    forall j :: 0 <= j < d ==> Mod(RowTimes(u, p1, d, j)) == 0
  }

  /** The leading d x d block is singular: a nonzero row vector annihilates it. */
  ghost predicate LeftSingular(p1: Mat, d: nat) {
    exists u: Vec :: Nonzero(u, d) && Annihilates(u, p1, d)
  }

  /** Width of the work matrix. */
  const W: nat := 2 * N + 2

  /** The work matrix: row j holds the equations of column j. */
  ghost function SystemAt(p0: Mat, p1: Mat, amm: int, j: int, c: int): int {
    if c < N then Mod(P - At(p1, N, c, j))
    else if c < 2 * N then At(p0, N, c - N, j)
    else if c == 2 * N then Mod(At(p0, N, N - 1, j) * (P - amm))
    else Mod(At(p1, N, N - 1, j) * amm)
  }

  ghost predicate IsSystem(m: Mat, p0: Mat, p1: Mat, amm: int) {
    && |m| == N * W && Reduced(m)
    && forall j, c :: 0 <= j < N && 0 <= c < W ==> At(m, W, j, c) == SystemAt(p0, p1, amm, j, c)
  }

  lemma SumParts(f: int -> int, u: int -> int, v: int -> int, y: int, z: int)
    requires forall i :: 0 <= i < N ==> f(i) == u(i)
    requires forall i :: 0 <= i < N ==> f(N + i) == v(i)
    requires f(2 * N) == y && f(2 * N + 1) == z
    ensures Sum(W, f) == Sum(N, u) + Sum(N, v) + y + z
  {
    SumHalves(N, f, u, v);
  }

  // ----- vectors -----

  /** (row l of a, row l + 1 of a, 0, 0) */
  ghost function PairVector(a: Mat, l: int): Vec {
    c => if c < N then At(a, N, l, c) else if c < 2 * N then At(a, N, l + 1, c - N) else 0
  }

  /** (row n - 1 of a without its last entry, 0, ..., 0, -1) */
  ghost function LastVector(a: Mat): Vec {
    c => if c < N - 1 then At(a, N, N - 1, c) else if c == 2 * N + 1 then -1 else 0
  }

  /** amm times column 2n - 1 plus column 2n */
  ghost function ConstantVector(amm: int): Vec {
    c => if c == 2 * N then 1 else if c == 2 * N - 1 then amm else 0
  }

  lemma ModNegated(a: int, b: int)
    ensures Mod(Mod(P - a) * b) == Mod(-(a * b))
  {
    ModShift(-a, 1);
    ModIdem(P - a);
    ModFactor(Mod(P - a), -a, b);
    NegateFactor(b, a);
  }

  /** A column of P1 enters the work matrix with its sign changed. */
  lemma NegatedColumn(k: nat, p1: Mat, j: int, x: int -> int, u: int -> int, g: int -> int)
    requires forall i :: 0 <= i < k ==> u(i) == Mod(P - At(p1, N, i, j)) * x(i) && g(i) == x(i) * At(p1, N, i, j)
    ensures Mod(Sum(k, u)) == Mod(-Sum(k, g))
  {
    hide At;
    forall i | 0 <= i < k ensures Mod(u(i)) == Mod(-1 * g(i)) {
      ModNegated(At(p1, N, i, j), x(i));
      MulCommutes(x(i), At(p1, N, i, j));
    }
    SumModNegated(k, u, g);
  }

  lemma DotPair(m: Mat, p0: Mat, p1: Mat, amm: int, a: Mat, l: int, j: int)
    requires IsSystem(m, p0, p1, amm) && 0 <= j < N
    ensures Mod(Dot(m, W, j, PairVector(a, l))) == Mod(Entry(N, a, p0, N, l + 1, j) - Entry(N, a, p1, N, l, j))
  {
    hide At, Mod, Sum, Entry, Dot, IsSystem, PairVector;
    var x := PairVector(a, l);
    var u, v := i => Mod(P - At(p1, N, i, j)) * At(a, N, l, i), i => At(p0, N, i, j) * At(a, N, l + 1, i);
    var f := c => At(m, W, j, c) * x(c);
    PairSum(m, p0, p1, amm, a, l, j, f, u, v);
    PairProduct(p0, p1, a, l, j, u, v);
    DotIs(m, W, j, x, f);
  }

  lemma PairSum(m: Mat, p0: Mat, p1: Mat, amm: int, a: Mat, l: int, j: int,
      f: int -> int, u: int -> int, v: int -> int)
    requires IsSystem(m, p0, p1, amm) && 0 <= j < N
    requires forall c :: 0 <= c < W ==> f(c) == At(m, W, j, c) * PairVector(a, l)(c)
    requires forall i :: 0 <= i < N ==> u(i) == Mod(P - At(p1, N, i, j)) * At(a, N, l, i)
    requires forall i :: 0 <= i < N ==> v(i) == At(p0, N, i, j) * At(a, N, l + 1, i)
    ensures Sum(W, f) == Sum(N, u) + Sum(N, v)
  {
    hide At, Mod, Sum;
    assert f(2 * N) == 0 && f(2 * N + 1) == 0;
    hide IsSystem, PairVector;
    forall i | 0 <= i < N ensures f(i) == u(i) && f(N + i) == v(i) {
      PairCells(m, p0, p1, amm, a, l, j, i);
    }
    SumParts(f, u, v, 0, 0);
  }

  lemma PairCells(m: Mat, p0: Mat, p1: Mat, amm: int, a: Mat, l: int, j: int, i: int)
    requires IsSystem(m, p0, p1, amm) && 0 <= j < N && 0 <= i < N
    ensures At(m, W, j, i) == Mod(P - At(p1, N, i, j)) && At(m, W, j, N + i) == At(p0, N, i, j)
    ensures PairVector(a, l)(i) == At(a, N, l, i) && PairVector(a, l)(N + i) == At(a, N, l + 1, i)
  {
    hide At, Mod;
  }

  lemma DotIs(m: Mat, cols: nat, r: int, x: Vec, f: int -> int)
    requires forall c :: 0 <= c < cols ==> f(c) == At(m, cols, r, c) * x(c)
    ensures Dot(m, cols, r, x) == Sum(cols, f)
  {
    SumEq(cols, f, c => At(m, cols, r, c) * x(c));
  }

  lemma PairProduct(p0: Mat, p1: Mat, a: Mat, l: int, j: int, u: int -> int, v: int -> int)
    requires forall i :: 0 <= i < N ==> u(i) == Mod(P - At(p1, N, i, j)) * At(a, N, l, i)
    requires forall i :: 0 <= i < N ==> v(i) == At(p0, N, i, j) * At(a, N, l + 1, i)
    ensures Mod(Sum(N, u) + Sum(N, v)) == Mod(Entry(N, a, p0, N, l + 1, j) - Entry(N, a, p1, N, l, j))
  {
    hide At, Mod;
    var g := i => At(a, N, l, i) * At(p1, N, i, j);
    NegatedColumn(N, p1, j, i => At(a, N, l, i), u, g);
    EntryIs(a, p1, l, j, g);
    EntryIs(a, p0, l + 1, j, v);
    hide Entry;
    ModLinear(Sum(N, u), -Sum(N, g), Sum(N, v), Sum(N, v));
  }

  lemma EntryIs(a: Mat, b: Mat, r: int, j: int, g: int -> int)
    requires forall i :: 0 <= i < N ==> g(i) == At(a, N, r, i) * At(b, N, i, j)
    ensures Entry(N, a, b, N, r, j) == Sum(N, g)
  {
    hide At;
    SumEq(N, g, i => At(a, N, r, i) * At(b, N, i, j));
  }

  lemma DotLast(m: Mat, p0: Mat, p1: Mat, amm: int, a: Mat, j: int)
    requires IsSystem(m, p0, p1, amm) && 0 <= j < N && At(a, N, N - 1, N - 1) == amm
    ensures Mod(Dot(m, W, j, LastVector(a))) == Mod(-Entry(N, a, p1, N, N - 1, j))
  {
    hide At;
    var x := LastVector(a);
    var u := i => if i < N - 1 then Mod(P - At(p1, N, i, j)) * At(a, N, N - 1, i) else 0;
    var z := Mod(At(p1, N, N - 1, j) * amm);
    SumParts(c => At(m, W, j, c) * x(c), u, i => 0, 0, -z);
    SumZero(N, i => 0);
    SumTail(N, N - 1, u);
    hide Mod;
    LastProduct(p1, amm, a, j, u);
  }

  lemma LastProduct(p1: Mat, amm: int, a: Mat, j: int, u: int -> int)
    requires 0 <= j < N && At(a, N, N - 1, N - 1) == amm
    requires forall i :: 0 <= i < N - 1 ==> u(i) == Mod(P - At(p1, N, i, j)) * At(a, N, N - 1, i)
    ensures Mod(Sum(N - 1, u) - Mod(At(p1, N, N - 1, j) * amm)) == Mod(-Entry(N, a, p1, N, N - 1, j))
  {
    hide At, Mod;
    LastSum(p1, a, j, u);
    LastTerm(Sum(N - 1, u), Sum(N - 1, i => At(a, N, N - 1, i) * At(p1, N, i, j)), At(p1, N, N - 1, j), amm);
    LastEntry(p1, a, j);
  }

  lemma LastEntry(p1: Mat, a: Mat, j: int)
    ensures Entry(N, a, p1, N, N - 1, j)
      == Sum(N - 1, i => At(a, N, N - 1, i) * At(p1, N, i, j)) + At(a, N, N - 1, N - 1) * At(p1, N, N - 1, j)
  {
    hide At;
    var g := i => At(a, N, N - 1, i) * At(p1, N, i, j);
    SumEq(N, g, i => At(a, N, N - 1, i) * At(p1, N, i, j));
    assert Sum(N, g) == Sum(N - 1, g) + g(N - 1);
  }

  lemma LastSum(p1: Mat, a: Mat, j: int, u: int -> int)
    requires forall i :: 0 <= i < N - 1 ==> u(i) == Mod(P - At(p1, N, i, j)) * At(a, N, N - 1, i)
    ensures Mod(Sum(N - 1, u)) == Mod(-Sum(N - 1, i => At(a, N, N - 1, i) * At(p1, N, i, j)))
  {
    hide At;
    var g := i => At(a, N, N - 1, i) * At(p1, N, i, j);
    NegatedColumn(N - 1, p1, j, i => At(a, N, N - 1, i), u, g);
  }

  lemma SumModNegated(k: nat, u: int -> int, g: int -> int)
    requires forall i :: 0 <= i < k ==> Mod(u(i)) == Mod(-1 * g(i))
    ensures Mod(Sum(k, u)) == Mod(-Sum(k, g))
  {
    hide Mod, Sum;
    var negated := i => -1 * g(i);
    SumMod(k, u, negated);
    SumScale(k, negated, -1, g);
  }

  lemma LastTerm(u: int, g: int, q: int, amm: int)
    requires Mod(u) == Mod(-g)
    ensures Mod(u - Mod(q * amm)) == Mod(-(g + amm * q))
  {
    ModIdem(q * amm);
    ModLinear(u, -g, Mod(q * amm), q * amm);
  }

  lemma ConstantTerm(q: int, amm: int)
    ensures Mod(q * amm + Mod(q * (P - amm))) == 0
  {
    ModIdem(q * (P - amm));
    ModLinear(q * amm, q * amm, Mod(q * (P - amm)), q * (P - amm));
    MulCommutes(q, P - amm);
    MulSub(P, amm, q);
    MulCommutes(P, q);
    MulCommutes(amm, q);
    ModZero(q * P, q);
  }

  lemma DotConstant(m: Mat, p0: Mat, p1: Mat, amm: int, j: int)
    requires IsSystem(m, p0, p1, amm) && 0 <= j < N
    ensures Mod(Dot(m, W, j, ConstantVector(amm))) == 0
  {
    hide At;
    var x := ConstantVector(amm);
    var q := At(p0, N, N - 1, j);
    var v := i => if i == N - 1 then q * amm else 0;
    SumParts(c => At(m, W, j, c) * x(c), i => 0, v, Mod(q * (P - amm)), 0);
    SumZero(N, i => 0);
    SumOne(N, v, N - 1);
    ConstantTerm(q, amm);
  }

  lemma LeftSum(m: Mat, p0: Mat, p1: Mat, amm: int, d: nat, u: Vec, j: int, f: int -> int, g: int -> int)
    requires IsSystem(m, p0, p1, amm) && 0 <= j < N && d <= N && Supported(u, d, W)
    requires forall c :: 0 <= c < W ==> f(c) == At(m, W, j, c) * u(c)
    requires forall i :: 0 <= i < d ==> g(i) == u(i) * At(p1, N, i, j)
    ensures Mod(Sum(W, f)) == Mod(-Sum(d, g))
  {
    hide At, Mod;
    SumTail(W, d, f);
    NegatedColumn(d, p1, j, u, f, g);
  }

  lemma DotLeft(m: Mat, p0: Mat, p1: Mat, amm: int, d: nat, u: Vec, j: int)
    requires IsSystem(m, p0, p1, amm) && 0 <= j < N && d <= N && Supported(u, d, W)
    ensures Mod(Dot(m, W, j, u)) == 0 <==> Mod(RowTimes(u, p1, d, j)) == 0
  {
    hide At, Mod, Sum, Dot, IsSystem;
    var f, g := c => At(m, W, j, c) * u(c), i => u(i) * At(p1, N, i, j);
    LeftSum(m, p0, p1, amm, d, u, j, f, g);
    DotIs(m, W, j, u, f);
    ModNegatedZero(RowTimes(u, p1, d, j));
  }

  lemma ModNegatedZero(a: int)
    ensures Mod(-a) == 0 <==> Mod(a) == 0
  {
    ModIdem(0);
    if Mod(a) == 0 { ModLinear(0, 0, a, 0); }
    if Mod(-a) == 0 { ModLinear(0, 0, -a, 0); }
  }

  /** Singularity of the work matrix is singularity of P1 (or of its leading block). */
  lemma SystemSingular(m: Mat, p0: Mat, p1: Mat, amm: int, d: nat)
    requires IsSystem(m, p0, p1, amm) && d <= N
    ensures Singular(m, d, W) <==> LeftSingular(p1, d)
  {
    hide Dot;
    hide RowTimes;
    if Singular(m, d, W) {
      var u: Vec :| InKernel(m, d, W, u) && Supported(u, d, W) && Nonzero(u, d);
      forall j | 0 <= j < d ensures Mod(RowTimes(u, p1, d, j)) == 0 {
        DotLeft(m, p0, p1, amm, d, u, j);
      }
      assert Annihilates(u, p1, d);
    }
    if LeftSingular(p1, d) {
      var v: Vec :| Nonzero(v, d) && Annihilates(v, p1, d);
      var u: Vec := i => if i < d then v(i) else 0;
      forall j | 0 <= j < d ensures Mod(Dot(m, W, j, u)) == 0 {
        DotLeft(m, p0, p1, amm, d, u, j);
        RowTimesEq(u, v, p1, d, j);
      }
      var c :| 0 <= c < d && Mod(v(c)) != 0;
      assert Mod(u(c)) != 0;
      assert InKernel(m, d, W, u) && Supported(u, d, W) && Nonzero(u, d);
    }
  }

  lemma RowTimesEq(u: Vec, v: Vec, p1: Mat, d: nat, j: int)
    requires forall i :: 0 <= i < d ==> u(i) == v(i)
    ensures RowTimes(u, p1, d, j) == RowTimes(v, p1, d, j)
  {
    SumEq(d, i => u(i) * At(p1, N, i, j), i => v(i) * At(p1, N, i, j));
  }

  // ----- what the reduced work matrix says -----

  /** Reduced on the first n - 1 rows only; the last column then holds the last row of A. */
  ghost predicate IsFirstForm(s1: Mat, m: Mat) {
    && |s1| == |m| && Reduced(s1)
    && Systematic(s1, N - 1, W) && SameKernel(m, s1, N - 1, W)
  }

  /** Reduced on all n rows; columns up to 2n agree with the system, the last one is spent. */
  ghost predicate IsSecondForm(s2: Mat, m: Mat) {
    && |s2| == |m| && Reduced(s2)
    && Systematic(s2, N, W)
    && SameBelow(m, s2)
  }

  /** Same kernel as far as the columns up to 2n are concerned. */
  ghost predicate SameBelow(s: Mat, s': Mat) {
    forall x: Vec :: x(2 * N + 1) == 0 ==> (InKernel(s, N, W, x) <==> InKernel(s', N, W, x))
  }

  /** Entry (l, i) of A: row n - 1 is read off the first form, row l follows from row l + 1. */
  ghost function PropagatedAt(s1: Mat, s2: Mat, a: Mat, amm: int, l: int, i: int): int {
    if l < N - 1 then Mod(-Sum(N, k => At(s2, W, i, N + k) * At(a, N, l + 1, k)))
    else if i < N - 1 then At(s1, W, i, 2 * N + 1)
    else amm
  }

  ghost predicate IsPropagated(a: Mat, s1: Mat, s2: Mat, amm: int) {
    && |a| == NN && Reduced(a)
    && forall l, i :: 0 <= l < N && 0 <= i < N ==> At(a, N, l, i) == PropagatedAt(s1, s2, a, amm, l, i)
  }

  lemma FirstFormDot(s1: Mat, a: Mat, i: int)
    requires |s1| == N * W && Systematic(s1, N - 1, W) && 0 <= i < N - 1
    ensures Dot(s1, W, i, LastVector(a)) == At(a, N, N - 1, i) - At(s1, W, i, 2 * N + 1)
  {
    hide At;
    var x := LastVector(a);
    var u := c => if c == i then At(a, N, N - 1, i) else 0;
    forall c | 0 <= c < N ensures At(s1, W, i, c) * x(c) == u(c) {
      assert c < N - 1 && c != i ==> At(s1, W, i, c) == 0;
    }
    SumParts(c => At(s1, W, i, c) * x(c), u, c => 0, 0, -At(s1, W, i, 2 * N + 1));
    SumOne(N, u, i);
    SumZero(N, c => 0);
  }

  lemma SecondFormDot(s2: Mat, a: Mat, l: int, i: int)
    requires |s2| == N * W && Systematic(s2, N, W) && 0 <= i < N
    ensures Dot(s2, W, i, PairVector(a, l))
      == At(a, N, l, i) + Sum(N, k => At(s2, W, i, N + k) * At(a, N, l + 1, k))
  {
    hide At;
    var x := PairVector(a, l);
    var u := c => if c == i then At(a, N, l, i) else 0;
    var v := k => At(s2, W, i, N + k) * At(a, N, l + 1, k);
    SumParts(c => At(s2, W, i, c) * x(c), u, v, 0, 0);
    SumOne(N, u, i);
  }

  lemma SumNegated(a: int, b: int)
    requires 0 <= a < P
    ensures Mod(a + b) == 0 <==> a == Mod(-b)
  {
    ModIdem(a);
    ModIdem(-b);
    ModIdem(0);
    if Mod(a + b) == 0 { ModLinear(a + b, 0, b, b); }
    if a == Mod(-b) { ModLinear(a, -b, b, b); }
  }

  /** All equations that involve row l of A P1. */
  ghost predicate RowHolds(a: Mat, p0: Mat, p1: Mat, l: int) {
    forall j :: 0 <= j < N && !(l == N - 1 && j == N - 1) ==> ShiftEquation(a, Times(N, a, p0, N), p1, l, j)
  }

  ghost predicate RowPropagated(a: Mat, s1: Mat, s2: Mat, amm: int, l: int) {
    forall i :: 0 <= i < N ==> At(a, N, l, i) == PropagatedAt(s1, s2, a, amm, l, i)
  }

  /** Row n - 1: the equations of the last block hold exactly for the entries of the last column. */
  lemma LastRowEquations(m: Mat, p0: Mat, p1: Mat, amm: int, s1: Mat, s2: Mat, a: Mat)
    requires IsSystem(m, p0, p1, amm) && IsFirstForm(s1, m) && Reduced(a) && At(a, N, N - 1, N - 1) == amm
    ensures RowHolds(a, p0, p1, N - 1) <==> RowPropagated(a, s1, s2, amm, N - 1)
  {
    hide At;
    hide Entry;
    hide Dot;
    hide Times;
    var x, l := LastVector(a), N - 1;
    forall j | 0 <= j < N
      ensures Mod(Dot(m, W, j, x)) == 0 <==> ShiftEquation(a, Times(N, a, p0, N), p1, l, j)
    {
      DotLast(m, p0, p1, amm, a, j);
      TimesAt(N, a, p1, N, N - 1, j);
      ModNegatedZero(Entry(N, a, p1, N, N - 1, j));
    }
    if InKernel(m, N - 1, W, x) {
      forall j | 0 <= j < N && j != N - 1 ensures ShiftEquation(a, Times(N, a, p0, N), p1, l, j) {
        assert Mod(Dot(m, W, j, x)) == 0;
      }
    }
    if RowHolds(a, p0, p1, N - 1) {
      forall j | 0 <= j < N - 1 ensures Mod(Dot(m, W, j, x)) == 0 {
        assert ShiftEquation(a, Times(N, a, p0, N), p1, l, j);
      }
    }
    assert InKernel(m, N - 1, W, x) <==> RowHolds(a, p0, p1, N - 1);
    forall i | 0 <= i < N - 1
      ensures Mod(Dot(s1, W, i, x)) == 0 <==> At(a, N, N - 1, i) == At(s1, W, i, 2 * N + 1)
    {
      FirstFormDot(s1, a, i);
      AtReduced(a, N, N - 1, i);
      AtReduced(s1, W, i, 2 * N + 1);
      if Mod(Dot(s1, W, i, x)) == 0 { ModDifferenceZero(At(a, N, N - 1, i), At(s1, W, i, 2 * N + 1)); }
      ModIdem(0);
    }
    if InKernel(s1, N - 1, W, x) {
      forall i | 0 <= i < N ensures At(a, N, l, i) == PropagatedAt(s1, s2, a, amm, l, i) {
        if i < N - 1 { assert Mod(Dot(s1, W, i, x)) == 0; }
      }
    }
    if RowPropagated(a, s1, s2, amm, N - 1) {
      forall i | 0 <= i < N - 1 ensures Mod(Dot(s1, W, i, x)) == 0 {
        assert At(a, N, l, i) == PropagatedAt(s1, s2, a, amm, l, i);
      }
    }
  }

  /** Row l < n - 1: a_l P1 = a_(l+1) P0 holds exactly when a_l is propagated from a_(l+1). */
  lemma RowEquations(m: Mat, p0: Mat, p1: Mat, amm: int, s1: Mat, s2: Mat, a: Mat, l: int)
    requires IsSystem(m, p0, p1, amm) && IsSecondForm(s2, m) && Reduced(a) && 0 <= l < N - 1
    ensures RowHolds(a, p0, p1, l) <==> RowPropagated(a, s1, s2, amm, l)
  {
    hide At;
    hide Entry;
    hide Dot;
    hide Times;
    var x := PairVector(a, l);
    forall j | 0 <= j < N
      ensures Mod(Dot(m, W, j, x)) == 0 <==> ShiftEquation(a, Times(N, a, p0, N), p1, l, j)
    {
      DotPair(m, p0, p1, amm, a, l, j);
      TimesAt(N, a, p1, N, l, j);
      TimesAt(N, a, p0, N, l + 1, j);
      var u, v := Entry(N, a, p0, N, l + 1, j), Entry(N, a, p1, N, l, j);
      ModIdem(0);
      if Mod(u - v) == 0 { ModDifferenceZero(u, v); }
      if Mod(u) == Mod(v) { ModLinear(u, v, v, v); }
    }
    assert InKernel(m, N, W, x) <==> RowHolds(a, p0, p1, l);
    assert InKernel(m, N, W, x) <==> InKernel(s2, N, W, x);
    forall i | 0 <= i < N
      ensures Mod(Dot(s2, W, i, x)) == 0 <==> At(a, N, l, i) == PropagatedAt(s1, s2, a, amm, l, i)
    {
      SecondFormDot(s2, a, l, i);
      AtReduced(a, N, l, i);
      SumNegated(At(a, N, l, i), Sum(N, k => At(s2, W, i, N + k) * At(a, N, l + 1, k)));
    }
    assert InKernel(s2, N, W, x) <==> RowPropagated(a, s1, s2, amm, l);
  }

  /** The propagated A solves the full system, and nothing else does. */
  lemma PropagationSolves(m: Mat, p0: Mat, p1: Mat, amm: int, s1: Mat, s2: Mat, a: Mat)
    requires IsSystem(m, p0, p1, amm) && IsFirstForm(s1, m) && IsSecondForm(s2, m)
    requires |a| == NN && Reduced(a)
    ensures IsPropagated(a, s1, s2, amm) <==> IsSolution(a, Times(N, a, p0, N), p0, p1, amm)
  {
    hide At;
    hide Times;
    hide PropagatedAt;
    assert PropagatedAt(s1, s2, a, amm, N - 1, N - 1) == amm by { LastPropagated(s1, s2, a, amm); }
    if At(a, N, N - 1, N - 1) == amm {
      forall l | 0 <= l < N ensures RowHolds(a, p0, p1, l) <==> RowPropagated(a, s1, s2, amm, l) {
        if l < N - 1 {
          RowEquations(m, p0, p1, amm, s1, s2, a, l);
        } else {
          LastRowEquations(m, p0, p1, amm, s1, s2, a);
        }
      }
      if IsPropagated(a, s1, s2, amm) {
        forall l | 0 <= l < N ensures RowHolds(a, p0, p1, l) {
          assert RowPropagated(a, s1, s2, amm, l);
        }
        forall l, j | 0 <= l < N && 0 <= j < N && !(l == N - 1 && j == N - 1)
          ensures ShiftEquation(a, Times(N, a, p0, N), p1, l, j)
        {
          assert RowHolds(a, p0, p1, l);
        }
      }
      if IsSolution(a, Times(N, a, p0, N), p0, p1, amm) {
        forall l | 0 <= l < N ensures RowPropagated(a, s1, s2, amm, l) {
          assert RowHolds(a, p0, p1, l);
        }
        forall l, i | 0 <= l < N && 0 <= i < N ensures At(a, N, l, i) == PropagatedAt(s1, s2, a, amm, l, i) {
          assert RowPropagated(a, s1, s2, amm, l);
        }
        forall l, j | 0 <= l < N && 0 <= j < N && !(l == N - 1 && j == N - 1)
          ensures ShiftEquation(a, Times(N, a, p0, N), p1, l, j)
        {
          assert RowHolds(a, p0, p1, l);
        }
      }
    }
  }

  lemma LastPropagated(s1: Mat, s2: Mat, a: Mat, amm: int)
    ensures PropagatedAt(s1, s2, a, amm, N - 1, N - 1) == amm
  {
  }

  /** Propagation determines A. */
  lemma {:induction false} PropagationUnique(s1: Mat, s2: Mat, amm: int, a: Mat, a': Mat, l: nat)
    requires IsPropagated(a, s1, s2, amm) && IsPropagated(a', s1, s2, amm) && l < N
    ensures forall i :: 0 <= i < N ==> At(a, N, l, i) == At(a', N, l, i)
    decreases N - l
  {
    hide At;
    if l < N - 1 {
      PropagationUnique(s1, s2, amm, a, a', l + 1);
      forall i | 0 <= i < N ensures At(a, N, l, i) == At(a', N, l, i) {
        SumEq(N, k => At(s2, W, i, N + k) * At(a, N, l + 1, k), k => At(s2, W, i, N + k) * At(a', N, l + 1, k));
      }
    }
  }

  lemma SolutionUnique(m: Mat, p0: Mat, p1: Mat, amm: int, s1: Mat, s2: Mat, a: Mat, b: Mat, a': Mat, b': Mat)
    requires IsSystem(m, p0, p1, amm) && IsFirstForm(s1, m) && IsSecondForm(s2, m)
    requires IsSolution(a, b, p0, p1, amm) && IsSolution(a', b', p0, p1, amm)
    ensures a == a' && b == b'
  {
    hide At;
    PropagationSolves(m, p0, p1, amm, s1, s2, a);
    PropagationSolves(m, p0, p1, amm, s1, s2, a');
    forall l, i | 0 <= l < N && 0 <= i < N ensures At(a, N, l, i) == At(a', N, l, i) {
      PropagationUnique(s1, s2, amm, a, a', l);
    }
    MatEqual(N, N, a, a');
  }

  // ----- building the work matrix -----

  /** Columns left of c, and the first r rows of column c, are set up. */
  ghost predicate Built(m: Mat, p0: Mat, p1: Mat, amm: int, c: int, r: int) {
    && |m| == N * W && Reduced(m)
    && (forall j, q :: 0 <= j < N && 0 <= q < c ==> At(m, W, j, q) == SystemAt(p0, p1, amm, j, q))
    && (forall j :: 0 <= j < r ==> At(m, W, j, c) == SystemAt(p0, p1, amm, j, c))
  }

  method BuildSystem(m: array<int>, p0: array<int>, p1: array<int>, amm: int)
    requires m.Length == N * W && p0.Length == p1.Length == NN && m != p0 && m != p1
    requires Reduced(m[..]) && Reduced(p0[..]) && 0 <= amm < P
    modifies m
    ensures Reduced(m[..]) && IsSystem(m[..], p0[..], p1[..], amm)
  {
    hide At;
    ghost var q0, q1 := p0[..], p1[..];
    for i := 0 to N
      invariant p0[..] == q0 && p1[..] == q1 && Built(m[..], q0, q1, amm, i, 0)
    {
      for j := 0 to N
        invariant p0[..] == q0 && p1[..] == q1 && Built(m[..], q0, q1, amm, i, j)
      {
        var v := Cell(p1, N, N, i, j);
        SetCell(m, N, W, j, i, Mod(P - v));
      }
    }
    for i := 0 to N
      invariant p0[..] == q0 && p1[..] == q1 && Built(m[..], q0, q1, amm, N + i, 0)
    {
      for j := 0 to N
        invariant p0[..] == q0 && p1[..] == q1 && Built(m[..], q0, q1, amm, N + i, j)
      {
        var v := Cell(p0, N, N, i, j);
        AtReduced(q0, N, i, j);
        SetCell(m, N, W, j, i + N, v);
      }
    }
    for j := 0 to N
      invariant p0[..] == q0 && p1[..] == q1 && Built(m[..], q0, q1, amm, 2 * N, j)
    {
      var v := Cell(p0, N, N, N - 1, j);
      SetCell(m, N, W, j, N + N, Mod(v * (P - amm)));
    }
    for j := 0 to N
      invariant p0[..] == q0 && p1[..] == q1 && Built(m[..], q0, q1, amm, 2 * N + 1, j)
    {
      var v := Cell(p1, N, N, N - 1, j);
      SetCell(m, N, W, j, N + N + 1, Mod(v * amm));
    }
  }

  // ----- reducing it -----

  lemma SameBelowTrans(s: Mat, s': Mat, s'': Mat)
    requires SameBelow(s, s') && SameBelow(s', s'')
    ensures SameBelow(s, s'')
  {
  }

  /** A row operation that ignores the last column. */
  lemma OperationBelow(s: Mat, s': Mat, r: int, r2: int, a: int, b: int)
    requires 0 <= r < N && 0 <= r2 < N && (r != r2 || b == 0) && Mod(a) != 0
    requires forall c :: 0 <= c <= 2 * N ==>
      Mod(At(s', W, r, c)) == Mod(a * At(s, W, r, c) + b * At(s, W, r2, c))
    requires forall i, c :: 0 <= i < N && i != r && 0 <= c <= 2 * N ==> At(s', W, i, c) == At(s, W, i, c)
    ensures SameBelow(s, s')
  {
    hide At;
    forall x: Vec | x(2 * N + 1) == 0 ensures InKernel(s, N, W, x) <==> InKernel(s', N, W, x) {
      RowOperationOnVector(s, s', N, W, r, r2, a, b, x);
    }
  }

  /** The first n - 1 rows are reduced, and row n - 1 has lost its first r entries. */
  ghost predicate LastRowCleared(s: Mat, s1: Mat, r: int) {
    && |s| == |s1| == N * W && Reduced(s) && Systematic(s1, N - 1, W)
    && (forall i, c :: 0 <= i < N && 0 <= c < W && (i < N - 1 || c < r) ==>
      At(s, W, i, c) == if i < N - 1 then At(s1, W, i, c) else 0)
    && SameBelow(s1, s)
  }

  lemma SubtractOperation(s: Mat, s': Mat, src: int, dst: int, factor: int)
    requires 0 <= src < N && 0 <= dst < N && src != dst
    requires forall c :: 0 <= c <= 2 * N ==>
      Mod(At(s', W, dst, c)) == Mod(At(s, W, dst, c) - At(s, W, src, c) * factor)
    requires forall i, c :: 0 <= i < N && i != dst && 0 <= c <= 2 * N ==> At(s', W, i, c) == At(s, W, i, c)
    ensures SameBelow(s, s')
  {
    hide At;
    forall c | 0 <= c <= 2 * N
      ensures Mod(At(s', W, dst, c)) == Mod(1 * At(s, W, dst, c) + (-factor) * At(s, W, src, c))
    {
      NegateFactor(At(s, W, src, c), factor);
    }
    ModIdem(1);
    OperationBelow(s, s', dst, src, 1, -factor);
  }

  /** What the inner loop plus the assignment of 0 leave behind is one full row operation. */
  lemma ClearStep(s: Mat, s': Mat, s1: Mat, r: int, factor: int)
    requires 0 <= r < N - 1 && LastRowCleared(s, s1, r) && factor == At(s, W, N - 1, r)
    requires |s'| == |s| && Reduced(s')
    requires forall i, c :: 0 <= i < N && 0 <= c < W ==>
      At(s', W, i, c) == (if i != N - 1 then At(s, W, i, c)
        else if c == r then 0
        else if N - 1 <= c < 2 * N + 1 then Mod(At(s, W, i, c) - At(s, W, r, c) * factor)
        else At(s, W, i, c))
    ensures LastRowCleared(s', s1, r + 1)
  {
    hide At;
    forall c | 0 <= c <= 2 * N
      ensures Mod(At(s', W, N - 1, c)) == Mod(At(s, W, N - 1, c) - At(s, W, r, c) * factor)
    {
      ModIdem(At(s, W, N - 1, c) - At(s, W, r, c) * factor);
      ModIdem(0);
      assert c < N - 1 ==> At(s, W, r, c) == if r == c then 1 else 0;
    }
    SubtractOperation(s, s', r, N - 1, factor);
    SameBelowTrans(s1, s, s');
  }

  method ClearLastRow(m: array<int>)
    requires m.Length == N * W && LastRowCleared(m[..], m[..], 0)
    modifies m
    ensures LastRowCleared(m[..], old(m[..]), N - 1)
  {
    hide At;
    ghost var s1 := m[..];
    for r := 0 to N - 1
      invariant LastRowCleared(m[..], s1, r)
    {
      ghost var s := m[..];
      var factor := Cell(m, N, W, N - 1, r);
      SubtractRange(m, N, W, r, N - 1, factor, N - 1, 2 * N + 1);
      SetCell(m, N, W, N - 1, r, 0);
      ClearStep(s, m[..], s1, r, factor);
    }
  }

  ghost predicate LastColumnKept(s: Mat, s1: Mat) {
    forall i, c :: 0 <= i < N - 1 && c == 2 * N + 1 ==> At(s, W, i, c) == At(s1, W, i, c)
  }

  /** Row n - 1 is (0, ..., 0, 1, *), and column n - 1 is cleared in the first r rows. */
  ghost predicate ColumnCleared(s: Mat, s1: Mat, r: int) {
    && |s| == |s1| == N * W && Reduced(s)
    && (forall i, c :: 0 <= i < N && 0 <= c < N && (c < N - 1 || i < r || i == N - 1) ==>
      At(s, W, i, c) == if i == c then 1 else 0)
    && LastColumnKept(s, s1)
    && SameBelow(s1, s)
  }

  lemma NormalizeLast(s: Mat, s': Mat, s1: Mat, inv: int)
    requires LastRowCleared(s, s1, N - 1) && Mod(At(s, W, N - 1, N - 1) * inv) == 1
    requires |s'| == |s| && Reduced(s')
    requires forall i, c :: 0 <= i < N && 0 <= c < W ==>
      At(s', W, i, c) == (if i != N - 1 then At(s, W, i, c)
        else if c == N - 1 then 1
        else if c == 2 * N + 1 then 0
        else if N <= c < 2 * N + 1 then Mod(At(s, W, i, c) * inv)
        else At(s, W, i, c))
    ensures ColumnCleared(s', s1, 0)
  {
    hide At;
    var l := N - 1;
    forall c | 0 <= c <= 2 * N
      ensures Mod(At(s', W, l, c)) == Mod(inv * At(s, W, l, c) + 0 * At(s, W, l, c))
    {
      ModIdem(At(s, W, l, c) * inv);
      ModIdem(1);
    }
    if Mod(inv) == 0 { ModTimesZero(At(s, W, N - 1, N - 1), inv); }
    OperationBelow(s, s', N - 1, N - 1, inv, 0);
    SameBelowTrans(s1, s, s');
  }

  lemma BackLastStep(s: Mat, s': Mat, s1: Mat, r: int, factor: int)
    requires 0 <= r < N - 1 && ColumnCleared(s, s1, r) && factor == At(s, W, r, N - 1)
    requires |s'| == |s| && Reduced(s')
    requires forall i, c :: 0 <= i < N && 0 <= c < W ==>
      At(s', W, i, c) == (if i != r then At(s, W, i, c)
        else if c == N - 1 then 0
        else if N <= c < 2 * N + 1 then Mod(At(s, W, r, c) - At(s, W, N - 1, c) * factor)
        else At(s, W, r, c))
    ensures ColumnCleared(s', s1, r + 1)
  {
    hide At;
    forall c | 0 <= c <= 2 * N
      ensures Mod(At(s', W, r, c)) == Mod(At(s, W, r, c) - At(s, W, N - 1, c) * factor)
    {
      ModIdem(At(s, W, r, c) - At(s, W, N - 1, c) * factor);
      ModIdem(0);
      assert c < N ==> At(s, W, N - 1, c) == if N - 1 == c then 1 else 0;
    }
    SubtractOperation(s, s', N - 1, r, factor);
    SameBelowTrans(s1, s, s');
  }

  method BackSubstituteLast(m: array<int>, ghost s1: Mat)
    requires m.Length == N * W && ColumnCleared(m[..], s1, 0)
    modifies m
    ensures ColumnCleared(m[..], s1, N - 1)
  {
    hide At;
    for r := 0 to N - 1
      invariant ColumnCleared(m[..], s1, r)
    {
      ghost var s := m[..];
      var factor := Cell(m, N, W, r, N - 1);
      SubtractRange(m, N, W, N - 1, r, factor, N, 2 * N + 1);
      SetCell(m, N, W, r, N - 1, 0);
      BackLastStep(s, m[..], s1, r, factor);
    }
  }

  lemma SameBelowSingular(s: Mat, s': Mat)
    requires SameBelow(s, s')
    ensures Singular(s, N, W) <==> Singular(s', N, W)
  {
    if Singular(s, N, W) {
      var x: Vec :| InKernel(s, N, W, x) && Supported(x, N, W) && Nonzero(x, N);
      assert x(2 * N + 1) == 0 && InKernel(s', N, W, x);
    }
    if Singular(s', N, W) {
      var x: Vec :| InKernel(s', N, W, x) && Supported(x, N, W) && Nonzero(x, N);
      assert x(2 * N + 1) == 0 && InKernel(s, N, W, x);
    }
  }

  /** Reducing the first n - 1 rows keeps the kernel of all n rows. */
  lemma FirstFormSameBelow(m: Mat, s1: Mat)
    requires SameKernel(m, s1, N - 1, W) && RowsKept(m, s1, W, N - 1, N)
    ensures SameBelow(m, s1)
  {
    hide At;
    hide Dot;
    forall x: Vec ensures InKernel(m, N, W, x) <==> InKernel(s1, N, W, x) {
      assert InKernel(m, N - 1, W, x) <==> InKernel(s1, N - 1, W, x);
      DotMod(m, s1, W, N - 1, N - 1, x);
      assert InKernel(m, N, W, x) <==> InKernel(m, N - 1, W, x) && Mod(Dot(m, W, N - 1, x)) == 0;
      assert InKernel(s1, N, W, x) <==> InKernel(s1, N - 1, W, x) && Mod(Dot(s1, W, N - 1, x)) == 0;
    }
  }

  lemma LastPivotZero(s: Mat, s1: Mat)
    requires LastRowCleared(s, s1, N - 1) && At(s, W, N - 1, N - 1) == 0
    ensures Singular(s1, N, W)
  {
    hide At;
    PivotlessIsSingular(s, N, W, N - 1);
    SameBelowSingular(s1, s);
  }

  /** The last row gets its pivot 1, unless the pivot is 0. */
  method NormalizeRow(m: array<int>, ghost s1: Mat) returns (ok: bool)
    requires m.Length == N * W && LastRowCleared(m[..], s1, N - 1)
    modifies m
    ensures ok ==> ColumnCleared(m[..], s1, 0)
    ensures !ok ==> Singular(s1, N, W)
  {
    hide At, Mod, Singular, SameBelow;
    var val := Cell(m, N, W, N - 1, N - 1);
    AtReduced(m[..], W, N - 1, N - 1);
    if val == 0 {
      LastPivotZero(m[..], s1);
      return false;
    }
    ModIdem(val);
    var inv := GfInv(val);
    ghost var s := m[..];
    ScaleRange(m, N, W, N - 1, inv, N, 2 * N + 1);
    SetCell(m, N, W, N - 1, N - 1, 1);
    SetCell(m, N, W, N - 1, 2 * N + 1, 0);
    NormalizeLast(s, m[..], s1, inv);
    return true;
  }

  lemma ClearedIsSecondForm(s0: Mat, s1: Mat, s2: Mat)
    requires SameBelow(s0, s1) && ColumnCleared(s2, s1, N - 1) && |s0| == |s1|
    ensures IsSecondForm(s2, s0) && LastColumnKept(s2, s1) && !Singular(s0, N, W)
  {
    hide At, Singular, SameBelow;
    SameBelowTrans(s0, s1, s2);
    SameBelowSingular(s0, s2);
    SameKernelSelf(s2, N, W);
    SystematicNonsingular(s2, s2, N, W);
  }

  /** The reduction of the work matrix; s1 is its state after the first n - 1 rows are done. */
  method ReduceSystem(m: array<int>) returns (ok: bool, ghost s1: Mat)
    requires m.Length == N * W && Reduced(m[..])
    modifies m
    ensures ok <==> !Singular(old(m[..]), N - 1, W) && !Singular(old(m[..]), N, W)
    ensures ok ==> IsFirstForm(s1, old(m[..])) && IsSecondForm(m[..], old(m[..]))
    ensures ok ==> LastColumnKept(m[..], s1)
  {
    hide At, Mod, Singular, SameBelow, ColumnCleared, IsSecondForm, LastColumnKept, Systematic, SameKernel;
    ghost var s0 := m[..];
    IndexBound(N, W, N - 1, 0);
    var ret := SystCt(m, N - 1, W);
    s1 := m[..];
    if ret < 0 { return false, s1; }
    FirstFormSameBelow(s0, s1);
    SameBelowSingular(s0, s1);
    StartClearing(s1);
    hide LastRowCleared;
    ClearLastRow(m);
    ok := NormalizeRow(m, s1);
    if ok {
      BackSubstituteLast(m, s1);
      ClearedIsSecondForm(s0, s1, m[..]);
    }
  }

  lemma StartClearing(s1: Mat)
    requires |s1| == N * W && Reduced(s1) && Systematic(s1, N - 1, W)
    ensures LastRowCleared(s1, s1, 0)
  {
    hide At, InKernel;
  }

  // ----- propagation -----

  lemma {:induction false} SumReverse(k: nat, f: int -> int, g: int -> int)
    requires forall i :: 0 <= i < k ==> g(i) == f(k - 1 - i)
    ensures Sum(k, g) == Sum(k, f)
  {
    if k > 0 {
      SumShift(k, g, i => g(i + 1));
      SumReverse(k - 1, f, i => g(i + 1));
    }
  }

  /** One entry of a block: sol[dst][i] minus the product of row fRow of f with row src of sol. */
  ghost function Propagated(sol: Mat, f: Mat, fCols: nat, fRow: int, off: int, dst: int, i: int, src: int,
      count: nat): int
  {
    Mod(At(sol, N, dst, i) - Sum(count, k => At(f, fCols, fRow, off + k) * At(sol, N, src, k)))
  }

  lemma SubtractTerm(v: int, sum: int, t: int)
    ensures Mod(Mod(v - sum) + P - Mod(t)) == Mod(v - (sum + t))
  {
    ModIdem(v - sum);
    ModIdem(t);
    ModLinear(Mod(v - sum), v - sum, Mod(t), t);
    ModShift(Mod(v - sum) - Mod(t), 1);
  }

  lemma SubtractNext(v: int, j: nat, f: int -> int)
    ensures Mod(Mod(v - Sum(j, f)) + P - Mod(f(j))) == Mod(v - Sum(j + 1, f))
  {
    SubtractTerm(v, Sum(j, f), f(j));
  }

  method PropagateEntry(sol: array<int>, f: array<int>, fRows: nat, fCols: nat, off: int,
      dst: int, i: int, src: int, count: nat)
    requires sol.Length == 2 * N * N && Holds(f, fRows, fCols) && sol != f && Reduced(sol[..])
    requires 0 <= i < N && i < fRows && 0 <= off && off + count <= fCols && count <= N
    requires 0 <= dst < 2 * N && 0 <= src < 2 * N && dst != src
    modifies sol
    ensures Reduced(sol[..])
    ensures forall r, c :: 0 <= c < N && !(r == dst && c == i) ==> At(sol[..], N, r, c) == At(old(sol[..]), N, r, c)
    ensures At(sol[..], N, dst, i) == Propagated(old(sol[..]), f[..], fCols, i, off, dst, i, src, count)
  {
    hide At;
    ghost var s, f0 := sol[..], f[..];
    ghost var term := k => At(f0, fCols, i, off + k) * At(s, N, src, k);
    ghost var v := At(s, N, dst, i);
    AtReduced(s, N, dst, i);
    ModIdem(v);
    assert Sum(0, term) == 0;
    hide Sum, Mod;
    ghost var back := q => term(count - 1 - q);
    for j := 0 to count
      invariant f[..] == f0 && Reduced(sol[..])
      invariant forall r, c :: 0 <= c < N && !(r == dst && c == i) ==> At(sol[..], N, r, c) == At(s, N, r, c)
      invariant At(sol[..], N, dst, i) == Mod(v - Sum(j, back))
    {
      var x := Cell(f, fRows, fCols, i, off + count - 1 - j);
      var y := Cell(sol, 2 * N, N, src, count - 1 - j);
      var z := Cell(sol, 2 * N, N, dst, i);
      var tmp := z + P - Mod(x * y);
      assert x * y == back(j);
      SubtractNext(v, j, back);
      SetCell(sol, 2 * N, N, dst, i, Mod(tmp));
    }
    SumReverse(count, term, back);
    SumEq(count, term, k => At(f0, fCols, i, off + k) * At(s, N, src, k));
  }

  /** One block: row dst of sol from row src. */
  method PropagateRow(sol: array<int>, f: array<int>, fCols: nat, off: int, dst: int, src: int, count: nat)
    requires sol.Length == 2 * N * N && Holds(f, N, fCols) && sol != f && Reduced(sol[..])
    requires 0 <= off && off + count <= fCols && count <= N
    requires 0 <= dst < 2 * N && 0 <= src < 2 * N && dst != src
    modifies sol
    ensures Reduced(sol[..])
    ensures forall r, c :: 0 <= c < N && r != dst ==> At(sol[..], N, r, c) == At(old(sol[..]), N, r, c)
    ensures forall i :: 0 <= i < N ==>
      At(sol[..], N, dst, i) == Propagated(old(sol[..]), f[..], fCols, i, off, dst, i, src, count)
  {
    hide At;
    hide Propagated;
    ghost var s, f0 := sol[..], f[..];
    for i := 0 to N
      invariant f[..] == f0 && Reduced(sol[..])
      invariant forall r, c :: 0 <= c < N && (r != dst || c >= i) ==> At(sol[..], N, r, c) == At(s, N, r, c)
      invariant forall c :: 0 <= c < i ==>
        At(sol[..], N, dst, c) == Propagated(s, f0, fCols, c, off, dst, c, src, count)
    {
      ghost var s' := sol[..];
      PropagateEntry(sol, f, N, fCols, off, dst, i, src, count);
      PropagatedEq(s', s, f0, fCols, i, off, dst, i, src, count);
    }
  }

  lemma PropagatedEq(s: Mat, s': Mat, f: Mat, fCols: nat, fRow: int, off: int, dst: int, i: int, src: int, count: nat)
    requires At(s, N, dst, i) == At(s', N, dst, i)
    requires forall k :: 0 <= k < count ==> At(s, N, src, k) == At(s', N, src, k)
    ensures Propagated(s, f, fCols, fRow, off, dst, i, src, count) ==
      Propagated(s', f, fCols, fRow, off, dst, i, src, count)
  {
    hide At;
    SumEq(count, k => At(f, fCols, fRow, off + k) * At(s, N, src, k),
      k => At(f, fCols, fRow, off + k) * At(s', N, src, k));
  }

  // ----- solve -----
  // sol is a matrix of 2n rows: B^-1 in rows 0 to n - 1, A in rows n to 2n - 1.

  ghost function StepBack(sol: Mat, s2: Mat, r: int, i: int): int {
    Mod(-Sum(N, k => At(s2, W, i, N + k) * At(sol, N, r + 1, k)))
  }

  /** Row r of sol (row r - n of A) has been propagated from the row below it. */
  ghost predicate ARow(sol: Mat, s2: Mat, r: int) {
    forall i :: 0 <= i < N ==> At(sol, N, r, i) == StepBack(sol, s2, r, i)
  }

  /** Row l of B^-1 is row l of A times P0. */
  ghost predicate BRow(sol: Mat, p0: Mat, l: int) {
    forall i :: 0 <= i < N ==> At(sol, N, l, i) == Mod(Sum(N, k => At(sol, N, N + l, k) * At(p0, N, k, i)))
  }

  ghost predicate ZeroRow(sol: Mat, r: int) {
    forall i :: 0 <= i < N ==> At(sol, N, r, i) == 0
  }

  /** The last row of A: the last column of the reduced matrix, then amm. */
  ghost predicate LastRow(sol: Mat, s2: Mat, amm: int) {
    RowIsLast(sol, s2, amm, 2 * N - 1)
  }

  ghost predicate RowIsLast(sol: Mat, s2: Mat, amm: int, r: int) {
    forall i :: 0 <= i < N ==> At(sol, N, r, i) == if i < N - 1 then At(s2, W, i, 2 * N + 1) else amm
  }

  ghost predicate IsNegTranspose(f: Mat, p0: Mat) {
    |f| == NN && Reduced(f) && forall i, k :: 0 <= i < N && 0 <= k < N ==> At(f, N, i, k) == Mod(P - At(p0, N, k, i))
  }

  method NegTranspose(f: array<int>, p0: array<int>)
    requires f.Length == p0.Length == NN && f != p0 && Reduced(f[..])
    modifies f
    ensures IsNegTranspose(f[..], p0[..])
  {
    hide At;
    ghost var q0 := p0[..];
    for i := 0 to N
      invariant p0[..] == q0 && Reduced(f[..])
      invariant forall j, k :: 0 <= j < N && 0 <= k < i ==> At(f[..], N, j, k) == Mod(P - At(q0, N, k, j))
    {
      for j := 0 to N
        invariant p0[..] == q0 && Reduced(f[..])
        invariant forall j, k :: 0 <= j < N && 0 <= k < i ==> At(f[..], N, j, k) == Mod(P - At(q0, N, k, j))
        invariant forall q :: 0 <= q < j ==> At(f[..], N, q, i) == Mod(P - At(q0, N, i, q))
      {
        var v := Cell(p0, N, N, i, j);
        SetCell(f, N, N, j, i, Mod(P - v));
      }
    }
  }

  /** The four initial assignments to sol. */
  ghost predicate IsStart(sol: Mat, s2: Mat, p0: Mat, amm: int) {
    && Reduced(sol) && LastRow(sol, s2, amm)
    && (var r := 2 * N - 2; forall i :: 0 <= i < N ==> At(sol, N, r, i) == At(s2, W, i, 2 * N))
    && (var r := N - 1; forall i :: 0 <= i < N ==> At(sol, N, r, i) == Mod(At(p0, N, r, i) * amm))
    && forall r :: 0 <= r < 2 * N - 2 && r != N - 1 ==> ZeroRow(sol, r)
  }

  method InitSol(sol: array<int>, m: array<int>, p0: array<int>, amm: int)
    requires sol.Length == 2 * N * N && m.Length == N * W && p0.Length == NN && sol != m && sol != p0
    requires Reduced(m[..]) && 0 <= amm < P && Reduced(sol[..])
    requires forall r, c :: 0 <= c < N ==> At(sol[..], N, r, c) == 0
    modifies sol
    ensures IsStart(sol[..], m[..], p0[..], amm)
  {
    hide At;
    ghost var s2, q0 := m[..], p0[..];
    var a1, a2, b1 := 2 * N - 1, 2 * N - 2, N - 1;
    SetCell(sol, 2 * N, N, a1, N - 1, amm);
    for i := 0 to N - 1
      invariant m[..] == s2 && p0[..] == q0 && Reduced(sol[..])
      invariant forall r, c :: 0 <= c < N ==>
        At(sol[..], N, r, c) ==
          (if r == a1 && c < i then At(s2, W, c, 2 * N + 1) else if r == a1 && c == N - 1 then amm else 0)
    {
      var v := Cell(m, N, W, i, 2 * N + 1);
      AtReduced(s2, W, i, 2 * N + 1);
      SetCell(sol, 2 * N, N, a1, i, v);
    }
    assert LastRow(sol[..], s2, amm);
    for i := 0 to N
      invariant m[..] == s2 && p0[..] == q0 && Reduced(sol[..]) && LastRow(sol[..], s2, amm)
      invariant forall r, c :: 0 <= c < N && r != a1 ==>
        At(sol[..], N, r, c) == (if r == a2 && c < i then At(s2, W, c, 2 * N) else 0)
    {
      var v := Cell(m, N, W, i, 2 * N);
      AtReduced(s2, W, i, 2 * N);
      SetCell(sol, 2 * N, N, a2, i, v);
    }
    for i := 0 to N
      invariant m[..] == s2 && p0[..] == q0 && Reduced(sol[..]) && LastRow(sol[..], s2, amm)
      invariant forall r, c :: 0 <= c < N && r != a1 ==>
        At(sol[..], N, r, c) ==
          (if r == a2 then At(s2, W, c, 2 * N) else if r == b1 && c < i then Mod(At(q0, N, b1, c) * amm) else 0)
    {
      var v := Cell(p0, N, N, b1, i);
      SetCell(sol, 2 * N, N, b1, i, Mod(v * amm));
    }
  }

  ghost predicate SameRow(s: Mat, s': Mat, r: int) {
    forall k :: 0 <= k < N ==> At(s', N, r, k) == At(s, N, r, k)
  }

  /** The incomplete block of A: the column 2n stands in for the product with the known entry amm. */
  lemma IncompleteA(s: Mat, s': Mat, s2: Mat, m: Mat, p0: Mat, p1: Mat, amm: int, i: int)
    requires IsSystem(m, p0, p1, amm) && IsSecondForm(s2, m) && 0 <= i < N
    requires LastRow(s, s2, amm) && At(s, N, 2 * N - 2, i) == At(s2, W, i, 2 * N)
    requires SameRow(s, s', 2 * N - 1)
    ensures Propagated(s, s2, W, i, N, 2 * N - 2, i, 2 * N - 1, N - 1) == StepBack(s', s2, 2 * N - 2, i)
  {
    hide At;
    hide Dot;
    var x := ConstantVector(amm);
    forall j | 0 <= j < N ensures Mod(Dot(m, W, j, x)) == 0 { DotConstant(m, p0, p1, amm, j); }
    assert InKernel(m, N, W, x);
    assert InKernel(s2, N, W, x);
    ConstantRow(s2, amm, i);
    var f := k => At(s2, W, i, N + k) * At(s, N, 2 * N - 1, k);
    SumEq(N - 1, k => At(s2, W, i, N + k) * At(s, N, 2 * N - 1, k), f);
    SumEq(N, k => At(s2, W, i, N + k) * At(s', N, (2 * N - 2) + 1, k), f);
    var r := 2 * N - 1;
    assert At(s, N, r, N - 1) == amm;
    CancelConstant(At(s2, W, i, 2 * N), At(s2, W, i, 2 * N - 1), amm, Sum(N - 1, f));
  }

  lemma ConstantRow(s2: Mat, amm: int, i: int)
    requires |s2| == N * W && Systematic(s2, N, W) && 0 <= i < N
    requires Mod(Dot(s2, W, i, ConstantVector(amm))) == 0
    ensures Mod(At(s2, W, i, 2 * N) + At(s2, W, i, 2 * N - 1) * amm) == 0
  {
    hide At;
    var x := ConstantVector(amm);
    var v := k => if k == N - 1 then At(s2, W, i, 2 * N - 1) * amm else 0;
    SumParts(c => At(s2, W, i, c) * x(c), c => 0, v, At(s2, W, i, 2 * N), 0);
    SumZero(N, c => 0);
    SumOne(N, v, N - 1);
  }

  lemma CancelConstant(y: int, q: int, amm: int, sum: int)
    requires Mod(y + q * amm) == 0
    ensures Mod(y - sum) == Mod(-(sum + q * amm))
  {
    ModIdem(0);
    ModLinear(y + q * amm, 0, sum + q * amm, sum + q * amm);
  }

  /** A complete block starts from zero. */
  lemma CompleteA(s: Mat, s': Mat, s2: Mat, r: int, i: int)
    requires At(s, N, r, i) == 0 && SameRow(s, s', r + 1)
    ensures Propagated(s, s2, W, i, N, r, i, r + 1, N) == StepBack(s', s2, r, i)
  {
    hide At;
    SumEq(N, k => At(s2, W, i, N + k) * At(s, N, r + 1, k), k => At(s2, W, i, N + k) * At(s', N, r + 1, k));
  }

  lemma IncompleteB(s: Mat, s': Mat, f: Mat, p0: Mat, amm: int, s2: Mat, i: int)
    requires IsNegTranspose(f, p0) && 0 <= i < N && LastRow(s, s2, amm)
    requires At(s, N, N - 1, i) == Mod(At(p0, N, N - 1, i) * amm) && SameRow(s, s', 2 * N - 1)
    ensures Propagated(s, f, N, i, 0, N - 1, i, 2 * N - 1, N - 1)
      == Mod(Sum(N, k => At(s', N, N + (N - 1), k) * At(p0, N, k, i)))
  {
    hide At;
    var r := 2 * N - 1;
    var g := k => At(s, N, r, k) * At(p0, N, k, i);
    NegatedSum(s, f, p0, r, i, N - 1);
    SumEq(N, k => At(s', N, N + (N - 1), k) * At(p0, N, k, i), g);
    assert Sum(N, g) == Sum(N - 1, g) + g(N - 1);
    assert At(s, N, r, N - 1) == amm;
    SumEq(N - 1, k => At(f, N, i, 0 + k) * At(s, N, r, k), k => At(f, N, i, k) * At(s, N, r, k));
    FinishB(At(p0, N, N - 1, i), amm, Sum(N - 1, k => At(f, N, i, k) * At(s, N, r, k)), Sum(N - 1, g));
  }

  lemma FinishB(q: int, amm: int, u: int, g: int)
    requires Mod(u) == Mod(-g)
    ensures Mod(Mod(q * amm) - u) == Mod(g + amm * q)
  {
    ModIdem(q * amm);
    ModLinear(Mod(q * amm), q * amm, u, -g);
  }

  lemma NegatedSum(s: Mat, f: Mat, p0: Mat, r: int, i: int, count: nat)
    requires IsNegTranspose(f, p0) && 0 <= i < N && count <= N
    ensures Mod(Sum(count, k => At(f, N, i, k) * At(s, N, r, k)))
      == Mod(-Sum(count, k => At(s, N, r, k) * At(p0, N, k, i)))
  {
    hide At;
    var u, g := k => At(f, N, i, k) * At(s, N, r, k), k => At(s, N, r, k) * At(p0, N, k, i);
    forall k | 0 <= k < count ensures Mod(u(k)) == Mod(-1 * g(k)) {
      ModNegated(At(p0, N, k, i), At(s, N, r, k));
    }
    SumMod(count, u, k => -1 * g(k));
    SumScale(count, k => -1 * g(k), -1, g);
  }

  lemma CompleteB(s: Mat, s': Mat, f: Mat, p0: Mat, l: int, i: int)
    requires IsNegTranspose(f, p0) && 0 <= i < N
    requires At(s, N, l, i) == 0 && SameRow(s, s', N + l)
    ensures Propagated(s, f, N, i, 0, l, i, N + l, N) == Mod(Sum(N, k => At(s', N, N + l, k) * At(p0, N, k, i)))
  {
    hide At;
    var r := N + l;
    var g := k => At(s, N, r, k) * At(p0, N, k, i);
    NegatedSum(s, f, p0, r, i, N);
    SumEq(N, k => At(s', N, N + l, k) * At(p0, N, k, i), g);
    SumEq(N, k => At(f, N, i, 0 + k) * At(s, N, N + l, k), k => At(f, N, i, k) * At(s, N, r, k));
    var z := Sum(N, k => At(f, N, i, k) * At(s, N, r, k));
    ModLinear(0, 0, z, -Sum(N, g));
  }

  /** Rows of A from lo on are final; the rows above them are still zero. */
  ghost predicate Progress(sol: Mat, s2: Mat, p0: Mat, amm: int, aLo: int, bLo: int) {
    && Reduced(sol) && LastRow(sol, s2, amm)
    && (forall r :: aLo <= r < 2 * N - 1 ==> ARow(sol, s2, r))
    && (forall r :: N <= r < aLo ==> ZeroRow(sol, r))
    && (forall l :: bLo <= l < N ==> BRow(sol, p0, l))
    && (forall l :: 0 <= l < bLo ==> ZeroRow(sol, l))
  }

  ghost predicate OnlyRow(s: Mat, s': Mat, row: int) {
    forall r, c :: 0 <= c < N && r != row ==> At(s', N, r, c) == At(s, N, r, c)
  }

  lemma KeepARow(s: Mat, s': Mat, s2: Mat, r: int)
    requires ARow(s, s2, r) && SameRow(s, s', r) && SameRow(s, s', r + 1)
    ensures ARow(s', s2, r)
  {
    hide At;
    forall i | 0 <= i < N ensures At(s', N, r, i) == StepBack(s', s2, r, i) {
      SumEq(N, k => At(s2, W, i, N + k) * At(s, N, r + 1, k), k => At(s2, W, i, N + k) * At(s', N, r + 1, k));
    }
  }

  lemma KeepBRow(s: Mat, s': Mat, p0: Mat, l: int)
    requires BRow(s, p0, l) && SameRow(s, s', l) && SameRow(s, s', N + l)
    ensures BRow(s', p0, l)
  {
    hide At;
    forall i | 0 <= i < N ensures At(s', N, l, i) == Mod(Sum(N, k => At(s', N, N + l, k) * At(p0, N, k, i))) {
      SumEq(N, k => At(s, N, N + l, k) * At(p0, N, k, i), k => At(s', N, N + l, k) * At(p0, N, k, i));
    }
  }

  /** After the two incomplete blocks. */
  lemma StartProgress(s: Mat, t: Mat, u: Mat, f: Mat, s2: Mat, m: Mat, p0: Mat, p1: Mat, amm: int)
    requires IsSystem(m, p0, p1, amm) && IsSecondForm(s2, m) && IsNegTranspose(f, p0) && IsStart(s, s2, p0, amm)
    requires OnlyRow(s, t, 2 * N - 2) && OnlyRow(t, u, N - 1) && Reduced(u)
    requires var r := 2 * N - 2;
      forall i :: 0 <= i < N ==> At(t, N, r, i) == Propagated(s, s2, W, i, N, r, i, r + 1, N - 1)
    requires var r := N - 1;
      forall i :: 0 <= i < N ==> At(u, N, r, i) == Propagated(t, f, N, i, 0, r, i, 2 * N - 1, N - 1)
    ensures Progress(u, s2, p0, amm, 2 * N - 2, N - 1)
  {
    hide At;
    hide Propagated;
    var r, q := 2 * N - 2, N - 1;
    forall i | 0 <= i < N ensures At(u, N, r, i) == StepBack(u, s2, r, i) {
      IncompleteA(s, u, s2, m, p0, p1, amm, i);
    }
    forall i | 0 <= i < N ensures At(u, N, q, i) == Mod(Sum(N, k => At(u, N, N + q, k) * At(p0, N, k, i))) {
      IncompleteB(t, u, f, p0, amm, s2, i);
    }
    assert ARow(u, s2, r) && BRow(u, p0, q);
    forall l | 0 <= l < 2 * N - 2 && l != q ensures ZeroRow(u, l) {
      assert ZeroRow(s, l);
    }
  }

  lemma StepA(s: Mat, s': Mat, s2: Mat, p0: Mat, amm: int, r: int)
    requires Progress(s, s2, p0, amm, r + 1, N - 1) && N <= r < 2 * N - 2
    requires OnlyRow(s, s', r) && Reduced(s')
    requires forall i :: 0 <= i < N ==> At(s', N, r, i) == Propagated(s, s2, W, i, N, r, i, r + 1, N)
    ensures Progress(s', s2, p0, amm, r, N - 1)
  {
    hide At;
    hide Propagated;
    hide StepBack;
    assert ZeroRow(s, r);
    forall i | 0 <= i < N ensures At(s', N, r, i) == StepBack(s', s2, r, i) {
      CompleteA(s, s', s2, r, i);
    }
    forall q | r + 1 <= q < 2 * N - 1 ensures ARow(s', s2, q) { KeepARow(s, s', s2, q); }
    forall q | N <= q < r ensures ZeroRow(s', q) { assert ZeroRow(s, q); }
    forall l | 0 <= l < N - 1 ensures ZeroRow(s', l) { assert ZeroRow(s, l); }
    KeepBRow(s, s', p0, N - 1);
  }

  lemma StepB(s: Mat, s': Mat, f: Mat, s2: Mat, p0: Mat, amm: int, l: int)
    requires IsNegTranspose(f, p0) && Progress(s, s2, p0, amm, N, l + 1) && 0 <= l < N
    requires OnlyRow(s, s', l) && Reduced(s')
    requires forall i :: 0 <= i < N ==> At(s', N, l, i) == Propagated(s, f, N, i, 0, l, i, N + l, N)
    ensures Progress(s', s2, p0, amm, N, l)
  {
    hide At;
    hide Propagated;
    hide StepBack;
    assert ZeroRow(s, l);
    forall i | 0 <= i < N ensures At(s', N, l, i) == Mod(Sum(N, k => At(s', N, N + l, k) * At(p0, N, k, i))) {
      CompleteB(s, s', f, p0, l, i);
    }
    forall q | N <= q < 2 * N - 1 ensures ARow(s', s2, q) { KeepARow(s, s', s2, q); }
    forall q | 0 <= q < l ensures ZeroRow(s', q) { assert ZeroRow(s, q); }
    forall q | l + 1 <= q < N ensures BRow(s', p0, q) { KeepBRow(s, s', p0, q); }
  }

  /** a and b are the lower and the upper half of sol. */
  ghost predicate IsCut(sol: Mat, a: Mat, b: Mat) {
    && |a| == |b| == NN && Reduced(a)
    && forall l, i :: 0 <= l < N && 0 <= i < N ==>
      At(a, N, l, i) == At(sol, N, N + l, i) && At(b, N, l, i) == At(sol, N, l, i)
  }

  lemma HalfIndex(l: int, i: int)
    ensures N * (N + l) + i == NN + (N * l + i)
  {
  }

  lemma Cut(sol: Mat, a: Mat, b: Mat)
    requires |sol| == 2 * NN && Reduced(sol) && a == sol[NN..] && b == sol[..NN]
    ensures IsCut(sol, a, b)
  {
    forall l, i | 0 <= l < N && 0 <= i < N
      ensures At(a, N, l, i) == At(sol, N, N + l, i) && At(b, N, l, i) == At(sol, N, l, i)
    {
      IndexBound(N, N, l, i);
      HalfIndex(l, i);
    }
  }

  lemma CutRow(sol: Mat, a: Mat, b: Mat, s1: Mat, s2: Mat, amm: int, l: int, i: int)
    requires IsCut(sol, a, b) && 0 <= l < N - 1 && 0 <= i < N && ARow(sol, s2, N + l)
    ensures At(a, N, l, i) == PropagatedAt(s1, s2, a, amm, l, i)
  {
    hide At;
    var r := N + l;
    assert At(sol, N, r, i) == StepBack(sol, s2, r, i);
    var l', r' := l + 1, r + 1;
    forall k | 0 <= k < N ensures At(a, N, l', k) == At(sol, N, r', k) {
      assert N + l' == r';
    }
    SumEq(N, k => At(s2, W, i, N + k) * At(sol, N, r + 1, k), k => At(s2, W, i, N + k) * At(a, N, l + 1, k));
  }

  lemma CutLastRow(sol: Mat, a: Mat, b: Mat, s1: Mat, s2: Mat, amm: int, i: int)
    requires IsCut(sol, a, b) && 0 <= i < N && LastRow(sol, s2, amm) && LastColumnKept(s2, s1)
    ensures At(a, N, N - 1, i) == PropagatedAt(s1, s2, a, amm, N - 1, i)
  {
    hide At;
    var l := N - 1;
    var r := N + l;
    assert RowIsLast(sol, s2, amm, r);
    assert At(a, N, l, i) == At(sol, N, r, i);
    var c := 2 * N + 1;
    assert i < N - 1 ==> At(s2, W, i, c) == At(s1, W, i, c);
  }

  lemma CutPropagated(sol: Mat, a: Mat, b: Mat, p0: Mat, amm: int, s1: Mat, s2: Mat)
    requires IsCut(sol, a, b) && Progress(sol, s2, p0, amm, N, 0) && LastColumnKept(s2, s1)
    ensures IsPropagated(a, s1, s2, amm)
  {
    hide At, PropagatedAt;
    forall l, i | 0 <= l < N && 0 <= i < N ensures At(a, N, l, i) == PropagatedAt(s1, s2, a, amm, l, i) {
      if l < N - 1 {
        CutRow(sol, a, b, s1, s2, amm, l, i);
      } else {
        CutLastRow(sol, a, b, s1, s2, amm, i);
      }
    }
  }

  lemma CutProduct(sol: Mat, a: Mat, b: Mat, p0: Mat, amm: int, s2: Mat)
    requires IsCut(sol, a, b) && Progress(sol, s2, p0, amm, N, 0)
    ensures b == Times(N, a, p0, N)
  {
    hide At;
    forall l, i | 0 <= l < N && 0 <= i < N ensures At(b, N, l, i) == At(Times(N, a, p0, N), N, l, i) {
      assert BRow(sol, p0, l);
      TimesAt(N, a, p0, N, l, i);
      SumEq(N, k => At(sol, N, N + l, k) * At(p0, N, k, i), j => At(a, N, l, j) * At(p0, N, j, i));
    }
    MatEqual(N, N, b, Times(N, a, p0, N));
  }

  /** The blocks of sol, one after the other. */
  method FillSolution(sol: array<int>, m: array<int>, f: array<int>, p0: array<int>, amm: int,
      ghost m0: Mat, ghost p1: Mat)
    requires sol.Length == 2 * N * N && m.Length == N * W && f.Length == p0.Length == NN
    requires sol != m && sol != f && sol != p0 && 0 <= amm < P && Reduced(sol[..])
    requires forall r, c :: 0 <= c < N ==> At(sol[..], N, r, c) == 0
    requires IsSystem(m0, p0[..], p1, amm) && IsSecondForm(m[..], m0) && IsNegTranspose(f[..], p0[..])
    modifies sol
    ensures Reduced(sol[..]) && Progress(sol[..], m[..], p0[..], amm, N, 0)
  {
    hide At;
    hide Propagated;
    hide Progress;
    ghost var s2, f0, q0 := m[..], f[..], p0[..];
    InitSol(sol, m, p0, amm);
    ghost var s := sol[..];
    PropagateRow(sol, m, W, N, 2 * N - 2, 2 * N - 1, N - 1);
    ghost var t := sol[..];
    PropagateRow(sol, f, N, 0, N - 1, 2 * N - 1, N - 1);
    StartProgress(s, t, sol[..], f0, s2, m0, q0, p1, amm);
    for block := 3 to N + 1
      invariant m[..] == s2 && f[..] == f0 && p0[..] == q0 && Reduced(sol[..])
      invariant Progress(sol[..], s2, q0, amm, 2 * N - block + 1, N - 1)
    {
      s := sol[..];
      PropagateRow(sol, m, W, N, 2 * N - block, 2 * N - block + 1, N);
      StepA(s, sol[..], s2, q0, amm, 2 * N - block);
    }
    for block := 2 to N + 1
      invariant m[..] == s2 && f[..] == f0 && p0[..] == q0 && Reduced(sol[..])
      invariant Progress(sol[..], s2, q0, amm, N, N - block + 1)
    {
      s := sol[..];
      PropagateRow(sol, f, N, 0, N - block, 2 * N - block, N);
      StepB(s, sol[..], f0, s2, q0, amm, N - block);
    }
  }

  lemma ZeroMatrix(s: Mat)
    requires forall i :: 0 <= i < |s| ==> s[i] == 0
    ensures Reduced(s) && forall r, c :: At(s, N, r, c) == 0
  {
  }

  method CopyFrom(dst: array<int>, src: array<int>, off: nat)
    requires off + dst.Length <= src.Length && dst != src
    modifies dst
    ensures dst[..] == src[off..off + dst.Length]
  {
    for i := 0 to dst.Length
      invariant dst[..i] == src[off..off + i]
    {
      dst[i] := src[i + off];
    }
  }

  /** The first and second word of a code. */
  ghost function Word(g: Mat, l: nat): Mat
    requires l < 2 && |g| == N * NN
  {
    assert (N - 2) * NN >= 0;
    if l == 0 then g[..NN] else g[NN..2 * NN]
  }

  /** The only solution of the full system. */
  ghost predicate IsOnlySolution(a: Mat, bInv: Mat, p0: Mat, p1: Mat, amm: int) {
    && IsSolution(a, bInv, p0, p1, amm)
    && forall a', b' :: IsSolution(a', b', p0, p1, amm) ==> a' == a && b' == bInv
  }

  lemma OnlySolution(m: Mat, p0: Mat, p1: Mat, amm: int, s1: Mat, s2: Mat, a: Mat, b: Mat)
    requires IsSystem(m, p0, p1, amm) && IsFirstForm(s1, m) && IsSecondForm(s2, m)
    requires IsPropagated(a, s1, s2, amm) && b == Times(N, a, p0, N)
    ensures IsOnlySolution(a, b, p0, p1, amm)
  {
    PropagationSolves(m, p0, p1, amm, s1, s2, a);
    forall a', b' | IsSolution(a', b', p0, p1, amm) ensures a' == a && b' == b {
      SolutionUnique(m, p0, p1, amm, s1, s2, a, b, a', b');
    }
  }

  lemma Lengths()
    ensures 2 * N * N == NN + NN && 2 * NN <= N * NN
  {
    assert (N - 2) * NN >= 0;
  }

  /** solve after P0 and P1 have been copied out of the code. */
  method SolveWords(a: array<int>, bInv: array<int>, p0: array<int>, p1: array<int>, amm: int) returns (ret: int)
    requires a.Length == bInv.Length == NN && a != bInv && p0.Length == p1.Length == NN
    requires a != p0 && a != p1 && bInv != p0 && bInv != p1 && Reduced(p0[..]) && 0 <= amm < P
    modifies a, bInv
    ensures ret == 0 || ret == -1
    ensures ret == 0 <==> !LeftSingular(p1[..], N - 1) && !LeftSingular(p1[..], N)
    ensures ret == 0 ==> IsOnlySolution(a[..], bInv[..], p0[..], p1[..], amm)
    ensures ret == -1 ==> a[..] == old(a[..]) && bInv[..] == old(bInv[..])
  {
    hide At, LeftSingular, Singular, IsSystem, IsFirstForm, IsSecondForm, IsPropagated, Progress, LastColumnKept;
    hide IsOnlySolution;
    ghost var q0, q1 := p0[..], p1[..];
    var f, m := new int[NN](_ => 0), new int[N * W](_ => 0);
    NegTranspose(f, p0);
    BuildSystem(m, p0, p1, amm);
    ghost var m0 := m[..];
    SystemSingular(m0, q0, q1, amm, N - 1);
    SystemSingular(m0, q0, q1, amm, N);
    var ok, s1 := ReduceSystem(m);
    if !ok { return -1; }
    var sol := new int[2 * N * N](_ => 0);
    ZeroMatrix(sol[..]);
    FillSolution(sol, m, f, p0, amm, m0, q1);
    Lengths();
    CopyFrom(a, sol, NN);
    CopyFrom(bInv, sol, 0);
    Cut(sol[..], a[..], bInv[..]);
    CutPropagated(sol[..], a[..], bInv[..], q0, amm, s1, m[..]);
    CutProduct(sol[..], a[..], bInv[..], q0, amm, m[..]);
    OnlySolution(m0, q0, q1, amm, s1, m[..], a[..], bInv[..]);
    return 0;
  }

  /** solve: 0 exactly when P1 and its leading (n-1) x (n-1) block are nonsingular; A and B^-1 are
      then the only solution of the full system for this amm. */
  method Solve(a: array<int>, bInv: array<int>, g0prime: array<int>, amm: int) returns (ret: int)
    requires a.Length == bInv.Length == NN && a != bInv && g0prime.Length == N * NN
    requires a != g0prime && bInv != g0prime && Reduced(g0prime[..]) && 0 <= amm < P
    modifies a, bInv
    ensures ret == 0 || ret == -1
    ensures var p1 := Word(old(g0prime[..]), 1);
      ret == 0 <==> !LeftSingular(p1, N - 1) && !LeftSingular(p1, N)
    ensures ret == 0 ==>
      IsOnlySolution(a[..], bInv[..], Word(old(g0prime[..]), 0), Word(old(g0prime[..]), 1), amm)
    ensures ret == -1 ==> a[..] == old(a[..]) && bInv[..] == old(bInv[..])
  {
    hide LeftSingular, IsOnlySolution;
    var p0, p1 := new int[NN], new int[NN];
    Lengths();
    CopyFrom(p0, g0prime, 0);
    CopyFrom(p1, g0prime, NN);
    ret := SolveWords(a, bInv, p0, p1, amm);
  }
}
