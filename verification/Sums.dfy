/** Finite sums of integers, the currency of all matrix identities below. */
module Sums {

  import opened Arithmetic

  ghost function Sum(k: nat, f: int -> int): int {
    if k == 0 then 0 else Sum(k - 1, f) + f(k - 1)
  }

  lemma {:induction false} SumEq(k: nat, f: int -> int, g: int -> int)
    requires forall i :: 0 <= i < k ==> f(i) == g(i)
    ensures Sum(k, f) == Sum(k, g)
  {
    if k > 0 { SumEq(k - 1, f, g); }
  }

  lemma {:induction false} SumZero(k: nat, f: int -> int)
    requires forall i :: 0 <= i < k ==> f(i) == 0
    ensures Sum(k, f) == 0
  {
    if k > 0 { SumZero(k - 1, f); }
  }

  /** A sum with one possibly nonzero term. */
  lemma {:induction false} SumOne(k: nat, f: int -> int, j: int)
    requires 0 <= j < k
    requires forall i :: 0 <= i < k && i != j ==> f(i) == 0
    ensures Sum(k, f) == f(j)
  {
    if j == k - 1 { SumZero(k - 1, f); } else { SumOne(k - 1, f, j); }
  }

  lemma {:induction false} SumLinear(k: nat, f: int -> int, a: int, g: int -> int, b: int, h: int -> int)
    requires forall i :: 0 <= i < k ==> f(i) == a * g(i) + b * h(i)
    ensures Sum(k, f) == a * Sum(k, g) + b * Sum(k, h)
  {
    if k > 0 {
      SumLinear(k - 1, f, a, g, b, h);
      var u, v := Sum(k - 1, g), Sum(k - 1, h);
      assert a * (u + g(k - 1)) == a * u + a * g(k - 1);
      assert b * (v + h(k - 1)) == b * v + b * h(k - 1);
    }
  }

  lemma SumAdd(k: nat, f: int -> int, g: int -> int, h: int -> int)
    requires forall i :: 0 <= i < k ==> f(i) == g(i) + h(i)
    ensures Sum(k, f) == Sum(k, g) + Sum(k, h)
  {
    SumLinear(k, f, 1, g, 1, h);
  }

  lemma SumScale(k: nat, f: int -> int, a: int, g: int -> int)
    requires forall i :: 0 <= i < k ==> f(i) == a * g(i)
    ensures Sum(k, f) == a * Sum(k, g)
  {
    SumLinear(k, f, a, g, 0, g);
  }

  /** Exchange of summation order; rowSums and colSums name the two inner sums. */
  lemma {:induction false} SumSwap(k: nat, l: nat, t: (int, int) -> int, rowSums: int -> int, colSums: int -> int)
    requires forall i :: 0 <= i < k ==> rowSums(i) == Sum(l, j => t(i, j))
    requires forall j :: 0 <= j < l ==> colSums(j) == Sum(k, i => t(i, j))
    ensures Sum(k, rowSums) == Sum(l, colSums)
  {
    if k == 0 {
      SumZero(l, colSums);
    } else {
      var shorter := j => Sum(k - 1, i => t(i, j));
      SumSwap(k - 1, l, t, rowSums, shorter);
      SumAdd(l, colSums, shorter, j => t(k - 1, j));
    }
  }

  /** The first term split off. */
  lemma {:induction false} SumShift(k: nat, f: int -> int, g: int -> int)
    requires k >= 1
    requires forall i :: 0 <= i < k - 1 ==> g(i) == f(i + 1)
    ensures Sum(k, f) == f(0) + Sum(k - 1, g)
  {
    if k > 1 { SumShift(k - 1, f, g); }
  }

  /** Zero terms at the end do not matter. */
  lemma {:induction false} SumTail(k: nat, j: nat, f: int -> int)
    requires j <= k && forall i :: j <= i < k ==> f(i) == 0
    ensures Sum(k, f) == Sum(j, f)
  {
    if j < k { SumTail(k - 1, j, f); }
  }

  /** sum_c (sum_l f(l) g(l,c)) x(c) == sum_l f(l) (sum_c g(l,c) x(c)) */
  lemma SumRegroup(k: nat, l: nat, f: int -> int, g: (int, int) -> int, x: int -> int)
    ensures Sum(l, c => Sum(k, i => f(i) * g(i, c)) * x(c)) == Sum(k, i => f(i) * Sum(l, c => g(i, c) * x(c)))
  {
    var t := (c: int, i: int) => f(i) * g(i, c) * x(c);
    var rows, cols := c => Sum(k, i => f(i) * g(i, c)) * x(c), i => f(i) * Sum(l, c => g(i, c) * x(c));
    forall c | 0 <= c < l ensures rows(c) == Sum(k, i => t(c, i)) {
      RegroupRow(k, i => t(c, i), i => f(i) * g(i, c), x(c));
    }
    forall i | 0 <= i < k ensures cols(i) == Sum(l, c => t(c, i)) {
      RegroupColumn(l, c => t(c, i), f(i), c => g(i, c), x, c => g(i, c) * x(c));
    }
    SumSwap(l, k, t, rows, cols);
  }

  lemma RegroupRow(k: nat, t: int -> int, g: int -> int, x: int)
    requires forall i :: 0 <= i < k ==> t(i) == g(i) * x
    ensures Sum(k, t) == Sum(k, g) * x
  {
    SumScale(k, t, x, g);
  }

  lemma RegroupColumn(l: nat, t: int -> int, f: int, g: int -> int, x: int -> int, gx: int -> int)
    requires forall c :: 0 <= c < l ==> t(c) == f * g(c) * x(c) && gx(c) == g(c) * x(c)
    ensures Sum(l, t) == f * Sum(l, gx)
  {
    forall c | 0 <= c < l ensures t(c) == f * (g(c) * x(c)) {
      MulAssoc(f, g(c), x(c));
    }
    SumScale(l, t, f, gx);
  }
}
