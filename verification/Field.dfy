/** Arithmetic modulo the prime p and the field inversion of ref/matrixmod.c. */
module Field {
  import opened Arithmetic
  import opened Params
  import opened Sums

  function Mod(a: int): (r: int)
    ensures 0 <= r < P
  {
    a % P
  }

  lemma MulMonotone(d: int, b: int)
    requires b > 0
    ensures d >= 1 ==> d * b >= b
    ensures d <= -1 ==> d * b <= -b
  {
    if d >= 1 { assert (d - 1) * b >= 0; }
    if d <= -1 { assert (-d - 1) * b >= 0; }
  }

  lemma ModUnique(a: int, q: int, r: int)
    requires a == q * P + r && 0 <= r < P
    ensures Mod(a) == r
  {
    var d := a / P;
    assert a == d * P + a % P;
    MulSub(d, q, P);
    MulMonotone(d - q, P);
  }

  lemma ModShift(a: int, q: int)
    ensures Mod(a + q * P) == Mod(a)
  {
    var d := a / P;
    assert a == d * P + a % P;
    MulAdd(d, q, P);
    ModUnique(a + q * P, d + q, a % P);
  }

  lemma ModIdem(a: int)
    ensures Mod(Mod(a)) == Mod(a)
    ensures 0 <= a < P ==> Mod(a) == a
  {
    ModUnique(Mod(a), 0, Mod(a));
    if 0 <= a < P { ModUnique(a, 0, a); }
  }

  lemma Difference(a: int, a': int) returns (i: int)
    requires Mod(a) == Mod(a')
    ensures a == a' + i * P
  {
    var d, d' := a / P, a' / P;
    assert a == d * P + a % P && a' == d' * P + a' % P;
    MulSub(d, d', P);
    i := d - d';
  }

  lemma ModLinear(a: int, a': int, b: int, b': int)
    requires Mod(a) == Mod(a') && Mod(b) == Mod(b')
    ensures Mod(a + b) == Mod(a' + b') && Mod(a - b) == Mod(a' - b')
  {
    hide Mod;
    var i := Difference(a, a');
    var j := Difference(b, b');
    MulAdd(i, j, P);
    MulSub(i, j, P);
    ModShift(a' + b', i + j);
    ModShift(a' - b', i - j);
  }

  lemma ModMul(a: int, a': int, b: int, b': int)
    requires Mod(a) == Mod(a') && Mod(b) == Mod(b')
    ensures Mod(a * b) == Mod(a' * b')
  {
    ModFactor(a, a', b);
    ModFactor(b, b', a');
  }

  lemma SwapFactors(a: int, b: int, c: int)
    ensures (a * b) * c == (a * c) * b
  {
    MulAssoc(a, b, c);
    MulCommutes(b, c);
    MulAssoc(a, c, b);
  }

  lemma ScaledShift(a: int, a': int, i: int, b: int)
    requires a == a' + i * P
    ensures a * b == a' * b + (i * b) * P
  {
    var x := i * P;
    MulAdd(a', x, b);
    SwapFactors(i, P, b);
  }

  lemma ModFactor(a: int, a': int, b: int)
    requires Mod(a) == Mod(a')
    ensures Mod(a * b) == Mod(a' * b)
  {
    hide Mod;
    var i := Difference(a, a');
    ScaledShift(a, a', i, b);
    ModShift(a' * b, i * b);
  }

  lemma ModTimesZero(a: int, b: int)
    requires Mod(b) == 0
    ensures Mod(a * b) == 0
  {
    ModIdem(0);
    ModFactor(b, 0, a);
  }

  /** a divides exactly by p. */
  lemma ModZero(a: int, k: int)
    requires a == k * P
    ensures Mod(a) == 0
  {
    ModUnique(a, k, 0);
  }

  lemma {:induction false} SumMod(k: nat, f: int -> int, g: int -> int)
    requires forall i :: 0 <= i < k ==> Mod(f(i)) == Mod(g(i))
    ensures Mod(Sum(k, f)) == Mod(Sum(k, g))
  {
    if k > 0 {
      SumMod(k - 1, f, g);
      ModLinear(Sum(k - 1, f), Sum(k - 1, g), f(k - 1), g(k - 1));
    }
  }

  /** Euclid's lemma for the prime p. */
  lemma {:induction false} Euclid(a: int, b: int)
    requires 0 < a < P && Mod(a * b) == 0
    ensures Mod(b) == 0
    decreases a
  {
    if a == 1 {
    } else {
      var r, q := P % a, P / a;
      assert P % a != 0;
      var k := (a * b) / P;
      assert a * b == k * P;
      assert r == P - q * a;
      MulSub(P, q * a, b);
      MulAssoc(q, a, b);
      MulSub(b, q * k, P);
      MulAssoc(q, k, P);
      MulCommutes(P, b);
      ModZero(r * b, b - q * k);
      Euclid(r, b);
    }
  }

  lemma ModProductNonzero(a: int, b: int)
    requires Mod(a * b) == 0 && Mod(a) != 0
    ensures Mod(b) == 0
  {
    ModIdem(a);
    ModMul(Mod(a), a, b, b);
    Euclid(Mod(a), b);
  }

  // ----- Fermat's little theorem -----

  function Pow(a: int, e: nat): int {
    if e == 0 then 1 else a * Pow(a, e - 1)
  }

  ghost function Binom(m: nat, k: nat): nat {
    if k == 0 then 1 else if m == 0 then 0 else Binom(m - 1, k - 1) + Binom(m - 1, k)
  }

  lemma {:induction false} BinomAbove(m: nat, k: nat)
    requires k > m
    ensures Binom(m, k) == 0
  {
    if m > 0 { BinomAbove(m - 1, k - 1); BinomAbove(m - 1, k); }
  }

  /** k * C(m, k) == m * C(m-1, k-1) */
  lemma {:induction false} BinomAbsorb(m: nat, k: nat)
    requires m >= 1 && k >= 1
    ensures k * Binom(m, k) == m * Binom(m - 1, k - 1)
  {
    if m == 1 {
      if k > 1 { BinomAbove(1, k); BinomAbove(0, k - 1); }
    } else if k == 1 {
      BinomAbsorb(m - 1, 1);
    } else {
      BinomAbsorb(m - 1, k - 1);
      BinomAbsorb(m - 1, k);
      var a, b, c, d := Binom(m - 1, k - 1), Binom(m - 1, k), Binom(m - 2, k - 2), Binom(m - 2, k - 1);
      AbsorbStep(k, m, a, b, c, d);
    }
  }

  lemma AbsorbStep(k: int, m: int, a: int, b: int, c: int, d: int)
    requires (k - 1) * a == (m - 1) * c && k * b == (m - 1) * d && a == c + d
    ensures k * (a + b) == m * a
  {
    assert k * (a + b) == (k - 1) * a + a + k * b;
    assert (m - 1) * c + (m - 1) * d == (m - 1) * (c + d);
  }

  ghost function BinomTerm(a: int, m: nat, k: int): int {
    if k < 0 then 0 else Binom(m, k) * Pow(a, k)
  }

  lemma {:induction false} BinomialTheorem(a: int, m: nat)
    ensures Pow(a + 1, m) == Sum(m + 1, k => BinomTerm(a, m, k))
  {
    if m == 0 {
      SumOne(1, k => BinomTerm(a, 0, k), 0);
    } else {
      BinomialTheorem(a, m - 1);
      PascalSum(a, m);
    }
  }

  lemma PascalSum(a: int, m: nat)
    requires m >= 1
    ensures Sum(m + 1, k => BinomTerm(a, m, k)) == (a + 1) * Sum(m, k => BinomTerm(a, m - 1, k))
  {
    forall k | 0 <= k < m + 1
      ensures BinomTerm(a, m, k) == a * BinomTerm(a, m - 1, k - 1) + BinomTerm(a, m - 1, k)
    {
      PascalTerm(a, m, k);
    }
    BinomAbove(m - 1, m);
    ShiftAndAdd(m, k => BinomTerm(a, m, k), a, k => BinomTerm(a, m - 1, k));
  }

  lemma ShiftAndAdd(m: nat, f: int -> int, a: int, g: int -> int)
    requires m >= 1 && g(-1) == 0 && g(m) == 0
    requires forall k :: 0 <= k < m + 1 ==> f(k) == a * g(k - 1) + g(k)
    ensures Sum(m + 1, f) == (a + 1) * Sum(m, g)
  {
    var up, scaled := k => a * g(k - 1), k => a * g(k);
    var l := m + 1;
    assert Sum(l, g) == Sum(m, g);
    hide Sum;
    assert up(0) == 0 by { MulCommutes(a, 0); }
    SumAdd(l, f, up, g);
    SumShift(l, up, scaled);
    SumScale(m, scaled, a, g);
    MulAdd(a, 1, Sum(m, g));
  }

  lemma PascalTerm(a: int, m: nat, k: nat)
    requires m >= 1
    ensures BinomTerm(a, m, k) == a * BinomTerm(a, m - 1, k - 1) + BinomTerm(a, m - 1, k)
  {
    if k > 0 {
      var u, v, w := Binom(m - 1, k - 1), Binom(m - 1, k), Pow(a, k - 1);
      MulAdd(u, v, a * w);
      MulAssoc(u, a, w);
      MulCommutes(u, a);
      MulAssoc(a, u, w);
    }
  }

  lemma InnerTermVanishes(a: int, k: nat)
    requires 0 < k < P
    ensures Mod(BinomTerm(a, P, k)) == Mod(0)
  {
    BinomAbsorb(P, k);
    ModZero(P * Binom(P - 1, k - 1), Binom(P - 1, k - 1));
    Euclid(k, Binom(P, k));
    ModMul(Binom(P, k), 0, Pow(a, k), Pow(a, k));
  }

  lemma {:induction false} FreshmansDream(a: int)
    ensures Mod(Pow(a + 1, P)) == Mod(Pow(a, P) + 1)
  {
    BinomialTheorem(a, P);
    var f := k => BinomTerm(a, P, k);
    var ends := (k: int) => if k == 0 then 1 else 0;
    forall k | 0 <= k < P ensures Mod(f(k)) == Mod(ends(k)) {
      if k > 0 { InnerTermVanishes(a, k); }
    }
    SumMod(P, f, ends);
    SumOne(P, ends, 0);
    BinomDiagonal(P);
    ModLinear(Sum(P, f), 1, Pow(a, P), Pow(a, P));
  }

  lemma {:induction false} BinomDiagonal(m: nat)
    ensures Binom(m, m) == 1
  {
    if m > 0 { BinomDiagonal(m - 1); BinomAbove(m - 1, m); }
  }

  lemma {:induction false} FermatNat(a: nat)
    ensures Mod(Pow(a, P)) == Mod(a)
  {
    if a == 0 {
    } else {
      FermatNat(a - 1);
      FreshmansDream(a - 1);
      ModLinear(Pow(a - 1, P), a - 1, 1, 1);
    }
  }

  /** Fermat's little theorem: v^(p-2) inverts v. */
  lemma Fermat(v: nat)
    requires Mod(v) != 0
    ensures Mod(v * Pow(v, P - 2)) == 1
  {
    FermatNat(v);
    assert Pow(v, P) == v * Pow(v, P - 1) && Pow(v, P - 1) == v * Pow(v, P - 2);
    var z := Pow(v, P - 1);
    ModLinear(v * z, v, v, v);
    assert v * z - v == v * (z - 1);
    ModProductNonzero(v, z - 1);
    ModLinear(z - 1, 0, 1, 1);
    ModIdem(1);
  }

  // ----- GF_inv -----

  /** The value GF_inv computes; by Fermat it is the inverse of every v that p does not divide. */
  function Inverse(v: nat): (r: nat)
    ensures r < P
    ensures Mod(v) != 0 ==> Mod(v * r) == 1
  {
    if Mod(v) != 0 then
      Fermat(v);
      ModIdem(Pow(v, P - 2));
      ModMul(v, v, Mod(Pow(v, P - 2)), Pow(v, P - 2));
      Mod(Pow(v, P - 2))
    else
      Mod(Pow(v, P - 2))
  }

  lemma {:induction false} PowAdd(v: int, i: nat, j: nat)
    ensures Pow(v, i) * Pow(v, j) == Pow(v, i + j)
  {
    if i > 0 {
      PowAdd(v, i - 1, j);
      var x, y := Pow(v, i - 1), Pow(v, j);
      assert (v * x) * y == v * (x * y);
    }
  }

  /** One modular multiplication of an addition chain adds exponents. */
  lemma ChainStep(v: int, x: int, i: nat, y: int, j: nat)
    requires x == Mod(Pow(v, i)) && y == Mod(Pow(v, j))
    ensures Mod(x * y) == Mod(Pow(v, i + j))
  {
    PowAdd(v, i, j);
    ModIdem(Pow(v, i));
    ModIdem(Pow(v, j));
    ModMul(x, Pow(v, i), y, Pow(v, j));
  }

  /** The fixed addition chain for 8191. */
  method AdditionChain(val: nat) returns (r: nat)
    requires val < P
    ensures r == Mod(Pow(val, 8189))
  {
    var t0 := val;
    ModIdem(val);
    assert t0 == Mod(Pow(val, 1)) by { assert Pow(val, 1) == val * Pow(val, 0); }
    hide Pow;
    var t1 := Mod(t0 * t0);     ChainStep(val, t0, 1, t0, 1);
    var t2 := Mod(t1 * t0);     ChainStep(val, t1, 2, t0, 1);
    var t3 := Mod(t2 * t1);     ChainStep(val, t2, 3, t1, 2);
    var t4 := Mod(t3 * t3);     ChainStep(val, t3, 5, t3, 5);
    var t5 := Mod(t4 * t3);     ChainStep(val, t4, 10, t3, 5);
    var t6 := Mod(t5 * t5);     ChainStep(val, t5, 15, t5, 15);
    var t7 := Mod(t6 * t6);     ChainStep(val, t6, 30, t6, 30);
    var t8 := Mod(t7 * t7);     ChainStep(val, t7, 60, t7, 60);
    var t9 := Mod(t8 * t8);     ChainStep(val, t8, 120, t8, 120);
    var t10 := Mod(t9 * t5);    ChainStep(val, t9, 240, t5, 15);
    var t11 := Mod(t10 * t10);  ChainStep(val, t10, 255, t10, 255);
    var t12 := Mod(t11 * t11);  ChainStep(val, t11, 510, t11, 510);
    var t13 := Mod(t12 * t2);   ChainStep(val, t12, 1020, t2, 3);
    var t14 := Mod(t13 * t13);  ChainStep(val, t13, 1023, t13, 1023);
    var t15 := Mod(t14 * t14);  ChainStep(val, t14, 2046, t14, 2046);
    var t16 := Mod(t15 * t15);  ChainStep(val, t15, 4092, t15, 4092);
    var t17 := Mod(t16 * t3);   ChainStep(val, t16, 8184, t3, 5);
    return t17;
  }

  /** What the loop still has to deliver: t * v^e. */
  ghost function Pending(t: nat, v: nat, e: nat): int {
    Mod(t * Pow(v, e))
  }

  lemma PendingStart(v: nat, e: nat)
    ensures Pending(1, v, e) == Mod(Pow(v, e))
  {
  }

  lemma PendingEnd(t: nat, v: nat)
    requires t < P
    ensures Pending(t, v, 0) == t
  {
    ModIdem(t);
  }

  lemma PendingStep(t: nat, v: nat, e: nat)
    requires e > 0
    ensures Pending(t, v, e) == Pending(if e % 2 != 0 then Mod(t * v) else t, Mod(v * v), e / 2)
  {
    var h := e / 2;
    PowSquare(v, h);
    ModIdem(v * v);
    PowMod(Mod(v * v), v * v, h);
    if e % 2 != 0 {
      assert Pow(v, e) == v * Pow(v, 2 * h);
      hide Pow, Mod;
      MulAssoc(t, v, Pow(v, 2 * h));
      ModIdem(t * v);
      ModMul(Mod(t * v), t * v, Pow(Mod(v * v), h), Pow(v * v, h));
    } else {
      ModMul(t, t, Pow(Mod(v * v), h), Pow(v * v, h));
    }
  }

  /** The square-and-multiply loop used for every other prime. */
  method SquareAndMultiply(val: nat) returns (t: nat)
    requires val < P
    ensures t == Mod(Pow(val, P - 2))
  {
    var v: nat, exponent: nat := val, P - 2;
    t := 1;
    PendingStart(v, exponent);
    hide Pow;
    hide Pending;
    while exponent > 0
      invariant t < P && v < P && exponent >= 0
      invariant Pending(t, v, exponent) == Mod(Pow(val, P - 2))
    {
      PendingStep(t, v, exponent);
      if exponent % 2 != 0 {
        t := Mod(t * v);
      }
      v := Mod(v * v);
      exponent := exponent / 2;
    }
    PendingEnd(t, v);
  }

  lemma {:induction false} PowSquare(v: int, h: nat)
    ensures Pow(v * v, h) == Pow(v, 2 * h)
  {
    if h > 0 {
      PowSquare(v, h - 1);
      assert Pow(v, 2 * h) == v * Pow(v, 2 * h - 1) && Pow(v, 2 * h - 1) == v * Pow(v, 2 * h - 2);
      var z := Pow(v, 2 * h - 2);
      MulAssoc(v, v, z);
    }
  }

  lemma {:induction false} PowMod(x: int, y: int, h: nat)
    requires Mod(x) == Mod(y)
    ensures Mod(Pow(x, h)) == Mod(Pow(y, h))
  {
    if h > 0 {
      PowMod(x, y, h - 1);
      ModMul(x, y, Pow(x, h - 1), Pow(y, h - 1));
    }
  }

  method GfInv(val: nat) returns (r: nat)
    requires val < P
    ensures r == Inverse(val)
  {
    if P == 8191 {
      r := AdditionChain(val);
    } else {
      r := SquareAndMultiply(val);
    }
  }
}
