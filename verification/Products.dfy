/** Matrix products (pmod_mat_mul), inverses (pmod_mat_inv) and the algebra they satisfy. */
module Products {
  import opened Params
  import opened Sums
  import opened Field
  import opened Loops
  import opened Matrix
  import opened Elimination

  /** Entry (r, c) of the k x k matrix a times the k x cols matrix b, before reduction. */
  ghost function Entry(k: nat, a: Mat, b: Mat, cols: nat, r: int, c: int): int {
    Sum(k, i => At(a, k, r, i) * At(b, cols, i, c))
  }

  ghost function Times(k: nat, a: Mat, b: Mat, cols: nat): (s: Mat)
    ensures |s| == k * cols
  {
    Build(k, cols, (r, c) => Mod(Entry(k, a, b, cols, r, c)))
  }

  lemma TimesAt(k: nat, a: Mat, b: Mat, cols: nat, r: int, c: int)
    requires 0 <= r < k && 0 <= c < cols
    ensures At(Times(k, a, b, cols), cols, r, c) == Mod(Entry(k, a, b, cols, r, c))
  {
    hide At;
    BuildAt(k, cols, (r, c) => Mod(Entry(k, a, b, cols, r, c)), r, c);
  }

  lemma TimesReduced(k: nat, a: Mat, b: Mat, cols: nat)
    ensures Reduced(Times(k, a, b, cols))
  {
    ReducedByEntries(k, cols, Times(k, a, b, cols)) by {
      forall r, c | 0 <= r < k && 0 <= c < cols ensures 0 <= At(Times(k, a, b, cols), cols, r, c) < P {
        TimesAt(k, a, b, cols, r, c);
      }
    }
  }

  lemma ReducedByEntries(rows: nat, cols: nat, s: Mat)
    requires |s| == rows * cols
    requires forall r, c :: 0 <= r < rows && 0 <= c < cols ==> 0 <= At(s, cols, r, c) < P
    ensures Reduced(s)
  {
    forall i | 0 <= i < |s| ensures 0 <= s[i] < P {
      IndexSplit(rows, cols, i);
      assert 0 <= At(s, cols, i / cols, i % cols) < P;
    }
  }

  /** (a b) c == a (b c) */
  lemma TimesAssoc(k: nat, a: Mat, b: Mat, c: Mat, cols: nat)
    ensures Times(k, Times(k, a, b, k), c, cols) == Times(k, a, Times(k, b, c, cols), cols)
  {
    var left, right := Times(k, Times(k, a, b, k), c, cols), Times(k, a, Times(k, b, c, cols), cols);
    forall r, j | 0 <= r < k && 0 <= j < cols ensures At(left, cols, r, j) == At(right, cols, r, j) {
      TimesAt(k, Times(k, a, b, k), c, cols, r, j);
      TimesAt(k, a, Times(k, b, c, cols), cols, r, j);
      AssocEntry(k, a, b, c, cols, r, j);
    }
    hide At;
    MatEqual(k, cols, left, right);
  }

  lemma AssocEntry(k: nat, a: Mat, b: Mat, c: Mat, cols: nat, r: int, j: int)
    requires 0 <= r < k && 0 <= j < cols
    ensures Mod(Entry(k, Times(k, a, b, k), c, cols, r, j)) == Mod(Entry(k, a, Times(k, b, c, cols), cols, r, j))
  {
    hide At;
    var al, bl, cl := l => At(a, k, r, l), (l, i) => At(b, k, l, i), i => At(c, cols, i, j);
    var ab, bc := Times(k, a, b, k), Times(k, b, c, cols);
    var f, g := i => Sum(k, l => al(l) * bl(l, i)) * cl(i), l => al(l) * Sum(k, i => bl(l, i) * cl(i));
    var f', g' := i => At(ab, k, r, i) * At(c, cols, i, j), l => At(a, k, r, l) * At(bc, cols, l, j);
    forall i | 0 <= i < k ensures Mod(f'(i)) == Mod(f(i)) {
      TimesAt(k, a, b, k, r, i);
      SumEq(k, l => al(l) * bl(l, i), l => At(a, k, r, l) * At(b, k, l, i));
      ModIdem(Entry(k, a, b, k, r, i));
      ModFactor(At(ab, k, r, i), Entry(k, a, b, k, r, i), cl(i));
    }
    forall l | 0 <= l < k ensures Mod(g'(l)) == Mod(g(l)) {
      TimesAt(k, b, c, cols, l, j);
      SumEq(k, i => bl(l, i) * cl(i), i => At(b, k, l, i) * At(c, cols, i, j));
      ModIdem(Entry(k, b, c, cols, l, j));
      ModMul(al(l), al(l), At(bc, cols, l, j), Entry(k, b, c, cols, l, j));
    }
    SumMod(k, f', f);
    SumMod(k, g', g);
    SumRegroup(k, k, al, bl, cl);
    SumEq(k, f, i => Sum(k, l => al(l) * bl(l, i)) * cl(i));
    SumEq(k, g, l => al(l) * Sum(k, i => bl(l, i) * cl(i)));
  }

  // ----- identity and inverse -----

  ghost function Identity(k: nat): (s: Mat)
    ensures |s| == k * k
  {
    Build(k, k, (r, c) => if r == c then 1 else 0)
  }

  lemma IdentityAt(k: nat, r: int, c: int)
    requires 0 <= r < k && 0 <= c < k
    ensures At(Identity(k), k, r, c) == if r == c then 1 else 0
  {
    BuildAt(k, k, (r, c) => if r == c then 1 else 0, r, c);
  }

  lemma TimesIdentityLeft(k: nat, b: Mat, cols: nat)
    requires |b| == k * cols && Reduced(b)
    ensures Times(k, Identity(k), b, cols) == b
  {
    var t := Times(k, Identity(k), b, cols);
    forall r, c | 0 <= r < k && 0 <= c < cols ensures At(t, cols, r, c) == At(b, cols, r, c) {
      TimesAt(k, Identity(k), b, cols, r, c);
      AtReduced(b, cols, r, c);
      ModIdem(At(b, cols, r, c));
      hide At;
      forall i | 0 <= i < k ensures At(Identity(k), k, r, i) == if r == i then 1 else 0 { IdentityAt(k, r, i); }
      SumOne(k, i => At(Identity(k), k, r, i) * At(b, cols, i, c), r);
    }
    hide At;
    MatEqual(k, cols, t, b);
  }

  lemma TimesIdentityRight(k: nat, a: Mat)
    requires |a| == k * k && Reduced(a)
    ensures Times(k, a, Identity(k), k) == a
  {
    var t := Times(k, a, Identity(k), k);
    forall r, c | 0 <= r < k && 0 <= c < k ensures At(t, k, r, c) == At(a, k, r, c) {
      TimesAt(k, a, Identity(k), k, r, c);
      AtReduced(a, k, r, c);
      ModIdem(At(a, k, r, c));
      hide At;
      forall i | 0 <= i < k ensures At(Identity(k), k, i, c) == if i == c then 1 else 0 { IdentityAt(k, i, c); }
      SumOne(k, i => At(a, k, r, i) * At(Identity(k), k, i, c), c);
    }
    hide At;
    MatEqual(k, k, t, a);
  }

  ghost predicate IsInverse(k: nat, a: Mat, b: Mat) {
    && |b| == k * k && Reduced(b)
    && Times(k, a, b, k) == Identity(k) && Times(k, b, a, k) == Identity(k)
  }

  /** The inverse of a k x k matrix, None when it has none. */
  ghost function InverseOf(k: nat, a: Mat): (r: Option<Mat>)
    ensures r.Some? ==> IsInverse(k, a, r.value)
  {
    if b :| IsInverse(k, a, b) then Some(b) else None
  }

  lemma InverseUnique(k: nat, a: Mat, b: Mat, b': Mat)
    requires IsInverse(k, a, b) && IsInverse(k, a, b')
    ensures b == b'
  {
    calc {
      b;
      { TimesIdentityRight(k, b); }
      Times(k, b, Identity(k), k);
      Times(k, b, Times(k, a, b', k), k);
      { TimesAssoc(k, b, a, b', k); }
      Times(k, Identity(k), b', k);
      { TimesIdentityLeft(k, b', k); }
      b';
    }
  }

  /** A matrix with a left inverse is nonsingular. */
  lemma InvertibleNonsingular(k: nat, a: Mat, b: Mat)
    requires Times(k, b, a, k) == Identity(k)
    ensures !Singular(a, k, k)
  {
    hide At;
    forall r, c | 0 <= r < k && 0 <= c < k
      ensures Mod(At(Identity(k), k, r, c)) == Mod(Sum(k, l => At(b, k, r, l) * At(a, k, l, c)))
    {
      TimesAt(k, b, a, k, r, c);
      ModIdem(Entry(k, b, a, k, r, c));
      SumEq(k, i => At(b, k, r, i) * At(a, k, i, c), l => At(b, k, r, l) * At(a, k, l, c));
    }
    assert LeftMultiple(Identity(k), b, a, k, k);
    forall x: Vec | InKernel(a, k, k, x) ensures !Nonzero(x, k) {
      forall r | 0 <= r < k ensures Mod(x(r)) == 0 {
        DotLeftMultiple(Identity(k), b, a, k, k, r, x);
        var y := l => Dot(a, k, l, x);
        DotEq(b, k, r, l => Dot(a, k, l, x), y);
        DotVanishes(b, k, r, y);
        forall c | 0 <= c < k ensures At(Identity(k), k, r, c) == if r == c then 1 else 0 { IdentityAt(k, r, c); }
        SumOne(k, c => At(Identity(k), k, r, c) * x(c), r);
      }
    }
  }

  // ----- pmod_mat_inv -----

  /** Entry (r, c) of [A | I], the input of the elimination. */
  ghost function AugmentedAt(a: Mat, k: nat, r: int, c: int): int {
    if c < k then At(a, k, r, c) else if c == k + r then 1 else 0
  }

  ghost predicate IsAugmented(s: Mat, a: Mat, k: nat) {
    && |s| == k * (2 * k)
    && forall r, c :: 0 <= r < k && 0 <= c < 2 * k ==> At(s, 2 * k, r, c) == AugmentedAt(a, k, r, c)
  }

  ghost predicate IsRightHalf(b: Mat, s: Mat, k: nat) {
    && |b| == k * k
    && forall r, c :: 0 <= r < k && 0 <= c < k ==> At(b, k, r, c) == At(s, 2 * k, r, k + c)
  }

  /** [A | I] = A [I | B] in the right half: A B = I. */
  lemma AugmentedRight(s: Mat, t: Mat, a: Mat, b: Mat, k: nat, r: int, c: int)
    requires IsAugmented(s, a, k) && IsSystForm(s, t, k, 2 * k) && IsRightHalf(b, t, k)
    requires 0 <= r < k && 0 <= c < k
    ensures At(Times(k, a, b, k), k, r, c) == At(Identity(k), k, r, c)
  {
    hide At;
    SystFormFactor(s, t, k, 2 * k, r, k + c);
    SumEq(k, l => At(s, 2 * k, r, l) * At(t, 2 * k, l, k + c), i => At(a, k, r, i) * At(b, k, i, c));
    TimesAt(k, a, b, k, r, c);
    IdentityAt(k, r, c);
    ModIdem(At(Identity(k), k, r, c));
    assert At(s, 2 * k, r, k + c) == At(Identity(k), k, r, c);
  }

  /** (e_c, -A_c), a kernel vector of [A | I]. */
  ghost function InverseVector(a: Mat, k: nat, c: int): Vec {
    i => if i < k then (if i == c then 1 else 0) else -At(a, k, i - k, c)
  }

  lemma InverseVectorInKernel(s: Mat, a: Mat, k: nat, c: int)
    requires IsAugmented(s, a, k) && 0 <= c < k
    ensures InKernel(s, k, 2 * k, InverseVector(a, k, c))
  {
    hide At;
    var x := InverseVector(a, k, c);
    forall l | 0 <= l < k ensures Mod(Dot(s, 2 * k, l, x)) == 0 {
      var g, h := i => if i == c then At(a, k, l, c) else 0, i => if i == l then -At(a, k, l, c) else 0;
      SumHalves(k, i => At(s, 2 * k, l, i) * x(i), g, h);
      SumOne(k, g, c);
      SumOne(k, h, l);
      ModIdem(0);
    }
  }

  /** The same vector, seen through [I | B]. */
  lemma AugmentedDot(s: Mat, t: Mat, a: Mat, b: Mat, k: nat, r: int, c: int)
    requires IsAugmented(s, a, k) && IsSystForm(s, t, k, 2 * k) && IsRightHalf(b, t, k)
    requires 0 <= r < k && 0 <= c < k
    ensures Mod((if r == c then 1 else 0) - Entry(k, b, a, k, r, c)) == 0
  {
    hide At, Mod;
    var x := InverseVector(a, k, c);
    InverseVectorInKernel(s, a, k, c);
    var d := if r == c then 1 else 0;
    var f := i => At(b, k, r, i) * At(a, k, i, c);
    var g, h := i => if i == c then d else 0, i => -1 * f(i);
    forall i | 0 <= i < k ensures At(t, 2 * k, r, k + i) * x(k + i) == h(i) {
      NegateFactor(At(a, k, i, c), At(b, k, r, i));
    }
    assert Mod(Dot(t, 2 * k, r, x)) == 0;
    SumHalves(k, i => At(t, 2 * k, r, i) * x(i), g, h);
    SumOne(k, g, c);
    SumScale(k, h, -1, f);
  }

  /** B A = I */
  lemma AugmentedLeft(s: Mat, t: Mat, a: Mat, b: Mat, k: nat, r: int, c: int)
    requires IsAugmented(s, a, k) && IsSystForm(s, t, k, 2 * k) && IsRightHalf(b, t, k)
    requires 0 <= r < k && 0 <= c < k
    ensures At(Times(k, b, a, k), k, r, c) == At(Identity(k), k, r, c)
  {
    hide At, Entry, IsSystForm, IsAugmented, IsRightHalf;
    var d := if r == c then 1 else 0;
    AugmentedDot(s, t, a, b, k, r, c);
    ModDifferenceZero(d, Entry(k, b, a, k, r, c));
    TimesAt(k, b, a, k, r, c);
    IdentityAt(k, r, c);
    ModIdem(d);
  }

  /** [A | I] reduces to [I | B] only when B is the two-sided inverse of A. */
  lemma AugmentedForm(s: Mat, t: Mat, a: Mat, b: Mat, k: nat)
    requires |a| == k * k && Reduced(a) && Reduced(b)
    requires IsAugmented(s, a, k) && IsSystForm(s, t, k, 2 * k) && IsRightHalf(b, t, k)
    ensures IsInverse(k, a, b)
  {
    forall r, c | 0 <= r < k && 0 <= c < k
      ensures At(Times(k, a, b, k), k, r, c) == At(Identity(k), k, r, c)
      ensures At(Times(k, b, a, k), k, r, c) == At(Identity(k), k, r, c)
    {
      AugmentedRight(s, t, a, b, k, r, c);
      AugmentedLeft(s, t, a, b, k, r, c);
    }
    hide At;
    MatEqual(k, k, Times(k, a, b, k), Identity(k));
    MatEqual(k, k, Times(k, b, a, k), Identity(k));
  }

  lemma {:induction false} SumHalves(k: nat, f: int -> int, g: int -> int, h: int -> int)
    requires forall i :: 0 <= i < k ==> f(i) == g(i)
    requires forall i :: 0 <= i < k ==> f(k + i) == h(i)
    ensures Sum(2 * k, f) == Sum(k, g) + Sum(k, h)
  {
    SumFrom(k, k, f, h);
    SumEq(k, f, g);
  }

  lemma {:induction false} SumFrom(k: nat, l: nat, f: int -> int, h: int -> int)
    requires forall i :: 0 <= i < l ==> f(k + i) == h(i)
    ensures Sum(k + l, f) == Sum(k, f) + Sum(l, h)
  {
    if l > 0 { SumFrom(k, l - 1, f, h); }
  }

  /** An inverse of A would contradict a singular left block. */
  lemma AugmentedSingular(s: Mat, a: Mat, k: nat)
    requires IsAugmented(s, a, k) && Singular(s, k, 2 * k)
    ensures Singular(a, k, k) && InverseOf(k, a) == None
  {
    hide At;
    var x: Vec :| InKernel(s, k, 2 * k, x) && Supported(x, k, 2 * k) && Nonzero(x, k);
    forall r | 0 <= r < k ensures Mod(Dot(a, k, r, x)) == 0 {
      SumTail(2 * k, k, c => At(s, 2 * k, r, c) * x(c));
      SumEq(k, c => At(s, 2 * k, r, c) * x(c), c => At(a, k, r, c) * x(c));
      assert Mod(Dot(s, 2 * k, r, x)) == 0;
    }
    assert InKernel(a, k, k, x) && Supported(x, k, k);
    if InverseOf(k, a).Some? { InvertibleNonsingular(k, a, InverseOf(k, a).value); }
  }

  lemma InverseIs(k: nat, a: Mat, b: Mat)
    requires IsInverse(k, a, b)
    ensures InverseOf(k, a) == Some(b)
  {
    InverseUnique(k, a, b, InverseOf(k, a).value);
  }

  /** Copies A into the left half of the work buffer and the identity into the right half. */
  method Augment(m: array<int>, a: array<int>, k: nat)
    requires a.Length == k * k && m.Length == k * (2 * k) && m != a && Reduced(a[..]) && Reduced(m[..])
    modifies m
    ensures Reduced(m[..]) && IsAugmented(m[..], a[..], k)
  {
    hide At;
    ghost var a0 := a[..];
    for r := 0 to k
      invariant a[..] == a0 && Reduced(m[..])
      invariant forall i, c :: 0 <= i < r && 0 <= c < 2 * k ==> At(m[..], 2 * k, i, c) == AugmentedAt(a0, k, i, c)
    {
      for c := 0 to k
        invariant a[..] == a0 && Reduced(m[..])
        invariant forall i, c :: 0 <= i < r && 0 <= c < 2 * k ==> At(m[..], 2 * k, i, c) == AugmentedAt(a0, k, i, c)
        invariant forall j :: 0 <= j < c ==> At(m[..], 2 * k, r, j) == AugmentedAt(a0, k, r, j)
      {
        var v := Cell(a, k, k, r, c);
        AtReduced(a0, k, r, c);
        SetCell(m, k, 2 * k, r, c, v);
      }
      for c := k to 2 * k
        invariant a[..] == a0 && Reduced(m[..])
        invariant forall i, c :: 0 <= i < r && 0 <= c < 2 * k ==> At(m[..], 2 * k, i, c) == AugmentedAt(a0, k, i, c)
        invariant forall j :: 0 <= j < c ==> At(m[..], 2 * k, r, j) == AugmentedAt(a0, k, r, j)
      {
        SetCell(m, k, 2 * k, r, c, if c == k + r then 1 else 0);
      }
    }
  }

  method CopyRightHalf(b: array<int>, m: array<int>, k: nat)
    requires b.Length == k * k && m.Length == k * (2 * k) && b != m && Reduced(m[..])
    modifies b
    ensures IsRightHalf(b[..], m[..], k) && Reduced(b[..])
  {
    hide At;
    ghost var s := m[..];
    for r := 0 to k
      invariant m[..] == s
      invariant forall i, c :: 0 <= i < r && 0 <= c < k ==> At(b[..], k, i, c) == At(s, 2 * k, i, k + c)
    {
      for c := 0 to k
        invariant m[..] == s
        invariant forall i, c :: 0 <= i < r && 0 <= c < k ==> At(b[..], k, i, c) == At(s, 2 * k, i, k + c)
        invariant forall j :: 0 <= j < c ==> At(b[..], k, r, j) == At(s, 2 * k, r, k + j)
      {
        var v := Cell(m, k, 2 * k, r, k + c);
        SetCell(b, k, k, r, c, v);
      }
    }
    forall r, c | 0 <= r < k && 0 <= c < k ensures 0 <= At(b[..], k, r, c) < P {
      AtReduced(s, 2 * k, r, k + c);
    }
    ReducedByEntries(k, k, b[..]);
  }

  /** pmod_mat_inv: 0 with the two-sided inverse in b, or -1 exactly when a has none.  Without a buffer b
      it only says whether there is one. */
  method MatInv(b: array?<int>, a: array<int>, k: nat) returns (ret: int)
    requires a.Length == k * k && (b != null ==> b.Length == k * k) && Reduced(a[..])
    modifies b
    ensures ret == 0 || ret == -1
    ensures ret == -1 <==> Singular(old(a[..]), k, k)
    ensures ret == 0 <==> InverseOf(k, old(a[..])).Some?
    ensures b != null && ret == 0 ==> InverseOf(k, old(a[..])) == Some(b[..])
    ensures b != null && ret == -1 ==> b[..] == old(b[..])
  {
    ghost var a0 := a[..];
    var m := new int[k * (2 * k)](_ => 0);
    Augment(m, a, k);
    ghost var s := m[..];
    ret := SystCt(m, k, 2 * k);
    if ret == 0 {
      RightHalfIsInverse(s, m[..], a0, k);
      if b != null {
        CopyRightHalf(b, m, k);
        AugmentedForm(s, m[..], a0, b[..], k);
        InverseIs(k, a0, b[..]);
      }
    } else {
      AugmentedSingular(s, a0, k);
    }
  }

  ghost function RightHalf(s: Mat, k: nat): (b: Mat)
    ensures |b| == k * k
  {
    Build(k, k, (r, c) => At(s, 2 * k, r, k + c))
  }

  /** A successful elimination of [A | I] exhibits an inverse of A. */
  lemma RightHalfIsInverse(s: Mat, t: Mat, a: Mat, k: nat)
    requires |a| == k * k && Reduced(a) && IsAugmented(s, a, k) && IsSystForm(s, t, k, 2 * k)
    ensures InverseOf(k, a).Some? && !Singular(a, k, k)
  {
    hide At;
    var b := RightHalf(t, k);
    forall r, c | 0 <= r < k && 0 <= c < k
      ensures At(b, k, r, c) == At(t, 2 * k, r, k + c) && 0 <= At(b, k, r, c) < P
    {
      BuildAt(k, k, (r, c) => At(t, 2 * k, r, k + c), r, c);
      AtReduced(t, 2 * k, r, k + c);
    }
    ReducedByEntries(k, k, b);
    AugmentedForm(s, t, a, b, k);
    InvertibleNonsingular(k, a, b);
  }
}
