/** The samplers of ref/util.c read off the stream: the stream is a sequence of byte pairs, the pairs whose
    masked value is below p are the field elements, and every sampler takes the next ones in order. */
module Draws {
  import opened Arithmetic
  import opened Params
  import opened Loops
  import opened Matrix
  import opened Bits
  import opened Shake
  import opened Sampling

  /** The two bytes at position k, little-endian, without the bits above those of a field element. */
  ghost function Pair(msg: seq<Octet>, k: nat): nat {
    LeValue(Bytes(msg, k, 2)) % Pow2(BITS)
  }

  lemma TwoBytes(x: seq<Octet>)
    requires |x| == 2
    ensures LeValue(x) == (var lo: nat, hi: nat := x[0], x[1]; lo + 256 * hi)
  {
    LeValueNone(x);
    LeValueNext(x, 0);
    LeValueNext(x, 1);
    assert x[..2] == x && Pow2(0) == 1 && Pow2(8) == 256;
  }

  lemma MaskedIsPair(msg: seq<Octet>, k: nat)
    ensures Masked(Stream(msg, k), Stream(msg, k + 1)) == Pair(msg, k)
  {
    hide Stream, LeValue, Pow2;
    TwoBytes(Bytes(msg, k, 2));
    assert Bytes(msg, k, 2) == [Stream(msg, k), Stream(msg, k + 1)];
  }

  /** The values below p among the first n pairs from position k on, in order. */
  ghost function Accepted(msg: seq<Octet>, k: nat, n: nat): seq<int> {
    if n == 0 then []
    else
      var v := Pair(msg, k + 2 * (n - 1));
      if v < P then Accepted(msg, k, n - 1) + [v] else Accepted(msg, k, n - 1)
  }

  /** Pair n is the first one accepted. */
  ghost predicate IsFirst(msg: seq<Octet>, k: nat, n: nat) {
    Pair(msg, k + 2 * n) < P && forall i :: 0 <= i < n ==> Pair(msg, k + 2 * i) >= P
  }

  /** The first n pairs hold count accepted values, and no fewer pairs do. */
  ghost predicate IsEnough(msg: seq<Octet>, k: nat, count: nat, n: nat) {
    |Accepted(msg, k, n)| == count && forall i :: 0 <= i < n ==> |Accepted(msg, k, i)| < count
  }

  // ----- one element -----

  lemma TryGfIs(msg: seq<Octet>, k: nat)
    ensures TryGf(msg)(k) == if Pair(msg, k) >= P then Again(k + 2) else Exit(Drawn(Pair(msg, k), k + 2))
  {
    hide Pair, Masked, Stream;
    MaskedIsPair(msg, k);
    TryGfOnce(msg, k, Pair(msg, k));
  }

  /** A rejected pair in front shifts the first accepted one by one place. */
  lemma FirstShift(msg: seq<Octet>, k: nat, n: nat)
    requires Pair(msg, k) >= P
    ensures IsFirst(msg, k, n + 1) <==> IsFirst(msg, k + 2, n)
    ensures !IsFirst(msg, k, 0)
  {
    hide Pair;
    assert Pair(msg, k + 2 * 0) >= P;
    assert k + 2 * (n + 1) == (k + 2) + 2 * n;
    if IsFirst(msg, k + 2, n) {
      forall i | 0 <= i < n + 1 ensures Pair(msg, k + 2 * i) >= P {
        if i > 0 { assert k + 2 * i == (k + 2) + 2 * (i - 1); }
      }
    }
    if IsFirst(msg, k, n + 1) {
      forall i | 0 <= i < n ensures Pair(msg, (k + 2) + 2 * i) >= P {
        assert (k + 2) + 2 * i == k + 2 * (i + 1);
      }
    }
  }

  lemma FirstNow(msg: seq<Octet>, k: nat, n: nat)
    requires Pair(msg, k) < P
    ensures IsFirst(msg, k, n) <==> n == 0
  {
    hide Pair;
    assert Pair(msg, k + 2 * 0) < P;
  }

  lemma {:induction false} FirstOfGf(msg: seq<Octet>, k: nat) returns (n: nat)
    requires RndGfOf(msg, k).Some?
    ensures IsFirst(msg, k, n) && RndGfOf(msg, k) == Some(Drawn(Pair(msg, k + 2 * n), k + 2 * n + 2))
    decreases Passes(TryGf(msg), k)
  {
    hide Loop, Passes, TryGf, Pair, IsFirst;
    TryGfIs(msg, k);
    LoopUnfold(TryGf(msg), k);
    if Pair(msg, k) < P {
      n := 0;
      FirstNow(msg, k, 0);
    } else {
      PassesDecrease(TryGf(msg), k);
      var l := FirstOfGf(msg, k + 2);
      FirstShift(msg, k, l);
      n := l + 1;
    }
  }

  lemma {:induction false} GfOfFirst(msg: seq<Octet>, k: nat, n: nat)
    requires IsFirst(msg, k, n)
    ensures RndGfOf(msg, k) == Some(Drawn(Pair(msg, k + 2 * n), k + 2 * n + 2))
    decreases n
  {
    hide Loop, TryGf, Pair, IsFirst;
    TryGfIs(msg, k);
    LoopUnfold(TryGf(msg), k);
    if Pair(msg, k) < P {
      FirstNow(msg, k, n);
    } else {
      FirstShift(msg, k, if n > 0 then n - 1 else 0);
      GfOfFirst(msg, k + 2, n - 1);
    }
  }

  /** rnd_GF returns the first pair below p, and leaves the stream right behind it. */
  lemma RndGfIsFirst(msg: seq<Octet>, k: nat, d: Drawn<int>)
    ensures RndGfOf(msg, k) == Some(d) <==>
      exists n: nat :: IsFirst(msg, k, n) && d == Drawn(Pair(msg, k + 2 * n), k + 2 * n + 2)
  {
    hide RndGfOf, IsFirst, Pair;
    if RndGfOf(msg, k) == Some(d) {
      var n := FirstOfGf(msg, k);
    }
    if n: nat :| IsFirst(msg, k, n) && d == Drawn(Pair(msg, k + 2 * n), k + 2 * n + 2) {
      GfOfFirst(msg, k, n);
    }
  }

  // ----- several elements -----

  lemma {:induction false} AcceptedConcat(msg: seq<Octet>, k: nat, n: nat, l: nat)
    ensures Accepted(msg, k, n + l) == Accepted(msg, k, n) + Accepted(msg, k + 2 * n, l)
    decreases l
  {
    hide Pair;
    if l > 0 {
      AcceptedConcat(msg, k, n, l - 1);
      assert k + 2 * (n + l - 1) == (k + 2 * n) + 2 * (l - 1);
    }
  }

  lemma {:induction false} AcceptedGrows(msg: seq<Octet>, k: nat, n: nat, l: nat)
    requires n <= l
    ensures |Accepted(msg, k, n)| <= |Accepted(msg, k, l)|
    decreases l
  {
    hide Pair;
    if n < l { AcceptedGrows(msg, k, n, l - 1); }
  }

  lemma {:induction false} NoneBeforeFirst(msg: seq<Octet>, k: nat, n: nat, i: nat)
    requires IsFirst(msg, k, n) && i <= n
    ensures Accepted(msg, k, i) == []
  {
    hide Pair;
    if i > 0 { NoneBeforeFirst(msg, k, n, i - 1); }
  }

  /** One more accepted value. */
  lemma EnoughNext(msg: seq<Octet>, k: nat, count: nat, n: nat, l: nat)
    requires IsEnough(msg, k, count, n) && IsFirst(msg, k + 2 * n, l)
    ensures IsEnough(msg, k, count + 1, n + l + 1)
    ensures Accepted(msg, k, n + l + 1) == Accepted(msg, k, n) + [Pair(msg, k + 2 * n + 2 * l)]
  {
    hide Pair, IsFirst, Accepted;
    AcceptedConcat(msg, k, n, l + 1);
    OneAccepted(msg, k + 2 * n, l);
    FewBefore(msg, k, count, n, l);
  }

  lemma FewBefore(msg: seq<Octet>, k: nat, count: nat, n: nat, l: nat)
    requires IsEnough(msg, k, count, n) && IsFirst(msg, k + 2 * n, l)
    ensures forall i :: 0 <= i < n + l + 1 ==> |Accepted(msg, k, i)| < count + 1
  {
    hide Accepted, Pair, IsFirst;
    forall i: nat | i < n + l + 1 ensures |Accepted(msg, k, i)| < count + 1 {
      if i > n { NoneBetween(msg, k, n, l, i); }
    }
  }

  lemma NoneBetween(msg: seq<Octet>, k: nat, n: nat, l: nat, i: nat)
    requires n <= i <= n + l && IsFirst(msg, k + 2 * n, l)
    ensures Accepted(msg, k, i) == Accepted(msg, k, n)
  {
    hide Accepted, Pair, IsFirst;
    AcceptedConcat(msg, k, n, i - n);
    NoneBeforeFirst(msg, k + 2 * n, l, i - n);
  }

  lemma OneAccepted(msg: seq<Octet>, k: nat, n: nat)
    requires IsFirst(msg, k, n)
    ensures Accepted(msg, k, n + 1) == [Pair(msg, k + 2 * n)]
  {
    hide Pair;
    NoneBeforeFirst(msg, k, n, n);
  }

  lemma {:induction false} EnoughOfDraw(msg: seq<Octet>, k: nat, count: nat) returns (n: nat)
    requires DrawMany(msg, k, count).Some?
    ensures IsEnough(msg, k, count, n)
    ensures DrawMany(msg, k, count) == Some(Drawn(Accepted(msg, k, n), k + 2 * n))
    decreases count
  {
    hide RndGfOf, Pair, IsEnough, Accepted;
    if count == 0 {
      n := 0;
      NothingNeeded(msg, k);
    } else {
      var m := EnoughOfDraw(msg, k, count - 1);
      var l := FirstOfGf(msg, k + 2 * m);
      EnoughNext(msg, k, count - 1, m, l);
      n := m + l + 1;
    }
  }

  lemma NothingNeeded(msg: seq<Octet>, k: nat)
    ensures IsEnough(msg, k, 0, 0) && Accepted(msg, k, 0) == []
  {
  }

  lemma {:induction false} LeastEnough(msg: seq<Octet>, k: nat, count: nat, n: nat) returns (l: nat)
    requires |Accepted(msg, k, n)| == count
    ensures l <= n && IsEnough(msg, k, count, l)
    decreases n
  {
    hide Pair;
    if n > 0 && |Accepted(msg, k, n - 1)| == count {
      l := LeastEnough(msg, k, count, n - 1);
    } else {
      l := n;
      forall i | 0 <= i < n ensures |Accepted(msg, k, i)| < count { AcceptedGrows(msg, k, i, n - 1); }
    }
  }

  /** Between two counts that differ by one there is one accepted pair, the last. */
  lemma LastIsFirst(msg: seq<Octet>, k: nat, l: nat, n: nat)
    requires l < n && |Accepted(msg, k, n - 1)| == |Accepted(msg, k, l)| < |Accepted(msg, k, n)|
    ensures IsFirst(msg, k + 2 * l, n - 1 - l) && Accepted(msg, k, n - 1) == Accepted(msg, k, l)
  {
    hide Pair;
    assert (k + 2 * l) + 2 * (n - 1 - l) == k + 2 * (n - 1);
    AcceptedConcat(msg, k, l, n - 1 - l);
    forall i | 0 <= i < n - 1 - l ensures Pair(msg, (k + 2 * l) + 2 * i) >= P {
      assert (k + 2 * l) + 2 * i == k + 2 * (l + i);
      AcceptedGrows(msg, k, l, l + i);
      AcceptedGrows(msg, k, l + i + 1, n - 1);
    }
  }

  /** The last of several accepted values, and the pairs before it. */
  lemma EnoughBefore(msg: seq<Octet>, k: nat, count: nat, n: nat) returns (l: nat)
    requires count > 0 && IsEnough(msg, k, count, n)
    ensures l < n && IsEnough(msg, k, count - 1, l) && IsFirst(msg, k + 2 * l, n - 1 - l)
    ensures Accepted(msg, k, n) == Accepted(msg, k, l) + [Pair(msg, k + 2 * (n - 1))]
  {
    hide Pair;
    assert |Accepted(msg, k, n - 1)| == count - 1;
    l := LeastEnough(msg, k, count - 1, n - 1);
    LastIsFirst(msg, k, l, n);
  }

  lemma NoneNeeded(msg: seq<Octet>, k: nat, n: nat)
    requires IsEnough(msg, k, 0, n)
    ensures n == 0
  {
    assert |Accepted(msg, k, 0)| == 0;
  }

  lemma {:induction false} DrawOfEnough(msg: seq<Octet>, k: nat, count: nat, n: nat)
    requires IsEnough(msg, k, count, n)
    ensures DrawMany(msg, k, count) == Some(Drawn(Accepted(msg, k, n), k + 2 * n))
    decreases count
  {
    hide RndGfOf, Pair, IsEnough, Accepted, IsFirst;
    if count == 0 {
      NoneNeeded(msg, k, n);
      NothingNeeded(msg, k);
    } else {
      var l := EnoughBefore(msg, k, count, n);
      DrawOfEnough(msg, k, count - 1, l);
      GfOfFirst(msg, k + 2 * l, n - 1 - l);
    }
  }

  /** Drawing count elements takes the first count pairs below p, and stops right behind the last of them. */
  lemma DrawManyIsAccepted(msg: seq<Octet>, k: nat, count: nat, d: Drawn<seq<int>>)
    ensures DrawMany(msg, k, count) == Some(d) <==>
      exists n: nat :: IsEnough(msg, k, count, n) && d == Drawn(Accepted(msg, k, n), k + 2 * n)
  {
    hide DrawMany, IsEnough, Accepted;
    if DrawMany(msg, k, count) == Some(d) {
      var n := EnoughOfDraw(msg, k, count);
    }
    if n: nat :| IsEnough(msg, k, count, n) && d == Drawn(Accepted(msg, k, n), k + 2 * n) {
      DrawOfEnough(msg, k, count, n);
    }
  }

  // ----- rnd_sys_mat -----

  /** [I | V] with the values of v row by row in V. */
  ghost predicate IsSystematicOf(m: Mat, v: seq<int>, rows: nat, cols: nat)
    requires rows <= cols
  {
    && |m| == rows * cols
    && forall r, c :: 0 <= r < rows && 0 <= c < cols ==>
      At(m, cols, r, c) == if c < rows then (if r == c then 1 else 0) else At(v, cols - rows, r, c - rows)
  }

  lemma SystematicIs(m: Mat, v: seq<int>, rows: nat, cols: nat)
    requires rows <= cols
    ensures m == SystematicFrom(v, rows, cols) <==> IsSystematicOf(m, v, rows, cols)
  {
    hide At, SystematicFrom;
    var s := SystematicFrom(v, rows, cols);
    forall r, c | 0 <= r < rows && 0 <= c < cols
      ensures At(s, cols, r, c) == if c < rows then (if r == c then 1 else 0) else At(v, cols - rows, r, c - rows)
    {
      SystematicFromAt(v, rows, cols, r, c);
    }
    if IsSystematicOf(m, v, rows, cols) { MatEqual(rows, cols, m, s); }
  }

  /** The first n pairs of the stream are those that the sampler of a systematic matrix takes, and give m. */
  ghost predicate DrawsSystematic(seed: seq<Octet>, rows: nat, cols: nat, m: Mat, n: nat)
    requires rows <= cols
  {
    IsEnough(seed, 0, rows * (cols - rows), n) && IsSystematicOf(m, Accepted(seed, 0, n), rows, cols)
  }

  /** rnd_sys_mat: the identity, and to the right of it the first values of the stream of the seed. */
  lemma SysMatIsAccepted(seed: seq<Octet>, rows: nat, cols: nat, m: Mat)
    requires rows <= cols
    ensures SysMatOf(seed, rows, cols) == Some(m) <==> exists n: nat :: DrawsSystematic(seed, rows, cols, m, n)
  {
    hide DrawMany, IsEnough, Accepted, IsSystematicOf, SystematicFrom;
    var count := rows * (cols - rows);
    if SysMatOf(seed, rows, cols) == Some(m) {
      var n := EnoughOfDraw(seed, 0, count);
      SystematicIs(m, Accepted(seed, 0, n), rows, cols);
      assert DrawsSystematic(seed, rows, cols, m, n);
    }
    if n: nat :| DrawsSystematic(seed, rows, cols, m, n) {
      DrawOfEnough(seed, 0, count, n);
      SystematicIs(m, Accepted(seed, 0, n), rows, cols);
    }
  }

  // ----- rnd_inv_matrix -----

  /** Values i * size to (i + 1) * size. */
  ghost function Sample(v: seq<int>, size: nat, i: nat): Mat {
    if i * size + size <= |v| then v[i * size..i * size + size] else []
  }

  /** The first l samples are singular. */
  ghost predicate AllSingular(v: seq<int>, size: nat, rows: nat, cols: nat, l: nat) {
    forall i :: 0 <= i < l ==> Singular(Sample(v, size, i), rows, cols)
  }

  /** The sample behind l others, the first nonsingular one, among the values v. */
  ghost predicate IsFirstInvertible(t: Mat, v: seq<int>, size: nat, rows: nat, cols: nat, l: nat) {
    && t == Sample(v, size, l) && !Singular(t, rows, cols)
    && AllSingular(v, size, rows, cols, l)
  }

  /** Enough for a values, and then for b more. */
  lemma EnoughAppend(msg: seq<Octet>, k: nat, a: nat, n: nat, b: nat, l: nat)
    requires IsEnough(msg, k, a, n) && IsEnough(msg, k + 2 * n, b, l)
    ensures IsEnough(msg, k, a + b, n + l)
    ensures Accepted(msg, k, n + l) == Accepted(msg, k, n) + Accepted(msg, k + 2 * n, l)
  {
    hide Accepted;
    AcceptedConcat(msg, k, n, l);
    forall i: nat | i < n + l ensures |Accepted(msg, k, i)| < a + b {
      if i >= n { AcceptedConcat(msg, k, n, i - n); }
    }
  }

  lemma EnoughRest(msg: seq<Octet>, k: nat, a: nat, n: nat, b: nat, n': nat)
    requires IsEnough(msg, k, a, n) && IsEnough(msg, k, a + b, n')
    ensures n <= n' && IsEnough(msg, k + 2 * n, b, n' - n)
    ensures Accepted(msg, k, n') == Accepted(msg, k, n) + Accepted(msg, k + 2 * n, n' - n)
  {
    hide Accepted;
    if n' < n { AcceptedGrows(msg, k, n', n); }
    AcceptedConcat(msg, k, n, n' - n);
    var q := k + 2 * n;
    forall i: nat | i < n' - n ensures |Accepted(msg, q, i)| < b {
      AcceptedConcat(msg, k, n, i);
    }
  }

  lemma {:induction false} SomeEnough(msg: seq<Octet>, k: nat, count: nat, n: nat) returns (l: nat)
    requires count <= |Accepted(msg, k, n)|
    ensures l <= n && IsEnough(msg, k, count, l)
    decreases n
  {
    hide Pair, IsEnough;
    if |Accepted(msg, k, n)| == count {
      l := LeastEnough(msg, k, count, n);
    } else {
      l := SomeEnough(msg, k, count, n - 1);
    }
  }

  lemma SampleOfConcat(v: seq<int>, w: seq<int>, size: nat, i: nat)
    requires i * size + size <= |v|
    ensures Sample(v + w, size, i) == Sample(v, size, i)
  {
  }

  lemma LastSample(v: seq<int>, w: seq<int>, size: nat, l: nat)
    requires |v| == l * size && |w| == size
    ensures Sample(v + w, size, l) == w
  {
  }

  lemma SamplesFit(size: nat, i: nat, l: nat)
    requires i < l
    ensures i * size + size <= l * size && (l + 1) * size == l * size + size
  {
    MulLe(i + 1, l, size);
  }

  /** The first n pairs of the stream are those that the sampler of a nonsingular matrix takes: l singular
      samples and then t. */
  ghost predicate DrawsInvertible(seed: seq<Octet>, rows: nat, cols: nat, t: Mat, l: nat, n: nat) {
    IsInvertibleDraw(seed, rows * cols, rows, cols, t, l, n)
  }

  ghost predicate IsInvertibleDraw(seed: seq<Octet>, size: nat, rows: nat, cols: nat, t: Mat, l: nat, n: nat) {
    IsEnough(seed, 0, l * size + size, n) && IsFirstInvertible(t, Accepted(seed, 0, n), size, rows, cols, l)
  }

  /** Behind l singular samples, the loop returns what it would return from there. */
  lemma {:induction false} InvertibleOfLoop(msg: seq<Octet>, size: nat, rows: nat, cols: nat, t: Mat,
      l: nat, count: nat, n: nat, k: nat) returns (l': nat, n': nat)
    requires size == rows * cols && k == 2 * n && Loop(TryInv(msg, rows, cols), k) == Some(t)
    requires count == l * size
    requires IsEnough(msg, 0, count, n) && AllSingular(Accepted(msg, 0, n), size, rows, cols, l)
    ensures IsInvertibleDraw(msg, size, rows, cols, t, l', n')
    decreases Passes(TryInv(msg, rows, cols), k)
  {
    hide Loop, Passes, DrawMany, Singular, IsEnough, Accepted, Sample, AllSingular;
    var body := TryInv(msg, rows, cols);
    LoopUnfold(body, k);
    var j := EnoughOfDraw(msg, k, size);
    SampleBehind(msg, rows, cols, size, l, count, n, j);
    if Singular(Accepted(msg, k, j), rows, cols) {
      PassesDecrease(body, k);
      l', n' := InvertibleOfLoop(msg, size, rows, cols, t, l + 1, count + size, n + j, 2 * (n + j));
    } else {
      l', n' := l, n + j;
    }
  }

  /** What is drawn behind l samples is the next one. */
  lemma SampleBehind(msg: seq<Octet>, rows: nat, cols: nat, size: nat, l: nat, count: nat, n: nat, j: nat)
    requires count == l * size && IsEnough(msg, 0, count, n) && IsEnough(msg, 2 * n, size, j)
    requires AllSingular(Accepted(msg, 0, n), size, rows, cols, l)
    ensures (l + 1) * size == count + size && IsEnough(msg, 0, count + size, n + j)
    ensures Sample(Accepted(msg, 0, n + j), size, l) == Accepted(msg, 2 * n, j)
    ensures AllSingular(Accepted(msg, 0, n + j), size, rows, cols, l)
    ensures Singular(Accepted(msg, 2 * n, j), rows, cols) ==>
      AllSingular(Accepted(msg, 0, n + j), size, rows, cols, l + 1)
  {
    hide Singular, IsEnough, Accepted, Sample;
    var v, w := Accepted(msg, 0, n), Accepted(msg, 2 * n, j);
    EnoughAppend(msg, 0, count, n, size, j);
    EnoughSize(msg, 0, count, n);
    EnoughSize(msg, 2 * n, size, j);
    LastSample(v, w, size, l);
    SamplesFit(size, l, l + 1);
    forall i | 0 <= i < l ensures Sample(v + w, size, i) == Sample(v, size, i) {
      SamplesFit(size, i, l);
      SampleOfConcat(v, w, size, i);
    }
  }

  lemma EnoughSize(msg: seq<Octet>, k: nat, count: nat, n: nat)
    requires IsEnough(msg, k, count, n)
    ensures |Accepted(msg, k, n)| == count
  {
  }

  /** From sample i on, the loop finds sample l. */
  lemma {:induction false} LoopOfInvertible(msg: seq<Octet>, size: nat, rows: nat, cols: nat, t: Mat,
      l: nat, n: nat, i: nat, a: nat, k: nat)
    requires size == rows * cols && IsInvertibleDraw(msg, size, rows, cols, t, l, n)
    requires i <= l && IsEnough(msg, 0, i * size, a) && k == 2 * a
    ensures Loop(TryInv(msg, rows, cols), k) == Some(t)
    decreases l - i
  {
    hide Loop, DrawMany, Singular, IsEnough, Accepted, Sample;
    var body, v := TryInv(msg, rows, cols), Accepted(msg, 0, n);
    var b := NextSample(msg, size, l, n, i, a);
    DrawOfEnough(msg, k, size, b - a);
    LoopUnfold(body, k);
    if i < l {
      assert Singular(Sample(v, size, i), rows, cols);
      LoopOfInvertible(msg, size, rows, cols, t, l, n, i + 1, b, 2 * b);
    }
  }

  /** Where sample i ends. */
  lemma NextSample(msg: seq<Octet>, size: nat, l: nat, n: nat, i: nat, a: nat) returns (b: nat)
    requires i <= l && IsEnough(msg, 0, l * size + size, n) && IsEnough(msg, 0, i * size, a)
    ensures a <= b <= n && (i + 1) * size == i * size + size && IsEnough(msg, 0, i * size + size, b)
    ensures IsEnough(msg, 2 * a, size, b - a)
    ensures Sample(Accepted(msg, 0, n), size, i) == Accepted(msg, 2 * a, b - a)
  {
    hide IsEnough, Accepted, Sample;
    SamplesFit(size, i, l + 1);
    SamplesFit(size, l, l + 1);
    SamplesFit(size, i, i + 1);
    EnoughSize(msg, 0, l * size + size, n);
    b := SomeEnough(msg, 0, i * size + size, n);
    EnoughRest(msg, 0, i * size, a, size, b);
    EnoughSize(msg, 0, i * size, a);
    EnoughSize(msg, 2 * a, size, b - a);
    SampleIs(msg, i, size, a, b, n);
  }

  /** What is drawn between a and b is sample i of all values up to n. */
  lemma SampleIs(msg: seq<Octet>, i: nat, size: nat, a: nat, b: nat, n: nat)
    requires a <= b <= n && |Accepted(msg, 0, a)| == i * size && |Accepted(msg, 2 * a, b - a)| == size
    ensures Sample(Accepted(msg, 0, n), size, i) == Accepted(msg, 2 * a, b - a)
  {
    hide Accepted, Sample;
    var u, w, rest := Accepted(msg, 0, a), Accepted(msg, 2 * a, b - a), Accepted(msg, 2 * b, n - b);
    AcceptedConcat(msg, 0, a, b - a);
    AcceptedConcat(msg, 0, b, n - b);
    LastSample(u, w, size, i);
    SampleOfConcat(u + w, rest, size, i);
  }

  /** rnd_inv_matrix cuts the values of the stream into samples and returns the first nonsingular one. */
  lemma RndInvIsFirst(seed: seq<Octet>, rows: nat, cols: nat, t: Mat)
    ensures RndInvOf(seed, rows, cols) == Some(t) <==>
      exists l: nat, n: nat :: DrawsInvertible(seed, rows, cols, t, l, n)
  {
    hide Loop, TryInv, IsEnough, IsInvertibleDraw, Accepted, Sample;
    NothingNeeded(seed, 0);
    var size := rows * cols;
    assert 0 * size == 0;
    if RndInvOf(seed, rows, cols) == Some(t) {
      var l, n := InvertibleOfLoop(seed, size, rows, cols, t, 0, 0, 0, 0);
      assert DrawsInvertible(seed, rows, cols, t, l, n);
    }
    if l: nat, n: nat :| DrawsInvertible(seed, rows, cols, t, l, n) {
      LoopOfInvertible(seed, size, rows, cols, t, l, n, 0, 0, 0);
    }
  }
}
