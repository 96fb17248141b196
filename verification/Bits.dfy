/** Numbers as little-endian bit strings: the arithmetic behind shifts, masks and packed bytes. */
module Bits {
  import opened Arithmetic
  import opened Params

  type Octet = x: int | 0 <= x < 256

  lemma TwiceProduct(x: int, y: int)
    ensures x * (2 * y) == 2 * (x * y)
  {
  }

  lemma {:induction false} Pow2Add(a: nat, b: nat)
    ensures Pow2(a + b) == Pow2(a) * Pow2(b)
  {
    if b > 0 {
      Pow2Add(a, b - 1);
      TwiceProduct(Pow2(a), Pow2(b - 1));
    }
  }

  lemma {:induction false} Pow2Monotone(a: nat, b: nat)
    requires a <= b
    ensures Pow2(a) <= Pow2(b)
  {
    if a < b { Pow2Monotone(a, b - 1); }
  }

  lemma SmallMultiple(d: int, b: int)
    requires -b < d * b < b
    ensures d == 0
  {
    assert d >= 1 ==> (d - 1) * b >= 0;
    assert d <= -1 ==> (-d - 1) * b >= 0;
  }

  lemma DivUnique(a: int, b: int, q: int, r: int)
    requires a == q * b + r && 0 <= r < b
    ensures a / b == q && a % b == r
  {
    assert a == (a / b) * b + a % b;
    assert (a / b - q) * b == (a / b) * b - q * b;
    SmallMultiple(a / b - q, b);
  }

  /** Division by a * b is division by a, then by b. */
  lemma NestedDiv(t: nat, a: nat, b: nat)
    requires a > 0 && b > 0
    ensures a * b > 0 && t / (a * b) == (t / a) / b && t % (a * b) == t % a + a * ((t / a) % b)
  {
    var x, r := t / a, t % a;
    var y, s := x / b, x % b;
    DivSum(t, a);
    DivSum(x, b);
    NestedProduct(y, a, b, s, r, x);
    DivUnique(t, a * b, y, r + a * s);
  }

  lemma DivSum(t: nat, a: nat)
    requires a > 0
    ensures t == (t / a) * a + t % a
  {
  }

  lemma NestedProduct(y: nat, a: nat, b: nat, s: nat, r: nat, x: nat)
    requires x == y * b + s && r < a && s < b
    ensures x * a + r == y * (a * b) + (r + a * s) && r + a * s < a * b
  {
    assert (y * b) * a == y * (a * b);
    assert (y * b + s) * a == (y * b) * a + s * a;
    MulLe(0, b - 1 - s, a);
    assert (b - 1 - s) * a == a * b - a - a * s;
  }

  lemma AddMultiple(t: nat, k: nat, a: nat)
    requires a > 0
    ensures (t + k * a) / a == t / a + k && (t + k * a) % a == t % a
  {
    assert (t / a + k) * a == (t / a) * a + k * a;
    DivUnique(t + k * a, a, t / a + k, t % a);
  }

  /** The w bits of t from position q on: (t >> q) & ((1 << w) - 1). */
  function BitField(t: nat, q: nat, w: nat): (v: nat)
    ensures v < Pow2(w)
  {
    (t / Pow2(q)) % Pow2(w)
  }

  /** A field is its low part plus its shifted high part. */
  lemma FieldSplit(t: nat, q: nat, a: nat, b: nat)
    ensures BitField(t, q, a + b) == BitField(t, q, a) + Pow2(a) * BitField(t, q + a, b)
  {
    hide Pow2;
    var x, A, B, Q := t / Pow2(q), Pow2(a), Pow2(b), Pow2(q);
    Pow2Add(a, b);
    Pow2Add(q, a);
    NestedDiv(x, A, B);
    NestedDiv(t, Q, A);
    assert BitField(t, q + a, b) == (t / (Q * A)) % B;
  }

  /** Fields below position q do not see what is added at q. */
  lemma FieldBelow(t: nat, v: nat, q: nat, at: nat, w: nat)
    requires at + w <= q
    ensures BitField(t + v * Pow2(q), at, w) == BitField(t, at, w)
  {
    hide Pow2;
    var rest := q - at - w;
    Pow2Add(at, w + rest);
    Pow2Add(w, rest);
    var k, A, B := v * Pow2(rest), Pow2(at), Pow2(w);
    Regroup(v, A, B, Pow2(rest));
    AddMultiple(t, k * B, A);
    AddMultiple(t / A, k, B);
  }

  lemma Regroup(v: nat, a: nat, b: nat, c: nat)
    ensures v * (a * (b * c)) == ((v * c) * b) * a
  {
    assert v * (a * (b * c)) == (v * a) * (b * c);
    assert (v * a) * (b * c) == ((v * a) * c) * b;
    assert ((v * c) * b) * a == ((v * c) * a) * b;
    assert (v * a) * c == (v * c) * a;
  }

  /** Fields from position q on see only what was added at q. */
  lemma FieldAbove(t: nat, v: nat, q: nat, at: nat, w: nat)
    requires t < Pow2(q) && q <= at
    ensures BitField(t + v * Pow2(q), at, w) == BitField(v, at - q, w)
  {
    DivUnique(t + v * Pow2(q), Pow2(q), v, t);
    NestedDiv(t + v * Pow2(q), Pow2(q), Pow2(at - q));
    Pow2Add(q, at - q);
  }

  /** A number below 2^w is its own field. */
  lemma FieldSmall(v: nat, w: nat, w': nat)
    requires v < Pow2(w) && w <= w'
    ensures BitField(v, 0, w') == v
  {
    Pow2Monotone(w, w');
    assert Pow2(0) == 1 && v / 1 == v;
    DivUnique(v, Pow2(w'), 0, v);
  }

  lemma FieldZero(v: nat, w: nat, q: nat, w': nat)
    requires v < Pow2(w) && w <= q
    ensures BitField(v, q, w') == 0
  {
    Pow2Monotone(w, q);
    DivUnique(v, Pow2(q), 0, v);
    DivUnique(0, Pow2(w'), 0, 0);
  }

  // ----- bitwise or -----

  function BitOr(a: nat, b: nat): nat {
    if a == 0 then b else if b == 0 then a
    else 2 * BitOr(a / 2, b / 2) + (if a % 2 == 1 || b % 2 == 1 then 1 else 0)
  }

  /** Or of numbers without common bits is their sum. */
  lemma {:induction false} BitOrDisjoint(a: nat, b: nat, k: nat)
    requires a < Pow2(k)
    ensures BitOr(a, b * Pow2(k)) == a + b * Pow2(k)
  {
    if k == 0 || a == 0 || b == 0 {
      assert k == 0 ==> a == 0;
      assert b == 0 ==> b * Pow2(k) == 0;
    } else {
      var q := Pow2(k - 1);
      assert Pow2(k) == 2 * q;
      hide Pow2;
      TwiceProduct(b, q);
      MulLe(1, b, q);
      BitOrDisjoint(a / 2, b, k - 1);
    }
  }

  lemma ModBelow(x: nat, m: nat)
    requires m > 0
    ensures x % m <= x
  {
    assert x == (x / m) * m + x % m;
    MulLe(0, x / m, m);
  }

  lemma {:induction false} BitOrBelow(a: nat, b: nat, k: nat)
    requires a < Pow2(k) && b < Pow2(k)
    ensures BitOr(a, b) < Pow2(k)
  {
    if k > 0 && a > 0 && b > 0 {
      BitOrBelow(a / 2, b / 2, k - 1);
    } else if k == 0 {
      assert a == 0 && b == 0;
    }
  }

  // ----- numbers as bytes -----

  /** The number with the given bytes, least significant first. */
  function LeValue(bytes: seq<Octet>): nat {
    if bytes == [] then 0
    else LeValue(bytes[..|bytes| - 1]) + bytes[|bytes| - 1] * Pow2(8 * (|bytes| - 1))
  }

  lemma {:induction false} LeValueBound(bytes: seq<Octet>)
    ensures LeValue(bytes) < Pow2(8 * |bytes|)
  {
    if bytes == [] {
    } else {
      var q := 8 * (|bytes| - 1);
      LeValueBound(bytes[..|bytes| - 1]);
      Pow2Add(q, 8);
      assert Pow2(8) == 256;
      MulLe(bytes[|bytes| - 1], 255, Pow2(q));
    }
  }

  lemma LeValueNone(buf: seq<Octet>)
    ensures LeValue(buf[..0]) == 0
  {
  }

  lemma LeValueNext(buf: seq<Octet>, j: nat)
    requires j < |buf|
    ensures LeValue(buf[..j + 1]) == LeValue(buf[..j]) + buf[j] * Pow2(8 * j)
  {
    assert buf[..j + 1][..j] == buf[..j];
  }

  lemma {:induction false} LeValueConcat(a: seq<Octet>, b: seq<Octet>)
    ensures LeValue(a + b) == LeValue(a) + LeValue(b) * Pow2(8 * |a|)
  {
    if b == [] {
      assert LeValue(b) == 0;
      hide Pow2, LeValue;
      assert a + b == a;
    } else {
      hide Pow2, LeValue;
      var m := |b| - 1;
      LeValueConcat(a, b[..m]);
      LeValueLast(a, b);
      LeValueNext(b, m);
      assert b[..m + 1] == b;
      Pow2Add(8 * m, 8 * |a|);
      ShiftedSum(LeValue(b[..m]), b[m], Pow2(8 * m), Pow2(8 * |a|));
    }
  }

  lemma LeValueLast(a: seq<Octet>, b: seq<Octet>)
    requires b != []
    ensures LeValue(a + b) == LeValue(a + b[..|b| - 1]) + b[|b| - 1] * Pow2(8 * (|b| - 1) + 8 * |a|)
  {
    hide Pow2, LeValue;
    var s, m, j := a + b, |b| - 1, |a + b| - 1;
    LeValueNext(s, j);
    assert s[..j + 1] == s && s[..j] == a + b[..m] && s[j] == b[m];
    assert 8 * j == 8 * m + 8 * |a|;
  }

  lemma ShiftedSum(x: nat, y: nat, a: nat, b: nat)
    ensures (x + y * a) * b == x * b + y * (a * b)
  {
    assert (y * a) * b == y * (a * b);
  }

  /** The bytes are the 8-bit fields of the number. */
  lemma {:induction false} LeValueField(bytes: seq<Octet>, i: nat)
    requires i < |bytes|
    ensures BitField(LeValue(bytes), 8 * i, 8) == bytes[i]
  {
    hide BitField, Pow2;
    var m := |bytes| - 1;
    var v, x := LeValue(bytes[..m]), bytes[m];
    LeValueBound(bytes[..m]);
    OctetBound(x);
    if i < m {
      LeValueField(bytes[..m], i);
      FieldBelow(v, x, 8 * m, 8 * i, 8);
    } else {
      FieldAbove(v, x, 8 * m, 8 * m, 8);
      FieldSmall(x, 8, 8);
    }
  }

  lemma OctetBound(x: Octet)
    ensures x < Pow2(8)
  {
    assert Pow2(8) == 256;
  }

  /** The low len bytes of t. */
  function BytesOf(t: nat, len: nat): (s: seq<Octet>)
    ensures |s| == len
  {
    OctetBound(255);
    assert Pow2(8) == 256;
    seq<Octet>(len, i requires 0 <= i < len => BitField(t, 8 * i, 8))
  }

  lemma {:induction false} LeValueOfBytes(t: nat, len: nat)
    ensures LeValue(BytesOf(t, len)) == BitField(t, 0, 8 * len)
  {
    if len == 0 {
      assert LeValue([]) == 0 && Pow2(0) == 1;
    } else {
      hide BitField, Pow2, LeValue;
      var l := len - 1;
      var s := BytesOf(t, len);
      LeValueOfBytes(t, l);
      FieldSplit(t, 0, 8 * l, 8);
      assert s[..l] == BytesOf(t, l) && s[l] == BitField(t, 8 * l, 8);
      hide BytesOf;
      LeValueNext(s, l);
      assert s[..l + 1] == s && 8 * len == 8 * l + 8;
      MulCommutes(s[l], Pow2(8 * l));
    }
  }
}
