/** bs_write, bs_read and bs_finalize (ref/bitstream.c) over a caller's byte buffer. */
module BitStream {
  import opened Arithmetic
  import opened Params
  import opened Bits

  /** How many bytes hold the first q bits. */
  function BytesFor(q: nat): nat { (q + 7) / 8 }

  /** The bytes of s up to bit position q are those of the number t. */
  ghost predicate Packed(s: seq<Octet>, t: nat, q: nat) {
    && t < Pow2(q) && BytesFor(q) <= |s|
    && forall i :: 0 <= i < BytesFor(q) ==> s[i] == BitField(t, 8 * i, 8)
  }

  /** Byte k of s is the only one that may differ in s'. */
  ghost predicate OnlyByte(s: seq<Octet>, s': seq<Octet>, k: int) {
    |s'| == |s| && forall i :: 0 <= i < |s| && i != k ==> s'[i] == s[i]
  }

  lemma PackedPad(s: seq<Octet>, t: nat, q: nat)
    requires Packed(s, t, q)
    ensures Packed(s, t, 8 * BytesFor(q))
  {
    Pow2Monotone(q, 8 * BytesFor(q));
  }

  /** v << q */
  ghost function Shifted(v: nat, q: nat): nat {
    MulLe(0, v, Pow2(q));
    v * Pow2(q)
  }

  /** The current byte after j more bits c have been placed above the b bits it holds already. */
  lemma AppendedByte(t: nat, q: nat, c: nat, j: nat)
    requires t < Pow2(q) && c < Pow2(j) && j <= 8 - q % 8
    ensures BitField(t + c * Pow2(q), 8 * (q / 8), 8) == BitField(t, 8 * (q / 8), 8) + c * Pow2(q % 8)
    ensures q % 8 == 0 ==> BitField(t, 8 * (q / 8), 8) == 0
  {
    hide BitField, Pow2;
    var lo, b := 8 * (q / 8), q % 8;
    var t' := t + c * Pow2(q);
    FieldSplit(t', lo, b, 8 - b);
    FieldSplit(t, lo, b, 8 - b);
    FieldBelow(t, c, q, lo, b);
    FieldAbove(t, c, q, q, 8 - b);
    FieldSmall(c, j, 8 - b);
    FieldZero(t, q, q, 8 - b);
    MulCommutes(c, Pow2(b));
    if b == 0 { FieldZero(t, q, q, 8); }
  }

  /** Placing j more bits keeps the buffer packed. */
  lemma Append(s: seq<Octet>, s': seq<Octet>, t: nat, q: nat, c: nat, j: nat)
    requires Packed(s, t, q) && c < Pow2(j) && 1 <= j <= 8 - q % 8 && q / 8 < |s| && OnlyByte(s, s', q / 8)
    requires s'[q / 8] == (if q % 8 > 0 then s[q / 8] else 0) + c * Pow2(q % 8)
    ensures Packed(s', t + c * Pow2(q), q + j)
  {
    hide BitField, Pow2;
    var t', bp := t + c * Pow2(q), q / 8;
    AppendedByte(t, q, c, j);
    AppendBound(t, q, c, j);
    assert BytesFor(q + j) == bp + 1 && BytesFor(q) == (if q % 8 > 0 then bp + 1 else bp);
    forall i | 0 <= i < bp + 1 ensures s'[i] == BitField(t', 8 * i, 8) {
      if i < bp { FieldBelow(t, c, q, 8 * i, 8); }
    }
  }

  lemma AppendBound(t: nat, q: nat, c: nat, j: nat)
    requires t < Pow2(q) && c < Pow2(j)
    ensures t + c * Pow2(q) < Pow2(q + j)
  {
    hide Pow2;
    Pow2Add(q, j);
    Below(t, c, Pow2(q), Pow2(j));
  }

  lemma Below(t: nat, c: nat, a: nat, b: nat)
    requires t < a && c < b
    ensures t + c * a < a * b
  {
    MulLe(c + 1, b, a);
    MulAdd(c, 1, a);
    MulCommutes(a, b);
  }

  /** Or-ing into a byte that has been started keeps the buffer packed. */
  lemma NarrowStarted(s: seq<Octet>, s': seq<Octet>, t: nat, q: nat, value: nat, width: nat)
    requires Packed(s, t, q) && value < Pow2(width) && 0 < width && 0 < q % 8 && q % 8 + width < 8
    requires q / 8 < |s| && OnlyByte(s, s', q / 8) && s'[q / 8] == BitOr(s[q / 8], value * Pow2(q % 8))
    ensures Packed(s', t + Shifted(value, q), q + width)
  {
    hide BitField, Pow2, OnlyByte;
    TopByte(t, q);
    BitOrDisjoint(s[q / 8], value, q % 8);
    Append(s, s', t, q, value, width);
  }

  /** Or-ing into a fresh byte keeps it packed if and only if the byte's stale bits are among the bits of
      the value. */
  lemma NarrowFresh(s: seq<Octet>, s': seq<Octet>, t: nat, k: nat, value: nat, width: nat)
    requires Packed(s, t, 8 * k) && value < Pow2(width) && 0 < width < 8
    requires k < |s| && OnlyByte(s, s', k) && s'[k] == BitOr(s[k], value)
    ensures Packed(s', t + Shifted(value, 8 * k), 8 * k + width) <==> BitOr(s[k], value) == value
  {
    var q := 8 * k;
    PowZeroIsOne();
    SplitPosition(k, 0);
    hide BitField, Pow2;
    if BitOr(s[k], value) == value {
      Append(s, s', t, q, value, width);
    } else {
      AppendedByte(t, q, value, width);
      hide OnlyByte;
      assert BytesFor(q + width) == k + 1;
    }
  }

  /** A stale byte: a one-bit zero written where 0xFF was reads back as one. */
  lemma StaleByte()
    ensures Packed([0xFF], 0, 0) && !Packed([BitOr(0xFF, 0)], 0, 1)
  {
    PowZeroIsOne();
    assert Pow2(1) == 2 && BitOr(0xFF, 0) == 0xFF;
    NarrowFresh([0xFF], [0xFF], 0, 0, 0, 1);
    assert Shifted(0, 0) == 0;
  }

  /** Or-ing a value that leaves the byte unfinished goes wrong exactly on stale bits of a byte it opens. */
  lemma NarrowCases(s: seq<Octet>, s': seq<Octet>, t: nat, q: nat, value: nat, width: nat)
    requires Packed(s, t, q) && value < Pow2(width) && q % 8 + width < 8
    requires q / 8 < |s| && OnlyByte(s, s', q / 8) && s'[q / 8] == BitOr(s[q / 8], value * Pow2(q % 8))
    ensures Packed(s', t + Shifted(value, q), q + width) <==>
      !(q % 8 == 0 && 0 < width && BitOr(s[q / 8], value) != value)
  {
    hide BitField, Pow2, Packed, OnlyByte, Shifted;
    if width == 0 {
      NarrowNothing(s, s', t, q, value);
    } else if q % 8 > 0 {
      NarrowStarted(s, s', t, q, value, width);
    } else {
      PowZeroIsOne();
      assert value * Pow2(0) == value;
      NarrowFresh(s, s', t, q / 8, value, width);
    }
  }

  lemma NarrowNothing(s: seq<Octet>, s': seq<Octet>, t: nat, q: nat, value: nat)
    requires Packed(s, t, q) && value < Pow2(0) && q / 8 < |s| && OnlyByte(s, s', q / 8)
    requires s'[q / 8] == BitOr(s[q / 8], value * Pow2(q % 8))
    ensures Packed(s', t + Shifted(value, q), q)
  {
    PowZeroIsOne();
    hide BitField, Pow2;
    assert s' == s;
  }

  /** The number after k bits of value have been appended at q. */
  ghost function Partial(t: nat, value: nat, q: nat, k: nat): nat {
    t + BitField(value, 0, k) * Pow2(q)
  }

  lemma PartialStep(t: nat, value: nat, q: nat, k: nat, j: nat)
    ensures Partial(t, value, q, k + j) == Partial(t, value, q, k) + BitField(value, k, j) * Pow2(q + k)
  {
    hide BitField;
    FieldSplit(value, 0, k, j);
    Pow2Add(q, k);
    Distribute(BitField(value, 0, k), Pow2(k), BitField(value, k, j), Pow2(q));
  }

  lemma Distribute(a: nat, b: nat, c: nat, d: nat)
    ensures (a + b * c) * d == a * d + c * (d * b)
  {
    assert (b * c) * d == c * (d * b);
  }

  lemma PartialEnds(t: nat, value: nat, q: nat, width: nat)
    requires value < Pow2(width)
    ensures Partial(t, value, q, 0) == t && Partial(t, value, q, width) == t + value * Pow2(q)
  {
    FieldSmall(value, width, width);
    assert BitField(value, 0, 0) == 0;
  }

  lemma ScaledMod(v: nat, a: nat, m: nat)
    requires a > 0 && m > 0
    ensures a * m > 0 && (v * a) % (a * m) == (v % m) * a
  {
    var y, x := v / m, v % m;
    assert v == y * m + x;
    MulAdd(y * m, x, a);
    MulAssoc(y, m, a);
    MulCommutes(m, a);
    MulLe(x + 1, m, a);
    MulAdd(x, 1, a);
    DivUnique(v * a, a * m, y, x * a);
  }

  /** (value << b) & 0xFF keeps the low 8 - b bits. */
  lemma ShiftMask(value: nat, b: nat)
    requires b < 8
    ensures (value * Pow2(b)) % 256 == BitField(value, 0, 8 - b) * Pow2(b)
  {
    Pow2Add(b, 8 - b);
    ScaledMod(value, Pow2(b), Pow2(8 - b));
    assert Pow2(8) == 256;
  }

  lemma LowAndHigh(x: nat, lo: nat, hi: nat, b: nat)
    requires x == lo + Pow2(b) * hi && lo < Pow2(b)
    ensures x / Pow2(b) == hi && x % Pow2(b) == lo
  {
    DivUnique(x, Pow2(b), hi, lo);
  }

  /** byte >> b, for the byte that position q lies in. */
  lemma UpperBits(t: nat, q: nat)
    ensures BitField(t, 8 * (q / 8), 8) / Pow2(q % 8) == BitField(t, q, 8 - q % 8)
  {
    hide BitField, Pow2;
    FieldSplit(t, 8 * (q / 8), q % 8, 8 - q % 8);
    LowAndHigh(BitField(t, 8 * (q / 8), 8), BitField(t, 8 * (q / 8), q % 8), BitField(t, q, 8 - q % 8), q % 8);
  }

  /** field & ((1 << j) - 1) */
  lemma LowerBits(t: nat, q: nat, w: nat, j: nat)
    requires j <= w
    ensures BitField(t, q, w) % Pow2(j) == BitField(t, q, j)
  {
    hide BitField, Pow2;
    FieldSplit(t, q, j, w - j);
    LowAndHigh(BitField(t, q, w), BitField(t, q, j), BitField(t, q + j, w - j), j);
  }

  /** A partially filled byte is below 2^b. */
  lemma TopByte(t: nat, q: nat)
    requires t < Pow2(q) && q % 8 > 0
    ensures BitField(t, 8 * (q / 8), 8) < Pow2(q % 8)
  {
    hide BitField, Pow2;
    FieldSplit(t, 8 * (q / 8), q % 8, 8 - q % 8);
    FieldZero(t, q, q, 8 - q % 8);
  }

  /** What is left of value after k + j bits. */
  lemma ShiftDown(value: nat, k: nat, j: nat)
    ensures (value / Pow2(k)) / Pow2(j) == value / Pow2(k + j)
    ensures (value / Pow2(k)) % Pow2(j) == BitField(value, k, j)
  {
    NestedDiv(value, Pow2(k), Pow2(j));
    Pow2Add(k, j);
  }

  /** The bits of value from position k on. */
  function Above(value: nat, k: nat): nat {
    hide Pow2;
    value / Pow2(k)
  }

  lemma NextAbove(value: nat, k: nat)
    ensures Above(value, k) % 256 == BitField(value, k, 8) && Above(value, k) / 256 == Above(value, k + 8)
  {
    hide BitField;
    ShiftDown(value, k, 8);
    ByteValues(Above(value, k));
  }

  lemma LastAbove(value: nat, k: nat, len: nat)
    requires value < Pow2(k + len) && len < 8
    ensures Above(value, k) == BitField(value, k, len)
  {
    hide BitField, Pow2;
    LastBits(value, k, len);
  }

  /** s' differs from s between lo and hi at most. */
  ghost predicate Outside(s: seq<Octet>, s': seq<Octet>, lo: nat, hi: nat) {
    && |s'| == |s| && lo <= hi <= |s|
    && s'[..lo] == s[..lo] && s'[hi..] == s[hi..]
  }

  lemma OutsideTrans(s: seq<Octet>, s': seq<Octet>, s'': seq<Octet>, lo: nat, hi: nat, hi': nat)
    requires Outside(s, s', lo, hi) && Outside(s', s'', lo, hi') && hi <= hi'
    ensures Outside(s, s'', lo, hi')
  {
    assert s'[hi'..] == s'[hi..][hi' - hi..];
    assert s[hi'..] == s[hi..][hi' - hi..];
  }

  lemma OutsideNone(s: seq<Octet>, lo: nat, hi: nat)
    requires lo <= hi <= |s|
    ensures Outside(s, s, lo, hi)
  {
  }

  lemma SplitPosition(byte: nat, bit: nat)
    requires bit < 8
    ensures (8 * byte + bit) / 8 == byte && (8 * byte + bit) % 8 == bit
  {
  }

  /** bitstream_t: the buffer is data from off on, bufLen bytes long. */
  class BitStream {
    const data: array<Octet>
    const off: nat
    const bufLen: nat
    var bytePos: nat
    var bitPos: nat

    ghost predicate Valid()
      reads this
    {
      off + bufLen <= data.Length && bitPos < 8
    }

    ghost function Position(): nat
      reads this
    {
      8 * bytePos + bitPos
    }

    ghost function Window(): seq<Octet>
      requires Valid()
      reads this, data
    {
      data[off..off + bufLen]
    }

    /** The bytes up to the current position hold t. */
    ghost predicate Holds(t: nat)
      reads this, data
    {
      Valid() && Packed(Window(), t, Position())
    }

    /** Nothing but zeros from the next byte boundary on. */
    ghost predicate Blank()
      reads this, data
    {
      Valid() && forall k :: off + BytesFor(Position()) <= k < off + bufLen ==> data[k] == 0
    }

    /** bs_init */
    constructor (buf: array<Octet>, off: nat, bufLen: nat)
      requires off + bufLen <= buf.Length
      ensures data == buf && this.off == off && this.bufLen == bufLen
      ensures bytePos == 0 && bitPos == 0 && Holds(0)
    {
      data := buf;
      this.off := off;
      this.bufLen := bufLen;
      bytePos, bitPos := 0, 0;
    }

    /** bs_finalize: on to the next byte boundary. */
    method Finalize() returns (last: int)
      requires Valid()
      modifies this
      ensures Valid() && bitPos == 0 && bytePos == BytesFor(old(Position())) && last == bytePos - 1
      ensures forall t: nat :: old(Holds(t)) ==> Holds(t)
      ensures old(Blank()) ==> Blank()
    {
      forall t: nat | Holds(t) ensures Packed(Window(), t, 8 * BytesFor(Position())) {
        PackedPad(Window(), t, Position());
      }
      bytePos := bytePos + (if bitPos > 0 then 1 else 0);
      bitPos := 0;
      last := bytePos - 1;
    }

    method Put(v: Octet, ghost t: nat, ghost c: nat, ghost j: nat)
      requires Holds(t) && bytePos < bufLen && c < Pow2(j) && 1 <= j <= 8 - bitPos
      requires v == (if bitPos > 0 then data[off + bytePos] else 0) + c * Pow2(bitPos)
      modifies data
      ensures Valid() && Packed(Window(), t + Shifted(c, Position()), Position() + j)
      ensures Outside(old(data[..]), data[..], off, off + bytePos + 1)
    {
      hide BitField, Pow2, Packed;
      ghost var s, q := Window(), Position();
      SplitPosition(bytePos, bitPos);
      data[off + bytePos] := v;
      Append(s, Window(), t, q, c, j);
    }

    /** A value that opens a byte without filling it meets stale bits there that it does not have itself. */
    ghost predicate Stale(value: nat, width: nat)
      requires Valid()
      reads this, data
    {
      bitPos == 0 && 0 < width < 8 && bytePos < bufLen && BitOr(data[off + bytePos], value) != value
    }

    lemma FreshUnlessWide(value: nat, width: nat)
      requires Valid() && (width >= 8 || Blank())
      ensures !Stale(value, width)
    {
      if bitPos == 0 && 0 < width < 8 && bytePos < bufLen {
        assert BytesFor(Position()) == bytePos;
        assert data[off + bytePos] == 0;
        PowZeroIsOne();
        BitOrDisjoint(0, value, 0);
      }
    }

    /** A write leaves the bytes behind its end as they were. */
    lemma StaysBlank(d: seq<Octet>, k: nat)
      requires Valid() && k <= BytesFor(Position()) && Outside(d, data[..], off, off + BytesFor(Position()))
      requires forall i :: off + k <= i < off + bufLen ==> d[i] == 0
      ensures Blank()
    {
      var hi := off + BytesFor(Position());
      forall i | hi <= i < off + bufLen ensures data[i] == 0 {
        assert data[hi..][i - hi] == d[hi..][i - hi];
      }
    }

    /** data[byte_pos] |= value << bit_pos, for a value that leaves the byte unfinished */
    method OrNarrow(value: nat, width: nat, ghost t: nat)
      requires Holds(t) && bytePos < bufLen && value < Pow2(width) && bitPos + width < 8
      modifies data
      ensures Valid() && Outside(old(data[..]), data[..], off, off + bytePos + 1)
      ensures data[off + bytePos] == BitOr(old(data[off + bytePos]), Shifted(value, bitPos))
      ensures Packed(Window(), t + Shifted(value, Position()), Position() + width) <==> !old(Stale(value, width))
    {
      hide BitField, Pow2, Packed;
      ghost var s, q := Window(), Position();
      SplitPosition(bytePos, bitPos);
      NarrowOctet(data[off + bytePos], value, width, bitPos);
      data[off + bytePos] := BitOr(data[off + bytePos], value * Pow2(bitPos));
      assert OnlyByte(s, Window(), bytePos);
      hide OnlyByte, Shifted;
      NarrowCases(s, Window(), t, q, value, width);
    }

    /** A started byte holds nothing above bit_pos. */
    lemma StartedByte(t: nat)
      requires Holds(t) && bitPos > 0 && bytePos < bufLen
      ensures data[off + bytePos] < Pow2(bitPos)
    {
      hide BitField, Pow2;
      SplitPosition(bytePos, bitPos);
      TopByte(t, Position());
      assert Window()[bytePos] == BitField(t, 8 * bytePos, 8);
    }

    /** data[byte_pos] |= x, where x is c << bit_pos */
    method OrInto(x: nat, ghost t: nat, ghost c: nat, ghost j: nat)
      requires Holds(t) && bytePos < bufLen && c < Pow2(j) && 1 <= j <= 8 - bitPos && x == c * Pow2(bitPos)
      requires bitPos > 0
      modifies data
      ensures Valid() && Packed(Window(), t + Shifted(c, Position()), Position() + j)
      ensures Outside(old(data[..]), data[..], off, off + bytePos + 1)
    {
      hide BitField, Pow2, Packed;
      ghost var byte := data[off + bytePos];
      StartedByte(t);
      BitOrDisjoint(byte, c, bitPos);
      OctetSum(byte, bitPos, c, j);
      Put(BitOr(data[off + bytePos], x), t, c, j);
    }

    /** A fresh byte takes the next j bits of value. */
    method PutField(v: Octet, ghost t: nat, ghost value: nat, ghost q: nat, ghost k: nat, ghost j: nat)
      requires bitPos == 0 && Position() == q + k && Holds(Partial(t, value, q, k)) && bytePos < bufLen
      requires v == BitField(value, k, j) && 1 <= j <= 8
      modifies data
      ensures Valid() && Packed(Window(), Partial(t, value, q, k + j), q + k + j)
      ensures Outside(old(data[..]), data[..], off, off + bytePos + 1)
    {
      hide BitField, Partial, Packed;
      assert Pow2(0) == 1;
      PartialStep(t, value, q, k, j);
      Put(v, Partial(t, value, q, k), BitField(value, k, j), j);
    }

    /** The next len bits of value go into a fresh byte: eight of them, or the last few. */
    method WriteByte(d: nat, value: nat, len: nat, ghost t: nat, ghost q: nat, ghost out: nat, ghost d0: seq<Octet>)
      requires bitPos == 0 && Position() == q + out && Holds(Partial(t, value, q, out)) && bytePos < bufLen
      requires 1 <= len <= 8 && d == BitField(value, out, len)
      requires Outside(d0, data[..], off, off + bytePos)
      modifies this, data
      ensures Position() == q + out + len && Holds(Partial(t, value, q, out + len))
      ensures len == 8 ==> bitPos == 0
      ensures Outside(d0, data[..], off, off + BytesFor(q + out + len))
    {
      hide BitField, Partial, Packed, Outside;
      ghost var d1 := data[..];
      FieldIsOctet(value, out, len);
      PutField(d, t, value, q, out, len);
      OutsideTrans(d0, d1, data[..], off, off + bytePos, off + bytePos + 1);
      if len == 8 { bytePos := bytePos + 1; } else { bitPos := len; }
    }

    /** The bytes that are written whole, and the last partial one; k bits of value are already out. */
    method WriteRest(value: nat, width: nat, k: nat, ghost t: nat, ghost q: nat)
      requires k <= width && value < Pow2(width) && bitPos == 0 && Position() == q + k
      requires Holds(Partial(t, value, q, k)) && q + width <= 8 * bufLen
      modifies this, data
      ensures Position() == q + width && Holds(Partial(t, value, q, width))
      ensures Outside(old(data[..]), data[..], off, off + BytesFor(q + width))
    {
      hide BitField, Pow2, Partial, Packed, Outside, Above;
      var d, out: nat := Above(value, k), k;
      ghost var d0 := data[..];
      OutsideNone(d0, off, off + bytePos);
      while width - out >= 8
        invariant out <= width && bitPos == 0 && Position() == q + out
        invariant d == Above(value, out)
        invariant Holds(Partial(t, value, q, out))
        invariant Outside(d0, data[..], off, off + bytePos)
      {
        NextAbove(value, out);
        WriteByte(d % 256, value, 8, t, q, out, d0);
        assert BytesFor(q + out + 8) == bytePos;
        d := d / 256;
        out := out + 8;
      }
      assert BytesFor(q + out) == bytePos;
      if width - out > 0 {
        LastAbove(value, out, width - out);
        WriteByte(d, value, width - out, t, q, out, d0);
      }
    }

    /** bs_write for a value that leaves the current byte unfinished. */
    method WriteNarrow(value: nat, width: nat, ghost t: nat)
      requires Holds(t) && bytePos < bufLen && value < Pow2(width) && bitPos + width < 8
      modifies this, data
      ensures Valid() && Position() == old(Position()) + width
      ensures Holds(t + Shifted(value, old(Position()))) <==> !old(Stale(value, width))
      ensures old(bitPos) == 0 ==> data[off + old(bytePos)] == BitOr(old(data[off + bytePos]), value)
      ensures Outside(old(data[..]), data[..], off, off + BytesFor(Position()))
    {
      hide BitField, Pow2, Packed, Outside, Stale;
      ghost var d0, q, t', stale := data[..], Position(), t + Shifted(value, Position()), Stale(value, width);
      ghost var at, byte := off + bytePos, BitOr(data[off + bytePos], Shifted(value, bitPos));
      OrNarrow(value, width, t);
      PowZeroIsOne();
      assert bitPos == 0 ==> Shifted(value, bitPos) == value;
      assert data[at] == byte;
      NarrowOutside(d0, data[..], off, off + bytePos, value, width, bitPos);
      ghost var w := Window();
      assert Packed(w, t', q + width) <==> !stale;
      assert BytesFor(q + width) == if bitPos + width == 0 then bytePos else bytePos + 1;
      bitPos := bitPos + width;
      assert Window() == w && Position() == q + width;
      hide Shifted;
      assert Holds(t') <==> !stale;
    }

    /** bs_write for a value that finishes the current byte. */
    method WriteWide(value: nat, width: nat, ghost t: nat)
      requires Holds(t) && value < Pow2(width) && bitPos + width >= 8 && Position() + width <= 8 * bufLen
      modifies this, data
      ensures Valid() && Position() == old(Position()) + width
      ensures Holds(t + Shifted(value, old(Position())))
      ensures Outside(old(data[..]), data[..], off, off + BytesFor(Position()))
    {
      hide BitField, Pow2, Packed, Partial, Outside;
      ghost var d0, q := data[..], Position();
      PartialEnds(t, value, q, width);
      var k := 0;
      OutsideNone(d0, off, off + bytePos);
      if bitPos > 0 {
        k := 8 - bitPos;
        ShiftMask(value, bitPos);
        OrInto((value * Pow2(bitPos)) % 256, t, BitField(value, 0, k), k);
        PartialStep(t, value, q, 0, k);
        bitPos := 0;
        bytePos := bytePos + 1;
      }
      ghost var d1, h := data[..], bytePos;
      WriteRest(value, width, k, t, q);
      OutsideTrans(d0, d1, data[..], off, off + h, off + BytesFor(q + width));
    }

    /** bs_write: appends the width bits of value, or refuses when they do not fit.  The bytes written are
        a function of the values alone, unless the value meets stale bits of a byte it opens. */
    method Write(value: nat, width: nat, ghost t: nat) returns (ret: int)
      requires Holds(t) && value < Pow2(width) && width <= 32
      requires width == 0 ==> bytePos < bufLen
      modifies this, data
      ensures ret == 0 || ret == -1
      ensures ret == -1 <==> old(Position()) + width > 8 * bufLen
      ensures ret == -1 ==> unchanged(this) && unchanged(data)
      ensures ret == 0 ==> Position() == old(Position()) + width
      ensures ret == 0 ==> (Holds(t + Shifted(value, old(Position()))) <==> !old(Stale(value, width)))
      ensures ret == 0 && old(Stale(value, width)) ==>
        data[off + old(bytePos)] == BitOr(old(data[off + bytePos]), value)
      ensures Valid() && Outside(old(data[..]), data[..], off, off + BytesFor(Position()))
    {
      hide Pow2, Packed, Outside;
      if 8 * bytePos + bitPos + width > 8 * bufLen {
        HoldsInside(t);
        OutsideNone(data[..], off, off + BytesFor(Position()));
        return -1;
      }
      if bitPos + width < 8 {
        WriteNarrow(value, width, t);
        return 0;
      }
      WriteWide(value, width, t);
      return 0;
    }

    /** A write of no bits at a byte boundary changes no byte. */
    lemma NarrowOutside(d0: seq<Octet>, d: seq<Octet>, lo: nat, at: nat, value: nat, width: nat, bit: nat)
      requires Outside(d0, d, lo, at + 1) && lo <= at && value < Pow2(width)
      requires d[at] == BitOr(d0[at], value * Pow2(bit))
      ensures Outside(d0, d, lo, if bit + width == 0 then at else at + 1)
    {
      if bit + width == 0 {
        assert Pow2(0) == 1 && d[at] == d0[at];
        assert d[at..] == [d[at]] + d[at + 1..] && d0[at..] == [d0[at]] + d0[at + 1..];
      }
    }

    lemma HoldsInside(t: nat)
      requires Holds(t)
      ensures BytesFor(Position()) <= bufLen
    {
    }

    /** Bytes lo to hi of the buffer are those of t. */
    ghost predicate Shows(t: nat, lo: nat, hi: nat)
      reads this, data
    {
      Valid() && hi <= bufLen && forall i :: lo <= i < hi ==> data[off + i] == BitField(t, 8 * i, 8)
    }

    lemma NextByte(t: nat, hi: nat)
      requires Shows(t, bytePos, hi) && bytePos < hi && bitPos == 0
      ensures bytePos < bufLen && data[off + bytePos] == BitField(t, Position(), 8)
      ensures Shows(t, bytePos + 1, hi)
    {
      hide BitField;
      assert data[off + bytePos] == BitField(t, 8 * bytePos, 8);
      assert Position() == 8 * bytePos;
    }

    /** data |= data[byte_pos] << out, or only its low j bits. */
    method TakeByte(v: nat, j: nat, ghost t: nat, ghost q: nat, out: nat, ghost hi: nat) returns (v': nat)
      requires Shows(t, bytePos, hi) && bytePos < hi && bitPos == 0 && Position() == q + out
      requires 1 <= j <= 8 && v == BitField(t, q, out)
      ensures v' == BitField(t, q, out + j)
    {
      hide BitField, Pow2;
      NextByte(t, hi);
      LowerBits(t, q + out, 8, j);
      JoinFields(t, q, out, j);
      v' := BitOr(v, (data[off + bytePos] % Pow2(j)) * Pow2(out));
    }

    /** The whole bytes and the last partial one; k bits are already in. */
    method ReadRest(got: nat, width: nat, k: nat, ghost t: nat, ghost q: nat) returns (v: nat)
      requires Valid() && bitPos == 0 && Position() == q + k && k <= width && q + width <= 8 * bufLen
      requires Shows(t, bytePos, BytesFor(q + width)) && got == BitField(t, q, k)
      modifies this
      ensures Valid() && Position() == q + width && v == BitField(t, q, width)
    {
      hide BitField, Pow2;
      v := got;
      var out := k;
      ghost var hi := BytesFor(q + width);
      while width - out >= 8
        invariant out <= width && bitPos == 0 && Position() == q + out && Valid()
        invariant Shows(t, bytePos, hi) && v == BitField(t, q, out)
      {
        NextByte(t, hi);
        v := TakeByte(v, 8, t, q, out, hi);
        out := out + 8;
        bytePos := bytePos + 1;
      }
      if width - out > 0 {
        v := TakeByte(v, width - out, t, q, out, hi);
        bitPos := width - out;
      }
    }

    /** bs_read: the next width bits of the number t in the buffer, or (uint32_t) -1 past its end. */
    method Read(width: nat, ghost t: nat) returns (v: nat)
      requires Valid() && width <= 32 && (width == 0 ==> bytePos < bufLen)
      requires Position() + width <= 8 * bufLen ==> Shows(t, bytePos, BytesFor(Position() + width))
      modifies this
      ensures Valid()
      ensures old(Position()) + width > 8 * bufLen ==> v == 0xFFFF_FFFF && Position() == old(Position())
      ensures old(Position()) + width <= 8 * bufLen ==>
        Position() == old(Position()) + width && v == BitField(t, old(Position()), width)
    {
      hide BitField, Pow2;
      ghost var q := Position();
      if 8 * bytePos + bitPos + width > 8 * bufLen {
        return 0xFFFF_FFFF;
      }
      EmptyField(t, q);
      if width > 0 { FirstByte(t, q, BytesFor(q + width)); }
      if bitPos + width < 8 {
        v := (data[off + bytePos] / Pow2(bitPos)) % Pow2(width);
        if width > 0 { LowerBits(t, q, 8 - bitPos, width); } else { PowZeroIsOne(); }
        bitPos := bitPos + width;
        return;
      }
      var k := 0;
      v := 0;
      if bitPos > 0 {
        v := data[off + bytePos] / Pow2(bitPos);
        k := 8 - bitPos;
        bitPos := 0;
        bytePos := bytePos + 1;
      }
      v := ReadRest(v, width, k, t, q);
    }

    /** What is left of the current byte. */
    lemma FirstByte(t: nat, q: nat, hi: nat)
      requires Shows(t, bytePos, hi) && bytePos < hi && q == Position()
      ensures bytePos < bufLen && off + bytePos < data.Length
      ensures data[off + bytePos] / Pow2(bitPos) == BitField(t, q, 8 - bitPos)
      ensures Shows(t, bytePos + 1, hi)
    {
      hide BitField, Pow2;
      SplitPosition(bytePos, bitPos);
      UpperBits(t, q);
      assert data[off + bytePos] == BitField(t, 8 * bytePos, 8);
    }
  }

  /** v |= next << k */
  lemma JoinFields(t: nat, q: nat, k: nat, j: nat)
    ensures BitOr(BitField(t, q, k), BitField(t, q + k, j) * Pow2(k)) == BitField(t, q, k + j)
  {
    hide BitField;
    BitOrDisjoint(BitField(t, q, k), BitField(t, q + k, j), k);
    FieldSplit(t, q, k, j);
  }

  lemma EmptyField(t: nat, q: nat)
    ensures BitField(t, q, 0) == 0
  {
  }

  lemma OctetSum(byte: nat, b: nat, c: nat, j: nat)
    requires byte < Pow2(b) && c < Pow2(j) && b + j <= 8
    ensures byte + c * Pow2(b) < 256
  {
    AppendBound(byte, b, c, j);
    Pow2Monotone(b + j, 8);
    assert Pow2(8) == 256;
  }

  lemma FieldIsOctet(t: nat, q: nat, w: nat)
    requires w <= 8
    ensures BitField(t, q, w) < 256
  {
    hide BitField;
    Pow2Monotone(w, 8);
    assert Pow2(8) == 256;
  }

  lemma PowZeroIsOne()
    ensures Pow2(0) == 1
  {
  }

  lemma NarrowOctet(byte: Octet, value: nat, width: nat, b: nat)
    requires value < Pow2(width) && b + width < 8
    ensures 0 <= BitOr(byte, value * Pow2(b)) < 256
  {
    assert Pow2(8) == 256;
    hide Pow2;
    Pow2Add(width, b);
    Pow2Monotone(width + b, 8);
    MulLe(0, value, Pow2(b));
    MulLe(value + 1, Pow2(width), Pow2(b));
    MulAdd(value, 1, Pow2(b));
    BitOrBelow(byte, value * Pow2(b), 8);
  }

  lemma ByteValues(d: nat)
    ensures Pow2(8) == 256 && d % 256 == d % Pow2(8) && d / 256 == d / Pow2(8) && Pow2(0) == 1
  {
    assert Pow2(8) == 256;
  }

  /** What is left after all but len bits is the last field itself. */
  lemma LastBits(value: nat, k: nat, len: nat)
    requires value < Pow2(k + len) && len < 8
    ensures value / Pow2(k) == BitField(value, k, len) && value / Pow2(k) < 256 && Pow2(0) == 1
  {
    hide BitField;
    ShiftDown(value, k, len);
    DivUnique(value, Pow2(k + len), 0, value);
    Pow2Monotone(len, 8);
    assert Pow2(8) == 256;
    var x := value / Pow2(k);
    assert x / Pow2(len) == 0;
    assert x == (x / Pow2(len)) * Pow2(len) + x % Pow2(len);
  }

  // ----- whole runs -----

  /** One call on the stream: a value of some width, or a step to the next byte. */
  datatype Op = Item(value: nat, width: nat) | Pad

  ghost predicate WellFormed(ops: seq<Op>) {
    forall i :: 0 <= i < |ops| && ops[i].Item? ==> ops[i].value < Pow2(ops[i].width)
  }

  /** The number a run of the writer leaves behind, starting from t at position q. */
  ghost function Written(ops: seq<Op>, t: nat, q: nat): nat
    decreases |ops|
  {
    if ops == [] then t
    else match ops[0]
      case Item(v, w) => Written(ops[1..], t + v * Pow2(q), q + w)
      case Pad => Written(ops[1..], t, 8 * BytesFor(q))
  }

  ghost function EndOf(ops: seq<Op>, q: nat): nat
    decreases |ops|
  {
    if ops == [] then q
    else match ops[0]
      case Item(v, w) => EndOf(ops[1..], q + w)
      case Pad => EndOf(ops[1..], 8 * BytesFor(q))
  }

  /** The same calls on the reading side: values are replaced by what is read. */
  ghost function ReadBack(ops: seq<Op>, t: nat, q: nat): seq<Op>
    decreases |ops|
  {
    if ops == [] then []
    else match ops[0]
      case Item(v, w) => [Item(BitField(t, q, w), w)] + ReadBack(ops[1..], t, q + w)
      case Pad => [Pad] + ReadBack(ops[1..], t, 8 * BytesFor(q))
  }

  /** What is below q is settled. */
  lemma {:induction false} WrittenKeeps(ops: seq<Op>, t: nat, q: nat, at: nat, w: nat)
    requires at + w <= q
    ensures BitField(Written(ops, t, q), at, w) == BitField(t, at, w)
    decreases |ops|
  {
    hide BitField;
    if ops != [] {
      match ops[0]
      case Item(v, w') =>
        WrittenKeeps(ops[1..], t + v * Pow2(q), q + w', at, w);
        FieldBelow(t, v, q, at, w);
      case Pad => WrittenKeeps(ops[1..], t, 8 * BytesFor(q), at, w);
    }
  }

  /** Reading with the widths and byte steps of the writer returns the values written. */
  lemma {:induction false} RoundTrip(ops: seq<Op>, t: nat, q: nat)
    requires WellFormed(ops) && t < Pow2(q)
    ensures ReadBack(ops, Written(ops, t, q), q) == ops
    ensures Written(ops, t, q) < Pow2(EndOf(ops, q))
    decreases |ops|
  {
    hide BitField, Pow2;
    if ops != [] {
      match ops[0]
      case Item(v, w) =>
        MulLe(0, v, Pow2(q));
        AppendBound(t, q, v, w);
        RoundTrip(ops[1..], t + v * Pow2(q), q + w);
        WrittenKeeps(ops[1..], t + v * Pow2(q), q + w, q, w);
        FieldAbove(t, v, q, q, w);
        FieldSmall(v, w, w);
      case Pad =>
        Pow2Monotone(q, 8 * BytesFor(q));
        RoundTrip(ops[1..], t, 8 * BytesFor(q));
    }
  }

  /** Every value has between 1 and 32 bits. */
  ghost predicate IsRun(ops: seq<Op>) {
    WellFormed(ops) && forall i :: 0 <= i < |ops| && ops[i].Item? ==> 1 <= ops[i].width <= 32
  }

  /** No value is narrower than a byte, as in all calls of the scheme. */
  ghost predicate IsWide(ops: seq<Op>) {
    forall i :: 0 <= i < |ops| && ops[i].Item? ==> ops[i].width >= 8
  }

  lemma {:induction false} EndGrows(ops: seq<Op>, q: nat)
    ensures EndOf(ops, q) >= q
    decreases |ops|
  {
    if ops != [] {
      match ops[0]
      case Item(v, w) => EndGrows(ops[1..], q + w);
      case Pad => EndGrows(ops[1..], 8 * BytesFor(q));
    }
  }

  /** The position after a run is the position after its first i calls, moved on by the others: writer and
      reader, whose positions are both EndOf of the calls made, agree after every call. */
  lemma {:induction false} EndSplit(ops: seq<Op>, i: nat, q: nat)
    requires i <= |ops|
    ensures EndOf(ops, q) == EndOf(ops[i..], EndOf(ops[..i], q))
    decreases i
  {
    if i == 0 {
      assert ops[0..] == ops && ops[..0] == [];
    } else {
      var rest := ops[1..];
      assert ops[..i][0] == ops[0] && ops[..i][1..] == rest[..i - 1] && rest[i - 1..] == ops[i..];
      match ops[0]
      case Item(v, w) => EndSplit(rest, i - 1, q + w);
      case Pad => EndSplit(rest, i - 1, 8 * BytesFor(q));
    }
  }

  /** Where one call of a run takes the position. */
  ghost function NextOf(op: Op, q: nat): nat {
    if op.Item? then q + op.width else 8 * BytesFor(q)
  }

  ghost function Got(op: Op, t: nat, q: nat): Op {
    if op.Item? then Item(BitField(t, q, op.width), op.width) else Pad
  }

  lemma RunStep(ops: seq<Op>, i: nat, t: nat, q: nat)
    requires i < |ops|
    ensures EndOf(ops[i..], q) == EndOf(ops[i + 1..], NextOf(ops[i], q)) >= NextOf(ops[i], q)
    ensures ReadBack(ops[i..], t, q) == [Got(ops[i], t, q)] + ReadBack(ops[i + 1..], t, NextOf(ops[i], q))
    ensures Written(ops[i..], t, q)
      == Written(ops[i + 1..], if ops[i].Item? then t + Shifted(ops[i].value, q) else t, NextOf(ops[i], q))
  {
    hide BitField;
    assert ops[i..][0] == ops[i] && ops[i..][1..] == ops[i + 1..];
    EndGrows(ops[i + 1..], NextOf(ops[i], q));
  }

  lemma WideAt(ops: seq<Op>, i: nat)
    requires i < |ops| && IsWide(ops) && ops[i].Item?
    ensures ops[i].width >= 8
  {
  }

  /** One call of a run: it meets no stale bits. */
  method WriteItem(bs: BitStream, value: nat, width: nat, ghost t: nat)
    requires bs.Holds(t) && value < Pow2(width) && 1 <= width <= 32 && bs.Position() + width <= 8 * bs.bufLen
    requires width >= 8 || bs.Blank()
    modifies bs, bs.data
    ensures bs.Position() == old(bs.Position()) + width && bs.Holds(t + Shifted(value, old(bs.Position())))
    ensures old(bs.Blank()) ==> bs.Blank()
  {
    hide Pow2, Shifted, Packed;
    ghost var d, q, blank := bs.data[..], bs.Position(), bs.Blank();
    bs.FreshUnlessWide(value, width);
    var ret := bs.Write(value, width, t);
    assert BytesFor(q) <= BytesFor(q + width);
    if blank { bs.StaysBlank(d, BytesFor(q)); }
  }

  /** A run of bs_write and bs_finalize calls, into any buffer or, with values narrower than a byte, into one
      that is zero from the next byte on. */
  method WriteRun(bs: BitStream, ops: seq<Op>, ghost t: nat)
    requires IsRun(ops) && bs.Holds(t) && EndOf(ops, bs.Position()) <= 8 * bs.bufLen
    requires IsWide(ops) || bs.Blank()
    modifies bs, bs.data
    ensures bs.Position() == EndOf(ops, old(bs.Position()))
    ensures bs.Holds(Written(ops, t, old(bs.Position())))
  {
    hide Pow2, Written, EndOf, Shifted, BytesFor, IsWide, Packed, BitStream.Blank;
    ghost var t', q0 := t, bs.Position();
    assert ops[0..] == ops;
    for i := 0 to |ops|
      invariant bs.Holds(t') && (IsWide(ops) || bs.Blank())
      invariant Written(ops[i..], t', bs.Position()) == Written(ops, t, q0)
      invariant EndOf(ops[i..], bs.Position()) == EndOf(ops, q0) <= 8 * bs.bufLen
    {
      ghost var q := bs.Position();
      RunStep(ops, i, t', q);
      match ops[i]
      case Item(v, w) =>
        if IsWide(ops) { WideAt(ops, i); }
        WriteItem(bs, v, w, t');
        t' := t' + Shifted(v, q);
      case Pad =>
        var last := bs.Finalize();
    }
    RunNone(t', bs.Position());
    assert ops[|ops|..] == [];
  }

  lemma RunNone(t: nat, q: nat)
    ensures Written([], t, q) == t && EndOf([], q) == q && ReadBack([], t, q) == []
  {
  }

  /** The same run of bs_read and bs_finalize calls; only the widths of ops matter. */
  method ReadRun(bs: BitStream, ops: seq<Op>, ghost t: nat) returns (got: seq<Op>)
    requires IsRun(ops) && bs.Valid() && EndOf(ops, bs.Position()) <= 8 * bs.bufLen
    requires bs.Shows(t, 0, BytesFor(EndOf(ops, bs.Position())))
    modifies bs
    ensures bs.Position() == EndOf(ops, old(bs.Position()))
    ensures got == ReadBack(ops, t, old(bs.Position()))
  {
    hide Pow2, BitField, ReadBack, EndOf;
    ghost var q0 := bs.Position();
    ghost var end := BytesFor(EndOf(ops, q0));
    got := [];
    assert ops[0..] == ops;
    for i := 0 to |ops|
      invariant bs.Shows(t, 0, end)
      invariant got + ReadBack(ops[i..], t, bs.Position()) == ReadBack(ops, t, q0)
      invariant EndOf(ops[i..], bs.Position()) == EndOf(ops, q0)
    {
      ghost var q := bs.Position();
      RunStep(ops, i, t, q);
      match ops[i]
      case Item(v, w) =>
        var x := bs.Read(w, t);
        got := got + [Item(x, w)];
      case Pad =>
        var last := bs.Finalize();
        got := got + [Pad];
    }
    RunNone(t, bs.Position());
    assert ops[|ops|..] == [];
  }

  /** Two buffers packed with the same number agree, whatever they held before. */
  lemma PackedAgree(s: seq<Octet>, s': seq<Octet>, t: nat, q: nat)
    requires Packed(s, t, q) && Packed(s', t, q)
    ensures s[..BytesFor(q)] == s'[..BytesFor(q)]
  {
    hide BitField;
  }

  /** Write and read back: reading with the writer's widths and byte steps returns the values and ends at
      the same position, and the bytes written are those of the values, whatever the buffer held. */
  method WriteThenRead(buf: array<Octet>, ops: seq<Op>) returns (got: seq<Op>)
    requires IsRun(ops) && EndOf(ops, 0) <= 8 * buf.Length
    requires IsWide(ops) || forall i :: 0 <= i < buf.Length ==> buf[i] == 0
    modifies buf
    ensures got == ops
    ensures Packed(buf[..], Written(ops, 0, 0), EndOf(ops, 0))
  {
    hide Pow2, BitField;
    var writer := new BitStream(buf, 0, buf.Length);
    WriteRun(writer, ops, 0);
    assert writer.Window() == buf[..];
    PowZeroIsOne();
    RoundTrip(ops, 0, 0);
    var reader := new BitStream(buf, 0, buf.Length);
    got := ReadRun(reader, ops, Written(ops, 0, 0));
    assert reader.Position() == writer.Position();
  }

  /** The same run into two buffers leaves the same bytes. */
  method WriteTwice(buf: array<Octet>, buf': array<Octet>, ops: seq<Op>)
    requires buf != buf' && IsRun(ops) && EndOf(ops, 0) <= 8 * buf.Length && EndOf(ops, 0) <= 8 * buf'.Length
    requires IsWide(ops)
      || ((forall i :: 0 <= i < buf.Length ==> buf[i] == 0) && forall i :: 0 <= i < buf'.Length ==> buf'[i] == 0)
    modifies buf, buf'
    ensures BytesFor(EndOf(ops, 0)) <= buf.Length && BytesFor(EndOf(ops, 0)) <= buf'.Length
    ensures buf[..BytesFor(EndOf(ops, 0))] == buf'[..BytesFor(EndOf(ops, 0))]
  {
    hide Pow2, BitField;
    var got := WriteThenRead(buf, ops);
    ghost var s := buf[..];
    var got' := WriteThenRead(buf', ops);
    assert buf[..] == s;
    PackedAgree(s, buf'[..], Written(ops, 0, 0), EndOf(ops, 0));
  }
}
