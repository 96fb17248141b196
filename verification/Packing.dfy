/** Sequences of field elements as packed bytes: what a run of bs_write calls with one bs_finalize
    leaves in the buffer, and what the matching bs_read calls return. */
module Packing {
  import opened Arithmetic
  import opened Params
  import opened Matrix
  import opened Bits
  import opened BitStream

  /** Values that fit the width of a field element. */
  ghost predicate Small(values: seq<int>) {
    forall k :: 0 <= k < |values| ==> 0 <= values[k] < Pow2(BITS)
  }

  lemma ReducedIsSmall(values: seq<int>)
    requires Reduced(values)
    ensures Small(values)
  {
  }

  /** The position of value k within a segment. */
  function BitPos(k: nat): nat { BITS * k }

  lemma BitPosStep(k: nat, count: nat)
    ensures BitPos(0) == 0 && BitPos(k + 1) == BitPos(k) + BITS
    ensures k < count ==> BitPos(k) + BITS <= BitPos(count)
    ensures k <= count ==> BitPos(k) <= BitPos(count)
  {
    if k < count { MulLe(k + 1, count, BITS); }
  }

  /** The number that holds value k at bit position BitPos(k). */
  ghost function Number(values: seq<int>): (t: nat)
    requires Small(values)
  {
    if values == [] then 0
    else
      MulLe(0, values[|values| - 1], Pow2(BitPos(|values| - 1)));
      Number(values[..|values| - 1]) + values[|values| - 1] * Pow2(BitPos(|values| - 1))
  }

  lemma NumberNext(values: seq<int>, k: nat)
    requires k < |values| && Small(values)
    ensures Small(values[..k + 1]) && Small(values[..k])
    ensures Number(values[..k + 1]) == Number(values[..k]) + values[k] * Pow2(BitPos(k))
  {
    hide Pow2;
    assert values[..k + 1][..k] == values[..k];
  }

  lemma {:induction false} NumberBound(values: seq<int>, k: nat)
    requires k <= |values| && Small(values)
    ensures Small(values[..k]) && Number(values[..k]) < Pow2(BitPos(k))
  {
    if k == 0 {
      assert values[..0] == [];
    } else {
      var m := k - 1;
      hide BitPos, Pow2, Number;
      NumberNext(values, m);
      NumberBound(values, m);
      hide Small;
      BitPosStep(m, k);
      AppendBound(Number(values[..m]), BitPos(m), values[m], BITS);
    }
  }


  lemma {:induction false} NumberField(values: seq<int>, k: nat, count: nat)
    requires k < count <= |values| && Small(values)
    ensures Small(values[..count]) && BitField(Number(values[..count]), BitPos(k), BITS) == values[k]
    decreases count
  {
    hide BitPos, BitField, Pow2, Number;
    var m := count - 1;
    NumberNext(values, m);
    NumberBound(values, m);
    var t, v := Number(values[..m]), values[m];
    if k < m {
      NumberField(values, k, m);
      BitPosStep(k, m);
      FieldBelow(t, v, BitPos(m), BitPos(k), BITS);
    } else {
      FieldAbove(t, v, BitPos(m), BitPos(m), BITS);
      FieldSmall(v, BITS, BITS);
    }
  }

  /** How many bytes count values take. */
  function PackedLen(count: nat): nat { BytesFor(BitPos(count)) }

  ghost function Pack(values: seq<int>): (s: seq<Octet>)
    requires Small(values)
    ensures |s| == PackedLen(|values|)
  {
    BytesOf(Number(values), PackedLen(|values|))
  }

  /** Value k of those that start at byte pos. */
  ghost function ValueAt(bytes: seq<Octet>, pos: nat, k: nat): nat {
    BitField(LeValue(bytes), 8 * pos + BitPos(k), BITS)
  }

  ghost function Unpack(bytes: seq<Octet>, pos: nat, count: nat): (values: seq<int>)
    ensures |values| == count
  {
    seq(count, k requires 0 <= k < count => ValueAt(bytes, pos, k))
  }

  lemma PackValue(values: seq<int>)
    requires Small(values)
    ensures LeValue(Pack(values)) == Number(values)
  {
    hide BitPos, BitField, Pow2, BytesOf;
    assert values[..|values|] == values;
    NumberBound(values, |values|);
    var q, len := BitPos(|values|), PackedLen(|values|);
    LeValueOfBytes(Number(values), len);
    FieldSmall(Number(values), q, 8 * len);
  }

  /** The bits of the middle part of a byte string. */
  lemma MiddleField(pre: seq<Octet>, mid: seq<Octet>, post: seq<Octet>, q: nat, w: nat)
    requires q + w <= 8 * |mid|
    ensures BitField(LeValue(pre + mid + post), 8 * |pre| + q, w) == BitField(LeValue(mid), q, w)
  {
    hide BitPos, BitField, Pow2, LeValue;
    LeValueConcat(pre + mid, post);
    LeValueConcat(pre, mid);
    LeValueBound(pre);
    FieldBelow(LeValue(pre + mid), LeValue(post), 8 * |pre + mid|, 8 * |pre| + q, w);
    FieldAbove(LeValue(pre), LeValue(mid), 8 * |pre|, 8 * |pre| + q, w);
  }

  /** Reading a segment back returns the values packed, wherever it lies. */
  lemma UnpackPack(pre: seq<Octet>, values: seq<int>, post: seq<Octet>)
    requires Small(values)
    ensures Unpack(pre + Pack(values) + post, |pre|, |values|) == values
  {
    hide BitPos, BitField, Pow2, Number, LeValue, Pack;
    var bytes := pre + Pack(values) + post;
    forall k: nat | k < |values| ensures ValueAt(bytes, |pre|, k) == values[k] {
      BitPosStep(k, |values|);
      MiddleField(pre, Pack(values), post, BitPos(k), BITS);
      PackValue(values);
      NumberField(values, k, |values|);
      assert values[..|values|] == values;
    }
  }

  // ----- several segments -----

  /** Segments of equal length, each with values that fit. */
  ghost predicate AreSegments(list: seq<seq<int>>, count: nat) {
    forall j :: 0 <= j < |list| ==> |list[j]| == count && Small(list[j])
  }

  /** Where segment j starts. */
  function SegmentPos(j: nat, count: nat): nat { j * PackedLen(count) }

  lemma SegmentPosStep(j: nat, count: nat)
    ensures SegmentPos(0, count) == 0 && SegmentPos(j + 1, count) == SegmentPos(j, count) + PackedLen(count)
  {
  }

  /** The segments one after the other, each from a byte boundary on. */
  ghost function PackAll(list: seq<seq<int>>, count: nat): (s: seq<Octet>)
    requires AreSegments(list, count)
    ensures |s| == SegmentPos(|list|, count)
  {
    hide Pack, SegmentPos, Small;
    if list == [] then
      SegmentPosStep(0, count);
      []
    else
      SegmentPosStep(|list| - 1, count);
      PackAll(list[..|list| - 1], count) + Pack(list[|list| - 1])
  }

  lemma PackAllNext(list: seq<seq<int>>, count: nat, j: nat)
    requires AreSegments(list, count) && j < |list|
    ensures PackAll(list[..j + 1], count) == PackAll(list[..j], count) + Pack(list[j])
  {
    assert list[..j + 1][..j] == list[..j];
  }

  lemma {:induction false} PackAllSplit(list: seq<seq<int>>, count: nat, j: nat)
    requires AreSegments(list, count) && j < |list|
    ensures exists rest :: PackAll(list, count) == PackAll(list[..j], count) + Pack(list[j]) + rest
  {
    hide Pack, Small, SegmentPos, PackedLen;
    var m := |list| - 1;
    if j == m {
      assert PackAll(list, count) == PackAll(list[..j], count) + Pack(list[j]) + [];
    } else {
      PackAllSplit(list[..m], count, j);
      var rest :| PackAll(list[..m], count) == PackAll(list[..m][..j], count) + Pack(list[..m][j]) + rest;
      assert list[..m][..j] == list[..j];
      assert PackAll(list, count) == PackAll(list[..j], count) + Pack(list[j]) + (rest + Pack(list[m]));
    }
  }

  /** Segment j of a run of segments is read back as it was written. */
  lemma UnpackAll(pre: seq<Octet>, list: seq<seq<int>>, count: nat, post: seq<Octet>, j: nat)
    requires AreSegments(list, count) && j < |list|
    ensures Unpack(pre + PackAll(list, count) + post, |pre| + SegmentPos(j, count), count) == list[j]
  {
    hide Pack, Unpack, SegmentPos, PackAll, Small;
    PackAllSplit(list, count, j);
    var rest :| PackAll(list, count) == PackAll(list[..j], count) + Pack(list[j]) + rest;
    var before, behind := pre + PackAll(list[..j], count), rest + post;
    assert pre + PackAll(list, count) + post == before + Pack(list[j]) + behind;
    UnpackPack(before, list[j], behind);
  }

  // ----- writing -----

  /** The stream is at a byte boundary behind the given bytes. */
  ghost predicate Aligned(bs: BitStream, content: seq<Octet>)
    reads bs, bs.data
  {
    && bs.Valid() && bs.bitPos == 0 && bs.bytePos == |content| <= bs.bufLen
    && bs.Window()[..|content|] == content
  }

  /** k of the values have been written behind the given bytes. */
  ghost predicate Writing(bs: BitStream, content: seq<Octet>, values: seq<int>, k: nat)
    reads bs, bs.data
  {
    && Small(values) && k <= |values|
    && bs.Position() == 8 * |content| + BitPos(k)
    && Small(values[..k]) && bs.Holds(LeValue(content) + Number(values[..k]) * Pow2(8 * |content|))
    && |content| + PackedLen(|values|) <= bs.bufLen
  }

  lemma StartWriting(bs: BitStream, content: seq<Octet>, values: seq<int>)
    requires Aligned(bs, content) && Small(values) && |content| + PackedLen(|values|) <= bs.bufLen
    ensures Writing(bs, content, values, 0)
  {
    hide BitPos, BitField, Pow2, LeValue;
    LeValueBound(content);
    BitPosStep(0, 0);
    assert values[..0] == [] && Number([]) == 0;
    forall i | 0 <= i < |content| ensures bs.Window()[i] == BitField(LeValue(content), 8 * i, 8) {
      LeValueField(content, i);
      assert bs.Window()[i] == bs.Window()[..|content|][i];
    }
  }

  /** bs_write of the next value; it always fits. */
  method WriteNext(bs: BitStream, v: int, ghost content: seq<Octet>, ghost values: seq<int>, ghost k: nat)
    requires Writing(bs, content, values, k) && k < |values| && v == values[k]
    modifies bs, bs.data
    ensures Writing(bs, content, values, k + 1)
    ensures Outside(old(bs.data[..]), bs.data[..], bs.off, bs.off + bs.bufLen)
  {
    hide BitPos, BitField, Pow2, LeValue, Number, Outside;
    ghost var q, lo := 8 * |content|, LeValue(content);
    NumberNext(values, k);
    BitPosStep(k, |values|);
    ghost var d0 := bs.data[..];
    var ret := bs.Write(v, BITS, lo + Number(values[..k]) * Pow2(q));
    NextNumber(lo, Number(values[..k]), v, q, BitPos(k));
    OutsideGrow(d0, bs.data[..], bs.off, bs.off + BytesFor(bs.Position()), bs.off + bs.bufLen);
  }

  lemma NextNumber(lo: nat, t: nat, v: nat, q: nat, k: nat)
    ensures (lo + t * Pow2(q)) + v * Pow2(q + k) == lo + (t + v * Pow2(k)) * Pow2(q)
  {
    hide Pow2;
    Pow2Add(k, q);
    ShiftedSum(t, v, Pow2(k), Pow2(q));
  }

  lemma OutsideGrow(a: seq<Octet>, b: seq<Octet>, lo: nat, hi: nat, hi': nat)
    requires Outside(a, b, lo, hi) && hi <= hi' <= |a|
    ensures Outside(a, b, lo, hi')
  {
    assert a[hi'..] == a[hi..][hi' - hi..] && b[hi'..] == b[hi..][hi' - hi..];
  }

  /** bs_finalize behind the last value. */
  method FinishWriting(bs: BitStream, ghost content: seq<Octet>, ghost values: seq<int>)
    requires Writing(bs, content, values, |values|)
    modifies bs
    ensures Aligned(bs, content + Pack(values))
  {
    hide BitPos, BitField, Pow2, LeValue, Number, Pack, BytesOf;
    assert values[..|values|] == values;
    ghost var t := LeValue(content) + Number(values) * Pow2(8 * |content|);
    var last := bs.Finalize();
    ghost var end := |content| + PackedLen(|values|);
    assert bs.bytePos == end;
    LeValueBound(content);
    PackValue(values);
    forall i | 0 <= i < end ensures bs.Window()[i] == (content + Pack(values))[i] {
      assert bs.Window()[i] == BitField(t, 8 * i, 8);
      if i < |content| {
        FieldBelow(LeValue(content), Number(values), 8 * |content|, 8 * i, 8);
        LeValueField(content, i);
      } else {
        FieldAbove(LeValue(content), Number(values), 8 * |content|, 8 * i, 8);
        LeValueField(Pack(values), i - |content|);
      }
    }
  }

  // ----- reading -----

  /** k values have been read behind byte pos. */
  ghost predicate Reading(bs: BitStream, bytes: seq<Octet>, pos: nat, k: nat)
    reads bs, bs.data
  {
    bs.Valid() && bs.Window() == bytes && bs.Position() == 8 * pos + BitPos(k)
  }

  /** bs_read of the next value. */
  method ReadNext(bs: BitStream, ghost bytes: seq<Octet>, ghost pos: nat, ghost k: nat, ghost count: nat)
    returns (v: nat)
    requires Reading(bs, bytes, pos, k) && k < count && pos + PackedLen(count) <= |bytes|
    modifies bs
    ensures Reading(bs, bytes, pos, k + 1)
    ensures v == ValueAt(bytes, pos, k) < Pow2(BITS)
  {
    hide BitPos, BitField, Pow2, LeValue;
    BitPosStep(k, count);
    ghost var t, q := LeValue(bytes), bs.Position();
    assert bs.Shows(t, bs.bytePos, BytesFor(q + BITS)) by {
      forall i | 0 <= i < |bytes| ensures bs.data[bs.off + i] == BitField(t, 8 * i, 8) {
        LeValueField(bytes, i);
        assert bs.Window()[i] == bs.data[bs.off + i];
      }
    }
    v := bs.Read(BITS, t);
  }

  /** bs_finalize behind the last value. */
  method FinishReading(bs: BitStream, ghost bytes: seq<Octet>, ghost pos: nat, ghost count: nat)
    requires Reading(bs, bytes, pos, count)
    modifies bs
    ensures Reading(bs, bytes, pos + PackedLen(count), 0)
  {
    hide LeValue, BitPos;
    WholeBytes(pos, BitPos(count));
    var last := bs.Finalize();
    BitPosStep(0, count);
  }

  lemma WholeBytes(pos: nat, q: nat)
    ensures BytesFor(8 * pos + q) == pos + BytesFor(q)
  {
  }
}
