/** The loops of ref/meds_serial.c that move matrices to and from packed bytes. */
module Codec {
  import opened Arithmetic
  import opened Params
  import opened Field
  import opened Matrix
  import opened Elimination
  import opened Action
  import opened Bits
  import opened BitStream
  import opened Packing
  import opened PublicKey
  import opened Scheme

  /** The bytes outside the window of the stream are as before. */
  lemma OutsideAgain(a: seq<Octet>, b: seq<Octet>, c: seq<Octet>, lo: nat, hi: nat)
    requires Outside(a, b, lo, hi) && Outside(b, c, lo, hi)
    ensures Outside(a, c, lo, hi)
  {
  }

  /** All entries of a square matrix, then bs_finalize. */
  method WriteMatrix(bs: BitStream, m: array<int>, ghost content: seq<Octet>)
    requires Aligned(bs, content) && IsMatrix(m[..], NN) && |content| + PackedLen(NN) <= bs.bufLen
    modifies bs, bs.data
    ensures Small(old(m[..])) && Aligned(bs, content + Pack(old(m[..])))
    ensures Outside(old(bs.data[..]), bs.data[..], bs.off, bs.off + bs.bufLen)
  {
    hide Aligned, Writing, Pack, Small, Outside;
    ghost var values, d0 := m[..], bs.data[..];
    AlignedInside(bs, content);
    ReducedIsSmall(values);
    StartWriting(bs, content, values);
    OutsideNone(d0, bs.off, bs.off + bs.bufLen);
    for j := 0 to NN
      invariant Writing(bs, content, values, j) && m[..] == values
      invariant Outside(d0, bs.data[..], bs.off, bs.off + bs.bufLen)
    {
      ghost var d1 := bs.data[..];
      WriteNext(bs, m[j], content, values, j);
      OutsideAgain(d0, d1, bs.data[..], bs.off, bs.off + bs.bufLen);
    }
    FinishWriting(bs, content, values);
  }

  lemma AlignedInside(bs: BitStream, content: seq<Octet>)
    requires Aligned(bs, content)
    ensures bs.off + bs.bufLen <= bs.data.Length
  {
  }

  /** bs_write of one entry of a code. */
  method WriteEntry(bs: BitStream, g: array<int>, r: nat, c: nat,
      ghost content: seq<Octet>, ghost values: seq<int>, ghost k: nat, ghost d0: seq<Octet>)
    requires g.Length == N * NN && r < N && c < NN
    requires Writing(bs, content, values, k) && k < |values| && At(g[..], NN, r, c) == values[k]
    requires Outside(d0, bs.data[..], bs.off, bs.off + bs.bufLen)
    modifies bs, bs.data
    ensures Writing(bs, content, values, k + 1)
    ensures Outside(d0, bs.data[..], bs.off, bs.off + bs.bufLen)
  {
    hide At, Writing, Outside;
    ghost var d1 := bs.data[..];
    var v := Cell(g, N, NN, r, c);
    WriteNext(bs, v, content, values, k);
    OutsideAgain(d0, d1, bs.data[..], bs.off, bs.off + bs.bufLen);
  }

  /** The place of entry (r, c) among those sent. */
  ghost function SentPos(r: nat, c: nat): int {
    if r == 1 then c - (N - 1) * N else N + REST * (r - 2) + (c - N)
  }

  lemma SentPosStep(r: nat)
    ensures SentPos(1, (N - 1) * N) == 0 && SentPos(1, NN) == SentPos(2, N)
    ensures r >= 2 ==> SentPos(r, NN) == SentPos(r + 1, N)
    ensures SentPos(N, N) == SENT
    ensures forall c: nat :: SentPos(r, c + 1) == SentPos(r, c) + 1
  {
    Shape();
    if r >= 2 {
      MulAdd(r - 2, 1, REST);
      MulCommutes(REST, r - 2);
      MulCommutes(REST, r - 1);
    }
    MulCommutes(REST, N - 2);
  }

  /** The part of a public code that is sent, then bs_finalize. */
  method WriteSent(bs: BitStream, g: array<int>, ghost content: seq<Octet>)
    requires Aligned(bs, content) && IsMatrix(g[..], N * NN) && |content| + PackedLen(SENT) <= bs.bufLen
    modifies bs, bs.data
    ensures Small(SentPart(old(g[..]))) && Aligned(bs, content + Pack(SentPart(old(g[..]))))
    ensures Outside(old(bs.data[..]), bs.data[..], bs.off, bs.off + bs.bufLen)
  {
    hide Aligned, Writing, Pack, Small, Outside, SentPart, At, SentPos;
    ghost var g1, values, d0 := g[..], SentPart(g[..]), bs.data[..];
    Shape();
    AlignedInside(bs, content);
    SentPartIsSmall(g[..]);
    StartWriting(bs, content, values);
    OutsideNone(d0, bs.off, bs.off + bs.bufLen);
    SentPosStep(1);
    ghost var k: nat := 0;
    for j := (N - 1) * N to NN
      invariant g[..] == g1 && k == SentPos(1, j) && Writing(bs, content, values, k)
      invariant Outside(d0, bs.data[..], bs.off, bs.off + bs.bufLen)
    {
      SentValue(g1, 1, j, k);
      WriteEntry(bs, g, 1, j, content, values, k, d0);
      k := k + 1;
    }
    for r := 2 to N
      invariant g[..] == g1 && k == SentPos(r, N) && Writing(bs, content, values, k)
      invariant Outside(d0, bs.data[..], bs.off, bs.off + bs.bufLen)
    {
      SentPosStep(r);
      for j := N to NN
        invariant g[..] == g1 && k == SentPos(r, j) && Writing(bs, content, values, k)
        invariant Outside(d0, bs.data[..], bs.off, bs.off + bs.bufLen)
      {
        SentValue(g1, r, j, k);
        WriteEntry(bs, g, r, j, content, values, k, d0);
        k := k + 1;
      }
    }
    FinishWriting(bs, content, values);
  }

  lemma SentValue(g: seq<int>, r: nat, c: nat, k: nat)
    requires 1 <= r < N && (if r == 1 then (N - 1) * N else N) <= c < NN && k == SentPos(r, c)
    ensures k < SENT && SentPart(g)[k] == At(g, NN, r, c)
  {
    hide At;
    Shape();
    if r == 1 {
      SentSize(1, 0);
    } else {
      SentSize(r, c - N);
      SentAddress(r, c - N, k);
    }
  }

  /** The place of entry (r, c) among those hashed. */
  ghost function HashedPos(r: nat, c: nat): int {
    REST * r + (c - N)
  }

  lemma HashedPosStep(r: nat)
    ensures HashedPos(0, N) == 0 && HashedPos(r, NN) == HashedPos(r + 1, N) && HashedPos(N, N) == N * REST
    ensures forall c: nat :: HashedPos(r, c + 1) == HashedPos(r, c) + 1
  {
    Shape();
    assert REST * (r + 1) == REST * r + REST;
  }

  /** A commitment in a buffer of its own: without bs_finalize, the buffer is full all the same. */
  method WriteHashed(g: array<int>) returns (buf: array<Octet>)
    requires IsMatrix(g[..], N * NN)
    ensures fresh(buf) && buf[..] == Commitment(g[..])
  {
    hide Aligned, Writing, Pack, Small, Outside, HashPart, At, HashedPos;
    ghost var g1, values := g[..], HashPart(g[..]);
    HashPartIsSmall(g[..]);
    buf := new Octet[PackedLen(N * REST)](_ => 0);
    var bs := new BitStream(buf, 0, buf.Length);
    StartAligned(bs);
    StartWriting(bs, [], values);
    ghost var d0 := buf[..];
    OutsideNone(d0, 0, buf.Length);
    HashedPosStep(0);
    ghost var k: nat := 0;
    for r := 0 to N
      invariant g[..] == g1 && k == HashedPos(r, N) && Writing(bs, [], values, k)
      invariant Outside(d0, bs.data[..], bs.off, bs.off + bs.bufLen)
    {
      HashedPosStep(r);
      for j := N to NN
        invariant g[..] == g1 && k == HashedPos(r, j) && Writing(bs, [], values, k)
        invariant Outside(d0, bs.data[..], bs.off, bs.off + bs.bufLen)
      {
        HashedValue(g1, r, j, k);
        WriteEntry(bs, g, r, j, [], values, k, d0);
        k := k + 1;
      }
    }
    FullBuffer(bs, values);
  }

  lemma HashedValue(g: seq<int>, r: nat, c: nat, k: nat)
    requires r < N && N <= c < NN && k == HashedPos(r, c)
    ensures k < N * REST && HashPart(g)[k] == At(g, NN, r, c)
  {
    hide At;
    Shape();
    IndexBound(N, REST, r, c - N);
    QuotientOf(k, REST, r, c - N);
  }

  lemma QuotientOf(k: nat, w: nat, r: nat, c: nat)
    requires k == w * r + c && c < w
    ensures k / w == r && k % w == c
  {
    assert k == w * (k / w) + k % w;
    IndexInjective(w, r, c, k / w, k % w);
  }

  lemma StartAligned(bs: BitStream)
    requires bs.Valid() && bs.bitPos == 0 && bs.bytePos == 0
    ensures Aligned(bs, [])
  {
  }

  /** When the values fill the buffer, bs_finalize changes nothing any more. */
  lemma FullBuffer(bs: BitStream, values: seq<int>)
    requires Writing(bs, [], values, |values|) && bs.off == 0 && bs.bufLen == bs.data.Length == PackedLen(|values|)
    ensures bs.data[..] == Pack(values)
  {
    hide BitField, Pow2, LeValue, Number, BytesOf, BitPos;
    assert values[..|values|] == values;
    EmptyNumber();
    PowOne();
    PackValue(values);
    assert bs.Window() == bs.data[..];
    forall i | 0 <= i < bs.data.Length ensures bs.data[..][i] == Pack(values)[i] {
      LeValueField(Pack(values), i);
      assert bs.Window()[i] == BitField(Number(values), 8 * i, 8);
    }
  }

  lemma EmptyNumber()
    ensures LeValue([]) == 0
  {
  }

  lemma PowOne()
    ensures Pow2(8 * 0) == 1
  {
  }

  /** Entries of a square matrix, then bs_finalize. */
  method ReadMatrix(bs: BitStream, m: array<int>, ghost bytes: seq<Octet>, ghost pos: nat)
    requires Reading(bs, bytes, pos, 0) && m.Length == NN && pos + PackedLen(NN) <= |bytes|
    modifies bs, m
    ensures Reading(bs, bytes, pos + PackedLen(NN), 0)
    ensures m[..] == Unpack(bytes, pos, NN)
  {
    hide Reading, ValueAt;
    for j := 0 to NN
      invariant Reading(bs, bytes, pos, j)
      invariant forall k :: 0 <= k < j ==> m[k] == ValueAt(bytes, pos, k)
    {
      var v := ReadNext(bs, bytes, pos, j, NN);
      m[j] := v;
    }
    FinishReading(bs, bytes, pos, NN);
  }

  /** bs_read(...) % MEDS_p */
  method ReadModMatrix(bs: BitStream, m: array<int>, ghost bytes: seq<Octet>, ghost pos: nat)
    requires Reading(bs, bytes, pos, 0) && m.Length == NN && pos + PackedLen(NN) <= |bytes|
    modifies bs, m
    ensures Reading(bs, bytes, pos + PackedLen(NN), 0)
    ensures m[..] == ModAll(Unpack(bytes, pos, NN)) && Reduced(m[..])
  {
    hide Reading, ValueAt;
    for j := 0 to NN
      invariant Reading(bs, bytes, pos, j)
      invariant forall k :: 0 <= k < j ==> m[k] == Mod(ValueAt(bytes, pos, k))
    {
      var v := ReadNext(bs, bytes, pos, j, NN);
      m[j] := Mod(v);
    }
    FinishReading(bs, bytes, pos, NN);
  }
}
