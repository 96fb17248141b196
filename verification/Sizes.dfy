/** The size formulas of include/params.py, and that the layout the code writes meets them. */
module Sizes {
  import opened Arithmetic
  import opened Params
  import opened Action
  import opened BitStream
  import opened PathNodes
  import opened Traversal
  import opened Packing
  import opened PublicKey
  import opened Scheme

  /** ceil(x / 8) */
  function CeilBytes(x: nat): nat { if x % 8 == 0 then x / 8 else x / 8 + 1 }

  /** q_bits: ceil(log2(q)) */
  function ElementBits(q: ParamSet): nat
    requires q.prime >= 1
  {
    CeilLog2(q.prime)
  }

  /** The bits of the compressed public code: all of the non-systematic part but row 0 and most of row 1. */
  function PkBits(q: ParamSet): int
    requires q.prime >= 1
  {
    var m := q.dim;
    (m * (m * m - m) - (m * m - m + (m - 1) * m - m)) * ElementBits(q)
  }

  /** pk_size */
  function PkSize(q: ParamSet): int
    requires q.prime >= 1 && PkBits(q) >= 0
  {
    (q.keys - 1) * CeilBytes(PkBits(q)) + q.pubSeedBytes
  }

  /** mat_bytes(m, m) */
  function MatBytes(q: ParamSet): nat
    requires q.prime >= 1
  {
    CeilBytes(q.dim * q.dim * ElementBits(q))
  }

  /** sk_size */
  function SkSize(q: ParamSet): int
    requires q.prime >= 1
  {
    (q.keys - 1) * (MatBytes(q) + MatBytes(q)) + q.secSeedBytes + q.pubSeedBytes
  }

  /** seed_max_tree_len */
  function MaxTreeLen(q: ParamSet): int
    requires q.weight >= 1 && q.rounds >= 1
  {
    Pow2(CeilLog2(q.weight)) + q.weight * (CeilLog2(q.rounds) - CeilLog2(q.weight) - 1)
  }

  /** sig_size */
  function SigSize(q: ParamSet): int
    requires q.prime >= 1 && q.weight >= 1 && q.rounds >= 1
  {
    q.digestBytes + q.weight * (MatBytes(q) + MatBytes(q)) + MaxTreeLen(q) * q.seedBytes + q.saltBytes
  }

  /** GFq_bits is as small as the prime allows; the layouts only need that every element fits. */
  ghost predicate BitsAreMinimal() {
    BITS == CeilLog2(P)
  }

  lemma PkBitsAreSent()
    requires BitsAreMinimal()
    ensures PkBits(PAR) == BitPos(SENT)
  {
    hide CeilLog2;
    var r := REST;
    Shape();
    MulSub(N, 2, r);
    MulSub(N, 1, N);
    assert N * r - (r + (N * N - N) - N) == SENT;
    MulCommutes(SENT, BITS);
  }

  lemma CeilIsBytesFor(x: nat)
    ensures CeilBytes(x) == BytesFor(x)
  {
  }

  lemma TwiceEach(k: nat, b: nat)
    ensures (2 * k) * b == k * (b + b)
  {
  }

  lemma MatrixBytes()
    requires BitsAreMinimal()
    ensures MatBytes(PAR) == PackedLen(NN)
  {
    hide CeilLog2;
    MulCommutes(NN, BITS);
    CeilIsBytesFor(BitPos(NN));
  }

  lemma PkSizeIs()
    requires BitsAreMinimal()
    ensures PkBits(PAR) >= 0 && PK_BYTES == PkSize(PAR)
  {
    PkBitsAreSent();
    CeilIsBytesFor(BitPos(SENT));
    hide PkBits, BitPos, CeilBytes, BytesFor;
  }

  lemma SkSizeIs()
    requires BitsAreMinimal()
    ensures SK_BYTES == SkSize(PAR)
  {
    MatrixBytes();
    hide MatBytes, PackedLen;
    TwiceEach(KEYS, PackedLen(NN));
  }

  lemma MunuIs()
    requires BitsAreMinimal()
    ensures MUNU == WEIGHT * (MatBytes(PAR) + MatBytes(PAR))
  {
    MatrixBytes();
    hide MatBytes, PackedLen;
    TwiceEach(WEIGHT, PackedLen(NN));
  }

  lemma PathSlotIs()
    ensures MAX_PATH == MaxTreeLen(PAR)
  {
    hide CeilLog2, Pow2;
  }

  lemma SigSizeIs()
    requires BitsAreMinimal()
    ensures SIG_BYTES == SigSize(PAR)
  {
    PathSlotIs();
    MunuIs();
    hide MatBytes, SegmentPos, MaxTreeLen, MaxNodes;
  }

  /** The path slot has the size of its formula for every parameter set; so have public key, secret key
      and signature when elements take ceil(log2(q)) bits. */
  lemma SizesMeetTheFormulas()
    ensures MAX_PATH == MaxTreeLen(PAR)
    ensures BitsAreMinimal() ==> PkBits(PAR) >= 0 && PK_BYTES == PkSize(PAR)
    ensures BitsAreMinimal() ==> SK_BYTES == SkSize(PAR) && SIG_BYTES == SigSize(PAR)
  {
    hide PkBits, PkSize, SkSize, SigSize, MaxTreeLen, MaxNodes, SegmentPos, BitsAreMinimal;
    PathSlotIs();
    if BitsAreMinimal() {
      PkSizeIs();
      SkSizeIs();
      SigSizeIs();
    }
  }
}
