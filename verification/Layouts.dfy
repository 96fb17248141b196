/** Where everything lies in the keys and in a signature: segment by segment, and entry by entry as groups of
    bits. */
module Layouts {
  import opened Params
  import opened Matrix
  import opened Products
  import opened Action
  import opened Bits
  import opened Shake
  import opened SeedTree
  import opened PathNodes
  import opened Packing
  import opened PublicKey
  import opened Scheme
  import opened Codec
  import opened Completeness
  import opened KeyRuns
  import opened Binding
  import opened SigningRuns

  /** Segment j of some packed bytes. */
  ghost function Segment(bytes: seq<Octet>, j: nat, count: nat): seq<Octet> {
    if SegmentPos(j, count) <= SegmentPos(j + 1, count) <= |bytes|
    then bytes[SegmentPos(j, count)..SegmentPos(j + 1, count)] else []
  }

  /** Segment j of the packed bytes is the packed j-th list. */
  lemma SegmentIs(list: seq<seq<int>>, count: nat, j: nat)
    requires AreSegments(list, count) && j < |list|
    ensures Segment(PackAll(list, count), j, count) == Pack(list[j])
  {
    hide Pack, PackAll, SegmentPos, Small, PackedLen;
    PackAllSplit(list, count, j);
    var before, x := PackAll(list[..j], count), Pack(list[j]);
    var rest :| PackAll(list, count) == before + x + rest;
    SegmentPosStep(j, count);
    assert (before + x + rest)[|before|..|before| + |x|] == x;
  }

  /** Entry (r, c) of a packed matrix is group cols * r + c. */
  lemma MatrixEntry(m: Mat, r: nat, c: nat, k: nat)
    requires IsMatrix(m, NN) && r < N && c < N && k == N * r + c
    ensures Small(m) && Group(Pack(m), k) == At(m, N, r, c)
  {
    hide Pack, Group, Small;
    ReducedIsSmall(m);
    IndexBound(N, N, r, c);
    PackedValue(m, k);
  }

  /** The entries sent of a public code: the end of row 1, then the rows from 2 on right of the identity. */
  lemma SentEntry(g: Mat, r: nat, c: nat, k: nat)
    requires Reduced(g) && 1 <= r < N && (if r == 1 then (N - 1) * N else N) <= c < NN
    requires k == if r == 1 then c - (N - 1) * N else N + REST * (r - 2) + (c - N)
    ensures Small(SentPart(g)) && Group(Pack(SentPart(g)), k) == At(g, NN, r, c)
  {
    hide Pack, Group, Small, SentPart, At;
    SentPartIsSmall(g);
    SentValue(g, r, c, k);
    PackedValue(SentPart(g), k);
  }

  /** The public key: the seed of G_0, then the sent entries of every code. */
  lemma PublicKeyEntry(delta: seq<Octet>, keys: seq<Key>, pk: seq<Octet>, sk: seq<Octet>, i: nat,
      r: nat, c: nat, k: nat)
    requires IsKeyPair(delta, keys, pk, sk) && i < |keys| && WellFormedKeys(keys)
    requires 1 <= r < N && (if r == 1 then (N - 1) * N else N) <= c < NN
    requires k == if r == 1 then c - (N - 1) * N else N + REST * (r - 2) + (c - N)
    ensures |pk| >= PUB && pk[..PUB] == Bytes(delta, 0, PUB)
    ensures Group(Segment(pk[PUB..], i, SENT), k) == At(keys[i].g, NN, r, c)
  {
    hide Pack, PackAll, Group, SegmentPos, AreSegments, Small, SentPart, At, Bytes, Segment;
    assert pk[PUB..] == PackAll(SentParts(keys), SENT);
    SegmentIs(SentParts(keys), SENT, i);
    SentEntry(keys[i].g, r, c, k);
  }

  /** The secret key: delta, the seed of G_0, all A_inv, all B_inv. */
  lemma SecretKeyEntry(delta: seq<Octet>, keys: seq<Key>, pk: seq<Octet>, sk: seq<Octet>, i: nat,
      r: nat, c: nat, k: nat)
    requires IsKeyPair(delta, keys, pk, sk) && i < |keys| && WellFormedKeys(keys)
    requires r < N && c < N && k == N * r + c
    ensures var lo := |delta| + PUB;
      && |sk| >= lo && sk[..|delta|] == delta && sk[|delta|..lo] == Bytes(delta, 0, PUB)
      && Group(Segment(sk[lo..], i, NN), k) == At(keys[i].aInv, N, r, c)
      && Group(Segment(sk[lo..], |keys| + i, NN), k) == At(keys[i].bInv, N, r, c)
  {
    hide Pack, PackAll, Group, SegmentPos, AreSegments, Small, At, Bytes, Segment;
    var seed, packed := Bytes(delta, 0, PUB), PackAll(SecretParts(keys), NN);
    assert sk[..|delta|] == delta && sk[|delta|..|delta| + PUB] == seed && sk[|delta| + PUB..] == packed;
    SegmentIs(SecretParts(keys), NN, i);
    SegmentIs(SecretParts(keys), NN, |keys| + i);
    assert WellFormedKey(keys[i]);
    MatrixEntry(keys[i].aInv, r, c, k);
    MatrixEntry(keys[i].bInv, r, c, k);
  }

  /** The responses of a signature: A~ A_inv and B_inv B~ of the c-th punctured round are segments 2 c and
      2 c + 1. */
  lemma ResponseEntry(sm: seq<Octet>, sk: seq<Octet>, delta: seq<Octet>, msg: seq<Octet>, tr: Transcript, i: nat,
      r: nat, c: nat, k: nat)
    requires |sk| == SK_BYTES && IsLaidOut(sm, sk, delta, msg, tr) && i < T && tr.h[i] > 0
    requires r < N && c < N && k == N * r + c
    ensures var key, round, j := tr.h[i], tr.rounds[i], Count(tr.h, 0, i);
      && |sm| >= MUNU
      && Group(Segment(sm[..MUNU], 2 * j, NN), k) == At(Times(N, round.a, LoadedPart(sk, key - 1), N), N, r, c)
      && Group(Segment(sm[..MUNU], 2 * j + 1, NN), k) ==
        At(Times(N, LoadedPart(sk, KEYS + key - 1), round.b, N), N, r, c)
  {
    hide Pack, PackAll, Group, SegmentPos, AreSegments, Small, At, Bytes, Segment, Times, Responses, HoldsPath, Count;
    Positions();
    var key, round, j := tr.h[i], tr.rounds[i], Count(tr.h, 0, i);
    var list := Responses(sk, tr, T);
    ResponsePosition(sk, tr, i, T);
    SegmentIs(list, NN, 2 * j);
    SegmentIs(list, NN, 2 * j + 1);
    MuIsSmall(sk, round, key);
    MatrixEntry(Mu(sk, round, key), r, c, k);
    MatrixEntry(Nu(sk, round, key), r, c, k);
  }
}
