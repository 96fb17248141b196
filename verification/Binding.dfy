/** What the hashed bytes tell about the commitments: each entry has its place, so equal bytes come from equal
    commitments, one by one. */
module Binding {
  import opened Arithmetic
  import opened Params
  import opened Matrix
  import opened Bits
  import opened Shake
  import opened Action
  import opened Packing
  import opened PublicKey
  import opened Scheme

  /** Group k of BITS bits of the little-endian number of some bytes. */
  ghost function Group(bytes: seq<Octet>, k: nat): nat {
    hide LeValue;
    (LeValue(bytes) / Pow2(BITS * k)) % Pow2(BITS)
  }

  /** The values packed are the groups of BITS bits of the little-endian number of the bytes. */
  lemma PackedValue(values: seq<int>, k: nat)
    requires Small(values) && k < |values|
    ensures Group(Pack(values), k) == values[k]
  {
    hide Pow2, LeValue, Pack, Number;
    PackValue(values);
    NumberField(values, k, |values|);
    assert values[..|values|] == values;
  }

  lemma HashPartAt(g: Mat, r: nat, c: nat)
    requires r < N && N <= c < NN
    ensures REST * r + (c - N) < N * REST
    ensures HashPart(g)[REST * r + (c - N)] == At(g, NN, r, c)
  {
    hide At;
    Shape();
    IndexBound(N, REST, r, c - N);
    var k := REST * r + (c - N);
    IndexSplit(N, REST, k);
    IndexInjective(REST, r, c - N, k / REST, k % REST);
  }

  /** Entry (r, c) to the right of the identity is at bit BITS * k of the hashed bytes, with k = REST * r + (c - N). */
  lemma CommitmentEntry(g: Mat, r: nat, c: nat, k: nat)
    requires Reduced(g) && r < N && N <= c < NN && k == REST * r + (c - N)
    ensures Group(Commitment(g), k) == At(g, NN, r, c)
  {
    hide Group, Pack, HashPart, At;
    HashPartIsSmall(g);
    HashPartAt(g, r, c);
    PackedValue(HashPart(g), k);
  }

  ghost predicate IsCommitted(g: Mat) {
    IsMatrix(g, N * NN) && Systematic(g, N, NN)
  }

  /** A commitment is determined by its hashed bytes. */
  lemma CommitmentInjective(g: Mat, g': Mat)
    requires IsCommitted(g) && IsCommitted(g') && Commitment(g) == Commitment(g')
    ensures g == g'
  {
    hide At, Commitment, Group;
    forall r, c | 0 <= r < N && 0 <= c < NN ensures At(g, NN, r, c) == At(g', NN, r, c) {
      if c >= N {
        HashPartAt(g, r, c);
        CommitmentEntry(g, r, c, REST * r + (c - N));
        CommitmentEntry(g', r, c, REST * r + (c - N));
      }
    }
    MatEqual(N, NN, g, g');
  }

  lemma CommitmentLength(g: Mat)
    requires Reduced(g)
    ensures |Commitment(g)| == PackedLen(N * REST)
  {
    hide Pack, PackedLen;
  }

  ghost predicate AllCommitted(gs: seq<Mat>) {
    forall i :: 0 <= i < |gs| ==> IsCommitted(gs[i])
  }

  /** The commitments as they are hashed, one after the other. */
  ghost function HashedCodes(gs: seq<Mat>): seq<Octet>
    requires AllCommitted(gs)
  {
    if gs == [] then [] else HashedCodes(gs[..|gs| - 1]) + Commitment(gs[|gs| - 1])
  }

  lemma {:induction false} HashedLength(gs: seq<Mat>)
    requires AllCommitted(gs)
    ensures |HashedCodes(gs)| == |gs| * PackedLen(N * REST)
  {
    hide Commitment, PackedLen, IsCommitted;
    if gs != [] {
      var m := |gs| - 1;
      HashedLength(gs[..m]);
      assert IsCommitted(gs[m]) && Reduced(gs[m]) by { CommittedIsReduced(gs[m]); }
      CommitmentLength(gs[m]);
      MulAdd(m, 1, PackedLen(N * REST));
    }
  }

  lemma CommittedIsReduced(g: Mat)
    requires IsCommitted(g)
    ensures Reduced(g)
  {
  }

  /** Equal bytes of equally many commitments come from equal commitments. */
  lemma {:induction false} HashedInjective(gs: seq<Mat>, gs': seq<Mat>)
    requires AllCommitted(gs) && AllCommitted(gs') && |gs| == |gs'| && HashedCodes(gs) == HashedCodes(gs')
    ensures gs == gs'
  {
    hide Commitment, PackedLen, IsCommitted;
    if gs != [] {
      var m := |gs| - 1;
      CommittedIsReduced(gs[m]);
      CommittedIsReduced(gs'[m]);
      var a, b := HashedCodes(gs[..m]), Commitment(gs[m]);
      var a', b' := HashedCodes(gs'[..m]), Commitment(gs'[m]);
      HashedLength(gs[..m]);
      HashedLength(gs'[..m]);
      SplitEqual(a, b, a', b');
      HashedInjective(gs[..m], gs'[..m]);
      CommitmentInjective(gs[m], gs'[m]);
      assert gs == gs[..m] + [gs[m]] && gs' == gs'[..m] + [gs'[m]];
    }
  }

  lemma SplitEqual(a: seq<Octet>, b: seq<Octet>, a': seq<Octet>, b': seq<Octet>)
    requires a + b == a' + b' && |a| == |a'|
    ensures a == a' && b == b'
  {
    assert a == (a + b)[..|a|] && a' == (a' + b')[..|a|];
    assert b == (a + b)[|a|..] && b' == (a' + b')[|a|..];
  }

  /** Two byte strings with the same digest. */
  ghost predicate Collide(x: seq<Octet>, y: seq<Octet>) {
    x != y && Bytes(x, 0, DIGEST) == Bytes(y, 0, DIGEST)
  }

  /** The digest binds the commitments and the message, unless SHAKE256 has a collision here. */
  lemma DigestBinds(gs: seq<Mat>, msg: seq<Octet>, gs': seq<Mat>, msg': seq<Octet>)
    requires AllCommitted(gs) && AllCommitted(gs') && |gs| == |gs'|
    requires Bytes(HashedCodes(gs) + msg, 0, DIGEST) == Bytes(HashedCodes(gs') + msg', 0, DIGEST)
    ensures (gs == gs' && msg == msg') || Collide(HashedCodes(gs) + msg, HashedCodes(gs') + msg')
  {
    hide HashedCodes, AllCommitted, Bytes, PackedLen;
    var x, y := HashedCodes(gs) + msg, HashedCodes(gs') + msg';
    if x == y {
      HashedLength(gs);
      HashedLength(gs');
      SplitEqual(HashedCodes(gs), msg, HashedCodes(gs'), msg');
      HashedInjective(gs, gs');
    }
  }
}
