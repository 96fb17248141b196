/** One round of crypto_sign and crypto_sign_open (ref/meds_serial.c): two invertible matrices grown from
    a leaf of the seed tree, retried until the transformed code has a systematic form. */
module Rounds {
  import opened Params
  import opened Loops
  import opened Matrix
  import opened Elimination
  import opened Action
  import opened Bits
  import opened Shake
  import opened SeedTree
  import opened Traversal
  import opened Sampling
  import opened PublicKey
  import opened Scheme
  import opened Keypair

  /** XOF on salt, leaf and round number; the last output replaces the leaf. */
  method DrawRound(stree: array<Seed>, leaf: nat, alpha: seq<Octet>, i: nat)
    returns (sigmaA: array<Octet>, sigmaB: array<Octet>)
    requires leaf < stree.Length
    modifies stree
    ensures fresh(sigmaA) && fresh(sigmaB)
    ensures var buf := HashInput(alpha, old(stree[leaf]), i);
      && sigmaA[..] == Bytes(buf, 0, PUB) && sigmaB[..] == Bytes(buf, PUB, PUB)
      && stree[..] == old(stree[..])[leaf := Bytes(buf, PUB + PUB, L)]
  {
    hide Bytes, Le32;
    var input := HashInput(alpha, stree[leaf], i);
    var seedBuf := new Octet[|input|](j requires 0 <= j < |input| => input[j]);
    assert seedBuf[..] == input;
    var sigma := new Octet[L](_ => 0);
    sigmaA, sigmaB := new Octet[PUB](_ => 0), new Octet[PUB](_ => 0);
    var buf := [sigmaA, sigmaB, sigma];
    ThreeLengths(buf);
    Xof(buf, seedBuf);
    assert buf[0] == sigmaA && buf[1] == sigmaB && buf[2] == sigma;
    stree[leaf] := sigma[..];
  }

  /** The body of the retry loop. */
  method AttemptRound(g0: array<int>, alpha: seq<Octet>, i: nat, stree: array<Seed>, leaf: nat,
      a: array<int>, b: array<int>, g: array<int>) returns (ok: bool)
    requires leaf < stree.Length && g0.Length == g.Length == N * NN && a.Length == b.Length == NN
    requires a != b && a != g && b != g && a != g0 && b != g0 && g != g0
    requires !TryRound(g0[..], alpha, i)(stree[leaf]).Stuck?
    modifies stree, a, b, g
    ensures stree[..] == old(stree[..])[leaf := stree[leaf]]
    ensures TryRound(g0[..], alpha, i)(old(stree[leaf])) ==
      if ok then Exit(Round(a[..], b[..], g[..])) else Again(stree[leaf])
  {
    hide Bytes, RndInvOf, Pi, SystForm, Singular, HashInput;
    ghost var c := g0[..];
    var sigmaA, sigmaB := DrawRound(stree, leaf, alpha, i);
    RndInvMatrix(a, N, N, sigmaA[..]);
    RndInvMatrix(b, N, N, sigmaB[..]);
    PiInto(g, a, b, g0);
    PiReduced(a[..], b[..], c);
    Shape();
    var ret := SystCt(g, N, NN);
    ok := ret == 0;
  }

  /** The retry loop; the leaf is overwritten at every pass, the last one included. */
  method RunRound(g0: array<int>, alpha: seq<Octet>, i: nat, stree: array<Seed>, leaf: nat)
    returns (a: array<int>, b: array<int>, g: array<int>)
    requires leaf < stree.Length && g0.Length == N * NN
    requires RoundOf(g0[..], alpha, i, stree[leaf]).Some?
    modifies stree
    ensures fresh(a) && fresh(b) && fresh(g)
    ensures stree[..] == old(stree[..])[leaf := stree[leaf]]
    ensures RoundOf(g0[..], alpha, i, old(stree[leaf])) == Some(Round(a[..], b[..], g[..]))
  {
    hide Loop, Passes, TryRound;
    ghost var c, s0 := g0[..], stree[..];
    ghost var body := TryRound(c, alpha, i);
    a, b, g := new int[NN](_ => 0), new int[NN](_ => 0), new int[N * NN](_ => 0);
    while true
      invariant g0[..] == c && a.Length == b.Length == NN && g.Length == N * NN
      invariant fresh(a) && fresh(b) && fresh(g) && a != b && a != g && b != g
      invariant stree[..] == s0[leaf := stree[leaf]]
      invariant Loop(body, stree[leaf]) == Loop(body, s0[leaf]) && Loop(body, s0[leaf]).Some?
      decreases Passes(body, stree[leaf])
    {
      LoopUnfold(body, stree[leaf]);
      if body(stree[leaf]).Again? { PassesDecrease(body, stree[leaf]); }
      var ok := AttemptRound(g0, alpha, i, stree, leaf, a, b, g);
      if ok { return; }
    }
  }
}
