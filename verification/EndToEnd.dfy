/** Key generation, signing and verification one after the other, as ref/test.c calls them. */
module EndToEnd {
  import opened Loops
  import opened Bits
  import opened Scheme
  import opened Completeness
  import opened KeyRuns
  import opened SigningRuns
  import opened Acceptance
  import opened Keypair
  import opened Signing
  import opened Opening

  /** Signing and verifying with a generated key pair. */
  method SignAndVerify(m: array<Octet>, pk: array<Octet>, sk: array<Octet>, delta': array<Octet>,
      ghost delta: seq<Octet>)
    returns (ret: int, m1: array<Octet>, mlen: nat)
    requires |delta| == SEC && sk.Length == SK_BYTES && pk.Length == PK_BYTES
    requires KeyGen(delta) == Some(KeyPair(pk[..], sk[..]))
    requires TranscriptOf(sk[..], delta'[..], m[..]).Some?
    ensures ret == 0 && mlen <= m1.Length && m1[..mlen] == m[..]
  {
    hide KeyGen, TranscriptOf, IsSignature, Open, IsSigned, Accepts;
    ghost var d', msg := delta'[..], m[..];
    var sm := new Octet[SIG_BYTES + m.Length](_ => 0);
    var smlen;
    ret, smlen := CryptoSign(sm, m, sk, delta');
    assert sm[..smlen] == sm[..];
    HonestSignatureIsAccepted(delta, d', msg, sm[..]);
    m1 := new Octet[m.Length](_ => 0);
    ret, mlen := CryptoSignOpen(m1, sm, pk);
    assert m[..] == msg;
  }

  /** A full cycle on any message: whenever the retry loops of the key pair and of the signature exit,
      verification returns 0 and the message, and its own loops exit as well. */
  method Cycle(m: array<Octet>, delta: array<Octet>, delta': array<Octet>)
    returns (ret: int, m1: array<Octet>, mlen: nat)
    requires delta.Length == SEC && KeyGen(delta[..]).Some? && |KeyGen(delta[..]).value.sk| == SK_BYTES
    requires TranscriptOf(KeyGen(delta[..]).value.sk, delta'[..], m[..]).Some?
    ensures ret == 0 && mlen <= m1.Length && m1[..mlen] == m[..]
  {
    hide KeyGen, TranscriptOf, IsGenerated;
    ghost var d, d', msg := delta[..], delta'[..], m[..];
    KeyBytes(d);
    var pk, sk := new Octet[PK_BYTES](_ => 0), new Octet[SK_BYTES](_ => 0);
    ret := CryptoSignKeypair(pk, sk, delta);
    assert delta'[..] == d' && m[..] == msg;
    ret, m1, mlen := SignAndVerify(m, pk, sk, delta', d);
  }
}
