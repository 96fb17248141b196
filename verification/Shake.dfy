/** The SHAKE256 interface of ref/fips202.c as the signature scheme uses it: a function from byte
    strings to infinite byte streams. */
module Shake {
  import opened Keccak
  import opened Sponge
  import opened Bits

  /** SHAKE256_RATE and the suffix bits of SHAKE. */
  const RATE: nat := 136
  const SUFFIX: Byte := 0x1F

  function ToBits(msg: seq<Octet>): (x: seq<Byte>)
    ensures |x| == |msg|
  {
    seq(|msg|, i requires 0 <= i < |msg| => msg[i] as bv8)
  }

  function FromBits(x: seq<Byte>): (msg: seq<Octet>)
    ensures |msg| == |x|
  {
    seq(|x|, i requires 0 <= i < |x| => x[i] as int)
  }

  ghost function Start(): (q: Position)
    ensures Inside(q, RATE)
  {
    Position(ZeroState(), 0)
  }

  /** The state in which squeezing starts. */
  ghost function Finalized(msg: seq<Octet>): (q: Position)
    ensures CanSqueeze(q, RATE)
  {
    Position(Finalize(Absorb(Start(), RATE, ToBits(msg)), RATE, SUFFIX), RATE)
  }

  /** Byte k of the SHAKE256 output stream for msg. */
  ghost function Stream(msg: seq<Octet>, k: nat): Octet {
    Output(Finalized(msg), RATE, k) as int
  }

  /** Bytes pos to pos + len of the stream. */
  ghost function Bytes(msg: seq<Octet>, pos: nat, len: nat): (z: seq<Octet>)
    ensures |z| == len
  {
    seq<Octet>(len, j requires 0 <= j < len => Stream(msg, pos + j))
  }

  lemma BytesSplit(msg: seq<Octet>, pos: nat, k: nat, l: nat)
    ensures Bytes(msg, pos, k + l)[..k] == Bytes(msg, pos, k)
    ensures Bytes(msg, pos, k + l)[k..] == Bytes(msg, pos + k, l)
  {
    hide Stream;
  }

  lemma BytesConcat(msg: seq<Octet>, pos: nat, k: nat, l: nat)
    ensures Bytes(msg, pos, k + l) == Bytes(msg, pos, k) + Bytes(msg, pos + k, l)
  {
    BytesSplit(msg, pos, k, l);
    hide Bytes;
    var z := Bytes(msg, pos, k + l);
    assert z == z[..k] + z[k..];
  }

  /** The stream is SHAKE256 of FIPS 202. */
  lemma StreamIsShake256(msg: seq<Octet>, d: nat)
    ensures Bytes(msg, 0, d) == FromBits(SpongeOf(136, 0x1F, ToBits(msg), d))
  {
    hide SpongeOf, Output, Finalize, Absorb;
    IncrementalIsSponge(RATE, SUFFIX, ToBits(msg), d);
  }

  /** keccak_state */
  class KeccakState {
    const s: array<Lane>
    var pos: nat
    ghost var message: seq<Octet>
    ghost var squeezed: nat

    /** Bytes are being absorbed. */
    ghost predicate Absorbing()
      reads this, s
    {
      && s.Length == 25
      && Position(s[..], pos) == Absorb(Start(), RATE, ToBits(message))
    }

    /** The message is complete; squeezed bytes of its stream have been read. */
    ghost predicate Squeezing()
      reads this, s
    {
      && s.Length == 25
      && Position(s[..], pos) == After(Finalized(message), RATE, squeezed)
    }

    constructor ()
      ensures fresh(s) && s.Length == 25
    {
      s := new Lane[25](_ => Lane(0));
      pos := 0;
    }

    /** shake256_init */
    method Init()
      requires s.Length == 25
      modifies this, s
      ensures Absorbing() && message == []
    {
      for i := 0 to 25
        invariant forall j :: 0 <= j < i ==> s[j] == Lane(0)
      {
        s[i] := Lane(0);
      }
      pos := 0;
      message := [];
      assert s[..] == ZeroState();
    }

    /** shake256_absorb */
    method AbsorbMore(input: seq<Octet>)
      requires Absorbing()
      modifies this, s
      ensures Absorbing() && message == old(message) + input
    {
      hide KeccakF, Absorb;
      AbsorbConcat(Start(), RATE, ToBits(message), ToBits(input));
      assert ToBits(message + input) == ToBits(message) + ToBits(input);
      pos := KeccakAbsorb(s, pos, RATE, ToBits(input));
      message := message + input;
    }

    /** shake256_finalize */
    method FinishAbsorbing()
      requires Absorbing()
      modifies this, s
      ensures Squeezing() && message == old(message) && squeezed == 0
    {
      hide KeccakF, Absorb, Finalize;
      KeccakFinalize(s, pos, RATE, SUFFIX);
      pos := RATE;
      squeezed := 0;
    }

    /** shake256_absorb_once */
    method AbsorbOnce(input: seq<Octet>)
      requires s.Length == 25
      modifies this, s
      ensures Squeezing() && message == input && squeezed == 0
    {
      hide KeccakF, Absorb, Finalize;
      KeccakAbsorbOnce(s, RATE, ToBits(input), SUFFIX);
      pos := RATE;
      message := input;
      squeezed := 0;
    }

    /** shake256_squeeze */
    method Squeeze(outlen: nat) returns (out: seq<Octet>)
      requires Squeezing()
      modifies this, s
      ensures Squeezing() && message == old(message) && squeezed == old(squeezed) + outlen
      ensures out == Bytes(message, old(squeezed), outlen)
    {
      hide KeccakF, Finalized, Output, After;
      var bytes;
      bytes, pos := KeccakSqueeze(outlen, s, pos, RATE);
      AfterAfter(Finalized(message), RATE, squeezed, outlen);
      forall j | 0 <= j < outlen
        ensures Output(After(Finalized(message), RATE, squeezed), RATE, j) ==
          Output(Finalized(message), RATE, squeezed + j)
      {
        OutputAfter(Finalized(message), RATE, squeezed, j);
      }
      out := FromBits(bytes);
      forall j | 0 <= j < outlen ensures out[j] == Stream(message, squeezed + j) {
        assert bytes[j] == Output(Finalized(message), RATE, squeezed + j);
      }
      squeezed := squeezed + outlen;
    }
  }

  lemma OutputAfter(q: Position, r: nat, k: nat, j: nat)
    requires CanSqueeze(q, r)
    ensures Output(After(q, r, k), r, j) == Output(q, r, k + j)
  {
    hide KeccakF;
    AfterAfter(q, r, k, j);
  }

  /** keccak_squeezeblocks: whole blocks, stored lane by lane. */
  method SqueezeBlocks(nblocks: nat, s: array<Lane>, r: nat) returns (out: seq<Byte>)
    requires s.Length == 25 && IsRate(r)
    modifies s
    ensures |out| == nblocks * r
    ensures out == Outputs(Position(old(s[..]), r), r, nblocks * r)
    ensures Position(s[..], r) == After(Position(old(s[..]), r), r, nblocks * r)
  {
    hide After, KeccakF, Output;
    ghost var q0 := Position(s[..], r);
    AfterNone(q0, r);
    out := [];
    ghost var done: nat := 0;
    for i := 0 to nblocks
      invariant done == i * r && out == Outputs(q0, r, done)
      invariant Position(s[..], r) == After(q0, r, done)
    {
      ghost var q := Position(s[..], r);
      StatePermute(s);
      var block := StoreBlock(s, r);
      SliceIsOutput(q, r, r);
      AfterAfter(q0, r, done, r);
      OutputsConcat(q0, r, done, r);
      out := out + block;
      done := done + r;
    }
  }

  method StoreBlock(s: array<Lane>, r: nat) returns (block: seq<Byte>)
    requires s.Length == 25 && IsRate(r)
    ensures block == Slice(s[..], 0, r)
  {
    hide GetByte, LaneByte;
    block := [];
    for i := 0 to r / 8
      invariant block == Slice(s[..], 0, 8 * i)
    {
      for k := 0 to 8
        invariant block == Slice(s[..], 0, 8 * i + k)
      {
        SliceOne(s[..], 0, 8 * i + k);
        StoredByte(s[..], i, k);
        block := block + [LaneByte(s[i], k)];
      }
    }
  }

  lemma StoredByte(s: State, i: nat, k: nat)
    requires i < 25 && k < 8
    ensures LaneByte(s[i], k) == GetByte(s, 8 * i + k)
  {
  }

  /** shake256: whole blocks first, the tail through the incremental interface. */
  method Shake256(outlen: nat, input: seq<Octet>) returns (out: seq<Octet>)
    ensures out == FromBits(SpongeOf(RATE, SUFFIX, ToBits(input), outlen))
  {
    hide KeccakF, Absorb, Finalize, After, SpongeOf;
    var s := new Lane[25](_ => Lane(0));
    KeccakAbsorbOnce(s, RATE, ToBits(input), SUFFIX);
    ghost var q := Position(s[..], RATE);
    var nblocks := outlen / RATE;
    var head := SqueezeBlocks(nblocks, s, RATE);
    var tail, _ := KeccakSqueeze(outlen - nblocks * RATE, s, RATE, RATE);
    OutputsConcat(q, RATE, nblocks * RATE, outlen - nblocks * RATE);
    IncrementalIsSponge(RATE, SUFFIX, ToBits(input), outlen);
    out := FromBits(head + tail);
  }
}
