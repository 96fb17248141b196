/** The SHAKE sponge of ref/fips202.c: incremental and one-shot absorbing, squeezing, and the sponge of
    section 4 of FIPS 202 with the padding of sections 5.1 and 6.2. */
module Sponge {
  import opened Keccak
  import opened Bits

  type Byte = bv8

  /** Rates are whole lanes and leave a capacity. */
  ghost predicate IsRate(r: nat) {
    0 < r < 200 && r % 8 == 0
  }

  function Shl8Word(a: bv64): bv64 { a << 8 }

  function Shl8(l: Lane): Lane { Lane(Shl8Word(l.bits)) }

  /** l << 8 * k */
  function ShiftLane(l: Lane, k: nat): Lane {
    if k == 0 then l else Shl8(ShiftLane(l, k - 1))
  }

  /** (uint64_t) b << 8 * k */
  function ByteLane(b: Byte, k: nat): Lane {
    ShiftLane(Lane(b as bv64), k)
  }

  /** Byte i of the state is xored with b. */
  function AddByte(s: State, i: nat, b: Byte): State
    requires i < 200
  {
    s[i / 8 := Xor(s[i / 8], ByteLane(b, i % 8))]
  }

  /** v >> 8 * k */
  function ByteDown(v: bv64, k: nat): bv64 {
    if k == 0 then v else if k == 1 then v >> 8 else if k == 2 then v >> 16 else if k == 3 then v >> 24
    else if k == 4 then v >> 32 else if k == 5 then v >> 40 else if k == 6 then v >> 48 else v >> 56
  }

  function LowByte(w: bv64): Byte { (w & 0xFF) as Byte }

  /** (uint8_t) (lane >> 8 * k) */
  function LaneByte(l: Lane, k: nat): Byte { LowByte(ByteDown(l.bits, k)) }

  function GetByte(s: State, i: nat): Byte
    requires i < 200
  {
    LaneByte(s[i / 8], i % 8)
  }

  // ----- absorbing, one byte at a time -----

  datatype Position = Position(s: State, pos: nat)

  ghost predicate Inside(q: Position, r: nat) {
    IsRate(r) && q.pos < r
  }

  ghost function AbsorbByte(q: Position, r: nat, b: Byte): (q': Position)
    requires Inside(q, r)
    ensures Inside(q', r)
  {
    var s := AddByte(q.s, q.pos, b);
    if q.pos + 1 == r then Position(KeccakF(s), 0) else Position(s, q.pos + 1)
  }

  ghost function Absorb(q: Position, r: nat, msg: seq<Byte>): (q': Position)
    requires Inside(q, r)
    ensures Inside(q', r)
  {
    if msg == [] then q else AbsorbByte(Absorb(q, r, msg[..|msg| - 1]), r, msg[|msg| - 1])
  }

  lemma AbsorbNone(q: Position, r: nat)
    requires Inside(q, r)
    ensures Absorb(q, r, []) == q
  {
  }

  lemma AbsorbOne(q: Position, r: nat, msg: seq<Byte>, b: Byte)
    requires Inside(q, r)
    ensures Absorb(q, r, msg + [b]) == AbsorbByte(Absorb(q, r, msg), r, b)
  {
    assert (msg + [b])[..|msg|] == msg;
  }

  /** Absorbing in pieces is absorbing the concatenation. */
  lemma {:induction false} AbsorbConcat(q: Position, r: nat, a: seq<Byte>, b: seq<Byte>)
    requires Inside(q, r)
    ensures Absorb(q, r, a + b) == Absorb(Absorb(q, r, a), r, b)
  {
    hide AbsorbByte;
    if b == [] {
      assert a + b == a;
    } else {
      var b', x := b[..|b| - 1], b[|b| - 1];
      AbsorbConcat(q, r, a, b');
      assert a + b == (a + b') + [x];
      AbsorbOne(q, r, a + b', x);
    }
  }

  // ----- keccak_absorb -----

  /** The inner for loop: bytes are xored in from position pos on. */
  ghost function AddBytes(s: State, pos: nat, msg: seq<Byte>): State
    requires pos + |msg| <= 200
  {
    if msg == [] then s else AddByte(AddBytes(s, pos, msg[..|msg| - 1]), pos + |msg| - 1, msg[|msg| - 1])
  }

  lemma AddBytesOne(s: State, pos: nat, msg: seq<Byte>, b: Byte)
    requires pos + |msg| < 200
    ensures AddBytes(s, pos, msg + [b]) == AddByte(AddBytes(s, pos, msg), pos + |msg|, b)
  {
    assert (msg + [b])[..|msg|] == msg;
  }

  /** Bytes that stay inside the block only change the state by xor. */
  lemma {:induction false} AbsorbInside(q: Position, r: nat, msg: seq<Byte>)
    requires Inside(q, r) && q.pos + |msg| < r
    ensures Absorb(q, r, msg) == Position(AddBytes(q.s, q.pos, msg), q.pos + |msg|)
  {
    hide AddByte;
    if msg != [] { AbsorbInside(q, r, msg[..|msg| - 1]); }
  }

  /** Bytes that fill the block trigger the permutation. */
  lemma AbsorbBlock(q: Position, r: nat, msg: seq<Byte>)
    requires Inside(q, r) && q.pos + |msg| == r
    ensures Absorb(q, r, msg) == Position(KeccakF(AddBytes(q.s, q.pos, msg)), 0)
  {
    hide AddByte, KeccakF;
    AbsorbInside(q, r, msg[..|msg| - 1]);
  }

  method AddRange(s: array<Lane>, pos: nat, msg: seq<Byte>)
    requires s.Length == 25 && pos + |msg| <= 200
    modifies s
    ensures s[..] == AddBytes(old(s[..]), pos, msg)
  {
    hide Xor, ByteLane;
    ghost var s0: State := s[..];
    for i := pos to pos + |msg|
      invariant s[..] == AddBytes(s0, pos, msg[..i - pos])
    {
      AddBytesOne(s0, pos, msg[..i - pos], msg[i - pos]);
      assert msg[..i + 1 - pos] == msg[..i - pos] + [msg[i - pos]];
      s[i / 8] := Xor(s[i / 8], ByteLane(msg[i - pos], i % 8));
    }
    assert msg[..|msg|] == msg;
  }

  method KeccakAbsorb(s: array<Lane>, pos: nat, r: nat, input: seq<Byte>) returns (pos': nat)
    requires s.Length == 25 && IsRate(r) && pos < r
    modifies s
    ensures pos' < r && Position(s[..], pos') == Absorb(Position(old(s[..]), pos), r, input)
  {
    hide AddBytes, KeccakF, Absorb;
    ghost var q0 := Position(s[..], pos);
    AbsorbNone(q0, r);
    var done: nat := 0;
    pos' := pos;
    while pos' + (|input| - done) >= r
      invariant done <= |input| && pos' < r
      invariant Position(s[..], pos') == Absorb(q0, r, input[..done])
    {
      ghost var q := Position(s[..], pos');
      var piece := input[done..done + (r - pos')];
      AddRange(s, pos', piece);
      StatePermute(s);
      AbsorbBlock(q, r, piece);
      AbsorbConcat(q0, r, input[..done], piece);
      assert input[..done] + piece == input[..done + (r - pos')];
      done := done + (r - pos');
      pos' := 0;
    }
    ghost var q := Position(s[..], pos');
    var piece := input[done..];
    AddRange(s, pos', piece);
    AbsorbInside(q, r, piece);
    AbsorbConcat(q0, r, input[..done], piece);
    assert input[..done] + piece == input;
    pos' := pos' + |piece|;
  }

  // ----- keccak_finalize -----

  /** Domain separation and the closing bit. */
  ghost function Finalize(q: Position, r: nat, p: Byte): State
    requires Inside(q, r)
  {
    AddByte(AddByte(q.s, q.pos, p), r - 1, 0x80)
  }

  /** lane ^ 1ULL << 63 */
  function Close(l: Lane): Lane { Lane(l.bits ^ (1 << 63)) }

  lemma ClosingBit(l: Lane)
    ensures Xor(l, ByteLane(0x80, 7)) == Close(l)
  {
    var x := Lane((0x80 as Byte) as bv64);
    assert ShiftLane(x, 1) == Lane(0x8000);
    assert ShiftLane(x, 2) == Lane(0x80_0000);
    assert ShiftLane(x, 3) == Lane(0x8000_0000);
    assert ShiftLane(x, 4) == Lane(0x80_0000_0000);
    assert ShiftLane(x, 5) == Lane(0x8000_0000_0000);
    assert ShiftLane(x, 6) == Lane(0x80_0000_0000_0000);
    assert ShiftLane(x, 7) == Lane(0x8000_0000_0000_0000);
  }

  method KeccakFinalize(s: array<Lane>, pos: nat, r: nat, p: Byte)
    requires s.Length == 25 && IsRate(r) && pos < r
    modifies s
    ensures s[..] == Finalize(Position(old(s[..]), pos), r, p)
  {
    hide Xor, ByteLane, Close;
    s[pos / 8] := Xor(s[pos / 8], ByteLane(p, pos % 8));
    ClosingBit(s[r / 8 - 1]);
    s[r / 8 - 1] := Close(s[r / 8 - 1]);
  }

  // ----- keccak_absorb_once -----

  function OrBits(a: bv64, b: bv64): bv64 { a | b }

  function Or(a: Lane, b: Lane): Lane { Lane(OrBits(a.bits, b.bits)) }

  ghost predicate Clash(a: bv64, b: bv64) { a & b != 0 }

  ghost predicate Disjoint(a: Lane, b: Lane) { !Clash(a.bits, b.bits) }

  /** The first k bytes of x, or-ed into place. */
  ghost function OrBytes(x: seq<Byte>, k: nat): Lane
    requires k <= |x|
  {
    if k == 0 then Lane(0) else Or(OrBytes(x, k - 1), ByteLane(x[k - 1], k - 1))
  }

  lemma Shl8Disjoint(a: Byte, u: Lane, v: Lane)
    ensures Disjoint(Lane(a as bv64), Shl8(u))
    ensures Disjoint(u, v) ==> Disjoint(Shl8(u), Shl8(v))
  {
  }

  lemma {:induction false} BytesDisjoint(a: Byte, j: nat, b: Byte, k: nat)
    requires j < k
    ensures Disjoint(ByteLane(a, j), ByteLane(b, k))
  {
    hide Shl8, Disjoint;
    if j == 0 {
      Shl8Disjoint(a, ByteLane(b, k - 1), Lane(0));
    } else {
      BytesDisjoint(a, j - 1, b, k - 1);
      Shl8Disjoint(a, ByteLane(a, j - 1), ByteLane(b, k - 1));
    }
  }

  lemma OrDisjoint(u: Lane, v: Lane, w: Lane)
    ensures Disjoint(u, w) && Disjoint(v, w) ==> Disjoint(Or(u, v), w)
    ensures Disjoint(Lane(0), w)
  {
  }

  lemma DisjointWords(u: bv64, v: bv64)
    requires u & v == 0
    ensures u ^ v == u | v
  {
  }

  lemma DisjointBits(u: bv64, v: bv64)
    requires !Clash(u, v)
    ensures XorBits(u, v) == OrBits(u, v)
  {
    DisjointWords(u, v);
  }

  lemma XorIsOr(u: Lane, v: Lane)
    requires Disjoint(u, v)
    ensures Xor(u, v) == Or(u, v)
  {
    hide XorBits, OrBits, Clash;
    DisjointBits(u.bits, v.bits);
  }

  lemma XorOr(l: Lane, u: Lane, v: Lane)
    requires Disjoint(u, v)
    ensures Xor(Xor(l, u), v) == Xor(l, Or(u, v))
  {
    hide Xor, Or, Disjoint;
    XorIsOr(u, v);
    XorAssoc(l, u, v);
  }

  lemma XorZero(l: Lane)
    ensures Xor(l, Lane(0)) == l
  {
  }

  lemma {:induction false} OrBytesDisjoint(x: seq<Byte>, k: nat, b: Byte, j: nat)
    requires k <= |x| && k <= j < 8
    ensures Disjoint(OrBytes(x, k), ByteLane(b, j))
  {
    hide ByteLane, Or, Disjoint;
    if k == 0 {
      OrDisjoint(Lane(0), Lane(0), ByteLane(b, j));
    } else {
      OrBytesDisjoint(x, k - 1, b, j);
      BytesDisjoint(x[k - 1], k - 1, b, j);
      OrDisjoint(OrBytes(x, k - 1), ByteLane(x[k - 1], k - 1), ByteLane(b, j));
    }
  }

  /** load64 */
  method Load64(x: seq<Byte>) returns (l: Lane)
    requires |x| == 8
    ensures l == OrBytes(x, 8)
  {
    hide ByteLane, Or;
    l := Lane(0);
    for i := 0 to 8
      invariant l == OrBytes(x, i)
    {
      l := Or(l, ByteLane(x[i], i));
    }
  }

  /** Xoring bytes into a lane one by one is xoring the lane they form. */
  lemma {:induction false} AddLane(s: State, i: nat, x: seq<Byte>, k: nat)
    requires i < 25 && k <= |x| && k <= 8
    ensures AddBytes(s, 8 * i, x[..k]) == s[i := Xor(s[i], OrBytes(x, k))]
  {
    hide ByteLane, Or, Disjoint, Xor;
    if k == 0 {
      XorZero(s[i]);
    } else {
      AddLane(s, i, x, k - 1);
      assert x[..k] == x[..k - 1] + [x[k - 1]];
      AddBytesOne(s, 8 * i, x[..k - 1], x[k - 1]);
      OrBytesDisjoint(x, k - 1, x[k - 1], k - 1);
      XorOr(s[i], OrBytes(x, k - 1), ByteLane(x[k - 1], k - 1));
    }
  }

  /** One block, lane by lane, as keccak_absorb_once adds it. */
  method AddBlock(s: array<Lane>, r: nat, block: seq<Byte>)
    requires s.Length == 25 && IsRate(r) && |block| == r
    modifies s
    ensures s[..] == AddBytes(old(s[..]), 0, block)
  {
    hide Xor, OrBytes;
    ghost var s0: State := s[..];
    for i := 0 to r / 8
      invariant s[..] == AddBytes(s0, 0, block[..8 * i])
    {
      var x := block[8 * i..8 * i + 8];
      var l := Load64(x);
      ghost var t: State := s[..];
      NextLane(s0, t, block, i);
      s[i] := Xor(s[i], l);
      assert s[..] == t[i := Xor(t[i], l)];
    }
    assert block[..8 * (r / 8)] == block;
  }

  lemma NextLane(s0: State, t: State, block: seq<Byte>, i: nat)
    requires 8 * (i + 1) <= |block| <= 200 && t == AddBytes(s0, 0, block[..8 * i])
    ensures t[i := Xor(t[i], OrBytes(block[8 * i..8 * i + 8], 8))] == AddBytes(s0, 0, block[..8 * (i + 1)])
  {
    hide Xor, OrBytes, AddBytes;
    var x := block[8 * i..8 * i + 8];
    AddLane(t, i, x, 8);
    assert x[..8] == x;
    AddBytesConcat(s0, 0, block[..8 * i], x);
    assert block[..8 * (i + 1)] == block[..8 * i] + x;
  }

  lemma {:induction false} AddBytesConcat(s: State, pos: nat, a: seq<Byte>, b: seq<Byte>)
    requires pos + |a| + |b| <= 200
    ensures AddBytes(s, pos, a + b) == AddBytes(AddBytes(s, pos, a), pos + |a|, b)
  {
    hide AddByte;
    if b == [] {
      assert a + b == a;
    } else {
      var b', x := b[..|b| - 1], b[|b| - 1];
      AddBytesConcat(s, pos, a, b');
      assert a + b == (a + b') + [x];
      AddBytesOne(s, pos, a + b', x);
    }
  }

  function ZeroState(): State { seq(25, i => Lane(0)) }

  /** keccak_absorb_once: zeroes the state, absorbs whole blocks lane by lane, then the tail and the
      padding; the result is that of the incremental interface. */
  method KeccakAbsorbOnce(s: array<Lane>, r: nat, input: seq<Byte>, p: Byte)
    requires s.Length == 25 && IsRate(r)
    modifies s
    ensures s[..] == Finalize(Absorb(Position(ZeroState(), 0), r, input), r, p)
  {
    hide AddBytes, KeccakF, Absorb;
    for i := 0 to 25
      invariant forall j :: 0 <= j < i ==> s[j] == Lane(0)
    {
      s[i] := Lane(0);
    }
    assert s[..] == ZeroState();
    ghost var q0 := Position(ZeroState(), 0);
    AbsorbNone(q0, r);
    var done: nat := 0;
    while |input| - done >= r
      invariant done <= |input|
      invariant Position(s[..], 0) == Absorb(q0, r, input[..done])
    {
      ghost var q := Position(s[..], 0);
      var block := input[done..done + r];
      AddBlock(s, r, block);
      StatePermute(s);
      AbsorbBlock(q, r, block);
      AbsorbConcat(q0, r, input[..done], block);
      assert input[..done] + block == input[..done + r];
      done := done + r;
    }
    ghost var q := Position(s[..], 0);
    var tail := input[done..];
    AddRange(s, 0, tail);
    AbsorbInside(q, r, tail);
    AbsorbConcat(q0, r, input[..done], tail);
    assert input[..done] + tail == input;
    KeccakFinalize(s, |tail|, r, p);
  }

  // ----- squeezing -----

  /** One byte of output; pos == r asks for a fresh block. */
  ghost function Ready(q: Position, r: nat): Position
  {
    if q.pos == r then Position(KeccakF(q.s), 0) else q
  }

  ghost predicate CanSqueeze(q: Position, r: nat) {
    IsRate(r) && q.pos <= r
  }

  /** The state after k more bytes of output. */
  ghost function After(q: Position, r: nat, k: nat): (q': Position)
    requires CanSqueeze(q, r)
    ensures CanSqueeze(q', r)
  {
    if k == 0 then q else var q' := Ready(After(q, r, k - 1), r); Position(q'.s, q'.pos + 1)
  }

  /** The k-th byte of output from here. */
  ghost function Output(q: Position, r: nat, k: nat): Byte
    requires CanSqueeze(q, r)
  {
    var q' := Ready(After(q, r, k), r);
    GetByte(q'.s, q'.pos)
  }

  /** The next k bytes of output. */
  ghost function Outputs(q: Position, r: nat, k: nat): (z: seq<Byte>)
    requires CanSqueeze(q, r)
    ensures |z| == k
  {
    seq(k, j requires 0 <= j < k => Output(q, r, j))
  }

  lemma {:induction false} AfterAfter(q: Position, r: nat, k: nat, l: nat)
    requires CanSqueeze(q, r)
    ensures After(After(q, r, k), r, l) == After(q, r, k + l)
  {
    hide KeccakF;
    if l > 0 { AfterAfter(q, r, k, l - 1); }
  }

  /** Consecutive squeezes read consecutive slices of one stream. */
  lemma OutputsConcat(q: Position, r: nat, k: nat, l: nat)
    requires CanSqueeze(q, r)
    ensures Outputs(q, r, k + l) == Outputs(q, r, k) + Outputs(After(q, r, k), r, l)
  {
    hide KeccakF;
    forall j | 0 <= j < l ensures Output(After(q, r, k), r, j) == Output(q, r, k + j) {
      AfterAfter(q, r, k, j);
    }
  }

  method KeccakSqueeze(outlen: nat, s: array<Lane>, pos: nat, r: nat) returns (out: seq<Byte>, pos': nat)
    requires s.Length == 25 && IsRate(r) && pos <= r
    modifies s
    ensures pos' <= r && Position(s[..], pos') == After(Position(old(s[..]), pos), r, outlen)
    ensures out == Outputs(Position(old(s[..]), pos), r, outlen)
  {
    hide After, KeccakF, Output;
    ghost var q0 := Position(s[..], pos);
    AfterNone(q0, r);
    out, pos' := [], pos;
    var left := outlen;
    while left > 0
      invariant 0 <= left <= outlen && pos' <= r
      invariant Position(s[..], pos') == After(q0, r, outlen - left)
      invariant out == Outputs(q0, r, outlen - left)
    {
      ghost var q, out0, left0 := Position(s[..], pos'), out, left;
      if pos' == r {
        StatePermute(s);
        pos' := 0;
      }
      ghost var q1 := Position(s[..], pos');
      var i := pos';
      while i < r && i < pos' + left
        invariant pos' <= i <= r && i <= pos' + left
        invariant s[..] == q1.s && out == out0 + Slice(q1.s, pos', i)
      {
        SliceOne(q1.s, pos', i);
        out := out + [GetByte(s[..], i)];
        i := i + 1;
      }
      SliceIsOutput(q, r, i - pos');
      AfterAfter(q0, r, outlen - left, i - pos');
      OutputsConcat(q0, r, outlen - left, i - pos');
      left := left - (i - pos');
      pos' := i;
    }
  }

  lemma AfterNone(q: Position, r: nat)
    requires CanSqueeze(q, r)
    ensures After(q, r, 0) == q
  {
  }

  ghost function Slice(s: State, lo: nat, hi: nat): seq<Byte>
    requires lo <= hi <= 200
  {
    seq(hi - lo, j requires 0 <= j < hi - lo => GetByte(s, lo + j))
  }

  lemma SliceOne(s: State, lo: nat, hi: nat)
    requires lo <= hi < 200
    ensures Slice(s, lo, hi + 1) == Slice(s, lo, hi) + [GetByte(s, hi)]
  {
    hide GetByte;
  }

  lemma SliceIsOutput(q: Position, r: nat, k: nat)
    requires CanSqueeze(q, r) && Ready(q, r).pos + k <= r && k > 0
    ensures Slice(Ready(q, r).s, Ready(q, r).pos, Ready(q, r).pos + k) == Outputs(q, r, k)
    ensures After(q, r, k) == Position(Ready(q, r).s, Ready(q, r).pos + k)
  {
    hide KeccakF, GetByte;
    forall j | 0 <= j < k
      ensures Ready(After(q, r, j), r) == Position(Ready(q, r).s, Ready(q, r).pos + j)
    {
      ReadyInside(q, r, j);
    }
    assert After(q, r, k - 1 + 1) == After(q, r, k);
  }

  lemma {:induction false} ReadyInside(q: Position, r: nat, j: nat)
    requires CanSqueeze(q, r) && Ready(q, r).pos + j < r
    ensures Ready(After(q, r, j), r) == Position(Ready(q, r).s, Ready(q, r).pos + j)
  {
    hide KeccakF;
    if j > 0 { ReadyInside(q, r, j - 1); }
  }

  // ----- the sponge construction of FIPS 202 -----

  function ByteXor(a: Byte, b: Byte): Byte { a ^ b }

  function Zeros(k: nat): (x: seq<Byte>)
    ensures |x| == k
  {
    if k == 0 then [] else Zeros(k - 1) + [0]
  }

  /** Suffix bits, pad10*1 and the order of bits in a byte together (sections 5.1, 6.2 and B.2): p, zeros
      and 0x80 fill the q bytes that are left of the block; they merge when only one is left. */
  function Padding(q: nat, p: Byte): (x: seq<Byte>)
    requires q > 0
    ensures |x| == q
  {
    if q == 1 then [ByteXor(p, 0x80)] else [p] + Zeros(q - 2) + [0x80]
  }

  /** Section 4, steps 5 and 6: blocks of r bytes are xored in, each followed by the permutation. */
  ghost function AbsorbBlocks(s: State, r: nat, padded: seq<Byte>): State
    requires 0 < r <= 200
    decreases |padded|
  {
    if |padded| < r then s else AbsorbBlocks(KeccakF(AddBytes(s, 0, padded[..r])), r, padded[r..])
  }

  /** Section 4, steps 7 to 10: the first r bytes of the state, permute, the next r bytes, ... */
  ghost function SqueezeFrom(s: State, r: nat, d: nat): seq<Byte>
    requires 0 < r <= 200
    decreases d
  {
    if d <= r then Slice(s, 0, d) else Slice(s, 0, r) + SqueezeFrom(KeccakF(s), r, d - r)
  }

  /** SPONGE[KECCAK-f[1600], pad10*1, 8 r] on msg followed by the suffix bits in p; d bytes of output. */
  ghost function SpongeOf(r: nat, p: Byte, msg: seq<Byte>, d: nat): seq<Byte>
    requires 0 < r <= 200
  {
    SqueezeFrom(AbsorbBlocks(ZeroState(), r, msg + Padding(r - |msg| % r, p)), r, d)
  }

  lemma AddZero(s: State, i: nat)
    requires i < 200
    ensures AddByte(s, i, 0) == s
  {
    ZeroLane(i % 8);
    XorZero(s[i / 8]);
    assert s[i / 8 := s[i / 8]] == s;
  }

  lemma {:induction false} ZeroLane(k: nat)
    ensures ByteLane(0, k) == Lane(0)
  {
    if k > 0 { ZeroLane(k - 1); }
  }

  lemma {:induction false} AddZeros(s: State, pos: nat, q: nat)
    requires pos + q <= 200
    ensures AddBytes(s, pos, Zeros(q)) == s
  {
    hide AddByte;
    if q > 0 {
      assert Zeros(q)[..q - 1] == Zeros(q - 1);
      AddZeros(s, pos, q - 1);
      AddZero(s, pos + q - 1);
    }
  }

  lemma XorAssocBits(l: bv64, u: bv64, v: bv64)
    ensures XorBits(XorBits(l, u), v) == XorBits(l, XorBits(u, v))
  {
  }

  lemma XorAssoc(l: Lane, u: Lane, v: Lane)
    ensures Xor(Xor(l, u), v) == Xor(l, Xor(u, v))
  {
    hide XorBits;
    XorAssocBits(l.bits, u.bits, v.bits);
  }

  lemma Shl8Xor(u: Lane, v: Lane)
    ensures Xor(Shl8(u), Shl8(v)) == Shl8(Xor(u, v))
  {
  }

  lemma {:induction false} ShiftXor(u: Lane, v: Lane, k: nat)
    ensures Xor(ShiftLane(u, k), ShiftLane(v, k)) == ShiftLane(Xor(u, v), k)
  {
    hide Xor, Shl8;
    if k > 0 {
      ShiftXor(u, v, k - 1);
      Shl8Xor(ShiftLane(u, k - 1), ShiftLane(v, k - 1));
    }
  }

  lemma ExtendXor(a: Byte, b: Byte)
    ensures Xor(Lane(a as bv64), Lane(b as bv64)) == Lane(ByteXor(a, b) as bv64)
  {
  }

  lemma ByteLaneXor(a: Byte, b: Byte, k: nat)
    ensures Xor(ByteLane(a, k), ByteLane(b, k)) == ByteLane(ByteXor(a, b), k)
  {
    hide Xor, ShiftLane, ByteXor;
    ShiftXor(Lane(a as bv64), Lane(b as bv64), k);
    ExtendXor(a, b);
  }

  lemma MergeBytes(s: State, i: nat, a: Byte, b: Byte)
    requires i < 200
    ensures AddByte(AddByte(s, i, a), i, b) == AddByte(s, i, ByteXor(a, b))
  {
    hide Xor, ByteLane, ByteXor;
    XorAssoc(s[i / 8], ByteLane(a, i % 8), ByteLane(b, i % 8));
    ByteLaneXor(a, b, i % 8);
  }

  lemma AddSingle(s: State, pos: nat, b: Byte)
    requires pos < 200
    ensures AddBytes(s, pos, [b]) == AddByte(s, pos, b)
  {
    assert [] + [b] == [b];
    AddBytesOne(s, pos, [], b);
  }

  /** Finalizing is adding the padding bytes. */
  lemma FinalizeIsPadding(q: Position, r: nat, p: Byte)
    requires Inside(q, r)
    ensures Finalize(q, r, p) == AddBytes(q.s, q.pos, Padding(r - q.pos, p))
  {
    hide AddByte, AddBytes, ByteXor;
    if q.pos == r - 1 {
      MergeBytes(q.s, q.pos, p, 0x80);
      AddSingle(q.s, q.pos, ByteXor(p, 0x80));
    } else {
      var z := Zeros(r - q.pos - 2);
      AddSingle(q.s, q.pos, p);
      AddBytesConcat(q.s, q.pos, [p], z);
      AddZeros(AddByte(q.s, q.pos, p), q.pos + 1, |z|);
      AddBytesOne(q.s, q.pos, [p] + z, 0x80);
    }
  }

  lemma {:induction false} AbsorbIsBlocks(s: State, r: nat, padded: seq<Byte>, blocks: nat)
    requires IsRate(r) && |padded| == blocks * r
    ensures Absorb(Position(s, 0), r, padded) == Position(AbsorbBlocks(s, r, padded), 0)
    decreases blocks
  {
    hide KeccakF, AddBytes, Absorb;
    if blocks == 0 {
      AbsorbNone(Position(s, 0), r);
      assert padded == [];
    } else {
      OneBlockLess(blocks, r);
      var head, rest := padded[..r], padded[r..];
      AbsorbBlock(Position(s, 0), r, head);
      AbsorbConcat(Position(s, 0), r, head, rest);
      assert padded == head + rest;
      AbsorbIsBlocks(KeccakF(AddBytes(s, 0, head)), r, rest, blocks - 1);
    }
  }

  lemma OneBlockLess(blocks: nat, r: nat)
    requires blocks > 0
    ensures blocks * r == (blocks - 1) * r + r && r <= blocks * r
  {
    assert (blocks - 1) * r >= 0;
  }

  lemma {:induction false} AbsorbPosition(q: Position, r: nat, msg: seq<Byte>, len: nat)
    requires Inside(q, r) && q.pos == len % r
    ensures Absorb(q, r, msg).pos == (len + |msg|) % r
  {
    hide KeccakF, AddByte;
    if msg != [] {
      AbsorbPosition(q, r, msg[..|msg| - 1], len);
      NextResidue(len + |msg| - 1, r);
    }
  }

  lemma NextResidue(a: nat, r: nat)
    requires r > 0
    ensures (a + 1) % r == if a % r + 1 == r then 0 else a % r + 1
  {
    var k := a / r;
    assert a == k * r + a % r;
    if a % r + 1 == r {
      assert a + 1 == (k + 1) * r;
      DivUnique(a + 1, r, k + 1, 0);
    } else {
      DivUnique(a + 1, r, k, a % r + 1);
    }
  }

  lemma {:induction false} OutputsAreSqueezed(s: State, r: nat, d: nat)
    requires IsRate(r)
    ensures Outputs(Position(s, r), r, d) == SqueezeFrom(KeccakF(s), r, d)
    decreases d
  {
    hide KeccakF, GetByte;
    var q := Position(s, r);
    if d == 0 {
    } else if d <= r {
      SliceIsOutput(q, r, d);
    } else {
      SliceIsOutput(q, r, r);
      OutputsConcat(q, r, r, d - r);
      OutputsAreSqueezed(KeccakF(s), r, d - r);
    }
  }

  /** The incremental interface computes the sponge of FIPS 202. */
  lemma IncrementalIsSponge(r: nat, p: Byte, msg: seq<Byte>, d: nat)
    requires IsRate(r)
    ensures Outputs(Position(Finalize(Absorb(Position(ZeroState(), 0), r, msg), r, p), r), r, d) ==
      SpongeOf(r, p, msg, d)
  {
    hide KeccakF, AddBytes, Finalize, Absorb, AbsorbBlocks, SqueezeFrom, Outputs, Padding;
    var q0, x := Position(ZeroState(), 0), Padding(r - |msg| % r, p);
    var q := Absorb(q0, r, msg);
    AbsorbPosition(q0, r, msg, 0);
    FinalizeIsPadding(q, r, p);
    AbsorbBlock(q, r, x);
    AbsorbConcat(q0, r, msg, x);
    FullBlocks(|msg|, r);
    AbsorbIsBlocks(ZeroState(), r, msg + x, |msg| / r + 1);
    OutputsAreSqueezed(Finalize(q, r, p), r, d);
  }

  lemma FullBlocks(a: nat, r: nat)
    requires r > 0
    ensures a + (r - a % r) == (a / r + 1) * r
  {
  }
}
