/** The lanes of KECCAK-f[1600] bit by bit: exclusive or, rotation, chi and the bytes of a lane do to single
    bits what sections 3.1.2, 3.2 and B.1 of FIPS 202 say. */
module LaneBits {
  import opened Keccak
  import opened Sponge

  function Digit(a: bv64, z: bv64): bv64
    requires z < 64
  {
    (a >> z) & 1
  }

  /** Bit z of a word, 0 being the least significant. */
  predicate WordBit(a: bv64, z: bv64)
    requires z < 64
  {
    Digit(a, z) == 1
  }

  /** A[x, y, z] for the lane (x, y). */
  predicate Bit(a: Lane, z: bv64)
    requires z < 64
  {
    WordBit(a.bits, z)
  }

  // ----- exclusive or, and-not -----

  lemma XorWord(a: bv64, b: bv64, z: bv64)
    requires z < 64
    ensures ((a ^ b) >> z) & 1 == ((a >> z) & 1) ^ ((b >> z) & 1)
    ensures (a >> z) & 1 == 0 || (a >> z) & 1 == 1
    ensures (b >> z) & 1 == 0 || (b >> z) & 1 == 1
  {
  }

  lemma XorWordBit(a: bv64, b: bv64, z: bv64)
    requires z < 64
    ensures WordBit(XorBits(a, b), z) == (WordBit(a, z) != WordBit(b, z))
  {
    XorWord(a, b, z);
  }

  lemma XorBit(a: Lane, b: Lane, z: bv64)
    requires z < 64
    ensures Bit(Xor(a, b), z) == (Bit(a, z) != Bit(b, z))
  {
    hide WordBit, XorBits;
    XorWordBit(a.bits, b.bits, z);
  }

  lemma AndNotBit(a: Lane, b: Lane, z: bv64)
    requires z < 64
    ensures Bit(AndNot(a, b), z) == (!Bit(a, z) && Bit(b, z))
  {
  }

  // ----- rotation, amount by amount -----

  /** z - k, taken mod 64. */
  function From(z: bv64, k: bv64): (u: bv64)
    ensures u < 64
  {
    (z + 64 - k) & 63
  }

  lemma RotatedBy1(a: bv64, z: bv64)
    requires z < 64
    ensures WordBit(RolWord(a, 1), z) == WordBit(a, From(z, 1))
  {
  }

  lemma RotatedBy2(a: bv64, z: bv64)
    requires z < 64
    ensures WordBit(RolWord(a, 2), z) == WordBit(a, From(z, 2))
  {
  }

  lemma RotatedBy3(a: bv64, z: bv64)
    requires z < 64
    ensures WordBit(RolWord(a, 3), z) == WordBit(a, From(z, 3))
  {
  }

  lemma RotatedBy6(a: bv64, z: bv64)
    requires z < 64
    ensures WordBit(RolWord(a, 6), z) == WordBit(a, From(z, 6))
  {
  }

  lemma RotatedBy8(a: bv64, z: bv64)
    requires z < 64
    ensures WordBit(RolWord(a, 8), z) == WordBit(a, From(z, 8))
  {
  }

  lemma RotatedBy10(a: bv64, z: bv64)
    requires z < 64
    ensures WordBit(RolWord(a, 10), z) == WordBit(a, From(z, 10))
  {
  }

  lemma RotatedBy14(a: bv64, z: bv64)
    requires z < 64
    ensures WordBit(RolWord(a, 14), z) == WordBit(a, From(z, 14))
  {
  }

  lemma RotatedBy15(a: bv64, z: bv64)
    requires z < 64
    ensures WordBit(RolWord(a, 15), z) == WordBit(a, From(z, 15))
  {
  }

  lemma RotatedBy18(a: bv64, z: bv64)
    requires z < 64
    ensures WordBit(RolWord(a, 18), z) == WordBit(a, From(z, 18))
  {
  }

  lemma RotatedBy20(a: bv64, z: bv64)
    requires z < 64
    ensures WordBit(RolWord(a, 20), z) == WordBit(a, From(z, 20))
  {
  }

  lemma RotatedBy21(a: bv64, z: bv64)
    requires z < 64
    ensures WordBit(RolWord(a, 21), z) == WordBit(a, From(z, 21))
  {
  }

  lemma RotatedBy25(a: bv64, z: bv64)
    requires z < 64
    ensures WordBit(RolWord(a, 25), z) == WordBit(a, From(z, 25))
  {
  }

  lemma RotatedBy27(a: bv64, z: bv64)
    requires z < 64
    ensures WordBit(RolWord(a, 27), z) == WordBit(a, From(z, 27))
  {
  }

  lemma RotatedBy28(a: bv64, z: bv64)
    requires z < 64
    ensures WordBit(RolWord(a, 28), z) == WordBit(a, From(z, 28))
  {
  }

  lemma RotatedBy36(a: bv64, z: bv64)
    requires z < 64
    ensures WordBit(RolWord(a, 36), z) == WordBit(a, From(z, 36))
  {
  }

  lemma RotatedBy39(a: bv64, z: bv64)
    requires z < 64
    ensures WordBit(RolWord(a, 39), z) == WordBit(a, From(z, 39))
  {
  }

  lemma RotatedBy41(a: bv64, z: bv64)
    requires z < 64
    ensures WordBit(RolWord(a, 41), z) == WordBit(a, From(z, 41))
  {
  }

  lemma RotatedBy43(a: bv64, z: bv64)
    requires z < 64
    ensures WordBit(RolWord(a, 43), z) == WordBit(a, From(z, 43))
  {
  }

  lemma RotatedBy44(a: bv64, z: bv64)
    requires z < 64
    ensures WordBit(RolWord(a, 44), z) == WordBit(a, From(z, 44))
  {
  }

  lemma RotatedBy45(a: bv64, z: bv64)
    requires z < 64
    ensures WordBit(RolWord(a, 45), z) == WordBit(a, From(z, 45))
  {
  }

  lemma RotatedBy55(a: bv64, z: bv64)
    requires z < 64
    ensures WordBit(RolWord(a, 55), z) == WordBit(a, From(z, 55))
  {
  }

  lemma RotatedBy56(a: bv64, z: bv64)
    requires z < 64
    ensures WordBit(RolWord(a, 56), z) == WordBit(a, From(z, 56))
  {
  }

  lemma RotatedBy61(a: bv64, z: bv64)
    requires z < 64
    ensures WordBit(RolWord(a, 61), z) == WordBit(a, From(z, 61))
  {
  }

  lemma RotatedBy62(a: bv64, z: bv64)
    requires z < 64
    ensures WordBit(RolWord(a, 62), z) == WordBit(a, From(z, 62))
  {
  }

  /** The amounts that occur in theta and rho. */
  predicate IsAmount(k: bv64) {
    || k == 0
    || k == 1 || k == 2 || k == 3 || k == 6 || k == 8 || k == 10 || k == 14 || k == 15
    || k == 18 || k == 20 || k == 21 || k == 25 || k == 27 || k == 28 || k == 36 || k == 39
    || k == 41 || k == 43 || k == 44 || k == 45 || k == 55 || k == 56 || k == 61 || k == 62
  }

  lemma RolWordBit(a: bv64, k: Offset, z: bv64)
    requires z < 64 && IsAmount(k)
    ensures WordBit(RolWord(a, k), z) == WordBit(a, From(z, k))
  {
    hide WordBit, RolWord, From;
    if k == 0 { NoRotation(a, z); }
    else if k == 1 { RotatedBy1(a, z); }
    else if k == 2 { RotatedBy2(a, z); }
    else if k == 3 { RotatedBy3(a, z); }
    else if k == 6 { RotatedBy6(a, z); }
    else if k == 8 { RotatedBy8(a, z); }
    else if k == 10 { RotatedBy10(a, z); }
    else if k == 14 { RotatedBy14(a, z); }
    else if k == 15 { RotatedBy15(a, z); }
    else if k == 18 { RotatedBy18(a, z); }
    else if k == 20 { RotatedBy20(a, z); }
    else if k == 21 { RotatedBy21(a, z); }
    else if k == 25 { RotatedBy25(a, z); }
    else if k == 27 { RotatedBy27(a, z); }
    else if k == 28 { RotatedBy28(a, z); }
    else if k == 36 { RotatedBy36(a, z); }
    else if k == 39 { RotatedBy39(a, z); }
    else if k == 41 { RotatedBy41(a, z); }
    else if k == 43 { RotatedBy43(a, z); }
    else if k == 44 { RotatedBy44(a, z); }
    else if k == 45 { RotatedBy45(a, z); }
    else if k == 55 { RotatedBy55(a, z); }
    else if k == 56 { RotatedBy56(a, z); }
    else if k == 61 { RotatedBy61(a, z); }
    else if k == 62 { RotatedBy62(a, z); }
  }

  lemma NoRotation(a: bv64, z: bv64)
    requires z < 64
    ensures RolWord(a, 0) == a && From(z, 0) == z
  {
  }

  /** Rotation by k moves bit z - k to bit z. */
  lemma RolBit(a: Lane, k: Offset, z: bv64)
    requires z < 64 && IsAmount(k)
    ensures Bit(Rol(a, k), z) == Bit(a, From(z, k))
  {
    hide WordBit, RolWord, From;
    RolWordBit(a.bits, k, z);
  }

  // ----- the steps of a round -----

  /** The parity of column (x, z). */
  predicate Parity(s: State, x: nat, z: bv64)
    requires x < 5 && z < 64
  {
    (((Bit(s[x], z) != Bit(s[x + 5], z)) != Bit(s[x + 10], z)) != Bit(s[x + 15], z)) != Bit(s[x + 20], z)
  }

  lemma ColumnBit(s: State, x: nat, z: bv64)
    requires x < 5 && z < 64
    ensures Bit(Column(s, x), z) == Parity(s, x, z)
  {
    hide Bit, Xor;
    XorBit(s[x], s[x + 5], z);
    XorBit(Xor(s[x], s[x + 5]), s[x + 10], z);
    XorBit(Xor(Xor(s[x], s[x + 5]), s[x + 10]), s[x + 15], z);
    XorBit(Xor(Xor(Xor(s[x], s[x + 5]), s[x + 10]), s[x + 15]), s[x + 20], z);
  }

  /** Section 3.2.1: the parities of columns (x - 1, z) and (x + 1, z - 1) are added. */
  lemma ThetaBit(s: State, x: nat, y: nat, z: bv64)
    requires x < 5 && y < 5 && z < 64
    ensures Bit(Theta(s, x, y), z) ==
      (Bit(s[5 * y + x], z) != (Parity(s, (x + 4) % 5, z) != Parity(s, (x + 1) % 5, From(z, 1))))
  {
    hide Bit, Xor, Rol, Column, Parity, From;
    var a, b := Column(s, (x + 4) % 5), Column(s, (x + 1) % 5);
    XorBit(s[5 * y + x], ThetaEffect(s, x), z);
    XorBit(a, Rol(b, 1), z);
    RolBit(b, 1, z);
    ColumnBit(s, (x + 4) % 5, z);
    ColumnBit(s, (x + 1) % 5, From(z, 1));
  }

  lemma OffsetIsAmount(x: nat, y: nat)
    requires x < 5 && y < 5
    ensures IsAmount(RotationOffset(x, y))
  {
    hide RotationOffset;
    FirstOffsets();
    SecondOffsets();
    ThirdOffsets();
    FourthOffsets();
    FifthOffsets();
  }

  /** Section 3.2.2: bit z comes from bit z minus the offset of the lane. */
  lemma RhoBit(s: State, x: nat, y: nat, z: bv64)
    requires x < 5 && y < 5 && z < 64
    ensures Bit(Rho(s, x, y), z) == Bit(Theta(s, x, y), From(z, RotationOffset(x, y)))
  {
    hide Bit, Rol, Theta, RotationOffset, From, IsAmount;
    OffsetIsAmount(x, y);
    RolBit(Theta(s, x, y), RotationOffset(x, y), z);
  }

  /** Section 3.2.4. */
  lemma ChiBit(s: State, x: nat, y: nat, z: bv64)
    requires x < 5 && y < 5 && z < 64
    ensures Bit(Chi(s, x, y), z) ==
      (Bit(PiStep(s, x, y), z) != (!Bit(PiStep(s, (x + 1) % 5, y), z) && Bit(PiStep(s, (x + 2) % 5, y), z)))
  {
    hide Bit, Xor, AndNot, PiStep;
    var b, c := PiStep(s, (x + 1) % 5, y), PiStep(s, (x + 2) % 5, y);
    AndNotBit(b, c, z);
    XorBit(PiStep(s, x, y), AndNot(b, c), z);
  }

  // ----- bytes -----

  /** The place of bit i of byte k in a lane: 8 k + i. */
  function BitOf(k: nat, i: bv64): (z: bv64)
    requires k < 8 && i < 8
    ensures z < 64
  {
    if k == 0 then i else if k == 1 then 8 + i else if k == 2 then 16 + i else if k == 3 then 24 + i
    else if k == 4 then 32 + i else if k == 5 then 40 + i else if k == 6 then 48 + i else 56 + i
  }

  lemma BitOfStep(k: nat, i: bv64)
    requires k < 8 && i < 8
    ensures k == 0 ==> BitOf(k, i) == i
    ensures k > 0 ==> BitOf(k, i) >= 8 && BitOf(k, i) - 8 == BitOf(k - 1, i)
  {
  }

  lemma UpEight(a: bv64, z: bv64)
    requires z < 64
    ensures WordBit(Shl8Word(a), z) == (z >= 8 && WordBit(a, z - 8))
  {
  }

  lemma Shl8Bit(l: Lane, z: bv64, u: bv64)
    requires z < 64 && (z >= 8 ==> u == z - 8)
    ensures Bit(Shl8(l), z) == (z >= 8 && Bit(l, u))
  {
    hide WordBit, Shl8Word;
    UpEight(l.bits, z);
  }

  lemma ByteHasEight(b: Byte, z: bv64)
    requires 8 <= z < 64
    ensures !WordBit(b as bv64, z)
  {
  }

  /** A byte moved to place k of a lane: its bits are bits 8 k to 8 k + 7, the other bits are 0. */
  lemma {:induction false} ByteLaneBit(b: Byte, k: nat, j: nat, i: bv64)
    requires k < 8 && j < 8 && i < 8
    ensures Bit(ByteLane(b, k), BitOf(j, i)) == (j == k && WordBit(b as bv64, i))
  {
    hide Bit, WordBit, Shl8, BitOf;
    BitOfStep(j, i);
    if k == 0 {
      LaneOfByte(b, j, i);
    } else {
      Shl8Bit(ByteLane(b, k - 1), BitOf(j, i), if j > 0 then BitOf(j - 1, i) else 0);
      if j > 0 {
        ByteLaneBit(b, k - 1, j - 1, i);
      } else {
        SmallIndex(i);
      }
    }
  }

  lemma SmallIndex(i: bv64)
    requires i < 8
    ensures BitOf(0, i) < 8
  {
  }

  lemma LaneOfByte(b: Byte, j: nat, i: bv64)
    requires j < 8 && i < 8
    ensures Bit(Lane(b as bv64), BitOf(j, i)) == (j == 0 && WordBit(b as bv64, i))
  {
    hide WordBit, BitOf;
    BitOfStep(j, i);
    if j > 0 { ByteHasEight(b, BitOf(j, i)); }
  }

  lemma Down0(a: bv64, i: bv64)
    requires i < 8
    ensures WordBit(ByteDown(a, 0), i) == WordBit(a, BitOf(0, i))
  {
  }

  lemma Down8(a: bv64, i: bv64)
    requires i < 8
    ensures WordBit(ByteDown(a, 1), i) == WordBit(a, BitOf(1, i))
  {
  }

  lemma Down16(a: bv64, i: bv64)
    requires i < 8
    ensures WordBit(ByteDown(a, 2), i) == WordBit(a, BitOf(2, i))
  {
  }

  lemma Down24(a: bv64, i: bv64)
    requires i < 8
    ensures WordBit(ByteDown(a, 3), i) == WordBit(a, BitOf(3, i))
  {
  }

  lemma Down32(a: bv64, i: bv64)
    requires i < 8
    ensures WordBit(ByteDown(a, 4), i) == WordBit(a, BitOf(4, i))
  {
  }

  lemma Down40(a: bv64, i: bv64)
    requires i < 8
    ensures WordBit(ByteDown(a, 5), i) == WordBit(a, BitOf(5, i))
  {
  }

  lemma Down48(a: bv64, i: bv64)
    requires i < 8
    ensures WordBit(ByteDown(a, 6), i) == WordBit(a, BitOf(6, i))
  {
  }

  lemma Down56(a: bv64, i: bv64)
    requires i < 8
    ensures WordBit(ByteDown(a, 7), i) == WordBit(a, BitOf(7, i))
  {
  }

  lemma LowByteBit(w: bv64, i: bv64)
    requires i < 8
    ensures WordBit(LowByte(w) as bv64, i) == WordBit(w, i)
  {
  }

  lemma ByteDownBit(a: bv64, k: nat, i: bv64)
    requires k < 8 && i < 8
    ensures WordBit(ByteDown(a, k), i) == WordBit(a, BitOf(k, i))
  {
    hide WordBit, ByteDown, BitOf;
    match k
    case 0 => Down0(a, i);
    case 1 => Down8(a, i);
    case 2 => Down16(a, i);
    case 3 => Down24(a, i);
    case 4 => Down32(a, i);
    case 5 => Down40(a, i);
    case 6 => Down48(a, i);
    case _ => Down56(a, i);
  }

  /** Bit i of byte k of a lane is bit 8 k + i of the lane. */
  lemma LaneByteBit(l: Lane, k: nat, i: bv64)
    requires k < 8 && i < 8
    ensures WordBit(LaneByte(l, k) as bv64, i) == Bit(l, BitOf(k, i))
  {
    hide WordBit, ByteDown, LowByte, BitOf;
    ByteDownBit(l.bits, k, i);
    LowByteBit(ByteDown(l.bits, k), i);
  }
}
