/** The permutation KECCAK-f[1600] of FIPS 202 and its unrolled form in ref/fips202.c. */
module Keccak {

  datatype Lane = Lane(bits: bv64)

  /** The 25 lanes; lane (x, y) is at index 5 * y + x. */
  type State = s: seq<Lane> | |s| == 25 witness seq(25, i => Lane(0))

  type Offset = k: bv64 | k < 64

  function XorBits(a: bv64, b: bv64): bv64 { a ^ b }

  function Xor(a: Lane, b: Lane): Lane { Lane(XorBits(a.bits, b.bits)) }

  function AndNot(a: Lane, b: Lane): Lane { Lane(!a.bits & b.bits) }

  /** Rotation towards higher bit positions, the macro ROL. */
  function Rol(a: Lane, k: Offset): Lane { Lane(RolWord(a.bits, k)) }

  function RolWord(a: bv64, k: Offset): bv64 {
    if k == 0 then a else (a << k) ^ (a >> (64 - k))
  }

  // ----- the step mappings of section 3.2 of FIPS 202, lane by lane -----

  function Column(s: State, x: nat): Lane
    requires x < 5
  {
    Xor(Xor(Xor(Xor(s[x], s[x + 5]), s[x + 10]), s[x + 15]), s[x + 20])
  }

  function ThetaEffect(s: State, x: nat): Lane
    requires x < 5
  {
    Xor(Column(s, (x + 4) % 5), Rol(Column(s, (x + 1) % 5), 1))
  }

  function Theta(s: State, x: nat, y: nat): Lane
    requires x < 5 && y < 5
  {
    Xor(s[5 * y + x], ThetaEffect(s, x))
  }

  /** The lanes in the order in which algorithm 2 visits them. */
  datatype Place = Place(x: nat, y: nat)

  function NextPlace(p: Place): Place {
    Place(p.y, (2 * p.x + 3 * p.y) % 5)
  }

  /** The (x, y) of step t of algorithm 2. */
  function Visited(t: bv64): Place {
    if t == 0 then Place(1, 0) else NextPlace(Visited(t - 1))
  }

  /** The rotation of step t of algorithm 2. */
  function StepOffset(t: bv64): Offset {
    ((t + 1) * (t + 2) / 2) % 64
  }

  /** Algorithm 2 of section 3.2.2: the rotation of the step that visits lane (x, y); lane (0, 0) stays. */
  ghost function RotationOffset(x: nat, y: nat): Offset {
    if t :| t < 24 && Visited(t) == Place(x, y) then StepOffset(t) else 0
  }

  ghost function Rho(s: State, x: nat, y: nat): Lane
    requires x < 5 && y < 5
  {
    Rol(Theta(s, x, y), RotationOffset(x, y))
  }

  ghost function PiStep(s: State, x: nat, y: nat): Lane
    requires x < 5 && y < 5
  {
    Rho(s, (x + 3 * y) % 5, x)
  }

  ghost function Chi(s: State, x: nat, y: nat): Lane
    requires x < 5 && y < 5
  {
    Xor(PiStep(s, x, y), AndNot(PiStep(s, (x + 1) % 5, y), PiStep(s, (x + 2) % 5, y)))
  }

  ghost function Iota(s: State, rc: Lane, x: nat, y: nat): Lane
    requires x < 5 && y < 5
  {
    if x == 0 && y == 0 then Xor(Chi(s, 0, 0), rc) else Chi(s, x, y)
  }

  ghost function Round(s: State, rc: Lane): State {
    seq(25, i requires 0 <= i < 25 => Iota(s, rc, i % 5, i / 5))
  }

  /** The 25 local variables hold the lanes of s. */
  ghost predicate LanesAre(s: State,
      Aba: Lane, Abe: Lane, Abi: Lane, Abo: Lane, Abu: Lane, Aga: Lane, Age: Lane, Agi: Lane, Ago: Lane, Agu: Lane,
      Aka: Lane, Ake: Lane, Aki: Lane, Ako: Lane, Aku: Lane, Ama: Lane, Ame: Lane, Ami: Lane, Amo: Lane, Amu: Lane,
      Asa: Lane, Ase: Lane, Asi: Lane, Aso: Lane, Asu: Lane)
  {
    && Aba == s[0] && Abe == s[1] && Abi == s[2] && Abo == s[3] && Abu == s[4]
    && Aga == s[5] && Age == s[6] && Agi == s[7] && Ago == s[8] && Agu == s[9]
    && Aka == s[10] && Ake == s[11] && Aki == s[12] && Ako == s[13] && Aku == s[14]
    && Ama == s[15] && Ame == s[16] && Ami == s[17] && Amo == s[18] && Amu == s[19]
    && Asa == s[20] && Ase == s[21] && Asi == s[22] && Aso == s[23] && Asu == s[24]
  }

  lemma RoundLanes(s: State, rc: Lane,
      Eba: Lane, Ebe: Lane, Ebi: Lane, Ebo: Lane, Ebu: Lane, Ega: Lane, Ege: Lane, Egi: Lane, Ego: Lane, Egu: Lane,
      Eka: Lane, Eke: Lane, Eki: Lane, Eko: Lane, Eku: Lane, Ema: Lane, Eme: Lane, Emi: Lane, Emo: Lane, Emu: Lane,
      Esa: Lane, Ese: Lane, Esi: Lane, Eso: Lane, Esu: Lane)
    requires Eba == Iota(s, rc, 0, 0) && Ebe == Iota(s, rc, 1, 0) && Ebi == Iota(s, rc, 2, 0)
    requires Ebo == Iota(s, rc, 3, 0) && Ebu == Iota(s, rc, 4, 0)
    requires Ega == Iota(s, rc, 0, 1) && Ege == Iota(s, rc, 1, 1) && Egi == Iota(s, rc, 2, 1)
    requires Ego == Iota(s, rc, 3, 1) && Egu == Iota(s, rc, 4, 1)
    requires Eka == Iota(s, rc, 0, 2) && Eke == Iota(s, rc, 1, 2) && Eki == Iota(s, rc, 2, 2)
    requires Eko == Iota(s, rc, 3, 2) && Eku == Iota(s, rc, 4, 2)
    requires Ema == Iota(s, rc, 0, 3) && Eme == Iota(s, rc, 1, 3) && Emi == Iota(s, rc, 2, 3)
    requires Emo == Iota(s, rc, 3, 3) && Emu == Iota(s, rc, 4, 3)
    requires Esa == Iota(s, rc, 0, 4) && Ese == Iota(s, rc, 1, 4) && Esi == Iota(s, rc, 2, 4)
    requires Eso == Iota(s, rc, 3, 4) && Esu == Iota(s, rc, 4, 4)
    ensures LanesAre(Round(s, rc),
      Eba, Ebe, Ebi, Ebo, Ebu, Ega, Ege, Egi, Ego, Egu, Eka, Eke, Eki, Eko, Eku, Ema, Eme, Emi, Emo, Emu, Esa, Ese,
      Esi, Eso, Esu)
  {
    hide Iota;
  }

  /** lane, theta effect and offset are the ones that end up at position (x, y). */
  ghost predicate Feeds(s: State, x: nat, y: nat, lane: Lane, d: Lane, k: Offset)
    requires x < 5 && y < 5
  {
    var x0 := (x + 3 * y) % 5;
    lane == s[5 * x + x0] && d == ThetaEffect(s, x0) && k == RotationOffset(x0, x)
  }

  /** A lane absorbs its theta effect and is rotated into its new position. */
  method MoveLane(ghost s: State, ghost x: nat, ghost y: nat, lane: Lane, d: Lane, k: Offset) returns (bc: Lane)
    requires x < 5 && y < 5 && Feeds(s, x, y, lane, d, k)
    ensures bc == PiStep(s, x, y)
  {
    bc := Rol(Xor(lane, d), k);
  }

  /** One block of the unrolled text: five lanes absorb theta, move to row y, and pass through chi. */
  method Plane(ghost s: State, ghost y: nat,
      l0: Lane, l1: Lane, l2: Lane, l3: Lane, l4: Lane,
      d0: Lane, d1: Lane, d2: Lane, d3: Lane, d4: Lane,
      k0: Offset, k1: Offset, k2: Offset, k3: Offset, k4: Offset)
    returns (Ea: Lane, Ee: Lane, Ei: Lane, Eo: Lane, Eu: Lane)
    requires y < 5
    requires Feeds(s, 0, y, l0, d0, k0)
    requires Feeds(s, 1, y, l1, d1, k1)
    requires Feeds(s, 2, y, l2, d2, k2)
    requires Feeds(s, 3, y, l3, d3, k3)
    requires Feeds(s, 4, y, l4, d4, k4)
    ensures Ea == Chi(s, 0, y) && Ee == Chi(s, 1, y) && Ei == Chi(s, 2, y)
    ensures Eo == Chi(s, 3, y) && Eu == Chi(s, 4, y)
  {
    hide Xor, AndNot, Rol, PiStep, Feeds;
    var BCa := MoveLane(s, 0, y, l0, d0, k0);
    var BCe := MoveLane(s, 1, y, l1, d1, k1);
    var BCi := MoveLane(s, 2, y, l2, d2, k2);
    var BCo := MoveLane(s, 3, y, l3, d3, k3);
    var BCu := MoveLane(s, 4, y, l4, d4, k4);
    Ea := Xor(BCa, AndNot(BCe, BCi));
    Ee := Xor(BCe, AndNot(BCi, BCo));
    Ei := Xor(BCi, AndNot(BCo, BCu));
    Eo := Xor(BCo, AndNot(BCu, BCa));
    Eu := Xor(BCu, AndNot(BCa, BCe));
  }

  ghost predicate Effects(s: State, Da: Lane, De: Lane, Di: Lane, Do: Lane, Du: Lane) {
    && Da == ThetaEffect(s, 0) && De == ThetaEffect(s, 1) && Di == ThetaEffect(s, 2)
    && Do == ThetaEffect(s, 3) && Du == ThetaEffect(s, 4)
  }

  method ThetaEffects(ghost s: State,
      Aba: Lane, Abe: Lane, Abi: Lane, Abo: Lane, Abu: Lane, Aga: Lane, Age: Lane, Agi: Lane, Ago: Lane, Agu: Lane,
      Aka: Lane, Ake: Lane, Aki: Lane, Ako: Lane, Aku: Lane, Ama: Lane, Ame: Lane, Ami: Lane, Amo: Lane, Amu: Lane,
      Asa: Lane, Ase: Lane, Asi: Lane, Aso: Lane, Asu: Lane)
    returns (Da: Lane, De: Lane, Di: Lane, Do: Lane, Du: Lane)
    requires LanesAre(s,
      Aba, Abe, Abi, Abo, Abu, Aga, Age, Agi, Ago, Agu, Aka, Ake, Aki, Ako, Aku, Ama, Ame, Ami, Amo, Amu, Asa, Ase,
      Asi, Aso, Asu)
    ensures Effects(s, Da, De, Di, Do, Du)
  {
    hide Xor, Rol;
    var BCa := Xor(Xor(Xor(Xor(Aba, Aga), Aka), Ama), Asa);
    var BCe := Xor(Xor(Xor(Xor(Abe, Age), Ake), Ame), Ase);
    var BCi := Xor(Xor(Xor(Xor(Abi, Agi), Aki), Ami), Asi);
    var BCo := Xor(Xor(Xor(Xor(Abo, Ago), Ako), Amo), Aso);
    var BCu := Xor(Xor(Xor(Xor(Abu, Agu), Aku), Amu), Asu);
    Da := Xor(BCu, Rol(BCe, 1));
    De := Xor(BCa, Rol(BCi, 1));
    Di := Xor(BCe, Rol(BCo, 1));
    Do := Xor(BCi, Rol(BCu, 1));
    Du := Xor(BCo, Rol(BCa, 1));
  }

  // ----- the offsets of the code -----

  /** The step that visits each lane, at index 5 * y + x; lane (0, 0) is visited by none. */
  const VISITS: seq<bv64> := [
    24, 0, 18, 6, 12,
    7, 23, 2, 9, 22,
    1, 3, 17, 16, 20,
    13, 8, 4, 5, 15,
    19, 10, 21, 14, 11]

  lemma WalkStart()
    ensures Visited(0) == Place(1, 0)
  {
  }

  lemma WalkOn(t: bv64, x: nat, y: nat)
    requires t < 24 && Visited(t) == Place(x, y)
    ensures Visited(t + 1) == Place(y, (2 * x + 3 * y) % 5)
  {
  }

  lemma Walk()
    ensures Visited(0) == Place(1, 0) && Visited(1) == Place(0, 2) && Visited(2) == Place(2, 1)
    ensures Visited(3) == Place(1, 2) && Visited(4) == Place(2, 3) && Visited(5) == Place(3, 3)
    ensures Visited(6) == Place(3, 0) && Visited(7) == Place(0, 1) && Visited(8) == Place(1, 3)
    ensures Visited(9) == Place(3, 1) && Visited(10) == Place(1, 4) && Visited(11) == Place(4, 4)
    ensures Visited(12) == Place(4, 0) && Visited(13) == Place(0, 3) && Visited(14) == Place(3, 4)
    ensures Visited(15) == Place(4, 3) && Visited(16) == Place(3, 2) && Visited(17) == Place(2, 2)
    ensures Visited(18) == Place(2, 0) && Visited(19) == Place(0, 4) && Visited(20) == Place(4, 2)
    ensures Visited(21) == Place(2, 4) && Visited(22) == Place(4, 1) && Visited(23) == Place(1, 1)
  {
    hide Visited;
    WalkStart();
    WalkOn(0, 1, 0);
    WalkOn(1, 0, 2);
    WalkOn(2, 2, 1);
    WalkOn(3, 1, 2);
    WalkOn(4, 2, 3);
    WalkOn(5, 3, 3);
    WalkOn(6, 3, 0);
    WalkOn(7, 0, 1);
    WalkOn(8, 1, 3);
    WalkOn(9, 3, 1);
    WalkOn(10, 1, 4);
    WalkOn(11, 4, 4);
    WalkOn(12, 4, 0);
    WalkOn(13, 0, 3);
    WalkOn(14, 3, 4);
    WalkOn(15, 4, 3);
    WalkOn(16, 3, 2);
    WalkOn(17, 2, 2);
    WalkOn(18, 2, 0);
    WalkOn(19, 0, 4);
    WalkOn(20, 4, 2);
    WalkOn(21, 2, 4);
    WalkOn(22, 4, 1);
  }

  /** No lane is visited twice, and (0, 0) is not visited. */
  lemma VisitedOnce(t: bv64)
    requires t < 24
    ensures |VISITS| == 25 && Visited(t).x < 5 && Visited(t).y < 5
    ensures VISITS[5 * Visited(t).y + Visited(t).x] == t && Visited(t) != Place(0, 0)
  {
    hide Visited;
    Walk();
  }

  /** The rotations of algorithm 2, step by step. */
  lemma OffsetOfStep(t: bv64)
    requires t < 24
    ensures RotationOffset(Visited(t).x, Visited(t).y) == ((t + 1) * (t + 2) / 2) % 64
    ensures RotationOffset(0, 0) == 0
  {
    hide Visited, VISITS, StepOffset;
    var p := Visited(t);
    forall u | u < 24 && Visited(u) == p ensures u == t {
      VisitedOnce(u);
      VisitedOnce(t);
    }
    assert Visited(t) == Place(p.x, p.y);
    forall u | u < 24 ensures Visited(u) != Place(0, 0) { VisitedOnce(u); }
    assert StepOffset(t) == ((t + 1) * (t + 2) / 2) % 64 by { StepOffsetIs(t); }
  }

  lemma StepOffsetIs(t: bv64)
    ensures StepOffset(t) == ((t + 1) * (t + 2) / 2) % 64
  {
  }

  lemma FirstOffsets()
    ensures RotationOffset(0, 0) == 0 && RotationOffset(1, 1) == 44 && RotationOffset(2, 2) == 43
    ensures RotationOffset(3, 3) == 21 && RotationOffset(4, 4) == 14
  {
    hide Visited, RotationOffset;
    Walk();
    OffsetOfStep(0);
    OffsetOfStep(23);
    OffsetOfStep(17);
    OffsetOfStep(5);
    OffsetOfStep(11);
  }

  lemma SecondOffsets()
    ensures RotationOffset(3, 0) == 28 && RotationOffset(4, 1) == 20 && RotationOffset(0, 2) == 3
    ensures RotationOffset(1, 3) == 45 && RotationOffset(2, 4) == 61
  {
    hide Visited, RotationOffset;
    Walk();
    OffsetOfStep(6);
    OffsetOfStep(22);
    OffsetOfStep(1);
    OffsetOfStep(8);
    OffsetOfStep(21);
  }

  lemma ThirdOffsets()
    ensures RotationOffset(1, 0) == 1 && RotationOffset(2, 1) == 6 && RotationOffset(3, 2) == 25
    ensures RotationOffset(4, 3) == 8 && RotationOffset(0, 4) == 18
  {
    hide Visited, RotationOffset;
    Walk();
    OffsetOfStep(0);
    OffsetOfStep(2);
    OffsetOfStep(16);
    OffsetOfStep(15);
    OffsetOfStep(19);
  }

  lemma FourthOffsets()
    ensures RotationOffset(4, 0) == 27 && RotationOffset(0, 1) == 36 && RotationOffset(1, 2) == 10
    ensures RotationOffset(2, 3) == 15 && RotationOffset(3, 4) == 56
  {
    hide Visited, RotationOffset;
    Walk();
    OffsetOfStep(12);
    OffsetOfStep(7);
    OffsetOfStep(3);
    OffsetOfStep(4);
    OffsetOfStep(14);
  }

  lemma FifthOffsets()
    ensures RotationOffset(2, 0) == 62 && RotationOffset(3, 1) == 55 && RotationOffset(4, 2) == 39
    ensures RotationOffset(0, 3) == 41 && RotationOffset(1, 4) == 2
  {
    hide Visited, RotationOffset;
    Walk();
    OffsetOfStep(18);
    OffsetOfStep(9);
    OffsetOfStep(20);
    OffsetOfStep(13);
    OffsetOfStep(10);
  }

  // The five blocks of one unrolled round.

  method FirstPlane(ghost s: State,
      Aba: Lane, Age: Lane, Aki: Lane, Amo: Lane, Asu: Lane,
      Da: Lane, De: Lane, Di: Lane, Do: Lane, Du: Lane, rc: Lane)
    returns (Eba: Lane, Ebe: Lane, Ebi: Lane, Ebo: Lane, Ebu: Lane)
    requires Aba == s[0] && Age == s[6] && Aki == s[12] && Amo == s[18] && Asu == s[24]
    requires Effects(s, Da, De, Di, Do, Du)
    ensures Eba == Iota(s, rc, 0, 0) && Ebe == Iota(s, rc, 1, 0) && Ebi == Iota(s, rc, 2, 0)
    ensures Ebo == Iota(s, rc, 3, 0) && Ebu == Iota(s, rc, 4, 0)
  {
    FirstOffsets();
    hide Xor, AndNot, Rol, PiStep, Chi, ThetaEffect, RotationOffset;
    Eba, Ebe, Ebi, Ebo, Ebu := Plane(s, 0, Aba, Age, Aki, Amo, Asu, Da, De, Di, Do, Du, 0, 44, 43, 21, 14);
    Eba := Xor(Eba, rc);
  }

  method SecondPlane(ghost s: State,
      Abo: Lane, Agu: Lane, Aka: Lane, Ame: Lane, Asi: Lane,
      Da: Lane, De: Lane, Di: Lane, Do: Lane, Du: Lane)
    returns (Ega: Lane, Ege: Lane, Egi: Lane, Ego: Lane, Egu: Lane)
    requires Abo == s[3] && Agu == s[9] && Aka == s[10] && Ame == s[16] && Asi == s[22]
    requires Effects(s, Da, De, Di, Do, Du)
    ensures Ega == Chi(s, 0, 1) && Ege == Chi(s, 1, 1) && Egi == Chi(s, 2, 1)
    ensures Ego == Chi(s, 3, 1) && Egu == Chi(s, 4, 1)
  {
    SecondOffsets();
    hide Xor, AndNot, Rol, PiStep, Chi, ThetaEffect, RotationOffset;
    Ega, Ege, Egi, Ego, Egu := Plane(s, 1, Abo, Agu, Aka, Ame, Asi, Do, Du, Da, De, Di, 28, 20, 3, 45, 61);
  }

  method ThirdPlane(ghost s: State,
      Abe: Lane, Agi: Lane, Ako: Lane, Amu: Lane, Asa: Lane,
      Da: Lane, De: Lane, Di: Lane, Do: Lane, Du: Lane)
    returns (Eka: Lane, Eke: Lane, Eki: Lane, Eko: Lane, Eku: Lane)
    requires Abe == s[1] && Agi == s[7] && Ako == s[13] && Amu == s[19] && Asa == s[20]
    requires Effects(s, Da, De, Di, Do, Du)
    ensures Eka == Chi(s, 0, 2) && Eke == Chi(s, 1, 2) && Eki == Chi(s, 2, 2)
    ensures Eko == Chi(s, 3, 2) && Eku == Chi(s, 4, 2)
  {
    ThirdOffsets();
    hide Xor, AndNot, Rol, PiStep, Chi, ThetaEffect, RotationOffset;
    Eka, Eke, Eki, Eko, Eku := Plane(s, 2, Abe, Agi, Ako, Amu, Asa, De, Di, Do, Du, Da, 1, 6, 25, 8, 18);
  }

  method FourthPlane(ghost s: State,
      Abu: Lane, Aga: Lane, Ake: Lane, Ami: Lane, Aso: Lane,
      Da: Lane, De: Lane, Di: Lane, Do: Lane, Du: Lane)
    returns (Ema: Lane, Eme: Lane, Emi: Lane, Emo: Lane, Emu: Lane)
    requires Abu == s[4] && Aga == s[5] && Ake == s[11] && Ami == s[17] && Aso == s[23]
    requires Effects(s, Da, De, Di, Do, Du)
    ensures Ema == Chi(s, 0, 3) && Eme == Chi(s, 1, 3) && Emi == Chi(s, 2, 3)
    ensures Emo == Chi(s, 3, 3) && Emu == Chi(s, 4, 3)
  {
    FourthOffsets();
    hide Xor, AndNot, Rol, PiStep, Chi, ThetaEffect, RotationOffset;
    Ema, Eme, Emi, Emo, Emu := Plane(s, 3, Abu, Aga, Ake, Ami, Aso, Du, Da, De, Di, Do, 27, 36, 10, 15, 56);
  }

  method FifthPlane(ghost s: State,
      Abi: Lane, Ago: Lane, Aku: Lane, Ama: Lane, Ase: Lane,
      Da: Lane, De: Lane, Di: Lane, Do: Lane, Du: Lane)
    returns (Esa: Lane, Ese: Lane, Esi: Lane, Eso: Lane, Esu: Lane)
    requires Abi == s[2] && Ago == s[8] && Aku == s[14] && Ama == s[15] && Ase == s[21]
    requires Effects(s, Da, De, Di, Do, Du)
    ensures Esa == Chi(s, 0, 4) && Ese == Chi(s, 1, 4) && Esi == Chi(s, 2, 4)
    ensures Eso == Chi(s, 3, 4) && Esu == Chi(s, 4, 4)
  {
    FifthOffsets();
    hide Xor, AndNot, Rol, PiStep, Chi, ThetaEffect, RotationOffset;
    Esa, Ese, Esi, Eso, Esu := Plane(s, 4, Abi, Ago, Aku, Ama, Ase, Di, Do, Du, Da, De, 62, 55, 39, 41, 2);
  }

  method UnrolledRound(ghost s: State,
      Aba: Lane, Abe: Lane, Abi: Lane, Abo: Lane, Abu: Lane, Aga: Lane, Age: Lane, Agi: Lane, Ago: Lane, Agu: Lane,
      Aka: Lane, Ake: Lane, Aki: Lane, Ako: Lane, Aku: Lane, Ama: Lane, Ame: Lane, Ami: Lane, Amo: Lane, Amu: Lane,
      Asa: Lane, Ase: Lane, Asi: Lane, Aso: Lane, Asu: Lane,
      rc: Lane)
    returns (Eba: Lane, Ebe: Lane, Ebi: Lane, Ebo: Lane, Ebu: Lane, Ega: Lane, Ege: Lane, Egi: Lane, Ego: Lane,
      Egu: Lane,
      Eka: Lane, Eke: Lane, Eki: Lane, Eko: Lane, Eku: Lane, Ema: Lane, Eme: Lane, Emi: Lane, Emo: Lane, Emu: Lane,
      Esa: Lane, Ese: Lane, Esi: Lane, Eso: Lane, Esu: Lane)
    requires LanesAre(s,
      Aba, Abe, Abi, Abo, Abu, Aga, Age, Agi, Ago, Agu, Aka, Ake, Aki, Ako, Aku, Ama, Ame, Ami, Amo, Amu, Asa, Ase,
      Asi, Aso, Asu)
    ensures LanesAre(Round(s, rc),
      Eba, Ebe, Ebi, Ebo, Ebu, Ega, Ege, Egi, Ego, Egu, Eka, Eke, Eki, Eko, Eku, Ema, Eme, Emi, Emo, Emu, Esa, Ese,
      Esi, Eso, Esu)
  {
    hide Effects, Chi;
    var Da, De, Di, Do, Du := ThetaEffects(s,
      Aba, Abe, Abi, Abo, Abu, Aga, Age, Agi, Ago, Agu, Aka, Ake, Aki, Ako, Aku, Ama, Ame, Ami, Amo, Amu, Asa, Ase,
      Asi, Aso, Asu);
    Eba, Ebe, Ebi, Ebo, Ebu := FirstPlane(s, Aba, Age, Aki, Amo, Asu, Da, De, Di, Do, Du, rc);
    Ega, Ege, Egi, Ego, Egu := SecondPlane(s, Abo, Agu, Aka, Ame, Asi, Da, De, Di, Do, Du);
    Eka, Eke, Eki, Eko, Eku := ThirdPlane(s, Abe, Agi, Ako, Amu, Asa, Da, De, Di, Do, Du);
    Ema, Eme, Emi, Emo, Emu := FourthPlane(s, Abu, Aga, Ake, Ami, Aso, Da, De, Di, Do, Du);
    Esa, Ese, Esi, Eso, Esu := FifthPlane(s, Abi, Ago, Aku, Ama, Ase, Da, De, Di, Do, Du);
    RoundLanes(s, rc,
      Eba, Ebe, Ebi, Ebo, Ebu, Ega, Ege, Egi, Ego, Egu, Eka, Eke, Eki, Eko, Eku, Ema, Eme, Emi, Emo, Emu, Esa, Ese,
      Esi, Eso, Esu);
  }

  // ----- the permutation -----

  /** The table KeccakF_RoundConstants. */
  const RC: seq<Lane> := [
    Lane(0x0000000000000001), Lane(0x0000000000008082), Lane(0x800000000000808a), Lane(0x8000000080008000),
    Lane(0x000000000000808b), Lane(0x0000000080000001), Lane(0x8000000080008081), Lane(0x8000000000008009),
    Lane(0x000000000000008a), Lane(0x0000000000000088), Lane(0x0000000080008009), Lane(0x000000008000000a),
    Lane(0x000000008000808b), Lane(0x800000000000008b), Lane(0x8000000000008089), Lane(0x8000000000008003),
    Lane(0x8000000000008002), Lane(0x8000000000000080), Lane(0x000000000000800a), Lane(0x800000008000000a),
    Lane(0x8000000080008081), Lane(0x8000000000008080), Lane(0x0000000080000001), Lane(0x8000000080008008)]

  const NROUNDS: nat := 24

  /** The eight bits of the shift register of algorithm 5. */
  datatype Register = R(r0: bool, r1: bool, r2: bool, r3: bool, r4: bool, r5: bool, r6: bool, r7: bool)

  /** One pass of the loop of algorithm 5: the bit pushed out is added to bits 0, 4, 5 and 6. */
  function Step(r: Register): Register {
    R(r.r7, r.r0, r.r1, r.r2, r.r3 != r.r7, r.r4 != r.r7, r.r5 != r.r7, r.r6)
  }

  function RegisterAfter(t: nat): Register {
    if t == 0 then R(true, false, false, false, false, false, false, false) else Step(RegisterAfter(t - 1))
  }

  /** Algorithm 5, rc(t). */
  function OutputBit(t: nat): bool {
    RegisterAfter(t % 255).r0
  }

  function Masked(b: bool, mask: bv64): bv64 {
    if b then mask else 0
  }

  /** A lane with the bits 2^j - 1 for which the j-th argument holds. */
  function Spread(b0: bool, b1: bool, b2: bool, b3: bool, b4: bool, b5: bool, b6: bool): Lane {
    Lane(Masked(b0, 0x1) | Masked(b1, 0x2) | Masked(b2, 0x8) | Masked(b3, 0x80) | Masked(b4, 0x8000)
      | Masked(b5, 0x8000_0000) | Masked(b6, 0x8000_0000_0000_0000))
  }

  /** Algorithm 6: the bit of rc(j + 7 * ir) is put at position 2^j - 1. */
  function RoundConstant(ir: nat): Lane {
    Spread(OutputBit(7 * ir), OutputBit(7 * ir + 1), OutputBit(7 * ir + 2), OutputBit(7 * ir + 3),
      OutputBit(7 * ir + 4), OutputBit(7 * ir + 5), OutputBit(7 * ir + 6))
  }

  /** The first k rounds. */
  ghost function Rounds(s: State, k: nat): State {
    if k == 0 then s else Round(Rounds(s, k - 1), RoundConstant(k - 1))
  }

  /** KECCAK-f[1600], section 3.4. */
  ghost function KeccakF(s: State): State {
    Rounds(s, NROUNDS)
  }

  lemma RoundsStep(s: State, k: nat)
    requires k < NROUNDS
    ensures Rounds(s, k + 1) == Round(Rounds(s, k), RC[k])
  {
    hide Round;
    TableIsRegister(k);
  }

  lemma NumberOfRounds()
    ensures |RC| == NROUNDS == 24
  {
  }

  // ----- the table of constants is the output of the register -----

  /** Seven steps at once. */
  function StepSeven(r: Register): Register {
    R(r.r1 != (r.r3 != r.r4), r.r2 != (r.r4 != r.r5), r.r3 != (r.r5 != r.r6), r.r4 != (r.r6 != r.r7),
      r.r1 != (r.r3 != (r.r4 != (r.r5 != r.r7))), r.r1 != (r.r2 != (r.r3 != (r.r5 != r.r6))),
      r.r1 != (r.r2 != (r.r6 != r.r7)), r.r0 != (r.r2 != (r.r3 != r.r7)))
  }

  /** The constant of a round that finds r in the register: the bits put out on the next seven steps. */
  function ConstantFrom(r: Register): Lane {
    Spread(r.r0, r.r7, r.r6, r.r5 != r.r7, r.r4 != (r.r6 != r.r7), r.r3 != (r.r5 != r.r6), r.r2 != (r.r4 != r.r5))
  }

  lemma RegisterNext(t: nat)
    ensures RegisterAfter(t + 1) == Step(RegisterAfter(t))
  {
  }

  lemma RunOfSeven(t: nat)
    ensures RegisterAfter(t + 7) == StepSeven(RegisterAfter(t))
    ensures ConstantFrom(RegisterAfter(t)) == Spread(RegisterAfter(t).r0, RegisterAfter(t + 1).r0,
      RegisterAfter(t + 2).r0, RegisterAfter(t + 3).r0, RegisterAfter(t + 4).r0, RegisterAfter(t + 5).r0,
      RegisterAfter(t + 6).r0)
  {
    hide RegisterAfter, Spread;
    RegisterNext(t);
    RegisterNext(t + 1);
    RegisterNext(t + 2);
    RegisterNext(t + 3);
    RegisterNext(t + 4);
    RegisterNext(t + 5);
    RegisterNext(t + 6);
  }

  lemma OutputIs(t: nat)
    requires t < 255
    ensures OutputBit(t) == RegisterAfter(t).r0
  {
    assert t % 255 == t;
  }

  lemma RoundConstantFrom(ir: nat)
    requires ir < NROUNDS
    ensures RoundConstant(ir) == ConstantFrom(RegisterAfter(7 * ir))
  {
    hide Spread, OutputBit, RegisterAfter, ConstantFrom;
    var t := 7 * ir;
    RunOfSeven(t);
    OutputIs(t);
    OutputIs(t + 1);
    OutputIs(t + 2);
    OutputIs(t + 3);
    OutputIs(t + 4);
    OutputIs(t + 5);
    OutputIs(t + 6);
  }

  /** The register at the start of every round and behind the last one. */
  const STATES: seq<Register> := [
    R(true, false, false, false, false, false, false, false),
    R(false, false, false, false, false, false, false, true),
    R(false, false, false, true, true, false, true, true),
    R(false, true, false, true, true, false, false, false),
    R(true, true, true, true, true, false, true, true),
    R(true, false, false, true, false, false, false, false),
    R(true, false, true, false, true, true, false, false),
    R(true, true, true, true, false, false, true, false),
    R(false, true, false, true, false, false, true, true),
    R(false, false, false, false, true, true, true, false),
    R(true, false, false, false, false, false, true, false),
    R(false, false, true, true, false, true, true, true),
    R(true, false, true, false, true, false, true, true),
    R(true, false, true, true, false, false, true, true),
    R(true, true, false, false, false, true, true, false),
    R(true, true, false, true, false, true, false, true),
    R(false, true, false, true, false, true, false, true),
    R(false, true, false, true, false, true, false, false),
    R(false, true, false, false, true, true, true, true),
    R(false, false, false, true, false, true, true, true),
    R(true, true, true, false, true, true, false, false),
    R(false, true, true, true, true, true, false, false),
    R(true, true, false, true, false, false, false, false),
    R(false, false, true, false, false, false, true, false),
    R(false, true, true, true, false, false, false, true)]

  /** r is the register at the start of a round with constant rc, next the register of the following round. */
  predicate IsEntry(r: Register, rc: bv64, next: Register) {
    ConstantFrom(r) == Lane(rc) && StepSeven(r) == next
  }

  lemma Entries()
    ensures IsEntry(R(true, false, false, false, false, false, false, false), 0x0000000000000001,
      R(false, false, false, false, false, false, false, true))
    ensures IsEntry(R(false, false, false, false, false, false, false, true), 0x0000000000008082,
      R(false, false, false, true, true, false, true, true))
    ensures IsEntry(R(false, false, false, true, true, false, true, true), 0x800000000000808a,
      R(false, true, false, true, true, false, false, false))
    ensures IsEntry(R(false, true, false, true, true, false, false, false), 0x8000000080008000,
      R(true, true, true, true, true, false, true, true))
    ensures IsEntry(R(true, true, true, true, true, false, true, true), 0x000000000000808b,
      R(true, false, false, true, false, false, false, false))
    ensures IsEntry(R(true, false, false, true, false, false, false, false), 0x0000000080000001,
      R(true, false, true, false, true, true, false, false))
    ensures IsEntry(R(true, false, true, false, true, true, false, false), 0x8000000080008081,
      R(true, true, true, true, false, false, true, false))
    ensures IsEntry(R(true, true, true, true, false, false, true, false), 0x8000000000008009,
      R(false, true, false, true, false, false, true, true))
    ensures IsEntry(R(false, true, false, true, false, false, true, true), 0x000000000000008a,
      R(false, false, false, false, true, true, true, false))
    ensures IsEntry(R(false, false, false, false, true, true, true, false), 0x0000000000000088,
      R(true, false, false, false, false, false, true, false))
    ensures IsEntry(R(true, false, false, false, false, false, true, false), 0x0000000080008009,
      R(false, false, true, true, false, true, true, true))
    ensures IsEntry(R(false, false, true, true, false, true, true, true), 0x000000008000000a,
      R(true, false, true, false, true, false, true, true))
    ensures IsEntry(R(true, false, true, false, true, false, true, true), 0x000000008000808b,
      R(true, false, true, true, false, false, true, true))
    ensures IsEntry(R(true, false, true, true, false, false, true, true), 0x800000000000008b,
      R(true, true, false, false, false, true, true, false))
    ensures IsEntry(R(true, true, false, false, false, true, true, false), 0x8000000000008089,
      R(true, true, false, true, false, true, false, true))
    ensures IsEntry(R(true, true, false, true, false, true, false, true), 0x8000000000008003,
      R(false, true, false, true, false, true, false, true))
    ensures IsEntry(R(false, true, false, true, false, true, false, true), 0x8000000000008002,
      R(false, true, false, true, false, true, false, false))
    ensures IsEntry(R(false, true, false, true, false, true, false, false), 0x8000000000000080,
      R(false, true, false, false, true, true, true, true))
    ensures IsEntry(R(false, true, false, false, true, true, true, true), 0x000000000000800a,
      R(false, false, false, true, false, true, true, true))
    ensures IsEntry(R(false, false, false, true, false, true, true, true), 0x800000008000000a,
      R(true, true, true, false, true, true, false, false))
    ensures IsEntry(R(true, true, true, false, true, true, false, false), 0x8000000080008081,
      R(false, true, true, true, true, true, false, false))
    ensures IsEntry(R(false, true, true, true, true, true, false, false), 0x8000000000008080,
      R(true, true, false, true, false, false, false, false))
    ensures IsEntry(R(true, true, false, true, false, false, false, false), 0x0000000080000001,
      R(false, false, true, false, false, false, true, false))
    ensures IsEntry(R(false, false, true, false, false, false, true, false), 0x8000000080008008,
      R(false, true, true, true, false, false, false, true))
  {
  }

  lemma StatesAreEntries(ir: nat)
    requires ir < NROUNDS
    ensures |STATES| == NROUNDS + 1 && |RC| == NROUNDS && IsEntry(STATES[ir], RC[ir].bits, STATES[ir + 1])
  {
    hide IsEntry;
    Entries();
  }

  lemma StatesStart()
    ensures |STATES| == NROUNDS + 1 && STATES[0] == RegisterAfter(0)
  {
  }

  lemma {:induction false} RegisterAt(ir: nat)
    requires ir < NROUNDS
    ensures |STATES| == NROUNDS + 1 && RegisterAfter(7 * ir) == STATES[ir]
  {
    hide StepSeven, STATES, ConstantFrom, RC, RegisterAfter;
    if ir == 0 {
      StatesStart();
    } else {
      RegisterAt(ir - 1);
      RunOfSeven(7 * (ir - 1));
      StatesAreEntries(ir - 1);
    }
  }

  /** The iota step of the code adds the constants of section 3.2.5. */
  lemma TableIsRegister(ir: nat)
    requires ir < NROUNDS
    ensures |RC| == NROUNDS && RC[ir] == RoundConstant(ir)
  {
    hide STATES, RC, RoundConstant, ConstantFrom, RegisterAfter;
    RoundConstantFrom(ir);
    RegisterAt(ir);
    StatesAreEntries(ir);
  }

  /** The loop of KeccakF1600_StatePermute: two rounds per pass, A to E and back. */
  method PermuteLanes(ghost s: State,
      Aba0: Lane, Abe0: Lane, Abi0: Lane, Abo0: Lane, Abu0: Lane, Aga0: Lane, Age0: Lane, Agi0: Lane, Ago0: Lane,
      Agu0: Lane, Aka0: Lane, Ake0: Lane, Aki0: Lane, Ako0: Lane, Aku0: Lane, Ama0: Lane, Ame0: Lane, Ami0: Lane,
      Amo0: Lane, Amu0: Lane, Asa0: Lane, Ase0: Lane, Asi0: Lane, Aso0: Lane, Asu0: Lane)
    returns (Aba: Lane, Abe: Lane, Abi: Lane, Abo: Lane, Abu: Lane, Aga: Lane, Age: Lane, Agi: Lane, Ago: Lane,
      Agu: Lane,
      Aka: Lane, Ake: Lane, Aki: Lane, Ako: Lane, Aku: Lane, Ama: Lane, Ame: Lane, Ami: Lane, Amo: Lane, Amu: Lane,
      Asa: Lane, Ase: Lane, Asi: Lane, Aso: Lane, Asu: Lane)
    requires LanesAre(s,
      Aba0, Abe0, Abi0, Abo0, Abu0, Aga0, Age0, Agi0, Ago0, Agu0, Aka0, Ake0, Aki0, Ako0, Aku0, Ama0, Ame0, Ami0,
      Amo0, Amu0, Asa0, Ase0, Asi0, Aso0, Asu0)
    ensures LanesAre(KeccakF(s),
      Aba, Abe, Abi, Abo, Abu, Aga, Age, Agi, Ago, Agu, Aka, Ake, Aki, Ako, Aku, Ama, Ame, Ami, Amo, Amu, Asa, Ase,
      Asi, Aso, Asu)
  {
    hide LanesAre, Round, RC, RoundConstant;
    NumberOfRounds();
    Aba, Abe, Abi, Abo, Abu, Aga, Age, Agi, Ago, Agu, Aka, Ake, Aki, Ako, Aku, Ama, Ame, Ami, Amo, Amu, Asa, Ase,
      Asi, Aso, Asu :=
      Aba0, Abe0, Abi0, Abo0, Abu0, Aga0, Age0, Agi0, Ago0, Agu0, Aka0, Ake0, Aki0, Ako0, Aku0, Ama0, Ame0, Ami0,
      Amo0, Amu0, Asa0, Ase0, Asi0, Aso0, Asu0;
    var round := 0;
    while round < 24
      invariant 0 <= round <= 24 && round % 2 == 0
      invariant LanesAre(Rounds(s, round),
        Aba, Abe, Abi, Abo, Abu, Aga, Age, Agi, Ago, Agu, Aka, Ake, Aki, Ako, Aku, Ama, Ame, Ami, Amo, Amu, Asa, Ase,
        Asi, Aso, Asu)
    {
      var Eba, Ebe, Ebi, Ebo, Ebu, Ega, Ege, Egi, Ego, Egu, Eka, Eke, Eki, Eko, Eku, Ema, Eme, Emi, Emo, Emu, Esa, Ese,
      Esi, Eso, Esu :=
        UnrolledRound(Rounds(s, round),
          Aba, Abe, Abi, Abo, Abu, Aga, Age, Agi, Ago, Agu, Aka, Ake, Aki, Ako, Aku, Ama, Ame, Ami, Amo, Amu, Asa, Ase,
          Asi, Aso, Asu,
          RC[round]);
      RoundsStep(s, round);
      Aba, Abe, Abi, Abo, Abu, Aga, Age, Agi, Ago, Agu, Aka, Ake, Aki, Ako, Aku, Ama, Ame, Ami, Amo, Amu, Asa, Ase,
      Asi, Aso, Asu :=
        UnrolledRound(Rounds(s, round + 1),
          Eba, Ebe, Ebi, Ebo, Ebu, Ega, Ege, Egi, Ego, Egu, Eka, Eke, Eki, Eko, Eku, Ema, Eme, Emi, Emo, Emu, Esa, Ese,
          Esi, Eso, Esu,
          RC[round + 1]);
      RoundsStep(s, round + 1);
      round := round + 2;
    }
  }

  /** copyFromState. */
  method Load(state: array<Lane>)
    returns (Aba: Lane, Abe: Lane, Abi: Lane, Abo: Lane, Abu: Lane, Aga: Lane, Age: Lane, Agi: Lane, Ago: Lane,
      Agu: Lane,
      Aka: Lane, Ake: Lane, Aki: Lane, Ako: Lane, Aku: Lane, Ama: Lane, Ame: Lane, Ami: Lane, Amo: Lane, Amu: Lane,
      Asa: Lane, Ase: Lane, Asi: Lane, Aso: Lane, Asu: Lane)
    requires state.Length == 25
    ensures LanesAre(state[..],
      Aba, Abe, Abi, Abo, Abu, Aga, Age, Agi, Ago, Agu, Aka, Ake, Aki, Ako, Aku, Ama, Ame, Ami, Amo, Amu, Asa, Ase,
      Asi, Aso, Asu)
  {
    Aba, Abe, Abi, Abo, Abu := state[0], state[1], state[2], state[3], state[4];
    Aga, Age, Agi, Ago, Agu := state[5], state[6], state[7], state[8], state[9];
    Aka, Ake, Aki, Ako, Aku := state[10], state[11], state[12], state[13], state[14];
    Ama, Ame, Ami, Amo, Amu := state[15], state[16], state[17], state[18], state[19];
    Asa, Ase, Asi, Aso, Asu := state[20], state[21], state[22], state[23], state[24];
  }

  /** copyToState. */
  method Store(state: array<Lane>, ghost t: State,
      Aba: Lane, Abe: Lane, Abi: Lane, Abo: Lane, Abu: Lane, Aga: Lane, Age: Lane, Agi: Lane, Ago: Lane, Agu: Lane,
      Aka: Lane, Ake: Lane, Aki: Lane, Ako: Lane, Aku: Lane, Ama: Lane, Ame: Lane, Ami: Lane, Amo: Lane, Amu: Lane,
      Asa: Lane, Ase: Lane, Asi: Lane, Aso: Lane, Asu: Lane)
    requires state.Length == 25
    requires LanesAre(t,
      Aba, Abe, Abi, Abo, Abu, Aga, Age, Agi, Ago, Agu, Aka, Ake, Aki, Ako, Aku, Ama, Ame, Ami, Amo, Amu, Asa, Ase,
      Asi, Aso, Asu)
    modifies state
    ensures state[..] == t
  {
    StorePlane(state, t, 0, Aba, Abe, Abi, Abo, Abu);
    StorePlane(state, t, 1, Aga, Age, Agi, Ago, Agu);
    StorePlane(state, t, 2, Aka, Ake, Aki, Ako, Aku);
    StorePlane(state, t, 3, Ama, Ame, Ami, Amo, Amu);
    StorePlane(state, t, 4, Asa, Ase, Asi, Aso, Asu);
    assert state[..25] == state[..];
  }

  /** copyToState, five lanes at a time. */
  method StorePlane(state: array<Lane>, ghost t: State, y: nat, a: Lane, e: Lane, i: Lane, o: Lane, u: Lane)
    requires state.Length == 25 && y < 5 && state[..5 * y] == t[..5 * y]
    requires a == t[5 * y] && e == t[5 * y + 1] && i == t[5 * y + 2] && o == t[5 * y + 3] && u == t[5 * y + 4]
    modifies state
    ensures state[..5 * y + 5] == t[..5 * y + 5]
  {
    var k := 5 * y;
    ghost var d := state[..];
    state[k], state[k + 1], state[k + 2], state[k + 3], state[k + 4] := a, e, i, o, u;
    forall j | 0 <= j < k + 5 ensures state[j] == t[j] {
      if j < k { assert d[..k][j] == t[..k][j]; }
    }
  }

  /** KeccakF1600_StatePermute. */
  method StatePermute(state: array<Lane>)
    requires state.Length == 25
    modifies state
    ensures state[..] == KeccakF(old(state[..]))
  {
    hide KeccakF, LanesAre;
    ghost var s: State := state[..];
    var Aba, Abe, Abi, Abo, Abu, Aga, Age, Agi, Ago, Agu, Aka, Ake, Aki, Ako, Aku, Ama, Ame, Ami, Amo, Amu, Asa, Ase,
      Asi, Aso, Asu := Load(state);
    Aba, Abe, Abi, Abo, Abu, Aga, Age, Agi, Ago, Agu, Aka, Ake, Aki, Ako, Aku, Ama, Ame, Ami, Amo, Amu, Asa, Ase,
    Asi, Aso, Asu :=
      PermuteLanes(s,
        Aba, Abe, Abi, Abo, Abu, Aga, Age, Agi, Ago, Agu, Aka, Ake, Aki, Ako, Aku, Ama, Ame, Ami, Amo, Amu, Asa, Ase,
        Asi, Aso, Asu);
    Store(state, KeccakF(s),
      Aba, Abe, Abi, Abo, Abu, Aga, Age, Agi, Ago, Agu, Aka, Ake, Aki, Ako, Aku, Ama, Ame, Ami, Amo, Amu, Asa, Ase,
      Asi, Aso, Asu);
  }
}
