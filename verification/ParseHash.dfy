/** parse_hash (ref/util.c): the challenge that a digest stands for. */
module ParseHash {
  import opened Params
  import opened Loops
  import opened Bits
  import opened Shake
  import opened SeedTree
  import opened PathNodes
  import opened Traversal
  import opened Sampling

  type Entries = h: seq<Octet> | |h| == T witness seq<Octet>(T, _ => 0)

  /** The entries h so far, how many are positive, and the stream position. */
  datatype Placing = Placing(h: Entries, count: nat, next: nat)

  /** The position bytes at stream position k. */
  ghost function DrawnPosition(msg: seq<Octet>, k: nat): nat {
    LeValue(Bytes(msg, k, PAR.tBytes)) % Pow2(H)
  }

  /** val & MEDS_s_mask */
  function KeyBits(val: Octet): Octet {
    ModBelow(val, Pow2(PAR.sBits));
    val % Pow2(PAR.sBits)
  }

  ghost function TryKey(msg: seq<Octet>): nat -> Step<nat, Drawn<Octet>> {
    k => var val := KeyBits(Stream(msg, k));
      if val < 1 || val > PAR.keys - 1 then Again(k + 1) else Exit(Drawn(val, k + 1))
  }

  ghost function RndKeyOf(msg: seq<Octet>, k: nat): Option<Drawn<Octet>> {
    Loop(TryKey(msg), k)
  }

  /** One pass of the outer loop, at its test. */
  ghost function TryPlace(msg: seq<Octet>): Placing -> Step<Placing, Challenge> {
    (s: Placing) =>
      if s.count >= WEIGHT then Exit(s.h)
      else
        var pos, k := DrawnPosition(msg, s.next), s.next + PAR.tBytes;
        if pos >= T || s.h[pos] > 0 then Again(s.(next := k))
        else match RndKeyOf(msg, k)
          case None => Stuck
          case Some(d) => Again(Placing(s.h[pos := d.value], s.count + 1, d.next))
  }

  function NoneSet(): Entries {
    seq<Octet>(T, _ => 0)
  }

  ghost function ParseHashOf(digest: seq<Octet>): Option<Challenge> {
    Loop(TryPlace(digest), Placing(NoneSet(), 0, 0))
  }

  // ----- the weight -----

  lemma {:induction false} CountSame(h: seq<Octet>, h': seq<Octet>, lo: nat, hi: nat)
    requires |h| == |h'| && forall j :: lo <= j < hi && j < |h| ==> h[j] == h'[j]
    ensures Count(h, lo, hi) == Count(h', lo, hi)
    decreases hi
  {
    if lo < hi { CountSame(h, h', lo, hi - 1); }
  }

  lemma CountSet(h: Entries, pos: nat, v: Octet)
    requires pos < T && h[pos] == 0 && v > 0
    ensures Count(h[pos := v], 0, T) == Count(h, 0, T) + 1
  {
    var h' := h[pos := v];
    CountSplit(h, 0, pos, T);
    CountSplit(h, pos, pos + 1, T);
    CountSplit(h', 0, pos, T);
    CountSplit(h', pos, pos + 1, T);
    CountSame(h, h', 0, pos);
    CountSame(h, h', pos + 1, T);
    assert Count(h, pos, pos) == 0 && Count(h', pos, pos) == 0;
  }

  /** Every positive entry names a key, and count says how many there are. */
  ghost predicate WellPlaced(s: Placing) {
    && s.count == Count(s.h, 0, T) <= WEIGHT
    && forall j :: 0 <= j < T ==> s.h[j] < PAR.keys
  }

  lemma KeyInRange(msg: seq<Octet>, k: nat)
    requires RndKeyOf(msg, k).Some?
    ensures 1 <= RndKeyOf(msg, k).value.value < PAR.keys
  {
    hide Within, TryKey;
    var l: nat :| Within(TryKey(msg), k, l).Some? && RndKeyOf(msg, k) == Within(TryKey(msg), k, l);
    KeyWithin(msg, k, l);
  }

  lemma {:induction false} KeyWithin(msg: seq<Octet>, k: nat, l: nat)
    requires Within(TryKey(msg), k, l).Some?
    ensures 1 <= Within(TryKey(msg), k, l).value.value < PAR.keys
    decreases l
  {
    hide Stream;
    if TryKey(msg)(k).Again? { KeyWithin(msg, k + 1, l - 1); }
  }

  lemma PlaceStep(msg: seq<Octet>, s: Placing)
    requires WellPlaced(s) && TryPlace(msg)(s).Again?
    ensures WellPlaced(TryPlace(msg)(s).state)
  {
    hide DrawnPosition, RndKeyOf, Count;
    var pos, k := DrawnPosition(msg, s.next), s.next + PAR.tBytes;
    if pos < T && s.h[pos] == 0 {
      KeyInRange(msg, k);
      CountSet(s.h, pos, RndKeyOf(msg, k).value.value);
    }
  }

  lemma {:induction false} PlaceWithin(msg: seq<Octet>, s: Placing, l: nat)
    requires WellPlaced(s) && Within(TryPlace(msg), s, l).Some?
    ensures var h := Within(TryPlace(msg), s, l).value;
      IsChallenge(h) && forall j :: 0 <= j < T ==> h[j] < PAR.keys
    decreases l
  {
    if TryPlace(msg)(s).Again? {
      PlaceStep(msg, s);
      hide TryPlace, WellPlaced, IsChallenge;
      PlaceWithin(msg, TryPlace(msg)(s).state, l - 1);
    } else {
      hide Count, DrawnPosition, RndKeyOf;
    }
  }

  /** On every stream where parse_hash finishes: exactly w positive entries, each naming a key. */
  lemma ParseHashIsChallenge(digest: seq<Octet>)
    requires ParseHashOf(digest).Some?
    ensures var h := ParseHashOf(digest).value;
      IsChallenge(h) && forall j :: 0 <= j < T ==> h[j] < PAR.keys
  {
    hide Within, TryPlace, Count;
    var s := Placing(NoneSet(), 0, 0);
    var l: nat :| Within(TryPlace(digest), s, l).Some? && ParseHashOf(digest) == Within(TryPlace(digest), s, l);
    CountZero(NoneSet(), 0, T);
    PlaceWithin(digest, s, l);
  }

  // ----- the method -----

  /** buf[0] | buf[1] << 8 | ... */
  method JoinBytes(buf: seq<Octet>) returns (pos: nat)
    ensures pos == LeValue(buf)
  {
    hide Pow2, LeValue;
    pos := 0;
    LeValueNone(buf);
    for j := 0 to |buf|
      invariant pos == LeValue(buf[..j])
    {
      LeValueBound(buf[..j]);
      BitOrDisjoint(pos, buf[j], 8 * j);
      LeValueNext(buf, j);
      pos := BitOr(pos, buf[j] * Pow2(8 * j));
    }
    assert buf[..|buf|] == buf;
  }

  method DrawKey(shake: KeccakState) returns (val: Octet)
    requires shake.Squeezing() && RndKeyOf(shake.message, shake.squeezed).Some?
    modifies shake, shake.s
    ensures shake.Squeezing() && shake.message == old(shake.message)
    ensures RndKeyOf(shake.message, old(shake.squeezed)) == Some(Drawn(val, shake.squeezed))
  {
    hide KeccakState.Squeezing, Stream, Loop, Passes, KeyBits;
    ghost var msg, k := shake.message, shake.squeezed;
    ghost var body := TryKey(msg);
    val := 0;
    while val < 1 || val > PAR.keys - 1
      invariant shake.Squeezing() && shake.message == msg
      invariant val < 1 || val > PAR.keys - 1 ==> Loop(body, shake.squeezed) == Loop(body, k)
      invariant 1 <= val <= PAR.keys - 1 ==> Loop(body, k) == Some(Drawn(val, shake.squeezed))
      decreases if val < 1 || val > PAR.keys - 1 then 1 + Passes(body, shake.squeezed) else 0
    {
      LoopUnfold(body, shake.squeezed);
      if body(shake.squeezed).Again? { PassesDecrease(body, shake.squeezed); }
      var data := shake.Squeeze(1);
      val := KeyBits(data[0]);
    }
  }

  method DrawPosition(shake: KeccakState) returns (pos: nat)
    requires shake.Squeezing()
    modifies shake, shake.s
    ensures shake.Squeezing() && shake.message == old(shake.message)
    ensures shake.squeezed == old(shake.squeezed) + PAR.tBytes
    ensures pos == DrawnPosition(shake.message, old(shake.squeezed))
  {
    hide KeccakState.Squeezing, Stream, Bytes, LeValue, Pow2;
    var buf := shake.Squeeze(PAR.tBytes);
    pos := JoinBytes(buf);
    pos := pos % Pow2(H);
  }

  method ClearEntries(h: array<Octet>)
    requires h.Length >= T
    modifies h
    ensures h[..T] == NoneSet() && h[T..] == old(h[T..])
  {
    for i := 0 to T
      invariant forall j :: 0 <= j < i ==> h[j] == 0
      invariant h[T..] == old(h[T..])
    {
      h[i] := 0;
    }
  }

  /** The state after a pass that does not end the loop. */
  ghost function AfterPass(msg: seq<Octet>, s: Placing): Placing {
    var pos, k := DrawnPosition(msg, s.next), s.next + PAR.tBytes;
    if pos >= T || s.h[pos] > 0 || RndKeyOf(msg, k).None? then s.(next := k)
    else Placing(s.h[pos := RndKeyOf(msg, k).value.value], s.count + 1, RndKeyOf(msg, k).value.next)
  }

  /** The loop body as a rule for the rest of the run. */
  lemma PlaceUnfold(msg: seq<Octet>, s: Placing)
    requires Loop(TryPlace(msg), s).Some?
    ensures s.count >= WEIGHT ==> Loop(TryPlace(msg), s) == Some(s.h)
    ensures s.count < WEIGHT ==>
      var pos, k, s' := DrawnPosition(msg, s.next), s.next + PAR.tBytes, AfterPass(msg, s);
      && (pos < T && s.h[pos] == 0 ==> RndKeyOf(msg, k).Some?)
      && Loop(TryPlace(msg), s') == Loop(TryPlace(msg), s)
      && Passes(TryPlace(msg), s') < Passes(TryPlace(msg), s)
  {
    hide DrawnPosition, RndKeyOf, Loop, Passes;
    LoopUnfold(TryPlace(msg), s);
    if TryPlace(msg)(s).Again? { PassesDecrease(TryPlace(msg), s); }
  }

  /** The loop of parse_hash. */
  method PlaceAll(shake: KeccakState, digest: seq<Octet>, h: array<Octet>)
    requires shake.Squeezing() && shake.message == digest && shake.squeezed == 0
    requires h.Length >= T && h[..T] == NoneSet() && ParseHashOf(digest).Some?
    modifies shake, shake.s, h
    ensures ParseHashOf(digest) == Some(h[..T]) && h[T..] == old(h[T..])
  {
    hide KeccakState.Squeezing, Loop, Passes, DrawnPosition, RndKeyOf, TryPlace, Pow2;
    ghost var body, s := TryPlace(digest), Placing(h[..T], 0, 0);
    var i: nat := 0;
    while i < WEIGHT
      invariant shake.Squeezing() && shake.message == digest
      invariant s == Placing(h[..T], i, shake.squeezed) && h[T..] == old(h[T..])
      invariant Loop(body, s) == ParseHashOf(digest)
      decreases Passes(body, s)
    {
      PlaceUnfold(digest, s);
      ghost var h0 := s.h;
      s := AfterPass(digest, s);
      var pos := DrawPosition(shake);
      if pos >= T { continue; }
      if h[pos] > 0 { continue; }
      var val := DrawKey(shake);
      h[pos] := val;
      i := i + 1;
      assert h[..T] == h0[pos := val];
    }
    PlaceUnfold(digest, s);
  }
}
