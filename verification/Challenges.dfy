/** The challenge read off the stream of the digest: parse_hash (ref/util.c) as a sequence of draws, each
    where the one before has stopped. */
module Challenges {
  import opened Params
  import opened Loops
  import opened Bits
  import opened Shake
  import opened SeedTree
  import opened PathNodes
  import opened Traversal
  import opened Sampling
  import opened ParseHash

  /** The position that the bytes at stream position k stand for. */
  ghost function PositionAt(digest: seq<Octet>, k: nat): nat {
    LeValue(Bytes(digest, k, PAR.tBytes)) % Pow2(H)
  }

  /** The key number that the byte at stream position k stands for. */
  ghost function KeyAt(digest: seq<Octet>, k: nat): nat {
    Stream(digest, k) % Pow2(PAR.sBits)
  }

  predicate IsKey(v: int) { 1 <= v <= PAR.keys - 1 }

  /** Bytes k to next - 1 have been read for a key: the last one is the first that names one. */
  ghost predicate IsKeyDraw(digest: seq<Octet>, k: nat, v: nat, next: nat) {
    && k < next && v == KeyAt(digest, next - 1) && IsKey(v)
    && forall j :: k <= j < next - 1 ==> !IsKey(KeyAt(digest, j))
  }

  /** A pass of the outer loop: it starts at stream position at, draws the leaf pos and, when pos is free, a
      key; key is 0 otherwise.  The next pass starts at next. */
  datatype Draw = Draw(at: nat, pos: nat, key: nat, next: nat)

  /** One of the first i draws has been given the leaf pos. */
  ghost predicate Taken(draws: seq<Draw>, i: nat, pos: nat)
    requires i <= |draws|
  {
    exists j :: 0 <= j < i && draws[j].pos == pos && draws[j].key > 0
  }

  ghost predicate IsDraw(digest: seq<Octet>, draws: seq<Draw>, i: nat)
    requires i < |draws|
  {
    var d := draws[i];
    && d.at == (if i == 0 then 0 else draws[i - 1].next)
    && d.pos == PositionAt(digest, d.at)
    && if d.pos < T && !Taken(draws, i, d.pos) then IsKeyDraw(digest, d.at + PAR.tBytes, d.key, d.next)
       else d.key == 0 && d.next == d.at + PAR.tBytes
  }

  /** How many leaves have been given a key. */
  ghost function Placed(draws: seq<Draw>): nat {
    if draws == [] then 0
    else Placed(draws[..|draws| - 1]) + if draws[|draws| - 1].key > 0 then 1 else 0
  }

  /** Some draw gives key v to leaf pos. */
  ghost predicate Gives(draws: seq<Draw>, pos: nat, v: nat) {
    exists i :: 0 <= i < |draws| && draws[i].pos == pos && draws[i].key == v
  }

  /** h has exactly the entries that the draws give. */
  ghost predicate Describes(draws: seq<Draw>, h: Challenge) {
    |h| == T && forall pos: nat, v: nat :: pos < T && v > 0 ==> (h[pos] == v <==> Gives(draws, pos, v))
  }

  /** Draws one after the other, the loop going on as long as fewer than w leaves have a key. */
  ghost predicate AreDraws(digest: seq<Octet>, draws: seq<Draw>) {
    && (forall i :: 0 <= i < |draws| ==> IsDraw(digest, draws, i))
    && forall i :: 0 <= i < |draws| ==> Placed(draws[..i]) < WEIGHT
  }

  ghost predicate IsPlacement(digest: seq<Octet>, draws: seq<Draw>, h: Challenge) {
    AreDraws(digest, draws) && Placed(draws) == WEIGHT && Describes(draws, h)
  }

  /** The challenge that the digest stands for. */
  ghost predicate IsPlaced(digest: seq<Octet>, h: Challenge) {
    exists draws :: IsPlacement(digest, draws, h)
  }

  // ----- the key byte -----

  lemma TryKeyIs(digest: seq<Octet>, k: nat)
    ensures TryKey(digest)(k) ==
      if IsKey(KeyAt(digest, k)) then Exit(Drawn(KeyAt(digest, k) as Octet, k + 1)) else Again(k + 1)
  {
    hide Stream;
    ModBelow(Stream(digest, k), Pow2(PAR.sBits));
  }

  lemma {:induction false} KeyDrawOf(digest: seq<Octet>, k: nat)
    requires RndKeyOf(digest, k).Some?
    ensures IsKeyDraw(digest, k, RndKeyOf(digest, k).value.value, RndKeyOf(digest, k).value.next)
    decreases Passes(TryKey(digest), k)
  {
    hide Loop, Passes, TryKey, KeyAt;
    TryKeyIs(digest, k);
    LoopUnfold(TryKey(digest), k);
    if !IsKey(KeyAt(digest, k)) {
      PassesDecrease(TryKey(digest), k);
      KeyDrawOf(digest, k + 1);
    }
  }

  lemma {:induction false} KeyOfDraw(digest: seq<Octet>, k: nat, v: Octet, next: nat)
    requires IsKeyDraw(digest, k, v, next)
    ensures RndKeyOf(digest, k) == Some(Drawn(v, next))
    decreases next - k
  {
    hide Loop, TryKey, KeyAt;
    TryKeyIs(digest, k);
    LoopUnfold(TryKey(digest), k);
    if k < next - 1 { KeyOfDraw(digest, k + 1, v, next); }
  }

  // ----- one pass -----

  /** The state of the loop behind some draws. */
  ghost predicate IsBehind(digest: seq<Octet>, draws: seq<Draw>, s: Placing) {
    && AreDraws(digest, draws) && s.count == Placed(draws) && Describes(draws, s.h)
    && s.next == if draws == [] then 0 else draws[|draws| - 1].next
  }

  lemma SamePosition(digest: seq<Octet>, k: nat)
    ensures DrawnPosition(digest, k) == PositionAt(digest, k)
  {
    hide LeValue, Bytes, Pow2;
  }

  lemma TakenIsPositive(draws: seq<Draw>, h: Entries, pos: nat)
    requires Describes(draws, h) && pos < T
    ensures h[pos] > 0 <==> Taken(draws, |draws|, pos)
  {
    if h[pos] > 0 {
      assert Gives(draws, pos, h[pos]);
    }
    if j :| 0 <= j < |draws| && draws[j].pos == pos && draws[j].key > 0 {
      assert Gives(draws, pos, draws[j].key);
    }
  }

  lemma DrawsAppend(digest: seq<Octet>, draws: seq<Draw>, d: Draw)
    requires AreDraws(digest, draws) && Placed(draws) < WEIGHT && IsDraw(digest, draws + [d], |draws|)
    ensures AreDraws(digest, draws + [d])
    ensures Placed(draws + [d]) == Placed(draws) + if d.key > 0 then 1 else 0
  {
    var more := draws + [d];
    assert more[..|draws|] == draws;
    hide IsDraw, Placed;
    forall i | 0 <= i < |more| ensures IsDraw(digest, more, i) && Placed(more[..i]) < WEIGHT {
      if i < |draws| {
        SameDraw(digest, more, draws, i);
        assert more[..i] == draws[..i];
      }
    }
    PlacedAppend(draws, d);
  }

  lemma PlacedAppend(draws: seq<Draw>, d: Draw)
    ensures Placed(draws + [d]) == Placed(draws) + if d.key > 0 then 1 else 0
  {
    assert (draws + [d])[..|draws|] == draws;
  }

  lemma SameDraw(digest: seq<Octet>, more: seq<Draw>, draws: seq<Draw>, i: nat)
    requires i < |draws| && i < |more| && forall j :: 0 <= j <= i ==> more[j] == draws[j]
    ensures IsDraw(digest, more, i) == IsDraw(digest, draws, i)
  {
    hide PositionAt, IsKeyDraw, Taken;
    TakenSame(more, draws, i, draws[i].pos);
  }

  lemma TakenSame(more: seq<Draw>, draws: seq<Draw>, i: nat, pos: nat)
    requires i <= |draws| && i <= |more| && forall j :: 0 <= j < i ==> more[j] == draws[j]
    ensures Taken(more, i, pos) == Taken(draws, i, pos)
  {
    if j :| 0 <= j < i && draws[j].pos == pos && draws[j].key > 0 { assert more[j].key > 0; }
    if j :| 0 <= j < i && more[j].pos == pos && more[j].key > 0 { assert draws[j].key > 0; }
  }

  lemma DescribesAppend(draws: seq<Draw>, h: Entries, d: Draw)
    requires Describes(draws, h)
    ensures d.key == 0 ==> Describes(draws + [d], h)
    ensures 0 < d.key < 256 && d.pos < T && h[d.pos] == 0 ==> Describes(draws + [d], h[d.pos := d.key])
  {
    var more := draws + [d];
    forall pos: nat, v: nat | pos < T && v > 0
      ensures Gives(more, pos, v) <==> Gives(draws, pos, v) || (d.pos == pos && d.key == v)
    {
      if i :| 0 <= i < |draws| && draws[i].pos == pos && draws[i].key == v { assert more[i] == draws[i]; }
      assert more[|draws|] == d;
    }
    hide Gives;
    if 0 < d.key < 256 && d.pos < T && h[d.pos] == 0 {
      var h' := h[d.pos := d.key];
      forall pos: nat, v: nat | pos < T && v > 0 ensures h'[pos] == v <==> Gives(more, pos, v) {
        assert pos == d.pos ==> !Gives(draws, pos, v);
      }
    }
  }

  /** What the loop body does behind some draws is the next draw. */
  lemma PassIsDraw(digest: seq<Octet>, draws: seq<Draw>, s: Placing, d: Draw)
    requires IsBehind(digest, draws, s) && s.count < WEIGHT && IsDraw(digest, draws + [d], |draws|)
    ensures TryPlace(digest)(s).Again? && IsBehind(digest, draws + [d], TryPlace(digest)(s).state)
  {
    SamePosition(digest, s.next);
    hide PositionAt, DrawnPosition, IsKeyDraw, RndKeyOf, AreDraws, Describes, Placed, Taken;
    DrawsAppend(digest, draws, d);
    DescribesAppend(draws, s.h, d);
    TakenSame(draws + [d], draws, |draws|, d.pos);
    if d.pos < T {
      TakenIsPositive(draws, s.h, d.pos);
      if s.h[d.pos] == 0 {
        KeyIsOctet(digest, d.at + PAR.tBytes, d.key, d.next);
        KeyOfDraw(digest, d.at + PAR.tBytes, d.key, d.next);
      }
    }
  }

  lemma KeyIsOctet(digest: seq<Octet>, k: nat, v: nat, next: nat)
    requires IsKeyDraw(digest, k, v, next)
    ensures 0 < v < 256
  {
  }

  /** The draw of the next pass. */
  lemma NextDraw(digest: seq<Octet>, draws: seq<Draw>, s: Placing) returns (d: Draw)
    requires IsBehind(digest, draws, s) && TryPlace(digest)(s).Again?
    ensures s.count < WEIGHT && IsDraw(digest, draws + [d], |draws|)
  {
    SamePosition(digest, s.next);
    hide PositionAt, DrawnPosition, IsKeyDraw, RndKeyOf, AreDraws, Describes, Placed, Taken;
    var pos, k := PositionAt(digest, s.next), s.next + PAR.tBytes;
    if pos < T { TakenIsPositive(draws, s.h, pos); }
    if pos < T && s.h[pos] == 0 {
      KeyDrawOf(digest, k);
      d := Draw(s.next, pos, RndKeyOf(digest, k).value.value, RndKeyOf(digest, k).value.next);
    } else {
      d := Draw(s.next, pos, 0, k);
    }
    TakenSame(draws + [d], draws, |draws|, pos);
  }

  // ----- the run -----

  lemma {:induction false} DrawsOfLoop(digest: seq<Octet>, draws: seq<Draw>, s: Placing) returns (all: seq<Draw>)
    requires IsBehind(digest, draws, s) && s.count <= WEIGHT && Loop(TryPlace(digest), s).Some?
    ensures IsPlacement(digest, all, Loop(TryPlace(digest), s).value)
    decreases Passes(TryPlace(digest), s)
  {
    hide Loop, Passes, IsDraw, AreDraws, Describes, Placed;
    LoopUnfold(TryPlace(digest), s);
    if s.count == WEIGHT {
      all := draws;
    } else {
      hide TryPlace;
      PassesDecrease(TryPlace(digest), s);
      var d := NextDraw(digest, draws, s);
      PassIsDraw(digest, draws, s, d);
      DrawsAppend(digest, draws, d);
      all := DrawsOfLoop(digest, draws + [d], TryPlace(digest)(s).state);
    }
  }

  lemma {:induction false} LoopOfDraws(digest: seq<Octet>, all: seq<Draw>, h: Challenge, i: nat, s: Placing)
    requires IsPlacement(digest, all, h) && i <= |all| && IsBehind(digest, all[..i], s)
    ensures Loop(TryPlace(digest), s) == Some(h)
    decreases |all| - i
  {
    hide Loop;
    LoopUnfold(TryPlace(digest), s);
    if i == |all| {
      hide Gives;
      assert all[..i] == all;
      assert s.h == h by { SameEntries(all, s.h, h); }
    } else {
      assert s.count == Placed(all[..i]) < WEIGHT;
      hide TryPlace, IsBehind, Placed, Describes;
      DrawOfPrefix(digest, all, i);
      hide IsDraw;
      PassIsDraw(digest, all[..i], s, all[i]);
      LoopOfDraws(digest, all, h, i + 1, TryPlace(digest)(s).state);
    }
  }

  lemma DrawOfPrefix(digest: seq<Octet>, all: seq<Draw>, i: nat)
    requires i < |all| && IsDraw(digest, all, i)
    ensures all[..i] + [all[i]] == all[..i + 1] && IsDraw(digest, all[..i + 1], i)
  {
    hide IsDraw;
    SameDraw(digest, all[..i + 1], all, i);
  }

  lemma SameEntries(draws: seq<Draw>, h: Challenge, h': Challenge)
    requires Describes(draws, h) && Describes(draws, h')
    ensures h == h'
  {
    hide Gives;
    forall pos: nat | pos < T ensures h[pos] == h'[pos] {
      if h[pos] > 0 { assert Gives(draws, pos, h[pos]); }
      if h'[pos] > 0 { assert Gives(draws, pos, h'[pos]); }
    }
  }

  lemma NothingDrawn(digest: seq<Octet>)
    ensures IsBehind(digest, [], Placing(NoneSet(), 0, 0))
  {
  }

  /** parse_hash: leaf by leaf and key by key as the stream says, until w leaves have a key. */
  lemma ParseHashIsPlacement(digest: seq<Octet>, h: Challenge)
    ensures ParseHashOf(digest) == Some(h) <==> IsPlaced(digest, h)
  {
    hide Loop, TryPlace, IsPlacement;
    var s := Placing(NoneSet(), 0, 0);
    NothingDrawn(digest);
    hide IsBehind;
    if ParseHashOf(digest) == Some(h) {
      var draws := DrawsOfLoop(digest, [], s);
    }
    if draws :| IsPlacement(digest, draws, h) {
      assert draws[..0] == [];
      LoopOfDraws(digest, draws, h, 0, s);
    }
  }

  /** parse_hash */
  method Parse(digest: seq<Octet>, h: array<Octet>) returns (ret: int)
    requires h.Length >= T ==> ParseHashOf(digest).Some?
    modifies h
    ensures ret == if h.Length < T then -1 else 0
    ensures ret == -1 ==> h[..] == old(h[..])
    ensures ret == 0 ==> ParseHashOf(digest) == Some(h[..T]) && h[T..] == old(h[T..])
    ensures ret == 0 ==> IsPlaced(digest, h[..T])
  {
    hide KeccakState.Squeezing, KeccakState.Absorbing, ParseHashOf, IsPlaced;
    if h.Length < T { return -1; }
    var shake := new KeccakState();
    shake.Init();
    shake.AbsorbMore(digest);
    shake.FinishAbsorbing();
    assert shake.message == digest;
    ClearEntries(h);
    PlaceAll(shake, digest, h);
    ParseHashIsPlacement(digest, h[..T]);
    return 0;
  }
}
