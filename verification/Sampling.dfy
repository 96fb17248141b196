/** XOF and the rejection samplers of ref/util.c: field elements, matrices and the challenge.  Each
    sampler is a function of the seed, with value None when its retry loop never exits. */
module Sampling {
  import opened Params
  import opened Loops
  import opened Matrix
  import opened Elimination
  import opened Products
  import opened Action
  import opened Bits
  import opened Shake

  // ----- XOF -----

  ghost function LengthBefore(buf: seq<array<Octet>>, i: nat): nat
    requires i <= |buf|
  {
    if i == 0 then 0 else LengthBefore(buf, i - 1) + buf[i - 1].Length
  }

  ghost predicate Distinct(buf: seq<array<Octet>>) {
    forall i, j :: 0 <= i < j < |buf| ==> buf[i] != buf[j]
  }

  /** XOF: the buffers receive consecutive slices of the stream of the seed, which may itself be in one
      of the buffers. */
  method Xof(buf: seq<array<Octet>>, seed: array<Octet>)
    requires Distinct(buf)
    modifies buf
    ensures forall i :: 0 <= i < |buf| ==>
      buf[i][..] == Bytes(old(seed[..]), LengthBefore(buf, i), buf[i].Length)
  {
    hide KeccakState.Squeezing, Bytes, LengthBefore;
    ghost var msg := seed[..];
    var shake := new KeccakState();
    shake.AbsorbOnce(seed[..]);
    LengthSteps(buf);
    for i := 0 to |buf|
      invariant fresh(shake) && fresh(shake.s)
      invariant shake.Squeezing() && shake.message == msg && shake.squeezed == LengthBefore(buf, i)
      invariant forall j :: 0 <= j < i ==> buf[j][..] == Bytes(msg, LengthBefore(buf, j), buf[j].Length)
    {
      SqueezeInto(shake, buf[i]);
    }
  }

  lemma LengthSteps(buf: seq<array<Octet>>)
    ensures LengthBefore(buf, 0) == 0
    ensures forall i :: 0 <= i < |buf| ==> LengthBefore(buf, i + 1) == LengthBefore(buf, i) + buf[i].Length
  {
  }

  method SqueezeInto(shake: KeccakState, b: array<Octet>)
    requires shake.Squeezing()
    modifies shake, shake.s, b
    ensures shake.Squeezing() && shake.message == old(shake.message)
    ensures shake.squeezed == old(shake.squeezed) + b.Length
    ensures b[..] == Bytes(shake.message, old(shake.squeezed), b.Length)
  {
    hide Bytes;
    var out := shake.Squeeze(b.Length);
    FillFrom(b, out);
  }

  method FillFrom(b: array<Octet>, bytes: seq<Octet>)
    requires b.Length == |bytes|
    modifies b
    ensures b[..] == bytes
  {
    for i := 0 to b.Length
      invariant b[..i] == bytes[..i]
    {
      b[i] := bytes[i];
    }
  }

  // ----- rnd_GF -----

  /** A sampled value and the stream position behind it. */
  datatype Drawn<+T> = Drawn(value: T, next: nat)

  /** Two bytes, little-endian, masked to the width of a field element. */
  function Masked(lo: Octet, hi: Octet): nat {
    (lo + 256 * hi) % Pow2(BITS)
  }

  ghost function TryGf(msg: seq<Octet>): nat -> Step<nat, Drawn<int>> {
    k => var v := Masked(Stream(msg, k), Stream(msg, k + 1));
      if v >= P then Again(k + 2) else Exit(Drawn(v, k + 2))
  }

  ghost function RndGfOf(msg: seq<Octet>, k: nat): Option<Drawn<int>> {
    Loop(TryGf(msg), k)
  }

  lemma TryGfOnce(msg: seq<Octet>, k: nat, v: int)
    requires v == Masked(Stream(msg, k), Stream(msg, k + 1))
    ensures TryGf(msg)(k) == if v >= P then Again(k + 2) else Exit(Drawn(v, k + 2))
  {
    hide Masked, Stream;
  }

  /** rnd_GF on a stream that holds an acceptable value. */
  method RndGf(shake: KeccakState) returns (val: int)
    requires shake.Squeezing() && RndGfOf(shake.message, shake.squeezed).Some?
    modifies shake, shake.s
    ensures shake.Squeezing() && shake.message == old(shake.message)
    ensures RndGfOf(shake.message, old(shake.squeezed)) == Some(Drawn(val, shake.squeezed))
    ensures 0 <= val < P
  {
    hide KeccakState.Squeezing, Stream, Loop, Passes, Masked;
    ghost var msg, k := shake.message, shake.squeezed;
    ghost var body := TryGf(msg);
    hide TryGf;
    val := P;
    while val >= P
      invariant shake.Squeezing() && shake.message == msg && val >= 0
      invariant val >= P ==> Loop(body, shake.squeezed) == Loop(body, k)
      invariant val < P ==> Loop(body, k) == Some(Drawn(val, shake.squeezed))
      decreases if val >= P then 1 + Passes(body, shake.squeezed) else 0
    {
      ghost var at := shake.squeezed;
      LoopUnfold(body, at);
      if body(at).Again? { PassesDecrease(body, at); }
      var data := shake.Squeeze(2);
      val := Masked(data[0], data[1]);
      TryGfOnce(msg, at, val);
    }
  }

  // ----- rows of field elements -----

  /** count elements, drawn one after the other. */
  ghost function DrawMany(msg: seq<Octet>, k: nat, count: nat): Option<Drawn<seq<int>>>
    decreases count
  {
    if count == 0 then Some(Drawn([], k))
    else match DrawMany(msg, k, count - 1)
      case None => None
      case Some(d) =>
        match RndGfOf(msg, d.next)
        case None => None
        case Some(e) => Some(Drawn(d.value + [e.value], e.next))
  }

  lemma DrawOne(msg: seq<Octet>, k: nat, count: nat)
    requires count > 0 && DrawMany(msg, k, count).Some?
    ensures DrawMany(msg, k, count - 1).Some?
    ensures var d := DrawMany(msg, k, count - 1).value;
      RndGfOf(msg, d.next).Some? &&
      DrawMany(msg, k, count).value.value == d.value + [RndGfOf(msg, d.next).value.value]
  {
    hide RndGfOf;
  }

  /** Shorter draws succeed as well, with a prefix of the values. */
  lemma {:induction false} DrawPrefix(msg: seq<Octet>, k: nat, count: nat, l: nat)
    requires l <= count && DrawMany(msg, k, count).Some?
    ensures DrawMany(msg, k, l).Some? && |DrawMany(msg, k, l).value.value| == l
    ensures |DrawMany(msg, k, count).value.value| == count
    ensures DrawMany(msg, k, count).value.value[..l] == DrawMany(msg, k, l).value.value
    decreases count
  {
    hide DrawMany, RndGfOf;
    if count == 0 {
      DrawNone(msg, k);
    } else {
      DrawOne(msg, k, count);
      var v, d := DrawMany(msg, k, count).value.value, DrawMany(msg, k, count - 1).value;
      if l < count {
        DrawPrefix(msg, k, count - 1, l);
        assert v[..l] == d.value[..l];
      } else {
        DrawPrefix(msg, k, count - 1, count - 1);
        assert v[..l] == v;
      }
    }
  }

  lemma DrawNone(msg: seq<Octet>, k: nat)
    ensures DrawMany(msg, k, 0) == Some(Drawn([], k))
  {
  }

  lemma {:induction false} DrawReduced(msg: seq<Octet>, k: nat, count: nat)
    requires DrawMany(msg, k, count).Some?
    ensures Reduced(DrawMany(msg, k, count).value.value)
    decreases count
  {
    hide DrawMany, RndGfOf;
    if count > 0 {
      DrawOne(msg, k, count);
      DrawReduced(msg, k, count - 1);
      GfReduced(msg, DrawMany(msg, k, count - 1).value.next);
    } else {
      DrawNone(msg, k);
    }
  }

  lemma GfReduced(msg: seq<Octet>, k: nat)
    requires RndGfOf(msg, k).Some?
    ensures 0 <= RndGfOf(msg, k).value.value < P
  {
    hide Within, TryGf;
    var l: nat :| Within(TryGf(msg), k, l).Some? && Loop(TryGf(msg), k) == Within(TryGf(msg), k, l);
    GfWithin(msg, k, l);
  }

  lemma {:induction false} GfWithin(msg: seq<Octet>, k: nat, l: nat)
    requires Within(TryGf(msg), k, l).Some?
    ensures 0 <= Within(TryGf(msg), k, l).value.value < P
    decreases l
  {
    hide Stream, Masked;
    if TryGf(msg)(k).Again? { GfWithin(msg, k + 2, l - 1); }
  }

  /** q of the values drawn from position k on have been read. */
  ghost predicate Drawing(shake: KeccakState, msg: seq<Octet>, k: nat, total: nat, q: nat)
    reads shake, shake.s
  {
    && shake.Squeezing() && shake.message == msg
    && q <= total && DrawMany(msg, k, total).Some? && DrawMany(msg, k, q).Some?
    && shake.squeezed == DrawMany(msg, k, q).value.next
  }

  lemma StartDrawing(shake: KeccakState, msg: seq<Octet>, k: nat, total: nat)
    requires shake.Squeezing() && shake.message == msg && shake.squeezed == k && DrawMany(msg, k, total).Some?
    ensures Drawing(shake, msg, k, total, 0)
  {
    hide KeccakState.Squeezing;
    DrawNone(msg, k);
  }

  ghost function Values(msg: seq<Octet>, k: nat, total: nat): (v: seq<int>)
    requires DrawMany(msg, k, total).Some?
    ensures |v| == total
  {
    DrawPrefix(msg, k, total, total);
    DrawMany(msg, k, total).value.value
  }

  method DrawNext(shake: KeccakState, ghost msg: seq<Octet>, ghost k: nat, ghost total: nat, ghost q: nat)
    returns (val: int)
    requires Drawing(shake, msg, k, total, q) && q < total
    modifies shake, shake.s
    ensures Drawing(shake, msg, k, total, q + 1)
    ensures 0 <= val < P && val == Values(msg, k, total)[q]
  {
    hide KeccakState.Squeezing, RndGfOf, DrawMany;
    DrawPrefix(msg, k, total, q + 1);
    DrawOne(msg, k, q + 1);
    DrawPrefix(msg, k, q + 1, q);
    val := RndGf(shake);
    DrawAppend(msg, k, q + 1);
    var l := q + 1;
    assert Values(msg, k, total)[q] == Values(msg, k, total)[..l][q];
  }

  lemma DrawAppend(msg: seq<Octet>, k: nat, count: nat)
    requires count > 0 && DrawMany(msg, k, count).Some?
    ensures DrawMany(msg, k, count - 1).Some?
    ensures var d := DrawMany(msg, k, count - 1).value;
      RndGfOf(msg, d.next).Some? && DrawMany(msg, k, count).value.next == RndGfOf(msg, d.next).value.next
  {
    hide RndGfOf;
  }

  // ----- rnd_sys_mat -----

  ghost function SystematicFrom(v: seq<int>, rows: nat, cols: nat): (s: Mat)
    requires rows <= cols
    ensures |s| == rows * cols
  {
    Build(rows, cols, (r, c) => if c < rows then (if r == c then 1 else 0) else At(v, cols - rows, r, c - rows))
  }

  ghost function SysMatOf(seed: seq<Octet>, rows: nat, cols: nat): Option<Mat>
    requires rows <= cols
  {
    match DrawMany(seed, 0, rows * (cols - rows))
    case None => None
    case Some(d) => Some(SystematicFrom(d.value, rows, cols))
  }

  lemma SystematicFromAt(v: seq<int>, rows: nat, cols: nat, r: int, c: int)
    requires rows <= cols && 0 <= r < rows && 0 <= c < cols
    ensures At(SystematicFrom(v, rows, cols), cols, r, c) ==
      if c < rows then (if r == c then 1 else 0) else At(v, cols - rows, r, c - rows)
  {
    hide At;
    BuildAt(rows, cols, (r, c) => if c < rows then (if r == c then 1 else 0) else At(v, cols - rows, r, c - rows),
      r, c);
  }

  /** The sampled code is in systematic form, with entries below p. */
  lemma SysMatIsSystematic(seed: seq<Octet>, rows: nat, cols: nat)
    requires rows <= cols && SysMatOf(seed, rows, cols).Some?
    ensures var m := SysMatOf(seed, rows, cols).value;
      |m| == rows * cols && Systematic(m, rows, cols) && Reduced(m)
  {
    hide At, DrawMany;
    var v := DrawMany(seed, 0, rows * (cols - rows)).value.value;
    DrawReduced(seed, 0, rows * (cols - rows));
    forall r, c | 0 <= r < rows && 0 <= c < cols
      ensures At(SystematicFrom(v, rows, cols), cols, r, c) ==
        if c < rows then (if r == c then 1 else 0) else At(v, cols - rows, r, c - rows)
      ensures 0 <= At(SystematicFrom(v, rows, cols), cols, r, c) < P
    {
      SystematicFromAt(v, rows, cols, r, c);
      AtReduced(v, cols - rows, r, c - rows);
    }
    hide SystematicFrom;
    ReducedByEntries(rows, cols, SystematicFrom(v, rows, cols));
  }

  /** rnd_sys_mat: the right part is drawn row by row, then the identity is put on the left. */
  method RndSysMat(m: array<int>, rows: nat, cols: nat, seed: seq<Octet>)
    requires rows <= cols && m.Length == rows * cols && SysMatOf(seed, rows, cols).Some?
    modifies m
    ensures SysMatOf(seed, rows, cols) == Some(m[..])
  {
    hide At, KeccakState.Squeezing, DrawMany, Drawing;
    var shake := new KeccakState();
    shake.AbsorbOnce(seed);
    ghost var w, total := cols - rows, rows * (cols - rows);
    StartDrawing(shake, seed, 0, total);
    ghost var v := Values(seed, 0, total);
    ghost var q: nat := 0;
    for r := 0 to rows
      invariant fresh(shake) && fresh(shake.s)
      invariant q == w * r && Drawing(shake, seed, 0, total, q)
      invariant forall i, j :: 0 <= i < r && rows <= j < cols ==> At(m[..], cols, i, j) == At(v, w, i, j - rows)
    {
      RowOffset(rows, w, r);
      for c := rows to cols
        invariant fresh(shake) && fresh(shake.s)
        invariant q == w * r + (c - rows) && Drawing(shake, seed, 0, total, q)
        invariant forall i, j :: 0 <= i < r && rows <= j < cols ==> At(m[..], cols, i, j) == At(v, w, i, j - rows)
        invariant forall j :: rows <= j < c ==> At(m[..], cols, r, j) == At(v, w, r, j - rows)
      {
        var val := DrawNext(shake, seed, 0, total, q);
        AtIndex(v, w, r, c - rows, q);
        SetCell(m, rows, cols, r, c, val);
        q := q + 1;
      }
    }
    for r := 0 to rows
      invariant forall i, j :: 0 <= i < rows && rows <= j < cols ==> At(m[..], cols, i, j) == At(v, w, i, j - rows)
      invariant forall i, j :: 0 <= i < r && 0 <= j < rows ==> At(m[..], cols, i, j) == if i == j then 1 else 0
    {
      for c := 0 to rows
        invariant forall i, j :: 0 <= i < rows && rows <= j < cols ==> At(m[..], cols, i, j) == At(v, w, i, j - rows)
        invariant forall i, j :: 0 <= i < r && 0 <= j < rows ==> At(m[..], cols, i, j) == if i == j then 1 else 0
        invariant forall j :: 0 <= j < c ==> At(m[..], cols, r, j) == if r == j then 1 else 0
      {
        SetCell(m, rows, cols, r, c, if r == c then 1 else 0);
      }
    }
    forall i, j | 0 <= i < rows && 0 <= j < cols
      ensures At(m[..], cols, i, j) == At(SystematicFrom(v, rows, cols), cols, i, j)
    {
      SystematicFromAt(v, rows, cols, i, j);
    }
    hide SystematicFrom;
    MatEqual(rows, cols, m[..], SystematicFrom(v, rows, cols));
  }

  lemma AtIndex(v: seq<int>, w: nat, r: int, c: int, q: int)
    requires q == w * r + c && 0 <= q < |v|
    ensures At(v, w, r, c) == v[q]
  {
  }

  // ----- rnd_inv_matrix -----

  ghost function TryInv(msg: seq<Octet>, rows: nat, cols: nat): nat -> Step<nat, Mat> {
    k => match DrawMany(msg, k, rows * cols)
      case None => Stuck
      case Some(d) => if Singular(d.value, rows, cols) then Again(d.next) else Exit(d.value)
  }

  ghost function RndInvOf(seed: seq<Octet>, rows: nat, cols: nat): Option<Mat> {
    Loop(TryInv(seed, rows, cols), 0)
  }

  lemma {:induction false} InvWithin(msg: seq<Octet>, rows: nat, cols: nat, k: nat, l: nat)
    requires Within(TryInv(msg, rows, cols), k, l).Some?
    ensures var m := Within(TryInv(msg, rows, cols), k, l).value;
      |m| == rows * cols && Reduced(m) && !Singular(m, rows, cols)
    ensures exists j :: (DrawMany(msg, j, rows * cols).Some? &&
      DrawMany(msg, j, rows * cols).value.value == Within(TryInv(msg, rows, cols), k, l).value)
    decreases l
  {
    hide DrawMany, Singular;
    var body := TryInv(msg, rows, cols);
    if body(k).Again? {
      InvWithin(msg, rows, cols, body(k).state, l - 1);
    } else {
      DrawReduced(msg, k, rows * cols);
      DrawPrefix(msg, k, rows * cols, rows * cols);
    }
  }

  /** The matrix returned is an unmodified sample with entries below p, and nonsingular. */
  lemma RndInvIsNonsingular(seed: seq<Octet>, rows: nat, cols: nat)
    requires RndInvOf(seed, rows, cols).Some?
    ensures var m := RndInvOf(seed, rows, cols).value;
      |m| == rows * cols && Reduced(m) && !Singular(m, rows, cols)
    ensures exists j :: (DrawMany(seed, j, rows * cols).Some? &&
      DrawMany(seed, j, rows * cols).value.value == RndInvOf(seed, rows, cols).value)
  {
    hide Within, TryInv, DrawMany, Singular;
    var body := TryInv(seed, rows, cols);
    var l: nat :| Within(body, 0, l).Some? && Loop(body, 0) == Within(body, 0, l);
    InvWithin(seed, rows, cols, 0, l);
  }

  method FillDrawn(m: array<int>, rows: nat, cols: nat, shake: KeccakState)
    requires m.Length == rows * cols
    requires shake.Squeezing() && DrawMany(shake.message, shake.squeezed, rows * cols).Some?
    modifies m, shake, shake.s
    ensures shake.Squeezing() && shake.message == old(shake.message)
    ensures DrawMany(shake.message, old(shake.squeezed), rows * cols) == Some(Drawn(m[..], shake.squeezed))
    ensures Reduced(m[..])
  {
    hide At, KeccakState.Squeezing, DrawMany, Drawing;
    ghost var msg, k, total := shake.message, shake.squeezed, rows * cols;
    StartDrawing(shake, msg, k, total);
    ghost var v := Values(msg, k, total);
    ghost var q: nat := 0;
    for r := 0 to rows
      invariant q == cols * r && Drawing(shake, msg, k, total, q)
      invariant forall i, j :: 0 <= i < r && 0 <= j < cols ==> At(m[..], cols, i, j) == At(v, cols, i, j)
    {
      RowOffset(rows, cols, r);
      for c := 0 to cols
        invariant q == cols * r + c && Drawing(shake, msg, k, total, q)
        invariant forall i, j :: 0 <= i < r && 0 <= j < cols ==> At(m[..], cols, i, j) == At(v, cols, i, j)
        invariant forall j :: 0 <= j < c ==> At(m[..], cols, r, j) == At(v, cols, r, j)
      {
        var val := DrawNext(shake, msg, k, total, q);
        AtIndex(v, cols, r, c, q);
        SetCell(m, rows, cols, r, c, val);
        q := q + 1;
      }
    }
    MatEqual(rows, cols, m[..], v);
    DrawReduced(msg, k, total);
    assert q == total;
    AllDrawn(shake, msg, k, total);
  }

  lemma AllDrawn(shake: KeccakState, msg: seq<Octet>, k: nat, total: nat)
    requires Drawing(shake, msg, k, total, total)
    ensures shake.Squeezing() && shake.message == msg
    ensures DrawMany(msg, k, total) == Some(Drawn(Values(msg, k, total), shake.squeezed))
  {
    hide KeccakState.Squeezing, DrawMany;
  }

  /** rnd_inv_matrix: samples until the forward elimination of a copy finds all pivots. */
  method RndInvMatrix(m: array<int>, rows: nat, cols: nat, seed: seq<Octet>)
    requires rows <= cols && m.Length == rows * cols && RndInvOf(seed, rows, cols).Some?
    modifies m
    ensures RndInvOf(seed, rows, cols) == Some(m[..])
  {
    hide KeccakState.Squeezing, DrawMany, Loop, Passes, Singular;
    ghost var body := TryInv(seed, rows, cols);
    var shake := new KeccakState();
    shake.AbsorbOnce(seed);
    while true
      invariant fresh(shake) && fresh(shake.s) && shake.Squeezing() && shake.message == seed
      invariant Loop(body, shake.squeezed) == Loop(body, 0) && Loop(body, 0).Some?
      decreases Passes(body, shake.squeezed)
    {
      LoopUnfold(body, shake.squeezed);
      if body(shake.squeezed).Again? { PassesDecrease(body, shake.squeezed); }
      FillDrawn(m, rows, cols, shake);
      var tmp := new int[m.Length](i requires 0 <= i < m.Length reads m => m[i]);
      assert tmp[..] == m[..];
      var ok := Forward(tmp, rows, cols);
      if ok { return; }
    }
  }
}
