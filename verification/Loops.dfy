/** The meaning of the while(1) rejection loops: a loop either exits with a result or runs forever. */
module Loops {

  datatype Option<+T> = None | Some(value: T)

  /** One pass through a loop body: leave with a result, go round again, or never come back
      because a loop inside the body does not exit. */
  datatype Step<+S, +R> = Exit(result: R) | Again(state: S) | Stuck

  /** The result when the loop leaves within k further passes after this one. */
  ghost function Within<S, R>(body: S -> Step<S, R>, s: S, k: nat): Option<R>
    decreases k
  {
    match body(s)
    case Exit(r) => Some(r)
    case Again(s') => if k == 0 then None else Within(body, s', k - 1)
    case Stuck => None
  }

  /** The result of the loop; None when it never exits. */
  ghost function Loop<S, R>(body: S -> Step<S, R>, s: S): Option<R> {
    if exists k: nat :: Within(body, s, k).Some? then
      var k: nat :| Within(body, s, k).Some?;
      Within(body, s, k)
    else None
  }

  lemma {:induction false} WithinAgree<S, R>(body: S -> Step<S, R>, s: S, k: nat, l: nat)
    requires Within(body, s, k).Some? && Within(body, s, l).Some?
    ensures Within(body, s, k) == Within(body, s, l)
    decreases k
  {
    if body(s).Again? { WithinAgree(body, body(s).state, k - 1, l - 1); }
  }

  lemma LoopIs<S, R>(body: S -> Step<S, R>, s: S, k: nat)
    requires Within(body, s, k).Some?
    ensures Loop(body, s) == Within(body, s, k)
  {
    var l: nat :| Within(body, s, l).Some? && Loop(body, s) == Within(body, s, l);
    WithinAgree(body, s, k, l);
  }

  /** A loop is its body followed by the loop. */
  lemma LoopUnfold<S, R>(body: S -> Step<S, R>, s: S)
    ensures Loop(body, s) ==
      match body(s) { case Exit(r) => Some(r) case Again(s') => Loop(body, s') case Stuck => None }
  {
    match body(s)
    case Exit(r) => LoopIs(body, s, 0);
    case Stuck => assert forall k: nat :: Within(body, s, k).None?;
    case Again(s') =>
      if k: nat :| Within(body, s', k).Some? {
        LoopIs(body, s', k);
        assert Within(body, s, k + 1) == Within(body, s', k);
        LoopIs(body, s, k + 1);
      } else {
        forall k: nat ensures Within(body, s, k).None? {
          if k > 0 { assert Within(body, s, k) == Within(body, s', k - 1); }
        }
      }
  }

  /** The number of passes still to come, the ranking function of an exiting loop. */
  ghost function Passes<S, R>(body: S -> Step<S, R>, s: S): (k: nat)
    requires Loop(body, s).Some?
    ensures Within(body, s, k).Some?
    ensures k > 0 ==> Within(body, s, k - 1).None?
  {
    var k: nat :| Within(body, s, k).Some?;
    Least(body, s, k)
  }

  ghost function Least<S, R>(body: S -> Step<S, R>, s: S, k: nat): (l: nat)
    requires Within(body, s, k).Some?
    ensures Within(body, s, l).Some?
    ensures l > 0 ==> Within(body, s, l - 1).None?
  {
    if k > 0 && Within(body, s, k - 1).Some? then Least(body, s, k - 1) else k
  }

  lemma {:induction false} WithinMonotone<S, R>(body: S -> Step<S, R>, s: S, k: nat, l: nat)
    requires Within(body, s, k).Some? && k <= l
    ensures Within(body, s, l).Some?
    decreases k
  {
    if body(s).Again? { WithinMonotone(body, body(s).state, k - 1, l - 1); }
  }

  lemma PassesDecrease<S, R>(body: S -> Step<S, R>, s: S)
    requires Loop(body, s).Some? && body(s).Again?
    ensures Loop(body, body(s).state).Some?
    ensures Passes(body, body(s).state) < Passes(body, s)
  {
    LoopUnfold(body, s);
    var s', k := body(s).state, Passes(body, s);
    assert Within(body, s', k - 1).Some?;
    if Passes(body, s') >= k {
      WithinMonotone(body, s', k - 1, Passes(body, s') - 1);
    }
  }

  /** The passes of a loop that exits: the states it is in, one after the other, and its result. */
  ghost predicate IsRun<S(!new), R(!new)>(body: S -> Step<S, R>, states: seq<S>, s: S, r: R) {
    && |states| > 0 && states[0] == s
    && (forall i :: 0 <= i < |states| - 1 ==> body(states[i]) == Again(states[i + 1]))
    && body(states[|states| - 1]) == Exit(r)
  }

  lemma {:induction false} RunOfWithin<S(!new), R(!new)>(body: S -> Step<S, R>, s: S, k: nat) returns (states: seq<S>)
    requires Within(body, s, k).Some?
    ensures IsRun(body, states, s, Within(body, s, k).value)
    decreases k
  {
    match body(s)
    case Exit(r) => states := [s];
    case Again(s') =>
      var rest := RunOfWithin(body, s', k - 1);
      states := [s] + rest;
  }

  lemma {:induction false} LoopOfRun<S(!new), R(!new)>(body: S -> Step<S, R>, states: seq<S>, s: S, r: R)
    requires IsRun(body, states, s, r)
    ensures Loop(body, s) == Some(r)
    decreases |states|
  {
    LoopUnfold(body, s);
    if |states| > 1 {
      assert states[1..][|states| - 2] == states[|states| - 1];
      LoopOfRun(body, states[1..], states[1], r);
    }
  }

  /** A loop returns r if and only if some sequence of passes leads there. */
  lemma LoopIsRun<S(!new), R(!new)>(body: S -> Step<S, R>, s: S, r: R)
    ensures Loop(body, s) == Some(r) <==> exists states :: IsRun(body, states, s, r)
  {
    hide IsRun;
    if Loop(body, s) == Some(r) {
      var k: nat :| Within(body, s, k).Some? && Loop(body, s) == Within(body, s, k);
      var states := RunOfWithin(body, s, k);
    }
    if states :| IsRun(body, states, s, r) {
      LoopOfRun(body, states, s, r);
    }
  }
}
