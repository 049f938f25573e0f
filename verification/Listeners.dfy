/** Which of a worker's listeners are armed, and the loops that arm and disarm them. */
module Listeners {
  /** Arming in list order: a listener that is armed already is left alone, and the first failing
      `event_add` ends the loop. `works[k]` says whether libevent would accept listener `k`. */
  function Resumed(armed: seq<bool>, works: seq<bool>): (r: (seq<bool>, bool))
    requires |armed| == |works|
    ensures |r.0| == |armed|
  {
    if armed == [] then ([], true)
    else if armed[0] || works[0] then
      var t := Resumed(armed[1..], works[1..]);
      ([true] + t.0, t.1)
    else (armed, false)
  }

  /** Disarming in list order; listeners with `SO_REUSEPORT` are only touched when `all` is set. */
  function Paused(armed: seq<bool>, reuse: seq<bool>, all: bool, works: seq<bool>): (r: (seq<bool>, bool))
    requires |armed| == |reuse| == |works|
    ensures |r.0| == |armed|
  {
    if armed == [] then ([], true)
    else if (reuse[0] && !all) || !armed[0] || works[0] then
      var t := Paused(armed[1..], reuse[1..], all, works[1..]);
      ([armed[0] && reuse[0] && !all] + t.0, t.1)
    else (armed, false)
  }

  /** Every listener is armed. */
  predicate AllArmed(armed: seq<bool>)
  {
    forall k :: 0 <= k < |armed| ==> armed[k]
  }

  /** No listener that is shared between the workers is armed. */
  predicate Quiet(armed: seq<bool>, reuse: seq<bool>)
    requires |armed| == |reuse|
  {
    forall k :: 0 <= k < |armed| && !reuse[k] ==> !armed[k]
  }

  lemma {:induction false} ResumedArmsAll(armed: seq<bool>, works: seq<bool>)
    requires |armed| == |works| && Resumed(armed, works).1
    ensures AllArmed(Resumed(armed, works).0)
  {
    if armed != [] {
      ResumedArmsAll(armed[1..], works[1..]);
    }
  }

  lemma {:induction false} PausedDisarms(armed: seq<bool>, reuse: seq<bool>, all: bool, works: seq<bool>)
    requires |armed| == |reuse| == |works| && Paused(armed, reuse, all, works).1
    ensures Quiet(Paused(armed, reuse, all, works).0, reuse)
    ensures forall k :: 0 <= k < |armed| ==> Paused(armed, reuse, all, works).0[k] == (armed[k] && reuse[k] && !all)
  {
    if armed != [] {
      PausedDisarms(armed[1..], reuse[1..], all, works[1..]);
    }
  }

  /** The first `n` listeners are armed or can be. */
  predicate Startable(armed: seq<bool>, works: seq<bool>, n: nat)
    requires |armed| == |works| && n <= |armed|
  {
    forall j :: 0 <= j < n ==> armed[j] || works[j]
  }

  lemma StartableTail(armed: seq<bool>, works: seq<bool>, n: nat)
    requires |armed| == |works| && n < |armed|
    ensures Startable(armed, works, n + 1) <==> (armed[0] || works[0]) && Startable(armed[1..], works[1..], n)
  {
    var a, w := armed[1..], works[1..];
    if (armed[0] || works[0]) && Startable(a, w, n) {
      forall j | 0 < j < n + 1 ensures armed[j] || works[j] {
        assert a[j - 1] || w[j - 1];
      }
    }
  }

  /** Arming, exactly, success or not: a listener ends up armed if it was, or if it and all before it are or can be. */
  lemma {:induction false} ResumedExactly(armed: seq<bool>, works: seq<bool>)
    requires |armed| == |works|
    ensures Resumed(armed, works).1 <==> Startable(armed, works, |armed|)
    ensures forall k :: 0 <= k < |armed| ==> (Resumed(armed, works).0[k] <==> armed[k] || Startable(armed, works, k + 1))
    decreases |armed|
  {
    hide Startable;
    StartableNone(armed, works);
    if armed != [] {
      var a, w := armed[1..], works[1..];
      ResumedExactly(a, w);
      StartableTail(armed, works, |a|);
      StartableNone(a, w);
      forall k | 0 <= k < |armed|
        ensures Resumed(armed, works).0[k] <==> armed[k] || Startable(armed, works, k + 1)
      {
        StartableTail(armed, works, k);
      }
    }
  }

  lemma StartableNone(armed: seq<bool>, works: seq<bool>)
    requires |armed| == |works|
    ensures Startable(armed, works, 0)
  {
  }

  /** One of the first `n` listeners is to be disarmed and cannot be. */
  predicate Stuck(armed: seq<bool>, reuse: seq<bool>, all: bool, works: seq<bool>, n: nat)
    requires |armed| == |reuse| == |works| && n <= |armed|
  {
    exists j :: 0 <= j < n && armed[j] && (all || !reuse[j]) && !works[j]
  }

  lemma StuckTail(armed: seq<bool>, reuse: seq<bool>, all: bool, works: seq<bool>, n: nat)
    requires |armed| == |reuse| == |works| && n < |armed|
    ensures Stuck(armed, reuse, all, works, n + 1) <==>
      (armed[0] && (all || !reuse[0]) && !works[0]) || Stuck(armed[1..], reuse[1..], all, works[1..], n)
  {
    var a, u, w := armed[1..], reuse[1..], works[1..];
    if j :| 0 <= j < n && a[j] && (all || !u[j]) && !w[j] {
      assert armed[j + 1] && (all || !reuse[j + 1]) && !works[j + 1];
    }
    if j :| 0 < j < n + 1 && armed[j] && (all || !reuse[j]) && !works[j] {
      assert a[j - 1] && (all || !u[j - 1]) && !w[j - 1];
    }
  }

  /** Disarming, exactly, success or not: a listener stays armed if it was and is spared, or it or one before is stuck. */
  lemma {:induction false} PausedExactly(armed: seq<bool>, reuse: seq<bool>, all: bool, works: seq<bool>)
    requires |armed| == |reuse| == |works|
    ensures Paused(armed, reuse, all, works).1 <==> !Stuck(armed, reuse, all, works, |armed|)
    ensures forall k :: 0 <= k < |armed| ==>
      (Paused(armed, reuse, all, works).0[k] <==> armed[k] && ((reuse[k] && !all) || Stuck(armed, reuse, all, works, k + 1)))
    decreases |armed|
  {
    hide Stuck;
    StuckNone(armed, reuse, all, works);
    if armed != [] {
      var a, u, w := armed[1..], reuse[1..], works[1..];
      PausedExactly(a, u, all, w);
      StuckNone(a, u, all, w);
      StuckTail(armed, reuse, all, works, |a|);
      forall k | 0 <= k < |armed|
        ensures Paused(armed, reuse, all, works).0[k] <==> armed[k] && ((reuse[k] && !all) || Stuck(armed, reuse, all, works, k + 1))
      {
        StuckTail(armed, reuse, all, works, k);
      }
    }
  }

  lemma StuckNone(armed: seq<bool>, reuse: seq<bool>, all: bool, works: seq<bool>)
    requires |armed| == |reuse| == |works|
    ensures !Stuck(armed, reuse, all, works, 0)
  {
  }

  /** Pausing never arms a listener, also when it fails half way. */
  lemma {:induction false} PausedKeeps(armed: seq<bool>, reuse: seq<bool>, all: bool, works: seq<bool>)
    requires |armed| == |reuse| == |works|
    ensures forall k :: 0 <= k < |armed| && Paused(armed, reuse, all, works).0[k] ==> armed[k]
  {
    if armed != [] {
      PausedKeeps(armed[1..], reuse[1..], all, works[1..]);
    }
  }

  lemma ResumedCons(armed: seq<bool>, works: seq<bool>, k: nat)
    requires |armed| == |works| && k < |armed| && (armed[k] || works[k])
    ensures Resumed(armed[k..], works[k..]) ==
      (var t := Resumed(armed[k + 1..], works[k + 1..]); ([true] + t.0, t.1))
  {
    assert armed[k..][1..] == armed[k + 1..] && works[k..][1..] == works[k + 1..];
  }

  lemma PausedCons(armed: seq<bool>, reuse: seq<bool>, all: bool, works: seq<bool>, k: nat)
    requires |armed| == |reuse| == |works| && k < |armed| && ((reuse[k] && !all) || !armed[k] || works[k])
    ensures Paused(armed[k..], reuse[k..], all, works[k..]) ==
      (var t := Paused(armed[k + 1..], reuse[k + 1..], all, works[k + 1..]); ([armed[k] && reuse[k] && !all] + t.0, t.1))
  {
    assert armed[k..][1..] == armed[k + 1..] && works[k..][1..] == works[k + 1..] && reuse[k..][1..] == reuse[k + 1..];
  }

  method Resume(armed: array<bool>, works: seq<bool>) returns (ok: bool)
    requires armed.Length == |works|
    modifies armed
    ensures (armed[..], ok) == Resumed(old(armed[..]), works)
  {
    hide Resumed;
    ghost var was := armed[..];
    var k := 0;
    assert was[0..] == was && works[0..] == works;
    assert armed[..0] + Resumed(was, works).0 == Resumed(was, works).0;
    while k < armed.Length
      invariant 0 <= k <= armed.Length && armed[k..] == was[k..]
      invariant Resumed(was, works) ==
        (armed[..k] + Resumed(was[k..], works[k..]).0, Resumed(was[k..], works[k..]).1)
    {
      assert armed[k] == was[k] by { assert armed[k..][0] == was[k..][0]; }
      if !armed[k] {
        if !works[k] {
          ResumeFails(was, works, k);
          assert armed[..] == armed[..k] + armed[k..];
          return false;
        }
      }
      ResumedCons(was, works, k);
      ghost var left := armed[..k];
      ghost var right := armed[k + 1..];
      assert right == was[k + 1..] by { assert armed[k..][1..] == right && was[k..][1..] == was[k + 1..]; }
      armed[k] := true;
      assert armed[..k + 1] == left + [true];
      k := k + 1;
      Regroup(left, true, Resumed(was[k..], works[k..]).0);
    }
    ResumedNone(was[k..], works[k..]);
    assert armed[..k] == armed[..];
    assert armed[..] + [] == armed[..];
    return true;
  }

  lemma Regroup(a: seq<bool>, b: bool, c: seq<bool>)
    ensures a + ([b] + c) == (a + [b]) + c
  {
  }

  lemma ResumedNone(armed: seq<bool>, works: seq<bool>)
    requires armed == [] && works == []
    ensures Resumed(armed, works) == ([], true)
  {
  }

  lemma ResumeFails(armed: seq<bool>, works: seq<bool>, k: nat)
    requires |armed| == |works| && k < |armed| && !armed[k] && !works[k]
    ensures Resumed(armed[k..], works[k..]) == (armed[k..], false)
  {
  }

  lemma PausedNone(armed: seq<bool>, reuse: seq<bool>, all: bool, works: seq<bool>)
    requires armed == [] && works == [] && reuse == []
    ensures Paused(armed, reuse, all, works) == ([], true)
  {
  }

  lemma PauseFails(armed: seq<bool>, reuse: seq<bool>, all: bool, works: seq<bool>, k: nat)
    requires |armed| == |reuse| == |works| && k < |armed| && !(reuse[k] && !all) && armed[k] && !works[k]
    ensures Paused(armed[k..], reuse[k..], all, works[k..]) == (armed[k..], false)
  {
  }

  method Pause(armed: array<bool>, reuse: seq<bool>, all: bool, works: seq<bool>) returns (ok: bool)
    requires armed.Length == |works| == |reuse|
    modifies armed
    ensures (armed[..], ok) == Paused(old(armed[..]), reuse, all, works)
  {
    hide Paused;
    ghost var was := armed[..];
    var k := 0;
    assert was[0..] == was && works[0..] == works && reuse[0..] == reuse;
    assert armed[..0] + Paused(was, reuse, all, works).0 == Paused(was, reuse, all, works).0;
    while k < armed.Length
      invariant 0 <= k <= armed.Length && armed[k..] == was[k..]
      invariant Paused(was, reuse, all, works) ==
        (armed[..k] + Paused(was[k..], reuse[k..], all, works[k..]).0, Paused(was[k..], reuse[k..], all, works[k..]).1)
    {
      assert armed[k] == was[k] by { assert armed[k..][0] == was[k..][0]; }
      ghost var left := armed[..k];
      ghost var right := armed[k + 1..];
      assert right == was[k + 1..] by { assert armed[k..][1..] == right && was[k..][1..] == was[k + 1..]; }
      if !(reuse[k] && !all) {
        if armed[k] {
          if !works[k] {
            PauseFails(was, reuse, all, works, k);
            assert armed[..] == armed[..k] + armed[k..];
            return false;
          }
          armed[k] := false;
        }
      }
      PausedCons(was, reuse, all, works, k);
      ghost var b := was[k] && reuse[k] && !all;
      assert armed[..k + 1] == left + [b];
      k := k + 1;
      Regroup(left, b, Paused(was[k..], reuse[k..], all, works[k..]).0);
    }
    PausedNone(was[k..], reuse[k..], all, works[k..]);
    assert armed[..k] == armed[..];
    assert armed[..] + [] == armed[..];
    return true;
  }
}
