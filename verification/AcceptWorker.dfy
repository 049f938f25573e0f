/** One worker's code: its variables, the shared lock word, and one round of its main loop. Each method
    makes the moves of the protocol that the code it stands for makes. */
module AcceptWorker {
  import L = Listeners
  import opened Acceptor

  /** What a whole call of `pgrest_acceptor_trylock_mutex` amounts to. */
  function Tried(reuse: seq<bool>, owner: Owner, me: nat, w: Worker, arm: seq<bool>, disarm: seq<bool>): (r: (Owner, Worker))
    requires w.phase == Idle && |w.armed| == |reuse| == |arm| == |disarm| && w.disabled <= 0
    ensures |r.1.armed| == |reuse| && (r.1.phase == Ready || r.1.phase == Stopped)
  {
    var (o1, w1) := Local(reuse, owner, me, w, Begin);
    if w1.phase == Won then
      var (o2, w2) := Local(reuse, o1, me, w1, Arm(arm));
      if w2.phase == Failing then Local(reuse, o2, me, w2, Release) else (o2, w2)
    else Local(reuse, o1, me, w1, Disarm(disarm))
  }

  /** The event loop: every event whose listener is still armed when its turn comes is served. */
  function Served(reuse: seq<bool>, owner: Owner, me: nat, w: Worker, events: seq<Move>): (r: (Owner, Worker))
    requires InLoop(w) && |w.armed| == |reuse|
    ensures |r.1.armed| == |reuse| && r.1.phase == w.phase
    decreases |events|
  {
    if events == [] then (owner, w)
    else if Serves(events[0]) && Enabled(reuse, w, events[0]) then
      var (o, v) := Local(reuse, owner, me, w, events[0]);
      Served(reuse, o, me, v, events[1..])
    else Served(reuse, owner, me, w, events[1..])
  }

  predicate Serves(m: Move) { m.Accepted? || m.NoFiles? }

  /** One round, from `Idle` to `Idle` or `Stopped`. `timer` and `untimer` say whether the round's timer can
      be set and removed. */
  function Round(reuse: seq<bool>, owner: Owner, me: nat, w: Worker, arm: seq<bool>, disarm: seq<bool>,
                 timer: bool, untimer: bool, events: seq<Move>): (r: (Owner, Worker))
    requires w.phase == Idle && |w.armed| == |reuse| == |arm| == |disarm|
    ensures r.1.phase == Idle || r.1.phase == Stopped
  {
    if w.disabled > 0 then
      var (o1, w1) := Local(reuse, owner, me, w, Begin);
      var (o2, w2) := Served(reuse, o1, me, w1, events);
      Local(reuse, o2, me, w2, Leave(untimer))
    else
      var (o1, w1) := Tried(reuse, owner, me, w, arm, disarm);
      if w1.phase == Stopped then (o1, w1) else
        var (o2, w2) := Local(reuse, o1, me, w1, Enter(timer));
        if w2.phase == Stopped then (o2, w2) else
          var (o3, w3) := Served(reuse, o2, me, w2, events);
          Local(reuse, o3, me, w3, Leave(untimer))
  }

  /** The lock word in shared memory. */
  class Mutex {
    var owner: Owner

    constructor ()
      ensures owner == Free
    {
      owner := Free;
    }
  }

  class Process {
    const me: nat
    const reuse: seq<bool>
    const mutex: Mutex
    const armed: array<bool>
    var held: bool
    var disabled: int
    var error: bool

    predicate Valid()
      reads this
    {
      armed.Length == |reuse|
    }

    function View(phase: Phase): Worker
      reads this, armed
    {
      Worker(phase, held, disabled, armed[..], error)
    }

    constructor (me: nat, reuse: seq<bool>, mutex: Mutex)
      ensures Valid() && fresh(armed) && this.me == me && this.reuse == reuse && this.mutex == mutex
      ensures View(Idle) == Worker(Idle, false, 0, reuse, false)
    {
      this.me, this.reuse, this.mutex := me, reuse, mutex;
      held, disabled, error := false, 0, false;
      armed := new bool[|reuse|](i requires 0 <= i < |reuse| => reuse[i]);
      new;
      assert armed[..] == reuse;
    }

    method TryLockMutex(arm: seq<bool>, disarm: seq<bool>) returns (ok: bool)
      requires Valid() && disabled <= 0 && |arm| == |reuse| == |disarm|
      modifies this, mutex, armed
      ensures (mutex.owner, View(if ok then Ready else Stopped)) ==
        Tried(reuse, old(mutex.owner), me, old(View(Idle)), arm, disarm)
    {
      if mutex.owner.Free? {
        mutex.owner := By(me);
        if held {
          return true;
        }
        var resumed := L.Resume(armed, arm);
        if !resumed {
          mutex.owner := Free;
          error := true;
          return false;
        }
        held := true;
        return true;
      }
      if held {
        var paused := L.Pause(armed, reuse, false, disarm);
        if !paused {
          error := true;
          return false;
        }
        held := false;
      }
      return true;
    }

    method UnlockMutex()
      modifies mutex
      ensures mutex.owner == Free
    {
      mutex.owner := Free;
    }

    /** The error handler around the main loop: the lock is given back, whoever owns it. */
    method CatchError(ghost phase: Phase)
      requires Valid() && phase != Stopped
      modifies mutex
      ensures (mutex.owner, View(Stopped)) == Local(reuse, old(mutex.owner), me, old(View(phase)), Throw)
    {
      UnlockMutex();
    }

    /** `accept` has failed for want of a descriptor. */
    method OutOfFiles(works: seq<bool>, ghost phase: Phase, listener: nat)
      requires Valid() && Enabled(reuse, View(phase), NoFiles(listener, works))
      modifies this, mutex, armed
      ensures (mutex.owner, View(phase)) ==
        Local(reuse, old(mutex.owner), me, old(View(phase)), NoFiles(listener, works))
    {
      var paused := L.Pause(armed, reuse, true, works);
      if !paused {
        error := true;
        return;
      }
      disabled := 1;
      if held {
        held := false;
        UnlockMutex();
      }
    }

    method Serve(events: seq<Move>, ghost phase: Phase)
      requires Valid() && (phase == Dispatching || phase == Short)
      modifies this, mutex, armed
      ensures (mutex.owner, View(phase)) == Served(reuse, old(mutex.owner), me, old(View(phase)), events)
    {
      hide Local;
      hide Served;
      ghost var owner0, w0 := mutex.owner, View(phase);
      var k := 0;
      assert events[0..] == events;
      while k < |events|
        invariant 0 <= k <= |events| && Valid()
        invariant Served(reuse, mutex.owner, me, View(phase), events[k..]) == Served(reuse, owner0, me, w0, events)
      {
        ghost var owner, w := mutex.owner, View(phase);
        ServedStep(reuse, owner, me, w, events, k);
        match events[k] {
          case Accepted(listener, d) =>
            if listener < armed.Length && armed[listener] {
              AcceptedStep(reuse, owner, me, w, listener, d);
              disabled := d;
            }
          case NoFiles(listener, works) =>
            if listener < armed.Length && armed[listener] && |works| == |reuse| {
              OutOfFiles(works, phase, listener);
            }
          case _ =>
        }
        k := k + 1;
      }
      assert events[k..] == [];
      ServedNone(reuse, mutex.owner, me, View(phase));
    }

    method DispatchRound(arm: seq<bool>, disarm: seq<bool>, timer: bool, untimer: bool, events: seq<Move>) returns (phase: Phase)
      requires Valid() && |arm| == |reuse| == |disarm|
      modifies this, mutex, armed
      ensures phase == Idle || phase == Stopped
      ensures (mutex.owner, View(phase)) == Round(reuse, old(mutex.owner), me, old(View(Idle)), arm, disarm, timer, untimer, events)
    {
      hide Tried;
      hide Served;
      if disabled > 0 {
        disabled := disabled - 1;
        Serve(events, Short);
        return if error then Stopped else Idle;
      }
      var tried := TryLockMutex(arm, disarm);
      if !tried {
        return Stopped;
      }
      if !held && !timer {
        return Stopped;
      }
      Serve(events, Dispatching);
      if held {
        UnlockMutex();
      } else if !untimer {
        return Stopped;
      }
      return if error then Stopped else Idle;
    }
  }

  lemma ServedStep(reuse: seq<bool>, owner: Owner, me: nat, w: Worker, events: seq<Move>, k: nat)
    requires InLoop(w) && |w.armed| == |reuse| && k < |events|
    ensures Served(reuse, owner, me, w, events[k..]) ==
      if Serves(events[k]) && Enabled(reuse, w, events[k]) then
        (var (o, v) := Local(reuse, owner, me, w, events[k]); Served(reuse, o, me, v, events[k + 1..]))
      else Served(reuse, owner, me, w, events[k + 1..])
  {
    assert events[k..][1..] == events[k + 1..];
  }

  lemma ServedNone(reuse: seq<bool>, owner: Owner, me: nat, w: Worker)
    requires InLoop(w) && |w.armed| == |reuse|
    ensures Served(reuse, owner, me, w, []) == (owner, w)
  {
  }

  lemma AcceptedStep(reuse: seq<bool>, owner: Owner, me: nat, w: Worker, listener: nat, d: int)
    requires Enabled(reuse, w, Accepted(listener, d))
    ensures Local(reuse, owner, me, w, Accepted(listener, d)) == (owner, w.(disabled := d))
  {
  }

  // ----- progress -----

  /** None of the events is one the worker serves: nothing is accepted and no descriptor is missing. */
  predicate NothingServed(reuse: seq<bool>, w: Worker, events: seq<Move>)
  {
    forall k :: 0 <= k < |events| ==> !(Serves(events[k]) && Enabled(reuse, w, events[k]))
  }

  lemma {:induction false} ServedNothing(reuse: seq<bool>, owner: Owner, me: nat, w: Worker, events: seq<Move>)
    requires InLoop(w) && |w.armed| == |reuse| && NothingServed(reuse, w, events)
    ensures Served(reuse, owner, me, w, events) == (owner, w)
    decreases |events|
  {
    if events != [] {
      ServedNothing(reuse, owner, me, w, events[1..]);
    }
  }

  /** The rounds of one worker in which nothing is served; `es[k]` are the events of round `k`. */
  function Rounds(reuse: seq<bool>, owner: Owner, me: nat, w: Worker, arm: seq<bool>, disarm: seq<bool>, es: seq<seq<Move>>)
    : (r: (Owner, Worker))
    requires w.phase == Idle && |w.armed| == |reuse| == |arm| == |disarm|
    decreases |es|
  {
    if es == [] then (owner, w) else
      var (o, v) := Round(reuse, owner, me, w, arm, disarm, true, true, es[0]);
      if v.phase != Idle || |v.armed| != |reuse| then (o, v) else Rounds(reuse, o, me, v, arm, disarm, es[1..])
  }

  ghost predicate AllQuiet(reuse: seq<bool>, w: Worker, es: seq<seq<Move>>)
  {
    forall k, d :: 0 <= k < |es| ==> NothingServed(reuse, w.(phase := Short, disabled := d), es[k])
  }

  /** A worker that is to sit out `d` rounds leaves the lock alone for exactly that many, and then tries to take it. */
  lemma {:induction false} TriesAgain(reuse: seq<bool>, owner: Owner, me: nat, w: Worker, arm: seq<bool>, disarm: seq<bool>,
                                      es: seq<seq<Move>>)
    requires w.phase == Idle && !w.error && |w.armed| == |reuse| == |arm| == |disarm|
    requires w.disabled == |es| && AllQuiet(reuse, w, es)
    ensures Rounds(reuse, owner, me, w, arm, disarm, es) == (owner, w.(disabled := 0))
    ensures var v := w.(disabled := 0);
      Enabled(reuse, v, Begin) &&
      Local(reuse, owner, me, v, Begin) == if owner == Free then (By(me), v.(phase := Won)) else (owner, v.(phase := Lost))
    decreases |es|
  {
    if es != [] {
      var v := w.(disabled := w.disabled - 1);
      ServedNothing(reuse, owner, me, v.(phase := Short), es[0]);
      assert Round(reuse, owner, me, w, arm, disarm, true, true, es[0]) == (owner, v);
      assert forall k :: 0 <= k < |es[1..]| ==> es[1..][k] == es[k + 1];
      TriesAgain(reuse, owner, me, v, arm, disarm, es[1..]);
    }
  }

  /** Out of descriptors: every listener is disarmed, the lock is given back if it was held, and one round is sat out. */
  lemma BacksOff(reuse: seq<bool>, owner: Owner, me: nat, w: Worker, listener: nat, works: seq<bool>)
    requires Enabled(reuse, w, NoFiles(listener, works)) && L.Paused(w.armed, reuse, true, works).1
    ensures var (o, v) := Local(reuse, owner, me, w, NoFiles(listener, works));
      && !v.held && v.disabled == 1 && o == (if w.held then Free else owner)
      && (forall k :: 0 <= k < |v.armed| ==> !v.armed[k]) && v.phase == w.phase && v.error == w.error
  {
    L.PausedDisarms(w.armed, reuse, true, works);
  }
}
