/** The accept mutex as a protocol: interleaved steps of any number of workers that share one
    try-lock. Every step is one worker's, and touches the lock at most once. */
module Acceptor {
  import opened Listeners

  /** Where a worker stands in its round. */
  datatype Phase =
    | Idle         // between two rounds
    | Short        // in the event loop without having tried the lock
    | Won          // has just taken the lock
    | Failing      // could not arm its listeners, has the lock still to release
    | Lost         // has just failed to take the lock
    | Ready        // about to enter the event loop
    | Dispatching  // in the event loop
    | Stopped      // has left its main loop

  datatype Worker = Worker(phase: Phase, held: bool, disabled: int, armed: seq<bool>, error: bool)

  datatype Owner = Free | By(worker: nat)

  /** The lock word is set exactly when there is an owner; who it is matters to the proofs only. */
  datatype State = State(owner: Owner, workers: seq<Worker>)

  datatype Move =
    | Begin
    | Arm(works: seq<bool>)
    | Release
    | Disarm(works: seq<bool>)
    | Enter(timer: bool)
    | Accepted(listener: nat, disabled: int)
    | NoFiles(listener: nat, works: seq<bool>)
    | Leave(timer: bool)
    | Quit
    | Throw

  predicate InLoop(w: Worker) { w.phase == Dispatching || w.phase == Short }

  predicate Enabled(reuse: seq<bool>, w: Worker, m: Move)
  {
    |w.armed| == |reuse| &&
    match m
    case Begin => w.phase == Idle
    case Arm(works) => w.phase == Won && |works| == |reuse|
    case Release => w.phase == Failing
    case Disarm(works) => w.phase == Lost && |works| == |reuse|
    case Enter(_) => w.phase == Ready
    case Accepted(k, _) => InLoop(w) && k < |w.armed| && w.armed[k]
    case NoFiles(k, works) => InLoop(w) && k < |w.armed| && w.armed[k] && |works| == |reuse|
    case Leave(_) => InLoop(w)
    case Quit => w.phase == Idle
    case Throw => w.phase != Stopped
  }

  /** One step of worker `me`: the owner of the lock and the worker's own variables afterwards. */
  function Local(reuse: seq<bool>, owner: Owner, me: nat, w: Worker, m: Move): (r: (Owner, Worker))
    requires Enabled(reuse, w, m)
    ensures |r.1.armed| == |reuse|
  {
    match m
    case Begin =>
      if w.disabled > 0 then (owner, w.(disabled := w.disabled - 1, phase := Short))
      else if owner.Free? then (By(me), w.(phase := Won))
      else (owner, w.(phase := Lost))
    case Arm(works) =>
      if w.held then (owner, w.(phase := Ready))
      else
        var (armed, ok) := Resumed(w.armed, works);
        if ok then (owner, w.(armed := armed, held := true, phase := Ready))
        else (owner, w.(armed := armed, phase := Failing))
    case Release => (Free, w.(error := true, phase := Stopped))
    case Disarm(works) =>
      if !w.held then (owner, w.(phase := Ready))
      else
        var (armed, ok) := Paused(w.armed, reuse, false, works);
        if ok then (owner, w.(armed := armed, held := false, phase := Ready))
        else (owner, w.(armed := armed, error := true, phase := Stopped))
    case Enter(timer) =>
      if !w.held && !timer then (owner, w.(phase := Stopped)) else (owner, w.(phase := Dispatching))
    case Accepted(_, disabled) => (owner, w.(disabled := disabled))
    case NoFiles(_, works) =>
      var (armed, ok) := Paused(w.armed, reuse, true, works);
      if !ok then (owner, w.(armed := armed, error := true))
      else if w.held then (Free, w.(armed := armed, disabled := 1, held := false))
      else (owner, w.(armed := armed, disabled := 1))
    case Leave(timer) =>
      if w.phase == Short then (owner, w.(phase := if w.error then Stopped else Idle))
      else if w.held then (Free, w.(phase := if w.error then Stopped else Idle))
      else (owner, w.(phase := if w.error || !timer then Stopped else Idle))
    case Quit => (owner, w.(phase := Stopped))
    case Throw => (Free, w.(phase := Stopped))
  }

  /** A step of the whole system: worker `me` makes move `m`. */
  datatype Action = Action(me: nat, move: Move)

  predicate Can(reuse: seq<bool>, st: State, a: Action)
  {
    a.me < |st.workers| && Enabled(reuse, st.workers[a.me], a.move)
  }

  function Step(reuse: seq<bool>, st: State, a: Action): State
    requires Can(reuse, st, a)
  {
    var (owner, w) := Local(reuse, st.owner, a.me, st.workers[a.me], a.move);
    State(owner, st.workers[a.me := w])
  }

  /** Listeners with `SO_REUSEPORT` are armed from the start, the others are not. */
  predicate Initial(reuse: seq<bool>, st: State)
  {
    st.owner == Free && forall w :: 0 <= w < |st.workers| ==> st.workers[w] == Worker(Idle, false, 0, reuse, false)
  }

  /** A run: `states[k + 1]` comes from `states[k]` by `actions[k]`. */
  predicate IsRun(reuse: seq<bool>, states: seq<State>, actions: seq<Action>)
  {
    |states| == |actions| + 1 && Initial(reuse, states[0])
    && forall k :: 0 <= k < |actions| ==> Follows(reuse, states[k], actions[k], states[k + 1])
  }

  predicate Follows(reuse: seq<bool>, st: State, a: Action, next: State)
  {
    Can(reuse, st, a) && next == Step(reuse, st, a)
  }

  // ----- what is promised -----

  /** The worker serves events while a listener that is shared between workers is armed. */
  predicate Accepting(reuse: seq<bool>, w: Worker)
  {
    InLoop(w) && |w.armed| == |reuse| && !Quiet(w.armed, reuse)
  }

  /** The worker has taken the lock and not given it back. */
  predicate Owns(w: Worker)
  {
    w.phase == Won || w.phase == Failing || ((w.phase == Ready || w.phase == Dispatching) && w.held)
  }

  /** Only the lock's owner accepts, who has taken the lock owns it, and nobody owns it between two rounds. */
  predicate Safe(reuse: seq<bool>, st: State)
  {
    forall w :: 0 <= w < |st.workers| ==> SafeWorker(reuse, st.owner, w, st.workers[w])
  }

  predicate SafeWorker(reuse: seq<bool>, owner: Owner, me: nat, w: Worker)
  {
    && (Accepting(reuse, w) ==> owner == By(me))
    && (Owns(w) ==> owner == By(me))
    && (w.phase == Idle || w.phase == Stopped ==> owner != By(me))
  }

  lemma OneAccepts(reuse: seq<bool>, st: State, a: nat, b: nat)
    requires Safe(reuse, st) && a < |st.workers| && b < |st.workers|
    requires Accepting(reuse, st.workers[a]) && Accepting(reuse, st.workers[b])
    ensures a == b
  {
    assert SafeWorker(reuse, st.owner, a, st.workers[a]) && SafeWorker(reuse, st.owner, b, st.workers[b]);
  }

  /** The lock is skipped by a worker whose listeners are armed from the round before. */
  predicate Skips(st: State, a: Action)
  {
    a.me < |st.workers| && a.move.Begin? && st.workers[a.me].disabled > 0 && st.workers[a.me].held
  }

  /** A worker that is thrown out of its loop gives back a lock that another one owns. */
  predicate Steals(st: State, a: Action)
  {
    a.move.Throw? && st.owner.By? && st.owner.worker != a.me
  }

  // ----- the invariant -----

  predicate GoodWorker(reuse: seq<bool>, owner: Owner, me: nat, w: Worker)
  {
    && |w.armed| == |reuse|
    && (owner == By(me) <==> Owns(w))
    && (!w.held && w.phase != Failing && w.phase != Stopped ==> Quiet(w.armed, reuse))
    && (w.phase == Short || w.phase == Failing ==> !w.held)
    && (w.error ==> InLoop(w) || w.phase == Stopped)
    && (w.held && !w.error && w.phase != Stopped ==> AllArmed(w.armed))
  }

  predicate Good(reuse: seq<bool>, st: State)
  {
    && (forall w :: 0 <= w < |st.workers| ==> GoodWorker(reuse, st.owner, w, st.workers[w]))
    && (st.owner.By? ==> st.owner.worker < |st.workers|)
  }

  /** A worker's own step keeps what holds of it. */
  lemma LocalGood(reuse: seq<bool>, owner: Owner, me: nat, w: Worker, m: Move)
    requires GoodWorker(reuse, owner, me, w) && Enabled(reuse, w, m)
    requires !(m.Begin? && w.disabled > 0 && w.held) && (m.Throw? && owner.By? ==> owner == By(me))
    ensures GoodWorker(reuse, Local(reuse, owner, me, w, m).0, me, Local(reuse, owner, me, w, m).1)
  {
    hide Resumed;
    hide Paused;
    hide Quiet;
    hide AllArmed;
    match m
    case Arm(works) =>
      if !w.held && Resumed(w.armed, works).1 {
        ResumedArmsAll(w.armed, works);
      }
    case Disarm(works) =>
      if w.held && Paused(w.armed, reuse, false, works).1 {
        PausedDisarms(w.armed, reuse, false, works);
      }
    case NoFiles(_, works) =>
      if Paused(w.armed, reuse, true, works).1 {
        PausedDisarms(w.armed, reuse, true, works);
      } else {
        QuietPaused(w.armed, reuse, true, works);
      }
    case _ =>
  }

  lemma QuietPaused(armed: seq<bool>, reuse: seq<bool>, all: bool, works: seq<bool>)
    requires |armed| == |reuse| == |works|
    ensures Quiet(armed, reuse) ==> Quiet(Paused(armed, reuse, all, works).0, reuse)
  {
    PausedKeeps(armed, reuse, all, works);
  }

  /** A worker only ever takes a free lock for itself, and only gives back its own. */
  lemma LocalOwner(reuse: seq<bool>, owner: Owner, me: nat, w: Worker, m: Move)
    requires GoodWorker(reuse, owner, me, w) && Enabled(reuse, w, m)
    requires !(m.Begin? && w.disabled > 0 && w.held) && (m.Throw? && owner.By? ==> owner == By(me))
    ensures var next := Local(reuse, owner, me, w, m).0;
      next == owner || (owner == Free && next == By(me)) || (owner == By(me) && next == Free)
  {
  }

  lemma StepGood(reuse: seq<bool>, st: State, a: Action)
    requires Good(reuse, st) && Can(reuse, st, a) && !Skips(st, a) && !Steals(st, a)
    ensures Good(reuse, Step(reuse, st, a))
  {
    hide Local;
    hide Enabled;
    var w := st.workers[a.me];
    var next := Step(reuse, st, a);
    LocalGood(reuse, st.owner, a.me, w, a.move);
    LocalOwner(reuse, st.owner, a.me, w, a.move);
    forall v | 0 <= v < |next.workers| ensures GoodWorker(reuse, next.owner, v, next.workers[v]) {
      if v != a.me {
        assert GoodWorker(reuse, st.owner, v, st.workers[v]);
      }
    }
  }

  lemma GoodSafe(reuse: seq<bool>, st: State)
    requires Good(reuse, st)
    ensures Safe(reuse, st)
  {
    hide Quiet;
    hide AllArmed;
    forall w | 0 <= w < |st.workers| ensures SafeWorker(reuse, st.owner, w, st.workers[w]) {
      assert GoodWorker(reuse, st.owner, w, st.workers[w]);
    }
  }

  lemma {:induction false} RunGood(reuse: seq<bool>, states: seq<State>, actions: seq<Action>, k: nat)
    requires IsRun(reuse, states, actions) && k < |states|
    requires forall j :: 0 <= j < k ==> !Breaks(states[j], actions[j])
    ensures Good(reuse, states[k])
  {
    if k > 0 {
      RunGood(reuse, states, actions, k - 1);
      assert Follows(reuse, states[k - 1], actions[k - 1], states[k]);
      StepGood(reuse, states[k - 1], actions[k - 1]);
    }
  }

  /** Giving back another worker's lock breaks the promise at once. */
  lemma StealUnsafe(reuse: seq<bool>, st: State, a: Action)
    requires Good(reuse, st) && Can(reuse, st, a) && Steals(st, a)
    ensures !Safe(reuse, Step(reuse, st, a))
  {
    var o := st.owner.worker;
    assert GoodWorker(reuse, st.owner, o, st.workers[o]);
    var next := Step(reuse, st, a);
    assert next.workers[o] == st.workers[o];
    assert !SafeWorker(reuse, next.owner, o, next.workers[o]);
  }

  /** One of the two ways to break the promise. */
  predicate Breaks(st: State, a: Action)
  {
    Skips(st, a) || Steals(st, a)
  }

  /** Skipping the lock with armed listeners breaks the promise at once. */
  lemma SkipUnsafe(reuse: seq<bool>, st: State, a: Action)
    requires Good(reuse, st) && Can(reuse, st, a) && Skips(st, a) && false in reuse
    ensures !Safe(reuse, Step(reuse, st, a))
  {
    var w := st.workers[a.me];
    assert GoodWorker(reuse, st.owner, a.me, w);
    var k :| 0 <= k < |reuse| && reuse[k] == false;
    assert w.armed[k];
    var next := Step(reuse, st, a);
    assert !SafeWorker(reuse, next.owner, a.me, next.workers[a.me]);
  }

  /** Accept mutual exclusion, exactly: a run of any number of workers is safe in all its states if and
      only if no worker skips the lock, because `pgrest_acceptor_disabled` is positive, while it
      still counts as holding it, and none is thrown out of its loop while another one owns it. */
  lemma SafeExactly(reuse: seq<bool>, states: seq<State>, actions: seq<Action>)
    requires IsRun(reuse, states, actions) && false in reuse
    ensures (forall k :: 0 <= k < |states| ==> Safe(reuse, states[k]))
       <==> (forall k :: 0 <= k < |actions| ==> !Breaks(states[k], actions[k]))
  {
    hide Safe;
    hide Good;
    hide Breaks;
    if forall k :: 0 <= k < |actions| ==> !Breaks(states[k], actions[k]) {
      forall k | 0 <= k < |states| ensures Safe(reuse, states[k]) {
        RunGood(reuse, states, actions, k);
        GoodSafe(reuse, states[k]);
      }
    } else {
      var k :| 0 <= k < |actions| && Breaks(states[k], actions[k]);
      var j := FirstBreak(states, actions, k);
      RunGood(reuse, states, actions, j);
      assert Follows(reuse, states[j], actions[j], states[j + 1]);
      BreakUnsafe(reuse, states[j], actions[j]);
      assert !Safe(reuse, states[j + 1]);
    }
  }

  lemma BreakUnsafe(reuse: seq<bool>, st: State, a: Action)
    requires Good(reuse, st) && Can(reuse, st, a) && Breaks(st, a) && false in reuse
    ensures !Safe(reuse, Step(reuse, st, a))
  {
    if Skips(st, a) {
      SkipUnsafe(reuse, st, a);
    } else {
      StealUnsafe(reuse, st, a);
    }
  }

  lemma {:induction false} FirstBreak(states: seq<State>, actions: seq<Action>, k: nat) returns (j: nat)
    requires |actions| < |states| && k < |actions| && Breaks(states[k], actions[k])
    ensures j <= k && Breaks(states[j], actions[j]) && forall i :: 0 <= i < j ==> !Breaks(states[i], actions[i])
  {
    if i :| 0 <= i < k && Breaks(states[i], actions[i]) {
      j := FirstBreak(states, actions, i);
    } else {
      j := k;
    }
  }

  // ----- enough free connections -----

  /** After an accept the count is positive only if fewer than an eighth of the connections is free. */
  predicate Spare(a: Action)
  {
    a.move.Accepted? ==> a.move.disabled <= 0
  }

  predicate Calm(w: Worker)
  {
    w.held || w.phase == Won ==> w.disabled <= 0
  }

  lemma CalmStep(reuse: seq<bool>, st: State, a: Action)
    requires Can(reuse, st, a) && Spare(a) && forall w :: 0 <= w < |st.workers| ==> Calm(st.workers[w])
    ensures forall w :: 0 <= w < |st.workers| ==> Calm(Step(reuse, st, a).workers[w])
  {
  }

  lemma {:induction false} CalmRun(reuse: seq<bool>, states: seq<State>, actions: seq<Action>, k: nat)
    requires IsRun(reuse, states, actions) && k < |states| && forall j :: 0 <= j < |actions| ==> Spare(actions[j])
    ensures forall w :: 0 <= w < |states[k].workers| ==> Calm(states[k].workers[w])
  {
    if k > 0 {
      CalmRun(reuse, states, actions, k - 1);
      assert Follows(reuse, states[k - 1], actions[k - 1], states[k]);
      CalmStep(reuse, states[k - 1], actions[k - 1]);
    }
  }

  /** As long as every accept leaves an eighth of the connections free, every run is safe in which no worker is
      thrown out while another one owns the lock. */
  lemma SpareSafe(reuse: seq<bool>, states: seq<State>, actions: seq<Action>, k: nat)
    requires IsRun(reuse, states, actions) && k < |states| && forall j :: 0 <= j < |actions| ==> Spare(actions[j])
    requires forall j :: 0 <= j < |actions| ==> !Steals(states[j], actions[j])
    ensures Safe(reuse, states[k])
  {
    hide Calm;
    forall j | 0 <= j < k ensures !Breaks(states[j], actions[j]) {
      CalmRun(reuse, states, actions, j);
      if Skips(states[j], actions[j]) {
        NotCalm(states[j].workers[actions[j].me]);
      }
    }
    RunGood(reuse, states, actions, k);
    GoodSafe(reuse, states[k]);
  }

  lemma NotCalm(w: Worker)
    requires w.disabled > 0 && w.held
    ensures !Calm(w)
  {
  }

  // ----- two workers accept at once -----

  /** One worker accepts a connection while few are left, ends its round and skips the lock in the next
      round; a second worker then takes the lock. Both accept on the same listener. */
  lemma TwoAccept(reuse: seq<bool>) returns (states: seq<State>, actions: seq<Action>)
    requires reuse == [false]
    ensures IsRun(reuse, states, actions)
    ensures var last := states[|actions|];
      |last.workers| == 2 && Accepting(reuse, last.workers[0]) && Accepting(reuse, last.workers[1])
  {
    hide IsRun;
    hide Resumed;
    var w := Worker(Idle, false, 0, [false], false);
    var armed := Worker(Idle, true, 0, [true], false);
    var short := armed.(phase := Short);
    var s0 := State(Free, [w, w]);
    var s1 := State(By(0), [w.(phase := Won), w]);
    var s2 := State(By(0), [armed.(phase := Ready), w]);
    var s3 := State(By(0), [armed.(phase := Dispatching), w]);
    var s4 := State(By(0), [armed.(phase := Dispatching, disabled := 1), w]);
    var s5 := State(Free, [armed.(disabled := 1), w]);
    var s6 := State(Free, [short, w]);
    var s7 := State(By(1), [short, w.(phase := Won)]);
    var s8 := State(By(1), [short, armed.(phase := Ready)]);
    var s9 := State(By(1), [short, armed.(phase := Dispatching)]);
    states, actions := [s0], [];
    RunStart(reuse, s0);
    ResumeOne([false], [true]);
    states, actions := RunMore(reuse, states, actions, Action(0, Begin), s1);
    states, actions := RunMore(reuse, states, actions, Action(0, Arm([true])), s2);
    states, actions := RunMore(reuse, states, actions, Action(0, Enter(true)), s3);
    states, actions := RunMore(reuse, states, actions, Action(0, Accepted(0, 1)), s4);
    states, actions := RunMore(reuse, states, actions, Action(0, Leave(true)), s5);
    states, actions := RunMore(reuse, states, actions, Action(0, Begin), s6);
    states, actions := RunMore(reuse, states, actions, Action(1, Begin), s7);
    states, actions := RunMore(reuse, states, actions, Action(1, Arm([true])), s8);
    states, actions := RunMore(reuse, states, actions, Action(1, Enter(true)), s9);
    assert !Quiet([true], reuse) by { assert [true][0] && !reuse[0]; }
  }

  /** A worker that missed the lock is thrown out and gives back the lock of the first; a third one takes it.
      Two workers accept on the same listener. */
  lemma TwoAcceptAfterThrow(reuse: seq<bool>) returns (states: seq<State>, actions: seq<Action>)
    requires reuse == [false]
    ensures IsRun(reuse, states, actions)
    ensures var last := states[|actions|];
      |last.workers| == 3 && Accepting(reuse, last.workers[0]) && Accepting(reuse, last.workers[2])
  {
    hide IsRun;
    hide Resumed;
    var w := Worker(Idle, false, 0, [false], false);
    var armed := Worker(Idle, true, 0, [true], false);
    var busy, out := armed.(phase := Dispatching), w.(phase := Stopped);
    var s0 := State(Free, [w, w, w]);
    states, actions := [s0], [];
    RunStart(reuse, s0);
    ResumeOne([false], [true]);
    states, actions := RunMore(reuse, states, actions, Action(0, Begin), State(By(0), [w.(phase := Won), w, w]));
    states, actions := RunMore(reuse, states, actions, Action(0, Arm([true])), State(By(0), [armed.(phase := Ready), w, w]));
    states, actions := RunMore(reuse, states, actions, Action(0, Enter(true)), State(By(0), [busy, w, w]));
    states, actions := RunMore(reuse, states, actions, Action(1, Begin), State(By(0), [busy, w.(phase := Lost), w]));
    states, actions := RunMore(reuse, states, actions, Action(1, Throw), State(Free, [busy, out, w]));
    states, actions := RunMore(reuse, states, actions, Action(2, Begin), State(By(2), [busy, out, w.(phase := Won)]));
    states, actions := RunMore(reuse, states, actions, Action(2, Arm([true])), State(By(2), [busy, out, armed.(phase := Ready)]));
    states, actions := RunMore(reuse, states, actions, Action(2, Enter(true)), State(By(2), [busy, out, busy]));
    assert !Quiet([true], reuse) by { assert [true][0] && !reuse[0]; }
  }

  lemma ResumeOne(armed: seq<bool>, works: seq<bool>)
    requires armed == [false] && works == [true]
    ensures Resumed(armed, works) == ([true], true)
  {
    var t := Resumed(armed[1..], works[1..]);
    assert t.0 == [] && t.1;
    assert [true] + t.0 == [true];
  }

  lemma RunStart(reuse: seq<bool>, st: State)
    requires Initial(reuse, st)
    ensures IsRun(reuse, [st], [])
  {
  }

  lemma RunMore(reuse: seq<bool>, states: seq<State>, actions: seq<Action>, a: Action, next: State)
      returns (states': seq<State>, actions': seq<Action>)
    requires IsRun(reuse, states, actions) && |states| == |actions| + 1
    requires Can(reuse, states[|actions|], a) && Step(reuse, states[|actions|], a) == next
    ensures IsRun(reuse, states', actions')
    ensures states' == states + [next] && actions' == actions + [a]
    ensures |states'| == |actions'| + 1 && states'[|actions'|] == next
  {
    states', actions' := states + [next], actions + [a];
  }
}
