/** c/example/multiprocess.c: the fork loop, its SIGCHLD handler and the kernel as one transition system. */
module Multiprocess {

  /** Where the parent stands: at the test of the inner loop, in sigsuspend, in the handler, or between counting the
      child and fork. */
  datatype Place = LoopHead | Suspended | Handler | Counted

  /** `numChild` is the program's counter. The kernel knows the running children, the exited ones that have not been
      waited for, and whether SIGCHLD is pending; several exits leave one pending signal. */
  datatype State = State(place: Place, numChild: nat, running: nat, exited: nat, pending: bool)

  datatype Action =
    Pause | Count | ForkSucceeds | ForkFails | Deliver | Reap | HandlerReturns | ChildExits | ChildStops | Interrupted

  function Start(): State {
    State(LoopHead, 0, 0, 0, false)
  }

  /** SIGCHLD is blocked outside sigsuspend, and in its own handler. As the handler is installed without flags, a child
      that is stopped or continued raises SIGCHLD too, but waitpid does not report it. */
  predicate Enabled(limit: nat, s: State, a: Action) {
    match a
    case Pause => s.place == LoopHead && s.numChild >= limit
    case Count => s.place == LoopHead && s.numChild < limit
    case ForkSucceeds => s.place == Counted
    case ForkFails => s.place == Counted
    case Deliver => s.place == Suspended && s.pending
    case Reap => s.place == Handler && s.exited > 0
    case HandlerReturns => s.place == Handler && s.exited == 0
    case ChildExits | ChildStops => s.running > 0
    case Interrupted => s.place == Suspended
  }

  /** The program's decrements: the handler's is guarded, and both are done on an `unsigned long`. */
  function Less(numChild: nat): nat {
    if numChild > 0 then numChild - 1 else 0xffff_ffff_ffff_ffff
  }

  function Apply(s: State, a: Action): State {
    match a
    case Pause => s.(place := Suspended)
    case Count => s.(place := Counted, numChild := s.numChild + 1)
    case ForkSucceeds => s.(place := LoopHead, running := s.running + 1)
    case ForkFails => s.(place := LoopHead, numChild := Less(s.numChild))
    case Deliver => s.(place := Handler, pending := false)
    case Reap =>
      s.(exited := if s.exited > 0 then s.exited - 1 else 0,
         numChild := if s.numChild > 0 then Less(s.numChild) else s.numChild)
    case HandlerReturns => s.(place := LoopHead)
    case ChildExits =>
      s.(running := if s.running > 0 then s.running - 1 else 0, exited := s.exited + 1, pending := true)
    case ChildStops => s.(pending := true)
    case Interrupted => s.(place := LoopHead)
  }

  /** The state after a run of the system, if each of its actions was enabled. */
  ghost predicate Run(limit: nat, s: State, actions: seq<Action>, t: State)
    decreases |actions|
  {
    if actions == [] then t == s
    else Enabled(limit, s, actions[0]) && Run(limit, Apply(s, actions[0]), actions[1..], t)
  }

  ghost predicate Reachable(limit: nat, s: State) {
    exists actions :: Run(limit, Start(), actions, s)
  }

  // ---------- Safety ----------

  /** The children that exist: running, or exited and not waited for. */
  function Children(s: State): nat {
    s.running + s.exited
  }

  /** The counter counts the children, one too many just before fork; it never passes the limit, and in sigsuspend it
      has reached it. Outside the handler an exited child has its signal pending. */
  ghost predicate Inv(limit: nat, s: State) {
    && s.numChild == Children(s) + (if s.place == Counted then 1 else 0)
    && s.numChild <= limit
    && (s.place == Suspended ==> s.numChild == limit)
    && (s.exited > 0 && s.place != Handler ==> s.pending)
  }

  lemma {:induction false} InvStep(limit: nat, s: State, a: Action)
    requires Inv(limit, s) && Enabled(limit, s, a)
    ensures Inv(limit, Apply(s, a))
  {
  }

  lemma {:induction false} InvRun(limit: nat, s: State, actions: seq<Action>, t: State)
    requires Inv(limit, s) && Run(limit, s, actions, t)
    ensures Inv(limit, t)
    decreases |actions|
  {
    if actions != [] {
      InvStep(limit, s, actions[0]);
      InvRun(limit, Apply(s, actions[0]), actions[1..], t);
    }
  }

  lemma {:induction false} InvStart(limit: nat, s: State)
    requires s.place == LoopHead && s.numChild == 0 && Children(s) == 0
    ensures Inv(limit, s)
  {
  }

  lemma {:induction false} StartIs()
    ensures Start().place == LoopHead && Start().numChild == 0 && Children(Start()) == 0
  {
    hide Run, Reachable, Enabled, Apply, Inv, Less;
  }

  lemma {:induction false} InvHolds(limit: nat, s: State)
    requires Reachable(limit, s)
    ensures Inv(limit, s)
  {
    hide Run, Inv, Start, Enabled, Apply, Children;
    StartIs();
    InvStart(limit, Start());
    var actions :| Run(limit, Start(), actions, s);
    InvRun(limit, Start(), actions, s);
  }

  /** In every reachable state there are at most `limit` children, and at the loop head the counter is their number. */
  lemma {:induction false} Bounded(limit: nat, s: State)
    requires Reachable(limit, s)
    ensures Children(s) <= limit
    ensures s.place == LoopHead ==> s.numChild == Children(s)
    ensures s.place == Counted ==> s.numChild == Children(s) + 1 <= limit
  {
    hide Reachable;
    InvHolds(limit, s);
  }

  /** No wake-up is lost: the parent never sleeps on an exited child without a pending signal, however many exits have
      been merged into one. */
  lemma {:induction false} NoLostWakeup(limit: nat, s: State)
    requires Reachable(limit, s) && s.place == Suspended && s.exited > 0
    ensures s.pending && Enabled(limit, s, Deliver)
  {
    hide Reachable;
    InvHolds(limit, s);
  }

  /** The handler's test of the counter before it decrements never fails, and fork's failure never wraps the counter. */
  lemma {:induction false} DecrementsAreSafe(limit: nat, s: State, a: Action)
    requires Reachable(limit, s) && Enabled(limit, s, a) && (a == Reap || a == ForkFails)
    ensures s.numChild > 0 && Apply(s, a).numChild == s.numChild - 1
  {
    hide Reachable;
    InvHolds(limit, s);
  }

  /** What can happen while the handler is at work. */
  predicate InHandler(a: Action) {
    a == Reap || a == ChildExits || a == ChildStops
  }

  /** The handler at work: it waits for children, and others exit or stop meanwhile. */
  lemma {:induction false} HandlerReaps(limit: nat, s: State, actions: seq<Action>, t: State)
    requires s.place == Handler && Inv(limit, s) && Run(limit, s, actions, t)
    requires forall a :: a in actions ==> InHandler(a)
    ensures t.place == Handler && Inv(limit, t) && t.numChild <= s.numChild
    ensures s.numChild - t.numChild >= s.exited - t.exited
    decreases |actions|
  {
    if actions != [] {
      assert actions[0] in actions && forall a :: a in actions[1..] ==> a in actions;
      InvStep(limit, s, actions[0]);
      HandlerReaps(limit, Apply(s, actions[0]), actions[1..], t);
    }
  }

  /** A parent woken by an exited child finds the loop open again: when the handler returns, the counter is below the
      limit. */
  lemma {:induction false} HandlerReopens(limit: nat, s: State, actions: seq<Action>, t: State)
    requires Reachable(limit, s) && s.exited > 0 && Enabled(limit, s, Deliver)
    requires Run(limit, Apply(s, Deliver), actions, t) && Enabled(limit, t, HandlerReturns)
    requires forall a :: a in actions ==> InHandler(a)
    ensures Enabled(limit, Apply(t, HandlerReturns), Count)
  {
    hide Run, Reachable;
    InvHolds(limit, s);
    InvStep(limit, s, Deliver);
    HandlerReaps(limit, Apply(s, Deliver), actions, t);
  }

  /** With a limit of zero the parent goes to sleep and nothing is ever forked. */
  lemma {:induction false} LimitZero(s: State, actions: seq<Action>)
    requires Run(0, Start(), actions, s)
    ensures s == Start() || s == Start().(place := Suspended)
  {
    ZeroRun(Start(), actions, s);
  }

  lemma {:induction false} ZeroRun(s: State, actions: seq<Action>, t: State)
    requires (s == Start() || s == Start().(place := Suspended)) && Run(0, s, actions, t)
    ensures t == Start() || t == Start().(place := Suspended)
    decreases |actions|
  {
    if actions != [] { ZeroRun(Apply(s, actions[0]), actions[1..], t); }
  }

  // ---------- Progress ----------

  /** The actions apart from those that lead to a fork. */
  predicate Forkless(a: Action) {
    a != Count && a != ForkSucceeds && a != ForkFails
  }

  /** What comes from outside: a signal that only interrupts, or a child that is stopped or continued. */
  predicate Disturbance(a: Action) {
    a == Interrupted || a == ChildStops
  }

  predicate Quiet(a: Action) {
    Forkless(a) && !Disturbance(a)
  }

  function Disturbances(actions: seq<Action>): (n: nat)
    ensures n <= |actions|
  {
    if actions == [] then 0 else (if Disturbance(actions[0]) then 1 else 0) + Disturbances(actions[1..])
  }

  function Measure(s: State): nat {
    5 * s.running + s.exited + (if s.pending then 3 else 0) +
    match s.place case Handler => 2 case LoopHead => 1 case _ => 0
  }

  /** A quiet action brings the next fork nearer; a disturbance sets it back by at most three actions. */
  lemma {:induction false} MeasureFalls(limit: nat, s: State, a: Action)
    requires Forkless(a) && Enabled(limit, s, a)
    ensures Measure(Apply(s, a)) + 1 <= Measure(s) + if Disturbance(a) then 4 else 0
  {
  }

  lemma {:induction false} ForklessRunsEnd(limit: nat, s: State, actions: seq<Action>, t: State)
    requires Run(limit, s, actions, t) && forall a :: a in actions ==> Forkless(a)
    ensures |actions| + Measure(t) <= Measure(s) + 4 * Disturbances(actions)
    decreases |actions|
  {
    if actions != [] {
      MeasureFalls(limit, s, actions[0]);
      ForklessRunsEnd(limit, Apply(s, actions[0]), actions[1..], t);
    }
  }

  /** The pool is never wedged: where nothing but forking and disturbances can happen, forking can happen. */
  lemma {:induction false} NeverWedged(limit: nat, s: State)
    requires limit > 0 && Inv(limit, s) && forall a :: Quiet(a) ==> !Enabled(limit, s, a)
    ensures s.place == Counted || Enabled(limit, s, Count)
  {
    assert !Enabled(limit, s, Deliver) && !Enabled(limit, s, Reap) && !Enabled(limit, s, HandlerReturns);
    assert !Enabled(limit, s, ChildExits) && !Enabled(limit, s, Pause);
  }

  /** Between two forks only a bounded number of actions can happen, apart from four for each disturbance, and when they
      are over the parent is about to fork again: no child's exit is ever missed for good. */
  lemma {:induction false} PoolKeepsForking(limit: nat, s: State, actions: seq<Action>, t: State)
    requires limit > 0 && Reachable(limit, s) && Run(limit, s, actions, t)
    requires forall a :: a in actions ==> Forkless(a)
    requires forall a :: Quiet(a) ==> !Enabled(limit, t, a)
    ensures |actions| <= Measure(s) + 4 * Disturbances(actions)
    ensures t.place == Counted || Enabled(limit, t, Count)
  {
    hide Run, Reachable, Inv, Enabled, Measure;
    InvHolds(limit, s);
    InvRun(limit, s, actions, t);
    ForklessRunsEnd(limit, s, actions, t);
    NeverWedged(limit, t);
  }
}
