/**
 How soon wait() returns.  When a child of a waiting task leaves or is killed, the waiter's flag drops
 in the same step.  Over every run that follows, the waiter runs again, its flag still down and the
 child's pid recorded, within 4N switches and four more for every task created meanwhile, N being
 the number of tasks left: it sleeps at most three turns between two looks at the flag.
 */
module WaitReturns {
  import opened Words
  import opened SchedulerSpec
  import opened SchedulerRuns
  import opened WaitingRuns
  import Ring = BoundedWaiting

  /** Does a step remove the task c from the queue? */
  ghost predicate Removes(s: State, op: Op, c: nat)
    requires WellFormed(s)
  {
    match op
    case Leave => c == s.current
    case Kill(pid) => var p := PidPosition(s.tasks, s.queue, pid); p < |s.queue| && c == s.queue[p]
    case _ => false
  }

  /** A woken waiter: its flag is down, it knows the child, and it sleeps no longer than between two looks. */
  ghost predicate Woken(s: State, h: nat, pid: nat) {
    Down(s, h, pid) && s.tasks[h].sleep <= WAIT_SLEEP
  }

  lemma SwitchKeepsWoken(s: State, q: nat, tick: nat, h: nat, pid: nat)
    requires WellFormed(s) && q < |s.queue| && Woken(s, h, pid)
    ensures Woken(SwitchFrom(s, q, tick), h, pid)
  {
    SelectOnlySleep(s.tasks, s.queue, q);
  }

  /** The step in which a child c of the waiter h is removed, by its own exit or by a kill. */
  lemma StepWakesParent(s: State, op: Op, tick: nat, c: nat)
    requires Inv(s) && Enabled(s, op) && tick < WORD && Removes(s, op, c)
    ensures c < |s.tasks|
    ensures var h := s.tasks[c].parent;
            s.tasks[h].waiting ==> Woken(Step(s, op, tick), h, s.tasks[c].id)
  {
    var h := s.tasks[c].parent;
    if s.tasks[h].waiting {
      match op
      case Leave =>
        ExitKeepsInv(s, tick);
        var p := Position(s.queue, c);
        RemoveWellFormed(s, p);
        var m := RemoveAt(s, p);
        SwitchKeepsWoken(m, if p < |m.queue| then p else 0, tick, h, s.tasks[c].id);
      case Kill(pid) =>
    }
  }

  lemma WokenIsDue(s: State, h: nat, pid: nat, events: seq<Event>)
    requires Inv(s) && h in s.queue && Woken(s, h, pid) && Switches(events) >= 4 * |s.queue| + 4 * Creations(events)
    ensures Due(s, h, events)
  {
    var sleep := s.tasks[h].sleep;
    Ring.LapsFormula(|s.queue|, sleep);
    Product(sleep, |s.queue| - 1);
    Product(sleep, Creations(events));
  }

  lemma Product(sleep: nat, n: nat)
    requires sleep <= WAIT_SLEEP
    ensures sleep * n <= WAIT_SLEEP * n && (1 + sleep) * n == n + sleep * n
  {}

  /**
   wait() returns in bounded time.  A child c of a waiting task h is removed; then in every run from
   there that keeps h queued and has 4N switches and four more per creation, h is the running task at
   some point i, and finds its flag down and the pid of c recorded.
   */
  lemma WaitReturnsInTime(s: State, e: Event, c: nat, h: nat, states: seq<State>, events: seq<Event>) returns (i: nat)
    requires Inv(s) && IsTrace(states, events) && Moves(s, e, states[0]) && Removes(s, e.op, c) && c < |s.tasks|
    requires h == s.tasks[c].parent && s.tasks[h].waiting && h in states[|events|].queue
    requires Switches(events) >= 4 * |states[0].queue| + 4 * Creations(events)
    ensures i <= |events| && states[i].current == h && Down(states[i], h, s.tasks[c].id)
  {
    StepKeepsInv(s, e.op, e.tick);
    StepWakesParent(s, e.op, e.tick, c);
    i := WokenRuns(states, events, h, s.tasks[c].id);
  }

  lemma WokenRuns(states: seq<State>, events: seq<Event>, h: nat, pid: nat) returns (i: nat)
    requires IsTrace(states, events) && Inv(states[0]) && Woken(states[0], h, pid) && h in states[|events|].queue
    requires Switches(events) >= 4 * |states[0].queue| + 4 * Creations(events)
    ensures i <= |events| && states[i].current == h && Down(states[i], h, pid)
  {
    QueuedAllAlong(states, events, h);
    WokenIsDue(states[0], h, pid, events);
    i := RunsInTime(states, events, h);
  }

  ghost predicate Up(s: State, h: nat) { h < |s.tasks| && s.tasks[h].waiting }

  lemma SwitchKeepsUp(s: State, q: nat, tick: nat, h: nat)
    requires WellFormed(s) && q < |s.queue| && Up(s, h)
    ensures Up(SwitchFrom(s, q, tick), h)
  {
    SelectOnlySleep(s.tasks, s.queue, q);
  }

  lemma RemovalKeepsUp(s: State, p: nat, h: nat)
    requires WellFormed(s) && 0 < p < |s.queue| && Up(s, h) && s.tasks[s.queue[p]].parent != h
    ensures WellFormed(RemoveAt(s, p)) && Up(RemoveAt(s, p), h)
  {
    RemoveWellFormed(s, p);
  }

  lemma ExitKeepsUp(s: State, tick: nat, h: nat)
    requires Inv(s) && s.current in s.queue[1..] && Up(s, h) && s.tasks[s.current].parent != h
    ensures Up(Exit(s, tick), h)
  {
    var p := Position(s.queue, s.current);
    RemovalKeepsUp(s, p, h);
    var m := RemoveAt(s, p);
    SwitchKeepsUp(m, if p < |m.queue| then p else 0, tick, h);
  }

  /** A flag that is up stays up in every step that removes no child of its task. */
  lemma StepKeepsUp(s: State, op: Op, tick: nat, h: nat)
    requires Inv(s) && Enabled(s, op) && tick < WORD && Up(s, h)
    requires forall c: nat | c < |s.tasks| && Removes(s, op, c) :: s.tasks[c].parent != h
    ensures Up(Step(s, op, tick), h)
  {
    match op
    case Timer => SwitchKeepsUp(s, NextPosition(s), tick, h);
    case Nap(turns) =>
      var m := s.(tasks := s.tasks[s.current := s.tasks[s.current].(sleep := turns)]);
      SwitchKeepsUp(m, NextPosition(m), tick, h);
    case Leave =>
      LeaverIsQueued(s);
      assert Removes(s, op, s.current);
      ExitKeepsUp(s, tick, h);
    case Kill(pid) =>
      var p := PidPosition(s.tasks, s.queue, pid);
      if p < |s.queue| {
        assert Removes(s, op, s.queue[p]);
        RemovalKeepsUp(s, p, h);
      }
    case Spawn =>
    case StartWait =>
    case EndWait =>
  }

  /** In every step of every run: the flag of a waiting task falls if and only if a child of it is removed. */
  lemma FlagFallsIff(s: State, op: Op, tick: nat, h: nat)
    requires Inv(s) && Enabled(s, op) && tick < WORD && h < |s.tasks| && s.tasks[h].waiting
    ensures h < |Step(s, op, tick).tasks|
    ensures !Step(s, op, tick).tasks[h].waiting <==>
              exists c: nat :: c < |s.tasks| && Removes(s, op, c) && s.tasks[c].parent == h
  {
    if c: nat :| c < |s.tasks| && Removes(s, op, c) && s.tasks[c].parent == h {
      StepWakesParent(s, op, tick, c);
    } else {
      StepKeepsUp(s, op, tick, h);
    }
  }
}
