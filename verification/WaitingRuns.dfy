/**
 How long a queued task can wait for the processor while tasks come and go.  Removing other tasks
 never prolongs the wait; each creation prolongs it by at most 1 + k turns, k being the task's
 sleep.  No bound that ignores creations exists: one creation per turn starves a task for ever.
 */
module WaitingRuns {
  import opened Words
  import opened SchedulerSpec
  import opened SchedulerRuns
  import Ring = BoundedWaiting

  /** On a ring of n, from position at to position t with some sleep. */
  function WaitFor(n: nat, at: nat, t: nat, sleep: nat): (b: nat)
    requires at < n && t < n
    ensures b >= 1
  {
    Ring.Gap(n, at, t) + Ring.Laps(n, sleep)
  }

  /** Cyclic distance of a queued task from the running one, and the turns its own sleep costs. */
  ghost function Patience(s: State, h: nat): (b: nat)
    requires Ring.Running(s) && h in s.queue
    ensures b >= 1
  {
    WaitFor(|s.queue|, Position(s.queue, s.current), Position(s.queue, h), s.tasks[h].sleep)
  }

  // ---- One switch ----

  /** A switch scanning from position q chooses the task at t or brings it closer. */
  lemma SwitchProgress(s: State, q: nat, tick: nat, t: nat)
    requires WellFormed(s) && q < |s.queue| && t < |s.queue|
    ensures var r, n, h := SwitchFrom(s, q, tick), |s.queue|, s.queue[t];
            && Position(s.queue, h) == t && r.tasks[h].sleep <= s.tasks[h].sleep
            && (r.current == h || Patience(r, h) <= Ring.Reach(n, q, t) + Ring.Laps(n, s.tasks[h].sleep))
  {
    Ring.SwitchIsScan(s, q, tick);
    Ring.ScanProgress(Ring.Sleeps(s.tasks, s.queue), q, t);
    Ring.PositionAt(s.queue, t);
    SelectOnlySleep(s.tasks, s.queue, q);
    var r := SwitchFrom(s, q, tick);
    assert Ring.RingOf(r).sleeps[t] == r.tasks[s.queue[t]].sleep;
  }

  lemma TimerProgress(s: State, tick: nat, h: nat)
    requires Ring.Running(s) && h in s.queue
    ensures var r := Switch(s, tick);
            r.tasks[h].sleep <= s.tasks[h].sleep && (r.current == h || Patience(r, h) <= Patience(s, h) - 1)
  {
    SwitchProgress(s, NextPosition(s), tick, Position(s.queue, h));
  }

  lemma NapProgress(s: State, turns: nat, tick: nat, h: nat)
    requires Ring.Running(s) && h in s.queue && h != s.current
    ensures var r := Sleep(s, turns, tick);
            r.tasks[h].sleep <= s.tasks[h].sleep && (r.current == h || Patience(r, h) <= Patience(s, h) - 1)
  {
    TimerProgress(s.(tasks := s.tasks[s.current := s.tasks[s.current].(sleep := turns)]), tick, h);
  }

  // ---- Removal ----

  /** Where position i of a list is after position p was cut out. */
  function Shifted(p: nat, i: nat): nat
    requires i != p
  {
    if i < p then i else i - 1
  }

  /** State m has the queue of s without position p, and task h in it as before. */
  ghost predicate Cut(s: State, p: nat, m: State, h: nat) {
    && WellFormed(m) && p < |s.queue| && |m.queue| == |s.queue| - 1
    && h in s.queue && h in m.queue && Position(s.queue, h) != p
    && Position(m.queue, h) == Shifted(p, Position(s.queue, h))
    && h < |s.tasks| && m.tasks[h].sleep == s.tasks[h].sleep
  }

  lemma RemovalCuts(s: State, p: nat, h: nat)
    requires WellFormed(s) && 0 < p < |s.queue| && h in s.queue && h != s.queue[p]
    ensures Cut(s, p, RemoveAt(s, p), h)
  {
    RemoveWellFormed(s, p);
    StillQueued(s, p, h);
    Ring.PositionAt(RemoveAt(s, p).queue, Shifted(p, Position(s.queue, h)));
  }

  lemma {:induction false} FewerLaps(n: nat, sleep: nat)
    requires n > 0
    ensures Ring.Laps(n, sleep) <= Ring.Laps(n + 1, sleep) == Ring.Laps(n, sleep) + sleep
  {
    if sleep > 0 { FewerLaps(n, sleep - 1); }
  }

  /** Cutting a position out of a ring brings no two others further apart, and is a step for the one behind it. */
  lemma WaitCut(n: nat, p: nat, at: nat, t: nat, sleep: nat)
    requires p < n && at < n && t < n && t != p && n > 1
    ensures at != p ==> WaitFor(n - 1, Shifted(p, at), Shifted(p, t), sleep) <= WaitFor(n, at, t, sleep)
    ensures Ring.Reach(n - 1, if p < n - 1 then p else 0, Shifted(p, t)) + Ring.Laps(n - 1, sleep)
            <= WaitFor(n, p, t, sleep) - 1
  {
    FewerLaps(n - 1, sleep);
  }

  lemma CutPatience(s: State, p: nat, m: State, h: nat)
    requires Ring.Running(s) && Cut(s, p, m, h) && Cut(s, p, m, s.current) && m.current == s.current
    ensures Patience(m, h) <= Patience(s, h)
  {
    WaitCut(|s.queue|, p, Position(s.queue, s.current), Position(s.queue, h), s.tasks[h].sleep);
  }

  /** Removing another task never prolongs the wait. */
  lemma RemovalProgress(s: State, p: nat, h: nat)
    requires Ring.Running(s) && 0 < p < |s.queue| && h in s.queue && h != s.queue[p] && s.current != s.queue[p]
    ensures var r := RemoveAt(s, p);
            && Ring.Running(r) && h in r.queue && r.tasks[h].sleep == s.tasks[h].sleep
            && Patience(r, h) <= Patience(s, h)
  {
    RemovalCuts(s, p, h);
    RemovalCuts(s, p, s.current);
    CutPatience(s, p, RemoveAt(s, p), h);
  }

  lemma CutSwitch(s: State, m: State, tick: nat, h: nat)
    requires Ring.Running(s) && Cut(s, Position(s.queue, s.current), m, h)
    ensures var p := Position(s.queue, s.current);
            var r := SwitchFrom(m, if p < |m.queue| then p else 0, tick);
            && h in r.queue && r.tasks[h].sleep <= s.tasks[h].sleep
            && (r.current == h || Patience(r, h) <= Patience(s, h) - 1)
  {
    var p, t := Position(s.queue, s.current), Position(s.queue, h);
    WaitCut(|s.queue|, p, p, t, s.tasks[h].sleep);
    SwitchProgress(m, if p < |m.queue| then p else 0, tick, Shifted(p, t));
  }

  /** The running task's own exit counts as a switch. */
  lemma ExitProgress(s: State, tick: nat, h: nat)
    requires Ring.Running(s) && s.current in s.queue[1..] && h in s.queue && h != s.current
    ensures var r := Exit(s, tick);
            && Ring.Running(r) && h in r.queue && r.tasks[h].sleep <= s.tasks[h].sleep
            && (r.current == h || Patience(r, h) <= Patience(s, h) - 1)
  {
    var p := Position(s.queue, s.current);
    assert p > 0;
    RemovalCuts(s, p, h);
    CutSwitch(s, RemoveAt(s, p), tick, h);
  }

  // ---- Creation ----

  /** A creation prolongs the wait by at most one turn and one for each unit of sleep. */
  lemma CreationProgress(s: State, tick: nat, h: nat)
    requires Ring.Running(s) && h in s.queue
    ensures var r := Create(s, tick);
            && Ring.Running(r) && h in r.queue && r.tasks[h].sleep == s.tasks[h].sleep
            && Patience(r, h) <= Patience(s, h) + 1 + s.tasks[h].sleep
  {
    var r := Create(s, tick);
    SamePosition(s.queue, |s.tasks|, h);
    SamePosition(s.queue, |s.tasks|, s.current);
    FewerLaps(|s.queue|, s.tasks[h].sleep);
  }

  lemma SamePosition(queue: seq<nat>, x: nat, h: nat)
    requires h in queue
    ensures h in queue + [x] && Position(queue + [x], h) == Position(queue, h)
  {
    var p, q := Position(queue, h), queue + [x];
    assert q[p] == h;
    assert forall i | 0 <= i < p :: q[i] == queue[i];
  }

  // ---- Any step ----

  /** What a step does to the wait of a queued task that is not running. */
  lemma StepProgress(s: State, op: Op, tick: nat, h: nat)
    requires Inv(s) && Enabled(s, op) && tick < WORD && h in s.queue && h != s.current
    requires h in Step(s, op, tick).queue
    ensures var r := Step(s, op, tick);
            && Inv(r) && r.tasks[h].sleep <= s.tasks[h].sleep
            && (r.current == h || Patience(r, h) + (if IsSwitch(op) then 1 else 0)
                                  <= Patience(s, h) + (if op.Spawn? then 1 + s.tasks[h].sleep else 0))
  {
    StepKeepsInv(s, op, tick);
    match op
    case Timer => TimerProgress(s, tick, h);
    case Nap(turns) => NapProgress(s, turns, tick, h);
    case Spawn => CreationProgress(s, tick, h);
    case Leave => LeaverIsQueued(s); ExitProgress(s, tick, h);
    case Kill(pid) =>
      var p := PidPosition(s.tasks, s.queue, pid);
      if p < |s.queue| {
        RemovalKeepsOrder(s, p);
        RemovalProgress(s, p, h);
      }
    case StartWait =>
    case EndWait =>
  }

  /** The wait flag of h is down and it reports a child. */
  ghost predicate Down(s: State, h: nat, pid: nat) {
    h < |s.tasks| && !s.tasks[h].waiting && s.tasks[h].child == pid
  }

  lemma SwitchKeepsDown(s: State, q: nat, tick: nat, h: nat, pid: nat)
    requires WellFormed(s) && q < |s.queue| && Down(s, h, pid)
    ensures Down(SwitchFrom(s, q, tick), h, pid)
  {
    SelectOnlySleep(s.tasks, s.queue, q);
  }

  lemma RemovalKeepsDown(s: State, p: nat, h: nat, pid: nat)
    requires WellFormed(s) && 0 < p < |s.queue| && Down(s, h, pid)
    ensures WellFormed(RemoveAt(s, p)) && Down(RemoveAt(s, p), h, pid)
  {
    RemoveWellFormed(s, p);
  }

  /** A flag that is down stays down, with the child it reports, until its task runs. */
  lemma StepKeepsDown(s: State, op: Op, tick: nat, h: nat, pid: nat)
    requires Inv(s) && Enabled(s, op) && h != s.current && Down(s, h, pid)
    ensures Down(Step(s, op, tick), h, pid)
  {
    match op
    case Timer => SwitchKeepsDown(s, NextPosition(s), tick, h, pid);
    case Nap(turns) =>
      var m := s.(tasks := s.tasks[s.current := s.tasks[s.current].(sleep := turns)]);
      SwitchKeepsDown(m, NextPosition(m), tick, h, pid);
    case Leave =>
      var p := Position(s.queue, s.current);
      RemovalKeepsDown(s, p, h, pid);
      var m := RemoveAt(s, p);
      SwitchKeepsDown(m, if p < |m.queue| then p else 0, tick, h, pid);
    case Kill(k) =>
      var p := PidPosition(s.tasks, s.queue, k);
      if p < |s.queue| { RemovalKeepsDown(s, p, h, pid); }
    case Spawn =>
    case StartWait =>
    case EndWait =>
  }

  /** Tasks keep their names, and one that left the queue never comes back. */
  lemma StepKeepsOut(s: State, op: Op, tick: nat, h: nat)
    requires Inv(s) && Enabled(s, op) && h < |s.tasks|
    ensures var r := Step(s, op, tick); h < |r.tasks| && (h !in s.queue ==> h !in r.queue)
  {
    if op == Leave { LeaverIsQueued(s); }
  }

  // ---- Runs ----

  function Switches(events: seq<Event>): nat
    decreases |events|
  {
    if events == [] then 0 else (if IsSwitch(events[0].op) then 1 else 0) + Switches(events[1..])
  }

  function Creations(events: seq<Event>): nat
    decreases |events|
  {
    if events == [] then 0 else (if events[0].op.Spawn? then 1 else 0) + Creations(events[1..])
  }

  lemma {:induction false} QueuedAllAlong(states: seq<State>, events: seq<Event>, h: nat)
    requires IsTrace(states, events) && Inv(states[0]) && h < |states[0].tasks| && h in states[|events|].queue
    ensures h in states[0].queue
    decreases |events|
  {
    if h !in states[0].queue && events != [] {
      TraceTail(states, events);
      StepKeepsInv(states[0], events[0].op, events[0].tick);
      StepKeepsOut(states[0], events[0].op, events[0].tick, h);
      QueuedAllAlong(states[1..], events[1..], h);
    }
  }

  /** Switches a task of some patience and sleep may have to sit through in a run. */
  function Allowance(patience: nat, sleep: nat, events: seq<Event>): nat {
    patience + (1 + sleep) * Creations(events)
  }

  lemma AllowanceStep(patience: nat, patience': nat, sleep: nat, sleep': nat, events: seq<Event>)
    requires events != [] && sleep' <= sleep && Switches(events) >= Allowance(patience, sleep, events)
    requires var op := events[0].op;
             patience' + (if IsSwitch(op) then 1 else 0) <= patience + (if op.Spawn? then 1 + sleep else 0)
    ensures Switches(events[1..]) >= Allowance(patience', sleep', events[1..])
  {
    MoreCreations(sleep, sleep', Creations(events[1..]));
  }

  lemma MoreCreations(sleep: nat, sleep': nat, creations: nat)
    requires sleep' <= sleep
    ensures (1 + sleep') * creations <= (1 + sleep) * creations
    ensures (1 + sleep) * (creations + 1) == (1 + sleep) * creations + 1 + sleep
  {}

  /** Task h is queued and its turn comes before a run of these events is over. */
  ghost predicate Due(s: State, h: nat, events: seq<Event>)
    requires Inv(s)
  {
    h in s.queue && Switches(events) >= Allowance(Patience(s, h), s.tasks[h].sleep, events)
  }

  lemma DueRest(s: State, events: seq<Event>, k: State, h: nat)
    requires Inv(s) && Inv(k) && events != [] && Due(s, h, events) && h in k.queue
    requires k.tasks[h].sleep <= s.tasks[h].sleep
    requires var op := events[0].op;
             Patience(k, h) + (if IsSwitch(op) then 1 else 0)
             <= Patience(s, h) + (if op.Spawn? then 1 + s.tasks[h].sleep else 0)
    ensures Due(k, h, events[1..])
  {
    AllowanceStep(Patience(s, h), Patience(k, h), s.tasks[h].sleep, k.tasks[h].sleep, events);
  }

  /** One event of a run: the task gets its turn, or is still due in the rest. */
  lemma DueStep(s: State, events: seq<Event>, k: State, h: nat)
    requires Inv(s) && events != [] && Due(s, h, events) && h != s.current
    requires Moves(s, events[0], k) && h in k.queue
    ensures Inv(k) && (k.current == h || Due(k, h, events[1..]))
  {
    StepProgress(s, events[0].op, events[0].tick, h);
    if k.current != h { DueRest(s, events, k, h); }
  }

  /** A state that keeps h queued to the end of the trace. */
  lemma NextQueued(states: seq<State>, events: seq<Event>, h: nat)
    requires IsTrace(states, events) && events != [] && Inv(states[0])
    requires h in states[0].queue && h in states[|events|].queue
    ensures h in states[1].queue
  {
    TraceTail(states, events);
    StepKeepsInv(states[0], events[0].op, events[0].tick);
    StepKeepsOut(states[0], events[0].op, events[0].tick, h);
    QueuedAllAlong(states[1..], events[1..], h);
  }

  /**
   Bounded waiting over every run.  A task that stays queued is the running one at some point i of
   the run, if the run has at least as many switches as the task's patience plus 1 + k for each
   creation.  Until then a wait flag that was down stays down.
   */
  lemma {:induction false} RunsInTime(states: seq<State>, events: seq<Event>, h: nat) returns (i: nat)
    requires IsTrace(states, events) && Inv(states[0]) && Due(states[0], h, events) && h in states[|events|].queue
    ensures i <= |events| && states[i].current == h
    ensures forall pid | Down(states[0], h, pid) :: Down(states[i], h, pid)
    decreases |events|
  {
    i := 0;
    if states[0].current != h {
      TraceTail(states, events);
      NextQueued(states, events, h);
      DueStep(states[0], events, states[1], h);
      DownStep(states[0], events[0], states[1], h);
      if states[1].current != h { i := RunsInTime(states[1..], events[1..], h); }
      i := i + 1;
    }
  }

  lemma DownStep(s: State, e: Event, k: State, h: nat)
    requires Inv(s) && Moves(s, e, k) && h != s.current
    ensures forall pid | Down(s, h, pid) :: Down(k, h, pid)
  {
    forall pid | Down(s, h, pid) ensures Down(k, h, pid) { StepKeepsDown(s, e.op, e.tick, h, pid); }
  }

  // ---- Starvation ----

  /** One creation and one timer tick, n times. */
  function Rounds(tick: nat, n: nat): seq<Event> {
    if n == 0 then [] else Rounds(tick, n - 1) + [Event(Spawn, tick), Event(Timer, tick)]
  }

  /** The running task is the last of the queue and not waiting. */
  ghost predicate AtEnd(s: State) {
    Inv(s) && s.current == s.queue[|s.queue| - 1] && !s.tasks[s.current].waiting
  }

  /** After a round the new task runs, at the end of the queue. */
  lemma RoundMovesOn(s: State, tick: nat)
    requires AtEnd(s) && tick < WORD
    ensures Enabled(s, Spawn) && Enabled(Create(s, tick), Timer)
    ensures var k := Switch(Create(s, tick), tick); AtEnd(k) && k.current == |s.tasks| && |k.tasks| == |s.tasks| + 1
  {
    StepKeepsInv(s, Spawn, tick);
    var m := Create(s, tick);
    Ring.PositionAt(s.queue, |s.queue| - 1);
    SamePosition(s.queue, |s.tasks|, s.current);
    SwitchKeepsInv(m, NextPosition(m), tick);
  }

  lemma TraceSnoc(states: seq<State>, events: seq<Event>, e: Event, k: State)
    requires IsTrace(states, events) && Moves(states[|events|], e, k)
    ensures IsTrace(states + [k], events + [e])
  {
    forall i | 0 <= i < |events + [e]| ensures MovesAt(states + [k], events + [e], i) {
      if i < |events| { assert MovesAt(states, events, i); }
    }
  }

  /** A round as two moves. */
  lemma RoundMoves(s: State, tick: nat) returns (c: State, k: State)
    requires AtEnd(s) && tick < WORD
    ensures Moves(s, Event(Spawn, tick), c) && c.current == s.current
    ensures Moves(c, Event(Timer, tick), k) && AtEnd(k) && k.current == |s.tasks| && |k.tasks| == |s.tasks| + 1
  {
    RoundMovesOn(s, tick);
    c := Create(s, tick);
    k := Switch(c, tick);
  }

  lemma {:induction false} CountsAppend(events: seq<Event>, e: Event)
    ensures Switches(events + [e]) == Switches(events) + (if IsSwitch(e.op) then 1 else 0)
    ensures Creations(events + [e]) == Creations(events) + (if e.op.Spawn? then 1 else 0)
    decreases |events|
  {
    if events != [] {
      assert (events + [e])[1..] == events[1..] + [e];
      CountsAppend(events[1..], e);
    }
  }

  lemma {:induction false} RoundsCount(tick: nat, n: nat)
    ensures Switches(Rounds(tick, n)) == Creations(Rounds(tick, n)) == n
  {
    if n > 0 {
      var es, a, b := Rounds(tick, n - 1), Event(Spawn, tick), Event(Timer, tick);
      RoundsCount(tick, n - 1);
      CountsAppend(es, a);
      CountsAppend(es + [a], b);
      assert Rounds(tick, n) == (es + [a]) + [b];
    }
  }

  /** A trace from s to a state with some number of tasks, in none of whose states h is running. */
  ghost predicate Starved(states: seq<State>, events: seq<Event>, s: State, h: nat, tasks: nat) {
    && IsTrace(states, events) && states[0] == s
    && (forall i | 0 <= i < |states| :: states[i].current != h)
    && AtEnd(states[|events|]) && |states[|events|].tasks| == tasks
  }

  lemma TraceRound(states: seq<State>, events: seq<Event>, a: Event, c: State, b: Event, k: State)
    requires IsTrace(states, events) && Moves(states[|events|], a, c) && Moves(c, b, k)
    ensures IsTrace(states + [c, k], events + [a, b])
  {
    TraceSnoc(states, events, a, c);
    TraceSnoc(states + [c], events + [a], b, k);
    assert (states + [c]) + [k] == states + [c, k] && (events + [a]) + [b] == events + [a, b];
  }

  lemma StarvedRound(states: seq<State>, events: seq<Event>, s: State, h: nat, tasks: nat, tick: nat)
    returns (longer: seq<State>)
    requires Starved(states, events, s, h, tasks) && h < tasks && tick < WORD
    ensures Starved(longer, events + [Event(Spawn, tick), Event(Timer, tick)], s, h, tasks + 1)
  {
    var c, k := RoundMoves(states[|events|], tick);
    TraceRound(states, events, Event(Spawn, tick), c, Event(Timer, tick), k);
    longer := states + [c, k];
  }

  /**
   No bound without creations: with one creation per turn a task that is not running is never chosen
   in n turns, for any n.
   */
  lemma {:induction false} CreationStarves(s: State, tick: nat, n: nat, h: nat) returns (states: seq<State>)
    requires AtEnd(s) && tick < WORD && h < |s.tasks| && h != s.current
    ensures Starved(states, Rounds(tick, n), s, h, |s.tasks| + n)
    ensures Switches(Rounds(tick, n)) == Creations(Rounds(tick, n)) == n
    decreases n
  {
    RoundsCount(tick, n);
    states := [s];
    if n > 0 {
      states := CreationStarves(s, tick, n - 1, h);
      states := StarvedRound(states, Rounds(tick, n - 1), s, h, |s.tasks| + n - 1, tick);
    }
  }
}
