/**
 Processor time task by task.  Only a switch changes a time, and only that of the task that was
 running: it gains the ticks since the switch that chose it.  So over every run a task's time is the
 sum of the intervals in which it was the running one.
 */
module TaskTimes {
  import opened Sequences
  import opened Words
  import opened SchedulerSpec
  import opened SchedulerRuns

  /** The clock at the last switch. */
  function Since(s: State): nat
    requires s.last < |s.tasks|
  {
    s.tasks[s.last].lastTime
  }

  /** A switch charges the task that was running, and no other, and starts the clock of the chosen one. */
  lemma SwitchTimes(s: State, q: nat, tick: nat, h: nat)
    requires WellFormed(s) && q < |s.queue| && h < |s.tasks|
    ensures var r := SwitchFrom(s, q, tick);
            && r.last == r.current < |r.tasks| && Since(r) == tick
            && r.tasks[h].time ==
               (if h == s.last then (s.tasks[h].time + tick - Since(s)) % WORD else s.tasks[h].time)
  {
    SelectOnlySleep(s.tasks, s.queue, q);
  }

  /** What an entry does to the times: a task created by it has none. */
  ghost predicate TimesMove(s: State, op: Op, tick: nat, r: State, h: nat) {
    && s.last < |s.tasks| && r.last < |r.tasks|
    && Since(r) == (if IsSwitch(op) then tick else Since(s))
    && TimeAt(r, h) ==
       if IsSwitch(op) && h == s.current then (TimeAt(s, h) + tick - Since(s)) % WORD else TimeAt(s, h)
  }

  /** Processor time of a task, 0 before its creation. */
  function TimeAt(s: State, h: nat): nat {
    if h < |s.tasks| then s.tasks[h].time else 0
  }

  lemma ExitTimes(s: State, tick: nat, h: nat)
    requires Inv(s) && s.current != s.queue[0] && tick < WORD
    ensures s.current in s.queue[1..] && TimesMove(s, Leave, tick, Exit(s, tick), h)
  {
    ExitKeepsInv(s, tick);
    var p := Position(s.queue, s.current);
    RemoveWellFormed(s, p);
    var m := RemoveAt(s, p);
    FromMoves(s, Leave, m, if p < |m.queue| then p else 0, tick, h);
  }

  lemma FromMoves(s: State, op: Op, m: State, q: nat, tick: nat, h: nat)
    requires s.last == s.current < |s.tasks| && WellFormed(m) && q < |m.queue| && IsSwitch(op)
    requires |m.tasks| == |s.tasks| && m.last == s.last && Since(m) == Since(s) && TimeAt(m, h) == TimeAt(s, h)
    ensures TimesMove(s, op, tick, SwitchFrom(m, q, tick), h)
  {
    if h < |s.tasks| { SwitchTimes(m, q, tick, h); }
    SwitchTimes(m, q, tick, 0);
  }

  /** Every step of every run moves the times this way. */
  lemma StepTimes(s: State, op: Op, tick: nat, h: nat)
    requires Inv(s) && Enabled(s, op) && tick < WORD
    ensures TimesMove(s, op, tick, Step(s, op, tick), h)
  {
    match op
    case Timer => FromMoves(s, op, s, NextPosition(s), tick, h);
    case Nap(turns) =>
      var m := s.(tasks := s.tasks[s.current := s.tasks[s.current].(sleep := turns)]);
      FromMoves(s, op, m, NextPosition(m), tick, h);
    case Leave => ExitTimes(s, tick, h);
    case Spawn =>
    case Kill(pid) =>
    case StartWait =>
    case EndWait =>
  }

  /** The intervals in which h was running, from the clock reading since which the first state's task has been. */
  ghost function RanFor(states: seq<State>, events: seq<Event>, since: nat, h: nat): int
    requires |states| == |events| + 1
    decreases |events|
  {
    if events == [] then 0
    else if IsSwitch(events[0].op) then
      (if states[0].current == h then events[0].tick - since else 0)
      + RanFor(states[1..], events[1..], events[0].tick, h)
    else RanFor(states[1..], events[1..], since, h)
  }

  /** The first event of a run. */
  lemma FirstTimes(states: seq<State>, events: seq<Event>, h: nat)
    requires IsTrace(states, events) && Inv(states[0]) && events != []
    ensures IsTrace(states[1..], events[1..]) && Inv(states[1]) && events[0].tick < WORD
    ensures TimesMove(states[0], events[0].op, events[0].tick, states[1], h)
  {
    TraceTail(states, events);
    MoveKeepsInv(states[0], events[0], states[1]);
    StepTimes(states[0], events[0].op, events[0].tick, h);
  }

  lemma FirstExact(states: seq<State>, events: seq<Event>, from: nat, h: nat)
    requires IsTrace(states, events) && Inv(states[0]) && events != []
    requires from <= events[0].tick && TimeExact(states[0], from)
    ensures TimeExact(states[1], events[0].tick)
    ensures h < |states[0].tasks| ==> 0 <= TimeAt(states[0], h) + events[0].tick - Since(states[0]) < WORD
  {
    TraceTail(states, events);
    StepTimeExact(states[0], events[0].op, events[0].tick);
    if h < |states[0].tasks| { SumPart(states[0].tasks, h, TimeOf); }
  }

  /** Over every run a task's time grows by exactly the intervals in which it was running, modulo 2^32. */
  lemma {:induction false} RunTimes(states: seq<State>, events: seq<Event>, h: nat)
    requires IsTrace(states, events) && Inv(states[0])
    ensures TimeAt(states[|events|], h) % WORD ==
            (TimeAt(states[0], h) + RanFor(states, events, Since(states[0]), h)) % WORD
    decreases |events|
  {
    if events != [] {
      var s, e := states[0], events[0];
      FirstTimes(states, events, h);
      RunTimes(states[1..], events[1..], h);
      if IsSwitch(e.op) && h == s.current {
        Regroup(TimeAt(s, h), e.tick - Since(s), RanFor(states[1..], events[1..], e.tick, h));
      }
    }
  }

  lemma Regroup(t: nat, d: int, rest: int)
    ensures ((t + d) % WORD + rest) % WORD == (t + (d + rest)) % WORD
  {
    var q := (t + d) / WORD;
    assert t + (d + rest) == q * WORD + ((t + d) % WORD + rest);
    AddMultiple((t + d) % WORD + rest, q);
  }

  /** While the clock runs forward, from boot on each time is exactly that sum. */
  lemma {:induction false} RunTimesExact(states: seq<State>, events: seq<Event>, from: nat, h: nat)
    requires IsTrace(states, events) && Inv(states[0]) && Monotone(from, events) && TimeExact(states[0], from)
    ensures TimeAt(states[|events|], h) == TimeAt(states[0], h) + RanFor(states, events, Since(states[0]), h)
    decreases |events|
  {
    if events != [] {
      FirstTimes(states, events, h);
      FirstExact(states, events, from, h);
      RunTimesExact(states[1..], events[1..], events[0].tick, h);
    }
  }

  /**
   One thread created at tick 0, the timer at tick 10: the first task has run for 10 ticks, the new
   one not at all.
   */
  lemma FirstTenTicks()
    ensures WellFormed(Create(Init(), 0))
    ensures var r := SwitchFrom(Create(Init(), 0), 1, 10); r.tasks[0].time == 10 && r.tasks[1].time == 0
    ensures NextPosition(Create(Init(), 0)) == 1
  {
    var s := Create(Init(), 0);
    assert s.queue == [0, 1];
    SwitchTimes(s, 1, 10, 0);
    SwitchTimes(s, 1, 10, 1);
  }
}
