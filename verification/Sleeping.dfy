/** What sleep_thread is for: a task that goes to sleep stays off the processor for the turns it asked for. */
module Sleeping {
  import opened SchedulerSpec
  import opened BoundedWaiting

  /** A scan that starts behind a position and meets an awake one first does not come round to it. */
  lemma ScanStopsBefore(sleeps: seq<nat>, at: nat, t: nat)
    requires at < |sleeps| && t < |sleeps| && t != at && sleeps[t] == 0
    ensures var r := Scan(sleeps, Next(|sleeps|, at)); r.at != at && r.sleeps[at] == sleeps[at]
  {
    var n := |sleeps|;
    var q := Next(n, at);
    NeverPassesAwake(sleeps, q, t, at);
    assert Reach(n, q, at) == n - 1 && Reach(n, q, t) < n - 1;
  }

  /** sleep_thread takes effect: if anyone else is awake, the caller does not run on and has its sleep before it. */
  lemma SleepTakesEffect(s: State, turns: nat, tick: nat, other: nat)
    requires Running(s) && other in s.queue && other != s.current && s.tasks[other].sleep == 0
    ensures var r := Sleep(s, turns, tick); r.current != s.current && r.tasks[s.current].sleep == turns
  {
    var m := s.(tasks := s.tasks[s.current := s.tasks[s.current].(sleep := turns)]);
    var at := Position(s.queue, s.current);
    SwitchIsScan(m, NextPosition(m), tick);
    ScanStopsBefore(Sleeps(m.tasks, m.queue), at, Position(s.queue, other));
    assert RingOf(Switch(m, tick)).sleeps[at] == turns;
  }

  /** With everyone else awake the next task runs, and they all stay awake. */
  lemma SleepBound(s: State, turns: nat, tick: nat)
    requires Running(s) && |s.queue| >= 2
    requires forall j | 0 <= j < |s.queue| && s.queue[j] != s.current :: s.tasks[s.queue[j]].sleep == 0
    ensures var r, n := Sleep(s, turns, tick), |s.queue|;
            && Position(r.queue, r.current) == Next(n, Position(s.queue, s.current))
            && r.tasks[s.current].sleep == turns
            && (forall j | 0 <= j < n && s.queue[j] != s.current :: r.tasks[s.queue[j]].sleep == 0)
            && WaitBound(r, Position(s.queue, s.current)) == (turns + 1) * (n - 1)
  {
    var n, at := |s.queue|, Position(s.queue, s.current);
    var m := s.(tasks := s.tasks[s.current := s.tasks[s.current].(sleep := turns)]);
    var q := NextPosition(m);
    PositionAt(s.queue, q);
    assert s.queue[q] != s.current;
    assert Select(m.tasks, m.queue, q) == (m.tasks, q);
    assert Gap(n, q, at) == n - 1;
    assert (turns + 1) * (n - 1) == (n - 1) + turns * (n - 1);
  }

  /** Then a sleep of k turns lasts exactly (k + 1)(N - 1) timer calls. */
  lemma SleepsExactly(s: State, turns: nat, tick: nat, calls: seq<Call>, i: nat)
    requires Running(s) && |s.queue| >= 2
    requires forall j | 0 <= j < |s.queue| && s.queue[j] != s.current :: s.tasks[s.queue[j]].sleep == 0
    requires forall c | c in calls :: c.Timer?
    requires 1 <= i <= |calls|
    ensures |calls| == (turns + 1) * (|s.queue| - 1) ==>
              (ApplyAll(Sleep(s, turns, tick), calls[..i]).current == s.current <==> i == |calls|)
  {
    SleepBound(s, turns, tick);
    var r, t := Sleep(s, turns, tick), Position(s.queue, s.current);
    PositionAt(s.queue, t);
    if |calls| == WaitBound(r, t) {
      if i < |calls| {
        BoundIsReached(r, t, calls, i);
      } else {
        var k := BoundedWait(r, t, calls);
        if k < |calls| { BoundIsReached(r, t, calls, k); }
      }
    }
  }
}
