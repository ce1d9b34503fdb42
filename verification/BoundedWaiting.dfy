/**
 How long a queued task can wait for the processor.  In a fixed queue of N tasks, a task at
 cyclic distance d from the running one and with sleep k is chosen within d + k * (N - 1) calls
 of switch_task, whatever sleeps the tasks running meanwhile set for themselves; and the bound
 is reached when everybody else is always awake.  The argument runs on a ring of sleeps; the
 last part carries it over to the task table.  WaitingRuns extends it to changing queues.
 */
module BoundedWaiting {
  import opened Sequences
  import opened SchedulerSpec

  /** The queue seen by the selection loop: sleeps in queue order and the running position. */
  datatype Ring = Ring(sleeps: seq<nat>, at: nat)

  ghost predicate IsRing(r: Ring) { r.at < |r.sleeps| }

  function Same(x: nat): nat { x }

  function Sum(xs: seq<nat>): nat { SumOf(xs, Same) }

  /** The selection loop on the ring. */
  function Scan(sleeps: seq<nat>, q: nat): (r: Ring)
    requires q < |sleeps|
    ensures |r.sleeps| == |sleeps| && r.at < |sleeps| && r.sleeps[r.at] == 0
    decreases Sum(sleeps)
  {
    if sleeps[q] == 0 then Ring(sleeps, q)
    else
      SumUpdate(sleeps, q, sleeps[q] - 1, Same);
      Scan(sleeps[q := sleeps[q] - 1], Next(|sleeps|, q))
  }

  /** Steps from position p forward to position t, 1 to N. */
  function Gap(n: nat, p: nat, t: nat): (d: nat)
    requires p < n && t < n
    ensures 1 <= d <= n
  {
    if t > p then t - p else n - (p - t)
  }

  /** Steps from an examined position q to position t, 0 to N - 1. */
  function Reach(n: nat, q: nat, t: nat): (d: nat)
    requires q < n && t < n
    ensures d < n
  {
    if t >= q then t - q else n - (q - t)
  }

  /** Turns lost to a sleep: N - 1 other tasks run for each unit of it. */
  function Laps(n: nat, sleep: nat): nat
    requires n > 0
  {
    if sleep == 0 then 0 else Laps(n, sleep - 1) + (n - 1)
  }

  lemma {:induction false} LapsFormula(n: nat, sleep: nat)
    requires n > 0
    ensures Laps(n, sleep) == sleep * (n - 1)
  {
    if sleep > 0 { LapsFormula(n, sleep - 1); }
  }

  /** One scan uses up part of the bound of every position it does not choose. */
  lemma {:induction false} ScanProgress(sleeps: seq<nat>, q: nat, t: nat)
    requires q < |sleeps| && t < |sleeps|
    ensures var r := Scan(sleeps, q);
            r.at == t || Gap(|sleeps|, r.at, t) + Laps(|sleeps|, r.sleeps[t])
                         <= Reach(|sleeps|, q, t) + Laps(|sleeps|, sleeps[t])
    decreases Sum(sleeps)
  {
    if sleeps[q] > 0 {
      SumUpdate(sleeps, q, sleeps[q] - 1, Same);
      ScanProgress(sleeps[q := sleeps[q] - 1], Next(|sleeps|, q), t);
      assert Reach(|sleeps|, Next(|sleeps|, q), t) == if q == t then |sleeps| - 1 else Reach(|sleeps|, q, t) - 1;
    }
  }

  /** The scan never passes an awake position: it stops there or before, and changes nothing behind it. */
  lemma {:induction false} NeverPassesAwake(sleeps: seq<nat>, q: nat, t: nat, i: nat)
    requires q < |sleeps| && t < |sleeps| && sleeps[t] == 0 && i < |sleeps|
    ensures var r := Scan(sleeps, q);
            && Reach(|sleeps|, q, r.at) <= Reach(|sleeps|, q, t)
            && (Reach(|sleeps|, q, i) >= Reach(|sleeps|, q, r.at) ==> r.sleeps[i] == sleeps[i])
            && (Reach(|sleeps|, q, i) < Reach(|sleeps|, q, r.at) ==> r.sleeps[i] + 1 == sleeps[i])
    decreases Sum(sleeps)
  {
    if sleeps[q] > 0 {
      SumUpdate(sleeps, q, sleeps[q] - 1, Same);
      var n, next := |sleeps|, Next(|sleeps|, q);
      NeverPassesAwake(sleeps[q := sleeps[q] - 1], next, t, i);
      var r := Scan(sleeps, q);
      assert Reach(n, next, t) == Reach(n, q, t) - 1;
      assert Reach(n, next, i) == if i == q then n - 1 else Reach(n, q, i) - 1;
    }
  }

  /** One call into the scheduler: the timer, or the running task going to sleep. */
  datatype Call = Timer(tick: nat) | Nap(turns: nat, tick: nat)

  function Turn(r: Ring, c: Call): (r': Ring)
    requires r.at < |r.sleeps|
    ensures |r'.sleeps| == |r.sleeps| && r'.at < |r'.sleeps|
  {
    var sleeps := if c.Timer? then r.sleeps else r.sleeps[r.at := c.turns];
    Scan(sleeps, Next(|sleeps|, r.at))
  }

  function Turns(r: Ring, calls: seq<Call>): (r': Ring)
    requires r.at < |r.sleeps|
    ensures |r'.sleeps| == |r.sleeps| && r'.at < |r'.sleeps|
    decreases |calls|
  {
    if calls == [] then r else Turns(Turn(r, calls[0]), calls[1..])
  }

  /** Waiting bound of position t. */
  function Patience(r: Ring, t: nat): (b: nat)
    requires r.at < |r.sleeps| && t < |r.sleeps|
    ensures b >= 1
  {
    Gap(|r.sleeps|, r.at, t) + Laps(|r.sleeps|, r.sleeps[t])
  }

  /** Every call that does not choose position t brings it at least one call closer. */
  lemma TurnProgress(r: Ring, c: Call, t: nat)
    requires IsRing(r) && t < |r.sleeps| && (r.at == t ==> c.Timer?)
    ensures Turn(r, c).at == t || Patience(Turn(r, c), t) < Patience(r, t)
  {
    var sleeps := if c.Timer? then r.sleeps else r.sleeps[r.at := c.turns];
    ScanProgress(sleeps, Next(|sleeps|, r.at), t);
  }

  lemma FirstTurn(r: Ring, calls: seq<Call>, i: nat)
    requires IsRing(r) && 1 <= i <= |calls|
    ensures Turns(r, calls[..i]) == Turns(Turn(r, calls[0]), calls[1..][..i - 1])
  {
    assert calls[..i][1..] == calls[1..][..i - 1];
  }

  lemma {:induction false} RingWait(r: Ring, t: nat, calls: seq<Call>) returns (i: nat)
    requires IsRing(r) && t < |r.sleeps| && |calls| >= Patience(r, t)
    requires r.at == t ==> calls[0].Timer?
    ensures 1 <= i <= Patience(r, t) && Turns(r, calls[..i]).at == t
    decreases |calls|
  {
    TurnProgress(r, calls[0], t);
    i := 1;
    if Turn(r, calls[0]).at != t {
      i := RingWait(Turn(r, calls[0]), t, calls[1..]);
      i := i + 1;
    }
    FirstTurn(r, calls, i);
  }

  ghost predicate OthersAwake(r: Ring, t: nat) {
    forall i | 0 <= i < |r.sleeps| && i != t :: r.sleeps[i] == 0
  }

  /** With the others awake, one timer call takes exactly one off the bound. */
  lemma TurnExact(r: Ring, tick: nat, t: nat)
    requires IsRing(r) && t < |r.sleeps| && OthersAwake(r, t) && Patience(r, t) > 1
    ensures var r' := Turn(r, Timer(tick));
            r'.at != t && OthersAwake(r', t) && Patience(r', t) == Patience(r, t) - 1
  {
    var n := |r.sleeps|;
    var q := Next(n, r.at);
    if q == t {
      LapsFormula(n, r.sleeps[t]);
      SumUpdate(r.sleeps, t, r.sleeps[t] - 1, Same);
      var tired := r.sleeps[t := r.sleeps[t] - 1];
      assert Scan(tired, Next(n, q)) == Ring(tired, Next(n, q));
    }
  }

  lemma {:induction false} RingWaitExact(r: Ring, t: nat, calls: seq<Call>, i: nat)
    requires IsRing(r) && t < |r.sleeps| && OthersAwake(r, t)
    requires forall c | c in calls :: c.Timer?
    requires 1 <= i < Patience(r, t) && i <= |calls|
    ensures Turns(r, calls[..i]).at != t
    decreases i
  {
    TurnExact(r, calls[0].tick, t);
    FirstTurn(r, calls, i);
    if i > 1 { RingWaitExact(Turn(r, calls[0]), t, calls[1..], i - 1); }
  }

  // ---- From the ring to the task table ----

  ghost predicate Running(s: State) {
    WellFormed(s) && s.current in s.queue
  }

  function Sleeps(tasks: seq<Task>, queue: seq<nat>): (xs: seq<nat>)
    requires forall i | 0 <= i < |queue| :: queue[i] < |tasks|
    ensures |xs| == |queue| && forall i | 0 <= i < |queue| :: xs[i] == tasks[queue[i]].sleep
  {
    seq(|queue|, i requires 0 <= i < |queue| => tasks[queue[i]].sleep)
  }

  ghost function RingOf(s: State): (r: Ring)
    requires Running(s)
    ensures IsRing(r)
  {
    Ring(Sleeps(s.tasks, s.queue), Position(s.queue, s.current))
  }

  /** The selection loop over tasks is the scan over their sleeps. */
  lemma {:induction false} SelectIsScan(tasks: seq<Task>, queue: seq<nat>, q: nat)
    requires q < |queue| && Distinct(queue) && forall i | 0 <= i < |queue| :: queue[i] < |tasks|
    ensures var (after, p) := Select(tasks, queue, q);
            Scan(Sleeps(tasks, queue), q) == Ring(Sleeps(after, queue), p)
    decreases TotalSleep(tasks)
  {
    var h, xs := queue[q], Sleeps(tasks, queue);
    if tasks[h].sleep > 0 {
      SumUpdate(tasks, h, Tired(tasks[h]), SleepOf);
      SelectIsScan(tasks[h := Tired(tasks[h])], queue, After(queue, q));
      assert Sleeps(tasks[h := Tired(tasks[h])], queue) == xs[q := xs[q] - 1];
    }
  }

  function Apply(s: State, c: Call): (r: State)
    requires WellFormed(s) && s.current in s.queue
    ensures WellFormed(r) && r.current in r.queue && r.queue == s.queue
  {
    match c
    case Timer(tick) => Switch(s, tick)
    case Nap(turns, tick) => Sleep(s, turns, tick)
  }

  function ApplyAll(s: State, calls: seq<Call>): (r: State)
    requires WellFormed(s) && s.current in s.queue
    ensures WellFormed(r) && r.current in r.queue && r.queue == s.queue
    decreases |calls|
  {
    if calls == [] then s else ApplyAll(Apply(s, calls[0]), calls[1..])
  }

  lemma PositionAt(queue: seq<nat>, i: nat)
    requires i < |queue| && Distinct(queue)
    ensures Position(queue, queue[i]) == i
  {}

  lemma SwitchIsScan(s: State, q: nat, tick: nat)
    requires WellFormed(s) && q < |s.queue|
    ensures RingOf(SwitchFrom(s, q, tick)) == Scan(Sleeps(s.tasks, s.queue), q)
  {
    SelectIsScan(s.tasks, s.queue, q);
    var (after, p) := Select(s.tasks, s.queue, q);
    PositionAt(s.queue, p);
    assert Sleeps(SwitchFrom(s, q, tick).tasks, s.queue) == Sleeps(after, s.queue);
  }

  lemma SwitchIsTurn(s: State, tick: nat)
    requires Running(s)
    ensures RingOf(Switch(s, tick)) == Turn(RingOf(s), Timer(tick))
  {
    SwitchIsScan(s, NextPosition(s), tick);
  }

  lemma ApplyIsTurn(s: State, c: Call)
    requires Running(s)
    ensures RingOf(Apply(s, c)) == Turn(RingOf(s), c)
  {
    match c
    case Timer(tick) => SwitchIsTurn(s, tick);
    case Nap(turns, tick) =>
      var m := s.(tasks := s.tasks[s.current := s.tasks[s.current].(sleep := turns)]);
      SwitchIsTurn(m, tick);
      var r := RingOf(s);
      assert RingOf(m).sleeps == r.sleeps[r.at := turns];
  }

  lemma {:induction false} ApplyAllIsTurns(s: State, calls: seq<Call>)
    requires Running(s)
    ensures RingOf(ApplyAll(s, calls)) == Turns(RingOf(s), calls)
    decreases |calls|
  {
    if calls != [] {
      ApplyIsTurn(s, calls[0]);
      ApplyAllIsTurns(Apply(s, calls[0]), calls[1..]);
    }
  }

  /** d + k * (N - 1) for the task at queue position t. */
  ghost function WaitBound(s: State, t: nat): int
    requires Running(s) && t < |s.queue|
  {
    Gap(|s.queue|, Position(s.queue, s.current), t) + s.tasks[s.queue[t]].sleep * (|s.queue| - 1)
  }

  /**
   Bounded waiting.  The task at queue position t runs after some 1 <= i <= WaitBound calls.  If it
   is itself the running task at the start, its own sleep is already set (the first call is the timer).
   */
  lemma BoundedWait(s: State, t: nat, calls: seq<Call>) returns (i: nat)
    requires Running(s) && t < |s.queue| && |calls| >= WaitBound(s, t) && |calls| > 0
    requires s.current == s.queue[t] ==> calls[0].Timer?
    ensures 1 <= i <= WaitBound(s, t)
    ensures i <= |calls| && ApplyAll(s, calls[..i]).current == s.queue[t]
  {
    LapsFormula(|s.queue|, s.tasks[s.queue[t]].sleep);
    i := RingWait(RingOf(s), t, calls);
    ApplyAllIsTurns(s, calls[..i]);
  }

  /** The bound is tight: with everyone else always awake the task does not run before call number WaitBound. */
  lemma BoundIsReached(s: State, t: nat, calls: seq<Call>, i: nat)
    requires Running(s) && t < |s.queue|
    requires forall j | 0 <= j < |s.queue| && j != t :: s.tasks[s.queue[j]].sleep == 0
    requires forall c | c in calls :: c.Timer?
    requires 1 <= i < WaitBound(s, t) && i <= |calls|
    ensures ApplyAll(s, calls[..i]).current != s.queue[t]
  {
    LapsFormula(|s.queue|, s.tasks[s.queue[t]].sleep);
    RingWaitExact(RingOf(s), t, calls, i);
    ApplyAllIsTurns(s, calls[..i]);
    PositionAt(s.queue, t);
  }
}
