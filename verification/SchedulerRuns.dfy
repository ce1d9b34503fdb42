/**
 What every run of the scheduler keeps: the queue stays an acyclic list of distinct tasks with the
 running one in it, pids follow creation order, child counters count queued children, no waiter is
 left without a child, and processor time adds up to the clock.
 */
module SchedulerRuns {
  import opened Sequences
  import opened Words
  import opened SchedulerSpec

  /** Kernel entries; the clock reading of the moment comes with each. */
  datatype Op =
    | Timer
    | Nap(turns: nat)
    | Spawn
    | Leave
    | Kill(pid: nat)
    | StartWait
    | EndWait

  /**
   remove_task is only meaningful for a queued task other than the head; exit_thread removes the
   caller.  A task inside wait does nothing but poll its flag with a fixed sleep.
   */
  ghost predicate Enabled(s: State, op: Op) {
    && WellFormed(s) && s.current in s.queue
    && (s.tasks[s.current].waiting ==> op == Timer || op == Nap(WAIT_SLEEP))
    && match op
       case Leave => s.current != s.queue[0]
       case Kill(pid) =>
         var p := PidPosition(s.tasks, s.queue, pid);
         p < |s.queue| ==> p > 0 && s.queue[p] != s.current
       case EndWait => !s.tasks[s.current].waiting
       case _ => true
  }

  ghost function Step(s: State, op: Op, tick: nat): State
    requires Enabled(s, op)
  {
    match op
    case Timer => Switch(s, tick)
    case Nap(turns) => Sleep(s, turns, tick)
    case Spawn => Create(s, tick)
    case Leave => Exit(s, tick)
    case Kill(pid) =>
      var p := PidPosition(s.tasks, s.queue, pid);
      if p < |s.queue| then RemoveAt(s, p) else s
    case StartWait => WaitBegin(s).0
    case EndWait => WaitEnd(s)
  }

  /** Entries in which switch_task runs. */
  predicate IsSwitch(op: Op) { op.Timer? || op.Nap? || op.Leave? }

  /** Tasks in a list whose parent is h. */
  function Children(tasks: seq<Task>, q: seq<nat>, h: nat): nat
    requires forall i | 0 <= i < |q| :: q[i] < |tasks|
  {
    if q == [] then 0 else (if tasks[q[0]].parent == h then 1 else 0) + Children(tasks, q[1..], h)
  }

  function TimeOf(t: Task): nat { t.time }

  function TotalTime(tasks: seq<Task>): nat { SumOf(tasks, TimeOf) }

  /** Pid of the h-th task ever created, in the kernel's 32-bit counter. */
  function PidOf(h: nat): nat { (h + 1) % WORD }

  /** Everything about the family tree and the queue. */
  ghost predicate FamilyInv(s: State) {
    && WellFormed(s)
    && s.nextPid == PidOf(|s.tasks|)
    && (forall h | 0 <= h < |s.tasks| :: s.tasks[h].id == PidOf(h))
    && (forall h | 0 < h < |s.tasks| :: s.tasks[h].parent < h)
    && (forall h | 0 <= h < |s.tasks| :: s.tasks[h].childCount == Children(s.tasks, s.queue[1..], h))
    && (forall h | 0 <= h < |s.tasks| :: s.tasks[h].waiting ==> Polling(s.tasks[h]))
  }

  /** A waiting task has a child left and sleeps no longer than between two looks at its flag. */
  ghost predicate Polling(t: Task) {
    t.childCount > 0 && t.sleep <= WAIT_SLEEP
  }

  /** All time ever charged is the clock at the last switch, modulo the counter width. */
  ghost predicate TimeInv(s: State) {
    s.last < |s.tasks| && TotalTime(s.tasks) % WORD == s.tasks[s.last].lastTime
  }

  ghost predicate Inv(s: State) {
    FamilyInv(s) && s.current in s.queue && s.last == s.current && TimeInv(s) && s.tasks[s.current].sleep == 0
  }

  // ---- Counting ----

  lemma {:induction false} ChildrenSame(tasks: seq<Task>, tasks': seq<Task>, q: seq<nat>, h: nat)
    requires forall i | 0 <= i < |q| :: q[i] < |tasks| && q[i] < |tasks'| && tasks'[q[i]].parent == tasks[q[i]].parent
    ensures Children(tasks', q, h) == Children(tasks, q, h)
  {
    if q != [] { ChildrenSame(tasks, tasks', q[1..], h); }
  }

  lemma {:induction false} ChildrenAppend(tasks: seq<Task>, q: seq<nat>, x: nat, h: nat)
    requires x < |tasks| && forall i | 0 <= i < |q| :: q[i] < |tasks|
    ensures Children(tasks, q + [x], h) == Children(tasks, q, h) + (if tasks[x].parent == h then 1 else 0)
  {
    if q == [] {
      assert q + [x] == [x];
    } else {
      assert (q + [x])[1..] == q[1..] + [x];
      ChildrenAppend(tasks, q[1..], x, h);
    }
  }

  lemma {:induction false} ChildrenWithout(tasks: seq<Task>, q: seq<nat>, p: nat, h: nat)
    requires p < |q| && forall i | 0 <= i < |q| :: q[i] < |tasks|
    ensures Children(tasks, q[..p] + q[p + 1..], h) + (if tasks[q[p]].parent == h then 1 else 0)
         == Children(tasks, q, h)
  {
    if p == 0 {
      assert q[..0] + q[1..] == q[1..];
    } else {
      ChildrenWithout(tasks, q[1..], p - 1, h);
      assert (q[..p] + q[p + 1..])[1..] == q[1..][..p - 1] + q[1..][p..];
    }
  }

  lemma {:induction false} SomeChild(tasks: seq<Task>, q: seq<nat>, h: nat) returns (i: nat)
    requires forall i | 0 <= i < |q| :: q[i] < |tasks|
    requires Children(tasks, q, h) > 0
    ensures i < |q| && tasks[q[i]].parent == h
  {
    if tasks[q[0]].parent == h {
      i := 0;
    } else {
      var j := SomeChild(tasks, q[1..], h);
      i := j + 1;
    }
  }

  lemma TimeSame(tasks: seq<Task>, tasks': seq<Task>)
    requires |tasks| == |tasks'| && forall h | 0 <= h < |tasks| :: tasks'[h].time == tasks[h].time
    ensures TotalTime(tasks') == TotalTime(tasks)
  {
    SumSame(tasks, tasks', TimeOf);
  }

  // ---- Steps ----

  /** Same tree: fields the family invariant reads are untouched. */
  ghost predicate SameFamily(s: State, r: State) {
    && r.queue == s.queue && |r.tasks| == |s.tasks| && r.nextPid == s.nextPid
    && forall h | 0 <= h < |s.tasks| ::
         && r.tasks[h].id == s.tasks[h].id && r.tasks[h].parent == s.tasks[h].parent
         && r.tasks[h].childCount == s.tasks[h].childCount
         && (r.tasks[h].waiting ==> Polling(r.tasks[h]))
  }

  lemma SameFamilyKeeps(s: State, r: State)
    requires FamilyInv(s) && SameFamily(s, r) && r.current < |s.tasks| && r.last < |s.tasks|
    ensures FamilyInv(r)
  {
    forall h | 0 <= h < |s.tasks| ensures r.tasks[h].childCount == Children(r.tasks, r.queue[1..], h) {
      ChildrenSame(s.tasks, r.tasks, s.queue[1..], h);
    }
  }

  lemma SwitchFromSame(s: State, q: nat, tick: nat)
    requires FamilyInv(s) && q < |s.queue|
    ensures SameFamily(s, SwitchFrom(s, q, tick))
  {
    SelectOnlySleep(s.tasks, s.queue, q);
  }

  /** A switch charges exactly the ticks since the last one. */
  lemma SwitchTime(s: State, q: nat, tick: nat)
    requires WellFormed(s) && q < |s.queue| && tick < WORD
    ensures var r := SwitchFrom(s, q, tick);
            && r.tasks[r.last].lastTime == tick
            && (TimeInv(s) ==> TotalTime(r.tasks) % WORD == tick)
            && (TotalTime(s.tasks) == s.tasks[s.last].lastTime <= tick ==> TotalTime(r.tasks) == tick)
  {
    SelectOnlySleep(s.tasks, s.queue, q);
    var (after, p) := Select(s.tasks, s.queue, q);
    TimeSame(s.tasks, after);
    ChargeTime(after, s.last, tick);
    var charged := Charge(after, s.last, tick);
    TimeSame(charged, Stamp(charged, s.queue[p], tick));
  }

  lemma ChargeTime(tasks: seq<Task>, last: nat, tick: nat)
    requires last < |tasks| && tick < WORD
    ensures var total, charged := TotalTime(tasks), TotalTime(Charge(tasks, last, tick));
            && (total % WORD == tasks[last].lastTime ==> charged % WORD == tick)
            && (total == tasks[last].lastTime <= tick ==> charged == tick)
  {
    var t, t' := tasks[last], Charge(tasks, last, tick)[last];
    SumPart(tasks, last, TimeOf);
    SumUpdate(tasks, last, t', TimeOf);
    assert TotalTime(Charge(tasks, last, tick)) == TotalTime(tasks) - t.time + t'.time;
    if TotalTime(tasks) % WORD == t.lastTime { ChargeMod(TotalTime(tasks), t.time, t.lastTime, tick); }
  }

  lemma ChargeMod(total: nat, time: nat, lastTime: nat, tick: nat)
    requires time <= total && total % WORD == lastTime && tick < WORD
    ensures (total - time + (time + tick - lastTime) % WORD) % WORD == tick
  {
    var p, q := total / WORD, (time + tick - lastTime) / WORD;
    assert total - time + (time + tick - lastTime) % WORD == (p - q) * WORD + tick;
  }

  lemma CreateChildren(s: State, tick: nat, h: nat)
    requires FamilyInv(s) && h <= |s.tasks|
    ensures var r := Create(s, tick);
            && (forall i | 0 <= i < |r.queue| :: r.queue[i] < |r.tasks|)
            && Children(r.tasks, r.queue[1..], h)
               == (if h < |s.tasks| then s.tasks[h].childCount else 0) + (if h == s.current then 1 else 0)
  {
    var r, n, q := Create(s, tick), |s.tasks|, s.queue[1..];
    assert r.queue[1..] == q + [n];
    ChildrenAppend(r.tasks, q, n, h);
    ChildrenSame(s.tasks, r.tasks, q, h);
    if h == n { NoChildYet(s.tasks, q, n); }
  }

  lemma CreateFamily(s: State, tick: nat)
    requires FamilyInv(s)
    ensures FamilyInv(Create(s, tick))
  {
    var r := Create(s, tick);
    forall h | 0 <= h < |r.tasks| ensures r.tasks[h].childCount == Children(r.tasks, r.queue[1..], h) {
      CreateChildren(s, tick, h);
    }
    PidSuccessor(|s.tasks|);
  }

  lemma PidSuccessor(h: nat)
    ensures (PidOf(h) + 1) % WORD == PidOf(h + 1)
  {}

  lemma {:induction false} NoChildYet(tasks: seq<Task>, q: seq<nat>, n: nat)
    requires forall i | 0 <= i < |q| :: q[i] < |tasks| && tasks[q[i]].parent < n
    ensures Children(tasks, q, n) == 0
  {
    if q != [] { NoChildYet(tasks, q[1..], n); }
  }

  lemma RemoveWellFormed(s: State, p: nat)
    requires WellFormed(s) && 0 < p < |s.queue|
    ensures WellFormed(RemoveAt(s, p))
  {
    RemovalKeepsOrder(s, p);
  }

  lemma RemoveChildren(s: State, p: nat, h: nat)
    requires WellFormed(s) && 0 < p < |s.queue| && WellFormed(RemoveAt(s, p))
    ensures var r := RemoveAt(s, p);
            Children(s.tasks, s.queue[1..], h)
            == Children(r.tasks, r.queue[1..], h) + (if s.tasks[s.queue[p]].parent == h then 1 else 0)
  {
    var r, q := RemoveAt(s, p), s.queue[1..];
    assert r.queue[1..] == q[..p - 1] + q[p..];
    ChildrenWithout(s.tasks, q, p - 1, h);
    ChildrenSame(s.tasks, r.tasks, r.queue[1..], h);
  }

  lemma RemoveFamily(s: State, p: nat)
    requires FamilyInv(s) && 0 < p < |s.queue|
    ensures FamilyInv(RemoveAt(s, p))
  {
    var r := RemoveAt(s, p);
    RemoveWellFormed(s, p);
    forall h | 0 <= h < |s.tasks|
      ensures r.tasks[h].childCount == Children(r.tasks, r.queue[1..], h)
    {
      RemoveChildren(s, p, h);
    }
  }

  /** The invariant holds at the start and every enabled step keeps it. */
  lemma InitInv()
    ensures Inv(Init())
  {}

  lemma StepKeepsInv(s: State, op: Op, tick: nat)
    requires Inv(s) && Enabled(s, op) && tick < WORD
    ensures Inv(Step(s, op, tick))
  {
    match op
    case Timer => SwitchKeepsInv(s, NextPosition(s), tick);
    case Nap(turns) => SleepKeepsInv(s, turns, tick);
    case Spawn => CreateFamily(s, tick); CreateTime(s, tick);
    case Leave => ExitKeepsInv(s, tick);
    case Kill(pid) =>
      var p := PidPosition(s.tasks, s.queue, pid);
      if p < |s.queue| { KillKeepsInv(s, p); }
    case StartWait => QuietKeepsAll(s, WaitBegin(s).0);
    case EndWait => QuietKeepsAll(s, WaitEnd(s));
  }

  lemma SleepKeepsInv(s: State, turns: nat, tick: nat)
    requires Inv(s) && tick < WORD && (s.tasks[s.current].waiting ==> turns == WAIT_SLEEP)
    ensures Inv(Sleep(s, turns, tick))
  {
    var m := s.(tasks := s.tasks[s.current := s.tasks[s.current].(sleep := turns)]);
    QuietKeepsAll(s, m);
    SwitchKeepsInv(m, NextPosition(m), tick);
  }

  lemma KillKeepsInv(s: State, p: nat)
    requires Inv(s) && 0 < p < |s.queue| && s.queue[p] != s.current
    ensures Inv(RemoveAt(s, p))
  {
    RemoveFamily(s, p);
    RemoveTime(s, p);
    StillQueued(s, p, s.current);
  }

  /** A removal behind the head keeps the invariant if and only if its victim is not the running task. */
  lemma KillKeepsInvIff(s: State, p: nat)
    requires Inv(s) && 0 < p < |s.queue|
    ensures Inv(RemoveAt(s, p)) <==> s.queue[p] != s.current
  {
    if s.queue[p] == s.current { RemovalKeepsOrder(s, p); } else { KillKeepsInv(s, p); }
  }

  /** A task that removed itself by pid leaves, at a switch before anything else happens, like one that exits. */
  lemma SelfKillThenSwitch(s: State, tick: nat)
    requires Inv(s) && s.current != s.queue[0] && tick < WORD
    ensures s.current in s.queue[1..]
    ensures var p := Position(s.queue, s.current);
            var m := RemoveAt(s, p);
            && WellFormed(m) && SwitchFrom(m, if p < |m.queue| then p else 0, tick) == Exit(s, tick)
            && Inv(Exit(s, tick))
  {
    ExitKeepsInv(s, tick);
    RemoveWellFormed(s, Position(s.queue, s.current));
  }

  lemma QuietKeepsAll(s: State, r: State)
    requires Inv(s) && SameFamily(s, r) && r.current == s.current && r.last == s.last
    requires forall h | 0 <= h < |s.tasks| ::
               r.tasks[h].time == s.tasks[h].time && r.tasks[h].lastTime == s.tasks[h].lastTime
    ensures FamilyInv(r) && TimeInv(r)
  {
    SameFamilyKeeps(s, r);
    TimeSame(s.tasks, r.tasks);
  }

  lemma SwitchKeepsInv(s: State, q: nat, tick: nat)
    requires FamilyInv(s) && TimeInv(s) && q < |s.queue| && tick < WORD
    ensures Inv(SwitchFrom(s, q, tick))
  {
    SwitchFromSame(s, q, tick);
    SameFamilyKeeps(s, SwitchFrom(s, q, tick));
    SwitchTime(s, q, tick);
  }

  lemma CreateTime(s: State, tick: nat)
    requires Inv(s)
    ensures TimeInv(Create(s, tick)) && TotalTime(Create(s, tick).tasks) == TotalTime(s.tasks)
  {
    var r := Create(s, tick);
    var m := r.tasks[..|s.tasks|];
    assert r.tasks == m + [r.tasks[|s.tasks|]];
    SumAppend(m, r.tasks[|s.tasks|], TimeOf);
    TimeSame(s.tasks, m);
  }

  lemma RemoveTime(s: State, p: nat)
    requires Inv(s) && 0 < p < |s.queue|
    ensures TimeInv(RemoveAt(s, p)) && TotalTime(RemoveAt(s, p).tasks) == TotalTime(s.tasks)
  {
    TimeSame(s.tasks, RemoveAt(s, p).tasks);
  }

  lemma StillQueued(s: State, p: nat, h: nat)
    requires WellFormed(s) && 0 < p < |s.queue| && h in s.queue && h != s.queue[p]
    ensures h in RemoveAt(s, p).queue
  {
    var i := Position(s.queue, h);
    var q := RemoveAt(s, p).queue;
    assert q[if i < p then i else i - 1] == h;
  }

  lemma LeaverIsQueued(s: State)
    requires WellFormed(s) && s.current in s.queue && s.current != s.queue[0]
    ensures s.current in s.queue[1..]
  {
    assert s.queue[1..][Position(s.queue, s.current) - 1] == s.current;
  }

  lemma ExitKeepsInv(s: State, tick: nat)
    requires Inv(s) && s.current != s.queue[0] && tick < WORD
    ensures s.current in s.queue[1..] && Inv(Exit(s, tick))
  {
    var p := Position(s.queue, s.current);
    assert s.queue[1..][p - 1] == s.current;
    RemoveFamily(s, p);
    RemoveTime(s, p);
    var r := RemoveAt(s, p);
    SwitchKeepsInv(r, if p < |r.queue| then p else 0, tick);
  }

  // ---- Runs ----

  datatype Event = Event(op: Op, tick: nat)

  /** A kernel entry leads from s to k. */
  ghost predicate Moves(s: State, e: Event, k: State) {
    Enabled(s, e.op) && e.tick < WORD && k == Step(s, e.op, e.tick)
  }

  ghost predicate MovesAt(states: seq<State>, events: seq<Event>, i: nat)
    requires |states| == |events| + 1 && i < |events|
  {
    Moves(states[i], events[i], states[i + 1])
  }

  /** A run: the states it passes through and the events between them. */
  ghost predicate IsTrace(states: seq<State>, events: seq<Event>) {
    |states| == |events| + 1 && forall i | 0 <= i < |events| :: MovesAt(states, events, i)
  }

  lemma TraceTail(states: seq<State>, events: seq<Event>)
    requires IsTrace(states, events) && events != []
    ensures Moves(states[0], events[0], states[1]) && IsTrace(states[1..], events[1..])
  {
    assert MovesAt(states, events, 0);
    forall i | 0 <= i < |events[1..]| ensures MovesAt(states[1..], events[1..], i) {
      assert MovesAt(states, events, i + 1);
    }
  }

  /** The invariant over every run. */
  lemma {:induction false} RunKeepsInv(states: seq<State>, events: seq<Event>, i: nat)
    requires IsTrace(states, events) && Inv(states[0]) && i <= |events|
    ensures Inv(states[i])
    decreases i
  {
    if i > 0 {
      RunKeepsInv(states, events, i - 1);
      assert MovesAt(states, events, i - 1);
      MoveKeepsInv(states[i - 1], events[i - 1], states[i]);
    }
  }

  lemma MoveKeepsInv(s: State, e: Event, k: State)
    requires Inv(s) && Moves(s, e, k)
    ensures Inv(k)
  {
    StepKeepsInv(s, e.op, e.tick);
  }

  /** Everything the invariant says, spelled out for every state r of every run from boot. */
  lemma RunsFromBoot(states: seq<State>, events: seq<Event>, i: nat)
    requires IsTrace(states, events) && states[0] == Init() && i <= |events|
    ensures var r := states[i];
            && Distinct(r.queue) && r.queue != [] && r.queue[0] == 0 && r.current in r.queue
            && (forall h | 0 <= h < |r.tasks| :: r.tasks[h].id == (h + 1) % WORD)
            && (forall j | 0 <= j < |r.queue| :: r.queue[j] < |r.tasks|)
            && (forall h | 0 <= h < |r.tasks| :: r.tasks[h].childCount == Children(r.tasks, r.queue[1..], h))
            && r.last < |r.tasks| && TotalTime(r.tasks) % WORD == r.tasks[r.last].lastTime
            && Inv(r)
  {
    InitInv();
    RunKeepsInv(states, events, i);
  }

  /** Creations of two tasks lie a multiple of 2^32 apart. */
  predicate WrapApart(g: nat, h: nat) {
    (if g <= h then h - g else g - h) % WORD == 0
  }

  /**
   get_pid_task finds a queued task by its pid exactly if none queued before it was created a
   multiple of 2^32 tasks apart.
   */
  lemma PidFindsTask(s: State, i: nat)
    requires Inv(s) && i < |s.queue|
    ensures PidPosition(s.tasks, s.queue, s.tasks[s.queue[i]].id) == i <==>
              forall j | 0 <= j < i :: !WrapApart(s.queue[j], s.queue[i])
    ensures |s.tasks| < WORD ==> PidPosition(s.tasks, s.queue, s.tasks[s.queue[i]].id) == i
  {
    var p := PidPosition(s.tasks, s.queue, s.tasks[s.queue[i]].id);
    forall j | 0 <= j < i
      ensures s.tasks[s.queue[j]].id == s.tasks[s.queue[i]].id <==> WrapApart(s.queue[j], s.queue[i])
    {
      if s.queue[j] <= s.queue[i] { SamePid(s.queue[j], s.queue[i]); } else { SamePid(s.queue[i], s.queue[j]); }
    }
    assert s.tasks[s.queue[p]].id == s.tasks[s.queue[i]].id;
    if |s.tasks| < WORD {
      SmallPid(s.queue[p]);
      SmallPid(s.queue[i]);
    }
  }

  lemma SmallPid(h: nat)
    requires h + 1 < WORD
    ensures PidOf(h) == h + 1
  {}

  /** Two tasks share a pid exactly when their creations lie a multiple of 2^32 apart, so early pids are unique. */
  lemma PidsUniqueIff(s: State, g: nat, h: nat)
    requires Inv(s) && g < h < |s.tasks|
    ensures s.tasks[g].id == s.tasks[h].id <==> (h - g) % WORD == 0
    ensures |s.tasks| + 1 < WORD ==> 1 <= s.tasks[g].id < s.tasks[h].id < s.nextPid
  {
    SamePid(g, h);
    if |s.tasks| + 1 < WORD {
      SmallPid(g);
      SmallPid(h);
      SmallPid(|s.tasks|);
    }
  }

  lemma SamePid(g: nat, h: nat)
    requires g <= h
    ensures PidOf(g) == PidOf(h) <==> (h - g) % WORD == 0
  {
    var p, q := (g + 1) / WORD, (h + 1) / WORD;
    assert h - g == (q - p) * WORD + PidOf(h) - PidOf(g);
  }

  /** No waiter is stranded: it still has a queued child, and the exit of any child of it wakes it. */
  lemma WaiterHasChild(s: State, h: nat) returns (i: nat)
    requires Inv(s) && h < |s.tasks| && s.tasks[h].waiting
    ensures 0 < i < |s.queue| && s.tasks[s.queue[i]].parent == h
    ensures !RemoveAt(s, i).tasks[h].waiting && RemoveAt(s, i).tasks[h].child == s.tasks[s.queue[i]].id
  {
    i := SomeChild(s.tasks, s.queue[1..], h);
    i := i + 1;
  }

  /** Removal keeps the order of the rest and touches no other list position. */
  lemma RemovalKeepsOrder(s: State, p: nat)
    requires WellFormed(s) && 0 < p < |s.queue|
    ensures var q := RemoveAt(s, p).queue;
            && |q| == |s.queue| - 1
            && (forall i | 0 <= i < |q| :: q[i] == s.queue[if i < p then i else i + 1])
            && s.queue[p] !in q
  {
    var q := RemoveAt(s, p).queue;
    assert forall i | 0 <= i < |q| :: q[i] == s.queue[if i < p then i else i + 1];
  }

  /** The clock never runs backwards from a given reading. */
  ghost predicate Monotone(from: nat, events: seq<Event>)
    decreases |events|
  {
    events == [] || (from <= events[0].tick && Monotone(events[0].tick, events[1..]))
  }

  /** All time charged so far is exactly the clock at the last switch, which is at most a given reading. */
  ghost predicate TimeExact(s: State, clock: nat) {
    s.last < |s.tasks| && TotalTime(s.tasks) == s.tasks[s.last].lastTime <= clock
  }

  /**
   The time charged to all tasks is exactly the clock at the last switch, without any modulus, while
   the clock runs forward.
   */
  lemma {:induction false} TimeAddsUp(states: seq<State>, events: seq<Event>, from: nat)
    requires IsTrace(states, events) && Inv(states[0]) && Monotone(from, events) && TimeExact(states[0], from)
    ensures var r := states[|events|]; Inv(r) && TotalTime(r.tasks) == r.tasks[r.last].lastTime
    decreases |events|
  {
    if events != [] {
      TraceTail(states, events);
      var e := events[0];
      StepKeepsInv(states[0], e.op, e.tick);
      StepTimeExact(states[0], e.op, e.tick);
      TimeAddsUp(states[1..], events[1..], e.tick);
    }
  }

  lemma ExitTimeExact(s: State, tick: nat)
    requires Inv(s) && s.current in s.queue[1..] && tick < WORD
    requires TotalTime(s.tasks) == s.tasks[s.last].lastTime <= tick
    ensures var r := Exit(s, tick); TotalTime(r.tasks) == tick == r.tasks[r.last].lastTime
  {
    var p := Position(s.queue, s.current);
    RemoveTime(s, p);
    RemoveWellFormed(s, p);
    var r := RemoveAt(s, p);
    SwitchTime(r, if p < |r.queue| then p else 0, tick);
  }

  lemma SleepTimeExact(s: State, turns: nat, tick: nat)
    requires Inv(s) && tick < WORD
    requires TotalTime(s.tasks) == s.tasks[s.last].lastTime <= tick
    ensures var r := Sleep(s, turns, tick); TotalTime(r.tasks) == tick == r.tasks[r.last].lastTime
  {
    var m := s.(tasks := s.tasks[s.current := s.tasks[s.current].(sleep := turns)]);
    TimeSame(s.tasks, m.tasks);
    SwitchTime(m, NextPosition(m), tick);
  }

  lemma StepTimeExact(s: State, op: Op, tick: nat)
    requires Inv(s) && Enabled(s, op) && tick < WORD
    requires TotalTime(s.tasks) == s.tasks[s.last].lastTime <= tick
    ensures var r := Step(s, op, tick);
            r.last < |r.tasks| && TotalTime(r.tasks) == r.tasks[r.last].lastTime <= tick
  {
    match op
    case Timer => SwitchTime(s, NextPosition(s), tick);
    case Nap(turns) => SleepTimeExact(s, turns, tick);
    case Spawn => CreateTime(s, tick);
    case Leave => ExitTimeExact(s, tick);
    case Kill(pid) =>
      var p := PidPosition(s.tasks, s.queue, pid);
      if p < |s.queue| { RemoveTime(s, p); }
    case StartWait => TimeSame(s.tasks, WaitBegin(s).0.tasks);
    case EndWait => TimeSame(s.tasks, WaitEnd(s).tasks);
  }

  /**
   A creation adds one awake child of the running task behind the others, and changes nothing else
   but its parent's counter.
   */
  lemma CreateExact(s: State, tick: nat, h: nat)
    requires WellFormed(s) && h < |s.tasks|
    ensures var r, n := Create(s, tick), |s.tasks|;
            && |r.tasks| == n + 1 && r.queue == s.queue + [n] && r.current == s.current && r.last == s.last
            && r.tasks[n].parent == s.current && r.tasks[n].id == s.nextPid && r.tasks[n].sleep == 0
            && r.tasks[n].time == 0 && r.tasks[n].lastTime == tick && !r.tasks[n].waiting && r.tasks[n].childCount == 0
            && (h != s.current ==> r.tasks[h] == s.tasks[h])
            && (h == s.current ==> r.tasks[h] == s.tasks[h].(childCount := s.tasks[h].childCount + 1))
  {}

  /** wait raises the caller's flag exactly if it has children, and touches nothing else. */
  lemma WaitBeginExact(s: State, h: nat)
    requires WellFormed(s) && h < |s.tasks|
    ensures var (r, ok) := WaitBegin(s);
            && (ok <==> s.tasks[s.current].childCount > 0) && (!ok ==> r == s)
            && |r.tasks| == |s.tasks| && r.queue == s.queue && r.current == s.current
            && r.tasks[h] == if ok && h == s.current then s.tasks[h].(waiting := true) else s.tasks[h]
  {}

  /** The end of wait lowers the flag and forgets the child, and touches nothing else. */
  lemma WaitEndExact(s: State, h: nat)
    requires WellFormed(s) && h < |s.tasks|
    ensures var r := WaitEnd(s);
            && |r.tasks| == |s.tasks| && r.queue == s.queue && r.current == s.current
            && r.tasks[h] == if h == s.current then s.tasks[h].(waiting := false, child := 0) else s.tasks[h]
  {}

  /**
   A removal touches only the parent: its flag falls if it was up, with the pid recorded, and its
   counter goes down.
   */
  lemma RemovalExact(s: State, p: nat, h: nat)
    requires Inv(s) && 0 < p < |s.queue| && h < |s.tasks|
    ensures var r, c := RemoveAt(s, p), s.tasks[s.queue[p]];
            && |r.tasks| == |s.tasks| && r.current == s.current
            && (h != c.parent ==> r.tasks[h] == s.tasks[h])
            && (h == c.parent ==>
                  var t := s.tasks[h];
                  && t.childCount > 0
                  && r.tasks[h] == t.(waiting := false, childCount := t.childCount - 1,
                                      child := if t.waiting then c.id else t.child))
  {
    if h == s.tasks[s.queue[p]].parent {
      RemoveWellFormed(s, p);
      RemoveChildren(s, p, h);
    }
  }

  /** A task that creates another, waits, and loses it, is told the pid it got from the creation. */
  lemma NewChildWakes(s: State, tick: nat)
    requires Inv(s)
    ensures var (w, ok) := WaitBegin(Create(s, tick));
            && ok && WellFormed(w) && |w.queue| == |s.queue| + 1 && w.tasks[s.current].waiting
            && var v := RemoveAt(w, |s.queue|);
               !v.tasks[s.current].waiting && v.tasks[s.current].child == s.nextPid && v.queue == s.queue
  {
    CreateExact(s, tick, s.current);
    var r := Create(s, tick);
    WaitBeginExact(r, s.current);
    var w := WaitBegin(r).0;
    assert w.queue[..|s.queue|] + w.queue[|s.queue| + 1..] == s.queue;
  }
}
