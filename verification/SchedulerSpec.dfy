/**
 The task table, the round-robin queue and wait/exit as functions of a state, one function per
 kernel operation.  A task is named by its creation index, so a removed task keeps its name and
 its record.  Scheduler proves that the linked-list code computes these functions.
 */
module SchedulerSpec {
  import opened Sequences
  import opened Words

  /** Turns that wait() sleeps between looks at its flag. */
  const WAIT_SLEEP: nat := 3

  datatype Task = Task(
    id: nat, parent: nat, sleep: nat, time: nat, lastTime: nat,
    waiting: bool, child: nat, childCount: nat)

  /** Tasks ever created, the queue from its head, and the kernel's three globals. */
  datatype State = State(tasks: seq<Task>, queue: seq<nat>, current: nat, last: nat, nextPid: nat)

  ghost predicate Distinct(queue: seq<nat>) {
    forall i, j | 0 <= i < j < |queue| :: queue[i] != queue[j]
  }

  /** Shape: the queue is a duplicate-free list of existing tasks headed by the first task. */
  ghost predicate WellFormed(s: State) {
    && |s.queue| > 0 && s.queue[0] == 0
    && (forall i | 0 <= i < |s.queue| :: s.queue[i] < |s.tasks|)
    && Distinct(s.queue)
    && s.current < |s.tasks| && s.last < |s.tasks|
    && (forall h | 0 <= h < |s.tasks| :: s.tasks[h].parent < |s.tasks|)
  }

  /** Position of a task in the queue, or the queue's length. */
  function Position(queue: seq<nat>, h: nat): (p: nat)
    ensures p <= |queue|
    ensures p < |queue| <==> h in queue
    ensures p < |queue| ==> queue[p] == h
    ensures forall i | 0 <= i < p :: queue[i] != h
  {
    FirstIndex(queue, (x: nat) => x == h)
  }

  function SleepOf(t: Task): nat { t.sleep }

  function TotalSleep(tasks: seq<Task>): nat { SumOf(tasks, SleepOf) }

  function Tired(t: Task): Task
    requires t.sleep > 0
  {
    t.(sleep := t.sleep - 1)
  }

  /** The position behind p on a ring of n. */
  function Next(n: nat, p: nat): nat
    requires p < n
  {
    if p + 1 < n then p + 1 else 0
  }

  function After(queue: seq<nat>, q: nat): nat
    requires q < |queue|
  {
    Next(|queue|, q)
  }

  /**
   The selection loop from queue position q: pass each sleeping task, taking one off its sleep,
   until an awake one is found.  It ends because each turn takes one off the total sleep.
   */
  function Select(tasks: seq<Task>, queue: seq<nat>, q: nat): (r: (seq<Task>, nat))
    requires q < |queue| && forall i | 0 <= i < |queue| :: queue[i] < |tasks|
    ensures |r.0| == |tasks| && r.1 < |queue| && r.0[queue[r.1]].sleep == 0
    decreases TotalSleep(tasks)
  {
    var h := queue[q];
    if tasks[h].sleep == 0 then (tasks, q)
    else
      SumUpdate(tasks, h, Tired(tasks[h]), SleepOf);
      Select(tasks[h := Tired(tasks[h])], queue, After(queue, q))
  }

  /** The scan changes nothing but sleeps, and those only downwards. */
  lemma {:induction false} SelectOnlySleep(tasks: seq<Task>, queue: seq<nat>, q: nat)
    requires q < |queue| && forall i | 0 <= i < |queue| :: queue[i] < |tasks|
    ensures var after := Select(tasks, queue, q).0;
            forall h | 0 <= h < |tasks| ::
              after[h] == tasks[h].(sleep := after[h].sleep) && after[h].sleep <= tasks[h].sleep
    decreases TotalSleep(tasks)
  {
    var h := queue[q];
    if tasks[h].sleep > 0 {
      SumUpdate(tasks, h, Tired(tasks[h]), SleepOf);
      SelectOnlySleep(tasks[h := Tired(tasks[h])], queue, After(queue, q));
    }
  }

  /** Accounting of a switch: charge the last task, stamp the chosen one. */
  function Charge(tasks: seq<Task>, last: nat, tick: nat): seq<Task>
    requires last < |tasks|
  {
    tasks[last := tasks[last].(time := (tasks[last].time + tick - tasks[last].lastTime) % WORD)]
  }

  function Stamp(tasks: seq<Task>, h: nat, tick: nat): seq<Task>
    requires h < |tasks|
  {
    tasks[h := tasks[h].(lastTime := tick)]
  }

  /** switch_task with the scan starting at queue position q. */
  function SwitchFrom(s: State, q: nat, tick: nat): (r: State)
    requires q < |s.queue| && WellFormed(s)
    ensures WellFormed(r) && r.current in r.queue && r.queue == s.queue && |r.tasks| == |s.tasks|
  {
    SelectOnlySleep(s.tasks, s.queue, q);
    var (tasks, p) := Select(s.tasks, s.queue, q);
    var c := s.queue[p];
    s.(tasks := Stamp(Charge(tasks, s.last, tick), c, tick), current := c, last := c)
  }

  /** Where the scan starts when the current task is queued. */
  function NextPosition(s: State): nat
    requires s.current in s.queue
  {
    After(s.queue, Position(s.queue, s.current))
  }

  /** switch_task, as the timer calls it. */
  function Switch(s: State, tick: nat): (r: State)
    requires WellFormed(s) && s.current in s.queue
    ensures WellFormed(r) && r.current in r.queue && r.queue == s.queue && |r.tasks| == |s.tasks|
  {
    SwitchFrom(s, NextPosition(s), tick)
  }

  /** sleep_thread: the running task sets its own sleep and yields. */
  function Sleep(s: State, turns: nat, tick: nat): (r: State)
    requires WellFormed(s) && s.current in s.queue
    ensures WellFormed(r) && r.current in r.queue && r.queue == s.queue && |r.tasks| == |s.tasks|
  {
    var t := s.tasks[s.current];
    Switch(s.(tasks := s.tasks[s.current := t.(sleep := turns)]), tick)
  }

  /** init_tasking. */
  function Init(): State {
    State([Task(1, 0, 0, 0, 0, false, 0, 0)], [0], 0, 0, 2)
  }

  /** create_thread and create_process: append a child of the running task. */
  function Create(s: State, tick: nat): (r: State)
    requires s.current < |s.tasks|
    ensures WellFormed(s) ==> WellFormed(r)
  {
    var c := s.tasks[s.current];
    var born := Task(s.nextPid, s.current, 0, 0, tick, false, 0, 0);
    s.(tasks := (s.tasks + [born])[s.current := c.(childCount := c.childCount + 1)],
       queue := s.queue + [|s.tasks|],
       nextPid := (s.nextPid + 1) % WORD)
  }

  /** The wake-up and count-down remove_task applies to the parent of a removed task. */
  function Bereaved(parent: Task, childId: nat): Task {
    var p := if parent.waiting then parent.(waiting := false, child := childId) else parent;
    if p.childCount > 0 then p.(childCount := p.childCount - 1) else p
  }

  /** remove_task of the task at queue position p. */
  function RemoveAt(s: State, p: nat): State
    requires WellFormed(s) && 0 < p < |s.queue|
  {
    var t := s.tasks[s.queue[p]];
    s.(tasks := s.tasks[t.parent := Bereaved(s.tasks[t.parent], t.id)],
       queue := s.queue[..p] + s.queue[p + 1..])
  }

  /** exit_thread: remove the running task, then switch to its old successor or the head. */
  function Exit(s: State, tick: nat): State
    requires WellFormed(s) && s.current in s.queue[1..]
  {
    var p := Position(s.queue, s.current);
    var r := RemoveAt(s, p);
    SwitchFrom(r, if p < |r.queue| then p else 0, tick)
  }

  /** get_pid_task: first queued task with the pid, as a queue position. */
  function PidPosition(tasks: seq<Task>, queue: seq<nat>, pid: nat): (p: nat)
    requires forall i | 0 <= i < |queue| :: queue[i] < |tasks|
    ensures p <= |queue|
    ensures p < |queue| ==> tasks[queue[p]].id == pid
    ensures forall i | 0 <= i < p :: tasks[queue[i]].id != pid
  {
    FirstIndex(queue, (h: nat) => h < |tasks| && tasks[h].id == pid)
  }

  /** Test-and-set at the start of wait. */
  function WaitBegin(s: State): (State, bool)
    requires s.current < |s.tasks|
  {
    var t := s.tasks[s.current];
    if t.childCount == 0 then (s, false)
    else (s.(tasks := s.tasks[s.current := t.(waiting := true)]), true)
  }

  /** End of wait, once the flag is down. */
  function WaitEnd(s: State): State
    requires s.current < |s.tasks|
  {
    s.(tasks := s.tasks[s.current := s.tasks[s.current].(waiting := false, child := 0)])
  }
}
