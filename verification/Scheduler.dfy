/** The scheduler as it runs: linked task nodes, the kernel's globals, and loops over next pointers. */
module Scheduler {
  import opened Sequences
  import opened Words
  import Spec = SchedulerSpec
  import Runs = SchedulerRuns

  class Node {
    /** Creation index, the node's name in the specification. */
    ghost const index: nat
    var id: nat
    var parent: Node?
    var next: Node?
    var sleep: nat
    var time: nat
    var lastTime: nat
    var waiting: bool
    var child: nat
    var childCount: nat

    /** A zeroed node with its pid, parent and clock reading filled in. */
    constructor (ghost index: nat, id: nat, parent: Node?, tick: nat)
      ensures this.id == id && this.parent == parent && lastTime == tick && this.index == index
      ensures sleep == 0 && time == 0 && !waiting && child == 0 && childCount == 0 && next == null
    {
      this.index := index;
      this.id, this.parent, lastTime := id, parent, tick;
      sleep, time, child, childCount := 0, 0, 0, 0;
      next, waiting := null, false;
    }

    /** The record this node stands for: all its fields but the link. */
    ghost function Record(): Spec.Task
      reads this`id, this`parent, this`sleep, this`time, this`lastTime, this`waiting, this`child, this`childCount
    {
      Spec.Task(id, if parent == null then 0 else parent.index, sleep, time, lastTime, waiting, child, childCount)
    }
  }

  class Kernel {
    var currentTask: Node
    var taskQueue: Node
    var lastTask: Node
    var nextPid: nat

    /** Every node ever created, by creation index, and the abstract state the nodes stand for. */
    ghost var all: seq<Node>
    ghost var abs: Spec.State
    ghost var nodes: set<Node>

    /** Nodes are distinct: each carries its creation index. */
    ghost predicate Indexed()
      reads this`all, this`nodes
    {
      forall h {:trigger all[h]} | 0 <= h < |all| :: all[h].index == h && all[h] in nodes
    }

    /** Every node holds the fields of its record. */
    ghost predicate Recorded()
      reads this`all, this`abs, this`nodes, nodes`id, nodes`parent, nodes`sleep, nodes`time, nodes`lastTime
      reads nodes`waiting, nodes`child, nodes`childCount
    {
      && |all| == |abs.tasks|
      && Indexed()
      && forall h {:trigger abs.tasks[h]} | 0 <= h < |abs.tasks| ::
           && all[h].Record() == abs.tasks[h]
           && abs.tasks[h].parent < |all| && all[h].parent == all[abs.tasks[h].parent]
    }

    /** The nodes of a list of indices are linked in that order and end in null. */
    ghost predicate Linked(q: seq<nat>)
      reads this`all, this`nodes, nodes`next
    {
      && Indexed()
      && (forall i | 0 <= i < |q| :: q[i] < |all|)
      && (forall i {:trigger all[q[i]].next} | 0 <= i < |q| ::
            all[q[i]].next == if i + 1 < |q| then all[q[i + 1]] else null)
    }

    ghost predicate Valid()
      reads this, nodes
    {
      && Recorded()
      && Spec.WellFormed(abs)
      && Linked(abs.queue)
      && taskQueue == all[abs.queue[0]]
      && currentTask == all[abs.current]
      && lastTask == all[abs.last]
      && nextPid == abs.nextPid
    }

    /** init_tasking. */
    constructor ()
      ensures Valid() && fresh(nodes) && abs == Spec.Init()
    {
      var n := new Node(0, 1, null, 0);
      n.parent := n;
      currentTask, taskQueue, lastTask := n, n, n;
      nextPid := 2;
      all, nodes := [n], {n};
      abs := Spec.Init();
    }

    /** Take one off the sleep of a node. */
    method Tire(n: Node, ghost h: nat)
      requires Recorded() && h < |all| && n == all[h] && n.sleep > 0
      modifies this`abs, n`sleep
      ensures Recorded() && old(abs).tasks[h].sleep > 0
      ensures abs == old(abs).(tasks := old(abs).tasks[h := Spec.Tired(old(abs).tasks[h])])
    {
      ghost var t := abs.tasks[h];
      n.sleep := n.sleep - 1;
      abs := abs.(tasks := abs.tasks[h := Spec.Tired(t)]);
    }

    /** One turn of the selection loop: tire the passed node and step on, wrapping at the end. */
    method PassOver(n: Node, ghost p: nat) returns (next: Node)
      requires Recorded() && Linked(abs.queue) && p < |abs.queue| && n == all[abs.queue[p]]
      requires taskQueue == all[abs.queue[0]] && n.sleep > 0
      modifies this`abs, n`sleep
      ensures Recorded() && Linked(abs.queue) && old(abs).tasks[old(abs).queue[p]].sleep > 0
      ensures var h := old(abs).queue[p];
              abs == old(abs).(tasks := old(abs).tasks[h := Spec.Tired(old(abs).tasks[h])])
      ensures next == all[abs.queue[Spec.After(abs.queue, p)]]
    {
      Tire(n, abs.queue[p]);
      next := if n.next == null then taskQueue else n.next;
    }

    /** The selection loop of switch_task. */
    method PickNext(ghost start: nat) returns (temp: Node, ghost p: nat)
      requires Valid() && start < |abs.queue|
      requires if currentTask.next == null then start == 0 else currentTask.next == all[abs.queue[start]]
      modifies this`abs, nodes`sleep
      ensures abs == old(abs).(tasks := abs.tasks) && Recorded()
      ensures (abs.tasks, p) == Spec.Select(old(abs).tasks, old(abs).queue, start)
      ensures temp == all[old(abs).queue[p]]
    {
      ghost var s := abs;
      temp := if currentTask.next == null then taskQueue else currentTask.next;
      p := start;
      while temp.sleep != 0
        invariant Recorded() && Linked(s.queue) && abs == s.(tasks := abs.tasks)
        invariant p < |s.queue| && temp == all[s.queue[p]] && temp.Record() == abs.tasks[s.queue[p]]
        invariant Spec.Select(abs.tasks, s.queue, p) == Spec.Select(s.tasks, s.queue, start)
        decreases Spec.TotalSleep(abs.tasks)
      {
        ghost var h := s.queue[p];
        SumUpdate(abs.tasks, h, Spec.Tired(abs.tasks[h]), Spec.SleepOf);
        temp := PassOver(temp, p);
        p := Spec.After(s.queue, p);
      }
    }

    method ChargeLast(tick: nat)
      requires Recorded() && abs.last < |all| && lastTask == all[abs.last]
      modifies this`abs, lastTask`time
      ensures Recorded() && abs == old(abs).(tasks := Spec.Charge(old(abs).tasks, old(abs).last, tick))
    {
      ghost var t := abs.tasks[abs.last];
      lastTask.time := (lastTask.time + tick - lastTask.lastTime) % WORD;
      abs := abs.(tasks := Spec.Charge(abs.tasks, abs.last, tick));
    }

    method StampChosen(chosen: Node, tick: nat, ghost h: nat)
      requires Recorded() && h < |all| && chosen == all[h]
      modifies this`abs, this`currentTask, this`lastTask, chosen`lastTime
      ensures Recorded() && currentTask == chosen && lastTask == chosen
      ensures abs == old(abs).(tasks := Spec.Stamp(old(abs).tasks, h, tick), current := h, last := h)
    {
      ghost var t := abs.tasks[h];
      currentTask := chosen;
      currentTask.lastTime := tick;
      lastTask := currentTask;
      abs := abs.(tasks := Spec.Stamp(abs.tasks, h, tick), current := h, last := h);
    }

    /** The accounting of switch_task. */
    method Account(chosen: Node, tick: nat, ghost h: nat)
      requires Recorded() && abs.last < |all| && lastTask == all[abs.last] && h < |all| && chosen == all[h]
      modifies this`abs, this`currentTask, this`lastTask, nodes`time, nodes`lastTime
      ensures Recorded() && currentTask == chosen && lastTask == chosen
      ensures abs == old(abs).(tasks := Spec.Stamp(Spec.Charge(old(abs).tasks, old(abs).last, tick), h, tick),
                               current := h, last := h)
    {
      ChargeLast(tick);
      StampChosen(chosen, tick, h);
    }

    /** switch_task.  The scan starts at the running node's successor, also when that node was just removed. */
    method SwitchTask(tick: nat, ghost start: nat)
      requires Valid() && start < |abs.queue|
      requires if currentTask.next == null then start == 0 else currentTask.next == all[abs.queue[start]]
      modifies this, nodes
      ensures Valid() && all == old(all) && nodes == old(nodes)
      ensures abs == Spec.SwitchFrom(old(abs), start, tick)
    {
      ghost var s := abs;
      var temp, p := PickNext(start);
      Account(temp, tick, s.queue[p]);
      assert abs == Spec.SwitchFrom(s, start, tick);
      assert Spec.WellFormed(abs);
    }

    /** The timer's call: the running task is queued. */
    method Timer(tick: nat)
      requires Valid() && abs.current in abs.queue
      modifies this, nodes
      ensures Valid() && all == old(all) && nodes == old(nodes)
      ensures abs == Spec.Switch(old(abs), tick)
    {
      SwitchTask(tick, Spec.NextPosition(abs));
    }

    /** sleep_thread. */
    method SleepThread(turns: nat, tick: nat)
      requires Valid() && abs.current in abs.queue
      modifies this, nodes
      ensures Valid() && all == old(all) && nodes == old(nodes)
      ensures abs == Spec.Sleep(old(abs), turns, tick)
    {
      currentTask.sleep := turns;
      abs := abs.(tasks := abs.tasks[abs.current := abs.tasks[abs.current].(sleep := turns)]);
      Timer(tick);
    }

    /** init_task: a fresh node with the next pid, child of the running task. */
    method InitTask(tick: nat) returns (n: Node)
      requires Recorded() && abs.current < |all| && currentTask == all[abs.current] && nextPid == abs.nextPid
      modifies this`abs, this`all, this`nodes, this`nextPid
      ensures fresh(n) && n.next == null && n.id == old(nextPid)
      ensures all == old(all) + [n] && nodes == old(nodes) + {n} && Recorded() && nextPid == abs.nextPid
      ensures abs == old(abs).(
                tasks := old(abs).tasks + [Spec.Task(old(abs).nextPid, old(abs).current, 0, 0, tick, false, 0, 0)],
                nextPid := (old(abs).nextPid + 1) % WORD)
    {
      n := new Node(|all|, nextPid, currentTask, tick);
      nextPid := (nextPid + 1) % WORD;
      abs := abs.(tasks := abs.tasks + [Spec.Task(abs.nextPid, abs.current, 0, 0, tick, false, 0, 0)],
                  nextPid := (abs.nextPid + 1) % WORD);
      ghost var before := all;
      all, nodes := all + [n], nodes + {n};
      assert forall h | 0 <= h < |before| :: all[h] == before[h];
    }

    /** add_task: walk to the last node and link behind it. */
    method AddTask(n: Node, ghost q: seq<nat>, ghost h: nat)
      requires Indexed() && |q| > 0 && Linked(q) && Spec.Distinct(q) && taskQueue == all[q[0]]
      requires h < |all| && n == all[h] && h !in q && n.next == null
      modifies nodes`next
      ensures Linked(q + [h])
    {
      var temp := taskQueue;
      ghost var i := 0;
      while temp.next != null
        invariant 0 <= i < |q| && temp == all[q[i]]
        decreases |q| - i
      {
        temp := temp.next;
        i := i + 1;
      }
      temp.next := n;
    }

    method CountChild()
      requires Recorded() && abs.current < |all| && currentTask == all[abs.current]
      modifies this`abs, currentTask`childCount
      ensures Recorded()
      ensures var c := old(abs).tasks[old(abs).current];
              abs == old(abs).(tasks := old(abs).tasks[old(abs).current := c.(childCount := c.childCount + 1)])
    {
      ghost var c := abs.tasks[abs.current];
      currentTask.childCount := currentTask.childCount + 1;
      abs := abs.(tasks := abs.tasks[abs.current := c.(childCount := c.childCount + 1)]);
    }

    /** A new node at the end of the queue. */
    method AppendTask(tick: nat) returns (n: Node)
      requires Valid()
      modifies this`abs, this`all, this`nodes, this`nextPid, nodes`next
      ensures fresh(n) && n.id == old(nextPid) && all == old(all) + [n] && nodes == old(nodes) + {n}
      ensures Recorded() && Linked(abs.queue) && nextPid == abs.nextPid
      ensures abs == old(abs).(
                tasks := old(abs).tasks + [Spec.Task(old(abs).nextPid, old(abs).current, 0, 0, tick, false, 0, 0)],
                queue := old(abs).queue + [|old(abs).tasks|],
                nextPid := (old(abs).nextPid + 1) % WORD)
    {
      ghost var s := abs;
      n := InitTask(tick);
      AddTask(n, s.queue, |s.tasks|);
      abs := abs.(queue := s.queue + [|s.tasks|]);
    }

    /** create_thread and create_process: a new child of the running task at the end of the queue. */
    method CreateThread(tick: nat) returns (pid: nat)
      requires Valid()
      modifies this, nodes
      ensures Valid() && |all| == |old(all)| + 1 && all[..|old(all)|] == old(all) && fresh(nodes - old(nodes))
      ensures abs == Spec.Create(old(abs), tick) && pid == old(nextPid)
    {
      ghost var s := abs;
      var n := AppendTask(tick);
      CountChild();
      pid := n.id;
      assert abs == Spec.Create(s, tick);
      assert Spec.WellFormed(abs);
    }

    /**
     The list surgery of remove_task: find the predecessor and link it past the task.  It is right
     exactly for positions behind the head; asked for the head, the search runs off the end and the
     last node is linked to the head's successor: a head alone stays where it is, any other head stays
     queued in front of a cycle that ends in no null.
     */
    method Unlink(task: Node, ghost q: seq<nat>, ghost p: nat)
      requires Indexed() && Linked(q) && Spec.Distinct(q)
      requires p < |q| && taskQueue == all[q[0]] && task == all[q[p]]
      modifies nodes`next
      ensures p > 0 ==> Linked(q[..p] + q[p + 1..]) && task.next == old(task.next)
      ensures p == 0 && |q| == 1 ==> Linked(q)
      ensures p == 0 && |q| > 1 ==>
                forall i {:trigger all[q[i]].next} | 0 <= i < |q| ::
                  all[q[i]].next == all[q[if i + 1 < |q| then i + 1 else 1]]
    {
      var move := taskQueue;
      ghost var i := 0;
      while move.next != null && move.next != task
        invariant 0 <= i < |q| && move == all[q[i]]
        invariant p > 0 ==> i < p
        decreases |q| - i
      {
        move := move.next;
        i := i + 1;
      }
      move.next := task.next;
    }

    /** The rest of remove_task: wake the parent if it waits, and count the child out. */
    method NotifyParent(task: Node, ghost h: nat)
      requires Recorded() && h < |all| && task == all[h]
      modifies this`abs, nodes`waiting, nodes`child, nodes`childCount
      ensures Recorded()
      ensures var t := old(abs).tasks[h];
              abs == old(abs).(tasks := old(abs).tasks[t.parent := Spec.Bereaved(old(abs).tasks[t.parent], t.id)])
    {
      ghost var t := abs.tasks[h];
      ghost var family := abs.tasks[t.parent];
      var parent := task.parent;
      if parent.waiting {
        parent.waiting := false;
        parent.child := task.id;
      }
      if parent.childCount != 0 {
        parent.childCount := parent.childCount - 1;
      }
      abs := abs.(tasks := abs.tasks[t.parent := Spec.Bereaved(family, t.id)]);
    }

    /** remove_task of a queued task other than the head. */
    method RemoveTask(task: Node, ghost p: nat)
      requires Valid() && 0 < p < |abs.queue| && task == all[abs.queue[p]]
      modifies this`abs, nodes
      ensures Valid() && task.next == old(task.next)
      ensures abs == Spec.RemoveAt(old(abs), p)
    {
      ghost var s := abs;
      Runs.RemoveWellFormed(s, p);
      Unlink(task, s.queue, p);
      NotifyParent(task, s.queue[p]);
      abs := Spec.RemoveAt(s, p);
    }

    /** exit_thread: remove the running task and switch. */
    method ExitThread(tick: nat)
      requires Valid() && abs.current in abs.queue[1..]
      modifies this, nodes
      ensures Valid() && all == old(all) && nodes == old(nodes)
      ensures abs == Spec.Exit(old(abs), tick)
    {
      ghost var p := Spec.Position(abs.queue, abs.current);
      RemoveTask(currentTask, p);
      SwitchTask(tick, if p < |abs.queue| then p else 0);
    }

    /** get_pid_task: the list loop. */
    method GetPidTask(pid: nat) returns (n: Node?)
      requires Valid()
      ensures var p := Spec.PidPosition(abs.tasks, abs.queue, pid);
              n == if p < |abs.queue| then all[abs.queue[p]] else null
    {
      n := taskQueue;
      ghost var i := 0;
      while n != null
        invariant i <= |abs.queue|
        invariant n == if i < |abs.queue| then all[abs.queue[i]] else null
        invariant forall j | 0 <= j < i :: abs.tasks[abs.queue[j]].id != pid
        decreases |abs.queue| - i
      {
        if n.id == pid {
          return;
        }
        n := n.next;
        i := i + 1;
      }
    }

    /** kill_thread: 1 if there is no such pid. */
    method KillThread(pid: nat) returns (ret: int)
      requires Valid()
      requires Spec.PidPosition(abs.tasks, abs.queue, pid) != 0
      modifies this`abs, nodes
      ensures Valid()
      ensures var p := Spec.PidPosition(old(abs).tasks, old(abs).queue, pid);
              if p < |old(abs).queue| then ret == 0 && abs == Spec.RemoveAt(old(abs), p)
              else ret == 1 && abs == old(abs)
    {
      var n := GetPidTask(pid);
      if n == null {
        return 1;
      }
      RemoveTask(n, Spec.PidPosition(abs.tasks, abs.queue, pid));
      ret := 0;
    }

    /** First half of wait: -1 (false) without children, else raise the flag. */
    method WaitBegin() returns (ok: bool)
      requires Valid()
      modifies this`abs, currentTask`waiting
      ensures Valid() && (abs, ok) == Spec.WaitBegin(old(abs))
    {
      ok := currentTask.childCount != 0;
      abs := Spec.WaitBegin(abs).0;
      if ok {
        currentTask.waiting := true;
      }
    }

    /**
     Second half of wait, after its polling loop: the child is forgotten before it is returned, so
     the result is 0.
     */
    method WaitEnd() returns (ret: nat)
      requires Valid()
      modifies this`abs, currentTask`waiting, currentTask`child
      ensures Valid() && abs == Spec.WaitEnd(old(abs)) && ret == 0
    {
      ghost var t := abs.tasks[abs.current];
      currentTask.waiting := false;
      currentTask.child := 0;
      ret := currentTask.child;
      abs := Spec.WaitEnd(abs);
    }

    /** Every kernel entry of the run model, on the linked nodes: each run of the code is a run of the model. */
    method Enter(op: Runs.Op, tick: nat)
      requires Valid() && Runs.Enabled(abs, op)
      modifies this, nodes
      ensures Valid() && abs == Runs.Step(old(abs), op, tick)
    {
      match op {
        case Timer => Timer(tick);
        case Nap(turns) => SleepThread(turns, tick);
        case Spawn => var _ := CreateThread(tick);
        case Leave => Runs.LeaverIsQueued(abs); ExitThread(tick);
        case Kill(pid) => var _ := KillThread(pid);
        case StartWait => var _ := WaitBegin();
        case EndWait => var _ := WaitEnd();
      }
    }
  }
}
