/**
 A task's mailbox as interleaved steps.  get_msg lets interrupts in between reading the list head
 (the snapshot) and taking a message, so senders may run between the two steps.
 */
module MailboxSpec {
  import opened Sequences

  datatype Msg = Msg(kind: nat, sender: nat, seqNo: nat, data: seq<nat>)

  /** A queued message node at its heap address. */
  datatype Node = Node(addr: nat, msg: Msg)

  /** What the receiver holds between its two steps. */
  datatype Snap = Idle | Null | At(addr: nat)

  /** The list, the counter, the receiver, and the messages sent and taken so far. */
  datatype State = State(queue: seq<Node>, count: nat, snap: Snap, sent: seq<Msg>, taken: seq<Msg>, panicked: bool)

  function Init(): State { State([], 0, Idle, [], [], false) }

  /** send_msg: append a copy at a fresh heap address; addresses of freed nodes may come back. */
  function Send(s: State, m: Msg, addr: nat): State {
    s.(queue := s.queue + [Node(addr, m)], count := s.count + 1, sent := s.sent + [m])
  }

  /** First half of get_msg: read the list head. */
  function Snapshot(s: State): State {
    s.(snap := if s.queue == [] then Null else At(s.queue[0].addr))
  }

  /** Position of an address in the list, or its length. */
  function Where(queue: seq<Node>, addr: nat): (p: nat)
    ensures p <= |queue| && (p < |queue| ==> queue[p].addr == addr)
    ensures forall i | 0 <= i < p :: queue[i].addr != addr
  {
    FirstIndex(queue, (n: Node) => n.addr == addr)
  }

  /** What one take did: nothing there, a null pointer, or a copied and a freed node. */
  datatype Effect = NoMessage | NullPointer | Took(copied: Node, freed: Node)

  /**
   Second half of get_msg: with a non-zero counter, copy the snapshot node, free the current head,
   and make the snapshot's successor the head.  Defined while the snapshot is still in the list.
   */
  function Take(s: State): (State, Effect)
    requires s.snap != Idle && (s.snap.At? ==> Where(s.queue, s.snap.addr) < |s.queue|)
  {
    if s.count == 0 then (s.(snap := Idle), NoMessage)
    else if s.snap.Null? then (s.(panicked := true), NullPointer)
    else
      var p := Where(s.queue, s.snap.addr);
      (s.(queue := s.queue[p + 1..], count := s.count - 1, snap := Idle, taken := s.taken + [s.queue[p].msg]),
       Took(s.queue[p], s.queue[0]))
  }

  function Messages(queue: seq<Node>): (ms: seq<Msg>)
    ensures |ms| == |queue| && forall i | 0 <= i < |queue| :: ms[i] == queue[i].msg
  {
    seq(|queue|, i requires 0 <= i < |queue| => queue[i].msg)
  }

  /** The counter is the list length, nothing is lost or reordered, and a held snapshot is the head. */
  ghost predicate Inv(s: State) {
    && s.count == |s.queue|
    && (forall i, j | 0 <= i < j < |s.queue| :: s.queue[i].addr != s.queue[j].addr)
    && s.taken + Messages(s.queue) == s.sent
    && (s.snap.At? ==> s.queue != [] && s.queue[0].addr == s.snap.addr)
  }

  datatype Event = Sent(m: Msg, addr: nat) | Snapped | Taken

  /** Senders run at any time with a free address; the receiver alternates; nothing runs after a panic. */
  ghost predicate Enabled(s: State, e: Event) {
    && !s.panicked
    && match e
       case Sent(m, addr) => Where(s.queue, addr) == |s.queue|
       case Snapped => s.snap == Idle
       case Taken => s.snap != Idle && (s.snap.At? ==> Where(s.queue, s.snap.addr) < |s.queue|)
  }

  ghost function Step(s: State, e: Event): State
    requires Enabled(s, e)
  {
    match e
    case Sent(m, addr) => Send(s, m, addr)
    case Snapped => Snapshot(s)
    case Taken => Take(s).0
  }

  /** The node freed is the node copied, and the rest of the list stays as it was. */
  lemma FreedIsCopied(s: State)
    requires Inv(s) && s.snap.At?
    ensures Enabled(s.(panicked := false), Taken)
    ensures var (s', e) := Take(s);
            e.Took? && e.copied == e.freed == s.queue[0] && s'.queue == s.queue[1..]
  {
    assert Where(s.queue, s.snap.addr) == 0;
  }

  lemma StepKeepsInv(s: State, e: Event)
    requires Inv(s) && Enabled(s, e)
    ensures Inv(Step(s, e))
  {
    match e
    case Sent(m, addr) =>
      assert Messages(s.queue + [Node(addr, m)]) == Messages(s.queue) + [m];
      assert s.taken + (Messages(s.queue) + [m]) == (s.taken + Messages(s.queue)) + [m];
    case Snapped =>
    case Taken => if s.snap.At? { TakeKeepsInv(s); }
  }

  lemma TakeKeepsInv(s: State)
    requires Inv(s) && Enabled(s, Taken) && s.snap.At?
    ensures Inv(Take(s).0)
  {
    FreedIsCopied(s);
    MoveOver(s.taken, s.queue);
    var r := Take(s).0;
    assert forall i | 0 <= i < |r.queue| :: r.queue[i] == s.queue[i + 1];
  }

  /** Moving the head message to the taken ones leaves the concatenation as it is. */
  lemma MoveOver(taken: seq<Msg>, queue: seq<Node>)
    requires queue != []
    ensures (taken + [queue[0].msg]) + Messages(queue[1..]) == taken + Messages(queue)
  {
    assert Messages(queue) == [queue[0].msg] + Messages(queue[1..]);
  }

  ghost predicate IsRun(s: State, events: seq<Event>, r: State)
    decreases |events|
  {
    if events == [] then s == r else Enabled(s, events[0]) && IsRun(Step(s, events[0]), events[1..], r)
  }

  /** In all interleavings, messages taken followed by messages queued are the messages sent, in order. */
  lemma {:induction false} RunKeepsInv(s: State, events: seq<Event>, r: State)
    requires Inv(s) && IsRun(s, events, r)
    ensures Inv(r) && r.taken + Messages(r.queue) == r.sent && r.count == |r.queue|
    decreases |events|
  {
    if events != [] {
      StepKeepsInv(s, events[0]);
      RunKeepsInv(Step(s, events[0]), events[1..], r);
    }
  }

  /** The messages senders passed in, in order, read off the events. */
  function SentBy(events: seq<Event>): seq<Msg>
    decreases |events|
  {
    if events == [] then []
    else (if events[0].Sent? then [events[0].m] else []) + SentBy(events[1..])
  }

  lemma {:induction false} RunSends(s: State, events: seq<Event>, r: State)
    requires IsRun(s, events, r)
    ensures r.sent == s.sent + SentBy(events)
    decreases |events|
  {
    if events != [] {
      RunSends(Step(s, events[0]), events[1..], r);
      if events[0].Sent? { ConcatAssoc(s.sent, [events[0].m], SentBy(events[1..])); }
    }
  }

  /**
   In all interleavings from an empty box, what was taken followed by what is queued is what the
   senders passed in.
   */
  lemma RunDelivers(events: seq<Event>, r: State)
    requires IsRun(Init(), events, r)
    ensures r.taken + Messages(r.queue) == SentBy(events) && r.count == |r.queue|
  {
    RunKeepsInv(Init(), events, r);
    RunSends(Init(), events, r);
  }

  /** Sends between the two steps of a get_msg. */
  function SendAll(s: State, ms: seq<(Msg, nat)>): State
    decreases |ms|
  {
    if ms == [] then s else SendAll(Send(s, ms[0].0, ms[0].1), ms[1..])
  }

  lemma {:induction false} SendAllAppends(s: State, ms: seq<(Msg, nat)>)
    ensures var r := SendAll(s, ms);
            && r == s.(queue := r.queue, count := r.count, sent := r.sent)
            && r.count == s.count + |ms|
            && |r.queue| == |s.queue| + |ms| && r.queue[..|s.queue|] == s.queue
    decreases |ms|
  {
    if ms != [] {
      var m := Send(s, ms[0].0, ms[0].1);
      SendAllAppends(m, ms[1..]);
      var r := SendAll(s, ms);
      assert r.queue[..|s.queue|] == r.queue[..|m.queue|][..|s.queue|];
    }
  }

  /** The null-pointer panic happens exactly when the snapshot was empty and a send landed before the take. */
  lemma NullPointerIff(s: State, ms: seq<(Msg, nat)>)
    requires Inv(s) && s.snap == Idle
    ensures var r := SendAll(Snapshot(s), ms);
            && (r.snap.At? ==> Where(r.queue, r.snap.addr) < |r.queue|)
            && r.snap != Idle
            && (Take(r).1 == NullPointer <==> s.queue == [] && ms != [])
            && (Take(r).1 == NoMessage <==> s.queue == [] && ms == [])
            && (Take(r).1.Took? <==> s.queue != [])
  {
    SendAllAppends(Snapshot(s), ms);
    var r := SendAll(Snapshot(s), ms);
    if s.queue != [] {
      assert r.queue[..|s.queue|][0] == s.queue[0];
    }
  }
}
