/** The mailbox as it runs: a linked list of message nodes, its head pointer and its counter. */
module Mailbox {
  import opened MailboxSpec

  class MsgNode {
    ghost const addr: nat
    var msg: Msg
    var next: MsgNode?

    constructor (m: Msg, ghost addr: nat)
      ensures msg == m && next == null && this.addr == addr
    {
      msg, next := m, null;
      this.addr := addr;
    }
  }

  class Box {
    var msgBuf: MsgNode?
    var msgCount: nat
    ghost var list: seq<MsgNode>
    ghost var nodes: set<MsgNode>
    ghost var abs: State

    ghost predicate Valid()
      reads this, nodes
    {
      && Inv(abs)
      && |list| == |abs.queue|
      && (forall i {:trigger list[i]} | 0 <= i < |list| :: list[i] in nodes)
      && (forall i {:trigger abs.queue[i]} | 0 <= i < |list| ::
            list[i].addr == abs.queue[i].addr && list[i].msg == abs.queue[i].msg)
      && (forall i {:trigger list[i].next} | 0 <= i < |list| ::
            list[i].next == if i + 1 < |list| then list[i + 1] else null)
      && msgBuf == (if list == [] then null else list[0])
      && msgCount == abs.count
    }

    constructor ()
      ensures Valid() && fresh(nodes) && abs == MailboxSpec.Init()
    {
      msgBuf, msgCount := null, 0;
      list, nodes, abs := [], {}, MailboxSpec.Init();
    }

    /** send_msg: copy the message into a new node and append it. */
    method SendMsg(m: Msg, ghost addr: nat)
      requires Valid() && !abs.panicked && Where(abs.queue, addr) == |abs.queue|
      modifies this, nodes
      ensures Valid() && fresh(nodes - old(nodes))
      ensures abs == MailboxSpec.Send(old(abs), m, addr)
      ensures |list| == |old(list)| + 1 && list[..|old(list)|] == old(list) && list[|old(list)|].msg == m
      ensures forall i | 0 <= i < |old(list)| :: list[i].msg == old(list[i].msg)
    {
      StepKeepsInv(abs, Sent(m, addr));
      var n := new MsgNode(m, addr);
      if msgBuf == null {
        msgBuf := n;
      } else {
        Append(msgBuf, n);
      }
      msgCount := msgCount + 1;
      list, nodes := list + [n], nodes + {n};
      abs := MailboxSpec.Send(abs, m, addr);
    }

    /** The walk to the last node. */
    method Append(first: MsgNode, n: MsgNode)
      requires Valid() && list != [] && first == list[0]
      modifies nodes`next
      ensures forall i {:trigger list[i].next} | 0 <= i < |list| ::
                list[i].next == if i + 1 < |list| then list[i + 1] else n
      ensures forall x | x in nodes && x !in list :: x.next == old(x.next)
    {
      ghost var q := abs.queue;
      assert forall i, j | 0 <= i < j < |list| :: list[i] != list[j] by {
        forall i, j | 0 <= i < j < |list| ensures list[i] != list[j] {
          assert q[i].addr != q[j].addr;
        }
      }
      var ptr := first;
      ghost var i := 0;
      while ptr.next != null
        invariant 0 <= i < |list| && ptr == list[i]
        decreases |list| - i
      {
        ptr := ptr.next;
        i := i + 1;
      }
      ptr.next := n;
    }

    /** First half of get_msg. */
    method Snapshot() returns (msg: MsgNode?)
      requires Valid() && !abs.panicked && abs.snap == Idle
      modifies this`abs
      ensures Valid() && abs == MailboxSpec.Snapshot(old(abs))
      ensures msg == msgBuf
    {
      ghost var q := abs.queue;
      msg := msgBuf;
      abs := MailboxSpec.Snapshot(abs);
    }

    /** Second half of get_msg with the pointer of the first half: 0 and the message, or 1; panics on a null pointer. */
    method Take(msg: MsgNode?) returns (ret: int, buf: Msg, panicked: bool)
      requires Valid() && !abs.panicked && abs.snap != Idle
      requires abs.snap.At? ==> list != [] && msg == list[0]
      requires abs.snap.Null? ==> msg == null
      modifies this
      ensures Valid() && (old(abs).snap.At? ==> Where(old(abs).queue, old(abs).snap.addr) < |old(abs).queue|)
      ensures abs == MailboxSpec.Take(old(abs)).0
      ensures var e := MailboxSpec.Take(old(abs)).1;
              && (panicked <==> e == NullPointer)
              && (ret == 0 <==> e.Took?) && (e.Took? ==> buf == e.copied.msg)
      ensures ret == 0 ==> old(list) != [] && list == old(list)[1..] && buf == old(abs).queue[0].msg
    {
      ghost var s := abs;
      if s.snap.At? { FreedIsCopied(s); }
      StepKeepsInv(s, Taken);
      abs := MailboxSpec.Take(s).0;
      ret, buf, panicked := 1, Msg(0, 0, 0, []), false;
      if msgCount != 0 {
        if msg == null {
          panicked := true;
          return;
        }
        buf := msg.msg;
        msgCount := msgCount - 1;
        msgBuf := msg.next;
        list := list[1..];
        ret := 0;
        assert abs.queue == s.queue[1..];
      }
    }
  }

  /** send_msg after its lookup of the receiver: 1 and no effect if there is none, else 0 and the message is queued. */
  method SendTo(receiver: Box?, m: Msg, ghost addr: nat) returns (ret: int)
    requires receiver != null ==>
               receiver.Valid() && !receiver.abs.panicked && Where(receiver.abs.queue, addr) == |receiver.abs.queue|
    modifies if receiver == null then {} else {receiver} + receiver.nodes
    ensures ret == if receiver == null then 1 else 0
    ensures receiver != null ==> receiver.Valid() && receiver.abs == MailboxSpec.Send(old(receiver.abs), m, addr)
    ensures receiver != null ==> receiver.list != [] && receiver.list[|receiver.list| - 1].msg == m
  {
    if receiver == null {
      return 1;
    }
    receiver.SendMsg(m, addr);
    ret := 0;
  }
}
