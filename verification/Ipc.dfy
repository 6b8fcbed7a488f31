/** Send, receive and reply of `ipc.c` on the task table, and the queues of blocked senders. */
module Ipc {
  import opened Seqs
  import opened Messages
  import opened Tasks

  function Link(q: seq<nat>, k: nat): int {
    if k < |q| then q[k] else NIL
  }

  predicate LinkedAt(t: Table, q: seq<nat>, k: nat)
    requires k < |q|
  {
    q[k] < |t| && t[q[k]].next == Link(q, k + 1)
  }

  /** Following `next` from `head` meets the tasks of `q` and then ends. */
  predicate Chain(t: Table, head: int, q: seq<nat>) {
    head == Link(q, 0) && forall k :: 0 <= k < |q| ==> LinkedAt(t, q, k)
  }

  lemma ChainFrame(t: Table, t': Table, head: int, q: seq<nat>)
    requires Chain(t, head, q) && |t'| == |t| && forall i :: 0 <= i < |q| && q[i] < |t| ==>
      t'[q[i]].next == t[q[i]].next
    ensures Chain(t', head, q)
  {
    forall k | 0 <= k < |q| ensures LinkedAt(t', q, k) {
      assert LinkedAt(t, q, k);
    }
  }

  predicate Different(q: seq<nat>) {
    forall i, j :: 0 <= i < j < |q| ==> q[i] != q[j]
  }

  predicate Matches(t: Table, p: nat, src: nat) {
    p < |t| && (src == 0 || t[p].pid == src)
  }

  /** The place of the first task in `q` that the filter lets through, or |q|. */
  function FirstMatch(t: Table, q: seq<nat>, src: nat): (k: nat)
    ensures k <= |q| && (k < |q| ==> Matches(t, q[k], src)) && forall i :: 0 <= i < k ==> !Matches(t, q[i], src)
  {
    if q == [] then 0 else if Matches(t, q[0], src) then 0 else FirstMatch(t, q[1..], src) + 1
  }

  /** The table with the link before place `k` of the queue of `recv` moved past it. */
  function Unlink(t: Table, recv: nat, q: seq<nat>, k: nat): Table
    requires recv < |t| && k < |q| && forall i :: 0 <= i < |q| ==> q[i] < |t|
  {
    var after := t[q[k]].next;
    var t1 := if k == 0 then t[recv := t[recv].(queue := after)] else t[q[k - 1] := t[q[k - 1]].(next := after)];
    t1[q[k] := t1[q[k]].(next := NIL)]
  }

  lemma UnlinkChain(t: Table, recv: nat, q: seq<nat>, k: nat)
    requires recv < |t| && Chain(t, t[recv].queue, q) && Different(q) && k < |q| && forall i :: 0 <= i < |q| ==>
      q[i] < |t|
    ensures var t' := Unlink(t, recv, q, k); |t'| == |t| && Chain(t', t'[recv].queue, Cut(q, k, k + 1))
  {
    var t', r := Unlink(t, recv, q, k), Cut(q, k, k + 1);
    CutAt(q, k);
    assert LinkedAt(t, q, k);
    forall i | 0 <= i < |r| ensures LinkedAt(t', r, i) {
      UnlinkAt(t, recv, q, k, r, i);
    }
  }

  lemma UnlinkAt(t: Table, recv: nat, q: seq<nat>, k: nat, r: seq<nat>, i: nat)
    requires recv < |t| && Chain(t, t[recv].queue, q) && Different(q) && k < |q| && forall i :: 0 <= i < |q| ==>
      q[i] < |t|
    requires i < |r| == |q| - 1 && forall i :: 0 <= i < |r| ==> r[i] == q[Skip(k, i)]
    ensures LinkedAt(Unlink(t, recv, q, k), r, i)
  {
    assert LinkedAt(t, q, k) && LinkedAt(t, q, Skip(k, i));
    assert r[i] == q[Skip(k, i)];
    assert i + 1 < |r| ==> r[i + 1] == q[Skip(k, i + 1)];
  }

  /** Queue `q` hangs on task `d`, and `loc` says so for each of its members. */
  predicate QueueOk(t: Table, d: nat, q: seq<nat>, loc: seq<int>)
    requires d < |t| == |loc|
  {
    Chain(t, t[d].queue, q) && Different(q) && forall i :: 0 <= i < |q| ==> q[i] < |t| && loc[q[i]] == d
  }

  predicate LocOk(t: Table, qs: seq<seq<nat>>, loc: seq<int>, p: nat)
    requires p < |t| == |loc| == |qs|
  {
    && (t[p].state == Sending <==> loc[p] != NIL) && NIL <= loc[p] < |t|
    && (loc[p] != NIL ==> p in qs[loc[p]])
  }

  /**
   The queues are finite, free of cycles and disjoint, and a task is on one of them exactly if it is
   sending: `loc` gives each task the one queue that it is on.
   */
  predicate QueuesOk(t: Table, qs: seq<seq<nat>>, loc: seq<int>) {
    && |t| == |qs| == |loc| == MAX_TASKS
    && (forall d :: 0 <= d < MAX_TASKS ==> QueueOk(t, d, qs[d], loc))
    && (forall p :: 0 <= p < MAX_TASKS ==> LocOk(t, qs, loc, p))
  }

  /** A task that waits in receive has no sender queued and no message pending. */
  predicate ReceiversIdle(t: Table, qs: seq<seq<nat>>)
    requires |t| == |qs|
  {
    forall p :: 0 <= p < |t| && t[p].state == Receiving ==> qs[p] == [] && !t[p].pending
  }

  /** Links and the set of senders are the same. */
  predicate SameLinks(t: Table, t': Table) {
    |t| == |t'| && forall i :: 0 <= i < |t| ==>
      t'[i].next == t[i].next && t'[i].queue == t[i].queue && (t'[i].state == Sending <==> t[i].state == Sending)
  }

  lemma QueuesSame(t: Table, t': Table, qs: seq<seq<nat>>, loc: seq<int>)
    requires QueuesOk(t, qs, loc) && SameLinks(t, t')
    ensures QueuesOk(t', qs, loc)
  {
    forall d | 0 <= d < MAX_TASKS ensures QueueOk(t', d, qs[d], loc) {
      assert QueueOk(t, d, qs[d], loc);
      ChainFrame(t, t', t[d].queue, qs[d]);
    }
    forall p | 0 <= p < MAX_TASKS ensures LocOk(t', qs, loc, p) {
      assert LocOk(t, qs, loc, p);
    }
  }

  // What the operations do to the table.

  function Wake(active: nat, p: nat): State {
    if p == active && active != 0 then UserSlot else Ready
  }

  function Stamp(msg: Msg, src: nat): Msg { msg.(sender := src) }

  /** The message goes into the buffer of a waiting receiver. */
  function Deliver(t: Table, active: nat, src: nat, dest: nat, msg: Msg): Table
    requires src < |t| && dest < |t| && src != dest
  {
    var t1 := t[dest := t[dest].(buf := Stamp(msg, src), pending := true, state := Wake(active, dest))];
    t1[src := t1[src].(state := WaitingReply)]
  }

  /** The sender keeps the message and goes to the head of the receiver's queue. */
  function Enqueue(t: Table, src: nat, dest: nat, msg: Msg): Table
    requires src < |t| && dest < |t| && src != dest
  {
    var t1 := t[src := t[src].(buf := Stamp(msg, src), state := Sending, next := t[dest].queue)];
    t1[dest := t1[dest].(queue := src)]
  }

  lemma EnqueueOk(t: Table, qs: seq<seq<nat>>, loc: seq<int>, src: nat, dest: nat, msg: Msg)
    requires QueuesOk(t, qs, loc) && src < MAX_TASKS && dest < MAX_TASKS && src != dest && t[src].state != Sending
    ensures QueuesOk(Enqueue(t, src, dest, msg), qs[dest := [src] + qs[dest]], loc[src := dest])
  {
    var t', qs', loc' := Enqueue(t, src, dest, msg), qs[dest := [src] + qs[dest]], loc[src := dest];
    assert LocOk(t, qs, loc, src);
    forall d | 0 <= d < MAX_TASKS ensures QueueOk(t', d, qs'[d], loc') {
      assert QueueOk(t, d, qs[d], loc);
      if d == dest {
        EnqueueChain(t, t', qs[d], src, dest);
      } else {
        ChainFrame(t, t', t[d].queue, qs[d]);
      }
    }
    forall p | 0 <= p < MAX_TASKS ensures LocOk(t', qs', loc', p) {
      assert LocOk(t, qs, loc, p);
      assert p != src && loc[p] == dest ==> p in [src] + qs[dest];
      assert src in [src] + qs[dest];
    }
  }

  lemma EnqueueChain(t: Table, t': Table, q: seq<nat>, src: nat, dest: nat)
    requires src < |t| == |t'| && dest < |t| && Chain(t, t[dest].queue, q) && src !in q
    requires t'[src].next == t[dest].queue && t'[dest].queue == src && forall i :: 0 <= i < |t| && i != src ==>
      t'[i].next == t[i].next
    ensures Chain(t', t'[dest].queue, [src] + q)
  {
    var r := [src] + q;
    forall k | 0 <= k < |r| ensures LinkedAt(t', r, k) {
      if k > 0 {
        assert LinkedAt(t, q, k - 1);
      }
    }
  }

  /** The first sender that matches leaves the queue of `recv` and waits for the reply. */
  lemma DequeueOk(t: Table, qs: seq<seq<nat>>, loc: seq<int>, recv: nat, k: nat)
    requires QueuesOk(t, qs, loc) && recv < MAX_TASKS && k < |qs[recv]|
    ensures var q := qs[recv];
            && (forall i :: 0 <= i < |q| ==> q[i] < MAX_TASKS) && t[q[k]].state == Sending
            && QueuesOk(TakeSender(t, recv, q, k), qs[recv := Cut(q, k, k + 1)], loc[q[k] := NIL])
  {
    var q := qs[recv];
    assert QueueOk(t, recv, q, loc);
    var s := q[k];
    assert LocOk(t, qs, loc, s);
    var t1 := Unlink(t, recv, q, k);
    var t', qs', loc' := t1[s := t1[s].(state := WaitingReply)], qs[recv := Cut(q, k, k + 1)], loc[s := NIL];
    CutAt(q, k);
    UnlinkChain(t, recv, q, k);
    forall d | 0 <= d < MAX_TASKS ensures QueueOk(t', d, qs'[d], loc') {
      assert QueueOk(t, d, qs[d], loc);
      if d == recv {
        ChainFrame(t1, t', t1[d].queue, qs'[d]);
      } else {
        OtherQueue(t, t', d, qs[d], recv, q, loc, s);
      }
    }
    forall p | 0 <= p < MAX_TASKS ensures LocOk(t', qs', loc', p) {
      assert LocOk(t, qs, loc, p);
      if p != s && loc[p] == recv {
        StaysIn(q, k, p);
      }
    }
  }

  lemma OtherQueue(t: Table, t': Table, d: nat, q: seq<nat>, recv: nat, p: seq<nat>, loc: seq<int>, s: nat)
    requires d < |t| == |t'| == |loc| && recv < |t| && d != recv
    requires QueueOk(t, d, q, loc) && QueueOk(t, recv, p, loc) && s in p
    requires t'[d].queue == t[d].queue && forall i :: 0 <= i < |t| && i !in p ==> t'[i].next == t[i].next
    ensures s < |t| && QueueOk(t', d, q, loc[s := NIL])
  {
    forall i | 0 <= i < |q| ensures q[i] !in p {
      assert loc[q[i]] == d;
    }
    ChainFrame(t, t', t[d].queue, q);
  }

  lemma StaysIn(q: seq<nat>, k: nat, p: nat)
    requires k < |q| && p in q && p != q[k]
    ensures p in Cut(q, k, k + 1)
  {
    var i :| 0 <= i < |q| && q[i] == p;
    assert Cut(q, k, k + 1)[if i < k then i else i - 1] == p;
  }

  /** The PCB that a call acts for: that of the active user program, or of the running kernel thread. */
  function Caller(t: Table, active: nat, cur: nat): nat
    requires TableOk(t)
  {
    if active != 0 && active < MAX_TASKS && t[active].state in {UserSlot, WaitingReply, Sending} then active else cur
  }

  datatype SendResult = SendError | Delivered | Queued

  datatype ReceiveResult = Got(msg: Msg) | Blocks

  class Kernel {
    var t: Table
    var cur: nat
    var active: nat
    ghost var qs: seq<seq<nat>>
    ghost var loc: seq<int>

    ghost predicate Valid()
      reads this
    {
      TableOk(t) && cur < MAX_TASKS && QueuesOk(t, qs, loc)
    }

    /** `process_find_by_pid` */
    method FindByPid(pid: nat) returns (r: int)
      requires TableOk(t)
      ensures r == if pid < MAX_TASKS && t[pid].state != Free then pid else NIL
    {
      for i := 0 to MAX_TASKS
        invariant pid < i ==> t[pid].state == Free
      {
        if t[i].state != Free && t[i].pid == pid {
          return i;
        }
      }
      return NIL;
    }

    /** `process_current_task_for_ipc` */
    method CurrentTaskForIpc() returns (p: nat)
      requires TableOk(t)
      ensures p == Caller(t, active, cur)
    {
      var u := FindByPid(active);
      if u != NIL && active != 0 {
        if t[u].state == UserSlot || t[u].state == WaitingReply || t[u].state == Sending {
          return u;
        }
      }
      return cur;
    }

    /** `sender_dequeue`: the first sender that the filter lets through leaves, the others keep their order. */
    method SenderDequeue(recv: nat, src: nat) returns (s: int)
      requires Valid() && recv < MAX_TASKS
      modifies `t
      ensures |t| == |old(t)|
      ensures var q := qs[recv]; var k := FirstMatch(old(t), q, src);
              if k == |q| then s == NIL && t == old(t)
              else (forall i :: 0 <= i < |q| ==> q[i] < MAX_TASKS) && s == q[k] && t == Unlink(old(t), recv, q, k)
    {
      ghost var q := qs[recv];
      assert QueueOk(t, recv, q, loc);
      var prev := NIL;
      s := t[recv].queue;
      ghost var k := 0;
      while s != NIL
        invariant k <= |q| && s == Link(q, k) && (prev == if k == 0 then NIL else q[k - 1])
        invariant FirstMatch(t, q, src) >= k
        decreases |q| - k
      {
        assert LinkedAt(t, q, k);
        if src == 0 || t[s].pid == src {
          FirstMatchIs(t, q, src, k);
          var after := t[s].next;
          if prev == NIL {
            t := t[recv := t[recv].(queue := after)];
          } else {
            t := t[prev := t[prev].(next := after)];
          }
          t := t[s := t[s].(next := NIL)];
          return s;
        }
        prev := s;
        s := t[s].next;
        k := k + 1;
      }
    }

    /** The case of a receiver that waits. */
    method DeliverTo(d: nat, p: nat, msg: Msg)
      requires Valid() && d < MAX_TASKS && p < MAX_TASKS
      requires d != p && t[d].state == Receiving && t[p].state !in {Free, Sending}
      modifies `t
      ensures Valid() && t == Deliver(old(t), active, p, d, msg)
    {
      QueuesSame(t, Deliver(t, active, p, d, msg), qs, loc);
      t := t[d := t[d].(buf := Stamp(msg, p), pending := true)];
      t := t[d := t[d].(state := Wake(active, d))];
      t := t[p := t[p].(state := WaitingReply)];
      assert t == Deliver(old(t), active, p, d, msg);
    }

    /** `stash_outgoing` and `sender_enqueue` */
    method EnqueueOn(d: nat, p: nat, msg: Msg)
      requires Valid() && d < MAX_TASKS && p < MAX_TASKS
      requires d != p && t[d].state != Free && t[p].state !in {Free, Sending}
      modifies `t, `qs, `loc
      ensures Valid() && t == Enqueue(old(t), p, d, msg)
      ensures qs == old(qs)[d := [p] + old(qs)[d]] && loc == old(loc)[p := d]
    {
      EnqueueOk(t, qs, loc, p, d, msg);
      t := t[p := t[p].(buf := Stamp(msg, p))];
      t := t[p := t[p].(state := Sending)];
      t := t[p := t[p].(next := t[d].queue)];
      t := t[d := t[d].(queue := p)];
      assert t == Enqueue(old(t), p, d, msg);
      qs, loc := qs[d := [p] + qs[d]], loc[p := d];
    }

    /** `ipc_send`, up to its return or its first yield. */
    method Send(destPid: nat, msg: Msg) returns (r: SendResult)
      requires Valid() && t[Caller(t, active, cur)].state !in {Free, Sending}
      modifies `t, `qs, `loc
      ensures Valid()
      ensures var p := Caller(old(t), active, cur);
              && (r == SendError <==> destPid >= MAX_TASKS || old(t)[destPid].state == Free || destPid == p)
              && (r == SendError ==> t == old(t) && qs == old(qs))
              && (r == Delivered ==>
                   old(t)[destPid].state == Receiving && t == Deliver(old(t), active, p, destPid, msg) && qs == old(qs))
              && (r == Queued ==> old(t)[destPid].state != Receiving && t == Enqueue(old(t), p, destPid, msg)
                                  && qs == old(qs)[destPid := [p] + old(qs)[destPid]])
      ensures var p := Caller(old(t), active, cur);
              && (r != SendError ==> |t| == MAX_TASKS && forall i :: 0 <= i < MAX_TASKS && i != p && i != destPid ==>
                   t[i] == old(t)[i])
              && (r == Delivered ==>
                   && t[destPid].buf == msg.(sender := p) && t[destPid].pending && t[p].state == WaitingReply
                   && t[destPid].state == if destPid == active && active != 0 then UserSlot else Ready)
              && (r == Queued ==> t[p].buf == msg.(sender := p) && t[p].state == Sending)
    {
      var p := CurrentTaskForIpc();
      var d := FindByPid(destPid);
      if d == NIL || t[d].state == Free || d == p {
        return SendError;
      }
      if t[d].state == Receiving {
        DeliverTo(d, p, msg);
        return Delivered;
      }
      EnqueueOn(d, p, msg);
      return Queued;
    }

    /**
     One round of the loop of `ipc_receive`. A task that waits for a certain sender may block with a message
     of another sender pending or with senders queued; one that waits for any sender never does.
     */
    method Receive(src: nat) returns (r: ReceiveResult)
      requires Valid() && t[cur].state !in {Free, Sending}
      modifies `t, `qs, `loc
      ensures Valid()
      ensures var q := old(qs)[cur]; var k := FirstMatch(old(t), q, src);
              if old(t)[cur].pending && (src == 0 || old(t)[cur].buf.sender == src) then
                r == Got(old(t)[cur].buf) && t == TakePending(old(t), active, cur) && qs == old(qs)
              else if k < |q| then
                && q[k] < MAX_TASKS && r == Got(old(t)[q[k]].buf) && t == TakeSender(old(t), cur, q, k)
                && qs == old(qs)[cur := Cut(q, k, k + 1)]
              else
                r == Blocks && t == old(t)[cur := old(t)[cur].(state := Receiving)] && qs == old(qs)
      ensures src == 0 && r == Blocks ==> qs[cur] == [] && !t[cur].pending
      ensures |t| == MAX_TASKS && (r == Blocks ==> t[cur].state == Receiving)
      ensures var q := old(qs)[cur]; var k := FirstMatch(old(t), q, src);
              r.Got? && !(old(t)[cur].pending && (src == 0 || old(t)[cur].buf.sender == src)) && k < |q| ==>
                q[k] < MAX_TASKS && (q[k] != cur ==> t[q[k]].state == WaitingReply)
    {
      if t[cur].pending && (src == 0 || t[cur].buf.sender == src) {
        r := Got(t[cur].buf);
        TakeFromBuffer();
        return;
      }
      var s := TakeFromQueue(src);
      if s != NIL {
        return Got(t[s].buf);
      }
      QueuesSame(t, t[cur := t[cur].(state := Receiving)], qs, loc);
      t := t[cur := t[cur].(state := Receiving)];
      r := Blocks;
    }

    /** `ipc_reply` */
    method Reply(destPid: nat, msg: Msg) returns (ok: bool)
      requires Valid()
      modifies `t
      ensures Valid()
      ensures ok <==> destPid < MAX_TASKS && old(t)[destPid].state == WaitingReply
      ensures t == if ok then Answer(old(t), active, cur, destPid, msg) else old(t)
      ensures ok ==>
        && t[destPid].buf == msg.(sender := cur) && t[destPid].pending
        && t[destPid].state == (if destPid == active && active != 0 then UserSlot else Ready)
        && forall i :: 0 <= i < MAX_TASKS && i != destPid ==> t[i] == old(t)[i]
    {
      var p := FindByPid(destPid);
      if p == NIL || t[p].state != WaitingReply {
        return false;
      }
      QueuesSame(t, Answer(t, active, cur, p, msg), qs, loc);
      t := t[p := t[p].(buf := Stamp(msg, cur), pending := true)];
      t := t[p := t[p].(state := Wake(active, p))];
      assert t == Answer(old(t), active, cur, p, msg);
      return true;
    }

    /** `ipc_consume_pending_message` */
    method Consume(p: nat) returns (msg: Msg)
      requires Valid() && p < MAX_TASKS
      modifies `t
      ensures Valid() && msg == old(t)[p].buf && t == old(t)[p := old(t)[p].(pending := false)]
    {
      msg := t[p].buf;
      QueuesSame(t, t[p := t[p].(pending := false)], qs, loc);
      t := t[p := t[p].(pending := false)];
    }

    /** `schedule`, on the table of the kernel. */
    method Switch()
      requires Valid()
      modifies `t, `cur
      ensures Valid() && t == Switched(old(t), old(cur)) && cur == Chosen(old(t), old(cur))
    {
      QueuesSame(t, Switched(t, cur), qs, loc);
      t, cur := Schedule(t, cur);
    }

    method TakeFromBuffer()
      requires Valid() && t[cur].state != Free
      modifies `t
      ensures Valid() && t == TakePending(old(t), active, cur)
    {
      QueuesSame(t, TakePending(t, active, cur), qs, loc);
      t := t[cur := t[cur].(pending := false)];
      if t[cur].state == Receiving {
        t := t[cur := t[cur].(state := Wake(active, cur))];
      }
      assert t == TakePending(old(t), active, cur);
    }

    /** `sender_dequeue` and `ipc_wake_sender_after_deliver` */
    method TakeFromQueue(src: nat) returns (s: int)
      requires Valid()
      modifies `t, `qs, `loc
      ensures Valid()
      ensures var q := old(qs)[cur]; var k := FirstMatch(old(t), q, src);
              if k == |q| then s == NIL && t == old(t) && qs == old(qs)
              else
                && (forall i :: 0 <= i < |q| ==> q[i] < MAX_TASKS) && s == q[k] && t == TakeSender(old(t), cur, q, k)
                && qs == old(qs)[cur := Cut(q, k, k + 1)] && t[s].buf == old(t)[s].buf
    {
      ghost var q := qs[cur];
      ghost var k := FirstMatch(t, q, src);
      s := SenderDequeue(cur, src);
      if s != NIL {
        DequeueOk(old(t), qs, loc, cur, k);
        TakeSenderOk(old(t), cur, q, k);
        if t[s].state == Sending {
          t := t[s := t[s].(state := WaitingReply)];
        }
        qs, loc := qs[cur := Cut(q, k, k + 1)], loc[s := NIL];
      }
    }
  }

  lemma TakeSenderOk(t: Table, recv: nat, q: seq<nat>, k: nat)
    requires TableOk(t) && recv < MAX_TASKS && k < |q| && (forall i :: 0 <= i < |q| ==> q[i] < MAX_TASKS)
    requires t[q[k]].state == Sending
    ensures TableOk(TakeSender(t, recv, q, k)) && TakeSender(t, recv, q, k)[q[k]].buf == t[q[k]].buf
    ensures Unlink(t, recv, q, k)[q[k]].state == Sending
  {
  }

  /** The peer gets its reply and may run again. */
  function Answer(t: Table, active: nat, src: nat, p: nat, msg: Msg): Table
    requires p < |t|
  {
    t[p := t[p].(buf := Stamp(msg, src), pending := true, state := Wake(active, p))]
  }

  /** The receiver takes the message in its buffer. */
  function TakePending(t: Table, active: nat, p: nat): Table
    requires p < |t|
  {
    t[p := t[p].(pending := false, state := if t[p].state == Receiving then Wake(active, p) else t[p].state)]
  }

  /** The receiver takes the message of the k-th sender in its queue. */
  function TakeSender(t: Table, recv: nat, q: seq<nat>, k: nat): Table
    requires recv < |t| && k < |q| && forall i :: 0 <= i < |q| ==> q[i] < |t|
  {
    var t1 := Unlink(t, recv, q, k);
    t1[q[k] := t1[q[k]].(state := WaitingReply)]
  }

  lemma FirstMatchIs(t: Table, q: seq<nat>, src: nat, k: nat)
    requires k < |q| && Matches(t, q[k], src) && FirstMatch(t, q, src) >= k
    ensures FirstMatch(t, q, src) == k
  {
  }
}
