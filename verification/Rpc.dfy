/**
 Runs of the IPC service and its calling clients: atomic steps between yields, in any interleaving that the
 scheduler may produce. A client calls: it sends a request to the service, waits, and takes the reply.
 */
module Rpc {
  import opened Bytes
  import opened Messages
  import opened Seqs
  import opened Tasks
  import opened Ipc

  /** Where a calling thread is: not in a call, in the loop of `ipc_send`, or waiting for the reply. */
  datatype Pc = Idle | Spin(p: nat) | Wait(p: nat)

  /** Where the service is: at its receive, or with a request in hand. */
  datatype Service = Loop | Working(m: Msg)

  /**
   The system. When a user program is active its calls come from one thread, `host`, and act for the PCB of
   the program; otherwise kernel threads call for themselves. `sent`, `fds` and `got` record for each PCB the
   requests, the results of opening files, and the replies taken.
   */
  datatype Sys = Sys(
    t: Table, cur: nat, active: nat, host: nat, pc: seq<Pc>, svc: Service, qs: seq<seq<nat>>, loc: seq<int>,
    sent: seq<seq<Msg>>, fds: seq<seq<int>>, got: seq<seq<Msg>>)

  datatype Step =
    | Call(typ: nat, payload: Payload) | SpinExit | TakeReply
    | ServiceReceive | ServiceReply(fd: int) | Reschedule

  predicate Quiet(st: State) {
    st !in {Free, Sending, Receiving, WaitingReply}
  }

  predicate Sized(s: Sys) {
    && TableOk(s.t) && s.cur < MAX_TASKS && s.host < MAX_TASKS && s.active < MAX_TASKS
    && |s.pc| == |s.sent| == |s.fds| == |s.got| == MAX_TASKS
    && QueuesOk(s.t, s.qs, s.loc)
    && (forall p, k :: 0 <= p < MAX_TASKS && 0 <= k < |s.fds[p]| ==> -TWO63 <= s.fds[p][k] < TWO63)
  }

  /** A thread that may call. */
  predicate Calls(s: Sys, x: nat) {
    x < MAX_TASKS && x != SERVICE && (s.active == 0 || x == s.host)
  }

  /** The PCB that thread `x` calls for, and the thread that calls for PCB `p`. */
  function PcbOf(s: Sys, x: nat): nat { if s.active == 0 then x else s.active }

  predicate IsClient(s: Sys, p: nat) {
    p < MAX_TASKS && p != SERVICE && (s.active == 0 || p == s.active)
  }

  function ThreadOf(s: Sys, p: nat): nat { if s.active == 0 then p else s.host }

  /** The service has the request of `p`, in its buffer or in hand. */
  predicate AtService(s: Sys, m: Msg)
    requires |s.t| == MAX_TASKS
  {
    (s.t[SERVICE].pending && s.t[SERVICE].buf == m) || s.svc == Working(m)
  }

  /** Replies taken so far answer the requests, one by one. */
  predicate Answered(sent: seq<Msg>, fds: seq<int>, got: seq<Msg>) {
    && |got| <= |sent| && |got| <= |fds|
    && forall k :: 0 <= k < |got| ==> -TWO63 <= fds[k] < TWO63 && got[k] == Respond(sent[k], fds[k])
  }

  /** The call of PCB `p` that is under way, if any, is in exactly one place. */
  predicate CallOk(s: Sys, p: nat)
    requires Sized(s) && IsClient(s, p)
  {
    var n, x := |s.got[p]|, s.t[p];
    match s.pc[ThreadOf(s, p)]
    case Idle => |s.sent[p]| == |s.fds[p]| == n && !x.pending && (Quiet(x.state) || x.state == Free)
    case Spin(w) => w == p && |s.sent[p]| == n + 1 && s.sent[p][n].sender == p
      && (InQueue(s, p, n) || Underway(s, p, n))
    case Wait(w) => w == p && |s.sent[p]| == n + 1 && s.sent[p][n].sender == p && Underway(s, p, n)
  }

  predicate InQueue(s: Sys, p: nat, n: nat)
    requires Sized(s) && IsClient(s, p) && n < |s.sent[p]|
  {
    s.t[p].state == Sending && !s.t[p].pending && |s.fds[p]| == n && s.t[p].buf == s.sent[p][n]
  }

  predicate Underway(s: Sys, p: nat, n: nat)
    requires Sized(s) && IsClient(s, p) && n < |s.sent[p]|
  {
    var x := s.t[p];
    || (x.state == WaitingReply && !x.pending && |s.fds[p]| == n && AtService(s, s.sent[p][n]))
    || (Quiet(x.state) && x.pending && |s.fds[p]| == n + 1 && x.buf == Respond(s.sent[p][n], s.fds[p][n]))
  }

  predicate ClientOk(s: Sys, p: nat)
    requires Sized(s) && IsClient(s, p)
  {
    Answered(s.sent[p], s.fds[p], s.got[p]) && CallOk(s, p)
  }

  /** A request at the service is the one that its sender is waiting on. */
  predicate RequestOk(s: Sys, m: Msg)
    requires Sized(s)
  {
    && IsClient(s, m.sender) && s.t[m.sender].state == WaitingReply
    && |s.sent[m.sender]| == |s.got[m.sender]| + 1 && s.sent[m.sender][|s.got[m.sender]|] == m
  }

  predicate ServiceOk(s: Sys)
    requires Sized(s)
  {
    var x := s.t[SERVICE];
    && x.state in {Ready, Running, Receiving}
    && (x.state == Receiving ==> !x.pending && s.svc == Loop && s.qs[SERVICE] == [])
    && (x.pending ==> s.svc == Loop && RequestOk(s, x.buf))
    && (s.svc.Working? ==> RequestOk(s, s.svc.m))
    && (forall i :: 0 <= i < |s.qs[SERVICE]| ==> IsClient(s, s.qs[SERVICE][i]))
  }

  predicate ModeOk(s: Sys)
    requires Sized(s)
  {
    && (s.active != 0 ==>
         s.active != SERVICE && s.host != SERVICE && s.t[s.active].state in {UserSlot, Sending, WaitingReply})
    && (forall x :: 0 <= x < MAX_TASKS && !Calls(s, x) ==> s.pc[x] == Idle)
    && (forall x :: 0 <= x < MAX_TASKS && !IsClient(s, x) && x != SERVICE ==>
         Quiet(s.t[x].state) || s.t[x].state == Free)
  }

  ghost predicate Inv(s: Sys) {
    && Sized(s) && ModeOk(s) && ServiceOk(s)
    && forall p: nat :: IsClient(s, p) ==> ClientOk(s, p)
  }

  // The steps.

  predicate Enabled(s: Sys, step: Step)
    requires Sized(s)
  {
    match step
    case Call(_, _) => Calls(s, s.cur) && s.pc[s.cur] == Idle && s.t[s.cur].state != Free
    case SpinExit => s.pc[s.cur].Spin? && s.pc[s.cur].p < MAX_TASKS && s.t[s.pc[s.cur].p].state != Sending
    case TakeReply => s.pc[s.cur].Wait? && s.pc[s.cur].p < MAX_TASKS && s.t[s.pc[s.cur].p].pending
    case ServiceReceive => s.cur == SERVICE && s.svc == Loop
    case ServiceReply(fd) => s.cur == SERVICE && s.svc.Working? && -TWO63 <= fd < TWO63
    case Reschedule => true
  }

  /** `ipc_send` to the service, up to its return or first yield; then the PCB to wait on is chosen afresh. */
  function DoCall(s: Sys, typ: nat, payload: Payload): Sys
    requires Sized(s) && Caller(s.t, s.active, s.cur) != SERVICE
  {
    var p, msg := Caller(s.t, s.active, s.cur), Msg(0, typ, payload);
    var s1 := s.(sent := s.sent[p := s.sent[p] + [Stamp(msg, p)]]);
    if s.t[SERVICE].state == Receiving then
      var t' := Deliver(s.t, s.active, p, SERVICE, msg);
      s1.(t := t', pc := s.pc[s.cur := Wait(if TableOk(t') then Caller(t', s.active, s.cur) else p)])
    else
      s1.(t := Enqueue(s.t, p, SERVICE, msg), pc := s.pc[s.cur := Spin(p)],
          qs := s.qs[SERVICE := [p] + s.qs[SERVICE]], loc := s.loc[p := SERVICE])
  }

  function DoSpinExit(s: Sys): Sys
    requires Sized(s)
  {
    s.(pc := s.pc[s.cur := Wait(Caller(s.t, s.active, s.cur))])
  }

  function DoTakeReply(s: Sys): Sys
    requires Sized(s) && s.pc[s.cur].Wait? && s.pc[s.cur].p < MAX_TASKS
  {
    var w := s.pc[s.cur].p;
    s.(t := s.t[w := s.t[w].(pending := false)], pc := s.pc[s.cur := Idle], got := s.got[w := s.got[w] + [s.t[w].buf]])
  }

  /** One round of `ipc_receive` in the service, for any sender. */
  function DoReceive(s: Sys): Sys
    requires Sized(s) && forall i :: 0 <= i < |s.qs[SERVICE]| ==> s.qs[SERVICE][i] < MAX_TASKS
  {
    var x, q := s.t[SERVICE], s.qs[SERVICE];
    if x.pending then s.(t := TakePending(s.t, s.active, SERVICE), svc := Working(x.buf))
    else if q != [] then
      s.(t := TakeSender(s.t, SERVICE, q, 0), svc := Working(s.t[q[0]].buf),
         qs := s.qs[SERVICE := Cut(q, 0, 1)], loc := s.loc[q[0] := NIL])
    else s.(t := s.t[SERVICE := x.(state := Receiving)])
  }

  /** The service answers the request in hand; a reply to a task that does not wait for one is refused. */
  function DoReply(s: Sys, fd: int): Sys
    requires Sized(s) && s.svc.Working? && -TWO63 <= fd < TWO63
  {
    var m := s.svc.m;
    if m.sender < MAX_TASKS && s.t[m.sender].state == WaitingReply then
      s.(t := Answer(s.t, s.active, SERVICE, m.sender, Respond(m, fd)), svc := Loop,
         fds := s.fds[m.sender := s.fds[m.sender] + [fd]])
    else s.(svc := Loop)
  }

  function DoReschedule(s: Sys): Sys
    requires Sized(s)
  {
    s.(t := Switched(s.t, s.cur), cur := Chosen(s.t, s.cur))
  }

  // Every step keeps the invariant.

  /** The PCB that is chosen before the send is the one that is chosen when the wait begins. */
  lemma SameCaller(s: Sys)
    requires Inv(s) && Calls(s, s.cur)
    ensures Caller(s.t, s.active, s.cur) == PcbOf(s, s.cur)
    ensures IsClient(s, PcbOf(s, s.cur)) && ThreadOf(s, PcbOf(s, s.cur)) == s.cur
  {
  }

  /** A client that a step does not touch, and whose request stays at the service if it is there. */
  lemma OtherClient(s: Sys, s': Sys, p: nat)
    requires Sized(s) && Sized(s') && IsClient(s, p) && ClientOk(s, p) && s'.active == s.active && s'.host == s.host
    requires s'.t[p] == s.t[p] && s'.pc[ThreadOf(s, p)] == s.pc[ThreadOf(s, p)]
    requires s'.sent[p] == s.sent[p] && s'.fds[p] == s.fds[p] && s'.got[p] == s.got[p]
    requires s.t[p].state == WaitingReply ==> forall m: Msg :: m.sender == p && AtService(s, m) ==> AtService(s', m)
    ensures ClientOk(s', p)
  {
  }

  lemma SpinExitKeeps(s: Sys)
    requires Inv(s) && Enabled(s, SpinExit)
    ensures Inv(DoSpinExit(s))
  {
    var s' := DoSpinExit(s);
    assert Calls(s, s.cur);
    SameCaller(s);
    forall p: nat | IsClient(s', p) ensures ClientOk(s', p) {
      assert ClientOk(s, p);
      if p != PcbOf(s, s.cur) {
        OtherClient(s, s', p);
      }
    }
  }

  lemma TakeReplyKeeps(s: Sys)
    requires Inv(s) && Enabled(s, TakeReply)
    ensures Inv(DoTakeReply(s))
  {
    var s' := DoTakeReply(s);
    TakeReplyRest(s);
    forall p: nat | IsClient(s', p) ensures ClientOk(s', p) {
      assert ClientOk(s, p);
      if p == PcbOf(s, s.cur) {
        TakeReplyClient(s);
      } else {
        OtherClient(s, s', p);
      }
    }
  }

  lemma TakeReplyRest(s: Sys)
    requires Inv(s) && Enabled(s, TakeReply)
    ensures s.pc[s.cur].p == PcbOf(s, s.cur) && IsClient(s, PcbOf(s, s.cur)) && ThreadOf(s, PcbOf(s, s.cur)) == s.cur
    ensures Sized(DoTakeReply(s)) && ModeOk(DoTakeReply(s)) && ServiceOk(DoTakeReply(s))
  {
    var s' := DoTakeReply(s);
    assert Calls(s, s.cur);
    SameCaller(s);
    QueuesSame(s.t, s'.t, s.qs, s.loc);
    assert ClientOk(s, PcbOf(s, s.cur));
  }

  lemma TakeReplyClient(s: Sys)
    requires Sized(s) && Enabled(s, TakeReply) && Sized(DoTakeReply(s))
    requires var p := s.pc[s.cur].p; IsClient(s, p) && ThreadOf(s, p) == s.cur && ClientOk(s, p)
    ensures ClientOk(DoTakeReply(s), s.pc[s.cur].p)
  {
  }

  /** Only changes between ready and running. */
  predicate OnlySwitched(t: Table, t': Table) {
    |t'| == |t| && forall i :: 0 <= i < |t| ==>
      && t'[i] == t[i].(state := t'[i].state)
      && (t'[i].state == t[i].state || (t[i].state in {Ready, Running} && t'[i].state in {Ready, Running}))
  }

  lemma SwitchOnly(t: Table, cur: nat)
    requires |t| == MAX_TASKS && cur < MAX_TASKS
    ensures OnlySwitched(t, Switched(t, cur))
  {
  }

  lemma RescheduleKeeps(s: Sys)
    requires Inv(s)
    ensures Inv(DoReschedule(s))
  {
    SwitchOnly(s.t, s.cur);
    SwitchedKeeps(s, Switched(s.t, s.cur), Chosen(s.t, s.cur));
  }

  lemma SwitchedKeeps(s: Sys, t': Table, cur': nat)
    requires Inv(s) && OnlySwitched(s.t, t') && cur' < MAX_TASKS
    ensures Inv(s.(t := t', cur := cur'))
  {
    var s' := s.(t := t', cur := cur');
    assert Sized(s') && ModeOk(s') by { QueuesSame(s.t, t', s.qs, s.loc); }
    SwitchedService(s, s');
    forall p: nat | IsClient(s', p) ensures ClientOk(s', p) {
      SwitchedClient(s, s', p);
    }
  }

  lemma SwitchedService(s: Sys, s': Sys)
    requires Sized(s) && Sized(s') && OnlySwitched(s.t, s'.t) && s' == s.(t := s'.t, cur := s'.cur) && ServiceOk(s)
    ensures ServiceOk(s')
  {
  }

  lemma SwitchedClient(s: Sys, s': Sys, p: nat)
    requires Sized(s) && Sized(s') && OnlySwitched(s.t, s'.t)
    requires s' == s.(t := s'.t, cur := s'.cur) && IsClient(s, p) && ClientOk(s, p)
    ensures ClientOk(s', p)
  {
  }

  lemma ReceiveKeeps(s: Sys)
    requires Inv(s) && Enabled(s, ServiceReceive)
    ensures (forall i :: 0 <= i < |s.qs[SERVICE]| ==> s.qs[SERVICE][i] < MAX_TASKS) && Inv(DoReceive(s))
  {
    var x, q := s.t[SERVICE], s.qs[SERVICE];
    if x.pending {
      ReceivePendingKeeps(s);
    } else if q != [] {
      ReceiveSenderKeeps(s);
    } else {
      ReceiveBlocksKeeps(s);
    }
  }

  lemma ReceivePendingKeeps(s: Sys)
    requires Inv(s) && Enabled(s, ServiceReceive) && s.t[SERVICE].pending
    ensures Inv(DoReceive(s))
  {
    var s' := DoReceive(s);
    QueuesSame(s.t, s'.t, s.qs, s.loc);
    forall p: nat | IsClient(s', p) ensures ClientOk(s', p) {
      assert ClientOk(s, p);
    }
  }

  lemma ReceiveBlocksKeeps(s: Sys)
    requires Inv(s) && Enabled(s, ServiceReceive) && !s.t[SERVICE].pending && s.qs[SERVICE] == []
    ensures Inv(DoReceive(s))
  {
    var s' := DoReceive(s);
    QueuesSame(s.t, s'.t, s.qs, s.loc);
    forall p: nat | IsClient(s', p) ensures ClientOk(s', p) {
      assert ClientOk(s, p);
    }
  }

  lemma ReceiveSenderKeeps(s: Sys)
    requires Inv(s) && Enabled(s, ServiceReceive) && !s.t[SERVICE].pending && s.qs[SERVICE] != []
    ensures Inv(DoReceive(s))
  {
    var s', q := DoReceive(s), s.qs[SERVICE];
    var c := q[0];
    DequeueOk(s.t, s.qs, s.loc, SERVICE, 0);
    TakeSenderOk(s.t, SERVICE, q, 0);
    assert ClientOk(s, c);
    forall p: nat | IsClient(s', p) ensures ClientOk(s', p) {
      assert ClientOk(s, p);
      if p != c {
        OtherClient(s, s', p);
      }
    }
  }

  lemma ReplyKeeps(s: Sys, fd: int)
    requires Inv(s) && Enabled(s, ServiceReply(fd))
    ensures Inv(DoReply(s, fd))
  {
    var s', m := DoReply(s, fd), s.svc.m;
    assert ClientOk(s, m.sender);
    ReplyRest(s, fd);
    forall p: nat | IsClient(s', p) ensures ClientOk(s', p) {
      assert ClientOk(s, p);
      if p == m.sender {
        ReplyClient(s, fd);
      } else {
        OtherClient(s, s', p);
      }
    }
  }

  lemma ReplyRest(s: Sys, fd: int)
    requires Sized(s) && ModeOk(s) && ServiceOk(s) && Enabled(s, ServiceReply(fd)) && ClientOk(s, s.svc.m.sender)
    ensures Sized(DoReply(s, fd)) && ModeOk(DoReply(s, fd)) && ServiceOk(DoReply(s, fd))
  {
    QueuesSame(s.t, DoReply(s, fd).t, s.qs, s.loc);
  }

  lemma ReplyClient(s: Sys, fd: int)
    requires Sized(s) && Enabled(s, ServiceReply(fd)) && Sized(DoReply(s, fd))
    requires RequestOk(s, s.svc.m) && ClientOk(s, s.svc.m.sender)
    ensures ClientOk(DoReply(s, fd), s.svc.m.sender)
  {
  }

  lemma CallKeeps(s: Sys, typ: nat, payload: Payload)
    requires Inv(s) && Enabled(s, Call(typ, payload))
    ensures Caller(s.t, s.active, s.cur) != SERVICE && Inv(DoCall(s, typ, payload))
  {
    SameCaller(s);
    if s.t[SERVICE].state == Receiving {
      CallDeliveredKeeps(s, typ, payload);
    } else {
      CallQueuedKeeps(s, typ, payload);
    }
  }

  lemma CallDeliveredKeeps(s: Sys, typ: nat, payload: Payload)
    requires Inv(s) && Enabled(s, Call(typ, payload)) && s.t[SERVICE].state == Receiving
    requires Caller(s.t, s.active, s.cur) != SERVICE
    ensures Inv(DoCall(s, typ, payload))
  {
    var s' := DoCall(s, typ, payload);
    SameCaller(s);
    var p := PcbOf(s, s.cur);
    assert ClientOk(s, p);
    QueuesSame(s.t, s'.t, s.qs, s.loc);
    forall o: nat | IsClient(s', o) ensures ClientOk(s', o) {
      assert ClientOk(s, o);
      if o != p {
        OtherClient(s, s', o);
      }
    }
  }

  lemma CallQueuedKeeps(s: Sys, typ: nat, payload: Payload)
    requires Inv(s) && Enabled(s, Call(typ, payload)) && s.t[SERVICE].state != Receiving
    requires Caller(s.t, s.active, s.cur) != SERVICE
    ensures Inv(DoCall(s, typ, payload))
  {
    var s' := DoCall(s, typ, payload);
    SameCaller(s);
    var p := PcbOf(s, s.cur);
    assert ClientOk(s, p);
    CallQueuedRest(s, typ, payload);
    forall o: nat | IsClient(s', o) ensures ClientOk(s', o) {
      assert ClientOk(s, o);
      if o != p {
        OtherClient(s, s', o);
      }
    }
  }

  lemma CallQueuedRest(s: Sys, typ: nat, payload: Payload)
    requires Sized(s) && ModeOk(s) && ServiceOk(s) && Enabled(s, Call(typ, payload)) && s.t[SERVICE].state != Receiving
    requires Caller(s.t, s.active, s.cur) == PcbOf(s, s.cur)
    requires IsClient(s, PcbOf(s, s.cur)) && ThreadOf(s, PcbOf(s, s.cur)) == s.cur
    requires ClientOk(s, PcbOf(s, s.cur))
    ensures Sized(DoCall(s, typ, payload)) && ModeOk(DoCall(s, typ, payload)) && ServiceOk(DoCall(s, typ, payload))
  {
    EnqueueOk(s.t, s.qs, s.loc, PcbOf(s, s.cur), SERVICE, Msg(0, typ, payload));
  }

  // Runs.

  /** One step of the system. */
  ghost predicate Next(s: Sys, step: Step, s': Sys) {
    Sized(s) && Enabled(s, step) &&
    match step
    case Call(typ, payload) => Caller(s.t, s.active, s.cur) != SERVICE && s' == DoCall(s, typ, payload)
    case SpinExit => s' == DoSpinExit(s)
    case TakeReply => s' == DoTakeReply(s)
    case ServiceReceive => (forall i :: 0 <= i < |s.qs[SERVICE]| ==> s.qs[SERVICE][i] < MAX_TASKS) && s' == DoReceive(s)
    case ServiceReply(fd) => s' == DoReply(s, fd)
    case Reschedule => s' == DoReschedule(s)
  }

  lemma NextKeeps(s: Sys, step: Step, s': Sys)
    requires Inv(s) && Next(s, step, s')
    ensures Inv(s')
  {
    match step
    case Call(typ, payload) => CallKeeps(s, typ, payload);
    case SpinExit => SpinExitKeeps(s);
    case TakeReply => TakeReplyKeeps(s);
    case ServiceReceive => ReceiveKeeps(s);
    case ServiceReply(fd) => ReplyKeeps(s, fd);
    case Reschedule => RescheduleKeeps(s);
  }

  /** Before the first step: nobody is in a call, and the service thread is ready. */
  ghost predicate Init(s: Sys) {
    && Sized(s) && (forall x :: 0 <= x < MAX_TASKS ==>
         s.pc[x] == Idle && s.sent[x] == [] && s.fds[x] == [] && s.got[x] == [])
    && (forall x :: 0 <= x < MAX_TASKS ==>
         !s.t[x].pending && (Quiet(s.t[x].state) || s.t[x].state == Free) && s.qs[x] == [])
    && s.svc == Loop && s.t[SERVICE].state == Ready && OneRunning(s.t, s.cur)
    && (s.active != 0 ==> s.active != SERVICE && s.host != SERVICE && s.t[s.active].state == UserSlot)
  }

  lemma InitInv(s: Sys)
    requires Init(s)
    ensures Inv(s)
  {
    forall p: nat | IsClient(s, p) ensures ClientOk(s, p) {
      assert s.pc[ThreadOf(s, p)] == Idle;
    }
  }

  /** A run: it starts in an initial state, and each state follows from the one before by a step. */
  ghost predicate IsRun(run: seq<Sys>, steps: seq<Step>) {
    |run| == |steps| + 1 && Init(run[0]) && forall i :: 0 <= i < |steps| ==> Next(run[i], steps[i], run[i + 1])
  }

  lemma {:induction false} RunKeeps(run: seq<Sys>, steps: seq<Step>, i: nat)
    requires IsRun(run, steps) && i < |run|
    ensures Inv(run[i])
  {
    if i == 0 {
      InitInv(run[0]);
    } else {
      RunKeeps(run, steps, i - 1);
      assert Next(run[i - 1], steps[i - 1], run[i - 1 + 1]);
      NextKeeps(run[i - 1], steps[i - 1], run[i]);
    }
  }

  /** The replies that client `p` has taken are the answers to its requests, in order; at most one request is open. */
  predicate ServedInOrder(s: Sys, p: nat) {
    && Sized(s) && IsClient(s, p) && |s.got[p]| <= |s.sent[p]| <= |s.got[p]| + 1 && |s.got[p]| <= |s.fds[p]|
    && (forall k :: 0 <= k < |s.got[p]| ==>
         -TWO63 <= s.fds[p][k] < TWO63 && s.got[p][k] == Respond(s.sent[p][k], s.fds[p][k]))
    && (s.pc[ThreadOf(s, p)] == Idle ==> |s.got[p]| == |s.sent[p]|)
  }

  /** Exactly once, in every state of every run. */
  lemma ExactlyOnce(run: seq<Sys>, steps: seq<Step>, i: nat, p: nat)
    requires IsRun(run, steps) && i < |run| && IsClient(run[i], p)
    ensures ServedInOrder(run[i], p)
  {
    RunKeeps(run, steps, i);
    assert ClientOk(run[i], p);
  }

  /** Reply `k` of client `p`, in numbers: PONG, NOP, or the file that was opened. */
  predicate AnswerIs(s: Sys, p: nat, k: nat)
    requires p < |s.sent| == |s.got| == |s.fds| && k < |s.got[p]| && k < |s.sent[p]| && k < |s.fds[p]|
  {
    var ask, answer, fd := s.sent[p][k], s.got[p][k], s.fds[p][k];
    && answer.sender == 3
    && (ask.typ == 1 ==> answer.typ == 2 && answer.payload == ask.payload)
    && (ask.typ != 1 && ask.typ != 10 ==> answer.typ == 0 && answer.payload == ask.payload)
    && (ask.typ == 10 ==> answer.typ == 11 && forall j :: 8 <= j < 48 ==> answer.payload[j] == 0)
    && (ask.typ == 10 ==> U64(answer.payload, 0) == if fd < 0 then fd + 0x1_0000_0000_0000_0000 else fd)
  }

  /** In every state of every run each reply that a client has taken is the one that its request calls for. */
  lemma AnswersExact(run: seq<Sys>, steps: seq<Step>, i: nat, p: nat, k: nat)
    requires IsRun(run, steps) && i < |run| && IsClient(run[i], p) && Sized(run[i]) && k < |run[i].got[p]|
    ensures k < |run[i].sent[p]| && k < |run[i].fds[p]| && run[i].sent[p][k].sender == p && AnswerIs(run[i], p, k)
  {
    ExactlyOnce(run, steps, i, p);
    RespondIs(run[i].sent[p][k], run[i].fds[p][k]);
    SentStamped(run, steps, i, p, k);
  }

  lemma SentGrows(s: Sys, step: Step, s': Sys, p: nat)
    requires Next(s, step, s') && Sized(s') && p < MAX_TASKS
    ensures s.sent[p] <= s'.sent[p] && forall k :: |s.sent[p]| <= k < |s'.sent[p]| ==> s'.sent[p][k].sender == p
  {
  }

  /** Every recorded request carries its sender. */
  lemma {:induction false} SentStamped(run: seq<Sys>, steps: seq<Step>, i: nat, p: nat, k: nat)
    requires IsRun(run, steps) && i < |run| && Sized(run[i]) && p < MAX_TASKS && k < |run[i].sent[p]|
    ensures run[i].sent[p][k].sender == p
  {
    if i > 0 {
      var s, step, s' := run[i - 1], steps[i - 1], run[i - 1 + 1];
      assert Next(s, step, s');
      SentGrows(s, step, s', p);
      if k < |s.sent[p]| {
        SentStamped(run, steps, i - 1, p, k);
      }
    }
  }

  /** The buffer of a task that holds an unread message is not written. */
  predicate Unread(s: Sys, s': Sys) {
    |s.t| == |s'.t| && forall p :: 0 <= p < |s.t| && s.t[p].pending && s'.t[p].pending ==> s'.t[p].buf == s.t[p].buf
  }

  lemma CallUnread(s: Sys, typ: nat, payload: Payload)
    requires Inv(s) && Enabled(s, Call(typ, payload))
    ensures Caller(s.t, s.active, s.cur) != SERVICE && Unread(s, DoCall(s, typ, payload))
  {
    SameCaller(s);
    assert ClientOk(s, PcbOf(s, s.cur));
  }

  lemma ReplyUnread(s: Sys, fd: int)
    requires Inv(s) && Enabled(s, ServiceReply(fd))
    ensures Unread(s, DoReply(s, fd))
  {
    assert ClientOk(s, s.svc.m.sender);
  }

  lemma ReceiveUnread(s: Sys)
    requires Inv(s) && Enabled(s, ServiceReceive)
    ensures (forall i :: 0 <= i < |s.qs[SERVICE]| ==> s.qs[SERVICE][i] < MAX_TASKS) && Unread(s, DoReceive(s))
  {
  }

  /** The task can be run, or stands for the user program that is active. */
  predicate Runnable(s: Sys, p: nat)
    requires p < |s.t|
  {
    if s.active == 0 then s.t[p].state in {Ready, Running} else s.t[p].state == UserSlot
  }

  lemma CallRunnable(s: Sys, typ: nat, payload: Payload, p: nat)
    requires Inv(s) && Enabled(s, Call(typ, payload)) && IsClient(s, p) && (s.t[p].pending ==> Runnable(s, p))
    ensures Caller(s.t, s.active, s.cur) != SERVICE
    ensures var s' := DoCall(s, typ, payload); |s'.t| == |s.t| && (s'.t[p].pending ==> Runnable(s', p))
  {
    SameCaller(s);
    assert ClientOk(s, PcbOf(s, s.cur));
  }

  lemma ReceiveRunnable(s: Sys, p: nat)
    requires Inv(s) && Enabled(s, ServiceReceive) && IsClient(s, p) && (s.t[p].pending ==> Runnable(s, p))
    ensures forall i :: 0 <= i < |s.qs[SERVICE]| ==> s.qs[SERVICE][i] < MAX_TASKS
    ensures var s' := DoReceive(s); |s'.t| == |s.t| && (s'.t[p].pending ==> Runnable(s', p))
  {
    if s.qs[SERVICE] != [] {
      assert QueueOk(s.t, SERVICE, s.qs[SERVICE], s.loc);
      var c := s.qs[SERVICE][0];
      assert LocOk(s.t, s.qs, s.loc, c);
      assert ClientOk(s, c);
    }
  }

  lemma ReplyRunnable(s: Sys, fd: int, p: nat)
    requires Inv(s) && Enabled(s, ServiceReply(fd)) && IsClient(s, p) && (s.t[p].pending ==> Runnable(s, p))
    ensures var s' := DoReply(s, fd); |s'.t| == |s.t| && (s'.t[p].pending ==> Runnable(s', p))
  {
  }

  lemma SwitchRunnable(s: Sys, p: nat)
    requires Inv(s) && IsClient(s, p) && (s.t[p].pending ==> Runnable(s, p))
    ensures var s' := DoReschedule(s); |s'.t| == |s.t| && (s'.t[p].pending ==> Runnable(s', p))
  {
  }

  lemma RunnableStep(s: Sys, step: Step, s': Sys, p: nat)
    requires Inv(s) && Next(s, step, s') && IsClient(s, p) && (s.t[p].pending ==> Runnable(s, p))
    ensures |s'.t| == |s.t| && (s'.t[p].pending ==> Runnable(s', p))
  {
    match step
    case Call(typ, payload) => CallRunnable(s, typ, payload, p);
    case SpinExit =>
    case TakeReply =>
    case ServiceReceive => ReceiveRunnable(s, p);
    case ServiceReply(fd) => ReplyRunnable(s, fd, p);
    case Reschedule => SwitchRunnable(s, p);
  }

  /** In every state of every run a client whose reply has come can go on. */
  lemma {:induction false} AnsweredCanRun(run: seq<Sys>, steps: seq<Step>, i: nat, p: nat)
    requires IsRun(run, steps) && i < |run| && Sized(run[i]) && IsClient(run[i], p)
    ensures run[i].t[p].pending ==> Runnable(run[i], p)
  {
    if i > 0 {
      RunKeeps(run, steps, i - 1);
      var s, step, s' := run[i - 1], steps[i - 1], run[i - 1 + 1];
      assert Next(s, step, s');
      SameMode(s, step, s');
      AnsweredCanRun(run, steps, i - 1, p);
      RunnableStep(s, step, s', p);
    }
  }

  lemma SameMode(s: Sys, step: Step, s': Sys)
    requires Next(s, step, s')
    ensures s'.active == s.active && s'.host == s.host
  {
  }

  /** No message is overwritten before it is read. */
  lemma NeverOverwritten(run: seq<Sys>, steps: seq<Step>, i: nat)
    requires IsRun(run, steps) && i < |steps|
    ensures Unread(run[i], run[i + 1])
  {
    RunKeeps(run, steps, i);
    var s := run[i];
    assert Next(s, steps[i], run[i + 1]);
    match steps[i]
    case Call(typ, payload) => CallUnread(s, typ, payload);
    case SpinExit =>
    case TakeReply =>
    case ServiceReceive => ReceiveUnread(s);
    case ServiceReply(fd) => ReplyUnread(s, fd);
    case Reschedule => SwitchOnly(s.t, s.cur);
  }

  /** A client waits on the PCB that it sent for. */
  lemma WaitsOnSender(run: seq<Sys>, steps: seq<Step>, i: nat, x: nat)
    requires IsRun(run, steps) && i < |run| && x < MAX_TASKS && |run[i].pc| == MAX_TASKS && run[i].pc[x] != Idle
    ensures run[i].pc[x].p == PcbOf(run[i], x)
  {
    RunKeeps(run, steps, i);
    var s := run[i];
    assert Calls(s, x);
    assert ClientOk(s, PcbOf(s, x));
  }

  /**
   A task that waits in receive has no sender queued and no message pending, and exactly the queued tasks are sending.
   */
  lemma QueuesAlwaysOk(run: seq<Sys>, steps: seq<Step>, i: nat)
    requires IsRun(run, steps) && i < |run|
    ensures QueuesOk(run[i].t, run[i].qs, run[i].loc) && ReceiversIdle(run[i].t, run[i].qs)
  {
    RunKeeps(run, steps, i);
    var s := run[i];
    forall p: nat | IsClient(s, p) ensures s.t[p].state != Receiving {
      assert ClientOk(s, p);
    }
  }

  /** Only `schedule` sets a task running. */
  lemma StartsNone(s: Sys, step: Step, s': Sys)
    requires Next(s, step, s') && step != Reschedule
    ensures s'.cur == s.cur && NoneStarted(s.t, s'.t)
  {
  }

  /** In every state of every run at most one task is running, and it is the current one. */
  lemma {:induction false} OneRunsAlways(run: seq<Sys>, steps: seq<Step>, i: nat)
    requires IsRun(run, steps) && i < |run|
    ensures OneRunning(run[i].t, run[i].cur)
  {
    if i > 0 {
      OneRunsAlways(run, steps, i - 1);
      var s, step, s' := run[i - 1], steps[i - 1], run[i - 1 + 1];
      assert Next(s, step, s');
      if step == Reschedule {
        SwitchKeepsOneRunning(s.t, s.cur);
      } else {
        StartsNone(s, step, s');
      }
    }
  }
}
