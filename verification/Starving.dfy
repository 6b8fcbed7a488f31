/** A client that is never served: another one that calls again as soon as it is answered goes before it every time. */
module Starving {
  import opened Bytes
  import opened Messages
  import opened Tasks
  import opened Ipc
  import opened Rpc

  ghost predicate IsPath(path: seq<Sys>, steps: seq<Step>) {
    |path| == |steps| + 1 && forall i :: 0 <= i < |steps| ==> Next(path[i], steps[i], path[i + 1])
  }

  /** Apart from the service and client `b` no thread can run. */
  predicate Pair(s: Sys, b: nat) {
    && Sized(s) && s.active == 0 && b < MAX_TASKS && b != SERVICE
    && forall x :: 0 <= x < MAX_TASKS && x != b && x != SERVICE ==> s.t[x].state !in {Ready, Running}
  }

  /** The service runs, with `b` at the head of its queue. */
  predicate Due(s: Sys, b: nat, rest: seq<nat>) {
    && Pair(s, b) && s.cur == SERVICE && s.t[SERVICE].state == Running && !s.t[SERVICE].pending && s.svc == Loop
    && s.qs[SERVICE] == [b] + rest && s.pc[b] == Spin(b)
  }

  predicate InHand(s: Sys, b: nat, rest: seq<nat>) {
    && Pair(s, b) && s.cur == SERVICE && s.t[SERVICE].state == Running && !s.t[SERVICE].pending
    && s.svc.Working? && s.svc.m.sender == b && s.t[b].state == WaitingReply
    && s.qs[SERVICE] == rest && s.pc[b] == Spin(b)
  }

  predicate Served(s: Sys, b: nat, rest: seq<nat>, cur: nat, mine: State, its: State, pc: Pc) {
    && Pair(s, b) && s.cur == cur && s.t[b].state == mine && s.t[b].pending
    && s.t[SERVICE].state == its && !s.t[SERVICE].pending && s.svc == Loop
    && s.qs[SERVICE] == rest && s.pc[b] == pc
  }

  predicate Back(s: Sys, b: nat, q: seq<nat>, mine: State, pc: Pc) {
    && Pair(s, b) && s.cur == b && s.t[b].state == mine
    && s.t[SERVICE].state == Ready && !s.t[SERVICE].pending && s.svc == Loop
    && s.qs[SERVICE] == q && s.pc[b] == pc
  }

  /** Replies taken by `b` grow by `n`, those of the others stay. */
  predicate Replies(s: Sys, s': Sys, b: nat, n: nat) {
    && |s.got| == |s'.got| == MAX_TASKS && b < MAX_TASKS && |s'.got[b]| == |s.got[b]| + n
    && forall x :: 0 <= x < MAX_TASKS && x != b ==> s'.got[x] == s.got[x]
  }

  lemma OnlyReady(t: Table, cur: nat, x: nat)
    requires |t| == MAX_TASKS && cur < MAX_TASKS && x < MAX_TASKS && t[x].state == Ready
    requires forall y :: 0 <= y < MAX_TASKS && y != x ==> t[y].state != Ready
    ensures Chosen(t, cur) == x && Scan(t, cur, 1) == x
  {
    ScanNearer(t, cur, 1, x);
  }

  lemma TakesIt(s: Sys, b: nat, rest: seq<nat>) returns (s': Sys)
    requires Inv(s) && Due(s, b, rest)
    ensures Inv(s') && Next(s, ServiceReceive, s') && InHand(s', b, rest) && Replies(s, s', b, 0)
  {
    s' := DoReceive(s);
    assert Next(s, ServiceReceive, s');
    NextKeeps(s, ServiceReceive, s');
    assert ClientOk(s, b);
    assert ([b] + rest)[1..] == rest;
  }

  lemma AnswersIt(s: Sys, b: nat, rest: seq<nat>, fd: int) returns (s': Sys)
    requires Inv(s) && InHand(s, b, rest) && -TWO63 <= fd < TWO63
    ensures Inv(s') && Next(s, ServiceReply(fd), s') && Served(s', b, rest, SERVICE, Ready, Running, Spin(b))
    ensures Replies(s, s', b, 0)
  {
    s' := DoReply(s, fd);
    assert Next(s, ServiceReply(fd), s');
    NextKeeps(s, ServiceReply(fd), s');
  }

  lemma SwitchesToIt(s: Sys, b: nat, rest: seq<nat>) returns (s': Sys)
    requires Inv(s) && Served(s, b, rest, SERVICE, Ready, Running, Spin(b))
    ensures Inv(s') && Next(s, Reschedule, s') && Served(s', b, rest, b, Running, Ready, Spin(b))
    ensures Replies(s, s', b, 0)
  {
    s' := DoReschedule(s);
    assert Next(s, Reschedule, s');
    NextKeeps(s, Reschedule, s');
    OnlyReady(s.t, SERVICE, b);
  }

  lemma LeavesLoop(s: Sys, b: nat, rest: seq<nat>) returns (s': Sys)
    requires Inv(s) && Served(s, b, rest, b, Running, Ready, Spin(b))
    ensures Inv(s') && Next(s, SpinExit, s') && Served(s', b, rest, b, Running, Ready, Wait(b)) && Replies(s, s', b, 0)
  {
    s' := DoSpinExit(s);
    assert Next(s, SpinExit, s');
    NextKeeps(s, SpinExit, s');
  }

  lemma ReadsReply(s: Sys, b: nat, rest: seq<nat>) returns (s': Sys)
    requires Inv(s) && Served(s, b, rest, b, Running, Ready, Wait(b))
    ensures Inv(s') && Next(s, TakeReply, s') && Back(s', b, rest, Running, Idle) && Replies(s, s', b, 1)
  {
    s' := DoTakeReply(s);
    assert Next(s, TakeReply, s');
    NextKeeps(s, TakeReply, s');
  }

  lemma CallsAgain(s: Sys, b: nat, rest: seq<nat>, typ: nat, payload: Payload) returns (s': Sys)
    requires Inv(s) && Back(s, b, rest, Running, Idle)
    ensures Inv(s') && Next(s, Call(typ, payload), s')
    ensures Back(s', b, [b] + rest, Sending, Spin(b)) && Replies(s, s', b, 0)
  {
    s' := DoCall(s, typ, payload);
    assert Next(s, Call(typ, payload), s');
    NextKeeps(s, Call(typ, payload), s');
  }

  lemma SwitchesBack(s: Sys, b: nat, rest: seq<nat>) returns (s': Sys)
    requires Inv(s) && Back(s, b, [b] + rest, Sending, Spin(b))
    ensures Inv(s') && Next(s, Reschedule, s') && Due(s', b, rest) && Replies(s, s', b, 0)
  {
    s' := DoReschedule(s);
    assert Next(s, Reschedule, s');
    NextKeeps(s, Reschedule, s');
    OnlyReady(s.t, b, SERVICE);
  }

  /** `b` may be before them in the queue of the service, nobody else, and they keep their order. */
  predicate Behind(s: Sys, b: nat, rest: seq<nat>) {
    |s.qs| == MAX_TASKS && (s.qs[SERVICE] == rest || s.qs[SERVICE] == [b] + rest)
  }

  /** A path that ends in `s` and keeps them so. */
  ghost predicate Trail(path: seq<Sys>, steps: seq<Step>, s: Sys, b: nat, rest: seq<nat>) {
    IsPath(path, steps) && path[|steps|] == s && forall i :: 0 <= i < |path| ==> Behind(path[i], b, rest)
  }

  lemma Longer(path: seq<Sys>, steps: seq<Step>, s: Sys, step: Step, s': Sys, b: nat, rest: seq<nat>)
    requires Trail(path, steps, s, b, rest) && Next(s, step, s') && Behind(s', b, rest)
    ensures Trail(path + [s'], steps + [step], s', b, rest)
  {
    var p, ss := path + [s'], steps + [step];
    forall i | 0 <= i < |ss| ensures Next(p[i], ss[i], p[i + 1]) {
      if i < |steps| {
        assert Next(path[i], steps[i], path[i + 1]);
      }
    }
  }

  lemma Answering(s: Sys, b: nat, rest: seq<nat>, fd: int, path: seq<Sys>, steps: seq<Step>)
    returns (s': Sys, path': seq<Sys>, steps': seq<Step>)
    requires Inv(s) && Due(s, b, rest) && -TWO63 <= fd < TWO63 && Trail(path, steps, s, b, rest)
    ensures Inv(s') && Served(s', b, rest, b, Running, Ready, Spin(b)) && Trail(path', steps', s', b, rest)
    ensures path <= path' && Replies(s, s', b, 0)
  {
    var s1 := TakesIt(s, b, rest);
    Longer(path, steps, s, ServiceReceive, s1, b, rest);
    var p1, t1 := path + [s1], steps + [ServiceReceive];
    var s2 := AnswersIt(s1, b, rest, fd);
    Longer(p1, t1, s1, ServiceReply(fd), s2, b, rest);
    var p2, t2 := p1 + [s2], t1 + [ServiceReply(fd)];
    s' := SwitchesToIt(s2, b, rest);
    Longer(p2, t2, s2, Reschedule, s', b, rest);
    path', steps' := p2 + [s'], t2 + [Reschedule];
  }

  lemma Reading(s: Sys, b: nat, rest: seq<nat>, path: seq<Sys>, steps: seq<Step>)
    returns (s': Sys, path': seq<Sys>, steps': seq<Step>)
    requires Inv(s) && Served(s, b, rest, b, Running, Ready, Spin(b)) && Trail(path, steps, s, b, rest)
    ensures Inv(s') && Back(s', b, rest, Running, Idle) && Trail(path', steps', s', b, rest)
    ensures path <= path' && Replies(s, s', b, 1)
  {
    var s1 := LeavesLoop(s, b, rest);
    Longer(path, steps, s, SpinExit, s1, b, rest);
    var p1, t1 := path + [s1], steps + [SpinExit];
    s' := ReadsReply(s1, b, rest);
    Longer(p1, t1, s1, TakeReply, s', b, rest);
    path', steps' := p1 + [s'], t1 + [TakeReply];
  }

  lemma Calling(s: Sys, b: nat, rest: seq<nat>, typ: nat, payload: Payload, path: seq<Sys>, steps: seq<Step>)
    returns (s': Sys, path': seq<Sys>, steps': seq<Step>)
    requires Inv(s) && Back(s, b, rest, Running, Idle) && Trail(path, steps, s, b, rest)
    ensures Inv(s') && Due(s', b, rest) && Trail(path', steps', s', b, rest)
    ensures path <= path' && Replies(s, s', b, 0)
  {
    var s1 := CallsAgain(s, b, rest, typ, payload);
    Longer(path, steps, s, Call(typ, payload), s1, b, rest);
    var p1, t1 := path + [s1], steps + [Call(typ, payload)];
    s' := SwitchesBack(s1, b, rest);
    Longer(p1, t1, s1, Reschedule, s', b, rest);
    path', steps' := p1 + [s'], t1 + [Reschedule];
  }

  /** Round after round `b` is taken, answered and calls again, and the clients behind it stay where they are. */
  lemma {:induction false} Rounds(s: Sys, b: nat, rest: seq<nat>, n: nat, path: seq<Sys>, steps: seq<Step>)
    returns (s': Sys, path': seq<Sys>, steps': seq<Step>)
    requires Inv(s) && Due(s, b, rest) && Trail(path, steps, s, b, rest)
    ensures Inv(s') && Due(s', b, rest) && Trail(path', steps', s', b, rest)
    ensures path <= path' && Replies(s, s', b, n)
    decreases n
  {
    s', path', steps' := s, path, steps;
    if n > 0 {
      s', path', steps' := Answering(s', b, rest, 0, path', steps');
      s', path', steps' := Reading(s', b, rest, path', steps');
      s', path', steps' := Calling(s', b, rest, MSG_PING, Zeros(MAX_PAYLOAD), path', steps');
      s', path', steps' := Rounds(s', b, rest, n - 1, path', steps');
    }
  }

  /** Client `a` runs; client `b` and the service are ready, `b` nearer to `a`; no other thread can run. */
  ghost predicate Contest(s: Sys, a: nat, b: nat) {
    && Init(s) && s.active == 0 && s.cur == a < MAX_TASKS && a != SERVICE && s.t[a].state == Running
    && b < MAX_TASKS && b != SERVICE && b != a && s.t[b].state == Ready && Distance(a, b) < Distance(a, SERVICE)
    && forall x :: 0 <= x < MAX_TASKS && x !in {a, b, SERVICE} ==> s.t[x].state !in {Ready, Running}
  }

  function StartTable(): (t: Table)
    ensures |t| == MAX_TASKS
    ensures forall i :: 0 <= i < MAX_TASKS ==>
      t[i] == Proc(i, if i == 1 then Running else if i in {2, SERVICE} then Ready
        else Free, Msg(0, 0, Zeros(MAX_PAYLOAD)), false, NIL, NIL)
  {
    seq(MAX_TASKS, i requires 0 <= i < MAX_TASKS =>
      Proc(i, if i == 1 then Running else if i in {2, SERVICE} then Ready
        else Free, Msg(0, 0, Zeros(MAX_PAYLOAD)), false, NIL, NIL))
  }

  /** Such a start: the kernel with two tasks beside the service. */
  lemma ContestExists() returns (s: Sys)
    ensures Contest(s, 1, 2)
  {
    var none: seq<seq<Msg>>, ints: seq<seq<int>> := seq(MAX_TASKS, _ => []), seq(MAX_TASKS, _ => []);
    s := Sys(StartTable(), 1, 0, 0, seq(MAX_TASKS, _ => Idle), Loop, seq(MAX_TASKS, _ => []),
      seq(MAX_TASKS, _ => NIL), none, ints, none);
    assert QueuesOk(s.t, s.qs, s.loc);
  }

  lemma NearerFirst(t: Table, a: nat, b: nat)
    requires |t| == MAX_TASKS && a < MAX_TASKS && b < MAX_TASKS && t[b].state == Ready && b != SERVICE
    requires Distance(a, b) < Distance(a, SERVICE)
    requires forall y :: 0 <= y < MAX_TASKS && y != b && y != SERVICE ==> t[y].state != Ready
    ensures Chosen(t, a) == b && Scan(t, a, 1) == b
  {
    ScanNearer(t, a, 1, b);
  }

  /** `a` calls and is queued, since the service is not waiting yet. */
  lemma CallsFirst(s: Sys, a: nat, b: nat, typ: nat, payload: Payload) returns (s': Sys)
    requires Contest(s, a, b)
    ensures Inv(s') && Next(s, Call(typ, payload), s') && s'.got == s.got
    ensures Pair(s', b) && s'.cur == a && s'.t[b].state == Ready && s'.t[SERVICE].state == Ready
    ensures !s'.t[SERVICE].pending && s'.svc == Loop && s'.qs[SERVICE] == [a] && s'.pc[b] == Idle
  {
    InitInv(s);
    s' := DoCall(s, typ, payload);
    assert Next(s, Call(typ, payload), s');
    NextKeeps(s, Call(typ, payload), s');
    assert [a] + s.qs[SERVICE] == [a];
  }

  /** Then `b` gets its turn before the service does. */
  lemma TurnOfB(s: Sys, a: nat, b: nat) returns (s': Sys)
    requires Inv(s) && Pair(s, b) && s.cur == a && s.t[b].state == Ready && s.t[SERVICE].state == Ready
    requires !s.t[SERVICE].pending && s.svc == Loop && s.qs[SERVICE] == [a] && s.pc[b] == Idle
    requires s.t[a].state != Running && Distance(a, b) < Distance(a, SERVICE)
    ensures Inv(s') && Next(s, Reschedule, s') && Back(s', b, [a], Running, Idle) && s'.got == s.got
  {
    s' := DoReschedule(s);
    assert Next(s, Reschedule, s');
    NextKeeps(s, Reschedule, s');
    NearerFirst(s.t, a, b);
  }

  lemma Opening(s: Sys, a: nat, b: nat, typ: nat, payload: Payload)
    returns (s1: Sys, s2: Sys, path: seq<Sys>, steps: seq<Step>)
    requires Contest(s, a, b)
    ensures Next(s, Call(typ, payload), s1) && Trail(path, steps, s2, b, [a]) && path[0] == s1
    ensures Inv(s2) && Back(s2, b, [a], Running, Idle) && s2.got == s.got
  {
    s1 := CallsFirst(s, a, b, typ, payload);
    assert Trail([s1], [], s1, b, [a]);
    s2 := TurnOfB(s1, a, b);
    Longer([s1], [], s1, Reschedule, s2, b, [a]);
    path, steps := [s1] + [s2], [] + [Reschedule];
  }

  lemma StepFrom(s: Sys, step: Step, path: seq<Sys>, steps: seq<Step>, i: nat)
    requires IsPath(path, steps) && Next(s, step, path[0]) && i <= |steps|
    ensures Next(([s] + path)[i], ([step] + steps)[i], ([s] + path)[i + 1])
  {
    if i > 0 {
      var k := i - 1;
      assert Next(path[k], steps[k], path[k + 1]);
    }
  }

  lemma FromStart(s: Sys, step: Step, path: seq<Sys>, steps: seq<Step>)
    requires Init(s) && IsPath(path, steps) && Next(s, step, path[0])
    ensures IsRun([s] + path, [step] + steps)
  {
    forall i | 0 <= i < |steps| + 1
      ensures Next(([s] + path)[i], ([step] + steps)[i], ([s] + path)[i + 1])
    {
      StepFrom(s, step, path, steps, i);
    }
  }

  /** In the queue of the service from the second state on. */
  predicate IsQueued(s: Sys, a: nat) {
    |s.qs| == MAX_TASKS && a in s.qs[SERVICE]
  }

  ghost predicate WaitsOn(run: seq<Sys>, a: nat) {
    forall i :: 1 <= i < |run| ==> IsQueued(run[i], a)
  }

  lemma TrailWaits(s: Sys, path: seq<Sys>, steps: seq<Step>, s': Sys, a: nat, b: nat)
    requires Trail(path, steps, s', b, [a])
    ensures WaitsOn([s] + path, a)
  {
    forall i | 1 <= i < |path| + 1 ensures IsQueued(([s] + path)[i], a) {
      assert Behind(path[i - 1], b, [a]);
    }
  }

  lemma Game(s: Sys, a: nat, b: nat, n: nat, typ: nat, payload: Payload)
    returns (s': Sys, path: seq<Sys>, steps: seq<Step>)
    requires Contest(s, a, b)
    ensures Trail(path, steps, s', b, [a]) && Next(s, Call(typ, payload), path[0]) && Inv(s') && Replies(s, s', b, n)
  {
    var s1, s2, path2, steps2 := Opening(s, a, b, typ, payload);
    var s3, path3, steps3 := Calling(s2, b, [a], typ, payload, path2, steps2);
    s', path, steps := Rounds(s3, b, [a], n, path3, steps3);
  }

  /**
   For every `n` there is a run in which `a` calls first, and is still in the queue of the service and without a reply
   when `b`, which calls after it, has been served `n` times.
   */
  lemma Starved(s: Sys, a: nat, b: nat, n: nat) returns (run: seq<Sys>, steps: seq<Step>)
    requires Contest(s, a, b)
    ensures IsRun(run, steps) && run[0] == s
    ensures WaitsOn(run, a) && Sized(run[|steps|]) && run[|steps|].got[a] == [] && |run[|steps|].got[b]| == n
  {
    var typ, payload := MSG_PING, Zeros(MAX_PAYLOAD);
    var s', path, more := Game(s, a, b, n, typ, payload);
    FromStart(s, Call(typ, payload), path, more);
    TrailWaits(s, path, more, s', a, b);
    run, steps := [s] + path, [Call(typ, payload)] + more;
  }
}
