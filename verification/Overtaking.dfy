/**
 The order in which the service takes queued clients. A sender goes to the head of the queue and the service takes
 the head, so the newest goes first: when a client is taken is decided by the receives and the sends behind it.
 */
module Overtaking {
  import opened Messages
  import opened Seqs
  import opened Tasks
  import opened Ipc
  import opened Rpc

  /** The step puts a client on the queue of the service, or takes one off it. */
  predicate Queues(s: Sys, step: Step)
    requires Sized(s)
  {
    step.Call? && s.t[SERVICE].state != Receiving
  }

  predicate Takes(s: Sys, step: Step)
    requires Sized(s)
  {
    step.ServiceReceive? && !s.t[SERVICE].pending && s.qs[SERVICE] != []
  }

  /**
   Every step leaves the queue alone, puts the caller at its head, or takes the head and sets to work on its request.
   */
  lemma QueueStep(s: Sys, step: Step, s': Sys)
    requires Inv(s) && Next(s, step, s')
    ensures Queues(s, step) ==> s'.qs[SERVICE] == [PcbOf(s, s.cur)] + s.qs[SERVICE]
    ensures Takes(s, step) ==> s'.qs[SERVICE] == s.qs[SERVICE][1..] && s.qs[SERVICE][0] < MAX_TASKS
    ensures Takes(s, step) ==>
      s'.svc == Working(s.t[s.qs[SERVICE][0]].buf) && s'.t[s.qs[SERVICE][0]].state == WaitingReply
    ensures !Queues(s, step) && !Takes(s, step) ==> s'.qs[SERVICE] == s.qs[SERVICE]
  {
    if step.Call? {
      SameCaller(s);
    }
    if Takes(s, step) {
      assert Cut(s.qs[SERVICE], 0, 1) == s.qs[SERVICE][1..];
    }
  }

  /** How far the step moves a queued client towards the head. */
  function Gain(s: Sys, step: Step): int
    requires Sized(s)
  {
    if Takes(s, step) then 1 else if Queues(s, step) then -1 else 0
  }

  lemma NotQueued(s: Sys, p: nat)
    requires Inv(s) && p < MAX_TASKS && s.t[p].state != Sending
    ensures p !in s.qs[SERVICE]
  {
    assert LocOk(s.t, s.qs, s.loc, p);
    assert QueueOk(s.t, SERVICE, s.qs[SERVICE], s.loc);
  }

  // Queues over time, apart from the system.

  /** `g` is 1 where the head is taken, -1 where a client is put before it, 0 where the queue stays as it is. */
  predicate Moves(q: seq<nat>, g: int, q': seq<nat>) {
    || (g == 1 && q != [] && q' == q[1..] && q[0] !in q')
    || (g == -1 && q' != [] && q == q'[1..])
    || (g == 0 && q == q')
  }

  ghost predicate History(qs: seq<seq<nat>>, gs: seq<int>) {
    |qs| == |gs| + 1 && forall i :: 0 <= i < |gs| ==> Moves(qs[i], gs[i], qs[i + 1])
  }

  /** By how much the clients taken exceed the clients queued, from state `i` to state `j`. */
  function Net(gs: seq<int>, i: nat, j: nat): int
    requires i <= j <= |gs|
  {
    if i == j then 0 else Net(gs, i, j - 1) + gs[j - 1]
  }

  ghost predicate NeverAbove(gs: seq<int>, i: nat, j: nat, d: nat)
    requires i <= j <= |gs|
  {
    forall k :: i <= k <= j ==> Net(gs, i, k) <= d
  }

  /** At place `d` behind the head. */
  predicate IsAt(q: seq<nat>, d: int, p: nat) {
    0 <= d < |q| && q[d] == p
  }

  /** While the excess is at most `d`, the client `d` places behind the head moves up and down with it. */
  lemma {:induction false} PlaceInQueue(qs: seq<seq<nat>>, gs: seq<int>, i: nat, j: nat, d: nat, p: nat)
    requires History(qs, gs) && i <= j <= |gs| && IsAt(qs[i], d, p) && NeverAbove(gs, i, j, d)
    ensures IsAt(qs[j], d - Net(gs, i, j), p)
    decreases j
  {
    assert Net(gs, i, j) <= d;
    if j > i {
      PlaceInQueue(qs, gs, i, j - 1, d, p);
      assert Moves(qs[j - 1], gs[j - 1], qs[j - 1 + 1]);
    }
  }

  /** When the excess first passes `d`, that client is the one taken. */
  lemma TakenThen(qs: seq<seq<nat>>, gs: seq<int>, i: nat, j: nat, d: nat, p: nat)
    requires History(qs, gs) && i <= j < |gs| && IsAt(qs[i], d, p)
    requires NeverAbove(gs, i, j, d) && Net(gs, i, j + 1) > d
    ensures gs[j] == 1 && IsAt(qs[j], 0, p) && p !in qs[j + 1]
  {
    assert Net(gs, i, j) <= d;
    PlaceInQueue(qs, gs, i, j, d, p);
    assert Moves(qs[j], gs[j], qs[j + 1]);
  }

  ghost predicate StaysIn(qs: seq<seq<nat>>, i: nat, j: nat, p: nat)
    requires i <= j < |qs|
  {
    forall k :: i <= k <= j ==> p in qs[k]
  }

  lemma {:induction false} StaysExactly(qs: seq<seq<nat>>, gs: seq<int>, i: nat, j: nat, d: nat, p: nat)
    requires History(qs, gs) && i <= j <= |gs| && IsAt(qs[i], d, p)
    ensures StaysIn(qs, i, j, p) <==> NeverAbove(gs, i, j, d)
    decreases j
  {
    if j > i {
      StaysExactly(qs, gs, i, j - 1, d, p);
      if NeverAbove(gs, i, j - 1, d) {
        if Net(gs, i, j) <= d {
          assert NeverAbove(gs, i, j, d);
          PlaceInQueue(qs, gs, i, j, d, p);
        } else {
          TakenThen(qs, gs, i, j - 1, d, p);
        }
      }
    }
  }

  // Runs.

  ghost predicate AllSized(run: seq<Sys>) {
    forall i :: 0 <= i < |run| ==> Sized(run[i])
  }

  /** The queue of the service in each state of a run, and what each step does to it. */
  ghost function Lines(run: seq<Sys>): (qs: seq<seq<nat>>)
    requires AllSized(run)
    ensures |qs| == |run| && forall i :: 0 <= i < |run| ==> qs[i] == run[i].qs[SERVICE]
  {
    seq(|run|, i requires 0 <= i < |run| => run[i].qs[SERVICE])
  }

  ghost function Gains(run: seq<Sys>, steps: seq<Step>): (gs: seq<int>)
    requires AllSized(run) && |steps| < |run|
    ensures |gs| == |steps| && forall i :: 0 <= i < |steps| ==> gs[i] == Gain(run[i], steps[i])
  {
    seq(|steps|, i requires 0 <= i < |steps| => Gain(run[i], steps[i]))
  }

  lemma StepMoves(s: Sys, step: Step, s': Sys)
    requires Inv(s) && Next(s, step, s')
    ensures Sized(s') && Moves(s.qs[SERVICE], Gain(s, step), s'.qs[SERVICE])
  {
    NextKeeps(s, step, s');
    QueueStep(s, step, s');
    if Takes(s, step) {
      NotQueued(s', s.qs[SERVICE][0]);
    }
  }

  lemma RunSized(run: seq<Sys>, steps: seq<Step>)
    requires IsRun(run, steps)
    ensures AllSized(run)
  {
    forall i | 0 <= i < |run| ensures Sized(run[i]) {
      RunKeeps(run, steps, i);
    }
  }

  lemma RunHistory(run: seq<Sys>, steps: seq<Step>)
    requires IsRun(run, steps) && AllSized(run)
    ensures History(Lines(run), Gains(run, steps))
  {
    forall i | 0 <= i < |steps| ensures Moves(Lines(run)[i], Gains(run, steps)[i], Lines(run)[i + 1]) {
      RunKeeps(run, steps, i);
      assert Next(run[i], steps[i], run[i + 1]);
      StepMoves(run[i], steps[i], run[i + 1]);
    }
  }

  /**
   In every run, a client at place `d` of the queue waits on in it exactly as long as the service has not taken more
   than `d` clients beyond those that queued up since.
   */
  lemma WaitsExactly(run: seq<Sys>, steps: seq<Step>, i: nat, j: nat, d: nat, p: nat)
    requires IsRun(run, steps) && AllSized(run) && i <= j < |run| && IsAt(Lines(run)[i], d, p)
    ensures StaysIn(Lines(run), i, j, p) <==> NeverAbove(Gains(run, steps), i, j, d)
  {
    RunHistory(run, steps);
    StaysExactly(Lines(run), Gains(run, steps), i, j, d, p);
  }

  /** With the step that takes it beyond that, the service has the request of this very client in hand. */
  lemma TurnComes(run: seq<Sys>, steps: seq<Step>, i: nat, j: nat, d: nat, p: nat)
    requires IsRun(run, steps) && AllSized(run) && i <= j < |steps| && IsAt(Lines(run)[i], d, p)
    requires NeverAbove(Gains(run, steps), i, j, d) && Net(Gains(run, steps), i, j + 1) > d
    ensures p < MAX_TASKS && run[j + 1].svc == Working(run[j].t[p].buf)
  {
    RunHistory(run, steps);
    TakenThen(Lines(run), Gains(run, steps), i, j, d, p);
    WorksOn(run, steps, j, p);
  }

  lemma WorksOn(run: seq<Sys>, steps: seq<Step>, j: nat, p: nat)
    requires IsRun(run, steps) && AllSized(run) && j < |steps|
    requires Gains(run, steps)[j] == 1 && IsAt(Lines(run)[j], 0, p)
    ensures p < MAX_TASKS && run[j + 1].svc == Working(run[j].t[p].buf)
  {
    RunKeeps(run, steps, j);
    assert Next(run[j], steps[j], run[j + 1]);
    QueueStep(run[j], steps[j], run[j + 1]);
  }
}
