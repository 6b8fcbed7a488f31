/** The task table and the round-robin choice of `process.c`. */
module Tasks {
  import opened Messages

  const MAX_TASKS := 16

  /** A null pointer to a task; other pointers are the index of the task. */
  const NIL := -1

  datatype State = Free | Ready | Running | Blocked | Sending | Receiving | Sleeping | Exited | WaitingReply | UserSlot

  datatype Proc = Proc(pid: nat, state: State, buf: Msg, pending: bool, next: int, queue: int)

  type Table = seq<Proc>

  /** Tasks in use carry their index as pid. */
  predicate TableOk(t: Table) {
    |t| == MAX_TASKS && forall i :: 0 <= i < MAX_TASKS && t[i].state != Free ==> t[i].pid == i
  }

  /** The search of `schedule`, from the task `k` places behind the current one, until it comes round. */
  function Scan(t: Table, cur: nat, k: nat): (n: nat)
    requires |t| == MAX_TASKS && cur < MAX_TASKS && 1 <= k <= MAX_TASKS
    ensures n < MAX_TASKS
    decreases MAX_TASKS - k
  {
    var i := (cur + k) % MAX_TASKS;
    if k == MAX_TASKS || t[i].state == Ready then i else Scan(t, cur, k + 1)
  }

  /** The task that runs after `schedule`. */
  function Chosen(t: Table, cur: nat): (n: nat)
    requires |t| == MAX_TASKS && cur < MAX_TASKS
    ensures n < MAX_TASKS
  {
    var n := Scan(t, cur, 1);
    if t[n].state == Ready then n else cur
  }

  /** The table after `schedule`. */
  function Switched(t: Table, cur: nat): Table
    requires |t| == MAX_TASKS && cur < MAX_TASKS
  {
    var n := Scan(t, cur, 1);
    if t[n].state != Ready then t
    else
      var t1 := if t[cur].state == Running then t[cur := t[cur].(state := Ready)] else t;
      t1[n := t1[n].(state := Running)]
  }

  /** At most one task is running, and it is the current one. */
  predicate OneRunning(t: Table, cur: nat) {
    forall i :: 0 <= i < |t| && t[i].state == Running ==> i == cur
  }

  lemma SwitchKeepsOneRunning(t: Table, cur: nat)
    requires |t| == MAX_TASKS && cur < MAX_TASKS && OneRunning(t, cur)
    ensures OneRunning(Switched(t, cur), Chosen(t, cur))
  {
  }

  /** What the rest of the kernel does between two calls of `schedule`: it never sets a task running. */
  predicate NoneStarted(t: Table, t': Table) {
    |t| == |t'| && forall i :: 0 <= i < |t| && t'[i].state == Running ==> t[i].state == Running
  }

  /** In every run at most one task is running, and it is the current one. */
  lemma {:induction false} AlwaysOneRunning(before: seq<Table>, after: seq<Table>, cs: seq<nat>)
    requires |before| + 1 == |after| == |cs| && OneRunning(after[0], cs[0])
    requires forall i :: 0 <= i < |before| ==>
      |before[i]| == MAX_TASKS && cs[i] < MAX_TASKS && NoneStarted(after[i], before[i])
    requires forall i :: 0 <= i < |before| ==>
      after[i + 1] == Switched(before[i], cs[i]) && cs[i + 1] == Chosen(before[i], cs[i])
    ensures forall i :: 0 <= i < |after| ==> OneRunning(after[i], cs[i])
    ensures forall i :: 0 <= i < |before| ==> OneRunning(before[i], cs[i])
  {
    if before != [] {
      SwitchKeepsOneRunning(before[0], cs[0]);
      AlwaysOneRunning(before[1..], after[1..], cs[1..]);
      forall i | 0 <= i < |after| ensures OneRunning(after[i], cs[i]) {
        if i > 0 {
          assert OneRunning(after[1..][i - 1], cs[1..][i - 1]);
        }
      }
    }
  }

  /** How many places task `x` is behind the current one; a full round if it is the current one. */
  function Distance(cur: nat, x: nat): (d: nat)
    requires cur < MAX_TASKS && x < MAX_TASKS
    ensures 1 <= d <= MAX_TASKS && (cur + d) % MAX_TASKS == x
  {
    if x > cur then x - cur else x + MAX_TASKS - cur
  }

  /** The search stops at task `x`, or before it and nearer to it. */
  lemma {:induction false} ScanNearer(t: Table, cur: nat, k: nat, x: nat)
    requires |t| == MAX_TASKS && cur < MAX_TASKS && x < MAX_TASKS && t[x].state == Ready && 1 <= k <= Distance(cur, x)
    ensures var n := Scan(t, cur, k); t[n].state == Ready && (n == x || Distance(n, x) < Distance(cur, x))
    decreases MAX_TASKS - k
  {
    var i := (cur + k) % MAX_TASKS;
    if k < MAX_TASKS && t[i].state != Ready {
      ScanNearer(t, cur, k + 1, x);
    }
  }

  /** No ready task is nearer than the one at which the search stops. */
  lemma {:induction false} ScanFirst(t: Table, cur: nat, k: nat, x: nat)
    requires |t| == MAX_TASKS && cur < MAX_TASKS && x < MAX_TASKS && t[x].state == Ready && 1 <= k <= Distance(cur, x)
    ensures var n := Scan(t, cur, k); t[n].state == Ready && Distance(cur, n) <= Distance(cur, x)
    decreases MAX_TASKS - k
  {
    var i := (cur + k) % MAX_TASKS;
    if k < MAX_TASKS && t[i].state != Ready {
      ScanFirst(t, cur, k + 1, x);
    }
  }

  /** A task stays ready until it is chosen. */
  predicate Waits(ts: seq<Table>, cs: seq<nat>, x: nat) {
    x < MAX_TASKS && |cs| == |ts| + 1 && forall i :: 0 <= i < |ts| ==>
      && |ts[i]| == MAX_TASKS && cs[i] < MAX_TASKS && cs[i + 1] == Chosen(ts[i], cs[i])
      && (x !in cs[1..i + 1] ==> ts[i][x].state == Ready)
  }

  /**
   Whatever the other tasks do meanwhile, a task that stays ready is chosen within as many calls of
   `schedule` as it is places behind the current one, so within a round.
   */
  lemma {:induction false} ChosenSoon(ts: seq<Table>, cs: seq<nat>, x: nat)
    requires Waits(ts, cs, x) && cs[0] < MAX_TASKS && x < MAX_TASKS && |ts| >= Distance(cs[0], x)
    ensures exists j :: 1 <= j <= Distance(cs[0], x) && cs[j] == x
    decreases Distance(cs[0], x)
  {
    var t, c := ts[0], cs[0];
    assert cs[1..1] == [];
    ScanNearer(t, c, 1, x);
    if cs[1] != x {
      var ts': seq<Table>, cs': seq<nat> := ts[1..], cs[1..];
      forall i | 0 <= i < |ts'| && x !in cs'[1..i + 1] ensures ts'[i][x].state == Ready {
        assert cs[1..i + 2] == [cs[1]] + cs'[1..i + 1];
      }
      assert Waits(ts', cs', x);
      ChosenSoon(ts', cs', x);
      var j :| 1 <= j <= Distance(cs'[0], x) && cs'[j] == x;
      assert cs[j + 1] == x;
    }
  }

  lemma NextPlace(cur: nat, k: nat, next: nat)
    requires cur < MAX_TASKS && 1 <= k <= MAX_TASKS && next == (cur + k) % MAX_TASKS && next != cur
    ensures k < MAX_TASKS && (next + 1) % MAX_TASKS == (cur + k + 1) % MAX_TASKS
  {
  }

  /** The loop of `schedule`. */
  method FindNext(t: Table, cur: nat) returns (next: nat)
    requires |t| == MAX_TASKS && cur < MAX_TASKS
    ensures next == Scan(t, cur, 1)
  {
    next := (cur + 1) % MAX_TASKS;
    ghost var k := 1;
    while t[next].state != Ready && next != cur
      invariant 1 <= k <= MAX_TASKS && next == (cur + k) % MAX_TASKS && Scan(t, cur, 1) == Scan(t, cur, k)
      decreases MAX_TASKS - k
    {
      NextPlace(cur, k, next);
      next := (next + 1) % MAX_TASKS;
      k := k + 1;
    }
  }

  /** `schedule` */
  method Schedule(t: Table, cur: nat) returns (t': Table, cur': nat)
    requires |t| == MAX_TASKS && cur < MAX_TASKS
    ensures t' == Switched(t, cur) && cur' == Chosen(t, cur)
    ensures (forall i :: 0 <= i < MAX_TASKS ==> t[i].state != Ready) ==> t' == t && cur' == cur
    ensures (exists i :: 0 <= i < MAX_TASKS && t[i].state == Ready) ==>
      && t[cur'].state == Ready && t'[cur'] == t[cur'].(state := Running)
      && (forall i :: 0 <= i < MAX_TASKS && t[i].state == Ready ==> Distance(cur, cur') <= Distance(cur, i))
    ensures cur' != cur ==> t'[cur] == if t[cur].state == Running then t[cur].(state := Ready) else t[cur]
    ensures forall i :: 0 <= i < MAX_TASKS && i != cur && i != cur' ==> t'[i] == t[i]
  {
    forall i | 0 <= i < MAX_TASKS && t[i].state == Ready
      ensures t[Scan(t, cur, 1)].state == Ready && Distance(cur, Scan(t, cur, 1)) <= Distance(cur, i)
    {
      ScanFirst(t, cur, 1, i);
    }
    t', cur' := t, cur;
    var next := FindNext(t, cur);
    if t[next].state == Ready {
      if t[cur].state == Running {
        t' := t'[cur := t'[cur].(state := Ready)];
      }
      t' := t'[next := t'[next].(state := Running)];
      cur' := next;
    }
  }
}
