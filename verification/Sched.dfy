/** The round-robin scheduler: who runs next, that at most one task runs, and how long a ready
    task can be passed over. */
module Sched {
  import opened Words

  const TASKS: nat := 32   // TASK_MAX

  datatype State = Unused | Ready | Running | Blocked | Zombie

  /** A task as the scheduler sees it; `wake` is 0 or the time at which to wake it. */
  datatype Task = Task(state: State, idle: bool, wake: u32)

  /** How far slot i is after slot cur, going round: 1 to 32. */
  function Dist(cur: nat, i: nat): (d: nat)
    requires cur < TASKS && i < TASKS
    ensures 1 <= d <= TASKS && (cur + d) % TASKS == i
  {
    if i > cur then i - cur else i + TASKS - cur
  }

  predicate Wants(t: Task) { t.state == Ready && !t.idle }

  /** i is the ready task closest after cur that satisfies p. */
  ghost predicate Closest(ts: seq<Task>, cur: nat, i: nat, idle: bool)
    requires |ts| == TASKS && cur < TASKS && i < TASKS
  {
    && ts[i].state == Ready && ts[i].idle == idle
    && forall j :: 0 <= j < TASKS && ts[j].state == Ready && ts[j].idle == idle ==> Dist(cur, i) <= Dist(cur, j)
  }

  /** What sched_pick_next returns: the closest ready task that is not idle; an idle one only if
      no other is ready; none only if none is ready. */
  ghost predicate Picked(ts: seq<Task>, cur: nat, r: int)
    requires |ts| == TASKS && cur < TASKS
  {
    if exists j :: 0 <= j < TASKS && Wants(ts[j]) then 0 <= r < TASKS && Closest(ts, cur, r, false)
    else if exists j :: 0 <= j < TASKS && ts[j].state == Ready then 0 <= r < TASKS && Closest(ts, cur, r, true)
    else r == -1
  }

  lemma DistInjective(cur: nat, i: nat, j: nat)
    requires cur < TASKS && i < TASKS && j < TASKS && Dist(cur, i) == Dist(cur, j)
    ensures i == j
  {
  }

  lemma DistOf(cur: nat, n: nat)
    requires cur < TASKS && 1 <= n <= TASKS
    ensures Dist(cur, (cur + n) % TASKS) == n
  {
  }

  /** A pick that passes over a waiting task brings it closer. */
  lemma PickCloser(ts: seq<Task>, cur: nat, r: nat, t: nat)
    requires |ts| == TASKS && cur < TASKS && r < TASKS && t < TASKS && Picked(ts, cur, r) && Wants(ts[t]) && r != t
    ensures Dist(r, t) < Dist(cur, t)
  {
    assert Closest(ts, cur, r, false);
    if Dist(cur, r) == Dist(cur, t) { DistInjective(cur, r, t); }
  }

  // ----- runs -----

  /** A moment at which the scheduler picks. */
  datatype Pick = Pick(ts: seq<Task>, cur: nat)

  /** Picks one after the other: each starts from the task the one before chose.  What the tasks do
      in between is not restricted. */
  ghost predicate Run(ps: seq<Pick>, last: nat)
  {
    && last < TASKS && (forall k :: 0 <= k < |ps| ==> |ps[k].ts| == TASKS && ps[k].cur < TASKS)
    && forall k :: 0 <= k < |ps| ==> Picked(ps[k].ts, ps[k].cur, Chosen(ps, k, last))
  }

  ghost function Chosen(ps: seq<Pick>, k: nat, last: nat): nat
    requires k < |ps|
  {
    if k + 1 < |ps| then ps[k + 1].cur else last
  }

  /** Bounded bypass: a task that waits at every pick and is never chosen has seen fewer picks than
      its distance, so it is chosen within 32. */
  lemma {:induction false} BoundedBypass(ps: seq<Pick>, last: nat, t: nat)
    requires Run(ps, last) && |ps| > 0 && t < TASKS
    requires forall k :: 0 <= k < |ps| ==> Wants(ps[k].ts[t]) && Chosen(ps, k, last) != t
    ensures |ps| < Dist(ps[0].cur, t) <= TASKS
  {
    PickCloser(ps[0].ts, ps[0].cur, Chosen(ps, 0, last), t);
    if |ps| > 1 {
      var qs := ps[1..];
      forall k | 0 <= k < |qs|
        ensures qs[k] == ps[k + 1] && Chosen(qs, k, last) == Chosen(ps, k + 1, last)
      {
      }
      BoundedBypass(qs, last, t);
    }
  }

  // ----- the implementation -----

  /** At most one task runs, and it is the current one. */
  ghost predicate OneRunning(ts: seq<Task>, cur: nat)
  {
    forall i :: 0 <= i < |ts| && ts[i].state == Running ==> i == cur
  }

  /** (int32_t)(now - wake) >= 0 */
  predicate Due(now: u32, wake: u32)
  {
    (now as int - wake) % 0x1_0000_0000 < 0x8000_0000
  }

  function Woken(t: Task, now: u32): Task
  {
    if t.state == Blocked && t.wake != 0 && Due(now, t.wake) then t.(state := Ready, wake := 0) else t
  }

  ghost predicate AllWoken(ts: seq<Task>, now: u32, ts': seq<Task>)
  {
    |ts'| == |ts| && forall i :: 0 <= i < |ts| ==> ts'[i] == Woken(ts[i], now)
  }

  class Scheduler {
    const tasks: array<Task>   // g_tasks
    var cur: nat               // g_current

    ghost predicate Valid()
      reads this, tasks
    {
      tasks.Length == TASKS && cur < TASKS && OneRunning(tasks[..], cur)
    }

    /** sched_init: only the boot task, which runs. */
    constructor ()
      ensures Valid() && cur == 0 && tasks[0].state == Running && fresh(tasks)
      ensures forall i :: 0 < i < TASKS ==> tasks[i].state == Unused
    {
      tasks := new Task[TASKS](i => Task(if i == 0 then Running else Unused, false, 0));
      cur := 0;
    }

    /** sched_pick_next */
    method PickNext() returns (r: int)
      requires tasks.Length == TASKS && cur < TASKS
      ensures Picked(tasks[..], cur, r)
    {
      var idle := -1;
      for n := 1 to TASKS + 1
        invariant forall j :: 0 <= j < TASKS && Dist(cur, j) < n ==> !Wants(tasks[j])
        invariant idle == -1 ==> forall j :: 0 <= j < TASKS && Dist(cur, j) < n ==> tasks[j].state != Ready
        invariant idle != -1 ==> 0 <= idle < TASKS && Closest(tasks[..], cur, idle, true)
      {
        var i := (cur + n) % TASKS;
        DistOf(cur, n);
        forall j | 0 <= j < TASKS && Dist(cur, j) == n
          ensures j == i
        {
          DistInjective(cur, i, j);
        }
        if tasks[i].state != Ready { continue; }
        if tasks[i].idle {
          if idle == -1 { idle := i; }
          continue;
        }
        assert Wants(tasks[..][i]);
        return i;
      }
      assert idle != -1 ==> tasks[..][idle].state == Ready;
      return idle;
    }

    /** sched_wake_sleepers */
    method WakeSleepers(now: u32)
      requires Valid()
      modifies tasks
      ensures Valid() && AllWoken(old(tasks[..]), now, tasks[..])
    {
      for i := 0 to TASKS
        invariant forall j :: 0 <= j < i ==> tasks[j] == Woken(old(tasks[j]), now)
        invariant forall j :: i <= j < TASKS ==> tasks[j] == old(tasks[j])
      {
        var t := tasks[i];
        if t.state == Blocked && t.wake != 0 && Due(now, t.wake) { tasks[i] := t.(state := Ready, wake := 0); }
      }
    }

    method SetState(i: nat, s: State)
      requires tasks.Length == TASKS && i < TASKS
      modifies tasks
      ensures tasks[..] == old(tasks[..])[i := old(tasks[i]).(state := s)]
    {
      tasks[i] := tasks[i].(state := s);
    }

    /** What the rest of the kernel does to a task that is not the current one: spawn and fork make it
        ready, kill a zombie, reaping unused, the network wakes it. */
    method Change(i: nat, t: Task)
      requires Valid() && i < TASKS && i != cur && t.state != Running
      modifies tasks
      ensures Valid() && tasks[..] == old(tasks[..])[i := t]
    {
      tasks[i] := t;
    }

    // The states of sched_switch_to.
    method SwitchTo(next: nat)
      requires tasks.Length == TASKS && next < TASKS && forall i :: 0 <= i < TASKS ==> tasks[i].state != Running
      modifies this, tasks
      ensures Valid() && cur == next && tasks[..] == old(tasks[..])[next := old(tasks[next]).(state := Running)]
    {
      SetState(next, Running);
      cur := next;
    }

    /** sched_yield: the sleepers that are due wake, and the next task by turn runs; the current one
        goes on if no other is ready. */
    method Yield(now: u32) returns (ghost ts: seq<Task>, r: int)
      requires Valid()
      modifies this, tasks
      ensures Valid() && |ts| == TASKS && Picked(ts, old(cur), r)
      ensures forall i :: 0 <= i < TASKS ==>
                var t := Woken(old(tasks[i]), now);
                  ts[i] == if i == old(cur) && t.state == Running then t.(state := Ready) else t
      ensures if r >= 0 then cur == r && tasks[..] == ts[r := ts[r].(state := Running)]
              else cur == old(cur) && tasks[..] == ts
    {
      WakeSleepers(now);
      if tasks[cur].state == Running { SetState(cur, Ready); }
      ts := tasks[..];
      r := PickNext();
      if r < 0 || r == cur {
        if tasks[cur].state == Ready { SetState(cur, Running); }
        return;
      }
      SwitchTo(r);
    }

    /** task_block_timeout up to the next switch: another task runs, or this one wakes, or the
        machine stays halted when the clock ticks are used up. */
    method Block(now: u32, deadline: u32, ticks: seq<u32>) returns (ghost ts: seq<Task>, r: int)
      requires Valid() && tasks[cur].state == Running
      modifies this, tasks
      ensures Valid() && |ts| == TASKS
      ensures deadline != 0 && Due(now, deadline) ==> cur == old(cur) && tasks[..] == old(tasks[..])
      ensures !(deadline != 0 && Due(now, deadline)) && r >= 0 ==>
                Picked(ts, old(cur), r) && cur == r && tasks[..] == ts[cur := ts[cur].(state := Running)] &&
                  ts[old(cur)].state == Blocked
      ensures !(deadline != 0 && Due(now, deadline)) && r == -1 ==>
                cur == old(cur) && (tasks[cur].state == Running ||
                  (tasks[cur].state == Blocked && forall i :: 0 <= i < TASKS ==> tasks[i].state != Ready))
    {
      r, ts := -1, tasks[..];
      if deadline != 0 && Due(now, deadline) { return; }
      tasks[cur] := tasks[cur].(state := Blocked, wake := if deadline != 0 then deadline else 1);
      var k := 0;
      while tasks[cur].state == Blocked
        invariant Valid() && cur == old(cur) && k <= |ticks| && |ts| == TASKS && tasks[cur].state != Running
        invariant tasks[cur].state == Blocked || tasks[cur].state == Ready
        decreases |ticks| - k
      {
        ts := tasks[..];
        r := PickNext();
        if r >= 0 {
          SwitchTo(r);
          return;
        }
        NobodyReady(tasks[..], cur);
        if k == |ticks| { return; }
        WakeSleepers(ticks[k]);
        k := k + 1;
      }
      r := -1;
      SetState(cur, Running);
    }

    /** task_exit: the task is a zombie, and the next one runs; the boot task if nobody is ready. */
    method Exit() returns (ghost ts: seq<Task>, r: int)
      requires Valid()
      modifies this, tasks
      ensures Valid() && |ts| == TASKS && ts == old(tasks[..])[old(cur) := old(tasks[cur]).(state := Zombie)]
      ensures Picked(ts, old(cur), r)
      ensures cur == (if r >= 0 then r else 0) && tasks[..] == ts[cur := ts[cur].(state := Running)]
    {
      SetState(cur, Zombie);
      ts := tasks[..];
      r := PickNext();
      SwitchTo(if r >= 0 then r else 0);
    }
  }

  lemma NobodyReady(ts: seq<Task>, cur: nat)
    requires |ts| == TASKS && cur < TASKS && Picked(ts, cur, -1)
    ensures forall i :: 0 <= i < TASKS ==> ts[i].state != Ready
  {
  }
}
