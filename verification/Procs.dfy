/** Processes and what they hold references to: stack slots and pipe ends. */
module Procs {
  import opened Words
  import opened Pipe

  const TASKS: nat := 32   // TASK_MAX
  const FDS: nat := 16     // TASK_FD_MAX
  const SLOTS: nat := 16   // USER_STACK_SLOT_COUNT
  const PIPES: nat := 8    // KPIPE_MAX

  /** A descriptor; sockets and files are not told apart. */
  datatype Fd = NoFd | PipeFd(h: nat, writeEnd: bool) | PtyFd | OtherFd

  datatype State = Unused | Alive | Zombie

  datatype Proc = Proc(state: State, id: nat, parent: int, user: bool, idle: bool, slot: int, fds: seq<Fd>)

  // ----- counting -----

  ghost function Holders(ts: seq<Proc>, s: int): nat
  {
    if |ts| == 0 then 0 else Bit(ts[0].slot == s) + Holders(ts[1..], s)
  }

  ghost function FdCount(fds: seq<Fd>, f: Fd): nat
  {
    if |fds| == 0 then 0 else Bit(fds[0] == f) + FdCount(fds[1..], f)
  }

  ghost function FdsOn(ts: seq<Proc>, f: Fd): nat
  {
    if |ts| == 0 then 0 else FdCount(ts[0].fds, f) + FdsOn(ts[1..], f)
  }

  lemma {:induction false} HoldersUpdate(ts: seq<Proc>, i: nat, x: Proc, s: int)
    requires i < |ts|
    ensures Holders(ts[i := x], s) == Holders(ts, s) - Bit(ts[i].slot == s) + Bit(x.slot == s)
    ensures Holders(ts, s) >= Bit(ts[i].slot == s)
  {
    if i == 0 {
      assert ts[0 := x][1..] == ts[1..];
    } else {
      assert ts[i := x][1..] == ts[1..][i - 1 := x];
      HoldersUpdate(ts[1..], i - 1, x, s);
    }
  }

  lemma {:induction false} FdsUpdate(ts: seq<Proc>, i: nat, x: Proc, f: Fd)
    requires i < |ts|
    ensures FdsOn(ts[i := x], f) == FdsOn(ts, f) - FdCount(ts[i].fds, f) + FdCount(x.fds, f)
    ensures FdsOn(ts, f) >= FdCount(ts[i].fds, f)
  {
    if i == 0 {
      assert ts[0 := x][1..] == ts[1..];
    } else {
      assert ts[i := x][1..] == ts[1..][i - 1 := x];
      FdsUpdate(ts[1..], i - 1, x, f);
    }
  }

  lemma {:induction false} FdCountUpdate(fds: seq<Fd>, j: nat, g: Fd, f: Fd)
    requires j < |fds|
    ensures FdCount(fds[j := g], f) == FdCount(fds, f) - Bit(fds[j] == f) + Bit(g == f)
    ensures FdCount(fds, f) >= Bit(fds[j] == f)
  {
    if j == 0 {
      assert fds[0 := g][1..] == fds[1..];
    } else {
      assert fds[j := g][1..] == fds[1..][j - 1 := g];
      FdCountUpdate(fds[1..], j - 1, g, f);
    }
  }

  /** How many descriptors are free. */
  ghost function Free(fds: seq<Fd>): nat
  {
    FdCount(fds, NoFd)
  }

  lemma {:induction false} NoneFree(fds: seq<Fd>)
    requires forall k :: 0 <= k < |fds| ==> fds[k] != NoFd
    ensures Free(fds) == 0
  {
    if |fds| != 0 { NoneFree(fds[1..]); }
  }

  lemma {:induction false} NoFds(fds: seq<Fd>, f: Fd)
    requires f != NoFd && forall j :: 0 <= j < |fds| ==> fds[j] == NoFd
    ensures FdCount(fds, f) == 0
  {
    if |fds| != 0 { NoFds(fds[1..], f); }
  }

  // ----- the invariant -----

  /** A slot's count is the number of tasks that hold it, plus one if it was just allocated. */
  ghost predicate SlotsOk(ts: seq<Proc>, refs: seq<nat>, pend: int)
  {
    |refs| == SLOTS && forall s :: 0 <= s < SLOTS ==> refs[s] == Holders(ts, s) + Bit(s == pend)
  }

  function EndCount(e: Ends, writeEnd: bool): nat { if writeEnd then e.writers else e.readers }

  /** A pipe counts on each end exactly the descriptors there, and the references in pend that
      have none; a free pipe counts nothing. */
  ghost predicate PipesOk(ts: seq<Proc>, pipes: seq<Ends>, pend: multiset<Fd>)
  {
    && |pipes| == PIPES
    && forall h, w :: 0 <= h < PIPES ==>
         && EndCount(pipes[h], w) == FdsOn(ts, PipeFd(h, w)) + pend[PipeFd(h, w)]
         && (!pipes[h].used ==> EndCount(pipes[h], w) == 0)
  }

  ghost predicate ProcOk(t: Proc)
  {
    && |t.fds| == FDS && -1 <= t.slot < SLOTS
    && (t.state != Alive || !t.user ==> t.slot == -1) && (t.id == 0 ==> !t.user)
    && (forall j :: 0 <= j < FDS && t.fds[j].PipeFd? ==> t.fds[j].h < PIPES)
    && (t.state == Unused ==> t.fds == NoFdsAtAll())
  }

  function NoFdsAtAll(): (fds: seq<Fd>)
    ensures |fds| == FDS
  {
    seq(FDS, _ => NoFd)
  }

  ghost predicate ProcsOk(ts: seq<Proc>)
  {
    && |ts| == TASKS && (forall i :: 0 <= i < TASKS ==> ProcOk(ts[i]))
    && forall i, j :: 0 <= i < j < TASKS && ts[i].state != Unused && ts[j].state != Unused ==> ts[i].id != ts[j].id
  }

  // ----- what each change keeps -----

  lemma SlotsChange(ts: seq<Proc>, refs: seq<nat>, pend: int, i: nat, x: Proc, refs': seq<nat>, pend': int)
    requires SlotsOk(ts, refs, pend) && i < |ts| && |refs'| == SLOTS
    requires forall s :: 0 <= s < SLOTS ==>
              refs'[s] + Bit(ts[i].slot == s) + Bit(s == pend) == refs[s] + Bit(x.slot == s) + Bit(s == pend')
    ensures SlotsOk(ts[i := x], refs', pend')
  {
    forall s | 0 <= s < SLOTS
      ensures refs'[s] == Holders(ts[i := x], s) + Bit(s == pend')
    {
      HoldersUpdate(ts, i, x, s);
    }
  }

  // A task's descriptors change; what it gains was held before.
  lemma PipesChange(ts: seq<Proc>, pipes: seq<Ends>, pend: multiset<Fd>, i: nat, x: Proc, pend': multiset<Fd>)
    requires PipesOk(ts, pipes, pend) && i < |ts|
    requires forall h, w :: 0 <= h < PIPES ==>
               FdCount(x.fds, PipeFd(h, w)) + pend'[PipeFd(h, w)] ==
                 FdCount(ts[i].fds, PipeFd(h, w)) + pend[PipeFd(h, w)]
    ensures PipesOk(ts[i := x], pipes, pend')
  {
    forall h, w | 0 <= h < PIPES
      ensures FdsOn(ts[i := x], PipeFd(h, w)) + pend'[PipeFd(h, w)] == FdsOn(ts, PipeFd(h, w)) + pend[PipeFd(h, w)]
    {
      FdsUpdate(ts, i, x, PipeFd(h, w));
    }
  }

  // A reference is taken for a descriptor that is about to be made.
  lemma RefKeeps(ts: seq<Proc>, pipes: seq<Ends>, pend: multiset<Fd>, h: nat, w: bool, pend': multiset<Fd>)
    requires PipesOk(ts, pipes, pend) && h < PIPES && FdsOn(ts, PipeFd(h, w)) > 0
    requires pend' == pend + multiset{PipeFd(h, w)}
    ensures PipesOk(ts, pipes[h := RefEnd(pipes[h], w)], pend')
  {
    assert EndCount(pipes[h], w) > 0;
  }

  // A reference whose descriptor is gone is given back.
  lemma CloseKeeps(ts: seq<Proc>, pipes: seq<Ends>, pend: multiset<Fd>, h: nat, w: bool, pend': multiset<Fd>)
    requires PipesOk(ts, pipes, pend) && h < PIPES && pend == pend' + multiset{PipeFd(h, w)}
    ensures PipesOk(ts, pipes[h := CloseEnd(pipes[h], w)], pend')
  {
    assert EndCount(pipes[h], w) == FdsOn(ts, PipeFd(h, w)) + pend[PipeFd(h, w)];
    assert EndCount(pipes[h], !w) == FdsOn(ts, PipeFd(h, !w)) + pend[PipeFd(h, !w)];
  }

  // A pipe slot that is not in use may be set up anew: no descriptor names it.
  lemma CreateKeeps(ts: seq<Proc>, pipes: seq<Ends>, pend: multiset<Fd>, h: nat, pend': multiset<Fd>)
    requires PipesOk(ts, pipes, pend) && h < PIPES && !pipes[h].used
    requires pend' == multiset{PipeFd(h, false), PipeFd(h, true)} + pend
    ensures FdsOn(ts, PipeFd(h, false)) == 0 == FdsOn(ts, PipeFd(h, true))
    ensures PipesOk(ts, pipes[h := Ends(true, 1, 1)], pend')
  {
    assert forall w :: EndCount(pipes[h], w) == 0;
  }

  lemma SamePend(ts: seq<Proc>, pipes: seq<Ends>, pend: multiset<Fd>, pend': multiset<Fd>)
    requires PipesOk(ts, pipes, pend) && forall h, w :: pend'[PipeFd(h, w)] == pend[PipeFd(h, w)]
    ensures PipesOk(ts, pipes, pend')
  {
  }

  lemma {:induction false} FdCountIs(fds: seq<Fd>, f: Fd)
    ensures FdCount(fds, f) == multiset(fds)[f]
  {
    if |fds| != 0 {
      assert fds == [fds[0]] + fds[1..];
      FdCountIs(fds[1..], f);
    }
  }

  /** The pipes after the close of a descriptor. */
  function Closed(pipes: seq<Ends>, f: Fd): seq<Ends>
  {
    if f.PipeFd? && f.h < |pipes| then pipes[f.h := CloseEnd(pipes[f.h], f.writeEnd)] else pipes
  }

  /** The current task got descriptor fd for f, the first that was free, if any was. */
  ghost predicate GotFd(ts: seq<Proc>, us: seq<Proc>, cur: nat, f: Fd, fd: int)
  {
    && cur < |ts| && |ts[cur].fds| == FDS && -1 <= fd < FDS && (fd >= 0 <==> Free(ts[cur].fds) > 0)
    && (forall k :: 0 <= k < (if fd >= 0 then fd else FDS) ==> ts[cur].fds[k] != NoFd)
    && if fd < 0 then us == ts else ts[cur].fds[fd] == NoFd && us == ts[cur := ts[cur].(fds := ts[cur].fds[fd := f])]
  }

  lemma GotTwo(ts: seq<Proc>, us: seq<Proc>, vs: seq<Proc>, cur: nat, h: nat, r: int, w: int)
    requires GotFd(ts, us, cur, PipeFd(h, false), r) && GotFd(us, vs, cur, PipeFd(h, true), w)
    ensures GotPipe(ts, vs, cur, h, r, w)
  {
    if r >= 0 {
      FdCountUpdate(ts[cur].fds, r, PipeFd(h, false), NoFd);
      assert us[cur].fds == ts[cur].fds[r := PipeFd(h, false)];
      assert w >= 0 ==> w > r;
    }
  }

  /** Of the two ends of pipe h the current task got descriptors r and w; it gets each exactly if a
      descriptor is free when its turn comes. */
  ghost predicate GotPipe(ts: seq<Proc>, us: seq<Proc>, cur: nat, h: nat, r: int, w: int)
  {
    && cur < |ts| && |ts[cur].fds| == FDS && -1 <= r < FDS && -1 <= w < FDS
    && (r >= 0 <==> Free(ts[cur].fds) >= 1) && (w >= 0 <==> Free(ts[cur].fds) >= 2)
    && var fds := ts[cur].fds;
       && (r >= 0 ==> fds[r] == NoFd) && (w >= 0 ==> r < w && fds[w] == NoFd)
       && us == ts[cur := ts[cur].(fds := if r < 0 then fds else if w < 0 then fds[r := PipeFd(h, false)]
                                         else fds[r := PipeFd(h, false)][w := PipeFd(h, true)])]
  }

  /** The references of a pipe that no descriptor stands for. */
  ghost function Lost(h: nat, r: int, w: int): multiset<Fd>
  {
    (if r < 0 then multiset{PipeFd(h, false)} else multiset{}) +
      (if w < 0 then multiset{PipeFd(h, true)} else multiset{})
  }

  lemma LostIs(l0: multiset<Fd>, l1: multiset<Fd>, l2: multiset<Fd>, h: nat, r: int, w: int)
    requires l1 == if r >= 0 then l0 else l0 + multiset{PipeFd(h, false)}
    requires l2 == if w >= 0 then l1 else l1 + multiset{PipeFd(h, true)}
    ensures l2 == l0 + Lost(h, r, w)
  {
  }

  /** What is lost with task i, if a task is cleared: the descriptors of task 0, and of no other. */
  ghost predicate LostTo(ts: seq<Proc>, l0: multiset<Fd>, l1: multiset<Fd>, i: int)
  {
    forall h, w :: l1[PipeFd(h, w)] ==
      l0[PipeFd(h, w)] + if 0 <= i < |ts| && ts[i].id == 0 then multiset(ts[i].fds)[PipeFd(h, w)] else 0
  }

  /** No reference that was lost is found again. */
  ghost predicate StillLost(l0: multiset<Fd>, l1: multiset<Fd>)
  {
    forall h, w :: l1[PipeFd(h, w)] >= l0[PipeFd(h, w)]
  }

  /** Some task is unused or a zombie. */
  ghost predicate SomeDead(ts: seq<Proc>)
  {
    exists j :: 0 <= j < |ts| && ts[j].state != Alive
  }

  /** Some slot is held by no task. */
  ghost predicate FreeSlot(ts: seq<Proc>)
  {
    exists s :: 0 <= s < SLOTS && Holders(ts, s) == 0
  }

  lemma SameHolders(ts: seq<Proc>, i: nat, x: Proc)
    requires i < |ts| && x.slot == ts[i].slot
    ensures forall s :: Holders(ts[i := x], s) == Holders(ts, s)
    ensures FreeSlot(ts[i := x]) <==> FreeSlot(ts)
  {
    forall s
      ensures Holders(ts[i := x], s) == Holders(ts, s)
    {
      HoldersUpdate(ts, i, x, s);
    }
    if FreeSlot(ts) {
      var s :| 0 <= s < SLOTS && Holders(ts, s) == 0;
      assert Holders(ts[i := x], s) == 0;
    }
    if FreeSlot(ts[i := x]) {
      var s :| 0 <= s < SLOTS && Holders(ts[i := x], s) == 0;
      assert Holders(ts, s) == 0;
    }
  }

  // A pipe with a lost reference stays in use.
  lemma LostStaysUsed(ts: seq<Proc>, pipes: seq<Ends>, lost: multiset<Fd>, h: nat, w: bool)
    requires PipesOk(ts, pipes, lost) && h < PIPES && lost[PipeFd(h, w)] > 0
    ensures pipes[h].used
  {
    assert EndCount(pipes[h], w) > 0;
  }

  predicate CanDup(fds: seq<Fd>, oldfd: int, newfd: int)
    requires |fds| == FDS
  {
    0 <= oldfd < FDS && 0 <= newfd < FDS && (oldfd == newfd || fds[oldfd].PipeFd? || fds[oldfd].PtyFd?)
  }

  class Kernel {
    const tasks: array<Proc>     // g_tasks
    const refs: array<nat>       // g_stack_slot_ref
    const pipes: array<Ends>     // g_pipes
    var nextSlot: nat            // g_user_stack_next
    var nextId: nat              // g_next_id
    var cur: nat                 // g_current
    ghost var lost: multiset<Fd> // references that no descriptor stands for any more

    /** The references are right, with a slot and pipe ends the operation under way holds. */
    ghost predicate Held(slot: int, pend: multiset<Fd>)
      reads this, tasks, refs, pipes
    {
      && tasks.Length == TASKS && refs.Length == SLOTS && pipes.Length == PIPES && nextSlot < SLOTS && cur < TASKS
      && ProcsOk(tasks[..]) && SlotsOk(tasks[..], refs[..], slot) && PipesOk(tasks[..], pipes[..], pend + lost)
      && forall i :: 0 <= i < TASKS && tasks[i].state != Unused ==> tasks[i].parent < tasks[i].id < nextId
    }

    ghost predicate Valid()
      reads this, tasks, refs, pipes
    {
      Held(-1, multiset{})
    }

    /** sched_init: the boot task, with no slot and no descriptor. */
    constructor ()
      ensures Valid() && fresh(tasks) && fresh(refs) && fresh(pipes) && lost == multiset{} && cur == 0
      ensures tasks[0].state == Alive
      ensures (forall h :: 0 <= h < PIPES ==> !pipes[h].used) && tasks[0].fds == NoFdsAtAll()
    {
      tasks := new Proc[TASKS](i => Proc(if i == 0 then Alive else Unused, 0, -1, false, false, -1, NoFdsAtAll()));
      refs := new nat[SLOTS](_ => 0);
      pipes := new Ends[PIPES](_ => Ends(false, 0, 0));
      nextSlot, nextId, cur, lost := 0, 1, 0, multiset{};
      new;
      forall s | 0 <= s < SLOTS
        ensures Holders(tasks[..], s) == 0
      {
        NoHolders(tasks[..], s);
      }
      forall h: nat, w
        ensures FdsOn(tasks[..], PipeFd(h, w)) == 0
      {
        NoPipeFds(tasks[..], PipeFd(h, w));
      }
    }

    method SetTask(i: nat, x: Proc)
      requires tasks.Length == TASKS && i < TASKS
      modifies tasks
      ensures tasks[..] == old(tasks[..])[i := x]
    {
      tasks[i] := x;
    }

    // ----- stack slots -----

    /** user_stack_slot_alloc: a slot no task holds, if there is one. */
    method SlotAlloc() returns (r: int)
      requires Valid()
      modifies this`nextSlot, refs
      ensures -1 <= r < SLOTS && Held(r, multiset{})
      ensures r >= 0 ==> Holders(tasks[..], r) == 0
      ensures r == -1 ==> refs[..] == old(refs[..]) && forall s :: 0 <= s < SLOTS ==> Holders(tasks[..], s) > 0
    {
      for i := 0 to SLOTS
        invariant forall j :: 0 <= j < i ==> refs[Slot(nextSlot, j)] > 0
      {
        var idx := (nextSlot + i) % SLOTS;
        if refs[idx] == 0 {
          assert refs[..][idx] == Holders(tasks[..], idx);
          refs[idx] := 1;
          assert refs[..] == old(refs[..])[idx := 1];
          nextSlot := (idx + 1) % SLOTS;
          return idx;
        }
      }
      forall s | 0 <= s < SLOTS
        ensures Holders(tasks[..], s) > 0
      {
        var j := if s >= nextSlot then s - nextSlot else s + SLOTS - nextSlot;
        assert Slot(nextSlot, j) == s;
        assert refs[..][s] == Holders(tasks[..], s);
      }
      return -1;
    }

    // A task gives up its slot, or takes slot s that the operation holds.
    method TakeSlot(i: nat, s: int, x: Proc)
      requires Held(s, multiset{}) && i < TASKS && tasks[i].slot == -1 && -1 <= s < SLOTS
      requires x == tasks[i].(slot := s) && x.user
      requires tasks[i].state == Alive && tasks[i].id == x.id
      modifies tasks
      ensures Valid() && tasks[..] == old(tasks[..])[i := x]
    {
      SlotsChange(tasks[..], refs[..], s, i, x, refs[..], -1);
      SameFds(tasks[..], pipes[..], multiset{} + lost, i, x);
      SetTask(i, x);
    }

    /** user_stack_slot_release of a task's slot. */
    method ReleaseSlot(i: nat)
      requires Valid() && i < TASKS
      modifies tasks, refs
      ensures Valid() && tasks[..] == old(tasks[..])[i := old(tasks[i]).(slot := -1)]
    {
      var t := tasks[i];
      if t.slot >= 0 {
        HoldersUpdate(tasks[..], i, t, t.slot);
        assert refs[..][t.slot] == Holders(tasks[..], t.slot);
        SlotsChange(tasks[..], refs[..], -1, i, t.(slot := -1), refs[..][t.slot := refs[t.slot] - 1], -1);
        SameFds(tasks[..], pipes[..], multiset{} + lost, i, t.(slot := -1));
        refs[t.slot] := refs[t.slot] - 1;
        assert refs[..] == old(refs[..])[t.slot := old(refs[t.slot]) - 1];
        SetTask(i, t.(slot := -1));
      }
    }

    // ----- descriptors -----

    // Descriptor j of task i becomes g, with a reference that was held for it.
    method PutFd(i: nat, j: nat, g: Fd, ghost pend: multiset<Fd>, ghost pend': multiset<Fd>)
      requires Held(-1, pend) && i < TASKS && j < FDS && (g.PipeFd? ==> g.h < PIPES)
      requires forall h, w :: 0 <= h < PIPES ==>
                 Bit(g == PipeFd(h, w)) + pend'[PipeFd(h, w)] ==
                   Bit(tasks[i].fds[j] == PipeFd(h, w)) + pend[PipeFd(h, w)]
      requires tasks[i].state != Unused
      modifies tasks
      ensures Held(-1, pend') && tasks[..] == old(tasks[..])[i := old(tasks[i]).(fds := old(tasks[i]).fds[j := g])]
    {
      var x := tasks[i].(fds := tasks[i].fds[j := g]);
      FdChange(tasks[..], pipes[..], pend + lost, i, j, g, pend' + lost);
      SameSlot(tasks[..], refs[..], -1, i, x);
      SetTask(i, x);
    }

    method PipeClose(h: nat, w: bool, ghost pend: multiset<Fd>)
      requires Held(-1, pend + multiset{PipeFd(h, w)}) && h < PIPES
      modifies pipes
      ensures Held(-1, pend) && pipes[..] == old(pipes[..])[h := CloseEnd(old(pipes[h]), w)]
    {
      CloseKeeps(tasks[..], pipes[..], pend + multiset{PipeFd(h, w)} + lost, h, w, pend + lost);
      pipes[h] := CloseEnd(pipes[h], w);
      assert pipes[..] == old(pipes[..])[h := CloseEnd(old(pipes[h]), w)];
    }

    method PipeRef(h: nat, w: bool, ghost pend: multiset<Fd>)
      requires Held(-1, pend) && h < PIPES && FdsOn(tasks[..], PipeFd(h, w)) > 0
      modifies pipes
      ensures Held(-1, pend + multiset{PipeFd(h, w)}) && pipes[..] == old(pipes[..])[h := RefEnd(old(pipes[h]), w)]
    {
      RefKeeps(tasks[..], pipes[..], pend + lost, h, w, pend + multiset{PipeFd(h, w)} + lost);
      pipes[h] := RefEnd(pipes[h], w);
      assert pipes[..] == old(pipes[..])[h := RefEnd(old(pipes[h]), w)];
    }

    // The close of one descriptor.
    method CloseFd(i: nat, j: nat, ghost pend: multiset<Fd>)
      requires Held(-1, pend) && i < TASKS && j < FDS && tasks[i].state != Unused
      modifies tasks, pipes
      ensures Held(-1, pend) && tasks[..] == old(tasks[..])[i := old(tasks[i]).(fds := old(tasks[i]).fds[j := NoFd])]
      ensures pipes[..] == Closed(old(pipes[..]), old(tasks[i]).fds[j])
    {
      var f := tasks[i].fds[j];
      if f.PipeFd? {
        PutFd(i, j, NoFd, pend, pend + multiset{f});
        PipeClose(f.h, f.writeEnd, pend);
      } else {
        PutFd(i, j, NoFd, pend, pend);
      }
    }

    /** task_fd_close */
    method FdClose(fd: int) returns (rc: int)
      requires Valid() && tasks[cur].state != Unused
      modifies tasks, pipes
      ensures Valid() && rc == if 0 <= fd < FDS && old(tasks[cur]).fds[fd] != NoFd then 0 else -1
      ensures var t := old(tasks[cur]);
              tasks[..] == if rc == 0 then old(tasks[..])[cur := t.(fds := t.fds[fd := NoFd])] else old(tasks[..])
      ensures pipes[..] == if rc == 0 then Closed(old(pipes[..]), old(tasks[cur]).fds[fd]) else old(pipes[..])
    {
      if fd < 0 || fd >= FDS || tasks[cur].fds[fd] == NoFd { return -1; }
      CloseFd(cur, fd, multiset{});
      return 0;
    }

    /** task_fd_close_all */
    method CloseAll(i: nat)
      requires Valid() && i < TASKS && tasks[i].state != Unused
      modifies tasks, pipes
      ensures Valid() && tasks[..] == old(tasks[..])[i := old(tasks[i]).(fds := NoFdsAtAll())]
    {
      for j := 0 to FDS
        invariant Valid() && tasks[..] == old(tasks[..])[i := old(tasks[i]).(fds := tasks[i].fds)]
        invariant forall k :: 0 <= k < j ==> tasks[i].fds[k] == NoFd
      {
        CloseFd(i, j, multiset{});
      }
      assert tasks[i].fds == NoFdsAtAll();
    }

    /** task_fd_alloc: the first free descriptor; if there is none the reference is lost. */
    method FdAlloc(f: Fd, ghost pend: multiset<Fd>) returns (fd: int)
      requires Held(-1, pend + multiset{f}) && f != NoFd && (f.PipeFd? ==> f.h < PIPES) && tasks[cur].state != Unused
      modifies tasks, this`lost
      ensures Held(-1, pend) && GotFd(old(tasks[..]), tasks[..], cur, f, fd)
      ensures lost == if fd >= 0 then old(lost) else old(lost) + multiset{f}
    {
      for j := 0 to FDS
        invariant tasks[..] == old(tasks[..]) && lost == old(lost) && forall k :: 0 <= k < j ==>
                  tasks[cur].fds[k] != NoFd
      {
        if tasks[cur].fds[j] == NoFd {
          FdCountUpdate(tasks[cur].fds, j, f, NoFd);
          PutFd(cur, j, f, pend + multiset{f}, pend);
          return j;
        }
      }
      NoneFree(tasks[cur].fds);
      SamePend(tasks[..], pipes[..], pend + multiset{f} + lost, pend + (lost + multiset{f}));
      lost := lost + multiset{f};
      return -1;
    }

    /** pipe_create: a pipe that is not in use, so that no descriptor names. */
    method PipeCreate() returns (h: int)
      requires Valid()
      modifies pipes
      ensures -1 <= h < PIPES
      ensures h >= 0 ==>
                !old(pipes[h]).used && FdsOn(tasks[..], PipeFd(h, false)) == 0 == FdsOn(tasks[..], PipeFd(h, true))
      ensures h >= 0 ==>
                && Held(-1, multiset{PipeFd(h, false), PipeFd(h, true)})
                && pipes[..] == old(pipes[..])[h := Ends(true, 1, 1)]
      ensures h == -1 ==> Valid() && pipes[..] == old(pipes[..]) && forall k :: 0 <= k < PIPES ==> pipes[k].used
    {
      for i := 0 to PIPES
        invariant pipes[..] == old(pipes[..]) && forall k :: 0 <= k < i ==> pipes[k].used
      {
        if !pipes[i].used {
          CreateKeeps(tasks[..], pipes[..], multiset{} + lost, i, multiset{PipeFd(i, false), PipeFd(i, true)} + lost);
          pipes[i] := Ends(true, 1, 1);
          assert pipes[..] == old(pipes[..])[i := Ends(true, 1, 1)];
          return i;
        }
      }
      return -1;
    }

    /** task_fd_alloc for a file, which no pipe counts. */
    method OpenFile() returns (fd: int)
      requires Valid() && tasks[cur].state != Unused
      modifies tasks, this`lost
      ensures Valid() && GotFd(old(tasks[..]), tasks[..], cur, OtherFd, fd) && (fd >= 0 ==> lost == old(lost))
      ensures forall h, w :: lost[PipeFd(h, w)] == old(lost)[PipeFd(h, w)]
    {
      SamePend(tasks[..], pipes[..], multiset{} + lost, multiset{} + multiset{OtherFd} + lost);
      fd := FdAlloc(OtherFd, multiset{});
    }

    // The two descriptors of pipe p, whose references are held.
    method PipeFds(p: nat) returns (r: int, w: int)
      requires p < PIPES && Held(-1, multiset{PipeFd(p, false), PipeFd(p, true)}) && tasks[cur].state != Unused
      modifies tasks, this`lost
      ensures Valid() && GotPipe(old(tasks[..]), tasks[..], cur, p, r, w) && lost == old(lost) + Lost(p, r, w)
    {
      assert multiset{PipeFd(p, true)} + multiset{PipeFd(p, false)} == multiset{PipeFd(p, false), PipeFd(p, true)};
      r := FdAlloc(PipeFd(p, false), multiset{PipeFd(p, true)});
      assert multiset{} + multiset{PipeFd(p, true)} == multiset{PipeFd(p, true)};
      ghost var ts, l := tasks[..], lost;
      w := FdAlloc(PipeFd(p, true), multiset{});
      GotTwo(old(tasks[..]), ts, tasks[..], cur, p, r, w);
      LostIs(old(lost), l, lost, p, r, w);
    }

    /** The pipe system call: two descriptors, first the read end and then the write end, of a pipe
        that was free.  It succeeds exactly if there is a free pipe, the task has two free descriptors
        and they can be copied to the caller.  Without two free descriptors a reference is lost for each
        it did not get; without the copy both descriptors stay. */
    method SysPipe(copied: bool) returns (rc: int, ghost h: int, ghost r: int, ghost w: int)
      requires Valid() && tasks[cur].state != Unused
      modifies tasks, pipes, this`lost
      ensures Valid() && (rc == 0 || rc == -1) && -1 <= h < PIPES
      ensures h == -1 ==> rc == -1 && tasks[..] == old(tasks[..]) && pipes[..] == old(pipes[..]) && lost == old(lost)
      ensures h == -1 <==> forall k :: 0 <= k < PIPES ==> old(pipes[k]).used
      ensures h >= 0 ==> !old(pipes[h]).used && pipes[..] == old(pipes[..])[h := Ends(true, 1, 1)]
      ensures h >= 0 ==> (rc == 0 <==> Free(old(tasks[cur]).fds) >= 2 && copied)
      ensures h >= 0 ==> GotPipe(old(tasks[..]), tasks[..], cur, h, r, w) && lost == old(lost) + Lost(h, r, w)
    {
      rc, r, w := -1, -1, -1;
      var p := PipeCreate();
      h := p;
      if p < 0 { return; }
      var rfd, wfd := PipeFds(p);
      r, w := rfd, wfd;
      if rfd < 0 || wfd < 0 { return; }
      if copied { rc := 0; }
    }

    // Descriptor fd of the current task is closed and becomes f.
    method ReplaceFd(fd: nat, f: Fd, ghost pend: multiset<Fd>)
      requires Held(-1, pend) && fd < FDS && (f.PipeFd? ==> f.h < PIPES && pend[f] > 0) && tasks[cur].state != Unused
      modifies tasks, pipes
      ensures Held(-1, if f.PipeFd? then pend - multiset{f} else pend)
      ensures tasks[..] == old(tasks[..])[cur := old(tasks[cur]).(fds := old(tasks[cur]).fds[fd := f])]
    {
      CloseFd(cur, fd, pend);
      PutFd(cur, fd, f, pend, if f.PipeFd? then pend - multiset{f} else pend);
      ghost var t := old(tasks[cur]);
      assert t.fds[fd := NoFd][fd := f] == t.fds[fd := f];
    }

    // A reference for one more descriptor like descriptor fd of task i.
    method RefLike(i: nat, fd: nat, ghost pend: multiset<Fd>)
      requires Held(-1, pend) && i < TASKS && fd < FDS
      modifies pipes
      ensures var f := tasks[i].fds[fd]; Held(-1, if f.PipeFd? then pend + multiset{f} else pend)
    {
      var f := tasks[i].fds[fd];
      if f.PipeFd? {
        FdCountUpdate(tasks[i].fds, fd, f, f);
        FdsUpdate(tasks[..], i, tasks[i], f);
        PipeRef(f.h, f.writeEnd, pend);
      }
    }

    /** task_fd_dup2, of pipe ends and terminals. */
    method Dup2(oldfd: int, newfd: int) returns (rc: int)
      requires Valid() && tasks[cur].state != Unused
      modifies tasks, pipes
      ensures Valid() && rc == if CanDup(old(tasks[cur]).fds, oldfd, newfd) then newfd else -1
      ensures rc == -1 || oldfd == newfd ==> tasks[..] == old(tasks[..]) && pipes[..] == old(pipes[..])
      ensures rc >= 0 && oldfd != newfd ==>
                && 0 <= oldfd < FDS && 0 <= newfd < FDS
                && var t := old(tasks[cur]);
                   tasks[..] == old(tasks[..])[cur := t.(fds := t.fds[newfd := t.fds[oldfd]])]
    {
      if oldfd < 0 || oldfd >= FDS || newfd < 0 || newfd >= FDS { return -1; }
      if oldfd == newfd { return newfd; }
      var f := tasks[cur].fds[oldfd];
      if !f.PipeFd? && !f.PtyFd? { return -1; }
      RefLike(cur, oldfd, multiset{});
      ghost var pend: multiset<Fd> := if f.PipeFd? then multiset{} + multiset{f} else multiset{};
      assert (if f.PipeFd? then pend - multiset{f} else pend) == multiset{};
      ReplaceFd(newfd, f, pend);
      return newfd;
    }

    /** task_set_idle */
    method SetIdle(id: int) returns (rc: int, ghost i: int)
      requires Valid()
      modifies tasks
      ensures Valid() && -1 <= i < TASKS && rc == (if i >= 0 then 0 else -1)
      ensures i >= 0 ==>
                && old(tasks[i]).state != Unused && old(tasks[i]).id == id
                && tasks[..] == old(tasks[..])[i := old(tasks[i]).(idle := true)]
      ensures i == -1 ==>
                tasks[..] == old(tasks[..]) && forall k :: 0 <= k < TASKS && tasks[k].state != Unused ==>
                  tasks[k].id != id
    {
      var k := Find(id);
      i := k;
      if k < 0 { return -1, i; }
      var x := tasks[k].(idle := true);
      SameSlot(tasks[..], refs[..], -1, k, x);
      SameFds(tasks[..], pipes[..], multiset{} + lost, k, x);
      SetTask(k, x);
      return 0, i;
    }

    // ----- processes -----

    // The slot of the task with this number, or -1.
    method Find(pid: int) returns (i: int)
      requires tasks.Length == TASKS
      ensures -1 <= i < TASKS && (i >= 0 ==> tasks[i].state != Unused && tasks[i].id == pid)
      ensures i == -1 ==> forall k :: 0 <= k < TASKS && tasks[k].state != Unused ==> tasks[k].id != pid
    {
      for k := 0 to TASKS
        invariant forall j :: 0 <= j < k && tasks[j].state != Unused ==> tasks[j].id != pid
      {
        if tasks[k].state != Unused && tasks[k].id == pid { return k; }
      }
      return -1;
    }

    /** task_resources_cleanup: the task's descriptors are closed and its slot is given back. */
    method Cleanup(pid: int) returns (ghost i: int)
      requires Valid()
      modifies tasks, refs, pipes
      ensures Valid() && -1 <= i < TASKS && (i >= 0 ==> old(tasks[i]).state != Unused && old(tasks[i]).id == pid)
      ensures i == -1 ==> forall k :: 0 <= k < TASKS && tasks[k].state != Unused ==> tasks[k].id != pid
      ensures i >= 0 ==> tasks[..] == old(tasks[..])[i := old(tasks[i]).(fds := NoFdsAtAll(), slot := -1)]
      ensures i == -1 ==> tasks[..] == old(tasks[..])
    {
      var k := Find(pid);
      i := k;
      if k >= 0 {
        CloseAll(k);
        ReleaseSlot(k);
      }
    }

    // The cleanup of task i, which no other task shares its number with.
    method CleanupTask(i: nat)
      requires Valid() && i < TASKS && tasks[i].state != Unused
      modifies tasks, refs, pipes
      ensures Valid() && tasks[..] == old(tasks[..])[i := old(tasks[i]).(fds := NoFdsAtAll(), slot := -1)]
    {
      ghost var k := Cleanup(tasks[i].id);
      assert tasks[i].state != Unused;
      assert k == i;
    }

    // A task without a slot changes its state, or gets another number.
    method Become(i: nat, s: State, id: nat)
      requires Valid() && i < TASKS && (s == Unused || (tasks[i].state != Unused && id == tasks[i].id))
      requires id == 0 ==> !tasks[i].user
      requires (s != Alive ==> tasks[i].slot == -1) && (s == Unused ==> tasks[i].fds == NoFdsAtAll())
      modifies tasks
      ensures Valid() && tasks[..] == old(tasks[..])[i := old(tasks[i]).(state := s, id := id)]
    {
      var x := tasks[i].(state := s, id := id);
      SameSlot(tasks[..], refs[..], -1, i, x);
      SameFds(tasks[..], pipes[..], multiset{} + lost, i, x);
      SetTask(i, x);
    }

    // Task i has no slot and no descriptor, and is set up anew or cleared.
    method Reset(i: nat, x: Proc)
      requires Valid() && i < TASKS && tasks[i].slot == -1 == x.slot && x.fds == NoFdsAtAll() == tasks[i].fds
      requires x.id == 0 ==> !x.user
      requires x.state == Unused || (x.state == Alive && x.parent < x.id < nextId
                 && forall j :: 0 <= j < TASKS && j != i && tasks[j].state != Unused ==> tasks[j].id != x.id)
      modifies tasks
      ensures Valid() && tasks[..] == old(tasks[..])[i := x]
    {
      SameFds(tasks[..], pipes[..], multiset{} + lost, i, x);
      SameSlot(tasks[..], refs[..], -1, i, x);
      SetTask(i, x);
    }

    // task_fds_clear: the references are lost.
    method DropFds(i: nat)
      requires Valid() && i < TASKS
      modifies tasks, this`lost
      ensures Valid() && tasks[..] == old(tasks[..])[i := old(tasks[i]).(fds := NoFdsAtAll())]
      ensures lost == old(lost) + multiset(old(tasks[i]).fds)
    {
      var x := tasks[i].(fds := NoFdsAtAll());
      ghost var more := multiset(tasks[i].fds);
      forall h: nat, w
        ensures FdCount(x.fds, PipeFd(h, w)) == 0 && FdCount(tasks[i].fds, PipeFd(h, w)) == more[PipeFd(h, w)]
      {
        NoFds(x.fds, PipeFd(h, w));
        FdCountIs(tasks[i].fds, PipeFd(h, w));
      }
      PipesChange(tasks[..], pipes[..], multiset{} + lost, i, x, multiset{} + (lost + more));
      SameSlot(tasks[..], refs[..], -1, i, x);
      SetTask(i, x);
      lost := lost + more;
    }

    /** task_slot_clear: only task 0 has descriptors left to lose. */
    method SlotClear(i: nat)
      requires Valid() && i < TASKS
      modifies tasks, refs, pipes, this`lost
      ensures Valid() && tasks[..] == old(tasks[..])[i := Proc(Unused, 0, -1, false, false, -1, NoFdsAtAll())]
      ensures LostTo(old(tasks[..]), old(lost), lost, i)
    {
      if tasks[i].state != Unused && tasks[i].id != 0 {
        CleanupTask(i);
      }
      DropFds(i);
      Reset(i, Proc(Unused, 0, -1, false, false, -1, NoFdsAtAll()));
    }

    /** task_alloc_slot: the first task that is unused or a zombie, which is cleared; no other task is
        touched, and there is none only if all are alive. */
    method AllocTask() returns (r: int)
      requires Valid()
      modifies tasks, refs, pipes, this`lost
      ensures Valid() && -1 <= r < TASKS && (r >= 0 ==> tasks[r].state == Unused && old(tasks[r]).state != Alive)
      ensures tasks[..] == if r >= 0 then old(tasks[..])[r := tasks[r]] else old(tasks[..])
      ensures r == -1 <==> forall j :: 0 <= j < TASKS ==> old(tasks[j]).state == Alive
      ensures LostTo(old(tasks[..]), old(lost), lost, r)
    {
      for i := 0 to TASKS
        invariant Valid() && tasks[..] == old(tasks[..]) && forall j :: 0 <= j < i ==> tasks[j].state == Alive
        invariant lost == old(lost)
      {
        if tasks[i].state == Zombie { SlotClear(i); }
        if tasks[i].state == Unused { return i; }
      }
      return -1;
    }

    // Task k, which has no slot, gets one that no other task holds, if there is one.
    method GiveSlot(k: nat) returns (ok: bool)
      requires Valid() && k < TASKS && tasks[k].state == Alive && tasks[k].user && tasks[k].slot == -1
      modifies this`nextSlot, tasks, refs
      ensures Valid() && tasks[..] == old(tasks[..])[k := old(tasks[k]).(slot := tasks[k].slot)]
      ensures ok ==>
                0 <= tasks[k].slot < SLOTS && forall j :: 0 <= j < TASKS && j != k ==> tasks[j].slot != tasks[k].slot
      ensures (ok <==> old(FreeSlot(tasks[..]))) && (!ok ==> tasks[k].slot == -1)
    {
      var s := SlotAlloc();
      if s < 0 { return false; }
      HoldersUpdate(tasks[..], k, tasks[k].(slot := s), s);
      TakeSlot(k, s, tasks[k].(slot := s));
      SoleHolder(tasks[..], k, s);
      ok := true;
    }

    // A new process in an unused task, with a slot of its own.
    method NewProcess(k: nat) returns (ok: bool)
      requires Valid() && tasks[cur].state == Alive && k < TASKS && tasks[k].state == Unused
      modifies this`nextId, this`nextSlot, tasks, refs
      ensures Valid() && k != cur && nextId == old(nextId) + 1
      ensures ok ==>
                0 <= tasks[k].slot < SLOTS && forall j :: 0 <= j < TASKS && j != k ==> tasks[j].slot != tasks[k].slot
      ensures ok ==>
                tasks[..] == old(tasks[..])[k := Proc(Alive, old(nextId), old(tasks[cur]).id, true, false,
                  tasks[k].slot, NoFdsAtAll())]
      ensures !ok ==> tasks[..] == old(tasks[..])[k := tasks[k]] && tasks[k].state == Unused
      ensures ok <==> old(FreeSlot(tasks[..]))
    {
      var id, parent := nextId, tasks[cur].id;
      nextId := nextId + 1;
      SameHolders(tasks[..], k, Proc(Alive, id, parent, true, false, -1, NoFdsAtAll()));
      Reset(k, Proc(Alive, id, parent, true, false, -1, NoFdsAtAll()));
      ok := GiveSlot(k);
      if !ok { Become(k, Unused, id); }
    }

    /** task_spawn_user_uid, where memory or the image may fail: the new task i has a slot no other task
        holds and no descriptor, and no living task changes.  It succeeds exactly if nothing failed and
        some task is not alive and some slot is free. */
    method Spawn(memory: bool, image: bool) returns (pid: int, ghost i: int)
      requires Valid() && tasks[cur].state == Alive
      modifies this`nextId, this`nextSlot, this`lost, tasks, refs, pipes
      ensures Valid() && forall j :: 0 <= j < TASKS && old(tasks[j]).state == Alive ==> tasks[j] == old(tasks[j])
      ensures pid >= 0 ==>
                && 0 <= i < TASKS
                && tasks[..] == old(tasks[..])[i := Proc(Alive, pid, old(tasks[cur]).id, true, false, tasks[i].slot,
                  NoFdsAtAll())]
                && 0 <= tasks[i].slot < SLOTS && forall j :: 0 <= j < TASKS && j != i ==> tasks[j].slot != tasks[i].slot
      ensures pid >= 0 <==> memory && image && old(SomeDead(tasks[..])) && old(FreeSlot(tasks[..]))
      ensures LostTo(old(tasks[..]), old(lost), lost, i)
    {
      pid := -1;
      var k := AllocTask();
      i := k;
      if k < 0 || !memory { return; }
      SameHolders(old(tasks[..]), k, tasks[k]);
      var ok := NewProcess(k);
      if !ok { return; }
      if !image {
        CleanupTask(k);
        Become(k, Unused, tasks[k].id);
        return;
      }
      pid := tasks[k].id;
    }

    /** task_exec_user_argv, once the image is loaded: the task moves to a slot that no task held, and keeps
        all else; it fails only if every slot is held. */
    method Exec() returns (ok: bool)
      requires Valid() && tasks[cur].state == Alive && tasks[cur].user
      modifies this`nextSlot, tasks, refs
      ensures Valid() && tasks[..] == old(tasks[..])[cur := old(tasks[cur]).(slot := tasks[cur].slot)]
      ensures ok ==>
                0 <= tasks[cur].slot < SLOTS && forall j :: 0 <= j < TASKS && j != cur ==>
                  tasks[j].slot != tasks[cur].slot
      ensures ok ==> tasks[cur].slot != old(tasks[cur]).slot
      ensures (ok <==> old(FreeSlot(tasks[..]))) && (!ok ==> tasks[..] == old(tasks[..]))
    {
      var s := SlotAlloc();
      if s < 0 { return false; }
      HoldersUpdate(tasks[..], cur, tasks[cur], s);
      ExecSlot(s);
      SoleHolder(tasks[..], cur, s);
      ok := true;
    }

    // The current task gives its slot back and takes slot s.
    method ExecSlot(s: nat)
      requires Held(s, multiset{}) && s < SLOTS && tasks[cur].state == Alive && tasks[cur].user
      requires Holders(tasks[..], s) == 0
      modifies tasks, refs
      ensures Valid() && tasks[..] == old(tasks[..])[cur := old(tasks[cur]).(slot := s)] && Holders(tasks[..], s) == 1
    {
      var t := tasks[cur];
      var x := t.(slot := s);
      HoldersUpdate(tasks[..], cur, x, s);
      HoldersUpdate(tasks[..], cur, x, t.slot);
      assert t.slot >= 0 ==> refs[..][t.slot] >= 1;
      ghost var rs := if t.slot >= 0 then refs[..][t.slot := refs[t.slot] - 1] else refs[..];
      if t.slot >= 0 { refs[t.slot] := refs[t.slot] - 1; }
      assert refs[..] == rs;
      SlotsChange(tasks[..], old(refs[..]), s, cur, x, rs, -1);
      SameFds(tasks[..], pipes[..], multiset{} + lost, cur, x);
      SetTask(cur, x);
    }

    // The child of a fork shares the parent's slot.
    method ForkSlot(k: nat, id: nat)
      requires Valid() && k < TASKS && tasks[k].state == Unused && tasks[cur].state == Alive && tasks[cur].user
      requires tasks[cur].id < id < nextId && forall j :: 0 <= j < TASKS && tasks[j].state != Unused ==>
                tasks[j].id != id
      modifies tasks, refs
      ensures Valid() && k != cur
      ensures tasks[..] == old(tasks[..])[k := Proc(Alive, id, old(tasks[cur]).id, true, false, old(tasks[cur]).slot,
                old(tasks[k]).fds)]
    {
      var t := tasks[cur];
      var x := Proc(Alive, id, t.id, true, false, t.slot, tasks[k].fds);
      ghost var rs := if t.slot >= 0 then refs[..][t.slot := refs[t.slot] + 1] else refs[..];
      if t.slot >= 0 { refs[t.slot] := refs[t.slot] + 1; }
      assert refs[..] == rs;
      SlotsChange(tasks[..], old(refs[..]), -1, k, x, rs, -1);
      SameFds(tasks[..], pipes[..], multiset{} + lost, k, x);
      SetTask(k, x);
    }

    // ... and a copy of each descriptor, with a reference.
    method ForkFds(k: nat)
      requires Valid() && k < TASKS && k != cur && tasks[k].state != Unused && tasks[k].fds == NoFdsAtAll()
      modifies tasks, pipes
      ensures Valid() && tasks[..] == old(tasks[..])[k := old(tasks[k]).(fds := old(tasks[cur]).fds)]
    {
      ghost var ts, fds := tasks[..], tasks[cur].fds;
      Filling(ts, k, fds);
      for j := 0 to FDS
        invariant Valid() && tasks[..] == ts[k := ts[k].(fds := Filled(fds, j))]
      {
        FillNext(ts, k, fds, j);
        ForkFd(k, j);
      }
    }

    method ForkFd(k: nat, j: nat)
      requires Valid() && k < TASKS && k != cur && j < FDS && tasks[k].state != Unused && tasks[k].fds[j] == NoFd
      modifies tasks, pipes
      ensures Valid()
      ensures tasks[..] == old(tasks[..])[k := old(tasks[k]).(fds := old(tasks[k]).fds[j := old(tasks[cur]).fds[j]])]
    {
      var f := tasks[cur].fds[j];
      RefLike(cur, j, multiset{});
      ghost var pend: multiset<Fd> := if f.PipeFd? then multiset{} + multiset{f} else multiset{};
      PutFd(k, j, f, pend, multiset{});
    }

    /** task_fork_user, where memory may fail: the child i has the parent's slot and descriptors, with a
        reference each, and no other task changes.  It succeeds exactly if there was memory and some
        task is not alive. */
    method Fork(memory: bool) returns (pid: int, ghost i: int)
      requires Valid() && tasks[cur].state == Alive && tasks[cur].user
      modifies this`nextId, this`lost, tasks, refs, pipes
      ensures Valid() && forall j :: 0 <= j < TASKS && old(tasks[j]).state == Alive ==> tasks[j] == old(tasks[j])
      ensures pid >= 0 ==>
                && 0 <= i < TASKS && i != cur && old(tasks[i]).state != Alive
                && tasks[..] == old(tasks[..])[i := Proc(Alive, pid, old(tasks[cur]).id, true, false,
                  old(tasks[cur]).slot, old(tasks[cur]).fds)]
      ensures pid >= 0 <==> memory && old(SomeDead(tasks[..]))
      ensures LostTo(old(tasks[..]), old(lost), lost, i)
    {
      pid := -1;
      var k := AllocTask();
      i := k;
      if k < 0 || !memory { return; }
      var id := ForkInto(k);
      pid := id;
    }

    // The child in the unused task k.
    method ForkInto(k: nat) returns (id: nat)
      requires Valid() && k < TASKS && tasks[k].state == Unused && tasks[cur].state == Alive && tasks[cur].user
      modifies this`nextId, tasks, refs, pipes
      ensures Valid() && k != cur
      ensures tasks[..] == old(tasks[..])[k := Proc(Alive, id, old(tasks[cur]).id, true, false, old(tasks[cur]).slot,
                old(tasks[cur]).fds)]
    {
      id := nextId;
      nextId := nextId + 1;
      ForkSlot(k, id);
      ForkFds(k);
    }

    /** task_exit of the current task, and of a task that is killed: it keeps no reference. */
    method Retire(i: nat)
      requires Valid() && i < TASKS && tasks[i].state == Alive
      modifies tasks, refs, pipes
      ensures Valid() && tasks[..] == old(tasks[..])[i := Retired(old(tasks[i]))]
    {
      if tasks[i].id != 0 { CleanupTask(i); }
      Become(i, Zombie, tasks[i].id);
    }

    /** task_kill_children: every living descendant but the current task, and nobody else. */
    method KillChildren(pid: nat)
      requires Valid()
      modifies tasks, refs, pipes
      ensures Valid() && KilledBelow(old(tasks[..]), tasks[..], cur, pid, TASKS)
      decreases nextId - pid
    {
      for i := 0 to TASKS
        invariant Valid() && KilledBelow(old(tasks[..]), tasks[..], cur, pid, i)
      {
        ghost var ts := tasks[..];
        if tasks[i].state == Alive && tasks[i].parent == pid { KillFamily(pid, i); }
        KilledNext(old(tasks[..]), ts, tasks[..], cur, pid, i);
      }
    }

    // One child, after its own children.
    method KillFamily(pid: nat, i: nat)
      requires Valid() && i < TASKS && tasks[i].state == Alive && tasks[i].parent == pid
      modifies tasks, refs, pipes
      ensures Valid() && FamilyKilled(old(tasks[..]), tasks[..], cur, i)
      decreases nextId - pid, 0
    {
      KillChildren(tasks[i].id);
      if i != cur { Retire(i); }
    }

    /** task_kill: the task and its living descendants are retired, but for the current task if it is
        one of those; nobody else is touched. */
    method Kill(id: int) returns (rc: int, ghost i: int)
      requires Valid()
      modifies tasks, refs, pipes
      ensures Valid() && -1 <= i < TASKS && (i >= 0 ==> old(tasks[i]).state != Unused && old(tasks[i]).id == id)
      ensures rc == if i == -1 then -1 else if id == 0 || old(tasks[i]).idle then -2 else 0
      ensures i == -1 ==> forall k :: 0 <= k < TASKS && tasks[k].state != Unused ==> tasks[k].id != id
      ensures rc != 0 || old(tasks[i]).state == Zombie ==> tasks[..] == old(tasks[..])
      ensures rc == 0 && old(tasks[i]).state == Alive ==>
                exists us :: Killed(old(tasks[..]), us, cur, id) && Bereft(us, cur, id) &&
                  tasks[..] == us[i := Retired(old(tasks[i]))]
    {
      var k := Find(id);
      i := k;
      if k < 0 { return -1, i; }
      if id == 0 || tasks[k].idle { return -2, i; }
      if tasks[k].state == Zombie { return 0, i; }
      KillChildren(id);
      ghost var us := tasks[..];
      Retire(k);
      assert tasks[..] == us[k := Retired(old(tasks[k]))];
      return 0, i;
    }
  }

  // ----- runs -----

  /** What may happen to the kernel: a call of the current task, or a switch to another. */
  datatype Event = DoSpawn(memory: bool, image: bool) | DoFork(memory: bool) | DoExec | DoPipe(copied: bool)
                 | DoClose(fd: int) | DoDup2(oldfd: int, newfd: int) | DoOpen | DoKill(pid: int) | DoExit
                 | SwitchTo(task: nat)

  /** One event; calls are made by a task that is alive, and fork and exec by a user task. */
  method Happen(k: Kernel, e: Event)
    requires k.Valid()
    modifies k, k.tasks, k.refs, k.pipes
    ensures k.Valid() && StillLost(old(k.lost), k.lost)
  {
    match e
    case SwitchTo(i) => if i < TASKS { k.cur := i; }
    case DoKill(pid) =>
      ghost var i;
      var rc;
      rc, i := k.Kill(pid);
    case _ => if k.tasks[k.cur].state == Alive { Calls(k, e); }
  }

  method Calls(k: Kernel, e: Event)
    requires k.Valid() && k.tasks[k.cur].state == Alive
    modifies k, k.tasks, k.refs, k.pipes
    ensures k.Valid() && StillLost(old(k.lost), k.lost)
  {
    var rc, ok;
    ghost var i, r, w;
    match e
    case DoSpawn(memory, image) => rc, i := k.Spawn(memory, image);
    case DoFork(memory) => if k.tasks[k.cur].user { rc, i := k.Fork(memory); }
    case DoExec => if k.tasks[k.cur].user { ok := k.Exec(); }
    case DoPipe(copied) => rc, i, r, w := k.SysPipe(copied);
    case DoClose(fd) => rc := k.FdClose(fd);
    case DoDup2(oldfd, newfd) => rc := k.Dup2(oldfd, newfd);
    case DoOpen => rc := k.OpenFile();
    case DoExit => k.Retire(k.cur);
    case _ =>
  }

  /** Over every run the counts stay right and no lost reference comes back, so that a pipe with one is
      in use at the end of it. */
  method Run(k: Kernel, es: seq<Event>)
    requires k.Valid()
    modifies k, k.tasks, k.refs, k.pipes
    ensures k.Valid() && StillLost(old(k.lost), k.lost)
    ensures forall h, w :: 0 <= h < PIPES && old(k.lost)[PipeFd(h, w)] > 0 ==> k.pipes[h].used
  {
    for n := 0 to |es|
      invariant k.Valid() && StillLost(old(k.lost), k.lost)
    {
      Happen(k, es[n]);
    }
    forall h, w | 0 <= h < PIPES && old(k.lost)[PipeFd(h, w)] > 0
      ensures k.pipes[h].used
    {
      LostStaysUsed(k.tasks[..], k.pipes[..], multiset{} + k.lost, h, w);
    }
  }

  /** The failure of the pipe call on a task whose sixteen descriptors are all taken: nothing names
      the pipe, and its slot is in use for good. */
  method LosePipe() returns (k: Kernel, rc: int, ghost h: int)
    ensures fresh(k) && k.Valid() && rc == -1 && 0 <= h < PIPES && k.pipes[h] == Ends(true, 1, 1)
    ensures forall w :: FdsOn(k.tasks[..], PipeFd(h, w)) == 0 && k.lost[PipeFd(h, w)] == 1
  {
    k := new Kernel();
    AllFdsFree(FDS);
    assert NoFdsAtAll() == seq(FDS, _ => NoFd);
    FillTable(k);
    assert !k.pipes[0].used;
    ghost var r, w;
    rc, h, r, w := k.SysPipe(true);
    forall v
      ensures FdsOn(k.tasks[..], PipeFd(h, v)) == 0 && k.lost[PipeFd(h, v)] == 1
    {
      assert EndCount(k.pipes[..][h], v) == FdsOn(k.tasks[..], PipeFd(h, v)) + (multiset{} + k.lost)[PipeFd(h, v)];
    }
  }

  method FillTable(k: Kernel)
    requires k.Valid() && k.tasks[k.cur].state != Unused && k.lost == multiset{} && Free(k.tasks[k.cur].fds) == FDS
    modifies k.tasks, k`lost
    ensures k.Valid() && k.tasks[k.cur].state != Unused && k.lost == multiset{} && Free(k.tasks[k.cur].fds) == 0
  {
    for i := 0 to FDS
      invariant k.Valid() && k.tasks[k.cur].state != Unused && k.lost == multiset{}
      invariant Free(k.tasks[k.cur].fds) == FDS - i
    {
      ghost var fds := k.tasks[k.cur].fds;
      var fd := k.OpenFile();
      FdCountUpdate(fds, fd, OtherFd, NoFd);
    }
  }

  lemma {:induction false} AllFdsFree(n: nat)
    ensures Free(seq(n, _ => NoFd)) == n
  {
    if n != 0 {
      assert seq(n, _ => NoFd)[1..] == seq(n - 1, _ => NoFd);
      AllFdsFree(n - 1);
    }
  }

  /** A task that exited: it is a zombie and holds nothing; task 0 is not cleaned up. */
  function Retired(t: Proc): Proc
  {
    if t.id == 0 then t.(state := Zombie) else t.(state := Zombie, slot := -1, fds := NoFdsAtAll())
  }

  /** No child of a task is left alive, except perhaps the current task. */
  ghost predicate Bereft(us: seq<Proc>, cur: nat, id: int)
  {
    BereftBelow(us, cur, id, |us|)
  }

  ghost predicate BereftBelow(us: seq<Proc>, cur: nat, id: int, n: nat)
    requires n <= |us|
  {
    forall j :: 0 <= j < n && j != cur && us[j].parent == id ==> us[j].state != Alive
  }

  ghost predicate OnlyDying(ts: seq<Proc>, us: seq<Proc>)
  {
    && |us| == |ts|
    && forall j :: 0 <= j < |ts| ==> us[j] == ts[j] || (ts[j].state == Alive && us[j] == Retired(ts[j]))
  }

  /** From ts to us some living tasks other than cur retired: each is a child of pid, or of one that
      retired, or of cur if cur is such a child; and none of these has a child left alive but cur. */
  ghost predicate Killed(ts: seq<Proc>, us: seq<Proc>, cur: nat, pid: int)
  {
    && OnlyDying(ts, us) && cur < |ts| && us[cur] == ts[cur]
    && (forall j :: 0 <= j < |ts| && us[j] != ts[j] ==> Heir(ts, us, cur, pid, ts[j].parent))
    && (forall k :: 0 <= k < |ts| && us[k] != ts[k] ==> Bereft(us, cur, ts[k].id))
    && (ts[cur].state == Alive && Gone(ts, us, ts[cur].parent) ==> Bereft(us, cur, ts[cur].id))
  }

  /** ... and of the first n tasks no child of pid is left alive but cur, which has no child alive if it
      is one; what is not younger than pid is as it was. */
  ghost predicate KilledBelow(ts: seq<Proc>, us: seq<Proc>, cur: nat, pid: int, n: nat)
  {
    && Killed(ts, us, cur, pid) && n <= |ts| && BereftBelow(us, cur, pid, n)
    && (cur < n && us[cur].state == Alive && us[cur].parent == pid ==> Bereft(us, cur, us[cur].id))
    && forall j :: 0 <= j < |ts| && ts[j].parent < pid ==> us[j] == ts[j]
  }

  /** The children of task i were killed, and then i itself unless it is cur. */
  ghost predicate FamilyKilled(ts: seq<Proc>, vs: seq<Proc>, cur: nat, i: nat)
  {
    exists us :: i < |ts| && KilledBelow(ts, us, cur, ts[i].id, |ts|) && us[i] == ts[i]
                 && vs == if i == cur then us else us[i := Retired(us[i])]
  }

  lemma KilledNext(o: seq<Proc>, ts: seq<Proc>, vs: seq<Proc>, cur: nat, pid: int, i: nat)
    requires KilledBelow(o, ts, cur, pid, i) && i < |o| && |vs| == |ts|
    requires if ts[i].state == Alive && ts[i].parent == pid then
               ts[i].parent < ts[i].id && FamilyKilled(ts, vs, cur, i)
             else vs == ts
    ensures KilledBelow(o, vs, cur, pid, i + 1)
  {
    if ts[i].state == Alive && ts[i].parent == pid {
      var us :| KilledBelow(ts, us, cur, ts[i].id, |ts|) && us[i] == ts[i] &&
        vs == if i == cur then us else us[i := Retired(us[i])];
      KilledMore(o, ts, us, vs, cur, pid, i);
      KilledCount(o, ts, vs, cur, pid, i);
    }
  }

  lemma KilledCount(o: seq<Proc>, ts: seq<Proc>, vs: seq<Proc>, cur: nat, pid: int, i: nat)
    requires KilledBelow(o, ts, cur, pid, i) && i < |o| && Killed(o, vs, cur, pid) && OnlyDying(ts, vs)
    requires i == cur || vs[i].state != Alive
    requires i == cur ==> Bereft(vs, cur, ts[cur].id)
    requires forall j :: 0 <= j < |ts| && ts[j].parent < pid ==> vs[j] == ts[j]
    ensures KilledBelow(o, vs, cur, pid, i + 1)
  {
    if cur < i && ts[cur].state == Alive && ts[cur].parent == pid { StillBereft(ts, vs, cur, ts[cur].id); }
  }

  /** The task with this number retired. */
  ghost predicate Gone(ts: seq<Proc>, us: seq<Proc>, id: int)
    requires |us| == |ts|
  {
    exists k :: 0 <= k < |ts| && us[k] != ts[k] && ts[k].id == id
  }

  ghost predicate Heir(ts: seq<Proc>, us: seq<Proc>, cur: nat, pid: int, parent: int)
    requires |us| == |ts| && cur < |ts|
  {
    || parent == pid || Gone(ts, us, parent)
    || (ts[cur].state == Alive && ts[cur].id == parent && (ts[cur].parent == pid || Gone(ts, us, ts[cur].parent)))
  }

  lemma StillBereft(us: seq<Proc>, vs: seq<Proc>, cur: nat, id: int)
    requires OnlyDying(us, vs) && Bereft(us, cur, id)
    ensures Bereft(vs, cur, id)
  {
  }

  lemma DyingTrans(ts: seq<Proc>, us: seq<Proc>, vs: seq<Proc>)
    requires OnlyDying(ts, us) && OnlyDying(us, vs)
    ensures OnlyDying(ts, vs) && forall k :: 0 <= k < |ts| ==> (vs[k] != ts[k] <==> us[k] != ts[k] || vs[k] != us[k])
  {
  }

  lemma StillGone(ts: seq<Proc>, us: seq<Proc>, vs: seq<Proc>, id: int)
    requires OnlyDying(ts, us) && OnlyDying(us, vs)
    ensures Gone(ts, us, id) || Gone(us, vs, id) <==> Gone(ts, vs, id)
  {
    DyingTrans(ts, us, vs);
    if Gone(us, vs, id) {
      var k :| 0 <= k < |us| && vs[k] != us[k] && us[k].id == id;
      assert vs[k] != ts[k] && ts[k].id == id;
    }
    if Gone(ts, us, id) {
      var k :| 0 <= k < |us| && us[k] != ts[k] && ts[k].id == id;
      assert vs[k] != ts[k];
    }
  }

  // The child i and its family, after other children.
  lemma KilledMore(o: seq<Proc>, ts: seq<Proc>, us: seq<Proc>, vs: seq<Proc>, cur: nat, pid: int, i: nat)
    requires Killed(o, ts, cur, pid) && i < |ts| && ts[i].state == Alive && ts[i].parent == pid
    requires Killed(ts, us, cur, ts[i].id) && us[i] == ts[i] && Bereft(us, cur, ts[i].id) && ts[i].parent != ts[i].id
    requires ts[cur].state == Alive && ts[cur].parent == ts[i].id ==> Bereft(us, cur, ts[cur].id)
    requires vs == if i == cur then us else us[i := Retired(us[i])]
    ensures Killed(o, vs, cur, pid) && OnlyDying(ts, vs) && Bereft(vs, cur, ts[i].id)
  {
    assert OnlyDying(us, vs);
    DyingTrans(ts, us, vs);
    DyingTrans(o, ts, vs);
    StillBereft(us, vs, cur, ts[i].id);
    assert i != cur ==> vs[i] != o[i] && o[i].id == ts[i].id;
    forall id
      ensures Gone(o, vs, id) <==> Gone(o, ts, id) || Gone(ts, us, id) || (i != cur && id == ts[i].id)
    {
      StillGone(o, ts, vs, id);
      StillGone(ts, us, vs, id);
    }
    forall j | 0 <= j < |o| && vs[j] != o[j]
      ensures Heir(o, vs, cur, pid, o[j].parent) && Bereft(vs, cur, o[j].id)
    {
      if ts[j] != o[j] {
        StillBereft(ts, vs, cur, o[j].id);
      } else if us[j] != ts[j] {
        StillBereft(us, vs, cur, o[j].id);
      }
    }
    if o[cur].state == Alive && Gone(o, vs, o[cur].parent) {
      if Gone(o, ts, o[cur].parent) {
        StillBereft(ts, vs, cur, o[cur].id);
      } else {
        StillBereft(us, vs, cur, o[cur].id);
      }
    }
  }

  // Descriptor j of a task changes from f to g.
  lemma FdChange(ts: seq<Proc>, pipes: seq<Ends>, pend: multiset<Fd>, i: nat, j: nat, g: Fd, pend': multiset<Fd>)
    requires PipesOk(ts, pipes, pend) && i < |ts| && j < |ts[i].fds|
    requires forall h, w :: 0 <= h < PIPES ==>
               Bit(g == PipeFd(h, w)) + pend'[PipeFd(h, w)] == Bit(ts[i].fds[j] == PipeFd(h, w)) + pend[PipeFd(h, w)]
    ensures PipesOk(ts[i := ts[i].(fds := ts[i].fds[j := g])], pipes, pend')
  {
    var x := ts[i].(fds := ts[i].fds[j := g]);
    forall h, w | 0 <= h < PIPES
      ensures FdCount(x.fds, PipeFd(h, w)) + pend'[PipeFd(h, w)] ==
                FdCount(ts[i].fds, PipeFd(h, w)) + pend[PipeFd(h, w)]
    {
      FdCountUpdate(ts[i].fds, j, g, PipeFd(h, w));
    }
    PipesChange(ts, pipes, pend, i, x, pend');
  }

  lemma {:induction false} HoldersBound(ts: seq<Proc>, s: int)
    ensures Holders(ts, s) <= |ts|
  {
    if |ts| != 0 { HoldersBound(ts[1..], s); }
  }

  /** The 8-bit slot counts never wrap. */
  lemma SlotCountFits(ts: seq<Proc>, refs: seq<nat>, pend: int, s: nat)
    requires SlotsOk(ts, refs, pend) && |ts| == TASKS && s < SLOTS
    ensures refs[s] < 256
  {
    HoldersBound(ts, s);
  }

  // A slot with one holder is held by no other task.
  lemma SoleHolder(ts: seq<Proc>, i: nat, s: int)
    requires i < |ts| && ts[i].slot == s && Holders(ts, s) == 1
    ensures forall j :: 0 <= j < |ts| && j != i ==> ts[j].slot != s
  {
    forall j | 0 <= j < |ts| && j != i
      ensures ts[j].slot != s
    {
      var x := ts[i].(slot := s + 1);
      HoldersUpdate(ts, i, x, s);
      HoldersUpdate(ts[i := x], j, ts[j], s);
    }
  }

  lemma SameSlot(ts: seq<Proc>, refs: seq<nat>, pend: int, i: nat, x: Proc)
    requires SlotsOk(ts, refs, pend) && i < |ts| && x.slot == ts[i].slot
    ensures SlotsOk(ts[i := x], refs, pend)
  {
    SlotsChange(ts, refs, pend, i, x, refs, pend);
  }

  // The first j descriptors are copied.
  ghost function Filled(fds: seq<Fd>, j: nat): (r: seq<Fd>)
    requires j <= |fds| == FDS
    ensures |r| == FDS
  {
    fds[..j] + NoFdsAtAll()[j..]
  }

  lemma Filling(ts: seq<Proc>, k: nat, fds: seq<Fd>)
    requires k < |ts| && |fds| == FDS
    ensures Filled(fds, FDS) == fds && (ts[k].fds == NoFdsAtAll() ==> ts[k := ts[k].(fds := Filled(fds, 0))] == ts)
  {
    assert Filled(fds, 0) == NoFdsAtAll();
  }

  lemma FillNext(ts: seq<Proc>, k: nat, fds: seq<Fd>, j: nat)
    requires k < |ts| && j < |fds| == FDS
    ensures Filled(fds, j)[j] == NoFd
    ensures var x := ts[k].(fds := Filled(fds, j));
            ts[k := x][k := x.(fds := x.fds[j := fds[j]])] == ts[k := ts[k].(fds := Filled(fds, j + 1))]
  {
    assert Filled(fds, j)[j := fds[j]] == Filled(fds, j + 1);
  }

  function Slot(next: nat, j: nat): nat { (next + j) % SLOTS }

  lemma {:induction false} NoHolders(ts: seq<Proc>, s: int)
    requires s >= 0 && forall i :: 0 <= i < |ts| ==> ts[i].slot == -1
    ensures Holders(ts, s) == 0
  {
    if |ts| != 0 { NoHolders(ts[1..], s); }
  }

  lemma {:induction false} NoPipeFds(ts: seq<Proc>, f: Fd)
    requires f != NoFd && forall i :: 0 <= i < |ts| ==> forall j :: 0 <= j < |ts[i].fds| ==> ts[i].fds[j] == NoFd
    ensures FdsOn(ts, f) == 0
  {
    if |ts| != 0 {
      NoFds(ts[0].fds, f);
      NoPipeFds(ts[1..], f);
    }
  }

  lemma SameFds(ts: seq<Proc>, pipes: seq<Ends>, pend: multiset<Fd>, i: nat, x: Proc)
    requires PipesOk(ts, pipes, pend) && i < |ts| && x.fds == ts[i].fds
    ensures PipesOk(ts[i := x], pipes, pend)
  {
    PipesChange(ts, pipes, pend, i, x, pend);
  }
}
