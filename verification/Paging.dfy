/** Address spaces: page directories of 4 MB pages over a pool of frames, and deep-copy fork. */
module Paging {
  import opened Words

  const PAGE: nat := 0x40_0000    // 4 MB
  const ENTRIES: nat := 1024      // PAGE_DIR_ENTRIES
  const DIRS: nat := 16           // PAGING_ASDIR_MAX
  const USER_END: nat := 20       // user pages are below 80 MB
  const FRAMES: nat := 12         // FORK_FRAME_COUNT, at 80 MB
  const MAPPED: nat := 32         // IDENTITY_MB / 4

  /** A page directory entry; `frame` is the number of the 4 MB frame. */
  datatype Pde = Pde(frame: nat, present: bool, rw: bool, user: bool, pse: bool)

  predicate IsUser(e: Pde) { e.present && e.user && e.pse }
  predicate InPool(f: nat) { USER_END <= f < USER_END + FRAMES }

  /** The contents of a frame. */
  function Page(m: seq<u8>, f: nat): (p: seq<u8>)
    requires |m| == MAPPED * PAGE && f < MAPPED
    ensures |p| == PAGE
  {
    m[f * PAGE..f * PAGE + PAGE]
  }

  // ----- counting -----

  /** How many user entries of a directory refer to frame f. */
  ghost function Uses(dir: seq<Pde>, f: nat): nat
  {
    if |dir| == 0 then 0 else Bit(IsUser(dir[0]) && dir[0].frame == f) + Uses(dir[1..], f)
  }

  ghost function UsesAll(dirs: seq<seq<Pde>>, live: seq<bool>, f: nat): nat
    requires |dirs| == |live|
  {
    if |dirs| == 0 then 0 else (if live[0] then Uses(dirs[0], f) else 0) + UsesAll(dirs[1..], live[1..], f)
  }

  lemma {:induction false} UsesUpdate(dir: seq<Pde>, i: nat, e: Pde, f: nat)
    requires i < |dir|
    ensures Uses(dir[i := e], f) ==
              Uses(dir, f) - Bit(IsUser(dir[i]) && dir[i].frame == f) + Bit(IsUser(e) && e.frame == f)
    ensures Uses(dir, f) >= Bit(IsUser(dir[i]) && dir[i].frame == f)
  {
    if i == 0 {
      assert dir[0 := e][1..] == dir[1..];
    } else {
      assert dir[i := e][1..] == dir[1..][i - 1 := e];
      UsesUpdate(dir[1..], i - 1, e, f);
    }
  }

  lemma {:induction false} UsesAllUpdate(dirs: seq<seq<Pde>>, live: seq<bool>, d: nat, dir: seq<Pde>, b: bool, f: nat)
    requires |dirs| == |live| && d < |dirs|
    ensures UsesAll(dirs[d := dir], live[d := b], f)
         == UsesAll(dirs, live, f) - (if live[d] then Uses(dirs[d], f) else 0) + (if b then Uses(dir, f) else 0)
    ensures UsesAll(dirs, live, f) >= if live[d] then Uses(dirs[d], f) else 0
  {
    if d == 0 {
      assert dirs[0 := dir][1..] == dirs[1..] && live[0 := b][1..] == live[1..];
    } else {
      assert dirs[d := dir][1..] == dirs[1..][d - 1 := dir] && live[d := b][1..] == live[1..][d - 1 := b];
      UsesAllUpdate(dirs[1..], live[1..], d - 1, dir, b, f);
    }
  }

  lemma {:induction false} NoUses(dir: seq<Pde>, f: nat)
    requires forall i :: 0 <= i < |dir| ==> !IsUser(dir[i])
    ensures Uses(dir, f) == 0
  {
    if |dir| != 0 { NoUses(dir[1..], f); }
  }

  // ----- the invariant -----

  /** A process directory: below 80 MB an entry is the identity or a user entry to a pool frame; the
      pool itself is mapped by the identity, for the kernel only. */
  ghost predicate DirOk(dir: seq<Pde>)
  {
    && |dir| == ENTRIES
    && (forall i :: 0 <= i < USER_END && dir[i].present && dir[i].pse ==>
      dir[i].frame == i || (InPool(dir[i].frame) && dir[i].user))
    && (forall i :: USER_END <= i < MAPPED ==> dir[i] == Pde(i, true, true, false, true))
    && (forall i :: USER_END <= i < ENTRIES ==> !dir[i].user)
  }

  /** Every frame of the pool in use has one user entry of one live directory, or is the one that
      the operation under way holds. */
  ghost predicate PoolOk(dirs: seq<seq<Pde>>, live: seq<bool>, used: seq<bool>, pend: int)
  {
    && |dirs| == |live| == DIRS && |used| == FRAMES
    && forall p :: 0 <= p < FRAMES ==> UsesAll(dirs, live, USER_END + p) + Bit(p == pend) == Bit(used[p])
  }

  lemma PoolChange(dirs: seq<seq<Pde>>, live: seq<bool>, used: seq<bool>, pend: int, d: nat, dir: seq<Pde>,
      used': seq<bool>, pend': int)
    requires PoolOk(dirs, live, used, pend) && d < DIRS && live[d] && |used'| == FRAMES
    requires forall p :: 0 <= p < FRAMES ==>
               Uses(dir, USER_END + p) + Bit(p == pend') + Bit(used[p]) ==
                 Uses(dirs[d], USER_END + p) + Bit(p == pend) + Bit(used'[p])
    ensures PoolOk(dirs[d := dir], live, used', pend')
  {
    forall p | 0 <= p < FRAMES
      ensures UsesAll(dirs[d := dir], live, USER_END + p) + Bit(p == pend') == Bit(used'[p])
    {
      UsesAllUpdate(dirs, live, d, dir, true, USER_END + p);
      assert live[d := true] == live;
    }
  }

  // One entry of a live directory changes from e0 to e.
  lemma EntryChange(dirs: seq<seq<Pde>>, live: seq<bool>, used: seq<bool>, pend: int, d: nat, i: nat, e: Pde,
      used': seq<bool>, pend': int)
    requires PoolOk(dirs, live, used, pend) && d < DIRS && live[d] && |used'| == FRAMES && i < |dirs[d]|
    requires forall p :: 0 <= p < FRAMES ==>
               Bit(IsUser(e) && e.frame == USER_END + p) + Bit(p == pend') + Bit(used[p]) ==
               Bit(IsUser(dirs[d][i]) && dirs[d][i].frame == USER_END + p) + Bit(p == pend) + Bit(used'[p])
    ensures PoolOk(dirs[d := dirs[d][i := e]], live, used', pend')
  {
    forall p | 0 <= p < FRAMES
      ensures Uses(dirs[d][i := e], USER_END + p) + Bit(p == pend') + Bit(used[p]) ==
                Uses(dirs[d], USER_END + p) + Bit(p == pend) + Bit(used'[p])
    {
      UsesUpdate(dirs[d], i, e, USER_END + p);
    }
    PoolChange(dirs, live, used, pend, d, dirs[d][i := e], used', pend');
  }

  /** Two user entries of live directories do not share a pool frame. */
  lemma Exclusive(dirs: seq<seq<Pde>>, live: seq<bool>, used: seq<bool>, pend: int, c: nat, i: nat, d: nat, j: nat)
    requires PoolOk(dirs, live, used, pend) && c < DIRS && d < DIRS && live[c] && live[d] && i < |dirs[c]|
    requires j < |dirs[d]|
    requires (c, i) != (d, j) && IsUser(dirs[c][i]) && IsUser(dirs[d][j]) && InPool(dirs[c][i].frame)
    ensures dirs[c][i].frame != dirs[d][j].frame && dirs[c][i].frame - USER_END != pend
  {
    var f := dirs[c][i].frame;
    var x := Pde(0, false, false, false, false);
    var dir := dirs[c][i := x];
    assert UsesAll(dirs, live, f) + Bit(f - USER_END == pend) == Bit(used[f - USER_END]);
    UsesUpdate(dirs[c], i, x, f);
    UsesAllUpdate(dirs, live, c, dir, true, f);
    assert live[c := true] == live;
    var ds := dirs[c := dir];
    UsesUpdate(ds[d], j, x, f);
    UsesAllUpdate(ds, live, d, ds[d], true, f);
    assert live[d := true] == live;
  }

  const BLANK: Pde := Pde(0, false, false, false, false)

  /** The identity entry of paging_fill_supervisor. */
  function Supervisor(i: nat): Pde { Pde(i, true, true, false, true) }

  /** The address of a user page's frame leads to that frame in the same directory, so that the kernel
      can copy it while the directory is loaded. */
  lemma ReachedByIdentity(dir: seq<Pde>, i: nat)
    requires DirOk(dir) && i < ENTRIES && IsUser(dir[i])
    ensures i < USER_END && dir[i].frame < MAPPED && dir[dir[i].frame].present
    ensures dir[dir[i].frame].frame == dir[i].frame
  {
  }

  /** Only frame f changed. */
  ghost predicate OnlyFrame(m: seq<u8>, m': seq<u8>, f: nat)
  {
    |m| == |m'| == MAPPED * PAGE && forall g :: 0 <= g < MAPPED && g != f ==> Page(m', g) == Page(m, g)
  }

  lemma OtherFrames(m: seq<u8>, m': seq<u8>, f: nat)
    requires |m| == |m'| == MAPPED * PAGE && f < MAPPED
    requires forall t :: 0 <= t < |m| && (t < f * PAGE || f * PAGE + PAGE <= t) ==> m'[t] == m[t]
    ensures OnlyFrame(m, m', f)
  {
    forall g | 0 <= g < MAPPED && g != f
      ensures Page(m', g) == Page(m, g)
    {
    }
  }

  /** The first n entries are gone. */
  ghost function Cleared(dir: seq<Pde>, n: nat): seq<Pde>
  {
    seq(|dir|, i requires 0 <= i < |dir| => if i < n then BLANK else dir[i])
  }

  // A frame with a user entry is marked in use.
  lemma FrameInUse(dirs: seq<seq<Pde>>, live: seq<bool>, used: seq<bool>, d: nat, i: nat)
    requires PoolOk(dirs, live, used, -1) && d < DIRS && live[d] && i < |dirs[d]| && IsUser(dirs[d][i])
    requires InPool(dirs[d][i].frame)
    ensures used[dirs[d][i].frame - USER_END]
  {
    var f := dirs[d][i].frame;
    UsesUpdate(dirs[d], i, BLANK, f);
    UsesAllUpdate(dirs, live, d, dirs[d], true, f);
    assert UsesAll(dirs, live, f) + Bit(f - USER_END == -1) == Bit(used[f - USER_END]);
  }

  // A directory dies; without its user pages the pool was right.
  lemma DeadDirKeeps(dirs: seq<seq<Pde>>, live: seq<bool>, used: seq<bool>, d: nat, blank: seq<Pde>)
    requires |dirs| == DIRS && d < DIRS && PoolOk(dirs[d := blank], live, used, -1) && live[d]
    requires forall i :: 0 <= i < |blank| ==> !IsUser(blank[i])
    ensures PoolOk(dirs, live[d := false], used, -1)
  {
    forall p | 0 <= p < FRAMES
      ensures UsesAll(dirs, live[d := false], USER_END + p) + Bit(p == -1) == Bit(used[p])
    {
      var ds := dirs[d := blank];
      assert UsesAll(ds, live, USER_END + p) + Bit(p == -1) == Bit(used[p]);
      NoUses(blank, USER_END + p);
      UsesAllUpdate(ds, live, d, dirs[d], false, USER_END + p);
      assert ds[d := dirs[d]] == dirs;
    }
  }

  /** Entry i of dst refers to a frame f that was free, with the contents of the frame of entry i of src. */
  ghost predicate CopiedTo(dirs: seq<seq<Pde>>, dirs': seq<seq<Pde>>, used: seq<bool>, used': seq<bool>, m: seq<u8>,
      m': seq<u8>,
                           src: nat, dst: nat, i: nat)
  {
    && |dirs| == |dirs'| == DIRS && |used| == FRAMES && src < DIRS && dst < DIRS && i < |dirs[src]| && i < |dirs[dst]|
    && i < |dirs'[dst]|
    && dirs[src][i].frame < MAPPED && |m| == MAPPED * PAGE
    && var f := dirs'[dst][i].frame;
       && InPool(f) && !used[f - USER_END] && used' == used[f - USER_END := true]
       && dirs' == dirs[dst := dirs[dst][i := dirs[src][i].(frame := f)]]
       && OnlyFrame(m, m', f) && Page(m', f) == Page(m, dirs[src][i].frame)
  }

  /** Frames outside the pool, and those in use at the start, keep their contents. */
  ghost predicate UsedKept(m: seq<u8>, m': seq<u8>, used: seq<bool>)
    requires |used| == FRAMES
  {
    |m| == |m'| == MAPPED * PAGE && forall f :: 0 <= f < MAPPED && (InPool(f) ==> used[f - USER_END]) ==>
      Page(m', f) == Page(m, f)
  }

  /** Entry e is copied as x: a user page to a frame that was free, with the same contents. */
  ghost predicate EntryCloned(e: Pde, x: Pde, m0: seq<u8>, m: seq<u8>, used0: seq<bool>, used: seq<bool>)
    requires |m0| == |m| == MAPPED * PAGE && |used0| == |used| == FRAMES
  {
    if IsUser(e) then
      && InPool(x.frame) && !used0[x.frame - USER_END] && used[x.frame - USER_END] && x == e.(frame := x.frame)
      && e.frame < MAPPED && (InPool(e.frame) ==> used0[e.frame - USER_END]) && Page(m, x.frame) == Page(m0, e.frame)
    else x == e
  }

  /** The first i entries of s are copied to x. */
  ghost predicate Cloning(s: seq<Pde>, x: seq<Pde>, m0: seq<u8>, m: seq<u8>, used0: seq<bool>, used: seq<bool>, i: nat)
  {
    && |s| == |x| == ENTRIES && |used0| == |used| == FRAMES && UsedKept(m0, m, used0)
    && (forall p :: 0 <= p < FRAMES && used0[p] ==> used[p])
    && (forall j :: 0 <= j < ENTRIES && IsUser(s[j]) ==>
      s[j].frame < MAPPED && (InPool(s[j].frame) ==> used0[s[j].frame - USER_END]))
    && (forall j :: 0 <= j < i && j < ENTRIES ==> EntryCloned(s[j], x[j], m0, m, used0, used))
    && (forall j :: i <= j < ENTRIES ==> !x[j].user)
  }

  /** Live directories are as before. */
  ghost predicate Same(dirs: seq<seq<Pde>>, dirs': seq<seq<Pde>>, live: seq<bool>)
  {
    |dirs'| == |dirs| == |live| && forall d :: 0 <= d < |live| && live[d] ==> dirs'[d] == dirs[d]
  }

  lemma SourceInUse(dirs: seq<seq<Pde>>, live: seq<bool>, used: seq<bool>, d: nat)
    requires PoolOk(dirs, live, used, -1) && d < DIRS && live[d] && DirOk(dirs[d])
    ensures forall j :: 0 <= j < ENTRIES && IsUser(dirs[d][j]) ==>
              dirs[d][j].frame < MAPPED && (InPool(dirs[d][j].frame) ==> used[dirs[d][j].frame - USER_END])
  {
    forall j | 0 <= j < ENTRIES && IsUser(dirs[d][j])
      ensures dirs[d][j].frame < MAPPED && (InPool(dirs[d][j].frame) ==> used[dirs[d][j].frame - USER_END])
    {
      ReachedByIdentity(dirs[d], j);
      if InPool(dirs[d][j].frame) { FrameInUse(dirs, live, used, d, j); }
    }
  }

  lemma {:induction false} UsesAllSame(dirs: seq<seq<Pde>>, dirs': seq<seq<Pde>>, live: seq<bool>, f: nat)
    requires Same(dirs, dirs', live)
    ensures UsesAll(dirs', live, f) == UsesAll(dirs, live, f)
  {
    if |dirs| != 0 {
      forall d | 0 <= d < |live| - 1 && live[1..][d]
        ensures dirs'[1..][d] == dirs[1..][d]
      {
        assert live[d + 1];
      }
      UsesAllSame(dirs[1..], dirs'[1..], live[1..], f);
    }
  }

  /** The live directories determine which frames are in use. */
  lemma SameUsed(dirs: seq<seq<Pde>>, dirs': seq<seq<Pde>>, live: seq<bool>, used: seq<bool>, used': seq<bool>)
    requires PoolOk(dirs, live, used, -1) && PoolOk(dirs', live, used', -1) && Same(dirs, dirs', live)
    ensures used' == used
  {
    forall p | 0 <= p < FRAMES
      ensures used'[p] == used[p]
    {
      UsesAllSame(dirs, dirs', live, USER_END + p);
      assert UsesAll(dirs, live, USER_END + p) + Bit(p == -1) == Bit(used[p]);
      assert UsesAll(dirs', live, USER_END + p) + Bit(p == -1) == Bit(used'[p]);
    }
  }

  // One more entry; frame f was not in use, so none of the earlier copies is in it.
  lemma CloningNext(s: seq<Pde>, x: seq<Pde>, x': seq<Pde>, m0: seq<u8>, m: seq<u8>, m': seq<u8>,
                    used0: seq<bool>, used: seq<bool>, used': seq<bool>, i: nat)
    requires Cloning(s, x, m0, m, used0, used, i) && i < ENTRIES && |m'| == |m| && |used'| == FRAMES
    requires |x'| == ENTRIES && x' == x[i := x'[i]]
    requires if IsUser(s[i]) then
               var f := x'[i].frame;
               && InPool(f) && !used[f - USER_END] && used' == used[f - USER_END := true] && x'[i] == s[i].(frame := f)
               && OnlyFrame(m, m', f) && Page(m', f) == Page(m, s[i].frame)
             else x'[i] == s[i] && used' == used && m' == m
    ensures Cloning(s, x', m0, m', used0, used', i + 1)
  {
    forall j | 0 <= j <= i
      ensures EntryCloned(s[j], x'[j], m0, m', used0, used')
    {
      if j < i { assert EntryCloned(s[j], x[j], m0, m, used0, used); }
    }
  }

  // ----- isolation -----

  /** The byte that user code sees at address va. */
  function UserByte(dir: seq<Pde>, m: seq<u8>, va: nat): u8
    requires |dir| == ENTRIES && |m| == MAPPED * PAGE && va < ENTRIES * PAGE && IsUser(dir[va / PAGE])
    requires dir[va / PAGE].frame < MAPPED
  {
    m[dir[va / PAGE].frame * PAGE + va % PAGE]
  }

  /** Where user code writes at address va. */
  function UserPlace(dir: seq<Pde>, va: nat): nat
    requires |dir| == ENTRIES && va < ENTRIES * PAGE
  {
    dir[va / PAGE].frame * PAGE + va % PAGE
  }

  /** After a deep copy both directories show the same bytes at every user address. */
  lemma CloneEqual(s: seq<Pde>, x: seq<Pde>, m0: seq<u8>, m: seq<u8>, used0: seq<bool>, used: seq<bool>, va: nat)
    requires Cloning(s, x, m0, m, used0, used, ENTRIES) && va < ENTRIES * PAGE
    ensures IsUser(x[va / PAGE]) <==> IsUser(s[va / PAGE])
    ensures IsUser(s[va / PAGE]) ==> UserByte(x, m, va) == UserByte(s, m0, va) == UserByte(s, m, va)
  {
    var i, o := va / PAGE, va % PAGE;
    assert EntryCloned(s[i], x[i], m0, m, used0, used);
    if IsUser(s[i]) {
      assert Page(m, x[i].frame)[o] == Page(m0, s[i].frame)[o] == Page(m, s[i].frame)[o];
    }
  }

  /** No user page of one directory is in a frame of the other. */
  ghost predicate Apart(s: seq<Pde>, x: seq<Pde>)
  {
    && |s| == |x| == ENTRIES
    && (forall i :: 0 <= i < ENTRIES && IsUser(s[i]) ==> s[i].frame < MAPPED)
    && (forall j :: 0 <= j < ENTRIES && IsUser(x[j]) ==> x[j].frame < MAPPED)
    && (forall i, j :: 0 <= i < ENTRIES && 0 <= j < ENTRIES && IsUser(s[i]) && IsUser(x[j]) ==>
      s[i].frame != x[j].frame)
  }

  lemma CloneApart(s: seq<Pde>, x: seq<Pde>, m0: seq<u8>, m: seq<u8>, used0: seq<bool>, used: seq<bool>)
    requires Cloning(s, x, m0, m, used0, used, ENTRIES)
    ensures Apart(s, x)
  {
    forall j | 0 <= j < ENTRIES
      ensures EntryCloned(s[j], x[j], m0, m, used0, used)
    {
    }
  }

  /** A byte that user code writes through the copy or the original. */
  datatype Poke = Poke(copy: bool, va: nat, b: u8)

  predicate Mapped(dir: seq<Pde>, va: nat)
  {
    |dir| == ENTRIES && va < ENTRIES * PAGE && IsUser(dir[va / PAGE]) && dir[va / PAGE].frame < MAPPED
  }

  ghost predicate Pokes(s: seq<Pde>, x: seq<Pde>, ws: seq<Poke>)
  {
    forall k :: 0 <= k < |ws| ==> Mapped(if ws[k].copy then x else s, ws[k].va)
  }

  lemma PlaceInside(dir: seq<Pde>, va: nat)
    requires Mapped(dir, va)
    ensures UserPlace(dir, va) < MAPPED * PAGE
  {
  }

  /** The memory after a run of writes. */
  ghost function Poked(s: seq<Pde>, x: seq<Pde>, m: seq<u8>, ws: seq<Poke>): (r: seq<u8>)
    requires |m| == MAPPED * PAGE && Pokes(s, x, ws)
    ensures |r| == |m|
  {
    if |ws| == 0 then m
    else
      var n := |ws| - 1;
      var dir := if ws[n].copy then x else s;
      PlaceInside(dir, ws[n].va);
      Poked(s, x, m, ws[..n])[UserPlace(dir, ws[n].va) := ws[n].b]
  }

  /** The writes of a run that went through one of the two. */
  ghost function Through(ws: seq<Poke>, copy: bool): seq<Poke>
  {
    if |ws| == 0 then []
    else Through(ws[..|ws| - 1], copy) + if ws[|ws| - 1].copy == copy then [ws[|ws| - 1]] else []
  }

  lemma {:induction false} ThroughPokes(s: seq<Pde>, x: seq<Pde>, ws: seq<Poke>, copy: bool)
    requires Pokes(s, x, ws)
    ensures Pokes(s, x, Through(ws, copy))
  {
    if |ws| != 0 { ThroughPokes(s, x, ws[..|ws| - 1], copy); }
  }

  // A write through one directory is not seen through the other.
  lemma OneWrite(s: seq<Pde>, x: seq<Pde>, m: seq<u8>, va: nat, wa: nat, b: u8)
    requires Mapped(s, va) && Mapped(x, wa) && |m| == MAPPED * PAGE && s[va / PAGE].frame != x[wa / PAGE].frame
    ensures UserPlace(s, va) < |m| && UserByte(x, m[UserPlace(s, va) := b], wa) == UserByte(x, m, wa)
  {
  }

  // A write through the same directory hits the same place of two memories.
  lemma SameWrite(dir: seq<Pde>, m: seq<u8>, m': seq<u8>, va: nat, wa: nat, b: u8)
    requires Mapped(dir, va) && Mapped(dir, wa) && |m| == |m'| == MAPPED * PAGE
    requires UserByte(dir, m, wa) == UserByte(dir, m', wa)
    ensures UserPlace(dir, va) < |m|
    ensures UserByte(dir, m[UserPlace(dir, va) := b], wa) == UserByte(dir, m'[UserPlace(dir, va) := b], wa)
  {
  }

  // One more write, of two memories or of the first alone.
  lemma NextWrite(s: seq<Pde>, x: seq<Pde>, m: seq<u8>, m': seq<u8>, w: Poke, copy: bool, wa: nat)
    requires Apart(s, x) && |m| == |m'| == MAPPED * PAGE && Mapped(if w.copy then x else s, w.va)
    requires Mapped(if copy then x else s, wa)
    requires var dir := if copy then x else s; UserByte(dir, m, wa) == UserByte(dir, m', wa)
    ensures var dir, at := if copy then x else s, UserPlace(if w.copy then x else s, w.va);
            && at < |m|
            && UserByte(dir, m[at := w.b], wa) == UserByte(dir, if w.copy == copy then m'[at := w.b] else m', wa)
  {
    if w.copy == copy {
      SameWrite(if copy then x else s, m, m', w.va, wa, w.b);
    } else {
      OneWrite(if w.copy then x else s, if copy then x else s, m, w.va, wa, w.b);
    }
  }

  lemma PokedNext(s: seq<Pde>, x: seq<Pde>, m: seq<u8>, ws: seq<Poke>, w: Poke)
    requires |m| == MAPPED * PAGE && Pokes(s, x, ws) && Mapped(if w.copy then x else s, w.va)
    ensures Pokes(s, x, ws + [w]) && UserPlace(if w.copy then x else s, w.va) < |m|
    ensures Poked(s, x, m, ws + [w]) == Poked(s, x, m, ws)[UserPlace(if w.copy then x else s, w.va) := w.b]
  {
    assert (ws + [w])[..|ws|] == ws;
    PlaceInside(if w.copy then x else s, w.va);
  }

  /** Whatever is written through the two from then on, in any order, each shows at every address
      what it would show had nothing been written through the other. */
  lemma {:induction false} Isolated(s: seq<Pde>, x: seq<Pde>, m: seq<u8>, ws: seq<Poke>, copy: bool, wa: nat)
    requires Apart(s, x) && |m| == MAPPED * PAGE && Pokes(s, x, ws) && Mapped(if copy then x else s, wa)
    ensures Pokes(s, x, Through(ws, copy))
    ensures var dir := if copy then x else s;
            UserByte(dir, Poked(s, x, m, ws), wa) == UserByte(dir, Poked(s, x, m, Through(ws, copy)), wa)
    decreases |ws|
  {
    ThroughPokes(s, x, ws, copy);
    if |ws| != 0 {
      var p, w := ws[..|ws| - 1], ws[|ws| - 1];
      var mine := Through(p, copy);
      Isolated(s, x, m, p, copy, wa);
      assert ws == p + [w];
      PokedNext(s, x, m, p, w);
      PokedNext(s, x, m, mine, w);
      NextWrite(s, x, Poked(s, x, m, p), Poked(s, x, m, mine), w, copy, wa);
      assert Through(ws, copy) == if w.copy == copy then mine + [w] else mine;
    }
  }

  /** After a deep copy no run of writes through one of the directories is seen through the other. */
  lemma CloneIsolated(s: seq<Pde>, x: seq<Pde>, m0: seq<u8>, m: seq<u8>, used0: seq<bool>, used: seq<bool>,
      ws: seq<Poke>, copy: bool, wa: nat)
    requires Cloning(s, x, m0, m, used0, used, ENTRIES) && Pokes(s, x, ws) && Mapped(if copy then x else s, wa)
    ensures Pokes(s, x, Through(ws, copy))
    ensures var dir := if copy then x else s;
            UserByte(dir, Poked(s, x, m, ws), wa) == UserByte(dir, Poked(s, x, m, Through(ws, copy)), wa)
  {
    CloneApart(s, x, m0, m, used0, used);
    Isolated(s, x, m, ws, copy, wa);
  }

  /** In every state, a write through a user page in a pool frame is seen through no other live directory. */
  lemma LiveIsolated(dirs: seq<seq<Pde>>, live: seq<bool>, used: seq<bool>, pend: int, c: nat, d: nat, m: seq<u8>,
      va: nat, wa: nat, b: u8)
    requires PoolOk(dirs, live, used, pend) && c < DIRS && d < DIRS && c != d && live[c] && live[d]
    requires |m| == MAPPED * PAGE
    requires Mapped(dirs[c], va) && Mapped(dirs[d], wa) && InPool(dirs[c][va / PAGE].frame)
    ensures UserPlace(dirs[c], va) < |m|
    ensures UserByte(dirs[d], m[UserPlace(dirs[c], va) := b], wa) == UserByte(dirs[d], m, wa)
  {
    Exclusive(dirs, live, used, pend, c, va / PAGE, d, wa / PAGE);
    OneWrite(dirs[c], dirs[d], m, va, wa, b);
  }

  // ----- how many frames -----

  ghost function FreeCount(used: seq<bool>): nat
  {
    if |used| == 0 then 0 else Bit(!used[0]) + FreeCount(used[1..])
  }

  lemma {:induction false} FreeCountSet(used: seq<bool>, p: nat)
    requires p < |used| && !used[p]
    ensures FreeCount(used) == FreeCount(used[p := true]) + 1
  {
    if p == 0 {
      assert used[0 := true][1..] == used[1..];
    } else {
      assert used[p := true][1..] == used[1..][p - 1 := true];
      FreeCountSet(used[1..], p - 1);
    }
  }

  lemma {:induction false} NoneFree(used: seq<bool>)
    requires forall p :: 0 <= p < |used| ==> used[p]
    ensures FreeCount(used) == 0
  {
    if |used| != 0 { NoneFree(used[1..]); }
  }

  /** The user pages among the first n entries. */
  ghost function Pages(dir: seq<Pde>, n: nat): nat
    requires n <= |dir|
  {
    if n == 0 then 0 else Pages(dir, n - 1) + Bit(IsUser(dir[n - 1]))
  }

  lemma {:induction false} PagesGrow(dir: seq<Pde>, i: nat, n: nat)
    requires i <= n <= |dir|
    ensures Pages(dir, i) <= Pages(dir, n)
  {
    if i < n { PagesGrow(dir, i, n - 1); }
  }

  class Spaces {
    const dirs: array<seq<Pde>>   // g_asdirs
    const live: array<bool>       // g_asdir_used
    const used: array<bool>       // g_fork_frames
    const mem: array<u8>          // the first 128 MB
    const kernel: seq<Pde>        // g_page_dir
    var next: nat                 // g_fork_frame_next

    ghost predicate Shape()
      reads this, dirs, live, used, mem
    {
      && dirs.Length == DIRS == live.Length && used.Length == FRAMES && mem.Length == MAPPED * PAGE && next < FRAMES
      && |kernel| == ENTRIES && forall i :: 0 <= i < USER_END && kernel[i].present && kernel[i].pse ==>
        kernel[i].frame == i
    }

    ghost predicate Held(pend: int)
      reads this, dirs, live, used, mem
    {
      && Shape() && (forall d :: 0 <= d < DIRS && live[d] ==> DirOk(dirs[d]))
      && PoolOk(dirs[..], live[..], used[..], pend)
    }

    ghost predicate Valid()
      reads this, dirs, live, used, mem
    {
      Held(-1)
    }

    /** No process yet, and the whole pool free. */
    constructor (pageDir: seq<Pde>)
      requires |pageDir| == ENTRIES && forall i :: 0 <= i < USER_END && pageDir[i].present && pageDir[i].pse ==>
                pageDir[i].frame == i
      ensures Valid() && kernel == pageDir
      ensures (forall d :: 0 <= d < DIRS ==> !live[d]) && forall p :: 0 <= p < FRAMES ==> !used[p]
    {
      dirs := new seq<Pde>[DIRS](_ => []);
      live := new bool[DIRS](_ => false);
      used := new bool[FRAMES](_ => false);
      mem := new u8[MAPPED * PAGE](_ => 0);
      kernel, next := pageDir, 0;
      new;
      forall f: nat
        ensures UsesAll(dirs[..], live[..], f) == 0
      {
        NobodyLive(dirs[..], live[..], f);
      }
    }

    // ----- the pool -----

    /** fork_frame_alloc: a frame that is not in use, if there is one. */
    method FrameAlloc() returns (p: int)
      requires Valid()
      modifies this`next, used
      ensures -1 <= p < FRAMES && Held(p)
      ensures p >= 0 ==> !old(used[p]) && used[..] == old(used[..])[p := true]
      ensures p == -1 ==> used[..] == old(used[..]) && forall q :: 0 <= q < FRAMES ==> used[q]
    {
      for i := 0 to FRAMES
        invariant forall j :: 0 <= j < i ==> used[Nth(next, j)]
      {
        var idx := (next + i) % FRAMES;
        if !used[idx] {
          used[idx] := true;
          assert used[..] == old(used[..])[idx := true];
          next := (idx + 1) % FRAMES;
          return idx;
        }
      }
      forall q | 0 <= q < FRAMES
        ensures used[q]
      {
        var j := if q >= next then q - next else q + FRAMES - next;
        assert Nth(next, j) == q;
      }
      return -1;
    }

    // ... and one free frame less.
    method FrameTake() returns (p: int)
      requires Valid()
      modifies this`next, used
      ensures -1 <= p < FRAMES && Held(p)
      ensures p >= 0 ==> !old(used[p]) && used[..] == old(used[..])[p := true]
      ensures old(FreeCount(used[..])) == FreeCount(used[..]) + Bit(p >= 0)
      ensures p == -1 ==> used[..] == old(used[..]) && FreeCount(used[..]) == 0
    {
      p := FrameAlloc();
      if p < 0 { NoneFree(used[..]); } else { FreeCountSet(old(used[..]), p); }
    }

    /** fork_frame_free */
    method FrameFree(f: nat)
      requires Shape()
      modifies used
      ensures used[..] == if InPool(f) then old(used[..])[f - USER_END := false] else old(used[..])
    {
      if InPool(f) { used[f - USER_END] := false; }
    }

    method SetDir(d: nat, dir: seq<Pde>)
      requires dirs.Length == DIRS && d < DIRS
      modifies dirs
      ensures dirs[..] == old(dirs[..])[d := dir]
    {
      dirs[d] := dir;
    }

    // Entry i of a directory becomes a user entry to the frame p that the operation holds.
    method Attach(d: nat, i: nat, x: Pde, ghost p: int)
      requires Held(p) && 0 <= p < FRAMES && d < DIRS && live[d] && i < USER_END && IsUser(x) && x.frame == USER_END + p
      requires !(IsUser(dirs[d][i]) && InPool(dirs[d][i].frame))
      modifies dirs
      ensures Valid() && dirs[..] == old(dirs[..])[d := old(dirs[d])[i := x]]
    {
      EntryChange(dirs[..], live[..], used[..], p, d, i, x, used[..], -1);
      SetDir(d, dirs[d][i := x]);
    }

    // ----- directories -----

    /** paging_create_identity_dir: a new directory without user pages. */
    method CreateDir() returns (d: int)
      requires Valid()
      modifies dirs, live
      ensures Valid() && -1 <= d < DIRS
      ensures d >= 0 ==>
                !old(live[d]) && live[..] == old(live[..])[d := true] && dirs[..] == old(dirs[..])[d := dirs[d]]
      ensures d >= 0 ==> |dirs[d]| == ENTRIES
                         && forall i :: 0 <= i < ENTRIES ==>
                           dirs[d][i] == if i < MAPPED then Supervisor(i) else kernel[i].(user := false)
      ensures d == -1 ==>
                live[..] == old(live[..]) && dirs[..] == old(dirs[..]) && forall k :: 0 <= k < DIRS ==> live[k]
    {
      for i := 0 to DIRS
        invariant forall k :: 0 <= k < i ==> live[k]
      {
        if !live[i] {
          var dir := seq(ENTRIES, j requires 0 <= j < ENTRIES =>
            if j < MAPPED then Supervisor(j) else kernel[j].(user := false));
          NewDirKeeps(dirs[..], live[..], used[..], i, dir);
          live[i] := true;
          assert live[..] == old(live[..])[i := true];
          SetDir(i, dir);
          return i;
        }
      }
      return -1;
    }

    /** paging_mark_user_pde, for pages below the pool. */
    method MarkUser(d: nat, i: nat)
      requires Valid() && d < DIRS && live[d] && i < USER_END
      modifies dirs
      ensures Valid() && dirs[..] == old(dirs[..])[d := old(dirs[d])[i := old(dirs[d])[i].(user := true)]]
    {
      var e := dirs[d][i];
      EntryChange(dirs[..], live[..], used[..], -1, d, i, e.(user := true), used[..], -1);
      SetDir(d, dirs[d][i := e.(user := true)]);
    }

    // The byte loop that copies a frame.
    method CopyFrame(dst: nat, src: nat)
      requires mem.Length == MAPPED * PAGE && dst < MAPPED && src < MAPPED && dst != src
      modifies mem
      ensures OnlyFrame(old(mem[..]), mem[..], dst) && Page(mem[..], dst) == Page(old(mem[..]), src)
    {
      ghost var m := mem[..];
      var d, s := dst * PAGE, src * PAGE;
      for k := 0 to PAGE
        invariant forall t :: 0 <= t < mem.Length && (t < d || d + k <= t) ==> mem[t] == m[t]
        invariant mem[d..d + k] == m[s..s + k]
      {
        assert mem[s + k] == m[s + k];
        mem[d + k] := mem[s + k];
        assert mem[d..d + k + 1] == mem[d..d + k] + [m[s + k]];
        assert m[s..s + k + 1] == m[s..s + k] + [m[s + k]];
      }
      assert Page(mem[..], dst) == mem[d..d + PAGE];
      OtherFrames(m, mem[..], dst);
    }

    /** paging_privatize_user_pde: entry i gets a frame of its own with what the kernel sees at the
        page's address, which the loaded directory maps to frame `at`. */
    method Privatize(d: nat, i: nat, at: nat) returns (rc: int)
      requires Valid() && d < DIRS && live[d] && i < USER_END && at < MAPPED && (InPool(at) ==> used[at - USER_END])
      modifies this`next, dirs, used, mem
      ensures Valid() && (rc == 0 || rc == -1) && (rc == -1 ==> dirs[..] == old(dirs[..]) && mem[..] == old(mem[..]))
      ensures rc == 0 && InPool(old(dirs[d])[i].frame) ==>
                dirs[..] == old(dirs[..]) && mem[..] == old(mem[..]) && used[..] == old(used[..])
      ensures rc == 0 && !InPool(old(dirs[d])[i].frame) ==>
                var f := dirs[d][i].frame;
                && InPool(f) && !old(used[f - USER_END])
                && dirs[..] == old(dirs[..])[d := old(dirs[d])[i := old(dirs[d])[i].(frame := f, user := true)]]
                && OnlyFrame(old(mem[..]), mem[..], f) && Page(mem[..], f) == Page(old(mem[..]), at)
    {
      var e := dirs[d][i];
      if !e.present || !e.pse { return -1; }
      if InPool(e.frame) { return 0; }
      var p := FrameAlloc();
      if p < 0 { return -1; }
      CopyFrame(USER_END + p, at);
      Attach(d, i, e.(frame := USER_END + p, user := true), p);
      return 0;
    }

    /** paging_free_pde_frame, for pages below the pool. */
    method FreePde(d: nat, i: nat)
      requires Valid() && d < DIRS && live[d] && i < USER_END
      modifies dirs, used
      ensures Valid() && dirs[..] == old(dirs[..])[d := old(dirs[d])[i := kernel[i].(user := false)]]
      ensures var e := old(dirs[d])[i];
              used[..] == if e.present && e.pse && InPool(e.frame) then old(used[..])[e.frame - USER_END := false]
                          else old(used[..])
    {
      var e := dirs[d][i];
      ghost var u := used[..];
      if e.present && e.pse {
        if InPool(e.frame) {
          FrameInUse(dirs[..], live[..], used[..], d, i);
          FrameFree(e.frame);
        }
      }
      EntryChange(dirs[..], live[..], u, -1, d, i, kernel[i].(user := false), used[..], -1);
      SetDir(d, dirs[d][i := kernel[i].(user := false)]);
    }

    /** paging_free_dir: the frames of all user pages are given back. */
    method FreeDir(d: nat)
      requires Valid() && d < DIRS && live[d]
      modifies live, used
      ensures Valid() && live[..] == old(live[..])[d := false]
    {
      ghost var dir := dirs[d];
      assert Cleared(dir, 0) == dir;
      assert dirs[..][d := dir] == dirs[..];
      for i := 0 to ENTRIES
        invariant Shape() && live[..] == old(live[..]) && PoolOk(dirs[..][d := Cleared(dir, i)], live[..], used[..], -1)
      {
        var e := dirs[d][i];
        ghost var ds, u := dirs[..][d := Cleared(dir, i)], used[..];
        if IsUser(e) {
          if InPool(e.frame) { FrameInUse(ds, live[..], u, d, i); }
          FrameFree(e.frame);
        }
        EntryChange(ds, live[..], u, -1, d, i, BLANK, used[..], -1);
        assert Cleared(dir, i)[i := BLANK] == Cleared(dir, i + 1);
        assert ds[d := Cleared(dir, i + 1)] == dirs[..][d := Cleared(dir, i + 1)];
      }
      DeadDirKeeps(dirs[..], live[..], used[..], d, Cleared(dir, ENTRIES));
      live[d] := false;
      assert live[..] == old(live[..])[d := false];
    }

    // A user page of a deep copy: a new frame with the same contents.
    method CloneUser(src: nat, dst: nat, i: nat) returns (ok: bool)
      requires Valid() && src < DIRS && dst < DIRS && src != dst && live[src] && live[dst] && i < ENTRIES
      requires !dirs[dst][i].user
      requires IsUser(dirs[src][i])
      modifies this`next, dirs, used, mem
      ensures Valid() && (!ok ==> dirs[..] == old(dirs[..]) && used[..] == old(used[..]) && mem[..] == old(mem[..]))
      ensures ok ==> CopiedTo(old(dirs[..]), dirs[..], old(used[..]), used[..], old(mem[..]), mem[..], src, dst, i)
      ensures old(FreeCount(used[..])) == FreeCount(used[..]) + Bit(ok) && (!ok ==> FreeCount(used[..]) == 0)
    {
      var e := dirs[src][i];
      ReachedByIdentity(dirs[src], i);
      if InPool(e.frame) { FrameInUse(dirs[..], live[..], used[..], src, i); }
      var p := FrameTake();
      if p < 0 { return false; }
      CopyFrame(USER_END + p, e.frame);
      Attach(dst, i, e.(frame := USER_END + p), p);
      return true;
    }

    // One entry of a deep copy.
    method CloneEntry(src: nat, dst: nat, i: nat) returns (ok: bool)
      requires Valid() && src < DIRS && dst < DIRS && src != dst && live[src] && live[dst] && i < ENTRIES
      requires !dirs[dst][i].user
      modifies this`next, dirs, used, mem
      ensures Valid() && (!ok ==> dirs[..] == old(dirs[..]) && used[..] == old(used[..]) && mem[..] == old(mem[..]))
      ensures ok && IsUser(old(dirs[src])[i]) ==>
                CopiedTo(old(dirs[..]), dirs[..], old(used[..]), used[..], old(mem[..]), mem[..], src, dst, i)
      ensures ok && !IsUser(old(dirs[src])[i]) ==>
                dirs[..] == old(dirs[..])[dst := old(dirs[dst])[i := old(dirs[src])[i]]] && used[..] == old(used[..]) &&
                  mem[..] == old(mem[..])
      ensures old(FreeCount(used[..])) == FreeCount(used[..]) + Bit(ok && IsUser(old(dirs[src])[i]))
      ensures !ok ==> IsUser(old(dirs[src])[i]) && FreeCount(used[..]) == 0
    {
      var e := dirs[src][i];
      if !e.present || !e.user || !e.pse {
        EntryChange(dirs[..], live[..], used[..], -1, dst, i, e, used[..], -1);
        SetDir(dst, dirs[dst][i := e]);
        return true;
      }
      ok := CloneUser(src, dst, i);
    }

    /** paging_clone_dir_deep: a directory with the same user pages in frames of its own, or, if the
        directories or frames run out, nothing changes.  It fails exactly if all directories are live or
        fewer frames are free than there are user pages. */
    method CloneDeep(src: nat) returns (d: int)
      requires Valid() && src < DIRS && live[src]
      modifies this`next, dirs, live, used, mem
      ensures Valid() && -1 <= d < DIRS && Same(old(dirs[..]), dirs[..], old(live[..]))
      ensures d >= 0 ==> !old(live[d]) && live[..] == old(live[..])[d := true]
                         && Cloning(old(dirs[src]), dirs[d], old(mem[..]), mem[..], old(used[..]), used[..], ENTRIES)
      ensures d == -1 ==>
                live[..] == old(live[..]) && used[..] == old(used[..]) && UsedKept(old(mem[..]), mem[..], old(used[..]))
      ensures var free, need := old(FreeCount(used[..])), old(Pages(dirs[src], ENTRIES));
              d == -1 <==> (forall k :: 0 <= k < DIRS ==> old(live[k])) || free < need
    {
      d := CreateDir();
      if d < 0 { return; }
      var ok := CloneAll(src, d);
      if !ok {
        FreeDir(d);
        assert live[..] == old(live[..]);
        SameUsed(old(dirs[..]), dirs[..], live[..], old(used[..]), used[..]);
        return -1;
      }
    }

    // All entries of a deep copy, until the frames run out.
    method CloneAll(src: nat, d: nat) returns (ok: bool)
      requires Valid() && src < DIRS && d < DIRS && src != d && live[src] && live[d]
      requires forall i :: 0 <= i < ENTRIES ==> !dirs[d][i].user
      modifies this`next, dirs, used, mem
      ensures Valid() && dirs[..] == old(dirs[..])[d := dirs[d]] && UsedKept(old(mem[..]), mem[..], old(used[..]))
      ensures ok ==> Cloning(dirs[src], dirs[d], old(mem[..]), mem[..], old(used[..]), used[..], ENTRIES)
      ensures ok <==> old(FreeCount(used[..])) >= Pages(dirs[src], ENTRIES)
    {
      ghost var s := dirs[src];
      SourceInUse(dirs[..], live[..], used[..], src);
      for i := 0 to ENTRIES
        invariant Valid() && dirs[..] == old(dirs[..])[d := dirs[d]]
        invariant Cloning(s, dirs[d], old(mem[..]), mem[..], old(used[..]), used[..], i)
        invariant old(FreeCount(used[..])) == FreeCount(used[..]) + Pages(s, i)
      {
        PagesGrow(s, i + 1, ENTRIES);
        ok := CloneStep(src, d, i, old(mem[..]), old(used[..]));
        if !ok { return; }
      }
      ok := true;
    }

    // One more entry of a deep copy that began with memory m0 and frames u0.
    method CloneStep(src: nat, d: nat, i: nat, ghost m0: seq<u8>, ghost u0: seq<bool>) returns (ok: bool)
      requires Valid() && src < DIRS && d < DIRS && src != d && live[src] && live[d] && i < ENTRIES
      requires Cloning(dirs[src], dirs[d], m0, mem[..], u0, used[..], i)
      modifies this`next, dirs, used, mem
      ensures Valid() && dirs[..] == old(dirs[..])[d := dirs[d]] && UsedKept(m0, mem[..], u0)
      ensures ok ==> Cloning(dirs[src], dirs[d], m0, mem[..], u0, used[..], i + 1)
      ensures old(FreeCount(used[..])) == FreeCount(used[..]) + Bit(ok && IsUser(dirs[src][i]))
      ensures !ok ==> IsUser(dirs[src][i]) && FreeCount(used[..]) == 0
    {
      ghost var s, x, u, m := dirs[src], dirs[d], used[..], mem[..];
      ok := CloneEntry(src, d, i);
      if ok { CloningNext(s, x, dirs[d], m0, m, mem[..], u0, u, used[..], i); }
    }
  }

  lemma {:induction false} NobodyLive(dirs: seq<seq<Pde>>, live: seq<bool>, f: nat)
    requires |dirs| == |live| && forall d :: 0 <= d < |live| ==> !live[d]
    ensures UsesAll(dirs, live, f) == 0
  {
    if |dirs| != 0 { NobodyLive(dirs[1..], live[1..], f); }
  }

  function Nth(next: nat, j: nat): nat { (next + j) % FRAMES }

  // A directory without user pages comes to life.
  lemma NewDirKeeps(dirs: seq<seq<Pde>>, live: seq<bool>, used: seq<bool>, d: nat, dir: seq<Pde>)
    requires PoolOk(dirs, live, used, -1) && d < DIRS && !live[d] && forall i :: 0 <= i < |dir| ==> !IsUser(dir[i])
    ensures PoolOk(dirs[d := dir], live[d := true], used, -1)
  {
    forall p | 0 <= p < FRAMES
      ensures UsesAll(dirs[d := dir], live[d := true], USER_END + p) + Bit(p == -1) == Bit(used[p])
    {
      UsesAllUpdate(dirs, live, d, dir, true, USER_END + p);
      NoUses(dir, USER_END + p);
    }
  }
}
