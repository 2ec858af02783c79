/** The checker with repair, on volumes that lost sectors or have wrong link counts. */
module Repair {
  import opened Words
  import opened Disks
  import opened Extents
  import opened Ownership
  import opened Files
  import opened Dirents
  import opened Namespace
  import opened Fsck

  // ----- what the marks say -----

  /** How often an inode has sector s as data or as its indirect block. */
  ghost function Data(x: Inode, d: Disk, s: nat): nat
  {
    Cover(Exts(x, d), s) + Bit(x.indirect != 0 && x.indirect == s)
  }

  ghost predicate NoData(ins: seq<Inode>, d: Disk, s: nat)
  {
    forall j :: 0 <= j < |ins| ==> Data(ins[j], d, s) == 0
  }

  lemma MarksAreData(ins: seq<Inode>, d: Disk, total: u32, base: u32, used: set<nat>, leak: set<nat>, i: nat, s: nat)
    requires Balanced(ins, d, used, base, leak) && i < |ins| && total != 0 && used <= Range(0, total)
    ensures s in Marks(ins[i], d, total) <==> Data(ins[i], d, s) >= 1
  {
    var ls, es := Lbas(ins[i], d, total), Exts(ins[i], d);
    PartIsSector(ins, d, used, base, leak, i, total);
    if s in Nats(ls) {
      var k :| 0 <= k < |ls| && ls[k] == s;
      MapCovered(es, k);
    }
    if Cover(es, s) >= 1 {
      var k := CoveredIsMapped(es, s);
      assert ls[k] == s;
    }
  }

  lemma {:induction false} MarkedBy(ins: seq<Inode>, d: Disk, total: u32, base: u32, k: nat, s: nat) returns (j: nat)
    requires k <= |ins| && s >= base && s in MarkSet(ins, d, total, base, k)
    ensures 0 < j < k && s in Marks(ins[j], d, total)
  {
    var m := if k <= 1 then {} else MarkSet(ins, d, total, base, k - 1);
    if s in m {
      j := MarkedBy(ins, d, total, base, k - 1, s);
    } else {
      assert s !in Range(0, base);
      j := k - 1;
    }
  }

  // Above the metadata, the marks are the data of the inodes.
  lemma MarkedIsData(ins: seq<Inode>, d: Disk, total: u32, base: u32, used: set<nat>, leak: set<nat>, s: nat)
    requires Balanced(ins, d, used, base, leak) && total != 0 && used <= Range(0, total) && Shapes(ins) && s >= base
    requires !ins[0].occupied
    ensures s in MarkSet(ins, d, total, base, |ins|) <==> !NoData(ins, d, s)
  {
    if s in MarkSet(ins, d, total, base, |ins|) {
      var j := MarkedBy(ins, d, total, base, |ins|, s);
      MarksAreData(ins, d, total, base, used, leak, j, s);
    }
    if !NoData(ins, d, s) {
      var j :| 0 <= j < |ins| && Data(ins[j], d, s) != 0;
      MarksAreData(ins, d, total, base, used, leak, j, s);
      NothingOwned(ins[j], d, s);
      MarkSetHas(ins, d, total, base, j, |ins|);
    }
  }

  // ----- link counts -----

  /** What the second loop does to an inode with c records: without any it is cleared, and its
      attribute block forgotten. */
  function Fixed(x: Inode, c: nat): Inode
  {
    if !x.occupied then x else if c % 65536 == 0 then BLANK else x.(nlink := c % 65536)
  }

  /** The inodes below k are fixed, but never the root. */
  ghost predicate FixedBelow(ins: seq<Inode>, ins': seq<Inode>, counts: seq<nat>, k: nat)
    requires |ins| == |counts|
  {
    |ins'| == |ins| && forall n :: 0 <= n < |ins| ==> ins'[n] == if 1 < n < k then Fixed(ins[n], counts[n]) else ins[n]
  }

  lemma ForgetKeeps(ins: seq<Inode>, d: Disk, used: set<nat>, base: nat, leak: set<nat>, n: nat)
    requires Balanced(ins, d, used, base, leak) && n < |ins|
    requires ins[n].direct == BLANK.direct && ins[n].indirect == 0
    ensures Balanced(ins[n := BLANK], d, used, base, leak + (if ins[n].xattr == 0 then {} else {ins[n].xattr as nat}))
  {
    var x := ins[n];
    forall s: nat
      ensures Own(BLANK, d, s) == 0 && Cover(Exts(x, d), s) == 0
    {
      BlankOwns(d, s);
      assert Exts(x, d) == x.direct == Exts(BLANK, d);
    }
    if x.xattr != 0 { SoleOwner(ins, d, used, base, leak, n, x.xattr); }
    InodeKeeps(ins, d, used, base, leak, n, BLANK, d, leak + (if x.xattr == 0 then {} else {x.xattr as nat}));
  }

  // One inode of the second loop of fs_fsck.
  method FixLink(fs: Fs, n: nat, want: nat, ghost leak: set<nat>) returns (fixed: bool, ghost more: set<nat>)
    requires fs.Held(leak) && 1 < n < INODES && fs.inodes[n].occupied
    modifies fs`bitmap, fs`used, fs`inodes
    ensures fs.Held(leak + more) && fs.inodes == old(fs.inodes)[n := Fixed(old(fs.inodes)[n], want)]
    ensures more == (if want % 65536 == 0 && old(fs.inodes)[n].xattr != 0 then {old(fs.inodes)[n].xattr as nat} else {})
    ensures !fixed <==> LinkPass(old(fs.inodes)[n], want)
    ensures !fixed ==> fs.used == old(fs.used)
  {
    var x := fs.inodes[n];
    fixed, more := false, {};
    assert leak + {} == leak;
    if want % 65536 == 0 {
      fixed := true;
      more := if x.xattr != 0 then {x.xattr as nat} else {};
      fs.ClearExtents(n, leak);
      ForgetKeeps(fs.inodes, fs.disk, fs.used, fs.base, leak, n);
      fs.inodes := fs.inodes[n := BLANK];
    } else if x.nlink != want % 65536 {
      fixed := true;
      InodeKeeps(fs.inodes, fs.disk, fs.used, fs.base, leak, n, x.(nlink := want % 65536), fs.disk, leak);
      fs.inodes := fs.inodes[n := x.(nlink := want % 65536)];
    }
  }

  // Sectors that are in use, or were, but that nobody marks.
  ghost predicate Unmarked(ins: seq<Inode>, d: Disk, base: nat, leak: set<nat>)
  {
    forall s :: s in leak ==> s >= base && NoData(ins, d, s)
  }

  lemma LeakUnmarked(ins: seq<Inode>, d: Disk, used: set<nat>, base: nat, leak: set<nat>)
    requires Balanced(ins, d, used, base, leak)
    ensures Unmarked(ins, d, base, leak)
  {
    forall s | s in leak
      ensures s >= base && NoData(ins, d, s)
    {
      assert OwnAll(ins, d, s) + Bit(s in leak) == Bit(s in used && s >= base);
      forall j | 0 <= j < |ins|
        ensures Data(ins[j], d, s) == 0
      {
        OwnAllUpdate(ins, j, ins[j], d, s);
      }
    }
  }

  lemma XattrUnmarked(ins: seq<Inode>, d: Disk, used: set<nat>, base: nat, leak: set<nat>, n: nat)
    requires Balanced(ins, d, used, base, leak) && n < |ins| && ins[n].xattr != 0
    ensures ins[n].xattr >= base && NoData(ins, d, ins[n].xattr as nat)
  {
    SoleOwner(ins, d, used, base, leak, n, ins[n].xattr);
  }

  /** The second loop of fs_fsck has come to inode i: `lost` are sectors that nobody marks and that no inode
      has any more. */
  ghost predicate Fixing(fs: Fs, ins: seq<Inode>, counts: seq<nat>, lost: set<nat>, i: nat)
    requires |ins| == |counts|
    reads fs
  {
    fs.Held(lost) && FixedBelow(ins, fs.inodes, counts, i) && Unmarked(ins, fs.disk, fs.base, lost)
  }

  method FixNext(fs: Fs, counts: seq<nat>, i: nat, ghost ins: seq<Inode>, ghost used: set<nat>, ghost leak: set<nat>,
      ghost lost: set<nat>) returns (fixed: bool, ghost lost': set<nat>)
    requires |ins| == |counts| == INODES && 1 <= i < INODES && Fixing(fs, ins, counts, lost, i)
    requires Balanced(ins, fs.disk, used, fs.base, leak)
    modifies fs`bitmap, fs`used, fs`inodes
    ensures Fixing(fs, ins, counts, lost', i + 1)
    ensures !fixed <==> i == 1 || LinkPass(ins[i], counts[i])
    ensures !fixed ==> fs.used == old(fs.used)
  {
    fixed, lost' := false, lost;
    if fs.inodes[i].occupied && i != 1 {
      ghost var more;
      if fs.inodes[i].xattr != 0 { XattrUnmarked(ins, fs.disk, used, fs.base, leak, i); }
      fixed, more := FixLink(fs, i, counts[i], lost);
      lost' := lost + more;
    }
  }

  /** The second loop of fs_fsck. */
  method FixLinks(fs: Fs, counts: seq<nat>, ghost leak: set<nat>) returns (fixes: nat, ghost lost: set<nat>)
    requires fs.Held(leak) && |counts| == INODES
    modifies fs`bitmap, fs`used, fs`inodes
    ensures Fixing(fs, old(fs.inodes), counts, lost, INODES)
    ensures fixes == 0 <==> forall n :: 1 < n < INODES ==> LinkPass(old(fs.inodes)[n], counts[n])
    ensures fixes == 0 ==> fs.used == old(fs.used)
  {
    fixes, lost := 0, leak;
    LeakUnmarked(fs.inodes, fs.disk, fs.used, fs.base, leak);
    for i := 1 to INODES
      invariant Fixing(fs, old(fs.inodes), counts, lost, i)
      invariant fixes == 0 <==> forall n :: 1 < n < i ==> LinkPass(old(fs.inodes)[n], counts[n])
      invariant fixes == 0 ==> fs.used == old(fs.used)
    {
      var fixed;
      fixed, lost := FixNext(fs, counts, i, old(fs.inodes), old(fs.used), leak, lost);
      if fixed { fixes := fixes + 1; }
    }
  }

  // ----- stale bits -----

  /** The last loop of fs_fsck: bits from base on that nobody marked are cleared. */
  method ClearStale(fs: Fs, mark: seq<bool>, ghost m: set<nat>) returns (cleared: nat)
    requires BitmapOk(fs.bitmap, fs.used, fs.total) && |mark| == fs.total && MarkIs(mark, m)
    modifies fs`bitmap, fs`used
    ensures BitmapOk(fs.bitmap, fs.used, fs.total)
    ensures forall l: nat :: l in fs.used <==> l in old(fs.used) && (l < fs.base || l in m)
    ensures cleared == |old(fs.used)| - |fs.used|
    ensures cleared == 0 <==> forall l: nat :: l in old(fs.used) && l >= fs.base ==> l in m
  {
    cleared := 0;
    var i := fs.base;
    while i < fs.total
      invariant fs.base <= i && BitmapOk(fs.bitmap, fs.used, fs.total)
      invariant forall l: nat :: l in fs.used <==> l in old(fs.used) && (l < fs.base || l in m || l >= i)
      invariant cleared == |old(fs.used)| - |fs.used|
      invariant cleared == 0 <==> forall l: nat :: l in old(fs.used) && fs.base <= l < i ==> l in m
    {
      var bit := fs.BitmapTest(i);
      if !mark[i] && bit {
        fs.BitmapSet(i, false);
        cleared := cleared + 1;
      }
      i := i + 1;
    }
    assert forall l: nat :: l in old(fs.used) ==> l < fs.total;
  }

  ghost predicate NoXattr(ins: seq<Inode>)
  {
    forall j :: 0 <= j < |ins| ==> ins[j].xattr == 0
  }

  /** ins' is what is left of ins. */
  ghost predicate SubVolume(ins: seq<Inode>, ins': seq<Inode>)
  {
    && |ins'| == |ins|
    && forall j :: 0 <= j < |ins| ==>
         ins'[j] == BLANK ||
         (ins'[j].direct == ins[j].direct && ins'[j].indirect == ins[j].indirect && ins'[j].xattr == ins[j].xattr)
  }

  // One sector after the bits nobody marked were cleared.
  lemma SweptAt(ins: seq<Inode>, ins': seq<Inode>, d: Disk, used: set<nat>, base: nat, lost: set<nat>, m: set<nat>,
      s: nat)
    requires SubVolume(ins, ins') && Balanced(ins', d, used, base, lost) && Unmarked(ins, d, base, lost)
    requires NoXattr(ins')
    requires s >= base ==> (s in m <==> !NoData(ins, d, s))
    ensures OwnAll(ins', d, s) == Bit(s in used && s >= base && s in m)
  {
    assert OwnAll(ins', d, s) + Bit(s in lost) == Bit(s in used && s >= base);
    if OwnAll(ins', d, s) >= 1 {
      var j := OwnerExists(ins', d, s);
      BlankOwns(d, s);
      assert Data(ins[j], d, s) == Data(ins'[j], d, s) >= 1;
    }
  }

  /** After the sweep a bit is set exactly for sectors with an owner, unless an inode has an attribute
      block: those are not marked, and their bits are gone. */
  lemma Swept(ins: seq<Inode>, ins': seq<Inode>, d: Disk, total: u32, used0: set<nat>, leak: set<nat>, used: set<nat>,
      lost: set<nat>, base: u32, used': set<nat>)
    requires SubVolume(ins, ins') && Shapes(ins) && !ins[0].occupied && total != 0 && used0 <= Range(0, total)
    requires Balanced(ins, d, used0, base, leak) && Balanced(ins', d, used, base, lost) && Unmarked(ins, d, base, lost)
    requires forall l: nat :: l in used' <==> l in used && (l < base || l in MarkSet(ins, d, total, base, |ins|))
    ensures Balanced(ins', d, used', base, {}) <==> NoXattr(ins')
  {
    var m := MarkSet(ins, d, total, base, |ins|);
    forall s: nat | s >= base
      ensures s in m <==> !NoData(ins, d, s)
    {
      MarkedIsData(ins, d, total, base, used0, leak, s);
    }
    if NoXattr(ins') {
      forall s: nat
        ensures OwnAll(ins', d, s) + Bit(s in {}) == Bit(s in used' && s >= base)
      {
        SweptAt(ins, ins', d, used, base, lost, m, s);
      }
    } else {
      var j :| 0 <= j < |ins'| && ins'[j].xattr != 0;
      var w := ins'[j].xattr as nat;
      XattrUnmarked(ins, d, used0, base, leak, j);
      OwnAllUpdate(ins', j, ins'[j], d, w);
      assert w !in used';
      assert OwnAll(ins', d, w) + Bit(w in {}) != Bit(w in used' && w >= base);
    }
  }

  // ----- the whole repair -----

  ghost function Counts(ins: seq<Inode>, d: Disk, total: u32, room: seq<bool>): (cs: seq<nat>)
    requires |room| == |ins|
    ensures |cs| == |ins|
  {
    seq(|ins|, n requires 0 <= n < |ins| => Refs(SeenDirs(ins, d, total, room), n))
  }

  lemma FixedSub(ins: seq<Inode>, ins': seq<Inode>, counts: seq<nat>, cs: seq<nat>)
    requires |counts| == |cs| == |ins| && FixedBelow(ins, ins', counts, |ins|)
    requires forall n :: 0 < n < |ins| && ins[n].occupied ==> counts[n] == cs[n]
    ensures FixedBelow(ins, ins', cs, |ins|) && SubVolume(ins, ins')
  {
  }

  // The first loop has nothing to repair.
  method ScanSound(fs: Fs, room: seq<bool>, ghost leak: set<nat>) returns (mark: seq<bool>, counts: seq<nat>)
    requires fs.Held(leak) && Sound(fs.inodes, fs.disk, fs.total, fs.base, fs.used, leak) && |room| == INODES
    ensures |mark| == fs.total && MarkIs(mark, MarkSet(fs.inodes, fs.disk, fs.total, fs.base, INODES))
    ensures |counts| == INODES
    ensures var cs := Counts(fs.inodes, fs.disk, fs.total, room);
            forall n :: 0 < n < INODES && fs.inodes[n].occupied ==> counts[n] == cs[n]
    ensures PassBelow(fs.inodes, fs.disk, fs.total, fs.base, fs.used, room, INODES)
  {
    ghost var ds := SeenDirs(fs.inodes, fs.disk, fs.total, room);
    var errors;
    errors, mark, counts := ScanInodes(fs, room);
    assert ds[..INODES] == ds;
    forall i | 0 < i < INODES
      ensures InodePass(fs.inodes, fs.disk, fs.total, fs.base, fs.used, room, i)
    {
      SoundInode(fs.inodes, fs.disk, fs.total, fs.base, fs.used, leak, room, i);
    }
    assert errors == 0;
  }

  // The stale bits of a volume that was ins, with the sectors used0 in use, when it was scanned.
  method Sweep(fs: Fs, mark: seq<bool>, ghost ins: seq<Inode>, ghost used0: set<nat>, ghost leak: set<nat>,
      ghost lost: set<nat>) returns (cleared: nat)
    requires fs.Held(lost) && SubVolume(ins, fs.inodes) && Shapes(ins) && !ins[0].occupied
    requires used0 <= Range(0, fs.total)
    requires Balanced(ins, fs.disk, used0, fs.base, leak) && Unmarked(ins, fs.disk, fs.base, lost)
    requires |mark| == fs.total && MarkIs(mark, MarkSet(ins, fs.disk, fs.total, fs.base, INODES))
    modifies fs`bitmap, fs`used
    ensures BitmapOk(fs.bitmap, fs.used, fs.total) && (fs.Valid() <==> NoXattr(fs.inodes))
    ensures cleared == 0 <==> NoStale(ins, fs.disk, fs.total, fs.base, old(fs.used))
  {
    cleared := ClearStale(fs, mark, MarkSet(ins, fs.disk, fs.total, fs.base, INODES));
    Swept(ins, fs.inodes, fs.disk, fs.total, used0, leak, old(fs.used), lost, fs.base, fs.used);
  }

  /** fs_fsck with repair up to the save of the metadata, where memory for the marks may fail, and for the
      blob of each directory. */
  method Repair(fs: Fs, marks: bool, room: seq<bool>, ghost leak: set<nat>) returns (rc: int)
    requires fs.Held(leak) && Sound(fs.inodes, fs.disk, fs.total, fs.base, fs.used, leak) && |room| == INODES
    modifies fs`bitmap, fs`used, fs`inodes
    ensures !marks ==> rc == -1 && fs.inodes == old(fs.inodes) && fs.used == old(fs.used)
    ensures marks ==>
              && FixedBelow(old(fs.inodes), fs.inodes, Counts(old(fs.inodes), fs.disk, fs.total, room), INODES)
              && BitmapOk(fs.bitmap, fs.used, fs.total) && (fs.Valid() <==> NoXattr(fs.inodes))
    ensures marks ==>
              (rc == 0 <==> && Pass(old(fs.inodes), fs.disk, fs.total, fs.base, old(fs.used), room)
                            && NoStale(old(fs.inodes), fs.disk, fs.total, fs.base, old(fs.used)))
  {
    if !marks { return -1; }
    ghost var ins, used0, cs := fs.inodes, fs.used, Counts(fs.inodes, fs.disk, fs.total, room);
    var mark, counts := ScanSound(fs, room, leak);
    var fixes;
    ghost var lost;
    fixes, lost := FixLinks(fs, counts, leak);
    FixedSub(ins, fs.inodes, counts, cs);
    var cleared := Sweep(fs, mark, ins, used0, leak, lost);
    rc := fixes + cleared;
    LinksPass(ins, fs.disk, fs.total, fs.base, used0, room, counts);
  }

  lemma LinksPass(ins: seq<Inode>, d: Disk, total: u32, base: u32, used: set<nat>, room: seq<bool>, counts: seq<nat>)
    requires |ins| == |room| == |counts| == INODES && PassBelow(ins, d, total, base, used, room, INODES)
    requires var cs := Counts(ins, d, total, room); forall n :: 0 < n < INODES && ins[n].occupied ==> counts[n] == cs[n]
    ensures Pass(ins, d, total, base, used, room) <==> forall n :: 1 < n < INODES ==> LinkPass(ins[n], counts[n])
  {
    var cs := Counts(ins, d, total, room);
    forall n | 1 < n < INODES
      ensures LinkPass(ins[n], Refs(SeenDirs(ins, d, total, room), n)) <==> LinkPass(ins[n], counts[n])
    {
      assert cs[n] == Refs(SeenDirs(ins, d, total, room), n);
    }
  }

  // ----- what a repair leaves behind -----

  /** The inodes that a repair does not clear. */
  ghost function Survivors(ins: seq<Inode>, cs: seq<nat>): (keep: seq<bool>)
    requires |cs| == |ins|
    ensures |keep| == |ins|
  {
    seq(|ins|, i requires 0 <= i < |ins| => i < 2 || !ins[i].occupied || cs[i] % 65536 != 0)
  }

  lemma SameContents(x: Inode, y: Inode, d: Disk, total: u32)
    requires y == x.(nlink := y.nlink)
    ensures File(y, d, total) == File(x, d, total) && Capacity(y, d, total) == Capacity(x, d, total)
  {
    SameFile(x, y, d, total);
  }

  lemma RepairedDirs(ins: seq<Inode>, ins': seq<Inode>, d: Disk, total: u32, cs: seq<nat>)
    requires |ins| == |cs| == INODES && DirsOk(ins, d, total) && FixedBelow(ins, ins', cs, INODES)
    ensures DirsOk(ins', d, total)
    ensures forall i :: 0 <= i < INODES ==>
              Dirs(ins', d, total)[i] == if Survivors(ins, cs)[i] then Dirs(ins, d, total)[i] else []
    ensures forall i :: 0 <= i < INODES && ins'[i].occupied ==>
              Capacity(ins'[i], d, total) == Capacity(ins[i], d, total)
  {
    forall i | 0 <= i < INODES && ins'[i].occupied
      ensures File(ins'[i], d, total) == File(ins[i], d, total)
      ensures Capacity(ins'[i], d, total) == Capacity(ins[i], d, total)
    {
      SameContents(ins[i], ins'[i], d, total);
    }
  }

  // The records that name inode n before and after.
  lemma RepairedRefs(ins: seq<Inode>, ins': seq<Inode>, d: Disk, total: u32, cs: seq<nat>, n: nat)
    requires |ins| == |cs| == INODES && DirsOk(ins, d, total) && FixedBelow(ins, ins', cs, INODES)
    ensures Refs(Dirs(ins', d, total), n) <= Refs(Dirs(ins, d, total), n)
    ensures Refs(Dirs(ins', d, total), n) == Refs(Dirs(ins, d, total), n) <==>
              Unmissed(ins, d, total, Survivors(ins, cs), n)
  {
    var ds, ds', keep := Dirs(ins, d, total), Dirs(ins', d, total), Survivors(ins, cs);
    RepairedDirs(ins, ins', d, total, cs);
    RefsFewer(ds, ds', n);
    assert forall i :: 0 <= i < INODES ==> ds[i] == Recs(ins[i], d, total);
  }

  /** No count reaches the 16 bits of a link count. */
  ghost predicate SmallCounts(ins: seq<Inode>, d: Disk, total: u32, cs: seq<nat>)
  {
    && |cs| == |ins| == INODES
    && forall n :: 0 <= n < INODES ==> cs[n] == Refs(Dirs(ins, d, total), n) && (n > 1 ==> cs[n] < 65536)
  }

  // A count that was right for c records, of which r are left.
  lemma FixedLink(x: Inode, c: nat, r: nat)
    requires r <= c < 65536 && (!x.occupied ==> c == 0)
    ensures LinkPass(Fixed(x, c), r) <==> r == c
    ensures !Fixed(x, c).occupied ==> r == 0
    ensures Fixed(x, c).occupied ==> (Fixed(x, c).nlink == r >= 1 <==> r == c)
  {
  }

  lemma RepairedLink(ins: seq<Inode>, ins': seq<Inode>, d: Disk, total: u32, cs: seq<nat>, n: nat)
    requires DirsOk(ins, d, total) && Named(ins, Dirs(ins, d, total)) && SmallCounts(ins, d, total, cs)
    requires FixedBelow(ins, ins', cs, INODES) && 1 < n < INODES
    ensures var r, fine := Refs(Dirs(ins', d, total), n), Unmissed(ins, d, total, Survivors(ins, cs), n);
            && (LinkPass(ins'[n], r) <==> fine) && (!ins'[n].occupied ==> r == 0)
            && (ins'[n].occupied ==> (ins'[n].nlink == r >= 1 <==> fine))
  {
    RepairedRefs(ins, ins', d, total, cs, n);
    FixedLink(ins[n], cs[n], Refs(Dirs(ins', d, total), n));
  }

  lemma RepairedNamed(ins: seq<Inode>, ins': seq<Inode>, d: Disk, total: u32, cs: seq<nat>)
    requires DirsOk(ins, d, total) && Named(ins, Dirs(ins, d, total)) && SmallCounts(ins, d, total, cs)
    requires FixedBelow(ins, ins', cs, INODES)
    ensures Named(ins', Dirs(ins', d, total))
  {
    var ds, ds' := Dirs(ins, d, total), Dirs(ins', d, total);
    RepairedDirs(ins, ins', d, total, cs);
    forall n | 0 < n < INODES && !ins'[n].occupied
      ensures Refs(ds', n) == 0
    {
      if n > 1 { RepairedLink(ins, ins', d, total, cs, n); }
    }
    forall i, k | 0 <= i < INODES && 0 <= k < |ds'[i]|
      ensures ds'[i][k].ino < INODES
    {
      assert ds'[i] == ds[i];
    }
  }

  lemma RepairedSound(ins: seq<Inode>, ins': seq<Inode>, d: Disk, total: u32, base: u32, used: set<nat>,
      leak: set<nat>, used': set<nat>, cs: seq<nat>)
    requires Sound(ins, d, total, base, used, leak) && SmallCounts(ins, d, total, cs)
    requires FixedBelow(ins, ins', cs, INODES) && Shapes(ins') && Balanced(ins', d, used', base, {})
    requires used' <= Range(0, total)
    ensures Sound(ins', d, total, base, used', {})
  {
    RepairedDirs(ins, ins', d, total, cs);
    RepairedNamed(ins, ins', d, total, cs);
  }

  lemma RepairedLinks(ins: seq<Inode>, ins': seq<Inode>, d: Disk, total: u32, cs: seq<nat>)
    requires DirsOk(ins, d, total) && Named(ins, Dirs(ins, d, total)) && SmallCounts(ins, d, total, cs)
    requires FixedBelow(ins, ins', cs, INODES)
    ensures (forall n :: 1 < n < INODES ==> LinkPass(ins'[n], Refs(Dirs(ins', d, total), n))) <==>
              NothingMissed(ins, d, total, Survivors(ins, cs))
    ensures Ns(ins', d, total) <==> NothingMissed(ins, d, total, Survivors(ins, cs))
  {
    RepairedDirs(ins, ins', d, total, cs);
    RepairedNamed(ins, ins', d, total, cs);
    forall n | 1 < n < INODES
      ensures var r, fine := Refs(Dirs(ins', d, total), n), Unmissed(ins, d, total, Survivors(ins, cs), n);
              && (LinkPass(ins'[n], r) <==> fine) && (ins'[n].occupied ==> (ins'[n].nlink == r >= 1 <==> fine))
              && (!ins'[n].occupied ==> fine)
    {
      RepairedLink(ins, ins', d, total, cs, n);
    }
  }

  /** The repaired volume passes the next check exactly if no inode that was cleared named another
      than the root: the counts were taken before. */
  lemma RepairedPasses(ins: seq<Inode>, ins': seq<Inode>, d: Disk, total: u32, base: u32, used: set<nat>,
      leak: set<nat>, used': set<nat>, cs: seq<nat>, room: seq<bool>)
    requires Sound(ins, d, total, base, used, leak) && SmallCounts(ins, d, total, cs)
    requires FixedBelow(ins, ins', cs, INODES) && Shapes(ins') && Balanced(ins', d, used', base, {})
    requires used' <= Range(0, total) && |room| == INODES && forall i :: 0 <= i < INODES ==> room[i]
    ensures Pass(ins', d, total, base, used', room) <==> NothingMissed(ins, d, total, Survivors(ins, cs))
  {
    RepairedSound(ins, ins', d, total, base, used, leak, used', cs);
    AllSeen(ins', d, total, base, used', {}, room);
    forall i | 0 < i < INODES
      ensures InodePass(ins', d, total, base, used', room, i)
    {
      SoundInode(ins', d, total, base, used', {}, room, i);
    }
    RepairedLinks(ins, ins', d, total, cs);
  }

  lemma AllSeen(ins: seq<Inode>, d: Disk, total: u32, base: u32, used: set<nat>, leak: set<nat>, room: seq<bool>)
    requires Sound(ins, d, total, base, used, leak) && |room| == INODES && forall i :: 0 <= i < INODES ==> room[i]
    ensures SeenDirs(ins, d, total, room) == Dirs(ins, d, total)
  {
    forall i | 0 <= i < INODES
      ensures SeenDirs(ins, d, total, room)[i] == Dirs(ins, d, total)[i]
    {
      SoundSeen(ins, d, total, base, used, leak, room, i);
    }
  }

  lemma SmallAllSeen(ins: seq<Inode>, d: Disk, total: u32, base: u32, used: set<nat>, leak: set<nat>, room: seq<bool>)
    requires Sound(ins, d, total, base, used, leak) && |room| == INODES && forall i :: 0 <= i < INODES ==> room[i]
    requires forall n :: 1 < n < INODES ==> Refs(Dirs(ins, d, total), n) < 65536
    ensures SmallCounts(ins, d, total, Counts(ins, d, total, room))
  {
    AllSeen(ins, d, total, base, used, leak, room);
  }

  /** fs_fsck with repair and then without, with memory for all of it. */
  method RepairThenCheck(fs: Fs, room: seq<bool>, ghost leak: set<nat>) returns (rc: int)
    requires fs.Held(leak) && Sound(fs.inodes, fs.disk, fs.total, fs.base, fs.used, leak) && NoXattr(fs.inodes)
    requires |room| == INODES && forall i :: 0 <= i < INODES ==> room[i]
    requires forall n :: 1 < n < INODES ==> Refs(Dirs(fs.inodes, fs.disk, fs.total), n) < 65536
    modifies fs`bitmap, fs`used, fs`inodes
    ensures fs.Valid()
    ensures var keep := old(Survivors(fs.inodes, Counts(fs.inodes, fs.disk, fs.total, room)));
            && (rc == 0 <==> NothingMissed(old(fs.inodes), fs.disk, fs.total, keep))
            && (NsValid(fs) <==> NothingMissed(old(fs.inodes), fs.disk, fs.total, keep))
  {
    ghost var ins, used0, cs := fs.inodes, fs.used, Counts(fs.inodes, fs.disk, fs.total, room);
    var fixes := Repair(fs, true, room, leak);
    SmallAllSeen(ins, fs.disk, fs.total, fs.base, used0, leak, room);
    RepairedPasses(ins, fs.inodes, fs.disk, fs.total, fs.base, used0, leak, fs.used, cs, room);
    RepairedLinks(ins, fs.inodes, fs.disk, fs.total, cs);
    var found;
    rc, found := Check(fs, false, true, room);
  }

  // ----- two volumes that a repair leaves faulty -----

  lemma NewBalanced(ins: seq<Inode>, d: Disk)
    requires OnlyRoot(ins)
    ensures forall s: nat :: OwnAll(ins, d, s) == 0
  {
    forall s: nat
      ensures OwnAll(ins, d, s) == 0
    {
      NobodyOwns(ins, d, s);
    }
  }

  // Inode i of a new volume gets a sector, and becomes x.
  lemma OneOwner(ins: seq<Inode>, d: Disk, base: u32, i: nat, x: Inode, j: nat, y: Inode)
    requires OnlyRoot(ins) && i < INODES && j < INODES && i != j && base != 0
    requires forall s: nat :: Own(x, d, s) == Bit(s == base as nat) && Own(y, d, s) == 0
    ensures Balanced(ins[i := x][j := y], d, Range(0, base) + {base as nat}, base, {})
  {
    var used, none, ys: seq<Inode> := Range(0, base) + {base as nat}, {}, ins[i := x][j := y];
    NewBalanced(ins, d);
    forall s: nat
      ensures OwnAll(ys, d, s) + Bit(s in none) == Bit(s in used && s >= base)
    {
      OwnAllUpdate(ins, i, x, d, s);
      OwnAllUpdate(ins[i := x], j, y, d, s);
      OwnAllUpdate(ins, j, ins[j], d, s);
      assert s in Range(0, base) <==> s < base;
    }
    assert Balanced(ys, d, used, base, none);
  }

  /** The root of a new volume with an attribute block: nothing is wrong, and a repair frees the block. */
  lemma XattrVolume(total: u32, base: u32, d: Disk, room: seq<bool>) returns (ins: seq<Inode>, used: set<nat>)
    requires 0 < base < total && |room| == INODES
    ensures Sound(ins, d, total, base, used, {})
    ensures forall ins' :: FixedBelow(ins, ins', Counts(ins, d, total, room), INODES) ==> !NoXattr(ins')
  {
    var root := BLANK.(occupied := true, dir := true, nlink := 1, parent := 1);
    var new0 := seq(INODES, i => if i == 1 then root else BLANK);
    var x := root.(xattr := base);
    ins, used := new0[1 := x][2 := BLANK], Range(0, base) + {base as nat};
    forall s: nat
      ensures Own(x, d, s) == Bit(s == base as nat) && Own(BLANK, d, s) == 0
    {
      BlankOwns(d, s);
      assert Exts(x, d) == x.direct == Exts(BLANK, d);
    }
    OneOwner(new0, d, base, 1, x, 2, BLANK);
    RootOnly(ins, d, total);
    forall ins' | FixedBelow(ins, ins', Counts(ins, d, total, room), INODES)
      ensures !NoXattr(ins')
    {
      assert ins'[1] == ins[1] == x;
    }
  }

  lemma RootOnly(ins: seq<Inode>, d: Disk, total: u32)
    requires |ins| == INODES && total != 0 && ins[1].direct == BLANK.direct && ins[1].indirect == 0
    requires ins[1].occupied && ins[1].dir && !ins[1].special
    requires forall i :: 0 <= i < INODES && i != 1 ==> ins[i] == BLANK
    ensures DirsOk(ins, d, total) && Named(ins, Dirs(ins, d, total))
  {
    EmptyFile(ins[1], d, total);
    assert Parse([]) == [] && Blob([]) == [];
    var ds := Dirs(ins, d, total);
    assert forall i :: 0 <= i < INODES ==> ds[i] == [];
    forall n: nat
      ensures Refs(ds, n) == 0
    {
      NoRefs(ds, n);
    }
  }

  // Directory 2 has one record, which names inode 3, and there are no others.
  lemma OneNamed(ds: seq<seq<Rec>>, r: Rec)
    requires |ds| == INODES && r.ino == 3 && ds[2] == [r]
    requires forall i :: 0 <= i < INODES && i != 2 ==> ds[i] == []
    ensures forall n: nat :: Refs(ds, n) == Bit(n == 3)
  {
    var none := ds[2 := []];
    forall n: nat
      ensures Refs(ds, n) == Bit(n == 3)
    {
      NoRefs(none, n);
      RefsUpdate(none, 2, [r], n);
      assert none[2 := [r]] == ds && [r][1..] == [];
    }
  }

  // A blob of one record is a directory.
  lemma OneRecDir(r: Rec)
    requires 0 < |r.name| <= 255
    ensures DirOk(Enc(r)) && Parse(Enc(r)) == [r]
  {
    ParseOne([], r);
    assert Blob([]) + Enc(r) == Enc(r) && [] + [r] == [r];
  }

  lemma OrphanDirs(ins: seq<Inode>, d: Disk, total: u32, b: seq<u8>)
    requires |ins| == INODES && total != 0 && ins[1] == BLANK.(occupied := true, dir := true, nlink := 1, parent := 1)
    requires ins[2].occupied && ins[2].dir && !ins[2].special && File(ins[2], d, total) == b && DirOk(b)
    requires forall i :: 0 <= i < INODES && i != 1 && i != 2 ==> !ins[i].dir
    ensures DirsOk(ins, d, total)
    ensures var ds := Dirs(ins, d, total); ds[2] == Parse(b) && forall i :: 0 <= i < INODES && i != 2 ==> ds[i] == []
  {
    EmptyFile(ins[1], d, total);
    assert Parse([]) == [] && Blob([]) == [];
    assert Recs(ins[1], d, total) == [];
  }

  lemma HolderOwns(x: Inode, y: Inode, d: Disk, base: u32)
    requires x.direct == BLANK.direct[0 := Extent(base, 1)] && x.indirect == 0 == x.xattr
    requires y.direct == BLANK.direct && y.indirect == 0 == y.xattr
    ensures forall s: nat :: Own(x, d, s) == Bit(s == base as nat) && Own(y, d, s) == 0
  {
    forall s: nat
      ensures Own(x, d, s) == Bit(s == base as nat) && Own(y, d, s) == 0
    {
      BlankOwns(d, s);
      assert Exts(y, d) == Exts(BLANK, d) && Exts(x, d) == Exts(BLANK, d)[0 := Extent(base, 1)];
      CoverUpdate(Exts(BLANK, d), 0, Extent(base, 1), s);
    }
  }

  // A new volume with a directory 2 that holds one record, for inode 3, and no record for itself.
  lemma OrphanVolume(total: u32, base: u32, r: Rec) returns (ins: seq<Inode>, d: Disk, used: set<nat>)
    requires 0 < base < total && r == Rec(3, [97])
    ensures Shapes(ins) && Balanced(ins, d, used, base, {}) && NoXattr(ins) && used <= Range(0, total)
    ensures ins[1] == BLANK.(occupied := true, dir := true, nlink := 1, parent := 1)
    ensures ins[2].occupied && ins[2].dir && !ins[2].special && File(ins[2], d, total) == Enc(r)
    ensures ins[2].size <= Capacity(ins[2], d, total) && ins[3].occupied
    ensures forall i :: 0 <= i < INODES && i != 1 && i != 2 ==> !ins[i].dir && (i != 3 ==> !ins[i].occupied)
  {
    var root := BLANK.(occupied := true, dir := true, nlink := 1, parent := 1);
    var new0 := seq(INODES, i => if i == 1 then root else BLANK);
    var s := Enc(r) + Zeros(512 - RecLen(1));
    var x := BLANK.(occupied := true, dir := true, nlink := 1, parent := 1, size := RecLen(1),
                    direct := BLANK.direct[0 := Extent(base, 1)]);
    var y := BLANK.(occupied := true, nlink := 1, parent := 2);
    d, used := map[base as nat := s], Range(0, base) + {base as nat};
    ins := new0[2 := x][3 := y];
    HolderOwns(x, y, d, base);
    OneOwner(new0, d, base, 2, x, 3, y);
    OneSector(x, d, total, base, s);
    assert Bytes([s], x.size) == Enc(r);
  }

  /** A directory without a name that holds a file: the repair clears the directory, and the file is
      left with a link count of 1 and no record. */
  lemma OrphanDirectory(total: u32, base: u32, room: seq<bool>) returns (ins: seq<Inode>, d: Disk, used: set<nat>)
    requires 0 < base < total && |room| == INODES && forall i :: 0 <= i < INODES ==> room[i]
    ensures Sound(ins, d, total, base, used, {}) && NoXattr(ins)
    ensures SmallCounts(ins, d, total, Counts(ins, d, total, room))
    ensures !NothingMissed(ins, d, total, Survivors(ins, Counts(ins, d, total, room)))
  {
    var r := Rec(3, [97]);
    ins, d, used := OrphanVolume(total, base, r);
    OneRecDir(r);
    EmptyFile(ins[1], d, total);
    OrphanDirs(ins, d, total, Enc(r));
    OneNamed(Dirs(ins, d, total), r);
    SmallAllSeen(ins, d, total, base, used, {}, room);
    OrphanMissed(ins, d, total, Counts(ins, d, total, room), r);
  }

  lemma OrphanMissed(ins: seq<Inode>, d: Disk, total: u32, cs: seq<nat>, r: Rec)
    requires |ins| == |cs| == INODES && ins[2].occupied && cs[2] == 0 && Recs(ins[2], d, total) == [r] && r.ino == 3
    ensures !NothingMissed(ins, d, total, Survivors(ins, cs))
  {
    assert Count([r], 3) == 1 by { assert [r][1..] == []; }
    assert !Survivors(ins, cs)[2];
    assert !Unmissed(ins, d, total, Survivors(ins, cs), 3);
  }
}
