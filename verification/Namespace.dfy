/** Directories over files: names lead to inodes, and link counts count records. */
module Namespace {
  import opened Words
  import opened Disks
  import opened Ownership
  import opened Files
  import opened Dirents

  /** A directory blob as the directory operations leave it. */
  ghost predicate DirOk(b: seq<u8>)
  {
    b == Blob(Parse(b)) && |b| <= LIMIT && DistinctNames(Parse(b))
  }

  predicate IsDir(fs: Fs, dir: int)
    requires |fs.inodes| == INODES
    reads fs
  {
    0 < dir < INODES && fs.inodes[dir].occupied && fs.inodes[dir].dir && !fs.inodes[dir].special
  }

  ghost function Content(fs: Fs, i: nat): seq<u8>
    requires i < |fs.inodes|
    reads fs
  {
    File(fs.inodes[i], fs.disk, fs.total)
  }

  // ----- one directory -----

  /** dir_logical_size */
  method LogicalSize(fs: Fs, dir: nat) returns (n: u32)
    requires |fs.inodes| == INODES && dir < INODES
    ensures n == |Visible(Content(fs, dir))|
  {
    var x := fs.inodes[dir];
    var secs := fs.CountSectors(x);
    var cap: u32 := if secs > 0xFFFF_FFFF / 512 then 0xFFFF_FFFF else secs * 512;
    n := if x.size > cap then cap else x.size;
    if n > 65536 { n := 65536; }
  }

  // The blob of a directory, at most 64 KiB.
  method ReadDir(fs: Fs, dir: int) returns (blob: seq<u8>)
    requires |fs.inodes| == INODES && IsDir(fs, dir)
    ensures blob == Visible(Content(fs, dir))
  {
    var size := LogicalSize(fs, dir);
    var rc;
    rc, blob := fs.IndexRead(dir, 0, size);
  }

  /** dir_find_name */
  method FindName(fs: Fs, dir: int, name: seq<u8>) returns (found: int)
    requires |fs.inodes| == INODES && (0 < dir < INODES ==> !fs.inodes[dir].special || !fs.inodes[dir].dir)
    ensures found == if IsDir(fs, dir) then Lookup(Parse(Visible(Content(fs, dir))), name) else -1
  {
    if dir <= 0 || dir >= INODES || !fs.inodes[dir].dir || !fs.inodes[dir].occupied { return -1; }
    var blob := ReadDir(fs, dir);
    var off;
    found, off := FindIn(blob, name);
  }

  // The blob becomes the directory.
  method StoreDir(fs: Fs, dir: int, blob: seq<u8>) returns (ok: bool)
    requires fs.Valid() && IsDir(fs, dir) && |blob| <= 2 * LIMIT
    modifies fs
    ensures fs.Valid() && OtherFilesSame(old(fs.inodes), old(fs.disk), fs.inodes, fs.disk, dir, fs.total)
    ensures Resized(old(fs.inodes[dir]), fs.inodes[dir])
    ensures ok ==> Content(fs, dir) == blob
  {
    ok := fs.IndexTruncate(dir, |blob|);
    if !ok || |blob| == 0 { return; }
    var rc := fs.IndexWrite(dir, 0, blob);
    ok := rc == |blob|;
  }

  /** What dir_add_entry does: directory dir has one more record, for a name it did not have. */
  ghost predicate AddedTo(ins: seq<Inode>, d: Disk, ins': seq<Inode>, d': Disk, total: u32, dir: nat, child: u32,
      name: seq<u8>)
  {
    && |ins| == |ins'| == INODES && dir < INODES && ins[dir].occupied && ins[dir].dir && child != 0 && 0 < |name| <= 255
    && OtherFilesSame(ins, d, ins', d', dir, total)
    && Resized(ins[dir], ins'[dir])
    && Lookup(Parse(File(ins[dir], d, total)), name) == -1
    && File(ins'[dir], d', total) == File(ins[dir], d, total) + Enc(Rec(child, name))
  }

  /** dir_add_entry: the name is inserted. */
  method AddEntry(fs: Fs, dir: int, child: u32, name: seq<u8>) returns (ok: bool)
    requires fs.Valid() && IsDir(fs, dir) && child != 0
    modifies fs
    ensures fs.Valid() && OtherFilesSame(old(fs.inodes), old(fs.disk), fs.inodes, fs.disk, dir, fs.total)
    ensures IsDir(fs, dir)
    ensures ok && |old(Content(fs, dir))| <= LIMIT ==>
              AddedTo(old(fs.inodes), old(fs.disk), fs.inodes, fs.disk, fs.total, dir, child, name)
  {
    if |name| == 0 || |name| > 255 { return false; }
    var found := FindName(fs, dir, name);
    if found >= 0 { return false; }
    var blob := ReadDir(fs, dir);
    ok := StoreDir(fs, dir, blob + Enc(Rec(child, name)));
  }

  /** What dir_remove_entry does: directory dir has lost the record of the name. */
  ghost predicate RemovedFrom(ins: seq<Inode>, d: Disk, ins': seq<Inode>, d': Disk, total: u32, dir: nat, name: seq<u8>)
  {
    && |ins| == |ins'| == INODES && dir < INODES && ins[dir].occupied && ins[dir].dir
    && OtherFilesSame(ins, d, ins', d', dir, total)
    && Resized(ins[dir], ins'[dir])
    && var rs := Parse(File(ins[dir], d, total)); var i := Index(rs, name);
       i < |rs| && Fit(Without(rs, i)) && File(ins'[dir], d', total) == Blob(Without(rs, i)) &&
         |Blob(Without(rs, i))| <= |File(ins[dir], d, total)|
  }

  /** dir_remove_entry: the name is deleted. */
  method RemoveEntry(fs: Fs, dir: int, name: seq<u8>) returns (ok: bool)
    requires fs.Valid() && IsDir(fs, dir)
    modifies fs
    ensures fs.Valid() && OtherFilesSame(old(fs.inodes), old(fs.disk), fs.inodes, fs.disk, dir, fs.total)
    ensures IsDir(fs, dir)
    ensures ok && DirOk(old(Content(fs, dir))) ==>
              RemovedFrom(old(fs.inodes), old(fs.disk), fs.inodes, fs.disk, fs.total, dir, name)
  {
    var blob := ReadDir(fs, dir);
    var left;
    ok, left := RemoveIn(blob, name);
    if !ok { return; }
    ok := StoreDir(fs, dir, left);
  }

  // ----- counting records -----

  /** How many records name inode n. */
  ghost function Count(rs: seq<Rec>, n: nat): nat
  {
    if |rs| == 0 then 0 else Bit(rs[0].ino == n) + Count(rs[1..], n)
  }

  ghost function Refs(dirs: seq<seq<Rec>>, n: nat): nat
  {
    if |dirs| == 0 then 0 else Count(dirs[0], n) + Refs(dirs[1..], n)
  }

  lemma {:induction false} CountAppend(rs: seq<Rec>, ts: seq<Rec>, n: nat)
    ensures Count(rs + ts, n) == Count(rs, n) + Count(ts, n)
  {
    if |rs| == 0 {
      assert rs + ts == ts;
    } else {
      assert (rs + ts)[1..] == rs[1..] + ts;
      CountAppend(rs[1..], ts, n);
    }
  }

  lemma CountOneMore(rs: seq<Rec>, r: Rec, n: nat)
    ensures Count(rs + [r], n) == Count(rs, n) + Bit(r.ino == n)
  {
    CountAppend(rs, [r], n);
    assert [r][1..] == [];
  }

  lemma CountWithout(rs: seq<Rec>, i: nat, n: nat)
    requires i < |rs|
    ensures Count(Without(rs, i), n) == Count(rs, n) - Bit(rs[i].ino == n)
  {
    CountAppend(rs[..i], rs[i + 1..], n);
    assert rs == rs[..i] + rs[i..];
    CountAppend(rs[..i], rs[i..], n);
    assert rs[i..][1..] == rs[i + 1..];
  }

  lemma {:induction false} CountDead(rs: seq<Rec>, n: nat)
    requires AllDead(rs) && n != 0
    ensures Count(rs, n) == 0
  {
    if |rs| != 0 { CountDead(rs[1..], n); }
  }

  lemma {:induction false} RefsUpdate(dirs: seq<seq<Rec>>, i: nat, rs: seq<Rec>, n: nat)
    requires i < |dirs|
    ensures Refs(dirs[i := rs], n) == Refs(dirs, n) - Count(dirs[i], n) + Count(rs, n)
  {
    if i == 0 {
      assert dirs[0 := rs][1..] == dirs[1..];
    } else {
      assert dirs[i := rs][1..] == dirs[1..][i - 1 := rs];
      RefsUpdate(dirs[1..], i - 1, rs, n);
    }
  }

  // ----- the invariant -----

  /** The records of inode i, none if it is no directory. */
  ghost function Recs(x: Inode, d: Disk, total: u32): seq<Rec>
  {
    if x.occupied && x.dir then Parse(File(x, d, total)) else []
  }

  ghost function Dirs(ins: seq<Inode>, d: Disk, total: u32): (ds: seq<seq<Rec>>)
    ensures |ds| == |ins|
  {
    seq(|ins|, i requires 0 <= i < |ins| => Recs(ins[i], d, total))
  }

  /** The root is a directory, and every directory is well formed. */
  ghost predicate DirsOk(ins: seq<Inode>, d: Disk, total: u32)
  {
    && 1 < |ins| && ins[1].occupied && ins[1].dir
    && forall i :: 0 <= i < |ins| && ins[i].occupied && ins[i].dir ==> !ins[i].special && DirOk(File(ins[i], d, total))
  }

  /** Link counts: of every inode but the root the count is the number of records that name it, at least one;
      no record names a free inode or a number out of range. */
  ghost predicate Linked(ins: seq<Inode>, ds: seq<seq<Rec>>)
  {
    && |ins| == |ds| == INODES
    && (forall n :: 1 < n < INODES && ins[n].occupied ==> ins[n].nlink == Refs(ds, n) >= 1)
    && (forall n :: 0 < n < INODES && !ins[n].occupied ==> Refs(ds, n) == 0)
    && (forall i, k :: 0 <= i < INODES && 0 <= k < |ds[i]| ==> ds[i][k].ino < INODES)
  }

  ghost predicate Ns(ins: seq<Inode>, d: Disk, total: u32)
  {
    DirsOk(ins, d, total) && Linked(ins, Dirs(ins, d, total))
  }

  ghost predicate NsValid(fs: Fs)
    reads fs
  {
    fs.Valid() && Ns(fs.inodes, fs.disk, fs.total)
  }

  lemma {:induction false} NoRefs(dirs: seq<seq<Rec>>, n: nat)
    requires forall i :: 0 <= i < |dirs| ==> dirs[i] == []
    ensures Refs(dirs, n) == 0
  {
    if |dirs| != 0 { NoRefs(dirs[1..], n); }
  }

  // An inode without sectors is an empty file.
  lemma EmptyFile(x: Inode, d: Disk, total: u32)
    requires x.direct == BLANK.direct && x.indirect == 0 && total != 0
    ensures File(x, d, total) == []
  {
    NoParts(x, d, total);
  }

  /** Only the root, which is empty. */
  ghost predicate OnlyRoot(ins: seq<Inode>)
  {
    && |ins| == INODES && ins[1] == BLANK.(occupied := true, dir := true, nlink := 1, parent := 1)
    && forall i :: 0 <= i < INODES && i != 1 ==> ins[i] == BLANK
  }

  lemma OnlyRootNs(ins: seq<Inode>, d: Disk, total: u32)
    requires OnlyRoot(ins) && total != 0
    ensures Ns(ins, d, total)
  {
    EmptyFile(ins[1], d, total);
    assert Parse([]) == [] && Blob([]) == [];
    var ds := Dirs(ins, d, total);
    assert forall i :: 0 <= i < INODES ==> ds[i] == [];
    forall n: nat
      ensures Refs(ds, n) == 0
    {
      NoRefs(ds, n);
    }
  }

  /** A new volume, with which every run begins. */
  method NewVolume(total: u32, base: u32, d: Disk) returns (fs: Fs)
    requires 0 < base <= total
    ensures fresh(fs) && NsValid(fs) && OnlyRoot(fs.inodes) && fs.total == total && fs.base == base
  {
    fs := new Fs(total, base, d);
    OnlyRootNs(fs.inodes, fs.disk, fs.total);
  }

  // From unchanged other files to unchanged other directories.
  lemma OtherDirs(ins: seq<Inode>, d: Disk, ins': seq<Inode>, d': Disk, dir: nat, total: u32)
    requires dir < |ins| && OtherFilesSame(ins, d, ins', d', dir, total)
    requires Resized(ins[dir], ins'[dir])
    ensures Dirs(ins', d', total) == Dirs(ins, d, total)[dir := Recs(ins'[dir], d', total)]
    ensures DirsOk(ins, d, total) && (ins[dir].dir ==> DirOk(File(ins'[dir], d', total))) ==> DirsOk(ins', d', total)
  {
  }

  // Only inode n's link count or state changed, and it fits the records.
  lemma Relinked(ins: seq<Inode>, ds: seq<seq<Rec>>, ins': seq<Inode>, ds': seq<seq<Rec>>, n: nat)
    requires Linked(ins, ds) && |ins'| == |ds'| == INODES && 0 < n < INODES
    requires forall m :: 0 < m < INODES && m != n ==>
               ins'[m].occupied == ins[m].occupied && ins'[m].nlink == ins[m].nlink && Refs(ds', m) == Refs(ds, m)
    requires if ins'[n].occupied then n == 1 || ins'[n].nlink == Refs(ds', n) >= 1 else Refs(ds', n) == 0
    requires forall i, k :: 0 <= i < INODES && 0 <= k < |ds'[i]| ==> ds'[i][k].ino < INODES
    ensures Linked(ins', ds')
  {
  }

  // One more record in directory dir.
  lemma RefsAdd(ds: seq<seq<Rec>>, dir: nat, r: Rec)
    requires dir < |ds|
    ensures forall m: nat :: Refs(ds[dir := ds[dir] + [r]], m) == Refs(ds, m) + Bit(r.ino == m)
  {
    forall m: nat
      ensures Refs(ds[dir := ds[dir] + [r]], m) == Refs(ds, m) + Bit(r.ino == m)
    {
      RefsUpdate(ds, dir, ds[dir] + [r], m);
      CountOneMore(ds[dir], r, m);
    }
  }

  // One record less.
  lemma RefsRemove(ds: seq<seq<Rec>>, dir: nat, i: nat)
    requires dir < |ds| && i < |ds[dir]|
    ensures forall m: nat :: Refs(ds[dir := Without(ds[dir], i)], m) == Refs(ds, m) - Bit(ds[dir][i].ino == m)
  {
    forall m: nat
      ensures Refs(ds[dir := Without(ds[dir], i)], m) == Refs(ds, m) - Bit(ds[dir][i].ino == m)
    {
      RefsUpdate(ds, dir, Without(ds[dir], i), m);
      CountWithout(ds[dir], i, m);
    }
  }

  ghost predicate SameLinks(ins: seq<Inode>, ins': seq<Inode>, n: nat)
  {
    |ins'| == |ins| && forall m :: 0 <= m < |ins| && m != n ==>
      ins'[m].occupied == ins[m].occupied && ins'[m].nlink == ins[m].nlink
  }

  // Inode n has one more record and the link count to match.
  lemma OneMore(ins: seq<Inode>, ds: seq<seq<Rec>>, ins': seq<Inode>, dir: nat, r: Rec, n: nat)
    requires Linked(ins, ds) && dir < INODES && 0 < n < INODES && r.ino == n && SameLinks(ins, ins', n)
    requires ins'[n].occupied && (n == 1 || ins'[n].nlink == Refs(ds, n) + 1)
    ensures Linked(ins', ds[dir := ds[dir] + [r]])
  {
    RefsAdd(ds, dir, r);
    Relinked(ins, ds, ins', ds[dir := ds[dir] + [r]], n);
  }

  // Inode n has one record less, and is free if there is none left.
  lemma OneLess(ins: seq<Inode>, ds: seq<seq<Rec>>, ins': seq<Inode>, dir: nat, i: nat, n: nat)
    requires Linked(ins, ds) && dir < INODES && i < |ds[dir]| && ds[dir][i].ino == n && 1 < n < INODES
    requires SameLinks(ins, ins', n)
    requires if ins'[n].occupied then ins'[n].nlink == Refs(ds, n) - 1 >= 1 else Refs(ds, n) == 1
    ensures Linked(ins', ds[dir := Without(ds[dir], i)])
  {
    RefsRemove(ds, dir, i);
    Relinked(ins, ds, ins', ds[dir := Without(ds[dir], i)], n);
  }

  // A directory without live records goes.
  lemma DeadDirGone(ins: seq<Inode>, ds: seq<seq<Rec>>, n: nat)
    requires Linked(ins, ds) && n < INODES && AllDead(ds[n])
    ensures Linked(ins, ds[n := []])
  {
    forall m | 0 < m < INODES
      ensures Refs(ds[n := []], m) == Refs(ds, m)
    {
      RefsUpdate(ds, n, [], m);
      CountDead(ds[n], m);
    }
  }

  lemma NamedIsOccupied(ins: seq<Inode>, ds: seq<seq<Rec>>, dir: nat, i: nat)
    requires Linked(ins, ds) && dir < INODES && i < |ds[dir]| && ds[dir][i].ino != 0
    ensures ds[dir][i].ino < INODES && ins[ds[dir][i].ino].occupied
  {
    RefsRemove(ds, dir, i);
  }

  lemma AddedDir(b: seq<u8>, r: Rec)
    requires DirOk(b) && 0 < |r.name| <= 255 && r.ino != 0 && Lookup(Parse(b), r.name) == -1 && |b| + |Enc(r)| <= LIMIT
    ensures DirOk(b + Enc(r)) && Parse(b + Enc(r)) == Parse(b) + [r]
    ensures Entries(Parse(b + Enc(r))) == Entries(Parse(b))[r.name := r.ino]
  {
    ParseOne(Parse(b), r);
    EntriesAppend(Parse(b), r);
  }

  lemma RemovedDir(b: seq<u8>, i: nat)
    requires DirOk(b) && i < |Parse(b)| && Parse(b)[i].ino != 0 && Fit(Without(Parse(b), i))
    requires |Blob(Without(Parse(b), i))| <= LIMIT
    ensures var c := Blob(Without(Parse(b), i));
            && DirOk(c) && Parse(c) == Without(Parse(b), i)
            && Entries(Parse(c)) == Entries(Parse(b)) - {Parse(b)[i].name}
  {
    var ts := Without(Parse(b), i);
    ParseBlob(ts, []);
    assert Blob(ts) + [] == Blob(ts) && Parse([]) == [] && ts + [] == ts;
    EntriesWithout(Parse(b), i);
  }

  // ----- operations on names -----

  lemma SameFiles(ins: seq<Inode>, d: Disk, e: Disk, total: u32)
    requires forall i :: 0 <= i < |ins| ==> File(ins[i], e, total) == File(ins[i], d, total)
    ensures Dirs(ins, e, total) == Dirs(ins, d, total) && (Ns(ins, e, total) <==> Ns(ins, d, total))
  {
    assert Dirs(ins, e, total) == Dirs(ins, d, total);
  }

  /** Inodes and files other than these are as they were. */
  ghost predicate FilesSame(ins: seq<Inode>, d: Disk, ins': seq<Inode>, d': Disk, total: u32, but: set<int>)
  {
    && |ins'| == |ins|
    && forall j :: 0 <= j < |ins| && j !in but ==>
      ins'[j] == ins[j] && File(ins'[j], d', total) == File(ins[j], d, total)
  }

  /** No file reads differently. */
  ghost predicate Saved(ins: seq<Inode>, d: Disk, d': Disk, total: u32)
  {
    forall i :: 0 <= i < |ins| ==> File(ins[i], d', total) == File(ins[i], d, total)
  }

  lemma SavedSame(ins: seq<Inode>, d: Disk, ins': seq<Inode>, d1: Disk, d2: Disk, total: u32, but: set<int>)
    requires FilesSame(ins, d, ins', d1, total, but) && Saved(ins', d1, d2, total)
    ensures FilesSame(ins, d, ins', d2, total, but)
  {
  }

  // fs_persist_meta changes no file.
  method Save(fs: Fs) returns (ok: bool)
    requires fs.Valid()
    modifies fs`disk
    ensures fs.Valid() && Saved(fs.inodes, old(fs.disk), fs.disk, fs.total)
  {
    ok := fs.Persist(1);
  }

  // What AddEntry did, seen from the namespace.
  lemma Added(ins: seq<Inode>, d: Disk, ins': seq<Inode>, d': Disk, total: u32, dir: nat, r: Rec)
    requires DirsOk(ins, d, total) && AddedTo(ins, d, ins', d', total, dir, r.ino, r.name)
    requires |File(ins[dir], d, total)| + RecLen(|r.name|) <= LIMIT
    ensures DirsOk(ins', d', total)
    ensures var ds := Dirs(ins, d, total); Dirs(ins', d', total) == ds[dir := ds[dir] + [r]]
    ensures Entries(Parse(File(ins'[dir], d', total))) == Entries(Parse(File(ins[dir], d, total)))[r.name := r.ino]
  {
    AddedDir(File(ins[dir], d, total), r);
    OtherDirs(ins, d, ins', d', dir, total);
  }

  // What RemoveEntry did, seen from the namespace.
  lemma Removed(ins: seq<Inode>, d: Disk, ins': seq<Inode>, d': Disk, total: u32, dir: nat, name: seq<u8>)
    requires DirsOk(ins, d, total) && RemovedFrom(ins, d, ins', d', total, dir, name)
    ensures DirsOk(ins', d', total)
    ensures var ds := Dirs(ins, d, total); var i := Index(ds[dir], name);
            i < |ds[dir]| && Dirs(ins', d', total) == ds[dir := Without(ds[dir], i)]
    ensures Entries(Parse(File(ins'[dir], d', total))) == Entries(Parse(File(ins[dir], d, total))) - {name}
  {
    RemovedDir(File(ins[dir], d, total), Index(Parse(File(ins[dir], d, total)), name));
    OtherDirs(ins, d, ins', d', dir, total);
  }

  // A free inode becomes an empty file or directory.
  lemma FreshDirs(ins: seq<Inode>, d: Disk, total: u32, idx: nat, y: Inode)
    requires DirsOk(ins, d, total) && idx < |ins| && !ins[idx].occupied && File(y, d, total) == [] && !y.special
    ensures Dirs(ins[idx := y], d, total) == Dirs(ins, d, total) && DirsOk(ins[idx := y], d, total)
  {
    assert Parse([]) == [] && Blob([]) == [];
  }

  lemma CreateKeeps(ins: seq<Inode>, d: Disk, idx: nat, y: Inode, ins': seq<Inode>, d': Disk, total: u32, dir: nat,
      name: seq<u8>)
    requires Ns(ins, d, total) && dir < INODES && ins[dir].occupied && 0 < idx < INODES && !ins[idx].occupied
    requires File(y, d, total) == [] && y.occupied && y.nlink == 1 && !y.special
    requires AddedTo(ins[idx := y], d, ins', d', total, dir, idx, name)
    requires |File(ins[dir], d, total)| + RecLen(|name|) <= LIMIT
    ensures Ns(ins', d', total)
    ensures Entries(Parse(File(ins'[dir], d', total))) == Entries(Parse(File(ins[dir], d, total)))[name := idx]
  {
    var ds, r := Dirs(ins, d, total), Rec(idx, name);
    FreshDirs(ins, d, total, idx, y);
    Added(ins[idx := y], d, ins', d', total, dir, r);
    assert Refs(ds, idx) == 0;
    OneMore(ins, ds, ins', dir, r, idx);
  }

  // A new inode, and its record in directory parent.
  method AddFresh(fs: Fs, parent: int, name: seq<u8>, dir: bool) returns (idx: int, ghost y: Inode)
    requires fs.Valid() && IsDir(fs, parent) && |Content(fs, parent)| <= LIMIT
    modifies fs
    ensures fs.Valid() && (idx == -1 || 0 < idx < INODES)
    ensures idx > 0 ==>
              !old(fs.inodes)[idx].occupied && y == BLANK.(occupied := true, dir := dir, nlink := 1, parent := parent)
    ensures idx > 0 ==> File(y, old(fs.disk), fs.total) == []
    ensures idx > 0 ==> AddedTo(old(fs.inodes)[idx := y], old(fs.disk), fs.inodes, fs.disk, fs.total, parent, idx, name)
  {
    idx := fs.NewInode(dir, parent);
    if idx < 0 { return -1, BLANK; }
    y := fs.inodes[idx];
    var ok := AddOrDrop(fs, parent, idx, name);
    if !ok { return -1, y; }
  }

  // The record of an inode without sectors, which is free again if that fails.
  method AddOrDrop(fs: Fs, dir: int, idx: nat, name: seq<u8>) returns (ok: bool)
    requires fs.Valid() && IsDir(fs, dir) && 0 < idx < INODES && idx != dir && OwnsNothing(fs.inodes[idx])
    requires |Content(fs, dir)| <= LIMIT
    modifies fs
    ensures fs.Valid()
    ensures ok ==> AddedTo(old(fs.inodes), old(fs.disk), fs.inodes, fs.disk, fs.total, dir, idx, name)
  {
    ok := AddEntry(fs, dir, idx, name);
    if !ok { fs.Drop(idx); }
  }

  lemma CreateFrame(ins: seq<Inode>, d: Disk, idx: nat, y: Inode, ins': seq<Inode>, d': Disk, total: u32, dir: nat)
    requires idx < |ins| && dir != idx && OtherFilesSame(ins[idx := y], d, ins', d', dir, total)
    ensures FilesSame(ins, d, ins', d', total, {dir, idx}) && ins'[idx] == y
    ensures File(ins'[idx], d', total) == File(y, d, total)
  {
  }

  /** The new inode idx in directory parent, whose other names are as they were. */
  ghost predicate Created(ins: seq<Inode>, d: Disk, total: u32, parent: int, idx: int, name: seq<u8>, dir: bool,
      names: map<seq<u8>, u32>)
  {
    && Ns(ins, d, total) && |ins| == INODES && 1 < idx < INODES && 0 < parent < INODES
    && ins[idx] == BLANK.(occupied := true, dir := dir, nlink := 1, parent := parent) && File(ins[idx], d, total) == []
    && Entries(Parse(File(ins[parent], d, total))) == names[name := idx]
  }

  lemma SavedCreated(ins: seq<Inode>, d: Disk, d': Disk, total: u32, parent: int, idx: int, name: seq<u8>, dir: bool,
      names: map<seq<u8>, u32>)
    requires Created(ins, d, total, parent, idx, name, dir, names) && Saved(ins, d, d', total)
    ensures Created(ins, d', total, parent, idx, name, dir, names)
  {
    SameFiles(ins, d, d', total);
  }

  // The new inode and its record; nothing is saved yet.
  method CreateEntry(fs: Fs, parent: int, name: seq<u8>, dir: bool) returns (idx: int)
    requires NsValid(fs) && IsDir(fs, parent)
    modifies fs
    ensures fs.Valid() && (idx == -1 || 0 < idx < INODES)
    ensures idx > 0 ==>
              && !old(fs.inodes)[idx].occupied
              && FilesSame(old(fs.inodes), old(fs.disk), fs.inodes, fs.disk, fs.total, {parent, idx})
    ensures idx > 0 && |old(Content(fs, parent))| + RecLen(|name|) <= LIMIT ==>
              Created(fs.inodes, fs.disk, fs.total, parent, idx, name, dir, old(Entries(Parse(Content(fs, parent)))))
  {
    ghost var y;
    idx, y := AddFresh(fs, parent, name, dir);
    if idx < 0 { return; }
    CreateFrame(old(fs.inodes), old(fs.disk), idx, y, fs.inodes, fs.disk, fs.total, parent);
    if |old(Content(fs, parent))| + RecLen(|name|) <= LIMIT {
      CreateKeeps(old(fs.inodes), old(fs.disk), idx, y, fs.inodes, fs.disk, fs.total, parent, name);
    }
  }

  /** fs_create_file, and one step of fs_create_dir, in directory parent: the number of the new
      inode, or -1. */
  method Create(fs: Fs, parent: int, name: seq<u8>, dir: bool) returns (idx: int)
    requires NsValid(fs) && IsDir(fs, parent)
    modifies fs
    ensures fs.Valid() && (idx == -1 || 0 < idx < INODES)
    ensures idx > 0 ==>
              && !old(fs.inodes)[idx].occupied
              && FilesSame(old(fs.inodes), old(fs.disk), fs.inodes, fs.disk, fs.total, {parent, idx})
    ensures idx > 0 && |old(Content(fs, parent))| + RecLen(|name|) <= LIMIT ==>
              Created(fs.inodes, fs.disk, fs.total, parent, idx, name, dir, old(Entries(Parse(Content(fs, parent)))))
    ensures old(Lookup(Parse(Content(fs, parent)), name)) >= 0 ==>
              idx == -1 && NsValid(fs) && fs.inodes == old(fs.inodes) && fs.disk == old(fs.disk)
  {
    var found := FindName(fs, parent, name);
    if found >= 0 { return -1; }
    idx := CreateEntry(fs, parent, name, dir);
    if idx < 0 { return -1; }
    ghost var d := fs.disk;
    var ok := Save(fs);
    if !ok { return -1; }
    SavedSame(old(fs.inodes), old(fs.disk), fs.inodes, d, fs.disk, fs.total, {parent, idx});
    if |old(Content(fs, parent))| + RecLen(|name|) <= LIMIT {
      SavedCreated(fs.inodes, d, fs.disk, fs.total, parent, idx, name, dir, old(Entries(Parse(Content(fs, parent)))));
    }
  }

  // The new record and the new link count.
  method AddAndCount(fs: Fs, idx: int, dir: int, name: seq<u8>) returns (ok: bool, ghost ins1: seq<Inode>)
    requires fs.Valid() && IsDir(fs, dir) && |Content(fs, dir)| <= LIMIT && 0 < idx < INODES
    modifies fs
    ensures fs.Valid()
    ensures ok ==> AddedTo(old(fs.inodes), old(fs.disk), ins1, fs.disk, fs.total, dir, idx, name)
    ensures ok ==> fs.inodes == ins1[idx := ins1[idx].(nlink := (old(fs.inodes)[idx].nlink + 1) % 65536)]
  {
    var n := (fs.inodes[idx].nlink + 1) % 65536;
    ok := AddEntry(fs, dir, idx, name);
    ins1 := fs.inodes;
    if ok { fs.SetLinks(idx, n, fs.inodes[idx].parent); }
  }

  lemma LinkFrame(ins: seq<Inode>, d: Disk, ins1: seq<Inode>, d1: Disk, ins2: seq<Inode>, total: u32, idx: nat,
      dir: nat, n: u16)
    requires idx < |ins| && idx != dir && OtherFilesSame(ins, d, ins1, d1, dir, total)
    requires ins2 == ins1[idx := ins1[idx].(nlink := n)]
    ensures FilesSame(ins, d, ins2, d1, total, {dir, idx}) && ins2[idx] == ins[idx].(nlink := n)
    ensures File(ins2[idx], d1, total) == File(ins[idx], d, total)
  {
    SameFile(ins1[idx], ins2[idx], d1, total);
  }

  /** Directory dir has one more name for inode idx, whose 16-bit link count went up; the counts are still right exactly
      if it was not full.  But for the two all is as it was. */
  ghost predicate LinkedAs(ins: seq<Inode>, d: Disk, ins': seq<Inode>, d': Disk, total: u32, dir: int, idx: int,
      name: seq<u8>)
  {
    && |ins| == INODES && 0 < dir < INODES && 0 < idx < INODES && !ins[idx].dir
    && FilesSame(ins, d, ins', d', total, {dir, idx})
    && ins'[idx] == ins[idx].(nlink := (ins[idx].nlink + 1) % 65536)
    && File(ins'[idx], d', total) == File(ins[idx], d, total)
    && (|File(ins[dir], d, total)| + RecLen(|name|) <= LIMIT ==>
          && (Ns(ins', d', total) <==> ins[idx].nlink < 65535)
          && Entries(Parse(File(ins'[dir], d', total))) == Entries(Parse(File(ins[dir], d, total)))[name := idx])
  }

  lemma SavedLinked(ins: seq<Inode>, d: Disk, ins': seq<Inode>, d1: Disk, d2: Disk, total: u32, dir: int, idx: int,
      name: seq<u8>)
    requires LinkedAs(ins, d, ins', d1, total, dir, idx, name) && Saved(ins', d1, d2, total)
    ensures LinkedAs(ins, d, ins', d2, total, dir, idx, name)
  {
    SavedSame(ins, d, ins', d1, d2, total, {dir, idx});
    SameFiles(ins', d1, d2, total);
  }

  lemma LinkMade(ins: seq<Inode>, d: Disk, ins1: seq<Inode>, d1: Disk, ins2: seq<Inode>, total: u32, idx: nat, dir: nat,
      name: seq<u8>)
    requires Ns(ins, d, total) && 0 < idx < INODES && 0 < dir && ins[idx].occupied && !ins[idx].dir
    requires AddedTo(ins, d, ins1, d1, total, dir, idx, name)
    requires ins2 == ins1[idx := ins1[idx].(nlink := (ins[idx].nlink + 1) % 65536)]
    ensures LinkedAs(ins, d, ins2, d1, total, dir, idx, name)
  {
    LinkFrame(ins, d, ins1, d1, ins2, total, idx, dir, (ins[idx].nlink + 1) % 65536);
    if |File(ins[dir], d, total)| + RecLen(|name|) <= LIMIT {
      LinkKeeps(ins, d, ins1, d1, ins2, total, idx, dir, name);
    }
  }

  method LinkEntry(fs: Fs, idx: int, dir: int, name: seq<u8>) returns (ok: bool)
    requires NsValid(fs) && IsDir(fs, dir) && 0 < idx < INODES && fs.inodes[idx].occupied && !fs.inodes[idx].dir
    modifies fs
    ensures fs.Valid() && (ok ==> LinkedAs(old(fs.inodes), old(fs.disk), fs.inodes, fs.disk, fs.total, dir, idx, name))
  {
    ghost var ins1;
    ok, ins1 := AddAndCount(fs, idx, dir, name);
    if ok { LinkMade(old(fs.inodes), old(fs.disk), ins1, fs.disk, fs.inodes, fs.total, idx, dir, name); }
  }

  /** fs_link of inode idx as a name in directory parent. */
  method Link(fs: Fs, idx: int, parent: int, name: seq<u8>) returns (ok: bool)
    requires NsValid(fs) && IsDir(fs, parent) && 0 < idx < INODES && fs.inodes[idx].occupied
    modifies fs
    ensures fs.Valid()
    ensures ok ==> LinkedAs(old(fs.inodes), old(fs.disk), fs.inodes, fs.disk, fs.total, parent, idx, name)
    ensures old(fs.inodes)[idx].dir || old(Lookup(Parse(Content(fs, parent)), name)) >= 0 ==>
              !ok && NsValid(fs) && fs.inodes == old(fs.inodes) && fs.disk == old(fs.disk)
  {
    if fs.inodes[idx].dir { return false; }
    var found := FindName(fs, parent, name);
    if found >= 0 { return false; }
    ok := LinkEntry(fs, idx, parent, name);
    if !ok { return; }
    ghost var d := fs.disk;
    ok := Save(fs);
    SavedLinked(old(fs.inodes), old(fs.disk), fs.inodes, d, fs.disk, fs.total, parent, idx, name);
  }

  // Link counts and parents are not part of any directory.
  lemma SameDirs(ins: seq<Inode>, d: Disk, total: u32, i: nat, y: Inode)
    requires i < |ins| && y == ins[i].(nlink := y.nlink, parent := y.parent)
    ensures Dirs(ins[i := y], d, total) == Dirs(ins, d, total)
    ensures DirsOk(ins, d, total) ==> DirsOk(ins[i := y], d, total)
  {
    SameFile(ins[i], y, d, total);
  }

  lemma SameFile(x: Inode, y: Inode, d: Disk, total: u32)
    requires y == x.(nlink := y.nlink, parent := y.parent)
    ensures File(y, d, total) == File(x, d, total)
  {
    assert Exts(y, d) == Exts(x, d);
    assert Parts(y, d, total) == Parts(x, d, total);
  }

  lemma ParentKeeps(ins: seq<Inode>, d: Disk, total: u32, i: nat, y: Inode)
    requires i < |ins| && y == ins[i].(parent := y.parent)
    ensures Dirs(ins[i := y], d, total) == Dirs(ins, d, total) && (Ns(ins, d, total) ==> Ns(ins[i := y], d, total))
  {
    SameDirs(ins, d, total, i, y);
  }

  // Neither of the directory operations touches link counts.
  lemma FieldsLinks(ins: seq<Inode>, d: Disk, ins': seq<Inode>, d': Disk, dir: nat, total: u32)
    requires dir < |ins| && OtherFilesSame(ins, d, ins', d', dir, total)
    requires Resized(ins[dir], ins'[dir])
    ensures SameLinks(ins, ins', |ins|)
  {
  }

  // The 16-bit link count goes up by one.
  lemma LinkCount(ins: seq<Inode>, ds: seq<seq<Rec>>, ins': seq<Inode>, dir: nat, r: Rec, n: nat)
    requires Linked(ins, ds) && dir < INODES && 1 < n < INODES && r.ino == n && SameLinks(ins, ins', n)
    requires ins[n].occupied && ins'[n].occupied && ins'[n].nlink == (ins[n].nlink + 1) % 65536
    ensures Linked(ins', ds[dir := ds[dir] + [r]]) <==> ins[n].nlink < 65535
  {
    if ins[n].nlink < 65535 {
      OneMore(ins, ds, ins', dir, r, n);
    } else {
      RefsAdd(ds, dir, r);
    }
  }

  /** A full count goes to 0 while there is one more record. */
  lemma LinkWraps(ins: seq<Inode>, ds: seq<seq<Rec>>, ins': seq<Inode>, dir: nat, r: Rec, n: nat)
    requires Linked(ins, ds) && dir < INODES && 1 < n < INODES && r.ino == n && |ins'| == INODES
    requires ins[n].occupied && ins[n].nlink == 65535 && ins'[n] == ins[n].(nlink := (ins[n].nlink + 1) % 65536)
    ensures ins'[n].nlink == 0 && Refs(ds[dir := ds[dir] + [r]], n) == 65536 && !Linked(ins', ds[dir := ds[dir] + [r]])
  {
    RefsAdd(ds, dir, r);
  }

  lemma LinkKeeps(ins: seq<Inode>, d: Disk, ins1: seq<Inode>, d1: Disk, ins2: seq<Inode>, total: u32, idx: nat,
      dir: nat, name: seq<u8>)
    requires Ns(ins, d, total) && 0 < idx < INODES && ins[idx].occupied && !ins[idx].dir
    requires AddedTo(ins, d, ins1, d1, total, dir, idx, name) && |File(ins[dir], d, total)| + RecLen(|name|) <= LIMIT
    requires ins2 == ins1[idx := ins1[idx].(nlink := (ins[idx].nlink + 1) % 65536)]
    ensures Ns(ins2, d1, total) <==> ins[idx].nlink < 65535
    ensures Entries(Parse(File(ins2[dir], d1, total))) == Entries(Parse(File(ins[dir], d, total)))[name := idx]
  {
    var ds := Dirs(ins, d, total);
    Added(ins, d, ins1, d1, total, dir, Rec(idx, name));
    SameDirs(ins1, d1, total, idx, ins2[idx]);
    LinkCount(ins, ds, ins2, dir, Rec(idx, name), idx);
  }

  // ----- writing a file -----

  /** A write to a file that is no directory keeps every name and count. */
  lemma WriteKeepsNs(ins: seq<Inode>, d: Disk, ins': seq<Inode>, d': Disk, total: u32, idx: nat)
    requires Ns(ins, d, total) && idx < INODES && !ins[idx].dir && OtherFilesSame(ins, d, ins', d', idx, total)
    requires Resized(ins[idx], ins'[idx])
    ensures Ns(ins', d', total) && Dirs(ins', d', total) == Dirs(ins, d, total)
  {
    OtherDirs(ins, d, ins', d', idx, total);
    assert Dirs(ins, d, total)[idx := []] == Dirs(ins, d, total);
  }

  /** fs_write of an existing file, in the namespace. */
  method WriteNamed(fs: Fs, idx: int, data: seq<u8>) returns (ok: bool)
    requires NsValid(fs) && |data| < 0x1_0000_0000 && 0 < idx < INODES
    modifies fs
    ensures NsValid(fs) && (ok ==> Content(fs, idx) == if |data| < 0xFFFF_FFFF then data else [])
    ensures OtherFilesSame(old(fs.inodes), old(fs.disk), fs.inodes, fs.disk, idx, fs.total)
  {
    ok := fs.WriteFile(idx, data);
    if !old(fs.inodes)[idx].dir {
      WriteKeepsNs(old(fs.inodes), old(fs.disk), fs.inodes, fs.disk, fs.total, idx);
    }
  }

  // ----- delete -----

  // The record goes, and a link or, with the last one, the inode.
  method RemoveAndCount(fs: Fs, idx: int, dir: int, name: seq<u8>) returns (ok: bool, ghost ins1: seq<Inode>)
    requires fs.Valid() && IsDir(fs, dir) && DirOk(Content(fs, dir)) && 0 < idx < INODES && idx != dir
    requires fs.inodes[idx].occupied
    modifies fs
    ensures fs.Valid()
    ensures ok ==> RemovedFrom(old(fs.inodes), old(fs.disk), ins1, fs.disk, fs.total, dir, name)
    ensures ok ==>
              fs.inodes == ins1[idx := if ins1[idx].nlink > 1 then ins1[idx].(nlink := ins1[idx].nlink - 1) else BLANK]
  {
    ok := RemoveEntry(fs, dir, name);
    ins1 := fs.inodes;
    if !ok { return; }
    if fs.inodes[idx].nlink > 1 {
      fs.SetLinks(idx, fs.inodes[idx].nlink - 1, fs.inodes[idx].parent);
    } else {
      fs.Release(idx);
    }
  }

  lemma GoneDirs(ins: seq<Inode>, d: Disk, total: u32, i: nat)
    requires i < |ins|
    ensures Dirs(ins[i := BLANK], d, total) == Dirs(ins, d, total)[i := []]
    ensures DirsOk(ins, d, total) && i != 1 ==> DirsOk(ins[i := BLANK], d, total)
  {
  }

  // The last record of an inode goes, and the inode with it.
  lemma LastLinkGone(ins: seq<Inode>, ds: seq<seq<Rec>>, ins': seq<Inode>, dir: nat, i: nat, n: nat)
    requires Linked(ins, ds) && dir < INODES && i < |ds[dir]| && ds[dir][i].ino == n && 1 < n < INODES
    requires SameLinks(ins, ins', n)
    requires ins[n].occupied && ins[n].nlink <= 1 && !ins'[n].occupied && n != dir && AllDead(ds[n])
    ensures Linked(ins', ds[dir := Without(ds[dir], i)][n := []])
  {
    RefsRemove(ds, dir, i);
    OneLess(ins, ds, ins', dir, i, n);
    DeadDirGone(ins', ds[dir := Without(ds[dir], i)], n);
  }

  lemma DeleteLink(ins: seq<Inode>, ds: seq<seq<Rec>>, ins1: seq<Inode>, d1: Disk, ins2: seq<Inode>, total: u32,
      idx: nat, dir: nat, i: nat)
    requires Linked(ins, ds) && dir < INODES && i < |ds[dir]| && ds[dir][i].ino == idx && 1 < idx < INODES && idx != dir
    requires ins[idx].occupied
    requires |ins1| == INODES && DirsOk(ins1, d1, total) && Dirs(ins1, d1, total) == ds[dir := Without(ds[dir], i)]
    requires AllDead(ds[idx])
    requires forall j :: 0 <= j < INODES ==> ins1[j].occupied == ins[j].occupied && ins1[j].nlink == ins[j].nlink
    requires ins2 == ins1[idx := if ins1[idx].nlink > 1 then ins1[idx].(nlink := ins1[idx].nlink - 1) else BLANK]
    ensures Ns(ins2, d1, total)
  {
    if ins1[idx].nlink > 1 {
      SameDirs(ins1, d1, total, idx, ins2[idx]);
      OneLess(ins, ds, ins2, dir, i, idx);
    } else {
      GoneDirs(ins1, d1, total, idx);
      LastLinkGone(ins, ds, ins2, dir, i, idx);
    }
  }

  lemma DeleteKeeps(ins: seq<Inode>, d: Disk, ins1: seq<Inode>, d1: Disk, ins2: seq<Inode>, total: u32, idx: nat,
      dir: nat, name: seq<u8>)
    requires Ns(ins, d, total) && RemovedFrom(ins, d, ins1, d1, total, dir, name) && 1 < idx < INODES && idx != dir
    requires Lookup(Parse(File(ins[dir], d, total)), name) == idx && AllDead(Recs(ins[idx], d, total))
    requires ins2 == ins1[idx := if ins1[idx].nlink > 1 then ins1[idx].(nlink := ins1[idx].nlink - 1) else BLANK]
    ensures Ns(ins2, d1, total)
    ensures Entries(Parse(File(ins2[dir], d1, total))) == Entries(Parse(File(ins[dir], d, total))) - {name}
  {
    var ds := Dirs(ins, d, total);
    var i := Index(ds[dir], name);
    Removed(ins, d, ins1, d1, total, dir, name);
    NamedIsOccupied(ins, ds, dir, i);
    DeleteLink(ins, ds, ins1, d1, ins2, total, idx, dir, i);
  }

  /** Inode idx has lost a link, or is free if that was the last; but for it and directory dir all is as it was. */
  ghost predicate Unlinked(ins: seq<Inode>, d: Disk, ins': seq<Inode>, d': Disk, total: u32, dir: int, idx: int)
  {
    && FilesSame(ins, d, ins', d', total, {dir, idx}) && 0 <= idx < |ins|
    && if ins[idx].nlink > 1 then
         ins'[idx] == ins[idx].(nlink := ins[idx].nlink - 1) && File(ins'[idx], d', total) == File(ins[idx], d, total)
       else ins'[idx] == BLANK
  }

  lemma DeleteFrame(ins: seq<Inode>, d: Disk, ins1: seq<Inode>, d1: Disk, ins2: seq<Inode>, total: u32, idx: nat,
      dir: nat)
    requires idx < |ins| && idx != dir && OtherFilesSame(ins, d, ins1, d1, dir, total)
    requires ins2 == ins1[idx := if ins1[idx].nlink > 1 then ins1[idx].(nlink := ins1[idx].nlink - 1) else BLANK]
    ensures Unlinked(ins, d, ins2, d1, total, dir, idx)
  {
    if ins1[idx].nlink > 1 { SameFile(ins1[idx], ins2[idx], d1, total); }
  }

  /** The name is gone from directory dir, and the counts are right. */
  ghost predicate Deleted(ins: seq<Inode>, d: Disk, ins': seq<Inode>, d': Disk, total: u32, dir: int, idx: int,
      name: seq<u8>)
  {
    && |ins| == INODES && 0 < dir < INODES && Unlinked(ins, d, ins', d', total, dir, idx) && Ns(ins', d', total)
    && Entries(Parse(File(ins'[dir], d', total))) == Entries(Parse(File(ins[dir], d, total))) - {name}
  }

  lemma SavedDeleted(ins: seq<Inode>, d: Disk, ins': seq<Inode>, d1: Disk, d2: Disk, total: u32, dir: int, idx: int,
      name: seq<u8>)
    requires Deleted(ins, d, ins', d1, total, dir, idx, name) && Saved(ins', d1, d2, total)
    ensures Deleted(ins, d, ins', d2, total, dir, idx, name)
  {
    SavedSame(ins, d, ins', d1, d2, total, {dir, idx});
    SameFiles(ins', d1, d2, total);
  }

  method DeleteEntry(fs: Fs, idx: int, dir: int, name: seq<u8>) returns (ok: bool)
    requires NsValid(fs) && IsDir(fs, dir) && 1 < idx < INODES && idx != dir && fs.inodes[idx].occupied
    requires Lookup(Parse(Content(fs, dir)), name) == idx && AllDead(Recs(fs.inodes[idx], fs.disk, fs.total))
    modifies fs
    ensures fs.Valid() && (ok ==> Deleted(old(fs.inodes), old(fs.disk), fs.inodes, fs.disk, fs.total, dir, idx, name))
  {
    ghost var ins1;
    ok, ins1 := RemoveAndCount(fs, idx, dir, name);
    if !ok { return; }
    DeleteFrame(old(fs.inodes), old(fs.disk), ins1, fs.disk, fs.inodes, fs.total, idx, dir);
    DeleteKeeps(old(fs.inodes), old(fs.disk), ins1, fs.disk, fs.inodes, fs.total, idx, dir, name);
  }

  // A name of a directory leads to an inode in use.
  lemma NameLeads(ins: seq<Inode>, d: Disk, total: u32, dir: nat, name: seq<u8>)
    requires Ns(ins, d, total) && dir < INODES && ins[dir].occupied && ins[dir].dir
    ensures var n := Lookup(Parse(File(ins[dir], d, total)), name);
            n >= 0 ==> 0 < n < INODES && ins[n].occupied && !AllDead(Recs(ins[dir], d, total))
  {
    var ds := Dirs(ins, d, total);
    var i := Index(ds[dir], name);
    if i < |ds[dir]| { NamedIsOccupied(ins, ds, dir, i); }
  }

  // The inode to delete, or -1: the root and directories with entries stay.
  method MayDelete(fs: Fs, parent: int, name: seq<u8>) returns (idx: int)
    requires NsValid(fs) && IsDir(fs, parent)
    ensures idx == -1 || (1 < idx < INODES && idx == Lookup(Parse(Content(fs, parent)), name))
    ensures idx > 0 ==> fs.inodes[idx].occupied && idx != parent && AllDead(Recs(fs.inodes[idx], fs.disk, fs.total))
    ensures idx == -1 ==>
              var n := Lookup(Parse(Content(fs, parent)), name);
                n < 2 || (n < INODES && !AllDead(Recs(fs.inodes[n], fs.disk, fs.total)))
  {
    idx := FindName(fs, parent, name);
    if idx < 0 || idx == 1 { return -1; }
    NameLeads(fs.inodes, fs.disk, fs.total, parent, name);
    if fs.inodes[idx].dir {
      var blob := ReadDir(fs, idx);
      var empty := NoneLive(blob);
      if !empty { return -1; }
    }
  }

  /** fs_delete of a name in directory parent; it leads to an inode that is not the root, and to no
      directory with entries. */
  method Delete(fs: Fs, parent: int, name: seq<u8>) returns (ok: bool)
    requires NsValid(fs) && IsDir(fs, parent)
    modifies fs
    ensures fs.Valid()
    ensures ok ==> var idx := old(Lookup(Parse(Content(fs, parent)), name));
                   && 1 < idx < INODES && old(AllDead(Recs(fs.inodes[idx], fs.disk, fs.total)))
                   && Deleted(old(fs.inodes), old(fs.disk), fs.inodes, fs.disk, fs.total, parent, idx, name)
    ensures var n := old(Lookup(Parse(Content(fs, parent)), name));
            n < 2 || n >= INODES || !AllDead(Recs(old(fs.inodes)[n], old(fs.disk), fs.total)) ==>
              !ok && NsValid(fs) && fs.inodes == old(fs.inodes) && fs.disk == old(fs.disk)
  {
    var idx := MayDelete(fs, parent, name);
    if idx < 0 { return false; }
    ok := DeleteEntry(fs, idx, parent, name);
    if !ok { return; }
    ghost var d := fs.disk;
    ok := Save(fs);
    SavedDeleted(old(fs.inodes), old(fs.disk), fs.inodes, d, fs.disk, fs.total, parent, idx, name);
  }

  // ----- rename -----

  // The new record, then the old one.
  method MoveRecord(fs: Fs, idx: int, op: int, oname: seq<u8>, np: int, nname: seq<u8>)
    returns (ok: bool, ghost ins1: seq<Inode>, ghost d1: Disk)
    requires fs.Valid() && IsDir(fs, op) && IsDir(fs, np) && |Content(fs, np)| <= LIMIT && 0 < idx < INODES
    modifies fs
    ensures fs.Valid() && |ins1| == INODES && IsDir(fs, op) && ins1[op].occupied && ins1[op].dir
    ensures ok ==> AddedTo(old(fs.inodes), old(fs.disk), ins1, d1, fs.total, np, idx, nname)
    ensures ok && DirOk(File(ins1[op], d1, fs.total)) ==> RemovedFrom(ins1, d1, fs.inodes, fs.disk, fs.total, op, oname)
    ensures FilesSame(old(fs.inodes), old(fs.disk), fs.inodes, fs.disk, fs.total, {op, np})
  {
    ok := AddEntry(fs, np, idx, nname);
    ins1, d1 := fs.inodes, fs.disk;
    if !ok { return; }
    ok := RemoveEntry(fs, op, oname);
  }

  // The record of the old name names idx, also after the new record came to the same directory.
  lemma OldRecord(ds: seq<seq<Rec>>, idx: nat, op: nat, oname: seq<u8>, np: nat, nname: seq<u8>)
    requires op < |ds| && np < |ds| && Lookup(ds[op], oname) == idx && Lookup(ds[np], nname) == -1 && 0 < idx < INODES
    ensures var ds1 := ds[np := ds[np] + [Rec(idx, nname)]]; var i := Index(ds1[op], oname);
            i < |ds1[op]| && ds1[op][i].ino == idx
  {
    IndexAppend(ds[op], Rec(idx, nname), oname);
  }

  // A record for idx came, and one went.
  lemma MovedLinks(ins: seq<Inode>, ds: seq<seq<Rec>>, ins': seq<Inode>, np: nat, r: Rec, op: nat, i: nat)
    requires Linked(ins, ds) && np < INODES && op < INODES && 0 < r.ino < INODES && ins[r.ino].occupied
    requires SameLinks(ins, ins', INODES)
    requires var ds1 := ds[np := ds[np] + [r]]; i < |ds1[op]| && ds1[op][i].ino == r.ino
    ensures var ds1 := ds[np := ds[np] + [r]]; Linked(ins', ds1[op := Without(ds1[op], i)])
  {
    var ds1 := ds[np := ds[np] + [r]];
    RefsAdd(ds, np, r);
    RefsRemove(ds1, op, i);
    Relinked(ins, ds, ins', ds1[op := Without(ds1[op], i)], r.ino);
  }

  /** The names of two directories, maybe the same, after rename. */
  ghost predicate Renamed(ds: seq<seq<Rec>>, ds': seq<seq<Rec>>, idx: u32, op: nat, oname: seq<u8>, np: nat,
      nname: seq<u8>)
    requires op < |ds| && np < |ds| && |ds'| == |ds|
  {
    if op == np then
      Entries(ds'[op]) == Entries(ds[op])[nname := idx] - {oname}
    else
      Entries(ds'[np]) == Entries(ds[np])[nname := idx] && Entries(ds'[op]) == Entries(ds[op]) - {oname}
  }

  // Rename on records.
  lemma RenamedRecs(ds: seq<seq<Rec>>, idx: u32, op: nat, oname: seq<u8>, np: nat, nname: seq<u8>)
    requires op < |ds| && np < |ds| && Lookup(ds[op], oname) == idx && Lookup(ds[np], nname) == -1 && 0 < idx < INODES
    requires DistinctNames(ds[op]) && DistinctNames(ds[np])
    ensures var ds1 := ds[np := ds[np] + [Rec(idx, nname)]]; var i := Index(ds1[op], oname);
            i < |ds1[op]| && Renamed(ds, ds1[op := Without(ds1[op], i)], idx, op, oname, np, nname)
  {
    var r := Rec(idx, nname);
    var ds1 := ds[np := ds[np] + [r]];
    OldRecord(ds, idx, op, oname, np, nname);
    EntriesAppend(ds[np], r);
    EntriesWithout(ds1[op], Index(ds1[op], oname));
  }

  lemma RenameLinks(ins: seq<Inode>, ds: seq<seq<Rec>>, ins1: seq<Inode>, d1: Disk, ins2: seq<Inode>, d2: Disk,
      total: u32,
                    idx: nat, op: nat, oname: seq<u8>, np: nat, nname: seq<u8>)
    requires Linked(ins, ds) && 0 < idx < INODES && ins[idx].occupied && op < INODES && np < INODES
    requires Dirs(ins1, d1, total) == ds[np := ds[np] + [Rec(idx, nname)]] && Lookup(ds[op], oname) == idx
    requires Lookup(ds[np], nname) == -1
    requires DirsOk(ins1, d1, total) && RemovedFrom(ins1, d1, ins2, d2, total, op, oname)
    requires SameLinks(ins, ins2, INODES)
    requires DistinctNames(ds[op]) && DistinctNames(ds[np])
    ensures Ns(ins2, d2, total) && Renamed(ds, Dirs(ins2, d2, total), idx, op, oname, np, nname)
  {
    var r := Rec(idx, nname);
    Removed(ins1, d1, ins2, d2, total, op, oname);
    OldRecord(ds, idx, op, oname, np, nname);
    MovedLinks(ins, ds, ins2, np, r, op, Index(ds[np := ds[np] + [r]][op], oname));
    RenamedRecs(ds, idx, op, oname, np, nname);
  }

  lemma RenameKeeps(ins: seq<Inode>, d: Disk, ins1: seq<Inode>, d1: Disk, ins2: seq<Inode>, d2: Disk, total: u32,
                    idx: nat, op: nat, oname: seq<u8>, np: nat, nname: seq<u8>)
    requires Ns(ins, d, total) && 0 < idx < INODES && ins[idx].occupied && op < INODES && ins[op].occupied
    requires ins[op].dir
    requires AddedTo(ins, d, ins1, d1, total, np, idx, nname) && |File(ins[np], d, total)| + RecLen(|nname|) <= LIMIT
    requires Lookup(Parse(File(ins[op], d, total)), oname) == idx
    requires DirOk(File(ins1[op], d1, total)) ==> RemovedFrom(ins1, d1, ins2, d2, total, op, oname)
    ensures |ins2| == INODES && Ns(ins2, d2, total)
    ensures Renamed(Dirs(ins, d, total), Dirs(ins2, d2, total), idx, op, oname, np, nname)
  {
    Added(ins, d, ins1, d1, total, np, Rec(idx, nname));
    assert DirOk(File(ins1[op], d1, total));
    FieldsLinks(ins, d, ins1, d1, np, total);
    FieldsLinks(ins1, d1, ins2, d2, op, total);
    RenameLinks(ins, Dirs(ins, d, total), ins1, d1, ins2, d2, total, idx, op, oname, np, nname);
  }

  /** Inode idx has moved from a name in directory op to one in directory np, which may be the same, and the counts
      are right; but for the two and the parent of idx all is as it was. */
  ghost predicate Moved(ins: seq<Inode>, d: Disk, ins': seq<Inode>, d': Disk, total: u32,
                        idx: int, op: int, oname: seq<u8>, np: int, nname: seq<u8>)
  {
    && |ins| == INODES && 0 < idx < INODES && 0 < op < INODES && 0 < np < INODES
    && MovedOthers(ins, d, ins', d', total, idx, op, np)
    && (|File(ins[np], d, total)| + RecLen(|nname|) <= LIMIT ==>
          Ns(ins', d', total) && Renamed(Dirs(ins, d, total), Dirs(ins', d', total), idx, op, oname, np, nname))
  }

  ghost predicate MovedOthers(ins: seq<Inode>, d: Disk, ins': seq<Inode>, d': Disk, total: u32, idx: int, op: int,
      np: int)
    requires 0 <= idx < |ins|
  {
    && FilesSame(ins, d, ins', d', total, {op, np, idx})
    && (idx != op && idx != np ==>
      ins'[idx] == ins[idx].(parent := ins'[idx].parent) && File(ins'[idx], d', total) == File(ins[idx], d, total))
  }

  lemma OthersMoved(ins: seq<Inode>, d: Disk, ins': seq<Inode>, d': Disk, total: u32, idx: int, op: int, np: int)
    requires 0 <= idx < |ins| && FilesSame(ins, d, ins', d', total, {op, np})
    ensures MovedOthers(ins, d, ins', d', total, idx, op, np)
  {
  }

  lemma SavedMoved(ins: seq<Inode>, d: Disk, ins': seq<Inode>, d1: Disk, d2: Disk, total: u32,
                   idx: int, op: int, oname: seq<u8>, np: int, nname: seq<u8>)
    requires Moved(ins, d, ins', d1, total, idx, op, oname, np, nname) && Saved(ins', d1, d2, total)
    ensures Moved(ins, d, ins', d2, total, idx, op, oname, np, nname)
  {
    SavedSame(ins, d, ins', d1, d2, total, {op, np, idx});
    SameFiles(ins', d1, d2, total);
  }

  // The parent of an inode is not part of any file.
  lemma AdoptedMoved(ins: seq<Inode>, d: Disk, ins1: seq<Inode>, ins2: seq<Inode>, d1: Disk, total: u32,
                     idx: int, op: int, oname: seq<u8>, np: int, nname: seq<u8>, parent: u32)
    requires Moved(ins, d, ins1, d1, total, idx, op, oname, np, nname)
    requires ins2 == ins1[idx := ins1[idx].(parent := parent)]
    ensures Moved(ins, d, ins2, d1, total, idx, op, oname, np, nname)
  {
    SameFile(ins1[idx], ins2[idx], d1, total);
    ParentKeeps(ins1, d1, total, idx, ins2[idx]);
  }

  lemma MoveMade(ins: seq<Inode>, d: Disk, ins1: seq<Inode>, d1: Disk, ins2: seq<Inode>, d2: Disk, total: u32,
                 idx: nat, op: nat, oname: seq<u8>, np: nat, nname: seq<u8>)
    requires Ns(ins, d, total) && 0 < idx < INODES && ins[idx].occupied && 0 < op < INODES && 0 < np && ins[op].occupied
    requires ins[op].dir
    requires AddedTo(ins, d, ins1, d1, total, np, idx, nname) && Lookup(Parse(File(ins[op], d, total)), oname) == idx
    requires DirOk(File(ins1[op], d1, total)) ==> RemovedFrom(ins1, d1, ins2, d2, total, op, oname)
    requires FilesSame(ins, d, ins2, d2, total, {op as int, np as int})
    ensures Moved(ins, d, ins2, d2, total, idx, op, oname, np, nname)
  {
    OthersMoved(ins, d, ins2, d2, total, idx, op, np);
    if |File(ins[np], d, total)| + RecLen(|nname|) <= LIMIT {
      RenameKeeps(ins, d, ins1, d1, ins2, d2, total, idx, op, oname, np, nname);
    }
  }

  // The inode's parent is set and the metadata saved.
  method FinishRename(fs: Fs, idx: nat, parent: u32) returns (ok: bool)
    requires fs.Valid() && idx < INODES
    modifies fs`inodes, fs`disk
    ensures fs.Valid() && fs.inodes == old(fs.inodes)[idx := old(fs.inodes)[idx].(parent := parent)]
    ensures Saved(fs.inodes, old(fs.disk), fs.disk, fs.total)
  {
    fs.SetLinks(idx, fs.inodes[idx].nlink, parent);
    ok := Save(fs);
  }

  lemma MoveDone(ins: seq<Inode>, d: Disk, ins1: seq<Inode>, d1: Disk, ins2: seq<Inode>, d2: Disk, total: u32,
                 idx: int, op: int, oname: seq<u8>, np: int, nname: seq<u8>, parent: u32)
    requires Moved(ins, d, ins1, d1, total, idx, op, oname, np, nname)
    requires ins2 == ins1[idx := ins1[idx].(parent := parent)] && Saved(ins2, d1, d2, total)
    ensures Moved(ins, d, ins2, d2, total, idx, op, oname, np, nname)
  {
    AdoptedMoved(ins, d, ins1, ins2, d1, total, idx, op, oname, np, nname, parent);
    SavedMoved(ins, d, ins2, d1, d2, total, idx, op, oname, np, nname);
  }

  method RenameEntry(fs: Fs, idx: int, op: int, oname: seq<u8>, np: int, nname: seq<u8>) returns (ok: bool)
    requires NsValid(fs) && IsDir(fs, op) && IsDir(fs, np) && 0 < idx < INODES && fs.inodes[idx].occupied
    requires Lookup(Parse(Content(fs, op)), oname) == idx
    modifies fs
    ensures fs.Valid()
    ensures ok ==> Moved(old(fs.inodes), old(fs.disk), fs.inodes, fs.disk, fs.total, idx, op, oname, np, nname)
  {
    ghost var ins1, d1;
    ok, ins1, d1 := MoveRecord(fs, idx, op, oname, np, nname);
    if ok { MoveMade(old(fs.inodes), old(fs.disk), ins1, d1, fs.inodes, fs.disk, fs.total, idx, op, oname, np, nname); }
  }

  // The inode to rename, or -1: the old name is missing or the new one taken.
  method MayRename(fs: Fs, op: int, oname: seq<u8>, np: int, nname: seq<u8>) returns (idx: int)
    requires NsValid(fs) && IsDir(fs, op) && IsDir(fs, np)
    ensures idx < 0 <==> Lookup(Parse(Content(fs, op)), oname) < 0 || Lookup(Parse(Content(fs, np)), nname) >= 0
    ensures idx >= 0 ==> idx == Lookup(Parse(Content(fs, op)), oname) && 0 < idx < INODES && fs.inodes[idx].occupied
  {
    idx := FindName(fs, op, oname);
    NameLeads(fs.inodes, fs.disk, fs.total, op, oname);
    if idx < 0 { return -1; }
    var found := FindName(fs, np, nname);
    if found >= 0 { return -1; }
  }

  /** fs_rename of a name in directory op to one in directory np. */
  method Rename(fs: Fs, op: int, oname: seq<u8>, np: int, nname: seq<u8>) returns (ok: bool)
    requires NsValid(fs) && IsDir(fs, op) && IsDir(fs, np)
    modifies fs
    ensures fs.Valid()
    ensures ok ==> var idx := old(Lookup(Parse(Content(fs, op)), oname));
                   Moved(old(fs.inodes), old(fs.disk), fs.inodes, fs.disk, fs.total, idx, op, oname, np, nname) &&
                     fs.inodes[idx].parent == np
    ensures old(Lookup(Parse(Content(fs, op)), oname)) < 0 || old(Lookup(Parse(Content(fs, np)), nname)) >= 0 ==>
              !ok && NsValid(fs) && fs.inodes == old(fs.inodes) && fs.disk == old(fs.disk)
  {
    var idx := MayRename(fs, op, oname, np, nname);
    if idx < 0 { return false; }
    ok := RenameEntry(fs, idx, op, oname, np, nname);
    if !ok { return; }
    ghost var ins1, d1 := fs.inodes, fs.disk;
    ok := FinishRename(fs, idx, np);
    MoveDone(old(fs.inodes), old(fs.disk), ins1, d1, fs.inodes, fs.disk, fs.total, idx, op, oname, np, nname, np);
  }
}
