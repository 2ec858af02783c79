/** The checker: what a clean result means, and that consistent volumes are clean. */
module Fsck {
  import opened Words
  import opened Disks
  import opened Extents
  import opened Ownership
  import opened Files
  import opened Dirents
  import opened Namespace

  // ----- what the checker looks at -----

  /** Where the parts of an inode are, as far as the code can tell; -1 for a part it cannot find. */
  ghost function Lbas(x: Inode, d: Disk, total: u32): (ls: seq<int>)
    ensures |ls| == SectorCount(x, d, total)
  {
    seq(SectorCount(x, d, total), k requires k >= 0 => MapFrom(Exts(x, d), total, k))
  }

  ghost function Nats(ls: seq<int>): set<nat>
  {
    set l: nat | l in ls
  }

  /** What the checker marks for an inode: its parts and its indirect block. */
  ghost function Marks(x: Inode, d: Disk, total: u32): set<nat>
  {
    Nats(Lbas(x, d, total)) + (if x.indirect != 0 then {x.indirect as nat} else {})
  }

  /** The sectors marked before inode k is looked at. */
  ghost function MarkSet(ins: seq<Inode>, d: Disk, total: u32, base: u32, k: nat): set<nat>
    requires k <= |ins|
  {
    if k <= 1 then Range(0, base)
    else MarkSet(ins, d, total, base, k - 1) + if ins[k - 1].occupied then Marks(ins[k - 1], d, total) else {}
  }

  /** The sectors of a file are on the disk, in use, different, and not marked before. */
  ghost predicate SectorsPass(ls: seq<int>, marks: set<nat>, used: set<nat>, total: u32)
  {
    && (forall s :: 0 <= s < |ls| ==> 0 <= ls[s] < total && ls[s] !in marks && ls[s] in used)
    && (forall s, t :: 0 <= s < t < |ls| ==> ls[s] != ls[t])
  }

  // ----- the sectors of one inode -----

  ghost predicate MarkIs(mark: seq<bool>, m: set<nat>)
  {
    forall l :: 0 <= l < |mark| ==> (mark[l] <==> l in m)
  }

  // One part of a file.
  method CheckPart(fs: Fs, lba: int, mark0: seq<bool>, ghost m: set<nat>) returns (errors: nat, mark: seq<bool>)
    requires BitmapOk(fs.bitmap, fs.used, fs.total) && |mark0| == fs.total && MarkIs(mark0, m)
    ensures |mark| == fs.total && MarkIs(mark, m + Nats([lba]))
    ensures errors == 0 <==> 0 <= lba < fs.total && lba !in m && lba in fs.used
  {
    errors, mark := 0, mark0;
    if lba < 0 || lba >= fs.total {
      errors := 1;
    } else {
      if mark[lba] { errors := errors + 1; }
      mark := mark[lba := true];
      var bit := fs.BitmapTest(lba);
      if !bit { errors := errors + 1; }
    }
  }

  method CheckSectors(fs: Fs, x: Inode, mark0: seq<bool>, ghost m: set<nat>) returns (errors: nat, mark: seq<bool>)
    requires BitmapOk(fs.bitmap, fs.used, fs.total) && |mark0| == fs.total && MarkIs(mark0, m)
    ensures |mark| == fs.total && MarkIs(mark, m + Nats(Lbas(x, fs.disk, fs.total)))
    ensures errors == 0 <==> SectorsPass(Lbas(x, fs.disk, fs.total), m, fs.used, fs.total)
  {
    ghost var ls := Lbas(x, fs.disk, fs.total);
    errors, mark := 0, mark0;
    var secs := fs.CountSectors(x);
    assert Nats(ls[..0]) == {};
    for s := 0 to secs
      invariant |mark| == fs.total && MarkIs(mark, m + Nats(ls[..s]))
      invariant errors == 0 <==> SectorsPass(ls[..s], m, fs.used, fs.total)
    {
      var lba := fs.MapSector(x, s);
      PassNext(ls, s, m, fs.used, fs.total);
      var more;
      more, mark := CheckPart(fs, lba, mark, m + Nats(ls[..s]));
      assert m + Nats(ls[..s]) + Nats([lba]) == m + Nats(ls[..s + 1]);
      errors := errors + more;
    }
    assert ls[..secs] == ls;
  }

  lemma PassNext(ls: seq<int>, s: nat, m: set<nat>, used: set<nat>, total: u32)
    requires s < |ls|
    ensures SectorsPass(ls[..s + 1], m, used, total) <==>
              SectorsPass(ls[..s], m, used, total) && 0 <= ls[s] < total && ls[s] !in m + Nats(ls[..s]) && ls[s] in used
    ensures Nats(ls[..s + 1]) == Nats(ls[..s]) + Nats([ls[s]])
  {
    var a, b := ls[..s], ls[..s + 1];
    assert b == a + [ls[s]];
    if SectorsPass(b, m, used, total) {
      assert forall i :: 0 <= i < s ==> a[i] == b[i];
      assert b[s] == ls[s];
    }
  }

  // ----- directories -----

  /** The records the checker sees. */
  ghost function Seen(x: Inode, d: Disk, total: u32): seq<Rec>
  {
    if x.occupied && x.dir && !x.special then Parse(Visible(File(x, d, total))) else []
  }

  /** ... if there is memory for the directory: without it the directory is passed over. */
  ghost function ReadRecs(x: Inode, d: Disk, total: u32, room: bool): seq<Rec>
  {
    if room then Seen(x, d, total) else []
  }

  /** Every live record names an inode in use. */
  ghost predicate AllGood(ins: seq<Inode>, rs: seq<Rec>)
  {
    forall k :: 0 <= k < |rs| && rs[k].ino != 0 ==> rs[k].ino < |ins| && ins[rs[k].ino].occupied
  }

  /** The size is within the sectors, and the records that were read are good. */
  ghost predicate DirPass(ins: seq<Inode>, x: Inode, d: Disk, total: u32, room: bool)
  {
    x.dir ==> x.size <= Capacity(x, d, total) && AllGood(ins, ReadRecs(x, d, total, room))
  }

  // How often the records name inode n, for each n in use.
  ghost predicate Counted(ins: seq<Inode>, counts0: seq<nat>, rs: seq<Rec>, counts: seq<nat>)
  {
    && |counts| == |counts0| == |ins|
    && forall n :: 0 < n < |ins| && ins[n].occupied ==> counts[n] == counts0[n] + Count(rs, n)
  }

  lemma CountedNext(ins: seq<Inode>, counts0: seq<nat>, rs: seq<Rec>, i: nat, counts: seq<nat>)
    requires i < |rs| && Counted(ins, counts0, rs[..i], counts)
    ensures var n := rs[i].ino;
            Counted(ins, counts0, rs[..i + 1],
                    if 0 < n < |ins| && ins[n].occupied then counts[n := counts[n] + 1] else counts)
    ensures AllGood(ins, rs[..i + 1]) <==>
              AllGood(ins, rs[..i]) && (rs[i].ino != 0 ==> rs[i].ino < |ins| && ins[rs[i].ino].occupied)
  {
    assert rs[..i + 1] == rs[..i] + [rs[i]];
    assert forall k :: 0 <= k < i ==> rs[..i + 1][k] == rs[..i][k];
    assert rs[..i + 1][i] == rs[i];
    forall n: nat
      ensures Count(rs[..i + 1], n) == Count(rs[..i], n) + Bit(rs[i].ino == n)
    {
      CountOneMore(rs[..i], rs[i], n);
    }
  }

  // One record.
  method CheckRecord(fs: Fs, ino: u32, counts0: seq<nat>) returns (errors: nat, counts: seq<nat>)
    requires |counts0| == |fs.inodes| == INODES
    ensures counts == if 0 < ino < INODES && fs.inodes[ino].occupied then counts0[ino := counts0[ino] + 1] else counts0
    ensures errors == 0 <==> (ino != 0 ==> ino < INODES && fs.inodes[ino].occupied)
  {
    errors, counts := 0, counts0;
    if ino != 0 {
      if ino >= INODES || !fs.inodes[ino].occupied {
        errors := 1;
      } else {
        counts := counts[ino := counts[ino] + 1];
      }
    }
  }

  method CheckRecords(fs: Fs, blob: seq<u8>, counts0: seq<nat>) returns (errors: nat, counts: seq<nat>)
    requires |counts0| == |fs.inodes| == INODES
    ensures Counted(fs.inodes, counts0, Parse(blob), counts)
    ensures errors == 0 <==> AllGood(fs.inodes, Parse(blob))
  {
    ghost var rs, i := Parse(blob), 0;
    var off := 0;
    errors, counts := 0, counts0;
    AtStart(blob);
    assert rs[..0] == [];
    while off < |blob|
      invariant At(blob, rs, off, i) && Counted(fs.inodes, counts0, rs[..i], counts)
      invariant errors == 0 <==> AllGood(fs.inodes, rs[..i])
    {
      var has, r, next := Next(blob, off, rs, i);
      if !has { break; }
      CountedNext(fs.inodes, counts0, rs, i, counts);
      var more;
      more, counts := CheckRecord(fs, r.ino, counts);
      errors := errors + more;
      off, i := next, i + 1;
    }
    AtEnd(blob, rs, off, i);
    assert rs[..i] == rs;
  }

  method CheckDir(fs: Fs, i: int, room: bool, counts0: seq<nat>) returns (errors: nat, counts: seq<nat>)
    requires |counts0| == |fs.inodes| == INODES && 0 < i < INODES && fs.inodes[i].occupied
    ensures Counted(fs.inodes, counts0, ReadRecs(fs.inodes[i], fs.disk, fs.total, room), counts)
    ensures errors == 0 <==> DirPass(fs.inodes, fs.inodes[i], fs.disk, fs.total, room)
  {
    var x := fs.inodes[i];
    errors, counts := 0, counts0;
    if !x.dir { return; }
    var secs := fs.CountSectors(x);
    if x.size > (if secs > 0xFFFF_FFFF / 512 then 0xFFFF_FFFF else secs * 512) { errors := 1; }
    if room && !x.special {
      var blob := ReadDir(fs, i);
      var more;
      more, counts := CheckRecords(fs, blob, counts);
      errors := errors + more;
    }
  }

  // ----- all inodes -----

  ghost function SeenDirs(ins: seq<Inode>, d: Disk, total: u32, room: seq<bool>): (ds: seq<seq<Rec>>)
    requires |room| == |ins|
    ensures |ds| == |ins|
  {
    seq(|ins|, i requires 0 <= i < |ins| => if i == 0 then [] else ReadRecs(ins[i], d, total, room[i]))
  }

  ghost predicate InodePass(ins: seq<Inode>, d: Disk, total: u32, base: u32, used: set<nat>, room: seq<bool>, i: nat)
    requires i < |ins| == |room|
  {
    ins[i].occupied ==>
      SectorsPass(Lbas(ins[i], d, total), MarkSet(ins, d, total, base, i), used, total) &&
        DirPass(ins, ins[i], d, total, room[i])
  }

  ghost predicate LinkPass(x: Inode, refs: nat)
  {
    x.occupied ==> refs % 65536 != 0 && x.nlink == refs % 65536
  }

  /** What a clean check has seen. */
  ghost predicate Pass(ins: seq<Inode>, d: Disk, total: u32, base: u32, used: set<nat>, room: seq<bool>)
    requires |room| == |ins|
  {
    && (forall i :: 0 < i < |ins| ==> InodePass(ins, d, total, base, used, room, i))
    && (forall n :: 1 < n < |ins| ==> LinkPass(ins[n], Refs(SeenDirs(ins, d, total, room), n)))
  }

  ghost predicate CountsAre(ins: seq<Inode>, ds: seq<seq<Rec>>, k: nat, counts: seq<nat>)
    requires k <= |ds|
  {
    |counts| == |ins| && forall n :: 0 < n < |ins| && ins[n].occupied ==> counts[n] == Refs(ds[..k], n)
  }

  lemma {:induction false} RefsAppend(ds: seq<seq<Rec>>, rs: seq<Rec>, n: nat)
    ensures Refs(ds + [rs], n) == Refs(ds, n) + Count(rs, n)
  {
    if |ds| == 0 {
      assert ds + [rs] == [rs] && [rs][1..] == [];
    } else {
      assert (ds + [rs])[1..] == ds[1..] + [rs];
      RefsAppend(ds[1..], rs, n);
    }
  }

  lemma CountsNext(ins: seq<Inode>, ds: seq<seq<Rec>>, k: nat, counts: seq<nat>, counts': seq<nat>)
    requires k < |ds| && CountsAre(ins, ds, k, counts) && Counted(ins, counts, ds[k], counts')
    ensures CountsAre(ins, ds, k + 1, counts')
  {
    assert ds[..k + 1] == ds[..k] + [ds[k]];
    forall n | 0 < n < |ins| && ins[n].occupied
      ensures counts'[n] == Refs(ds[..k + 1], n)
    {
      RefsAppend(ds[..k], ds[k], n);
    }
  }

  // One inode of the first loop of fs_fsck.
  method CheckInode(fs: Fs, i: int, room: seq<bool>, mark0: seq<bool>, counts0: seq<nat>)
    returns (errors: nat, mark: seq<bool>, counts: seq<nat>)
    requires BitmapOk(fs.bitmap, fs.used, fs.total) && |fs.inodes| == INODES == |room| && 0 < i < INODES
    requires |mark0| == fs.total
    requires MarkIs(mark0, MarkSet(fs.inodes, fs.disk, fs.total, fs.base, i))
    requires CountsAre(fs.inodes, SeenDirs(fs.inodes, fs.disk, fs.total, room), i, counts0)
    ensures |mark| == fs.total && MarkIs(mark, MarkSet(fs.inodes, fs.disk, fs.total, fs.base, i + 1))
    ensures CountsAre(fs.inodes, SeenDirs(fs.inodes, fs.disk, fs.total, room), i + 1, counts)
    ensures errors == 0 <==> InodePass(fs.inodes, fs.disk, fs.total, fs.base, fs.used, room, i)
  {
    ghost var ds := SeenDirs(fs.inodes, fs.disk, fs.total, room);
    errors, mark, counts := 0, mark0, counts0;
    var x := fs.inodes[i];
    if x.occupied {
      errors, mark := CheckSectors(fs, x, mark, MarkSet(fs.inodes, fs.disk, fs.total, fs.base, i));
      if x.indirect != 0 && x.indirect < fs.total { mark := mark[x.indirect := true]; }
      var more;
      more, counts := CheckDir(fs, i, room[i], counts);
      errors := errors + more;
    }
    CountsNext(fs.inodes, ds, i, counts0, counts);
  }

  method CheckLinks(fs: Fs, counts: seq<nat>) returns (errors: nat)
    requires |fs.inodes| == INODES == |counts|
    ensures errors == 0 <==> forall n :: 1 < n < INODES ==> LinkPass(fs.inodes[n], counts[n])
  {
    errors := 0;
    for i := 1 to INODES
      invariant errors == 0 <==> forall n :: 1 < n < i ==> LinkPass(fs.inodes[n], counts[n])
    {
      if fs.inodes[i].occupied && i != 1 {
        var want := counts[i] % 65536;
        if want == 0 {
          errors := errors + 1;
        } else if fs.inodes[i].nlink != want {
          errors := errors + 1;
        }
      }
    }
  }

  // Is a sector in use that nobody marked?
  method StaleBits(fs: Fs, mark: seq<bool>, ghost m: set<nat>) returns (stale: bool)
    requires BitmapOk(fs.bitmap, fs.used, fs.total) && |mark| == fs.total && MarkIs(mark, m)
    ensures stale <==> exists l: nat :: l in fs.used && fs.base <= l && l !in m
  {
    stale := false;
    var i := fs.base;
    while i < fs.total
      invariant fs.base <= i && (stale <==> exists l: nat :: l in fs.used && fs.base <= l < i && l !in m)
    {
      var bit := fs.BitmapTest(i);
      if !mark[i] && bit { stale := true; }
      i := i + 1;
    }
    assert forall l: nat :: l in fs.used ==> l < fs.total;
  }

  lemma NoneSeen(ds: seq<seq<Rec>>)
    requires |ds| != 0 && ds[0] == []
    ensures forall n: nat :: Refs(ds[..1], n) == 0
  {
    assert ds[..1][1..] == [];
  }

  /** Every sector in use from base on is marked by some inode. */
  ghost predicate NoStale(ins: seq<Inode>, d: Disk, total: u32, base: u32, used: set<nat>)
  {
    forall l: nat :: l in used && l >= base ==> l in MarkSet(ins, d, total, base, |ins|)
  }

  method StartScan(fs: Fs, ghost room: seq<bool>) returns (mark: seq<bool>, counts: seq<nat>)
    requires |fs.inodes| == INODES == |room|
    ensures |mark| == fs.total && MarkIs(mark, MarkSet(fs.inodes, fs.disk, fs.total, fs.base, 1))
    ensures CountsAre(fs.inodes, SeenDirs(fs.inodes, fs.disk, fs.total, room), 1, counts)
  {
    mark, counts := seq(fs.total, i => i < fs.base), seq(INODES, _ => 0);
    NoneSeen(SeenDirs(fs.inodes, fs.disk, fs.total, room));
  }

  ghost predicate PassBelow(ins: seq<Inode>, d: Disk, total: u32, base: u32, used: set<nat>, room: seq<bool>, n: nat)
    requires |ins| == INODES >= n && |room| == INODES
  {
    forall i :: 0 < i < n ==> InodePass(ins, d, total, base, used, room, i)
  }

  lemma InodeNext(ins: seq<Inode>, d: Disk, total: u32, base: u32, used: set<nat>, room: seq<bool>, n: nat)
    requires |ins| == INODES == |room| && 0 < n < INODES
    ensures PassBelow(ins, d, total, base, used, room, n + 1) <==>
              PassBelow(ins, d, total, base, used, room, n) && InodePass(ins, d, total, base, used, room, n)
  {
  }

  method ScanInodes(fs: Fs, room: seq<bool>) returns (errors: nat, mark: seq<bool>, counts: seq<nat>)
    requires BitmapOk(fs.bitmap, fs.used, fs.total) && |fs.inodes| == INODES == |room|
    ensures |mark| == fs.total && MarkIs(mark, MarkSet(fs.inodes, fs.disk, fs.total, fs.base, INODES))
    ensures CountsAre(fs.inodes, SeenDirs(fs.inodes, fs.disk, fs.total, room), INODES, counts)
    ensures errors == 0 <==> PassBelow(fs.inodes, fs.disk, fs.total, fs.base, fs.used, room, INODES)
  {
    errors := 0;
    mark, counts := StartScan(fs, room);
    ghost var ds := SeenDirs(fs.inodes, fs.disk, fs.total, room);
    for i := 1 to INODES
      invariant |mark| == fs.total && MarkIs(mark, MarkSet(fs.inodes, fs.disk, fs.total, fs.base, i))
      invariant CountsAre(fs.inodes, ds, i, counts)
      invariant errors == 0 <==> PassBelow(fs.inodes, fs.disk, fs.total, fs.base, fs.used, room, i)
    {
      var more;
      more, mark, counts := CheckInode(fs, i, room, mark, counts);
      InodeNext(fs.inodes, fs.disk, fs.total, fs.base, fs.used, room, i);
      errors := errors + more;
    }
  }

  /** fs_fsck, where memory for the marks may fail, and for the blob of each directory: room tells for
      which there is some.  Without repair the result is 0 exactly for a volume that passes.  With repair,
      `found` tells whether anything is wrong, which is not always something it repairs; if nothing is, the
      result is 0 and nothing changes.  What the repairs do is in module Repair. */
  method Check(fs: Fs, repair: bool, marks: bool, room: seq<bool>) returns (rc: int, found: bool)
    requires BitmapOk(fs.bitmap, fs.used, fs.total) && |fs.inodes| == INODES == |room|
    ensures !marks ==> rc == -1 && !found
    ensures marks && !repair ==>
              (rc == 0 <==> Pass(fs.inodes, fs.disk, fs.total, fs.base, fs.used, room)) && rc >= 0 && !found
    ensures marks && repair ==>
              (!found <==> Pass(fs.inodes, fs.disk, fs.total, fs.base, fs.used, room)
                             && NoStale(fs.inodes, fs.disk, fs.total, fs.base, fs.used))
    ensures marks && repair && !found ==> rc == 0
  {
    if !marks { return -1, false; }
    var errors, mark, counts := ScanInodes(fs, room);
    ghost var ds := SeenDirs(fs.inodes, fs.disk, fs.total, room);
    assert ds[..INODES] == ds;
    var more := CheckLinks(fs, counts);
    assert forall n :: 1 < n < INODES ==> (LinkPass(fs.inodes[n], counts[n]) <==> LinkPass(fs.inodes[n], Refs(ds, n)));
    if !repair { return errors + more, false; }
    var stale := StaleBits(fs, mark, MarkSet(fs.inodes, fs.disk, fs.total, fs.base, INODES));
    found := errors + more != 0 || stale;
    if found { rc := *; } else { rc := 0; }
  }

  // ----- soundness -----

  lemma {:induction false} MarkSetHas(ins: seq<Inode>, d: Disk, total: u32, base: u32, i: nat, k: nat)
    requires 0 < i < k <= |ins| && ins[i].occupied
    ensures Marks(ins[i], d, total) <= MarkSet(ins, d, total, base, k)
    ensures Range(0, base) <= MarkSet(ins, d, total, base, k)
  {
    if k == i + 1 {
      MarkSetBase(ins, d, total, base, i);
    } else {
      MarkSetHas(ins, d, total, base, i, k - 1);
    }
  }

  lemma {:induction false} MarkSetBase(ins: seq<Inode>, d: Disk, total: u32, base: u32, k: nat)
    requires k <= |ins|
    ensures Range(0, base) <= MarkSet(ins, d, total, base, k)
  {
    if k > 1 { MarkSetBase(ins, d, total, base, k - 1); }
  }

  /** A clean check means: every part of every file is above the metadata, on the disk and in use. */
  lemma PassInRange(ins: seq<Inode>, d: Disk, total: u32, base: u32, used: set<nat>, room: seq<bool>, i: nat, s: nat)
    requires |room| == |ins| && Pass(ins, d, total, base, used, room) && 0 < i < |ins| && ins[i].occupied
    requires s < |Lbas(ins[i], d, total)|
    ensures base <= Lbas(ins[i], d, total)[s] < total && Lbas(ins[i], d, total)[s] in used
  {
    assert InodePass(ins, d, total, base, used, room, i);
    MarkSetBase(ins, d, total, base, i);
    var l := Lbas(ins[i], d, total)[s];
    assert 0 <= l < base ==> Within(l, 0, base);
  }

  /** ... and no two parts of any files share a sector. */
  lemma PassDistinct(ins: seq<Inode>, d: Disk, total: u32, base: u32, used: set<nat>, room: seq<bool>, i: nat, s: nat,
      j: nat, t: nat)
    requires |room| == |ins| && Pass(ins, d, total, base, used, room) && 0 < i <= j < |ins| && ins[i].occupied
    requires ins[j].occupied
    requires s < |Lbas(ins[i], d, total)| && t < |Lbas(ins[j], d, total)| && (i == j ==> s != t)
    ensures Lbas(ins[i], d, total)[s] != Lbas(ins[j], d, total)[t]
  {
    assert InodePass(ins, d, total, base, used, room, i) && InodePass(ins, d, total, base, used, room, j);
    if i < j {
      MarkSetHas(ins, d, total, base, i, j);
      assert Lbas(ins[i], d, total)[s] in Nats(Lbas(ins[i], d, total));
    }
  }

  /** ... and every live record of a directory that was read names an inode in use. */
  lemma PassNames(ins: seq<Inode>, d: Disk, total: u32, base: u32, used: set<nat>, room: seq<bool>, i: nat)
    requires |room| == |ins| && Pass(ins, d, total, base, used, room) && 0 < i < |ins| && ins[i].occupied && ins[i].dir
    requires room[i]
    ensures AllGood(ins, Seen(ins[i], d, total)) && ins[i].size <= Capacity(ins[i], d, total)
  {
    assert InodePass(ins, d, total, base, used, room, i);
  }

  // ----- consistent volumes are clean -----

  /** A volume as the operations leave it, with no xattr block and no directory size beyond its sectors. */
  ghost predicate Consistent(ins: seq<Inode>, d: Disk, total: u32, base: u32, used: set<nat>)
  {
    && Shapes(ins) && Balanced(ins, d, used, base, {}) && total != 0 && used <= Range(0, total) && Ns(ins, d, total)
    && !ins[0].occupied
    && (forall i :: 0 <= i < INODES ==>
      ins[i].xattr == 0 && (ins[i].occupied && ins[i].dir ==> ins[i].size <= Capacity(ins[i], d, total)))
  }

  /** No record names a free inode or a number out of range. */
  ghost predicate Named(ins: seq<Inode>, ds: seq<seq<Rec>>)
  {
    && |ins| == |ds| == INODES
    && (forall n :: 0 < n < INODES && !ins[n].occupied ==> Refs(ds, n) == 0)
    && (forall i, k :: 0 <= i < INODES && 0 <= k < |ds[i]| ==> ds[i][k].ino < INODES)
  }

  /** A volume that may have lost the sectors `leak`, and whose link counts may be wrong. */
  ghost predicate Sound(ins: seq<Inode>, d: Disk, total: u32, base: u32, used: set<nat>, leak: set<nat>)
  {
    && Shapes(ins) && Balanced(ins, d, used, base, leak) && total != 0 && used <= Range(0, total)
    && DirsOk(ins, d, total) && Named(ins, Dirs(ins, d, total)) && !ins[0].occupied
    && (forall i :: 0 <= i < INODES && ins[i].occupied && ins[i].dir ==> ins[i].size <= Capacity(ins[i], d, total))
  }

  // The marks of an inode are sectors it owns.
  lemma MarksOwned(ins: seq<Inode>, d: Disk, total: u32, base: u32, used: set<nat>, leak: set<nat>, i: nat, l: nat)
    requires Balanced(ins, d, used, base, leak) && i < |ins| && total != 0 && used <= Range(0, total)
    requires l in Marks(ins[i], d, total)
    ensures Own(ins[i], d, l) == 1 && l in used && base <= l
    ensures forall j :: 0 <= j < |ins| && j != i ==> Own(ins[j], d, l) == 0
  {
    var ls := Lbas(ins[i], d, total);
    PartIsSector(ins, d, used, base, leak, i, total);
    if l in Nats(ls) {
      var k :| 0 <= k < |ls| && ls[k] == l;
      MapCovered(Exts(ins[i], d), k);
    }
    SoleOwner(ins, d, used, base, leak, i, l);
  }

  lemma {:induction false} MarkSetOwned(ins: seq<Inode>, d: Disk, total: u32, base: u32, used: set<nat>,
      leak: set<nat>, k: nat, l: nat)
    requires Balanced(ins, d, used, base, leak) && k <= |ins| && total != 0 && used <= Range(0, total)
    requires l in MarkSet(ins, d, total, base, k)
    ensures l < base || exists j :: 0 <= j < k && Own(ins[j], d, l) == 1
  {
    if k > 1 {
      if ins[k - 1].occupied && l in Marks(ins[k - 1], d, total) {
        MarksOwned(ins, d, total, base, used, leak, k - 1, l);
      } else {
        MarkSetOwned(ins, d, total, base, used, leak, k - 1, l);
      }
    }
  }

  lemma SoundSectors(ins: seq<Inode>, d: Disk, total: u32, base: u32, used: set<nat>, leak: set<nat>, i: nat)
    requires Sound(ins, d, total, base, used, leak) && 0 < i < INODES
    ensures SectorsPass(Lbas(ins[i], d, total), MarkSet(ins, d, total, base, i), used, total)
  {
    var ls, es := Lbas(ins[i], d, total), Exts(ins[i], d);
    PartIsSector(ins, d, used, base, leak, i, total);
    ExtsSound(ins, d, used, base, leak, i, total);
    forall s | 0 <= s < |ls|
      ensures 0 <= ls[s] < total && ls[s] !in MarkSet(ins, d, total, base, i) && ls[s] in used
    {
      MapCovered(es, s);
      assert ls[s] in Nats(ls);
      MarksOwned(ins, d, total, base, used, leak, i, ls[s]);
      if ls[s] in MarkSet(ins, d, total, base, i) { MarkSetOwned(ins, d, total, base, used, leak, i, ls[s]); }
    }
    forall s, t | 0 <= s < t < |ls|
      ensures ls[s] != ls[t]
    {
      MapInjective(es, s, t);
    }
  }

  lemma SoundDir(ins: seq<Inode>, d: Disk, total: u32, base: u32, used: set<nat>, leak: set<nat>, i: nat)
    requires Sound(ins, d, total, base, used, leak) && 0 < i < INODES && ins[i].occupied
    ensures DirPass(ins, ins[i], d, total, true) && Seen(ins[i], d, total) == Recs(ins[i], d, total)
  {
    var ds, rs := Dirs(ins, d, total), Seen(ins[i], d, total);
    assert ds[i] == Recs(ins[i], d, total) == rs;
    forall k | 0 <= k < |rs| && rs[k].ino != 0
      ensures rs[k].ino < |ins| && ins[rs[k].ino].occupied
    {
      RefsRemove(ds, i, k);
    }
  }

  /** The first loop of the checker finds nothing wrong with such a volume. */
  lemma SoundInode(ins: seq<Inode>, d: Disk, total: u32, base: u32, used: set<nat>, leak: set<nat>, room: seq<bool>,
      i: nat)
    requires Sound(ins, d, total, base, used, leak) && 0 < i < INODES == |room|
    ensures InodePass(ins, d, total, base, used, room, i)
  {
    SoundSectors(ins, d, total, base, used, leak, i);
    if ins[i].occupied { SoundDir(ins, d, total, base, used, leak, i); }
  }

  // What the checker sees of the directories: all of it, or nothing.
  lemma SoundSeen(ins: seq<Inode>, d: Disk, total: u32, base: u32, used: set<nat>, leak: set<nat>, room: seq<bool>,
      i: nat)
    requires Sound(ins, d, total, base, used, leak) && |room| == INODES && i < INODES
    ensures SeenDirs(ins, d, total, room)[i] == if room[i] then Dirs(ins, d, total)[i] else []
  {
    if 0 < i && ins[i].occupied { SoundDir(ins, d, total, base, used, leak, i); }
  }

  lemma {:induction false} RefsFewer(ds: seq<seq<Rec>>, es: seq<seq<Rec>>, n: nat)
    requires |es| == |ds| && forall i :: 0 <= i < |ds| ==> es[i] == ds[i] || es[i] == []
    ensures Refs(es, n) <= Refs(ds, n)
    ensures Refs(es, n) == Refs(ds, n) <==> forall i :: 0 <= i < |ds| ==> Count(es[i], n) == Count(ds[i], n)
  {
    if |ds| != 0 {
      RefsFewer(ds[1..], es[1..], n);
      assert forall i :: 1 <= i < |ds| ==> ds[1..][i - 1] == ds[i] && es[1..][i - 1] == es[i];
      assert Count(es[0], n) <= Count(ds[0], n);
    }
  }

  // The 16-bit count that is right for all records is right for fewer exactly if they are as many.
  lemma LinkedPasses(ins: seq<Inode>, ds: seq<seq<Rec>>, n: nat, refs: nat)
    requires Linked(ins, ds) && 1 < n < INODES && refs <= Refs(ds, n)
    ensures LinkPass(ins[n], refs) <==> refs == Refs(ds, n)
  {
  }

  /** No directory that was passed over names inode n. */
  ghost predicate Unmissed(ins: seq<Inode>, d: Disk, total: u32, room: seq<bool>, n: nat)
    requires |room| == |ins|
  {
    forall i :: 0 <= i < |ins| && !room[i] ==> Count(Recs(ins[i], d, total), n) == 0
  }

  /** ... nor any inode but the root. */
  ghost predicate NothingMissed(ins: seq<Inode>, d: Disk, total: u32, room: seq<bool>)
    requires |room| == |ins|
  {
    forall n :: 1 < n < |ins| ==> Unmissed(ins, d, total, room, n)
  }

  lemma ConsistentLink(ins: seq<Inode>, d: Disk, total: u32, base: u32, used: set<nat>, room: seq<bool>, n: nat)
    requires Consistent(ins, d, total, base, used) && |room| == INODES && 1 < n < INODES
    ensures LinkPass(ins[n], Refs(SeenDirs(ins, d, total, room), n)) <==> Unmissed(ins, d, total, room, n)
  {
    var ds, es := Dirs(ins, d, total), SeenDirs(ins, d, total, room);
    forall i | 0 <= i < INODES
      ensures es[i] == if room[i] then ds[i] else []
    {
      SoundSeen(ins, d, total, base, used, {}, room, i);
    }
    RefsFewer(ds, es, n);
    LinkedPasses(ins, ds, n, Refs(es, n));
    assert forall i :: 0 <= i < INODES ==> ds[i] == Recs(ins[i], d, total);
  }

  /** A consistent volume passes the check exactly if nothing is missed for want of memory. */
  lemma ConsistentPasses(ins: seq<Inode>, d: Disk, total: u32, base: u32, used: set<nat>, room: seq<bool>)
    requires Consistent(ins, d, total, base, used) && |room| == INODES
    ensures Pass(ins, d, total, base, used, room) <==> NothingMissed(ins, d, total, room)
  {
    forall i | 0 < i < |ins|
      ensures InodePass(ins, d, total, base, used, room, i)
    {
      SoundInode(ins, d, total, base, used, {}, room, i);
    }
    forall n | 1 < n < |ins|
      ensures LinkPass(ins[n], Refs(SeenDirs(ins, d, total, room), n)) <==> Unmissed(ins, d, total, room, n)
    {
      ConsistentLink(ins, d, total, base, used, room, n);
    }
  }

  lemma {:induction false} OwnerExists(ins: seq<Inode>, d: Disk, s: nat) returns (i: nat)
    requires OwnAll(ins, d, s) >= 1
    ensures i < |ins| && Own(ins[i], d, s) >= 1
  {
    if Own(ins[0], d, s) >= 1 {
      i := 0;
    } else {
      i := OwnerExists(ins[1..], d, s);
      i := i + 1;
    }
  }

  /** ... and has no sector in use that the checker would set free: it repairs nothing. */
  lemma ConsistentNoStale(ins: seq<Inode>, d: Disk, total: u32, base: u32, used: set<nat>)
    requires Consistent(ins, d, total, base, used)
    ensures NoStale(ins, d, total, base, used)
  {
    forall l: nat | l in used && l >= base
      ensures l in MarkSet(ins, d, total, base, |ins|)
    {
      assert OwnAll(ins, d, l) + Bit(l in {}) == Bit(l in used && l >= base);
      var i := OwnerExists(ins, d, l);
      OwnerMarks(ins, d, total, base, used, i, l);
      MarkSetHas(ins, d, total, base, i, |ins|);
    }
  }

  lemma NothingOwned(x: Inode, d: Disk, l: nat)
    ensures OwnsNothing(x) ==> Own(x, d, l) == 0
  {
    if OwnsNothing(x) {
      EmptyExtents(x.direct, l);
      assert Exts(x, d) == x.direct;
    }
  }

  lemma OwnerMarks(ins: seq<Inode>, d: Disk, total: u32, base: u32, used: set<nat>, i: nat, l: nat)
    requires Consistent(ins, d, total, base, used) && i < INODES && Own(ins[i], d, l) >= 1
    ensures 0 < i && ins[i].occupied && l in Marks(ins[i], d, total)
  {
    NothingOwned(ins[i], d, l);
    PartIsSector(ins, d, used, base, {}, i, total);
    if Cover(Exts(ins[i], d), l) >= 1 {
      var k := CoveredIsMapped(Exts(ins[i], d), l);
      assert Lbas(ins[i], d, total)[k] == l;
    }
  }

  // ----- a new volume, and one with a hidden fault -----

  lemma OnlyRootConsistent(ins: seq<Inode>, d: Disk, total: u32, base: u32, used: set<nat>)
    requires OnlyRoot(ins) && Shapes(ins) && Balanced(ins, d, used, base, {}) && total != 0 && used <= Range(0, total)
    ensures Consistent(ins, d, total, base, used)
  {
    OnlyRootNs(ins, d, total);
  }

  /** A new volume is consistent, and passes whether or not there is memory for the root directory. */
  method CheckNew(total: u32, base: u32, d: Disk, room: seq<bool>) returns (rc: int)
    requires 0 < base <= total && |room| == INODES
    ensures rc == 0
  {
    var fs := NewVolume(total, base, d);
    OnlyRootConsistent(fs.inodes, fs.disk, total, base, fs.used);
    ConsistentPasses(fs.inodes, fs.disk, total, base, fs.used, room);
    EmptyFile(fs.inodes[1], fs.disk, total);
    assert Parse([]) == [];
    var found;
    rc, found := Check(fs, false, true, room);
  }

  // An inode of one sector.
  lemma OneSector(x: Inode, d: Disk, total: u32, base: u32, s: Sector)
    requires x.direct == BLANK.direct[0 := Extent(base, 1)] && x.indirect == 0 && base < total
    requires d == map[base as nat := s]
    ensures Lbas(x, d, total) == [base as int] && Capacity(x, d, total) == 512 && Parts(x, d, total) == [s]
  {
    OneRun(x, d, total, base, 1);
    assert Exts(x, d)[0] == Extent(base, 1);
  }

  // A directory of one record, in the sector at base.
  lemma OneRecord(x: Inode, r: Rec, d: Disk, total: u32, s: Sector)
    requires |r.name| <= 255 && s == Enc(r) + Zeros(512 - RecLen(|r.name|)) && x.size == RecLen(|r.name|)
    requires x.occupied && x.dir && !x.special && Capacity(x, d, total) == 512 && Parts(x, d, total) == [s]
    ensures Seen(x, d, total) == [r]
  {
    assert Bytes([s], x.size) == Enc(r);
    ParseOne([], r);
    assert Blob([]) + Enc(r) == Enc(r) && [] + [r] == [r];
  }

  /** Without memory for it, the checker finds nothing wrong with a directory whose one record names a free inode. */
  lemma MissedRecord(total: u32, base: u32, room: seq<bool>) returns (ins: seq<Inode>, d: Disk, used: set<nat>)
    requires 0 < base < total && |room| == INODES && !room[1]
    ensures |ins| == INODES && ins[1].occupied && ins[1].dir && Pass(ins, d, total, base, used, room)
    ensures !AllGood(ins, Seen(ins[1], d, total))
  {
    var r := Rec(2, [97]);
    var s := Enc(r) + Zeros(512 - RecLen(1));
    var x := BLANK.(occupied := true, dir := true, nlink := 1, parent := 1, size := RecLen(1),
                    direct := BLANK.direct[0 := Extent(base, 1)]);
    ins, d, used := seq(INODES, i => if i == 1 then x else BLANK), map[base as nat := s], {base as nat};
    OneSector(x, d, total, base, s);
    OneRecord(x, r, d, total, s);
    assert MarkSet(ins, d, total, base, 1) == Range(0, base);
    assert InodePass(ins, d, total, base, used, room, 1);
    assert [r][0].ino == 2 && !ins[2].occupied;
  }
}
