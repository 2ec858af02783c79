/** Which inode owns which sector, and what the files contain. */
module Ownership {
  import opened Words
  import opened Disks
  import opened Extents

  const INODES: nat := 1024   // FS_MAX_INODES

  /** struct fs_inode without mode, owner and times; `special` stands for the fifo, socket and device flags. */
  datatype Inode = Inode(occupied: bool, dir: bool, special: bool, nlink: u16, size: u32, parent: u32,
                         direct: seq<Extent>, indirect: u32, xattr: u32)

  const NONE: Extent := Extent(0, 0)
  const BLANK: Inode := Inode(false, false, false, 0, 0, 0, [NONE, NONE, NONE, NONE], 0, 0)

  /** All extents of an inode; the indirect block adds 64 more. */
  function Exts(x: Inode, d: Disk): seq<Extent>
  {
    x.direct + if x.indirect == 0 then [] else Decode(Read(d, x.indirect))
  }

  predicate Within(s: nat, start: nat, count: nat)
  {
    start <= s < start + count
  }

  /** The sectors start, ..., start + count - 1. */
  ghost function Range(start: nat, count: nat): set<nat>
  {
    set s: nat | start <= s < start + count && Within(s, start, count)
  }

  /** How often inode x owns sector s: as data, as its indirect block or as its xattr block. */
  ghost function Own(x: Inode, d: Disk, s: nat): nat
  {
    Cover(Exts(x, d), s) + Bit(x.indirect != 0 && x.indirect == s) + Bit(x.xattr != 0 && x.xattr == s)
  }

  ghost function OwnAll(ins: seq<Inode>, d: Disk, s: nat): nat
  {
    if |ins| == 0 then 0 else Own(ins[0], d, s) + OwnAll(ins[1..], d, s)
  }

  /** Every sector from base on is marked used exactly if it has one owner; `pend` are sectors
      an operation holds and has not yet given to an inode. */
  ghost predicate Balanced(ins: seq<Inode>, d: Disk, used: set<nat>, base: nat, pend: set<nat>)
  {
    forall s: nat :: OwnAll(ins, d, s) + Bit(s in pend) == Bit(s in used && s >= base)
  }

  lemma {:induction false} OwnAllUpdate(ins: seq<Inode>, i: nat, x: Inode, d: Disk, s: nat)
    requires i < |ins|
    ensures OwnAll(ins[i := x], d, s) == OwnAll(ins, d, s) - Own(ins[i], d, s) + Own(x, d, s)
    ensures OwnAll(ins, d, s) >= Own(ins[i], d, s)
  {
    if i == 0 {
      assert ins[0 := x][1..] == ins[1..];
    } else {
      assert ins[i := x][1..] == ins[1..][i - 1 := x];
      OwnAllUpdate(ins[1..], i - 1, x, d, s);
    }
  }

  lemma BlankOwns(d: Disk, s: nat)
    ensures Own(BLANK, d, s) == 0
  {
    EmptyExtents(BLANK.direct, s);
    assert Exts(BLANK, d) == BLANK.direct;
  }

  lemma OwnAllTwo(ins: seq<Inode>, i: nat, j: nat, d: Disk, s: nat)
    requires i < |ins| && j < |ins| && i != j
    ensures OwnAll(ins, d, s) >= Own(ins[i], d, s) + Own(ins[j], d, s)
  {
    BlankOwns(d, s);
    OwnAllUpdate(ins, i, BLANK, d, s);
    OwnAllUpdate(ins[i := BLANK], j, BLANK, d, s);
  }

  lemma {:induction false} OwnAllFrame(ins: seq<Inode>, d: Disk, e: Disk, s: nat)
    requires forall i :: 0 <= i < |ins| ==> Own(ins[i], d, s) == Own(ins[i], e, s)
    ensures OwnAll(ins, d, s) == OwnAll(ins, e, s)
  {
    if |ins| != 0 {
      assert Own(ins[0], d, s) == Own(ins[0], e, s);
      OwnAllFrame(ins[1..], d, e, s);
    }
  }

  // ----- what a balanced volume says -----

  /** An owned sector is in use, and nobody else's. */
  lemma SoleOwner(ins: seq<Inode>, d: Disk, used: set<nat>, base: nat, pend: set<nat>, i: nat, s: nat)
    requires Balanced(ins, d, used, base, pend) && i < |ins| && Own(ins[i], d, s) >= 1
    ensures Own(ins[i], d, s) == 1 && s in used && s >= base && s !in pend
    ensures forall j :: 0 <= j < |ins| && j != i ==> Own(ins[j], d, s) == 0
  {
    OwnAllUpdate(ins, i, ins[i], d, s);
    forall j | 0 <= j < |ins| && j != i
      ensures Own(ins[j], d, s) == 0
    {
      OwnAllTwo(ins, i, j, d, s);
    }
  }

  lemma Unowned(ins: seq<Inode>, d: Disk, used: set<nat>, base: nat, pend: set<nat>, s: nat)
    requires Balanced(ins, d, used, base, pend) && (s in pend || s !in used || s < base)
    ensures forall j :: 0 <= j < |ins| ==> Own(ins[j], d, s) == 0
  {
    forall j | 0 <= j < |ins|
      ensures Own(ins[j], d, s) == 0
    {
      OwnAllUpdate(ins, j, ins[j], d, s);
    }
  }

  /** The extents of inode i cover no sector twice and stay on the disk. */
  lemma ExtsSound(ins: seq<Inode>, d: Disk, used: set<nat>, base: nat, pend: set<nat>, i: nat, total: nat)
    requires Balanced(ins, d, used, base, pend) && i < |ins| && used <= Range(0, total)
    ensures forall s: nat :: Cover(Exts(ins[i], d), s) <= Bit(s < total)
    ensures Total(Exts(ins[i], d)) <= total
  {
    forall s: nat
      ensures Cover(Exts(ins[i], d), s) <= Bit(s < total)
    {
      if Own(ins[i], d, s) >= 1 { SoleOwner(ins, d, used, base, pend, i, s); }
    }
    TotalBound(Exts(ins[i], d), total);
  }

  // ----- steps that keep the balance -----

  /** Allocation. */
  lemma TakeKeeps(ins: seq<Inode>, d: Disk, used: set<nat>, base: nat, pend: set<nat>, r: set<nat>)
    requires Balanced(ins, d, used, base, pend) && r !! used && forall s :: s in r ==> s >= base
    ensures Balanced(ins, d, used + r, base, pend + r)
  {
    forall s: nat
      ensures OwnAll(ins, d, s) + Bit(s in pend + r) == Bit(s in used + r && s >= base)
    {
      assert OwnAll(ins, d, s) + Bit(s in pend) == Bit(s in used && s >= base);
    }
  }

  /** Giving back sectors that no inode has. */
  lemma GiveKeeps(ins: seq<Inode>, d: Disk, used: set<nat>, base: nat, pend: set<nat>, r: set<nat>)
    requires Balanced(ins, d, used, base, pend) && r <= pend
    ensures Balanced(ins, d, used - r, base, pend - r)
  {
    forall s: nat
      ensures OwnAll(ins, d, s) + Bit(s in pend - r) == Bit(s in used - r && s >= base)
    {
      assert OwnAll(ins, d, s) + Bit(s in pend) == Bit(s in used && s >= base);
    }
  }

  /** One inode, and maybe its indirect block, changes; what it loses or gains is pending. */
  lemma InodeKeeps(ins: seq<Inode>, d: Disk, used: set<nat>, base: nat, pend: set<nat>, i: nat, x: Inode, e: Disk,
      pend': set<nat>)
    requires Balanced(ins, d, used, base, pend) && i < |ins|
    requires forall j :: 0 <= j < |ins| && j != i ==> Exts(ins[j], e) == Exts(ins[j], d)
    requires forall s: nat :: Own(x, e, s) + Bit(s in pend') == Own(ins[i], d, s) + Bit(s in pend)
    ensures Balanced(ins[i := x], e, used, base, pend')
  {
    forall s: nat
      ensures OwnAll(ins[i := x], e, s) + Bit(s in pend') == Bit(s in used && s >= base)
    {
      var ys := ins[i := BLANK];
      assert OwnAll(ins, d, s) + Bit(s in pend) == Bit(s in used && s >= base);
      BlankOwns(d, s);
      BlankOwns(e, s);
      OwnAllUpdate(ins, i, BLANK, d, s);
      OwnAllFrame(ys, d, e, s);
      assert ins[i := x] == ys[i := x];
      OwnAllUpdate(ys, i, x, e, s);
    }
  }

  // ----- other files -----

  /** The disk changed at most at sectors that no inode but idx owns. */
  ghost predicate Untouched(ins: seq<Inode>, d: Disk, e: Disk, idx: nat)
  {
    forall j, s: nat :: 0 <= j < |ins| && j != idx && Own(ins[j], d, s) > 0 ==> Read(e, s) == Read(d, s)
  }

  lemma SameExts(ins: seq<Inode>, d: Disk, e: Disk, idx: nat, j: nat)
    requires Untouched(ins, d, e, idx) && j < |ins| && j != idx
    ensures Exts(ins[j], e) == Exts(ins[j], d)
  {
    if ins[j].indirect != 0 { assert Own(ins[j], d, ins[j].indirect) > 0; }
  }

  lemma UntouchedTrans(ins: seq<Inode>, d: Disk, e: Disk, f: Disk, idx: nat, ins': seq<Inode>)
    requires Untouched(ins, d, e, idx) && Untouched(ins', e, f, idx)
    requires |ins'| == |ins| && forall j :: 0 <= j < |ins| && j != idx ==> ins'[j] == ins[j]
    ensures Untouched(ins, d, f, idx)
  {
    forall j, s: nat | 0 <= j < |ins| && j != idx && Own(ins[j], d, s) > 0
      ensures Read(f, s) == Read(d, s)
    {
      SameExts(ins, d, e, idx, j);
      assert Own(ins'[j], e, s) > 0;
    }
  }

  /** A write to a sector that is pending, free or idx's own. */
  lemma WriteUntouched(ins: seq<Inode>, d: Disk, used: set<nat>, base: nat, pend: set<nat>, idx: nat, w: nat,
      data: Sector)
    requires Balanced(ins, d, used, base, pend) && idx < |ins|
    requires w in pend || w !in used || w < base || Own(ins[idx], d, w) >= 1
    ensures Untouched(ins, d, d[w := data], idx)
  {
    if Own(ins[idx], d, w) >= 1 {
      SoleOwner(ins, d, used, base, pend, idx, w);
    } else {
      Unowned(ins, d, used, base, pend, w);
    }
  }

  // ----- contents -----

  function SectorCount(x: Inode, d: Disk, total: u32): nat
  {
    CountFrom(Exts(x, d), total, 0)
  }

  /** inode_byte_capacity */
  function Capacity(x: Inode, d: Disk, total: u32): nat
  {
    var secs := SectorCount(x, d, total);
    if secs > 0xFFFF_FFFF / 512 then 0xFFFF_FFFF else secs * 512
  }

  /** Part k of the file; a hole reads as zeros. */
  function Part(x: Inode, d: Disk, total: u32, k: nat): Sector
  {
    var l := MapFrom(Exts(x, d), total, k);
    if l < 0 then Zeros(512) else Read(d, l)
  }

  function Min(a: nat, b: nat): nat { if a <= b then a else b }

  function Parts(x: Inode, d: Disk, total: u32): seq<Sector>
  {
    seq(SectorCount(x, d, total), k requires k >= 0 => Part(x, d, total, k))
  }

  /** The first n bytes of some sectors. */
  function Bytes(ps: seq<Sector>, n: nat): (b: seq<u8>)
    requires n <= 512 * |ps|
    ensures |b| == n
  {
    seq(n, p requires 0 <= p < n => ps[p / 512][p % 512])
  }

  /** The bytes of a file. */
  function File(x: Inode, d: Disk, total: u32): seq<u8>
  {
    Bytes(Parts(x, d, total), Min(x.size, Capacity(x, d, total)))
  }

  /** On a balanced volume the walks of the code are the plain ones. */
  lemma PartIsSector(ins: seq<Inode>, d: Disk, used: set<nat>, base: nat, pend: set<nat>, i: nat, total: u32)
    requires Balanced(ins, d, used, base, pend) && i < |ins| && total != 0 && used <= Range(0, total)
    ensures SectorCount(ins[i], d, total) == Total(Exts(ins[i], d))
    ensures forall k: nat :: MapFrom(Exts(ins[i], d), total, k) ==
              if k < Total(Exts(ins[i], d)) then Map(Exts(ins[i], d), k) else -1
  {
    ExtsSound(ins, d, used, base, pend, i, total);
    CountIsTotal(Exts(ins[i], d), total, 0);
    forall k: nat
      ensures MapFrom(Exts(ins[i], d), total, k) == if k < Total(Exts(ins[i], d)) then Map(Exts(ins[i], d), k) else -1
    {
      MapFromIsMap(Exts(ins[i], d), total, k);
    }
  }

  /** The other files keep their contents. */
  lemma OtherFile(ins: seq<Inode>, d: Disk, used: set<nat>, base: nat, pend: set<nat>, total: u32, e: Disk, idx: nat,
      j: nat)
    requires Balanced(ins, d, used, base, pend) && total != 0 && used <= Range(0, total)
    requires Untouched(ins, d, e, idx) && j < |ins| && j != idx
    ensures Exts(ins[j], e) == Exts(ins[j], d) && File(ins[j], e, total) == File(ins[j], d, total)
  {
    var x := ins[j];
    SameExts(ins, d, e, idx, j);
    PartIsSector(ins, d, used, base, pend, j, total);
    forall k: nat | k < Total(Exts(x, d))
      ensures Part(x, e, total, k) == Part(x, d, total, k)
    {
      MapCovered(Exts(x, d), k);
      assert Own(x, d, Map(Exts(x, d), k)) > 0;
    }
    assert Parts(x, e, total) == Parts(x, d, total);
  }

  /** Writing part k of a file changes that part only. */
  lemma WritePart(ins: seq<Inode>, d: Disk, used: set<nat>, base: nat, pend: set<nat>, total: u32, i: nat, k: nat,
      data: Sector)
    requires Balanced(ins, d, used, base, pend) && i < |ins| && total != 0 && used <= Range(0, total)
    requires k < Total(Exts(ins[i], d))
    ensures var e := d[Map(Exts(ins[i], d), k) := data];
            && Exts(ins[i], e) == Exts(ins[i], d) && k < |Parts(ins[i], d, total)|
            && Parts(ins[i], e, total) == Parts(ins[i], d, total)[k := data]
  {
    var x, es := ins[i], Exts(ins[i], d);
    var w := Map(es, k);
    var e := d[w := data];
    MapCovered(es, k);
    SoleOwner(ins, d, used, base, pend, i, w);
    PartIsSector(ins, d, used, base, pend, i, total);
    ExtsSound(ins, d, used, base, pend, i, total);
    forall m: nat | m < Total(es)
      ensures Part(x, e, total, m) == if m == k then data else Part(x, d, total, m)
    {
      if m < k { MapInjective(es, m, k); }
      if k < m { MapInjective(es, k, m); }
    }
  }

  // ----- bytes -----

  lemma InSector(pos: nat, i: nat)
    requires pos % 512 + i < 512
    ensures (pos + i) / 512 == pos / 512 && (pos + i) % 512 == pos % 512 + i
  {
  }

  lemma SectorBefore(p: nat, n: nat)
    requires p < n
    ensures p / 512 <= n / 512 && (p / 512 == n / 512 ==> p % 512 < n % 512) && (n % 512 == 0 ==> p / 512 < n / 512)
  {
  }

  // A stretch inside one sector.
  lemma Chunk(ps: seq<Sector>, n: nat, pos: nat, len: nat)
    requires n <= 512 * |ps| && pos % 512 + len <= 512 && pos + len <= n && 0 < len
    ensures Bytes(ps, n)[pos..pos + len] == ps[pos / 512][pos % 512..pos % 512 + len]
  {
    var a, b := Bytes(ps, n)[pos..pos + len], ps[pos / 512][pos % 512..pos % 512 + len];
    forall i | 0 <= i < len
      ensures a[i] == b[i]
    {
      InSector(pos, i);
    }
  }

  // Byte p after piece replaced the bytes from pos on in its sector.
  lemma ChunkByte(ps: seq<Sector>, n: nat, pos: nat, piece: seq<u8>, p: nat)
    requires n <= 512 * |ps| && pos % 512 + |piece| <= 512 && pos + |piece| <= n && p < n && 0 < |piece|
    ensures var qs := ps[pos / 512 := Splice(ps[pos / 512], pos % 512, piece)];
            qs[p / 512][p % 512] == Splice(Bytes(ps, n), pos, piece)[p]
  {
    if pos <= p < pos + |piece| {
      InSector(pos, p - pos);
    } else if p < pos {
      SectorBefore(p, pos);
    } else {
      InSector(pos, |piece| - 1);
      SectorBefore(pos + |piece| - 1, p);
    }
  }

  lemma ChunkPut(ps: seq<Sector>, n: nat, pos: nat, piece: seq<u8>)
    requires n <= 512 * |ps| && pos % 512 + |piece| <= 512 && pos + |piece| <= n && 0 < |piece|
    ensures Bytes(ps[pos / 512 := Splice(ps[pos / 512], pos % 512, piece)], n) == Splice(Bytes(ps, n), pos, piece)
  {
    var a, b := Bytes(ps[pos / 512 := Splice(ps[pos / 512], pos % 512, piece)], n), Splice(Bytes(ps, n), pos, piece);
    forall p | 0 <= p < n
      ensures a[p] == b[p]
    {
      ChunkByte(ps, n, pos, piece, p);
    }
  }

  // The same first sectors hold the same first bytes.
  lemma SamePrefix(ps: seq<Sector>, n: nat, qs: seq<Sector>, m: nat, len: nat)
    requires n <= 512 * |ps| && m <= 512 * |qs| && len <= n && len <= m
    requires forall k :: 0 <= k < |ps| && k < |qs| ==> ps[k] == qs[k]
    ensures Bytes(ps, n)[..len] == Bytes(qs, m)[..len]
  {
  }
}
