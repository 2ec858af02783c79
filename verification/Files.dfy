/** The block allocator, the extents of inodes and the bytes of files. */
module Files {
  import opened Words
  import opened Disks
  import opened Extents
  import opened Ownership
  import opened Bitmap
  import opened Growth

  ghost predicate BitmapOk(b: seq<u8>, used: set<nat>, total: nat)
  {
    && total <= 8 * |b| && used <= Range(0, total)
    && forall s: nat {:trigger Marked(b, s)} :: s < total ==> (s in used <==> Marked(b, s))
  }

  ghost predicate OwnsNothing(x: Inode)
  {
    x.indirect == 0 && x.xattr == 0 && forall i :: 0 <= i < |x.direct| ==> x.direct[i].count == 0
  }

  ghost predicate Shapes(ins: seq<Inode>)
  {
    && |ins| == INODES
    && (forall i :: 0 <= i < INODES ==> |ins[i].direct| == DIRECT)
    && (forall i :: 0 <= i < INODES && !ins[i].occupied ==> OwnsNothing(ins[i]))
  }

  /** No run of count free sectors from base on. */
  ghost predicate NoRun(used: set<nat>, base: nat, end: nat, count: nat)
  {
    forall s: nat :: base <= s && s + count <= end ==> Range(s, count) * used != {}
  }

  // ----- adding an extent -----

  // Slot i of a sound list takes the new sectors.
  lemma AttachCover(es: seq<Extent>, i: nat, lba: u32, count: u32, total: u32)
    requires i < |es| && Fits(es[i], lba) && lba as int + count <= total
    requires forall s: nat :: Cover(es, s) <= Bit(s < total)
    ensures es[i].count as int + count < 0x1_0000_0000
    ensures var fs := es[i := Attach(es[i], lba, count)];
            && Total(fs) == Total(es) + count
            && forall s: nat :: Cover(fs, s) == Cover(es, s) + Bit(s in Range(lba, count))
  {
    var e := es[i];
    if e.count != 0 { ExtentInside(es, i, total); }
    var f := Attach(e, lba, count);
    TotalUpdate(es, i, f);
    forall s: nat
      ensures Cover(es[i := f], s) == Cover(es, s) + Bit(s in Range(lba, count))
    {
      CoverUpdate(es, i, f, s);
    }
  }

  // An inode takes the sectors in a direct extent.
  lemma DirectGrow(x: Inode, d: Disk, i: nat, lba: u32, count: u32, total: u32)
    requires i < |x.direct| && Fits(x.direct[i], lba) && lba as int + count <= total
    requires forall s: nat :: Cover(Exts(x, d), s) <= Bit(s < total)
    ensures x.direct[i].count as int + count < 0x1_0000_0000
    ensures var y := x.(direct := x.direct[i := Attach(x.direct[i], lba, count)]);
            && Total(Exts(y, d)) == Total(Exts(x, d)) + count
            && forall s: nat :: Own(y, d, s) == Own(x, d, s) + Bit(s in Range(lba, count))
  {
    var es := Exts(x, d);
    AttachCover(es, i, lba, count, total);
    var y := x.(direct := x.direct[i := Attach(x.direct[i], lba, count)]);
    assert Exts(y, d) == es[i := Attach(es[i], lba, count)];
  }

  /** The indirect extents of an inode, all empty if it has no indirect block. */
  function Ind(x: Inode, d: Disk): (es: seq<Extent>)
    ensures |es| == INDIRECT
  {
    if x.indirect == 0 then Empties(INDIRECT) else Decode(Read(d, x.indirect))
  }

  lemma IndCover(x: Inode, d: Disk, s: nat)
    ensures Cover(Exts(x, d), s) == Cover(x.direct + Ind(x, d), s) && Total(Exts(x, d)) == Total(x.direct + Ind(x, d))
  {
    if x.indirect == 0 {
      assert Exts(x, d) == x.direct;
      EmptyExtents(Empties(INDIRECT), s);
      CoverAppend(x.direct, Empties(INDIRECT), s);
      TotalAppend(x.direct, Empties(INDIRECT));
    }
  }

  lemma NewIndirect(x: Inode, d: Disk, w: u32, ind: seq<Extent>)
    requires w != 0 && |ind| == INDIRECT
    ensures Exts(x.(indirect := w), d[w as nat := Encode(ind)]) == x.direct + ind
  {
    EncodeRoundTrip(ind);
  }

  lemma IndirectAttach(x: Inode, d: Disk, i: nat, lba: u32, count: u32, total: u32)
    requires i < INDIRECT && Fits(Ind(x, d)[i], lba) && lba as int + count <= total
    requires forall s: nat :: Cover(Exts(x, d), s) <= Bit(s < total)
    ensures Ind(x, d)[i].count as int + count < 0x1_0000_0000
    ensures var es := x.direct + Ind(x, d)[i := Attach(Ind(x, d)[i], lba, count)];
            && Total(es) == Total(Exts(x, d)) + count
            && forall s: nat :: Cover(es, s) == Cover(Exts(x, d), s) + Bit(s in Range(lba, count))
  {
    var ind := Ind(x, d);
    var es := x.direct + ind;
    IndCover(x, d, 0);
    forall s: nat
      ensures Cover(es, s) == Cover(Exts(x, d), s) <= Bit(s < total)
    {
      IndCover(x, d, s);
    }
    AttachCover(es, |x.direct| + i, lba, count, total);
    UpdateAppend(x.direct, ind, i, Attach(ind[i], lba, count));
  }

  // An inode takes the sectors in its indirect block w, which may be new.
  lemma IndirectGrow(x: Inode, d: Disk, w: u32, i: nat, lba: u32, count: u32, total: u32)
    requires i < INDIRECT && Fits(Ind(x, d)[i], lba) && lba as int + count <= total
    requires w != 0 && (x.indirect == 0 || x.indirect == w) && forall s: nat :: Cover(Exts(x, d), s) <= Bit(s < total)
    ensures Ind(x, d)[i].count as int + count < 0x1_0000_0000
    ensures var y := x.(indirect := w);
            var e := d[w as nat := Encode(Ind(x, d)[i := Attach(Ind(x, d)[i], lba, count)])];
            && Total(Exts(y, e)) == Total(Exts(x, d)) + count
            && forall s: nat ::
                 Own(y, e, s) == Own(x, d, s) + Bit(s in Range(lba, count)) + Bit(x.indirect == 0 && s == w)
  {
    IndirectAttach(x, d, i, lba, count, total);
    NewIndirect(x, d, w, Ind(x, d)[i := Attach(Ind(x, d)[i], lba, count)]);
  }

  lemma DirectExtended(x: Inode, d: Disk, i: nat, lba: u32, count: u32)
    requires i < |x.direct| && Fits(x.direct[i], lba) && x.direct[i].count as int + count < 0x1_0000_0000
    ensures var y := x.(direct := x.direct[i := Attach(x.direct[i], lba, count)]);
            Extended(Exts(x, d), d, Exts(y, d), d, lba, count)
  {
    var y := x.(direct := x.direct[i := Attach(x.direct[i], lba, count)]);
    assert Exts(x, d) + Empties(0) == Exts(x, d);
    assert Joined(Exts(x, d), Exts(y, d), lba, count, i);
  }

  lemma IndirectExtended(x: Inode, d: Disk, w: u32, i: nat, lba: u32, count: u32)
    requires w != 0 && (x.indirect == 0 || x.indirect == w) && i < INDIRECT && Fits(Ind(x, d)[i], lba)
    requires Ind(x, d)[i].count as int + count < 0x1_0000_0000
    ensures var e := d[w as nat := Encode(Ind(x, d)[i := Attach(Ind(x, d)[i], lba, count)])];
            SameData(Exts(x, d), d, e) ==> Extended(Exts(x, d), d, Exts(x.(indirect := w), e), e, lba, count)
  {
    var ind := Ind(x, d);
    var more := ind[i := Attach(ind[i], lba, count)];
    var e := d[w as nat := Encode(more)];
    var es, fs := Exts(x, d), Exts(x.(indirect := w), e);
    NewIndirect(x, d, w, more);
    UpdateAppend(x.direct, ind, i, Attach(ind[i], lba, count));
    assert es + Empties(|fs| - |es|) == x.direct + ind;
    assert Joined(es, fs, lba, count, |x.direct| + i);
  }

  lemma UpdateAppend<T>(a: seq<T>, b: seq<T>, i: nat, v: T)
    requires i < |b|
    ensures a + b[i := v] == (a + b)[|a| + i := v] && (a + b)[|a| + i] == b[i]
  {
  }

  /** The inodes differ at most in size and extents. */
  ghost predicate Resized(x: Inode, y: Inode)
  {
    y == x.(size := y.size, direct := y.direct, indirect := y.indirect)
  }

  /** What an operation on inode idx leaves alone: the other inodes, every sector they own, and all
      of inode idx but its extents. */
  ghost predicate Kept(ins: seq<Inode>, d: Disk, ins': seq<Inode>, d': Disk, idx: nat)
    requires idx < |ins|
  {
    && |ins'| == |ins| && ins' == ins[idx := ins[idx].(direct := ins'[idx].direct, indirect := ins'[idx].indirect)]
    && Untouched(ins, d, d', idx)
  }

  lemma AllSameExts(ins: seq<Inode>, d: Disk, e: Disk, idx: nat)
    requires Untouched(ins, d, e, idx)
    ensures forall j :: 0 <= j < |ins| && j != idx ==> Exts(ins[j], e) == Exts(ins[j], d)
  {
    forall j | 0 <= j < |ins| && j != idx
      ensures Exts(ins[j], e) == Exts(ins[j], d)
    {
      SameExts(ins, d, e, idx, j);
    }
  }

  // The volume after inode idx took the sectors in slot i of its indirect block w.
  lemma IndirectKeeps(ins: seq<Inode>, d: Disk, used: set<nat>, base: nat, pend: set<nat>, idx: nat, w: u32, i: nat,
                      lba: u32, count: u32, total: u32)
    requires Balanced(ins, d, used, base, pend) && idx < |ins| && used <= Range(0, total)
    requires w != 0 && if ins[idx].indirect == 0 then w as nat in pend - Range(lba, count) else w == ins[idx].indirect
    requires i < INDIRECT && Fits(Ind(ins[idx], d)[i], lba) && lba as int + count <= total && Range(lba, count) <= pend
    ensures Ind(ins[idx], d)[i].count as int + count < 0x1_0000_0000
    ensures var x, ind := ins[idx], Ind(ins[idx], d);
            var y, e := x.(indirect := w), d[w as nat := Encode(ind[i := Attach(ind[i], lba, count)])];
            && Untouched(ins, d, e, idx) && Total(Exts(y, e)) == Total(Exts(x, d)) + count
            && Balanced(ins[idx := y], e, used, base,
                        pend - Range(lba, count) - if x.indirect == 0 then {w as nat} else {})
  {
    var x, ind := ins[idx], Ind(ins[idx], d);
    ExtsSound(ins, d, used, base, pend, idx, total);
    IndirectGrow(x, d, w, i, lba, count, total);
    var data := Encode(ind[i := Attach(ind[i], lba, count)]);
    var e := d[w as nat := data];
    WriteUntouched(ins, d, used, base, pend, idx, w, data);
    AllSameExts(ins, d, e, idx);
    var left := pend - Range(lba, count) - if x.indirect == 0 then {w as nat} else {};
    InodeKeeps(ins, d, used, base, pend, idx, x.(indirect := w), e, left);
  }

  lemma KeptTrans(ins: seq<Inode>, d: Disk, ins1: seq<Inode>, d1: Disk, ins2: seq<Inode>, d2: Disk, idx: nat)
    requires idx < |ins| == |ins1| && Kept(ins, d, ins1, d1, idx) && Kept(ins1, d1, ins2, d2, idx)
    ensures Kept(ins, d, ins2, d2, idx)
  {
    UntouchedTrans(ins, d, d1, d2, idx, ins1);
  }

  // ----- releasing extents -----

  ghost function CoverSet(es: seq<Extent>): set<nat>
  {
    if |es| == 0 then {} else Range(es[0].lba, es[0].count) + CoverSet(es[1..])
  }

  lemma {:induction false} CoverSetIsCover(es: seq<Extent>, s: nat)
    ensures s in CoverSet(es) <==> Cover(es, s) >= 1
  {
    if |es| != 0 { CoverSetIsCover(es[1..], s); }
  }

  // A direct extent leaves its inode; its sectors are pending.
  lemma DetachDirect(ins: seq<Inode>, d: Disk, used: set<nat>, base: nat, pend: set<nat>, idx: nat, i: nat, total: nat)
    requires Balanced(ins, d, used, base, pend) && idx < |ins| && used <= Range(0, total) && i < |ins[idx].direct|
    ensures var x, e := ins[idx], ins[idx].direct[i]; var r := Range(e.lba, e.count);
            && r !! pend && (e.count != 0 ==> e.lba as int + e.count <= total)
            && Balanced(ins[idx := x.(direct := x.direct[i := NONE])], d, used, base, pend + r)
  {
    var x, e := ins[idx], ins[idx].direct[i];
    var r, y := Range(e.lba, e.count), x.(direct := x.direct[i := NONE]);
    ExtsSound(ins, d, used, base, pend, idx, total);
    if e.count != 0 { ExtentInside(Exts(x, d), i, total); }
    assert Exts(y, d) == Exts(x, d)[i := NONE];
    forall s: nat
      ensures Own(x, d, s) == Own(y, d, s) + Bit(s in r) && !(s in r && s in pend)
    {
      CoverUpdate(Exts(x, d), i, NONE, s);
      if s in r { SoleOwner(ins, d, used, base, pend, idx, s); }
    }
    InodeKeeps(ins, d, used, base, pend, idx, y, d, pend + r);
  }

  // So does the whole indirect block.
  lemma DetachIndirect(ins: seq<Inode>, d: Disk, used: set<nat>, base: nat, pend: set<nat>, idx: nat, total: nat)
    requires Balanced(ins, d, used, base, pend) && idx < |ins| && used <= Range(0, total) && ins[idx].indirect != 0
    ensures var x, ind := ins[idx], Ind(ins[idx], d);
            && CoverSet(ind) + {x.indirect as nat} !! pend && x.indirect as nat !in CoverSet(ind) && x.indirect < total
            && (forall s: nat :: Cover(ind, s) <= Bit(s < total))
            && Balanced(ins[idx := x.(indirect := 0)], d, used, base, pend + CoverSet(ind) + {x.indirect as nat})
  {
    var x, ind := ins[idx], Ind(ins[idx], d);
    var r, y := CoverSet(ind) + {x.indirect as nat}, x.(indirect := 0);
    ExtsSound(ins, d, used, base, pend, idx, total);
    assert Exts(y, d) == x.direct;
    forall s: nat
      ensures Cover(ind, s) <= Cover(Exts(x, d), s)
      ensures Own(x, d, s) == Own(y, d, s) + Bit(s in r) && !(s in r && s in pend)
      ensures !(s == x.indirect && s in CoverSet(ind))
    {
      CoverAppend(x.direct, ind, s);
      CoverSetIsCover(ind, s);
      if Own(x, d, s) >= 1 { SoleOwner(ins, d, used, base, pend, idx, s); }
    }
    SoleOwner(ins, d, used, base, pend, idx, x.indirect);
    InodeKeeps(ins, d, used, base, pend, idx, y, d, pend + CoverSet(ind) + {x.indirect as nat});
  }

  lemma CoverSetNext(ind: seq<Extent>, i: nat, total: nat)
    requires i < |ind| && forall s: nat :: Cover(ind, s) <= Bit(s < total)
    ensures var r := Range(ind[i].lba, ind[i].count);
            CoverSet(ind[i..]) == r + CoverSet(ind[i + 1..]) && r !! CoverSet(ind[i + 1..])
            && (ind[i].count != 0 ==> ind[i].lba as int + ind[i].count <= total)
  {
    assert ind[i..] == [ind[i]] + ind[i + 1..];
    assert ind == ind[..i] + ind[i..];
    forall s: nat
      ensures !(s in Range(ind[i].lba, ind[i].count) && s in CoverSet(ind[i + 1..]))
    {
      CoverAppend(ind[..i], ind[i..], s);
      CoverSetIsCover(ind[i + 1..], s);
    }
    if ind[i].count != 0 { ExtentInside(ind, i, total); }
  }

  // ----- writing data -----

  // A write to a data sector of inode idx, or to a pending sector.
  lemma WriteKeeps(ins: seq<Inode>, d: Disk, used: set<nat>, base: nat, pend: set<nat>, idx: nat, w: nat, data: Sector)
    requires Balanced(ins, d, used, base, pend) && idx < |ins| && (w in pend || Cover(Exts(ins[idx], d), w) >= 1)
    ensures Balanced(ins, d[w := data], used, base, pend) && Kept(ins, d, ins, d[w := data], idx)
    ensures Exts(ins[idx], d[w := data]) == Exts(ins[idx], d)
  {
    var x, e := ins[idx], d[w := data];
    WriteUntouched(ins, d, used, base, pend, idx, w, data);
    AllSameExts(ins, d, e, idx);
    if w in pend {
      Unowned(ins, d, used, base, pend, w);
      assert Own(x, d, w) == 0;
    } else {
      SoleOwner(ins, d, used, base, pend, idx, w);
    }
    InodeKeeps(ins, d, used, base, pend, idx, x, e, pend);
    assert ins[idx := x] == ins;
  }

  lemma PendingInUse(ins: seq<Inode>, d: Disk, used: set<nat>, base: nat, pend: set<nat>)
    requires Balanced(ins, d, used, base, pend)
    ensures pend <= used
  {
    forall s | s in pend
      ensures s in used
    {
      assert OwnAll(ins, d, s) + Bit(s in pend) == Bit(s in used && s >= base);
    }
  }

  // An inode whose sectors are one run.
  lemma OneRun(x: Inode, d: Disk, total: u32, start: u32, n: u32)
    requires x.direct == BLANK.direct[0 := Extent(start, n)] && x.indirect == 0 && 0 < n && start as int + n <= total
    ensures Total(Exts(x, d)) == n
    ensures |Parts(x, d, total)| == n && forall k :: 0 <= k < n ==> Parts(x, d, total)[k] == Read(d, start as nat + k)
  {
    var es := Exts(x, d);
    assert es == [Extent(start, n)] + [NONE, NONE, NONE];
    assert es[1..] == [NONE, NONE, NONE];
    EmptyExtents(es[1..], 0);
    CountIsTotal(es, total, 0);
  }

  // An inode without sectors.
  lemma NoParts(x: Inode, d: Disk, total: u32)
    requires x.direct == BLANK.direct && x.indirect == 0 && total != 0
    ensures Total(Exts(x, d)) == 0 && Parts(x, d, total) == []
  {
    assert Exts(x, d) == x.direct;
    EmptyExtents(x.direct, 0);
    CountIsTotal(x.direct, total, 0);
  }

  /** The other inodes and everything they own are as before. */
  ghost predicate OnlyInode(ins: seq<Inode>, d: Disk, ins': seq<Inode>, d': Disk, idx: nat)
  {
    && |ins'| == |ins| && (forall j :: 0 <= j < |ins| && j != idx ==> ins'[j] == ins[j])
    && Untouched(ins, d, d', idx)
  }

  lemma OnlyInodeTrans(ins: seq<Inode>, d: Disk, ins1: seq<Inode>, d1: Disk, ins2: seq<Inode>, d2: Disk, idx: nat)
    requires OnlyInode(ins, d, ins1, d1, idx) && OnlyInode(ins1, d1, ins2, d2, idx)
    ensures OnlyInode(ins, d, ins2, d2, idx)
  {
    UntouchedTrans(ins, d, d1, d2, idx, ins1);
  }

  /** The other inodes and files are as before. */
  ghost predicate OtherFilesSame(ins: seq<Inode>, d: Disk, ins': seq<Inode>, d': Disk, idx: nat, total: u32)
  {
    && |ins'| == |ins|
    && forall j :: 0 <= j < |ins| && j != idx ==>
      ins'[j] == ins[j] && File(ins'[j], d', total) == File(ins[j], d, total)
  }

  lemma OtherFilesKept(ins: seq<Inode>, d: Disk, ins': seq<Inode>, d': Disk, idx: nat, used: set<nat>, base: nat,
      total: u32)
    requires OnlyInode(ins, d, ins', d', idx) && Balanced(ins, d, used, base, {}) && total != 0
    requires used <= Range(0, total)
    ensures OtherFilesSame(ins, d, ins', d', idx, total)
  {
    forall j | 0 <= j < |ins| && j != idx
      ensures File(ins'[j], d', total) == File(ins[j], d, total)
    {
      OtherFile(ins, d, used, base, {}, total, d', idx, j);
    }
  }

  /** The first n sectors from start on hold what buf holds. */
  ghost predicate Stored(d: Disk, start: nat, buf: seq<Sector>, n: nat)
    requires n <= |buf|
  {
    forall k :: 0 <= k < n ==> Read(d, start + k) == buf[k]
  }

  lemma StoredNext(d: Disk, start: nat, buf: seq<Sector>, n: nat)
    requires n < |buf| && Stored(d, start, buf, n)
    ensures Stored(d[start + n := buf[n]], start, buf, n + 1)
  {
  }

  // Sectors below base belong to nobody.
  lemma MetadataKeeps(ins: seq<Inode>, d: Disk, used: set<nat>, base: nat, e: Disk, total: u32, idx: nat)
    requires Balanced(ins, d, used, base, {}) && idx < |ins| && total != 0 && used <= Range(0, total)
    requires forall l: nat :: l >= base ==> Read(e, l) == Read(d, l)
    ensures Balanced(ins, e, used, base, {}) && OnlyInode(ins, d, ins, e, idx)
    ensures Exts(ins[idx], e) == Exts(ins[idx], d) && Parts(ins[idx], e, total) == Parts(ins[idx], d, total)
  {
    forall j, s: nat | 0 <= j < |ins| && Own(ins[j], d, s) > 0
      ensures Read(e, s) == Read(d, s)
    {
      SoleOwner(ins, d, used, base, {}, j, s);
    }
    assert Untouched(ins, d, e, |ins|) && Untouched(ins, d, e, idx);
    AllSameExts(ins, d, e, |ins|);
    InodeKeeps(ins, d, used, base, {}, idx, ins[idx], e, {});
    assert ins[idx := ins[idx]] == ins;
    SameParts(ins, d, used, base, e, total, idx);
  }

  lemma SameParts(ins: seq<Inode>, d: Disk, used: set<nat>, base: nat, e: Disk, total: u32, idx: nat)
    requires Balanced(ins, d, used, base, {}) && idx < |ins| && total != 0 && used <= Range(0, total)
    requires Exts(ins[idx], e) == Exts(ins[idx], d) && forall s: nat :: Own(ins[idx], d, s) > 0 ==>
              Read(e, s) == Read(d, s)
    ensures Parts(ins[idx], e, total) == Parts(ins[idx], d, total)
  {
    PartIsSector(ins, d, used, base, {}, idx, total);
    forall k: nat | k < Total(Exts(ins[idx], d))
      ensures Part(ins[idx], e, total, k) == Part(ins[idx], d, total, k)
    {
      MapCovered(Exts(ins[idx], d), k);
      assert Own(ins[idx], d, Map(Exts(ins[idx], d), k)) > 0;
    }
  }

  /** What there is of the first n bytes of f is in g. */
  ghost predicate SameBefore(f: seq<u8>, g: seq<u8>, n: nat)
  {
    forall p :: 0 <= p < n && p < |f| && p < |g| ==> g[p] == f[p]
  }

  /** g is f with the bytes from offset on replaced by data. */
  ghost predicate Written(f: seq<u8>, g: seq<u8>, offset: nat, data: seq<u8>)
  {
    if |data| == 0 then g == f else offset + |data| <= |f| && g == Splice(f, offset, data)
  }

  // A write that ends at the end of the file.
  lemma WrittenLast(f: seq<u8>, g: seq<u8>, offset: nat, data: seq<u8>)
    requires Written(f, g, offset, data) && |f| == offset + |data|
    ensures |g| == |f| && g[offset..] == data && SameBefore(f, g, offset)
  {
  }

  // A write of all there is room for.
  lemma WholeWrite(f: seq<u8>, g: seq<u8>, data: seq<u8>, rc: int)
    requires 0 < |data| < 0x1_0000_0000 && rc == Int(|data|)
    requires |f| == (if |data| <= 0xFFFF_FE00 then |data| else 0) && |g| == |f|
    requires rc != -1 ==> Written(f, g, 0, data)
    ensures g == if |data| < 0xFFFF_FFFF then data else []
  {
  }

  lemma WrittenNext(f: seq<u8>, g: seq<u8>, offset: nat, data: seq<u8>, n: nat, m: nat, h: seq<u8>, pos: nat,
      piece: seq<u8>)
    requires n < m <= |data| && Written(f, g, offset, data[..n]) && piece == data[n..m] && pos == offset + n
    requires pos + |piece| <= |g| && h == Splice(g, pos, piece)
    ensures Written(f, h, offset, data[..m])
  {
    assert data[..m] == data[..n] + data[n..m];
  }

  // An inode gives up or takes its xattr block.
  lemma XattrKeeps(ins: seq<Inode>, d: Disk, used: set<nat>, base: nat, pend: set<nat>, idx: nat, w: u32, give: bool)
    requires Balanced(ins, d, used, base, pend) && idx < |ins| && w != 0
    requires if give then ins[idx].xattr == w else ins[idx].xattr == 0 && w as nat in pend
    ensures give ==>
              && w as nat !in pend && w as nat in used
              && Balanced(ins[idx := ins[idx].(xattr := 0)], d, used, base, pend + {w as nat})
    ensures !give ==> Balanced(ins[idx := ins[idx].(xattr := w)], d, used, base, pend - {w as nat})
  {
    var x := ins[idx];
    if give {
      SoleOwner(ins, d, used, base, pend, idx, w);
      InodeKeeps(ins, d, used, base, pend, idx, x.(xattr := 0), d, pend + {w as nat});
    } else {
      InodeKeeps(ins, d, used, base, pend, idx, x.(xattr := w), d, pend - {w as nat});
    }
  }

  // A write to idx's xattr block changes no file.
  lemma XattrWrite(ins: seq<Inode>, d: Disk, used: set<nat>, base: nat, idx: nat, total: u32, data: Sector)
    requires Balanced(ins, d, used, base, {}) && idx < |ins| && ins[idx].xattr != 0 && total != 0
    requires used <= Range(0, total)
    ensures var e := d[ins[idx].xattr as nat := data];
            && Balanced(ins, e, used, base, {}) && OnlyInode(ins, d, ins, e, idx)
            && File(ins[idx], e, total) == File(ins[idx], d, total)
  {
    var w := ins[idx].xattr;
    var e := d[w as nat := data];
    SoleOwner(ins, d, used, base, {}, idx, w);
    WriteUntouched(ins, d, used, base, {}, idx, w, data);
    AllSameExts(ins, d, e, idx);
    InodeKeeps(ins, d, used, base, {}, idx, ins[idx], e, {});
    assert ins[idx := ins[idx]] == ins;
    PartIsSector(ins, d, used, base, {}, idx, total);
    UnownedWrite(ins[idx], d, w as nat, data, total);
  }

  // A write to a sector that is neither data nor the indirect block.
  lemma UnownedWrite(x: Inode, d: Disk, w: nat, data: Sector, total: u32)
    requires MapsParts(x, d, total) && Cover(Exts(x, d), w) == 0 && (x.indirect == 0 || x.indirect != w)
    ensures File(x, d[w := data], total) == File(x, d, total)
  {
    var e := d[w := data];
    assert Exts(x, e) == Exts(x, d);
    forall k: nat | k < Total(Exts(x, d))
      ensures Part(x, e, total, k) == Part(x, d, total, k)
    {
      MapCovered(Exts(x, d), k);
    }
    assert Parts(x, e, total) == Parts(x, d, total);
  }

  lemma {:induction false} NobodyOwns(ins: seq<Inode>, d: Disk, s: nat)
    requires forall i :: 0 <= i < |ins| ==> OwnsNothing(ins[i])
    ensures OwnAll(ins, d, s) == 0
  {
    if |ins| != 0 {
      assert Exts(ins[0], d) == ins[0].direct;
      EmptyExtents(ins[0].direct, s);
      NobodyOwns(ins[1..], d, s);
    }
  }

  /** Sectors for a number of bytes; within 511 of 2^32 the sum wraps. */
  function Rounded(size: u32): (n: u32)
    ensures n == if size <= 0xFFFF_FE00 then (size + 511) / 512 else 0
  {
    if size == 0 then 0 else (size as int + 511) % 0x1_0000_0000 / 512
  }

  /** f is cut or extended to size bytes; if its sectors are anchored it keeps its bytes.  A size that
      wraps leaves nothing. */
  ghost predicate Cut(f: seq<u8>, g: seq<u8>, size: nat, anchored: bool)
  {
    if size <= 0xFFFF_FE00 then
      |g| == size && (size <= |f| ==> g == f[..size]) && (anchored && |f| <= size ==> f <= g)
    else g == []
  }

  /** f has grown to end with the data from offset on. */
  ghost predicate Grew(f: seq<u8>, g: seq<u8>, offset: nat, data: seq<u8>, anchored: bool)
  {
    if offset + |data| <= 0xFFFF_FE00 then
      |g| == offset + |data| && g[offset..] == data && (anchored ==> SameBefore(f, g, offset))
    else data == [] && g == []
  }

  /** A length, cast to int. */
  function Int(n: u32): int
  {
    if n < 0x8000_0000 then n else n as int - 0x1_0000_0000
  }

  class Fs {
    const total: u32             // boot_sector.total_sectors
    const base: u32              // fs_alloc_base_sector()
    var bitmap: seq<u8>
    var inodes: seq<Inode>
    var disk: Disk
    ghost var used: set<nat>     // the sectors marked in the bitmap

    /** The volume is consistent but for the pending sectors of the operation under way. */
    ghost predicate Held(pend: set<nat>)
      reads this
    {
      && total != 0 && base != 0
      && BitmapOk(bitmap, used, total) && Shapes(inodes)
      && Balanced(inodes, disk, used, base, pend)
    }

    /** A bit from base on is set exactly if one inode owns the sector. */
    ghost predicate Valid()
      reads this
    {
      Held({})
    }

    /** A new volume: the metadata is in use, and only the root directory, which is empty, exists. */
    constructor (totalSectors: u32, allocBase: u32, d: Disk)
      requires 0 < allocBase <= totalSectors
      ensures Valid() && total == totalSectors && base == allocBase && used == Range(0, base) && disk == d
      ensures inodes[1] == BLANK.(occupied := true, dir := true, nlink := 1, parent := 1)
      ensures forall i :: 0 <= i < INODES && i != 1 ==> inodes[i] == BLANK
    {
      total, base, disk := totalSectors, allocBase, d;
      bitmap := Zeros((totalSectors + 7) / 8);
      used := {};
      inodes := seq(INODES, i =>
        if i == 1 then Inode(true, true, false, 1, 0, 1, [NONE, NONE, NONE, NONE], 0, 0) else BLANK);
      new;
      forall s: nat | s < total
        ensures !Marked(bitmap, s)
      {
        ZeroBit(s % 8);
      }
      ghost var ins := inodes;
      for i := 0 to base
        invariant BitmapOk(bitmap, used, total) && used == Range(0, i) && inodes == ins && disk == d
      {
        BitmapSet(i, true);
        assert Range(0, i + 1) == Range(0, i) + {i as nat};
      }
      forall s: nat
        ensures OwnAll(inodes, disk, s) == 0
      {
        NobodyOwns(inodes, disk, s);
      }
    }

    // ----- the block allocator -----

    /** fs_bitmap_test */
    method BitmapTest(sector: u32) returns (r: bool)
      requires BitmapOk(bitmap, used, total)
      ensures r == (sector >= total || sector in used)
    {
      if sector >= total { return true; }
      r := TestSector(bitmap, sector);
    }

    /** fs_bitmap_set */
    method BitmapSet(sector: u32, occupied: bool)
      requires BitmapOk(bitmap, used, total)
      modifies this`bitmap, this`used
      ensures BitmapOk(bitmap, used, total)
      ensures used == if sector >= total then old(used)
                      else if occupied then old(used) + {sector as nat} else old(used) - {sector as nat}
    {
      if sector >= total { return; }
      bitmap := SetSector(bitmap, sector, occupied);
      used := if occupied then used + {sector as nat} else used - {sector as nat};
      assert sector as nat in Range(0, total);
      forall s: nat | s < total
        ensures s in used <==> Marked(bitmap, s)
      {
        assert s in old(used) <==> Marked(old(bitmap), s);
      }
    }

    // The first run of count free sectors.
    method FindRun(count: u32) returns (ok: bool, start: u32)
      requires BitmapOk(bitmap, used, total) && count > 0
      ensures ok ==> base <= start && start as int + count <= total && Range(start, count) !! used
      ensures ok ==> NoRun(used, base, start as int + count - 1, count)
      ensures !ok ==> NoRun(used, base, total, count)
    {
      var run: u32 := 0;
      var i := base;
      while i < total
        invariant base <= i && run <= i - base && run < count && (i <= total || i == base)
        invariant Range(i - run, run) !! used && (i - run == base || i - run - 1 in used)
        invariant NoRun(used, base, i, count)
      {
        var b := BitmapTest(i);
        if !b {
          run := run + 1;
          assert Range(i + 1 - run, run) == Range(i - (run - 1), run - 1) + {i as nat};
          if run >= count { return true, i - count + 1; }
        } else {
          run := 0;
        }
        NoRunNext(used, base, i, count, run);
        i := i + 1;
      }
      return false, 0;
    }

    /** fs_alloc_blocks: the first run of count free sectors; it fails only if there is none. */
    method AllocBlocks(count: u32, ghost pend: set<nat>) returns (ok: bool, start: u32)
      requires Held(pend)
      modifies this`bitmap, this`used
      ensures ok ==> 0 < count && base <= start && start as int + count <= total && Range(start, count) !! old(used)
      ensures ok ==> used == old(used) + Range(start, count) && Held(pend + Range(start, count))
      ensures !ok ==> bitmap == old(bitmap) && used == old(used) && (count == 0 || NoRun(used, base, total, count))
    {
      if count == 0 { return false, 0; }
      ok, start := FindRun(count);
      if !ok { return; }
      for j := 0 to count
        invariant BitmapOk(bitmap, used, total) && used == old(used) + Range(start, j)
      {
        BitmapSet(start + j, true);
        assert Range(start, j + 1) == Range(start, j) + {start as nat + j};
      }
      TakeKeeps(inodes, disk, old(used), base, pend, Range(start, count));
    }

    /** fs_free_blocks, of sectors no inode has. */
    method FreeBlocks(start: u32, count: u32, ghost pend: set<nat>)
      requires Held(pend) && Range(start, count) <= pend && start as int + count <= 0x1_0000_0000
      modifies this`bitmap, this`used
      ensures used == old(used) - Range(start, count) && Held(pend - Range(start, count))
    {
      for i := 0 to count
        invariant BitmapOk(bitmap, used, total) && used == old(used) - Range(start, i)
      {
        var b := BitmapTest(start + i);
        if b { BitmapSet(start + i, false); }
        assert Range(start, i + 1) == Range(start, i) + {start as nat + i};
      }
      GiveKeeps(inodes, disk, old(used), base, pend, Range(start, count));
    }

    // ----- extents -----

    // The first extent that can take the sectors from lba on.
    static method FindSlot(es: seq<Extent>, lba: u32) returns (i: nat)
      ensures i <= |es| && (i < |es| ==> Fits(es[i], lba)) && forall k :: 0 <= k < i ==> !Fits(es[k], lba)
    {
      i := 0;
      while i < |es|
        invariant i <= |es| && forall k :: 0 <= k < i ==> !Fits(es[k], lba)
      {
        if es[i].count == 0 || (es[i].lba as int + es[i].count) % 0x1_0000_0000 == lba { return; }
        i := i + 1;
      }
    }

    /** inode_add_extent: pending sectors become the inode's; on failure nothing changes. */
    method AddExtent(idx: nat, lba: u32, count: u32, ghost pend: set<nat>) returns (ok: bool)
      requires Held(pend) && idx < INODES && inodes[idx].occupied
      requires count > 0 && base <= lba && lba as int + count <= total && Range(lba, count) <= pend
      modifies this
      ensures Kept(old(inodes), old(disk), inodes, disk, idx)
      ensures ok ==>
                && Held(pend - Range(lba, count))
                && Total(Exts(inodes[idx], disk)) == old(Total(Exts(inodes[idx], disk))) + count
                && Extended(old(Exts(inodes[idx], disk)), old(disk), Exts(inodes[idx], disk), disk, lba, count)
                && old(used) <= used
      ensures !ok ==> inodes == old(inodes) && disk == old(disk) && used == old(used) && bitmap == old(bitmap)
      ensures ok && old(inodes)[idx].direct[0].count == 0 ==>
                && disk == old(disk)
                && inodes[idx] == old(inodes)[idx].(direct := old(inodes)[idx].direct[0 := Extent(lba, count)])
    {
      var x := inodes[idx];
      var i := FindSlot(x.direct, lba);
      if i < DIRECT {
        AddDirect(idx, i, lba, count, pend);
        return true;
      }
      ok := AddToBlock(idx, lba, count, pend);
    }

    // The extent goes to the indirect block, which may be new.
    method AddToBlock(idx: nat, lba: u32, count: u32, ghost pend: set<nat>) returns (ok: bool)
      requires Held(pend) && idx < INODES && inodes[idx].occupied
      requires count > 0 && base <= lba && lba as int + count <= total && Range(lba, count) <= pend
      modifies this
      ensures Kept(old(inodes), old(disk), inodes, disk, idx)
      ensures ok ==>
                && Held(pend - Range(lba, count))
                && Total(Exts(inodes[idx], disk)) == old(Total(Exts(inodes[idx], disk))) + count
                && Extended(old(Exts(inodes[idx], disk)), old(disk), Exts(inodes[idx], disk), disk, lba, count)
                && old(used) <= used
      ensures !ok ==> inodes == old(inodes) && disk == old(disk) && used == old(used) && bitmap == old(bitmap)
    {
      if inodes[idx].indirect != 0 {
        ok := AddIndirect(idx, lba, count, inodes[idx].indirect, pend);
      } else {
        ok := AddFirstIndirect(idx, lba, count, pend);
      }
    }

    // The extent goes to a new indirect block.
    method AddFirstIndirect(idx: nat, lba: u32, count: u32, ghost pend: set<nat>) returns (ok: bool)
      requires Held(pend) && idx < INODES && inodes[idx].occupied && inodes[idx].indirect == 0
      requires count > 0 && base <= lba && lba as int + count <= total && Range(lba, count) <= pend
      modifies this
      ensures Kept(old(inodes), old(disk), inodes, disk, idx)
      ensures ok ==>
                && Held(pend - Range(lba, count))
                && Total(Exts(inodes[idx], disk)) == old(Total(Exts(inodes[idx], disk))) + count
                && Extended(old(Exts(inodes[idx], disk)), old(disk), Exts(inodes[idx], disk), disk, lba, count)
                && old(used) <= used
      ensures !ok ==> inodes == old(inodes) && disk == old(disk) && used == old(used) && bitmap == old(bitmap)
    {
      var ns;
      ok, ns := AllocBlocks(1, pend);
      if !ok { return; }
      assert Range(ns, 1) == {ns as nat};
      PendingInUse(inodes, disk, old(used), base, pend);
      ok := AddIndirect(idx, lba, count, ns, pend + {ns as nat});
      assert pend + {ns as nat} - Range(lba, count) - {ns as nat} == pend - Range(lba, count);
    }

    // The extent goes to direct slot i.
    method AddDirect(idx: nat, i: nat, lba: u32, count: u32, ghost pend: set<nat>)
      requires Held(pend) && idx < INODES && inodes[idx].occupied && i < DIRECT && Fits(inodes[idx].direct[i], lba)
      requires base <= lba && lba as int + count <= total && Range(lba, count) <= pend
      modifies this`inodes
      ensures Kept(old(inodes), disk, inodes, disk, idx) && Held(pend - Range(lba, count))
      ensures Total(Exts(inodes[idx], disk)) == Total(Exts(old(inodes)[idx], disk)) + count
      ensures Extended(Exts(old(inodes)[idx], disk), disk, Exts(inodes[idx], disk), disk, lba, count)
      ensures old(inodes)[idx].direct[i].count == 0 ==>
                inodes[idx] == old(inodes)[idx].(direct := old(inodes)[idx].direct[i := Extent(lba, count)])
    {
      var x := inodes[idx];
      ExtsSound(inodes, disk, used, base, pend, idx, total);
      DirectGrow(x, disk, i, lba, count, total);
      var y := x.(direct := x.direct[i := Attach(x.direct[i], lba, count)]);
      InodeKeeps(inodes, disk, used, base, pend, idx, y, disk, pend - Range(lba, count));
      DirectExtended(x, disk, i, lba, count);
      inodes := inodes[idx := y];
    }

    // The extent goes to the indirect block w, the inode's own or a new one.
    method AddIndirect(idx: nat, lba: u32, count: u32, w: u32, ghost pend: set<nat>) returns (ok: bool)
      requires Held(pend) && idx < INODES && inodes[idx].occupied
      requires count > 0 && base <= lba && lba as int + count <= total && Range(lba, count) <= pend
      requires w != 0
      requires if inodes[idx].indirect == 0 then w as nat in pend - Range(lba, count) else w == inodes[idx].indirect
      modifies this`inodes, this`disk
      ensures Kept(old(inodes), old(disk), inodes, disk, idx)
      ensures ok ==> Total(Exts(inodes[idx], disk)) == old(Total(Exts(inodes[idx], disk))) + count
      ensures ok ==> Extended(old(Exts(inodes[idx], disk)), old(disk), Exts(inodes[idx], disk), disk, lba, count)
      ensures ok ==> Held(pend - Range(lba, count) - if old(inodes)[idx].indirect == 0 then {w as nat} else {})
      ensures !ok ==> inodes == old(inodes) && disk == old(disk) && inodes[idx].indirect != 0
    {
      var x := inodes[idx];
      var ind := if x.indirect == 0 then Empties(INDIRECT) else Decode(Read(disk, w));
      var i := FindSlot(ind, lba);
      if i == INDIRECT { return false; }
      IndirectKeeps(inodes, disk, used, base, pend, idx, w, i, lba, count, total);
      var data := Encode(ind[i := Attach(ind[i], lba, count)]);
      OwnDataSame(inodes, disk, used, base, pend, idx, w as nat, data);
      IndirectExtended(x, disk, w, i, lba, count);
      disk := disk[w as nat := data];
      inodes := inodes[idx := x.(indirect := w)];
      return true;
    }

    // ----- releasing extents -----

    method FreeExtent(e: Extent, ghost pend: set<nat>)
      requires Held(pend) && Range(e.lba, e.count) <= pend && (e.count != 0 ==> e.lba as int + e.count <= total)
      modifies this`bitmap, this`used
      ensures Held(pend - Range(e.lba, e.count))
    {
      if e.count != 0 {
        FreeBlocks(e.lba, e.count, pend);
      } else {
        assert pend - Range(e.lba, e.count) == pend;
      }
    }

    // The direct extents of inode idx.
    method ClearDirect(idx: nat, ghost pend: set<nat>)
      requires Held(pend) && idx < INODES && inodes[idx].occupied
      modifies this`bitmap, this`used, this`inodes
      ensures Held(pend) && inodes == old(inodes)[idx := old(inodes)[idx].(direct := BLANK.direct)]
    {
      for i := 0 to DIRECT
        invariant Held(pend) && |inodes[idx].direct| == DIRECT
        invariant inodes == old(inodes)[idx := old(inodes)[idx].(direct := inodes[idx].direct)]
        invariant forall k :: 0 <= k < i ==> inodes[idx].direct[k] == NONE
      {
        var x := inodes[idx];
        var e := x.direct[i];
        DetachDirect(inodes, disk, used, base, pend, idx, i, total);
        inodes := inodes[idx := x.(direct := x.direct[i := NONE])];
        FreeExtent(e, pend + Range(e.lba, e.count));
        assert pend + Range(e.lba, e.count) - Range(e.lba, e.count) == pend;
      }
      assert inodes[idx].direct == BLANK.direct;
    }

    // The extents of a detached indirect block, and the block.
    method FreeIndirect(w: u32, ind: seq<Extent>, ghost pend: set<nat>)
      requires Held(pend + CoverSet(ind) + {w as nat}) && pend !! CoverSet(ind) + {w as nat}
      requires w as nat !in CoverSet(ind)
      requires |ind| == INDIRECT && w < total && forall s: nat :: Cover(ind, s) <= Bit(s < total)
      modifies this`bitmap, this`used
      ensures Held(pend)
    {
      assert ind[0..] == ind;
      for i := 0 to INDIRECT
        invariant Held(pend + CoverSet(ind[i..]) + {w as nat}) && pend !! CoverSet(ind[i..])
        invariant w as nat !in CoverSet(ind[i..])
      {
        CoverSetNext(ind, i, total);
        FreeExtent(ind[i], pend + CoverSet(ind[i..]) + {w as nat});
        assert pend + CoverSet(ind[i..]) + {w as nat} - Range(ind[i].lba, ind[i].count) ==
            pend + CoverSet(ind[i + 1..]) + {w as nat};
      }
      assert ind[INDIRECT..] == [] && Range(w, 1) == {w as nat};
      assert pend + CoverSet([]) + {w as nat} - {w as nat} == pend;
      FreeBlocks(w, 1, pend + CoverSet([]) + {w as nat});
    }

    /** inode_clear_extents: the inode gives up its data and its indirect block. */
    method ClearExtents(idx: nat, ghost pend: set<nat>)
      requires Held(pend) && idx < INODES && inodes[idx].occupied
      modifies this`bitmap, this`used, this`inodes
      ensures Held(pend) && inodes == old(inodes)[idx := old(inodes)[idx].(direct := BLANK.direct, indirect := 0)]
    {
      ClearDirect(idx, pend);
      var x := inodes[idx];
      if x.indirect != 0 {
        var ind := Decode(Read(disk, x.indirect));
        DetachIndirect(inodes, disk, used, base, pend, idx, total);
        inodes := inodes[idx := x.(indirect := 0)];
        FreeIndirect(x.indirect, ind, pend);
      }
    }

    // ----- walks -----

    // Count the sectors of one list of extents; `rest` follows it.
    method CountLoop(es: seq<Extent>, n0: u32, ghost rest: seq<Extent>) returns (n: u32, full: bool)
      ensures CountFrom(es + rest, total, n0) == if full then n else CountFrom(rest, total, n)
    {
      n, full := n0, false;
      var max: u32 := if total == 0 then 1024 else total;
      assert (es + rest)[0..] == es + rest;
      for i := 0 to |es|
        invariant CountFrom(es + rest, total, n0) == CountFrom((es + rest)[i..], total, n)
      {
        assert (es + rest)[i..][1..] == (es + rest)[i + 1..];
        var c := Sane(es[i].count, total);
        if n > max - c { return max, true; }
        n := n + c;
      }
      assert (es + rest)[|es|..] == rest;
    }

    /** inode_sector_count */
    method CountSectors(x: Inode) returns (n: u32)
      ensures n == SectorCount(x, disk, total)
    {
      ghost var ind := if x.indirect == 0 then [] else Decode(Read(disk, x.indirect));
      var full;
      n, full := CountLoop(x.direct, 0, ind);
      if full || x.indirect == 0 { return; }
      var es := Decode(Read(disk, x.indirect));
      assert es + [] == es;
      n, full := CountLoop(es, n, []);
    }

    // Look for part left0 of the file in one list of extents; `rest` follows it.
    method MapLoop(es: seq<Extent>, left0: u32, ghost rest: seq<Extent>) returns (hit: bool, lba: int, left: u32)
      ensures MapFrom(es + rest, total, left0) == if hit then lba else MapFrom(rest, total, left)
    {
      left, hit, lba := left0, false, -1;
      assert (es + rest)[0..] == es + rest;
      for i := 0 to |es|
        invariant MapFrom(es + rest, total, left0) == MapFrom((es + rest)[i..], total, left)
      {
        assert (es + rest)[i..][1..] == (es + rest)[i + 1..];
        var c := Sane(es[i].count, total);
        if c != 0 && left < c {
          lba := (es[i].lba as int + left) % 0x1_0000_0000;
          if total != 0 && lba >= total { return true, -1, left; }
          return true, lba, left;
        }
        left := left - c;
      }
      assert (es + rest)[|es|..] == rest;
    }

    /** inode_map_sector */
    method MapSector(x: Inode, part: u32) returns (lba: int)
      ensures lba == MapFrom(Exts(x, disk), total, part)
    {
      ghost var ind := if x.indirect == 0 then [] else Decode(Read(disk, x.indirect));
      var hit, left;
      hit, lba, left := MapLoop(x.direct, part, ind);
      if hit { return; }
      if x.indirect == 0 { return -1; }
      var es := Decode(Read(disk, x.indirect));
      assert es + [] == es;
      hit, lba, left := MapLoop(es, left, []);
      if !hit { return -1; }
    }

    // ----- growing and shrinking -----

    // The longest run of at most `most` sectors that is free.
    method AllocUpTo(most: u32) returns (want: u32, start: u32)
      requires Valid()
      modifies this`bitmap, this`used
      ensures want <= most && Held(Range(start, want)) && (want > 0 ==> base <= start && start as int + want <= total)
      ensures want > 0 ==> Range(start, want) !! old(used) && used == old(used) + Range(start, want)
    {
      want, start := most, 0;
      while want > 0
        invariant want <= most && Valid() && used == old(used)
      {
        var ok;
        ok, start := AllocBlocks(want, {});
        if ok {
          assert {} + Range(start, want) == Range(start, want);
          return;
        }
        want := want - 1;
      }
      assert Range(start, 0) == {};
    }

    // One round of inode_grow_sectors.
    method GrowOnce(idx: nat, most: u32) returns (got: u32, ghost start: u32)
      requires Valid() && idx < INODES && inodes[idx].occupied
      modifies this
      ensures Valid() && Kept(old(inodes), old(disk), inodes, disk, idx) && got <= most
      ensures got == 0 ==> inodes == old(inodes) && disk == old(disk)
      ensures got > 0 ==>
                && Total(Exts(inodes[idx], disk)) == old(Total(Exts(inodes[idx], disk))) + got
                && Extended(old(Exts(inodes[idx], disk)), old(disk), Exts(inodes[idx], disk), disk, start, got)
                && start as int + got <= total && start as nat !in old(used) && old(used) <= used
                && StepKeeps(old(Exts(inodes[idx], disk)), Exts(inodes[idx], disk), start, got)
    {
      var first;
      got, first := AllocUpTo(most);
      start := first;
      ghost var r := Range(start, got);
      if got == 0 {
        assert r == {};
        return;
      }
      assert start as nat in r;
      var ok := AddExtent(idx, first, got, r);
      assert r - r == {};
      if !ok {
        FreeBlocks(first, got, r);
        got := 0;
        return;
      }
      StepIff(old(inodes), old(disk), old(used), base, idx, Exts(inodes[idx], disk), disk, start, got, total);
    }

    /** inode_grow_sectors: a failed grow keeps what it got, and nothing is leaked. */
    method GrowSectors(idx: nat, need: u32) returns (ok: bool)
      requires Valid() && idx < INODES && inodes[idx].occupied
      modifies this
      ensures Valid() && Kept(old(inodes), old(disk), inodes, disk, idx)
      ensures ok ==> Total(Exts(inodes[idx], disk)) >= need
      ensures ok && old(Total(Exts(inodes[idx], disk))) <= need ==> Total(Exts(inodes[idx], disk)) == need
      ensures old(Anchored(Exts(inodes[idx], disk), used, total)) ==>
                old(Parts(inodes[idx], disk, total)) <= Parts(inodes[idx], disk, total)
    {
      PartIsSector(inodes, disk, used, base, {}, idx, total);
      ghost var m;
      ok, m := GrowLoop(idx, need);
      PartIsSector(inodes, disk, used, base, {}, idx, total);
      if old(Anchored(Exts(inodes[idx], disk), used, total)) {
        PartsStay(old(inodes)[idx], old(disk), inodes[idx], disk, total, m);
      }
    }

    method GrowLoop(idx: nat, need: u32) returns (ok: bool, ghost m: nat)
      requires Valid() && idx < INODES && inodes[idx].occupied
      modifies this
      ensures Valid() && Kept(old(inodes), old(disk), inodes, disk, idx)
      ensures ok ==> Total(Exts(inodes[idx], disk)) >= need
      ensures ok && old(Total(Exts(inodes[idx], disk))) <= need ==> Total(Exts(inodes[idx], disk)) == need
      ensures old(Anchored(Exts(inodes[idx], disk), used, total)) ==>
                StillThere(old(Exts(inodes[idx], disk)), old(disk), Exts(inodes[idx], disk), disk, m)
    {
      ghost var es := Exts(inodes[idx], disk);
      var have := CountSectors(inodes[idx]);
      PartIsSector(inodes, disk, used, base, {}, idx, total);
      ExtsSound(inodes, disk, used, base, {}, idx, total);
      m := LastInUse(es);
      while have < need
        invariant Valid() && Kept(old(inodes), old(disk), inodes, disk, idx)
        invariant have == Total(Exts(inodes[idx], disk)) && old(used) <= used
        invariant old(Total(Exts(inodes[idx], disk))) <= need ==> have <= need
        invariant Anchored(es, old(used), total) ==> StillThere(es, old(disk), Exts(inodes[idx], disk), disk, m)
      {
        ghost var ins1, d1 := inodes, disk;
        var got;
        ghost var start;
        got, start := GrowOnce(idx, if need - have > 8 then 8 else need - have);
        KeptTrans(old(inodes), old(disk), ins1, d1, inodes, disk, idx);
        if got == 0 { return false, m; }
        have := have + got;
        if Anchored(es, old(used), total) {
          ExtendedStays(es, old(disk), Exts(ins1[idx], d1), d1, Exts(inodes[idx], disk), disk, m, start, got,
                        old(used), total);
        }
      }
      ok := true;
    }

    // ----- parts of a file -----

    // The first n parts of a file.
    method ReadParts(x: Inode, n: u32) returns (ok: bool, buf: seq<Sector>)
      ensures ok ==> |buf| == n && forall k :: 0 <= k < n ==> buf[k] == Part(x, disk, total, k)
    {
      buf := [];
      for i := 0 to n
        invariant |buf| == i && forall k :: 0 <= k < i ==> buf[k] == Part(x, disk, total, k)
      {
        var lba := MapSector(x, i);
        if lba < 0 { return false, []; }
        buf := buf + [Read(disk, lba)];
      }
      ok := true;
    }

    // Part k of file idx, if it has that part.
    method PutPart(idx: nat, k: u32, data: Sector) returns (ok: bool)
      requires Valid() && idx < INODES
      modifies this`disk
      ensures Valid() && Kept(inodes, old(disk), inodes, disk, idx)
      ensures Exts(inodes[idx], disk) == Exts(inodes[idx], old(disk))
      ensures !ok ==> disk == old(disk)
      ensures ok ==>
                && k < |Parts(inodes[idx], old(disk), total)|
                && Parts(inodes[idx], disk, total) == Parts(inodes[idx], old(disk), total)[k := data]
    {
      var lba := MapSector(inodes[idx], k);
      if lba < 0 { return false; }
      PartIsSector(inodes, disk, used, base, {}, idx, total);
      MapCovered(Exts(inodes[idx], disk), k);
      WriteKeeps(inodes, disk, used, base, {}, idx, lba, data);
      WritePart(inodes, disk, used, base, {}, total, idx, k, data);
      disk := disk[lba := data];
      ok := true;
    }

    // The first parts of file idx.
    method PutParts(idx: nat, buf: seq<Sector>) returns (ok: bool)
      requires Valid() && idx < INODES && |buf| < 0x1_0000_0000
      modifies this`disk
      ensures Valid() && Kept(inodes, old(disk), inodes, disk, idx)
      ensures Exts(inodes[idx], disk) == Exts(inodes[idx], old(disk))
      ensures ok ==> |buf| <= |Parts(inodes[idx], disk, total)| && Parts(inodes[idx], disk, total)[..|buf|] == buf
    {
      for i := 0 to |buf|
        invariant Valid() && Kept(inodes, old(disk), inodes, disk, idx)
        invariant Exts(inodes[idx], disk) == Exts(inodes[idx], old(disk))
        invariant i <= |Parts(inodes[idx], disk, total)| && forall k :: 0 <= k < i ==>
                  Parts(inodes[idx], disk, total)[k] == buf[k]
      {
        ghost var d := disk;
        ok := PutPart(idx, i, buf[i]);
        KeptTrans(inodes, old(disk), inodes, d, inodes, disk, idx);
        if !ok { return; }
      }
      ok := true;
    }

    // A pending sector.
    method PutPending(idx: nat, w: nat, data: Sector, ghost pend: set<nat>)
      requires Held(pend) && idx < INODES && w in pend
      modifies this`disk
      ensures Held(pend) && Kept(inodes, old(disk), inodes, disk, idx) && disk == old(disk)[w := data]
    {
      WriteKeeps(inodes, disk, used, base, pend, idx, w, data);
      disk := disk[w := data];
    }

    // Pending sectors from start on.
    method PutRun(idx: nat, start: u32, buf: seq<Sector>)
      requires Held(Range(start, |buf|)) && idx < INODES
      modifies this`disk
      ensures Held(Range(start, |buf|)) && Kept(inodes, old(disk), inodes, disk, idx)
      ensures Stored(disk, start, buf, |buf|)
    {
      for i := 0 to |buf|
        invariant Held(Range(start, |buf|)) && Kept(inodes, old(disk), inodes, disk, idx)
        invariant Stored(disk, start, buf, i)
      {
        ghost var d := disk;
        StoredNext(d, start, buf, i);
        PutPending(idx, start as nat + i, buf[i], Range(start, |buf|));
        KeptTrans(inodes, old(disk), inodes, d, inodes, disk, idx);
      }
    }

    // ----- shrinking -----

    // A run of new sectors becomes the file.
    method RefillRun(idx: nat, start: u32, buf: seq<Sector>) returns (ok: bool)
      requires idx < INODES && Held(Range(start, |buf|)) && inodes[idx].occupied
      requires inodes[idx].direct == BLANK.direct && inodes[idx].indirect == 0
      requires 0 < |buf| && base <= start && start as int + |buf| <= total
      modifies this
      ensures Valid() && Kept(old(inodes), old(disk), inodes, disk, idx)
      ensures ok ==> Parts(inodes[idx], disk, total) == buf
    {
      ghost var r := Range(start, |buf|);
      PutRun(idx, start, buf);
      ghost var d := disk;
      ok := AddExtent(idx, start, |buf|, r);
      assert r - r == {};
      if !ok {
        FreeBlocks(start, |buf|, r);
        return;
      }
      KeptTrans(old(inodes), old(disk), old(inodes), d, inodes, disk, idx);
      OneRun(inodes[idx], disk, total, start, |buf|);
    }

    // A file without sectors gets new ones with these contents.
    method Refill(idx: nat, buf: seq<Sector>) returns (ok: bool)
      requires idx < INODES && Valid() && inodes[idx].occupied && inodes[idx].direct == BLANK.direct
      requires inodes[idx].indirect == 0
      requires 0 < |buf| < 0x1_0000_0000
      modifies this
      ensures Valid() && Kept(old(inodes), old(disk), inodes, disk, idx)
      ensures ok ==> Parts(inodes[idx], disk, total) == buf
    {
      var start;
      ok, start := AllocBlocks(|buf|, {});
      if ok {
        assert {} + Range(start, |buf|) == Range(start, |buf|);
        ok := RefillRun(idx, start, buf);
        return;
      }
      NoParts(inodes[idx], disk, total);
      ok := GrowSectors(idx, |buf|);
      if !ok { return; }
      PartIsSector(inodes, disk, used, base, {}, idx, total);
      ghost var ins, d := inodes, disk;
      ok := PutParts(idx, buf);
      KeptTrans(old(inodes), old(disk), ins, d, inodes, disk, idx);
    }

    /** inode_shrink_to: the first need parts move to new sectors; memory, space or the final flush may fail. */
    method ShrinkTo(idx: nat, need: u32) returns (ok: bool)
      requires idx < INODES && Valid() && inodes[idx].occupied
      modifies this
      ensures Valid() && Kept(old(inodes), old(disk), inodes, disk, idx)
      ensures var ps := old(Parts(inodes[idx], disk, total)); ok ==>
                Parts(inodes[idx], disk, total) == ps[..Min(need, |ps|)]
    {
      var oldSecs := CountSectors(inodes[idx]);
      if need >= oldSecs { return true; }
      if need == 0 {
        ClearExtents(idx, {});
        NoParts(inodes[idx], disk, total);
        return true;
      }
      var memory: bool := *;
      if !memory { return false; }
      var buf;
      ok, buf := ReadParts(inodes[idx], need);
      if !ok { return; }
      ClearExtents(idx, {});
      ghost var ins, d := inodes, disk;
      ok := Refill(idx, buf);
      KeptTrans(old(inodes), old(disk), ins, d, inodes, disk, idx);
      if ok { ok := *; }
    }

    // ----- files -----

    predicate Readable(idx: int)
      requires |inodes| == INODES
      reads this
    {
      0 < idx < INODES && inodes[idx].occupied && !inodes[idx].special
    }

    // Part k of a file; a hole reads as zeros.
    method ReadPart(x: Inode, k: u32) returns (data: Sector)
      ensures data == Part(x, disk, total, k)
    {
      var lba := MapSector(x, k);
      data := if lba < 0 then Zeros(512) else Read(disk, lba);
    }

    // The bytes from pos on that are in its sector, at most `left`.
    static method NextChunk(pos: u32, left: nat) returns (chunk: u32)
      requires 0 < left
      ensures 0 < chunk <= left && pos % 512 + chunk <= 512
    {
      chunk := if 512 - pos % 512 > left then left else 512 - pos % 512;
    }

    // Bytes of one part of a file.
    method ReadChunk(x: Inode, pos: u32, len: u32, ghost n: nat) returns (out: seq<u8>)
      requires pos % 512 + len <= 512 && 0 < len && pos as int + len <= n <= 512 * |Parts(x, disk, total)|
      ensures out == Bytes(Parts(x, disk, total), n)[pos..pos as int + len]
    {
      var data := ReadPart(x, pos / 512);
      out := data[pos % 512..pos % 512 + len];
      Chunk(Parts(x, disk, total), n, pos, len);
    }

    // Bytes offset, ..., offset + size - 1 of a file that has them.
    method ReadBytes(x: Inode, offset: u32, size: u32, ghost n: nat) returns (out: seq<u8>)
      requires offset as int + size <= n <= 512 * |Parts(x, disk, total)| && n < 0x1_0000_0000
      ensures out == Bytes(Parts(x, disk, total), n)[offset..offset as int + size]
    {
      ghost var f := Bytes(Parts(x, disk, total), n);
      out := [];
      var done: u32 := 0;
      while done < size
        invariant done <= size && out == f[offset..offset as int + done]
      {
        var pos: u32 := offset + done;
        var chunk := NextChunk(pos, size - done);
        var piece := ReadChunk(x, pos, chunk, n);
        out := out + piece;
        done := done + chunk;
      }
    }

    /** fs_index_read: the bytes from offset on, as many as there are and fit; rc is their number as a
        32-bit int, or -1. */
    method IndexRead(idx: int, offset: u32, size: u32) returns (rc: int, out: seq<u8>)
      requires |inodes| == INODES
      ensures !Readable(idx) ==> rc == -1
      ensures Readable(idx) ==>
                var f := File(inodes[idx], disk, total);
                out == (if offset >= |f| then [] else f[offset..Min(offset as int + size, |f|)])
                && rc == Int(|out|) && (rc == |out| <==> rc >= 0)
    {
      if idx <= 0 || idx >= INODES || !inodes[idx].occupied || inodes[idx].special { return -1, []; }
      var x := inodes[idx];
      var secs := CountSectors(x);
      var cap: u32 := if secs > 0xFFFF_FFFF / 512 then 0xFFFF_FFFF else secs * 512;
      var logical: u32 := if x.size > cap then cap else x.size;
      if offset >= logical { return 0, []; }
      var n: u32 := if size > logical - offset then logical - offset else size;
      if n == 0 { return 0, []; }
      out := ReadBytes(x, offset, n, logical);
      rc := Int(n);
    }

    /** fs_persist_meta and fs_cache_sync: sectors below base change in any way, and it may fail. */
    method Persist(ghost idx: nat) returns (ok: bool)
      requires Valid() && idx < INODES
      modifies this`disk
      ensures Valid() && OnlyInode(inodes, old(disk), inodes, disk, idx)
      ensures Exts(inodes[idx], disk) == Exts(inodes[idx], old(disk))
      ensures Parts(inodes[idx], disk, total) == Parts(inodes[idx], old(disk), total)
      ensures OtherFilesSame(inodes, old(disk), inodes, disk, idx, total)
    {
      var meta: Disk := *;
      var e: Disk := (map l: nat | l in disk && l >= base :: disk[l]) + (map l: nat | l in meta && l < base :: meta[l]);
      MetadataKeeps(inodes, disk, used, base, e, total, idx);
      OtherFilesKept(inodes, disk, inodes, e, idx, used, base, total);
      disk := e;
      ok := *;
    }

    // Inode idx gets as many sectors as newSize needs.
    method Resize(idx: nat, need: u32) returns (ok: bool)
      requires Valid() && idx < INODES && inodes[idx].occupied
      modifies this
      ensures Valid() && Kept(old(inodes), old(disk), inodes, disk, idx)
      ensures var ps, qs := old(Parts(inodes[idx], disk, total)), Parts(inodes[idx], disk, total);
              ok ==> |qs| == need && (need <= |ps| ==> qs == ps[..need])
                     && (old(Anchored(Exts(inodes[idx], disk), used, total)) && |ps| <= need ==> ps <= qs)
    {
      var have := CountSectors(inodes[idx]);
      PartIsSector(inodes, disk, used, base, {}, idx, total);
      ok := true;
      if need > have {
        ok := GrowSectors(idx, need);
        PartIsSector(inodes, disk, used, base, {}, idx, total);
      } else if need < have {
        ok := ShrinkTo(idx, need);
      }
    }

    // The new size goes to the inode, and the metadata to disk.
    method SetSize(idx: nat, newSize: u32) returns (ok: bool)
      requires Valid() && idx < INODES && inodes[idx].occupied
      modifies this`inodes, this`disk
      ensures Valid() && OnlyInode(old(inodes), old(disk), inodes, disk, idx)
      ensures inodes[idx] == old(inodes)[idx].(size := newSize)
      ensures Parts(inodes[idx], disk, total) == old(Parts(inodes[idx], disk, total))
    {
      inodes := inodes[idx := inodes[idx].(size := newSize)];
      InodeKeeps(old(inodes), disk, used, base, {}, idx, inodes[idx], disk, {});
      assert Parts(inodes[idx], disk, total) == old(Parts(inodes[idx], disk, total));
      ok := Persist(idx);
      OnlyInodeTrans(old(inodes), old(disk), inodes, old(disk), inodes, disk, idx);
    }

    // fs_index_truncate of an inode in use.
    method Truncate(idx: nat, newSize: u32) returns (ok: bool)
      requires Valid() && idx < INODES && inodes[idx].occupied
      modifies this
      ensures Valid() && OnlyInode(old(inodes), old(disk), inodes, disk, idx)
      ensures Resized(old(inodes)[idx], inodes[idx])
      ensures ok ==>
                && inodes[idx].size == newSize
                && Cut(old(File(inodes[idx], disk, total)), File(inodes[idx], disk, total), newSize,
                       old(Anchored(Exts(inodes[idx], disk), used, total)))
    {
      ok := Resize(idx, Rounded(newSize));
      if !ok { return; }
      ghost var ins1, d1 := inodes, disk;
      ok := SetSize(idx, newSize);
      OnlyInodeTrans(old(inodes), old(disk), ins1, d1, inodes, disk, idx);
      TruncatedFile(old(inodes)[idx], old(disk), inodes[idx], disk, total);
    }

    /** fs_index_truncate. */
    method IndexTruncate(idx: int, newSize: u32) returns (ok: bool)
      requires Valid()
      modifies this
      ensures Valid()
      ensures !(0 < idx < INODES && old(inodes)[idx].occupied) ==> !ok && inodes == old(inodes) && disk == old(disk)
      ensures 0 < idx < INODES && old(inodes)[idx].occupied ==>
                && OnlyInode(old(inodes), old(disk), inodes, disk, idx)
                && OtherFilesSame(old(inodes), old(disk), inodes, disk, idx, total)
                && Resized(old(inodes)[idx], inodes[idx])
      ensures ok ==>
                && inodes[idx].size == newSize
                && Cut(old(File(inodes[idx], disk, total)), File(inodes[idx], disk, total), newSize,
                       old(Anchored(Exts(inodes[idx], disk), used, total)))
    {
      if idx <= 0 || idx >= INODES || !inodes[idx].occupied { return false; }
      ok := Truncate(idx, newSize);
      OtherFilesKept(old(inodes), old(disk), inodes, disk, idx, old(used), base, total);
    }

    // Bytes inside one part of file idx.
    method WriteChunk(idx: nat, pos: u32, piece: seq<u8>) returns (ok: bool)
      requires Valid() && idx < INODES && pos % 512 + |piece| <= 512 && 0 < |piece|
      requires pos as int + |piece| <= inodes[idx].size
      modifies this`disk
      ensures Valid() && OnlyInode(inodes, old(disk), inodes, disk, idx)
      ensures Exts(inodes[idx], disk) == Exts(inodes[idx], old(disk))
      ensures var f, g := old(File(inodes[idx], disk, total)), File(inodes[idx], disk, total);
              ok ==> pos as int + |piece| <= |f| && g == Splice(f, pos, piece)
    {
      ghost var ps, n := Parts(inodes[idx], disk, total), |File(inodes[idx], disk, total)|;
      var lba := MapSector(inodes[idx], pos / 512);
      if lba < 0 { return false; }
      var data := Splice(Read(disk, lba), pos % 512, piece);
      ok := PutPart(idx, pos / 512, data);
      if !ok { return; }
      assert ps[pos / 512] == Read(old(disk), lba);
      ChunkPut(ps, n, pos, piece);
    }

    /** Part way through a write to file idx: the other files are kept, and idx has the data so far. */
    ghost predicate Writing(idx: nat, d0: Disk, offset: nat, data: seq<u8>)
      requires idx < |inodes|
      reads this
    {
      && Valid() && OnlyInode(inodes, d0, inodes, disk, idx) && Exts(inodes[idx], disk) == Exts(inodes[idx], d0)
      && Written(File(inodes[idx], d0, total), File(inodes[idx], disk, total), offset, data)
    }

    // One round of the loop of fs_index_write.
    method WriteStep(idx: nat, offset: u32, data: seq<u8>, done: u32, ghost d0: Disk) returns (ok: bool, next: u32)
      requires idx < |inodes| && idx < INODES && done < |data| && offset as int + |data| <= inodes[idx].size
      requires Writing(idx, d0, offset, data[..done])
      modifies this`disk
      ensures Valid() && OnlyInode(inodes, d0, inodes, disk, idx) && Exts(inodes[idx], disk) == Exts(inodes[idx], d0)
      ensures ok ==> done < next <= |data| && Writing(idx, d0, offset, data[..next])
    {
      next := done;
      var pos: u32 := offset + done;
      var chunk := NextChunk(pos, |data| - done);
      ghost var d := disk;
      var piece := data[done..done + chunk];
      ok := WriteChunk(idx, pos, piece);
      OnlyInodeTrans(inodes, d0, inodes, d, inodes, disk, idx);
      if !ok { return; }
      next := done + chunk;
      WrittenNext(File(inodes[idx], d0, total), File(inodes[idx], d, total), offset, data, done, next,
                  File(inodes[idx], disk, total), pos, piece);
    }

    // The bytes of file idx from offset on.
    method WriteBytes(idx: nat, offset: u32, data: seq<u8>) returns (ok: bool)
      requires Valid() && idx < INODES && offset as int + |data| <= inodes[idx].size
      modifies this`disk
      ensures Valid() && OnlyInode(inodes, old(disk), inodes, disk, idx)
      ensures Exts(inodes[idx], disk) == Exts(inodes[idx], old(disk))
      ensures ok ==> Writing(idx, old(disk), offset, data)
    {
      var done: u32 := 0;
      ok := true;
      while done < |data|
        invariant done <= |data| && Writing(idx, old(disk), offset, data[..done])
      {
        ok, done := WriteStep(idx, offset, data, done, old(disk));
        if !ok { return; }
      }
      assert data[..done] == data;
    }

    // fs_index_write of an inode in use, up to the point where the data is in place.
    method WriteAt(idx: nat, offset: u32, data: seq<u8>) returns (ok: bool)
      requires Valid() && idx < INODES && inodes[idx].occupied && offset as int + |data| < 0x1_0000_0000
      modifies this
      ensures Valid() && OnlyInode(old(inodes), old(disk), inodes, disk, idx)
      ensures Resized(old(inodes)[idx], inodes[idx])
      ensures var f, g, end := old(File(inodes[idx], disk, total)), File(inodes[idx], disk, total),
                offset as int + |data|;
              ok ==> if end <= old(inodes)[idx].size then Written(f, g, offset, data) && inodes == old(inodes)
                     else && inodes[idx].size == end
                          && Grew(f, g, offset, data, old(Anchored(Exts(inodes[idx], disk), used, total)))
      ensures offset as int + |data| <= old(inodes)[idx].size ==>
                inodes == old(inodes) && |File(inodes[idx], disk, total)| == old(|File(inodes[idx], disk, total)|)
    {
      var end: u32 := offset as int + |data|;
      if end > inodes[idx].size {
        ok := Truncate(idx, end);
        if !ok { return; }
      }
      ghost var ins1, d1, f := inodes, disk, File(inodes[idx], disk, total);
      ok := WriteBytes(idx, offset, data);
      OnlyInodeTrans(old(inodes), old(disk), ins1, d1, inodes, disk, idx);
      if ok && old(inodes)[idx].size < end <= 0xFFFF_FE00 {
        WrittenLast(f, File(inodes[idx], disk, total), offset, data);
      }
    }

    /** fs_index_write: inside the file it replaces bytes, past the end the file grows to hold the data. */
    method IndexWrite(idx: int, offset: u32, data: seq<u8>) returns (rc: int)
      requires Valid() && |data| < 0x1_0000_0000
      modifies this
      ensures Valid() && (rc == -1 || rc == Int(|data|))
      ensures !old(Readable(idx)) || offset as int + |data| >= 0x1_0000_0000 ==>
                rc == -1 && inodes == old(inodes) && disk == old(disk)
      ensures old(Readable(idx)) ==>
                && OnlyInode(old(inodes), old(disk), inodes, disk, idx)
                && OtherFilesSame(old(inodes), old(disk), inodes, disk, idx, total)
                && Resized(old(inodes)[idx], inodes[idx])
      ensures old(Readable(idx)) && offset as int + |data| <= old(inodes)[idx].size ==>
                |File(inodes[idx], disk, total)| == old(|File(inodes[idx], disk, total)|)
      ensures rc != -1 ==>
                var f, g, end :=
                  old(File(inodes[idx], disk, total)), File(inodes[idx], disk, total), offset as int + |data|;
                if end <= old(inodes)[idx].size then
                  Written(f, g, offset, data) && inodes[idx].size == old(inodes)[idx].size
                else && inodes[idx].size == end
                     && Grew(f, g, offset, data, old(Anchored(Exts(inodes[idx], disk), used, total)))
    {
      if idx <= 0 || idx >= INODES || !inodes[idx].occupied || inodes[idx].special { return -1; }
      if (offset as int + |data|) % 0x1_0000_0000 < offset { return -1; }
      var ok := WriteAt(idx, offset, data);
      OtherFilesKept(old(inodes), old(disk), inodes, disk, idx, old(used), base, total);
      if !ok { return -1; }
      if |data| == 0 { return 0; }
      ghost var d1 := disk;
      ok := Persist(idx);
      OnlyInodeTrans(old(inodes), old(disk), inodes, d1, inodes, disk, idx);
      OtherFilesKept(old(inodes), old(disk), inodes, disk, idx, old(used), base, total);
      rc := if ok then Int(|data|) else -1;
    }

    /** fs_write of an existing file: the file becomes the data.  At 2^32 - 1 bytes the length cast to int is
        the -1 of a failed write, and success is an empty file. */
    method WriteFile(idx: int, data: seq<u8>) returns (ok: bool)
      requires Valid() && |data| < 0x1_0000_0000 && 0 < idx < INODES
      modifies this
      ensures Valid() && (ok ==> !old(inodes)[idx].dir)
      ensures ok ==> File(inodes[idx], disk, total) == if |data| < 0xFFFF_FFFF then data else []
      ensures OtherFilesSame(old(inodes), old(disk), inodes, disk, idx, total)
      ensures Resized(old(inodes)[idx], inodes[idx])
      ensures old(inodes)[idx].dir ==> inodes == old(inodes) && disk == old(disk)
    {
      if inodes[idx].dir { return false; }
      ok := IndexTruncate(idx, |data|);
      if !ok || |data| == 0 { return; }
      ghost var f := File(inodes[idx], disk, total);
      var rc := IndexWrite(idx, 0, data);
      ok := rc == Int(|data|);
      if ok { WholeWrite(f, File(inodes[idx], disk, total), data, rc); }
    }

    // ----- inodes -----

    // New link count and parent directory.
    method SetLinks(idx: nat, nlink: u16, parent: u32)
      requires Valid() && idx < INODES
      modifies this`inodes
      ensures Valid() && inodes == old(inodes)[idx := old(inodes)[idx].(nlink := nlink, parent := parent)]
    {
      inodes := inodes[idx := inodes[idx].(nlink := nlink, parent := parent)];
      InodeKeeps(old(inodes), disk, used, base, {}, idx, inodes[idx], disk, {});
    }

    // An inode that owns nothing is free again.
    method Drop(idx: nat)
      requires Valid() && idx < INODES && OwnsNothing(inodes[idx])
      modifies this`inodes
      ensures Valid() && inodes == old(inodes)[idx := old(inodes)[idx].(occupied := false)]
    {
      FreshKeeps(inodes, disk, used, base, idx, inodes[idx].(occupied := false));
      inodes := inodes[idx := inodes[idx].(occupied := false)];
    }

    method FreeXattr(idx: nat)
      requires Valid() && idx < INODES && inodes[idx].occupied
      modifies this`bitmap, this`used, this`inodes
      ensures Valid() && inodes == old(inodes)[idx := old(inodes)[idx].(xattr := 0)]
    {
      var w := inodes[idx].xattr;
      if w != 0 {
        XattrKeeps(inodes, disk, used, base, {}, idx, w, true);
        inodes := inodes[idx := inodes[idx].(xattr := 0)];
        assert {} + {w as nat} == Range(w, 1) && Range(w, 1) - Range(w, 1) == {};
        FreeBlocks(w, 1, Range(w, 1));
      }
    }

    /** The end of fs_delete for the last link: all sectors of the inode become free. */
    method Release(idx: nat)
      requires Valid() && idx < INODES && inodes[idx].occupied
      modifies this`bitmap, this`used, this`inodes
      ensures Valid() && inodes == old(inodes)[idx := BLANK]
    {
      ClearExtents(idx, {});
      FreeXattr(idx);
      FreshKeeps(inodes, disk, used, base, idx, BLANK);
      inodes := inodes[idx := BLANK];
    }

    method TakeXattr(idx: nat) returns (ok: bool)
      requires Valid() && idx < INODES && inodes[idx].occupied && inodes[idx].xattr == 0
      modifies this`bitmap, this`used, this`inodes
      ensures Valid() && inodes == old(inodes)[idx := old(inodes)[idx].(xattr := inodes[idx].xattr)]
      ensures if ok then inodes[idx].xattr != 0 else inodes == old(inodes)
    {
      var s;
      ok, s := AllocBlocks(1, {});
      if !ok { return; }
      assert {} + Range(s, 1) == {s as nat} && {s as nat} - {s as nat} == {};
      XattrKeeps(inodes, disk, used, base, {s as nat}, idx, s, false);
      inodes := inodes[idx := inodes[idx].(xattr := s)];
    }

    /** The allocation in fs_setxattr, and the write of the attribute; no file changes. */
    method SetXattr(idx: nat, record: Sector) returns (ok: bool)
      requires Valid() && idx < INODES && inodes[idx].occupied
      modifies this
      ensures Valid() && (!ok ==> inodes == old(inodes) && disk == old(disk))
      ensures inodes == old(inodes)[idx := old(inodes)[idx].(xattr := inodes[idx].xattr)]
      ensures OtherFilesSame(old(inodes), old(disk), inodes, disk, idx, total)
      ensures File(inodes[idx], disk, total) == old(File(inodes[idx], disk, total))
      ensures ok ==> inodes[idx].xattr != 0 && Read(disk, inodes[idx].xattr) == record
    {
      ok := true;
      if inodes[idx].xattr == 0 {
        ok := TakeXattr(idx);
        if !ok { return; }
      }
      WriteXattr(idx, record);
    }

    // The attribute block takes a new record.
    method WriteXattr(idx: nat, record: Sector)
      requires Valid() && idx < INODES && inodes[idx].xattr != 0
      modifies this`disk
      ensures Valid() && OtherFilesSame(inodes, old(disk), inodes, disk, idx, total)
      ensures File(inodes[idx], disk, total) == old(File(inodes[idx], disk, total))
      ensures Read(disk, inodes[idx].xattr) == record
    {
      XattrWrite(inodes, disk, used, base, idx, total, record);
      disk := disk[inodes[idx].xattr as nat := record];
      OtherFilesKept(inodes, old(disk), inodes, disk, idx, used, base, total);
    }

    /** fs_alloc_inode, and the new inode: the first one that is free. */
    method NewInode(dir: bool, parent: u32) returns (idx: int)
      requires Valid()
      modifies this`inodes
      ensures Valid() && (idx == -1 || 0 < idx < INODES)
      ensures idx == -1 ==> inodes == old(inodes) && forall i :: 0 < i < INODES ==> inodes[i].occupied
      ensures idx > 0 ==> !old(inodes)[idx].occupied && (forall i :: 0 < i < idx ==> old(inodes)[i].occupied)
      ensures idx > 0 ==>
                inodes == old(inodes)[idx := BLANK.(occupied := true, dir := dir, nlink := 1, parent := parent)]
      ensures idx > 0 ==> File(inodes[idx], disk, total) == []
    {
      for i := 1 to INODES
        invariant forall k :: 0 < k < i ==> inodes[k].occupied
      {
        if !inodes[i].occupied {
          var y := Inode(true, dir, false, 1, 0, parent, [NONE, NONE, NONE, NONE], 0, 0);
          FreshKeeps(inodes, disk, used, base, i, y);
          inodes := inodes[i := y];
          return i;
        }
      }
      return -1;
    }
  }

  lemma FreshKeeps(ins: seq<Inode>, d: Disk, used: set<nat>, base: nat, i: nat, y: Inode)
    requires Balanced(ins, d, used, base, {}) && i < |ins| && OwnsNothing(ins[i]) && OwnsNothing(y)
    ensures Balanced(ins[i := y], d, used, base, {})
  {
    forall s: nat
      ensures Own(ins[i], d, s) == 0 == Own(y, d, s)
    {
      EmptyExtents(ins[i].direct, s);
      EmptyExtents(y.direct, s);
      assert Exts(ins[i], d) == ins[i].direct && Exts(y, d) == y.direct;
    }
    InodeKeeps(ins, d, used, base, {}, i, y, d, {});
  }

  /** A new volume, and its root truncated to 0xFFFF_FE01 bytes: the size is that, and there is no byte. */
  method TruncateWraps(total: u32, base: u32, d: Disk) returns (fs: Fs, ok: bool)
    requires 0 < base <= total
    ensures fs.Valid() && fs.total == total
    ensures ok ==> fs.inodes[1].size == 0xFFFF_FE01 && File(fs.inodes[1], fs.disk, fs.total) == []
  {
    fs := new Fs(total, base, d);
    ok := fs.IndexTruncate(1, 0xFFFF_FE01);
  }

  /** fs_write, then fs_read of everything: the data comes back. */
  method WriteThenRead(fs: Fs, idx: int, data: seq<u8>, size: u32) returns (ok: bool, back: seq<u8>)
    requires fs.Valid() && |data| < 0x1_0000_0000 && 0 < idx < INODES && |data| <= size
    modifies fs
    ensures fs.Valid() && (ok ==> back == if |data| < 0xFFFF_FFFF then data else [])
  {
    ok := fs.WriteFile(idx, data);
    back := [];
    if ok {
      var rc;
      rc, back := fs.IndexRead(idx, 0, size);
      ok := rc >= 0;
    }
  }

  // Inode y has the sectors its size needs; they begin as those of x.
  lemma TruncatedFile(x: Inode, d: Disk, y: Inode, e: Disk, total: u32)
    requires |Parts(y, e, total)| == Rounded(y.size)
    requires |Parts(y, e, total)| <= |Parts(x, d, total)| ==>
              Parts(y, e, total) == Parts(x, d, total)[..|Parts(y, e, total)|]
    ensures var ps, qs := Parts(x, d, total), Parts(y, e, total);
            Cut(File(x, d, total), File(y, e, total), y.size, |ps| <= |qs| ==> ps <= qs)
  {
    var ps, qs, n := Parts(x, d, total), Parts(y, e, total), |File(x, d, total)|;
    if y.size > 0xFFFF_FE00 { return; }
    if y.size <= n { SamePrefix(qs, y.size, ps, n, y.size); }
    if n <= y.size && (|ps| <= |qs| ==> ps <= qs) { SamePrefix(qs, y.size, ps, n, n); }
  }

  // The run that ends at sector i is shorter than count.
  lemma NoRunNext(used: set<nat>, base: nat, i: nat, count: nat, run: nat)
    requires NoRun(used, base, i, count) && run < count && base <= i && run <= i + 1 - base
    requires i + 1 - run == base || i - run in used
    ensures NoRun(used, base, i + 1, count)
  {
    forall s: nat | base <= s && s + count <= i + 1
      ensures Range(s, count) * used != {}
    {
      if s + count == i + 1 { assert i - run in Range(s, count) * used; }
    }
  }
}
