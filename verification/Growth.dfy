/** What a growing file keeps: the slot that takes new sectors, and where the old parts are then. */
module Growth {
  import opened Words
  import opened Disks
  import opened Extents
  import opened Ownership

  /** The extent is empty or ends where sector lba begins. */
  predicate Fits(e: Extent, lba: u32)
  {
    e.count == 0 || (e.lba as int + e.count) % 0x1_0000_0000 == lba
  }

  function Attach(e: Extent, lba: u32, count: u32): Extent
    requires e.count as int + count < 0x1_0000_0000
  {
    if e.count == 0 then Extent(lba, count) else Extent(e.lba, e.count + count)
  }

  function Empties(n: nat): (es: seq<Extent>)
    ensures |es| == n && forall i :: 0 <= i < n ==> es[i] == NONE
  {
    if n == 0 then [] else Empties(n - 1) + [NONE]
  }

  /** Slot i of the list, which a new indirect block may have made longer, took the sectors. */
  ghost predicate Joined(es: seq<Extent>, fs: seq<Extent>, lba: u32, count: u32, i: nat)
  {
    && i < |fs| && |es| <= |fs|
    && var ps := es + Empties(|fs| - |es|);
       && Fits(ps[i], lba) && ps[i].count as int + count < 0x1_0000_0000
       && fs == ps[i := Attach(ps[i], lba, count)]
  }

  /** Every part of the file is still in its sector. */
  ghost predicate SameMap(es: seq<Extent>, fs: seq<Extent>)
  {
    Total(es) <= Total(fs) && forall k: nat :: k < Total(es) ==> Map(fs, k) == Map(es, k)
  }

  predicate NothingAfter(es: seq<Extent>, i: nat)
  {
    forall j :: i < j < |es| ==> es[j].count == 0
  }

  // ----- one step -----

  predicate Begins(e: Extent, f: Extent)
  {
    e.count == 0 || (e.lba == f.lba && e.count <= f.count)
  }

  /** The lists agree up to slot m, which may have grown and is the last that es uses. */
  ghost predicate Longer(es: seq<Extent>, fs: seq<Extent>, m: nat)
  {
    m < |es| <= |fs| && es[..m] == fs[..m] && Begins(es[m], fs[m]) && NothingAfter(es, m)
  }

  lemma {:induction false} LongerAt(es: seq<Extent>, fs: seq<Extent>, m: nat, k: nat)
    requires Longer(es, fs, m) && k < Total(es)
    ensures k < Total(fs) && Map(fs, k) == Map(es, k)
  {
    if m == 0 {
      EmptyExtents(es[1..], 0);
    } else {
      assert es[0] == es[..m][0] == fs[..m][0] == fs[0];
      if k >= es[0].count {
        assert es[1..][..m - 1] == es[..m][1..] == fs[..m][1..] == fs[1..][..m - 1];
        LongerAt(es[1..], fs[1..], m - 1, k - es[0].count);
      }
    }
  }

  lemma LongerMap(es: seq<Extent>, fs: seq<Extent>, m: nat)
    requires Longer(es, fs, m)
    ensures SameMap(es, fs) && forall s: nat :: Cover(es, s) >= 1 ==> Cover(fs, s) >= 1
  {
    forall k: nat | k < Total(es)
      ensures k < Total(fs) && Map(fs, k) == Map(es, k)
    {
      LongerAt(es, fs, m, k);
    }
    if Total(es) > 0 { LongerAt(es, fs, m, Total(es) - 1); }
    forall s: nat | Cover(es, s) >= 1
      ensures Cover(fs, s) >= 1
    {
      var k := CoveredIsMapped(es, s);
      MapCovered(fs, k);
    }
  }

  lemma {:induction false} MapSkip(es: seq<Extent>, n: nat, k: nat)
    requires n <= |es| && k < Total(es[n..])
    ensures Total(es[..n]) + k < Total(es) && Map(es, Total(es[..n]) + k) == Map(es[n..], k)
  {
    if n == 0 {
      assert es[0..] == es;
    } else {
      assert es[..n][1..] == es[1..][..n - 1] && es[n..] == es[1..][n - 1..];
      MapSkip(es[1..], n - 1, k);
    }
  }

  lemma {:induction false} SomeAfter(es: seq<Extent>, j: nat)
    requires j < |es| && es[j].count > 0
    ensures Total(es) > 0
  {
    if j > 0 { SomeAfter(es[1..], j - 1); }
  }

  // The part after slot i is then in the first of the new sectors.
  lemma Moved(es: seq<Extent>, fs: seq<Extent>, lba: u32, count: u32, i: nat, j: nat, total: u32)
    requires Joined(es, fs, lba, count, i) && count > 0 && lba as int + count <= total
    requires forall s: nat :: Cover(es, s) <= Bit(s < total)
    requires i < j < |es| && es[j].count > 0
    ensures var k := Total(es[..i + 1]); k < Total(es) && k < Total(fs) && Map(fs, k) == lba
  {
    SomeAfter(es[i + 1..], j - i - 1);
    MapSkip(es, i + 1, 0);
    if es[i].count > 0 { ExtentInside(es, i, total); }
    assert (es + Empties(|fs| - |es|))[i] == es[i];
    assert fs[..i] == es[..i] && fs[i] == Attach(es[i], lba, count);
    JoinedAt(fs, i, es[i].count, lba);
    assert es[..i + 1] == es[..i] + [es[i]];
    TotalAppend(es[..i], [es[i]]);
  }

  lemma JoinedAt(fs: seq<Extent>, i: nat, n: u32, lba: u32)
    requires i < |fs| && n < fs[i].count && fs[i].lba as int + n == lba
    ensures var k := Total(fs[..i]) + n; k < Total(fs) && Map(fs, k) == lba
  {
    assert fs[i..][0] == fs[i];
    MapSkip(fs, i, n);
  }

  /** One run of new sectors leaves every part of the file where it was exactly if the slot that
      takes it is the last in use. */
  lemma JoinKeepsMap(es: seq<Extent>, fs: seq<Extent>, lba: u32, count: u32, i: nat, total: u32)
    requires Joined(es, fs, lba, count, i) && count > 0 && lba as int + count <= total && |es| > 0
    requires forall s: nat :: Cover(es, s) <= Bit(s < total)
    requires Cover(es, lba) == 0
    ensures SameMap(es, fs) <==> NothingAfter(es, i)
  {
    if NothingAfter(es, i) {
      var m := if i < |es| then i else |es| - 1;
      assert es[..m] == fs[..m];
      LongerMap(es, fs, m);
    } else {
      var j :| i < j < |es| && es[j].count > 0;
      Moved(es, fs, lba, count, i, j, total);
      MapCovered(es, Total(es[..i + 1]));
    }
  }

  /** The slot that took the sectors, and what that means for the parts of the file. */
  ghost predicate StepKeeps(es: seq<Extent>, fs: seq<Extent>, lba: u32, count: u32)
  {
    exists i: nat :: Joined(es, fs, lba, count, i) && (SameMap(es, fs) <==> NothingAfter(es, i))
  }

  lemma StepIff(ins: seq<Inode>, d: Disk, used: set<nat>, base: nat, idx: nat, fs: seq<Extent>, e: Disk, lba: u32,
      count: u32, total: u32)
    requires Balanced(ins, d, used, base, {}) && idx < |ins| && used <= Range(0, total) && |ins[idx].direct| > 0
    requires Extended(Exts(ins[idx], d), d, fs, e, lba, count) && count > 0 && lba as int + count <= total
    requires lba as nat !in used
    ensures StepKeeps(Exts(ins[idx], d), fs, lba, count)
  {
    var es := Exts(ins[idx], d);
    var i: nat :| Joined(es, fs, lba, count, i);
    ExtsSound(ins, d, used, base, {}, idx, total);
    OwnAllUpdate(ins, idx, ins[idx], d, lba);
    assert OwnAll(ins, d, lba) + Bit(lba as nat in {}) == Bit(lba as nat in used && lba >= base);
    JoinKeepsMap(es, fs, lba, count, i, total);
  }

  /** An extent (10, 1), an extent (12, 1), and sector 11 is free: part 1 of the file was in
      sector 12 and is then in sector 11. */
  lemma GrowthMoves()
    ensures var es, fs := [Extent(10, 1), Extent(12, 1), NONE, NONE], [Extent(10, 2), Extent(12, 1), NONE, NONE];
            Joined(es, fs, 11, 1, 0) && Total(es) == 2 && Total(fs) == 3 && Map(es, 1) == 12 && Map(fs, 1) == 11
  {
    var es, fs := [Extent(10, 1), Extent(12, 1), NONE, NONE], [Extent(10, 2), Extent(12, 1), NONE, NONE];
    assert es[1..] == [Extent(12, 1), NONE, NONE] && es[2..] == [NONE, NONE] == es[1..][1..];
    assert fs[1..] == es[1..] && es + Empties(0) == es;
    EmptyExtents(es[2..], 0);
    assert Total(es[1..]) == 1 && Total(fs) == 2 + Total(fs[1..]);
    assert Map(es, 1) == Map(es[1..], 0) == 12;
  }

  // ----- many steps -----

  /** No free sector follows an extent that has a later one, and the extents in use come first. */
  ghost predicate Anchored(es: seq<Extent>, used: set<nat>, total: nat)
  {
    forall j, k :: 0 <= j < k < |es| && es[k].count > 0 ==>
      es[j].count > 0 && (es[j].lba as int + es[j].count >= total || es[j].lba as nat + es[j].count in used)
  }

  lemma {:induction false} LastInUse(es: seq<Extent>) returns (m: nat)
    requires |es| > 0
    ensures m < |es| && (m > 0 ==> es[m].count > 0) && NothingAfter(es, m)
  {
    m := |es| - 1;
    while m > 0 && es[m].count == 0
      invariant m < |es| && NothingAfter(es, m)
    {
      m := m - 1;
    }
  }

  lemma JoinedLonger(es0: seq<Extent>, es: seq<Extent>, fs: seq<Extent>, m: nat, lba: u32, count: u32, i: nat,
      used: set<nat>, total: u32)
    requires Anchored(es0, used, total) && Longer(es0, es, m) && (m > 0 ==> es0[m].count > 0)
    requires Joined(es, fs, lba, count, i) && lba < total && lba as nat !in used
    requires forall s: nat :: Cover(es0, s) <= Bit(s < total)
    ensures Longer(es0, fs, m)
  {
    if i < m {
      assert es0[i] == es0[..m][i] == es[..m][i] == es[i];
      ExtentInside(es0, i, total);
      assert false;
    }
    assert fs[..m] == es[..m];
  }

  /** The sectors of the list have their contents. */
  ghost predicate SameData(es: seq<Extent>, d: Disk, e: Disk)
  {
    forall s: nat :: Cover(es, s) >= 1 ==> Read(e, s) == Read(d, s)
  }

  /** What adding a run does to an inode's own file. */
  ghost predicate Extended(es: seq<Extent>, d: Disk, fs: seq<Extent>, e: Disk, lba: u32, count: u32)
  {
    SameData(es, d, e) && exists i: nat :: Joined(es, fs, lba, count, i)
  }

  /** All parts are still there, and slot m is still the last that held any of them. */
  ghost predicate StillThere(es: seq<Extent>, d: Disk, fs: seq<Extent>, e: Disk, m: nat)
  {
    Longer(es, fs, m) && (m > 0 ==> es[m].count > 0) && SameData(es, d, e)
  }

  lemma ExtendedStays(es0: seq<Extent>, d0: Disk, es: seq<Extent>, d: Disk, fs: seq<Extent>, e: Disk, m: nat, lba: u32,
      count: u32, used: set<nat>, total: u32)
    requires Anchored(es0, used, total) && StillThere(es0, d0, es, d, m) && Extended(es, d, fs, e, lba, count)
    requires lba < total && lba as nat !in used
    requires forall s: nat :: Cover(es0, s) <= Bit(s < total)
    ensures StillThere(es0, d0, fs, e, m)
  {
    var i: nat :| Joined(es, fs, lba, count, i);
    JoinedLonger(es0, es, fs, m, lba, count, i, used, total);
    LongerMap(es0, es, m);
  }

  lemma PartsStay(x: Inode, d: Disk, y: Inode, e: Disk, total: u32, m: nat)
    requires StillThere(Exts(x, d), d, Exts(y, e), e, m)
    requires MapsParts(x, d, total) && MapsParts(y, e, total)
    ensures Parts(x, d, total) <= Parts(y, e, total)
  {
    var es, fs := Exts(x, d), Exts(y, e);
    LongerMap(es, fs, m);
    forall k: nat | k < Total(es)
      ensures Part(y, e, total, k) == Part(x, d, total, k)
    {
      MapCovered(es, k);
      assert MapFrom(fs, total, k) == Map(fs, k) == Map(es, k) == MapFrom(es, total, k);
    }
  }

  /** The walks of the code find the sectors of the file. */
  ghost predicate MapsParts(x: Inode, d: Disk, total: u32)
  {
    var es := Exts(x, d);
    && SectorCount(x, d, total) == Total(es)
    && forall k: nat :: MapFrom(es, total, k) == if k < Total(es) then Map(es, k) else -1
  }

  // A write to the indirect block of inode idx, which may be new, leaves its data alone.
  lemma OwnDataSame(ins: seq<Inode>, d: Disk, used: set<nat>, base: nat, pend: set<nat>, idx: nat, w: nat, data: Sector)
    requires Balanced(ins, d, used, base, pend) && idx < |ins| && w != 0
    requires if ins[idx].indirect == 0 then w in pend else w == ins[idx].indirect
    ensures SameData(Exts(ins[idx], d), d, d[w := data])
  {
    OwnAllUpdate(ins, idx, ins[idx], d, w);
    assert OwnAll(ins, d, w) + Bit(w in pend) == Bit(w in used && w >= base);
    assert Cover(Exts(ins[idx], d), w) == 0;
  }
}
