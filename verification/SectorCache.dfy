/** The write-back sector cache: it behaves as the plain disk it stands for, and it evicts
    the least recently used sector. */
module SectorCache {
  import opened Words
  import opened Disks

  const SLOTS: nat := 256   // FS_CACHE_SLOTS

  datatype Slot = Slot(used: bool, dirty: bool, lba: nat, stamp: u32, data: Sector)

  ghost function Elems(s: seq<nat>): set<nat>
  {
    set x | x in s
  }

  ghost predicate DistinctLbas(s: seq<Slot>)
  {
    forall i, j :: 0 <= i < j < |s| && s[i].used && s[j].used ==> s[i].lba != s[j].lba
  }

  ghost predicate Cached(s: seq<Slot>, l: nat)
  {
    exists i :: 0 <= i < |s| && s[i].used && s[i].lba == l
  }

  /** The slots and the disk together hold the contents `view`. */
  ghost predicate Represents(s: seq<Slot>, disk: Disk, view: Disk)
  {
    && (forall i :: 0 <= i < |s| && s[i].used ==> Read(view, s[i].lba) == s[i].data)
    && (forall i :: 0 <= i < |s| && s[i].used && !s[i].dirty ==> Read(disk, s[i].lba) == s[i].data)
    && (forall l: nat :: !Cached(s, l) ==> Read(disk, l) == Read(view, l))
  }

  /** Stamps are access times: access t since the cache was last emptied got stamp base + t + 1. */
  ghost predicate Stamped(s: seq<Slot>, hist: seq<nat>, base: nat)
  {
    forall i :: 0 <= i < |s| && s[i].used ==>
      base < s[i].stamp <= base + |hist| && hist[s[i].stamp - base - 1] == s[i].lba &&
        s[i].lba !in hist[s[i].stamp - base..]
  }

  /** A sector stays cached until at least 256 other sectors have been accessed after it. */
  ghost predicate Recent(s: seq<Slot>, hist: seq<nat>)
  {
    forall t :: 0 <= t < |hist| && hist[t] !in hist[t + 1..] ==> Cached(s, hist[t]) || |Elems(hist[t + 1..])| >= SLOTS
  }

  // ----- what each change of a slot keeps -----

  // Neither a slot's stamp nor its dirty flag says which sectors are cached.
  lemma SameCached(s: seq<Slot>, i: nat, n: Slot)
    requires i < |s| && n.used == s[i].used && n.lba == s[i].lba
    ensures forall l: nat :: Cached(s[i := n], l) <==> Cached(s, l)
  {
    var t := s[i := n];
    assert forall k :: 0 <= k < |s| ==> t[k].used == s[k].used && t[k].lba == s[k].lba;
    forall l: nat
      ensures Cached(s, l) <==> Cached(t, l)
    {
      if Cached(s, l) { var k :| 0 <= k < |s| && s[k].used && s[k].lba == l; assert t[k].lba == l; }
    }
  }

  // Writing a dirty slot back.
  lemma WriteBackKeeps(s: seq<Slot>, disk: Disk, view: Disk, i: nat)
    requires i < |s| && s[i].used && DistinctLbas(s) && Represents(s, disk, view)
    ensures var t := s[i := s[i].(dirty := false)];
            && DistinctLbas(t) && Represents(t, disk[s[i].lba := s[i].data], view)
            && forall l: nat :: Cached(t, l) <==> Cached(s, l)
  {
    SameCached(s, i, s[i].(dirty := false));
  }

  lemma WriteBackStamped(s: seq<Slot>, i: nat, hist: seq<nat>, base: nat)
    requires i < |s| && Stamped(s, hist, base)
    ensures Stamped(s[i := s[i].(dirty := false)], hist, base)
  {
  }

  lemma WriteBackHistory(s: seq<Slot>, i: nat, hist: seq<nat>, base: nat)
    requires i < |s| && (forall l: nat :: Cached(s[i := s[i].(dirty := false)], l) <==> Cached(s, l))
    requires Stamped(s, hist, base) && Recent(s, hist)
    ensures var t := s[i := s[i].(dirty := false)]; Stamped(t, hist, base) && Recent(t, hist)
  {
    WriteBackStamped(s, i, hist, base);
    var t := s[i := s[i].(dirty := false)];
    forall j | 0 <= j < |hist| && hist[j] !in hist[j + 1..]
      ensures Cached(t, hist[j]) || |Elems(hist[j + 1..])| >= SLOTS
    {
      assert Cached(t, hist[j]) <==> Cached(s, hist[j]);
    }
  }

  /** Slot i may take sector lba: it holds it already, or lba is not cached and the slot is free or clean. */
  ghost predicate CanTake(s: seq<Slot>, i: nat, lba: nat)
    requires i < |s|
  {
    (s[i].used && s[i].lba == lba) || (!Cached(s, lba) && (s[i].used ==> !s[i].dirty))
  }

  lemma CachedAfter(s: seq<Slot>, i: nat, n: Slot, l: nat)
    requires i < |s| && n.used
    ensures Cached(s[i := n], l) ==> l == n.lba || Cached(s, l)
    ensures Cached(s, l) && !(s[i].used && s[i].lba == l) ==> Cached(s[i := n], l)
    ensures Cached(s[i := n], n.lba)
  {
    var t := s[i := n];
    assert t[i].used;
    if Cached(t, l) {
      var k :| 0 <= k < |t| && t[k].used && t[k].lba == l;
      if k != i { assert s[k].used && s[k].lba == l; }
    }
    if Cached(s, l) {
      var k :| 0 <= k < |s| && s[k].used && s[k].lba == l;
      if k != i { assert t[k].used && t[k].lba == l; }
    }
  }

  // A slot takes sector n.lba with contents n.data; the view changes there only if the slot is dirty.
  lemma TakeKeeps(s: seq<Slot>, disk: Disk, view: Disk, i: nat, n: Slot)
    requires i < |s| && DistinctLbas(s) && Represents(s, disk, view) && n.used && CanTake(s, i, n.lba)
    requires !n.dirty ==> n.data == Read(disk, n.lba) == Read(view, n.lba)
    ensures DistinctLbas(s[i := n]) && Represents(s[i := n], disk, if n.dirty then view[n.lba := n.data] else view)
  {
    var t := s[i := n];
    forall l: nat
      ensures Cached(t, l) ==> l == n.lba || Cached(s, l)
      ensures Cached(s, l) && !(s[i].used && s[i].lba == l) ==> Cached(t, l)
      ensures Cached(t, n.lba)
    {
      CachedAfter(s, i, n, l);
    }
    forall k | 0 <= k < |s| && k != i && s[k].used
      ensures s[k].lba != n.lba
    {
      assert Cached(s, s[k].lba);
    }
  }

  lemma TouchKeeps(s: seq<Slot>, disk: Disk, view: Disk, i: nat, n: Slot)
    requires i < |s| && s[i].used && DistinctLbas(s) && Represents(s, disk, view)
    requires n == s[i].(stamp := n.stamp)
    ensures DistinctLbas(s[i := n]) && Represents(s[i := n], disk, view)
  {
    SameCached(s, i, n);
  }

  lemma AllClean(s: seq<Slot>, disk: Disk, view: Disk)
    requires Represents(s, disk, view) && forall k :: 0 <= k < |s| ==> !(s[k].used && s[k].dirty)
    ensures forall l: nat :: Read(disk, l) == Read(view, l)
  {
    forall l: nat
      ensures Read(disk, l) == Read(view, l)
    {
      if Cached(s, l) { var k :| 0 <= k < |s| && s[k].used && s[k].lba == l; }
    }
  }

  // ----- least recently used -----

  ghost function LbaSet(s: seq<Slot>): set<nat>
  {
    set k | 0 <= k < |s| :: s[k].lba
  }

  lemma {:induction false} LbaSetSize(s: seq<Slot>)
    requires DistinctLbas(s) && forall k :: 0 <= k < |s| ==> s[k].used
    ensures |LbaSet(s)| == |s|
  {
    if |s| != 0 {
      var n := |s| - 1;
      var p := s[..n];
      LbaSetSize(p);
      assert LbaSet(s) == LbaSet(p) + {s[n].lba};
      assert s[n].lba !in LbaSet(p);
    }
  }

  lemma {:induction false} SubsetSize(a: set<nat>, b: set<nat>)
    requires a <= b
    ensures |a| <= |b|
  {
    if a != {} {
      var x :| x in a;
      SubsetSize(a - {x}, b - {x});
    }
  }

  lemma IsLater(hist: seq<nat>, a: nat, b: nat)
    requires a < |hist| && b < |hist|
    ensures a < b ==> hist[b] in hist[a + 1..]
  {
    if a < b { assert hist[a + 1..][b - a - 1] == hist[b]; }
  }

  // A sector has one last access.
  lemma LastAccess(hist: seq<nat>, i: nat, t: nat)
    requires i < |hist| && t < |hist| && hist[i] == hist[t] && hist[i] !in hist[i + 1..] && hist[t] !in hist[t + 1..]
    ensures i == t
  {
    IsLater(hist, i, t);
    IsLater(hist, t, i);
  }

  // The sector pushed out of a full cache has seen 256 others since its last access.
  lemma PushedOut(s: seq<Slot>, i: nat, lba: nat, hist: seq<nat>, base: nat, t: nat)
    requires |s| == SLOTS && i < SLOTS && t < |hist| && DistinctLbas(s) && Stamped(s, hist, base) && !Cached(s, lba)
    requires forall k :: 0 <= k < SLOTS ==> s[k].used && s[i].stamp <= s[k].stamp
    requires hist[t] == s[i].lba && hist[t] !in hist[t + 1..]
    ensures |Elems(hist[t + 1..] + [lba])| >= SLOTS
  {
    LastAccess(hist, s[i].stamp - base - 1, t);
    var others := LbaSet(s) - {s[i].lba};
    var rest := hist[t + 1..] + [lba];
    forall x | x in others
      ensures x in rest && x != lba
    {
      var k :| 0 <= k < SLOTS && s[k].lba == x;
      var m := s[k].stamp - base - 1;
      assert hist[m] == x && m > t;
      assert rest[m - t - 1] == x;
      assert Cached(s, x);
    }
    LbaSetSize(s);
    assert s[i].lba in LbaSet(s);
    assert rest[|rest| - 1] == lba;
    SubsetSize(others + {lba}, Elems(rest));
  }

  /** An access by slot i is one the cache makes: the slot holds the sector, is unused, or is
      the oldest of a full cache. */
  ghost predicate Accesses(s: seq<Slot>, i: nat, lba: nat)
    requires i < |s|
  {
    || (s[i].used && s[i].lba == lba)
    || (!Cached(s, lba) && (s[i].used ==> forall k :: 0 <= k < |s| ==> s[k].used && s[i].stamp <= s[k].stamp))
  }

  lemma TakeStamped(s: seq<Slot>, i: nat, n: Slot, hist: seq<nat>, base: nat)
    requires i < |s| && DistinctLbas(s) && Stamped(s, hist, base) && Accesses(s, i, n.lba)
    requires n.used && n.stamp == base + |hist| + 1
    ensures Stamped(s[i := n], hist + [n.lba], base)
  {
    forall k | 0 <= k < |s| && s[k].used && k != i
      ensures s[k].lba != n.lba && (hist + [n.lba])[s[k].stamp - base..] == hist[s[k].stamp - base..] + [n.lba]
    {
      assert Cached(s, s[k].lba);
    }
  }

  lemma TakeRecent(s: seq<Slot>, i: nat, n: Slot, hist: seq<nat>, base: nat, j: nat)
    requires |s| == SLOTS && i < SLOTS && DistinctLbas(s) && Stamped(s, hist, base) && Recent(s, hist)
    requires n.used && Accesses(s, i, n.lba)
    requires j < |hist| && hist[j] != n.lba && hist[j] !in hist[j + 1..]
    ensures Cached(s[i := n], hist[j]) || |Elems(hist[j + 1..] + [n.lba])| >= SLOTS
  {
    CachedAfter(s, i, n, hist[j]);
    SubsetSize(Elems(hist[j + 1..]), Elems(hist[j + 1..] + [n.lba]));
    if s[i].used && s[i].lba == hist[j] {
      PushedOut(s, i, n.lba, hist, base, j);
    }
  }

  /** Every access keeps the stamps and the recency guarantee. */
  lemma TakeHistory(s: seq<Slot>, i: nat, n: Slot, hist: seq<nat>, base: nat)
    requires |s| == SLOTS && i < SLOTS && DistinctLbas(s) && Stamped(s, hist, base) && Recent(s, hist)
    requires n.used && n.stamp == base + |hist| + 1 && Accesses(s, i, n.lba)
    ensures Stamped(s[i := n], hist + [n.lba], base) && Recent(s[i := n], hist + [n.lba])
  {
    TakeStamped(s, i, n, hist, base);
    var t, h := s[i := n], hist + [n.lba];
    CachedAfter(s, i, n, n.lba);
    forall j | 0 <= j < |h| && h[j] !in h[j + 1..]
      ensures Cached(t, h[j]) || |Elems(h[j + 1..])| >= SLOTS
    {
      if j < |hist| {
        assert h[j + 1..] == hist[j + 1..] + [n.lba];
        assert h[j + 1..][|hist| - j - 1] == n.lba;
        TakeRecent(s, i, n, hist, base, j);
      }
    }
  }

  lemma {:induction false} LastOf(hist: seq<nat>, t: nat) returns (u: nat)
    requires t < |hist|
    ensures t <= u < |hist| && hist[u] == hist[t] && hist[u] !in hist[u + 1..]
    decreases |hist| - t
  {
    u := t;
    if hist[t] in hist[t + 1..] {
      var k :| 0 <= k < |hist| - t - 1 && hist[t + 1..][k] == hist[t];
      u := LastOf(hist, t + 1 + k);
    }
  }

  /** A sector is still cached if fewer than 256 others were accessed since any access to it. */
  lemma StaysResident(s: seq<Slot>, hist: seq<nat>, t: nat)
    requires Recent(s, hist) && t < |hist| && |Elems(hist[t..]) - {hist[t]}| < SLOTS
    ensures Cached(s, hist[t])
  {
    var u := LastOf(hist, t);
    assert hist[u + 1..] == hist[t..][u + 1 - t..];
    SubsetSize(Elems(hist[u + 1..]), Elems(hist[t..]) - {hist[t]});
  }

  class Cache {
    const slots: array<Slot>
    var clock: u32
    var disk: Disk
    ghost var view: Disk        // the contents a plain disk would have
    ghost var hist: seq<nat>    // sectors accessed since the cache was last emptied
    ghost var base: nat         // the clock at that time

    ghost predicate Valid()
      reads this, slots
    {
      && slots.Length == SLOTS && DistinctLbas(slots[..]) && Represents(slots[..], disk, view)
      && (base + |hist| < 0x1_0000_0000 ==>
            clock == base + |hist| && Stamped(slots[..], hist, base) && Recent(slots[..], hist))
    }

    constructor (d: Disk)
      ensures Valid() && disk == d == view && hist == []
    {
      slots := new Slot[SLOTS](_ => Slot(false, false, 0, 0, seq(512, _ => 0)));
      clock, disk, view, hist, base := 1, d, d, [], 1;
      new;
    }

    /** slot_find */
    method Find(lba: nat) returns (s: int)
      requires Valid()
      ensures -1 <= s < SLOTS
      ensures s >= 0 ==> slots[s].used && slots[s].lba == lba
      ensures s < 0 ==> !Cached(slots[..], lba)
    {
      for i := 0 to SLOTS
        invariant forall k :: 0 <= k < i ==> !(slots[k].used && slots[k].lba == lba)
      {
        if slots[i].used && slots[i].lba == lba { return i; }
      }
      return -1;
    }

    /** disk_write_sector, which may fail and then changes nothing. */
    method DiskWrite(lba: nat, data: Sector) returns (ok: bool)
      modifies this`disk
      ensures disk == if ok then old(disk)[lba := data] else old(disk)
    {
      ok := *;
      if ok { disk := disk[lba := data]; }
    }

    // The slot with the smallest stamp.
    method Oldest() returns (best: nat)
      requires Valid()
      ensures best < SLOTS && forall k :: 0 <= k < SLOTS ==> slots[best].stamp <= slots[k].stamp
    {
      best := 0;
      for i := 1 to SLOTS
        invariant best < i && forall k :: 0 <= k < i ==> slots[best].stamp <= slots[k].stamp
      {
        if slots[i].stamp < slots[best].stamp { best := i; }
      }
    }

    method WriteBack(i: nat) returns (ok: bool)
      requires Valid() && i < SLOTS && slots[i].used
      modifies this`disk, slots
      ensures Valid() && slots[..] == if ok then old(slots[..])[i := old(slots[i]).(dirty := false)] else old(slots[..])
    {
      ok := DiskWrite(slots[i].lba, slots[i].data);
      if ok {
        ghost var s := slots[..];
        WriteBackKeeps(s, old(disk), view, i);
        if base + |hist| < 0x1_0000_0000 { WriteBackHistory(s, i, hist, base); }
        slots[i] := slots[i].(dirty := false);
        assert slots[..] == s[i := s[i].(dirty := false)];
      }
    }

    /** slot_evict: an unused slot, or the one with the smallest stamp, written back if dirty. */
    method Evict() returns (s: int)
      requires Valid()
      modifies this`disk, slots
      ensures Valid() && -1 <= s < SLOTS
      ensures forall l: nat :: Cached(slots[..], l) <==> old(Cached(slots[..], l))
      ensures s >= 0 && slots[s].used ==>
                !slots[s].dirty && forall k :: 0 <= k < SLOTS ==> slots[k].used && slots[s].stamp <= slots[k].stamp
    {
      for i := 0 to SLOTS
        invariant forall k :: 0 <= k < i ==> slots[k].used
      {
        if !slots[i].used { return i; }
      }
      var best := Oldest();
      if slots[best].dirty {
        WriteBackKeeps(slots[..], disk, view, best);
        var ok := WriteBack(best);
        if !ok { return -1; }
      }
      return best;
    }

    /** disk_read_sector, which may fail. */
    method DiskRead(lba: nat) returns (ok: bool, data: Sector)
      ensures ok ==> data == Read(disk, lba)
    {
      ok, data := *, Read(disk, lba);
    }

    // Slot i takes sector lba with these contents and the next stamp.
    method Take(i: nat, lba: nat, data: Sector, dirty: bool)
      requires Valid() && i < SLOTS && CanTake(slots[..], i, lba) && Accesses(slots[..], i, lba)
      requires !dirty ==> data == Read(disk, lba) == Read(view, lba)
      modifies this`clock, this`view, this`hist, slots
      ensures Valid() && hist == old(hist) + [lba] && slots[i] == Slot(true, dirty, lba, clock, data)
      ensures view == if dirty then old(view)[lba := data] else old(view)
    {
      clock := (clock + 1) % 0x1_0000_0000;
      ghost var s, n := slots[..], Slot(true, dirty, lba, clock, data);
      TakeKeeps(s, disk, view, i, n);
      if base + |hist| + 1 < 0x1_0000_0000 { TakeHistory(s, i, n, hist, base); }
      slots[i] := Slot(true, dirty, lba, clock, data);
      assert slots[..] == s[i := n];
      hist := hist + [lba];
      if dirty { view := view[lba := data]; }
    }

    // A hit: only the stamp, and for a write the contents, change.
    method Touch(i: nat)
      requires Valid() && i < SLOTS && slots[i].used
      modifies this`clock, this`hist, slots
      ensures Valid() && hist == old(hist) + [slots[i].lba] && slots[i] == old(slots[i]).(stamp := clock)
    {
      clock := (clock + 1) % 0x1_0000_0000;
      ghost var s, n := slots[..], slots[i].(stamp := clock);
      TouchKeeps(s, disk, view, i, n);
      if base + |hist| + 1 < 0x1_0000_0000 { TakeHistory(s, i, n, hist, base); }
      slots[i] := slots[i].(stamp := clock);
      assert slots[..] == s[i := n];
      hist := hist + [slots[i].lba];
    }

    /** fs_cache_read_sector: on success the contents a plain disk would have. */
    method ReadSector(lba: nat) returns (ok: bool, buf: Sector)
      requires Valid()
      modifies this`clock, this`hist, this`disk, this`view, slots
      ensures Valid() && view == old(view)
      ensures ok ==> buf == Read(view, lba) && hist == old(hist) + [lba] && Cached(slots[..], lba)
      ensures !ok ==> hist == old(hist)
    {
      var s := Find(lba);
      if s >= 0 {
        Touch(s);
        return true, slots[s].data;
      }
      s := Evict();
      if s < 0 { return false, Zeros(512); }
      ok, buf := DiskRead(lba);
      if !ok { return; }
      Take(s, lba, buf, false);
    }

    /** fs_cache_write_sector: on success the view changes at that sector, otherwise not at all. */
    method WriteSector(lba: nat, buf: Sector) returns (ok: bool)
      requires Valid()
      modifies this, slots
      ensures Valid() && base == old(base)
      ensures view == if ok then old(view)[lba := buf] else old(view)
      ensures hist == if ok then old(hist) + [lba] else old(hist)
    {
      var s := Find(lba);
      if s < 0 {
        s := Evict();
        if s < 0 { return false; }
      }
      Take(s, lba, buf, true);
      return true;
    }

    /** fs_cache_sync: on success the disk holds everything. */
    method Sync() returns (ok: bool)
      requires Valid()
      modifies this`disk, slots
      ensures Valid() && (ok ==> forall l: nat :: Read(disk, l) == Read(view, l))
    {
      for i := 0 to SLOTS
        invariant Valid() && forall k :: 0 <= k < i ==> !(slots[k].used && slots[k].dirty)
      {
        if slots[i].used && slots[i].dirty {
          var done := WriteBack(i);
          if !done { return false; }
        }
      }
      AllClean(slots[..], disk, view);
      return true;
    }

    /** fs_cache_invalidate_all: unwritten changes are forgotten. */
    method InvalidateAll()
      requires Valid()
      modifies this`view, this`hist, this`base, slots
      ensures Valid() && view == disk && hist == []
    {
      for i := 0 to SLOTS
        invariant forall k :: 0 <= k < i ==> !slots[k].used
      {
        slots[i] := slots[i].(used := false, dirty := false);
      }
      view, hist, base := disk, [], clock;
    }
  }
}
