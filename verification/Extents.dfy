/** Extent lists: which sectors they cover, and which sector holds which part of a file. */
module Extents {
  import opened Words
  import opened Disks

  const DIRECT: nat := 4       // FS_DIRECT_EXTENTS
  const INDIRECT: nat := 64    // FS_INDIRECT_MAX

  datatype Extent = Extent(lba: u32, count: u32)

  predicate In(e: Extent, s: nat)
  {
    e.lba <= s < e.lba as int + e.count
  }

  /** How many of the extents contain sector s. */
  ghost function Cover(es: seq<Extent>, s: nat): nat
  {
    if |es| == 0 then 0 else Bit(In(es[0], s)) + Cover(es[1..], s)
  }

  /** Number of sectors of the file. */
  ghost function Total(es: seq<Extent>): nat
  {
    if |es| == 0 then 0 else es[0].count + Total(es[1..])
  }

  /** The sector that holds part k of the file. */
  ghost function Map(es: seq<Extent>, k: nat): nat
    requires k < Total(es)
  {
    if k < es[0].count then es[0].lba as int + k else Map(es[1..], k - es[0].count)
  }

  lemma {:induction false} CoverUpdate(es: seq<Extent>, i: nat, e: Extent, s: nat)
    requires i < |es|
    ensures Cover(es[i := e], s) == Cover(es, s) - Bit(In(es[i], s)) + Bit(In(e, s))
    ensures Cover(es, s) >= Bit(In(es[i], s))
  {
    if i == 0 {
      assert es[0 := e][1..] == es[1..];
    } else {
      assert es[i := e][1..] == es[1..][i - 1 := e];
      CoverUpdate(es[1..], i - 1, e, s);
    }
  }

  lemma {:induction false} TotalUpdate(es: seq<Extent>, i: nat, e: Extent)
    requires i < |es|
    ensures Total(es[i := e]) == Total(es) - es[i].count + e.count && Total(es) >= es[i].count
  {
    if i == 0 {
      assert es[0 := e][1..] == es[1..];
    } else {
      assert es[i := e][1..] == es[1..][i - 1 := e];
      TotalUpdate(es[1..], i - 1, e);
    }
  }

  lemma {:induction false} CoverAppend(a: seq<Extent>, b: seq<Extent>, s: nat)
    ensures Cover(a + b, s) == Cover(a, s) + Cover(b, s)
  {
    if |a| == 0 {
      assert a + b == b;
    } else {
      assert (a + b)[1..] == a[1..] + b;
      CoverAppend(a[1..], b, s);
    }
  }

  lemma {:induction false} TotalAppend(a: seq<Extent>, b: seq<Extent>)
    ensures Total(a + b) == Total(a) + Total(b)
  {
    if |a| == 0 {
      assert a + b == b;
    } else {
      assert (a + b)[1..] == a[1..] + b;
      TotalAppend(a[1..], b);
    }
  }

  lemma {:induction false} EmptyExtents(es: seq<Extent>, s: nat)
    requires forall i :: 0 <= i < |es| ==> es[i].count == 0
    ensures Cover(es, s) == 0 && Total(es) == 0
  {
    if |es| != 0 { EmptyExtents(es[1..], s); }
  }

  // ----- the sectors of a file -----

  lemma {:induction false} MapCovered(es: seq<Extent>, k: nat)
    requires k < Total(es)
    ensures Cover(es, Map(es, k)) >= 1
  {
    if k >= es[0].count { MapCovered(es[1..], k - es[0].count); }
  }

  /** If no sector is covered twice, the parts of a file lie in different sectors. */
  lemma {:induction false} MapInjective(es: seq<Extent>, j: nat, k: nat)
    requires j < k < Total(es) && forall s: nat :: Cover(es, s) <= 1
    ensures Map(es, j) != Map(es, k)
  {
    var n := es[0].count;
    assert forall s: nat :: Cover(es[1..], s) <= Cover(es, s);
    if j >= n {
      MapInjective(es[1..], j - n, k - n);
    } else if k >= n {
      MapCovered(es[1..], k - n);
    }
  }

  /** Every covered sector holds some part of the file. */
  lemma {:induction false} CoveredIsMapped(es: seq<Extent>, s: nat) returns (k: nat)
    requires Cover(es, s) >= 1
    ensures k < Total(es) && Map(es, k) == s
  {
    if In(es[0], s) {
      k := s - es[0].lba;
    } else {
      k := CoveredIsMapped(es[1..], s);
      k := k + es[0].count;
    }
  }

  // ----- counting -----

  ghost function CoverBelow(es: seq<Extent>, n: nat): nat
  {
    if n == 0 then 0 else CoverBelow(es, n - 1) + Cover(es, n - 1)
  }

  ghost function InBelow(e: Extent, n: nat): nat
  {
    if n == 0 then 0 else InBelow(e, n - 1) + Bit(In(e, n - 1))
  }

  lemma {:induction false} InBelowCount(e: Extent, n: nat)
    ensures InBelow(e, n) == if n <= e.lba then 0 else if n <= e.lba as int + e.count then n - e.lba else e.count
  {
    if n != 0 { InBelowCount(e, n - 1); }
  }

  lemma {:induction false} CoverBelowSplit(es: seq<Extent>, n: nat)
    requires |es| != 0
    ensures CoverBelow(es, n) == InBelow(es[0], n) + CoverBelow(es[1..], n)
  {
    if n != 0 { CoverBelowSplit(es, n - 1); }
  }

  lemma {:induction false} CoverBelowNone(n: nat)
    ensures CoverBelow([], n) == 0
  {
    if n != 0 { CoverBelowNone(n - 1); }
  }

  lemma {:induction false} CoverBelowTotal(es: seq<Extent>, n: nat)
    requires forall s: nat :: s >= n ==> Cover(es, s) == 0
    ensures CoverBelow(es, n) == Total(es)
  {
    if |es| == 0 {
      CoverBelowNone(n);
    } else {
      var e := es[0];
      forall s: nat | s >= n
        ensures Cover(es[1..], s) == 0 && !In(e, s)
      {
        assert Cover(es, s) == 0;
      }
      assert e.count != 0 ==> e.lba as int + e.count <= n by {
        if e.count != 0 { assert In(e, e.lba as int + e.count - 1); }
      }
      CoverBelowSplit(es, n);
      InBelowCount(e, n);
      CoverBelowTotal(es[1..], n);
    }
  }

  lemma {:induction false} CoverBelowBound(es: seq<Extent>, n: nat)
    requires forall s: nat :: Cover(es, s) <= 1
    ensures CoverBelow(es, n) <= n
  {
    if n != 0 { CoverBelowBound(es, n - 1); }
  }

  /** Extents that cover no sector twice and none from n on have at most n sectors. */
  lemma TotalBound(es: seq<Extent>, n: nat)
    requires forall s: nat :: Cover(es, s) <= Bit(s < n)
    ensures Total(es) <= n
  {
    CoverBelowTotal(es, n);
    CoverBelowBound(es, n);
  }

  lemma {:induction false} ExtentInside(es: seq<Extent>, i: nat, n: nat)
    requires i < |es| && es[i].count != 0 && forall s: nat :: Cover(es, s) <= Bit(s < n)
    ensures es[i].lba as int + es[i].count <= n
  {
    var last := es[i].lba as int + es[i].count - 1;
    CoverUpdate(es, i, es[i], last);
    assert In(es[i], last);
  }

  // ----- the walks of the code, on any extents -----

  /** extent_count_sane */
  function Sane(count: u32, total: u32): u32
  {
    if count > (if total == 0 then 1024 else total) then 0 else count
  }

  /** inode_sector_count with n sectors counted so far. */
  function CountFrom(es: seq<Extent>, total: u32, n: nat): nat
    decreases |es|
  {
    if |es| == 0 then n
    else
      var max := if total == 0 then 1024 else total;
      var c := Sane(es[0].count, total);
      if n > max - c then max else CountFrom(es[1..], total, n + c)
  }

  /** inode_map_sector: the sector of part `left`, or -1. */
  function MapFrom(es: seq<Extent>, total: u32, left: nat): int
    decreases |es|
  {
    if |es| == 0 then -1
    else
      var c := Sane(es[0].count, total);
      if left < c then
        var lba := (es[0].lba as int + left) % 0x1_0000_0000;
        if total != 0 && lba >= total then -1 else lba
      else MapFrom(es[1..], total, left - c)
  }

  lemma {:induction false} CountIsTotal(es: seq<Extent>, total: u32, n: nat)
    requires total != 0 && n + Total(es) <= total
    ensures CountFrom(es, total, n) == n + Total(es)
  {
    if |es| != 0 { CountIsTotal(es[1..], total, n + es[0].count); }
  }

  lemma {:induction false} MapFromIsMap(es: seq<Extent>, total: u32, k: nat)
    requires total != 0 && Total(es) <= total && forall s: nat :: Cover(es, s) <= Bit(s < total)
    ensures MapFrom(es, total, k) == if k < Total(es) then Map(es, k) else -1
  {
    if |es| != 0 {
      assert forall s: nat :: Cover(es[1..], s) <= Cover(es, s);
      if k < es[0].count {
        ExtentInside(es, 0, total);
      } else {
        MapFromIsMap(es[1..], total, k - es[0].count);
      }
    }
  }

  // ----- the indirect block -----

  function Decode(b: Sector): (es: seq<Extent>)
    ensures |es| == INDIRECT
  {
    seq(INDIRECT, i requires 0 <= i < INDIRECT => Extent(WordAt(b, 2 * i), WordAt(b, 2 * i + 1)))
  }

  function FlatWords(es: seq<Extent>): (ws: seq<u32>)
    ensures |ws| == 2 * |es|
    ensures forall i :: 0 <= i < |es| ==> ws[2 * i] == es[i].lba && ws[2 * i + 1] == es[i].count
  {
    if |es| == 0 then [] else
      var rest := FlatWords(es[1..]);
      assert forall i :: 1 <= i < |es| ==> es[1..][i - 1] == es[i];
      [es[0].lba, es[0].count] + rest
  }

  function Encode(es: seq<Extent>): Sector
    requires |es| == INDIRECT
  {
    Flat(FlatWords(es))
  }

  lemma EncodeRoundTrip(es: seq<Extent>)
    requires |es| == INDIRECT
    ensures Decode(Encode(es)) == es
  {
    forall i | 0 <= i < INDIRECT
      ensures Decode(Encode(es))[i] == es[i]
    {
      WordOfFlat(FlatWords(es), 2 * i);
      WordOfFlat(FlatWords(es), 2 * i + 1);
    }
  }
}
