/** A heap as a list of blocks that tile an arena. */
module Blocks {
  const HDR: nat := 12   // sizeof(struct heap_block) and sizeof(struct blk)

  datatype Blk = Blk(size: nat, free: bool)

  /** Where block k begins; Addr(bs, |bs|) is the end of the last block. */
  function Addr(bs: seq<Blk>, k: nat): nat
    requires k <= |bs|
  {
    if k == 0 then 0 else Addr(bs, k - 1) + HDR + bs[k - 1].size
  }

  function Fill(bs: seq<Blk>): nat { Addr(bs, |bs|) }

  /** No two neighbours are both free. */
  ghost predicate Normal(bs: seq<Blk>)
  {
    forall k :: 0 < k < |bs| ==> !(bs[k - 1].free && bs[k].free)
  }

  lemma {:induction false} AddrAppend(a: seq<Blk>, b: seq<Blk>, j: nat)
    requires j <= |b|
    ensures Addr(a + b, |a| + j) == Fill(a) + Addr(b, j)
  {
    if j == 0 {
      AddrPrefix(a, b, |a|);
    } else {
      AddrAppend(a, b, j - 1);
    }
  }

  lemma {:induction false} AddrPrefix(a: seq<Blk>, b: seq<Blk>, j: nat)
    requires j <= |a|
    ensures Addr(a + b, j) == Addr(a, j)
  {
    if j != 0 { AddrPrefix(a, b, j - 1); }
  }

  lemma {:induction false} AddrGrows(bs: seq<Blk>, j: nat, k: nat)
    requires j < k <= |bs|
    ensures Addr(bs, j) + HDR + bs[j].size <= Addr(bs, k)
  {
    if k != j + 1 { AddrGrows(bs, j, k - 1); }
  }

  // A list has at most as many blocks as there is room for headers.
  lemma {:induction false} BlockBound(bs: seq<Blk>, k: nat)
    requires k <= |bs|
    ensures HDR * k <= Addr(bs, k)
  {
    if k != 0 { BlockBound(bs, k - 1); }
  }

  // ----- allocating -----

  /** The first free block of at least n bytes, |bs| if there is none. */
  function FirstFit(bs: seq<Blk>, n: nat): (i: nat)
    ensures i <= |bs| && (i < |bs| ==> bs[i].free && bs[i].size >= n)
    ensures forall k :: 0 <= k < i ==> !(bs[k].free && bs[k].size >= n)
  {
    if |bs| == 0 || (bs[0].free && bs[0].size >= n) then 0 else 1 + FirstFit(bs[1..], n)
  }

  /** Block i is taken for n bytes; more than slack left-over bytes become a new free block. */
  function Taken(bs: seq<Blk>, i: nat, n: nat, slack: nat): seq<Blk>
    requires i < |bs| && n <= bs[i].size && HDR <= slack
  {
    if bs[i].size - n > slack then bs[..i] + [Blk(n, false), Blk(bs[i].size - n - HDR, true)] + bs[i + 1..]
    else bs[i := Blk(bs[i].size, false)]
  }

  // ----- merging -----

  /** Blocks i and i + 1 become one free block. */
  function Merged(bs: seq<Blk>, i: nat): (r: seq<Blk>)
    requires i + 1 < |bs|
    ensures |r| == |bs| - 1
  {
    bs[..i] + [Blk(bs[i].size + HDR + bs[i + 1].size, bs[i].free)] + bs[i + 2..]
  }

  /** heap_coalesce from block i on. */
  function Coalesced(bs: seq<Blk>, i: nat): seq<Blk>
    requires i <= |bs|
    decreases |bs| - i
  {
    if i + 1 >= |bs| then bs
    else if bs[i].free && bs[i + 1].free then Coalesced(Merged(bs, i), i)
    else Coalesced(bs, i + 1)
  }

  // ----- live blocks -----

  /** The blocks in use: where, and how big. */
  ghost function LiveFrom(bs: seq<Blk>, off: nat): set<(nat, nat)>
  {
    if |bs| == 0 then {}
    else (if bs[0].free then {} else {(off, bs[0].size)}) + LiveFrom(bs[1..], off + HDR + bs[0].size)
  }

  ghost function Live(bs: seq<Blk>): set<(nat, nat)> { LiveFrom(bs, 0) }

  lemma FillCons(bs: seq<Blk>)
    requires |bs| != 0
    ensures Fill(bs) == HDR + bs[0].size + Fill(bs[1..])
  {
    AddrAppend([bs[0]], bs[1..], |bs| - 1);
    assert [bs[0]] + bs[1..] == bs;
    assert Addr([bs[0]], 0) == 0;
  }

  lemma {:induction false} LiveAppend(a: seq<Blk>, b: seq<Blk>, off: nat)
    ensures LiveFrom(a + b, off) == LiveFrom(a, off) + LiveFrom(b, off + Fill(a))
  {
    if |a| == 0 {
      assert a + b == b;
    } else {
      assert (a + b)[1..] == a[1..] + b;
      LiveAppend(a[1..], b, off + HDR + a[0].size);
      FillCons(a);
    }
  }

  lemma FillAppend(a: seq<Blk>, b: seq<Blk>)
    ensures Fill(a + b) == Fill(a) + Fill(b)
  {
    AddrAppend(a, b, |b|);
  }

  // A list in three parts.
  lemma LiveMid(p: seq<Blk>, x: seq<Blk>, s: seq<Blk>)
    ensures Live(p + x + s) == LiveFrom(p, 0) + LiveFrom(x, Fill(p)) + LiveFrom(s, Fill(p) + Fill(x))
    ensures Fill(p + x + s) == Fill(p) + Fill(x) + Fill(s)
  {
    FillMid(p, x, s);
    LiveAppend(p + x, s, 0);
    LiveAppend(p, x, 0);
  }

  lemma FillMid(p: seq<Blk>, x: seq<Blk>, s: seq<Blk>)
    ensures Fill(p + x) == Fill(p) + Fill(x) && Fill(p + x + s) == Fill(p) + Fill(x) + Fill(s)
  {
    FillAppend(p + x, s);
    FillAppend(p, x);
  }

  lemma {:induction false} LiveRange(bs: seq<Blk>, off: nat, e: (nat, nat))
    requires e in LiveFrom(bs, off)
    ensures off <= e.0 && e.0 + HDR + e.1 <= off + Fill(bs)
  {
    FillCons(bs);
    if e != (off, bs[0].size) || bs[0].free { LiveRange(bs[1..], off + HDR + bs[0].size, e); }
  }

  /** Payloads of different live blocks do not overlap, nor does any header lie in one. */
  lemma {:induction false} LiveDisjoint(bs: seq<Blk>, off: nat, e: (nat, nat), f: (nat, nat))
    requires e in LiveFrom(bs, off) && f in LiveFrom(bs, off) && e != f
    ensures e.0 + HDR + e.1 <= f.0 || f.0 + HDR + f.1 <= e.0
  {
    var rest := LiveFrom(bs[1..], off + HDR + bs[0].size);
    if e in rest { LiveRange(bs[1..], off + HDR + bs[0].size, e); }
    if f in rest { LiveRange(bs[1..], off + HDR + bs[0].size, f); }
    if e in rest && f in rest { LiveDisjoint(bs[1..], off + HDR + bs[0].size, e, f); }
  }

  // ----- what the operations keep -----

  // Blocks behind a stretch that was replaced by one of the same total size.
  lemma AddrBehind(p: seq<Blk>, x: seq<Blk>, y: seq<Blk>, s: seq<Blk>, j: nat)
    requires Fill(x) == Fill(y) && j <= |s|
    ensures Addr(p + x + s, |p| + |x| + j) == Addr(p + y + s, |p| + |y| + j)
  {
    FillAppend(p, x);
    FillAppend(p, y);
    AddrAppend(p + x, s, j);
    AddrAppend(p + y, s, j);
  }

  // Blocks up to the stretch.
  lemma AddrUpTo(p: seq<Blk>, x: seq<Blk>, s: seq<Blk>, j: nat)
    requires j <= |p|
    ensures Addr(p + x + s, j) == Addr(p, j)
  {
    AddrPrefix(p + x, s, j);
    AddrPrefix(p, x, j);
  }

  lemma OneBlock(x: Blk, off: nat)
    ensures Fill([x]) == HDR + x.size && LiveFrom([x], off) == if x.free then {} else {(off, x.size)}
  {
    assert [x][1..] == [] && Addr([x], 0) == 0;
  }

  lemma TwoBlocks(x: Blk, y: Blk, off: nat)
    ensures Fill([x, y]) == HDR + x.size + HDR + y.size
    ensures LiveFrom([x, y], off) == LiveFrom([x], off) + LiveFrom([y], off + HDR + x.size)
  {
    FillAppend([x], [y]);
    OneBlock(x, off);
    OneBlock(y, off + HDR + x.size);
    LiveAppend([x], [y], off);
    assert [x] + [y] == [x, y];
  }

  lemma AddrSplit(bs: seq<Blk>, i: nat)
    requires i <= |bs|
    ensures Addr(bs, i) == Fill(bs[..i])
  {
    AddrPrefix(bs[..i], bs[i..], i);
    assert bs[..i] + bs[i..] == bs;
  }

  // What replaces block i when it is taken.
  function Pieces(b: Blk, n: nat, slack: nat): seq<Blk>
    requires n <= b.size && HDR <= slack
  {
    if b.size - n > slack then [Blk(n, false), Blk(b.size - n - HDR, true)] else [Blk(b.size, false)]
  }

  lemma TakenIs(bs: seq<Blk>, i: nat, n: nat, slack: nat)
    requires i < |bs| && n <= bs[i].size && HDR <= slack
    ensures bs == bs[..i] + [bs[i]] + bs[i + 1..]
    ensures Taken(bs, i, n, slack) == bs[..i] + Pieces(bs[i], n, slack) + bs[i + 1..]
  {
  }

  lemma PiecesFill(b: Blk, n: nat, slack: nat, off: nat)
    requires n <= b.size && HDR <= slack
    ensures var y := Pieces(b, n, slack);
            Fill(y) == HDR + b.size && n <= y[0].size <= n + slack && LiveFrom(y, off) == {(off, y[0].size)}
  {
    var y := Pieces(b, n, slack);
    OneBlock(y[0], off);
    if |y| == 2 {
      TwoBlocks(y[0], y[1], off);
      OneBlock(y[1], off + HDR + y[0].size);
    }
  }

  lemma PiecesLive(p: seq<Blk>, b: Blk, s: seq<Blk>, n: nat, slack: nat)
    requires b.free && n <= b.size && HDR <= slack
    ensures var y := Pieces(b, n, slack);
            Fill(p + y + s) == Fill(p + [b] + s) && Live(p + y + s) == Live(p + [b] + s) + {(Fill(p), y[0].size)}
  {
    var y := Pieces(b, n, slack);
    PiecesFill(b, n, slack, Fill(p));
    OneBlock(b, Fill(p));
    LiveMid(p, [b], s);
    LiveMid(p, y, s);
  }

  /** Allocation keeps the tiling and adds exactly the new block to the live ones. */
  lemma TakenKeeps(bs: seq<Blk>, i: nat, n: nat, slack: nat)
    requires i < |bs| && bs[i].free && n <= bs[i].size && HDR <= slack
    ensures var cs := Taken(bs, i, n, slack);
            && Fill(cs) == Fill(bs) && i < |cs| && n <= cs[i].size <= n + slack
            && Live(cs) == Live(bs) + {(Addr(bs, i), cs[i].size)}
  {
    TakenIs(bs, i, n, slack);
    PiecesLive(bs[..i], bs[i], bs[i + 1..], n, slack);
    AddrSplit(bs, i);
  }

  /** ... and the normal form. */
  lemma TakenNormal(bs: seq<Blk>, i: nat, n: nat, slack: nat)
    requires i < |bs| && n <= bs[i].size && HDR <= slack && bs[i].free && Normal(bs)
    ensures Normal(Taken(bs, i, n, slack))
  {
    var cs := Taken(bs, i, n, slack);
    forall k | 0 < k < |cs|
      ensures !(cs[k - 1].free && cs[k].free)
    {
      if k < i {
        assert cs[k] == bs[k] && cs[k - 1] == bs[k - 1];
      } else if |cs| == |bs| + 1 && k > i + 1 {
        assert cs[k] == bs[k - 1];
        assert k > i + 2 ==> cs[k - 1] == bs[k - 2];
        assert !(bs[k - 2].free && bs[k - 1].free);
      }
    }
  }

  /** Merging two free blocks changes neither the tiling nor the live blocks. */
  lemma MergedKeeps(bs: seq<Blk>, i: nat)
    requires i + 1 < |bs| && bs[i].free && bs[i + 1].free
    ensures Fill(Merged(bs, i)) == Fill(bs) && Live(Merged(bs, i)) == Live(bs)
  {
    var cs, p, s := Merged(bs, i), bs[..i], bs[i + 2..];
    var x, y := [bs[i], bs[i + 1]], [cs[i]];
    assert bs == p + x + s && cs == p + y + s;
    TwoBlocks(bs[i], bs[i + 1], Fill(p));
    OneBlock(bs[i], Fill(p));
    OneBlock(bs[i + 1], Fill(p) + HDR + bs[i].size);
    OneBlock(cs[i], Fill(p));
    LiveMid(p, x, s);
    LiveMid(p, y, s);
  }

  // ----- freeing -----

  function Freed(bs: seq<Blk>, k: nat): seq<Blk>
    requires k < |bs|
  {
    bs[k := Blk(bs[k].size, true)]
  }

  lemma FreedMid(p: seq<Blk>, b: Blk, s: seq<Blk>)
    requires !b.free
    ensures var f := Blk(b.size, true);
            Fill(p + [f] + s) == Fill(p + [b] + s) && Live(p + [f] + s) == Live(p + [b] + s) - {(Fill(p), b.size)}
  {
    var f, e := Blk(b.size, true), (Fill(p), b.size);
    OneBlock(f, Fill(p));
    OneBlock(b, Fill(p));
    LiveMid(p, [b], s);
    LiveMid(p, [f], s);
    if e in LiveFrom(p, 0) { LiveRange(p, 0, e); }
    if e in LiveFrom(s, Fill(p) + Fill([b])) { LiveRange(s, Fill(p) + Fill([b]), e); }
  }

  /** Freeing a block takes exactly it from the live ones. */
  lemma FreedKeeps(bs: seq<Blk>, k: nat)
    requires k < |bs| && !bs[k].free
    ensures Fill(Freed(bs, k)) == Fill(bs) && Live(Freed(bs, k)) == Live(bs) - {(Addr(bs, k), bs[k].size)}
  {
    FreedMid(bs[..k], bs[k], bs[k + 1..]);
    FreedIs(bs, k);
    AddrSplit(bs, k);
  }

  lemma FreedIs(bs: seq<Blk>, k: nat)
    requires k < |bs|
    ensures bs == bs[..k] + [bs[k]] + bs[k + 1..]
    ensures Freed(bs, k) == bs[..k] + [Blk(bs[k].size, true)] + bs[k + 1..]
  {
  }

  /** Coalescing changes neither the tiling nor the live blocks. */
  lemma {:induction false} CoalescedKeeps(bs: seq<Blk>, i: nat)
    requires i <= |bs|
    ensures Fill(Coalesced(bs, i)) == Fill(bs) && Live(Coalesced(bs, i)) == Live(bs)
    decreases |bs| - i
  {
    if i + 1 < |bs| {
      if bs[i].free && bs[i + 1].free {
        MergedKeeps(bs, i);
        CoalescedKeeps(Merged(bs, i), i);
      } else {
        CoalescedKeeps(bs, i + 1);
      }
    }
  }

  ghost predicate NormalUpTo(bs: seq<Blk>, i: nat)
  {
    forall k :: 0 < k < |bs| && k <= i ==> !(bs[k - 1].free && bs[k].free)
  }

  /** It leaves no two neighbours free. */
  lemma {:induction false} CoalescedNormal(bs: seq<Blk>, i: nat)
    requires i <= |bs| && NormalUpTo(bs, i)
    ensures Normal(Coalesced(bs, i))
    decreases |bs| - i
  {
    if i + 1 < |bs| {
      if bs[i].free && bs[i + 1].free {
        var m := Merged(bs, i);
        assert forall k :: 0 <= k < i ==> m[k] == bs[k];
        assert m[i].free == bs[i].free;
        CoalescedNormal(m, i);
      } else {
        CoalescedNormal(bs, i + 1);
      }
    }
  }

  // ----- local merging -----

  /** The forward and backward merges of the user library at a block that was just freed. */
  function Local(bs: seq<Blk>, k: nat): seq<Blk>
    requires k < |bs|
  {
    var f := if k + 1 < |bs| && bs[k + 1].free then Merged(bs, k) else bs;
    if k > 0 && f[k - 1].free then Merged(f, k - 1) else f
  }

  lemma {:induction false} CoalescedSkip(bs: seq<Blk>, i: nat, j: nat)
    requires i <= j <= |bs| && forall k :: i < k <= j && k < |bs| ==> !(bs[k - 1].free && bs[k].free)
    ensures Coalesced(bs, i) == Coalesced(bs, j)
    decreases j - i
  {
    if i < j && i + 1 < |bs| {
      assert !(bs[i + 1 - 1].free && bs[i + 1].free);
      CoalescedSkip(bs, i + 1, j);
    }
  }

  lemma CoalescedDone(bs: seq<Blk>, i: nat)
    requires i <= |bs| && forall k :: i < k < |bs| ==> !(bs[k - 1].free && bs[k].free)
    ensures Coalesced(bs, i) == bs
  {
    CoalescedSkip(bs, i, |bs|);
  }

  // From the freed block on.
  lemma CoalescedAt(bs: seq<Blk>, k: nat)
    requires k < |bs| && bs[k].free && forall j :: k + 1 < j < |bs| ==> !(bs[j - 1].free && bs[j].free)
    ensures Coalesced(bs, k) == if k + 1 < |bs| && bs[k + 1].free then Merged(bs, k) else bs
  {
    if k + 1 < |bs| && bs[k + 1].free {
      var m := Merged(bs, k);
      forall j | k < j < |m|
        ensures !(m[j - 1].free && m[j].free)
      {
        assert m[j] == bs[j + 1];
        assert j > k + 1 ==> m[j - 1] == bs[j];
        assert !(bs[j + 1 - 1].free && bs[j + 1].free);
      }
      CoalescedDone(m, k);
    } else {
      forall j | k < j < |bs|
        ensures !(bs[j - 1].free && bs[j].free)
      {
      }
      CoalescedDone(bs, k);
    }
  }

  lemma MergeTwice(bs: seq<Blk>, k: nat)
    requires 0 < k && k + 1 < |bs| && bs[k - 1].free == bs[k].free
    ensures Merged(Merged(bs, k - 1), k - 1) == Merged(Merged(bs, k), k - 1)
  {
    var a, b := Merged(Merged(bs, k - 1), k - 1), Merged(Merged(bs, k), k - 1);
    assert forall j :: 0 <= j < k - 1 ==> a[j] == bs[j] == b[j];
    assert forall j :: k <= j < |a| ==> a[j] == bs[j + 2] == b[j];
  }

  /** In normal form but for the neighbours of block k. */
  ghost predicate NormalBut(bs: seq<Blk>, k: nat)
  {
    forall j :: 0 < j < |bs| && j != k && j != k + 1 ==> !(bs[j - 1].free && bs[j].free)
  }

  lemma FreedNormal(bs: seq<Blk>, k: nat)
    requires k < |bs| && Normal(bs)
    ensures NormalBut(Freed(bs, k), k)
  {
    var cs := Freed(bs, k);
    forall j | 0 < j < |cs| && j != k && j != k + 1
      ensures !(cs[j - 1].free && cs[j].free)
    {
      assert !(bs[j - 1].free && bs[j].free);
    }
  }

  // The block before is free too.
  lemma CoalescedBack(bs: seq<Blk>, k: nat)
    requires 0 < k < |bs| && bs[k].free && bs[k - 1].free && NormalBut(bs, k)
    ensures Coalesced(bs, k - 1) == Local(bs, k)
  {
    var m := Merged(bs, k - 1);
    forall j | k < j < |m|
      ensures !(m[j - 1].free && m[j].free)
    {
      assert m[j] == bs[j + 1] && m[j - 1] == bs[j + 1 - 1];
    }
    CoalescedAt(m, k - 1);
    if k + 1 < |bs| {
      assert m[k] == bs[k + 1];
      MergeTwice(bs, k);
    }
  }

  lemma CoalescedHere(bs: seq<Blk>, k: nat)
    requires k < |bs| && bs[k].free && (k > 0 ==> !bs[k - 1].free) && NormalBut(bs, k)
    ensures Coalesced(bs, k) == Local(bs, k)
  {
    CoalescedAt(bs, k);
  }

  /** On a list in normal form, merging around the freed block is coalescing the whole list. */
  lemma LocalIsWhole(bs: seq<Blk>, k: nat)
    requires k < |bs| && !bs[k].free && Normal(bs)
    ensures Local(Freed(bs, k), k) == Coalesced(Freed(bs, k), 0)
  {
    var cs := Freed(bs, k);
    FreedNormal(bs, k);
    if k > 0 && cs[k - 1].free {
      CoalescedSkip(cs, 0, k - 1);
      CoalescedBack(cs, k);
    } else {
      CoalescedSkip(cs, 0, k);
      CoalescedHere(cs, k);
    }
  }

  lemma NotBothFree(bs: seq<Blk>)
    requires Normal(bs) && |bs| > 1
    ensures !(bs[0].free && bs[1].free)
  {
    var k := 1;
    assert !(bs[k - 1].free && bs[k].free);
  }

  /** With nothing live, a list in normal form is the initial block. */
  lemma AllFree(bs: seq<Blk>)
    requires Normal(bs) && |bs| != 0 && Live(bs) == {}
    ensures bs == [Blk(Fill(bs) - HDR, true)]
  {
    forall k | 0 <= k < |bs|
      ensures bs[k].free
    {
      if !bs[k].free {
        FreedKeeps(bs, k);
        LiveHas(bs, k);
      }
    }
    if |bs| > 1 { NotBothFree(bs); }
    OneBlock(bs[0], 0);
    assert bs == [bs[0]];
  }

  lemma LiveHas(bs: seq<Blk>, k: nat)
    requires k < |bs| && !bs[k].free
    ensures (Addr(bs, k), bs[k].size) in Live(bs)
  {
    assert bs == bs[..k] + [bs[k]] + bs[k + 1..];
    LiveMid(bs[..k], [bs[k]], bs[k + 1..]);
    OneBlock(bs[k], Fill(bs[..k]));
    AddrSplit(bs, k);
  }
}
