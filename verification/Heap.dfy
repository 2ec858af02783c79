/** The kernel heap and the allocator of the user library: first-fit lists of blocks in an arena. */
module Heap {
  import opened Words
  import opened Blocks
  import opened Arena

  lemma SameTrans(m: seq<u8>, m1: seq<u8>, m2: seq<u8>, lo1: nat, hi1: nat, lo2: nat, hi2: nat, lo: nat, hi: nat)
    requires SameOutside(m, m1, lo1, hi1) && SameOutside(m1, m2, lo2, hi2)
    requires lo <= lo1 && lo <= lo2 && hi1 <= hi && hi2 <= hi
    ensures SameOutside(m, m2, lo, hi)
  {
  }

  lemma TwoHdrs(r: seq<u8>, a: nat, x: Blk, y: Blk, more: bool, base: u32, fb: nat, next: u32)
    requires 1 <= fb <= 4 && base as int + a + HDR + x.size < 0x1_0000_0000
    requires HdrAt(r, a, x, base as int + a + HDR + x.size, fb) && HdrAt(r, a + HDR + x.size, y, next, fb)
    requires next == LastNext(a, HDR + x.size + HDR + y.size, more, base)
    ensures HdrsIn(r, a, [x, y], more, base, fb)
  {
    TwoBlocks(x, y, 0);
    assert Addr([x, y], 0) == 0 && Addr([x, y], 1) == HDR + x.size;
  }

  /** The pointer that the last header of a stretch holds. */
  ghost function LastNext(a: nat, fill: nat, more: bool, base: u32): nat
  {
    if more then base as int + a + fill else 0
  }

  // The whole list after block i was split or taken as it is.
  lemma TakenChain(m: seq<u8>, r: seq<u8>, bs: seq<Blk>, i: nat, n: u32, slack: nat, base: u32, fb: nat)
    requires 1 <= fb <= 4 && Chain(m, bs, base, fb) && i < |bs| && n <= bs[i].size && HDR <= slack
    requires SameOutside(m, r, Addr(bs, i), Addr(bs, i) + HDR + bs[i].size)
    requires HdrsIn(r, Addr(bs, i), Pieces(bs[i], n, slack), |bs[i + 1..]| != 0, base, fb)
    ensures Chain(r, Taken(bs, i, n, slack), base, fb)
  {
    TakenIs(bs, i, n, slack);
    AddrSplit(bs, i);
    PiecesFill(bs[i], n, slack, 0);
    OneBlock(bs[i], 0);
    ChainReplace(m, r, bs[..i], [bs[i]], Pieces(bs[i], n, slack), bs[i + 1..], base, fb);
  }

  lemma OneHdr(r: seq<u8>, a: nat, x: Blk, more: bool, base: u32, fb: nat, next: u32)
    requires 1 <= fb <= 4 && HdrAt(r, a, x, next, fb) && next == LastNext(a, HDR + x.size, more, base)
    ensures HdrsIn(r, a, [x], more, base, fb)
  {
    OneBlock(x, 0);
    assert Addr([x], 0) == 0;
  }

  lemma NextIsLast(bs: seq<Blk>, i: nat, base: u32)
    requires i < |bs|
    ensures NextOf(bs, i, base) == LastNext(Addr(bs, i), HDR + bs[i].size, |bs[i + 1..]| != 0, base)
  {
  }

  /** The first n payload bytes of the block at b are those the block at a had. */
  ghost predicate Copied(m: seq<u8>, m': seq<u8>, a: nat, b: nat, n: nat)
  {
    a + HDR + n <= |m| && b + HDR + n <= |m'| && m'[b + HDR..b + HDR + n] == m[a + HDR..a + HDR + n]
  }

  /** RoundUp to 16 in 32 bits. */
  function Wrapped(size: u32): u32
  {
    RoundUpIs(size, 16);
    if size <= 0xFFFF_FFF0 then RoundUp(size, 16) else 0
  }

  class Heap {
    const mem: array<u8>   // heap_arena
    const base: u32        // its address
    const fb: nat          // the bytes of the free flag
    const slack: nat       // the most bytes that are not split off
    ghost var bs: seq<Blk>

    ghost predicate Valid()
      reads this, mem
    {
      && 1 <= fb <= 4 && HDR <= slack && 0 < base && base as int + mem.Length < 0x1_0000_0000 && mem.Length <= 0x8_0000
      && |bs| > 0 && Fill(bs) == mem.Length && Chain(mem[..], bs, base, fb)
    }

    /** heap_init and arena_init: one free block. */
    constructor (size: nat, address: u32, flagBytes: nat, most: nat)
      requires HDR < size <= 0x8_0000 && 0 < address && address as int + size < 0x1_0000_0000 && 1 <= flagBytes <= 4
      requires HDR <= most
      ensures Ok() && mem.Length == size && base == address && fb == flagBytes && slack == most && fresh(mem)
      ensures bs == [Blk(size - HDR, true)] && Live(bs) == {}
    {
      mem, base, fb, slack := new u8[size](_ => 0), address, flagBytes, most;
      bs := [Blk(size - HDR, true)];
      new;
      OneBlock(bs[0], 0);
      SetHeader(0, mem.Length - HDR, 1, 0);
      assert Addr(bs, 0) == 0;
      assert LinkAt(mem[..], bs, 0, base, fb);
    }

    // ----- header fields -----

    method GetWord(a: nat) returns (v: u32)
      requires a + 4 <= mem.Length
      ensures v == LE(mem[..][a..a + 4])
    {
      v := Load32([mem[a], mem[a + 1], mem[a + 2], mem[a + 3]]);
      assert mem[..][a..a + 4] == [mem[a], mem[a + 1], mem[a + 2], mem[a + 3]];
    }

    method GetFree(a: nat) returns (f: bool)
      requires 1 <= fb <= 4 && a + 4 + fb <= mem.Length
      ensures f == (LE(mem[..][a + 4..a + 4 + fb]) != 0)
    {
      f := LE(mem[a + 4..a + 4 + fb]) != 0;
      assert mem[..][a + 4..a + 4 + fb] == mem[a + 4..a + 4 + fb];
    }

    method Put(a: nat, t: seq<u8>)
      requires a + |t| <= mem.Length
      modifies mem
      ensures mem[..] == Splice(old(mem[..]), a, t)
    {
      forall i | 0 <= i < |t| { mem[a + i] := t[i]; }
    }

    method SetSize(a: nat, v: u32, ghost b: Blk, ghost next: u32)
      requires 1 <= fb <= 4 && HdrAt(mem[..], a, b, next, fb)
      modifies mem
      ensures HdrAt(mem[..], a, Blk(v, b.free), next, fb) && SameOutside(old(mem[..]), mem[..], a, a + HDR)
    {
      PutSize(mem[..], a, b, next, fb, v);
      Put(a, Store32(v));
    }

    method SetNext(a: nat, v: u32, ghost b: Blk, ghost next: u32)
      requires 1 <= fb <= 4 && HdrAt(mem[..], a, b, next, fb)
      modifies mem
      ensures HdrAt(mem[..], a, b, v, fb) && SameOutside(old(mem[..]), mem[..], a, a + HDR)
    {
      PutNext(mem[..], a, b, next, fb, v);
      Put(a + 8, Store32(v));
    }

    method SetFree(a: nat, f: u8, ghost b: Blk, ghost next: u32)
      requires 1 <= fb <= 4 && HdrAt(mem[..], a, b, next, fb)
      modifies mem
      ensures HdrAt(mem[..], a, Blk(b.size, f != 0), next, fb) && SameOutside(old(mem[..]), mem[..], a, a + HDR)
    {
      PutFlag(mem[..], a, b, next, fb, f);
      Put(a + 4, FlagBytes(f, fb));
    }

    method SetHeader(a: nat, size: u32, f: u8, next: u32)
      requires 1 <= fb <= 4 && a + HDR <= mem.Length
      modifies mem
      ensures HdrAt(mem[..], a, Blk(size, f != 0), next, fb) && SameOutside(old(mem[..]), mem[..], a, a + HDR)
    {
      NewHdrAt(mem[..], a, size, f, next, fb);
      Put(a, Store32(size));
      Put(a + 4, FlagBytes(f, fb));
      Put(a + 8, Store32(next));
    }

    // ----- allocating -----

    // The header writes of a split.
    method Split(a: nat, n: u32, size: u32, next: u32)
      requires 1 <= fb <= 4 && n as int + HDR <= size && a + HDR + size <= mem.Length
      requires base as int + mem.Length < 0x1_0000_0000
      requires HdrAt(mem[..], a, Blk(size, true), next, fb)
      modifies mem
      ensures SameOutside(old(mem[..]), mem[..], a, a + HDR + size)
      ensures HdrAt(mem[..], a, Blk(n, true), base as int + a + HDR + n, fb)
      ensures HdrAt(mem[..], a + HDR + n, Blk(size - n - HDR, true), next, fb)
    {
      var sa := a + HDR + n;
      ghost var m0 := mem[..];
      SetHeader(sa, size - n - HDR, 1, next);
      ghost var m1 := mem[..];
      HdrKept(m0, m1, sa, sa + HDR, a, Blk(size, true), next, fb);
      SetNext(a, base as int + sa, Blk(size, true), next);
      ghost var m2 := mem[..];
      SetSize(a, n, Blk(size, true), base as int + sa);
      SameTrans(m1, m2, mem[..], a, a + HDR, a, a + HDR, a, a + HDR);
      HdrKept(m1, mem[..], a, a + HDR, sa, Blk(size - n - HDR, true), next, fb);
      SameTrans(m0, m1, mem[..], sa, sa + HDR, a, a + HDR, a, a + HDR + size);
    }

    // The fields of block k.
    method Header(a: nat, ghost k: nat) returns (size: u32, f: bool, next: u32)
      requires Valid() && k < |bs| && a == Addr(bs, k)
      ensures size == bs[k].size && f == bs[k].free && next == NextOf(bs, k, base)
    {
      assert LinkAt(mem[..], bs, k, base, fb);
      size := GetWord(a);
      f := GetFree(a);
      next := GetWord(a + 8);
    }

    // The first free block of at least n bytes; 0 if there is none.
    method FindFit(n: u32) returns (cur: u32, ghost k: nat)
      requires Valid()
      ensures k == FirstFit(bs, n)
      ensures cur == if FirstFit(bs, n) < |bs| then base as int + Addr(bs, FirstFit(bs, n)) else 0
    {
      cur, k := base, 0;
      var guard := 0;
      assert Addr(bs, 0) == 0;
      while cur != 0
        invariant k <= |bs| && cur == (if k < |bs| then base as int + Addr(bs, k) else 0) && guard == k
        invariant forall j :: 0 <= j < k ==> !(bs[j].free && bs[j].size >= n)
        decreases |bs| - k
      {
        guard := guard + 1;
        FewBlocks();
        assert guard <= 100000;   // the guard of the kernel never fires
        var size, f, next := Header(cur - base, k);
        if f && size >= n { break; }
        cur, k := next, k + 1;
      }
      assert k == FirstFit(bs, n);
    }

    // At most 512 KiB of headers.
    lemma FewBlocks()
      requires Valid()
      ensures |bs| <= 43690
    {
      BlockBound(bs, |bs|);
    }

    method SplitTaken(a: nat, n: u32, size: u32, next: u32)
      requires 1 <= fb <= 4 && n as int + HDR <= size && a + HDR + size <= mem.Length
      requires base as int + mem.Length < 0x1_0000_0000
      requires HdrAt(mem[..], a, Blk(size, true), next, fb)
      modifies mem
      ensures SameOutside(old(mem[..]), mem[..], a, a + HDR + size)
      ensures HdrAt(mem[..], a, Blk(n, false), base as int + a + HDR + n, fb)
      ensures HdrAt(mem[..], a + HDR + n, Blk(size - n - HDR, true), next, fb)
    {
      ghost var m0 := mem[..];
      Split(a, n, size, next);
      ghost var m1 := mem[..];
      SetFree(a, 0, Blk(n, true), base as int + a + HDR + n);
      HdrKept(m1, mem[..], a, a + HDR, a + HDR + n, Blk(size - n - HDR, true), next, fb);
      SameTrans(m0, m1, mem[..], a, a + HDR + size, a, a + HDR, a, a + HDR + size);
    }

    method TakeSplit(a: nat, n: u32, size: u32, next: u32, ghost more: bool)
      requires 1 <= fb <= 4 && n as int + HDR <= size && a + HDR + size <= mem.Length
      requires base as int + mem.Length < 0x1_0000_0000
      requires HdrAt(mem[..], a, Blk(size, true), next, fb) && next == LastNext(a, HDR + size, more, base)
      modifies mem
      ensures SameOutside(old(mem[..]), mem[..], a, a + HDR + size)
      ensures HdrsIn(mem[..], a, [Blk(n, false), Blk(size - n - HDR, true)], more, base, fb)
    {
      SplitTaken(a, n, size, next);
      TwoHdrs(mem[..], a, Blk(n, false), Blk(size - n - HDR, true), more, base, fb, next);
    }

    method TakeWhole(a: nat, size: u32, next: u32, ghost more: bool)
      requires 1 <= fb <= 4 && a + HDR + size <= mem.Length
      requires HdrAt(mem[..], a, Blk(size, true), next, fb) && next == LastNext(a, HDR + size, more, base)
      modifies mem
      ensures SameOutside(old(mem[..]), mem[..], a, a + HDR + size)
      ensures HdrsIn(mem[..], a, [Blk(size, false)], more, base, fb)
    {
      SetFree(a, 0, Blk(size, true), next);
      OneHdr(mem[..], a, Blk(size, false), more, base, fb, next);
    }

    // The header writes of malloc at a free block of `size` bytes.
    method TakeHeader(a: nat, n: u32, size: u32, next: u32, ghost more: bool)
      requires 1 <= fb <= 4 && HDR <= slack && n <= size && a + HDR + size <= mem.Length
      requires base as int + mem.Length < 0x1_0000_0000
      requires HdrAt(mem[..], a, Blk(size, true), next, fb) && next == LastNext(a, HDR + size, more, base)
      modifies mem
      ensures SameOutside(old(mem[..]), mem[..], a, a + HDR + size)
      ensures HdrsIn(mem[..], a, Pieces(Blk(size, true), n, slack), more, base, fb)
    {
      if size - n > slack {
        TakeSplit(a, n, size, next, more);
      } else {
        TakeWhole(a, size, next, more);
      }
    }

    // Block i becomes the caller's.
    method TakeBlock(a: nat, n: u32, ghost i: nat)
      requires Valid() && i < |bs| && a == Addr(bs, i) && bs[i].free && n <= bs[i].size
      modifies this, mem
      ensures Valid() && bs == Taken(old(bs), i, n, slack)
      ensures SameOutside(old(mem[..]), mem[..], a, a + HDR + old(bs)[i].size)
    {
      ghost var m0 := mem[..];
      AddrGrows(bs, i, |bs|);
      NextIsLast(bs, i, base);
      var size, f, next := Header(a, i);
      assert LinkAt(mem[..], bs, i, base, fb);
      TakeHeader(a, n, size, next, |bs[i + 1..]| != 0);
      TakenChain(m0, mem[..], bs, i, n, slack, base, fb);
      TakenKeeps(bs, i, n, slack);
      bs := Taken(bs, i, n, slack);
    }

    /** The search and the split of malloc; 0 exactly if no free block is big enough. */
    method Allocate(n: u32) returns (p: u32)
      requires Valid()
      modifies this, mem
      ensures Valid() && (p == 0 <==> FirstFit(old(bs), n) == |old(bs)|)
      ensures p == 0 ==> bs == old(bs) && mem[..] == old(mem[..])
      ensures p != 0 ==> var i := FirstFit(old(bs), n);
                         bs == Taken(old(bs), i, n, slack) && p == base as int + Addr(old(bs), i) + HDR
      ensures PayloadsSame(old(mem[..]), mem[..], Live(old(bs)))
    {
      var cur;
      ghost var i;
      cur, i := FindFit(n);
      if cur == 0 { return 0; }
      TakeBlock(cur - base, n, i);
      TakenPayloads(old(mem[..]), mem[..], old(bs), i);
      AddrGrows(old(bs), i, |old(bs)|);
      p := cur + HDR;
    }

    // The search and the split, and what they do to the live blocks.
    method AllocateLive(n: u32) returns (p: u32, ghost got: nat)
      requires Ok()
      modifies this, mem
      ensures Ok() && (p == 0 <==> FirstFit(old(bs), n) == |old(bs)|) && (p == 0 ==> bs == old(bs))
      ensures p != 0 ==> base as int + HDR <= p && n <= got <= n as int + slack
      ensures p != 0 ==>
                && Live(bs) == Live(old(bs)) + {(p as int - base - HDR, got)}
                && (p as int - base - HDR, got) !in Live(old(bs))
      ensures PayloadsSame(old(mem[..]), mem[..], Live(old(bs)))
    {
      ghost var i := FirstFit(bs, n);
      p := Allocate(n);
      got := 0;
      if p != 0 {
        TakenKeeps(old(bs), i, n, slack);
        TakenNormal(old(bs), i, n, slack);
        got := bs[i].size;
        NotLive(old(bs), i, got);
      }
    }

    /** malloc of the kernel: a new block of at least size bytes; 0 exactly if size is 0 or no free
        block has room for size rounded up to 8. */
    method KernelMalloc(size: u32) returns (p: u32, ghost got: nat)
      requires Ok() && slack == HDR + 8
      modifies this, mem
      ensures Ok() && (p == 0 <==> size == 0 || FirstFit(old(bs), RoundUp(size, 8)) == |old(bs)|)
      ensures p == 0 ==> bs == old(bs)
      ensures p != 0 ==> base as int + HDR <= p && size <= got
      ensures p != 0 ==>
                && Live(bs) == Live(old(bs)) + {(p as int - base - HDR, got)}
                && (p as int - base - HDR, got) !in Live(old(bs))
      ensures PayloadsSame(old(mem[..]), mem[..], Live(old(bs)))
    {
      p, got := 0, 0;
      if size == 0 { return; }
      RoundUpIs(size, 8);
      if size > mem.Length {
        FitIsSmall(bs, RoundUp(size, 8));
        return;
      }
      var n: u32 := RoundUp(size, 8);
      if n > mem.Length - HDR {
        FitIsSmall(bs, n);
        return;
      }
      p, got := AllocateLive(n);
    }

    // (size + 15) & ~15 in 32 bits.
    static method UserSize(size: u32) returns (n: u32)
      ensures n == Wrapped(size) && (if size <= 0xFFFF_FFF0 then size <= n else n == 0)
    {
      var sum: int := size as int + 15;
      if sum >= 0x1_0000_0000 { sum := sum - 0x1_0000_0000; }
      RoundUpIs(size, 16);
      n := sum / 16 * 16;
    }

    /** malloc of the user library; sizes above 2^32 - 16 wrap to 0, and then the block is too small. */
    method UserMalloc(size: u32) returns (p: u32, ghost got: nat)
      requires Ok() && slack == HDR + 15
      modifies this, mem
      ensures Ok() && (p == 0 <==> size == 0 || FirstFit(old(bs), Wrapped(size)) == |old(bs)|)
      ensures p == 0 ==> bs == old(bs)
      ensures p != 0 ==> base as int + HDR <= p && (size <= got <==> size <= 0xFFFF_FFF0)
      ensures p != 0 ==>
                && Live(bs) == Live(old(bs)) + {(p as int - base - HDR, got)}
                && (p as int - base - HDR, got) !in Live(old(bs))
      ensures PayloadsSame(old(mem[..]), mem[..], Live(old(bs)))
    {
      p, got := 0, 0;
      if size == 0 { return; }
      var n := UserSize(size);
      p, got := AllocateLive(n);
    }

    // ----- freeing -----

    // Block k is marked free.
    method MarkFree(a: nat, ghost k: nat)
      requires Valid() && k < |bs| && a == Addr(bs, k)
      modifies this, mem
      ensures Valid() && bs == Freed(old(bs), k) && a == Addr(bs, k)
      ensures PayloadsSame(old(mem[..]), mem[..], Live(bs))
    {
      assert LinkAt(mem[..], bs, k, base, fb);
      SetFree(a, 1, bs[k], NextOf(bs, k, base));
      FreedChain(old(mem[..]), mem[..], bs, k, base, fb);
      bs := Freed(bs, k);
    }

    // Block k takes in the free block after it.
    method Merge(a: nat, ghost k: nat)
      requires Valid() && k + 1 < |bs| && a == Addr(bs, k) && bs[k].free && bs[k + 1].free
      modifies this, mem
      ensures Valid() && bs == Merged(old(bs), k)
      ensures PayloadsSame(old(mem[..]), mem[..], Live(bs))
    {
      ghost var m0 := mem[..];
      AddrGrows(bs, k, |bs|);
      AddrGrows(bs, k + 1, |bs|);
      var size, f, next := Header(a, k);
      var nsize, nf, nnext := Header(next - base, k + 1);
      assert LinkAt(mem[..], bs, k, base, fb);
      SetSize(a, size + HDR + nsize, bs[k], next);
      ghost var m1 := mem[..];
      SetNext(a, nnext, Blk(size + HDR + nsize, true), next);
      SameTrans(m0, m1, mem[..], a, a + HDR, a, a + HDR, a, a + HDR);
      MergedChain(m0, mem[..], bs, k, base, fb);
      MergedKeeps(bs, k);
      bs := Merged(bs, k);
    }

    /** heap_coalesce */
    method CoalesceAll()
      requires Valid()
      modifies this, mem
      ensures Valid() && bs == Coalesced(old(bs), 0) && PayloadsSame(old(mem[..]), mem[..], Live(old(bs)))
    {
      var cur, guard := base, 0;
      ghost var k := 0;
      FewBlocks();
      assert Addr(bs, 0) == 0;
      while true
        invariant Valid() && k < |bs| && cur == base as int + Addr(bs, k) && guard + |bs| - k == |old(bs)|
        invariant Coalesced(bs, k) == Coalesced(old(bs), 0) && Live(bs) == Live(old(bs))
        invariant PayloadsSame(old(mem[..]), mem[..], Live(old(bs)))
        decreases |bs| - k
      {
        var size, f, next := Header(cur - base, k);
        if next == 0 { break; }
        guard := guard + 1;
        assert guard <= 100000;   // the guard never fires
        var nsize, nf, nnext := Header(next - base, k + 1);
        if f && nf {
          ghost var m, b := mem[..], bs;
          Merge(cur - base, k);
          MergedKeeps(b, k);
          MergedAddr(b, k);
          PayloadsTrans(old(mem[..]), m, mem[..], Live(old(bs)));
        } else {
          cur, k := next, k + 1;
        }
      }
    }

    /** A heap between calls: no two neighbours are free. */
    ghost predicate Ok()
      reads this, mem
    {
      Valid() && Normal(bs)
    }

    /** free of the kernel: block k, if the pointer is to its payload; pointers outside the arena are ignored. */
    method KernelFree(p: u32, ghost k: nat)
      requires Ok()
      requires p != 0 && base <= (p as int - HDR) % 0x1_0000_0000 < base as int + mem.Length ==>
                 k < |bs| && !bs[k].free && p == base as int + Addr(bs, k) + HDR
      modifies this, mem
      ensures Ok() && PayloadsSame(old(mem[..]), mem[..], Live(bs))
      ensures if p != 0 && base <= (p as int - HDR) % 0x1_0000_0000 < base as int + mem.Length then
                bs == Coalesced(Freed(old(bs), k), 0) &&
                  Live(bs) == Live(old(bs)) - {(Addr(old(bs), k), old(bs)[k].size)}
              else bs == old(bs)
    {
      if p == 0 { return; }
      var blk: u32 := (p as int - HDR) % 0x1_0000_0000;
      if blk < base || blk as int >= base as int + mem.Length { return; }
      MarkFree(blk - base, k);
      ghost var m, b := mem[..], bs;
      CoalesceAll();
      FreedKeeps(old(bs), k);
      CoalescedKeeps(b, 0);
      CoalescedNormal(b, 0);
      PayloadsTrans(old(mem[..]), m, mem[..], Live(bs));
    }

    // The copy loop of realloc.
    static method CopyLoop(mem: array<u8>, dst: nat, src: nat, n: nat)
      requires src + n <= mem.Length && dst + n <= mem.Length && (src + n <= dst || dst + n <= src)
      modifies mem
      ensures SameOutside(old(mem[..]), mem[..], dst, dst + n)
      ensures mem[..][dst..dst + n] == old(mem[..])[src..src + n]
    {
      ghost var m := mem[..];
      for i := 0 to n
        invariant SameOutside(m, mem[..], dst, dst + n) && forall t :: dst <= t < dst + i ==>
                  mem[..][t] == m[t - dst + src]
      {
        assert mem[..][src + i] == m[src + i];
        mem[dst + i] := mem[src + i];
      }
    }

    // ... into the payload of block j.
    method Copy(dst: nat, src: nat, n: nat, ghost j: nat, ghost a: nat, ghost b: nat)
      requires src == a + HDR && dst == b + HDR && Valid() && j < |bs| && !bs[j].free && dst == Addr(bs, j) + HDR
      requires n <= bs[j].size
      requires src + n <= mem.Length && dst + n <= mem.Length && (src + n <= dst || dst + n <= src)
      modifies mem
      ensures Valid() && PayloadsSame(old(mem[..]), mem[..], Live(Freed(bs, j)))
      ensures Copied(old(mem[..]), mem[..], a, b, n)
    {
      ghost var m := mem[..];
      CopyLoop(mem, dst, src, n);
      SameTrans(m, mem[..], mem[..], dst, dst + n, dst, dst, dst, dst + bs[j].size);
      PayloadWrite(m, mem[..], bs, j, base, fb);
    }

    // Block e1 gets the contents of block e0.
    method CopyLive(p: u32, r: u32, ghost e0: (nat, nat), ghost e1: (nat, nat), n: nat)
      requires Ok() && e0 in Live(bs) && e1 in Live(bs) && e0 != e1
      requires p == base as int + e0.0 + HDR && r == base as int + e1.0 + HDR && n == e0.1 <= e1.1
      modifies mem
      ensures Ok() && PayloadsSame(old(mem[..]), mem[..], Live(bs) - {e1})
      ensures e1.0 + HDR + e1.1 <= mem.Length && Copied(old(mem[..]), mem[..], e0.0, e1.0, n)
    {
      ghost var j := LiveIndex(bs, 0, e1);
      LiveRange(bs, 0, e0);
      LiveRange(bs, 0, e1);
      LiveDisjoint(bs, 0, e0, e1);
      Copy(r - base, p - base, n, j, e0.0, e1.0);
      FreedKeeps(bs, j);
    }

    // ... and e0 is freed.
    method Move(p: u32, r: u32, ghost e0: (nat, nat), ghost e1: (nat, nat), n: nat)
      requires Ok() && e0 in Live(bs) && e1 in Live(bs) && e0 != e1
      requires p == base as int + e0.0 + HDR && r == base as int + e1.0 + HDR && n == e0.1 <= e1.1
      modifies this, mem
      ensures Ok() && Live(bs) == Live(old(bs)) - {e0} && PayloadsSame(old(mem[..]), mem[..], Live(bs) - {e1})
      ensures Copied(old(mem[..]), mem[..], e0.0, e1.0, n)
    {
      CopyLive(p, r, e0, e1, n);
      ghost var m := mem[..];
      FreeLive(p, e0);
      SamePayload(m, mem[..], Live(bs), e1, n);
      CopiedTrans(old(mem[..]), m, mem[..], e0.0, e1.0, e1.0, n);
      PayloadsTrans(old(mem[..]), m, mem[..], Live(bs) - {e1});
    }

    // free of a live block.
    method FreeLive(p: u32, ghost e: (nat, nat))
      requires Ok() && e in Live(bs) && p == base as int + e.0 + HDR
      modifies this, mem
      ensures Ok() && Live(bs) == Live(old(bs)) - {e} && PayloadsSame(old(mem[..]), mem[..], Live(bs))
    {
      ghost var k := LiveIndex(bs, 0, e);
      LiveRange(bs, 0, e);
      KernelFree(p, k);
    }

    // realloc of block k to a size that is not 0: it stays, or moves with its contents, or nothing changes.
    method ReallocBlock(p: u32, size: u32, ghost k: nat) returns (r: u32, ghost got: nat)
      requires Ok() && slack == HDR + 8 && k < |bs| && !bs[k].free && p == base as int + Addr(bs, k) + HDR && size != 0
      modifies this, mem
      ensures Ok()
      ensures r == 0 || r == p ==>
                bs == old(bs) && PayloadsSame(old(mem[..]), mem[..], Live(bs)) && (r == p <==> old(bs)[k].size >= size)
      ensures r != 0 && r != p ==>
                var e0, e1 := (Addr(old(bs), k), old(bs)[k].size), (r as int - base - HDR, got);
                && base as int + HDR <= r && size <= got && Live(bs) == Live(old(bs)) - {e0} + {e1}
                && PayloadsSame(old(mem[..]), mem[..], Live(old(bs)) - {e0})
                && Copied(old(mem[..]), mem[..], e0.0, e1.0, e0.1)
    {
      ghost var e0 := (Addr(bs, k), bs[k].size);
      LiveHas(bs, k);
      AddrGrows(bs, k, |bs|);
      var n, f, next := Header(p - HDR - base, k);
      got := 0;
      if n >= size { return p, got; }
      r, got := KernelMalloc(size);
      if r == 0 { return; }
      ghost var e1 := (r as int - base - HDR, got);
      ghost var m := mem[..];
      SamePayload(old(mem[..]), m, Live(old(bs)), e0, n);
      LiveDisjoint(bs, 0, e0, e1);
      Move(p, r, e0, e1, n);
      CopiedTrans(old(mem[..]), m, mem[..], e0.0, e0.0, e1.0, n);
      assert Live(bs) - {e1} == Live(old(bs)) - {e0};
      PayloadsTrans(old(mem[..]), m, mem[..], Live(old(bs)) - {e0});
    }

    /** realloc of the kernel: malloc for a null pointer, free for size 0; otherwise block k stays, or
        moves with its contents, or nothing changes. */
    method KernelRealloc(p: u32, size: u32, ghost k: nat) returns (r: u32, ghost got: nat)
      requires Ok() && slack == HDR + 8 && (p != 0 ==> k < |bs| && !bs[k].free && p == base as int + Addr(bs, k) + HDR)
      modifies this, mem
      ensures Ok()
      ensures p == 0 ==> (r == 0 <==> size == 0 || FirstFit(old(bs), RoundUp(size, 8)) == |old(bs)|)
      ensures p == 0 ==> PayloadsSame(old(mem[..]), mem[..], Live(old(bs))) && (r == 0 ==> bs == old(bs))
      ensures p == 0 && r != 0 ==>
                base as int + HDR <= r && size <= got && Live(bs) == Live(old(bs)) + {(r as int - base - HDR, got)}
      ensures p != 0 && size == 0 ==> r == 0 && Live(bs) == Live(old(bs)) - {(Addr(old(bs), k), old(bs)[k].size)}
      ensures p != 0 && (size == 0 || r == 0 || r == p) ==> PayloadsSame(old(mem[..]), mem[..], Live(bs))
      ensures p != 0 && size != 0 && (r == 0 || r == p) ==> bs == old(bs) && (r == p <==> old(bs)[k].size >= size)
      ensures p != 0 && r != 0 && r != p ==>
                var e0, e1 := (Addr(old(bs), k), old(bs)[k].size), (r as int - base - HDR, got);
                && base as int + HDR <= r && size <= got && Live(bs) == Live(old(bs)) - {e0} + {e1}
                && PayloadsSame(old(mem[..]), mem[..], Live(old(bs)) - {e0})
                && Copied(old(mem[..]), mem[..], e0.0, e1.0, e0.1)
    {
      if p == 0 {
        r, got := KernelMalloc(size);
      } else if size == 0 {
        LiveHas(bs, k);
        FreeLive(p, (Addr(bs, k), bs[k].size));
        r, got := 0, 0;
      } else {
        r, got := ReallocBlock(p, size, k);
      }
    }

    /** heap_get_stats: the bytes in free blocks, and the rest. */
    method Stats() returns (total: nat, used: nat, free: nat)
      requires Valid()
      ensures total == mem.Length && free == FreeBytes(bs) && used == UsedBytes(bs) && used + free == total
    {
      free := 0;
      var cur, guard := base, 0;
      ghost var k := 0;
      assert Addr(bs, 0) == 0 && bs[0..] == bs;
      while cur != 0
        invariant k <= |bs| && cur == (if k < |bs| then base as int + Addr(bs, k) else 0) && guard == k
        invariant free + FreeBytes(bs[k..]) == FreeBytes(bs)
        decreases |bs| - k
      {
        guard := guard + 1;
        FewBlocks();
        assert guard <= 100000;   // the guard never fires
        var size, f, next := Header(cur - base, k);
        FreeNext(bs, k);
        if f { free := free + size + HDR; }
        cur, k := next, k + 1;
      }
      BytesConserved(bs);
      total := mem.Length;
      used := mem.Length - free;
    }

    // The block before block k, or 0 if k is the first.
    method BlockBefore(b: u32, ghost k: nat) returns (c: u32)
      requires Valid() && k < |bs| && b == base as int + Addr(bs, k)
      ensures c == if k == 0 then 0 else base as int + Addr(bs, k - 1)
    {
      c := base;
      ghost var j := 0;
      assert Addr(bs, 0) == 0;
      while c != 0
        invariant j <= |bs| && c == (if j < |bs| then base as int + Addr(bs, j) else 0) && (j < k || k == 0)
        decreases |bs| - j
      {
        var size, f, next := Header(c - base, j);
        if j + 1 < k { AddrGrows(bs, j + 1, k); }
        if k < j + 1 < |bs| { AddrGrows(bs, k, j + 1); }
        if next == b { break; }
        c, j := next, j + 1;
      }
    }

    /** free of the user library: block k merges with the free neighbours it has. */
    method UserFree(p: u32, ghost k: nat)
      requires Ok() && (p != 0 ==> k < |bs| && !bs[k].free && p == base as int + Addr(bs, k) + HDR)
      modifies this, mem
      ensures Ok() && PayloadsSame(old(mem[..]), mem[..], Live(bs))
      ensures if p != 0 then
                && bs == Local(Freed(old(bs), k), k) == Coalesced(Freed(old(bs), k), 0)
                && Live(bs) == Live(old(bs)) - {(Addr(old(bs), k), old(bs)[k].size)}
              else bs == old(bs)
    {
      if p == 0 { return; }
      var a := p - HDR - base;
      MarkFree(a, k);
      ghost var m1 := mem[..];
      MergeForward(a, k);
      ghost var m2 := mem[..];
      MergeBackward(a, k);
      PayloadsTrans(old(mem[..]), m1, m2, Live(bs));
      PayloadsTrans(old(mem[..]), m2, mem[..], Live(bs));
      FreedKeeps(old(bs), k);
      LocalIsWhole(old(bs), k);
      CoalescedKeeps(Freed(old(bs), k), 0);
      CoalescedNormal(Freed(old(bs), k), 0);
    }

    method MergeForward(a: nat, ghost k: nat)
      requires Valid() && k < |bs| && a == Addr(bs, k) && bs[k].free
      modifies this, mem
      ensures Valid() && bs == (if k + 1 < |old(bs)| && old(bs)[k + 1].free then Merged(old(bs), k) else old(bs))
      ensures Live(bs) == Live(old(bs)) && PayloadsSame(old(mem[..]), mem[..], Live(bs)) && k < |bs| && a == Addr(bs, k)
      ensures bs[k].free
    {
      var size, f, next := Header(a, k);
      if next != 0 {
        var nsize, nf, nnext := Header(next - base, k + 1);
        if nf {
          Merge(a, k);
          MergedKeeps(old(bs), k);
          MergedAddr(old(bs), k);
        }
      }
    }

    method MergeBackward(a: nat, ghost k: nat)
      requires Valid() && k < |bs| && a == Addr(bs, k) && bs[k].free
      modifies this, mem
      ensures Valid() && bs == (if k > 0 && old(bs)[k - 1].free then Merged(old(bs), k - 1) else old(bs))
      ensures Live(bs) == Live(old(bs)) && PayloadsSame(old(mem[..]), mem[..], Live(bs))
    {
      AddrGrows(bs, k, |bs|);
      var c := BlockBefore(base + a, k);
      if c != 0 {
        var size, f, next := Header(c - base, k - 1);
        if f {
          Merge(c - base, k - 1);
          MergedKeeps(old(bs), k - 1);
        }
      }
    }
  }

  /** Bytes in free blocks and in blocks in use, headers included. */
  ghost function FreeBytes(bs: seq<Blk>): nat
  {
    if |bs| == 0 then 0 else (if bs[0].free then HDR + bs[0].size else 0) + FreeBytes(bs[1..])
  }

  ghost function UsedBytes(bs: seq<Blk>): nat
  {
    if |bs| == 0 then 0 else (if bs[0].free then 0 else HDR + bs[0].size) + UsedBytes(bs[1..])
  }

  /** Every byte of the arena is in a free block or in one in use. */
  lemma {:induction false} BytesConserved(bs: seq<Blk>)
    ensures FreeBytes(bs) + UsedBytes(bs) == Fill(bs)
  {
    if |bs| != 0 {
      FillCons(bs);
      BytesConserved(bs[1..]);
    }
  }

  lemma FreeNext(bs: seq<Blk>, k: nat)
    requires k < |bs|
    ensures FreeBytes(bs[k..]) == (if bs[k].free then HDR + bs[k].size else 0) + FreeBytes(bs[k + 1..])
  {
    assert bs[k..][1..] == bs[k + 1..];
  }

  /** The user library answers a request for 2^32 - 1 bytes, on its 256 KiB arena, with a small block. */
  method MallocWraps() returns (p: u32, ghost got: nat)
    ensures p != 0 && got < 0xFFFF_FFFF
  {
    var h := new Heap(0x4_0000, 0x1000, 4, HDR + 15);
    assert FirstFit(h.bs, 0) == 0;
    p, got := h.UserMalloc(0xFFFF_FFFF);
  }

  /** n rounded up to a multiple of m. */
  function RoundUp(n: nat, m: nat): nat
    requires m > 0
  {
    (n + (m - 1)) / m * m
  }

  lemma RoundUpIs(n: nat, m: nat)
    requires m == 8 || m == 16
    ensures n <= RoundUp(n, m) < n + m
    ensures n > 0xFFFF_FFF0 && n < 0x1_0000_0000 && m == 16 ==> RoundUp(n, m) == 0x1_0000_0000
  {
  }

  lemma NotLive(bs: seq<Blk>, i: nat, size: nat)
    requires i < |bs| && bs[i].free
    ensures (Addr(bs, i), size) !in Live(bs)
  {
    var e := (Addr(bs, i), size);
    if e in Live(bs) {
      FreedIs(bs, i);
      AddrSplit(bs, i);
      OneBlock(bs[i], Addr(bs, i));
      LiveApart(bs[..i], [bs[i]], bs[i + 1..], e);
    }
  }

  lemma FitIsSmall(bs: seq<Blk>, n: nat)
    requires n + HDR > Fill(bs)
    ensures FirstFit(bs, n) == |bs|
  {
    var i := FirstFit(bs, n);
    if i < |bs| { AddrGrows(bs, i, |bs|); }
  }

  // A live block is some block of the list.
  lemma {:induction false} LiveIndex(bs: seq<Blk>, off: nat, e: (nat, nat)) returns (k: nat)
    requires e in LiveFrom(bs, off)
    ensures k < |bs| && !bs[k].free && e == (off + Addr(bs, k), bs[k].size)
  {
    if !bs[0].free && e == (off, bs[0].size) {
      k := 0;
    } else {
      var j := LiveIndex(bs[1..], off + HDR + bs[0].size, e);
      k := j + 1;
      assert bs == [bs[0]] + bs[1..];
      AddrAppend([bs[0]], bs[1..], j);
      OneBlock(bs[0], 0);
    }
  }

  // Writes to the payload of block k.
  lemma PayloadWrite(m: seq<u8>, r: seq<u8>, bs: seq<Blk>, k: nat, base: u32, fb: nat)
    requires 1 <= fb <= 4 && Chain(m, bs, base, fb) && k < |bs|
    requires SameOutside(m, r, Addr(bs, k) + HDR, Addr(bs, k) + HDR + bs[k].size)
    ensures Chain(r, bs, base, fb) && PayloadsSame(m, r, Live(Freed(bs, k)))
  {
    var p, s, a, b := bs[..k], bs[k + 1..], Addr(bs, k), bs[k];
    FreedIs(bs, k);
    AddrSplit(bs, k);
    NextIsLast(bs, k, base);
    assert LinkAt(m, bs, k, base, fb);
    HdrKept(m, r, a + HDR, a + HDR + b.size, a, b, NextOf(bs, k, base), fb);
    OneHdr(r, a, b, |s| != 0, base, fb, NextOf(bs, k, base));
    OneBlock(b, a);
    OneBlock(Blk(b.size, true), a);
    ChainReplace(m, r, p, [b], [b], s, base, fb);
    PayloadsKept(m, r, p, [Blk(b.size, true)], s);
  }

  lemma SamePayload(m: seq<u8>, m': seq<u8>, live: set<(nat, nat)>, e: (nat, nat), n: nat)
    requires PayloadsSame(m, m', live) && e in live && n <= e.1 && e.0 + HDR + e.1 <= |m|
    ensures Copied(m, m', e.0, e.0, n)
  {
  }

  lemma CopiedTrans(m: seq<u8>, m1: seq<u8>, m2: seq<u8>, a: nat, b: nat, c: nat, n: nat)
    requires Copied(m, m1, a, b, n) && Copied(m1, m2, b, c, n)
    ensures Copied(m, m2, a, c, n)
  {
  }

  lemma PayloadsTrans(m: seq<u8>, m1: seq<u8>, m2: seq<u8>, live: set<(nat, nat)>)
    requires PayloadsSame(m, m1, live) && PayloadsSame(m1, m2, live)
    ensures PayloadsSame(m, m2, live)
  {
  }

  lemma MergedAddr(bs: seq<Blk>, k: nat)
    requires k + 1 < |bs|
    ensures Addr(Merged(bs, k), k) == Addr(bs, k)
  {
    MergedIs(bs, k);
    AddrUpTo(bs[..k], [bs[k], bs[k + 1]], bs[k + 2..], k);
    AddrUpTo(bs[..k], [Blk(bs[k].size + HDR + bs[k + 1].size, bs[k].free)], bs[k + 2..], k);
  }

  // The list and the other payloads after block k was marked free.
  lemma FreedChain(m: seq<u8>, r: seq<u8>, bs: seq<Blk>, k: nat, base: u32, fb: nat)
    requires 1 <= fb <= 4 && Chain(m, bs, base, fb) && k < |bs| && SameOutside(m, r, Addr(bs, k), Addr(bs, k) + HDR)
    requires NextOf(bs, k, base) < 0x1_0000_0000
    requires HdrAt(r, Addr(bs, k), Blk(bs[k].size, true), NextOf(bs, k, base), fb)
    ensures Chain(r, Freed(bs, k), base, fb) && Fill(Freed(bs, k)) == Fill(bs) && PayloadsSame(m, r, Live(Freed(bs, k)))
    ensures Addr(Freed(bs, k), k) == Addr(bs, k)
  {
    var p, s, f := bs[..k], bs[k + 1..], Blk(bs[k].size, true);
    FreedIs(bs, k);
    AddrSplit(bs, k);
    NextIsLast(bs, k, base);
    OneHdr(r, Addr(bs, k), f, |s| != 0, base, fb, NextOf(bs, k, base));
    OneBlock(bs[k], Fill(p));
    OneBlock(f, Fill(p));
    ChainReplace(m, r, p, [bs[k]], [f], s, base, fb);
    FillMid(p, [bs[k]], s);
    FillMid(p, [f], s);
    AddrUpTo(p, [f], s, k);
    AddrUpTo(p, [bs[k]], s, k);
    PayloadsKept(m, r, p, [f], s);
  }

  lemma MergedIs(bs: seq<Blk>, k: nat)
    requires k + 1 < |bs|
    ensures bs == bs[..k] + [bs[k], bs[k + 1]] + bs[k + 2..]
    ensures Merged(bs, k) == bs[..k] + [Blk(bs[k].size + HDR + bs[k + 1].size, bs[k].free)] + bs[k + 2..]
  {
  }

  // The list and the payloads after blocks k and k + 1 became one.
  lemma MergedChain(m: seq<u8>, r: seq<u8>, bs: seq<Blk>, k: nat, base: u32, fb: nat)
    requires 1 <= fb <= 4 && Chain(m, bs, base, fb) && k + 1 < |bs| && bs[k].free && bs[k + 1].free
    requires SameOutside(m, r, Addr(bs, k), Addr(bs, k) + HDR) && NextOf(bs, k + 1, base) < 0x1_0000_0000
    requires HdrAt(r, Addr(bs, k), Blk(bs[k].size + HDR + bs[k + 1].size, true), NextOf(bs, k + 1, base), fb)
    ensures Chain(r, Merged(bs, k), base, fb) && PayloadsSame(m, r, Live(Merged(bs, k)))
  {
    var p, s, x, y := bs[..k], bs[k + 2..], [bs[k], bs[k + 1]], Blk(bs[k].size + HDR + bs[k + 1].size, true);
    MergedIs(bs, k);
    AddrSplit(bs, k);
    TwoBlocks(bs[k], bs[k + 1], Fill(p));
    OneBlock(y, Fill(p));
    MergedNext(bs, k, base);
    OneHdr(r, Addr(bs, k), y, |s| != 0, base, fb, NextOf(bs, k + 1, base));
    ChainReplace(m, r, p, x, [y], s, base, fb);
    PayloadsKept(m, r, p, [y], s);
  }

  lemma MergedNext(bs: seq<Blk>, k: nat, base: u32)
    requires k + 1 < |bs|
    ensures NextOf(bs, k + 1, base) ==
              LastNext(Addr(bs, k), HDR + bs[k].size + HDR + bs[k + 1].size, |bs[k + 2..]| != 0, base)
  {
    assert Addr(bs, k + 1) == Addr(bs, k) + HDR + bs[k].size;
    assert Addr(bs, k + 2) == Addr(bs, k + 1) + HDR + bs[k + 1].size;
  }

  // Writes inside a free block touch no live payload.
  lemma TakenPayloads(m: seq<u8>, m': seq<u8>, bs: seq<Blk>, i: nat)
    requires i < |bs| && bs[i].free && SameOutside(m, m', Addr(bs, i), Addr(bs, i) + HDR + bs[i].size)
    ensures PayloadsSame(m, m', Live(bs))
  {
    FreedIs(bs, i);
    AddrSplit(bs, i);
    OneBlock(bs[i], Addr(bs, i));
    PayloadsKept(m, m', bs[..i], [bs[i]], bs[i + 1..]);
  }
}
