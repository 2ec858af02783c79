/** Block headers in the bytes of an arena. */
module Arena {
  import opened Words
  import opened Blocks

  /** The header of block b at offset a: size, flag of fb bytes, pointer to the next header. */
  ghost predicate HdrAt(m: seq<u8>, a: nat, b: Blk, next: u32, fb: nat)
    requires 1 <= fb <= 4
  {
    && a + HDR <= |m| && LE(m[a..a + 4]) == b.size && LE(m[a + 8..a + 12]) == next
    && (LE(m[a + 4..a + 4 + fb]) != 0) == b.free
  }

  /** The pointer from block k to the next; 0 at the end. */
  ghost function NextOf(bs: seq<Blk>, k: nat, base: nat): nat
    requires k < |bs|
  {
    if k + 1 < |bs| then base + Addr(bs, k + 1) else 0
  }

  /** The list of headers in memory is the list of blocks. */
  ghost predicate Chain(m: seq<u8>, bs: seq<Blk>, base: nat, fb: nat)
    requires 1 <= fb <= 4
  {
    forall k :: 0 <= k < |bs| ==> LinkAt(m, bs, k, base, fb)
  }

  ghost predicate LinkAt(m: seq<u8>, bs: seq<Blk>, k: nat, base: nat, fb: nat)
    requires 1 <= fb <= 4 && k < |bs|
  {
    NextOf(bs, k, base) < 0x1_0000_0000 && HdrAt(m, Addr(bs, k), bs[k], NextOf(bs, k, base), fb)
  }

  ghost predicate SameOutside(m: seq<u8>, m': seq<u8>, lo: nat, hi: nat)
  {
    |m'| == |m| && forall t :: 0 <= t < |m| && (t < lo || hi <= t) ==> m'[t] == m[t]
  }

  // ----- writing a field -----

  lemma SpliceSlice(m: seq<u8>, x: nat, t: seq<u8>, lo: nat, hi: nat)
    requires x + |t| <= |m| && lo <= hi <= |m| && (hi <= x || x + |t| <= lo)
    ensures Splice(m, x, t)[lo..hi] == m[lo..hi]
  {
  }

  lemma SpliceSelf(m: seq<u8>, x: nat, t: seq<u8>)
    requires x + |t| <= |m|
    ensures Splice(m, x, t)[x..x + |t|] == t
  {
  }

  lemma PutSize(m: seq<u8>, a: nat, b: Blk, next: u32, fb: nat, v: u32)
    requires 1 <= fb <= 4 && HdrAt(m, a, b, next, fb)
    ensures HdrAt(Splice(m, a, Store32(v)), a, Blk(v, b.free), next, fb)
  {
    SpliceSelf(m, a, Store32(v));
    SpliceSlice(m, a, Store32(v), a + 4, a + 4 + fb);
    SpliceSlice(m, a, Store32(v), a + 8, a + 12);
  }

  lemma PutNext(m: seq<u8>, a: nat, b: Blk, next: u32, fb: nat, v: u32)
    requires 1 <= fb <= 4 && HdrAt(m, a, b, next, fb)
    ensures HdrAt(Splice(m, a + 8, Store32(v)), a, b, v, fb)
  {
    SpliceSelf(m, a + 8, Store32(v));
    SpliceSlice(m, a + 8, Store32(v), a, a + 4);
    SpliceSlice(m, a + 8, Store32(v), a + 4, a + 4 + fb);
  }

  function FlagBytes(f: u8, fb: nat): (t: seq<u8>)
    requires 1 <= fb <= 4
    ensures |t| == fb && LE(t) == f
  {
    LEZeros(fb - 1);
    [f] + Zeros(fb - 1)
  }

  lemma PutFlag(m: seq<u8>, a: nat, b: Blk, next: u32, fb: nat, f: u8)
    requires 1 <= fb <= 4 && HdrAt(m, a, b, next, fb)
    ensures HdrAt(Splice(m, a + 4, FlagBytes(f, fb)), a, Blk(b.size, f != 0), next, fb)
  {
    SpliceSelf(m, a + 4, FlagBytes(f, fb));
    SpliceSlice(m, a + 4, FlagBytes(f, fb), a, a + 4);
    SpliceSlice(m, a + 4, FlagBytes(f, fb), a + 8, a + 12);
  }

  // A whole new header.
  function NewHdr(m: seq<u8>, a: nat, size: u32, f: u8, next: u32, fb: nat): (r: seq<u8>)
    requires a + HDR <= |m| && 1 <= fb <= 4
    ensures |r| == |m|
  {
    Splice(Splice(Splice(m, a, Store32(size)), a + 4, FlagBytes(f, fb)), a + 8, Store32(next))
  }

  lemma NewHdrAt(m: seq<u8>, a: nat, size: u32, f: u8, next: u32, fb: nat)
    requires a + HDR <= |m| && 1 <= fb <= 4
    ensures HdrAt(NewHdr(m, a, size, f, next, fb), a, Blk(size, f != 0), next, fb)
    ensures SameOutside(m, NewHdr(m, a, size, f, next, fb), a, a + HDR)
  {
    var m1 := Splice(m, a, Store32(size));
    var m2 := Splice(m1, a + 4, FlagBytes(f, fb));
    SpliceSelf(m, a, Store32(size));
    SpliceSlice(m1, a + 4, FlagBytes(f, fb), a, a + 4);
    SpliceSelf(m1, a + 4, FlagBytes(f, fb));
    SpliceSlice(m2, a + 8, Store32(next), a, a + 4);
    SpliceSlice(m2, a + 8, Store32(next), a + 4, a + 4 + fb);
    SpliceSelf(m2, a + 8, Store32(next));
  }

  lemma HdrKept(m: seq<u8>, m': seq<u8>, lo: nat, hi: nat, a: nat, b: Blk, next: u32, fb: nat)
    requires 1 <= fb <= 4 && HdrAt(m, a, b, next, fb) && SameOutside(m, m', lo, hi) && (a + HDR <= lo || hi <= a)
    ensures HdrAt(m', a, b, next, fb)
  {
    assert m'[a..a + 4] == m[a..a + 4] && m'[a + 8..a + 12] == m[a + 8..a + 12];
    assert m'[a + 4..a + 4 + fb] == m[a + 4..a + 4 + fb];
  }

  // ----- replacing a stretch of blocks -----

  /** The pointer out of block j of y, in a list p + y + s. */
  ghost function NextIn(off: nat, y: seq<Blk>, more: bool, j: nat, base: nat): nat
    requires j < |y|
  {
    if j + 1 < |y| then base + off + Addr(y, j + 1) else if more then base + off + Fill(y) else 0
  }

  lemma AddrMid(p: seq<Blk>, y: seq<Blk>, s: seq<Blk>, k: nat)
    requires |p| <= k <= |p| + |y|
    ensures Addr(p + y + s, k) == Fill(p) + Addr(y, k - |p|)
  {
    AddrAppend(p, y, k - |p|);
    AddrPrefix(p + y, s, k);
  }

  lemma NextMid(p: seq<Blk>, y: seq<Blk>, s: seq<Blk>, k: nat, base: nat)
    requires |p| <= k < |p| + |y|
    ensures NextOf(p + y + s, k, base) == NextIn(Fill(p), y, |s| != 0, k - |p|, base)
  {
    AddrMid(p, y, s, k + 1);
  }

  lemma LinkIs(m: seq<u8>, t: seq<Blk>, k: nat, base: nat, fb: nat, a: nat, b: Blk, next: nat)
    requires 1 <= fb <= 4 && k < |t| && Addr(t, k) == a && t[k] == b && NextOf(t, k, base) == next
    requires next < 0x1_0000_0000 && HdrAt(m, a, b, next, fb)
    ensures LinkAt(m, t, k, base, fb)
  {
  }

  ghost predicate HdrsIn(m: seq<u8>, off: nat, y: seq<Blk>, more: bool, base: nat, fb: nat)
    requires 1 <= fb <= 4
  {
    forall j :: 0 <= j < |y| ==>
      NextIn(off, y, more, j, base) < 0x1_0000_0000 &&
        HdrAt(m, off + Addr(y, j), y[j], NextIn(off, y, more, j, base), fb)
  }

  // The same header in another list.
  lemma LinkKept(m: seq<u8>, m': seq<u8>, lo: nat, hi: nat, r: seq<Blk>, i: nat, t: seq<Blk>, k: nat, base: nat,
      fb: nat)
    requires 1 <= fb <= 4 && i < |r| && k < |t| && LinkAt(m, r, i, base, fb) && SameOutside(m, m', lo, hi)
    requires t[k] == r[i] && Addr(t, k) == Addr(r, i) && NextOf(t, k, base) == NextOf(r, i, base)
    requires Addr(r, i) + HDR <= lo || hi <= Addr(r, i)
    ensures LinkAt(m', t, k, base, fb)
  {
    HdrKept(m, m', lo, hi, Addr(r, i), r[i], NextOf(r, i, base), fb);
  }

  // A block before the stretch.
  lemma Before(p: seq<Blk>, x: seq<Blk>, y: seq<Blk>, s: seq<Blk>, base: nat, k: nat)
    requires |x| != 0 && |y| != 0 && k < |p|
    ensures var r, t := p + x + s, p + y + s;
            t[k] == r[k] && Addr(t, k) == Addr(r, k) && NextOf(t, k, base) == NextOf(r, k, base) &&
              Addr(r, k) + HDR <= Fill(p)
  {
    AddrUpTo(p, x, s, k);
    AddrUpTo(p, y, s, k);
    AddrUpTo(p, x, s, k + 1);
    AddrUpTo(p, y, s, k + 1);
    AddrGrows(p, k, |p|);
  }

  // A block behind the stretch.
  lemma Behind(p: seq<Blk>, x: seq<Blk>, y: seq<Blk>, s: seq<Blk>, base: nat, j: nat)
    requires Fill(x) == Fill(y) && j < |s|
    ensures var r, t, i, k := p + x + s, p + y + s, |p| + |x| + j, |p| + |y| + j;
            t[k] == r[i] && Addr(t, k) == Addr(r, i) && NextOf(t, k, base) == NextOf(r, i, base) &&
              Fill(p) + Fill(x) <= Addr(r, i)
  {
    AddrBehind(p, x, y, s, j);
    AddrBehind(p, x, y, s, j + 1);
    FillAppend(p, x);
    AddrAppend(p + x, s, j);
  }

  lemma HdrOf(m: seq<u8>, off: nat, y: seq<Blk>, more: bool, base: nat, fb: nat, j: nat, a: nat, next: nat)
    requires 1 <= fb <= 4 && HdrsIn(m, off, y, more, base, fb) && j < |y|
    requires a == off + Addr(y, j) && next == NextIn(off, y, more, j, base)
    ensures next < 0x1_0000_0000 && HdrAt(m, a, y[j], next, fb)
  {
  }

  // A block of the stretch.
  lemma Inside(m: seq<u8>, p: seq<Blk>, y: seq<Blk>, s: seq<Blk>, base: nat, fb: nat, k: nat)
    requires 1 <= fb <= 4 && HdrsIn(m, Fill(p), y, |s| != 0, base, fb) && |p| <= k < |p| + |y|
    ensures LinkAt(m, p + y + s, k, base, fb)
  {
    var j := k - |p|;
    var a, next := Fill(p) + Addr(y, j), NextIn(Fill(p), y, |s| != 0, j, base);
    AddrMid(p, y, s, k);
    NextMid(p, y, s, k, base);
    HdrOf(m, Fill(p), y, |s| != 0, base, fb, j, a, next);
    LinkIs(m, p + y + s, k, base, fb, a, y[j], next);
  }

  lemma LinkBehind(m: seq<u8>, m': seq<u8>, p: seq<Blk>, x: seq<Blk>, y: seq<Blk>, s: seq<Blk>, base: nat, fb: nat,
      k: nat)
    requires 1 <= fb <= 4 && Chain(m, p + x + s, base, fb) && Fill(x) == Fill(y) && |p| + |y| <= k < |p| + |y| + |s|
    requires SameOutside(m, m', Fill(p), Fill(p) + Fill(x))
    ensures LinkAt(m', p + y + s, k, base, fb)
  {
    var j := k - |p| - |y|;
    Behind(p, x, y, s, base, j);
    LinkKept(m, m', Fill(p), Fill(p) + Fill(x), p + x + s, |p| + |x| + j, p + y + s, k, base, fb);
  }

  lemma LinkBefore(m: seq<u8>, m': seq<u8>, p: seq<Blk>, x: seq<Blk>, y: seq<Blk>, s: seq<Blk>, base: nat, fb: nat,
      k: nat)
    requires 1 <= fb <= 4 && Chain(m, p + x + s, base, fb) && |x| != 0 && |y| != 0 && k < |p|
    requires SameOutside(m, m', Fill(p), Fill(p) + Fill(x))
    ensures LinkAt(m', p + y + s, k, base, fb)
  {
    Before(p, x, y, s, base, k);
    LinkKept(m, m', Fill(p), Fill(p) + Fill(x), p + x + s, k, p + y + s, k, base, fb);
  }

  lemma LinkReplaced(m: seq<u8>, m': seq<u8>, p: seq<Blk>, x: seq<Blk>, y: seq<Blk>, s: seq<Blk>, base: nat, fb: nat,
      k: nat)
    requires 1 <= fb <= 4 && Chain(m, p + x + s, base, fb) && Fill(x) == Fill(y) && |x| != 0 && |y| != 0
    requires k < |p| + |y| + |s|
    requires SameOutside(m, m', Fill(p), Fill(p) + Fill(x)) && HdrsIn(m', Fill(p), y, |s| != 0, base, fb)
    ensures LinkAt(m', p + y + s, k, base, fb)
  {
    if k < |p| {
      LinkBefore(m, m', p, x, y, s, base, fb, k);
    } else if k < |p| + |y| {
      Inside(m', p, y, s, base, fb, k);
    } else {
      LinkBehind(m, m', p, x, y, s, base, fb, k);
    }
  }

  /** The list stays right when a stretch of blocks is replaced by one of the same total size. */
  lemma ChainReplace(m: seq<u8>, m': seq<u8>, p: seq<Blk>, x: seq<Blk>, y: seq<Blk>, s: seq<Blk>, base: nat, fb: nat)
    requires 1 <= fb <= 4 && Chain(m, p + x + s, base, fb) && Fill(x) == Fill(y) && |x| != 0 && |y| != 0
    requires SameOutside(m, m', Fill(p), Fill(p) + Fill(x)) && HdrsIn(m', Fill(p), y, |s| != 0, base, fb)
    ensures Chain(m', p + y + s, base, fb)
  {
    forall k | 0 <= k < |p + y + s|
      ensures LinkAt(m', p + y + s, k, base, fb)
    {
      LinkReplaced(m, m', p, x, y, s, base, fb, k);
    }
  }

  // ----- live payloads -----

  /** The bytes of these payloads are the same. */
  ghost predicate PayloadsSame(m: seq<u8>, m': seq<u8>, live: set<(nat, nat)>)
  {
    |m'| == |m| && forall e, t | e in live && e.0 + HDR <= t < e.0 + HDR + e.1 && t < |m| :: m'[t] == m[t]
  }

  /** A stretch without live blocks holds no live bytes. */
  lemma LiveApart(p: seq<Blk>, x: seq<Blk>, s: seq<Blk>, e: (nat, nat))
    requires LiveFrom(x, Fill(p)) == {} && e in Live(p + x + s)
    ensures e.0 + HDR + e.1 <= Fill(p) || Fill(p) + Fill(x) <= e.0
  {
    LiveMid(p, x, s);
    if e in LiveFrom(p, 0) {
      LiveRange(p, 0, e);
    } else {
      LiveRange(s, Fill(p) + Fill(x), e);
    }
  }

  lemma PayloadsKept(m: seq<u8>, m': seq<u8>, p: seq<Blk>, x: seq<Blk>, s: seq<Blk>)
    requires LiveFrom(x, Fill(p)) == {} && SameOutside(m, m', Fill(p), Fill(p) + Fill(x))
    ensures PayloadsSame(m, m', Live(p + x + s))
  {
    forall e, t | e in Live(p + x + s) && e.0 + HDR <= t < e.0 + HDR + e.1 && t < |m|
      ensures m'[t] == m[t]
    {
      LiveApart(p, x, s, e);
    }
  }
}
