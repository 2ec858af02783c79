/** The Poly1305 authenticator of section 2.5 of RFC 8439: the specification over the
    integers, and the 5 x 26-bit limb implementation with delayed carries. */
module Poly1305 {
  import opened Words
  import opened Arith

  // ----- specification -----

  const P: int := 0x3_ffff_ffff_ffff_ffff_ffff_ffff_ffff_fffb  // 2^130 - 5
  const CLAMP: nat := 0x0fff_fffc_0fff_fffc_0fff_fffc_0fff_ffff

  ghost function Absorb(acc: nat, n: nat, r: nat): nat
  {
    ((acc + n) * r) % P
  }

  /** The accumulator after the remaining message: each 16-byte block, and the shorter
      last one, is read little-endian with a 1 appended above its top byte. */
  ghost function Accumulate(acc: nat, msg: seq<u8>, r: nat): nat
    decreases |msg|
  {
    if |msg| == 0 then acc
    else
      var n := if |msg| < 16 then |msg| else 16;
      Accumulate(Absorb(acc, LE(msg[..n]) + Pow256(n), r), msg[n..], r)
  }

  /** The two halves of a one-time key: r, clamped, and s. */
  ghost predicate Keyed(key: seq<u8>, r: nat, s: nat)
    requires |key| == 32
  {
    r == And(LE(key[..16]), CLAMP) && s == LE(key[16..])
  }

  ghost function TagOf(acc: nat, s: nat): nat
  {
    (acc + s) % 0x1_0000_0000_0000_0000_0000_0000_0000_0000
  }

  ghost function Mac(msg: seq<u8>, key: seq<u8>): nat
    requires |key| == 32
  {
    TagOf(Accumulate(0, msg, And(LE(key[..16]), CLAMP)), LE(key[16..]))
  }

  lemma MacOf(msg: seq<u8>, key: seq<u8>, r: nat, s: nat)
    requires |key| == 32 && Keyed(key, r, s)
    ensures Mac(msg, key) == TagOf(Accumulate(0, msg, r), s)
  {
  }

  /** The accumulator after the whole 16-byte blocks of m, each with `top` added. */
  ghost function AbsorbBlocks(acc: nat, m: seq<u8>, top: nat, r: nat): nat
    decreases |m|
  {
    if |m| < 16 then acc else AbsorbBlocks(Absorb(acc, LE(m[..16]) + top, r), m[16..], top, r)
  }

  // ----- limbs -----

  function Val5(h0: int, h1: int, h2: int, h3: int, h4: int): int
  {
    h0 + 0x400_0000 * h1 + 0x10_0000_0000_0000 * h2
    + 0x4000_0000_0000_0000_0000 * h3 + 0x100_0000_0000_0000_0000_0000_0000 * h4
  }

  function Words4(t: seq<u32>): (v: nat)
    requires |t| == 4
    ensures v < 0x1_0000_0000_0000_0000_0000_0000_0000_0000
  {
    var t0: nat, t1: nat, t2: nat, t3: nat := t[0], t[1], t[2], t[3];
    t0 + 0x1_0000_0000 * t1 + 0x1_0000_0000_0000_0000 * t2 + 0x1_0000_0000_0000_0000_0000_0000 * t3
  }

  /** lo | (hi << k) in 32 bits, with up = 2^k. */
  function Straddle(lo: nat, hi: u32, up: nat): nat
  {
    Or(lo, hi * up % 0x1_0000_0000)
  }

  lemma StraddleIsSum(lo: nat, hi: u32, k: nat, down: nat, up: nat)
    requires Pow2(k) == up && down * up == 0x1_0000_0000 && lo < up
    ensures Straddle(lo, hi, up) == lo + up * (hi % down)
  {
    ShiftWraps(hi, down, up);
    OrDisjoint(lo, hi % down, k, up);
  }

  // Shifting left in 32 bits drops the high bits.
  lemma ShiftWraps(hi: nat, down: nat, up: nat)
    requires down * up == 0x1_0000_0000
    ensures hi * up % 0x1_0000_0000 == hi % down * up
  {
    var q, r := hi / down, hi % down;
    assert (q * down + r) * up == q * (down * up) + r * up;
    MulBound(r, down - 1, up, up);
    assert (down - 1) * up == down * up - up;
    DivModUnique(hi * up, 0x1_0000_0000, q, r * up);
  }

  /** x & 0x3ffffff. */
  function Mask26(x: nat): (r: nat)
    ensures r == x % 0x400_0000
  {
    Pow2Values();
    ShlIsProduct(x / 0x400_0000, 26);
    AndOnes(x % 0x400_0000, x / 0x400_0000, 26);
    And(x, 0x3ff_ffff)
  }

  /** (uint32_t)d & 0x3ffffff. */
  function Low26(d: u64): (r: u32)
    ensures r == d % 0x400_0000
  {
    ModOfMod(d, 0x400_0000, 0x40);
    Mask26(d % 0x1_0000_0000)
  }

  // A mask below 2^26 sees only the low limb.
  lemma AndMask26(x: nat, m: nat)
    requires m < 0x400_0000
    ensures And(x, m) == And(x % 0x400_0000, m) <= m
  {
    Pow2Values();
    ShlIsProduct(x / 0x400_0000, 26);
    ShlIsProduct(0, 26);
    AndSplit(x % 0x400_0000, x / 0x400_0000, m, 0, 26);
    AndBound(x, m);
  }

  /** The 26-bit limbs of four 32-bit words, before masking. */
  function Split(t: seq<u32>): (l: seq<nat>)
    requires |t| == 4
    ensures |l| == 5
  {
    [t[0], Straddle(t[0] / 0x400_0000, t[1], 0x40), Straddle(t[1] / 0x10_0000, t[2], 0x1000),
     Straddle(t[2] / 0x4000, t[3], 0x4_0000), t[3] / 0x100]
  }

  lemma SplitValue(t: seq<u32>)
    requires |t| == 4
    ensures var l := Split(t);
            Val5(l[0] % 0x400_0000, l[1] % 0x400_0000, l[2] % 0x400_0000, l[3] % 0x400_0000, l[4]) == Words4(t)
  {
    Pow2Values();
    StraddleIsSum(t[0] / 0x400_0000, t[1], 6, 0x400_0000, 0x40);
    StraddleIsSum(t[1] / 0x10_0000, t[2], 12, 0x10_0000, 0x1000);
    StraddleIsSum(t[2] / 0x4000, t[3], 18, 0x4000, 0x4_0000);
    SplitLinear(t[0], t[1], t[2], t[3]);
  }

  lemma SplitLinear(t0: u32, t1: u32, t2: u32, t3: u32)
    ensures var a1 := (t0 / 0x400_0000 + 0x40 * (t1 % 0x400_0000)) % 0x400_0000;
            var a2 := (t1 / 0x10_0000 + 0x1000 * (t2 % 0x10_0000)) % 0x400_0000;
            var a3 := (t2 / 0x4000 + 0x4_0000 * (t3 % 0x4000)) % 0x400_0000;
            Val5(t0 % 0x400_0000, a1, a2, a3, t3 / 0x100) == Words4([t0, t1, t2, t3])
  {
    MiddleLimb(t0 / 0x400_0000, t1, 0x10_0000, 0x40, 0x40);
    MiddleLimb(t1 / 0x10_0000, t2, 0x4000, 0x40, 0x1000);
    MiddleLimb(t2 / 0x4000, t3, 0x100, 0x40, 0x4_0000);
  }

  lemma MiddleLimb(lo: nat, hi: nat, e: nat, f: nat, up: nat)
    requires lo < up && up * e == 0x400_0000 && f > 0 && e > 0 && e * f > 0
    ensures (lo + up * (hi % (e * f))) % 0x400_0000 == lo + up * (hi % e)
  {
    var h := hi % (e * f);
    ModOfMod(hi, e, f);
    var q, r := h / e, h % e;
    assert up * (e * q + r) == q * (up * e) + up * r;
    MulBound(r, e - 1, up, up);
    assert (e - 1) * up == up * e - up && r * up == up * r;
    DivModUnique(lo + up * h, 0x400_0000, q, lo + up * r);
  }

  // ----- one block -----

  lemma RowProduct(x: int, v: int, r0: int, r1: int, r2: int, r3: int, r4: int)
    requires v == Val5(r0, r1, r2, r3, r4)
    ensures x * v == Val5(x * r0, x * r1, x * r2, x * r3, x * r4)
  {
    var x1, x2 := 0x400_0000, 0x10_0000_0000_0000;
    var x3, x4 := 0x4000_0000_0000_0000_0000, 0x100_0000_0000_0000_0000_0000_0000;
    assert x * (x1 * r1) == x1 * (x * r1) && x * (x2 * r2) == x2 * (x * r2);
    assert x * (x3 * r3) == x3 * (x * r3) && x * (x4 * r4) == x4 * (x * r4);
  }

  lemma ProductRows(h: int, h0: int, h1: int, h2: int, h3: int, h4: int, r: int, r0: int, r1: int, r2: int, r3: int,
      r4: int)
    requires h == Val5(h0, h1, h2, h3, h4) && r == Val5(r0, r1, r2, r3, r4)
    ensures h * r
         == Val5(Val5(h0 * r0, h0 * r1, h0 * r2, h0 * r3, h0 * r4), Val5(h1 * r0, h1 * r1, h1 * r2, h1 * r3, h1 * r4),
                 Val5(h2 * r0, h2 * r1, h2 * r2, h2 * r3, h2 * r4), Val5(h3 * r0, h3 * r1, h3 * r2, h3 * r3, h3 * r4),
                 Val5(h4 * r0, h4 * r1, h4 * r2, h4 * r3, h4 * r4))
  {
    calc {
      h * r;
      { Swap(h, r); }
      r * h;
      { RowProduct(r, h, h0, h1, h2, h3, h4); }
      Val5(r * h0, r * h1, r * h2, r * h3, r * h4);
      { Swap(r, h0); Swap(r, h1); Swap(r, h2); Swap(r, h3); Swap(r, h4); }
      Val5(h0 * r, h1 * r, h2 * r, h3 * r, h4 * r);
    }
    RowProduct(h0, r, r0, r1, r2, r3, r4);
    RowProduct(h1, r, r0, r1, r2, r3, r4);
    RowProduct(h2, r, r0, r1, r2, r3, r4);
    RowProduct(h3, r, r0, r1, r2, r3, r4);
    RowProduct(h4, r, r0, r1, r2, r3, r4);
  }

  lemma Swap(x: int, y: int)
    ensures x * y == y * x
  {
  }

  lemma Times5(x: int, y: int)
    ensures x * (y * 5) == 5 * (x * y)
  {
  }

  // Limb-wise multiplication, with 2^130 folded to 5, is multiplication modulo 2^130 - 5.
  lemma ProductModP(h: int, h0: int, h1: int, h2: int, h3: int, h4: int, r: int, r0: int, r1: int, r2: int, r3: int,
      r4: int)
    returns (q: int)
    requires h == Val5(h0, h1, h2, h3, h4) && r == Val5(r0, r1, r2, r3, r4)
    ensures h * r
         == Val5(h0 * r0 + h1 * (r4 * 5) + h2 * (r3 * 5) + h3 * (r2 * 5) + h4 * (r1 * 5),
                 h0 * r1 + h1 * r0 + h2 * (r4 * 5) + h3 * (r3 * 5) + h4 * (r2 * 5),
                 h0 * r2 + h1 * r1 + h2 * r0 + h3 * (r4 * 5) + h4 * (r3 * 5),
                 h0 * r3 + h1 * r2 + h2 * r1 + h3 * r0 + h4 * (r4 * 5),
                 h0 * r4 + h1 * r3 + h2 * r2 + h3 * r1 + h4 * r0) + q * P
  {
    ProductRows(h, h0, h1, h2, h3, h4, r, r0, r1, r2, r3, r4);
    Times5(h1, r4); Times5(h2, r3); Times5(h3, r2); Times5(h4, r1);
    Times5(h2, r4); Times5(h3, r3); Times5(h4, r2);
    Times5(h3, r4); Times5(h4, r3); Times5(h4, r4);
    q := Fold(h0 * r0, h0 * r1, h0 * r2, h0 * r3, h0 * r4, h1 * r0, h1 * r1, h1 * r2, h1 * r3, h1 * r4,
              h2 * r0, h2 * r1, h2 * r2, h2 * r3, h2 * r4, h3 * r0, h3 * r1, h3 * r2, h3 * r3, h3 * r4,
              h4 * r0, h4 * r1, h4 * r2, h4 * r3, h4 * r4);
  }

  // The linear part of ProductModP: pij stands for the product of limb i and limb j.
  lemma Fold(p00: int, p01: int, p02: int, p03: int, p04: int, p10: int, p11: int, p12: int, p13: int, p14: int,
             p20: int, p21: int, p22: int, p23: int, p24: int, p30: int, p31: int, p32: int, p33: int, p34: int,
             p40: int, p41: int, p42: int, p43: int, p44: int)
    returns (q: int)
    ensures Val5(Val5(p00, p01, p02, p03, p04), Val5(p10, p11, p12, p13, p14), Val5(p20, p21, p22, p23, p24),
                 Val5(p30, p31, p32, p33, p34), Val5(p40, p41, p42, p43, p44))
         == Val5(p00 + 5 * p14 + 5 * p23 + 5 * p32 + 5 * p41, p01 + p10 + 5 * p24 + 5 * p33 + 5 * p42,
                 p02 + p11 + p20 + 5 * p34 + 5 * p43, p03 + p12 + p21 + p30 + 5 * p44,
                 p04 + p13 + p22 + p31 + p40) + q * P
  {
    // the coefficients of 2^130 and above
    q := Val5(p14 + p23 + p32 + p41, p24 + p33 + p42, p34 + p43, p44, 0);
  }

  ghost predicate RBound(r0: int, r1: int, r2: int, r3: int, r4: int)
  {
    0 <= r0 <= 0x3ff_ffff && 0 <= r1 <= 0x3ff_ff03 && 0 <= r2 <= 0x3ff_c0ff && 0 <= r3 <= 0x3f0_3fff &&
      0 <= r4 <= 0xf_ffff
  }

  ghost predicate HBound(h0: int, h1: int, h2: int, h3: int, h4: int)
  {
    0 <= h0 < 0x400_0000 && 0 <= h1 < 0x400_0040 && 0 <= h2 < 0x400_0000 && 0 <= h3 < 0x400_0000 && 0 <= h4 < 0x400_0000
  }

  // Five products of limbs stay far below 2^64.
  lemma ColumnBound(a0: nat, a1: nat, a2: nat, a3: nat, a4: nat, b0: nat, b1: nat, b2: nat, b3: nat, b4: nat, k: nat)
    requires a0 < 0x800_0040 && a1 < 0x800_0040 && a2 < 0x800_0040 && a3 < 0x800_0040 && a4 < 0x800_0040
    requires b0 + b1 + b2 + b3 + b4 <= k
    ensures 0 <= a0 * b0 + a1 * b1 + a2 * b2 + a3 * b3 + a4 * b4 <= 0x800_0040 * k
  {
    MulBound(a0, 0x800_0040, b0, b0);
    MulBound(a1, 0x800_0040, b1, b1);
    MulBound(a2, 0x800_0040, b2, b2);
    MulBound(a3, 0x800_0040, b3, b3);
    MulBound(a4, 0x800_0040, b4, b4);
  }

  ghost predicate ColumnBounds(d0: nat, d1: nat, d2: nat, d3: nat, d4: nat)
  {
    d0 <= 0x800_0040 * 0x4080_0000 && d1 <= 0x800_0040 * 0x3080_0000 && d2 <= 0x800_0040 * 0x2080_0000
    && d3 <= 0x800_0040 * 0x1080_0000 && d4 <= 0x800_0040 * 0x1010_0000
  }

  // The carry chain keeps the value modulo 2^130 - 5.
  lemma CarryChain(d0: nat, d1: nat, d2: nat, d3: nat, d4: nat, c1: nat, c2: nat, c3: nat, c4: nat, c5: nat, g: nat)
    requires c1 == d0 / 0x400_0000 && c2 == (d1 + c1) / 0x400_0000 && c3 == (d2 + c2) / 0x400_0000
    requires c4 == (d3 + c3) / 0x400_0000 && c5 == (d4 + c4) / 0x400_0000 && g == d0 % 0x400_0000 + c5 * 5
    ensures Val5(g % 0x400_0000, (d1 + c1) % 0x400_0000 + g / 0x400_0000, (d2 + c2) % 0x400_0000,
              (d3 + c3) % 0x400_0000,
                 (d4 + c4) % 0x400_0000) + c5 * P == Val5(d0, d1, d2, d3, d4)
  {
  }

  lemma LEWord(a: seq<u8>, b: seq<u8>)
    requires |a| == 4
    ensures LE(a + b) == LE(a) + 0x1_0000_0000 * LE(b)
  {
    assert Pow256(4) == 0x1_0000_0000;
    LEAppend(a, b);
  }

  lemma LE16(m: seq<u8>)
    requires |m| == 16
    ensures LE(m) == Words4([Load32(m[0..4]), Load32(m[4..8]), Load32(m[8..12]), Load32(m[12..16])])
  {
    var b1, b2, b3 := m[4..], m[8..], m[12..];
    assert m == m[0..4] + b1 && b1 == m[4..8] + b2 && b2 == m[8..12] + b3 && b3 == m[12..16];
    LEWord(m[0..4], b1);
    LEWord(m[4..8], b2);
    LEWord(m[8..12], b3);
  }

  lemma AbsorbStep(a: nat, m: seq<u8>, o: nat, top: nat, r: nat)
    requires o + 16 <= |m|
    ensures AbsorbBlocks(a, m[o..], top, r) == AbsorbBlocks(Absorb(a, LE(m[o..][..16]) + top, r), m[o+16..], top, r)
  {
    assert m[o..][16..] == m[o+16..];
  }

  lemma AbsorbResidue(acc: nat, n: nat, x: nat, r: nat, v: nat, q: int)
    requires x == acc + n && v + q * P == x * r
    ensures v % P == Absorb(acc % P, n, r)
  {
    ModShift(v, q, P);
    ModAdd(acc, acc % P, n, n, P);
    ModMulLeft(x, acc % P + n, r, P);
  }

  // Clamping limb by limb clamps the whole 128-bit number.
  lemma ClampLimbs(a0: nat, a1: nat, a2: nat, a3: nat, a4: nat)
    requires a0 < 0x400_0000 && a1 < 0x400_0000 && a2 < 0x400_0000 && a3 < 0x400_0000
    ensures And(Val5(a0, a1, a2, a3, a4), CLAMP)
         == Val5(And(a0, 0x3ff_ffff), And(a1, 0x3ff_ff03), And(a2, 0x3ff_c0ff), And(a3, 0x3f0_3fff), And(a4, 0x0f_ffff))
  {
    AndLimb(a3, a4, 0x3f0_3fff, 0x0f_ffff);
    AndLimb(a2, a3 + 0x400_0000 * a4, 0x3ff_c0ff, 0x3f0_3fff + 0x400_0000 * 0x0f_ffff);
    AndLimb(a1, a2 + 0x400_0000 * (a3 + 0x400_0000 * a4), 0x3ff_ff03,
            0x3ff_c0ff + 0x400_0000 * (0x3f0_3fff + 0x400_0000 * 0x0f_ffff));
    AndLimb(a0, a1 + 0x400_0000 * (a2 + 0x400_0000 * (a3 + 0x400_0000 * a4)), 0x3ff_ffff,
            0x3ff_ff03 + 0x400_0000 * (0x3ff_c0ff + 0x400_0000 * (0x3f0_3fff + 0x400_0000 * 0x0f_ffff)));
  }

  lemma AndLimb(x: nat, y: nat, m: nat, n: nat)
    requires x < 0x400_0000 && m < 0x400_0000
    ensures And(x + 0x400_0000 * y, m + 0x400_0000 * n) == And(x, m) + 0x400_0000 * And(y, n)
  {
    Pow2Values();
    ShlIsProduct(y, 26);
    ShlIsProduct(n, 26);
    ShlIsProduct(And(y, n), 26);
    AndSplit(x, y, m, n, 26);
  }

  lemma ClampedKey(key: seq<u8>, l: seq<nat>)
    requires |key| == 32 && l == Split([Load32(key[0..4]), Load32(key[4..8]), Load32(key[8..12]), Load32(key[12..16])])
    ensures RBound(And(l[0], 0x3ff_ffff), And(l[1], 0x3ff_ff03), And(l[2], 0x3ff_c0ff), And(l[3], 0x3f0_3fff),
              And(l[4], 0x0f_ffff))
    ensures Val5(And(l[0], 0x3ff_ffff), And(l[1], 0x3ff_ff03), And(l[2], 0x3ff_c0ff), And(l[3], 0x3f0_3fff),
              And(l[4], 0x0f_ffff))
         == And(LE(key[..16]), CLAMP)
  {
    var a := key[..16];
    assert a[0..4] == key[0..4] && a[4..8] == key[4..8] && a[8..12] == key[8..12] && a[12..16] == key[12..16];
    LE16(a);
    SplitValue([Load32(key[0..4]), Load32(key[4..8]), Load32(key[8..12]), Load32(key[12..16])]);
    ClampLimbs(l[0] % 0x400_0000, l[1] % 0x400_0000, l[2] % 0x400_0000, l[3] % 0x400_0000, l[4]);
    AndMask26(l[0], 0x3ff_ffff);
    AndMask26(l[1], 0x3ff_ff03);
    AndMask26(l[2], 0x3ff_c0ff);
    AndMask26(l[3], 0x3f0_3fff);
    AndMask26(l[4], 0x0f_ffff);
  }

  /** The limbs of r, clamped. */
  method ClampedLimbs(key: seq<u8>) returns (r: seq<u32>)
    requires |key| == 32
    ensures |r| == 5 && RBound(r[0], r[1], r[2], r[3], r[4])
    ensures Val5(r[0], r[1], r[2], r[3], r[4]) == And(LE(key[..16]), CLAMP)
  {
    var l := Split([Load32(key[0..4]), Load32(key[4..8]), Load32(key[8..12]), Load32(key[12..16])]);
    ClampedKey(key, l);
    var r0: u32, r1: u32, r2: u32 := And(l[0], 0x3ff_ffff), And(l[1], 0x3ff_ff03), And(l[2], 0x3ff_c0ff);
    var r3: u32, r4: u32 := And(l[3], 0x3f0_3fff), And(l[4], 0x0f_ffff);
    r := [r0, r1, r2, r3, r4];
  }

  method PadWords(key: seq<u8>) returns (w: seq<u32>)
    requires |key| == 32
    ensures |w| == 4 && Words4(w) == LE(key[16..])
  {
    ghost var b := key[16..];
    assert b[0..4] == key[16..20] && b[4..8] == key[20..24] && b[8..12] == key[24..28] && b[12..16] == key[28..32];
    LE16(b);
    w := [Load32(key[16..20]), Load32(key[20..24]), Load32(key[24..28]), Load32(key[28..32])];
  }

  /** struct poly1305_state. */
  class State {
    var r: seq<u32>
    var h: seq<u32>
    var pad: seq<u32>

    ghost predicate Valid()
      reads this
    {
      |r| == 5 && |h| == 5 && |pad| == 4 && RBound(r[0], r[1], r[2], r[3], r[4]) && HBound(h[0], h[1], h[2], h[3], h[4])
    }

    ghost function R(): nat
      reads this
      requires Valid()
    {
      Val5(r[0], r[1], r[2], r[3], r[4])
    }

    ghost function H(): nat
      reads this
      requires Valid()
    {
      Val5(h[0], h[1], h[2], h[3], h[4])
    }

    ghost function Pad(): nat
      reads this
      requires Valid()
    {
      Words4(pad)
    }

    /** poly1305_init */
    constructor (key: seq<u8>)
      requires |key| == 32
      ensures Valid() && H() == 0
      ensures Keyed(key, R(), Pad())
    {
      var limbs := ClampedLimbs(key);
      var words := PadWords(key);
      r, h, pad := limbs, [0, 0, 0, 0, 0], words;
    }

    /** poly1305_blocks */
    method Blocks(m: seq<u8>, hibit: u32)
      requires Valid() && (hibit == 0 || hibit == 0x100_0000)
      modifies this`h
      ensures Valid()
      ensures H() % P == AbsorbBlocks(old(H()) % P, m, 0x100_0000_0000_0000_0000_0000_0000 * hibit, R())
    {
      var r0, r1, r2, r3, r4 := r[0], r[1], r[2], r[3], r[4];
      var h0, h1, h2, h3, h4 := h[0], h[1], h[2], h[3], h[4];
      var s1: u32, s2: u32, s3: u32, s4: u32 := r1 * 5, r2 * 5, r3 * 5, r4 * 5;
      var o: nat, bytes: nat := 0, |m|;
      ghost var top, acc0, rr := 0x100_0000_0000_0000_0000_0000_0000 * hibit, H() % P, R();
      ghost var a := acc0;
      assert m[0..] == m;
      while bytes >= 16
        invariant o + bytes == |m|
        invariant HBound(h0, h1, h2, h3, h4)
        invariant a == Val5(h0, h1, h2, h3, h4) % P
        invariant AbsorbBlocks(acc0, m, top, rr) == AbsorbBlocks(a, m[o..], top, rr)
      {
        AbsorbStep(a, m, o, top, rr);
        ghost var acc, n := Val5(h0, h1, h2, h3, h4), LE(m[o..][..16]) + top;
        h0, h1, h2, h3, h4 := Block(h0, h1, h2, h3, h4, r0, r1, r2, r3, r4, s1, s2, s3, s4, m[o..][..16], hibit,
                                    acc, n, rr);
        a := Absorb(a, n, rr);
        o, bytes := o + 16, bytes - 16;
      }
      h := [h0, h1, h2, h3, h4];
    }

    /** poly1305_finish */
    method Finish() returns (tag: seq<u8>)
      requires Valid()
      ensures |tag| == 16 && LE(tag) == TagOf(H() % P, Pad())
    {
      ghost var q, k;
      var h0, h1, h2, h3, h4;
      h0, h1, h2, h3, h4, q := FinalCarry(h);
      h0, h1, h2, h3, h4 := Select(h0, h1, h2, h3, h4);
      ghost var v: nat := Val5(h0, h1, h2, h3, h4);
      Canonical(H(), v, q);
      var w0, w1, w2, w3 := Repack(h0, h1, h2, h3, h4);
      var w;
      w, k := AddPad([w0, w1, w2, w3], pad);
      TagValue(v, Pad(), Words4(w), k + h4 / 0x100_0000);
      tag := StoreWords(w);
    }
  }

  // The four words of the tag, stored little-endian.
  method StoreWords(w: seq<u32>) returns (tag: seq<u8>)
    requires |w| == 4
    ensures |tag| == 16 && LE(tag) == Words4(w) < 0x1_0000_0000_0000_0000_0000_0000_0000_0000
  {
    var b0, b1, b2, b3 := Store32(w[0]), Store32(w[1]), Store32(w[2]), Store32(w[3]);
    LEWord(b0, b1 + (b2 + b3));
    LEWord(b1, b2 + b3);
    LEWord(b2, b3);
    tag := b0 + (b1 + (b2 + b3));
  }

  lemma TagValue(v: nat, s: nat, t: nat, k: int)
    requires v + s == t + k * 0x1_0000_0000_0000_0000_0000_0000_0000_0000
    requires t < 0x1_0000_0000_0000_0000_0000_0000_0000_0000
    ensures t == TagOf(v, s)
  {
    DivModUnique(v + s, 0x1_0000_0000_0000_0000_0000_0000_0000_0000, k, t);
  }

  lemma Canonical(h: nat, v: nat, q: int)
    requires 0 <= v < P && (v + q * P == h || v + P + q * P == h)
    ensures v == h % P
  {
    if v + q * P == h { DivModUnique(h, P, q, v); } else { DivModUnique(h, P, q + 1, v); }
  }

  // One turn of the loop in poly1305_blocks: h = (h + block) * r, partially reduced.
  method Block(h0: u32, h1: u32, h2: u32, h3: u32, h4: u32, r0: u32, r1: u32, r2: u32, r3: u32, r4: u32,
               s1: u32, s2: u32, s3: u32, s4: u32, m: seq<u8>, hibit: u32, ghost acc: nat, ghost n: nat, ghost r: nat)
    returns (g0: u32, g1: u32, g2: u32, g3: u32, g4: u32)
    requires HBound(h0, h1, h2, h3, h4) && |m| == 16 && (hibit == 0 || hibit == 0x100_0000)
    requires RBound(r0, r1, r2, r3, r4) && s1 == r1 * 5 && s2 == r2 * 5 && s3 == r3 * 5 && s4 == r4 * 5
    requires acc == Val5(h0, h1, h2, h3, h4) && r == Val5(r0, r1, r2, r3, r4)
    requires n == LE(m) + 0x100_0000_0000_0000_0000_0000_0000 * hibit
    ensures HBound(g0, g1, g2, g3, g4)
    ensures Val5(g0, g1, g2, g3, g4) % P == Absorb(acc % P, n, r)
  {
    g0, g1, g2, g3, g4 := AddBlock(h0, h1, h2, h3, h4, m, hibit);
    g0, g1, g2, g3, g4 := MulCarry(g0, g1, g2, g3, g4, r0, r1, r2, r3, r4, s1, s2, s3, s4, acc, n, r);
  }

  lemma OrHibit(t: nat, hibit: nat)
    requires t < 0x100_0000 && (hibit == 0 || hibit == 0x100_0000)
    ensures Or(t, hibit) == t + hibit
  {
    Pow2Values();
    if hibit != 0 { OrDisjoint(t, 1, 24, 0x100_0000); }
  }

  // h += the 26-bit limbs of the block
  method AddBlock(h0: u32, h1: u32, h2: u32, h3: u32, h4: u32, m: seq<u8>, hibit: u32)
    returns (a0: u32, a1: u32, a2: u32, a3: u32, a4: u32)
    requires HBound(h0, h1, h2, h3, h4) && |m| == 16 && (hibit == 0 || hibit == 0x100_0000)
    ensures a0 < 0x800_0040 && a1 < 0x800_0040 && a2 < 0x800_0040 && a3 < 0x800_0040 && a4 < 0x800_0040
    ensures Val5(a0, a1, a2, a3, a4)
         == Val5(h0, h1, h2, h3, h4) + LE(m) + 0x100_0000_0000_0000_0000_0000_0000 * hibit
  {
    var t0, t1, t2, t3 := Load32(m[0..4]), Load32(m[4..8]), Load32(m[8..12]), Load32(m[12..16]);
    LE16(m);
    SplitValue([t0, t1, t2, t3]);
    a0 := h0 + Mask26(t0);
    a1 := h1 + Mask26(Straddle(t0 / 0x400_0000, t1, 0x40));
    a2 := h2 + Mask26(Straddle(t1 / 0x10_0000, t2, 0x1000));
    a3 := h3 + Mask26(Straddle(t2 / 0x4000, t3, 0x4_0000));
    OrHibit(t3 / 0x100, hibit);
    a4 := h4 + Or(t3 / 0x100, hibit);
  }

  // h *= r, with one pass of carries
  method MulCarry(h0: u32, h1: u32, h2: u32, h3: u32, h4: u32, r0: u32, r1: u32, r2: u32, r3: u32, r4: u32,
                  s1: u32, s2: u32, s3: u32, s4: u32, ghost acc: nat, ghost n: nat, ghost r: nat)
    returns (g0: u32, g1: u32, g2: u32, g3: u32, g4: u32)
    requires h0 < 0x800_0040 && h1 < 0x800_0040 && h2 < 0x800_0040 && h3 < 0x800_0040 && h4 < 0x800_0040
    requires RBound(r0, r1, r2, r3, r4) && s1 == r1 * 5 && s2 == r2 * 5 && s3 == r3 * 5 && s4 == r4 * 5
    requires acc + n == Val5(h0, h1, h2, h3, h4) && r == Val5(r0, r1, r2, r3, r4)
    ensures HBound(g0, g1, g2, g3, g4)
    ensures Val5(g0, g1, g2, g3, g4) % P == Absorb(acc % P, n, r)
  {
    ColumnBound(h0, h1, h2, h3, h4, r0, s4, s3, s2, s1, 0x4080_0000);
    ColumnBound(h0, h1, h2, h3, h4, r1, r0, s4, s3, s2, 0x3080_0000);
    ColumnBound(h0, h1, h2, h3, h4, r2, r1, r0, s4, s3, 0x2080_0000);
    ColumnBound(h0, h1, h2, h3, h4, r3, r2, r1, r0, s4, 0x1080_0000);
    ColumnBound(h0, h1, h2, h3, h4, r4, r3, r2, r1, r0, 0x1010_0000);
    var d0: u64 := h0 * r0 + h1 * s4 + h2 * s3 + h3 * s2 + h4 * s1;
    var d1: u64 := h0 * r1 + h1 * r0 + h2 * s4 + h3 * s3 + h4 * s2;
    var d2: u64 := h0 * r2 + h1 * r1 + h2 * r0 + h3 * s4 + h4 * s3;
    var d3: u64 := h0 * r3 + h1 * r2 + h2 * r1 + h3 * r0 + h4 * s4;
    var d4: u64 := h0 * r4 + h1 * r3 + h2 * r2 + h3 * r1 + h4 * r0;
    ghost var q: int;
    g0, g1, g2, g3, g4, q := Carry(d0, d1, d2, d3, d4);
    ProductResidue(h0, h1, h2, h3, h4, r, r0, r1, r2, r3, r4, acc, n, Val5(g0, g1, g2, g3, g4), q);
  }

  lemma ProductResidue(h0: nat, h1: nat, h2: nat, h3: nat, h4: nat, r: nat, r0: nat, r1: nat, r2: nat, r3: nat, r4: nat,
                       acc: nat, n: nat, v: nat, q: int)
    requires acc + n == Val5(h0, h1, h2, h3, h4) && r == Val5(r0, r1, r2, r3, r4)
    requires v + q * P
          == Val5(h0 * r0 + h1 * (r4 * 5) + h2 * (r3 * 5) + h3 * (r2 * 5) + h4 * (r1 * 5),
                  h0 * r1 + h1 * r0 + h2 * (r4 * 5) + h3 * (r3 * 5) + h4 * (r2 * 5),
                  h0 * r2 + h1 * r1 + h2 * r0 + h3 * (r4 * 5) + h4 * (r3 * 5),
                  h0 * r3 + h1 * r2 + h2 * r1 + h3 * r0 + h4 * (r4 * 5),
                  h0 * r4 + h1 * r3 + h2 * r2 + h3 * r1 + h4 * r0)
    ensures v % P == Absorb(acc % P, n, r)
  {
    var x := Val5(h0, h1, h2, h3, h4);
    var k := ProductModP(x, h0, h1, h2, h3, h4, r, r0, r1, r2, r3, r4);
    assert v + (q + k) * P == x * r;
    AbsorbResidue(acc, n, x, r, v, q + k);
  }

  method Carry(d0: u64, d1': u64, d2': u64, d3': u64, d4': u64)
    returns (h0: u32, h1: u32, h2: u32, h3: u32, h4: u32, ghost c5: nat)
    requires ColumnBounds(d0, d1', d2', d3', d4')
    ensures HBound(h0, h1, h2, h3, h4)
    ensures Val5(h0, h1, h2, h3, h4) + c5 * P == Val5(d0, d1', d2', d3', d4')
  {
    var c: u32 := d0 / 0x400_0000;
    h0 := Low26(d0);
    ghost var c1 := c;
    var d1: u64 := d1' + c;
    c := d1 / 0x400_0000;
    h1 := Low26(d1);
    ghost var c2 := c;
    var d2: u64 := d2' + c;
    c := d2 / 0x400_0000;
    h2 := Low26(d2);
    ghost var c3 := c;
    var d3: u64 := d3' + c;
    c := d3 / 0x400_0000;
    h3 := Low26(d3);
    ghost var c4 := c;
    var d4: u64 := d4' + c;
    c := d4 / 0x400_0000;
    h4 := Low26(d4);
    c5 := c;
    h0 := h0 + c * 5;
    ghost var g := h0;
    c := h0 / 0x400_0000;
    h0 := Mask26(h0);
    h1 := h1 + c;
    CarryChain(d0, d1', d2', d3', d4', c1, c2, c3, c4, c5, g);
  }

  // ----- the tag -----

  // One more carry pass brings every limb below 2^26.
  method FinalCarry(h: seq<u32>) returns (h0: u32, h1: u32, h2: u32, h3: u32, h4: u32, ghost q: int)
    requires |h| == 5 && HBound(h[0], h[1], h[2], h[3], h[4])
    ensures h0 < 0x400_0000 && h1 < 0x400_0000 && h2 < 0x400_0000 && h3 < 0x400_0000 && h4 < 0x400_0000
    ensures Val5(h0, h1, h2, h3, h4) + q * P == Val5(h[0], h[1], h[2], h[3], h[4])
  {
    h0, h1, h2, h3, h4 := h[0], h[1], h[2], h[3], h[4];
    var c: u32 := h1 / 0x400_0000;
    h1 := Mask26(h1);
    assert c == 0 || (c == 1 && h1 < 0x40);
    h2 := h2 + c;
    c := h2 / 0x400_0000;
    h2 := Mask26(h2);
    assert c == 0 || (c == 1 && h1 < 0x40);
    h3 := h3 + c;
    c := h3 / 0x400_0000;
    h3 := Mask26(h3);
    assert c == 0 || (c == 1 && h1 < 0x40);
    h4 := h4 + c;
    c := h4 / 0x400_0000;
    h4 := Mask26(h4);
    assert c == 0 || (c == 1 && h1 < 0x40);
    q := c;
    h0 := h0 + c * 5;
    c := h0 / 0x400_0000;
    h0 := Mask26(h0);
    h1 := h1 + c;
  }

  /** (h & ~mask) | (g & mask), for a mask of all ones or all zeros. */
  function Pick(h: u32, g: u32, mask: u32): (r: u32)
    requires mask == 0 || mask == 0xffff_ffff
    ensures r == if mask == 0 then h else g
  {
    Pow2Values();
    AndAll(h, 32);
    AndAll(g, 32);
    Or(And(h, 0xffff_ffff - mask), And(g, mask))
  }

  /** h4 + c - (1 << 26) in 32 bits: the top bit tells whether it went below zero. */
  function TopLimb(x: nat): (g: u32)
    requires x <= 0x400_0000
    ensures if x < 0x400_0000 then g >= 0x8000_0000 else g == 0
  {
    (x - 0x400_0000) % 0x1_0000_0000
  }

  /** (g4 >> 31) - 1 */
  function NoBorrowMask(g: u32): (mask: u32)
    ensures mask == if g >= 0x8000_0000 then 0 else 0xffff_ffff
  {
    (g / 0x8000_0000 - 1) % 0x1_0000_0000
  }

  // Subtract 2^130 - 5 unless that would go below zero, without branching.
  method Select(a0: u32, a1: u32, a2: u32, a3: u32, a4: u32) returns (h0: u32, h1: u32, h2: u32, h3: u32, h4: u32)
    requires a0 < 0x400_0000 && a1 < 0x400_0000 && a2 < 0x400_0000 && a3 < 0x400_0000 && a4 < 0x400_0000
    ensures h0 < 0x400_0000 && h1 < 0x400_0000 && h2 < 0x400_0000 && h3 < 0x400_0000 && h4 < 0x400_0000
    ensures Val5(h0, h1, h2, h3, h4) < P
    ensures Val5(h0, h1, h2, h3, h4) == Val5(a0, a1, a2, a3, a4) ||
              Val5(h0, h1, h2, h3, h4) == Val5(a0, a1, a2, a3, a4) - P
  {
    var g0: u32 := a0 + 5;
    var c: u32 := g0 / 0x400_0000;
    g0 := Mask26(g0);
    var g1: u32 := a1 + c;
    c := g1 / 0x400_0000;
    g1 := Mask26(g1);
    var g2: u32 := a2 + c;
    c := g2 / 0x400_0000;
    g2 := Mask26(g2);
    var g3: u32 := a3 + c;
    c := g3 / 0x400_0000;
    g3 := Mask26(g3);
    ghost var over := a4 + c;
    assert Val5(g0, g1, g2, g3, over) == Val5(a0, a1, a2, a3, a4) + 5;
    var g4 := TopLimb(a4 + c);
    var mask: u32 := NoBorrowMask(g4);
    h0, h1 := Pick(a0, g0, mask), Pick(a1, g1, mask);
    h2, h3, h4 := Pick(a2, g2, mask), Pick(a3, g3, mask), Pick(a4, g4, mask);
  }

  // 26-bit limbs to 32-bit words, dropping everything above 2^128.
  method Repack(h0: u32, h1: u32, h2: u32, h3: u32, h4: u32) returns (w0: u32, w1: u32, w2: u32, w3: u32)
    requires h0 < 0x400_0000 && h1 < 0x400_0000 && h2 < 0x400_0000 && h3 < 0x400_0000 && h4 < 0x400_0000
    ensures Val5(h0, h1, h2, h3, h4) ==
              Words4([w0, w1, w2, w3]) + (h4 / 0x100_0000) * 0x1_0000_0000_0000_0000_0000_0000_0000_0000
  {
    Pow2Values();
    StraddleIsSum(h0, h1, 26, 0x40, 0x400_0000);
    StraddleIsSum(h1 / 0x40, h2, 20, 0x1000, 0x10_0000);
    StraddleIsSum(h2 / 0x1000, h3, 14, 0x4_0000, 0x4000);
    StraddleIsSum(h3 / 0x4_0000, h4, 8, 0x100_0000, 0x100);
    w0 := Straddle(h0, h1, 0x400_0000);
    w1 := Straddle(h1 / 0x40, h2, 0x10_0000);
    w2 := Straddle(h2 / 0x1000, h3, 0x4000);
    w3 := Straddle(h3 / 0x4_0000, h4, 0x100);
  }

  // 128-bit addition, dropping the last carry.
  method AddPad(h: seq<u32>, pad: seq<u32>) returns (w: seq<u32>, ghost k: int)
    requires |h| == 4 && |pad| == 4
    ensures |w| == 4 && Words4(h) + Words4(pad) == Words4(w) + k * 0x1_0000_0000_0000_0000_0000_0000_0000_0000
  {
    var f: u64 := h[0] as int + pad[0];
    var w0: u32 := f % 0x1_0000_0000;
    f := h[1] as int + pad[1] + f / 0x1_0000_0000;
    var w1: u32 := f % 0x1_0000_0000;
    f := h[2] as int + pad[2] + f / 0x1_0000_0000;
    var w2: u32 := f % 0x1_0000_0000;
    f := h[3] as int + pad[3] + f / 0x1_0000_0000;
    var w3: u32 := f % 0x1_0000_0000;
    w := [w0, w1, w2, w3];
    k := f / 0x1_0000_0000;
  }

  /** poly1305: for every key and message, the tag of section 2.5 of RFC 8439. */
  method Authenticate(msg: seq<u8>, key: seq<u8>) returns (tag: seq<u8>)
    requires |key| == 32
    ensures |tag| == 16 && LE(tag) == Mac(msg, key)
  {
    var st := new State(key);
    ghost var r, s, acc := st.R(), st.Pad(), 0;
    MacOf(msg, key, r, s);
    var i: nat := 0;
    assert msg[0..] == msg;
    while i + 16 <= |msg|
      invariant fresh(st) && st.Valid() && i <= |msg| && st.R() == r && st.Pad() == s
      invariant acc == st.H() % P
      invariant Accumulate(0, msg, r) == Accumulate(acc, msg[i..], r)
    {
      st.Blocks(msg[i..i+16], 0x100_0000);
      FullBlock(acc, msg, i, r);
      acc := st.H() % P;
      i := i + 16;
    }
    if i < |msg| {
      var buf := LastBlock(msg[i..], acc, r);
      st.Blocks(buf, 0);
    } else {
      assert msg[i..] == [];
    }
    tag := st.Finish();
  }

  lemma FullBlock(acc: nat, msg: seq<u8>, i: nat, r: nat)
    requires i + 16 <= |msg|
    ensures Accumulate(acc, msg[i..], r)
         == Accumulate(AbsorbBlocks(acc, msg[i..i+16], 0x100_0000_0000_0000_0000_0000_0000 * 0x100_0000, r),
           msg[i+16..], r)
  {
    var b := msg[i..i+16];
    assert msg[i..][..16] == b == b[..16] && msg[i..][16..] == msg[i+16..];
    assert Pow256(16) == 0x1_0000_0000_0000_0000_0000_0000_0000_0000 by { assert Pow256(8) == 0x1_0000_0000_0000_0000; }
  }

  // The last, short block: a 1 after the message, then zeros.
  method LastBlock(m: seq<u8>, ghost acc: nat, ghost r: nat) returns (buf: seq<u8>)
    requires 0 < |m| < 16
    ensures |buf| == 16 && Accumulate(acc, m, r) == AbsorbBlocks(acc, buf, 0, r)
  {
    buf := m + [1] + Zeros(15 - |m|);
    PaddedValue(m, buf);
    assert m[..|m|] == m && m[|m|..] == [] && buf[..16] == buf && buf[16..] == [];
  }

  lemma PaddedValue(m: seq<u8>, buf: seq<u8>)
    requires |m| < 16 && buf == m + [1] + Zeros(15 - |m|)
    ensures LE(buf) == LE(m) + Pow256(|m|)
  {
    LEPadZeros(m + [1], 15 - |m|);
    LEPadOne(m);
  }

  lemma LEPadZeros(a: seq<u8>, n: nat)
    ensures LE(a + Zeros(n)) == LE(a)
  {
    LEAppend(a, Zeros(n));
    LEZeros(n);
    assert Pow256(|a|) * 0 == 0;
  }

  lemma LEPadOne(a: seq<u8>)
    ensures LE(a + [1]) == LE(a) + Pow256(|a|)
  {
    var b: seq<u8> := [1];
    assert LE(b) == 1 by { assert LE(b[1..]) == 0; }
    LEAppend(a, b);
    assert Pow256(|a|) * 1 == Pow256(|a|);
  }
}
