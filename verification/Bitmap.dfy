/** Bits in bytes. */
module Bitmap {
  import opened Words

  lemma {:induction false} PowerBit(m: nat, k: nat)
    ensures TestBit(Pow2(m), k) == (k == m)
  {
    if m == 0 {
      if k != 0 { ZeroBit(k - 1); }
    } else if k != 0 {
      PowerBit(m - 1, k - 1);
    }
  }

  lemma {:induction false} SomeBit(x: nat) returns (k: nat)
    requires x != 0
    ensures TestBit(x, k)
  {
    if x % 2 == 1 {
      k := 0;
    } else {
      k := SomeBit(x / 2);
      k := k + 1;
    }
  }

  // All bits below n but bit m.
  lemma {:induction false} ComplementBit(n: nat, m: nat, k: nat)
    requires m < n && k < n
    ensures Pow2(m) <= Pow2(n) - 1 && TestBit(Pow2(n) - 1 - Pow2(m), k) == (k != m)
  {
    if n > 1 && m != 0 {
      ComplementBit(n - 1, m - 1, if k == 0 then 0 else k - 1);
      assert (Pow2(n) - 1 - Pow2(m)) / 2 == Pow2(n - 1) - 1 - Pow2(m - 1);
    } else if m == 0 && k != 0 {
      OnesBit(n - 1, k - 1);
      assert (Pow2(n) - 1 - Pow2(0)) / 2 == Pow2(n - 1) - 1;
    }
  }

  lemma {:induction false} OnesBit(n: nat, k: nat)
    requires k < n
    ensures TestBit(Pow2(n) - 1, k)
  {
    if k != 0 {
      OnesBit(n - 1, k - 1);
      assert (Pow2(n) - 1) / 2 == Pow2(n - 1) - 1;
    }
  }

  /** Bit s of a bitmap. */
  predicate Marked(b: seq<u8>, s: nat)
    requires s < 8 * |b|
  {
    TestBit(b[s / 8], s % 8)
  }

  lemma BitMask(k: nat)
    requires k < 8
    ensures Pow2(k) < 256
  {
    Pow2Add(k, 8 - k);
    assert Pow2(8) == 256 && Pow2(8 - k) >= 2;
  }

  /** fs_bitmap_test of a sector on the disk. */
  method TestSector(b: seq<u8>, s: nat) returns (r: bool)
    requires s < 8 * |b|
    ensures r == Marked(b, s)
  {
    var x, bit := b[s / 8], Pow2(s % 8);
    r := And(x, bit) != 0;
    AndBits(x, bit, s % 8);
    PowerBit(s % 8, s % 8);
    ZeroBit(s % 8);
    if r {
      var k := SomeBit(And(x, bit));
      AndBits(x, bit, k);
      PowerBit(s % 8, k);
    }
  }

  // The byte that holds a bit, with the bit set or cleared.
  method NewByte(x: u8, k: nat, occupied: bool) returns (y: u8)
    requires k < 8
    ensures forall m :: 0 <= m < 8 ==> TestBit(y, m) == if m == k then occupied else TestBit(x, m)
  {
    BitMask(k);
    var bit := Pow2(k);
    assert Pow2(8) == 256;
    if occupied {
      OrBound(x, bit, 8);
      y := Or(x, bit);
    } else {
      AndBound(x, 255 - bit);
      y := And(x, 255 - bit);
    }
    forall m | 0 <= m < 8
      ensures TestBit(y, m) == if m == k then occupied else TestBit(x, m)
    {
      OrBits(x, bit, m);
      AndBits(x, 255 - bit, m);
      PowerBit(k, m);
      ComplementBit(8, k, m);
    }
  }

  /** fs_bitmap_set of a sector on the disk. */
  method SetSector(b: seq<u8>, s: nat, occupied: bool) returns (c: seq<u8>)
    requires s < 8 * |b|
    ensures |c| == |b| && forall t: nat :: t < 8 * |b| ==> Marked(c, t) == if t == s then occupied else Marked(b, t)
  {
    var y := NewByte(b[s / 8], s % 8, occupied);
    c := b[s / 8 := y];
    forall t: nat | t < 8 * |b|
      ensures Marked(c, t) == if t == s then occupied else Marked(b, t)
    {
      if t / 8 == s / 8 { assert t == s <==> t % 8 == s % 8; }
    }
  }
}
