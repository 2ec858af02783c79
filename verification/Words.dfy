/** Machine words.

    A C integer type is a subset type of `int`, so every assignment to a word-typed
    variable carries a proof that the C expression does not overflow; where C code relies
    on wrap-around the model writes the reduction out.  Shifts are division and
    multiplication by a power of two, and the bitwise operators are defined bit by bit. */
module Words {
  type u8 = x: int | 0 <= x < 0x100
  type u16 = x: int | 0 <= x < 0x1_0000
  type u32 = x: int | 0 <= x < 0x1_0000_0000
  type u64 = x: int | 0 <= x < 0x1_0000_0000_0000_0000
  type i64 = x: int | -0x8000_0000_0000_0000 <= x < 0x8000_0000_0000_0000

  function Pow2(n: nat): (r: nat)
    ensures r >= 1
  {
    if n == 0 then 1 else 2 * Pow2(n - 1)
  }

  lemma {:induction false} Pow2Add(a: nat, b: nat)
    ensures Pow2(a + b) == Pow2(a) * Pow2(b)
  {
    if b != 0 {
      Pow2Add(a, b - 1);
      assert Pow2(a + b) == 2 * Pow2(a + (b - 1));
    }
  }

  lemma Pow2Values()
    ensures Pow2(6) == 0x40 && Pow2(8) == 0x100 && Pow2(12) == 0x1000 && Pow2(14) == 0x4000 && Pow2(16) == 0x1_0000
    ensures Pow2(18) == 0x4_0000 && Pow2(20) == 0x10_0000 && Pow2(24) == 0x100_0000 && Pow2(26) == 0x400_0000
    ensures Pow2(32) == 0x1_0000_0000
  {
    assert Pow2(6) == 0x40;
    assert Pow2(12) == 0x1000;
    assert Pow2(16) == 0x1_0000;
    assert Pow2(18) == 0x4_0000;
    assert Pow2(22) == 0x40_0000;
    assert Pow2(26) == 0x400_0000;
    assert Pow2(30) == 0x4000_0000;
  }

  function Bit(b: bool): nat
  {
    if b then 1 else 0
  }

  function And(x: nat, y: nat): nat
  {
    if x == 0 || y == 0 then 0
    else Bit(x % 2 == 1 && y % 2 == 1) + 2 * And(x / 2, y / 2)
  }

  function Or(x: nat, y: nat): nat
  {
    if x == 0 then y else if y == 0 then x
    else Bit(x % 2 == 1 || y % 2 == 1) + 2 * Or(x / 2, y / 2)
  }

  function Xor(x: nat, y: nat): nat
  {
    if x == 0 then y else if y == 0 then x
    else Bit(x % 2 != y % 2) + 2 * Xor(x / 2, y / 2)
  }

  // x & m never exceeds m.
  lemma {:induction false} AndBound(x: nat, m: nat)
    ensures And(x, m) <= m
  {
    if x != 0 && m != 0 { AndBound(x / 2, m / 2); }
  }

  /** x << k, by repeated doubling. */
  function Shl(x: nat, k: nat): nat
  {
    if k == 0 then x else 2 * Shl(x, k - 1)
  }

  lemma {:induction false} ShlIsProduct(x: nat, k: nat)
    ensures Shl(x, k) == Pow2(k) * x
  {
    if k != 0 {
      ShlIsProduct(x, k - 1);
      assert Pow2(k) * x == 2 * (Pow2(k - 1) * x);
    }
  }

  // x & m splits at any bit position.
  lemma {:induction false} AndSplit(xl: nat, xh: nat, ml: nat, mh: nat, k: nat)
    requires xl < Pow2(k) && ml < Pow2(k)
    ensures And(xl + Shl(xh, k), ml + Shl(mh, k)) == And(xl, ml) + Shl(And(xh, mh), k)
  {
    if k != 0 {
      var x, m := xl / 2, ml / 2;
      AndSplit(x, xh, m, mh, k - 1);
      AndStep(xl, ml, x, m, Shl(xh, k - 1), Shl(mh, k - 1), Shl(And(xh, mh), k - 1));
    }
  }

  lemma AndStep(xl: nat, ml: nat, x: nat, m: nat, p: nat, q: nat, t: nat)
    requires x == xl / 2 && m == ml / 2 && And(x + p, m + q) == And(x, m) + t
    ensures And(xl + 2 * p, ml + 2 * q) == And(xl, ml) + 2 * t
  {
    var a, b := xl % 2 == 1, ml % 2 == 1;
    assert xl == Bit(a) + 2 * x && ml == Bit(b) + 2 * m;
    AndPair(a, b, x, m);
    var u, v := x + p, m + q;
    AndPair(a, b, u, v);
    assert xl + 2 * p == Bit(a) + 2 * u && ml + 2 * q == Bit(b) + 2 * v;
  }

  lemma {:induction false} AndAll(x: nat, k: nat)
    requires x < Pow2(k)
    ensures And(x, Pow2(k) - 1) == x
  {
    if k != 0 && x != 0 { AndAll(x / 2, k - 1); }
  }

  // Masking with k ones keeps the low k bits.
  lemma AndOnes(lo: nat, hi: nat, k: nat)
    requires lo < Pow2(k)
    ensures And(lo + Shl(hi, k), Pow2(k) - 1) == lo
  {
    ShlIsProduct(0, k);
    AndSplit(lo, hi, Pow2(k) - 1, 0, k);
    AndAll(lo, k);
  }

  lemma AndPair(a: bool, b: bool, x: nat, y: nat)
    ensures And(Bit(a) + 2 * x, Bit(b) + 2 * y) == Bit(a && b) + 2 * And(x, y)
  {
    assert (Bit(a) + 2 * x) / 2 == x && (Bit(b) + 2 * y) / 2 == y;
  }

  lemma OrPair(a: bool, b: bool, x: nat, y: nat)
    ensures Or(Bit(a) + 2 * x, Bit(b) + 2 * y) == Bit(a || b) + 2 * Or(x, y)
  {
    assert (Bit(a) + 2 * x) / 2 == x && (Bit(b) + 2 * y) / 2 == y;
  }

  // x | m splits at any bit position.
  lemma {:induction false} OrSplitAt(xl: nat, xh: nat, ml: nat, mh: nat, k: nat)
    requires xl < Pow2(k) && ml < Pow2(k)
    ensures Or(xl + Shl(xh, k), ml + Shl(mh, k)) == Or(xl, ml) + Shl(Or(xh, mh), k)
  {
    if k != 0 {
      var x, m := xl / 2, ml / 2;
      OrSplitAt(x, xh, m, mh, k - 1);
      OrStep(xl, ml, x, m, Shl(xh, k - 1), Shl(mh, k - 1), Shl(Or(xh, mh), k - 1));
    }
  }

  lemma OrStep(xl: nat, ml: nat, x: nat, m: nat, p: nat, q: nat, t: nat)
    requires x == xl / 2 && m == ml / 2 && Or(x + p, m + q) == Or(x, m) + t
    ensures Or(xl + 2 * p, ml + 2 * q) == Or(xl, ml) + 2 * t
  {
    var a, b := xl % 2 == 1, ml % 2 == 1;
    assert xl == Bit(a) + 2 * x && ml == Bit(b) + 2 * m;
    OrPair(a, b, x, m);
    var u, v := x + p, m + q;
    OrPair(a, b, u, v);
    assert xl + 2 * p == Bit(a) + 2 * u && ml + 2 * q == Bit(b) + 2 * v;
  }

  // Or-ing values whose bits do not overlap adds them.
  lemma {:induction false} OrSplit(a: nat, b: nat, k: nat)
    requires a < Pow2(k)
    ensures Or(a, Shl(b, k)) == a + Shl(b, k)
  {
    if k != 0 && a != 0 { OrSplit(a / 2, b, k - 1); }
  }

  lemma OrDisjoint(a: nat, b: nat, k: nat, p: nat)
    requires p == Pow2(k) && a < p
    ensures Or(a, b * p) == a + p * b
  {
    OrSplit(a, b, k);
    ShlIsProduct(b, k);
    assert b * p == p * b;
  }

  // ----- single bits -----

  function TestBit(x: nat, k: nat): bool
  {
    if k == 0 then x % 2 == 1 else TestBit(x / 2, k - 1)
  }

  lemma {:induction false} ZeroBit(k: nat)
    ensures !TestBit(0, k)
  {
    if k != 0 { ZeroBit(k - 1); }
  }

  lemma {:induction false} AndBits(x: nat, y: nat, k: nat)
    ensures TestBit(And(x, y), k) == (TestBit(x, k) && TestBit(y, k))
  {
    ZeroBit(k);
    if x != 0 && y != 0 && k != 0 { AndBits(x / 2, y / 2, k - 1); }
  }

  lemma {:induction false} OrBits(x: nat, y: nat, k: nat)
    ensures TestBit(Or(x, y), k) == (TestBit(x, k) || TestBit(y, k))
  {
    ZeroBit(k);
    if x != 0 && y != 0 && k != 0 { OrBits(x / 2, y / 2, k - 1); }
  }

  lemma {:induction false} XorBits(x: nat, y: nat, k: nat)
    ensures TestBit(Xor(x, y), k) == (TestBit(x, k) != TestBit(y, k))
  {
    ZeroBit(k);
    if x != 0 && y != 0 && k != 0 { XorBits(x / 2, y / 2, k - 1); }
  }

  lemma {:induction false} SameBits(x: nat, y: nat)
    requires forall k: nat :: TestBit(x, k) == TestBit(y, k)
    ensures x == y
    decreases x + y
  {
    assert TestBit(x, 0) == TestBit(y, 0);
    if x + y != 0 {
      forall k: nat
        ensures TestBit(x / 2, k) == TestBit(y / 2, k)
      {
        assert TestBit(x, k + 1) == TestBit(y, k + 1);
      }
      SameBits(x / 2, y / 2);
    }
  }

  // Xor-ing the same mask in twice restores the value.
  lemma XorCancel(x: nat, k: nat)
    ensures Xor(Xor(x, k), k) == x
  {
    forall i: nat
      ensures TestBit(Xor(Xor(x, k), k), i) == TestBit(x, i)
    {
      XorBits(x, k, i);
      XorBits(Xor(x, k), k, i);
    }
    SameBits(Xor(Xor(x, k), k), x);
  }

  lemma {:induction false} XorComm(x: nat, y: nat)
    ensures Xor(x, y) == Xor(y, x)
  {
    if x != 0 && y != 0 { XorComm(x / 2, y / 2); }
  }

  lemma {:induction false} AndComm(x: nat, y: nat)
    ensures And(x, y) == And(y, x)
  {
    if x != 0 && y != 0 { AndComm(x / 2, y / 2); }
  }

  lemma {:induction false} XorBound(x: nat, y: nat, n: nat)
    requires x < Pow2(n) && y < Pow2(n)
    ensures Xor(x, y) < Pow2(n)
  {
    if n != 0 && x != 0 && y != 0 { XorBound(x / 2, y / 2, n - 1); }
  }

  lemma {:induction false} OrBound(x: nat, y: nat, n: nat)
    requires x < Pow2(n) && y < Pow2(n)
    ensures Or(x, y) < Pow2(n)
  {
    if n != 0 && x != 0 && y != 0 { OrBound(x / 2, y / 2, n - 1); }
  }

  function XorByte(x: u8, y: u8): u8
  {
    XorBound(x, y, 8);
    Xor(x, y)
  }

  /** Little-endian value of a byte string. */
  function LE(b: seq<u8>): nat
  {
    if |b| == 0 then 0 else b[0] + 256 * LE(b[1..])
  }

  function Pow256(n: nat): (r: nat)
    ensures r >= 1
  {
    if n == 0 then 1 else 256 * Pow256(n - 1)
  }

  lemma {:induction false} LEAppend(a: seq<u8>, b: seq<u8>)
    ensures LE(a + b) == LE(a) + Pow256(|a|) * LE(b)
  {
    if |a| == 0 {
      assert a + b == b;
    } else {
      assert (a + b)[1..] == a[1..] + b;
      LEAppend(a[1..], b);
    }
  }

  lemma {:induction false} LEBound(a: seq<u8>)
    ensures LE(a) < Pow256(|a|)
  {
    if |a| != 0 { LEBound(a[1..]); }
  }

  lemma {:induction false} LEZeros(n: nat)
    ensures LE(Zeros(n)) == 0
  {
    if n != 0 {
      assert Zeros(n)[1..] == Zeros(n - 1);
      LEZeros(n - 1);
    }
  }

  function Zeros(n: nat): (z: seq<u8>)
    ensures |z| == n
  {
    seq(n, _ => 0)
  }

  // The base-256 digits of a number are unique.
  lemma {:induction false} LEInjective(a: seq<u8>, b: seq<u8>)
    requires |a| == |b| && LE(a) == LE(b)
    ensures a == b
  {
    if |a| != 0 {
      assert a[0] == b[0];
      LEInjective(a[1..], b[1..]);
      assert a == [a[0]] + a[1..] && b == [b[0]] + b[1..];
    }
  }

  lemma LE4(p: seq<u8>)
    requires |p| == 4
    ensures LE(p) == p[0] as int + 0x100 * (p[1] as int) + 0x1_0000 * (p[2] as int) + 0x100_0000 * (p[3] as int)
  {
    var t3 := p[1..][1..][1..];
    assert t3[0] == p[3] && LE(t3[1..]) == 0;
    var t2 := p[1..][1..];
    assert t2[0] == p[2] && LE(t2) == p[2] + 256 * LE(t3);
    assert LE(p[1..]) == p[1] + 256 * LE(t2);
  }

  lemma Or4(b0: nat, b1: nat, b2: nat, b3: nat)
    requires b0 < 0x100 && b1 < 0x100 && b2 < 0x100 && b3 < 0x100
    ensures Or(Or(Or(b0, b1 * 0x100), b2 * 0x1_0000), b3 * 0x100_0000)
         == b0 + 0x100 * b1 + 0x1_0000 * b2 + 0x100_0000 * b3
  {
    OrDisjoint(b0, b1, 8, 0x100);
    OrDisjoint(b0 + 0x100 * b1, b2, 16, 0x1_0000);
    OrDisjoint(b0 + 0x100 * b1 + 0x1_0000 * b2, b3, 24, 0x100_0000);
  }

  /** load32: four bytes, least significant first. */
  function Load32(p: seq<u8>): (v: u32)
    requires |p| == 4
    ensures v == LE(p)
  {
    var b0: nat, b1: nat, b2: nat, b3: nat := p[0], p[1], p[2], p[3];
    Or4(b0, b1, b2, b3);
    LE4(p);
    Or(Or(Or(b0, b1 * 0x100), b2 * 0x1_0000), b3 * 0x100_0000)
  }

  lemma Digits4(v: u32)
    ensures v / 0x1_0000 == v / 0x100 / 0x100 && v / 0x100_0000 == v / 0x100 / 0x100 / 0x100
    ensures v == v % 0x100 + 0x100 * (v / 0x100 % 0x100) + 0x1_0000 * (v / 0x1_0000 % 0x100) +
              0x100_0000 * (v / 0x100_0000)
  {
    var q1 := v / 0x100;
    var q2 := q1 / 0x100;
    var q3 := q2 / 0x100;
    assert v == v % 0x100 + 0x100 * (q1 % 0x100 + 0x100 * (q2 % 0x100 + 0x100 * q3));
  }

  /** store32: the inverse of load32. */
  function Store32(v: u32): (p: seq<u8>)
    ensures |p| == 4 && LE(p) == v
  {
    Digits4(v);
    var b0: u8, b1: u8, b2: u8, b3: u8 := v % 0x100, v / 0x100 % 0x100, v / 0x1_0000 % 0x100, v / 0x100_0000;
    LE4([b0, b1, b2, b3]);
    [b0, b1, b2, b3]
  }

  /** s with the elements from `at` on replaced by t. */
  function Splice<T>(s: seq<T>, at: nat, t: seq<T>): (r: seq<T>)
    requires at + |t| <= |s|
    ensures |r| == |s|
  {
    s[..at] + t + s[at + |t|..]
  }
}
