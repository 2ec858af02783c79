/** Scalars of Ed25519: reduction modulo the group order with signed base-256 limbs. */
module Ed25519Scalar {
  import opened Words
  import opened Arith
  import opened Limbs

  /** The order of the base point, 2^252 + 27742317777372353535851937790883648493. */
  const ORDER: int := 0x1000_0000_0000_0000_0000_0000_0000_0000_14de_f9de_a2f7_9cd6_5812_631a_5cf5_d3ed

  // The low 16 bytes of ORDER, least significant first, and what they are worth.
  const LOW_BYTES: seq<u8> := [0xed, 0xd3, 0xf5, 0x5c] +
      ([0x1a, 0x63, 0x12, 0x58] + ([0xd6, 0x9c, 0xf7, 0xa2] + [0xde, 0xf9, 0xde, 0x14]))
  const LOW: int := 0x14de_f9de_a2f7_9cd6_5812_631a_5cf5_d3ed

  /** The table L. */
  const ORDER_BYTES: seq<u8> := LOW_BYTES + ([0, 0, 0, 0, 0, 0, 0, 0, 0, 0, 0, 0, 0, 0, 0] + [0x10])

  lemma Val4(a: int, b: int, c: int, d: int, x: seq<int>)
    ensures Val(256, [a, b, c, d] + x) == a + 0x100 * b + 0x1_0000 * c + 0x100_0000 * d + 0x1_0000_0000 * Val(256, x)
  {
    var y := [a, b, c, d] + x;
    assert y[1..][1..][1..][1..] == x;
    assert Val(256, y[1..][1..][1..]) == d + 256 * Val(256, x);
    assert Val(256, y[1..][1..]) == c + 256 * Val(256, y[1..][1..][1..]);
    assert Val(256, y[1..]) == b + 256 * Val(256, y[1..][1..]);
  }

  lemma LowValue()
    ensures |LOW_BYTES| == 16 && Val(256, LOW_BYTES) == LOW
  {
    var z: seq<int> := [];
    assert [0xde, 0xf9, 0xde, 0x14] == [0xde, 0xf9, 0xde, 0x14] + z;
    Val4(0xde, 0xf9, 0xde, 0x14, z);
    Val4(0xd6, 0x9c, 0xf7, 0xa2, [0xde, 0xf9, 0xde, 0x14]);
    Val4(0x1a, 0x63, 0x12, 0x58, [0xd6, 0x9c, 0xf7, 0xa2] + [0xde, 0xf9, 0xde, 0x14]);
    Val4(0xed, 0xd3, 0xf5, 0x5c, [0x1a, 0x63, 0x12, 0x58] + ([0xd6, 0x9c, 0xf7, 0xa2] + [0xde, 0xf9, 0xde, 0x14]));
  }

  lemma PowValues()
    ensures Pow(256, 16) == 0x1_0000_0000_0000_0000_0000_0000_0000_0000
    ensures Pow(256, 31) == 0x100_0000_0000_0000_0000_0000_0000_0000_0000_0000_0000_0000_0000_0000_0000_0000
    ensures Pow(256, 32) == 0x1_0000_0000_0000_0000_0000_0000_0000_0000_0000_0000_0000_0000_0000_0000_0000_0000
  {
    assert Pow(256, 8) == 0x1_0000_0000_0000_0000;
    assert Pow(256, 16) == 0x1_0000_0000_0000_0000_0000_0000_0000_0000;
    assert Pow(256, 24) == 0x1_0000_0000_0000_0000_0000_0000_0000_0000_0000_0000_0000_0000;
  }

  lemma OrderValue()
    ensures |ORDER_BYTES| == 32 && Val(256, ORDER_BYTES) == ORDER
  {
    var z: seq<u8> := [0, 0, 0, 0, 0, 0, 0, 0, 0, 0, 0, 0, 0, 0, 0];
    LowValue();
    PowValues();
    ValAppend(256, LOW_BYTES, z + [0x10]);
    ValAppend(256, z, [0x10]);
    ValZero(256, z);
    assert Pow(256, 15) * 0x10 == 0x10 * 0x100_0000_0000_0000_0000_0000_0000_0000;
    assert Val(256, [0x10]) == 0x10;
  }

  // ----- one fold -----

  /** The low bytes of the order, kept abstract in the limb-by-limb reasoning. */
  ghost predicate LowTable(l: seq<u8>)
  {
    |l| == 16 && Val(256, l) == LOW
  }

  // What one fold takes away, limb by limb, is 16 * xi times the order.
  lemma FoldedValue(l: seq<u8>, d: seq<int>, xi: int)
    requires LowTable(l) && |d| == 33 && d[32] == xi
    requires forall t :: 0 <= t < 16 ==> d[t] == 16 * xi * l[t]
    requires forall t :: 16 <= t < 32 ==> d[t] == 0
    ensures Val(256, d) == (16 * xi) * ORDER
  {
    var lo, mid, hi := d[..16], d[16..32], d[32..];
    assert d == lo + (mid + hi);
    ValAppend(256, lo, mid + hi);
    ValAppend(256, mid, hi);
    ValScale(256, 16 * xi, l, lo);
    ValZero(256, mid);
    PowValues();
    assert hi[1..] == [];
  }

  /** y is x after limb i has been folded into the 21 limbs from i - 32 on, with carries c. */
  ghost predicate Folded(l: seq<u8>, x: seq<int>, y: seq<int>, i: nat, c: seq<int>)
    requires |l| == 16 && |x| == |y| == 64 && 32 <= i < 64 && |c| == 21
  {
    var b := i - 32;
    && c[0] == 0 && y[i] == 0 && y[b + 20] == x[b + 20] + c[20]
    && (forall j :: b <= j < b + 16 ==> y[j] == x[j] + c[j - b] - 16 * x[i] * l[j - b] - 256 * c[j - b + 1])
    && (forall j :: b + 16 <= j < b + 20 ==> y[j] == x[j] + c[j - b] - 256 * c[j - b + 1])
    && (forall j :: 0 <= j < b || b + 20 < j < i || i < j < 64 ==> y[j] == x[j])
  }

  lemma FoldCarries(l: seq<u8>, x: seq<int>, y: seq<int>, i: nat, c: seq<int>)
    requires LowTable(l) && |x| == |y| == 64 && 32 <= i < 64 && |c| == 21 && Folded(l, x, y, i, c)
    ensures Val(256, y[i - 32..i + 1]) == Val(256, x[i - 32..i + 1]) - (16 * x[i]) * ORDER
  {
    var b, xi := i - 32, x[i];
    var d := seq(33, t requires 0 <= t < 33 => if t < 16 then 16 * xi * l[t] else if t == 32 then xi else 0);
    var cc := seq(34, t requires 0 <= t < 34 => if t <= 20 then c[t] else 0);
    var xs, ys := x[b..i + 1], y[b..i + 1];
    assert forall t :: 0 <= t < 33 ==> ys[t] == xs[t] + cc[t] - d[t] - 256 * cc[t + 1] by {
      forall t | 0 <= t < 33
        ensures ys[t] == xs[t] + cc[t] - d[t] - 256 * cc[t + 1]
      {
        assert ys[t] == y[b + t] && xs[t] == x[b + t];
      }
    }
    CarryChain(256, xs, ys, d, cc);
    FoldedValue(l, d, xi);
  }

  // Folding limb i takes a multiple of the order away.
  lemma FoldValue(l: seq<u8>, x: seq<int>, y: seq<int>, i: nat, c: seq<int>)
    requires LowTable(l) && |x| == |y| == 64 && 32 <= i < 64 && |c| == 21 && Folded(l, x, y, i, c)
    ensures Val(256, y) == Val(256, x) - (16 * x[i] * Pow(256, i - 32)) * ORDER
  {
    var b, xi, p := i - 32, x[i], Pow(256, i - 32);
    assert Val(256, y[b..i + 1]) == Val(256, x[b..i + 1]) - (16 * xi) * ORDER by { FoldCarries(l, x, y, i, c); }
    assert x[..b] == y[..b] && x[i + 1..] == y[i + 1..];
    MiddleChange(256, x, y, b, i + 1);
    FoldAlgebra(p, xi);
  }

  lemma FoldAlgebra(p: int, xi: int)
    ensures p * (0 - (16 * xi) * ORDER) == 0 - (16 * xi * p) * ORDER
  {
    assert p * ((16 * xi) * ORDER) == (16 * xi * p) * ORDER;
  }

  /** Bound on the carry into limb k of a fold, when the limbs from 16 on are below m. */
  ghost function CarryBound(k: nat, m: int): int
  {
    if k <= 16 then 0x800_0000 else (CarryBound(k - 1, m) + m + 255) / 256
  }

  lemma CarryBounds(m: int)
    requires m == 0 || m == 0x20_0000
    ensures forall k :: 0 <= k <= 20 ==> 0 <= CarryBound(k, m) <= 0x800_0000
    ensures m == 0 ==> CarryBound(20, m) == 1
    ensures m != 0 ==> CarryBound(20, m) <= 0x4000
  {
    assert CarryBound(17, m) == (0x800_0000 + m + 255) / 256;
    assert CarryBound(18, m) == (CarryBound(17, m) + m + 255) / 256;
    assert CarryBound(19, m) == (CarryBound(18, m) + m + 255) / 256;
    assert CarryBound(20, m) == (CarryBound(19, m) + m + 255) / 256;
  }

  lemma ProductRange(x: int, l: int)
    requires -0x40_0000 <= x <= 0x40_0000 && 0 <= l < 256
    ensures -0x4_0000_0000 <= 16 * x * l <= 0x4_0000_0000 && (l == 0 ==> 16 * x * l == 0)
  {
    assert -0x40_0000 * l <= x * l <= 0x40_0000 * l;
    assert 16 * x * l == 16 * (x * l);
  }

  // One turn of the inner loop: limb k takes the carry and gives up 16 * xi * l.
  method FoldLimb(xj: i64, carry: i64, xi: i64, l: u8, ghost k: nat, ghost m: int) returns (y: i64, c: i64)
    requires k < 20 && (m == 0 || m == 0x20_0000) && (k >= 16 ==> l == 0 && -128 - m <= xj < 128 + m)
    requires -0x40_0000 <= xj <= 0x40_0000 && -0x40_0000 <= xi <= 0x40_0000
    requires -CarryBound(k, m) <= carry <= CarryBound(k, m)
    ensures -128 <= y < 128 && y == xj + carry - (if k < 16 then 16 * xi * l else 0) - 256 * c
    ensures -CarryBound(k + 1, m) <= c <= CarryBound(k + 1, m)
  {
    CarryBounds(m);
    ProductRange(xi, l);
    var t: i64 := 16 * xi * l;
    y := xj + (carry - t);
    c := (y as int + 128) / 256;
    y := y - c * 256;
  }

  // The inner loop of a fold.
  method FoldLimbs(x: array<i64>, i: nat, l: seq<u8>, ghost m: int) returns (carry: i64, ghost c: seq<int>)
    requires x.Length == 64 && 32 <= i < 64 && (m == 0 || m == 0x20_0000)
    requires |l| == 32 && l[16] == l[17] == l[18] == l[19] == 0
    requires forall j :: 0 <= j < 64 ==> -0x30_0000 <= x[j] <= 0x30_0000
    requires forall j :: i - 16 <= j < i - 12 ==> -128 - m <= x[j] < 128 + m
    modifies x
    ensures |c| == 21 && c[0] == 0 && c[20] == carry && -CarryBound(20, m) <= carry <= CarryBound(20, m)
    ensures forall j :: 0 <= j < i - 32 || i - 12 <= j < 64 ==> x[j] == old(x[j])
    ensures forall j :: i - 32 <= j < i - 12 ==> -128 <= x[j] < 128
    ensures forall j :: i - 32 <= j < i - 16 ==>
      x[j] == old(x[j]) + c[j - (i - 32)] - 16 * old(x[i]) * l[j - (i - 32)] - 256 * c[j - (i - 32) + 1]
    ensures forall j :: i - 16 <= j < i - 12 ==> x[j] == old(x[j]) + c[j - (i - 32)] - 256 * c[j - (i - 32) + 1]
  {
    c := [0];
    carry := 0;
    var j := i - 32;
    while j < i - 12
      invariant i - 32 <= j <= i - 12 && |c| == j - (i - 32) + 1 && c[0] == 0 && c[j - (i - 32)] == carry
      invariant forall t :: 0 <= t < i - 32 || j <= t < 64 ==> x[t] == old(x[t])
      invariant forall t :: i - 32 <= t < j ==> -128 <= x[t] < 128
      invariant forall t :: i - 32 <= t < j && t < i - 16 ==>
        x[t] == old(x[t]) + c[t - (i - 32)] - 16 * old(x[i]) * l[t - (i - 32)] - 256 * c[t - (i - 32) + 1]
      invariant forall t :: i - 16 <= t < j ==> x[t] == old(x[t]) + c[t - (i - 32)] - 256 * c[t - (i - 32) + 1]
      invariant -CarryBound(j - (i - 32), m) <= carry <= CarryBound(j - (i - 32), m)
    {
      x[j], carry := FoldLimb(x[j], carry, x[i], l[j - (i - 32)], j - (i - 32), m);
      c := c + [carry];
      j := j + 1;
    }
  }

  // One turn of the first loop of modL: limb i is folded into the limbs 32 places down.
  method Fold(x: array<i64>, i: nat, l: seq<u8>, ghost m: int) returns (ghost q: int)
    requires x.Length == 64 && 32 <= i < 64 && (m == 0 || m == 0x20_0000)
    requires |l| == 32 && LowTable(l[..16]) && l[16] == l[17] == l[18] == l[19] == 0
    requires forall j :: 0 <= j < 64 ==> -0x30_0000 <= x[j] <= 0x30_0000
    requires forall j :: i - 16 <= j < i - 12 ==> -128 - m <= x[j] < 128 + m
    modifies x
    ensures Val(256, x[..]) == old(Val(256, x[..])) - q * ORDER
    ensures x[i] == 0 && forall j :: i - 32 <= j < i - 12 ==> -128 <= x[j] < 128
    ensures -CarryBound(20, m) <= x[i - 12] - old(x[i - 12]) <= CarryBound(20, m)
    ensures forall j :: 0 <= j < i - 32 || i - 12 < j < i || i < j < 64 ==> x[j] == old(x[j])
  {
    ghost var c;
    var carry;
    carry, c := FoldLimbs(x, i, l, m);
    CarryBounds(m);
    x[i - 12] := x[i - 12] + carry;
    x[i] := 0;
    FoldValue(l[..16], old(x[..]), x[..], i, c);
    q := 16 * old(x[i]) * Pow(256, i - 32);
  }

  // ----- the whole reduction -----

  /** The range of limb j when limb i is the next to fold. */
  ghost predicate LimbRange(i: int, j: int, v: int)
  {
    if j > i then v == 0
    else if i == 63 || j < i - 31 || j > 51 then 0 <= v < 0x20_0000
    else if j <= i - 12 then -128 <= v < 128
    else if j == 51 then -0x4000 <= v < 0x20_4000
    else -129 <= v <= 128
  }

  ghost predicate TableL(l: seq<u8>)
  {
    |l| == 32 && LowTable(l[..16]) && Val(256, l) == ORDER && l[16] == l[17] == l[18] == l[19] == 0
  }

  // The first loop of modL: 64 limbs become 32 small ones, modulo the order.
  method FoldAll(x: array<i64>, l: seq<u8>) returns (ghost q: int)
    requires x.Length == 64 && TableL(l)
    requires forall j :: 0 <= j < 64 ==> 0 <= x[j] < 0x20_0000
    modifies x
    ensures Val(256, x[..]) == old(Val(256, x[..])) - q * ORDER
    ensures forall j :: 0 <= j < 64 ==> LimbRange(31, j, x[j])
  {
    q := 0;
    var i := 63;
    while i >= 32
      invariant 31 <= i <= 63
      invariant forall j :: 0 <= j < 64 ==> LimbRange(i, j, x[j])
      invariant Val(256, x[..]) == old(Val(256, x[..])) - q * ORDER
    {
      ghost var k;
      ghost var m := if i == 63 then 0x20_0000 else 0;
      CarryBounds(m);
      k := Fold(x, i, l, m);
      q := q + k;
      i := i - 1;
    }
  }

  // x[j] += carry - q * L[j], normalised to bytes: the value loses q times the table.
  method SubtractMultiple(x: array<i64>, l: seq<u8>) returns (carry: i64, ghost q: int)
    requires x.Length == 64 && |l| == 32
    requires forall j :: 0 <= j < 32 ==> -129 <= x[j] <= 128
    modifies x
    ensures q == old(x[31]) / 16
    ensures Val(256, x[..32]) + Pow(256, 32) * carry == old(Val(256, x[..32])) - q * Val(256, l)
    ensures forall j :: 0 <= j < 32 ==> 0 <= x[j] < 256
    ensures -0x100 <= carry <= 0x100
    ensures forall j :: 32 <= j < 64 ==> x[j] == old(x[j])
  {
    q := x[31] / 16;
    ghost var c: seq<int> := [0];
    ghost var d: seq<int> := seq(32, t requires 0 <= t < 32 => q * l[t]);
    carry := 0;
    var j := 0;
    while j < 32
      invariant 0 <= j <= 32 && |c| == j + 1 && c[0] == 0 && c[j] == carry && -0x100 <= carry <= 0x100
      invariant forall t :: j <= t < 64 ==> x[t] == old(x[t])
      invariant forall t :: 0 <= t < j ==> 0 <= x[t] < 256 && x[t] == old(x[t]) + c[t] - d[t] - 256 * c[t + 1]
    {
      SmallProduct(q, l[j]);
      x[j] := x[j] + (carry - (x[31] / 16) * l[j]);
      carry := x[j] / 256;
      x[j] := x[j] % 256;
      c := c + [carry];
      j := j + 1;
    }
    CarryChain(256, old(x[..32]), x[..32], d, c);
    ValScale(256, q, l, d);
  }

  lemma SmallProduct(q: int, l: int)
    requires -9 <= q <= 8 && 0 <= l < 256
    ensures -2400 <= q * l <= 2400 && (q == 0 ==> q * l == 0) && (q == -1 ==> -256 < q * l <= 0)
  {
  }

  lemma {:induction false} SmallLimbs(x: seq<int>)
    requires forall t :: 0 <= t < |x| ==> -129 <= x[t] <= 128
    ensures -129 * (Pow(256, |x|) - 1) <= 255 * Val(256, x) <= 128 * (Pow(256, |x|) - 1)
  {
    if |x| != 0 { SmallLimbs(x[1..]); }
  }

  // Taking the quotient by the top limb off leaves a value between -order and order.
  lemma TopRange(x: seq<int>)
    requires |x| == 32 && forall t :: 0 <= t < 32 ==> -129 <= x[t] <= 128
    ensures -ORDER <= Val(256, x) - (x[31] / 16) * ORDER < ORDER
  {
    assert x == x[..31] + x[31..] && x[31..][1..] == [];
    ValAppend(256, x[..31], x[31..]);
    SmallLimbs(x[..31]);
    PowValues();
  }

  // The last loop, which carries from limb to limb and stores the low bytes.
  method StoreBytes(r: array<u8>, x: array<i64>) returns (ghost top: int)
    requires x.Length == 64 && r.Length >= 32
    requires forall j :: 0 <= j < 32 ==> 0 <= x[j] < 512
    requires x[32] == 0
    modifies r, x
    ensures Val(256, r[..32]) + Pow(256, 32) * top == old(Val(256, x[..32]))
    ensures forall j :: 32 <= j < r.Length ==> r[j] == old(r[j])
  {
    ghost var c: seq<int> := [0];
    var i := 0;
    while i < 32
      invariant 0 <= i <= 32 && |c| == i + 1 && c[0] == 0 && 0 <= c[i] <= 2
      invariant x[i] == old(x[i]) + c[i]
      invariant forall t :: i < t < 64 ==> x[t] == old(x[t])
      invariant forall t :: 0 <= t < i ==> r[t] == old(x[t]) + c[t] - 256 * c[t + 1]
      invariant forall j :: 32 <= j < r.Length ==> r[j] == old(r[j])
    {
      c := c + [x[i] / 256];
      x[i + 1] := x[i + 1] + x[i] / 256;
      r[i] := x[i] % 256;
      i := i + 1;
    }
    ghost var d: seq<int> := seq(32, _ => 0);
    CarryChain(256, old(x[..32]), r[..32], d, c);
    ValZero(256, d);
    top := c[32];
  }

  // x[j] -= carry * L[j]
  method AddBack(x: array<i64>, l: seq<u8>, carry: i64)
    requires x.Length == 64 && |l| == 32 && (carry == 0 || carry == -1)
    requires forall j :: 0 <= j < 32 ==> 0 <= x[j] < 256
    modifies x
    ensures Val(256, x[..32]) == old(Val(256, x[..32])) - carry * Val(256, l)
    ensures forall j :: 0 <= j < 32 ==> 0 <= x[j] < 512
    ensures forall j :: 32 <= j < 64 ==> x[j] == old(x[j])
  {
    ghost var k: int := -carry;
    var j := 0;
    while j < 32
      invariant 0 <= j <= 32
      invariant forall t :: 0 <= t < j ==> x[t] == old(x[t]) + k * l[t] && 0 <= x[t] < 512
      invariant forall t :: j <= t < 64 ==> x[t] == old(x[t])
    {
      SmallProduct(carry, l[j]);
      assert k * l[j] == -(carry * l[j]);
      x[j] := x[j] - carry * l[j];
      j := j + 1;
    }
    ValAddScaled(256, k, old(x[..32]), l, x[..32]);
    assert k * Val(256, l) == -(carry * Val(256, l));
  }

  // The two ways the last correction can go.
  lemma FinalResidue(v0: int, q0: int, w: int, y: int, carry: int, z: int, r: int, top: int)
    requires w == v0 - q0 * ORDER && -ORDER <= w < ORDER
    requires 0 <= y < 0x1_0000_0000_0000_0000_0000_0000_0000_0000_0000_0000_0000_0000_0000_0000_0000_0000
    requires y + 0x1_0000_0000_0000_0000_0000_0000_0000_0000_0000_0000_0000_0000_0000_0000_0000_0000 * carry == w
    requires z == y - carry * ORDER
    requires 0 <= r < 0x1_0000_0000_0000_0000_0000_0000_0000_0000_0000_0000_0000_0000_0000_0000_0000_0000
    requires r + 0x1_0000_0000_0000_0000_0000_0000_0000_0000_0000_0000_0000_0000_0000_0000_0000_0000 * top == z
    ensures carry == 0 || carry == -1
    ensures r == v0 % ORDER
  {
    assert carry == 0 || carry == -1;
    var q := q0 + carry;
    assert r == w - carry * ORDER;
    assert v0 == q * ORDER + r;
    DivModUnique(v0, ORDER, q, r);
  }

  lemma OrderTableOk()
    ensures TableL(ORDER_BYTES)
  {
    OrderValue();
    LowValue();
    assert ORDER_BYTES[..16] == LOW_BYTES;
  }

  /** modL: for every 64 limbs in [0, 2^21), the residue of their value modulo the group order. */
  method ModL(r: array<u8>, x: array<i64>)
    requires r.Length >= 32 && x.Length == 64
    requires forall j :: 0 <= j < 64 ==> 0 <= x[j] < 0x20_0000
    modifies r, x
    ensures Val(256, r[..32]) == old(Val(256, x[..])) % ORDER
    ensures forall j :: 32 <= j < r.Length ==> r[j] == old(r[j])
  {
    ghost var v0 := Val(256, x[..]);
    var l := ORDER_BYTES;
    OrderTableOk();
    ghost var q0, q, top;
    q0 := FoldAll(x, l);
    ghost var s := x[..32];
    HighZeros(x[..]);
    TopRange(s);
    var carry;
    carry, q := SubtractMultiple(x, l);
    ghost var y := Val(256, x[..32]);
    ValBound(256, x[..32]);
    PowValues();
    CarryIsBorrow(y, carry, Val(256, s) - q * ORDER);
    AddBack(x, l, carry);
    ghost var z := Val(256, x[..32]);
    top := StoreBytes(r, x);
    ValBound(256, r[..32]);
    FinalResidue(v0, q0 + q, Val(256, s) - q * ORDER, y, carry, z, Val(256, r[..32]), top);
  }

  lemma CarryIsBorrow(y: int, carry: int, w: int)
    requires -ORDER <= w < ORDER
    requires 0 <= y < 0x1_0000_0000_0000_0000_0000_0000_0000_0000_0000_0000_0000_0000_0000_0000_0000_0000
    requires y + 0x1_0000_0000_0000_0000_0000_0000_0000_0000_0000_0000_0000_0000_0000_0000_0000_0000 * carry == w
    ensures carry == 0 || carry == -1
  {
  }

  lemma HighZeros(x: seq<int>)
    requires |x| == 64 && forall j :: 32 <= j < 64 ==> x[j] == 0
    ensures Val(256, x) == Val(256, x[..32])
  {
    assert x == x[..32] + x[32..];
    ValAppend(256, x[..32], x[32..]);
    ValZero(256, x[32..]);
  }

  /** reduce: a 64-byte string becomes its residue modulo the group order. */
  method Reduce(r: array<u8>)
    requires r.Length == 64
    modifies r
    ensures Val(256, r[..]) == old(Val(256, r[..])) % ORDER
    ensures forall j :: 32 <= j < 64 ==> r[j] == 0
  {
    var x := new i64[64];
    for i := 0 to 64
      invariant r[..] == old(r[..])
      invariant forall j :: 0 <= j < i ==> x[j] == r[j]
    {
      x[i] := r[i];
    }
    ghost var v := Val(256, r[..]);
    assert x[..] == r[..];
    for i := 0 to 64
      invariant forall j :: 0 <= j < i ==> r[j] == 0
      invariant forall j :: 0 <= j < 64 ==> 0 <= x[j] < 256
      invariant Val(256, x[..]) == v
    {
      r[i] := 0;
    }
    ModL(r, x);
    HighZeros(r[..]);
    assert r[..][..32] == r[..32];
  }

  // Row i of the product: x[i + j] += a * d[j].
  method AddRow(x: array<i64>, d: seq<u8>, i: nat, a: u8)
    requires x.Length == 64 && |d| == 32 && i < 32
    requires forall k :: 0 <= k < 64 ==> 0 <= x[k] <= 0xff + 0xfe01 * i
    modifies x
    ensures Val(256, x[..]) == old(Val(256, x[..])) + (Pow(256, i) * a) * Val(256, d)
    ensures forall k :: 0 <= k < 64 ==> 0 <= x[k] <= 0xff + 0xfe01 * (i + 1)
  {
    ghost var x0 := x[..];
    var j := 0;
    while j < 32
      invariant 0 <= j <= 32
      invariant forall k :: 0 <= k < i || i + j <= k < 64 ==> x[k] == x0[k]
      invariant forall k :: i <= k < i + j ==> x[k] == x0[k] + a * d[k - i] && 0 <= x[k] <= 0xff + 0xfe01 * (i + 1)
    {
      MulBound(a, 0xff, d[j], 0xff);
      x[i + j] := x[i + j] + a * d[j];
      j := j + 1;
    }
    RowValue(256, x0, x[..], i, a, d);
  }

  /** The scalar half of ed25519_sign: S = (r + h * d) modulo the group order. */
  method SignScalar(r: seq<u8>, h: seq<u8>, d: seq<u8>) returns (s: array<u8>)
    requires |r| >= 32 && |h| >= 32 && |d| >= 32
    ensures s.Length == 32 && fresh(s)
    ensures Val(256, s[..]) == (Val(256, r[..32]) + Val(256, h[..32]) * Val(256, d[..32])) % ORDER
  {
    var x := new i64[64](i requires 0 <= i < 64 => 0);
    for i := 0 to 32
      invariant forall k :: 0 <= k < i ==> x[k] == r[k]
      invariant forall k :: i <= k < 64 ==> x[k] == 0
    {
      x[i] := r[i];
    }
    HighZeros(x[..]);
    assert x[..][..32] == r[..32];
    for i := 0 to 32
      invariant forall k :: 0 <= k < 64 ==> 0 <= x[k] <= 0xff + 0xfe01 * i
      invariant Val(256, x[..]) == Val(256, r[..32]) + Val(256, h[..i]) * Val(256, d[..32])
    {
      AddRow(x, d[..32], i, h[i]);
      assert h[..i + 1] == h[..i] + [h[i]];
      ValAppend(256, h[..i], [h[i]]);
      assert Val(256, [h[i]]) == h[i];
      RowAlgebra(Val(256, h[..i]), Pow(256, i) * h[i], Val(256, d[..32]));
    }
    s := new u8[32];
    ModL(s, x);
    assert s[..] == s[..32];
  }
}
