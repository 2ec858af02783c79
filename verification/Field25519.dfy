/** The field of 2^255 - 19: sixteen signed limbs in radix 2^16. */
module Field25519 {
  import opened Words
  import opened Arith
  import opened Limbs

  const P: int := 0x7fff_ffff_ffff_ffff_ffff_ffff_ffff_ffff_ffff_ffff_ffff_ffff_ffff_ffff_ffff_ffed

  ghost function V(a: seq<int>): int
  {
    Val(0x1_0000, a)
  }

  lemma PowValues()
    ensures Pow(0x1_0000, 16) == 2 * P + 38
  {
    assert Pow(0x1_0000, 4) == 0x1_0000_0000_0000_0000;
    assert Pow(0x1_0000, 8) == 0x1_0000_0000_0000_0000_0000_0000_0000_0000;
    assert Pow(0x1_0000, 12) == 0x1_0000_0000_0000_0000_0000_0000_0000_0000_0000_0000_0000_0000;
  }

  // ----- carrying -----

  /** The carries of one pass over the limbs x: c[t + 1] is limb t, with its carry in, shifted right by 16. */
  ghost predicate Carries(x: seq<int>, c: seq<int>)
  {
    |c| == |x| + 1 && c[0] == 0 && forall t {:trigger x[t]} :: 0 <= t < |x| ==>
      0 <= x[t] + c[t] - 0x1_0000 * c[t + 1] < 0x1_0000
  }

  /** y is x after one pass: limbs reduced to 16 bits, the last carry coming back as 38. */
  ghost predicate Carried(x: seq<int>, y: seq<int>, c: seq<int>)
  {
    && |x| == |y| == 16 && Carries(x, c)
    && y[0] == x[0] - 0x1_0000 * c[1] + 38 * c[16]
    && forall t {:trigger y[t]} :: 1 <= t < 16 ==> y[t] == x[t] + c[t] - 0x1_0000 * c[t + 1] && 0 <= y[t] < 0x1_0000
  }

  // A pass subtracts a multiple of 2 * (2^255 - 19).
  lemma CarriedValue(x: seq<int>, y: seq<int>, c: seq<int>)
    requires Carried(x, y, c)
    ensures V(y) == V(x) - (2 * c[16]) * P
  {
    var d := seq(16, t requires 0 <= t < 16 => if t == 0 then -38 * c[16] else 0);
    assert forall t {:trigger y[t]} :: 0 <= t < 16 ==> y[t] == x[t] + c[t] - d[t] - 0x1_0000 * c[t + 1];
    CarryChain(0x1_0000, x, y, d, c);
    ValZero(0x1_0000, d[1..]);
    PowValues();
  }

  ghost predicate Within(a: seq<int>, m: int)
  {
    forall t :: 0 <= t < |a| ==> -m <= a[t] <= m
  }

  /** Reduced limbs, but for limb 0, which may be off by one wrap-around of 38. */
  ghost predicate Norm(a: seq<int>)
  {
    |a| == 16 && -38 <= a[0] <= 0x1_0025 && forall t :: 1 <= t < 16 ==> 0 <= a[t] < 0x1_0000
  }

  // One limb of a carry pass: v += 1 << 16; c = v >> 16; v -= c << 16, and c - 1 is carried.
  method CarryLimb(v: i64) returns (r: i64, k: i64)
    requires -0x4000_8000_0000_0000 <= v <= 0x4000_8000_0000_0000
    ensures 0 <= r < 0x1_0000 && v == r + 0x1_0000 * k
  {
    r := v + 0x1_0000;
    var c: i64 := r / 0x1_0000;
    r := r - c * 0x1_0000;
    k := c - 1;
  }

  /** car25519 */
  method Car(o: array<i64>) returns (ghost c: seq<int>)
    requires o.Length == 16 && Within(o[..], 0x4000_0000_0000_0000)
    modifies o
    ensures Carried(old(o[..]), o[..], c)
    ensures forall t :: 0 <= t <= 16 ==> -0x4000_8000_0000 <= c[t] <= 0x4000_8000_0000
  {
    c := [0];
    ghost var x := o[..];
    for i := 0 to 16
      invariant |c| == i + 1 && c[0] == 0
      invariant forall t :: 0 <= t <= i ==> -0x4000_8000_0000 <= c[t] <= 0x4000_8000_0000
      invariant forall t {:trigger x[t]} :: 0 <= t < i ==> 0 <= x[t] + c[t] - 0x1_0000 * c[t + 1] < 0x1_0000
      invariant forall t {:trigger o[t]} :: 1 <= t < i ==> o[t] == x[t] + c[t] - 0x1_0000 * c[t + 1]
      invariant i > 0 ==> o[0] == x[0] - 0x1_0000 * c[1] + (if i == 16 then 38 * c[16] else 0)
      invariant i < 16 ==> o[i] == x[i] + c[i]
      invariant forall t :: i < t < 16 ==> o[t] == x[t]
    {
      var r, k := CarryLimb(o[i]);
      var j := if i < 15 then i + 1 else 0;
      o[j] := o[j] + (k + 37 * k * (if i == 15 then 1 else 0));
      o[i] := r;
      c := c + [k];
    }
  }

  // After limbs 1..15 are reduced, a pass lets a carry of at most one out.
  lemma LastCarrySmall(x: seq<int>, c: seq<int>)
    requires |x| == 16 && Carries(x, c)
    requires -0x20_0000_0000_0000 <= x[0] <= 0x20_0000_0000_0000 && forall t :: 1 <= t < 16 ==> 0 <= x[t] < 0x1_0000
    ensures -1 <= c[16] <= 1
  {
    assert 0 <= x[0] + c[0] - 0x1_0000 * c[1] < 0x1_0000 && 0 <= x[1] + c[1] - 0x1_0000 * c[2] < 0x1_0000;
    assert 0 <= x[2] + c[2] - 0x1_0000 * c[3] < 0x1_0000 && 0 <= x[3] + c[3] - 0x1_0000 * c[4] < 0x1_0000;
    SmallCarries(x, c, 16);
  }

  lemma {:induction false} SmallCarries(x: seq<int>, c: seq<int>, n: nat)
    requires 4 <= n <= 16 == |x| && Carries(x, c) && -1 <= c[4] <= 1 && forall t :: 1 <= t < 16 ==> 0 <= x[t] < 0x1_0000
    ensures -1 <= c[n] <= 1
  {
    if n > 4 {
      SmallCarries(x, c, n - 1);
      assert 0 <= x[n - 1] + c[n - 1] - 0x1_0000 * c[n - 1 + 1] < 0x1_0000;
    }
  }

  // Two passes normalise anything that fits in 63 bits.
  lemma TwoPasses(x: seq<int>, y: seq<int>, z: seq<int>, c: seq<int>, e: seq<int>)
    requires Carried(x, y, c) && Carried(y, z, e)
    requires -0x4000_8000_0000 <= c[16] <= 0x4000_8000_0000
    ensures Norm(z) && V(z) == V(x) - (2 * c[16] + 2 * e[16]) * P
  {
    LastCarrySmall(y, e);
    CarriedValue(x, y, c);
    CarriedValue(y, z, e);
  }

  // ----- multiplication -----

  lemma SignedProduct(x: int, y: int)
    requires -0x400_0000 <= x <= 0x400_0000 && -0x400_0000 <= y <= 0x400_0000
    ensures -0x10_0000_0000_0000 <= x * y <= 0x10_0000_0000_0000
  {
    var u, v := if x < 0 then -x else x, if y < 0 then -y else y;
    MulBound(u, 0x400_0000, v, 0x400_0000);
    assert x * y == u * v || x * y == -(u * v);
  }

  // Row i of the product: t[i + j] += a * b[j].
  method AddRow(t: array<i64>, b: array<i64>, i: nat, a: i64)
    requires t.Length == 31 && b.Length == 16 && t != b && i < 16
    requires -0x400_0000 <= a <= 0x400_0000 && Within(b[..], 0x400_0000)
    requires Within(t[..], 0x10_0000_0000_0000 * i)
    modifies t
    ensures V(t[..]) == old(V(t[..])) + (Pow(0x1_0000, i) * a) * V(b[..])
    ensures Within(t[..], 0x10_0000_0000_0000 * (i + 1))
  {
    ghost var x, d := t[..], b[..];
    for j := 0 to 16
      invariant forall k :: 0 <= k < i || i + j <= k < 31 ==> t[k] == x[k]
      invariant forall k :: i <= k < i + j ==> t[k] == x[k] + a * d[k - i]
      invariant forall k :: i <= k < i + j ==> -0x10_0000_0000_0000 * (i + 1) <= t[k] <= 0x10_0000_0000_0000 * (i + 1)
    {
      assert x[i + j] == t[i + j] && d[j] == b[j];
      SignedProduct(a, b[j]);
      var p: i64 := a * b[j];
      t[i + j] := t[i + j] + p;
    }
    RowValue(0x1_0000, x, t[..], i, a, d);
  }

  // t = a * b, limb products summed by weight.
  method Product(a: array<i64>, b: array<i64>) returns (t: array<i64>)
    requires a.Length == 16 && b.Length == 16 && Within(a[..], 0x400_0000) && Within(b[..], 0x400_0000)
    ensures fresh(t) && t.Length == 31 && Within(t[..], 0x100_0000_0000_0000)
    ensures V(t[..]) == V(a[..]) * V(b[..])
  {
    t := new i64[31](_ => 0);
    ghost var s, d := a[..], V(b[..]);
    ValZero(0x1_0000, t[..]);
    for i := 0 to 16
      invariant Within(t[..], 0x10_0000_0000_0000 * i)
      invariant V(t[..]) == V(s[..i]) * d
    {
      assert a[i] == s[i];
      AddRow(t, b, i, a[i]);
      assert s[..i + 1] == s[..i] + [s[i]];
      ValAppend(0x1_0000, s[..i], [s[i]]);
      assert Val(0x1_0000, [s[i]]) == s[i];
      RowAlgebra(V(s[..i]), Pow(0x1_0000, i) * s[i], d);
    }
    assert s[..16] == s;
  }

  // Folding the high limbs back with weight 38 subtracts a multiple of 2 * (2^255 - 19).
  lemma FoldedHigh(t: seq<int>, y: seq<int>)
    requires |t| == 31 && |y| == 16 && y[15] == t[15] && forall k :: 0 <= k < 15 ==> y[k] == t[k] + 38 * t[k + 16]
    ensures V(y) == V(t) - (2 * V(t[16..])) * P
  {
    var lo, hi := t[..16], t[16..] + [0];
    assert t == lo + t[16..];
    ValAppend(0x1_0000, lo, t[16..]);
    ValAppend(0x1_0000, t[16..], [0]);
    assert Val(0x1_0000, [0]) == 0 && Pow(0x1_0000, 15) * 0 == 0;
    ValAddScaled(0x1_0000, 38, lo, hi, y);
    PowValues();
  }

  /** M: multiplication modulo 2^255 - 19. */
  method Mul(o: array<i64>, a: array<i64>, b: array<i64>) returns (ghost q: int)
    requires o.Length == 16 && a.Length == 16 && b.Length == 16
    requires Within(a[..], 0x400_0000) && Within(b[..], 0x400_0000)
    modifies o
    ensures Norm(o[..])
    ensures V(o[..]) == old(V(a[..])) * old(V(b[..])) - q * P
  {
    var t := Product(a, b);
    ghost var t0 := t[..];
    FoldCopy(o, t);
    ghost var y, c, e;
    y := o[..];
    FoldedHigh(t0, y);
    c := Car(o);
    ghost var z := o[..];
    e := Car(o);
    TwoPasses(y, z, o[..], c, e);
    q := 2 * V(t0[16..]) + 2 * c[16] + 2 * e[16];
  }

  // t[i] += 38 * t[i + 16], and the low sixteen limbs go to o.
  method FoldCopy(o: array<i64>, t: array<i64>)
    requires o.Length == 16 && t.Length == 31 && o != t && Within(t[..], 0x100_0000_0000_0000)
    modifies o, t
    ensures o[15] == old(t[15]) && forall k :: 0 <= k < 15 ==> o[k] == old(t[k]) + 38 * old(t[k + 16])
    ensures Within(o[..], 0x4000_0000_0000_0000)
  {
    ghost var x := t[..];
    for i := 0 to 15
      invariant forall k :: i <= k < 31 ==> t[k] == x[k]
      invariant forall k :: 0 <= k < i ==> t[k] == x[k] + 38 * x[k + 16]
    {
      assert -0x100_0000_0000_0000 <= x[i] <= 0x100_0000_0000_0000;
      assert -0x100_0000_0000_0000 <= x[i + 16] <= 0x100_0000_0000_0000;
      t[i] := t[i] + 38 * t[i + 16];
    }
    ghost var y := t[..];
    for i := 0 to 16
      invariant t[..] == y
      invariant forall k :: 0 <= k < i ==> o[k] == y[k]
    {
      o[i] := t[i];
    }
  }

  // ----- the field, as residues -----

  ghost function Res(a: seq<int>): int
  {
    V(a) % P
  }

  ghost function FMul(x: int, y: int): int
  {
    (x * y) % P
  }

  ghost function FPow(x: int, e: nat): int
  {
    if e == 0 then 1 else FMul(FPow(x, e - 1), x)
  }

  lemma FMulResidues(x: int, y: int, z: int, q: int)
    requires z == x * y - q * P
    ensures z % P == FMul(x % P, y % P)
  {
    ModShift(x * y, -q, P);
    ModMul(x, x % P, y, y % P, P);
  }

  lemma FMulAssoc(x: int, y: int, z: int)
    ensures FMul(FMul(x, y), z) == FMul(x, FMul(y, z))
  {
    ModMulLeft((x * y) % P, x * y, z, P);
    ModMulLeft((y * z) % P, y * z, x, P);
    assert (x * y) * z == (y * z) * x && ((y * z) % P) * x == x * ((y * z) % P);
  }

  lemma {:induction false} FPowAdd(x: int, a: nat, b: nat)
    ensures FPow(x, a + b) == FMul(FPow(x, a), FPow(x, b))
  {
    if b == 0 {
      FPowRange(x, a);
    } else {
      FPowAdd(x, a, b - 1);
      FMulAssoc(FPow(x, a), FPow(x, b - 1), x);
    }
  }

  lemma FPowRange(x: int, e: nat)
    ensures 0 <= FPow(x, e) < P
  {
  }

  lemma Pow128()
    ensures Pow2(64) == 0x1_0000_0000_0000_0000 && Pow2(128) == 0x1_0000_0000_0000_0000_0000_0000_0000_0000
  {
    Pow2Values();
    Pow2Add(32, 32);
    Pow2Add(64, 64);
  }

  lemma Pow255()
    ensures Pow2(255) == P + 19
    ensures Pow2(252) == 0x1000_0000_0000_0000_0000_0000_0000_0000_0000_0000_0000_0000_0000_0000_0000_0000
  {
    Pow128();
    Pow2Add(128, 128);
    assert Pow2(256) == 2 * Pow2(255);
    assert Pow2(255) == 8 * Pow2(252);
  }

  /** How far the exponent reached by inv25519 stays below 2^(255 - a). */
  function InvDebt(a: nat): nat
  {
    if a >= 5 then 1 else if a == 4 then 2 else if a == 3 then 3 else if a == 2 then 6 else if a == 1 then 11 else 21
  }

  // One square, and one multiplication if the exponent bit is set.
  method SquareMul(c: array<i64>, i: array<i64>, mul: bool, ghost x: int, ghost e: nat)
    requires c.Length == 16 && i.Length == 16 && c != i && Norm(c[..]) && Within(i[..], 0x400_0000)
    requires x == Res(i[..]) && Res(c[..]) == FPow(x, e)
    modifies c
    ensures Norm(c[..]) && Res(c[..]) == FPow(x, 2 * e + (if mul then 1 else 0))
  {
    ghost var q := Mul(c, c, c);
    FMulResidues(old(V(c[..])), old(V(c[..])), V(c[..]), q);
    FPowAdd(x, e, e);
    if mul {
      ghost var v := V(c[..]);
      ghost var q2 := Mul(c, c, i);
      FMulResidues(v, V(i[..]), V(c[..]), q2);
    }
  }

  method Copy(o: array<i64>, a: array<i64>)
    requires o.Length == 16 && a.Length == 16
    modifies o
    ensures o[..] == old(a[..])
  {
    for i := 0 to 16
      invariant forall k :: 0 <= k < i ==> o[k] == old(a[k])
      invariant forall k :: i <= k < 16 ==> a[k] == old(a[k])
    {
      o[i] := a[i];
    }
  }

  /** inv25519: the power p - 2, which is the inverse of every nonzero element. */
  method Inv(o: array<i64>, i: array<i64>)
    requires o.Length == 16 && i.Length == 16 && Norm(i[..])
    modifies o
    ensures Norm(o[..]) && Res(o[..]) == FPow(old(Res(i[..])), P - 2)
  {
    var c := new i64[16];
    Copy(c, i);
    ghost var x, e: nat := Res(i[..]), 1;
    FirstPower(x);
    for a := 254 downto 0
      invariant i[..] == old(i[..]) && Norm(c[..]) && Res(c[..]) == FPow(x, e)
      invariant e + InvDebt(a) == Pow2(255 - a)
    {
      SquareMul(c, i, a != 2 && a != 4, x, e);
      e := 2 * e + (if a != 2 && a != 4 then 1 else 0);
    }
    Pow255();
    Copy(o, c);
  }

  /** pow2523: the power (p - 5) / 8 = 2^252 - 3. */
  method Pow2523(o: array<i64>, i: array<i64>)
    requires o.Length == 16 && i.Length == 16 && Norm(i[..])
    modifies o
    ensures Norm(o[..]) && Res(o[..]) == FPow(old(Res(i[..])), (P - 5) / 8)
  {
    var c := new i64[16];
    Copy(c, i);
    ghost var x, e: nat := Res(i[..]), 1;
    FirstPower(x);
    for a := 251 downto 0
      invariant i[..] == old(i[..]) && Norm(c[..]) && Res(c[..]) == FPow(x, e)
      invariant e + (if a >= 2 then 1 else if a == 1 then 2 else 3) == Pow2(252 - a)
    {
      SquareMul(c, i, a != 1, x, e);
      e := 2 * e + (if a != 1 then 1 else 0);
    }
    Pow255();
    Copy(o, c);
  }

  lemma FirstPower(x: int)
    requires 0 <= x < P
    ensures FPow(x, 1) == x
  {
    assert FPow(x, 0) == 1;
    DivModUnique(1 * x, P, 0, x);
  }

  // ----- linear operations -----

  /** A */
  method Add(o: array<i64>, a: array<i64>, b: array<i64>)
    requires o.Length == 16 && a.Length == 16 && b.Length == 16 && Within(a[..], 0x100_0000)
    requires Within(b[..], 0x100_0000)
    modifies o
    ensures V(o[..]) == old(V(a[..])) + old(V(b[..]))
    ensures forall k :: 0 <= k < 16 ==> o[k] == old(a[k]) + old(b[k])
  {
    ghost var x, y := a[..], b[..];
    for i := 0 to 16
      invariant forall k :: 0 <= k < i ==> o[k] == x[k] + y[k]
      invariant forall k :: i <= k < 16 ==> a[k] == x[k] && b[k] == y[k]
    {
      o[i] := a[i] + b[i];
    }
    ValAddScaled(0x1_0000, 1, x, y, o[..]);
  }

  /** Z */
  method Sub(o: array<i64>, a: array<i64>, b: array<i64>)
    requires o.Length == 16 && a.Length == 16 && b.Length == 16 && Within(a[..], 0x100_0000)
    requires Within(b[..], 0x100_0000)
    modifies o
    ensures V(o[..]) == old(V(a[..])) - old(V(b[..]))
    ensures forall k :: 0 <= k < 16 ==> o[k] == old(a[k]) - old(b[k])
  {
    ghost var x, y := a[..], b[..];
    for i := 0 to 16
      invariant forall k :: 0 <= k < i ==> o[k] == x[k] - y[k]
      invariant forall k :: i <= k < 16 ==> a[k] == x[k] && b[k] == y[k]
    {
      o[i] := a[i] - b[i];
    }
    ValAddScaled(0x1_0000, -1, x, y, o[..]);
  }

  /** The 64-bit two's complement pattern of a signed word, and back. */
  function Bits(x: i64): u64
  {
    if x < 0 then x + 0x1_0000_0000_0000_0000 else x
  }

  function Signed(x: u64): i64
  {
    if x < 0x8000_0000_0000_0000 then x else x - 0x1_0000_0000_0000_0000
  }

  lemma AllOnes(x: u64, y: u64)
    ensures And(0xffff_ffff_ffff_ffff, Xor(x, y)) == Xor(x, y) < 0x1_0000_0000_0000_0000
  {
    Pow128();
    XorBound(x, y, 64);
    AndAll(Xor(x, y), 64);
    AndComm(0xffff_ffff_ffff_ffff, Xor(x, y));
  }

  lemma XorOther(x: u64, y: u64)
    ensures Xor(x, Xor(x, y)) == y
  {
    XorComm(x, y);
    XorComm(x, Xor(x, y));
    XorCancel(y, x);
  }

  // The mask of sel25519 exchanges two words or leaves them.
  lemma Swapped(u: u64, v: u64, b: nat)
    requires b < 2
    ensures var t := And(if b == 1 then 0xffff_ffff_ffff_ffff else 0, Xor(u, v));
            t < 0x1_0000_0000_0000_0000 && Xor(u, t) == (if b == 1 then v else u) &&
              Xor(v, t) == (if b == 1 then u else v)
  {
    if b == 1 {
      AllOnes(u, v);
      XorOther(u, v);
      XorComm(u, v);
      XorOther(v, u);
    }
  }

  /** One limb of sel25519: t = c & (p ^ q); p ^= t; q ^= t, with c all ones or all zeros. */
  method SelLimb(p: i64, q: i64, b: nat) returns (p': i64, q': i64)
    requires b < 2
    ensures if b == 1 then p' == q && q' == p else p' == p && q' == q
  {
    var c: u64 := Bits(-((b as int) - 1) - 1);
    var u, v := Bits(p), Bits(q);
    Swapped(u, v, b);
    var t: u64 := And(c, Xor(u, v));
    p' := Signed(Xor(u, t));
    q' := Signed(Xor(v, t));
  }

  /** sel25519: a branch-free swap of p and q when b is 1. */
  method Sel(p: array<i64>, q: array<i64>, b: nat)
    requires p.Length == 16 && q.Length == 16 && p != q && b < 2
    modifies p, q
    ensures if b == 1 then p[..] == old(q[..]) && q[..] == old(p[..]) else p[..] == old(p[..]) && q[..] == old(q[..])
  {
    for i := 0 to 16
      invariant forall k :: 0 <= k < i ==>
                if b == 1 then p[k] == old(q[k]) && q[k] == old(p[k]) else p[k] == old(p[k]) && q[k] == old(q[k])
      invariant forall k :: i <= k < 16 ==> p[k] == old(p[k]) && q[k] == old(q[k])
    {
      p[i], q[i] := SelLimb(p[i], q[i], b);
    }
  }

  // ----- packing -----

  lemma {:induction false} LastCarryIsFirst(x: seq<int>, c: seq<int>, n: nat)
    requires Norm(x) && Carries(x, c) && 1 <= n <= 16
    ensures -1 <= c[n] <= 1 && (c[n] != 0 ==> c[1] == c[n])
  {
    if n == 1 {
      assert 0 <= x[0] + c[0] - 0x1_0000 * c[0 + 1] < 0x1_0000;
    } else {
      LastCarryIsFirst(x, c, n - 1);
      assert 0 <= x[n - 1] + c[n - 1] - 0x1_0000 * c[n - 1 + 1] < 0x1_0000;
    }
  }

  /** Fully reduced limbs. */
  ghost predicate Reduced(a: seq<int>)
  {
    |a| == 16 && forall t :: 0 <= t < 16 ==> 0 <= a[t] < 0x1_0000
  }

  // A third pass leaves every limb in [0, 2^16).
  lemma ThirdPass(x: seq<int>, y: seq<int>, c: seq<int>)
    requires Norm(x) && Carried(x, y, c)
    ensures Reduced(y)
  {
    LastCarryIsFirst(x, c, 16);
    LastCarryIsFirst(x, c, 1);
    assert 0 <= x[0] + c[0] - 0x1_0000 * c[0 + 1] < 0x1_0000;
  }

  function PLimb(i: nat): int
  {
    if i == 0 then 0xffed else if i < 15 then 0xffff else 0x7fff
  }

  lemma UnborrowedP(x: seq<int>)
    requires |x| == 16 && x[0] == -19 && x[15] == 0x8000 && forall i :: 1 <= i < 15 ==> x[i] == 0
    ensures V(x) == P
  {
    assert x == x[..15] + [0x8000] && x[..15] == [-19] + x[1..15];
    ValAppend(0x1_0000, x[..15], [0x8000]);
    ValAppend(0x1_0000, [-19], x[1..15]);
    ValZero(0x1_0000, x[1..15]);
    assert Val(0x1_0000, [0x8000]) == 0x8000 && Val(0x1_0000, [-19]) == -19;
    PowValues();
    assert Pow(0x1_0000, 16) == 0x1_0000 * Pow(0x1_0000, 15);
  }

  // The limbs of 2^255 - 19: 0x8000 at the top, less 19, with every limb borrowing from the next.
  lemma PLimbs(d: seq<int>)
    requires |d| == 16 && forall i :: 0 <= i < 16 ==> d[i] == PLimb(i)
    ensures V(d) == P
  {
    var x: seq<int> := seq(16, i requires 0 <= i < 16 => if i == 0 then -19 else if i == 15 then 0x8000 else 0);
    var c := seq(17, i requires 0 <= i < 17 => if 1 <= i < 16 then -1 else 0);
    var z := seq(16, i requires 0 <= i < 16 => 0);
    CarryChain(0x1_0000, x, d, z, c);
    ValZero(0x1_0000, z);
    UnborrowedP(x);
  }

  // m = t - (2^255 - 19), with the sign in b.
  method TrialSubtract(t: array<i64>, m: array<i64>) returns (b: nat)
    requires t.Length == 16 && m.Length == 16 && t != m && Reduced(t[..])
    modifies m
    ensures b < 2 && V(m[..]) == V(t[..]) - P
    ensures b == 0 ==> Reduced(m[..])
    ensures b == 1 <==> V(t[..]) < P
  {
    ghost var c;
    b, c := BorrowChain(t, m);
    ghost var d := seq(16, i requires 0 <= i < 16 => PLimb(i));
    CarryChain(0x1_0000, t[..], m[..], d, c);
    PLimbs(d);
    SignOfTop(m[..]);
  }

  // The borrow of a limb difference, (m >> 16) & 1 in two's complement.
  function Borrow(m: i64): (b: int)
    requires -0x1_0000 <= m < 0x1_0000
    ensures b == if m < 0 then 1 else 0
  {
    m / 0x1_0000 % 2
  }

  /** The first i limbs of t - p are in m, all but the last without its borrow. */
  ghost predicate Borrowed(m: seq<int>, x: seq<int>, c: seq<int>, i: nat)
    requires |m| == |x| == 16 && 1 <= i <= 16
  {
    && |c| == i + 1 && c[0] == 0
    && m[i - 1] == x[i - 1] + c[i - 1] - PLimb(i - 1) && -0x1_0000 <= m[i - 1] < 0x1_0000 && c[i] == -Borrow(m[i - 1])
    && forall k {:trigger m[k]} :: 0 <= k < i - 1 ==>
      m[k] == x[k] + c[k] - PLimb(k) - 0x1_0000 * c[k + 1] && 0 <= m[k] < 0x1_0000
  }

  lemma BorrowNext(m: seq<int>, x: seq<int>, c: seq<int>, i: nat, v: int)
    requires |m| == |x| == 16 && 1 <= i < 16 && Borrowed(m, x, c, i) && Reduced(x)
    requires v == x[i] - PLimb(i) - Borrow(m[i - 1])
    ensures -0x1_0000 <= v < 0x1_0000 && Borrowed(m[i := v][i - 1 := m[i - 1] % 0x1_0000], x, c + [-Borrow(v)], i + 1)
  {
    assert m[i - 1] % 0x1_0000 == m[i - 1] + 0x1_0000 * Borrow(m[i - 1]);
  }

  method BorrowChain(t: array<i64>, m: array<i64>) returns (b: nat, ghost c: seq<int>)
    requires t.Length == 16 && m.Length == 16 && t != m && Reduced(t[..])
    modifies m
    ensures |c| == 17 && c[0] == c[16] == 0
    ensures forall k {:trigger m[..][k]} :: 0 <= k < 16 ==> m[..][k] == t[..][k] + c[k] - PLimb(k) - 0x1_0000 * c[k + 1]
    ensures forall k :: 0 <= k < 15 ==> 0 <= m[k] < 0x1_0000
    ensures m[15] < 0x1_0000 && b == if m[15] < 0 then 1 else 0
  {
    ghost var x := t[..];
    assert x[0] == t[0];
    m[0] := t[0] - 0xffed;
    c := [0, -Borrow(m[0])];
    for i := 1 to 15
      invariant t[..] == x && Borrowed(m[..], x, c, i)
    {
      ghost var m0 := m[..];
      BorrowNext(m0, x, c, i, x[i] - PLimb(i) - Borrow(m0[i - 1]));
      m[i] := t[i] - 0xffff - Borrow(m[i - 1]);
      m[i - 1] := m[i - 1] % 0x1_0000;
      assert m[..] == m0[i := m[i]][i - 1 := m[i - 1]];
      c := c + [-Borrow(m[i])];
    }
    ghost var m0 := m[..];
    BorrowNext(m0, x, c, 15, x[15] - PLimb(15) - Borrow(m0[14]));
    m[15] := t[15] - 0x7fff - Borrow(m[14]);
    b := Borrow(m[15]);
    m[14] := m[14] % 0x1_0000;
    assert m[..] == m0[15 := m[15]][14 := m[14]];
    c := c + [0];
  }

  lemma SignOfTop(m: seq<int>)
    requires |m| == 16 && forall k :: 0 <= k < 15 ==> 0 <= m[k] < 0x1_0000
    ensures V(m) < 0 <==> m[15] < 0
  {
    assert m == m[..15] + [m[15]];
    ValAppend(0x1_0000, m[..15], [m[15]]);
    ValBound(0x1_0000, m[..15]);
    assert Val(0x1_0000, [m[15]]) == m[15];
    TopSign(Val(0x1_0000, m[..15]), Pow(0x1_0000, 15), m[15]);
  }

  lemma TopSign(lo: int, p: int, top: int)
    requires 0 <= lo < p
    ensures lo + p * top < 0 <==> top < 0
  {
    assert top < 0 ==> p * top <= -p;
    assert top >= 0 ==> p * top >= 0;
  }

  function Word16(lo: int, hi: int): int
  {
    lo + 0x100 * hi
  }

  // Two bytes a limb.
  lemma {:induction false} BytesOfLimbs(t: seq<int>, o: seq<int>)
    requires |o| == 2 * |t| && forall i :: 0 <= i < |t| ==> Word16(o[2 * i], o[2 * i + 1]) == t[i]
    ensures Val(0x100, o) == V(t)
  {
    if |t| != 0 {
      var o2 := o[1..][1..];
      assert forall i :: 0 <= i < |t| - 1 ==> Word16(o2[2 * i], o2[2 * i + 1]) == t[1..][i] by {
        forall i | 0 <= i < |t| - 1 ensures Word16(o2[2 * i], o2[2 * i + 1]) == t[1..][i] {
          assert Word16(o[2 * (i + 1)], o[2 * (i + 1) + 1]) == t[i + 1];
        }
      }
      BytesOfLimbs(t[1..], o2);
      assert Word16(o[2 * 0], o[2 * 0 + 1]) == t[0];
      assert Val(0x100, o[1..]) == o[1] + 0x100 * Val(0x100, o2);
    }
  }

  // t -= 2^255 - 19 if that leaves it nonnegative.
  method ReduceOnce(t: array<i64>)
    requires t.Length == 16 && Reduced(t[..])
    modifies t
    ensures Reduced(t[..]) && V(t[..]) == (if old(V(t[..])) >= P then old(V(t[..])) - P else old(V(t[..])))
  {
    var m := new i64[16];
    var b := TrialSubtract(t, m);
    Sel(t, m, 1 - b);
  }

  method StoreLimbs(t: array<i64>) returns (o: array<u8>)
    requires t.Length == 16 && Reduced(t[..])
    ensures fresh(o) && o.Length == 32 && Val(0x100, o[..]) == V(t[..])
  {
    o := new u8[32];
    ghost var x := t[..];
    for i := 0 to 16
      invariant forall k {:trigger x[k]} :: 0 <= k < i ==> Word16(o[2 * k], o[2 * k + 1]) == x[k]
    {
      assert x[i] == t[i];
      o[2 * i] := t[i] % 0x100;
      o[2 * i + 1] := t[i] / 0x100;
    }
    BytesOfLimbs(x, o[..]);
  }

  /** pack25519: the unique little-endian encoding of the value in [0, 2^255 - 19). */
  method Pack(n: array<i64>) returns (o: array<u8>)
    requires n.Length == 16 && Within(n[..], 0x4000_0000_0000_0000)
    ensures fresh(o) && o.Length == 32 && Val(0x100, o[..]) == Res(n[..])
  {
    var t := new i64[16];
    Copy(t, n);
    ghost var c, e, f;
    ghost var x := t[..];
    c := Car(t);
    ghost var y := t[..];
    e := Car(t);
    ghost var z := t[..];
    TwoPasses(x, y, z, c, e);
    f := Car(t);
    CarriedValue(z, t[..], f);
    ThirdPass(z, t[..], f);
    ghost var w := V(t[..]);
    ValBound(0x1_0000, t[..]);
    PowValues();
    ReduceOnce(t);
    ReduceOnce(t);
    CanonicalResidue(V(x), w, 2 * c[16] + 2 * e[16] + 2 * f[16], V(t[..]));
    o := StoreLimbs(t);
  }

  lemma CanonicalResidue(v: int, w: int, q: int, r: int)
    requires w == v - q * P && 0 <= w < 2 * P + 38
    requires r == (if w >= 2 * P then w - 2 * P else if w >= P then w - P else w)
    ensures r == v % P
  {
    var k := if w >= 2 * P then 2 else if w >= P then 1 else 0;
    assert v == (q + k) * P + r;
    DivModUnique(v, P, q + k, r);
  }

  /** unpack25519: 32 bytes, the top bit dropped. */
  method Unpack(o: array<i64>, n: seq<u8>)
    requires o.Length == 16 && |n| == 32
    modifies o
    ensures Norm(o[..]) && V(o[..]) == Val(0x100, n) % Pow2(255)
  {
    for i := 0 to 16
      invariant forall k {:trigger o[k]} :: 0 <= k < i ==> Word16(n[2 * k], n[2 * k + 1]) == o[k]
    {
      o[i] := Word16(n[2 * i], n[2 * i + 1]);
    }
    ghost var x := o[..];
    assert forall k {:trigger x[k]} :: 0 <= k < 16 ==> Word16(n[2 * k], n[2 * k + 1]) == x[k] by {
      assert forall k :: 0 <= k < 16 ==> x[k] == o[k];
    }
    BytesOfLimbs(x, n);
    o[15] := o[15] % 0x8000;
    TopBitDropped(x, o[..]);
  }

  lemma TopBitDropped(x: seq<int>, y: seq<int>)
    requires Reduced(x) && |y| == 16 && y[..15] == x[..15] && y[15] == x[15] % 0x8000
    ensures Norm(y) && V(y) == V(x) % Pow2(255)
  {
    assert x == x[..15] + [x[15]] && y == y[..15] + [y[15]];
    ValAppend(0x1_0000, x[..15], [x[15]]);
    ValAppend(0x1_0000, y[..15], [y[15]]);
    assert Val(0x1_0000, [x[15]]) == x[15] && Val(0x1_0000, [y[15]]) == y[15];
    ValBound(0x1_0000, x[..15]);
    PowValues();
    Pow255();
    var p := Pow(0x1_0000, 15);
    assert Pow(0x1_0000, 16) == 0x1_0000 * p;
    DivModUnique(V(x), Pow2(255), x[15] / 0x8000, V(y));
  }
}
