/** X25519: the Montgomery ladder of section 5 of RFC 7748 over residues, and the
    sixteen-limb implementation with its conditional swaps. */
module X25519 {
  import opened Words
  import opened Arith
  import opened Limbs
  import opened Field25519

  // ----- specification -----

  ghost function FAdd(x: int, y: int): int
  {
    (x + y) % P
  }

  ghost function FSub(x: int, y: int): int
  {
    (x - y) % P
  }

  /** The two points of the ladder, in projective coordinates. */
  datatype Points = Points(x2: int, z2: int, x3: int, z3: int)

  ghost function Swap(b: nat, s: Points): Points
  {
    if b == 1 then Points(s.x3, s.z3, s.x2, s.z2) else s
  }

  /** One step of the ladder: doubling and differential addition. */
  ghost function Step(u: int, s: Points): Points
  {
    var A := FAdd(s.x2, s.z2);
    var AA := FMul(A, A);
    var B := FSub(s.x2, s.z2);
    var BB := FMul(B, B);
    var E := FSub(AA, BB);
    var C := FAdd(s.x3, s.z3);
    var D := FSub(s.x3, s.z3);
    var DA := FMul(D, A);
    var CB := FMul(C, B);
    var sum := FAdd(DA, CB);
    var diff := FSub(DA, CB);
    Points(FMul(AA, BB), FMul(E, FAdd(AA, FMul(121665, E))), FMul(sum, sum), FMul(u, FMul(diff, diff)))
  }

  ghost function BitOf(k: nat, t: nat): nat
  {
    k / Pow2(t) % 2
  }

  /** The loop of the RFC over bits t - 1 .. 0 of k, with its deferred swap. */
  ghost function Ladder(k: nat, u: int, t: nat, s: Points, swap: nat): Points
  {
    if t == 0 then Swap(swap, s)
    else
      var b := BitOf(k, t - 1);
      Ladder(k, u, t - 1, Step(u, Swap((swap + b) % 2, s)), b)
  }

  /** decodeScalar25519: the scalar with its low three bits and top bit cleared and bit 254 set. */
  ghost function ClampScalar(n: seq<u8>): seq<u8>
    requires |n| == 32
  {
    n[0 := n[0] - n[0] % 8][31 := n[31] % 64 + 64]
  }

  /** X25519(n, p): the scalar times the point with u-coordinate p, as an integer below 2^255 - 19. */
  ghost function ScalarMult(n: seq<u8>, p: seq<u8>): int
    requires |n| == 32 && |p| == 32
  {
    var u := LE(p) % Pow2(255) % P;
    var s := Ladder(LE(ClampScalar(n)), u, 255, Points(1, 0, u, 1), 0);
    FMul(s.x2, FPow(s.z2, P - 2))
  }

  // ----- one step on limbs -----

  ghost predicate Elem(a: array<i64>, x: int)
    reads a
  {
    a.Length == 16 && Norm(a[..]) && Res(a[..]) == x
  }

  /** Sums and differences of two normalised elements. */
  ghost predicate Loose(a: array<i64>, x: int)
    reads a
  {
    a.Length == 16 && Within(a[..], 0x400_0000) && Res(a[..]) == x
  }

  method MulR(o: array<i64>, a: array<i64>, b: array<i64>, ghost x: int, ghost y: int)
    requires o.Length == 16 && Loose(a, x) && Loose(b, y)
    modifies o
    ensures Elem(o, FMul(x, y)) && Loose(o, FMul(x, y))
  {
    ghost var u, v := V(a[..]), V(b[..]);
    ghost var q := Mul(o, a, b);
    FMulResidues(u, v, V(o[..]), q);
  }

  method AddR(o: array<i64>, a: array<i64>, b: array<i64>, ghost x: int, ghost y: int)
    requires o.Length == 16 && Elem(a, x) && Elem(b, y)
    modifies o
    ensures Loose(o, FAdd(x, y))
  {
    ghost var u, v := V(a[..]), V(b[..]);
    Add(o, a, b);
    ModAdd(u, x, v, y, P);
  }

  method SubR(o: array<i64>, a: array<i64>, b: array<i64>, ghost x: int, ghost y: int)
    requires o.Length == 16 && Elem(a, x) && Elem(b, y)
    modifies o
    ensures Loose(o, FSub(x, y))
  {
    ghost var u, v := V(a[..]), V(b[..]);
    Sub(o, a, b);
    ModSub(u, x, v, y, P);
  }

  // The sums and differences of the two points, their two squares and the two cross products.
  method StepProducts(a: array<i64>, b: array<i64>, c: array<i64>, d: array<i64>, e: array<i64>, f: array<i64>,
      ghost s: Points)
    requires Elem(a, s.x2) && Elem(c, s.z2) && Elem(b, s.x3) && Elem(d, s.z3) && e.Length == 16 && f.Length == 16
    requires a != b && a != c && a != d && a != e && a != f && b != c && b != d && b != e && b != f
    requires c != d && c != e && c != f && d != e && d != f && e != f
    modifies a, b, c, d, e, f
    ensures Elem(d, FMul(FAdd(s.x2, s.z2), FAdd(s.x2, s.z2))) && Elem(f, FMul(FSub(s.x2, s.z2), FSub(s.x2, s.z2)))
    ensures Elem(a, FMul(FAdd(s.x3, s.z3), FSub(s.x2, s.z2))) && Elem(c, FMul(FSub(s.x3, s.z3), FAdd(s.x2, s.z2)))
  {
    ghost var A, B, C, D := FAdd(s.x2, s.z2), FSub(s.x2, s.z2), FAdd(s.x3, s.z3), FSub(s.x3, s.z3);
    AddR(e, a, c, s.x2, s.z2);
    SubR(a, a, c, s.x2, s.z2);
    AddR(c, b, d, s.x3, s.z3);
    SubR(b, b, d, s.x3, s.z3);
    MulR(d, e, e, A, A);
    MulR(f, a, a, B, B);
    MulR(a, c, a, C, B);
    MulR(c, b, e, D, A);
  }

  // The new points, from the squares AA and BB and the products CB and DA.
  method StepCombine(a: array<i64>, b: array<i64>, c: array<i64>, d: array<i64>, e: array<i64>, f: array<i64>,
                     x: array<i64>, k: array<i64>, ghost u: int, ghost CB: int, ghost DA: int, ghost AA: int,
                     ghost BB: int)
    requires Elem(a, CB) && Elem(c, DA) && Elem(d, AA) && Elem(f, BB) && Elem(x, u) && Elem(k, 121665) && b.Length == 16
    requires e.Length == 16
    requires a != b && a != c && a != d && a != e && a != f && b != c && b != d && b != e && b != f
    requires c != d && c != e && c != f && d != e && d != f && e != f
    requires x != a && x != b && x != c && x != d && x != e && x != f && k != a && k != b && k != c && k != d && k != e
    requires k != f
    modifies a, b, c, d, e, f
    ensures var E := FSub(AA, BB);
            Elem(a, FMul(AA, BB)) && Elem(c, FMul(E, FAdd(FMul(E, 121665), AA)))
    ensures Elem(b, FMul(FAdd(CB, DA), FAdd(CB, DA))) && Elem(d, FMul(FMul(FSub(CB, DA), FSub(CB, DA)), u))
  {
    ghost var sum, diff, E := FAdd(CB, DA), FSub(CB, DA), FSub(AA, BB);
    AddR(e, a, c, CB, DA);
    SubR(a, a, c, CB, DA);
    MulR(b, a, a, diff, diff);
    SubR(c, d, f, AA, BB);
    MulR(a, c, k, E, 121665);
    AddR(a, a, d, FMul(E, 121665), AA);
    MulR(c, c, a, E, FAdd(FMul(E, 121665), AA));
    MulR(a, d, f, AA, BB);
    MulR(d, b, x, FMul(diff, diff), u);
    MulR(b, e, e, sum, sum);
  }

  lemma FMulComm(x: int, y: int)
    ensures FMul(x, y) == FMul(y, x)
  {
    assert x * y == y * x;
  }

  lemma FAddComm(x: int, y: int)
    ensures FAdd(x, y) == FAdd(y, x)
  {
  }

  // The square of a difference does not depend on its sign.
  lemma SquareOfDifference(x: int, y: int)
    ensures FMul(FSub(x, y), FSub(x, y)) == FMul(FSub(y, x), FSub(y, x))
  {
    ModMul(FSub(x, y), x - y, FSub(x, y), x - y, P);
    ModMul(FSub(y, x), y - x, FSub(y, x), y - x, P);
    assert (x - y) * (x - y) == (y - x) * (y - x);
  }

  lemma StepMatches(u: int, s: Points)
    ensures var A, B := FAdd(s.x2, s.z2), FSub(s.x2, s.z2);
            var AA, BB := FMul(A, A), FMul(B, B);
            var E, DA, CB := FSub(AA, BB), FMul(FSub(s.x3, s.z3), A), FMul(FAdd(s.x3, s.z3), B);
            Step(u, s) == Points(FMul(AA, BB), FMul(E, FAdd(FMul(E, 121665), AA)), FMul(FAdd(CB, DA), FAdd(CB, DA)),
                                 FMul(FMul(FSub(CB, DA), FSub(CB, DA)), u))
  {
    var A, B := FAdd(s.x2, s.z2), FSub(s.x2, s.z2);
    var AA, BB := FMul(A, A), FMul(B, B);
    var E, DA, CB := FSub(AA, BB), FMul(FSub(s.x3, s.z3), A), FMul(FAdd(s.x3, s.z3), B);
    FMulComm(121665, E);
    FAddComm(AA, FMul(E, 121665));
    FAddComm(DA, CB);
    SquareOfDifference(DA, CB);
    FMulComm(u, FMul(FSub(CB, DA), FSub(CB, DA)));
  }

  // The body of the loop between the swaps is the ladder step of the RFC.
  method LadderStep(a: array<i64>, b: array<i64>, c: array<i64>, d: array<i64>, e: array<i64>, f: array<i64>,
                    x: array<i64>, k: array<i64>, ghost u: int, ghost s: Points)
    requires Elem(a, s.x2) && Elem(c, s.z2) && Elem(b, s.x3) && Elem(d, s.z3) && e.Length == 16 && f.Length == 16
    requires Elem(x, u) && Elem(k, 121665)
    requires a != b && a != c && a != d && a != e && a != f && b != c && b != d && b != e && b != f
    requires c != d && c != e && c != f && d != e && d != f && e != f
    requires x != a && x != b && x != c && x != d && x != e && x != f && k != a && k != b && k != c && k != d && k != e
    requires k != f
    modifies a, b, c, d, e, f
    ensures var r := Step(u, s); Elem(a, r.x2) && Elem(c, r.z2) && Elem(b, r.x3) && Elem(d, r.z3)
  {
    ghost var A, B := FAdd(s.x2, s.z2), FSub(s.x2, s.z2);
    StepProducts(a, b, c, d, e, f, s);
    StepCombine(a, b, c, d, e, f, x, k, u, FMul(FAdd(s.x3, s.z3), B), FMul(FSub(s.x3, s.z3), A), FMul(A, A),
        FMul(B, B));
    StepMatches(u, s);
  }

  // ----- the whole multiplication -----

  // Bit t of a little-endian number is bit t % 8 of byte t / 8.
  lemma {:induction false} BitOfBytes(z: seq<u8>, t: nat)
    requires t < 8 * |z|
    ensures BitOf(LE(z), t) == z[t / 8] / Pow2(t % 8) % 2
    decreases |z|
  {
    var hi := LE(z[1..]);
    if t < 8 {
      LowBit(z[0], hi, t);
    } else {
      assert (t - 8) / 8 == t / 8 - 1 && (t - 8) % 8 == t % 8;
      assert BitOf(hi, t - 8) == z[t / 8] / Pow2(t % 8) % 2 by { BitOfBytes(z[1..], t - 8); }
      assert BitOf(z[0] + 256 * hi, t) == BitOf(hi, t - 8) by {
        EightUp(t);
        HighBit(z[0], hi, Pow2(t - 8));
      }
    }
  }

  lemma EightUp(t: nat)
    requires t >= 8
    ensures Pow2(t) == 256 * Pow2(t - 8)
  {
    Pow2Values();
    Pow2Add(8, t - 8);
  }

  lemma HighBit(b: nat, hi: nat, p: nat)
    requires b < 256 && p > 0
    ensures (b + 256 * hi) / (256 * p) == hi / p
  {
    DivModUnique(b + 256 * hi, 256, hi, b);
    DivOfDiv(b + 256 * hi, 256, p);
  }

  lemma LowBit(b: u8, hi: nat, t: nat)
    requires t < 8
    ensures (b + 256 * hi) / Pow2(t) % 2 == b / Pow2(t) % 2
  {
    Pow2Add(t, 7 - t);
    assert Pow2(7) == 128;
    LowBitAt(b, hi, Pow2(t), Pow2(7 - t));
  }

  lemma LowBitAt(b: nat, hi: nat, p: nat, m: nat)
    requires p > 0 && p * m == 128
    ensures (b + 256 * hi) / p % 2 == b / p % 2
  {
    var q := 2 * (m * hi);
    assert q * p == 2 * ((p * m) * hi);
    DivModUnique(b + 256 * hi, p, b / p + q, b % p);
    ModShift(b / p, m * hi, 2);
  }

  lemma ClearLow3(x: nat)
    requires x < 256
    ensures And(x, 248) == x - x % 8
  {
    assert Pow2(3) == 8 && Pow2(5) == 32;
    ShlIsProduct(x / 8, 3);
    ShlIsProduct(31, 3);
    AndSplit(x % 8, x / 8, 0, 31, 3);
    AndAll(x / 8, 5);
  }

  lemma KeepLow7(x: nat)
    ensures And(x, 127) == x % 128
  {
    assert Pow2(7) == 128;
    ShlIsProduct(x / 128, 7);
    AndOnes(x % 128, x / 128, 7);
  }

  lemma SetBit6(y: nat)
    requires y < 128
    ensures Or(y, 64) == y % 64 + 64
  {
    assert Pow2(6) == 64;
    ShlIsProduct(y / 64, 6);
    ShlIsProduct(1, 6);
    OrSplitAt(y % 64, y / 64, 0, 1, 6);
    assert Or(y / 64, 1) == 1;
  }

  method ClampLow(x: u8) returns (y: u8)
    ensures y == x - x % 8
  {
    ClearLow3(x);
    y := And(x, 248);
  }

  method Low7(x: u8) returns (y: u8)
    ensures y == x % 128
  {
    KeepLow7(x);
    y := And(x, 127);
  }

  method ClampHigh(x: u8) returns (y: u8)
    ensures y == x % 64 + 64
  {
    var t: nat := Low7(x);
    SetBit6(t);
    ModOfMod(x, 64, 2);
    y := Or(t, 64);
  }

  method ClampBytes(n: seq<u8>) returns (z: seq<u8>)
    requires |n| == 32
    ensures z == ClampScalar(n)
  {
    var hi := ClampHigh(n[31]);
    var lo := ClampLow(n[0]);
    z := n[31 := hi];
    z := z[0 := lo];
  }

  ghost predicate Holds(a: array<i64>, b: array<i64>, c: array<i64>, d: array<i64>, s: Points)
    reads a, b, c, d
  {
    Elem(a, s.x2) && Elem(c, s.z2) && Elem(b, s.x3) && Elem(d, s.z3)
  }

  // One turn of the ladder loop: swap, step, swap back.
  method LadderTurn(a: array<i64>, b: array<i64>, c: array<i64>, d: array<i64>, e: array<i64>, f: array<i64>,
                    x: array<i64>, k: array<i64>, r: nat, ghost u: int, ghost s: Points, ghost swap: nat)
    requires Holds(a, b, c, d, Swap(swap, s)) && e.Length == 16 && f.Length == 16 && r < 2 && swap < 2
    requires Elem(x, u) && Elem(k, 121665)
    requires a != b && a != c && a != d && a != e && a != f && b != c && b != d && b != e && b != f
    requires c != d && c != e && c != f && d != e && d != f && e != f
    requires x != a && x != b && x != c && x != d && x != e && x != f && k != a && k != b && k != c && k != d && k != e
    requires k != f
    modifies a, b, c, d, e, f
    ensures Holds(a, b, c, d, Swap(r, Step(u, Swap((swap + r) % 2, s))))
  {
    Sel(a, b, r);
    Sel(c, d, r);
    LadderStep(a, b, c, d, e, f, x, k, u, Swap((swap + r) % 2, s));
    Sel(a, b, r);
    Sel(c, d, r);
  }

  /** A small constant as sixteen limbs. */
  method Constant(lo: i64, hi: i64) returns (a: array<i64>)
    requires 0 <= lo < 0x1_0000 && 0 <= hi <= 1
    ensures fresh(a) && Elem(a, lo + 0x1_0000 * hi)
  {
    a := new i64[16](_ => 0);
    a[0], a[1] := lo, hi;
    ghost var s := a[..];
    ValZero(0x1_0000, s[1..][1..]);
    assert Val(0x1_0000, s[1..]) == hi + 0x1_0000 * Val(0x1_0000, s[1..][1..]);
    DivModUnique(V(s), P, 0, V(s));
  }

  lemma LadderNext(k: nat, u: int, i: nat, s: Points, swap: nat, r: nat)
    requires r == BitOf(k, i)
    ensures Ladder(k, u, i + 1, s, swap) == Ladder(k, u, i, Step(u, Swap((swap + r) % 2, s)), r)
  {
  }

  // The ladder loop over bits 254 .. 0 of the clamped scalar z.
  method LadderLoop(z: seq<u8>, a: array<i64>, b: array<i64>, c: array<i64>, d: array<i64>, e: array<i64>,
      f: array<i64>,
                    x: array<i64>, k: array<i64>, ghost u: int)
    requires |z| == 32 && Holds(a, b, c, d, Points(1, 0, u, 1)) && e.Length == 16 && f.Length == 16
    requires Elem(x, u) && Elem(k, 121665)
    requires a != b && a != c && a != d && a != e && a != f && b != c && b != d && b != e && b != f
    requires c != d && c != e && c != f && d != e && d != f && e != f
    requires x != a && x != b && x != c && x != d && x != e && x != f && k != a && k != b && k != c && k != d && k != e
    requires k != f
    modifies a, b, c, d, e, f
    ensures Holds(a, b, c, d, Ladder(LE(z), u, 255, Points(1, 0, u, 1), 0))
  {
    ghost var s, swap := Points(1, 0, u, 1), 0;
    for i := 255 downto 0
      invariant Holds(a, b, c, d, Swap(swap, s)) && Elem(x, u) && Elem(k, 121665) && swap < 2
      invariant Ladder(LE(z), u, 255, Points(1, 0, u, 1), 0) == Ladder(LE(z), u, i, s, swap)
    {
      var r := BitAt(z, i);
      LadderTurn(a, b, c, d, e, f, x, k, r, u, s, swap);
      LadderNext(LE(z), u, i, s, swap, r);
      s, swap := Step(u, Swap((swap + r) % 2, s)), r;
    }
  }

  // (z[i >> 3] >> (i & 7)) & 1
  method BitAt(z: seq<u8>, i: nat) returns (r: nat)
    requires i < 8 * |z|
    ensures r == BitOf(LE(z), i) && r < 2
  {
    BitOfBytes(z, i);
    r := z[i / 8] / Pow2(i % 8) % 2;
  }

  method Coordinate(p: seq<u8>) returns (x: array<i64>)
    requires |p| == 32
    ensures fresh(x) && Elem(x, LE(p) % Pow2(255) % P)
  {
    x := new i64[16];
    Unpack(x, p);
    BytesValue(p);
  }

  // a = 1, c = 0, b = x, d = 1
  method InitialPoints(x: array<i64>, ghost u: int) returns (a: array<i64>, b: array<i64>, c: array<i64>, d: array<i64>)
    requires Elem(x, u)
    ensures fresh(a) && fresh(b) && fresh(c) && fresh(d) && a != b && a != c && a != d && b != c && b != d && c != d
    ensures Holds(a, b, c, d, Points(1, 0, u, 1))
  {
    b := new i64[16];
    Copy(b, x);
    a := Constant(1, 0);
    c := Constant(0, 0);
    d := Constant(1, 0);
  }

  /** x25519: for every scalar and u-coordinate, the result of section 5 of RFC 7748. */
  method X25519(n: seq<u8>, p: seq<u8>) returns (q: array<u8>)
    requires |n| == 32 && |p| == 32
    ensures q.Length == 32 && LE(q[..]) == ScalarMult(n, p)
  {
    var z := ClampBytes(n);
    ghost var u := LE(p) % Pow2(255) % P;
    var x := Coordinate(p);
    var a, b, c, d := InitialPoints(x, u);
    var a24 := Constant(0xDB41, 1);
    var e, f := new i64[16], new i64[16];
    LadderLoop(z, a, b, c, d, e, f, x, a24, u);
    q := Affine(a, c, Ladder(LE(z), u, 255, Points(1, 0, u, 1), 0));
  }

  // x2 / z2, packed
  method Affine(a: array<i64>, c: array<i64>, ghost s: Points) returns (q: array<u8>)
    requires Elem(a, s.x2) && Elem(c, s.z2) && a != c
    modifies a, c
    ensures q.Length == 32 && LE(q[..]) == FMul(s.x2, FPow(s.z2, P - 2))
  {
    Inv(c, c);
    MulR(a, a, c, s.x2, FPow(s.z2, P - 2));
    q := Pack(a);
    BytesValue(q[..]);
  }

  lemma {:induction false} BytesValue(b: seq<u8>)
    ensures Val(0x100, b) == LE(b)
  {
    if |b| != 0 { BytesValue(b[1..]); }
  }
}
