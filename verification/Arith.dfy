/** Modular arithmetic over the integers. */
module Arith {
  lemma DivModUnique(x: int, d: int, q: int, r: int)
    requires d > 0 && 0 <= r < d && x == q * d + r
    ensures x / d == q && x % d == r
  {
    var q', r' := x / d, x % d;
    assert (q - q') * d == r' - r;
    assert q - q' >= 1 ==> (q - q') * d >= d;
    assert q - q' <= -1 ==> (q - q') * d <= -d;
  }

  // Values that differ by a multiple of m have the same residue.
  lemma ModShift(x: int, k: int, m: int)
    requires m > 0
    ensures (x + k * m) % m == x % m
  {
    DivModUnique(x + k * m, m, x / m + k, x % m);
  }

  lemma ModDiff(x: int, y: int, m: int) returns (k: int)
    requires m > 0 && x % m == y % m
    ensures x == y + k * m
  {
    k := x / m - y / m;
    assert (x / m - y / m) * m == x / m * m - y / m * m;
  }

  lemma ModOfMod(x: int, a: int, b: int)
    requires a > 0 && b > 0 && a * b > 0
    ensures (x % (a * b)) % a == x % a
  {
    var q, r := x / (a * b), x % (a * b);
    assert q * (a * b) == (q * b) * a;
    ModShift(r, q * b, a);
  }

  lemma DivOfDiv(x: int, a: int, b: int)
    requires a > 0 && b > 0 && a * b > 0
    ensures x / (a * b) == (x / a) / b
  {
    var q := x / a;
    var r, q2, r2 := x % a, q / b, q % b;
    assert x == (q2 * b + r2) * a + r;
    assert (q2 * b + r2) * a + r == q2 * (a * b) + (r2 * a + r);
    MulBound(r2, b - 1, a, a);
    assert (b - 1) * a == a * b - a;
    DivModUnique(x, a * b, q2, r2 * a + r);
  }

  lemma ModAdd(x: int, x': int, y: int, y': int, m: int)
    requires m > 0 && x % m == x' % m && y % m == y' % m
    ensures (x + y) % m == (x' + y') % m
  {
    var j := ModDiff(x, x', m);
    var k := ModDiff(y, y', m);
    assert x + y == x' + y' + (j + k) * m;
    ModShift(x' + y', j + k, m);
  }

  lemma ModSub(x: int, x': int, y: int, y': int, m: int)
    requires m > 0 && x % m == x' % m && y % m == y' % m
    ensures (x - y) % m == (x' - y') % m
  {
    var j := ModDiff(x, x', m);
    var k := ModDiff(y, y', m);
    assert x - y == x' - y' + (j - k) * m;
    ModShift(x' - y', j - k, m);
  }

  lemma Distribute(a: int, b: int, m: int, y: int)
    ensures (a + b * m) * y == a * y + (b * y) * m
  {
    var c := b * m;
    assert (a + c) * y == a * y + c * y;
    assert c * y == (b * y) * m;
  }

  lemma ModMulLeft(x: int, x': int, y: int, m: int)
    requires m > 0 && x % m == x' % m
    ensures (x * y) % m == (x' * y) % m
  {
    var j := ModDiff(x, x', m);
    Distribute(x', j, m, y);
    ModShift(x' * y, j * y, m);
  }

  lemma ModMul(x: int, x': int, y: int, y': int, m: int)
    requires m > 0 && x % m == x' % m && y % m == y' % m
    ensures (x * y) % m == (x' * y') % m
  {
    ModMulLeft(x, x', y, m);
    ModMulLeft(y, y', x', m);
    assert x' * y == y * x' && x' * y' == y' * x';
  }

  lemma RowAlgebra(h: int, t: int, d: int)
    ensures (h + t) * d == h * d + t * d
  {
  }

  lemma MulBound(a: int, x: int, b: int, y: int)
    requires 0 <= a <= x && 0 <= b <= y
    ensures 0 <= a * b <= x * y
  {
    assert a * b <= x * b;
    assert x * b <= x * y;
  }
}
