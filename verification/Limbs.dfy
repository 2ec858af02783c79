/** Numbers as sequences of signed limbs, least significant first, in any base.

    Limbs need not be reduced: a limb may be negative or exceed the base.  `CarryChain`
    is the one fact behind every carry loop of the field and scalar code. */
module Limbs {
  ghost function Pow(b: int, n: nat): int
  {
    if n == 0 then 1 else b * Pow(b, n - 1)
  }

  ghost function Val(b: int, x: seq<int>): int
  {
    if |x| == 0 then 0 else x[0] + b * Val(b, x[1..])
  }

  // Limb t takes in carry c[t], gives up d[t] and passes carry c[t+1] on.
  lemma {:induction false} CarryChain(b: int, x: seq<int>, y: seq<int>, d: seq<int>, c: seq<int>)
    requires |x| == |y| == |d| && |c| == |x| + 1
    requires forall t {:trigger y[t]} :: 0 <= t < |x| ==> y[t] == x[t] + c[t] - d[t] - b * c[t + 1]
    ensures Val(b, y) + Pow(b, |x|) * c[|x|] == Val(b, x) - Val(b, d) + c[0]
  {
    var n := |x|;
    if n != 0 {
      CarryChain(b, x[1..], y[1..], d[1..], c[1..]);
      CarryStep(b, x[0], y[0], d[0], c[0], c[1], Val(b, x[1..]), Val(b, y[1..]), Val(b, d[1..]), Pow(b, n - 1), c[n]);
    }
  }

  lemma CarryStep(b: int, x0: int, y0: int, d0: int, c0: int, c1: int, x: int, y: int, d: int, p: int, c: int)
    requires y0 == x0 + c0 - d0 - b * c1 && y + p * c == x - d + c1
    ensures (y0 + b * y) + (b * p) * c == (x0 + b * x) - (d0 + b * d) + c0
  {
    assert b * (y + p * c) == b * (x - d + c1);
    assert b * (y + p * c) == b * y + (b * p) * c;
    assert b * (x - d + c1) == b * x - b * d + b * c1;
  }

  lemma {:induction false} ValAppend(b: int, x: seq<int>, y: seq<int>)
    ensures Val(b, x + y) == Val(b, x) + Pow(b, |x|) * Val(b, y)
  {
    if |x| == 0 {
      assert x + y == y;
    } else {
      assert (x + y)[1..] == x[1..] + y;
      ValAppend(b, x[1..], y);
      AppendStep(b, Val(b, x[1..]), Pow(b, |x| - 1), Val(b, y));
    }
  }

  lemma AppendStep(b: int, x: int, p: int, y: int)
    ensures b * (x + p * y) == b * x + (b * p) * y
  {
  }

  lemma {:induction false} ValScale(b: int, k: int, x: seq<int>, y: seq<int>)
    requires |x| == |y| && forall t :: 0 <= t < |x| ==> y[t] == k * x[t]
    ensures Val(b, y) == k * Val(b, x)
  {
    if |x| != 0 {
      ValScale(b, k, x[1..], y[1..]);
      ScaleStep(b, k, x[0], Val(b, x[1..]));
    }
  }

  lemma ScaleStep(b: int, k: int, x0: int, x: int)
    ensures k * x0 + b * (k * x) == k * (x0 + b * x)
  {
    assert b * (k * x) == k * (b * x);
  }

  lemma {:induction false} ValAddScaled(b: int, k: int, x: seq<int>, l: seq<int>, y: seq<int>)
    requires |x| == |l| == |y| && forall t :: 0 <= t < |x| ==> y[t] == x[t] + k * l[t]
    ensures Val(b, y) == Val(b, x) + k * Val(b, l)
  {
    if |x| != 0 {
      ValAddScaled(b, k, x[1..], l[1..], y[1..]);
      ScaleStep(b, k, l[0], Val(b, l[1..]));
      assert b * (Val(b, x[1..]) + k * Val(b, l[1..])) == b * Val(b, x[1..]) + b * (k * Val(b, l[1..]));
    }
  }

  lemma {:induction false} ValZero(b: int, x: seq<int>)
    requires forall t :: 0 <= t < |x| ==> x[t] == 0
    ensures Val(b, x) == 0
  {
    if |x| != 0 { ValZero(b, x[1..]); }
  }

  // Reduced limbs give a value below b^n, and every such value once.
  lemma {:induction false} ValBound(b: int, x: seq<int>)
    requires b > 0 && forall t :: 0 <= t < |x| ==> 0 <= x[t] < b
    ensures 0 <= Val(b, x) < Pow(b, |x|)
  {
    if |x| != 0 {
      ValBound(b, x[1..]);
      BoundStep(b, x[0], Val(b, x[1..]), Pow(b, |x| - 1));
    }
  }

  lemma BoundStep(b: int, x0: int, x: int, p: int)
    requires 0 <= x0 < b && 0 <= x < p
    ensures 0 <= x0 + b * x < b * p
  {
    assert b * x <= b * (p - 1);
    assert b * (p - 1) == b * p - b;
  }

  // Changing a middle stretch of limbs changes the value by that much, shifted.
  lemma {:induction false} MiddleChange(b: int, x: seq<int>, y: seq<int>, lo: nat, hi: nat)
    requires lo <= hi <= |x| == |y| && x[..lo] == y[..lo] && x[hi..] == y[hi..]
    ensures Val(b, y) - Val(b, x) == Pow(b, lo) * (Val(b, y[lo..hi]) - Val(b, x[lo..hi]))
  {
    if lo == 0 {
      assert x == x[0..hi] + x[hi..] && y == y[0..hi] + y[hi..];
      ValAppend(b, x[0..hi], x[hi..]);
      ValAppend(b, y[0..hi], y[hi..]);
    } else {
      assert x[0] == x[..lo][0] == y[0];
      assert x[1..][..lo - 1] == x[..lo][1..] && y[1..][..lo - 1] == y[..lo][1..];
      assert x[1..][hi - 1..] == x[hi..] && y[1..][hi - 1..] == y[hi..];
      assert x[1..][lo - 1..hi - 1] == x[lo..hi] && y[1..][lo - 1..hi - 1] == y[lo..hi];
      MiddleChange(b, x[1..], y[1..], lo - 1, hi - 1);
      MiddleStep(b, Val(b, x[1..]), Val(b, y[1..]), Pow(b, lo - 1), Val(b, y[lo..hi]) - Val(b, x[lo..hi]));
    }
  }

  lemma MiddleStep(b: int, x: int, y: int, p: int, d: int)
    requires y - x == p * d
    ensures b * y - b * x == (b * p) * d
  {
    assert b * (y - x) == b * (p * d);
  }

  // Adding a times d, shifted up by i limbs.
  lemma {:induction false} RowValue(b: int, x: seq<int>, y: seq<int>, i: nat, a: int, d: seq<int>)
    requires |x| == |y| && i + |d| <= |x|
    requires forall k :: 0 <= k < i || i + |d| <= k < |x| ==> y[k] == x[k]
    requires forall k :: i <= k < i + |d| ==> y[k] == x[k] + a * d[k - i]
    ensures Val(b, y) == Val(b, x) + (Pow(b, i) * a) * Val(b, d)
    decreases |x|
  {
    if i == 0 && |d| == 0 {
      assert x == y;
      assert Val(b, d) == 0;
    } else if i == 0 {
      RowValue(b, x[1..], y[1..], 0, a, d[1..]);
      RowHere(b, Val(b, x[1..]), Val(b, y[1..]), a, Val(b, d[1..]), d[0]);
    } else {
      RowValue(b, x[1..], y[1..], i - 1, a, d);
      RowAbove(b, Val(b, x[1..]), Val(b, y[1..]), Pow(b, i - 1), a, Val(b, d));
    }
  }

  lemma RowHere(b: int, x: int, y: int, a: int, d: int, d0: int)
    requires y == x + (1 * a) * d
    ensures a * d0 + b * y == b * x + (1 * a) * (d0 + b * d)
  {
    assert b * y == b * x + b * (a * d);
    assert b * (a * d) == a * (b * d);
  }

  lemma RowAbove(b: int, x: int, y: int, p: int, a: int, d: int)
    requires y == x + (p * a) * d
    ensures b * y == b * x + ((b * p) * a) * d
  {
    assert b * y == b * x + b * ((p * a) * d);
    assert b * ((p * a) * d) == ((b * p) * a) * d;
  }
}
