/** Sums over sequences of reals, rearrangement, and the Cauchy-Schwarz inequality. */
module Sums {

  function Abs(x: real): real { if x < 0.0 then -x else x }

  function Larger(x: real, y: real): real { if x < y then y else x }

  function Lesser(x: real, y: real): real { if y < x then y else x }

  function Sum(s: seq<real>): real
  {
    if s == [] then 0.0 else Sum(s[..|s| - 1]) + s[|s| - 1]
  }

  lemma {:induction false} SumSplits(a: seq<real>, b: seq<real>)
    ensures Sum(a + b) == Sum(a) + Sum(b)
  {
    if b == [] {
      assert a + b == a;
    } else {
      assert (a + b)[..|a + b| - 1] == a + b[..|b| - 1];
      SumSplits(a, b[..|b| - 1]);
    }
  }

  /** The values less their mean. */
  function Centered(a: seq<real>): seq<real>
    requires a != []
  {
    seq(|a|, i requires 0 <= i < |a| => a[i] - Sum(a) / |a| as real)
  }

  // ---------------------------------------------------------------- rearrangement

  lemma {:induction false} DistinctNatsFit(xs: seq<nat>, m: nat)
    requires forall i | 0 <= i < |xs| :: xs[i] < m
    requires forall i, j | 0 <= i < j < |xs| :: xs[i] != xs[j]
    ensures |xs| <= m
    decreases m
  {
    if xs != [] {
      assert xs[0] < m;
      if i :| 0 <= i < |xs| && xs[i] == m - 1 {
        DistinctNatsFit(xs[..i] + xs[i + 1..], m - 1);
      } else {
        DistinctNatsFit(xs, m - 1);
      }
    }
  }

  /** `order` lists every position below `n` exactly once. */
  predicate IsPermutation(order: seq<nat>, n: nat)
  {
    && |order| == n
    && (forall i | 0 <= i < n :: order[i] < n)
    && (forall i, j | 0 <= i < j < n :: order[i] != order[j])
  }

  lemma PermutationReachesTheLast(order: seq<nat>, n: nat) returns (k: nat)
    requires 0 < n && IsPermutation(order, n)
    ensures k < n && order[k] == n - 1
  {
    if forall i | 0 <= i < n :: order[i] != n - 1 {
      DistinctNatsFit(order, n - 1);
    }
    k :| 0 <= k < n && order[k] == n - 1;
  }

  function Reordered(f: seq<real>, order: seq<nat>): seq<real>
    requires forall i | 0 <= i < |order| :: order[i] < |f|
  {
    seq(|order|, k requires 0 <= k < |order| => f[order[k]])
  }

  /** Taking one entry out of the middle takes its value out of the sum. */
  lemma SumWithout(s: seq<real>, k: nat)
    requires k < |s|
    ensures Sum(s) == Sum(s[..k] + s[k + 1..]) + s[k]
  {
    hide Sum;
    var low, high := s[..k], s[k + 1..];
    SumOfOne(s[k]);
    CutAt(s, k);
    SumSplits(low + [s[k]], high);
    SumSplits(low, [s[k]]);
    SumSplits(low, high);
  }

  lemma CutAt(s: seq<real>, k: nat)
    requires k < |s|
    ensures s == (s[..k] + [s[k]]) + s[k + 1..]
  {
  }

  lemma SumOfOne(x: real)
    ensures Sum([x]) == x
  {
    assert [x][..0] == [];
  }

  lemma WithoutTheLast(order: seq<nat>, n: nat, k: nat)
    requires 0 < n && IsPermutation(order, n) && k < n && order[k] == n - 1
    ensures IsPermutation(order[..k] + order[k + 1..], n - 1)
  {
    var rest := order[..k] + order[k + 1..];
    forall i | 0 <= i < n - 1 ensures rest[i] < n - 1 {
      assert rest[i] == order[if i < k then i else i + 1];
    }
    forall i, j | 0 <= i < j < n - 1 ensures rest[i] != rest[j] {
      assert rest[i] == order[if i < k then i else i + 1] && rest[j] == order[if j < k then j else j + 1];
    }
  }

  lemma {:induction false} SumIgnoresOrder(f: seq<real>, order: seq<nat>)
    requires IsPermutation(order, |f|)
    ensures Sum(Reordered(f, order)) == Sum(f)
  {
    if f != [] {
      var n := |f|;
      var k := PermutationReachesTheLast(order, n);
      var rest := order[..k] + order[k + 1..];
      WithoutTheLast(order, n, k);
      SumIgnoresOrder(f[..n - 1], rest);
      ReorderedWithout(f, order, k);
      var g := Reordered(f, order);
      SumWithout(g, k);
      hide IsPermutation, Reordered;
    }
  }

  lemma ReorderedWithout(f: seq<real>, order: seq<nat>, k: nat)
    requires f != [] && IsPermutation(order, |f|) && k < |f| && order[k] == |f| - 1
    requires IsPermutation(order[..k] + order[k + 1..], |f| - 1)
    ensures var g := Reordered(f, order);
      |g| == |f| && g[k] == f[|f| - 1] && Reordered(f[..|f| - 1], order[..k] + order[k + 1..]) == g[..k] + g[k + 1..]
  {
  }

  // ---------------------------------------------------------------- Cauchy-Schwarz

  /** Sum of products, in order. */
  function Dot(a: seq<real>, b: seq<real>): real
    requires |a| == |b|
  {
    if a == [] then 0.0
    else Dot(a[..|a| - 1], b[..|b| - 1]) + a[|a| - 1] * b[|b| - 1]
  }

  lemma SquareSign(x: real)
    ensures 0.0 <= x * x && (x * x == 0.0 <==> x == 0.0)
  {
    if x > 0.0 { ProductSign(x, x); } else if x < 0.0 { ProductSign(-x, -x); assert x * x == (-x) * (-x); }
  }

  lemma ProductSign(x: real, y: real)
    requires 0.0 < y
    ensures 0.0 < x * y <==> 0.0 < x
    ensures x * y == 0.0 <==> x == 0.0
  {
  }

  lemma {:induction false} SquaresAreNonNegative(a: seq<real>)
    ensures 0.0 <= Dot(a, a)
    ensures Dot(a, a) == 0.0 <==> forall i | 0 <= i < |a| :: a[i] == 0.0
  {
    if a != [] {
      var n := |a| - 1;
      SquaresAreNonNegative(a[..n]);
      SquareSign(a[n]);
      assert forall i | 0 <= i < n :: a[..n][i] == a[i];
    }
  }

  /** `t * a - b`, entry by entry. */
  function Residual(t: real, a: seq<real>, b: seq<real>): seq<real>
    requires |a| == |b|
  {
    seq(|a|, i requires 0 <= i < |a| => t * a[i] - b[i])
  }

  lemma ResidualPrefix(t: real, a: seq<real>, b: seq<real>, n: nat)
    requires |a| == |b| == n + 1
    ensures Residual(t, a, b)[..n] == Residual(t, a[..n], b[..n])
  {
    forall i | 0 <= i < n ensures Residual(t, a, b)[..n][i] == Residual(t, a[..n], b[..n])[i] {
      assert a[..n][i] == a[i] && b[..n][i] == b[i];
    }
  }

  lemma SquareOfResidual(t: real, x: real, y: real, A: real, B: real, C: real)
    ensures (t * t * A - 2.0 * t * B + C) + (t * x - y) * (t * x - y)
         == t * t * (A + x * x) - 2.0 * t * (B + x * y) + (C + y * y)
  {
    assert (t * x - y) * (t * x - y) == t * t * (x * x) - 2.0 * t * (x * y) + y * y;
    assert t * t * (A + x * x) == t * t * A + t * t * (x * x);
    assert 2.0 * t * (B + x * y) == 2.0 * t * B + 2.0 * t * (x * y);
  }

  lemma {:induction false} ResidualSquared(t: real, a: seq<real>, b: seq<real>)
    requires |a| == |b|
    ensures Dot(Residual(t, a, b), Residual(t, a, b)) == t * t * Dot(a, a) - 2.0 * t * Dot(a, b) + Dot(b, b)
  {
    if a != [] {
      var n := |a| - 1;
      ResidualSquared(t, a[..n], b[..n]);
      ResidualPrefix(t, a, b, n);
      SquareOfResidual(t, a[n], b[n], Dot(a[..n], a[..n]), Dot(a[..n], b[..n]), Dot(b[..n], b[..n]));
    }
  }

  /** The entries of `b` are one multiple of those of `a`, or `a` is all zero. */
  ghost predicate Proportional(a: seq<real>, b: seq<real>)
    requires |a| == |b|
  {
    (forall i | 0 <= i < |a| :: a[i] == 0.0) || exists t: real :: Residual(t, a, b) == Zeros(|a|)
  }

  function Zeros(n: nat): seq<real>
  {
    seq(n, _ => 0.0)
  }

  lemma Discriminant(A: real, B: real, C: real, t: real, q: real)
    requires 0.0 < A && t * A == B
    requires q == t * t * A - 2.0 * t * B + C && 0.0 <= q
    ensures B * B <= A * C && (B * B == A * C <==> q == 0.0)
  {
    assert t * t * A == t * B;
    assert q * A == A * C - B * B by { assert (C - t * B) * A == A * C - B * (t * A); }
    ProductSign(q, A);
  }

  lemma {:induction false} CauchySchwarz(a: seq<real>, b: seq<real>)
    requires |a| == |b|
    ensures Dot(a, b) * Dot(a, b) <= Dot(a, a) * Dot(b, b)
    ensures Dot(a, b) * Dot(a, b) == Dot(a, a) * Dot(b, b) <==> Proportional(a, b)
  {
    SquaresAreNonNegative(a);
    hide Dot;
    if Dot(a, a) == 0.0 {
      DotWithZero(a, b);
    } else {
      var t := Dot(a, b) / Dot(a, a);
      var r := Residual(t, a, b);
      ResidualSquared(t, a, b);
      SquaresAreNonNegative(r);
      Discriminant(Dot(a, a), Dot(a, b), Dot(b, b), t, Dot(r, r));
      if Dot(r, r) == 0.0 {
        assert r == Zeros(|a|);
      } else if u: real :| Residual(u, a, b) == Zeros(|a|) {
        MultipleIsTight(u, a, b);
      }
    }
  }

  lemma {:induction false} DotWithZero(a: seq<real>, b: seq<real>)
    requires |a| == |b| && forall i | 0 <= i < |a| :: a[i] == 0.0
    ensures Dot(a, b) == 0.0
  {
    if a != [] { DotWithZero(a[..|a| - 1], b[..|b| - 1]); }
  }

  lemma {:induction false} MultipleIsScaled(u: real, a: seq<real>, b: seq<real>)
    requires |a| == |b| && Residual(u, a, b) == Zeros(|a|)
    ensures Dot(a, b) == u * Dot(a, a) && Dot(b, b) == u * Dot(a, b)
  {
    if a != [] {
      var n := |a| - 1;
      ResidualPrefix(u, a, b, n);
      assert Residual(u, a[..n], b[..n]) == Zeros(n);
      MultipleIsScaled(u, a[..n], b[..n]);
      assert Residual(u, a, b)[n] == 0.0;
      Scaled(u, a[n], b[n], Dot(a[..n], a[..n]), Dot(a[..n], b[..n]));
    }
  }

  lemma Scaled(u: real, x: real, y: real, A: real, B: real)
    requires y == u * x
    ensures u * A + x * y == u * (A + x * x)
    ensures u * B + y * y == u * (B + x * y)
  {
    assert x * y == u * (x * x);
    assert y * y == u * (x * y);
  }

  lemma {:induction false} MultipleIsTight(u: real, a: seq<real>, b: seq<real>)
    requires |a| == |b| && Residual(u, a, b) == Zeros(|a|)
    ensures Dot(a, b) * Dot(a, b) == Dot(a, a) * Dot(b, b)
  {
    MultipleIsScaled(u, a, b);
    hide Dot, Residual;
    Tight(u, Dot(a, a), Dot(a, b), Dot(b, b));
  }

  lemma Tight(u: real, A: real, B: real, C: real)
    requires B == u * A && C == u * B
    ensures B * B == A * C
  {
    assert (u * A) * B == A * (u * B);
  }
}
