/** Shared vocabulary: bytes, outcomes, C integer division and a few
    arithmetic facts the other modules lean on. */
module Base {

  /** An `unsigned char`. */
  type byte = b: int | 0 <= b < 256

  datatype Option<+T> = None | Some(value: T)

  datatype Result<+T, +E> = Ok(value: T) | Err(error: E)

  function Abs(x: int): (r: nat)
    ensures r == x || r == -x
  {
    if x < 0 then -x else x
  }

  function Max(a: int, b: int): (m: int)
    ensures m >= a && m >= b && (m == a || m == b)
  {
    if a >= b then a else b
  }

  function Min(a: int, b: int): (m: int)
    ensures m <= a && m <= b && (m == a || m == b)
  {
    if a <= b then a else b
  }

  /** C's `/` on `int` for a positive divisor: the quotient is rounded
      toward zero, so the remainder takes the sign of the dividend. */
  function TDiv(a: int, d: int): (q: int)
    requires d > 0
    ensures 0 <= a ==> 0 <= a - q * d < d
    ensures a <= 0 ==> -d < a - q * d <= 0
  {
    if a >= 0 then a / d else -((-a) / d)
  }

  lemma DivAtMost(a: int, d: int, k: int)
    requires d > 0 && a <= k * d
    ensures a / d <= k
  {
    var q := a / d;
    assert q * d <= a;
    assert (q - k) * d == q * d - k * d;
  }

  lemma DivAtLeast(a: int, d: int, k: int)
    requires d > 0 && k * d <= a
    ensures k <= a / d
  {
    var q := a / d;
    assert a < q * d + d;
    assert (k - q - 1) * d == k * d - q * d - d;
  }

  /** Euclidean quotient and remainder are determined by q*d <= a < q*d + d. */
  lemma DivModUnique(a: int, d: int, q: int)
    requires d > 0 && q * d <= a < q * d + d
    ensures a / d == q && a % d == a - q * d
  {
    var r := a / d;
    assert r * d <= a < r * d + d;
    if r > q {
      MulMonoLe(q + 1, r, d);
    } else if r < q {
      MulMonoLe(r + 1, q, d);
    }
  }

  lemma MulMonoLe(x: int, y: int, d: int)
    requires x <= y && 0 <= d
    ensures x * d <= y * d
  {
    MulNonneg(y - x, d);
    assert (y - x) * d == y * d - x * d;
  }

  /** A dividend below n*d has a quotient below n. */
  lemma QuotientBelow(c: int, d: int, n: int)
    requires d > 0 && 0 <= c < n * d
    ensures 0 <= c / d < n
  {
    var q := c / d;
    assert q * d <= c;
    assert (q - n) * d == q * d - n * d;
  }

  /** i below n/d keeps i*d inside 0 .. n-1. */
  lemma ProductBelow(i: int, d: int, n: int)
    requires d > 0 && 0 <= i < n / d
    ensures 0 <= i * d < n && i * d + d <= n
  {
    var q := n / d;
    assert q * d <= n;
    MulNonneg(q - i - 1, d);
    MulNonneg(i, d);
    assert (q - i - 1) * d == q * d - i * d - d;
  }

  /** The block i*k .. i*k+k-1 of a row (or column) index i < n lies
      inside 0 .. n*k-1. */
  lemma BlockInside(i: int, k: int, n: int)
    requires 0 <= i < n && k >= 0
    ensures 0 <= i * k && i * k + k <= n * k
  {
    MulNonneg(i, k);
    MulNonneg(n - i - 1, k);
    assert (n - i - 1) * k == n * k - i * k - k;
  }

  /** Row `rows - 1` of a `w`-wide buffer starts at (rows-1)*w and ends
      where the first `rows` rows end. */
  lemma RowStep(rows: int, w: int)
    requires rows >= 1 && w >= 0
    ensures 0 <= (rows - 1) * w && (rows - 1) * w + w == rows * w
  {
    MulNonneg(rows - 1, w);
    assert (rows - 1) * w == rows * w - w;
  }

  /** Every index of a `rows`-by-`w` row-major buffer is some row's start
      plus a column. */
  lemma RowCol(k: int, w: nat, rows: nat) returns (y: nat, x: nat)
    requires 0 <= k < rows * w
    ensures y < rows && x < w && k == y * w + x
  {
    if w == 0 {
      ZeroFactor(rows, w);
      assert false;
    }
    y, x := k / w, k % w;
    if y >= rows {
      MulMonoLe(rows, y, w);
      assert false;
    }
  }

  lemma MulNonneg(x: int, y: int)
    requires 0 <= x && 0 <= y
    ensures 0 <= x * y
  {
  }

  lemma ZeroFactor(x: int, y: int)
    ensures x == 0 || y == 0 ==> x * y == 0
  {
  }

  lemma MulDiv(n: int, d: int)
    requires d > 0
    ensures n * d / d == n
  {
    DivModUnique(n * d, d, n);
  }

  /** Bounds on a dividend carry over to the truncated quotient. */
  lemma {:induction false} TDivBounds(a: int, d: int, lo: int, hi: int)
    requires d > 0 && lo * d <= a <= hi * d
    ensures lo <= TDiv(a, d) <= hi
  {
    if a >= 0 {
      DivAtMost(a, d, hi);
      if lo > 0 { DivAtLeast(a, d, lo); }
    } else {
      assert -a <= (-lo) * d;
      DivAtMost(-a, d, -lo);
      if hi < 0 { assert (-hi) * d <= -a; DivAtLeast(-a, d, -hi); }
    }
  }

  lemma TDivExact(v: int, d: int)
    requires d > 0
    ensures TDiv(v * d, d) == v
  {
    TDivBounds(v * d, d, v, v);
  }

  /** Sum of a sequence, peeling the last element (as a loop adds it). */
  function Sum(s: seq<int>): int
  {
    if s == [] then 0 else Sum(s[..|s| - 1]) + s[|s| - 1]
  }

  lemma {:induction false} SumIncrement(s: seq<int>, k: nat)
    requires k < |s|
    ensures Sum(s[k := s[k] + 1]) == Sum(s) + 1
  {
    var t := s[k := s[k] + 1];
    if k == |s| - 1 {
      assert t[..|t| - 1] == s[..|s| - 1];
    } else {
      assert t[..|t| - 1] == s[..|s| - 1][k := s[k] + 1];
      SumIncrement(s[..|s| - 1], k);
    }
  }

  /** Histogram of `s` over the bins 0 .. bins-1. */
  function Counts(s: seq<int>, bins: nat): (c: seq<nat>)
    ensures |c| == bins
    ensures forall v :: 0 <= v < bins ==> (c[v] > 0 <==> v in s)
  {
    seq(bins, v => multiset(s)[v])
  }

  /** Every element lands in exactly one bin, so the bin counts add up to
      the number of elements. */
  lemma {:induction false} CountsSum(s: seq<int>, bins: nat)
    requires forall i :: 0 <= i < |s| ==> 0 <= s[i] < bins
    ensures Sum(Counts(s, bins)) == |s|
  {
    if s == [] {
      SumZeros(Counts(s, bins));
    } else {
      var init, x := s[..|s| - 1], s[|s| - 1];
      assert s == init + [x];
      assert multiset(s) == multiset(init) + multiset{x};
      CountsSum(init, bins);
      var c := Counts(init, bins);
      CountsAppend(init, x, bins);
      SumIncrement(c, x);
    }
  }

  /** One more element bumps exactly its own bin. */
  lemma CountsAppend(s: seq<int>, v: int, bins: nat)
    requires 0 <= v < bins
    ensures Counts(s + [v], bins) == Counts(s, bins)[v := Counts(s, bins)[v] + 1]
  {
    assert multiset(s + [v]) == multiset(s) + multiset{v};
  }

  lemma {:induction false} SumZeros(s: seq<int>)
    requires forall i :: 0 <= i < |s| ==> s[i] == 0
    ensures Sum(s) == 0
  {
    if s != [] { SumZeros(s[..|s| - 1]); }
  }
}
