/** Value-level meaning of the `Image` operations: each operation of the
    class is specified by one of these functions on a grid of samples,
    and the properties the operations promise are proved here. */
module Grids {
  import opened Base

  /** Rows of samples; `g[i][j]` is the sample in row i, column j. */
  type Grid = seq<seq<int>>

  function Width(g: Grid): nat
  {
    if g == [] then 0 else |g[0]|
  }

  /** Every row has the same number of samples. */
  predicate Rect(g: Grid)
  {
    forall i :: 0 <= i < |g| ==> |g[i]| == Width(g)
  }

  predicate IsGrid(g: Grid, rows: int, cols: int)
  {
    |g| == rows && forall i :: 0 <= i < |g| ==> |g[i]| == cols
  }

  predicate AllIn(g: Grid, lo: int, hi: int)
  {
    forall i, j :: 0 <= i < |g| && 0 <= j < |g[i]| ==> lo <= g[i][j] <= hi
  }

  lemma GridShape(g: Grid, rows: int, cols: int)
    requires IsGrid(g, rows, cols)
    ensures Rect(g) && (rows > 0 ==> Width(g) == cols)
  {
  }

  function Zeros(rows: nat, cols: nat): (g: Grid)
    ensures IsGrid(g, rows, cols)
  {
    seq(rows, i => seq(cols, j => 0))
  }

  // ---------------------------------------------------------------- crop

  /** The rectangle of rows ulR .. lrR-1 and columns ulC .. lrC-1. */
  function Crop(g: Grid, ulR: int, ulC: int, lrR: int, lrC: int): (r: Grid)
    requires Rect(g) && 0 <= ulR <= lrR <= |g| && 0 <= ulC <= lrC
    requires ulR < lrR ==> lrC <= Width(g)
    ensures IsGrid(r, lrR - ulR, lrC - ulC)
  {
    seq(lrR - ulR, i requires 0 <= i < lrR - ulR => g[ulR + i][ulC..lrC])
  }

  lemma CropAt(g: Grid, ulR: int, ulC: int, lrR: int, lrC: int, i: int, j: int)
    requires Rect(g) && 0 <= ulR <= lrR <= |g| && 0 <= ulC <= lrC <= Width(g)
    requires ulR <= i < lrR && ulC <= j < lrC
    ensures Crop(g, ulR, ulC, lrR, lrC)[i - ulR][j - ulC] == g[i][j]
  {
  }

  /** Cropping to the whole extent gives the grid back. */
  lemma CropWhole(g: Grid)
    requires Rect(g)
    ensures Crop(g, 0, 0, |g|, Width(g)) == g
  {
    var r := Crop(g, 0, 0, |g|, Width(g));
    forall i | 0 <= i < |g| ensures r[i] == g[i] {
      assert g[i][0..Width(g)] == g[i];
    }
  }

  /** A crop of a crop is one crop with the offsets added. */
  lemma CropCrop(g: Grid, ulR: int, ulC: int, lrR: int, lrC: int,
                 ulR2: int, ulC2: int, lrR2: int, lrC2: int)
    requires Rect(g) && 0 <= ulR <= lrR <= |g| && 0 <= ulC <= lrC <= Width(g)
    requires 0 <= ulR2 <= lrR2 <= lrR - ulR && 0 <= ulC2 <= lrC2 <= lrC - ulC
    ensures var c := Crop(g, ulR, ulC, lrR, lrC);
            Rect(c) && Width(c) == (if lrR == ulR then 0 else lrC - ulC) &&
            (lrR2 > ulR2 ==> Crop(c, ulR2, ulC2, lrR2, lrC2)
                             == Crop(g, ulR + ulR2, ulC + ulC2, ulR + lrR2, ulC + lrC2))
  {
    var c := Crop(g, ulR, ulC, lrR, lrC);
    if lrR2 > ulR2 {
      var a := Crop(c, ulR2, ulC2, lrR2, lrC2);
      var b := Crop(g, ulR + ulR2, ulC + ulC2, ulR + lrR2, ulC + lrC2);
      forall i | 0 <= i < |a| ensures a[i] == b[i] {
        var row := g[ulR + ulR2 + i];
        assert c[ulR2 + i] == row[ulC..lrC];
        assert a[i] == row[ulC..lrC][ulC2..lrC2];
        assert b[i] == row[ulC + ulC2..ulC + lrC2];
        SliceOfSlice(row, ulC, lrC, ulC2, lrC2);
      }
    }
  }

  lemma SliceOfSlice(s: seq<int>, a: nat, b: nat, c: nat, d: nat)
    requires a <= b <= |s| && c <= d <= b - a
    ensures s[a..b][c..d] == s[a + c..a + d]
  {
    assert forall i | 0 <= i < d - c :: s[a..b][c..d][i] == s[a + c + i];
  }

  // -------------------------------------------------------- enlarge/shrink

  /** Every sample repeated k times along the row. */
  function EnlargeRow(row: seq<int>, k: nat): (r: seq<int>)
    ensures |r| == |row| * k
  {
    if k == 0 then [] else
    seq(|row| * k, d requires 0 <= d < |row| * k =>
      QuotientBelow(d, k, |row|); row[d / k])
  }

  /** Nearest-neighbour enlargement: each sample becomes a k-by-k block. */
  function Enlarge(g: Grid, k: nat): (r: Grid)
    ensures |r| == |g| * k
  {
    if k == 0 then [] else
    seq(|g| * k, c requires 0 <= c < |g| * k =>
      QuotientBelow(c, k, |g|); EnlargeRow(g[c / k], k))
  }

  lemma EnlargeShape(g: Grid, k: nat)
    requires Rect(g)
    ensures IsGrid(Enlarge(g, k), |g| * k, Width(g) * k)
  {
    var r := Enlarge(g, k);
    forall c | 0 <= c < |r| ensures |r[c]| == Width(g) * k {
      QuotientBelow(c, k, |g|);
    }
  }

  lemma EnlargeAt(g: Grid, k: nat, c: int, d: int)
    requires Rect(g) && k > 0 && 0 <= c < |g| * k && 0 <= d < Width(g) * k
    ensures 0 <= c / k < |g| && 0 <= d / k < Width(g)
    ensures Enlarge(g, k)[c][d] == g[c / k][d / k]
  {
    QuotientBelow(c, k, |g|);
    QuotientBelow(d, k, Width(g));
  }

  /** A cell of the k-by-k block with corner (i*k, j*k) is a copy of
      cell (i, j). */
  lemma EnlargeCell(g: Grid, k: nat, i: int, j: int, c: int, d: int)
    requires Rect(g) && k > 0 && 0 <= i < |g| && 0 <= j < Width(g)
    requires i * k <= c < i * k + k && j * k <= d < j * k + k
    ensures IsGrid(Enlarge(g, k), |g| * k, Width(g) * k)
    ensures 0 <= c < |g| * k && 0 <= d < Width(g) * k
    ensures Enlarge(g, k)[c][d] == g[i][j]
  {
    BlockInside(i, k, |g|);
    BlockInside(j, k, Width(g));
    EnlargeShape(g, k);
    EnlargeAt(g, k, c, d);
    DivModUnique(c, k, i);
    DivModUnique(d, k, j);
  }

  /** Decimation: every k-th sample of every k-th row. */
  function ShrinkRow(row: seq<int>, k: nat): (r: seq<int>)
    requires k > 0
    ensures |r| == |row| / k
  {
    seq(|row| / k, j requires 0 <= j < |row| / k =>
      ProductBelow(j, k, |row|); row[j * k])
  }

  function Shrink(g: Grid, k: nat): (r: Grid)
    requires k > 0
    ensures |r| == |g| / k
  {
    seq(|g| / k, i requires 0 <= i < |g| / k =>
      ProductBelow(i, k, |g|); ShrinkRow(g[i * k], k))
  }

  lemma ShrinkShape(g: Grid, k: nat)
    requires Rect(g) && k > 0
    ensures IsGrid(Shrink(g, k), |g| / k, Width(g) / k)
  {
    var r := Shrink(g, k);
    forall i | 0 <= i < |r| ensures |r[i]| == Width(g) / k {
      ProductBelow(i, k, |g|);
    }
  }

  lemma ShrinkAt(g: Grid, k: nat, i: int, j: int)
    requires Rect(g) && k > 0 && 0 <= i < |g| / k && 0 <= j < Width(g) / k
    ensures 0 <= i * k < |g| && 0 <= j * k < Width(g)
    ensures Shrink(g, k)[i][j] == g[i * k][j * k]
  {
    ProductBelow(i, k, |g|);
    ProductBelow(j, k, Width(g));
  }

  /** Shrinking undoes enlarging by the same factor. */
  lemma {:induction false} ShrinkEnlarge(g: Grid, k: nat)
    requires Rect(g) && k > 0
    ensures Shrink(Enlarge(g, k), k) == g
  {
    var e := Enlarge(g, k);
    var s := Shrink(e, k);
    MulDiv(|g|, k);
    forall i | 0 <= i < |g| ensures s[i] == g[i] {
      ProductBelow(i, k, |e|);
      MulDiv(i, k);
      assert e[i * k] == EnlargeRow(g[i], k);
      MulDiv(|g[i]|, k);
      forall j | 0 <= j < |g[i]| ensures s[i][j] == g[i][j] {
        ProductBelow(j, k, |e[i * k]|);
        MulDiv(j, k);
      }
    }
  }

  // ------------------------------------------------------------- reflect

  /** Row order reversed (the source's horizontal reflection). */
  function ReflectRows(g: Grid): (r: Grid)
    ensures |r| == |g|
    ensures forall i :: 0 <= i < |g| ==> r[|g| - 1 - i] == g[i]
  {
    seq(|g|, i requires 0 <= i < |g| => g[|g| - 1 - i])
  }

  function Reversed(s: seq<int>): (r: seq<int>)
    ensures |r| == |s|
    ensures forall j :: 0 <= j < |s| ==> r[|s| - 1 - j] == s[j]
  {
    seq(|s|, j requires 0 <= j < |s| => s[|s| - 1 - j])
  }

  /** Column order reversed in every row (the vertical reflection). */
  function ReflectCols(g: Grid): (r: Grid)
    ensures |r| == |g|
    ensures forall i, j :: 0 <= i < |g| && 0 <= j < |g[i]| ==>
      |r[i]| == |g[i]| && r[i][|g[i]| - 1 - j] == g[i][j]
  {
    seq(|g|, i requires 0 <= i < |g| => Reversed(g[i]))
  }

  lemma ReflectRowsTwice(g: Grid)
    ensures ReflectRows(ReflectRows(g)) == g
  {
  }

  lemma ReflectColsTwice(g: Grid)
    ensures ReflectCols(ReflectCols(g)) == g
  {
    forall i | 0 <= i < |g| ensures Reversed(Reversed(g[i])) == g[i] {
    }
  }

  // ----------------------------------------------------------- translate

  /** Shift down and right by v; the uncovered band is zero. */
  function Translate(g: Grid, v: nat): (r: Grid)
    requires Rect(g)
    ensures IsGrid(r, |g|, Width(g))
  {
    seq(|g|, i requires 0 <= i < |g| =>
      seq(Width(g), j requires 0 <= j < Width(g) =>
        if v <= i && v <= j then g[i - v][j - v] else 0))
  }

  /** The loop's index law: old cell (i, j) lands at (i+v, j+v) for
      i < rows-v and j < cols-v, and every cell in the top v rows or the
      left v columns stays 0. */
  lemma TranslateAt(g: Grid, v: nat, i: int, j: int)
    requires Rect(g)
    ensures 0 <= i < |g| - v && 0 <= j < Width(g) - v ==>
      Translate(g, v)[i + v][j + v] == g[i][j]
    ensures 0 <= i < |g| && 0 <= j < Width(g) && (i < v || j < v) ==>
      Translate(g, v)[i][j] == 0
  {
  }

  lemma TranslateZero(g: Grid)
    requires Rect(g)
    ensures Translate(g, 0) == g
  {
    var t := Translate(g, 0);
    forall i | 0 <= i < |g| ensures t[i] == g[i] { }
  }

  /** Two shifts add up. */
  lemma TranslateTwice(g: Grid, a: nat, b: nat)
    requires Rect(g)
    ensures Translate(Translate(g, a), b) == Translate(g, a + b)
  {
    var t := Translate(g, a);
    assert Rect(t) && (|t| > 0 ==> Width(t) == Width(g));
    var l, r := Translate(t, b), Translate(g, a + b);
    forall i | 0 <= i < |g| ensures l[i] == r[i] { }
  }

  // ------------------------------------------------- pixelwise combinators

  /** Cellwise truncated mean, sized to `b`. */
  function Average(a: Grid, b: Grid): (r: Grid)
    requires |b| <= |a| && forall i :: 0 <= i < |b| ==> |b[i]| <= |a[i]|
    ensures |r| == |b| && forall i :: 0 <= i < |b| ==> |r[i]| == |b[i]|
    ensures forall i, j :: 0 <= i < |b| && 0 <= j < |b[i]| ==>
      Min(a[i][j], b[i][j]) <= r[i][j] <= Max(a[i][j], b[i][j])
  {
    seq(|b|, i requires 0 <= i < |b| =>
      seq(|b[i]|, j requires 0 <= j < |b[i]| => TDiv(a[i][j] + b[i][j], 2)))
  }

  lemma AverageCommutes(a: Grid, b: Grid)
    requires |a| == |b| && forall i :: 0 <= i < |b| ==> |a[i]| == |b[i]|
    ensures Average(a, b) == Average(b, a)
  {
    var l, r := Average(a, b), Average(b, a);
    forall i | 0 <= i < |b| ensures l[i] == r[i] { }
  }

  lemma {:induction false} AverageRange(a: Grid, b: Grid)
    requires |b| <= |a| && forall i :: 0 <= i < |b| ==> |b[i]| <= |a[i]|
    requires AllIn(a, 0, 255) && AllIn(b, 0, 255)
    ensures AllIn(Average(a, b), 0, 255)
  {
    var r := Average(a, b);
    forall i, j | 0 <= i < |r| && 0 <= j < |r[i]| ensures 0 <= r[i][j] <= 255 {
      TDivBounds(a[i][j] + b[i][j], 2, 0, 255);
    }
  }

  /** `|x - y|`, with differences below 35 treated as sensor noise. */
  function NoiseFloor(d: int): (r: int)
    ensures r == 0 || r >= 35
  {
    if d < 35 then 0 else d
  }

  /** Cellwise thresholded absolute difference, sized to `b`. */
  function Difference(a: Grid, b: Grid): (r: Grid)
    requires |b| <= |a| && forall i :: 0 <= i < |b| ==> |b[i]| <= |a[i]|
    ensures |r| == |b| && forall i :: 0 <= i < |b| ==> |r[i]| == |b[i]|
    ensures forall i, j :: 0 <= i < |r| && 0 <= j < |r[i]| ==> r[i][j] == 0 || r[i][j] >= 35
  {
    seq(|b|, i requires 0 <= i < |b| =>
      seq(|b[i]|, j requires 0 <= j < |b[i]| => NoiseFloor(Abs(a[i][j] - b[i][j]))))
  }

  lemma DifferenceSelf(a: Grid)
    ensures forall i, j :: 0 <= i < |a| && 0 <= j < |a[i]| ==> Difference(a, a)[i][j] == 0
  {
    var d := Difference(a, a);
    forall i, j | 0 <= i < |a| && 0 <= j < |a[i]| ensures d[i][j] == 0 {
      assert d[i][j] == NoiseFloor(Abs(a[i][j] - a[i][j]));
    }
  }

  lemma DifferenceCommutes(a: Grid, b: Grid)
    requires |a| == |b| && forall i :: 0 <= i < |b| ==> |a[i]| == |b[i]|
    ensures Difference(a, b) == Difference(b, a)
  {
    var l, r := Difference(a, b), Difference(b, a);
    forall i | 0 <= i < |b| ensures l[i] == r[i] { }
  }

  /** Tone inversion against the fixed literal 255. */
  function Negate(g: Grid): (r: Grid)
    ensures |r| == |g| && forall i :: 0 <= i < |g| ==> |r[i]| == |g[i]|
    ensures forall i, j :: 0 <= i < |g| && 0 <= j < |g[i]| ==> r[i][j] + g[i][j] == 255
  {
    seq(|g|, i requires 0 <= i < |g| =>
      seq(|g[i]|, j requires 0 <= j < |g[i]| => 255 - g[i][j]))
  }

  lemma NegateTwice(g: Grid)
    ensures Negate(Negate(g)) == g
  {
    var n := Negate(Negate(g));
    forall i | 0 <= i < |g| ensures n[i] == g[i] { }
  }

  lemma NegateRange(g: Grid)
    requires AllIn(g, 0, 255)
    ensures AllIn(Negate(g), 0, 255)
  {
  }

  // ---------------------------------------------------------------- mean

  /** Sum of all samples, row by row. */
  function GridSum(g: Grid): int
  {
    if g == [] then 0 else GridSum(g[..|g| - 1]) + Sum(g[|g| - 1])
  }

  /** Mean sample: truncated total divided by the number of cells. */
  function Mean(g: Grid, rows: int, cols: int): (m: int)
    requires rows > 0 && cols > 0
    ensures 0 <= GridSum(g) ==> 0 <= m && m * (rows * cols) <= GridSum(g) < (m + 1) * (rows * cols)
    ensures GridSum(g) <= 0 ==> m <= 0 && (m - 1) * (rows * cols) < GridSum(g) <= m * (rows * cols)
  {
    TDiv(GridSum(g), rows * cols)
  }

  lemma {:induction false} SumBounds(s: seq<int>, lo: int, hi: int)
    requires forall j :: 0 <= j < |s| ==> lo <= s[j] <= hi
    ensures lo * |s| <= Sum(s) <= hi * |s|
  {
    if s != [] { SumBounds(s[..|s| - 1], lo, hi); }
  }

  lemma {:induction false} GridSumBounds(g: Grid, cols: nat, lo: int, hi: int)
    requires IsGrid(g, |g|, cols) && AllIn(g, lo, hi)
    ensures lo * (|g| * cols) <= GridSum(g) <= hi * (|g| * cols)
  {
    if g != [] {
      var init := g[..|g| - 1];
      GridSumBounds(init, cols, lo, hi);
      SumBounds(g[|g| - 1], lo, hi);
      var n := |init|;
      RowStep(|g|, cols);
      Distribute(lo, n * cols, cols);
      Distribute(hi, n * cols, cols);
    }
  }

  lemma Distribute(a: int, b: int, c: int)
    ensures a * (b + c) == a * b + a * c
  {
  }

  /** The mean lies within the range of the samples. */
  lemma MeanBounds(g: Grid, rows: int, cols: int, lo: int, hi: int)
    requires rows > 0 && cols > 0 && IsGrid(g, rows, cols) && AllIn(g, lo, hi)
    ensures lo <= Mean(g, rows, cols) <= hi
  {
    GridSumBounds(g, cols, lo, hi);
    TDivBounds(GridSum(g), rows * cols, lo, hi);
  }

  /** A grid of one value has that value as its mean. */
  lemma MeanConstant(g: Grid, rows: int, cols: int, v: int)
    requires rows > 0 && cols > 0 && IsGrid(g, rows, cols) && AllIn(g, v, v)
    ensures Mean(g, rows, cols) == v
  {
    MeanBounds(g, rows, cols, v, v);
  }
}
