/** The `Image` class: an owned rows-by-columns buffer of integer samples
    with a gray-level field. Every operation builds a fresh temporary
    image with nested loops and then copies it over the receiver, as the
    source does; each is proved to leave the receiver holding the grid
    that the matching function of module Grids computes. */
module ImageProcess {
  import opened Base
  import opened Grids

  /** The samples of a 2-D buffer, row by row. */
  ghost function GridOf(a: array2<int>): (g: Grid)
    reads a
    ensures IsGrid(g, a.Length0, a.Length1)
    ensures Rect(g) && (a.Length0 > 0 ==> Width(g) == a.Length1)
  {
    seq(a.Length0, i requires 0 <= i < a.Length0 reads a =>
      seq(a.Length1, j requires 0 <= j < a.Length1 reads a => a[i, j]))
  }

  /** A buffer that agrees with a grid cell by cell holds that grid. */
  lemma GridOfIs(a: array2<int>, g: Grid)
    requires IsGrid(g, a.Length0, a.Length1)
    requires forall i, j :: 0 <= i < a.Length0 && 0 <= j < a.Length1 ==> a[i, j] == g[i][j]
    ensures GridOf(a) == g
  {
    var h := GridOf(a);
    forall i | 0 <= i < a.Length0 ensures h[i] == g[i] { }
  }

  /** A fresh buffer with the same samples (the deep copy of the copy
      constructor and of assignment). */
  method CopyBuffer(src: array2<int>) returns (dst: array2<int>)
    ensures fresh(dst)
    ensures dst.Length0 == src.Length0 && dst.Length1 == src.Length1
    ensures GridOf(dst) == GridOf(src)
  {
    dst := new int[src.Length0, src.Length1];
    for i := 0 to src.Length0
      invariant forall r, c :: 0 <= r < i && 0 <= c < src.Length1 ==> dst[r, c] == src[r, c]
    {
      for j := 0 to src.Length1
        invariant forall r, c :: 0 <= r < i && 0 <= c < src.Length1 ==> dst[r, c] == src[r, c]
        invariant forall c :: 0 <= c < j ==> dst[i, c] == src[i, c]
      {
        dst[i, j] := src[i, j];
      }
    }
    GridOfIs(dst, GridOf(src));
  }

  class Image {
    var numRows: int
    var numCols: int
    var grayLevels: int
    var pixelVal: array2<int>

    /** The buffer has exactly numRows x numCols cells. */
    ghost predicate Valid()
      reads this
    {
      pixelVal.Length0 == numRows && pixelVal.Length1 == numCols
    }

    ghost function Cells(): Grid
      reads this, pixelVal
    {
      GridOf(pixelVal)
    }

    /** The 0x0 image (the source leaves the row table null). */
    constructor Empty()
      ensures Valid() && numRows == 0 && numCols == 0 && grayLevels == 0
      ensures Cells() == [] && fresh(pixelVal)
    {
      numRows, numCols, grayLevels := 0, 0, 0;
      pixelVal := new int[0, 0];
    }

    /** An image of the given size with every sample zero. */
    constructor (rows: int, cols: int, gray: int)
      requires rows >= 0 && cols >= 0
      ensures Valid() && numRows == rows && numCols == cols && grayLevels == gray
      ensures Cells() == Zeros(rows, cols) && fresh(pixelVal)
    {
      numRows, numCols, grayLevels := rows, cols, gray;
      var a := new int[rows, cols];
      for i := 0 to rows
        invariant forall r, c :: 0 <= r < i && 0 <= c < cols ==> a[r, c] == 0
      {
        for j := 0 to cols
          invariant forall r, c :: 0 <= r < i && 0 <= c < cols ==> a[r, c] == 0
          invariant forall c :: 0 <= c < j ==> a[i, c] == 0
        {
          a[i, j] := 0;
        }
      }
      GridOfIs(a, Zeros(rows, cols));
      pixelVal := a;
    }

    /** Copy constructor: same size, gray level and samples, own buffer. */
    constructor Copy(oldImage: Image)
      requires oldImage.Valid()
      ensures Valid() && numRows == oldImage.numRows && numCols == oldImage.numCols
      ensures grayLevels == oldImage.grayLevels
      ensures Cells() == oldImage.Cells() && fresh(pixelVal)
    {
      var a := CopyBuffer(oldImage.pixelVal);
      numRows, numCols, grayLevels := oldImage.numRows, oldImage.numCols, oldImage.grayLevels;
      pixelVal := a;
    }

    /** Assignment: takes over the size and gray level of `oldImage` and
        allocates a fresh buffer before copying the samples. On
        self-assignment the copy therefore reads the new, uninitialised
        buffer, so only a distinct `oldImage` has its samples copied. */
    method Assign(oldImage: Image)
      requires oldImage.Valid()
      modifies this
      ensures Valid() && numRows == old(oldImage.numRows) && numCols == old(oldImage.numCols)
      ensures grayLevels == old(oldImage.grayLevels) && fresh(pixelVal)
      ensures oldImage != this ==> Cells() == old(oldImage.Cells())
    {
      numRows, numCols, grayLevels := oldImage.numRows, oldImage.numCols, oldImage.grayLevels;
      if oldImage == this {
        // the samples read back are whatever the fresh rows hold
        pixelVal := new int[numRows, numCols];
      } else {
        pixelVal := CopyBuffer(oldImage.pixelVal);
      }
    }

    /** True exactly for the coordinates of a cell of the buffer. */
    predicate InBounds(row: int, col: int)
      reads this
      requires Valid()
      ensures InBounds(row, col) <==> 0 <= row < pixelVal.Length0 && 0 <= col < pixelVal.Length1
    {
      !(row >= numRows || row < 0 || col >= numCols || col < 0)
    }

    function GetPixelVal(row: int, col: int): (v: int)
      reads this, pixelVal
      requires Valid() && InBounds(row, col)
      ensures v == Cells()[row][col]
    {
      pixelVal[row, col]
    }

    method SetPixelVal(row: int, col: int, value: int)
      requires Valid() && InBounds(row, col)
      modifies pixelVal
      ensures Valid()
      ensures Cells() == old(Cells())[row := old(Cells())[row][col := value]]
    {
      pixelVal[row, col] := value;
      GridOfIs(pixelVal, old(Cells())[row := old(Cells())[row][col := value]]);
    }

    /** Crop to rows ulR .. lrR-1 and columns ulC .. lrC-1. */
    method GetSubImage(upperLeftRow: int, upperLeftCol: int, lowerRightRow: int, lowerRightCol: int)
      requires Valid()
      requires 0 <= upperLeftRow <= lowerRightRow <= numRows
      requires 0 <= upperLeftCol <= lowerRightCol <= numCols
      modifies this
      ensures Valid() && numRows == lowerRightRow - upperLeftRow
      ensures numCols == lowerRightCol - upperLeftCol && grayLevels == old(grayLevels)
      ensures Cells() == Crop(old(Cells()), upperLeftRow, upperLeftCol, lowerRightRow, lowerRightCol)
    {
      var width := lowerRightCol - upperLeftCol;
      var height := lowerRightRow - upperLeftRow;
      var tempImage := new Image(height, width, grayLevels);
      CropInto(pixelVal, tempImage.pixelVal, upperLeftRow, upperLeftCol, lowerRightRow, lowerRightCol);
      Assign(tempImage);
    }

    /** Mean sample: the total over all cells, divided as C divides. */
    method MeanGray() returns (mean: int)
      requires Valid() && numRows > 0 && numCols > 0
      ensures mean == Mean(Cells(), numRows, numCols)
    {
      ghost var g := Cells();
      var totalGray := 0;
      for i := 0 to numRows
        invariant totalGray == GridSum(g[..i])
      {
        for j := 0 to numCols
          invariant totalGray == GridSum(g[..i]) + Sum(g[i][..j])
        {
          assert g[i][..j + 1][..j] == g[i][..j];
          totalGray := totalGray + pixelVal[i, j];
        }
        assert g[i][..numCols] == g[i];
        assert g[..i + 1][..i] == g[..i];
      }
      assert g[..numRows] == g;
      var cells := numCols * numRows;
      mean := TDiv(totalGray, cells);
    }

    /** Nearest-neighbour enlargement by `value` in both directions. */
    method EnlargeImage(value: int)
      requires Valid() && value >= 0
      modifies this
      ensures Valid() && numRows == old(numRows) * value && numCols == old(numCols) * value
      ensures grayLevels == old(grayLevels)
      ensures Cells() == Enlarge(old(Cells()), value)
    {
      var rows, cols := numRows * value, numCols * value;
      MulNonneg(numRows, value);
      MulNonneg(numCols, value);
      var tempImage := new Image(rows, cols, grayLevels);
      EnlargeInto(pixelVal, tempImage.pixelVal, value);
      Assign(tempImage);
    }

    /** Decimation: keeps every `value`-th row and column. */
    method ShrinkImage(value: int)
      requires Valid() && value >= 1
      modifies this
      ensures Valid() && numRows == old(numRows) / value && numCols == old(numCols) / value
      ensures grayLevels == old(grayLevels)
      ensures Cells() == Shrink(old(Cells()), value)
    {
      var rows, cols := numRows / value, numCols / value;
      var tempImage := new Image(rows, cols, grayLevels);
      ShrinkInto(pixelVal, tempImage.pixelVal, value);
      Assign(tempImage);
    }

    /** Reverses the row order (flag) or the column order (!flag). */
    method ReflectImage(flag: bool)
      requires Valid()
      modifies this
      ensures Valid() && numRows == old(numRows) && numCols == old(numCols)
      ensures grayLevels == old(grayLevels)
      ensures Cells() == if flag then ReflectRows(old(Cells())) else ReflectCols(old(Cells()))
    {
      var tempImage := new Image.Copy(this);
      ReflectInto(pixelVal, tempImage.pixelVal, flag);
      Assign(tempImage);
    }

    /** Shifts down and right by `value`, the uncovered band staying 0. */
    method TranslateImage(value: int)
      requires Valid() && value >= 0
      modifies this
      ensures Valid() && numRows == old(numRows) && numCols == old(numCols)
      ensures grayLevels == old(grayLevels)
      ensures Cells() == Translate(old(Cells()), value)
    {
      var tempImage := new Image(numRows, numCols, grayLevels);
      TranslateInto(pixelVal, tempImage.pixelVal, value);
      Assign(tempImage);
    }

    /** operator+: cellwise average with `oldImage`, sized like `oldImage`. */
    method Plus(oldImage: Image) returns (result: Image)
      requires Valid() && oldImage.Valid()
      requires oldImage.numRows <= numRows && oldImage.numCols <= numCols
      ensures fresh(result) && fresh(result.pixelVal) && result.Valid()
      ensures result.numRows == oldImage.numRows && result.numCols == oldImage.numCols
      ensures result.grayLevels == oldImage.grayLevels
      ensures result.Cells() == Average(Cells(), oldImage.Cells())
    {
      result := new Image.Copy(oldImage);
      AverageInto(pixelVal, oldImage.pixelVal, result.pixelVal);
    }

    /** operator-: cellwise absolute difference with `oldImage`, differences
        below 35 set to 0, sized like `oldImage`. */
    method Minus(oldImage: Image) returns (result: Image)
      requires Valid() && oldImage.Valid()
      requires oldImage.numRows <= numRows && oldImage.numCols <= numCols
      ensures fresh(result) && fresh(result.pixelVal) && result.Valid()
      ensures result.numRows == oldImage.numRows && result.numCols == oldImage.numCols
      ensures result.grayLevels == oldImage.grayLevels
      ensures result.Cells() == Difference(Cells(), oldImage.Cells())
    {
      result := new Image.Copy(oldImage);
      DifferenceInto(pixelVal, oldImage.pixelVal, result.pixelVal);
    }

    /** Tone inversion: every sample v becomes 255 - v. */
    method NegateImage()
      requires Valid()
      modifies this
      ensures Valid() && numRows == old(numRows) && numCols == old(numCols)
      ensures grayLevels == old(grayLevels)
      ensures Cells() == Negate(old(Cells()))
    {
      var tempImage := new Image(numRows, numCols, grayLevels);
      NegateInto(pixelVal, tempImage.pixelVal);
      Assign(tempImage);
    }
  }

  // The fill loops of the operations above, each writing a temporary
  // buffer `t` from the receiver's buffer `src`.

  method CropInto(src: array2<int>, t: array2<int>, ulR: int, ulC: int, lrR: int, lrC: int)
    requires 0 <= ulR <= lrR <= src.Length0 && 0 <= ulC <= lrC <= src.Length1
    requires t.Length0 == lrR - ulR && t.Length1 == lrC - ulC && t != src
    modifies t
    ensures GridOf(t) == Crop(old(GridOf(src)), ulR, ulC, lrR, lrC)
  {
    ghost var g := GridOf(src);
    ghost var cropped := Crop(g, ulR, ulC, lrR, lrC);
    var width := lrC - ulC;
    for i := ulR to lrR
      invariant forall r, c :: 0 <= r < i - ulR && 0 <= c < width ==> t[r, c] == cropped[r][c]
    {
      var row := i - ulR;
      for j := ulC to lrC
        invariant forall r, c :: 0 <= r < row && 0 <= c < width ==> t[r, c] == cropped[r][c]
        invariant forall c :: 0 <= c < j - ulC ==> t[row, c] == cropped[row][c]
      {
        CropAt(g, ulR, ulC, lrR, lrC, i, j);
        t[row, j - ulC] := src[i, j];
      }
    }
    GridOfIs(t, cropped);
  }

  /** Writes `v` into the k-by-k block whose corner is (r0, c0). */
  method FillBlock(t: array2<int>, r0: int, c0: int, k: nat, v: int)
    requires 0 <= r0 && r0 + k <= t.Length0 && 0 <= c0 && c0 + k <= t.Length1
    modifies t
    ensures forall c, d :: r0 <= c < r0 + k && c0 <= d < c0 + k ==> t[c, d] == v
    ensures forall c, d :: 0 <= c < t.Length0 && 0 <= d < t.Length1 && !(r0 <= c < r0 + k && c0 <= d < c0 + k) ==>
      t[c, d] == old(t[c, d])
  {
    for c := r0 to r0 + k
      invariant forall c', d :: 0 <= c' < t.Length0 && 0 <= d < t.Length1 ==>
        t[c', d] == if r0 <= c' < c && c0 <= d < c0 + k then v else old(t[c', d])
    {
      for d := c0 to c0 + k
        invariant forall c', d' :: 0 <= c' < t.Length0 && 0 <= d' < t.Length1 ==>
          t[c', d'] == if (r0 <= c' < c && c0 <= d' < c0 + k) || (c' == c && c0 <= d' < d) then v else old(t[c', d'])
      {
        t[c, d] := v;
      }
    }
  }

  method EnlargeInto(src: array2<int>, t: array2<int>, k: nat)
    requires t.Length0 == src.Length0 * k && t.Length1 == src.Length1 * k && t != src
    modifies t
    ensures GridOf(t) == Enlarge(old(GridOf(src)), k)
  {
    ghost var g := GridOf(src);
    ghost var big := Enlarge(g, k);
    EnlargeShape(g, k);
    assert IsGrid(big, t.Length0, t.Length1) by {
      if src.Length0 == 0 { assert |big| == 0; } else { assert Width(g) == src.Length1; }
    }
    var enlargeRow := 0;
    for i := 0 to src.Length0
      invariant enlargeRow == i * k && 0 <= enlargeRow <= t.Length0
      invariant forall c, d :: 0 <= c < enlargeRow && 0 <= d < t.Length1 ==> t[c, d] == big[c][d]
    {
      BlockInside(i, k, src.Length0);
      EnlargeBand(src, t, k, i, enlargeRow, big);
      enlargeRow := enlargeRow + k;
    }
    GridOfIs(t, big);
  }

  /** The rows enlargeRow .. enlargeRow+k-1 of the enlargement: one block
      per sample of source row i. */
  method EnlargeBand(src: array2<int>, t: array2<int>, k: nat, i: int, enlargeRow: int, ghost big: Grid)
    requires t.Length0 == src.Length0 * k && t.Length1 == src.Length1 * k && t != src
    requires 0 <= i < src.Length0 && enlargeRow == i * k && 0 <= enlargeRow && enlargeRow + k <= t.Length0
    requires big == Enlarge(GridOf(src), k) && IsGrid(big, t.Length0, t.Length1)
    modifies t
    ensures forall c, d :: enlargeRow <= c < enlargeRow + k && 0 <= d < t.Length1 ==> t[c, d] == big[c][d]
    ensures forall c, d :: 0 <= c < t.Length0 && 0 <= d < t.Length1 && !(enlargeRow <= c < enlargeRow + k) ==>
      t[c, d] == old(t[c, d])
  {
    ghost var g := GridOf(src);
    assert Width(g) == src.Length1;
    var cols, width := src.Length1, t.Length1;
    var enlargeCol := 0;
    for j := 0 to cols
      invariant enlargeCol == j * k && 0 <= enlargeCol <= width
      invariant forall c, d :: enlargeRow <= c < enlargeRow + k && 0 <= d < enlargeCol ==> t[c, d] == big[c][d]
      invariant forall c, d :: 0 <= c < t.Length0 && 0 <= d < t.Length1 && !(enlargeRow <= c < enlargeRow + k) ==>
        t[c, d] == old(t[c, d])
    {
      BlockInside(j, k, cols);
      EnlargeBlock(src, t, k, i, j, enlargeRow, enlargeCol, big);
      enlargeCol := enlargeCol + k;
    }
  }

  /** The k-by-k block of sample (i, j), filled with that sample. */
  method EnlargeBlock(src: array2<int>, t: array2<int>, k: nat, i: int, j: int,
                      enlargeRow: int, enlargeCol: int, ghost big: Grid)
    requires t.Length0 == src.Length0 * k && t.Length1 == src.Length1 * k && t != src
    requires 0 <= i < src.Length0 && enlargeRow == i * k && 0 <= enlargeRow && enlargeRow + k <= t.Length0
    requires 0 <= j < src.Length1 && enlargeCol == j * k && 0 <= enlargeCol && enlargeCol + k <= t.Length1
    requires big == Enlarge(GridOf(src), k) && IsGrid(big, t.Length0, t.Length1)
    modifies t
    ensures forall c, d :: enlargeRow <= c < enlargeRow + k && enlargeCol <= d < enlargeCol + k ==> t[c, d] == big[c][d]
    ensures forall c, d :: 0 <= c < t.Length0 && 0 <= d < t.Length1 &&
                           !(enlargeRow <= c < enlargeRow + k && enlargeCol <= d < enlargeCol + k) ==>
      t[c, d] == old(t[c, d])
  {
    ghost var g := GridOf(src);
    assert Width(g) == src.Length1;
    FillBlock(t, enlargeRow, enlargeCol, k, src[i, j]);
    forall c, d | enlargeRow <= c < enlargeRow + k && enlargeCol <= d < enlargeCol + k
      ensures t[c, d] == big[c][d]
    {
      EnlargeCell(g, k, i, j, c, d);
    }
  }

  method ShrinkInto(src: array2<int>, t: array2<int>, k: nat)
    requires k > 0 && t.Length0 == src.Length0 / k && t.Length1 == src.Length1 / k && t != src
    modifies t
    ensures GridOf(t) == Shrink(old(GridOf(src)), k)
  {
    ghost var g := GridOf(src);
    ghost var small := Shrink(g, k);
    ShrinkShape(g, k);
    assert IsGrid(small, t.Length0, t.Length1) by {
      if src.Length0 == 0 { assert |small| == 0; } else { assert Width(g) == src.Length1; }
    }
    for i := 0 to t.Length0
      invariant forall r, c :: 0 <= r < i && 0 <= c < t.Length1 ==> t[r, c] == small[r][c]
    {
      for j := 0 to t.Length1
        invariant forall r, c :: 0 <= r < i && 0 <= c < t.Length1 ==> t[r, c] == small[r][c]
        invariant forall c :: 0 <= c < j ==> t[i, c] == small[i][c]
      {
        ShrinkAt(g, k, i, j);
        var r, c := i * k, j * k;
        t[i, j] := src[r, c];
      }
    }
    GridOfIs(t, small);
  }

  method ReflectInto(src: array2<int>, t: array2<int>, flag: bool)
    requires t.Length0 == src.Length0 && t.Length1 == src.Length1 && t != src
    modifies t
    ensures GridOf(t) == if flag then ReflectRows(old(GridOf(src))) else ReflectCols(old(GridOf(src)))
  {
    if flag {
      ReflectRowsInto(src, t);
    } else {
      ReflectColsInto(src, t);
    }
  }

  /** Source row i becomes row rows-1-i. */
  method ReflectRowsInto(src: array2<int>, t: array2<int>)
    requires t.Length0 == src.Length0 && t.Length1 == src.Length1 && t != src
    modifies t
    ensures GridOf(t) == ReflectRows(old(GridOf(src)))
  {
    ghost var mirrored := ReflectRows(GridOf(src));
    var rows, cols := src.Length0, src.Length1;
    for i := 0 to rows
      invariant forall r, c :: rows - i <= r < rows && 0 <= c < cols ==> t[r, c] == mirrored[r][c]
    {
      var row := rows - (i + 1);
      for j := 0 to cols
        invariant forall r, c :: row < r < rows && 0 <= c < cols ==> t[r, c] == mirrored[r][c]
        invariant forall c :: 0 <= c < j ==> t[row, c] == mirrored[row][c]
      {
        t[row, j] := src[i, j];
      }
    }
    GridOfIs(t, mirrored);
  }

  /** Source column j becomes column cols-1-j. */
  method ReflectColsInto(src: array2<int>, t: array2<int>)
    requires t.Length0 == src.Length0 && t.Length1 == src.Length1 && t != src
    modifies t
    ensures GridOf(t) == ReflectCols(old(GridOf(src)))
  {
    ghost var mirrored := ReflectCols(GridOf(src));
    var rows, cols := src.Length0, src.Length1;
    for i := 0 to rows
      invariant forall r, c :: 0 <= r < i && 0 <= c < cols ==> t[r, c] == mirrored[r][c]
    {
      for j := 0 to cols
        invariant forall r, c :: 0 <= r < i && 0 <= c < cols ==> t[r, c] == mirrored[r][c]
        invariant forall c :: cols - j <= c < cols ==> t[i, c] == mirrored[i][c]
      {
        t[i, cols - (j + 1)] := src[i, j];
      }
    }
    GridOfIs(t, mirrored);
  }

  method TranslateInto(src: array2<int>, t: array2<int>, k: nat)
    requires t.Length0 == src.Length0 && t.Length1 == src.Length1 && t != src
    requires GridOf(t) == Zeros(t.Length0, t.Length1)
    modifies t
    ensures GridOf(t) == Translate(old(GridOf(src)), k)
  {
    ghost var g := GridOf(src);
    ghost var moved := Translate(g, k);
    var rows, cols := src.Length0, src.Length1;
    assert forall r, c :: 0 <= r < rows && 0 <= c < cols ==> t[r, c] == GridOf(t)[r][c] == 0;
    var i := 0;
    while i < rows - k
      invariant 0 <= i && (rows - k >= 0 ==> i <= rows - k)
      invariant forall r, c :: 0 <= r < rows && 0 <= c < cols ==>
        t[r, c] == if k <= r < i + k && k <= c then src[r - k, c - k] else 0
    {
      TranslateRow(src, t, i, k);
      i := i + 1;
    }
    assert forall r, c :: 0 <= r < rows && 0 <= c < cols ==> t[r, c] == moved[r][c];
    GridOfIs(t, moved);
  }

  /** One pass of the inner loop: row i of the source lands k columns to
      the right in row i+k. */
  method TranslateRow(src: array2<int>, t: array2<int>, i: nat, k: nat)
    requires t.Length0 == src.Length0 && t.Length1 == src.Length1 && t != src
    requires i + k < t.Length0
    modifies t
    ensures forall r, c :: 0 <= r < t.Length0 && 0 <= c < t.Length1 ==>
      t[r, c] == if r == i + k && k <= c then src[i, c - k] else old(t[r, c])
  {
    var j := 0;
    while j < t.Length1 - k
      invariant 0 <= j && (t.Length1 - k >= 0 ==> j <= t.Length1 - k)
      invariant forall r, c :: 0 <= r < t.Length0 && 0 <= c < t.Length1 ==>
        t[r, c] == if r == i + k && k <= c < j + k then src[i, c - k] else old(t[r, c])
    {
      t[i + k, j + k] := src[i, j];
      j := j + 1;
    }
  }

  method AverageInto(a: array2<int>, b: array2<int>, t: array2<int>)
    requires b.Length0 <= a.Length0 && b.Length1 <= a.Length1
    requires t.Length0 == b.Length0 && t.Length1 == b.Length1 && t != a && t != b
    modifies t
    ensures GridOf(t) == Average(old(GridOf(a)), old(GridOf(b)))
  {
    ghost var avg := Average(GridOf(a), GridOf(b));
    var rows, cols := b.Length0, b.Length1;
    for i := 0 to rows
      invariant forall r, c :: 0 <= r < i && 0 <= c < cols ==> t[r, c] == avg[r][c]
    {
      for j := 0 to cols
        invariant forall r, c :: 0 <= r < i && 0 <= c < cols ==> t[r, c] == avg[r][c]
        invariant forall c :: 0 <= c < j ==> t[i, c] == avg[i][c]
      {
        t[i, j] := TDiv(a[i, j] + b[i, j], 2);
      }
    }
    GridOfIs(t, avg);
  }

  method DifferenceInto(a: array2<int>, b: array2<int>, t: array2<int>)
    requires b.Length0 <= a.Length0 && b.Length1 <= a.Length1
    requires t.Length0 == b.Length0 && t.Length1 == b.Length1 && t != a && t != b
    modifies t
    ensures GridOf(t) == Difference(old(GridOf(a)), old(GridOf(b)))
  {
    ghost var diff := Difference(GridOf(a), GridOf(b));
    var rows, cols := b.Length0, b.Length1;
    for i := 0 to rows
      invariant forall r, c :: 0 <= r < i && 0 <= c < cols ==> t[r, c] == diff[r][c]
    {
      for j := 0 to cols
        invariant forall r, c :: 0 <= r < i && 0 <= c < cols ==> t[r, c] == diff[r][c]
        invariant forall c :: 0 <= c < j ==> t[i, c] == diff[i][c]
      {
        var tempGray := Abs(a[i, j] - b[i, j]);
        t[i, j] := if tempGray < 35 then 0 else tempGray;
      }
    }
    GridOfIs(t, diff);
  }

  method NegateInto(src: array2<int>, t: array2<int>)
    requires t.Length0 == src.Length0 && t.Length1 == src.Length1 && t != src
    modifies t
    ensures GridOf(t) == Negate(old(GridOf(src)))
  {
    ghost var negated := Negate(GridOf(src));
    var rows, cols := src.Length0, src.Length1;
    for i := 0 to rows
      invariant forall r, c :: 0 <= r < i && 0 <= c < cols ==> t[r, c] == negated[r][c]
    {
      for j := 0 to cols
        invariant forall r, c :: 0 <= r < i && 0 <= c < cols ==> t[r, c] == negated[r][c]
        invariant forall c :: 0 <= c < j ==> t[i, c] == negated[i][c]
      {
        t[i, j] := -src[i, j] + 255;
      }
    }
    GridOfIs(t, negated);
  }
}
