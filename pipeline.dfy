/** The integer stages of the demo program: 1-2-1 Gaussian smoothing of a
    gray image held row-major in a `width * height` byte buffer, ½
    decimation, the 256-bin gray histogram, binary thresholding, and the
    hue histogram, its dominant bin and the hue segmentation of a colour
    image. */
module Pipeline {
  import opened Base
  import opened Rgba

  // ------------------------------------------------------------ 1-2-1 kernel

  /** `(a + 2*b + c) / 4` on unsigned sums: never outside the range of
      its three samples. */
  function Blur(a: byte, b: byte, c: byte): (v: byte)
    ensures Min(a, Min(b, c)) <= v <= Max(a, Max(b, c))
  {
    (a + 2 * b + c) / 4
  }

  // --------------------------------------------------------- filterGauss3x1

  /** One pass of the inner loop of `filterGauss3x1` on the row starting at
      `rowStart`: columns 1 .. w-2 smoothed along the row from `s`; every
      other byte of `d` kept. */
  function HRow(d: seq<byte>, s: seq<byte>, rowStart: nat, w: nat): (r: seq<byte>)
    requires |s| == |d| && rowStart + w <= |d|
    ensures |r| == |d|
    ensures forall k :: 0 <= k < |d| && (k <= rowStart || rowStart + w - 1 <= k) ==> r[k] == d[k]
  {
    seq(|d|, k requires 0 <= k < |d| =>
      if rowStart + 1 <= k < rowStart + w - 1 then HBlur(s, k) else d[k])
  }

  /** The horizontal kernel at byte `k`, from its left and right
      neighbours. */
  function HBlur(s: seq<byte>, k: nat): byte
    requires 1 <= k && k + 1 < |s|
  {
    Blur(s[k - 1], s[k], s[k + 1])
  }

  /** `filterGauss3x1(d, s, w, rows)`: the first `rows` rows done. */
  function Gauss3x1(d: seq<byte>, s: seq<byte>, w: nat, rows: nat): (r: seq<byte>)
    requires |s| == |d| && rows * w <= |d|
    ensures |r| == |d|
    decreases rows
  {
    if rows == 0 then d
    else
      RowStep(rows, w);
      HRow(Gauss3x1(d, s, w, rows - 1), s, (rows - 1) * w, w)
  }

  /** Bytes beyond the first `rows` rows are untouched. */
  lemma {:induction false} Gauss3x1Beyond(d: seq<byte>, s: seq<byte>, w: nat, rows: nat, k: nat)
    requires |s| == |d| && rows * w <= k < |d|
    ensures Gauss3x1(d, s, w, rows)[k] == d[k]
    decreases rows
  {
    if rows > 0 {
      RowStep(rows, w);
      Gauss3x1Beyond(d, s, w, rows - 1, k);
    }
  }

  /** Cell (y, x) after the pass: smoothed along its row in columns
      1 .. w-2, untouched in the first and last column. */
  lemma {:induction false} Gauss3x1At(d: seq<byte>, s: seq<byte>, w: nat, rows: nat, y: nat, x: nat)
    requires |s| == |d| && rows * w <= |d| && y < rows && x < w
    ensures y * w + w <= |d| &&
      Gauss3x1(d, s, w, rows)[y * w + x] ==
        if 1 <= x < w - 1 then Blur(s[y * w + x - 1], s[y * w + x], s[y * w + x + 1]) else d[y * w + x]
    decreases rows
  {
    RowStep(rows, w);
    RowStep(y + 1, w);
    var k := y * w + x;
    if y == rows - 1 {
      Gauss3x1Beyond(d, s, w, rows - 1, k);
    } else {
      MulMonoLe(y + 1, rows - 1, w);
      Gauss3x1At(d, s, w, rows - 1, y, x);
    }
  }

  /** `filterGauss3x1`: for each row, a destination pointer from column 1
      and a source pointer from column 0 advance together. */
  method FilterGauss3x1(pImgDst: array<byte>, pImgSrc: array<byte>, width: nat, height: nat)
    requires pImgDst != pImgSrc && pImgDst.Length == pImgSrc.Length == width * height
    modifies pImgDst
    ensures pImgDst[..] == Gauss3x1(old(pImgDst[..]), pImgSrc[..], width, height)
  {
    for y := 0 to height
      invariant pImgDst[..] == Gauss3x1(old(pImgDst[..]), pImgSrc[..], width, y)
    {
      RowStep(y + 1, width);
      MulMonoLe(y + 1, height, width);
      Gauss3x1Row(pImgDst, pImgSrc, y * width, width);
    }
  }

  method Gauss3x1Row(pImgDst: array<byte>, pImgSrc: array<byte>, rowStart: nat, width: nat)
    requires pImgDst != pImgSrc && pImgDst.Length == pImgSrc.Length && rowStart + width <= pImgDst.Length
    modifies pImgDst
    ensures pImgDst[..] == HRow(old(pImgDst[..]), pImgSrc[..], rowStart, width)
  {
    var pDst := rowStart + 1;
    var pSrc := rowStart;
    var x := 1;
    while x < width - 1
      invariant 1 <= x && (x == 1 || x <= width - 1)
      invariant pDst == rowStart + x && pSrc == rowStart + x - 1
      invariant forall k | rowStart + 1 <= k < rowStart + x :: pImgDst[k] == HBlur(pImgSrc[..], k)
      invariant forall k | 0 <= k < pImgDst.Length && !(rowStart + 1 <= k < rowStart + x) ::
        pImgDst[k] == old(pImgDst[k])
    {
      pImgDst[pDst] := Blur(pImgSrc[pSrc], pImgSrc[pSrc + 1], pImgSrc[pSrc + 2]);
      pDst := pDst + 1;
      pSrc := pSrc + 1;
      x := x + 1;
    }
    assert forall k | 0 <= k < pImgDst.Length ::
      pImgDst[..][k] == HRow(old(pImgDst[..]), pImgSrc[..], rowStart, width)[k];
  }

  // --------------------------------------------------------- filterGauss1x3

  /** One pass of the inner loop of `filterGauss1x3` on the row starting at
      `rowStart` (not the first or last row): every column smoothed across
      the rows above and below; every other byte of `d` kept. */
  function VRow(d: seq<byte>, s: seq<byte>, rowStart: nat, w: nat): (r: seq<byte>)
    requires |s| == |d| && w <= rowStart && rowStart + 2 * w <= |d|
    ensures |r| == |d|
    ensures forall k :: 0 <= k < |d| && (k < rowStart || rowStart + w <= k) ==> r[k] == d[k]
  {
    seq(|d|, k requires 0 <= k < |d| =>
      if rowStart <= k < rowStart + w then VBlur(s, w, k) else d[k])
  }

  /** The vertical kernel at byte `k`, from the bytes one row above and
      one row below. */
  function VBlur(s: seq<byte>, w: nat, k: nat): byte
    requires w <= k && k + w < |s|
  {
    Blur(s[k - w], s[k], s[k + w])
  }

  /** `filterGauss1x3` over the first `rows` rows: rows 1 .. rows-2
      smoothed, each from the rows above and below it. */
  function Gauss1x3(d: seq<byte>, s: seq<byte>, w: nat, rows: nat): (r: seq<byte>)
    requires |s| == |d| && rows * w <= |d|
    ensures |r| == |d|
    decreases rows
  {
    if rows <= 2 then d
    else
      InnerRow(rows, w);
      VRow(Gauss1x3(d, s, w, rows - 1), s, (rows - 2) * w, w)
  }

  /** Offsets of row `rows - 2`, the last inner row of the first `rows`. */
  lemma InnerRow(rows: nat, w: nat)
    requires rows >= 3
    ensures w <= (rows - 2) * w && (rows - 2) * w + w == (rows - 1) * w
    ensures (rows - 1) * w + w == rows * w
  {
    RowStep(rows - 1, w);
    RowStep(rows, w);
    MulMonoLe(1, rows - 2, w);
  }

  /** Row 0 and the rows from `rows - 1` on are untouched. */
  lemma {:induction false} Gauss1x3Outside(d: seq<byte>, s: seq<byte>, w: nat, rows: nat, k: nat)
    requires |s| == |d| && rows * w <= |d|
    requires k < |d| && (k < w || rows <= 2 || (rows - 2) * w + w <= k)
    ensures Gauss1x3(d, s, w, rows)[k] == d[k]
    decreases rows
  {
    if rows > 2 {
      InnerRow(rows, w);
      if rows - 1 > 2 { InnerRow(rows - 1, w); }
      Gauss1x3Outside(d, s, w, rows - 1, k);
    }
  }

  /** Rows from `m - 1` on do not touch the bytes before row `m - 1`. */
  lemma {:induction false} Gauss1x3Stable(d: seq<byte>, s: seq<byte>, w: nat, rows: nat, m: nat, k: nat)
    requires |s| == |d| && rows * w <= |d|
    requires 3 <= m <= rows && k < (m - 1) * w && k < |d|
    ensures m * w <= |d|
    ensures Gauss1x3(d, s, w, rows)[k] == Gauss1x3(d, s, w, m)[k]
    decreases rows
  {
    InnerRow(m, w);
    if m < rows {
      InnerRow(rows, w);
      MulMonoLe(m, rows - 1, w);
      MulMonoLe(m - 1, rows - 2, w);
      Gauss1x3Stable(d, s, w, rows - 1, m, k);
      Gauss1x3Before(d, s, w, rows, k);
    } else {
      MulMonoLe(m, rows, w);
    }
  }

  /** The last inner row's pass leaves the bytes before it alone. */
  lemma Gauss1x3Before(d: seq<byte>, s: seq<byte>, w: nat, rows: nat, k: nat)
    requires |s| == |d| && rows * w <= |d| && rows >= 3
    requires k < (rows - 2) * w
    ensures (rows - 1) * w <= |d| && k < |d|
    ensures Gauss1x3(d, s, w, rows)[k] == Gauss1x3(d, s, w, rows - 1)[k]
  {
    InnerRow(rows, w);
  }

  /** An inner row's cell is the vertical kernel on `s`. */
  lemma Gauss1x3Inner(d: seq<byte>, s: seq<byte>, w: nat, rows: nat, y: nat, x: nat)
    requires |s| == |d| && rows * w <= |d| && 1 <= y && y + 1 < rows && x < w
    ensures w <= y * w && y * w + 2 * w <= |d|
    ensures Gauss1x3(d, s, w, rows)[y * w + x] == Blur(s[y * w + x - w], s[y * w + x], s[y * w + x + w])
  {
    InnerRow(y + 2, w);
    MulMonoLe(y + 2, rows, w);
    if y + 2 < rows {
      Gauss1x3Stable(d, s, w, rows, y + 2, y * w + x);
    }
  }

  /** Cell (y, x) after the pass: smoothed across rows in rows
      1 .. rows-2, untouched in the first and last row. */
  lemma Gauss1x3At(d: seq<byte>, s: seq<byte>, w: nat, rows: nat, y: nat, x: nat)
    requires |s| == |d| && rows * w <= |d| && y < rows && x < w
    ensures y * w + w <= |d| &&
      (1 <= y < rows - 1 ==> w <= y * w && y * w + 2 * w <= |d|) &&
      Gauss1x3(d, s, w, rows)[y * w + x] ==
        if 1 <= y < rows - 1 then Blur(s[y * w + x - w], s[y * w + x], s[y * w + x + w]) else d[y * w + x]
  {
    RowStep(y + 1, w);
    MulMonoLe(y + 1, rows, w);
    if 1 <= y < rows - 1 {
      Gauss1x3Inner(d, s, w, rows, y, x);
    } else if y == 0 {
      Gauss1x3Outside(d, s, w, rows, y * w + x);
    } else {
      RowStep(y, w);
      Gauss1x3Outside(d, s, w, rows, y * w + x);
    }
  }

  /** `filterGauss1x3`: rows 1 .. height-2, each with a destination and a
      source pointer advancing over the whole row. */
  method FilterGauss1x3(pImgDst: array<byte>, pImgSrc: array<byte>, width: nat, height: nat)
    requires pImgDst != pImgSrc && pImgDst.Length == pImgSrc.Length == width * height
    modifies pImgDst
    ensures pImgDst[..] == Gauss1x3(old(pImgDst[..]), pImgSrc[..], width, height)
  {
    var y := 1;
    if height >= 2 { MulMonoLe(2, height, width); }
    while y < height - 1
      invariant 1 <= y && (y == 1 || y <= height - 1)
      invariant Min(y + 1, height) * width <= width * height
      invariant pImgDst[..] == Gauss1x3(old(pImgDst[..]), pImgSrc[..], width, Min(y + 1, height))
    {
      InnerRow(y + 2, width);
      MulMonoLe(y + 2, height, width);
      assert Min(y + 1, height) == y + 1 && Min(y + 2, height) == y + 2;
      Gauss1x3Row(pImgDst, pImgSrc, y * width, width);
      assert pImgDst[..] == Gauss1x3(old(pImgDst[..]), pImgSrc[..], width, y + 2);
      y := y + 1;
    }
  }

  method Gauss1x3Row(pImgDst: array<byte>, pImgSrc: array<byte>, rowStart: nat, width: nat)
    requires pImgDst != pImgSrc && pImgDst.Length == pImgSrc.Length
    requires width <= rowStart && rowStart + 2 * width <= pImgDst.Length
    modifies pImgDst
    ensures pImgDst[..] == VRow(old(pImgDst[..]), pImgSrc[..], rowStart, width)
  {
    var pDst := rowStart;
    var pSrc := rowStart;
    for x := 0 to width
      invariant pDst == rowStart + x && pSrc == rowStart + x
      invariant forall k | rowStart <= k < rowStart + x :: pImgDst[k] == VBlur(pImgSrc[..], width, k)
      invariant forall k | 0 <= k < pImgDst.Length && !(rowStart <= k < rowStart + x) ::
        pImgDst[k] == old(pImgDst[k])
    {
      pImgDst[pDst] := Blur(pImgSrc[pSrc - width], pImgSrc[pSrc], pImgSrc[pSrc + width]);
      pDst := pDst + 1;
      pSrc := pSrc + 1;
    }
    assert forall k | 0 <= k < pImgDst.Length ::
      pImgDst[..][k] == VRow(old(pImgDst[..]), pImgSrc[..], rowStart, width)[k];
  }

  // ------------------------------------------------------ filterGaussian3x3

  /** The result of `filterGaussian3x3`: the horizontal pass, written over
      the input itself, reading from the vertically smoothed copy whose
      first and last rows are the input's own. */
  function Smoothed(g: seq<byte>, w: nat, h: nat): (r: seq<byte>)
    requires |g| == w * h
    ensures |r| == |g|
  {
    Gauss3x1(g, Gauss1x3(g, g, w, h), w, h)
  }

  /** `memcpy(dst + start, src + start, n)` between two buffers. */
  method CopyBytes(dst: array<byte>, src: array<byte>, start: nat, n: nat)
    requires dst != src && start + n <= dst.Length == src.Length
    modifies dst
    ensures forall k | 0 <= k < dst.Length ::
      dst[k] == if start <= k < start + n then src[k] else old(dst[k])
  {
    forall k | start <= k < start + n {
      dst[k] := src[k];
    }
  }

  /** `filterGaussian3x3`: a fresh buffer of indeterminate contents gets
      the vertical pass of the image, then the image's first and last rows,
      and the horizontal pass of it is written back over the image. */
  method FilterGaussian3x3(pImg: array<byte>, width: nat, height: nat)
    requires pImg.Length == width * height && (height >= 1 || width == 0)
    modifies pImg
    ensures pImg[..] == Smoothed(old(pImg[..]), width, height)
  {
    var pFltY := new byte[width * height];
    ghost var t0 := pFltY[..];
    FilterGauss1x3(pFltY, pImg, width, height);
    ghost var t1 := pFltY[..];
    if height >= 1 {
      RowStep(height, width);
      CopyBytes(pFltY, pImg, 0, width);
      CopyBytes(pFltY, pImg, width * (height - 1), width);
      BordersRestored(t0, pImg[..], width, height, t1, pFltY[..]);
    } else {
      ZeroFactor(width, height);
    }
    FilterGauss3x1(pImg, pFltY, width, height);
  }

  /** The copied border rows make the temporary buffer what a vertical pass
      over the image itself would give, whatever it held before. */
  lemma BordersRestored(t0: seq<byte>, g: seq<byte>, w: nat, h: nat, t1: seq<byte>, t: seq<byte>)
    requires |t0| == |g| == w * h && h >= 1
    requires t1 == Gauss1x3(t0, g, w, h) && |t| == |g|
    requires (h - 1) * w + w == w * h
    requires forall k | 0 <= k < |t| ::
      t[k] == if 0 <= k < w || (h - 1) * w <= k < (h - 1) * w + w then g[k] else t1[k]
    ensures t == Gauss1x3(g, g, w, h)
  {
    forall k | 0 <= k < |t|
      ensures t[k] == Gauss1x3(g, g, w, h)[k]
    {
      BorderRestoredAt(t0, g, w, h, k, t[k]);
    }
  }

  /** One byte of `BordersRestored`. */
  lemma BorderRestoredAt(t0: seq<byte>, g: seq<byte>, w: nat, h: nat, k: nat, v: byte)
    requires |t0| == |g| == w * h && h >= 1 && k < |g|
    requires (h - 1) * w + w == w * h
    requires v == if k < w || (h - 1) * w <= k then g[k] else Gauss1x3(t0, g, w, h)[k]
    ensures v == Gauss1x3(g, g, w, h)[k]
  {
    if k < w || (h - 1) * w <= k {
      if h >= 2 { RowStep(h - 1, w); }
      Gauss1x3Outside(g, g, w, h, k);
    } else {
      var y, x := RowCol(k, w, h);
      if y >= h - 1 { MulMonoLe(h - 1, y, w); }
      Gauss1x3Inner(t0, g, w, h, y, x);
      Gauss1x3Inner(g, g, w, h, y, x);
    }
  }

  /** Columns 0 and w-1 of every row keep the input's values. */
  lemma SmoothedBorderColumns(g: seq<byte>, w: nat, h: nat, y: nat)
    requires |g| == w * h && y < h && w >= 1
    ensures y * w + w <= |g|
    ensures Smoothed(g, w, h)[y * w] == g[y * w]
    ensures Smoothed(g, w, h)[y * w + w - 1] == g[y * w + w - 1]
  {
    var t := Gauss1x3(g, g, w, h);
    Gauss3x1At(g, t, w, h, y, 0);
    Gauss3x1At(g, t, w, h, y, w - 1);
  }

  /** Away from the border every pixel, at k = y*w + x, is the 3x3
      kernel: the horizontal 1-2-1 over the vertical 1-2-1 of the input. */
  lemma SmoothedInterior(g: seq<byte>, w: nat, h: nat, y: nat, x: nat, k: nat)
    requires |g| == w * h && 1 <= y < h - 1 && 1 <= x < w - 1 && k == y * w + x
    ensures w + 1 <= k && k + 1 + w < |g|
    ensures Smoothed(g, w, h)[k] == Blur(VBlur(g, w, k - 1), VBlur(g, w, k), VBlur(g, w, k + 1))
  {
    var t := Gauss1x3(g, g, w, h);
    HorizontalAt(g, w, h, y, x, k);
    VerticalAt(g, w, h, y, x - 1, k - 1);
    VerticalAt(g, w, h, y, x, k);
    VerticalAt(g, w, h, y, x + 1, k + 1);
    BlurOfColumns(g, t, w, k);
  }

  /** The horizontal pass at byte k of column x, 1 <= x < w-1, reads the
      vertically smoothed copy. */
  lemma HorizontalAt(g: seq<byte>, w: nat, h: nat, y: nat, x: nat, k: nat)
    requires |g| == w * h && y < h && 1 <= x < w - 1 && k == y * w + x
    ensures 1 <= k && k + 1 < |g|
    ensures Smoothed(g, w, h)[k] == HBlur(Gauss1x3(g, g, w, h), k)
  {
    HorizontalPass(g, Gauss1x3(g, g, w, h), w, h, y, x, k);
  }

  /** The horizontal pass over `s` at byte k of column x, 1 <= x < w-1. */
  lemma HorizontalPass(d: seq<byte>, s: seq<byte>, w: nat, h: nat, y: nat, x: nat, k: nat)
    requires |d| == |s| == w * h && y < h && 1 <= x < w - 1 && k == y * w + x
    ensures 1 <= k && k + 1 < |d| && Gauss3x1(d, s, w, h)[k] == HBlur(s, k)
  {
    Gauss3x1At(d, s, w, h, y, x);
  }

  /** The horizontal kernel over three vertically smoothed cells. */
  lemma BlurOfColumns(g: seq<byte>, t: seq<byte>, w: nat, k: nat)
    requires 1 + w <= k && k + 1 + w < |g| == |t|
    requires t[k - 1] == VBlur(g, w, k - 1) && t[k] == VBlur(g, w, k) && t[k + 1] == VBlur(g, w, k + 1)
    ensures HBlur(t, k) == Blur(VBlur(g, w, k - 1), VBlur(g, w, k), VBlur(g, w, k + 1))
  {
  }

  /** The vertical pass of the image at byte k of an inner row. */
  lemma VerticalAt(g: seq<byte>, w: nat, h: nat, y: nat, x: nat, k: nat)
    requires |g| == w * h && 1 <= y < h - 1 && x < w && k == y * w + x
    ensures w <= k && k + w < |g| && Gauss1x3(g, g, w, h)[k] == VBlur(g, w, k)
  {
    Gauss1x3Inner(g, g, w, h, y, x);
  }

  /** A constant buffer is a fixed point of the horizontal pass. */
  lemma {:induction false} Gauss3x1Constant(d: seq<byte>, w: nat, rows: nat)
    requires rows * w <= |d|
    requires forall k | 0 <= k < |d| :: d[k] == d[0]
    ensures Gauss3x1(d, d, w, rows) == d
    decreases rows
  {
    if rows > 0 {
      RowStep(rows, w);
      Gauss3x1Constant(d, w, rows - 1);
      assert HRow(d, d, (rows - 1) * w, w) == d;
    }
  }

  /** A constant buffer is a fixed point of the vertical pass. */
  lemma {:induction false} Gauss1x3Constant(d: seq<byte>, w: nat, rows: nat)
    requires rows * w <= |d|
    requires forall k | 0 <= k < |d| :: d[k] == d[0]
    ensures Gauss1x3(d, d, w, rows) == d
    decreases rows
  {
    if rows > 2 {
      InnerRow(rows, w);
      Gauss1x3Constant(d, w, rows - 1);
      assert VRow(d, d, (rows - 2) * w, w) == d;
    }
  }

  /** A flat image comes out of the 3x3 smoothing unchanged. */
  lemma SmoothedConstant(g: seq<byte>, w: nat, h: nat)
    requires |g| == w * h
    requires forall k | 0 <= k < |g| :: g[k] == g[0]
    ensures Smoothed(g, w, h) == g
  {
    Gauss1x3Constant(g, w, h);
    Gauss3x1Constant(g, w, h);
  }

  // ------------------------------------------------------------ ½ decimation

  /** One output row of the decimation: every other byte of the source row
      starting at `start`. */
  function HalfRow(img: seq<byte>, start: nat, ws: nat): (r: seq<byte>)
    requires start + 2 * ws <= |img| + 1
    ensures |r| == ws
  {
    seq(ws, x requires 0 <= x < ws => img[start + 2 * x])
  }

  /** The first `rows` rows of the ½ decimation of a `w`-wide image: row y
      is made from source row 2y. */
  function Halved(img: seq<byte>, w: nat, rows: nat): (r: seq<byte>)
    requires 2 * rows * w <= |img|
    ensures |r| == rows * (w / 2)
    decreases rows
  {
    if rows == 0 then []
    else
      SourceRow(rows - 1, w, |img|);
      RowStep(rows, w / 2);
      Halved(img, w, rows - 1) + HalfRow(img, 2 * (rows - 1) * w, w / 2)
  }

  /** Source row 2y lies inside an image with more than 2y rows. */
  lemma SourceRow(y: nat, w: nat, len: nat)
    requires 2 * (y + 1) * w <= len
    ensures 0 <= 2 * y * w && 2 * y * w + w <= len && 2 * (y + 1) * w == 2 * y * w + 2 * w
  {
    MulNonneg(2 * y, w);
    assert 2 * (y + 1) * w == 2 * y * w + 2 * w;
  }

  /** The decimation law: output byte x + y*(w/2) is source byte
      2x + 2y*w. */
  lemma {:induction false} HalvedAt(img: seq<byte>, w: nat, rows: nat, y: nat, x: nat, k: nat, j: nat)
    requires 2 * rows * w <= |img| && y < rows && x < w / 2
    requires k == x + y * (w / 2) && j == 2 * x + 2 * y * w
    ensures k < |Halved(img, w, rows)| && j < |img| && Halved(img, w, rows)[k] == img[j]
    decreases rows
  {
    SourceRow(rows - 1, w, |img|);
    RowStep(rows, w / 2);
    RowStep(y + 1, w / 2);
    MulMonoLe(y + 1, rows, w / 2);
    if y < rows - 1 {
      MulMonoLe(y + 1, rows - 1, w / 2);
      MulMonoLe(2 * (y + 1), 2 * (rows - 1), w);
      HalvedAt(img, w, rows - 1, y, x, k, j);
    } else {
      assert Halved(img, w, rows)[k] == HalfRow(img, 2 * y * w, w / 2)[x];
    }
  }

  /** The decimation loop of the demo: a `width/2 * height/2` buffer whose
      byte x + y*widthScl is source byte 2x + 2y*width. */
  method Decimate(pImage: array<byte>, width: nat, height: nat) returns (pScaledImage: array<byte>)
    requires pImage.Length == width * height
    ensures fresh(pScaledImage)
    ensures pScaledImage.Length == (width / 2) * (height / 2)
    ensures pScaledImage[..] == Halved(pImage[..], width, height / 2)
  {
    var widthScl, heightScl := width / 2, height / 2;
    pScaledImage := new byte[widthScl * heightScl];
    var dst, src := 0, 0;
    for y := 0 to heightScl
      invariant dst == y * widthScl && src == 2 * y * width
      invariant dst <= pScaledImage.Length && src <= pImage.Length
      invariant pScaledImage[..dst] == Halved(pImage[..], width, y)
    {
      dst, src := DecimateStep(pScaledImage, pImage, width, height, y, dst, src);
    }
    DecimateOffsets(0, width, height);
    assert pScaledImage[..] == pScaledImage[..dst];
  }

  /** One pass of the outer decimation loop: output row y from source
      row 2y, and both row pointers advanced. */
  method DecimateStep(pScaledImage: array<byte>, pImage: array<byte>, width: nat, height: nat,
                      y: nat, dst: nat, src: nat) returns (dst': nat, src': nat)
    requires pScaledImage != pImage && pImage.Length == width * height
    requires pScaledImage.Length == (width / 2) * (height / 2) && y < height / 2
    requires dst == y * (width / 2) && src == 2 * y * width
    requires src <= pImage.Length && pScaledImage[..dst] == Halved(pImage[..], width, y)
    modifies pScaledImage
    ensures dst' == (y + 1) * (width / 2) && src' == 2 * (y + 1) * width
    ensures dst' <= pScaledImage.Length && src' <= pImage.Length
    ensures pScaledImage[..dst'] == Halved(pImage[..], width, y + 1)
  {
    DecimateOffsets(y, width, height);
    DecimateRow(pScaledImage, pImage, dst, src, width / 2);
    HalvedStep(pImage[..], width, y, pScaledImage[..], dst);
    dst', src' := dst + width / 2, src + 2 * width;
  }

  /** Where output row y and source row 2y start, and that both fit. */
  lemma DecimateOffsets(y: nat, width: nat, height: nat)
    ensures (height / 2) * (width / 2) == (width / 2) * (height / 2)
    ensures y < height / 2 ==>
      (y + 1) * (width / 2) == y * (width / 2) + width / 2 &&
      y * (width / 2) + width / 2 <= (width / 2) * (height / 2) &&
      2 * (y + 1) * width == 2 * y * width + 2 * width &&
      2 * (y + 1) * width <= width * height
  {
    if y < height / 2 {
      RowStep(y + 1, width / 2);
      MulMonoLe(y + 1, height / 2, width / 2);
      SourceRow(y, width, 2 * (y + 1) * width);
      MulMonoLe(2 * (y + 1), height, width);
    }
  }

  /** Appending output row `rows` to the first `rows` rows. */
  lemma HalvedStep(img: seq<byte>, w: nat, rows: nat, s: seq<byte>, start: nat)
    requires 2 * (rows + 1) * w <= |img| && 2 * (rows + 1) * w == 2 * rows * w + 2 * w
    requires start == rows * (w / 2) && start + w / 2 <= |s|
    requires s[..start] == Halved(img, w, rows)
    requires s[start..start + w / 2] == HalfRow(img, 2 * rows * w, w / 2)
    ensures s[..start + w / 2] == Halved(img, w, rows + 1)
  {
    assert s[..start + w / 2] == s[..start] + s[start..start + w / 2];
  }

  method DecimateRow(pScaledImage: array<byte>, pImage: array<byte>, dstStart: nat, srcStart: nat, widthScl: nat)
    requires pScaledImage != pImage
    requires dstStart + widthScl <= pScaledImage.Length && srcStart + 2 * widthScl <= pImage.Length + 1
    modifies pScaledImage
    ensures pScaledImage[..dstStart] == old(pScaledImage[..dstStart])
    ensures pScaledImage[dstStart..dstStart + widthScl] == HalfRow(pImage[..], srcStart, widthScl)
  {
    for x := 0 to widthScl
      invariant pScaledImage[..dstStart] == old(pScaledImage[..dstStart])
      invariant forall i | 0 <= i < x :: pScaledImage[dstStart + i] == pImage[srcStart + 2 * i]
    {
      pScaledImage[dstStart + x] := pImage[srcStart + 2 * x];
    }
  }

  // -------------------------------------------------------- gray histogram

  /** The 256-bin histogram of the smoothed half image: bin v counts the
      bytes equal to v, and the counts add up to the number of pixels. */
  method GrayHistogram(pScaledImage: array<byte>) returns (histogram: array<nat>)
    ensures fresh(histogram) && histogram.Length == 256
    ensures histogram[..] == Counts(pScaledImage[..], 256)
    ensures Sum(histogram[..]) == pScaledImage.Length
  {
    histogram := new nat[256](_ => 0);
    assert histogram[..] == Counts(pScaledImage[..0], 256);
    for i := 0 to pScaledImage.Length
      invariant histogram[..] == Counts(pScaledImage[..i], 256)
    {
      var v := pScaledImage[i];
      CountsAppend(pScaledImage[..i], v, 256);
      assert pScaledImage[..i + 1] == pScaledImage[..i] + [v];
      histogram[v] := histogram[v] + 1;
    }
    assert pScaledImage[..] == pScaledImage[..pScaledImage.Length];
    CountsSum(pScaledImage[..], 256);
  }

  // -------------------------------------------------------------- threshold

  /** Energy above 30 becomes 255, anything else 0. */
  function Binarize(v: byte): (b: byte)
    ensures b == 255 <==> v > 30
    ensures b == 0 <==> v <= 30
  {
    if v > 30 then 255 else 0
  }

  /** The thresholded energy image: a binary mask. */
  function Thresholded(s: seq<byte>): (r: seq<byte>)
    ensures |r| == |s|
    ensures forall i | 0 <= i < |r| :: r[i] == 0 || r[i] == 255
  {
    seq(|s|, i requires 0 <= i < |s| => Binarize(s[i]))
  }

  /** Thresholding a mask again changes nothing. */
  lemma ThresholdedIdempotent(s: seq<byte>)
    ensures Thresholded(Thresholded(s)) == Thresholded(s)
  {
    var t := Thresholded(s);
    assert forall i | 0 <= i < |t| :: Thresholded(t)[i] == t[i];
  }

  /** The in-place thresholding loop over the energy buffer. */
  method Threshold(energy: array<byte>)
    modifies energy
    ensures energy[..] == Thresholded(old(energy[..]))
  {
    for i := 0 to energy.Length
      invariant forall j | 0 <= j < energy.Length ::
        energy[j] == if j < i then Binarize(old(energy[j])) else old(energy[j])
    {
      if energy[i] > 30 {
        energy[i] := 255;
      } else {
        energy[i] := 0;
      }
    }
  }

  // ---------------------------------------------------------- hue histogram

  /** `getHue() >> 5`: the hue's bin, of width 32. */
  function HueBin(p: RgbaValue): (b: nat)
    ensures b < 8 && 32 * b <= Hue(p) < 32 * b + 32
  {
    Hue(p) / 32
  }

  /** The bin of every pixel. */
  function HueBins(pixels: seq<RgbaValue>): (bins: seq<int>)
    ensures |bins| == |pixels|
    ensures forall i | 0 <= i < |bins| :: 0 <= bins[i] < 8
  {
    seq(|pixels|, i requires 0 <= i < |pixels| => HueBin(pixels[i]))
  }

  /** The 8-bin hue histogram of the colour image; its counts add up to
      the number of pixels. */
  method HueHistogram(pRgbImage: array<RgbaValue>) returns (hueHist: array<nat>)
    ensures fresh(hueHist) && hueHist.Length == 8
    ensures hueHist[..] == Counts(HueBins(pRgbImage[..]), 8)
    ensures Sum(hueHist[..]) == pRgbImage.Length
  {
    hueHist := new nat[8](_ => 0);
    ghost var bins := HueBins(pRgbImage[..]);
    assert hueHist[..] == Counts(bins[..0], 8);
    for i := 0 to pRgbImage.Length
      invariant hueHist[..] == Counts(bins[..i], 8)
    {
      var b := HueBin(pRgbImage[i]);
      CountsAppend(bins[..i], b, 8);
      assert bins[..i + 1] == bins[..i] + [b];
      hueHist[b] := hueHist[b] + 1;
    }
    assert bins[..pRgbImage.Length] == bins;
    CountsSum(bins, 8);
  }

  /** The arg-max loop: the first bin holding the largest count, or -1
      when every bin is empty. */
  method DominantBin(hueHist: array<nat>) returns (maxHue: int)
    requires hueHist.Length == 8
    ensures maxHue == -1 <==> forall h | 0 <= h < 8 :: hueHist[h] == 0
    ensures maxHue != -1 ==> 0 <= maxHue < 8 && hueHist[maxHue] > 0
    ensures maxHue != -1 ==> forall h | 0 <= h < 8 :: hueHist[h] <= hueHist[maxHue]
    ensures maxHue != -1 ==> forall h | 0 <= h < maxHue :: hueHist[h] < hueHist[maxHue]
  {
    var maxHist := 0;
    maxHue := -1;
    for h := 0 to 8
      invariant maxHue == -1 <==> maxHist == 0
      invariant maxHue == -1 ==> forall j | 0 <= j < h :: hueHist[j] == 0
      invariant maxHue != -1 ==> 0 <= maxHue < h && hueHist[maxHue] == maxHist
      invariant forall j | 0 <= j < h :: hueHist[j] <= maxHist
      invariant maxHue != -1 ==> forall j | 0 <= j < maxHue :: hueHist[j] < maxHist
    {
      if hueHist[h] > maxHist {
        maxHist := hueHist[h];
        maxHue := h;
      }
    }
  }

  // ----------------------------------------------------------- segmentation

  /** The mask value of one pixel: 255 when its hue falls in the dominant
      bin and it is both saturated and bright (above 100), otherwise 0. */
  function Segment(p: RgbaValue, maxHue: int): (v: byte)
    ensures v == 255 <==> HueBin(p) == maxHue && Saturation(p) > 100 && Value(p) > 100
    ensures v == 0 || v == 255
  {
    if HueBin(p) == maxHue && Saturation(p) > 100 && Value(p) > 100 then 255 else 0
  }

  /** A segmented pixel is a true colour: its channels differ, its
      smallest channel is below its largest, and its bin is a real one. */
  lemma SegmentedIsChromatic(p: RgbaValue, maxHue: int)
    requires Segment(p, maxHue) == 255
    ensures 0 <= maxHue < 8 && Value(p) > 100
    ensures !(p.r == p.g == p.b) && MinChannel(p) < Value(p)
  {
    SaturationExtremes(p);
  }

  /** The segmentation loop: one mask byte per pixel. */
  method SegmentHue(pRgbImage: array<RgbaValue>, maxHue: int) returns (hueSeg: array<byte>)
    ensures fresh(hueSeg) && hueSeg.Length == pRgbImage.Length
    ensures forall i | 0 <= i < hueSeg.Length :: hueSeg[i] == Segment(pRgbImage[i], maxHue)
  {
    hueSeg := new byte[pRgbImage.Length];
    for i := 0 to pRgbImage.Length
      invariant forall j | 0 <= j < i :: hueSeg[j] == Segment(pRgbImage[j], maxHue)
    {
      var hue := HueBin(pRgbImage[i]);
      var sat := Saturation(pRgbImage[i]);
      var val := Value(pRgbImage[i]);
      if hue == maxHue && sat > 100 && val > 100 {
        hueSeg[i] := 255;
      } else {
        hueSeg[i] := 0;
      }
    }
  }
}
