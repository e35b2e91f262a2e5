/** The PGM reader and writer, over an in-memory file. The reader takes
    the ASCII variant P2 with 12-bit samples (rescaled to 8 bit) and the
    raw variant P5, whose body it takes from the end of the file; the
    writer emits P5. */
module PgmIo {
  import opened Base
  import opened Stdio

  const MAGIC_P2: seq<byte> := [80, 50]
  const MAGIC_P5: seq<byte> := [80, 53]

  /** `strncmp(m, token, 2) == 0` for a two-letter m. */
  predicate HasMagic(token: seq<byte>, m: seq<byte>): (b: bool)
    requires |m| == 2
    ensures b <==> |token| >= 2 && token[..2] == m
  {
    |token| >= 2 && token[0] == m[0] && token[1] == m[1]
  }

  /** A decoded gray image: width, height and its bytes, row by row. */
  datatype Pgm = Pgm(sx: int, sy: int, data: seq<byte>)

  // ------------------------------------------------------------ P2 samples

  /** `(unsigned char)floor(0.5 + v * 255./4095.)` in exact integers:
      255/4095 == 17/273, so the rounded value is (34v + 273) / 546. The
      cast is defined for v in -8 .. 4103, where the value lies in 0 .. 255. */
  function Rescale(v: int): (r: byte)
    requires -8 <= v <= 4103
    ensures v <= 0 ==> r == 0
    ensures 4095 <= v ==> r == 255
  {
    QuotientBelow(34 * v + 273, 546, 256);
    (34 * v + 273) / 546
  }

  /** Rescale is `floor(0.5 + v * 255/4095)` over the reals, and the
      rounded quantity never sits exactly on an integer, so the floor
      cannot be tipped by the rounding of the double product. */
  lemma RescaleRounds(v: int)
    requires -8 <= v <= 4103
    ensures var x := 0.5 + (v as real) * 255.0 / 4095.0;
      (Rescale(v) as real) < x < (Rescale(v) as real) + 1.0
  {
    var n := 34 * v + 273;
    var q := Rescale(v);
    assert q * 546 <= n < q * 546 + 546;
    assert n % 2 == 1;
    assert q * 546 != n;
    assert 0.5 + (v as real) * 255.0 / 4095.0 == (n as real) / 546.0;
  }

  lemma RescaleEnds()
    ensures Rescale(0) == 0 && Rescale(4095) == 255
  {
  }

  /** More input never gives less output. */
  lemma RescaleMonotone(a: int, b: int)
    requires -8 <= a <= b <= 4103
    ensures Rescale(a) <= Rescale(b)
  {
    var qa := (34 * a + 273) / 546;
    assert qa * 546 <= 34 * a + 273 <= 34 * b + 273;
    DivAtLeast(34 * b + 273, 546, qa);
  }

  /** `count` P2 samples read with `fscanf(fp, "%d", &val)` from position
      p, each rescaled, and the position after the last one. A sample that
      does not convert leaves `val` uninitialised in the source, and one
      outside -8 .. 4103 overflows the cast; both are errors here. */
  function Samples(f: seq<byte>, p: nat, count: nat): (r: Result<(seq<byte>, nat), ReadError>)
    requires p <= |f|
    ensures r.Ok? ==> |r.value.0| == count && p <= r.value.1 <= |f|
    ensures r.Err? ==> r.error == BadSample
  {
    if count == 0 then Ok(([], p))
    else
      match Samples(f, p, count - 1)
      case Err(e) => Err(e)
      case Ok((data, q)) =>
        match ScanInt(f, q)
        case None => Err(BadSample)
        case Some((v, q')) =>
          if -8 <= v <= 4103 then Ok((data + [Rescale(v)], q')) else Err(BadSample)
  }

  /** The text a P2 writer puts after the header: each value preceded by
      a space. */
  function SampleText(vals: seq<nat>): (t: seq<byte>)
  {
    if vals == [] then [] else SampleText(vals[..|vals| - 1]) + [SPACE] + Decimal(vals[|vals| - 1])
  }

  function RescaleAll(vals: seq<nat>): (r: seq<byte>)
    requires forall i :: 0 <= i < |vals| ==> vals[i] <= 4095
    ensures |r| == |vals| && forall i :: 0 <= i < |vals| ==> r[i] == Rescale(vals[i])
  {
    if vals == [] then [] else RescaleAll(vals[..|vals| - 1]) + [Rescale(vals[|vals| - 1])]
  }

  /** Samples written as decimal text read back as their rescaled values,
      whatever follows them as long as it does not continue the last
      number. */
  lemma {:induction false} SamplesRoundTrip(f: seq<byte>, p: nat, vals: seq<nat>)
    requires forall i :: 0 <= i < |vals| ==> vals[i] <= 4095
    requires p + |SampleText(vals)| <= |f|
    requires forall i :: 0 <= i < |SampleText(vals)| ==> f[p + i] == SampleText(vals)[i]
    requires p + |SampleText(vals)| == |f| || !IsDigit(f[p + |SampleText(vals)|])
    ensures Samples(f, p, |vals|) == Ok((RescaleAll(vals), p + |SampleText(vals)|))
    decreases |vals|
  {
    if vals != [] {
      var init := vals[..|vals| - 1];
      SampleTextLast(f, p, vals, SampleText(init), Decimal(vals[|vals| - 1]));
      SamplesRoundTrip(f, p, init);
      SamplesLastText(f, p, vals);
      SamplesExtend(f, p, vals, p + |SampleText(vals[..|vals| - 1])|, p + |SampleText(vals)|);
    } else {
      assert RescaleAll(vals) == [] && SampleText(vals) == [];
      assert Samples(f, p, 0) == Ok(([], p));
    }
  }

  /** The last value of the text scans back from where the others end. */
  lemma SamplesLastText(f: seq<byte>, p: nat, vals: seq<nat>)
    requires vals != []
    requires p + |SampleText(vals)| <= |f|
    requires forall i :: 0 <= i < |SampleText(vals)| ==> f[p + i] == SampleText(vals)[i]
    requires p + |SampleText(vals)| == |f| || !IsDigit(f[p + |SampleText(vals)|])
    ensures p + |SampleText(vals[..|vals| - 1])| < |f|
    ensures ScanInt(f, p + |SampleText(vals[..|vals| - 1])|) ==
      Some((vals[|vals| - 1], p + |SampleText(vals)|))
  {
    var t0, d := SampleText(vals[..|vals| - 1]), Decimal(vals[|vals| - 1]);
    SampleTextLast(f, p, vals, t0, d);
    ScanValue(f, p + |t0|, d);
  }

  /** Given the values but the last read back, and the last one scanned,
      all of them are read back. */
  lemma SamplesExtend(f: seq<byte>, p: nat, vals: seq<nat>, q: nat, q': nat)
    requires vals != [] && forall i :: 0 <= i < |vals| ==> vals[i] <= 4095
    requires p <= |f| && q <= |f|
    requires Samples(f, p, |vals| - 1) == Ok((RescaleAll(vals[..|vals| - 1]), q))
    requires ScanInt(f, q) == Some((vals[|vals| - 1], q'))
    ensures Samples(f, p, |vals|) == Ok((RescaleAll(vals), q'))
  {
    SamplesStep(f, p, |vals| - 1, RescaleAll(vals[..|vals| - 1]), q, vals[|vals| - 1], q');
  }

  /** Where the last value of a sample text sits. */
  lemma SampleTextLast(f: seq<byte>, p: nat, vals: seq<nat>, t0: seq<byte>, d: seq<byte>)
    requires vals != [] && t0 == SampleText(vals[..|vals| - 1]) && d == Decimal(vals[|vals| - 1])
    requires p + |SampleText(vals)| <= |f|
    requires forall i :: 0 <= i < |SampleText(vals)| ==> f[p + i] == SampleText(vals)[i]
    ensures |t0| + 1 + |d| == |SampleText(vals)|
    ensures forall i :: 0 <= i < |t0| ==> f[p + i] == t0[i]
    ensures f[p + |t0|] == SPACE
    ensures forall i :: 0 <= i < |d| ==> f[p + |t0| + 1 + i] == d[i]
  {
    var t := SampleText(vals);
    assert t == (t0 + [SPACE]) + d;
    SplitMatch(f, p, t0 + [SPACE], d);
    SplitMatch(f, p, t0, [SPACE]);
    assert f[p + |t0| + 0] == [SPACE][0];
  }

  /** Bytes matching a concatenation match each part. */
  lemma SplitMatch(f: seq<byte>, p: nat, a: seq<byte>, b: seq<byte>)
    requires p + |a| + |b| <= |f|
    requires forall i :: 0 <= i < |a + b| ==> f[p + i] == (a + b)[i]
    ensures forall i :: 0 <= i < |a| ==> f[p + i] == a[i]
    ensures forall i :: 0 <= i < |b| ==> f[p + |a| + i] == b[i]
  {
    forall i | 0 <= i < |a| ensures f[p + i] == a[i] {
      assert f[p + i] == (a + b)[i];
    }
    forall i | 0 <= i < |b| ensures f[p + |a| + i] == b[i] {
      assert f[p + (|a| + i)] == (a + b)[|a| + i];
    }
  }

  /** A space and a written value, not followed by a digit, scan back. */
  lemma ScanValue(f: seq<byte>, q: nat, d: seq<byte>)
    requires |d| > 0 && AllDigits(d)
    requires q + 1 + |d| <= |f| && f[q] == SPACE
    requires forall i :: 0 <= i < |d| ==> f[q + 1 + i] == d[i]
    requires q + 1 + |d| == |f| || !IsDigit(f[q + 1 + |d|])
    ensures ScanInt(f, q) == Some((DigitsValue(d), q + 1 + |d|))
  {
    ScanDigits(f, q, q + 1, d);
  }

  /** One more sample that converts and is in range extends the result. */
  lemma SamplesStep(f: seq<byte>, p: nat, k: nat, data: seq<byte>, q: nat, v: int, q': nat)
    requires p <= |f| && Samples(f, p, k) == Ok((data, q))
    requires q <= |f| && ScanInt(f, q) == Some((v, q')) && -8 <= v <= 4103
    ensures Samples(f, p, k + 1) == Ok((data + [Rescale(v)], q'))
  {
  }

  /** A sample that does not scan, or scans out of range, fails the read. */
  lemma SamplesFail(f: seq<byte>, p: nat, k: nat, data: seq<byte>, q: nat)
    requires p <= |f| && Samples(f, p, k) == Ok((data, q))
    requires q <= |f| && (ScanInt(f, q).None? || !(-8 <= ScanInt(f, q).value.0 <= 4103))
    ensures Samples(f, p, k + 1).Err?
  {
  }

  // --------------------------------------------------------------- decoder

  /** What `readPGM` yields on file `f`; `hasBuffer` says whether the
      caller passed a place for the data. */
  function DecodePgm(f: seq<byte>, hasBuffer: bool): (r: Result<Pgm, ReadError>)
    ensures r.Ok? ==> hasBuffer && ParseHeader(f).Ok?
    ensures r.Ok? ==> r.value.sx == ParseHeader(f).value.sx && r.value.sy == ParseHeader(f).value.sy
    ensures r.Ok? ==> |r.value.data| == SampleCount(r.value.sx, r.value.sy)
  {
    if !hasBuffer then Err(NullBuffer)
    else
      match ParseHeader(f)
      case Err(e) => Err(e)
      case Ok(h) => DecodeBody(f, h)
  }

  /** The branch on magic token and maximum value after a parsed header. */
  function DecodeBody(f: seq<byte>, h: Header): (r: Result<Pgm, ReadError>)
    requires h.body <= |f|
    ensures r.Ok? ==> r.value.sx == h.sx && r.value.sy == h.sy
    ensures r.Ok? ==> |r.value.data| == SampleCount(h.sx, h.sy)
  {
    if HasMagic(h.magic, MAGIC_P2) && h.maxVal == 4096 then
      match Samples(f, h.body, SampleCount(h.sx, h.sy))
      case Err(e) => Err(e)
      case Ok((data, _)) => Ok(Pgm(h.sx, h.sy, data))
    else if HasMagic(h.magic, MAGIC_P5) && (h.maxVal == 255 || h.maxVal == 256) then
      var cursor := SeekEnd(f, h.body, -(h.sx * h.sy));
      if FreadCount(Available(f, cursor), h.sx, h.sy) != h.sy then Err(ShortBody)
      else Ok(Pgm(h.sx, h.sy, if h.sx > 0 && h.sy > 0 then f[cursor..cursor + h.sx * h.sy] else []))
    else Err(UnsupportedFormat)
  }

  /** How many samples the nested `y < sy`, `x < sx` loops read. */
  function SampleCount(sx: int, sy: int): (n: nat)
    ensures n > 0 <==> sx > 0 && sy > 0
  {
    if sx > 0 && sy > 0 then sx * sy else 0
  }

  /** The null-buffer check comes before anything is read. */
  lemma NullBufferRejected(f: seq<byte>)
    ensures DecodePgm(f, false) == Err(NullBuffer)
  {
  }

  /** A P2 header with maximum 4096 yields the samples read after it. */
  lemma DecodeP2(f: seq<byte>, h: Header)
    requires h.body <= |f| && HasMagic(h.magic, MAGIC_P2) && h.maxVal == 4096
    ensures DecodeBody(f, h).Ok? <==> Samples(f, h.body, SampleCount(h.sx, h.sy)).Ok?
    ensures DecodeBody(f, h).Ok? ==>
      DecodeBody(f, h).value.data == Samples(f, h.body, SampleCount(h.sx, h.sy)).value.0
  {
  }

  /** A P5 header with maximum 255 or 256 is accepted exactly when the
      height is 0, or width and height are positive and the file holds at
      least sx*sy bytes; the data is then the last sx*sy bytes of the
      file (none for height 0). */
  lemma DecodeP5(f: seq<byte>, h: Header)
    requires h.body <= |f| && HasMagic(h.magic, MAGIC_P5) && (h.maxVal == 255 || h.maxVal == 256)
    ensures DecodeBody(f, h).Ok? <==> h.sy == 0 || (h.sx > 0 && h.sy > 0 && h.sx * h.sy <= |f|)
    ensures DecodeBody(f, h).Err? ==> DecodeBody(f, h).error == ShortBody
    ensures DecodeBody(f, h).Ok? && h.sy > 0 ==> DecodeBody(f, h).value.data == f[|f| - h.sx * h.sy..]
    ensures DecodeBody(f, h).Ok? && h.sy == 0 ==> DecodeBody(f, h).value.data == []
  {
    assert !HasMagic(h.magic, MAGIC_P2);
    P5Accepts(f, h.body, h.sx, h.sy);
    var n := h.sx * h.sy;
    if h.sx > 0 && h.sy > 0 && n <= |f| {
      var cursor := SeekEnd(f, h.body, -n);
      assert cursor + n == |f|;
      assert f[cursor..cursor + n] == f[|f| - n..];
    }
  }

  /** Every other magic token / maximum value pair is rejected. */
  lemma DecodeOther(f: seq<byte>, h: Header)
    requires h.body <= |f|
    requires !(HasMagic(h.magic, MAGIC_P2) && h.maxVal == 4096)
    requires !(HasMagic(h.magic, MAGIC_P5) && (h.maxVal == 255 || h.maxVal == 256))
    ensures DecodeBody(f, h) == Err(UnsupportedFormat)
  {
  }

  /** The tail read `fseek(fp, -sx*sy, SEEK_END)` then
      `fread(buf, sx, sy, fp) == sy`. */
  lemma P5Accepts(f: seq<byte>, body: nat, sx: int, sy: int)
    requires body <= |f|
    ensures var cursor := SeekEnd(f, body, -(sx * sy));
      (FreadCount(Available(f, cursor), sx, sy) == sy <==>
        sy == 0 || (sx > 0 && sy > 0 && sx * sy <= |f|)) &&
      (sx > 0 && sy > 0 && sx * sy <= |f| ==> cursor == |f| - sx * sy)
  {
    var cursor := SeekEnd(f, body, -(sx * sy));
    var avail := Available(f, cursor);
    if sx > 0 && sy > 0 {
      if sx * sy <= |f| {
        assert avail == sx * sy;
        MulDiv(sy, sx);
        assert sy * sx == sx * sy;
      } else {
        assert avail <= |f| < sx * sy;
        if avail / sx >= sy {
          assert (avail / sx) * sx <= avail;
          assert sy * sx <= (avail / sx) * sx;
        }
      }
    }
  }

  /** The source's reader as a method: the null check, the magic token,
      the comment loop, the header fields, then the body. */
  method ReadPgm(f: seq<byte>, hasBuffer: bool) returns (r: Result<Pgm, ReadError>)
    ensures r == DecodePgm(f, hasBuffer)
  {
    if !hasBuffer {
      return Err(NullBuffer);
    }
    var (format, afterMagic) := ScanToken(f, 0);
    var position := SkipCommentLines(f, afterMagic);
    if position.None? {
      r := Err(CommentAtEof);
    } else {
      var header := ParseFields(f, format, position.value);
      if header.Err? {
        r := Err(header.error);
      } else {
        r := ReadBody(f, header.value);
      }
    }
  }

  /** The branch after the header: the P2 sample loops, the P5 tail read,
      or rejection. */
  method ReadBody(f: seq<byte>, h: Header) returns (r: Result<Pgm, ReadError>)
    requires h.body <= |f|
    ensures r == DecodeBody(f, h)
  {
    if HasMagic(h.magic, MAGIC_P2) && h.maxVal == 4096 {
      var samples := ReadSamples(f, h.body, h.sx, h.sy);
      if samples.Err? {
        r := Err(samples.error);
      } else {
        r := Ok(Pgm(h.sx, h.sy, samples.value.0));
      }
    } else if HasMagic(h.magic, MAGIC_P5) && (h.maxVal == 255 || h.maxVal == 256) {
      var cursor := SeekEnd(f, h.body, -(h.sx * h.sy));
      var readcount := FreadCount(Available(f, cursor), h.sx, h.sy);
      if h.sy != readcount {
        r := Err(ShortBody);
      } else {
        r := Ok(Pgm(h.sx, h.sy, if h.sx > 0 && h.sy > 0 then f[cursor..cursor + h.sx * h.sy] else []));
      }
    } else {
      r := Err(UnsupportedFormat);
    }
  }

  /** The P2 loops: `sy` rows of `sx` samples, each scanned and rescaled
      into a fresh buffer at `idx++`. */
  method ReadSamples(f: seq<byte>, start: nat, sx: int, sy: int)
    returns (r: Result<(seq<byte>, nat), ReadError>)
    requires start <= |f|
    ensures r == Samples(f, start, SampleCount(sx, sy))
  {
    var n := SampleCount(sx, sy);
    var data := new byte[n];
    var idx := 0;
    var pos: nat := start;
    var y := 0;
    while y < sy
      invariant sx > 0 && sy > 0 ==> 0 <= y <= sy && idx == y * sx
      invariant !(sx > 0 && sy > 0) ==> idx == 0
      invariant 0 <= idx <= n && pos <= |f|
      invariant Loaded(f, start, data[..idx], pos)
    {
      if sx > 0 {
        RowFits(y, sx, sy);
      }
      var ok;
      ok, idx, pos := ReadRow(f, start, data, idx, pos, sx);
      if !ok {
        SamplesErrorSticks(f, start, idx, n);
        return Err(BadSample);
      }
      y := y + 1;
    }
    assert idx == n by {
      if sx > 0 && sy > 0 {
        assert y == sy;
        RowFits(sy - 1, sx, sy);
      }
    }
    assert data[..] == data[..idx];
    return Ok((data[..], pos));
  }

  /** Row y of a positive-size image ends inside the sample count. */
  lemma RowFits(y: int, sx: int, sy: int)
    requires sx > 0 && 0 <= y < sy
    ensures 0 <= y * sx && (y + 1) * sx == y * sx + sx <= SampleCount(sx, sy)
    ensures y == sy - 1 ==> (y + 1) * sx == SampleCount(sx, sy)
  {
    BlockInside(y, sx, sy);
    assert sy * sx == sx * sy;
  }

  /** The first |prefix| samples from `start` read as `prefix`, ending at
      file position `pos`. */
  predicate Loaded(f: seq<byte>, start: nat, prefix: seq<byte>, pos: nat)
    requires start <= |f|
  {
    Samples(f, start, |prefix|) == Ok((prefix, pos))
  }

  /** One pass of the inner `x < sx` loop, from sample `idx0` at file
      position `pos0`. On failure, `idx` is the sample that failed. */
  method ReadRow(f: seq<byte>, start: nat, data: array<byte>, idx0: nat, pos0: nat, sx: int)
    returns (ok: bool, idx: nat, pos: nat)
    requires start <= |f| && pos0 <= |f| && idx0 + Max(sx, 0) <= data.Length
    requires Loaded(f, start, data[..idx0], pos0)
    modifies data
    ensures ok ==> idx == idx0 + Max(sx, 0) && pos <= |f| && Loaded(f, start, data[..idx], pos)
    ensures !ok ==> idx0 <= idx < idx0 + Max(sx, 0) && Samples(f, start, idx + 1).Err?
  {
    idx, pos := idx0, pos0;
    var n := Max(sx, 0);
    for x := 0 to n
      invariant idx == idx0 + x && pos <= |f|
      invariant Loaded(f, start, data[..idx], pos)
    {
      var read;
      read, pos := ReadSample(f, start, data, idx, pos);
      if !read {
        return false, idx, pos;
      }
      idx := idx + 1;
    }
    return true, idx, pos;
  }

  /** One `fscanf("%d")` of the loop body and the store of its rescaled
      value at `idx`. */
  method ReadSample(f: seq<byte>, start: nat, data: array<byte>, idx: nat, pos0: nat)
    returns (ok: bool, pos: nat)
    requires start <= |f| && pos0 <= |f| && idx < data.Length
    requires Loaded(f, start, data[..idx], pos0)
    modifies data
    ensures data[..idx] == old(data[..idx])
    ensures ok ==> pos <= |f| && Loaded(f, start, data[..idx + 1], pos)
    ensures !ok ==> Samples(f, start, idx + 1).Err?
  {
    var val := ScanInt(f, pos0);
    if val.None? || !(-8 <= val.value.0 <= 4103) {
      SamplesFail(f, start, idx, data[..idx], pos0);
      return false, pos0;
    }
    ghost var prefix := data[..idx];
    data[idx] := Rescale(val.value.0);
    assert data[..idx + 1] == prefix + [Rescale(val.value.0)];
    SamplesStep(f, start, idx, prefix, pos0, val.value.0, val.value.1);
    return true, val.value.1;
  }

  /** Once a sample fails, reading more samples fails too. */
  lemma {:induction false} SamplesErrorSticks(f: seq<byte>, p: nat, k: nat, n: nat)
    requires p <= |f| && k < n && Samples(f, p, k + 1).Err?
    ensures Samples(f, p, n) == Err(BadSample)
    decreases n - k
  {
    if k + 1 < n {
      SamplesErrorSticks(f, p, k + 1, n);
    }
  }

  // ---------------------------------------------------------------- writer

  /** What `writePGM` leaves in the file, and its return value: the header
      `P5\n<sx> <sy>\n255\n` is always written; the body is the first
      sx*sy bytes of `data`, written as one item, and `fwrite` reports no
      item when sx*sy is 0. */
  function EncodePgm(data: seq<byte>, sx: nat, sy: nat): (r: (bool, seq<byte>))
    requires sx * sy <= |data|
    ensures r.0 <==> sx * sy > 0
    ensures |r.1| == |HeaderBytes(MAGIC_P5, sx, sy)| + sx * sy
    ensures r.1[..|HeaderBytes(MAGIC_P5, sx, sy)|] == HeaderBytes(MAGIC_P5, sx, sy)
    ensures r.1[|HeaderBytes(MAGIC_P5, sx, sy)|..] == data[..sx * sy]
  {
    var header := HeaderBytes(MAGIC_P5, sx, sy);
    var file := header + data[..sx * sy];
    assert file[..|header|] == header;
    assert file[|header|..] == data[..sx * sy];
    (sx * sy > 0, file)
  }

  /** Whenever the writer reports success, reading back what it wrote
      gives the same size and bytes. */
  lemma WriteReadRoundTrip(data: seq<byte>, sx: nat, sy: nat)
    requires sx * sy == |data| && EncodePgm(data, sx, sy).0
    ensures DecodePgm(EncodePgm(data, sx, sy).1, true) == Ok(Pgm(sx, sy, data))
  {
    ZeroFactor(sx, sy);
    assert sx != 0 && sy != 0;
    var f := EncodePgm(data, sx, sy).1;
    var header := HeaderBytes(MAGIC_P5, sx, sy);
    assert data[..sx * sy] == data;
    assert f == header + data by {
      assert f == f[..|header|] + f[|header|..];
    }
    HeaderRoundTrip(MAGIC_P5, sx, sy, data);
    var h := ParseHeader(f).value;
    DecodeP5(f, h);
    assert f[|f| - sx * sy..] == data;
  }
}
