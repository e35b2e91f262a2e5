/** The PPM (P6) writer and reader over an in-memory file: three bytes per
    pixel, red first unless red and blue are switched; the reader fills
    four-channel pixels with alpha 255. */
module PpmIo {
  import opened Base
  import opened Stdio
  import opened Rgba

  const MAGIC_P6: seq<byte> := [80, 54]

  /** A decoded colour image: width, height and its pixels, row by row. */
  datatype Ppm = Ppm(sx: int, sy: int, pixels: seq<RgbaValue>)

  // ---------------------------------------------------------------- packing

  /** The three bytes a pixel is written as. */
  function Triple(p: RgbaValue, switchRB: bool): (t: seq<byte>)
    ensures |t| == 3
  {
    [if switchRB then p.b else p.r, p.g, if switchRB then p.r else p.b]
  }

  /** The pixel the reader builds from three bytes: alpha 255. */
  function PixelOf(b0: byte, b1: byte, b2: byte, switchRB: bool): RgbaValue
  {
    RgbaValue(if switchRB then b2 else b0, b1, if switchRB then b0 else b2, 255)
  }

  /** The buffer `writePPM` fills: each pixel as three bytes, in order;
      alpha is never written. */
  function Packed(pixels: seq<RgbaValue>, switchRB: bool): (buf: seq<byte>)
    ensures |buf| == 3 * |pixels|
  {
    if pixels == [] then [] else Triple(pixels[0], switchRB) + Packed(pixels[1..], switchRB)
  }

  /** The pixels the loop of `readPPM` builds from a buffer: one for each
      complete triple. */
  function Unpacked(buf: seq<byte>, switchRB: bool): (pixels: seq<RgbaValue>)
    ensures 3 * |pixels| <= |buf| < 3 * |pixels| + 3
  {
    if |buf| < 3 then [] else [PixelOf(buf[0], buf[1], buf[2], switchRB)] + Unpacked(buf[3..], switchRB)
  }

  /** Pixel i sits at bytes 3i .. 3i+2 of the packed buffer. */
  lemma {:induction false} PackedAt(pixels: seq<RgbaValue>, switchRB: bool, i: int)
    requires 0 <= i < |pixels|
    ensures Packed(pixels, switchRB)[3 * i] == (if switchRB then pixels[i].b else pixels[i].r)
    ensures Packed(pixels, switchRB)[3 * i + 1] == pixels[i].g
    ensures Packed(pixels, switchRB)[3 * i + 2] == (if switchRB then pixels[i].r else pixels[i].b)
  {
    if i > 0 {
      PackedAt(pixels[1..], switchRB, i - 1);
      assert pixels[1..][i - 1] == pixels[i];
    }
  }

  /** Pixel i of the unpacked buffer comes from bytes 3i .. 3i+2. */
  lemma {:induction false} UnpackedAt(buf: seq<byte>, switchRB: bool, i: int)
    requires 0 <= i && 3 * i + 2 < |buf|
    ensures i < |Unpacked(buf, switchRB)|
    ensures Unpacked(buf, switchRB)[i] == PixelOf(buf[3 * i], buf[3 * i + 1], buf[3 * i + 2], switchRB)
  {
    if i > 0 {
      UnpackedAt(buf[3..], switchRB, i - 1);
      assert buf[3..][3 * (i - 1)] == buf[3 * i];
      assert buf[3..][3 * (i - 1) + 1] == buf[3 * i + 1];
      assert buf[3..][3 * (i - 1) + 2] == buf[3 * i + 2];
    }
  }

  /** A pixel as the reader returns it: colour kept, alpha 255. */
  function WithOpaqueAlpha(pixels: seq<RgbaValue>): (r: seq<RgbaValue>)
    ensures |r| == |pixels|
    ensures forall i :: 0 <= i < |pixels| ==> r[i] == pixels[i].(a := 255)
  {
    seq(|pixels|, i requires 0 <= i < |pixels| => pixels[i].(a := 255))
  }

  /** Unpacking with the same switch undoes packing on the colour
      channels; only alpha is lost. */
  lemma {:induction false} UnpackPacked(pixels: seq<RgbaValue>, switchRB: bool)
    ensures Unpacked(Packed(pixels, switchRB), switchRB) == WithOpaqueAlpha(pixels)
  {
    if pixels != [] {
      var rest := Packed(pixels[1..], switchRB);
      var buf := Triple(pixels[0], switchRB) + rest;
      assert buf[3..] == rest;
      UnpackPacked(pixels[1..], switchRB);
      assert WithOpaqueAlpha(pixels) == [pixels[0].(a := 255)] + WithOpaqueAlpha(pixels[1..]);
    }
  }

  /** Packing what was unpacked gives back every complete triple. */
  lemma {:induction false} PackUnpacked(buf: seq<byte>, switchRB: bool)
    ensures Packed(Unpacked(buf, switchRB), switchRB) == buf[..3 * |Unpacked(buf, switchRB)|]
  {
    if |buf| >= 3 {
      var u := Unpacked(buf, switchRB);
      PackUnpacked(buf[3..], switchRB);
      assert u[1..] == Unpacked(buf[3..], switchRB);
      assert buf[..3 * |u|] == buf[..3] + buf[3..][..3 * (|u| - 1)];
    }
  }

  /** The packing loop of `writePPM`: rows `y < sy`, columns `x < sx`, the
      source pixel taken by advancing a pointer and its triple stored at
      `y*sx*3 + x*3`. */
  method PackPixels(pixels: seq<RgbaValue>, sx: nat, sy: nat, switchRB: bool) returns (buf: array<byte>)
    requires sx * sy <= |pixels|
    ensures fresh(buf)
    ensures buf[..] == Packed(pixels[..sx * sy], switchRB)
  {
    ghost var image := pixels[..sx * sy];
    buf := new byte[sx * sy * 3];
    var idx := 0;
    for y := 0 to sy
      invariant idx == y * sx
      invariant forall k :: 0 <= k < 3 * idx ==> buf[k] == Packed(image, switchRB)[k]
    {
      BlockInside(y, sx, sy);
      idx := PackRow(pixels, image, buf, y, sx, idx, switchRB);
    }
    assert buf[..] == Packed(image, switchRB);
  }

  /** One pass of the inner `x < sx` loop of the packing, for row y. */
  method PackRow(pixels: seq<RgbaValue>, ghost image: seq<RgbaValue>, buf: array<byte>,
                 y: nat, sx: nat, idx0: nat, switchRB: bool) returns (idx: nat)
    requires |image| <= |pixels| && image == pixels[..|image|] && buf.Length == 3 * |image|
    requires idx0 == y * sx && idx0 + sx <= |image|
    requires forall k :: 0 <= k < 3 * idx0 ==> buf[k] == Packed(image, switchRB)[k]
    modifies buf
    ensures idx == idx0 + sx
    ensures forall k :: 0 <= k < 3 * idx ==> buf[k] == Packed(image, switchRB)[k]
  {
    idx := idx0;
    for x := 0 to sx
      invariant idx == idx0 + x
      invariant forall k :: 0 <= k < 3 * idx ==> buf[k] == Packed(image, switchRB)[k]
    {
      var val := pixels[idx];
      PackedAt(image, switchRB, idx);
      var at := y * sx * 3 + x * 3;
      idx := idx + 1;
      buf[at] := if switchRB then val.b else val.r;
      buf[at + 1] := val.g;
      buf[at + 2] := if switchRB then val.r else val.b;
    }
  }

  // ----------------------------------------------------------------- writer

  /** What `writePPM` leaves in the file: the header `P6\n<sx> <sy>\n255\n`
      and the packed pixels (none when sx*sy is 0, where `fwrite` writes no
      item). */
  function EncodePpm(pixels: seq<RgbaValue>, sx: nat, sy: nat, switchRB: bool): (file: seq<byte>)
    requires sx * sy <= |pixels|
    ensures |file| == |HeaderBytes(MAGIC_P6, sx, sy)| + 3 * (sx * sy)
    ensures file[..|HeaderBytes(MAGIC_P6, sx, sy)|] == HeaderBytes(MAGIC_P6, sx, sy)
    ensures file[|HeaderBytes(MAGIC_P6, sx, sy)|..] == Packed(pixels[..sx * sy], switchRB)
  {
    var header := HeaderBytes(MAGIC_P6, sx, sy);
    var file := header + Packed(pixels[..sx * sy], switchRB);
    assert file[..|header|] == header;
    assert file[|header|..] == Packed(pixels[..sx * sy], switchRB);
    file
  }

  /** `writePPM` as a method: pack, then write header and buffer. */
  method WritePpm(pixels: seq<RgbaValue>, sx: nat, sy: nat, switchRB: bool) returns (file: seq<byte>)
    requires sx * sy <= |pixels|
    ensures file == EncodePpm(pixels, sx, sy, switchRB)
  {
    var buf := PackPixels(pixels, sx, sy, switchRB);
    file := HeaderBytes(MAGIC_P6, sx, sy) + buf[..];
  }

  // ----------------------------------------------------------------- reader

  /** The body read of `readPPM` as written: `fseek` to sx*sy*3 bytes PAST
      the end, then one `fread` item of sx*sy*3 bytes. The magic token and
      the maximum value are read but never checked. */
  function DecodePpmAsWritten(f: seq<byte>, switchRB: bool): (r: Result<Ppm, ReadError>)
    ensures r.Err?
    ensures r.error in {CommentAtEof, MissingField, ShortBody}
  {
    match ParseHeader(f)
    case Err(e) => Err(e)
    case Ok(h) =>
      var n := h.sx * h.sy * 3;
      var cursor := SeekEnd(f, h.body, n);
      FreadOne(Available(f, cursor), n);
      if FreadCount(Available(f, cursor), n, 1) != 1 then Err(ShortBody)
      else Ok(Ppm(h.sx, h.sy, Unpacked(Bytes(f, cursor, n), switchRB)))
  }

  /** The n bytes from `cursor`, as far as the file has them. */
  function Bytes(f: seq<byte>, cursor: nat, n: int): (s: seq<byte>)
    ensures cursor <= |f| && 0 <= n <= |f| - cursor ==> s == f[cursor..cursor + n]
  {
    if cursor <= |f| && 0 <= n <= |f| - cursor then f[cursor..cursor + n] else []
  }

  /** As written, the reader fails on every file, and a file whose header
      parses fails at the body read: a positive size puts the cursor past
      the end, where nothing is left to read, and a size of 0 or less reads
      no item. */
  lemma ReadPpmAsWrittenFails(f: seq<byte>, switchRB: bool)
    ensures DecodePpmAsWritten(f, switchRB).Err?
    ensures ParseHeader(f).Ok? ==> DecodePpmAsWritten(f, switchRB) == Err(ShortBody)
  {
  }

  /** The body read with the offset negated, as the PGM reader does:
      `fseek` to sx*sy*3 bytes BEFORE the end, so the buffer is the tail of
      the file. */
  function DecodePpm(f: seq<byte>, switchRB: bool): (r: Result<Ppm, ReadError>)
    ensures r.Err? ==> r.error in {CommentAtEof, MissingField, ShortBody}
  {
    match ParseHeader(f)
    case Err(e) => Err(e)
    case Ok(h) => DecodePpmBody(f, h, switchRB)
  }

  function DecodePpmBody(f: seq<byte>, h: Header, switchRB: bool): (r: Result<Ppm, ReadError>)
    requires h.body <= |f|
    ensures r.Err? ==> r.error == ShortBody
    ensures r.Ok? ==> r.value.sx == h.sx && r.value.sy == h.sy
  {
    var n := h.sx * h.sy * 3;
    var cursor := SeekEnd(f, h.body, -n);
    if FreadCount(Available(f, cursor), n, 1) != 1 then Err(ShortBody)
    else Ok(Ppm(h.sx, h.sy, Unpacked(f[cursor..cursor + n], switchRB)))
  }

  /** The corrected reader accepts exactly when the image is not empty and
      the file holds its 3*sx*sy bytes, and then unpacks the tail. */
  lemma DecodePpmBodyAccepts(f: seq<byte>, h: Header, switchRB: bool)
    requires h.body <= |f|
    ensures DecodePpmBody(f, h, switchRB).Ok? <==> 0 < h.sx * h.sy * 3 <= |f|
    ensures DecodePpmBody(f, h, switchRB).Ok? ==>
      DecodePpmBody(f, h, switchRB).value.pixels == Unpacked(f[|f| - h.sx * h.sy * 3..], switchRB)
  {
    var n := h.sx * h.sy * 3;
    var cursor := SeekEnd(f, h.body, -n);
    FreadOne(Available(f, cursor), n);
    if 0 < n <= |f| {
      assert cursor == |f| - n;
      assert f[cursor..cursor + n] == f[|f| - n..];
    }
  }

  /** Reading back what the writer wrote gives the size and the pixels,
      with alpha 255, whenever the image is not empty. */
  lemma WriteReadRoundTrip(pixels: seq<RgbaValue>, sx: nat, sy: nat, switchRB: bool)
    requires sx * sy == |pixels| && sx * sy > 0
    ensures DecodePpm(EncodePpm(pixels, sx, sy, switchRB), switchRB) ==
      Ok(Ppm(sx, sy, WithOpaqueAlpha(pixels)))
  {
    var f := EncodePpm(pixels, sx, sy, switchRB);
    var header := HeaderBytes(MAGIC_P6, sx, sy);
    var body := Packed(pixels, switchRB);
    assert pixels[..sx * sy] == pixels;
    assert f == header + body by {
      assert f == f[..|header|] + f[|header|..];
    }
    HeaderRoundTrip(MAGIC_P6, sx, sy, body);
    var h := ParseHeader(f).value;
    DecodePpmBodyAccepts(f, h, switchRB);
    assert f[|f| - 3 * (sx * sy)..] == body;
    assert h.sx * h.sy * 3 == 3 * (sx * sy);
    UnpackPacked(pixels, switchRB);
  }

  /** `readPPM` with the corrected seek, as a method: magic token, comment
      loop, header fields, tail read, then the unpacking loop into a fresh
      pixel array. */
  method ReadPpm(f: seq<byte>, switchRB: bool) returns (r: Result<Ppm, ReadError>)
    ensures r == DecodePpm(f, switchRB)
  {
    var (format, afterMagic) := ScanToken(f, 0);
    var position := SkipCommentLines(f, afterMagic);
    if position.None? {
      return Err(CommentAtEof);
    }
    var header := ParseFields(f, format, position.value);
    if header.Err? {
      return Err(header.error);
    }
    r := ReadPpmBody(f, header.value, switchRB);
  }

  /** The tail read and the unpacking loop after a parsed header. */
  method ReadPpmBody(f: seq<byte>, h: Header, switchRB: bool) returns (r: Result<Ppm, ReadError>)
    requires h.body <= |f|
    ensures r == DecodePpmBody(f, h, switchRB)
  {
    var n := h.sx * h.sy * 3;
    var cursor := SeekEnd(f, h.body, -n);
    var readcount := FreadCount(Available(f, cursor), n, 1);
    if readcount != 1 {
      return Err(ShortBody);
    }
    FreadOne(Available(f, cursor), n);
    var img := UnpackPixels(f[cursor..cursor + n], h.sx * h.sy, switchRB);
    return Ok(Ppm(h.sx, h.sy, img[..]));
  }

  /** The loop `for i < sx*sy` of `readPPM`: pixel i from bytes 3i .. 3i+2,
      alpha 255. */
  method UnpackPixels(buf: seq<byte>, count: int, switchRB: bool) returns (img: array<RgbaValue>)
    requires count >= 0 && |buf| == 3 * count
    ensures fresh(img)
    ensures img[..] == Unpacked(buf, switchRB)
  {
    img := new RgbaValue[count](_ => Black());
    for i := 0 to count
      invariant forall k :: 0 <= k < i ==> img[k] == Unpacked(buf, switchRB)[k]
    {
      UnpackedAt(buf, switchRB, i);
      var r := if switchRB then buf[3 * i + 2] else buf[3 * i];
      var g := buf[3 * i + 1];
      var b := if switchRB then buf[3 * i] else buf[3 * i + 2];
      img[i] := RgbaValue(r, g, b, 255);
    }
  }
}
