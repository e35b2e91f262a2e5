# CPP_ImageProcessing in Dafny

A verified model of the integer core of a small C++ image-processing
program. It has four parts:

- **The `Image` class** (`ImageProcess.cpp`): an owned rows-by-columns
  buffer of `int` samples plus a gray-level field. It supports
  construction, copying, bounds checks, pixel access, crop, integer mean,
  nearest-neighbour enlarge and shrink, row or column reflection,
  translation, pairwise average (`operator+`), thresholded difference
  (`operator-`) and negation.
  - Module `ImageProcess` holds the class, with its `array2` buffer and the
    nested fill loops.
  - Module `Grids` holds the value-level meaning of each operation and the
    properties proved about it.
- **The PGM reader and writer** (`PGM_IO.h`), over an in-memory file (a
  byte sequence).
  - Module `Stdio` models the C library calls the readers use:
    - `fscanf` with `%s`, `%d` and white-space directives;
    - `fgets` into a 255-byte buffer;
    - `fseek` from the end, and `fread`;
    - the header and `#`-comment loop shared by both readers.
  - Module `PgmIo` models the P2 (ASCII, 12-bit, rescaled) and P5 (raw,
    read from the end of the file) paths, plus the P5 writer.
- **The `rtcvRgbaValue` pixel and the PPM reader and writer** (`PPM_IO.h`).
  - Module `Rgba` covers the constructors, hue, saturation, value and
    equality.
  - Module `PpmIo` covers the packing loop of `writePPM` and the unpacking
    loop of `readPPM`.
- **The live integer pipeline of `main`** (`Main.cpp`), in module
  `Pipeline`:
  - the separable 1-2-1 Gaussian passes and the 3x3 smoothing built from
    them;
  - the ½ decimation;
  - the 256-bin gray histogram;
  - the energy threshold;
  - the 8-bin hue histogram, its arg-max, and the hue segmentation mask.

Code that changes state stays imperative:

- classes with `modifies` clauses;
- arrays updated in place;
- `for`/`while` loops with invariants.

Each such method is proved to produce what a function of its inputs
specifies. The properties the program relies on are lemmas about those
functions. Module `Base` holds shared vocabulary: bytes, `Option`/`Result`,
C's truncating division, and sums and bin counts.

Integers are unbounded throughout. C's `/` on possibly negative operands
is `Base.TDiv`. An `unsigned char` conversion is written out as `% 256`
where it can wrap.

## Model

| member | source | states |
|---|---|---|
| Base.TDiv | CPP_ImageProcessing/ImageProcess.cpp:159 | C integer division by a positive divisor: the quotient rounds toward zero, so the remainder has the dividend's sign |
| Base.TDivBounds | CPP_ImageProcessing/PPM_IO.h:52-60 | bounds lo*d <= a <= hi*d on a dividend give lo <= a/d <= hi for the truncated quotient |
| Base.CountsSum | CPP_ImageProcessing/Main.cpp:118-123 | when every element lies in 0 .. bins-1, the bin counts add up to the number of elements |
| Base.Counts | CPP_ImageProcessing/Main.cpp:118-123 | one count per bin, and bin v is non-zero exactly when v occurs; the gray histogram here and the hue histogram at `Main.cpp:217-219` are both Counts |
| Grids.Crop | CPP_ImageProcessing/ImageProcess.cpp:130-135 | the crop of rows ulR .. lrR-1 and columns ulC .. lrC-1 has lrR-ulR rows of lrC-ulC samples |
| Grids.CropAt | CPP_ImageProcessing/ImageProcess.cpp:137-141 | cell (i-ulR, j-ulC) of the crop is cell (i, j) of the source, for every (i, j) in the rectangle |
| Grids.CropWhole | CPP_ImageProcessing/ImageProcess.cpp:125-144 | cropping to the full extent returns the grid unchanged |
| Grids.CropCrop | CPP_ImageProcessing/ImageProcess.cpp:125-144 | a crop of a crop equals a single crop with the offsets added |
| Grids.EnlargeShape | CPP_ImageProcessing/ImageProcess.cpp:170-174 | enlarging by k gives rows*k rows of cols*k samples |
| Grids.EnlargeAt | CPP_ImageProcessing/ImageProcess.cpp:176-191 | output cell (c, d) of the enlargement is input cell (c/k, d/k) |
| Grids.Enlarge | CPP_ImageProcessing/ImageProcess.cpp:162-194 | the enlargement by k has k times as many rows as the input; EnlargeAt gives each of its cells |
| Grids.EnlargeCell | CPP_ImageProcessing/ImageProcess.cpp:180-188 | every cell of the k-by-k block with corner (i*k, j*k) is a copy of cell (i, j) |
| Grids.ShrinkShape | CPP_ImageProcessing/ImageProcess.cpp:202-206 | shrinking by k gives rows/k rows of cols/k samples |
| Grids.ShrinkAt | CPP_ImageProcessing/ImageProcess.cpp:208-212 | output cell (i, j) of the shrink is input cell (i*k, j*k) |
| Grids.Shrink | CPP_ImageProcessing/ImageProcess.cpp:196-214 | shrinking by k keeps rows/k rows (truncated); ShrinkAt gives each of its cells |
| Grids.ShrinkEnlarge | CPP_ImageProcessing/ImageProcess.cpp:162-214 | shrinking by k undoes enlarging by k, for every k >= 1 |
| Grids.ReflectRowsTwice | CPP_ImageProcessing/ImageProcess.cpp:222-229 | reversing the row order twice is the identity |
| Grids.ReflectColsTwice | CPP_ImageProcessing/ImageProcess.cpp:230-237 | reversing every row twice is the identity |
| Grids.ReflectRows | CPP_ImageProcessing/ImageProcess.cpp:222-229 | row i of the input becomes row rows-(i+1) of the output, and the row count is kept |
| Grids.ReflectCols | CPP_ImageProcessing/ImageProcess.cpp:230-237 | in every row, sample j of the input becomes sample cols-(j+1), and every row keeps its length |
| Grids.Translate | CPP_ImageProcessing/ImageProcess.cpp:242-257 | the translated grid keeps the size of the source; TranslateAt gives its cells |
| Grids.TranslateAt | CPP_ImageProcessing/ImageProcess.cpp:249-253 | old cell (i, j) lands at (i+v, j+v) for i < rows-v and j < cols-v, and every cell in the top v rows or the left v columns is 0 |
| Grids.TranslateZero | CPP_ImageProcessing/ImageProcess.cpp:250-254 | a shift by 0 changes nothing |
| Grids.TranslateTwice | CPP_ImageProcessing/ImageProcess.cpp:242-257 | a shift by a followed by a shift by b is one shift by a+b; the zero band composes |
| Grids.AverageCommutes | CPP_ImageProcessing/ImageProcess.cpp:308-312 | for equally sized images, the cellwise average does not depend on the operand order |
| Grids.Average | CPP_ImageProcessing/ImageProcess.cpp:299-315 | the average has the argument's shape, and each of its cells lies between the two operand samples |
| Grids.AverageRange | CPP_ImageProcessing/ImageProcess.cpp:308-312 | the average of two images with samples in 0 .. 255 has samples in 0 .. 255 |
| Grids.NoiseFloor | CPP_ImageProcessing/ImageProcess.cpp:332-335 | a thresholded difference is either 0 or at least 35 |
| Grids.Difference | CPP_ImageProcessing/ImageProcess.cpp:317-341 | the difference image has the shape of the second operand, and every cell is 0 or at least 35 |
| Grids.DifferenceSelf | CPP_ImageProcessing/ImageProcess.cpp:327-337 | an image minus itself is all zero |
| Grids.DifferenceCommutes | CPP_ImageProcessing/ImageProcess.cpp:327-337 | for equally sized images, the thresholded absolute difference is symmetric |
| Grids.NegateTwice | CPP_ImageProcessing/ImageProcess.cpp:353-357 | negating twice is the identity |
| Grids.Negate | CPP_ImageProcessing/ImageProcess.cpp:343-360 | the negative keeps the shape, and each cell plus the input sample is 255 |
| Grids.NegateRange | CPP_ImageProcessing/ImageProcess.cpp:353-357 | negation maps samples in 0 .. 255 to samples in 0 .. 255 |
| Grids.MeanBounds | CPP_ImageProcessing/ImageProcess.cpp:146-160 | the truncated mean lies between the least and the greatest sample bound |
| Grids.Mean | CPP_ImageProcessing/ImageProcess.cpp:146-160 | the mean is the total over rows*cols rounded toward zero: a non-negative total gives the largest m with m*rows*cols at most the total, a non-positive one the smallest m with m*rows*cols at least the total |
| Grids.MeanConstant | CPP_ImageProcessing/ImageProcess.cpp:146-160 | the mean of a grid holding a single value v is v |
| ImageProcess.CopyBuffer | CPP_ImageProcessing/ImageProcess.cpp:62-68 | returns a fresh buffer of the same size holding the same samples |
| ImageProcess.Image.Empty | CPP_ImageProcessing/ImageProcess.cpp:15-23 | a 0x0 image with gray level 0 and no cells |
| ImageProcess.Image.constructor | CPP_ImageProcessing/ImageProcess.cpp:25-40 | an image with the given rows, columns and gray level, in which every cell is 0 |
| ImageProcess.Image.Copy | CPP_ImageProcessing/ImageProcess.cpp:55-69 | the same size, gray level and samples, in a buffer of its own |
| ImageProcess.Image.Assign | CPP_ImageProcessing/ImageProcess.cpp:71-85 | the receiver takes the argument's size and gray level in a fresh buffer, and, when the argument is another image, a copy of its samples |
| ImageProcess.Image.InBounds | CPP_ImageProcessing/ImageProcess.cpp:116-123 | true exactly when 0 <= row < rows and 0 <= col < cols |
| ImageProcess.Image.GetPixelVal | CPP_ImageProcessing/ImageProcess.cpp:103-107 | returns the sample at (row, col) |
| ImageProcess.Image.SetPixelVal | CPP_ImageProcessing/ImageProcess.cpp:110-114 | changes the sample at (row, col) and no other |
| ImageProcess.Image.GetSubImage | CPP_ImageProcessing/ImageProcess.cpp:125-144 | the image becomes the crop of the rectangle, with size (lrR-ulR) x (lrC-ulC) and the gray level kept |
| ImageProcess.Image.MeanGray | CPP_ImageProcessing/ImageProcess.cpp:146-160 | returns the sum of all samples divided, as C divides, by the number of cells |
| ImageProcess.Image.EnlargeImage | CPP_ImageProcessing/ImageProcess.cpp:162-194 | the image becomes its k-fold nearest-neighbour enlargement, with size rows*k x cols*k and the gray level kept |
| ImageProcess.Image.ShrinkImage | CPP_ImageProcessing/ImageProcess.cpp:196-214 | the image becomes every k-th sample of every k-th row, with size rows/k x cols/k and the gray level kept |
| ImageProcess.Image.ReflectImage | CPP_ImageProcessing/ImageProcess.cpp:216-240 | the image has its row order reversed (flag set) or every row reversed (flag clear); size and gray level are kept |
| ImageProcess.Image.TranslateImage | CPP_ImageProcessing/ImageProcess.cpp:242-257 | the receiver becomes Translate of its old cells (cell (i+v, j+v) is old cell (i, j) and the uncovered band is 0, by TranslateAt), and the size is unchanged |
| ImageProcess.Image.Plus | CPP_ImageProcessing/ImageProcess.cpp:299-315 | returns a fresh image, sized and gray-levelled like the argument, holding the truncated cellwise average |
| ImageProcess.Image.Minus | CPP_ImageProcessing/ImageProcess.cpp:317-341 | returns a fresh image, sized like the argument, holding the cellwise absolute difference with values below 35 set to 0 |
| ImageProcess.Image.NegateImage | CPP_ImageProcessing/ImageProcess.cpp:343-360 | every sample v becomes 255 - v; size and gray level are kept |
| ImageProcess.CropInto | CPP_ImageProcessing/ImageProcess.cpp:137-141 | the crop loops leave the temporary buffer holding the crop of the source |
| ImageProcess.EnlargeInto | CPP_ImageProcessing/ImageProcess.cpp:176-191 | the four nested enlarge loops leave the temporary buffer holding the enlargement |
| ImageProcess.ShrinkInto | CPP_ImageProcessing/ImageProcess.cpp:208-212 | the shrink loops leave the temporary buffer holding the decimated grid |
| ImageProcess.ReflectInto | CPP_ImageProcessing/ImageProcess.cpp:222-237 | the reflection loops leave the temporary buffer holding the reflected grid |
| ImageProcess.TranslateInto | CPP_ImageProcessing/ImageProcess.cpp:250-254 | starting from a zero buffer, the translation loops leave the shifted grid |
| ImageProcess.AverageInto | CPP_ImageProcessing/ImageProcess.cpp:308-312 | the loops overwrite the copy of the argument with the cellwise average |
| ImageProcess.DifferenceInto | CPP_ImageProcessing/ImageProcess.cpp:327-337 | the loops overwrite the copy of the argument with the thresholded difference |
| ImageProcess.NegateInto | CPP_ImageProcessing/ImageProcess.cpp:353-357 | the loops fill the temporary buffer with the negated grid |
| Stdio.ScanToken | CPP_ImageProcessing/PGM_IO.h:38 | `%s\n` yields a token with no white space in it and stops after the following white space |
| Stdio.ScanInt | CPP_ImageProcessing/PGM_IO.h:61-62 | a `%d` conversion that succeeds consumes at least one byte |
| Stdio.Decimal | CPP_ImageProcessing/PGM_IO.h:115 | `%d` output of n is a non-empty digit string whose decimal value is n |
| Stdio.ScanDecimal | CPP_ImageProcessing/PGM_IO.h:61-62 | `%d` after white space reads back exactly the number `printf("%d")` wrote, and stops right after it |
| Stdio.ChunkEnd | CPP_ImageProcessing/PGM_IO.h:48 | `fgets` with size 255 reads at most 254 bytes and stops after the first newline or at end of input |
| Stdio.SkipComments | CPP_ImageProcessing/PGM_IO.h:41-59 | the comment loop, when it ends, ends at a position inside the file at or after where it started |
| Stdio.SkipCommentsStops | CPP_ImageProcessing/PGM_IO.h:46-59 | the loop stops at a byte that is not `#`, moves only over chunks that start with `#`, and stops at end of input only when no chunk was read |
| Stdio.CommentLineSkipped | CPP_ImageProcessing/PGM_IO.h:46-59 | inserting one `#` comment line shifts where the loop ends by the line's length; nothing else changes, and it hangs exactly when the file ends right after the line |
| Stdio.SkipCommentLines | CPP_ImageProcessing/PGM_IO.h:41-59 | the `while(true)` loop with its saved position and `fgets` buffer returns the position SkipComments specifies, or reports the end-of-input hang |
| Stdio.ParseHeader | CPP_ImageProcessing/PGM_IO.h:37-68 | a header parse fails only through the comment hang or a missing field, and on success ends inside the file |
| Stdio.ParseFields | CPP_ImageProcessing/PGM_IO.h:61-67 | width, height and maximum must all convert, or the header is rejected as missing a field |
| Stdio.HeaderRoundTrip | CPP_ImageProcessing/PGM_IO.h:115 | the header the writers print (magic, width, height, 255) parses back to the same magic, width, height and maximum 255, whatever body follows |
| Stdio.FreadCount | CPP_ImageProcessing/PGM_IO.h:89 | `fread` returns at most `count` items, and only complete items that fit in the bytes left |
| Stdio.SeekEnd | CPP_ImageProcessing/PGM_IO.h:87 | a seek -n from the end of the file leaves exactly n bytes after the cursor, a positive offset puts the cursor past the end, and a target before the start leaves the cursor where it was |
| Stdio.Available | CPP_ImageProcessing/PGM_IO.h:89 | the bytes left for `fread` are those between the cursor and the end of the file, and none past the end |
| Stdio.FreadOne | CPP_ImageProcessing/PPM_IO.h:189-190 | one item is read exactly when the item size is positive and at most the number of bytes left |
| PgmIo.RescaleRounds | CPP_ImageProcessing/PGM_IO.h:71-80 | the exact integer (34v+273)/546 is floor(0.5 + v*255/4095), and the real quantity is never an integer, so the double computation rounds the same way |
| PgmIo.RescaleEnds | CPP_ImageProcessing/PGM_IO.h:71-80 | sample 0 rescales to 0, and sample 4095 to 255 |
| PgmIo.RescaleMonotone | CPP_ImageProcessing/PGM_IO.h:71-80 | rescaling never maps a larger sample to a smaller byte |
| PgmIo.Rescale | CPP_ImageProcessing/PGM_IO.h:71-80 | the scaled sample saturates at the ends: 0 and below give byte 0, 4095 and above give 255 |
| PgmIo.Samples | CPP_ImageProcessing/PGM_IO.h:74-82 | reading count P2 samples yields exactly count bytes, or fails as a bad sample |
| PgmIo.SamplesRoundTrip | CPP_ImageProcessing/PGM_IO.h:74-82 | values of at most 4095, written as space-separated decimals, read back as their rescaled bytes, ending right after the text |
| PgmIo.SampleCount | CPP_ImageProcessing/PGM_IO.h:74-76 | the nested loops read a positive number of samples exactly when both width and height are positive |
| PgmIo.DecodeBody | CPP_ImageProcessing/PGM_IO.h:69-100 | an accepted image keeps the width and height of the header |
| PgmIo.HasMagic | CPP_ImageProcessing/PGM_IO.h:69 | `strncmp(magic, format, 2) == 0`: the token is at least two bytes long and starts with the two magic bytes; the P5 test at `PGM_IO.h:84` is the same |
| PgmIo.NullBufferRejected | CPP_ImageProcessing/PGM_IO.h:27-28 | with no buffer to store into, the reader fails before reading |
| PgmIo.DecodePgm | CPP_ImageProcessing/PGM_IO.h:25-106 | an accepted file has a buffer and a parsed header, keeps the header's width and height, and holds exactly sx*sy samples (none when either is not positive) |
| PgmIo.DecodeP2 | CPP_ImageProcessing/PGM_IO.h:69-83 | with magic P2 and maximum 4096, the read succeeds exactly when all samples scan, and yields their rescaled bytes |
| PgmIo.DecodeP5 | CPP_ImageProcessing/PGM_IO.h:84-95 | with magic P5 and maximum 255 or 256, the read succeeds exactly when the height is 0, or both sides are positive and the file holds sx*sy bytes; the data is the last sx*sy bytes of the file; otherwise the body is short |
| PgmIo.DecodeOther | CPP_ImageProcessing/PGM_IO.h:96-100 | every other pair of magic token and maximum is rejected as unsupported |
| PgmIo.P5Accepts | CPP_ImageProcessing/PGM_IO.h:86-94 | `fseek(-sx*sy, SEEK_END)` followed by `fread(sx, sy) == sy` succeeds exactly in the cases above, and then the cursor sits sx*sy bytes before the end |
| PgmIo.ReadPgm | CPP_ImageProcessing/PGM_IO.h:25-106 | the reader as a sequence of steps (null check, token, comment loop, fields, body) returns what DecodePgm specifies |
| PgmIo.ReadBody | CPP_ImageProcessing/PGM_IO.h:69-100 | the branch on format and maximum returns what DecodeBody specifies |
| PgmIo.ReadSamples | CPP_ImageProcessing/PGM_IO.h:72-82 | the nested `y < sy`, `x < sx` loops that store at `idx++` return what Samples specifies, including failure on the first bad sample |
| PgmIo.ReadRow | CPP_ImageProcessing/PGM_IO.h:76-81 | one inner-loop pass extends the loaded prefix by sx samples, or stops at a sample whose read fails |
| PgmIo.EncodePgm | CPP_ImageProcessing/PGM_IO.h:109-125 | the file is `P5\n<sx> <sy>\n255\n` followed by the first sx*sy data bytes in order; the writer reports success exactly when sx*sy > 0 |
| PgmIo.WriteReadRoundTrip | CPP_ImageProcessing/PGM_IO.h:109-125 | whenever the writer reports success, reading its file back gives the same width, height and bytes |
| Rgba.Black | CPP_ImageProcessing/PPM_IO.h:31 | opaque black: alpha 255, value, hue and saturation 0 |
| Rgba.Gray | CPP_ImageProcessing/PPM_IO.h:32 | the level on all three colour channels with alpha 255: value and minimum are the level, hue and saturation are 0 |
| Rgba.Opaque | CPP_ImageProcessing/PPM_IO.h:33 | the given channels with alpha defaulting to 255 |
| Rgba.Value | CPP_ImageProcessing/PPM_IO.h:94-97 | `getV` is the largest of r, g and b |
| Rgba.MinChannel | CPP_ImageProcessing/PPM_IO.h:42 | the smallest of r, g and b |
| Rgba.HueAngle | CPP_ImageProcessing/PPM_IO.h:38-63 | the `int` angle of `getHue`, from the sector rule with C's truncating division: 0 for black and grays, always in -43 .. 214, and negative only when red is the maximum and b > g |
| Rgba.Hue | CPP_ImageProcessing/PPM_IO.h:36-64 | `getHue` returns the angle as `unsigned char`: 0 for black and grays, a non-negative angle unchanged, and a negative one plus 256 |
| Rgba.HueSectors | CPP_ImageProcessing/PPM_IO.h:36-64 | hue is 0 for grays; a red maximum gives an angle within ±43 (negative only when b > g, then wrapped to 213 .. 255); green gives 42 .. 128; blue gives 128 .. 214 |
| Rgba.HuePrimaries | CPP_ImageProcessing/PPM_IO.h:48-63 | the primaries and secondaries hit the sector constants 0, 43, 85, 128 and 171, and magenta wraps to 213 |
| Rgba.ScaledExtremes | CPP_ImageProcessing/PPM_IO.h:89-91 | 255*spread/max is 0 exactly for no spread, and 255 exactly for the full spread |
| Rgba.Scaled | CPP_ImageProcessing/PPM_IO.h:89-91 | `255*delta/max` is the largest byte s with s*max at most 255*delta; no spread gives 0 and the full spread gives 255 |
| Rgba.SaturationSpread | CPP_ImageProcessing/PPM_IO.h:66-92 | the two-comparison scan finds the true maximum and minimum, so `getSat` is 0 for black and otherwise 255*(max-min)/max |
| Rgba.Saturation | CPP_ImageProcessing/PPM_IO.h:66-92 | `getSat`, the two-comparison scan followed by the scaled spread: 0 when all channels agree, and 255 when the minimum is 0 under a positive maximum |
| Rgba.SaturationExtremes | CPP_ImageProcessing/PPM_IO.h:66-92 | saturation is 0 exactly for grays, and 255 exactly when some channel is 0 and the maximum is not |
| Rgba.Equals | CPP_ImageProcessing/PPM_IO.h:99-102 | true exactly when all four channels agree |
| PpmIo.PackedAt | CPP_ImageProcessing/PPM_IO.h:114-116 | pixel i goes to bytes 3i, 3i+1 and 3i+2, red first (or blue first when switched), green in the middle |
| PpmIo.Packed | CPP_ImageProcessing/PPM_IO.h:108-118 | the buffer `writePPM` fills holds three bytes per pixel, alpha never written; PackedAt gives each byte |
| PpmIo.UnpackedAt | CPP_ImageProcessing/PPM_IO.h:200-203 | pixel i is read from bytes 3i .. 3i+2 with the same switch and alpha 255 |
| PpmIo.Unpacked | CPP_ImageProcessing/PPM_IO.h:197-204 | one pixel for each complete triple of the buffer, fewer than three bytes being left over; UnpackedAt gives each pixel |
| PpmIo.UnpackPacked | CPP_ImageProcessing/PPM_IO.h:197-204 | unpacking with the same switch restores every pixel's colour channels; alpha becomes 255 |
| PpmIo.PackUnpacked | CPP_ImageProcessing/PPM_IO.h:108-118 | packing the unpacked pixels gives back every complete triple of the byte buffer |
| PpmIo.PackPixels | CPP_ImageProcessing/PPM_IO.h:108-118 | the packing loops fill a fresh 3*sx*sy buffer with the first sx*sy pixels packed in order |
| PpmIo.PackRow | CPP_ImageProcessing/PPM_IO.h:111-117 | one inner-loop pass packs the sx pixels of row y at offset `y*sx*3 + x*3` and keeps the earlier rows |
| PpmIo.EncodePpm | CPP_ImageProcessing/PPM_IO.h:121-138 | the file is `P6\n<sx> <sy>\n255\n` followed by the packed pixels |
| PpmIo.WritePpm | CPP_ImageProcessing/PPM_IO.h:106-139 | packing and then writing header and buffer produce the file EncodePpm specifies |
| PpmIo.ReadPpmAsWrittenFails | CPP_ImageProcessing/PPM_IO.h:183-195 | with the positive seek offset as written, the reader fails on every input, and a file whose header parses fails with a short body |
| PpmIo.DecodePpmAsWritten | CPP_ImageProcessing/PPM_IO.h:142-195 | the reader as written fails on every input, with a header error or a short body |
| PpmIo.DecodePpm | CPP_ImageProcessing/PPM_IO.h:142-211 | the reader fails only through the comment hang, a missing field or a short body |
| PpmIo.DecodePpmBody | CPP_ImageProcessing/PPM_IO.h:183-204 | an accepted image keeps the header's width and height; any failure is a short body |
| PpmIo.DecodePpmBodyAccepts | CPP_ImageProcessing/PPM_IO.h:183-204 | with the corrected seek, the body read succeeds exactly when 0 < 3*sx*sy <= file length, and the pixels are the unpacked tail of the file |
| PpmIo.WriteReadRoundTrip | CPP_ImageProcessing/PPM_IO.h:106-204 | reading back a written non-empty image gives the same width, height and colours, with alpha 255 |
| PpmIo.ReadPpm | CPP_ImageProcessing/PPM_IO.h:142-211 | the reader as a sequence of steps (token, comment loop, fields, body) returns what DecodePpm specifies |
| PpmIo.ReadPpmBody | CPP_ImageProcessing/PPM_IO.h:183-204 | the tail read and the unpacking loop return what DecodePpmBody specifies |
| PpmIo.UnpackPixels | CPP_ImageProcessing/PPM_IO.h:197-204 | the `i < sx*sy` loop fills a fresh pixel array with the unpacked buffer |
| Pipeline.Blur | CPP_ImageProcessing/Main.cpp:27-28 | `(a + 2b + c) / 4` lies between the smallest and the largest of a, b and c, so it stays a byte |
| Pipeline.Gauss3x1Beyond | CPP_ImageProcessing/Main.cpp:20-32 | bytes after the processed rows are untouched |
| Pipeline.Gauss3x1At | CPP_ImageProcessing/Main.cpp:20-32 | in every row, columns 1 .. w-2 become the 1-2-1 blur of the source row, and columns 0 and w-1 keep the destination's value |
| Pipeline.Gauss3x1 | CPP_ImageProcessing/Main.cpp:16-33 | the horizontal pass returns a buffer of the destination's length; Gauss3x1At gives each of its bytes |
| Pipeline.FilterGauss3x1 | CPP_ImageProcessing/Main.cpp:16-33 | the pointer-walking loops leave the destination as Gauss3x1 specifies |
| Pipeline.Gauss3x1Row | CPP_ImageProcessing/Main.cpp:22-31 | one row pass of the inner loop, as HRow specifies |
| Pipeline.HRow | CPP_ImageProcessing/Main.cpp:22-31 | one row of the horizontal pass: the buffer keeps its length, and every byte outside the row's columns 1 .. w-2 keeps the destination's value |
| Pipeline.Gauss1x3Outside | CPP_ImageProcessing/Main.cpp:40 | row 0 and the rows from height-1 on are untouched |
| Pipeline.Gauss1x3Inner | CPP_ImageProcessing/Main.cpp:45-48 | a cell of an inner row becomes the 1-2-1 blur of the cells above, at and below it in the source |
| Pipeline.Gauss1x3At | CPP_ImageProcessing/Main.cpp:40-52 | rows 1 .. h-2 are the vertical blur of the source, and rows 0 and h-1 keep the destination's value |
| Pipeline.Gauss1x3 | CPP_ImageProcessing/Main.cpp:36-53 | the vertical pass returns a buffer of the destination's length; Gauss1x3At gives each of its bytes |
| Pipeline.FilterGauss1x3 | CPP_ImageProcessing/Main.cpp:36-53 | the pointer-walking loops leave the destination as Gauss1x3 specifies |
| Pipeline.Gauss1x3Row | CPP_ImageProcessing/Main.cpp:42-51 | one row pass of the inner loop, as VRow specifies |
| Pipeline.VRow | CPP_ImageProcessing/Main.cpp:42-51 | one row of the vertical pass: the buffer keeps its length, and every byte outside that row keeps the destination's value |
| Pipeline.CopyBytes | CPP_ImageProcessing/Main.cpp:62-63 | `memcpy` makes the n bytes from `start` equal to the source's, and no other byte changes |
| Pipeline.FilterGaussian3x3 | CPP_ImageProcessing/Main.cpp:55-68 | starting from a temporary buffer of arbitrary contents, the image ends up as Smoothed specifies |
| Pipeline.BordersRestored | CPP_ImageProcessing/Main.cpp:59-63 | after the border rows are copied back, the temporary buffer no longer depends on its initial contents: it is the vertical pass of the image over itself |
| Pipeline.SmoothedBorderColumns | CPP_ImageProcessing/Main.cpp:59-65 | columns 0 and w-1 of the smoothed image keep the input's values |
| Pipeline.SmoothedInterior | CPP_ImageProcessing/Main.cpp:55-68 | away from the border, a pixel becomes the horizontal 1-2-1 blur of the vertical 1-2-1 blurs of its three columns |
| Pipeline.Smoothed | CPP_ImageProcessing/Main.cpp:55-68 | the 3x3 smoothing keeps the image size; SmoothedInterior and SmoothedBorderColumns give its bytes |
| Pipeline.Gauss3x1Constant | CPP_ImageProcessing/Main.cpp:27-28 | a constant image is a fixed point of the horizontal pass |
| Pipeline.Gauss1x3Constant | CPP_ImageProcessing/Main.cpp:47-48 | a constant image is a fixed point of the vertical pass |
| Pipeline.SmoothedConstant | CPP_ImageProcessing/Main.cpp:55-68 | a constant image comes out of the 3x3 smoothing unchanged |
| Pipeline.HalvedAt | CPP_ImageProcessing/Main.cpp:96-102 | output byte x + y*(w/2) is input byte 2x + 2y*w |
| Pipeline.Halved | CPP_ImageProcessing/Main.cpp:91-102 | decimating `rows` output rows gives rows*(w/2) bytes; HalvedAt gives each of them |
| Pipeline.Decimate | CPP_ImageProcessing/Main.cpp:91-102 | returns a fresh (w/2)*(h/2) buffer holding the decimation of the image |
| Pipeline.DecimateRow | CPP_ImageProcessing/Main.cpp:98-101 | the inner loop writes one output row from every other byte of the source row, and keeps the earlier rows |
| Pipeline.HalfRow | CPP_ImageProcessing/Main.cpp:98-101 | one output row of the decimation has ws bytes; HalvedAt gives each of them |
| Pipeline.GrayHistogram | CPP_ImageProcessing/Main.cpp:118-123 | bin v counts the bytes equal to v, and the 256 counts add up to the image size |
| Pipeline.Binarize | CPP_ImageProcessing/Main.cpp:183-186 | an energy above 30 becomes 255, and anything else becomes 0 |
| Pipeline.Thresholded | CPP_ImageProcessing/Main.cpp:181-187 | the thresholded image is a binary mask of the same size |
| Pipeline.ThresholdedIdempotent | CPP_ImageProcessing/Main.cpp:181-187 | thresholding a mask again changes nothing |
| Pipeline.Threshold | CPP_ImageProcessing/Main.cpp:181-187 | the in-place loop leaves the energy buffer thresholded |
| Pipeline.HueBin | CPP_ImageProcessing/Main.cpp:219 | `getHue() >> 5` is the index, in 0 .. 7, of the 32-wide band that contains the hue |
| Pipeline.HueBins | CPP_ImageProcessing/Main.cpp:218-219 | every pixel's bin lies in 0 .. 7 |
| Pipeline.HueHistogram | CPP_ImageProcessing/Main.cpp:216-219 | bin b counts the pixels whose hue bin is b, and the 8 counts add up to the number of pixels |
| Pipeline.DominantBin | CPP_ImageProcessing/Main.cpp:221-231 | returns -1 exactly when every count is 0; otherwise it returns the first bin holding the largest count |
| Pipeline.Segment | CPP_ImageProcessing/Main.cpp:239-245 | a pixel's mask value is 255 exactly when its hue bin is the dominant bin and its saturation and value both exceed 100; otherwise it is 0 |
| Pipeline.SegmentedIsChromatic | CPP_ImageProcessing/Main.cpp:236-246 | a segmented pixel needs a dominant bin, is brighter than 100, and is not a gray |
| Pipeline.SegmentHue | CPP_ImageProcessing/Main.cpp:236-246 | the loop fills a fresh mask with one Segment value per pixel |

## Left out

- `ImageProcess.Image.Assign`: on self-assignment the source allocates the new rows before copying (`ImageProcess.cpp:78-83`), so it reads uninitialised memory. The model promises only the size and gray level in that case, not the samples. Every operation of the model assigns a fresh temporary image, so it never self-assigns.
- `ImageProcess.Image.constructor`: requires non-negative sizes. For negative rows, or negative columns with at least one row, the source's `new[]` throws (`ImageProcess.cpp:32-36`). With 0 rows and negative columns it yields a 0 x negative image. Exceptions and negative sizes are not modelled.
- `rotateImage` (`ImageProcess.cpp:259-297`) is not modelled: it uses floating-point `cos` and `sin`.
- The histogram stretch (`Main.cpp:125-153`) is not modelled: it uses floating-point percentiles and scaling.
- The gradient energy (`Main.cpp:158-173`) is not modelled: it uses `sqrt` on floats. `Pipeline.Threshold` therefore takes any energy buffer.
- Everything inside `#if 0` in `Main.cpp` is compiled out and is not modelled.
- `setImageInfo` and `getImageInfo` are not modelled. `setImageInfo` changes the dimensions without reallocating the buffer.
- The `rtcvRgbaValue(int)` constructor is not modelled, and neither is the overlay of the channels on an `int` and on `byte[4]`. Their meaning depends on byte layout and endianness.
- File handling is not modelled:
  - files are byte sequences passed in and returned;
  - failing `fopen`, `fclose` and file names are left out;
  - console output and `getchar` are left out.
- Memory management is not modelled; every buffer is fresh and owned. This leaves out:
  - the destructor, which zeroes the row count and then indexes row `m_N`;
  - the leaks in `operator=` and `writePPM`;
  - `delete` where `delete[]` is needed;
  - the `realloc` of the caller's pointer.
- The 2-D buffer is a single `array2`, not a table of row pointers.
- `ImageProcess.Image`: each operation acts on the receiver. The source passes the image to be changed as `oldImage`, and every call passes the receiver itself.
- Integer width: `int` and `unsigned int` overflow is not modelled.
  - Image sizes and sums are unbounded.
  - Histogram counts are `nat`. This also covers the `int`/`unsigned` comparison of `maxHist`.
- `Stdio.ScanToken`: a token longer than the 15 bytes that fit in `format[16]` is taken whole; the source overflows its buffer.
- `Stdio.SkipComments`: end of input right after a comment line is the error `CommentAtEof`; the source loops forever there. End of input before any line is taken as "not a comment"; the source then compares an uninitialised buffer.
- `PgmIo.Samples`: a P2 sample that does not convert, or lies outside -8 .. 4103, is the error `BadSample`. For such a sample the source stores an uninitialised value or performs an out-of-range conversion, and still returns true.
- `PgmIo.DecodeBody`: P2 is accepted with maximum 4096, as the code checks. The repository's own description gives 4095, and the model follows the code. The rescale factor is 255/4095 in both.
- `PgmIo.EncodePgm`: width and height are `nat`. The source's `unsigned int` parameters make a negative size meaningless.
- `PpmIo.EncodePpm`: width and height are `nat`.
- `PpmIo.PackPixels`: requires at least sx*sy pixels. The source reads past the array otherwise.
- `PpmIo.WritePpm`: the source returns nothing, so a failed `fwrite` is not reported. The model returns the file contents.
- `ImageProcess.Image.EnlargeImage`: requires a factor of at least 0. A negative factor gives negative sizes (`ImageProcess.cpp:169-170`). For an image with at least one row, the constructor's `new[]` then throws (see the constructor line). An image with 0 rows gives a 0 x negative image, or 0 x 0 when it also has no columns.
- `ImageProcess.Image.TranslateImage`: requires a shift of at least 0. A negative shift makes the source write outside the buffer.
- `ImageProcess.Image.ShrinkImage`: requires a factor of at least 1. A factor of 0 divides by zero in the source. A negative factor gives sizes rows/value and cols/value, truncated toward zero (`ImageProcess.cpp:203-204`), so at most 0. A negative row count makes the constructor's `new[]` throw (see the constructor line). With 0 rows the result is a 0 x 0 or 0 x negative image.
- `ImageProcess.Image.GetPixelVal`: requires the coordinate to lie inside the image. The source indexes the rows without a check (`ImageProcess.cpp:103-107`), reading outside the buffer otherwise.
- `ImageProcess.Image.SetPixelVal`: requires the coordinate to lie inside the image. The source indexes the rows without a check (`ImageProcess.cpp:110-114`), writing outside the buffer otherwise.
- `ImageProcess.Image.GetSubImage`: requires the rectangle to lie inside the image. A rectangle that reaches past the image makes the source read outside the buffer. An inverted one gives a negative height or width (`ImageProcess.cpp:132-135`). Unless the height is 0, the constructor's `new[]` then throws (see the constructor line). With height 0 and a negative width, it yields a 0 x negative image.
- `ImageProcess.Image.MeanGray`: requires at least one cell. The source divides by zero otherwise.
- `ImageProcess.Image.Plus`: requires the argument to be no larger than the receiver. The source reads outside the receiver's buffer otherwise.
- `ImageProcess.Image.Minus`: the same requirement as `Plus`, for the same reason.
- `Pipeline.FilterGaussian3x3`: requires at least one row, or a width of 0. With no rows, the source's second `memcpy` writes before the buffer. The indeterminate contents of `new unsigned char[]` are a parameter of the proof; the result is proved not to depend on them.
- `Pipeline.FilterGauss3x1`, `Pipeline.FilterGauss1x3` and `Pipeline.Decimate`: width and height are `nat`.
- `Pipeline.Decimate` does not cover the call to `writePGM` that follows it; that call is modelled by `PgmIo.EncodePgm`.
- `PpmIo.DecodePpm` and `PpmIo.ReadPpm` use the corrected seek (see Findings). The reader as written is `PpmIo.DecodePpmAsWritten`.

## Findings

| source | as written | input that shows it | evidently intended | confidence | as-written member | corrected member |
|---|---|---|---|---|---|---|
| CPP_ImageProcessing/PPM_IO.h:187-189 | `fseek(fp, sx*sy*3, SEEK_END)` moves sx*sy*3 bytes past the end of the file, so the `fread` of one sx*sy*3-byte item never succeeds and `readPPM` always returns false | any file, for instance the output of `writePPM` for a 1x1 image | a negative offset, as in `readPGM` (`PGM_IO.h:87`), so that the body is the last sx*sy*3 bytes of the file | not executed | PpmIo.ReadPpmAsWrittenFails | PpmIo.WriteReadRoundTrip |
