/** The C standard I/O behaviour both image readers rely on, over an
    in-memory file `f` (a byte sequence) and a file position `p`:
    `fscanf` with `%s`, `%d` and white-space directives, `fgets` into a
    255-byte buffer, and the `fseek`/`fread` pair of the raw-body read.
    On top of these: the header shared by the PGM and PPM readers (magic
    token, `#` comment lines, width, height, maximum value). */
module Stdio {
  import opened Base

  const NEWLINE: byte := 10
  const SPACE: byte := 32
  const HASH: byte := 35

  /** Why a reader reports failure. */
  datatype ReadError =
    | NullBuffer          // no place to store the result
    | CommentAtEof        // input ends right after a comment line: the source loops forever there
    | MissingField        // width, height or maximum value did not convert
    | UnsupportedFormat   // magic token / maximum value combination not handled
    | BadSample           // a P2 sample is missing or outside the convertible range
    | ShortBody           // the raw body read came back short

  /** `isspace` in the C locale. */
  predicate IsSpace(b: byte)
  {
    b == SPACE || 9 <= b <= 13
  }

  predicate IsDigit(b: byte)
  {
    48 <= b <= 57
  }

  predicate AllDigits(s: seq<byte>)
  {
    forall i :: 0 <= i < |s| ==> IsDigit(s[i])
  }

  /** The end of the white-space run starting at p. */
  function SkipSpace(f: seq<byte>, p: nat): (q: nat)
    requires p <= |f|
    ensures p <= q <= |f|
    ensures forall i :: p <= i < q ==> IsSpace(f[i])
    ensures q == |f| || !IsSpace(f[q])
    decreases |f| - p
  {
    if p < |f| && IsSpace(f[p]) then SkipSpace(f, p + 1) else p
  }

  /** The end of the run of non-white-space bytes starting at p. */
  function TokenEnd(f: seq<byte>, p: nat): (q: nat)
    requires p <= |f|
    ensures p <= q <= |f|
    ensures forall i :: p <= i < q ==> !IsSpace(f[i])
    ensures q == |f| || IsSpace(f[q])
    decreases |f| - p
  {
    if p < |f| && !IsSpace(f[p]) then TokenEnd(f, p + 1) else p
  }

  /** The end of the run of decimal digits starting at p. */
  function DigitsEnd(f: seq<byte>, p: nat): (q: nat)
    requires p <= |f|
    ensures p <= q <= |f|
    ensures forall i :: p <= i < q ==> IsDigit(f[i])
    ensures q == |f| || !IsDigit(f[q])
    decreases |f| - p
  {
    if p < |f| && IsDigit(f[p]) then DigitsEnd(f, p + 1) else p
  }

  /** A maximal white-space run is the one SkipSpace finds. */
  lemma SkipSpaceAt(f: seq<byte>, p: nat, q: nat)
    requires p <= q <= |f|
    requires forall i :: p <= i < q ==> IsSpace(f[i])
    requires q == |f| || !IsSpace(f[q])
    ensures SkipSpace(f, p) == q
  {
  }

  lemma TokenEndAt(f: seq<byte>, p: nat, q: nat)
    requires p <= q <= |f|
    requires forall i :: p <= i < q ==> !IsSpace(f[i])
    requires q == |f| || IsSpace(f[q])
    ensures TokenEnd(f, p) == q
  {
  }

  lemma DigitsEndAt(f: seq<byte>, p: nat, q: nat)
    requires p <= q <= |f|
    requires forall i :: p <= i < q ==> IsDigit(f[i])
    requires q == |f| || !IsDigit(f[q])
    ensures DigitsEnd(f, p) == q
  {
  }

  /** Value of a string of decimal digits, most significant first. */
  function DigitsValue(s: seq<byte>): int
  {
    if s == [] then 0 else DigitsValue(s[..|s| - 1]) * 10 + (s[|s| - 1] as int - 48)
  }

  /** `fscanf(fp, "%s\n", buf)` from p: the token and the position after
      the white space that follows it. At end of input the conversion
      fails; the token is then empty. */
  function ScanToken(f: seq<byte>, p: nat): (r: (seq<byte>, nat))
    requires p <= |f|
    ensures r.1 <= |f| && (r.1 == |f| || !IsSpace(f[r.1]))
    ensures forall i :: 0 <= i < |r.0| ==> !IsSpace(r.0[i])
  {
    var s := SkipSpace(f, p);
    var e := TokenEnd(f, s);
    (f[s..e], SkipSpace(f, e))
  }

  /** `fscanf(fp, "%d", &v)` from p: white space is skipped, then a number
      is read; None when the conversion fails. */
  function ScanInt(f: seq<byte>, p: nat): (r: Option<(int, nat)>)
    requires p <= |f|
    ensures r.Some? ==> p < r.value.1 <= |f|
    decreases |f| - p
  {
    if p < |f| && IsSpace(f[p]) then ScanInt(f, p + 1) else ScanNumber(f, p)
  }

  /** An optional sign and at least one digit, at s. */
  function ScanNumber(f: seq<byte>, s: nat): (r: Option<(int, nat)>)
    requires s <= |f|
    ensures r.Some? ==> s < r.value.1 <= |f|
  {
    var signed := s < |f| && (f[s] == 43 || f[s] == 45);
    var d := if signed then s + 1 else s;
    var e := DigitsEnd(f, d);
    if e == d then None
    else
      var magnitude := ValueAt(f, d, e);
      Some((if signed && f[s] == 45 then -magnitude else magnitude, e))
  }

  /** The value of the digits f[d..e], read in place. */
  function ValueAt(f: seq<byte>, d: nat, e: nat): int
    requires d <= e <= |f|
    decreases e - d
  {
    if e == d then 0 else ValueAt(f, d, e - 1) * 10 + (f[e - 1] as int - 48)
  }

  lemma {:induction false} ValueAtDigits(f: seq<byte>, p: nat, d: seq<byte>)
    requires p + |d| <= |f| && forall i :: 0 <= i < |d| ==> f[p + i] == d[i]
    ensures ValueAt(f, p, p + |d|) == DigitsValue(d)
    decreases |d|
  {
    if d != [] {
      var init := d[..|d| - 1];
      assert f[p + |d| - 1] == d[|d| - 1];
      forall i | 0 <= i < |init| ensures f[p + i] == init[i] {
        assert f[p + i] == d[i];
      }
      ValueAtDigits(f, p, init);
    }
  }

  /** `%d` skips exactly the white-space run in front of the number. */
  lemma {:induction false} ScanIntSkips(f: seq<byte>, s: nat, p: nat)
    requires s <= p <= |f| && forall i :: s <= i < p ==> IsSpace(f[i])
    requires p == |f| || !IsSpace(f[p])
    ensures ScanInt(f, s) == ScanNumber(f, p)
    decreases p - s
  {
    if s < p {
      ScanIntSkips(f, s + 1, p);
    }
  }

  /** `printf("%d", n)` for a non-negative n. */
  function Decimal(n: nat): (s: seq<byte>)
    ensures |s| > 0 && AllDigits(s)
    ensures DigitsValue(s) == n
    decreases n
  {
    if n < 10 then [48 + n]
    else
      var s := Decimal(n / 10) + [48 + n % 10];
      assert s[..|s| - 1] == Decimal(n / 10);
      s
  }

  /** `%d` after white space at s reads a run of digits at p up to the
      first byte that is not a digit. */
  lemma ScanDigits(f: seq<byte>, s: nat, p: nat, d: seq<byte>)
    requires |d| > 0 && AllDigits(d)
    requires s <= p && p + |d| <= |f| && forall i :: 0 <= i < |d| ==> f[p + i] == d[i]
    requires forall i :: s <= i < p ==> IsSpace(f[i])
    requires p + |d| == |f| || !IsDigit(f[p + |d|])
    ensures ScanInt(f, s) == Some((DigitsValue(d), p + |d|))
  {
    var e := p + |d|;
    assert f[p] == d[0];
    ScanIntSkips(f, s, p);
    forall i | p <= i < e ensures IsDigit(f[i]) {
      assert f[i] == d[i - p];
    }
    DigitsEndAt(f, p, e);
    ValueAtDigits(f, p, d);
  }

  /** `%d` reads back what `printf("%d")` wrote. */
  lemma ScanDecimal(f: seq<byte>, s: nat, p: nat, n: nat)
    requires s <= p && p + |Decimal(n)| <= |f| && f[p..p + |Decimal(n)|] == Decimal(n)
    requires forall i :: s <= i < p ==> IsSpace(f[i])
    requires p + |Decimal(n)| == |f| || !IsDigit(f[p + |Decimal(n)|])
    ensures ScanInt(f, s) == Some((n, p + |Decimal(n)|))
  {
    var d := Decimal(n);
    forall i | 0 <= i < |d| ensures f[p + i] == d[i] {
      assert f[p + i] == f[p..p + |d|][i];
    }
    ScanDigits(f, s, p, d);
  }

  // ------------------------------------------------------------------ fgets

  /** Where `fgets(buf, 255, fp)` stops when it starts at p < |f|: after
      the first newline, at the end of input, or after 254 bytes. */
  function ChunkEnd(f: seq<byte>, p: nat): (e: nat)
    requires p < |f|
    ensures p < e <= |f| && e - p <= 254
    ensures forall i :: p <= i < e - 1 ==> f[i] != NEWLINE
    ensures f[e - 1] == NEWLINE || e == |f| || e - p == 254
  {
    ChunkFrom(f, p, p + 254)
  }

  function ChunkFrom(f: seq<byte>, i: nat, stop: nat): (e: nat)
    requires i < |f| && i < stop
    ensures i < e <= |f| && e <= stop
    ensures forall k :: i <= k < e - 1 ==> f[k] != NEWLINE
    ensures f[e - 1] == NEWLINE || e == |f| || e == stop
    decreases stop - i
  {
    if f[i] == NEWLINE || i + 1 == |f| || i + 1 == stop then i + 1
    else ChunkFrom(f, i + 1, stop)
  }

  /** A line of at most 254 bytes ending in a newline is one chunk. */
  lemma ChunkEndAt(f: seq<byte>, p: nat, q: nat)
    requires p < q <= |f| && q - p <= 254 && f[q - 1] == NEWLINE
    requires forall i :: p <= i < q - 1 ==> f[i] != NEWLINE
    ensures ChunkEnd(f, p) == q
  {
  }

  /** The comment loop of both readers, from file position p. Each round
      reads a chunk with `fgets`; a chunk starting with `#` is skipped,
      anything else is put back and ends the loop. When `fgets` finds the
      end of input its buffer keeps the previous chunk: after a comment
      that chunk starts with `#` and the source loops forever (None);
      before any chunk the buffer is uninitialised, which is taken here as
      "not a comment". */
  function SkipComments(f: seq<byte>, p: nat, first: bool): (r: Option<nat>)
    requires p <= |f|
    ensures r.Some? ==> p <= r.value <= |f|
    decreases |f| - p
  {
    if p == |f| then (if first then Some(p) else None)
    else if f[p] != HASH then Some(p)
    else SkipComments(f, ChunkEnd(f, p), false)
  }

  /** The loop stops at the first byte that is not `#`, at or after p, and
      only skips chunks that start with `#`. */
  lemma {:induction false} SkipCommentsStops(f: seq<byte>, p: nat, first: bool)
    requires p <= |f|
    ensures SkipComments(f, p, first).Some? ==>
      var q := SkipComments(f, p, first).value;
      p <= q <= |f| && (q < |f| ==> f[q] != HASH) && (q == |f| ==> first && q == p)
    ensures SkipComments(f, p, first).Some? && SkipComments(f, p, first).value != p ==> f[p] == HASH
    decreases |f| - p
  {
    if p < |f| && f[p] == HASH {
      SkipCommentsStops(f, ChunkEnd(f, p), false);
    }
  }

  /** Text before the loop's position does not matter: the loop on a
      file whose bytes from p on are those of another file from p' on
      ends at the matching position. */
  lemma {:induction false} SkipCommentsShift(f: seq<byte>, p: nat, g: seq<byte>, p': nat, first: bool)
    requires p <= |f| && p' <= |g| && f[p..] == g[p'..]
    ensures SkipComments(f, p, first).None? <==> SkipComments(g, p', first).None?
    ensures SkipComments(f, p, first).Some? ==>
      SkipComments(f, p, first).value - p == SkipComments(g, p', first).value - p'
    decreases |f| - p
  {
    assert |f| - p == |g| - p';
    if p < |f| {
      assert f[p] == f[p..][0] == g[p'..][0] == g[p'];
      if f[p] == HASH {
        var e, e' := ChunkEnd(f, p), ChunkEnd(g, p');
        ChunkShift(f, p, p, p + 254, g, p');
        assert e - p == e' - p';
        assert f[e..] == f[p..][e - p..] == g[p'..][e' - p'..] == g[e'..];
        SkipCommentsShift(f, e, g, e', false);
      }
    }
  }

  lemma {:induction false} ChunkShift(f: seq<byte>, p: nat, i: nat, stop: nat, g: seq<byte>, p': nat)
    requires p <= i < |f| && i < stop && p' <= |g| && f[p..] == g[p'..]
    ensures i - p + p' < |g| && i - p + p' < stop - p + p'
    ensures ChunkFrom(f, i, stop) - p == ChunkFrom(g, i - p + p', stop - p + p') - p'
    decreases stop - i
  {
    var i' := i - p + p';
    assert |f| - p == |g| - p';
    assert f[i] == f[p..][i - p] == g[p'..][i - p] == g[i'];
    if !(f[i] == NEWLINE || i + 1 == |f| || i + 1 == stop) {
      ChunkShift(f, p, i + 1, stop, g, p');
    }
  }

  /** A comment line (a `#`, then at most 252 bytes none of which is a
      newline, then a newline) at the loop's position is skipped: the
      loop ends where it ends on the file without that line, moved by the
      line's length, and hangs where the file ends right after it. */
  lemma CommentLineSkipped(a: seq<byte>, c: seq<byte>, b: seq<byte>, first: bool)
    requires 2 <= |c| <= 254 && c[0] == HASH && c[|c| - 1] == NEWLINE
    requires forall i :: 0 <= i < |c| - 1 ==> c[i] != NEWLINE
    ensures SkipComments(a + c + b, |a|, first).None? <==> SkipComments(a + b, |a|, false).None?
    ensures SkipComments(a + c + b, |a|, first).Some? ==>
      SkipComments(a + c + b, |a|, first).value == SkipComments(a + b, |a|, false).value + |c|
  {
    var f := a + c + b;
    var p := |a|;
    assert f[p] == c[0];
    forall i | p <= i < p + |c| ensures f[i] == c[i - p] { }
    ChunkEndAt(f, p, p + |c|);
    var e := ChunkEnd(f, p);
    assert f[e..] == b == (a + b)[p..];
    SkipCommentsShift(f, e, a + b, p, false);
  }

  /** The comment loop as the source runs it: a `while` loop over the
      file position with the saved position and the `fgets` buffer. */
  method SkipCommentLines(f: seq<byte>, start: nat) returns (r: Option<nat>)
    requires start <= |f|
    ensures r == SkipComments(f, start, true)
  {
    var position := start;
    var cursor := start;
    var tmpCharBuf: seq<byte> := [];
    while true
      invariant position == cursor <= |f|
      invariant tmpCharBuf == [] ==> cursor == start
      invariant SkipComments(f, start, true) == SkipComments(f, cursor, tmpCharBuf == [])
      invariant tmpCharBuf != [] ==> tmpCharBuf[0] == HASH
      decreases |f| - cursor
    {
      if cursor < |f| {
        var e := ChunkEnd(f, cursor);
        tmpCharBuf := f[cursor..e];
        cursor := e;
      } else if tmpCharBuf != [] {
        // fgets fails and leaves the previous comment chunk in the buffer
        return None;
      }
      if tmpCharBuf == [] || tmpCharBuf[0] != HASH {
        return Some(position);
      }
      position := cursor;
    }
  }

  // ----------------------------------------------------------------- header

  /** What the readers take from the text before the body: the magic token
      (`fscanf "%s\n"`), width and height (`"%d %d\n"`), the maximum value
      (`"%d\n"`), and the file position reached after them. */
  datatype Header = Header(magic: seq<byte>, sx: int, sy: int, maxVal: int, body: nat)

  function ParseHeader(f: seq<byte>): (r: Result<Header, ReadError>)
    ensures r.Ok? ==> r.value.body <= |f|
    ensures r.Err? ==> r.error == CommentAtEof || r.error == MissingField
  {
    var (format, afterMagic) := ScanToken(f, 0);
    match SkipComments(f, afterMagic, true)
    case None => Err(CommentAtEof)
    case Some(position) => ParseFields(f, format, position)
  }

  /** `fscanf(fp, "%d %d\n", &sx, &sy)` then `fscanf(fp, "%d\n", &maxVal)`;
      any conversion that fails makes the header unusable. */
  function ParseFields(f: seq<byte>, format: seq<byte>, position: nat): (r: Result<Header, ReadError>)
    requires position <= |f|
    ensures r.Ok? ==> r.value.body <= |f| && r.value.magic == format
    ensures r.Err? ==> r.error == MissingField
  {
    match ScanInt(f, position)
    case None => Err(MissingField)
    case Some((sx, p1)) =>
      match ScanInt(f, p1)
      case None => Err(MissingField)
      case Some((sy, p2)) =>
        match ScanInt(f, SkipSpace(f, p2))
        case None => Err(MissingField)
        case Some((maxVal, p3)) => Ok(Header(format, sx, sy, maxVal, SkipSpace(f, p3)))
  }

  /** "255" */
  const MAX255: seq<byte> := [50, 53, 53]

  /** The header the writers emit: magic, newline, width, space, height,
      newline, "255", newline. */
  function HeaderBytes(magic: seq<byte>, sx: nat, sy: nat): (h: seq<byte>)
    ensures |h| == |magic| + |Decimal(sx)| + |Decimal(sy)| + 7
  {
    magic + [NEWLINE] + Decimal(sx) + [SPACE] + Decimal(sy) + [NEWLINE] + MAX255 + [NEWLINE]
  }

  lemma Max255Value()
    ensures AllDigits(MAX255) && DigitsValue(MAX255) == 255
  {
    assert MAX255[..2][..1] == [50];
    assert DigitsValue([50]) == 2;
    assert MAX255[..2] == [50, 53];
    assert DigitsValue([50, 53]) == 25;
  }

  /** The readers' header parse recovers what the writers' header holds,
      whatever body follows it. */
  lemma HeaderRoundTrip(magic: seq<byte>, sx: nat, sy: nat, body: seq<byte>)
    requires |magic| > 0 && forall i :: 0 <= i < |magic| ==> !IsSpace(magic[i])
    ensures var r := ParseHeader(HeaderBytes(magic, sx, sy) + body);
      r.Ok? && r.value.magic == magic && r.value.sx == sx && r.value.sy == sy && r.value.maxVal == 255
  {
    var d1, d2 := Decimal(sx), Decimal(sy);
    var f := HeaderBytes(magic, sx, sy) + body;
    var p1 := |magic| + 1;
    HeaderLayout(f, magic, d1, d2, body);
    MagicToken(f, magic);
    // no comment line: the width starts right away
    assert SkipComments(f, p1, true) == Some(p1);
    FieldsRoundTrip(f, magic, p1, d1, d2);
  }

  /** `%s\n` on a token followed by one newline and a byte that is not
      white space. */
  lemma MagicToken(f: seq<byte>, magic: seq<byte>)
    requires |magic| > 0 && forall i :: 0 <= i < |magic| ==> !IsSpace(magic[i])
    requires |magic| + 1 < |f| && f[..|magic|] == magic && f[|magic|] == NEWLINE && !IsSpace(f[|magic| + 1])
    ensures ScanToken(f, 0) == (magic, |magic| + 1)
  {
    var a := |magic|;
    forall i | 0 <= i < a ensures !IsSpace(f[i]) {
      assert f[i] == f[..a][i];
    }
    assert !IsSpace(f[0]);
    SkipSpaceAt(f, 0, 0);
    TokenEndAt(f, 0, a);
    SkipSpaceAt(f, a, a + 1);
    assert f[0..a] == magic;
  }

  /** Width, height and "255" as the writers lay them out parse back. */
  lemma FieldsRoundTrip(f: seq<byte>, format: seq<byte>, p1: nat, d1: seq<byte>, d2: seq<byte>)
    requires |d1| > 0 && AllDigits(d1) && |d2| > 0 && AllDigits(d2)
    requires p1 + |d1| + |d2| + 5 < |f|
    requires forall i :: 0 <= i < |d1| ==> f[p1 + i] == d1[i]
    requires f[p1 + |d1|] == SPACE
    requires forall i :: 0 <= i < |d2| ==> f[p1 + |d1| + 1 + i] == d2[i]
    requires f[p1 + |d1| + 1 + |d2|] == NEWLINE
    requires f[p1 + |d1| + |d2| + 2] == 50 && f[p1 + |d1| + |d2| + 3] == 53
    requires f[p1 + |d1| + |d2| + 4] == 53 && f[p1 + |d1| + |d2| + 5] == NEWLINE
    ensures var r := ParseFields(f, format, p1);
      r.Ok? && r.value.magic == format && r.value.sx == DigitsValue(d1) &&
      r.value.sy == DigitsValue(d2) && r.value.maxVal == 255
  {
    var e1 := p1 + |d1|;
    var e2 := e1 + 1 + |d2|;
    var p3 := e2 + 1;
    ScanMax255(f, p3);
    SkipSpaceAt(f, e2, p3);
    ScanDigits(f, e1, e1 + 1, d2);
    ScanDigits(f, p1, p1, d1);
    ParseFieldsAt(f, format, p1, DigitsValue(d1), e1, DigitsValue(d2), e2, p3, 255, p3 + 3);
  }

  /** "255" followed by a newline reads as 255. */
  lemma ScanMax255(f: seq<byte>, q: nat)
    requires q + 3 < |f| && f[q] == 50 && f[q + 1] == 53 && f[q + 2] == 53 && f[q + 3] == NEWLINE
    ensures ScanInt(f, q) == Some((255, q + 3))
  {
    Max255Value();
    ScanDigits(f, q, q, MAX255);
  }

  lemma ParseFieldsAt(f: seq<byte>, format: seq<byte>, position: nat,
                      sx: int, p1: nat, sy: int, p2: nat, q: nat, maxVal: int, p3: nat)
    requires position <= |f| && p1 <= |f| && p2 <= |f| && q <= |f| && p3 <= |f|
    requires ScanInt(f, position) == Some((sx, p1)) && ScanInt(f, p1) == Some((sy, p2))
    requires SkipSpace(f, p2) == q && ScanInt(f, q) == Some((maxVal, p3))
    ensures ParseFields(f, format, position) == Ok(Header(format, sx, sy, maxVal, SkipSpace(f, p3)))
  {
  }

  /** Where each field of a written header sits. */
  lemma HeaderLayout(f: seq<byte>, magic: seq<byte>, d1: seq<byte>, d2: seq<byte>, body: seq<byte>)
    requires |d1| > 0 && AllDigits(d1)
    requires f == magic + [NEWLINE] + d1 + [SPACE] + d2 + [NEWLINE] + MAX255 + [NEWLINE] + body
    ensures |magic| + |d1| + |d2| + 6 < |f|
    ensures f[..|magic|] == magic && f[|magic|] == NEWLINE && !IsSpace(f[|magic| + 1])
    ensures forall i :: 0 <= i < |d1| ==> f[|magic| + 1 + i] == d1[i]
    ensures f[|magic| + 1 + |d1|] == SPACE
    ensures forall i :: 0 <= i < |d2| ==> f[|magic| + 1 + |d1| + 1 + i] == d2[i]
    ensures f[|magic| + 1 + |d1| + 1 + |d2|] == NEWLINE
    ensures f[|magic| + 1 + |d1| + |d2| + 2] == 50 && f[|magic| + 1 + |d1| + |d2| + 3] == 53
    ensures f[|magic| + 1 + |d1| + |d2| + 4] == 53 && f[|magic| + 1 + |d1| + |d2| + 5] == NEWLINE
  {
    var line2 := magic + [NEWLINE] + d1 + [SPACE] + d2 + [NEWLINE];
    var tail := MAX255 + [NEWLINE] + body;
    assert f == line2 + tail;
    LineLayout(line2, magic, d1, d2);
    var e := |magic| + 1 + |d1| + |d2| + 2;
    forall i | 0 <= i < e ensures f[i] == line2[i] {
    }
    forall i | 0 <= i < 4 ensures f[e + i] == tail[i] {
    }
    assert f[..|magic|] == line2[..|magic|];
  }

  /** The first two header lines: the magic number, then the two
      dimensions separated by a space. */
  lemma LineLayout(line2: seq<byte>, magic: seq<byte>, d1: seq<byte>, d2: seq<byte>)
    requires |d1| > 0 && AllDigits(d1)
    requires line2 == magic + [NEWLINE] + d1 + [SPACE] + d2 + [NEWLINE]
    ensures |line2| == |magic| + 1 + |d1| + |d2| + 2
    ensures line2[..|magic|] == magic && line2[|magic|] == NEWLINE && !IsSpace(line2[|magic| + 1])
    ensures forall i :: 0 <= i < |d1| ==> line2[|magic| + 1 + i] == d1[i]
    ensures line2[|magic| + 1 + |d1|] == SPACE
    ensures forall i :: 0 <= i < |d2| ==> line2[|magic| + 1 + |d1| + 1 + i] == d2[i]
    ensures line2[|magic| + 1 + |d1| + 1 + |d2|] == NEWLINE
  {
    var a := |magic| + 1;
    assert line2[..|magic|] == magic;
    forall i | 0 <= i < |d1| ensures line2[a + i] == d1[i] {
    }
    assert line2[a] == d1[0];
    forall i | 0 <= i < |d2| ensures line2[a + |d1| + 1 + i] == d2[i] {
    }
  }

  // -------------------------------------------------------------- fseek/fread

  /** The position after `fseek(fp, offset, SEEK_END)` from `cursor`: a
      target before the start of the file fails and leaves the position
      unchanged; a target past the end is allowed. */
  function SeekEnd(f: seq<byte>, cursor: nat, offset: int): (p: nat)
    ensures -|f| <= offset <= 0 ==> p <= |f| && |f| - p == -offset
    ensures 0 < offset ==> |f| < p
    ensures offset < -|f| ==> p == cursor
  {
    if |f| + offset < 0 then cursor else |f| + offset
  }

  /** The value `fread(buf, size, count, fp)` returns with `avail` bytes
      left: the number of complete items read. A size of zero reads
      nothing; a negative size or count is converted to `size_t`, which
      makes the size larger than any file and the count unlimited. */
  function FreadCount(avail: nat, size: int, count: int): (n: nat)
    ensures size > 0 && count >= 0 ==> n <= count
    ensures n > 0 ==> size > 0 && n * size <= avail
  {
    if size <= 0 then 0
    else
      var items := avail / size;
      if count >= 0 && count < items then count else items
  }

  /** One item of `size` bytes is read exactly when the size is positive
      and that many bytes are left. */
  lemma FreadOne(avail: nat, size: int)
    ensures FreadCount(avail, size, 1) == 1 <==> 0 < size <= avail
  {
    if size > 0 {
      if size <= avail {
        DivAtLeast(avail, size, 1);
      } else {
        QuotientBelow(avail, size, 1);
      }
    }
  }

  /** Bytes left after position `cursor` (none past the end). */
  function Available(f: seq<byte>, cursor: nat): (n: nat)
    ensures cursor <= |f| ==> cursor + n == |f|
    ensures |f| <= cursor ==> n == 0
  {
    if cursor <= |f| then |f| - cursor else 0
  }
}
