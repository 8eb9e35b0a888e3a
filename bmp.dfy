/** The 24-bit uncompressed BMP codec of src/bmp_image.cpp: rows stored
    bottom-up, pixels as B, G, R, each row zero-padded to a multiple of four
    bytes. */
module Bmp {
  import opened Wrappers
  import opened Seqs
  import opened Colors
  import opened Images

  /** "BM" read as a little-endian uint16_t. */
  const BMP_SIGNATURE := 0x4D42
  /** sizeof(BitmapFileHeader) and sizeof(BitmapInfoHeader), packed. */
  const FILE_HEADER_SIZE := 14
  const INFO_HEADER_SIZE := 40
  const PIXELS_PER_METER := 11811
  const COLORS_IMPORTANT := 0x1000000

  datatype FileHeader = FileHeader(
    fileType: int, fileSize: int, reserved1: int, reserved2: int, offsetData: int)

  datatype InfoHeader = InfoHeader(
    size: int, width: int, height: int, planes: int, bitCount: int, compression: int,
    imageSize: int, xPixelsPerMeter: int, yPixelsPerMeter: int,
    colorsUsed: int, colorsImportant: int)

  /** What the loader reads from the file: whether it opened, the two
      headers (None when the stream ran out before the header was complete)
      and every byte after them. */
  datatype BmpInput = BmpInput(
    path: string, isOpen: bool,
    fileHeader: Option<FileHeader>, infoHeader: Option<InfoHeader>, body: seq<Byte>)

  /** What the saver writes: both headers, then the stored rows. */
  datatype BmpFile = BmpFile(fileHeader: FileHeader, infoHeader: InfoHeader, body: seq<Byte>)

  /** C++ integer division of a by a positive b: truncates toward zero, so
      the remainder a - q * b takes the sign of a. */
  function Quot(a: int, b: int): (q: int)
    requires b > 0
    ensures a >= 0 ==> 0 <= a - q * b < b
    ensures a < 0 ==> -b < a - q * b <= 0
  {
    if a >= 0 then a / b else -((-a) / b)
  }

  /** Truncation and Euclidean division part on negative operands. */
  lemma QuotTruncates()
    ensures Quot(-3, 4) == 0 && -3 / 4 == -1
    ensures Quot(-6, 4) == -1 && -6 / 4 == -2
  {
  }

  /** GetBMPStride: 3 bytes per pixel rounded up to a multiple of 4. */
  function BmpStride(w: int): int
  {
    4 * Quot(w * 3 + 3, 4)
  }

  /** For a non-negative width the stride is the smallest multiple of 4
      that holds 3 * w bytes. */
  lemma StrideBounds(w: int)
    requires 0 <= w
    ensures BmpStride(w) % 4 == 0
    ensures 3 * w <= BmpStride(w) < 3 * w + 4
  {
  }

  /** For a negative width the stride is 0 at -1 and -2 and negative from
      -3 down, so the row buffer of that size cannot be allocated. */
  lemma NegativeStride(w: int)
    requires w < 0
    ensures BmpStride(w) < 0 <==> w <= -3
    ensures BmpStride(w) == 0 <==> -3 < w
  {
  }

  /** Byte k of the stored row for a line of pixels: B, G, R of pixel k / 3,
      then zero padding up to the stride. */
  function RowByte(line: seq<Color>, k: nat): Byte
  {
    if k < 3 * |line| then
      var c := line[k / 3];
      if k % 3 == 0 then c.b else if k % 3 == 1 then c.g else c.r
    else
      0
  }

  /** The stride bytes SaveImageBMP writes for one line. */
  function EncodeRow(line: seq<Color>): (row: seq<Byte>)
    ensures |row| == BmpStride(|line|)
    ensures forall k :: 3 * |line| <= k < |row| ==> row[k] == 0
  {
    StrideBounds(|line|);
    seq(BmpStride(|line|), k requires 0 <= k < BmpStride(|line|) => RowByte(line, k))
  }

  /** Pixel x of a line occupies bytes 3x, 3x+1, 3x+2 of its row as B, G, R. */
  lemma EncodeRowAt(line: seq<Color>, x: int)
    requires 0 <= x < |line|
    ensures 3 * x + 3 <= |EncodeRow(line)|
    ensures EncodeRow(line)[3 * x..3 * x + 3] == [line[x].b, line[x].g, line[x].r]
  {
    StrideBounds(|line|);
    var row := EncodeRow(line);
    assert (3 * x) / 3 == x && (3 * x) % 3 == 0;
    assert (3 * x + 1) / 3 == x && (3 * x + 1) % 3 == 1;
    assert (3 * x + 2) / 3 == x && (3 * x + 2) % 3 == 2;
  }

  /** The loader's inner loop on one row: the b, g, r of every pixel of line
      are overwritten from the stored bytes, alpha is kept. */
  function DecodeRow(row: seq<Byte>, line: seq<Color>): (out: seq<Color>)
    requires 3 * |line| <= |row|
    ensures |out| == |line|
  {
    seq(|line|, x requires 0 <= x < |line| =>
      line[x].(b := row[3 * x], g := row[3 * x + 1], r := row[3 * x + 2]))
  }

  /** Decoding a saved row into a Black line gives the line back with alpha 255. */
  lemma RowRoundTrip(line: seq<Color>)
    ensures 3 * |line| <= |EncodeRow(line)|
    ensures DecodeRow(EncodeRow(line), Fill(Black(), |line|)) == Map(Opaque, line)
  {
    StrideBounds(|line|);
    var row := EncodeRow(line);
    forall x | 0 <= x < |line|
      ensures DecodeRow(row, Fill(Black(), |line|))[x] == Opaque(line[x])
    {
      EncodeRowAt(line, x);
      assert row[3 * x..3 * x + 3][0] == row[3 * x];
      assert row[3 * x..3 * x + 3][1] == row[3 * x + 1];
      assert row[3 * x..3 * x + 3][2] == row[3 * x + 2];
    }
  }

  /** Image row y after loading, provided the body holds its stored row
      (number height-1-y, the file being bottom-up); otherwise still Black. */
  function LoadedRow(body: seq<Byte>, w: int, h: int, y: int): (line: seq<Color>)
    requires 0 <= w && 0 <= y < h
    ensures |line| == w
  {
    StrideBounds(w);
    var s, i := BmpStride(w), h - 1 - y;
    MulMonotone(0, i, s);
    if i * s + s <= |body| then DecodeRow(body[i * s..i * s + s], Fill(Black(), w))
    else Fill(Black(), w)
  }

  /** When the body holds stored row i = h-1-y, image row y is that row decoded. */
  lemma LoadedRowAt(body: seq<Byte>, w: int, h: int, y: int, pos: nat, s: nat)
    requires 0 <= w && 0 <= y < h && s == BmpStride(w) && pos == (h - 1 - y) * s
    requires pos + s <= |body|
    ensures 3 * w <= s
    ensures LoadedRow(body, w, h, y) == DecodeRow(body[pos..pos + s], Fill(Black(), w))
  {
    StrideBounds(w);
  }

  /** The image while rows y+1 .. h-1 have been loaded and rows 0 .. y are
      still Black. */
  function PartlyLoaded(body: seq<Byte>, w: int, h: int, y: int): (rows: seq<seq<Color>>)
    requires 0 <= w && -1 <= y < h
    ensures |rows| == h && Uniform(rows, w)
  {
    seq(h, k requires 0 <= k < h => if k <= y then Fill(Black(), w) else LoadedRow(body, w, h, k))
  }

  /** LoadImageBMP on a file's contents: the open failure throws, a wrong
      signature, depth or compression or a short header gives the empty
      image; the pixel vector of a negative width * height and the row
      buffer of a negative stride throw length_error; otherwise a negative
      dimension skips the row loop and gives an image without pixels; a
      zero width with rows throws from GetLine, a body shorter than height
      stored rows gives the empty image. */
  function Load(input: BmpInput): Result<Raster>
  {
    if !input.isOpen then Throw(RuntimeError("Failed to open BMP file: " + input.path))
    else if input.fileHeader.None? || input.fileHeader.value.fileType != BMP_SIGNATURE then
      Ok(EmptyRaster())
    else if input.infoHeader.None? || input.infoHeader.value.bitCount != 24
      || input.infoHeader.value.compression != 0 then
      Ok(EmptyRaster())
    else
      var w, h := input.infoHeader.value.width, input.infoHeader.value.height;
      if w * h < 0 || BmpStride(w) < 0 then Throw(LengthError)
      else if w < 0 || h < 0 then Ok(EmptyRaster())
      else LoadBody(input.body, w, h)
  }

  /** The row loop of LoadImageBMP on the bytes after the headers. */
  function LoadBody(body: seq<Byte>, w: int, h: int): Result<Raster>
    requires 0 <= w && 0 <= h
  {
    if w == 0 && h > 0 then Throw(OutOfRange(NO_PIXEL))
    else if |body| < h * BmpStride(w) then Ok(EmptyRaster())
    else Ok(Raster(w, h, Concat(PartlyLoaded(body, w, h, -1))))
  }

  /** A header the loader accepts with a negative width or height: the
      load throws length_error exactly when width * height is negative or
      the width is -3 or less, and otherwise gives an image without pixels. */
  lemma NegativeDimensions(input: BmpInput)
    requires input.isOpen && input.fileHeader.Some? && input.fileHeader.value.fileType == BMP_SIGNATURE
    requires input.infoHeader.Some? && input.infoHeader.value.bitCount == 24
    requires input.infoHeader.value.compression == 0
    requires input.infoHeader.value.width < 0 || input.infoHeader.value.height < 0
    ensures var w, h := input.infoHeader.value.width, input.infoHeader.value.height;
      Load(input) == if w * h < 0 || w <= -3 then Throw(LengthError) else Ok(EmptyRaster())
  {
    var w := input.infoHeader.value.width;
    if w < 0 {
      NegativeStride(w);
    } else {
      StrideBounds(w);
    }
  }

  /** The two headers SaveImageBMP writes for a width x height image. */
  function SaveHeaders(width: int, height: int): (hs: (FileHeader, InfoHeader))
    ensures hs.0.fileType == BMP_SIGNATURE && hs.1.bitCount == 24 && hs.1.compression == 0
    ensures hs.1.width == width && hs.1.height == height
    ensures hs.1.imageSize == BmpStride(width) * height
    ensures hs.0.offsetData == FILE_HEADER_SIZE + INFO_HEADER_SIZE
    ensures hs.0.fileSize == hs.0.offsetData + hs.1.imageSize
  {
    var imageSize := BmpStride(width) * height;
    (FileHeader(BMP_SIGNATURE, FILE_HEADER_SIZE + INFO_HEADER_SIZE + imageSize, 0, 0,
                FILE_HEADER_SIZE + INFO_HEADER_SIZE),
     InfoHeader(INFO_HEADER_SIZE, width, height, 1, 24, 0, imageSize,
                PIXELS_PER_METER, PIXELS_PER_METER, 0, COLORS_IMPORTANT))
  }

  /** The stored rows of an image, bottom row first. */
  function StoredRows(r: Raster): (rows: seq<seq<Byte>>)
    requires WellFormed(r)
    ensures |rows| == r.height && Uniform(rows, BmpStride(r.width))
  {
    var lines := Rows(r);
    seq(r.height, i requires 0 <= i < r.height => EncodeRow(lines[r.height - 1 - i]))
  }

  /** SaveImageBMP on an image: the create failure throws, a zero width
      with rows throws from GetLine, otherwise the headers and the stored
      rows. */
  function Save(path: string, isOpen: bool, r: Raster): Result<BmpFile>
    requires WellFormed(r)
  {
    if !isOpen then Throw(RuntimeError("Failed to create BMP file: " + path))
    else if r.width == 0 && r.height > 0 then Throw(OutOfRange(NO_PIXEL))
    else
      var hs := SaveHeaders(r.width, r.height);
      Ok(BmpFile(hs.0, hs.1, Concat(StoredRows(r))))
  }

  /** Stored row i of a saved body is the encoding of image row h-1-i. */
  lemma LoadedRowOfSaved(r: Raster, y: int)
    requires WellFormed(r) && 0 <= y < r.height
    ensures LoadedRow(Concat(StoredRows(r)), r.width, r.height, y) == Map(Opaque, Rows(r)[y])
  {
    var w, h, s := r.width, r.height, BmpStride(r.width);
    var i := h - 1 - y;
    var line := Rows(r)[y];
    var body := Concat(StoredRows(r));
    StrideBounds(w);
    MulMonotone(0, i, s);
    var pos := i * s;
    assert body[pos..pos + s] == EncodeRow(line) by {
      ConcatSlice(StoredRows(r), s, i);
    }
    RowRoundTrip(line);
    LoadedRowAt(body, w, h, y, pos, s);
  }


  /** What SaveImageBMP writes, LoadImageBMP reads back: the same image with
      every alpha 255 (BMP stores no alpha; the loader starts from Black). */
  lemma SaveLoadRoundTrip(path: string, r: Raster)
    requires WellFormed(r) && Save(path, true, r).Ok?
    ensures var f := Save(path, true, r).value;
      Load(BmpInput(path, true, Some(f.fileHeader), Some(f.infoHeader), f.body)) == Ok(OpaqueRaster(r))
  {
    var f := Save(path, true, r).value;
    var w, h := r.width, r.height;
    StrideBounds(w);
    ConcatLength(StoredRows(r), BmpStride(w));
    assert |f.body| == h * BmpStride(w);
    var loaded := PartlyLoaded(f.body, w, h, -1);
    var lines := Rows(r);
    assert loaded == seq(|lines|, k requires 0 <= k < |lines| => Map(Opaque, lines[k])) by {
      forall k | 0 <= k < h
        ensures loaded[k] == Map(Opaque, lines[k])
      {
        LoadedRowOfSaved(r, k);
      }
    }
    ConcatMap(Opaque, lines);
    RowsConcat(r);
  }

  /** The read position before and after stored row h-1-y. */
  lemma StepArith(h: int, y: int, s: nat)
    requires 0 <= y < h
    ensures 0 <= (h - 1 - y) * s
    ensures (h - 1 - y) * s + s == (h - y) * s <= h * s
  {
    MulMonotone(h - y, h, s);
  }

  /** One turn of the loader's outer loop: decoding stored row h-1-y into
      image row y of the partly loaded image gives the next partly loaded
      image. */
  lemma LoadStep(body: seq<Byte>, w: int, h: int, y: int, pos: nat, start: nat, row: seq<Byte>,
                 pixels: seq<Color>)
    requires 0 < w && 0 <= y < h && start == y * w
    requires pos == (h - 1 - y) * BmpStride(w) && pos + BmpStride(w) <= |body|
    requires row == body[pos..pos + BmpStride(w)]
    requires pixels == Concat(PartlyLoaded(body, w, h, y))
    ensures 3 * w <= |row| && start + w <= |pixels|
    ensures pixels[..start] + DecodeRow(row, pixels[start..start + w]) + pixels[start + w..]
      == Concat(PartlyLoaded(body, w, h, y - 1))
  {
    StrideBounds(w);
    var rows := PartlyLoaded(body, w, h, y);
    var newRow := LoadedRow(body, w, h, y);
    ConcatSlice(rows, w, y);
    assert rows[y] == Fill(Black(), w);
    LoadedRowAt(body, w, h, y, pos, BmpStride(w));
    var next := PartlyLoaded(body, w, h, y - 1);
    assert next == rows[y := newRow] by {
      forall k | 0 <= k < h ensures next[k] == rows[y := newRow][k] {
      }
    }
    ConcatUpdate(rows, w, y, newRow);
  }


  /** The loader's per-row loop: overwrites b, g, r of the width pixels
      from start on, through the pointer GetLine returned. */
  method DecodeRowInto(image: Image, start: nat, row: seq<Byte>)
    requires image.Valid() && start + image.width <= |image.pixels|
    requires 3 * image.width <= |row|
    modifies image
    ensures image.Valid() && image.width == old(image.width) && image.height == old(image.height)
    ensures image.pixels == old(image.pixels)[..start]
      + DecodeRow(row, old(image.pixels)[start..start + image.width])
      + old(image.pixels)[start + image.width..]
  {
    ghost var before := image.pixels;
    var x := 0;
    while x < image.width
      invariant 0 <= x <= image.width
      invariant image.Valid() && image.width == old(image.width) && image.height == old(image.height)
      invariant |image.pixels| == |before|
      invariant forall k :: 0 <= k < |before| && !(start <= k < start + x) ==> image.pixels[k] == before[k]
      invariant forall j :: 0 <= j < x ==>
        image.pixels[start + j] == before[start + j].(b := row[3 * j], g := row[3 * j + 1], r := row[3 * j + 2])
    {
      var c := image.pixels[start + x];
      image.Store(start + x, c.(b := row[x * 3 + 0], g := row[x * 3 + 1], r := row[x * 3 + 2]));
      x := x + 1;
    }
    var w := image.width;
    var expected := before[..start] + DecodeRow(row, before[start..start + w]) + before[start + w..];
    assert |expected| == |image.pixels|;
    forall k | 0 <= k < |before|
      ensures image.pixels[k] == expected[k]
    {
      if start <= k < start + w {
        assert image.pixels[start + (k - start)] == image.pixels[k];
      }
    }
  }

  /** LoadImageBMP: reads the headers, then the stored rows bottom-up into
      a Black-filled image, stopping with the empty image at a short read. */
  method LoadImageBMP(input: BmpInput) returns (r: Result<Image>)
    ensures r.Throw? ==> Load(input) == Throw(r.error)
    ensures r.Ok? ==> fresh(r.value) && r.value.Valid() && Load(input) == Ok(r.value.View())
  {
    if !input.isOpen {
      return Throw(RuntimeError("Failed to open BMP file: " + input.path));
    }
    if input.fileHeader.None? || input.fileHeader.value.fileType != BMP_SIGNATURE {
      var empty := new Image();
      return Ok(empty);
    }
    if input.infoHeader.None? || input.infoHeader.value.bitCount != 24
      || input.infoHeader.value.compression != 0 {
      var empty := new Image();
      return Ok(empty);
    }
    var width, height := input.infoHeader.value.width, input.infoHeader.value.height;
    if width * height < 0 || BmpStride(width) < 0 {
      return Throw(LengthError);
    }
    if width < 0 || height < 0 {
      var empty := new Image();
      return Ok(empty);
    }
    r := LoadRows(input.body, width, height);
  }

  /** The row loop of LoadImageBMP: stored rows bottom-up into a
      Black-filled image, stopping with the empty image at a short read. */
  method LoadRows(body: seq<Byte>, width: int, height: int) returns (r: Result<Image>)
    requires 0 <= width && 0 <= height
    ensures r.Throw? ==> LoadBody(body, width, height) == Throw(r.error)
    ensures r.Ok? ==> fresh(r.value) && r.value.Valid() && LoadBody(body, width, height) == Ok(r.value.View())
  {
    var image := new Image.Filled(width, height, Black());
    NothingLoaded(body, width, height);
    var o := ReadRows(image, body);
    match o
    case Throw(e) =>
      return Throw(e);
    case Ok(complete) =>
      if !complete {
        var empty := new Image();
        return Ok(empty);
      }
      return Ok(image);
  }

  /** Before the loop every row is still Black: the Black-filled image. */
  lemma NothingLoaded(body: seq<Byte>, w: nat, h: nat)
    ensures Concat(PartlyLoaded(body, w, h, h - 1)) == Fill(Black(), w * h)
  {
    ConcatFill(Black(), w, h);
    assert h * w == w * h;
    assert PartlyLoaded(body, w, h, h - 1) == Fill(Fill(Black(), w), h);
  }

  /** The outer loop of LoadImageBMP over a Black-filled image: Ok(true)
      once every stored row is in, Ok(false) at a short read. */
  method ReadRows(image: Image, body: seq<Byte>) returns (o: Result<bool>)
    requires image.Valid()
    requires image.pixels == Concat(PartlyLoaded(body, image.width, image.height, image.height - 1))
    modifies image
    ensures image.Valid() && image.width == old(image.width) && image.height == old(image.height)
    ensures o.Throw? ==> LoadBody(body, image.width, image.height) == Throw(o.error)
    ensures o == Ok(false) ==> LoadBody(body, image.width, image.height) == Ok(EmptyRaster())
    ensures o == Ok(true) ==> LoadBody(body, image.width, image.height) == Ok(image.View())
  {
    var width, height := image.width, image.height;
    var stride := BmpStride(width);
    StrideBounds(width);
    var pos := 0;
    var y := height - 1;
    assert height - 1 - y == 0;
    assert pos == 0 * stride;
    while y >= 0
      invariant -1 <= y < height
      invariant pos == (height - 1 - y) * stride && 0 <= pos <= |body|
      invariant image.Valid() && image.width == width && image.height == height
      invariant image.pixels == Concat(PartlyLoaded(body, width, height, y))
      invariant y < height - 1 ==> width > 0
    {
      StepArith(height, y, stride);
      if |body| < pos + stride {
        ShortRead(body, width, height, y, pos);
        return Ok(false);
      }
      var row := ReadRow(image, body, y, pos);
      if row.Fail? {
        ZeroWidthThrows(body, width, height);
        return Throw(row.error);
      }
      pos := pos + stride;
      y := y - 1;
    }
    assert y == -1;
    LoadComplete(body, width, height, pos);
    return Ok(true);
  }

  /** A zero width with rows: GetLine throws on the first row. */
  lemma ZeroWidthThrows(body: seq<Byte>, w: int, h: int)
    requires w == 0 && 0 < h
    ensures LoadBody(body, w, h) == Throw(OutOfRange(NO_PIXEL))
  {
  }

  /** The loader got past stored row 0 (image row h-1 .. 0 all decoded). */
  lemma LoadComplete(body: seq<Byte>, w: int, h: int, pos: int)
    requires 0 <= w && 0 <= h && pos == (h - 1 - -1) * BmpStride(w) && pos <= |body|
    requires h > 0 ==> w > 0
    ensures LoadBody(body, w, h) == Ok(Raster(w, h, Concat(PartlyLoaded(body, w, h, -1))))
  {
  }

  /** The loader meets the end of the body before stored row h-1-y: the
      body is shorter than the h rows LoadBody asks for. */
  lemma ShortRead(body: seq<Byte>, w: int, h: int, y: int, pos: int)
    requires 0 <= w && 0 <= y < h && pos == (h - 1 - y) * BmpStride(w)
    requires pos <= |body| < pos + BmpStride(w)
    ensures LoadBody(body, w, h) == Ok(EmptyRaster())
  {
    StrideBounds(w);
    StepArith(h, y, BmpStride(w));
  }

  /** One turn of the loader's outer loop, after the stored row was read:
      GetLine(y), then the row decoded into it. */
  method ReadRow(image: Image, body: seq<Byte>, y: int, pos: nat) returns (o: Outcome)
    requires image.Valid() && 0 <= y < image.height
    requires pos == (image.height - 1 - y) * BmpStride(image.width)
    requires pos + BmpStride(image.width) <= |body|
    requires image.pixels == Concat(PartlyLoaded(body, image.width, image.height, y))
    modifies image
    ensures image.Valid() && image.width == old(image.width) && image.height == old(image.height)
    ensures o.Fail? <==> image.width == 0
    ensures o.Fail? ==> o.error == OutOfRange(NO_PIXEL)
    ensures o.Pass? ==> image.pixels == Concat(PartlyLoaded(body, image.width, image.height, y - 1))
  {
    var line := image.GetLine(y);
    if line.Throw? {
      return Fail(line.error);
    }
    var start := line.value;
    var row := body[pos..pos + BmpStride(image.width)];
    LoadStep(body, image.width, image.height, y, pos, start, row, image.pixels);
    DecodeRowInto(image, start, row);
    return Pass;
  }

  /** The saver's per-row loops: B, G, R of every pixel, then zeros up to
      the stride. */
  method EncodeRowInto(row: array<Byte>, line: seq<Color>)
    requires row.Length == BmpStride(|line|)
    modifies row
    ensures row[..] == EncodeRow(line)
  {
    StrideBounds(|line|);
    var x := 0;
    while x < |line|
      invariant 0 <= x <= |line|
      invariant forall k :: 0 <= k < 3 * x ==> row[k] == RowByte(line, k)
    {
      row[x * 3 + 0] := line[x].b;
      row[x * 3 + 1] := line[x].g;
      row[x * 3 + 2] := line[x].r;
      assert (3 * x) / 3 == x && (3 * x) % 3 == 0;
      assert (3 * x + 1) / 3 == x && (3 * x + 1) % 3 == 1;
      assert (3 * x + 2) / 3 == x && (3 * x + 2) % 3 == 2;
      x := x + 1;
    }
    var k := 3 * |line|;
    while k < row.Length
      invariant 3 * |line| <= k <= row.Length
      invariant forall j :: 0 <= j < k ==> row[j] == RowByte(line, j)
    {
      row[k] := 0;
      k := k + 1;
    }
  }

  /** One turn of the saver's loop appends the encoding of line y: the
      stored rows then run one further. */
  lemma SaveStep(r: Raster, y: int)
    requires WellFormed(r) && 0 <= y < r.height
    ensures Concat(StoredRows(r)[..r.height - 1 - y]) + EncodeRow(Rows(r)[y])
      == Concat(StoredRows(r)[..r.height - y])
  {
    var stored, n := StoredRows(r), r.height - 1 - y;
    assert stored[..n + 1] == stored[..n] + [stored[n]];
    ConcatAppend(stored[..n], [stored[n]]);
    assert Concat([stored[n]]) == stored[n];
  }

  /** SaveImageBMP: the headers, then every line from the bottom up,
      encoded into one reused stride-byte buffer. */
  method SaveImageBMP(path: string, isOpen: bool, image: Image) returns (r: Result<BmpFile>)
    requires image.Valid()
    ensures r == Save(path, isOpen, image.View())
  {
    if !isOpen {
      return Throw(RuntimeError("Failed to create BMP file: " + path));
    }
    var headers := SaveHeaders(image.GetWidth(), image.GetHeight());
    var body := EncodeRows(image);
    match body
    case Throw(e) =>
      return Throw(e);
    case Ok(bytes) =>
      return Ok(BmpFile(headers.0, headers.1, bytes));
  }

  /** The row loop of SaveImageBMP: every line from the bottom up, encoded
      into one reused stride-byte buffer; GetLine throws when the width is
      0 and there are rows. */
  method EncodeRows(image: Image) returns (r: Result<seq<Byte>>)
    requires image.Valid()
    ensures r.Throw? <==> image.width == 0 && image.height > 0
    ensures r.Throw? ==> r.error == OutOfRange(NO_PIXEL)
    ensures r.Ok? ==> r.value == Concat(StoredRows(image.View()))
  {
    var width, height := image.GetWidth(), image.GetHeight();
    var stride := BmpStride(width);
    StrideBounds(width);
    var row := new Byte[stride];
    var body: seq<Byte> := [];
    var y := height - 1;
    while y >= 0
      invariant -1 <= y < height
      invariant body == Concat(StoredRows(image.View())[..height - 1 - y])
      invariant y < height - 1 ==> width > 0
    {
      var line := image.GetLine(y);
      if line.Throw? {
        return Throw(line.error);
      }
      var start := line.value;
      EncodeRowInto(row, image.pixels[start..start + width]);
      SaveStep(image.View(), y);
      body := body + row[..];
      y := y - 1;
    }
    assert StoredRows(image.View())[..height] == StoredRows(image.View());
    return Ok(body);
  }

}
