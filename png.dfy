/** The PNG codec of src/png_image.cpp around libpng: the row pointers into
    the pixel vector on load, and the RGBA interleave into temp_buffer with
    its row pointers on save. Decoding and encoding belong to libpng: the
    model starts from the RGBA rows png_read_image delivers and ends at the
    rows png_write_image is handed. */
module Png {
  import opened Wrappers
  import opened Seqs
  import opened Colors
  import opened Images

  /** The exception SaveImagePNG raises from libpng's error exit. */
  const PNG_WRITE_ERROR := "Error during PNG write"

  /** A PNG file as LoadImagePNG sees it: whether fopen succeeds, whether
      libpng reads it without calling the error exit, the size from the
      header, and the rows png_read_image writes after the transforms the
      loader requests (8 bits, RGB, filler 0xFF after), four bytes a pixel,
      laid end to end. */
  datatype PngInput = PngInput(
    path: string, isOpen: bool, decoded: bool,
    width: nat, height: nat, rgba: seq<Byte>)

  /** What fopen on the output path can do: "rb" opens an existing readable
      file, "wb" opens (creating or truncating) a writable path. */
  datatype Target = Target(present: bool, readable: bool, writable: bool)

  predicate OpensForReading(t: Target)
  {
    t.present && t.readable
  }

  predicate OpensForWriting(t: Target)
  {
    t.writable
  }

  /** Bytes 4k .. 4k+4m of a raw buffer are pixels k .. k+m of its Color
      view. */
  lemma FromBytesSlice(bytes: seq<Byte>, k: nat, m: nat)
    requires |bytes| % 4 == 0 && 4 * (k + m) <= |bytes|
    ensures FromBytes(bytes[4 * k..4 * k + 4 * m]) == FromBytes(bytes)[k..k + m]
  {
    var part := bytes[4 * k..4 * k + 4 * m];
    forall i | 0 <= i < m
      ensures FromBytes(part)[i] == FromBytes(bytes)[k + i]
    {
      assert 4 * (k + i) == 4 * k + 4 * i;
    }
  }

  /** The rows png_read_image delivers, each already in Color layout. */
  function DecodedRows(rgba: seq<Byte>, w: nat, h: nat): (rows: seq<seq<Color>>)
    requires |rgba| == 4 * (w * h)
    ensures |rows| == h && Uniform(rows, w)
  {
    assert h * (4 * w) == 4 * (w * h);
    seq(h, y requires 0 <= y < h => FromBytes(Chunks(rgba, 4 * w, h)[y]))
  }

  /** Decoded row y is pixels y * w .. y * w + w of the buffer read as
      Colors. */
  lemma DecodedRowAt(rgba: seq<Byte>, w: nat, h: nat, y: nat)
    requires |rgba| == 4 * (w * h) && y < h
    ensures y * w + w <= w * h
    ensures DecodedRows(rgba, w, h)[y] == FromBytes(rgba)[y * w..y * w + w]
  {
    RowBytes(y, w, h);
    ChunkRow(rgba, w, h, y);
    var k := y * w;
    WholePixels(w * h);
    FromBytesSlice(rgba, k, w);
    assert DecodedRows(rgba, w, h)[y] == FromBytes(Chunks(rgba, 4 * w, h)[y]);
  }

  /** 4n bytes hold exactly n pixels. */
  lemma WholePixels(n: nat)
    ensures (4 * n) % 4 == 0 && (4 * n) / 4 == n
  {
  }

  /** Chunk y of the buffer, in rows of 4w bytes, starts at byte 4 * (y * w). */
  lemma ChunkRow(rgba: seq<Byte>, w: nat, h: nat, y: nat)
    requires |rgba| == 4 * (w * h) && y < h
    ensures 4 * (y * w) + 4 * w <= |rgba|
    ensures Chunks(rgba, 4 * w, h)[y] == rgba[4 * (y * w)..4 * (y * w) + 4 * w]
  {
    RowBytes(y, w, h);
    ChunkAt(rgba, 4 * w, h, y);
  }

  /** Row y of a w-pixel-wide RGBA buffer of h rows starts at byte
      4 * (y * w) and ends within it. */
  lemma RowBytes(y: nat, w: nat, h: nat)
    requires y < h
    ensures y * w + w <= w * h
    ensures y * (4 * w) == 4 * (y * w) && h * (4 * w) == 4 * (w * h)
  {
    RowFits(y, w, h);
  }

  /** With row_pointers[y] at pixel y * width, the rows libpng writes through
      them make up exactly one pixel vector: the buffer read as Colors. */
  lemma RowsLandInPlace(rgba: seq<Byte>, w: nat, h: nat, rowPointers: seq<nat>, px: seq<Color>)
    requires |rgba| == 4 * (w * h) && |px| == w * h
    requires |rowPointers| == h && forall y :: 0 <= y < h ==> rowPointers[y] == y * w
    ensures forall y :: 0 <= y < h ==> rowPointers[y] + w <= |px|
    ensures Gather(px, rowPointers, w) == DecodedRows(rgba, w, h) <==> px == FromBytes(rgba)
  {
    var whole := FromBytes(rgba);
    GatherRows(px, w, h, rowPointers);
    GatherRows(whole, w, h, rowPointers);
    var rows := DecodedRows(rgba, w, h);
    forall y | 0 <= y < h
      ensures Gather(whole, rowPointers, w)[y] == rows[y]
    {
      DecodedRowAt(rgba, w, h, y);
    }
    assert Gather(whole, rowPointers, w) == rows;
    if Gather(px, rowPointers, w) == rows {
      calc {
        px;
        Concat(Gather(px, rowPointers, w));
        Concat(Gather(whole, rowPointers, w));
        whole;
      }
    }
  }

  /** LoadImagePNG: an fopen failure gives the empty image, a libpng error
      throws, otherwise a width x height image over the decoded rows. */
  function Load(input: PngInput): (r: Result<Raster>)
    requires |input.rgba| == 4 * (input.width * input.height)
    ensures r.Ok? ==> WellFormed(r.value)
  {
    if !input.isOpen then Ok(EmptyRaster())
    else if !input.decoded then Throw(RuntimeError("Error during PNG read"))
    else Ok(Raster(input.width, input.height, FromBytes(input.rgba)))
  }

  /** SaveImagePNG once fopen has answered: Ok(None) is the `return {}`
      (false); png_set_IHDR rejects a zero width or height, and libpng's
      error exit becomes the "Error during PNG write" exception; otherwise
      Ok(Some(rows)) is the `return true` after the rows, four bytes a
      pixel laid end to end, went to png_write_image. */
  function SaveOpened(isOpen: bool, r: Raster): (s: Result<Option<seq<Byte>>>)
    requires WellFormed(r)
    ensures s.Ok? && s.value.Some? ==> |s.value.value| == 4 * (r.width * r.height)
  {
    if !isOpen then Ok(None)
    else if r.width == 0 || r.height == 0 then Throw(RuntimeError(PNG_WRITE_ERROR))
    else Ok(Some(ToBytes(r.pixels)))
  }

  /** SaveImagePNG as written: the output is opened with mode "rb". A path
      that opens that way is an existing file the stream cannot write to,
      so png_write_info's first write fails and libpng's error exit throws
      (a zero-sized image throws the same exception earlier, from
      png_set_IHDR); any other path returns false. */
  function SaveAsWritten(t: Target, r: Raster): Result<Option<seq<Byte>>>
    requires WellFormed(r)
  {
    if !OpensForReading(t) then Ok(None) else Throw(RuntimeError(PNG_WRITE_ERROR))
  }

  /** SaveImagePNG with the output opened for writing ("wb"). */
  function Save(t: Target, r: Raster): Result<Option<seq<Byte>>>
    requires WellFormed(r)
  {
    SaveOpened(OpensForWriting(t), r)
  }

  /** As written, saving to a path that does not exist yet never opens it:
      the save reports false although the path is writable, where the
      corrected save writes every row of an image it accepts. */
  lemma AsWrittenCannotCreate(r: Raster)
    requires WellFormed(r)
    ensures SaveAsWritten(Target(false, false, true), r) == Ok(None)
    ensures Save(Target(false, false, true), r)
      == if r.width > 0 && r.height > 0 then Ok(Some(ToBytes(r.pixels)))
         else Throw(RuntimeError(PNG_WRITE_ERROR))
  {
  }

  /** As written, saving over an existing readable file throws, where the
      corrected save truncates it and writes the rows. */
  lemma AsWrittenExistingThrows(r: Raster)
    requires WellFormed(r) && r.width > 0 && r.height > 0
    ensures SaveAsWritten(Target(true, true, true), r) == Throw(RuntimeError(PNG_WRITE_ERROR))
    ensures Save(Target(true, true, true), r) == Ok(Some(ToBytes(r.pixels)))
  {
  }

  /** As written, no save ever writes the image; the corrected save writes
      it exactly when the path opens for writing and the image has pixels. */
  lemma AsWrittenNeverWrites(t: Target, r: Raster)
    requires WellFormed(r)
    ensures !(SaveAsWritten(t, r).Ok? && SaveAsWritten(t, r).value.Some?)
    ensures Save(t, r).Ok? && Save(t, r).value.Some? <==>
      OpensForWriting(t) && r.width > 0 && r.height > 0
  {
  }

  /** The rows a save hands to libpng, handed back by the decoder, load as
      the same image, alpha included. */
  lemma SaveLoadRoundTrip(path: string, t: Target, r: Raster)
    requires WellFormed(r) && OpensForWriting(t) && r.width > 0 && r.height > 0
    ensures Save(t, r).Ok? && Save(t, r).value.Some?
    ensures var bytes := Save(t, r).value.value;
      |bytes| == 4 * (r.width * r.height) &&
      Load(PngInput(path, true, true, r.width, r.height, bytes)) == Ok(r)
  {
    BytesRoundTrip(r.pixels);
  }

  /** Laying the raw bytes of two pixel runs end to end. */
  lemma ToBytesAppend(a: seq<Color>, b: seq<Color>)
    ensures ToBytes(a + b) == ToBytes(a) + ToBytes(b)
  {
    var whole, parts := ToBytes(a + b), ToBytes(a) + ToBytes(b);
    forall j | 0 <= j < |whole|
      ensures whole[j] == parts[j]
    {
      if j >= 4 * |a| {
        var k := j - 4 * |a|;
        assert j / 4 == |a| + k / 4 && j % 4 == k % 4;
      }
    }
  }

  /** The row_pointers loop of LoadImagePNG: entry y at pixel y * stride. */
  method RowPointers(count: nat, stride: nat) returns (rowPointers: seq<nat>)
    ensures |rowPointers| == count
    ensures forall y :: 0 <= y < count ==> rowPointers[y] == y * stride
  {
    var pointers := new nat[count];
    var y := 0;
    while y < count
      invariant 0 <= y <= count
      invariant forall i :: 0 <= i < y ==> pointers[i] == i * stride
    {
      pointers[y] := y * stride;
      y := y + 1;
    }
    rowPointers := pointers[..];
  }

  /** LoadImagePNG: the pixel vector, its row pointers, the rows libpng
      writes through them, then Image(width, height) taking the vector. */
  method LoadImagePNG(input: PngInput) returns (r: Result<Image>)
    requires |input.rgba| == 4 * (input.width * input.height)
    ensures r.Throw? ==> Load(input) == Throw(r.error)
    ensures r.Ok? ==> fresh(r.value) && r.value.Valid() && Load(input) == Ok(r.value.View())
  {
    if !input.isOpen {
      var empty := new Image();
      return Ok(empty);
    }
    if !input.decoded {
      return Throw(RuntimeError("Error during PNG read"));
    }
    var w, h := input.width, input.height;
    var rowPointers := RowPointers(h, w);
    // png_read_image: the vector whose rows at rowPointers are the decoded
    // rows, which RowsLandInPlace shows to be the buffer read as Colors.
    var pixels := FromBytes(input.rgba);
    RowsLandInPlace(input.rgba, w, h, rowPointers, pixels);
    assert Gather(pixels, rowPointers, w) == DecodedRows(input.rgba, w, h);
    var image := new Image.Sized(w, h);
    image.AssignPixels(pixels);
    return Ok(image);
  }

  /** The x loop of SaveImagePNG: pixel x of the line to bytes
      offset + 4x .. offset + 4x + 3 as r, g, b, a. */
  method InterleaveInto(buffer: array<Byte>, offset: nat, line: seq<Color>)
    requires offset + 4 * |line| <= buffer.Length
    modifies buffer
    ensures buffer[..] == old(buffer[..])[..offset] + ToBytes(line) + old(buffer[..])[offset + 4 * |line|..]
  {
    ghost var before := buffer[..];
    var x := 0;
    while x < |line|
      invariant 0 <= x <= |line|
      invariant forall k :: 0 <= k < buffer.Length && !(offset <= k < offset + 4 * x) ==> buffer[k] == before[k]
      invariant forall j :: 0 <= j < 4 * x ==> buffer[offset + j] == ToBytes(line)[j]
    {
      ToBytesAt(line, x);
      assert ToBytes(line)[4 * x..4 * x + 4][3] == ToBytes(line)[4 * x + 3];
      buffer[offset + x * 4 + 0] := line[x].r;
      buffer[offset + x * 4 + 1] := line[x].g;
      buffer[offset + x * 4 + 2] := line[x].b;
      buffer[offset + x * 4 + 3] := line[x].a;
      x := x + 1;
    }
    var expected := before[..offset] + ToBytes(line) + before[offset + 4 * |line|..];
    forall k | 0 <= k < buffer.Length
      ensures buffer[k] == expected[k]
    {
      if offset <= k < offset + 4 * |line| {
        assert buffer[offset + (k - offset)] == buffer[k];
      }
    }
    assert buffer[..] == expected;
  }

  /** One row of the save loop, k = y * width pixels in: the bytes written
      so far grow by the row's bytes. */
  lemma InterleaveStep(px: seq<Color>, k: nat, w: nat, before: seq<Byte>, after: seq<Byte>)
    requires k + w <= |px| && |before| == 4 * |px|
    requires before[..4 * k] == ToBytes(px[..k])
    requires after == before[..4 * k] + ToBytes(px[k..k + w]) + before[4 * k + 4 * w..]
    ensures after[..4 * (k + w)] == ToBytes(px[..k + w])
  {
    ToBytesAppend(px[..k], px[k..k + w]);
    assert px[..k] + px[k..k + w] == px[..k + w];
    assert after[..4 * (k + w)] == before[..4 * k] + ToBytes(px[k..k + w]);
  }

  /** One iteration of the y loop of SaveImagePNG, k = y * width pixels
      in: GetLine(y), then the line interleaved at byte 4k. */
  method InterleaveRow(image: Image, temp: array<Byte>, y: int, k: nat) returns (o: Outcome)
    requires image.Valid() && 0 <= y < image.height && k == y * image.width
    requires k + image.width <= |image.pixels| && temp.Length == 4 * |image.pixels|
    requires temp[..4 * k] == ToBytes(image.pixels[..k])
    modifies temp
    ensures o.Fail? <==> image.width == 0
    ensures o.Fail? ==> o.error == OutOfRange(NO_PIXEL)
    ensures o.Pass? ==> temp[..4 * (k + image.width)] == ToBytes(image.pixels[..k + image.width])
  {
    var w := image.width;
    var line := image.GetLine(y);
    if line.Throw? {
      return Fail(line.error);
    }
    ghost var before := temp[..];
    assert before[..4 * k] == temp[..4 * k];
    InterleaveInto(temp, 4 * k, image.pixels[k..k + w]);
    InterleaveStep(image.pixels, k, w, before, temp[..]);
    assert temp[..4 * (k + w)] == temp[..][..4 * (k + w)];
    return Pass;
  }

  /** Line y + 1 starts w pixels and 4w bytes after line y. */
  lemma OffsetStep(y: nat, w: nat)
    ensures (y + 1) * w == y * w + w
    ensures (y + 1) * (4 * w) == y * (4 * w) + 4 * w == 4 * ((y + 1) * w)
  {
  }

  /** The offsets of n rows of stride bytes each. */
  function RowStarts(n: nat, stride: nat): (starts: seq<nat>)
    ensures |starts| == n
    ensures forall i :: 0 <= i < n ==> starts[i] == i * stride
  {
    seq(n, i requires 0 <= i < n => i * stride)
  }

  lemma RowStartsStep(n: nat, stride: nat)
    ensures RowStarts(n + 1, stride) == RowStarts(n, stride) + [n * stride]
  {
  }

  /** The y loop of SaveImagePNG: a width * height * 4 byte buffer, line y
      interleaved at byte y * width * 4, and row_pointers[y] set to it. */
  method InterleaveRows(image: Image) returns (o: Outcome, buffer: seq<Byte>, rowPointers: seq<nat>)
    requires image.Valid()
    ensures o.Fail? <==> image.width == 0 && image.height > 0
    ensures o.Fail? ==> o.error == OutOfRange(NO_PIXEL)
    ensures o.Pass? ==> buffer == ToBytes(image.pixels)
    ensures o.Pass? ==> |rowPointers| == image.height
    ensures o.Pass? ==> forall y :: 0 <= y < image.height ==> rowPointers[y] == y * (4 * image.width)
  {
    var w, h := image.GetWidth(), image.GetHeight();
    var pointers := new nat[h];
    var temp := new Byte[w * h * 4];
    assert w * h * 4 == 4 * |image.pixels|;
    var k, offset := 0, 0;
    var y := 0;
    while y < h
      invariant 0 <= y <= h && k == y * w && offset == y * (4 * w) && offset == 4 * k
      invariant y > 0 ==> w > 0
      invariant temp.Length == 4 * |image.pixels|
      invariant temp[..4 * k] == ToBytes(image.pixels[..k])
      invariant pointers[..y] == RowStarts(y, 4 * w)
    {
      RowFits(y, w, h);
      o := InterleaveRow(image, temp, y, k);
      if o.Fail? {
        return o, [], [];
      }
      pointers[y] := offset;
      RowStartsStep(y, 4 * w);
      AppendNext(pointers[..], y);
      assert pointers[..y + 1] == pointers[..][..y + 1];
      OffsetStep(y, w);
      k, offset := k + w, offset + 4 * w;
      y := y + 1;
    }
    assert k == |image.pixels|;
    assert image.pixels[..k] == image.pixels && temp[..4 * k] == temp[..];
    assert pointers[..] == pointers[..y];
    return Pass, temp[..], pointers[..];
  }

  /** SaveImagePNG with the output opened for writing: the size png_set_IHDR
      checks, then the rows png_write_image reads through row_pointers,
      which are the interleaved image. */
  method SaveImagePNG(t: Target, image: Image) returns (r: Result<Option<seq<Byte>>>)
    requires image.Valid()
    ensures r == Save(t, image.View())
  {
    if !OpensForWriting(t) {
      return Ok(None);
    }
    var w, h := image.GetWidth(), image.GetHeight();
    if w == 0 || h == 0 {
      return Throw(RuntimeError(PNG_WRITE_ERROR));
    }
    var o, buffer, rowPointers := InterleaveRows(image);
    GatherRows(buffer, 4 * w, h, rowPointers);
    var written := Concat(Gather(buffer, rowPointers, 4 * w));
    return Ok(Some(written));
  }
}
