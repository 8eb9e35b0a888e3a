/** The JPEG codec of src/jpeg_image.cpp around libjpeg: the scanline copy
    into an Image, the load loop and the save loop. The compression itself
    belongs to libjpeg: the model starts from the R, G, B scanlines the
    decompressor hands out and ends at the ones given to the compressor. */
module Jpeg {
  import opened Wrappers
  import opened Seqs
  import opened Colors
  import opened Images
  import opened RgbRows


  /** A JPEG file as LoadImageJpeg sees it: whether fopen succeeds, whether
      libjpeg decodes it without calling the error exit, the output size,
      and the decoded scanlines laid end to end, three samples a pixel. */
  datatype JpegInput = JpegInput(
    path: string, isOpen: bool, decoded: bool,
    width: nat, height: nat, samples: seq<Byte>)

  /** What SaveImageJpeg hands to libjpeg: the size and the R, G, B
      scanlines laid end to end. */
  datatype JpegOutput = JpegOutput(width: int, height: int, samples: seq<Byte>)

  /** The outcome of SaveImageJpeg: false when fopen fails; the end of the
      process when libjpeg's default error_exit (installed by
      jpeg_std_error) runs; otherwise the scanlines went to the compressor
      and true is returned. */
  datatype SaveOutcome = NotOpened | Exited | Written(output: JpegOutput)

  /** JPEG_MAX_DIMENSION of libjpeg's jmorecfg.h. */
  const JPEG_MAX_DIMENSION := 65500

  /** The sizes jpeg_start_compress accepts: it calls the error exit with
      JERR_EMPTY_IMAGE for a zero width or height and with
      JERR_IMAGE_TOO_BIG for one above JPEG_MAX_DIMENSION. */
  predicate SizeAccepted(w: int, h: int)
  {
    0 < w <= JPEG_MAX_DIMENSION && 0 < h <= JPEG_MAX_DIMENSION
  }

  /** The pixels a scanline of w pixels becomes: r, g, b from the samples,
      alpha 255. */
  lemma ScanlinePixels(row: seq<Byte>, w: nat)
    requires 3 * w <= |row|
    ensures forall x :: 0 <= x < w ==>
      UnpackRgb(row, Fill(Black(), w))[x] == Color(row[3 * x], row[3 * x + 1], row[3 * x + 2], 255)
  {
  }

  /** LoadImageJpeg: an open or decoding failure gives the empty image,
      otherwise an output_width x output_height image whose row y comes from
      scanline y. */
  function Load(input: JpegInput): (r: Result<Raster>)
    requires 3 * (input.width * input.height) <= |input.samples|
    ensures r.Ok? ==> WellFormed(r.value)
  {
    if !input.isOpen || !input.decoded then Ok(EmptyRaster())
    else if input.width == 0 && input.height > 0 then Throw(OutOfRange(NO_PIXEL))
    else Ok(Raster(input.width, input.height,
                   UnpackRgb(input.samples, Fill(Black(), input.width * input.height))))
  }

  /** SaveImageJpeg: NotOpened when fopen fails, Exited when
      jpeg_start_compress rejects the size, otherwise the size and the
      packed rows, top row first. */
  function Save(isOpen: bool, r: Raster): (out: SaveOutcome)
    requires WellFormed(r)
    ensures out.NotOpened? <==> !isOpen
    ensures out.Exited? <==> isOpen && !SizeAccepted(r.width, r.height)
    ensures out.Written? ==>
      out.output.width == r.width && out.output.height == r.height
      && |out.output.samples| == 3 * (r.width * r.height)
  {
    if !isOpen then NotOpened
    else if !SizeAccepted(r.width, r.height) then Exited
    else Written(JpegOutput(r.width, r.height, PackRgb(r.pixels)))
  }

  /** The samples SaveImageJpeg hands to the compressor, handed back
      unchanged by the decompressor, load as the image with alpha 255
      (libjpeg's lossy compression lies outside the model). */
  lemma SamplesRoundTrip(path: string, r: Raster)
    requires WellFormed(r) && SizeAccepted(r.width, r.height)
    ensures Save(true, r).Written?
    ensures var out := Save(true, r).output;
      Load(JpegInput(path, true, true, r.width, r.height, out.samples)) == Ok(OpaqueRaster(r))
  {
    RgbRoundTrip(r.pixels);
  }

  /** The x loop of SaveScanlineToImage over the line at start. */
  method CopyScanline(image: Image, start: nat, row: seq<Byte>)
    requires image.Valid() && start + image.width <= |image.pixels| && 3 * image.width <= |row|
    modifies image
    ensures image.Valid() && image.width == old(image.width) && image.height == old(image.height)
    ensures image.pixels == old(image.pixels)[..start]
      + UnpackRgb(row, Fill(Black(), image.width)) + old(image.pixels)[start + image.width..]
  {
    var w := image.width;
    ghost var before := image.pixels;
    var x := 0;
    while x < image.width
      invariant 0 <= x <= w && image.width == w
      invariant image.Valid() && image.height == old(image.height)
      invariant |image.pixels| == |before|
      invariant forall k :: 0 <= k < |before| && !(start <= k < start + x) ==> image.pixels[k] == before[k]
      invariant forall j :: 0 <= j < x ==>
        image.pixels[start + j] == Color(row[3 * j], row[3 * j + 1], row[3 * j + 2], 255)
    {
      image.Store(start + x, Color(row[x * 3], row[x * 3 + 1], row[x * 3 + 2], 255));
      x := x + 1;
    }
    var expected := before[..start] + UnpackRgb(row, Fill(Black(), w)) + before[start + w..];
    ScanlinePixels(row, w);
    forall k | 0 <= k < |before|
      ensures image.pixels[k] == expected[k]
    {
      if start <= k < start + w {
        assert image.pixels[start + (k - start)] == image.pixels[k];
      }
    }
    assert image.pixels == expected;
  }

  /** SaveScanlineToImage: line y of the image becomes the first width
      pixels of the scanline, each with alpha 255; GetLine throws when the
      line does not exist. */
  method SaveScanlineToImage(row: seq<Byte>, y: int, image: Image) returns (o: Outcome)
    requires image.Valid() && 3 * image.width <= |row|
    modifies image
    ensures image.Valid() && image.width == old(image.width) && image.height == old(image.height)
    ensures o.Fail? <==> !(0 < image.width && 0 <= y < image.height)
    ensures o.Fail? ==> o.error == OutOfRange(NO_PIXEL) && image.pixels == old(image.pixels)
    ensures o.Pass? ==> y * image.width + image.width <= |image.pixels|
    ensures o.Pass? ==>
      image.pixels == old(image.pixels)[..y * image.width]
        + UnpackRgb(row, Fill(Black(), image.width)) + old(image.pixels)[y * image.width + image.width..]
  {
    var line := image.GetLine(y);
    if line.Throw? {
      return Fail(line.error);
    }
    CopyScanline(image, line.value, row);
    return Pass;
  }

  /** One scanline of the load loop, k = y * width pixels in. */
  lemma ScanlineStep(samples: seq<Byte>, k: nat, w: nat, total: nat, before: seq<Color>, after: seq<Color>)
    requires k + w <= total && 3 * (k + w) <= |samples|
    requires before == UnpackRgb(samples, Fill(Black(), k)) + Fill(Black(), total - k)
    requires after == before[..k] + UnpackRgb(samples[3 * k..3 * k + 3 * w], Fill(Black(), w)) + before[k + w..]
    ensures after == UnpackRgb(samples, Fill(Black(), k + w)) + Fill(Black(), total - (k + w))
  {
    assert before[..k] == UnpackRgb(samples, Fill(Black(), k));
    assert before[k + w..] == Fill(Black(), total - k - w);
    UnpackStep(samples, k, w);
  }

  /** The while loop of LoadImageJpeg: scanline after scanline, each copied
      into its line of a Black-filled image. */
  method ReadScanlines(image: Image, samples: seq<Byte>) returns (o: Outcome)
    requires image.Valid() && image.pixels == Fill(Black(), image.width * image.height)
    requires 3 * (image.width * image.height) <= |samples|
    modifies image
    ensures image.Valid() && image.width == old(image.width) && image.height == old(image.height)
    ensures o.Fail? <==> image.width == 0 && image.height > 0
    ensures o.Fail? ==> o.error == OutOfRange(NO_PIXEL)
    ensures o.Pass? ==> image.pixels == UnpackRgb(samples, Fill(Black(), image.width * image.height))
  {
    var w, h := image.width, image.height;
    var k := 0;
    var y := 0;
    while y < h
      invariant 0 <= y <= h && k == y * w
      invariant y > 0 ==> w > 0
      invariant image.Valid() && image.width == w && image.height == h
      invariant image.pixels == UnpackRgb(samples, Fill(Black(), k)) + Fill(Black(), w * h - k)
    {
      RowFits(y, w, h);
      ghost var before := image.pixels;
      var row := samples[3 * k..3 * k + 3 * w];
      o := SaveScanlineToImage(row, y, image);
      if o.Fail? {
        return;
      }
      ScanlineStep(samples, k, w, w * h, before, image.pixels);
      MulSucc(y, w);
      k := k + w;
      y := y + 1;
    }
    assert k == w * h;
    return Pass;
  }

  /** LoadImageJpeg. */
  method LoadImageJpeg(input: JpegInput) returns (r: Result<Image>)
    requires 3 * (input.width * input.height) <= |input.samples|
    ensures r.Throw? ==> Load(input) == Throw(r.error)
    ensures r.Ok? ==> fresh(r.value) && r.value.Valid() && Load(input) == Ok(r.value.View())
  {
    if !input.isOpen || !input.decoded {
      var empty := new Image();
      return Ok(empty);
    }
    var result := new Image.Filled(input.width, input.height, Black());
    var o := ReadScanlines(result, input.samples);
    if o.Fail? {
      return Throw(o.error);
    }
    return Ok(result);
  }

  /** One turn of the while loop of SaveImageJpeg: a fresh buffer of
      3 * width samples filled from line y; GetLine is only reached when
      the line has pixels. */
  method PackLine(image: Image, y: nat) returns (line: seq<Byte>)
    requires image.Valid() && y < image.height
    ensures y * image.width + image.width <= |image.pixels|
    ensures line == PackRgb(image.pixels[y * image.width..y * image.width + image.width])
  {
    var w := image.GetWidth();
    RowFits(y, w, image.height);
    var jsample := new Byte[3 * w];
    if w > 0 {
      var start := image.GetLine(y).value;
      PackRgbInto(jsample, image.pixels[start..start + w]);
    }
    line := jsample[..];
  }

  /** The while loop of SaveImageJpeg: every scanline packed, top to
      bottom. */
  method PackScanlines(image: Image) returns (samples: seq<Byte>)
    requires image.Valid()
    ensures samples == PackRgb(image.pixels)
  {
    var w, h := image.GetWidth(), image.GetHeight();
    samples := [];
    var y := 0;
    while y < h
      invariant 0 <= y <= h && y * w <= |image.pixels|
      invariant samples == PackRgb(image.pixels[..y * w])
    {
      var line := PackLine(image, y);
      PackPrefix(image.pixels, y * w, w);
      samples := samples + line;
      MulSucc(y, w);
      y := y + 1;
    }
    assert h * w == w * h;
    assert image.pixels[..h * w] == image.pixels;
  }

  /** SaveImageJpeg: the open check, the size check of
      jpeg_start_compress, then the scanline loop. */
  method SaveImageJpeg(isOpen: bool, image: Image) returns (out: SaveOutcome)
    requires image.Valid()
    ensures out == Save(isOpen, image.View())
  {
    if !isOpen {
      return NotOpened;
    }
    if !SizeAccepted(image.GetWidth(), image.GetHeight()) {
      return Exited;
    }
    var samples := PackScanlines(image);
    return Written(JpegOutput(image.GetWidth(), image.GetHeight(), samples));
  }
}
