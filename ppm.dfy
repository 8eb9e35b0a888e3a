/** The PPM codec of src/ppm_image.cpp: dispatch on the extension and on
    the magic token, the binary P6 reader and writer, and the P3 reader. */
module Ppm {
  import opened Wrappers
  import opened Seqs
  import opened Colors
  import opened Images
  import opened Text
  import opened RgbRows

  const PPM_MAX := 255
  const PPM_TYPE_P3 := "P3"
  const PPM_TYPE_P6 := "P6"

  /** A PPM file as the loaders see it: whether it opens, the four header
      tokens as operator>> reads them (a token that is not a number reads as
      0), the character after maxval (None at end of file), and the data.
      For P6 the data are the raw bytes after that character; for P3 they
      are the successive values operator>> stores into the uint8_t samples
      (how the stream turns text into those values is not modelled). */
  datatype PpmInput = PpmInput(
    path: string, isOpen: bool,
    sign: string, width: int, height: int, maxColor: int,
    next: Option<char>, data: seq<Byte>)

  /** What the savers write: the P6 header text and raw bytes, or the P3
      text (whose character-level form this model leaves out). */
  datatype PpmFile = P3File | P6File(header: string, body: seq<Byte>)

  datatype Loader = P3Loader | P6Loader

  datatype Saver = P3Saver | P6Saver

  /** LoadImagePPM's choice of reader by the magic token. */
  function LoaderFor(magic: string): (r: Result<Loader>)
    ensures r == Ok(P3Loader) <==> magic == PPM_TYPE_P3
    ensures r == Ok(P6Loader) <==> magic == PPM_TYPE_P6
    ensures r.Throw? ==> r.error == RuntimeError("Unsupported PPM format")
  {
    if magic == PPM_TYPE_P3 then Ok(P3Loader)
    else if magic == PPM_TYPE_P6 then Ok(P6Loader)
    else Throw(RuntimeError("Unsupported PPM format"))
  }

  /** SaveImagePPM's choice of writer by the file extension. */
  function SaverFor(extension: string): (r: Result<Saver>)
    ensures r == Ok(P3Saver) <==> extension == ".p3"
    ensures r == Ok(P6Saver) <==> extension == ".ppm"
    ensures r.Throw? ==> r.error == RuntimeError("Unsupported PPM format")
  {
    if extension == ".p3" then Ok(P3Saver)
    else if extension == ".ppm" then Ok(P6Saver)
    else Throw(RuntimeError("Unsupported PPM format"))
  }

  /** The value operator>> leaves in a uint8_t sample: the next sample, or
      the initial 0 once the stream is exhausted. */
  function Sample(samples: seq<Byte>, i: nat): Byte
  {
    if i < |samples| then samples[i] else 0
  }

  /** Pixel i as LoadP3 reads it: samples 3i, 3i+1, 3i+2 and alpha 255. */
  function P3Pixel(samples: seq<Byte>, i: nat): Color
  {
    Color(Sample(samples, 3 * i), Sample(samples, 3 * i + 1), Sample(samples, 3 * i + 2), 255)
  }

  /** The first n pixels LoadP3 stores. */
  function P3Pixels(samples: seq<Byte>, n: nat): (px: seq<Color>)
    ensures |px| == n
    ensures forall i :: 0 <= i < n ==> px[i].a == 255
  {
    seq(n, i requires 0 <= i < n => P3Pixel(samples, i))
  }

  lemma P3Extend(samples: seq<Byte>, n: nat)
    ensures P3Pixels(samples, n) + [P3Pixel(samples, n)] == P3Pixels(samples, n + 1)
  {
  }

  /** With enough samples, P3 decodes exactly as P6 decodes the same bytes
      into a Black image. */
  lemma P3AgreesWithP6(samples: seq<Byte>, n: nat)
    requires 3 * n <= |samples|
    ensures P3Pixels(samples, n) == UnpackRgb(samples, Fill(Black(), n))
  {
    var p3, p6 := P3Pixels(samples, n), UnpackRgb(samples, Fill(Black(), n));
    forall i | 0 <= i < n
      ensures p3[i] == p6[i]
    {
    }
  }

  /** LoadP3 on an input: maxval must be 255; a negative width * height
      throws length_error from the pixel vector, and otherwise a negative
      dimension skips the row loop, leaving an image without pixels; the
      pixels are read in row-major order. */
  function ReadP3(input: PpmInput): Result<Raster>
  {
    if !input.isOpen then Throw(RuntimeError("Failed to open P3 file: " + input.path))
    else if input.maxColor != PPM_MAX then Throw(RuntimeError("Unsupported max color value "))
    else if input.width * input.height < 0 then Throw(LengthError)
    else if input.width < 0 || input.height < 0 then Ok(EmptyRaster())
    else if input.width == 0 && input.height > 0 then Throw(OutOfRange(NO_PIXEL))
    else Ok(Raster(input.width, input.height, P3Pixels(input.data, input.width * input.height)))
  }

  /** LoadP6 on an input: the magic, maxval and the newline after it are
      checked; a negative width * height (the pixel vector) or a negative
      width (the row buffer of 3 * width bytes) throws length_error, a
      negative height skips the row loop, leaving an image without pixels;
      then width * height pixels of three bytes each are read. */
  function ReadP6(input: PpmInput): Result<Raster>
  {
    if !input.isOpen then Throw(RuntimeError("Failed to open PPM file: " + input.path))
    else if input.sign != PPM_TYPE_P6 || input.maxColor != PPM_MAX || input.next != Some('\n') then
      Ok(EmptyRaster())
    else
      var w, h := input.width, input.height;
      if w * h < 0 || w < 0 then Throw(LengthError)
      else if h < 0 then Ok(EmptyRaster())
      else if w == 0 && h > 0 then Throw(OutOfRange(NO_PIXEL))
      else if |input.data| < 3 * (w * h) then Ok(EmptyRaster())
      else Ok(Raster(w, h, UnpackRgb(input.data, Fill(Black(), w * h))))
  }

  /** With a negative dimension, LoadP3 throws exactly when width * height
      is negative and LoadP6 (past its header checks) when, besides, the
      width is negative; otherwise neither reads a pixel. */
  lemma NegativeDimensions(input: PpmInput)
    requires input.isOpen && input.maxColor == PPM_MAX
    requires input.width < 0 || input.height < 0
    ensures ReadP3(input).Throw? <==> input.width * input.height < 0
    ensures ReadP3(input).Ok? ==> ReadP3(input).value == EmptyRaster()
    ensures input.sign == PPM_TYPE_P6 && input.next == Some('\n') ==>
      (ReadP6(input).Throw? <==> input.width * input.height < 0 || input.width < 0)
      && (ReadP6(input).Ok? ==> ReadP6(input).value == EmptyRaster())
  {
  }

  /** LoadImagePPM: the open check, then the reader the magic selects. */
  function Load(input: PpmInput): Result<Raster>
  {
    if !input.isOpen then Throw(RuntimeError("Failed to open PPM/P3 file: " + input.path))
    else
      match LoaderFor(input.sign)
      case Throw(e) => Throw(e)
      case Ok(P3Loader) => ReadP3(input)
      case Ok(P6Loader) => ReadP6(input)
  }

  /** The header SaveP3 and SaveP6 write: the magic, width and height,
      maxval, each followed by one separator. */
  function HeaderText(magic: string, width: int, height: int, maxColor: int): string
  {
    magic + ['\n'] + (Decimal(width) + [' '] + (Decimal(height) + ['\n'] + (Decimal(maxColor) + ['\n'])))
  }

  /** The text SaveP6 writes before the pixels. */
  function P6Header(width: int, height: int): string
  {
    HeaderText(PPM_TYPE_P6, width, height, PPM_MAX)
  }

  /** Three words, each followed by one separator, split into those words. */
  lemma ThreeWords(w: string, h: string, m: string)
    requires |w| > 0 && forall i :: 0 <= i < |w| ==> !IsSpace(w[i])
    requires |h| > 0 && forall i :: 0 <= i < |h| ==> !IsSpace(h[i])
    requires |m| > 0 && forall i :: 0 <= i < |m| ==> !IsSpace(m[i])
    ensures Tokens(w + [' '] + (h + ['\n'] + (m + ['\n']))) == [w, h, m]
  {
    var r3 := m + ['\n'];
    assert r3 == m + ['\n'] + [];
    var r2 := h + ['\n'] + r3;
    TokensOfWord(m, '\n', []);
    TokensOfWord(h, '\n', r3);
    TokensOfWord(w, ' ', r2);
  }

  /** A header splits into its four tokens. */
  lemma HeaderTokens(magic: string, width: int, height: int, maxColor: int)
    requires |magic| > 0 && forall i :: 0 <= i < |magic| ==> !IsSpace(magic[i])
    ensures Tokens(HeaderText(magic, width, height, maxColor))
      == [magic, Decimal(width), Decimal(height), Decimal(maxColor)]
  {
    var w, h, m := Decimal(width), Decimal(height), Decimal(maxColor);
    var r1 := w + [' '] + (h + ['\n'] + (m + ['\n']));
    ThreeWords(w, h, m);
    TokensOfWord(magic, '\n', r1);
  }

  /** The P6 header reads back as the tokens "P6", width, height, 255, and
      ends with the single newline LoadP6 demands after maxval. */
  lemma P6HeaderReadsBack(width: int, height: int)
    ensures Tokens(P6Header(width, height)) == [PPM_TYPE_P6, Decimal(width), Decimal(height), Decimal(PPM_MAX)]
    ensures ParseInt(Decimal(width)) == Some(width) && ParseInt(Decimal(height)) == Some(height)
    ensures ParseInt(Decimal(PPM_MAX)) == Some(PPM_MAX)
    ensures P6Header(width, height)[|P6Header(width, height)| - 1] == '\n'
  {
    HeaderTokens(PPM_TYPE_P6, width, height, PPM_MAX);
    DecimalRoundTrip(width);
    DecimalRoundTrip(height);
    DecimalRoundTrip(PPM_MAX);
  }

  /** SaveP6 on an image. */
  function WriteP6(path: string, isOpen: bool, r: Raster): Result<PpmFile>
    requires WellFormed(r)
  {
    if !isOpen then Throw(RuntimeError("Failed to create PPM file: " + path))
    else if r.width == 0 && r.height > 0 then Throw(OutOfRange(NO_PIXEL))
    else Ok(P6File(P6Header(r.width, r.height), PackRgb(r.pixels)))
  }

  /** What SaveP6 writes, LoadP6 reads back (the header fields being the
      tokens P6HeaderReadsBack lists): the image with every alpha 255. */
  lemma P6RoundTrip(path: string, r: Raster)
    requires WellFormed(r) && WriteP6(path, true, r).Ok?
    ensures var f := WriteP6(path, true, r).value;
      ReadP6(PpmInput(path, true, PPM_TYPE_P6, r.width, r.height, PPM_MAX, Some('\n'), f.body))
        == Ok(OpaqueRaster(r))
  {
    RgbRoundTrip(r.pixels);
  }

  /** A P6 pixel row decoded in place: r, g, b of the width pixels from
      start on come from buff, alpha stays. */
  method UnpackRowInto(image: Image, start: nat, buff: seq<Byte>)
    requires image.Valid() && start + image.width <= |image.pixels|
    requires |buff| == 3 * image.width
    modifies image
    ensures image.Valid() && image.width == old(image.width) && image.height == old(image.height)
    ensures image.pixels == old(image.pixels)[..start]
      + UnpackRgb(buff, old(image.pixels)[start..start + image.width])
      + old(image.pixels)[start + image.width..]
  {
    ghost var before := image.pixels;
    var x := 0;
    while x < image.width
      invariant 0 <= x <= image.width
      invariant image.Valid() && image.width == old(image.width) && image.height == old(image.height)
      invariant |image.pixels| == |before|
      invariant forall k :: 0 <= k < |before| && !(start <= k < start + x) ==> image.pixels[k] == before[k]
      invariant forall j :: 0 <= j < x ==>
        image.pixels[start + j] == before[start + j].(r := buff[3 * j], g := buff[3 * j + 1], b := buff[3 * j + 2])
    {
      var c := image.pixels[start + x];
      image.Store(start + x, c.(r := buff[x * 3 + 0], g := buff[x * 3 + 1], b := buff[x * 3 + 2]));
      x := x + 1;
    }
    var w := image.width;
    var expected := before[..start] + UnpackRgb(buff, before[start..start + w]) + before[start + w..];
    assert |expected| == |image.pixels|;
    forall k | 0 <= k < |before|
      ensures image.pixels[k] == expected[k]
    {
      if start <= k < start + w {
        assert image.pixels[start + (k - start)] == image.pixels[k];
      }
    }
  }

  /** One row of LoadP6 read at pixel k of a partly decoded image. */
  lemma P6RowStep(data: seq<Byte>, k: nat, w: nat, total: nat,
                  before: seq<Color>, after: seq<Color>, buff: seq<Byte>)
    requires k + w <= total && 3 * (k + w) <= |data|
    requires before == UnpackRgb(data, Fill(Black(), k)) + Fill(Black(), total - k)
    requires buff == data[3 * k..3 * k + 3 * w]
    requires after == before[..k] + UnpackRgb(buff, before[k..k + w]) + before[k + w..]
    ensures after == UnpackRgb(data, Fill(Black(), k + w)) + Fill(Black(), total - (k + w))
  {
    assert before[..k] == UnpackRgb(data, Fill(Black(), k));
    assert before[k..k + w] == Fill(Black(), w);
    assert before[k + w..] == Fill(Black(), total - k - w);
    UnpackStep(data, k, w);
  }

  /** One iteration of LoadP6's row loop, k = y * width pixels in:
      GetLine(y), then a read of 3 * width bytes at byte 3k. */
  method ReadP6Row(image: Image, data: seq<Byte>, y: int, k: nat) returns (o: Result<bool>)
    requires image.Valid() && 0 <= y < image.height && k == y * image.width
    requires k + image.width <= image.width * image.height && 3 * k <= |data|
    requires image.pixels == UnpackRgb(data, Fill(Black(), k)) + Fill(Black(), image.width * image.height - k)
    modifies image
    ensures image.Valid() && image.width == old(image.width) && image.height == old(image.height)
    ensures o.Throw? <==> image.width == 0
    ensures o.Throw? ==> o.error == OutOfRange(NO_PIXEL)
    ensures o == Ok(false) ==> |data| < 3 * (k + image.width)
    ensures o == Ok(true) ==> 3 * (k + image.width) <= |data|
    ensures o == Ok(true) ==>
      image.pixels == UnpackRgb(data, Fill(Black(), k + image.width))
        + Fill(Black(), image.width * image.height - (k + image.width))
  {
    var w := image.width;
    var line := image.GetLine(y);
    if line.Throw? {
      return Throw(line.error);
    }
    if |data| < 3 * k + 3 * w {
      return Ok(false);
    }
    var buff := data[3 * k..3 * k + 3 * w];
    ghost var before := image.pixels;
    UnpackRowInto(image, line.value, buff);
    P6RowStep(data, k, w, w * image.height, before, image.pixels, buff);
    return Ok(true);
  }

  /** The row loop of LoadP6 over a Black-filled image; Ok(false) at a
      short read. */
  method ReadP6Rows(image: Image, data: seq<Byte>) returns (o: Result<bool>)
    requires image.Valid() && image.pixels == Fill(Black(), image.width * image.height)
    modifies image
    ensures image.Valid() && image.width == old(image.width) && image.height == old(image.height)
    ensures o.Throw? <==> image.width == 0 && image.height > 0
    ensures o.Throw? ==> o.error == OutOfRange(NO_PIXEL)
    ensures o == Ok(false) ==> |data| < 3 * (image.width * image.height)
    ensures o == Ok(true) ==> 3 * (image.width * image.height) <= |data|
    ensures o == Ok(true) ==> image.pixels == UnpackRgb(data, Fill(Black(), image.width * image.height))
  {
    var w, h := image.width, image.height;
    var k := 0;
    var y := 0;
    while y < h
      invariant 0 <= y <= h && k == y * w && 3 * k <= |data|
      invariant y > 0 ==> w > 0
      invariant image.Valid() && image.width == w && image.height == h
      invariant image.pixels == UnpackRgb(data, Fill(Black(), k)) + Fill(Black(), w * h - k)
    {
      RowFits(y, w, h);
      o := ReadP6Row(image, data, y, k);
      if o != Ok(true) {
        return;
      }
      MulSucc(y, w);
      k := k + w;
      y := y + 1;
    }
    assert k == w * h;
    return Ok(true);
  }

  /** LoadP6: the open check, the header checks, then the rows top-down
      into a Black-filled image; a short read gives the empty image. */
  method LoadP6(input: PpmInput) returns (r: Result<Image>)
    ensures r.Throw? ==> ReadP6(input) == Throw(r.error)
    ensures r.Ok? ==> fresh(r.value) && r.value.Valid() && ReadP6(input) == Ok(r.value.View())
  {
    if !input.isOpen {
      return Throw(RuntimeError("Failed to open PPM file: " + input.path));
    }
    if input.sign != PPM_TYPE_P6 || input.maxColor != PPM_MAX || input.next != Some('\n') {
      var empty := new Image();
      return Ok(empty);
    }
    var w, h := input.width, input.height;
    if w * h < 0 || w < 0 {
      return Throw(LengthError);
    }
    if h < 0 {
      var empty := new Image();
      return Ok(empty);
    }
    var image := new Image.Filled(w, h, Black());
    var o := ReadP6Rows(image, input.data);
    match o
    case Throw(e) =>
      return Throw(e);
    case Ok(complete) =>
      if !complete {
        var empty := new Image();
        return Ok(empty);
      }
      return Ok(image);
  }

  /** The x loop of LoadP3: the count pixels from k on, each from the next
      three samples. */
  method ReadP3Run(image: Image, samples: seq<Byte>, k: nat, count: nat)
    requires image.Valid() && k + count <= |image.pixels|
    requires image.pixels == P3Pixels(samples, k) + Fill(Black(), |image.pixels| - k)
    modifies image
    ensures image.Valid() && image.width == old(image.width) && image.height == old(image.height)
    ensures image.pixels == P3Pixels(samples, k + count) + Fill(Black(), |image.pixels| - (k + count))
  {
    var n := |image.pixels|;
    var x := 0;
    while x < count
      invariant 0 <= x <= count
      invariant image.Valid() && image.width == old(image.width) && image.height == old(image.height)
      invariant image.pixels == P3Pixels(samples, k + x) + Fill(Black(), n - (k + x))
    {
      var pos := 3 * (k + x);
      var c := Color(Sample(samples, pos), Sample(samples, pos + 1), Sample(samples, pos + 2), 255);
      FillStep(P3Pixels(samples, k + x), c, Black(), n - (k + x));
      P3Extend(samples, k + x);
      image.Store(k + x, c);
      x := x + 1;
    }
  }

  /** The inner loop of LoadP3 over row y, k = y * width pixels in: each
      pixel from the next three samples, with alpha 255. */
  method ReadP3Row(image: Image, samples: seq<Byte>, y: int, k: nat) returns (o: Outcome)
    requires image.Valid() && 0 <= y < image.height && k == y * image.width
    requires k + image.width <= image.width * image.height
    requires image.pixels == P3Pixels(samples, k) + Fill(Black(), image.width * image.height - k)
    modifies image
    ensures image.Valid() && image.width == old(image.width) && image.height == old(image.height)
    ensures o.Fail? <==> image.width == 0
    ensures o.Fail? ==> o.error == OutOfRange(NO_PIXEL)
    ensures o.Pass? ==>
      image.pixels == P3Pixels(samples, k + image.width)
        + Fill(Black(), image.width * image.height - (k + image.width))
  {
    var w, n := image.width, image.width * image.height;
    var line := image.GetLine(y);
    if line.Throw? {
      return Fail(line.error);
    }
    assert line.value == k;
    ReadP3Run(image, samples, k, w);
    return Pass;
  }

  /** The pixel loops of LoadP3 over a Black-filled image. */
  method ReadP3Pixels(image: Image, samples: seq<Byte>) returns (o: Outcome)
    requires image.Valid() && image.pixels == Fill(Black(), image.width * image.height)
    modifies image
    ensures image.Valid() && image.width == old(image.width) && image.height == old(image.height)
    ensures o.Fail? <==> image.width == 0 && image.height > 0
    ensures o.Fail? ==> o.error == OutOfRange(NO_PIXEL)
    ensures o.Pass? ==> image.pixels == P3Pixels(samples, image.width * image.height)
  {
    var w, h := image.width, image.height;
    var k := 0;
    var y := 0;
    while y < h
      invariant 0 <= y <= h && k == y * w
      invariant y > 0 ==> w > 0
      invariant image.Valid() && image.width == w && image.height == h
      invariant image.pixels == P3Pixels(samples, k) + Fill(Black(), w * h - k)
    {
      RowFits(y, w, h);
      o := ReadP3Row(image, samples, y, k);
      if o.Fail? {
        return;
      }
      MulSucc(y, w);
      k := k + w;
      y := y + 1;
    }
    assert k == w * h;
    return Pass;
  }

  /** LoadP3: maxval must be 255, then every pixel is read into a
      Black-filled image. */
  method LoadP3(input: PpmInput) returns (r: Result<Image>)
    ensures r.Throw? ==> ReadP3(input) == Throw(r.error)
    ensures r.Ok? ==> fresh(r.value) && r.value.Valid() && ReadP3(input) == Ok(r.value.View())
  {
    if !input.isOpen {
      return Throw(RuntimeError("Failed to open P3 file: " + input.path));
    }
    if input.maxColor != PPM_MAX {
      return Throw(RuntimeError("Unsupported max color value "));
    }
    var w, h := input.width, input.height;
    if w * h < 0 {
      return Throw(LengthError);
    }
    if w < 0 || h < 0 {
      var empty := new Image();
      return Ok(empty);
    }
    var image := new Image.Filled(w, h, Black());
    var o := ReadP3Pixels(image, input.data);
    if o.Fail? {
      return Throw(o.error);
    }
    return Ok(image);
  }

  /** LoadImagePPM: the open check, then LoadP3 or LoadP6 by the magic. */
  method LoadImagePPM(input: PpmInput) returns (r: Result<Image>)
    ensures r.Throw? ==> Load(input) == Throw(r.error)
    ensures r.Ok? ==> fresh(r.value) && r.value.Valid() && Load(input) == Ok(r.value.View())
  {
    if !input.isOpen {
      return Throw(RuntimeError("Failed to open PPM/P3 file: " + input.path));
    }
    var loader := LoaderFor(input.sign);
    match loader
    case Throw(e) =>
      return Throw(e);
    case Ok(P3Loader) =>
      r := LoadP3(input);
    case Ok(P6Loader) =>
      r := LoadP6(input);
  }

  /** One line of SaveP6: the w pixels from start packed into the buffer. */
  method PackInto(buff: array<Byte>, pixels: seq<Color>, start: nat, w: nat) returns (bytes: seq<Byte>)
    requires buff.Length == 3 * w && start + w <= |pixels|
    modifies buff
    ensures bytes == PackRgb(pixels[start..start + w])
  {
    PackRgbInto(buff, pixels[start..start + w]);
    bytes := buff[..];
  }

  /** The row loop of SaveP6: every line, top-down, packed into one reused
      3 * width byte buffer. */
  method PackP6Rows(image: Image) returns (r: Result<seq<Byte>>)
    requires image.Valid()
    ensures r.Throw? <==> image.width == 0 && image.height > 0
    ensures r.Throw? ==> r.error == OutOfRange(NO_PIXEL)
    ensures r.Ok? ==> r.value == PackRgb(image.pixels)
  {
    var w, h := image.GetWidth(), image.GetHeight();
    var buff := new Byte[3 * w];
    var body: seq<Byte> := [];
    ghost var k := 0;
    var y := 0;
    while y < h
      invariant 0 <= y <= h && k == y * w && k <= |image.pixels|
      invariant y > 0 ==> w > 0
      invariant body == PackRgb(image.pixels[..k])
    {
      MulMonotone(y + 1, h, w);
      var line := image.GetLine(y);
      if line.Throw? {
        return Throw(line.error);
      }
      var start := line.value;
      var packed := PackInto(buff, image.pixels, start, w);
      PackPrefix(image.pixels, start, w);
      body := body + packed;
      k := k + w;
      y := y + 1;
    }
    assert h * w == w * h;
    assert image.pixels[..k] == image.pixels;
    return Ok(body);
  }

  /** SaveP6: the header, then the packed rows. */
  method SaveP6(path: string, isOpen: bool, image: Image) returns (r: Result<PpmFile>)
    requires image.Valid()
    ensures r == WriteP6(path, isOpen, image.View())
  {
    if !isOpen {
      return Throw(RuntimeError("Failed to create PPM file: " + path));
    }
    var header := P6Header(image.GetWidth(), image.GetHeight());
    var body := PackP6Rows(image);
    match body
    case Throw(e) =>
      return Throw(e);
    case Ok(bytes) =>
      return Ok(P6File(header, bytes));
  }

  /** SaveP3: the create failure throws; the row loop reads each line
      through GetLine, which throws for a zero width with rows; otherwise
      the text file is written. */
  function WriteP3(path: string, isOpen: bool, r: Raster): (f: Result<PpmFile>)
  {
    if !isOpen then Throw(RuntimeError("Failed to create P3 file: " + path))
    else if r.width == 0 && r.height > 0 then Throw(OutOfRange(NO_PIXEL))
    else Ok(P3File)
  }

  /** SaveP3 and SaveP6 fail on the same images: each throws at a failed
      create, with its own message, and each throws out_of_range through
      GetLine for a zero width with rows. */
  lemma SaversFailAlike(path: string, isOpen: bool, r: Raster)
    requires WellFormed(r)
    ensures WriteP3(path, isOpen, r).Ok? <==> WriteP6(path, isOpen, r).Ok?
    ensures isOpen && WriteP3(path, isOpen, r).Throw? ==>
      WriteP3(path, isOpen, r) == WriteP6(path, isOpen, r) == Throw(OutOfRange(NO_PIXEL))
  {
  }

  /** SaveP3: the open check, then the row loop through GetLine (the text
      each row writes is left out). */
  method SaveP3(path: string, isOpen: bool, image: Image) returns (r: Result<PpmFile>)
    requires image.Valid()
    ensures r == WriteP3(path, isOpen, image.View())
  {
    if !isOpen {
      return Throw(RuntimeError("Failed to create P3 file: " + path));
    }
    var h := image.GetHeight();
    var y := 0;
    while y < h
      invariant 0 <= y <= h
      invariant 0 < y ==> 0 < image.width
    {
      var line := image.GetLine(y);
      if line.Throw? {
        return Throw(line.error);
      }
      y := y + 1;
    }
    return Ok(P3File);
  }

  /** SaveImagePPM: ".p3" goes to SaveP3, ".ppm" to SaveP6, anything else
      throws. */
  method SaveImagePPM(extension: string, path: string, isOpen: bool, image: Image)
    returns (r: Result<PpmFile>)
    requires image.Valid()
    ensures SaverFor(extension).Throw? ==> r == Throw(SaverFor(extension).error)
    ensures SaverFor(extension) == Ok(P3Saver) ==> r == WriteP3(path, isOpen, image.View())
    ensures SaverFor(extension) == Ok(P6Saver) ==> r == WriteP6(path, isOpen, image.View())
  {
    var saver := SaverFor(extension);
    match saver
    case Throw(e) =>
      return Throw(e);
    case Ok(P3Saver) =>
      r := SaveP3(path, isOpen, image);
    case Ok(P6Saver) =>
      r := SaveP6(path, isOpen, image);
  }
}
