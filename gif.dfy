/** The GIF loader of src/gif_image.cpp around giflib: the open, slurp and
    frame-count checks, then every pixel of the single frame looked up in
    the global colour map. SaveImageGIF writes nothing. */
module Gif {
  import opened Wrappers
  import opened Seqs
  import opened Colors
  import opened Images

  /** A GifColorType entry of the colour map. */
  datatype PaletteEntry = PaletteEntry(red: Byte, green: Byte, blue: Byte)

  /** A GIF file as LoadImageGIF sees it after DGifOpenFileName and
      DGifSlurp: whether each succeeded, the frame count, the first frame's
      size and colour indices (RasterBits, row-major), and the global
      colour map. */
  datatype GifInput = GifInput(
    path: string, isOpen: bool, slurped: bool, imageCount: int,
    width: nat, height: nat, rasterBits: seq<Byte>, colorMap: seq<PaletteEntry>)

  /** The frames LoadImageGIF has defined behaviour on: DGifSlurp gives
      one raster index per pixel, and the loader then reads
      SColorMap->Colors[index] unchecked. giflib does not promise that: the
      global colour map may be absent (a null SColorMap, an empty map here)
      and an index may lie past its end; either way the read is undefined,
      so the loader's model requires neither to happen. */
  ghost predicate FrameComplete(input: GifInput)
  {
    |input.rasterBits| == input.width * input.height
    && forall i :: 0 <= i < |input.rasterBits| ==> input.rasterBits[i] < |input.colorMap|
  }

  /** The colour of one raster index: the map entry's red, green, blue,
      alpha 255. */
  function PaletteColor(colorMap: seq<PaletteEntry>, index: Byte): (c: Color)
    requires index < |colorMap|
    ensures c.a == 255
  {
    var e := colorMap[index];
    Color(e.red, e.green, e.blue, 255)
  }

  /** The frame's pixels, row-major. */
  function FramePixels(rasterBits: seq<Byte>, colorMap: seq<PaletteEntry>): (px: seq<Color>)
    requires forall i :: 0 <= i < |rasterBits| ==> rasterBits[i] < |colorMap|
    ensures |px| == |rasterBits|
  {
    seq(|rasterBits|, i requires 0 <= i < |rasterBits| => PaletteColor(colorMap, rasterBits[i]))
  }

  /** LoadImageGIF: the open failure, the slurp failure and a frame count
      other than one throw; otherwise the first frame's size with every
      pixel taken from the colour map. */
  function Load(input: GifInput): (r: Result<Raster>)
    requires input.isOpen && input.slurped && input.imageCount == 1 ==> FrameComplete(input)
    ensures r.Ok? ==> WellFormed(r.value)
  {
    if !input.isOpen then Throw(RuntimeError("Failed to open GIF file: " + input.path))
    else if !input.slurped then Throw(RuntimeError("Failed to read GIF file: " + input.path))
    else if input.imageCount != 1 then Throw(RuntimeError("GIF file is not static: " + input.path))
    else Ok(Raster(input.width, input.height, FramePixels(input.rasterBits, input.colorMap)))
  }

  /** The loader accepts exactly an opened, slurped, single-frame file; the
      image then has the frame's size, pixel (x, y) is the map entry at
      RasterBits[y * Width + x], and every alpha is 255. */
  lemma LoadedFrame(input: GifInput, x: int, y: int)
    requires input.isOpen && input.slurped && input.imageCount == 1 ==> FrameComplete(input)
    requires 0 <= x < input.width && 0 <= y < input.height
    ensures Load(input).Ok? <==> input.isOpen && input.slurped && input.imageCount == 1
    ensures Load(input).Ok? ==>
      var r := Load(input).value;
      r.width == input.width && r.height == input.height
      && y * input.width + x < |input.rasterBits|
      && Rows(r)[y][x] == PaletteColor(input.colorMap, input.rasterBits[y * input.width + x])
  {
    if Load(input).Ok? {
      var r := Load(input).value;
      IndexInBounds(r.width, r.height, x, y);
      RowAt(r, y);
    }
  }

  /** Pixels with the same colour index get the same colour. */
  lemma SameIndexSameColor(rasterBits: seq<Byte>, colorMap: seq<PaletteEntry>, i: int, j: int)
    requires forall k :: 0 <= k < |rasterBits| ==> rasterBits[k] < |colorMap|
    requires 0 <= i < |rasterBits| && 0 <= j < |rasterBits| && rasterBits[i] == rasterBits[j]
    ensures FramePixels(rasterBits, colorMap)[i] == FramePixels(rasterBits, colorMap)[j]
  {
  }

  /** A loaded GIF is fully opaque. */
  lemma LoadedOpaque(input: GifInput)
    requires input.isOpen && input.slurped && input.imageCount == 1 && FrameComplete(input)
    ensures Load(input).Ok? && OpaqueRaster(Load(input).value) == Load(input).value
  {
    var r := Load(input).value;
    assert OpaqueRaster(r).pixels == r.pixels;
  }

  /** SaveImageGIF: always false, nothing is written. */
  function Save(path: string, r: Raster): (saved: bool)
    ensures !saved
  {
    false
  }

  /** The x loop for row y: SetPixel(x, y, colour of RasterBits[y * Width + x]). */
  method PaintRow(image: Image, y: int, rasterBits: seq<Byte>, colorMap: seq<PaletteEntry>)
    requires image.Valid() && 0 <= y < image.height && |rasterBits| == image.width * image.height
    requires forall i :: 0 <= i < |rasterBits| ==> rasterBits[i] < |colorMap|
    requires image.pixels == FramePixels(rasterBits, colorMap)[..y * image.width]
      + Fill(Zero(), image.width * image.height - y * image.width)
    modifies image
    ensures image.Valid() && image.width == old(image.width) && image.height == old(image.height)
    ensures y * image.width + image.width <= |rasterBits|
    ensures image.pixels == FramePixels(rasterBits, colorMap)[..y * image.width + image.width]
      + Fill(Zero(), image.width * image.height - (y * image.width + image.width))
  {
    var w, h := image.width, image.height;
    ghost var frame := FramePixels(rasterBits, colorMap);
    RowFits(y, w, h);
    var x := 0;
    while x < w
      invariant 0 <= x <= w && image.Valid() && image.width == w && image.height == h
      invariant image.pixels == frame[..y * w + x] + Fill(Zero(), w * h - (y * w + x))
    {
      var pixelIndex := y * w + x;
      var color := PaletteColor(colorMap, rasterBits[pixelIndex]);
      FillStep(frame[..pixelIndex], color, Zero(), w * h - pixelIndex);
      assert frame[..pixelIndex + 1] == frame[..pixelIndex] + [color];
      image.SetPixel(x, y, color);
      x := x + 1;
    }
  }

  /** The y loop of LoadImageGIF: every pixel written once, in row-major
      order, over an image of value-initialised Colors. */
  method PaintFrame(image: Image, rasterBits: seq<Byte>, colorMap: seq<PaletteEntry>)
    requires image.Valid() && image.pixels == Fill(Zero(), image.width * image.height)
    requires |rasterBits| == image.width * image.height
    requires forall i :: 0 <= i < |rasterBits| ==> rasterBits[i] < |colorMap|
    modifies image
    ensures image.Valid() && image.width == old(image.width) && image.height == old(image.height)
    ensures image.pixels == FramePixels(rasterBits, colorMap)
  {
    var w, h := image.width, image.height;
    ghost var frame := FramePixels(rasterBits, colorMap);
    var y := 0;
    while y < h
      invariant 0 <= y <= h && image.Valid() && image.width == w && image.height == h
      invariant y * w <= w * h
      invariant image.pixels == frame[..y * w] + Fill(Zero(), w * h - y * w)
    {
      MulMonotone(y + 1, h, w);
      MulSucc(y, w);
      PaintRow(image, y, rasterBits, colorMap);
      y := y + 1;
    }
    assert y * w == w * h;
    assert frame[..w * h] == frame;
  }

  /** LoadImageGIF. */
  method LoadImageGIF(input: GifInput) returns (r: Result<Image>)
    requires input.isOpen && input.slurped && input.imageCount == 1 ==> FrameComplete(input)
    ensures r.Throw? ==> Load(input) == Throw(r.error)
    ensures r.Ok? ==> fresh(r.value) && r.value.Valid() && Load(input) == Ok(r.value.View())
  {
    if !input.isOpen {
      return Throw(RuntimeError("Failed to open GIF file: " + input.path));
    }
    if !input.slurped {
      return Throw(RuntimeError("Failed to read GIF file: " + input.path));
    }
    if input.imageCount != 1 {
      return Throw(RuntimeError("GIF file is not static: " + input.path));
    }
    var image := new Image.Sized(input.width, input.height);
    PaintFrame(image, input.rasterBits, input.colorMap);
    return Ok(image);
  }
}
