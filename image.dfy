/** The Image pixel buffer of include/image.h and src/image.cpp: a row-major
    width x height vector of Colors addressed as y * step + x. */
module Images {
  import opened Wrappers
  import opened Seqs
  import opened Colors

  /** The message of the out_of_range CheckBounds throws. */
  const NO_PIXEL := "Pixel coordinates out of range"

  /** The value of an Image: its dimensions and its pixel vector. */
  datatype Raster = Raster(width: int, height: int, pixels: seq<Color>)

  ghost predicate WellFormed(r: Raster)
  {
    0 <= r.width && 0 <= r.height && |r.pixels| == r.width * r.height
  }

  /** The value of a default-constructed (or moved-from) Image. */
  function EmptyRaster(): Raster
  {
    Raster(0, 0, [])
  }

  /** operator bool, on the value. */
  predicate Truthy(r: Raster)
  {
    r.width > 0 && r.height > 0
  }

  /** The rows of an image, top row first. */
  function Rows(r: Raster): (rows: seq<seq<Color>>)
    requires WellFormed(r)
    ensures |rows| == r.height && Uniform(rows, r.width)
  {
    Chunks(r.pixels, r.width, r.height)
  }

  /** The image with every alpha forced to 255: what a codec that stores
      only r, g, b reads back into a Black-filled image. */
  function OpaqueRaster(r: Raster): (o: Raster)
    ensures o.width == r.width && o.height == r.height
    ensures |o.pixels| == |r.pixels|
    ensures forall i :: 0 <= i < |r.pixels| ==> o.pixels[i] == r.pixels[i].(a := 255)
  {
    Raster(r.width, r.height, Map(Opaque, r.pixels))
  }

  /** (x, y) inside a w x h image addresses a pixel of the vector. */
  lemma IndexInBounds(w: int, h: int, x: int, y: int)
    requires 0 <= x < w && 0 <= y < h
    ensures 0 <= y * w + x < w * h
  {
    assert y * w + x < y * w + w == (y + 1) * w;
    MulMonotone(y + 1, h, w);
    assert h * w == w * h;
  }

  /** The vector index of pixel (x, y) in a w x h image: y * w + x. */
  function Offset(w: int, h: int, x: int, y: int): (i: nat)
    requires 0 <= x < w && 0 <= y < h
    ensures i < w * h
    ensures i == y * w + x
  {
    IndexInBounds(w, h, x, y);
    y * w + x
  }

  /** Row y of a w-by-h image ends within the image: (y+1)*w <= w*h. */
  lemma RowFits(y: nat, w: nat, h: nat)
    requires y < h
    ensures y * w + w <= w * h
  {
    MulMonotone(y + 1, h, w);
    MulSucc(y, w);
  }

  /** Different in-bounds coordinates address different pixels. */
  lemma IndexInjective(w: int, x1: int, y1: int, x2: int, y2: int)
    requires 0 <= x1 < w && 0 <= x2 < w && 0 <= y1 && 0 <= y2
    requires y1 * w + x1 == y2 * w + x2
    ensures x1 == x2 && y1 == y2
  {
    if y1 < y2 {
      MulMonotone(y1 + 1, y2, w);
      assert false;
    } else if y2 < y1 {
      MulMonotone(y2 + 1, y1, w);
      assert false;
    }
  }

  /** Writing pixel (x, y) leaves pixel (i, j) != (x, y) as it was. */
  lemma UpdateKeepsOthers(w: int, h: int, px: seq<Color>, x: int, y: int, c: Color, i: int, j: int)
    requires |px| == w * h && 0 <= x < w && 0 <= y < h && 0 <= i < w && 0 <= j < h
    requires i != x || j != y
    ensures px[Offset(w, h, x, y) := c][Offset(w, h, i, j)] == px[Offset(w, h, i, j)]
  {
    IndexInBounds(w, h, x, y);
    IndexInBounds(w, h, i, j);
    if j * w + i == y * w + x {
      IndexInjective(w, i, j, x, y);
    }
  }

  /** Row y of Rows(r) is the slice of the vector starting at y * width. */
  lemma RowAt(r: Raster, y: int)
    requires WellFormed(r) && 0 <= y < r.height
    ensures y * r.width + r.width <= |r.pixels|
    ensures Rows(r)[y] == r.pixels[y * r.width..y * r.width + r.width]
  {
    assert r.height * r.width == r.width * r.height;
    ChunkAt(r.pixels, r.width, r.height, y);
  }

  /** The vector is its rows laid end to end. */
  lemma RowsConcat(r: Raster)
    requires WellFormed(r)
    ensures Concat(Rows(r)) == r.pixels
  {
    assert r.height * r.width == r.width * r.height;
    ConcatOfChunks(r.pixels, r.width, r.height);
  }

  class Image {
    var width: int
    var height: int
    var step: int
    var pixels: seq<Color>

    /** Every constructor and assignment keeps step == width and exactly
        width * height pixels. */
    ghost predicate Valid()
      reads this
    {
      0 <= width && 0 <= height && step == width && |pixels| == width * height
    }

    function View(): Raster
      reads this
    {
      Raster(width, height, pixels)
    }

    /** Image(): all fields at their defaults (0, 0, 0, no pixels). */
    constructor ()
      ensures Valid() && View() == EmptyRaster() && step == 0
      ensures !IsTruthy()
    {
      width, height, step, pixels := 0, 0, 0, [];
    }

    /** Image(w, h): w * h value-initialised (all-zero) pixels. */
    constructor Sized(w: int, h: int)
      requires 0 <= w && 0 <= h
      ensures Valid() && View() == Raster(w, h, Fill(Zero(), w * h))
    {
      width, height, step := w, h, w;
      pixels := Fill(Zero(), w * h);
    }

    /** Image(w, h, fill): w * h copies of fill. */
    constructor Filled(w: int, h: int, fill: Color)
      requires 0 <= w && 0 <= h
      ensures Valid() && View() == Raster(w, h, Fill(fill, w * h))
    {
      width, height, step := w, h, w;
      pixels := Fill(fill, w * h);
    }

    /** Copy constructor. */
    constructor Copy(other: Image)
      requires other.Valid()
      ensures Valid() && View() == other.View()
    {
      width, height, step, pixels := other.width, other.height, other.step, other.pixels;
    }

    /** Move constructor: takes other's fields and leaves other with zero
        dimensions and an empty vector. */
    constructor Move(other: Image)
      requires other.Valid()
      modifies other
      ensures Valid() && View() == old(other.View())
      ensures other.Valid() && other.View() == EmptyRaster() && other.step == 0
    {
      width, height, step, pixels := other.width, other.height, other.step, other.pixels;
      new;
      other.pixels := [];
      other.width, other.height, other.step := 0, 0, 0;
    }

    /** Copy assignment; self-assignment changes nothing. */
    method CopyAssign(other: Image)
      requires Valid() && other.Valid()
      modifies this
      ensures Valid() && View() == old(other.View())
      ensures other == this ==> View() == old(View())
    {
      if this != other {
        width := other.width;
        height := other.height;
        step := other.step;
        pixels := other.pixels;
      }
    }

    /** Move assignment: takes other's fields and zeroes other; self-move
        changes nothing. */
    method MoveAssign(other: Image)
      requires Valid() && other.Valid()
      modifies this, other
      ensures Valid() && View() == old(other.View())
      ensures other != this ==> other.Valid() && other.View() == EmptyRaster() && other.step == 0
      ensures other == this ==> View() == old(View())
    {
      if this != other {
        width := other.width;
        height := other.height;
        step := other.step;
        pixels := other.pixels;
        other.pixels := [];
        other.width := 0;
        other.height := 0;
        other.step := 0;
      }
    }

    /** explicit operator bool: true exactly when the image holds pixels. */
    function IsTruthy(): (t: bool)
      reads this
      ensures t == Truthy(View())
      ensures Valid() ==> (t <==> |pixels| > 0)
    {
      if width > 0 && height > 0 then
        MulMonotone(1, height, width);
        true
      else
        false
    }

    /** operator!: the negation of operator bool. */
    function IsFalsy(): (f: bool)
      reads this
      ensures f <==> !IsTruthy()
      ensures Valid() ==> (f <==> |pixels| == 0)
    {
      !IsTruthy()
    }

    function GetWidth(): int
      reads this
    {
      width
    }

    function GetHeight(): int
      reads this
    {
      height
    }

    function GetStep(): (s: int)
      reads this
      ensures Valid() ==> s == GetWidth()
    {
      step
    }

    /** Throws out_of_range unless 0 <= x < width and 0 <= y < height. */
    function CheckBounds(x: int, y: int): (o: Outcome)
      reads this
      ensures o.Pass? <==> 0 <= x < width && 0 <= y < height
      ensures o.Fail? ==> o.error == OutOfRange(NO_PIXEL)
    {
      if x < 0 || x >= width || y < 0 || y >= height then
        Fail(OutOfRange(NO_PIXEL))
      else
        Pass
    }

    /** GetPixel(x, y): bounds-checked read of pixels[y * step + x]. */
    function GetPixel(x: int, y: int): (r: Result<Color>)
      reads this
      requires Valid()
      ensures r.Ok? <==> CheckBounds(x, y).Pass?
      ensures r.Throw? ==> r.error == OutOfRange(NO_PIXEL)
      ensures r.Ok? ==> r.value == pixels[Offset(width, height, x, y)]
    {
      match CheckBounds(x, y)
      case Fail(e) => Throw(e)
      case Pass =>
        IndexInBounds(width, height, x, y);
        Ok(pixels[y * step + x])
    }

    /** SetPixel(x, y, c): unchecked write of pixels[y * width + x]; the
        caller keeps (x, y) in bounds. Only that pixel changes. */
    method SetPixel(x: int, y: int, c: Color)
      requires Valid() && 0 <= x < width && 0 <= y < height
      modifies this
      ensures Valid() && width == old(width) && height == old(height) && step == old(step)
      ensures pixels == old(pixels)[Offset(width, height, x, y) := c]
      ensures GetPixel(x, y) == Ok(c)
      ensures forall i, j :: 0 <= i < width && 0 <= j < height && (i != x || j != y) ==>
                GetPixel(i, j) == old(GetPixel(i, j))
    {
      ghost var before := pixels;
      pixels := pixels[Offset(width, height, x, y) := c];
      forall i, j | 0 <= i < width && 0 <= j < height && (i != x || j != y)
        ensures GetPixel(i, j) == old(GetPixel(i, j))
      {
        UpdateKeepsOthers(width, height, before, x, y, c, i, j);
      }
    }

    /** GetLine(y): CheckBounds(0, y), then the index where row y starts.
        It throws for every y when the width is 0. */
    function GetLine(y: int): (r: Result<nat>)
      reads this
      requires Valid()
      ensures r.Ok? <==> CheckBounds(0, y).Pass?
      ensures r.Ok? <==> 0 < width && 0 <= y < height
      ensures r.Throw? ==> r.error == OutOfRange(NO_PIXEL)
      ensures r.Ok? ==> r.value == y * width && r.value + width <= |pixels|
      ensures r.Ok? ==> pixels[r.value..r.value + width] == Rows(View())[y]
    {
      match CheckBounds(0, y)
      case Fail(e) => Throw(e)
      case Pass =>
        RowAt(View(), y);
        Ok(y * step)
    }

    /** Reading through the pointer GetLine returns agrees with GetPixel. */
    lemma LineAgreesWithPixel(y: int, x: int)
      requires Valid() && GetLine(y).Ok? && 0 <= x < width
      ensures GetPixel(x, y) == Ok(pixels[GetLine(y).value + x])
    {
    }

    /** A store through a line pointer: pixels[i] := c, nothing else. */
    method Store(i: int, c: Color)
      requires Valid() && 0 <= i < |pixels|
      modifies this
      ensures Valid() && width == old(width) && height == old(height)
      ensures pixels == old(pixels)[i := c]
    {
      pixels := pixels[i := c];
    }

    /** GetPixels() = vector: the vector is replaced by one of the same size. */
    method AssignPixels(px: seq<Color>)
      requires Valid() && |px| == |pixels|
      modifies this
      ensures Valid() && width == old(width) && height == old(height)
      ensures pixels == px
    {
      pixels := px;
    }

    /** GetData(): null for an empty vector, otherwise the vector's bytes,
        from which the pixels are read back unchanged. */
    function GetData(): (d: Option<seq<Byte>>)
      reads this
      ensures d.None? <==> |pixels| == 0
      ensures d.Some? ==> |d.value| == 4 * |pixels| && FromBytes(d.value) == pixels
    {
      if |pixels| == 0 then None
      else
        BytesRoundTrip(pixels);
        Some(ToBytes(pixels))
    }
  }
}
