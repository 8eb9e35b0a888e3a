/** The ICO codec of src/ico_image.cpp: the icon header and directory
    entry, the bottom-up B, G, R, A rows of the first icon, and the saver's
    directory, per-icon BMP headers and pixel rows. */
module Ico {
  import opened Wrappers
  import opened Seqs
  import opened Colors
  import opened Images
  import Bmp

  /** sizeof(IcoHeader): three uint16_t. */
  const ICO_HEADER_SIZE := 6
  /** sizeof(IconDirEntry): four uint8_t, two uint16_t, two uint32_t. */
  const DIR_ENTRY_SIZE := 16
  /** sizeof(BmpHeader): the BMP file header followed by the info header. */
  const BMP_HEADER_SIZE := Bmp.FILE_HEADER_SIZE + Bmp.INFO_HEADER_SIZE

  datatype IcoHeader = IcoHeader(reserved: int, iconType: int, count: int)

  datatype IconDirEntry = IconDirEntry(
    width: Byte, height: Byte, colorCount: Byte, reserved: Byte,
    planes: int, bitCount: int, size: int, offset: int)

  /** An ICO file as LoadImageICO reads it: whether it opened, the header,
      the first directory entry, and the bytes the row loop reads from,
      those that follow the entry.size bytes read at entry.offset. */
  datatype IcoInput = IcoInput(
    path: string, isOpen: bool, header: IcoHeader, entry: IconDirEntry, rows: seq<Byte>)

  /** One icon as SaveImageICO writes it: its BMP headers and its rows. */
  datatype IcoResource = IcoResource(
    fileHeader: Bmp.FileHeader, infoHeader: Bmp.InfoHeader, pixels: seq<Byte>)

  /** What SaveImageICO writes: the header, the directory, the icons. */
  datatype IcoFile = IcoFile(header: IcoHeader, entries: seq<IconDirEntry>, resources: seq<IcoResource>)

  /** static_cast<uint16_t>(x). */
  function Wrap16(x: int): (v: int)
    ensures 0 <= v < 0x1_0000
    ensures 0 <= x < 0x1_0000 ==> v == x
  {
    x % 0x1_0000
  }

  /** A width or height byte of a directory entry: 0 stands for 256. */
  function IconDimension(b: Byte): (d: int)
    ensures 1 <= d <= 256
  {
    if b == 0 then 256 else b
  }

  /** The width byte the saver writes, static_cast<uint8_t>(width), reads
      back as the width for every icon size from 1 to 256. */
  lemma DimensionRoundTrip(w: int)
    requires 1 <= w <= 256
    ensures IconDimension(Wrap8(w)) == w
  {
  }

  /** The four bytes a pixel is stored as: B, G, R, A. */
  function BgraBytes(c: Color): seq<Byte>
  {
    [c.b, c.g, c.r, c.a]
  }

  /** One line of pixels as the saver writes it. */
  function EncodeBgra(line: seq<Color>): (row: seq<Byte>)
    ensures |row| == 4 * |line|
  {
    seq(4 * |line|, j requires 0 <= j < 4 * |line| => BgraBytes(line[j / 4])[j % 4])
  }

  /** The loader's per-pixel loop over one row: b, g, r from bytes 4x,
      4x+1, 4x+2, alpha from byte 4x+3 at 32 bits per pixel and 255 at 24. */
  function DecodeBgra(row: seq<Byte>, w: nat, deep: bool): (line: seq<Color>)
    requires DecodedLength(w, deep) <= |row|
    ensures |line| == w
    ensures !deep ==> forall x :: 0 <= x < w ==> line[x].a == 255
  {
    seq(w, x requires 0 <= x < w =>
      Color(row[4 * x + 2], row[4 * x + 1], row[4 * x], if deep then row[4 * x + 3] else 255))
  }

  /** Pixel x of an encoded line sits at bytes 4x .. 4x+3. */
  lemma EncodeBgraAt(line: seq<Color>, x: int)
    requires 0 <= x < |line|
    ensures EncodeBgra(line)[4 * x..4 * x + 4] == BgraBytes(line[x])
  {
    var row := EncodeBgra(line);
    forall k | 0 <= k < 4
      ensures row[4 * x + k] == BgraBytes(line[x])[k]
    {
      assert (4 * x + k) / 4 == x && (4 * x + k) % 4 == k;
    }
  }

  /** A saved line decodes back to itself at 32 bits per pixel, and with
      every alpha 255 at 24. */
  lemma BgraRoundTrip(line: seq<Color>)
    ensures DecodeBgra(EncodeBgra(line), |line|, true) == line
    ensures DecodeBgra(EncodeBgra(line), |line|, false) == Map(Opaque, line)
  {
    var row := EncodeBgra(line);
    forall x | 0 <= x < |line|
      ensures DecodeBgra(row, |line|, true)[x] == line[x]
      ensures DecodeBgra(row, |line|, false)[x] == Opaque(line[x])
    {
      EncodeBgraAt(line, x);
      assert row[4 * x..4 * x + 4][0] == row[4 * x];
      assert row[4 * x..4 * x + 4][1] == row[4 * x + 1];
      assert row[4 * x..4 * x + 4][2] == row[4 * x + 2];
      assert row[4 * x..4 * x + 4][3] == row[4 * x + 3];
    }
  }

  /** Both depths decode the same b, g, r; 24 bits differ only in alpha. */
  lemma DepthsAgree(row: seq<Byte>, w: nat)
    requires 4 * w <= |row|
    ensures DecodeBgra(row, w, false) == Map(Opaque, DecodeBgra(row, w, true))
  {
  }

  /** The length of one stored row: four bytes per pixel. */
  function RowLength(w: nat): nat
  {
    4 * w
  }

  /** The bytes of a row the per-pixel loop reads: 4x .. 4x+3 of every
      pixel at 32 bits per pixel, and 4x .. 4x+2 at 24, where the last
      pixel's fourth byte is never read. */
  function DecodedLength(w: nat, deep: bool): (n: nat)
    ensures n <= RowLength(w)
    ensures deep ==> n == RowLength(w)
  {
    if deep || w == 0 then 4 * w else 4 * w - 1
  }

  /** The length of the row buffer and of each row read, as written:
      width * height bytes. */
  function AsWrittenRowLength(w: nat, h: nat): nat
  {
    w * h
  }

  /** Image row y after loading rows of s bytes, of which the first 4w are
      decoded, provided the rows hold stored row h-1-y (the rows are
      bottom-up); otherwise still Black. */
  function LoadedRow(rows: seq<Byte>, w: nat, h: nat, s: nat, y: nat, deep: bool): (line: seq<Color>)
    requires y < h && DecodedLength(w, deep) <= s
    ensures |line| == w
  {
    var i := h - 1 - y;
    MulMonotone(0, i, s);
    if i * s + s <= |rows| then DecodeBgra(rows[i * s..i * s + s], w, deep)
    else Fill(Black(), w)
  }

  /** The image while rows y+1 .. h-1 have been loaded and rows 0 .. y are
      still Black. */
  function PartlyLoaded(rows: seq<Byte>, w: nat, h: nat, s: nat, y: int, deep: bool): (lines: seq<seq<Color>>)
    requires -1 <= y < h && DecodedLength(w, deep) <= s
    ensures |lines| == h && Uniform(lines, w)
  {
    seq(h, k requires 0 <= k < h => RowSoFar(rows, w, h, s, y, k, deep))
  }

  /** Image row k while rows y+1 .. h-1 have been loaded. */
  function RowSoFar(rows: seq<Byte>, w: nat, h: nat, s: nat, y: int, k: nat, deep: bool): (line: seq<Color>)
    requires k < h && DecodedLength(w, deep) <= s
    ensures |line| == w
  {
    if k <= y then Fill(Black(), w) else LoadedRow(rows, w, h, s, k, deep)
  }

  /** The row loops of LoadImageICO reading rows of s >= 4 * width bytes:
      the empty image when the rows run out, otherwise every stored row
      decoded into its image row. */
  function LoadRows(rows: seq<Byte>, w: nat, h: nat, s: nat, deep: bool): (r: Raster)
    requires DecodedLength(w, deep) <= s
    ensures WellFormed(r)
    ensures |rows| < h * s ==> r == EmptyRaster()
    ensures |rows| >= h * s ==> r.width == w && r.height == h
  {
    if |rows| < h * s then EmptyRaster()
    else
      var lines := PartlyLoaded(rows, w, h, s, -1, deep);
      ConcatLength(lines, w);
      assert |Concat(lines)| == w * h;
      Raster(w, h, Concat(lines))
  }

  /** The checks LoadImageICO makes before reading rows: the open failure,
      a wrong reserved or type field, an empty directory and a depth other
      than 24 or 32 throw; otherwise the first icon's width and height and
      whether its rows carry alpha. */
  function Header(input: IcoInput): (r: Result<(nat, nat, bool)>)
    ensures r.Ok? ==> 1 <= r.value.0 <= 256 && 1 <= r.value.1 <= 256
    ensures r.Ok? ==>
      r.value.0 == IconDimension(input.entry.width)
      && r.value.1 == IconDimension(input.entry.height)
      && (r.value.2 <==> input.entry.bitCount == 32)
  {
    if !input.isOpen then Throw(RuntimeError("Load file is not open: " + input.path))
    else if input.header.reserved != 0 || input.header.iconType != 1 then
      Throw(RuntimeError("Incorrect ICO file"))
    else if input.header.count == 0 then Throw(RuntimeError("The ICO file does not contain images"))
    else
      var w, h := IconDimension(input.entry.width), IconDimension(input.entry.height);
      if input.entry.bitCount == 32 then Ok((w, h, true))
      else if input.entry.bitCount == 24 then Ok((w, h, false))
      else Throw(RuntimeError("Unsupported color depth: "))
  }

  /** LoadImageICO with each row read as the 4 * width bytes a row is
      stored in: the header checks, then the first icon's rows. */
  function Load(input: IcoInput): (r: Result<Raster>)
    ensures r.Ok? ==> WellFormed(r.value)
  {
    match Header(input)
    case Throw(e) => Throw(e)
    case Ok((w, h, deep)) => Ok(LoadRows(input.rows, w, h, RowLength(w), deep))
  }

  /** LoadImageICO as written: every row read is width * height bytes.
      Where that is shorter than the bytes the decoding loop reads (4w at 32
      bits, 4w - 1 at 24), the behaviour is undefined once the first read
      succeeds (None); a first read that comes up short returns the empty
      image before any decoding. */
  function LoadAsWritten(input: IcoInput): (r: Option<Result<Raster>>)
    ensures r.Some? && r.value.Ok? ==> WellFormed(r.value.value)
  {
    match Header(input)
    case Throw(e) => Some(Throw(e))
    case Ok((w, h, deep)) =>
      var s := AsWrittenRowLength(w, h);
      if DecodedLength(w, deep) <= s then Some(Ok(LoadRows(input.rows, w, h, s, deep)))
      else if |input.rows| < s then Some(Ok(EmptyRaster()))
      else None
  }

  /** Both loaders make the same checks, with the same messages. */
  lemma LoadersAgreeOnErrors(input: IcoInput)
    ensures Load(input).Throw? <==> LoadAsWritten(input).Some? && LoadAsWritten(input).value.Throw?
    ensures Load(input).Throw? ==> LoadAsWritten(input) == Some(Load(input))
  {
  }

  /** As written, the load is undefined exactly for an icon less than four
      rows tall, other than the 24-bit 1 x 3 icon, whose first row read
      succeeds. */
  lemma AsWrittenUndefinedExactly(input: IcoInput, w: nat, h: nat, deep: bool)
    requires Header(input) == Ok((w, h, deep))
    ensures LoadAsWritten(input).None? <==>
      h < 4 && !(!deep && w == 1 && h == 3) && w * h <= |input.rows|
  {
    if h < 4 {
      MulMonotone(h, 3, w);
      if !deep && h == 3 && w != 1 {
        assert w * h == 3 * w;
      }
    } else {
      MulMonotone(4, h, w);
    }
  }

  /** As written, an icon less than four rows tall, other than the 24-bit
      1 x 3 icon, whose first row read succeeds overruns its row buffer:
      the last byte the decoding loop reads, 4(w-1)+3 at 32 bits and
      4(w-1)+2 at 24, lies past its width * height bytes. */
  lemma AsWrittenRowOverrun(input: IcoInput, w: nat, h: nat, deep: bool)
    requires Header(input) == Ok((w, h, deep)) && h < 4
    requires deep || !(w == 1 && h == 3)
    requires |input.rows| >= w * h
    ensures LoadAsWritten(input) == None
    ensures w * h <= 4 * (w - 1) + (if deep then 3 else 2)
  {
    AsWrittenUndefinedExactly(input, w, h, deep);
    MulMonotone(h, 3, w);
  }

  /** The one short icon that stays inside its buffer: at 24 bits a 1 x 3
      icon has a three-byte row buffer and reads bytes 0, 1 and 2 of each
      row, so the as-written loader gives the 1 x 3 image, stored rows
      bottom-up, while four-byte rows run out after two rows. */
  lemma AsWrittenOneByThree(rows: seq<Byte>)
    requires |rows| == 9
    ensures LoadAsWritten(IcoInput("a.ico", true, IcoHeader(0, 1, 1),
      IconDirEntry(1, 3, 0, 0, 1, 24, 0, 0), rows))
      == Some(Ok(Raster(1, 3, [Color(rows[8], rows[7], rows[6], 255),
                               Color(rows[5], rows[4], rows[3], 255),
                               Color(rows[2], rows[1], rows[0], 255)])))
    ensures Load(IcoInput("a.ico", true, IcoHeader(0, 1, 1),
      IconDirEntry(1, 3, 0, 0, 1, 24, 0, 0), rows)) == Ok(EmptyRaster())
  {
    var input := IcoInput("a.ico", true, IcoHeader(0, 1, 1), IconDirEntry(1, 3, 0, 0, 1, 24, 0, 0), rows);
    assert Header(input) == Ok((1, 3, false));
    assert AsWrittenRowLength(1, 3) == 3 == DecodedLength(1, false);
    var lines := PartlyLoaded(rows, 1, 3, 3, -1, false);
    forall i | 0 <= i < 3
      ensures lines[2 - i] == [Color(rows[3 * i + 2], rows[3 * i + 1], rows[3 * i], 255)]
    {
      var row := rows[3 * i..3 * i + 3];
      assert row[0] == rows[3 * i] && row[1] == rows[3 * i + 1] && row[2] == rows[3 * i + 2];
      assert DecodeBgra(row, 1, false)[0] == Color(row[2], row[1], row[0], 255);
    }
    assert lines[0] == [Color(rows[8], rows[7], rows[6], 255)];
    assert lines[1] == [Color(rows[5], rows[4], rows[3], 255)];
    assert lines[2] == [Color(rows[2], rows[1], rows[0], 255)];
    assert Concat(lines[2..]) == lines[2] by {
      assert lines[2..][1..] == [];
    }
    assert Concat(lines[1..]) == lines[1] + lines[2] by {
      assert lines[1..][1..] == lines[2..];
    }
    assert LoadRows(rows, 1, 3, 3, false) == Raster(1, 3, lines[0] + lines[1] + lines[2]);
    assert LoadAsWritten(input) == Some(Ok(LoadRows(rows, 1, 3, 3, false)));
    assert lines[0] + lines[1] + lines[2] == [Color(rows[8], rows[7], rows[6], 255),
      Color(rows[5], rows[4], rows[3], 255), Color(rows[2], rows[1], rows[0], 255)];
  }

  /** The smallest case: a 1 x 1 32-bit icon has a one-byte row buffer, and
      decoding its one pixel reads bytes 1, 2 and 3 as well. */
  lemma AsWrittenOneByOne(rows: seq<Byte>)
    requires |rows| >= 1
    ensures LoadAsWritten(IcoInput("a.ico", true, IcoHeader(0, 1, 1),
      IconDirEntry(1, 1, 0, 0, 1, 32, 4 + BMP_HEADER_SIZE, ICO_HEADER_SIZE + DIR_ENTRY_SIZE), rows)) == None
    ensures Load(IcoInput("a.ico", true, IcoHeader(0, 1, 1),
      IconDirEntry(1, 1, 0, 0, 1, 32, 4 + BMP_HEADER_SIZE, ICO_HEADER_SIZE + DIR_ENTRY_SIZE), rows)).Ok?
  {
  }

  /** From four rows up the as-written loader is the row loop reading
      width * height bytes per row; at exactly four rows that is 4 * width
      and both loaders agree. */
  lemma AsWrittenTall(input: IcoInput, w: nat, h: nat, deep: bool)
    requires Header(input) == Ok((w, h, deep)) && 4 <= h
    ensures RowLength(w) <= w * h
    ensures LoadAsWritten(input) == Some(Ok(LoadRows(input.rows, w, h, w * h, deep)))
    ensures h == 4 ==> LoadAsWritten(input) == Some(Load(input))
  {
    MulMonotone(4, h, w);
  }

  /** The loader accepts exactly the open files with a valid header, at
      least one icon and a depth of 24 or 32; a complete icon has the
      entry's size. */
  lemma LoadAccepts(input: IcoInput)
    ensures Load(input).Ok? <==>
      input.isOpen && input.header.reserved == 0 && input.header.iconType == 1
      && input.header.count != 0 && (input.entry.bitCount == 32 || input.entry.bitCount == 24)
    ensures Load(input).Ok? && Load(input).value != EmptyRaster() ==>
      Load(input).value.width == IconDimension(input.entry.width)
      && Load(input).value.height == IconDimension(input.entry.height)
  {
  }

  /** Stored row i of data is its slice [s i, s (i+1)), of which the first
      4w bytes are decoded. */
  lemma LoadedRowAt(rows: seq<Byte>, w: nat, h: nat, s: nat, y: nat, pos: nat, deep: bool)
    requires y < h && DecodedLength(w, deep) <= s && pos == (h - 1 - y) * s && pos + s <= |rows|
    ensures LoadedRow(rows, w, h, s, y, deep) == DecodeBgra(rows[pos..pos + s], w, deep)
  {
  }

  /** At 24 bits the loaded icon is the 32-bit one with every alpha 255. */
  lemma DepthsAgreeOnIcons(rows: seq<Byte>, w: nat, h: nat, s: nat)
    requires RowLength(w) <= s
    ensures LoadRows(rows, w, h, s, false) == OpaqueRaster(LoadRows(rows, w, h, s, true))
  {
    if |rows| >= h * s {
      var shallow, deep := PartlyLoaded(rows, w, h, s, -1, false), PartlyLoaded(rows, w, h, s, -1, true);
      assert shallow == seq(|deep|, k requires 0 <= k < |deep| => Map(Opaque, deep[k])) by {
        forall k | 0 <= k < h
          ensures shallow[k] == Map(Opaque, deep[k])
        {
          var i := h - 1 - k;
          MulMonotone(i + 1, h, s);
          DepthsAgree(rows[i * s..i * s + s], w);
        }
      }
      ConcatMap(Opaque, deep);
    }
  }

  /** The stored rows of an image, bottom row first: the pixel loops of
      SaveImageICO. */
  function StoredRows(r: Raster): (rows: seq<seq<Byte>>)
    requires WellFormed(r)
    ensures |rows| == r.height && Uniform(rows, RowLength(r.width))
  {
    var lines := Rows(r);
    seq(r.height, i requires 0 <= i < r.height => EncodeBgra(lines[r.height - 1 - i]))
  }

  /** All the pixel bytes the saver writes for one icon. */
  function PixelData(r: Raster): (data: seq<Byte>)
    requires WellFormed(r)
    ensures |data| == r.height * RowLength(r.width)
  {
    ConcatLength(StoredRows(r), RowLength(r.width));
    Concat(StoredRows(r))
  }

  /** Stored row i of saved data is the encoding of image row h-1-i. */
  lemma LoadedRowOfSaved(r: Raster, y: nat)
    requires WellFormed(r) && y < r.height
    ensures LoadedRow(PixelData(r), r.width, r.height, RowLength(r.width), y, true) == Rows(r)[y]
  {
    var w, h, s := r.width, r.height, RowLength(r.width);
    var i := h - 1 - y;
    var line := Rows(r)[y];
    var data := PixelData(r);
    MulMonotone(0, i, s);
    var pos := i * s;
    assert data[pos..pos + s] == EncodeBgra(line) by {
      ConcatSlice(StoredRows(r), s, i);
    }
    BgraRoundTrip(line);
    LoadedRowAt(data, w, h, s, y, pos, true);
  }

  /** With the row length of four bytes per pixel, row bytes laid out as
      the saver's pixel loops write them, handed to the row loop, load back
      at 32 bits as the image, alpha included. In a file SaveImageICO
      writes those bytes sit inside the icon's resource, which the loader
      skips as the entry.size block, so this is a statement about the row
      loop, not about reading a saved file. */
  lemma {:induction false} SaveLoadRoundTrip(r: Raster)
    requires WellFormed(r) && 0 < r.width && 0 < r.height
    ensures LoadRows(PixelData(r), r.width, r.height, RowLength(r.width), true) == r
  {
    var w, h := r.width, r.height;
    var loaded := PartlyLoaded(PixelData(r), w, h, RowLength(w), -1, true);
    assert loaded == Rows(r) by {
      forall k | 0 <= k < h
        ensures loaded[k] == Rows(r)[k]
      {
        LoadedRowOfSaved(r, k);
      }
    }
    RowsConcat(r);
  }

  /** Rows of 4 * width bytes after the entry.size block, laid out as the
      saver's pixel loops write them, for an icon taller than four rows:
      the as-written reads of width * height bytes need more than the
      4 * width * height bytes there, so a short read returns the empty
      image, while the loader reading rows of 4 * width bytes gives the
      icon back. */
  lemma {:induction false} AsWrittenLosesStoredRows(input: IcoInput, r: Raster)
    requires WellFormed(r) && 4 < r.height
    requires Header(input) == Ok((r.width, r.height, true)) && input.rows == PixelData(r)
    ensures Load(input) == Ok(r)
    ensures LoadAsWritten(input) == Some(Ok(EmptyRaster()))
  {
    var w, h := r.width, r.height;
    SaveLoadRoundTrip(r);
    AsWrittenTall(input, w, h, true);
    TallRowsExceedData(w, h);
  }

  /** Above four rows, h rows of 4 * w bytes fall short of h rows of w * h. */
  lemma TallRowsExceedData(w: nat, h: nat)
    requires 0 < w && 4 < h
    ensures h * RowLength(w) < h * (w * h)
  {
    MulMonotone(5, h, w);
    var d := w * h - RowLength(w);
    assert h * (w * h) == h * RowLength(w) + h * d;
    MulMonotone(1, h, d);
  }

  /** bytes_in_res: the pixel bytes of a square icon plus its BMP header. */
  function ResourceSize(w: int): int
  {
    w * w * 4 + BMP_HEADER_SIZE
  }

  /** The total of bytes_in_res over some icons. */
  function ResourcesTotal(ws: seq<int>): int
  {
    if ws == [] then 0 else ResourcesTotal(ws[..|ws| - 1]) + ResourceSize(ws[|ws| - 1])
  }

  /** The directory entry of an icon of width w whose data starts at offset. */
  function EntryFor(w: int, offset: int): IconDirEntry
  {
    IconDirEntry(Wrap8(w), Wrap8(w), 0, 0, 1, 32, ResourceSize(w), offset)
  }

  /** The BMP headers written in front of an icon of width w. */
  function ResourceHeaders(w: int): (Bmp.FileHeader, Bmp.InfoHeader)
  {
    var sizeImage := w * w * 4;
    (Bmp.FileHeader(Bmp.BMP_SIGNATURE, BMP_HEADER_SIZE + sizeImage, 0, 0, BMP_HEADER_SIZE),
     Bmp.InfoHeader(Bmp.INFO_HEADER_SIZE, w, w * 2, 1, 32, 0, sizeImage, 0, 0, 0, 0))
  }

  /** The directory for icons of the given widths, the first icon's data
      starting right after the directory. */
  function Directory(ws: seq<int>): (entries: seq<IconDirEntry>)
    ensures |entries| == |ws|
  {
    var base := ICO_HEADER_SIZE + DIR_ENTRY_SIZE * |ws|;
    seq(|ws|, i requires 0 <= i < |ws| => EntryFor(ws[i], base + ResourcesTotal(ws[..i])))
  }

  /** The sum of the size fields of some directory entries. */
  function TotalSize(entries: seq<IconDirEntry>): int
  {
    if entries == [] then 0 else TotalSize(entries[..|entries| - 1]) + entries[|entries| - 1].size
  }

  /** The icons lie back to back after the directory: each entry's size is
      its icon's bytes_in_res, and its data starts where the directory
      ends plus the sizes of all the entries before it. */
  lemma DirectoryContiguous(ws: seq<int>)
    ensures forall i :: 0 <= i < |ws| ==> Directory(ws)[i].size == ResourceSize(ws[i])
    ensures forall i :: 0 <= i < |ws| ==>
      Directory(ws)[i].offset == ICO_HEADER_SIZE + DIR_ENTRY_SIZE * |ws| + TotalSize(Directory(ws)[..i])
  {
    forall i | 0 <= i < |ws|
      ensures Directory(ws)[i].offset == ICO_HEADER_SIZE + DIR_ENTRY_SIZE * |ws| + TotalSize(Directory(ws)[..i])
    {
      OffsetAfterEarlier(ws, i);
    }
  }

  lemma {:induction false} OffsetAfterEarlier(ws: seq<int>, i: nat)
    requires i <= |ws|
    ensures ResourcesTotal(ws[..i]) == TotalSize(Directory(ws)[..i])
  {
    if i > 0 {
      OffsetAfterEarlier(ws, i - 1);
      var d := Directory(ws);
      assert d[..i][..i - 1] == d[..i - 1];
      assert ws[..i][..i - 1] == ws[..i - 1];
      assert d[i - 1].size == ResourceSize(ws[i - 1]);
    }
  }

  /** The BMP headers of icons of the given widths, in order. */
  function HeaderList(ws: seq<int>): (hs: seq<(Bmp.FileHeader, Bmp.InfoHeader)>)
    ensures |hs| == |ws|
    ensures forall i :: 0 <= i < |ws| ==> hs[i] == ResourceHeaders(ws[i])
  {
    seq(|ws|, i requires 0 <= i < |ws| => ResourceHeaders(ws[i]))
  }

  /** One step of the directory loop: entry i starts after the first i
      resources, and the running offset grows by icon i's bytes_in_res. */
  lemma DirectoryStep(ws: seq<int>, i: nat, entries: seq<IconDirEntry>,
                      headers: seq<(Bmp.FileHeader, Bmp.InfoHeader)>, offset: int)
    requires i < |ws|
    requires offset == ICO_HEADER_SIZE + DIR_ENTRY_SIZE * |ws| + ResourcesTotal(ws[..i])
    requires entries == Directory(ws)[..i]
    requires headers == HeaderList(ws)[..i]
    ensures offset + (ws[i] * ws[i] * 4 + BMP_HEADER_SIZE)
      == ICO_HEADER_SIZE + DIR_ENTRY_SIZE * |ws| + ResourcesTotal(ws[..i + 1])
    ensures entries + [EntryFor(ws[i], offset)] == Directory(ws)[..i + 1]
    ensures headers + [ResourceHeaders(ws[i])] == HeaderList(ws)[..i + 1]
  {
    TotalStep(ws, i);
    AppendNext(Directory(ws), i);
    AppendNext(HeaderList(ws), i);
  }

  lemma TotalStep(ws: seq<int>, i: nat)
    requires i < |ws|
    ensures ResourcesTotal(ws[..i + 1]) == ResourcesTotal(ws[..i]) + ResourceSize(ws[i])
  {
    assert ws[..i + 1][..i] == ws[..i];
  }

  /** Consecutive icons: the next one starts where this one's data ends. */
  lemma NextOffset(ws: seq<int>, i: nat)
    requires i + 1 < |ws|
    ensures Directory(ws)[i + 1].offset == Directory(ws)[i].offset + Directory(ws)[i].size
  {
    var base := ICO_HEADER_SIZE + DIR_ENTRY_SIZE * |ws|;
    assert Directory(ws)[i + 1].offset == base + ResourcesTotal(ws[..i + 1]);
    assert ws[..i + 1][..i] == ws[..i];
  }

  /** The bytes an icon's resource occupies in the file: its BMP header and
      its pixel rows. They match its bytes_in_res exactly when the icon is
      square (or empty). */
  lemma ResourceSizeMatches(r: Raster)
    requires WellFormed(r)
    ensures BMP_HEADER_SIZE + |PixelData(r)| == ResourceSize(r.width)
      <==> r.width == 0 || r.height == r.width
  {
    SquareArea(r.width, r.height);
  }

  /** h rows of 4w bytes hold w * w * 4 bytes only for w == 0 or h == w. */
  lemma SquareArea(w: nat, h: nat)
    ensures h * RowLength(w) == w * w * 4 <==> w == 0 || h == w
  {
    if w > 0 && h < w {
      MulMonotone(h + 1, w, 4 * w);
    } else if w > 0 && h > w {
      MulMonotone(w + 1, h, 4 * w);
    }
  }

  /** The values of a list of images. */
  function Views(images: seq<Image>): (rs: seq<Raster>)
    reads set i | 0 <= i < |images| :: images[i]
    requires forall i :: 0 <= i < |images| ==> images[i].Valid()
    ensures |rs| == |images|
    ensures forall i :: 0 <= i < |images| ==> rs[i] == images[i].View()
    ensures forall i :: 0 <= i < |images| ==> WellFormed(rs[i])
  {
    assert forall i :: 0 <= i < |images| ==> images[i].Valid() && WellFormed(images[i].View());
    seq(|images|, i requires 0 <= i < |images| reads set j | 0 <= j < |images| :: images[j] =>
      images[i].View())
  }

  function Widths(rs: seq<Raster>): (ws: seq<int>)
    ensures |ws| == |rs|
  {
    seq(|rs|, i requires 0 <= i < |rs| => rs[i].width)
  }

  /** The icons' resources: BMP headers and rows. */
  function Resources(rs: seq<Raster>): (res: seq<IcoResource>)
    requires forall i :: 0 <= i < |rs| ==> WellFormed(rs[i])
    ensures |res| == |rs|
  {
    seq(|rs|, i requires 0 <= i < |rs| =>
      var hs := ResourceHeaders(rs[i].width);
      IcoResource(hs.0, hs.1, PixelData(rs[i])))
  }

  /** The file SaveImageICO writes for a list of icons. */
  function IconFile(rs: seq<Raster>): (f: IcoFile)
    requires forall i :: 0 <= i < |rs| ==> WellFormed(rs[i])
    ensures |f.entries| == |f.resources| == |rs|
  {
    IcoFile(IcoHeader(0, 1, Wrap16(|rs|)), Directory(Widths(rs)), Resources(rs))
  }

  /** SaveImageICO: the create failure throws; the list of resized icons is
      left empty (the Resize calls are commented out), so the file is the
      header of an empty directory, whatever the image. */
  function Save(path: string, isOpen: bool, r: Raster): (f: Result<IcoFile>)
  {
    if !isOpen then Throw(RuntimeError("Failed to create ICO file: " + path)) else Ok(IconFile([]))
  }

  /** What SaveImageICO writes, LoadImageICO refuses: the header announces
      no images, whatever the directory entry and rows read after it. */
  lemma SavedIconRejected(path: string, r: Raster, entry: IconDirEntry, rows: seq<Byte>)
    ensures Save(path, true, r).Ok?
    ensures Load(IcoInput(path, true, Save(path, true, r).value.header, entry, rows))
      == Throw(RuntimeError("The ICO file does not contain images"))
  {
  }

  /** A header the saver would write for at least one icon passes the
      loader's header checks. */
  lemma SavedHeaderAccepted(rs: seq<Raster>)
    requires forall i :: 0 <= i < |rs| ==> WellFormed(rs[i])
    requires 0 < |rs| < 0x1_0000
    ensures var h := IconFile(rs).header; h.reserved == 0 && h.iconType == 1 && h.count == |rs|
  {
  }

  /** One turn of the loader's outer loop. */
  lemma LoadStep(rows: seq<Byte>, w: nat, h: nat, s: nat, y: nat, pos: nat, start: nat, row: seq<Byte>,
                 pixels: seq<Color>, deep: bool)
    requires 0 < w && y < h && start == y * w && DecodedLength(w, deep) <= s
    requires pos == (h - 1 - y) * s && pos + s <= |rows|
    requires row == rows[pos..pos + s]
    requires pixels == Concat(PartlyLoaded(rows, w, h, s, y, deep))
    ensures start + w <= |pixels|
    ensures pixels[..start] + DecodeBgra(row, w, deep) + pixels[start + w..]
      == Concat(PartlyLoaded(rows, w, h, s, y - 1, deep))
  {
    var lines := PartlyLoaded(rows, w, h, s, y, deep);
    var newLine := LoadedRow(rows, w, h, s, y, deep);
    ConcatSlice(lines, w, y);
    LoadedRowAt(rows, w, h, s, y, pos, deep);
    var next := PartlyLoaded(rows, w, h, s, y - 1, deep);
    assert next == lines[y := newLine] by {
      forall k | 0 <= k < h ensures next[k] == lines[y := newLine][k] {
      }
    }
    ConcatUpdate(lines, w, y, newLine);
  }

  /** Before the loop every row is still Black: the Black-filled image. */
  lemma NothingLoaded(rows: seq<Byte>, w: nat, h: nat, s: nat, deep: bool)
    requires DecodedLength(w, deep) <= s
    ensures Concat(PartlyLoaded(rows, w, h, s, h - 1, deep)) == Fill(Black(), w * h)
  {
    ConcatFill(Black(), w, h);
    assert h * w == w * h;
    assert PartlyLoaded(rows, w, h, s, h - 1, deep) == Fill(Fill(Black(), w), h);
  }

  /** The read position before and after stored row h-1-y. */
  lemma StepArith(h: int, y: int, s: nat)
    requires 0 <= y < h
    ensures 0 <= (h - 1 - y) * s
    ensures (h - 1 - y) * s + s == (h - y) * s <= h * s
  {
    MulMonotone(h - y, h, s);
  }

  /** The loader's per-pixel loop on one row, through the pointer GetLine
      returned: every channel of the width pixels from start on is set. */
  method DecodeRowInto(image: Image, start: nat, row: seq<Byte>, deep: bool)
    requires image.Valid() && start + image.width <= |image.pixels|
    requires DecodedLength(image.width, deep) <= |row|
    modifies image
    ensures image.Valid() && image.width == old(image.width) && image.height == old(image.height)
    ensures image.pixels == old(image.pixels)[..start]
      + DecodeBgra(row, image.width, deep) + old(image.pixels)[start + image.width..]
  {
    ghost var before := image.pixels;
    var w := image.width;
    var x := 0;
    while x < w
      invariant 0 <= x <= w
      invariant image.Valid() && image.width == w && image.height == old(image.height)
      invariant |image.pixels| == |before|
      invariant forall k :: 0 <= k < |before| && !(start <= k < start + x) ==> image.pixels[k] == before[k]
      invariant forall j :: 0 <= j < x ==>
        image.pixels[start + j] == Color(row[4 * j + 2], row[4 * j + 1], row[4 * j],
                                         if deep then row[4 * j + 3] else 255)
    {
      var alpha := if deep then row[x * 4 + 3] else 255;
      image.Store(start + x, Color(row[x * 4 + 2], row[x * 4 + 1], row[x * 4 + 0], alpha));
      x := x + 1;
    }
    var expected := before[..start] + DecodeBgra(row, w, deep) + before[start + w..];
    forall k | 0 <= k < |before|
      ensures image.pixels[k] == expected[k]
    {
      if start <= k < start + w {
        assert image.pixels[start + (k - start)] == image.pixels[k];
      }
    }
    assert image.pixels == expected;
  }

  /** The outer loop of LoadImageICO over a Black-filled image, reading
      rows of s bytes: true once every stored row is in, false at a short
      read. */
  method ReadRows(image: Image, rows: seq<Byte>, s: nat, deep: bool) returns (complete: bool)
    requires image.Valid() && 0 < image.width && DecodedLength(image.width, deep) <= s
    requires image.pixels == Concat(PartlyLoaded(rows, image.width, image.height, s, image.height - 1, deep))
    modifies image
    ensures image.Valid() && image.width == old(image.width) && image.height == old(image.height)
    ensures complete <==> image.height * s <= |rows|
    ensures complete ==> LoadRows(rows, image.width, image.height, s, deep) == image.View()
  {
    var w, h := image.width, image.height;
    var pos := 0;
    var y := h - 1;
    while y >= 0
      invariant -1 <= y < h
      invariant pos == (h - 1 - y) * s && 0 <= pos <= |rows|
      invariant image.Valid() && image.width == w && image.height == h
      invariant image.pixels == Concat(PartlyLoaded(rows, w, h, s, y, deep))
    {
      StepArith(h, y, s);
      if |rows| < pos + s {
        assert |rows| < h * s;
        return false;
      }
      var start := image.GetLine(y).value;
      var row := rows[pos..pos + s];
      LoadStep(rows, w, h, s, y, pos, start, row, image.pixels, deep);
      DecodeRowInto(image, start, row, deep);
      pos := pos + s;
      y := y - 1;
    }
    assert pos == h * s;
    ConcatLength(PartlyLoaded(rows, w, h, s, -1, deep), w);
    assert LoadRows(rows, w, h, s, deep) == Raster(w, h, Concat(PartlyLoaded(rows, w, h, s, -1, deep)));
    return true;
  }

  /** The image LoadImageICO builds for an icon whose header passed: the
      Black w x h image filled by the row loop, or the empty image when a
      read comes up short. */
  method ReadIcon(w: nat, h: nat, rows: seq<Byte>, s: nat, deep: bool) returns (image: Image)
    requires 0 < w && DecodedLength(w, deep) <= s
    ensures fresh(image) && image.Valid() && image.View() == LoadRows(rows, w, h, s, deep)
  {
    image := new Image.Filled(w, h, Black());
    NothingLoaded(rows, w, h, s, deep);
    var complete := ReadRows(image, rows, s, deep);
    if !complete {
      image := new Image();
    }
  }

  /** LoadImageICO, each row read as the 4 * width bytes it is stored in. */
  method LoadImageICO(input: IcoInput) returns (r: Result<Image>)
    ensures r.Throw? ==> Load(input) == Throw(r.error)
    ensures r.Ok? ==> fresh(r.value) && r.value.Valid() && Load(input) == Ok(r.value.View())
  {
    var header := Header(input);
    if header.Throw? {
      return Throw(header.error);
    }
    var (width, height, deep) := header.value;
    var image := ReadIcon(width, height, input.rows, RowLength(width), deep);
    return Ok(image);
  }

  /** LoadImageICO as written, each row read as width * height bytes; None
      where decoding would read past the row buffer. */
  method LoadImageICOAsWritten(input: IcoInput) returns (r: Option<Result<Image>>)
    ensures r.None? <==> LoadAsWritten(input).None?
    ensures r.Some? && r.value.Throw? ==> LoadAsWritten(input) == Some(Throw(r.value.error))
    ensures r.Some? && r.value.Ok? ==>
      fresh(r.value.value) && r.value.value.Valid()
      && LoadAsWritten(input) == Some(Ok(r.value.value.View()))
  {
    var header := Header(input);
    if header.Throw? {
      return Some(Throw(header.error));
    }
    var (width, height, deep) := header.value;
    var s := AsWrittenRowLength(width, height);
    if s < DecodedLength(width, deep) {
      if |input.rows| < s {
        var empty := new Image();
        return Some(Ok(empty));
      }
      return None;
    }
    var image := ReadIcon(width, height, input.rows, s, deep);
    return Some(Ok(image));
  }

  /** The x loop of SaveImageICO on line y: B, G, R, A of every pixel,
      read through GetPixel. */
  method EncodeLine(image: Image, y: int) returns (bytes: seq<Byte>)
    requires image.Valid() && 0 <= y < image.height
    ensures bytes == EncodeBgra(Rows(image.View())[y])
  {
    var w := image.GetWidth();
    ghost var line := Rows(image.View())[y];
    RowAt(image.View(), y);
    bytes := [];
    var x := 0;
    while x < w
      invariant 0 <= x <= w
      invariant bytes == EncodeBgra(line[..x])
    {
      var pixel := image.GetPixel(x, y).value;
      assert pixel == line[x];
      EncodeBgraAppend(line[..x], pixel);
      assert line[..x + 1] == line[..x] + [pixel];
      bytes := bytes + [pixel.b, pixel.g, pixel.r, pixel.a];
      x := x + 1;
    }
    assert line[..w] == line;
  }

  /** Encoding one more pixel appends its four bytes. */
  lemma EncodeBgraAppend(line: seq<Color>, c: Color)
    ensures EncodeBgra(line + [c]) == EncodeBgra(line) + [c.b, c.g, c.r, c.a]
  {
    var whole, parts := EncodeBgra(line + [c]), EncodeBgra(line) + [c.b, c.g, c.r, c.a];
    forall j | 0 <= j < |whole|
      ensures whole[j] == parts[j]
    {
      if j >= 4 * |line| {
        assert j / 4 == |line|;
      }
    }
  }

  /** The y loop of SaveImageICO for one icon: lines from the bottom up. */
  method EncodePixels(image: Image) returns (data: seq<Byte>)
    requires image.Valid()
    ensures data == PixelData(image.View())
  {
    ghost var stored := StoredRows(image.View());
    var h := image.GetHeight();
    data := [];
    var y := h - 1;
    while y >= 0
      invariant -1 <= y < h
      invariant data == Concat(stored[..h - 1 - y])
    {
      var line := EncodeLine(image, y);
      assert line == stored[h - 1 - y];
      assert stored[..h - y] == stored[..h - 1 - y] + [line];
      ConcatAppend(stored[..h - 1 - y], [line]);
      assert Concat([line]) == line + Concat([line][1..]);
      data := data + line;
      y := y - 1;
    }
    assert stored[..h] == stored;
  }

  /** The widths of some icons, read off the objects themselves. */
  function ImageWidths(images: seq<Image>): (ws: seq<int>)
    reads set i | 0 <= i < |images| :: images[i]
    ensures |ws| == |images|
    ensures forall i :: 0 <= i < |images| ==> ws[i] == images[i].width
  {
    seq(|images|, i requires 0 <= i < |images| reads set j | 0 <= j < |images| :: images[j] => images[i].width)
  }

  /** Read off the objects or off their views, the widths agree. */
  lemma ViewWidths(images: seq<Image>)
    requires forall i :: 0 <= i < |images| ==> images[i].Valid()
    ensures ImageWidths(images) == Widths(Views(images))
  {
  }

  /** The first loop of SaveImageICO: one entry and one pair of BMP
      headers per icon, the offset advancing by each icon's bytes_in_res. */
  method DirectoryOf(images: seq<Image>) returns (entries: seq<IconDirEntry>,
                                                  headers: seq<(Bmp.FileHeader, Bmp.InfoHeader)>)
    ensures entries == Directory(ImageWidths(images))
    ensures |headers| == |images|
    ensures forall i :: 0 <= i < |images| ==> headers[i] == ResourceHeaders(images[i].width)
  {
    ghost var ws := ImageWidths(images);
    var offset := ICO_HEADER_SIZE + DIR_ENTRY_SIZE * |images|;
    entries, headers := [], [];
    var i := 0;
    while i < |images|
      invariant 0 <= i <= |images|
      invariant offset == ICO_HEADER_SIZE + DIR_ENTRY_SIZE * |images| + ResourcesTotal(ws[..i])
      invariant entries == Directory(ws)[..i]
      invariant headers == HeaderList(ws)[..i]
    {
      var width := images[i].GetWidth();
      var bytesInRes := width * width * 4 + BMP_HEADER_SIZE;
      DirectoryStep(ws, i, entries, headers, offset);
      entries := entries + [EntryFor(width, offset)];
      headers := headers + [ResourceHeaders(width)];
      offset := offset + bytesInRes;
      i := i + 1;
    }
    assert Directory(ws)[..i] == Directory(ws);
    assert HeaderList(ws)[..i] == HeaderList(ws);
  }

  /** The last loop of SaveImageICO: each icon's BMP headers, then its rows. */
  method ResourcesOf(images: seq<Image>, headers: seq<(Bmp.FileHeader, Bmp.InfoHeader)>)
    returns (resources: seq<IcoResource>)
    requires forall i :: 0 <= i < |images| ==> images[i].Valid()
    requires |headers| == |images|
    requires forall i :: 0 <= i < |images| ==> headers[i] == ResourceHeaders(images[i].width)
    ensures resources == Resources(Views(images))
  {
    ghost var views := Views(images);
    resources := [];
    var i := 0;
    while i < |images|
      invariant 0 <= i <= |images|
      invariant resources == Resources(views)[..i]
    {
      var data := EncodePixels(images[i]);
      resources := resources + [IcoResource(headers[i].0, headers[i].1, data)];
      i := i + 1;
    }
  }

  /** SaveImageICO's loops over a list of icons. */
  method WriteIcons(images: seq<Image>) returns (f: IcoFile)
    requires forall i :: 0 <= i < |images| ==> images[i].Valid()
    ensures f == IconFile(Views(images))
  {
    var header := IcoHeader(0, 1, Wrap16(|images|));
    var entries, headers := DirectoryOf(images);
    ViewWidths(images);
    var resources := ResourcesOf(images, headers);
    f := IcoFile(header, entries, resources);
  }

  /** SaveImageICO. */
  method SaveImageICO(path: string, isOpen: bool, image: Image) returns (f: Result<IcoFile>)
    requires image.Valid()
    ensures f == Save(path, isOpen, image.View())
  {
    if !isOpen {
      return Throw(RuntimeError("Failed to create ICO file: " + path));
    }
    var images: seq<Image> := [];
    var written := WriteIcons(images);
    return Ok(written);
  }
}
