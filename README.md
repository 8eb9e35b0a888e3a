# ImgConv in Dafny

A model of the ImgConv command-line image converter. `imgconv <input> <output>`
chooses a reader by the input file's extension, loads an `Image`, chooses a writer
by the output file's extension and saves the image. The model covers:

- the `Color` value type and the `Image` pixel buffer (`include/image.h`,
  `src/image.cpp`);
- the row codecs and header checks of the BMP, PPM (P3 and P6), ICO, JPEG, PNG and
  GIF formats;
- the SVG markup builders and the `SVG`, `G` and `Defs` accumulators;
- the format dispatch and exit codes of `src/main.cpp`.

Files are read and written as values: a loader takes what the file contains, and a
saver returns what it would write. The image libraries (libjpeg, libpng, giflib) are
represented by the data they hand over or are handed. For JPEG that is the
decompressed scanlines, for PNG the decoded RGBA rows, for GIF the slurped frame.

| file | module | models |
|---|---|---|
| `wrappers.dfy` | `Wrappers` | `Option`, `Result` and `Outcome`, plus the C++ exceptions the code throws |
| `seqs.dfy` | `Seqs` | sequence helpers: fill, map, concatenation of rows, chunks |
| `colors.dfy` | `Colors` | `Color`: the constructors, `Black`, `White`, `operator+`, `operator+=` and the raw byte layout |
| `image.dfy` | `Images` | the `Image` class: its constructors and assignments, `GetPixel`, `SetPixel`, `GetLine`, `GetData`, `CheckBounds`, `operator bool` |
| `text.dfy` | `Text` | decimal text as `operator<<` writes an int, and the tokens `operator>>` reads |
| `rgb_rows.dfy` | `RgbRows` | the R, G, B triple layout shared by P6 and JPEG |
| `bmp.dfy` | `Bmp` | 24-bit BMP: the stride, bottom-up rows in B, G, R order, both headers |
| `ppm.dfy` | `Ppm` | PPM dispatch, LoadP3, LoadP6, SaveP3 and SaveP6 |
| `ico.dfy` | `Ico` | ICO: the header and directory checks, B, G, R, A rows, the saver's directory and resources |
| `jpeg.dfy` | `Jpeg` | the scanline copy into the image, and the packing of scanlines for the compressor |
| `png.dfy` | `Png` | the row pointers into the pixel vector, and the interleaved rows handed to libpng |
| `gif.dfy` | `Gif` | the palette lookup of the first frame, and the `SaveImageGIF` stub |
| `svg.dfy` | `Svg` | the element builders and the SVG/G/Defs accumulators, with a reader of their markup as the partner |
| `formats.dfy` | `Formats` | `path::extension`, `GetFormatByExtension`, `LoadImage`, `SaveImage`, `main` |

Integer conventions:

- A `uint8_t` channel is an `int` in 0..255 (`Colors.Byte`).
- A cast to `uint8_t` is `Colors.Wrap8` (reduction modulo 256), and a cast to
  `uint16_t` is `Ico.Wrap16`.
- C++ division truncates toward zero, which `Bmp.Quot` models.

Every loader and saver is written twice:

- a function of the file's contents, for example `Bmp.Load` and `Bmp.Save`;
- a method over the `Image` class that runs the source's loops, for example
  `Bmp.LoadImageBMP` and `Bmp.SaveImageBMP`.

Each method is proved equal to its function. Each format's round trip and
invariants are then proved about the functions. For ICO the round trip is about
the row loop only: the loader skips the icon's whole resource as the
`entry.size` block before its first row read, and the saver's header announces
no images (`Ico.SavedIconRejected`), so no file the saver writes loads back.

Two more modelling choices:

- A negative width or height read from a header: a `std::vector` of negative size
  throws `length_error`. That is the pixel vector of `Image(w, h, fill)` when
  `w * h` is negative, and the row buffers of BMP (a negative stride) and P6 (a
  negative width). The model throws `LengthError` exactly there. Otherwise the
  source skips its row loop, and the model returns the empty image.
- An `Image` with rows but no columns makes `GetLine` throw `out_of_range` on its
  first row. The loaders and savers that call `GetLine` carry that error too.

## Model

| member | source | states |
|---|---|---|
| `Colors.Wrap8` | include/image.h:49-58 | a `uint8_t` cast is the identity on 0..255 |
| `Colors.Rgb` | include/image.h:19-21 | the three-channel constructor makes an opaque colour |
| `Colors.Black` | include/image.h:23-26 | `Black()` is the opaque colour with channels 0, 0, 0 |
| `Colors.White` | include/image.h:28-31 | `White()` is the opaque colour with channels 255, 255, 255 |
| `Colors.AddCommutative` | include/image.h:49-58 | `operator+` is commutative |
| `Colors.AddZeroIdentity` | include/image.h:49-58 | the all-zero `Color()` is a neutral element of `operator+` on both sides |
| `Colors.AddAssociative` | include/image.h:49-58 | `operator+` is associative, because each channel wraps modulo 256 |
| `Colors.OpaqueSumAlpha` | include/image.h:49-58 | the sum of two opaque colours has alpha 254, not 255: alpha wraps like the colour channels |
| `Colors.ToBytes` | src/image.cpp:100-107 | the raw memory of a `Color` vector holds four bytes per pixel |
| `Colors.ToBytesAt` | src/image.cpp:100-107 | bytes 4i to 4i+3 of that memory are pixel i's r, g, b, a |
| `Colors.FromBytes` | src/image.cpp:100-107 | reading bytes as a `Color` vector yields one pixel per four bytes |
| `Colors.BytesRoundTrip` | src/image.cpp:100-107 | reading a vector's own bytes back as pixels gives the same vector |
| `Colors.ColorCell.constructor` | include/image.h:19-21 | a `Color` object starts with the given channels |
| `Colors.ColorCell.AddAssign` | include/image.h:60-67 | `+=` leaves the object holding the `operator+` sum of its old value and the other operand |
| `Images.Rows` | include/image.h:116-120 | the pixel vector is `height` rows of `width` pixels each |
| `Images.OpaqueRaster` | src/bmp_image.cpp:54-59 | forcing alpha to 255 keeps the size, and keeps every pixel's r, g and b |
| `Images.IndexInBounds` | src/image.cpp:46-56 | an in-bounds (x, y) addresses an element of the w × h vector |
| `Images.Offset` | src/image.cpp:46-56 | pixel (x, y) sits at index y × w + x, below w × h |
| `Images.RowFits` | src/image.cpp:73-83 | row y ends within the vector |
| `Images.IndexInjective` | src/image.cpp:58-61 | two in-bounds coordinates that address the same index are equal |
| `Images.UpdateKeepsOthers` | src/image.cpp:58-61 | writing pixel (x, y) leaves every other pixel unchanged |
| `Images.RowAt` | src/image.cpp:73-83 | row y is the slice of the vector that starts at y × width |
| `Images.RowsConcat` | include/image.h:116-120 | the vector is its rows laid end to end |
| `Images.Image.constructor` | include/image.h:74 | `Image()` is empty (0 × 0, step 0) and converts to false |
| `Images.Image.Sized` | src/image.cpp:5 | `Image(w, h)` holds w × h all-zero pixels |
| `Images.Image.Filled` | src/image.cpp:7 | `Image(w, h, fill)` holds w × h copies of fill |
| `Images.Image.Copy` | src/image.cpp:9 | the copy constructor has the other image's value |
| `Images.Image.Move` | src/image.cpp:11-16 | the move constructor takes the other image's value and leaves the other image empty |
| `Images.Image.CopyAssign` | src/image.cpp:18-28 | copy assignment takes the other image's value, and self-assignment changes nothing |
| `Images.Image.MoveAssign` | src/image.cpp:30-44 | move assignment takes the value and empties the source, and self-move changes nothing |
| `Images.Image.IsTruthy` | include/image.h:84-87 | `operator bool` holds exactly when the vector is non-empty |
| `Images.Image.IsFalsy` | include/image.h:89-92 | `operator!` is the negation of `operator bool` |
| `Images.Image.GetStep` | src/image.cpp:85-98 | the step always equals the width |
| `Images.Image.CheckBounds` | src/image.cpp:148-154 | it passes exactly when 0 ≤ x < width and 0 ≤ y < height, and otherwise throws `out_of_range` with its message |
| `Images.Image.GetPixel` | src/image.cpp:46-56 | it returns pixel y × step + x exactly when CheckBounds passes, and otherwise throws |
| `Images.Image.SetPixel` | src/image.cpp:58-61 | it writes pixel (x, y), after which GetPixel(x, y) reads c, and every other pixel is unchanged |
| `Images.Image.GetLine` | src/image.cpp:73-83 | it succeeds exactly when width > 0 and 0 ≤ y < height, and then points at row y |
| `Images.Image.LineAgreesWithPixel` | src/image.cpp:73-83 | reading x past the pointer GetLine returns agrees with GetPixel(x, y) |
| `Images.Image.Store` | src/image.cpp:73-83 | a store through a line pointer changes that one pixel |
| `Images.Image.AssignPixels` | src/image.cpp:63-71 | assigning through `GetPixels()` replaces the vector and keeps the dimensions |
| `Images.Image.GetData` | src/image.cpp:100-107 | it is null exactly for an empty vector, and otherwise it is the vector's bytes, which read back as the pixels |
| `Text.DigitChar` | src/ppm_image.cpp:194 | a digit written by `operator<<` is a digit character |
| `Text.DigitValue` | src/ppm_image.cpp:146-148 | a digit character read by `operator>>` has a value from 0 to 9 |
| `Text.NatDecimal` | src/ppm_image.cpp:194 | a non-negative int is written as a non-empty run of digits |
| `Text.Decimal` | src/ppm_image.cpp:194 | a written int is non-empty and contains no whitespace |
| `Text.NatDecimalRoundTrip` | src/ppm_image.cpp:146-148 | a run of digits written for n reads back as n |
| `Text.DecimalRoundTrip` | src/ppm_image.cpp:146-148 | what `operator<<` writes for any int, `operator>>` reads back |
| `Text.TokenLength` | src/ppm_image.cpp:140 | a token is the longest non-space prefix |
| `Text.TokensOfWord` | src/ppm_image.cpp:140-148 | a word followed by whitespace reads as one token, and reading continues after it |
| `RgbRows.PackRgb` | src/ppm_image.cpp:204-209 | packing yields three bytes per pixel |
| `RgbRows.PackRgbAt` | src/ppm_image.cpp:204-209 | pixel i occupies bytes 3i, 3i+1 and 3i+2 as r, g, b |
| `RgbRows.PackRgbAppend` | src/ppm_image.cpp:200-215 | packing two runs of pixels packs each run in order |
| `RgbRows.UnpackRgb` | src/ppm_image.cpp:173-178 | unpacking keeps the number of pixels and every pixel's alpha |
| `RgbRows.RgbRoundTrip` | src/ppm_image.cpp:173-178 | unpacking packed pixels into Black restores r, g and b and leaves alpha 255 |
| `RgbRows.PackUnpack` | src/ppm_image.cpp:173-178 | packing the unpacked pixels gives back the bytes that were read |
| `RgbRows.UnpackStep` | src/ppm_image.cpp:163-179 | decoding one more row extends the pixels decoded so far |
| `RgbRows.PackRgbInto` | src/ppm_image.cpp:204-209 | the pack loop fills the buffer with exactly the packed line |
| `Bmp.Quot` | src/bmp_image.cpp:7-13 | C++ `/` on int truncates toward zero: the remainder `a - q*b` is smaller than `b` in size and has the sign of `a` |
| `Bmp.QuotTruncates` | src/bmp_image.cpp:7-13 | -3 / 4 is 0 and -6 / 4 is -1 under truncation, where Euclidean division gives -1 and -2 |
| `Bmp.StrideBounds` | src/bmp_image.cpp:7-13 | the stride is a multiple of 4 from 3w up to 3w + 3 |
| `Bmp.NegativeStride` | src/bmp_image.cpp:7-13 | for a negative width the stride is 0 at -1 and -2, and negative from -3 down |
| `Bmp.EncodeRow` | src/bmp_image.cpp:114-133 | a stored row is one stride long, and its padding is zeros |
| `Bmp.EncodeRowAt` | src/bmp_image.cpp:117-122 | pixel x occupies bytes 3x to 3x+2 as b, g, r |
| `Bmp.DecodeRow` | src/bmp_image.cpp:54-59 | decoding a row yields one pixel per pixel of the line |
| `Bmp.RowRoundTrip` | src/bmp_image.cpp:54-59 | a saved row decodes into Black as the line with alpha 255 |
| `Bmp.LoadedRow` | src/bmp_image.cpp:44-60 | a loaded image row is `width` pixels long |
| `Bmp.LoadedRowAt` | src/bmp_image.cpp:44-60 | image row y comes from stored row h-1-y, because rows are stored bottom-up |
| `Bmp.PartlyLoaded` | src/bmp_image.cpp:44-60 | during the loop the image keeps its shape: h rows of w pixels |
| `Bmp.NegativeDimensions` | src/bmp_image.cpp:37-44 | with a negative dimension the load throws `length_error` exactly when width × height is negative or the width is -3 or less, and otherwise gives an image without pixels |
| `Bmp.SaveHeaders` | src/bmp_image.cpp:80-98 | the headers carry "BM", 24 bits, no compression, the size, stride × height image bytes, and a consistent file size and data offset |
| `Bmp.StoredRows` | src/bmp_image.cpp:114-133 | the saver writes height rows, each one stride long |
| `Bmp.LoadedRowOfSaved` | src/bmp_image.cpp:44-60 | loading stored row h-1-y of a saved image gives image row y with alpha 255 |
| `Bmp.SaveLoadRoundTrip` | src/bmp_image.cpp:15-137 | LoadImageBMP reads back what SaveImageBMP wrote: same size, same r, g, b, alpha 255 |
| `Bmp.LoadStep` | src/bmp_image.cpp:44-60 | one turn of the row loop loads one more row |
| `Bmp.NothingLoaded` | src/bmp_image.cpp:42 | before the loop the image is all Black |
| `Bmp.LoadComplete` | src/bmp_image.cpp:44-64 | a loader that gets past every row returns the fully decoded image |
| `Bmp.ZeroWidthThrows` | src/bmp_image.cpp:44-52 | a zero-width image with rows makes the loader throw the `out_of_range` of GetLine on its first row |
| `Bmp.ShortRead` | src/bmp_image.cpp:46-50 | a body that runs out before a row gives the empty image |
| `Bmp.DecodeRowInto` | src/bmp_image.cpp:54-59 | the pixel loop overwrites exactly one row's pixels, with their decoding |
| `Bmp.ReadRow` | src/bmp_image.cpp:44-60 | one turn of the loop fails exactly when the width is 0, and otherwise loads one more row |
| `Bmp.ReadRows` | src/bmp_image.cpp:44-60 | the loop's outcome is the outcome of the model of the loader's body |
| `Bmp.LoadRows` | src/bmp_image.cpp:38-64 | the image allocation and the row loop agree with the model of the body |
| `Bmp.LoadImageBMP` | src/bmp_image.cpp:15-64 | the loader throws or returns exactly what `Bmp.Load` gives for the file, including `length_error` for a negative pixel count or stride |
| `Bmp.EncodeRowInto` | src/bmp_image.cpp:117-126 | the row buffer holds exactly the encoded line |
| `Bmp.SaveStep` | src/bmp_image.cpp:114-133 | each turn of the save loop appends the encoding of line y |
| `Bmp.EncodeRows` | src/bmp_image.cpp:114-133 | the loop throws exactly for a zero-width image with rows, and otherwise writes every stored row |
| `Bmp.SaveImageBMP` | src/bmp_image.cpp:66-137 | the saver writes exactly what `Bmp.Save` gives |
| `Ppm.LoaderFor` | src/ppm_image.cpp:19-31 | "P3" selects LoadP3 and "P6" selects LoadP6, each exactly, and anything else throws "Unsupported PPM format" |
| `Ppm.SaverFor` | src/ppm_image.cpp:36-52 | ".p3" selects SaveP3 and ".ppm" selects SaveP6, each exactly, and anything else throws |
| `Ppm.P3Pixels` | src/ppm_image.cpp:77-89 | LoadP3 stores one pixel per three samples, each with alpha 255 |
| `Ppm.P3AgreesWithP6` | src/ppm_image.cpp:77-89 | with enough samples, P3 decodes the same bytes as P6 does |
| `Ppm.HeaderTokens` | src/ppm_image.cpp:194 | the written header splits into magic, width, height and maxval |
| `Ppm.ThreeWords` | src/ppm_image.cpp:146-148 | three words, each with its separator, read as those three tokens |
| `Ppm.P6HeaderReadsBack` | src/ppm_image.cpp:140-158 | the P6 header reads back as "P6", the width, the height and 255, and ends in the newline LoadP6 checks for |
| `Ppm.P6RoundTrip` | src/ppm_image.cpp:126-218 | LoadP6 reads back what SaveP6 wrote, with alpha 255 |
| `Ppm.UnpackRowInto` | src/ppm_image.cpp:173-178 | the pixel loop overwrites r, g and b of one row from the buffer |
| `Ppm.P6RowStep` | src/ppm_image.cpp:163-179 | one more row read extends the decoded prefix |
| `Ppm.ReadP6Row` | src/ppm_image.cpp:163-179 | it throws exactly for width 0, it stops at a short read, and otherwise it decodes one more row |
| `Ppm.ReadP6Rows` | src/ppm_image.cpp:163-179 | the loop decodes width × height pixels when the data suffices, and otherwise stops |
| `Ppm.LoadP6` | src/ppm_image.cpp:126-183 | LoadP6 throws or returns exactly what the model of the file gives |
| `Ppm.ReadP3Run` | src/ppm_image.cpp:80-88 | the x loop stores the next pixels read from the samples |
| `Ppm.ReadP3Row` | src/ppm_image.cpp:77-89 | a row fails exactly for width 0, and otherwise stores the next row |
| `Ppm.ReadP3Pixels` | src/ppm_image.cpp:77-89 | the loops store every pixel in row-major order |
| `Ppm.LoadP3` | src/ppm_image.cpp:54-93 | LoadP3 throws or returns exactly what the model of the file gives |
| `Ppm.NegativeDimensions` | src/ppm_image.cpp:54-183 | with a negative dimension LoadP3 throws exactly when width × height is negative, and LoadP6 also when the width is; otherwise neither reads a pixel |
| `Ppm.LoadImagePPM` | src/ppm_image.cpp:7-34 | the dispatcher throws or returns exactly what the model of the file gives |
| `Ppm.PackInto` | src/ppm_image.cpp:204-209 | a line packed into the buffer |
| `Ppm.PackP6Rows` | src/ppm_image.cpp:200-215 | the loop throws exactly for a zero-width image with rows, and otherwise writes the whole image packed |
| `Ppm.SaveP6` | src/ppm_image.cpp:185-218 | SaveP6 writes exactly what the model gives |
| `Ppm.SaversFailAlike` | src/ppm_image.cpp:95-218 | SaveP3 and SaveP6 succeed on the same images and, past the open, fail with the same `out_of_range` |
| `Ppm.SaveP3` | src/ppm_image.cpp:95-124 | SaveP3 throws or succeeds exactly as `Ppm.WriteP3` gives: the create failure with its path, `out_of_range` through GetLine for a zero width with rows |
| `Ppm.SaveImagePPM` | src/ppm_image.cpp:36-52 | ".p3" saves as SaveP3 does, ".ppm" as SaveP6 does, and an unknown extension throws |
| `Jpeg.ScanlinePixels` | src/jpeg_image.cpp:28-36 | pixel x of a scanline comes from samples 3x to 3x+2, with alpha 255 |
| `Jpeg.Load` | src/jpeg_image.cpp:38-93 | a loaded image is well-formed |
| `Jpeg.Save` | src/jpeg_image.cpp:95-146 | `NotOpened` (the C++ returns false) exactly when fopen fails; `Exited`, the process ends, exactly when the file opened and jpeg_start_compress rejects the size (zero, or above 65500); otherwise the output has the image's size and three samples per pixel |
| `Jpeg.SamplesRoundTrip` | src/jpeg_image.cpp:38-146 | for a size the compressor accepts, the samples handed to it, handed back, load as the image with alpha 255 |
| `Jpeg.CopyScanline` | src/jpeg_image.cpp:31-35 | the x loop overwrites exactly one line with the scanline's pixels |
| `Jpeg.SaveScanlineToImage` | src/jpeg_image.cpp:28-36 | it fails exactly when GetLine throws, leaving the image unchanged, and otherwise line y becomes the scanline |
| `Jpeg.ScanlineStep` | src/jpeg_image.cpp:80-86 | one more scanline extends the decoded prefix |
| `Jpeg.ReadScanlines` | src/jpeg_image.cpp:80-86 | the loop decodes every scanline, and fails exactly for a zero-width image with rows |
| `Jpeg.LoadImageJpeg` | src/jpeg_image.cpp:38-93 | the loader returns exactly what `Jpeg.Load` gives |
| `Jpeg.PackLine` | src/jpeg_image.cpp:128-139 | one turn of the loop packs line y |
| `Jpeg.PackScanlines` | src/jpeg_image.cpp:128-139 | the loop packs every line, top to bottom |
| `Jpeg.SaveImageJpeg` | src/jpeg_image.cpp:95-146 | the saver produces exactly what `Jpeg.Save` gives, the process exit included |
| `Png.FromBytesSlice` | src/png_image.cpp:91-99 | bytes 4k to 4(k+m) of the buffer are pixels k to k+m |
| `Png.DecodedRows` | src/png_image.cpp:99 | libpng delivers h rows of w pixels |
| `Png.DecodedRowAt` | src/png_image.cpp:91-99 | decoded row y is pixels yw to yw+w of the buffer |
| `Png.ChunkRow` | src/png_image.cpp:91-99 | row y of the buffer starts at byte 4yw |
| `Png.RowsLandInPlace` | src/png_image.cpp:91-106 | with row pointer y at pixel yw, the rows libpng writes fill the vector exactly as the buffer read as pixels, and only then |
| `Png.Load` | src/png_image.cpp:10-108 | a loaded image is well-formed |
| `Png.SaveOpened` | src/png_image.cpp:118-185 | once fopen has answered, the rows handed to libpng hold four bytes per pixel |
| `Png.AsWrittenCannotCreate` | src/png_image.cpp:114-122 | as written, saving to a path that does not exist reports false, while opening for writing saves the rows of an image with pixels and throws for a zero-sized one |
| `Png.AsWrittenExistingThrows` | src/png_image.cpp:114-166 | as written, saving over an existing file throws "Error during PNG write", while the corrected save writes the rows |
| `Png.AsWrittenNeverWrites` | src/png_image.cpp:114-185 | as written no save writes the image; the corrected save writes it exactly when the path opens for writing and the image has pixels |
| `Png.SaveLoadRoundTrip` | src/png_image.cpp:10-195 | with the output opened for writing, what the saver writes for an image with pixels loads back as the same image, alpha included |
| `Png.RowPointers` | src/png_image.cpp:91-97 | row pointer y points at pixel y × width |
| `Png.LoadImagePNG` | src/png_image.cpp:10-108 | the loader returns or throws exactly what `Png.Load` gives |
| `Png.InterleaveInto` | src/png_image.cpp:168-184 | the x loop writes a line's bytes at the offset and nothing else |
| `Png.InterleaveStep` | src/png_image.cpp:168-184 | one more line extends the encoded prefix |
| `Png.InterleaveRow` | src/png_image.cpp:168-184 | a row fails exactly for width 0, and otherwise encodes one more line |
| `Png.RowStarts` | src/png_image.cpp:168-184 | row i of the temporary buffer starts at i × stride |
| `Png.InterleaveRows` | src/png_image.cpp:168-184 | the loop yields the image's bytes and row pointers 4w apart, and fails exactly for a zero-width image with rows |
| `Png.SaveImagePNG` | src/png_image.cpp:110-195 | the saver returns exactly what `Png.Save` gives, including the exception png_set_IHDR raises for a zero width or height |
| `Gif.PaletteColor` | src/gif_image.cpp:33-48 | a palette colour is opaque |
| `Gif.FramePixels` | src/gif_image.cpp:33-48 | the frame yields one pixel per raster index |
| `Gif.Load` | src/gif_image.cpp:7-53 | a loaded image is well-formed |
| `Gif.LoadedFrame` | src/gif_image.cpp:7-53 | the loader accepts exactly an opened, slurped single-frame file, and pixel (x, y) is the palette entry of index y × Width + x |
| `Gif.SameIndexSameColor` | src/gif_image.cpp:33-48 | equal indices give equal colours |
| `Gif.LoadedOpaque` | src/gif_image.cpp:33-48 | a loaded GIF is fully opaque |
| `Gif.Save` | src/gif_image.cpp:55-58 | SaveImageGIF always returns false |
| `Gif.PaintRow` | src/gif_image.cpp:35-47 | the x loop paints row y |
| `Gif.PaintFrame` | src/gif_image.cpp:33-48 | the loops paint every pixel of the frame |
| `Gif.LoadImageGIF` | src/gif_image.cpp:7-53 | the loader returns or throws exactly what `Gif.Load` gives |
| `Ico.Wrap16` | src/ico_image.cpp:153 | a `uint16_t` cast is the identity on 0..65535 |
| `Ico.IconDimension` | src/ico_image.cpp:40-41 | a dimension byte means 1 to 256, where 0 means 256 |
| `Ico.DimensionRoundTrip` | src/ico_image.cpp:188-195 | the width byte the saver writes reads back as the width, for every size from 1 to 256 |
| `Ico.EncodeBgra` | src/ico_image.cpp:197-223 | a line is stored in four bytes per pixel |
| `Ico.DecodeBgra` | src/ico_image.cpp:49-87 | decoding yields w pixels, and at 24 bits every alpha is 255 |
| `Ico.EncodeBgraAt` | src/ico_image.cpp:197-223 | pixel x occupies bytes 4x to 4x+3 as b, g, r, a |
| `Ico.BgraRoundTrip` | src/ico_image.cpp:49-87 | a saved line decodes to itself at 32 bits, and to itself with alpha 255 at 24 bits |
| `Ico.DepthsAgree` | src/ico_image.cpp:49-87 | the two depths decode the same r, g and b |
| `Ico.DecodedLength` | src/ico_image.cpp:59-86 | the per-pixel loop reads the 4w bytes of a row at 32 bits, and no more than those at 24 |
| `Ico.AsWrittenUndefinedExactly` | src/ico_image.cpp:44-87 | as written, the load is undefined exactly when the icon is fewer than four rows tall, is not the 24-bit 1 × 3 icon, and its first row read succeeds |
| `Ico.AsWrittenRowOverrun` | src/ico_image.cpp:44-87 | as written, for those icons the last byte decoded, 4(w−1)+3 at 32 bits and 4(w−1)+2 at 24, lies past the width × height row buffer |
| `Ico.AsWrittenOneByThree` | src/ico_image.cpp:44-87 | a 24-bit 1 × 3 icon with 9 row bytes loads as written as the 1 × 3 image whose row y has b, g, r from bytes 3(2−y) to 3(2−y)+2 and alpha 255, while 4-byte rows run out |
| `Ico.AsWrittenOneByOne` | src/ico_image.cpp:44-66 | as written, loading a 1 × 1 32-bit icon with rows present is undefined, while the loader with 4w-byte rows accepts it |
| `Ico.LoadedRow` | src/ico_image.cpp:44-87 | with rows of s bytes, at least those decoded, a loaded row is `width` pixels long |
| `Ico.PartlyLoaded` | src/ico_image.cpp:44-87 | with rows of s bytes, at least those decoded, the image keeps its shape during the loop |
| `Ico.RowSoFar` | src/ico_image.cpp:44-87 | with rows of s bytes, at least those decoded, every row during the loop is `width` pixels long |
| `Ico.LoadRows` | src/ico_image.cpp:44-87 | for any row length s at least the bytes decoded (width × height as written, 4w corrected): fewer than h × s bytes give the empty image, and otherwise the image has the entry's size |
| `Ico.Header` | src/ico_image.cpp:9-93 | a header that passes the checks gives the entry's dimensions, 1 to 256 with 0 meaning 256, and alpha exactly at 32 bits |
| `Ico.Load` | src/ico_image.cpp:9-97 | with rows read as 4 × width bytes, a loaded image is well-formed |
| `Ico.LoadAsWritten` | src/ico_image.cpp:9-97 | as written, with rows read as width × height bytes, a loaded image is well-formed |
| `Ico.LoadersAgreeOnErrors` | src/ico_image.cpp:9-97 | both loaders throw on the same files with the same exceptions |
| `Ico.AsWrittenTall` | src/ico_image.cpp:44-87 | from four rows up the as-written loader is the row loop with width × height-byte rows, and at exactly four rows it agrees with the corrected loader |
| `Ico.LoadAccepts` | src/ico_image.cpp:9-97 | the loader accepts exactly an open file with reserved 0, type 1, at least one image and depth 24 or 32, and a complete icon has the entry's dimensions |
| `Ico.LoadedRowAt` | src/ico_image.cpp:44-87 | image row y comes from the stored row h-1-y, at byte (h-1-y) × s |
| `Ico.DepthsAgreeOnIcons` | src/ico_image.cpp:49-87 | a 24-bit icon loads as the 32-bit icon with every alpha 255 |
| `Ico.StoredRows` | src/ico_image.cpp:197-223 | the saver writes height rows of 4w bytes |
| `Ico.PixelData` | src/ico_image.cpp:197-223 | an icon's pixel data is height × 4w bytes |
| `Ico.LoadedRowOfSaved` | src/ico_image.cpp:49-66 | stored row h-1-y of the saver's pixel data decodes at 32 bits as image row y |
| `Ico.SaveLoadRoundTrip` | src/ico_image.cpp:9-227 | with 4w-byte rows, row bytes laid out as the saver's pixel loops write them, handed to the row loop, load back at 32 bits as the same image |
| `Ico.AsWrittenLosesStoredRows` | src/ico_image.cpp:9-227 | for an icon taller than four rows whose row bytes after the entry.size block are laid out as the saver's pixel loops write them, the as-written load is the empty image, and the 4w-byte-row load is the icon |
| `Ico.Directory` | src/ico_image.cpp:165-186 | the directory has one entry per icon |
| `Ico.DirectoryContiguous` | src/ico_image.cpp:163-186 | each entry's size is its icon's bytes, and each offset is the directory's end plus the earlier sizes |
| `Ico.OffsetAfterEarlier` | src/ico_image.cpp:163-186 | the running offset is the total of the earlier entries' sizes |
| `Ico.HeaderList` | src/ico_image.cpp:165-186 | the saver writes one pair of BMP headers per icon, in order |
| `Ico.DirectoryStep` | src/ico_image.cpp:165-186 | one turn of the loop appends an entry and headers, and advances the offset by the icon's bytes |
| `Ico.NextOffset` | src/ico_image.cpp:165-186 | each icon starts where the previous one ends |
| `Ico.ResourceSizeMatches` | src/ico_image.cpp:165-223 | bytes_in_res equals the bytes actually written exactly for square icons |
| `Ico.SquareArea` | src/ico_image.cpp:165-223 | h rows of 4w bytes equal w × w × 4 bytes exactly when w = 0 or h = w |
| `Ico.Resources` | src/ico_image.cpp:197-223 | one resource per icon |
| `Ico.IconFile` | src/ico_image.cpp:136-227 | the file has as many entries as resources, one per icon |
| `Ico.SavedIconRejected` | src/ico_image.cpp:145-153 | what SaveImageICO writes, LoadImageICO refuses: the header announces no images |
| `Ico.SavedHeaderAccepted` | src/ico_image.cpp:27-31 | a header written for at least one icon passes the loader's checks |
| `Ico.LoadStep` | src/ico_image.cpp:44-87 | one turn of the row loop loads one more row |
| `Ico.NothingLoaded` | src/ico_image.cpp:44 | before the loop the image is all Black |
| `Ico.DecodeRowInto` | src/ico_image.cpp:49-87 | the pixel loop overwrites exactly one row with its decoding |
| `Ico.ReadRows` | src/ico_image.cpp:44-87 | with rows of s bytes, the loop completes exactly when h × s bytes are present, and then the image is `LoadRows` |
| `Ico.ReadIcon` | src/ico_image.cpp:44-95 | the icon built for a header that passed is `LoadRows` with the given row length |
| `Ico.LoadImageICO` | src/ico_image.cpp:9-97 | with rows read as 4 × width bytes, the loader returns or throws exactly what `Ico.Load` gives |
| `Ico.LoadImageICOAsWritten` | src/ico_image.cpp:9-97 | as written, the loader returns or throws exactly what `Ico.LoadAsWritten` gives, and is undefined exactly where that is |
| `Ico.EncodeLine` | src/ico_image.cpp:197-223 | the x loop writes line y's encoding |
| `Ico.EncodePixels` | src/ico_image.cpp:197-223 | the y loop writes all the icon's pixel data, bottom line first |
| `Ico.ImageWidths` | src/ico_image.cpp:165-186 | the widths are read off the icons |
| `Ico.DirectoryOf` | src/ico_image.cpp:163-186 | the loop writes the directory and the headers of every icon |
| `Ico.ResourcesOf` | src/ico_image.cpp:197-223 | the loop writes every icon's resource |
| `Ico.WriteIcons` | src/ico_image.cpp:163-223 | the loops write the icon file for the list |
| `Ico.SaveImageICO` | src/ico_image.cpp:136-227 | the saver writes exactly what `Ico.Save` gives |
| `Svg.Find` | src/svg_image.cpp:39-44 | the reader stops at the first character in the stop set |
| `Svg.AttrsReadBack` | src/svg_image.cpp:39-44 | streamed attributes read back as themselves |
| `Svg.EmptyTagReadsBack` | src/svg_image.cpp:39-44 | a self-closing tag reads back as its name and attributes |
| `Svg.OpenTagReadsBack` | src/svg_image.cpp:186-191 | a start tag reads back as its name and attributes |
| `Svg.WrappedReadsBack` | src/svg_image.cpp:279-284 | an element with content reads back as its start tag, its text and its end tag |
| `Svg.DecimalPlain` | src/svg_image.cpp:39-44 | a streamed int contains no quote and no '=' |
| `Svg.Attrs` | src/svg_image.cpp:39-44 | a builder streams one attribute per name |
| `Svg.AttrsReadable` | src/svg_image.cpp:39-44 | streamed names and values read back as those names and values |
| `Svg.LeafReadsBack` | src/svg_image.cpp:39-44 | a leaf element reads back as its tag and its values |
| `Svg.ContentReadsBack` | src/svg_image.cpp:186-191 | an element with text reads back as its tag, its values and its text |
| `Svg.RectReadsBack` | src/svg_image.cpp:35-53 | a `Rect` reads back with x, y, width, height, fill, stroke and stroke-width, in order |
| `Svg.CircleReadsBack` | src/svg_image.cpp:56-74 | a `Circle` reads back with cx, cy, r, fill, stroke and stroke-width |
| `Svg.EllipseReadsBack` | src/svg_image.cpp:77-95 | an `Ellipse` reads back with cx, cy, rx, ry, fill, stroke and stroke-width |
| `Svg.LineReadsBack` | src/svg_image.cpp:98-116 | a `Line` reads back with x1, y1, x2, y2, stroke and stroke-width |
| `Svg.PolylineReadsBack` | src/svg_image.cpp:119-137 | a `Polyline` reads back with points, fill, stroke and stroke-width |
| `Svg.PolygonReadsBack` | src/svg_image.cpp:140-158 | a `Polygon` reads back with points, fill, stroke and stroke-width |
| `Svg.PathSvgReadsBack` | src/svg_image.cpp:161-179 | a `PathSvg` reads back with d, fill, stroke and stroke-width |
| `Svg.UseReadsBack` | src/svg_image.cpp:254-272 | a `Use` reads back with xlink:href, x and y |
| `Svg.TextReadsBack` | src/svg_image.cpp:182-200 | a `Text` reads back with its attributes, then the text verbatim and `</text>` |
| `Svg.StyleReadsBack` | src/svg_image.cpp:275-293 | a `Style` reads back as a bare style tag, then the CSS verbatim |
| `Svg.TitleReadsBack` | src/svg_image.cpp:296-314 | a `Title` reads back as a bare title tag, then the title |
| `Svg.DescReadsBack` | src/svg_image.cpp:317-335 | a `Desc` reads back as a bare desc tag, then the description |
| `Svg.RootSizeBare` | src/svg_image.cpp:13-18 | the root tag writes width and height unquoted after " = ", and they read back as the numbers |
| `Svg.GroupReadsBack` | src/svg_image.cpp:203-226 | a `G` reads back as a g tag with its transform, then its children in order, then `</g>` |
| `Svg.DefsReadsBack` | src/svg_image.cpp:229-251 | a `Defs` reads back as a bare defs tag, then its children in order, then `</defs>` |
| `Svg.SvgDocument.constructor` | src/svg_image.cpp:13-18 | a new document has no children |
| `Svg.SvgDocument.AddElement` | src/svg_image.cpp:20-23 | adding an element appends it as the last child |
| `Svg.SvgDocument.GetContent` | src/svg_image.cpp:25-28 | the content is the root tag, then every child in order, then `</svg>` |
| `Svg.Group.constructor` | src/svg_image.cpp:207-212 | a new group has its transform and no children |
| `Svg.Group.AddElement` | src/svg_image.cpp:214-217 | adding an element appends it as the last child |
| `Svg.Group.GetElement` | src/svg_image.cpp:219-222 | the element is the g tag, then the children, then `</g>` |
| `Svg.Defs.constructor` | src/svg_image.cpp:233-236 | new definitions have no children |
| `Svg.Defs.AddElement` | src/svg_image.cpp:238-241 | adding an element appends it as the last child |
| `Svg.Defs.GetElement` | src/svg_image.cpp:243-246 | the element is the defs tag, then the children, then `</defs>` |
| `Svg.LoadImageSVG` | src/svg_image.cpp:420-423 | LoadImageSVG returns an empty image that converts to false |
| `Svg.SaveImageSVG` | src/svg_image.cpp:425-428 | SaveImageSVG always returns false |
| `Formats.NameStart` | src/main.cpp:23 | the file name starts after the last '/' |
| `Formats.LastDot` | src/main.cpp:23 | finds the last '.' of the name, or reports that there is none |
| `Formats.ExtensionShape` | src/main.cpp:23 | an extension is empty, or is a '.' followed by neither '.' nor '/', ending the path |
| `Formats.ExtensionOfName` | src/main.cpp:23 | a file stem, a '.' and a word give that word as the extension, in any directory |
| `Formats.FormatOfExtensions` | src/main.cpp:21-66 | an extension picks format f exactly when it is one of f's extensions, and it is UNKNOWN exactly when it belongs to no format |
| `Formats.CaseSensitive` | src/main.cpp:25-62 | an extension containing a capital letter is UNKNOWN |
| `Formats.PpmOutputHasSaver` | src/main.cpp:25-28 | every PPM extension has a PPM saver |
| `Formats.LoadImage` | src/main.cpp:68-108 | an unknown format throws "Unsupported input file format", and SVG gives an empty image |
| `Formats.SaveImageCases` | src/main.cpp:110-154 | SVG and UNKNOWN throw "Unsupported output file format", GIF never fails, and the rest report their saver's outcome |
| `Formats.Main` | src/main.cpp:156-211 | main exits with 0 or 1, and with 0 exactly when it reports a conversion |
| `Formats.MainSucceeds` | src/main.cpp:156-211 | main succeeds exactly with two arguments, both extensions known, a non-empty loaded image and a save that does not throw |
| `Formats.UnknownInputFirst` | src/main.cpp:167-173 | an unknown input extension is reported before any loading |
| `Formats.SvgInputFails` | src/main.cpp:175-191 | an .svg input always fails to load |
| `Formats.SvgOutputFails` | src/main.cpp:193-209 | an .svg output always fails with "Unsupported output file format" |
| `Formats.GifOutputReportsSuccess` | src/main.cpp:193-211 | a .gif output reports success although nothing is written |

## Findings

| source | as written | input that shows it | evidently intended | confidence | as-written member | corrected member |
|---|---|---|---|---|---|---|
| src/png_image.cpp:114-166 | `SaveImagePNG` opens its output with `fopen(path, "rb")` | saving to a path that does not exist yet: fopen fails and false is returned; saving over an existing file: libpng's first write fails and "Error during PNG write" is thrown | open with `"wb"` to create or truncate the output | high, not executed | `Png.AsWrittenNeverWrites` | `Png.SaveLoadRoundTrip` |
| src/ico_image.cpp:44-87 | the row buffer and each row read are `width * height` bytes, yet the loop decodes bytes 4x to 4x+3 of a row at 32 bits (4x to 4x+2 at 24) | a crafted file with one 32-bit 16 × 16 icon and, after its `entry.size` block, 16 rows of 64 bytes: four reads of 256 bytes take all 1024, the fifth comes up short, and the empty image is returned; a 32-bit 1 × 1 icon: a one-byte row buffer, and bytes 1, 2 and 3 are read | rows of `4 * width` bytes, the length the saver's pixel loops write a row in | high, not executed | `Ico.AsWrittenLosesStoredRows` | `Ico.SaveLoadRoundTrip` |

## Left out

- Floating point is not modelled. This leaves out `operator*` of `Color` (include/image.h:38-47), `ResizeImage` (src/image.cpp:109-146) and the ICO `Resize` (src/ico_image.cpp:99-134). The ICO saver's calls to `Resize` are commented out in the source, so its list of icons stays empty.
- `GeneratorSVG` (src/svg_image.cpp:338-416) only assembles sample markup. Its builders are modelled one by one.
- TIFF: `tiff_image` is not part of this model. `GetFormatByExtension` still maps ".tiff" to TIFF, and LoadImage and SaveImage leave its outcome as a parameter.
- lib/png_image.cpp is an unmerged older copy of the PNG codec and is not part of this model.
- Library internals are represented by the data they exchange:
  - libjpeg's compression and decompression, libpng's filters and zlib, and giflib's LZW decoder;
  - their `setjmp`/`longjmp` error paths, which become a `decoded` flag;
  - JPEG's lossy compression. `Jpeg.SamplesRoundTrip` assumes the decoder hands back the samples it was given.
- File I/O becomes parameters:
  - whether a file opens is an `isOpen` flag;
  - a short read is a body shorter than the rows need;
  - write failures, `file.good()` and `close` are left out.
- Headers are read with `reinterpret_cast` and given as datatype values. Only their sizes are kept, as constants; struct packing is not modelled.
- ICO offsets and sizes are not reduced to 32 bits. Icons large enough to overflow a `uint32_t` are not modelled.
- ICO loading: the rows are the bytes the loader reads after the `entry.size` block at `entry.offset`, as the source reads them. The model does not check the offset against the file.
- `Ppm.SaveImagePPM`: the ".p3" branch, `Ppm.SaveP3`, states when SaveP3 throws and otherwise only records that it wrote (`P3File`). The model does not state its text. With `uint8_t` channels, `operator<<` writes characters rather than numbers.
- `Ppm.SaveP3`: its text is left out, as for `Ppm.SaveImagePPM`; the loop only reaches each line through GetLine.
- `Ppm.LoadP3`: the samples are given as the bytes `operator>>` leaves in each `uint8_t`. Reading a character at a time is not modelled.
- The texts of the error lines main writes, and `argv[0]` in the usage line, are reduced to the `Formats.Report` cases.
- In `Formats.Main`, the chosen codec's load result and save outcome are parameters. Each codec's behaviour is modelled in its own module.
- `int` arithmetic is unbounded. Overflow of `w * h`, `w * 3` or `width * height * 4` for huge images is not modelled.
- `Images.Image.Sized`: requires a non-negative width and height. The C++ `Image(w, h)` accepts any int: a negative w × h throws `length_error`, and otherwise it builds an object that keeps a negative dimension. The loaders decide those cases before they construct an image, as the `Bmp.Load` line below describes.
- `Images.Image.Filled`: requires a non-negative width and height, as `Images.Image.Sized` does, for the same reason.
- `Jpeg.Save`: the process exit is a distinct outcome (`Exited`). Only the size checks of jpeg_start_compress are modelled, not libjpeg's other error exits.
- `LengthError` is the `length_error` that `std::vector` throws for a negative size. It does not stand for the `bad_alloc` of very large sizes, which is not modelled.
- `Bmp.Load`: where the source does not throw on a negative width or height, it returns an image that keeps those dimensions. Its pixel vector is empty, or holds width × height Black pixels when both are negative. The model returns the empty image, because `Image` here keeps non-negative dimensions. Both are false under `operator bool`.
- `Bmp.LoadImageBMP`: the same negative-dimension image as `Bmp.Load` is returned as the empty image.
- `Bmp.LoadRows`: called only with non-negative dimensions; the negative cases are decided before it, as for `Bmp.Load`.
- `Ppm.ReadP3`: the same negative-dimension image as `Bmp.Load` is returned as the empty image.
- `Ppm.LoadP3`: the same negative-dimension image as `Bmp.Load` is returned as the empty image.
- `Ppm.ReadP6`: a negative height with a non-negative width is returned as the empty image, as for `Bmp.Load`.
- `Ppm.LoadP6`: a negative height with a non-negative width is returned as the empty image, as for `Bmp.Load`.
- `Ppm.LoadImagePPM`: inherits the negative-dimension image of `Ppm.LoadP3` and `Ppm.LoadP6` as the empty image.
- `Png.Save`: only the zero width or height that png_set_IHDR rejects is modelled. libpng's user limits on the width and height and its row-size checks are not.
- `Png.SaveAsWritten`: the exception on an existing file relies on libpng's first write to a stream opened "rb" failing. Where fopen gives such a stream a write, the model does not cover it.
- `Gif.Load`: requires every raster index to name an entry of a present global colour map. The source reads `SColorMap->Colors[index]` unchecked, so a null map or an index past its end is undefined behaviour, outside the model.
- `Gif.LoadedFrame`: has the same requirement as `Gif.Load`.
- `Gif.LoadImageGIF`: has the same requirement as `Gif.Load`.
- `Ico.LoadAsWritten`: `None` marks the reads past the row buffer, at 32 bits for every icon under four rows and at 24 bits for every one but the 1 × 3 icon. What the program then does is undefined and not modelled.
- `Ico.Load`: corrects only the row length. It keeps the source's skip of the `entry.size` block before the rows, so it reads rows placed after the icon's resource, not the rows inside it.
- `Formats.Main`: its save outcome covers the saver's returns and throws. A process exit inside the saver, as `Jpeg.Save`'s `Exited` models for libjpeg, ends the program before `main` reports anything, and is not a case of that parameter.
