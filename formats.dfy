/** The converter's driver in src/main.cpp: the format chosen by the file
    extension (std::filesystem::path::extension), LoadImage and SaveImage
    dispatching on it, and main's exit code. The codecs themselves are
    modelled in their own modules; here a loader's or saver's outcome is a
    parameter, except where main.cpp fixes it (SVG, GIF). */
module Formats {
  import opened Wrappers
  import opened Images
  import Ppm
  import Gif
  import Svg

  datatype Format = PPM | BMP | TIFF | PNG | JPEG | ICO | GIF | SVG | UNKNOWN

  // ---------------------------------------------------------------------
  // path::extension on a POSIX path.

  /** Where the file name starts: just past the last '/', or 0. */
  function NameStart(path: string): (k: nat)
    ensures k <= |path|
    ensures forall i :: k <= i < |path| ==> path[i] != '/'
    ensures k > 0 ==> path[k - 1] == '/'
  {
    if path == [] then 0
    else if path[|path| - 1] == '/' then |path|
    else NameStart(path[..|path| - 1])
  }

  /** path::filename: what follows the last '/'. */
  function FileName(path: string): string
  {
    path[NameStart(path)..]
  }

  /** The index of the last '.' of name, if any. */
  function LastDot(name: string): (r: Option<nat>)
    ensures r.Some? ==> r.value < |name| && name[r.value] == '.'
    ensures r.Some? ==> forall i :: r.value < i < |name| ==> name[i] != '.'
    ensures r.None? ==> forall i :: 0 <= i < |name| ==> name[i] != '.'
  {
    if name == [] then None
    else if name[|name| - 1] == '.' then Some(|name| - 1)
    else LastDot(name[..|name| - 1])
  }

  /** path::extension: empty for the names "." and "..", for a name with no
      '.', and for a name whose only '.' leads it; otherwise the name from
      its last '.' on. */
  function Extension(path: string): string
  {
    var name := FileName(path);
    if name == "." || name == ".." then []
    else match LastDot(name)
      case None => []
      case Some(k) => if k == 0 then [] else name[k..]
  }

  /** An extension is empty or is a '.' and then neither '.' nor '/'; it
      ends the path, and the file name is longer than it. */
  lemma ExtensionShape(path: string)
    ensures var ext := Extension(path);
      ext == []
      || (ext[0] == '.' && |ext| < |FileName(path)| && path[|path| - |ext|..] == ext
          && forall i :: 0 <= i < |ext| ==> ext[i] != '/' && (i > 0 ==> ext[i] != '.'))
  {
  }

  lemma {:induction false} NameStartAfter(dir: string, name: string)
    requires dir == [] || dir[|dir| - 1] == '/'
    requires forall i :: 0 <= i < |name| ==> name[i] != '/'
    ensures NameStart(dir + name) == |dir|
  {
    if name == [] {
      assert dir + name == dir;
      if dir != [] {
        assert dir == dir[..|dir| - 1] + [dir[|dir| - 1]];
      }
    } else {
      var init := name[..|name| - 1];
      assert (dir + name)[..|dir + name| - 1] == dir + init;
      NameStartAfter(dir, init);
    }
  }

  lemma {:induction false} LastDotAfter(stem: string, e: string)
    requires forall i :: 0 <= i < |e| ==> e[i] != '.'
    ensures LastDot(stem + "." + e) == Some(|stem|)
  {
    if e == [] {
      assert stem + "." + e == stem + ".";
    } else {
      var init := e[..|e| - 1];
      assert (stem + "." + e)[..|stem + "." + e| - 1] == stem + "." + init;
      LastDotAfter(stem, init);
    }
  }

  lemma NameWithoutSlash(stem: string, e: string)
    requires forall i :: 0 <= i < |stem| ==> stem[i] != '/'
    requires forall i :: 0 <= i < |e| ==> e[i] != '/'
    ensures forall i :: 0 <= i < |stem + "." + e| ==> (stem + "." + e)[i] != '/'
  {
  }

  lemma DotSuffix(stem: string, e: string)
    ensures (stem + "." + e)[|stem|..] == "." + e
  {
    assert stem + "." + e == stem + ("." + e);
  }

  /** A file stem, a '.', and a word without '.' or '/', in any directory:
      the extension is the '.' and the word. */
  lemma ExtensionOfName(dir: string, stem: string, e: string)
    requires dir == [] || dir[|dir| - 1] == '/'
    requires |stem| > 0 && forall i :: 0 <= i < |stem| ==> stem[i] != '/'
    requires forall i :: 0 <= i < |e| ==> e[i] != '.' && e[i] != '/'
    requires stem + "." + e != ".."
    ensures Extension(dir + stem + "." + e) == "." + e
  {
    var name := stem + "." + e;
    assert dir + stem + "." + e == dir + name;
    NameWithoutSlash(stem, e);
    NameStartAfter(dir, name);
    assert FileName(dir + name) == name;
    LastDotAfter(stem, e);
    DotSuffix(stem, e);
  }

  // ---------------------------------------------------------------------
  // GetFormatByExtension.

  /** The extensions each format answers to, exactly as spelled. */
  function Extensions(f: Format): set<string>
  {
    match f
    case PPM => {".ppm", ".p3"}
    case BMP => {".bmp"}
    case TIFF => {".tiff"}
    case PNG => {".png"}
    case JPEG => {".jpeg", ".jpg"}
    case ICO => {".ico"}
    case GIF => {".gif"}
    case SVG => {".svg"}
    case UNKNOWN => {}
  }

  /** The chain of comparisons of GetFormatByExtension, in its order. */
  function FormatOf(ext: string): Format
  {
    if ext == ".ppm" || ext == ".p3" then PPM
    else if ext == ".bmp" then BMP
    else if ext == ".tiff" then TIFF
    else if ext == ".png" then PNG
    else if ext == ".jpeg" || ext == ".jpg" then JPEG
    else if ext == ".ico" then ICO
    else if ext == ".gif" then GIF
    else if ext == ".svg" then SVG
    else UNKNOWN
  }

  function GetFormatByExtension(path: string): Format
  {
    FormatOf(Extension(path))
  }

  /** An extension picks format f exactly when it is one of f's, and it is
      UNKNOWN exactly when it is nobody's. */
  lemma FormatOfExtensions(ext: string, f: Format)
    ensures f != UNKNOWN ==> (FormatOf(ext) == f <==> ext in Extensions(f))
    ensures FormatOf(ext) == UNKNOWN <==> forall g :: ext !in Extensions(g)
  {
    if FormatOf(ext) != UNKNOWN {
      assert ext in Extensions(FormatOf(ext));
    }
  }

  /** The comparison is exact: no extension with a capital letter picks a
      format (".PNG" is UNKNOWN). */
  lemma CaseSensitive(ext: string, i: int)
    requires 0 <= i < |ext| && 'A' <= ext[i] <= 'Z'
    ensures FormatOf(ext) == UNKNOWN
  {
  }

  /** Every PPM extension names a PPM writer, so SaveImagePPM's own
      "Unsupported PPM format" never fires for a file main sends it. */
  lemma PpmOutputHasSaver(ext: string)
    requires FormatOf(ext) == PPM
    ensures Ppm.SaverFor(ext).Ok?
  {
  }

  // ---------------------------------------------------------------------
  // LoadImage and SaveImage.

  /** LoadImage: the format's loader; SVG's returns an empty image; no
      format at all throws. loaded is what the format's own loader returns
      or throws for the file. */
  function LoadImage(path: string, format: Format, loaded: Result<Raster>): (r: Result<Raster>)
    ensures format == UNKNOWN ==> r == Throw(RuntimeError("Unsupported input file format"))
    ensures format == SVG ==> r.Ok? && WellFormed(r.value) && !Truthy(r.value)
  {
    match format
    case SVG => Ok(Svg.LoadImageSVG(path))
    case UNKNOWN => Throw(RuntimeError("Unsupported input file format"))
    case _ => loaded
  }

  /** SaveImage: the format's saver; SaveImageGIF returns false without
      throwing and its result is dropped; SVG has no case and falls to the
      default with UNKNOWN. saved is what the format's own saver throws, if
      anything. */
  function SaveImage(path: string, r: Raster, format: Format, saved: Outcome): Outcome
  {
    match format
    case SVG => Fail(RuntimeError("Unsupported output file format"))
    case UNKNOWN => Fail(RuntimeError("Unsupported output file format"))
    case GIF => Pass
    case _ => saved
  }

  /** Which formats can be read, which written, at all. */
  lemma SaveImageCases(path: string, r: Raster, format: Format, saved: Outcome)
    ensures format == SVG || format == UNKNOWN
      ==> SaveImage(path, r, format, saved) == Fail(RuntimeError("Unsupported output file format"))
    ensures format == GIF ==> SaveImage(path, r, format, saved) == Pass
    ensures format != SVG && format != UNKNOWN && format != GIF ==> SaveImage(path, r, format, saved) == saved
  {
  }

  // ---------------------------------------------------------------------
  // main.

  /** What main writes before it returns: the usage line, one of the five
      error lines (cerr), or the success line (cout). */
  datatype Report =
    | Usage
    | UnknownInput(ext: string)
    | LoadError(error: Exception)
    | LoadFailed(input: string)
    | UnknownOutput(ext: string)
    | SaveError(error: Exception)
    | Converted(input: string, output: string)

  datatype Run = Run(code: int, report: Report)

  /** main(argc, argv) with argv as args; loaded and saved stand for what
      the chosen loader and saver do with the files. */
  function Main(args: seq<string>, loaded: Result<Raster>, saved: Outcome): (run: Run)
    ensures run.code == 0 || run.code == 1
    ensures run.code == 0 <==> run.report.Converted?
  {
    if |args| != 3 then Run(1, Usage)
    else
      var input, output := args[1], args[2];
      var inputFormat := GetFormatByExtension(input);
      if inputFormat == UNKNOWN then Run(1, UnknownInput(Extension(input)))
      else
        var image := LoadImage(input, inputFormat, loaded);
        if image.Throw? then Run(1, LoadError(image.error))
        else if !Truthy(image.value) then Run(1, LoadFailed(input))
        else
          var outputFormat := GetFormatByExtension(output);
          if outputFormat == UNKNOWN then Run(1, UnknownOutput(Extension(output)))
          else
            match SaveImage(output, image.value, outputFormat, saved)
            case Fail(e) => Run(1, SaveError(e))
            case Pass => Run(0, Converted(input, output))
  }

  /** main succeeds exactly when there are two arguments, both extensions
      are known, the image loads and is non-empty, and the save does not
      throw. */
  lemma MainSucceeds(args: seq<string>, loaded: Result<Raster>, saved: Outcome)
    ensures Main(args, loaded, saved).code == 0 <==>
      |args| == 3
      && GetFormatByExtension(args[1]) != UNKNOWN && GetFormatByExtension(args[2]) != UNKNOWN
      && var image := LoadImage(args[1], GetFormatByExtension(args[1]), loaded);
         image.Ok? && Truthy(image.value)
         && SaveImage(args[2], image.value, GetFormatByExtension(args[2]), saved).Pass?
  {
  }

  /** The input is checked first: an unknown input extension is reported
      whatever the output is, and no loader runs. */
  lemma UnknownInputFirst(args: seq<string>, loaded: Result<Raster>, saved: Outcome)
    requires |args| == 3 && GetFormatByExtension(args[1]) == UNKNOWN
    ensures Main(args, loaded, saved) == Run(1, UnknownInput(Extension(args[1])))
  {
  }

  /** An .svg input never converts: its loader gives an empty image and
      main reports that loading failed. */
  lemma SvgInputFails(args: seq<string>, loaded: Result<Raster>, saved: Outcome)
    requires |args| == 3 && GetFormatByExtension(args[1]) == SVG
    ensures Main(args, loaded, saved) == Run(1, LoadFailed(args[1]))
  {
  }

  /** An .svg output never converts: SaveImage has no SVG case and throws. */
  lemma SvgOutputFails(args: seq<string>, loaded: Result<Raster>, saved: Outcome)
    requires |args| == 3 && GetFormatByExtension(args[1]) !in {UNKNOWN, SVG}
    requires loaded.Ok? && Truthy(loaded.value)
    requires GetFormatByExtension(args[2]) == SVG
    ensures Main(args, loaded, saved) == Run(1, SaveError(RuntimeError("Unsupported output file format")))
  {
    assert LoadImage(args[1], GetFormatByExtension(args[1]), loaded) == loaded;
    assert SaveImage(args[2], loaded.value, SVG, saved) == Fail(RuntimeError("Unsupported output file format"));
  }

  /** A .gif output reports success although SaveImageGIF writes nothing:
      its false return is never looked at. */
  lemma GifOutputReportsSuccess(args: seq<string>, loaded: Result<Raster>, saved: Outcome)
    requires |args| == 3 && GetFormatByExtension(args[1]) !in {UNKNOWN, SVG}
    requires loaded.Ok? && Truthy(loaded.value)
    requires GetFormatByExtension(args[2]) == GIF
    ensures Main(args, loaded, saved) == Run(0, Converted(args[1], args[2]))
    ensures !Gif.Save(args[2], loaded.value)
  {
    assert LoadImage(args[1], GetFormatByExtension(args[1]), loaded) == loaded;
    assert SaveImage(args[2], loaded.value, GIF, saved) == Pass;
  }
}
