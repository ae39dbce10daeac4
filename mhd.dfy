/**
 * Reading and writing images (io.go): headerless raw files, and MetaImage pairs of a
 * `key = value` text header (`.mhd`) and a raw data file (`.raw`).
 *
 * Files are a map from path to bytes. Number formatting (`%d`, `%f`), number scanning
 * (`fmt.Sscanf`), text encoding and the raw reader's floating-point cube root are not
 * modelled: they arrive as the function values of a `Writer` and a `Reader`.
 */
module MetaIO {
  import opened Results
  import opened Pixels
  import opened Text
  import opened FilePaths
  import Images
  import Layout
  import Arith

  /** The file formats `ReadImage` and `Save` know. */
  const ImageTypeRaw := 0
  const ImageTypeMHD := 1

  /** The files an operation sees. */
  type Disk = map<string, seq<byte>>

  /** How the writer renders numbers (`%d`, `%f`) and encodes text. */
  datatype Writer = Writer(natural: nat -> string, decimal: real -> string, encode: string -> seq<byte>)

  /** How the reader scans numbers (`%d`, `%f`), decodes text and guesses the cube root of a pixel count. */
  datatype Reader = Reader(
    natural: string -> Option<nat>,
    decimal: string -> Option<real>,
    decode: seq<byte> -> string,
    cubeRoot: nat -> nat)

  /**
   * What `ReadImage` fills in: the image fields, and the type the pixel slice is actually stored
   * as. Neither reader sets the pixel width, which stays 0.
   */
  datatype Loaded = Loaded(
    bytesPerPixel: nat,
    dimension: nat,
    size: seq<nat>,
    spacing: seq<real>,
    origin: seq<real>,
    direction: seq<real>,
    pixelType: PixelType,
    storedType: PixelType,
    data: seq<byte>)

  /** The fields of an image that `Save` writes. */
  datatype Snapshot = Snapshot(
    dimension: nat,
    size: seq<nat>,
    spacing: seq<real>,
    origin: seq<real>,
    direction: seq<real>,
    pixelType: PixelType,
    pixels: seq<byte>)

  function SnapshotOf(img: Images.Image): Snapshot
    reads img, img.pixels
  {
    Snapshot(img.dimension, img.size, img.spacing, img.origin, img.direction, img.pixelType, img.pixels[..])
  }

  const DivideByZero := "runtime error: integer divide by zero"

  // ---------------------------------------------------------------------------
  // ElementType names
  // ---------------------------------------------------------------------------

  /** The `ElementType` the writer records for a pixel type. */
  function ElementTypeName(t: PixelType): string
  {
    match t
    case UInt8 => "MET_UCHAR"
    case Int8 => "MET_CHAR"
    case UInt16 => "MET_USHORT"
    case Int16 => "MET_SHORT"
    case UInt32 => "MET_UINT"
    case Int32 => "MET_INT"
    case UInt64 => "MET_ULONG"
    case Int64 => "MET_LONG"
    case Float32 => "MET_FLOAT"
    case Float64 => "MET_DOUBLE"
  }

  /** The pixel type the reader takes from an `ElementType`; any other name is an error. */
  function PixelTypeOfName(name: string): (r: Result<PixelType>)
    ensures r.Ok? ==> ElementTypeName(r.value) == name
    ensures r.Err? ==> forall t: PixelType :: ElementTypeName(t) != name
  {
    if name == "MET_UCHAR" then Ok(UInt8)
    else if name == "MET_CHAR" then Ok(Int8)
    else if name == "MET_USHORT" then Ok(UInt16)
    else if name == "MET_SHORT" then Ok(Int16)
    else if name == "MET_UINT" then Ok(UInt32)
    else if name == "MET_INT" then Ok(Int32)
    else if name == "MET_ULONG" then Ok(UInt64)
    else if name == "MET_LONG" then Ok(Int64)
    else if name == "MET_FLOAT" then Ok(Float32)
    else if name == "MET_DOUBLE" then Ok(Float64)
    else Err("unsupported element type: " + name)
  }

  /** Reading back the name written for a type gives that type. */
  lemma NameRoundTrip(t: PixelType)
    ensures PixelTypeOfName(ElementTypeName(t)) == Ok(t)
  {
  }

  /** A non-empty text without white space or `=`: it survives a header line unchanged. */
  predicate Word(s: string)
  {
    s != [] && NoSpace(s) && '=' !in s
  }

  /** Letters and underscores only, as in every key and element type name. */
  predicate Identifier(s: string)
  {
    s != [] && forall i :: 0 <= i < |s| ==> 'A' <= s[i] <= 'Z' || 'a' <= s[i] <= 'z' || s[i] == '_'
  }

  lemma IdentifierIsWord(s: string)
    requires Identifier(s)
    ensures Word(s) && Trimmed(s)
  {
    assert forall i :: 0 <= i < |s| ==> !IsSpace(s[i]) && s[i] != '=';
  }

  lemma NameIsWord(t: PixelType)
    ensures Word(ElementTypeName(t)) && Trimmed(ElementTypeName(t))
  {
    assert Identifier(ElementTypeName(t));
    IdentifierIsWord(ElementTypeName(t));
  }

  // ---------------------------------------------------------------------------
  // Raw files
  // ---------------------------------------------------------------------------

  /** The raw reader's width switch: 0 for a code that names no pixel type. */
  function RawBytesPerPixel(code: int): nat
  {
    match FromCode(code)
    case Some(t) => BytesPerPixel(t)
    case None => 0
  }

  /** The type the raw reader stores pixels as, chosen from their width alone. */
  function StoredType(bpp: nat): Result<PixelType>
  {
    if bpp == 1 then Ok(UInt8)
    else if bpp == 2 then Ok(UInt16)
    else if bpp == 4 then Ok(Float32)
    else if bpp == 8 then Ok(Float64)
    else Err("unsupported bytes per pixel")
  }

  /** Every width of a known type is stored at that width, but as the type itself only for four types. */
  lemma StoredTypeOfWidth(t: PixelType)
    ensures StoredType(BytesPerPixel(t)).Ok?
    ensures BytesPerPixel(StoredType(BytesPerPixel(t)).value) == BytesPerPixel(t)
    ensures StoredType(BytesPerPixel(t)).value == t <==> t in {UInt8, UInt16, Float32, Float64}
  {
  }

  lemma WholePixels(n: nat, bpp: nat)
    requires bpp > 0
    ensures (n / bpp) * bpp <= n < (n / bpp) * bpp + bpp
  {
    Arith.DivModBounds(n, bpp);
  }

  /** `xy * xy` in `uint32` arithmetic. */
  function Square32(xy: nat): nat
  {
    (xy * xy) % 0x1_0000_0000
  }

  /**
   * `readImageTypeRaw`: as many whole pixels as the file holds, a 3-D size guessed from the
   * cube root of their count, unit spacing, zero origin and identity direction. An unknown
   * pixel type, or a cube root whose `uint32` square is 0, divides by zero.
   */
  function ReadRaw(disk: Disk, path: string, code: int, cubeRoot: nat -> nat): (r: Result<Loaded>)
    ensures r.Ok? <==> (path in disk && FromCode(code).Some?
      && Square32(cubeRoot(|disk[path]| / BytesPerPixel(FromCode(code).value))) != 0)
    ensures r.Ok? ==>
      r.value.data <= disk[path] && |r.value.data| % BytesPerPixel(FromCode(code).value) == 0
      && |disk[path]| - |r.value.data| < BytesPerPixel(FromCode(code).value)
      && r.value.dimension == 3 && |r.value.size| == 3 && r.value.bytesPerPixel == 0
      && r.value.pixelType == r.value.storedType && BytesPerPixel(r.value.storedType) == BytesPerPixel(FromCode(code).value)
  {
    if path !in disk then Err("open " + path + ": no such file or directory")
    else
      var bpp := RawBytesPerPixel(code);
      if bpp == 0 then Err(DivideByZero)
      else
        var file := disk[path];
        var total := |file| / bpp;
        var xy := cubeRoot(total);
        if Square32(xy) == 0 then Err(DivideByZero)
        else
          StoredTypeOfWidth(FromCode(code).value);
          WholePixels(|file|, bpp);
          var stored := StoredType(bpp).value;
          var data := file[..total * bpp];
          assert |data| == total * bpp;
          assert |data| % bpp == 0 by {
            Arith.DivModOfSum(0, total, bpp);
          }
          Ok(Loaded(0, 3, [xy, xy, (total / Square32(xy)) % 0x1_0000_0000], [1.0, 1.0, 1.0], [0.0, 0.0, 0.0],
            Images.IdentityDirection, stored, stored, data))
  }

  /** What the raw writer puts in a file: every whole pixel of the buffer, little-endian. */
  function RawBytes(pixels: seq<byte>, bpp: nat): seq<byte>
    requires bpp > 0
  {
    WholePixels(|pixels|, bpp);
    pixels[..(|pixels| / bpp) * bpp]
  }

  /** `saveImageTypeRaw`: writes the pixels one at a time. */
  method WriteRaw(img: Images.Image) returns (bytes: seq<byte>)
    requires img.Valid()
    ensures bytes == RawBytes(img.pixels[..], img.bytesPerPixel)
  {
    var bpp := img.bytesPerPixel;
    var n := img.pixels.Length / bpp;
    WholePixels(img.pixels.Length, bpp);
    bytes := [];
    var i, at := 0, 0;
    while i < n
      invariant 0 <= i <= n && at == i * bpp && at <= n * bpp
      invariant bytes == img.pixels[..at]
    {
      Arith.MulMonotone(i + 1, n, bpp);
      bytes := bytes + img.pixels[at..at + bpp];
      i, at := i + 1, at + bpp;
    }
  }

  // ---------------------------------------------------------------------------
  // The header reader
  // ---------------------------------------------------------------------------

  /** The header fields the reader fills in, starting from a zero `Image`. */
  datatype Header = Header(
    dimension: nat,
    size: seq<nat>,
    direction: seq<real>,
    origin: seq<real>,
    spacing: seq<real>,
    elementType: string,
    dataFile: string)

  const Blank: Header := Header(0, [], [0.0, 0.0, 0.0, 0.0, 0.0, 0.0, 0.0, 0.0, 0.0], [], [], "", "")

  /**
   * A sized field: `n` entries, entry `i` scanned from field `i` when there is one and it
   * scans, 0 otherwise.
   */
  function Numbers<T>(n: nat, fields: seq<string>, scan: string -> Option<T>, zero: T): seq<T>
  {
    seq(n, i requires 0 <= i < n => if i < |fields| && scan(fields[i]).Some? then scan(fields[i]).value else zero)
  }

  /** The loop that fills a sized field. */
  method FillNumbers<T>(n: nat, fields: seq<string>, scan: string -> Option<T>, zero: T) returns (r: seq<T>)
    ensures r == Numbers(n, fields, scan, zero)
  {
    r := seq(n, _ => zero);
    var i := 0;
    while i < |fields| && i < n
      invariant 0 <= i <= n && i <= |fields| && |r| == n
      invariant forall k :: 0 <= k < i ==> r[k] == Numbers(n, fields, scan, zero)[k]
      invariant forall k :: i <= k < n ==> r[k] == zero
    {
      match scan(fields[i]) {
        case Some(v) => r := r[i := v];
        case None =>
      }
      i := i + 1;
    }
  }

  /** The effect of one `key = value` line whose key and value are already trimmed. */
  function ApplyEntry(h: Header, key: string, value: string, rd: Reader): Header
  {
    if key == "NDims" then
      match rd.natural(value)
      case Some(d) => h.(dimension := d)
      case None => h
    else if key == "DimSize" then h.(size := Numbers(h.dimension, Fields(value), rd.natural, 0))
    else if key == "TransformMatrix" then h.(direction := Numbers(9, Fields(value), rd.decimal, 0.0))
    else if key == "Offset" then h.(origin := Numbers(h.dimension, Fields(value), rd.decimal, 0.0))
    else if key == "ElementSpacing" then h.(spacing := Numbers(h.dimension, Fields(value), rd.decimal, 0.0))
    else if key == "ElementType" then h.(elementType := value)
    else if key == "ElementDataFile" then h.(dataFile := value)
    else h
  }

  /** One header line: used only when splitting on `=` gives exactly two parts. */
  function ApplyLine(h: Header, line: string, rd: Reader): Header
  {
    var parts := Split(line, '=');
    if |parts| != 2 then h else ApplyEntry(h, TrimSpace(parts[0]), TrimSpace(parts[1]), rd)
  }

  /** The header after reading `lines` in order. */
  function ParseLines(lines: seq<string>, rd: Reader): Header
  {
    if lines == [] then Blank else ApplyLine(ParseLines(lines[..|lines| - 1], rd), lines[|lines| - 1], rd)
  }

  /** The scanning loop of `readImageTypeMHD`. */
  method ReadHeader(lines: seq<string>, rd: Reader) returns (h: Header)
    ensures h == ParseLines(lines, rd)
  {
    h := Blank;
    var i := 0;
    while i < |lines|
      invariant 0 <= i <= |lines|
      invariant h == ParseLines(lines[..i], rd)
    {
      assert lines[..i + 1][..i] == lines[..i];
      h := ReadLine(h, lines[i], rd);
      i := i + 1;
    }
    assert lines[..i] == lines;
  }

  /** One pass of the scanning loop: split on `=`, trim both sides, dispatch on the key. */
  method ReadLine(h: Header, line: string, rd: Reader) returns (g: Header)
    ensures g == ApplyLine(h, line, rd)
  {
    var parts := Split(line, '=');
    g := h;
    if |parts| == 2 {
      g := ReadEntry(h, TrimSpace(parts[0]), TrimSpace(parts[1]), rd);
    }
  }

  /** The key switch of the scanning loop. */
  method ReadEntry(h: Header, key: string, value: string, rd: Reader) returns (g: Header)
    ensures g == ApplyEntry(h, key, value, rd)
  {
    g := h;
    if key == "NDims" {
      match rd.natural(value) {
        case Some(d) => g := h.(dimension := d);
        case None =>
      }
    } else if key == "DimSize" {
      var s := FillNumbers(h.dimension, Fields(value), rd.natural, 0);
      g := h.(size := s);
    } else if key == "TransformMatrix" {
      var d := FillNumbers(9, Fields(value), rd.decimal, 0.0);
      g := h.(direction := d);
    } else if key == "Offset" {
      var o := FillNumbers(h.dimension, Fields(value), rd.decimal, 0.0);
      g := h.(origin := o);
    } else if key == "ElementSpacing" {
      var s := FillNumbers(h.dimension, Fields(value), rd.decimal, 0.0);
      g := h.(spacing := s);
    } else if key == "ElementType" {
      g := h.(elementType := value);
    } else if key == "ElementDataFile" {
      g := h.(dataFile := value);
    }
  }

  lemma ParseLinesStep(lines: seq<string>, k: nat, rd: Reader)
    requires k < |lines|
    ensures ParseLines(lines[..k + 1], rd) == ApplyLine(ParseLines(lines[..k], rd), lines[k], rd)
  {
    assert lines[..k + 1][..k] == lines[..k];
  }

  /** A line without exactly one `=` changes nothing. */
  lemma LineWithoutOneEquals(h: Header, line: string, rd: Reader)
    requires Count(line, '=') != 1
    ensures ApplyLine(h, line, rd) == h
  {
  }

  /** The transform matrix always has nine entries. */
  lemma {:induction false} DirectionHasNine(lines: seq<string>, rd: Reader)
    ensures |ParseLines(lines, rd).direction| == 9
  {
    if lines != [] {
      DirectionHasNine(lines[..|lines| - 1], rd);
    }
  }

  /** `readImageTypeMHD`: the header, its element type, then the raw file beside it. */
  function LoadMHD(disk: Disk, filename: string, rd: Reader): Result<Loaded>
  {
    if filename !in disk then Err("failed to open MHD file")
    else
      var h := ParseLines(Lines(rd.decode(disk[filename])), rd);
      match PixelTypeOfName(h.elementType)
      case Err(m) => Err(m)
      case Ok(t) =>
        match ReadRaw(disk, JoinPath(Dir(filename), h.dataFile), Code(t), rd.cubeRoot)
        case Err(m) => Err("failed to read raw data: " + m)
        case Ok(raw) => Ok(Loaded(0, h.dimension, h.size, h.spacing, h.origin, h.direction, t, raw.storedType, raw.data))
  }

  /** `ReadImage`: dispatch on the file format. */
  function Load(disk: Disk, filename: string, imageType: int, pixelType: int, rd: Reader): Result<Loaded>
  {
    if imageType == ImageTypeRaw then ReadRaw(disk, filename, pixelType, rd.cubeRoot)
    else if imageType == ImageTypeMHD then LoadMHD(disk, filename, rd)
    else Err("unknown image type")
  }

  method ReadImage(disk: Disk, filename: string, imageType: int, pixelType: int, rd: Reader) returns (r: Result<Loaded>)
    ensures r == Load(disk, filename, imageType, pixelType, rd)
    ensures imageType != ImageTypeRaw && imageType != ImageTypeMHD ==> r.Err?
    ensures r.Ok? && imageType == ImageTypeMHD ==>
      filename in disk && ElementTypeName(r.value.pixelType) == ParseLines(Lines(rd.decode(disk[filename])), rd).elementType
  {
    if imageType == ImageTypeRaw {
      return ReadRaw(disk, filename, pixelType, rd.cubeRoot);
    } else if imageType != ImageTypeMHD {
      return Err("unknown image type");
    }
    if filename !in disk {
      return Err("failed to open MHD file");
    }
    var h := ReadHeader(Lines(rd.decode(disk[filename])), rd);
    var t := PixelTypeOfName(h.elementType);
    if t.Err? {
      return Err(t.msg);
    }
    var raw := ReadRaw(disk, JoinPath(Dir(filename), h.dataFile), Code(t.value), rd.cubeRoot);
    if raw.Err? {
      return Err("failed to read raw data: " + raw.msg);
    }
    r := Ok(Loaded(0, h.dimension, h.size, h.spacing, h.origin, h.direction, t.value, raw.value.storedType, raw.value.data));
  }

  // ---------------------------------------------------------------------------
  // The header writer
  // ---------------------------------------------------------------------------

  function Show<T>(xs: seq<T>, f: T -> string): (ws: seq<string>)
    ensures |ws| == |xs|
  {
    seq(|xs|, k requires 0 <= k < |xs| => f(xs[k]))
  }

  /** Each text followed by one space. */
  function Terminated(ws: seq<string>): string
  {
    if ws == [] then [] else Terminated(ws[..|ws| - 1]) + ws[|ws| - 1] + " "
  }

  /** A header line. */
  function Entry(key: string, value: string): string
  {
    key + " = " + value
  }

  /** The header's index demands on the image: `size[0]` and `spacing[0]` are written even without axes. */
  predicate Writable(s: Snapshot)
  {
    1 <= |s.size| && s.dimension <= |s.size| && |s.direction| == 9
    && s.dimension <= |s.origin| && 1 <= |s.spacing| && s.dimension <= |s.spacing|
  }

  /** The number of extents and spacings written: at least one. */
  function Written(dimension: nat): nat
  {
    if dimension == 0 then 1 else dimension
  }

  /** The keys of the header `saveImageTypeMHD` writes, in order. */
  const HeaderKeys: seq<string> := [
    "ObjectType", "BinaryData", "NDims", "DimSize", "TransformMatrix", "Offset",
    "ElementType", "ElementByteOrderMSB", "CompressedData", "ElementSpacing", "ElementDataFile"]

  /** The values written for those keys. */
  function HeaderValues(s: Snapshot, dataFile: string, w: Writer): (vs: seq<string>)
    requires Writable(s)
    ensures |vs| == |HeaderKeys|
    ensures vs[0] == "Image" && vs[1] == "True" && vs[7] == "False" && vs[8] == "False"
    ensures vs[2] == w.natural(s.dimension) && vs[6] == ElementTypeName(s.pixelType) && vs[10] == dataFile
    ensures vs[3] == Join(Show(s.size[..Written(s.dimension)], w.natural), ' ')
    ensures vs[4] == Terminated(Show(s.direction, w.decimal))
    ensures vs[5] == Terminated(Show(s.origin[..s.dimension], w.decimal))
    ensures vs[9] == Join(Show(s.spacing[..Written(s.dimension)], w.decimal), ' ')
  {
    var n := Written(s.dimension);
    [ "Image",
      "True",
      w.natural(s.dimension),
      Join(Show(s.size[..n], w.natural), ' '),
      Terminated(Show(s.direction, w.decimal)),
      Terminated(Show(s.origin[..s.dimension], w.decimal)),
      ElementTypeName(s.pixelType),
      "False",
      "False",
      Join(Show(s.spacing[..n], w.decimal), ' '),
      dataFile ]
  }

  /** The lines `saveImageTypeMHD` writes, in order: each key with its value. */
  function HeaderLines(values: seq<string>): (ls: seq<string>)
    requires |values| == |HeaderKeys|
    ensures |ls| == |HeaderKeys|
    ensures forall k :: 0 <= k < |ls| ==> ls[k] == Entry(HeaderKeys[k], values[k])
  {
    seq(|HeaderKeys|, k requires 0 <= k < |HeaderKeys| => Entry(HeaderKeys[k], values[k]))
  }

  lemma {:induction false} UnlinesAppend(ls: seq<string>, line: string)
    ensures Unlines(ls + [line]) == Unlines(ls) + line + "\n"
  {
    if ls != [] {
      assert (ls + [line])[1..] == ls[1..] + [line];
      UnlinesAppend(ls[1..], line);
    }
  }

  lemma {:induction false} JoinAppend(ws: seq<string>, w: string, sep: char)
    requires |ws| > 0
    ensures Join(ws + [w], sep) == Join(ws, sep) + [sep] + w
  {
    if |ws| > 1 {
      assert (ws + [w])[1..] == ws[1..] + [w];
      JoinAppend(ws[1..], w, sep);
    }
  }

  lemma ShowPrefix<T>(xs: seq<T>, i: nat, f: T -> string)
    requires i < |xs|
    ensures Show(xs[..i + 1], f) == Show(xs[..i], f) + [f(xs[i])]
    ensures Show(xs[..i + 1], f)[..i] == Show(xs[..i], f)
  {
  }

  /** The loop writing the first `n` entries of `xs` separated by single spaces. */
  method WriteSpaced<T>(xs: seq<T>, n: nat, f: T -> string) returns (s: string)
    requires 1 <= n <= |xs|
    ensures s == Join(Show(xs[..n], f), ' ')
  {
    s := f(xs[0]);
    assert Show(xs[..1], f) == [f(xs[0])];
    var i := 1;
    while i < n
      invariant 1 <= i <= n
      invariant s == Join(Show(xs[..i], f), ' ')
    {
      ShowPrefix(xs, i, f);
      JoinAppend(Show(xs[..i], f), f(xs[i]), ' ');
      s := s + " " + f(xs[i]);
      i := i + 1;
    }
  }

  /** The loop writing the first `n` entries of `xs`, each followed by a space. */
  method WriteTerminated<T>(xs: seq<T>, n: nat, f: T -> string) returns (s: string)
    requires n <= |xs|
    ensures s == Terminated(Show(xs[..n], f))
  {
    s := "";
    var i := 0;
    while i < n
      invariant 0 <= i <= n
      invariant s == Terminated(Show(xs[..i], f))
    {
      ShowPrefix(xs, i, f);
      s := s + f(xs[i]) + " ";
      i := i + 1;
    }
  }

  /** The header part of `saveImageTypeMHD`, line by line. */
  method WriteHeader(img: Images.Image, dataFile: string, w: Writer) returns (text: string)
    requires img.Valid() && Writable(SnapshotOf(img))
    ensures text == Unlines(HeaderLines(HeaderValues(SnapshotOf(img), dataFile, w)))
  {
    var n := Written(img.dimension);
    var sizes := WriteSpaced(img.size, n, w.natural);
    var matrix := WriteTerminated(img.direction, 9, w.decimal);
    assert img.direction[..9] == img.direction;
    var offsets := WriteTerminated(img.origin, img.dimension, w.decimal);
    var spacings := WriteSpaced(img.spacing, n, w.decimal);
    var values := ["Image", "True", w.natural(img.dimension), sizes, matrix, offsets,
                   ElementTypeName(img.pixelType), "False", "False", spacings, dataFile];
    ghost var expected := HeaderValues(SnapshotOf(img), dataFile, w);
    assert forall k :: 0 <= k < |values| ==> values[k] == expected[k];
    text := WriteEntries(values);
  }

  /** The header lines written one after another, each `key = value`. */
  method WriteEntries(values: seq<string>) returns (text: string)
    requires |values| == |HeaderKeys|
    ensures text == Unlines(HeaderLines(values))
  {
    ghost var lines := HeaderLines(values);
    text := WriteLine("", lines, 0, Entry("ObjectType", values[0]));
    text := WriteLine(text, lines, 1, Entry("BinaryData", values[1]));
    text := WriteLine(text, lines, 2, Entry("NDims", values[2]));
    text := WriteLine(text, lines, 3, Entry("DimSize", values[3]));
    text := WriteLine(text, lines, 4, Entry("TransformMatrix", values[4]));
    text := WriteLine(text, lines, 5, Entry("Offset", values[5]));
    text := WriteLine(text, lines, 6, Entry("ElementType", values[6]));
    text := WriteLine(text, lines, 7, Entry("ElementByteOrderMSB", values[7]));
    text := WriteLine(text, lines, 8, Entry("CompressedData", values[8]));
    text := WriteLine(text, lines, 9, Entry("ElementSpacing", values[9]));
    text := WriteLine(text, lines, 10, Entry("ElementDataFile", values[10]));
    assert lines[..11] == lines;
  }

  /** Writes line `k` of a header whose first `k` lines are written already. */
  method WriteLine(text: string, ghost lines: seq<string>, k: nat, line: string) returns (t: string)
    requires k < |lines| && text == Unlines(lines[..k]) && line == lines[k]
    ensures t == Unlines(lines[..k + 1])
  {
    UnlinesAppend(lines[..k], line);
    assert lines[..k] + [line] == lines[..k + 1];
    t := text + line + "\n";
  }

  // ---------------------------------------------------------------------------
  // Saving
  // ---------------------------------------------------------------------------

  /** The raw file beside a header: the header name with its last four characters replaced by `.raw`. */
  function RawName(filename: string): string
    requires |filename| >= 4
  {
    filename[..|filename| - 4] + ".raw"
  }

  /** The data file name the writer records: the raw name after `len(Dir(raw)) + 1` characters. */
  function RawBaseAsWritten(raw: string): string
    requires |Dir(raw)| + 1 <= |raw|
  {
    raw[|Dir(raw)| + 1..]
  }

  /** What saving as MetaImage demands: the slices and indexes the writer takes are in range. */
  predicate SavableMHD(s: Snapshot, filename: string)
  {
    Writable(s) && |filename| >= 4 && |Dir(RawName(filename))| + 1 <= |RawName(filename)|
  }

  /** The files after `Save`: the raw bytes, and for MetaImage the header beside them. */
  function Saved(disk: Disk, s: Snapshot, filename: string, imageType: int, w: Writer): Result<Disk>
    requires imageType == ImageTypeMHD ==> SavableMHD(s, filename)
  {
    var raw := RawBytes(s.pixels, BytesPerPixel(s.pixelType));
    if imageType == ImageTypeRaw then Ok(disk[filename := raw])
    else if imageType == ImageTypeMHD then
      var rawName := RawName(filename);
      var header := Unlines(HeaderLines(HeaderValues(s, RawBaseAsWritten(rawName), w)));
      Ok(disk[rawName := raw][filename := w.encode(header)])
    else Err("unknown image type")
  }

  /** `Save` (and `WriteImage`): dispatch on the file format. */
  method Save(img: Images.Image, filename: string, imageType: int, disk: Disk, w: Writer) returns (r: Result<Disk>)
    requires img.Valid()
    requires imageType == ImageTypeMHD ==> SavableMHD(SnapshotOf(img), filename)
    ensures r == Saved(disk, SnapshotOf(img), filename, imageType, w)
    ensures r.Ok? <==> imageType == ImageTypeRaw || imageType == ImageTypeMHD
    ensures r.Ok? ==> filename in r.value && forall p :: p in disk ==> p in r.value
  {
    if imageType == ImageTypeRaw {
      var bytes := WriteRaw(img);
      return Ok(disk[filename := bytes]);
    } else if imageType == ImageTypeMHD {
      var rawName := RawName(filename);
      var bytes := WriteRaw(img);
      var withRaw := disk[rawName := bytes];
      var text := WriteHeader(img, RawBaseAsWritten(rawName), w);
      return Ok(withRaw[filename := w.encode(text)]);
    }
    return Err("unknown image type");
  }

  // ---------------------------------------------------------------------------
  // Round trip
  // ---------------------------------------------------------------------------

  /** The cube root of a positive count is positive and its square fits in `uint32`. */
  ghost predicate CubeRootFits(cubeRoot: nat -> nat)
  {
    forall n: nat :: n > 0 ==> 0 < cubeRoot(n) < 0x1_0000
  }

  /** The writer's renderings are single words the reader scans back, and decoding inverts encoding. */
  ghost predicate Agree(w: Writer, rd: Reader)
  {
    (forall n: nat :: Word(w.natural(n)) && rd.natural(w.natural(n)) == Some(n))
    && (forall x: real :: Word(w.decimal(x)))
    && (forall text: string :: rd.decode(w.encode(text)) == text)
    && CubeRootFits(rd.cubeRoot)
  }

  lemma {:induction false} JoinKeepsOut(ws: seq<string>, c: char)
    requires |ws| > 0 && c != ' '
    requires forall k :: 0 <= k < |ws| ==> c !in ws[k]
    ensures c !in Join(ws, ' ')
  {
    if |ws| > 1 {
      JoinKeepsOut(ws[1..], c);
    }
  }

  lemma {:induction false} TerminatedKeepsOut(ws: seq<string>, c: char)
    requires c != ' '
    requires forall k :: 0 <= k < |ws| ==> c !in ws[k]
    ensures c !in Terminated(ws)
    ensures Terminated(ws) == [] || Terminated(ws)[|Terminated(ws)| - 1] == ' '
  {
    if ws != [] {
      TerminatedKeepsOut(ws[..|ws| - 1], c);
    }
  }

  /** A header value that keeps its line whole: no newline, no `=`, no final carriage return. */
  predicate PlainValue(v: string)
  {
    '\n' !in v && '=' !in v && (v == [] || v[|v| - 1] != '\r')
  }

  /** A header line splits on `=` into its key and value. */
  lemma EntryLine(h: Header, key: string, value: string, rd: Reader)
    requires Word(key) && '=' !in value
    ensures Split(Entry(key, value), '=') == [key + " ", " " + value]
    ensures ApplyLine(h, Entry(key, value), rd) == ApplyEntry(h, key, TrimSpace(" " + value), rd)
  {
    var parts := [key + " ", " " + value];
    assert Entry(key, value) == Join(parts, '=');
    SplitOfJoin(parts, '=');
    TrimOfPadded([], key, " ");
    assert [] + key + " " == key + " ";
  }

  lemma EntryValue(value: string)
    requires Trimmed(value)
    ensures TrimSpace(" " + value) == value
  {
    assert AllSpace(" ") by {
      assert " "[0] == ' ';
    }
    assert AllSpace([]);
    TrimOfPadded(" ", value, []);
    assert " " + value + [] == " " + value;
  }

  lemma EntryPlain(key: string, value: string)
    requires '\n' !in key && PlainValue(value)
    ensures PlainLine(Entry(key, value))
  {
    var e := Entry(key, value);
    assert e[|e| - 1] == (if value == [] then ' ' else value[|value| - 1]);
  }

  lemma KeysAreWords()
    ensures forall k :: 0 <= k < |HeaderKeys| ==> Word(HeaderKeys[k])
  {
    forall k | 0 <= k < |HeaderKeys|
      ensures Word(HeaderKeys[k])
    {
      assert Identifier(HeaderKeys[k]);
      IdentifierIsWord(HeaderKeys[k]);
    }
  }

  lemma DecimalWords(xs: seq<real>, w: Writer, rd: Reader)
    requires Agree(w, rd)
    ensures forall k :: 0 <= k < |xs| ==> Word(w.decimal(xs[k]))
  {
    forall k | 0 <= k < |xs|
      ensures Word(w.decimal(xs[k]))
    {
      var x: real := xs[k];
      assert Word(w.decimal(x));
    }
  }

  lemma NaturalWords(xs: seq<nat>, w: Writer, rd: Reader)
    requires Agree(w, rd)
    ensures forall k :: 0 <= k < |xs| ==> Word(w.natural(xs[k])) && rd.natural(w.natural(xs[k])) == Some(xs[k])
  {
    forall k | 0 <= k < |xs|
      ensures Word(w.natural(xs[k])) && rd.natural(w.natural(xs[k])) == Some(xs[k])
    {
      var x: nat := xs[k];
      assert Word(w.natural(x)) && rd.natural(w.natural(x)) == Some(x);
    }
  }

  /** Words separated by single spaces: a plain, trimmed value whose fields are the words. */
  lemma SpacedValue(ws: seq<string>)
    requires |ws| > 0 && forall k :: 0 <= k < |ws| ==> Word(ws[k])
    ensures PlainValue(Join(ws, ' ')) && Trimmed(Join(ws, ' ')) && Fields(Join(ws, ' ')) == ws
  {
    JoinKeepsOut(ws, '\n');
    JoinKeepsOut(ws, '=');
    JoinOfWordsTrimmed(ws);
    FieldsOfWords(ws);
  }

  lemma TerminatedValue(ws: seq<string>)
    requires forall k :: 0 <= k < |ws| ==> Word(ws[k])
    ensures PlainValue(Terminated(ws))
  {
    TerminatedKeepsOut(ws, '\n');
    TerminatedKeepsOut(ws, '=');
  }

  /** Every value the writer puts in a header is plain. */
  lemma ValuesPlain(s: Snapshot, dataFile: string, w: Writer, rd: Reader)
    requires Agree(w, rd) && Writable(s) && Word(dataFile)
    ensures var vs := HeaderValues(s, dataFile, w);
      forall k :: 0 <= k < |vs| ==> PlainValue(vs[k])
  {
    var n := Written(s.dimension);
    NaturalPlain(s.dimension, w, rd);
    NaturalsPlain(s.size[..n], w, rd);
    DecimalsPlain(s.direction, w, rd);
    DecimalsPlain(s.origin[..s.dimension], w, rd);
    DecimalsPlain(s.spacing[..n], w, rd);
    NameIsWord(s.pixelType);
    WordValue(ElementTypeName(s.pixelType));
    WordValue(dataFile);
    LiteralsPlain();
    var vs := HeaderValues(s, dataFile, w);
    AllPlain(vs);
  }

  lemma AllPlain(vs: seq<string>)
    requires |vs| == 11
    requires PlainValue(vs[0]) && PlainValue(vs[1]) && PlainValue(vs[2]) && PlainValue(vs[3])
    requires PlainValue(vs[4]) && PlainValue(vs[5]) && PlainValue(vs[6]) && PlainValue(vs[7])
    requires PlainValue(vs[8]) && PlainValue(vs[9]) && PlainValue(vs[10])
    ensures forall k :: 0 <= k < |vs| ==> PlainValue(vs[k])
  {
  }

  lemma LiteralsPlain()
    ensures PlainValue("Image") && PlainValue("True") && PlainValue("False")
  {
  }

  lemma NaturalPlain(n: nat, w: Writer, rd: Reader)
    requires Agree(w, rd)
    ensures PlainValue(w.natural(n))
  {
    WordValue(w.natural(n));
  }

  /** Written extents are plain whether spaced or terminated. */
  lemma NaturalsPlain(xs: seq<nat>, w: Writer, rd: Reader)
    requires Agree(w, rd) && |xs| > 0
    ensures PlainValue(Join(Show(xs, w.natural), ' '))
  {
    NaturalWords(xs, w, rd);
    SpacedValue(Show(xs, w.natural));
  }

  /** Written reals are plain whether spaced or terminated. */
  lemma DecimalsPlain(xs: seq<real>, w: Writer, rd: Reader)
    requires Agree(w, rd)
    ensures PlainValue(Terminated(Show(xs, w.decimal)))
    ensures |xs| > 0 ==> PlainValue(Join(Show(xs, w.decimal), ' '))
  {
    DecimalWords(xs, w, rd);
    TerminatedValue(Show(xs, w.decimal));
    if |xs| > 0 {
      SpacedValue(Show(xs, w.decimal));
    }
  }

  /** A word is a plain value that trimming gives back. */
  lemma WordValue(v: string)
    requires Word(v)
    ensures PlainValue(v) && Trimmed(v) && TrimSpace(" " + v) == v
  {
    EntryValue(v);
  }

  /** Lines carrying plain values are plain. */
  lemma HeaderLinesShape(values: seq<string>)
    requires |values| == |HeaderKeys| && forall k :: 0 <= k < |values| ==> PlainValue(values[k])
    ensures forall k :: 0 <= k < |HeaderKeys| ==> PlainLine(HeaderLines(values)[k])
  {
    KeysAreWords();
    forall k | 0 <= k < |HeaderKeys|
      ensures PlainLine(HeaderLines(values)[k])
    {
      EntryPlain(HeaderKeys[k], values[k]);
    }
  }

  /** The header after applying `(key, value)` entries in order, starting from the blank header. */
  function ApplyEntries(entries: seq<(string, string)>, rd: Reader): Header
  {
    if entries == [] then Blank
    else
      var last := entries[|entries| - 1];
      ApplyEntry(ApplyEntries(entries[..|entries| - 1], rd), last.0, last.1, rd)
  }

  /** Lines each of which reads as one entry read as those entries. */
  lemma {:induction false} ParseAsEntries(lines: seq<string>, entries: seq<(string, string)>, rd: Reader)
    requires |lines| == |entries|
    requires forall k, h :: 0 <= k < |lines| ==> ApplyLine(h, lines[k], rd) == ApplyEntry(h, entries[k].0, entries[k].1, rd)
    ensures ParseLines(lines, rd) == ApplyEntries(entries, rd)
  {
    if lines != [] {
      var n := |lines| - 1;
      ParseAsEntries(lines[..n], entries[..n], rd);
      assert ApplyLine(ParseLines(lines[..n], rd), lines[n], rd)
        == ApplyEntry(ParseLines(lines[..n], rd), entries[n].0, entries[n].1, rd);
    }
  }

  /** The entries header lines read as: each key with its value trimmed. */
  function HeaderEntries(values: seq<string>): (es: seq<(string, string)>)
    requires |values| == |HeaderKeys|
    ensures |es| == |HeaderKeys|
    ensures forall k :: 0 <= k < |es| ==> es[k].0 == HeaderKeys[k] && es[k].1 == TrimSpace(" " + values[k])
  {
    seq(|HeaderKeys|, k requires 0 <= k < |HeaderKeys| => (HeaderKeys[k], TrimSpace(" " + values[k])))
  }

  /** Header lines carrying plain values read as their entries. */
  lemma HeaderReadsAsEntries(values: seq<string>, rd: Reader)
    requires |values| == |HeaderKeys| && forall k :: 0 <= k < |values| ==> PlainValue(values[k])
    ensures ParseLines(HeaderLines(values), rd) == ApplyEntries(HeaderEntries(values), rd)
  {
    var ls := HeaderLines(values);
    var es := HeaderEntries(values);
    KeysAreWords();
    forall k, h | 0 <= k < |ls|
      ensures ApplyLine(h, ls[k], rd) == ApplyEntry(h, es[k].0, es[k].1, rd)
    {
      EntryLine(h, HeaderKeys[k], values[k], rd);
    }
    ParseAsEntries(ls, es, rd);
  }

  /** The `NDims` entry of a written header scans back to the number of axes. */
  lemma DimensionEntry(s: Snapshot, dataFile: string, w: Writer, rd: Reader)
    requires Agree(w, rd) && Writable(s) && Word(dataFile)
    ensures rd.natural(TrimSpace(" " + HeaderValues(s, dataFile, w)[2])) == Some(s.dimension)
  {
    NaturalWords([s.dimension], w, rd);
    WordValue(w.natural(s.dimension));
  }

  /** The `DimSize` entry of a written header scans back to the extents. */
  lemma SizeEntry(s: Snapshot, dataFile: string, w: Writer, rd: Reader)
    requires Agree(w, rd) && Writable(s) && s.dimension == |s.size| && Word(dataFile)
    ensures Numbers(s.dimension, Fields(TrimSpace(" " + HeaderValues(s, dataFile, w)[3])), rd.natural, 0) == s.size
  {
    var ws := Show(s.size, w.natural);
    var v := Join(ws, ' ');
    assert HeaderValues(s, dataFile, w)[3] == v by {
      assert s.size[..Written(s.dimension)] == s.size;
    }
    assert TrimSpace(" " + v) == v && Fields(v) == ws by {
      NaturalWords(s.size, w, rd);
      SpacedValue(ws);
      EntryValue(v);
    }
    assert Numbers(|s.size|, ws, rd.natural, 0) == s.size by {
      NaturalWords(s.size, w, rd);
    }
  }

  /** The `ElementType` and `ElementDataFile` entries of a written header come back as written. */
  lemma NameEntries(s: Snapshot, dataFile: string, w: Writer)
    requires Writable(s) && Word(dataFile)
    ensures TrimSpace(" " + HeaderValues(s, dataFile, w)[6]) == ElementTypeName(s.pixelType)
    ensures TrimSpace(" " + HeaderValues(s, dataFile, w)[10]) == dataFile
  {
    NameIsWord(s.pixelType);
    WordValue(ElementTypeName(s.pixelType));
    WordValue(dataFile);
  }

  /** Header entries under the written keys read back as the values the round trip looks at. */
  lemma EntriesRead(es: seq<(string, string)>, rd: Reader, dimension: nat, size: seq<nat>, elementType: string, dataFile: string)
    requires |es| == |HeaderKeys| && forall k :: 0 <= k < |es| ==> es[k].0 == HeaderKeys[k]
    requires rd.natural(es[2].1) == Some(dimension)
    requires Numbers(dimension, Fields(es[3].1), rd.natural, 0) == size
    requires es[6].1 == elementType && es[10].1 == dataFile
    ensures var h := ApplyEntries(es, rd);
      h.dimension == dimension && h.size == size && h.elementType == elementType && h.dataFile == dataFile
  {
    FirstSeven(es, rd, dimension, size);
    LastFour(es, rd);
  }

  /** The first seven entries set the axes, the extents and the element type. */
  lemma FirstSeven(es: seq<(string, string)>, rd: Reader, dimension: nat, size: seq<nat>)
    requires |es| == |HeaderKeys| && forall k :: 0 <= k < |es| ==> es[k].0 == HeaderKeys[k]
    requires rd.natural(es[2].1) == Some(dimension)
    requires Numbers(dimension, Fields(es[3].1), rd.natural, 0) == size
    ensures var h := ApplyEntries(es[..7], rd);
      h.dimension == dimension && h.size == size && h.elementType == es[6].1
  {
    AxesEntries(es, rd, dimension, size);
    KeptBy(es, rd, 4);
    KeptBy(es, rd, 5);
    TypeEntry(es, rd);
  }

  /** The last four entries keep those and set the data file. */
  lemma LastFour(es: seq<(string, string)>, rd: Reader)
    requires |es| == |HeaderKeys| && forall k :: 0 <= k < |es| ==> es[k].0 == HeaderKeys[k]
    ensures Same(ApplyEntries(es, rd), ApplyEntries(es[..7], rd)) && ApplyEntries(es, rd).dataFile == es[10].1
  {
    KeptBy(es, rd, 7);
    KeptBy(es, rd, 8);
    KeptBy(es, rd, 9);
    FileEntry(es, rd);
  }

  /** The `NDims` and `DimSize` entries set the axes and extents. */
  lemma AxesEntries(es: seq<(string, string)>, rd: Reader, dimension: nat, size: seq<nat>)
    requires |es| == |HeaderKeys| && forall k :: 0 <= k < |es| ==> es[k].0 == HeaderKeys[k]
    requires rd.natural(es[2].1) == Some(dimension)
    requires Numbers(dimension, Fields(es[3].1), rd.natural, 0) == size
    ensures ApplyEntries(es[..4], rd).dimension == dimension && ApplyEntries(es[..4], rd).size == size
  {
    EntryStep(es, rd, 2);
    EntryStep(es, rd, 3);
    assert es[2].0 == "NDims" && es[3].0 == "DimSize";
  }

  /** The `ElementType` entry sets the element type and nothing the round trip looks at. */
  lemma TypeEntry(es: seq<(string, string)>, rd: Reader)
    requires |es| == |HeaderKeys| && forall k :: 0 <= k < |es| ==> es[k].0 == HeaderKeys[k]
    ensures ApplyEntries(es[..7], rd) == ApplyEntries(es[..6], rd).(elementType := es[6].1)
  {
    EntryStep(es, rd, 6);
    assert es[6].0 == "ElementType";
  }

  /** The `ElementDataFile` entry, the last one, sets the data file. */
  lemma FileEntry(es: seq<(string, string)>, rd: Reader)
    requires |es| == |HeaderKeys| && forall k :: 0 <= k < |es| ==> es[k].0 == HeaderKeys[k]
    ensures ApplyEntries(es, rd) == ApplyEntries(es[..10], rd).(dataFile := es[10].1)
  {
    EntryStep(es, rd, 10);
    assert es[10].0 == "ElementDataFile";
    assert es[..11] == es;
  }

  /** Two headers with the same axes, extents and element type. */
  predicate Same(g: Header, h: Header)
  {
    g.dimension == h.dimension && g.size == h.size && g.elementType == h.elementType
  }

  lemma EntryStep(es: seq<(string, string)>, rd: Reader, k: nat)
    requires k < |es|
    ensures ApplyEntries(es[..k + 1], rd) == ApplyEntry(ApplyEntries(es[..k], rd), es[k].0, es[k].1, rd)
  {
    assert es[..k + 1][..k] == es[..k];
  }

  /** Entries 4, 5, 7, 8 and 9 under the written keys leave axes, extents and element type alone. */
  lemma KeptBy(es: seq<(string, string)>, rd: Reader, k: nat)
    requires |es| == |HeaderKeys| && forall k :: 0 <= k < |es| ==> es[k].0 == HeaderKeys[k]
    requires k in {4, 5, 7, 8, 9}
    ensures Same(ApplyEntries(es[..k + 1], rd), ApplyEntries(es[..k], rd))
  {
    EntryStep(es, rd, k);
  }

  /** A written header reads back with the same axes, extents, element type and data file. */
  lemma HeaderRoundTrip(s: Snapshot, dataFile: string, w: Writer, rd: Reader)
    requires Agree(w, rd) && Writable(s) && s.dimension == |s.size| && Word(dataFile)
    ensures var h := ParseLines(HeaderLines(HeaderValues(s, dataFile, w)), rd);
      h.dimension == s.dimension && h.size == s.size
      && h.elementType == ElementTypeName(s.pixelType) && h.dataFile == dataFile
  {
    var vs := HeaderValues(s, dataFile, w);
    ValuesPlain(s, dataFile, w, rd);
    DimensionEntry(s, dataFile, w, rd);
    SizeEntry(s, dataFile, w, rd);
    NameEntries(s, dataFile, w);
    ValuesRead(vs, rd, s.dimension, s.size, ElementTypeName(s.pixelType), dataFile);
  }

  /** Plain header values read back as the values the round trip looks at. */
  lemma ValuesRead(vs: seq<string>, rd: Reader, dimension: nat, size: seq<nat>, elementType: string, dataFile: string)
    requires |vs| == |HeaderKeys| && forall k :: 0 <= k < |vs| ==> PlainValue(vs[k])
    requires rd.natural(TrimSpace(" " + vs[2])) == Some(dimension)
    requires Numbers(dimension, Fields(TrimSpace(" " + vs[3])), rd.natural, 0) == size
    requires TrimSpace(" " + vs[6]) == elementType && TrimSpace(" " + vs[10]) == dataFile
    ensures var h := ParseLines(HeaderLines(vs), rd);
      h.dimension == dimension && h.size == size && h.elementType == elementType && h.dataFile == dataFile
  {
    HeaderReadsAsEntries(vs, rd);
    EntriesRead(HeaderEntries(vs), rd, dimension, size, elementType, dataFile);
  }

  /** The raw name of a header inside a directory is the raw name of its base name, inside that directory. */
  lemma RawNameWithin(d: string, name: string)
    requires |name| >= 4
    ensures |Within(d, name)| >= 4 && RawName(Within(d, name)) == Within(d, RawName(name))
  {
    if d != "." {
      assert (d + "/" + name)[..|d + "/" + name| - 4] == d + "/" + name[..|name| - 4];
    }
  }

  lemma RawNameIsName(name: string)
    requires Name(name) && |name| >= 4
    ensures Name(RawName(name)) && |RawName(name)| == |name|
  {
    var r := RawName(name);
    assert forall k :: 0 <= k < |r| ==> r[k] == (if k < |name| - 4 then name[k] else ".raw"[k - (|name| - 4)]);
    assert '/' !in r;
  }

  lemma NotCanonicalDot()
    ensures !Canonical(".")
  {
    assert Split(".", '/')[0] == ".";
    assert ".."[1..] == ".";
  }

  /** Where the writer puts the raw file of a header in a canonical directory, and the name it records. */
  lemma RawPathsWithin(d: string, name: string)
    requires Canonical(d) && Name(name) && |name| >= 4 && name[|name| - 4..] != ".raw"
    ensures |Within(d, name)| >= 4 && RawName(Within(d, name)) == Within(d, RawName(name))
    ensures |Dir(RawName(Within(d, name)))| + 1 <= |RawName(Within(d, name))|
    ensures RawBaseAsWritten(RawName(Within(d, name))) == RawName(name)
    ensures RawName(Within(d, name)) != Within(d, name)
    ensures JoinPath(Dir(Within(d, name)), RawName(name)) == RawName(Within(d, name))
  {
    NotCanonicalDot();
    var rawBase := RawName(name);
    RawNameWithin(d, name);
    RawNameIsName(name);
    var rawPath := RawName(Within(d, name));
    DirAndJoinWithin(d, rawBase);
    DirAndJoinWithin(d, name);
    assert rawPath == d + "/" + rawBase;
    assert rawPath[|rawPath| - 4..] == ".raw";
    SameEnding(d + "/", name, 4);
  }

  /** Prefixing a string keeps its last `k` characters. */
  lemma SameEnding(p: string, s: string, k: nat)
    requires k <= |s|
    ensures (p + s)[|p + s| - k..] == s[|s| - k..]
  {
    var a, b := (p + s)[|p + s| - k..], s[|s| - k..];
    assert forall j :: 0 <= j < k ==> a[j] == b[j];
  }

  lemma RawNameIsWord(name: string)
    requires Word(name) && |name| >= 4
    ensures Word(RawName(name))
  {
    var r := RawName(name);
    assert forall k :: 0 <= k < |r| ==> r[k] == (if k < |name| - 4 then name[k] else ".raw"[k - (|name| - 4)]);
  }

  /** A file of at least one whole pixel, written by the raw writer, reads back as written. */
  lemma RawReadsBack(disk: Disk, path: string, t: PixelType, pixels: seq<byte>, cubeRoot: nat -> nat)
    requires path in disk && |pixels| >= BytesPerPixel(t)
    requires disk[path] == RawBytes(pixels, BytesPerPixel(t))
    requires CubeRootFits(cubeRoot)
    ensures ReadRaw(disk, path, Code(t), cubeRoot).Ok?
    ensures ReadRaw(disk, path, Code(t), cubeRoot).value.data == disk[path]
  {
    FromCodeOfCode(t);
    var bpp := BytesPerPixel(t);
    var total := |pixels| / bpp;
    Arith.DivModBounds(|pixels|, bpp);
    assert total >= 1;
    var raw := disk[path];
    assert |raw| == bpp * total by {
      WholePixels(|pixels|, bpp);
    }
    Arith.DivModOfSum(0, total, bpp);
    assert |raw| / bpp == total;
    assert raw[..total * bpp] == raw;
    SquareFits(cubeRoot(total));
  }

  lemma SquareFits(xy: nat)
    requires 0 < xy < 0x1_0000
    ensures Square32(xy) == xy * xy > 0
  {
    Arith.MulMonotone(xy, 0xFFFF, xy);
    Arith.MulMonotone(xy, 0xFFFF, 0xFFFF);
    Arith.MulMonotone(1, xy, xy);
  }

  /** Saving as MetaImage inside a directory writes the raw bytes beside the header text. */
  lemma SavedFiles(disk: Disk, s: Snapshot, d: string, name: string, w: Writer)
    requires Canonical(d) && Name(name) && |name| >= 4 && name[|name| - 4..] != ".raw"
    requires Writable(s) && s.dimension == |s.size|
    ensures SavableMHD(s, Within(d, name))
    ensures var saved := Saved(disk, s, Within(d, name), ImageTypeMHD, w);
      && saved.Ok?
      && RawName(Within(d, name)) in saved.value
      && saved.value[RawName(Within(d, name))] == RawBytes(s.pixels, BytesPerPixel(s.pixelType))
      && Within(d, name) in saved.value
      && saved.value[Within(d, name)] == w.encode(Unlines(HeaderLines(HeaderValues(s, RawName(name), w))))
  {
    var filename := Within(d, name);
    RawPathsWithin(d, name);
    var rawPath := RawName(filename);
    var raw := RawBytes(s.pixels, BytesPerPixel(s.pixelType));
    var saved := disk[rawPath := raw][filename := w.encode(Unlines(HeaderLines(HeaderValues(s, RawName(name), w))))];
    assert Saved(disk, s, filename, ImageTypeMHD, w) == Ok(saved);
  }

  /**
   * Saving an image as MetaImage inside a directory and reading it back gives the same axes,
   * extents, pixel type and pixel bytes.
   */
  lemma SaveThenLoad(disk: Disk, s: Snapshot, d: string, name: string, w: Writer, rd: Reader)
    requires Agree(w, rd)
    requires Canonical(d) && Name(name) && NoSpace(name) && '=' !in name
    requires |name| >= 4 && name[|name| - 4..] != ".raw"
    requires Writable(s) && s.dimension == |s.size| && |s.pixels| >= BytesPerPixel(s.pixelType)
    ensures SavableMHD(s, Within(d, name))
    ensures var saved := Saved(disk, s, Within(d, name), ImageTypeMHD, w);
      saved.Ok? &&
      var r := Load(saved.value, Within(d, name), ImageTypeMHD, 0, rd);
      r.Ok? && r.value.dimension == s.dimension && r.value.size == s.size
      && r.value.pixelType == s.pixelType
      && r.value.data == RawBytes(s.pixels, BytesPerPixel(s.pixelType))
  {
    var filename := Within(d, name);
    var rawBase := RawName(name);
    RawPathsWithin(d, name);
    RawNameIsWord(name);
    var rawPath := RawName(filename);
    var raw := RawBytes(s.pixels, BytesPerPixel(s.pixelType));
    var values := HeaderValues(s, rawBase, w);
    var lines := HeaderLines(values);
    SavedFiles(disk, s, d, name, w);
    var saved := Saved(disk, s, filename, ImageTypeMHD, w).value;
    ValuesPlain(s, rawBase, w, rd);
    HeaderLinesShape(values);
    LinesOfUnlines(lines);
    assert Lines(rd.decode(saved[filename])) == lines;
    HeaderRoundTrip(s, rawBase, w, rd);
    NameRoundTrip(s.pixelType);
    RawReadsBack(saved, rawPath, s.pixelType, s.pixels, rd.cubeRoot);
  }

  // ---------------------------------------------------------------------------
  // The data file name
  // ---------------------------------------------------------------------------

  /** The data file name evidently intended: the raw file's final element. */
  function RawBaseName(raw: string): (b: string)
    ensures '/' !in b
  {
    BaseName(raw)
  }

  /** For a header in the working directory the recorded name loses its first two characters. */
  lemma RawBaseAsWrittenInWorkingDirectory()
    ensures RawName("test.mhd") == "test.raw"
    ensures Dir("test.raw") == "." && RawBaseAsWritten("test.raw") == "st.raw"
    ensures JoinPath(Dir("test.mhd"), RawBaseAsWritten("test.raw")) == "st.raw"
    ensures RawBaseName("test.raw") == "test.raw"
  {
    DirAndJoinOfName("test.raw");
    DirAndJoinOfName("test.mhd");
    DirAndJoinOfName("st.raw");
    assert "test.raw"[2..] == "st.raw";
  }

  /** With the intended name the reader finds the raw file wherever the header is. */
  lemma RawBaseNameFound(d: string, name: string)
    requires (d == "." || Canonical(d)) && Name(name) && |name| >= 4
    ensures JoinPath(Dir(Within(d, name)), RawBaseName(RawName(Within(d, name)))) == RawName(Within(d, name))
  {
    RawNameWithin(d, name);
    RawNameIsName(name);
    DirAndJoinWithin(d, RawName(name));
    DirAndJoinWithin(d, name);
  }
}
