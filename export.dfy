/**
 * Fixed parameters of the PNG export: the background colour for each mode,
 * the download file name, the circular clip region, and the outcome of one
 * export run given what its asynchronous steps did.
 */
module Export {
  import opened Wrappers

  datatype ExportSize = Size512 | Size1024 | Size2048 {
    function Pixels(): nat {
      match this
      case Size512 => 512
      case Size1024 => 1024
      case Size2048 => 2048
    }
  }

  datatype ExportBg = Transparent | OffBlack | OffWhite

  datatype ExportShape = Square | Circle

  datatype ExportOptions = ExportOptions(size: ExportSize, bg: ExportBg, shape: ExportShape)

  /** The canvas background colour the export renders with. */
  function BgColor(bg: ExportBg): (c: string)
    ensures bg != Transparent ==> |c| == 7 && c[0] == '#'
    ensures bg == Transparent ==> |c| > 5 && c[..5] == "rgba("
  {
    match bg
    case Transparent => "rgba(0,0,0,0)"
    case OffBlack => "#131318"
    case OffWhite => "#ededff"
  }

  /** Each background mode renders with its own colour. */
  lemma BgColorsDistinct()
    ensures forall a, b :: BgColor(a) == BgColor(b) ==> a == b
  {
    assert |BgColor(Transparent)| == 13;
    assert BgColor(OffBlack)[1] != BgColor(OffWhite)[1];
  }

  function ShapeName(shape: ExportShape): string {
    match shape
    case Square => "square"
    case Circle => "circle"
  }

  function DigitChar(d: nat): char
    requires d < 10
  {
    "0123456789"[d]
  }

  /** Decimal notation of a natural number, as a template literal prints it. */
  function Decimal(n: nat): (s: string)
    ensures |s| >= 1
    ensures forall k :: 0 <= k < |s| ==> '0' <= s[k] <= '9'
  {
    if n < 10 then [DigitChar(n)] else Decimal(n / 10) + [DigitChar(n % 10)]
  }

  // The decimal spellings of the three export sizes, digit by digit.
  lemma Decimal512()
    ensures Decimal(512) == "512"
  {
    assert Decimal(5) == "5";
    assert Decimal(51) == "51";
  }

  lemma Decimal1024()
    ensures Decimal(1024) == "1024"
  {
    assert Decimal(1) == "1";
    assert Decimal(10) == "10";
    assert Decimal(102) == "102";
  }

  lemma Decimal2048()
    ensures Decimal(2048) == "2048"
  {
    assert Decimal(2) == "2";
    assert Decimal(20) == "20";
    assert Decimal(204) == "204";
  }

  /** Each size's decimal spelling reads back as that size. */
  lemma SizeDecimals(size: ExportSize)
    ensures ParseSize(Decimal(size.Pixels())) == Some(size)
  {
    match size
    case Size512 => Decimal512();
    case Size1024 => Decimal1024();
    case Size2048 => Decimal2048();
  }

  const NamePrefix: string := "liquid-pfp-"
  const NameSuffix: string := ".png"

  /** `liquid-pfp-${shape}-${size}.png`. */
  function FileName(shape: ExportShape, size: ExportSize): (n: string)
    ensures |n| > |NamePrefix| + |ShapeName(shape)| + |NameSuffix|
    ensures n[..|NamePrefix|] == NamePrefix && n[|n| - |NameSuffix|..] == NameSuffix
    ensures n[|NamePrefix|..|NamePrefix| + |ShapeName(shape)|] == ShapeName(shape)
  {
    NamePrefix + ShapeName(shape) + "-" + Decimal(size.Pixels()) + NameSuffix
  }

  function ParseSize(digits: string): Option<ExportSize> {
    if digits == "512" then Some(Size512)
    else if digits == "1024" then Some(Size1024)
    else if digits == "2048" then Some(Size2048)
    else None
  }

  function ParseShape(word: string): Option<ExportShape> {
    if word == "square" then Some(Square)
    else if word == "circle" then Some(Circle)
    else None
  }

  /** Reads the shape and size back out of a download file name. */
  function ParseFileName(name: string): Option<(ExportShape, ExportSize)> {
    if |name| < |NamePrefix| + 7 + 1 + |NameSuffix| then None
    else if name[..|NamePrefix|] != NamePrefix || name[|name| - |NameSuffix|..] != NameSuffix then None
    else
      var body := name[|NamePrefix|..|name| - |NameSuffix|];
      if body[6] != '-' then None
      else
        match (ParseShape(body[..6]), ParseSize(body[7..]))
        case (Some(shape), Some(size)) => Some((shape, size))
        case _ => None
  }

  /** A name built from a 6-letter shape word and a non-empty digit string
      parses as that word and those digits. */
  lemma ParseNameParts(sn: string, dn: string)
    requires |sn| == 6 && |dn| >= 1
    ensures ParseFileName(NamePrefix + sn + "-" + dn + NameSuffix) ==
      match (ParseShape(sn), ParseSize(dn))
      case (Some(shape), Some(size)) => Some((shape, size))
      case _ => None
  {
    var name := NamePrefix + sn + "-" + dn + NameSuffix;
    assert name == NamePrefix + (sn + "-" + dn) + NameSuffix;
    var p := |NamePrefix|;
    assert name[..p] == NamePrefix;
    assert name[|name| - |NameSuffix|..] == NameSuffix;
    var body := name[p..|name| - |NameSuffix|];
    assert body == sn + "-" + dn;
    assert body[..6] == sn && body[6] == '-' && body[7..] == dn;
  }

  /** The file name records the export's shape and size: parsing it gives them back. */
  lemma FileNameRoundTrip(shape: ExportShape, size: ExportSize)
    ensures ParseFileName(FileName(shape, size)) == Some((shape, size))
  {
    SizeDecimals(size);
    ParseNameParts(ShapeName(shape), Decimal(size.Pixels()));
  }

  /** Different shapes or sizes never produce the same file name. */
  lemma FileNameInjective(s1: ExportShape, z1: ExportSize, s2: ExportShape, z2: ExportSize)
    requires FileName(s1, z1) == FileName(s2, z2)
    ensures s1 == s2 && z1 == z2
  {
    FileNameRoundTrip(s1, z1);
    FileNameRoundTrip(s2, z2);
  }

  // ----- Circle clip -----

  /** The clip region of a circle export: the disc inscribed in the square
      canvas, centre `(size/2, size/2)`, radius `size/2`. */
  predicate InsideClip(size: real, x: real, y: real) {
    var c := size / 2.0;
    (x - c) * (x - c) + (y - c) * (y - c) <= c * c
  }

  lemma SquareGrows(d: real, r: real)
    requires d > r >= 0.0
    ensures d * d > r * r
  {
    var e := d - r;
    assert d * d == r * r + e * (d + r);
    assert e * (d + r) > 0.0;
  }

  lemma SquareNonNegative(d: real)
    ensures d * d >= 0.0
  {
    if d < 0.0 {
      assert d * d == (-d) * (-d);
    }
  }

  lemma SquareBound(d: real, r: real)
    requires r >= 0.0 && d * d <= r * r
    ensures -r <= d <= r
  {
    if d > r {
      SquareGrows(d, r);
    } else if d < -r {
      SquareGrows(-d, r);
    }
  }

  /** The clip region is centred on the canvas and lies inside it; the corners are clipped. */
  lemma ClipRegionInCanvas(size: real, x: real, y: real)
    requires size > 0.0
    ensures InsideClip(size, size / 2.0, size / 2.0)
    ensures InsideClip(size, x, y) ==> 0.0 <= x <= size && 0.0 <= y <= size
    ensures !InsideClip(size, 0.0, 0.0) && !InsideClip(size, size, size)
    ensures !InsideClip(size, 0.0, size) && !InsideClip(size, size, 0.0)
  {
    var c := size / 2.0;
    if InsideClip(size, x, y) {
      SquareNonNegative(x - c);
      SquareNonNegative(y - c);
      assert (x - c) * (x - c) <= c * c;
      assert (y - c) * (y - c) <= c * c;
      SquareBound(x - c, c);
      SquareBound(y - c, c);
    }
    assert c * c > 0.0;
  }

  // ----- One export run -----

  /** What one awaited step of the export did. `Throws(None)` is a thrown value
      that is not an `Error`. */
  datatype Step = Done | Throws(message: Option<string>)

  /** The environment of one run: the resample, whether a 2D context could be
      made for the circle canvas, and the PNG encoding. */
  datatype ExportEnv = ExportEnv(resize: Step, context: bool, encode: Step)

  datatype ExportStatus = Downloaded(name: string) | Failed(message: string) | Aborted

  const DefaultExportError: string := "Export failed. Please try again."

  function ErrorText(step: Step): string
    requires step.Throws?
  {
    match step.message
    case Some(m) => m
    case None => DefaultExportError
  }

  /** The result of a run: the first step that throws decides the error; a
      circle export whose canvas has no 2D context returns early with neither
      a download nor an error. */
  function Outcome(opts: ExportOptions, env: ExportEnv): (r: ExportStatus)
    ensures r.Downloaded? <==> env.resize == Done && (opts.shape == Circle ==> env.context) && env.encode == Done
    ensures r.Downloaded? ==> r.name == FileName(opts.shape, opts.size)
    ensures r.Aborted? <==> opts.shape == Circle && env.resize == Done && !env.context
    ensures r.Failed? ==>
      if env.resize.Throws? then r.message == ErrorText(env.resize)
      else env.encode.Throws? && r.message == ErrorText(env.encode)
  {
    if env.resize.Throws? then Failed(ErrorText(env.resize))
    else if opts.shape == Circle && !env.context then Aborted
    else if env.encode.Throws? then Failed(ErrorText(env.encode))
    else Downloaded(FileName(opts.shape, opts.size))
  }
}
