/** Container formats, recognised from a path's extension. */
module Format {
  import opened Wrappers
  import opened Text

  datatype MediaFormat = Ivf | Matroska | Y4m | Unknown(name: string)

  /**
   * The format named by a file extension (`None` when the path has none).
   * Matching is case-sensitive; an unrecognised extension is kept,
   * lower-cased, inside `Unknown`.
   */
  function DetectFormat(ext: Option<string>): (f: MediaFormat)
    ensures f == Ivf <==> ext == Some("ivf")
    ensures f == Matroska <==> ext == Some("mkv") || ext == Some("webm")
    ensures f == Y4m <==> ext == Some("y4m")
    ensures f.Unknown? && ext.Some? ==> f.name == AsciiLower(ext.value)
    ensures ext.None? ==> f == Unknown("")
  {
    match ext
    case Some("ivf") => Ivf
    case Some("mkv") => Matroska
    case Some("webm") => Matroska
    case Some("y4m") => Y4m
    case Some(e) => Unknown(AsciiLower(e))
    case None => Unknown("")
  }

  /** The short name of a format. */
  function FormatName(f: MediaFormat): (name: string)
    ensures f.Unknown? ==> name == f.name
  {
    match f
    case Ivf => "ivf"
    case Matroska => "matroska"
    case Y4m => "y4m"
    case Unknown(n) => n
  }

  /** The human-readable description of a format. */
  function FormatLongName(f: MediaFormat): (name: string)
    ensures f.Unknown? ==> name == "Unknown format: " + f.name
  {
    match f
    case Ivf => "Indeo Video Format (IVF)"
    case Matroska => "Matroska/WebM container"
    case Y4m => "YUV4MPEG2 uncompressed video"
    case Unknown(n) => "Unknown format: " + n
  }

  /** Every name the detector can produce is free of upper-case letters. */
  lemma DetectedNameIsLowerCase(ext: Option<string>)
    ensures HasNoUpper(FormatName(DetectFormat(ext)))
  {
    if ext.Some? && DetectFormat(ext).Unknown? {
      AsciiLowerIdempotent(ext.value);
    }
  }

  /**
   * Upper-case spellings of a known extension are not recognised: they
   * come back as an unknown format carrying the lower-cased extension.
   */
  lemma ExtensionMatchIsCaseSensitive(e: string)
    requires e != "ivf" && e != "mkv" && e != "webm" && e != "y4m"
    ensures DetectFormat(Some(e)) == Unknown(AsciiLower(e))
  {
  }

  /**
   * Detecting a format from its own short name gives it back for IVF and
   * Y4M, but "matroska" is not an extension, so it stays unknown.
   */
  lemma DetectFormatOfName(f: MediaFormat)
    requires f.Unknown? ==> HasNoUpper(f.name) && f.name !in ["ivf", "mkv", "webm", "y4m"]
    ensures f != Matroska ==> DetectFormat(Some(FormatName(f))) == f
    ensures f == Matroska ==> DetectFormat(Some(FormatName(f))) == Unknown("matroska")
  {
    match f
    case Unknown(n) => UnknownNameDetected(n);
    case Matroska => UnknownNameDetected("matroska");
    case _ =>
  }

  /** An unknown format's lower-case name is detected as itself. */
  lemma UnknownNameDetected(n: string)
    requires HasNoUpper(n) && n !in ["ivf", "mkv", "webm", "y4m"]
    ensures DetectFormat(Some(n)) == Unknown(n)
  {
    AsciiLowerOfLower(n);
  }

  /** The three known formats have three different descriptions. */
  lemma LongNamesDistinguishFormats(f: MediaFormat, g: MediaFormat)
    requires !f.Unknown? && !g.Unknown?
    ensures FormatLongName(f) == FormatLongName(g) <==> f == g
  {
  }
}
