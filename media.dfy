/** The default media processor and the format-only file validation built on it. */
module Media {
  import opened Wrappers
  import opened Format
  import Codec
  import opened Text

  datatype MediaProcessingResult = MediaProcessingResult(
    success: bool, message: string, format: Option<string>, codec: Option<string>)

  /** The processor's detector: a known format, or None instead of `Unknown`. */
  function ProcessorDetectFormat(ext: Option<string>): (r: Option<MediaFormat>)
    ensures r.None? <==> DetectFormat(ext).Unknown?
    ensures r.Some? ==> r.value == DetectFormat(ext) && !r.value.Unknown?
  {
    var f := DetectFormat(ext);
    if f.Unknown? then None else Some(f)
  }

  /** The format names the processor advertises: the three formats' short names, with "webm" after Matroska's. */
  function SupportedFormats(): (names: seq<string>)
    ensures names == [FormatName(Ivf), FormatName(Matroska), "webm", FormatName(Y4m)]
  {
    ["ivf", "matroska", "webm", "y4m"]
  }

  /** The codec names the processor advertises: the known codecs' names, in the order the codec type lists them. */
  function SupportedCodecs(): (names: seq<string>)
    ensures names == [Codec.CodecName(Codec.Av1), Codec.CodecName(Codec.Vp8), Codec.CodecName(Codec.Vp9),
                      Codec.CodecName(Codec.H264), Codec.CodecName(Codec.H265), Codec.CodecName(Codec.Opus),
                      Codec.CodecName(Codec.Vorbis), Codec.CodecName(Codec.Pcm)]
  {
    ["av1", "vp8", "vp9", "h264", "h265", "opus", "vorbis", "pcm"]
  }

  /**
   * Every advertised format is either recognised as an extension or is the
   * short name of the Matroska format.
   */
  lemma SupportedFormatsKnown(name: string)
    requires name in SupportedFormats()
    ensures ProcessorDetectFormat(Some(name)).Some? || name == FormatName(Matroska)
  {
  }

  /**
   * The advertised codec list is exactly the set of names the codec module
   * accepts, once lower-cased.
   */
  lemma SupportedCodecsAgree(name: string)
    ensures Codec.IsCodecSupported(name) <==> AsciiLower(name) in SupportedCodecs()
  {
  }

  /**
   * Validation by extension: a missing file fails with its path in the
   * message; otherwise success means the extension names a known format,
   * whose short name is reported. No codec is ever reported.
   */
  function ValidateMediaFile(path: string, fileExists: bool, ext: Option<string>): (r: MediaProcessingResult)
    ensures !fileExists ==> r == MediaProcessingResult(false, "File not found: " + path, None, None)
    ensures fileExists ==> r.success == !DetectFormat(ext).Unknown?
    ensures fileExists && r.success ==>
      (r.format == Some(FormatName(DetectFormat(ext))) && r.message == "Format detected successfully")
    ensures fileExists && !r.success ==> (r.format.None? && r.message == "Unknown format")
    ensures r.codec.None?
  {
    if !fileExists then
      MediaProcessingResult(false, "File not found: " + path, None, None)
    else
      var format := ProcessorDetectFormat(ext);
      MediaProcessingResult(
        format.Some?,
        if format.Some? then "Format detected successfully" else "Unknown format",
        if format.Some? then Some(FormatName(format.value)) else None,
        None)
  }

  /** Rust's `{:?}` of a list of plain strings: `["a", "b"]`. */
  function DebugList(names: seq<string>): string
  {
    "[" + DebugItems(names) + "]"
  }

  function DebugItems(names: seq<string>): string
  {
    if |names| == 0 then ""
    else if |names| == 1 then "\"" + names[0] + "\""
    else "\"" + names[0] + "\", " + DebugItems(names[1..])
  }

  /** The format line of the summary: the long name of a detected format, or "Unknown format". */
  function SummaryFormat(ext: Option<string>): (t: string)
    ensures ProcessorDetectFormat(ext).None? ==> t == "Unknown format"
    ensures ProcessorDetectFormat(ext).Some? ==> t == FormatLongName(DetectFormat(ext)) && t != "Unknown format"
  {
    match ProcessorDetectFormat(ext)
    case Some(f) => FormatLongName(f)
    case None => "Unknown format"
  }

  /**
   * `get_media_summary`: the path and the format line, then the two
   * advertised lists as Rust's `{:?}` prints them.
   */
  function MediaSummary(path: string, ext: Option<string>): (s: string)
    ensures var head := "File: " + path + "\nFormat: " + SummaryFormat(ext) + "\n";
      |head| < |s| && s[..|head|] == head
  {
    var head := "File: " + path + "\nFormat: " + SummaryFormat(ext) + "\n";
    var lists := "Supported Formats: " + DebugList(SupportedFormats()) + "\nSupported Codecs: " + DebugList(SupportedCodecs());
    LeadingText(head, lists);
    head + lists
  }

  /** A text put in front of another is the leading part of the result. */
  lemma LeadingText(head: string, tail: string)
    ensures (head + tail)[..|head|] == head
  {
  }
}
