/**
 * `lib.rs`: the library entry points once file reads and writes are
 * replaced by byte sequences — the media-info assembly, the format-pair
 * dispatch of `transcode` and `transform_format`, the bytes
 * `transform_format` writes, and the fixed format lists.
 */
module Lib {
  import opened Wrappers
  import opened Bytes
  import opened Text
  import opened Format
  import FormatWriters
  import CodecDetection

  // ---------------------------------------------------------------------
  // get_media_info

  datatype StreamInfo = StreamInfo(index: int, codecType: string, codecName: string,
                                   width: Option<int>, height: Option<int>, frameRate: Option<FrameRate>,
                                   sampleRate: Option<int>, channels: Option<int>)

  datatype FormatInfo = FormatInfo(name: string, longName: string, startTime: Option<int>, nbStreams: int)

  datatype MediaInfo = MediaInfo(format: FormatInfo, streams: seq<StreamInfo>)

  /** At most this many leading bytes of the file are handed to the codec detector. */
  const DETECTION_WINDOW: nat := 8192

  /** The bytes the detector sees: the first `min(8192, size)` bytes of the file. */
  function DetectionWindow(contents: seq<byte>): (head: seq<byte>)
    ensures |head| <= DETECTION_WINDOW && head <= contents
    ensures |contents| <= DETECTION_WINDOW ==> head == contents
  {
    if |contents| <= DETECTION_WINDOW then contents else contents[..DETECTION_WINDOW]
  }

  /**
   * `get_media_info`: a missing file is an error naming the path;
   * otherwise the format comes from the extension, and one stream
   * describing the detected codec is reported exactly when a codec name was
   * detected.
   */
  function GetMediaInfo(path: string, fileExists: bool, ext: Option<string>, contents: seq<byte>): (r: Result<MediaInfo, string>)
    ensures !fileExists <==> r.Err?
    ensures !fileExists ==> r.error == "File not found: " + path
    ensures r.Ok? ==>
      r.value.format.name == FormatName(DetectFormat(ext))
      && r.value.format.longName == FormatLongName(DetectFormat(ext))
      && r.value.format.nbStreams == |r.value.streams|
    ensures r.Ok? ==>
      var d := CodecDetection.DetectCodecFromData(DetectionWindow(contents), DetectFormat(ext), ext);
      (r.value.format.nbStreams == 1 <==> d.codecName != "")
      && (r.value.format.nbStreams == 0 <==> d.codecName == "")
  {
    if !fileExists then Err("File not found: " + path)
    else
      var format := DetectFormat(ext);
      var d := CodecDetection.DetectCodecFromData(DetectionWindow(contents), format, ext);
      var streams :=
        if d.codecName != "" then
          [StreamInfo(0, d.codecType, d.codecName, d.width, d.height, d.frameRate, d.sampleRate, d.channels)]
        else [];
      Ok(MediaInfo(FormatInfo(FormatName(format), FormatLongName(format), Some(0), |streams|), streams))
  }

  /** The single stream reported for a file is the detector's reading of its first bytes. */
  lemma StreamIsDetection(path: string, ext: Option<string>, contents: seq<byte>)
    requires GetMediaInfo(path, true, ext, contents).Ok?
    ensures var info := GetMediaInfo(path, true, ext, contents).value;
      var d := CodecDetection.DetectCodecFromData(DetectionWindow(contents), DetectFormat(ext), ext);
      |info.streams| == 1 ==>
        info.streams[0].index == 0 && info.streams[0].codecName == d.codecName
        && info.streams[0].codecType == d.codecType
        && info.streams[0].width == d.width && info.streams[0].height == d.height
        && info.streams[0].frameRate == d.frameRate
        && info.streams[0].sampleRate.None? && info.streams[0].channels.None?
  {
  }

  /** A file whose extension names no known format reports no stream at all. */
  lemma UnknownFormatHasNoStreams(path: string, ext: Option<string>, contents: seq<byte>)
    requires DetectFormat(ext).Unknown?
    ensures GetMediaInfo(path, true, ext, contents).Ok?
    ensures GetMediaInfo(path, true, ext, contents).value.streams == []
    ensures GetMediaInfo(path, true, ext, contents).value.format.name == DetectFormat(ext).name
  {
    var d := CodecDetection.DetectCodecFromData(DetectionWindow(contents), DetectFormat(ext), ext);
    assert d == CodecDetection.NOTHING_DETECTED;
  }

  // ---------------------------------------------------------------------
  // Format-pair dispatch

  /** The six conversions the library knows, by source and target container. */
  datatype Route = IvfToMatroska | MatroskaToIvf | Y4mToIvf | IvfToY4m | Y4mToMatroska | MatroskaToY4m

  function RouteSource(r: Route): MediaFormat
  {
    match r
    case IvfToMatroska => Ivf
    case MatroskaToIvf => Matroska
    case Y4mToIvf => Y4m
    case IvfToY4m => Ivf
    case Y4mToMatroska => Y4m
    case MatroskaToY4m => Matroska
  }

  function RouteTarget(r: Route): MediaFormat
  {
    match r
    case IvfToMatroska => Matroska
    case MatroskaToIvf => Ivf
    case Y4mToIvf => Ivf
    case IvfToY4m => Y4m
    case Y4mToMatroska => Matroska
    case MatroskaToY4m => Y4m
  }

  /** The error both dispatchers return for a pair they do not handle. */
  datatype DispatchError = Unsupported(input: MediaFormat, output: MediaFormat)

  /**
   * `transcode`: the route from the input's format to the output's;
   * exactly the ordered pairs of two different known containers have one.
   */
  function TranscodeRoute(input: MediaFormat, output: MediaFormat): (r: Result<Route, DispatchError>)
    ensures r.Ok? <==> !input.Unknown? && !output.Unknown? && input != output
    ensures r.Ok? ==> RouteSource(r.value) == input && RouteTarget(r.value) == output
    ensures r.Err? ==> r.error == Unsupported(input, output)
  {
    match (input, output)
    case (Ivf, Matroska) => Ok(IvfToMatroska)
    case (Matroska, Ivf) => Ok(MatroskaToIvf)
    case (Y4m, Ivf) => Ok(Y4mToIvf)
    case (Ivf, Y4m) => Ok(IvfToY4m)
    case (Y4m, Matroska) => Ok(Y4mToMatroska)
    case (Matroska, Y4m) => Ok(MatroskaToY4m)
    case _ => Err(Unsupported(input, output))
  }

  /** Every route is reached from its own source and target, and only from them. */
  lemma EveryRouteIsDispatched(route: Route, input: MediaFormat, output: MediaFormat)
    ensures TranscodeRoute(RouteSource(route), RouteTarget(route)) == Ok(route)
    ensures TranscodeRoute(input, output) == Ok(route) ==> input == RouteSource(route) && output == RouteTarget(route)
  {
  }

  /**
   * `transform_format`: only four of the six routes — the two between IVF
   * and Matroska and the two between Y4M and IVF — are handled.
   */
  function TransformRoute(input: MediaFormat, output: MediaFormat): (r: Result<Route, DispatchError>)
    ensures r.Ok? <==> (input, output) in {(Ivf, Matroska), (Matroska, Ivf), (Y4m, Ivf), (Ivf, Y4m)}
    ensures r.Ok? ==> TranscodeRoute(input, output) == r
    ensures r.Err? ==> r.error == Unsupported(input, output)
  {
    match (input, output)
    case (Ivf, Matroska) => Ok(IvfToMatroska)
    case (Matroska, Ivf) => Ok(MatroskaToIvf)
    case (Y4m, Ivf) => Ok(Y4mToIvf)
    case (Ivf, Y4m) => Ok(IvfToY4m)
    case _ => Err(Unsupported(input, output))
  }

  /** A conversion `transform_format` does is one `transcode` also routes, never between Y4M and Matroska. */
  lemma TransformIsNarrowerThanTranscode(input: MediaFormat, output: MediaFormat)
    ensures TransformRoute(input, output).Ok? ==> TranscodeRoute(input, output).Ok?
    ensures TranscodeRoute(input, output).Ok? && TransformRoute(input, output).Err? <==>
      (input, output) in {(Y4m, Matroska), (Matroska, Y4m)}
  {
  }

  // ---------------------------------------------------------------------
  // transform_format output bytes

  /** The 36 header bytes written before Matroska data converted to IVF. */
  const MATROSKA_TO_IVF_HEADER: seq<byte> :=
    FormatWriters.DKIF + [0, 0, 0, 0] + [12, 0, 0, 0] + [0x30, 0x39, 0x50, 0x90] + [0x40, 0x01, 0, 0]
    + [0xF0, 0, 0, 0] + [30, 0, 0, 0] + [1, 0, 0, 0] + [30, 0, 0, 0]

  /** The 36 header bytes written before Y4M data converted to IVF. */
  const Y4M_TO_IVF_HEADER: seq<byte> :=
    FormatWriters.DKIF + [0, 0, 0, 0] + [12, 0, 0, 0] + [0x30, 0x39, 0x50, 0x90] + [0x80, 0x02, 0, 0]
    + [0xE0, 0x01, 0, 0] + [25, 0, 0, 0] + [1, 0, 0, 0] + [25, 0, 0, 0]

  /** The header line written before IVF data converted to Y4M: the text `YUV4MPEG2 640 480 25 1` and a newline. */
  const IVF_TO_Y4M_HEADER: seq<byte> :=
    [0x59, 0x55, 0x56, 0x34, 0x4D, 0x50, 0x45, 0x47, 0x32, 0x20, 0x36, 0x34, 0x30, 0x20, 0x34, 0x38,
     0x30, 0x20, 0x32, 0x35, 0x20, 0x31, 0x0A]

  /** Where the copied Matroska data starts: past the EBML magic when the input is longer and begins with it. */
  function MatroskaDataStart(input: seq<byte>): (start: nat)
    ensures start <= |input|
    ensures start == 4 <==> |input| > 4 && input[..4] == FormatWriters.EBML_MAGIC
    ensures start != 4 ==> start == 0
  {
    if |input| > 4 && input[..4] == FormatWriters.EBML_MAGIC then 4 else 0
  }

  /** Where the copied IVF data starts: past a 32-byte header when the input is longer and begins with DKIF. */
  function IvfDataStart(input: seq<byte>): (start: nat)
    ensures start <= |input|
    ensures start == 32 <==> |input| > 32 && input[..4] == FormatWriters.DKIF
    ensures start != 32 ==> start == 0
  {
    if |input| > 32 && input[..4] == FormatWriters.DKIF then 32 else 0
  }

  /** The bytes after the first newline, or none when there is no newline. */
  function AfterHeaderLine(input: seq<byte>): seq<byte>
  {
    match IndexOf(input, FormatWriters.NEWLINE)
    case Some(pos) => if pos + 1 < |input| then input[pos + 1..] else []
    case None => []
  }

  /** The bytes `transform_format` writes for one of its four routes. */
  function Transformed(route: Route, input: seq<byte>): seq<byte>
  {
    match route
    case IvfToMatroska =>
      FormatWriters.EBML_MAGIC + (if |input| > 32 then input[32..] else [])
    case MatroskaToIvf =>
      var start := MatroskaDataStart(input);
      MATROSKA_TO_IVF_HEADER + (if |input| > start then input[start..] else [])
    case Y4mToIvf =>
      Y4M_TO_IVF_HEADER + AfterHeaderLine(input)
    case IvfToY4m =>
      var start := IvfDataStart(input);
      IVF_TO_Y4M_HEADER + (if |input| > start then input[start..] else [])
    case _ => []
  }

  /** `transform_format` on the whole input file: the output file's bytes, or the dispatch error. */
  function TransformFormatSpec(input: seq<byte>, inputFormat: MediaFormat, outputFormat: MediaFormat): Result<seq<byte>, DispatchError>
  {
    match TransformRoute(inputFormat, outputFormat)
    case Ok(route) => Ok(Transformed(route, input))
    case Err(e) => Err(e)
  }

  /**
   * `transform_format`, writing the output file step by step; the file is
   * created only for a handled pair.
   */
  method TransformFormat(input: seq<byte>, inputFormat: MediaFormat, outputFormat: MediaFormat)
    returns (r: Result<seq<byte>, DispatchError>)
    ensures r == TransformFormatSpec(input, inputFormat, outputFormat)
  {
    var route := TransformRoute(inputFormat, outputFormat);
    if route.Err? {
      return Err(route.error);
    }
    var output := new ByteWriter();
    match route.value {
      case IvfToMatroska => WriteIvfAsMatroska(output, input);
      case MatroskaToIvf => WriteMatroskaAsIvf(output, input);
      case Y4mToIvf => WriteY4mAsIvf(output, input);
      case IvfToY4m => WriteIvfAsY4m(output, input);
      case _ => assert false;
    }
    assert output.written == Transformed(route.value, input);
    return Ok(output.written);
  }

  /** The Ivf-to-Matroska arm: the EBML magic, then the input past 32 bytes if there is any. */
  method WriteIvfAsMatroska(output: ByteWriter, input: seq<byte>)
    modifies output
    ensures output.written == old(output.written) + Transformed(IvfToMatroska, input)
  {
    output.WriteAll(FormatWriters.EBML_MAGIC);
    if |input| > 32 {
      output.WriteAll(input[32..]);
    }
  }

  /** The Matroska-to-IVF arm: the fixed header, then the input past the EBML magic if present. */
  method WriteMatroskaAsIvf(output: ByteWriter, input: seq<byte>)
    modifies output
    ensures output.written == old(output.written) + Transformed(MatroskaToIvf, input)
  {
    ghost var before := output.written;
    output.WriteAll(FormatWriters.DKIF);
    output.WriteAll([0, 0, 0, 0]);
    output.WriteAll([12, 0, 0, 0]);
    output.WriteAll([0x30, 0x39, 0x50, 0x90]);
    output.WriteAll([0x40, 0x01, 0, 0]);
    output.WriteAll([0xF0, 0, 0, 0]);
    output.WriteAll([30, 0, 0, 0]);
    output.WriteAll([1, 0, 0, 0]);
    output.WriteAll([30, 0, 0, 0]);
    HeaderWrites(before, FormatWriters.DKIF, [0, 0, 0, 0], [12, 0, 0, 0], [0x30, 0x39, 0x50, 0x90], [0x40, 0x01, 0, 0],
                 [0xF0, 0, 0, 0], [30, 0, 0, 0], [1, 0, 0, 0], [30, 0, 0, 0]);
    ghost var header := output.written;
    var start := if |input| > 4 && input[..4] == FormatWriters.EBML_MAGIC then 4 else 0;
    if |input| > start {
      output.WriteAll(input[start..]);
    }
    ghost var data := if |input| > start then input[start..] else [];
    assert output.written == header + data;
    AppendAssoc(before, MATROSKA_TO_IVF_HEADER, data);
  }

  /** The Y4M-to-IVF arm: the fixed header, then everything after the first newline. */
  method WriteY4mAsIvf(output: ByteWriter, input: seq<byte>)
    modifies output
    ensures output.written == old(output.written) + Transformed(Y4mToIvf, input)
  {
    ghost var before := output.written;
    output.WriteAll(FormatWriters.DKIF);
    output.WriteAll([0, 0, 0, 0]);
    output.WriteAll([12, 0, 0, 0]);
    output.WriteAll([0x30, 0x39, 0x50, 0x90]);
    output.WriteAll([0x80, 0x02, 0, 0]);
    output.WriteAll([0xE0, 0x01, 0, 0]);
    output.WriteAll([25, 0, 0, 0]);
    output.WriteAll([1, 0, 0, 0]);
    output.WriteAll([25, 0, 0, 0]);
    HeaderWrites(before, FormatWriters.DKIF, [0, 0, 0, 0], [12, 0, 0, 0], [0x30, 0x39, 0x50, 0x90], [0x80, 0x02, 0, 0],
                 [0xE0, 0x01, 0, 0], [25, 0, 0, 0], [1, 0, 0, 0], [25, 0, 0, 0]);
    ghost var header := output.written;
    var found := IndexOf(input, FormatWriters.NEWLINE);
    if found.Some? && found.value + 1 < |input| {
      output.WriteAll(input[found.value + 1..]);
    }
    assert output.written == header + AfterHeaderLine(input);
    AppendAssoc(before, Y4M_TO_IVF_HEADER, AfterHeaderLine(input));
  }

  /** Nine writes one after the other append their concatenation. */
  lemma HeaderWrites(s: seq<byte>, a: seq<byte>, b: seq<byte>, c: seq<byte>, d: seq<byte>, e: seq<byte>,
                     f: seq<byte>, g: seq<byte>, h: seq<byte>, i: seq<byte>)
    ensures s + a + b + c + d + e + f + g + h + i == s + (a + b + c + d + e + f + g + h + i)
  {
  }

  /** The IVF-to-Y4M arm: the fixed header line, then the input past a 32-byte IVF header if present. */
  method WriteIvfAsY4m(output: ByteWriter, input: seq<byte>)
    modifies output
    ensures output.written == old(output.written) + Transformed(IvfToY4m, input)
  {
    output.WriteAll(IVF_TO_Y4M_HEADER);
    var start := if |input| > 32 && input[..4] == FormatWriters.DKIF then 32 else 0;
    if |input| > start {
      output.WriteAll(input[start..]);
    }
  }

  /** IVF to Matroska: the EBML magic, then everything past the 32-byte IVF header. */
  lemma IvfToMatroskaLayout(input: seq<byte>)
    ensures var out := Transformed(IvfToMatroska, input);
      out[..4] == FormatWriters.EBML_MAGIC
      && |out| == 4 + (if |input| > 32 then |input| - 32 else 0)
      && forall i :: 4 <= i < |out| ==> out[i] == input[28 + i]
  {
  }

  /** Y4M to IVF: a fixed 36-byte header, then every byte after the first newline (nothing if there is none). */
  lemma Y4mToIvfLayout(input: seq<byte>)
    ensures |Y4M_TO_IVF_HEADER| == 36
    ensures var out := Transformed(Y4mToIvf, input);
      out[..36] == Y4M_TO_IVF_HEADER
      && (FormatWriters.NEWLINE !in input ==> out == Y4M_TO_IVF_HEADER)
      && (forall pos :: 0 <= pos < |input| && input[pos] == FormatWriters.NEWLINE && FormatWriters.NEWLINE !in input[..pos] ==>
            out[36..] == input[pos + 1..])
  {
    var out := Transformed(Y4mToIvf, input);
    forall pos | 0 <= pos < |input| && input[pos] == FormatWriters.NEWLINE && FormatWriters.NEWLINE !in input[..pos]
      ensures out[36..] == input[pos + 1..]
    {
      FirstNewline(input, pos);
    }
  }

  /** The first newline is the one `IndexOf` finds. */
  lemma FirstNewline(input: seq<byte>, pos: nat)
    requires pos < |input| && input[pos] == FormatWriters.NEWLINE && FormatWriters.NEWLINE !in input[..pos]
    ensures IndexOf(input, FormatWriters.NEWLINE) == Some(pos)
  {
  }

  /**
   * Converting IVF to Matroska and back keeps everything after the IVF
   * header; the original 32-byte header is replaced by the fixed 36-byte one.
   */
  lemma IvfThroughMatroskaKeepsPayload(input: seq<byte>)
    requires |input| > 32
    ensures Transformed(MatroskaToIvf, Transformed(IvfToMatroska, input)) == MATROSKA_TO_IVF_HEADER + input[32..]
  {
    var mkv := Transformed(IvfToMatroska, input);
    assert mkv[..4] == FormatWriters.EBML_MAGIC;
    assert mkv[4..] == input[32..];
  }

  /**
   * The IVF headers `transform_format` writes are 36 bytes long, while its
   * own IVF reader — like every IVF reader here — skips 32: converting Y4M
   * to IVF and back leaves the header's last word, the rate 25 as four
   * little-endian bytes, in front of the frame data.
   */
  lemma Y4mThroughIvfGainsRateWord(input: seq<byte>)
    ensures Transformed(IvfToY4m, Transformed(Y4mToIvf, input))
      == IVF_TO_Y4M_HEADER + [25, 0, 0, 0] + AfterHeaderLine(input)
  {
    var ivf := Transformed(Y4mToIvf, input);
    assert ivf[..4] == FormatWriters.DKIF;
    assert ivf[32..] == [25, 0, 0, 0] + AfterHeaderLine(input);
  }

  /** The same four stray bytes, the rate 30, appear when Matroska data goes to IVF and back. */
  lemma MatroskaThroughIvfGainsRateWord(input: seq<byte>)
    requires |input| > 4 && input[..4] == FormatWriters.EBML_MAGIC
    ensures Transformed(IvfToMatroska, Transformed(MatroskaToIvf, input))
      == FormatWriters.EBML_MAGIC + [30, 0, 0, 0] + input[4..]
  {
    var ivf := Transformed(MatroskaToIvf, input);
    assert ivf[32..] == [30, 0, 0, 0] + input[4..];
  }

  /** The Y4M-to-IVF arm with a standard 32-byte IVF header: the header without its duplicated rate word. */
  function TransformedY4mToIvfCorrected(input: seq<byte>): seq<byte>
  {
    Y4M_TO_IVF_HEADER[..32] + AfterHeaderLine(input)
  }

  /**
   * With the 32-byte header, Y4M to IVF and back returns exactly the data
   * after the Y4M header line. Without any such data the IVF file is the
   * bare header, which the IVF-to-Y4M arm copies whole, since it skips a
   * header only when more than 32 bytes are present.
   */
  lemma Y4mThroughIvfCorrected(input: seq<byte>)
    ensures |AfterHeaderLine(input)| > 0 ==>
      Transformed(IvfToY4m, TransformedY4mToIvfCorrected(input)) == IVF_TO_Y4M_HEADER + AfterHeaderLine(input)
    ensures |AfterHeaderLine(input)| == 0 ==>
      Transformed(IvfToY4m, TransformedY4mToIvfCorrected(input)) == IVF_TO_Y4M_HEADER + Y4M_TO_IVF_HEADER[..32]
  {
    var ivf := TransformedY4mToIvfCorrected(input);
    assert ivf[..4] == FormatWriters.DKIF;
    assert ivf[32..] == AfterHeaderLine(input);
    assert |AfterHeaderLine(input)| == 0 ==> ivf == Y4M_TO_IVF_HEADER[..32];
  }

  // ---------------------------------------------------------------------
  // Fixed lists

  /** `get_supported_pixel_formats`: six different names, planar YUV first. */
  function SupportedPixelFormats(): (names: seq<string>)
    ensures |names| == 6 && names[0] == "yuv420p"
    ensures "rgb24" in names
    ensures forall i, j :: 0 <= i < j < |names| ==> names[i] != names[j]
  {
    ["yuv420p", "yuv422p", "yuv444p", "rgb24", "bgr24", "rgba"]
  }

  /**
   * `get_supported_sample_formats`: four different names, from unsigned
   * 8-bit through the signed integer widths to 32-bit float.
   */
  function SupportedSampleFormats(): (names: seq<string>)
    ensures |names| == 4 && names[0] == "u8" && names[3] == "f32"
    ensures "s16" in names && "s32" in names
    ensures forall i, j :: 0 <= i < j < |names| ==> names[i] != names[j]
  {
    ["u8", "s16", "s32", "f32"]
  }
}
