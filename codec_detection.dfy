/**
 * Codec detection from the first bytes of a file and its format: the IVF
 * header fields, the Matroska extension table, and the Y4M header tokens.
 */
module CodecDetection {
  import opened Wrappers
  import opened Bytes
  import opened Text
  import opened Format
  import FormatWriters
  import FormatParsers
  import VideoEncoding

  /**
   * What detection reports: codec name and type, width, height, frame
   * rate, sample rate and channel count.
   */
  datatype Detection = Detection(codecName: string, codecType: string,
                                 width: Option<int>, height: Option<int>, frameRate: Option<FrameRate>,
                                 sampleRate: Option<int>, channels: Option<int>)

  /** The result for input the detector does not recognise: empty names, no fields. */
  const NOTHING_DETECTED: Detection := Detection("", "", None, None, None, None, None)

  /** `detect_codec_from_data`: the detector of the format; nothing for an unknown format. */
  function DetectCodecFromData(data: seq<byte>, format: MediaFormat, ext: Option<string>): (d: Detection)
    ensures format.Unknown? ==> d == NOTHING_DETECTED
    ensures d.sampleRate.None? && d.channels.None?
    ensures d.codecName == "" <==> d == NOTHING_DETECTED
  {
    match format
    case Ivf => DetectIvfCodec(data)
    case Matroska => DetectMatroskaCodec(data, ext)
    case Y4m => Y4mDetection(data)
    case Unknown(_) => NOTHING_DETECTED
  }

  // ---------------------------------------------------------------------
  // IVF

  /**
   * The codec named by the four bytes read as the fourcc: AV01, VP90 and
   * VP80 give av1, vp9 and vp8, other valid UTF-8 is kept as it is, and
   * invalid UTF-8 gives "unknown".
   */
  function FourccCodecName(b: seq<byte>): string
  {
    match Utf8Decode(b)
    case None => "unknown"
    case Some(text) =>
      if text == "AV01" then "av1"
      else if text == "VP90" then "vp9"
      else if text == "VP80" then "vp8"
      else text
  }

  /** Whether `data` starts like an IVF file for this detector: 32 bytes or more, beginning with DKIF. */
  predicate IvfSigned(data: seq<byte>)
  {
    |data| >= 32 && data[..4] == FormatWriters.DKIF
  }

  /**
   * `detect_ivf_codec`: the fourcc at bytes 16-19, width and height as the
   * little-endian u16 at 24 and 26, and 30 fps when the u32 at 28 is
   * non-zero.
   */
  function DetectIvfCodec(data: seq<byte>): (d: Detection)
    ensures !IvfSigned(data) ==> d == NOTHING_DETECTED
    ensures IvfSigned(data) ==>
      d.codecType == "video" && d.codecName == FourccCodecName(data[16..20])
      && d.width == Some(ReadLE16(data, 24)) && d.height == Some(ReadLE16(data, 26))
      && (d.frameRate.Some? <==> ReadLE32(data, 28) != 0)
      && (d.frameRate.Some? ==> d.frameRate == Some(FrameRate(30, 1)))
  {
    if IvfSigned(data) then
      var frameRate := if ReadLE32(data, 28) > 0 then Some(FrameRate(30, 1)) else None;
      FourccNameNotEmpty(data[16..20]);
      Detection(FourccCodecName(data[16..20]), "video", Some(ReadLE16(data, 24)), Some(ReadLE16(data, 26)),
                frameRate, None, None)
    else
      NOTHING_DETECTED
  }

  /** No four bytes give an empty codec name. */
  lemma FourccNameNotEmpty(b: seq<byte>)
    requires |b| == 4
    ensures FourccCodecName(b) != ""
  {
  }

  /** The fourcc the encoders write names their codec. */
  lemma FourccNamesCodec(c: VideoEncoding.VideoCodec)
    ensures c.Av1? ==> FourccCodecName(VideoEncoding.Fourcc(c)) == "av1"
    ensures c.Vp9? ==> FourccCodecName(VideoEncoding.Fourcc(c)) == "vp9"
    ensures c.Vp8? ==> FourccCodecName(VideoEncoding.Fourcc(c)) == "vp8"
  {
    var text := VideoEncoding.CodecFourccText(c);
    Utf8DecodeAscii(text);
    NameOfDecoded(VideoEncoding.Fourcc(c), text);
  }

  lemma NameOfDecoded(b: seq<byte>, text: string)
    requires Utf8Decode(b) == Some(text)
    ensures text == "AV01" ==> FourccCodecName(b) == "av1"
    ensures text == "VP90" ==> FourccCodecName(b) == "vp9"
    ensures text == "VP80" ==> FourccCodecName(b) == "vp8"
  {
  }

  /**
   * The format writers' IVF header is 28 bytes with the fourcc at 12, so
   * this detector reads the low bytes of width and height as the fourcc, and
   * the timebase denominator 1 and a zero as width and height.
   */
  lemma DetectWrittenIvf(width: int, height: int, data: seq<byte>)
    requires |data| >= 32 && data[..28] == FormatWriters.IvfHeader(width, height)
    ensures DetectIvfCodec(data).codecName == FourccCodecName(FormatWriters.Low16LE(width) + FormatWriters.Low16LE(height))
    ensures DetectIvfCodec(data).width == Some(1) && DetectIvfCodec(data).height == Some(0)
  {
    var h := data[..28];
    WrittenIvfLayout(width, height);
    assert data[..4] == h[..4];
    assert data[16..20] == h[16..20];
    assert data[24..28] == h[24..28];
    assert data[24] == 1 && data[25] == 0 && data[26] == 0 && data[27] == 0;
  }

  /** Where the width, height and timebase bytes sit in the written header. */
  lemma WrittenIvfLayout(width: int, height: int)
    ensures var h := FormatWriters.IvfHeader(width, height);
      h[16..20] == FormatWriters.Low16LE(width) + FormatWriters.Low16LE(height) && h[24..28] == [1, 0, 0, 0]
  {
    var front := FormatWriters.DKIF + [0, 0, 0, 0] + [12, 0, 0, 0] + FormatWriters.AV01;
    var dims := FormatWriters.Low16LE(width) + FormatWriters.Low16LE(height);
    var h := front + dims + [30, 0, 0, 0] + [1, 0, 0, 0];
    assert FormatWriters.IvfHeader(width, height) == h;
    assert h[16..20] == dims;
  }

  // ---------------------------------------------------------------------
  // Matroska

  /** `detect_matroska_codec`: the EBML magic, then the codec guessed from the extension. */
  function DetectMatroskaCodec(data: seq<byte>, ext: Option<string>): (d: Detection)
    ensures !(|data| >= 4 && data[..4] == FormatWriters.EBML_MAGIC) ==> d == NOTHING_DETECTED
    ensures |data| >= 4 && data[..4] == FormatWriters.EBML_MAGIC ==>
      d.width.None? && d.height.None? && d.frameRate.None?
      && (ext == Some("webm") ==> d.codecName == "vp9" && d.codecType == "video")
      && (ext == Some("mkv") ==> d.codecName == "h264" && d.codecType == "video")
      && (ext != Some("webm") && ext != Some("mkv") ==> d.codecName == "unknown" && d.codecType == "unknown")
  {
    if |data| >= 4 && data[..4] == FormatWriters.EBML_MAGIC then
      var (name, kind) :=
        match UnwrapOr(ext, "")
        case "webm" => ("vp9", "video")
        case "mkv" => ("h264", "video")
        case _ => ("unknown", "unknown");
      Detection(name, kind, None, None, None, None, None)
    else
      NOTHING_DETECTED
  }

  // ---------------------------------------------------------------------
  // Y4M

  /** The fields the Y4M header tokens set; each starts out absent. */
  datatype Y4mFields = Y4mFields(width: Option<int>, height: Option<int>, frameRate: Option<FrameRate>)

  /**
   * One token: `W` and `H` set their field to the parsed i32, or clear it
   * when the rest does not parse; an `F` token sets the rate only when it
   * splits into two parts that both parse.
   */
  function DetectToken(f: Y4mFields, token: string): Y4mFields
  {
    if StripPrefix(token, 'W').Some? then f.(width := ParseI32(token[1..]))
    else if StripPrefix(token, 'H').Some? then f.(height := ParseI32(token[1..]))
    else if StripPrefix(token, 'F').Some? then
      match FormatParsers.RateParts(token[1..])
      case None => f
      case Some((a, b)) =>
        if ParseInteger(a).Some? && ParseInteger(b).Some? then
          f.(frameRate := Some(FrameRate(ParseInteger(a).value, ParseInteger(b).value)))
        else f
    else f
  }

  function DetectTokens(f: Y4mFields, tokens: seq<string>): Y4mFields
    decreases |tokens|
  {
    if |tokens| == 0 then f else DetectTokens(DetectToken(f, tokens[0]), tokens[1..])
  }

  /** The header text: the bytes before the first newline as UTF-8, or empty when they are not. */
  function Y4mHeaderText(data: seq<byte>, headerEnd: nat): string
    requires headerEnd <= |data|
  {
    UnwrapOr(Utf8Decode(data[..headerEnd]), "")
  }

  function Y4mDetection(data: seq<byte>): Detection
  {
    match IndexOf(data, FormatWriters.NEWLINE)
    case None => NOTHING_DETECTED
    case Some(headerEnd) =>
      var f := DetectTokens(Y4mFields(None, None, None), SplitWhitespace(Y4mHeaderText(data, headerEnd)));
      Detection("raw", "video", f.width, f.height, f.frameRate, None, None)
  }

  /** `detect_y4m_codec`: the token loop over the header line. */
  method DetectY4mCodec(data: seq<byte>) returns (d: Detection)
    ensures d == Y4mDetection(data)
    ensures IndexOf(data, FormatWriters.NEWLINE).None? <==> d == NOTHING_DETECTED
  {
    var found := IndexOf(data, FormatWriters.NEWLINE);
    if found.None? {
      return NOTHING_DETECTED;
    }
    var header := UnwrapOr(Utf8Decode(data[..found.value]), "");
    var tokens := SplitWhitespace(header);
    var width: Option<int> := None;
    var height: Option<int> := None;
    var frameRate: Option<FrameRate> := None;
    for i := 0 to |tokens|
      invariant DetectTokens(Y4mFields(width, height, frameRate), tokens[i..])
        == DetectTokens(Y4mFields(None, None, None), tokens)
    {
      var part := tokens[i];
      assert tokens[i..][1..] == tokens[i + 1..];
      if |part| > 0 && part[0] == 'W' {
        width := ParseI32(part[1..]);
      } else if |part| > 0 && part[0] == 'H' {
        height := ParseI32(part[1..]);
      } else if |part| > 0 && part[0] == 'F' {
        var parts := Split(part[1..], ':');
        if |parts| == 2 {
          var num := ParseInteger(parts[0]);
          var den := ParseInteger(parts[1]);
          if num.Some? && den.Some? {
            frameRate := Some(FrameRate(num.value, den.value));
          }
        }
      }
    }
    assert tokens[|tokens|..] == [];
    d := Detection("raw", "video", width, height, frameRate, None, None);
  }

  /** The rate of the last `F` token whose two parts both parse. */
  function LastParsedRate(tokens: seq<string>): Option<FrameRate>
  {
    if |tokens| == 0 then None
    else
      match LastParsedRate(tokens[1..])
      case Some(r) => Some(r)
      case None => DetectToken(Y4mFields(None, None, None), tokens[0]).frameRate
  }

  /**
   * The token loop as a reference definition: the last `W` token decides
   * the width (absent when its rest does not parse), the last `H` token the
   * height, and the last well-formed `F` token the rate; a field with no
   * such token keeps its starting value.
   */
  lemma DetectTokensLastWins(f: Y4mFields, tokens: seq<string>)
    ensures DetectTokens(f, tokens).width
      == match FormatParsers.LastRest(tokens, 'W') case None => f.width case Some(r) => ParseI32(r)
    ensures DetectTokens(f, tokens).height
      == match FormatParsers.LastRest(tokens, 'H') case None => f.height case Some(r) => ParseI32(r)
    ensures DetectTokens(f, tokens).frameRate
      == match LastParsedRate(tokens) case None => f.frameRate case Some(r) => Some(r)
  {
    LastWidthWins(f, tokens);
    LastHeightWins(f, tokens);
    LastRateWins(f, tokens);
  }

  lemma {:induction false} LastWidthWins(f: Y4mFields, tokens: seq<string>)
    ensures DetectTokens(f, tokens).width
      == match FormatParsers.LastRest(tokens, 'W') case None => f.width case Some(r) => ParseI32(r)
    decreases |tokens|
  {
    if |tokens| > 0 {
      LastWidthWins(DetectToken(f, tokens[0]), tokens[1..]);
    }
  }

  lemma {:induction false} LastHeightWins(f: Y4mFields, tokens: seq<string>)
    ensures DetectTokens(f, tokens).height
      == match FormatParsers.LastRest(tokens, 'H') case None => f.height case Some(r) => ParseI32(r)
    decreases |tokens|
  {
    if |tokens| > 0 {
      LastHeightWins(DetectToken(f, tokens[0]), tokens[1..]);
    }
  }

  lemma {:induction false} LastRateWins(f: Y4mFields, tokens: seq<string>)
    ensures DetectTokens(f, tokens).frameRate
      == match LastParsedRate(tokens) case None => f.frameRate case Some(r) => Some(r)
    decreases |tokens|
  {
    if |tokens| > 0 {
      LastRateWins(DetectToken(f, tokens[0]), tokens[1..]);
    }
  }

  /** A Y4M header is recognised by its newline alone: the result is always raw video then. */
  lemma Y4mNeedsNewline(data: seq<byte>)
    ensures var d := Y4mDetection(data);
      (FormatWriters.NEWLINE in data ==> d.codecName == "raw" && d.codecType == "video")
      && (FormatWriters.NEWLINE !in data ==> d == NOTHING_DETECTED)
  {
  }
}
