/** Codecs by name, their kind, and the set of names the toolkit supports. */
module Codec {
  import opened Text

  datatype MediaCodec = Av1 | Vp8 | Vp9 | H264 | H265 | Opus | Vorbis | Pcm | Unknown(name: string)

  datatype CodecType = Video | Audio | Subtitle | Data | Unknown

  /** The eight lower-case codec names the toolkit supports. */
  const SupportedCodecNames: seq<string> :=
    ["av1", "vp8", "vp9", "h264", "h265", "opus", "vorbis", "pcm"]

  /** The lower-case name of a codec; an unknown codec keeps its own name. */
  function CodecName(c: MediaCodec): (name: string)
    ensures !c.Unknown? ==> name in SupportedCodecNames
    ensures c.Unknown? ==> name == c.name
  {
    match c
    case Av1 => "av1"
    case Vp8 => "vp8"
    case Vp9 => "vp9"
    case H264 => "h264"
    case H265 => "h265"
    case Opus => "opus"
    case Vorbis => "vorbis"
    case Pcm => "pcm"
    case Unknown(n) => n
  }

  /** Video codecs are video, audio codecs audio; no codec is subtitle or data. */
  function CodecTypeOf(c: MediaCodec): (t: CodecType)
    ensures t != CodecType.Subtitle && t != CodecType.Data
    ensures t == CodecType.Unknown <==> c.Unknown?
  {
    match c
    case Av1 => Video
    case Vp8 => Video
    case Vp9 => Video
    case H264 => Video
    case H265 => Video
    case Opus => Audio
    case Vorbis => Audio
    case Pcm => Audio
    case Unknown(_) => CodecType.Unknown
  }

  /**
   * Whether a codec name, in any letter case, is supported: exactly when
   * its lower-case form is the name of a known codec.
   */
  function IsCodecSupported(name: string): (supported: bool)
    ensures supported <==> exists c: MediaCodec :: !c.Unknown? && CodecName(c) == AsciiLower(name)
  {
    SupportedNameOfCodec(AsciiLower(name));
    AsciiLower(name) in SupportedCodecNames
  }

  /** Every supported name is the name of a known codec. */
  lemma SupportedNameOfCodec(name: string)
    ensures name in SupportedCodecNames ==> exists c: MediaCodec :: !c.Unknown? && CodecName(c) == name
  {
    if name == "av1" { assert CodecName(Av1) == name; }
    else if name == "vp8" { assert CodecName(Vp8) == name; }
    else if name == "vp9" { assert CodecName(Vp9) == name; }
    else if name == "h264" { assert CodecName(H264) == name; }
    else if name == "h265" { assert CodecName(H265) == name; }
    else if name == "opus" { assert CodecName(Opus) == name; }
    else if name == "vorbis" { assert CodecName(Vorbis) == name; }
    else if name == "pcm" { assert CodecName(Pcm) == name; }
  }

  /** The name of every known codec is supported. */
  lemma KnownCodecsSupported(c: MediaCodec)
    requires !c.Unknown?
    ensures IsCodecSupported(CodecName(c))
  {
    var name := CodecName(c);
    assert HasNoUpper(name);
    LowerNameSupported(name);
  }

  /** A listed name without upper-case letters is supported as it stands. */
  lemma LowerNameSupported(name: string)
    requires name in SupportedCodecNames && HasNoUpper(name)
    ensures IsCodecSupported(name)
  {
    AsciiLowerOfLower(name);
  }

  /** Different known codecs have different names. */
  lemma CodecNameInjective(c: MediaCodec, d: MediaCodec)
    requires !c.Unknown? && !d.Unknown?
    ensures CodecName(c) == CodecName(d) <==> c == d
  {
  }

  /** Support is decided by name alone, ignoring letter case. */
  lemma SupportIgnoresCase(name: string)
    ensures IsCodecSupported(name) == IsCodecSupported(AsciiLower(name))
  {
    AsciiLowerIdempotent(name);
  }
}
