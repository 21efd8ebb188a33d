/**
 * The encoder front end: codec identifiers, the default configuration, and
 * the placeholder encoders, whose only behaviour is the input-size guard
 * and the frame counter.
 */
module VideoEncoding {
  import opened Wrappers
  import opened Bytes
  import opened Text

  datatype VideoCodec = Av1 | Vp9 | Vp8

  /** The IVF FourCC of a codec. */
  function Fourcc(c: VideoCodec): (f: seq<byte>)
    ensures |f| == 4 && IsAscii(CodecFourccText(c)) && f == AsciiBytes(CodecFourccText(c))
  {
    AsciiBytes(CodecFourccText(c))
  }

  function CodecFourccText(c: VideoCodec): string
  {
    match c
    case Av1 => "AV01"
    case Vp9 => "VP90"
    case Vp8 => "VP80"
  }

  /** The Matroska CodecID of a codec. */
  function CodecId(c: VideoCodec): (id: string)
    ensures |id| == 5 && id[..2] == "V_"
  {
    match c
    case Av1 => "V_AV1"
    case Vp9 => "V_VP9"
    case Vp8 => "V_VP8"
  }

  /** Distinct codecs have distinct FourCCs and distinct CodecIDs. */
  lemma CodecIdentifiersInjective(a: VideoCodec, b: VideoCodec)
    ensures Fourcc(a) == Fourcc(b) <==> a == b
    ensures CodecId(a) == CodecId(b) <==> a == b
  {
    if a != b {
      assert Fourcc(a)[0] != Fourcc(b)[0] || Fourcc(a)[2] != Fourcc(b)[2];
      assert CodecId(a)[2] != CodecId(b)[2] || CodecId(a)[4] != CodecId(b)[4];
    }
  }

  /** `EncoderConfig`; every field is a `u32`. */
  datatype EncoderConfig = EncoderConfig(
    codec: VideoCodec,
    width: nat,
    height: nat,
    frameRate: nat,
    timebaseNum: nat,
    timebaseDen: nat,
    bitrate: nat,
    keyframeInterval: nat,
    quality: nat)

  /** `EncoderConfig::default`: VP9 at 640x480 and 30 fps, 2 Mbit/s, quality 32. */
  function DefaultConfig(): (c: EncoderConfig)
    ensures c.codec == Vp9 && c.width == 640 && c.height == 480 && c.frameRate == 30
  {
    EncoderConfig(Vp9, 640, 480, 30, 1, 30, 2_000_000, 30, 32)
  }

  /**
   * The defaults agree with each other: the timebase is one frame period,
   * a keyframe comes once a second, the quality lies in the encoders'
   * 0..63 scale, and a default frame is 460800 bytes of YUV 4:2:0.
   */
  lemma DefaultConfigConsistent()
    ensures var c := DefaultConfig();
      c.timebaseNum == 1 && c.timebaseDen == c.frameRate
      && c.keyframeInterval == c.frameRate
      && c.quality <= 63
      && ExpectedFrameSize(c) == 460800
  {
  }

  /**
   * The input size `encode_frame` accepts: the luma plane plus two
   * quarter-size chroma planes. `width * height` is a `u32` product and
   * wraps, as in a release build.
   */
  function ExpectedFrameSize(c: EncoderConfig): (n: nat)
    ensures var y := (c.width * c.height) % U32_LIMIT; y + 2 * (y / 4) == n
    ensures n <= (c.width * c.height) % U32_LIMIT * 3 / 2
  {
    var y := (c.width * c.height) % U32_LIMIT;
    y + 2 * (y / 4)
  }

  datatype EncodedFrame = EncodedFrame(data: seq<byte>, timestamp: nat, isKeyframe: bool)

  /** The message `encode_frame` gives for a wrongly sized frame. */
  function SizeMessage(expected: nat, got: nat): (m: string)
    ensures |m| > 32 && m[..32] == "Invalid YUV data size: expected "
  {
    "Invalid YUV data size: expected " + IntToString(expected) + ", got " + IntToString(got)
  }

  /**
   * The AV1 and VP9 placeholder encoders, which behave identically: they
   * check the frame size, count accepted frames and produce no output.
   */
  class FrameEncoder {
    const config: EncoderConfig
    var frameCount: nat

    constructor (config: EncoderConfig)
      ensures this.config == config && frameCount == 0
    {
      this.config := config;
      frameCount := 0;
    }

    /**
     * A frame of the wrong size is rejected and not counted; a frame of
     * the right size is counted once and yields no encoded output.
     */
    method EncodeFrame(yuv: seq<byte>, timestamp: nat) returns (r: Result<Option<EncodedFrame>, string>)
      modifies this
      ensures |yuv| != ExpectedFrameSize(config) ==>
        r == Err(SizeMessage(ExpectedFrameSize(config), |yuv|)) && frameCount == old(frameCount)
      ensures |yuv| == ExpectedFrameSize(config) ==> r == Ok(None) && frameCount == old(frameCount) + 1
    {
      var ySize := (config.width * config.height) % U32_LIMIT;
      var uvSize := ySize / 4;
      var expectedSize := ySize + 2 * uvSize;
      if |yuv| != expectedSize {
        return Err(SizeMessage(expectedSize, |yuv|));
      }
      frameCount := frameCount + 1;
      return Ok(None);
    }

    /** Nothing is buffered, so flushing yields no frames. */
    method Flush() returns (r: Result<seq<EncodedFrame>, string>)
      ensures r == Ok([])
    {
      return Ok([]);
    }
  }

  /** Why `create_encoder` refuses a codec; the Rust error carries a message for each. */
  datatype EncoderFailure = Av1FeatureDisabled | Vp9FeatureDisabled | Vp8NotImplemented

  /**
   * Which encoders `create_encoder` can build: AV1 and VP9 only when their
   * build features are on, VP8 never.
   */
  function EncoderError(codec: VideoCodec, av1Enabled: bool, vp9Enabled: bool): (e: Option<EncoderFailure>)
    ensures e.None? <==> (codec == Av1 && av1Enabled) || (codec == Vp9 && vp9Enabled)
    ensures codec == Av1 && !av1Enabled ==> e == Some(Av1FeatureDisabled)
    ensures codec == Vp9 && !vp9Enabled ==> e == Some(Vp9FeatureDisabled)
    ensures codec == Vp8 ==> e == Some(Vp8NotImplemented)
  {
    match codec
    case Av1 => if av1Enabled then None else Some(Av1FeatureDisabled)
    case Vp9 => if vp9Enabled then None else Some(Vp9FeatureDisabled)
    case Vp8 => Some(Vp8NotImplemented)
  }

  method CreateEncoder(config: EncoderConfig, av1Enabled: bool, vp9Enabled: bool) returns (r: Result<FrameEncoder, EncoderFailure>)
    ensures EncoderError(config.codec, av1Enabled, vp9Enabled).Some? ==>
      r == Err(EncoderError(config.codec, av1Enabled, vp9Enabled).value)
    ensures EncoderError(config.codec, av1Enabled, vp9Enabled).None? ==>
      r.Ok? && fresh(r.value) && r.value.config == config && r.value.frameCount == 0
  {
    var err := EncoderError(config.codec, av1Enabled, vp9Enabled);
    if err.Some? {
      return Err(err.value);
    }
    var encoder := new FrameEncoder(config);
    return Ok(encoder);
  }

  /**
   * The size guard of `yuv420_to_frame`: enough bytes give the Y, U and V
   * planes, which tile the start of the input; too few give an error.
   */
  function Yuv420Planes(yuv: seq<byte>, width: nat, height: nat): (r: Result<(seq<byte>, seq<byte>, seq<byte>), string>)
    ensures var y := width * height;
      r.Ok? <==> |yuv| >= y + 2 * (y / 4)
    ensures r.Err? ==> r.error == "Insufficient YUV data for frame dimensions"
    ensures r.Ok? ==>
      |r.value.0| == width * height && |r.value.1| == |r.value.2| == width * height / 4
      && r.value.0 + r.value.1 + r.value.2 == yuv[..width * height + 2 * (width * height / 4)]
  {
    var ySize := width * height;
    var uvSize := ySize / 4;
    if |yuv| < ySize + 2 * uvSize then Err("Insufficient YUV data for frame dimensions")
    else
      var planes := (yuv[..ySize], yuv[ySize..ySize + uvSize], yuv[ySize + uvSize..ySize + 2 * uvSize]);
      assert planes.0 + planes.1 + planes.2 == yuv[..ySize + 2 * uvSize];
      Ok(planes)
  }
}
