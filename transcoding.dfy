/**
 * The frame extractors and container helpers of the transcoder: the
 * lenient Y4M header parse, the Y4M and IVF frame walks, the FourCC
 * choice, the codec-private blobs and the EBML/IVF writing helpers.
 */
module Transcoding {
  import opened Wrappers
  import opened Bytes
  import opened Text
  import opened Format
  import FormatWriters
  import opened FormatParsers
  import opened VideoEncoding

  // ---------------------------------------------------------------------
  // The transcoder's own parse_y4m_header

  const LENIENT_DEFAULTS: Y4mParams := Y4mParams(320, 240, FrameRate(30, 1))

  /**
   * One token's effect on the lenient parse: an unparsable width, height,
   * numerator or denominator falls back to 320, 240, 30 or 1 instead of
   * failing.
   */
  function LenientToken(p: Y4mParams, token: string): Y4mParams
  {
    if StripPrefix(token, 'W').Some? then p.(width := UnwrapOr(ParseI32(token[1..]), 320))
    else if StripPrefix(token, 'H').Some? then p.(height := UnwrapOr(ParseI32(token[1..]), 240))
    else if StripPrefix(token, 'F').Some? then
      match RateParts(token[1..])
      case None => p
      case Some((num, den)) => p.(frameRate := FrameRate(UnwrapOr(ParseInteger(num), 30), UnwrapOr(ParseInteger(den), 1)))
    else p
  }

  function LenientTokens(p: Y4mParams, tokens: seq<string>): Y4mParams
    decreases |tokens|
  {
    if |tokens| == 0 then p else LenientTokens(LenientToken(p, tokens[0]), tokens[1..])
  }

  function ParseY4mHeaderLenientSpec(header: string): Y4mParams
  {
    LenientTokens(LENIENT_DEFAULTS, SplitWhitespace(header))
  }

  /** `parse_y4m_header` of the transcoder: the same token loop, and it never fails. */
  method ParseY4mHeaderLenient(header: string) returns (r: Result<Y4mParams, HeaderError>)
    ensures r == Ok(ParseY4mHeaderLenientSpec(header))
  {
    var width := 320;
    var height := 240;
    var frameRate := FrameRate(30, 1);
    var tokens := SplitWhitespace(header);
    for i := 0 to |tokens|
      invariant LenientTokens(Y4mParams(width, height, frameRate), tokens[i..]) == ParseY4mHeaderLenientSpec(header)
    {
      var token := tokens[i];
      assert tokens[i..][1..] == tokens[i + 1..];
      if |token| > 0 && token[0] == 'W' {
        width := UnwrapOr(ParseI32(token[1..]), 320);
      } else if |token| > 0 && token[0] == 'H' {
        height := UnwrapOr(ParseI32(token[1..]), 240);
      } else if |token| > 0 && token[0] == 'F' {
        var parts := Split(token[1..], ':');
        if |parts| == 2 {
          var num := UnwrapOr(ParseInteger(parts[0]), 30);
          var den := UnwrapOr(ParseInteger(parts[1]), 1);
          frameRate := FrameRate(num, den);
        }
      }
    }
    assert tokens[|tokens|..] == [];
    return Ok(Y4mParams(width, height, frameRate));
  }

  /**
   * The lenient parse as a reference definition: the last `W`, `H` and
   * two-part `F` tokens decide, each falling back field by field.
   */
  lemma {:induction false} LenientLastWins(p: Y4mParams, tokens: seq<string>)
    ensures var q := LenientTokens(p, tokens);
      q.width == (match LastRest(tokens, 'W') case None => p.width case Some(r) => UnwrapOr(ParseI32(r), 320))
      && q.height == (match LastRest(tokens, 'H') case None => p.height case Some(r) => UnwrapOr(ParseI32(r), 240))
      && q.frameRate == (match LastRateParts(tokens)
                         case None => p.frameRate
                         case Some((a, b)) => FrameRate(UnwrapOr(ParseInteger(a), 30), UnwrapOr(ParseInteger(b), 1)))
    decreases |tokens|
  {
    if |tokens| > 0 {
      LenientLastWins(LenientToken(p, tokens[0]), tokens[1..]);
    }
  }

  /**
   * The two Y4M header parsers agree on every header that the strict one
   * accepts and that names a width, a height and a two-part frame rate.
   */
  lemma LenientAgreesWithStrict(header: string)
    requires ParseY4mHeaderSpec(header).Ok?
    requires var tokens := SplitWhitespace(header);
      LastRest(tokens, 'W').Some? && LastRest(tokens, 'H').Some? && LastRateParts(tokens).Some?
    ensures ParseY4mHeaderLenientSpec(header) == ParseY4mHeaderSpec(header).value
  {
    var tokens := SplitWhitespace(header);
    ApplyTokensLastWins(Y4M_DEFAULTS, tokens);
    LenientLastWins(LENIENT_DEFAULTS, tokens);
  }

  lemma WrittenRateParts(fps: nat)
    ensures RateParts(("F" + IntToString(fps) + ":1")[1..]) == Some((IntToString(fps), "1"))
  {
    var digits := IntToString(fps);
    assert ("F" + digits + ":1")[1..] == digits + [':'] + "1";
    SplitPair(digits, "1", ':');
  }

  lemma LenientIgnored(p: Y4mParams, tokens: seq<string>)
    requires forall k :: 0 <= k < |tokens| ==> Ignored(tokens[k])
    ensures LenientTokens(p, tokens) == p
    decreases |tokens|
  {
    if |tokens| > 0 {
      assert forall k :: 1 <= k < |tokens| ==> tokens[k] == tokens[1..][k - 1];
      LenientIgnored(p, tokens[1..]);
    }
  }

  /** One token of known effect, then the rest. */
  lemma LenientFirst(p: Y4mParams, token: string, rest: seq<string>, q: Y4mParams)
    requires LenientToken(p, token) == q
    ensures LenientTokens(p, [token] + rest) == LenientTokens(q, rest)
  {
    assert ([token] + rest)[1..] == rest;
  }

  lemma LenientIgnoredToken(p: Y4mParams, token: string)
    requires Ignored(token)
    ensures LenientToken(p, token) == p
  {
  }


  lemma LenientDimensionToken(p: Y4mParams, c: char, v: int)
    requires c == 'W' || c == 'H'
    requires I32_MIN <= v <= I32_MAX
    ensures LenientToken(p, [c] + IntToString(v)) == if c == 'W' then p.(width := v) else p.(height := v)
  {
    ParseIntToString(v);
    assert ([c] + IntToString(v))[1..] == IntToString(v);
  }

  lemma LenientRateToken(p: Y4mParams, fps: nat)
    ensures LenientToken(p, "F" + IntToString(fps) + ":1") == p.(frameRate := FrameRate(fps, 1))
  {
    ParseIntToString(fps);
    ParseIntToString(1);
    assert IntToString(1) == "1";
    WrittenRateParts(fps);
  }

  /**
   * Seven header words in the writer's order, the first and the last three
   * passed over: the lenient parse takes the width, the height and the
   * frame rate.
   */
  lemma LenientWords(p: Y4mParams, w0: string, w4: string, w5: string, w6: string, width: int, height: int, fps: nat)
    requires Ignored(w0) && Ignored(w4) && Ignored(w5) && Ignored(w6)
    requires I32_MIN <= width <= I32_MAX && I32_MIN <= height <= I32_MAX
    ensures LenientTokens(p, [w0, "W" + IntToString(width), "H" + IntToString(height), "F" + IntToString(fps) + ":1", w4, w5, w6])
      == p.(width := width, height := height, frameRate := FrameRate(fps, 1))
  {
    var tw, th, tf := "W" + IntToString(width), "H" + IntToString(height), "F" + IntToString(fps) + ":1";
    var rest := [tw] + ([th] + ([tf] + [w4, w5, w6]));
    LenientDimensions(p, width, height, fps, [w4, w5, w6]);
    LenientIgnoredToken(p, w0);
    LenientFirst(p, w0, rest, p);
    SevenWords(w0, tw, th, tf, w4, w5, w6);
  }

  /** The width, height and rate words, then ignored words. */
  lemma LenientDimensions(p: Y4mParams, width: int, height: int, fps: nat, tail: seq<string>)
    requires forall k :: 0 <= k < |tail| ==> Ignored(tail[k])
    requires I32_MIN <= width <= I32_MAX && I32_MIN <= height <= I32_MAX
    ensures LenientTokens(p, ["W" + IntToString(width)] + (["H" + IntToString(height)] + (["F" + IntToString(fps) + ":1"] + tail)))
      == p.(width := width, height := height, frameRate := FrameRate(fps, 1))
  {
    var tw, th, tf := "W" + IntToString(width), "H" + IntToString(height), "F" + IntToString(fps) + ":1";
    var p1 := p.(width := width);
    var p2 := p1.(height := height);
    LenientRate(p2, fps, tail);
    LenientDimensionToken(p1, 'H', height);
    LenientFirst(p1, th, [tf] + tail, p2);
    LenientDimensionToken(p, 'W', width);
    LenientFirst(p, tw, [th] + ([tf] + tail), p1);
  }

  /** The rate word, then ignored words. */
  lemma LenientRate(p: Y4mParams, fps: nat, tail: seq<string>)
    requires forall k :: 0 <= k < |tail| ==> Ignored(tail[k])
    ensures LenientTokens(p, ["F" + IntToString(fps) + ":1"] + tail) == p.(frameRate := FrameRate(fps, 1))
  {
    var q := p.(frameRate := FrameRate(fps, 1));
    LenientIgnored(q, tail);
    LenientRateToken(p, fps);
    LenientFirst(p, "F" + IntToString(fps) + ":1", tail, q);
  }

  /** The writer's seven header words, applied to the lenient defaults. */
  lemma LenientHeaderWords(width: int, height: int, fps: nat)
    requires I32_MIN <= width <= I32_MAX && I32_MIN <= height <= I32_MAX
    ensures LenientTokens(LENIENT_DEFAULTS, ["YUV4MPEG2", "W" + IntToString(width), "H" + IntToString(height),
                                             "F" + IntToString(fps) + ":1", "Ip", "A1:1", "C420mpeg2"])
      == Y4mParams(width, height, FrameRate(fps, 1))
  {
    LenientWords(LENIENT_DEFAULTS, "YUV4MPEG2", "Ip", "A1:1", "C420mpeg2", width, height, fps);
  }

  /** The lenient parse reads back the header the Y4M writer produces. */
  lemma LenientParseWrittenHeader(width: int, height: int, frameRate: FrameRate)
    requires I32_MIN <= width <= I32_MAX && I32_MIN <= height <= I32_MAX
    ensures var line := FormatWriters.Y4mHeaderLine(width, height, frameRate);
      ParseY4mHeaderLenientSpec(line[..|line| - 1]) == Y4mParams(width, height, FrameRate(FrameRateAsU32(frameRate), 1))
  {
    var words := FormatWriters.Y4mHeaderWords(width, height, frameRate);
    var fps := FrameRateAsU32(frameRate);
    SplitJoinWords(words);
    assert words == ["YUV4MPEG2", "W" + IntToString(width), "H" + IntToString(height),
                     "F" + IntToString(fps) + ":1", "Ip", "A1:1", "C420mpeg2"];
    LenientHeaderWords(width, height, fps);
  }

  // ---------------------------------------------------------------------
  // Frame extraction

  /** `b"FRAME"`. */
  const FRAME_MARK: seq<byte> := [0x46, 0x52, 0x41, 0x4D, 0x45]

  /** The five bytes at `at` spell `FRAME`, compared byte by byte. */
  predicate MarkAt(data: seq<byte>, at: nat)
  {
    at + 5 <= |data|
    && data[at] == 0x46 && data[at + 1] == 0x52 && data[at + 2] == 0x41 && data[at + 3] == 0x4D && data[at + 4] == 0x45
  }

  /** Comparing byte by byte is comparing the five-byte slice with `FRAME`. */
  lemma MarkAtSlice(data: seq<byte>, at: nat)
    ensures MarkAt(data, at) <==> at + 5 <= |data| && data[at..at + 5] == FRAME_MARK
  {
    if at + 5 <= |data| && data[at..at + 5] == FRAME_MARK {
      assert data[at..at + 5][0] == data[at] && data[at..at + 5][1] == data[at + 1] && data[at..at + 5][2] == data[at + 2];
      assert data[at..at + 5][3] == data[at + 3] && data[at..at + 5][4] == data[at + 4];
    }
  }

  /**
   * An extracted frame. The source converts the frame's YUV 4:2:0 bytes
   * to RGBA in floating point; the model keeps the bytes it converts and
   * models only where that conversion reads, and so when it panics.
   */
  datatype FrameData = FrameData(frameNumber: nat, width: int, height: int, yuv: seq<byte>)

  datatype ExtractError =
    | InputNotFound
    | NoHeader
    | InvalidHeaderText
    | NegativeDimensions
    | HeaderTooShort
    | ConversionOutOfBounds
    | UnsupportedFormat(format: MediaFormat)

  function Payloads(frames: seq<FrameData>): (p: seq<seq<byte>>)
    ensures |p| == |frames| && forall k :: 0 <= k < |frames| ==> p[k] == frames[k].yuv
  {
    seq(|frames|, k requires 0 <= k < |frames| => frames[k].yuv)
  }

  /** Frames numbered from `count` on, with the given dimensions. */
  predicate Numbered(frames: seq<FrameData>, count: nat, width: int, height: int)
  {
    forall k :: 0 <= k < |frames| ==>
      frames[k].frameNumber == count + k && frames[k].width == width && frames[k].height == height
  }

  /** Frames once walked, numbered on from `count`. */
  lemma NumberedCons(f: FrameData, rest: seq<FrameData>, count: nat, width: int, height: int)
    requires f.frameNumber == count && f.width == width && f.height == height
    requires Numbered(rest, count + 1, width, height)
    ensures Numbered([f] + rest, count, width, height)
  {
    forall k | 1 <= k < |[f] + rest|
      ensures ([f] + rest)[k] == rest[k - 1]
    {
    }
  }

  /** The position of the first newline at or after `o`, or the end. */
  function LineEnd(data: seq<byte>, o: nat): (e: nat)
    requires o <= |data|
    ensures o <= e <= |data| && (e < |data| ==> data[e] == FormatWriters.NEWLINE)
    ensures FormatWriters.NEWLINE !in data[o..e]
    decreases |data| - o
  {
    if o == |data| || data[o] == FormatWriters.NEWLINE then o else LineEnd(data, o + 1)
  }

  /** Past the newline that ends the line at `o`, or the end of the data. */
  function PastLine(data: seq<byte>, o: nat): (p: nat)
    requires o <= |data|
    ensures o <= p <= |data|
  {
    var e := LineEnd(data, o);
    if e < |data| then e + 1 else e
  }

  /** The bytes of one 4:2:0 frame: the luma plane and two quarter-size chroma planes. */
  function Y4mFrameSize(width: nat, height: nat): (n: nat)
    ensures width * height <= n
  {
    var ySize := width * height;
    ySize + 2 * (ySize / 4)
  }

  /**
   * `yuv420_to_rgba` reads the chroma of pixel (x, y) at index
   * `(y / 2) * (width / 2) + x / 2` of planes holding `width * height / 4`
   * bytes. The last pixel has the largest index, so this says that no
   * pixel reads past the end of its chroma plane.
   */
  predicate ChromaInside(width: nat, height: nat)
  {
    width == 0 || height == 0 || ((height - 1) / 2) * (width / 2) + (width - 1) / 2 < (width * height) / 4
  }

  /**
   * `yuv420_to_rgba` converts `yuv` without panicking: the luma plane and
   * both chroma planes are slices of it, and every pixel's chroma index
   * is inside its plane.
   */
  predicate Convertible(yuv: seq<byte>, width: int, height: int)
  {
    0 <= width && 0 <= height && Y4mFrameSize(width, height) <= |yuv| && ChromaInside(width, height)
  }

  predicate AllConvertible(frames: seq<FrameData>)
  {
    forall k :: 0 <= k < |frames| ==> Convertible(frames[k].yuv, frames[k].width, frames[k].height)
  }

  /**
   * Every walked frame goes through `yuv420_to_rgba`; a frame it cannot
   * convert panics, which ends the extraction without a result.
   */
  function ConvertAll(frames: seq<FrameData>): Result<seq<FrameData>, ExtractError>
  {
    if AllConvertible(frames) then Ok(frames) else Err(ConversionOutOfBounds)
  }

  /** Frames that all convert stay convertible when one more that converts is added. */
  lemma AllConvertibleAppend(frames: seq<FrameData>, frame: FrameData)
    requires AllConvertible(frames) && Convertible(frame.yuv, frame.width, frame.height)
    ensures AllConvertible(frames + [frame])
  {
  }

  /** One frame that does not convert spoils any walk that contains it. */
  lemma NotAllConvertible(frames: seq<FrameData>, frame: FrameData, rest: seq<FrameData>)
    requires !Convertible(frame.yuv, frame.width, frame.height)
    ensures !AllConvertible(frames + ([frame] + rest))
  {
    assert (frames + ([frame] + rest))[|frames|] == frame;
  }

  /**
   * Frames carrying `payloads` with the same dimensions all convert
   * exactly when every payload converts at those dimensions.
   */
  lemma AllConvertiblePayloads(frames: seq<FrameData>, payloads: seq<seq<byte>>, count: nat, width: int, height: int)
    requires Payloads(frames) == payloads && Numbered(frames, count, width, height)
    ensures AllConvertible(frames) <==> forall k :: 0 <= k < |payloads| ==> Convertible(payloads[k], width, height)
  {
    assert forall k :: 0 <= k < |frames| ==> frames[k].yuv == payloads[k];
  }

  /** With an even width and height every chroma index is inside its plane. */
  lemma EvenDimensionsConvert(width: nat, height: nat)
    requires width % 2 == 0 && height % 2 == 0
    ensures ChromaInside(width, height)
  {
    if width > 0 && height > 0 {
      var a, b := width / 2, height / 2;
      assert width == 2 * a && height == 2 * b;
      assert (height - 1) / 2 == b - 1 by { DivModUnique(height - 1, 2, b - 1, 1); }
      assert (width - 1) / 2 == a - 1 by { DivModUnique(width - 1, 2, a - 1, 1); }
      assert width * height == 4 * (a * b);
      assert (width * height) / 4 == a * b by { DivModUnique(width * height, 4, a * b, 0); }
      assert (b - 1) * a + (a - 1) == a * b - 1;
    }
  }

  /**
   * Odd sizes can read past a chroma plane: a 3x3 frame reads index 2 of
   * 2-byte planes, and a 1x2 or 1x3 frame has empty chroma planes. Other
   * odd sizes, such as 5x4, still fit.
   */
  lemma OddDimensionsCanPanic()
    ensures !ChromaInside(3, 3) && !ChromaInside(1, 2) && !ChromaInside(1, 3)
    ensures ChromaInside(5, 4)
  {
  }

  /**
   * The Y4M frame walk from `offset`: at a `FRAME` marker, skip past the
   * end of its line and take `frameSize` bytes, stopping when they are
   * not all there; skip any other byte; stop after `maxFrames` frames.
   */
  function Y4mScan(data: seq<byte>, offset: nat, frameSize: nat, count: nat, maxFrames: nat,
                   width: nat, height: nat): seq<FrameData>
    requires offset <= |data|
    decreases |data| - offset
  {
    if offset == |data| || count >= maxFrames then []
    else if MarkAt(data, offset) then
      var start := PastLine(data, offset + 5);
      if start + frameSize > |data| then []
      else
        [FrameData(count, width, height, data[start..start + frameSize])]
          + Y4mScan(data, start + frameSize, frameSize, count + 1, maxFrames, width, height)
    else Y4mScan(data, offset + 1, frameSize, count, maxFrames, width, height)
  }

  /**
   * At most `maxFrames` frames, numbered on from `count`, each carrying the
   * header's dimensions and exactly `frameSize` bytes.
   */
  predicate SizedFrames(frames: seq<FrameData>, count: nat, maxFrames: nat, width: nat, height: nat, frameSize: nat)
  {
    count + |frames| <= (if count <= maxFrames then maxFrames else count)
    && Numbered(frames, count, width, height)
    && forall k :: 0 <= k < |frames| ==> |frames[k].yuv| == frameSize
  }

  /** The Y4M walk yields sized, numbered frames. */
  lemma {:induction false} Y4mScanFrames(data: seq<byte>, offset: nat, frameSize: nat, count: nat, maxFrames: nat,
                                         width: nat, height: nat)
    requires offset <= |data|
    ensures SizedFrames(Y4mScan(data, offset, frameSize, count, maxFrames, width, height), count, maxFrames, width, height, frameSize)
    decreases |data| - offset
  {
    if offset == |data| || count >= maxFrames {
    } else if MarkAt(data, offset) {
      var start := PastLine(data, offset + 5);
      var next := start + frameSize;
      if next <= |data| {
        Y4mScanFrames(data, next, frameSize, count + 1, maxFrames, width, height);
        Y4mFramesTake(data, offset, start, next, frameSize, count, maxFrames, width, height);
      } else {
        Y4mScanStop(data, offset, frameSize, count, maxFrames, width, height);
      }
    } else {
      Y4mScanSkip(data, offset, frameSize, count, maxFrames, width, height);
      Y4mScanFrames(data, offset + 1, frameSize, count, maxFrames, width, height);
    }
  }

  /** The take step of `Y4mScanFrames`, given the remainder of the walk is sized. */
  lemma Y4mFramesTake(data: seq<byte>, offset: nat, start: nat, next: nat, frameSize: nat, count: nat, maxFrames: nat,
                      width: nat, height: nat)
    requires MarkAt(data, offset) && count < maxFrames
    requires start == PastLine(data, offset + 5) && next == start + frameSize && next <= |data|
    requires SizedFrames(Y4mScan(data, next, frameSize, count + 1, maxFrames, width, height), count + 1, maxFrames, width, height, frameSize)
    ensures SizedFrames(Y4mScan(data, offset, frameSize, count, maxFrames, width, height), count, maxFrames, width, height, frameSize)
  {
    var f := FrameData(count, width, height, data[start..next]);
    Y4mScanTake(data, offset, start, next, frameSize, count, maxFrames, width, height);
    SizedFramesCons(f, Y4mScan(data, next, frameSize, count + 1, maxFrames, width, height), count, maxFrames, width, height, frameSize);
  }

  /** A frame of `frameSize` bytes put in front of a walk's remainder. */
  lemma SizedFramesCons(f: FrameData, rest: seq<FrameData>, count: nat, maxFrames: nat, width: nat, height: nat, frameSize: nat)
    requires count < maxFrames && f.frameNumber == count && f.width == width && f.height == height && |f.yuv| == frameSize
    requires SizedFrames(rest, count + 1, maxFrames, width, height, frameSize)
    ensures SizedFrames([f] + rest, count, maxFrames, width, height, frameSize)
  {
    NumberedCons(f, rest, count, width, height);
    assert forall k :: 1 <= k < |[f] + rest| ==> ([f] + rest)[k] == rest[k - 1];
  }

  /**
   * `extract_y4m_frames_as_rgba` (and its duplicate): the header is the
   * text before the first newline and must be UTF-8; frames follow it.
   */
  function ExtractY4mFramesSpec(data: seq<byte>, maxFrames: nat): Result<seq<FrameData>, ExtractError>
  {
    match IndexOf(data, FormatWriters.NEWLINE)
    case None => Err(NoHeader)
    case Some(headerEnd) =>
      match Utf8Decode(data[..headerEnd])
      case None => Err(InvalidHeaderText)
      case Some(header) =>
        var p := ParseY4mHeaderLenientSpec(header);
        if p.width < 0 || p.height < 0 then Err(NegativeDimensions)
        else ConvertAll(Y4mScan(data, headerEnd + 1, Y4mFrameSize(p.width, p.height), 0, maxFrames, p.width, p.height))
  }

  method ExtractY4mFrames(data: seq<byte>, maxFrames: nat) returns (r: Result<seq<FrameData>, ExtractError>)
    ensures r == ExtractY4mFramesSpec(data, maxFrames)
  {
    var found := IndexOf(data, FormatWriters.NEWLINE);
    if found.None? {
      return Err(NoHeader);
    }
    var headerEnd := found.value;
    var header := Utf8Decode(data[..headerEnd]);
    if header.None? {
      return Err(InvalidHeaderText);
    }
    var parsed := ParseY4mHeaderLenient(header.value);
    var width, height := parsed.value.width, parsed.value.height;
    if width < 0 || height < 0 {
      return Err(NegativeDimensions);
    }
    var ySize := width * height;
    var uvSize := ySize / 4;
    var frameSize := ySize + 2 * uvSize;
    assert frameSize == Y4mFrameSize(width, height);
    r := WalkY4mFrames(data, headerEnd + 1, frameSize, maxFrames, width, height);
  }

  /**
   * The frame loop of the Y4M extractor, from just past the header line:
   * each frame is converted as it is taken, and the first one that cannot
   * be converted ends the loop in a panic.
   */
  method WalkY4mFrames(data: seq<byte>, start: nat, frameSize: nat, maxFrames: nat, width: nat, height: nat)
    returns (r: Result<seq<FrameData>, ExtractError>)
    requires start <= |data|
    ensures r == ConvertAll(Y4mScan(data, start, frameSize, 0, maxFrames, width, height))
  {
    var frames: seq<FrameData> := [];
    var offset := start;
    var frameCount := 0;
    while offset < |data| && frameCount < maxFrames
      invariant offset <= |data|
      invariant frames + Y4mScan(data, offset, frameSize, frameCount, maxFrames, width, height)
        == Y4mScan(data, start, frameSize, 0, maxFrames, width, height)
      invariant AllConvertible(frames)
      decreases |data| - offset
    {
      var next, frame, stop := WalkY4mStep(data, offset, frameSize, frameCount, maxFrames, width, height);
      if stop {
        assert frames + [] == frames;
        break;
      }
      if frame.Some? {
        var f := frame.value;
        if !Convertible(f.yuv, f.width, f.height) {
          NotAllConvertible(frames, f, Y4mScan(data, next, frameSize, frameCount + 1, maxFrames, width, height));
          return Err(ConversionOutOfBounds);
        }
        AppendOne(frames, f, Y4mScan(data, next, frameSize, frameCount + 1, maxFrames, width, height));
        AllConvertibleAppend(frames, f);
        frames := frames + [f];
        frameCount := frameCount + 1;
      }
      offset := next;
    }
    assert frames + [] == frames;
    return Ok(frames);
  }

  /**
   * One pass of the Y4M frame loop at `offset`: a byte that does not start
   * a `FRAME` marker is skipped; a marker is followed past its line end and
   * the frame read, unless it does not fit, which stops the walk.
   */
  method WalkY4mStep(data: seq<byte>, offset: nat, frameSize: nat, count: nat, maxFrames: nat, width: nat, height: nat)
    returns (next: nat, frame: Option<FrameData>, stop: bool)
    requires offset < |data| && count < maxFrames
    ensures offset < next <= |data|
    ensures stop ==> Y4mScan(data, offset, frameSize, count, maxFrames, width, height) == []
    ensures !stop && frame.None? ==>
      Y4mScan(data, offset, frameSize, count, maxFrames, width, height)
        == Y4mScan(data, next, frameSize, count, maxFrames, width, height)
    ensures !stop && frame.Some? ==>
      Y4mScan(data, offset, frameSize, count, maxFrames, width, height)
        == [frame.value] + Y4mScan(data, next, frameSize, count + 1, maxFrames, width, height)
  {
    Y4mScanStep(data, offset, frameSize, count, maxFrames, width, height);
    MarkAtSlice(data, offset);
    if offset + 5 <= |data| && data[offset..offset + 5] == FRAME_MARK {
      var at := SkipFrameLine(data, offset + 5);
      if at + frameSize > |data| {
        return |data|, None, true;
      }
      return at + frameSize, Some(FrameData(count, width, height, data[at..at + frameSize])), false;
    }
    return offset + 1, None, false;
  }

  /** Moving one frame from the walk's remainder to its result keeps their concatenation. */
  lemma AppendOne(frames: seq<FrameData>, frame: FrameData, rest: seq<FrameData>)
    ensures (frames + [frame]) + rest == frames + ([frame] + rest)
  {
  }

  /** One step of the Y4M frame walk. */
  lemma Y4mScanStep(data: seq<byte>, offset: nat, frameSize: nat, count: nat, maxFrames: nat, width: nat, height: nat)
    requires offset < |data| && count < maxFrames
    ensures var marker := MarkAt(data, offset);
      var start := if marker then PastLine(data, offset + 5) else 0;
      var here := Y4mScan(data, offset, frameSize, count, maxFrames, width, height);
      (!marker ==> here == Y4mScan(data, offset + 1, frameSize, count, maxFrames, width, height))
      && (marker && start + frameSize > |data| ==> here == [])
      && (marker && start + frameSize <= |data| ==>
            here == [FrameData(count, width, height, data[start..start + frameSize])]
                    + Y4mScan(data, start + frameSize, frameSize, count + 1, maxFrames, width, height))
  {
  }

  /** A `FRAME` marker whose frame fits: the walk takes the frame and goes on after it. */
  lemma Y4mScanTake(data: seq<byte>, offset: nat, start: nat, next: nat, frameSize: nat, count: nat, maxFrames: nat,
                    width: nat, height: nat)
    requires MarkAt(data, offset) && count < maxFrames
    requires start == PastLine(data, offset + 5) && next == start + frameSize && next <= |data|
    ensures Y4mScan(data, offset, frameSize, count, maxFrames, width, height)
      == [FrameData(count, width, height, data[start..next])] + Y4mScan(data, next, frameSize, count + 1, maxFrames, width, height)
  {
  }

  /** A `FRAME` marker whose frame does not fit ends the walk. */
  lemma Y4mScanStop(data: seq<byte>, offset: nat, frameSize: nat, count: nat, maxFrames: nat, width: nat, height: nat)
    requires MarkAt(data, offset) && count < maxFrames && PastLine(data, offset + 5) + frameSize > |data|
    ensures Y4mScan(data, offset, frameSize, count, maxFrames, width, height) == []
  {
  }

  /** A byte that does not start a `FRAME` marker is skipped. */
  lemma Y4mScanSkip(data: seq<byte>, offset: nat, frameSize: nat, count: nat, maxFrames: nat, width: nat, height: nat)
    requires offset < |data| && !MarkAt(data, offset) && count < maxFrames
    ensures Y4mScan(data, offset, frameSize, count, maxFrames, width, height)
      == Y4mScan(data, offset + 1, frameSize, count, maxFrames, width, height)
  {
  }

  /** Skips to the newline that ends a `FRAME` line and past it. */
  method SkipFrameLine(data: seq<byte>, from: nat) returns (offset: nat)
    requires from <= |data|
    ensures offset == PastLine(data, from)
  {
    offset := from;
    while offset < |data| && data[offset] != FormatWriters.NEWLINE
      invariant from <= offset <= |data|
      invariant LineEnd(data, from) == LineEnd(data, offset)
      decreases |data| - offset
    {
      offset := offset + 1;
    }
    if offset < |data| {
      offset := offset + 1;
    }
  }

  /**
   * The IVF frame walk from `offset`: each record is a 4-byte size and an
   * 8-byte timestamp, then the payload; the walk stops when the record
   * header or the payload does not fit, or after `maxFrames` frames.
   */
  function IvfScan(data: seq<byte>, offset: nat, count: nat, maxFrames: nat, width: nat, height: nat): seq<FrameData>
    requires offset <= |data|
    decreases |data| - offset
  {
    if offset + 12 > |data| || count >= maxFrames then []
    else
      var size := ReadLE32(data, offset);
      if offset + 12 + size > |data| then []
      else
        [FrameData(count, width, height, data[offset + 12..offset + 12 + size])]
          + IvfScan(data, offset + 12 + size, count + 1, maxFrames, width, height)
  }

  /**
   * The IVF walk yields at most `maxFrames` frames, numbered on from
   * `count`, each carrying the header's dimensions.
   */
  lemma {:induction false} IvfScanFrames(data: seq<byte>, offset: nat, count: nat, maxFrames: nat, width: nat, height: nat)
    requires offset <= |data|
    ensures var frames := IvfScan(data, offset, count, maxFrames, width, height);
      count + |frames| <= (if count <= maxFrames then maxFrames else count)
      && Numbered(frames, count, width, height)
    decreases |data| - offset
  {
    if offset + 12 <= |data| && count < maxFrames {
      var size := ReadLE32(data, offset);
      if offset + 12 + size <= |data| {
        var f := FrameData(count, width, height, data[offset + 12..offset + 12 + size]);
        IvfScanFrames(data, offset + 12 + size, count + 1, maxFrames, width, height);
        NumberedCons(f, IvfScan(data, offset + 12 + size, count + 1, maxFrames, width, height), count, width, height);
      }
    }
  }

  /**
   * `extract_ivf_frames_as_rgba` (and its duplicate): a 32-byte header with
   * the width and height at bytes 24 and 26, then the frame records.
   */
  function ExtractIvfFramesSpec(data: seq<byte>, maxFrames: nat): Result<seq<FrameData>, ExtractError>
  {
    if |data| < 32 then Err(HeaderTooShort)
    else ConvertAll(IvfScan(data, 32, 0, maxFrames, ReadLE16(data, 24), ReadLE16(data, 26)))
  }

  method ExtractIvfFrames(data: seq<byte>, maxFrames: nat) returns (r: Result<seq<FrameData>, ExtractError>)
    ensures r == ExtractIvfFramesSpec(data, maxFrames)
  {
    if |data| < 32 {
      return Err(HeaderTooShort);
    }
    var width := ReadLE16(data, 24);
    var height := ReadLE16(data, 26);
    var frames: seq<FrameData> := [];
    var offset: nat := 32;
    var frameCount: nat := 0;
    while offset + 12 <= |data| && frameCount < maxFrames
      invariant offset <= |data|
      invariant frames + IvfScan(data, offset, frameCount, maxFrames, width, height) == IvfScan(data, 32, 0, maxFrames, width, height)
      invariant AllConvertible(frames)
      decreases |data| - offset
    {
      var frameSize := ReadLE32(data, offset);
      if offset + 12 + frameSize > |data| {
        assert IvfScan(data, offset, frameCount, maxFrames, width, height) == [];
        assert frames + [] == frames;
        break;
      }
      var next := offset + 12 + frameSize;
      var frame := FrameData(frameCount, width, height, data[offset + 12..next]);
      IvfWalkStep(data, offset, next, frameCount, maxFrames, width, height, frames);
      if !Convertible(frame.yuv, width, height) {
        AppendOne(frames, frame, IvfScan(data, next, frameCount + 1, maxFrames, width, height));
        NotAllConvertible(frames, frame, IvfScan(data, next, frameCount + 1, maxFrames, width, height));
        return Err(ConversionOutOfBounds);
      }
      AllConvertibleAppend(frames, frame);
      frames := frames + [frame];
      offset, frameCount := next, frameCount + 1;
    }
    assert frames + [] == frames;
    return Ok(frames);
  }

  /** One pass of the IVF frame loop moves one frame from the walk's remainder to its result. */
  lemma IvfWalkStep(data: seq<byte>, offset: nat, next: nat, count: nat, maxFrames: nat, width: nat, height: nat,
                    frames: seq<FrameData>)
    requires offset + 12 <= |data| && count < maxFrames
    requires next == offset + 12 + ReadLE32(data, offset) && next <= |data|
    ensures (frames + [FrameData(count, width, height, data[offset + 12..next])])
              + IvfScan(data, next, count + 1, maxFrames, width, height)
            == frames + IvfScan(data, offset, count, maxFrames, width, height)
  {
    IvfScanTake(data, offset, next, count, maxFrames, width, height);
    AppendOne(frames, FrameData(count, width, height, data[offset + 12..next]), IvfScan(data, next, count + 1, maxFrames, width, height));
  }

  /**
   * `extract_frames_as_rgba`: a missing file is an error; otherwise the
   * format detected from the extension picks the walk, and a missing
   * frame limit means `u32::MAX`.
   */
  function ExtractFramesSpec(fileExists: bool, extension: Option<string>, data: seq<byte>, maxFrames: Option<nat>)
    : (r: Result<seq<FrameData>, ExtractError>)
    ensures !fileExists ==> r == Err(InputNotFound)
    ensures fileExists && DetectFormat(extension) !in {Y4m, Ivf} ==> r == Err(UnsupportedFormat(DetectFormat(extension)))
    ensures fileExists && DetectFormat(extension) == Y4m ==> r == ExtractY4mFramesSpec(data, UnwrapOr(maxFrames, U32_MAX))
    ensures fileExists && DetectFormat(extension) == Ivf ==> r == ExtractIvfFramesSpec(data, UnwrapOr(maxFrames, U32_MAX))
  {
    if !fileExists then Err(InputNotFound)
    else
      match DetectFormat(extension)
      case Y4m => ExtractY4mFramesSpec(data, UnwrapOr(maxFrames, U32_MAX))
      case Ivf => ExtractIvfFramesSpec(data, UnwrapOr(maxFrames, U32_MAX))
      case other => Err(UnsupportedFormat(other))
  }

  // ---------------------------------------------------------------------
  // The FourCC choice of transcode_ivf_to_matroska

  /** Bytes 16..20 of an IVF header name the codec; anything unrecognised is taken as VP9. */
  function CodecFromFourcc(fourcc: seq<byte>): (c: VideoCodec)
    ensures c == Av1 <==> fourcc == Fourcc(Av1)
    ensures c == Vp8 <==> fourcc == Fourcc(Vp8)
  {
    if fourcc == Fourcc(Av1) then Av1
    else if fourcc == Fourcc(Vp9) then Vp9
    else if fourcc == Fourcc(Vp8) then Vp8
    else Vp9
  }

  /** The FourCC choice inverts `VideoCodec::fourcc`. */
  lemma CodecFromFourccInverse(c: VideoCodec)
    ensures CodecFromFourcc(Fourcc(c)) == c
  {
    CodecIdentifiersInjective(c, Av1);
    CodecIdentifiersInjective(c, Vp8);
  }

  // ---------------------------------------------------------------------
  // Round trips through the extractors

  /** A slice of a suffix is a slice of the whole. */
  lemma DropSlice(data: seq<byte>, o: nat, i: nat, j: nat)
    requires o + j <= |data| && i <= j
    ensures data[o..][i..j] == data[o + i..o + j]
  {
    var s, t := data[o..][i..j], data[o + i..o + j];
    forall k | 0 <= k < |s|
      ensures s[k] == t[k]
    {
      assert s[k] == data[o + i + k];
    }
  }

  /** A frame read from a slice of a suffix is the frame read from the whole. */
  lemma FrameDataShift(data: seq<byte>, o: nat, i: nat, j: nat, count: nat, width: nat, height: nat)
    requires o + j <= |data| && i <= j
    ensures FrameData(count, width, height, data[o + i..o + j]) == FrameData(count, width, height, data[o..][i..j])
  {
    DropSlice(data, o, i, j);
  }

  /** A walk that takes a frame takes any frame equal to it. */
  lemma ConsSwap(a: seq<FrameData>, f: FrameData, g: FrameData, r: seq<FrameData>)
    requires a == [f] + r && f == g
    ensures a == [g] + r
  {
  }

  /** Two walks that take the same frame and go on alike are alike. */
  lemma ConsEqual(a: seq<FrameData>, b: seq<FrameData>, f: FrameData, ra: seq<FrameData>, rb: seq<FrameData>)
    requires a == [f] + ra && b == [f] + rb && ra == rb
    ensures a == b
  {
  }

  /** The bytes appended after `a` sit right after it. */
  lemma AppendedSlice(a: seq<byte>, b: seq<byte>)
    ensures (a + b)[|a|..] == b
  {
  }

  lemma PayloadsCons(f: FrameData, rest: seq<FrameData>, payloads: seq<seq<byte>>)
    requires |payloads| > 0 && f.yuv == payloads[0] && Payloads(rest) == payloads[1..]
    ensures Payloads([f] + rest) == payloads
  {
    var all := Payloads([f] + rest);
    forall k | 0 <= k < |payloads|
      ensures all[k] == payloads[k]
    {
      if k > 0 {
        assert ([f] + rest)[k] == rest[k - 1];
        assert payloads[1..][k - 1] == payloads[k];
      }
    }
  }

  /** Byte chunks written one after the other. */
  function Concat(chunks: seq<seq<byte>>): (r: seq<byte>)
  {
    if |chunks| == 0 then [] else chunks[0] + Concat(chunks[1..])
  }

  /** `record` is an IVF frame record holding `payload`: its size field, 8 more header bytes, the payload. */
  predicate IsIvfRecord(record: seq<byte>, payload: seq<byte>)
  {
    |record| == 12 + |payload| && ReadLE32(record, 0) == |payload| && record[12..] == payload
  }

  /** The IVF writer's frame records, one per payload. */
  function IvfRecordList(payloads: seq<seq<byte>>, timestamps: seq<nat>): (records: seq<seq<byte>>)
    requires |payloads| == |timestamps|
    requires forall k :: 0 <= k < |timestamps| ==> timestamps[k] < U64_LIMIT
    ensures |records| == |payloads|
  {
    seq(|payloads|, k requires 0 <= k < |payloads| => FormatWriters.IvfFrameRecord(payloads[k], timestamps[k]))
  }

  /** A written record is a record of its payload, as long as the payload's size fits its `u32` field. */
  lemma IvfRecordIs(payload: seq<byte>, timestamp: nat)
    requires |payload| < U32_LIMIT && timestamp < U64_LIMIT
    ensures IsIvfRecord(FormatWriters.IvfFrameRecord(payload, timestamp), payload)
  {
    FitsU32(|payload|);
  }

  lemma IvfRecordListIs(payloads: seq<seq<byte>>, timestamps: seq<nat>)
    requires |payloads| == |timestamps|
    requires forall k :: 0 <= k < |timestamps| ==> timestamps[k] < U64_LIMIT
    requires forall k :: 0 <= k < |payloads| ==> |payloads[k]| < U32_LIMIT
    ensures var records := IvfRecordList(payloads, timestamps);
      forall k :: 0 <= k < |records| ==> IsIvfRecord(records[k], payloads[k])
  {
    var records := IvfRecordList(payloads, timestamps);
    forall k | 0 <= k < |records|
      ensures IsIvfRecord(records[k], payloads[k])
    {
      IvfRecordIs(payloads[k], timestamps[k]);
    }
  }


  /** One record of the IVF walk, when it fits. */
  lemma IvfScanTake(data: seq<byte>, o: nat, next: nat, count: nat, maxFrames: nat, width: nat, height: nat)
    requires o + 12 <= |data| && count < maxFrames
    requires next == o + 12 + ReadLE32(data, o) && next <= |data|
    ensures IvfScan(data, o, count, maxFrames, width, height)
      == [FrameData(count, width, height, data[o + 12..next])] + IvfScan(data, next, count + 1, maxFrames, width, height)
  {
  }

  /** The IVF walk reads the same records from a suffix of the data as from the whole. */
  lemma {:induction false} IvfScanShift(data: seq<byte>, o: nat, j: nat, count: nat, maxFrames: nat, width: nat, height: nat)
    requires o + j <= |data|
    ensures IvfScan(data, o + j, count, maxFrames, width, height) == IvfScan(data[o..], j, count, maxFrames, width, height)
    decreases |data| - o - j
  {
    var d := data[o..];
    if o + j + 12 <= |data| && count < maxFrames {
      ReadLE32Shift(data, o, j);
      var next := j + 12 + ReadLE32(d, j);
      if next <= |d| {
        IvfScanTakeShifted(data, o, j, next, count, maxFrames, width, height);
        IvfScanTake(d, j, next, count, maxFrames, width, height);
        IvfScanShift(data, o, next, count + 1, maxFrames, width, height);
        ConsEqual(IvfScan(data, o + j, count, maxFrames, width, height), IvfScan(d, j, count, maxFrames, width, height),
                  FrameData(count, width, height, d[j + 12..next]),
                  IvfScan(data, o + next, count + 1, maxFrames, width, height), IvfScan(d, next, count + 1, maxFrames, width, height));
      }
    }
  }

  lemma ReadLE32Shift(data: seq<byte>, o: nat, j: nat)
    requires o + j + 4 <= |data|
    ensures ReadLE32(data, o + j) == ReadLE32(data[o..], j)
  {
    DropSlice(data, o, j, j + 4);
    ReadLE32Slice(data, o + j, data[o..], j);
  }

  /** A record taken by the walk over a suffix is taken at the same place by the walk over the whole. */
  lemma IvfScanTakeShifted(data: seq<byte>, o: nat, j: nat, next: nat, count: nat, maxFrames: nat, width: nat, height: nat)
    requires o + j + 12 <= |data| && count < maxFrames
    requires next == j + 12 + ReadLE32(data[o..], j) && next <= |data[o..]|
    ensures IvfScan(data, o + j, count, maxFrames, width, height)
      == [FrameData(count, width, height, data[o..][j + 12..next])] + IvfScan(data, o + next, count + 1, maxFrames, width, height)
  {
    ReadLE32Shift(data, o, j);
    FrameDataShift(data, o, j + 12, next, count, width, height);
    IvfScanTake(data, o + j, o + next, count, maxFrames, width, height);
    ConsSwap(IvfScan(data, o + j, count, maxFrames, width, height),
             FrameData(count, width, height, data[o + (j + 12)..o + next]), FrameData(count, width, height, data[o..][j + 12..next]),
             IvfScan(data, o + next, count + 1, maxFrames, width, height));
  }

  /** The IVF walk reads a record at the start of the data, and goes on with what follows it. */
  lemma IvfScanHead(record: seq<byte>, payload: seq<byte>, rest: seq<byte>, count: nat, maxFrames: nat, width: nat, height: nat)
    requires IsIvfRecord(record, payload)
    requires count < maxFrames
    ensures IvfScan(record + rest, 0, count, maxFrames, width, height)
      == [FrameData(count, width, height, payload)] + IvfScan(rest, 0, count + 1, maxFrames, width, height)
  {
    var data := record + rest;
    assert ReadLE32(data, 0) == |payload| by {
      assert data[0..4] == record[0..4];
      ReadLE32Slice(data, 0, record, 0);
    }
    assert data[12..|record|] == payload;
    IvfScanShift(data, |record|, 0, count + 1, maxFrames, width, height);
    AppendedSlice(record, rest);
  }

  lemma IvfRecordsTail(records: seq<seq<byte>>, payloads: seq<seq<byte>>)
    requires |records| == |payloads| > 0
    requires forall k :: 0 <= k < |records| ==> IsIvfRecord(records[k], payloads[k])
    ensures IsIvfRecord(records[0], payloads[0])
    ensures Concat(records) == records[0] + Concat(records[1..])
    ensures forall k :: 0 <= k < |records[1..]| ==> IsIvfRecord(records[1..][k], payloads[1..][k])
  {
    assert forall k :: 0 <= k < |records| - 1 ==> records[1..][k] == records[k + 1] && payloads[1..][k] == payloads[k + 1];
  }

  /** Walking written records returns every payload. */
  lemma {:induction false} IvfScanRecords(records: seq<seq<byte>>, payloads: seq<seq<byte>>,
                                          count: nat, maxFrames: nat, width: nat, height: nat)
    requires |records| == |payloads|
    requires forall k :: 0 <= k < |records| ==> IsIvfRecord(records[k], payloads[k])
    requires count + |payloads| <= maxFrames
    ensures Payloads(IvfScan(Concat(records), 0, count, maxFrames, width, height)) == payloads
    decreases |payloads|
  {
    if |payloads| > 0 {
      var tail := IvfScan(Concat(records[1..]), 0, count + 1, maxFrames, width, height);
      IvfRecordsTail(records, payloads);
      IvfScanHead(records[0], payloads[0], Concat(records[1..]), count, maxFrames, width, height);
      IvfScanRecords(records[1..], payloads[1..], count + 1, maxFrames, width, height);
      PayloadsCons(FrameData(count, width, height, payloads[0]), tail, payloads);
    }
  }

  /** Walking written records that follow any header returns every payload, numbered from 0. */
  lemma IvfScanAfter(header: seq<byte>, records: seq<seq<byte>>, payloads: seq<seq<byte>>, maxFrames: nat, width: nat, height: nat)
    requires |records| == |payloads| <= maxFrames
    requires forall k :: 0 <= k < |records| ==> IsIvfRecord(records[k], payloads[k])
    ensures var frames := IvfScan(header + Concat(records), |header|, 0, maxFrames, width, height);
      Payloads(frames) == payloads && Numbered(frames, 0, width, height)
  {
    var data := header + Concat(records);
    AppendedSlice(header, Concat(records));
    IvfScanShift(data, |header|, 0, 0, maxFrames, width, height);
    IvfScanRecords(records, payloads, 0, maxFrames, width, height);
    IvfScanFrames(data, |header|, 0, maxFrames, width, height);
  }

  /**
   * An IVF file with a 32-byte header followed by written frame records
   * converts exactly when every payload converts at the dimensions stored
   * at bytes 24 and 26 of the header, and then gives back every payload,
   * numbered from 0, with those dimensions.
   */
  lemma ExtractWrittenIvf(header: seq<byte>, payloads: seq<seq<byte>>, timestamps: seq<nat>, maxFrames: nat)
    requires |header| == 32
    requires |payloads| == |timestamps| <= maxFrames
    requires forall k :: 0 <= k < |timestamps| ==> timestamps[k] < U64_LIMIT
    requires forall k :: 0 <= k < |payloads| ==> |payloads[k]| < U32_LIMIT
    ensures var r := ExtractIvfFramesSpec(header + Concat(IvfRecordList(payloads, timestamps)), maxFrames);
      var width, height := ReadLE16(header, 24), ReadLE16(header, 26);
      (r.Ok? <==> forall k :: 0 <= k < |payloads| ==> Convertible(payloads[k], width, height))
      && (r.Ok? ==> Payloads(r.value) == payloads && Numbered(r.value, 0, width, height))
  {
    var records := IvfRecordList(payloads, timestamps);
    var data := header + Concat(records);
    var width, height := ReadLE16(header, 24), ReadLE16(header, 26);
    assert ReadLE16(data, 24) == width && ReadLE16(data, 26) == height by {
      assert data[24] == header[24] && data[25] == header[25] && data[26] == header[26] && data[27] == header[27];
    }
    IvfRecordListIs(payloads, timestamps);
    IvfScanAfter(header, records, payloads, maxFrames, width, height);
    AllConvertiblePayloads(IvfScan(data, 32, 0, maxFrames, width, height), payloads, 0, width, height);
  }

  /**
   * The IVF writers emit a 28-byte header with the dimensions at bytes 16
   * and 18, while the extractor skips 32 bytes and reads the dimensions
   * at 24 and 26: a written 64x48 file with one 4-byte frame reads back
   * as one empty 1x0 frame.
   */
  lemma WrittenIvfIsMisread()
    ensures ExtractIvfFramesSpec(FormatWriters.IvfHeader(64, 48) + FormatWriters.IvfFrameRecord([0, 0, 0, 0], 0), 10)
      == Ok([FrameData(0, 1, 0, [])])
  {
    var h := FormatWriters.IvfHeader(64, 48);
    var r := FormatWriters.IvfFrameRecord([0, 0, 0, 0], 0);
    var data := h + r;
    assert |data| == 44;
    assert ReadLE16(data, 24) == 1 && ReadLE16(data, 26) == 0 by {
      assert data[24..28] == h[24..28];
      ReadLE32Slice(data, 24, h, 24);
    }
    assert ReadLE32(data, 32) == 0 by {
      assert data[32..36] == r[4..8];
      ReadLE32Slice(data, 32, r, 4);
      assert ReadLE32(r, 4) == 0;
    }
    assert IvfScan(data, 44, 1, 10, 1, 0) == [];
    assert data[44..44] == [];
    assert IvfScan(data, 32, 0, 10, 1, 0) == [FrameData(0, 1, 0, [])];
    assert AllConvertible([FrameData(0, 1, 0, [])]);
  }

  /** The extractor with the header layout the IVF writers produce. */
  function ExtractIvfFramesCorrected(data: seq<byte>, maxFrames: nat): Result<seq<FrameData>, ExtractError>
  {
    if |data| < 28 then Err(HeaderTooShort)
    else ConvertAll(IvfScan(data, 28, 0, maxFrames, ReadLE16(data, 16), ReadLE16(data, 18)))
  }

  /**
   * The corrected extractor reads back what the IVF writers produce: the
   * dimensions, and every payload whenever all of them convert at those
   * dimensions.
   */
  lemma ExtractWrittenIvfCorrected(width: int, height: int, payloads: seq<seq<byte>>, timestamps: seq<nat>, maxFrames: nat)
    requires |payloads| == |timestamps| <= maxFrames
    requires forall k :: 0 <= k < |timestamps| ==> timestamps[k] < U64_LIMIT
    requires forall k :: 0 <= k < |payloads| ==> |payloads[k]| < U32_LIMIT
    ensures var r := ExtractIvfFramesCorrected(FormatWriters.IvfHeader(width, height) + Concat(IvfRecordList(payloads, timestamps)), maxFrames);
      (r.Ok? <==> forall k :: 0 <= k < |payloads| ==> Convertible(payloads[k], width % U16_LIMIT, height % U16_LIMIT))
      && (r.Ok? ==> Payloads(r.value) == payloads && Numbered(r.value, 0, width % U16_LIMIT, height % U16_LIMIT))
  {
    var header := FormatWriters.IvfHeader(width, height);
    var records := IvfRecordList(payloads, timestamps);
    var data := header + Concat(records);
    assert ReadLE16(data, 16) == width % U16_LIMIT && ReadLE16(data, 18) == height % U16_LIMIT by {
      assert data[16] == header[16] && data[17] == header[17] && data[18] == header[18] && data[19] == header[19];
    }
    IvfRecordListIs(payloads, timestamps);
    IvfScanAfter(header, records, payloads, maxFrames, width % U16_LIMIT, height % U16_LIMIT);
    AllConvertiblePayloads(IvfScan(data, 28, 0, maxFrames, width % U16_LIMIT, height % U16_LIMIT), payloads, 0,
                           width % U16_LIMIT, height % U16_LIMIT);
  }

  /** `frame` is a Y4M frame holding `payload`: the `FRAME` line, then the payload. */
  predicate IsY4mFrame(frame: seq<byte>, payload: seq<byte>)
  {
    |frame| == 6 + |payload| && frame[..6] == FormatWriters.FRAME_LINE && frame[6..] == payload
  }

  /** The Y4M writer's frames, one per payload. */
  function Y4mFrameList(payloads: seq<seq<byte>>): (frames: seq<seq<byte>>)
    ensures |frames| == |payloads|
    ensures forall k :: 0 <= k < |frames| ==> IsY4mFrame(frames[k], payloads[k])
  {
    seq(|payloads|, k requires 0 <= k < |payloads| => FormatWriters.Y4mFrame(payloads[k]))
  }

  /** At a written frame, the walk sees the marker, the end of its line and the payload. */
  lemma Y4mFrameAt(frame: seq<byte>, payload: seq<byte>, rest: seq<byte>)
    requires IsY4mFrame(frame, payload)
    ensures MarkAt(frame + rest, 0)
    ensures PastLine(frame + rest, 5) == 6
    ensures (frame + rest)[6..|frame|] == payload
  {
    var data := frame + rest;
    forall k | 0 <= k < 6
      ensures data[k] == FormatWriters.FRAME_LINE[k]
    {
      assert data[k] == frame[k] == frame[..6][k];
    }
    assert LineEnd(data, 5) == 5;
    assert data[6..|frame|] == frame[6..];
  }

  /** The end of a line found in a suffix of the data is the same position in the whole. */
  lemma {:induction false} LineEndShift(data: seq<byte>, o: nat, j: nat)
    requires o + j <= |data|
    ensures LineEnd(data, o + j) == o + LineEnd(data[o..], j)
    decreases |data| - o - j
  {
    if o + j < |data| && data[o + j] != FormatWriters.NEWLINE {
      assert data[o..][j] == data[o + j];
      LineEndShift(data, o, j + 1);
    }
  }

  lemma PastLineShift(data: seq<byte>, o: nat, j: nat)
    requires o + j <= |data|
    ensures PastLine(data, o + j) == o + PastLine(data[o..], j)
  {
    LineEndShift(data, o, j);
  }

  /** The Y4M walk reads the same frames from a suffix of the data as from the whole. */
  lemma {:induction false} Y4mScanShift(data: seq<byte>, o: nat, j: nat, frameSize: nat, count: nat, maxFrames: nat,
                                        width: nat, height: nat)
    requires o + j <= |data|
    ensures Y4mScan(data, o + j, frameSize, count, maxFrames, width, height)
      == Y4mScan(data[o..], j, frameSize, count, maxFrames, width, height)
    decreases |data| - o - j
  {
    var d := data[o..];
    if o + j < |data| && count < maxFrames {
      MarkAtShift(data, o, j);
      if MarkAt(d, j) && PastLine(d, j + 5) + frameSize <= |d| {
        var next := PastLine(d, j + 5) + frameSize;
        Y4mScanShift(data, o, next, frameSize, count + 1, maxFrames, width, height);
        Y4mShiftTake(data, o, j, PastLine(d, j + 5), next, frameSize, count, maxFrames, width, height);
      } else if MarkAt(d, j) {
        PastLineShift(data, o, j + 5);
        Y4mScanStop(data, o + j, frameSize, count, maxFrames, width, height);
        Y4mScanStop(d, j, frameSize, count, maxFrames, width, height);
      } else {
        Y4mScanShift(data, o, j + 1, frameSize, count, maxFrames, width, height);
        Y4mShiftSkip(data, o, j, frameSize, count, maxFrames, width, height);
      }
    }
  }

  /** The step of `Y4mScanShift` at a frame that fits. */
  lemma Y4mShiftTake(data: seq<byte>, o: nat, j: nat, start: nat, next: nat, frameSize: nat, count: nat, maxFrames: nat,
                     width: nat, height: nat)
    requires o + j <= |data| && MarkAt(data[o..], j) && count < maxFrames
    requires start == PastLine(data[o..], j + 5) && next == start + frameSize && next <= |data[o..]|
    requires Y4mScan(data, o + next, frameSize, count + 1, maxFrames, width, height)
      == Y4mScan(data[o..], next, frameSize, count + 1, maxFrames, width, height)
    ensures Y4mScan(data, o + j, frameSize, count, maxFrames, width, height)
      == Y4mScan(data[o..], j, frameSize, count, maxFrames, width, height)
  {
    var d := data[o..];
    Y4mScanTakeShifted(data, o, j, start, next, frameSize, count, maxFrames, width, height);
    Y4mScanTake(d, j, start, next, frameSize, count, maxFrames, width, height);
    ConsEqual(Y4mScan(data, o + j, frameSize, count, maxFrames, width, height), Y4mScan(d, j, frameSize, count, maxFrames, width, height),
              FrameData(count, width, height, d[start..next]),
              Y4mScan(data, o + next, frameSize, count + 1, maxFrames, width, height), Y4mScan(d, next, frameSize, count + 1, maxFrames, width, height));
  }

  /** The step of `Y4mScanShift` at a byte that is skipped. */
  lemma Y4mShiftSkip(data: seq<byte>, o: nat, j: nat, frameSize: nat, count: nat, maxFrames: nat, width: nat, height: nat)
    requires o + j < |data| && !MarkAt(data[o..], j) && MarkAt(data, o + j) == MarkAt(data[o..], j) && count < maxFrames
    requires Y4mScan(data, o + j + 1, frameSize, count, maxFrames, width, height)
      == Y4mScan(data[o..], j + 1, frameSize, count, maxFrames, width, height)
    ensures Y4mScan(data, o + j, frameSize, count, maxFrames, width, height)
      == Y4mScan(data[o..], j, frameSize, count, maxFrames, width, height)
  {
    Y4mScanSkip(data, o + j, frameSize, count, maxFrames, width, height);
    Y4mScanSkip(data[o..], j, frameSize, count, maxFrames, width, height);
  }

  /** A frame taken by the walk over a suffix is taken at the same place by the walk over the whole. */
  lemma Y4mScanTakeShifted(data: seq<byte>, o: nat, j: nat, start: nat, next: nat, frameSize: nat, count: nat, maxFrames: nat,
                           width: nat, height: nat)
    requires o + j <= |data| && MarkAt(data[o..], j) && count < maxFrames
    requires start == PastLine(data[o..], j + 5) && next == start + frameSize && next <= |data[o..]|
    ensures Y4mScan(data, o + j, frameSize, count, maxFrames, width, height)
      == [FrameData(count, width, height, data[o..][start..next])] + Y4mScan(data, o + next, frameSize, count + 1, maxFrames, width, height)
  {
    Y4mScanTakeAt(data, o, j, start, next, frameSize, count, maxFrames, width, height);
    FrameDataShift(data, o, start, next, count, width, height);
    ConsSwap(Y4mScan(data, o + j, frameSize, count, maxFrames, width, height),
             FrameData(count, width, height, data[o + start..o + next]), FrameData(count, width, height, data[o..][start..next]),
             Y4mScan(data, o + next, frameSize, count + 1, maxFrames, width, height));
  }

  /** The frame of the walk over a suffix, located in the whole. */
  lemma Y4mScanTakeAt(data: seq<byte>, o: nat, j: nat, start: nat, next: nat, frameSize: nat, count: nat, maxFrames: nat,
                      width: nat, height: nat)
    requires o + j <= |data| && MarkAt(data[o..], j) && count < maxFrames
    requires start == PastLine(data[o..], j + 5) && next == start + frameSize && next <= |data[o..]|
    ensures Y4mScan(data, o + j, frameSize, count, maxFrames, width, height)
      == [FrameData(count, width, height, data[o + start..o + next])] + Y4mScan(data, o + next, frameSize, count + 1, maxFrames, width, height)
  {
    MarkAtShift(data, o, j);
    PastLineShift(data, o, j + 5);
    Y4mScanTake(data, o + j, o + start, o + next, frameSize, count, maxFrames, width, height);
  }

  lemma MarkAtShift(data: seq<byte>, o: nat, j: nat)
    requires o + j <= |data|
    ensures MarkAt(data, o + j) == MarkAt(data[o..], j)
  {
  }

  /** The Y4M walk reads a frame at the start of the data, and goes on with what follows it. */
  lemma Y4mScanHead(frame: seq<byte>, payload: seq<byte>, rest: seq<byte>,
                    frameSize: nat, count: nat, maxFrames: nat, width: nat, height: nat)
    requires IsY4mFrame(frame, payload) && |payload| == frameSize
    requires count < maxFrames
    ensures Y4mScan(frame + rest, 0, frameSize, count, maxFrames, width, height)
      == [FrameData(count, width, height, payload)] + Y4mScan(rest, 0, frameSize, count + 1, maxFrames, width, height)
  {
    var data := frame + rest;
    Y4mFrameAt(frame, payload, rest);
    Y4mScanTake(data, 0, 6, |frame|, frameSize, count, maxFrames, width, height);
    Y4mScanShift(data, |frame|, 0, frameSize, count + 1, maxFrames, width, height);
    AppendedSlice(frame, rest);
  }


  lemma Y4mFramesTail(frames: seq<seq<byte>>, payloads: seq<seq<byte>>, frameSize: nat)
    requires |frames| == |payloads| > 0
    requires forall k :: 0 <= k < |frames| ==> IsY4mFrame(frames[k], payloads[k]) && |payloads[k]| == frameSize
    ensures IsY4mFrame(frames[0], payloads[0]) && |payloads[0]| == frameSize
    ensures Concat(frames) == frames[0] + Concat(frames[1..])
    ensures forall k :: 0 <= k < |frames[1..]| ==> IsY4mFrame(frames[1..][k], payloads[1..][k]) && |payloads[1..][k]| == frameSize
  {
    assert forall k :: 0 <= k < |frames| - 1 ==> frames[1..][k] == frames[k + 1] && payloads[1..][k] == payloads[k + 1];
  }

  /** Walking written Y4M frames of the header's frame size returns every payload. */
  lemma {:induction false} Y4mScanWritten(frames: seq<seq<byte>>, payloads: seq<seq<byte>>,
                                          frameSize: nat, count: nat, maxFrames: nat, width: nat, height: nat)
    requires |frames| == |payloads|
    requires forall k :: 0 <= k < |frames| ==> IsY4mFrame(frames[k], payloads[k]) && |payloads[k]| == frameSize
    requires count + |payloads| <= maxFrames
    ensures Payloads(Y4mScan(Concat(frames), 0, frameSize, count, maxFrames, width, height)) == payloads
    decreases |payloads|
  {
    if |payloads| > 0 {
      var tail := Y4mScan(Concat(frames[1..]), 0, frameSize, count + 1, maxFrames, width, height);
      Y4mFramesTail(frames, payloads, frameSize);
      Y4mScanHead(frames[0], payloads[0], Concat(frames[1..]), frameSize, count, maxFrames, width, height);
      Y4mScanWritten(frames[1..], payloads[1..], frameSize, count + 1, maxFrames, width, height);
      PayloadsCons(FrameData(count, width, height, payloads[0]), tail, payloads);
    }
  }

  /** The first newline of a written Y4M file is the one that ends its header. */
  lemma WrittenY4mHeaderEnd(header: seq<byte>, body: seq<byte>)
    requires |header| >= 1 && header[|header| - 1] == FormatWriters.NEWLINE && FormatWriters.NEWLINE !in header[..|header| - 1]
    ensures IndexOf(header + body, FormatWriters.NEWLINE) == Some(|header| - 1)
  {
    var data := header + body;
    var r := IndexOf(data, FormatWriters.NEWLINE);
    assert data[|header| - 1] == FormatWriters.NEWLINE;
    assert data[..|header| - 1] == header[..|header| - 1];
  }

  /** The bytes of an ASCII line, up to its last character, decode back to its text. */
  lemma AsciiLineText(line: string, body: seq<byte>)
    requires IsAscii(line) && |line| >= 1
    ensures Utf8Decode((AsciiBytes(line) + body)[..|line| - 1]) == Some(line[..|line| - 1])
  {
    var text := line[..|line| - 1];
    var data := AsciiBytes(line) + body;
    assert IsAscii(text) by {
      forall k | 0 <= k < |text| ensures text[k] as int < 0x80 { assert text[k] == line[k]; }
    }
    assert data[..|line| - 1] == AsciiBytes(text) by {
      forall k | 0 <= k < |text| ensures data[..|line| - 1][k] == AsciiBytes(text)[k] {
        assert data[k] == AsciiBytes(line)[k] == line[k] as int;
      }
    }
    Utf8DecodeAscii(text);
  }

  /** The header line of a written Y4M file is found, decoded and parsed back. */
  lemma WrittenY4mHeaderFound(width: int, height: int, frameRate: FrameRate, body: seq<byte>)
    requires 0 <= width <= I32_MAX && 0 <= height <= I32_MAX
    ensures var header := FormatWriters.Y4mHeader(width, height, frameRate);
      var data := header + body;
      IndexOf(data, FormatWriters.NEWLINE) == Some(|header| - 1)
      && Utf8Decode(data[..|header| - 1]).Some?
      && ParseY4mHeaderLenientSpec(Utf8Decode(data[..|header| - 1]).value)
           == Y4mParams(width, height, FrameRate(FrameRateAsU32(frameRate), 1))
  {
    LenientParseWrittenHeader(width, height, frameRate);
    AsciiHeaderFound(FormatWriters.Y4mHeader(width, height, frameRate), FormatWriters.Y4mHeaderLine(width, height, frameRate),
                     body, Y4mParams(width, height, FrameRate(FrameRateAsU32(frameRate), 1)));
  }

  /** An ASCII header line that parses to `params`, followed by any bytes, is found, decoded and parsed back. */
  lemma AsciiHeaderFound(header: seq<byte>, line: string, body: seq<byte>, params: Y4mParams)
    requires IsAscii(line) && |line| >= 1 && header == AsciiBytes(line)
    requires header[|header| - 1] == FormatWriters.NEWLINE && FormatWriters.NEWLINE !in header[..|header| - 1]
    requires ParseY4mHeaderLenientSpec(line[..|line| - 1]) == params
    ensures var data := header + body;
      IndexOf(data, FormatWriters.NEWLINE) == Some(|header| - 1)
      && Utf8Decode(data[..|header| - 1]).Some?
      && ParseY4mHeaderLenientSpec(Utf8Decode(data[..|header| - 1]).value) == params
  {
    WrittenY4mHeaderEnd(header, body);
    AsciiLineText(line, body);
  }

  /**
   * A Y4M file as the writers produce it, with frames of the size its
   * header implies, converts exactly when it has no frame or its
   * dimensions keep the chroma indexes inside their planes (as even
   * dimensions do), and then gives back every payload, numbered from 0,
   * with the header's dimensions.
   */
  lemma ExtractWrittenY4m(width: int, height: int, frameRate: FrameRate, payloads: seq<seq<byte>>, maxFrames: nat)
    requires 0 <= width <= I32_MAX && 0 <= height <= I32_MAX
    requires forall k :: 0 <= k < |payloads| ==> |payloads[k]| == Y4mFrameSize(width, height)
    requires |payloads| <= maxFrames
    ensures var r := ExtractY4mFramesSpec(FormatWriters.Y4mHeader(width, height, frameRate) + Concat(Y4mFrameList(payloads)), maxFrames);
      (r.Ok? <==> |payloads| == 0 || ChromaInside(width, height))
      && (r.Ok? ==> Payloads(r.value) == payloads && Numbered(r.value, 0, width, height))
  {
    var header := FormatWriters.Y4mHeader(width, height, frameRate);
    var frames := Y4mFrameList(payloads);
    var data := header + Concat(frames);
    var frameSize := Y4mFrameSize(width, height);
    WrittenY4mHeaderFound(width, height, frameRate, Concat(frames));
    Y4mExtractAt(data, |header| - 1, Y4mParams(width, height, FrameRate(FrameRateAsU32(frameRate), 1)), maxFrames);
    Y4mScanAfter(header, frames, payloads, frameSize, maxFrames, width, height);
    AllConvertiblePayloads(Y4mScan(data, |header|, frameSize, 0, maxFrames, width, height), payloads, 0, width, height);
    assert |payloads| > 0 ==> Convertible(payloads[0], width, height) == ChromaInside(width, height);
  }

  /** Once the header line is found and parsed, extraction is the walk after it. */
  lemma Y4mExtractAt(data: seq<byte>, headerEnd: nat, p: Y4mParams, maxFrames: nat)
    requires IndexOf(data, FormatWriters.NEWLINE) == Some(headerEnd)
    requires Utf8Decode(data[..headerEnd]).Some? && ParseY4mHeaderLenientSpec(Utf8Decode(data[..headerEnd]).value) == p
    requires p.width >= 0 && p.height >= 0
    ensures ExtractY4mFramesSpec(data, maxFrames)
      == ConvertAll(Y4mScan(data, headerEnd + 1, Y4mFrameSize(p.width, p.height), 0, maxFrames, p.width, p.height))
  {
  }

  /** The Y4M walk over written frames that follow a header of any length. */
  lemma Y4mScanAfter(header: seq<byte>, frames: seq<seq<byte>>, payloads: seq<seq<byte>>, frameSize: nat, maxFrames: nat,
                     width: nat, height: nat)
    requires |frames| == |payloads| <= maxFrames
    requires forall k :: 0 <= k < |frames| ==> IsY4mFrame(frames[k], payloads[k]) && |payloads[k]| == frameSize
    ensures var scanned := Y4mScan(header + Concat(frames), |header|, frameSize, 0, maxFrames, width, height);
      Payloads(scanned) == payloads && Numbered(scanned, 0, width, height)
  {
    var data := header + Concat(frames);
    AppendedSlice(header, Concat(frames));
    Y4mScanShift(data, |header|, 0, frameSize, 0, maxFrames, width, height);
    Y4mScanWritten(frames, payloads, frameSize, 0, maxFrames, width, height);
    Y4mScanFrames(data, |header|, frameSize, 0, maxFrames, width, height);
  }
}
