/**
 * The stand-alone parsers: the Y4M header line (with its defaults and
 * errors) and the simplified Matroska SimpleBlock scan.
 */
module FormatParsers {
  import opened Wrappers
  import opened Bytes
  import opened Text
  import FormatWriters

  // ---------------------------------------------------------------------
  // Y4M header tokens, shared by every Y4M reader in the toolkit

  /** The two pieces of a frame-rate token's text, when `split(':')` gives exactly two. */
  function RateParts(rest: string): (r: Option<(string, string)>)
    ensures r.Some? ==> Split(rest, ':') == [r.value.0, r.value.1]
    ensures r.None? ==> |Split(rest, ':')| != 2
  {
    var parts := Split(rest, ':');
    if |parts| == 2 then Some((parts[0], parts[1])) else None
  }

  /** The text after the prefix `c` of the last token that starts with `c`. */
  function LastRest(tokens: seq<string>, c: char): (r: Option<string>)
    ensures r.Some? ==> exists k :: 0 <= k < |tokens| && StripPrefix(tokens[k], c) == r
    ensures r.None? ==> forall k :: 0 <= k < |tokens| ==> StripPrefix(tokens[k], c).None?
  {
    if |tokens| == 0 then None
    else
      match LastRest(tokens[1..], c)
      case Some(rest) =>
        var k :| 0 <= k < |tokens[1..]| && StripPrefix(tokens[1..][k], c) == Some(rest);
        assert tokens[k + 1] == tokens[1..][k];
        Some(rest)
      case None =>
        assert forall k :: 1 <= k < |tokens| ==> tokens[k] == tokens[1..][k - 1];
        StripPrefix(tokens[0], c)
  }

  /** The two parts of the last `F` token that splits into exactly two parts. */
  function LastRateParts(tokens: seq<string>): (r: Option<(string, string)>)
    ensures r.None? ==> forall k :: 0 <= k < |tokens| && StripPrefix(tokens[k], 'F').Some? ==>
      RateParts(tokens[k][1..]).None?
  {
    if |tokens| == 0 then None
    else
      match LastRateParts(tokens[1..])
      case Some(parts) => Some(parts)
      case None =>
        assert forall k :: 1 <= k < |tokens| ==> tokens[k] == tokens[1..][k - 1];
        match StripPrefix(tokens[0], 'F')
        case Some(rest) => RateParts(rest)
        case None => None
  }

  // ---------------------------------------------------------------------
  // parse_y4m_header

  datatype Y4mParams = Y4mParams(width: int, height: int, frameRate: FrameRate)

  /** Which field failed to parse; the Rust message also embeds the parse error text. */
  datatype HeaderError = InvalidWidth | InvalidHeight | InvalidFrameRateNumerator | InvalidFrameRateDenominator

  const Y4M_DEFAULTS: Y4mParams := Y4mParams(640, 480, FrameRate(30, 1))

  /**
   * One token's effect: `W` and `H` set the width and height and fail when
   * the rest is not an i32; an `F` token with exactly two `:`-separated
   * parts sets the rate and fails when either part is not a number; every
   * other token is ignored.
   */
  function ApplyToken(p: Y4mParams, token: string): Result<Y4mParams, HeaderError>
  {
    if StripPrefix(token, 'W').Some? then
      match ParseI32(token[1..])
      case Some(w) => Ok(p.(width := w))
      case None => Err(InvalidWidth)
    else if StripPrefix(token, 'H').Some? then
      match ParseI32(token[1..])
      case Some(h) => Ok(p.(height := h))
      case None => Err(InvalidHeight)
    else if StripPrefix(token, 'F').Some? then
      match RateParts(token[1..])
      case None => Ok(p)
      case Some((num, den)) =>
        if ParseInteger(num).None? then Err(InvalidFrameRateNumerator)
        else if ParseInteger(den).None? then Err(InvalidFrameRateDenominator)
        else Ok(p.(frameRate := FrameRate(ParseInteger(num).value, ParseInteger(den).value)))
    else Ok(p)
  }

  /** The tokens applied left to right, stopping at the first error. */
  function ApplyTokens(p: Y4mParams, tokens: seq<string>): Result<Y4mParams, HeaderError>
    decreases |tokens|
  {
    if |tokens| == 0 then Ok(p)
    else
      match ApplyToken(p, tokens[0])
      case Err(e) => Err(e)
      case Ok(q) => ApplyTokens(q, tokens[1..])
  }

  function ParseY4mHeaderSpec(header: string): Result<Y4mParams, HeaderError>
  {
    ApplyTokens(Y4M_DEFAULTS, SplitWhitespace(header))
  }

  /** `parse_y4m_header`: the token loop with early return on the first error. */
  method ParseY4mHeader(header: string) returns (r: Result<Y4mParams, HeaderError>)
    ensures r == ParseY4mHeaderSpec(header)
  {
    var width := 640;
    var height := 480;
    var frameRate := FrameRate(30, 1);
    var tokens := SplitWhitespace(header);
    for i := 0 to |tokens|
      invariant ApplyTokens(Y4mParams(width, height, frameRate), tokens[i..]) == ParseY4mHeaderSpec(header)
    {
      var part := tokens[i];
      assert tokens[i..][1..] == tokens[i + 1..];
      if |part| > 0 && part[0] == 'W' {
        var parsed := ParseI32(part[1..]);
        if parsed.None? {
          return Err(InvalidWidth);
        }
        width := parsed.value;
      } else if |part| > 0 && part[0] == 'H' {
        var parsed := ParseI32(part[1..]);
        if parsed.None? {
          return Err(InvalidHeight);
        }
        height := parsed.value;
      } else if |part| > 0 && part[0] == 'F' {
        var parts := Split(part[1..], ':');
        if |parts| == 2 {
          var num := ParseInteger(parts[0]);
          if num.None? {
            return Err(InvalidFrameRateNumerator);
          }
          var den := ParseInteger(parts[1]);
          if den.None? {
            return Err(InvalidFrameRateDenominator);
          }
          frameRate := FrameRate(num.value, den.value);
        }
      }
    }
    assert tokens[|tokens|..] == [];
    r := Ok(Y4mParams(width, height, frameRate));
  }

  /** A token that makes the parse fail. */
  predicate BadToken(token: string)
  {
    match StripPrefix(token, 'W')
    case Some(rest) => ParseI32(rest).None?
    case None =>
      match StripPrefix(token, 'H')
      case Some(rest) => ParseI32(rest).None?
      case None =>
        match StripPrefix(token, 'F')
        case Some(rest) =>
          RateParts(rest).Some? &&
          (ParseInteger(RateParts(rest).value.0).None? || ParseInteger(RateParts(rest).value.1).None?)
        case None => false
  }

  /**
   * The parse as a reference definition rather than a loop: it succeeds
   * exactly when no token is bad, and then the last `W`, `H` and two-part
   * `F` tokens decide the result, each field keeping its default when no
   * such token exists.
   */
  lemma {:induction false} ApplyTokensLastWins(p: Y4mParams, tokens: seq<string>)
    ensures ApplyTokens(p, tokens).Ok? <==> forall k :: 0 <= k < |tokens| ==> !BadToken(tokens[k])
    ensures ApplyTokens(p, tokens).Ok? ==>
      var q := ApplyTokens(p, tokens).value;
      (match LastRest(tokens, 'W') case None => q.width == p.width case Some(r) => ParseI32(r) == Some(q.width))
      && (match LastRest(tokens, 'H') case None => q.height == p.height case Some(r) => ParseI32(r) == Some(q.height))
      && (match LastRateParts(tokens)
          case None => q.frameRate == p.frameRate
          case Some((a, b)) => ParseInteger(a) == Some(q.frameRate.num) && ParseInteger(b) == Some(q.frameRate.den))
    decreases |tokens|
  {
    if |tokens| > 0 {
      var t := tokens[0];
      assert forall k :: 1 <= k < |tokens| ==> tokens[k] == tokens[1..][k - 1];
      match ApplyToken(p, t)
      case Err(_) =>
        assert BadToken(tokens[0]);
      case Ok(q) =>
        assert !BadToken(t);
        ApplyTokensLastWins(q, tokens[1..]);
    }
  }

  /** A token whose first letter is not `W`, `H` or `F`: the Y4M header parsers pass over it. */
  predicate Ignored(token: string)
  {
    |token| > 0 && token[0] !in {'W', 'H', 'F'}
  }

  /** Tokens the parse passes over change nothing. */
  lemma IgnoredTokens(p: Y4mParams, tokens: seq<string>)
    requires forall k :: 0 <= k < |tokens| ==> Ignored(tokens[k])
    ensures ApplyTokens(p, tokens) == Ok(p)
    decreases |tokens|
  {
    if |tokens| > 0 {
      assert forall k :: 1 <= k < |tokens| ==> tokens[k] == tokens[1..][k - 1];
      IgnoredTokens(p, tokens[1..]);
    }
  }

  lemma DimensionToken(p: Y4mParams, c: char, v: int)
    requires c == 'W' || c == 'H'
    requires I32_MIN <= v <= I32_MAX
    ensures ApplyToken(p, [c] + IntToString(v)) == Ok(if c == 'W' then p.(width := v) else p.(height := v))
  {
    ParseIntToString(v);
    assert ([c] + IntToString(v))[1..] == IntToString(v);
  }

  lemma RateToken(p: Y4mParams, fps: nat)
    ensures ApplyToken(p, "F" + IntToString(fps) + ":1") == Ok(p.(frameRate := FrameRate(fps, 1)))
  {
    var digits := IntToString(fps);
    ParseIntToString(fps);
    ParseIntToString(1);
    assert IntToString(1) == "1";
    assert ("F" + digits + ":1")[1..] == digits + [':'] + "1";
    SplitPair(digits, "1", ':');
  }

  /** One successful token, then the rest. */
  lemma ApplyFirst(p: Y4mParams, token: string, rest: seq<string>, q: Y4mParams)
    requires ApplyToken(p, token) == Ok(q)
    ensures ApplyTokens(p, [token] + rest) == ApplyTokens(q, rest)
  {
    assert ([token] + rest)[1..] == rest;
  }

  lemma SevenWords(a: string, b: string, c: string, d: string, e: string, f: string, g: string)
    ensures [a, b, c, d, e, f, g] == [a] + ([b] + ([c] + ([d] + [e, f, g])))
  {
  }

  /**
   * Seven header words in the writer's order, the first and the last three
   * passed over: the parse takes the width, the height and the frame rate.
   */
  lemma ApplyWords(p: Y4mParams, w0: string, w4: string, w5: string, w6: string, width: int, height: int, fps: nat)
    requires Ignored(w0) && Ignored(w4) && Ignored(w5) && Ignored(w6)
    requires I32_MIN <= width <= I32_MAX && I32_MIN <= height <= I32_MAX
    ensures ApplyTokens(p, [w0, "W" + IntToString(width), "H" + IntToString(height), "F" + IntToString(fps) + ":1", w4, w5, w6])
      == Ok(p.(width := width, height := height, frameRate := FrameRate(fps, 1)))
  {
    var tw, th, tf := "W" + IntToString(width), "H" + IntToString(height), "F" + IntToString(fps) + ":1";
    var tail := [w4, w5, w6];
    var p2 := p.(width := width);
    var p3 := p2.(height := height);
    var p4 := p3.(frameRate := FrameRate(fps, 1));
    IgnoredTokens(p4, tail);
    RateToken(p3, fps);
    ApplyFirst(p3, tf, tail, p4);
    DimensionToken(p2, 'H', height);
    ApplyFirst(p2, th, [tf] + tail, p3);
    DimensionToken(p, 'W', width);
    ApplyFirst(p, tw, [th] + ([tf] + tail), p2);
    ApplyFirst(p, w0, [tw] + ([th] + ([tf] + tail)), p);
    SevenWords(w0, tw, th, tf, w4, w5, w6);
  }

  /** The writer's seven header words, applied to the defaults. */
  lemma ApplyHeaderWords(width: int, height: int, fps: nat)
    requires I32_MIN <= width <= I32_MAX && I32_MIN <= height <= I32_MAX
    ensures ApplyTokens(Y4M_DEFAULTS, ["YUV4MPEG2", "W" + IntToString(width), "H" + IntToString(height),
                                       "F" + IntToString(fps) + ":1", "Ip", "A1:1", "C420mpeg2"])
      == Ok(Y4mParams(width, height, FrameRate(fps, 1)))
  {
    ApplyWords(Y4M_DEFAULTS, "YUV4MPEG2", "Ip", "A1:1", "C420mpeg2", width, height, fps);
  }

  /**
   * Reading back the header line the Y4M writer produces gives its width,
   * its height and the integer part of its frame rate over 1.
   */
  lemma ParseWrittenY4mHeader(width: int, height: int, frameRate: FrameRate)
    requires I32_MIN <= width <= I32_MAX && I32_MIN <= height <= I32_MAX
    ensures var line := FormatWriters.Y4mHeaderLine(width, height, frameRate);
      ParseY4mHeaderSpec(line[..|line| - 1])
        == Ok(Y4mParams(width, height, FrameRate(FrameRateAsU32(frameRate), 1)))
  {
    var words := FormatWriters.Y4mHeaderWords(width, height, frameRate);
    var fps := FrameRateAsU32(frameRate);
    SplitJoinWords(words);
    assert words == ["YUV4MPEG2", "W" + IntToString(width), "H" + IntToString(height),
                     "F" + IntToString(fps) + ":1", "Ip", "A1:1", "C420mpeg2"];
    ApplyHeaderWords(width, height, fps);
  }

  // ---------------------------------------------------------------------
  // parse_matroska_frames

  /** Where the scan starts: after the EBML magic when the input is longer than it. */
  function ScanStart(data: seq<byte>): (offset: nat)
    ensures offset <= |data|
  {
    if |data| > 4 && data[..4] == FormatWriters.EBML_MAGIC then 4 else 0
  }

  /** Bytes taken by a size field whose first byte is `b`. */
  function SizeFieldLength(b: byte): nat
  {
    if b < 0x7F then 1 else 2
  }

  /**
   * The size announced by the field at `o`. A first byte below 0x7F is the
   * size; otherwise the code uses its low seven bits as the high byte and
   * never reads the second byte (`readLow` = false). With `readLow` the
   * second byte supplies the low eight bits, as the writer intends.
   */
  function BlockSize(data: seq<byte>, o: nat, readLow: bool): nat
    requires o < |data|
  {
    var b := data[o] as int;
    if b < 0x7F then b
    else (b % 0x80) * 0x100 + (if readLow && o + 1 < |data| then data[o + 1] as int else 0)
  }

  /** `size.saturating_sub(4)`: the payload length after track and timestamp. */
  function PayloadLength(size: nat): nat
  {
    if size >= 4 then size - 4 else 0
  }

  /**
   * The frames found from `offset` on: a SimpleBlock ID is followed by its
   * size field and four skipped bytes, then the payload is taken when it
   * fits and the scan stops when it does not; any other byte is skipped.
   */
  function ScanBlocks(data: seq<byte>, offset: nat, readLow: bool): seq<seq<byte>>
    requires offset <= |data|
    decreases |data| - offset
  {
    if offset == |data| then []
    else if data[offset] != FormatWriters.SIMPLE_BLOCK_ID then ScanBlocks(data, offset + 1, readLow)
    else if offset + 1 == |data| then []
    else
      var start := offset + 1 + SizeFieldLength(data[offset + 1]) + 4;
      var len := PayloadLength(BlockSize(data, offset + 1, readLow));
      if start + len <= |data| then [data[start..start + len]] + ScanBlocks(data, start + len, readLow)
      else []
  }

  function ParseMatroskaFramesSpec(data: seq<byte>): seq<seq<byte>>
  {
    ScanBlocks(data, ScanStart(data), false)
  }

  /** `parse_matroska_frames`, which always returns `Ok`. */
  method ParseMatroskaFrames(data: seq<byte>) returns (frames: seq<seq<byte>>)
    ensures frames == ParseMatroskaFramesSpec(data)
  {
    frames := [];
    var offset := if |data| > 4 && data[..4] == FormatWriters.EBML_MAGIC then 4 else 0;
    ghost var total := ScanBlocks(data, offset, false);
    while offset < |data|
      invariant offset <= |data|
      invariant frames + ScanBlocks(data, offset, false) == total
      decreases |data| - offset
    {
      if data[offset] == FormatWriters.SIMPLE_BLOCK_ID {
        ghost var at := offset;
        offset := offset + 1;
        var size: nat;
        if offset < |data| {
          var firstByte := data[offset];
          if firstByte < 0x7F {
            offset := offset + 1;
            size := firstByte;
          } else {
            offset := offset + 2;
            size := (firstByte as int % 0x80) * 0x100;
          }
          assert offset == at + 1 + SizeFieldLength(firstByte) && size == BlockSize(data, at + 1, false);
        } else {
          ScanBlocksEnd(data, at, false);
          ScanDone(frames, data, at, total);
          return;
        }
        offset := offset + 4;
        var frameSize := if size >= 4 then size - 4 else 0;
        if offset + frameSize <= |data| {
          var next := offset + frameSize;
          ScanTakeStep(data, frames, at, offset, frameSize);
          frames := frames + [data[offset..next]];
          offset := next;
        } else {
          ScanBlocksStop(data, at, offset, frameSize, false);
          ScanDone(frames, data, at, total);
          return;
        }
      } else {
        ScanBlocksSkip(data, offset, false);
        offset := offset + 1;
      }
    }
    ScanDone(frames, data, offset, total);
  }

  /** Once nothing is left to scan, the frames found so far are all of them. */
  lemma ScanDone(frames: seq<seq<byte>>, data: seq<byte>, offset: nat, total: seq<seq<byte>>)
    requires offset <= |data| && frames + ScanBlocks(data, offset, false) == total
    requires offset == |data| || ScanBlocks(data, offset, false) == []
    ensures frames == total
  {
    assert frames + [] == frames;
  }

  /**
   * `frames` are slices of `data` at `starts`, each at least six bytes
   * past `offset` (the block ID, its size field and the skipped bytes),
   * in input order and without overlap.
   */
  ghost predicate PlacedSlices(data: seq<byte>, offset: nat, frames: seq<seq<byte>>, starts: seq<nat>)
  {
    |starts| == |frames| && SlicesAt(data, offset, frames, starts) && SlicesInOrder(frames, starts)
  }

  /** Each frame is the slice of `data` at its start, at least six bytes past `offset`. */
  ghost predicate SlicesAt(data: seq<byte>, offset: nat, frames: seq<seq<byte>>, starts: seq<nat>)
    requires |starts| == |frames|
  {
    forall k :: 0 <= k < |starts| ==>
      offset + 6 <= starts[k] && starts[k] + |frames[k]| <= |data|
      && frames[k] == data[starts[k]..starts[k] + |frames[k]|]
  }

  /** Each frame ends at least six bytes before the next one starts. */
  ghost predicate SlicesInOrder(frames: seq<seq<byte>>, starts: seq<nat>)
    requires |starts| == |frames|
  {
    forall k :: 0 <= k < |starts| - 1 ==> starts[k] + |frames[k]| + 6 <= starts[k + 1]
  }

  lemma PlacedSlicesCons(data: seq<byte>, offset: nat, start: nat, f: seq<byte>, rest: seq<seq<byte>>, starts: seq<nat>)
    requires offset + 6 <= start && start + |f| <= |data| && f == data[start..start + |f|]
    requires PlacedSlices(data, start + |f|, rest, starts)
    ensures PlacedSlices(data, offset, [f] + rest, [start] + starts)
  {
    SlicesAtCons(data, offset, start, f, rest, starts);
    SlicesInOrderCons(start + |f|, start, f, rest, starts);
  }

  lemma SlicesAtCons(data: seq<byte>, offset: nat, start: nat, f: seq<byte>, rest: seq<seq<byte>>, starts: seq<nat>)
    requires offset + 6 <= start && start + |f| <= |data| && f == data[start..start + |f|]
    requires |starts| == |rest| && SlicesAt(data, start + |f|, rest, starts)
    ensures SlicesAt(data, offset, [f] + rest, [start] + starts)
  {
    var all, frames := [start] + starts, [f] + rest;
    forall k | 1 <= k < |all|
      ensures offset + 6 <= all[k] && all[k] + |frames[k]| <= |data| && frames[k] == data[all[k]..all[k] + |frames[k]|]
    {
      assert all[k] == starts[k - 1] && frames[k] == rest[k - 1];
    }
  }

  lemma SlicesInOrderCons(later: nat, start: nat, f: seq<byte>, rest: seq<seq<byte>>, starts: seq<nat>)
    requires later == start + |f|
    requires |starts| == |rest| && SlicesInOrder(rest, starts)
    requires forall k :: 0 <= k < |starts| ==> later + 6 <= starts[k]
    ensures SlicesInOrder([f] + rest, [start] + starts)
  {
    var all, frames := [start] + starts, [f] + rest;
    forall k | 0 <= k < |all| - 1
      ensures all[k] + |frames[k]| + 6 <= all[k + 1]
    {
      if k == 0 {
        assert all[1] == starts[0];
      } else {
        assert all[k] == starts[k - 1] && frames[k] == rest[k - 1] && all[k + 1] == starts[k];
      }
    }
  }

  lemma PlacedSlicesFrom(data: seq<byte>, offset: nat, later: nat, frames: seq<seq<byte>>, starts: seq<nat>)
    requires offset <= later
    requires PlacedSlices(data, later, frames, starts)
    ensures PlacedSlices(data, offset, frames, starts)
  {
  }

  /** A SimpleBlock whose payload fits: the scan takes the payload and goes on after it. */
  lemma ScanBlocksTake(data: seq<byte>, offset: nat, start: nat, len: nat, readLow: bool)
    requires offset + 1 < |data| && data[offset] == FormatWriters.SIMPLE_BLOCK_ID
    requires start == offset + 1 + SizeFieldLength(data[offset + 1]) + 4
    requires len == PayloadLength(BlockSize(data, offset + 1, readLow)) && start + len <= |data|
    ensures ScanBlocks(data, offset, readLow) == [data[start..start + len]] + ScanBlocks(data, start + len, readLow)
  {
  }

  /** A byte other than the SimpleBlock ID is passed over. */
  lemma ScanBlocksSkip(data: seq<byte>, offset: nat, readLow: bool)
    requires offset < |data| && data[offset] != FormatWriters.SIMPLE_BLOCK_ID
    ensures ScanBlocks(data, offset, readLow) == ScanBlocks(data, offset + 1, readLow)
  {
  }

  /** A SimpleBlock ID in the last byte ends the scan. */
  lemma ScanBlocksEnd(data: seq<byte>, offset: nat, readLow: bool)
    requires offset + 1 == |data| && data[offset] == FormatWriters.SIMPLE_BLOCK_ID
    ensures ScanBlocks(data, offset, readLow) == []
  {
  }

  /** A SimpleBlock whose payload runs past the end stops the scan. */
  lemma ScanBlocksStop(data: seq<byte>, offset: nat, start: nat, len: nat, readLow: bool)
    requires offset + 1 < |data| && data[offset] == FormatWriters.SIMPLE_BLOCK_ID
    requires start == offset + 1 + SizeFieldLength(data[offset + 1]) + 4
    requires len == PayloadLength(BlockSize(data, offset + 1, readLow)) && start + len > |data|
    ensures ScanBlocks(data, offset, readLow) == []
  {
  }

  /** One pass of the scan loop moves one payload from the scan's remainder to its result. */
  lemma ScanTakeStep(data: seq<byte>, frames: seq<seq<byte>>, offset: nat, start: nat, len: nat)
    requires offset + 1 < |data| && data[offset] == FormatWriters.SIMPLE_BLOCK_ID
    requires start == offset + 1 + SizeFieldLength(data[offset + 1]) + 4
    requires len == PayloadLength(BlockSize(data, offset + 1, false)) && start + len <= |data|
    ensures (frames + [data[start..start + len]]) + ScanBlocks(data, start + len, false) == frames + ScanBlocks(data, offset, false)
  {
    ScanBlocksTake(data, offset, start, len, false);
    assert (frames + [data[start..start + len]]) + ScanBlocks(data, start + len, false)
      == frames + ([data[start..start + len]] + ScanBlocks(data, start + len, false));
  }

  /** Where each scanned frame sits in the input. */
  lemma {:induction false} ScanStarts(data: seq<byte>, offset: nat, readLow: bool) returns (starts: seq<nat>)
    requires offset <= |data|
    ensures PlacedSlices(data, offset, ScanBlocks(data, offset, readLow), starts)
    decreases |data| - offset
  {
    if offset == |data| {
      starts := [];
    } else if data[offset] != FormatWriters.SIMPLE_BLOCK_ID {
      starts := ScanStarts(data, offset + 1, readLow);
      PlacedSlicesFrom(data, offset, offset + 1, ScanBlocks(data, offset, readLow), starts);
    } else if offset + 1 == |data| {
      starts := [];
    } else {
      var start := offset + 1 + SizeFieldLength(data[offset + 1]) + 4;
      var len := PayloadLength(BlockSize(data, offset + 1, readLow));
      if start + len <= |data| {
        var rest := ScanStarts(data, start + len, readLow);
        ScanBlocksTake(data, offset, start, len, readLow);
        PlacedSlicesCons(data, offset, start, data[start..start + len], ScanBlocks(data, start + len, readLow), rest);
        starts := [start] + rest;
      } else {
        starts := [];
      }
    }
  }

  /** Every frame the parser returns is an in-order, non-overlapping slice of its input. */
  lemma ParsedFramesAreSlices(data: seq<byte>)
    ensures exists starts :: PlacedSlices(data, ScanStart(data), ParseMatroskaFramesSpec(data), starts)
  {
    var starts := ScanStarts(data, ScanStart(data), false);
    assert PlacedSlices(data, ScanStart(data), ParseMatroskaFramesSpec(data), starts);
  }

  /** Bytes that hold no SimpleBlock ID are passed over. */
  lemma {:induction false} ScanSkip(data: seq<byte>, from: nat, until: nat, readLow: bool)
    requires from <= until <= |data|
    requires forall k :: from <= k < until ==> data[k] != FormatWriters.SIMPLE_BLOCK_ID
    ensures ScanBlocks(data, from, readLow) == ScanBlocks(data, until, readLow)
    decreases until - from
  {
    if from < until {
      ScanSkip(data, from + 1, until, readLow);
    }
  }

  /** A payload short enough for the scan to read its size field back. */
  predicate Readable(payload: seq<byte>, readLow: bool)
  {
    |payload| + 4 < 0x7F || (readLow && |payload| + 4 < 0x8000)
  }

  /** A whole SimpleBlock at `at` yields its payload, and the scan goes on right after it. */
  lemma ScanBlock(data: seq<byte>, at: nat, payload: seq<byte>, timestamp: nat, readLow: bool)
    requires Readable(payload, readLow)
    requires at + |FormatWriters.SimpleBlock(payload, timestamp)| <= |data|
    requires data[at..at + |FormatWriters.SimpleBlock(payload, timestamp)|] == FormatWriters.SimpleBlock(payload, timestamp)
    ensures ScanBlocks(data, at, readLow)
      == [payload] + ScanBlocks(data, at + |FormatWriters.SimpleBlock(payload, timestamp)|, readLow)
  {
    var b := FormatWriters.SimpleBlock(payload, timestamp);
    var sizeLen := if |payload| + 4 < 0x7F then 1 else 2;
    BlockFieldsAt(data, at, payload, timestamp, readLow);
    BlockPayloadAt(data, at, payload, timestamp);
    ScanBlocksTake(data, at, at + 1 + sizeLen + 4, |payload|, readLow);
  }

  /** The ID and the size field of a whole SimpleBlock at `at`, as the scan reads them. */
  lemma BlockFieldsAt(data: seq<byte>, at: nat, payload: seq<byte>, timestamp: nat, readLow: bool)
    requires Readable(payload, readLow)
    requires at + |FormatWriters.SimpleBlock(payload, timestamp)| <= |data|
    requires data[at..at + |FormatWriters.SimpleBlock(payload, timestamp)|] == FormatWriters.SimpleBlock(payload, timestamp)
    ensures at + 1 < |data| && data[at] == FormatWriters.SIMPLE_BLOCK_ID
    ensures SizeFieldLength(data[at + 1]) == (if |payload| + 4 < 0x7F then 1 else 2)
    ensures BlockSize(data, at + 1, readLow) == |payload| + 4
  {
    var b := FormatWriters.SimpleBlock(payload, timestamp);
    var sizeLen := if |payload| + 4 < 0x7F then 1 else 2;
    var field := FormatWriters.BlockSizeField(|payload| + 4);
    assert data[at] == data[at..at + |b|][0] == b[0];
    assert b[1..1 + sizeLen] == field;
    assert data[at + 1] == data[at..at + |b|][1] == b[1];
    assert b[1] == b[1..1 + sizeLen][0] == field[0];
    if sizeLen == 2 {
      assert data[at + 2] == data[at..at + |b|][2] == b[2];
      assert b[2] == b[1..1 + sizeLen][1] == field[1];
    }
    SizeFieldValue(data, at + 1, |payload| + 4, readLow);
  }

  /** A size field laid out by the writer reads back as its size, when the scan can read it. */
  lemma SizeFieldValue(data: seq<byte>, o: nat, size: nat, readLow: bool)
    requires size < 0x7F || (readLow && size < 0x8000)
    requires o + |FormatWriters.BlockSizeField(size)| <= |data|
    requires data[o] == FormatWriters.BlockSizeField(size)[0]
    requires size >= 0x7F ==> data[o + 1] == FormatWriters.BlockSizeField(size)[1]
    ensures SizeFieldLength(data[o]) == |FormatWriters.BlockSizeField(size)|
    ensures BlockSize(data, o, readLow) == size
  {
    if size >= 0x7F {
      var high := (size / 0x100) % 0x80;
      assert high == size / 0x100;
      assert data[o] == 0x80 + high && data[o + 1] == size % 0x100;
      assert (data[o] as int % 0x80) == high;
    }
  }

  /** The payload of a whole SimpleBlock at `at` sits after the ID, the size field and four more bytes. */
  lemma BlockPayloadAt(data: seq<byte>, at: nat, payload: seq<byte>, timestamp: nat)
    requires at + |FormatWriters.SimpleBlock(payload, timestamp)| <= |data|
    requires data[at..at + |FormatWriters.SimpleBlock(payload, timestamp)|] == FormatWriters.SimpleBlock(payload, timestamp)
    ensures var start := at + 1 + (if |payload| + 4 < 0x7F then 1 else 2) + 4;
      start + |payload| <= |data| && data[start..start + |payload|] == payload
  {
    var b := FormatWriters.SimpleBlock(payload, timestamp);
    var sizeLen := if |payload| + 4 < 0x7F then 1 else 2;
    var start := at + 1 + sizeLen + 4;
    assert data[start..start + |payload|] == data[at..at + |b|][5 + sizeLen..] == b[5 + sizeLen..] == payload;
  }

  /** A run of SimpleBlocks, one per payload, with the given timestamps. */
  function SimpleBlocks(payloads: seq<seq<byte>>, timestamps: seq<nat>): (blocks: seq<byte>)
    requires |payloads| == |timestamps|
    ensures |payloads| == 0 ==> blocks == []
  {
    if |payloads| == 0 then []
    else FormatWriters.SimpleBlock(payloads[0], timestamps[0]) + SimpleBlocks(payloads[1..], timestamps[1..])
  }

  /** Scanning a run of written SimpleBlocks followed by ID-free bytes gives back the payloads. */
  lemma {:induction false} ScanWrittenBlocks(prefix: seq<byte>, payloads: seq<seq<byte>>, timestamps: seq<nat>,
                                             suffix: seq<byte>, readLow: bool)
    requires |payloads| == |timestamps|
    requires forall k :: 0 <= k < |payloads| ==> Readable(payloads[k], readLow)
    requires forall k :: 0 <= k < |suffix| ==> suffix[k] != FormatWriters.SIMPLE_BLOCK_ID
    ensures ScanBlocks(prefix + SimpleBlocks(payloads, timestamps) + suffix, |prefix|, readLow) == payloads
    decreases |payloads|
  {
    if |payloads| == 0 {
      assert prefix + SimpleBlocks(payloads, timestamps) + suffix == prefix + suffix;
      ScanIdFree(prefix, suffix, readLow);
    } else {
      var b := FormatWriters.SimpleBlock(payloads[0], timestamps[0]);
      assert forall k :: 0 <= k < |payloads| - 1 ==> payloads[1..][k] == payloads[k + 1];
      ScanWrittenBlocks(prefix + b, payloads[1..], timestamps[1..], suffix, readLow);
      ScanWrittenStep(prefix, payloads, timestamps, suffix, readLow);
    }
  }

  /** The step of `ScanWrittenBlocks`: the first block's payload, then the rest as scanned after it. */
  lemma ScanWrittenStep(prefix: seq<byte>, payloads: seq<seq<byte>>, timestamps: seq<nat>, suffix: seq<byte>, readLow: bool)
    requires |payloads| == |timestamps| > 0 && Readable(payloads[0], readLow)
    requires var b := FormatWriters.SimpleBlock(payloads[0], timestamps[0]);
      ScanBlocks(prefix + b + SimpleBlocks(payloads[1..], timestamps[1..]) + suffix, |prefix + b|, readLow) == payloads[1..]
    ensures ScanBlocks(prefix + SimpleBlocks(payloads, timestamps) + suffix, |prefix|, readLow) == payloads
  {
    var b := FormatWriters.SimpleBlock(payloads[0], timestamps[0]);
    var rest := SimpleBlocks(payloads[1..], timestamps[1..]);
    var data := prefix + b + (rest + suffix);
    assert SimpleBlocks(payloads, timestamps) == b + rest;
    AppendAssoc3(prefix, b, rest, suffix);
    assert prefix + SimpleBlocks(payloads, timestamps) + suffix == data;
    assert prefix + b + rest + suffix == data;
    ScanFirstBlock(prefix, payloads[0], timestamps[0], rest + suffix, readLow);
    HeadTail(payloads);
  }

  lemma HeadTail<T>(s: seq<T>)
    requires |s| > 0
    ensures s == [s[0]] + s[1..]
  {
  }

  lemma ScanIdFree(prefix: seq<byte>, suffix: seq<byte>, readLow: bool)
    requires forall k :: 0 <= k < |suffix| ==> suffix[k] != FormatWriters.SIMPLE_BLOCK_ID
    ensures ScanBlocks(prefix + suffix, |prefix|, readLow) == []
  {
    var data := prefix + suffix;
    assert forall k :: |prefix| <= k < |data| ==> data[k] == suffix[k - |prefix|];
    ScanSkip(data, |prefix|, |data|, readLow);
  }

  lemma ScanFirstBlock(prefix: seq<byte>, payload: seq<byte>, timestamp: nat, more: seq<byte>, readLow: bool)
    requires Readable(payload, readLow)
    ensures var b := FormatWriters.SimpleBlock(payload, timestamp);
      ScanBlocks(prefix + b + more, |prefix|, readLow) == [payload] + ScanBlocks(prefix + b + more, |prefix + b|, readLow)
  {
    var b := FormatWriters.SimpleBlock(payload, timestamp);
    var data := prefix + b + more;
    assert data[|prefix|..|prefix| + |b|] == b;
    ScanBlock(data, |prefix|, payload, timestamp, readLow);
  }

  lemma AppendAssoc3(a: seq<byte>, b: seq<byte>, c: seq<byte>, d: seq<byte>)
    ensures a + (b + c) + d == a + b + (c + d)
    ensures a + b + c + d == a + b + (c + d)
  {
  }

  /** The file the Matroska writer produces, from header to trailer. */
  function WrittenMatroska(payloads: seq<seq<byte>>, timestamps: seq<nat>): seq<byte>
    requires |payloads| == |timestamps|
  {
    FormatWriters.MatroskaHeader() + SimpleBlocks(payloads, timestamps) + FormatWriters.MatroskaTrailer()
  }

  /** Scanning a written file from its start recovers the payloads. */
  lemma ScanWrittenMatroska(payloads: seq<seq<byte>>, timestamps: seq<nat>, readLow: bool)
    requires |payloads| == |timestamps|
    requires forall k :: 0 <= k < |payloads| ==> Readable(payloads[k], readLow)
    ensures var data := WrittenMatroska(payloads, timestamps);
      ScanStart(data) == 4 && ScanBlocks(data, 4, readLow) == payloads
  {
    var header := FormatWriters.MatroskaHeader();
    var data := WrittenMatroska(payloads, timestamps);
    assert data[..4] == header[..4];
    ScanWrittenBlocks(header, payloads, timestamps, FormatWriters.MatroskaTrailer(), readLow);
    assert forall k :: 4 <= k < |header| ==> data[k] == header[k];
    ScanSkip(data, 4, |header|, readLow);
  }

  /** Round trip: frames of at most 122 bytes come back from the writer's output. */
  lemma ParseWrittenMatroska(payloads: seq<seq<byte>>, timestamps: seq<nat>)
    requires |payloads| == |timestamps|
    requires forall k :: 0 <= k < |payloads| ==> |payloads[k]| + 4 < 0x7F
    ensures ParseMatroskaFramesSpec(WrittenMatroska(payloads, timestamps)) == payloads
  {
    ScanWrittenMatroska(payloads, timestamps, false);
  }

  /**
   * A 200-byte zero frame is written with the two-byte size field 0x80 0xCC;
   * the scan reads its size as 0, so it returns one empty frame instead of
   * the payload.
   */
  lemma LargeFrameIsMisread()
    ensures var payload := seq(200, _ => 0);
      ParseMatroskaFramesSpec(WrittenMatroska([payload], [0])) == [[]]
  {
    var payload: seq<byte> := seq(200, _ => 0);
    var data := WrittenMatroska([payload], [0]);
    LargeFrameLayout(payload, data);
    assert ScanStart(data) == 4;
    ScanSkip(data, 4, 23, false);
    assert BlockSize(data, 24, false) == 0;
    assert ScanBlocks(data, 23, false) == [data[30..30]] + ScanBlocks(data, 30, false);
    ScanSkip(data, 30, |data|, false);
    assert data[30..30] == [];
  }

  /** Where the bytes of the one-frame file in `LargeFrameIsMisread` fall. */
  lemma LargeFrameLayout(payload: seq<byte>, data: seq<byte>)
    requires payload == seq(200, _ => 0) && data == WrittenMatroska([payload], [0])
    ensures |data| == 233 && data[..4] == FormatWriters.EBML_MAGIC
    ensures forall k :: 4 <= k < 23 ==> data[k] != FormatWriters.SIMPLE_BLOCK_ID
    ensures data[23] == FormatWriters.SIMPLE_BLOCK_ID && data[24] == 0x80
    ensures forall k :: 30 <= k < |data| ==> data[k] != FormatWriters.SIMPLE_BLOCK_ID
  {
    var header := FormatWriters.MatroskaHeader();
    var b := FormatWriters.SimpleBlock(payload, 0);
    var t := FormatWriters.MatroskaTrailer();
    assert SimpleBlocks([payload], [0]) == b;
    assert data == header + b + t;
    assert FormatWriters.BlockSizeField(204) == [0x80, 0xCC];
    assert b[1..3][0] == 0x80;
    assert data[..4] == header[..4];
    assert forall k :: 4 <= k < 23 ==> data[k] == header[k];
    assert forall k :: 30 <= k < 230 ==> data[k] == b[7..][k - 30] == payload[k - 30];
    assert forall k :: 230 <= k < 233 ==> data[k] == t[k - 230];
  }

  /** The scan with the size field's second byte read, as the writer lays it out. */
  function ParseMatroskaFramesCorrected(data: seq<byte>): seq<seq<byte>>
  {
    ScanBlocks(data, ScanStart(data), true)
  }

  /** Round trip for the corrected scan: every frame below 0x7FFC bytes comes back. */
  lemma ParseWrittenMatroskaCorrected(payloads: seq<seq<byte>>, timestamps: seq<nat>)
    requires |payloads| == |timestamps|
    requires forall k :: 0 <= k < |payloads| ==> |payloads[k]| + 4 < 0x8000
    ensures ParseMatroskaFramesCorrected(WrittenMatroska(payloads, timestamps)) == payloads
  {
    ScanWrittenMatroska(payloads, timestamps, true);
  }
}
