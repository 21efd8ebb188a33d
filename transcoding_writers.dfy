/**
 * The byte writers private to the transcoder: the codec-private blobs, the
 * EBML variable-size integer, the cluster start, and its own copies of the
 * IVF, SimpleBlock and Y4M writers. Each layout is a function whose fields
 * are its postconditions; each writer appends exactly its layout.
 */
module TranscodingWriters {
  import opened Wrappers
  import opened Bytes
  import opened Text
  import opened VideoEncoding
  import FormatWriters

  // ---------------------------------------------------------------------
  // Codec-private data

  /**
   * The CodecPrivate blob of a codec: VP9 gives profile, level, bit depth
   * and subsampling as zeros after a leading 1, then the low 16 bits of the
   * width and height little-endian; AV1 gives the configuration record's
   * first byte 0x81 and four zeros; VP8 gives five zeros.
   */
  function CodecPrivate(codec: VideoCodec, width: int, height: int): (r: seq<byte>)
    ensures codec == Vp9 ==>
      (|r| == 8 && r[..4] == [1, 0, 0, 0]
       && ReadLE16(r, 4) == width % U16_LIMIT && ReadLE16(r, 6) == height % U16_LIMIT)
    ensures codec == Av1 ==> r == [0x81, 0, 0, 0, 0]
    ensures codec == Vp8 ==> r == [0, 0, 0, 0, 0]
  {
    match codec
    case Vp9 => [1, 0, 0, 0, width % 0x100, (width / 0x100) % 0x100, height % 0x100, (height / 0x100) % 0x100]
    case Av1 => [0x81, 0, 0, 0, 0]
    case Vp8 => [0, 0, 0, 0, 0]
  }

  /**
   * `generate_codec_private`: pushes the blob's bytes one by one and never
   * answers `None`. `(x & 0xFF) as u8` and `((x >> 8) & 0xFF) as u8` of an
   * i32 are its two low bytes in two's complement, which the Euclidean
   * `%` and `/` give for negative values as well.
   */
  method GenerateCodecPrivate(codec: VideoCodec, width: int, height: int) returns (r: Option<seq<byte>>)
    ensures r.Some? && r.value == CodecPrivate(codec, width, height)
  {
    var config: seq<byte> := [];
    match codec {
      case Vp9 =>
        config := config + [0x01];
        config := config + [0x00];
        config := config + [0x00];
        config := config + [0x00];
        config := config + [width % 0x100];
        config := config + [(width / 0x100) % 0x100];
        config := config + [height % 0x100];
        config := config + [(height / 0x100) % 0x100];
      case Av1 =>
        config := config + [0x81];
        config := config + [0x00];
        config := config + [0x00];
        config := config + [0x00];
        config := config + [0x00];
      case Vp8 =>
        config := config + [0x00];
        config := config + [0x00];
        config := config + [0x00];
        config := config + [0x00];
        config := config + [0x00];
    }
    r := Some(config);
  }

  // ---------------------------------------------------------------------
  // EBML variable-size integers

  /** The number of bytes `write_vint` uses for `value`. */
  function VintLength(value: nat): nat
  {
    if value < 0x7F then 1
    else if value < 0x3FFF then 2
    else if value < 0x1F_FFFF then 3
    else if value < 0x0FFF_FFFF then 4
    else 5
  }

  /**
   * The bytes `write_vint` writes: below 0x7F the value itself, with no
   * marker bit; otherwise the high part OR-ed with the marker 0x80, 0xC0,
   * 0xE0 or 0xF0, then the lower bytes big-endian. Up to four bytes the
   * high part lies below the marker's lowest bit, so the OR is an addition;
   * in the five-byte form the `as u8` cast keeps only the low four bits of
   * `value >> 32` next to the marker.
   */
  function Vint(value: nat): (r: seq<byte>)
    requires value < U64_LIMIT
    ensures |r| == VintLength(value)
    ensures r[|r| - 1] == value % 0x100
    ensures value < 0x7F ==> r == [value]
    ensures 0x7F <= value ==> r[0] >= 0x80
  {
    if value < 0x7F then [value]
    else if value < 0x3FFF then [0x80 + value / 0x100, value % 0x100]
    else if value < 0x1F_FFFF then
      [0xC0 + value / 0x1_0000, (value / 0x100) % 0x100, value % 0x100]
    else if value < 0x0FFF_FFFF then
      [0xE0 + value / 0x100_0000, (value / 0x1_0000) % 0x100, (value / 0x100) % 0x100, value % 0x100]
    else
      [0xF0 + (value / 0x1_0000_0000) % 0x10, (value / 0x100_0000) % 0x100,
       (value / 0x1_0000) % 0x100, (value / 0x100) % 0x100, value % 0x100]
  }

  method WriteVint(w: ByteWriter, value: nat)
    requires value < U64_LIMIT
    modifies w
    ensures w.written == old(w.written) + Vint(value)
  {
    if value < 0x7F {
      w.WriteAll([value]);
    } else if value < 0x3FFF {
      w.WriteAll([0x80 + value / 0x100, value % 0x100]);
    } else if value < 0x1F_FFFF {
      w.WriteAll([0xC0 + value / 0x1_0000, (value / 0x100) % 0x100, value % 0x100]);
    } else if value < 0x0FFF_FFFF {
      w.WriteAll([0xE0 + value / 0x100_0000, (value / 0x1_0000) % 0x100, (value / 0x100) % 0x100, value % 0x100]);
    } else {
      w.WriteAll([0xF0 + (value / 0x1_0000_0000) % 0x10, (value / 0x100_0000) % 0x100,
                  (value / 0x1_0000) % 0x100, (value / 0x100) % 0x100, value % 0x100]);
    }
  }

  /** The length a reader infers from the first byte of a `write_vint` field. */
  function VintLengthOf(first: byte): nat
  {
    if first < 0x80 then 1
    else if first < 0xC0 then 2
    else if first < 0xE0 then 3
    else if first < 0xF0 then 4
    else 5
  }

  /**
   * A reader for the fields `write_vint` produces: the length from the
   * first byte's marker, then the value with the marker removed, or `None`
   * when the field runs past the end.
   */
  function ReadVint(s: seq<byte>): (r: Option<nat>)
    ensures r.Some? <==> |s| > 0 && VintLengthOf(s[0]) <= |s|
  {
    if |s| == 0 || VintLengthOf(s[0]) > |s| then None
    else
      var n := VintLengthOf(s[0]);
      if n == 1 then Some(s[0])
      else if n == 2 then Some((s[0] as int - 0x80) * 0x100 + s[1] as int)
      else if n == 3 then Some((s[0] as int - 0xC0) * 0x1_0000 + s[1] as int * 0x100 + s[2] as int)
      else if n == 4 then
        Some((s[0] as int - 0xE0) * 0x100_0000 + s[1] as int * 0x1_0000 + s[2] as int * 0x100 + s[3] as int)
      else
        Some((s[0] as int - 0xF0) * 0x1_0000_0000 + s[1] as int * 0x100_0000 + s[2] as int * 0x1_0000
             + s[3] as int * 0x100 + s[4] as int)
  }

  /**
   * Reading back a written field gives the value modulo 2^36: the field's
   * length is the one the reader infers, and only the bits the five-byte
   * form drops are lost.
   */
  lemma VintRoundTrip(value: nat)
    requires value < U64_LIMIT
    ensures VintLengthOf(Vint(value)[0]) == |Vint(value)|
    ensures ReadVint(Vint(value)) == Some(value % 0x10_0000_0000)
  {
    var r := Vint(value);
    if value < 0x7F {
    } else if value < 0x3FFF {
      VintTwo(value);
    } else if value < 0x1F_FFFF {
      VintThree(value);
    } else if value < 0x0FFF_FFFF {
      VintFour(value);
    } else {
      VintFive(value);
    }
  }

  lemma VintTwo(value: nat)
    requires 0x7F <= value < 0x3FFF
    ensures VintLengthOf(Vint(value)[0]) == 2
    ensures ReadVint(Vint(value)) == Some(value)
  {
    assert value / 0x100 < 0x40;
  }

  lemma VintThree(value: nat)
    requires 0x3FFF <= value < 0x1F_FFFF
    ensures VintLengthOf(Vint(value)[0]) == 3
    ensures ReadVint(Vint(value)) == Some(value)
  {
    var b0, q0 := value % 0x100, value / 0x100;
    var b1, q1 := q0 % 0x100, q0 / 0x100;
    DivModUnique(value, 0x1_0000, q1, b1 * 0x100 + b0);
    assert q1 < 0x20;
  }

  lemma VintFour(value: nat)
    requires 0x1F_FFFF <= value < 0x0FFF_FFFF
    ensures VintLengthOf(Vint(value)[0]) == 4
    ensures ReadVint(Vint(value)) == Some(value)
  {
    var q, m := value / 0x100_0000, value % 0x100_0000;
    assert q < 0x10;
    SplitLow24(value);
  }

  /** The three low bytes of `value`, big-endian, make up `value % 2^24`. */
  lemma SplitLow24(value: nat)
    ensures ((value / 0x1_0000) % 0x100) * 0x1_0000 + ((value / 0x100) % 0x100) * 0x100 + value % 0x100
      == value % 0x100_0000
  {
    var b0, q0 := value % 0x100, value / 0x100;
    var b1, q1 := q0 % 0x100, q0 / 0x100;
    var b2, q2 := q1 % 0x100, q1 / 0x100;
    DivModUnique(value, 0x1_0000, q1, b1 * 0x100 + b0);
    DivModUnique(value, 0x100_0000, q2, b2 * 0x1_0000 + b1 * 0x100 + b0);
  }

  lemma VintFive(value: nat)
    requires 0x0FFF_FFFF <= value < U64_LIMIT
    ensures VintLengthOf(Vint(value)[0]) == 5
    ensures ReadVint(Vint(value)) == Some(value % 0x10_0000_0000)
  {
    var low, q := value % 0x100_0000, value / 0x100_0000;
    var b3, q3 := q % 0x100, q / 0x100;
    var b4, q4 := q3 % 0x10, q3 / 0x10;
    DivModUnique(value, 0x1_0000_0000, q3, b3 * 0x100_0000 + low);
    DivModUnique(value, 0x10_0000_0000, q4, b4 * 0x1_0000_0000 + b3 * 0x100_0000 + low);
    SplitLow24(value);
  }

  /** Values below 2^36, all sizes the transcoder writes among them, read back unchanged. */
  lemma VintRoundTripExact(value: nat)
    requires value < 0x10_0000_0000
    ensures ReadVint(Vint(value)) == Some(value)
  {
    VintRoundTrip(value);
    assert value % 0x10_0000_0000 == value;
  }

  /** The five-byte form drops bit 36 and above: 2^36 reads back as 0. */
  lemma VintDropsHighBits()
    ensures ReadVint(Vint(0x10_0000_0000)) == Some(0)
  {
    VintRoundTrip(0x10_0000_0000);
  }

  // ---------------------------------------------------------------------
  // Cluster start

  const CLUSTER_ID: seq<byte> := [0x1F, 0x43, 0xB6, 0x75]

  /**
   * A cluster start: the Cluster ID, the eight-byte unknown size 01 FF..FF,
   * the Timecode ID 0xE7 with the size byte 0x83, and the timestamp
   * truncated to u32, little-endian: 18 bytes in all.
   */
  function ClusterStart(timestamp: nat): (c: seq<byte>)
    requires timestamp < U64_LIMIT
    ensures |c| == 18 && c[..4] == CLUSTER_ID
    ensures c[4] == 0x01 && forall k :: 5 <= k < 12 ==> c[k] == 0xFF
    ensures c[12] == 0xE7 && c[13] == 0x83
    ensures ReadLE32(c, 14) == timestamp % U32_LIMIT
  {
    var c := CLUSTER_ID + [0x01, 0xFF, 0xFF, 0xFF, 0xFF, 0xFF, 0xFF, 0xFF] + [0xE7] + [0x83]
      + LE32(timestamp % U32_LIMIT);
    ReadLE32Slice(c, 14, LE32(timestamp % U32_LIMIT), 0);
    c
  }

  method WriteClusterStart(w: ByteWriter, timestamp: nat)
    requires timestamp < U64_LIMIT
    modifies w
    ensures w.written == old(w.written) + ClusterStart(timestamp)
  {
    w.WriteAll(CLUSTER_ID);
    w.WriteAll([0x01, 0xFF, 0xFF, 0xFF, 0xFF, 0xFF, 0xFF, 0xFF]);
    w.WriteAll([0xE7]);
    w.WriteAll([0x83]);
    w.WriteAll(LE32(timestamp % U32_LIMIT));
  }

  // ---------------------------------------------------------------------
  // SimpleBlock

  /**
   * `write_simpleblock`: the same layout as the format writers' SimpleBlock.
   * `0x80 | (size >> 8) as u8` keeps the low seven bits of `size >> 8`
   * under the marker, and the low and high bytes of `timestamp as i16` are
   * the timestamp's two low bytes. The track number is unused.
   */
  method WriteSimpleBlock(w: ByteWriter, payload: seq<byte>, timestamp: nat, trackNumber: nat)
    modifies w
    ensures w.written == old(w.written) + FormatWriters.SimpleBlock(payload, timestamp)
  {
    ghost var start := w.written;
    w.WriteAll([FormatWriters.SIMPLE_BLOCK_ID]);
    var size := |payload| + 4;
    if size < 0x7F {
      w.WriteAll([size]);
    } else {
      w.WriteAll([0x80 + (size / 0x100) % 0x80, size % 0x100]);
    }
    assert w.written == start + [FormatWriters.SIMPLE_BLOCK_ID] + FormatWriters.BlockSizeField(size);
    w.WriteAll([0x81]);
    var low, high := Low16Bytes(timestamp);
    w.WriteAll([low, high]);
    w.WriteAll([0x80]);
    w.WriteAll(payload);
    FormatWriters.SimpleBlockParts(start, payload, timestamp);
  }

  /** `(ts & 0xFF) as u8` and `((ts >> 8) & 0xFF) as u8` for `ts = timestamp as i16`. */
  method Low16Bytes(timestamp: nat) returns (low: byte, high: byte)
    ensures low == timestamp % 0x100 && high == (timestamp / 0x100) % 0x100
    ensures low + 0x100 * high == timestamp % U16_LIMIT
  {
    var ts := timestamp % U16_LIMIT;
    var signed := if ts >= 0x8000 then ts - U16_LIMIT else ts;
    low := signed % 0x100;
    high := (signed / 0x100) % 0x100;
    SignedBytes(timestamp, ts, signed);
  }

  /** The two's-complement reading of the low 16 bits has the same two bytes. */
  lemma SignedBytes(timestamp: nat, ts: nat, signed: int)
    requires ts == timestamp % U16_LIMIT
    requires signed == if ts >= 0x8000 then ts - U16_LIMIT else ts
    ensures signed % 0x100 == timestamp % 0x100
    ensures (signed / 0x100) % 0x100 == (timestamp / 0x100) % 0x100
    ensures timestamp % 0x100 + 0x100 * ((timestamp / 0x100) % 0x100) == ts
  {
    var b0, q0 := timestamp % 0x100, timestamp / 0x100;
    var b1, q1 := q0 % 0x100, q0 / 0x100;
    DivModUnique(timestamp, U16_LIMIT, q1, b1 * 0x100 + b0);
    if ts >= 0x8000 {
      DivModUnique(signed, 0x100, b1 - 0x100, b0);
      DivModUnique(b1 - 0x100, 0x100, -1, b1);
    } else {
      DivModUnique(signed, 0x100, b1, b0);
    }
  }

  // ---------------------------------------------------------------------
  // IVF and Y4M

  /**
   * The transcoder's IVF header: 28 bytes like the format writers' header,
   * but with the codec's fourcc and, as the timebase numerator, the low
   * byte of `frame_rate as u32` followed by three zeros.
   */
  function IvfHeaderWith(fourcc: seq<byte>, width: int, height: int, frameRate: FrameRate): (h: seq<byte>)
    requires |fourcc| == 4
    ensures |h| == 28
    ensures h[..4] == FormatWriters.DKIF && h[12..16] == fourcc
    ensures ReadLE32(h, 4) == 0 && ReadLE32(h, 8) == 12
    ensures ReadLE16(h, 16) == width % U16_LIMIT && ReadLE16(h, 18) == height % U16_LIMIT
    ensures ReadLE32(h, 20) == FrameRateAsU32(frameRate) % 0x100 && ReadLE32(h, 24) == 1
  {
    FormatWriters.DKIF + [0, 0, 0, 0] + [12, 0, 0, 0] + fourcc
      + FormatWriters.Low16LE(width) + FormatWriters.Low16LE(height)
      + [FrameRateAsU32(frameRate) % 0x100, 0, 0, 0] + [1, 0, 0, 0]
  }

  /**
   * The two IVF header writers agree exactly when the fourcc is AV01 and the
   * frame rate's low byte is 30.
   */
  lemma IvfHeadersAgree(fourcc: seq<byte>, width: int, height: int, frameRate: FrameRate)
    requires |fourcc| == 4
    ensures IvfHeaderWith(fourcc, width, height, frameRate) == FormatWriters.IvfHeader(width, height)
      <==> fourcc == FormatWriters.AV01 && FrameRateAsU32(frameRate) % 0x100 == 30
  {
    var a := IvfHeaderWith(fourcc, width, height, frameRate);
    var b := FormatWriters.IvfHeader(width, height);
    if fourcc == FormatWriters.AV01 && FrameRateAsU32(frameRate) % 0x100 == 30 {
      assert a == b;
    } else if fourcc != FormatWriters.AV01 {
      assert a[12..16] != b[12..16];
    } else {
      assert a[20] != b[20];
    }
  }

  method WriteIvfHeader(w: ByteWriter, width: int, height: int, frameRate: FrameRate, fourcc: seq<byte>)
    requires |fourcc| == 4
    modifies w
    ensures w.written == old(w.written) + IvfHeaderWith(fourcc, width, height, frameRate)
  {
    ghost var start := w.written;
    w.WriteAll(FormatWriters.DKIF);
    w.WriteAll([0, 0, 0, 0]);
    w.WriteAll([12, 0, 0, 0]);
    w.WriteAll(fourcc);
    w.WriteAll(FormatWriters.Low16LE(width));
    w.WriteAll(FormatWriters.Low16LE(height));
    w.WriteAll([FrameRateAsU32(frameRate) % 0x100, 0, 0, 0]);
    w.WriteAll([1, 0, 0, 0]);
    IvfHeaderWithParts(start, fourcc, width, height, frameRate);
  }

  /** The header's eight writes, one after the other, append the header. */
  lemma IvfHeaderWithParts(s: seq<byte>, fourcc: seq<byte>, width: int, height: int, frameRate: FrameRate)
    requires |fourcc| == 4
    ensures s + FormatWriters.DKIF + [0, 0, 0, 0] + [12, 0, 0, 0] + fourcc
      + FormatWriters.Low16LE(width) + FormatWriters.Low16LE(height)
      + [FrameRateAsU32(frameRate) % 0x100, 0, 0, 0] + [1, 0, 0, 0]
      == s + IvfHeaderWith(fourcc, width, height, frameRate)
  {
  }

  /** `write_ivf_frame`: the same record as the format writers' IVF frame. */
  method WriteIvfFrame(w: ByteWriter, payload: seq<byte>, timestamp: nat)
    requires timestamp < U64_LIMIT
    modifies w
    ensures w.written == old(w.written) + FormatWriters.IvfFrameRecord(payload, timestamp)
  {
    w.WriteAll(LE32(|payload| % U32_LIMIT));
    w.WriteAll(LE64(timestamp));
    w.WriteAll(payload);
  }

  /** `write_y4m_header`: the same line as the format writers' Y4M header, `F{fps}:1` included. */
  method WriteY4mHeader(w: ByteWriter, width: int, height: int, frameRate: FrameRate)
    modifies w
    ensures w.written == old(w.written) + FormatWriters.Y4mHeader(width, height, frameRate)
  {
    var header := FormatWriters.Y4mHeaderLine(width, height, frameRate);
    w.WriteAll(AsciiBytes(header));
  }

  /** `write_y4m_frame`: the `FRAME` line, then the payload; the frame number is unused. */
  method WriteY4mFrame(w: ByteWriter, payload: seq<byte>, frameNumber: nat)
    modifies w
    ensures w.written == old(w.written) + FormatWriters.Y4mFrame(payload)
  {
    w.WriteAll(FormatWriters.FRAME_LINE);
    w.WriteAll(payload);
  }
}
