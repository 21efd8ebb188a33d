/**
 * The container writers: each appends a fixed byte layout to a sink. The
 * layouts are given as functions; each writer method is proved to append
 * exactly its layout, and the layouts' fields are stated as postconditions.
 */
module FormatWriters {
  import opened Bytes
  import opened Text

  const DKIF: seq<byte> := [0x44, 0x4B, 0x49, 0x46]
  const AV01: seq<byte> := [0x41, 0x56, 0x30, 0x31]
  const EBML_MAGIC: seq<byte> := [0x1A, 0x45, 0xDF, 0xA3]
  const SIMPLE_BLOCK_ID: byte := 0xA3
  /** `b"FRAME\n"`. */
  const FRAME_LINE: seq<byte> := [0x46, 0x52, 0x41, 0x4D, 0x45, 0x0A]
  const NEWLINE: byte := 0x0A

  /** `v.to_le_bytes()[..2]` for an i32: the low 16 bits in two's complement. */
  function Low16LE(v: int): (r: seq<byte>)
    ensures |r| == 2 && ReadLE16(r, 0) == v % U16_LIMIT
  {
    LE16(v % U16_LIMIT)
  }

  // ---------------------------------------------------------------------
  // IVF

  /**
   * The IVF file header as this writer lays it out: 28 bytes, with a 4-byte
   * version, a 4-byte header-size field holding 12, the AV01 fourcc at 12,
   * the low 16 bits of width and height at 16 and 18, then 30 and 1 as the
   * timebase. The frame rate argument is ignored.
   */
  function IvfHeader(width: int, height: int): (h: seq<byte>)
    ensures |h| == 28
    ensures h[..4] == DKIF && h[12..16] == AV01
    ensures ReadLE32(h, 4) == 0 && ReadLE32(h, 8) == 12
    ensures ReadLE16(h, 16) == width % U16_LIMIT && ReadLE16(h, 18) == height % U16_LIMIT
    ensures ReadLE32(h, 20) == 30 && ReadLE32(h, 24) == 1
  {
    DKIF + [0, 0, 0, 0] + [12, 0, 0, 0] + AV01 + Low16LE(width) + Low16LE(height)
      + [30, 0, 0, 0] + [1, 0, 0, 0]
  }

  /**
   * One IVF frame record: the payload length truncated to u32, the u64
   * timestamp, then the payload, all little-endian.
   */
  function IvfFrameRecord(payload: seq<byte>, timestamp: int): (r: seq<byte>)
    requires 0 <= timestamp < U64_LIMIT
    ensures |r| == 12 + |payload|
    ensures ReadLE32(r, 0) == |payload| % U32_LIMIT
    ensures ReadLE64(r, 4) == timestamp
    ensures r[12..] == payload
  {
    var r := LE32(|payload| % U32_LIMIT) + LE64(timestamp) + payload;
    assert r[4..12] == LE64(timestamp);
    ReadLE32Slice(r, 4, LE64(timestamp), 0);
    ReadLE32Slice(r, 8, LE64(timestamp), 4);
    r
  }

  method WriteIvfHeader(w: ByteWriter, width: int, height: int, frameRate: FrameRate)
    modifies w
    ensures w.written == old(w.written) + IvfHeader(width, height)
  {
    w.WriteAll(DKIF);
    w.WriteAll([0, 0, 0, 0]);
    w.WriteAll([12, 0, 0, 0]);
    w.WriteAll(AV01);
    w.WriteAll(Low16LE(width));
    w.WriteAll(Low16LE(height));
    w.WriteAll([30, 0, 0, 0]);
    w.WriteAll([1, 0, 0, 0]);
    IvfHeaderParts(old(w.written), width, height);
  }

  /** The header's eight writes, one after the other, append the header. */
  lemma IvfHeaderParts(s: seq<byte>, width: int, height: int)
    ensures s + DKIF + [0, 0, 0, 0] + [12, 0, 0, 0] + AV01 + Low16LE(width) + Low16LE(height) + [30, 0, 0, 0] + [1, 0, 0, 0]
      == s + IvfHeader(width, height)
  {
  }

  method WriteIvfFrame(w: ByteWriter, payload: seq<byte>, timestamp: int)
    requires 0 <= timestamp < U64_LIMIT
    modifies w
    ensures w.written == old(w.written) + IvfFrameRecord(payload, timestamp)
  {
    var frameSize := |payload| % U32_LIMIT;
    w.WriteAll(LE32(frameSize));
    w.WriteAll(LE64(timestamp));
    w.WriteAll(payload);
  }

  // ---------------------------------------------------------------------
  // Matroska / WebM

  /**
   * The fixed EBML header: the magic, then a 19-byte body ending with the
   * DocType "webm". None of its bytes after the magic is a SimpleBlock ID,
   * so a scan for blocks passes over it. Its arguments are ignored.
   */
  function MatroskaHeader(): (h: seq<byte>)
    ensures |h| == 23 && h[..4] == EBML_MAGIC
    ensures h[19..] == [0x77, 0x65, 0x62, 0x6D]
    ensures forall k :: 4 <= k < |h| ==> h[k] != SIMPLE_BLOCK_ID
  {
    EBML_MAGIC + [0x93] + [0x42, 0x86] + [0x80] + [0x42, 0xF7] + [0x80] + [0x42, 0xF2] + [0x80]
      + [0x42, 0xF3] + [0x42, 0x82] + [0x84] + [0x77, 0x65, 0x62, 0x6D]
  }

  /**
   * The size field of a SimpleBlock: one byte below 0x7F, otherwise two
   * bytes whose first has its top bit set. The two-byte form keeps only
   * the low 15 bits of the size.
   */
  function BlockSizeField(size: nat): (f: seq<byte>)
    ensures size < 0x7F ==> f == [size]
    ensures size >= 0x7F ==>
      (|f| == 2 && f[0] >= 0x80 && (f[0] as int - 0x80) * 0x100 + f[1] as int == size % 0x8000)
  {
    if size < 0x7F then [size]
    else
      var q := size / 0x100;
      DivModUnique(size, 0x8000, q / 0x80, (q % 0x80) * 0x100 + size % 0x100);
      [0x80 + (size / 0x100) % 0x80, size % 0x100]
  }

  /**
   * A SimpleBlock: the ID 0xA3, the size (payload plus 4), track 1 as 0x81,
   * the low 16 bits of the timestamp little-endian, the keyframe flag 0x80,
   * then the payload.
   */
  function SimpleBlock(payload: seq<byte>, timestamp: nat): (b: seq<byte>)
    ensures var sizeLen := if |payload| + 4 < 0x7F then 1 else 2;
      |b| == 1 + sizeLen + 4 + |payload|
      && b[0] == SIMPLE_BLOCK_ID
      && b[1..1 + sizeLen] == BlockSizeField(|payload| + 4)
      && b[1 + sizeLen] == 0x81
      && ReadLE16(b, 2 + sizeLen) == timestamp % U16_LIMIT
      && b[4 + sizeLen] == 0x80
      && b[5 + sizeLen..] == payload
  {
    [SIMPLE_BLOCK_ID] + BlockSizeField(|payload| + 4) + [0x81]
      + [timestamp % 0x100, (timestamp / 0x100) % 0x100] + [0x80] + payload
  }

  /** The trailer: an EBML Void element of size 1 and one zero byte. */
  function MatroskaTrailer(): (t: seq<byte>)
    ensures |t| == 3 && SIMPLE_BLOCK_ID !in t
  {
    [0xEC, 0x01, 0x00]
  }

  method WriteMatroskaHeader(w: ByteWriter, width: int, height: int, frameRate: FrameRate)
    modifies w
    ensures w.written == old(w.written) + MatroskaHeader()
  {
    w.WriteAll(EBML_MAGIC);
    w.WriteAll([0x93]);
    w.WriteAll([0x42, 0x86]);
    w.WriteAll([0x80]);
    w.WriteAll([0x42, 0xF7]);
    w.WriteAll([0x80]);
    w.WriteAll([0x42, 0xF2]);
    w.WriteAll([0x80]);
    w.WriteAll([0x42, 0xF3]);
    w.WriteAll([0x42, 0x82]);
    w.WriteAll([0x84]);
    w.WriteAll([0x77, 0x65, 0x62, 0x6D]);
    MatroskaHeaderParts(old(w.written));
  }

  /** The header's twelve writes, one after the other, append the header. */
  lemma MatroskaHeaderParts(s: seq<byte>)
    ensures s + EBML_MAGIC + [0x93] + [0x42, 0x86] + [0x80] + [0x42, 0xF7] + [0x80] + [0x42, 0xF2] + [0x80]
      + [0x42, 0xF3] + [0x42, 0x82] + [0x84] + [0x77, 0x65, 0x62, 0x6D] == s + MatroskaHeader()
  {
  }

  method WriteMatroskaSimpleBlock(w: ByteWriter, payload: seq<byte>, timestamp: nat, trackNumber: nat)
    modifies w
    ensures w.written == old(w.written) + SimpleBlock(payload, timestamp)
  {
    ghost var start := w.written;
    w.WriteAll([SIMPLE_BLOCK_ID]);
    var size := |payload| + 4;
    if size < 0x7F {
      w.WriteAll([size]);
    } else {
      w.WriteAll([0x80 + (size / 0x100) % 0x80, size % 0x100]);
    }
    assert w.written == start + [SIMPLE_BLOCK_ID] + BlockSizeField(size);
    w.WriteAll([0x81]);
    w.WriteAll([timestamp % 0x100, (timestamp / 0x100) % 0x100]);
    w.WriteAll([0x80]);
    w.WriteAll(payload);
    SimpleBlockParts(start, payload, timestamp);
  }

  /** The writes of `WriteMatroskaSimpleBlock`, appended one after another, lay out `SimpleBlock`. */
  lemma SimpleBlockParts(s: seq<byte>, payload: seq<byte>, timestamp: nat)
    ensures s + [SIMPLE_BLOCK_ID] + BlockSizeField(|payload| + 4) + [0x81]
      + [timestamp % 0x100, (timestamp / 0x100) % 0x100] + [0x80] + payload
      == s + SimpleBlock(payload, timestamp)
  {
  }

  /** Writes the trailer; the flush that follows changes no bytes. */
  method WriteMatroskaTrailer(w: ByteWriter)
    modifies w
    ensures w.written == old(w.written) + MatroskaTrailer()
  {
    w.WriteAll([0xEC]);
    w.WriteAll([0x01]);
    w.WriteAll([0x00]);
  }

  // ---------------------------------------------------------------------
  // Y4M

  /** A word of a header line: non-empty, ASCII, without whitespace. */
  predicate HeaderWord(s: string)
  {
    IsWord(s) && IsAscii(s) && '\n' !in s
  }

  lemma HeaderWordConcat(a: string, b: string)
    requires HeaderWord(a) && IsAscii(b) && NoWhitespace(b)
    ensures HeaderWord(a + b)
  {
    WordConcat(a, b);
    AsciiConcat(a, b);
  }

  /** Printable ASCII other than the space. */
  predicate Graphic(s: string)
  {
    forall i :: 0 <= i < |s| ==> '!' <= s[i] <= '~'
  }

  lemma GraphicWord(s: string)
    requires Graphic(s)
    ensures IsAscii(s) && NoWhitespace(s) && '\n' !in s
    ensures |s| > 0 ==> HeaderWord(s)
  {
  }

  lemma FixedHeaderWords()
    ensures HeaderWord("W") && HeaderWord("H") && HeaderWord("F")
    ensures IsAscii(":1") && NoWhitespace(":1")
    ensures HeaderWord("YUV4MPEG2") && HeaderWord("Ip") && HeaderWord("A1:1") && HeaderWord("C420mpeg2")
  {
    GraphicWord("W");
    GraphicWord("H");
    GraphicWord("F");
    GraphicWord(":1");
    GraphicWord("YUV4MPEG2");
    GraphicWord("Ip");
    GraphicWord("A1:1");
    GraphicWord("C420mpeg2");
  }


  /**
   * The words of the Y4M header line: the width and height as written by
   * `Display`, and the frame rate as its integer part over 1.
   */
  function Y4mHeaderWords(width: int, height: int, frameRate: FrameRate): (words: seq<string>)
    ensures |words| == 7
    ensures forall k :: 0 <= k < 7 ==> HeaderWord(words[k])
  {
    var fps := IntToString(FrameRateAsU32(frameRate));
    FixedHeaderWords();
    HeaderWordConcat("W", IntToString(width));
    HeaderWordConcat("H", IntToString(height));
    HeaderWordConcat("F", fps);
    HeaderWordConcat("F" + fps, ":1");
    SevenHeaderWords("YUV4MPEG2", "W" + IntToString(width), "H" + IntToString(height),
                     "F" + fps + ":1", "Ip", "A1:1", "C420mpeg2");
    ["YUV4MPEG2", "W" + IntToString(width), "H" + IntToString(height),
     "F" + fps + ":1", "Ip", "A1:1", "C420mpeg2"]
  }

  lemma SevenHeaderWords(a: string, b: string, c: string, d: string, e: string, f: string, g: string)
    requires HeaderWord(a) && HeaderWord(b) && HeaderWord(c) && HeaderWord(d)
    requires HeaderWord(e) && HeaderWord(f) && HeaderWord(g)
    ensures forall k :: 0 <= k < 7 ==> HeaderWord([a, b, c, d, e, f, g][k])
  {
  }

  lemma AppendNewline(text: string)
    requires IsAscii(text) && '\n' !in text
    ensures var line := text + "\n";
      IsAscii(line) && |line| == |text| + 1 && line[|text|] == '\n' && line[..|text|] == text
  {
    AsciiConcat(text, "\n");
    assert (text + "\n")[..|text|] == text;
  }

  /** The Y4M header line: the words separated by single spaces, then a newline. */
  function Y4mHeaderLine(width: int, height: int, frameRate: FrameRate): (line: string)
    ensures IsAscii(line)
    ensures |line| >= 1 && line[|line| - 1] == '\n' && '\n' !in line[..|line| - 1]
    ensures line[..|line| - 1] == JoinWords(Y4mHeaderWords(width, height, frameRate))
  {
    var words := Y4mHeaderWords(width, height, frameRate);
    JoinWordsAscii(words);
    var text := JoinWords(words);
    AppendNewline(text);
    text + "\n"
  }

  /** The Y4M header as bytes. */
  function Y4mHeader(width: int, height: int, frameRate: FrameRate): (h: seq<byte>)
    ensures |h| >= 1 && h[|h| - 1] == NEWLINE && NEWLINE !in h[..|h| - 1]
  {
    var line := Y4mHeaderLine(width, height, frameRate);
    AsciiLineBytes(line);
    AsciiBytes(line)
  }

  /** The bytes of an ASCII line hold its one newline at the end. */
  lemma AsciiLineBytes(line: string)
    requires IsAscii(line) && |line| >= 1 && line[|line| - 1] == '\n' && '\n' !in line[..|line| - 1]
    ensures var h := AsciiBytes(line);
      |h| >= 1 && h[|h| - 1] == NEWLINE && NEWLINE !in h[..|h| - 1]
  {
    var h := AsciiBytes(line);
    forall k | 0 <= k < |h| - 1
      ensures h[k] != NEWLINE
    {
      assert line[k] == line[..|line| - 1][k];
    }
  }

  /** A Y4M frame: the `FRAME` line, then the payload. */
  function Y4mFrame(payload: seq<byte>): (f: seq<byte>)
    ensures |f| == 6 + |payload| && f[..6] == FRAME_LINE && f[6..] == payload
  {
    FRAME_LINE + payload
  }

  method WriteY4mHeader(w: ByteWriter, width: int, height: int, frameRate: FrameRate)
    modifies w
    ensures w.written == old(w.written) + Y4mHeader(width, height, frameRate)
  {
    var header := Y4mHeaderLine(width, height, frameRate);
    w.WriteAll(AsciiBytes(header));
  }

  /** The frame number is unused, as in the source. */
  method WriteY4mFrame(w: ByteWriter, payload: seq<byte>, frameNumber: nat)
    modifies w
    ensures w.written == old(w.written) + Y4mFrame(payload)
  {
    w.WriteAll(FRAME_LINE);
    w.WriteAll(payload);
  }
}
