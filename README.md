# rust_av_kit: a verified model of the byte-level core

rust_av_kit is a Rust media toolkit exposed to Node.js. It detects container
formats (IVF, Matroska/WebM, Y4M) from file extensions and first bytes. It
reads and writes those containers' headers and frame records, and it
converts between them. It runs a toy run-length codec over raw YUV frames
and applies simple integer filters (flips, crop, brightness) to them. It
accumulates validation verdicts and advertises the formats, codecs and pixel
formats it supports.

This project models that core in Dafny. There is one module per source
file, plus three support modules:

- `Wrappers` holds `Option` and `Result`.
- `Bytes` holds the byte type, little-endian fields, and the append-only
  `ByteWriter` that stands in for `std::io::Write`.
- `Text` holds UTF-8 decoding, `split_whitespace`, `split`, integer parsing
  and formatting, and ASCII lower-casing.

The model follows the source's own form:

- **Writers** are methods that append to a `ByteWriter`. Each is proved
  against a function giving the exact bytes.
- **Loops** (the RLE codec, header token loops, the Matroska and IVF/Y4M
  frame walks, the filters' row loops) are methods with loop invariants.
  Each is proved equal to a recursive reference function.
- **`ValidationResult` and the encoders' frame counter** are classes whose
  methods update fields in place.
- **Tables and matches** are functions.
- **Repeated code.** `detect_codec_from_data` in `src/lib.rs:206-286`
  inlines the per-format helpers of `src/codec_detection.rs` with the same
  branches and results, so `CodecDetection.DetectCodecFromData` models both.

File-system reads, existence checks and the choice of path extension become
parameters: a byte sequence, a `bool`, and an `Option<string>` extension.

The model follows the code wherever the code and the toolkit's prose
descriptions differ. In particular:

- **Variable-size integers.** EBML sizes in section 4 of RFC 8794 always
  carry a marker bit. `write_vint` puts none on one-byte values and uses 0x80
  as the two-byte marker.
- **IVF headers.** The IVF header is 32 bytes in the IVF format, and every
  reader here skips 32 bytes. The writers emit 28, and `transform_format`
  emits 36.
- **Y4M header of `transform_format`.** The IVF-to-Y4M arm writes the line
  `YUV4MPEG2 640 480 25 1` without `W`, `H` or `F` prefixes, so no Y4M
  header parser here reads its numbers.

The model uses the code's bytes in each case.

## Model

| member | source | states |
|---|---|---|
| Format.DetectFormat | src/format.rs:21-29 | "ivf" is IVF, "mkv" and "webm" are Matroska, "y4m" is Y4M, exactly; any other extension is Unknown of its lower-cased text, and no extension is Unknown("") |
| Format.FormatName | src/format.rs:32-39 | an unknown format is named by the text it carries |
| Format.FormatLongName | src/format.rs:42-49 | an unknown format's description is "Unknown format: " followed by its name |
| Format.DetectedNameIsLowerCase | src/format.rs:21-39 | no detected format has a name with an upper-case letter |
| Format.ExtensionMatchIsCaseSensitive | src/format.rs:21-29 | an extension that is not one of the four exact spellings, such as "IVF", is Unknown of its lower-cased text |
| Format.DetectFormatOfName | src/format.rs:21-39 | detecting a format from its own short name gives it back, except that "matroska" is not an extension and stays unknown |
| Format.UnknownNameDetected | src/format.rs:21-29 | a lower-case name that is not a known extension is detected as Unknown of itself |
| Format.LongNamesDistinguishFormats | src/format.rs:42-49 | the three known formats have pairwise different descriptions |
| Codec.CodecName | src/codec.rs:39-51 | every known codec's name is one of the eight supported names; an unknown codec keeps its own name |
| Codec.CodecTypeOf | src/codec.rs:54-61 | no codec is typed subtitle or data, and the type is Unknown exactly for the unknown codec |
| Codec.KnownCodecsSupported | src/codec.rs:39-69 | the name of every known codec passes the support check |
| Codec.IsCodecSupported | src/codec.rs:64-69 | a name in any letter case is supported exactly when its lower-case form is the name of some known codec |
| Codec.LowerNameSupported | src/codec.rs:64-69 | each listed name, written in lower case, is supported |
| Codec.CodecNameInjective | src/codec.rs:39-51 | different known codecs have different names |
| Codec.SupportIgnoresCase | src/codec.rs:64-69 | support is the same for a name and its lower-case form |
| Media.ProcessorDetectFormat | src/media.rs:39-46 | the processor answers None exactly when the format detector says Unknown, and otherwise that same known format |
| Media.SupportedFormats | src/media.rs:48-55 | the advertised formats are the short names of IVF, Matroska and Y4M, in that order, with "webm" after Matroska's |
| Media.SupportedFormatsKnown | src/media.rs:48-55 | every advertised format name is a recognised extension or the short name of Matroska |
| Media.SupportedCodecs | src/media.rs:57-68 | the advertised codecs are the names of the eight known codecs, in the order the codec type declares them |
| Media.SupportedCodecsAgree | src/media.rs:57-68 | a name is accepted by the codec support check exactly when its lower-case form is advertised |
| Media.ValidateMediaFile | src/media.rs:78-107 | a missing file fails with its path in the message; otherwise success holds exactly when the extension names a known format, whose short name is reported; no codec is ever reported |
| Media.SummaryFormat | src/media.rs:111-128 | the summary's format line is the long name of a detected format, or "Unknown format" when none is detected |
| Media.MediaSummary | src/media.rs:111-128 | the summary begins with the line `File: ` and the path, then the line `Format: ` and the format line |
| Encoding.Run | src/encoding.rs:21-31 | a run is between 1 and 255 bytes long and stays inside the input |
| Encoding.RunIsLongest | src/encoding.rs:21-31 | the run consists of copies of its first byte and ends only at 255 bytes, at the end of the input or at a different byte |
| Encoding.CountRun | src/encoding.rs:23-31 | the inner counting loop computes exactly the run at the cursor |
| Encoding.CompressLength | src/encoding.rs:21-43 | the compressed stream is never longer than its input unless a run of marker bytes is escaped |
| Encoding.Compress | src/encoding.rs:18-43 | the stream the outer loop builds is never longer than its input |
| Encoding.EncodeFrame | src/encoding.rs:45-50 | the result is either the input unchanged or strictly shorter than it |
| Encoding.EncodeYuvToIvfFrame | src/encoding.rs:8-51 | the outer loop with its pushes builds exactly the frame `EncodeFrame` specifies |
| Encoding.DecodeIvfFrameToYuv | src/encoding.rs:54-94 | the decoder's loops build exactly the frame `DecodeFrame` specifies: a frame that does not start with 0xFF is returned as it is, and any other frame is expanded triple by triple with its last bytes copied |
| Encoding.AppendRun | src/encoding.rs:71-73 | the inner loop appends exactly `count` copies of the value |
| Encoding.AppendTail | src/encoding.rs:84-87 | the tail loop appends exactly the remaining bytes |
| Encoding.SingleRunRoundTrip | src/encoding.rs:21-76 | a single run of 4 to 255 equal bytes encodes to exactly 0xFF, count, value, and decoding restores it |
| Encoding.CompressShorterIffTriple | src/encoding.rs:34-50 | for input without 0xFF bytes, compression shortens the input exactly when the stream contains a triple |
| Encoding.ExpandCompress | src/encoding.rs:21-87 | decoding the compressed stream restores the input whenever the input has no 0xFF byte or marker bytes are escaped |
| Encoding.RoundTripWithoutMarker | src/encoding.rs:8-94 | for input without 0xFF bytes, decode(encode(x)) == x exactly when the encoder kept x unchanged or x's first run is longer than 3 |
| Encoding.LateRunIsNotDecoded | src/encoding.rs:46-47 | [2,1,1,1,1,1,1] encodes to [2,0xFF,6,1], which the decoder returns unexpanded |
| Encoding.LeadingMarkerIsMisread | src/encoding.rs:60 | [0xFF,1,2,3] is kept raw by the encoder and decoded to [2,3] |
| Encoding.EncodeFrameCorrected | src/encoding.rs:34-50 | the escaping encoder never lengthens input that has no 0xFF byte |
| Encoding.CorrectedRoundTrip | src/encoding.rs:8-94 | with 0xFF runs escaped and no first-byte test, decoding undoes encoding for every input |
| FormatParsers.RateParts | src/format_parsers.rs:22-24 | a rate is read only when `split(':')` gives exactly two parts, and then those are the parts |
| FormatParsers.LastRest | src/format_parsers.rs:13-22 | the text found is the rest of some token with that prefix, and nothing is found only when no token has the prefix |
| FormatParsers.ParseY4mHeader | src/format_parsers.rs:8-37 | the token loop, with its early return on the first bad token, computes exactly the reference parse |
| FormatParsers.ApplyTokensLastWins | src/format_parsers.rs:9-34 | the parse fails exactly when some token is bad; otherwise the last W, H and two-part F tokens decide the result, and a field with no such token keeps its default (640, 480, 30) |
| FormatParsers.IgnoredTokens | src/format_parsers.rs:13-34 | tokens that do not start with W, H or F change nothing |
| FormatParsers.DimensionToken | src/format_parsers.rs:14-21 | a W or H token holding an i32 sets that field |
| FormatParsers.RateToken | src/format_parsers.rs:22-32 | a token F<n>:1 sets the rate to n/1 |
| FormatParsers.ParseWrittenY4mHeader | src/format_parsers.rs:8-37 | the header line the Y4M writer produces parses back to its width, its height and the integer part of its rate over 1 |
| FormatParsers.ScanStart | src/format_parsers.rs:44-48 | the scan starts inside the input |
| FormatParsers.ParseMatroskaFrames | src/format_parsers.rs:40-88 | the cursor loop returns exactly the frames the reference scan finds |
| FormatParsers.ScanBlocksStop | src/format_parsers.rs:75-81 | a block whose payload would run past the end stops the scan |
| FormatParsers.ScanSkip | src/format_parsers.rs:82-84 | bytes other than 0xA3 are passed over |
| FormatParsers.ParsedFramesAreSlices | src/format_parsers.rs:51-85 | every returned frame is a slice of the input, and the frames come in input order without overlap |
| FormatParsers.ScanWrittenMatroska | src/format_parsers.rs:44-85 | scanning a file the Matroska writer produced recovers its payloads whenever their size fields can be read |
| FormatParsers.ParseWrittenMatroska | src/format_parsers.rs:40-88 | frames of at most 122 bytes come back unchanged from the writer's output |
| FormatParsers.LargeFrameIsMisread | src/format_parsers.rs:63-65 | a written 200-byte frame is read back as one empty frame |
| FormatParsers.ParseWrittenMatroskaCorrected | src/format_parsers.rs:57-69 | a scan that reads the size field's second byte gets back every frame below 0x7FFC bytes |
| FormatWriters.Low16LE | src/format_writers.rs:18-19 | the two bytes read back as the value modulo 2^16 |
| FormatWriters.IvfHeader | src/format_writers.rs:8-24 | the header is 28 bytes: DKIF, version 0, header size 12, AV01, the width and height modulo 2^16, then 30 and 1 |
| FormatWriters.WriteIvfHeader | src/format_writers.rs:8-24 | the eight writes append exactly the header |
| FormatWriters.IvfFrameRecord | src/format_writers.rs:27-38 | a record is 12 bytes longer than its payload and reads back as the length modulo 2^32, the timestamp and the payload |
| FormatWriters.WriteIvfFrame | src/format_writers.rs:27-38 | the writes append exactly the record |
| FormatWriters.MatroskaHeader | src/format_writers.rs:41-62 | a fixed 23-byte header: the EBML magic, then a body ending "webm" that contains no 0xA3 byte |
| FormatWriters.WriteMatroskaHeader | src/format_writers.rs:41-62 | the twelve writes append exactly the header, whatever the arguments |
| FormatWriters.BlockSizeField | src/format_writers.rs:74-80 | sizes below 0x7F take one byte holding the size; larger ones take two bytes, the first with its top bit set, holding the size modulo 2^15 |
| FormatWriters.SimpleBlock | src/format_writers.rs:65-95 | the block is 0xA3, the size field for len+4, 0x81, the timestamp modulo 2^16 little-endian, 0x80, then the payload |
| FormatWriters.WriteMatroskaSimpleBlock | src/format_writers.rs:65-95 | the writes append exactly the block |
| FormatWriters.MatroskaTrailer | src/format_writers.rs:98-106 | the trailer is three bytes without a 0xA3 |
| FormatWriters.WriteMatroskaTrailer | src/format_writers.rs:98-106 | the write appends exactly the trailer |
| FormatWriters.Y4mHeaderWords | src/format_writers.rs:115-121 | seven non-empty ASCII words without whitespace |
| FormatWriters.Y4mHeaderLine | src/format_writers.rs:109-126 | the line is ASCII, ends with its only newline, and before it holds the words joined by single spaces |
| FormatWriters.Y4mHeader | src/format_writers.rs:109-126 | the header's bytes end with their only newline |
| FormatWriters.WriteY4mHeader | src/format_writers.rs:109-126 | the write appends exactly the header line's bytes |
| FormatWriters.Y4mFrame | src/format_writers.rs:129-138 | a frame is "FRAME\n" followed by the payload, 6 + len bytes |
| FormatWriters.WriteY4mFrame | src/format_writers.rs:129-138 | the writes append exactly the frame |
| Transcoding.ParseY4mHeaderLenient | src/transcoding.rs:1161-1182 | the transcoder's token loop never fails and computes exactly the lenient reference parse |
| Transcoding.LenientLastWins | src/transcoding.rs:1161-1182 | the last W, H and two-part F tokens decide; an unparsable value falls back to 320, 240, 30 or 1, and a field with no token keeps its starting value |
| Transcoding.LenientAgreesWithStrict | src/transcoding.rs:1161-1182 | the two Y4M header parsers agree on every header the strict one accepts that names a width, a height and a two-part rate |
| Transcoding.LenientParseWrittenHeader | src/transcoding.rs:1161-1182 | the lenient parse reads back the writer's header line |
| Transcoding.LineEnd | src/transcoding.rs:86-88 | the line ends at the first newline at or after the cursor, or at the end |
| Transcoding.Y4mFrameSize | src/transcoding.rs:76-78 | a frame holds at least its luma plane |
| Transcoding.Y4mScanFrames | src/transcoding.rs:80-114 | the Y4M walk yields at most max_frames frames, numbered on from the count, each of the frame size with the header's dimensions |
| Transcoding.ExtractY4mFrames | src/transcoding.rs:60-117 | the extractor returns exactly the reference result: an error without a newline, with a header that is not UTF-8, with negative dimensions, or when a walked frame cannot be converted to RGBA; otherwise the walk |
| Transcoding.WalkY4mFrames | src/transcoding.rs:80-114 | the frame loop returns exactly the reference walk from past the header line, or the conversion error as soon as one frame cannot be converted |
| Transcoding.WalkY4mStep | src/transcoding.rs:82-113 | one pass skips a non-marker byte, or takes the frame after a FRAME line, or stops when it does not fit, and moves the walk forward accordingly |
| Transcoding.SkipFrameLine | src/transcoding.rs:86-91 | the skip loop lands just past the newline that ends the FRAME line |
| Transcoding.ExtractWrittenY4m | src/transcoding.rs:60-117 | a file the Y4M writers produce, with frames of the size its header implies, extracts without error exactly when it has no frame or its dimensions keep every chroma index inside its plane, and then gives back every payload numbered from 0 with the header's dimensions |
| Transcoding.EvenDimensionsConvert | src/transcoding.rs:165-200 | with an even width and height no pixel reads past its chroma plane |
| Transcoding.OddDimensionsCanPanic | src/transcoding.rs:165-200 | 3x3, 1x2 and 1x3 frames read past a chroma plane, while a 5x4 frame does not |
| Transcoding.IvfScanFrames | src/transcoding.rs:133-159 | the IVF walk yields at most max_frames frames, numbered on from the count, with the header's dimensions |
| Transcoding.ExtractIvfFrames | src/transcoding.rs:120-162 | the extractor returns exactly the reference result: an error below 32 bytes, or when a walked frame cannot be converted to RGBA; otherwise the record walk from offset 32 |
| Transcoding.ExtractWrittenIvf | src/transcoding.rs:120-162 | a 32-byte header followed by written frame records extracts without error exactly when every payload converts at the dimensions at bytes 24 and 26, and then gives back every payload, numbered from 0, with those dimensions |
| Transcoding.WrittenIvfIsMisread | src/transcoding.rs:120-131 | a 64x48 file written with one 4-byte frame reads back as one empty 1x0 frame |
| Transcoding.ExtractWrittenIvfCorrected | src/transcoding.rs:120-162 | reading with the writers' 28-byte layout gives back the written dimensions, and every payload exactly when all of them convert at those dimensions |
| Transcoding.ExtractFramesSpec | src/transcoding.rs:27-57 | a missing file is an error; a Y4M or IVF extension selects that walk with u32::MAX as the default limit; any other format is an unsupported-format error |
| Transcoding.CodecFromFourcc | src/transcoding.rs:471-478 | AV1 is chosen exactly for AV01 and VP8 exactly for VP80; anything else is VP9 |
| Transcoding.CodecFromFourccInverse | src/transcoding.rs:471-478 | the choice inverts the codec's FourCC |
| TranscodingWriters.CodecPrivate | src/transcoding.rs:562-600 | VP9 gets 8 bytes, 1 0 0 0 then the width and height modulo 2^16; AV1 gets 0x81 and four zeros; VP8 gets five zeros |
| TranscodingWriters.GenerateCodecPrivate | src/transcoding.rs:562-600 | the pushes build exactly that blob, and the answer is never None |
| TranscodingWriters.Vint | src/transcoding.rs:1054-1082 | values below 0x7F are one unmarked byte; larger values start with a marked byte; the last byte is always the value's low byte |
| TranscodingWriters.WriteVint | src/transcoding.rs:1054-1082 | the writes append exactly that field |
| TranscodingWriters.ReadVint | src/transcoding.rs:1054-1082 | a field is read exactly when it is non-empty and as long as its first byte announces |
| TranscodingWriters.VintRoundTrip | src/transcoding.rs:1054-1082 | the announced length is the written length, and a written field reads back as the value modulo 2^36 |
| TranscodingWriters.VintRoundTripExact | src/transcoding.rs:1054-1082 | values below 2^36 read back unchanged |
| TranscodingWriters.VintDropsHighBits | src/transcoding.rs:1072-1079 | 2^36 is written so that it reads back as 0 |
| TranscodingWriters.ClusterStart | src/transcoding.rs:1084-1096 | 18 bytes: the Cluster ID, 01 then seven FF, E7 83, then the timestamp modulo 2^32 little-endian |
| TranscodingWriters.WriteClusterStart | src/transcoding.rs:1084-1096 | the writes append exactly the cluster start |
| TranscodingWriters.WriteSimpleBlock | src/transcoding.rs:1098-1129 | the transcoder's block writer appends exactly the bytes of the format writers' SimpleBlock |
| TranscodingWriters.Low16Bytes | src/transcoding.rs:1119-1120 | the bytes of `timestamp as i16` are the timestamp's two low bytes |
| TranscodingWriters.IvfHeaderWith | src/transcoding.rs:904-921 | 28 bytes laid out like the format writers' header, with the codec's FourCC and the low byte of the frame rate as the timebase numerator |
| TranscodingWriters.IvfHeadersAgree | src/transcoding.rs:904-921 | the two IVF header writers agree exactly when the FourCC is AV01 and the rate's low byte is 30 |
| TranscodingWriters.WriteIvfHeader | src/transcoding.rs:904-921 | the writes append exactly that header |
| TranscodingWriters.WriteIvfFrame | src/transcoding.rs:923-934 | the writes append exactly an IVF frame record |
| TranscodingWriters.WriteY4mHeader | src/transcoding.rs:1131-1148 | the write appends exactly the Y4M header line's bytes |
| TranscodingWriters.WriteY4mFrame | src/transcoding.rs:1150-1159 | the writes append exactly a Y4M frame |
| CodecDetection.DetectCodecFromData | src/codec_detection.rs:20-39 | an unknown format detects nothing; no sample rate or channel count is ever reported; the codec name is empty exactly when nothing is detected |
| CodecDetection.DetectIvfCodec | src/codec_detection.rs:42-74 | without 32 bytes starting with DKIF nothing is detected; otherwise video, the FourCC's codec name, the u16 width and height at 24 and 26, and a rate of 30 exactly when the u32 at 28 is non-zero |
| CodecDetection.FourccNameNotEmpty | src/codec_detection.rs:45-60 | no four bytes give an empty codec name |
| CodecDetection.FourccNamesCodec | src/codec_detection.rs:55-60 | the FourCCs the encoders write are named av1, vp9 and vp8 |
| CodecDetection.DetectWrittenIvf | src/codec_detection.rs:42-74 | on a header from the IVF writer, the detector reads the low bytes of width and height as the FourCC and reports width 1 and height 0 |
| CodecDetection.DetectMatroskaCodec | src/codec_detection.rs:77-102 | without the EBML magic nothing is detected; with it, webm is vp9 video, mkv is h264 video, anything else is unknown, and no dimension or rate is reported |
| CodecDetection.DetectY4mCodec | src/codec_detection.rs:105-142 | the token loop computes exactly the reference detection, and nothing is detected exactly when there is no newline |
| CodecDetection.DetectTokensLastWins | src/codec_detection.rs:115-128 | the last W token decides the width (absent when unparsable), the last H token the height, the last well-formed F token the rate, and a field with no such token keeps its start |
| CodecDetection.Y4mNeedsNewline | src/codec_detection.rs:107-141 | with a newline the result is raw video; without one nothing is detected |
| VideoEncoding.Fourcc | src/video_encoding.rs:22-28 | four ASCII bytes spelling the codec's FourCC text |
| VideoEncoding.CodecId | src/video_encoding.rs:31-37 | five characters starting "V_" |
| VideoEncoding.CodecIdentifiersInjective | src/video_encoding.rs:22-37 | distinct codecs have distinct FourCCs and distinct CodecIDs |
| VideoEncoding.DefaultConfig | src/video_encoding.rs:63-77 | VP9 at 640x480 and 30 fps |
| VideoEncoding.DefaultConfigConsistent | src/video_encoding.rs:63-77 | the timebase is one frame period, a keyframe comes once a second, the quality is within 0..63, and a default frame is 460800 bytes |
| VideoEncoding.ExpectedFrameSize | src/video_encoding.rs:131-133 | the luma size (width*height wrapped to u32) plus two quarter-size chroma planes |
| VideoEncoding.SizeMessage | src/video_encoding.rs:136-140 | the message starts "Invalid YUV data size: expected " |
| VideoEncoding.FrameEncoder.constructor | src/video_encoding.rs:114-121 | a new encoder keeps its configuration and has counted no frame |
| VideoEncoding.FrameEncoder.EncodeFrame | src/video_encoding.rs:126-154 | a wrongly sized frame is rejected and not counted; a rightly sized frame is counted exactly once and yields no output |
| VideoEncoding.FrameEncoder.Flush | src/video_encoding.rs:156-159 | flushing yields no frames |
| VideoEncoding.EncoderError | src/video_encoding.rs:222-241 | an encoder can be built exactly for AV1 or VP9 with its feature on; VP8 always fails |
| VideoEncoding.CreateEncoder | src/video_encoding.rs:222-241 | a buildable codec gives a fresh encoder with the configuration and a zero count; otherwise the matching error |
| VideoEncoding.Yuv420Planes | src/video_encoding.rs:244-264 | the planes exist exactly when the input is long enough; they have the luma and quarter sizes and tile the start of the input; otherwise the size error |
| VideoFilters.SplitAtFirst | src/video_filters.rs:9-11 | splitting at '=' puts the name first |
| VideoFilters.FilterWithoutParams | src/video_filters.rs:9-11 | a string without '=' is a lower-cased name with no parameters |
| VideoFilters.FilterParamsEndAtSecondSign | src/video_filters.rs:9-11 | the parameters run to the second '=', and anything after it is ignored |
| VideoFilters.Pair | src/video_filters.rs:17-19 | a pair is found only when the first two ':'-parts parse as i32, and it is those two values |
| VideoFilters.Quad | src/video_filters.rs:29-36 | a quadruple is found only when the first four ':'-parts parse as i32, and it is those values |
| VideoFilters.ChooseFilterFallsBackToCopy | src/video_filters.rs:13-73 | an unknown name, or missing parameters for scale, crop, brightness or contrast, gives a copy; hflip and vflip are chosen exactly for their names |
| VideoFilters.ChosenParametersParse | src/video_filters.rs:13-59 | every chosen parameter is the parse of the parameter text |
| VideoFilters.ISqrt | src/video_filters.rs:162-164 | the integer square root: r*r <= n < (r+1)*(r+1) |
| VideoFilters.Estimate | src/video_filters.rs:162-164 | a frame shorter than 2 bytes fails with a division by zero; otherwise the width is at least 1 and the height is two thirds of the length divided by it |
| VideoFilters.EstimateIsSquareRoot | src/video_filters.rs:162-164 | the width is the largest whose square fits in two thirds of the length |
| VideoFilters.LumaFits | src/video_filters.rs:162-164 | the estimated luma plane fits in the frame |
| VideoFilters.Hflip | src/video_filters.rs:212-256 | an empty frame gives an empty output, and only a one-byte frame fails |
| VideoFilters.ApplyHflip | src/video_filters.rs:212-256 | the row loops build exactly the reference flip |
| VideoFilters.HflipMirrorsLuma | src/video_filters.rs:229-236 | byte x of luma row y of the output is byte width-1-x of row y of the input |
| VideoFilters.Vflip | src/video_filters.rs:258-300 | an empty frame gives an empty output, and only a one-byte frame fails |
| VideoFilters.ApplyVflip | src/video_filters.rs:258-300 | the row loops build exactly the reference flip |
| VideoFilters.VflipTurnsLumaOver | src/video_filters.rs:275-281 | luma row k of the output is luma row height-1-k of the input |
| VideoFilters.FlipsComposeToReversal | src/video_filters.rs:229-296 | reversing the rows taken in ascending order gives the mirrored rows in descending order, so flipping a plane both ways reverses it |
| VideoFilters.CropFrame | src/video_filters.rs:149-210 | an empty frame gives an empty output, a one-byte frame a division by zero, and otherwise the crop fails exactly when x+w passes the estimated width or y+h the estimated height |
| VideoFilters.ApplyCrop | src/video_filters.rs:149-210 | the row loops build exactly the reference crop |
| VideoFilters.CropCopiesLumaRectangle | src/video_filters.rs:180-186 | byte j of output row i is byte x+j of input row y+i |
| VideoFilters.WrapI32 | src/video_filters.rs:306 | the result is an i32, and an i32 is unchanged |
| VideoFilters.Clamp | src/video_filters.rs:306 | values already in 0..255 are unchanged |
| VideoFilters.ApplyBrightness | src/video_filters.rs:302-312 | the output has the input's length, and each byte is the clamped, adjusted input byte at the same position |
| VideoFilters.BrightnessZeroIsIdentity | src/video_filters.rs:302-312 | a zero adjustment gives back every byte |
| VideoFilters.BrightnessComposes | src/video_filters.rs:302-312 | two adjustments in the same direction equal their sum while no i32 wraps |
| VideoFilters.BrightnessWrapsNearI32Max | src/video_filters.rs:306 | near i32::MAX the sum wraps: 255 turns into 0 and 0 into 255 |
| VideoFilters.ApplyVideoFilter | src/video_filters.rs:8-74 | the result is the chosen filter's output on the frame, and `ScaleAborted` where the scale filter aborts |
| VideoFilters.ScaleOutput | src/video_filters.rs:77-98 | an empty frame comes back unchanged; a non-empty frame with a negative i32 target pixel count aborts; otherwise the filter succeeds exactly when the floating-point scaling does |
| VideoFilters.ChooseScale | src/video_filters.rs:13-20 | `scale=W:H` with two i32 sides selects the scale filter with exactly those sides |
| VideoFilters.ScaleToNegativeTargetAborts | src/video_filters.rs:89-95 | `scale=W:H` with a negative product, such as `scale=-640:480`, gives the abort on every non-empty frame |
| Validation.ValidationResult.constructor | src/validation.rs:26-38 | a new result is invalid, has an empty format, nothing measured and nothing recorded |
| Validation.ValidationResult.AddError | src/validation.rs:41-44 | exactly one error is appended, the result becomes invalid, and nothing else changes |
| Validation.ValidationResult.AddWarning | src/validation.rs:47-49 | exactly one warning is appended; the verdict and the errors are unchanged |
| Validation.ValidationResult.Finalize | src/validation.rs:52-54 | the result is valid exactly when no error was recorded; on a finalized result the call changes nothing; warnings play no part |
| Validation.PreCheckError | src/validation.rs:215-236 | the pre-checks pass exactly for a present file of at least 32 bytes; an empty file and a file that is too small get their own errors |
| Validation.ValidateMediaFile | src/validation.rs:211-250 | a failed pre-check gives a new invalid result with exactly that one error; otherwise an available tool's result is returned, or with no tool a valid result with the one warning |
| Lib.DetectionWindow | src/lib.rs:155-158 | the detector sees a prefix of the file of at most 8192 bytes, and the whole file when it is no longer |
| Lib.GetMediaInfo | src/lib.rs:122-203 | a missing file is an error naming the path; otherwise the format names come from the extension, and there is one stream exactly when the detector found a codec name |
| Lib.StreamIsDetection | src/lib.rs:175-189 | the reported stream is index 0 and carries the detector's codec, type, dimensions and rate |
| Lib.UnknownFormatHasNoStreams | src/lib.rs:136-141 | a file with an unknown extension reports no stream and is named by its extension |
| Lib.TranscodeRoute | src/lib.rs:338-363 | exactly the six ordered pairs of different known containers are routed; every other pair is an unsupported error |
| Lib.EveryRouteIsDispatched | src/lib.rs:338-356 | every route is reached from its own source and target, and only from them |
| Lib.TransformRoute | src/lib.rs:833-930 | only IVF to Matroska, Matroska to IVF, Y4M to IVF and IVF to Y4M are handled, and each on the route transcode takes |
| Lib.TransformIsNarrowerThanTranscode | src/lib.rs:833-930 | every conversion transform_format does, transcode also routes; the only routed pairs it refuses are Y4M to and from Matroska |
| Lib.MatroskaDataStart | src/lib.rs:869-873 | the copy starts past the EBML magic exactly when the input is longer than 4 bytes and begins with it, and otherwise at 0 |
| Lib.IvfDataStart | src/lib.rs:915-919 | the copy starts past 32 bytes exactly when the input is longer and begins with DKIF, and otherwise at 0 |
| Lib.TransformFormat | src/lib.rs:833-930 | the output file's bytes, written step by step, are exactly the reference conversion, or the dispatch error |
| Lib.WriteIvfAsMatroska | src/lib.rs:834-849 | the arm appends the EBML magic and the input past 32 bytes |
| Lib.WriteMatroskaAsIvf | src/lib.rs:850-878 | the arm appends the fixed 36-byte header and the input past the EBML magic |
| Lib.WriteY4mAsIvf | src/lib.rs:879-903 | the arm appends the fixed 36-byte header and the bytes after the first newline |
| Lib.WriteIvfAsY4m | src/lib.rs:904-924 | the arm appends the fixed header line and the input past a 32-byte IVF header |
| Lib.IvfToMatroskaLayout | src/lib.rs:842-848 | the output is the EBML magic followed by the input from offset 32, or nothing more for input of at most 32 bytes |
| Lib.Y4mToIvfLayout | src/lib.rs:886-902 | the output is a fixed 36-byte header followed by every byte after the first newline, or by nothing when there is none |
| Lib.IvfThroughMatroskaKeepsPayload | src/lib.rs:834-878 | IVF to Matroska and back keeps everything after the IVF header and replaces the header with the fixed 36-byte one |
| Lib.Y4mThroughIvfGainsRateWord | src/lib.rs:886-923 | for every input, Y4M to IVF and back puts the header's stray last word 25 0 0 0 in front of the frame data |
| Lib.MatroskaThroughIvfGainsRateWord | src/lib.rs:857-866 | Matroska to IVF and back puts the stray word 30 0 0 0 after the EBML magic |
| Lib.Y4mThroughIvfCorrected | src/lib.rs:886-923 | with a 32-byte IVF header, Y4M to IVF and back returns exactly the data after the header line; with no such data the bare IVF header is copied whole |
| Lib.SupportedPixelFormats | src/lib.rs:785-794 | six different names, the first yuv420p, rgb24 among them |
| Lib.SupportedSampleFormats | src/lib.rs:800-807 | four different names: u8 first, f32 last, s16 and s32 among them |

## Left out

- File-system and process I/O are not modelled: file existence and reads, `File::create`, `create_dir_all`, `flush`, and the short read into the 8192-byte buffer of `get_media_info`. A file's bytes and whether it exists are parameters.
- The "Input file not found" checks of `transcode` and `transform_format` (src/lib.rs:322-327, 820-825) are I/O. `Lib.TranscodeRoute` and `Lib.TransformFormat` start from the detected formats and the input's bytes.
- `Path::extension` is not modelled: the extension is an `Option<string>` parameter.
- Floating point is not modelled:
  - The floating-point scaling of `apply_scale_filter` and all of `apply_contrast_filter` are function parameters of `VideoFilters.ApplyVideoFilter`. The scaling parameter returns None where the source aborts.
  - `estimate_duration` in both copies, and the duration and bit rate of `get_media_info`, are not modelled.
  - The colour arithmetic of `yuv420_to_rgba` is left out: a frame's `yuv` field holds the raw YUV bytes. Where the conversion reads, and so when it panics, is modelled by `Transcoding.Convertible`.
  - f64 frame rates are a `FrameRate` numerator/denominator pair. The f64 `parse` is modelled as integer-literal parsing only, so the sign of a zero is lost: `F30:-0` is +inf, and so u32::MAX, in `Text.FrameRateAsU32`, where Rust gets -inf and 0.
  - `(n as f64).sqrt() as i32` is the exact integer square root `ISqrt`.
- `to_lowercase` is ASCII lower-casing. Non-ASCII letters keep their case in the model.
- `VideoFilters.Estimate`: the `(len as i32) * 2` product is not wrapped to i32, which matters only for frames of 2^30 bytes or more.
- `VideoFilters.CropFrame`: the bound check's sums `x + w` and `y + h` are not wrapped to i32.
- `Transcoding.ExtractY4mFrames`: a header with a negative width or height is an error in the model. The source casts it to `usize` and computes a frame size that wraps or panics.
- `VideoFilters.CropFrame`: a negative crop field is reported as its own error `NegativeCropField`. In the source the `usize` casts of negative fields lead to different outcomes. Some inputs return partial or empty data: `crop=2:2:0:-1` on a 6-byte frame gives its last two bytes, and `crop=-1:-1:1:1` gives an empty frame. Others, with exactly one of the width and height negative, abort in `Vec::with_capacity`.
- `Transcoding.ExtractY4mFrames` and `Transcoding.ExtractIvfFrames`: the panic of `yuv420_to_rgba` on a frame it cannot convert is the error value `ConversionOutOfBounds`.
- `VideoFilters.Estimate`: the division-by-zero panic of a one-byte frame is the error value `DivisionByZero`.
- `VideoFilters.HflipMirrorsLuma`, `VideoFilters.VflipTurnsLumaOver` and `VideoFilters.CropCopiesLumaRectangle` state the luma plane byte by byte. The chroma rows are fixed by `Hflip`, `Vflip` and `CropFrame` and the loops proved equal to them, but no separate lemma describes them.
- `VideoFilters.ScaleOutput`: only the abort for a negative target pixel count is stated outright, as the error `ScaleAborted`. The other aborts of `apply_scale_filter` are left to the scaling parameter. These include the `usize::MAX` repeat count of a one-byte frame and the allocation for very large targets. The i32 product of the target sides wraps as in a release build; a debug build panics on the overflow instead.
- `VideoFilters.ApplyBrightness` follows a release build: the i32 sum wraps instead of panicking.
- `write_webm_header` (src/transcoding.rs:936-1052) is not modelled: it writes f64 durations and variable-length codec data, and only the I/O-driven `transcode_*` bodies call it.
- The `transcode_*` bodies (src/lib.rs:369-765, src/transcoding.rs:457-900) are not modelled beyond their dispatch, the FourCC choice and the writers they call. Neither are `save_frames_as_images`, `extract_frames_to_images` and `extract_frames_with_v_frame`. The latter's Y4M and IVF walks are copies of the ones modelled.
- The transcoder's `parse_matroska_frames` placeholder (src/transcoding.rs:1184-1188) always returns an empty list and is called only from the `transcode_*` bodies.
- The external validators are not modelled: `validate_with_ffmpeg`, `validate_with_mediainfo`, `check_ffmpeg_available`, `check_mediainfo_available`, `compare_media_files`, `print_validation_result` and `validate_file`. Their outcome is the `probed` parameter of `Validation.ValidateMediaFile`, and tool availability is a parameter.
- The `RUST_AV_INIT` mutex (src/lib.rs:18) is not modelled; it is concurrency only.
- kit.rs (the GStreamer wrapper) and types.rs (plain data records) are not part of this model.
- `Media.MediaSummary`: the contract states the path and format lines. The two lists are rendered by `Media.DebugList` in the form of Rust's `{:?}`, but no contract spells that text out.
- The Debug and Display formatting inside error messages (`{:?}` of a format, `{}` of an I/O error) is not modelled: errors are datatype values.
- `TranscodingWriters.VintRoundTrip`: the five-byte form keeps only four bits of `value >> 32`, so the round trip holds modulo 2^36. This is the source's behaviour, shown by `VintDropsHighBits`.

## Findings

| source | as written | input that shows it | evidently intended | confidence | as-written member | corrected member |
|---|---|---|---|---|---|---|
| src/encoding.rs:8-94 | The decoder expands a frame only when its first byte is 0xFF. Raw 0xFF bytes are not escaped by the encoder. | [2,1,1,1,1,1,1] encodes to [2,0xFF,6,1], which decodes to itself. [0xFF,1,2,3] is kept raw and decodes to [2,3]. | decode(encode(x)) == x for every frame | not executed | Encoding.LateRunIsNotDecoded | Encoding.CorrectedRoundTrip |
| src/format_parsers.rs:63-65 | A two-byte SimpleBlock size uses only `(b & 0x7F) << 8` and ignores the second byte, which the writer fills with the size's low byte. | a 200-byte frame written by `write_matroska_simpleblock`, read back as one empty frame | the size is `((b0 & 0x7F) << 8) \| b1`, so every written frame below 0x7FFC bytes reads back | not executed | FormatParsers.LargeFrameIsMisread | FormatParsers.ParseWrittenMatroskaCorrected |
| src/transcoding.rs:120-131 | The IVF extractor skips a 32-byte header and reads the dimensions at bytes 24 and 26. The IVF writers emit a 28-byte header with the dimensions at 16 and 18. | a 64x48 file written with one 4-byte frame is read back as one empty 1x0 frame | the extractor reads back what the writers write | not executed | Transcoding.WrittenIvfIsMisread | Transcoding.ExtractWrittenIvfCorrected |
| src/lib.rs:886-895 | The Y4M-to-IVF arm writes a 36-byte header: nine words, the rate repeated at the end. Every IVF reader here, the IVF-to-Y4M arm included, skips 32. | any Y4M file with frame data; converting to IVF and back adds 25 0 0 0 before the data | a standard 32-byte header, so the round trip keeps the data | not executed | Lib.Y4mThroughIvfGainsRateWord | Lib.Y4mThroughIvfCorrected |
