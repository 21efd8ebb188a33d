/**
 * The byte-level run-length codec the toolkit uses in place of a real
 * video encoder: a run of 4 to 255 equal bytes becomes the triple
 * `0xFF, count, value`, and the compressed form is used only when it is
 * strictly shorter than the input. The decoder expands triples only when
 * the frame's first byte is the marker.
 */
module Encoding {
  import opened Bytes

  const MARKER: byte := 0xFF
  const MAX_RUN: nat := 255

  function Repeat(v: byte, n: nat): (r: seq<byte>)
    ensures |r| == n && forall k :: 0 <= k < n ==> r[k] == v
  {
    seq(n, _ => v)
  }

  // ---------------------------------------------------------------------
  // Specification of the encoder

  /** The count the encoder's inner loop reaches when it starts from `c`. */
  function RunFrom(data: seq<byte>, i: nat, c: nat): (n: nat)
    requires i < |data| && 1 <= c <= MAX_RUN && i + c <= |data|
    ensures c <= n <= MAX_RUN && i + n <= |data|
    decreases MAX_RUN - c
  {
    if i + c < |data| && data[i + c] == data[i] && c < MAX_RUN then RunFrom(data, i, c + 1) else c
  }

  /**
   * The run at `i`: the longest stretch of bytes equal to `data[i]`,
   * capped at 255.
   */
  function Run(data: seq<byte>, i: nat): (n: nat)
    requires i < |data|
    ensures 1 <= n <= MAX_RUN && i + n <= |data|
  {
    RunFrom(data, i, 1)
  }

  /** The run is made of copies of `data[i]` and stops only at 255 bytes, at the end, or at a different byte. */
  lemma RunIsLongest(data: seq<byte>, i: nat)
    requires i < |data|
    ensures var n := Run(data, i);
      (forall k :: i <= k < i + n ==> data[k] == data[i])
      && (n == MAX_RUN || i + n == |data| || data[i + n] != data[i])
  {
    RunBounds(data, i, 1);
  }

  lemma {:induction false} RunBounds(data: seq<byte>, i: nat, c: nat)
    requires i < |data| && 1 <= c <= MAX_RUN && i + c <= |data|
    requires forall k :: i <= k < i + c ==> data[k] == data[i]
    ensures forall k :: i <= k < i + RunFrom(data, i, c) ==> data[k] == data[i]
    ensures var n := RunFrom(data, i, c); n == MAX_RUN || i + n == |data| || data[i + n] != data[i]
    decreases MAX_RUN - c
  {
    if i + c < |data| && data[i + c] == data[i] && c < MAX_RUN {
      RunBounds(data, i, c + 1);
    }
  }

  /**
   * Whether the run of `n` copies of `v` is written as a triple. The
   * encoder as written uses a triple only for runs longer than 3; with
   * `escape` set, a run of marker bytes is also written as a triple (the
   * corrected encoder, see `CorrectedRoundTrip`).
   */
  predicate UsesTriple(n: nat, v: byte, escape: bool)
  {
    n > 3 || (escape && v == MARKER)
  }

  /** No marker byte at or after position `i`. */
  predicate NoMarkerFrom(data: seq<byte>, i: nat)
  {
    forall k :: i <= k < |data| ==> data[k] != MARKER
  }

  /** The compressed stream for `data[i..]`, one run at a time. */
  function CompressFrom(data: seq<byte>, i: nat, escape: bool): seq<byte>
    requires i <= |data|
    decreases |data| - i
  {
    if i == |data| then []
    else
      var n := Run(data, i);
      if UsesTriple(n, data[i], escape) then
        [MARKER, n, data[i]] + CompressFrom(data, i + n, escape)
      else
        [data[i]] + CompressFrom(data, i + 1, escape)
  }

  /**
   * The stream is never longer than its input unless a run of marker bytes
   * is escaped: a triple stands for at least four bytes, any other token
   * for one.
   */
  lemma {:induction false} CompressLength(data: seq<byte>, i: nat, escape: bool)
    requires i <= |data|
    requires !escape || NoMarkerFrom(data, i)
    ensures |CompressFrom(data, i, escape)| <= |data| - i
    decreases |data| - i
  {
    if i < |data| {
      var n := Run(data, i);
      if UsesTriple(n, data[i], escape) {
        CompressLength(data, i + n, escape);
        LengthTriple(data, i, escape);
      } else {
        CompressLength(data, i + 1, escape);
        LengthSingle(data, i, escape);
      }
    }
  }

  /** The triple step of `CompressLength`: three bytes stand for a run of more than three. */
  lemma LengthTriple(data: seq<byte>, i: nat, escape: bool)
    requires i < |data| && UsesTriple(Run(data, i), data[i], escape)
    requires !escape || data[i] != MARKER
    requires |CompressFrom(data, i + Run(data, i), escape)| <= |data| - (i + Run(data, i))
    ensures |CompressFrom(data, i, escape)| <= |data| - i
  {
    var n := Run(data, i);
    var rest := CompressFrom(data, i + n, escape);
    CompressStep(data, i, escape);
    assert CompressFrom(data, i, escape) == [MARKER, n, data[i]] + rest;
  }

  /** The literal step of `CompressLength`: one byte for one byte. */
  lemma LengthSingle(data: seq<byte>, i: nat, escape: bool)
    requires i < |data| && !UsesTriple(Run(data, i), data[i], escape)
    requires |CompressFrom(data, i + 1, escape)| <= |data| - (i + 1)
    ensures |CompressFrom(data, i, escape)| <= |data| - i
  {
    var rest := CompressFrom(data, i + 1, escape);
    CompressStep(data, i, escape);
    assert CompressFrom(data, i, escape) == [data[i]] + rest;
  }

  /** The stream the encoder as written builds. */
  function Compress(data: seq<byte>): (c: seq<byte>)
    ensures |c| <= |data|
  {
    CompressLength(data, 0, false);
    CompressFrom(data, 0, false)
  }

  /**
   * `encode_yuv_to_ivf_frame`: the compressed stream when it is strictly
   * shorter than the input, otherwise the input unchanged.
   */
  function EncodeFrame(data: seq<byte>): (frame: seq<byte>)
    ensures |frame| <= |data|
    ensures frame == data || |frame| < |data|
  {
    if |Compress(data)| < |data| then Compress(data) else data
  }

  /** A run is `n` copies of its first byte followed by the rest of the input. */
  lemma RunSplit(data: seq<byte>, i: nat)
    requires i < |data|
    ensures data[i..] == Repeat(data[i], Run(data, i)) + data[i + Run(data, i)..]
  {
    var n := Run(data, i);
    RunIsLongest(data, i);
    assert forall k :: 0 <= k < n ==> data[i..][k] == data[i + k];
  }

  /** One step of the compressed stream: the token for the run at `i`, then the rest. */
  lemma CompressStep(data: seq<byte>, i: nat, escape: bool)
    requires i < |data|
    ensures var n := Run(data, i);
      CompressFrom(data, i, escape) ==
        if UsesTriple(n, data[i], escape) then [MARKER, n, data[i]] + CompressFrom(data, i + n, escape)
        else [data[i]] + CompressFrom(data, i + 1, escape)
  {
  }

  /** One pass of the encoder's outer loop moves one token from the stream still to build to the output. */
  lemma EncodeTripleStep(data: seq<byte>, i: nat, n: nat, v: byte, acc: seq<byte>)
    requires i < |data| && n == Run(data, i) && v == data[i] && n > 3
    ensures (acc + [MARKER, n, v]) + CompressFrom(data, i + n, false) == acc + CompressFrom(data, i, false)
  {
    CompressStep(data, i, false);
    AppendAssoc(acc, [MARKER, n, v], CompressFrom(data, i + n, false));
  }

  lemma EncodeSingleStep(data: seq<byte>, i: nat, n: nat, v: byte, acc: seq<byte>)
    requires i < |data| && n == Run(data, i) && v == data[i] && n <= 3
    ensures (acc + [v]) + CompressFrom(data, i + 1, false) == acc + CompressFrom(data, i, false)
  {
    CompressStep(data, i, false);
    AppendAssoc(acc, [v], CompressFrom(data, i + 1, false));
  }

  /** At the end of the input the encoder's output is the whole compressed stream. */
  lemma CompressDone(acc: seq<byte>, data: seq<byte>, i: nat, total: seq<byte>)
    requires i == |data| && acc + CompressFrom(data, i, false) == total
    ensures acc == total
  {
    assert acc + [] == acc;
  }

  /** A triple in the decoder's loop appends its run. */
  lemma ExpandTripleStep(acc: seq<byte>, f: seq<byte>, i: nat)
    requires i + 2 < |f| && f[i] == MARKER
    ensures (acc + Repeat(f[i + 2], f[i + 1])) + ExpandFrom(f, i + 3) == acc + ExpandFrom(f, i)
  {
    AppendAssoc(acc, Repeat(f[i + 2], f[i + 1]), ExpandFrom(f, i + 3));
  }

  /** Any other byte in the decoder's loop is copied. */
  lemma ExpandSingleStep(acc: seq<byte>, f: seq<byte>, i: nat)
    requires i + 2 < |f| && f[i] != MARKER
    ensures (acc + [f[i]]) + ExpandFrom(f, i + 1) == acc + ExpandFrom(f, i)
  {
    AppendAssoc(acc, [f[i]], ExpandFrom(f, i + 1));
  }

  /** The last two bytes are copied as they are. */
  lemma ExpandTail(f: seq<byte>, i: nat)
    requires i <= |f| < i + 3
    ensures ExpandFrom(f, i) == f[i..]
  {
  }

  lemma PushTail(acc: seq<byte>, s: seq<byte>, i: nat)
    requires i < |s|
    ensures (acc + [s[i]]) + s[i + 1..] == acc + s[i..]
  {
    assert s[i..] == [s[i]] + s[i + 1..];
    AppendAssoc(acc, [s[i]], s[i + 1..]);
  }

  // ---------------------------------------------------------------------
  // Specification of the decoder

  /** What the decoder's loops append from position `i` of a marked frame. */
  function ExpandFrom(f: seq<byte>, i: nat): seq<byte>
    requires i <= |f|
    decreases |f| - i
  {
    if i + 2 < |f| then
      if f[i] == MARKER then Repeat(f[i + 2], f[i + 1]) + ExpandFrom(f, i + 3)
      else [f[i]] + ExpandFrom(f, i + 1)
    else f[i..]
  }

  /**
   * `decode_ivf_frame_to_yuv`: a frame whose first byte is the marker is
   * expanded; any other frame is returned unchanged.
   */
  function DecodeFrame(f: seq<byte>): seq<byte>
  {
    if |f| > 0 && f[0] == MARKER then ExpandFrom(f, 0) else f
  }

  // ---------------------------------------------------------------------
  // The two loops, proved against the specification

  /** The encoder's outer loop; width and height are unused, as in the source. */
  method EncodeYuvToIvfFrame(yuv: seq<byte>, width: int, height: int) returns (frame: seq<byte>)
    ensures frame == EncodeFrame(yuv)
  {
    var compressed: seq<byte> := [];
    var i := 0;
    ghost var total := CompressFrom(yuv, 0, false);
    while i < |yuv|
      invariant i <= |yuv|
      invariant compressed + CompressFrom(yuv, i, false) == total
      decreases |yuv| - i
    {
      var current := yuv[i];
      var count := CountRun(yuv, i);
      if count > 3 {
        var next := i + count;
        EncodeTripleStep(yuv, i, count, current, compressed);
        compressed := compressed + [MARKER, count, current];
        i := next;
      } else {
        var next := i + 1;
        EncodeSingleStep(yuv, i, count, current, compressed);
        compressed := compressed + [current];
        i := next;
      }
    }
    CompressDone(compressed, yuv, i, total);
    if |compressed| < |yuv| {
      frame := compressed;
    } else {
      frame := yuv;
    }
  }

  /** The encoder's inner loop: the length of the run at `i`, at most 255. */
  method CountRun(data: seq<byte>, i: nat) returns (count: nat)
    requires i < |data|
    ensures count == Run(data, i)
  {
    var current := data[i];
    count := 1;
    while i + count < |data| && data[i + count] == current && count < MAX_RUN
      invariant 1 <= count <= MAX_RUN && i + count <= |data|
      invariant RunFrom(data, i, count) == RunFrom(data, i, 1)
      decreases MAX_RUN - count
    {
      count := count + 1;
    }
  }

  /** The decoder's loops; width and height are unused, as in the source. */
  method DecodeIvfFrameToYuv(f: seq<byte>, width: int, height: int) returns (yuv: seq<byte>)
    ensures yuv == DecodeFrame(f)
  {
    if |f| > 0 && f[0] == MARKER {
      yuv := [];
      var i: nat := 0;
      while i + 2 < |f|
        invariant i <= |f|
        invariant yuv + ExpandFrom(f, i) == ExpandFrom(f, 0)
        decreases |f| - i
      {
        if f[i] == MARKER {
          var count := f[i + 1];
          var value := f[i + 2];
          ExpandTripleStep(yuv, f, i);
          yuv := AppendRun(yuv, value, count);
          i := i + 3;
        } else {
          ExpandSingleStep(yuv, f, i);
          yuv := yuv + [f[i]];
          i := i + 1;
        }
      }
      ExpandTail(f, i);
      yuv := AppendTail(yuv, f, i);
    } else {
      yuv := f;
    }
  }

  /** The decoder's inner loop: `count` copies of `value` pushed one at a time. */
  method AppendRun(acc: seq<byte>, value: byte, count: nat) returns (r: seq<byte>)
    ensures r == acc + Repeat(value, count)
  {
    r := acc;
    for k := 0 to count
      invariant r == acc + Repeat(value, k)
    {
      r := r + [value];
    }
  }

  /** The decoder's last loop: the bytes from `i` on copied one at a time. */
  method AppendTail(acc: seq<byte>, s: seq<byte>, from: nat) returns (r: seq<byte>)
    requires from <= |s|
    ensures r == acc + s[from..]
  {
    r := acc;
    var i := from;
    while i < |s|
      invariant from <= i <= |s|
      invariant r + s[i..] == acc + s[from..]
      decreases |s| - i
    {
      PushTail(r, s, i);
      r := r + [s[i]];
      i := i + 1;
    }
  }

  // ---------------------------------------------------------------------
  // Properties

  lemma {:induction false} RunOfRepeat(v: byte, n: nat, c: nat)
    requires 1 <= c <= n <= MAX_RUN
    ensures RunFrom(Repeat(v, n), 0, c) == n
    decreases n - c
  {
    if c < n {
      RunOfRepeat(v, n, c + 1);
    }
  }

  /**
   * A single run of 4 to 255 equal bytes compresses to one triple, and the
   * decoder restores it.
   */
  lemma SingleRunRoundTrip(v: byte, n: nat)
    requires 4 <= n <= MAX_RUN
    ensures EncodeFrame(Repeat(v, n)) == [MARKER, n, v]
    ensures DecodeFrame(EncodeFrame(Repeat(v, n))) == Repeat(v, n)
  {
    var data := Repeat(v, n);
    RunOfRepeat(v, n, 1);
    assert CompressFrom(data, n, false) == [];
    assert Compress(data) == [MARKER, n, v];
    assert ExpandFrom([MARKER, n, v], 3) == [];
  }

  /**
   * For input without marker bytes, the encoder compresses exactly when its
   * stream holds a triple, that is, a marker byte.
   */
  lemma {:induction false} CompressShorterIffTriple(data: seq<byte>, i: nat)
    requires i <= |data|
    requires NoMarkerFrom(data, i)
    ensures |CompressFrom(data, i, false)| < |data| - i <==> MARKER in CompressFrom(data, i, false)
    decreases |data| - i
  {
    if i < |data| {
      var n := Run(data, i);
      if n > 3 {
        ShorterTriple(data, i);
      } else {
        NoMarkerLater(data, i, i + 1, false);
        CompressShorterIffTriple(data, i + 1);
        ShorterSingle(data, i);
      }
    }
  }

  /** The triple step of `CompressShorterIffTriple`: a triple saves at least one byte. */
  lemma ShorterTriple(data: seq<byte>, i: nat)
    requires i < |data| && Run(data, i) > 3
    ensures |CompressFrom(data, i, false)| < |data| - i && MARKER in CompressFrom(data, i, false)
  {
    var n := Run(data, i);
    var rest := CompressFrom(data, i + n, false);
    CompressLength(data, i + n, false);
    CompressStep(data, i, false);
    assert CompressFrom(data, i, false) == [MARKER, n, data[i]] + rest;
    assert |rest| <= |data| - i - n && n > 3;
  }

  /** The literal step of `CompressShorterIffTriple`: a literal costs its byte and adds no marker. */
  lemma ShorterSingle(data: seq<byte>, i: nat)
    requires i < |data| && Run(data, i) <= 3 && data[i] != MARKER
    requires var rest := CompressFrom(data, i + 1, false);
      |rest| < |data| - (i + 1) <==> MARKER in rest
    ensures |CompressFrom(data, i, false)| < |data| - i <==> MARKER in CompressFrom(data, i, false)
  {
    CompressStep(data, i, false);
    var rest := CompressFrom(data, i + 1, false);
    assert MARKER in [data[i]] + rest <==> MARKER in rest;
  }

  /** Decoding from `i` reads only the bytes from `i` on. */
  lemma {:induction false} ExpandFromSame(f: seq<byte>, i: nat, s: seq<byte>, j: nat)
    requires i <= |f| && j <= |s| && f[i..] == s[j..]
    ensures ExpandFrom(f, i) == ExpandFrom(s, j)
    decreases |f| - i
  {
    if i + 2 < |f| {
      assert f[i] == f[i..][0] == s[j..][0] == s[j];
      assert f[i + 1] == f[i..][1] == s[j..][1] == s[j + 1];
      assert f[i + 2] == f[i..][2] == s[j..][2] == s[j + 2];
      if f[i] == MARKER {
        assert f[i + 3..] == f[i..][3..] == s[j..][3..] == s[j + 3..];
        ExpandFromSame(f, i + 3, s, j + 3);
        SameTriple(f, i, s, j);
      } else {
        assert f[i + 1..] == f[i..][1..] == s[j..][1..] == s[j + 1..];
        ExpandFromSame(f, i + 1, s, j + 1);
        SameSingle(f, i, s, j);
      }
    }
  }

  /** The triple case of `ExpandFromSame`, given the rest agrees. */
  lemma SameTriple(f: seq<byte>, i: nat, s: seq<byte>, j: nat)
    requires i + 2 < |f| && j + 2 < |s| && |f| - i == |s| - j
    requires f[i] == s[j] == MARKER && f[i + 1] == s[j + 1] && f[i + 2] == s[j + 2]
    requires ExpandFrom(f, i + 3) == ExpandFrom(s, j + 3)
    ensures ExpandFrom(f, i) == ExpandFrom(s, j)
  {
  }

  /** The literal case of `ExpandFromSame`, given the rest agrees. */
  lemma SameSingle(f: seq<byte>, i: nat, s: seq<byte>, j: nat)
    requires i + 2 < |f| && j + 2 < |s| && |f| - i == |s| - j
    requires f[i] == s[j] != MARKER
    requires ExpandFrom(f, i + 1) == ExpandFrom(s, j + 1)
    ensures ExpandFrom(f, i) == ExpandFrom(s, j)
  {
  }

  /** Decoding a stream that begins with `p` may start after `p`. */
  lemma ExpandFromShift(p: seq<byte>, s: seq<byte>, j: nat)
    requires j <= |s|
    ensures ExpandFrom(p + s, |p| + j) == ExpandFrom(s, j)
  {
    assert (p + s)[|p| + j..] == s[j..];
    ExpandFromSame(p + s, |p| + j, s, j);
  }

  /** The decoder expands a leading triple into its run and goes on after it. */
  lemma ExpandTriple(n: byte, v: byte, rest: seq<byte>)
    ensures ExpandFrom([MARKER, n, v] + rest, 0) == Repeat(v, n) + ExpandFrom(rest, 0)
  {
    ExpandFromShift([MARKER, n, v], rest, 0);
  }

  /** The decoder copies a leading byte other than the marker and goes on after it. */
  lemma ExpandSingle(v: byte, rest: seq<byte>)
    requires v != MARKER
    ensures ExpandFrom([v] + rest, 0) == [v] + ExpandFrom(rest, 0)
  {
    if 2 < |rest| + 1 {
      ExpandFromShift([v], rest, 0);
    } else {
      assert ExpandFrom(rest, 0) == rest;
    }
  }

  lemma NoMarkerLater(data: seq<byte>, i: nat, j: nat, escape: bool)
    requires i <= j <= |data|
    requires escape || NoMarkerFrom(data, i)
    ensures escape || NoMarkerFrom(data, j)
    ensures !escape ==> i < |data| ==> data[i] != MARKER
  {
  }

  /** Decoding the stream compressed from `i` on gives back the input from `i` on. */
  predicate Restores(data: seq<byte>, i: nat, escape: bool)
    requires i <= |data|
  {
    ExpandFrom(CompressFrom(data, i, escape), 0) == data[i..]
  }

  /** Decoding the triple for the run at `i`, when the stream after the run decodes to what follows it. */
  lemma TripleBack(data: seq<byte>, i: nat, j: nat, escape: bool)
    requires i < |data| && j == i + Run(data, i) && UsesTriple(Run(data, i), data[i], escape)
    requires Restores(data, j, escape)
    ensures Restores(data, i, escape)
  {
    TripleBackAt(data, i, Run(data, i), escape);
  }

  /** `TripleBack` with the run length named. */
  lemma TripleBackAt(data: seq<byte>, i: nat, n: nat, escape: bool)
    requires i < |data| && n == Run(data, i) && UsesTriple(n, data[i], escape)
    requires i + n <= |data| && Restores(data, i + n, escape)
    ensures Restores(data, i, escape)
  {
    var rest, v := CompressFrom(data, i + n, escape), data[i];
    assert CompressFrom(data, i, escape) == [MARKER, n, v] + rest by {
      CompressStep(data, i, escape);
    }
    assert ExpandFrom([MARKER, n, v] + rest, 0) == Repeat(v, n) + data[i + n..] by {
      ExpandTriple(n, v, rest);
    }
    assert data[i..] == Repeat(v, n) + data[i + n..] by {
      RunSplit(data, i);
    }
  }

  /** Decoding the single byte at `i`, when the stream after it decodes to what follows it. */
  lemma SingleBack(data: seq<byte>, i: nat, j: nat, escape: bool)
    requires i < |data| && j == i + 1 && data[i] != MARKER && !UsesTriple(Run(data, i), data[i], escape)
    requires Restores(data, j, escape)
    ensures Restores(data, i, escape)
  {
    CompressStep(data, i, escape);
    ExpandSingle(data[i], CompressFrom(data, j, escape));
    assert data[i..] == [data[i]] + data[j..];
  }

  /** `ExpandCompress` by induction on the position, one run or byte at a time. */
  lemma {:induction false} RestoresFrom(data: seq<byte>, i: nat, escape: bool)
    requires i <= |data|
    requires escape || NoMarkerFrom(data, i)
    ensures Restores(data, i, escape)
    decreases |data| - i
  {
    if i < |data| {
      NoMarkerLater(data, i, i + 1, escape);
      var j: nat := if UsesTriple(Run(data, i), data[i], escape) then i + Run(data, i) else i + 1;
      NoMarkerLater(data, i, j, escape);
      RestoresFrom(data, j, escape);
      if j == i + 1 && !UsesTriple(Run(data, i), data[i], escape) {
        SingleBack(data, i, j, escape);
      } else {
        TripleBack(data, i, j, escape);
      }
    }
  }

  /**
   * When no triple is misread, decoding a compressed stream restores the
   * bytes it was built from: either the stream escapes marker bytes, or the
   * input holds none.
   */
  lemma ExpandCompress(data: seq<byte>, i: nat, escape: bool)
    requires i <= |data|
    requires escape || NoMarkerFrom(data, i)
    ensures ExpandFrom(CompressFrom(data, i, escape), 0) == data[i..]
  {
    RestoresFrom(data, i, escape);
  }

  /**
   * For input without marker bytes, decoding undoes encoding exactly when
   * the encoder kept the input as it was or its first run was long enough
   * to put a marker at the front of the compressed frame. A compressed
   * frame that starts with a plain byte is returned by the decoder as it is.
   */
  lemma RoundTripWithoutMarker(data: seq<byte>)
    requires NoMarkerFrom(data, 0)
    ensures DecodeFrame(EncodeFrame(data)) == data
      <==> |Compress(data)| == |data| || Run(data, 0) > 3
  {
    assert data[0..] == data;
    if |Compress(data)| < |data| {
      ExpandCompress(data, 0, false);
    }
  }

  // ---------------------------------------------------------------------
  // Decoding does not undo encoding

  /**
   * A frame whose first run is short but which holds a later long run is
   * compressed, yet its compressed form starts with a plain byte, so the
   * decoder hands it back unexpanded.
   */
  lemma LateRunIsNotDecoded()
    ensures EncodeFrame([2, 1, 1, 1, 1, 1, 1]) == [2, MARKER, 6, 1]
    ensures DecodeFrame(EncodeFrame([2, 1, 1, 1, 1, 1, 1])) != [2, 1, 1, 1, 1, 1, 1]
  {
    var data: seq<byte> := [2, 1, 1, 1, 1, 1, 1];
    assert Run(data, 0) == 1;
    assert RunFrom(data, 1, 6) == 6;
    assert Run(data, 1) == 6;
    CompressStep(data, 0, false);
    CompressStep(data, 1, false);
    assert Compress(data) == [2, MARKER, 6, 1];
  }

  /**
   * A frame that starts with a marker byte but does not compress is kept
   * as it is, and the decoder then misreads its first bytes as a triple.
   */
  lemma LeadingMarkerIsMisread()
    ensures EncodeFrame([MARKER, 1, 2, 3]) == [MARKER, 1, 2, 3]
    ensures DecodeFrame(EncodeFrame([MARKER, 1, 2, 3])) == [2, 3]
  {
    var data: seq<byte> := [MARKER, 1, 2, 3];
    assert Run(data, 0) == 1 && Run(data, 1) == 1 && Run(data, 2) == 1 && Run(data, 3) == 1;
    CompressStep(data, 0, false);
    CompressStep(data, 1, false);
    CompressStep(data, 2, false);
    CompressStep(data, 3, false);
    assert Compress(data) == data;
    assert ExpandFrom(data, 3) == [3];
  }

  // ---------------------------------------------------------------------
  // The corrected codec

  /**
   * The encoder with marker bytes escaped: runs of the marker byte are
   * always written as triples, and input that holds a marker byte is never
   * passed through raw.
   */
  function EncodeFrameCorrected(data: seq<byte>): (frame: seq<byte>)
    ensures NoMarkerFrom(data, 0) ==> |frame| <= |data|
  {
    var c := CompressFrom(data, 0, true);
    if |c| < |data| || !NoMarkerFrom(data, 0) then c else data
  }

  /** The decoder without the first-byte test: every frame is expanded. */
  function DecodeFrameCorrected(f: seq<byte>): seq<byte>
  {
    ExpandFrom(f, 0)
  }

  /** Bytes without a marker expand to themselves. */
  lemma {:induction false} ExpandPlain(f: seq<byte>, i: nat)
    requires i <= |f| && NoMarkerFrom(f, i)
    ensures ExpandFrom(f, i) == f[i..]
    decreases |f| - i
  {
    if i + 2 < |f| {
      ExpandPlain(f, i + 1);
      assert f[i..] == [f[i]] + f[i + 1..];
    }
  }

  /** With marker bytes escaped and no sniffing, decoding undoes encoding for every input. */
  lemma CorrectedRoundTrip(data: seq<byte>)
    ensures DecodeFrameCorrected(EncodeFrameCorrected(data)) == data
  {
    assert data[0..] == data;
    var c := CompressFrom(data, 0, true);
    if |c| < |data| || !NoMarkerFrom(data, 0) {
      ExpandCompress(data, 0, true);
    } else {
      ExpandPlain(data, 0);
    }
  }
}
