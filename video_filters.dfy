/**
 * The integer video filters on a raw YUV420 frame: the filter-string
 * dispatch, brightness, horizontal and vertical flips and crop. Frame
 * dimensions are not given; they are estimated from the frame length.
 */
module VideoFilters {
  import opened Wrappers
  import opened Bytes
  import opened Text

  // ---------------------------------------------------------------------
  // Filter strings

  /**
   * `name=params`: the lower-cased text before the first `=`, and the text
   * between the first and the second `=` when there is one.
   */
  function ParseFilter(filterString: string): (r: (string, Option<string>))
  {
    var parts := Split(filterString, '=');
    (AsciiLower(parts[0]), if |parts| >= 2 then Some(parts[1]) else None)
  }

  /** Splitting `a=rest` puts `a` first and splits `rest` after it. */
  lemma SplitAtFirst(a: string, rest: string)
    requires '=' !in a
    ensures Split(a + ['='] + rest, '=') == [a] + Split(rest, '=')
  {
    SplitFromAppend(a, ['='] + rest, '=', "");
    assert a + ['='] + rest == a + (['='] + rest);
    assert "" + a == a;
    assert (['='] + rest)[1..] == rest;
  }

  /** The name is everything before the first `=`, lower-cased; without `=` there are no parameters. */
  lemma FilterWithoutParams(name: string)
    requires '=' !in name
    ensures ParseFilter(name) == (AsciiLower(name), None)
  {
    SplitWithoutSign(name);
  }

  lemma SplitWithoutSign(a: string)
    requires '=' !in a
    ensures Split(a, '=') == [a]
  {
    SplitFromAppend(a, "", '=', "");
    assert a + "" == a;
    assert "" + a == a;
  }

  /** The parameters run to the second `=`; whatever follows it is ignored. */
  lemma FilterParamsEndAtSecondSign(name: string, params: string, ignored: string)
    requires '=' !in name && '=' !in params
    ensures ParseFilter(name + "=" + params + "=" + ignored) == (AsciiLower(name), Some(params))
    ensures ParseFilter(name + "=" + params) == (AsciiLower(name), Some(params))
  {
    assert name + "=" + params + "=" + ignored == name + ['='] + (params + ['='] + ignored);
    SplitAtFirst(name, params + ['='] + ignored);
    SplitAtFirst(params, ignored);
    assert name + "=" + params == name + ['='] + params;
    SplitAtFirst(name, params);
    SplitWithoutSign(params);
  }

  /** A filter the dispatch can select; `Copy` stands for returning the frame as it is. */
  datatype Filter =
    | Copy
    | Scale(width: int, height: int)
    | Crop(width: int, height: int, x: int, y: int)
    | HFlip
    | VFlip
    | Brightness(adjustment: int)
    | Contrast(params: string)

  /** The integer pair of `a:b[:...]`, when the first two parts parse as i32. */
  function Pair(params: string): (r: Option<(int, int)>)
    ensures r.Some? ==> var parts := Split(params, ':');
      |parts| >= 2 && ParseI32(parts[0]) == Some(r.value.0) && ParseI32(parts[1]) == Some(r.value.1)
  {
    var parts := Split(params, ':');
    if |parts| >= 2 && ParseI32(parts[0]).Some? && ParseI32(parts[1]).Some? then
      Some((ParseI32(parts[0]).value, ParseI32(parts[1]).value))
    else None
  }

  /** The crop quadruple `w:h:x:y[:...]`, when the first four parts parse as i32. */
  function Quad(params: string): (r: Option<(int, int, int, int)>)
    ensures r.Some? ==> var parts := Split(params, ':');
      |parts| >= 4 && ParseI32(parts[0]) == Some(r.value.0) && ParseI32(parts[1]) == Some(r.value.1)
      && ParseI32(parts[2]) == Some(r.value.2) && ParseI32(parts[3]) == Some(r.value.3)
  {
    var parts := Split(params, ':');
    if |parts| >= 4 && ParseI32(parts[0]).Some? && ParseI32(parts[1]).Some?
       && ParseI32(parts[2]).Some? && ParseI32(parts[3]).Some? then
      Some((ParseI32(parts[0]).value, ParseI32(parts[1]).value, ParseI32(parts[2]).value, ParseI32(parts[3]).value))
    else None
  }

  predicate KnownName(name: string)
  {
    name in {"scale", "resize", "crop", "hflip", "vflip", "brightness", "contrast"}
  }

  /** The choice `apply_video_filter` makes from the filter string. */
  function ChooseFilter(filterString: string): (f: Filter)
  {
    var (name, params) := ParseFilter(filterString);
    if name == "scale" || name == "resize" then
      if params.Some? && Pair(params.value).Some? then Scale(Pair(params.value).value.0, Pair(params.value).value.1)
      else Copy
    else if name == "crop" then
      if params.Some? && Quad(params.value).Some? then
        var (w, h, x, y) := Quad(params.value).value;
        Crop(w, h, x, y)
      else Copy
    else if name == "hflip" then HFlip
    else if name == "vflip" then VFlip
    else if name == "brightness" then
      if params.Some? && ParseI32(params.value).Some? then Brightness(ParseI32(params.value).value) else Copy
    else if name == "contrast" then
      if params.Some? then Contrast(params.value) else Copy
    else Copy
  }

  /**
   * An unknown name gives a copy of the frame, and so do missing parameters
   * for scale, crop, brightness and contrast; the flips take no parameters.
   */
  lemma ChooseFilterFallsBackToCopy(filterString: string)
    ensures var (name, params) := ParseFilter(filterString);
      (!KnownName(name) ==> ChooseFilter(filterString) == Copy)
      && (params.None? && name != "hflip" && name != "vflip" ==> ChooseFilter(filterString) == Copy)
      && (name == "hflip" <==> ChooseFilter(filterString) == HFlip)
      && (name == "vflip" <==> ChooseFilter(filterString) == VFlip)
  {
  }

  /** Every selected parameter comes from the parameter text: the brightness is an i32 and the crop fields are i32s. */
  lemma ChosenParametersParse(filterString: string)
    ensures var (name, params) := ParseFilter(filterString);
      var f := ChooseFilter(filterString);
      (f.Brightness? ==> name == "brightness" && params.Some? && ParseI32(params.value) == Some(f.adjustment))
      && (f.Crop? ==> name == "crop" && params.Some? && Quad(params.value) == Some((f.width, f.height, f.x, f.y)))
      && (f.Scale? ==> (name == "scale" || name == "resize") && params.Some? && Pair(params.value) == Some((f.width, f.height)))
  {
  }

  // ---------------------------------------------------------------------
  // Dimension estimate

  /** The integer square root, as the source's `(n as f64).sqrt() as i32`. */
  function ISqrt(n: nat): (r: nat)
    ensures r * r <= n < (r + 1) * (r + 1)
  {
    SqrtFrom(n, 0)
  }

  function SqrtFrom(n: nat, r: nat): (s: nat)
    requires r * r <= n
    ensures s * s <= n < (s + 1) * (s + 1)
    decreases n - r
  {
    if (r + 1) * (r + 1) > n then r
    else
      assert r < r + 1 <= (r + 1) * (r + 1);
      SqrtFrom(n, r + 1)
  }

  /** Frame dimensions as the filters estimate them. */
  datatype Dims = Dims(width: nat, height: nat)

  /**
   * Why a filter gives no frame: crop bounds, an unmodelled negative crop
   * field, the division by a zero width, or a scale that aborts.
   */
  datatype FilterError = CropOutsideFrame | NegativeCropField | DivisionByZero | ScaleAborted

  /**
   * Two thirds of the length are taken as the luma pixel count; the width is
   * its square root and the height the count divided by the width. A
   * one-byte frame gives a zero width, and the division panics.
   */
  function Estimate(len: nat): (r: Result<Dims, FilterError>)
    ensures r.Err? <==> len < 2
    ensures r.Err? ==> r.error == DivisionByZero
    ensures r.Ok? ==> r.value.width >= 1 && r.value.height == len * 2 / 3 / r.value.width
  {
    var pixels := len * 2 / 3;
    var width := ISqrt(pixels);
    if width == 0 then Err(DivisionByZero)
    else Ok(Dims(width, pixels / width))
  }

  /** The estimated width is the largest whose square fits in two thirds of the length. */
  lemma EstimateIsSquareRoot(len: nat)
    requires len >= 2
    ensures var d := Estimate(len).value; var pixels := len * 2 / 3;
      d.width * d.width <= pixels < (d.width + 1) * (d.width + 1)
  {
  }

  /** The estimated luma plane fits in the frame. */
  lemma LumaFits(len: nat, d: Dims)
    requires Estimate(len) == Ok(d)
    ensures d.height * d.width <= len
  {
    var pixels := len * 2 / 3;
    assert d.width * (pixels / d.width) <= pixels;
  }

  // ---------------------------------------------------------------------
  // Rows

  /** A rectangle of rows in a plane: row `y` covers `width` bytes from `start + y * stride + offset`. */
  datatype Window = Window(start: nat, stride: nat, offset: nat, width: nat)

  function RowStart(w: Window, y: nat): nat
  {
    w.start + y * w.stride + w.offset
  }

  /** The bytes of `s` last to first, as an in-place `reverse` leaves them. */
  function Reversed(s: seq<byte>): seq<byte>
  {
    seq(|s|, i requires 0 <= i < |s| => s[|s| - 1 - i])
  }

  /** Row `y` of the window, reversed when `flip`; empty when it does not lie wholly inside `data`. */
  function Row(data: seq<byte>, w: Window, y: nat, flip: bool): (r: seq<byte>)
    ensures RowStart(w, y) + w.width <= |data| ==> |r| == w.width
    ensures RowStart(w, y) + w.width > |data| ==> r == []
  {
    var s := RowStart(w, y);
    if s + w.width <= |data| then
      if flip then Reversed(data[s..s + w.width]) else data[s..s + w.width]
    else []
  }

  /** Byte `i` of a row inside the frame is byte `i` of the window row, or byte `width - 1 - i` when flipped. */
  lemma RowBytes(data: seq<byte>, w: Window, y: nat, flip: bool, i: nat)
    requires RowStart(w, y) + w.width <= |data| && i < w.width
    ensures Row(data, w, y, flip)[i] == if flip then data[RowStart(w, y) + w.width - 1 - i] else data[RowStart(w, y) + i]
  {
  }

  /** Rows `lo` to `hi - 1`, first to last. */
  function Ascending(data: seq<byte>, w: Window, lo: nat, hi: nat, flip: bool): (rows: seq<seq<byte>>)
    requires lo <= hi
    ensures |rows| == hi - lo
  {
    seq(hi - lo, k requires 0 <= k < hi - lo => Row(data, w, lo + k, flip))
  }

  /** Rows `hi - 1` down to `lo`, last to first. */
  function Descending(data: seq<byte>, w: Window, lo: nat, hi: nat, flip: bool): (rows: seq<seq<byte>>)
    requires lo <= hi
    ensures |rows| == hi - lo
  {
    seq(hi - lo, k requires 0 <= k < hi - lo => Row(data, w, hi - 1 - k, flip))
  }

  /** The rows one after another. */
  function Flatten(rows: seq<seq<byte>>): seq<byte>
  {
    if |rows| == 0 then [] else Flatten(rows[..|rows| - 1]) + rows[|rows| - 1]
  }

  /** The bytes of rows `lo` to `hi - 1` in ascending row order. */
  function RowsUp(data: seq<byte>, w: Window, lo: nat, hi: nat, flip: bool): seq<byte>
    requires lo <= hi
  {
    Flatten(Ascending(data, w, lo, hi, flip))
  }

  /** The bytes of rows `hi - 1` down to `lo`. */
  function RowsDown(data: seq<byte>, w: Window, lo: nat, hi: nat, flip: bool): seq<byte>
    requires lo <= hi
  {
    Flatten(Descending(data, w, lo, hi, flip))
  }

  lemma Associative(a: seq<byte>, b: seq<byte>, c: seq<byte>)
    ensures a + b + c == a + (b + c)
  {
  }

  lemma IndexInPrefix(a: seq<byte>, b: seq<byte>, i: nat)
    requires i < |a|
    ensures (a + b)[i] == a[i]
  {
  }

  lemma FlattenAppend(rows: seq<seq<byte>>, r: seq<byte>)
    ensures Flatten(rows + [r]) == Flatten(rows) + r
  {
    assert (rows + [r])[..|rows|] == rows;
  }

  lemma {:induction false} FlattenCons(r: seq<byte>, rows: seq<seq<byte>>)
    ensures Flatten([r] + rows) == r + Flatten(rows)
    decreases |rows|
  {
    if |rows| == 0 {
      assert [r] + rows == [] + [r];
      FlattenAppend([], r);
    } else {
      var init, last := rows[..|rows| - 1], rows[|rows| - 1];
      assert [r] + rows == ([r] + init) + [last];
      FlattenAppend([r] + init, last);
      FlattenCons(r, init);
      FlattenAppend(init, last);
      assert rows == init + [last];
      Associative(r, Flatten(init), last);
    }
  }

  /** Byte `i` of row `k` follows the bytes of the rows before it. */
  lemma {:induction false} FlattenIndex(rows: seq<seq<byte>>, k: nat, i: nat)
    requires k < |rows| && i < |rows[k]|
    ensures |Flatten(rows[..k])| + i < |Flatten(rows)|
    ensures Flatten(rows)[|Flatten(rows[..k])| + i] == rows[k][i]
    decreases |rows|
  {
    var init := rows[..|rows| - 1];
    assert Flatten(rows) == Flatten(init) + rows[|rows| - 1];
    if k == |rows| - 1 {
      assert rows[..k] == init;
    } else {
      FlattenIndex(init, k, i);
      assert init[..k] == rows[..k];
    }
  }

  /** Rows of `n` bytes each flatten to `n` bytes per row. */
  lemma {:induction false} FlattenUniform(rows: seq<seq<byte>>, n: nat)
    requires forall k :: 0 <= k < |rows| ==> |rows[k]| == n
    ensures |Flatten(rows)| == |rows| * n
    decreases |rows|
  {
    if |rows| > 0 {
      FlattenUniform(rows[..|rows| - 1], n);
      assert |rows| * n == (|rows| - 1) * n + n;
    }
  }

  /** Each row reversed, in the opposite order. */
  function Mirrored(rows: seq<seq<byte>>): (m: seq<seq<byte>>)
    ensures |m| == |rows|
  {
    seq(|rows|, k requires 0 <= k < |rows| => Reversed(rows[|rows| - 1 - k]))
  }

  lemma ReversedAppend(a: seq<byte>, b: seq<byte>)
    ensures Reversed(a + b) == Reversed(b) + Reversed(a)
  {
    var l, r := Reversed(a + b), Reversed(b) + Reversed(a);
    forall i | 0 <= i < |l|
      ensures l[i] == r[i]
    {
      if i < |b| {
        assert r[i] == b[|b| - 1 - i];
      } else {
        assert r[i] == Reversed(a)[i - |b|];
      }
    }
  }

  /** Reversing the bytes of a run of rows reverses the row order and each row. */
  lemma {:induction false} FlattenReversed(rows: seq<seq<byte>>)
    ensures Reversed(Flatten(rows)) == Flatten(Mirrored(rows))
    decreases |rows|
  {
    if |rows| == 0 {
      assert Mirrored(rows) == [];
    } else {
      var init, last := rows[..|rows| - 1], rows[|rows| - 1];
      FlattenReversed(init);
      ReversedAppend(Flatten(init), last);
      assert Mirrored(rows) == [Reversed(last)] + Mirrored(init);
      FlattenCons(Reversed(last), Mirrored(init));
    }
  }

  /** Appends the rows `lo` to `hi - 1`, each when it lies inside the frame. */
  method AppendRowsUp(data: seq<byte>, w: Window, lo: nat, hi: nat, flip: bool, acc: seq<byte>) returns (out: seq<byte>)
    requires lo <= hi
    ensures out == acc + RowsUp(data, w, lo, hi, flip)
  {
    out := acc;
    for y := lo to hi
      invariant out == acc + RowsUp(data, w, lo, y, flip)
    {
      var rowStart := RowStart(w, y);
      var rowEnd := rowStart + w.width;
      ghost var before := out;
      if rowEnd <= |data| {
        var row := data[rowStart..rowEnd];
        if flip {
          row := Reversed(row);
        }
        out := out + row;
      }
      assert out == before + Row(data, w, y, flip);
      AscendingStep(data, w, lo, y, flip);
      Associative(acc, RowsUp(data, w, lo, y, flip), Row(data, w, y, flip));
    }
  }

  lemma AscendingStep(data: seq<byte>, w: Window, lo: nat, y: nat, flip: bool)
    requires lo <= y
    ensures RowsUp(data, w, lo, y + 1, flip) == RowsUp(data, w, lo, y, flip) + Row(data, w, y, flip)
  {
    assert Ascending(data, w, lo, y + 1, flip) == Ascending(data, w, lo, y, flip) + [Row(data, w, y, flip)];
    FlattenAppend(Ascending(data, w, lo, y, flip), Row(data, w, y, flip));
  }

  /** Appends the rows `hi - 1` down to `lo`, each when it lies inside the frame. */
  method AppendRowsDown(data: seq<byte>, w: Window, lo: nat, hi: nat, acc: seq<byte>) returns (out: seq<byte>)
    requires lo <= hi
    ensures out == acc + RowsDown(data, w, lo, hi, false)
  {
    out := acc;
    var y := hi;
    while y > lo
      invariant lo <= y <= hi
      invariant out == acc + RowsDown(data, w, y, hi, false)
    {
      y := y - 1;
      var rowStart := RowStart(w, y);
      var rowEnd := rowStart + w.width;
      ghost var before := out;
      if rowEnd <= |data| {
        out := out + data[rowStart..rowEnd];
      }
      assert out == before + Row(data, w, y, false);
      DescendingStep(data, w, y, hi);
      Associative(acc, RowsDown(data, w, y + 1, hi, false), Row(data, w, y, false));
    }
  }

  lemma DescendingStep(data: seq<byte>, w: Window, y: nat, hi: nat)
    requires y < hi
    ensures RowsDown(data, w, y, hi, false) == RowsDown(data, w, y + 1, hi, false) + Row(data, w, y, false)
  {
    assert Descending(data, w, y, hi, false) == Descending(data, w, y + 1, hi, false) + [Row(data, w, y, false)];
    FlattenAppend(Descending(data, w, y + 1, hi, false), Row(data, w, y, false));
  }

  lemma ReversedRow(data: seq<byte>, w: Window, y: nat)
    ensures Reversed(Row(data, w, y, false)) == Row(data, w, y, true)
  {
  }

  /**
   * Reversing the bytes of the rows in ascending order gives the mirrored
   * rows in descending order: flipping a plane both ways reverses it.
   */
  lemma FlipsComposeToReversal(data: seq<byte>, w: Window, lo: nat, hi: nat)
    requires lo <= hi
    ensures Reversed(RowsUp(data, w, lo, hi, false)) == RowsDown(data, w, lo, hi, true)
  {
    var up := Ascending(data, w, lo, hi, false);
    FlattenReversed(up);
    forall k | 0 <= k < hi - lo
      ensures Mirrored(up)[k] == Descending(data, w, lo, hi, true)[k]
    {
      ReversedRow(data, w, hi - 1 - k);
    }
    assert Mirrored(up) == Descending(data, w, lo, hi, true);
  }

  // ---------------------------------------------------------------------
  // Row geometry

  /** Whether every row `lo` to `hi - 1` of the window lies inside a frame of `len` bytes. */
  predicate RowsInside(w: Window, lo: nat, hi: nat, len: nat)
  {
    lo < hi ==> RowStart(w, hi - 1) + w.width <= len
  }

  lemma MulMonotone(a: nat, b: nat, c: nat)
    requires a <= b
    ensures a * c <= b * c
  {
  }

  lemma RowInside(w: Window, y: nat, hi: nat, len: nat)
    requires y < hi && RowStart(w, hi - 1) + w.width <= len
    ensures RowStart(w, y) + w.width <= len
  {
    MulMonotone(y, hi - 1, w.stride);
  }

  /** When every row lies inside, each row holds `width` bytes. */
  lemma AscendingFull(data: seq<byte>, w: Window, lo: nat, hi: nat, flip: bool)
    requires lo <= hi && RowsInside(w, lo, hi, |data|)
    ensures forall k :: 0 <= k < hi - lo ==> |Ascending(data, w, lo, hi, flip)[k]| == w.width
  {
    forall k | 0 <= k < hi - lo
      ensures |Ascending(data, w, lo, hi, flip)[k]| == w.width
    {
      RowInside(w, lo + k, hi, |data|);
      assert Ascending(data, w, lo, hi, flip)[k] == Row(data, w, lo + k, flip);
    }
  }

  lemma DescendingFull(data: seq<byte>, w: Window, lo: nat, hi: nat, flip: bool)
    requires lo <= hi && RowsInside(w, lo, hi, |data|)
    ensures forall k :: 0 <= k < hi - lo ==> |Descending(data, w, lo, hi, flip)[k]| == w.width
  {
    forall k | 0 <= k < hi - lo
      ensures |Descending(data, w, lo, hi, flip)[k]| == w.width
    {
      RowInside(w, hi - 1 - k, hi, |data|);
      assert Descending(data, w, lo, hi, flip)[k] == Row(data, w, hi - 1 - k, flip);
    }
  }

  /**
   * When every row lies inside, byte `i` of the `k`-th row emitted sits at
   * `k * width + i` of the output.
   */
  lemma {:induction false} FullRowsIndex(rows: seq<seq<byte>>, n: nat, k: nat, i: nat)
    requires forall j :: 0 <= j < |rows| ==> |rows[j]| == n
    requires k < |rows| && i < n
    ensures k * n + i < |Flatten(rows)| && Flatten(rows)[k * n + i] == rows[k][i]
  {
    FlattenUniform(rows[..k], n);
    FlattenIndex(rows, k, i);
  }

  // ---------------------------------------------------------------------
  // Planes

  /** The luma plane: rows of `width` bytes from offset 0, `offset` bytes into each row. */
  function LumaWindow(d: Dims, offset: nat, width: nat): Window
  {
    Window(0, d.width, offset, width)
  }

  /** Chroma plane `plane` (0 for U, 1 for V): after the luma plane and `plane` quarter planes, rows of half the width. */
  function ChromaWindow(d: Dims, plane: nat, offset: nat, width: nat): Window
  {
    var lumaSize := d.width * d.height;
    Window(lumaSize + plane * (lumaSize / 4), d.width / 2, offset, width)
  }

  /** Rows `lo` to `hi - 1` of the first `n` chroma planes, in ascending or descending order. */
  function ChromaRows(data: seq<byte>, d: Dims, n: nat, offset: nat, width: nat, lo: nat, hi: nat, flip: bool, down: bool): seq<byte>
    requires lo <= hi
  {
    if n == 0 then []
    else
      var w := ChromaWindow(d, n - 1, offset, width);
      ChromaRows(data, d, n - 1, offset, width, lo, hi, flip, down)
        + (if down then RowsDown(data, w, lo, hi, flip) else RowsUp(data, w, lo, hi, flip))
  }

  /** Every luma row of the estimated frame lies inside it. */
  lemma LumaInside(frame: seq<byte>, d: Dims)
    requires d.height * d.width <= |frame|
    ensures RowsInside(LumaWindow(d, 0, d.width), 0, d.height, |frame|)
  {
    if 0 < d.height {
      LastRowEnd(d.height, d.width);
    }
  }

  /** Byte `i` of luma row `y`, read through a window `offset` bytes into each row. */
  lemma LumaRowByte(frame: seq<byte>, d: Dims, offset: nat, width: nat, y: nat, flip: bool, i: nat)
    requires d.height * d.width <= |frame| && offset + width <= d.width
    requires y < d.height && i < width
    ensures 0 <= y * d.width && y * d.width + offset + width <= |frame|
    ensures |Row(frame, LumaWindow(d, offset, width), y, flip)| == width
    ensures Row(frame, LumaWindow(d, offset, width), y, flip)[i]
      == if flip then frame[y * d.width + offset + width - 1 - i] else frame[y * d.width + offset + i]
  {
    var w := LumaWindow(d, offset, width);
    MulMonotone(0, y, d.width);
    MulMonotone(y, d.height - 1, d.width);
    LastRowEnd(d.height, d.width);
    assert RowStart(w, y) == y * d.width + offset;
    RowBytes(frame, w, y, flip, i);
  }

  lemma LastRowEnd(rows: nat, width: nat)
    requires rows > 0
    ensures (rows - 1) * width + width == rows * width
  {
  }

  // ---------------------------------------------------------------------
  // Flips

  /**
   * `apply_hflip_filter`: every luma row reversed, then every row of U and
   * of V reversed, in row order; rows outside the frame are skipped.
   */
  function Hflip(frame: seq<byte>): (r: Result<seq<byte>, FilterError>)
    ensures |frame| == 0 ==> r == Ok([])
    ensures r.Err? <==> |frame| == 1
  {
    if |frame| == 0 then Ok([])
    else
      match Estimate(|frame|)
      case Err(e) => Err(e)
      case Ok(d) => Ok(MirroredPlanes(frame, d))
  }

  function MirroredPlanes(frame: seq<byte>, d: Dims): seq<byte>
  {
    RowsUp(frame, LumaWindow(d, 0, d.width), 0, d.height, true)
      + ChromaRows(frame, d, 2, 0, d.width / 2, 0, d.height / 2, true, false)
  }

  /**
   * `apply_vflip_filter`: the luma rows from the last to the first, then the
   * U and V rows likewise, each row unchanged.
   */
  function Vflip(frame: seq<byte>): (r: Result<seq<byte>, FilterError>)
    ensures |frame| == 0 ==> r == Ok([])
    ensures r.Err? <==> |frame| == 1
  {
    if |frame| == 0 then Ok([])
    else
      match Estimate(|frame|)
      case Err(e) => Err(e)
      case Ok(d) => Ok(UpsideDownPlanes(frame, d))
  }

  function UpsideDownPlanes(frame: seq<byte>, d: Dims): seq<byte>
  {
    RowsDown(frame, LumaWindow(d, 0, d.width), 0, d.height, false)
      + ChromaRows(frame, d, 2, 0, d.width / 2, 0, d.height / 2, false, true)
  }

  method ApplyHflip(frame: seq<byte>) returns (r: Result<seq<byte>, FilterError>)
    ensures r == Hflip(frame)
  {
    if |frame| < 1 {
      return Ok(frame);
    }
    var estimate := Estimate(|frame|);
    if estimate.Err? {
      return Err(estimate.error);
    }
    var d := estimate.value;
    ghost var luma := RowsUp(frame, LumaWindow(d, 0, d.width), 0, d.height, true);
    var out := AppendRowsUp(frame, LumaWindow(d, 0, d.width), 0, d.height, true, []);
    assert [] + luma == luma;
    for plane := 0 to 2
      invariant out == luma + ChromaRows(frame, d, plane, 0, d.width / 2, 0, d.height / 2, true, false)
    {
      Associative(luma, ChromaRows(frame, d, plane, 0, d.width / 2, 0, d.height / 2, true, false),
                  RowsUp(frame, ChromaWindow(d, plane, 0, d.width / 2), 0, d.height / 2, true));
      out := AppendRowsUp(frame, ChromaWindow(d, plane, 0, d.width / 2), 0, d.height / 2, true, out);
    }
    assert out == MirroredPlanes(frame, d);
    return Ok(out);
  }

  method ApplyVflip(frame: seq<byte>) returns (r: Result<seq<byte>, FilterError>)
    ensures r == Vflip(frame)
  {
    if |frame| < 1 {
      return Ok(frame);
    }
    var estimate := Estimate(|frame|);
    if estimate.Err? {
      return Err(estimate.error);
    }
    var d := estimate.value;
    ghost var luma := RowsDown(frame, LumaWindow(d, 0, d.width), 0, d.height, false);
    var out := AppendRowsDown(frame, LumaWindow(d, 0, d.width), 0, d.height, []);
    assert [] + luma == luma;
    for plane := 0 to 2
      invariant out == luma + ChromaRows(frame, d, plane, 0, d.width / 2, 0, d.height / 2, false, true)
    {
      Associative(luma, ChromaRows(frame, d, plane, 0, d.width / 2, 0, d.height / 2, false, true),
                  RowsDown(frame, ChromaWindow(d, plane, 0, d.width / 2), 0, d.height / 2, false));
      out := AppendRowsDown(frame, ChromaWindow(d, plane, 0, d.width / 2), 0, d.height / 2, out);
    }
    assert out == UpsideDownPlanes(frame, d);
    return Ok(out);
  }

  /**
   * The horizontal flip mirrors each luma row: byte `x` of row `y` of the
   * output is byte `width - 1 - x` of row `y` of the input.
   */
  lemma HflipMirrorsLuma(frame: seq<byte>, d: Dims, out: seq<byte>, y: nat, x: nat)
    requires Estimate(|frame|) == Ok(d) && Hflip(frame) == Ok(out)
    requires y < d.height && x < d.width
    ensures 0 <= y * d.width
    ensures y * d.width + x < |out| && y * d.width + d.width - 1 - x < |frame|
    ensures out[y * d.width + x] == frame[y * d.width + d.width - 1 - x]
  {
    LumaFits(|frame|, d);
    MirroredLuma(frame, d, out, y, x);
  }

  lemma MirroredLuma(frame: seq<byte>, d: Dims, out: seq<byte>, y: nat, x: nat)
    requires d.height * d.width <= |frame| && out == MirroredPlanes(frame, d)
    requires y < d.height && x < d.width
    ensures 0 <= y * d.width
    ensures y * d.width + x < |out| && y * d.width + d.width - 1 - x < |frame|
    ensures out[y * d.width + x] == frame[y * d.width + d.width - 1 - x]
  {
    var luma := RowsUp(frame, LumaWindow(d, 0, d.width), 0, d.height, true);
    var chroma := ChromaRows(frame, d, 2, 0, d.width / 2, 0, d.height / 2, true, false);
    MirroredLumaIndex(frame, d, y, x);
    IndexInPrefix(luma, chroma, y * d.width + x);
  }

  /** The mirrored luma plane alone: byte `x` of row `y` comes from byte `width - 1 - x` of input row `y`. */
  lemma MirroredLumaIndex(frame: seq<byte>, d: Dims, y: nat, x: nat)
    requires d.height * d.width <= |frame| && y < d.height && x < d.width
    ensures 0 <= y * d.width && y * d.width + d.width - 1 - x < |frame|
    ensures y * d.width + x < |RowsUp(frame, LumaWindow(d, 0, d.width), 0, d.height, true)|
    ensures RowsUp(frame, LumaWindow(d, 0, d.width), 0, d.height, true)[y * d.width + x]
      == frame[y * d.width + d.width - 1 - x]
  {
    var w := LumaWindow(d, 0, d.width);
    var rows := Ascending(frame, w, 0, d.height, true);
    MulMonotone(0, y, d.width);
    assert y * d.width + x < |Flatten(rows)| && Flatten(rows)[y * d.width + x] == rows[y][x] by {
      LumaInside(frame, d);
      AscendingFull(frame, w, 0, d.height, true);
      FullRowsIndex(rows, d.width, y, x);
    }
    MirroredRowByte(frame, d, y, x);
  }

  /** Byte `x` of mirrored luma row `y` is byte `width - 1 - x` of input row `y`. */
  lemma MirroredRowByte(frame: seq<byte>, d: Dims, y: nat, x: nat)
    requires d.height * d.width <= |frame| && y < d.height && x < d.width
    ensures 0 <= y * d.width && y * d.width + d.width - 1 - x < |frame|
    ensures |Ascending(frame, LumaWindow(d, 0, d.width), 0, d.height, true)[y]| == d.width
    ensures Ascending(frame, LumaWindow(d, 0, d.width), 0, d.height, true)[y][x]
      == frame[y * d.width + d.width - 1 - x]
  {
    var w := LumaWindow(d, 0, d.width);
    assert Ascending(frame, w, 0, d.height, true)[y] == Row(frame, w, y, true);
    LumaRowByte(frame, d, 0, d.width, y, true, x);
    assert y * d.width + 0 + d.width - 1 - x == y * d.width + d.width - 1 - x;
  }

  /**
   * The vertical flip turns the luma plane upside down: byte `x` of output
   * row `k` is byte `x` of input row `height - 1 - k`.
   */
  lemma VflipTurnsLumaOver(frame: seq<byte>, d: Dims, out: seq<byte>, k: nat, source: nat, x: nat)
    requires Estimate(|frame|) == Ok(d) && Vflip(frame) == Ok(out)
    requires k + source == d.height - 1 && x < d.width
    ensures 0 <= k * d.width && 0 <= source * d.width
    ensures k * d.width + x < |out| && source * d.width + x < |frame|
    ensures out[k * d.width + x] == frame[source * d.width + x]
  {
    LumaFits(|frame|, d);
    UpsideDownLuma(frame, d, out, k, source, x);
  }

  lemma UpsideDownLuma(frame: seq<byte>, d: Dims, out: seq<byte>, k: nat, source: nat, x: nat)
    requires d.height * d.width <= |frame| && out == UpsideDownPlanes(frame, d)
    requires k + source == d.height - 1 && x < d.width
    ensures 0 <= k * d.width && 0 <= source * d.width
    ensures k * d.width + x < |out| && source * d.width + x < |frame|
    ensures out[k * d.width + x] == frame[source * d.width + x]
  {
    var w := LumaWindow(d, 0, d.width);
    var rows := Descending(frame, w, 0, d.height, false);
    MulMonotone(0, k, d.width);
    MulMonotone(0, source, d.width);
    assert Flatten(rows)[k * d.width + x] == rows[k][x] by {
      LumaInside(frame, d);
      DescendingFull(frame, w, 0, d.height, false);
      FullRowsIndex(rows, d.width, k, x);
    }
    assert rows[k] == Row(frame, w, source, false);
    LumaRowByte(frame, d, 0, d.width, source, false, x);
    assert source * d.width + 0 + x == source * d.width + x;
  }

  // ---------------------------------------------------------------------
  // Crop

  /**
   * `apply_crop_filter`: fails when the rectangle reaches past the
   * estimated width or height; otherwise the luma rows of the rectangle,
   * then the U and V rows of the rectangle halved in every field.
   */
  function CropFrame(frame: seq<byte>, width: int, height: int, x: int, y: int): (r: Result<seq<byte>, FilterError>)
    ensures |frame| == 0 ==> r == Ok([])
    ensures |frame| == 1 ==> r == Err(DivisionByZero)
    ensures |frame| >= 2 ==>
      (r == Err(CropOutsideFrame)
       <==> x + width > Estimate(|frame|).value.width || y + height > Estimate(|frame|).value.height)
  {
    if |frame| == 0 then Ok([])
    else
      match Estimate(|frame|)
      case Err(e) => Err(e)
      case Ok(d) =>
        if x + width > d.width || y + height > d.height then Err(CropOutsideFrame)
        else if width < 0 || height < 0 || x < 0 || y < 0 then Err(NegativeCropField)
        else Ok(CroppedPlanes(frame, d, width, height, x, y))
  }

  function CroppedPlanes(frame: seq<byte>, d: Dims, width: nat, height: nat, x: nat, y: nat): seq<byte>
  {
    RowsUp(frame, LumaWindow(d, x, width), y, y + height, false)
      + ChromaRows(frame, d, 2, x / 2, width / 2, y / 2, y / 2 + height / 2, false, false)
  }

  method ApplyCrop(frame: seq<byte>, width: int, height: int, x: int, y: int) returns (r: Result<seq<byte>, FilterError>)
    ensures r == CropFrame(frame, width, height, x, y)
  {
    if |frame| < 1 {
      return Ok(frame);
    }
    var estimate := Estimate(|frame|);
    if estimate.Err? {
      return Err(estimate.error);
    }
    var d := estimate.value;
    if x + width > d.width || y + height > d.height {
      return Err(CropOutsideFrame);
    }
    if width < 0 || height < 0 || x < 0 || y < 0 {
      return Err(NegativeCropField);
    }
    ghost var luma := RowsUp(frame, LumaWindow(d, x, width), y, y + height, false);
    var out := AppendRowsUp(frame, LumaWindow(d, x, width), y, y + height, false, []);
    assert [] + luma == luma;
    for plane := 0 to 2
      invariant out == luma + ChromaRows(frame, d, plane, x / 2, width / 2, y / 2, y / 2 + height / 2, false, false)
    {
      Associative(luma, ChromaRows(frame, d, plane, x / 2, width / 2, y / 2, y / 2 + height / 2, false, false),
                  RowsUp(frame, ChromaWindow(d, plane, x / 2, width / 2), y / 2, y / 2 + height / 2, false));
      out := AppendRowsUp(frame, ChromaWindow(d, plane, x / 2, width / 2), y / 2, y / 2 + height / 2, false, out);
    }
    assert out == CroppedPlanes(frame, d, width, height, x, y);
    return Ok(out);
  }

  /**
   * A crop inside the frame copies its luma rectangle: byte `j` of row `i`
   * of the output is byte `x + j` of input row `row == y + i`.
   */
  lemma CropCopiesLumaRectangle(frame: seq<byte>, d: Dims, width: nat, height: nat, x: nat, y: nat, out: seq<byte>, i: nat, row: nat, j: nat)
    requires Estimate(|frame|) == Ok(d) && CropFrame(frame, width, height, x, y) == Ok(out)
    requires i < height && row == y + i && j < width
    ensures 0 <= i * width && 0 <= row * d.width
    ensures i * width + j < |out| && row * d.width + x + j < |frame|
    ensures out[i * width + j] == frame[row * d.width + x + j]
  {
    LumaFits(|frame|, d);
    CroppedLuma(frame, d, width, height, x, y, out, i, row, j);
  }

  lemma CroppedLuma(frame: seq<byte>, d: Dims, width: nat, height: nat, x: nat, y: nat, out: seq<byte>, i: nat, row: nat, j: nat)
    requires d.height * d.width <= |frame|
    requires x + width <= d.width && y + height <= d.height
    requires out == CroppedPlanes(frame, d, width, height, x, y)
    requires i < height && row == y + i && j < width
    ensures 0 <= i * width && 0 <= row * d.width
    ensures i * width + j < |out| && row * d.width + x + j < |frame|
    ensures out[i * width + j] == frame[row * d.width + x + j]
  {
    var w := LumaWindow(d, x, width);
    var rows := Ascending(frame, w, y, y + height, false);
    MulMonotone(0, i, width);
    MulMonotone(0, row, d.width);
    assert RowsInside(w, y, y + height, |frame|) by {
      MulMonotone(y + height - 1, d.height - 1, d.width);
      LumaInside(frame, d);
    }
    assert Flatten(rows)[i * width + j] == rows[i][j] by {
      AscendingFull(frame, w, y, y + height, false);
      FullRowsIndex(rows, width, i, j);
    }
    assert rows[i] == Row(frame, w, row, false);
    LumaRowByte(frame, d, x, width, row, false, j);
  }

  // ---------------------------------------------------------------------
  // Brightness

  /** A value wrapped to i32 as two's-complement addition wraps in a release build. */
  function WrapI32(v: int): (r: int)
    ensures I32_MIN <= r <= I32_MAX
    ensures I32_MIN <= v <= I32_MAX ==> r == v
  {
    (v - I32_MIN) % 0x1_0000_0000 + I32_MIN
  }

  function Clamp(v: int): (r: byte)
    ensures 0 <= v <= 255 ==> r == v
  {
    if v < 0 then 0 else if v > 255 then 255 else v
  }

  /** One adjusted byte: the i32 sum, clamped to 0..255. */
  function Brightened(b: byte, adjustment: int): byte
  {
    Clamp(WrapI32(b + adjustment))
  }

  /** `apply_brightness_filter`: each byte adjusted and clamped, in order. */
  method ApplyBrightness(frame: seq<byte>, adjustment: int) returns (out: seq<byte>)
    ensures |out| == |frame|
    ensures forall i :: 0 <= i < |frame| ==> out[i] == Brightened(frame[i], adjustment)
  {
    out := [];
    for k := 0 to |frame|
      invariant |out| == k
      invariant forall i :: 0 <= i < k ==> out[i] == Brightened(frame[i], adjustment)
    {
      var adjusted := Clamp(WrapI32(frame[k] + adjustment));
      out := out + [adjusted];
    }
  }

  /** A zero adjustment gives back every byte. */
  lemma BrightnessZeroIsIdentity(b: byte)
    ensures Brightened(b, 0) == b
  {
  }

  /** Adjustments in the same direction compose: two steps equal their sum while no i32 wraps. */
  lemma BrightnessComposes(b: byte, a1: int, a2: int)
    requires (0 <= a1 && 0 <= a2 && a1 + a2 <= I32_MAX - 255) || (a1 <= 0 && a2 <= 0 && I32_MIN <= a1 + a2)
    ensures Brightened(Brightened(b, a1), a2) == Brightened(b, a1 + a2)
  {
  }

  /** Near the i32 maximum the sum wraps around, so a bright pixel turns black. */
  lemma BrightnessWrapsNearI32Max()
    ensures Brightened(255, I32_MAX) == 0
    ensures Brightened(0, I32_MAX) == 255
  {
  }

  // ---------------------------------------------------------------------
  // Dispatch

  /**
   * `apply_scale_filter`: an empty frame comes back unchanged. Otherwise the
   * target pixel count is the i32 product of the target sides; when it is
   * negative, `Vec::with_capacity` is asked for more than it can give and
   * the filter aborts. The floating-point scaling of every other input is
   * the parameter `scaled`, which is None where that aborts too.
   */
  function ScaleOutput(frame: seq<byte>, width: int, height: int, scaled: (seq<byte>, int, int) -> Option<seq<byte>>): (r: Result<seq<byte>, FilterError>)
    ensures |frame| == 0 ==> r == Ok(frame)
    ensures r.Err? ==> 0 < |frame| && r.error == ScaleAborted
    ensures 0 < |frame| && I32_MIN <= width * height < 0 ==> r == Err(ScaleAborted)
    ensures 0 < |frame| && 0 <= WrapI32(width * height) ==> (r.Ok? <==> scaled(frame, width, height).Some?)
  {
    if |frame| == 0 then Ok(frame)
    else if WrapI32(width * height) < 0 then Err(ScaleAborted)
    else match scaled(frame, width, height)
      case None => Err(ScaleAborted)
      case Some(out) => Ok(out)
  }

  /** `scale=W:H` with two i32 sides selects the scale filter with those sides. */
  lemma ChooseScale(width: int, height: int)
    requires I32_MIN <= width <= I32_MAX && I32_MIN <= height <= I32_MAX
    ensures ChooseFilter("scale=" + IntToString(width) + ":" + IntToString(height)) == Scale(width, height)
  {
    var params := IntToString(width) + ":" + IntToString(height);
    assert "scale=" + IntToString(width) + ":" + IntToString(height) == "scale=" + params;
    ScaleParams(params);
    ParsePair(width, height);
    ChooseScaleOf("scale=" + params, params);
  }

  lemma ScaleParams(params: string)
    requires '=' !in params
    ensures ParseFilter("scale=" + params) == ("scale", Some(params))
  {
    assert "scale=" + params == "scale" + "=" + params;
    FilterParamsEndAtSecondSign("scale", params, "");
    AsciiLowerOfLower("scale");
  }

  lemma ParsePair(width: int, height: int)
    requires I32_MIN <= width <= I32_MAX && I32_MIN <= height <= I32_MAX
    ensures Pair(IntToString(width) + ":" + IntToString(height)) == Some((width, height))
  {
    assert IntToString(width) + ":" + IntToString(height) == IntToString(width) + [':'] + IntToString(height);
    SplitPair(IntToString(width), IntToString(height), ':');
    ParseIntToString(width);
    ParseIntToString(height);
  }

  lemma ChooseScaleOf(filterString: string, params: string)
    requires ParseFilter(filterString) == ("scale", Some(params)) && Pair(params).Some?
    ensures ChooseFilter(filterString) == Scale(Pair(params).value.0, Pair(params).value.1)
  {
  }

  /**
   * `scale=W:H` with a negative target pixel count aborts on every
   * non-empty frame, whatever the floating-point scaling would give.
   */
  lemma ScaleToNegativeTargetAborts(frame: seq<byte>, width: int, height: int, scaled: (seq<byte>, int, int) -> Option<seq<byte>>,
                                    contrasted: (seq<byte>, string) -> Option<seq<byte>>)
    requires 0 < |frame| && I32_MIN <= width <= I32_MAX && I32_MIN <= height <= I32_MAX
    requires I32_MIN <= width * height < 0
    ensures FilterOutput(frame, ChooseFilter("scale=" + IntToString(width) + ":" + IntToString(height)), scaled, contrasted)
            == Err(ScaleAborted)
  {
    ChooseScale(width, height);
  }

  /**
   * The output for each choice. Scale and contrast are the floating-point
   * filters: their results come from the parameters `scaled` and
   * `contrasted`, where `contrasted` is None when the text does not parse
   * as f32.
   */
  function FilterOutput(frame: seq<byte>, f: Filter, scaled: (seq<byte>, int, int) -> Option<seq<byte>>,
                        contrasted: (seq<byte>, string) -> Option<seq<byte>>): Result<seq<byte>, FilterError>
  {
    match f
    case Copy => Ok(frame)
    case Scale(w, h) => ScaleOutput(frame, w, h, scaled)
    case Crop(w, h, x, y) => CropFrame(frame, w, h, x, y)
    case HFlip => Hflip(frame)
    case VFlip => Vflip(frame)
    case Brightness(a) => Ok(seq(|frame|, i requires 0 <= i < |frame| => Brightened(frame[i], a)))
    case Contrast(p) => Ok(UnwrapOr(contrasted(frame, p), frame))
  }

  /** `apply_video_filter`: parse the filter string and run the chosen filter. */
  method ApplyVideoFilter(frame: seq<byte>, filterString: string, scaled: (seq<byte>, int, int) -> Option<seq<byte>>,
                          contrasted: (seq<byte>, string) -> Option<seq<byte>>) returns (r: Result<seq<byte>, FilterError>)
    ensures r == FilterOutput(frame, ChooseFilter(filterString), scaled, contrasted)
  {
    var f := ChooseFilter(filterString);
    match f {
      case Copy => r := Ok(frame);
      case Scale(w, h) => r := ScaleOutput(frame, w, h, scaled);
      case Crop(w, h, x, y) => r := ApplyCrop(frame, w, h, x, y);
      case HFlip => r := ApplyHflip(frame);
      case VFlip => r := ApplyVflip(frame);
      case Brightness(a) =>
        var out := ApplyBrightness(frame, a);
        r := Ok(out);
        assert out == FilterOutput(frame, f, scaled, contrasted).value;
      case Contrast(p) => r := Ok(UnwrapOr(contrasted(frame, p), frame));
    }
  }
}
