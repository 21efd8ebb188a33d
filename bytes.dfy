/**
 * Bytes, the little-endian integer layouts the containers use, and the
 * byte sink (`std::io::Write`) the writers append to.
 */
module Bytes {

  type byte = b: int | 0 <= b < 0x100

  const U16_LIMIT: int := 0x1_0000
  const U32_LIMIT: int := 0x1_0000_0000
  const U64_LIMIT: int := 0x1_0000_0000_0000_0000

  /** Little-endian bytes of a `u16` (`to_le_bytes`). */
  function LE16(v: int): (r: seq<byte>)
    requires 0 <= v < U16_LIMIT
    ensures |r| == 2
    ensures ReadLE16(r, 0) == v
  {
    [v % 0x100, v / 0x100]
  }

  /** Little-endian bytes of a `u32`. */
  function LE32(v: int): (r: seq<byte>)
    requires 0 <= v < U32_LIMIT
    ensures |r| == 4
    ensures ReadLE32(r, 0) == v
  {
    LE16(v % U16_LIMIT) + LE16(v / U16_LIMIT)
  }

  /** Little-endian bytes of a `u64`. */
  function LE64(v: int): (r: seq<byte>)
    requires 0 <= v < U64_LIMIT
    ensures |r| == 8
    ensures ReadLE32(r, 0) == v % U32_LIMIT && ReadLE32(r, 4) == v / U32_LIMIT
    ensures ReadLE64(r, 0) == v
  {
    LE32(v % U32_LIMIT) + LE32(v / U32_LIMIT)
  }

  /** `u16::from_le_bytes([s[at], s[at + 1]])`. */
  function ReadLE16(s: seq<byte>, at: nat): (v: int)
    requires at + 2 <= |s|
    ensures 0 <= v < U16_LIMIT
  {
    s[at] as int + 0x100 * s[at + 1] as int
  }

  /** `u32::from_le_bytes(s[at..at + 4])`. */
  function ReadLE32(s: seq<byte>, at: nat): (v: int)
    requires at + 4 <= |s|
    ensures 0 <= v < U32_LIMIT
  {
    ReadLE16(s, at) + U16_LIMIT * ReadLE16(s, at + 2)
  }

  /** `u64::from_le_bytes(s[at..at + 8])`. */
  function ReadLE64(s: seq<byte>, at: nat): (v: int)
    requires at + 8 <= |s|
    ensures 0 <= v < U64_LIMIT
  {
    ReadLE32(s, at) + U32_LIMIT * ReadLE32(s, at + 4)
  }

  /** A value that fits a `u32` is unchanged by the wrap-around. */
  lemma FitsU32(v: int)
    requires 0 <= v < U32_LIMIT
    ensures v % U32_LIMIT == v
  {
  }

  /** Quotient and remainder are the only pair that rebuilds `v` with `0 <= r < c`. */
  lemma DivModUnique(v: int, c: int, q: int, r: int)
    requires 0 < c && 0 <= r < c && v == q * c + r
    ensures v / c == q && v % c == r
  {
    var q', r' := v / c, v % c;
    assert v == q' * c + r';
    if q' < q {
      assert (q - q') * c == q * c - q' * c;
      MulAtLeast(q - q', c);
    } else if q < q' {
      assert (q' - q) * c == q' * c - q * c;
      MulAtLeast(q' - q, c);
    }
  }

  lemma MulAtLeast(k: int, c: int)
    requires 1 <= k && 0 < c
    ensures k * c >= c
  {
  }

  /** Concatenation regroups freely. */
  lemma AppendAssoc(a: seq<byte>, b: seq<byte>, c: seq<byte>)
    ensures (a + b) + c == a + (b + c)
  {
  }

  /** Reading a little-endian field only looks at its own bytes. */
  lemma ReadLE32Slice(s: seq<byte>, at: nat, t: seq<byte>, k: nat)
    requires at + 4 <= |s| && k + 4 <= |t|
    requires s[at..at + 4] == t[k..k + 4]
    ensures ReadLE32(s, at) == ReadLE32(t, k)
  {
    assert s[at] == s[at..at + 4][0] == t[k..k + 4][0] == t[k];
    assert s[at + 1] == s[at..at + 4][1] == t[k..k + 4][1] == t[k + 1];
    assert s[at + 2] == s[at..at + 4][2] == t[k..k + 4][2] == t[k + 2];
    assert s[at + 3] == s[at..at + 4][3] == t[k..k + 4][3] == t[k + 3];
  }

  /** The sink the writers append to: it only ever grows at its end. */
  class ByteWriter {
    var written: seq<byte>

    constructor ()
      ensures written == []
    {
      written := [];
    }

    /** `Write::write_all`. */
    method WriteAll(data: seq<byte>)
      modifies this
      ensures written == old(written) + data
    {
      written := written + data;
    }
  }
}
