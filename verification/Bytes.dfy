/** Octets, little-endian fields and the image a reader seeks in. */
module Bytes {

  type byte = x: int | 0 <= x < 0x100
  type U16 = x: int | 0 <= x < 0x1_0000
  type U32 = x: int | 0 <= x < 0x1_0000_0000
  type U64 = x: int | 0 <= x < 0x1_0000_0000_0000_0000

  const U32_MAX: U32 := 0xFFFF_FFFF

  datatype Option<+T> = None | Some(value: T)

  /** The two ways a read can go wrong: the image ends too early, or an address sum leaves `u32`. */
  datatype Error = UnexpectedEof | AddOverflow

  datatype Result<+T> = Ok(value: T) | Err(error: Error)

  function Min(a: int, b: int): int {
    if a <= b then a else b
  }

  function Max(a: int, b: int): int {
    if a <= b then b else a
  }

  function DivCeil(n: nat, d: nat): nat
    requires d > 0
  {
    (n + d - 1) / d
  }

  /** Little-endian fields; a field that does not fit reads as 0. */
  function Le16(s: seq<byte>, off: nat): U16 {
    if off + 2 <= |s| then s[off] as int + 0x100 * s[off + 1] as int else 0
  }

  function Le32(s: seq<byte>, off: nat): U32 {
    if off + 4 <= |s| then Le16(s, off) as int + 0x1_0000 * Le16(s, off + 2) as int else 0
  }

  function Le64(s: seq<byte>, off: nat): U64 {
    if off + 8 <= |s| then Le32(s, off) as int + 0x1_0000_0000 * Le32(s, off + 4) as int else 0
  }

  /** Encoders of the same fields. */
  function Put16(v: U16): (s: seq<byte>)
    ensures |s| == 2 && Le16(s, 0) == v
  {
    [v % 0x100, v / 0x100]
  }

  function Put32(v: U32): (s: seq<byte>)
    ensures |s| == 4 && Le32(s, 0) == v
  {
    Put16(v % 0x1_0000) + Put16(v / 0x1_0000)
  }

  function Put64(v: U64): (s: seq<byte>)
    ensures |s| == 8 && Le64(s, 0) == v
  {
    Put32(v % 0x1_0000_0000) + Put32(v / 0x1_0000_0000)
  }

  function Fill(n: nat): (z: seq<byte>)
    ensures |z| == n && forall i :: 0 <= i < n ==> z[i] == 0
  {
    seq(n, _ => 0)
  }

  /** A field depends only on the bytes it covers. */
  lemma SameFields(s: seq<byte>, a: nat, t: seq<byte>, b: nat, n: nat, i: nat)
    requires a + n <= |s| && b + n <= |t| && s[a..a + n] == t[b..b + n]
    ensures i < n ==> s[a + i] == t[b + i]
    ensures i + 2 <= n ==> Le16(s, a + i) == Le16(t, b + i)
    ensures i + 4 <= n ==> Le32(s, a + i) == Le32(t, b + i)
    ensures i + 8 <= n ==> Le64(s, a + i) == Le64(t, b + i)
  {
    forall j: nat | j < n
      ensures s[a..][j] == t[b..][j]
    {
      assert s[a..a + n][j] == t[b..b + n][j];
    }
  }

  // ----- the image -----

  predicate IsBlockSize(bs: nat) {
    bs == 512 || bs == 1024 || bs == 2048 || bs == 4096
  }

  /** Seek to `pos` and read exactly `n` bytes: fails past the end of the image. */
  function ReadExact(image: seq<byte>, pos: nat, n: nat): (r: Result<seq<byte>>)
    ensures r.Ok? <==> pos + n <= |image|
    ensures r.Ok? ==> r.value == image[pos..pos + n]
  {
    if pos + n <= |image| then Ok(image[pos..pos + n]) else Err(UnexpectedEof)
  }

  /** One logical block. */
  function ReadBlock(image: seq<byte>, bs: nat, lba: nat): (r: Result<seq<byte>>)
    ensures r.Ok? <==> lba * bs + bs <= |image|
    ensures r.Ok? ==> |r.value| == bs && r.value == image[lba * bs..lba * bs + bs]
  {
    ReadExact(image, lba * bs, bs)
  }

  /** Fields are stored low byte first. */
  lemma LittleEndian(s: seq<byte>, off: nat)
    ensures off + 2 <= |s| ==> Le16(s, off) == s[off] as int + 0x100 * s[off + 1] as int
    ensures off + 4 <= |s| ==>
      Le32(s, off) == s[off] as int + 0x100 * s[off + 1] as int + 0x1_0000 * s[off + 2] as int +
        0x100_0000 * s[off + 3] as int
    ensures off + 8 <= |s| ==> Le64(s, off) == Le32(s, off) as int + 0x1_0000_0000 * Le32(s, off + 4) as int
  {
  }
}
