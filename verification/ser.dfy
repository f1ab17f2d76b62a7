/** Fixed-width serialisation primitives used by the chain types.

    The chain types are written to and read from a byte stream through the
    `ser` module of the node's core crate, which is not part of this model.
    Here its writer is a growing byte buffer, its reader a byte sequence with
    a cursor, and its integer primitives are big-endian fixed-width encoders
    whose decoders fail when the stream ends inside a field.
 */
module Ser {

  type byte = x: int | 0 <= x < 0x100
  type uint32 = x: int | 0 <= x < 0x1_0000_0000
  type uint64 = x: int | 0 <= x < 0x1_0000_0000_0000_0000

  const U32_BOUND: nat := 0x1_0000_0000
  const U64_MAX: nat := 0xFFFF_FFFF_FFFF_FFFF

  /** The outcome of a read: a value, or the error that stopped it. */
  datatype Result<+T, +E> = Ok(value: T) | Err(error: E)

  /** The one failure a reader of a finite buffer reports: the stream ended
      before the field being read was complete. */
  datatype Error = UnexpectedEof

  /** The value of an `n as u32` cast on a length: the low 32 bits. */
  function AsU32(n: nat): (r: uint32)
    ensures r <= n
    ensures n < U32_BOUND ==> r == n
    ensures r < n ==> U32_BOUND <= n
  {
    n % U32_BOUND
  }

  function Pow256(n: nat): (p: nat)
    ensures p > 0
  {
    if n == 0 then 1 else 256 * Pow256(n - 1)
  }

  lemma PowWidths()
    ensures Pow256(4) == U32_BOUND
    ensures Pow256(8) == U64_MAX + 1
  {
    assert Pow256(2) == 0x1_0000;
    assert Pow256(4) == 0x1_0000 * 0x1_0000;
    assert Pow256(8) == Pow256(4) * Pow256(4) by {
      assert Pow256(8) == 256 * 256 * 256 * 256 * Pow256(4);
    }
  }

  /** `x` as `n` bytes, most significant first. */
  function ToBe(x: nat, n: nat): (r: seq<byte>)
    requires x < Pow256(n)
    ensures |r| == n
  {
    if n == 0 then [] else ToBe(x / 256, n - 1) + [x % 256]
  }

  /** The number whose big-endian bytes are `b`. */
  function FromBe(b: seq<byte>): (x: nat)
    ensures x < Pow256(|b|)
  {
    if b == [] then 0
    else
      var hi := FromBe(b[..|b| - 1]);
      assert hi * 256 <= (Pow256(|b| - 1) - 1) * 256;
      hi * 256 + b[|b| - 1]
  }

  lemma {:induction false} FromBeToBe(x: nat, n: nat)
    requires x < Pow256(n)
    ensures FromBe(ToBe(x, n)) == x
  {
    if n > 0 {
      var r := ToBe(x, n);
      assert r[..n - 1] == ToBe(x / 256, n - 1);
      FromBeToBe(x / 256, n - 1);
    }
  }

  /** The four bytes `write_u32` emits. */
  function EncodeU32(x: uint32): (r: seq<byte>)
    ensures |r| == 4 && FromBe(r) == x
  {
    PowWidths();
    FromBeToBe(x, 4);
    ToBe(x, 4)
  }

  /** The eight bytes `write_u64` emits. */
  function EncodeU64(x: uint64): (r: seq<byte>)
    ensures |r| == 8 && FromBe(r) == x
  {
    PowWidths();
    FromBeToBe(x, 8);
    ToBe(x, 8)
  }

  /** `read_u32` on `data` with the cursor at `pos`: the value and the new
      cursor, or a failure when fewer than four bytes are left. */
  function DecodeU32(data: seq<byte>, pos: nat): (r: Result<(uint32, nat), Error>)
    ensures r.Ok? <==> pos + 4 <= |data|
    ensures r.Ok? ==> r.value.1 == pos + 4
  {
    if pos + 4 <= |data| then
      PowWidths();
      Ok((FromBe(data[pos..pos + 4]), pos + 4))
    else
      Err(UnexpectedEof)
  }

  /** `read_u64` on `data` with the cursor at `pos`. */
  function DecodeU64(data: seq<byte>, pos: nat): (r: Result<(uint64, nat), Error>)
    ensures r.Ok? <==> pos + 8 <= |data|
    ensures r.Ok? ==> r.value.1 == pos + 8
  {
    if pos + 8 <= |data| then
      PowWidths();
      Ok((FromBe(data[pos..pos + 8]), pos + 8))
    else
      Err(UnexpectedEof)
  }

  /** Reading `n` raw bytes (as a fixed-size hash is read). */
  function DecodeFixed(data: seq<byte>, pos: nat, n: nat): (r: Result<(seq<byte>, nat), Error>)
    ensures r.Ok? <==> pos + n <= |data|
    ensures r.Ok? ==> |r.value.0| == n && r.value.1 == pos + n
  {
    if pos + n <= |data| then Ok((data[pos..pos + n], pos + n)) else Err(UnexpectedEof)
  }

  /** The bytes between `pre` and `post` are the field that is read. */
  lemma Framed(pre: seq<byte>, field: seq<byte>, post: seq<byte>)
    ensures (pre + field + post)[|pre|..|pre| + |field|] == field
  {
  }

  /** A slice of the second part of a concatenation. */
  lemma SliceOfSuffix(a: seq<byte>, b: seq<byte>, i: nat, j: nat)
    requires i <= j <= |b|
    ensures (a + b)[|a| + i..|a| + j] == b[i..j]
  {
  }

  /** Where `data` holds the first `k` bytes of `enc` from `pos` on, every
      slice of those bytes is the matching slice of `enc`. */
  lemma SubSlice(data: seq<byte>, pos: nat, enc: seq<byte>, k: nat, i: nat, j: nat)
    requires pos + k <= |data| && k <= |enc| && i <= j <= k
    requires data[pos..pos + k] == enc[..k]
    ensures data[pos + i..pos + j] == enc[i..j]
  {
    forall n | 0 <= n < j - i
      ensures data[pos + i..pos + j][n] == enc[i..j][n]
    {
      assert data[pos + i + n] == data[pos..pos + k][i + n];
    }
  }

  lemma DecodeU32At(data: seq<byte>, pos: nat, x: uint32)
    requires pos + 4 <= |data| && data[pos..pos + 4] == EncodeU32(x)
    ensures DecodeU32(data, pos) == Ok((x, pos + 4))
  {
  }

  lemma DecodeU64At(data: seq<byte>, pos: nat, x: uint64)
    requires pos + 8 <= |data| && data[pos..pos + 8] == EncodeU64(x)
    ensures DecodeU64(data, pos) == Ok((x, pos + 8))
  {
  }

  /** Reading back what `write_u32` wrote, wherever it sits in a stream. */
  lemma DecodeU32Encoded(pre: seq<byte>, x: uint32, post: seq<byte>)
    ensures DecodeU32(pre + EncodeU32(x) + post, |pre|) == Ok((x, |pre| + 4))
  {
    Framed(pre, EncodeU32(x), post);
  }

  /** Reading back what `write_u64` wrote, wherever it sits in a stream. */
  lemma DecodeU64Encoded(pre: seq<byte>, x: uint64, post: seq<byte>)
    ensures DecodeU64(pre + EncodeU64(x) + post, |pre|) == Ok((x, |pre| + 8))
  {
    Framed(pre, EncodeU64(x), post);
  }

  /** A reader's result `r` and new cursor `newPos` are those the decoding
      function `spec` describes; on failure only the error is fixed. */
  ghost predicate Follows<T>(r: Result<T, Error>, newPos: nat, spec: Result<(T, nat), Error>)
  {
    match spec
    case Ok((v, next)) => r == Ok(v) && newPos == next
    case Err(e) => r == Err(e)
  }

  /** A writer appending to an in-memory byte buffer. */
  class Writer {
    var buf: seq<byte>

    constructor ()
      ensures buf == []
    {
      buf := [];
    }

    method WriteU32(x: uint32)
      modifies this
      ensures buf == old(buf) + EncodeU32(x)
    {
      buf := buf + EncodeU32(x);
    }

    method WriteU64(x: uint64)
      modifies this
      ensures buf == old(buf) + EncodeU64(x)
    {
      buf := buf + EncodeU64(x);
    }

    method WriteFixedBytes(b: seq<byte>)
      modifies this
      ensures buf == old(buf) + b
    {
      buf := buf + b;
    }
  }

  /** A reader consuming a byte sequence from a cursor. */
  class Reader {
    const data: seq<byte>
    var pos: nat

    ghost predicate Valid()
      reads this
    {
      pos <= |data|
    }

    constructor (data: seq<byte>)
      ensures this.data == data && pos == 0 && Valid()
    {
      this.data := data;
      pos := 0;
    }

    method ReadU32() returns (r: Result<uint32, Error>)
      requires Valid()
      modifies this
      ensures Valid()
      ensures Follows(r, pos, DecodeU32(data, old(pos)))
      ensures r.Err? ==> pos == old(pos)
    {
      if pos + 4 <= |data| {
        PowWidths();
        r := Ok(FromBe(data[pos..pos + 4]));
        pos := pos + 4;
      } else {
        r := Err(UnexpectedEof);
      }
    }

    method ReadU64() returns (r: Result<uint64, Error>)
      requires Valid()
      modifies this
      ensures Valid()
      ensures Follows(r, pos, DecodeU64(data, old(pos)))
      ensures r.Err? ==> pos == old(pos)
    {
      if pos + 8 <= |data| {
        PowWidths();
        r := Ok(FromBe(data[pos..pos + 8]));
        pos := pos + 8;
      } else {
        r := Err(UnexpectedEof);
      }
    }

    method ReadFixedBytes(n: nat) returns (r: Result<seq<byte>, Error>)
      requires Valid()
      modifies this
      ensures Valid()
      ensures Follows(r, pos, DecodeFixed(data, old(pos), n))
      ensures r.Err? ==> pos == old(pos)
    {
      if pos + n <= |data| {
        r := Ok(data[pos..pos + n]);
        pos := pos + n;
      } else {
        r := Err(UnexpectedEof);
      }
    }
  }
}
