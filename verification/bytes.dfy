/** Byte buffers as used by Node's `Buffer`: big-endian 32-bit reads and
    writes. A write of a value outside the type's range and a read past the
    end of the buffer both throw a `RangeError`, which is modelled as
    `Failure(OutOfRange)`. */
module Bytes {
  import opened Wrappers

  type byte = b: int | 0 <= b < 256

  const UInt32Limit: int := 0x1_0000_0000
  const Int32Min: int := -0x8000_0000
  const Int32Max: int := 0x7FFF_FFFF

  predicate IsUInt32(n: int) {
    0 <= n < UInt32Limit
  }

  predicate IsInt32(n: int) {
    Int32Min <= n <= Int32Max
  }

  /** The `RangeError` thrown by `Buffer` reads and writes. */
  datatype BufferError = OutOfRange

  /** The four big-endian bytes of an unsigned 32-bit value. */
  function UInt32Bytes(n: int): (r: seq<byte>)
    requires IsUInt32(n)
    ensures |r| == 4
  {
    var low := n / 0x100;
    var high := low / 0x100;
    [high / 0x100, high % 0x100, low % 0x100, n % 0x100]
  }

  /** The unsigned value of four big-endian bytes starting at `offset`. */
  function UInt32At(b: seq<byte>, offset: nat): (n: int)
    requires offset + 4 <= |b|
    ensures IsUInt32(n)
  {
    (b[offset] as int) * 0x100_0000 + (b[offset + 1] as int) * 0x1_0000
    + (b[offset + 2] as int) * 0x100 + (b[offset + 3] as int)
  }

  /** Two's-complement reading of a 32-bit pattern. */
  function ToInt32(u: int): (n: int)
    requires IsUInt32(u)
    ensures IsInt32(n)
  {
    if u > Int32Max then u - UInt32Limit else u
  }

  /** Two's-complement pattern of a signed 32-bit value. */
  function FromInt32(n: int): (u: int)
    requires IsInt32(n)
    ensures IsUInt32(u)
    ensures ToInt32(u) == n
  {
    if n < 0 then n + UInt32Limit else n
  }

  /** `buffer.writeUInt32BE(n)` on a fresh four-byte buffer. */
  function WriteUInt32BE(n: int): (r: Result<seq<byte>, BufferError>)
    ensures r.Success? <==> IsUInt32(n)
    ensures r.Success? ==> |r.value| == 4
  {
    if IsUInt32(n) then Success(UInt32Bytes(n)) else Failure(OutOfRange)
  }

  /** `buffer.writeInt32BE(n)` on a fresh four-byte buffer. */
  function WriteInt32BE(n: int): (r: Result<seq<byte>, BufferError>)
    ensures r.Success? <==> IsInt32(n)
    ensures r.Success? ==> |r.value| == 4
  {
    if IsInt32(n) then Success(UInt32Bytes(FromInt32(n))) else Failure(OutOfRange)
  }

  /** A number with no fractional part. Numbers are modelled as reals:
      JSON only yields finite ones, and floating-point rounding plays no
      part in the 32-bit range. */
  predicate IsIntegral(x: real) {
    x == x.Floor as real
  }

  /** The truncation toward zero that ECMAScript's ToInt32 applies before
      the byte stores of `writeInt32BE`; inside the checked range there is
      no wrap-around. */
  function Truncate(x: real): (n: int)
    ensures 0.0 <= x ==> n as real <= x < n as real + 1.0
    ensures x < 0.0 ==> n as real - 1.0 < x <= n as real
    ensures n as real == x <==> IsIntegral(x)
  {
    if x >= 0.0 then x.Floor
    else
      var m := (-x).Floor;
      assert IsIntegral(x) ==> -x == (-(x.Floor)) as real;
      -m
  }

  /** A number inside the range `writeInt32BE` checks it against. */
  predicate IsInt32Number(x: real) {
    Int32Min as real <= x <= Int32Max as real
  }

  /** `buffer.writeInt32BE(x)` on a fresh four-byte buffer, for a JavaScript
      number: the range check compares the number itself, and the bytes
      written are those of its truncation. */
  function WriteNumberInt32BE(x: real): (r: Result<seq<byte>, BufferError>)
    ensures r.Success? <==> IsInt32Number(x)
    ensures r.Success? ==> |r.value| == 4 && IsInt32(Truncate(x))
  {
    if IsInt32Number(x) then WriteInt32BE(Truncate(x)) else Failure(OutOfRange)
  }

  /** `buffer.readUInt32BE(offset)`. */
  function ReadUInt32BE(b: seq<byte>, offset: nat): (r: Result<int, BufferError>)
    ensures r.Success? <==> offset + 4 <= |b|
    ensures r.Success? ==> IsUInt32(r.value)
  {
    if offset + 4 <= |b| then Success(UInt32At(b, offset)) else Failure(OutOfRange)
  }

  /** `buffer.readInt32BE(offset)`. */
  function ReadInt32BE(b: seq<byte>, offset: nat): (r: Result<int, BufferError>)
    ensures r.Success? <==> offset + 4 <= |b|
    ensures r.Success? ==> IsInt32(r.value)
  {
    if offset + 4 <= |b| then Success(ToInt32(UInt32At(b, offset))) else Failure(OutOfRange)
  }

  /** Reading back the bytes of an unsigned value yields the value. */
  lemma UInt32BytesRoundTrip(n: int)
    requires IsUInt32(n)
    ensures UInt32At(UInt32Bytes(n), 0) == n
  {
    var low := n / 0x100;
    var high := low / 0x100;
    assert n == low * 0x100 + n % 0x100;
    assert low == high * 0x100 + low % 0x100;
    assert high == (high / 0x100) * 0x100 + high % 0x100;
  }

  /** A read at `|pre|` sees exactly the four bytes written there, whatever
      surrounds them. */
  lemma UInt32AtEmbedded(pre: seq<byte>, n: int, post: seq<byte>)
    requires IsUInt32(n)
    ensures UInt32At(pre + UInt32Bytes(n) + post, |pre|) == n
  {
    var b := pre + UInt32Bytes(n) + post;
    assert b[|pre|..|pre| + 4] == UInt32Bytes(n);
    UInt32BytesRoundTrip(n);
  }

  /** `readInt32BE` undoes `writeInt32BE` for every signed 32-bit value. */
  lemma Int32RoundTrip(pre: seq<byte>, n: int, post: seq<byte>)
    requires IsInt32(n)
    ensures WriteInt32BE(n).Success?
    ensures ReadInt32BE(pre + WriteInt32BE(n).value + post, |pre|) == Success(n)
  {
    UInt32AtEmbedded(pre, FromInt32(n), post);
  }

  /** `readUInt32BE` undoes `writeUInt32BE` for every unsigned 32-bit value. */
  lemma UInt32RoundTrip(pre: seq<byte>, n: int, post: seq<byte>)
    requires IsUInt32(n)
    ensures WriteUInt32BE(n).Success?
    ensures ReadUInt32BE(pre + WriteUInt32BE(n).value + post, |pre|) == Success(n)
  {
    UInt32AtEmbedded(pre, n, post);
  }

  /** `readInt32BE` reads back the truncation of every number that
      `writeInt32BE` accepts, and so the number itself exactly when it is
      integral. */
  lemma NumberInt32RoundTrip(pre: seq<byte>, x: real, post: seq<byte>)
    requires IsInt32Number(x)
    ensures WriteNumberInt32BE(x).Success?
    ensures ReadInt32BE(pre + WriteNumberInt32BE(x).value + post, |pre|) == Success(Truncate(x))
  {
    Int32RoundTrip(pre, Truncate(x), post);
  }
}
