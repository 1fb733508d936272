/** The custom-metadata codec (`DATA_CONVERTERS` in paste/storage.ts): five
    kinds of value, each stored as a byte blob next to its type tag. */
module Codec {
  import opened Wrappers
  import opened Bytes
  import Utf8

  /** A custom metadata value as it arrives from the validated request.
      A number is any JavaScript number; see `Bytes.IsIntegral`. */
  datatype Value = Bool(b: bool) | Num(n: real) | Str(s: string) | Arr(items: seq<Value>)

  /** The stored type tag (`CustomMetadataValueTypeNamed`). */
  datatype TypeTag = StringTag | StringArrayTag | NumberTag | NumberArrayTag | BooleanTag

  /** Why an encoder or decoder threw. */
  datatype CodecError =
    | BufferRange           // a Buffer read or write out of range
    | LengthExceedsBuffer   // a string[] entry longer than the bytes left
    | UnsupportedValue      // no type tag for the value

  /** The tag's name as stored in the `type` column. */
  function TagName(t: TypeTag): string {
    match t
    case StringTag => "string"
    case StringArrayTag => "string[]"
    case NumberTag => "number"
    case NumberArrayTag => "number[]"
    case BooleanTag => "boolean"
  }

  /** The tag a stored name denotes, if any. */
  function TagOfName(name: string): (r: Option<TypeTag>)
    ensures r.Some? ==> TagName(r.value) == name
    ensures forall t :: TagName(t) == name ==> r == Some(t)
  {
    if name == "string" then Some(StringTag)
    else if name == "string[]" then Some(StringArrayTag)
    else if name == "number" then Some(NumberTag)
    else if name == "number[]" then Some(NumberArrayTag)
    else if name == "boolean" then Some(BooleanTag)
    else None
  }

  // ---------------------------------------------------------------- string

  function EncodeString(s: string): seq<byte> {
    Utf8.Encode(s)
  }

  function DecodeString(b: seq<byte>): string {
    Utf8.Decode(b)
  }

  // ---------------------------------------------------------------- string[]

  /** The UTF-8 encodings of the elements. */
  function Encodings(ss: seq<string>): (es: seq<seq<byte>>)
    ensures |es| == |ss|
    ensures forall i | 0 <= i < |ss| :: es[i] == Utf8.Encode(ss[i])
  {
    seq(|ss|, i requires 0 <= i < |ss| => Utf8.Encode(ss[i]))
  }

  predicate Framable(es: seq<seq<byte>>) {
    forall i | 0 <= i < |es| :: IsUInt32(|es[i]|)
  }

  /** Each encoded element preceded by its big-endian length word. */
  function Frames(es: seq<seq<byte>>): seq<byte>
    requires Framable(es)
  {
    if |es| == 0 then [] else UInt32Bytes(|es[0]|) + es[0] + Frames(es[1..])
  }

  /** Sum of the lengths of the encoded elements. */
  function TotalLength(es: seq<seq<byte>>): nat {
    if |es| == 0 then 0 else |es[0]| + TotalLength(es[1..])
  }

  lemma {:induction false} FramesLength(es: seq<seq<byte>>)
    requires Framable(es)
    ensures |Frames(es)| == TotalLength(es) + 4 * |es|
  {
    if |es| > 0 {
      FramesLength(es[1..]);
    }
  }

  /** The string[] encoder. Each element's UTF-8 length must fit the
      unsigned 32-bit length word, otherwise `writeUint32BE` throws. */
  function EncodeStringArray(ss: seq<string>): (r: Result<seq<byte>, CodecError>)
    ensures r.Success? <==> Framable(Encodings(ss))
    ensures r.Success? ==> |r.value| == TotalLength(Encodings(ss)) + 4 * |ss|
    ensures |ss| == 0 ==> r == Success([])
  {
    if |ss| == 0 then Success([])
    else if Framable(Encodings(ss)) then
      FramesLength(Encodings(ss));
      Success(Frames(Encodings(ss)))
    else Failure(BufferRange)
  }

  /** The decoder's do-while loop from `offset`: it always reads a length
      word first, checks the declared length against the bytes left, takes
      that many bytes as one element, and goes round again while bytes
      remain. The loop body also runs each element through `TextDecoder`;
      that decoder never fails, so decoding after the loop (in
      `DecodeStringArray`) gives the same result. */
  function SplitFrames(b: seq<byte>, offset: nat): (r: Result<seq<seq<byte>>, CodecError>)
    requires offset <= |b|
    ensures r.Success? ==> |r.value| > 0
    decreases |b| - offset
  {
    var length :- ReadUInt32BE(b, offset).MapFailure(_ => BufferRange);
    var start := offset + 4;
    if |b| - length < start then Failure(LengthExceedsBuffer)
    else
      var e := b[start..start + length];
      var next := start + length;
      if |b| > next then
        var rest :- SplitFrames(b, next);
        Success([e] + rest)
      else
        Success([e])
  }

  /** The string[] decoder as written, each element read by `TextDecoder`. */
  function DecodeStringArray(b: seq<byte>): (r: Result<seq<string>, CodecError>)
    ensures r.Success? ==> |r.value| > 0
  {
    var es :- SplitFrames(b, 0);
    Success(DecodeAll(es))
  }

  /** The decoder with the empty blob read back as the empty list, which is
      what the encoder produces for it. */
  function DecodeStringArrayIntended(b: seq<byte>): Result<seq<string>, CodecError> {
    if |b| == 0 then Success([]) else DecodeStringArray(b)
  }

  /** Each element read back through `TextDecoder`. */
  function DecodeAll(es: seq<seq<byte>>): (r: seq<string>)
    ensures |r| == |es|
  {
    if |es| == 0 then [] else [Utf8.Decode(es[0])] + DecodeAll(es[1..])
  }

  lemma DecodeEncoded(s: string)
    requires NoLeadingBom(s)
    ensures Utf8.Decode(Utf8.Encode(s)) == s
  {
    Utf8.RoundTrip(s);
  }

  /** The encodings of a non-empty list: the first element's, then the
      rest's. */
  lemma EncodingsTail(ss: seq<string>)
    requires |ss| > 0
    ensures Encodings(ss)[0] == Utf8.Encode(ss[0])
    ensures Encodings(ss)[1..] == Encodings(ss[1..])
  {
    assert forall i | 0 <= i < |ss| - 1 :: ss[1..][i] == ss[i + 1];
  }

  lemma {:induction false} DecodeAllEncodings(ss: seq<string>)
    requires forall i | 0 <= i < |ss| :: NoLeadingBom(ss[i])
    ensures DecodeAll(Encodings(ss)) == ss
  {
    if |ss| > 0 {
      var tail := ss[1..];
      EncodingsTail(ss);
      DecodeAllEncodings(tail);
      DecodeEncoded(ss[0]);
      assert [ss[0]] + tail == ss;
    }
  }

  /** One pass of the decoder's loop over the first frame of `es`, which
      starts at `offset`, given what the remaining passes produce. */
  lemma SplitOneFrame(b: seq<byte>, offset: nat, es: seq<seq<byte>>)
    requires |es| > 0 && IsUInt32(|es[0]|)
    requires offset + 4 + |es[0]| <= |b|
    requires b[offset..offset + 4] == UInt32Bytes(|es[0]|)
    requires b[offset + 4..offset + 4 + |es[0]|] == es[0]
    requires |es| == 1 <==> offset + 4 + |es[0]| == |b|
    requires |es| > 1 ==> SplitFrames(b, offset + 4 + |es[0]|) == Success(es[1..])
    ensures SplitFrames(b, offset) == Success(es)
  {
    var e := es[0];
    UInt32BytesRoundTrip(|e|);
    assert UInt32At(b, offset) == UInt32At(b[offset..offset + 4], 0);
    assert ReadUInt32BE(b, offset) == Success(|e|);
    if |es| > 1 {
      assert [e] + es[1..] == es;
    } else {
      assert [e] == es;
    }
  }

  lemma FramableTail(es: seq<seq<byte>>)
    requires |es| > 0 && Framable(es)
    ensures IsUInt32(|es[0]|) && Framable(es[1..])
  {
    assert forall i | 0 <= i < |es[1..]| :: es[1..][i] == es[i + 1];
  }

  /** Where the first frame of `es` sits in a buffer holding `es` framed
      from `offset`. */
  lemma FirstFrameSlices(b: seq<byte>, offset: nat, es: seq<seq<byte>>)
    requires |es| > 0 && Framable(es)
    requires offset <= |b| && b[offset..] == Frames(es)
    ensures offset + 4 + |es[0]| <= |b|
    ensures b[offset..offset + 4] == UInt32Bytes(|es[0]|)
    ensures b[offset + 4..offset + 4 + |es[0]|] == es[0]
    ensures b[offset + 4 + |es[0]|..] == Frames(es[1..])
  {
    var e := es[0];
    var next := offset + 4 + |e|;
    FramableTail(es);
    assert b[offset..] == UInt32Bytes(|e|) + e + Frames(es[1..]);
    assert b[offset..offset + 4] == b[offset..][..4];
    assert b[offset + 4..next] == b[offset..][4..4 + |e|];
    assert b[next..] == b[offset..][4 + |e|..];
  }

  /** The loop splits a buffer holding framed elements back into them. */
  lemma {:induction false} SplitFramesOfFrames(b: seq<byte>, offset: nat, es: seq<seq<byte>>)
    requires |es| > 0 && Framable(es)
    requires offset <= |b| && b[offset..] == Frames(es)
    ensures SplitFrames(b, offset) == Success(es)
    decreases |es|
  {
    var next := offset + 4 + |es[0]|;
    FramableTail(es);
    FirstFrameSlices(b, offset, es);
    FramesLength(es[1..]);
    assert |b[next..]| == |Frames(es[1..])|;
    if |es| > 1 {
      SplitFramesOfFrames(b, next, es[1..]);
    }
    SplitOneFrame(b, offset, es);
  }

  /** Decoding an encoded non-empty list yields each element as the text
      decoder reads it back. */
  lemma StringArrayDecodesEncoded(ss: seq<string>)
    requires |ss| > 0
    requires EncodeStringArray(ss).Success?
    ensures DecodeStringArray(EncodeStringArray(ss).value) == Success(DecodeAll(Encodings(ss)))
  {
    var b := EncodeStringArray(ss).value;
    assert b[0..] == Frames(Encodings(ss));
    SplitFramesOfFrames(b, 0, Encodings(ss));
  }

  predicate NoLeadingBom(s: string) {
    |s| == 0 || s[0] != Utf8.ByteOrderMark
  }

  /** Round trip of a non-empty list whose elements do not start with a
      byte order mark. */
  lemma StringArrayRoundTrip(ss: seq<string>)
    requires |ss| > 0
    requires EncodeStringArray(ss).Success?
    requires forall i | 0 <= i < |ss| :: NoLeadingBom(ss[i])
    ensures DecodeStringArray(EncodeStringArray(ss).value) == Success(ss)
  {
    StringArrayDecodesEncoded(ss);
    DecodeAllEncodings(ss);
  }

  /** The empty list encodes to the empty blob, and the decoder as written
      rejects the empty blob: its loop reads a length word before checking
      for remaining bytes. */
  lemma EmptyStringArrayDoesNotRoundTrip()
    ensures EncodeStringArray([]) == Success([])
    ensures DecodeStringArray([]) == Failure(BufferRange)
  {
  }

  /** With the empty blob handled, the round trip holds for every list. */
  lemma StringArrayIntendedRoundTrip(ss: seq<string>)
    requires EncodeStringArray(ss).Success?
    requires forall i | 0 <= i < |ss| :: NoLeadingBom(ss[i])
    ensures DecodeStringArrayIntended(EncodeStringArray(ss).value) == Success(ss)
  {
    if |ss| > 0 {
      StringArrayRoundTrip(ss);
      assert |EncodeStringArray(ss).value| >= 4;
    }
  }

  /** A declared length longer than the bytes that follow it is reported,
      never read past. */
  lemma TruncatedStringArrayFails(b: seq<byte>)
    requires |b| >= 4
    requires UInt32At(b, 0) > |b| - 4
    ensures DecodeStringArray(b) == Failure(LengthExceedsBuffer)
  {
  }

  // ---------------------------------------------------------------- number

  /** The number encoder: `writeInt32BE` of the number, which fails outside
      the signed 32-bit range and stores the truncation of a fractional
      number. */
  function EncodeNumber(x: real): (r: Result<seq<byte>, CodecError>)
    ensures r.Success? <==> IsInt32Number(x)
    ensures r.Success? ==> |r.value| == 4
  {
    WriteNumberInt32BE(x).MapFailure(_ => BufferRange)
  }

  function DecodeNumber(b: seq<byte>): (r: Result<int, CodecError>)
    ensures r.Success? <==> |b| >= 4
  {
    ReadInt32BE(b, 0).MapFailure(_ => BufferRange)
  }

  /** Every number in range decodes back to its truncation toward zero,
      which is the number itself exactly when it is integral. */
  lemma NumberRoundTrip(x: real)
    requires IsInt32Number(x)
    ensures EncodeNumber(x).Success?
    ensures DecodeNumber(EncodeNumber(x).value) == Success(Truncate(x))
    ensures DecodeNumber(EncodeNumber(x).value).value as real == x <==> IsIntegral(x)
  {
    NumberInt32RoundTrip([], x, []);
    assert [] + WriteNumberInt32BE(x).value + [] == WriteNumberInt32BE(x).value;
  }

  // ---------------------------------------------------------------- number[]

  /** The element words of a number[] blob. */
  function EncodeInt32s(ns: seq<real>): (r: Result<seq<byte>, CodecError>)
    ensures r.Success? <==> forall i | 0 <= i < |ns| :: IsInt32Number(ns[i])
    ensures r.Success? ==> |r.value| == 4 * |ns|
  {
    if |ns| == 0 then Success([])
    else
      var head :- EncodeNumber(ns[0]);
      var tail :- EncodeInt32s(ns[1..]);
      Success(head + tail)
  }

  /** The number[] encoder: a count word, then one word per element. */
  function EncodeNumberArray(ns: seq<real>): (r: Result<seq<byte>, CodecError>)
    ensures r.Success? <==> IsUInt32(|ns|) && forall i | 0 <= i < |ns| :: IsInt32Number(ns[i])
    ensures r.Success? ==> |r.value| == 4 * (|ns| + 1)
  {
    var count :- WriteUInt32BE(|ns|).MapFailure(_ => BufferRange);
    var elements :- EncodeInt32s(ns);
    Success(count + elements)
  }

  /** The number[] decoder: reads the count, then that many words; any word
      past the end makes the read throw. Bytes after the last word are
      ignored. */
  function DecodeNumberArray(b: seq<byte>): (r: Result<seq<int>, CodecError>)
    ensures r.Success? <==> |b| >= 4 && 4 * (UInt32At(b, 0) + 1) <= |b|
    ensures r.Success? ==> |r.value| == UInt32At(b, 0)
  {
    var count :- ReadUInt32BE(b, 0).MapFailure(_ => BufferRange);
    if 4 * (count + 1) <= |b| then
      Success(seq(count, i requires 0 <= i < count => ToInt32(UInt32At(b, 4 + 4 * i))))
    else
      Failure(BufferRange)
  }

  lemma {:induction false} EncodeInt32sWords(pre: seq<byte>, ns: seq<real>, post: seq<byte>, i: nat)
    requires EncodeInt32s(ns).Success?
    requires i < |ns|
    ensures ToInt32(UInt32At(pre + EncodeInt32s(ns).value + post, |pre| + 4 * i)) == Truncate(ns[i])
    decreases i
  {
    var head := EncodeNumber(ns[0]).value;
    var tail := EncodeInt32s(ns[1..]).value;
    assert EncodeInt32s(ns).value == head + tail;
    if i == 0 {
      assert pre + EncodeInt32s(ns).value + post == pre + head + (tail + post);
      NumberInt32RoundTrip(pre, ns[0], tail + post);
    } else {
      assert pre + EncodeInt32s(ns).value + post == (pre + head) + tail + post;
      EncodeInt32sWords(pre + head, ns[1..], post, i - 1);
    }
  }

  /** The truncations of the elements, in order. */
  function Truncations(ns: seq<real>): (r: seq<int>)
    ensures |r| == |ns| && forall i | 0 <= i < |ns| :: r[i] == Truncate(ns[i])
  {
    seq(|ns|, i requires 0 <= i < |ns| => Truncate(ns[i]))
  }

  /** Every encodable array decodes back to the truncations of its
      elements. */
  lemma NumberArrayRoundTrip(ns: seq<real>)
    requires EncodeNumberArray(ns).Success?
    ensures DecodeNumberArray(EncodeNumberArray(ns).value) == Success(Truncations(ns))
  {
    var count := UInt32Bytes(|ns|);
    var elements := EncodeInt32s(ns).value;
    var b := EncodeNumberArray(ns).value;
    assert b == [] + count + elements;
    UInt32AtEmbedded([], |ns|, elements);
    var r := DecodeNumberArray(b);
    forall i | 0 <= i < |ns|
      ensures r.value[i] == Truncate(ns[i])
    {
      EncodeInt32sWords(count, ns, [], i);
      assert count + elements + [] == b;
    }
    assert r.value == Truncations(ns);
  }

  // ---------------------------------------------------------------- boolean

  function EncodeBoolean(x: bool): (r: seq<byte>)
    ensures |r| == 1
  {
    [if x then 1 else 0]
  }

  /** `data[0] == 1`: an empty blob reads `undefined`, which is not 1. */
  function DecodeBoolean(b: seq<byte>): bool {
    |b| > 0 && b[0] == 1
  }

  lemma BooleanRoundTrip(x: bool)
    ensures DecodeBoolean(EncodeBoolean(x)) == x
    ensures EncodeBoolean(x) == [1] || EncodeBoolean(x) == [0]
  {
  }

  /** Any first byte other than 1, or no byte at all, reads as false. */
  lemma BooleanDecodeOnlyOneIsTrue(b: seq<byte>)
    ensures DecodeBoolean(b) <==> |b| > 0 && b[0] == 1
    ensures DecodeBoolean(b) <==> EncodeBoolean(true) <= b
  {
  }

  // ---------------------------------------------------------------- tags

  predicate AllStrings(items: seq<Value>) {
    forall i | 0 <= i < |items| :: items[i].Str?
  }

  predicate AllNumbers(items: seq<Value>) {
    forall i | 0 <= i < |items| :: items[i].Num?
  }

  /** `metadataValueToNamed`: the tag a value is stored under, checked in
      the source's order. `None` is its `null`. */
  function InferTag(v: Value): (r: Option<TypeTag>)
    ensures r.None? <==> v.Arr? && (exists i :: 0 <= i < |v.items| && !v.items[i].Str?)
                                 && (exists j :: 0 <= j < |v.items| && !v.items[j].Num?)
    ensures r == Some(StringArrayTag) <==> v.Arr? && AllStrings(v.items)
    ensures r == Some(NumberArrayTag) <==> v.Arr? && |v.items| > 0 && AllNumbers(v.items)
    ensures r == Some(BooleanTag) <==> v.Bool?
    ensures r == Some(NumberTag) <==> v.Num?
    ensures r == Some(StringTag) <==> v.Str?
  {
    match v
    case Arr(items) =>
      if AllStrings(items) then
        assert |items| > 0 ==> !items[0].Num?;
        Some(StringArrayTag)
      else if AllNumbers(items) then Some(NumberArrayTag)
      else None
    case Bool(_) => Some(BooleanTag)
    case Num(_) => Some(NumberTag)
    case Str(_) => Some(StringTag)
  }

  function Strings(items: seq<Value>): (r: seq<string>)
    requires AllStrings(items)
    ensures |r| == |items| && forall i | 0 <= i < |items| :: items[i] == Str(r[i])
  {
    seq(|items|, i requires 0 <= i < |items| => items[i].s)
  }

  function Numbers(items: seq<Value>): (r: seq<real>)
    requires AllNumbers(items)
    ensures |r| == |items| && forall i | 0 <= i < |items| :: items[i] == Num(r[i])
  {
    seq(|items|, i requires 0 <= i < |items| => items[i].n)
  }

  /** `convertTypeScriptDataToBlob`: infer the tag, then run its encoder. */
  function ConvertToBlob(v: Value): (r: Result<seq<byte>, CodecError>)
    ensures InferTag(v).None? ==> r == Failure(UnsupportedValue)
  {
    match InferTag(v)
    case None => Failure(UnsupportedValue)
    case Some(StringTag) => Success(EncodeString(v.s))
    case Some(StringArrayTag) => EncodeStringArray(Strings(v.items))
    case Some(NumberTag) => EncodeNumber(v.n)
    case Some(NumberArrayTag) => EncodeNumberArray(Numbers(v.items))
    case Some(BooleanTag) => Success(EncodeBoolean(v.b))
  }

  function StringsValue(ss: seq<string>): (r: Value)
    ensures r.Arr? && |r.items| == |ss|
    ensures forall i | 0 <= i < |ss| :: r.items[i] == Str(ss[i])
  {
    Arr(seq(|ss|, i requires 0 <= i < |ss| => Str(ss[i])))
  }

  function NumbersValue(ns: seq<int>): (r: Value)
    ensures r.Arr? && |r.items| == |ns|
    ensures forall i | 0 <= i < |ns| :: r.items[i] == Num(ns[i] as real)
  {
    Arr(seq(|ns|, i requires 0 <= i < |ns| => Num(ns[i] as real)))
  }

  /** `DATA_CONVERTERS[tag].decode`, as written. */
  function DecodeAs(t: TypeTag, b: seq<byte>): Result<Value, CodecError> {
    match t
    case StringTag => Success(Str(DecodeString(b)))
    case StringArrayTag =>
      var ss :- DecodeStringArray(b);
      Success(StringsValue(ss))
    case NumberTag =>
      var n :- DecodeNumber(b);
      Success(Num(n as real))
    case NumberArrayTag =>
      var ns :- DecodeNumberArray(b);
      Success(NumbersValue(ns))
    case BooleanTag => Success(Bool(DecodeBoolean(b)))
  }

  /** The decoders with the empty string[] blob read back as `[]`. */
  function DecodeAsIntended(t: TypeTag, b: seq<byte>): Result<Value, CodecError> {
    if t == StringArrayTag && |b| == 0 then Success(Arr([])) else DecodeAs(t, b)
  }

  /** A number as it reads back from the store: its truncation. */
  function TruncateNumber(u: Value): Value {
    if u.Num? then Num(Truncate(u.n) as real) else u
  }

  /** The value with every number in it, or in its array, truncated toward
      zero: what the store gives back for it. It is the value itself
      exactly when every number in it is integral. */
  function Truncated(v: Value): (r: Value)
    ensures r == v <==> IntegralNumbers(v)
  {
    match v
    case Arr(items) =>
      var r := Arr(seq(|items|, i requires 0 <= i < |items| => TruncateNumber(items[i])));
      assert IntegralNumbers(v) ==> r.items == items;
      r
    case _ => TruncateNumber(v)
  }

  /** Every number in the value, or in its array, is integral. */
  predicate IntegralNumbers(v: Value) {
    match v
    case Num(x) => IsIntegral(x)
    case Arr(items) => forall i | 0 <= i < |items| :: items[i].Num? ==> IsIntegral(items[i].n)
    case _ => true
  }

  /** No string inside the value starts with a byte order mark, which the
      text decoder would drop. */
  predicate BomFree(v: Value) {
    match v
    case Str(s) => NoLeadingBom(s)
    case Arr(items) => forall i | 0 <= i < |items| :: items[i].Str? ==> NoLeadingBom(items[i].s)
    case _ => true
  }

  /** Every value the converter accepts, except the empty array, decodes
      under its inferred tag to the value with its numbers truncated, and
      so to itself when its numbers are integral. */
  lemma ConvertRoundTrip(v: Value)
    requires ConvertToBlob(v).Success?
    requires BomFree(v)
    requires v != Arr([])
    ensures InferTag(v).Some?
    ensures DecodeAs(InferTag(v).value, ConvertToBlob(v).value) == Success(Truncated(v))
    ensures IntegralNumbers(v) ==> DecodeAs(InferTag(v).value, ConvertToBlob(v).value) == Success(v)
  {
    match InferTag(v)
    case Some(StringTag) =>
      Utf8.RoundTrip(v.s);
    case Some(StringArrayTag) =>
      var ss := Strings(v.items);
      StringArrayRoundTrip(ss);
      assert StringsValue(ss) == v;
    case Some(NumberTag) =>
      NumberRoundTrip(v.n);
    case Some(NumberArrayTag) =>
      var ns := Numbers(v.items);
      NumberArrayRoundTrip(ns);
      assert NumbersValue(Truncations(ns)) == Truncated(v);
    case Some(BooleanTag) =>
  }

  /** The empty array is tagged string[], encoded as the empty blob, and
      that blob does not decode. */
  lemma EmptyArrayDoesNotRoundTrip()
    ensures InferTag(Arr([])) == Some(StringArrayTag)
    ensures ConvertToBlob(Arr([])) == Success([])
    ensures DecodeAs(StringArrayTag, []).Failure?
  {
  }

  /** With the intended decoder, every accepted value, the empty array
      included, decodes to the value with its numbers truncated, and so to
      itself when its numbers are integral. */
  lemma ConvertRoundTripIntended(v: Value)
    requires ConvertToBlob(v).Success?
    requires BomFree(v)
    ensures InferTag(v).Some?
    ensures DecodeAsIntended(InferTag(v).value, ConvertToBlob(v).value) == Success(Truncated(v))
    ensures IntegralNumbers(v) ==> DecodeAsIntended(InferTag(v).value, ConvertToBlob(v).value) == Success(v)
  {
    if v == Arr([]) {
      assert InferTag(v) == Some(StringArrayTag);
    } else {
      ConvertRoundTrip(v);
      if InferTag(v) == Some(StringArrayTag) {
        assert |v.items| > 0;
        assert |ConvertToBlob(v).value| >= 4;
      }
    }
  }

  // ---------------------------------------------------------------- schema

  /** The request schema's check on a custom number or number[] element, as
      written (`zod.number().min(INT32_MIN).max(INT32_MAX)`): any number in
      the signed 32-bit range, fractional ones included. */
  predicate SchemaNumber(x: real) {
    IsInt32Number(x)
  }

  /** The same check with the evidently intended `.int()`. */
  predicate SchemaNumberIntended(x: real) {
    IsInt32Number(x) && IsIntegral(x)
  }

  /** Every number in the value, or in its array, passes the intended
      check. */
  predicate SchemaNumbersIntended(v: Value) {
    match v
    case Num(x) => SchemaNumberIntended(x)
    case Arr(items) => forall i | 0 <= i < |items| :: items[i].Num? ==> SchemaNumberIntended(items[i].n)
    case _ => true
  }

  /** As written, the schema lets a fractional number through, the
      converter stores it, and it reads back as its truncation, not as
      sent. */
  lemma FractionalNumberReadsTruncated(x: real)
    requires SchemaNumber(x) && !IsIntegral(x)
    ensures ConvertToBlob(Num(x)).Success?
    ensures DecodeAs(NumberTag, ConvertToBlob(Num(x)).value) == Success(Num(Truncate(x) as real))
    ensures DecodeAs(NumberTag, ConvertToBlob(Num(x)).value) != Success(Num(x))
  {
    NumberRoundTrip(x);
  }

  /** With the intended schema check, every value that converts reads back
      exactly as sent under the intended decoder. */
  lemma SchemaIntendedRoundTrip(v: Value)
    requires ConvertToBlob(v).Success? && BomFree(v)
    requires SchemaNumbersIntended(v)
    ensures InferTag(v).Some?
    ensures DecodeAsIntended(InferTag(v).value, ConvertToBlob(v).value) == Success(v)
  {
    assert IntegralNumbers(v);
    ConvertRoundTripIntended(v);
  }
}
