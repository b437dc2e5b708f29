/** The value codec of src/io/serialize.cpp: big-endian integers, length-prefixed byte strings and arrays. */
module Codec {
  import opened Bytes

  type int32 = x: int | -0x8000_0000 <= x < 0x8000_0000
  type int64 = x: int | -0x8000_0000_0000_0000 <= x < 0x8000_0000_0000_0000

  /** Lengths are written in one byte, and 255 is already too long. */
  const SIZE_LIMIT := 255

  /** A value of include/obsr_types.h, one constructor per kind of content; floats are their bit patterns. */
  datatype Value =
    | Empty
    | Raw(raw: seq<byte>)
    | Str(text: seq<byte>)
    | Boolean(flag: bool)
    | Int32(int32: int32)
    | Int64(int64: int64)
    | Float32(bits32: uint32)
    | Float64(bits64: uint64)
    | Int32Array(int32s: seq<int32>)
    | Int64Array(int64s: seq<int64>)
    | Float32Array(floats: seq<uint32>)
    | Float64Array(doubles: seq<uint64>)
  {
    /** The type a value reports. The setters of both float arrays tag them as arrays of 64-bit integers. */
    function TypeCode(): (code: byte) {
      match this
      case Empty => 0
      case Raw(_) => 1
      case Str(_) => 2
      case Boolean(_) => 3
      case Int32(_) => 4
      case Int64(_) => 5
      case Float32(_) => 6
      case Float64(_) => 7
      case Int32Array(_) => 8
      case Int64Array(_) => 9
      case Float32Array(_) => 9
      case Float64Array(_) => 9
    }

    predicate FloatArray() {
      Float32Array? || Float64Array?
    }

    /** The contents are short enough to be written. */
    predicate WithinLimits() {
      match this
      case Raw(s) => |s| < SIZE_LIMIT
      case Str(s) => |s| < SIZE_LIMIT
      case Int32Array(a) => |a| < SIZE_LIMIT
      case Int64Array(a) => |a| < SIZE_LIMIT
      case Float32Array(a) => |a| < SIZE_LIMIT
      case Float64Array(a) => |a| < SIZE_LIMIT
      case _ => true
    }
  }

  // ---------------------------------------------------------------- signed and unsigned

  function Unsigned(modulus: int, x: int): (u: nat)
    requires modulus > 0 && modulus % 2 == 0 && -(modulus / 2) <= x < modulus / 2
    ensures u < modulus
    ensures Signed(modulus, u) == x
  {
    if x < 0 then x + modulus else x
  }

  function Signed(modulus: int, u: nat): (x: int)
    requires modulus > 0 && modulus % 2 == 0 && u < modulus
    ensures -(modulus / 2) <= x < modulus / 2
  {
    if u < modulus / 2 then u else u - modulus
  }

  lemma UnsignedSigned(modulus: int, u: nat)
    requires modulus > 0 && modulus % 2 == 0 && u < modulus
    ensures Unsigned(modulus, Signed(modulus, u)) == u
  {
  }

  function Unsigned32s(a: seq<int32>): (us: seq<uint32>) {
    seq(|a|, i requires 0 <= i < |a| => Unsigned(U32, a[i]))
  }

  function Unsigned64s(a: seq<int64>): (us: seq<uint64>) {
    seq(|a|, i requires 0 <= i < |a| => Unsigned(U64, a[i]))
  }

  function Signed32s(us: seq<uint32>): (a: seq<int32>)
    ensures Unsigned32s(a) == us
  {
    seq(|us|, i requires 0 <= i < |us| => Signed(U32, us[i]))
  }

  function Signed64s(us: seq<uint64>): (a: seq<int64>)
    ensures Unsigned64s(a) == us
  {
    seq(|us|, i requires 0 <= i < |us| => Signed(U64, us[i]))
  }

  lemma SignedUnsigned32s(a: seq<int32>)
    ensures Signed32s(Unsigned32s(a)) == a
  {
  }

  lemma SignedUnsigned64s(a: seq<int64>)
    ensures Signed64s(Unsigned64s(a)) == a
  {
  }

  // ---------------------------------------------------------------- the format

  predicate Fit(width: nat, words: seq<nat>) {
    forall i :: 0 <= i < |words| ==> words[i] < Pow256(width)
  }

  function EncodeWords(width: nat, words: seq<nat>): seq<byte>
    requires Fit(width, words)
  {
    if words == [] then [] else BigEndian(width, words[0]) + EncodeWords(width, words[1..])
  }

  function Encode16(u: uint16): seq<byte> {
    Widths();
    BigEndian(2, u)
  }

  function Encode32(u: uint32): seq<byte> {
    Widths();
    BigEndian(4, u)
  }

  function Encode64(u: uint64): seq<byte> {
    Widths();
    BigEndian(8, u)
  }

  function Sized(s: seq<byte>): seq<byte>
    requires |s| < SIZE_LIMIT
  {
    [|s|] + s
  }

  /** The bytes of a value, after its type code. */
  function EncodeValue(v: Value): seq<byte>
    requires v.WithinLimits() && !v.FloatArray()
  {
    Widths();
    match v
    case Empty => []
    case Raw(s) => Sized(s)
    case Str(s) => Sized(s)
    case Boolean(b) => [if b then 1 else 0]
    case Int32(i) => Encode32(Unsigned(U32, i))
    case Int64(i) => Encode64(Unsigned(U64, i))
    case Float32(bits) => Encode32(bits)
    case Float64(bits) => Encode64(bits)
    case Int32Array(a) => [|a|] + EncodeWords(4, Unsigned32s(a))
    case Int64Array(a) => [|a|] + EncodeWords(8, Unsigned64s(a))
  }

  datatype Decoded<T> = Failed | Threw | Got(value: T, rest: seq<byte>)

  function Take(n: nat, s: seq<byte>): Decoded<seq<byte>> {
    if n <= |s| then Got(s[..n], s[n..]) else Failed
  }

  function DecodeWord(width: nat, s: seq<byte>): Decoded<nat> {
    if width <= |s| then Got(FromBigEndian(s[..width]), s[width..]) else Failed
  }

  function DecodeSized(s: seq<byte>): Decoded<seq<byte>> {
    if s == [] then Failed else Take(s[0], s[1..])
  }

  function DecodeWords(width: nat, n: nat, s: seq<byte>): (d: Decoded<seq<nat>>)
    ensures d.Got? ==> |d.value| == n && Fit(width, d.value)
  {
    if n == 0 then Got([], s)
    else if |s| < width then Failed
    else
      var d := DecodeWords(width, n - 1, s[width..]);
      if d.Got? then Got([FromBigEndian(s[..width])] + d.value, d.rest) else Failed
  }

  /** A length-prefixed array of words. */
  function DecodeArray(width: nat, s: seq<byte>): (d: Decoded<seq<nat>>)
    ensures d.Got? ==> Fit(width, d.value)
  {
    if s == [] then Failed else DecodeWords(width, s[0], s[1..])
  }

  /** Words of four and of eight bytes are unsigned integers of that width. */
  function As32(words: seq<nat>): (us: seq<uint32>)
    requires Fit(4, words)
    ensures us == words
  {
    Widths();
    seq(|words|, i requires 0 <= i < |words| => words[i])
  }

  function As64(words: seq<nat>): (us: seq<uint64>)
    requires Fit(8, words)
    ensures us == words
  {
    Widths();
    seq(|words|, i requires 0 <= i < |words| => words[i])
  }

  /** Making a value of contents with 255 or more elements throws. */
  function Made(v: Value, rest: seq<byte>): Decoded<Value> {
    if v.WithinLimits() then Got(v, rest) else Threw
  }

  /** Only the low half of a double's bits survives reading: they go through a 32-bit integer. */
  function LowHalf(bits: uint64): uint32 {
    bits % U32
  }

  function LowHalves(words: seq<uint64>): seq<uint64> {
    seq(|words|, i requires 0 <= i < |words| => LowHalf(words[i]))
  }

  function DecodeValue(code: byte, s: seq<byte>): Decoded<Value> {
    Widths();
    match code
    case 0 => Got(Empty, s)
    case 1 => (match DecodeSized(s) case Got(data, rest) => Made(Raw(data), rest) case _ => Failed)
    case 2 => (match DecodeSized(s) case Got(data, rest) => Made(Str(data), rest) case _ => Failed)
    case 3 => if s == [] then Failed else Got(Boolean(s[0] != 0), s[1..])
    case 4 => (match DecodeWord(4, s) case Got(u, rest) => Got(Int32(Signed(U32, u)), rest) case _ => Failed)
    case 5 => (match DecodeWord(8, s) case Got(u, rest) => Got(Int64(Signed(U64, u)), rest) case _ => Failed)
    case 6 => (match DecodeWord(4, s) case Got(u, rest) => Got(Float32(u), rest) case _ => Failed)
    case 7 => (match DecodeWord(8, s) case Got(u, rest) => Got(Float64(LowHalf(u)), rest) case _ => Failed)
    case 8 => (match DecodeArray(4, s) case Got(us, rest) => Made(Int32Array(Signed32s(As32(us))), rest) case _ => Failed)
    case 9 => (match DecodeArray(8, s) case Got(us, rest) => Made(Int64Array(Signed64s(As64(us))), rest) case _ => Failed)
    case 10 => (match DecodeArray(4, s) case Got(us, rest) => Made(Float32Array(As32(us)), rest) case _ => Failed)
    case 11 => (match DecodeArray(8, s) case Got(us, rest) => Made(Float64Array(LowHalves(As64(us))), rest) case _ => Failed)
    case _ => Failed
  }

  // ---------------------------------------------------------------- round trips

  lemma DecodeWordBack(width: nat, u: nat, rest: seq<byte>)
    requires u < Pow256(width)
    ensures DecodeWord(width, BigEndian(width, u) + rest) == Got(u, rest)
  {
    var s := BigEndian(width, u) + rest;
    assert s[..width] == BigEndian(width, u) && s[width..] == rest;
    FromToBigEndian(width, u);
  }

  lemma DecodeSizedBack(s: seq<byte>, rest: seq<byte>)
    requires |s| < SIZE_LIMIT
    ensures DecodeSized(Sized(s) + rest) == Got(s, rest)
  {
    assert (Sized(s) + rest)[1..] == s + rest;
  }

  lemma {:induction false} DecodeWordsBack(width: nat, words: seq<nat>, rest: seq<byte>)
    requires Fit(width, words)
    ensures DecodeWords(width, |words|, EncodeWords(width, words) + rest) == Got(words, rest)
  {
    if words == [] {
      assert EncodeWords(width, words) + rest == rest;
    } else {
      var head, tail := BigEndian(width, words[0]), EncodeWords(width, words[1..]) + rest;
      assert EncodeWords(width, words) + rest == head + tail;
      assert (head + tail)[..width] == head && (head + tail)[width..] == tail;
      FromToBigEndian(width, words[0]);
      DecodeWordsBack(width, words[1..], rest);
      assert words == [words[0]] + words[1..];
    }
  }

  lemma DecodeArrayBack(width: nat, words: seq<nat>, rest: seq<byte>)
    requires |words| < SIZE_LIMIT && Fit(width, words)
    ensures DecodeArray(width, [|words|] + EncodeWords(width, words) + rest) == Got(words, rest)
  {
    hide DecodeWords, EncodeWords, Fit;
    var s := [|words|] + EncodeWords(width, words) + rest;
    assert s[0] == |words| && s[1..] == EncodeWords(width, words) + rest;
    DecodeWordsBack(width, words, rest);
  }

  /** What comes back from writing `v` and reading it again: `v`, except that a double loses its high half. */
  function ReadBack(v: Value): (r: Value)
    ensures r.TypeCode() == v.TypeCode()
  {
    match v
    case Float64(bits) => Float64(LowHalf(bits))
    case _ => v
  }

  /** Reading what was written returns the value and leaves exactly what followed it. */
  lemma ValueRoundTrip(v: Value, rest: seq<byte>)
    requires v.WithinLimits() && !v.FloatArray()
    ensures DecodeValue(v.TypeCode(), EncodeValue(v) + rest) == Got(ReadBack(v), rest)
  {
    Widths();
    match v
    case Empty => assert [] + rest == rest;
    case Raw(s) => DecodeSizedBack(s, rest);
    case Str(s) => DecodeSizedBack(s, rest);
    case Boolean(b) =>
    case Int32(i) => DecodeWordBack(4, Unsigned(U32, i), rest);
    case Int64(i) => DecodeWordBack(8, Unsigned(U64, i), rest);
    case Float32(bits) => DecodeWordBack(4, bits, rest);
    case Float64(bits) => DecodeWordBack(8, bits, rest);
    case Int32Array(a) => DecodeArrayBack(4, Unsigned32s(a), rest); SignedUnsigned32s(a);
    case Int64Array(a) => DecodeArrayBack(8, Unsigned64s(a), rest); SignedUnsigned64s(a);
  }

  /** A double survives exactly when its high half is zero. */
  lemma DoubleRoundTripIff(bits: uint64, rest: seq<byte>)
    ensures DecodeValue(7, EncodeValue(Float64(bits)) + rest) == Got(Float64(bits), rest) <==> bits < U32
  {
    ValueRoundTrip(Float64(bits), rest);
  }

  lemma EncodeWordsCons(width: nat, word: nat, words: seq<nat>)
    requires word < Pow256(width) && Fit(width, words)
    ensures EncodeWords(width, [word] + words) == BigEndian(width, word) + EncodeWords(width, words)
  {
    assert ([word] + words)[1..] == words;
  }

  lemma {:induction false} EncodedLength(width: nat, words: seq<nat>)
    requires Fit(width, words)
    ensures |EncodeWords(width, words)| == width * |words|
  {
    if words != [] {
      EncodedLength(width, words[1..]);
    }
  }

  lemma DecodeNoWords(width: nat, s: seq<byte>)
    ensures DecodeWords(width, 0, s) == Got([], s)
    ensures EncodeWords(width, []) + s == s
  {
  }

  lemma DecodeWordsStep(width: nat, n: nat, s: seq<byte>)
    requires n > 0 && DecodeWords(width, n, s).Got?
    ensures |s| >= width && DecodeWords(width, n - 1, s[width..]).Got?
    ensures
      var d := DecodeWords(width, n - 1, s[width..]);
      DecodeWords(width, n, s) == Got([FromBigEndian(s[..width])] + d.value, d.rest)
  {
    hide FromBigEndian;
  }

  lemma {:induction false} DecodeWordsExact(width: nat, n: nat, s: seq<byte>)
    requires DecodeWords(width, n, s).Got?
    ensures s == EncodeWords(width, DecodeWords(width, n, s).value) + DecodeWords(width, n, s).rest
  {
    hide FromBigEndian, BigEndian, DecodeWords, EncodeWords;
    if n == 0 {
      DecodeNoWords(width, s);
    } else {
      DecodeWordsStep(width, n, s);
      var d := DecodeWords(width, n - 1, s[width..]);
      DecodeWordsExact(width, n - 1, s[width..]);
      ToFromBigEndian(s[..width]);
      EncodeWordsCons(width, FromBigEndian(s[..width]), d.value);
      assert s == s[..width] + (EncodeWords(width, d.value) + d.rest);
    }
  }

  /** The bytes at the head of `s` are those that writing gives: a flag is 0 or 1, and a double has no high half. */
  predicate Canonical(code: byte, s: seq<byte>) {
    && (code == 3 ==> s != [] && s[0] <= 1)
    && (code == 7 ==> |s| >= 8 && FromBigEndian(s[..8]) < U32)
  }

  /** Reading takes exactly the bytes that writing the value would produce, if and only if a flag byte is 0 or 1 and a
      double has no high half. Float arrays are read but cannot be written back. */
  lemma DecodedExactly(code: byte, s: seq<byte>)
    requires DecodeValue(code, s).Got? && code !in {10, 11}
    ensures
      var Got(v, rest) := DecodeValue(code, s);
      && v.TypeCode() == code && v.WithinLimits() && !v.FloatArray() && ReadBack(v) == v
      && (s == EncodeValue(v) + rest <==> Canonical(code, s))
  {
    Widths();
    hide BigEndian, FromBigEndian, DecodeWords, EncodeWords, DecodeSized, DecodeArray, Unsigned32s, Unsigned64s;
    var Got(v, rest) := DecodeValue(code, s);
    match code
    case 0 => assert [] + s == s;
    case 1 => DecodedSizedExactly(s);
    case 2 => DecodedSizedExactly(s);
    case 3 => assert s == [s[0]] + s[1..];
    case 4 => DecodedWordExactly(4, s);
    case 5 => DecodedWordExactly(8, s);
    case 6 => DecodedWordExactly(4, s);
    case 7 => DecodedDoubleExactly(s);
    case 8 => DecodedArrayExactly(4, s);
    case 9 => DecodedArrayExactly(8, s);
  }

  lemma DecodedDoubleExactly(s: seq<byte>)
    requires |s| >= 8
    ensures FromBigEndian(s[..8]) < U64
    ensures s == Encode64(LowHalf(FromBigEndian(s[..8]))) + s[8..] <==> FromBigEndian(s[..8]) < U32
  {
    Widths();
    hide BigEndian, FromBigEndian;
    var u := FromBigEndian(s[..8]);
    DecodedWordExactly(8, s);
    FromToBigEndian(8, LowHalf(u));
    var w := Encode64(LowHalf(u));
    assert (w + s[8..])[..8] == w;
  }

  lemma DecodedSizedExactly(s: seq<byte>)
    requires DecodeSized(s).Got?
    ensures s == [|DecodeSized(s).value|] + DecodeSized(s).value + DecodeSized(s).rest
  {
    assert s == [s[0]] + s[1..][..s[0]] + s[1..][s[0]..];
  }

  lemma DecodedWordExactly(width: nat, s: seq<byte>)
    requires width <= |s|
    ensures s == BigEndian(width, FromBigEndian(s[..width])) + s[width..]
    ensures FromBigEndian(s[..width]) < Pow256(width)
  {
    hide FromBigEndian, BigEndian;
    ToFromBigEndian(s[..width]);
    assert s == s[..width] + s[width..];
  }

  lemma DecodedArrayExactly(width: nat, s: seq<byte>)
    requires DecodeArray(width, s).Got?
    ensures
      var Got(words, rest) := DecodeArray(width, s);
      s == [|words|] + EncodeWords(width, words) + rest
  {
    DecodeWordsExact(width, s[0], s[1..]);
    assert s == [s[0]] + s[1..];
  }
}
