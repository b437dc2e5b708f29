/** The bytes that peers exchange, spelt out: what another implementation has to agree with, which the round trips leave
    open. */
module WireForm {
  import opened Bytes
  import opened Codec
  import opened Messages
  import Framing

  // ---------------------------------------------------------------- numbers

  lemma DivideTwice(v: nat, p: nat)
    requires p > 0
    ensures v / 256 / p == v / (256 * p)
  {
    var q, r := v / 256 / p, (v / 256) % p;
    assert v / 256 == q * p + r;
    assert v == 256 * (v / 256) + v % 256;
    var rest := 256 * r + v % 256;
    assert v == q * (256 * p) + rest by {
      assert 256 * (q * p + r) == q * (256 * p) + 256 * r;
    }
    assert 0 <= rest < 256 * p;
    Quotient(v, 256 * p, q, rest);
  }

  lemma Quotient(v: nat, d: nat, q: nat, r: nat)
    requires d > 0 && r < d && v == q * d + r
    ensures v / d == q
  {
    var q', r' := v / d, v % d;
    assert v == q' * d + r' && 0 <= r' < d;
    if q' < q {
      TimesMonotone(q' + 1, q, d);
    } else if q < q' {
      TimesMonotone(q + 1, q', d);
    }
  }

  lemma TimesMonotone(a: nat, b: nat, d: nat)
    requires a <= b
    ensures a * d <= b * d
  {
    assert (b - a) * d >= 0;
  }

  /** Network byte order: byte `i` from the left is that many powers of 256 away from the last. */
  lemma {:induction false} ByteAt(width: nat, v: nat, i: nat)
    requires v < Pow256(width) && i < width
    ensures BigEndian(width, v)[i] == v / Pow256(width - 1 - i) % 256
  {
    if i == width - 1 {
      assert Pow256(0) == 1;
    } else {
      ByteAt(width - 1, v / 256, i);
      DivideTwice(v, Pow256(width - 2 - i));
    }
  }

  lemma Powers()
    ensures Pow256(0) == 1 && Pow256(1) == 0x100 && Pow256(2) == 0x1_0000 && Pow256(3) == 0x100_0000
    ensures Pow256(4) == 0x1_0000_0000 && Pow256(5) == 0x100_0000_0000 && Pow256(6) == 0x1_0000_0000_0000
    ensures Pow256(7) == 0x100_0000_0000_0000 && Pow256(8) == U64
  {
    assert Pow256(2) == 256 * Pow256(1);
    assert Pow256(4) == 256 * Pow256(3) && Pow256(3) == 256 * Pow256(2);
    assert Pow256(6) == 256 * Pow256(5) && Pow256(5) == 256 * Pow256(4);
    assert Pow256(8) == 256 * Pow256(7) && Pow256(7) == 256 * Pow256(6);
  }

  lemma Bytes16(u: uint16)
    ensures Encode16(u) == [u / 0x100, u % 0x100]
  {
    Powers();
    hide BigEndian, Pow256;
    ByteAt(2, u, 0);
    ByteAt(2, u, 1);
  }

  lemma Bytes32(u: uint32)
    ensures Encode32(u) == [u / 0x100_0000, u / 0x1_0000 % 256, u / 0x100 % 256, u % 256]
  {
    Powers();
    hide BigEndian, Pow256;
    ByteAt(4, u, 0);
    ByteAt(4, u, 1);
    ByteAt(4, u, 2);
    ByteAt(4, u, 3);
  }

  /** Eight bytes are four for the high half and four for the low one. */
  lemma Bytes64(high: uint32, low: uint32)
    ensures high * U32 + low < U64
    ensures Encode64(high * U32 + low) == Encode32(high) + Encode32(low)
  {
    Powers();
    Widths();
    Halves(4, high, low);
  }

  lemma {:induction false} Halves(width: nat, high: nat, low: nat)
    requires low < Pow256(width) && high < Pow256(4)
    ensures high * Pow256(width) + low < Pow256(4 + width)
    ensures BigEndian(4 + width, high * Pow256(width) + low) == BigEndian(4, high) + BigEndian(width, low)
  {
    if width == 0 {
      assert BigEndian(4, high) + [] == BigEndian(4, high);
    } else {
      var p := Pow256(width - 1);
      var v := high * Pow256(width) + low;
      Halves(width - 1, high, low / 256);
      assert high * Pow256(width) == 256 * (high * p);
      assert v == 256 * (high * p + low / 256) + low % 256;
      assert v / 256 == high * p + low / 256 && v % 256 == low % 256;
    }
  }

  /** Signed numbers are written as two's complement: the same number up to a multiple of the modulus, the first bit of
      the first byte telling its sign. */
  lemma TwosComplement(i: int32, t: int64)
    ensures
      var u, w := Unsigned(U32, i), Unsigned(U64, t);
      && (u - i) % U32 == 0 && (w - t) % U64 == 0
      && (Encode32(u)[0] >= 0x80 <==> i < 0) && (Encode64(w)[0] >= 0x80 <==> t < 0)
  {
    var w := Unsigned(U64, t);
    Bytes32(Unsigned(U32, i));
    Bytes32(w / U32);
    Bytes64(w / U32, w % U32);
    assert w == w / U32 * U32 + w % U32;
  }

  /** A double that is written and read again is the one whose high half is zero and whose low half is the same. */
  lemma DoubleKeepsLowHalf(high: uint32, low: uint32, rest: seq<byte>)
    ensures high * U32 + low < U64
    ensures DecodeValue(7, EncodeValue(Float64(high * U32 + low)) + rest) == Got(Float64(low), rest)
  {
    var bits: uint64 := high * U32 + low;
    LowHalfIs(high, low);
    hide LowHalf, EncodeValue, DecodeValue;
    ValueRoundTrip(Float64(bits), rest);
  }

  lemma LowHalfIs(high: uint32, low: uint32)
    ensures LowHalf(high * U32 + low) == low
  {
  }

  // ---------------------------------------------------------------- the header

  /** The header's eleven bytes: magic, version, index, kind and size of the message, in this order. */
  lemma HeaderBytes(h: Framing.Header)
    ensures Framing.EncodeHeader(h) == [h.magic, h.version] + Encode32(h.index) + [h.kind] + Encode32(h.size)
    ensures
      var s := Framing.EncodeHeader(h);
      && s[0] == h.magic && s[1] == h.version && s[6] == h.kind
      && h.index == Quad(s[2], s[3], s[4], s[5]) && h.size == Quad(s[7], s[8], s[9], s[10])
  {
    Bytes32(h.index);
    Bytes32(h.size);
    QuadIs(h.index);
    QuadIs(h.size);
    hide Quad, BigEndian;
  }

  function Quad(a: int, b: int, c: int, d: int): int {
    ((a * 256 + b) * 256 + c) * 256 + d
  }

  lemma QuadIs(u: uint32)
    ensures Quad(u / 0x100_0000, u / 0x1_0000 % 256, u / 0x100 % 256, u % 256) == u
  {
    assert u / 0x1_0000 / 256 == u / 0x100_0000 && u / 0x100 / 256 == u / 0x1_0000;
  }

  // ---------------------------------------------------------------- whole messages

  /** Each kind of message with its number. */
  lemma KindsAre(t: int64, t': int64, id: uint16, name: seq<byte>, v: Value)
    ensures EntryCreate(t, name, v).Kind() == 1 && EntryUpdate(t, id, v).Kind() == 2 && EntryDelete(t, id).Kind() == 3
    ensures EntryIdAssign(id, name).Kind() == 4 && HandshakeFinished.Kind() == 5 && HandshakeReady.Kind() == 6
    ensures TimeSyncRequest(t).Kind() == 7 && TimeSyncResponse(t, t').Kind() == 8
  {
  }

  const NONE: seq<byte> := [0, 0, 0, 0]

  lemma SmallTime(t: uint16)
    ensures EncodeTime(t) == NONE + [0, 0, t / 0x100, t % 0x100]
  {
    hide Encode32, Encode64;
    Bytes32(0);
    Bytes32(t);
    Bytes64(0, t);
    assert EncodeTime(t) == Encode64(0 * U32 + t);
  }

  /** Messages as they stand in a packet: the entry "a" with the id 258, at the time 1000, with the value -2. */
  lemma SampleValueMessages()
    ensures EncodeBody(EntryCreate(1000, [0x61], Int32(-2)))
            == NONE + [0, 0, 3, 232] + ([1, 0x61] + [4, 255, 255, 255, 254])
    ensures EncodeBody(EntryUpdate(1000, 258, Int32(-2)))
            == NONE + [0, 0, 3, 232] + ([1, 2] + [4, 255, 255, 255, 254])
  {
    hide EncodeTime, Encode16, EncodeValue, Sized;
    SmallTime(1000);
    Bytes16(258);
    SizedOne(0x61);
    MinusTwo();
  }

  lemma SampleIdMessages()
    ensures EncodeBody(EntryDelete(1000, 258)) == NONE + [0, 0, 3, 232] + [1, 2]
    ensures EncodeBody(EntryIdAssign(258, [0x61])) == [1, 2] + [1, 0x61]
    ensures EncodeBody(HandshakeFinished) == [] == EncodeBody(HandshakeReady)
  {
    hide EncodeTime, Encode16, EncodeValue, Sized;
    SmallTime(1000);
    Bytes16(258);
    SizedOne(0x61);
  }

  lemma SampleTimeMessages(t: uint16, now: uint16)
    ensures EncodeBody(TimeSyncRequest(t)) == NONE + [0, 0, t / 0x100, t % 0x100]
    ensures EncodeBody(TimeSyncResponse(t, now))
            == NONE + [0, 0, t / 0x100, t % 0x100] + (NONE + [0, 0, now / 0x100, now % 0x100])
  {
    hide EncodeTime;
    SmallTime(t);
    SmallTime(now);
  }

  lemma SizedOne(b: byte)
    ensures Sized([b]) == [1, b]
  {
  }

  lemma MinusTwo()
    ensures [Int32(-2).TypeCode()] + EncodeValue(Int32(-2)) == [4, 255, 255, 255, 254]
  {
    Bytes32(U32 - 2);
    hide Encode32;
  }

  /** Values as they stand behind their type codes. */
  lemma SampleContents(b: byte)
    ensures Empty.TypeCode() == 0 && EncodeValue(Empty) == []
    ensures Raw([b]).TypeCode() == 1 && EncodeValue(Raw([b])) == [1, b]
    ensures Str([b]).TypeCode() == 2 && EncodeValue(Str([b])) == [1, b]
    ensures Boolean(true).TypeCode() == 3 && EncodeValue(Boolean(true)) == [1] && EncodeValue(Boolean(false)) == [0]
  {
    SizedOne(b);
  }

  lemma SampleNumbers(u: uint16)
    ensures Int32(u).TypeCode() == 4 && EncodeValue(Int32(u)) == [0, 0, u / 0x100, u % 0x100]
    ensures Int64(u).TypeCode() == 5 && EncodeValue(Int64(u)) == NONE + [0, 0, u / 0x100, u % 0x100]
    ensures Float32(u).TypeCode() == 6 && EncodeValue(Float32(u)) == [0, 0, u / 0x100, u % 0x100]
    ensures Float64(u).TypeCode() == 7 && EncodeValue(Float64(u)) == NONE + [0, 0, u / 0x100, u % 0x100]
  {
    Bytes32(u);
    SmallTime(u);
    assert Encode64(u) == EncodeTime(u);
    hide Encode32, Encode64, EncodeTime, EncodeWords;
  }

  /** Arrays: their length in one byte, then their elements in their order. */
  lemma SampleArrays(x: uint16, y: uint16)
    ensures Int32Array([x, y]).TypeCode() == 8
            && EncodeValue(Int32Array([x, y])) == [2] + (Encode32(x) + Encode32(y))
    ensures Int64Array([x, y]).TypeCode() == 9
            && EncodeValue(Int64Array([x, y])) == [2] + (Encode64(x) + Encode64(y))
  {
    TwoWords(4, x, y);
    TwoWords(8, x, y);
    assert Unsigned32s([x, y]) == [x, y] && Unsigned64s([x, y]) == [x, y];
    hide EncodeWords, Unsigned32s, Unsigned64s, BigEndian;
  }

  lemma TwoWords(width: nat, x: uint16, y: uint16)
    requires width in {4, 8}
    ensures x < Pow256(width) && y < Pow256(width)
    ensures EncodeWords(width, [x, y]) == BigEndian(width, x) + BigEndian(width, y)
  {
    Widths();
    hide BigEndian;
    assert [x, y][1..] == [y] && [y][1..] == [];
    assert EncodeWords(width, [y]) == BigEndian(width, y) + EncodeWords(width, []);
  }

  // ---------------------------------------------------------------- what is accepted

  /** The types whose contents begin with their number in one byte; with the size of each. */
  predicate Counted(code: byte) {
    code in {1, 2, 8, 9, 10, 11}
  }

  function ItemSize(code: byte): nat {
    match code
    case 3 => 1
    case 4 => 4
    case 5 => 8
    case 6 => 4
    case 7 => 8
    case 1 => 1
    case 2 => 1
    case 8 => 4
    case 9 => 8
    case 10 => 4
    case 11 => 8
    case _ => 0
  }

  function Extent(code: byte, s: seq<byte>): nat {
    if Counted(code) then (if s == [] then 1 else 1 + s[0] * ItemSize(code)) else ItemSize(code)
  }

  lemma {:induction false} WordsExtent(width: nat, n: nat, s: seq<byte>)
    requires width in {4, 8}
    ensures DecodeWords(width, n, s) != Threw && (DecodeWords(width, n, s).Got? <==> n * width <= |s|)
    ensures n * width <= |s| ==> |DecodeWords(width, n, s).value| == n && DecodeWords(width, n, s).rest == s[n * width..]
  {
    hide FromBigEndian;
    if n > 0 && |s| >= width {
      WordsExtent(width, n - 1, s[width..]);
      if n * width <= |s| {
        assert s[width..][(n - 1) * width..] == s[n * width..];
      }
    }
  }

  lemma ArrayExtent(width: nat, s: seq<byte>)
    requires width in {4, 8}
    ensures DecodeArray(width, s) != Threw
    ensures DecodeArray(width, s).Got? <==> s != [] && 1 + s[0] * width <= |s|
    ensures DecodeArray(width, s).Got? ==>
              && |DecodeArray(width, s).value| == s[0] && Fit(width, DecodeArray(width, s).value)
              && DecodeArray(width, s).rest == s[1 + s[0] * width..]
  {
    if s != [] {
      WordsExtent(width, s[0], s[1..]);
      hide DecodeWords;
      assert 1 + s[0] * width <= |s| ==> s[1..][s[0] * width..] == s[1 + s[0] * width..];
    }
  }

  lemma KeepsLength(words: seq<nat>)
    ensures Fit(4, words) ==> |Signed32s(As32(words))| == |words|
    ensures Fit(8, words) ==> |Signed64s(As64(words))| == |words| == |LowHalves(As64(words))|
  {
  }

  lemma ArrayOutcomeIs(code: byte, s: seq<byte>)
    requires 8 <= code <= 11
    ensures DecodeValue(code, s) == Threw <==> Counted(code) && s != [] && s[0] == 255 && Extent(code, s) <= |s|
    ensures DecodeValue(code, s).Got? <==>
              code <= 11 && (Counted(code) ==> s != [] && s[0] < 255) && Extent(code, s) <= |s|
    ensures DecodeValue(code, s).Got? ==> DecodeValue(code, s).rest == s[Extent(code, s)..]
  {
    hide FromBigEndian, DecodeArray, Signed32s, Signed64s, LowHalves, As32, As64, Fit;
    ArrayExtent(ItemSize(code), s);
    var words := DecodeArray(ItemSize(code), s);
    if words.Got? {
      KeepsLength(words.value);
    }
  }

  lemma PlainOutcomeIs(code: byte, s: seq<byte>)
    requires code < 8
    ensures DecodeValue(code, s) == Threw <==> Counted(code) && s != [] && s[0] == 255 && Extent(code, s) <= |s|
    ensures DecodeValue(code, s).Got? <==>
              code <= 11 && (Counted(code) ==> s != [] && s[0] < 255) && Extent(code, s) <= |s|
    ensures DecodeValue(code, s).Got? ==> DecodeValue(code, s).rest == s[Extent(code, s)..]
  {
    hide FromBigEndian, DecodeArray, Signed32s, Signed64s, LowHalves, As32, As64, Fit;
    if code in {1, 2} && s != [] && Extent(code, s) <= |s| {
      assert s[1..][s[0]..] == s[Extent(code, s)..];
    }
  }

  /** Reading a value of any type from any bytes: it throws when 255 elements are announced and there; otherwise it
      succeeds if and only if the type is known and the bytes are there, and takes just these. */
  lemma OutcomeIs(code: byte, s: seq<byte>)
    ensures DecodeValue(code, s) == Threw <==> Counted(code) && s != [] && s[0] == 255 && Extent(code, s) <= |s|
    ensures DecodeValue(code, s).Got? <==>
              code <= 11 && (Counted(code) ==> s != [] && s[0] < 255) && Extent(code, s) <= |s|
    ensures DecodeValue(code, s).Got? ==> DecodeValue(code, s).rest == s[Extent(code, s)..]
  {
    hide Counted, Extent;
    if code < 8 {
      PlainOutcomeIs(code, s);
    } else if code <= 11 {
      ArrayOutcomeIs(code, s);
    } else {
      NotCounted(code);
    }
  }

  lemma NotCounted(code: byte)
    requires code > 11
    ensures !Counted(code)
  {
  }

  /** Arrays of floats, which only other implementations send: floats arrive as they are, doubles without their high
      halves. */
  lemma FloatArraysRead(floats: seq<uint32>, highs: seq<uint32>, doubles: seq<uint64>, rest: seq<byte>)
    requires |floats| == |highs| == |doubles| < SIZE_LIMIT
    requires forall i | 0 <= i < |doubles| :: doubles[i] == highs[i] * U32 + floats[i]
    ensures Fit(4, floats) && Fit(8, doubles)
    ensures DecodeValue(10, [|floats|] + EncodeWords(4, floats) + rest) == Got(Float32Array(floats), rest)
    ensures DecodeValue(11, [|doubles|] + EncodeWords(8, doubles) + rest) == Got(Float64Array(floats), rest)
  {
    Widths();
    hide DecodeArray, EncodeWords, As32, As64, LowHalves, LowHalf;
    DecodeArrayBack(4, floats, rest);
    DecodeArrayBack(8, doubles, rest);
    LowHalvesAre(floats, highs, doubles);
  }

  lemma LowHalvesAre(floats: seq<uint32>, highs: seq<uint32>, doubles: seq<uint64>)
    requires |floats| == |highs| == |doubles|
    requires forall i | 0 <= i < |doubles| :: doubles[i] == highs[i] * U32 + floats[i]
    ensures LowHalves(doubles) == floats
  {
    hide LowHalf;
    forall i | 0 <= i < |doubles| ensures LowHalf(doubles[i]) == floats[i] {
      LowHalfIs(highs[i], floats[i]);
    }
  }
}
