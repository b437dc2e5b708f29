/** The serializer and the deserializer of src/io/serialize.cpp over the linear buffer and the read-only view of
    src/io/buffer.cpp, proved against the format of `Codec`. */
module Serializer {
  import opened Wrappers
  import opened Bytes
  import opened Codec

  class LinearBuffer {
    const data: array<byte>
    var writePos: nat

    ghost predicate Valid()
      reads this
    {
      writePos <= data.Length
    }

    ghost function Written(): seq<byte>
      requires Valid()
      reads this, data
    {
      data[..writePos]
    }

    constructor (size: nat)
      ensures Valid() && fresh(data) && data.Length == size && Written() == []
    {
      data := new byte[size];
      writePos := 0;
    }

    method Reset()
      modifies this
      ensures Valid() && Written() == []
    {
      writePos := 0;
    }

    method Write(bytes: seq<byte>) returns (ok: bool)
      requires Valid()
      modifies this, data
      ensures Valid() && Appends(old(Written()), Written(), data.Length, ok, bytes)
    {
      var spaceToMax := data.Length - writePos;
      if |bytes| > spaceToMax {
        return false;
      }
      forall i | 0 <= i < |bytes| {
        data[writePos + i] := bytes[i];
      }
      writePos := writePos + |bytes|;
      ok := true;
    }
  }

  /** A write of `data` succeeds exactly when it fits, and then appends it; a failed one has written some part. */
  ghost predicate Appends(before: seq<byte>, after: seq<byte>, capacity: nat, ok: bool, data: seq<byte>) {
    && (ok <==> |before| + |data| <= capacity)
    && (ok ==> after == before + data)
    && before <= after
  }

  /** Two writes in a row amount to one. */
  lemma AppendsTwice(before: seq<byte>, middle: seq<byte>, after: seq<byte>, capacity: nat, ok: bool,
                     a: seq<byte>, b: seq<byte>)
    requires Appends(before, middle, capacity, true, a) && Appends(middle, after, capacity, ok, b)
    ensures Appends(before, after, capacity, ok, a + b)
  {
    assert before + a + b == before + (a + b);
  }

  lemma EncodeWordsStep(width: nat, words: seq<nat>, i: nat, written: seq<byte>, all: seq<byte>)
    requires i < |words| && Fit(width, words)
    requires written + EncodeWords(width, words[i..]) == all
    ensures written + BigEndian(width, words[i]) + EncodeWords(width, words[i + 1..]) == all
    ensures |written| + width <= |all|
  {
    assert words[i..][1..] == words[i + 1..];
  }

  class Serializer {
    const buffer: LinearBuffer

    constructor (buffer: LinearBuffer)
      ensures this.buffer == buffer
    {
      this.buffer := buffer;
    }

    method Write8(value: byte) returns (ok: bool)
      requires buffer.Valid()
      modifies buffer, buffer.data
      ensures buffer.Valid() && Appends(old(buffer.Written()), buffer.Written(), buffer.data.Length, ok, [value])
    {
      ok := buffer.Write([value]);
    }

    method Write16(value: uint16) returns (ok: bool)
      requires buffer.Valid()
      modifies buffer, buffer.data
      ensures buffer.Valid()
      ensures Appends(old(buffer.Written()), buffer.Written(), buffer.data.Length, ok, Encode16(value))
    {
      ok := buffer.Write(Encode16(value));
    }

    method Write32(value: uint32) returns (ok: bool)
      requires buffer.Valid()
      modifies buffer, buffer.data
      ensures buffer.Valid()
      ensures Appends(old(buffer.Written()), buffer.Written(), buffer.data.Length, ok, Encode32(value))
    {
      ok := buffer.Write(Encode32(value));
    }

    method Write64(value: uint64) returns (ok: bool)
      requires buffer.Valid()
      modifies buffer, buffer.data
      ensures buffer.Valid()
      ensures Appends(old(buffer.Written()), buffer.Written(), buffer.data.Length, ok, Encode64(value))
    {
      ok := buffer.Write(Encode64(value));
    }

    method WriteSize(size: nat) returns (ok: bool)
      requires buffer.Valid()
      modifies buffer, buffer.data
      ensures buffer.Valid()
      ensures size >= SIZE_LIMIT ==> !ok && buffer.Written() == old(buffer.Written())
      ensures size < SIZE_LIMIT ==>
                Appends(old(buffer.Written()), buffer.Written(), buffer.data.Length, ok, [size])
    {
      if size >= SIZE_LIMIT {
        return false;
      }
      ok := Write8(size);
    }

    /** Byte strings, and text in the same form. */
    method WriteRaw(bytes: seq<byte>) returns (ok: bool)
      requires buffer.Valid()
      modifies buffer, buffer.data
      ensures buffer.Valid()
      ensures |bytes| >= SIZE_LIMIT ==> !ok && buffer.Written() == old(buffer.Written())
      ensures |bytes| < SIZE_LIMIT ==>
                Appends(old(buffer.Written()), buffer.Written(), buffer.data.Length, ok, Sized(bytes))
    {
      ok := WriteSize(|bytes|);
      if !ok {
        return false;
      }
      ghost var sized := buffer.Written();
      ok := buffer.Write(bytes);
      AppendsTwice(old(buffer.Written()), sized, buffer.Written(), buffer.data.Length, ok, [|bytes|], bytes);
    }

    /** A length and that many words: the loop the array writers share. */
    method WriteArr(width: nat, words: seq<nat>) returns (ok: bool)
      requires buffer.Valid() && Fit(width, words)
      modifies buffer, buffer.data
      ensures buffer.Valid()
      ensures |words| >= SIZE_LIMIT ==> !ok && buffer.Written() == old(buffer.Written())
      ensures |words| < SIZE_LIMIT ==>
                Appends(old(buffer.Written()), buffer.Written(), buffer.data.Length, ok,
                        [|words|] + EncodeWords(width, words))
    {
      ghost var start := buffer.Written();
      ok := WriteSize(|words|);
      if !ok {
        return false;
      }
      ghost var all := start + ([|words|] + EncodeWords(width, words));
      for i := 0 to |words|
        invariant buffer.Valid() && start <= buffer.Written()
        invariant buffer.Written() + EncodeWords(width, words[i..]) == all
      {
        ghost var before := buffer.Written();
        EncodeWordsStep(width, words, i, before, all);
        ok := buffer.Write(BigEndian(width, words[i]));
        if !ok {
          return false;
        }
      }
      assert buffer.Written() + [] == buffer.Written();
      ok := true;
    }

    /** Writes a value (not its type code). A value too long for the format is refused. */
    method WriteValue(value: Value) returns (ok: bool)
      requires buffer.Valid() && !value.FloatArray()
      modifies buffer, buffer.data
      ensures buffer.Valid()
      ensures !value.WithinLimits() ==> !ok && old(buffer.Written()) <= buffer.Written()
      ensures value.WithinLimits() ==>
                Appends(old(buffer.Written()), buffer.Written(), buffer.data.Length, ok, EncodeValue(value))
    {
      match value
      case Empty => ok := true;
      case Raw(s) => ok := WriteRaw(s);
      case Str(s) => ok := WriteRaw(s);
      case Boolean(b) => ok := Write8(if b then 1 else 0);
      case Int32(i) => ok := Write32(Unsigned(U32, i));
      case Int64(i) => ok := Write64(Unsigned(U64, i));
      case Float32(bits) => ok := Write32(bits);
      case Float64(bits) => ok := Write64(bits);
      case Int32Array(a) => Widths(); ok := WriteArr(4, Unsigned32s(a));
      case Int64Array(a) => Widths(); ok := WriteArr(8, Unsigned64s(a));
    }
  }

  // ---------------------------------------------------------------- reading

  class ReadonlyBufferView {
    var buffer: seq<byte>
    var readPos: nat

    ghost predicate Valid()
      reads this
    {
      readPos <= |buffer|
    }

    ghost function Remaining(): seq<byte>
      requires Valid()
      reads this
    {
      buffer[readPos..]
    }

    constructor ()
      ensures Valid() && Remaining() == []
    {
      buffer, readPos := [], 0;
    }

    method Reset(bytes: seq<byte>)
      modifies this
      ensures Valid() && Remaining() == bytes
    {
      buffer, readPos := bytes, 0;
    }

    method Read(size: nat) returns (r: Option<seq<byte>>)
      requires Valid()
      modifies this
      ensures Valid()
      ensures Reads(Take(size, old(Remaining())), r, Remaining())
    {
      var spaceToMax := |buffer| - readPos;
      if size > spaceToMax {
        return None;
      }
      ghost var left := Remaining();
      r := Some(buffer[readPos..readPos + size]);
      assert left[..size] == r.value && left[size..] == buffer[readPos + size..];
      readPos := readPos + size;
    }
  }

  /** A reading method agrees with what the format says is there. */
  ghost predicate Reads<T>(d: Decoded<T>, r: Option<T>, left: seq<byte>) {
    match d
    case Got(value, rest) => r == Some(value) && left == rest
    case _ => r == None
  }

  /** Reading a value can also throw. */
  datatype Reading = Nothing | Exception | Just(value: Value)

  ghost predicate ReadsValue(d: Decoded<Value>, r: Reading, left: seq<byte>) {
    match d
    case Got(value, rest) => r == Just(value) && left == rest
    case Failed => r == Nothing
    case Threw => r == Exception
  }

  class Deserializer {
    const view: ReadonlyBufferView

    constructor (view: ReadonlyBufferView)
      ensures this.view == view
    {
      this.view := view;
    }

    method ReadWord(width: nat) returns (r: Option<nat>)
      requires view.Valid()
      modifies view
      ensures view.Valid()
      ensures Reads(DecodeWord(width, old(view.Remaining())), r, view.Remaining())
      ensures r.Some? ==> r.value < Pow256(width)
    {
      var bytes := view.Read(width);
      if bytes.None? {
        return None;
      }
      r := Some(FromBigEndian(bytes.value));
    }

    method Read8() returns (r: Option<byte>)
      requires view.Valid()
      modifies view
      ensures view.Valid()
      ensures r.None? <==> old(view.Remaining()) == []
      ensures r.Some? ==> r.value == old(view.Remaining())[0] && view.Remaining() == old(view.Remaining())[1..]
    {
      var bytes := view.Read(1);
      if bytes.None? {
        return None;
      }
      r := Some(bytes.value[0]);
    }

    method ReadRaw() returns (r: Option<seq<byte>>)
      requires view.Valid()
      modifies view
      ensures view.Valid()
      ensures Reads(DecodeSized(old(view.Remaining())), r, view.Remaining())
    {
      var size := Read8();
      if size.None? {
        return None;
      }
      r := view.Read(size.value);
    }

    /** A length and that many words: the loop the four array readers share. */
    method ReadArr(width: nat) returns (r: Option<seq<nat>>)
      requires view.Valid()
      modifies view
      ensures view.Valid()
      ensures Reads(DecodeArray(width, old(view.Remaining())), r, view.Remaining())
      ensures r.Some? ==> Fit(width, r.value)
    {
      var size := Read8();
      if size.None? {
        return None;
      }
      ghost var start := view.Remaining();
      var arr: seq<nat> := [];
      ContinuesFromStart(width, size.value, start);
      for i := 0 to size.value
        invariant view.Valid() && |arr| == i && Fit(width, arr)
        invariant Continues(DecodeWords(width, size.value, start), arr,
                            DecodeWords(width, size.value - i, view.Remaining()))
      {
        ghost var before := view.Remaining();
        var word := ReadWord(width);
        if word.None? {
          return None;
        }
        ContinuesOne(width, size.value - i, before, DecodeWords(width, size.value, start), arr);
        arr := arr + [word.value];
      }
      assert arr + [] == arr;
      r := Some(arr);
    }

    method ReadValue(code: byte) returns (r: Reading)
      requires view.Valid()
      modifies view
      ensures view.Valid()
      ensures ReadsValue(DecodeValue(code, old(view.Remaining())), r, view.Remaining())
    {
      Widths();
      r := Nothing;
      match code
      case 0 => r := Just(Empty);
      case 1 =>
        var raw := ReadRaw();
        if raw.Some? {
          r := Make(Raw(raw.value));
        }
      case 2 =>
        var text := ReadRaw();
        if text.Some? {
          r := Make(Str(text.value));
        }
      case 3 =>
        var flag := Read8();
        if flag.Some? {
          r := Just(Boolean(flag.value != 0));
        }
      case 4 =>
        var word := ReadWord(4);
        if word.Some? {
          r := Just(Int32(Signed(U32, word.value)));
        }
      case 5 =>
        var word := ReadWord(8);
        if word.Some? {
          r := Just(Int64(Signed(U64, word.value)));
        }
      case 6 =>
        var word := ReadWord(4);
        if word.Some? {
          r := Just(Float32(word.value));
        }
      case 7 =>
        var word := ReadWord(8);
        if word.Some? {
          r := Just(Float64(LowHalf(word.value)));
        }
      case 8 =>
        var arr := ReadArr(4);
        if arr.Some? {
          r := Make(Int32Array(Signed32s(As32(arr.value))));
        }
      case 9 =>
        var arr := ReadArr(8);
        if arr.Some? {
          r := Make(Int64Array(Signed64s(As64(arr.value))));
        }
      case 10 =>
        var arr := ReadArr(4);
        if arr.Some? {
          r := Make(Float32Array(As32(arr.value)));
        }
      case 11 =>
        var arr := ReadArr(8);
        if arr.Some? {
          r := Make(Float64Array(LowHalves(As64(arr.value))));
        }
      case _ =>
    }
  }

  /** The factories of include/obsr_types.h throw when the contents are too long. */
  function Make(v: Value): Reading {
    if v.WithinLimits() then Just(v) else Exception
  }

  /** Having read the words `arr`, what is left to decode completes `whole`. */
  ghost predicate Continues(whole: Decoded<seq<nat>>, arr: seq<nat>, left: Decoded<seq<nat>>) {
    if left.Got? then whole == Got(arr + left.value, left.rest) else whole == Failed && left == Failed
  }

  lemma {:induction false} ContinuesFromStart(width: nat, n: nat, s: seq<byte>)
    ensures !DecodeWords(width, n, s).Threw?
    ensures Continues(DecodeWords(width, n, s), [], DecodeWords(width, n, s))
  {
    var d := DecodeWords(width, n, s);
    if d.Got? {
      assert [] + d.value == d.value;
    }
  }

  lemma ContinuesOne(width: nat, n: nat, s: seq<byte>, whole: Decoded<seq<nat>>, arr: seq<nat>)
    requires n > 0 && |s| >= width
    requires Continues(whole, arr, DecodeWords(width, n, s))
    ensures Continues(whole, arr + [FromBigEndian(s[..width])], DecodeWords(width, n - 1, s[width..]))
  {
    var left := DecodeWords(width, n - 1, s[width..]);
    if left.Got? {
      var word := FromBigEndian(s[..width]);
      assert arr + ([word] + left.value) == arr + [word] + left.value;
    }
  }
}
