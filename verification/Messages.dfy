/** The message bodies of src/net/serialize.cpp: what `message_serializer` writes and what the `message_parser` state
    machine makes of it. */
module Messages {
  import opened Wrappers
  import opened Bytes
  import opened Codec
  import opened Serializer
  import opened StateMachine

  datatype Message =
    | NoType
    | EntryCreate(sendTime: int64, name: seq<byte>, value: Value)
    | EntryUpdate(sendTime: int64, id: uint16, value: Value)
    | EntryDelete(sendTime: int64, id: uint16)
    | EntryIdAssign(id: uint16, name: seq<byte>)
    | HandshakeFinished
    | HandshakeReady
    | TimeSyncRequest(sendTime: int64)
    | TimeSyncResponse(sendTime: int64, time: int64)
  {
    function Kind(): (kind: byte) {
      match this
      case NoType => 0
      case EntryCreate(_, _, _) => 1
      case EntryUpdate(_, _, _) => 2
      case EntryDelete(_, _) => 3
      case EntryIdAssign(_, _) => 4
      case HandshakeFinished => 5
      case HandshakeReady => 6
      case TimeSyncRequest(_) => 7
      case TimeSyncResponse(_, _) => 8
    }

    /** The strings and the value of the message are short enough to be written. */
    predicate WithinLimits() {
      match this
      case EntryCreate(_, name, value) => |name| < SIZE_LIMIT && value.WithinLimits() && !value.FloatArray()
      case EntryUpdate(_, _, value) => value.WithinLimits() && !value.FloatArray()
      case EntryIdAssign(_, name) => |name| < SIZE_LIMIT
      case _ => true
    }
  }

  function EncodeTime(t: int64): seq<byte> {
    Encode64(Unsigned(U64, t))
  }

  function EncodeBody(m: Message): seq<byte>
    requires m.WithinLimits()
  {
    match m
    case EntryCreate(t, name, v) => EncodeTime(t) + (Sized(name) + ([v.TypeCode()] + EncodeValue(v)))
    case EntryUpdate(t, id, v) => EncodeTime(t) + (Encode16(id) + ([v.TypeCode()] + EncodeValue(v)))
    case EntryDelete(t, id) => EncodeTime(t) + Encode16(id)
    case EntryIdAssign(id, name) => Encode16(id) + Sized(name)
    case TimeSyncRequest(t) => EncodeTime(t)
    case TimeSyncResponse(t, time) => EncodeTime(t) + EncodeTime(time)
    case _ => []
  }

  // ---------------------------------------------------------------- the layouts

  datatype Field = SendTime | Id | Name | ValueType | FieldValue | TimeValue

  datatype ParseData = ParseData(sendTime: int64, id: uint16, name: seq<byte>, valueType: byte, value: Value,
                                 timeValue: int64)

  /** The fields of each known message type, in order. */
  function Layout(kind: byte): Option<seq<Field>> {
    match kind
    case 1 => Some([SendTime, Name, ValueType, FieldValue])
    case 2 => Some([SendTime, Id, ValueType, FieldValue])
    case 3 => Some([SendTime, Id])
    case 4 => Some([Id, Name])
    case 5 => Some([])
    case 6 => Some([])
    case 7 => Some([SendTime])
    case 8 => Some([SendTime, TimeValue])
    case _ => None
  }

  function ReadField(f: Field, d: ParseData, s: seq<byte>): Decoded<ParseData> {
    Widths();
    match f
    case SendTime =>
      (match DecodeWord(8, s) case Got(u, rest) => Got(d.(sendTime := Signed(U64, u)), rest) case _ => Failed)
    case Id => (match DecodeWord(2, s) case Got(u, rest) => Got(d.(id := u), rest) case _ => Failed)
    case Name => (match DecodeSized(s) case Got(name, rest) => Got(d.(name := name), rest) case _ => Failed)
    case ValueType => if s == [] then Failed else Got(d.(valueType := s[0]), s[1..])
    case FieldValue =>
      (match DecodeValue(d.valueType, s)
       case Got(v, rest) => Got(d.(value := v), rest)
       case Failed => Failed
       case Threw => Threw)
    case TimeValue =>
      (match DecodeWord(8, s) case Got(u, rest) => Got(d.(timeValue := Signed(U64, u)), rest) case _ => Failed)
  }

  /** Reads the fields one after the other into `d`. */
  function ReadFields(fs: seq<Field>, d: ParseData, s: seq<byte>): Decoded<ParseData> {
    if fs == [] then Got(d, s)
    else
      match ReadField(fs[0], d, s)
      case Got(d', rest) => ReadFields(fs[1..], d', rest)
      case Failed => Failed
      case Threw => Threw
  }

  // ---------------------------------------------------------------- round trip

  /** `d` with the fields that `m` carries; a double comes back without its high half. */
  function Carried(m: Message, d: ParseData): ParseData {
    match m
    case EntryCreate(t, name, v) =>
      d.(sendTime := t, name := name, valueType := v.TypeCode(), value := ReadBack(v))
    case EntryUpdate(t, id, v) => d.(sendTime := t, id := id, valueType := v.TypeCode(), value := ReadBack(v))
    case EntryDelete(t, id) => d.(sendTime := t, id := id)
    case EntryIdAssign(id, name) => d.(id := id, name := name)
    case TimeSyncRequest(t) => d.(sendTime := t)
    case TimeSyncResponse(t, time) => d.(sendTime := t, timeValue := time)
    case _ => d
  }

  lemma FieldThen(f: Field, fs: seq<Field>, d: ParseData, piece: seq<byte>, d': ParseData, s: seq<byte>)
    requires ReadField(f, d, piece + s) == Got(d', s)
    ensures ReadFields([f] + fs, d, piece + s) == ReadFields(fs, d', s)
  {
    assert ([f] + fs)[1..] == fs;
  }

  lemma TimeField(f: Field, d: ParseData, t: int64, s: seq<byte>)
    requires f in {SendTime, TimeValue}
    ensures ReadField(f, d, EncodeTime(t) + s) == Got(if f == SendTime then d.(sendTime := t) else d.(timeValue := t), s)
  {
    Widths();
    DecodeWordBack(8, Unsigned(U64, t), s);
  }

  lemma IdField(d: ParseData, id: uint16, s: seq<byte>)
    ensures ReadField(Id, d, Encode16(id) + s) == Got(d.(id := id), s)
  {
    Widths();
    DecodeWordBack(2, id, s);
  }

  lemma NameField(d: ParseData, name: seq<byte>, s: seq<byte>)
    requires |name| < SIZE_LIMIT
    ensures ReadField(Name, d, Sized(name) + s) == Got(d.(name := name), s)
  {
    DecodeSizedBack(name, s);
  }

  lemma NoFields(d: ParseData, s: seq<byte>)
    ensures ReadFields([], d, s) == Got(d, s)
  {
  }

  lemma ValueFields(d: ParseData, v: Value, s: seq<byte>)
    requires v.WithinLimits() && !v.FloatArray()
    ensures ReadFields([ValueType, FieldValue], d, [v.TypeCode()] + EncodeValue(v) + s)
            == Got(d.(valueType := v.TypeCode(), value := ReadBack(v)), s)
  {
    var d' := d.(valueType := v.TypeCode());
    assert [v.TypeCode()] + EncodeValue(v) + s == [v.TypeCode()] + (EncodeValue(v) + s);
    assert [ValueType] + [FieldValue] == [ValueType, FieldValue] && [FieldValue] + [] == [FieldValue];
    FieldThen(ValueType, [FieldValue], d, [v.TypeCode()], d', EncodeValue(v) + s);
    ValueRoundTrip(v, s);
    FieldThen(FieldValue, [], d', EncodeValue(v), d'.(value := ReadBack(v)), s);
  }

  /** Parsing a written message returns every field it carries, whatever follows it and whatever the parser held. */
  lemma BodyRoundTrip(m: Message, d: ParseData, trailing: seq<byte>)
    requires m.WithinLimits() && m != NoType
    ensures Layout(m.Kind()).Some?
    ensures ReadFields(Layout(m.Kind()).value, d, EncodeBody(m) + trailing) == Got(Carried(m, d), trailing)
  {
    hide ReadField, ReadFields, EncodeValue, EncodeTime, Encode16, Sized, ReadBack;
    var s := EncodeBody(m) + trailing;
    match m
    case EntryCreate(t, name, v) =>
      var s' := [v.TypeCode()] + EncodeValue(v) + trailing;
      assert s == EncodeTime(t) + (Sized(name) + s');
      assert Layout(1).value == [SendTime] + ([Name] + [ValueType, FieldValue]);
      TimeField(SendTime, d, t, Sized(name) + s');
      FieldThen(SendTime, [Name] + [ValueType, FieldValue], d, EncodeTime(t), d.(sendTime := t), Sized(name) + s');
      NameField(d.(sendTime := t), name, s');
      FieldThen(Name, [ValueType, FieldValue], d.(sendTime := t), Sized(name), d.(sendTime := t, name := name), s');
      ValueFields(d.(sendTime := t, name := name), v, trailing);
    case EntryUpdate(t, id, v) =>
      var s' := [v.TypeCode()] + EncodeValue(v) + trailing;
      assert s == EncodeTime(t) + (Encode16(id) + s');
      assert Layout(2).value == [SendTime] + ([Id] + [ValueType, FieldValue]);
      TimeAndId(t, id, [ValueType, FieldValue], d, s');
      ValueFields(d.(sendTime := t, id := id), v, trailing);
    case EntryDelete(t, id) =>
      assert s == EncodeTime(t) + (Encode16(id) + trailing);
      assert Layout(3).value == [SendTime] + ([Id] + []);
      TimeAndId(t, id, [], d, trailing);
      NoFields(d.(sendTime := t, id := id), trailing);
    case EntryIdAssign(id, name) =>
      assert s == Encode16(id) + (Sized(name) + trailing);
      assert Layout(4).value == [Id] + ([Name] + []);
      IdField(d, id, Sized(name) + trailing);
      FieldThen(Id, [Name] + [], d, Encode16(id), d.(id := id), Sized(name) + trailing);
      NameField(d.(id := id), name, trailing);
      NoFields(d.(id := id, name := name), trailing);
      FieldThen(Name, [], d.(id := id), Sized(name), d.(id := id, name := name), trailing);
    case TimeSyncRequest(t) =>
      assert Layout(7).value == [SendTime] + [];
      TimeField(SendTime, d, t, trailing);
      FieldThen(SendTime, [], d, EncodeTime(t), d.(sendTime := t), trailing);
      NoFields(d.(sendTime := t), trailing);
    case TimeSyncResponse(t, time) =>
      assert s == EncodeTime(t) + (EncodeTime(time) + trailing);
      assert Layout(8).value == [SendTime] + ([TimeValue] + []);
      TimeField(SendTime, d, t, EncodeTime(time) + trailing);
      FieldThen(SendTime, [TimeValue] + [], d, EncodeTime(t), d.(sendTime := t), EncodeTime(time) + trailing);
      TimeField(TimeValue, d.(sendTime := t), time, trailing);
      FieldThen(TimeValue, [], d.(sendTime := t), EncodeTime(time), Carried(m, d), trailing);
      NoFields(Carried(m, d), trailing);
    case HandshakeFinished =>
      NoFields(d, trailing);
      assert s == trailing;
    case HandshakeReady =>
      NoFields(d, trailing);
      assert s == trailing;
    case NoType =>
  }

  lemma TimeAndId(t: int64, id: uint16, fs: seq<Field>, d: ParseData, s: seq<byte>)
    ensures ReadFields([SendTime] + ([Id] + fs), d, EncodeTime(t) + (Encode16(id) + s))
            == ReadFields(fs, d.(sendTime := t, id := id), s)
  {
    TimeField(SendTime, d, t, Encode16(id) + s);
    FieldThen(SendTime, [Id] + fs, d, EncodeTime(t), d.(sendTime := t), Encode16(id) + s);
    IdField(d.(sendTime := t), id, s);
    FieldThen(Id, fs, d.(sendTime := t), Encode16(id), d.(sendTime := t, id := id), s);
  }

  // ---------------------------------------------------------------- nothing else is accepted

  /** The message a successful parse has read. */
  function MessageOf(kind: byte, d: ParseData): Message {
    match kind
    case 1 => EntryCreate(d.sendTime, d.name, d.value)
    case 2 => EntryUpdate(d.sendTime, d.id, d.value)
    case 3 => EntryDelete(d.sendTime, d.id)
    case 4 => EntryIdAssign(d.id, d.name)
    case 5 => HandshakeFinished
    case 6 => HandshakeReady
    case 7 => TimeSyncRequest(d.sendTime)
    case 8 => TimeSyncResponse(d.sendTime, d.timeValue)
    case _ => NoType
  }

  lemma FieldFirst(f: Field, fs: seq<Field>, d: ParseData, s: seq<byte>)
    requires ReadFields([f] + fs, d, s).Got?
    ensures ReadField(f, d, s).Got?
    ensures ReadFields([f] + fs, d, s) == ReadFields(fs, ReadField(f, d, s).value, ReadField(f, d, s).rest)
  {
    assert ([f] + fs)[1..] == fs;
  }

  /** Each field but the value is read from exactly the bytes it is written as. */
  lemma FieldExactly(f: Field, d: ParseData, s: seq<byte>)
    requires f !in {ValueType, FieldValue} && ReadField(f, d, s).Got?
    requires f == Name ==> |ReadField(f, d, s).value.name| < SIZE_LIMIT
    ensures
      var Got(d', rest) := ReadField(f, d, s);
      match f
      case SendTime => d' == d.(sendTime := d'.sendTime) && s == EncodeTime(d'.sendTime) + rest
      case TimeValue => d' == d.(timeValue := d'.timeValue) && s == EncodeTime(d'.timeValue) + rest
      case Id => d' == d.(id := d'.id) && s == Encode16(d'.id) + rest
      case Name => d' == d.(name := d'.name) && |d'.name| < SIZE_LIMIT && s == Sized(d'.name) + rest
      case _ => true
  {
    Widths();
    match f
    case Id => DecodedWordExactly(2, s);
    case Name => DecodedSizedExactly(s);
    case SendTime =>
      DecodedWordExactly(8, s);
      UnsignedSigned(U64, FromBigEndian(s[..8]));
    case TimeValue =>
      DecodedWordExactly(8, s);
      UnsignedSigned(U64, FromBigEndian(s[..8]));
    case ValueType =>
    case FieldValue =>
  }

  /** The value that ends where `rest` begins is written as it was read. */
  ghost predicate CanonicalEnd(valueType: byte, s: seq<byte>, rest: seq<byte>) {
    && (valueType == 3 ==> |rest| + 1 <= |s| && Canonical(3, s[|s| - |rest| - 1..]))
    && (valueType == 7 ==> |rest| + 8 <= |s| && Canonical(7, s[|s| - |rest| - 8..]))
  }

  lemma ValueFieldsExactly(d: ParseData, s: seq<byte>)
    requires ReadFields([ValueType, FieldValue], d, s).Got?
    requires ReadFields([ValueType, FieldValue], d, s).value.valueType !in {10, 11}
    ensures
      var Got(d', rest) := ReadFields([ValueType, FieldValue], d, s);
      && d'.value.TypeCode() == d'.valueType && d'.value.WithinLimits() && !d'.value.FloatArray()
      && d' == d.(valueType := d'.valueType, value := d'.value) && ReadBack(d'.value) == d'.value
      && (s == [d'.valueType] + EncodeValue(d'.value) + rest <==> CanonicalEnd(d'.valueType, s, rest))
  {
    assert [ValueType] + [FieldValue] == [ValueType, FieldValue] && [FieldValue] + [] == [FieldValue];
    FieldFirst(ValueType, [FieldValue], d, s);
    var typed := d.(valueType := s[0]);
    FieldFirst(FieldValue, [], typed, s[1..]);
    NoFields(ReadField(FieldValue, typed, s[1..]).value, ReadField(FieldValue, typed, s[1..]).rest);
    ReadExactly(s[0], s[1..]);
    assert s == [s[0]] + s[1..];
  }

  lemma ReadExactly(code: byte, s: seq<byte>)
    requires DecodeValue(code, s).Got? && code !in {10, 11}
    ensures
      var Got(v, rest) := DecodeValue(code, s);
      && v.TypeCode() == code && v.WithinLimits() && !v.FloatArray() && ReadBack(v) == v
      && ([code] + s == [code] + EncodeValue(v) + rest <==> CanonicalEnd(code, [code] + s, rest))
  {
    hide EncodeValue, Canonical, DecodeValue, Value.TypeCode, Value.WithinLimits, ReadBack;
    DecodedExactly(code, s);
    RestOf(code, s);
    var Got(v, rest) := DecodeValue(code, s);
    EndIsHere(code, s, rest);
    assert [code] + EncodeValue(v) + rest == [code] + (EncodeValue(v) + rest);
    assert ([code] + s)[1..] == s && ([code] + (EncodeValue(v) + rest))[1..] == EncodeValue(v) + rest;
  }

  lemma RestOf(code: byte, s: seq<byte>)
    requires DecodeValue(code, s).Got?
    ensures code == 3 ==> s != [] && DecodeValue(code, s).rest == s[1..]
    ensures code == 7 ==> |s| >= 8 && DecodeValue(code, s).rest == s[8..]
  {
  }

  lemma EndIsHere(code: byte, s: seq<byte>, rest: seq<byte>)
    requires (code == 3 ==> s != [] && rest == s[1..]) && (code == 7 ==> |s| >= 8 && rest == s[8..])
    ensures CanonicalEnd(code, [code] + s, rest) <==> Canonical(code, s)
  {
    assert ([code] + s)[1..] == s;
  }

  /** Whatever the parser finishes on, it holds the fields of the message it has read; and the bytes begin with the body
      of that message if and only if a flag byte is 0 or 1 and a double has no high half. So beyond what the serializer
      writes it accepts only such flags and doubles, names of 255 bytes, and float arrays. */
  lemma ParsedExactly(kind: byte, d0: ParseData, s: seq<byte>)
    requires Layout(kind).Some? && ReadFields(Layout(kind).value, d0, s).Got?
    requires
      var Got(d, rest) := ReadFields(Layout(kind).value, d0, s);
      && (Name in Layout(kind).value ==> |d.name| < SIZE_LIMIT)
      && (FieldValue in Layout(kind).value ==> d.valueType !in {10, 11})
    ensures
      var Got(d, rest) := ReadFields(Layout(kind).value, d0, s);
      var m := MessageOf(kind, d);
      && m.Kind() == kind && m.WithinLimits() && Carried(m, d0) == d
      && (s == EncodeBody(m) + rest
          <==> (FieldValue in Layout(kind).value ==> CanonicalEnd(d.valueType, s, rest)))
  {
    hide ReadField, ReadFields, EncodeValue, EncodeTime, Encode16, Sized, ReadBack, CanonicalEnd;
    match kind
    case 1 => CreateParsedExactly(d0, s);
    case 2 => UpdateParsedExactly(d0, s);
    case 3 =>
      assert Layout(3).value == [SendTime] + ([Id] + []);
      TwoFieldsExactly(SendTime, Id, d0, s);
    case 4 =>
      assert Layout(4).value == [Id] + ([Name] + []);
      TwoFieldsExactly(Id, Name, d0, s);
    case 7 =>
      assert Layout(7).value == [SendTime] + [];
      FieldFirst(SendTime, [], d0, s);
      FieldExactly(SendTime, d0, s);
      NoFields(ReadField(SendTime, d0, s).value, ReadField(SendTime, d0, s).rest);
    case 8 =>
      assert Layout(8).value == [SendTime] + ([TimeValue] + []);
      TwoFieldsExactly(SendTime, TimeValue, d0, s);
    case _ =>
      NoFields(d0, s);
      assert [] + s == s;
  }

  /** Putting the same bytes in front changes neither an equation nor where a value lies. */
  lemma InFront(front: seq<byte>, s: seq<byte>, t: seq<byte>, valueType: byte, rest: seq<byte>)
    requires |rest| < |s| && (valueType == 7 ==> |rest| + 8 <= |s|)
    ensures front + s == front + t <==> s == t
    ensures CanonicalEnd(valueType, front + s, rest) <==> CanonicalEnd(valueType, s, rest)
  {
    hide Canonical;
    assert s == (front + s)[|front|..] && t == (front + t)[|front|..];
    assert (front + s)[|front + s| - |rest| - 1..] == s[|s| - |rest| - 1..];
    if valueType == 7 {
      assert (front + s)[|front + s| - |rest| - 8..] == s[|s| - |rest| - 8..];
    }
  }

  lemma CreateParsedExactly(d0: ParseData, s: seq<byte>)
    requires ReadFields(Layout(1).value, d0, s).Got?
    requires
      var Got(d, rest) := ReadFields(Layout(1).value, d0, s);
      |d.name| < SIZE_LIMIT && d.valueType !in {10, 11}
    ensures
      var Got(d, rest) := ReadFields(Layout(1).value, d0, s);
      var m := MessageOf(1, d);
      && m.WithinLimits() && Carried(m, d0) == d
      && (s == EncodeBody(m) + rest <==> CanonicalEnd(d.valueType, s, rest))
  {
    hide ReadField, ReadFields, EncodeValue, EncodeTime, Sized, ReadBack, Value.WithinLimits, CanonicalEnd;
    assert Layout(1).value == [SendTime] + ([Name] + [ValueType, FieldValue]);
    FieldFirst(SendTime, [Name] + [ValueType, FieldValue], d0, s);
    var Got(d1, s1) := ReadField(SendTime, d0, s);
    FieldExactly(SendTime, d0, s);
    FieldFirst(Name, [ValueType, FieldValue], d1, s1);
    var Got(d2, s2) := ReadField(Name, d1, s1);
    ValueFieldsKeep(d2, s2);
    FieldExactly(Name, d1, s1);
    ValueFieldsExactly(d2, s2);
    var Got(d, rest) := ReadFields(Layout(1).value, d0, s);
    var front, value := EncodeTime(d.sendTime) + Sized(d.name), [d.valueType] + EncodeValue(d.value) + rest;
    assert s == front + s2;
    assert EncodeBody(MessageOf(1, d)) + rest == front + value;
    InFront(front, s2, value, d.valueType, rest);
  }

  lemma UpdateParsedExactly(d0: ParseData, s: seq<byte>)
    requires ReadFields(Layout(2).value, d0, s).Got?
    requires ReadFields(Layout(2).value, d0, s).value.valueType !in {10, 11}
    ensures
      var Got(d, rest) := ReadFields(Layout(2).value, d0, s);
      var m := MessageOf(2, d);
      && m.WithinLimits() && Carried(m, d0) == d
      && (s == EncodeBody(m) + rest <==> CanonicalEnd(d.valueType, s, rest))
  {
    hide ReadField, ReadFields, EncodeValue, EncodeTime, Encode16, ReadBack, Value.WithinLimits, CanonicalEnd;
    assert Layout(2).value == [SendTime] + ([Id] + [ValueType, FieldValue]);
    FieldFirst(SendTime, [Id] + [ValueType, FieldValue], d0, s);
    var Got(d1, s1) := ReadField(SendTime, d0, s);
    FieldExactly(SendTime, d0, s);
    FieldFirst(Id, [ValueType, FieldValue], d1, s1);
    var Got(d2, s2) := ReadField(Id, d1, s1);
    FieldExactly(Id, d1, s1);
    ValueFieldsKeep(d2, s2);
    ValueFieldsExactly(d2, s2);
    var Got(d, rest) := ReadFields(Layout(2).value, d0, s);
    var front, value := EncodeTime(d.sendTime) + Encode16(d.id), [d.valueType] + EncodeValue(d.value) + rest;
    assert s == front + s2;
    assert EncodeBody(MessageOf(2, d)) + rest == front + value;
    InFront(front, s2, value, d.valueType, rest);
  }

  /** Reading the value touches nothing else, and what is left of the bytes is their end. */
  lemma ValueFieldsKeep(d: ParseData, s: seq<byte>)
    requires ReadFields([ValueType, FieldValue], d, s).Got?
    ensures
      var Got(d', rest) := ReadFields([ValueType, FieldValue], d, s);
      && d' == d.(valueType := d'.valueType, value := d'.value) && |rest| < |s|
      && (d'.valueType == 7 ==> |rest| + 8 <= |s|)
  {
    assert [ValueType] + [FieldValue] == [ValueType, FieldValue] && [FieldValue] + [] == [FieldValue];
    FieldFirst(ValueType, [FieldValue], d, s);
    var typed := d.(valueType := s[0]);
    FieldFirst(FieldValue, [], typed, s[1..]);
    NoFields(ReadField(FieldValue, typed, s[1..]).value, ReadField(FieldValue, typed, s[1..]).rest);
    ValueShrinks(s[0], s[1..]);
  }

  lemma ValueShrinks(code: byte, s: seq<byte>)
    requires DecodeValue(code, s).Got?
    ensures |DecodeValue(code, s).rest| <= |s| && (code == 7 ==> |DecodeValue(code, s).rest| + 8 <= |s|)
  {
    if code in {8, 10} {
      DecodedArrayExactly(4, s);
    } else if code in {9, 11} {
      DecodedArrayExactly(8, s);
    }
  }

  lemma TwoFieldsExactly(f: Field, g: Field, d: ParseData, s: seq<byte>)
    requires (f, g) in {(SendTime, Id), (Id, Name), (SendTime, TimeValue)}
    requires ReadFields([f] + ([g] + []), d, s).Got?
    requires g == Name ==> |ReadFields([f] + ([g] + []), d, s).value.name| < SIZE_LIMIT
    ensures
      var Got(d', rest) := ReadFields([f] + ([g] + []), d, s);
      var first := if f == Id then Encode16(d'.id) else EncodeTime(d'.sendTime);
      && d' == (if f == Id then d.(id := d'.id) else d.(sendTime := d'.sendTime))
                  .(id := d'.id, name := if g == Name then d'.name else d.name,
                    timeValue := if g == TimeValue then d'.timeValue else d.timeValue)
      && (g == TimeValue ==> d'.id == d.id)
      && s == first + ((match g
                        case Id => Encode16(d'.id)
                        case Name => Sized(d'.name)
                        case _ => EncodeTime(d'.timeValue)) + rest)
  {
    hide ReadField, ReadFields, EncodeTime, Encode16, Sized;
    FieldFirst(f, [g] + [], d, s);
    var Got(d1, s1) := ReadField(f, d, s);
    FieldFirst(g, [], d1, s1);
    var Got(d2, s2) := ReadField(g, d1, s1);
    NoFields(d2, s2);
    FieldExactly(f, d, s);
    FieldExactly(g, d1, s1);
  }

  // ---------------------------------------------------------------- the serializer

  const WRITER_BUFFER_SIZE := 512

  /** Writing `m` into an empty buffer succeeds exactly when it is within the limits of the format and fits into 512
      bytes; then the buffer holds its body. */
  ghost predicate Wrote(m: Message, ok: bool, written: seq<byte>) {
    && (ok <==> m.WithinLimits() && |EncodeBody(m)| <= WRITER_BUFFER_SIZE)
    && (ok ==> written == EncodeBody(m))
  }

  class MessageSerializer {
    const buffer: LinearBuffer
    const serializer: Serializer

    ghost predicate Valid()
      reads buffer
    {
      buffer.Valid() && serializer.buffer == buffer && buffer.data.Length == WRITER_BUFFER_SIZE
    }

    constructor ()
      ensures Valid() && fresh(buffer) && fresh(buffer.data) && buffer.Written() == []
    {
      var b := new LinearBuffer(WRITER_BUFFER_SIZE);
      buffer := b;
      serializer := new Serializer(b);
    }

    method Reset()
      requires Valid()
      modifies buffer
      ensures Valid() && buffer.Written() == []
    {
      buffer.Reset();
    }

    method EntryIdAssign(id: uint16, name: seq<byte>) returns (ok: bool)
      requires Valid() && buffer.Written() == []
      modifies buffer, buffer.data
      ensures Valid() && Wrote(Message.EntryIdAssign(id, name), ok, buffer.Written())
    {
      ok := serializer.Write16(id);
      if ok {
        ok := serializer.WriteRaw(name);
      }
    }

    method EntryCreated(sendTime: int64, name: seq<byte>, value: Value) returns (ok: bool)
      requires Valid() && buffer.Written() == [] && !value.FloatArray()
      modifies buffer, buffer.data
      ensures Valid() && Wrote(EntryCreate(sendTime, name, value), ok, buffer.Written())
    {
      hide EncodeValue, EncodeTime, Sized, Value.WithinLimits;
      ok := WriteTimeAndName(sendTime, name);
      if ok {
        ok := WriteTypedValue(value);
      }
      CreatedParts(sendTime, name, value);
    }

    lemma CreatedParts(sendTime: int64, name: seq<byte>, value: Value)
      requires !value.FloatArray()
      ensures
        var m := EntryCreate(sendTime, name, value);
        m.WithinLimits() ==>
          EncodeBody(m) == (EncodeTime(sendTime) + Sized(name)) + ([value.TypeCode()] + EncodeValue(value))
    {
    }

    method WriteTimeAndName(sendTime: int64, name: seq<byte>) returns (ok: bool)
      requires Valid() && buffer.Written() == []
      modifies buffer, buffer.data
      ensures Valid()
      ensures |name| >= SIZE_LIMIT ==> !ok
      ensures |name| < SIZE_LIMIT ==>
                Appends([], buffer.Written(), WRITER_BUFFER_SIZE, ok, EncodeTime(sendTime) + Sized(name))
    {
      ok := serializer.Write64(Unsigned(U64, sendTime));
      if ok {
        ok := serializer.WriteRaw(name);
      }
    }

    method WriteTimeAndId(sendTime: int64, id: uint16) returns (ok: bool)
      requires Valid() && buffer.Written() == []
      modifies buffer, buffer.data
      ensures Valid()
      ensures Appends([], buffer.Written(), WRITER_BUFFER_SIZE, ok, EncodeTime(sendTime) + Encode16(id))
    {
      ok := serializer.Write64(Unsigned(U64, sendTime));
      if ok {
        ok := serializer.Write16(id);
      }
    }

    method EntryUpdated(sendTime: int64, id: uint16, value: Value) returns (ok: bool)
      requires Valid() && buffer.Written() == [] && !value.FloatArray()
      modifies buffer, buffer.data
      ensures Valid() && Wrote(EntryUpdate(sendTime, id, value), ok, buffer.Written())
    {
      hide EncodeValue, EncodeTime, Encode16, Value.WithinLimits;
      ok := WriteTimeAndId(sendTime, id);
      if ok {
        ok := WriteTypedValue(value);
      }
      UpdatedParts(sendTime, id, value);
    }

    lemma UpdatedParts(sendTime: int64, id: uint16, value: Value)
      requires !value.FloatArray()
      ensures
        var m := EntryUpdate(sendTime, id, value);
        m.WithinLimits() ==>
          EncodeBody(m) == (EncodeTime(sendTime) + Encode16(id)) + ([value.TypeCode()] + EncodeValue(value))
    {
    }

    method EntryDeleted(sendTime: int64, id: uint16) returns (ok: bool)
      requires Valid() && buffer.Written() == []
      modifies buffer, buffer.data
      ensures Valid() && Wrote(EntryDelete(sendTime, id), ok, buffer.Written())
    {
      ok := WriteTimeAndId(sendTime, id);
    }

    method TimeSyncRequest(sendTime: int64) returns (ok: bool)
      requires Valid() && buffer.Written() == []
      modifies buffer, buffer.data
      ensures Valid() && Wrote(Message.TimeSyncRequest(sendTime), ok, buffer.Written())
    {
      ok := serializer.Write64(Unsigned(U64, sendTime));
    }

    method TimeSyncResponse(sendTime: int64, time: int64) returns (ok: bool)
      requires Valid() && buffer.Written() == []
      modifies buffer, buffer.data
      ensures Valid() && Wrote(Message.TimeSyncResponse(sendTime, time), ok, buffer.Written())
    {
      ok := serializer.Write64(Unsigned(U64, sendTime));
      if ok {
        ok := serializer.Write64(Unsigned(U64, time));
      }
    }

    method WriteTypedValue(v: Value) returns (ok: bool)
      requires Valid() && !v.FloatArray()
      modifies buffer, buffer.data
      ensures Valid()
      ensures !v.WithinLimits() ==> !ok
      ensures v.WithinLimits() ==>
                Appends(old(buffer.Written()), buffer.Written(), buffer.data.Length, ok, [v.TypeCode()] + EncodeValue(v))
    {
      ok := serializer.Write8(v.TypeCode());
      if ok {
        ghost var typed := buffer.Written();
        ok := serializer.WriteValue(v);
        if v.WithinLimits() {
          AppendsTwice(old(buffer.Written()), typed, buffer.Written(), buffer.data.Length, ok,
                       [v.TypeCode()], EncodeValue(v));
        }
      }
    }
  }

  // ---------------------------------------------------------------- the parser

  datatype ParseState = CheckType | ReadId | ReadName | ReadValueType | ReadValue | ReadSendTime | ReadTimeValue

  const ERROR_UNKNOWN_TYPE: byte := 0
  const ERROR_READ_DATA: byte := 1

  function StateOf(f: Field): ParseState {
    match f
    case SendTime => ReadSendTime
    case Id => ReadId
    case Name => ReadName
    case ValueType => ReadValueType
    case FieldValue => ReadValue
    case TimeValue => ReadTimeValue
  }

  /** Every transition lowers the rank of the parse state, so parsing ends. */
  function Rank(s: ParseState): nat {
    match s
    case CheckType => 5
    case ReadSendTime => 4
    case ReadId => 3
    case ReadName => 2
    case ReadTimeValue => 2
    case ReadValueType => 1
    case ReadValue => 0
  }

  class MessageParser {
    var kind: byte
    const view: ReadonlyBufferView
    const deserializer: Deserializer
    var overall: Overall
    var user: ParseState
    var errorCode: byte
    var data: ParseData

    ghost predicate Valid()
      reads this, view
    {
      view.Valid() && deserializer.view == view
    }

    predicate IsFinished()
      reads this
    {
      overall == End
    }

    predicate IsErrored()
      reads this
    {
      errorCode != 0
    }

    constructor ()
      ensures Valid() && fresh(view)
    {
      var v := new ReadonlyBufferView();
      view := v;
      deserializer := new Deserializer(v);
      kind, overall, user, errorCode := 255, Start, CheckType, 0;
      data := ParseData(0, 0, [], 0, Empty, 0);
    }

    method SetData(kind: byte, bytes: seq<byte>)
      requires Valid()
      modifies this, view
      ensures Valid() && overall == Start && this.kind == kind && view.Remaining() == bytes && data == old(data)
    {
      this.kind := kind;
      view.Reset(bytes);
      overall, errorCode, user := Start, 0, CheckType;
    }

    /** The transition table: after the check of the type comes the first field of the layout, after each field the
        next one, after the last one the end; `at` is the position of the current field. */
    method SelectNextState(ghost at: int) returns (again: bool)
      requires overall == InState && errorCode == 0
      requires Layout(kind).None? ==> user == CheckType
      requires Layout(kind).Some? ==> -1 <= at < |Layout(kind).value|
      requires Layout(kind).Some? ==>
                 user == if at == -1 then CheckType else StateOf(Layout(kind).value[at])
      modifies this`overall, this`user, this`errorCode
      ensures again ==> overall == InState && Rank(user) < Rank(old(user)) && errorCode == 0 && Layout(kind).Some?
      ensures match Layout(kind)
              case None => !again && overall == Error && errorCode == ERROR_UNKNOWN_TYPE
              case Some(fs) =>
                if at + 1 == |fs| then !again && overall == End && errorCode == 0
                else again && user == StateOf(fs[at + 1])
    {
      match user
      case CheckType =>
        if kind in {1, 2, 3, 7, 8} {
          again := MoveTo(ReadSendTime);
        } else if kind == 4 {
          again := MoveTo(ReadId);
        } else if kind in {5, 6} {
          again := Finished();
        } else {
          again := Fail(ERROR_UNKNOWN_TYPE);
        }
      case ReadId =>
        if kind == 4 {
          again := MoveTo(ReadName);
        } else if kind == 2 {
          again := MoveTo(ReadValueType);
        } else if kind == 3 {
          again := Finished();
        } else {
          again := Fail(ERROR_UNKNOWN_TYPE);
        }
      case ReadName =>
        if kind == 1 {
          again := MoveTo(ReadValueType);
        } else if kind == 4 {
          again := Finished();
        } else {
          again := Fail(ERROR_UNKNOWN_TYPE);
        }
      case ReadValueType =>
        if kind in {1, 2} {
          again := MoveTo(ReadValue);
        } else {
          again := Fail(ERROR_UNKNOWN_TYPE);
        }
      case ReadValue =>
        if kind in {1, 2} {
          again := Finished();
        } else {
          again := Fail(ERROR_UNKNOWN_TYPE);
        }
      case ReadSendTime =>
        if kind == 1 {
          again := MoveTo(ReadName);
        } else if kind in {2, 3} {
          again := MoveTo(ReadId);
        } else if kind == 7 {
          again := Finished();
        } else if kind == 8 {
          again := MoveTo(ReadTimeValue);
        } else {
          again := Fail(ERROR_UNKNOWN_TYPE);
        }
      case ReadTimeValue =>
        if kind == 8 {
          again := Finished();
        } else {
          again := Fail(ERROR_UNKNOWN_TYPE);
        }
    }

    method MoveTo(state: ParseState) returns (again: bool)
      modifies this`overall, this`user
      ensures again && overall == InState && user == state
    {
      overall, user, again := InState, state, true;
    }

    method Finished() returns (again: bool)
      modifies this`overall
      ensures !again && overall == End
    {
      overall, again := End, false;
    }

    method Fail(code: byte) returns (again: bool)
      modifies this`overall, this`errorCode
      ensures !again && overall == Error && errorCode == code
    {
      overall, errorCode, again := Error, code, false;
    }

    /** Reads the field the machine stands at into `data`. */
    method TakeField(f: Field) returns (r: Decoded<()>)
      requires Valid() && user == StateOf(f)
      modifies this`data, view
      ensures Valid()
      ensures match ReadField(f, old(data), old(view.Remaining()))
              case Got(d, rest) => r.Got? && data == d && view.Remaining() == rest
              case Failed => r.Failed?
              case Threw => r.Threw?
    {
      Widths();
      r := Failed;
      match user
      case ReadId =>
        var word := deserializer.ReadWord(2);
        if word.Some? {
          data := data.(id := word.value);
          r := Got((), []);
        }
      case ReadName =>
        var text := deserializer.ReadRaw();
        if text.Some? {
          data := data.(name := text.value);
          r := Got((), []);
        }
      case ReadValueType =>
        var code := deserializer.Read8();
        if code.Some? {
          data := data.(valueType := code.value);
          r := Got((), []);
        }
      case ReadValue =>
        var v := deserializer.ReadValue(data.valueType);
        if v.Just? {
          data := data.(value := v.value);
          r := Got((), []);
        } else if v.Exception? {
          r := Threw;
        }
      case ReadSendTime =>
        var word := deserializer.ReadWord(8);
        if word.Some? {
          data := data.(sendTime := Signed(U64, word.value));
          r := Got((), []);
        }
      case ReadTimeValue =>
        var word := deserializer.ReadWord(8);
        if word.Some? {
          data := data.(timeValue := Signed(U64, word.value));
          r := Got((), []);
        }
    }

    /** Runs the machine to the end. It finishes exactly when the type is known and the bytes begin with the fields of
        its layout; a field that is not there is an error; an over-long value escapes as an exception; and an unknown
        type ends in the error state with code 0, which `IsErrored` does not see. */
    method Process() returns (threw: bool)
      requires Valid() && overall == Start
      modifies this, view
      ensures Valid() && kind == old(kind)
      ensures match Layout(kind)
              case None => !threw && !IsFinished() && !IsErrored()
              case Some(fs) =>
                match ReadFields(fs, old(data), old(view.Remaining()))
                case Got(d, rest) => !threw && IsFinished() && !IsErrored() && data == d && view.Remaining() == rest
                case Failed => !threw && !IsFinished() && IsErrored()
                case Threw => threw && !IsFinished() && !IsErrored()
    {
      hide Layout, ReadField, Rank;
      overall, errorCode, user := InState, 0, CheckType;
      threw := false;
      ghost var whole := if Layout(kind).Some? then ReadFields(Layout(kind).value, data, view.Remaining()) else Failed;
      ghost var at := -1;
      var again := SelectNextState(-1);
      at := 0;
      while again
        invariant Valid() && kind == old(kind) && !threw
        invariant Layout(kind).None? ==> !again && overall == Error && errorCode == 0
        invariant again ==> Layout(kind).Some? && overall == InState && errorCode == 0
        invariant again ==> 0 <= at < |Layout(kind).value| && user == StateOf(Layout(kind).value[at])
        invariant again ==> whole == ReadFields(Layout(kind).value[at..], data, view.Remaining())
        invariant !again && Layout(kind).Some? ==>
                    match whole
                    case Got(d, rest) => overall == End && errorCode == 0 && data == d && view.Remaining() == rest
                    case Failed => overall == Error && errorCode == ERROR_READ_DATA
                    case Threw => false
        decreases again, Rank(user)
      {
        ghost var fs := Layout(kind).value;
        assert fs[at..][0] == fs[at] && fs[at..][1..] == fs[at + 1..];
        var r := TakeField(FieldOf(user));
        match r
        case Got(_, _) =>
          again := SelectNextState(at);
          at := at + 1;
        case Failed =>
          again := Fail(ERROR_READ_DATA);
        case Threw =>
          return true;
      }
    }
  }

  function FieldOf(s: ParseState): (f: Field)
    ensures s != CheckType ==> StateOf(f) == s
  {
    match s
    case ReadId => Id
    case ReadName => Name
    case ReadValueType => ValueType
    case ReadValue => FieldValue
    case ReadTimeValue => TimeValue
    case _ => SendTime
  }
}
