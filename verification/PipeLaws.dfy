/** Messages on their way to one client: what they will make of an entry, however they are delayed. */
module PipeLaws {
  import opened Wrappers
  import opened Bytes
  import opened Codec
  import opened Store
  import opened Replication

  // ---------------------------------------------------------------- what matters for the entries

  /** Time replies do not touch the entries, and may overtake other messages. */
  function Relevant(ms: seq<Msg>): seq<Msg> {
    if ms == [] then [] else (if ms[0] == TimeReply then [] else [ms[0]]) + Relevant(ms[1..])
  }

  lemma {:induction false} RelevantConcat(a: seq<Msg>, b: seq<Msg>)
    ensures Relevant(a + b) == Relevant(a) + Relevant(b)
  {
    if a == [] {
      assert [] + b == b;
    } else {
      assert (a + b)[1..] == a[1..] + b;
      RelevantConcat(a[1..], b);
    }
  }

  lemma RelevantOne(m: Msg)
    ensures Relevant([m]) == if m == TimeReply then [] else [m]
  {
    assert [m][1..] == [];
  }

  // ---------------------------------------------------------------- order

  /** The ids the messages will make known. */
  function Introduced(ms: seq<Msg>): set<EntryId> {
    if ms == [] then {} else (if ms[0].Assign? then {ms[0].id} else {}) + Introduced(ms[1..])
  }

  /** A message fits behind others after which the ids `known` are known: an id is introduced once, used only after
      that, and the handshake is declared finished only when all ids assigned by then are known. */
  ghost predicate InOrder(known: set<EntryId>, m: Msg) {
    match m
    case Assign(id, _) => id !in known
    case Upd(_, id, _) => id in known
    case Del(_, id) => id in known
    case Finished(upTo) => forall id: EntryId | id < upTo :: id in known
    case TimeReply => true
  }

  ghost predicate Orderly(known: set<EntryId>, ms: seq<Msg>)
    decreases |ms|
  {
    ms == [] || (InOrder(known, ms[0]) && Orderly(known + Introduced([ms[0]]), ms[1..]))
  }

  lemma {:induction false} IntroducedConcat(a: seq<Msg>, b: seq<Msg>)
    ensures Introduced(a + b) == Introduced(a) + Introduced(b)
  {
    if a == [] {
      assert [] + b == b;
    } else {
      assert (a + b)[1..] == a[1..] + b;
      IntroducedConcat(a[1..], b);
    }
  }

  lemma IntroducedOne(m: Msg)
    ensures Introduced([m]) == if m.Assign? then {m.id} else {}
  {
    assert [m][1..] == [];
  }

  lemma {:induction false} OrderlyAppend(known: set<EntryId>, ms: seq<Msg>, m: Msg)
    requires Orderly(known, ms) && InOrder(known + Introduced(ms), m)
    ensures Orderly(known, ms + [m])
    decreases |ms|
  {
    if ms == [] {
      assert [m][1..] == [] && [] + [m] == [m];
      assert known + {} == known;
    } else {
      assert (ms + [m])[1..] == ms[1..] + [m];
      IntroducedOne(ms[0]);
      assert known + Introduced(ms) == known + Introduced([ms[0]]) + Introduced(ms[1..]);
      OrderlyAppend(known + Introduced([ms[0]]), ms[1..], m);
    }
  }

  lemma OrderlyHead(known: set<EntryId>, m: Msg, rest: seq<Msg>)
    requires Orderly(known, [m] + rest)
    ensures InOrder(known, m) && Orderly(known + Introduced([m]), rest)
    ensures Introduced([m] + rest) == Introduced([m]) + Introduced(rest)
  {
    assert ([m] + rest)[1..] == rest;
    IntroducedConcat([m], rest);
  }

  // ---------------------------------------------------------------- one entry

  /** What an entry that shows `held` shows after an update with `v` that is not stale. A value of another type than
      the one that is there is refused; only an empty one makes room for any type. */
  function Put(held: Option<Value>, v: Value): (after: Option<Value>)
    ensures after.Some?
  {
    if held.Some? && held.value != Empty && held.value.TypeCode() != v.TypeCode() then held else Some(ReadBack(v))
  }

  /** What a client knows about an entry: the value it shows, and (at most) the time of its last update. */
  datatype Track = Track(val: Option<Value>, last: int)

  /** The entry after message `m`, if the message takes effect or changes nothing. */
  function Advance(id: EntryId, t: Track, m: Msg): Track {
    match m
    case Upd(time, i, v) => if i == id then Track(Put(t.val, v), if t.last > time then t.last else time) else t
    case Del(time, i) => if i == id then Track(None, if t.last > time then t.last else time) else t
    case _ => t
  }

  /** The message cannot be mistaken for a stale one, or would change nothing anyway. */
  predicate Effective(id: EntryId, t: Track, m: Msg) {
    match m
    case Upd(time, i, v) => i == id ==> t.last <= time || Put(t.val, v) == t.val
    case Del(time, i) => i == id ==> t.last <= time
    case _ => true
  }

  function Follow(id: EntryId, t: Track, ms: seq<Msg>): Track
    decreases |ms|
  {
    if ms == [] then t else Follow(id, Advance(id, t, ms[0]), ms[1..])
  }

  predicate AllEffective(id: EntryId, t: Track, ms: seq<Msg>)
    decreases |ms|
  {
    ms == [] || (Effective(id, t, ms[0]) && AllEffective(id, Advance(id, t, ms[0]), ms[1..]))
  }

  lemma {:induction false} FollowAppend(id: EntryId, t: Track, ms: seq<Msg>, m: Msg)
    ensures Follow(id, t, ms + [m]) == Advance(id, Follow(id, t, ms), m)
    ensures AllEffective(id, t, ms + [m]) <==> AllEffective(id, t, ms) && Effective(id, Follow(id, t, ms), m)
    decreases |ms|
  {
    if ms == [] {
      assert [] + [m] == [m] && [m][1..] == [];
      assert Follow(id, Advance(id, t, m), [m][1..]) == Advance(id, t, m);
      assert AllEffective(id, Advance(id, t, m), [m][1..]);
    } else {
      assert (ms + [m])[1..] == ms[1..] + [m];
      FollowAppend(id, Advance(id, t, ms[0]), ms[1..], m);
    }
  }

  lemma FollowHead(id: EntryId, t: Track, m: Msg, rest: seq<Msg>)
    ensures Follow(id, t, [m] + rest) == Follow(id, Advance(id, t, m), rest)
    ensures AllEffective(id, t, [m] + rest) <==> Effective(id, t, m) && AllEffective(id, Advance(id, t, m), rest)
  {
    assert ([m] + rest)[1..] == rest;
  }

  /** Turning an entry's time back does not change what becomes of it. */
  lemma {:induction false} FollowEarlier(id: EntryId, t: Track, t': Track, ms: seq<Msg>)
    requires t'.val == t.val && t'.last <= t.last && AllEffective(id, t, ms)
    ensures AllEffective(id, t', ms)
    ensures Follow(id, t', ms).val == Follow(id, t, ms).val && Follow(id, t', ms).last <= Follow(id, t, ms).last
    decreases |ms|
  {
    if ms == [] {
    } else {
      FollowEarlier(id, Advance(id, t, ms[0]), Advance(id, t', ms[0]), ms[1..]);
    }
  }

  /** Nothing is on its way for an id that has not been introduced. */
  lemma {:induction false} FollowUnknown(id: EntryId, t: Track, known: set<EntryId>, ms: seq<Msg>)
    requires Orderly(known, ms) && id !in known + Introduced(ms)
    ensures Follow(id, t, ms) == t && AllEffective(id, t, ms)
    decreases |ms|
  {
    if ms == [] {
    } else {
      IntroducedOne(ms[0]);
      assert id !in known + Introduced([ms[0]]) + Introduced(ms[1..]);
      FollowUnknown(id, t, known + Introduced([ms[0]]), ms[1..]);
    }
  }

  // ---------------------------------------------------------------- what a client has been told

  /** What one more message makes of the values told about an entry since its last deletion. */
  function Heard(id: EntryId, vs: seq<Value>, m: Msg): seq<Value> {
    match m
    case Upd(_, i, v) => if i == id then vs + [v] else vs
    case Del(_, i) => if i == id then [] else vs
    case _ => vs
  }

  /** The values told about an entry since its last deletion. */
  function Since(id: EntryId, told: seq<Msg>): seq<Value>
    decreases |told|
  {
    if told == [] then [] else Heard(id, Since(id, told[..|told| - 1]), told[|told| - 1])
  }

  /** What an entry shows that has been told these values one after the other. */
  function Held(vs: seq<Value>): Option<Value> {
    if vs == [] then None else Put(Held(vs[..|vs| - 1]), vs[|vs| - 1])
  }

  /** The type that the first value with contents gives to an entry, or that of `Empty` when there is none. */
  function FirstType(vs: seq<Value>): byte {
    if vs == [] then Empty.TypeCode() else if vs[0] != Empty then vs[0].TypeCode() else FirstType(vs[1..])
  }

  /** The last value of type `code`. */
  function LastOf(vs: seq<Value>, code: byte): Option<Value> {
    if vs == [] then None
    else if vs[|vs| - 1].TypeCode() == code then Some(vs[|vs| - 1])
    else LastOf(vs[..|vs| - 1], code)
  }

  lemma {:induction false} FirstTypeAppend(vs: seq<Value>, v: Value)
    ensures FirstType(vs + [v]) == if FirstType(vs) == Empty.TypeCode() then v.TypeCode() else FirstType(vs)
    decreases |vs|
  {
    if vs == [] {
      assert [v][1..] == [] && [] + [v] == [v];
    } else {
      assert (vs + [v])[1..] == vs[1..] + [v];
      FirstTypeAppend(vs[1..], v);
    }
  }

  lemma LastOfAppend(vs: seq<Value>, v: Value, code: byte)
    ensures LastOf(vs + [v], code) == if v.TypeCode() == code then Some(v) else LastOf(vs, code)
  {
    assert (vs + [v])[..|vs|] == vs;
  }

  /** An entry keeps to the type of the first value with contents, and shows the last value of that type. */
  lemma {:induction false} HeldIsKept(vs: seq<Value>)
    ensures vs != [] ==>
              var kept := LastOf(vs, FirstType(vs));
              kept.Some? && kept.value.TypeCode() == FirstType(vs) && Held(vs) == Some(ReadBack(kept.value))
  {
    if vs != [] {
      var init, v := vs[..|vs| - 1], vs[|vs| - 1];
      assert vs == init + [v];
      HeldIsKept(init);
      FirstTypeAppend(init, v);
      LastOfAppend(init, v, FirstType(vs));
    }
  }

  lemma SinceAppend(id: EntryId, told: seq<Msg>, m: Msg)
    ensures Since(id, told + [m]) == Heard(id, Since(id, told), m)
  {
    assert (told + [m])[..|told|] == told;
  }

  /** What is held follows what is heard. */
  lemma HeldFollows(id: EntryId, t: Track, vs: seq<Value>, m: Msg)
    requires t.val == Held(vs)
    ensures Advance(id, t, m).val == Held(Heard(id, vs, m))
  {
    if m.Upd? {
      assert (vs + [m.value])[..|vs|] == vs;
    }
  }
}
