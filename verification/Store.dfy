/** The entry store of src/storage/storage.cpp as a value: what each operation makes of the entries, of the two indexes
    and of the notifications sent so far. `Storage` proves the imperative code against these functions. */
module Store {
  import opened Wrappers
  import opened Bytes
  import opened Codec

  /** Paths are byte strings, as in C++. */
  type Path = seq<byte>
  type Handle = nat
  type EntryId = uint16

  const CAPACITY := 256
  const ID_NOT_ASSIGNED: EntryId := 0xFFFF

  datatype Entry = Entry(path: Path, value: Value, netId: EntryId, created: bool, deleted: bool, dirty: bool,
                         lastUpdate: int)
  {
    predicate HasValue() {
      !created && !deleted
    }
  }

  datatype Event =
    | Created(path: Path, entry: Handle)
    | Changed(path: Path, entry: Handle, oldValue: Value, newValue: Value)
    | Deleted(path: Path, entry: Handle)

  datatype State = State(entries: seq<Entry>, paths: map<Path, Handle>, ids: map<EntryId, Handle>, log: seq<Event>)

  /** How a call ends: normally or with one of the exceptions of the source. */
  datatype Status = Ok | NoSuchHandle | NoSpace | TypeMismatch

  const Fresh := State([], map[], map[], [])

  // ---------------------------------------------------------------- one entry

  datatype Outcome = Outcome(entry: Entry, events: seq<Event>, status: Status)

  /** `set_entry_internal`. A timestamp of 0 stands for "now"; any other is compared with the last update. Note that the
      flags, the first notification and the id come before the type check. */
  function SetEntry(h: Handle, e: Entry, value: Value, clear: bool, id: EntryId, markDirty: bool, timestamp: int,
                    now: int): Outcome
  {
    if timestamp != 0 && e.lastUpdate > timestamp then Outcome(e, [], Ok)
    else
      var announce := if e.created || e.deleted then [Created(e.path, h)] else [];
      var e1 := e.(created := false, deleted := false, netId := if id != ID_NOT_ASSIGNED then id else e.netId);
      if !clear && e.value.TypeCode() != Empty.TypeCode() && e.value.TypeCode() != value.TypeCode()
      then Outcome(e1, announce, TypeMismatch)
      else
        var e2 := e1.(value := if clear then Empty else value, dirty := markDirty,
                      lastUpdate := if timestamp == 0 then now else timestamp);
        Outcome(e2, announce + [Changed(e.path, h, e.value, value)], Ok)
  }

  /** `delete_entry_internal`. */
  function DeleteEntry(h: Handle, e: Entry, markDirty: bool, timestamp: int, now: int): Outcome {
    if timestamp != 0 && e.lastUpdate > timestamp then Outcome(e, [], Ok)
    else if e.created || e.deleted then Outcome(e, [], Ok)
    else
      Outcome(e.(value := Empty, deleted := true, dirty := markDirty,
                 lastUpdate := if timestamp == 0 then now else timestamp),
              [Deleted(e.path, h)], Ok)
  }

  // ---------------------------------------------------------------- the store

  function Update(st: State, h: Handle, o: Outcome): State
    requires h < |st.entries|
  {
    st.(entries := st.entries[h := o.entry], log := st.log + o.events)
  }

  /** The table hands out the lowest free slot, and entries are never released: the handles are 0, 1, 2 and so on. */
  function CreateNew(st: State, path: Path): State {
    st.(entries := st.entries + [Entry(path, Empty, ID_NOT_ASSIGNED, true, false, false, 0)],
        paths := st.paths[path := |st.entries|])
  }

  /** The entry of a path, created when it is not there yet. */
  function Locate(st: State, path: Path): (State, Handle, Status) {
    if path in st.paths then (st, st.paths[path], Ok)
    else if |st.entries| >= CAPACITY then (st, 0, NoSpace)
    else (CreateNew(st, path), |st.entries|, Ok)
  }

  function GetOrCreateEntry(st: State, path: Path): (State, Handle, Status) {
    var (st', h, status) := Locate(st, path);
    if status == Ok && h >= |st'.entries| then (st', h, NoSuchHandle) else (st', h, status)
  }

  function SetAt(st: State, h: Handle, value: Value, clear: bool, id: EntryId, markDirty: bool, timestamp: int,
                 now: int): (State, Status)
  {
    if h >= |st.entries| then (st, NoSuchHandle)
    else
      var o := SetEntry(h, st.entries[h], value, clear, id, markDirty, timestamp, now);
      (Update(st, h, o), o.status)
  }

  function DeleteAt(st: State, h: Handle, markDirty: bool, timestamp: int, now: int): (State, Status) {
    if h >= |st.entries| then (st, NoSuchHandle)
    else
      var o := DeleteEntry(h, st.entries[h], markDirty, timestamp, now);
      (Update(st, h, o), o.status)
  }

  predicate OccursAt(s: seq<byte>, part: seq<byte>, i: nat) {
    i + |part| <= |s| && s[i..i + |part|] == part
  }

  predicate Contains(s: seq<byte>, part: seq<byte>) {
    exists i | 0 <= i <= |s| :: OccursAt(s, part, i)
  }

  /** `delete_entries` from handle `h` on. */
  function DeleteFrom(st: State, h: Handle, path: Path, now: int): (r: State)
    ensures |r.entries| == |st.entries|
    decreases |st.entries| - h
  {
    if h >= |st.entries| then st
    else DeleteFrom(if Contains(st.entries[h].path, path) then DeleteAt(st, h, true, 0, now).0 else st,
                    h + 1, path, now)
  }

  function CleanAt(st: State, h: Handle): State
    requires h < |st.entries|
  {
    st.(entries := st.entries[h := st.entries[h].(dirty := false)])
  }

  /** `act_on_dirty_entries` from handle `h` on, with an action that agrees `limit` times and then refuses. */
  function DrainFrom(st: State, h: Handle, limit: nat): (r: State)
    ensures |r.entries| == |st.entries|
    decreases |st.entries| - h
  {
    if h >= |st.entries| then st
    else if !st.entries[h].dirty then DrainFrom(st, h + 1, limit)
    else if limit == 0 then st
    else DrainFrom(CleanAt(st, h), h + 1, limit - 1)
  }

  function ClearNetIds(st: State): State {
    st.(entries := seq(|st.entries|, i requires 0 <= i < |st.entries| => st.entries[i].(netId := ID_NOT_ASSIGNED)),
        ids := map[])
  }

  function Adjusted(e: Entry, offset: int): Entry {
    if e.lastUpdate == 0 then e else e.(lastUpdate := e.lastUpdate - offset)
  }

  function Resync(st: State, offset: int): State {
    st.(entries := seq(|st.entries|, i requires 0 <= i < |st.entries| => Adjusted(st.entries[i], offset)))
  }

  /** The id index keeps the first handle it is given for an id. */
  function AddId(ids: map<EntryId, Handle>, id: EntryId, h: Handle): map<EntryId, Handle> {
    if id in ids then ids else ids[id := h]
  }

  function OnCreated(st: State, id: EntryId, path: Path, value: Value, timestamp: int, now: int): (State, Status) {
    var (st1, h, status) := Locate(st, path);
    if status != Ok then (st1, status)
    else SetAt(st1.(ids := AddId(st1.ids, id, h)), h, value, false, id, false, timestamp, now)
  }

  function OnUpdated(st: State, id: EntryId, value: Value, timestamp: int, now: int): (State, Status) {
    if id !in st.ids then (st, Ok) else SetAt(st, st.ids[id], value, false, id, false, timestamp, now)
  }

  function OnDeleted(st: State, id: EntryId, timestamp: int, now: int): (State, Status) {
    if id !in st.ids then (st, Ok) else DeleteAt(st, st.ids[id], false, timestamp, now)
  }

  function OnIdAssigned(st: State, id: EntryId, path: Path): (State, Status) {
    var (st1, h, status) := Locate(st, path);
    if status != Ok then (st1, status)
    else if h >= |st1.entries| then (st1, NoSuchHandle)
    else (st1.(entries := st1.entries[h := st1.entries[h].(netId := id)], ids := AddId(st1.ids, id, h)), Ok)
  }

  function GetValue(st: State, h: Handle): Option<Value> {
    if h < |st.entries| && st.entries[h].HasValue() then Some(st.entries[h].value) else None
  }

  /** What reading a path shows. */
  function Lookup(st: State, path: Path): Option<Value> {
    if path in st.paths then GetValue(st, st.paths[path]) else None
  }

  function GetValueFromId(st: State, id: EntryId): Option<Value> {
    if id in st.ids then GetValue(st, st.ids[id]) else None
  }

  // ---------------------------------------------------------------- runs

  datatype Op =
    | GetOrCreate(path: Path)
    | SetValue(h: Handle, value: Value, now: int)
    | Clear(h: Handle, now: int)
    | Delete(h: Handle, now: int)
    | DeleteAll(path: Path, now: int)
    | Drain(limit: nat)
    | ForgetIds
    | Shift(offset: int)
    | RemoteCreate(id: EntryId, path: Path, value: Value, timestamp: int, now: int)
    | RemoteUpdate(id: EntryId, value: Value, timestamp: int, now: int)
    | RemoteDelete(id: EntryId, timestamp: int, now: int)
    | RemoteId(id: EntryId, path: Path)

  /** The state after a call, whether it returned or threw. */
  function Apply(st: State, op: Op): State {
    match op
    case GetOrCreate(path) => GetOrCreateEntry(st, path).0
    case SetValue(h, value, now) => SetAt(st, h, value, false, ID_NOT_ASSIGNED, true, 0, now).0
    case Clear(h, now) => SetAt(st, h, Empty, true, ID_NOT_ASSIGNED, true, 0, now).0
    case Delete(h, now) => DeleteAt(st, h, true, 0, now).0
    case DeleteAll(path, now) => DeleteFrom(st, 0, path, now)
    case Drain(limit) => DrainFrom(st, 0, limit)
    case ForgetIds => ClearNetIds(st)
    case Shift(offset) => Resync(st, offset)
    case RemoteCreate(id, path, value, timestamp, now) => OnCreated(st, id, path, value, timestamp, now).0
    case RemoteUpdate(id, value, timestamp, now) => OnUpdated(st, id, value, timestamp, now).0
    case RemoteDelete(id, timestamp, now) => OnDeleted(st, id, timestamp, now).0
    case RemoteId(id, path) => OnIdAssigned(st, id, path).0
  }

  function Run(st: State, ops: seq<Op>): State {
    if ops == [] then st else Apply(Run(st, ops[..|ops| - 1]), ops[|ops| - 1])
  }

  // ---------------------------------------------------------------- the invariant

  /** The flags that make the early updates of `set_entry_internal` harmless. */
  ghost predicate Sound(e: Entry) {
    && !(e.created && e.deleted)
    && !(e.created && e.dirty)
    && (e.created || e.deleted ==> e.value == Empty)
  }

  /** What a listener that has seen all notifications of an entry believes about it. `Announced` is the moment between
      "created" and the first value; `Broken` means that the notifications made no sense. */
  datatype Belief = Gone | Announced | Holds(value: Value) | Broken

  function Hear(b: Belief, e: Event): Belief {
    match (b, e)
    case (Gone, Created(_, _)) => Announced
    case (Announced, Changed(_, _, before, after)) => if before == Empty then Holds(after) else Broken
    case (Holds(v), Changed(_, _, before, after)) => if before == v then Holds(after) else Broken
    case (Holds(_), Deleted(_, _)) => Gone
    case _ => Broken
  }

  /** Replays the notifications that concern entry `h`. */
  function Replay(log: seq<Event>, h: Handle): Belief {
    if log == [] then Gone
    else
      var before := Replay(log[..|log| - 1], h);
      if log[|log| - 1].entry == h then Hear(before, log[|log| - 1]) else before
  }

  function BeliefOf(e: Entry): Belief {
    if e.HasValue() then Holds(e.value) else Gone
  }

  ghost predicate Indexed(st: State) {
    && |st.entries| <= CAPACITY
    && (forall p | p in st.paths :: st.paths[p] < |st.entries| && st.entries[st.paths[p]].path == p)
    && (forall h | 0 <= h < |st.entries| :: st.entries[h].path in st.paths && st.paths[st.entries[h].path] == h)
    && (forall id | id in st.ids :: st.ids[id] < |st.entries|)
  }

  ghost predicate Replayable(st: State) {
    && (forall h | 0 <= h < |st.entries| :: Replay(st.log, h) == BeliefOf(st.entries[h]))
    && (forall e | e in st.log :: e.entry < |st.entries| && st.entries[e.entry].path == e.path)
  }

  ghost predicate Inv(st: State) {
    && Indexed(st)
    && (forall h | 0 <= h < |st.entries| :: Sound(st.entries[h]))
    && Replayable(st)
  }
}
