/** What every run of store operations keeps: stale, mistyped and redundant calls included. */
module StoreLaws {
  import opened Wrappers
  import opened Bytes
  import opened Codec
  import opened Store

  // ---------------------------------------------------------------- replaying notifications

  function HearAll(b: Belief, events: seq<Event>): Belief
    decreases |events|
  {
    if events == [] then b else HearAll(Hear(b, events[0]), events[1..])
  }

  lemma {:induction false} ReplayOwn(log: seq<Event>, events: seq<Event>, h: Handle)
    requires forall e | e in events :: e.entry == h
    ensures Replay(log + events, h) == HearAll(Replay(log, h), events)
    decreases |events|
  {
    if events == [] {
      assert log + [] == log;
    } else {
      assert log + events == (log + [events[0]]) + events[1..];
      assert (log + [events[0]])[..|log|] == log;
      ReplayOwn(log + [events[0]], events[1..], h);
    }
  }

  lemma {:induction false} ReplayOthers(log: seq<Event>, events: seq<Event>, h: Handle)
    requires forall e | e in events :: e.entry != h
    ensures Replay(log + events, h) == Replay(log, h)
    decreases |events|
  {
    if events == [] {
      assert log + [] == log;
    } else {
      assert log + events == (log + [events[0]]) + events[1..];
      assert (log + [events[0]])[..|log|] == log;
      ReplayOthers(log + [events[0]], events[1..], h);
    }
  }

  lemma {:induction false} NothingHeard(log: seq<Event>, h: Handle)
    requires forall e | e in log :: e.entry != h
    ensures Replay(log, h) == Gone
  {
    assert [] + log == log;
    ReplayOthers([], log, h);
  }

  // ---------------------------------------------------------------- one entry

  /** A change of entry `h` that keeps the flag invariant and is told truthfully. */
  ghost predicate Faithful(h: Handle, e: Entry, o: Outcome) {
    && o.entry.path == e.path && Sound(o.entry)
    && (forall ev | ev in o.events :: ev.entry == h && ev.path == e.path)
    && HearAll(BeliefOf(e), o.events) == BeliefOf(o.entry)
  }

  lemma HearTwo(b: Belief, x: Event, y: Event)
    ensures HearAll(b, [x, y]) == Hear(Hear(b, x), y)
    ensures HearAll(b, [x]) == Hear(b, x)
  {
    assert [x, y][1..] == [y] && [x][1..] == [] && [y][1..] == [];
    assert HearAll(Hear(b, x), [y]) == HearAll(Hear(Hear(b, x), y), []);
  }

  lemma SetEntryFaithful(h: Handle, e: Entry, value: Value, clear: bool, id: EntryId, markDirty: bool, timestamp: int,
                         now: int)
    requires Sound(e) && (clear ==> value == Empty)
    ensures
      var o := SetEntry(h, e, value, clear, id, markDirty, timestamp, now);
      Faithful(h, e, o)
  {
    var changed := Changed(e.path, h, e.value, value);
    HearTwo(BeliefOf(e), Created(e.path, h), changed);
    HearTwo(BeliefOf(e), changed, changed);
    assert [Created(e.path, h)] + [changed] == [Created(e.path, h), changed];
    assert [] + [changed] == [changed];
  }

  lemma DeleteEntryFaithful(h: Handle, e: Entry, markDirty: bool, timestamp: int, now: int)
    requires Sound(e)
    ensures Faithful(h, e, DeleteEntry(h, e, markDirty, timestamp, now))
  {
    var deleted := Deleted(e.path, h);
    HearTwo(BeliefOf(e), deleted, deleted);
  }

  /** A set that throws has moved the flags and sent a notification before the throwing call, in the code; in fact it
      does neither, because an entry with either flag is empty and so accepts any type. All that can change is the
      net id. It throws exactly when it is not stale, not a clear, and the entry holds a value of another type. */
  lemma MismatchIsHarmless(h: Handle, e: Entry, value: Value, clear: bool, id: EntryId, markDirty: bool, timestamp: int,
                           now: int)
    requires Sound(e)
    ensures
      var o := SetEntry(h, e, value, clear, id, markDirty, timestamp, now);
      && (o.status == TypeMismatch <==>
          && (timestamp == 0 || e.lastUpdate <= timestamp)
          && !clear && e.HasValue() && e.value.TypeCode() !in {Empty.TypeCode(), value.TypeCode()})
      && (o.status == TypeMismatch ==>
          o.events == [] && o.entry == e.(netId := if id != ID_NOT_ASSIGNED then id else e.netId))
  {
  }

  // ---------------------------------------------------------------- the whole store

  lemma UpdateKeeps(st: State, h: Handle, o: Outcome)
    requires Inv(st) && h < |st.entries| && Faithful(h, st.entries[h], o)
    ensures Inv(Update(st, h, o))
  {
    var st' := Update(st, h, o);
    forall k | 0 <= k < |st'.entries| ensures Replay(st'.log, k) == BeliefOf(st'.entries[k]) {
      if k == h {
        ReplayOwn(st.log, o.events, h);
      } else {
        ReplayOthers(st.log, o.events, k);
      }
    }
  }

  lemma SetAtKeeps(st: State, h: Handle, value: Value, clear: bool, id: EntryId, markDirty: bool, timestamp: int,
                   now: int)
    requires Inv(st) && (clear ==> value == Empty)
    ensures Inv(SetAt(st, h, value, clear, id, markDirty, timestamp, now).0)
  {
    if h < |st.entries| {
      SetEntryFaithful(h, st.entries[h], value, clear, id, markDirty, timestamp, now);
      UpdateKeeps(st, h, SetEntry(h, st.entries[h], value, clear, id, markDirty, timestamp, now));
    }
  }

  lemma DeleteAtKeeps(st: State, h: Handle, markDirty: bool, timestamp: int, now: int)
    requires Inv(st)
    ensures Inv(DeleteAt(st, h, markDirty, timestamp, now).0)
  {
    if h < |st.entries| {
      DeleteEntryFaithful(h, st.entries[h], markDirty, timestamp, now);
      UpdateKeeps(st, h, DeleteEntry(h, st.entries[h], markDirty, timestamp, now));
    }
  }

  lemma CreateNewKeeps(st: State, path: Path)
    requires Inv(st) && path !in st.paths && |st.entries| < CAPACITY
    ensures Inv(CreateNew(st, path))
  {
    NothingHeard(st.log, |st.entries|);
  }

  lemma LocateKeeps(st: State, path: Path)
    requires Inv(st)
    ensures
      var (st', h, status) := Locate(st, path);
      && Inv(st') && status in {Ok, NoSpace}
      && (status == NoSpace <==> path !in st.paths && |st.entries| == CAPACITY)
      && (status == Ok ==>
          h < |st'.entries| && st'.entries[h].path == path && path in st'.paths && st'.paths[path] == h)
  {
    if path !in st.paths && |st.entries| < CAPACITY {
      CreateNewKeeps(st, path);
    }
  }

  lemma {:induction false} DeleteFromKeeps(st: State, h: Handle, path: Path, now: int)
    requires Inv(st)
    ensures Inv(DeleteFrom(st, h, path, now))
    decreases |st.entries| - h
  {
    hide Inv;
    if h < |st.entries| {
      DeleteAtKeeps(st, h, true, 0, now);
      DeleteFromKeeps(if Contains(st.entries[h].path, path) then DeleteAt(st, h, true, 0, now).0 else st,
                      h + 1, path, now);
    }
  }

  lemma CleanAtKeeps(st: State, h: Handle)
    requires Inv(st) && h < |st.entries|
    ensures Inv(CleanAt(st, h))
  {
    TouchKeeps(st, CleanAt(st, h));
  }

  lemma {:induction false} DrainFromKeeps(st: State, h: Handle, limit: nat)
    requires Inv(st)
    ensures Inv(DrainFrom(st, h, limit))
    decreases |st.entries| - h
  {
    hide Inv;
    if h < |st.entries| {
      DrainFromKeeps(st, h + 1, limit);
      if limit > 0 {
        CleanAtKeeps(st, h);
        DrainFromKeeps(CleanAt(st, h), h + 1, limit - 1);
      }
    }
  }

  lemma TouchKeeps(st: State, st': State)
    requires Inv(st) && |st'.entries| == |st.entries| && st'.paths == st.paths && st'.log == st.log
    requires forall h | 0 <= h < |st.entries| ::
               && st'.entries[h].path == st.entries[h].path && Sound(st'.entries[h])
               && BeliefOf(st'.entries[h]) == BeliefOf(st.entries[h])
    requires forall id | id in st'.ids :: st'.ids[id] < |st.entries|
    ensures Inv(st')
  {
  }

  lemma AddIdKeeps(st: State, id: EntryId, h: Handle)
    requires Inv(st) && h < |st.entries|
    ensures Inv(st.(ids := AddId(st.ids, id, h)))
  {
    TouchKeeps(st, st.(ids := AddId(st.ids, id, h)));
  }

  lemma OnCreatedKeeps(st: State, id: EntryId, path: Path, value: Value, timestamp: int, now: int)
    requires Inv(st)
    ensures Inv(OnCreated(st, id, path, value, timestamp, now).0)
  {
    hide Inv, SetAt, Locate;
    LocateKeeps(st, path);
    var (st1, h, status) := Locate(st, path);
    if status == Ok {
      AddIdKeeps(st1, id, h);
      SetAtKeeps(st1.(ids := AddId(st1.ids, id, h)), h, value, false, id, false, timestamp, now);
    }
  }

  lemma OnIdAssignedKeeps(st: State, id: EntryId, path: Path)
    requires Inv(st)
    ensures Inv(OnIdAssigned(st, id, path).0)
  {
    hide Locate;
    LocateKeeps(st, path);
    var (st1, h, status) := Locate(st, path);
    if status == Ok {
      TouchKeeps(st1, OnIdAssigned(st, id, path).0);
    }
  }

  /** Every operation keeps the invariant, whatever its arguments. */
  lemma ApplyKeeps(st: State, op: Op)
    requires Inv(st)
    ensures Inv(Apply(st, op))
  {
    hide Inv, SetAt, DeleteAt, Locate, OnCreated, OnIdAssigned, DeleteFrom, DrainFrom;
    match op
    case GetOrCreate(path) => LocateKeeps(st, path);
    case SetValue(h, value, now) => SetAtKeeps(st, h, value, false, ID_NOT_ASSIGNED, true, 0, now);
    case Clear(h, now) => SetAtKeeps(st, h, Empty, true, ID_NOT_ASSIGNED, true, 0, now);
    case Delete(h, now) => DeleteAtKeeps(st, h, true, 0, now);
    case DeleteAll(path, now) => DeleteFromKeeps(st, 0, path, now);
    case Drain(limit) => DrainFromKeeps(st, 0, limit);
    case ForgetIds => ForgetIdsKeeps(st);
    case Shift(offset) => ResyncKeeps(st, offset);
    case RemoteCreate(id, path, value, timestamp, now) => OnCreatedKeeps(st, id, path, value, timestamp, now);
    case RemoteUpdate(id, value, timestamp, now) =>
      if id in st.ids {
        SetAtKeeps(st, st.ids[id], value, false, id, false, timestamp, now);
      }
    case RemoteDelete(id, timestamp, now) =>
      if id in st.ids {
        DeleteAtKeeps(st, st.ids[id], false, timestamp, now);
      }
    case RemoteId(id, path) => OnIdAssignedKeeps(st, id, path);
  }

  lemma ForgetIdsKeeps(st: State)
    requires Inv(st)
    ensures Inv(ClearNetIds(st))
  {
    TouchKeeps(st, ClearNetIds(st));
  }

  lemma ResyncKeeps(st: State, offset: int)
    requires Inv(st)
    ensures Inv(Resync(st, offset))
  {
    TouchKeeps(st, Resync(st, offset));
  }

  lemma {:induction false} RunKeeps(ops: seq<Op>)
    ensures Inv(Run(Fresh, ops))
  {
    if ops == [] {
    } else {
      RunKeeps(ops[..|ops| - 1]);
      ApplyKeeps(Run(Fresh, ops[..|ops| - 1]), ops[|ops| - 1]);
    }
  }

  /** After any run, folding the notifications of an entry gives exactly what reading it returns; in particular they
      form whole rounds of "created, changed once or more, deleted" (the last round possibly unfinished), each change
      starting from the value the previous one left. */
  lemma LogTellsTheValue(ops: seq<Op>, h: Handle)
    ensures
      var st := Run(Fresh, ops);
      Replay(st.log, h) == match GetValue(st, h) case Some(v) => Holds(v) case None => Gone
  {
    RunKeeps(ops);
    var st := Run(Fresh, ops);
    if h >= |st.entries| {
      NothingHeard(st.log, h);
    }
  }

  // ---------------------------------------------------------------- the indexes

  ghost predicate Extends(st: State, st': State) {
    && |st.entries| <= |st'.entries|
    && (forall p | p in st.paths :: p in st'.paths && st'.paths[p] == st.paths[p])
    && (forall h | 0 <= h < |st.entries| :: st'.entries[h].path == st.entries[h].path)
  }

  lemma {:induction false} DeleteFromExtends(st: State, h: Handle, path: Path, now: int)
    ensures Extends(st, DeleteFrom(st, h, path, now))
    ensures DeleteFrom(st, h, path, now).ids == st.ids
    decreases |st.entries| - h
  {
    if h < |st.entries| {
      DeleteFromExtends(if Contains(st.entries[h].path, path) then DeleteAt(st, h, true, 0, now).0 else st,
                        h + 1, path, now);
    }
  }

  lemma {:induction false} DrainFromExtends(st: State, h: Handle, limit: nat)
    ensures Extends(st, DrainFrom(st, h, limit))
    ensures DrainFrom(st, h, limit).ids == st.ids
    decreases |st.entries| - h
  {
    if h < |st.entries| {
      DrainFromExtends(st, h + 1, limit);
      if limit > 0 {
        DrainFromExtends(CleanAt(st, h), h + 1, limit - 1);
      }
    }
  }

  lemma LocateExtends(st: State, path: Path)
    ensures Extends(st, Locate(st, path).0)
  {
  }

  lemma SetAtExtends(st: State, h: Handle, value: Value, clear: bool, id: EntryId, markDirty: bool, timestamp: int,
                     now: int)
    ensures Extends(st, SetAt(st, h, value, clear, id, markDirty, timestamp, now).0)
  {
  }

  lemma DeleteAtExtends(st: State, h: Handle, markDirty: bool, timestamp: int, now: int)
    ensures Extends(st, DeleteAt(st, h, markDirty, timestamp, now).0)
  {
  }

  lemma ExtendsSelf(st: State)
    ensures Extends(st, st)
  {
  }

  lemma ExtendsTrans(a: State, b: State, c: State)
    requires Extends(a, b) && Extends(b, c)
    ensures Extends(a, c)
  {
  }

  /** A path keeps its handle, and a handle its path, through every operation. */
  lemma ApplyExtends(st: State, op: Op)
    ensures Extends(st, Apply(st, op))
  {
    hide SetAt, DeleteAt, DeleteFrom, DrainFrom;
    match op
    case GetOrCreate(path) =>
    case SetValue(h, value, now) => SetAtExtends(st, h, value, false, ID_NOT_ASSIGNED, true, 0, now);
    case Clear(h, now) => SetAtExtends(st, h, Empty, true, ID_NOT_ASSIGNED, true, 0, now);
    case Delete(h, now) => DeleteAtExtends(st, h, true, 0, now);
    case DeleteAll(path, now) => DeleteFromExtends(st, 0, path, now);
    case Drain(limit) => DrainFromExtends(st, 0, limit);
    case ForgetIds =>
    case Shift(_) =>
    case RemoteCreate(id, path, value, timestamp, now) =>
      LocateExtends(st, path);
      var (st1, h, status) := Locate(st, path);
      var st2 := st1.(ids := AddId(st1.ids, id, h));
      SetAtExtends(st2, h, value, false, id, false, timestamp, now);
      ExtendsTrans(st, st2, SetAt(st2, h, value, false, id, false, timestamp, now).0);
    case RemoteUpdate(id, value, timestamp, now) =>
      if id in st.ids {
        SetAtExtends(st, st.ids[id], value, false, id, false, timestamp, now);
      }
    case RemoteDelete(id, timestamp, now) =>
      if id in st.ids {
        DeleteAtExtends(st, st.ids[id], false, timestamp, now);
      }
    case RemoteId(_, _) =>
  }

  lemma {:induction false} RunExtends(st: State, ops: seq<Op>)
    ensures Extends(st, Run(st, ops))
  {
    if ops == [] {
    } else {
      RunExtends(st, ops[..|ops| - 1]);
      ApplyExtends(Run(st, ops[..|ops| - 1]), ops[|ops| - 1]);
    }
  }

  /** An entry with an assigned id is the one the id index gives for it. */
  ghost predicate IdsAgree(st: State) {
    forall h | 0 <= h < |st.entries| && st.entries[h].netId != ID_NOT_ASSIGNED ::
      st.entries[h].netId in st.ids && st.ids[st.entries[h].netId] == h
  }

  /** Ids that come in are new, or already name the path they come with. */
  ghost predicate Disciplined(st: State, op: Op) {
    match op
    case RemoteCreate(id, path, _, _, _) =>
      id in st.ids && st.ids[id] < |st.entries| ==> st.entries[st.ids[id]].path == path
    case RemoteId(id, path) =>
      id in st.ids && st.ids[id] < |st.entries| ==> st.entries[st.ids[id]].path == path
    case _ => true
  }

  lemma {:induction false} DeleteFromIds(st: State, h: Handle, path: Path, now: int)
    requires IdsAgree(st)
    ensures IdsAgree(DeleteFrom(st, h, path, now))
    decreases |st.entries| - h
  {
    if h < |st.entries| {
      DeleteFromIds(if Contains(st.entries[h].path, path) then DeleteAt(st, h, true, 0, now).0 else st,
                    h + 1, path, now);
    }
  }

  lemma {:induction false} DrainFromIds(st: State, h: Handle, limit: nat)
    requires IdsAgree(st)
    ensures IdsAgree(DrainFrom(st, h, limit))
    decreases |st.entries| - h
  {
    if h < |st.entries| {
      DrainFromIds(st, h + 1, limit);
      if limit > 0 {
        DrainFromIds(CleanAt(st, h), h + 1, limit - 1);
      }
    }
  }

  lemma SetAtIds(st: State, h: Handle, value: Value, clear: bool, id: EntryId, markDirty: bool, timestamp: int, now: int)
    requires IdsAgree(st) && (id != ID_NOT_ASSIGNED ==> id in st.ids && st.ids[id] == h)
    ensures IdsAgree(SetAt(st, h, value, clear, id, markDirty, timestamp, now).0)
  {
  }

  lemma DeleteAtIds(st: State, h: Handle, markDirty: bool, timestamp: int, now: int)
    requires IdsAgree(st)
    ensures IdsAgree(DeleteAt(st, h, markDirty, timestamp, now).0)
  {
  }

  lemma LocateIds(st: State, path: Path)
    requires IdsAgree(st)
    ensures IdsAgree(Locate(st, path).0) && Locate(st, path).0.ids == st.ids
  {
  }

  lemma OnIdAssignedIds(st: State, id: EntryId, path: Path)
    requires Inv(st) && IdsAgree(st) && Disciplined(st, RemoteId(id, path))
    ensures IdsAgree(OnIdAssigned(st, id, path).0)
  {
    LocateIds(st, path);
  }

  lemma ApplyIds(st: State, op: Op)
    requires Inv(st) && IdsAgree(st) && Disciplined(st, op)
    ensures IdsAgree(Apply(st, op))
  {
    hide SetAt, DeleteAt, DeleteFrom, DrainFrom, Replayable;
    match op
    case GetOrCreate(path) => LocateIds(st, path);
    case SetValue(h, value, now) => SetAtIds(st, h, value, false, ID_NOT_ASSIGNED, true, 0, now);
    case Clear(h, now) => SetAtIds(st, h, Empty, true, ID_NOT_ASSIGNED, true, 0, now);
    case Delete(h, now) => DeleteAtIds(st, h, true, 0, now);
    case DeleteAll(path, now) => DeleteFromIds(st, 0, path, now);
    case Drain(limit) => DrainFromIds(st, 0, limit);
    case ForgetIds =>
    case Shift(_) =>
    case RemoteCreate(id, path, value, timestamp, now) =>
      LocateKeeps(st, path);
      LocateIds(st, path);
      var (st1, h, status) := Locate(st, path);
      SetAtIds(st1.(ids := AddId(st1.ids, id, h)), h, value, false, id, false, timestamp, now);
    case RemoteUpdate(id, value, timestamp, now) =>
      if id in st.ids {
        SetAtIds(st, st.ids[id], value, false, id, false, timestamp, now);
      }
    case RemoteDelete(id, timestamp, now) =>
      if id in st.ids {
        DeleteAtIds(st, st.ids[id], false, timestamp, now);
      }
    case RemoteId(id, path) => OnIdAssignedIds(st, id, path);
  }

  /** For an id that is handed to a path, the discipline is exactly what is needed. */
  lemma AssignedIdIff(st: State, id: EntryId, path: Path)
    requires Inv(st) && IdsAgree(st) && id != ID_NOT_ASSIGNED
    requires OnIdAssigned(st, id, path).1 == Ok
    ensures IdsAgree(OnIdAssigned(st, id, path).0) <==> Disciplined(st, RemoteId(id, path))
  {
    hide Replayable;
    LocateKeeps(st, path);
    var (st1, h, status) := Locate(st, path);
    var st' := OnIdAssigned(st, id, path).0;
    assert st'.entries[h].netId == id;
    if Disciplined(st, RemoteId(id, path)) {
      ApplyIds(st, RemoteId(id, path));
    } else {
      assert st'.ids[id] == st.ids[id] && st.ids[id] != h;
    }
  }
}
