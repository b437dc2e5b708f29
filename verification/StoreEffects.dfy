/** What a caller of the store sees of each operation: what reading returns afterwards, which flags and times an entry
    has, what has been told, and that everything else is as it was. */
module StoreEffects {
  import opened Wrappers
  import opened Bytes
  import opened Codec
  import opened Store
  import StoreLaws

  /** The last update of a path's entry; a path without an entry counts as never updated. */
  function LastUpdate(st: State, path: Path): int {
    if path in st.paths && st.paths[path] < |st.entries| then st.entries[st.paths[path]].lastUpdate else 0
  }

  /** A value can take the place of what is shown. */
  predicate Accepts(shown: Option<Value>, value: Value) {
    shown.None? || shown.value.TypeCode() in {Empty.TypeCode(), value.TypeCode()}
  }

  /** A nonzero timestamp is too old for an entry. */
  predicate Stale(lastUpdate: int, timestamp: int) {
    timestamp != 0 && lastUpdate > timestamp
  }

  function Stamp(timestamp: int, now: int): int {
    if timestamp == 0 then now else timestamp
  }

  /** At most the entry `h` has changed, and not its path; so have neither of the indexes. */
  ghost predicate OnlyAt(st: State, st': State, h: Handle) {
    && |st'.entries| == |st.entries| && st'.paths == st.paths && st'.ids == st.ids
    && (forall k | 0 <= k < |st.entries| && k != h :: st'.entries[k] == st.entries[k])
    && (h < |st.entries| ==> st'.entries[h].path == st.entries[h].path)
  }

  /** What the listeners are told of a value that is set. */
  function ToldOfSet(path: Path, h: Handle, shown: Option<Value>, value: Value): seq<Event> {
    match shown
    case None => [Created(path, h), Changed(path, h, Empty, value)]
    case Some(before) => [Changed(path, h, before, value)]
  }

  // ---------------------------------------------------------------- one entry

  /** The three outcomes of a set: too old, it changes nothing; of a type that does not fit, at most the id; otherwise
      the entry shows the value. */
  lemma SetAtEffect(st: State, h: Handle, value: Value, clear: bool, id: EntryId, markDirty: bool, timestamp: int,
                    now: int)
    requires Inv(st) && h < |st.entries| && (clear ==> value == Empty)
    ensures
      var (st', status) := SetAt(st, h, value, clear, id, markDirty, timestamp, now);
      var e, shown := st.entries[h], GetValue(st, h);
      var netId := if id == ID_NOT_ASSIGNED then e.netId else id;
      OnlyAt(st, st', h) &&
      if Stale(e.lastUpdate, timestamp) then st' == st && status == Ok
      else if !clear && !Accepts(shown, value) then
        st'.entries[h] == e.(netId := netId) && st'.log == st.log && status == TypeMismatch
      else
        && GetValue(st', h) == Some(value) && status == Ok
        && st'.entries[h].lastUpdate == Stamp(timestamp, now) && st'.entries[h].dirty == markDirty
        && st'.entries[h].netId == netId && st'.log == st.log + ToldOfSet(e.path, h, shown, value)
  {
    assert Sound(st.entries[h]);
    assert st.entries[h := st.entries[h]] == st.entries && st.log + [] == st.log;
  }

  /** A deletion is without effect when it is too old or when there is nothing to delete. */
  lemma DeleteAtEffect(st: State, h: Handle, markDirty: bool, timestamp: int, now: int)
    requires Inv(st) && h < |st.entries|
    ensures
      var (st', status) := DeleteAt(st, h, markDirty, timestamp, now);
      var e := st.entries[h];
      OnlyAt(st, st', h) && status == Ok &&
      if Stale(e.lastUpdate, timestamp) || GetValue(st, h).None? then st' == st
      else
        && GetValue(st', h) == None && st'.entries[h].deleted && st'.entries[h].value == Empty
        && st'.entries[h].lastUpdate == Stamp(timestamp, now) && st'.entries[h].dirty == markDirty
        && st'.entries[h].netId == e.netId && st'.log == st.log + [Deleted(e.path, h)]
  {
    assert st.entries[h := st.entries[h]] == st.entries && st.log + [] == st.log;
  }

  // ---------------------------------------------------------------- local calls

  /** The entry that a look-up returns is the path's; it keeps what it shows, and a new one shows nothing. */
  lemma GetOrCreateEffect(st: State, path: Path)
    requires Inv(st)
    ensures
      var (st', h, status) := GetOrCreateEntry(st, path);
      if path !in st.paths && |st.entries| == CAPACITY then st' == st && status == NoSpace
      else
        && status == Ok && path in st'.paths && st'.paths[path] == h && Lookup(st', path) == Lookup(st, path)
        && st.entries <= st'.entries && st'.ids == st.ids && st'.log == st.log
        && (forall p :: p in st'.paths <==> p in st.paths || p == path)
        && (forall p | p in st.paths :: st'.paths[p] == st.paths[p])
        && (path in st.paths ==> st' == st)
        && (path !in st.paths ==>
              h == |st.entries| && |st'.entries| == |st.entries| + 1 && !st'.entries[h].dirty
              && st'.entries[h].netId == ID_NOT_ASSIGNED && st'.entries[h].lastUpdate == 0)
  {
  }

  /** A value that is set is shown, is new as of now, and waits to be sent; one of another type changes nothing. */
  lemma SetEffect(st: State, h: Handle, value: Value, now: int)
    requires Inv(st) && h < |st.entries|
    ensures
      var st' := Apply(st, SetValue(h, value, now));
      if !Accepts(GetValue(st, h), value) then st' == st
      else
        && OnlyAt(st, st', h) && GetValue(st', h) == Some(value)
        && st'.entries[h].dirty && st'.entries[h].lastUpdate == now && st'.entries[h].netId == st.entries[h].netId
        && st'.log == st.log + ToldOfSet(st.entries[h].path, h, GetValue(st, h), value)
  {
    SetAtEffect(st, h, value, false, ID_NOT_ASSIGNED, true, 0, now);
    hide Inv, SetAt;
    var st' := Apply(st, SetValue(h, value, now));
    if !Accepts(GetValue(st, h), value) {
      assert st'.entries == st.entries;
    }
  }

  /** A cleared entry shows an empty value, whatever it showed before. */
  lemma ClearEffect(st: State, h: Handle, now: int)
    requires Inv(st) && h < |st.entries|
    ensures
      var st' := Apply(st, Clear(h, now));
      && OnlyAt(st, st', h) && GetValue(st', h) == Some(Empty)
      && st'.entries[h].dirty && st'.entries[h].lastUpdate == now && st'.entries[h].netId == st.entries[h].netId
      && st'.log == st.log + ToldOfSet(st.entries[h].path, h, GetValue(st, h), Empty)
  {
    hide Inv, SetAt;
    SetAtEffect(st, h, Empty, true, ID_NOT_ASSIGNED, true, 0, now);
  }

  /** A deleted entry shows nothing, and its deletion waits to be sent; where nothing is shown nothing changes. */
  lemma DeleteEffect(st: State, h: Handle, now: int)
    requires Inv(st) && h < |st.entries|
    ensures
      var st' := Apply(st, Delete(h, now));
      if GetValue(st, h).None? then st' == st
      else
        && OnlyAt(st, st', h) && GetValue(st', h) == None && st'.entries[h].deleted
        && st'.entries[h].dirty && st'.entries[h].lastUpdate == now && st'.entries[h].netId == st.entries[h].netId
        && st'.log == st.log + [Deleted(st.entries[h].path, h)]
  {
    hide Inv, DeleteAt;
    DeleteAtEffect(st, h, true, 0, now);
  }

  /** A path contains a part if and only if it is made up of something, that part and something else; in particular a
      path contains each of its prefixes. */
  lemma ContainsIff(s: Path, part: Path)
    ensures Contains(s, part) <==> exists front: Path, back: Path :: s == front + part + back
    ensures part <= s ==> Contains(s, part)
  {
    if Contains(s, part) {
      var i :| 0 <= i <= |s| && OccursAt(s, part, i);
      assert s == s[..i] + part + s[i + |part|..];
    }
    forall front: Path, back: Path | s == front + part + back ensures Contains(s, part) {
      assert OccursAt(s, part, |front|);
    }
    if part <= s {
      assert OccursAt(s, part, 0);
    }
  }

  /** Entry `k` after the deletions from handle `h` on. */
  lemma {:induction false} DeleteFromAt(st: State, h: Handle, path: Path, now: int, k: Handle)
    requires Inv(st) && k < |st.entries|
    ensures
      var st' := DeleteFrom(st, h, path, now);
      && st'.paths == st.paths && st'.ids == st.ids && st'.entries[k].path == st.entries[k].path
      && if k < h || !Contains(st.entries[k].path, path) || GetValue(st, k).None? then st'.entries[k] == st.entries[k]
         else
           && GetValue(st', k) == None && st'.entries[k].deleted && st'.entries[k].dirty
           && st'.entries[k].lastUpdate == now && st'.entries[k].netId == st.entries[k].netId
    decreases |st.entries| - h
  {
    hide Inv, Contains, DeleteAt;
    if h < |st.entries| {
      DeleteAtEffect(st, h, true, 0, now);
      StoreLaws.DeleteAtKeeps(st, h, true, 0, now);
      var st1 := if Contains(st.entries[h].path, path) then DeleteAt(st, h, true, 0, now).0 else st;
      DeleteFromAt(st1, h + 1, path, now, k);
    }
  }

  /** Deleting all entries under a path deletes those whose path contains it, in particular those whose path begins with
      it, and no other; what is deleted waits to be sent. */
  lemma DeleteAllEffect(st: State, path: Path, now: int, h: Handle)
    requires Inv(st) && h < |st.entries|
    ensures
      var st' := Apply(st, DeleteAll(path, now));
      && |st'.entries| == |st.entries| && st'.paths == st.paths && st'.ids == st.ids
      && (path <= st.entries[h].path ==> GetValue(st', h) == None)
      && if !Contains(st.entries[h].path, path) || GetValue(st, h).None? then st'.entries[h] == st.entries[h]
         else
           && GetValue(st', h) == None && st'.entries[h].deleted && st'.entries[h].dirty
           && st'.entries[h].lastUpdate == now && st'.entries[h].netId == st.entries[h].netId
           && st'.entries[h].path == st.entries[h].path
  {
    DeleteFromAt(st, 0, path, now, h);
    ContainsIff(st.entries[h].path, path);
  }

  function DirtyCount(entries: seq<Entry>): nat {
    if entries == [] then 0 else (if entries[0].dirty then 1 else 0) + DirtyCount(entries[1..])
  }

  lemma {:induction false} DrainFromAt(st: State, h: Handle, limit: nat, k: Handle)
    requires h <= |st.entries| && k < |st.entries|
    ensures
      var st' := DrainFrom(st, h, limit);
      && st' == st.(entries := st'.entries)
      && st'.entries[k]
         == if h <= k && st.entries[k].dirty && DirtyCount(st.entries[h..k]) < limit
            then st.entries[k].(dirty := false) else st.entries[k]
    decreases |st.entries| - h
  {
    if h < |st.entries| {
      var dirty := st.entries[h].dirty;
      var st1 := if dirty && limit > 0 then CleanAt(st, h) else st;
      if !dirty || limit > 0 {
        DrainFromAt(st1, h + 1, if dirty then limit - 1 else limit, k);
      }
      if h < k {
        assert st.entries[h..k][1..] == st1.entries[h + 1..k];
      }
    }
  }

  /** Draining: an action that agrees `limit` times leaves the first `limit` dirty entries clean; all the others, and all
      else about these, stay as they were. */
  lemma DrainEffect(st: State, limit: nat, h: Handle)
    requires h < |st.entries|
    ensures
      var st' := Apply(st, Drain(limit));
      && |st'.entries| == |st.entries| && st' == st.(entries := st'.entries)
      && st'.entries[h] == st.entries[h].(dirty := st'.entries[h].dirty)
      && (st'.entries[h].dirty <==> st.entries[h].dirty && DirtyCount(st.entries[..h]) >= limit)
  {
    DrainFromAt(st, 0, limit, h);
    assert st.entries[0..h] == st.entries[..h];
  }

  /** No id is known afterwards, neither to the index nor to an entry; nothing else has changed. */
  lemma ForgetIdsEffect(st: State, id: EntryId, h: Handle)
    ensures
      var st' := Apply(st, ForgetIds);
      && GetValueFromId(st', id) == None && id !in st'.ids && st'.paths == st.paths && st'.log == st.log
      && |st'.entries| == |st.entries|
      && (h < |st.entries| ==>
            st'.entries[h].netId == ID_NOT_ASSIGNED
            && st'.entries[h].(netId := st.entries[h].netId) == st.entries[h])
  {
  }

  /** A resync keeps what is shown and how far apart any two updates are; an entry that was never updated stays so. */
  lemma ResyncEffect(st: State, offset: int, h: Handle, k: Handle)
    requires h < |st.entries| && k < |st.entries|
    ensures
      var st' := Apply(st, Shift(offset));
      var e, e', f, f' := st.entries[h], st'.entries[h], st.entries[k], st'.entries[k];
      && st'.paths == st.paths && st'.ids == st.ids && st'.log == st.log && |st'.entries| == |st.entries|
      && e'.(lastUpdate := e.lastUpdate) == e
      && (e.lastUpdate == 0 ==> e'.lastUpdate == 0)
      && (e.lastUpdate != 0 ==> e'.lastUpdate + offset == e.lastUpdate)
      && (e.lastUpdate != 0 && f.lastUpdate != 0 ==>
            e'.lastUpdate - f'.lastUpdate == e.lastUpdate - f.lastUpdate)
  {
  }

  // ---------------------------------------------------------------- what the network brings

  /** A remote creation: the path shows the value, with its time and id, if and only if there is room for it, it is not
      too old and its type fits (or the path showed just that with just that time already). Otherwise what is shown and
      its time stay as they were. Only the entry of the path is touched. */
  lemma CreatedIff(st: State, id: EntryId, path: Path, value: Value, timestamp: int, now: int)
    requires Inv(st)
    ensures
      var (st', status) := OnCreated(st, id, path, value, timestamp, now);
      var room := path in st.paths || |st.entries| < CAPACITY;
      var recent := !Stale(LastUpdate(st, path), timestamp);
      var fits := Accepts(Lookup(st, path), value);
      var time := Stamp(timestamp, now);
      && st' == Apply(st, RemoteCreate(id, path, value, timestamp, now))
      && (Lookup(st', path) == Some(value) && LastUpdate(st', path) == time
          <==> (room && recent && fits) || (Lookup(st, path) == Some(value) && LastUpdate(st, path) == time))
      && (!(room && recent && fits) ==>
            Lookup(st', path) == Lookup(st, path) && LastUpdate(st', path) == LastUpdate(st, path) && st'.log == st.log)
      && status == (if !room then NoSpace else if recent && !fits then TypeMismatch else Ok)
      && (!room ==> st' == st)
  {
    CreatedEffect(st, id, path, value, timestamp, now);
  }

  /** At most the entry of `path` is new or has changed; every other path has the entry it had, as it was. */
  ghost predicate OnlyPath(st: State, st': State, path: Path) {
    && path in st'.paths && st'.paths[path] < |st'.entries|
    && (forall p :: p in st'.paths <==> p in st.paths || p == path)
    && (forall p | p in st.paths :: st'.paths[p] == st.paths[p] && st.paths[p] < |st.entries| <= |st'.entries|)
    && (forall p | p in st.paths && p != path :: st'.entries[st.paths[p]] == st.entries[st.paths[p]])
  }

  /** A remote creation in detail: where the path has or gets an entry, there are the three outcomes of a set. */
  lemma CreatedEffect(st: State, id: EntryId, path: Path, value: Value, timestamp: int, now: int)
    requires Inv(st)
    ensures
      var (st', status) := OnCreated(st, id, path, value, timestamp, now);
      if path !in st.paths && |st.entries| == CAPACITY then st' == st && status == NoSpace
      else
        && OnlyPath(st, st', path)
        && (id !in st.ids ==> GetValueFromId(st', id) == Lookup(st', path))
        && (forall i | i in st.ids :: i in st'.ids && st'.ids[i] == st.ids[i])
        && var h := st'.paths[path];
           if Stale(LastUpdate(st, path), timestamp) || !Accepts(Lookup(st, path), value) then
             && status == (if Stale(LastUpdate(st, path), timestamp) then Ok else TypeMismatch)
             && Lookup(st', path) == Lookup(st, path) && LastUpdate(st', path) == LastUpdate(st, path)
             && st'.log == st.log
           else
             && status == Ok && Lookup(st', path) == Some(value) && LastUpdate(st', path) == Stamp(timestamp, now)
             && !st'.entries[h].dirty && (id != ID_NOT_ASSIGNED ==> st'.entries[h].netId == id)
             && st'.log == st.log + ToldOfSet(path, h, Lookup(st, path), value)
  {
    LocateEffect(st, path);
    var (st1, h, status) := Locate(st, path);
    hide Inv, Locate, SetAt, OnlyPath, Lookup, LastUpdate, GetValue, GetValueFromId, OnlyAt, Stale, Accepts, Stamp, ToldOfSet;
    if status == Ok {
      SetAtPath(st1, id, h, path, value, timestamp, now);
      OnlyPathThen(st, st1, OnCreated(st, id, path, value, timestamp, now).0, path);
    }
  }

  lemma LocateEffect(st: State, path: Path)
    requires Inv(st)
    ensures
      var (st1, h, status) := Locate(st, path);
      if path !in st.paths && |st.entries| == CAPACITY then st1 == st && status == NoSpace
      else
        && status == Ok && Inv(st1) && OnlyPath(st, st1, path) && st1.paths[path] == h
        && Lookup(st1, path) == Lookup(st, path) && LastUpdate(st1, path) == LastUpdate(st, path)
        && st1.ids == st.ids && st1.log == st.log
  {
    StoreLaws.LocateKeeps(st, path);
    InvFacts(st);
    hide Inv;
  }

  lemma OnlyPathThen(st: State, st1: State, st': State, path: Path)
    requires OnlyPath(st, st1, path) && Inv(st1) && OnlyAt(st1.(ids := st'.ids), st', st1.paths[path])
    ensures OnlyPath(st, st', path)
  {
    InvFacts(st1);
    hide Inv;
  }

  /** The second half of a creation: the entry of the path is there. */
  lemma SetAtPath(st: State, id: EntryId, h: Handle, path: Path, value: Value, timestamp: int, now: int)
    requires Inv(st) && path in st.paths && st.paths[path] == h
    ensures
      var (st', status) := SetAt(st.(ids := AddId(st.ids, id, h)), h, value, false, id, false, timestamp, now);
      && OnlyAt(st.(ids := st'.ids), st', h) && st'.paths == st.paths
      && (id !in st.ids ==> GetValueFromId(st', id) == Lookup(st', path))
      && (forall i | i in st.ids :: i in st'.ids && st'.ids[i] == st.ids[i])
      && h < |st'.entries|
      && if Stale(LastUpdate(st, path), timestamp) || !Accepts(Lookup(st, path), value) then
           && status == (if Stale(LastUpdate(st, path), timestamp) then Ok else TypeMismatch)
           && Lookup(st', path) == Lookup(st, path) && LastUpdate(st', path) == LastUpdate(st, path)
           && st'.log == st.log
         else
           && status == Ok && Lookup(st', path) == Some(value) && LastUpdate(st', path) == Stamp(timestamp, now)
           && !st'.entries[h].dirty && (id != ID_NOT_ASSIGNED ==> st'.entries[h].netId == id)
           && st'.log == st.log + ToldOfSet(path, h, Lookup(st, path), value)
  {
    var st2 := st.(ids := AddId(st.ids, id, h));
    InvFacts(st);
    StoreLaws.AddIdKeeps(st, id, h);
    SetAtEffect(st2, h, value, false, id, false, timestamp, now);
    hide Inv, SetAt, Stale, Accepts, Stamp, ToldOfSet;
  }

  lemma InvFacts(st: State)
    requires Inv(st)
    ensures forall p | p in st.paths :: st.paths[p] < |st.entries| && st.entries[st.paths[p]].path == p
    ensures forall i | i in st.ids :: st.ids[i] < |st.entries|
    ensures |st.entries| <= CAPACITY
  {
  }

  /** A remote update reaches the entry that the id names, and is told from a local one by leaving it clean. */
  lemma UpdatedEffect(st: State, id: EntryId, value: Value, timestamp: int, now: int)
    requires Inv(st)
    ensures
      var (st', status) := OnUpdated(st, id, value, timestamp, now);
      && st' == Apply(st, RemoteUpdate(id, value, timestamp, now))
      && if id !in st.ids then st' == st && status == Ok
         else
           var h := st.ids[id];
           var e := st.entries[h];
           OnlyAt(st, st', h) &&
           if Stale(e.lastUpdate, timestamp) then st' == st && status == Ok
           else if !Accepts(GetValueFromId(st, id), value) then
             && status == TypeMismatch && GetValueFromId(st', id) == GetValueFromId(st, id) && st'.log == st.log
             && st'.entries[h] == e.(netId := st'.entries[h].netId)
           else
             && status == Ok && GetValueFromId(st', id) == Some(value) && !st'.entries[h].dirty
             && st'.entries[h].lastUpdate == Stamp(timestamp, now)
             && (id != ID_NOT_ASSIGNED ==> st'.entries[h].netId == id)
             && st'.log == st.log + ToldOfSet(e.path, h, GetValueFromId(st, id), value)
  {
    InvFacts(st);
    if id in st.ids {
      SetAtEffect(st, st.ids[id], value, false, id, false, timestamp, now);
      hide Inv, SetAt;
    }
  }

  /** A remote deletion that is not too old leaves nothing to be shown, and nothing to be sent. */
  lemma DeletedEffect(st: State, id: EntryId, timestamp: int, now: int)
    requires Inv(st)
    ensures
      var (st', status) := OnDeleted(st, id, timestamp, now);
      && st' == Apply(st, RemoteDelete(id, timestamp, now)) && status == Ok
      && if GetValueFromId(st, id).None? then st' == st
         else
           var h := st.ids[id];
           OnlyAt(st, st', h) &&
           if Stale(st.entries[h].lastUpdate, timestamp) then st' == st
           else
             && GetValueFromId(st', id) == None && st'.entries[h].deleted && !st'.entries[h].dirty
             && st'.entries[h].lastUpdate == Stamp(timestamp, now)
             && st'.log == st.log + [Deleted(st.entries[h].path, h)]
  {
    InvFacts(st);
    if id in st.ids {
      DeleteAtEffect(st, st.ids[id], false, timestamp, now);
      hide Inv, DeleteAt;
    }
  }

  /** An assigned id goes to the entry of the path, which is made if need be; the index takes it unless it knows the id
      already. No value, time or flag changes. */
  lemma IdAssignedEffect(st: State, id: EntryId, path: Path, h: Handle)
    requires Inv(st)
    ensures
      var (st', status) := OnIdAssigned(st, id, path);
      && st' == Apply(st, RemoteId(id, path))
      && if path !in st.paths && |st.entries| == CAPACITY then st' == st && status == NoSpace
         else
           && status == Ok && OnlyPath(st, st', path) && st'.log == st.log
           && st'.entries[st'.paths[path]].netId == id
           && Lookup(st', path) == Lookup(st, path) && LastUpdate(st', path) == LastUpdate(st, path)
           && (id !in st.ids ==> GetValueFromId(st', id) == Lookup(st, path))
           && (forall i | i in st.ids :: i in st'.ids && st'.ids[i] == st.ids[i])
           && (h < |st.entries| ==>
                 && h < |st'.entries|
                 && st'.entries[h] == if h == st'.paths[path] then st.entries[h].(netId := id) else st.entries[h])
  {
    hide Inv, Locate, OnlyPath, LastUpdate, Lookup, GetValueFromId, GetValue;
    LocateEffect(st, path);
    GetOrCreateEffect(st, path);
    var (st1, at, status) := Locate(st, path);
    if status == Ok {
      NameAt(st1, id, at, path);
      OnlyPathThen(st, st1, OnIdAssigned(st, id, path).0, path);
    }
  }

  lemma NameAt(st: State, id: EntryId, at: Handle, path: Path)
    requires Inv(st) && path in st.paths && st.paths[path] == at && at < |st.entries|
    ensures
      var st' := st.(entries := st.entries[at := st.entries[at].(netId := id)], ids := AddId(st.ids, id, at));
      && OnlyAt(st.(ids := st'.ids), st', at) && st'.paths == st.paths
      && Lookup(st', path) == Lookup(st, path) && LastUpdate(st', path) == LastUpdate(st, path)
      && (id !in st.ids ==> GetValueFromId(st', id) == Lookup(st, path))
      && (forall i | i in st.ids :: i in st'.ids && st'.ids[i] == st.ids[i])
  {
    hide Inv;
  }
}
