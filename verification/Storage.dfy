/** The imperative code of src/storage/storage.cpp: entries are objects in a handle table, changed in place, with two
    indexes beside them. Every method is proved against the function of `Store` it carries out. The time of the clock,
    where a method may read it, is the parameter `now`. */
module Storage {
  import opened Wrappers
  import opened Bytes
  import opened Codec
  import opened Store
  import opened Handles

  class StorageEntry {
    const handle: Handle
    const path: Path
    var value: Value
    var netId: EntryId
    var created: bool
    var deleted: bool
    var dirty: bool
    var lastUpdate: int

    ghost function View(): Entry
      reads this
    {
      Entry(path, value, netId, created, deleted, dirty, lastUpdate)
    }

    constructor (handle: Handle, path: Path)
      ensures this.handle == handle
      ensures View() == Entry(path, Empty, ID_NOT_ASSIGNED, false, false, false, 0)
    {
      this.handle, this.path := handle, path;
      value, netId := Empty, ID_NOT_ASSIGNED;
      created, deleted, dirty := false, false, false;
      lastUpdate := 0;
    }

    predicate HasValue()
      reads this
    {
      !created && !deleted
    }

    /** Throws (`None`) when a value of another type is there. */
    method SetValue(value: Value) returns (old': Option<Value>)
      modifies this`value
      ensures old'.None? <==> old(this.value).TypeCode() !in {Empty.TypeCode(), value.TypeCode()}
      ensures old'.None? ==> this.value == old(this.value)
      ensures old'.Some? ==> old'.value == old(this.value) && this.value == value
    {
      var oldType, newType := this.value.TypeCode(), value.TypeCode();
      if oldType != Empty.TypeCode() && oldType != newType {
        return None;
      }
      old' := Some(this.value);
      this.value := value;
    }

    method ClearValue() returns (old': Value)
      modifies this`value
      ensures old' == old(value) && value == Empty
    {
      old', value := value, Empty;
    }
  }

  class EntryStorage {
    const entries: HandleTable<StorageEntry>
    var paths: map<Path, Handle>
    var ids: map<EntryId, Handle>
    var notifications: seq<Event>  // what the listener storage was told

    ghost var state: State
    ghost var objects: set<StorageEntry>

    ghost function Repr(): set<object>
      reads this
    {
      {this, entries, entries.slots} + objects
    }

    /** The table holds the entries of `state` in its first slots and nothing after them. */
    ghost predicate TableMatches()
      reads this, entries, entries.slots, objects
    {
      && |state.entries| <= entries.slots.Length == CAPACITY
      && (forall i | 0 <= i < |state.entries| ::
            && entries.slots[i].Taken? && entries.slots[i].data in objects
            && entries.slots[i].data.View() == state.entries[i])
      && (forall i | |state.entries| <= i < CAPACITY :: entries.slots[i].Free?)
      && (forall i, j | 0 <= i < j < |state.entries| :: entries.slots[i].data != entries.slots[j].data)
    }

    ghost predicate Valid()
      reads this, entries, entries.slots, objects
    {
      && entries.Valid() && |state.entries| <= CAPACITY && TableMatches()
      && paths == state.paths && ids == state.ids && notifications == state.log
    }

    constructor ()
      ensures Valid() && fresh(Repr()) && state == Fresh
    {
      entries := new HandleTable<StorageEntry>(CAPACITY);
      paths, ids, notifications := map[], map[], [];
      state, objects := Fresh, {};
    }

    /** The slot the table is going to take: entries are never released, so it is the one after the last. */
    method NextHandle() returns (handle: Option<Handle>)
      requires Valid()
      ensures handle == if |state.entries| == CAPACITY then None else Some(|state.entries|)
    {
      var index := entries.FindNextAvailableSpot();
      assert |state.entries| < CAPACITY ==> entries.slots[|state.entries|].Free?;
      if index < 0 {
        return None;
      }
      handle := Some(index);
    }

    method Insert(data: StorageEntry)
      requires Valid() && |state.entries| < CAPACITY && data !in objects
      modifies entries, entries.slots, this`objects, this`state
      ensures entries.Valid() && TableMatches() && objects == old(objects) + {data}
      ensures state == old(state).(entries := old(state).entries + [data.View()])
    {
      ghost var n := |state.entries|;
      assert entries.slots[n].Free?;
      var slot := entries.AllocateNew(data);
      assert slot == Taken(n);
      objects := objects + {data};
      state := state.(entries := state.entries + [data.View()]);
    }

    method CreateNewEntry(path: Path) returns (handle: Option<Handle>)
      requires Valid()
      modifies Repr()
      ensures Valid() && fresh(Repr() - old(Repr()))
      ensures handle == if |old(state).entries| == CAPACITY then None else Some(|old(state).entries|)
      ensures state == if |old(state).entries| == CAPACITY then old(state) else CreateNew(old(state), path)
    {
      handle := NextHandle();
      if handle.None? {
        return;
      }
      var data := new StorageEntry(handle.value, path);
      data.created := true;
      data.lastUpdate := 0;
      Insert(data);
      AddToPaths(path, handle.value);
    }

    method AddToPaths(path: Path, handle: Handle)
      requires entries.Valid() && TableMatches()
      requires paths == state.paths && ids == state.ids && notifications == state.log
      modifies this`paths, this`state
      ensures Valid() && state == old(state).(paths := old(state).paths[path := handle])
    {
      paths := paths[path := handle];
      state := state.(paths := paths);
    }

    /** The common start of `on_entry_created` and `on_entry_id_assigned`. */
    method Find(path: Path) returns (handle: Handle, status: Status)
      requires Valid()
      modifies Repr()
      ensures Valid() && fresh(Repr() - old(Repr()))
      ensures (state, handle, status) == Locate(old(state), path)
    {
      if path in paths {
        return paths[path], Ok;
      }
      var created := CreateNewEntry(path);
      if created.None? {
        return 0, NoSpace;
      }
      handle, status := created.value, Ok;
    }

    method GetOrCreate(path: Path) returns (handle: Handle, status: Status)
      requires Valid()
      modifies Repr()
      ensures Valid() && fresh(Repr() - old(Repr()))
      ensures (state, handle, status) == GetOrCreateEntry(old(state), path)
    {
      handle, status := Find(path);
      if status == Ok && !entries.Has(handle) {
        status := NoSuchHandle;
      }
    }

    /** An entry that shows nothing comes to life. */
    method Revive(data: StorageEntry, handle: Handle) returns (told: seq<Event>)
      modifies data
      ensures data.View() == old(data.View()).(created := false, deleted := false)
      ensures told == if old(data.created || data.deleted) then [Created(data.path, handle)] else []
    {
      told := [];
      var justCreated := false;
      if data.created {
        data.created := false;
        justCreated := true;
      }
      if data.deleted {
        data.deleted := false;
        justCreated := true;
      }
      if justCreated {
        told := [Created(data.path, handle)];
      }
    }

    /** What `set_entry_internal` does to the entry, and what it tells the listeners. */
    method SetData(data: StorageEntry, handle: Handle, value: Value, clear: bool, id: EntryId, markDirty: bool,
                   timestamp: int, now: int)
      returns (told: seq<Event>, status: Status)
      modifies data
      ensures Outcome(data.View(), told, status)
              == SetEntry(handle, old(data.View()), value, clear, id, markDirty, timestamp, now)
    {
      hide Value.TypeCode;
      told, status := [], Ok;
      if timestamp != 0 && data.lastUpdate > timestamp {
        return;
      }
      told := Revive(data, handle);
      if id != ID_NOT_ASSIGNED {
        data.netId := id;
      }
      var oldValue := Empty;
      if clear {
        oldValue := data.ClearValue();
      } else {
        var r := data.SetValue(value);
        if r.None? {
          status := TypeMismatch;
          return;
        }
        oldValue := r.value;
      }
      data.dirty := markDirty;
      data.lastUpdate := if timestamp == 0 then now else timestamp;
      told := told + [Changed(data.path, handle, oldValue, value)];
    }

    method SetEntryInternal(handle: Handle, value: Value, clear: bool, id: EntryId, markDirty: bool, timestamp: int,
                            now: int)
      returns (status: Status)
      requires Valid()
      modifies Repr()
      ensures Valid() && Repr() == old(Repr())
      ensures (state, status) == SetAt(old(state), handle, value, clear, id, markDirty, timestamp, now)
    {
      hide SetEntry;
      if !entries.Has(handle) {
        return NoSuchHandle;
      }
      var data := entries.slots[handle].data;
      var told;
      told, status := SetData(data, handle, value, clear, id, markDirty, timestamp, now);
      notifications := notifications + told;
      state := Update(state, handle, Outcome(data.View(), told, status));
    }

    method DeleteData(data: StorageEntry, handle: Handle, markDirty: bool, timestamp: int, now: int)
      returns (told: seq<Event>)
      modifies data
      ensures Outcome(data.View(), told, Ok) == DeleteEntry(handle, old(data.View()), markDirty, timestamp, now)
    {
      if timestamp != 0 && data.lastUpdate > timestamp {
        return [];
      }
      if data.created || data.deleted {
        return [];
      }
      var _ := data.ClearValue();
      data.deleted := true;
      data.dirty := markDirty;
      data.lastUpdate := if timestamp == 0 then now else timestamp;
      told := [Deleted(data.path, handle)];
    }

    method DeleteEntryInternal(handle: Handle, markDirty: bool, timestamp: int, now: int) returns (status: Status)
      requires Valid()
      modifies Repr()
      ensures Valid() && Repr() == old(Repr())
      ensures (state, status) == DeleteAt(old(state), handle, markDirty, timestamp, now)
    {
      hide DeleteEntry;
      if !entries.Has(handle) {
        return NoSuchHandle;
      }
      var data := entries.slots[handle].data;
      var told := DeleteData(data, handle, markDirty, timestamp, now);
      notifications := notifications + told;
      state := Update(state, handle, Outcome(data.View(), told, Ok));
      status := Ok;
    }

    /** Where iterating over the entries goes from `at`. */
    method NextEntry(at: int) returns (next: nat)
      requires Valid() && -1 <= at < CAPACITY
      ensures at + 1 < |state.entries| ==> next == at + 1
      ensures at + 1 >= |state.entries| ==> next == CAPACITY
    {
      next := entries.Next(at);
      assert at + 1 < |state.entries| ==> entries.slots[at + 1].Taken?;
    }

    method GetEntryPath(handle: Handle) returns (path: Path)
      requires Valid() && handle < |state.entries|
      ensures path == state.entries[handle].path
    {
      path := entries.slots[handle].data.path;
    }

    /** The entry an action is given. */
    method GetEntry(handle: Handle) returns (e: Entry)
      requires Valid() && handle < |state.entries|
      ensures e == state.entries[handle]
    {
      var data := entries.slots[handle].data;
      e := Entry(data.path, data.value, data.netId, data.created, data.deleted, data.dirty, data.lastUpdate);
    }

    method IsDirty(handle: Handle) returns (dirty: bool)
      requires Valid() && handle < |state.entries|
      ensures dirty == state.entries[handle].dirty
    {
      dirty := entries.slots[handle].data.dirty;
    }

    method DeleteEntries(path: Path, now: int)
      requires Valid()
      modifies Repr()
      ensures Valid() && Repr() == old(Repr())
      ensures state == DeleteFrom(old(state), 0, path, now)
    {
      hide TableMatches;
      var at := NextEntry(-1);
      while at < CAPACITY
        invariant Valid() && Repr() == old(Repr())
        invariant at < |state.entries| || at == CAPACITY
        invariant DeleteFrom(state, at, path, now) == DeleteFrom(old(state), 0, path, now)
        decreases CAPACITY - at
      {
        var entryPath := GetEntryPath(at);
        if Contains(entryPath, path) {
          var _ := DeleteEntryInternal(at, true, 0, now);
        }
        at := NextEntry(at);
      }
    }

    /** `act_on_dirty_entries` with an action that agrees `limit` times. */
    method ActOnDirtyEntries(limit: nat)
      requires Valid()
      modifies Repr()
      ensures Valid() && Repr() == old(Repr())
      ensures state == DrainFrom(old(state), 0, limit)
    {
      hide TableMatches;
      var left := limit;
      var at := NextEntry(-1);
      while at < CAPACITY
        invariant Valid() && Repr() == old(Repr())
        invariant at < |state.entries| || at == CAPACITY
        invariant DrainFrom(state, at, left) == DrainFrom(old(state), 0, limit)
        decreases CAPACITY - at
      {
        var dirty := IsDirty(at);
        if dirty {
          if left == 0 {
            break;
          }
          CleanEntry(at);
          left := left - 1;
        }
        at := NextEntry(at);
      }
    }

    method SetNetId(handle: Handle, id: EntryId)
      requires Valid() && handle < |state.entries|
      modifies Repr()
      ensures Valid() && Repr() == old(Repr())
      ensures state == old(state).(entries := old(state).entries[
                         handle := old(state).entries[handle].(netId := id)])
    {
      entries.slots[handle].data.netId := id;
      state := state.(entries := state.entries[handle := state.entries[handle].(netId := id)]);
    }

    method AdjustTime(handle: Handle, offset: int)
      requires Valid() && handle < |state.entries|
      modifies Repr()
      ensures Valid() && Repr() == old(Repr())
      ensures state == old(state).(entries := old(state).entries[
                         handle := Adjusted(old(state).entries[handle], offset)])
    {
      var data := entries.slots[handle].data;
      if data.lastUpdate != 0 {
        data.lastUpdate := data.lastUpdate - offset;
      }
      state := state.(entries := state.entries[handle := Adjusted(state.entries[handle], offset)]);
    }

    method CleanEntry(handle: Handle)
      requires Valid() && handle < |state.entries|
      modifies Repr()
      ensures Valid() && Repr() == old(Repr())
      ensures state == CleanAt(old(state), handle)
    {
      entries.slots[handle].data.dirty := false;
      state := CleanAt(state, handle);
    }

    method ClearNetIds()
      requires Valid()
      modifies Repr()
      ensures Valid() && Repr() == old(Repr())
      ensures state == Store.ClearNetIds(old(state))
    {
      hide TableMatches;
      var at := NextEntry(-1);
      while at < CAPACITY
        invariant Valid() && Repr() == old(Repr())
        invariant at < |state.entries| || at == CAPACITY
        invariant |state.entries| == |old(state).entries|
        invariant state == old(state).(entries := state.entries)
        invariant forall i | 0 <= i < |state.entries| ::
                    state.entries[i] == if i < at then old(state).entries[i].(netId := ID_NOT_ASSIGNED)
                                        else old(state).entries[i]
        decreases CAPACITY - at
      {
        SetNetId(at, ID_NOT_ASSIGNED);
        at := NextEntry(at);
      }
      DropIds();
      assert state.entries == Store.ClearNetIds(old(state)).entries;
    }

    method DropIds()
      requires Valid()
      modifies this`ids, this`state
      ensures Valid() && state == old(state).(ids := map[])
    {
      ids := map[];
      state := state.(ids := map[]);
    }

    /** `adjust_time` takes the clock's offset off. */
    method OnClockResync(offset: int)
      requires Valid()
      modifies Repr()
      ensures Valid() && Repr() == old(Repr())
      ensures state == Resync(old(state), offset)
    {
      hide TableMatches, Adjusted;
      var at := NextEntry(-1);
      while at < CAPACITY
        invariant Valid() && Repr() == old(Repr())
        invariant at < |state.entries| || at == CAPACITY
        invariant |state.entries| == |old(state).entries|
        invariant state == old(state).(entries := state.entries)
        invariant forall i | 0 <= i < |state.entries| ::
                    state.entries[i] == if i < at then Adjusted(old(state).entries[i], offset) else old(state).entries[i]
        decreases CAPACITY - at
      {
        AdjustTime(at, offset);
        at := NextEntry(at);
      }
      assert state.entries == Resync(old(state), offset).entries;
    }

    method OnEntryCreated(id: EntryId, path: Path, value: Value, timestamp: int, now: int) returns (status: Status)
      requires Valid()
      modifies Repr()
      ensures Valid() && fresh(Repr() - old(Repr()))
      ensures (state, status) == OnCreated(old(state), id, path, value, timestamp, now)
    {
      var handle;
      handle, status := Find(path);
      if status != Ok {
        return;
      }
      AddToIds(id, handle);
      status := SetEntryInternal(handle, value, false, id, false, timestamp, now);
    }

    method AddToIds(id: EntryId, handle: Handle)
      requires Valid()
      modifies this`ids, this`state
      ensures Valid()
      ensures state == old(state).(ids := AddId(old(state).ids, id, handle))
    {
      if id !in ids {
        ids := ids[id := handle];
      }
      state := state.(ids := ids);
    }

    method OnEntryUpdated(id: EntryId, value: Value, timestamp: int, now: int) returns (status: Status)
      requires Valid()
      modifies Repr()
      ensures Valid() && Repr() == old(Repr())
      ensures (state, status) == OnUpdated(old(state), id, value, timestamp, now)
    {
      if id !in ids {
        return Ok;
      }
      status := SetEntryInternal(ids[id], value, false, id, false, timestamp, now);
    }

    method OnEntryDeleted(id: EntryId, timestamp: int, now: int) returns (status: Status)
      requires Valid()
      modifies Repr()
      ensures Valid() && Repr() == old(Repr())
      ensures (state, status) == OnDeleted(old(state), id, timestamp, now)
    {
      if id !in ids {
        return Ok;
      }
      status := DeleteEntryInternal(ids[id], false, timestamp, now);
    }

    method OnEntryIdAssigned(id: EntryId, path: Path) returns (status: Status)
      requires Valid()
      modifies Repr()
      ensures Valid() && fresh(Repr() - old(Repr()))
      ensures (state, status) == OnIdAssigned(old(state), id, path)
    {
      var handle;
      handle, status := Find(path);
      if status != Ok {
        return;
      }
      if !entries.Has(handle) {
        return NoSuchHandle;
      }
      SetNetId(handle, id);
      AddToIds(id, handle);
    }

    method GetEntryValue(handle: Handle) returns (value: Option<Value>)
      requires Valid()
      ensures value == GetValue(state, handle)
    {
      if !entries.Has(handle) || !entries.slots[handle].data.HasValue() {
        return None;
      }
      value := Some(entries.slots[handle].data.value);
    }

    method GetEntryValueFromId(id: EntryId) returns (value: Option<Value>)
      requires Valid()
      ensures value == GetValueFromId(state, id)
    {
      if id !in ids {
        return None;
      }
      value := GetEntryValue(ids[id]);
    }
  }
}
