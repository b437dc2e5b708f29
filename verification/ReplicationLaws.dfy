/** What every reachable state of the replication protocol keeps, and that clients converge to the server. */
module ReplicationLaws {
  import opened Wrappers
  import opened Bytes
  import opened Codec
  import opened Store
  import opened StoreLaws
  import opened Links
  import opened Replication
  import opened PipeLaws

  // ---------------------------------------------------------------- the invariant

  function Pipe(p: Peer): seq<Msg> {
    Relevant(p.down + p.queue)
  }

  /** Ids are handed out in order, each to one entry of the server and for ever. */
  ghost predicate IdsOk(store: State, nextId: EntryId, assignments: map<EntryId, Path>) {
    && (forall i: EntryId :: i in assignments <==> i < nextId)
    && store.ids.Keys == assignments.Keys
    && (forall i | i in assignments ::
          && store.ids[i] < |store.entries| && store.entries[store.ids[i]].netId == i
          && store.entries[store.ids[i]].path == assignments[i])
    && nextId <= |store.entries|
  }

  /** A server entry in any state a local call can leave it in. */
  ghost predicate ServerEntryOk(now: int, e: Entry) {
    && (!e.created ==> 0 < e.lastUpdate <= now)
    && (!e.created && !e.dirty ==> e.netId != ID_NOT_ASSIGNED)
  }

  ghost predicate ServerOk(now: int, store: State, nextId: EntryId, assignments: map<EntryId, Path>) {
    && now > 0
    && Inv(store) && IdsAgree(store)
    && IdsOk(store, nextId, assignments)
    && (forall h | 0 <= h < |store.entries| :: ServerEntryOk(now, store.entries[h]))
  }

  /** A client's entries all come from assignments, and nothing on a client is waiting to be sent. */
  ghost predicate ClientOk(assignments: map<EntryId, Path>, st: State) {
    && Inv(st) && IdsAgree(st)
    && (forall h | 0 <= h < |st.entries| :: st.entries[h].netId != ID_NOT_ASSIGNED && !st.entries[h].dirty)
    && (forall i | i in st.ids :: i in assignments && st.entries[st.ids[i]].path == assignments[i])
  }

  ghost predicate MsgOk(assignments: map<EntryId, Path>, m: Msg) {
    match m
    case Assign(id, path) => id in assignments && assignments[id] == path
    case Upd(time, id, _) => time > 0 && id in assignments
    case Del(time, id) => time > 0 && id in assignments
    case _ => true
  }

  ghost predicate PipeOk(assignments: map<EntryId, Path>, known: set<EntryId>, ms: seq<Msg>) {
    && (forall m | m in ms :: MsgOk(assignments, m))
    && Orderly(known, ms)
  }

  /** What a client shows for an id; nothing while it does not know the id. */
  function TrackOf(st: State, id: EntryId): Track {
    if id in st.ids && st.ids[id] < |st.entries|
    then Track(GetValue(st, st.ids[id]), st.entries[st.ids[id]].lastUpdate)
    else Track(None, 0)
  }

  function Shown(e: Entry): Option<Value> {
    if e.HasValue() then Some(e.value) else None
  }

  /** The entry is as it was last told: the values told since the last deletion end with its own. */
  ghost predicate LastTold(e: Entry, vs: seq<Value>) {
    if e.HasValue() then vs != [] && vs[|vs| - 1] == e.value else vs == []
  }

  /** Once everything on its way has arrived, the client shows what it has been told, `vs`; and that ends with the
      server's entry `e`, unless a further message is still to be sent, which will then take effect. */
  ghost predicate Settles(now: int, e: Entry, id: EntryId, t: Track, ms: seq<Msg>, vs: seq<Value>) {
    var f := Follow(id, t, ms);
    && AllEffective(id, t, ms)
    && f.last <= now && f.val == Held(vs)
    && (!e.dirty ==> LastTold(e, vs))
    && (e.dirty && e.HasValue() ==> f.last <= e.lastUpdate || Put(f.val, e.value) == f.val)
  }

  /** The id index of the server covers exactly the assignments and points into the table. */
  ghost predicate Linked(net: Net) {
    && net.store.ids.Keys == net.assignments.Keys
    && forall i | i in net.store.ids :: net.store.ids[i] < |net.store.entries|
  }

  ghost predicate ValuesOk(net: Net, p: Peer)
    requires Linked(net)
  {
    forall i | i in p.published && i in net.store.ids ::
      Settles(net.now, net.store.entries[net.store.ids[i]], i, TrackOf(p.store, i), Pipe(p), Since(i, p.told))
  }

  ghost predicate FinishedOnTheWay(ms: seq<Msg>) {
    exists m :: m in ms && m.Finished?
  }

  /** The part of a peer's state that does not depend on the server's entries. */
  ghost predicate PeerShape(assignments: map<EntryId, Path>, p: Peer) {
    && ClientOk(assignments, p.store)
    && PipeOk(assignments, p.store.ids.Keys, Pipe(p))
    && p.published == p.store.ids.Keys + Introduced(Pipe(p))
    && p.published <= assignments.Keys
    && (p.phase == InUse || FinishedOnTheWay(Pipe(p)) ==> p.inUse)
    && (forall i: EntryId | i !in p.published :: Since(i, p.told) == [])
  }

  ghost predicate PeerOk(net: Net, p: Peer)
    requires Linked(net)
  {
    && PeerShape(net.assignments, p)
    && (p.inUse ==> p.published == net.assignments.Keys)
    && ValuesOk(net, p)
  }

  /** The server is in order, and so is every connection on which no byte has been lost. */
  ghost predicate NetOk(net: Net) {
    && ServerOk(net.now, net.store, net.nextId, net.assignments)
    && forall c | c in net.peers && Intact(net.peers[c]) :: PeerOk(net, net.peers[c])
  }

  // ---------------------------------------------------------------- counting

  function Below(n: nat): (b: set<nat>)
    ensures |b| == n
    ensures forall i: nat :: i in b <==> i < n
  {
    if n == 0 then {} else Below(n - 1) + {n - 1}
  }

  function Elements(s: seq<nat>): (e: set<nat>)
    requires forall i, j | 0 <= i < j < |s| :: s[i] != s[j]
    ensures |e| == |s|
    ensures forall x :: x in e <==> x in s
  {
    if s == [] then {}
    else
      var init, x := s[..|s| - 1], s[|s| - 1];
      assert s == init + [x];
      Elements(init) + {x}
  }

  /** Different numbers below `n`, none of them `x`: there are fewer than `n`. */
  lemma Pigeonhole(s: seq<nat>, n: nat, x: nat)
    requires forall i, j | 0 <= i < j < |s| :: s[i] != s[j]
    requires forall i | 0 <= i < |s| :: s[i] < n && s[i] != x
    requires x < n
    ensures |s| < n
  {
    SubsetSize(Elements(s), Below(n) - {x});
  }

  lemma {:induction false} SubsetSize(a: set<nat>, b: set<nat>)
    requires a <= b
    ensures |a| <= |b|
  {
    if a != {} {
      var x :| x in a;
      SubsetSize(a - {x}, b - {x});
    }
  }

  // ---------------------------------------------------------------- a client takes a message

  lemma AssignmentsInjective(store: State, nextId: EntryId, assignments: map<EntryId, Path>, i: EntryId, j: EntryId)
    requires IdsOk(store, nextId, assignments) && i in assignments && j in assignments && Indexed(store)
    requires assignments[i] == assignments[j]
    ensures i == j
  {
    assert store.paths[assignments[i]] == store.ids[i] && store.paths[assignments[j]] == store.ids[j];
  }

  ghost predicate Injective(assignments: map<EntryId, Path>) {
    forall i, j | i in assignments && j in assignments && assignments[i] == assignments[j] :: i == j
  }

  lemma ServerGivesInjective(net: Net)
    requires ServerOk(net.now, net.store, net.nextId, net.assignments)
    ensures Injective(net.assignments)
    ensures net.nextId <= CAPACITY
  {
    forall i, j | i in net.assignments && j in net.assignments && net.assignments[i] == net.assignments[j]
      ensures i == j
    {
      AssignmentsInjective(net.store, net.nextId, net.assignments, i, j);
    }
  }

  /** A client that does not know an assigned id yet has room for it. */
  lemma RoomForAssigned(assignments: map<EntryId, Path>, st: State, id: EntryId, nextId: nat)
    requires ClientOk(assignments, st) && id in assignments && id !in st.ids
    requires forall i | i in assignments :: i < nextId
    requires nextId <= CAPACITY
    ensures |st.entries| < CAPACITY
  {
    var ids: seq<nat> := seq(|st.entries|, h requires 0 <= h < |st.entries| => st.entries[h].netId);
    forall h | 0 <= h < |st.entries| ensures ids[h] in st.ids && st.ids[ids[h]] == h {
    }
    Pigeonhole(ids, nextId, id);
  }

  lemma PathUnknown(assignments: map<EntryId, Path>, st: State, id: EntryId)
    requires ClientOk(assignments, st) && Injective(assignments) && id in assignments && id !in st.ids
    ensures assignments[id] !in st.paths
  {
    forall h | 0 <= h < |st.entries| ensures st.entries[h].path != assignments[id] {
      assert st.ids[st.entries[h].netId] == h;
    }
  }

  /** The messages move an entry as `Advance` says, or leave an earlier time. */
  ghost predicate Moves(st: State, st': State, m: Msg) {
    forall i: EntryId ::
      TrackOf(st', i).val == Advance(i, TrackOf(st, i), m).val
      && TrackOf(st', i).last <= Advance(i, TrackOf(st, i), m).last
  }

  lemma NewEntry(st: State, id: EntryId, path: Path)
    requires Inv(st) && path !in st.paths && id !in st.ids && |st.entries| < CAPACITY
    ensures OnIdAssigned(st, id, path)
            == (st.(entries := st.entries + [Entry(path, Empty, id, true, false, false, 0)],
                    paths := st.paths[path := |st.entries|], ids := st.ids[id := |st.entries|]), Ok)
  {
    var n := |st.entries|;
    var e := Entry(path, Empty, ID_NOT_ASSIGNED, true, false, false, 0);
    assert (st.entries + [e])[n := e.(netId := id)] == st.entries + [e.(netId := id)];
  }

  lemma AssignArrives(assignments: map<EntryId, Path>, st: State, id: EntryId, nextId: nat)
    requires ClientOk(assignments, st) && Injective(assignments) && id in assignments && id !in st.ids
    requires forall i | i in assignments :: i < nextId
    requires nextId <= CAPACITY
    ensures
      var st' := OnIdAssigned(st, id, assignments[id]).0;
      && ClientOk(assignments, st') && st'.ids.Keys == st.ids.Keys + {id}
      && Moves(st, st', Assign(id, assignments[id]))
  {
    hide Replayable, OnIdAssigned;
    PathUnknown(assignments, st, id);
    RoomForAssigned(assignments, st, id, nextId);
    NewEntry(st, id, assignments[id]);
    OnIdAssignedKeeps(st, id, assignments[id]);
    OnIdAssignedIds(st, id, assignments[id]);
    NewEntryMoves(st, id, assignments[id]);
    hide Moves;
    NewEntryOk(assignments, st, id, OnIdAssigned(st, id, assignments[id]).0);
  }

  lemma IdsBounded(assignments: map<EntryId, Path>, st: State)
    requires ClientOk(assignments, st)
    ensures forall i | i in st.ids :: st.ids[i] < |st.entries|
  {
  }

  lemma NewEntryOk(assignments: map<EntryId, Path>, st: State, id: EntryId, st': State)
    requires ClientOk(assignments, st) && Inv(st') && IdsAgree(st') && id in assignments && id != ID_NOT_ASSIGNED
    requires st'.entries == st.entries + [Entry(assignments[id], Empty, id, true, false, false, 0)]
    requires st'.ids == st.ids[id := |st.entries|]
    ensures ClientOk(assignments, st') && st'.ids.Keys == st.ids.Keys + {id}
  {
    hide Inv, IdsAgree;
    IdsBounded(assignments, st);
  }

  lemma NewEntryMoves(st: State, id: EntryId, path: Path)
    requires id !in st.ids && forall i | i in st.ids :: st.ids[i] < |st.entries|
    ensures Moves(st, st.(entries := st.entries + [Entry(path, Empty, id, true, false, false, 0)],
                          paths := st.paths[path := |st.entries|], ids := st.ids[id := |st.entries|]),
                  Assign(id, path))
  {
  }

  lemma KnownIdsDiffer(assignments: map<EntryId, Path>, st: State, i: EntryId, j: EntryId)
    requires ClientOk(assignments, st) && Injective(assignments) && i in st.ids && j in st.ids && i != j
    ensures st.ids[i] != st.ids[j]
  {
  }

  /** An update that arrives makes of the entry what `Put` says: it is taken, or refused and nothing happens. */
  lemma UpdTracked(st: State, time: int, id: EntryId, v: Value)
    requires Inv(st) && id in st.ids && time > 0 && Effective(id, TrackOf(st, id), Upd(time, id, v))
    ensures
      var t, t' := TrackOf(st, id), TrackOf(OnUpdated(st, id, ReadBack(v), time, 0).0, id);
      t'.val == Put(t.val, v) && t'.last <= Advance(id, t, Upd(time, id, v)).last
  {
    hide Replayable, ReadBack, Value.TypeCode;
    assert Sound(st.entries[st.ids[id]]);
    OnlyEmpty(st.entries[st.ids[id]].value);
  }

  lemma OnlyEmpty(v: Value)
    ensures v.TypeCode() == Empty.TypeCode() <==> v == Empty
  {
  }

  lemma DelTracked(st: State, time: int, id: EntryId)
    requires Inv(st) && id in st.ids && time > 0 && Effective(id, TrackOf(st, id), Del(time, id))
    ensures
      var t, t' := TrackOf(st, id), TrackOf(OnDeleted(st, id, time, 0).0, id);
      t'.val == None && t'.last <= Advance(id, t, Del(time, id)).last
  {
    hide Replayable;
    assert Sound(st.entries[st.ids[id]]);
  }

  /** One entry of a client changes, but neither its place nor its id. */
  lemma OneClientEntry(assignments: map<EntryId, Path>, st: State, h: Handle, st': State)
    requires ClientOk(assignments, st) && h < |st.entries| == |st'.entries|
    requires Inv(st') && IdsAgree(st') && st'.ids == st.ids
    requires forall k | 0 <= k < |st.entries| && k != h :: st'.entries[k] == st.entries[k]
    requires st'.entries[h].path == st.entries[h].path && st'.entries[h].netId == st.entries[h].netId
    requires !st'.entries[h].dirty
    ensures ClientOk(assignments, st')
  {
    hide Inv, IdsAgree;
    IdsBounded(assignments, st);
  }

  lemma OwnId(assignments: map<EntryId, Path>, st: State, id: EntryId)
    requires ClientOk(assignments, st) && Injective(assignments) && id in st.ids
    ensures st.ids[id] < |st.entries| && st.entries[st.ids[id]].netId == id && !st.entries[st.ids[id]].dirty
  {
    hide Replayable;
    assert st.ids[st.entries[st.ids[id]].netId] == st.ids[id];
  }

  lemma UpdArrives(assignments: map<EntryId, Path>, st: State, time: int, id: EntryId, v: Value)
    requires ClientOk(assignments, st) && Injective(assignments) && id in st.ids
    requires MsgOk(assignments, Upd(time, id, v)) && Effective(id, TrackOf(st, id), Upd(time, id, v))
    requires forall i | i in assignments :: i != ID_NOT_ASSIGNED
    ensures
      var st' := OnUpdated(st, id, ReadBack(v), time, 0).0;
      && ClientOk(assignments, st') && st'.ids == st.ids
      && Moves(st, st', Upd(time, id, v))
  {
    var h, st' := st.ids[id], OnUpdated(st, id, ReadBack(v), time, 0).0;
    OwnId(assignments, st, id);
    SetAtKeeps(st, h, ReadBack(v), false, id, false, time, 0);
    SetAtIds(st, h, ReadBack(v), false, id, false, time, 0);
    UpdTracked(st, time, id, v);
    hide ClientOk, ReadBack, Value.TypeCode, TrackOf, Inv, IdsAgree, Injective, Put;
    OneClientEntry(assignments, st, h, st');
    OneEntryMoves(assignments, st, id, st', Upd(time, id, v));
  }

  /** A message about one id touches one entry. */
  lemma OneEntryMoves(assignments: map<EntryId, Path>, st: State, id: EntryId, st': State, m: Msg)
    requires ClientOk(assignments, st) && Injective(assignments) && id in st.ids
    requires (m.Upd? || m.Del?) && m.id == id
    requires st'.ids == st.ids && |st'.entries| == |st.entries|
    requires forall k | 0 <= k < |st.entries| && k != st.ids[id] :: st'.entries[k] == st.entries[k]
    requires TrackOf(st', id).val == Advance(id, TrackOf(st, id), m).val
    requires TrackOf(st', id).last <= Advance(id, TrackOf(st, id), m).last
    ensures Moves(st, st', m)
  {
    forall i: EntryId
      ensures TrackOf(st', i).val == Advance(i, TrackOf(st, i), m).val
      ensures TrackOf(st', i).last <= Advance(i, TrackOf(st, i), m).last
    {
      if i in st.ids && i != id {
        KnownIdsDiffer(assignments, st, i, id);
      }
    }
  }

  lemma DelArrives(assignments: map<EntryId, Path>, st: State, time: int, id: EntryId)
    requires ClientOk(assignments, st) && Injective(assignments) && id in st.ids
    requires MsgOk(assignments, Del(time, id)) && Effective(id, TrackOf(st, id), Del(time, id))
    ensures
      var st' := OnDeleted(st, id, time, 0).0;
      && ClientOk(assignments, st') && st'.ids == st.ids
      && Moves(st, st', Del(time, id))
  {
    var h, st' := st.ids[id], OnDeleted(st, id, time, 0).0;
    OwnId(assignments, st, id);
    DeleteAtKeeps(st, h, false, time, 0);
    DeleteAtIds(st, h, false, time, 0);
    DelTracked(st, time, id);
    hide ClientOk, TrackOf, Inv, IdsAgree, Injective;
    OneClientEntry(assignments, st, h, st');
    OneEntryMoves(assignments, st, id, st', Del(time, id));
  }

  lemma ResyncIds(st: State, offset: int)
    requires IdsAgree(st)
    ensures IdsAgree(Resync(st, offset))
  {
  }

  lemma ResyncMoves(st: State, offset: int)
    requires HarmlessResync(st, offset) && forall i | i in st.ids :: st.ids[i] < |st.entries|
    ensures Moves(st, Resync(st, offset), TimeReply)
  {
  }

  lemma ResyncArrives(assignments: map<EntryId, Path>, st: State, offset: int)
    requires ClientOk(assignments, st) && HarmlessResync(st, offset)
    ensures
      var st' := Resync(st, offset);
      && ClientOk(assignments, st') && st'.ids == st.ids
      && Moves(st, st', TimeReply)
  {
    hide Replayable;
    ResyncKeeps(st, offset);
    IdsBounded(assignments, st);
    ResyncIds(st, offset);
    hide Inv, IdsAgree, Moves;
    ResyncMoves(st, offset);
  }

  // ---------------------------------------------------------------- arrivals

  lemma SettlesHead(now: int, e: Entry, id: EntryId, t: Track, m: Msg, rest: seq<Msg>, t': Track, vs: seq<Value>)
    requires Settles(now, e, id, t, Relevant([m]) + rest, vs)
    requires t'.val == Advance(id, t, m).val && t'.last <= Advance(id, t, m).last
    ensures Settles(now, e, id, t', rest, vs)
  {
    RelevantOne(m);
    if m == TimeReply {
      assert [] + rest == rest;
    } else {
      FollowHead(id, t, m, rest);
    }
    FollowEarlier(id, Advance(id, t, m), t', rest);
  }

  /** A message that has arrived leaves the peer in order, if it moved the client's entries as it should. */
  lemma AfterArrival(net: Net, p: Peer, p': Peer, m: Msg)
    requires Linked(net) && PeerOk(net, p)
    requires Pipe(p) == Relevant([m]) + Pipe(p')
    requires p'.published == p.published && p'.inUse == p.inUse && p'.told == p.told
    requires p'.phase == InUse ==> p.phase == InUse || m.Finished?
    requires ClientOk(net.assignments, p'.store) && Moves(p.store, p'.store, m)
    requires p'.store.ids.Keys == p.store.ids.Keys + Introduced(Relevant([m]))
    ensures PeerOk(net, p')
  {
    hide ClientOk, Settles, Orderly, TrackOf, Relevant, Introduced;
    var rest := Pipe(p');
    RelevantOne(m);
    assert forall x | x in rest :: x in Pipe(p);
    IntroducedConcat(Relevant([m]), rest);
    if m == TimeReply {
      assert [] + rest == rest;
      NothingIntroduced();
      assert p.store.ids.Keys + {} == p.store.ids.Keys;
    } else {
      OrderlyHead(p.store.ids.Keys, m, rest);
      assert m in Pipe(p);
    }
    assert PeerShape(net.assignments, p');
    forall i | i in p'.published && i in net.store.ids
      ensures Settles(net.now, net.store.entries[net.store.ids[i]], i, TrackOf(p'.store, i), rest, Since(i, p.told))
    {
      SettlesHead(net.now, net.store.entries[net.store.ids[i]], i, TrackOf(p.store, i), m, rest, TrackOf(p'.store, i),
                  Since(i, p.told));
    }
  }

  lemma NothingIntroduced()
    ensures Introduced([]) == {}
  {
  }

  lemma ServerLinked(net: Net)
    requires ServerOk(net.now, net.store, net.nextId, net.assignments)
    ensures Linked(net)
  {
  }

  lemma HeadOfPipe(p: Peer)
    requires p.down != []
    ensures Pipe(p) == Relevant([p.down[0]]) + Pipe(p.(down := p.down[1..]))
  {
    var m, rest := p.down[0], p.down[1..] + p.queue;
    assert p.down + p.queue == [m] + rest;
    RelevantConcat([m], rest);
  }

  lemma ArriveKeeps(net: Net, p: Peer, resync: Option<int>)
    requires ServerOk(net.now, net.store, net.nextId, net.assignments) && PeerOk(net, p)
    requires Complete(p) && (resync.Some? ==> HarmlessResync(p.store, resync.value))
    ensures PeerOk(net, Handled(p, resync))
  {
    hide ServerOk, ClientOk, ValuesOk, OnIdAssigned, OnUpdated, OnDeleted, Resync, Pipe, Relevant, Introduced, Orderly;
    ServerLinked(net);
    var m := p.down[0];
    var p' := Handled(p, resync);
    HeadOfPipe(p);
    SamePipe(p.(down := p.down[1..]), p');
    RelevantOne(m);
    IntroducedOne(m);
    NothingIntroduced();
    assert m != TimeReply ==> m in Pipe(p);
    if m != TimeReply {
      OrderlyHead(p.store.ids.Keys, m, Pipe(p'));
    }
    ArrivalMoves(net, p, m, resync);
    AfterArrival(net, p, p', m);
  }

  lemma ArrivalMoves(net: Net, p: Peer, m: Msg, resync: Option<int>)
    requires ServerOk(net.now, net.store, net.nextId, net.assignments) && PeerOk(net, p)
    requires m != TimeReply ==> MsgOk(net.assignments, m) && InOrder(p.store.ids.Keys, m)
    requires m != TimeReply ==> exists rest :: Pipe(p) == [m] + rest
    requires resync.Some? ==> HarmlessResync(p.store, resync.value)
    ensures
      var p' := Receive(p, m, resync);
      && ClientOk(net.assignments, p'.store) && Moves(p.store, p'.store, m)
      && p'.store.ids.Keys == p.store.ids.Keys + (if m.Assign? then {m.id} else {})
  {
    hide ClientOk, Moves, OnIdAssigned, OnUpdated, OnDeleted, Resync, Inv, Orderly, InOrder, ValuesOk, Linked;
    ServerGivesInjective(net);
    assert p.store.ids.Keys + {} == p.store.ids.Keys;
    match m
    case Assign(id, path) =>
      InOrderAssign(p.store.ids.Keys, m);
      AssignArrives(net.assignments, p.store, id, net.nextId);
    case Upd(time, id, v) =>
      EffectiveNow(net, p, m);
      UpdArrives(net.assignments, p.store, time, id, v);
    case Del(time, id) =>
      EffectiveNow(net, p, m);
      DelArrives(net.assignments, p.store, time, id);
    case Finished(_) => MovesNothing(p.store, m);
    case TimeReply =>
      MovesNothing(p.store, m);
      if resync.Some? {
        ResyncArrives(net.assignments, p.store, resync.value);
      }
  }

  lemma InOrderAssign(known: set<EntryId>, m: Msg)
    requires InOrder(known, m) && m.Assign?
    ensures m.id !in known
  {
  }

  lemma MovesNothing(st: State, m: Msg)
    requires m.Finished? || m.TimeReply?
    ensures Moves(st, st, m)
  {
  }

  /** The first message on its way is one the entry will accept. */
  lemma EffectiveNow(net: Net, p: Peer, m: Msg)
    requires Linked(net)
    requires ValuesOk(net, p) && p.published <= net.assignments.Keys && p.store.ids.Keys <= p.published
    requires (m.Upd? || m.Del?) && InOrder(p.store.ids.Keys, m) && exists rest :: Pipe(p) == [m] + rest
    ensures m.id in p.store.ids && Effective(m.id, TrackOf(p.store, m.id), m)
  {
    var rest :| Pipe(p) == [m] + rest;
    assert m.id in p.published && m.id in net.store.ids;
    assert Settles(net.now, net.store.entries[net.store.ids[m.id]], m.id, TrackOf(p.store, m.id), Pipe(p),
                   Since(m.id, p.told));
    FollowHead(m.id, TrackOf(p.store, m.id), m, rest);
  }

  /** Only what is on its way counts, not how far it has come. */
  lemma SameWay(net: Net, p: Peer, p': Peer)
    requires Linked(net) && PeerOk(net, p)
    requires Pipe(p') == Pipe(p) && p' == p.(queue := p'.queue, down := p'.down, up := p'.up, link := p'.link)
    ensures PeerOk(net, p')
  {
    hide Settles, Orderly, ClientOk, Relevant, Pipe, Introduced, TrackOf;
  }

  /** Handing over moves a part of the line to what is on its way, and nothing else. */
  lemma {:induction false} FlushMoves(p: Peer) returns (k: nat)
    ensures k <= |p.queue| && Flush(p) == HandOver(p, k).(link := Flush(p).link)
    ensures Flush(p).link.start == p.link.start && Flush(p).link.got == p.link.got && Flush(p).link.at == p.link.at
    ensures Intact(Flush(p)) ==> Intact(p)
    decreases |p.queue|
  {
    hide Sendable, BodySize, HeldAfter;
    k := 0;
    assert p.down + p.queue[..0] == p.down;
    if p.queue != [] && Sendable(p.queue[0]) {
      var verdict := Judge(p.link.start, p.link.held, BodySize(p.queue[0]));
      if verdict in {Taken, Filled} {
        hide Judge;
        var next := HandOver(p, 1).(link := AfterWrite(p.link, BodySize(p.queue[0])));
        var n := FlushMoves(next);
        k := n + 1;
        assert p.down + p.queue[..1] + p.queue[1..][..n] == p.down + p.queue[..k];
        assert p.queue[1..][n..] == p.queue[k..];
      }
    }
  }

  /** So it changes nothing on the whole way. */
  lemma FlushKeeps(net: Net, p: Peer)
    requires Linked(net) && PeerOk(net, p)
    ensures PeerOk(net, Flush(p))
  {
    hide PeerOk, Linked, Relevant, Flush;
    var k := FlushMoves(p);
    assert p.down + p.queue[..k] + p.queue[k..] == p.down + p.queue;
    SameWay(net, p, Flush(p));
  }

  lemma TimeReplyIrrelevant(a: seq<Msg>, b: seq<Msg>)
    ensures Relevant(a + [TimeReply] + b) == Relevant(a + b)
  {
    RelevantOne(TimeReply);
    RelevantConcat(a, [TimeReply]);
    RelevantConcat(a + [TimeReply], b);
    RelevantConcat(a, b);
    assert Relevant(a) + [] == Relevant(a);
  }

  /** A time reply may overtake what waits. */
  lemma PostKeeps(net: Net, p: Peer)
    requires Linked(net) && PeerOk(net, p)
    ensures PeerOk(net, Post(p))
  {
    hide PeerOk, Linked, Relevant;
    TimeReplyIrrelevant(p.down, p.queue);
    assert p.down + ([TimeReply] + p.queue) == p.down + [TimeReply] + p.queue;
    SameWay(net, p, Post(p));
  }

  // ---------------------------------------------------------------- local calls on the server

  /** What local calls do to the entries: nothing, or a change that is marked dirty and stamped with the present. */
  ghost predicate Touches(now: int, st: State, st': State) {
    && st'.ids == st.ids && |st.entries| <= |st'.entries|
    && forall h | 0 <= h < |st.entries| ::
         st'.entries[h] == st.entries[h]
         || (st'.entries[h].dirty && (st'.entries[h].HasValue() ==> st'.entries[h].lastUpdate == now))
  }

  lemma TouchedSettles(now: int, e: Entry, e': Entry, id: EntryId, t: Track, ms: seq<Msg>, vs: seq<Value>)
    requires Settles(now, e, id, t, ms, vs)
    requires e' == e || (e'.dirty && (e'.HasValue() ==> e'.lastUpdate == now))
    ensures Settles(now, e', id, t, ms, vs)
  {
  }

  lemma TouchKeepsPeer(net: Net, st': State, p: Peer)
    requires Linked(net)
    requires PeerOk(net, p) && Touches(net.now, net.store, st')
    ensures PeerOk(net.(store := st'), p)
  {
    hide Settles, PeerShape;
    forall i | i in p.published && i in st'.ids
      ensures Settles(net.now, st'.entries[st'.ids[i]], i, TrackOf(p.store, i), Pipe(p), Since(i, p.told))
    {
      var h := net.store.ids[i];
      TouchedSettles(net.now, net.store.entries[h], st'.entries[h], i, TrackOf(p.store, i), Pipe(p), Since(i, p.told));
    }
  }

  /** Time passes. */
  lemma TickKeepsPeer(net: Net, now: int, p: Peer)
    requires Linked(net) && net.now <= now
    requires PeerOk(net, p)
    ensures PeerOk(net.(now := now), p)
  {
    hide PeerShape, Follow, AllEffective;
    forall i | i in p.published && i in net.store.ids
      ensures Settles(now, net.store.entries[net.store.ids[i]], i, TrackOf(p.store, i), Pipe(p), Since(i, p.told))
    {
      assert Settles(net.now, net.store.entries[net.store.ids[i]], i, TrackOf(p.store, i), Pipe(p), Since(i, p.told));
    }
  }

  lemma CreateOnServer(net: Net, path: Path)
    requires ServerOk(net.now, net.store, net.nextId, net.assignments)
    ensures
      var st' := Apply(net.store, GetOrCreate(path));
      ServerOk(net.now, st', net.nextId, net.assignments) && Touches(net.now, net.store, st')
  {
    ApplyKeeps(net.store, GetOrCreate(path));
    LocateIds(net.store, path);
    LocatedOrNew(net.store, path);
    hide Inv, IdsAgree, Apply;
    if Apply(net.store, GetOrCreate(path)) != net.store {
      NewServerEntry(net, Apply(net.store, GetOrCreate(path)), path);
    }
  }

  lemma LocatedOrNew(st: State, path: Path)
    ensures
      var st' := Apply(st, GetOrCreate(path));
      && st' == Locate(st, path).0
      && (st' == st || st' == CreateNew(st, path))
  {
  }

  lemma NewServerEntry(net: Net, st': State, path: Path)
    requires ServerOk(net.now, net.store, net.nextId, net.assignments)
    requires st' == CreateNew(net.store, path) && Inv(st') && IdsAgree(st')
    ensures ServerOk(net.now, st', net.nextId, net.assignments) && Touches(net.now, net.store, st')
  {
    hide Inv, IdsAgree;
  }

  /** One entry of the server changes; its place in the indexes does not. */
  lemma OneServerEntry(now: int, st: State, nextId: EntryId, assignments: map<EntryId, Path>,
                       h: Handle, st': State)
    requires ServerOk(now, st, nextId, assignments) && h < |st.entries| == |st'.entries|
    requires Inv(st') && IdsAgree(st') && st'.ids == st.ids
    requires forall k | 0 <= k < |st.entries| && k != h :: st'.entries[k] == st.entries[k]
    requires st'.entries[h].path == st.entries[h].path && st'.entries[h].netId == st.entries[h].netId
    requires ServerEntryOk(now, st'.entries[h])
    ensures ServerOk(now, st', nextId, assignments)
  {
    hide Inv, IdsAgree;
  }

  lemma SetServerEntry(now: int, h: Handle, e: Entry, v: Value, clear: bool)
    requires now > 0 && Sound(e) && ServerEntryOk(now, e)
    ensures
      var e' := SetEntry(h, e, v, clear, ID_NOT_ASSIGNED, true, 0, now).entry;
      && e'.path == e.path && e'.netId == e.netId && ServerEntryOk(now, e')
      && (e' == e || (e'.dirty && (e'.HasValue() ==> e'.lastUpdate == now)))
  {
    hide Value.TypeCode;
    OnlyEmpty(e.value);
  }

  lemma UpdateTouches(now: int, st: State, h: Handle, o: Store.Outcome)
    requires h < |st.entries|
    requires o.entry == st.entries[h] || (o.entry.dirty && (o.entry.HasValue() ==> o.entry.lastUpdate == now))
    ensures Touches(now, st, Update(st, h, o))
  {
  }

  /** A set or clear by a local call. When it throws, nothing changes. */
  lemma SetOnServer(net: Net, h: Handle, v: Value, clear: bool)
    requires ServerOk(net.now, net.store, net.nextId, net.assignments) && (clear ==> v == Empty)
    ensures
      var st' := SetAt(net.store, h, v, clear, ID_NOT_ASSIGNED, true, 0, net.now).0;
      ServerOk(net.now, st', net.nextId, net.assignments) && Touches(net.now, net.store, st')
  {
    SetAtKeeps(net.store, h, v, clear, ID_NOT_ASSIGNED, true, 0, net.now);
    SetAtIds(net.store, h, v, clear, ID_NOT_ASSIGNED, true, 0, net.now);
    if h < |net.store.entries| {
      SetServerEntry(net.now, h, net.store.entries[h], v, clear);
      var o := SetEntry(h, net.store.entries[h], v, clear, ID_NOT_ASSIGNED, true, 0, net.now);
      UpdateTouches(net.now, net.store, h, o);
      hide Inv, IdsAgree, IdsOk, SetEntry, ServerEntryOk, Touches;
      OneServerEntry(net.now, net.store, net.nextId, net.assignments, h, Update(net.store, h, o));
    }
  }

  lemma DeleteOnServer(net: Net, h: Handle)
    requires ServerOk(net.now, net.store, net.nextId, net.assignments)
    ensures
      var st' := DeleteAt(net.store, h, true, 0, net.now).0;
      ServerOk(net.now, st', net.nextId, net.assignments) && Touches(net.now, net.store, st')
  {
    hide Inv, IdsAgree, IdsOk;
    DeleteAtKeeps(net.store, h, true, 0, net.now);
    DeleteAtIds(net.store, h, true, 0, net.now);
    if h < |net.store.entries| {
      OneServerEntry(net.now, net.store, net.nextId, net.assignments, h,
                     DeleteAt(net.store, h, true, 0, net.now).0);
    }
  }

  lemma {:induction false} DeleteFromOnServer(net: Net, h: Handle, path: Path)
    requires ServerOk(net.now, net.store, net.nextId, net.assignments)
    ensures
      var st' := DeleteFrom(net.store, h, path, net.now);
      ServerOk(net.now, st', net.nextId, net.assignments) && Touches(net.now, net.store, st')
    decreases |net.store.entries| - h
  {
    hide ServerOk, DeleteAt;
    if h < |net.store.entries| {
      DeleteOnServer(net, h);
      var st1 := if Contains(net.store.entries[h].path, path) then DeleteAt(net.store, h, true, 0, net.now).0
                 else net.store;
      DeleteAtSize(net.store, h, net.now);
      DeleteFromOnServer(net.(store := st1), h + 1, path);
    }
  }

  lemma DeleteAtSize(st: State, h: Handle, now: int)
    ensures |DeleteAt(st, h, true, 0, now).0.entries| == |st.entries|
  {
  }

  // ---------------------------------------------------------------- new messages for a client

  lemma PipeEnqueue(p: Peer, m: Msg)
    requires m != TimeReply
    ensures Pipe(Enqueue(p, m)) == Pipe(p) + [m]
  {
    assert p.down + (p.queue + [m]) == p.down + p.queue + [m];
    RelevantConcat(p.down + p.queue, [m]);
    RelevantOne(m);
  }

  /** Enqueuing a message that fits keeps the shape; what it means for the values is said separately. */
  lemma EnqueueKeepsShape(assignments: map<EntryId, Path>, p: Peer, m: Msg)
    requires PeerShape(assignments, p) && m != TimeReply
    requires MsgOk(assignments, m) && InOrder(p.published, m)
    requires m.Finished? ==> p.inUse
    ensures
      var p' := Enqueue(p, m);
      PeerShape(assignments, if m.Assign? then p'.(published := p.published + {m.id}) else p')
  {
    hide ClientOk, Orderly, InOrder, Relevant, MsgOk, Since;
    PipeEnqueue(p, m);
    IntroducedConcat(Pipe(p), [m]);
    IntroducedOne(m);
    OrderlyAppend(p.store.ids.Keys, Pipe(p), m);
    AssignmentOf(assignments, m);
    StillNothingTold(p, m);
    var p' := Enqueue(p, m);
    assert FinishedOnTheWay(Pipe(p')) ==> FinishedOnTheWay(Pipe(p)) || m.Finished?;
  }

  lemma StillNothingTold(p: Peer, m: Msg)
    requires InOrder(p.published, m) && forall i: EntryId | i !in p.published :: Since(i, p.told) == []
    ensures forall i: EntryId | i !in p.published :: Since(i, p.told + [m]) == []
  {
    forall i: EntryId | i !in p.published ensures Since(i, p.told + [m]) == [] {
      SinceAppend(i, p.told, m);
    }
  }

  lemma AssignmentOf(assignments: map<EntryId, Path>, m: Msg)
    requires MsgOk(assignments, m)
    ensures m.Assign? ==> m.id in assignments
  {
  }

  /** A larger set of assignments changes nothing for a peer. */
  lemma MoreAssignments(a: map<EntryId, Path>, a': map<EntryId, Path>, p: Peer)
    requires PeerShape(a, p)
    requires forall i | i in a :: i in a' && a'[i] == a[i]
    ensures PeerShape(a', p)
  {
    hide Orderly, Relevant, Introduced;
    forall m | m in Pipe(p) ensures MsgOk(a', m) {
      assert MsgOk(a, m);
    }
  }

  /** A message about one id leaves the others as they are. */
  lemma SettlesOther(now: int, e: Entry, i: EntryId, t: Track, ms: seq<Msg>, vs: seq<Value>, m: Msg)
    requires Settles(now, e, i, t, ms, vs)
    requires m.Assign? || m.Finished? || ((m.Upd? || m.Del?) && m.id != i)
    ensures Settles(now, e, i, t, ms + [m], vs) && Heard(i, vs, m) == vs
  {
    FollowAppend(i, t, ms, m);
  }

  /** The track of a published id before the message; that of an unpublished one is empty. */
  lemma Unpublished(net: Net, p: Peer, i: EntryId)
    requires PeerShape(net.assignments, p) && i !in p.published
    ensures
      var t := TrackOf(p.store, i);
      AllEffective(i, t, Pipe(p)) && Follow(i, t, Pipe(p)) == t == Track(None, 0) && Since(i, p.told) == []
  {
    FollowUnknown(i, TrackOf(p.store, i), p.store.ids.Keys, Pipe(p));
  }

  // ---------------------------------------------------------------- process_updates

  /** Telling a client about a dirty entry settles it. */
  lemma DirtySettles(now: int, e: Entry, i: EntryId, t: Track, ms: seq<Msg>, vs: seq<Value>, m: Msg)
    requires AllEffective(i, t, ms) && Follow(i, t, ms).last <= now && Follow(i, t, ms).val == Held(vs)
    requires e.HasValue() ==> Follow(i, t, ms).last <= e.lastUpdate || Put(Held(vs), e.value) == Held(vs)
    requires e.lastUpdate <= now
    requires m == if e.deleted then Del(now, i) else Upd(e.lastUpdate, i, e.value)
    requires !e.created
    ensures Settles(now, e.(dirty := false, netId := i), i, t, ms + [m], Heard(i, vs, m))
  {
    FollowAppend(i, t, ms, m);
    HeldFollows(i, Follow(i, t, ms), vs, m);
  }

  /** The message for a dirty entry, and what it needs to know about a peer. */
  lemma TellKeepsShape(assignments: map<EntryId, Path>, p: Peer, id: EntryId, m: Msg)
    requires PeerShape(assignments, p) && id in assignments
    requires (m.Upd? || m.Del?) && m.id == id && MsgOk(assignments, m)
    ensures
      var p' := Tell(p, id, assignments[id], m);
      && PeerShape(assignments, p') && p'.published == p.published + {id}
      && p'.store == p.store && p'.inUse == p.inUse
      && Pipe(p') == Pipe(p) + (if id in p.published then [] else [Assign(id, assignments[id])]) + [m]
      && forall i :: Since(i, p'.told) == Heard(i, Since(i, p.told), m)
  {
    hide PeerShape, Pipe, Since;
    TellSince(p, id, assignments[id], m);
    var path := assignments[id];
    if id in p.published {
      EnqueueKeepsShape(assignments, p, m);
      PipeEnqueue(p, m);
      assert p.published + {id} == p.published;
      assert Pipe(p) + [] + [m] == Pipe(p) + [m];
    } else {
      EnqueueKeepsShape(assignments, p, Assign(id, path));
      PipeEnqueue(p, Assign(id, path));
      var p1 := Publish(p, id, path);
      SamePipe(Enqueue(p, Assign(id, path)), p1);
      EnqueueKeepsShape(assignments, p1, m);
      PipeEnqueue(p1, m);
    }
  }

  lemma TellSince(p: Peer, id: EntryId, path: Path, m: Msg)
    ensures forall i :: Since(i, Tell(p, id, path, m).told) == Heard(i, Since(i, p.told), m)
  {
    forall i ensures Since(i, Tell(p, id, path, m).told) == Heard(i, Since(i, p.told), m) {
      SinceAppend(i, p.told, Assign(id, path));
      SinceAppend(i, if id in p.published then p.told else p.told + [Assign(id, path)], m);
    }
  }

  lemma SamePipe(p: Peer, p': Peer)
    requires p'.down == p.down && p'.queue == p.queue
    ensures Pipe(p') == Pipe(p)
  {
  }

  lemma TellSettles(net: Net, p: Peer, id: EntryId, e: Entry, m: Msg)
    requires PeerShape(net.assignments, p) && id in net.assignments
    requires e.dirty && !e.created && 0 < e.lastUpdate <= net.now
    requires id in p.published ==> Settles(net.now, e, id, TrackOf(p.store, id), Pipe(p), Since(id, p.told))
    requires m == if e.deleted then Del(net.now, id) else Upd(e.lastUpdate, id, e.value)
    ensures Settles(net.now, e.(dirty := false, netId := id), id, TrackOf(p.store, id),
                    Pipe(p) + (if id in p.published then [] else [Assign(id, net.assignments[id])]) + [m],
                    Heard(id, Since(id, p.told), m))
  {
    hide PeerShape, Pipe, TrackOf, Since;
    var t := TrackOf(p.store, id);
    if id in p.published {
      assert Pipe(p) + [] + [m] == Pipe(p) + [m];
      DirtySettles(net.now, e, id, t, Pipe(p), Since(id, p.told), m);
    } else {
      var a := Assign(id, net.assignments[id]);
      Unpublished(net, p, id);
      FollowAppend(id, t, Pipe(p), a);
      DirtySettles(net.now, e, id, t, Pipe(p) + [a], [], m);
    }
  }

  lemma TellOthersSettle(now: int, e: Entry, i: EntryId, t: Track, ms: seq<Msg>, vs: seq<Value>,
                         known: bool, a: Msg, m: Msg)
    requires Settles(now, e, i, t, ms, vs)
    requires a.Assign? && (m.Upd? || m.Del?) && m.id != i
    ensures Settles(now, e, i, t, ms + (if known then [] else [a]) + [m], Heard(i, vs, m))
  {
    hide Settles;
    if known {
      assert ms + [] + [m] == ms + [m];
      SettlesOther(now, e, i, t, ms, vs, m);
    } else {
      SettlesOther(now, e, i, t, ms, vs, a);
      SettlesOther(now, e, i, t, ms + [a], vs, m);
    }
  }

  /** An entry that has no id yet leaves one to be assigned. */
  lemma RoomForId(net: Net, h: Handle)
    requires ServerOk(net.now, net.store, net.nextId, net.assignments)
    requires h < |net.store.entries| && net.store.entries[h].netId == ID_NOT_ASSIGNED
    ensures net.nextId < |net.store.entries|
  {
    var st := net.store;
    var handles: seq<nat> := seq(net.nextId, i requires 0 <= i < net.nextId => st.ids[i]);
    forall i, j | 0 <= i < j < net.nextId ensures handles[i] != handles[j] {
      assert st.entries[st.ids[i]].netId == i && st.entries[st.ids[j]].netId == j;
    }
    forall i | 0 <= i < net.nextId ensures handles[i] < |st.entries| && handles[i] != h {
      assert st.entries[st.ids[i]].netId == i;
    }
    Pigeonhole(handles, |st.entries|, h);
  }

  lemma AssignExisting(st: State, h: Handle, id: EntryId)
    requires Indexed(st) && h < |st.entries| && id !in st.ids
    ensures OnIdAssigned(st, id, st.entries[h].path)
            == (st.(entries := st.entries[h := st.entries[h].(netId := id)], ids := st.ids[id := h]), Ok)
  {
  }

  lemma InvIndexed(st: State)
    requires Inv(st)
    ensures Indexed(st)
  {
  }

  /** `st'` is `st` with entry `h` known under `id`. */
  ghost predicate Named(net: Net, net': Net, h: Handle, id: EntryId) {
    && h < |net.store.entries|
    && net' == net.(nextId := (net.nextId + 1) % U16, assignments := net.assignments[id := net.store.entries[h].path],
                    store := net.store.(entries := net.store.entries[h := net.store.entries[h].(netId := id)],
                                        ids := net.store.ids[id := h]))
  }

  lemma AssignedServer(net: Net, h: Handle)
    requires ServerOk(net.now, net.store, net.nextId, net.assignments)
    requires h < |net.store.entries| && net.store.entries[h].netId == ID_NOT_ASSIGNED
    ensures
      var net' := AssignId(net, net.store.entries[h].path);
      && net.nextId < CAPACITY && net.nextId !in net.assignments
      && Named(net, net', h, net.nextId)
      && ServerOk(net'.now, net'.store, net'.nextId, net'.assignments)
  {
    RoomForId(net, h);
    hide Replayable, OnIdAssigned, ServerEntryOk;
    var e, id := net.store.entries[h], net.nextId;
    var net' := AssignId(net, e.path);
    InvIndexed(net.store);
    AssignExisting(net.store, h, id);
    OnIdAssignedKeeps(net.store, id, e.path);
    OnIdAssignedIds(net.store, id, e.path);
    NamedIds(net, net', h, id);
    NamedServer(net, net', h, id);
  }

  lemma NamedServer(net: Net, net': Net, h: Handle, id: EntryId)
    requires ServerOk(net.now, net.store, net.nextId, net.assignments) && Named(net, net', h, id)
    requires id != ID_NOT_ASSIGNED && Inv(net'.store) && IdsAgree(net'.store)
    requires IdsOk(net'.store, net'.nextId, net'.assignments)
    ensures ServerOk(net'.now, net'.store, net'.nextId, net'.assignments)
  {
    hide Inv, IdsAgree, IdsOk;
  }

  lemma NamedIds(net: Net, net': Net, h: Handle, id: EntryId)
    requires IdsOk(net.store, net.nextId, net.assignments) && id == net.nextId < CAPACITY
    requires Named(net, net', h, id) && net.store.entries[h].netId == ID_NOT_ASSIGNED
    requires net.nextId < |net.store.entries|
    ensures IdsOk(net'.store, net'.nextId, net'.assignments)
  {
    assert net'.nextId == id + 1;
  }

  lemma CleanServer(net: Net, h: Handle)
    requires ServerOk(net.now, net.store, net.nextId, net.assignments)
    requires h < |net.store.entries| && net.store.entries[h].netId != ID_NOT_ASSIGNED
    ensures ServerOk(net.now, CleanAt(net.store, h), net.nextId, net.assignments)
  {
    CleanKeeps(net.store, h);
    hide Inv, IdsAgree, IdsOk;
    OneServerEntry(net.now, net.store, net.nextId, net.assignments, h, CleanAt(net.store, h));
  }

  lemma DirtyEntry(net: Net, h: Handle)
    requires ServerOk(net.now, net.store, net.nextId, net.assignments)
    requires h < |net.store.entries| && net.store.entries[h].dirty
    ensures
      var e := net.store.entries[h];
      && !e.created && 0 < e.lastUpdate <= net.now
      && (e.deleted ==> !e.HasValue()) && (!e.deleted ==> e.HasValue())
      && (e.netId != ID_NOT_ASSIGNED ==>
            && e.netId in net.assignments && net.assignments[e.netId] == e.path
            && e.netId in net.store.ids && net.store.ids[e.netId] == h)
  {
    hide Replayable;
    var e := net.store.entries[h];
    assert Sound(e) && ServerEntryOk(net.now, e);
  }

  lemma CleanKeeps(st: State, h: Handle)
    requires Inv(st) && IdsAgree(st) && h < |st.entries|
    ensures Inv(CleanAt(st, h)) && IdsAgree(CleanAt(st, h))
  {
    TouchKeeps(st, CleanAt(st, h));
  }

  /** What telling a peer about entry `h` makes of the values on their way to it. */
  lemma TellValues(net: Net, net': Net, h: Handle, id: EntryId, p: Peer, m: Msg)
    requires Linked(net) && Linked(net') && ValuesOk(net, p) && net'.now == net.now
    requires PeerShape(net'.assignments, p) && p.published <= net.assignments.Keys
    requires h < |net.store.entries| == |net'.store.entries|
    requires net.store.entries[h].dirty && !net.store.entries[h].created
    requires 0 < net.store.entries[h].lastUpdate <= net.now
    requires m == if net.store.entries[h].deleted then Del(net.now, id)
                  else Upd(net.store.entries[h].lastUpdate, id, net.store.entries[h].value)
    requires id in net'.assignments && net'.store.ids[id] == h && (id in net.store.ids ==> net.store.ids[id] == h)
    requires net'.store.entries == net.store.entries[h := net.store.entries[h].(dirty := false, netId := id)]
    requires forall i | i in net.store.ids && i != id ::
               net.store.ids[i] != h && i in net'.store.ids && net'.store.ids[i] == net.store.ids[i]
    ensures
      var pipe' := Pipe(p) + (if id in p.published then [] else [Assign(id, net'.assignments[id])]) + [m];
      forall i | i in p.published + {id} && i in net'.store.ids ::
        Settles(net.now, net'.store.entries[net'.store.ids[i]], i, TrackOf(p.store, i), pipe',
                Heard(i, Since(i, p.told), m))
  {
    hide PeerShape, Settles, Pipe, TrackOf;
    forall i | i in p.published + {id} && i in net'.store.ids
      ensures Settles(net.now, net'.store.entries[net'.store.ids[i]], i, TrackOf(p.store, i),
                      Pipe(p) + (if id in p.published then [] else [Assign(id, net'.assignments[id])]) + [m],
                      Heard(i, Since(i, p.told), m))
    {
      if i == id {
        TellSettles(net', p, id, net.store.entries[h], m);
      } else {
        assert i in p.published && i in net.store.ids;
        TellOthersSettle(net.now, net.store.entries[net.store.ids[i]], i, TrackOf(p.store, i), Pipe(p),
                         Since(i, p.told), id in p.published, Assign(id, net'.assignments[id]), m);
      }
    }
  }

  function IdFor(net: Net, h: Handle): EntryId
    requires h < |net.store.entries|
  {
    if net.store.entries[h].netId == ID_NOT_ASSIGNED then net.nextId else net.store.entries[h].netId
  }

  /** The server's part of `ProcessEntry`: the entry has an id, and is clean. */
  function Served(net: Net, h: Handle): Net
    requires h < |net.store.entries|
  {
    var e := net.store.entries[h];
    var net1 := if e.netId == ID_NOT_ASSIGNED then AssignId(net, e.path) else net;
    net1.(store := if h < |net1.store.entries| then CleanAt(net1.store, h) else net1.store)
  }

  lemma AssignIdKeepsPeers(net: Net, path: Path)
    ensures AssignId(net, path).peers == net.peers && AssignId(net, path).now == net.now
  {
  }

  /** `net'` is `net` with entry `h` clean and known as `id`. */
  ghost predicate Renamed(net: Net, net': Net, h: Handle, id: EntryId) {
    && h < |net.store.entries| && net'.now == net.now
    && net'.store.entries == net.store.entries[h := net.store.entries[h].(dirty := false, netId := id)]
    && net'.assignments == net.assignments[id := net.store.entries[h].path]
    && net'.store.ids == net.store.ids[id := h] && net'.store.paths == net.store.paths
  }

  lemma ServedIs(net: Net, h: Handle)
    requires ServerOk(net.now, net.store, net.nextId, net.assignments)
    requires h < |net.store.entries| && net.store.entries[h].dirty
    ensures Renamed(net, Served(net, h), h, IdFor(net, h))
  {
    hide ServerOk, AssignId;
    var e := net.store.entries[h];
    if e.netId == ID_NOT_ASSIGNED {
      AssignedServer(net, h);
    } else {
      DirtyEntry(net, h);
      assert net.assignments == net.assignments[e.netId := e.path];
      assert net.store.ids == net.store.ids[e.netId := h];
    }
  }

  lemma ServedOk(net: Net, h: Handle)
    requires ServerOk(net.now, net.store, net.nextId, net.assignments)
    requires h < |net.store.entries| && net.store.entries[h].dirty
    ensures
      var net' := Served(net, h);
      ServerOk(net'.now, net'.store, net'.nextId, net'.assignments)
  {
    hide ServerOk, AssignId;
    var e := net.store.entries[h];
    if e.netId == ID_NOT_ASSIGNED {
      AssignedServer(net, h);
      CleanServer(AssignId(net, e.path), h);
    } else {
      CleanServer(net, h);
    }
  }

  lemma TellKeepsPeer(net: Net, net': Net, h: Handle, id: EntryId, p: Peer, m: Msg)
    requires Linked(net) && PeerOk(net, p) && Renamed(net, net', h, id) && Linked(net')
    requires id in net.assignments ==> net.assignments[id] == net.store.entries[h].path && net.store.ids[id] == h
    requires forall i | i in net.store.ids && i != id :: net.store.ids[i] != h
    requires net.store.entries[h].dirty && !net.store.entries[h].created
    requires 0 < net.store.entries[h].lastUpdate <= net.now
    requires m == if net.store.entries[h].deleted then Del(net.now, id)
                  else Upd(net.store.entries[h].lastUpdate, id, net.store.entries[h].value)
    ensures PeerOk(net', Tell(p, id, net.store.entries[h].path, m))
  {
    hide PeerShape, Settles, Pipe, TrackOf, Tell;
    MoreAssignments(net.assignments, net'.assignments, p);
    TellKeepsShape(net'.assignments, p, id, m);
    ShapePublished(net.assignments, p);
    TellValues(net, net', h, id, p, m);
  }

  lemma ShapePublished(assignments: map<EntryId, Path>, p: Peer)
    requires PeerShape(assignments, p)
    ensures p.published <= assignments.Keys
  {
  }

  lemma OtherIdsElsewhere(net: Net, h: Handle)
    requires ServerOk(net.now, net.store, net.nextId, net.assignments)
    requires h < |net.store.entries|
    ensures forall i | i in net.store.ids && i != IdFor(net, h) :: net.store.ids[i] != h
    ensures
      var id := IdFor(net, h);
      id in net.assignments ==>
        id in net.store.ids && net.assignments[id] == net.store.entries[h].path && net.store.ids[id] == h
  {
  }

  lemma {:induction false} ProcessKeeps(net: Net, h: Handle)
    requires NetOk(net)
    ensures NetOk(ProcessFrom(net, h))
    decreases CAPACITY - h
  {
    if h < CAPACITY && h < |net.store.entries| {
      var net' := if net.store.entries[h].dirty then ProcessEntry(net, h) else net;
      if net.store.entries[h].dirty {
        ProcessEntryKeeps(net, h);
      }
      ProcessKeeps(net', h + 1);
    }
  }

  lemma ProcessEntryKeeps(net: Net, h: Handle)
    requires NetOk(net) && h < |net.store.entries| && net.store.entries[h].dirty
    ensures NetOk(ProcessEntry(net, h))
  {
    hide ServerOk, AssignId, Tell, PeerOk, IdFor;
    var e, id, net', served := net.store.entries[h], IdFor(net, h), ProcessEntry(net, h), Served(net, h);
    AssignIdKeepsPeers(net, e.path);
    assert net'.(peers := net.peers) == served;
    ServedOk(net, h);
    ServedIs(net, h);
    DirtyEntry(net, h);
    OtherIdsElsewhere(net, h);
    ServerLinked(net);
    ServerLinked(served);
    ServerLinked(net');
    ToldPeers(net, h);
    forall c | c in net'.peers && Intact(net'.peers[c]) ensures PeerOk(net', net'.peers[c]) {
      TellKeepsLink(net.peers[c], id, e.path, if e.deleted then Del(net.now, id) else Upd(e.lastUpdate, id, e.value));
      var m := if e.deleted then Del(net.now, id) else Upd(e.lastUpdate, id, e.value);
      TellKeepsPeer(net, served, h, id, net.peers[c], m);
      SamePeer(served, net', net'.peers[c]);
    }
  }

  lemma TellKeepsLink(p: Peer, id: EntryId, path: Path, m: Msg)
    ensures Tell(p, id, path, m).link == p.link
  {
  }

  lemma ToldPeers(net: Net, h: Handle)
    requires h < |net.store.entries|
    ensures
      var e, id, net' := net.store.entries[h], IdFor(net, h), ProcessEntry(net, h);
      && net'.peers.Keys == net.peers.Keys
      && forall c | c in net.peers ::
           net'.peers[c] == Tell(net.peers[c], id, e.path,
                                 if e.deleted then Del(net.now, id) else Upd(e.lastUpdate, id, e.value))
  {
  }

  /** Whether a peer is in order depends on the server's part only. */
  lemma SamePeer(net: Net, net': Net, p: Peer)
    requires net'.now == net.now && net'.store == net.store && net'.assignments == net.assignments
    requires Linked(net) && PeerOk(net, p)
    ensures Linked(net') && PeerOk(net', p)
  {
  }

  // ---------------------------------------------------------------- the handshake

  /** What is put in line for an id the client does not know. */
  function GreetingFor(net: Net, id: EntryId, e: Entry): seq<Msg>
    requires id in net.assignments
  {
    [Assign(id, net.assignments[id])] + if e.HasValue() then [Upd(net.now, id, e.value)] else []
  }

  lemma GreetSettles(net: Net, p: Peer, id: EntryId, e: Entry)
    requires PeerShape(net.assignments, p) && id in net.assignments && id !in p.published && net.now > 0
    requires !e.HasValue() ==> e.deleted || e.created
    ensures
      var g := GreetingFor(net, id, e);
      Settles(net.now, e, id, TrackOf(p.store, id), Pipe(p) + g, Since(id, p.told + g))
  {
    hide PeerShape, Pipe, TrackOf, Since;
    var a, u, t := Assign(id, net.assignments[id]), Upd(net.now, id, e.value), TrackOf(p.store, id);
    Unpublished(net, p, id);
    FollowAppend(id, t, Pipe(p), a);
    SinceAppend(id, p.told, a);
    if e.HasValue() {
      FollowAppend(id, t, Pipe(p) + [a], u);
      SinceAppend(id, p.told + [a], u);
      HeldFollows(id, t, [], u);
      assert Pipe(p) + [a] + [u] == Pipe(p) + ([a] + [u]) && p.told + [a] + [u] == p.told + ([a] + [u]);
      assert [] + [e.value] == [e.value];
    } else {
      assert [a] + [] == [a];
    }
  }

  lemma GreetShape(net: Net, p: Peer, id: EntryId)
    requires ServerOk(net.now, net.store, net.nextId, net.assignments) && Linked(net)
    requires PeerShape(net.assignments, p) && id in net.assignments && id !in p.published && id in net.store.ids
    ensures
      var p', e := GreetId(net, p, id), net.store.entries[net.store.ids[id]];
      && PeerShape(net.assignments, p') && p'.published == p.published + {id}
      && p'.inUse == p.inUse && p'.store == p.store
      && Pipe(p') == Pipe(p) + GreetingFor(net, id, e) && p'.told == p.told + GreetingFor(net, id, e)
  {
    hide ServerOk, PeerShape, Pipe;
    ServerEntryAt(net, id);
    var e := net.store.entries[net.store.ids[id]];
    var a := Assign(id, net.assignments[id]);
    EnqueueKeepsShape(net.assignments, p, a);
    PipeEnqueue(p, a);
    var p1 := Publish(p, id, net.assignments[id]);
    SamePipe(Enqueue(p, a), p1);
    if e.HasValue() {
      var m := Upd(net.now, id, e.value);
      EnqueueKeepsShape(net.assignments, p1, m);
      PipeEnqueue(p1, m);
      assert Pipe(p) + [a] + [m] == Pipe(p) + ([a] + [m]);
      assert p.told + [a] + [m] == p.told + ([a] + [m]);
    } else {
      assert [a] + [] == [a];
    }
  }

  lemma GreetNewKeeps(net: Net, p: Peer, id: EntryId)
    requires ServerOk(net.now, net.store, net.nextId, net.assignments) && Linked(net)
    requires PeerShape(net.assignments, p) && ValuesOk(net, p) && id in net.assignments && id !in p.published
    ensures
      var p' := GreetId(net, p, id);
      && PeerShape(net.assignments, p') && ValuesOk(net, p')
      && p'.published == p.published + {id} && p'.inUse == p.inUse
  {
    hide ServerOk, PeerShape, Settles, Pipe, TrackOf, Since, GreetId, GreetingFor;
    ServerEntryAt(net, id);
    GreetShape(net, p, id);
    var e, p' := net.store.entries[net.store.ids[id]], GreetId(net, p, id);
    forall i | i in p'.published && i in net.store.ids
      ensures Settles(net.now, net.store.entries[net.store.ids[i]], i, TrackOf(p'.store, i), Pipe(p'), Since(i, p'.told))
    {
      if i == id {
        GreetSettles(net, p, id, e);
      } else {
        GreetOthersSettle(net, p, i, id, e);
      }
    }
  }

  lemma GreetOthersSettle(net: Net, p: Peer, i: EntryId, id: EntryId, e: Entry)
    requires Linked(net) && ValuesOk(net, p) && i in p.published && i in net.store.ids
    requires i != id && id in net.assignments
    ensures
      var g := GreetingFor(net, id, e);
      Settles(net.now, net.store.entries[net.store.ids[i]], i, TrackOf(p.store, i), Pipe(p) + g, Since(i, p.told + g))
  {
    hide Settles, Pipe, TrackOf, Since;
    var a, u := Assign(id, net.assignments[id]), Upd(net.now, id, e.value);
    var now, e', t := net.now, net.store.entries[net.store.ids[i]], TrackOf(p.store, i);
    var ms, vs := Pipe(p), Since(i, p.told);
    SinceAppend(i, p.told, a);
    SettlesOther(now, e', i, t, ms, vs, a);
    if e.HasValue() {
      SinceAppend(i, p.told + [a], u);
      SettlesOther(now, e', i, t, ms + [a], vs, u);
      assert ms + [a] + [u] == ms + ([a] + [u]) && p.told + [a] + [u] == p.told + ([a] + [u]);
    } else {
      assert [a] + [] == [a];
    }
  }

  lemma GreetIdKeeps(net: Net, p: Peer, id: EntryId)
    requires ServerOk(net.now, net.store, net.nextId, net.assignments) && PeerOk(net, p)
    ensures
      var p' := GreetId(net, p, id);
      PeerOk(net, p') && p'.published == p.published + (if id in net.assignments then {id} else {})
  {
    ServerLinked(net);
    hide ServerOk, PeerShape, ValuesOk, Linked;
    if id in net.assignments && id !in p.published {
      GreetNewKeeps(net, p, id);
      hide GreetId;
    } else {
      assert p.published + {} == p.published && (id in p.published ==> p.published + {id} == p.published);
    }
  }

  /** What the server knows about an assigned id. */
  lemma ServerEntryAt(net: Net, id: EntryId)
    requires ServerOk(net.now, net.store, net.nextId, net.assignments) && id in net.assignments
    ensures net.now > 0 && id in net.store.ids && net.store.ids[id] < |net.store.entries|
    ensures
      var e := net.store.entries[net.store.ids[id]];
      && e.path == net.assignments[id]
      && GetValueFromId(net.store, id) == Shown(e)
  {
  }

  lemma {:induction false} GreetFromKeeps(net: Net, p: Peer, id: nat)
    requires ServerOk(net.now, net.store, net.nextId, net.assignments) && PeerOk(net, p)
    ensures
      var p' := GreetFrom(net, p, id);
      && PeerOk(net, p') && p.published <= p'.published
      && forall i | i in net.assignments && id <= i :: i in p'.published
    decreases U16 - id
  {
    if id < U16 {
      hide ServerOk, GreetId, PeerOk;
      ServerLinked(net);
      var p1 := GreetId(net, p, id);
      GreetIdKeeps(net, p, id);
      GreetFromKeeps(net, p1, id + 1);
      var p' := GreetFrom(net, p1, id + 1);
      forall i | i in net.assignments && id <= i ensures i in p'.published {
        if i == id {
          assert id in p1.published;
        }
      }
      assert GreetFrom(net, p, id) == p';
    }
  }

  lemma ShapeInUse(assignments: map<EntryId, Path>, p: Peer)
    requires PeerShape(assignments, p)
    ensures PeerShape(assignments, p.(inUse := true))
  {
    hide Orderly, Relevant, ClientOk;
    SamePipe(p, p.(inUse := true));
  }

  lemma ValuesInUse(net: Net, p: Peer)
    requires Linked(net) && ValuesOk(net, p)
    ensures ValuesOk(net, p.(inUse := true))
  {
    hide Settles, TrackOf;
    SamePipe(p, p.(inUse := true));
  }

  lemma FinishKeeps(net: Net, p: Peer)
    requires Linked(net) && PeerShape(net.assignments, p) && ValuesOk(net, p)
    requires p.inUse && p.published == net.assignments.Keys
    requires forall i: EntryId :: i < net.nextId ==> i in net.assignments
    ensures PeerOk(net, Enqueue(p, Finished(net.nextId)))
  {
    hide PeerShape, Settles, TrackOf, Pipe;
    var m := Finished(net.nextId);
    EnqueueKeepsShape(net.assignments, p, m);
    PipeEnqueue(p, m);
    forall i | i in p.published && i in net.store.ids
      ensures Settles(net.now, net.store.entries[net.store.ids[i]], i, TrackOf(p.store, i), Pipe(p) + [m],
                      Since(i, p.told + [m]))
    {
      SinceAppend(i, p.told, m);
      SettlesOther(net.now, net.store.entries[net.store.ids[i]], i, TrackOf(p.store, i), Pipe(p), Since(i, p.told), m);
    }
  }

  lemma GreetKeeps(net: Net, p: Peer)
    requires ServerOk(net.now, net.store, net.nextId, net.assignments) && PeerOk(net, p)
    ensures PeerOk(net, Greet(net, p))
  {
    hide ServerOk, GreetFrom, Pipe, Settles, TrackOf, PeerShape, ValuesOk;
    ServerLinked(net);
    AssignedBelow(net);
    GreetFromKeeps(net, p, 0);
    var p0 := GreetFrom(net, p, 0);
    var p1 := p0.(inUse := true);
    ShapeInUse(net.assignments, p0);
    ValuesInUse(net, p0);
    ShapePublished(net.assignments, p0);
    FinishKeeps(net, p1);
    assert Greet(net, p) == Enqueue(p1, Finished(net.nextId));
  }

  lemma AssignedBelow(net: Net)
    requires ServerOk(net.now, net.store, net.nextId, net.assignments)
    ensures forall i: EntryId :: i in net.assignments <==> i < net.nextId
  {
  }

  // ---------------------------------------------------------------- every reachable state

  lemma LocalCallKeeps(net: Net, st': State)
    requires NetOk(net) && Touches(net.now, net.store, st')
    requires ServerOk(net.now, st', net.nextId, net.assignments)
    ensures NetOk(net.(store := st'))
  {
    ServerLinked(net);
    ServerLinked(net.(store := st'));
    hide ServerOk, PeerOk;
    forall c | c in net.peers && Intact(net.peers[c]) ensures PeerOk(net.(store := st'), net.peers[c]) {
      TouchKeepsPeer(net, st', net.peers[c]);
    }
  }

  lemma OnePeerKeeps(net: Net, c: ClientId, p: Peer)
    requires NetOk(net) && Linked(net) && (Intact(p) ==> PeerOk(net, p))
    ensures NetOk(net.(peers := WithPeer(net.peers, c, p)))
  {
    hide ServerOk;
    var net' := net.(peers := WithPeer(net.peers, c, p));
    assert Linked(net');
    forall k | k in net'.peers && Intact(net'.peers[k]) ensures PeerOk(net', net'.peers[k]) {
      SamePeer(net, net', net'.peers[k]);
    }
  }

  lemma ConnectedOk(net: Net)
    requires Linked(net)
    ensures PeerOk(net, Connected)
  {
  }

  /** A change to what a client sends upwards does not matter. */
  lemma UpDoesNotMatter(net: Net, p: Peer, up: seq<UpMsg>)
    requires Linked(net) && PeerOk(net, p)
    ensures PeerOk(net, p.(up := up))
  {
    hide Settles, Orderly, ClientOk, Relevant;
    SamePipe(p, p.(up := up));
  }

  lemma LocalStepKeeps(net: Net, s: Step)
    requires NetOk(net) && LocalStep(s)
    ensures NetOk(Next(net, s))
  {
    hide PeerOk, Apply, ServerOk;
    match s
    case Create(path) =>
      CreateOnServer(net, path);
      LocalCallKeeps(net, Apply(net.store, GetOrCreate(path)));
    case Set(h, v) =>
      SetOnServer(net, h, v, false);
      ApplySet(net.store, h, v, net.now);
      LocalCallKeeps(net, Apply(net.store, SetValue(h, v, net.now)));
    case ClearValue(h) =>
      SetOnServer(net, h, Empty, true);
      ApplyClear(net.store, h, net.now);
      LocalCallKeeps(net, Apply(net.store, Clear(h, net.now)));
    case Remove(h) =>
      DeleteOnServer(net, h);
      ApplyDelete(net.store, h, net.now);
      LocalCallKeeps(net, Apply(net.store, Delete(h, net.now)));
    case RemoveAll(path) =>
      DeleteFromOnServer(net, 0, path);
      ApplyDeleteAll(net.store, path, net.now);
      LocalCallKeeps(net, Apply(net.store, DeleteAll(path, net.now)));
  }

  /** A call on the server's storage. */
  predicate LocalStep(s: Step) {
    s.Create? || s.Set? || s.ClearValue? || s.Remove? || s.RemoveAll?
  }

  /** A step about one connection that loses nothing leaves it in order. */
  lemma AfterStepKeeps(net: Net, c: ClientId, s: Step)
    requires ServerOk(net.now, net.store, net.nextId, net.assignments) && c in net.peers && PeerOk(net, net.peers[c])
    requires Enabled(net, s) && !LocalStep(s) && !s.Tick? && !s.Process? && !s.Connect? && s.c == c
    requires !s.Garble?
    ensures PeerOk(net, AfterStep(net, net.peers[c], s))
  {
    ServerLinked(net);
    hide ServerOk, PeerOk, Linked, Greet, Post, Handled, HarmlessResync;
    var p := net.peers[c];
    match s
    case AnswerTime(_) =>
      UpDoesNotMatter(net, p, p.up[1..]);
      PostKeeps(net, Popped(p));
    case AnswerReady(_) =>
      UpDoesNotMatter(net, p, p.up[1..]);
      GreetKeeps(net, Popped(p));
    case Depart(_, n) => LinkDoesNotMatter(net, p, Departed(p.link, n));
    case Arrive(_, n) => LinkDoesNotMatter(net, p, Arrived(p.link, n));
    case Consume(_, resync) => ArriveKeeps(net, p, resync);
    case AskTime(_) => UpDoesNotMatter(net, p, p.up + [TimeRequest]);
    case HangUp(_) => LinkDoesNotMatter(net, p, p.link.(status := CutOff));
  }

  /** Neither does how far its bytes have come. */
  lemma LinkDoesNotMatter(net: Net, p: Peer, link: Link)
    requires Linked(net) && PeerOk(net, p)
    ensures PeerOk(net, p.(link := link))
  {
    hide Settles, Orderly, ClientOk, Relevant;
    SamePipe(p, p.(link := link));
  }

  /** Lost bytes stay lost. */
  lemma LossStays(net: Net, p: Peer, s: Step)
    requires !Intact(p)
    ensures !Intact(AfterStep(net, p, s))
  {
    hide GreetFrom, Receive;
    match s
    case AnswerReady(_) => GreetKeepsLink(net, Popped(p));
    case Consume(_, resync) => if Complete(p) { ReceiveKeepsLink(p, resync); }
    case _ =>
  }

  lemma ReceiveKeepsLink(p: Peer, resync: Option<int>)
    requires Complete(p)
    ensures Handled(p, resync).link == Past(p.link, FrameSize(p.down[0]))
  {
  }

  lemma {:induction false} GreetFromKeepsLink(net: Net, p: Peer, id: nat)
    ensures GreetFrom(net, p, id).link == p.link
    decreases U16 - id
  {
    if id < U16 {
      GreetFromKeepsLink(net, GreetId(net, p, id), id + 1);
    }
  }

  lemma GreetKeepsLink(net: Net, p: Peer)
    ensures Greet(net, p).link == p.link
  {
    GreetFromKeepsLink(net, p, 0);
  }

  lemma ConnectionStepKeeps(net: Net, s: Step)
    requires NetOk(net) && Enabled(net, s) && !LocalStep(s) && !s.Tick? && !s.Process?
    ensures NetOk(Next(net, s))
  {
    ServerLinked(net);
    if s.Connect? {
      ConnectedOk(net);
      OnePeerKeeps(net, s.c, Connected);
    } else {
      hide PeerOk, Linked, AfterStep;
      var p := AfterStep(net, net.peers[s.c], s);
      if !Intact(net.peers[s.c]) {
        LossStays(net, net.peers[s.c], s);
      } else if !s.Garble? {
        AfterStepKeeps(net, s.c, s);
      }
      OnePeerKeeps(net, s.c, p);
    }
  }

  /** The server's timer: all that is dirty is told, and every line handed over. */
  lemma TimerKeeps(net: Net)
    requires NetOk(net)
    ensures NetOk(Next(net, Process))
  {
    hide PeerOk, ServerOk, ProcessFrom;
    ProcessKeeps(net, 0);
    var processed, net' := ProcessFrom(net, 0), Next(net, Process);
    ServerLinked(processed);
    ServerLinked(net');
    forall c | c in net'.peers && Intact(net'.peers[c]) ensures PeerOk(net', net'.peers[c]) {
      FlushStays(processed.peers[c]);
      FlushKeeps(processed, processed.peers[c]);
      SamePeer(processed, net', net'.peers[c]);
    }
  }

  lemma FlushStays(p: Peer)
    requires Intact(Flush(p))
    ensures Intact(p)
  {
    var k := FlushMoves(p);
  }

  lemma NextKeeps(net: Net, s: Step)
    requires NetOk(net) && Enabled(net, s)
    ensures NetOk(Next(net, s))
  {
    hide NetOk;
    if LocalStep(s) {
      LocalStepKeeps(net, s);
    } else {
      match s
      case Tick(now) => TickKeeps(net, now);
      case Process => TimerKeeps(net);
      case _ => ConnectionStepKeeps(net, s);
    }
  }

  lemma ApplySet(st: State, h: Handle, v: Value, now: int)
    ensures Apply(st, SetValue(h, v, now)) == SetAt(st, h, v, false, ID_NOT_ASSIGNED, true, 0, now).0
  {
  }

  lemma ApplyClear(st: State, h: Handle, now: int)
    ensures Apply(st, Clear(h, now)) == SetAt(st, h, Empty, true, ID_NOT_ASSIGNED, true, 0, now).0
  {
  }

  lemma ApplyDelete(st: State, h: Handle, now: int)
    ensures Apply(st, Delete(h, now)) == DeleteAt(st, h, true, 0, now).0
  {
  }

  lemma ApplyDeleteAll(st: State, path: Path, now: int)
    ensures Apply(st, DeleteAll(path, now)) == DeleteFrom(st, 0, path, now)
  {
  }

  lemma TickKeeps(net: Net, now: int)
    requires NetOk(net) && net.now <= now
    ensures NetOk(net.(now := now))
  {
    ServerLinked(net);
    assert ServerOk(now, net.store, net.nextId, net.assignments) by {
      hide Inv, IdsAgree, IdsOk;
    }
    hide ServerOk, PeerOk;
    forall c | c in net.peers && Intact(net.peers[c]) ensures PeerOk(net.(now := now), net.peers[c]) {
      TickKeepsPeer(net, now, net.peers[c]);
    }
  }

  lemma {:induction false} ReachesKeeps(start: Net, steps: seq<Step>, net: Net)
    requires NetOk(start) && Reaches(start, steps, net)
    ensures NetOk(net)
    decreases |steps|
  {
    if steps == [] {
    } else {
      NextKeeps(start, steps[0]);
      ReachesKeeps(Next(start, steps[0]), steps[1..], net);
    }
  }

  lemma ReachableOk(start: Net, steps: seq<Step>, net: Net)
    requires Init(start) && Reaches(start, steps, net)
    ensures NetOk(net)
  {
    ReachesKeeps(start, steps, net);
  }
}
