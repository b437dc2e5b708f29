/** What the protocol comes to: what a client shows once everything has arrived, and what its ids and its handshake are
    good for. */
module Convergence {
  import opened Wrappers
  import opened Bytes
  import opened Codec
  import opened Store
  import opened StoreLaws
  import opened Replication
  import opened PipeLaws
  import opened ReplicationLaws

  // ---------------------------------------------------------------- values

  /** The values a client has been told for a path since its last deletion. */
  function ToldFor(net: Net, p: Peer, path: Path): seq<Value> {
    if path in net.store.paths && net.store.paths[path] < |net.store.entries|
    then Since(net.store.entries[net.store.paths[path]].netId, p.told)
    else []
  }

  /** What a client shows that has been told `vs`, and nothing more is to come. */
  ghost predicate ShowsTold(server: Option<Value>, client: Option<Value>, vs: seq<Value>) {
    match server
    case None => client == None
    case Some(v) =>
      && vs != [] && vs[|vs| - 1] == v
      && LastOf(vs, FirstType(vs)).Some?
      && client == Some(ReadBack(LastOf(vs, FirstType(vs)).value))
  }

  /** The client has nothing before it and has lost nothing, and the server has nothing to tell about the path. */
  ghost predicate Settled(net: Net, p: Peer, path: Path) {
    && p.phase == InUse && p.queue == [] && p.down == [] && Intact(p)
    && (path in net.store.paths && net.store.paths[path] < |net.store.entries| ==>
          !net.store.entries[net.store.paths[path]].dirty)
  }

  /** Convergence. In every reachable state in which a client has finished its handshake, no byte to it has been lost
      (`Losses.IntactIff` says exactly when), nothing is on its way to it, and the server has nothing more to tell about a
      path, the client shows for that path nothing if the server shows
      nothing. Otherwise it has been told the server's value last, and shows the last value it was told of the type
      that the first value with contents had, as the codec reads it. So it shows the server's value if and only if
      that has this type and survives the codec. */
  lemma Converged(start: Net, steps: seq<Step>, net: Net, c: ClientId, path: Path)
    requires Init(start) && Reaches(start, steps, net)
    requires c in net.peers && Settled(net, net.peers[c], path)
    ensures
      var s, k, vs := Lookup(net.store, path), Lookup(net.peers[c].store, path), ToldFor(net, net.peers[c], path);
      && ShowsTold(s, k, vs)
      && (s.Some? ==> (k == Some(ReadBack(s.value)) <==> s.value.TypeCode() == FirstType(vs)))
      && (k == s <==> s.None? || (s.value.TypeCode() == FirstType(vs) && ReadBack(s.value) == s.value))
  {
    ReachableOk(start, steps, net);
    ConvergedWhenQuiet(net, net.peers[c], path);
    ShownIff(Lookup(net.store, path), Lookup(net.peers[c].store, path), ToldFor(net, net.peers[c], path));
  }

  lemma ShownIff(s: Option<Value>, k: Option<Value>, vs: seq<Value>)
    requires ShowsTold(s, k, vs)
    ensures s.Some? ==> (k == Some(ReadBack(s.value)) <==> s.value.TypeCode() == FirstType(vs))
    ensures k == s <==> s.None? || (s.value.TypeCode() == FirstType(vs) && ReadBack(s.value) == s.value)
  {
    hide Value.TypeCode, ReadBack, FirstType;
    HeldIsKept(vs);
  }

  lemma QuietPeer(net: Net, p: Peer)
    requires Linked(net) && PeerOk(net, p)
    requires p.phase == InUse && p.queue == [] && p.down == []
    ensures p.store.ids.Keys == net.assignments.Keys && ClientOk(net.assignments, p.store)
    ensures forall i | i in net.assignments && i in net.store.ids ::
              && i in p.store.ids && TrackOf(p.store, i).val == Held(Since(i, p.told))
              && (!net.store.entries[net.store.ids[i]].dirty ==>
                    LastTold(net.store.entries[net.store.ids[i]], Since(i, p.told)))
  {
    hide ClientOk, Orderly, Since, Held, LastTold;
    assert p.down + p.queue == [];
    assert Pipe(p) == [];
    forall i | i in net.assignments && i in net.store.ids
      ensures Settles(net.now, net.store.entries[net.store.ids[i]], i, TrackOf(p.store, i), [], Since(i, p.told))
    {
      assert i in p.published;
    }
  }

  lemma ConvergedWhenQuiet(net: Net, p: Peer, path: Path)
    requires ServerOk(net.now, net.store, net.nextId, net.assignments) && PeerOk(net, p)
    requires Settled(net, p, path)
    ensures ShowsTold(Lookup(net.store, path), Lookup(p.store, path), ToldFor(net, p, path))
  {
    ServerLinked(net);
    QuietPeer(net, p);
    hide PeerOk, Since, Held, LastTold, ShowsTold;
    if path in net.store.paths && net.store.entries[net.store.paths[path]].netId != ID_NOT_ASSIGNED {
      SamePlace(net, p, path);
      var e := net.store.entries[net.store.paths[path]];
      TrackShows(e, TrackOf(p.store, e.netId), Since(e.netId, p.told));
    } else {
      UnknownPath(net, p, path);
      NothingShown(net, path);
      assert ShowsTold(None, None, ToldFor(net, p, path)) by { ShowsNothing(ToldFor(net, p, path)); }
    }
  }

  /** A path with an id has it on both sides. */
  lemma SamePlace(net: Net, p: Peer, path: Path)
    requires ServerOk(net.now, net.store, net.nextId, net.assignments) && ClientOk(net.assignments, p.store)
    requires p.store.ids.Keys == net.assignments.Keys
    requires path in net.store.paths && net.store.paths[path] < |net.store.entries|
    requires net.store.entries[net.store.paths[path]].netId != ID_NOT_ASSIGNED
    ensures
      var e := net.store.entries[net.store.paths[path]];
      && e.netId in net.assignments && e.netId in net.store.ids && net.store.ids[e.netId] == net.store.paths[path]
      && Lookup(net.store, path) == Shown(e)
      && Lookup(p.store, path) == TrackOf(p.store, e.netId).val
  {
    hide Replayable;
    var i := net.store.entries[net.store.paths[path]].netId;
    assert net.store.ids[i] == net.store.paths[path] && i in net.assignments;
    assert p.store.paths[path] == p.store.ids[i];
  }

  lemma TrackShows(e: Entry, t: Track, vs: seq<Value>)
    requires LastTold(e, vs) && t.val == Held(vs)
    ensures ShowsTold(Shown(e), t.val, vs)
  {
    HeldIsKept(vs);
  }

  /** An entry without an id shows nothing, if nothing is left to be told about it. */
  lemma NothingShown(net: Net, path: Path)
    requires ServerOk(net.now, net.store, net.nextId, net.assignments)
    requires path in net.store.paths ==>
               net.store.paths[path] < |net.store.entries|
               && net.store.entries[net.store.paths[path]].netId == ID_NOT_ASSIGNED
               && !net.store.entries[net.store.paths[path]].dirty
    ensures Lookup(net.store, path) == None
  {
    hide Inv, IdsAgree, IdsOk;
    if path in net.store.paths {
      assert ServerEntryOk(net.now, net.store.entries[net.store.paths[path]]);
    }
  }

  lemma ShowsNothing(vs: seq<Value>)
    ensures ShowsTold(None, None, vs)
  {
  }

  lemma UnknownPath(net: Net, p: Peer, path: Path)
    requires ServerOk(net.now, net.store, net.nextId, net.assignments)
    requires ClientOk(net.assignments, p.store)
    requires path in net.store.paths ==> net.store.entries[net.store.paths[path]].netId == ID_NOT_ASSIGNED
    ensures path !in p.store.paths
  {
    hide Replayable;
    forall h | 0 <= h < |p.store.entries| ensures p.store.entries[h].path != path {
      var i := p.store.entries[h].netId;
      assert i in p.store.ids && p.store.ids[i] == h && i in net.assignments;
      var e := net.store.entries[net.store.ids[i]];
      assert e.netId == i && net.store.paths[e.path] == net.store.ids[i];
    }
  }

  // ---------------------------------------------------------------- ids and the handshake

  /** Ids. In every reachable state the assigned ids are 0, 1, 2 and so on, at most as many as there are entries, so the
      value that means "no id" is never handed out; they name different paths, each that of the server's entry with that
      id. */
  lemma IdsAssigned(start: Net, steps: seq<Step>, net: Net)
    requires Init(start) && Reaches(start, steps, net)
    ensures net.nextId <= |net.store.entries| <= CAPACITY < ID_NOT_ASSIGNED
    ensures forall i: EntryId :: i in net.assignments <==> i < net.nextId
    ensures forall i, j | i in net.assignments && j in net.assignments && i != j ::
              net.assignments[i] != net.assignments[j]
    ensures forall i | i in net.assignments ::
              && i in net.store.ids && net.store.ids[i] < |net.store.entries|
              && net.store.entries[net.store.ids[i]].netId == i
              && net.store.entries[net.store.ids[i]].path == net.assignments[i]
  {
    ReachableOk(start, steps, net);
    ServerGivesInjective(net);
    hide Replayable, PeerOk;
  }

  /** And whatever id a client knows names the same path there as on the server. */
  lemma IdsName(start: Net, steps: seq<Step>, net: Net, c: ClientId, id: EntryId)
    requires Init(start) && Reaches(start, steps, net)
    requires c in net.peers && Intact(net.peers[c]) && id in net.peers[c].store.ids
    ensures
      var st := net.peers[c].store;
      && id in net.assignments && id in net.store.ids
      && st.ids[id] < |st.entries| && net.store.ids[id] < |net.store.entries|
      && st.entries[st.ids[id]].path == net.assignments[id] == net.store.entries[net.store.ids[id]].path
  {
    ReachableOk(start, steps, net);
    hide Replayable;
    assert PeerOk(net, net.peers[c]);
  }

  /** The handshake. When the message that ends it arrives, the client's storage knows every id that had been assigned
      when the server answered; and whenever an update or a deletion arrives, the client knows its id. */
  lemma KnownBeforeUse(start: Net, steps: seq<Step>, net: Net, c: ClientId)
    requires Init(start) && Reaches(start, steps, net)
    requires c in net.peers && Intact(net.peers[c]) && net.peers[c].down != []
    ensures
      var p := net.peers[c];
      match p.down[0]
      case Finished(upTo) => forall id: EntryId | id < upTo :: id in p.store.ids
      case Upd(_, id, _) => id in p.store.ids
      case Del(_, id) => id in p.store.ids
      case Assign(id, _) => id !in p.store.ids
      case TimeReply => true
  {
    ReachableOk(start, steps, net);
    HeadInOrder(net, net.peers[c]);
  }

  lemma HeadInOrder(net: Net, p: Peer)
    requires ServerOk(net.now, net.store, net.nextId, net.assignments) && PeerOk(net, p) && p.down != []
    ensures InOrder(p.store.ids.Keys, p.down[0])
  {
    hide ServerOk, ClientOk, ValuesOk;
    var m := p.down[0];
    assert p.down + p.queue == [m] + (p.down[1..] + p.queue);
    RelevantConcat([m], p.down[1..] + p.queue);
    RelevantOne(m);
    if m != TimeReply {
      OrderlyHead(p.store.ids.Keys, m, Relevant(p.down[1..] + p.queue));
    }
  }

  /** When a client is in use on the server's side, everything assigned has been published to it. */
  lemma EverythingPublished(start: Net, steps: seq<Step>, net: Net, c: ClientId)
    requires Init(start) && Reaches(start, steps, net)
    requires c in net.peers && Intact(net.peers[c]) && net.peers[c].phase == InUse
    ensures forall id | id in net.assignments ::
              id in net.peers[c].store.ids || id in Introduced(Pipe(net.peers[c]))
  {
    ReachableOk(start, steps, net);
    hide ServerOk, ClientOk, ValuesOk, Orderly;
    assert PeerOk(net, net.peers[c]);
  }

  // ---------------------------------------------------------------- when an update does not take effect

  /** An update from the network takes effect if and only if it is not stale and the entry shows nothing, or an empty
      value, or a value of the same type (or shows just that value already); otherwise the entry shows what it did. */
  lemma UpdateTakesEffectIff(st: State, id: EntryId, v: Value, time: int)
    requires Inv(st) && id in st.ids
    ensures
      var h, after := st.ids[id], OnUpdated(st, id, v, time, 0).0;
      && h < |st.entries| == |after.entries|
      && (GetValue(after, h) == Some(v) <==>
          || GetValue(st, h) == Some(v)
          || ((time == 0 || st.entries[h].lastUpdate <= time)
              && (GetValue(st, h) == None || st.entries[h].value.TypeCode() in {Empty.TypeCode(), v.TypeCode()})))
      && (GetValue(after, h) != Some(v) ==> GetValue(after, h) == GetValue(st, h))
  {
    hide Replayable;
    assert Sound(st.entries[st.ids[id]]);
  }

  /** A clear is replicated as an update with an empty value: it takes effect if and only if the entry shows an empty
      value already, or it is not stale and the entry shows nothing. */
  lemma ClearTakesEffectIff(st: State, id: EntryId, time: int)
    requires Inv(st) && id in st.ids
    ensures
      var h, after := st.ids[id], OnUpdated(st, id, Empty, time, 0).0;
      && h < |st.entries| == |after.entries|
      && (GetValue(after, h) == Some(Empty) <==>
          || GetValue(st, h) == Some(Empty)
          || ((time == 0 || st.entries[h].lastUpdate <= time) && GetValue(st, h) == None))
      && (GetValue(after, h) != Some(Empty) ==> GetValue(after, h) == GetValue(st, h))
  {
    hide Replayable;
    UpdateTakesEffectIff(st, id, Empty, time);
  }

  /** A client's clock is set: the times of its entries are shifted with it. The next update of an entry then takes
      effect exactly when the shifted time is not later than the update; a shift into the past never loses one. */
  lemma ResyncLosesUpdatesIff(st: State, offset: int, id: EntryId, v: Value, time: int)
    requires id in st.ids && st.ids[id] < |st.entries| && time != 0
    requires st.entries[st.ids[id]].HasValue() && st.entries[st.ids[id]].lastUpdate != 0
    requires st.entries[st.ids[id]].value.TypeCode() == v.TypeCode() && v != st.entries[st.ids[id]].value
    ensures
      var h := st.ids[id];
      var after := OnUpdated(Resync(st, offset), id, v, time, 0).0;
      && |after.entries| == |st.entries|
      && (GetValue(after, h) == Some(v) <==> st.entries[h].lastUpdate - offset <= time)
      && (GetValue(after, h) != Some(v) ==> GetValue(after, h) == GetValue(st, h))
  {
  }
}
