/** The imperative code of src/net/server.cpp and src/net/client.cpp, proved against the steps of `Replication`. */
module Server {
  import opened Wrappers
  import opened Bytes
  import opened Codec
  import opened Store
  import opened Storage
  import opened Links
  import ReplicationLaws
  import opened Replication

  /** `server_client`: what the server keeps for one connection. `link` stands for the ring of its socket. */
  class ServerClient {
    var inUse: bool
    var published: set<EntryId>
    var queue: seq<Msg>
    var link: Link

    constructor ()
      ensures Holds(Connected)
    {
      inUse, published, queue, link := false, {}, [], New;
    }

    /** The server's side of peer `p`. */
    ghost predicate Holds(p: Peer)
      reads this
    {
      && inUse == p.inUse && published == p.published && queue == p.queue
      && link.status == p.link.status && link.start == p.link.start && link.held == p.link.held
    }

    predicate IsKnown(id: EntryId)
      reads this
    {
      id in published
    }

    method EnqueueMessage(m: Msg)
      modifies this`queue
      ensures queue == old(queue) + [m]
    {
      queue := queue + [m];
    }

    /** Writes to the connection, with the outcomes of `SocketIo.Socket.Write`. */
    method WriteTo(m: Msg) returns (ok: bool)
      modifies this`link
      ensures link == AfterWrite(old(link), BodySize(m))
      ensures ok <==> Judge(old(link).start, old(link).held, BodySize(m)) in {Taken, Filled}
    {
      ok := Judge(link.start, link.held, BodySize(m)) in {Taken, Filled};
      link := AfterWrite(link, BodySize(m));
    }

    /** An immediate time reply goes out at once, or else to the head of the queue. */
    method EnqueueImmediate(ghost p: Peer)
      requires Holds(p)
      modifies this`queue, this`link
      ensures Holds(Post(p))
    {
      var ok := WriteTo(TimeReply);
      if !ok {
        queue := [TimeReply] + queue;
      }
    }

    /** Hands over what can be written and is taken, in order, until the first message that is not. */
    method Update(ghost p: Peer)
      requires Holds(p)
      modifies this`queue, this`link
      ensures Holds(Flush(p))
    {
      hide Sendable, BodySize;
      ghost var q := p;
      var success := true;
      while success && queue != []
        invariant success ==> Holds(q) && Flush(q) == Flush(p)
        invariant !success ==> Holds(Flush(p))
        decreases success, |queue|
      {
        var m := queue[0];
        success := Sendable(m);
        if success {
          success := WriteTo(m);
          if success {
            queue := queue[1..];
            q := HandOver(q, 1).(link := AfterWrite(q.link, BodySize(m)));
          }
        }
      }
    }

    method PublishEntry(id: EntryId, path: Path)
      modifies this`queue, this`published
      ensures queue == old(queue) + [Assign(id, path)] && published == old(published) + {id}
    {
      EnqueueMessage(Assign(id, path));
      published := published + {id};
    }
  }

  /** The records kept for the connections are the server's side of the peers, each connection having its own. */
  ghost predicate ClientsMatch(clients: map<ClientId, ServerClient>, records: set<ServerClient>,
                               peers: map<ClientId, Peer>)
    reads records
  {
    && clients.Keys == peers.Keys
    && (forall c | c in clients ::
          clients[c] in records && clients[c].Holds(peers[c]) && peers[c].link.status != CutOff)
    && (forall c, d | c in clients && d in clients && c != d :: clients[c] != clients[d])
  }

  /** The lines of all clients but those in `left` have been handed over. */
  ghost function Halfway(peers: map<ClientId, Peer>, left: set<ClientId>): map<ClientId, Peer> {
    map c | c in peers && (c in left || Flush(peers[c]).link.status != CutOff) ::
      if c in left then peers[c] else Flush(peers[c])
  }

  lemma HalfwayEnds(peers: map<ClientId, Peer>)
    ensures Halfway(peers, peers.Keys) == peers && Halfway(peers, {}) == FlushAll(peers)
  {
    hide Flush;
  }

  lemma HalfwayStep(peers: map<ClientId, Peer>, left: set<ClientId>, c: ClientId)
    requires c in left && left <= peers.Keys
    ensures c in Halfway(peers, left) && Halfway(peers, left)[c] == peers[c]
    ensures WithPeer(Halfway(peers, left), c, Flush(peers[c])) == Halfway(peers, left - {c})
  {
    hide Flush;
  }

  /** A record for a new connection. */
  lemma OneAdded(clients: map<ClientId, ServerClient>, records: set<ServerClient>, peers: map<ClientId, Peer>,
                 c: ClientId, r: ServerClient)
    requires ClientsMatch(clients, records, peers) && c !in clients && r !in records && r.Holds(Connected)
    ensures ClientsMatch(clients[c := r], records + {r}, peers[c := Connected])
  {
    hide ServerClient.Holds;
  }

  /** One record has come to hold something else, or is dropped. */
  lemma OneChanged(clients: map<ClientId, ServerClient>, records: set<ServerClient>, peers: map<ClientId, Peer>,
                   c: ClientId, p: Peer)
    requires c in clients && clients[c] in records && clients[c].Holds(p) && c in peers
    requires ClientsMatch(clients - {c}, records, peers - {c})
    requires forall d | d in clients && d != c :: clients[d] != clients[c]
    ensures ClientsMatch(if p.link.status == CutOff then clients - {c} else clients, records, WithPeer(peers, c, p))
  {
    hide ServerClient.Holds;
    var others := clients - {c};
    assert forall d | d in clients && d != c :: d in others && others[d] == clients[d];
    assert clients.Keys == others.Keys + {c} && peers.Keys == (peers - {c}).Keys + {c};
  }

  class NetworkServer {
    const storage: EntryStorage
    var nextEntryId: EntryId
    var idAssignments: map<EntryId, Path>
    var clients: map<ClientId, ServerClient>

    ghost var net: Net                     // the protocol state the server is part of
    ghost var records: set<ServerClient>

    ghost function Repr(): set<object>
      reads this, storage
    {
      {this} + records + storage.Repr()
    }

    ghost predicate Valid()
      reads this, records, storage, storage.entries, storage.entries.slots, storage.objects
    {
      && storage.Valid() && storage.state == net.store
      && nextEntryId == net.nextId && idAssignments == net.assignments
      && ClientsMatch(clients, records, net.peers)
    }

    constructor (now: int)
      requires now > 0
      ensures Valid() && fresh(Repr()) && Init(net)
    {
      storage := new EntryStorage();
      nextEntryId, idAssignments, clients := 0, map[], map[];
      net, records := Net(now, Fresh, 0, map[], map[]), {};
    }

    method OnConnect(c: ClientId)
      requires Valid() && c !in clients
      modifies this
      ensures Valid() && fresh(Repr() - old(Repr()))
      ensures net == Next(old(net), Connect(c))
    {
      hide EntryStorage.Valid, ClientsMatch, ServerClient.Holds;
      ClientsKnown();
      var r := new ServerClient();
      OneAdded(clients, records, net.peers, c, r);
      clients := clients[c := r];
      records := records + {r};
      net := Next(net, Connect(c));
    }

    method AssignIdToEntry(path: Path) returns (id: EntryId)
      requires Valid()
      modifies this, storage.Repr()
      ensures Valid() && clients == old(clients) && records == old(records) && fresh(Repr() - old(Repr()))
      ensures id == old(net).nextId && net == AssignId(old(net), path)
    {
      hide ClientsMatch, EntryStorage.TableMatches, OnIdAssigned;
      id := nextEntryId;
      nextEntryId := (nextEntryId + 1) % U16;
      if id !in idAssignments {
        idAssignments := idAssignments[id := path];
      }
      var _ := storage.OnEntryIdAssigned(id, path);
      net := AssignId(net, path);
    }

    /** Publishes an entry to the clients that do not know it and tells every client about it. */
    method TellClients(id: EntryId, path: Path, m: Msg)
      requires Valid()
      modifies this`net, records
      ensures Valid() && records == old(records)
      ensures net == old(net).(peers := TellAll(old(net).peers, id, path, m))
    {
      hide Valid, Tell, TellAll;
      ClientsKnown();
      var left := clients.Keys;
      ghost var target := TellAll(net.peers, id, path, m);
      while left != {}
        invariant Valid() && left <= clients.Keys
        invariant net == old(net).(peers := net.peers) && net.peers.Keys == clients.Keys
        invariant forall c | c in net.peers :: net.peers[c] == if c in left then old(net).peers[c] else target[c]
        decreases left
      {
        var c :| c in left;
        TellClient(c, id, path, m);
        left := left - {c};
      }
      assert net.peers == target;
    }

    lemma ClientsKnown()
      requires Valid()
      ensures clients.Keys == net.peers.Keys
    {
    }

    method TellClient(c: ClientId, id: EntryId, path: Path, m: Msg)
      requires Valid() && c in clients
      modifies this`net, records
      ensures Valid() && records == old(records)
      ensures c in old(net).peers
      ensures net == old(net).(peers := old(net).peers[c := Tell(old(net).peers[c], id, path, m)])
    {
      hide Valid;
      ClientKnown(c);
      if !clients[c].IsKnown(id) {
        PublishTo(c, id, path);
      }
      EnqueueTo(c, m);
    }

    method PublishTo(c: ClientId, id: EntryId, path: Path)
      requires Valid() && c in clients
      modifies this`net, records
      ensures Valid() && records == old(records)
      ensures c in old(net).peers
      ensures net == old(net).(peers := old(net).peers[c := Publish(old(net).peers[c], id, path)])
    {
      hide EntryStorage.Valid;
      clients[c].PublishEntry(id, path);
      net := net.(peers := net.peers[c := Publish(net.peers[c], id, path)]);
    }

    method EnqueueTo(c: ClientId, m: Msg)
      requires Valid() && c in clients
      modifies this`net, records
      ensures Valid() && records == old(records)
      ensures c in old(net).peers
      ensures net == old(net).(peers := old(net).peers[c := Enqueue(old(net).peers[c], m)])
    {
      hide EntryStorage.Valid;
      clients[c].EnqueueMessage(m);
      net := net.(peers := net.peers[c := Enqueue(net.peers[c], m)]);
    }

    /** The action of `process_updates` on one dirty entry, and the cleaning that follows it. */
    method ProcessOne(h: Handle, now: int)
      requires Valid() && h < |net.store.entries| && now == net.now
      modifies Repr()
      ensures Valid() && fresh(Repr() - old(Repr()))
      ensures net == ProcessEntry(old(net), h)
    {
      hide Tell, OnIdAssigned, EntryStorage.TableMatches;
      ghost var net0 := net;
      var entry := storage.GetEntry(h);
      var id := entry.netId;
      if id == ID_NOT_ASSIGNED {
        id := AssignIdToEntry(entry.path);
        OnIdAssignedGrows(net0.store, id, entry.path);
      }
      var m := if entry.deleted then Del(now, id) else Upd(entry.lastUpdate, id, entry.value);
      TellClients(id, entry.path, m);
      Clean(h);
      assert net == ProcessEntry(net0, h);
    }

    method Clean(h: Handle)
      requires Valid() && h < |storage.state.entries|
      modifies this`net, storage.Repr()
      ensures Valid() && Repr() == old(Repr())
      ensures net == old(net).(store := CleanAt(old(net).store, h))
    {
      hide ClientsMatch, EntryStorage.TableMatches;
      storage.CleanEntry(h);
      net := net.(store := CleanAt(net.store, h));
    }

    /** Where `act_on_dirty_entries` goes from `at`, and whether it stops there. */
    method NextDirty(at: int) returns (next: nat, dirty: bool)
      requires Valid() && -1 <= at < CAPACITY
      ensures at + 1 < |net.store.entries| ==> next == at + 1 && dirty == net.store.entries[next].dirty
      ensures at + 1 >= |net.store.entries| ==> next == CAPACITY
      ensures next < |net.store.entries| || next == CAPACITY
    {
      next := storage.NextEntry(at);
      dirty := false;
      if next < CAPACITY {
        dirty := storage.IsDirty(next);
      }
    }

    method ProcessUpdates(now: int)
      requires Valid() && now == net.now
      modifies Repr()
      ensures Valid() && fresh(Repr() - old(Repr()))
      ensures net == ProcessFrom(old(net), 0)
    {
      hide ProcessEntry, ProcessFrom, Valid;
      var at, dirty := NextDirty(-1);
      ProcessFromEnd(net, 0);
      while at < CAPACITY
        invariant Valid() && fresh(Repr() - old(Repr())) && now == net.now
        invariant at <= CAPACITY && (at < |net.store.entries| || at == CAPACITY)
        invariant at < CAPACITY ==> dirty == net.store.entries[at].dirty
        invariant ProcessFrom(net, at) == ProcessFrom(old(net), 0)
        decreases CAPACITY - at
      {
        ghost var before := net;
        ProcessFromStep(before, at);
        if dirty {
          ProcessOne(at, now);
        }
        ProcessFromEnd(net, at + 1);
        at, dirty := NextDirty(at);
      }
      ProcessFromEnd(net, at);
    }

    /** `update` of one client. If a message is cut off the connection is over, and the client forgotten. */
    method UpdateClient(c: ClientId)
      requires Valid() && c in clients
      modifies this`net, this`clients, records
      ensures Valid() && records == old(records)
      ensures c in old(net).peers
      ensures net == old(net).(peers := WithPeer(old(net).peers, c, Flush(old(net).peers[c])))
    {
      hide EntryStorage.Valid, Flush;
      ghost var p := net.peers[c];
      clients[c].Update(p);
      Forget(c, Flush(p));
    }

    /** The connection's peer has become `p`; a client whose connection is over is forgotten. */
    method Forget(c: ClientId, ghost p: Peer)
      requires c in clients && clients[c].Holds(p)
      requires storage.Valid() && storage.state == net.store
      requires nextEntryId == net.nextId && idAssignments == net.assignments
      requires ClientsMatch(clients - {c}, records, net.peers - {c}) && c in net.peers && clients[c] in records
      requires forall d | d in clients && d != c :: clients[d] != clients[c]
      modifies this`net, this`clients
      ensures Valid()
      ensures net == old(net).(peers := WithPeer(old(net).peers, c, p))
    {
      hide EntryStorage.Valid;
      OneChanged(clients, records, net.peers, c, p);
      if clients[c].link.status == CutOff {
        clients := clients - {c};
      }
      net := net.(peers := WithPeer(net.peers, c, p));
    }

    /** Every client's line is handed over, in any order. */
    method UpdateClients()
      requires Valid()
      modifies this`net, this`clients, records
      ensures Valid() && records == old(records)
      ensures net == old(net).(peers := FlushAll(old(net).peers))
    {
      hide Valid, Flush, Halfway, WithPeer, FlushAll;
      ClientsKnown();
      var left := clients.Keys;
      ghost var peers := net.peers;
      HalfwayEnds(peers);
      while left != {}
        invariant Valid() && left <= peers.Keys && records == old(records)
        invariant net == old(net).(peers := Halfway(peers, left))
        decreases left
      {
        var c :| c in left;
        HalfwayStep(peers, left, c);
        ClientsKnown();
        UpdateClient(c);
        left := left - {c};
      }
    }

    /** The server's timer. */
    method Update(now: int)
      requires Valid() && now == net.now
      modifies Repr()
      ensures Valid() && fresh(Repr() - old(Repr()))
      ensures net == if old(clients) == map[] then old(net) else Next(old(net), Process)
      ensures old(clients) == map[] <==> old(net).peers == map[]
    {
      hide ProcessFrom, FlushAll, Valid;
      ClientsKnown();
      NoneIff(clients, net.peers);
      if clients != map[] {
        ProcessUpdates(now);
        UpdateClients();
      }
    }

    /** The socket of a client takes bytes out of the ring. */
    method OnWriteReady(c: ClientId, n: nat)
      requires Valid() && c in clients && n <= clients[c].link.held
      modifies this`net, records
      ensures Valid() && records == old(records)
      ensures Enabled(old(net), Depart(c, n)) && net == Next(old(net), Depart(c, n))
    {
      hide EntryStorage.Valid;
      ClientKnown(c);
      clients[c].link := Departed(clients[c].link, n);
      net := Next(net, Depart(c, n));
    }

    /** Publishes every assignment the client does not know, with its value if there is one, and declares the handshake
        finished. The source walks the assignments in the order of their ids. */
    method HandleDoHandshakeForClient(c: ClientId, now: int)
      requires Valid() && now == net.now
      modifies this`net, records
      ensures Valid() && records == old(records)
      ensures c in old(clients) <==> c in old(net).peers
      ensures c !in old(clients) ==> net == old(net)
      ensures c in old(clients) ==>
                net == old(net).(peers := old(net).peers[c := Greet(old(net), old(net).peers[c])])
    {
      hide ClientsMatch, EntryStorage.Valid, Greet;
      ClientsKnown();
      if c in clients {
        GreetClient(c, now);
      }
    }

    method GreetClient(c: ClientId, now: int)
      requires Valid() && c in clients && now == net.now
      modifies this`net, records
      ensures Valid() && records == old(records)
      ensures c in old(net).peers
      ensures net == old(net).(peers := old(net).peers[c := Greet(old(net), old(net).peers[c])])
    {
      hide ClientsMatch, GreetId, EntryStorage.TableMatches;
      assert old(net).peers[c := old(net).peers[c]] == old(net).peers by { PeerKnown(c); }
      ClientKnown(c);
      for id := 0 to U16
        invariant Valid() && records == old(records) && c in clients && c in net.peers && clients == old(clients)
        invariant net == old(net).(peers := old(net).peers[c := net.peers[c]])
        invariant GreetFrom(old(net), net.peers[c], id) == GreetFrom(old(net), old(net).peers[c], 0)
      {
        ghost var before := net;
        GreetIdLocal(old(net), before, before.peers[c], id);
        GreetOne(c, id, now);
        GreetStep(old(net), before.peers[c], id);
      }
      FinishHandshake(c);
    }

    /** A message from a client: the dispatch of the server takes the step of the protocol. Messages of unconnected
        clients are dropped. */
    method OnMessage(c: ClientId, m: UpMsg, now: int)
      requires Valid() && now == net.now
      requires c in net.peers ==> net.peers[c].up != [] && net.peers[c].up[0] == m
      modifies this`net, this`clients, records
      ensures Valid() && records == old(records)
      ensures net == Next(old(net), match m case TimeRequest => AnswerTime(c) case Ready => AnswerReady(c))
    {
      hide ClientsMatch, EntryStorage.Valid, GreetFrom;
      ClientsKnown();
      if c !in clients {
        return;
      }
      ghost var net0, popped := net, net.peers[c].(up := net.peers[c].up[1..]);
      ClientKnown(c);
      TakeUp(c);
      match m {
      case TimeRequest =>
        AnswerTimeTo(c);
      case Ready =>
        HandleDoHandshakeForClient(c, now);
        ReplicationLaws.GreetKeepsLink(net0, popped);
        SameGreet(net0, net0.(peers := net0.peers[c := popped]), popped);
      }
    }

    /** The connection hands over the client's first message. */
    ghost method TakeUp(c: ClientId)
      requires Valid() && c in net.peers && net.peers[c].up != []
      modifies this`net
      ensures Valid()
      ensures net == old(net).(peers := old(net).peers[c := old(net).peers[c].(up := old(net).peers[c].up[1..])])
    {
      hide EntryStorage.Valid;
      net := net.(peers := net.peers[c := net.peers[c].(up := net.peers[c].up[1..])]);
    }

    method AnswerTimeTo(c: ClientId)
      requires Valid() && c in clients
      modifies this`net, this`clients, records
      ensures Valid() && records == old(records) && c in old(net).peers
      ensures net == old(net).(peers := WithPeer(old(net).peers, c, Post(old(net).peers[c])))
    {
      hide EntryStorage.Valid, Post;
      ghost var p := net.peers[c];
      clients[c].EnqueueImmediate(p);
      Forget(c, Post(p));
    }

    method MarkInUse(c: ClientId)
      requires Valid() && c in clients
      modifies this`net, records
      ensures Valid() && records == old(records)
      ensures c in old(net).peers
      ensures net == old(net).(peers := old(net).peers[c := old(net).peers[c].(inUse := true)])
    {
      hide EntryStorage.Valid;
      clients[c].inUse := true;
      net := net.(peers := net.peers[c := net.peers[c].(inUse := true)]);
    }

    lemma PeerKnown(c: ClientId)
      requires Valid() && c in clients
      ensures c in net.peers
    {
    }

    lemma ClientKnown(c: ClientId)
      requires Valid() && c in clients
      ensures c in net.peers && clients[c] in records && clients[c].Holds(net.peers[c])
      ensures net.peers[c].link.status != CutOff
      ensures idAssignments == net.assignments
    {
    }

    method GreetOne(c: ClientId, id: EntryId, now: int)
      requires Valid() && c in clients && now == net.now
      modifies this`net, records
      ensures Valid() && records == old(records) && clients == old(clients)
      ensures c in old(net).peers
      ensures net == old(net).(peers := old(net).peers[c := GreetId(old(net), old(net).peers[c], id)])
    {
      hide Valid, GetValueFromId;
      ClientKnown(c);
      if id in idAssignments && !clients[c].IsKnown(id) {
        PublishTo(c, id, idAssignments[id]);
        var value := ValueOf(id);
        if value.Some? {
          EnqueueTo(c, Upd(now, id, value.value));
        }
      }
    }

    method ValueOf(id: EntryId) returns (value: Option<Value>)
      requires Valid()
      ensures value == GetValueFromId(net.store, id)
    {
      value := storage.GetEntryValueFromId(id);
    }

    method FinishHandshake(c: ClientId)
      requires Valid() && c in clients
      modifies this`net, records
      ensures Valid() && records == old(records)
      ensures c in old(net).peers
      ensures net == old(net).(peers := old(net).peers[
                       c := Enqueue(old(net).peers[c], Finished(old(net).nextId)).(inUse := true)])
    {
      hide EntryStorage.Valid, ClientsMatch;
      ClientKnown(c);
      EnqueueTo(c, Finished(nextEntryId));
      MarkInUse(c);
    }
  }

  lemma NoneIff(clients: map<ClientId, ServerClient>, peers: map<ClientId, Peer>)
    requires clients.Keys == peers.Keys
    ensures clients == map[] <==> peers == map[]
  {
  }

  lemma OnIdAssignedGrows(st: State, id: EntryId, path: Path)
    ensures |st.entries| <= |OnIdAssigned(st, id, path).0.entries|
  {
  }

  lemma ProcessFromStep(net: Net, h: Handle)
    requires h < |net.store.entries| && h < CAPACITY
    ensures ProcessFrom(net, h)
            == ProcessFrom(if net.store.entries[h].dirty then ProcessEntry(net, h) else net, h + 1)
    ensures ProcessEntry(net, h).now == net.now
    ensures |net.store.entries| <= |ProcessEntry(net, h).store.entries|
  {
  }

  lemma ProcessFromEnd(net: Net, h: Handle)
    ensures h >= |net.store.entries| ==> ProcessFrom(net, h) == net
    ensures ProcessFrom(net, CAPACITY) == net
  {
  }

  lemma GreetStep(net: Net, p: Peer, id: nat)
    requires id < U16
    ensures GreetFrom(net, p, id) == GreetFrom(net, GreetId(net, p, id), id + 1)
  {
  }

  /** Greeting reads only the server's part of the state. */
  lemma GreetIdLocal(net: Net, net': Net, p: Peer, id: EntryId)
    requires net'.store == net.store && net'.assignments == net.assignments && net'.now == net.now
    ensures GreetId(net', p, id) == GreetId(net, p, id)
  {
  }

  lemma {:induction false} SameGreetFrom(net: Net, net': Net, p: Peer, id: nat)
    requires net' == net.(peers := net'.peers)
    ensures GreetFrom(net', p, id) == GreetFrom(net, p, id)
    decreases U16 - id
  {
    if id < U16 {
      GreetIdLocal(net, net', p, id);
      SameGreetFrom(net, net', GreetId(net, p, id), id + 1);
    }
  }

  lemma SameGreet(net: Net, net': Net, p: Peer)
    requires net' == net.(peers := net'.peers)
    ensures Greet(net', p) == Greet(net, p)
  {
    SameGreetFrom(net, net', p, 0);
  }

  /** `network_client`: takes what the server sends. */
  class NetworkClient {
    const storage: EntryStorage
    var phase: Phase
    var outgoing: seq<UpMsg>

    ghost var peer: Peer  // the connection the client is the other end of

    ghost predicate Valid()
      reads this, storage, storage.entries, storage.entries.slots, storage.objects
    {
      storage.Valid() && storage.state == peer.store && phase == peer.phase && outgoing == peer.up
    }

    ghost function Repr(): set<object>
      reads this, storage
    {
      {this} + storage.Repr()
    }

    /** Connected, with a fresh storage. */
    constructor ()
      ensures Valid() && fresh(Repr()) && peer == Connected
    {
      storage := new EntryStorage();
      phase, outgoing := TimeSync, [TimeRequest];
      peer := Connected;
    }

    /** The parser hands over a value as the codec reads it. A storage call that throws changes nothing else: the
        exception is caught around it. */
    method OnMessage(m: Msg, resync: Option<int>)
      requires Valid()
      modifies Repr()
      ensures Valid() && fresh(Repr() - old(Repr()))
      ensures peer == Receive(old(peer), m, resync)
    {
      hide EntryStorage.TableMatches, OnUpdated, OnDeleted, OnIdAssigned, Resync;
      match m {
      case Upd(time, id, value) =>
        var _ := storage.OnEntryUpdated(id, ReadBack(value), time, 0);
      case Del(time, id) =>
        var _ := storage.OnEntryDeleted(id, time, 0);
      case Assign(id, path) =>
        var _ := storage.OnEntryIdAssigned(id, path);
      case Finished(_) =>
        phase := InUse;
      case TimeReply =>
        if resync.Some? {
          storage.OnClockResync(resync.value);
        }
        if phase == TimeSync {
          outgoing := outgoing + [Ready];
          phase := Handshake;
        }
      }
      peer := Receive(peer, m, resync);
    }
  }
}
