/** What the server's timer does (`process_updates` in src/net/server.cpp): which messages come in line for a client, and
    that nothing is left to be told. */
module TimerLaws {
  import opened Wrappers
  import opened Bytes
  import opened Codec
  import opened Store
  import opened Links
  import opened Replication
  import opened PipeLaws
  import opened ReplicationLaws

  // ---------------------------------------------------------------- nothing is left to do

  ghost predicate CleanBelow(net: Net, h: nat) {
    forall k | 0 <= k < h && k < |net.store.entries| :: !net.store.entries[k].dirty
  }

  ghost predicate AllClean(st: State) {
    forall k | 0 <= k < |st.entries| :: !st.entries[k].dirty
  }

  /** The stores show the same, as of the same times. */
  ghost predicate ShowsSame(a: State, b: State) {
    && a.paths == b.paths && |a.entries| == |b.entries|
    && forall h | 0 <= h < |a.entries| ::
         Shown(a.entries[h]) == Shown(b.entries[h]) && a.entries[h].lastUpdate == b.entries[h].lastUpdate
  }

  lemma SameLookup(a: State, b: State, path: Path)
    requires ShowsSame(a, b)
    ensures Lookup(a, path) == Lookup(b, path)
  {
    if path in a.paths && a.paths[path] < |a.entries| {
      assert Shown(a.entries[a.paths[path]]) == Shown(b.entries[b.paths[path]]);
    }
  }

  lemma ProcessEntryCleans(net: Net, h: Handle)
    requires NetOk(net) && h < |net.store.entries| && net.store.entries[h].dirty && CleanBelow(net, h)
    ensures
      var net' := ProcessEntry(net, h);
      CleanBelow(net', h + 1) && ShowsSame(net.store, net'.store)
  {
    hide ServerOk, PeerOk, AssignId;
    ServedIs(net, h);
    AssignIdKeepsPeers(net, net.store.entries[h].path);
    assert ProcessEntry(net, h).(peers := net.peers) == Served(net, h);
  }

  lemma {:induction false} ProcessCleansFrom(net: Net, h: Handle)
    requires NetOk(net) && CleanBelow(net, h) && |net.store.entries| <= CAPACITY
    ensures
      var net' := ProcessFrom(net, h);
      CleanBelow(net', CAPACITY) && ShowsSame(net.store, net'.store)
    decreases CAPACITY - h
  {
    hide NetOk, ProcessEntry;
    if h < CAPACITY && h < |net.store.entries| {
      if net.store.entries[h].dirty {
        ProcessEntryKeeps(net, h);
        ProcessEntryCleans(net, h);
        ProcessCleansFrom(ProcessEntry(net, h), h + 1);
      } else {
        ProcessCleansFrom(net, h + 1);
      }
    }
  }

  lemma FewEntries(net: Net)
    requires NetOk(net)
    ensures |net.store.entries| <= CAPACITY
  {
  }

  /** After the timer nothing is dirty, and the server shows what it showed. */
  lemma ProcessCleans(net: Net)
    requires NetOk(net)
    ensures
      var net' := Next(net, Process);
      AllClean(net'.store) && ShowsSame(net.store, net'.store)
  {
    hide NetOk, ProcessFrom, ShowsSame;
    FewEntries(net);
    ProcessCleansFrom(net, 0);
    SameNumber(net.store, ProcessFrom(net, 0).store);
  }

  lemma SameNumber(a: State, b: State)
    requires ShowsSame(a, b)
    ensures |b.entries| == |a.entries|
  {
  }

  /** Then it has nothing to put in line. */
  lemma {:induction false} CleanProcess(net: Net, h: Handle)
    requires AllClean(net.store)
    ensures ProcessFrom(net, h) == net
    decreases CAPACITY - h
  {
    if h < CAPACITY && h < |net.store.entries| {
      CleanProcess(net, h + 1);
    }
  }

  // ---------------------------------------------------------------- what comes in line

  predicate Known(e: Entry, published: set<EntryId>) {
    e.netId != ID_NOT_ASSIGNED && e.netId in published
  }

  /** What is due to a client about a dirty entry: its id and path if the client does not know them, and what has become
      of it. `next` is the id it gets if it has none. */
  function Due(e: Entry, published: set<EntryId>, next: EntryId, now: int): seq<Msg> {
    var id := if e.netId == ID_NOT_ASSIGNED then next else e.netId;
    (if Known(e, published) then [] else [Assign(id, e.path)])
    + [if e.deleted then Del(now, id) else Upd(e.lastUpdate, id, e.value)]
  }

  /** What is due about the entries from `h` on. */
  function DueFrom(es: seq<Entry>, published: set<EntryId>, h: nat, next: EntryId, now: int): seq<Msg>
    decreases |es| - h
  {
    if h >= |es| then []
    else if !es[h].dirty then DueFrom(es, published, h + 1, next, now)
    else
      Due(es[h], published, next, now)
      + DueFrom(es, published, h + 1, if es[h].netId == ID_NOT_ASSIGNED then (next + 1) % U16 else next, now)
  }

  lemma {:induction false} DueLocal(es: seq<Entry>, es': seq<Entry>, published: set<EntryId>, id: EntryId,
                                    h: nat, next: EntryId, now: int)
    requires |es'| == |es| && forall k | h <= k < |es| :: es'[k] == es[k] && (es[k].netId == id ==> id == ID_NOT_ASSIGNED)
    ensures DueFrom(es', published + {id}, h, next, now) == DueFrom(es, published, h, next, now)
    decreases |es| - h
  {
    if h < |es| {
      var next' := if es[h].dirty && es[h].netId == ID_NOT_ASSIGNED then (next + 1) % U16 else next;
      DueLocal(es, es', published, id, h + 1, next', now);
    }
  }

  lemma PublishedAssigned(net: Net, c: ClientId)
    requires NetOk(net) && c in net.peers && Intact(net.peers[c])
    ensures net.peers[c].published <= net.assignments.Keys
    ensures net.nextId !in net.peers[c].published && ID_NOT_ASSIGNED !in net.assignments
  {
    hide ValuesOk, ClientOk, Orderly, Inv;
    assert PeerOk(net, net.peers[c]);
  }

  /** Different entries have different ids, or none. */
  lemma OtherId(net: Net, h: Handle, k: Handle)
    requires ServerOk(net.now, net.store, net.nextId, net.assignments)
    requires h < |net.store.entries| && k < |net.store.entries| && h != k
    requires net.store.entries[k].netId != ID_NOT_ASSIGNED
    ensures net.store.entries[k].netId != IdFor(net, h)
  {
    hide Replayable;
    assert net.store.ids[net.store.entries[k].netId] == k;
  }

  /** All that a client's side and the connection have to do with the timer's first half is the line. */
  ghost predicate OnlyLonger(p: Peer, p': Peer) {
    p' == p.(queue := p'.queue, published := p'.published, told := p'.told)
  }

  lemma TellLengthens(p: Peer, id: EntryId, path: Path, m: Msg)
    ensures
      var p' := Tell(p, id, path, m);
      && OnlyLonger(p, p') && p'.published == p.published + {id}
      && p'.queue == p.queue + ((if id in p.published then [] else [Assign(id, path)]) + [m])
  {
  }

  /** What one dirty entry adds. */
  lemma ProcessEntryLine(net: Net, c: ClientId, h: Handle)
    requires NetOk(net) && c in net.peers && Intact(net.peers[c])
    requires h < |net.store.entries| && net.store.entries[h].dirty
    ensures
      var p, e, net' := net.peers[c], net.store.entries[h], ProcessEntry(net, h);
      && c in net'.peers && OnlyLonger(p, net'.peers[c])
      && net'.peers[c].published == p.published + {IdFor(net, h)}
      && net'.peers[c].queue == p.queue + Due(e, p.published, net.nextId, net.now)
      && net'.now == net.now
      && net'.nextId == (if e.netId == ID_NOT_ASSIGNED then (net.nextId + 1) % U16 else net.nextId)
      && net'.store.entries == net.store.entries[h := e.(dirty := false, netId := IdFor(net, h))]
  {
    hide NetOk, ServerOk, Tell, OnIdAssigned;
    var p, e, id := net.peers[c], net.store.entries[h], IdFor(net, h);
    PublishedAssigned(net, c);
    ServerOf(net);
    ServedIs(net, h);
    ToldPeers(net, h);
    TellLengthens(p, id, e.path, if e.deleted then Del(net.now, id) else Upd(e.lastUpdate, id, e.value));
    assert ProcessEntry(net, h).store == Served(net, h).store;
  }

  lemma ServerOf(net: Net)
    requires NetOk(net)
    ensures ServerOk(net.now, net.store, net.nextId, net.assignments)
  {
  }

  lemma OthersKeepTheirs(net: Net, h: Handle)
    requires NetOk(net) && h < |net.store.entries|
    ensures forall k | h < k < |net.store.entries| ::
              net.store.entries[k].netId == IdFor(net, h) ==> IdFor(net, h) == ID_NOT_ASSIGNED
  {
    ServerOf(net);
    hide NetOk, ServerOk;
    forall k | h < k < |net.store.entries| && net.store.entries[k].netId == IdFor(net, h)
      ensures IdFor(net, h) == ID_NOT_ASSIGNED
    {
      if net.store.entries[k].netId != ID_NOT_ASSIGNED {
        OtherId(net, h, k);
      }
    }
  }

  /** The messages that the timer puts in line for a client, exactly; everything else about the client stays. */
  lemma {:induction false} ProcessLine(net: Net, c: ClientId, h: Handle)
    requires NetOk(net) && c in net.peers && Intact(net.peers[c])
    ensures
      var p, net' := net.peers[c], ProcessFrom(net, h);
      && c in net'.peers && OnlyLonger(p, net'.peers[c])
      && net'.peers[c].queue == p.queue + DueFrom(net.store.entries, p.published, h, net.nextId, net.now)
    decreases CAPACITY - h
  {
    hide NetOk, ProcessEntry, Due, IdFor, DueFrom, Tell;
    FewEntries(net);
    var p, es := net.peers[c], net.store.entries;
    DueStep(es, p.published, h, net.nextId, net.now);
    if h < CAPACITY && h < |es| {
      if es[h].dirty {
        var next := ProcessEntry(net, h);
        ProcessEntryLine(net, c, h);
        ProcessEntryKeeps(net, h);
        OthersKeepTheirs(net, h);
        DueLocal(es, next.store.entries, p.published, IdFor(net, h), h + 1, next.nextId, net.now);
        ProcessLine(next, c, h + 1);
      } else {
        ProcessLine(net, c, h + 1);
      }
    }
  }

  lemma DueStep(es: seq<Entry>, published: set<EntryId>, h: nat, next: EntryId, now: int)
    ensures h >= |es| ==> DueFrom(es, published, h, next, now) == []
    ensures h < |es| && !es[h].dirty ==>
              DueFrom(es, published, h, next, now) == DueFrom(es, published, h + 1, next, now)
    ensures h < |es| && es[h].dirty ==>
              var rest := DueFrom(es, published, h + 1, if es[h].netId == ID_NOT_ASSIGNED then (next + 1) % U16 else next, now);
              DueFrom(es, published, h, next, now) == Due(es[h], published, next, now) + rest
  {
  }
}
