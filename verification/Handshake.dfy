/** What the server tells a client that has finished its half of the handshake (`handle_do_handshake_for_client` in
    src/net/server.cpp), and how a client gets through its own. */
module Handshake {
  import opened Wrappers
  import opened Bytes
  import opened Codec
  import opened Store
  import opened Links
  import opened Replication
  import StoreEffects

  function IdOf(m: Msg): int {
    match m
    case Assign(id, _) => id
    case Upd(_, id, _) => id
    case Del(_, id) => id
    case _ => -1
  }

  /** The client does not know the id yet, and the message is its path, or the value that the server shows for it. */
  predicate News(net: Net, published: set<EntryId>, m: Msg) {
    match m
    case Assign(id, path) => id in net.assignments && id !in published && path == net.assignments[id]
    case Upd(time, id, value) =>
      && id in net.assignments && id !in published
      && time == net.now && GetValueFromId(net.store, id) == Some(value)
    case _ => false
  }

  /** By ascending ids, and the path of each before its value. */
  ghost predicate Ascending(ms: seq<Msg>) {
    forall i, j | 0 <= i < j < |ms| ::
      IdOf(ms[i]) < IdOf(ms[j]) || (IdOf(ms[i]) == IdOf(ms[j]) && ms[i].Assign? && ms[j].Upd?)
  }

  /** The messages with ids from `from` up to `to`, each once. */
  ghost predicate TellsOnce(net: Net, published: set<EntryId>, ms: seq<Msg>, from: int, to: int) {
    && Ascending(ms)
    && forall m :: m in ms <==> News(net, published, m) && from <= IdOf(m) < to
  }

  lemma GreetIdTells(net: Net, p: Peer, published: set<EntryId>, id: EntryId) returns (ms: seq<Msg>)
    requires id in p.published <==> id in published
    ensures TellsOnce(net, published, ms, id, id + 1)
    ensures GreetId(net, p, id).queue == p.queue + ms && GreetId(net, p, id).told == p.told + ms
    ensures forall i: EntryId | i != id :: i in GreetId(net, p, id).published <==> i in p.published
  {
    ms := [];
    if id in net.assignments && id !in p.published {
      ms := [Assign(id, net.assignments[id])];
      var shown := GetValueFromId(net.store, id);
      hide GetValueFromId;
      if shown.Some? {
        ms := ms + [Upd(net.now, id, shown.value)];
        assert p.queue + ms == (p.queue + ms[..1]) + ms[1..];
        assert p.told + ms == (p.told + ms[..1]) + ms[1..];
      }
    }
  }

  lemma TellsThen(net: Net, published: set<EntryId>, a: seq<Msg>, b: seq<Msg>, from: int, mid: int, to: int)
    requires from <= mid <= to && TellsOnce(net, published, a, from, mid) && TellsOnce(net, published, b, mid, to)
    ensures TellsOnce(net, published, a + b, from, to)
  {
    hide News;
    var ms := a + b;
    forall i, j | 0 <= i < j < |ms|
      ensures IdOf(ms[i]) < IdOf(ms[j]) || (IdOf(ms[i]) == IdOf(ms[j]) && ms[i].Assign? && ms[j].Upd?)
    {
      if i < |a| <= j {
        assert ms[i] in a && ms[j] in b;
      }
    }
  }

  lemma {:induction false} GreetFromTells(net: Net, p: Peer, published: set<EntryId>, id: nat) returns (ms: seq<Msg>)
    requires id <= U16 && forall i: EntryId | id <= i :: i in p.published <==> i in published
    ensures TellsOnce(net, published, ms, id, U16)
    ensures GreetFrom(net, p, id).queue == p.queue + ms && GreetFrom(net, p, id).told == p.told + ms
    decreases U16 - id
  {
    hide GreetId, News, TellsOnce;
    if id >= U16 {
      ms := [];
      Nothing(net, published);
    } else {
      var first := GreetIdTells(net, p, published, id);
      var rest := GreetFromTells(net, GreetId(net, p, id), published, id + 1);
      TellsThen(net, published, first, rest, id, id + 1, U16);
      ms := first + rest;
      assert p.queue + ms == (p.queue + first) + rest && p.told + ms == (p.told + first) + rest;
    }
  }

  lemma Nothing(net: Net, published: set<EntryId>)
    ensures TellsOnce(net, published, [], U16, U16)
  {
  }

  lemma NewsHasId(net: Net, published: set<EntryId>, m: Msg)
    requires News(net, published, m)
    ensures 0 <= IdOf(m) < U16
  {
  }

  /** What comes in line for the client, exactly: every id that it does not know, with its path and with the value that
      the server shows for it, if any, each once, by ascending ids and the path first; then the end of the handshake. */
  lemma GreetTells(net: Net, p: Peer) returns (ms: seq<Msg>)
    ensures Ascending(ms) && forall m :: m in ms <==> News(net, p.published, m)
    ensures Greet(net, p).queue == p.queue + ms + [Finished(net.nextId)] && Greet(net, p).inUse
    ensures Greet(net, p).told == p.told + ms + [Finished(net.nextId)]
  {
    ms := GreetFromTells(net, p, p.published, 0);
    forall m ensures m in ms <==> News(net, p.published, m) {
      if News(net, p.published, m) {
        NewsHasId(net, p.published, m);
      }
    }
    hide GreetFrom, News;
  }

  // ---------------------------------------------------------------- the client

  /** What handling a message makes of a client's progress: a time reply takes it from the first phase to the second, and
      has it report that it is ready, once; the end of the handshake puts it in use; nothing else does either. */
  lemma ConsumeProgress(net: Net, c: ClientId, resync: Option<int>)
    requires Enabled(net, Consume(c, resync))
    ensures c in Next(net, Consume(c, resync)).peers
    ensures
      var p, p' := net.peers[c], Next(net, Consume(c, resync)).peers[c];
      && p'.down == p.down[1..] && p'.queue == p.queue && p'.inUse == p.inUse
      && (p'.phase == InUse <==> p.phase == InUse || p.down[0].Finished?)
      && (p'.phase == Handshake <==>
            (p.phase == Handshake && !p.down[0].Finished?) || (p.phase == TimeSync && p.down[0] == TimeReply))
      && p'.up == p.up + if p.phase == TimeSync && p.down[0] == TimeReply then [Ready] else []
  {
    hide OnIdAssigned, OnUpdated, OnDeleted, Resync;
  }

  /** A time reply changes nothing that the client shows; if it sets the clock, the times of all updates move by the same
      offset. */
  lemma ReplyShifts(net: Net, c: ClientId, resync: Option<int>, path: Path)
    requires Enabled(net, Consume(c, resync)) && net.peers[c].down[0] == TimeReply
    ensures c in Next(net, Consume(c, resync)).peers
    ensures
      var st, st' := net.peers[c].store, Next(net, Consume(c, resync)).peers[c].store;
      var last, last' := StoreEffects.LastUpdate(st, path), StoreEffects.LastUpdate(st', path);
      && Lookup(st', path) == Lookup(st, path) && st'.paths == st.paths && st'.ids == st.ids
      && last' == if last == 0 || resync.None? then last else last - resync.value
  {
  }
}
