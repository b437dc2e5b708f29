/** Bursts that the ring cannot take: a line that fills it exactly is lost, one that runs over it ends the connection. */
module Bursts {
  import opened Wrappers
  import opened Bytes
  import opened Codec
  import opened Store
  import opened Links
  import opened Replication
  import opened PipeLaws
  import opened ReplicationLaws
  import opened TimerLaws
  import opened Losses

  // ---------------------------------------------------------------- one line

  /** A line that fills the ring exactly is gone as a whole: nothing waits any more, in the ring or before it. */
  lemma {:induction false} ExactFillIsLost(p: Peer)
    requires p.queue != [] && p.link.held + Size(p.queue) == RING && forall m | m in p.queue :: Sendable(m)
    ensures Flush(p) == HandOver(p, |p.queue|).(link := p.link.(status := Lossy, held := 0))
    decreases |p.queue|
  {
    hide Sendable, BodySize;
    var m := p.queue[0];
    var next := HandOver(p, 1).(link := AfterWrite(p.link, BodySize(m)));
    assert Sendable(m);
    if |p.queue| == 1 {
      assert p.queue[1..] == [] && p.queue[..1] == p.queue;
      assert Flush(next) == next;
    } else {
      assert Size(p.queue[1..]) >= HEADER;
      assert forall x | x in p.queue[1..] :: x in p.queue;
      ExactFillIsLost(next);
      assert p.down + p.queue[..1] + p.queue[1..] == p.down + p.queue;
      assert p.queue[1..][..|p.queue| - 1] == p.queue[1..] && p.queue[..|p.queue|] == p.queue;
      assert p.queue[1..][|p.queue| - 1..] == p.queue[|p.queue|..];
    }
  }

  /** If the messages before one leave a byte free, and its header finds room but its body does not, the connection is
      over. */
  lemma {:induction false} OverflowCutsOff(p: Peer, k: nat)
    requires k < |p.queue| && forall i | 0 <= i <= k :: Sendable(p.queue[i])
    requires p.link.held + Size(p.queue[..k]) < RING
    requires Judge(p.link.start, p.link.held + Size(p.queue[..k]), BodySize(p.queue[k])) == Cut
    ensures Flush(p).link.status == CutOff
    decreases k
  {
    hide Sendable, BodySize;
    assert Sendable(p.queue[0]);
    if k == 0 {
      assert p.queue[..0] == [];
    } else {
      SizeFirst(p.queue, k - 1);
      assert forall i | 0 <= i < k :: p.queue[1..][i] == p.queue[i + 1];
      OverflowCutsOff(HandOver(p, 1).(link := AfterWrite(p.link, BodySize(p.queue[0]))), k - 1);
    }
  }

  // ---------------------------------------------------------------- what is due, read off the entries

  lemma {:induction false} NothingDue(es: seq<Entry>, published: set<EntryId>, h: nat, h': nat, next: EntryId, now: int)
    requires h <= h' <= |es| && forall k | h <= k < h' :: !es[k].dirty
    ensures DueFrom(es, published, h, next, now) == DueFrom(es, published, h', next, now)
    decreases h' - h
  {
    if h < h' {
      NothingDue(es, published, h + 1, h', next, now);
    }
  }

  /** The first dirty entry from `h` on is `k`. */
  lemma FirstDue(es: seq<Entry>, published: set<EntryId>, h: nat, k: nat, next: EntryId, now: int)
    requires h <= k < |es| && es[k].dirty && forall i | h <= i < k :: !es[i].dirty
    ensures
      DueFrom(es, published, h, next, now)
      == Due(es[k], published, next, now)
         + DueFrom(es, published, k + 1, if es[k].netId == ID_NOT_ASSIGNED then (next + 1) % U16 else next, now)
  {
    hide Due;
    NothingDue(es, published, h, k, next, now);
  }

  // ---------------------------------------------------------------- four updates that fill a ring

  /** A dirty entry that the client knows, with a byte string of this length. */
  ghost predicate RawDue(p: Peer, e: Entry, length: nat) {
    e.dirty && !e.deleted && Known(e, p.published) && e.value.Raw? && |e.value.raw| == length
  }

  /** These are the only dirty entries. */
  ghost predicate OnlyDirty(es: seq<Entry>, hs: seq<Handle>) {
    && (forall i, j | 0 <= i < j < |hs| :: hs[i] < hs[j])
    && forall h | 0 <= h < |es| :: es[h].dirty <==> h in hs
  }

  lemma RawFrame(p: Peer, e: Entry, length: nat, next: EntryId, now: int)
    requires RawDue(p, e, length) && length < SIZE_LIMIT
    ensures e.dirty && e.netId != ID_NOT_ASSIGNED
    ensures Due(e, p.published, next, now) == [Upd(e.lastUpdate, e.netId, e.value)]
    ensures Sendable(Upd(e.lastUpdate, e.netId, e.value))
    ensures FrameSize(Upd(e.lastUpdate, e.netId, e.value)) == 23 + length
  {
  }

  lemma FourDue(net: Net, p: Peer, a: Handle, b: Handle, d: Handle, e: Handle)
    requires a < b < d < e < |net.store.entries| && OnlyDirty(net.store.entries, [a, b, d, e])
    requires RawDue(p, net.store.entries[a], 254) && RawDue(p, net.store.entries[b], 254)
    requires RawDue(p, net.store.entries[d], 254) && RawDue(p, net.store.entries[e], 170)
    ensures
      var due := DueFrom(net.store.entries, p.published, 0, net.nextId, net.now);
      |due| == 4 && Size(due) == RING && forall m | m in due :: Sendable(m)
  {
    hide RawDue, Sendable, FrameSize, Due, DueFrom;
    var es, ids := net.store.entries, p.published;
    assert forall h | 0 <= h < |es| :: es[h].dirty <==> h in [a, b, d, e];
    RawFrame(p, es[a], 254, net.nextId, net.now);
    RawFrame(p, es[b], 254, net.nextId, net.now);
    RawFrame(p, es[d], 254, net.nextId, net.now);
    RawFrame(p, es[e], 170, net.nextId, net.now);
    FirstDue(es, ids, 0, a, net.nextId, net.now);
    FirstDue(es, ids, a + 1, b, net.nextId, net.now);
    FirstDue(es, ids, b + 1, d, net.nextId, net.now);
    FirstDue(es, ids, d + 1, e, net.nextId, net.now);
    NothingDue(es, ids, e + 1, |es|, net.nextId, net.now);
    DueStep(es, ids, |es|, net.nextId, net.now);
    FourSizes(Upd(es[a].lastUpdate, es[a].netId, es[a].value), Upd(es[b].lastUpdate, es[b].netId, es[b].value),
              Upd(es[d].lastUpdate, es[d].netId, es[d].value), Upd(es[e].lastUpdate, es[e].netId, es[e].value));
  }

  lemma FourSizes(a: Msg, b: Msg, d: Msg, e: Msg)
    ensures [a] + ([b] + ([d] + ([e] + []))) == [a, b, d, e]
    ensures Size([a, b, d, e]) == FrameSize(a) + FrameSize(b) + FrameSize(d) + FrameSize(e)
  {
    hide FrameSize;
    SizeCons(a, [b] + ([d] + ([e] + [])));
    SizeCons(b, [d] + ([e] + []));
    SizeCons(d, [e] + []);
    SizeCons(e, []);
  }

  /** Nothing waits for the client, and its ring is empty, in whatever position. Four entries it knows are set to byte
      strings of 254, 254, 254 and 170 bytes: 277 + 277 + 277 + 193 = 1024 bytes. Every write succeeds; nothing is dirty,
      in line, or in the ring afterwards, and the client has none of the four. */
  lemma FilledRingLosesUpdates(net: Net, c: ClientId, a: Handle, b: Handle, d: Handle, e: Handle)
    requires NetOk(net) && c in net.peers && Intact(net.peers[c])
    requires net.peers[c].queue == [] && net.peers[c].down == [] && net.peers[c].link.held == 0
    requires a < b < d < e < |net.store.entries| && OnlyDirty(net.store.entries, [a, b, d, e])
    requires RawDue(net.peers[c], net.store.entries[a], 254) && RawDue(net.peers[c], net.store.entries[b], 254)
    requires RawDue(net.peers[c], net.store.entries[d], 254) && RawDue(net.peers[c], net.store.entries[e], 170)
    ensures
      var net' := Next(net, Process);
      && AllClean(net'.store) && ShowsSame(net.store, net'.store)
      && c in net'.peers && !Intact(net'.peers[c])
      && net'.peers[c].queue == [] && net'.peers[c].link.held == 0 && net'.peers[c].store == net.peers[c].store
  {
    hide NetOk, ProcessFrom, DueFrom, RawDue, Sendable, Flush, ShowsSame;
    FourDue(net, net.peers[c], a, b, d, e);
    ProcessCleans(net);
    ProcessLine(net, c, 0);
    var p := ProcessFrom(net, 0).peers[c];
    var due := DueFrom(net.store.entries, net.peers[c].published, 0, net.nextId, net.now);
    assert net.peers[c].queue + due == due;
    ExactFillIsLost(p);
  }

  // ---------------------------------------------------------------- three arrays that end a connection

  /** A new entry with a short path and an array of 49 integers. */
  ghost predicate ArrayDue(e: Entry) {
    && e.dirty && !e.deleted && e.netId == ID_NOT_ASSIGNED && |e.path| == 4
    && e.value.Int64Array? && |e.value.int64s| == 49
  }

  lemma ArrayFrames(e: Entry, published: set<EntryId>, id: EntryId, now: int)
    requires ArrayDue(e)
    ensures Due(e, published, id, now) == [Assign(id, e.path), Upd(e.lastUpdate, id, e.value)]
    ensures Sendable(Assign(id, e.path)) && Sendable(Upd(e.lastUpdate, id, e.value))
    ensures FrameSize(Assign(id, e.path)) == 18 && FrameSize(Upd(e.lastUpdate, id, e.value)) == 415
  {
    Widths();
    EncodedLength(8, Unsigned64s(e.value.int64s));
  }

  lemma SixSizes(a: Msg, u: Msg, b: Msg, v: Msg, d: Msg, w: Msg)
    ensures [a, u] + ([b, v] + ([d, w] + [])) == [a, u, b, v, d, w]
    ensures Size([a, u, b, v, d, w][..5])
            == FrameSize(a) + FrameSize(u) + FrameSize(b) + FrameSize(v) + FrameSize(d)
  {
    assert [a, u, b, v, d, w][..5] == [a, u, b, v, d];
    hide FrameSize;
    SizeCons(a, [u] + ([b] + ([v] + ([d] + []))));
    SizeCons(u, [b] + ([v] + ([d] + [])));
    SizeCons(b, [v] + ([d] + []));
    SizeCons(v, [d] + []);
    SizeCons(d, []);
    assert [a] + ([u] + ([b] + ([v] + ([d] + [])))) == [a, u, b, v, d];
  }

  lemma ThreeDue(net: Net, p: Peer, a: Handle, b: Handle, d: Handle)
    requires a < b < d < |net.store.entries| && OnlyDirty(net.store.entries, [a, b, d])
    requires ArrayDue(net.store.entries[a]) && ArrayDue(net.store.entries[b]) && ArrayDue(net.store.entries[d])
    ensures
      var due := DueFrom(net.store.entries, p.published, 0, net.nextId, net.now);
      && |due| == 6 && (forall i | 0 <= i < 6 :: Sendable(due[i]))
      && Size(due[..5]) == 884 && FrameSize(due[5]) == 415
  {
    hide ArrayDue, Sendable, FrameSize, Due, DueFrom;
    var es, ids := net.store.entries, p.published;
    var i: EntryId := net.nextId;
    var j: EntryId := (i + 1) % U16;
    var k: EntryId := (j + 1) % U16;
    assert forall h | 0 <= h < |es| :: es[h].dirty <==> h in [a, b, d];
    ArrayIs(es[a]);
    ArrayIs(es[b]);
    ArrayIs(es[d]);
    ArrayFrames(es[a], ids, i, net.now);
    ArrayFrames(es[b], ids, j, net.now);
    ArrayFrames(es[d], ids, k, net.now);
    FirstDue(es, ids, 0, a, i, net.now);
    FirstDue(es, ids, a + 1, b, j, net.now);
    FirstDue(es, ids, b + 1, d, k, net.now);
    NothingDue(es, ids, d + 1, |es|, (k + 1) % U16, net.now);
    DueStep(es, ids, |es|, (k + 1) % U16, net.now);
    SixSizes(Assign(i, es[a].path), Upd(es[a].lastUpdate, i, es[a].value),
             Assign(j, es[b].path), Upd(es[b].lastUpdate, j, es[b].value),
             Assign(k, es[d].path), Upd(es[d].lastUpdate, k, es[d].value));
  }

  lemma ArrayIs(e: Entry)
    requires ArrayDue(e)
    ensures e.dirty && e.netId == ID_NOT_ASSIGNED
  {
  }

  /** A client for which nothing waits, its ring empty at position 38, where a time reply and the end of the handshake have
      left it. The server creates three entries with paths of four bytes and sets each to an array of 49 64-bit integers.
      The next timer writes 18 + 415 + 18 + 415 + 18 bytes and the last header, and then ends the connection; though
      every message could be written, by itself. */
  lemma BurstEndsConnection(net: Net, c: ClientId, a: Handle, b: Handle, d: Handle)
    requires NetOk(net) && c in net.peers && Intact(net.peers[c])
    requires net.peers[c].queue == [] && net.peers[c].link.start == 38 && net.peers[c].link.held == 0
    requires a < b < d < |net.store.entries| && OnlyDirty(net.store.entries, [a, b, d])
    requires ArrayDue(net.store.entries[a]) && ArrayDue(net.store.entries[b]) && ArrayDue(net.store.entries[d])
    ensures forall m | m in Line(net, net.peers[c]) :: Sendable(m)
    ensures c !in Next(net, Process).peers
  {
    hide NetOk, ProcessFrom, DueFrom, ArrayDue, Sendable, Flush, BodySize;
    ThreeDue(net, net.peers[c], a, b, d);
    ProcessLine(net, c, 0);
    var p := ProcessFrom(net, 0).peers[c];
    var due := DueFrom(net.store.entries, net.peers[c].published, 0, net.nextId, net.now);
    assert net.peers[c].queue + due == due;
    OverflowCutsOff(p, 5);
  }
}
