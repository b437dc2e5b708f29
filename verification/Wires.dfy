/** The bytes between server and clients in every reachable state, and why the way up needs no ring. */
module Wires {
  import opened Wrappers
  import opened Bytes
  import opened Codec
  import opened Store
  import opened Links
  import opened Replication
  import opened PipeLaws
  import opened ReplicationLaws
  import opened TimerLaws
  import opened Losses

  // ---------------------------------------------------------------- the invariant

  /** What waits in the ring and what has arrived are bytes of the messages on their way, all of which could be
      written. */
  ghost predicate LinkOk(p: Peer) {
    && p.link.start < RING && p.link.held < RING && p.link.at < RING && OnTheWire(p) >= 0
    && forall m | m in p.down :: Sendable(m)
  }

  /** How many requests for the time have not been answered. */
  function Unanswered(p: Peer): nat {
    multiset(p.up)[TimeRequest] + multiset(p.down)[TimeReply] + multiset(p.queue)[TimeReply]
  }

  /** A time reply that has not gone out stands first in line. */
  ghost predicate ReplyFirst(line: seq<Msg>) {
    forall i | 0 < i < |line| :: line[i] != TimeReply
  }

  /** A client asks for the time once at a time, and says that it is ready once, before it is in use. */
  ghost predicate UpOk(p: Peer) {
    && Unanswered(p) <= 1 && ReplyFirst(p.queue)
    && multiset(p.up)[Ready] <= (if p.phase == TimeSync then 0 else 1)
    && (p.inUse ==> p.phase != TimeSync && Ready !in p.up)
  }

  ghost predicate Wired(net: Net) {
    forall c | c in net.peers && Intact(net.peers[c]) :: LinkOk(net.peers[c]) && UpOk(net.peers[c])
  }

  // ---------------------------------------------------------------- every step keeps it

  lemma FlushKeepsLink(p: Peer)
    requires LinkOk(p) && Intact(Flush(p))
    ensures LinkOk(Flush(p))
  {
    hide Flush, Sendable, FrameSize;
    FlushStays(p);
    var k := WholeStops(p);
    StopsWithin(p.link, p.queue, k);
    FlushStops(p, k);
    SizeConcat(p.down, p.queue[..k]);
    assert k == 0 ==> p.queue[..k] == [];
  }

  lemma FlushKeepsUp(p: Peer)
    ensures Unanswered(Flush(p)) == Unanswered(p) && Flush(p).up == p.up && Flush(p).phase == p.phase
    ensures Flush(p).inUse == p.inUse && (ReplyFirst(p.queue) ==> ReplyFirst(Flush(p).queue))
  {
    hide Flush;
    var k := FlushMoves(p);
    assert p.queue == p.queue[..k] + p.queue[k..];
    assert forall i | 0 < i < |p.queue[k..]| :: p.queue[k..][i] == p.queue[k + i];
  }

  lemma PostKeepsLink(p: Peer)
    requires LinkOk(p) && Intact(Post(p))
    ensures LinkOk(Post(p))
  {
    SizeConcat(p.down, [TimeReply]);
    SizeOne(TimeReply);
  }

  lemma PostKeepsUp(p: Peer)
    requires UpOk(p) && p.up != [] && p.up[0] == TimeRequest
    ensures UpOk(Post(Popped(p)))
  {
    assert p.up == [TimeRequest] + p.up[1..];
    assert multiset(p.queue)[TimeReply] == 0;
    assert forall i | 0 < i < |[TimeReply] + p.queue| :: ([TimeReply] + p.queue)[i] in p.queue;
  }

  lemma {:induction false} GreetFromKeepsUp(net: Net, p: Peer, id: nat)
    ensures
      var p' := GreetFrom(net, p, id);
      && Unanswered(p') == Unanswered(p) && p'.up == p.up && p'.phase == p.phase && p'.down == p.down
      && (ReplyFirst(p.queue) ==> ReplyFirst(p'.queue))
    decreases U16 - id
  {
    if id < U16 {
      GreetIdKeepsUp(net, p, id);
      hide GreetId, Unanswered, ReplyFirst;
      GreetFromKeepsUp(net, GreetId(net, p, id), id + 1);
    }
  }

  lemma GreetIdKeepsUp(net: Net, p: Peer, id: EntryId)
    ensures
      var p' := GreetId(net, p, id);
      && Unanswered(p') == Unanswered(p) && p'.up == p.up && p'.phase == p.phase && p'.down == p.down
      && (ReplyFirst(p.queue) ==> ReplyFirst(p'.queue))
  {
  }

  lemma GreetKeepsUp(net: Net, p: Peer)
    requires LinkOk(p) && UpOk(p) && p.up != [] && p.up[0] == Ready
    ensures LinkOk(Greet(net, Popped(p))) && UpOk(Greet(net, Popped(p)))
  {
    hide GreetFrom, Sendable;
    assert p.up == [Ready] + p.up[1..];
    GreetKeepsLink(net, Popped(p));
    GreetFromKeepsUp(net, Popped(p), 0);
  }

  /** All that the handling of a message has to do with the bytes and the way up. */
  lemma HandledIs(p: Peer, resync: Option<int>)
    requires Complete(p)
    ensures
      var m, p' := p.down[0], Handled(p, resync);
      && p'.down == p.down[1..] && p'.queue == p.queue
      && p'.link == Past(p.link, FrameSize(m)) && p'.inUse == p.inUse
      && (p'.up == p.up + if m == TimeReply && p.phase == TimeSync then [Ready] else [])
      && (p'.phase == TimeSync ==> p.phase == TimeSync && m != TimeReply)
  {
    hide OnIdAssigned, OnUpdated, OnDeleted, Resync, FrameSize;
    assert p.up + [] == p.up;
  }

  lemma HandledKeeps(p: Peer, resync: Option<int>)
    requires LinkOk(p) && UpOk(p) && Complete(p)
    ensures LinkOk(Handled(p, resync)) && UpOk(Handled(p, resync))
  {
    hide Sendable, FrameSize, Handled;
    HandledIs(p, resync);
    assert p.down == [p.down[0]] + p.down[1..];
  }

  lemma AfterStepWired(net: Net, c: ClientId, s: Step)
    requires c in net.peers && Intact(net.peers[c]) && LinkOk(net.peers[c]) && UpOk(net.peers[c])
    requires Enabled(net, s) && !LocalStep(s) && !s.Tick? && !s.Process? && !s.Connect? && s.c == c
    ensures
      var p' := AfterStep(net, net.peers[c], s);
      Intact(p') ==> LinkOk(p') && UpOk(p')
  {
    hide Greet, Post, Handled, HarmlessResync, LinkOk, UpOk;
    var p := net.peers[c];
    match s
    case AnswerTime(_) =>
      PoppedLink(p);
      PostKeepsUp(p);
      if Intact(Post(Popped(p))) {
        PostKeepsLink(Popped(p));
      }
    case AnswerReady(_) => GreetKeepsUp(net, p);
    case Depart(_, n) => DepartKeeps(p, n);
    case Arrive(_, n) => ArrivalKeeps(p, n);
    case Consume(_, resync) => HandledKeeps(p, resync);
    case AskTime(_) => AskKeeps(p);
    case _ =>
  }

  lemma PoppedLink(p: Peer)
    requires LinkOk(p)
    ensures LinkOk(Popped(p))
  {
  }

  lemma DepartKeeps(p: Peer, n: nat)
    requires LinkOk(p) && UpOk(p) && n <= p.link.held
    ensures LinkOk(p.(link := Departed(p.link, n))) && UpOk(p.(link := Departed(p.link, n)))
  {
  }

  lemma ArrivalKeeps(p: Peer, n: nat)
    requires LinkOk(p) && UpOk(p) && n <= OnTheWire(p)
    ensures LinkOk(p.(link := Arrived(p.link, n))) && UpOk(p.(link := Arrived(p.link, n)))
  {
  }

  lemma AskKeeps(p: Peer)
    requires LinkOk(p) && UpOk(p) && p.phase == InUse && TimeRequest !in p.up && TimeReply !in p.down + p.queue
    ensures LinkOk(p.(up := p.up + [TimeRequest])) && UpOk(p.(up := p.up + [TimeRequest]))
  {
    assert multiset(p.down + p.queue)[TimeReply] == 0;
  }

  lemma LongerKeeps(p: Peer, p': Peer, due: seq<Msg>)
    requires LinkOk(p) && UpOk(p) && OnlyLonger(p, p') && p'.queue == p.queue + due && TimeReply !in due
    ensures LinkOk(p') && UpOk(p')
  {
  }

  lemma {:induction false} NoReplyDue(es: seq<Entry>, published: set<EntryId>, h: nat, next: EntryId, now: int)
    ensures TimeReply !in DueFrom(es, published, h, next, now)
    decreases |es| - h
  {
    if h < |es| {
      NoReplyDue(es, published, h + 1, if es[h].dirty && es[h].netId == ID_NOT_ASSIGNED then (next + 1) % U16 else next,
                 now);
    }
  }

  lemma TimerWired(net: Net)
    requires NetOk(net) && Wired(net)
    ensures Wired(Next(net, Process))
  {
    hide NetOk, ProcessFrom, DueFrom, Flush, LinkOk, UpOk;
    var processed, net' := ProcessFrom(net, 0), Next(net, Process);
    ProcessKeepsLinks(net, 0);
    forall c | c in net'.peers && Intact(net'.peers[c]) ensures LinkOk(net'.peers[c]) && UpOk(net'.peers[c]) {
      FlushStays(processed.peers[c]);
      ProcessLine(net, c, 0);
      NoReplyDue(net.store.entries, net.peers[c].published, 0, net.nextId, net.now);
      LongerKeeps(net.peers[c], processed.peers[c],
                  DueFrom(net.store.entries, net.peers[c].published, 0, net.nextId, net.now));
      FlushKeepsLink(processed.peers[c]);
      FlushedUp(processed.peers[c]);
    }
  }

  lemma FlushedUp(p: Peer)
    requires UpOk(p)
    ensures UpOk(Flush(p))
  {
    hide Flush;
    FlushKeepsUp(p);
  }

  lemma OnePeerWired(net: Net, c: ClientId, p: Peer)
    requires Wired(net) && (Intact(p) ==> LinkOk(p) && UpOk(p))
    ensures Wired(net.(peers := WithPeer(net.peers, c, p)))
  {
    hide LinkOk, UpOk;
  }

  lemma ConnectionWired(net: Net, s: Step)
    requires Wired(net) && Enabled(net, s) && !LocalStep(s) && !s.Tick? && !s.Process?
    ensures Wired(Next(net, s))
  {
    if s.Connect? {
      hide Wired;
      ConnectedWired();
      OnePeerWired(net, s.c, Connected);
    } else {
      hide LinkOk, UpOk, AfterStep;
      if Intact(net.peers[s.c]) {
        AfterStepWired(net, s.c, s);
      } else {
        LossStays(net, net.peers[s.c], s);
      }
      OnePeerWired(net, s.c, AfterStep(net, net.peers[s.c], s));
    }
  }

  lemma NextWired(net: Net, s: Step)
    requires NetOk(net) && Wired(net) && Enabled(net, s)
    ensures Wired(Next(net, s))
  {
    if s.Process? {
      TimerWired(net);
    } else if LocalStep(s) || s.Tick? {
      hide NetOk, LinkOk, UpOk, Apply;
      assert Next(net, s).peers == net.peers;
    } else {
      ConnectionWired(net, s);
    }
  }

  lemma ConnectedWired()
    ensures LinkOk(Connected) && UpOk(Connected)
  {
    assert multiset(Connected.up) == multiset{TimeRequest};
  }

  lemma {:induction false} ReachesWired(start: Net, steps: seq<Step>, net: Net)
    requires NetOk(start) && Wired(start) && Reaches(start, steps, net)
    ensures NetOk(net) && Wired(net)
    decreases |steps|
  {
    hide NetOk, Wired, Enabled, Next;
    if steps != [] {
      NextKeeps(start, steps[0]);
      NextWired(start, steps[0]);
      ReachesWired(Next(start, steps[0]), steps[1..], net);
    }
  }

  lemma ReachableWired(start: Net, steps: seq<Step>, net: Net)
    requires Init(start) && Reaches(start, steps, net)
    ensures NetOk(net) && Wired(net)
  {
    ReachesWired(start, steps, net);
  }

  // ---------------------------------------------------------------- the way up

  /** The length of a request (one time) and of the word that the client is ready, with their headers. */
  function UpSize(up: seq<UpMsg>): nat {
    if up == [] then 0 else HEADER + (if up[0] == TimeRequest then 8 else 0) + UpSize(up[1..])
  }

  lemma {:induction false} UpSizeIs(up: seq<UpMsg>)
    ensures UpSize(up) == (HEADER + 8) * multiset(up)[TimeRequest] + HEADER * multiset(up)[Ready]
  {
    if up != [] {
      assert up == [up[0]] + up[1..];
      UpSizeIs(up[1..]);
    }
  }

  /** All that a client sends is never more than 30 bytes at a time, so no ring on the way up is ever filled. */
  lemma WayUpIsShort(start: Net, steps: seq<Step>, net: Net, c: ClientId)
    requires Init(start) && Reaches(start, steps, net) && c in net.peers && Intact(net.peers[c])
    ensures UpSize(net.peers[c].up) <= 30
  {
    ReachableWired(start, steps, net);
    UpSizeIs(net.peers[c].up);
  }
}
