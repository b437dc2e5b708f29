/** When bytes are lost between server and client. All that comes in line between two rounds of the server's timer is
    written into one ring at once, and what arrives at once has to fit into another; src/io/buffer.cpp cannot tell a full
    ring from an empty one. */
module Losses {
  import opened Wrappers
  import opened Bytes
  import opened Codec
  import opened Store
  import opened Links
  import opened Replication
  import opened PipeLaws
  import opened ReplicationLaws
  import opened TimerLaws

  // ---------------------------------------------------------------- sizes

  lemma {:induction false} SizeConcat(a: seq<Msg>, b: seq<Msg>)
    ensures Size(a + b) == Size(a) + Size(b)
    decreases |a|
  {
    if a == [] {
      assert [] + b == b;
    } else {
      assert (a + b)[1..] == a[1..] + b;
      SizeConcat(a[1..], b);
    }
  }

  lemma SizeOne(m: Msg)
    ensures Size([m]) == FrameSize(m)
  {
    assert [m][1..] == [];
  }

  lemma SizeCons(m: Msg, rest: seq<Msg>)
    ensures Size([m] + rest) == FrameSize(m) + Size(rest)
  {
    assert ([m] + rest)[1..] == rest;
  }

  lemma SizeTake(ms: seq<Msg>, k: nat)
    requires k <= |ms|
    ensures Size(ms) == Size(ms[..k]) + Size(ms[k..])
  {
    assert ms == ms[..k] + ms[k..];
    SizeConcat(ms[..k], ms[k..]);
  }

  lemma SizeFirst(ms: seq<Msg>, k: nat)
    requires k < |ms|
    ensures Size(ms[..k + 1]) == FrameSize(ms[0]) + Size(ms[1..][..k])
  {
    assert ms[..k + 1][1..] == ms[1..][..k];
  }

  /** No frame that can be written is longer than 523 bytes, and none is empty. */
  lemma FrameLimit(m: Msg)
    requires Sendable(m)
    ensures HEADER <= FrameSize(m) <= HEADER + BODY_LIMIT
  {
    hide EncodeValue;
  }

  // ---------------------------------------------------------------- one line

  /** The ring does not take the message, and stays as it is. */
  predicate Refuses(start: nat, held: nat, body: nat) {
    held + HEADER > RING || (start + held >= RING && held + HEADER + body > RING) || HEADER + body > RING
  }

  /** The first `k` messages go out, each leaving a byte free, and there the line ends or is stopped. */
  ghost predicate StopsAt(l: Link, line: seq<Msg>, k: nat) {
    && k <= |line|
    && (forall i | 0 <= i < k :: Sendable(line[i]))
    && (k > 0 ==> l.held + Size(line[..k]) < RING)
    && (k == |line| || !Sendable(line[k]) || Refuses(l.start, l.held + Size(line[..k]), BodySize(line[k])))
  }

  ghost predicate LosesNothing(l: Link, line: seq<Msg>) {
    exists k :: StopsAt(l, line, k)
  }

  lemma StopsNext(l: Link, l': Link, line: seq<Msg>, k: nat)
    requires line != [] && Sendable(line[0]) && l.held + FrameSize(line[0]) < RING
    requires l' == l.(held := l.held + FrameSize(line[0]))
    ensures StopsAt(l', line[1..], k) <==> k < |line| && StopsAt(l, line, k + 1)
  {
    hide Sendable, FrameSize, BodySize;
    if k < |line| {
      SizeFirst(line, k);
      assert forall i | 0 <= i < k :: line[1..][i] == line[i + 1];
      assert (forall i | 0 <= i < k :: Sendable(line[1..][i])) ==> forall i | 0 <= i < k + 1 :: Sendable(line[i]) by {
        if forall i | 0 <= i < k :: Sendable(line[1..][i]) {
          forall i | 0 <= i < k + 1 ensures Sendable(line[i]) {
            if i > 0 {
              assert line[1..][i - 1] == line[i];
            }
          }
        }
      }
      if k == 0 {
        assert line[1..][..k] == [];
      }
    }
  }

  /** The first message goes out and leaves a byte free. */
  lemma FlushOne(p: Peer)
    requires p.queue != [] && Sendable(p.queue[0]) && p.link.held + FrameSize(p.queue[0]) < RING
    ensures Flush(p) == Flush(HandOver(p, 1).(link := p.link.(held := p.link.held + FrameSize(p.queue[0]))))
  {
    hide Sendable, BodySize;
  }

  lemma FlushNone(p: Peer)
    requires StopsAt(p.link, p.queue, 0)
    ensures Flush(p) == p
  {
    hide Sendable, BodySize;
    assert Size(p.queue[..0]) == 0;
  }

  lemma FirstLeavesRoom(l: Link, line: seq<Msg>, k: nat)
    requires 0 < k && StopsAt(l, line, k)
    ensures line != [] && k <= |line| && Sendable(line[0]) && l.held + FrameSize(line[0]) < RING
  {
    hide Sendable, BodySize;
    SizeFirst(line, k - 1);
  }

  /** What is left when a line stops without a loss. */
  lemma {:induction false} FlushStops(p: Peer, k: nat)
    requires Intact(p) && StopsAt(p.link, p.queue, k) && k <= |p.queue|
    ensures Flush(p) == HandOver(p, k).(link := p.link.(held := p.link.held + Size(p.queue[..k])))
    decreases k
  {
    hide Sendable, FrameSize, StopsAt, Flush;
    if k == 0 {
      FlushNone(p);
      assert p.down + p.queue[..0] == p.down && p.queue[0..] == p.queue && p.queue[..0] == [];
    } else {
      var m := p.queue[0];
      FirstLeavesRoom(p.link, p.queue, k);
      FlushOne(p);
      SizeFirst(p.queue, k - 1);
      var next := HandOver(p, 1).(link := p.link.(held := p.link.held + FrameSize(m)));
      StopsNext(p.link, next.link, p.queue, k - 1);
      FlushStops(next, k - 1);
      assert p.down + p.queue[..1] + p.queue[1..][..k - 1] == p.down + p.queue[..k];
      assert p.queue[1..][k - 1..] == p.queue[k..];
    }
  }

  lemma {:induction false} WholeStops(p: Peer) returns (k: nat)
    requires Intact(Flush(p))
    ensures StopsAt(p.link, p.queue, k)
    decreases |p.queue|
  {
    hide Sendable, BodySize;
    k := 0;
    assert Size(p.queue[..0]) == 0;
    if p.queue != [] && Sendable(p.queue[0]) {
      var next := HandOver(p, 1).(link := AfterWrite(p.link, BodySize(p.queue[0])));
      match Judge(p.link.start, p.link.held, BodySize(p.queue[0])) {
        case Taken =>
          k := WholeStops(next);
          StopsNext(p.link, next.link, p.queue, k);
          k := k + 1;
        case Filled => FlushStays(next);
        case _ =>
      }
    }
  }

  lemma StopsWithin(l: Link, line: seq<Msg>, k: nat)
    requires StopsAt(l, line, k)
    ensures k <= |line|
  {
  }

  /** Handing over a line loses nothing if and only if each message in turn leaves a byte free, up to one that cannot be
      written or is refused, or to the end. */
  lemma FlushLosesNothingIff(p: Peer)
    requires Intact(p)
    ensures Intact(Flush(p)) <==> LosesNothing(p.link, p.queue)
  {
    hide Flush, StopsAt;
    if Intact(Flush(p)) {
      var k := WholeStops(p);
    }
    if LosesNothing(p.link, p.queue) {
      var k: nat :| StopsAt(p.link, p.queue, k);
      StopsWithin(p.link, p.queue, k);
      FlushStops(p, k);
    }
  }

  /** A line that leaves a byte free goes out whole. */
  lemma ShortLine(l: Link, line: seq<Msg>)
    requires l.held + Size(line) < RING && forall m | m in line :: Sendable(m)
    ensures StopsAt(l, line, |line|)
  {
    assert line[..|line|] == line;
  }

  // ---------------------------------------------------------------- one step, and a run

  /** What the timer hands over for a client. */
  function Line(net: Net, p: Peer): seq<Msg> {
    p.queue + DueFrom(net.store.entries, p.published, 0, net.nextId, net.now)
  }

  /** The step loses no byte on its way to client `c`. */
  ghost predicate Spares(net: Net, c: ClientId, s: Step)
    requires c in net.peers
  {
    var p := net.peers[c];
    match s
    case Process => LosesNothing(p.link, Line(net, p))
    case AnswerTime(d) => d == c ==> LosesNothing(p.link, [TimeReply])
    case Arrive(d, n) => d == c ==> Pending(p.link.got) + n < RING
    case _ => true
  }

  lemma PostLosesNothingIff(p: Peer)
    requires Intact(p)
    ensures Intact(Post(p)) <==> LosesNothing(p.link, [TimeReply])
  {
    var q := p.(queue := [TimeReply]);
    FlushLosesNothingIff(q);
    assert Flush(q).link == Post(p).link;
  }

  lemma TimerLosesNothingIff(net: Net, c: ClientId)
    requires NetOk(net) && c in net.peers && Intact(net.peers[c])
    ensures StillWhole(Next(net, Process), c) <==> LosesNothing(net.peers[c].link, Line(net, net.peers[c]))
  {
    hide NetOk, ProcessFrom, DueFrom, Flush, LosesNothing;
    ProcessLine(net, c, 0);
    FlushLosesNothingIff(ProcessFrom(net, 0).peers[c]);
  }

  ghost predicate StillWhole(net: Net, c: ClientId) {
    c in net.peers && Intact(net.peers[c])
  }

  /** Exactly when a step loses bytes that are on their way to a client. */
  lemma StepLosesNothingIff(net: Net, s: Step, c: ClientId)
    requires NetOk(net) && Enabled(net, s) && StillWhole(net, c)
    ensures StillWhole(Next(net, s), c) <==> Spares(net, c, s)
  {
    hide NetOk, ProcessFrom, DueFrom, Flush, LosesNothing, Apply, Greet, Post, Receive;
    match s
    case Process => TimerLosesNothingIff(net, c);
    case AnswerTime(d) => if d == c { PostLosesNothingIff(Popped(net.peers[c])); }
    case AnswerReady(d) => if d == c { GreetKeepsLink(net, Popped(net.peers[c])); }
    case Consume(d, resync) => if d == c { ReceiveKeepsLink(net.peers[c], resync); }
    case _ =>
  }

  lemma LossLasts(net: Net, s: Step, c: ClientId)
    requires Enabled(net, s) && s != Connect(c) && !StillWhole(net, c)
    ensures !StillWhole(Next(net, s), c)
  {
    hide ProcessFrom, Flush, Apply, AfterStep, Enabled;
    if c in net.peers {
      LossStays(net, net.peers[c], s);
    }
    match s
    case Process =>
      ProcessKeepsLinks(net, 0);
      if c in ProcessFrom(net, 0).peers && Intact(Flush(ProcessFrom(net, 0).peers[c])) {
        FlushStays(ProcessFrom(net, 0).peers[c]);
      }
    case _ =>
  }

  lemma {:induction false} ProcessKeepsLinks(net: Net, h: Handle)
    ensures ProcessFrom(net, h).peers.Keys == net.peers.Keys
    ensures forall c | c in net.peers :: ProcessFrom(net, h).peers[c].link == net.peers[c].link
    decreases CAPACITY - h
  {
    hide ProcessEntry;
    if h < CAPACITY && h < |net.store.entries| {
      if net.store.entries[h].dirty {
        EntryKeepsLinks(net, h);
        ProcessKeepsLinks(ProcessEntry(net, h), h + 1);
      } else {
        ProcessKeepsLinks(net, h + 1);
      }
    }
  }

  lemma EntryKeepsLinks(net: Net, h: Handle)
    requires h < |net.store.entries|
    ensures ProcessEntry(net, h).peers.Keys == net.peers.Keys
    ensures forall c | c in net.peers :: ProcessEntry(net, h).peers[c].link == net.peers[c].link
  {
    ToldPeers(net, h);
  }

  /** None of the steps loses a byte on its way to client `c`. */
  ghost predicate SparesAll(start: Net, steps: seq<Step>, c: ClientId)
    decreases |steps|
  {
    steps == []
    || (c in start.peers && Spares(start, c, steps[0]) && SparesAll(Next(start, steps[0]), steps[1..], c))
  }

  lemma {:induction false} LossIsForEver(start: Net, steps: seq<Step>, net: Net, c: ClientId)
    requires Reaches(start, steps, net) && !StillWhole(start, c) && Connect(c) !in steps
    ensures !StillWhole(net, c)
    decreases |steps|
  {
    hide Enabled, Next;
    if steps != [] {
      LossLasts(start, steps[0], c);
      LossIsForEver(Next(start, steps[0]), steps[1..], net, c);
    }
  }

  lemma {:induction false} RunLosesNothingIff(start: Net, steps: seq<Step>, net: Net, c: ClientId)
    requires NetOk(start) && Reaches(start, steps, net) && StillWhole(start, c) && Connect(c) !in steps
    ensures StillWhole(net, c) <==> SparesAll(start, steps, c)
    decreases |steps|
  {
    hide Enabled, Next, NetOk, Spares;
    if steps != [] {
      var next := Next(start, steps[0]);
      StepLosesNothingIff(start, steps[0], c);
      if Spares(start, c, steps[0]) {
        NextKeeps(start, steps[0]);
        RunLosesNothingIff(next, steps[1..], net, c);
      } else {
        LossIsForEver(next, steps[1..], net, c);
      }
    }
  }

  /** A connection is whole if and only if none of the steps since the client connected has lost a byte on its way to it:
      no line and no time reply has filled the ring or been cut off in it, and no arrival has filled the client's ring. */
  lemma IntactIff(start: Net, before: seq<Step>, connecting: Net, steps: seq<Step>, net: Net, c: ClientId)
    requires Init(start) && Reaches(start, before, connecting) && Enabled(connecting, Connect(c))
    requires Reaches(Next(connecting, Connect(c)), steps, net) && Connect(c) !in steps
    ensures c in net.peers && Intact(net.peers[c]) <==> SparesAll(Next(connecting, Connect(c)), steps, c)
  {
    ReachableOk(start, before, connecting);
    NextKeeps(connecting, Connect(c));
    hide NetOk, Reaches, SparesAll;
    RunLosesNothingIff(Next(connecting, Connect(c)), steps, net, c);
  }
}
