/** Exactly when everything can still reach a client. The replies to its requests for the time move the ring on by 27 bytes
    each, so that a burst can be given a place where the ring takes what it has room for and refuses the rest; in the way
    are only messages that cannot be written, and a reply that itself is stuck in front of a burst. */
module Passage {
  import opened Wrappers
  import opened Bytes
  import opened Codec
  import opened Store
  import opened Links
  import opened Replication
  import opened PipeLaws
  import opened ReplicationLaws
  import opened TimerLaws
  import opened Losses
  import opened Wires
  import opened Progress

  // ---------------------------------------------------------------- bursts

  /** The position behind what waits, where the next byte will be written. */
  function End(l: Link): nat {
    Place(l.start + l.held)
  }

  /** A ring in which `held` bytes wait, the last of them in front of `end`. */
  function Ring(end: nat, held: nat): Link
    requires held <= RING
  {
    Link(Whole, Place(end + RING - held), held, 0, 0)
  }

  /** With `held` bytes waiting, the first `k` messages go out in one go, and nothing is lost. */
  ghost predicate Burst(end: nat, line: seq<Msg>, held: nat, k: nat)
    requires held <= RING
  {
    StopsAt(Ring(end, held), line, k)
  }

  /** If a time reply waits in front of the line, then it can go out with a part of what follows, once the connection has
      taken the right number of bytes. */
  ghost predicate ReplyPasses(p: Peer, line: seq<Msg>) {
    TimeReply in p.queue ==>
      p.link.held < RING && exists h, k {:trigger Burst(End(p.link), line, h, k)} ::
        0 <= h <= p.link.held && 0 < k <= |line| && Burst(End(p.link), line, h, k)
  }

  /** All of the line can be written, and a reply in front of it can go out. */
  ghost predicate Passable(p: Peer, line: seq<Msg>) {
    AllSendable(line) && ReplyPasses(p, line)
  }

  lemma RingOf(l: Link)
    requires l.start < RING && l.held < RING
    ensures Ring(End(l), l.held).start == l.start && Ring(End(l), l.held).held == l.held
  {
  }

  lemma EndDeparted(l: Link, n: nat)
    ensures End(Departed(l, n)) == End(l)
  {
  }

  lemma StopsLink(l: Link, l': Link, line: seq<Msg>, k: nat)
    requires l'.start == l.start && l'.held == l.held
    ensures StopsAt(l, line, k) <==> StopsAt(l', line, k)
  {
  }

  // ---------------------------------------------------------------- lines that weigh the same

  /** The lines can be written, and fill a ring, alike. */
  ghost predicate Alike(a: seq<Msg>, b: seq<Msg>) {
    && |a| == |b|
    && forall i | 0 <= i < |a| :: BodySize(a[i]) == BodySize(b[i]) && (Sendable(a[i]) <==> Sendable(b[i]))
  }

  lemma {:induction false} AlikeSize(a: seq<Msg>, b: seq<Msg>)
    requires Alike(a, b)
    ensures Size(a) == Size(b)
  {
    hide BodySize, Sendable;
    if a != [] {
      AlikeSize(a[1..], b[1..]);
    }
  }

  lemma AlikeStops(l: Link, a: seq<Msg>, b: seq<Msg>, k: nat)
    requires Alike(a, b) && StopsAt(l, a, k)
    ensures StopsAt(l, b, k)
  {
    hide BodySize, Sendable, Size;
    AlikeSize(a[..k], b[..k]);
  }

  lemma AlikeSendable(a: seq<Msg>, b: seq<Msg>)
    requires Alike(a, b) && AllSendable(a)
    ensures AllSendable(b)
  {
    hide BodySize, Sendable;
    forall m | m in b ensures Sendable(m) {
      var i :| 0 <= i < |b| && b[i] == m;
      assert a[i] in a;
    }
  }

  lemma AlikeConcat(a: seq<Msg>, b: seq<Msg>, a': seq<Msg>, b': seq<Msg>)
    requires Alike(a, a') && Alike(b, b')
    ensures Alike(a + b, a' + b')
  {
    hide BodySize, Sendable;
  }

  lemma {:induction false} DueAlike(es: seq<Entry>, published: set<EntryId>, h: nat, next: EntryId, now: int, now': int)
    ensures Alike(DueFrom(es, published, h, next, now), DueFrom(es, published, h, next, now'))
    decreases |es| - h
  {
    hide DueFrom, Due, Alike;
    DueStep(es, published, h, next, now);
    DueStep(es, published, h, next, now');
    if h < |es| {
      var next' := if es[h].dirty && es[h].netId == ID_NOT_ASSIGNED then (next + 1) % U16 else next;
      DueAlike(es, published, h + 1, next', now, now');
      if es[h].dirty {
        OneAlike(es[h], published, next, now, now');
        AlikeConcat(Due(es[h], published, next, now), DueFrom(es, published, h + 1, next', now),
                    Due(es[h], published, next, now'), DueFrom(es, published, h + 1, next', now'));
      }
    } else {
      AlikeNone();
    }
  }

  lemma AlikeNone()
    ensures Alike([], [])
  {
  }

  lemma OneAlike(e: Entry, published: set<EntryId>, next: EntryId, now: int, now': int)
    ensures Alike(Due(e, published, next, now), Due(e, published, next, now'))
  {
    hide ValueSize, Fits;
  }

  lemma AlikeSelf(a: seq<Msg>)
    ensures Alike(a, a)
  {
    hide BodySize, Sendable;
  }

  // ---------------------------------------------------------------- talking

  /** What the system does by itself: everything but calls on the server; and `c` stays the name of one connection. */
  predicate Talk(c: ClientId, s: Step) {
    !LocalStep(s) && s != Connect(c)
  }

  ghost predicate OnlyTalk(c: ClientId, steps: seq<Step>) {
    forall s | s in steps :: Talk(c, s)
  }

  /** Nothing is on its way to the client and nothing has been lost, and nothing waits on the server. */
  ghost predicate Quiet(net: Net, c: ClientId) {
    && c in net.peers && Intact(net.peers[c])
    && net.peers[c].phase == InUse && net.peers[c].queue == [] && net.peers[c].down == []
    && AllClean(net.store)
  }

  /** By itself `net` comes to the quiet state `net'`. */
  ghost predicate Quietens(net: Net, more: seq<Step>, net': Net, c: ClientId) {
    OnlyTalk(c, more) && Reaches(net, more, net') && Quiet(net', c)
  }

  /** The system can come by itself to a state in which nothing is left to be done for the client. */
  ghost predicate CanQuieten(net: Net, c: ClientId) {
    exists more, end :: Quietens(net, more, end, c)
  }

  /** The client is connected, in use, and has lost nothing. */
  ghost predicate Live(net: Net, c: ClientId) {
    c in net.peers && Intact(net.peers[c]) && net.peers[c].phase == InUse
  }

  lemma ReachesAfter(net: Net, s: Step, steps: seq<Step>, net': Net)
    requires Enabled(net, s) && Reaches(Next(net, s), steps, net')
    ensures Reaches(net, [s] + steps, net')
  {
    assert ([s] + steps)[1..] == steps;
  }

  lemma {:induction false} ReachesConcat(a: Net, s: seq<Step>, b: Net, t: seq<Step>, c: Net)
    requires Reaches(a, s, b) && Reaches(b, t, c)
    ensures Reaches(a, s + t, c)
    decreases |s|
  {
    if s == [] {
      assert [] + t == t;
    } else {
      assert (s + t)[1..] == s[1..] + t;
      ReachesConcat(Next(a, s[0]), s[1..], b, t, c);
    }
  }

  /** `net'` can be reached from `net` by talk, and all is well there. */
  ghost predicate ComesTo(net: Net, more: seq<Step>, net': Net, c: ClientId) {
    && OnlyTalk(c, more) && Reaches(net, more, net')
    && NetOk(net') && Wired(net') && Live(net', c)
  }

  lemma ComesNowhere(net: Net, c: ClientId)
    requires NetOk(net) && Wired(net) && Live(net, c)
    ensures ComesTo(net, [], net, c)
  {
    hide NetOk, Wired;
  }

  lemma ComesOn(net: Net, more: seq<Step>, net1: Net, more1: seq<Step>, net2: Net, c: ClientId)
    requires ComesTo(net, more, net1, c) && ComesTo(net1, more1, net2, c)
    ensures ComesTo(net, more + more1, net2, c)
  {
    hide NetOk, Wired, Reaches, Talk;
    ReachesConcat(net, more, net1, more1, net2);
  }

  lemma ComesOne(net: Net, s: Step, c: ClientId)
    requires NetOk(net) && Wired(net) && Talk(c, s) && Enabled(net, s) && Live(Next(net, s), c)
    ensures ComesTo(net, [s], Next(net, s), c)
  {
    hide NetOk, Wired, Enabled, Next;
    NextKeeps(net, s);
    NextWired(net, s);
    assert [s][1..] == [] && Reaches(Next(net, s), [], Next(net, s));
  }

  // ---------------------------------------------------------------- the line

  lemma DueFromNone(es: seq<Entry>, published: set<EntryId>, h: nat, next: EntryId, now: int)
    requires forall k | h <= k < |es| :: !es[k].dirty
    ensures DueFrom(es, published, h, next, now) == []
    decreases |es| - h
  {
    if h < |es| {
      DueFromNone(es, published, h + 1, next, now);
    }
  }

  lemma CleanLine(net: Net, p: Peer)
    requires AllClean(net.store)
    ensures Line(net, p) == p.queue
  {
    DueFromNone(net.store.entries, p.published, 0, net.nextId, net.now);
    assert p.queue + [] == p.queue;
  }

  lemma {:induction false} DueFromSome(es: seq<Entry>, published: set<EntryId>, h: nat, k: nat, next: EntryId, now: int)
    requires h <= k < |es| && es[k].dirty
    ensures DueFrom(es, published, h, next, now) != []
    decreases k - h
  {
    if !es[h].dirty {
      DueFromSome(es, published, h + 1, k, next, now);
    }
  }

  lemma NothingInLine(net: Net, p: Peer)
    requires Line(net, p) == []
    ensures p.queue == [] && AllClean(net.store)
  {
    forall k | 0 <= k < |net.store.entries| ensures !net.store.entries[k].dirty {
      if net.store.entries[k].dirty {
        DueFromSome(net.store.entries, p.published, 0, k, net.nextId, net.now);
      }
    }
  }

  /** The timer, when it loses nothing: a first part of the line is in the ring, the rest in the queue. */
  lemma TimerSends(net: Net, c: ClientId, k: nat)
    requires NetOk(net) && Live(net, c) && StopsAt(net.peers[c].link, Line(net, net.peers[c]), k)
    ensures Enabled(net, Process) && Live(Next(net, Process), c)
    ensures
      var p, net' := net.peers[c], Next(net, Process);
      var p', line := net'.peers[c], Line(net, p);
      && k <= |line| && AllClean(net'.store) && ShowsSame(net.store, net'.store)
      && Line(net', p') == line[k..] && p'.queue == line[k..] && p'.down == p.down + line[..k]
      && p'.link == p.link.(held := p.link.held + Size(line[..k]))
  {
    hide NetOk, ProcessFrom, Line, Flush, StopsAt, Size, ShowsSame, AllClean;
    ProcessCleans(net);
    StopsWithin(net.peers[c].link, Line(net, net.peers[c]), k);
    LineSent(net, c, k);
    CleanLine(Next(net, Process), Next(net, Process).peers[c]);
  }

  lemma LineSent(net: Net, c: ClientId, k: nat)
    requires NetOk(net) && Live(net, c) && StopsAt(net.peers[c].link, Line(net, net.peers[c]), k)
    requires k <= |Line(net, net.peers[c])|
    ensures
      var p, net' := net.peers[c], Next(net, Process);
      var line := Line(net, p);
      && Live(net', c)
      && net'.peers[c].queue == line[k..] && net'.peers[c].down == p.down + line[..k]
      && net'.peers[c].link == p.link.(held := p.link.held + Size(line[..k]))
  {
    hide NetOk, ProcessFrom, Flush, StopsAt, Size, DueFrom;
    ProcessLine(net, c, 0);
    var p1 := ProcessFrom(net, 0).peers[c];
    assert p1.queue == Line(net, net.peers[c]);
    FlushStops(p1, k);
  }

  // ---------------------------------------------------------------- what one step of talk does for a client

  /** A client in use is past its handshake: of the steps about it, these are left. */
  predicate Everyday(s: Step) {
    s.AskTime? || s.AnswerTime? || s.Depart? || s.Arrive? || s.Consume?
  }

  lemma InUseOnly(net: Net, s: Step, c: ClientId)
    requires NetOk(net) && Wired(net) && Live(net, c) && Enabled(net, s) && Connection(s) && s.c == c
    ensures Everyday(s)
  {
    ServerLinked(net);
    hide LinkOk, ValuesOk, ClientOk, Orderly, ServerOk;
    assert PeerOk(net, net.peers[c]) && UpOk(net.peers[c]);
  }

  /** The other steps leave the client and the store as they are. */
  lemma OthersTalk(net: Net, s: Step, c: ClientId)
    requires Live(net, c) && Talk(c, s) && !s.Process? && (Connection(s) ==> s.c != c)
    ensures
      var net' := Next(net, s);
      && net'.store == net.store && net'.nextId == net.nextId && Live(net', c) && net'.peers[c] == net.peers[c]
      && Alike(Line(net', net'.peers[c]), Line(net, net.peers[c]))
  {
    hide DueFrom, AfterStep, Alike;
    OtherPeersStay(net, s, c);
    var p, net' := net.peers[c], Next(net, s);
    DueAlike(net.store.entries, p.published, 0, net.nextId, net'.now, net.now);
    AlikeSelf(p.queue);
    AlikeConcat(p.queue, DueFrom(net.store.entries, p.published, 0, net.nextId, net'.now),
                p.queue, DueFrom(net.store.entries, p.published, 0, net.nextId, net.now));
  }

  lemma HandledPublishes(p: Peer, resync: Option<int>)
    requires Complete(p)
    ensures Handled(p, resync).published == p.published
    ensures p.phase == InUse ==> Handled(p, resync).phase == InUse
  {
    hide OnIdAssigned, OnUpdated, OnDeleted, Resync, FrameSize;
  }

  /** An everyday step of the connection: what it makes of the client, and that it leaves everything else. */
  lemma EverydayIs(net: Net, s: Step, c: ClientId)
    requires Live(net, c) && Everyday(s) && s.c == c
    ensures
      var net', p' := Next(net, s), AfterStep(net, net.peers[c], s);
      && net' == net.(peers := net'.peers) && p'.published == net.peers[c].published && p'.phase == InUse
      && (StillWhole(net', c) ==> Live(net', c) && net'.peers[c] == p')
      && (Intact(p') ==> Live(net', c) && net'.peers[c] == p')
  {
    hide Handled, Post;
    var p := net.peers[c];
    match s
    case Consume(_, resync) => if Complete(p) { HandledPublishes(p, resync); }
    case AnswerTime(_) => PostPublishes(Popped(p));
    case _ =>
  }

  lemma PostPublishes(p: Peer)
    ensures Post(p).published == p.published && Post(p).phase == p.phase
  {
  }

  /** Without a new reply its line and the end of what waits in the ring stay, and no more waits. */
  lemma ConnectionKeepsLine(net: Net, s: Step, c: ClientId)
    requires Live(net, c) && Everyday(s) && !s.AnswerTime? && s.c == c && Enabled(net, s) && Live(Next(net, s), c)
    ensures
      var p, net' := net.peers[c], Next(net, s);
      var p' := net'.peers[c];
      && p'.queue == p.queue && Line(net', p') == Line(net, p)
      && End(p'.link) == End(p.link) && p'.link.held <= p.link.held
  {
    hide DueFrom, Handled, Place, AfterStep;
    var p := net.peers[c];
    EverydayIs(net, s, c);
    ConnectionStep(net, p, s);
  }

  lemma ConnectionStep(net: Net, p: Peer, s: Step)
    requires Everyday(s) && !s.AnswerTime?
    ensures
      var p' := AfterStep(net, p, s);
      p'.queue == p.queue && End(p'.link) == End(p.link) && p'.link.held <= p.link.held
  {
    hide Handled, End;
    match s
    case Depart(_, n) => EndDeparted(p.link, n);
    case Arrive(_, n) => SameEnd(p.link, Arrived(p.link, n));
    case Consume(_, resync) =>
      if Complete(p) {
        HandledIs(p, resync);
        SameEnd(p.link, Handled(p, resync).link);
      }
    case _ =>
  }

  lemma SameEnd(l: Link, l': Link)
    requires l'.start == l.start && l'.held == l.held
    ensures End(l') == End(l)
  {
  }

  // ---------------------------------------------------------------- only if

  lemma WiredPart(net: Net, c: ClientId)
    requires Wired(net) && c in net.peers && Intact(net.peers[c])
    ensures LinkOk(net.peers[c]) && UpOk(net.peers[c])
  {
  }

  ghost predicate LinePassable(net: Net, c: ClientId)
    requires c in net.peers
  {
    Passable(net.peers[c], Line(net, net.peers[c]))
  }

  /** What cannot pass does not become passable by talking. */
  lemma TalkBack(net: Net, s: Step, c: ClientId)
    requires NetOk(net) && Wired(net) && Live(net, c) && Talk(c, s) && Enabled(net, s)
    requires Live(Next(net, s), c) && LinePassable(Next(net, s), c)
    ensures LinePassable(net, c)
  {
    hide NetOk, Wired, Next, Enabled, Passable, LinkOk, UpOk, Alike, Line;
    WiredPart(net, c);
    if s.Process? {
      TimerBack(net, c);
    } else if Connection(s) && s.c == c {
      InUseOnly(net, s, c);
      if s.AnswerTime? {
        ReplyBack(net, s, c);
      } else {
        ConnectionKeepsLine(net, s, c);
        LessHeld(net.peers[c], Next(net, s).peers[c], Line(net, net.peers[c]));
      }
    } else {
      OthersTalk(net, s, c);
      AlikePassable(net.peers[c], Line(Next(net, s), net.peers[c]), Line(net, net.peers[c]));
    }
  }

  lemma AlikePassable(p: Peer, a: seq<Msg>, b: seq<Msg>)
    requires Passable(p, a) && Alike(a, b)
    ensures Passable(p, b)
  {
    hide AllSendable, Alike, StopsAt, Ring, End;
    AlikeSendable(a, b);
    AlikeLength(a, b);
    if TimeReply in p.queue {
      var h, k :| 0 <= h <= p.link.held && 0 < k <= |a| && Burst(End(p.link), a, h, k);
      AlikeStops(Ring(End(p.link), h), a, b, k);
      assert Burst(End(p.link), b, h, k);
    }
  }

  lemma AlikeLength(a: seq<Msg>, b: seq<Msg>)
    requires Alike(a, b)
    ensures |a| == |b|
  {
  }

  /** Waiting bytes can be taken. */
  lemma LessHeld(p: Peer, p': Peer, line: seq<Msg>)
    requires Passable(p', line) && p'.queue == p.queue && LinkOk(p)
    requires End(p'.link) == End(p.link) && p'.link.held <= p.link.held
    ensures Passable(p, line)
  {
    hide AllSendable, Burst, End, Sendable;
  }

  /** A reply is only given to a client that has none in line. */
  lemma ReplyBack(net: Net, s: Step, c: ClientId)
    requires Live(net, c) && UpOk(net.peers[c]) && s == AnswerTime(c) && Enabled(net, s)
    requires Live(Next(net, s), c) && LinePassable(Next(net, s), c)
    ensures LinePassable(net, c)
  {
    hide ReplyPasses, DueFrom, Sendable;
    var p, net' := net.peers[c], Next(net, s);
    var p' := net'.peers[c];
    var due := DueFrom(net.store.entries, p.published, 0, net.nextId, net.now);
    EverydayIs(net, s, c);
    NoReplyYet(p);
    AskedHasNone(p, Line(net, p));
    if p'.queue == p.queue {
      assert Line(net', p') == Line(net, p);
    } else {
      assert p'.queue == [TimeReply] + p.queue;
      assert Line(net', p') == [TimeReply] + Line(net, p);
      SendableConcat([TimeReply], Line(net, p));
    }
  }

  lemma AskedHasNone(p: Peer, line: seq<Msg>)
    requires TimeReply !in p.queue
    ensures ReplyPasses(p, line)
  {
  }

  lemma NoReplyYet(p: Peer)
    requires UpOk(p) && TimeRequest in p.up
    ensures TimeReply !in p.queue && TimeReply !in p.down
  {
  }

  lemma TimerBack(net: Net, c: ClientId)
    requires NetOk(net) && Live(net, c) && LinkOk(net.peers[c]) && UpOk(net.peers[c])
    requires Live(Next(net, Process), c) && LinePassable(Next(net, Process), c)
    ensures LinePassable(net, c)
  {
    hide NetOk, Line, Next, StopsAt, AllSendable, ReplyPasses, LinkOk, UpOk, Size;
    var p := net.peers[c];
    var line := Line(net, p);
    TimerLosesNothingIff(net, c);
    var k: nat :| StopsAt(p.link, line, k);
    TimerSends(net, c, k);
    StopsSendable(p.link, line, k);
    assert line == line[..k] + line[k..];
    SendableConcat(line[..k], line[k..]);
    LineExtends(net, p);
    ReplyStays(p, Next(net, Process).peers[c], line, k);
  }

  lemma LineExtends(net: Net, p: Peer)
    ensures p.queue <= Line(net, p)
  {
  }

  lemma StopsSendable(l: Link, line: seq<Msg>, k: nat)
    requires StopsAt(l, line, k)
    ensures k <= |line| && AllSendable(line[..k])
  {
    hide Sendable, Size;
  }

  lemma ReplyStays(p: Peer, p': Peer, line: seq<Msg>, k: nat)
    requires LinkOk(p) && StopsAt(p.link, line, k) && k <= |line| && p.queue <= line
    requires ReplyPasses(p', line[k..]) && p'.queue == line[k..]
    requires p'.link == p.link.(held := p.link.held + Size(line[..k]))
    ensures ReplyPasses(p, line)
  {
    hide StopsAt, End, Ring, Sendable;
    if TimeReply in p.queue {
      if k > 0 {
        RingOf(p.link);
        StopsLink(p.link, Ring(End(p.link), p.link.held), line, k);
        assert Burst(End(p.link), line, p.link.held, k);
      } else {
        assert line[..0] == [] && line[0..] == line;
        NoSize();
        assert p'.link == p.link;
      }
    }
  }

  lemma NoSize()
    ensures Size([]) == 0
  {
  }

  lemma QuietPassable(net: Net, c: ClientId)
    requires Quiet(net, c)
    ensures LinePassable(net, c)
  {
    CleanLine(net, net.peers[c]);
  }

  lemma StaysInUse(net: Net, s: Step, c: ClientId)
    requires NetOk(net) && Wired(net) && Live(net, c) && Talk(c, s) && Enabled(net, s) && StillWhole(Next(net, s), c)
    ensures Live(Next(net, s), c)
  {
    hide NetOk, Wired, Line, Next, Enabled, StopsAt, Alike;
    if s.Process? {
      TimerLosesNothingIff(net, c);
      var k: nat :| StopsAt(net.peers[c].link, Line(net, net.peers[c]), k);
      TimerSends(net, c, k);
    } else if Connection(s) && s.c == c {
      InUseOnly(net, s, c);
      EverydayIs(net, s, c);
    } else {
      OthersTalk(net, s, c);
    }
  }

  lemma {:induction false} QuietIsPassable(net: Net, more: seq<Step>, net': Net, c: ClientId)
    requires NetOk(net) && Wired(net) && Live(net, c) && Quietens(net, more, net', c)
    ensures LinePassable(net, c)
    decreases |more|
  {
    hide NetOk, Wired, Next, Enabled, LinePassable;
    if more == [] {
      QuietPassable(net, c);
    } else {
      var s, next := more[0], Next(net, more[0]);
      assert s in more;
      assert forall t | t in more[1..] :: t in more;
      NextKeeps(net, s);
      NextWired(net, s);
      if StillWhole(next, c) {
        StaysInUse(net, s, c);
        QuietIsPassable(next, more[1..], net', c);
        TalkBack(net, s, c);
      } else {
        LossIsForEver(next, more[1..], net', c);
      }
    }
  }

  // ---------------------------------------------------------------- steps that are always possible

  lemma DepartIs(net: Net, c: ClientId, h: nat)
    requires Live(net, c) && h <= net.peers[c].link.held
    ensures
      var s := Depart(c, net.peers[c].link.held - h);
      && Enabled(net, s) && Live(Next(net, s), c)
      && var p, p' := net.peers[c], Next(net, s).peers[c];
         && Next(net, s) == net.(peers := Next(net, s).peers)
         && p' == p.(link := p'.link) && Line(Next(net, s), p') == Line(net, p)
         && p'.link == p.link.(start := p'.link.start, held := h) && End(p'.link) == End(p.link)
  {
    hide DueFrom, End, Place;
    EndDeparted(net.peers[c].link, net.peers[c].link.held - h);
  }

  /** Bytes leave the ring until `h` are left. */
  lemma DepartTo(net: Net, c: ClientId, h: nat) returns (more: seq<Step>, net': Net)
    requires NetOk(net) && Wired(net) && Live(net, c) && h <= net.peers[c].link.held
    ensures ComesTo(net, more, net', c) && LinkOk(net'.peers[c])
    ensures
      var p, p' := net.peers[c], net'.peers[c];
      && net' == net.(peers := net'.peers) && p' == p.(link := p'.link) && Line(net', p') == Line(net, p)
      && p'.link == p.link.(start := p'.link.start, held := h) && End(p'.link) == End(p.link)
  {
    hide NetOk, Wired, Next, Enabled, Line, End, LinkOk, ComesTo;
    var s := Depart(c, net.peers[c].link.held - h);
    DepartIs(net, c, h);
    ComesOne(net, s, c);
    more, net' := [s], Next(net, s);
    ComesThere(net, more, net', c);
  }

  lemma ComesThere(net: Net, more: seq<Step>, net': Net, c: ClientId)
    requires ComesTo(net, more, net', c)
    ensures NetOk(net') && Wired(net') && Live(net', c) && LinkOk(net'.peers[c]) && UpOk(net'.peers[c])
    ensures OnlyTalk(c, more) && Reaches(net, more, net')
  {
    hide NetOk, LinkOk, UpOk, Reaches, OnlyTalk;
  }

  lemma ArriveIs(net: Net, c: ClientId)
    requires Live(net, c) && LinkOk(net.peers[c]) && net.peers[c].down != [] && !Complete(net.peers[c])
    requires Size(net.peers[c].down) - net.peers[c].link.held >= FrameSize(net.peers[c].down[0])
    ensures
      var p := net.peers[c];
      var s := Arrive(c, FrameSize(p.down[0]) - p.link.got);
      && Enabled(net, s) && Live(Next(net, s), c)
      && var p' := Next(net, s).peers[c];
         && Next(net, s) == net.(peers := Next(net, s).peers) && Line(Next(net, s), p') == Line(net, p)
         && p' == p.(link := p.link.(got := FrameSize(p.down[0])))
  {
    hide BodySize, Sendable, MayFill, DueFrom;
    FrameLimit(net.peers[c].down[0]);
  }

  lemma ConsumeIs(net: Net, c: ClientId)
    requires Live(net, c) && Complete(net.peers[c])
    ensures
      var s := Consume(c, None);
      && Enabled(net, s) && Live(Next(net, s), c)
      && var p, p' := net.peers[c], Next(net, s).peers[c];
         && Next(net, s) == net.(peers := Next(net, s).peers) && Line(Next(net, s), p') == Line(net, p)
         && p'.queue == p.queue && p'.down == p.down[1..] && p'.link == Past(p.link, FrameSize(p.down[0]))
         && p'.up == p.up
  {
    hide Handled, DueFrom, FrameSize, Place;
    HandledIs(net.peers[c], None);
    HandledPublishes(net.peers[c], None);
    assert net.peers[c].up + [] == net.peers[c].up;
  }

  /** The first message is handled; if need be its bytes arrive first. */
  lemma HandleFirst(net: Net, c: ClientId) returns (more: seq<Step>, net': Net)
    requires NetOk(net) && Wired(net) && Live(net, c) && net.peers[c].down != []
    requires Complete(net.peers[c])
             || Size(net.peers[c].down) - net.peers[c].link.held >= FrameSize(net.peers[c].down[0])
    ensures ComesTo(net, more, net', c) && LinkOk(net'.peers[c])
    ensures
      var p, p' := net.peers[c], net'.peers[c];
      var size := FrameSize(p.down[0]);
      && net' == net.(peers := net'.peers) && Line(net', p') == Line(net, p)
      && p'.queue == p.queue && p'.down == p.down[1..] && p'.up == p.up
      && p'.link == p.link.(got := if Complete(p) then p.link.got - size else 0, at := Place(p.link.at + size))
  {
    hide NetOk, Wired, Next, Enabled, Line, LinkOk, UpOk, ComesTo, FrameSize, Place, Size;
    var p := net.peers[c];
    if Complete(p) {
      ConsumeIs(net, c);
      ComesOne(net, Consume(c, None), c);
      more, net' := [Consume(c, None)], Next(net, Consume(c, None));
    } else {
      WiredPart(net, c);
      ArriveIs(net, c);
      var s := Arrive(c, FrameSize(p.down[0]) - p.link.got);
      var middle := Next(net, s);
      ComesOne(net, s, c);
      ComesThere(net, [s], middle, c);
      ConsumeIs(middle, c);
      ComesOne(middle, Consume(c, None), c);
      more, net' := [s] + [Consume(c, None)], Next(middle, Consume(c, None));
      ComesOn(net, [s], middle, [Consume(c, None)], net', c);
    }
    ComesThere(net, more, net', c);
  }

  /** Nothing is on its way to the client, and no reply waits in line. */
  ghost predicate Idle(net: Net, c: ClientId) {
    && NetOk(net) && Wired(net) && Live(net, c)
    && net.peers[c].down == [] && net.peers[c].link.held == 0 && TimeReply !in net.peers[c].queue
  }

  /** All that is on its way arrives. */
  lemma {:induction false} EmptyWay(net: Net, c: ClientId) returns (more: seq<Step>, net': Net)
    requires NetOk(net) && Wired(net) && Live(net, c) && net.peers[c].link.held == 0
    ensures ComesTo(net, more, net', c)
    ensures
      var p, p' := net.peers[c], net'.peers[c];
      && net' == net.(peers := net'.peers) && Line(net', p') == Line(net, p)
      && p'.queue == p.queue && p'.down == [] && p'.up == p.up && p'.link.held == 0 && p'.link.start == p.link.start
    decreases |net.peers[c].down|
  {
    hide NetOk, Wired, Line, LinkOk, UpOk, ComesTo;
    if net.peers[c].down == [] {
      more, net' := [], net;
      ComesNowhere(net, c);
    } else {
      SizeFirstMost(net.peers[c].down);
      var first, next := HandleFirst(net, c);
      ComesThere(net, first, next, c);
      more, net' := EmptyWay(next, c);
      ComesOn(net, first, next, more, net', c);
      more := first + more;
    }
  }

  lemma SizeFirstMost(ms: seq<Msg>)
    requires ms != []
    ensures Size(ms) >= FrameSize(ms[0])
  {
  }

  lemma ToIdle(net: Net, c: ClientId) returns (more: seq<Step>, net': Net)
    requires NetOk(net) && Wired(net) && Live(net, c) && TimeReply !in net.peers[c].queue
    ensures ComesTo(net, more, net', c) && Idle(net', c)
    ensures
      && net' == net.(peers := net'.peers) && Line(net', net'.peers[c]) == Line(net, net.peers[c])
      && net'.peers[c].up == net.peers[c].up && End(net'.peers[c].link) == End(net.peers[c].link)
      && net'.peers[c].queue == net.peers[c].queue
  {
    hide NetOk, Wired, Line, LinkOk, UpOk, ComesTo, End;
    var first, middle := DepartTo(net, c, 0);
    ComesThere(net, first, middle, c);
    var rest;
    rest, net' := EmptyWay(middle, c);
    ComesOn(net, first, middle, rest, net', c);
    more := first + rest;
    ComesThere(net, more, net', c);
    SameEnd(middle.peers[c].link, net'.peers[c].link);
  }

  // ---------------------------------------------------------------- rounds of requests

  /** The client has asked for the time, or can. */
  lemma Asked(net: Net, c: ClientId) returns (more: seq<Step>, net': Net)
    requires NetOk(net) && Wired(net) && Live(net, c)
    requires TimeReply !in net.peers[c].queue && TimeReply !in net.peers[c].down
    ensures ComesTo(net, more, net', c)
    ensures
      var p, p' := net.peers[c], net'.peers[c];
      && net' == net.(peers := net'.peers) && Line(net', p') == Line(net, p)
      && p' == p.(up := p'.up) && p'.up != [] && p'.up[0] == TimeRequest
  {
    hide NetOk, Wired, Line, LinkOk, ComesTo, Next, Enabled;
    var p := net.peers[c];
    WiredPart(net, c);
    InUseUp(net, c);
    if p.up == [] {
      AskIs(net, c);
      ComesOne(net, AskTime(c), c);
      more, net' := [AskTime(c)], Next(net, AskTime(c));
    } else {
      ComesNowhere(net, c);
      more, net' := [], net;
    }
  }

  /** All that a client in use sends are requests. */
  lemma InUseUp(net: Net, c: ClientId)
    requires NetOk(net) && Wired(net) && Live(net, c)
    ensures net.peers[c].up == [] || net.peers[c].up[0] == TimeRequest
  {
    ServerLinked(net);
    hide LinkOk, ValuesOk, ClientOk, Orderly, ServerOk;
    assert PeerOk(net, net.peers[c]) && UpOk(net.peers[c]);
    if net.peers[c].up != [] {
      assert net.peers[c].up[0] in net.peers[c].up;
    }
  }

  lemma AskIs(net: Net, c: ClientId)
    requires Live(net, c) && net.peers[c].up == []
    requires TimeReply !in net.peers[c].queue && TimeReply !in net.peers[c].down
    ensures Enabled(net, AskTime(c)) && Live(Next(net, AskTime(c)), c)
    ensures
      var net' := Next(net, AskTime(c));
      var p, p' := net.peers[c], net'.peers[c];
      && net' == net.(peers := net'.peers) && Line(net', p') == Line(net, p) && p' == p.(up := [TimeRequest])
  {
    hide DueFrom;
    assert [] + [TimeRequest] == [TimeRequest];
  }

  /** The request is answered into a ring that has room. */
  lemma ReplyIs(net: Net, c: ClientId)
    requires Live(net, c) && net.peers[c].up != [] && net.peers[c].up[0] == TimeRequest
    requires net.peers[c].link.held + FrameSize(TimeReply) < RING
    ensures Enabled(net, AnswerTime(c)) && Live(Next(net, AnswerTime(c)), c)
    ensures
      var net' := Next(net, AnswerTime(c));
      var p, p' := net.peers[c], net'.peers[c];
      && net' == net.(peers := net'.peers) && Line(net', p') == Line(net, p)
      && p'.queue == p.queue && p'.down == p.down + [TimeReply] && p'.up == p.up[1..]
      && p'.link == p.link.(held := p.link.held + FrameSize(TimeReply))
  {
    hide DueFrom;
  }

  /** A request and its reply, which waits in the ring. */
  lemma Replied(net: Net, c: ClientId) returns (more: seq<Step>, net': Net)
    requires NetOk(net) && Wired(net) && Live(net, c)
    requires TimeReply !in net.peers[c].queue && TimeReply !in net.peers[c].down
    requires net.peers[c].link.held + FrameSize(TimeReply) < RING
    ensures ComesTo(net, more, net', c)
    ensures
      var p, p' := net.peers[c], net'.peers[c];
      && net' == net.(peers := net'.peers) && Line(net', p') == Line(net, p)
      && p'.queue == p.queue && p'.down == p.down + [TimeReply]
      && p'.link == p.link.(held := p.link.held + FrameSize(TimeReply))
  {
    hide NetOk, Wired, Line, LinkOk, UpOk, ComesTo, Next, Enabled, FrameSize;
    var first, asked := Asked(net, c);
    ComesThere(net, first, asked, c);
    ReplyIs(asked, c);
    ComesOne(asked, AnswerTime(c), c);
    net' := Next(asked, AnswerTime(c));
    ComesOn(net, first, asked, [AnswerTime(c)], net', c);
    more := first + [AnswerTime(c)];
  }

  lemma EndBeyond(l: Link, n: nat)
    ensures End(l.(held := l.held + n)) == Place(End(l) + n)
  {
    hide Place;
    PlaceAdd(l.start + l.held, n);
  }

  /** Each round moves the ring on by 27 bytes. */
  lemma OneRound(net: Net, c: ClientId) returns (more: seq<Step>, net': Net)
    requires Idle(net, c)
    ensures ComesTo(net, more, net', c) && Idle(net', c)
    ensures
      && net' == net.(peers := net'.peers) && Line(net', net'.peers[c]) == Line(net, net.peers[c])
      && End(net'.peers[c].link) == Place(End(net.peers[c].link) + 27)
      && net'.peers[c].queue == net.peers[c].queue
  {
    hide NetOk, Wired, Line, LinkOk, UpOk, ComesTo, End, Place;
    var first, replied := Replied(net, c);
    ComesThere(net, first, replied, c);
    EndBeyond(net.peers[c].link, 27);
    var rest;
    rest, net' := ToIdle(replied, c);
    ComesOn(net, first, replied, rest, net', c);
    more := first + rest;
  }

  lemma PlaceOf(n: nat)
    requires n < RING
    ensures Place(n) == n
  {
  }

  lemma {:induction false} Rounds(net: Net, c: ClientId, n: nat) returns (more: seq<Step>, net': Net)
    requires Idle(net, c)
    ensures ComesTo(net, more, net', c) && Idle(net', c)
    ensures
      && net' == net.(peers := net'.peers) && Line(net', net'.peers[c]) == Line(net, net.peers[c])
      && End(net'.peers[c].link) == Place(End(net.peers[c].link) + 27 * n)
      && net'.peers[c].queue == net.peers[c].queue
    decreases n
  {
    hide NetOk, Wired, Line, ComesTo, End, Place;
    EndIsPlace(net.peers[c].link);
    if n == 0 {
      ComesNowhere(net, c);
      more, net' := [], net;
      PlaceOf(End(net.peers[c].link));
    } else {
      var first, next := OneRound(net, c);
      var rest;
      rest, net' := Rounds(next, c, n - 1);
      ComesOn(net, first, next, rest, net', c);
      more := first + rest;
      PlaceAdd(End(net.peers[c].link) + 27, 27 * (n - 1));
    }
  }

  lemma EndIsPlace(l: Link)
    ensures End(l) < RING
  {
  }

  /** 27 has an inverse modulo 1024, so every position can be reached. */
  lemma RotateTo(net: Net, c: ClientId, target: nat) returns (more: seq<Step>, net': Net)
    requires Idle(net, c) && target < RING
    ensures ComesTo(net, more, net', c) && Idle(net', c)
    ensures
      && net' == net.(peers := net'.peers) && Line(net', net'.peers[c]) == Line(net, net.peers[c])
      && End(net'.peers[c].link) == target
      && net'.peers[c].queue == net.peers[c].queue
  {
    hide NetOk, Wired, Line, ComesTo, End, Place, Idle;
    IdleThere(net, c);
    EndIsPlace(net.peers[c].link);
    var d := target + RING - End(net.peers[c].link);
    more, net' := Rounds(net, c, 531 * d);
    Inverse(End(net.peers[c].link), d);
    WholeTurn(target);
  }

  lemma IdleThere(net: Net, c: ClientId)
    requires Idle(net, c)
    ensures c in net.peers
  {
  }

  lemma Inverse(n: nat, d: nat)
    ensures Place(n + 27 * (531 * d)) == Place(n + d)
  {
    assert n + 27 * (531 * d) == n + d + RING * (14 * d);
  }

  lemma WholeTurn(n: nat)
    requires n < RING
    ensures Place(n + RING) == n
  {
  }

  // ---------------------------------------------------------------- a place for a burst

  /** How many messages of the line leave a byte free behind `held` others. */
  function RoomFor(line: seq<Msg>, held: nat): (k: nat)
    ensures k <= |line|
  {
    if line == [] || held + FrameSize(line[0]) >= RING then 0 else 1 + RoomFor(line[1..], held + FrameSize(line[0]))
  }

  /** Some first part of the line fills the ring exactly. */
  ghost predicate Fills(line: seq<Msg>, held: nat) {
    exists k :: FillsAt(line, held, k)
  }

  ghost predicate FillsAt(line: seq<Msg>, held: nat, k: nat) {
    k <= |line| && held + Size(line[..k]) == RING
  }

  lemma {:induction false} RoomIs(line: seq<Msg>, held: nat)
    requires held < RING
    ensures
      var k := RoomFor(line, held);
      && held + Size(line[..k]) < RING
      && (k < |line| ==> held + Size(line[..k + 1]) >= RING)
    decreases |line|
  {
    hide FrameSize;
    var k := RoomFor(line, held);
    assert line[..0] == [];
    NoSize();
    if k > 0 {
      RoomIs(line[1..], held + FrameSize(line[0]));
      SizeFirst(line, k - 1);
      if k < |line| {
        SizeFirst(line, k);
      }
    } else if line != [] {
      SizeFirst(line, 0);
      assert line[1..][..0] == [];
    }
  }

  /** From the last cell on, what waits goes around the end, and then the guard is right. */
  lemma LastCell(line: seq<Msg>, held: nat)
    requires line != [] && AllSendable(line) && held <= 1 && !Fills(line, held)
    ensures 0 < RoomFor(line, held) <= |line| && StopsAt(Link(Whole, RING - 1, held, 0, 0), line, RoomFor(line, held))
  {
    hide BodySize, Sendable;
    var k := RoomFor(line, held);
    RoomIs(line, held);
    assert line[0] in line;
    FrameLimit(line[0]);
    if k < |line| {
      SizeTake(line[..k + 1], k);
      assert line[..k + 1][..k] == line[..k] && line[..k + 1][k..] == [line[k]];
      SizeOne(line[k]);
      assert !FillsAt(line, held, k + 1);
      assert line[..k][0] == line[0];
    }
  }

  lemma {:induction false} SizeGrows(line: seq<Msg>, i: nat, j: nat)
    requires i < j <= |line|
    ensures Size(line[..i]) + HEADER <= Size(line[..j])
  {
    hide BodySize;
    SizeTake(line[..j], i);
    assert line[..j][..i] == line[..i];
    assert line[..j][i..] != [];
  }

  /** The ring cannot be filled exactly behind one byte and behind none. */
  lemma NotBoth(line: seq<Msg>)
    ensures !Fills(line, 0) || !Fills(line, 1)
  {
    hide FrameSize;
    if Fills(line, 0) && Fills(line, 1) {
      var i: nat :| FillsAt(line, 0, i);
      var j: nat :| FillsAt(line, 1, j);
      if i < j {
        SizeGrows(line, i, j);
      } else if j < i {
        SizeGrows(line, j, i);
      }
    }
  }

  /** A state from which the timer hands over a first part of the line. */
  ghost predicate Placed(net: Net, c: ClientId, k: nat) {
    && NetOk(net) && Wired(net) && Live(net, c)
    && 0 < k && StopsAt(net.peers[c].link, Line(net, net.peers[c]), k)
  }

  lemma AtLastCell(l: Link)
    requires l.start < RING && l.held <= 1 && (l.held == 0 ==> End(l) == RING - 1) && (l.held == 1 ==> End(l) == 0)
    ensures l.start == RING - 1
  {
  }

  /** The ring is moved to its last cell, with one byte of a reply still in it if that is needed. */
  lemma PlaceBurst(net: Net, c: ClientId) returns (more: seq<Step>, net': Net, k: nat)
    requires Idle(net, c) && AllSendable(Line(net, net.peers[c])) && Line(net, net.peers[c]) != []
    ensures ComesTo(net, more, net', c) && Placed(net', c, k)
    ensures
      && net' == net.(peers := net'.peers) && Line(net', net'.peers[c]) == Line(net, net.peers[c])
      && net'.peers[c].queue == net.peers[c].queue
  {
    hide NetOk, Wired, Line, ComesTo, End, Place, AllSendable, Fills, RoomFor, StopsAt, LinkOk, UpOk;
    var line := Line(net, net.peers[c]);
    NotBoth(line);
    if !Fills(line, 0) {
      more, net' := RotateTo(net, c, RING - 1);
      k := RoomFor(line, 0);
      LastCell(line, 0);
    } else {
      var first, turned := RotateTo(net, c, RING - 27);
      var second, replied := Replied(turned, c);
      ComesThere(net, first, turned, c);
      ComesThere(turned, second, replied, c);
      EndBeyond(turned.peers[c].link, 27);
      WholeTurn(0);
      var third;
      third, net' := DepartTo(replied, c, 1);
      ComesOn(net, first, turned, second, replied, c);
      ComesOn(net, first + second, replied, third, net', c);
      more := first + second + third;
      k := RoomFor(line, 1);
      LastCell(line, 1);
    }
    ComesThere(net, more, net', c);
    StartBelow(net'.peers[c]);
    AtLastCell(net'.peers[c].link);
    StopsLink(Link(Whole, RING - 1, net'.peers[c].link.held, 0, 0), net'.peers[c].link, line, k);
  }

  lemma StartBelow(p: Peer)
    requires LinkOk(p)
    ensures p.link.start < RING && p.link.held < RING
  {
  }

  // ---------------------------------------------------------------- if

  lemma TimerComes(net: Net, c: ClientId, k: nat) returns (net': Net)
    requires NetOk(net) && Wired(net) && Live(net, c) && StopsAt(net.peers[c].link, Line(net, net.peers[c]), k)
    ensures ComesTo(net, [Process], net', c) && ShowsSame(net.store, net'.store)
    ensures
      var p, p', line := net.peers[c], net'.peers[c], Line(net, net.peers[c]);
      && k <= |line| && Line(net', p') == line[k..] && p'.queue == line[k..] && p'.down == p.down + line[..k]
      && p'.link == p.link.(held := p.link.held + Size(line[..k]))
  {
    hide NetOk, Wired, Next, Enabled, Line, StopsAt, ShowsSame, Size, ComesTo;
    net' := Next(net, Process);
    TimerSends(net, c, k);
    ComesOne(net, Process, c);
  }

  lemma SameShows(st: State)
    ensures ShowsSame(st, st)
  {
  }

  lemma ShowsTwice(a: State, b: State, d: State)
    requires ShowsSame(a, b) && ShowsSame(b, d)
    ensures ShowsSame(a, d)
  {
    forall h | 0 <= h < |a.entries| ensures Shown(a.entries[h]) == Shown(d.entries[h]) {
      assert Shown(a.entries[h]) == Shown(b.entries[h]);
    }
  }

  lemma NoReplyInLine(net: Net, p: Peer)
    ensures TimeReply in p.queue <==> TimeReply in Line(net, p)
  {
    hide DueFrom;
    NoReplyDue(net.store.entries, p.published, 0, net.nextId, net.now);
  }

  /** One burst after the other. */
  lemma {:induction false} PassAll(net: Net, c: ClientId) returns (more: seq<Step>, net': Net)
    requires Idle(net, c) && AllSendable(Line(net, net.peers[c]))
    ensures ComesTo(net, more, net', c) && Idle(net', c) && Line(net', net'.peers[c]) == []
    decreases |Line(net, net.peers[c])|
  {
    hide NetOk, Wired, Line, ComesTo, AllSendable, StopsAt, ShowsSame, Size, Placed, UpOk, LinkOk;
    var line := Line(net, net.peers[c]);
    if line == [] {
      ComesNowhere(net, c);
      more, net' := [], net;
    } else {
      var first, placed, k := PlaceBurst(net, c);
      PlacedThere(placed, c, k);
      var sent := TimerComes(placed, c, k);
      ComesThere(placed, [Process], sent, c);
      NoReplyInLine(placed, placed.peers[c]);
      SendableConcat(line[..k], line[k..]);
      assert line == line[..k] + line[k..];
      var second, idle := ToIdle(sent, c);
      var rest;
      rest, net' := PassAll(idle, c);
      ComesOn(net, first, placed, [Process], sent, c);
      ComesOn(net, first + [Process], sent, second, idle, c);
      ComesOn(net, first + [Process] + second, idle, rest, net', c);
      more := first + [Process] + second + rest;
    }
  }

  lemma PlacedThere(net: Net, c: ClientId, k: nat)
    requires Placed(net, c, k)
    ensures NetOk(net) && Wired(net) && Live(net, c)
    ensures 0 < k && StopsAt(net.peers[c].link, Line(net, net.peers[c]), k)
  {
  }

  /** The reply in front of the line goes out first. */
  lemma PassReply(net: Net, c: ClientId) returns (more: seq<Step>, net': Net)
    requires NetOk(net) && Wired(net) && Live(net, c) && LinePassable(net, c)
    ensures ComesTo(net, more, net', c)
    ensures TimeReply !in net'.peers[c].queue && AllSendable(Line(net', net'.peers[c]))
  {
    hide NetOk, Wired, Line, ComesTo, AllSendable, StopsAt, ShowsSame, Size, UpOk, LinkOk, End, Ring;
    var p, line := net.peers[c], Line(net, net.peers[c]);
    if TimeReply in p.queue {
      var h, k :| 0 <= h <= p.link.held && 0 < k <= |line| && Burst(End(p.link), line, h, k);
      var first, ready := DepartTo(net, c, h);
      ComesThere(net, first, ready, c);
      StartBelow(ready.peers[c]);
      RingOf(ready.peers[c].link);
      StopsLink(Ring(End(p.link), h), ready.peers[c].link, line, k);
      net' := TimerComes(ready, c, k);
      ComesOn(net, first, ready, [Process], net', c);
      more := first + [Process];
      assert line == line[..k] + line[k..];
      SendableConcat(line[..k], line[k..]);
      WiredPart(net, c);
      BehindReply(net, p, k);
    } else {
      ComesNowhere(net, c);
      more, net' := [], net;
    }
  }

  lemma BehindReply(net: Net, p: Peer, k: nat)
    requires UpOk(p) && 0 < k <= |Line(net, p)|
    ensures TimeReply !in Line(net, p)[k..]
  {
    hide DueFrom;
    NoReplyDue(net.store.entries, p.published, 0, net.nextId, net.now);
    var line := Line(net, p);
    forall i | k <= i < |line| ensures line[i] != TimeReply {
      if i >= |p.queue| {
        assert line[i] in DueFrom(net.store.entries, p.published, 0, net.nextId, net.now);
      }
    }
  }

  /** If the line can pass, the system can come to a quiet state by itself. */
  lemma TalkQuietens(net: Net, c: ClientId)
    requires NetOk(net) && Wired(net) && Live(net, c) && LinePassable(net, c)
    ensures CanQuieten(net, c)
  {
    hide NetOk, Wired, Line, ComesTo, AllSendable, UpOk, LinkOk, LinePassable, End, AllClean;
    var first, free := PassReply(net, c);
    ComesThere(net, first, free, c);
    var second, idle := ToIdle(free, c);
    var third, end := PassAll(idle, c);
    ComesOn(net, first, free, second, idle, c);
    ComesOn(net, first + second, idle, third, end, c);
    ComesThere(net, first + second + third, end, c);
    NothingInLine(end, end.peers[c]);
    assert Quietens(net, first + second + third, end, c);
  }

  /** Exactly when. From a reachable state in which a client is in use and has lost nothing, the system can come by itself
      to a state in which nothing is left to be done for it, if and only if all that is in line and all that is still to be
      told can be written, and a time reply in front of the line, if there is one, can go out with a part of the line
      without a loss. */
  lemma QuietensIff(start: Net, steps: seq<Step>, net: Net, c: ClientId)
    requires Init(start) && Reaches(start, steps, net) && Live(net, c)
    ensures CanQuieten(net, c) <==> Passable(net.peers[c], Line(net, net.peers[c]))
  {
    ReachableWired(start, steps, net);
    hide NetOk, Wired, Init, Passable, Quietens, Reaches, Line;
    if LinePassable(net, c) {
      TalkQuietens(net, c);
    } else {
      forall more, net' ensures !Quietens(net, more, net', c) {
        if Quietens(net, more, net', c) {
          QuietIsPassable(net, more, net', c);
        }
      }
    }
  }
}
