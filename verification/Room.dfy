/** Exactly when nothing can go wrong on the way to a client, whatever the timing. */
module Room {
  import opened Wrappers
  import opened Bytes
  import opened Codec
  import opened Store
  import opened Links
  import opened Replication
  import opened PipeLaws
  import opened ReplicationLaws
  import opened TimerLaws
  import opened Losses
  import opened Wires
  import opened Convergence
  import opened CallRules
  import opened Progress
  import opened Passage

  // ---------------------------------------------------------------- what is outstanding

  /** Of messages of which `got` bytes have arrived, the bytes that have not been taken out of the client's ring. */
  function Unread(down: seq<Msg>, got: nat): int
    decreases |down|
  {
    if down != [] && FrameSize(down[0]) <= got then Unread(down[1..], got - FrameSize(down[0]))
    else Size(down) - got + Pending(got)
  }

  lemma {:induction false} UnreadBounds(down: seq<Msg>, got: nat)
    requires got <= Size(down)
    ensures Size(down) - got <= Unread(down, got) <= Size(down)
    decreases |down|
  {
    hide BodySize;
    if down != [] && FrameSize(down[0]) <= got {
      UnreadBounds(down[1..], got - FrameSize(down[0]));
    }
  }

  lemma {:induction false} UnreadMore(down: seq<Msg>, got: nat, line: seq<Msg>)
    requires got <= Size(down)
    ensures Unread(down + line, got) == Unread(down, got) + Size(line)
    decreases |down|
  {
    hide BodySize;
    SizeConcat(down, line);
    if down == [] {
      assert down + line == line;
    } else if FrameSize(down[0]) <= got {
      assert (down + line)[1..] == down[1..] + line;
      UnreadMore(down[1..], got - FrameSize(down[0]), line);
    }
  }

  /** The length of a time reply. */
  const REPLY := 27

  /** A client asks for the time again when it has been answered; so one reply more can come, unless one is under way. */
  function Extra(down: seq<Msg>, waits: bool): nat {
    if TimeReply in down || waits then 0 else REPLY
  }

  /** The bytes behind the time reply that is under way. */
  function Behind(down: seq<Msg>): nat {
    if down == [] then 0 else if down[0] == TimeReply then Size(down[1..]) else Behind(down[1..])
  }

  function Least(a: nat, b: nat): nat {
    if a < b then a else b
  }

  /** The server's ring has room, with `size` bytes in line: for what waits in it, the line, and a reply, if one can still
      come; and once the reply that is under way has arrived, for what is behind it, the line, and another one. */
  predicate WriteRoom(p: Peer, size: nat) {
    && p.link.held + size + Extra(p.down, TimeReply in p.queue) < RING
    && (TimeReply in p.down ==> Least(p.link.held, Behind(p.down)) + size + REPLY < RING)
  }

  /** With `got` bytes of the first message there, the client's ring can be filled when `g` of them are. */
  predicate FloodsAt(down: seq<Msg>, got: nat, at: nat, size: nat, waits: bool, g: nat) {
    && down != [] && got <= g < FrameSize(down[0]) && MayFill(at, g)
    && Unread(down, g) + size + Extra(down, waits) >= RING
  }

  /** At some time while these messages come in, what is left of them, the line, and a reply, if one can still come, are
      enough to fill the client's ring, and it can be filled. */
  ghost predicate Floods(down: seq<Msg>, got: nat, at: nat, size: nat, waits: bool)
    decreases |down|
  {
    down != []
    && ((exists g :: FloodsAt(down, got, at, size, waits, g))
        || Floods(down[1..], Rest(down, got), Place(at + FrameSize(down[0])), size, waits))
  }

  /** What has arrived of the messages behind the first. */
  function Rest(down: seq<Msg>, got: nat): nat
    requires down != []
  {
    if got < FrameSize(down[0]) then 0 else got - FrameSize(down[0])
  }

  // ---------------------------------------------------------------- sizes

  lemma ReplySize()
    ensures FrameSize(TimeReply) == REPLY
  {
  }

  lemma {:induction false} RelevantSize(ms: seq<Msg>)
    ensures Size(ms) == Size(Relevant(ms)) + REPLY * multiset(ms)[TimeReply]
  {
    hide BodySize;
    ReplyBody();
    if ms != [] {
      RelevantSize(ms[1..]);
      assert ms == [ms[0]] + ms[1..];
      RelevantOne(ms[0]);
      RelevantConcat([ms[0]], ms[1..]);
      SizeConcat(Relevant([ms[0]]), Relevant(ms[1..]));
      SizeOne(ms[0]);
      NoSize();
    }
  }

  lemma ReplyBody()
    ensures BodySize(TimeReply) == 16
  {
  }

  lemma {:induction false} BehindConcat(a: seq<Msg>, b: seq<Msg>)
    ensures Behind(a + b) == if TimeReply in a then Behind(a) + Size(b) else Behind(b)
  {
    hide FrameSize;
    if a == [] {
      assert [] + b == b;
    } else {
      assert (a + b)[1..] == a[1..] + b;
      BehindConcat(a[1..], b);
      SizeConcat(a[1..], b);
    }
  }

  lemma {:induction false} BehindNone(a: seq<Msg>)
    requires TimeReply !in a
    ensures Behind(a) == 0
  {
    if a != [] {
      BehindNone(a[1..]);
    }
  }

  lemma {:induction false} BehindLess(a: seq<Msg>)
    ensures a != [] ==> Behind(a) <= Size(a[1..])
    ensures Behind(a) <= Size(a)
  {
    hide BodySize;
    if a != [] {
      BehindLess(a[1..]);
    }
  }

  // ---------------------------------------------------------------- floods

  lemma RelevantHead(down: seq<Msg>)
    requires down != []
    ensures Size(Relevant(down[1..])) <= Size(Relevant(down))
    ensures multiset(down[1..])[TimeReply] <= multiset(down)[TimeReply]
  {
    assert down == [down[0]] + down[1..];
    RelevantConcat([down[0]], down[1..]);
    SizeConcat(Relevant([down[0]]), Relevant(down[1..]));
  }

  lemma NoFloodAt(down: seq<Msg>, got: nat, at: nat, size: nat, waits: bool, g: nat)
    requires multiset(down)[TimeReply] + (if waits then 1 else 0) <= 1
    requires Size(Relevant(down)) + size + (if waits then 0 else REPLY) < RING
    ensures !FloodsAt(down, got, at, size, waits, g)
  {
    hide BodySize, MayFill, Unread, Relevant;
    if down != [] && g < FrameSize(down[0]) {
      UnreadBounds(down, g);
      RelevantSize(down);
    }
  }

  /** Small amounts do not flood. */
  lemma {:induction false} NoFlood(down: seq<Msg>, got: nat, at: nat, size: nat, waits: bool)
    requires multiset(down)[TimeReply] + (if waits then 1 else 0) <= 1
    requires Size(Relevant(down)) + size + (if waits then 0 else REPLY) < RING
    ensures !Floods(down, got, at, size, waits)
    decreases |down|
  {
    hide FrameSize, FloodsAt, Relevant, Size;
    if down != [] {
      RelevantHead(down);
      NoFlood(down[1..], Rest(down, got), Place(at + FrameSize(down[0])), size, waits);
      forall g ensures !FloodsAt(down, got, at, size, waits, g) {
        NoFloodAt(down, got, at, size, waits, g);
      }
    }
  }

  lemma FloodsAtAppend(down: seq<Msg>, got: nat, at: nat, line: seq<Msg>, g: nat)
    requires down != [] && FloodsAt(down + line, got, at, 0, false, g)
    ensures FloodsAt(down, got, at, Size(line), TimeReply in line, g)
  {
    hide BodySize, MayFill, Unread;
    UnreadMore(down, g, line);
  }

  /** Messages that go out were counted before. */
  lemma {:induction false} FloodsAppend(down: seq<Msg>, got: nat, at: nat, line: seq<Msg>)
    requires multiset(line)[TimeReply] <= 1 && Size(Relevant(line)) + REPLY < RING
    requires Floods(down + line, got, at, 0, false)
    ensures Floods(down, got, at, Size(line), TimeReply in line)
    decreases |down|
  {
    hide FrameSize, FloodsAt, Relevant, Size;
    if down == [] {
      assert [] + line == line;
      NoFlood(line, got, at, 0, false);
    } else {
      var both := down + line;
      assert both[1..] == down[1..] + line && both[0] == down[0];
      if Floods(both[1..], Rest(both, got), Place(at + FrameSize(both[0])), 0, false) {
        FloodsAppend(down[1..], Rest(down, got), Place(at + FrameSize(down[0])), line);
      } else {
        var g: nat :| FloodsAt(both, got, at, 0, false, g);
        FloodsAtAppend(down, got, at, line, g);
      }
    }
  }

  lemma FloodsAtReply(down: seq<Msg>, got: nat, at: nat, size: nat, g: nat)
    requires down != [] && TimeReply !in down && FloodsAt(down + [TimeReply], got, at, size, false, g)
    ensures FloodsAt(down, got, at, size, false, g)
  {
    hide BodySize, MayFill, Unread;
    SizeOne(TimeReply);
    ReplyBody();
    UnreadMore(down, g, [TimeReply]);
    assert TimeReply in down + [TimeReply];
  }

  lemma ReplyAlone(got: nat, at: nat, size: nat)
    requires size + REPLY < RING
    ensures !Floods([TimeReply], got, at, size, false)
  {
    assert [TimeReply][1..] == [];
    assert Relevant([TimeReply]) == [];
    NoFlood([TimeReply], got, at, size, false);
  }

  /** So was the reply that comes. */
  lemma {:induction false} FloodsReply(down: seq<Msg>, got: nat, at: nat, size: nat)
    requires TimeReply !in down && size + REPLY < RING
    requires Floods(down + [TimeReply], got, at, size, false)
    ensures Floods(down, got, at, size, false)
    decreases |down|
  {
    hide FrameSize, FloodsAt;
    if down == [] {
      assert [] + [TimeReply] == [TimeReply];
      ReplyAlone(got, at, size);
    } else {
      var both := down + [TimeReply];
      assert both[1..] == down[1..] + [TimeReply] && both[0] == down[0];
      if Floods(both[1..], Rest(both, got), Place(at + FrameSize(both[0])), size, false) {
        FloodsReply(down[1..], Rest(down, got), Place(at + FrameSize(down[0])), size);
      } else {
        var g: nat :| FloodsAt(both, got, at, size, false, g);
        FloodsAtReply(down, got, at, size, g);
      }
    }
  }

  /** Bytes that arrive bring nothing new. */
  lemma {:induction false} FloodsLater(down: seq<Msg>, got: nat, at: nat, size: nat, waits: bool, n: nat)
    requires Floods(down, got + n, at, size, waits)
    ensures Floods(down, got, at, size, waits)
    decreases |down|
  {
    hide FrameSize, MayFill, Unread;
    var next := Place(at + FrameSize(down[0]));
    if Floods(down[1..], Rest(down, got + n), next, size, waits) {
      FloodsLater(down[1..], Rest(down, got), next, size, waits, Rest(down, got + n) - Rest(down, got));
    } else {
      var g: nat :| FloodsAt(down, got + n, at, size, waits, g);
      assert FloodsAt(down, got, at, size, waits, g);
    }
  }

  // ---------------------------------------------------------------- if

  ghost predicate PeerSafe(p: Peer, size: nat) {
    WriteRoom(p, size) && !Floods(p.down, p.link.got, p.link.at, size, TimeReply in p.queue)
  }

  /** The client is live, its line can be written, and there is room for everything. */
  ghost predicate Safe(net: Net, c: ClientId) {
    && Live(net, c) && AllSendable(Line(net, net.peers[c]))
    && PeerSafe(net.peers[c], Size(Line(net, net.peers[c])))
  }

  lemma LinkBounds(p: Peer)
    requires LinkOk(p)
    ensures p.link.got <= Size(p.down) && p.link.held <= Size(p.down) - p.link.got
    ensures !Complete(p) ==> Pending(p.link.got) + OnTheWire(p) <= Unread(p.down, p.link.got)
  {
    hide FrameSize;
    UnreadBounds(p.down, p.link.got);
  }

  lemma CountOne(a: seq<Msg>, m: Msg)
    ensures m in a <==> multiset(a)[m] > 0
  {
  }

  lemma SafeTimer(net: Net, c: ClientId)
    requires NetOk(net) && Wired(net) && Safe(net, c)
    ensures Safe(Next(net, Process), c)
  {
    hide NetOk, Wired, Line, Next, AllSendable, Size, LinkOk, UpOk, WriteRoom, Floods;
    var p, line := net.peers[c], Line(net, net.peers[c]);
    WiredPart(net, c);
    HeldLess(p, Size(line));
    ShortIsWhole(p.link, line);
    TimerSends(net, c, |line|);
    assert line[..|line|] == line && line[|line|..] == [];
    NoneSendable();
    NoSize();
    LineReplies(net, p);
    RoomWritten(p, Next(net, Process).peers[c], line);
  }

  lemma ShortIsWhole(l: Link, line: seq<Msg>)
    requires l.held + Size(line) < RING && AllSendable(line)
    ensures StopsAt(l, line, |line|)
  {
    ShortLine(l, line);
  }

  lemma HeldLess(p: Peer, size: nat)
    requires WriteRoom(p, size)
    ensures p.link.held + size < RING
  {
  }

  /** The line has the replies of the queue, and no more. */
  lemma LineReplies(net: Net, p: Peer)
    requires UpOk(p)
    ensures
      var line := Line(net, p);
      && (TimeReply in p.queue <==> TimeReply in line) && multiset(line)[TimeReply] + multiset(p.down)[TimeReply] <= 1
      && (TimeReply in line ==> line[0] == TimeReply)
  {
    hide DueFrom;
    var due := DueFrom(net.store.entries, p.published, 0, net.nextId, net.now);
    NoReplyDue(net.store.entries, p.published, 0, net.nextId, net.now);
    assert multiset(due)[TimeReply] == 0;
    assert Line(net, p) == p.queue + due;
  }

  /** The whole line has gone out. */
  lemma RoomWritten(p: Peer, p': Peer, line: seq<Msg>)
    requires PeerSafe(p, Size(line)) && (TimeReply in p.queue <==> TimeReply in line)
    requires multiset(line)[TimeReply] + multiset(p.down)[TimeReply] <= 1
    requires TimeReply in line ==> line[0] == TimeReply
    requires p'.queue == [] && p'.down == p.down + line
    requires p'.link == p.link.(held := p.link.held + Size(line))
    ensures PeerSafe(p', 0)
  {
    hide FrameSize, Floods, Relevant, Behind;
    BehindConcat(p.down, line);
    RelevantSize(line);
    CountOne(line, TimeReply);
    CountOne(p.down, TimeReply);
    if TimeReply in line {
      BehindHead(line);
    } else {
      BehindNone(line);
    }
    if Floods(p'.down, p'.link.got, p'.link.at, 0, false) {
      FloodsAppend(p.down, p.link.got, p.link.at, line);
    }
  }

  lemma BehindHead(line: seq<Msg>)
    requires line != [] && line[0] == TimeReply
    ensures Behind(line) + REPLY == Size(line)
  {
  }

  /** A reply has been written. */
  lemma RoomReplied(p: Peer, p': Peer, size: nat)
    requires PeerSafe(p, size) && TimeReply !in p.queue && TimeReply !in p.down
    requires p'.queue == p.queue && p'.down == p.down + [TimeReply]
    requires p'.link == p.link.(held := p.link.held + REPLY)
    ensures PeerSafe(p', size)
  {
    hide FrameSize, Floods, Behind;
    BehindConcat(p.down, [TimeReply]);
    BehindHead([TimeReply]);
    SizeOne(TimeReply);
    ReplySize();
    if Floods(p'.down, p'.link.got, p'.link.at, size, false) {
      FloodsReply(p.down, p.link.got, p.link.at, size);
    }
  }

  /** Bytes have left the ring. */
  lemma RoomDeparted(p: Peer, p': Peer, size: nat)
    requires PeerSafe(p, size) && p'.queue == p.queue && p'.down == p.down
    requires p'.link.held <= p.link.held && p'.link.got == p.link.got && p'.link.at == p.link.at
    ensures PeerSafe(p', size)
  {
    hide Floods;
  }

  /** Bytes have arrived, and none was lost. */
  lemma RoomArrived(p: Peer, n: nat, size: nat)
    requires PeerSafe(p, size) && LinkOk(p) && p.down != [] && !Complete(p)
    requires n <= OnTheWire(p) && CanArrive(p.link, n)
    ensures Intact(p) ==> Intact(p.(link := Arrived(p.link, n)))
    ensures PeerSafe(p.(link := Arrived(p.link, n)), size)
  {
    hide FrameSize, Floods, MayFill, WriteRoom, Unread, LinkOk;
    LinkBounds(p);
    if Pending(p.link.got) + n >= RING {
      assert FloodsAt(p.down, p.link.got, p.link.at, size, TimeReply in p.queue, p.link.got);
      FloodsHere(p.down, p.link.got, p.link.at, size, TimeReply in p.queue, p.link.got);
    } else if Floods(p.down, p.link.got + n, p.link.at, size, TimeReply in p.queue) {
      FloodsLater(p.down, p.link.got, p.link.at, size, TimeReply in p.queue, n);
    }
    SameRoom(p, p.(link := Arrived(p.link, n)), size);
  }

  lemma SameRoom(p: Peer, p': Peer, size: nat)
    requires WriteRoom(p, size) && p'.queue == p.queue && p'.down == p.down && p'.link.held == p.link.held
    ensures WriteRoom(p', size)
  {
  }

  lemma FloodsHere(down: seq<Msg>, got: nat, at: nat, size: nat, waits: bool, g: nat)
    requires FloodsAt(down, got, at, size, waits, g)
    ensures Floods(down, got, at, size, waits)
  {
  }

  /** The first message has been handled. */
  lemma RoomConsumed(p: Peer, p': Peer, size: nat)
    requires PeerSafe(p, size) && LinkOk(p) && UpOk(p) && Complete(p)
    requires p'.queue == p.queue && p'.down == p.down[1..] && p'.link == Past(p.link, FrameSize(p.down[0]))
    ensures PeerSafe(p', size)
  {
    hide FrameSize, FloodsAt, LinkOk, Behind, Place;
    LinkBounds(p);
    assert p.down == [p.down[0]] + p.down[1..];
    SizeCons(p.down[0], p.down[1..]);
    BehindFirst(p.down);
    CountOne(p.down[1..], TimeReply);
    CountOne(p.queue, TimeReply);
  }

  lemma BehindFirst(down: seq<Msg>)
    requires down != []
    ensures Behind(down) == if down[0] == TimeReply then Size(down[1..]) else Behind(down[1..])
  {
  }

  lemma SafeConnection(net: Net, s: Step, c: ClientId)
    requires Safe(net, c) && LinkOk(net.peers[c]) && UpOk(net.peers[c]) && Everyday(s) && s.c == c && Enabled(net, s)
    ensures Safe(Next(net, s), c)
  {
    hide AllSendable, Line, Size, Next, PeerSafe, LinkOk, UpOk, AfterStep, Departed, Arrived;
    var p, line := net.peers[c], Line(net, net.peers[c]);
    var p' := AfterStep(net, p, s);
    EverydayIs(net, s, c);
    match s
    case AnswerTime(_) =>
      SafeReply(net, c);
    case Depart(_, n) =>
      DepartedIs(net, p, s);
      ConnectionKeepsLine(net, s, c);
      RoomDeparted(p, p', Size(line));
    case Arrive(_, n) =>
      ArrivedIs(net, p, s);
      RoomArrived(p, n, Size(line));
      ConnectionKeepsLine(net, s, c);
    case Consume(_, resync) =>
      ConsumedIs(net, p, s);
      ConnectionKeepsLine(net, s, c);
      RoomConsumed(p, p', Size(line));
    case AskTime(_) =>
      AskedIs(net, p, s);
      ConnectionKeepsLine(net, s, c);
      RoomDeparted(p, p', Size(line));
  }

  lemma DepartedIs(net: Net, p: Peer, s: Step)
    requires s.Depart?
    ensures
      var p' := AfterStep(net, p, s);
      && p' == p.(link := p'.link)
      && p'.link.held <= p.link.held && p'.link == p.link.(start := p'.link.start, held := p'.link.held)
  {
    hide Place;
  }

  lemma ArrivedIs(net: Net, p: Peer, s: Step)
    requires s.Arrive?
    ensures AfterStep(net, p, s) == p.(link := Arrived(p.link, s.n))
  {
  }

  lemma AskedIs(net: Net, p: Peer, s: Step)
    requires s.AskTime?
    ensures AfterStep(net, p, s) == p.(up := p.up + [TimeRequest])
  {
  }

  lemma ConsumedIs(net: Net, p: Peer, s: Step)
    requires s.Consume? && Complete(p)
    ensures
      var p' := AfterStep(net, p, s);
      && p'.queue == p.queue && p'.down == p.down[1..] && p'.link == Past(p.link, FrameSize(p.down[0]))
  {
    hide Handled;
    HandledIs(p, s.resync);
  }

  lemma SafeReply(net: Net, c: ClientId)
    requires Safe(net, c) && UpOk(net.peers[c]) && Enabled(net, AnswerTime(c))
    ensures Safe(Next(net, AnswerTime(c)), c)
  {
    hide AllSendable, Line, Size, Next, PeerSafe, UpOk;
    var p := net.peers[c];
    NoReplyYet(p);
    ReplyFits(p, Size(Line(net, p)));
    ReplySize();
    ReplyIs(net, c);
    RoomReplied(p, Next(net, AnswerTime(c)).peers[c], Size(Line(net, p)));
  }

  lemma ReplyFits(p: Peer, size: nat)
    requires PeerSafe(p, size) && TimeReply !in p.queue && TimeReply !in p.down
    ensures p.link.held + REPLY < RING
  {
    hide Floods;
  }

  /** Talking cannot change that. */
  lemma SafeStays(net: Net, s: Step, c: ClientId)
    requires NetOk(net) && Wired(net) && Safe(net, c) && Talk(c, s) && Enabled(net, s)
    ensures Safe(Next(net, s), c)
  {
    hide NetOk, Wired, AllSendable, Line, Size, Next, Enabled, PeerSafe, LinkOk, UpOk, Alike;
    WiredPart(net, c);
    if s.Process? {
      SafeTimer(net, c);
    } else if Connection(s) && s.c == c {
      InUseOnly(net, s, c);
      SafeConnection(net, s, c);
    } else {
      OthersTalk(net, s, c);
      var line, line' := Line(net, net.peers[c]), Line(Next(net, s), net.peers[c]);
      AlikeSize(line', line);
      AlikeOther(line', line);
      AlikeSendable(line, line');
    }
  }

  lemma AlikeOther(a: seq<Msg>, b: seq<Msg>)
    requires Alike(a, b)
    ensures Alike(b, a)
  {
    hide Sendable, BodySize;
  }

  lemma {:induction false} SafeForEver(net: Net, more: seq<Step>, net': Net, c: ClientId)
    requires NetOk(net) && Wired(net) && Safe(net, c) && OnlyTalk(c, more) && Reaches(net, more, net')
    ensures NetOk(net') && Wired(net') && Safe(net', c)
    decreases |more|
  {
    hide NetOk, Wired, Safe, Enabled, Next;
    if more != [] {
      assert more[0] in more && forall s | s in more[1..] :: s in more;
      NextKeeps(net, more[0]);
      NextWired(net, more[0]);
      SafeStays(net, more[0], c);
      SafeForEver(Next(net, more[0]), more[1..], net', c);
    }
  }

  lemma SafePassable(net: Net, c: ClientId)
    requires Wired(net) && Safe(net, c)
    ensures Live(net, c) && LinePassable(net, c)
  {
    hide AllSendable, Size, Line, StopsAt, End, Ring, LinkOk, UpOk, WriteRoom, Floods;
    var p, line := net.peers[c], Line(net, net.peers[c]);
    WiredPart(net, c);
    HeldLess(p, Size(line));
    ShortIsWhole(p.link, line);
    StartBelow(p);
    RingOf(p.link);
    StopsLink(p.link, Ring(End(p.link), p.link.held), line, |line|);
    LineExtends(net, p);
    if TimeReply in p.queue {
      assert Burst(End(p.link), line, p.link.held, |line|);
    }
  }

  // ---------------------------------------------------------------- only if

  /** A run of talk in which the client loses bytes. */
  ghost predicate Loses(net: Net, more: seq<Step>, net': Net, c: ClientId) {
    OnlyTalk(c, more) && Reaches(net, more, net') && !StillWhole(net', c)
  }

  ghost predicate CanLose(net: Net, c: ClientId) {
    exists more, net' :: Loses(net, more, net', c)
  }

  lemma LosesNow(net: Net, s: Step, c: ClientId)
    requires Talk(c, s) && Enabled(net, s) && !StillWhole(Next(net, s), c)
    ensures CanLose(net, c)
  {
    hide Enabled, Next;
    assert [s][1..] == [] && Reaches(Next(net, s), [], Next(net, s));
    assert Loses(net, [s], Next(net, s), c);
  }

  lemma LosesLater(net: Net, more: seq<Step>, net1: Net, c: ClientId)
    requires ComesTo(net, more, net1, c) && CanLose(net1, c)
    ensures CanLose(net, c)
  {
    hide NetOk, Wired, Reaches, Talk;
    var rest, net' :| Loses(net1, rest, net', c);
    ReachesConcat(net, more, net1, rest, net');
    assert Loses(net, more + rest, net', c);
  }

  lemma TimerEnabled(net: Net, c: ClientId)
    requires Live(net, c)
    ensures Enabled(net, Process)
  {
  }

  /** A line that fills the ring exactly with its first message loses. */
  lemma FirstFills(l: Link, line: seq<Msg>)
    requires l.start < RING && line != [] && Sendable(line[0]) && l.held + FrameSize(line[0]) == RING
    ensures !LosesNothing(l, line)
  {
    hide Sendable;
    FrameNotSmall(line[0]);
    assert line[..0] == [];
    NoSize();
    forall k: nat ensures !StopsAt(l, line, k) {
      if 0 < k <= |line| {
        SizeFirst(line, k - 1);
      }
    }
  }

  lemma FrameNotSmall(m: Msg)
    ensures FrameSize(m) == HEADER + BodySize(m)
  {
  }

  lemma StopsBeyond(l: Link, line: seq<Msg>, k: nat)
    requires StopsAt(l, line, k) && AllSendable(line) && l.held + Size(line) >= RING && l.held < RING
    ensures k < |line| && Sendable(line[k])
    ensures l.held + Size(line[..k]) + FrameSize(line[k]) >= RING && HEADER <= FrameSize(line[k]) <= RING
  {
    hide Sendable;
    assert line[..|line|] == line;
    if k < |line| {
      assert line[k] in line;
      FrameLimit(line[k]);
    }
  }

  /** A line that is too long: what the ring refuses fills it when it has taken just enough. */
  lemma LoseByTimer(net: Net, c: ClientId)
    requires NetOk(net) && Wired(net) && Live(net, c) && AllSendable(Line(net, net.peers[c]))
    requires net.peers[c].link.held + Size(Line(net, net.peers[c])) >= RING
    ensures CanLose(net, c)
  {
    hide NetOk, Wired, Next, Enabled, Line, AllSendable, Size, FrameSize, StopsAt, LinkOk, UpOk, ComesTo, ShowsSame, End,
      LosesNothing, CanLose;
    var p, line := net.peers[c], Line(net, net.peers[c]);
    WiredPart(net, c);
    StartBelow(p);
    TimerEnabled(net, c);
    if !StillWhole(Next(net, Process), c) {
      LosesNow(net, Process, c);
    } else {
      TimerLosesNothingIff(net, c);
      var k := StopsSomewhere(p.link, line);
      StopsBeyond(p.link, line, k);
      var sent := TimerComes(net, c, k);
      ComesThere(net, [Process], sent, c);
      var rest, ready := DepartTo(sent, c, RING - FrameSize(line[k]));
      ComesThere(sent, rest, ready, c);
      StartBelow(ready.peers[c]);
      FirstFills(ready.peers[c].link, line[k..]);
      TimerEnabled(ready, c);
      TimerLosesNothingIff(ready, c);
      LosesNow(ready, Process, c);
      LosesLater(sent, rest, ready, c);
      LosesLater(net, [Process], sent, c);
    }
  }

  lemma StopsSomewhere(l: Link, line: seq<Msg>) returns (k: nat)
    requires LosesNothing(l, line)
    ensures StopsAt(l, line, k)
  {
    k :| StopsAt(l, line, k);
  }

  /** What the answer to a request comes to when the ring has no room for it. */
  lemma ReplyRefused(net: Net, c: ClientId)
    requires Live(net, c) && net.peers[c].up != [] && net.peers[c].up[0] == TimeRequest
    requires net.peers[c].link.held + REPLY >= RING
    ensures Enabled(net, AnswerTime(c))
    ensures
      var net' := Next(net, AnswerTime(c));
      StillWhole(net', c) ==>
        && Live(net', c) && net'.peers[c].queue == [TimeReply] + net.peers[c].queue
        && net'.peers[c].link.held == net.peers[c].link.held && Line(net', net'.peers[c]) == [TimeReply] + Line(net, net.peers[c])
  {
    hide DueFrom;
    var p := net.peers[c];
    var due := DueFrom(net.store.entries, p.published, 0, net.nextId, net.now);
    assert [TimeReply] + p.queue + due == [TimeReply] + (p.queue + due);
  }

  lemma ReplySendable()
    ensures AllSendable([TimeReply])
  {
  }

  /** A ring that has room for all but the reply. */
  lemma LoseByReply(net: Net, c: ClientId)
    requires NetOk(net) && Wired(net) && Live(net, c) && AllSendable(Line(net, net.peers[c]))
    requires TimeReply !in net.peers[c].queue && TimeReply !in net.peers[c].down
    requires net.peers[c].link.held + Size(Line(net, net.peers[c])) + REPLY >= RING
    ensures CanLose(net, c)
  {
    hide NetOk, Wired, Next, Enabled, Line, AllSendable, Size, FrameSize, StopsAt, LinkOk, UpOk, ComesTo, ShowsSame, End,
      CanLose;
    var p, line := net.peers[c], Line(net, net.peers[c]);
    if p.link.held + Size(line) >= RING {
      LoseByTimer(net, c);
    } else {
      ShortIsWhole(p.link, line);
      var sent := TimerComes(net, c, |line|);
      ComesThere(net, [Process], sent, c);
      assert line[..|line|] == line && line[|line|..] == [];
      NoReplyInLine(net, p);
      var more, asked := Asked(sent, c);
      ComesThere(sent, more, asked, c);
      ReplyRefused(asked, c);
      var next := Next(asked, AnswerTime(c));
      if !StillWhole(next, c) {
        LosesNow(asked, AnswerTime(c), c);
      } else {
        ComesOne(asked, AnswerTime(c), c);
        ComesThere(asked, [AnswerTime(c)], next, c);
        ReplySendable();
        assert [TimeReply] + [] == [TimeReply];
        SizeOne(TimeReply);
        ReplySize();
        LoseByTimer(next, c);
        LosesLater(asked, [AnswerTime(c)], next, c);
      }
      LosesLater(sent, more, asked, c);
      LosesLater(net, [Process], sent, c);
    }
  }

  /** The reply that is under way arrives, and what is behind it stays in the ring. */
  lemma {:induction false} ReplyHandled(net: Net, c: ClientId) returns (more: seq<Step>, net': Net)
    requires NetOk(net) && Wired(net) && Live(net, c)
    requires TimeReply in net.peers[c].down && net.peers[c].link.held <= Behind(net.peers[c].down)
    ensures ComesTo(net, more, net', c)
    ensures
      var p, p' := net.peers[c], net'.peers[c];
      && Line(net', p') == Line(net, p) && p'.queue == p.queue && TimeReply !in p'.down && TimeReply !in p'.queue
      && p'.link.held == p.link.held
    decreases |net.peers[c].down|
  {
    hide NetOk, Wired, Line, LinkOk, ComesTo, Behind, FrameSize, Place;
    var p := net.peers[c];
    WiredPart(net, c);
    BehindLess(p.down);
    BehindFirst(p.down);
    assert p.down == [p.down[0]] + p.down[1..];
    SizeCons(p.down[0], p.down[1..]);
    var first, next := HandleFirst(net, c);
    ComesThere(net, first, next, c);
    if p.down[0] == TimeReply {
      more, net' := first, next;
      OneReply(p);
    } else {
      more, net' := ReplyHandled(next, c);
      ComesOn(net, first, next, more, net', c);
      more := first + more;
    }
  }

  lemma OneReply(p: Peer)
    requires UpOk(p) && p.down != [] && p.down[0] == TimeReply
    ensures TimeReply !in p.down[1..] && TimeReply !in p.queue
  {
    assert p.down == [p.down[0]] + p.down[1..];
    CountOne(p.down[1..], TimeReply);
    CountOne(p.queue, TimeReply);
  }

  /** A ring that has no room for another reply. */
  lemma LoseBehind(net: Net, c: ClientId)
    requires NetOk(net) && Wired(net) && Live(net, c) && AllSendable(Line(net, net.peers[c]))
    requires TimeReply in net.peers[c].down
    requires Least(net.peers[c].link.held, Behind(net.peers[c].down)) + Size(Line(net, net.peers[c])) + REPLY >= RING
    ensures CanLose(net, c)
  {
    hide NetOk, Wired, Line, AllSendable, Size, ComesTo, Behind, End, CanLose, LinkOk, UpOk;
    var p := net.peers[c];
    var first, ready := DepartTo(net, c, Least(p.link.held, Behind(p.down)));
    ComesThere(net, first, ready, c);
    var second, handled := ReplyHandled(ready, c);
    ComesThere(ready, second, handled, c);
    LoseByReply(handled, c);
    LosesLater(ready, second, handled, c);
    LosesLater(net, first, ready, c);
  }

  /** An empty ring takes at least one message. */
  lemma FirstFits(p: Peer, line: seq<Msg>, k: nat)
    requires LinkOk(p) && p.link.held == 0 && line != [] && AllSendable(line) && StopsAt(p.link, line, k)
    ensures 0 < k <= |line|
  {
    assert line[0] in line;
    FrameLimit(line[0]);
    hide Sendable;
    assert line[..0] == [];
    NoSize();
  }

  /** All of the line goes out on the wire, unless bytes can get lost. */
  lemma {:induction false} SendAll(net: Net, c: ClientId) returns (more: seq<Step>, net': Net)
    requires NetOk(net) && Wired(net) && Live(net, c) && AllSendable(Line(net, net.peers[c]))
    ensures CanLose(net, c) || ComesTo(net, more, net', c)
    ensures CanLose(net, c) ||
              var p, p', line := net.peers[c], net'.peers[c], Line(net, net.peers[c]);
              && Line(net', p') == [] && p'.down == p.down + line
              && p'.link.held == 0 && p'.link.got == p.link.got && p'.link.at == p.link.at
    decreases |Line(net, net.peers[c])|
  {
    hide NetOk, Wired, Next, Enabled, Line, AllSendable, Size, StopsAt, ComesTo, ShowsSame, End, CanLose, LinkOk, UpOk,
      LosesNothing;
    var line := Line(net, net.peers[c]);
    var first, ready := DepartTo(net, c, 0);
    ComesThere(net, first, ready, c);
    more, net' := first, ready;
    TimerEnabled(ready, c);
    if line == [] {
      assert net.peers[c].down + [] == net.peers[c].down;
    } else if !StillWhole(Next(ready, Process), c) {
      LosesNow(ready, Process, c);
      LosesLater(net, first, ready, c);
    } else {
      TimerLosesNothingIff(ready, c);
      var k := StopsSomewhere(ready.peers[c].link, line);
      FirstFits(ready.peers[c], line, k);
      var sent := TimerComes(ready, c, k);
      ComesThere(ready, [Process], sent, c);
      assert line == line[..k] + line[k..];
      SendableConcat(line[..k], line[k..]);
      var rest;
      rest, net' := SendAll(sent, c);
      ComesOn(net, first, ready, [Process], sent, c);
      more := first + [Process] + rest;
      if CanLose(sent, c) {
        LosesLater(net, first + [Process], sent, c);
      } else {
        ComesOn(net, first + [Process], sent, rest, net', c);
        assert net.peers[c].down + line[..k] + line[k..] == net.peers[c].down + line;
      }
    }
  }

  /** Then a reply too, if one can come. */
  lemma SendReply(net: Net, c: ClientId) returns (more: seq<Step>, net': Net)
    requires NetOk(net) && Wired(net) && Live(net, c) && Line(net, net.peers[c]) == [] && net.peers[c].link.held == 0
    ensures ComesTo(net, more, net', c) && LinkOk(net'.peers[c])
    ensures
      var p, p' := net.peers[c], net'.peers[c];
      && p'.down == p.down + (if TimeReply in p.down then [] else [TimeReply])
      && p'.link.held == 0 && p'.link.got == p.link.got && p'.link.at == p.link.at
  {
    hide NetOk, Wired, Line, ComesTo, End, LinkOk, UpOk, FrameSize;
    var p := net.peers[c];
    LineExtends(net, p);
    if TimeReply in p.down {
      ComesNowhere(net, c);
      more, net' := [], net;
      assert p.down + [] == p.down;
    } else {
      ReplySize();
      var first, replied := Replied(net, c);
      ComesThere(net, first, replied, c);
      var rest;
      rest, net' := DepartTo(replied, c, 0);
      ComesOn(net, first, replied, rest, net', c);
      more := first + rest;
    }
    ComesThere(net, more, net', c);
  }

  /** The client's ring is filled. */
  lemma FloodNow(net: Net, c: ClientId, g: nat)
    requires NetOk(net) && Wired(net) && Live(net, c) && net.peers[c].link.held == 0 && net.peers[c].down != []
    requires LinkOk(net.peers[c]) && net.peers[c].link.got <= g < FrameSize(net.peers[c].down[0])
    requires MayFill(net.peers[c].link.at, g) && Unread(net.peers[c].down, g) >= RING
    ensures CanLose(net, c)
  {
    hide NetOk, Wired, Next, Enabled, CanLose, ComesTo;
    var s := Arrive(c, g - net.peers[c].link.got);
    PartArrives(net, c, g);
    ComesOne(net, s, c);
    FloodEnabled(Next(net, s), c);
    LosesNow(Next(net, s), Arrive(c, RING - Pending(g)), c);
    LosesLater(net, [s], Next(net, s), c);
  }

  lemma PartArrives(net: Net, c: ClientId, g: nat)
    requires Live(net, c) && net.peers[c].down != [] && LinkOk(net.peers[c]) && net.peers[c].link.held == 0
    requires net.peers[c].link.got <= g < FrameSize(net.peers[c].down[0])
    ensures
      var p, s := net.peers[c], Arrive(c, g - net.peers[c].link.got);
      && Enabled(net, s) && Live(Next(net, s), c)
      && Next(net, s).peers[c] == p.(link := p.link.(got := g))
  {
    hide BodySize, Sendable, MayFill;
    FrameLimit(net.peers[c].down[0]);
  }

  lemma FloodEnabled(net: Net, c: ClientId)
    requires Live(net, c) && net.peers[c].down != [] && LinkOk(net.peers[c]) && net.peers[c].link.held == 0
    requires net.peers[c].link.got < FrameSize(net.peers[c].down[0])
    requires MayFill(net.peers[c].link.at, net.peers[c].link.got)
    requires Unread(net.peers[c].down, net.peers[c].link.got) >= RING
    ensures
      var got := net.peers[c].link.got;
      && Pending(got) <= RING && Enabled(net, Arrive(c, RING - Pending(got)))
      && !StillWhole(Next(net, Arrive(c, RING - Pending(got))), c)
  {
    hide BodySize, Sendable, MayFill;
    FrameLimit(net.peers[c].down[0]);
  }

  /** Everything goes out; what of it comes in then fills the ring. */
  lemma LoseByFlood(net: Net, c: ClientId, g: nat)
    requires NetOk(net) && Wired(net) && Live(net, c) && AllSendable(Line(net, net.peers[c]))
    requires
      var p := net.peers[c];
      FloodsAt(p.down, p.link.got, p.link.at, Size(Line(net, p)), TimeReply in p.queue, g)
    ensures CanLose(net, c)
  {
    hide NetOk, Wired, Line, AllSendable, Size, ComesTo, CanLose, LinkOk, UpOk, FrameSize, MayFill, Unread;
    var p, line := net.peers[c], Line(net, net.peers[c]);
    var first, out := SendAll(net, c);
    if !CanLose(net, c) {
      ComesThere(net, first, out, c);
      var second, replied := SendReply(out, c);
      ComesThere(out, second, replied, c);
      NoReplyInLine(net, p);
      SizeAtLeast(p.down);
      SizeConcat(p.down, line);
      UnreadMore(p.down, g, line);
      SizeOne(TimeReply);
      ReplySize();
      UnreadMore(p.down + line, g, [TimeReply]);
      assert TimeReply in p.down + line <==> TimeReply in p.down || TimeReply in p.queue;
      assert p.down + line + [] == p.down + line;
      FloodNow(replied, c, g);
      LosesLater(out, second, replied, c);
      LosesLater(net, first, out, c);
    }
  }

  lemma SizeAtLeast(ms: seq<Msg>)
    requires ms != []
    ensures FrameSize(ms[0]) <= Size(ms)
  {
  }

  /** Either while the first message is there, or afterwards. */
  lemma FloodsSomewhere(down: seq<Msg>, got: nat, at: nat, size: nat, waits: bool)
    requires Floods(down, got, at, size, waits)
    ensures down != []
    ensures || Floods(down[1..], Rest(down, got), Place(at + FrameSize(down[0])), size, waits)
            || exists g: nat :: FloodsAt(down, got, at, size, waits, g)
  {
    hide FloodsAt, Place, FrameSize, Rest;
  }

  lemma {:induction false} LoseByFloods(net: Net, c: ClientId)
    requires NetOk(net) && Wired(net) && Live(net, c) && AllSendable(Line(net, net.peers[c]))
    requires
      var p := net.peers[c];
      Floods(p.down, p.link.got, p.link.at, Size(Line(net, p)), TimeReply in p.queue)
    ensures CanLose(net, c)
    decreases |net.peers[c].down|
  {
    hide NetOk, Wired, Line, AllSendable, Size, ComesTo, CanLose, LinkOk, UpOk, FrameSize, Floods, FloodsAt, Place, End;
    var p, line := net.peers[c], Line(net, net.peers[c]);
    FloodsSomewhere(p.down, p.link.got, p.link.at, Size(line), TimeReply in p.queue);
    if Floods(p.down[1..], Rest(p.down, p.link.got), Place(p.link.at + FrameSize(p.down[0])), Size(line),
              TimeReply in p.queue) {
      var first, ready := DepartTo(net, c, 0);
      ComesThere(net, first, ready, c);
      SizeAtLeast(p.down);
      var second, handled := HandleFirst(ready, c);
      ComesThere(ready, second, handled, c);
      LoseByFloods(handled, c);
      LosesLater(ready, second, handled, c);
      LosesLater(net, first, ready, c);
    } else {
      var g: nat :| FloodsAt(p.down, p.link.got, p.link.at, Size(line), TimeReply in p.queue, g);
      LoseByFlood(net, c, g);
    }
  }

  /** Without room, bytes can get lost. */
  lemma UnsafeLoses(net: Net, c: ClientId)
    requires NetOk(net) && Wired(net) && Live(net, c) && AllSendable(Line(net, net.peers[c]))
    requires !PeerSafe(net.peers[c], Size(Line(net, net.peers[c])))
    ensures CanLose(net, c)
  {
    hide NetOk, Wired, Line, AllSendable, Size, Floods, Behind, CanLose, LinkOk, UpOk;
    var p, line := net.peers[c], Line(net, net.peers[c]);
    if p.link.held + Size(line) >= RING {
      LoseByTimer(net, c);
    } else if p.link.held + Size(line) + Extra(p.down, TimeReply in p.queue) >= RING {
      LoseByReply(net, c);
    } else if WriteRoom(p, Size(line)) {
      LoseByFloods(net, c);
    } else {
      LoseBehind(net, c);
    }
  }

  // ---------------------------------------------------------------- exactly when

  /** Whatever the system does by itself, it can still come to a state in which nothing is left to be done. */
  ghost predicate AlwaysCanQuieten(net: Net, c: ClientId) {
    forall more, net' :: OnlyTalk(c, more) && Reaches(net, more, net') ==> CanQuieten(net', c)
  }

  lemma LostCannotQuieten(net: Net, c: ClientId)
    requires !StillWhole(net, c)
    ensures !CanQuieten(net, c)
  {
    forall more, end ensures !Quietens(net, more, end, c) {
      if Quietens(net, more, end, c) {
        assert Connect(c) !in more;
        LossIsForEver(net, more, end, c);
      }
    }
  }

  lemma SafeCanQuieten(net: Net, c: ClientId)
    requires NetOk(net) && Wired(net) && Safe(net, c)
    ensures AlwaysCanQuieten(net, c)
  {
    hide NetOk, Wired, Safe, Reaches, OnlyTalk, CanQuieten, LinePassable;
    forall more, net' | OnlyTalk(c, more) && Reaches(net, more, net') ensures CanQuieten(net', c) {
      SafeForEver(net, more, net', c);
      SafePassable(net', c);
      TalkQuietens(net', c);
    }
  }

  lemma UnsendableCannotQuieten(net: Net, c: ClientId)
    requires NetOk(net) && Wired(net) && Live(net, c) && !AllSendable(Line(net, net.peers[c]))
    ensures !CanQuieten(net, c)
  {
    hide NetOk, Wired, AllSendable, Line, Quietens, ReplyPasses;
    forall more, end ensures !Quietens(net, more, end, c) {
      if Quietens(net, more, end, c) {
        QuietIsPassable(net, more, end, c);
      }
    }
  }

  lemma NowCanQuieten(net: Net, c: ClientId)
    requires AlwaysCanQuieten(net, c)
    ensures CanQuieten(net, c)
  {
    hide CanQuieten;
    assert Reaches(net, [], net) && OnlyTalk(c, []);
  }

  lemma AlwaysIff(net: Net, c: ClientId)
    requires NetOk(net) && Wired(net) && Live(net, c)
    ensures AlwaysCanQuieten(net, c)
            <==> AllSendable(Line(net, net.peers[c])) && PeerSafe(net.peers[c], Size(Line(net, net.peers[c])))
  {
    hide NetOk, Wired, AllSendable, Line, Size, PeerSafe, CanQuieten;
    if Safe(net, c) {
      SafeCanQuieten(net, c);
    } else if AllSendable(Line(net, net.peers[c])) {
      UnsafeLoses(net, c);
      var more, net' :| Loses(net, more, net', c);
      LostCannotQuieten(net', c);
    } else {
      UnsendableCannotQuieten(net, c);
      if AlwaysCanQuieten(net, c) {
        NowCanQuieten(net, c);
      }
    }
  }

  /** Exactly when nothing can go wrong. From a reachable state in which a client is in use and has lost nothing: whatever
      the system does by itself, nothing is lost and a quiet state stays within reach, if and only if all that is in line
      or still to be told can be written, and there is room: in the server's ring, for what waits in it, the line and one
      reply to a request for the time; and in the client's, wherever it can be filled, for all that is then left. */
  lemma AlwaysQuietensIff(start: Net, steps: seq<Step>, net: Net, c: ClientId)
    requires Init(start) && Reaches(start, steps, net) && Live(net, c)
    ensures AlwaysCanQuieten(net, c)
            <==> && AllSendable(Line(net, net.peers[c]))
                 && WriteRoom(net.peers[c], Size(Line(net, net.peers[c])))
                 && !Floods(net.peers[c].down, net.peers[c].link.got, net.peers[c].link.at,
                            Size(Line(net, net.peers[c])), TimeReply in net.peers[c].queue)
  {
    hide NetOk, Wired, AllSendable, Line, Size, WriteRoom, Floods, AlwaysCanQuieten;
    ReachableWired(start, steps, net);
    AlwaysIff(net, c);
  }

  // ---------------------------------------------------------------- what the caller can see to

  /** The bytes of all messages on their way to a client, in line for it or still to be told, but for time replies. */
  function Outstanding(net: Net, p: Peer): nat {
    Size(Relevant(p.down + Line(net, p)))
  }

  /** If they are less than a ring, together with one time reply, there is room. */
  lemma SmallIsSafe(net: Net, p: Peer)
    requires LinkOk(p) && UpOk(p) && Outstanding(net, p) + REPLY < RING
    ensures PeerSafe(p, Size(Line(net, p)))
  {
    hide LinkOk, UpOk, Line, Relevant, Behind, Floods, FrameSize;
    var line := Line(net, p);
    LineReplies(net, p);
    LinkBounds(p);
    RelevantConcat(p.down, line);
    SizeConcat(Relevant(p.down), Relevant(line));
    RelevantSize(p.down);
    RelevantSize(line);
    CountOne(p.down, TimeReply);
    CountOne(line, TimeReply);
    if TimeReply in p.down {
      BehindSmall(p.down);
    }
    NoFlood(p.down, p.link.got, p.link.at, Size(line), TimeReply in p.queue);
  }

  lemma {:induction false} BehindSmall(down: seq<Msg>)
    requires TimeReply in down && multiset(down)[TimeReply] <= 1
    ensures Behind(down) <= Size(Relevant(down))
  {
    hide BodySize;
    RelevantHead(down);
    assert down == [down[0]] + down[1..];
    if down[0] == TimeReply {
      RelevantSize(down[1..]);
    } else {
      BehindSmall(down[1..]);
    }
  }

  /** With nothing on its way to the client and no reply in line, that is the exact condition. */
  lemma RestingQuietensIff(start: Net, steps: seq<Step>, net: Net, c: ClientId)
    requires Init(start) && Reaches(start, steps, net) && Live(net, c)
    requires net.peers[c].down == [] && TimeReply !in net.peers[c].queue
    ensures AlwaysCanQuieten(net, c)
            <==> AllSendable(Line(net, net.peers[c])) && Size(Line(net, net.peers[c])) + REPLY < RING
  {
    hide NetOk, Wired, AllSendable, Line, AlwaysCanQuieten;
    ReachableWired(start, steps, net);
    WiredPart(net, c);
    AlwaysQuietensIff(start, steps, net, c);
    assert net.peers[c].link.held == 0;
  }

  /** With 997 bytes in line the condition fails by one: the timer comes, the client asks for the time, and the reply fills
      the ring. Every write succeeds, and all of it is gone, in whatever position the ring is. */
  lemma ReplyFillsRing(net: Net, c: ClientId) returns (net': Net)
    requires NetOk(net) && Live(net, c) && AllSendable(Line(net, net.peers[c])) && Size(Line(net, net.peers[c])) == 997
    requires net.peers[c].queue == [] && net.peers[c].down == [] && net.peers[c].up == []
    requires net.peers[c].link.held == 0
    ensures Reaches(net, [Process] + ([AskTime(c)] + ([AnswerTime(c)] + [])), net')
    ensures AllClean(net'.store) && c in net'.peers && !Intact(net'.peers[c])
    ensures net'.peers[c].queue == [] && net'.peers[c].link.held == 0 && net'.peers[c].store == net.peers[c].store
  {
    hide NetOk, Next, Enabled, Line, AllSendable, Size, ShowsSame, StopsAt, Reaches, AllClean;
    var line := Line(net, net.peers[c]);
    ShortIsWhole(net.peers[c].link, line);
    TimerSends(net, c, |line|);
    SentSame(net, c);
    var sent := Next(net, Process);
    assert line[|line|..] == [] && line[..|line|] == line;
    LineReplyFree(net, net.peers[c]);
    AskIs(sent, c);
    var asked := Next(sent, AskTime(c));
    FilledReply(asked, c);
    net' := Next(asked, AnswerTime(c));
    ReachesNowhere(net');
    ReachesAfter(asked, AnswerTime(c), [], net');
    ReachesAfter(sent, AskTime(c), [AnswerTime(c)] + [], net');
    ReachesAfter(net, Process, [AskTime(c)] + ([AnswerTime(c)] + []), net');
  }

  lemma ReachesNowhere(net: Net)
    ensures Reaches(net, [], net)
  {
  }

  lemma LineReplyFree(net: Net, p: Peer)
    requires p.queue == []
    ensures TimeReply !in Line(net, p)
  {
    hide DueFrom;
    NoReplyDue(net.store.entries, p.published, 0, net.nextId, net.now);
  }

  /** The timer leaves the client itself alone. */
  lemma SentSame(net: Net, c: ClientId)
    requires NetOk(net) && Live(net, c) && c in Next(net, Process).peers
    ensures Next(net, Process).peers[c].up == net.peers[c].up && Next(net, Process).peers[c].store == net.peers[c].store
  {
    hide NetOk, ProcessFrom, Flush;
    ProcessLine(net, c, 0);
    var k := FlushMoves(ProcessFrom(net, 0).peers[c]);
  }

  lemma FilledReply(net: Net, c: ClientId)
    requires c in net.peers && Intact(net.peers[c]) && net.peers[c].up == [TimeRequest]
    requires net.peers[c].link.held + REPLY == RING && net.peers[c].queue == []
    ensures Enabled(net, AnswerTime(c))
    ensures
      var net' := Next(net, AnswerTime(c));
      && net'.store == net.store && c in net'.peers && !Intact(net'.peers[c]) && net'.peers[c].queue == []
      && net'.peers[c].link.held == 0 && net'.peers[c].store == net.peers[c].store
  {
  }

  lemma SmallIsSendableAll(net: Net, c: ClientId)
    requires NetOk(net) && NetByRules(SMALL, net) && c in net.peers
    ensures AllSendable(Line(net, net.peers[c]))
  {
    hide NetOk, ServerOk, Line, Fits;
    LineSendableIff(net, net.peers[c]);
    ServerOf(net);
    forall m | m in net.peers[c].queue ensures Sendable(m) {
      SmallIsSendable(net, c, m);
    }
    forall k | 0 <= k < |net.store.entries| && net.store.entries[k].dirty
      ensures Tellable(net.peers[c], net.store.entries[k])
    {
      DirtyEntry(net, k);
    }
  }

  lemma {:induction false} TalkIsByRules(rules: Rules, net: Net, more: seq<Step>, net': Net, c: ClientId)
    requires OnlyTalk(c, more) && Reaches(net, more, net')
    ensures ReachesByRules(rules, net, more, net')
    decreases |more|
  {
    if more != [] {
      assert more[0] in more && forall s | s in more[1..] :: s in more;
      hide Enabled, Next;
      TalkIsByRules(rules, Next(net, more[0]), more[1..], net', c);
    }
  }

  lemma {:induction false} ByRulesConcat(rules: Rules, a: Net, s: seq<Step>, b: Net, t: seq<Step>, c: Net)
    requires ReachesByRules(rules, a, s, b) && ReachesByRules(rules, b, t, c)
    ensures ReachesByRules(rules, a, s + t, c)
    decreases |s|
  {
    hide Enabled, Next, ByRules, Reaches;
    if s == [] {
      assert [] + t == t;
    } else {
      assert (s + t)[1..] == s[1..] + t;
      ByRulesConcat(rules, Next(a, s[0]), s[1..], b, t, c);
    }
  }

  lemma StepShowsSame(net: Net, s: Step, c: ClientId)
    requires NetOk(net) && Talk(c, s)
    ensures ShowsSame(net.store, Next(net, s).store)
  {
    hide NetOk, ProcessFrom, AfterStep, ShowsSame;
    if s.Process? {
      ProcessCleans(net);
    } else {
      SameShows(net.store);
    }
  }

  lemma {:induction false} TalkShowsSame(net: Net, more: seq<Step>, net': Net, c: ClientId)
    requires NetOk(net) && OnlyTalk(c, more) && Reaches(net, more, net')
    ensures ShowsSame(net.store, net'.store)
    decreases |more|
  {
    hide NetOk, Enabled, Next, ShowsSame;
    if more == [] {
      SameShows(net.store);
    } else {
      assert more[0] in more && forall s | s in more[1..] :: s in more;
      NextKeeps(net, more[0]);
      StepShowsSame(net, more[0], c);
      TalkShowsSame(Next(net, more[0]), more[1..], net', c);
      ShowsTwice(net.store, Next(net, more[0]).store, net'.store);
    }
  }

  /** The client shows what the server's store `st` shows, as the codec reads it. */
  ghost predicate ShowsAll(client: State, st: State) {
    forall path ::
      Lookup(client, path) == match Lookup(st, path) case Some(v) => Some(ReadBack(v)) case None => None
  }

  /** If the calls create only paths shorter than 255 bytes and set only values that fit into a message, then from every
      state in which a client is in use, has lost nothing, and no time reply stands in line for it, there is a way, without
      any further call on the server, to a state in which nothing is left to be done for it. */
  lemma CanConverge(start: Net, steps: seq<Step>, net: Net, c: ClientId)
    requires Init(start) && ReachesByRules(SMALL, start, steps, net)
    requires Live(net, c) && TimeReply !in net.peers[c].queue
    ensures CanQuieten(net, c)
  {
    hide NetOk, Init, Reaches, ReachesByRules, NetByRules, AllSendable, CanQuieten, Line;
    ByRulesFromStart(SMALL, start, steps, net);
    SmallIsSendableAll(net, c);
    QuietensIff(start, steps, net, c);
  }

  /** If besides all that is outstanding for the client is less than a ring, together with one time reply, then such a
      state stays within reach, whatever the system does by itself. And if the calls keep to one type for each path, then
      in every such state that is reached the client shows for every path what the server showed all along, as the codec
      reads it. */
  lemma CanAlwaysConverge(ty: Path -> byte, start: Net, steps: seq<Step>, net: Net, c: ClientId)
    requires Init(start)
    requires ReachesByRules(SMALL, start, steps, net) && ReachesByRules(OneTypeEach(ty), start, steps, net)
    requires Live(net, c) && Outstanding(net, net.peers[c]) + REPLY < RING
    ensures AlwaysCanQuieten(net, c)
    ensures forall more, net' | Quietens(net, more, net', c) :: ShowsAll(net'.peers[c].store, net.store)
  {
    hide NetOk, Wired, Init, Reaches, ReachesByRules, NetByRules, Outstanding, AlwaysCanQuieten, ShowsAll, AllSendable, Line,
      PeerSafe, LinkOk, UpOk;
    ByRulesFromStart(SMALL, start, steps, net);
    ReachableWired(start, steps, net);
    SmallIsSendableAll(net, c);
    WiredPart(net, c);
    SmallIsSafe(net, net.peers[c]);
    AlwaysIff(net, c);
    forall more, net' | Quietens(net, more, net', c) ensures ShowsAll(net'.peers[c].store, net.store) {
      QuietShowsAll(ty, start, steps, net, more, net', c);
    }
  }

  lemma QuietShowsAll(ty: Path -> byte, start: Net, steps: seq<Step>, net: Net, more: seq<Step>, net': Net, c: ClientId)
    requires Init(start) && ReachesByRules(OneTypeEach(ty), start, steps, net) && Quietens(net, more, net', c)
    ensures ShowsAll(net'.peers[c].store, net.store)
  {
    hide NetOk, Init, Reaches, ReachesByRules, Lookup, ShowsSame, ReadBack, OnlyTalk;
    ReachableOk(start, steps, net);
    TalkIsByRules(OneTypeEach(ty), net, more, net', c);
    ByRulesConcat(OneTypeEach(ty), start, steps, net, more, net');
    TalkShowsSame(net, more, net', c);
    forall path
      ensures Lookup(net'.peers[c].store, path)
              == match Lookup(net.store, path) case Some(v) => Some(ReadBack(v)) case None => None
    {
      SameLookup(net.store, net'.store, path);
      ConvergedInType(ty, start, steps + more, net', c, path);
    }
  }
}
