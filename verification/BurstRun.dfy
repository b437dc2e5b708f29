/** A run that ends as `Bursts.BurstEndsConnection` says: connect, handshake, three arrays. */
module BurstRun {
  import opened Wrappers
  import opened Bytes
  import opened Codec
  import opened Store
  import opened Links
  import opened Replication
  import opened PipeLaws
  import opened ReplicationLaws
  import opened TimerLaws
  import opened Losses
  import opened Wires
  import opened Progress
  import opened Passage
  import opened Bursts

  const CLIENT: ClientId := 0

  /** "/a/b" to "/a/e". */
  const PATHS: seq<Path> := [[47, 97, 47, 98], [47, 97, 47, 99], [47, 97, 47, 100], [47, 97, 47, 101]]

  function NetWith(store: State, p: Peer): Net {
    Net(1, store, 0, map[], map[CLIENT := p])
  }

  // ---------------------------------------------------------------- the handshake

  const ASKED := Peer(false, {}, [], [TimeReply], TimeSync, Fresh, [], Link(Whole, 0, 27, 0, 0), [])
  const ANSWERED := Peer(false, {}, [], [], Handshake, Fresh, [Ready], Link(Whole, 27, 0, 0, 27), [])
  const GREETED := Peer(true, {}, [Finished(0)], [], Handshake, Fresh, [], Link(Whole, 27, 0, 0, 27), [Finished(0)])
  const TOLD := Peer(true, {}, [], [Finished(0)], Handshake, Fresh, [], Link(Whole, 27, 11, 0, 27), [Finished(0)])
  const READY := Peer(true, {}, [], [], InUse, Fresh, [], Link(Whole, 38, 0, 0, 38), [Finished(0)])

  lemma ReplySize()
    ensures Size([TimeReply]) == FrameSize(TimeReply) == 27 && Size([Finished(0)]) == FrameSize(Finished(0)) == 11
  {
    SizeOne(TimeReply);
    SizeOne(Finished(0));
  }

  lemma {:induction false} GreetNothing(net: Net, p: Peer, id: nat)
    requires net.assignments == map[]
    ensures GreetFrom(net, p, id) == p
    decreases U16 - id
  {
    if id < U16 {
      GreetNothing(net, p, id + 1);
    }
  }

  lemma Replace(store: State, p: Peer, p': Peer)
    requires p'.link.status != CutOff
    ensures NetWith(store, p).(peers := WithPeer(NetWith(store, p).peers, CLIENT, p')) == NetWith(store, p')
  {
    assert map[CLIENT := p][CLIENT := p'] == map[CLIENT := p'];
  }

  lemma OneClient(store: State, p: Peer)
    ensures NetWith(store, p).peers != map[]
    ensures CLIENT in NetWith(store, p).peers && NetWith(store, p).peers[CLIENT] == p
  {
    assert CLIENT in NetWith(store, p).peers;
  }

  /** One step, that only the client and its connection take part in. */
  lemma OneStep(store: State, p: Peer, s: Step, p': Peer)
    requires p'.link.status != CutOff && Enabled(NetWith(store, p), s)
    requires s.AnswerTime? || s.AnswerReady? || s.Depart? || s.Arrive? || s.Consume?
    requires s.c == CLIENT && p' == AfterStep(NetWith(store, p), p, s)
    ensures Next(NetWith(store, p), s) == NetWith(store, p')
    ensures Reaches(NetWith(store, p), [s], NetWith(store, p'))
  {
    hide AfterStep, Enabled, WithPeer;
    OneClient(store, p);
    Replace(store, p, p');
    ReachesNone(NetWith(store, p'));
    ReachesAfter(NetWith(store, p), s, [], NetWith(store, p'));
    assert [s] + [] == [s];
  }

  lemma ReachesNone(net: Net)
    ensures Reaches(net, [], net)
  {
  }

  /** A message arrives as a whole and is handled. */
  lemma OneArrives(p: Peer, m: Msg, p': Peer) returns (steps: seq<Step>)
    requires Intact(p) && p.down == [m] && p.link.held == Size([m]) == FrameSize(m) < RING && p.link.got == 0
    requires p' == Receive(p.(down := [], link := Link(Whole, Place(p.link.start + FrameSize(m)), 0, 0,
                                                       Place(p.link.at + FrameSize(m)))), m, None)
    requires p'.link.status == Whole
    ensures Reaches(NetWith(Fresh, p), steps, NetWith(Fresh, p')) && forall s | s in steps :: !LocalStep(s)
  {
    hide Reaches, Next, AfterStep, Receive, Size, BodySize, Place;
    var n := FrameSize(m);
    var s1, s2, s3 := Depart(CLIENT, n), Arrive(CLIENT, n), Consume(CLIENT, None);
    var p1 := p.(link := Link(Whole, Place(p.link.start + n), 0, 0, p.link.at));
    var p2 := p1.(link := p1.link.(got := n));
    OneClient(Fresh, p);
    OneClient(Fresh, p1);
    OneClient(Fresh, p2);
    DepartStep(p, n, p1);
    ArriveStep(p1, m, p2);
    var l := p1.link.(at := Place(p.link.at + n));
    assert p2.(down := [], link := Past(p2.link, n)) == p.(down := [], link := l);
    ConsumeStep(p2, m, p');
    OneStep(Fresh, p, s1, p1);
    OneStep(Fresh, p1, s2, p2);
    OneStep(Fresh, p2, s3, p');
    ReachesConcat(NetWith(Fresh, p), [s1], NetWith(Fresh, p1), [s2], NetWith(Fresh, p2));
    ReachesConcat(NetWith(Fresh, p), [s1] + [s2], NetWith(Fresh, p2), [s3], NetWith(Fresh, p'));
    steps := [s1] + [s2] + [s3];
  }

  lemma DepartAll(l: Link, n: nat)
    requires l.held == n
    ensures Departed(l, n) == l.(start := Place(l.start + n), held := 0)
  {
  }

  lemma DepartStep(p: Peer, n: nat, p1: Peer)
    requires p.link.held == n && p.link.got == 0 && Intact(p)
    requires p1 == p.(link := Link(Whole, Place(p.link.start + n), 0, 0, p.link.at))
    ensures p1 == AfterStep(NetWith(Fresh, p), p, Depart(CLIENT, n))
  {
    hide NetWith, Departed;
    DepartAll(p.link, n);
  }

  lemma ArriveStep(p1: Peer, m: Msg, p2: Peer)
    requires Intact(p1) && p1.link.got == 0 && FrameSize(m) < RING && p2 == p1.(link := p1.link.(got := FrameSize(m)))
    ensures p2 == AfterStep(NetWith(Fresh, p1), p1, Arrive(CLIENT, FrameSize(m)))
  {
    hide BodySize, NetWith;
  }

  lemma ConsumeStep(p2: Peer, m: Msg, p': Peer)
    requires p2.down == [m] && p2.link.got == FrameSize(m)
    requires p' == Receive(p2.(down := [], link := Past(p2.link, FrameSize(m))), m, None)
    ensures p' == AfterStep(NetWith(Fresh, p2), p2, Consume(CLIENT, None))
  {
    hide Receive, BodySize, NetWith;
    assert p2.down[1..] == [];
  }

  lemma ConnectRun() returns (start: Net, steps: seq<Step>)
    ensures Init(start) && Reaches(start, steps, NetWith(Fresh, ASKED)) && forall s | s in steps :: !LocalStep(s)
  {
    hide Reaches;
    start := Net(1, Fresh, 0, map[], map[]);
    assert Next(start, Connect(CLIENT)) == NetWith(Fresh, Connected);
    OneClient(Fresh, Connected);
    assert [TimeRequest][1..] == [] && [] + [TimeReply] == [TimeReply];
    OneStep(Fresh, Connected, AnswerTime(CLIENT), ASKED);
    steps := [Connect(CLIENT)] + [AnswerTime(CLIENT)];
    ReachesAfter(start, Connect(CLIENT), [AnswerTime(CLIENT)], NetWith(Fresh, ASKED));
  }

  lemma HandshakeRun() returns (start: Net, steps: seq<Step>)
    ensures Init(start) && Reaches(start, steps, NetWith(Fresh, READY)) && forall s | s in steps :: !LocalStep(s)
  {
    hide Reaches, Init, NetWith;
    var asked;
    start, asked := ConnectRun();
    ReplySize();
    var first := OneArrives(ASKED, TimeReply, ANSWERED);
    var greeted := GreetRun();
    var last := OneArrives(TOLD, Finished(0), READY);
    ReachesConcat(start, asked, NetWith(Fresh, ASKED), first, NetWith(Fresh, ANSWERED));
    ReachesConcat(start, asked + first, NetWith(Fresh, ANSWERED), greeted, NetWith(Fresh, TOLD));
    ReachesConcat(start, asked + first + greeted, NetWith(Fresh, TOLD), last, NetWith(Fresh, READY));
    steps := asked + first + greeted + last;
  }

  lemma GreetRun() returns (steps: seq<Step>)
    ensures Reaches(NetWith(Fresh, ANSWERED), steps, NetWith(Fresh, TOLD)) && forall s | s in steps :: !LocalStep(s)
  {
    hide Reaches, GreetFrom, ProcessFrom, FlushAll;
    GreetNothing(NetWith(Fresh, ANSWERED), Popped(ANSWERED), 0);
    assert [Ready][1..] == [] && [] + [Finished(0)] == [Finished(0)];
    OneClient(Fresh, ANSWERED);
    OneStep(Fresh, ANSWERED, AnswerReady(CLIENT), GREETED);
    OneClient(Fresh, GREETED);
    TimerTells();
    ReachesNone(NetWith(Fresh, TOLD));
    ReachesAfter(NetWith(Fresh, GREETED), Process, [], NetWith(Fresh, TOLD));
    steps := [AnswerReady(CLIENT)] + ([Process] + []);
    ReachesConcat(NetWith(Fresh, ANSWERED), [AnswerReady(CLIENT)], NetWith(Fresh, GREETED), [Process] + [],
                  NetWith(Fresh, TOLD));
  }

  lemma TimerTells()
    ensures Next(NetWith(Fresh, GREETED), Process) == NetWith(Fresh, TOLD)
  {
    var net := NetWith(Fresh, GREETED);
    OneClient(Fresh, GREETED);
    assert ProcessFrom(net, 0) == net;
    assert [Finished(0)][1..] == [] && [Finished(0)][..1] == [Finished(0)];
    assert Flush(TOLD) == TOLD;
    assert Flush(GREETED) == TOLD;
    assert FlushAll(net.peers) == map[CLIENT := TOLD];
  }

  // ---------------------------------------------------------------- three arrays

  function NewEntryAt(k: nat): Entry
    requires k < 3
  {
    Entry(PATHS[k], Empty, ID_NOT_ASSIGNED, true, false, false, 0)
  }

  function SetEntryAt(k: nat, a: seq<int64>): Entry
    requires k < 3
  {
    Entry(PATHS[k], Int64Array(a), ID_NOT_ASSIGNED, false, false, true, 1)
  }

  /** Entry `k` is created and set, behind the `k` others. */
  lemma OneArray(st: State, k: nat, a: seq<int64>) returns (st': State)
    requires |a| == 49 && k < 3 && |st.entries| == k && PATHS[k] !in st.paths
    requires forall p | p in st.paths :: p in PATHS[..k]
    ensures st'.entries == st.entries + [SetEntryAt(k, a)] && forall p | p in st'.paths :: p in PATHS[..k + 1]
    ensures
      var net, net' := NetWith(st, READY), NetWith(st', READY);
      Reaches(net, [Create(PATHS[k]), Set(k, Int64Array(a))], net')
  {
    var created := Apply(st, GetOrCreate(PATHS[k]));
    assert created.entries == st.entries + [NewEntryAt(k)];
    st' := Apply(created, SetValue(k, Int64Array(a), 1));
    assert st'.entries == st.entries + [SetEntryAt(k, a)];
    var net := NetWith(st, READY);
    assert Int64Array(a).WithinLimits();
    ReachesAfter(Next(net, Create(PATHS[k])), Set(k, Int64Array(a)), [], NetWith(st', READY));
    ReachesAfter(net, Create(PATHS[k]), [Set(k, Int64Array(a))] + [], NetWith(st', READY));
    assert [Create(PATHS[k])] + ([Set(k, Int64Array(a))] + []) == [Create(PATHS[k]), Set(k, Int64Array(a))];
  }

  /** All three. */
  ghost predicate ThreeArrays(st: State, v: seq<int64>) {
    st.entries == [SetEntryAt(0, v), SetEntryAt(1, v), SetEntryAt(2, v)]
  }

  lemma ArraysRun(v: seq<int64>) returns (steps: seq<Step>, st: State)
    requires |v| == 49
    ensures Reaches(NetWith(Fresh, READY), steps, NetWith(st, READY)) && ThreeArrays(st, v)
  {
    hide Reaches, SetEntryAt;
    var value := Int64Array(v);
    var one, two := [Create(PATHS[0]), Set(0, value)], [Create(PATHS[1]), Set(1, value)];
    var three := [Create(PATHS[2]), Set(2, value)];
    var a := OneArray(Fresh, 0, v);
    var b := OneArray(a, 1, v);
    st := OneArray(b, 2, v);
    steps := one + two + three;
    ReachesConcat(NetWith(Fresh, READY), one, NetWith(a, READY), two, NetWith(b, READY));
    ReachesConcat(NetWith(Fresh, READY), one + two, NetWith(b, READY), three, NetWith(st, READY));
  }

  lemma ArraysAreDue(st: State, v: seq<int64>)
    requires |v| == 49 && ThreeArrays(st, v)
    ensures |st.entries| == 3 && OnlyDirty(st.entries, [0, 1, 2])
    ensures forall k | 0 <= k < 3 ::
              ArrayDue(st.entries[k]) && st.entries[k].path == PATHS[k] && st.entries[k].value == Int64Array(v)
  {
  }

  lemma NothingWaits(st: State)
    ensures Live(NetWith(st, READY), CLIENT) && NetWith(st, READY).peers[CLIENT].queue == []
  {
    OneClient(st, READY);
  }

  /** From the start of the server to the state of `Bursts.BurstEndsConnection`: every message in line can be written, but
      if the timer comes next the connection ends. But it need not: a few requests for the time before it make room. */
  lemma BurstRun(v: seq<int64>) returns (start: Net, steps: seq<Step>, net: Net)
    requires |v| == 49
    ensures Init(start) && Reaches(start, steps, net)
    ensures Live(net, CLIENT) && |net.store.entries| == 3
    ensures forall k | 0 <= k < 3 :: net.store.entries[k].path == PATHS[k] && net.store.entries[k].value == Int64Array(v)
    ensures AllSendable(Line(net, net.peers[CLIENT]))
    ensures CLIENT !in Next(net, Process).peers && CanQuieten(net, CLIENT)
  {
    hide Reaches, Next, CanQuieten, Sendable, Line, NetOk, Wired, OnlyDirty, ArrayDue, ThreeArrays, Init;
    var shaken;
    start, shaken := HandshakeRun();
    var arrays, st := ArraysRun(v);
    net, steps := NetWith(st, READY), shaken + arrays;
    ReachesConcat(start, shaken, NetWith(Fresh, READY), arrays, net);
    ReachableWired(start, steps, net);
    ArraysAreDue(st, v);
    BurstEndsConnection(net, CLIENT, 0, 1, 2);
    NothingWaits(st);
    QuietensIff(start, steps, net, CLIENT);
  }
}
