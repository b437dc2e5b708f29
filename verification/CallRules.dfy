/** Runs whose calls keep to rules about paths and values, and what a client or a connection may count on in them. */
module CallRules {
  import opened Wrappers
  import opened Bytes
  import opened Codec
  import opened Store
  import opened StoreLaws
  import opened Links
  import opened Replication
  import opened PipeLaws
  import opened ReplicationLaws
  import opened Convergence

  /** Which paths may be created, and which values an entry may be set to; a clear counts as setting an empty value. */
  datatype Rules = Rules(path: Path -> bool, value: (Path, Value) -> bool)

  ghost predicate ByRules(rules: Rules, net: Net, s: Step) {
    match s
    case Create(path) => rules.path(path)
    case Set(h, v) => h < |net.store.entries| ==> rules.value(net.store.entries[h].path, v)
    case ClearValue(h) => h < |net.store.entries| ==> rules.value(net.store.entries[h].path, Empty)
    case _ => true
  }

  ghost predicate ReachesByRules(rules: Rules, start: Net, steps: seq<Step>, net: Net)
    ensures ReachesByRules(rules, start, steps, net) ==> Reaches(start, steps, net)
    decreases |steps|
  {
    if steps == [] then net == start
    else
      && Enabled(start, steps[0]) && ByRules(rules, start, steps[0])
      && ReachesByRules(rules, Next(start, steps[0]), steps[1..], net)
  }

  ghost predicate StoreByRules(rules: Rules, st: State) {
    forall h | 0 <= h < |st.entries| ::
      && rules.path(st.entries[h].path)
      && (st.entries[h].HasValue() ==> rules.value(st.entries[h].path, st.entries[h].value))
  }

  ghost predicate MsgByRules(rules: Rules, assignments: map<EntryId, Path>, m: Msg) {
    match m
    case Assign(_, path) => rules.path(path)
    case Upd(_, id, v) => id in assignments && rules.value(assignments[id], v)
    case _ => true
  }

  /** Everything told keeps to the rules, and nothing else is in line but time replies. */
  ghost predicate PeerByRules(rules: Rules, assignments: map<EntryId, Path>, p: Peer) {
    && (forall m | m in p.told :: MsgByRules(rules, assignments, m))
    && (forall m | m in p.queue :: m == TimeReply || m in p.told)
  }

  ghost predicate NetByRules(rules: Rules, net: Net) {
    && StoreByRules(rules, net.store)
    && forall c | c in net.peers :: PeerByRules(rules, net.assignments, net.peers[c])
  }

  // ---------------------------------------------------------------- every step keeps to the rules

  lemma SetAtObeys(rules: Rules, st: State, h: Handle, v: Value, clear: bool, now: int)
    requires Inv(st) && StoreByRules(rules, st) && (clear ==> v == Empty)
    requires h < |st.entries| ==> rules.value(st.entries[h].path, v)
    ensures StoreByRules(rules, SetAt(st, h, v, clear, ID_NOT_ASSIGNED, true, 0, now).0)
  {
    assert h < |st.entries| ==> Sound(st.entries[h]);
    hide Inv, Value.TypeCode;
  }

  lemma DeleteAtObeys(rules: Rules, st: State, h: Handle, now: int)
    requires StoreByRules(rules, st)
    ensures StoreByRules(rules, DeleteAt(st, h, true, 0, now).0)
  {
  }

  lemma CreateObeys(rules: Rules, st: State, path: Path)
    requires StoreByRules(rules, st) && rules.path(path)
    ensures StoreByRules(rules, Apply(st, GetOrCreate(path)))
  {
  }

  lemma LocalObeys(rules: Rules, net: Net, s: Step)
    requires NetOk(net) && NetByRules(rules, net) && ByRules(rules, net, s) && LocalStep(s)
    ensures StoreByRules(rules, Next(net, s).store)
  {
    ServerInv(net);
    hide NetOk, ServerOk, Inv, StoreByRules, Apply;
    match s
    case Create(path) => CreateObeys(rules, net.store, path);
    case Set(h, v) =>
      SetAtObeys(rules, net.store, h, v, false, net.now);
      ApplySet(net.store, h, v, net.now);
    case ClearValue(h) =>
      SetAtObeys(rules, net.store, h, Empty, true, net.now);
      ApplyClear(net.store, h, net.now);
    case Remove(h) =>
      DeleteAtObeys(rules, net.store, h, net.now);
      ApplyDelete(net.store, h, net.now);
    case RemoveAll(path) =>
      DeleteFromObeys(rules, net.store, 0, path, net.now);
      ApplyDeleteAll(net.store, path, net.now);
  }

  lemma {:induction false} DeleteFromObeys(rules: Rules, st: State, h: Handle, path: Path, now: int)
    requires StoreByRules(rules, st)
    ensures StoreByRules(rules, DeleteFrom(st, h, path, now))
    decreases |st.entries| - h
  {
    if h < |st.entries| {
      DeleteFromObeys(rules, if Contains(st.entries[h].path, path) then DeleteAt(st, h, true, 0, now).0 else st,
                      h + 1, path, now);
    }
  }

  lemma TellObeys(rules: Rules, a: map<EntryId, Path>, a': map<EntryId, Path>, p: Peer, id: EntryId, path: Path, m: Msg)
    requires PeerByRules(rules, a, p) && rules.path(path) && MsgByRules(rules, a', m)
    requires forall i | i in a :: i in a' && a'[i] == a[i]
    ensures PeerByRules(rules, a', Tell(p, id, path, m))
  {
    assert forall m' | m' in p.told :: MsgByRules(rules, a, m');
    forall m' | m' in Tell(p, id, path, m).told ensures MsgByRules(rules, a', m') {
    }
  }

  lemma ProcessEntryObeys(rules: Rules, net: Net, h: Handle)
    requires NetOk(net) && NetByRules(rules, net) && h < |net.store.entries| && net.store.entries[h].dirty
    ensures NetByRules(rules, ProcessEntry(net, h))
  {
    hide ServerOk, PeerOk, AssignId, Tell, IdFor;
    var net', id, e := ProcessEntry(net, h), IdFor(net, h), net.store.entries[h];
    ServedIs(net, h);
    DirtyEntry(net, h);
    OtherIdsElsewhere(net, h);
    AssignIdKeepsPeers(net, e.path);
    assert net'.(peers := net.peers) == Served(net, h);
    ToldPeers(net, h);
    forall c | c in net'.peers ensures PeerByRules(rules, net'.assignments, net'.peers[c]) {
      TellObeys(rules, net.assignments, net'.assignments, net.peers[c], id, e.path,
                if e.deleted then Del(net.now, id) else Upd(e.lastUpdate, id, e.value));
    }
  }

  lemma {:induction false} ProcessObeys(rules: Rules, net: Net, h: Handle)
    requires NetOk(net) && NetByRules(rules, net)
    ensures NetByRules(rules, ProcessFrom(net, h))
    decreases CAPACITY - h
  {
    hide NetOk, NetByRules, ProcessEntry;
    if h < CAPACITY && h < |net.store.entries| {
      if net.store.entries[h].dirty {
        ProcessEntryKeeps(net, h);
        ProcessEntryObeys(rules, net, h);
        ProcessObeys(rules, ProcessEntry(net, h), h + 1);
      } else {
        ProcessObeys(rules, net, h + 1);
      }
    }
  }

  lemma GreetIdObeys(rules: Rules, net: Net, p: Peer, id: EntryId)
    requires ServerOk(net.now, net.store, net.nextId, net.assignments)
    requires StoreByRules(rules, net.store) && PeerByRules(rules, net.assignments, p)
    ensures PeerByRules(rules, net.assignments, GreetId(net, p, id))
  {
    if id in net.assignments {
      ServerEntryAt(net, id);
      hide ServerOk, GetValueFromId;
      assert Shown(net.store.entries[net.store.ids[id]]).Some? ==> net.store.entries[net.store.ids[id]].HasValue();
    }
  }

  lemma {:induction false} GreetFromObeys(rules: Rules, net: Net, p: Peer, id: nat)
    requires ServerOk(net.now, net.store, net.nextId, net.assignments)
    requires StoreByRules(rules, net.store) && PeerByRules(rules, net.assignments, p)
    ensures PeerByRules(rules, net.assignments, GreetFrom(net, p, id))
    decreases U16 - id
  {
    if id < U16 {
      GreetIdObeys(rules, net, p, id);
      hide ServerOk, PeerByRules, StoreByRules, GreetId;
      GreetFromObeys(rules, net, GreetId(net, p, id), id + 1);
    }
  }

  lemma GreetObeys(rules: Rules, net: Net, p: Peer)
    requires ServerOk(net.now, net.store, net.nextId, net.assignments)
    requires StoreByRules(rules, net.store) && PeerByRules(rules, net.assignments, p)
    ensures PeerByRules(rules, net.assignments, Greet(net, p))
  {
    hide ServerOk;
    GreetFromObeys(rules, net, p, 0);
  }

  lemma ServerInv(net: Net)
    requires NetOk(net)
    ensures ServerOk(net.now, net.store, net.nextId, net.assignments) && Inv(net.store)
  {
  }

  lemma StoreObeys(rules: Rules, net: Net, st': State)
    requires NetByRules(rules, net) && StoreByRules(rules, st')
    ensures NetByRules(rules, net.(store := st'))
  {
  }

  lemma OnePeerObeys(rules: Rules, net: Net, c: ClientId, p: Peer)
    requires NetByRules(rules, net) && PeerByRules(rules, net.assignments, p)
    ensures NetByRules(rules, net.(peers := WithPeer(net.peers, c, p)))
  {
  }

  lemma PeersObey(rules: Rules, net: Net)
    requires NetByRules(rules, net)
    ensures StoreByRules(rules, net.store)
    ensures forall c | c in net.peers :: PeerByRules(rules, net.assignments, net.peers[c])
  {
  }

  lemma AfterStepObeys(rules: Rules, net: Net, p: Peer, s: Step)
    requires ServerOk(net.now, net.store, net.nextId, net.assignments)
    requires StoreByRules(rules, net.store) && PeerByRules(rules, net.assignments, p)
    ensures PeerByRules(rules, net.assignments, AfterStep(net, p, s))
  {
    hide ServerOk, StoreByRules, Greet, Receive, MsgByRules;
    match s
    case AnswerReady(_) => GreetObeys(rules, net, Popped(p));
    case Consume(_, resync) => if Complete(p) { ReceiveKeepsLine(p, resync); }
    case _ =>
  }

  lemma ReceiveKeepsLine(p: Peer, resync: Option<int>)
    requires Complete(p)
    ensures Handled(p, resync).queue == p.queue && Handled(p, resync).told == p.told
  {
  }

  lemma FlushObeys(rules: Rules, assignments: map<EntryId, Path>, p: Peer)
    requires PeerByRules(rules, assignments, p)
    ensures PeerByRules(rules, assignments, Flush(p))
  {
    hide Flush;
    var k := FlushMoves(p);
  }

  lemma ConnectionObeys(rules: Rules, net: Net, s: Step)
    requires NetOk(net) && NetByRules(rules, net) && Enabled(net, s) && !LocalStep(s) && !s.Tick? && !s.Process?
    ensures NetByRules(rules, Next(net, s))
  {
    hide NetOk, NetByRules, StoreByRules, PeerByRules, AfterStep;
    PeersObey(rules, net);
    ServerInv(net);
    if s.Connect? {
      NothingTold(rules, net.assignments);
      OnePeerObeys(rules, net, s.c, Connected);
    } else {
      AfterStepObeys(rules, net, net.peers[s.c], s);
      OnePeerObeys(rules, net, s.c, AfterStep(net, net.peers[s.c], s));
    }
  }

  lemma TimerObeys(rules: Rules, net: Net)
    requires NetOk(net) && NetByRules(rules, net)
    ensures NetByRules(rules, Next(net, Process))
  {
    hide NetOk, StoreByRules, PeerByRules, ProcessFrom, Flush;
    ProcessObeys(rules, net, 0);
    var processed := ProcessFrom(net, 0);
    forall c | c in FlushAll(processed.peers)
      ensures PeerByRules(rules, processed.assignments, FlushAll(processed.peers)[c])
    {
      FlushObeys(rules, processed.assignments, processed.peers[c]);
    }
  }

  lemma NextObeys(rules: Rules, net: Net, s: Step)
    requires NetOk(net) && NetByRules(rules, net) && Enabled(net, s) && ByRules(rules, net, s)
    ensures NetByRules(rules, Next(net, s))
  {
    hide NetOk, NetByRules, StoreByRules, ByRules, Enabled, Apply, ProcessFrom;
    if LocalStep(s) {
      LocalObeys(rules, net, s);
      StoreObeys(rules, net, Next(net, s).store);
    } else {
      match s
      case Tick(now) => TickObeys(rules, net, now);
      case Process => TimerObeys(rules, net);
      case _ => ConnectionObeys(rules, net, s);
    }
  }

  lemma TickObeys(rules: Rules, net: Net, now: int)
    requires NetByRules(rules, net)
    ensures NetByRules(rules, net.(now := now))
  {
  }

  lemma NothingTold(rules: Rules, assignments: map<EntryId, Path>)
    ensures PeerByRules(rules, assignments, Connected)
  {
  }

  lemma {:induction false} ReachesObeys(rules: Rules, start: Net, steps: seq<Step>, net: Net)
    requires NetOk(start) && NetByRules(rules, start) && ReachesByRules(rules, start, steps, net)
    ensures NetByRules(rules, net)
    decreases |steps|
  {
    if steps == [] {
    } else {
      NextKeeps(start, steps[0]);
      NextObeys(rules, start, steps[0]);
      ReachesObeys(rules, Next(start, steps[0]), steps[1..], net);
    }
  }

  lemma ByRulesFromStart(rules: Rules, start: Net, steps: seq<Step>, net: Net)
    requires Init(start) && ReachesByRules(rules, start, steps, net)
    ensures NetOk(net) && NetByRules(rules, net)
  {
    ReachesObeys(rules, start, steps, net);
    ReachableOk(start, steps, net);
  }

  // ---------------------------------------------------------------- one type for each path

  const DOUBLE: byte := 7

  /** Every path keeps to one type; so a clear is made only where that is the type of an empty value. */
  function OneTypeEach(ty: Path -> byte): Rules {
    Rules(_ => true, (path: Path, v: Value) => v.TypeCode() == ty(path))
  }

  lemma {:induction false} SinceObeys(rules: Rules, assignments: map<EntryId, Path>, told: seq<Msg>, id: EntryId)
    requires forall m | m in told :: MsgByRules(rules, assignments, m)
    ensures Since(id, told) != [] ==> id in assignments
    ensures forall v | v in Since(id, told) :: rules.value(assignments[id], v)
  {
    if told != [] {
      assert MsgByRules(rules, assignments, told[|told| - 1]);
      SinceObeys(rules, assignments, told[..|told| - 1], id);
    }
  }

  lemma {:induction false} FirstOfOneType(vs: seq<Value>, code: byte)
    requires vs != [] && forall v | v in vs :: v.TypeCode() == code
    ensures FirstType(vs) == code
    decreases |vs|
  {
    assert vs[0].TypeCode() == code;
    if vs[0] == Empty && |vs| > 1 {
      FirstOfOneType(vs[1..], code);
    }
  }

  /** Convergence when every path keeps to one type: in every reachable state in which a client is in use, has lost nothing
      and has nothing before it, and the server has nothing more to tell about a path, the client shows the server's value
      as the codec reads it, and nothing where the server shows nothing. That is the server's value itself, if and only if
      the codec does not alter it; it alters nothing but doubles. */
  lemma ConvergedInType(ty: Path -> byte, start: Net, steps: seq<Step>, net: Net, c: ClientId, path: Path)
    requires Init(start) && ReachesByRules(OneTypeEach(ty), start, steps, net)
    requires c in net.peers && Settled(net, net.peers[c], path)
    ensures
      var s, k := Lookup(net.store, path), Lookup(net.peers[c].store, path);
      && (k == match s case Some(v) => Some(ReadBack(v)) case None => None)
      && (k == s <==> s.None? || ReadBack(s.value) == s.value)
      && (ty(path) != DOUBLE ==> k == s)
  {
    Converged(start, steps, net, c, path);
    ByRulesFromStart(OneTypeEach(ty), start, steps, net);
    var s, vs := Lookup(net.store, path), ToldFor(net, net.peers[c], path);
    if s.Some? {
      ShownByRules(OneTypeEach(ty), net, path);
      var id := net.store.entries[net.store.paths[path]].netId;
      SinceObeys(OneTypeEach(ty), net.assignments, net.peers[c].told, id);
      assert vs[|vs| - 1] in vs;
      FirstOfOneType(vs, ty(net.assignments[id]));
    }
  }

  lemma ShownByRules(rules: Rules, net: Net, path: Path)
    requires NetOk(net) && NetByRules(rules, net) && Lookup(net.store, path).Some?
    ensures rules.value(path, Lookup(net.store, path).value)
  {
    hide PeerOk, Replayable;
    assert net.store.entries[net.store.paths[path]].path == path;
  }

  // ---------------------------------------------------------------- nothing too large to send

  /** What a caller can see to: paths shorter than a length byte, and values that fit into a message. */
  const SMALL := Rules((path: Path) => |path| < SIZE_LIMIT, (_, v: Value) => Fits(v))

  /** Which values fit: everything with a fixed size, all byte strings and texts that can be made, and arrays of at most
      125 integers of four bytes or 62 of eight. */
  lemma FitsIff(v: Value)
    ensures Fits(v) <==> match v
                         case Raw(s) => |s| < SIZE_LIMIT
                         case Str(s) => |s| < SIZE_LIMIT
                         case Int32Array(a) => |a| <= 125
                         case Int64Array(a) => |a| <= 62
                         case Float32Array(_) => false
                         case Float64Array(_) => false
                         case _ => true
  {
    Widths();
    match v
    case Int32Array(a) => EncodedLength(4, Unsigned32s(a));
    case Int64Array(a) => EncodedLength(8, Unsigned64s(a));
    case _ =>
  }

  lemma SmallIsSendable(net: Net, c: ClientId, m: Msg)
    requires NetByRules(SMALL, net) && c in net.peers && m in net.peers[c].queue
    ensures Sendable(m)
  {
    hide Fits;
  }
}
