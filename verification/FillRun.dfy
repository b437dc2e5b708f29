/** A run that ends as `Bursts.FilledRingLosesUpdates` says: four entries that the client knows are set, all goes well, and
    the client keeps the old values. */
module FillRun {
  import opened Wrappers
  import opened Bytes
  import opened Codec
  import opened Store
  import opened Links
  import opened Replication
  import opened PipeLaws
  import opened ReplicationLaws
  import opened TimerLaws
  import opened Losses
  import opened Wires
  import opened CallRules
  import opened Progress
  import opened Passage
  import opened Bursts
  import opened Room
  import opened BurstRun

  const NOTHING := Raw([])

  // ---------------------------------------------------------------- four entries

  function FirstEntry(k: nat): Entry
    requires k < 4
  {
    Entry(PATHS[k], NOTHING, ID_NOT_ASSIGNED, false, false, true, 1)
  }

  function Added(st: State, k: nat): State
    requires k < 4
  {
    Apply(Apply(st, GetOrCreate(PATHS[k])), SetValue(k, NOTHING, 1))
  }

  /** The first `k` entries are there. */
  ghost predicate HasFirst(st: State, k: nat)
    requires k <= 4
  {
    && |st.entries| == k && (forall i | 0 <= i < k :: st.entries[i] == FirstEntry(i))
    && forall p | p in st.paths :: p in PATHS[..k]
  }

  lemma AddOne(rules: Rules, st: State, k: nat)
    requires k < 4 && HasFirst(st, k) && rules.path(PATHS[k]) && rules.value(PATHS[k], NOTHING)
    ensures HasFirst(Added(st, k), k + 1)
    ensures ReachesByRules(rules, NetWith(st, READY), [Create(PATHS[k]), Set(k, NOTHING)], NetWith(Added(st, k), READY))
  {
    assert PATHS[k] !in st.paths;
    var created := Apply(st, GetOrCreate(PATHS[k]));
    assert created.entries == st.entries + [Entry(PATHS[k], Empty, ID_NOT_ASSIGNED, true, false, false, 0)];
    var net, middle := NetWith(st, READY), NetWith(created, READY);
    var s1, s2 := Create(PATHS[k]), Set(k, NOTHING);
    assert [s1, s2][1..] == [s2] && [s2][1..] == [];
    assert ReachesByRules(rules, middle, [s2], NetWith(Added(st, k), READY));
  }

  function Four(): State {
    Added(Added(Added(Added(Fresh, 0), 1), 2), 3)
  }

  const FOUR: seq<Step> := [Create(PATHS[0]), Set(0, NOTHING)] + [Create(PATHS[1]), Set(1, NOTHING)]
                           + [Create(PATHS[2]), Set(2, NOTHING)] + [Create(PATHS[3]), Set(3, NOTHING)]

  lemma AddFour(rules: Rules)
    requires forall k | 0 <= k < 4 :: rules.path(PATHS[k]) && rules.value(PATHS[k], NOTHING)
    ensures HasFirst(Four(), 4) && ReachesByRules(rules, NetWith(Fresh, READY), FOUR, NetWith(Four(), READY))
  {
    hide ReachesByRules, Added, NetWith, HasFirst;
    FirstNone();
    var a, b, d := Added(Fresh, 0), Added(Added(Fresh, 0), 1), Added(Added(Added(Fresh, 0), 1), 2);
    AddOne(rules, Fresh, 0);
    AddOne(rules, a, 1);
    AddOne(rules, b, 2);
    AddOne(rules, d, 3);
    var one, two := [Create(PATHS[0]), Set(0, NOTHING)], [Create(PATHS[1]), Set(1, NOTHING)];
    var three, four := [Create(PATHS[2]), Set(2, NOTHING)], [Create(PATHS[3]), Set(3, NOTHING)];
    ByRulesConcat(rules, NetWith(Fresh, READY), one, NetWith(a, READY), two, NetWith(b, READY));
    ByRulesConcat(rules, NetWith(Fresh, READY), one + two, NetWith(b, READY), three, NetWith(d, READY));
    ByRulesConcat(rules, NetWith(Fresh, READY), one + two + three, NetWith(d, READY), four, NetWith(Four(), READY));
  }

  lemma FirstNone()
    ensures HasFirst(Fresh, 0)
  {
  }

  lemma {:induction false} NoCallsByRules(rules: Rules, start: Net, steps: seq<Step>, net: Net)
    requires Reaches(start, steps, net) && forall s | s in steps :: !LocalStep(s)
    ensures ReachesByRules(rules, start, steps, net)
    decreases |steps|
  {
    if steps != [] {
      assert steps[0] in steps && forall s | s in steps[1..] :: s in steps;
      hide Enabled, Next;
      NoCallsByRules(rules, Next(start, steps[0]), steps[1..], net);
    }
  }

  // ---------------------------------------------------------------- they reach the client

  const RAWS := OneTypeEach(_ => NOTHING.TypeCode())

  lemma FirstSizes(k: nat, published: set<EntryId>, id: EntryId, now: int)
    requires k < 4
    ensures Due(FirstEntry(k), published, id, now) == [Assign(id, PATHS[k]), Upd(1, id, NOTHING)]
    ensures Size(Due(FirstEntry(k), published, id, now)) == 41
  {
    SizeCons(Assign(id, PATHS[k]), [Upd(1, id, NOTHING)]);
    SizeOne(Upd(1, id, NOTHING));
    assert |EncodeValue(NOTHING)| == 1;
  }

  lemma {:induction false} DueSize(es: seq<Entry>, published: set<EntryId>, h: nat, next: EntryId, now: int)
    requires |es| == 4 && h <= 4 && forall i | 0 <= i < 4 :: es[i] == FirstEntry(i)
    ensures Size(DueFrom(es, published, h, next, now)) == 41 * (4 - h)
    decreases 4 - h
  {
    hide Due, Size;
    DueStep(es, published, h, next, now);
    if h < 4 {
      FirstSizes(h, published, next, now);
      var next' := if es[h].netId == ID_NOT_ASSIGNED then (next + 1) % U16 else next;
      DueSize(es, published, h + 1, next', now);
      SizeConcat(Due(es[h], published, next, now), DueFrom(es, published, h + 1, next', now));
    } else {
      NoSize();
    }
  }

  lemma LittleOutstanding(st: State)
    requires HasFirst(st, 4)
    ensures Outstanding(NetWith(st, READY), READY) <= 164
  {
    hide DueFrom, FrameSize;
    DueSize(st.entries, READY.published, 0, 0, 1);
    var due := DueFrom(st.entries, READY.published, 0, 0, 1);
    assert READY.down + (READY.queue + due) == due;
    RelevantSize(due);
  }

  /** A state in which the client shows the four entries, empty, and nothing is left to do. */
  lemma QuietRun() returns (start: Net, steps: seq<Step>, net: Net)
    ensures Init(start) && Reaches(start, steps, net) && Quiet(net, CLIENT)
    ensures ShowsAll(net.peers[CLIENT].store, Four()) && ShowsSame(Four(), net.store)
    ensures HasFirst(Four(), 4) && Inv(Four())
  {
    hide Reaches, ReachesByRules, NetOk, Wired, HasFirst, Four, Outstanding, ShowsAll, ShowsSame, Quiet, Init, Inv;
    var shaken;
    start, shaken := HandshakeRun();
    var first := NetWith(Four(), READY);
    RulesMet();
    FirstByRules(SMALL, start, shaken);
    FirstByRules(RAWS, start, shaken);
    LittleOutstanding(Four());
    FirstLive();
    CanAlwaysConverge(_ => NOTHING.TypeCode(), start, shaken + FOUR, first, CLIENT);
    var more, quiet := NowQuietens(first, CLIENT);
    ReachableOk(start, shaken + FOUR, first);
    TalkShowsSame(first, more, quiet, CLIENT);
    ReachesConcat(start, shaken + FOUR, first, more, quiet);
    steps, net := shaken + FOUR + more, quiet;
    InvOf(first);
  }

  lemma InvOf(net: Net)
    requires NetOk(net)
    ensures Inv(net.store)
  {
  }

  lemma NowQuietens(net: Net, c: ClientId) returns (more: seq<Step>, net': Net)
    requires AlwaysCanQuieten(net, c)
    ensures Quietens(net, more, net', c)
  {
    NowCanQuieten(net, c);
    more, net' :| Quietens(net, more, net', c);
  }

  lemma FirstLive()
    ensures Live(NetWith(Four(), READY), CLIENT) && NetWith(Four(), READY).peers[CLIENT] == READY
  {
    hide Four;
    OneClient(Four(), READY);
  }

  lemma RulesMet()
    ensures forall k | 0 <= k < 4 :: SMALL.path(PATHS[k]) && SMALL.value(PATHS[k], NOTHING)
    ensures forall k | 0 <= k < 4 :: RAWS.path(PATHS[k]) && RAWS.value(PATHS[k], NOTHING)
  {
  }

  lemma FirstByRules(rules: Rules, start: Net, shaken: seq<Step>)
    requires forall k | 0 <= k < 4 :: rules.path(PATHS[k]) && rules.value(PATHS[k], NOTHING)
    requires Reaches(start, shaken, NetWith(Fresh, READY)) && forall s | s in shaken :: !LocalStep(s)
    ensures ReachesByRules(rules, start, shaken + FOUR, NetWith(Four(), READY)) && HasFirst(Four(), 4)
  {
    hide ReachesByRules, Reaches, NetWith, Four, HasFirst;
    AddFour(rules);
    NoCallsByRules(rules, start, shaken, NetWith(Fresh, READY));
    ByRulesConcat(rules, start, shaken, NetWith(Fresh, READY), FOUR, NetWith(Four(), READY));
  }

  // ---------------------------------------------------------------- four updates

  /** The state in which the client shows the four entries. */
  ghost predicate AllKnown(net: Net) {
    && CLIENT in net.peers && |net.store.entries| == 4
    && forall k | 0 <= k < 4 :: Known(net.store.entries[k], net.peers[CLIENT].published)
                                && net.store.entries[k].HasValue() && net.store.entries[k].value.Raw?
  }

  lemma QuietKnows(net: Net, st: State)
    requires NetOk(net) && Wired(net) && Quiet(net, CLIENT) && HasFirst(st, 4) && ShowsSame(st, net.store)
    ensures AllKnown(net) && net.peers[CLIENT].link.held == 0 && Intact(net.peers[CLIENT])
  {
    hide ValuesOk, ClientOk, Orderly, Replayable, UpOk;
    var p := net.peers[CLIENT];
    assert PeerOk(net, p) && LinkOk(p);
    assert Pipe(p) == [] by { assert p.down + p.queue == []; }
    assert Size(p.down) == 0;
    forall k | 0 <= k < 4
      ensures Known(net.store.entries[k], p.published)
      ensures net.store.entries[k].HasValue() && net.store.entries[k].value.Raw?
    {
      assert Shown(net.store.entries[k]) == Shown(st.entries[k]) && st.entries[k] == FirstEntry(k);
      assert ServerEntryOk(net.now, net.store.entries[k]);
    }
  }

  /** Entry `k` is set to a byte string. */
  lemma SetRaw(net: Net, k: nat, w: seq<byte>) returns (net': Net)
    requires AllKnown(net) && k < 4 && |w| < SIZE_LIMIT
    ensures Enabled(net, Set(k, Raw(w))) && net' == Next(net, Set(k, Raw(w))) && AllKnown(net')
    ensures net'.peers == net.peers && net'.store.paths == net.store.paths
    ensures net'.store.entries == net.store.entries[
              k := net.store.entries[k].(value := Raw(w), dirty := true, lastUpdate := net.now)]
  {
    net' := Next(net, Set(k, Raw(w)));
  }

  /** A byte string of the length that entry `k` is given. */
  ghost predicate Long(k: nat, w: seq<byte>) {
    |w| == if k < 3 then 254 else 170
  }

  lemma SetFour(net: Net, ws: seq<seq<byte>>) returns (steps: seq<Step>, net': Net)
    requires AllKnown(net) && |ws| == 4 && forall k | 0 <= k < 4 :: Long(k, ws[k])
    ensures Reaches(net, steps, net') && AllKnown(net')
    ensures net'.peers == net.peers && net'.store.paths == net.store.paths
    ensures forall k | 0 <= k < 4 :: net'.store.entries[k].value == Raw(ws[k]) && net'.store.entries[k].dirty
  {
    hide Next, Enabled, AllKnown, Reaches;
    KnownFour(net);
    assert Long(0, ws[0]) && Long(1, ws[1]) && Long(2, ws[2]) && Long(3, ws[3]);
    var a := SetRaw(net, 0, ws[0]);
    var b := SetRaw(a, 1, ws[1]);
    var d := SetRaw(b, 2, ws[2]);
    net' := SetRaw(d, 3, ws[3]);
    ReachesNone(net');
    var s0, s1, s2, s3 := Set(0, Raw(ws[0])), Set(1, Raw(ws[1])), Set(2, Raw(ws[2])), Set(3, Raw(ws[3]));
    ReachesAfter(d, s3, [], net');
    ReachesAfter(b, s2, [s3] + [], net');
    ReachesAfter(a, s1, [s2] + ([s3] + []), net');
    steps := [s0] + ([s1] + ([s2] + ([s3] + [])));
    ReachesAfter(net, s0, [s1] + ([s2] + ([s3] + [])), net');
  }

  lemma KnownFour(net: Net)
    requires AllKnown(net)
    ensures |net.store.entries| == 4 && forall k | 0 <= k < 4 :: net.store.entries[k].HasValue()
  {
  }

  lemma FourAreDue(net: Net, ws: seq<seq<byte>>)
    requires AllKnown(net) && |ws| == 4 && forall k | 0 <= k < 4 :: Long(k, ws[k])
    requires forall k | 0 <= k < 4 :: net.store.entries[k].value == Raw(ws[k]) && net.store.entries[k].dirty
    ensures
      var p, es := net.peers[CLIENT], net.store.entries;
      && OnlyDirty(es, [0, 1, 2, 3]) && RawDue(p, es[0], 254) && RawDue(p, es[1], 254) && RawDue(p, es[2], 254)
      && RawDue(p, es[3], 170)
  {
    assert Long(0, ws[0]) && Long(1, ws[1]) && Long(2, ws[2]) && Long(3, ws[3]);
  }

  lemma QuietPart(net: Net)
    requires Quiet(net, CLIENT)
    ensures Live(net, CLIENT) && net.peers[CLIENT].queue == [] && net.peers[CLIENT].down == []
  {
  }

  /** From the start of the server: the client shows four empty byte strings; these entries are set to byte strings of 254,
      254, 254 and 170 bytes; the timer comes. Then the server shows the new values, nothing is dirty, in line or in the
      ring, and the client shows the old ones. */
  lemma FillRun(ws: seq<seq<byte>>) returns (start: Net, steps: seq<Step>, net: Net)
    requires |ws| == 4 && forall k | 0 <= k < 4 :: Long(k, ws[k])
    ensures Init(start) && Reaches(start, steps, net) && CLIENT in net.peers && !Intact(net.peers[CLIENT])
    ensures AllClean(net.store) && net.peers[CLIENT].queue == [] && net.peers[CLIENT].link.held == 0
    ensures forall k | 0 <= k < 4 ::
              && Lookup(net.store, PATHS[k]) == Some(Raw(ws[k]))
              && Lookup(net.peers[CLIENT].store, PATHS[k]) == Some(NOTHING)
  {
    hide Reaches, NetOk, Wired, HasFirst, Four, ShowsAll, ShowsSame, Quiet, Init, Inv, Next, Enabled, AllKnown, Lookup,
      RawDue, OnlyDirty, AllClean;
    var first, sets, quiet, after;
    start, first, quiet := QuietRun();
    ReachableWired(start, first, quiet);
    QuietKnows(quiet, Four());
    QuietPart(quiet);
    sets, after := SetFour(quiet, ws);
    ReachesConcat(start, first, quiet, sets, after);
    ReachableOk(start, first + sets, after);
    KnownFour(after);
    FourAreDue(after, ws);
    FilledRingLosesUpdates(after, CLIENT, 0, 1, 2, 3);
    TimerEnabled(after, CLIENT);
    net := Next(after, Process);
    ReachesNone(net);
    ReachesAfter(after, Process, [], net);
    ReachesConcat(start, first + sets, after, [Process] + [], net);
    steps := first + sets + ([Process] + []);
    forall k | 0 <= k < 4
      ensures Lookup(net.store, PATHS[k]) == Some(Raw(ws[k]))
      ensures Lookup(net.peers[CLIENT].store, PATHS[k]) == Some(NOTHING)
    {
      FirstShows(Four(), net.peers[CLIENT].store, k);
      SamePaths(Four(), quiet.store, after.store, k);
      SetShows(after.store, k, ws[k]);
      SameLookup(after.store, net.store, PATHS[k]);
    }
  }

  lemma FirstShows(st: State, client: State, k: nat)
    requires HasFirst(st, 4) && Inv(st) && ShowsAll(client, st) && k < 4
    ensures Lookup(client, PATHS[k]) == Some(NOTHING)
  {
    hide Replayable;
    assert st.entries[k] == FirstEntry(k);
    assert PATHS[k] in st.paths && st.paths[PATHS[k]] == k;
    assert Lookup(st, PATHS[k]) == Some(NOTHING);
  }

  lemma SamePaths(st: State, quiet: State, after: State, k: nat)
    requires HasFirst(st, 4) && Inv(st) && ShowsSame(st, quiet) && after.paths == quiet.paths && k < 4
    ensures PATHS[k] in after.paths && after.paths[PATHS[k]] == k
  {
    hide Replayable;
    assert st.entries[k] == FirstEntry(k);
  }

  lemma SetShows(st: State, k: nat, w: seq<byte>)
    requires k < |st.entries| && k < 4 && PATHS[k] in st.paths && st.paths[PATHS[k]] == k
    requires st.entries[k].HasValue() && st.entries[k].value == Raw(w)
    ensures Lookup(st, PATHS[k]) == Some(Raw(w))
  {
  }
}
