/** The server as its callers see it: a list of the paths that have been created, and a map from paths to values with the
    times of their last changes, which the calls change and nothing else does. */
module ServerMap {
  import opened Wrappers
  import opened Bytes
  import opened Codec
  import opened Store
  import opened Replication
  import opened ReplicationLaws
  import opened TimerLaws
  import opened CallRules
  import Convergence
  import StoreEffects

  /** `names` are the created paths, in the order of their handles; `shown` are those that have a value, with it; `changed`
      says when a path was last written or removed. */
  datatype Board = Board(now: int, names: seq<Path>, shown: map<Path, Value>, changed: map<Path, int>)

  function Blank(now: int): Board {
    Board(now, [], map[], map[])
  }

  /** A value replaces one of its type, an empty one, or none. */
  predicate Replaces(b: Board, path: Path, value: Value) {
    path in b.shown ==> b.shown[path].TypeCode() in {Empty.TypeCode(), value.TypeCode()}
  }

  function Write(b: Board, path: Path, value: Value): Board {
    b.(shown := b.shown[path := value], changed := b.changed[path := b.now])
  }

  /** The shown paths among `paths` no longer are. */
  function Erase(b: Board, paths: set<Path>): Board {
    b.(shown := b.shown - paths,
       changed := map p | p in b.changed.Keys + b.shown.Keys :: if p in b.shown && p in paths then b.now else ChangedAt(b, p))
  }

  function ChangedAt(b: Board, path: Path): int {
    if path in b.changed then b.changed[path] else 0
  }

  function Written(b: Board, s: Step): Board {
    match s
    case Tick(now) => b.(now := now)
    case Create(path) => if path in b.names || |b.names| >= CAPACITY then b else b.(names := b.names + [path])
    case Set(h, value) => if h < |b.names| && Replaces(b, b.names[h], value) then Write(b, b.names[h], value) else b
    case ClearValue(h) => if h < |b.names| then Write(b, b.names[h], Empty) else b
    case Remove(h) => if h < |b.names| then Erase(b, {b.names[h]}) else b
    case RemoveAll(path) => Erase(b, set p | p in b.shown && Contains(p, path))
    case _ => b
  }

  function WrittenAll(b: Board, steps: seq<Step>): Board
    decreases |steps|
  {
    if steps == [] then b else WrittenAll(Written(b, steps[0]), steps[1..])
  }

  function Read(b: Board, path: Path): Option<Value> {
    if path in b.shown then Some(b.shown[path]) else None
  }

  /** What the store tells about a path: its value and the time of its last update. */
  function Told(st: State, path: Path): (Option<Value>, int) {
    (Lookup(st, path), StoreEffects.LastUpdate(st, path))
  }

  function Noted(b: Board, path: Path): (Option<Value>, int) {
    (Read(b, path), ChangedAt(b, path))
  }

  /** The store has just these entries, and tells just this about every path. */
  ghost predicate Displays(st: State, b: Board) {
    && |b.names| == |st.entries|
    && (forall h | 0 <= h < |b.names| :: b.names[h] == st.entries[h].path)
    && (forall p :: Told(st, p) == Noted(b, p))
  }

  lemma WriteNotes(b: Board, path: Path, value: Value, p: Path)
    ensures Noted(Write(b, path, value), p) == if p == path then (Some(value), b.now) else Noted(b, p)
  {
  }

  lemma EraseNotes(b: Board, paths: set<Path>, p: Path)
    ensures Noted(Erase(b, paths), p) == if p in paths && p in b.shown then (None, b.now) else Noted(b, p)
  {
  }

  // ---------------------------------------------------------------- one step

  lemma Handles(st: State)
    requires Inv(st)
    ensures |st.entries| <= CAPACITY
    ensures forall p | p in st.paths :: st.paths[p] < |st.entries| && st.entries[st.paths[p]].path == p
    ensures forall h | 0 <= h < |st.entries| :: st.entries[h].path in st.paths && st.paths[st.entries[h].path] == h
  {
  }

  /** Only the entry `h` reads differently. */
  lemma OthersRead(st: State, st': State, h: Handle, path: Path)
    requires Inv(st) && h < |st.entries| && StoreEffects.OnlyAt(st, st', h)
    ensures Told(st', path)
            == if path == st.entries[h].path then (GetValue(st', h), st'.entries[h].lastUpdate) else Told(st, path)
  {
    Handles(st);
    hide Inv;
  }

  lemma SameRead(st: State, h: Handle)
    requires Inv(st) && h < |st.entries|
    ensures Told(st, st.entries[h].path) == (GetValue(st, h), st.entries[h].lastUpdate)
  {
  }

  lemma CreateTells(st: State, path: Path, p: Path)
    requires Inv(st)
    ensures Told(Apply(st, GetOrCreate(path)), p) == Told(st, p)
  {
    Handles(st);
    StoreEffects.GetOrCreateEffect(st, path);
    hide Inv;
  }

  lemma CreateDisplays(st: State, b: Board, path: Path)
    requires Inv(st) && Displays(st, b)
    ensures Displays(Apply(st, GetOrCreate(path)), Written(b, Create(path)))
  {
    Handles(st);
    StoreEffects.GetOrCreateEffect(st, path);
    if path in st.paths {
      assert b.names[st.paths[path]] == path;
    }
    hide Inv, Told, GetOrCreateEntry, Lookup;
    forall p ensures Told(Apply(st, GetOrCreate(path)), p) == Told(st, p) {
      CreateTells(st, path, p);
    }
    assert forall p :: Noted(Written(b, Create(path)), p) == Noted(b, p);
  }

  lemma SetDisplays(st: State, b: Board, h: Handle, value: Value)
    requires Inv(st) && Displays(st, b)
    ensures Displays(Apply(st, SetValue(h, value, b.now)), Written(b, Set(h, value)))
  {
    if h < |st.entries| {
      StoreEffects.SetEffect(st, h, value, b.now);
      SameRead(st, h);
      var st', path := Apply(st, SetValue(h, value, b.now)), st.entries[h].path;
      assert Told(st, path) == Noted(b, path);
      if StoreEffects.Accepts(GetValue(st, h), value) {
        forall p ensures Told(st', p) == Noted(Write(b, path, value), p) {
          OthersRead(st, st', h, p);
          WriteNotes(b, path, value, p);
        }
      }
      hide Inv, Apply, GetValue, Told, Noted, Write;
      assert Read(b, path) == GetValue(st, h);
    }
  }

  lemma ClearDisplays(st: State, b: Board, h: Handle)
    requires Inv(st) && Displays(st, b)
    ensures Displays(Apply(st, Clear(h, b.now)), Written(b, ClearValue(h)))
  {
    if h < |st.entries| {
      StoreEffects.ClearEffect(st, h, b.now);
      var st', path := Apply(st, Clear(h, b.now)), st.entries[h].path;
      forall p ensures Told(st', p) == Noted(Write(b, path, Empty), p) {
        OthersRead(st, st', h, p);
        WriteNotes(b, path, Empty, p);
      }
      hide Inv, Apply, GetValue, Told, Noted, Write;
    }
  }

  lemma RemoveDisplays(st: State, b: Board, h: Handle)
    requires Inv(st) && Displays(st, b)
    ensures Displays(Apply(st, Delete(h, b.now)), Written(b, Remove(h)))
  {
    if h < |st.entries| {
      StoreEffects.DeleteEffect(st, h, b.now);
      SameRead(st, h);
      var st', path := Apply(st, Delete(h, b.now)), st.entries[h].path;
      assert Told(st, path) == Noted(b, path);
      forall p ensures Told(st', p) == Noted(Erase(b, {path}), p) {
        if GetValue(st, h).Some? {
          OthersRead(st, st', h, p);
        }
        EraseNotes(b, {path}, p);
      }
      hide Inv, Apply, GetValue, Told, Noted, Erase;
    }
  }

  lemma RemoveAllReads(st: State, path: Path, now: int, p: Path)
    requires Inv(st)
    ensures Told(Apply(st, DeleteAll(path, now)), p)
            == if Contains(p, path) && Lookup(st, p).Some? then (None, now) else Told(st, p)
  {
    hide Contains, Apply;
    Handles(st);
    SamePaths(st, path, now);
    if p in st.paths {
      StoreEffects.DeleteAllEffect(st, path, now, st.paths[p]);
    }
  }

  lemma SamePaths(st: State, path: Path, now: int)
    ensures
      var st' := Apply(st, DeleteAll(path, now));
      st'.paths == st.paths && |st'.entries| == |st.entries|
  {
    PathsKept(st, 0, path, now);
  }

  lemma {:induction false} PathsKept(st: State, h: Handle, path: Path, now: int)
    ensures DeleteFrom(st, h, path, now).paths == st.paths
    decreases |st.entries| - h
  {
    if h < |st.entries| {
      PathsKept(if Contains(st.entries[h].path, path) then DeleteAt(st, h, true, 0, now).0 else st, h + 1, path, now);
    }
  }

  lemma RemoveAllDisplays(st: State, b: Board, path: Path)
    requires Inv(st) && Displays(st, b)
    ensures Displays(Apply(st, DeleteAll(path, b.now)), Written(b, RemoveAll(path)))
  {
    var st', gone := Apply(st, DeleteAll(path, b.now)), set p | p in b.shown && Contains(p, path);
    SamePaths(st, path, b.now);
    forall h | 0 <= h < |st.entries| ensures st'.entries[h].path == st.entries[h].path {
      StoreEffects.DeleteAllEffect(st, path, b.now, h);
    }
    forall p ensures Told(st', p) == Noted(Erase(b, gone), p) {
      RemoveAllReads(st, path, b.now, p);
      EraseNotes(b, gone, p);
      assert Told(st, p) == Noted(b, p);
    }
    hide Contains, Apply, Inv, Told, Noted, Erase;
  }

  lemma TimerDisplays(st: State, st': State, b: Board)
    requires Inv(st) && Inv(st') && ShowsSame(st, st') && Displays(st, b)
    ensures Displays(st', b)
  {
    Handles(st);
    Handles(st');
    hide Inv;
    forall p ensures Told(st', p) == Told(st, p) {
      SameLookup(st, st', p);
    }
    hide Told, Noted;
    forall h | 0 <= h < |b.names| ensures b.names[h] == st'.entries[h].path {
      assert st'.paths[st.entries[h].path] == h;
    }
  }

  lemma StoreInv(net: Net)
    requires NetOk(net)
    ensures Inv(net.store)
  {
  }

  lemma {:induction false} TimerKeepsNow(net: Net, h: Handle)
    ensures ProcessFrom(net, h).now == net.now
    decreases CAPACITY - h
  {
    if h < CAPACITY && h < |net.store.entries| {
      hide ProcessEntry;
      OneKeepsNow(net, h);
      TimerKeepsNow(if net.store.entries[h].dirty then ProcessEntry(net, h) else net, h + 1);
    }
  }

  lemma OneKeepsNow(net: Net, h: Handle)
    requires h < |net.store.entries|
    ensures ProcessEntry(net, h).now == net.now
  {
    hide TellAll, OnIdAssigned, CleanAt;
  }

  /** Every step of the system changes what the server shows as the map says, and so only the calls do. */
  lemma StepDisplays(net: Net, s: Step, b: Board)
    requires NetOk(net) && Enabled(net, s) && Displays(net.store, b) && b.now == net.now
    ensures Displays(Next(net, s).store, Written(b, s)) && Written(b, s).now == Next(net, s).now
  {
    hide NetOk, Inv, Displays, Written, Enabled, Apply, ShowsSame, ProcessFrom, AfterStep, WithPeer;
    StoreInv(net);
    NextKeeps(net, s);
    StoreInv(Next(net, s));
    WrittenNow(b, s);
    match s
    case Tick(now) => TickDisplays(net.store, b, now);
    case Create(path) => CreateDisplays(net.store, b, path);
    case Set(h, value) => SetDisplays(net.store, b, h, value);
    case ClearValue(h) => ClearDisplays(net.store, b, h);
    case Remove(h) => RemoveDisplays(net.store, b, h);
    case RemoveAll(path) => RemoveAllDisplays(net.store, b, path);
    case Process =>
      ProcessCleans(net);
      TimerKeepsNow(net, 0);
      TimerDisplays(net.store, Next(net, s).store, b);
    case _ =>
  }

  lemma TickDisplays(st: State, b: Board, now: int)
    requires Displays(st, b)
    ensures Displays(st, Written(b, Tick(now)))
  {
    hide Told;
    assert forall p :: Noted(b.(now := now), p) == Noted(b, p);
  }

  lemma WrittenNow(b: Board, s: Step)
    ensures !s.Tick? && !s.Create? && !s.Set? && !s.ClearValue? && !s.Remove? && !s.RemoveAll? ==> Written(b, s) == b
    ensures Written(b, s).now == if s.Tick? then s.now else b.now
  {
  }

  // ---------------------------------------------------------------- runs

  lemma {:induction false} ReachesDisplays(start: Net, steps: seq<Step>, net: Net, b: Board)
    requires NetOk(start) && Reaches(start, steps, net) && Displays(start.store, b) && b.now == start.now
    ensures Displays(net.store, WrittenAll(b, steps))
    decreases |steps|
  {
    hide NetOk, Enabled, Next, Displays, Written;
    if steps == [] {
    } else {
      NextKeeps(start, steps[0]);
      StepDisplays(start, steps[0], b);
      ReachesDisplays(Next(start, steps[0]), steps[1..], net, Written(b, steps[0]));
    }
  }

  /** The server shows, after any run, what its calls have written, one after the other, as of the times of these calls; its
      timer, its connections and its clients make no difference. */
  lemma ServerIsMap(start: Net, steps: seq<Step>, net: Net, path: Path)
    requires Init(start) && Reaches(start, steps, net)
    ensures
      var b := WrittenAll(Blank(start.now), steps);
      && Lookup(net.store, path) == Read(b, path)
      && StoreEffects.LastUpdate(net.store, path) == ChangedAt(b, path)
      && |net.store.entries| == |b.names| && forall h | 0 <= h < |b.names| :: net.store.entries[h].path == b.names[h]
  {
    ReachableOk(start, [], start);
    ReachesDisplays(start, steps, net, Blank(start.now));
    assert Told(net.store, path) == Noted(WrittenAll(Blank(start.now), steps), path);
  }

  /** From end to end: with one type for each path, a client for which nothing is left to do shows what has been written
      by the server's calls, as the codec reads it. */
  lemma ClientIsMap(ty: Path -> byte, start: Net, steps: seq<Step>, net: Net, c: ClientId, path: Path)
    requires Init(start) && ReachesByRules(OneTypeEach(ty), start, steps, net)
    requires c in net.peers && Convergence.Settled(net, net.peers[c], path)
    ensures Lookup(net.peers[c].store, path)
            == match Read(WrittenAll(Blank(start.now), steps), path) case Some(v) => Some(ReadBack(v)) case None => None
  {
    ConvergedInType(ty, start, steps, net, c, path);
    ServerIsMap(start, steps, net, path);
  }
}
