/** The replication protocol of src/net/server.cpp and src/net/client.cpp as a state machine: one server that alone
    writes, any number of clients, and between them queues, rings and wires (`Queue`, `Messages` and `SocketIo` are about
    the code of those, `Transport` connects it with the protocol). */
module Replication {
  import opened Wrappers
  import opened Bytes
  import opened Codec
  import opened Store
  import opened Links

  type ClientId = nat

  /** From the server to a client. `upTo` is not sent: it records how many ids were assigned when the message was
      enqueued, for the statements about the handshake. */
  datatype Msg =
    | Assign(id: EntryId, path: Path)
    | Upd(time: int, id: EntryId, value: Value)
    | Del(time: int, id: EntryId)
    | Finished(upTo: nat)
    | TimeReply

  /** From a client to the server. */
  datatype UpMsg = TimeRequest | Ready

  datatype Phase = TimeSync | Handshake | InUse

  /** A connection: the server's side (`server_client`), the messages that have left the queue and not been handled, the
      client, the messages on their way up, and how far those on their way down have come. `told` lists everything ever
      put in line for the client; it is there for the statements only. */
  datatype Peer = Peer(inUse: bool, published: set<EntryId>, queue: seq<Msg>,
                       down: seq<Msg>,
                       phase: Phase, store: State,
                       up: seq<UpMsg>,
                       link: Link,
                       told: seq<Msg>)

  datatype Net = Net(now: int, store: State, nextId: EntryId, assignments: map<EntryId, Path>,
                     peers: map<ClientId, Peer>)

  const Connected := Peer(false, {}, [], [], TimeSync, Fresh, [TimeRequest], New, [])

  ghost predicate Init(net: Net) {
    net.now > 0 && net.store == Fresh && net.nextId == 0 && net.assignments == map[] && net.peers == map[]
  }

  // ---------------------------------------------------------------- what can be sent

  /** The bytes of an update before its value: time, id and type code. */
  const UPDATE_HEADER := 11
  const BODY_LIMIT := 512

  /** An update with this value can be written into the buffer of the message serializer. */
  predicate Fits(v: Value) {
    v.WithinLimits() && !v.FloatArray() && UPDATE_HEADER + |EncodeValue(v)| <= BODY_LIMIT
  }

  /** The queue can write the message (`Transport.SendableIsWritable`). One that it cannot write stays at its head. */
  predicate Sendable(m: Msg) {
    match m
    case Assign(_, path) => |path| < SIZE_LIMIT
    case Upd(_, _, value) => Fits(value)
    case _ => true
  }

  function ValueSize(v: Value): nat {
    if v.WithinLimits() && !v.FloatArray() then |EncodeValue(v)| else 0
  }

  /** The length of the message without its header (`Transport.BodySizeIs`). */
  function BodySize(m: Msg): nat {
    match m
    case Assign(_, path) => 3 + |path|
    case Upd(_, _, value) => UPDATE_HEADER + ValueSize(value)
    case Del(_, _) => 10
    case Finished(_) => 0
    case TimeReply => 16
  }

  function FrameSize(m: Msg): nat {
    HEADER + BodySize(m)
  }

  function Size(ms: seq<Msg>): nat {
    if ms == [] then 0 else FrameSize(ms[0]) + Size(ms[1..])
  }

  // ---------------------------------------------------------------- sending

  function HandOver(p: Peer, count: nat): Peer
    requires count <= |p.queue|
  {
    p.(down := p.down + p.queue[..count], queue := p.queue[count..])
  }

  /** `message_queue::process`: the line is handed over, one message after the other, until one cannot be written, is
      refused, or is cut off. */
  function Flush(p: Peer): Peer
    decreases |p.queue|
  {
    if p.queue == [] || !Sendable(p.queue[0]) then p
    else
      var link := AfterWrite(p.link, BodySize(p.queue[0]));
      match Judge(p.link.start, p.link.held, BodySize(p.queue[0]))
      case Refused => p
      case Cut => p.(link := link)
      case _ => Flush(HandOver(p, 1).(link := link))
  }

  /** An immediate time reply goes out at once, or else to the head of the line. */
  function Post(p: Peer): Peer {
    var link := AfterWrite(p.link, BodySize(TimeReply));
    if Judge(p.link.start, p.link.held, BodySize(TimeReply)) in {Taken, Filled}
    then p.(down := p.down + [TimeReply], link := link)
    else p.(queue := [TimeReply] + p.queue, link := link)
  }

  /** Not a byte has been lost on the way to this client. */
  predicate Intact(p: Peer) {
    p.link.status == Whole
  }

  /** The peer after something was written to it; a connection that was cut off is gone. */
  function WithPeer(peers: map<ClientId, Peer>, c: ClientId, p: Peer): map<ClientId, Peer> {
    if p.link.status == CutOff then peers - {c} else peers[c := p]
  }

  /** Every client's line is handed over. */
  function FlushAll(peers: map<ClientId, Peer>): (r: map<ClientId, Peer>)
    ensures forall c :: c in r <==> c in peers && Flush(peers[c]).link.status != CutOff
    ensures forall c | c in r :: r[c] == Flush(peers[c])
  {
    map c | c in peers && Flush(peers[c]).link.status != CutOff :: Flush(peers[c])
  }

  // ---------------------------------------------------------------- the server

  function Enqueue(p: Peer, m: Msg): Peer {
    p.(queue := p.queue + [m], told := p.told + [m])
  }

  function Publish(p: Peer, id: EntryId, path: Path): Peer {
    Enqueue(p, Assign(id, path)).(published := p.published + {id})
  }

  /** The next id, as a 16-bit counter gives it. */
  function AssignId(net: Net, path: Path): Net {
    net.(nextId := (net.nextId + 1) % U16,
         assignments := if net.nextId in net.assignments then net.assignments else net.assignments[net.nextId := path],
         store := OnIdAssigned(net.store, net.nextId, path).0)
  }

  function Tell(p: Peer, id: EntryId, path: Path, m: Msg): Peer {
    Enqueue(if id in p.published then p else Publish(p, id, path), m)
  }

  function TellAll(peers: map<ClientId, Peer>, id: EntryId, path: Path, m: Msg): (r: map<ClientId, Peer>)
    ensures r.Keys == peers.Keys
    ensures forall c | c in peers :: r[c] == Tell(peers[c], id, path, m)
  {
    map c | c in peers :: Tell(peers[c], id, path, m)
  }

  /** One dirty entry: give it an id if it has none, tell every client, and clean it. */
  function ProcessEntry(net: Net, h: Handle): Net
    requires h < |net.store.entries|
  {
    var e := net.store.entries[h];
    var net1 := if e.netId == ID_NOT_ASSIGNED then AssignId(net, e.path) else net;
    var id := if e.netId == ID_NOT_ASSIGNED then net.nextId else e.netId;
    var m := if e.deleted then Del(net.now, id) else Upd(e.lastUpdate, id, e.value);
    net1.(peers := TellAll(net.peers, id, e.path, m),
          store := if h < |net1.store.entries| then CleanAt(net1.store, h) else net1.store)
  }

  /** `process_updates` from handle `h` on. */
  function ProcessFrom(net: Net, h: Handle): Net
    decreases CAPACITY - h
  {
    if h >= CAPACITY || h >= |net.store.entries| then net
    else ProcessFrom(if net.store.entries[h].dirty then ProcessEntry(net, h) else net, h + 1)
  }

  /** One id of `handle_do_handshake_for_client`. */
  function GreetId(net: Net, p: Peer, id: EntryId): Peer {
    if id !in net.assignments || id in p.published then p
    else
      var p1 := Publish(p, id, net.assignments[id]);
      match GetValueFromId(net.store, id)
      case Some(v) => Enqueue(p1, Upd(net.now, id, v))
      case None => p1
  }

  /** The ids from `id` on, in ascending order. */
  function GreetFrom(net: Net, p: Peer, id: nat): Peer
    decreases U16 - id
  {
    if id >= U16 then p else GreetFrom(net, GreetId(net, p, id), id + 1)
  }

  function Greet(net: Net, p: Peer): Peer {
    Enqueue(GreetFrom(net, p, 0), Finished(net.nextId)).(inUse := true)
  }

  // ---------------------------------------------------------------- the client

  /** What a client does with a message. A value arrives as the codec reads it. `resync` is what the clock makes of a time
      reply: the new offset, if the reply was good enough to be used. The client's own clock is never read, since no
      message carries the time 0. */
  function Receive(p: Peer, m: Msg, resync: Option<int>): Peer {
    match m
    case Assign(id, path) => p.(store := OnIdAssigned(p.store, id, path).0)
    case Upd(time, id, value) => p.(store := OnUpdated(p.store, id, ReadBack(value), time, 0).0)
    case Del(time, id) => p.(store := OnDeleted(p.store, id, time, 0).0)
    case Finished(_) => p.(phase := InUse)
    case TimeReply =>
      var p1 := if resync.Some? then p.(store := Resync(p.store, resync.value)) else p;
      if p1.phase == TimeSync then p1.(phase := Handshake, up := p1.up + [Ready]) else p1
  }

  /** A change of a client's clock that does not push the times of its entries beyond the server's. */
  ghost predicate HarmlessResync(st: State, offset: int) {
    offset >= 0 || forall h | 0 <= h < |st.entries| :: st.entries[h].lastUpdate == 0
  }

  // ---------------------------------------------------------------- the steps

  /** Calls on the server's storage; time; the server's timer (`Process`); a client connects; the server takes a client's
      message; the server's socket takes `n` bytes out of the ring (`Depart`); `n` bytes arrive at a client (`Arrive`),
      which handles its first message when it is complete (`Consume`), and asks for the time now and then. Once bytes have
      been lost, a client may do anything (`Garble`) or hang up (`HangUp`). */
  datatype Step =
    | Tick(now: int)
    | Create(path: Path)
    | Set(h: Handle, value: Value)
    | ClearValue(h: Handle)
    | Remove(h: Handle)
    | RemoveAll(path: Path)
    | Process
    | Connect(c: ClientId)
    | AnswerTime(c: ClientId)
    | AnswerReady(c: ClientId)
    | Depart(c: ClientId, n: nat)
    | Arrive(c: ClientId, n: nat)
    | Consume(c: ClientId, resync: Option<int>)
    | AskTime(c: ClientId)
    | Garble(c: ClientId, phase: Phase, store: State, up: seq<UpMsg>)
    | HangUp(c: ClientId)

  /** How many bytes are on the wire. */
  function OnTheWire(p: Peer): int {
    Size(p.down) - p.link.held - p.link.got
  }

  /** The first message is there as a whole. */
  predicate Complete(p: Peer) {
    p.down != [] && FrameSize(p.down[0]) <= p.link.got
  }

  /** Values that are too long cannot be made in the first place; float arrays have no encoding (see
      `Codec.Value.TypeCode`). Bytes arrive only while the messages that are complete have been handled: a callback reads
      once, and then handles all it can. A client asks for the time only when it has been answered. */
  ghost predicate Enabled(net: Net, s: Step) {
    match s
    case Tick(now) => net.now <= now
    case Create(_) => true
    case Set(_, value) => value.WithinLimits() && !value.FloatArray()
    case ClearValue(_) => true
    case Remove(_) => true
    case RemoveAll(_) => true
    case Process => net.peers != map[]
    case Connect(c) => c !in net.peers
    case AnswerTime(c) => c in net.peers && net.peers[c].up != [] && net.peers[c].up[0] == TimeRequest
    case AnswerReady(c) => c in net.peers && net.peers[c].up != [] && net.peers[c].up[0] == Ready
    case Depart(c, n) => c in net.peers && n <= net.peers[c].link.held
    case Arrive(c, n) =>
      && c in net.peers && Intact(net.peers[c]) && net.peers[c].down != [] && !Complete(net.peers[c])
      && n <= OnTheWire(net.peers[c]) && CanArrive(net.peers[c].link, n)
    case Consume(c, resync) =>
      && c in net.peers && Intact(net.peers[c]) && Complete(net.peers[c])
      && (resync.Some? ==> HarmlessResync(net.peers[c].store, resync.value))
    case AskTime(c) =>
      && c in net.peers && Intact(net.peers[c]) && net.peers[c].phase == InUse
      && TimeRequest !in net.peers[c].up && TimeReply !in net.peers[c].down + net.peers[c].queue
    case Garble(c, _, _, _) => c in net.peers && !Intact(net.peers[c])
    case HangUp(c) => c in net.peers && !Intact(net.peers[c])
  }

  /** `n` bytes leave the ring. */
  function Departed(l: Link, n: nat): Link {
    if n <= l.held then l.(start := Place(l.start + n), held := l.held - n) else l
  }

  /** `n` bytes come in. If they fill the client's ring they are lost. */
  function Arrived(l: Link, n: nat): Link {
    if Pending(l.got) + n >= RING then l.(status := Lossy) else l.(got := l.got + n)
  }

  /** The first message of the given length is no longer on its way. */
  function Past(l: Link, size: nat): Link
    requires size <= l.got
  {
    l.(got := l.got - size, at := Place(l.at + size))
  }

  /** The client handles its first message. */
  function Handled(p: Peer, resync: Option<int>): Peer
    requires Complete(p)
  {
    Receive(p.(down := p.down[1..], link := Past(p.link, FrameSize(p.down[0]))), p.down[0], resync)
  }

  function Popped(p: Peer): Peer {
    if p.up == [] then p else p.(up := p.up[1..])
  }

  /** What a step makes of the peer it is about, for the steps about one connection. */
  function AfterStep(net: Net, p: Peer, s: Step): Peer {
    match s
    case AnswerTime(_) => Post(Popped(p))
    case AnswerReady(_) => Greet(net, Popped(p))
    case Depart(_, n) => p.(link := Departed(p.link, n))
    case Arrive(_, n) => p.(link := Arrived(p.link, n))
    case Consume(_, resync) => if Complete(p) then Handled(p, resync) else p
    case AskTime(_) => p.(up := p.up + [TimeRequest])
    case Garble(_, phase, store, up) => p.(phase := phase, store := store, up := up)
    case HangUp(_) => p.(link := p.link.(status := CutOff))
    case _ => p
  }

  function Next(net: Net, s: Step): Net {
    match s
    case Tick(now) => net.(now := now)
    case Create(path) => net.(store := Apply(net.store, GetOrCreate(path)))
    case Set(h, value) => net.(store := Apply(net.store, SetValue(h, value, net.now)))
    case ClearValue(h) => net.(store := Apply(net.store, Clear(h, net.now)))
    case Remove(h) => net.(store := Apply(net.store, Delete(h, net.now)))
    case RemoveAll(path) => net.(store := Apply(net.store, DeleteAll(path, net.now)))
    case Process =>
      var processed := ProcessFrom(net, 0);
      processed.(peers := FlushAll(processed.peers))
    case Connect(c) => net.(peers := net.peers[c := Connected])
    case _ => if s.c !in net.peers then net else net.(peers := WithPeer(net.peers, s.c, AfterStep(net, net.peers[s.c], s)))
  }

  /** `net` is reached from `start` by enabled steps. */
  ghost predicate Reaches(start: Net, steps: seq<Step>, net: Net)
    decreases |steps|
  {
    if steps == [] then net == start
    else Enabled(start, steps[0]) && Reaches(Next(start, steps[0]), steps[1..], net)
  }
}
