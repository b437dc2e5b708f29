/** The layers put together: messages that the queue hands to a socket come out of the other socket's reader in the same
    order, and the parser gives back what each of them carries. */
module Transport {
  import opened Bytes
  import opened Codec
  import opened Framing
  import opened SocketIo
  import Messages
  import Queue
  import Replication
  import Links

  /** The frames are the packets of the messages. */
  ghost predicate Packed(messages: seq<Messages.Message>, frames: seq<Frame>) {
    && |frames| == |messages|
    && forall i | 0 <= i < |messages| :: Queue.PacketOf(messages[i]) == [(frames[i].header.kind, frames[i].payload)]
  }

  /** Parsing the frame finishes with everything the message carries and nothing left over, whatever the parser held. */
  ghost predicate Unpacks(f: Frame, m: Messages.Message) {
    && Messages.Layout(f.header.kind).Some?
    && forall d: Messages.ParseData ::
         Messages.ReadFields(Messages.Layout(f.header.kind).value, d, f.payload) == Got(Messages.Carried(m, d), [])
  }

  lemma PackedUnpacks(f: Frame, m: Messages.Message)
    requires Queue.PacketOf(m) == [(f.header.kind, f.payload)]
    ensures Unpacks(f, m)
  {
    assert m != Messages.NoType && m.WithinLimits();
    assert f.header.kind == m.Kind() && f.payload == Messages.EncodeBody(m);
    hide Messages.ReadFields, Messages.EncodeBody, Messages.Carried;
    forall d: Messages.ParseData
      ensures Messages.Layout(m.Kind()).Some?
      ensures Messages.ReadFields(Messages.Layout(m.Kind()).value, d, f.payload) == Got(Messages.Carried(m, d), [])
    {
      Messages.BodyRoundTrip(m, d, []);
      assert f.payload + [] == f.payload;
    }
    var d := Messages.ParseData(0, 0, [], 0, Empty, 0);
    Messages.BodyRoundTrip(m, d, []);
  }

  /** From queue to parser. In every reachable state of the two sockets, the `i`-th message the receiver has handed on is
      the `i`-th that was sent, each field of it intact; and all have been handed on once nothing is on its way. */
  lemma MessagesArriveInOrder(sender: Socket, wire: seq<byte>, receiver: Socket, sent: seq<Messages.Message>)
    requires sender.Valid() && sender.connected && receiver.Valid() && receiver.intact
    requires sender.drained == receiver.arrived + wire
    requires Packed(sent, sender.accepted)
    ensures |receiver.received| <= |sent|
    ensures forall i | 0 <= i < |receiver.received| :: Unpacks(receiver.received[i], sent[i])
    ensures sender.writeBuffer.contents == [] && wire == [] ==> |receiver.received| == |sent|
  {
    InOrder(sender, wire, receiver);
    hide Queue.PacketOf, Unpacks;
    forall i | 0 <= i < |receiver.received| ensures Unpacks(receiver.received[i], sent[i]) {
      assert receiver.received[i] == sender.accepted[i];
      PackedUnpacks(receiver.received[i], sent[i]);
    }
  }

  // ---------------------------------------------------------------- the queue

  /** What the destination of a queue has seen, when it is this socket. */
  function SentOf(frames: seq<Frame>): seq<(byte, seq<byte>)> {
    seq(|frames|, i requires 0 <= i < |frames| => (frames[i].header.kind, frames[i].payload))
  }

  /** The messages that leave a packet: all but those without a type. */
  ghost function Posted(items: seq<Queue.Item>): seq<Queue.Item> {
    if items == [] then []
    else Posted(items[..|items| - 1]) + if items[|items| - 1].message == Messages.NoType then [] else [items[|items| - 1]]
  }

  lemma PostedAppend(items: seq<Queue.Item>, item: Queue.Item)
    ensures Posted(items + [item]) == Posted(items) + if item.message == Messages.NoType then [] else [item]
  {
    assert (items + [item])[..|items|] == items;
  }

  lemma {:induction false} PostedConcat(a: seq<Queue.Item>, b: seq<Queue.Item>)
    ensures Posted(a + b) == Posted(a) + Posted(b)
    decreases |b|
  {
    if b == [] {
      assert a + [] == a;
    } else {
      var init, last := b[..|b| - 1], b[|b| - 1];
      assert a + b == (a + init) + [last] && b == init + [last];
      PostedConcat(a, init);
      PostedAppend(a + init, last);
    }
  }

  /** One packet for each posted message. */
  lemma {:induction false} PostedPackets(items: seq<Queue.Item>)
    requires forall item | item in items :: item.message == Messages.NoType || Queue.Writable(item.message)
    ensures |Queue.Packets(items)| == |Posted(items)|
    ensures forall i | 0 <= i < |Posted(items)| :: Queue.PacketOf(Posted(items)[i].message) == [Queue.Packets(items)[i]]
  {
    hide Queue.Writable;
    if items != [] {
      PostedPackets(items[..|items| - 1]);
    }
  }

  lemma {:induction false} PostedCounts(items: seq<Queue.Item>, item: Queue.Item)
    ensures multiset(Posted(items))[item] == if item.message == Messages.NoType then 0 else multiset(items)[item]
  {
    if items != [] {
      var init, last := items[..|items| - 1], items[|items| - 1];
      assert items == init + [last];
      PostedCounts(init, item);
    }
  }

  /** Taking out the ordinary messages and taking out those without a type can be done in either order. */
  lemma {:induction false} PostedOrdinary(items: seq<Queue.Item>)
    ensures Queue.Ordinary(Posted(items)) == Posted(Queue.Ordinary(items))
  {
    if items != [] {
      var init, last := items[..|items| - 1], items[|items| - 1];
      assert items == init + [last];
      PostedOrdinary(init);
      Queue.OrdinaryConcat(init, [last]);
      Queue.OrdinaryConcat(Posted(init), if last.message == Messages.NoType then [] else [last]);
      OrdinaryOne(last);
      PostedConcat(Queue.Ordinary(init), Queue.Ordinary([last]));
      PostedAppend([], last);
      assert [] + [last] == [last];
    }
  }

  lemma OrdinaryOne(item: Queue.Item)
    ensures Queue.Ordinary([item]) == if item.immediate then [] else [item]
  {
    assert [item][1..] == [];
  }

  lemma OrderKept(log: seq<Queue.Item>, done: seq<Queue.Item>, waiting: seq<Queue.Item>, k: nat)
    requires Queue.Conserves(log, done + waiting) && k <= |Posted(done)|
    ensures Queue.Ordinary(Posted(done)[..k]) <= Posted(Queue.Ordinary(log))
  {
    hide Queue.Ordinary, Posted;
    Queue.OrdinaryConcat(done, waiting);
    PostedConcat(Queue.Ordinary(done), Queue.Ordinary(waiting));
    PostedOrdinary(done);
    Queue.OrdinaryConcat(Posted(done)[..k], Posted(done)[k..]);
    assert Posted(done) == Posted(done)[..k] + Posted(done)[k..];
  }

  /** From the queue to the parser. A queue whose destination is a socket, any two sockets in any state they can reach,
      and what is on the wire between them: the messages that come out are, in this order and with all their fields, the
      first of those that have left the queue; the ordinary ones among them are the first of the ordinary ones ever
      enqueued. Once queue, ring and wire are empty, they are all the enqueued messages, each as often as it was. */
  lemma QueueReachesParser(queue: Queue.MessageQueue, sender: Socket, wire: seq<byte>, receiver: Socket)
    requires queue.Valid() && sender.Valid() && sender.connected && receiver.Valid() && receiver.intact
    requires sender.drained == receiver.arrived + wire
    requires queue.destination.sent == SentOf(sender.accepted)
    ensures
      var n, posted := |receiver.received|, Posted(queue.done);
      && n <= |posted|
      && (forall i | 0 <= i < n :: Unpacks(receiver.received[i], posted[i].message))
      && Queue.Ordinary(posted[..n]) <= Posted(Queue.Ordinary(queue.log))
      && (queue.waiting == [] && sender.writeBuffer.contents == [] && wire == [] ==>
            n == |posted| && multiset(posted) == multiset(Posted(queue.log)))
  {
    var posted := Posted(queue.done);
    var sent := seq(|posted|, i requires 0 <= i < |posted| => posted[i].message);
    assert Packed(sent, sender.accepted) by { DonePacked(queue.done, sender.accepted, sent); }
    hide Socket.Valid, Packed, Unpacks, Posted, Queue.Packets, Queue.Ordinary, Queue.Matches;
    MessagesArriveInOrder(sender, wire, receiver, sent);
    OrderKept(queue.log, queue.done, queue.waiting, |receiver.received|);
    if queue.waiting == [] {
      assert queue.done + [] == queue.done;
      NothingLost(queue.log, queue.done);
    }
  }

  lemma DonePacked(done: seq<Queue.Item>, accepted: seq<Frame>, sent: seq<Messages.Message>)
    requires SentOf(accepted) == Queue.Packets(done)
    requires forall item | item in done :: item.message == Messages.NoType || Queue.Writable(item.message)
    requires |sent| == |Posted(done)| && forall i | 0 <= i < |sent| :: sent[i] == Posted(done)[i].message
    ensures Packed(sent, accepted)
  {
    hide Queue.PacketOf, Queue.Packets, Posted, Queue.Writable;
    PostedPackets(done);
    forall i | 0 <= i < |sent|
      ensures Queue.PacketOf(sent[i]) == [(accepted[i].header.kind, accepted[i].payload)]
    {
      assert Queue.Packets(done)[i] == SentOf(accepted)[i];
    }
  }

  lemma NothingLost(log: seq<Queue.Item>, done: seq<Queue.Item>)
    requires multiset(done) == multiset(log)
    ensures multiset(Posted(done)) == multiset(Posted(log))
  {
    forall item ensures multiset(Posted(done))[item] == multiset(Posted(log))[item] {
      PostedCounts(done, item);
      PostedCounts(log, item);
    }
  }

  /** A socket does what a queue expects of its destination, whenever its answer can be relied on (the condition in
      `Socket.Write`): with its answers as the script the two stay in step. */
  method WriteThrough(destination: Queue.Destination, socket: Socket, kind: byte, body: seq<byte>) returns (ok: bool)
    requires socket.Valid() && socket.connected && destination.sent == SentOf(socket.accepted)
    requires || |socket.writeBuffer.contents| + HEADER_SIZE + |body| < BUFFER_SIZE
             || !socket.writeBuffer.CanWrite(HEADER_SIZE + |body|)
    modifies destination, socket, socket.writeBuffer, socket.writeBuffer.buffer
    ensures socket.Valid() && socket.connected && destination.sent == SentOf(socket.accepted)
    ensures destination.sent == if ok then old(destination.sent) + [(kind, body)] else old(destination.sent)
  {
    hide Socket.Sending, Socket.Receiving;
    ok := socket.Write(kind, body);
    destination.script := [ok];
    var _ := destination.Deliver(kind, body);
  }

  // ---------------------------------------------------------------- the messages of the protocol

  /** Times are sent as 64-bit numbers. */
  predicate InRange(m: Replication.Msg) {
    match m
    case Upd(time, _, _) => -0x8000_0000_0000_0000 <= time < 0x8000_0000_0000_0000
    case Del(time, _) => -0x8000_0000_0000_0000 <= time < 0x8000_0000_0000_0000
    case _ => true
  }

  function OnWire(m: Replication.Msg): Messages.Message
    requires InRange(m)
  {
    match m
    case Assign(id, path) => Messages.EntryIdAssign(id, path)
    case Upd(time, id, value) => Messages.EntryUpdate(time, id, value)
    case Del(time, id) => Messages.EntryDelete(time, id)
    case Finished(_) => Messages.HandshakeFinished
    case TimeReply => Messages.TimeSyncResponse(0, 0)
  }

  /** The queue can write exactly the messages that the protocol calls sendable. */
  lemma SendableIsWritable(m: Replication.Msg)
    requires InRange(m)
    ensures Replication.Sendable(m) <==> Queue.Writable(OnWire(m))
  {
    hide EncodeValue;
  }

  /** Their bodies have the length that the protocol counts with. */
  lemma BodySizeIs(m: Replication.Msg)
    requires InRange(m) && Replication.Sendable(m)
    ensures OnWire(m).WithinLimits() && |Messages.EncodeBody(OnWire(m))| == Replication.BodySize(m)
  {
    Widths();
    hide EncodeValue;
  }

  /** What the connection answers while the line is handed over. */
  function Answers(p: Replication.Peer): seq<bool>
    decreases |p.queue|
  {
    if p.queue == [] then []
    else
      var body := Replication.BodySize(p.queue[0]);
      if Links.Judge(p.link.start, p.link.held, body) in {Links.Taken, Links.Filled}
      then [true] + Answers(Replication.HandOver(p, 1).(link := Links.AfterWrite(p.link, body)))
      else [false]
  }

  function Items(ms: seq<Replication.Msg>): (items: seq<Queue.Item>)
    requires forall m | m in ms :: InRange(m)
    ensures |items| == |ms|
  {
    seq(|ms|, i requires 0 <= i < |ms| => Queue.Item(OnWire(ms[i]), false))
  }

  lemma PassesNext(p: Replication.Peer)
    requires p.queue != [] && forall m | m in p.queue :: InRange(m)
    ensures
      var body := Replication.BodySize(p.queue[0]);
      var next := Replication.HandOver(p, 1).(link := Links.AfterWrite(p.link, body));
      Queue.Passing(Items(p.queue), Answers(p))
      == if Replication.Sendable(p.queue[0]) && Links.Judge(p.link.start, p.link.held, body) in {Links.Taken, Links.Filled}
         then 1 + Queue.Passing(Items(next.queue), Answers(next)) else 0
  {
    hide Replication.Sendable, Queue.Writable, Replication.BodySize, OnWire;
    SendableIsWritable(p.queue[0]);
    NotNoType(p.queue[0]);
    var body := Replication.BodySize(p.queue[0]);
    var next := Replication.HandOver(p, 1).(link := Links.AfterWrite(p.link, body));
    assert Items(p.queue)[1..] == Items(p.queue[1..]);
    if Links.Judge(p.link.start, p.link.held, body) in {Links.Taken, Links.Filled} {
      assert Answers(p) == [true] + Answers(next);
      assert Answers(p)[1..] == Answers(next);
    }
  }

  lemma FlushStep(p: Replication.Peer)
    requires p.queue != []
    ensures
      var body := Replication.BodySize(p.queue[0]);
      var next := Replication.HandOver(p, 1).(link := Links.AfterWrite(p.link, body));
      var passes := Replication.Sendable(p.queue[0])
                    && Links.Judge(p.link.start, p.link.held, body) in {Links.Taken, Links.Filled};
      && (passes ==> Replication.Flush(p) == Replication.Flush(next))
      && (!passes ==> Replication.Flush(p).queue == p.queue && Replication.Flush(p).down == p.down)
  {
    hide Replication.Sendable, Replication.BodySize;
  }

  /** So what the queue passes on with these answers is what the protocol hands over. */
  lemma {:induction false} FlushIsPassing(p: Replication.Peer)
    requires forall m | m in p.queue :: InRange(m)
    ensures
      var k := Queue.Passing(Items(p.queue), Answers(p));
      && Replication.Flush(p).queue == p.queue[k..]
      && Replication.Flush(p).down == p.down + p.queue[..k]
    decreases |p.queue|
  {
    hide Replication.Sendable, Replication.BodySize, Replication.Flush, Queue.Passing, Items, Answers, InRange, Links.Judge;
    if p.queue == [] {
      NothingPasses(p);
    } else {
      FlushStep(p);
      PassesNext(p);
      var body := Replication.BodySize(p.queue[0]);
      var next := Replication.HandOver(p, 1).(link := Links.AfterWrite(p.link, body));
      assert p.down + p.queue[..0] == p.down && p.queue[0..] == p.queue;
      if Replication.Sendable(p.queue[0]) && Links.Judge(p.link.start, p.link.held, body) in {Links.Taken, Links.Filled} {
        FlushIsPassing(next);
        var k := Queue.Passing(Items(next.queue), Answers(next));
        assert p.queue[1..][k..] == p.queue[k + 1..];
        assert p.down + p.queue[..1] + p.queue[1..][..k] == p.down + p.queue[..k + 1];
      }
    }
  }

  lemma NothingPasses(p: Replication.Peer)
    requires p.queue == []
    ensures Queue.Passing(Items(p.queue), Answers(p)) == 0 && Replication.Flush(p) == p
  {
  }

  lemma NotNoType(m: Replication.Msg)
    requires InRange(m)
    ensures OnWire(m) != Messages.NoType
  {
  }

  // ---------------------------------------------------------------- the link

  /** The two sockets and the wire between them hold what the protocol says of the connection. */
  ghost predicate Carries(p: Replication.Peer, sender: Socket, wire: seq<byte>, receiver: Socket)
    reads sender.Repr(), receiver.Repr()
  {
    && sender.Valid() && sender.connected && receiver.Valid() && receiver.connected && receiver.intact
    && sender.drained == receiver.arrived + wire
    && p.link.status == Links.Whole
    && p.link.start == sender.writeBuffer.readPos && p.link.held == |sender.writeBuffer.contents|
    && p.link.got == |receiver.arrived| - Weight(receiver.received)
    && p.link.at == Links.Place(Weight(receiver.received))
    && |sender.accepted| == |receiver.received| + |p.down|
    && forall i | 0 <= i < |p.down| ::
         |sender.accepted[|receiver.received| + i].payload| == Replication.BodySize(p.down[i])
  }

  lemma {:induction false} SameWeight(down: seq<Replication.Msg>, fs: seq<Frame>)
    requires |fs| == |down| && forall i | 0 <= i < |down| :: |fs[i].payload| == Replication.BodySize(down[i])
    ensures Weight(fs) == Replication.Size(down)
  {
    hide Replication.BodySize;
    if down != [] {
      SameWeight(down[1..], fs[1..]);
    }
  }

  /** Then the wire is as long as the protocol says, no complete message is left unhandled, and the receiver's ring holds
      what is pending, where the protocol says it does. */
  lemma CarriesIs(p: Replication.Peer, sender: Socket, wire: seq<byte>, receiver: Socket)
    requires Carries(p, sender, wire, receiver)
    ensures Replication.OnTheWire(p) == |wire| && !Replication.Complete(p)
    ensures |receiver.reader.ring.contents| == Links.Pending(p.link.got)
    ensures receiver.reader.ring.readPos == Links.ReadPos(p.link.at, p.link.got)
  {
    hide Socket.Valid, Weight, EncodeAll, Replication.BodySize;
    HoldsPending(sender, wire, receiver);
    ReadsAt(receiver);
    var k := |receiver.received|;
    var rest := sender.accepted[k..];
    assert sender.accepted == receiver.received + rest;
    WeightConcat(receiver.received, rest);
    SameWeight(p.down, rest);
    Sent(sender);
    if p.down != [] {
      assert sender.accepted[k] == sender.accepted[k + 0];
    }
  }

  /** The receiver's ring is written where all that has arrived ends, and so read where what is pending begins. */
  lemma ReadsAt(receiver: Socket)
    requires receiver.Valid() && receiver.connected && receiver.intact
    requires |receiver.reader.ring.contents| == Links.Pending(|receiver.arrived| - Weight(receiver.received))
    requires |receiver.arrived| >= Weight(receiver.received)
    ensures
      var w := Weight(receiver.received);
      receiver.reader.ring.readPos == Links.ReadPos(Links.Place(w), |receiver.arrived| - w)
  {
    hide Socket.Sending, Socket.Receiving, Parse, Weight, Reader.Waits, EncodeAll, Links.Place, Links.ReadPos;
    var ring := receiver.reader.ring;
    ring.InRange();
    assert |ring.contents| == ring.ReadAvailable();
    PlacesMeet(Weight(receiver.received), |receiver.arrived| - Weight(receiver.received), ring.readPos, ring.writePos);
  }

  lemma PlacesMeet(w: nat, got: nat, readPos: nat, writePos: nat)
    requires readPos < BUFFER_SIZE && writePos == Links.Place(w + got)
    requires Links.Pending(got) == if writePos < readPos then BUFFER_SIZE - readPos + writePos else writePos - readPos
    ensures readPos == Links.ReadPos(Links.Place(w), got)
  {
  }

  lemma Sent(sender: Socket)
    requires sender.Valid() && sender.connected
    ensures Weight(sender.accepted) == |sender.drained| + |sender.writeBuffer.contents|
  {
    hide Weight, EncodeAll;
    EncodedWeight(sender.accepted);
    assert |sender.drained + sender.writeBuffer.contents| == Weight(sender.accepted);
  }

  /** Writing a message does to the sockets what the protocol says. */
  method SendMessage(ghost p: Replication.Peer, ghost m: Replication.Msg, sender: Socket, ghost wire: seq<byte>,
                     ghost receiver: Socket, kind: byte, body: seq<byte>) returns (ok: bool)
    requires Carries(p, sender, wire, receiver) && sender.Repr() !! receiver.Repr()
    requires |body| == Replication.BodySize(m)
    modifies sender, sender.writeBuffer, sender.writeBuffer.buffer
    ensures
      var verdict := Links.Judge(p.link.start, p.link.held, |body|);
      && (ok <==> verdict in {Links.Taken, Links.Filled})
      && (sender.connected <==> verdict != Links.Cut)
      && (verdict == Links.Taken ==>
            Carries(p.(down := p.down + [m], link := Links.AfterWrite(p.link, |body|)), sender, wire, receiver))
      && (verdict == Links.Refused ==> Carries(p, sender, wire, receiver))
  {
    hide Socket.Valid, Weight, Replication.BodySize, Links.Judge, Links.HeldAfter;
    Links.LosesNothingIff(p.link.start, p.link.held, |body|);
    ok := sender.Write(kind, body);
  }

  lemma CarriedRing(p: Replication.Peer, sender: Socket, wire: seq<byte>, receiver: Socket)
    requires Carries(p, sender, wire, receiver)
    ensures sender.writeBuffer.buffer.Length == BUFFER_SIZE
  {
  }

  /** So does the sending socket, when it takes bytes. */
  method SendBytes(ghost p: Replication.Peer, sender: Socket, ghost wire: seq<byte>, ghost receiver: Socket,
                   firstCount: nat, secondCount: nat) returns (sent: seq<byte>)
    requires Carries(p, sender, wire, receiver) && sender.Repr() !! receiver.Repr()
    requires firstCount <= if sender.writeBuffer.writePos < sender.writeBuffer.readPos
                           then BUFFER_SIZE - sender.writeBuffer.readPos
                           else sender.writeBuffer.writePos - sender.writeBuffer.readPos
    requires secondCount <= sender.writeBuffer.writePos
    modifies sender`drained, sender.writeBuffer
    ensures |sent| <= p.link.held
    ensures Carries(p.(link := Replication.Departed(p.link, |sent|)), sender, wire + sent, receiver)
  {
    hide Socket.Valid, Replication.BodySize, Weight;
    CarriedRing(p, sender, wire, receiver);
    sent := sender.OnWriteReady(firstCount, secondCount);
    assert receiver.arrived + (wire + sent) == receiver.arrived + wire + sent;
  }

  /** And so does the receiving socket, when bytes arrive that leave a byte free in its ring: it hands on the messages
      that are complete, for the client to handle one after the other. */
  method ReceiveBytes(ghost p: Replication.Peer, ghost sender: Socket, ghost wire: seq<byte>, receiver: Socket,
                      first: seq<byte>, second: seq<byte>) returns (ghost n: nat, ghost k: nat, ghost got: nat)
    requires Carries(p, sender, wire, receiver) && sender.Repr() !! receiver.Repr()
    requires receiver.reader.ring.writePos >= receiver.reader.ring.readPos ==>
               |first| <= BUFFER_SIZE - receiver.reader.ring.writePos
    requires receiver.reader.ring.writePos < receiver.reader.ring.readPos ==>
               |first| <= receiver.reader.ring.readPos - receiver.reader.ring.writePos
    requires |second| <= if receiver.reader.ring.readPos == 0 then BUFFER_SIZE - 1 else receiver.reader.ring.readPos - 1
    requires receiver.reader.ring.HandedOut(first, second) <= wire
    modifies receiver, receiver.reader, receiver.reader.ring, receiver.reader.ring.buffer
    ensures n == |old(receiver.reader.ring.HandedOut(first, second))|
    ensures Links.CanArrive(p.link, n)
    ensures receiver.intact <==> Links.Pending(p.link.got) + n < Links.RING
    ensures receiver.intact ==>
              && k <= |p.down| && |receiver.received| == old(|receiver.received|) + k
              && got == p.link.got + n - Replication.Size(p.down[..k])
              && Carries(p.(down := p.down[k..],
                            link := p.link.(got := got, at := Links.Place(p.link.at + Replication.Size(p.down[..k])))),
                         sender, wire[n..], receiver)
  {
    hide Socket.Valid, Replication.BodySize, Weight, Links.Place, Links.ReadPos, Links.CanArrive;
    ghost var taken, before, arrived := receiver.reader.ring.HandedOut(first, second), receiver.received, receiver.arrived;
    CarriesIs(p, sender, wire, receiver);
    Bounded(p.link, receiver, first, second);
    receiver.OnReadReady(first, second);
    n, k, got := |taken|, |receiver.received| - |before|, 0;
    if receiver.intact {
      assert wire == taken + wire[n..];
      assert sender.drained == receiver.arrived + wire[n..];
      InOrder(sender, wire[n..], receiver);
      HoldsPending(sender, wire[n..], receiver);
      NowReceived(p, sender, receiver, before, k);
      Links.PlaceAdd(Weight(before), Replication.Size(p.down[..k]));
      got := |receiver.arrived| - Weight(receiver.received);
    }
  }

  lemma Bounded(l: Links.Link, receiver: Socket, first: seq<byte>, second: seq<byte>)
    requires receiver.Valid() && |receiver.reader.ring.contents| == Links.Pending(l.got)
    requires receiver.reader.ring.readPos == Links.ReadPos(l.at, l.got)
    requires receiver.reader.ring.writePos >= receiver.reader.ring.readPos ==>
               |first| <= BUFFER_SIZE - receiver.reader.ring.writePos
    requires receiver.reader.ring.writePos < receiver.reader.ring.readPos ==>
               |first| <= receiver.reader.ring.readPos - receiver.reader.ring.writePos
    requires |second| <= if receiver.reader.ring.readPos == 0 then BUFFER_SIZE - 1 else receiver.reader.ring.readPos - 1
    ensures Links.CanArrive(l, |receiver.reader.ring.HandedOut(first, second)|)
  {
    hide Socket.Sending, Socket.Receiving, Parse, Reader.Waits, EncodeAll, Links.ReadPos, Links.Pending;
    receiver.reader.ring.HandedOutBound(first, second);
    receiver.reader.ring.AroundIff();
  }

  /** The frames handed on since `before` are the first messages on their way. */
  lemma NowReceived(p: Replication.Peer, sender: Socket, receiver: Socket, before: seq<Frame>, k: nat)
    requires before <= receiver.received <= sender.accepted && k == |receiver.received| - |before|
    requires |sender.accepted| == |before| + |p.down|
    requires forall i | 0 <= i < |p.down| :: |sender.accepted[|before| + i].payload| == Replication.BodySize(p.down[i])
    ensures k <= |p.down| && Weight(receiver.received) == Weight(before) + Replication.Size(p.down[..k])
    ensures forall i | 0 <= i < |p.down[k..]| ::
              |sender.accepted[|receiver.received| + i].payload| == Replication.BodySize(p.down[k..][i])
  {
    hide Replication.BodySize, Weight;
    var handed := receiver.received[|before|..];
    assert receiver.received == before + handed;
    WeightConcat(before, handed);
    forall i | 0 <= i < k ensures |handed[i].payload| == Replication.BodySize(p.down[..k][i]) {
      assert handed[i] == sender.accepted[|before| + i];
    }
    SameWeight(p.down[..k], handed);
    forall i | 0 <= i < |p.down[k..]|
      ensures |sender.accepted[|receiver.received| + i].payload| == Replication.BodySize(p.down[k..][i])
    {
      assert p.down[k..][i] == p.down[k + i];
      assert |sender.accepted[|before| + (k + i)].payload| == Replication.BodySize(p.down[k + i]);
    }
  }

  /** An update arrives with the value that the protocol lets the client take. */
  lemma UpdateArrives(time: int64, id: uint16, value: Value, d: Messages.ParseData)
    requires Replication.Fits(value)
    ensures
      var m := Messages.EntryUpdate(time, id, value);
      Messages.ReadFields(Messages.Layout(m.Kind()).value, d, Messages.EncodeBody(m))
      == Got(d.(sendTime := time, id := id, valueType := value.TypeCode(), value := ReadBack(value)), [])
  {
    var m := Messages.EntryUpdate(time, id, value);
    hide Messages.ReadFields, Messages.EncodeBody;
    Messages.BodyRoundTrip(m, d, []);
    assert Messages.EncodeBody(m) + [] == Messages.EncodeBody(m);
  }
}
