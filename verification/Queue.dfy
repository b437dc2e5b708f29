/** The outgoing queue of src/net/serialize.cpp: ordinary messages wait in line, immediate ones are tried at once and
    go to the head of the line when the destination refuses them. */
module Queue {
  import opened Bytes
  import opened Messages

  /** A message as it was enqueued. */
  datatype Item = Item(message: Message, immediate: bool)

  /** Where the packets go. `script` holds the answers it is going to give, refusals after its end; any script at all
      is allowed. */
  class Destination {
    var script: seq<bool>
    var sent: seq<(byte, seq<byte>)>

    constructor (script: seq<bool>)
      ensures this.script == script && sent == []
    {
      this.script, sent := script, [];
    }

    method Deliver(kind: byte, body: seq<byte>) returns (ok: bool)
      modifies this
      ensures ok <==> old(script) != [] && old(script)[0]
      ensures script == if old(script) == [] then [] else old(script)[1..]
      ensures sent == if ok then old(sent) + [(kind, body)] else old(sent)
    {
      ok := |script| > 0 && script[0];
      if |script| > 0 {
        script := script[1..];
      }
      if ok {
        sent := sent + [(kind, body)];
      }
    }
  }

  /** The message can be written into the 512 byte buffer. */
  predicate Writable(m: Message) {
    m.WithinLimits() && |EncodeBody(m)| <= WRITER_BUFFER_SIZE
  }

  /** The packets of the messages that have left the queue; a message without a type leaves no packet. */
  ghost function Packets(items: seq<Item>): seq<(byte, seq<byte>)> {
    if items == [] then [] else Packets(items[..|items| - 1]) + PacketOf(items[|items| - 1].message)
  }

  function PacketOf(m: Message): seq<(byte, seq<byte>)> {
    if m == NoType || !Writable(m) then [] else [(m.Kind(), EncodeBody(m))]
  }

  lemma PacketIs(m: Message)
    ensures m == NoType ==> PacketOf(m) == []
    ensures m != NoType && Writable(m) ==> PacketOf(m) == [(m.Kind(), EncodeBody(m))]
  {
  }

  lemma PacketsAppend(items: seq<Item>, item: Item)
    ensures Packets(items + [item]) == Packets(items) + PacketOf(item.message)
  {
    assert (items + [item])[..|items|] == items;
  }

  /** Float arrays have no encoding (see `Codec.Value.TypeCode`). */
  predicate CanBeWritten(m: Message) {
    m.EntryCreate? || m.EntryUpdate? ==> !m.value.FloatArray()
  }

  ghost function Ordinary(items: seq<Item>): seq<Item> {
    if items == [] then []
    else (if items[0].immediate then [] else [items[0]]) + Ordinary(items[1..])
  }

  lemma {:induction false} OrdinaryConcat(a: seq<Item>, b: seq<Item>)
    ensures Ordinary(a + b) == Ordinary(a) + Ordinary(b)
  {
    if a == [] {
      assert [] + b == b;
    } else {
      assert (a + b)[1..] == a[1..] + b;
      OrdinaryConcat(a[1..], b);
    }
  }

  /** `now` holds the enqueued messages, each as often as it was enqueued, the ordinary ones in their order. */
  ghost predicate Conserves(log: seq<Item>, now: seq<Item>) {
    multiset(now) == multiset(log) && Ordinary(now) == Ordinary(log)
  }

  lemma ConservesAppend(log: seq<Item>, now: seq<Item>, item: Item)
    requires Conserves(log, now)
    ensures Conserves(log + [item], now + [item])
  {
    hide Ordinary;
    OrdinaryConcat(log, [item]);
    OrdinaryConcat(now, [item]);
  }

  lemma OrdinaryImmediate(item: Item)
    requires item.immediate
    ensures Ordinary([item]) == []
  {
    assert [item][1..] == [];
  }

  /** An immediate message may be put anywhere. */
  lemma ConservesInsert(log: seq<Item>, done: seq<Item>, waiting: seq<Item>, item: Item)
    requires Conserves(log, done + waiting) && item.immediate
    ensures Conserves(log + [item], done + [item] + waiting)
  {
    hide Ordinary;
    OrdinaryImmediate(item);
    OrdinaryConcat(log, [item]);
    OrdinaryConcat(done, [item]);
    OrdinaryConcat(done + [item], waiting);
    OrdinaryConcat(done, waiting);
    assert multiset(done + [item] + waiting) == multiset(done + waiting) + multiset([item]);
  }

  /** How many waiting messages go out when the destination answers with `script`. */
  function Passing(waiting: seq<Item>, script: seq<bool>): (k: nat)
    ensures k <= |waiting|
  {
    if waiting == [] then 0
    else if waiting[0].message == NoType then 1 + Passing(waiting[1..], script)
    else if !Writable(waiting[0].message) || script == [] || !script[0] then 0
    else 1 + Passing(waiting[1..], script[1..])
  }

  /** How many of the messages the destination is asked about. */
  function Asked(items: seq<Item>): (n: nat)
    ensures n <= |items|
  {
    if items == [] then 0 else (if items[0].message == NoType then 0 else 1) + Asked(items[1..])
  }

  /** The passing messages are a maximal accepted prefix: each was writable and accepted, and the first one that stays
      was not writable or was refused. */
  lemma {:induction false} PassingIsMaximal(waiting: seq<Item>, script: seq<bool>)
    ensures
      var k := Passing(waiting, script);
      && (forall i | 0 <= i < k && waiting[i].message != NoType ::
            && Writable(waiting[i].message)
            && Asked(waiting[..i]) < |script| && script[Asked(waiting[..i])])
      && (k < |waiting| ==>
            && waiting[k].message != NoType
            && (|| !Writable(waiting[k].message)
                || Asked(waiting[..k]) >= |script| || !script[Asked(waiting[..k])]))
  {
    hide Writable;
    var k := Passing(waiting, script);
    if k > 0 {
      var script' := if waiting[0].message == NoType then script else script[1..];
      PassingStep(waiting, script);
      PassingIsMaximal(waiting[1..], script');
      hide Passing, Asked;
      forall i | 1 <= i <= |waiting|
        ensures Asked(waiting[..i]) == (|script| - |script'|) + Asked(waiting[1..][..i - 1])
      {
        AskedStep(waiting, i);
      }
      forall i | 1 <= i < k && waiting[i].message != NoType
        ensures Writable(waiting[i].message) && Asked(waiting[..i]) < |script| && script[Asked(waiting[..i])]
      {
        assert waiting[i] == waiting[1..][i - 1];
      }
    }
  }

  lemma AskedStep(waiting: seq<Item>, i: nat)
    requires 1 <= i <= |waiting|
    ensures Asked(waiting[..i]) == (if waiting[0].message == NoType then 0 else 1) + Asked(waiting[1..][..i - 1])
  {
    assert waiting[..i][1..] == waiting[1..][..i - 1];
  }

  lemma PassingStep(waiting: seq<Item>, script: seq<bool>)
    requires Passing(waiting, script) > 0
    ensures waiting != [] && Asked(waiting[..0]) == 0
    ensures waiting[0].message != NoType ==> Writable(waiting[0].message) && script != [] && script[0]
    ensures
      var script' := if waiting[0].message == NoType then script else script[1..];
      Passing(waiting, script) == 1 + Passing(waiting[1..], script')
  {
    hide Writable;
  }

  ghost predicate Matches(waiting: seq<Item>, outgoing: seq<Message>) {
    && |waiting| == |outgoing|
    && forall i | 0 <= i < |waiting| :: waiting[i].message == outgoing[i] && CanBeWritten(outgoing[i])
  }

  class MessageQueue {
    const destination: Destination
    const serializer: MessageSerializer
    var outgoing: seq<Message>

    ghost var log: seq<Item>      // everything enqueued and not cleared, in order
    ghost var done: seq<Item>     // what has left the queue
    ghost var waiting: seq<Item>  // what is in the queue

    ghost function Repr(): set<object> {
      {this, destination, serializer.buffer, serializer.buffer.data}
    }

    /** In every reachable state: nothing is lost, doubled or invented, and ordinary messages keep their order. */
    ghost predicate Valid()
      reads Repr()
    {
      && serializer.Valid()
      && Matches(waiting, outgoing)
      && Conserves(log, done + waiting)
      && destination.sent == Packets(done)
      && forall item | item in done :: item.message == NoType || Writable(item.message)
    }

    constructor (destination: Destination)
      requires destination.sent == []
      ensures Valid() && this.destination == destination && fresh(Repr() - {destination})
      ensures log == done == waiting == []
    {
      this.destination := destination;
      serializer := new MessageSerializer();
      outgoing, log, done, waiting := [], [], [], [];
    }

    method Serialize(m: Message) returns (ok: bool)
      requires serializer.Valid() && CanBeWritten(m) && m != NoType
      modifies serializer.buffer, serializer.buffer.data
      ensures serializer.Valid() && Wrote(m, ok, serializer.buffer.Written())
    {
      serializer.Reset();
      match m
      case EntryCreate(t, name, v) => ok := serializer.EntryCreated(t, name, v);
      case EntryUpdate(t, id, v) => ok := serializer.EntryUpdated(t, id, v);
      case EntryDelete(t, id) => ok := serializer.EntryDeleted(t, id);
      case EntryIdAssign(id, name) => ok := serializer.EntryIdAssign(id, name);
      case TimeSyncRequest(t) => ok := serializer.TimeSyncRequest(t);
      case TimeSyncResponse(t, time) => ok := serializer.TimeSyncResponse(t, time);
      case HandshakeReady => ok := true;
      case HandshakeFinished => ok := true;
    }

    /** Serializes a message and offers it to the destination; a message without a type counts as written. */
    method WriteMessage(m: Message) returns (ok: bool)
      requires serializer.Valid() && CanBeWritten(m)
      modifies destination, serializer.buffer, serializer.buffer.data
      ensures serializer.Valid()
      ensures ok <==> m == NoType || (Writable(m) && old(destination.script) != [] && old(destination.script)[0])
      ensures destination.script == if m == NoType || !Writable(m) || old(destination.script) == []
                                    then old(destination.script) else old(destination.script)[1..]
      ensures destination.sent == if ok then old(destination.sent) + PacketOf(m) else old(destination.sent)
    {
      if m == NoType {
        return true;
      }
      ok := Serialize(m);
      if ok {
        ok := destination.Deliver(m.Kind(), serializer.buffer.data[..serializer.buffer.writePos]);
      }
    }

    /** An ordinary message only waits. An immediate one is offered at once, and leaves if and only if it has no type,
        or can be written and the destination takes it; otherwise it waits in front of all others. */
    method Enqueue(m: Message, immediate: bool)
      requires Valid() && CanBeWritten(m)
      modifies Repr()
      ensures Valid() && log == old(log) + [Item(m, immediate)]
      ensures !immediate ==>
                && done == old(done) && waiting == old(waiting) + [Item(m, false)]
                && destination.sent == old(destination.sent) && destination.script == old(destination.script)
      ensures immediate ==>
                if m == NoType || (Writable(m) && old(destination.script) != [] && old(destination.script)[0]) then
                  && done == old(done) + [Item(m, true)] && waiting == old(waiting)
                  && destination.sent
                     == old(destination.sent) + if m == NoType then [] else [(m.Kind(), EncodeBody(m))]
                else
                  && done == old(done) && waiting == [Item(m, true)] + old(waiting)
                  && destination.sent == old(destination.sent)
      ensures immediate ==>
                destination.script == if m == NoType || !Writable(m) || old(destination.script) == []
                                      then old(destination.script) else old(destination.script)[1..]
    {
      hide Ordinary, Packets, PacketOf, Writable, Conserves;
      PacketIs(m);
      ghost var item := Item(m, immediate);
      if immediate {
        ConservesInsert(log, done, waiting, item);
        var ok := WriteMessage(m);
        if ok {
          PacketsAppend(done, item);
          done := done + [item];
        } else {
          assert done + [item] + waiting == done + ([item] + waiting);
          outgoing := [m] + outgoing;
          waiting := [item] + waiting;
        }
      } else {
        ConservesAppend(log, done + waiting, item);
        assert done + waiting + [item] == done + (waiting + [item]);
        outgoing := outgoing + [m];
        waiting := waiting + [item];
      }
      log := log + [item];
    }

    method Clear()
      requires Valid()
      modifies this
      ensures Valid() && waiting == [] && done == old(done) && log == done
    {
      assert done + [] == done;
      outgoing, waiting, log := [], [], done;
    }

    /** Sends as many waiting messages as the destination takes, in order. */
    method Process()
      requires Valid()
      modifies Repr()
      ensures Valid() && log == old(log)
      ensures done == old(done) + old(waiting)[..Passing(old(waiting), old(destination.script))]
      ensures waiting == old(waiting)[Passing(old(waiting), old(destination.script))..]
    {
      hide Packets, PacketOf, Conserves, Ordinary, Writable;
      ghost var all, total := waiting, Passing(waiting, destination.script);
      ghost var sent := 0;
      var success := true;
      while success && |outgoing| > 0
        invariant Valid() && log == old(log)
        invariant sent <= total <= |all|
        invariant done == old(done) + all[..sent] && waiting == all[sent..]
        invariant success ==> sent + Passing(waiting, destination.script) == total
        invariant !success ==> sent == total
        decreases success, |outgoing|
      {
        ghost var item := waiting[0];
        success := WriteMessage(outgoing[0]);
        if success {
          PacketsAppend(done, item);
          assert done + waiting == done + [item] + waiting[1..] by { assert waiting == [item] + waiting[1..]; }
          assert all[..sent + 1] == all[..sent] + [item];
          done, waiting := done + [item], waiting[1..];
          outgoing := outgoing[1..];
          sent := sent + 1;
        }
      }
    }
  }
}
