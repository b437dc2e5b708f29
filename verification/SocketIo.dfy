/** The reader and the socket of src/net/io.cpp: frames are written into one ring, drained into a socket in pieces of
    any size, arrive in pieces of any size in another ring, and are read back by a resumable state machine. */
module SocketIo {
  import opened Bytes
  import opened RingBuffer
  import opened Framing
  import opened StateMachine
  import Links

  datatype ReadState = ReadHeader | ReadMessage

  const READ_UNSUPPORTED_SIZE: byte := 1

  const BUFFER_SIZE := 1024

  class Reader {
    const ring: CircularBuffer
    var overall: Overall
    var user: ReadState
    var errorCode: byte
    var header: Header
    var message: seq<byte>  // the first `header.size` bytes of the message buffer

    ghost predicate Valid()
      reads this, ring, ring.buffer
    {
      && ring.Valid()
      && (overall == Start ==> user == ReadHeader)
      && (overall == Error <==> errorCode != 0)
    }

    /** What the machine is waiting for. */
    ghost function CurrentPhase(): Phase
      reads this
    {
      if overall == InState && user == ReadMessage then Reading(header) else Seeking
    }

    /** It can do nothing without more bytes. */
    ghost predicate Waits()
      reads this, ring
    {
      Stuck(CurrentPhase(), ring.contents) && (CurrentPhase() == Seeking ==> Headless(ring.contents))
    }

    constructor (size: nat)
      requires size > 0
      ensures Valid() && fresh(ring) && fresh(ring.buffer) && ring.buffer.Length == size
      ensures overall == Start && ring.contents == [] && ring.writePos == 0
    {
      ring := new CircularBuffer(size);
      overall, user, errorCode := Start, ReadHeader, 0;
      header, message := Header(0, 0, 0, 0, 0), [];
    }

    method Reset()
      requires ring.Valid()
      modifies this
      ensures Valid() && overall == Start
    {
      overall, errorCode, user := Start, 0, ReadHeader;
    }

    /** Skips to a magic byte and takes the eleven bytes from there, if there are that many. */
    method TakeHeader() returns (ok: bool)
      requires ring.Valid()
      modifies this`header, ring
      ensures ring.Valid() && ring.writePos == old(ring.writePos)
      ensures Leads(Seeking, old(ring.contents), [],
                    if ok && header.version == VERSION then Reading(header) else Seeking, ring.contents)
      ensures ok ==> header.magic == MAGIC && |ring.contents| < |old(ring.contents)|
      ensures !ok ==> Headless(ring.contents) && |ring.contents| <= |old(ring.contents)|
    {
      hide CircularBuffer.Valid, DecodeHeader, Parse;
      ghost var before := ring.contents;
      ok := ring.FindAndSeekRead(MAGIC);
      ghost var found := ring.contents;
      if !ok {
        FruitlessSearch(before, found);
      } else {
        FruitfulSearch(before);
        var data;
        ok, data := ring.Read(HEADER_SIZE);
        if ok {
          header := DecodeHeader(data);
          LeadsPastHeader(data, ring.contents);
          LeadsSilently(Seeking, before, Seeking, found, [],
                        if header.version == VERSION then Reading(header) else Seeking, ring.contents);
        }
      }
    }

    /** Looks for a header, starting over while the version is wrong. Either it has one now, or there is none in what
        was received. */
    method ProcessHeader() returns (again: bool)
      requires Valid() && overall == InState && user == ReadHeader
      modifies this, ring
      ensures Valid() && overall == InState && ring.writePos == old(ring.writePos)
      ensures again <==> user == ReadMessage
      ensures Leads(Seeking, old(ring.contents), [], CurrentPhase(), ring.contents)
      ensures !again ==> Headless(ring.contents) && |ring.contents| <= |old(ring.contents)|
      ensures again ==> |ring.contents| < |old(ring.contents)|
    {
      hide CircularBuffer.Valid, Parse, Leads;
      ghost var start, before := ring.contents, ring.contents;
      again := TakeHeader();
      while again && (header.magic != MAGIC || header.version != VERSION)
        invariant Valid() && overall == InState && user == ReadHeader && ring.writePos == old(ring.writePos)
        invariant Leads(Seeking, start, [],
                        if again && header.version == VERSION then Reading(header) else Seeking, ring.contents)
        invariant again ==> header.magic == MAGIC && |ring.contents| < |start|
        invariant !again ==> Headless(ring.contents) && |ring.contents| <= |start|
        decreases |ring.contents|, again
      {
        before := ring.contents;
        again := TakeHeader();
        LeadsSilently(Seeking, start, Seeking, before, [],
                      if again && header.version == VERSION then Reading(header) else Seeking, ring.contents);
      }
      if again {
        overall, user := InState, ReadMessage;
      }
    }

    /** Takes the payload once all of it is there. */
    method ProcessMessage() returns (again: bool)
      requires Valid() && overall == InState && user == ReadMessage
      modifies this, ring
      ensures Valid() && !again && overall in {InState, End, Error} && header == old(header)
      ensures ring.writePos == old(ring.writePos)
      ensures overall == InState ==>
                && user == ReadMessage && ring.contents == old(ring.contents)
                && Stuck(CurrentPhase(), ring.contents)
      ensures overall == End ==>
                && Leads(old(CurrentPhase()), old(ring.contents), [Frame(header, message)], Seeking, ring.contents)
                && |message| == header.size
      ensures overall == Error ==> Dead(old(CurrentPhase()), old(ring.contents))
      ensures |ring.contents| <= |old(ring.contents)|
    {
      if header.size > MAX_MESSAGE {
        ring.SeekRead(header.size);
        overall, errorCode := Error, READ_UNSUPPORTED_SIZE;
        return false;
      }
      if !ring.CanRead(header.size) {
        return false;
      }
      ghost var before := ring.contents;
      // `CanRead` has just held, so the failure branch of the source is dead.
      var ok, data := ring.Read(header.size);
      assert ok;
      message := data;
      assert before[..header.size] == data && before[header.size..] == ring.contents;
      LeadsPastPayload(header, before);
      overall := End;
      again := false;
    }

    /** Runs the machine until it has a frame, needs more bytes, or fails. */
    method Process()
      requires Valid() && overall in {Start, InState}
      modifies this, ring
      ensures Valid() && overall in {InState, End, Error} && ring.writePos == old(ring.writePos)
      ensures overall == InState ==>
                && Leads(old(CurrentPhase()), old(ring.contents), [], CurrentPhase(), ring.contents)
                && Waits()
      ensures overall == End ==>
                Leads(old(CurrentPhase()), old(ring.contents), [Frame(header, message)], Seeking, ring.contents)
      ensures overall == Error ==> Dead(old(CurrentPhase()), old(ring.contents))
      ensures |ring.contents| <= |old(ring.contents)|
      ensures overall == End && old(CurrentPhase()).Seeking? ==> |ring.contents| < |old(ring.contents)|
    {
      hide CircularBuffer.Valid;
      ghost var phase, start := CurrentPhase(), ring.contents;
      LeadsSelf(phase, start);
      if overall == Start {
        overall, errorCode, user := InState, 0, ReadHeader;
      }
      var again := true;
      while again
        invariant Valid() && overall in {InState, End, Error} && ring.writePos == old(ring.writePos)
        invariant again ==> overall == InState
        invariant overall == InState ==>
                    Leads(phase, start, [], CurrentPhase(), ring.contents)
        invariant overall == InState && !again ==> Waits()
        invariant overall == End ==> Leads(phase, start, [Frame(header, message)], Seeking, ring.contents)
        invariant overall == Error ==> Dead(phase, start)
        invariant |ring.contents| <= |start|
        invariant phase.Seeking? && CurrentPhase() != Seeking ==> |ring.contents| < |start|
        invariant phase.Seeking? && overall == End ==> |ring.contents| < |start|
        decreases again, user == ReadHeader
      {
        ghost var here, pending := CurrentPhase(), ring.contents;
        match user
        case ReadHeader =>
          again := ProcessHeader();
          LeadsSilently(phase, start, here, pending, [], CurrentPhase(), ring.contents);
        case ReadMessage =>
          again := ProcessMessage();
          if overall == End {
            LeadsSilently(phase, start, here, pending, [Frame(header, message)], Seeking, ring.contents);
          } else if overall == Error {
            LeadsToDeath(phase, start, [], here, pending);
          }
      }
    }
  }

  lemma NextPlace(n: nat, m: nat)
    requires m < BUFFER_SIZE
    ensures Slot(BUFFER_SIZE, Links.Place(n) + m) == Links.Place(n + m)
  {
  }

  /** One end of a connection. `received` lists the frames handed to the message callback, `accepted` those taken for
      sending. */
  class Socket {
    var connected: bool
    const reader: Reader
    const writeBuffer: CircularBuffer
    var nextIndex: uint32
    var received: seq<Frame>

    ghost var arrived: seq<byte>    // everything the socket handed out
    ghost var intact: bool          // it never handed out as much as the reader's ring had room for
    ghost var accepted: seq<Frame>
    ghost var drained: seq<byte>    // everything the socket took

    ghost function Repr(): set<object> {
      {this, reader, reader.ring, reader.ring.buffer, writeBuffer, writeBuffer.buffer}
    }

    /** In every reachable state: the frames handed on are those the one-pass parser finds in everything that arrived
        (as long as no arrival filled the ring, which then counts as empty), and what was drained followed by what still
        waits encodes the accepted frames. */
    ghost predicate Valid()
      reads Repr()
    {
      && reader.ring != writeBuffer && reader.ring.buffer != writeBuffer.buffer
      && reader.Valid() && writeBuffer.Valid()
      && reader.ring.buffer.Length == writeBuffer.buffer.Length == BUFFER_SIZE
      && (intact ==> Parse(Seeking, arrived) == Parsed(received, reader.overall == Error)
                     && reader.ring.writePos == Links.Place(|arrived|))
      && (connected ==> Sending() && reader.overall in {Start, InState} && reader.Waits() && (intact ==> Receiving()))
    }

    ghost predicate Sending()
      requires writeBuffer.Valid()
      reads this, writeBuffer, writeBuffer.buffer
    {
      && drained + writeBuffer.contents == EncodeAll(accepted)
      && forall f | f in accepted :: WellFormed(f)
    }

    ghost predicate Receiving()
      requires reader.ring.Valid()
      reads this, reader, reader.ring, reader.ring.buffer
    {
      Leads(Seeking, arrived, received, reader.CurrentPhase(), reader.ring.contents)
    }

    constructor ()
      ensures Valid() && fresh(Repr()) && connected && intact
      ensures received == accepted == [] && arrived == drained == []
      ensures reader.ring.contents == writeBuffer.contents == []
    {
      hide CircularBuffer.Valid, DecodeHeader, Leads;
      LeadsSelf(Seeking, []);
      reader := new Reader(BUFFER_SIZE);
      writeBuffer := new CircularBuffer(BUFFER_SIZE);
      connected, nextIndex, received, intact := true, 0, [], true;
      arrived, accepted, drained := [], [], [];
    }

    /** The frame the next accepted message becomes. */
    function NextFrame(kind: byte, payload: seq<byte>): (f: Frame)
      reads this
      ensures |payload| <= MAX_MESSAGE ==> WellFormed(f)
    {
      Frame(Header(MAGIC, VERSION, nextIndex, kind, |payload| % U32), payload)
    }

    /** What the numbers say of a message with so many bytes. */
    ghost function Judged(size: nat): Links.Verdict
      reads this, writeBuffer
    {
      Links.Judge(writeBuffer.readPos, |writeBuffer.contents|, size)
    }

    /** Takes a message for sending. It is taken whole exactly when header and payload leave a byte free; the guard in
        the source lets more through, and then the bytes do not all reach the ring. */
    method Write(kind: byte, payload: seq<byte>) returns (ok: bool)
      requires Valid() && connected
      modifies this, writeBuffer, writeBuffer.buffer
      ensures old(|writeBuffer.contents|) + HEADER_SIZE + |payload| < BUFFER_SIZE ==>
                && ok && Valid() && connected
                && accepted == old(accepted) + [old(NextFrame(kind, payload))]
                && nextIndex == (old(nextIndex) + 1) % U32
      ensures (ok && writeBuffer.Valid() && writeBuffer.contents
                     == old(writeBuffer.contents) + (EncodeHeader(old(NextFrame(kind, payload)).header) + payload))
              <==> old(|writeBuffer.contents|) + HEADER_SIZE + |payload| < BUFFER_SIZE
      // The answer can be relied on, a message being taken whole or not at all, exactly under this condition.
      ensures (if ok
               then writeBuffer.Valid()
                    && writeBuffer.contents
                       == old(writeBuffer.contents) + (EncodeHeader(old(NextFrame(kind, payload)).header) + payload)
               else nextIndex == old(nextIndex) && connected && writeBuffer.contents == old(writeBuffer.contents))
              <==> || old(|writeBuffer.contents|) + HEADER_SIZE + |payload| < BUFFER_SIZE
                   || !old(writeBuffer.CanWrite(HEADER_SIZE + |payload|))
      ensures !old(writeBuffer.CanWrite(HEADER_SIZE + |payload|)) ==>
                !ok && unchanged(this) && unchanged(writeBuffer) && unchanged(writeBuffer.buffer)
      // In numbers: what the protocol takes the write to be.
      ensures
        var verdict := old(Judged(|payload|));
        && (ok <==> verdict in {Links.Taken, Links.Filled})
        && (connected <==> verdict != Links.Cut)
        && writeBuffer.Valid() && writeBuffer.readPos == old(writeBuffer.readPos)
        && |writeBuffer.contents|
           == Links.HeldAfter(old(writeBuffer.readPos), old(|writeBuffer.contents|), |payload|)
        && (verdict == Links.Refused ==>
              Valid() && accepted == old(accepted) && writeBuffer.contents == old(writeBuffer.contents))
      ensures received == old(received) && arrived == old(arrived) && drained == old(drained)
      ensures intact == old(intact)
    {
      hide CircularBuffer.Valid, EncodeHeader, EncodeAll, Parse, Leads;
      writeBuffer.AroundIff();
      if !writeBuffer.CanWrite(HEADER_SIZE + |payload|) {
        return false;
      }
      ghost var frame, waiting := NextFrame(kind, payload), writeBuffer.contents;
      var index := nextIndex;
      nextIndex := (nextIndex + 1) % U32;
      var header := Header(MAGIC, VERSION, index, kind, |payload| % U32);
      ok := writeBuffer.Write(EncodeHeader(header));
      if !ok {
        return false;
      }
      if |payload| > 0 {
        ok := writeBuffer.Write(payload);
        if !ok {
          connected := false;
          return false;
        }
      }
      if |waiting| + HEADER_SIZE + |payload| < BUFFER_SIZE {
        assert writeBuffer.contents == waiting + (EncodeHeader(header) + payload);
        EncodeAllAppend(accepted, frame);
        accepted := accepted + [frame];
        assert drained + writeBuffer.contents == (drained + waiting) + (EncodeHeader(header) + payload);
      }
      ok := true;
    }

    /** The socket is readable: `first` and `second` answer the ring's two requests. Bytes get lost exactly when they
        fill the ring. */
    method OnReadReady(first: seq<byte>, second: seq<byte>)
      requires Valid() && connected
      requires reader.ring.writePos >= reader.ring.readPos ==> |first| <= BUFFER_SIZE - reader.ring.writePos
      requires reader.ring.writePos < reader.ring.readPos ==> |first| <= reader.ring.readPos - reader.ring.writePos
      requires |second| <= if reader.ring.readPos == 0 then BUFFER_SIZE - 1 else reader.ring.readPos - 1
      modifies this, reader, reader.ring, reader.ring.buffer
      ensures Valid()
      ensures intact == old(intact && |reader.ring.contents| + |reader.ring.HandedOut(first, second)| < BUFFER_SIZE)
      ensures arrived == old(arrived) + old(reader.ring.HandedOut(first, second))
      ensures accepted == old(accepted) && drained == old(drained)
      ensures (connected <==> reader.overall != Error) && old(received) <= received
    {
      hide CircularBuffer.Valid, Parse, Leads, Links.Place, Slot;
      ghost var taken, pending := reader.ring.HandedOut(first, second), reader.ring.contents;
      if |pending| + |taken| < BUFFER_SIZE {
        NextPlace(|arrived|, |taken|);
      }
      if intact {
        LeadsFeed(Seeking, arrived, received, reader.CurrentPhase(), pending, taken);
      }
      var _ := reader.ring.ReadFrom(first, second);
      arrived := arrived + taken;
      intact := intact && |pending| + |taken| < BUFFER_SIZE;
      assert intact ==> reader.ring.contents == pending + taken;
      ProcessNewData();
    }

    /** Hands on every frame that is complete. */
    method ProcessNewData()
      requires connected && reader.Valid() && reader.overall in {Start, InState} && (intact ==> Receiving())
      requires intact ==> reader.ring.writePos == Links.Place(|arrived|)
      requires reader.ring != writeBuffer && reader.ring.buffer != writeBuffer.buffer
      requires writeBuffer.Valid() && Sending()
      requires reader.ring.buffer.Length == writeBuffer.buffer.Length == BUFFER_SIZE
      modifies this`connected, this`received, reader, reader.ring
      ensures Valid() && (connected <==> reader.overall != Error) && old(received) <= received
    {
      hide CircularBuffer.Valid, Leads, Parse, Headless, EncodeAll, WellFormed;
      ghost var start := reader.CurrentPhase();
      var run := true;
      while run
        invariant reader.Valid() && reader.ring.Valid() && writeBuffer.Valid() && Sending()
        invariant run ==> connected && reader.overall in {Start, InState} && (intact ==> Receiving())
        invariant intact ==> reader.ring.writePos == Links.Place(|arrived|)
        invariant !run ==> Valid() && (connected <==> reader.overall != Error)
        invariant old(received) <= received
        decreases run, |reader.ring.contents|, reader.CurrentPhase().Reading?
      {
        run := false;
        ghost var phase, pending, before := reader.CurrentPhase(), reader.ring.contents, received;
        reader.Process();
        if reader.overall == Error {
          if intact {
            LeadsToDeath(Seeking, arrived, before, phase, pending);
            assert arrived + [] == arrived;
          }
          connected := false;
        } else if reader.overall == End {
          received := received + [Frame(reader.header, reader.message)];
          if intact {
            LeadsTrans(Seeking, arrived, before, phase, pending,
                       [Frame(reader.header, reader.message)], Seeking, reader.ring.contents);
          }
          reader.Reset();
          run := true;
        } else if intact {
          LeadsTrans(Seeking, arrived, before, phase, pending, [], reader.CurrentPhase(), reader.ring.contents);
          assert before + [] == before;
          LeadsToEnd(Seeking, arrived, received, reader.CurrentPhase(), reader.ring.contents);
        }
      }
    }

    /** The socket is writable and takes so many bytes of the two runs it is offered. */
    method OnWriteReady(firstCount: nat, secondCount: nat) returns (sent: seq<byte>)
      requires Valid() && connected
      requires firstCount <= if writeBuffer.writePos < writeBuffer.readPos then BUFFER_SIZE - writeBuffer.readPos
                             else writeBuffer.writePos - writeBuffer.readPos
      requires secondCount <= writeBuffer.writePos
      modifies this`drained, writeBuffer
      ensures Valid() && connected == old(connected)
      ensures old(writeBuffer.contents) == sent + writeBuffer.contents
      ensures writeBuffer.readPos == (old(writeBuffer.readPos) + |sent|) % BUFFER_SIZE
      ensures drained == old(drained) + sent
      ensures accepted == old(accepted) && received == old(received) && arrived == old(arrived)
      ensures intact == old(intact)
    {
      hide CircularBuffer.Valid, Parse, Leads, EncodeAll, WellFormed;
      var ok;
      ghost var waiting := writeBuffer.contents;
      ok, sent := writeBuffer.WriteInto(firstCount, secondCount);
      assert drained + sent + writeBuffer.contents == drained + waiting;
      drained := drained + sent;
    }
  }

  /** End to end. `wire` holds the bytes the sending socket took that have not arrived yet. In every reachable state
      the receiver has handed on a prefix of what the sender accepted, in order and with nothing lost, altered or
      repeated, and has not failed; and it has handed on all of it once the sending ring and the wire are empty. */
  lemma InOrder(sender: Socket, wire: seq<byte>, receiver: Socket)
    requires sender.Valid() && sender.connected && receiver.Valid() && receiver.intact
    requires sender.drained == receiver.arrived + wire
    ensures receiver.received <= sender.accepted
    ensures receiver.reader.overall != Error
    ensures sender.writeBuffer.contents == [] && wire == [] ==> receiver.received == sender.accepted
  {
    var onTheWay := wire + sender.writeBuffer.contents;
    assert receiver.arrived + onTheWay == sender.drained + sender.writeBuffer.contents;
    ReceivedIsPrefix(sender.accepted, receiver.arrived, onTheWay);
  }

  /** What has arrived since the last frame handed on is less than the next frame, and all of it is in the ring but for a
      header that is complete. So the ring holds what the protocol takes it to hold. */
  lemma HoldsPending(sender: Socket, wire: seq<byte>, receiver: Socket)
    requires sender.Valid() && sender.connected && receiver.Valid() && receiver.connected && receiver.intact
    requires sender.drained == receiver.arrived + wire
    ensures receiver.received <= sender.accepted
    ensures
      var got := |receiver.arrived| - Weight(receiver.received);
      && got >= 0 && |receiver.reader.ring.contents| == Links.Pending(got)
      && (receiver.received < sender.accepted ==>
            got < HEADER_SIZE + |sender.accepted[|receiver.received|].payload|)
  {
    hide CircularBuffer.Valid, Leads, EncodeAll, WellFormed, Parse, Stuck, Headless, Weight;
    var onTheWay := wire + sender.writeBuffer.contents;
    assert receiver.arrived + onTheWay == sender.drained + sender.writeBuffer.contents;
    HoldsTheRest(sender.accepted, receiver.arrived, onTheWay, receiver.received, receiver.reader.CurrentPhase(),
                 receiver.reader.ring.contents);
  }
}
