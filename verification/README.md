# A verified model of obsr

obsr is a replicated key/value tree. A local store keeps timestamped entries under paths; a server and its clients
exchange framed binary messages so that their stores agree. This project models the layers of the system and proves
what they promise, each over every input or every reachable state:

| layer | modules | main results |
|---|---|---|
| byte ring, frames, sockets | `RingBuffer`, `Framing`, `Links`, `SocketIo` | the ring is a byte FIFO until it is filled; the resumable reader finds what a one-pass parser finds, however the stream is cut; frames arrive in order, none lost, altered or repeated, as long as no ring is filled |
| values, messages, queue | `Bytes`, `Codec`, `Serializer`, `Messages`, `WireForm`, `Queue`, `Transport` | round trips, exact acceptance, the bytes of every number, header and kind of message, termination of the parser, conservation by the queue, and all layers together: what comes out of the parser is what left the queue, in its order, ordinary messages in the order they were enqueued; and two sockets do, byte for byte, what the protocol says of a connection |
| entry store | `Handles`, `Store`, `StoreLaws`, `StoreEffects`, `LastWriter`, `Storage` | what a caller sees of every operation, exactly; flag and index invariants, replay of the notifications, harmless type mismatch, the exact condition under which the order of remote writes does not matter |
| replication | `Replication`, `PipeLaws`, `ReplicationLaws`, `Convergence`, `CallRules`, `Handshake`, `ServerMap`, `Server` | the server shows what a plain map shows after the same calls, in every run; what a client shows once everything has arrived, exactly; id agreement, "known before used", handshake completeness |
| losses and progress | `TimerLaws`, `Losses`, `Wires`, `Bursts`, `BurstRun`, `FillRun`, `Progress`, `Passage`, `Room` | exactly when bytes are lost on the way to a client, in one write, one round of the timer and a whole run; exactly when everything can still arrive, and when nothing the system does by itself can prevent it |
| objects and listeners | `ObjectTree`, `Listeners` | prefix-closed path index, exact outcome of a walk, and exactly what it adds to the tree; each listener is called exactly with what passes its filter, once and in order, and exactly when that is so, told from the steps of the run |

**How it is built.** Whatever the C++ code does step by step on fields is imperative here too: `CircularBuffer`, `Reader`,
`Socket`, `LinearBuffer`, `Serializer`, `Deserializer`, `MessageSerializer`, `MessageParser`, `MessageQueue`,
`HandleTable`, `StorageEntry`, `EntryStorage`, `ServerClient`, `NetworkServer`, `NetworkClient` and `Instance` are classes
with the fields, branches and loops of their originals. Each of their methods is proved against a function on values
(`Codec.DecodeValue`, `Store.Apply`, `Replication.Next`, `ObjectTree.Walk` ...) or an abstract content (`contents`,
`arrived`, `log`), and the theorems are about those functions and contents. Ghost fields hold the abstract content and the
histories that the theorems speak of. The listener thread, whose other party is every thread that calls the store, is a
state machine with one step per stretch of code that holds the lock, and one for each callback together with the test of
its filter (for which the source reads both times without the lock); setting the clock and adjusting the recorded times to it
are two steps, as in the source.

**Where the code departs from its evident intent,** the model follows the code:

- The ring cannot tell full from empty: a write that fills it exactly empties it, and `write_available` reports the whole
  size whenever the positions are in order (src/io/buffer.cpp:94-96, 208-230). `CircularBuffer.Write` says what happens in
  every case. `Socket.Write` says exactly when a message is taken whole.
- The server's timer writes all that is in line for a client into that ring at once (src/net/server.cpp:348-350,
  src/net/serialize.cpp:314-324). So a line that fills the ring exactly is lost, every write succeeding
  (`FilledRingLosesUpdates`: four updates with 254, 254, 254 and 170 bytes; `FillRun` is a whole run); and one that runs over it can be cut off behind
  a header, whereupon the server ends the connection (`BurstEndsConnection`: three entries with arrays of 49 64-bit
  integers, for a client that has just finished its handshake; `BurstRun` is a whole run). `FlushLosesNothingIff` says
  exactly which lines lose nothing: each message in turn leaves a byte free, up to the end or to one that cannot be written
  or is refused. When a connection is cut off the source destroys the record it is working on (src/net/server.cpp:87-94,
  src/net/io.cpp:544-548); in the model the connection is gone from then on.
- Reading a double keeps its low 32 bits (src/io/serialize.cpp:96-108): `DoubleRoundTripIff`. Both float array types report
  the type of 64-bit integer arrays (include/obsr_types.h:238-240, 259-261): `Value.TypeCode`.
- An unknown message type ends the parser in its error state with code 0, which `is_errored` does not report
  (src/net/serialize.h:47-51): `MessageParser.Process`.
- A deletion that finds an entry showing nothing leaves its timestamp alone (src/storage/storage.cpp:432-434), so that
  updates that are older than the deletion can still take effect: `OrderDoesNotMatterIff` gives the exact condition under
  which the order of messages does not matter, `RivalsDisagree` and `LateDeleteDisagrees` the orders that fail.
- A clear is replicated as an update with an empty value, which a client refuses that shows a value of another type, and so
  is a value of a new type that the server takes after a clear. `ClearTakesEffectIff` and `UpdateTakesEffectIff` say exactly
  when an update takes effect, and `Converged` what the clients show in the end.
- A message that does not fit into the 512 bytes of the serializer, or a path of 255 bytes and more, is never passed on by
  the queue, which tries the same message again for ever (src/net/serialize.cpp:314-324): `FitsIff` says which values fit,
  `BlockedForEver` that nothing behind such a message ever leaves.
- A client whose clock is set back can lose updates: `ResyncLosesUpdatesIff`.
- A resync takes the new offset off every recorded time (src/util/time.cpp:34-36), although the clock has moved only by the
  difference between the new offset and the one before. The first resync makes no difference to who is notified; a later
  one can make a listener miss what is notified after its creation, or hear of what was notified before it:
  `LaterThroughResyncsIff` and `EarlierThroughResyncsIff` say exactly when, `SecondResyncHides` is a whole run.
- Creating an entry right below the root throws (src/instance.cpp:81-94, 321-351), since the walk does not expect the empty
  path: `EntryOfIff`.
- `in_path` of a listener asks whether the prefix contains the path, `invoke` whether the path contains the prefix
  (src/storage/listener_storage.cpp:19-21, 31-40); the model has `invoke`.

**What convergence says and assumes.** In every reachable state in which a client is in use and no byte to it has been
lost, nothing is on its way to it and the server has nothing more to tell about a path, the client shows for that path
nothing if the server shows nothing, and otherwise the last value it was told of the type that the first value with contents
had, as the codec reads it (`Converged`). It shows the server's value if and only if that has this type and survives the
codec; if the calls keep to one type for each path, it always shows what the codec makes of the server's value, which is the
value itself for everything but a double with a high half (`ConvergedInType`). And what the server shows is what its calls
have written, one after the other, into a plain map from paths to values and times (`ServerIsMap`); so that is what the
client shows, too (`ClientIsMap`).

That no byte has been lost is an assumption about the run, and `IntactIff` spells it out: since the client connected, each
line that the timer handed over, and each time reply, left a byte free in the server's ring (up to a message the ring
refused), and so did each arrival in the client's. Two theorems say what the system can then do by itself, that is by every
step but another call on the server: timer, sockets, arrivals, requests for the time and their replies, other clients, and
the passing of time.

- A quiet state, in which nothing is left to be done for the client, *can* be reached if and only if all that is in line and
  still to be told can be written, and a time reply in front of the line, if one is stuck there, can go out with a part of
  the line without a loss (`QuietensIff`). So with no reply in line the size of the line does not matter: each request for
  the time moves the ring on by 27 bytes, so that every position can be reached, and in the last one the ring takes what it
  has room for and refuses the rest. In the run of `BurstRun` the next round of the timer ends the connection; after some
  requests it would not have.
- It *stays* within reach, whatever the timing, if and only if besides there is room (`AlwaysQuietensIff`): in the server's
  ring, for what waits in it, the line and one time reply; and in the client's, at each moment at which it can be filled, for
  all that is then left. With nothing under way that is: the line and 27 bytes more are less than 1024
  (`RestingQuietensIff`; `ReplyFillsRing` is the input that fails by one). In general it suffices that all messages under
  way, in line and still to be told, time replies apart, are less than 997 bytes. A caller can see to that: what is told is
  listed by `DueFrom`, and each message counts eleven bytes more than its body. With paths under 255 bytes, values that fit
  and one type for each path, the client then shows what the server shows (`CanAlwaysConverge`).

Assumed are: the server alone writes; its clock starts above 0 and does not run backwards; values are made within the
limits of their factories and are not float arrays; clients start with fresh stores, and connections end only where the
code itself ends them: by a message that is cut off, or after bytes have been lost. A client may set its clock as long
as that does not push the times of its entries beyond the server's (`HarmlessResync`); for any other shift
`ResyncLosesUpdatesIff` says what is lost. Once bytes have been lost on a connection, its client may do anything, and
nothing is said about it any more. Nothing else is assumed about how often, in which order or how long after each other
the steps happen, or about how many bytes move at a time. An arrival is bounded by what the client's ring asks for: it
can fill the ring only when what waits there goes around the end of the array, or is read from position 0
(`Links.CanArrive`, `Transport.ReceiveBytes`). Room for entries on a client is not assumed: it follows from the server's
own capacity. Nor is room on the way up: a client never has more than 30 bytes on their way (`WayUpIsShort`).

## Model

| member | source | states |
|---|---|---|
| `RingBuffer.CircularBuffer.constructor` | src/io/buffer.cpp:72-80 | a new ring of any positive size is valid and empty |
| `RingBuffer.CircularBuffer.ReadAvailable` | src/io/buffer.cpp:86-92 | the number of bytes held |
| `RingBuffer.CircularBuffer.WriteAvailable` | src/io/buffer.cpp:94-100 | how far the reported space is from the free space: the whole size when the positions are in order |
| `RingBuffer.CircularBuffer.CanRead` | src/io/buffer.cpp:102-105 | true exactly when that many bytes are held |
| `RingBuffer.CircularBuffer.CanWrite` | src/io/buffer.cpp:107-110 | true exactly up to the reported space; never refuses an insertion smaller than the free space |
| `RingBuffer.CircularBuffer.Reset` | src/io/buffer.cpp:112-115 | the ring is empty afterwards |
| `RingBuffer.CircularBuffer.FindAndSeekRead` | src/io/buffer.cpp:117-152 | lands on the first occurrence, or reports that there is none and then keeps or drops everything |
| `RingBuffer.CircularBuffer.SeekRead` | src/io/buffer.cpp:154-169 | drops the given number of oldest bytes, or all when fewer are held |
| `RingBuffer.CircularBuffer.Read` | src/io/buffer.cpp:171-201 | returns the oldest bytes in order, exactly when there are enough; a failed read changes nothing |
| `RingBuffer.CircularBuffer.Write` | src/io/buffer.cpp:203-233 | outcome of every write: appended when smaller than the free space, the ring empty when it fills exactly, refused when larger |
| `RingBuffer.CircularBuffer.ReadFrom` | src/io/buffer.cpp:235-263 | what the source hands out, in one or two requests, is appended if and only if it is smaller than the free space |
| `RingBuffer.CircularBuffer.WriteInto` | src/io/buffer.cpp:265-296 | whatever the sink takes of the two stretches is the oldest part of what was held, the rest stays in order |
| `Framing.HeaderRoundTrip` | src/net/serialize.cpp:11-19 | decoding an encoded header returns it |
| `Framing.DecodedHeaderRoundTrip` | src/net/serialize.cpp:11-19 | every eleven bytes are the encoding of the header they decode to |
| `Framing.JunkIsSkipped` | src/net/io.cpp:23-67 | bytes without a magic byte in front of a stream do not change what is found, so a failed search may drop or keep them |
| `Framing.FruitlessSearch` | src/net/io.cpp:23-67 | a search without success loses nothing, whatever arrives later |
| `Framing.FruitfulSearch` | src/net/io.cpp:23-67 | a successful search loses nothing, and less than a header behind it yields nothing yet |
| `Framing.LeadsPastHeader` | src/net/io.cpp:23-67 | a taken header leads to its payload, or back to searching when the version is wrong |
| `Framing.LeadsPastPayload` | src/net/io.cpp:23-67 | a taken payload yields its frame and leads back to searching |
| `Framing.ParseFrame` | src/net/io.cpp:185-219 | a well-formed frame in front of a stream is found first, whatever its payload contains |
| `Framing.ParseEncoded` | src/net/io.cpp:185-219 | parsing the encoding of any frames returns these frames |
| `Framing.ParseSplit` | src/net/io.cpp:23-67 | parsing a stream in two parts, cut anywhere, finds what parsing it at once finds |
| `Framing.ReceivedIsPrefix` | src/net/io.cpp:288-315 | while bytes are on their way the frames found are a prefix of those sent, and all of them when nothing is |
| `Framing.HoldsTheRest` | src/net/io.cpp:23-67 | given any first part of a stream of frames, a reader has handed on all that are complete, and holds all bytes of the next one but those of its header, once that is complete |
| `Links.LosesNothingIff` | src/net/io.cpp:185-219 | by position and fill of the ring and length of the message: exactly when a write takes it whole and when it refuses it |
| `SocketIo.Reader.TakeHeader` | src/net/io.cpp:23-67 | one attempt to take a header: what it drops and keeps makes no difference to any future |
| `SocketIo.Reader.ProcessHeader` | src/net/io.cpp:23-67 | the retry loop ends with a header of the right version, or with bytes in which nothing can be found yet |
| `SocketIo.Reader.ProcessMessage` | src/net/io.cpp:23-67 | a payload is taken whole or not at all; an oversize header is an error that the one-pass parser meets too |
| `SocketIo.Reader.Process` | src/util/state.h:39-98 | the driven machine ends waiting, finished or failed, in each case exactly where the one-pass parser is |
| `SocketIo.Socket.constructor` | src/net/io.cpp:69-78 | a new connection has accepted, drained and received nothing |
| `SocketIo.Socket.Write` | src/net/io.cpp:185-219 | a message is taken whole, under the next index, if and only if header and payload leave a byte free; the answer can be relied on (taken whole or not at all) if and only if that holds or the guard refuses; answer, end of the connection, and fill of the ring afterwards are those of `Links.Judge` in every case |
| `SocketIo.Socket.OnReadReady` | src/net/io.cpp:221-242 | chunking independence: whatever arrives in whatever pieces, the frames handed on are those of one pass over all bytes, until a piece fills the ring; and that is exactly when bytes are lost |
| `SocketIo.Socket.ProcessNewData` | src/net/io.cpp:288-315 | the loop hands on every complete frame and stops only when none is left or at the first oversize header |
| `SocketIo.Socket.OnWriteReady` | src/net/io.cpp:244-281 | any partial drain keeps "drained bytes followed by waiting bytes encode the accepted frames", and moves the read position by what was taken |
| `SocketIo.InOrder` | src/net/io.cpp:185-315 | end to end: the receiver has handed on a prefix of what the sender accepted, and all of it once ring and wire are empty |
| `SocketIo.HoldsPending` | src/net/io.cpp:221-315 | what has arrived since the last frame handed on is less than the next frame, and all of it is in the ring but for a complete header |
| `Bytes.FromToBigEndian` | src/util/bits.h:9-31 | reading a number written in network byte order returns it, for every width |
| `Bytes.ToFromBigEndian` | src/util/bits.h:9-31 | every byte string is the network form of the number it is read as |
| `Codec.DecodeSizedBack` | src/io/serialize.cpp:110-139 | a length-prefixed byte string is read back, leaving exactly what followed |
| `Codec.DecodeArrayBack` | src/io/serialize.cpp:141-183 | a length-prefixed array is read back, leaving exactly what followed |
| `Codec.ValueRoundTrip` | src/io/serialize.cpp:229-328 | reading a written value returns it (a double: its low half) and leaves exactly the bytes that followed, for every writable value |
| `Codec.DoubleRoundTripIff` | src/io/serialize.cpp:96-108 | a double survives if and only if its high half is zero |
| `Codec.DecodedExactly` | src/io/serialize.cpp:458-504 | the converse: what is read as a value is exactly what writing that value produces, if and only if a flag byte is 0 or 1 and a double has no high half |
| `WireForm.ByteAt` | src/util/bits.h:9-19 | network byte order: byte `i` from the left is the digit to the base 256 that is that many places from the last |
| `WireForm.TwosComplement` | src/io/serialize.cpp:351-360 | signed numbers go out as two's complement: equal up to a multiple of the modulus, the first bit telling the sign |
| `WireForm.DoubleKeepsLowHalf` | src/io/serialize.cpp:96-108 | a double comes back as the one with the same low half and a high half of zero |
| `WireForm.OutcomeIs` | src/io/serialize.cpp:229-328 | reading a value from any bytes: it throws exactly when 255 elements are announced and there, otherwise succeeds exactly when the type is known and the bytes are there, and takes just these |
| `WireForm.FloatArraysRead` | src/io/serialize.cpp:185-227 | arrays of floats from elsewhere: floats arrive as they are, doubles without their high halves |
| `WireForm.HeaderBytes` | src/net/serialize.h:12-23 | the eleven bytes of a header and what each is: magic, version, index, kind, size, numbers most significant byte first |
| `WireForm.KindsAre` | src/net/serialize.h:25-35 | the number of each kind of message |
| `WireForm.SampleValueMessages` | src/net/serialize.cpp:215-253 | the bytes of a creation and of an update, spelt out |
| `WireForm.SampleIdMessages` | src/net/serialize.cpp:203-265 | the bytes of a deletion, an assignment and the handshake's words |
| `WireForm.SampleTimeMessages` | src/net/serialize.cpp:267-285 | the bytes of a time request and its reply |
| `WireForm.SampleContents` | src/io/serialize.cpp:458-504 | type codes and bytes of values without numbers |
| `WireForm.SampleNumbers` | src/io/serialize.cpp:458-504 | type codes and bytes of numbers |
| `WireForm.SampleArrays` | src/io/serialize.cpp:402-428 | type codes and bytes of arrays: the number of elements, then the elements in their order |
| `Serializer.LinearBuffer.Write` | src/io/buffer.cpp:59-70 | appends when the bytes fit, otherwise refuses |
| `Serializer.ReadonlyBufferView.Read` | src/io/buffer.cpp:21-31 | hands out the next bytes when there are enough, otherwise refuses |
| `Serializer.Serializer.WriteSize` | src/io/serialize.cpp:382-388 | refuses sizes of 255 and more |
| `Serializer.Serializer.WriteRaw` | src/io/serialize.cpp:390-400 | appends length and bytes when both fit |
| `Serializer.Serializer.WriteArr` | src/io/serialize.cpp:402-428 | the element loop appends the encoded array, and succeeds exactly when all of it fits |
| `Serializer.Serializer.WriteValue` | src/io/serialize.cpp:458-504 | appends exactly the encoding of the value, exactly when it is short enough and fits |
| `Serializer.Deserializer.ReadWord` | src/io/serialize.cpp:52-80 | reads what the format says is there, or nothing |
| `Serializer.Deserializer.ReadRaw` | src/io/serialize.cpp:114-128 | reads what the format says is there, or nothing |
| `Serializer.Deserializer.ReadArr` | src/io/serialize.cpp:141-227 | the element loop reads what the format says is there, or nothing |
| `Serializer.Deserializer.ReadValue` | src/io/serialize.cpp:229-328 | value, failure or exception exactly as the format says, for every type code |
| `Messages.BodyRoundTrip` | src/net/serialize.cpp:34-97 | parsing a written message returns every field it carries, whatever follows and whatever the parser held before |
| `Messages.ParsedExactly` | src/net/serialize.cpp:34-184 | the converse: whatever the parser finishes on, it holds the fields of the message it has read, and the bytes begin with that message's body if and only if a flag byte is 0 or 1 and a double has no high half |
| `Messages.MessageSerializer.EntryIdAssign` | src/net/serialize.cpp:203-213 | succeeds exactly when within the limits and 512 bytes, and then holds the body |
| `Messages.MessageSerializer.EntryCreated` | src/net/serialize.cpp:215-233 | the same for this message |
| `Messages.MessageSerializer.EntryUpdated` | src/net/serialize.cpp:235-253 | the same for this message |
| `Messages.MessageSerializer.EntryDeleted` | src/net/serialize.cpp:255-265 | the same for this message |
| `Messages.MessageSerializer.TimeSyncRequest` | src/net/serialize.cpp:267-273 | the same for this message |
| `Messages.MessageSerializer.TimeSyncResponse` | src/net/serialize.cpp:275-285 | the same for this message |
| `Messages.MessageParser.SetData` | src/net/serialize.cpp:28-32 | the machine starts over with the new bytes and keeps its stale fields |
| `Messages.MessageParser.SelectNextState` | src/net/serialize.cpp:99-184 | the transition table walks the layout of the type field by field, each step lowering a rank; an unknown type fails with code 0 |
| `Messages.MessageParser.TakeField` | src/net/serialize.cpp:34-97 | one field is read into the data as the layout says, or failure, or exception |
| `Messages.MessageParser.Process` | src/util/state.h:39-98 | terminates, and finishes if and only if the type is known and the bytes begin with its fields; the other outcomes exactly |
| `Queue.PassingIsMaximal` | src/net/serialize.cpp:314-324 | what goes out is a maximal accepted prefix: all before were accepted, the next one was refused or cannot be written |
| `Queue.ConservesInsert` | src/net/serialize.cpp:297-308 | an immediate message may jump the line without disturbing the others |
| `Queue.MessageQueue.WriteMessage` | src/net/serialize.cpp:326-347 | a packet reaches the destination exactly when it can be written and is accepted |
| `Queue.MessageQueue.Enqueue` | src/net/serialize.cpp:297-308 | an ordinary message goes to the end and nothing is sent; an immediate one has been sent, and is out of the queue, if and only if it has no type, or can be written and the destination's next answer is yes; otherwise it waits in front of all others and nothing is sent; sent and pending are what was enqueued, ordinary ones in order |
| `Queue.MessageQueue.Clear` | src/net/serialize.cpp:310-312 | drops what waits and nothing else |
| `Queue.MessageQueue.Process` | src/net/serialize.cpp:314-324 | sends exactly the passing prefix, in order, and keeps the rest |
| `Transport.PackedUnpacks` | src/net/client.cpp:48-63 | the parser finishes on the packet of a message with all of its fields and no byte left over |
| `Transport.MessagesArriveInOrder` | src/net/client.cpp:48-120 | all layers: the i-th message handed on is the i-th that was sent, every field intact, and all of them once nothing is on its way |
| `Transport.QueueReachesParser` | src/net/server.cpp:23-25 | from the queue to the parser: the messages that come out are, in order and with all fields, the first of those that left the queue, the ordinary ones among them the first of the ordinary ones enqueued; all of them, each as often as enqueued, once queue, ring and wire are empty |
| `Transport.WriteThrough` | src/net/io.cpp:437-448 | a socket does for a queue what the queue expects of its destination, whenever its answer can be relied on |
| `Transport.CarriesIs` | src/net/io.cpp:185-315 | when two sockets hold what the protocol says of a connection, the wire is as long as it says, no complete message is unhandled, and the receiver's ring holds what it says, from the position it says |
| `Transport.SendMessage` | src/net/io.cpp:185-219 | writing a message does to the sockets what the protocol says: answer, end of the connection, ring |
| `Transport.SendBytes` | src/net/io.cpp:244-281 | taking bytes out of the ring is the protocol's step |
| `Transport.ReceiveBytes` | src/net/io.cpp:221-242 | an arrival is the protocol's step: as many bytes as it says can arrive, they are lost exactly when it says, and otherwise the messages it calls complete are handed on |
| `Transport.SendableIsWritable` | src/net/serialize.cpp:326-347 | the queue can write exactly the messages that the protocol calls sendable |
| `Transport.BodySizeIs` | src/net/serialize.cpp:203-285 | the bodies have the length that the protocol counts with |
| `Transport.FlushIsPassing` | src/net/serialize.cpp:314-324 | what the queue passes on of a line, with the answers the ring gives, is what the protocol hands over |
| `Transport.UpdateArrives` | src/net/client.cpp:63-73 | the parser hands over an update with the value that the protocol lets the client take |
| `Handles.HandleTable.FindNextAvailableSpot` | src/util/handles.h:162-170 | the lowest free slot, or none exactly when all are taken |
| `Handles.HandleTable.AllocateNew` | src/util/handles.h:110-138 | takes the lowest free slot; fails, changing nothing, exactly when there is none |
| `Handles.HandleTable.Release` | src/util/handles.h:140-152 | frees the slot and gives up its data; fails, changing nothing, when it is not taken |
| `Handles.HandleTable.Next` | src/util/handles.h:56-60 | the next taken slot, none skipped |
| `Handles.HandleTable.Iterate` | src/util/handles.h:22-64 | visits every taken slot once, in ascending order |
| `StoreLaws.SetEntryFaithful` | src/storage/storage.cpp:351-417 | a set keeps the flag invariant and tells the listeners truthfully what it did, whichever branch it takes |
| `StoreLaws.DeleteEntryFaithful` | src/storage/storage.cpp:419-457 | the same for a deletion |
| `StoreLaws.MismatchIsHarmless` | src/storage/storage.cpp:74-85 | a set throws exactly when fresh, not a clear and of another type than a present value; then value, flags, timestamp and notifications are as before |
| `StoreLaws.ApplyKeeps` | src/storage/storage.cpp:103-457 | every operation, with any arguments, keeps flags, indexes and log consistent |
| `StoreLaws.RunKeeps` | src/storage/storage.cpp:103-457 | so does every run |
| `StoreLaws.LogTellsTheValue` | src/storage/storage.cpp:154-167 | after every run, folding an entry's notifications gives what reading it returns; each change starts from the value before it |
| `StoreLaws.LocateKeeps` | src/storage/storage.cpp:103-117 | looking a path up or creating it yields the entry of that path, and fails exactly when the path is new and the table full |
| `StoreLaws.RunExtends` | src/storage/storage.cpp:339-349 | a path keeps its handle, and a handle its path, for ever |
| `StoreLaws.ApplyIds` | src/storage/storage.cpp:272-337 | an entry with an id is the one the id index gives, kept by every operation if incoming ids are new or already name their path |
| `StoreLaws.AssignedIdIff` | src/storage/storage.cpp:319-337 | for an assignment that condition is necessary as well as sufficient |
| `StoreEffects.SetAtEffect` | src/storage/storage.cpp:351-417 | the three outcomes of a set: too old, it changes nothing; of a type that does not fit, at most the id; otherwise the entry shows the value, with the time, flag and id of the call, and the listeners are told just that; no other entry changes |
| `StoreEffects.DeleteAtEffect` | src/storage/storage.cpp:419-457 | a deletion that is not too old leaves nothing to be shown, with time and flag of the call; where nothing is shown it changes nothing |
| `StoreEffects.GetOrCreateEffect` | src/storage/storage.cpp:103-117 | the entry of the path is found or made, keeping what it shows; a new one shows nothing; fails exactly when the path is new and the table full |
| `StoreEffects.SetEffect` | src/storage/storage.cpp:169-173 | a value that is set is shown, is new as of now, and waits to be sent; one of another type changes nothing at all |
| `StoreEffects.ClearEffect` | src/storage/storage.cpp:175-179 | a cleared entry shows an empty value, whatever it showed |
| `StoreEffects.DeleteEffect` | src/storage/storage.cpp:119-123 | a deleted entry shows nothing, and the deletion waits to be sent |
| `StoreEffects.ContainsIff` | src/storage/storage.cpp:25-28 | a path contains a part if and only if it is something, that part and something else; in particular it contains its prefixes |
| `StoreEffects.DeleteAllEffect` | src/storage/storage.cpp:125-134 | for every entry: gone, and waiting to be sent as of now, if it showed something and its path contains the given one, in particular if it begins with it; otherwise exactly as it was |
| `StoreEffects.DrainEffect` | src/storage/storage.cpp:181-198 | for every entry: clean afterwards if it was one of the first dirty ones, as many as the action agreed to; otherwise, and in all else, as it was |
| `StoreEffects.ForgetIdsEffect` | src/storage/storage.cpp:200-208 | no id names anything afterwards, no entry has one, and nothing else has changed |
| `StoreEffects.ResyncEffect` | src/storage/storage.cpp:251-270 | a resync keeps what is shown and how far apart any two updates are; what was never updated stays so |
| `StoreEffects.CreatedIff` | src/storage/storage.cpp:272-291 | a remote creation shows its value, with its time, if and only if there is room, it is not too old and the type fits; otherwise what is shown and its time stay; when it throws and what |
| `StoreEffects.CreatedEffect` | src/storage/storage.cpp:272-291 | in detail: the entry is clean, carries the id, and a new id names it; what the listeners are told; no other path is touched |
| `StoreEffects.UpdatedEffect` | src/storage/storage.cpp:293-305 | a remote update shows its value under the id, clean and with its time, if it is not too old and the type fits; an unknown id does nothing |
| `StoreEffects.DeletedEffect` | src/storage/storage.cpp:307-317 | a remote deletion that is not too old leaves nothing to be shown under the id, and nothing to be sent |
| `StoreEffects.IdAssignedEffect` | src/storage/storage.cpp:319-337 | an assigned id goes to the entry of the path and a new one names it; no value, time or flag changes |
| `LastWriter.StoreFollowsView` | src/storage/storage.cpp:293-317 | the store's entry goes through the same values, presence and times as the three-line model of it |
| `LastWriter.GreatestWins` | src/storage/storage.cpp:351-457 | the operation with the greatest timestamp decides, wherever it stands in the order |
| `LastWriter.OrderDoesNotMatterIff` | src/storage/storage.cpp:351-457 | for every entry, showing a value or not: all orders of messages with distinct times agree if and only if all are older than the entry, or the greatest is an update, or it is a deletion without a rival (no other deletion, or for an entry that shows nothing no update, that is not older than the entry) |
| `LastWriter.RivalsDisagree` | src/storage/storage.cpp:419-434 | two orders that end differently, for every such pair of deletions |
| `LastWriter.LateDeleteDisagrees` | src/storage/storage.cpp:432-434 | two orders that end differently, for every entry that shows nothing, update and later deletion |
| `LastWriter.ViewsAgree` | src/storage/storage.cpp:351-457 | with at most one deletion every order ends with the greatest operation, or unchanged when all are older than the entry |
| `LastWriter.LastWriterWins` | src/storage/storage.cpp:293-317 | the same for the store: any updates of the entry's type and at most one deletion, in any order |
| `LastWriter.StoreOrderIff` | src/storage/storage.cpp:293-317 | the exact condition for the store, both for ending as one given outcome and for all orders agreeing with each other |
| `Storage.StorageEntry.SetValue` | src/storage/storage.cpp:74-85 | throws exactly when another type is there, changing nothing; otherwise exchanges the value |
| `Storage.EntryStorage.CreateNewEntry` | src/storage/storage.cpp:339-349 | the new entry is the last one, known under its path; fails when the table is full |
| `Storage.EntryStorage.GetOrCreate` | src/storage/storage.cpp:103-117 | the code does what `Store.GetOrCreateEntry` says, so all laws hold of it |
| `Storage.EntryStorage.SetData` | src/storage/storage.cpp:351-417 | the early updates and the late throw amount to `Store.SetEntry` |
| `Storage.EntryStorage.SetEntryInternal` | src/storage/storage.cpp:351-417 | the code does what `Store.SetAt` says, to this entry and no other |
| `Storage.EntryStorage.DeleteEntryInternal` | src/storage/storage.cpp:419-457 | the code does what `Store.DeleteAt` says |
| `Storage.EntryStorage.DeleteEntries` | src/storage/storage.cpp:125-134 | the loop over the table does what `Store.DeleteFrom` says |
| `Storage.EntryStorage.ActOnDirtyEntries` | src/storage/storage.cpp:181-198 | the loop cleans dirty entries in order until the action refuses |
| `Storage.EntryStorage.ClearNetIds` | src/storage/storage.cpp:200-208 | no entry has an id afterwards and the index is empty |
| `Storage.EntryStorage.OnClockResync` | src/storage/storage.cpp:251-270 | every nonzero timestamp is shifted by the same offset |
| `Storage.EntryStorage.OnEntryCreated` | src/storage/storage.cpp:272-291 | the code does what `Store.OnCreated` says |
| `Storage.EntryStorage.OnEntryUpdated` | src/storage/storage.cpp:293-305 | the code does what `Store.OnUpdated` says |
| `Storage.EntryStorage.OnEntryDeleted` | src/storage/storage.cpp:307-317 | the code does what `Store.OnDeleted` says |
| `Storage.EntryStorage.OnEntryIdAssigned` | src/storage/storage.cpp:319-337 | the code does what `Store.OnIdAssigned` says |
| `Storage.EntryStorage.GetEntryValue` | src/storage/storage.cpp:154-167 | the value of a present entry, nothing otherwise |
| `Storage.EntryStorage.GetEntryValueFromId` | src/storage/storage.cpp:229-249 | the same through the id index |
| `PipeLaws.OrderlyAppend` | src/net/server.cpp:335-343 | a message that fits behind the others keeps "introduced before used" of the whole stream |
| `PipeLaws.FollowAppend` | src/storage/storage.cpp:351-364 | messages that take effect keep doing so when another effective one is put behind them |
| `PipeLaws.FollowEarlier` | src/storage/storage.cpp:351-364 | an entry with an earlier last update accepts the same messages and ends the same |
| `PipeLaws.HeldIsKept` | src/storage/storage.cpp:74-85 | taking one value after the other, refusing those of another type, ends with the last one that has the type of the first one with contents |
| `ReplicationLaws.RoomForAssigned` | src/storage/storage.cpp:339-349 | a client that is told a new id always has a free slot for it: its table cannot be full |
| `ReplicationLaws.RoomForId` | src/net/server.cpp:353-359 | while an entry has no id there are fewer ids than entries, so the counter never reaches the "no id" value |
| `ReplicationLaws.TellKeepsPeer` | src/net/server.cpp:335-343 | publishing and telling keep a connection in order, and bring its client to the server's value |
| `ReplicationLaws.ProcessKeeps` | src/net/server.cpp:312-351 | so does draining all dirty entries to all clients |
| `ReplicationLaws.GreetKeeps` | src/net/server.cpp:397-424 | so does the answer to a handshake, with its values stamped with the present |
| `ReplicationLaws.ArriveKeeps` | src/net/client.cpp:63-111 | so does the arrival of any message at a client, with the value as the codec reads it |
| `ReplicationLaws.FlushKeeps` | src/net/server.cpp:60-62 | so does handing over a line, however far it gets |
| `ReplicationLaws.PostKeeps` | src/net/server.cpp:173-181 | so does an immediate time reply, sent at once or put at the head of the queue |
| `ReplicationLaws.NextKeeps` | src/net/server.cpp:312-424 | every step of server, clients, sockets and wires keeps the invariant of the server and of every connection on which no byte has been lost |
| `ReplicationLaws.ReachableOk` | src/net/server.cpp:312-424 | it holds in every reachable state |
| `Convergence.Converged` | src/net/server.cpp:312-351 | in every reachable state where a client is in use and has lost no byte, nothing is on its way to it and nothing is left to tell about a path: it shows nothing where the server shows nothing, and otherwise the last value told of the type of the first one with contents, as the codec reads it; that is the server's value if and only if this has that type and survives the codec |
| `Convergence.UpdateTakesEffectIff` | src/storage/storage.cpp:351-417 | a remote update takes effect if and only if it is not stale and the entry shows nothing, an empty value or one of the same type; otherwise nothing changes |
| `Convergence.ClearTakesEffectIff` | src/storage/storage.cpp:74-85 | a replicated clear takes effect if and only if it is not stale and the entry shows nothing, or shows an empty value already |
| `Convergence.ResyncLosesUpdatesIff` | src/storage/storage.cpp:251-270 | after a client's clock is set the next update takes effect if and only if the shifted time is not later; otherwise the old value stays |
| `Convergence.IdsAssigned` | src/net/server.cpp:353-359 | ids are handed out as 0, 1, 2, ..., at most as many as entries, to different paths, each to the server's entry of that path |
| `Convergence.IdsName` | src/net/server.cpp:353-359 | an id that a client knows, no byte to it having been lost, names the same path on both sides |
| `Convergence.KnownBeforeUse` | src/net/client.cpp:65-94 | every update or deletion that arrives concerns a known id, every assignment a new one, and when the handshake ends all ids assigned before are known |
| `Convergence.EverythingPublished` | src/net/server.cpp:397-424 | for a client in use every assigned id is known or on its way |
| `CallRules.NextObeys` | src/net/server.cpp:312-424 | if the calls keep to rules about paths and values, then so does everything the server stores and tells, through every step |
| `CallRules.ConvergedInType` | src/net/server.cpp:312-351 | if the calls keep to one type for each path, a client for which nothing is left to do shows what the codec makes of the server's value, and the value itself if and only if the codec does not alter it, in particular for every type but double |
| `CallRules.FitsIff` | src/net/serialize.cpp:235-253 | which values can be sent in an update: all but float arrays and arrays of more than 125 (four bytes) or 62 (eight bytes) integers |
| `Handshake.GreetTells` | src/net/server.cpp:397-424 | what the handshake puts in line, exactly: every id that the client does not know, with its path and with the value shown for it, if any, each once, by ascending ids, the path first; then the end of the handshake |
| `Handshake.ConsumeProgress` | src/net/client.cpp:63-117 | how a client gets through the handshake: exactly which messages move it on, and that it reports to be ready once |
| `Handshake.ReplyShifts` | src/net/client.cpp:95-110 | a time reply changes nothing that a client shows, and moves the times of all its updates by the same offset if it sets the clock |
| `ServerMap.StepDisplays` | src/storage/storage.cpp:103-200 | every step of the system changes what the server shows, and as of when, as a plain map says; only calls do |
| `ServerMap.ServerIsMap` | src/storage/storage.cpp:103-200 | after every run the server shows, for every path, the value and time that its calls have left in the map, and has the entries they have created, in their order |
| `ServerMap.ClientIsMap` | src/net/server.cpp:312-351 | from end to end: with one type for each path a settled client shows what the server's calls have written, as the codec reads it |
| `TimerLaws.ProcessCleans` | src/net/server.cpp:312-346 | after the timer no entry is dirty, and the server shows what it showed |
| `TimerLaws.ProcessLine` | src/net/server.cpp:312-346 | exactly which messages the timer puts in line for a client, read off the entries, and that nothing else about the client changes |
| `Losses.FlushLosesNothingIff` | src/net/serialize.cpp:314-324 | handing over a line loses nothing if and only if each message in turn leaves a byte free, up to the end or to one that cannot be written or is refused |
| `Losses.StepLosesNothingIff` | src/net/server.cpp:348-350 | exactly when a step of the system loses bytes on their way to a client: the timer, a time reply, an arrival |
| `Losses.IntactIff` | src/net/server.cpp:348-350 | a connection is whole if and only if none of the steps since it was made has lost a byte on it |
| `Wires.NextWired` | src/net/io.cpp:185-315 | every step keeps: what waits in the ring and what has arrived are bytes of the messages on their way, all of which could be written; one request for the time at a time, a reply that could not go out first in line, and none of the handshake's words from a client in use |
| `Wires.WayUpIsShort` | src/net/client.cpp:204-209 | in every reachable state a client has at most 30 bytes on their way to the server, so no ring on the way up is filled |
| `Bursts.ExactFillIsLost` | src/io/buffer.cpp:203-233 | every line that fills the ring exactly is gone as a whole, and nothing waits any more |
| `Bursts.OverflowCutsOff` | src/net/io.cpp:206-214 | a line in which a header finds room and its body does not ends the connection |
| `Bursts.FilledRingLosesUpdates` | src/net/server.cpp:312-351 | four updates between two rounds of the timer that all succeed and never arrive, nothing being dirty afterwards |
| `Bursts.BurstEndsConnection` | src/net/server.cpp:312-351 | three new entries with arrays that end the connection of a fresh client, though each message could be written |
| `BurstRun.BurstRun` | src/net/server.cpp:312-351 | a run from the start of the server to that state, for any contents of the arrays; with requests for the time before the timer it would have come to rest |
| `FillRun.FillRun` | src/net/server.cpp:312-351 | a run from the start of the server to such a loss, for any contents of that length: the server shows the new values, the client the old ones, and nothing is dirty, in line or in the ring |
| `Progress.BlockedForEver` | src/net/serialize.cpp:314-324 | a message that cannot be written, and everything behind it, never leaves the queue, in any run, while the connection stands |
| `Progress.LineSendableIff` | src/net/server.cpp:312-346 | all that the timer hands over can be written if and only if what is in line can, and the values of all dirty entries, and the paths of those the client does not know |
| `Passage.QuietensIff` | src/net/server.cpp:312-351 | the system can come by itself to a state where nothing is left to do for a client, if and only if all that is in line or to be told can be written, and a time reply stuck in front of the line can go out with a part of it without a loss |
| `Passage.RotateTo` | src/net/client.cpp:204-209 | by requests for the time and their replies every position of the ring can be reached, the line staying as it is |
| `Passage.PlaceBurst` | src/io/buffer.cpp:94-100 | there, with at most one byte of a reply left in the ring, a first part of any line goes out and nothing is lost |
| `Room.AlwaysQuietensIff` | src/net/server.cpp:312-351 | such a state stays within reach, whatever the system does by itself, if and only if all that is in line or to be told can be written, the server's ring has room for what waits, the line and one time reply, and the client's, wherever it can be filled, for all that is then left |
| `Room.RestingQuietensIff` | src/net/server.cpp:312-351 | with nothing under way: if and only if the line can be written and is less than 997 bytes |
| `Room.SmallIsSafe` | src/net/server.cpp:312-351 | in every state there is room if all messages under way, in line and to be told, time replies apart, are less than 997 bytes |
| `Room.ReplyFillsRing` | src/net/server.cpp:173-181 | a line of 997 bytes is lost whole when the reply to a request for the time follows it, every write succeeding |
| `Room.CanConverge` | src/net/server.cpp:312-351 | if the calls create only paths under 255 bytes and set only values that fit, then from every state with a client in use and no time reply in line there is a way, without another call, to a state where nothing is left to do for it |
| `Room.CanAlwaysConverge` | src/net/server.cpp:312-351 | if besides the calls keep to one type for each path, and less than 997 bytes are outstanding for the client, time replies apart, then such a state stays within reach whatever the system does by itself, and in each that is reached the client shows for every path what the server showed all along, as the codec reads it |
| `Server.ServerClient.PublishEntry` | src/net/server.cpp:44-49 | the assignment is enqueued and remembered |
| `Server.ServerClient.EnqueueImmediate` | src/net/serialize.cpp:297-308 | a time reply goes out at once or to the head of the queue, as the protocol says |
| `Server.ServerClient.Update` | src/net/serialize.cpp:314-324 | the loop, with the outcomes of the socket's write, does what the protocol calls handing over a line |
| `Server.NetworkServer.constructor` | src/net/server.cpp:64-77 | a new server is an initial state of the protocol |
| `Server.NetworkServer.OnConnect` | src/net/server.cpp:78-86 | the code takes the protocol's connect step |
| `Server.NetworkServer.AssignIdToEntry` | src/net/server.cpp:353-359 | the code hands out the next id as the protocol does, in counter, assignments and store |
| `Server.NetworkServer.TellClients` | src/net/server.cpp:335-343 | the loop over the clients, in any order, tells each of them once and leaves the rest of the state alone |
| `Server.NetworkServer.ProcessUpdates` | src/net/server.cpp:312-346 | the drain loop tells every client about every dirty entry, as the protocol does |
| `Server.NetworkServer.UpdateClient` | src/net/server.cpp:60-62 | the line of one client is handed over; a client whose connection was cut off is forgotten |
| `Server.NetworkServer.UpdateClients` | src/net/server.cpp:348-350 | the loop over the clients hands over every line, in any order |
| `Server.NetworkServer.Update` | src/net/server.cpp:268-296 | the timer takes the protocol's process step, unless there are no clients |
| `Server.NetworkServer.OnWriteReady` | src/net/io.cpp:244-281 | the socket takes bytes as the protocol says |
| `Server.NetworkServer.HandleDoHandshakeForClient` | src/net/server.cpp:397-424 | the loop over the assignments takes the protocol's handshake step |
| `Server.NetworkServer.OnMessage` | src/net/server.cpp:173-184 | the dispatch of time requests and of the client's readiness takes the protocol's answer steps; unconnected clients get none |
| `Server.NetworkClient.OnMessage` | src/net/client.cpp:63-117 | the dispatch on the message type takes the protocol's receive step |
| `ObjectTree.ChildPathSplits` | src/instance.cpp:11-27 | parent path and name of a child's path are what it was made of |
| `ObjectTree.ChildKeeps` | src/instance.cpp:306-319 | a child, found or made, has the parent's path and its name; the index stays prefix-closed |
| `ObjectTree.WalkResult` | src/instance.cpp:321-351 | the exact outcome of a walk from every position: root, refusal or the object stored under that path |
| `ObjectTree.WalkKnown` | src/instance.cpp:321-351 | a walk to a known path creates nothing and finds its object |
| `ObjectTree.PrefixKnown` | src/instance.cpp:306-351 | every prefix of a known path that ends before a separator is known |
| `ObjectTree.GetObjectResult` | src/instance.cpp:71-79 | what a look-up returns, for every path |
| `ObjectTree.GetObjectAgain` | src/instance.cpp:71-79 | asking again at any later time returns the same handle and changes nothing |
| `ObjectTree.WalkRoomIff` | src/instance.cpp:306-351 | what a walk adds to the tree, exactly: the objects on the way that were missing; it fails for want of room if and only if there is not room for all of them |
| `ObjectTree.GetObjectRoomIff` | src/instance.cpp:71-79 | the same for looking up a path |
| `ObjectTree.EntryInIff` | src/instance.cpp:104-113 | a stored path is found or made, with the handle it has for ever, unless it is new and the store is full |
| `ObjectTree.ParentExists` | src/instance.cpp:115-134 | the assertion in the parent look-up holds; exactly the root has no parent |
| `ObjectTree.ParentOfObjectIff` | src/instance.cpp:115-134 | the parent of a path's object is the object of the parent's path, if and only if that is empty or does not end in a separator; for every path, its first character counting as a separator |
| `ObjectTree.Instance.GetOrCreateChild` | src/instance.cpp:306-319 | the code does what the child step of the model says |
| `ObjectTree.Instance.GetOrCreateObject` | src/instance.cpp:321-351 | the do/while walk does what the model's walk says |
| `ObjectTree.Instance.FindObject` | src/instance.cpp:71-79 | the code does what the model's look-up says, the empty path standing for the root |
| `ObjectTree.Instance.GetChild` | src/instance.cpp:96-102 | an invalid name is refused before anything changes |
| `ObjectTree.Instance.GetParentForObject` | src/instance.cpp:115-134 | the look-up that the assertion guards |
| `ObjectTree.Instance.GetEntry` | src/instance.cpp:81-94 | an entry and the objects on the way to it; right below the root it throws |
| `ObjectTree.Instance.GetEntryOf` | src/instance.cpp:104-113 | an entry of an object, without objects being created; invalid names and handles are refused first |
| `ObjectTree.EntryOfIff` | src/instance.cpp:81-94 | which paths have entries: those whose parent's path is neither empty nor ends in a separator (but for a single character), unless there is no room for the missing objects or for the entry, and exactly when there is none; the entry is stored under that path, its parent's object is in the tree, and no object is made that is not on the way |
| `Listeners.NextKeeps` | src/storage/listener_storage.cpp:120-150 | every step, of the delivering thread or of any other, keeps "called with exactly the passing notices considered so far, in order" |
| `Listeners.ShiftKeepsDecision` | src/storage/listener_storage.cpp:46-61 | shifting both recorded times changes no filter decision |
| `Listeners.DeliveredExactly` | src/storage/listener_storage.cpp:120-150 | in every reachable state a listener has been called with each notice at most once, in order, and with exactly those delivered since it was created that pass its filter |
| `Listeners.GetsExactlyWhatPasses` | src/storage/listener_storage.cpp:113-150 | from the call that creates a listener to any later state without its destruction: it has been called with a notice notified since and delivered by now if and only if the notice passes its filter, with none twice and none out of order (when it passes, told from the steps, is in the next rows) |
| `Listeners.DeliversAll` | src/storage/listener_storage.cpp:120-150 | by itself the delivering thread delivers all that is pending |
| `Listeners.LaterIff` | src/storage/listener_storage.cpp:31-111 | told from the steps of any run: a listener has been called with what was notified after its creation, once delivered, if and only if the path contains its prefix and the clock showed no less than at the creation, less all that recorded times were moved back by in between |
| `Listeners.EarlierIff` | src/storage/listener_storage.cpp:31-111 | the same for what was notified before its creation: only what was pending then, and exactly when |
| `Listeners.LaterThroughResyncsIff` | src/storage/listener_storage.cpp:46-61 | when each setting of the clock is followed by its resync: if and only if the path fits and the time that has passed, with the offsets replaced in between, is not below zero |
| `Listeners.EarlierThroughResyncsIff` | src/storage/listener_storage.cpp:46-61 | the same for what was notified before |
| `Listeners.HearsAllThatFollows` | src/storage/listener_storage.cpp:31-111 | while the system's time does not run backwards and the offsets that resyncs replace do not add up to less than zero, a listener hears of everything notified after its creation under a path that contains its prefix, and of nothing else |
| `Listeners.HearsNothingFromBefore` | src/storage/listener_storage.cpp:31-111 | under the same conditions it hears of nothing notified at an earlier time, though it was pending |
| `Listeners.SecondResyncHides` | src/util/time.cpp:15-41 | a whole run in which a second setting of the clock makes a listener miss a notice |

## Left out

- `src/os`, `src/events`, `src/debug.h`, `src/obsr.cpp`: system calls, the event loop and logging. A readable or writable
  is an adversary that answers any count up to the request; everything on the loop happens one step at a time.
- Starting, stopping, restarting and reconnecting, disconnects other than those the server's own writes cause, socket errors
  and end of file, calls before the connection stands, retry timers and 16-bit client ids: one server run, and a new client
  for every connection.
- What the source does after it has cut off a connection, in the middle of a loop over its clients or with its mutex held:
  undefined behaviour or a deadlock. The model goes on without that client.
- Writes that originate at a client (src/net/client.cpp:256-281, src/net/server.cpp:121-172): the server tests an id that an
  entry_create message never sets and publishes the loop's client id (src/net/server.cpp:380-395). What the store makes of
  remote creations, updates and deletions in any order is in `StoreLaws` and `LastWriter`.
- How a time reply sets the clock (src/util/time.cpp:15-32): the offset is a parameter. Stores are given the times they record
  and the offsets they are shifted by; only `Listeners` has a clock with an offset of its own.
- Exceptions are outcomes (`Status`, `Threw`, `OutOfRange` ...) without their texts; heap ownership, `shared_ptr` and the
  union in `value` are not modelled; the entry's flag word is three booleans.
- Serializer.Serializer.WriteValue: float arrays are not written, because their setters give them the type of 64-bit integer
  arrays, whose branch reads another member of the union: undefined behaviour, which for floats also runs past the array.
- Codec.ValueRoundTrip: no float arrays, for the same reason; likewise the next five.
- Messages.BodyRoundTrip: no messages that carry float arrays.
- Messages.MessageSerializer.EntryCreated: no float arrays.
- Messages.MessageSerializer.EntryUpdated: no float arrays.
- Queue.MessageQueue.WriteMessage: no messages that carry float arrays.
- Queue.MessageQueue.Enqueue: no messages that carry float arrays.
- Codec.DecodedExactly: float arrays are read, but there is no encoding to compare the bytes with.
- Messages.ParsedExactly: likewise for float arrays, and for names of 255 bytes, which are read but refused by the writer.
- RingBuffer.CircularBuffer.ReadFrom: with the read position at 0 the second request asks for SIZE_MAX bytes; the model
  bounds the answer by the array.
- RingBuffer.CircularBuffer.Read: the bytes are returned as a sequence instead of being copied to a pointer.
- Handles.HandleTable.Next: the source reads the slot before it tests the bound (src/util/handles.h:59); here the test
  comes first.
- SocketIo.Socket.OnReadReady: the same bound on the second answer.
- ReplicationLaws.NextKeeps: the steps do not include writes that originate at a client, nor clock changes of a client that
  push the times of its entries beyond the server's.
- ReplicationLaws.ArriveKeeps: only such clock changes, likewise.
- Server.NetworkServer.OnMessage: entry messages from clients are not modelled.
- Server.NetworkClient.OnMessage: whether a time reply sets the clock, and to what, is a parameter.
- Convergence.Converged: nothing is said of a client to which a byte has been lost (`Losses.IntactIff`): what its parser
  makes of a stream with a gap is in `Framing`, but what its store makes of that is not.
- The field `upTo` of the message that ends the handshake is not on the wire; it records how many ids were assigned, for
  the statement about the handshake. The fields `told` of a connection and `since` and `got` of a listener are likewise
  there for the statements only.
- Deleting objects, which leaves the path index entry behind (src/instance.cpp:181-192).
- Among the listeners: the moment between reading the clock for a notice and queueing it, in which the source does not hold
  the lock; `destroy_listeners` and its filter; the condition variable and the shutdown of the thread. A
  listener is not destroyed while its callback runs; the source leaves that to its callers.
