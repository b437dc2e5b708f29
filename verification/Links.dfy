/** The way from the server's socket to a client's, by the numbers alone: what `socket_io::write` (src/net/io.cpp) makes of
    a message, given how full the write ring is and from where, and how much has arrived. `SocketIo.Socket.Write` is proved
    against it. */
module Links {
  /** The rings have 1024 cells, and every frame a header of eleven bytes. */
  const RING := 1024
  const HEADER := 11

  /** The message is taken whole; or refused, and nothing has happened; or cut off behind its header, and the connection
      is stopped; or taken, but filling the ring, which then counts as empty, so that bytes are lost. */
  datatype Verdict = Taken | Refused | Cut | Filled

  /** `held` bytes wait from position `start` on. While they are in one piece the guard looks at the size of the ring
      only, and header and body are left to find out for themselves whether there is room. */
  function Judge(start: nat, held: nat, body: nat): Verdict {
    var room := if start + held < RING then RING else RING - held;
    if HEADER + body > room || held + HEADER > RING then Refused
    else if held + HEADER == RING then Filled
    else if held + HEADER + body > RING then Cut
    else if held + HEADER + body == RING then Filled
    else Taken
  }

  /** How many bytes wait afterwards. When the header alone fills the ring, the body is written into the empty ring. */
  function HeldAfter(start: nat, held: nat, body: nat): nat {
    match Judge(start, held, body)
    case Taken => held + HEADER + body
    case Refused => held
    case Cut => held + HEADER
    case Filled => if held + HEADER == RING then body else 0
  }

  /** Nothing is lost exactly when the message leaves a byte free, or is refused. */
  lemma LosesNothingIff(start: nat, held: nat, body: nat)
    ensures Judge(start, held, body) == Taken
            <==> held + HEADER + body < RING
    ensures Judge(start, held, body) == Refused
            <==> held + HEADER > RING || (start + held >= RING && held + HEADER + body > RING) || HEADER + body > RING
  {
  }

  /** No byte has been lost; or some have, so that what arrives makes no sense any more; or the connection is over. */
  datatype Health = Whole | Lossy | CutOff

  /** `held` bytes wait in the server's ring from position `start` on; `got` bytes of the messages on their way have
      arrived at the client, the first of them at position `at` of its ring. The rest of them is on the wire. */
  datatype Link = Link(status: Health, start: nat, held: nat, got: nat, at: nat)

  const New := Link(Whole, 0, 0, 0, 0)

  function AfterWrite(l: Link, body: nat): (l': Link)
    ensures l'.status == l.status <==>
              match Judge(l.start, l.held, body)
              case Cut => l.status == CutOff
              case Filled => l.status == Lossy
              case _ => true
  {
    var status := match Judge(l.start, l.held, body)
                  case Cut => CutOff
                  case Filled => Lossy
                  case _ => l.status;
    l.(status := status, held := HeldAfter(l.start, l.held, body))
  }

  /** What waits in the client's ring of the `got` bytes: a complete header has been taken out of it. */
  function Pending(got: nat): nat {
    if got < HEADER then got else got - HEADER
  }

  /** The cell of the ring that comes after so many. */
  function Place(n: nat): (i: nat)
    ensures i < RING
  {
    n % RING
  }

  lemma PlaceAdd(n: nat, m: nat)
    ensures Place(Place(n) + m) == Place(n + m)
  {
  }

  /** Where it waits. */
  function ReadPos(at: nat, got: nat): nat {
    if got < HEADER then at else Place(at + HEADER)
  }

  /** The client's ring asks for as many bytes as would fill it only when what waits goes around its end, or when it is
      read from position 0; otherwise for one byte less. */
  predicate MayFill(at: nat, got: nat) {
    ReadPos(at, got) == 0 || ReadPos(at, got) + Pending(got) >= RING
  }

  /** So many bytes can arrive at once. From position 0 on there is no limit (see `CircularBuffer.ReadFrom`). */
  predicate CanArrive(l: Link, n: nat) {
    || Pending(l.got) + n < RING
    || (MayFill(l.at, l.got) && (ReadPos(l.at, l.got) == 0 || Pending(l.got) + n == RING))
  }
}
