/** When a client can get to show what the server shows. Two things can be in the way: a message that cannot be written
    stays in line for ever, with all behind it; and a line that does not fit into the ring may be lost or end the
    connection. */
module Progress {
  import opened Wrappers
  import opened Bytes
  import opened Codec
  import opened Store
  import opened Links
  import opened Replication
  import opened PipeLaws
  import opened ReplicationLaws
  import opened TimerLaws
  import opened Losses
  import opened Wires
  import opened Convergence
  import opened CallRules

  // ---------------------------------------------------------------- a queue that is stuck

  lemma {:induction false} GreetFromAppends(net: Net, p: Peer, id: nat)
    ensures p.queue <= GreetFrom(net, p, id).queue
    decreases U16 - id
  {
    if id < U16 {
      GreetFromAppends(net, GreetId(net, p, id), id + 1);
    }
  }

  lemma {:induction false} ProcessAppends(net: Net, h: Handle, c: ClientId)
    requires c in net.peers
    ensures
      var net' := ProcessFrom(net, h);
      c in net'.peers && net.peers[c].queue <= net'.peers[c].queue
    decreases CAPACITY - h
  {
    if h < CAPACITY && h < |net.store.entries| {
      if net.store.entries[h].dirty {
        ToldPeers(net, h);
        hide ProcessEntry;
        ProcessAppends(ProcessEntry(net, h), h + 1, c);
      } else {
        ProcessAppends(net, h + 1, c);
      }
    }
  }

  lemma {:induction false} FlushKeepsBlocked(p: Peer, i: nat) returns (j: nat)
    requires i < |p.queue| && !Sendable(p.queue[i])
    ensures j < |Flush(p).queue| && Flush(p).queue[j..] == p.queue[i..]
    decreases |p.queue|
  {
    hide Sendable, BodySize;
    j := i;
    if Sendable(p.queue[0]) && Judge(p.link.start, p.link.held, BodySize(p.queue[0])) in {Taken, Filled} {
      var next := HandOver(p, 1).(link := AfterWrite(p.link, BodySize(p.queue[0])));
      assert next.queue[i - 1..] == p.queue[i..] && next.queue[i - 1] == p.queue[i];
      j := FlushKeepsBlocked(next, i - 1);
    }
  }

  /** The line has come to end like this. */
  ghost predicate EndsWith(net: Net, c: ClientId, j: nat, line: seq<Msg>) {
    c in net.peers ==> j < |net.peers[c].queue| && line <= net.peers[c].queue[j..]
  }

  /** What stands in line from a message on that cannot be sent stays in line, through every step. */
  lemma StepKeepsBlocked(net: Net, s: Step, c: ClientId, i: nat) returns (j: nat)
    requires c in net.peers && i < |net.peers[c].queue| && !Sendable(net.peers[c].queue[i]) && s != Connect(c)
    ensures EndsWith(Next(net, s), c, j, net.peers[c].queue[i..])
  {
    hide Next, AfterStep, Sendable;
    j := i;
    if s.Process? {
      j := TimerKeepsBlocked(net, c, i);
    } else if Connection(s) && s.c == c {
      j := AfterStepKeepsBlocked(net, net.peers[c], s, i);
      ConnectionNext(net, s);
    } else {
      OtherPeersStay(net, s, c);
    }
  }

  /** The steps about one connection that stands. */
  predicate Connection(s: Step) {
    !LocalStep(s) && !s.Tick? && !s.Process? && !s.Connect?
  }

  lemma ConnectionNext(net: Net, s: Step)
    requires Connection(s) && s.c in net.peers
    ensures
      var p' := AfterStep(net, net.peers[s.c], s);
      s.c in Next(net, s).peers ==> Next(net, s).peers[s.c] == p'
  {
    hide AfterStep;
  }

  lemma OtherPeersStay(net: Net, s: Step, c: ClientId)
    requires c in net.peers && !s.Process? && (Connection(s) ==> s.c != c) && s != Connect(c)
    ensures c in Next(net, s).peers && Next(net, s).peers[c] == net.peers[c]
  {
    hide Apply, AfterStep;
  }

  lemma AfterStepKeepsBlocked(net: Net, p: Peer, s: Step, i: nat) returns (j: nat)
    requires i < |p.queue|
    ensures
      var q := AfterStep(net, p, s).queue;
      j < |q| && p.queue[i..] <= q[j..]
  {
    hide GreetFrom, Sendable, Handled, Post;
    j := i;
    match s
    case AnswerReady(_) => GreetFromAppends(net, Popped(p), 0);
    case AnswerTime(_) => j := PostKeepsBlocked(Popped(p), i);
    case Consume(_, resync) => if Complete(p) { HandledIs(p, resync); }
    case _ =>
  }

  lemma TimerKeepsBlocked(net: Net, c: ClientId, i: nat) returns (j: nat)
    requires c in net.peers && i < |net.peers[c].queue| && !Sendable(net.peers[c].queue[i])
    ensures EndsWith(Next(net, Process), c, j, net.peers[c].queue[i..])
  {
    hide ProcessFrom, Flush, Sendable;
    ProcessAppends(net, 0, c);
    var p, p1 := net.peers[c], ProcessFrom(net, 0).peers[c];
    assert p1.queue[i] == p.queue[i] && p.queue[i..] <= p1.queue[i..];
    j := FlushKeepsBlocked(p1, i);
  }

  lemma PostKeepsBlocked(p: Peer, i: nat) returns (j: nat)
    requires i < |p.queue|
    ensures j < |Post(p).queue| && Post(p).queue[j..] == p.queue[i..]
  {
    assert ([TimeReply] + p.queue)[i + 1..] == p.queue[i..];
    j := if Post(p).queue == p.queue then i else i + 1;
  }

  lemma StepStaysGone(net: Net, s: Step, c: ClientId)
    requires c !in net.peers && s != Connect(c)
    ensures c !in Next(net, s).peers
  {
    hide Apply, ProcessFrom, AfterStep;
    ProcessKeepsLinks(net, 0);
  }

  lemma {:induction false} StaysGone(start: Net, steps: seq<Step>, net: Net, c: ClientId)
    requires Reaches(start, steps, net) && c !in start.peers && Connect(c) !in steps
    ensures c !in net.peers
    decreases |steps|
  {
    hide Next, Enabled;
    if steps != [] {
      StepStaysGone(start, steps[0], c);
      StaysGone(Next(start, steps[0]), steps[1..], net, c);
    }
  }

  /** A message that cannot be sent, and everything behind it, never leaves the queue, whatever happens, as long as the
      connection stands. */
  lemma {:induction false} BlockedForEver(start: Net, steps: seq<Step>, net: Net, c: ClientId, i: nat) returns (j: nat)
    requires Reaches(start, steps, net) && Connect(c) !in steps
    requires c in start.peers && i < |start.peers[c].queue| && !Sendable(start.peers[c].queue[i])
    ensures EndsWith(net, c, j, start.peers[c].queue[i..])
    decreases |steps|
  {
    j := i;
    if steps != [] {
      hide Enabled, Next, Sendable;
      var next := Next(start, steps[0]);
      var k := StepKeepsBlocked(start, steps[0], c, i);
      if c in next.peers {
        var q, q' := start.peers[c].queue, next.peers[c].queue;
        assert q'[k] == q'[k..][0] == q[i..][0] == q[i];
        j := BlockedForEver(next, steps[1..], net, c, k);
      } else {
        StaysGone(next, steps[1..], net, c);
      }
    }
  }

  // ---------------------------------------------------------------- what can be sent

  /** What is to be told about the entry can be sent to the client: its path if the client does not know it, and its
      value if it has one. */
  ghost predicate Tellable(p: Peer, e: Entry) {
    && (Known(e, p.published) || |e.path| < SIZE_LIMIT)
    && (e.deleted || Fits(e.value))
  }

  ghost predicate AllSendable(line: seq<Msg>) {
    forall m | m in line :: Sendable(m)
  }

  lemma SendableConcat(a: seq<Msg>, b: seq<Msg>)
    ensures AllSendable(a + b) <==> AllSendable(a) && AllSendable(b)
  {
    hide Sendable;
    if AllSendable(a + b) {
      assert forall m | m in a :: m in a + b;
      assert forall m | m in b :: m in a + b;
    }
  }

  lemma DueSendable(p: Peer, e: Entry, next: EntryId, now: int)
    ensures AllSendable(Due(e, p.published, next, now)) <==> Tellable(p, e)
  {
    hide Fits;
    var due := Due(e, p.published, next, now);
    assert due[|due| - 1] in due && due[0] in due;
  }

  lemma {:induction false} DueFromSendable(p: Peer, es: seq<Entry>, h: nat, next: EntryId, now: int)
    ensures AllSendable(DueFrom(es, p.published, h, next, now))
            <==> forall k | h <= k < |es| && es[k].dirty :: Tellable(p, es[k])
    decreases |es| - h
  {
    hide AllSendable, Due, Tellable, DueFrom;
    DueStep(es, p.published, h, next, now);
    if h < |es| {
      var next' := if es[h].dirty && es[h].netId == ID_NOT_ASSIGNED then (next + 1) % U16 else next;
      DueFromSendable(p, es, h + 1, next', now);
      if es[h].dirty {
        DueSendable(p, es[h], next, now);
        SendableConcat(Due(es[h], p.published, next, now), DueFrom(es, p.published, h + 1, next', now));
      }
    } else {
      NoneSendable();
    }
  }

  lemma NoneSendable()
    ensures AllSendable([])
  {
  }

  /** All that the timer hands over can be sent if and only if what is in line can, the values of all dirty entries, and
      the paths of those the client does not know. */
  lemma LineSendableIff(net: Net, p: Peer)
    ensures AllSendable(Line(net, p))
            <==> AllSendable(p.queue)
                 && forall k | 0 <= k < |net.store.entries| && net.store.entries[k].dirty :: Tellable(p, net.store.entries[k])
  {
    hide AllSendable, DueFrom, Tellable;
    var es := net.store.entries;
    SendableConcat(p.queue, DueFrom(es, p.published, 0, net.nextId, net.now));
    DueFromSendable(p, es, 0, net.nextId, net.now);
  }
}
