/** The wire format of src/net/io.cpp: an eleven byte header followed by a payload. This module says what frames a
    byte stream contains, by a parser that sees the whole stream at once, and how that answer is pieced together
    from parts of the stream. */
module Framing {
  import opened Bytes
  import opened RingBuffer

  const MAGIC: byte := 0x29
  const VERSION: byte := 0x1
  const HEADER_SIZE := 11
  const MAX_MESSAGE := 1024

  datatype Header = Header(magic: byte, version: byte, index: uint32, kind: byte, size: uint32)

  datatype Frame = Frame(header: Header, payload: seq<byte>)

  function EncodeHeader(h: Header): (s: seq<byte>)
    ensures |s| == HEADER_SIZE
  {
    Widths();
    [h.magic, h.version] + BigEndian(4, h.index) + [h.kind] + BigEndian(4, h.size)
  }

  function DecodeHeader(s: seq<byte>): (h: Header)
    requires |s| == HEADER_SIZE
  {
    Widths();
    Header(s[0], s[1], FromBigEndian(s[2..6]), s[6], FromBigEndian(s[7..11]))
  }

  lemma HeaderRoundTrip(h: Header)
    ensures DecodeHeader(EncodeHeader(h)) == h
  {
    Widths();
    var s := EncodeHeader(h);
    assert s[2..6] == BigEndian(4, h.index) && s[7..11] == BigEndian(4, h.size);
    FromToBigEndian(4, h.index);
    FromToBigEndian(4, h.size);
  }

  lemma DecodedHeaderRoundTrip(s: seq<byte>)
    requires |s| == HEADER_SIZE
    ensures EncodeHeader(DecodeHeader(s)) == s
  {
    Widths();
    ToFromBigEndian(s[2..6]);
    ToFromBigEndian(s[7..11]);
    assert s == [s[0], s[1]] + s[2..6] + [s[6]] + s[7..11];
  }

  // ---------------------------------------------------------------- the one-pass parser

  /** Between two headers, or behind the header of a frame whose payload comes next. */
  datatype Phase = Seeking | Reading(header: Header)

  /** The frames found, and whether the stream ended in a header announcing more than `MAX_MESSAGE` bytes. */
  datatype Parsed = Parsed(frames: seq<Frame>, oversize: bool)

  function Prepend(fs: seq<Frame>, o: Parsed): Parsed {
    Parsed(fs + o.frames, o.oversize)
  }

  lemma PrependNothing(o: Parsed)
    ensures Prepend([], o) == o
  {
  }

  /** Parses all of `s`. A header with the wrong version is skipped whole; bytes before a magic byte are skipped; an
      incomplete frame at the end yields nothing. */
  function Parse(phase: Phase, s: seq<byte>): (o: Parsed)
    decreases |s|, if phase.Reading? then 1 else 0
  {
    match phase
    case Seeking =>
      var i := FirstIndex(s, MAGIC);
      if i + HEADER_SIZE > |s| then Parsed([], false)
      else
        var h := DecodeHeader(s[i..i + HEADER_SIZE]);
        Parse(if h.version == VERSION then Reading(h) else Seeking, s[i + HEADER_SIZE..])
    case Reading(h) =>
      if h.size > MAX_MESSAGE then Parsed([], true)
      else if h.size > |s| then Parsed([], false)
      else Prepend([Frame(h, s[..h.size])], Parse(Seeking, s[h.size..]))
  }

  lemma FirstIndexAfterJunk(junk: seq<byte>, s: seq<byte>)
    requires MAGIC !in junk
    ensures FirstIndex(junk + s, MAGIC) == |junk| + FirstIndex(s, MAGIC)
  {
    var i := FirstIndex(s, MAGIC);
    assert (junk + s)[..|junk| + i] == junk + s[..i];
    FirstIndexUnique(junk + s, MAGIC, |junk| + i);
  }

  /** Bytes without a magic byte in front of the stream change nothing, so it does not matter who drops them. */
  lemma JunkIsSkipped(junk: seq<byte>, s: seq<byte>)
    requires MAGIC !in junk
    ensures Parse(Seeking, junk + s) == Parse(Seeking, s)
  {
    hide DecodeHeader, FirstIndex, Prepend;
    FirstIndexAfterJunk(junk, s);
    var i, k := FirstIndex(s, MAGIC), |junk|;
    if i + HEADER_SIZE <= |s| {
      assert (junk + s)[k + i..k + i + HEADER_SIZE] == s[i..i + HEADER_SIZE];
      assert (junk + s)[k + i + HEADER_SIZE..] == s[i + HEADER_SIZE..];
    }
  }

  // ---------------------------------------------------------------- parsing in parts

  /** The bytes of the frames. */
  function Weight(fs: seq<Frame>): nat {
    if fs == [] then 0 else HEADER_SIZE + |fs[0].payload| + Weight(fs[1..])
  }

  lemma {:induction false} WeightConcat(fs: seq<Frame>, gs: seq<Frame>)
    ensures Weight(fs + gs) == Weight(fs) + Weight(gs)
  {
    if fs == [] {
      assert [] + gs == gs;
    } else {
      assert (fs + gs)[1..] == fs[1..] + gs;
      WeightConcat(fs[1..], gs);
    }
  }

  lemma WeightOne(f: Frame)
    ensures Weight([f]) == HEADER_SIZE + |f.payload|
  {
    assert [f][1..] == [];
  }

  /** The bytes already taken of the next frame. */
  function HeadTaken(phase: Phase): nat {
    if phase.Reading? then HEADER_SIZE else 0
  }

  /** Frames do not come from nowhere. */
  lemma {:induction false} FramesFit(phase: Phase, s: seq<byte>)
    ensures Weight(Parse(phase, s).frames) <= |s| + HeadTaken(phase)
    decreases |s|, if phase.Reading? then 1 else 0
  {
    hide DecodeHeader;
    match phase
    case Seeking =>
      var i := FirstIndex(s, MAGIC);
      if i + HEADER_SIZE <= |s| {
        var h := DecodeHeader(s[i..i + HEADER_SIZE]);
        FramesFit(if h.version == VERSION then Reading(h) else Seeking, s[i + HEADER_SIZE..]);
      }
    case Reading(h) =>
      if h.size <= MAX_MESSAGE && h.size <= |s| {
        FramesFit(Seeking, s[h.size..]);
        WeightOne(Frame(h, s[..h.size]));
        WeightConcat([Frame(h, s[..h.size])], Parse(Seeking, s[h.size..]).frames);
      }
  }

  /** Having `pending` bytes in `phase` amounts, whatever follows, to having found `fs` and being left with
      `pending'` in `phase'`; and the frames have been paid for with bytes. */
  ghost predicate Leads(phase: Phase, pending: seq<byte>, fs: seq<Frame>, phase': Phase, pending': seq<byte>) {
    && Weight(fs) + HeadTaken(phase') + |pending'| <= HeadTaken(phase) + |pending|
    && forall future: seq<byte> ::
         Parse(phase, pending + future) == Prepend(fs, Parse(phase', pending' + future))
  }

  /** Whatever follows, the next thing found is an oversize header. */
  ghost predicate Dead(phase: Phase, pending: seq<byte>) {
    forall future: seq<byte> :: Parse(phase, pending + future) == Parsed([], true)
  }

  /** Nothing can be found without more bytes. */
  ghost predicate Stuck(phase: Phase, pending: seq<byte>) {
    Parse(phase, pending) == Parsed([], false)
  }

  /** There is no whole header from the first magic byte on; so nothing can be found. */
  predicate Headless(s: seq<byte>)
    ensures Headless(s) ==> Stuck(Seeking, s)
  {
    FirstIndex(s, MAGIC) + HEADER_SIZE > |s|
  }

  lemma LeadsTrans(p: Phase, s: seq<byte>, fs: seq<Frame>, p': Phase, s': seq<byte>,
                   gs: seq<Frame>, p'': Phase, s'': seq<byte>)
    requires Leads(p, s, fs, p', s') && Leads(p', s', gs, p'', s'')
    ensures Leads(p, s, fs + gs, p'', s'')
  {
    hide Parse, Weight, HeadTaken;
    WeightConcat(fs, gs);
    forall future: seq<byte>
      ensures Parse(p, s + future) == Prepend(fs + gs, Parse(p'', s'' + future))
    {
      var o := Parse(p'', s'' + future);
      assert Parse(p', s' + future) == Prepend(gs, o);
      assert (fs + gs) + o.frames == fs + (gs + o.frames);
    }
  }

  lemma LeadsSilently(p: Phase, s: seq<byte>, p': Phase, s': seq<byte>, fs: seq<Frame>, p'': Phase, s'': seq<byte>)
    requires Leads(p, s, [], p', s') && Leads(p', s', fs, p'', s'')
    ensures Leads(p, s, fs, p'', s'')
  {
    LeadsTrans(p, s, [], p', s', fs, p'', s'');
    assert [] + fs == fs;
  }

  /** Bytes may arrive between two steps. */
  lemma LeadsFeed(p: Phase, s: seq<byte>, fs: seq<Frame>, p': Phase, s': seq<byte>, chunk: seq<byte>)
    requires Leads(p, s, fs, p', s')
    ensures Leads(p, s + chunk, fs, p', s' + chunk)
  {
    forall future: seq<byte>
      ensures Parse(p, s + chunk + future) == Prepend(fs, Parse(p', s' + chunk + future))
    {
      assert s + chunk + future == s + (chunk + future);
      assert s' + chunk + future == s' + (chunk + future);
    }
  }

  lemma LeadsSelf(p: Phase, s: seq<byte>)
    ensures Leads(p, s, [], p, s)
  {
  }

  /** What has been found so far is what the one-pass parser finds, when the rest yields nothing by itself. */
  lemma LeadsToEnd(p: Phase, s: seq<byte>, fs: seq<Frame>, p': Phase, s': seq<byte>)
    requires Leads(p, s, fs, p', s')
    ensures Parse(p, s) == Prepend(fs, Parse(p', s'))
  {
    assert s + [] == s && s' + [] == s';
  }

  lemma LeadsToDeath(p: Phase, s: seq<byte>, fs: seq<Frame>, p': Phase, s': seq<byte>)
    requires Leads(p, s, fs, p', s') && Dead(p', s')
    ensures forall future: seq<byte> :: Parse(p, s + future) == Parsed(fs, true)
  {
  }

  /** Dropping (or keeping) bytes in front of the first magic byte. */
  lemma LeadsPastJunk(junk: seq<byte>, s: seq<byte>)
    requires MAGIC !in junk
    ensures Leads(Seeking, junk + s, [], Seeking, s)
  {
    forall future: seq<byte>
      ensures Parse(Seeking, junk + s + future) == Prepend([], Parse(Seeking, s + future))
    {
      assert junk + s + future == junk + (s + future);
      JunkIsSkipped(junk, s + future);
      PrependNothing(Parse(Seeking, s + future));
    }
  }

  /** Taking a whole header that starts with the magic byte. */
  lemma LeadsPastHeader(head: seq<byte>, rest: seq<byte>)
    requires |head| == HEADER_SIZE && head[0] == MAGIC
    ensures
      var h := DecodeHeader(head);
      && h.magic == MAGIC
      && Leads(Seeking, head + rest, [], if h.version == VERSION then Reading(h) else Seeking, rest)
  {
    var h := DecodeHeader(head);
    var next := if h.version == VERSION then Reading(h) else Seeking;
    forall future: seq<byte>
      ensures Parse(Seeking, head + rest + future) == Prepend([], Parse(next, rest + future))
    {
      var t := head + rest + future;
      assert FirstIndex(t, MAGIC) == 0;
      assert t[0..HEADER_SIZE] == head;
      assert t[HEADER_SIZE..] == rest + future;
    }
  }

  /** A search for the magic byte that finds none may keep the bytes or drop them; nothing can come of them. */
  lemma FruitlessSearch(s: seq<byte>, kept: seq<byte>)
    requires MAGIC !in s && (kept == s || kept == [])
    ensures Leads(Seeking, s, [], Seeking, kept)
    ensures Headless(kept)
  {
    if kept == [] {
      LeadsPastJunk(s, []);
      assert s + [] == s;
    } else {
      LeadsSelf(Seeking, s);
    }
  }

  /** A search that finds the magic byte drops what comes before it. */
  lemma FruitfulSearch(s: seq<byte>)
    requires MAGIC in s
    ensures Leads(Seeking, s, [], Seeking, s[FirstIndex(s, MAGIC)..])
    ensures |s[FirstIndex(s, MAGIC)..]| < HEADER_SIZE ==> Headless(s[FirstIndex(s, MAGIC)..])
  {
    var i := FirstIndex(s, MAGIC);
    assert s == s[..i] + s[i..];
    LeadsPastJunk(s[..i], s[i..]);
  }

  lemma LeadsPastPayload(h: Header, s: seq<byte>)
    requires h.size <= MAX_MESSAGE && h.size <= |s|
    ensures Leads(Reading(h), s, [Frame(h, s[..h.size])], Seeking, s[h.size..])
  {
    forall future: seq<byte>
      ensures Parse(Reading(h), s + future) == Prepend([Frame(h, s[..h.size])], Parse(Seeking, s[h.size..] + future))
    {
      var t := s + future;
      assert t[..h.size] == s[..h.size];
      assert t[h.size..] == s[h.size..] + future;
    }
  }

  // ---------------------------------------------------------------- frames as sent

  predicate WellFormed(f: Frame) {
    && f.header.magic == MAGIC && f.header.version == VERSION
    && f.header.size == |f.payload| <= MAX_MESSAGE
  }

  function EncodeAll(fs: seq<Frame>): seq<byte> {
    if fs == [] then [] else EncodeHeader(fs[0].header) + fs[0].payload + EncodeAll(fs[1..])
  }

  lemma {:induction false} EncodeAllAppend(fs: seq<Frame>, f: Frame)
    ensures EncodeAll(fs + [f]) == EncodeAll(fs) + (EncodeHeader(f.header) + f.payload)
  {
    if fs == [] {
      assert EncodeAll([f]) == EncodeHeader(f.header) + f.payload + EncodeAll([]);
    } else {
      assert (fs + [f])[1..] == fs[1..] + [f];
      EncodeAllAppend(fs[1..], f);
    }
  }

  lemma ParseFrame(f: Frame, s: seq<byte>)
    requires WellFormed(f)
    ensures Parse(Seeking, EncodeHeader(f.header) + f.payload + s) == Prepend([f], Parse(Seeking, s))
  {
    var head := EncodeHeader(f.header);
    assert f.payload[..f.header.size] == f.payload && f.payload[f.header.size..] == [];
    HeaderRoundTrip(f.header);
    LeadsPastHeader(head, f.payload);
    LeadsPastPayload(f.header, f.payload);
    LeadsSilently(Seeking, head + f.payload, Reading(f.header), f.payload, [f], Seeking, []);
    assert [] + s == s;
  }

  /** A stream of well-formed frames is parsed back to exactly those frames, whatever their payloads contain. */
  lemma {:induction false} ParseEncoded(fs: seq<Frame>)
    requires forall f | f in fs :: WellFormed(f)
    ensures Parse(Seeking, EncodeAll(fs)) == Parsed(fs, false)
  {
    if fs == [] {
    } else {
      ParseFrame(fs[0], EncodeAll(fs[1..]));
      ParseEncoded(fs[1..]);
      assert [fs[0]] + fs[1..] == fs;
    }
  }

  /** Where the one-pass parser stands at the end of `s`. */
  function Residue(phase: Phase, s: seq<byte>): (Phase, seq<byte>)
    decreases |s|, if phase.Reading? then 1 else 0
  {
    match phase
    case Seeking =>
      var i := FirstIndex(s, MAGIC);
      if i + HEADER_SIZE > |s| then (Seeking, s[i..])
      else
        var h := DecodeHeader(s[i..i + HEADER_SIZE]);
        Residue(if h.version == VERSION then Reading(h) else Seeking, s[i + HEADER_SIZE..])
    case Reading(h) =>
      if h.size > MAX_MESSAGE || h.size > |s| then (phase, s) else Residue(Seeking, s[h.size..])
  }

  /** Parsing `s` first and whatever follows later finds the same frames as parsing it all at once. */
  ghost predicate Splits(phase: Phase, s: seq<byte>) {
    if Parse(phase, s).oversize
    then forall future: seq<byte> :: Parse(phase, s + future) == Parse(phase, s)
    else Leads(phase, s, Parse(phase, s).frames, Residue(phase, s).0, Residue(phase, s).1)
  }

  /** Cutting a stream anywhere makes no difference. */
  lemma {:induction false} ParseSplit(phase: Phase, s: seq<byte>)
    ensures Splits(phase, s)
    decreases |s|, if phase.Reading? then 1 else 0
  {
    match phase
    case Seeking =>
      var i := FirstIndex(s, MAGIC);
      if i + HEADER_SIZE <= |s| {
        var head, rest := s[i..i + HEADER_SIZE], s[i + HEADER_SIZE..];
        var h := DecodeHeader(head);
        var next := if h.version == VERSION then Reading(h) else Seeking;
        assert s == s[..i] + (head + rest);
        LeadsPastJunkAndHeader(s[..i], head, rest);
        ParseSplit(next, rest);
        ContinueSplit(Seeking, s, [], next, rest);
      } else {
        assert s == s[..i] + s[i..];
        LeadsPastJunk(s[..i], s[i..]);
      }
    case Reading(h) =>
      if h.size <= MAX_MESSAGE && h.size <= |s| {
        LeadsPastPayload(h, s);
        ParseSplit(Seeking, s[h.size..]);
        ContinueSplit(phase, s, [Frame(h, s[..h.size])], Seeking, s[h.size..]);
      }
  }

  lemma LeadsPastJunkAndHeader(junk: seq<byte>, head: seq<byte>, rest: seq<byte>)
    requires MAGIC !in junk && |head| == HEADER_SIZE && head[0] == MAGIC
    ensures
      var h := DecodeHeader(head);
      Leads(Seeking, junk + (head + rest), [], if h.version == VERSION then Reading(h) else Seeking, rest)
  {
    var h := DecodeHeader(head);
    var next := if h.version == VERSION then Reading(h) else Seeking;
    LeadsPastJunk(junk, head + rest);
    LeadsPastHeader(head, rest);
    LeadsSilently(Seeking, junk + (head + rest), Seeking, head + rest, [], next, rest);
  }

  lemma ContinueSplit(p: Phase, s: seq<byte>, fs: seq<Frame>, p': Phase, s': seq<byte>)
    requires Leads(p, s, fs, p', s') && Splits(p', s')
    requires Residue(p, s) == Residue(p', s')
    ensures Splits(p, s)
  {
    LeadsToEnd(p, s, fs, p', s');
    if !Parse(p', s').oversize {
      LeadsTrans(p, s, fs, p', s', Parse(p', s').frames, Residue(p', s').0, Residue(p', s').1);
    }
  }

  /** End to end: bytes that were received, are on the wire or still wait to be sent make up the sent frames. Then
      what was received parses to a prefix of the sent frames, never to anything else, and to all of them once
      nothing is on its way. */
  lemma ReceivedIsPrefix(sent: seq<Frame>, received: seq<byte>, onTheWay: seq<byte>)
    requires forall f | f in sent :: WellFormed(f)
    requires received + onTheWay == EncodeAll(sent)
    ensures !Parse(Seeking, received).oversize
    ensures Parse(Seeking, received).frames <= sent
    ensures onTheWay == [] ==> Parse(Seeking, received).frames == sent
  {
    ParseEncoded(sent);
    ParseSplit(Seeking, received);
    assert Splits(Seeking, received);
    assert Parse(Seeking, received + onTheWay) == Parsed(sent, false);
    if onTheWay == [] {
      assert received + onTheWay == received;
    }
  }

  // ---------------------------------------------------------------- what the reader holds

  lemma {:induction false} EncodedWeight(fs: seq<Frame>)
    ensures |EncodeAll(fs)| == Weight(fs)
  {
    if fs != [] {
      EncodedWeight(fs[1..]);
    }
  }

  lemma EncodeAllTake(fs: seq<Frame>, k: nat)
    requires k <= |fs|
    ensures EncodeAll(fs) == EncodeAll(fs[..k]) + EncodeAll(fs[k..])
    decreases k
  {
    if k == 0 {
      assert fs[0..] == fs;
    } else {
      assert fs[..k][1..] == fs[1..][..k - 1] && fs[1..][k - 1..] == fs[k..];
      EncodeAllTake(fs[1..], k - 1);
    }
  }

  /** A reader that has been given `arrived`, the first bytes of these frames, has handed on all that are complete, and
      holds all bytes of the next one but those of its header, once that is complete. */
  lemma HoldsTheRest(sent: seq<Frame>, arrived: seq<byte>, onTheWay: seq<byte>, fs: seq<Frame>,
                     phase: Phase, pending: seq<byte>)
    requires (forall f | f in sent :: WellFormed(f)) && arrived + onTheWay == EncodeAll(sent)
    requires Leads(Seeking, arrived, fs, phase, pending) && Stuck(phase, pending)
    requires phase == Seeking ==> Headless(pending)
    ensures fs <= sent && Weight(fs) <= |arrived|
    ensures fs < sent ==> |arrived| - Weight(fs) < HEADER_SIZE + |sent[|fs|].payload|
    ensures
      var got := |arrived| - Weight(fs);
      |pending| == if got < HEADER_SIZE then got else got - HEADER_SIZE
  {
    hide Parse, Leads, EncodeAll, Headless, Weight, Stuck, WellFormed, Prepend, HeadTaken;
    HandedOn(sent, arrived, onTheWay, fs, phase, pending);
    Paid(arrived, fs, phase, pending);
    if fs < sent {
      NextPart(sent, arrived, onTheWay, fs, phase, pending);
    } else {
      assert fs == sent;
      EncodedWeight(sent);
      assert |arrived + onTheWay| == Weight(fs);
    }
    Waiting(phase, |arrived| - Weight(fs), |pending|);
  }

  lemma Waiting(phase: Phase, got: int, pending: nat)
    requires got == HeadTaken(phase) + pending && (phase == Seeking ==> got < HEADER_SIZE)
    ensures pending == if got < HEADER_SIZE then got else got - HEADER_SIZE
  {
  }

  /** How much of the next frame has arrived, and of that is waiting. */
  lemma NextPart(sent: seq<Frame>, arrived: seq<byte>, onTheWay: seq<byte>, fs: seq<Frame>, phase: Phase,
                 pending: seq<byte>)
    requires (forall f | f in sent :: WellFormed(f)) && arrived + onTheWay == EncodeAll(sent)
    requires fs < sent && Parse(Seeking, arrived) == Parsed(fs, false) && Leads(Seeking, arrived, fs, phase, pending)
    requires phase == Seeking ==> Headless(pending)
    ensures |arrived| - Weight(fs) < HEADER_SIZE + |sent[|fs|].payload|
    ensures |arrived| - Weight(fs) <= HeadTaken(phase) + |pending|
    ensures phase == Seeking ==> |arrived| - Weight(fs) < HEADER_SIZE
  {
    hide Parse, Leads, EncodeAll, Headless, Weight, WellFormed, HeadTaken;
    var need := NextNeeds(sent, arrived, onTheWay, fs);
    WeightOne(sent[|fs|]);
    NextFound(sent, arrived, fs, need, phase, pending);
    FramesFit(phase, pending + need);
    if phase == Seeking {
      NoHeaderYet(pending, need);
    }
  }

  lemma HandedOn(sent: seq<Frame>, arrived: seq<byte>, onTheWay: seq<byte>, fs: seq<Frame>, phase: Phase,
                 pending: seq<byte>)
    requires (forall f | f in sent :: WellFormed(f)) && arrived + onTheWay == EncodeAll(sent)
    requires Leads(Seeking, arrived, fs, phase, pending) && Stuck(phase, pending)
    ensures fs <= sent && Parse(Seeking, arrived) == Parsed(fs, false)
  {
    hide Parse, Leads, EncodeAll;
    LeadsToEnd(Seeking, arrived, fs, phase, pending);
    assert fs + [] == fs;
    ReceivedIsPrefix(sent, arrived, onTheWay);
  }

  /** The bytes that are missing from the next frame; it is not complete, since it would have been found. */
  lemma NextNeeds(sent: seq<Frame>, arrived: seq<byte>, onTheWay: seq<byte>, fs: seq<Frame>) returns (need: seq<byte>)
    requires (forall f | f in sent :: WellFormed(f)) && arrived + onTheWay == EncodeAll(sent)
    requires fs < sent && Parse(Seeking, arrived) == Parsed(fs, false)
    ensures need != [] && arrived + need == EncodeAll(sent[..|fs| + 1])
    ensures |arrived| + |need| == Weight(fs) + Weight([sent[|fs|]])
  {
    hide Parse, EncodeAll, Weight, Leads, Residue;
    var next := sent[..|fs| + 1];
    var all := EncodeAll(next);
    assert next == fs + [sent[|fs|]];
    WeightConcat(fs, [sent[|fs|]]);
    EncodedWeight(next);
    EncodeAllTake(sent, |fs| + 1);
    if |arrived| >= |all| {
      var rest := arrived[|all|..];
      assert arrived == (arrived + onTheWay)[..|arrived|];
      assert arrived == all + rest;
      ParseEncoded(next);
      ParseSplit(Seeking, all);
      FoundBefore(all, next, rest);
    }
    need := all[|arrived|..];
    assert arrived == (arrived + onTheWay)[..|arrived|] == all[..|arrived|];
  }

  lemma FoundBefore(s: seq<byte>, fs: seq<Frame>, rest: seq<byte>)
    requires Splits(Seeking, s) && Parse(Seeking, s) == Parsed(fs, false)
    ensures |Parse(Seeking, s + rest).frames| >= |fs|
  {
    hide Parse, Weight;
  }

  lemma NextFound(sent: seq<Frame>, arrived: seq<byte>, fs: seq<Frame>, need: seq<byte>, phase: Phase,
                  pending: seq<byte>)
    requires fs < sent && (forall f | f in sent :: WellFormed(f)) && arrived + need == EncodeAll(sent[..|fs| + 1])
    requires Leads(Seeking, arrived, fs, phase, pending)
    ensures Parse(phase, pending + need).frames == [sent[|fs|]]
  {
    hide Parse, EncodeAll, Weight;
    var next := sent[..|fs| + 1];
    ParseEncoded(next);
    assert Parse(Seeking, arrived + need) == Prepend(fs, Parse(phase, pending + need));
    assert next == fs + [sent[|fs|]];
    var found := Parse(phase, pending + need).frames;
    assert found == (fs + found)[|fs|..] == next[|fs|..];
  }

  /** Before a header is complete less than eleven bytes of it are there. */
  lemma NoHeaderYet(pending: seq<byte>, need: seq<byte>)
    requires Headless(pending)
    ensures Weight(Parse(Seeking, pending + need).frames) < HEADER_SIZE + |need|
  {
    hide Parse;
    var i := FirstIndex(pending, MAGIC);
    var junk, t := pending[..i], pending[i..];
    assert pending + need == junk + (t + need);
    JunkIsSkipped(junk, t + need);
    FramesFit(Seeking, t + need);
  }

  lemma Paid(arrived: seq<byte>, fs: seq<Frame>, phase: Phase, pending: seq<byte>)
    requires Leads(Seeking, arrived, fs, phase, pending)
    ensures Weight(fs) + HeadTaken(phase) + |pending| <= |arrived|
  {
  }
}
