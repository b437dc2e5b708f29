/** The delivery of notifications in src/storage/listener_storage.cpp. The delivering thread gives up its lock around
    every callback, so other threads may notify, create and destroy listeners between any two calls; each of these is
    one step here, and so is each thing the delivering thread does while it holds the lock. A callback together with the
    test of its filter is one step too, although the source reads the two times for that test without the lock; so are
    reading the clock for a notice and queueing it. Setting the clock and adjusting the recorded times to it are two. */
module Listeners {
  import opened Handles
  import Store

  const MAX_LISTENERS := 16

  datatype Notice = Notice(time: int, path: Store.Path)

  /** A registered listener. `since` and `got` are there for the statements: the number of the first notice it can be
      called with, and the numbers of those it has been called with, in that order. */
  datatype Listener = Listener(prefix: Store.Path, created: int, since: nat, got: seq<nat>)

  /** What the delivering thread is about: nothing, or the first pending notice, having come to the listener in slot
      `at` and called it or not. */
  datatype Cursor = Idle | At(at: nat, called: bool)

  /** The clock of src/util/time.cpp: the system's time, and the offset that was set last. */
  datatype Clock = Clock(local: int, offset: int)
  {
    function Now(): int {
      local - offset
    }
  }

  /** All notices so far, of which the first `done` have been delivered; the others are pending. */
  datatype State = State(notices: seq<Notice>, done: nat, slots: seq<Slot<Listener>>, cursor: Cursor, clock: Clock)

  const Start := State([], 0, seq(MAX_LISTENERS, _ => Free), Idle, Clock(0, 0))

  // ---------------------------------------------------------------- the steps

  /** The filter of `listener_data::invoke`. */
  predicate Passes(l: Listener, n: Notice) {
    n.time >= l.created && Store.Contains(n.path, l.prefix)
  }

  /** The next taken slot from `from` on, or the number of slots. */
  function NextTaken(slots: seq<Slot<Listener>>, from: nat): (i: nat)
    requires from <= |slots|
    ensures from <= i <= |slots|
    ensures i < |slots| ==> slots[i].Taken?
    ensures forall j | from <= j < i :: slots[j].Free?
    decreases |slots| - from
  {
    if from == |slots| || slots[from].Taken? then from else NextTaken(slots, from + 1)
  }

  function FirstFree(slots: seq<Slot<Listener>>): (i: nat)
    ensures i <= |slots|
    ensures i < |slots| ==> slots[i].Free?
    ensures forall j | 0 <= j < i :: slots[j].Taken?
  {
    if slots == [] || slots[0].Free? then 0 else 1 + FirstFree(slots[1..])
  }

  datatype Step =
    | Tick(local: int)
    | Sync(offset: int)
    | Notify(path: Store.Path)
    | Create(prefix: Store.Path)
    | Destroy(slot: nat)
    | Resync
    | Begin
    | Call
    | Advance

  /** A listener is not destroyed while its callback runs. */
  predicate Enabled(s: State, step: Step) {
    match step
    case Tick(_) => true
    case Sync(_) => true
    case Notify(_) => true
    case Create(_) => FirstFree(s.slots) < |s.slots|
    case Destroy(slot) => slot < |s.slots| && s.slots[slot].Taken? && (s.cursor.At? ==> s.cursor.at != slot)
    case Resync => true
    case Begin => s.cursor.Idle? && s.done < |s.notices|
    case Call => s.cursor.At? && !s.cursor.called
    case Advance => s.cursor.At? && s.cursor.called
  }

  function ShiftNotice(n: Notice, offset: int): Notice {
    n.(time := n.time - offset)
  }

  function ShiftSlot(slot: Slot<Listener>, offset: int): Slot<Listener> {
    match slot
    case Free => Free
    case Taken(l) => Taken(l.(created := l.created - offset))
  }

  /** Where the thread goes: to the next taken slot from `from` on, or on to the next notice. */
  function MoveTo(s: State, from: nat): State
    requires from <= |s.slots|
  {
    var at := NextTaken(s.slots, from);
    if at < |s.slots| then s.(cursor := At(at, false)) else s.(cursor := Idle, done := s.done + 1)
  }

  function Next(s: State, step: Step): State
    requires Enabled(s, step) && Inv(s)
  {
    match step
    case Tick(local) => s.(clock := s.clock.(local := local))
    case Sync(offset) => s.(clock := s.clock.(offset := offset))
    case Notify(path) => s.(notices := s.notices + [Notice(s.clock.Now(), path)])
    case Create(prefix) =>
      var slot := FirstFree(s.slots);
      // A listener put behind the one the thread has come to is still reached with the current notice.
      var since := if s.cursor.At? && slot < s.cursor.at then s.done + 1 else s.done;
      s.(slots := s.slots[slot := Taken(Listener(prefix, s.clock.Now(), since, []))])
    case Destroy(slot) => s.(slots := s.slots[slot := Free])
    case Resync =>
      var offset := s.clock.offset;
      // Delivered notices no longer exist; shifting them too keeps what is said about them comparable.
      s.(notices := seq(|s.notices|, i requires 0 <= i < |s.notices| => ShiftNotice(s.notices[i], offset)),
         slots := seq(|s.slots|, i requires 0 <= i < |s.slots| => ShiftSlot(s.slots[i], offset)))
    case Begin => MoveTo(s, 0)
    case Call =>
      var l := s.slots[s.cursor.at].data;
      var l' := if Passes(l, s.notices[s.done]) then l.(got := l.got + [s.done]) else l;
      s.(slots := s.slots[s.cursor.at := Taken(l')], cursor := At(s.cursor.at, true))
    case Advance => MoveTo(s, s.cursor.at + 1)
  }

  // ---------------------------------------------------------------- what every state keeps

  /** The numbers, from `lo` up to `hi`, of the notices that pass a listener's filter. */
  function Selected(notices: seq<Notice>, l: Listener, lo: nat, hi: nat): seq<nat>
    requires hi <= |notices|
  {
    if hi <= lo then []
    else Selected(notices, l, lo, hi - 1) + if Passes(l, notices[hi - 1]) then [hi - 1] else []
  }

  /** How many notices the listener in slot `i` has been considered for. */
  function Considered(s: State, i: nat): nat {
    if s.cursor.At? && (i < s.cursor.at || (i == s.cursor.at && s.cursor.called)) then s.done + 1 else s.done
  }

  ghost predicate Inv(s: State) {
    && |s.slots| == MAX_LISTENERS && s.done <= |s.notices|
    && (s.cursor.At? ==> s.done < |s.notices| && s.cursor.at < |s.slots| && s.slots[s.cursor.at].Taken?)
    && (forall i | 0 <= i < |s.slots| && s.slots[i].Taken? ::
          && s.slots[i].data.since <= Considered(s, i)
          && s.slots[i].data.got == Selected(s.notices, s.slots[i].data, s.slots[i].data.since, Considered(s, i)))
  }

  lemma {:induction false} SelectedAlike(a: seq<Notice>, b: seq<Notice>, l: Listener, m: Listener, lo: nat, hi: nat)
    requires hi <= |a| && hi <= |b|
    requires forall i | lo <= i < hi :: Passes(l, a[i]) == Passes(m, b[i])
    ensures Selected(a, l, lo, hi) == Selected(b, m, lo, hi)
    decreases hi
  {
    if hi > lo {
      SelectedAlike(a, b, l, m, lo, hi - 1);
    }
  }

  /** A resync shifts both sides of the comparison: no decision changes. */
  lemma ShiftKeepsDecision(l: Listener, n: Notice, offset: int)
    ensures Passes(ShiftSlot(Taken(l), offset).data, ShiftNotice(n, offset)) == Passes(l, n)
  {
  }

  lemma MoveKeeps(s: State, from: nat)
    requires |s.slots| == MAX_LISTENERS && s.done < |s.notices| && from <= |s.slots|
    requires forall i | 0 <= i < |s.slots| && s.slots[i].Taken? ::
               && s.slots[i].data.since <= (if i < from then s.done + 1 else s.done)
               && s.slots[i].data.got == Selected(s.notices, s.slots[i].data, s.slots[i].data.since,
                                                  if i < from then s.done + 1 else s.done)
    ensures Inv(MoveTo(s, from))
  {
    var at := NextTaken(s.slots, from);
    assert forall i | from <= i < at :: s.slots[i].Free?;
  }

  lemma NextKeeps(s: State, step: Step)
    requires Inv(s) && Enabled(s, step)
    ensures Inv(Next(s, step))
  {
    match step
    case Tick(_) => ClockKeeps(s, step);
    case Sync(_) => ClockKeeps(s, step);
    case Notify(path) => NotifyKeeps(s, path);
    case Create(prefix) => CreateKeeps(s, prefix);
    case Destroy(slot) => DestroyKeeps(s, slot);
    case Resync => ResyncKeeps(s);
    case Begin => MoveKeeps(s, 0);
    case Call => CallKeeps(s);
    case Advance => MoveKeeps(s, s.cursor.at + 1);
  }

  lemma ClockKeeps(s: State, step: Step)
    requires Inv(s) && (step.Tick? || step.Sync?)
    ensures Inv(Next(s, step))
  {
  }

  lemma CreateKeeps(s: State, prefix: Store.Path)
    requires Inv(s) && Enabled(s, Create(prefix))
    ensures Inv(Next(s, Create(prefix)))
  {
  }

  lemma DestroyKeeps(s: State, slot: nat)
    requires Inv(s) && Enabled(s, Destroy(slot))
    ensures Inv(Next(s, Destroy(slot)))
  {
  }

  lemma NotifyKeeps(s: State, path: Store.Path)
    requires Inv(s)
    ensures Inv(Next(s, Notify(path)))
  {
    hide Passes;
    var s' := Next(s, Notify(path));
    forall i | 0 <= i < |s.slots| && s.slots[i].Taken?
      ensures s'.slots[i].data.got == Selected(s'.notices, s'.slots[i].data, s'.slots[i].data.since, Considered(s', i))
    {
      var l := s.slots[i].data;
      SelectedAlike(s.notices, s'.notices, l, l, l.since, Considered(s, i));
    }
  }

  lemma ResyncKeeps(s: State)
    requires Inv(s)
    ensures Inv(Next(s, Resync))
  {
    var s' := Next(s, Resync);
    forall i | 0 <= i < |s.slots| && s.slots[i].Taken?
      ensures s'.slots[i].data.got == Selected(s'.notices, s'.slots[i].data, s'.slots[i].data.since, Considered(s', i))
    {
      var l := s.slots[i].data;
      forall k | 0 <= k < |s.notices| ensures Passes(l, s.notices[k]) == Passes(s'.slots[i].data, s'.notices[k]) {
        ShiftKeepsDecision(l, s.notices[k], s.clock.offset);
      }
      SelectedAlike(s.notices, s'.notices, l, s'.slots[i].data, l.since, Considered(s, i));
    }
  }

  lemma CallKeeps(s: State)
    requires Inv(s) && Enabled(s, Call)
    ensures Inv(Next(s, Call))
  {
    var s' := Next(s, Call);
    var at := s.cursor.at;
    var l, l' := s.slots[at].data, s'.slots[at].data;
    SelectedAlike(s.notices, s'.notices, l, l', l.since, s.done);
  }

  // ---------------------------------------------------------------- runs

  /** `s` is reached from `from` by enabled steps. */
  ghost predicate Reaches(from: State, steps: seq<Step>, s: State)
    requires Inv(from)
    decreases |steps|
  {
    if steps == [] then s == from
    else
      Enabled(from, steps[0])
      && (NextKeeps(from, steps[0]); Reaches(Next(from, steps[0]), steps[1..], s))
  }

  lemma {:induction false} ReachesKeeps(from: State, steps: seq<Step>, s: State)
    requires Inv(from) && Reaches(from, steps, s)
    ensures Inv(s)
    decreases |steps|
  {
    if steps == [] {
    } else {
      NextKeeps(from, steps[0]);
      ReachesKeeps(Next(from, steps[0]), steps[1..], s);
    }
  }

  lemma {:induction false} SelectedIs(notices: seq<Notice>, l: Listener, lo: nat, hi: nat)
    requires hi <= |notices|
    ensures forall i, j | 0 <= i < j < |Selected(notices, l, lo, hi)| ::
              Selected(notices, l, lo, hi)[i] < Selected(notices, l, lo, hi)[j]
    ensures forall k: nat :: k in Selected(notices, l, lo, hi) <==> lo <= k < hi && Passes(l, notices[k])
    decreases hi
  {
    if hi > lo {
      var init := Selected(notices, l, lo, hi - 1);
      SelectedIs(notices, l, lo, hi - 1);
      assert forall i | 0 <= i < |init| :: init[i] in init;
    }
  }

  /** In every reachable state a registered listener has been called with each notice at most once and in the order of
      the notifications, and with exactly those that pass its path and time filter, among all that were delivered
      since it was registered (and the one in progress, once it has been reached). */
  lemma DeliveredExactly(steps: seq<Step>, s: State, slot: nat)
    requires (StartOk(); Reaches(Start, steps, s))
    requires slot < |s.slots| && s.slots[slot].Taken?
    ensures Inv(s)
    ensures
      var l := s.slots[slot].data;
      && (forall i, j | 0 <= i < j < |l.got| :: l.got[i] < l.got[j])
      && (forall k: nat :: k in l.got <==> l.since <= k < Considered(s, slot) && Passes(l, s.notices[k]))
      && Considered(s, slot) >= s.done
  {
    ReachesKeeps(Start, steps, s);
    SelectedIs(s.notices, s.slots[slot].data, s.slots[slot].data.since, Considered(s, slot));
  }

  lemma StartOk()
    ensures Inv(Start)
  {
  }

  /** A listener registered now is called with every later notice that passes its filter, none skipped: the first
      number it is considered for is at most that of the next notice to be notified. */
  lemma NothingMissed(s: State, prefix: Store.Path)
    requires Inv(s) && Enabled(s, Create(prefix))
    ensures
      var s' := Next(s, Create(prefix));
      var slot := FirstFree(s.slots);
      && s'.slots[slot].Taken? && s'.slots[slot].data.since <= |s'.notices|
      && s'.slots[slot].data.got == [] && s'.notices == s.notices
      && forall i | 0 <= i < |s.slots| && i != slot :: s'.slots[i] == s.slots[i]
  {
  }

  /** A listener keeps its place and its history, growing at the end, until it is destroyed. */
  lemma KeepsItsHistory(s: State, step: Step, slot: nat)
    requires Inv(s) && Enabled(s, step) && slot < |s.slots| && s.slots[slot].Taken?
    requires step != Destroy(slot)
    ensures
      var s' := Next(s, step);
      && |s'.slots| == |s.slots| && s'.slots[slot].Taken?
      && s'.slots[slot].data.since == s.slots[slot].data.since
      && s'.slots[slot].data.prefix == s.slots[slot].data.prefix
      && s'.slots[slot].data.created
         == s.slots[slot].data.created - (if step.Resync? then s.clock.offset else 0)
      && s.slots[slot].data.got <= s'.slots[slot].data.got
      && s.done <= s'.done
  {
  }

  /** `s` is reached by enabled steps none of which destroys the listener in `slot`. */
  ghost predicate ReachesAlive(from: State, steps: seq<Step>, s: State, slot: nat)
    requires Inv(from)
  {
    Reaches(from, steps, s) && forall step | step in steps :: step != Destroy(slot)
  }

  lemma {:induction false} StaysAlive(from: State, steps: seq<Step>, s: State, slot: nat)
    requires Inv(from) && ReachesAlive(from, steps, s, slot) && slot < |from.slots| && from.slots[slot].Taken?
    ensures Inv(s) && slot < |s.slots| && s.slots[slot].Taken?
    ensures s.slots[slot].data.since == from.slots[slot].data.since
    ensures s.slots[slot].data.prefix == from.slots[slot].data.prefix
    decreases |steps|
  {
    if steps == [] {
    } else {
      hide Inv, Next, Enabled;
      assert steps[0] in steps;
      NextKeeps(from, steps[0]);
      KeepsItsHistory(from, steps[0], slot);
      assert forall step | step in steps[1..] :: step in steps;
      StaysAlive(Next(from, steps[0]), steps[1..], s, slot);
    }
  }

  /** A listener that is alive throughout gets exactly what passes its filter: from the call that creates it to any later
      state, however the delivering thread and all others take turns, it has been called with a notice notified since and
      delivered by now if and only if the notice passes its path and time filter; and it has been called with no notice
      twice and with none out of order. */
  lemma GetsExactlyWhatPasses(before: State, prefix: Store.Path, steps: seq<Step>, s: State)
    requires Inv(before) && Enabled(before, Create(prefix))
    requires (NextKeeps(before, Create(prefix));
              ReachesAlive(Next(before, Create(prefix)), steps, s, FirstFree(before.slots)))
    ensures
      var slot := FirstFree(before.slots);
      && slot < |s.slots| && s.slots[slot].Taken? && s.slots[slot].data.prefix == prefix && s.done <= |s.notices|
      && (forall k: nat | |before.notices| <= k < s.done ::
            k in s.slots[slot].data.got <==> Passes(s.slots[slot].data, s.notices[k]))
      && (forall i, j | 0 <= i < j < |s.slots[slot].data.got| ::
            s.slots[slot].data.got[i] < s.slots[slot].data.got[j])
  {
    var slot, created := FirstFree(before.slots), Next(before, Create(prefix));
    NextKeeps(before, Create(prefix));
    NothingMissed(before, prefix);
    StaysAlive(created, steps, s, slot);
    SelectedIs(s.notices, s.slots[slot].data, s.slots[slot].data.since, Considered(s, slot));
  }

  lemma Prepend(from: State, step: Step, rest: seq<Step>, s: State)
    requires Inv(from) && Enabled(from, step) && (NextKeeps(from, step); Reaches(Next(from, step), rest, s))
    ensures Reaches(from, [step] + rest, s)
  {
    assert ([step] + rest)[1..] == rest;
  }

  /** How far the delivering thread has come with the notice it is about. */
  function Place(c: Cursor): nat {
    match c case Idle => 0 case At(at, called) => 2 * at + if called then 2 else 1
  }

  lemma DeliveryStep(s: State, step: Step)
    requires Inv(s) && Enabled(s, step) && step in {Begin, Call, Advance}
    ensures
      var s' := Next(s, step);
      && Inv(s') && s'.notices == s.notices && s'.clock == s.clock
      && (s'.done == s.done + 1 || (s'.done == s.done && Place(s'.cursor) > Place(s.cursor)))
      && Place(s'.cursor) <= 2 * MAX_LISTENERS
  {
    NextKeeps(s, step);
  }

  /** What the delivering thread does next is never a choice, and it has nothing to do only when nothing is pending. */
  lemma OneThingToDo(s: State, step: Step)
    requires Inv(s) && step in {Begin, Call, Advance}
    ensures Enabled(s, step) <==>
              && (s.cursor.Idle? ==> s.done < |s.notices|)
              && step == if s.cursor.Idle? then Begin else if s.cursor.called then Advance else Call
    ensures s.done <= |s.notices|
  {
  }

  /** By itself the delivering thread delivers all that is pending. */
  lemma {:induction false} DeliversAll(s: State) returns (steps: seq<Step>, s': State)
    requires Inv(s)
    ensures forall step | step in steps :: step in {Begin, Call, Advance}
    ensures Reaches(s, steps, s') && Inv(s') && s'.notices == s.notices && s'.done == |s.notices| && s'.cursor.Idle?
    decreases |s.notices| - s.done, 2 * MAX_LISTENERS - Place(s.cursor)
  {
    if s.cursor.Idle? && s.done == |s.notices| {
      return [], s;
    }
    var step := if s.cursor.Idle? then Begin else if s.cursor.called then Advance else Call;
    OneThingToDo(s, step);
    DeliveryStep(s, step);
    hide Inv, Next, Enabled, Reaches, Place;
    var rest;
    rest, s' := DeliversAll(Next(s, step));
    steps := [step] + rest;
    Prepend(s, step, rest, s');
  }

  // ---------------------------------------------------------------- times, read off the steps of a run

  /** What steps make of the clock. */
  function ClockAfter(c: Clock, steps: seq<Step>): Clock
    decreases |steps|
  {
    if steps == [] then c
    else
      var c1 :=
        match steps[0]
        case Tick(local) => Clock(local, c.offset)
        case Sync(offset) => Clock(c.local, offset)
        case _ => c;
      ClockAfter(c1, steps[1..])
  }

  /** How far all that is recorded has been moved back. */
  function Moved(c: Clock, steps: seq<Step>): int
    decreases |steps|
  {
    if steps == [] then 0
    else (if steps[0].Resync? then c.offset else 0) + Moved(ClockAfter(c, steps[..1]), steps[1..])
  }

  function Notified(steps: seq<Step>): nat {
    if steps == [] then 0 else (if steps[0].Notify? then 1 else 0) + Notified(steps[1..])
  }

  lemma ClockStep(s: State, step: Step)
    requires Inv(s) && Enabled(s, step)
    ensures Next(s, step).clock == ClockAfter(s.clock, [step])
    ensures forall k | 0 <= k < |s.notices| ::
              && k < |Next(s, step).notices|
              && Next(s, step).notices[k] == ShiftNotice(s.notices[k], if step.Resync? then s.clock.offset else 0)
    ensures |Next(s, step).notices| == |s.notices| + if step.Notify? then 1 else 0
  {
    hide Passes, FirstFree, NextTaken, Selected;
    assert [step][1..] == [];
  }

  lemma ClockAfterStep(c: Clock, step: Step, rest: seq<Step>)
    ensures ClockAfter(c, [step] + rest) == ClockAfter(ClockAfter(c, [step]), rest)
    ensures Moved(c, [step] + rest) == (if step.Resync? then c.offset else 0) + Moved(ClockAfter(c, [step]), rest)
    ensures Notified([step] + rest) == (if step.Notify? then 1 else 0) + Notified(rest)
  {
    var steps := [step] + rest;
    assert steps[0] == step && steps[..1] == [step] && steps[1..] == rest && [step][1..] == [];
  }

  /** The clock, the number of notices and the times of those there were already, after any run. */
  lemma {:induction false} RecordedIs(from: State, steps: seq<Step>, s: State)
    requires Inv(from) && Reaches(from, steps, s)
    ensures s.clock == ClockAfter(from.clock, steps)
    ensures |s.notices| == |from.notices| + Notified(steps)
    ensures forall k | 0 <= k < |from.notices| ::
              s.notices[k] == ShiftNotice(from.notices[k], Moved(from.clock, steps))
    decreases |steps|
  {
    hide Inv, Next, Enabled, ClockAfter, Moved, Notified;
    if steps == [] {
      NoSteps(from.clock);
    } else {
      var from' := Next(from, steps[0]);
      assert steps == [steps[0]] + steps[1..];
      NextKeeps(from, steps[0]);
      ClockStep(from, steps[0]);
      ClockAfterStep(from.clock, steps[0], steps[1..]);
      RecordedIs(from', steps[1..], s);
    }
  }

  lemma NoSteps(c: Clock)
    ensures ClockAfter(c, []) == c && Moved(c, []) == 0 && Notified([]) == 0
  {
  }

  lemma {:induction false} CreatedIs(from: State, steps: seq<Step>, s: State, slot: nat)
    requires Inv(from) && ReachesAlive(from, steps, s, slot) && slot < |from.slots| && from.slots[slot].Taken?
    requires slot < |s.slots| && s.slots[slot].Taken?
    ensures s.slots[slot].data.created == from.slots[slot].data.created - Moved(from.clock, steps)
    decreases |steps|
  {
    hide Inv, Next, Enabled, ClockAfter, Moved, Notified;
    if steps == [] {
      NoSteps(from.clock);
    } else {
      var from' := Next(from, steps[0]);
      assert steps[0] in steps && steps == [steps[0]] + steps[1..];
      NextKeeps(from, steps[0]);
      KeepsItsHistory(from, steps[0], slot);
      ClockStep(from, steps[0]);
      ClockAfterStep(from.clock, steps[0], steps[1..]);
      assert forall step | step in steps[1..] :: step in steps;
      CreatedIs(from', steps[1..], s, slot);
    }
  }

  lemma {:induction false} Halfway(from: State, a: seq<Step>, b: seq<Step>, s: State) returns (m: State)
    requires Inv(from) && Reaches(from, a + b, s)
    ensures Inv(m) && Reaches(from, a, m) && Reaches(m, b, s)
    decreases |a|
  {
    hide Inv, Next, Enabled;
    if a == [] {
      assert [] + b == b;
      m := from;
    } else {
      assert (a + b)[1..] == a[1..] + b;
      NextKeeps(from, a[0]);
      m := Halfway(Next(from, a[0]), a[1..], b, s);
    }
  }

  lemma OneStep(from: State, step: Step, s: State)
    requires Inv(from) && Reaches(from, [step], s)
    ensures Enabled(from, step) && s == Next(from, step)
  {
    hide Inv, Next, Enabled;
    NextKeeps(from, step);
    assert [step][1..] == [];
  }

  /** When a listener hears of what is notified after it was created, as the steps tell: if and only if the path contains
      its prefix, and the clock showed no less than at its creation, less all that recorded times were moved back by in
      between. */
  lemma LaterIff(before: State, prefix: Store.Path, mid: seq<Step>, path: Store.Path, rest: seq<Step>, s: State)
    requires Inv(before) && Reaches(before, [Create(prefix)] + (mid + ([Notify(path)] + rest)), s)
    requires Destroy(FirstFree(before.slots)) !in mid + rest
    ensures
      var slot, n := FirstFree(before.slots), |before.notices| + Notified(mid);
      && slot < |s.slots| && s.slots[slot].Taken? && s.slots[slot].data.prefix == prefix && n < |s.notices|
      && (n in s.slots[slot].data.got ==> n <= s.done)
      && (n < s.done ==>
            (n in s.slots[slot].data.got <==>
             && Store.Contains(path, prefix)
             && ClockAfter(before.clock, mid).Now() >= before.clock.Now() - Moved(before.clock, mid)))
  {
    hide Inv, Next, Enabled, Reaches, ClockAfter, Moved, Notified, Passes, Store.Contains;
    var slot := FirstFree(before.slots);
    var created := Halfway(before, [Create(prefix)], mid + ([Notify(path)] + rest), s);
    OneStep(before, Create(prefix), created);
    CreatedNow(before, prefix);
    var at := Halfway(created, mid, [Notify(path)] + rest, s);
    var noted := Halfway(at, [Notify(path)], rest, s);
    OneStep(at, Notify(path), noted);
    StaysAlive(created, mid, at, slot);
    CreatedIs(created, mid, at, slot);
    RecordedIs(created, mid, at);
    NotedNow(at, path, slot);
    StaysAlive(noted, rest, s, slot);
    CreatedIs(noted, rest, s, slot);
    RecordedIs(noted, rest, s);
    GotIs(s, slot);
    PassesIs(s.slots[slot].data, s.notices[|at.notices|]);
  }

  lemma PassesIs(l: Listener, n: Notice)
    ensures Passes(l, n) <==> n.time >= l.created && Store.Contains(n.path, l.prefix)
  {
    hide Store.Contains;
  }

  lemma CreatedNow(s: State, prefix: Store.Path)
    requires Inv(s) && Enabled(s, Create(prefix))
    ensures
      var s', slot := Next(s, Create(prefix)), FirstFree(s.slots);
      && slot < |s'.slots| && s'.slots[slot].Taken? && s'.slots[slot].data.prefix == prefix
      && s'.slots[slot].data.created == s.clock.Now() && s'.clock == s.clock && s'.notices == s.notices
      && s.done <= s'.slots[slot].data.since <= |s'.notices|
      && (s.cursor.Idle? ==> s'.slots[slot].data.since == s.done)
      && s'.slots[slot].data.since <= s.done + 1
  {
  }

  lemma NotedNow(s: State, path: Store.Path, slot: nat)
    requires Inv(s) && slot < |s.slots| && s.slots[slot].Taken?
    ensures
      var s' := Next(s, Notify(path));
      && s'.slots == s.slots && s'.clock == s.clock && s'.notices == s.notices + [Notice(s.clock.Now(), path)]
  {
  }

  lemma GotIs(s: State, slot: nat)
    requires Inv(s) && slot < |s.slots| && s.slots[slot].Taken?
    ensures s.done <= |s.notices|
    ensures forall k: nat :: k in s.slots[slot].data.got ==> k <= s.done && k < |s.notices|
    ensures forall k: nat | k < |s.notices| ::
              && (k in s.slots[slot].data.got ==>
                    s.slots[slot].data.since <= k && Passes(s.slots[slot].data, s.notices[k]))
              && (s.slots[slot].data.since <= k < s.done && Passes(s.slots[slot].data, s.notices[k]) ==>
                    k in s.slots[slot].data.got)
  {
    hide Passes;
    SelectedIs(s.notices, s.slots[slot].data, s.slots[slot].data.since, Considered(s, slot));
  }

  /** When a listener hears of what was notified before it was created: only of what was still pending then, and only if
      the path contains its prefix and the clock at the notice, less all that recorded times were moved back by in
      between, showed no less than at the creation; and it does hear of those that no delivery had begun for. */
  lemma EarlierIff(from: State, path: Store.Path, mid: seq<Step>, before: State, prefix: Store.Path, rest: seq<Step>,
                   s: State)
    requires Inv(from) && Reaches(from, [Notify(path)] + mid, before) && Inv(before)
    requires Reaches(before, [Create(prefix)] + rest, s) && Destroy(FirstFree(before.slots)) !in rest
    ensures
      var slot, n := FirstFree(before.slots), |from.notices|;
      var passes := Store.Contains(path, prefix)
                    && from.clock.Now() - Moved(from.clock, mid) >= ClockAfter(from.clock, mid).Now();
      && slot < |s.slots| && s.slots[slot].Taken? && s.slots[slot].data.prefix == prefix && n < |s.notices|
      && (n in s.slots[slot].data.got ==> before.done <= n <= s.done && passes)
      && (before.done <= n < s.done && (before.cursor.At? ==> before.done < n) && passes ==>
            n in s.slots[slot].data.got)
  {
    hide Inv, Next, Enabled, Reaches, ClockAfter, Moved, Notified, Passes, Store.Contains;
    var slot, n := FirstFree(before.slots), |from.notices|;
    var noted := Halfway(from, [Notify(path)], mid, before);
    OneStep(from, Notify(path), noted);
    NotifyLast(from, path);
    RecordedIs(noted, mid, before);
    var created := Halfway(before, [Create(prefix)], rest, s);
    OneStep(before, Create(prefix), created);
    CreatedNow(before, prefix);
    StaysAlive(created, rest, s, slot);
    CreatedIs(created, rest, s, slot);
    RecordedIs(created, rest, s);
    GotIs(s, slot);
    PassesIs(s.slots[slot].data, s.notices[n]);
  }

  lemma NotifyLast(s: State, path: Store.Path)
    requires Inv(s)
    ensures
      var s' := Next(s, Notify(path));
      s'.clock == s.clock && s'.notices == s.notices + [Notice(s.clock.Now(), path)]
  {
  }

  /** The clock of a run from the start is the one that its steps make. */
  lemma ClockOfRun(steps: seq<Step>, s: State)
    requires (StartOk(); Reaches(Start, steps, s))
    ensures Inv(s) && s.clock == ClockAfter(Clock(0, 0), steps) && |s.notices| == Notified(steps)
  {
    StartOk();
    ReachesKeeps(Start, steps, s);
    RecordedIs(Start, steps, s);
  }

  // ---------------------------------------------------------------- resyncs that are not interrupted

  /** Each setting of the clock is followed at once by the adjustment of the recorded times. */
  predicate Paired(steps: seq<Step>)
    decreases |steps|
  {
    if steps == [] then true
    else if steps[0].Sync? then |steps| > 1 && steps[1].Resync? && Paired(steps[2..])
    else !steps[0].Resync? && Paired(steps[1..])
  }

  /** The sum of the offsets that have been replaced by others. */
  function Replaced(offset: int, steps: seq<Step>): int
    decreases |steps|
  {
    if steps == [] then 0
    else if steps[0].Sync? then offset + Replaced(steps[0].offset, steps[1..])
    else Replaced(offset, steps[1..])
  }

  lemma {:induction false} PairedMoves(c: Clock, steps: seq<Step>)
    requires Paired(steps)
    ensures ClockAfter(c, steps).Now() + Moved(c, steps)
            == ClockAfter(c, steps).local - c.offset + Replaced(c.offset, steps)
    decreases |steps|
  {
    if steps == [] {
    } else if steps[0].Sync? {
      var c1, rest := Clock(c.local, steps[0].offset), steps[2..];
      assert steps == [steps[0]] + ([Resync] + rest);
      ClockAfterStep(c, steps[0], [Resync] + rest);
      ClockAfterStep(c1, Resync, rest);
      PairedMoves(c1, rest);
      assert steps[1..][1..] == rest;
      assert Replaced(c1.offset, steps[1..]) == Replaced(c1.offset, rest);
    } else {
      assert steps == [steps[0]] + steps[1..];
      ClockAfterStep(c, steps[0], steps[1..]);
      PairedMoves(ClockAfter(c, [steps[0]]), steps[1..]);
    }
  }

  /** The system's time does not run backwards. */
  predicate Forwards(local: int, steps: seq<Step>)
    decreases |steps|
  {
    if steps == [] then true
    else if steps[0].Tick? then local <= steps[0].local && Forwards(steps[0].local, steps[1..])
    else Forwards(local, steps[1..])
  }

  lemma {:induction false} ForwardsEnds(c: Clock, steps: seq<Step>)
    requires Forwards(c.local, steps)
    ensures ClockAfter(c, steps).local >= c.local
    decreases |steps|
  {
    if steps == [] {
    } else {
      assert steps == [steps[0]] + steps[1..];
      ClockAfterStep(c, steps[0], steps[1..]);
      ForwardsEnds(ClockAfter(c, [steps[0]]), steps[1..]);
    }
  }

  /** A resync takes the new offset off all that is recorded, although the clock has moved only by the difference between
      the new offset and the one before. So what is notified later is heard of if and only if the path fits and the time
      that has passed, with the offsets that were replaced in between, is not less than zero. */
  lemma LaterThroughResyncsIff(before: State, prefix: Store.Path, mid: seq<Step>, path: Store.Path, rest: seq<Step>,
                               s: State)
    requires Inv(before) && Reaches(before, [Create(prefix)] + (mid + ([Notify(path)] + rest)), s)
    requires Destroy(FirstFree(before.slots)) !in mid + rest && Paired(mid)
    ensures
      var slot, n := FirstFree(before.slots), |before.notices| + Notified(mid);
      && slot < |s.slots| && s.slots[slot].Taken? && n < |s.notices|
      && (n < s.done ==>
            (n in s.slots[slot].data.got <==>
             && Store.Contains(path, prefix)
             && ClockAfter(before.clock, mid).local + Replaced(before.clock.offset, mid) >= before.clock.local))
  {
    hide Inv, Enabled, Reaches, ClockAfter, Moved, Notified, Replaced, Paired, Store.Contains;
    LaterIff(before, prefix, mid, path, rest, s);
    PairedMoves(before.clock, mid);
  }

  /** The same for what is notified earlier. */
  lemma EarlierThroughResyncsIff(from: State, path: Store.Path, mid: seq<Step>, before: State, prefix: Store.Path,
                                 rest: seq<Step>, s: State)
    requires Inv(from) && Reaches(from, [Notify(path)] + mid, before) && Inv(before)
    requires Reaches(before, [Create(prefix)] + rest, s) && Destroy(FirstFree(before.slots)) !in rest && Paired(mid)
    ensures
      var slot, n := FirstFree(before.slots), |from.notices|;
      var passes :=
        && Store.Contains(path, prefix)
        && from.clock.local >= ClockAfter(from.clock, mid).local + Replaced(from.clock.offset, mid);
      && slot < |s.slots| && s.slots[slot].Taken? && n < |s.notices|
      && (n in s.slots[slot].data.got ==> before.done <= n <= s.done && passes)
      && (before.done <= n < s.done && (before.cursor.At? ==> before.done < n) && passes ==>
            n in s.slots[slot].data.got)
  {
    hide Inv, Enabled, Reaches, ClockAfter, Moved, Notified, Replaced, Paired, Store.Contains;
    EarlierIff(from, path, mid, before, prefix, rest, s);
    PairedMoves(from.clock, mid);
  }

  /** What the filter is for. While the system's time does not run backwards, and the offsets that resyncs replace do not
      add up to less than zero (there are none, the clock is set for the first time, or all offsets are positive), a
      listener hears of everything notified after its creation under a path that contains its prefix, and of nothing
      else. */
  lemma HearsAllThatFollows(before: State, prefix: Store.Path, mid: seq<Step>, path: Store.Path, rest: seq<Step>,
                            s: State)
    requires Inv(before) && Reaches(before, [Create(prefix)] + (mid + ([Notify(path)] + rest)), s)
    requires Destroy(FirstFree(before.slots)) !in mid + rest && Paired(mid)
    requires Forwards(before.clock.local, mid) && Replaced(before.clock.offset, mid) >= 0
    ensures
      var slot, n := FirstFree(before.slots), |before.notices| + Notified(mid);
      && slot < |s.slots| && s.slots[slot].Taken?
      && (n < s.done ==> (n in s.slots[slot].data.got <==> Store.Contains(path, prefix)))
  {
    hide Inv, Enabled, Reaches, ClockAfter, Moved, Notified, Replaced, Paired, Forwards, Store.Contains;
    LaterThroughResyncsIff(before, prefix, mid, path, rest, s);
    ForwardsEnds(before.clock, mid);
  }

  /** Under the same conditions it hears of nothing that was notified at an earlier time, though it may be pending. */
  lemma HearsNothingFromBefore(from: State, path: Store.Path, mid: seq<Step>, before: State, prefix: Store.Path,
                               rest: seq<Step>, s: State)
    requires Inv(from) && Reaches(from, [Notify(path)] + mid, before) && Inv(before)
    requires Reaches(before, [Create(prefix)] + rest, s) && Destroy(FirstFree(before.slots)) !in rest && Paired(mid)
    requires from.clock.local < ClockAfter(from.clock, mid).local && Replaced(from.clock.offset, mid) >= 0
    ensures
      var slot := FirstFree(before.slots);
      slot < |s.slots| && s.slots[slot].Taken? && |from.notices| !in s.slots[slot].data.got
  {
    hide Inv, Enabled, Reaches, ClockAfter, Moved, Notified, Replaced, Paired, Store.Contains;
    EarlierThroughResyncsIff(from, path, mid, before, prefix, rest, s);
  }

  lemma {:induction false} ReplacedIs(offset: int, steps: seq<Step>)
    ensures (forall i | 0 <= i < |steps| :: !steps[i].Sync?) ==> Replaced(offset, steps) == 0
    ensures offset >= 0 && (forall i | 0 <= i < |steps| && steps[i].Sync? :: steps[i].offset >= 0) ==>
              Replaced(offset, steps) >= 0
    ensures (forall i, j | 0 <= i < j < |steps| :: !(steps[i].Sync? && steps[j].Sync?)) ==>
              Replaced(offset, steps) in {0, offset}
    decreases |steps|
  {
    if steps == [] {
    } else {
      ReplacedIs(if steps[0].Sync? then steps[0].offset else offset, steps[1..]);
    }
  }

  /** The condition on the offsets is needed: when the clock is set for the second time while its offset is -10, a listener
      created before is not told of what is notified after, at the same moment of the system's time, although the path
      fits. */
  lemma SecondResyncHides(p: Store.Path)
    ensures
      (StartOk();
       exists s ::
         && Reaches(Start, [Sync(-10), Resync, Create(p), Sync(-20), Resync, Notify(p), Begin, Call, Advance], s)
         && s.done == |s.notices| == 1 && |s.slots| > 0 && s.slots[0] == Taken(Listener(p, 30, 0, []))
         && Store.Contains(p, p))
  {
    hide Inv, Next, Enabled, Reaches, Store.Contains;
    StartOk();
    var slots := Start.slots;
    var mine, shifted := slots[0 := Taken(Listener(p, 10, 0, []))], slots[0 := Taken(Listener(p, 30, 0, []))];
    var s1 := Start.(clock := Clock(0, -10));
    var s3 := s1.(slots := mine);
    var s4 := s3.(clock := Clock(0, -20));
    var s5 := s4.(slots := shifted);
    var s6 := s5.(notices := [Notice(20, p)]);
    Created30(p, s1, s3, s4, s5);
    Delivered20(p, s5, s6);
    var s9 := s6.(done := 1);
    var late := [Begin, Call, Advance];
    Prepend(s4, Resync, [Notify(p)] + late, s9);
    Prepend(s3, Sync(-20), [Resync] + ([Notify(p)] + late), s9);
    Prepend(s1, Create(p), [Sync(-20)] + ([Resync] + ([Notify(p)] + late)), s9);
    var rest := [Create(p)] + ([Sync(-20)] + ([Resync] + ([Notify(p)] + late)));
    Prepend(s1, Resync, rest, s9);
    Prepend(Start, Sync(-10), [Resync] + rest, s9);
    Spelled(p);
    SelfContained(p);
  }

  lemma SelfContained(p: Store.Path)
    ensures Store.Contains(p, p)
  {
    assert Store.OccursAt(p, p, 0);
  }

  lemma Spelled(p: Store.Path)
    ensures [Sync(-10)] + ([Resync] + ([Create(p)] + ([Sync(-20)] + ([Resync] + ([Notify(p)] + [Begin, Call, Advance])))))
            == [Sync(-10), Resync, Create(p), Sync(-20), Resync, Notify(p), Begin, Call, Advance]
    ensures [Notify(p)] + ([Begin] + ([Call] + ([Advance] + []))) == [Notify(p)] + [Begin, Call, Advance]
  {
  }

  lemma Created30(p: Store.Path, s1: State, s3: State, s4: State, s5: State)
    requires s1 == Start.(clock := Clock(0, -10))
    requires s3 == s1.(slots := Start.slots[0 := Taken(Listener(p, 10, 0, []))])
    requires s4 == s3.(clock := Clock(0, -20))
    requires s5 == s4.(slots := Start.slots[0 := Taken(Listener(p, 30, 0, []))])
    ensures Inv(Start) && Next(Start, Sync(-10)) == s1
    ensures Inv(s1) && Next(s1, Resync) == s1
    ensures Enabled(s1, Create(p)) && Next(s1, Create(p)) == s3
    ensures Inv(s3) && Next(s3, Sync(-20)) == s4
    ensures Inv(s4) && Next(s4, Resync) == s5 && Inv(s5)
  {
    assert Next(s1, Resync).slots == s1.slots && Next(s1, Resync).notices == [];
    assert FirstFree(s1.slots) == 0;
    assert Next(s4, Resync).slots == s5.slots && Next(s4, Resync).notices == [];
  }

  lemma Delivered20(p: Store.Path, s5: State, s6: State)
    requires Inv(s5) && s5 == State([], 0, Start.slots[0 := Taken(Listener(p, 30, 0, []))], Idle, Clock(0, -20))
    requires s6 == s5.(notices := [Notice(20, p)])
    ensures Reaches(s5, [Notify(p)] + [Begin, Call, Advance], s6.(done := 1))
  {
    var s7, s8, s9 := s6.(cursor := At(0, false)), s6.(cursor := At(0, true)), s6.(done := 1);
    assert Next(s5, Notify(p)) == s6;
    NextKeeps(s5, Notify(p));
    Passed(s6, s7, s8, s9);
    assert Enabled(s5, Notify(p)) && Reaches(s9, [], s9);
    hide Inv, Next, Enabled, Reaches;
    Prepend(s8, Advance, [], s9);
    Prepend(s7, Call, [Advance] + [], s9);
    Prepend(s6, Begin, [Call] + ([Advance] + []), s9);
    Prepend(s5, Notify(p), [Begin] + ([Call] + ([Advance] + [])), s9);
    Spelled(p);
  }

  /** The only notice passes by the only listener. */
  lemma Passed(s6: State, s7: State, s8: State, s9: State)
    requires Inv(s6) && s6.cursor.Idle? && s6.done == 0 && |s6.notices| == 1 && s6.slots[0].Taken?
    requires !Passes(s6.slots[0].data, s6.notices[0]) && forall i | 1 <= i < MAX_LISTENERS :: s6.slots[i].Free?
    requires s7 == s6.(cursor := At(0, false)) && s8 == s6.(cursor := At(0, true)) && s9 == s6.(done := 1)
    ensures Enabled(s6, Begin) && Next(s6, Begin) == s7 && Inv(s7)
    ensures Enabled(s7, Call) && Next(s7, Call) == s8 && Inv(s8)
    ensures Enabled(s8, Advance) && Next(s8, Advance) == s9 && Inv(s9)
  {
    hide Passes, Selected;
    NextKeeps(s6, Begin);
    assert s7.slots[0 := s7.slots[0]] == s7.slots;
    NextKeeps(s7, Call);
    assert NextTaken(s8.slots, 1) == MAX_LISTENERS;
    NextKeeps(s8, Advance);
  }
}
