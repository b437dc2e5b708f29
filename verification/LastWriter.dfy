/** Updates and deletions that reach an entry from the network in different orders: which orders agree. */
module LastWriter {
  import opened Wrappers
  import opened Bytes
  import opened Codec
  import opened Store
  import StoreLaws

  datatype Remote = Write(value: Value, timestamp: int) | Remove(timestamp: int)

  function Reach(st: State, id: EntryId, r: Remote, now: int): State {
    match r
    case Write(value, timestamp) => OnUpdated(st, id, value, timestamp, now).0
    case Remove(timestamp) => OnDeleted(st, id, timestamp, now).0
  }

  function ReachAll(st: State, id: EntryId, rs: seq<Remote>, now: int): State
    decreases |rs|
  {
    if rs == [] then st else ReachAll(Reach(st, id, rs[0], now), id, rs[1..], now)
  }

  /** What the claim is about: value, presence and time of the last update. */
  datatype View = View(value: Option<Value>, last: int)

  function ViewOf(e: Entry): View {
    View(if e.HasValue() then Some(e.value) else None, e.lastUpdate)
  }

  function Step(v: View, r: Remote): View {
    if v.last > r.timestamp then v
    else
      match r
      case Write(value, t) => View(Some(value), t)
      case Remove(t) => if v.value.None? then v else View(None, t)
  }

  function Fold(v: View, rs: seq<Remote>): View
    decreases |rs|
  {
    if rs == [] then v else Fold(Step(v, rs[0]), rs[1..])
  }

  // ---------------------------------------------------------------- from the store to the view

  ghost predicate Typed(code: byte, rs: seq<Remote>) {
    forall i | 0 <= i < |rs| :: rs[i].timestamp != 0 && (rs[i].Write? ==> rs[i].value.TypeCode() == code)
  }

  /** The entry behind `id` accepts values of type `code`. */
  ghost predicate Ready(st: State, id: EntryId, code: byte) {
    Inv(st) && id in st.ids && st.entries[st.ids[id]].value.TypeCode() in {code, Empty.TypeCode()}
  }

  lemma ReachFollowsView(st: State, id: EntryId, r: Remote, now: int, code: byte)
    requires Ready(st, id, code)
    requires r.timestamp != 0 && (r.Write? ==> r.value.TypeCode() == code)
    ensures
      var st' := Reach(st, id, r, now);
      && Ready(st', id, code) && st'.ids == st.ids && |st'.entries| == |st.entries|
      && ViewOf(st'.entries[st.ids[id]]) == Step(ViewOf(st.entries[st.ids[id]]), r)
  {
    hide Replayable;
    var h := st.ids[id];
    assert h < |st.entries| && Sound(st.entries[h]);
    match r
    case Write(value, timestamp) => StoreLaws.SetAtKeeps(st, h, value, false, id, false, timestamp, now);
    case Remove(timestamp) => StoreLaws.DeleteAtKeeps(st, h, false, timestamp, now);
  }

  lemma {:induction false} StoreFollowsView(st: State, id: EntryId, rs: seq<Remote>, now: int, code: byte)
    requires Ready(st, id, code) && Typed(code, rs)
    ensures
      var st' := ReachAll(st, id, rs, now);
      && st'.ids == st.ids && |st'.entries| == |st.entries|
      && ViewOf(st'.entries[st.ids[id]]) == Fold(ViewOf(st.entries[st.ids[id]]), rs)
    decreases |rs|
  {
    if rs == [] {
    } else {
      hide Ready, Reach, Step, ViewOf;
      assert st.ids[id] < |st.entries| by { ReadyHandle(st, id, code); }
      ReachFollowsView(st, id, rs[0], now, code);
      StoreFollowsView(Reach(st, id, rs[0], now), id, rs[1..], now, code);
    }
  }

  lemma ReadyHandle(st: State, id: EntryId, code: byte)
    requires Ready(st, id, code)
    ensures id in st.ids && st.ids[id] < |st.entries|
  {
  }

  // ---------------------------------------------------------------- the last writer

  ghost predicate DistinctTimes(rs: seq<Remote>) {
    forall i, j | 0 <= i < j < |rs| :: rs[i].timestamp != rs[j].timestamp
  }

  /** `rs[w]` is the greatest of all. */
  ghost predicate Greatest(rs: seq<Remote>, w: nat) {
    w < |rs| && forall i | 0 <= i < |rs| :: rs[i].timestamp <= rs[w].timestamp
  }

  /** The greatest is a deletion, and another deletion that is not older than the entry is among the rest. */
  ghost predicate RivalDeletes(last: int, rs: seq<Remote>, w: nat)
    requires w < |rs|
  {
    rs[w].Remove? && exists d | 0 <= d < |rs| && d != w :: rs[d].Remove? && last <= rs[d].timestamp
  }

  function After(r: Remote): View {
    match r
    case Write(value, t) => View(Some(value), t)
    case Remove(t) => View(None, t)
  }

  lemma {:induction false} AllStale(v: View, rs: seq<Remote>)
    requires forall i | 0 <= i < |rs| :: rs[i].timestamp < v.last
    ensures Fold(v, rs) == v
    decreases |rs|
  {
    if rs == [] {
    } else {
      AllStale(v, rs[1..]);
    }
  }

  /** Wherever it stands in the order, the greatest one decides. */
  lemma {:induction false} GreatestWins(v: View, rs: seq<Remote>, w: nat)
    requires v.value.Some? || (w < |rs| && rs[w].Write?)
    requires DistinctTimes(rs) && Greatest(rs, w) && v.last <= rs[w].timestamp
    requires !RivalDeletes(v.last, rs, w)
    ensures Fold(v, rs) == After(rs[w])
    decreases |rs|
  {
    var v' := Step(v, rs[0]);
    if w == 0 {
      assert v' == After(rs[0]);
      AllStale(v', rs[1..]);
    } else {
      assert rs[1..][w - 1] == rs[w];
      forall d | 0 <= d < |rs[1..]| && d != w - 1 && rs[1..][d].Remove? && v'.last <= rs[1..][d].timestamp
        ensures !rs[w].Remove?
      {
        assert rs[d + 1] == rs[1..][d];
      }
      GreatestWins(v', rs[1..], w - 1);
    }
  }

  ghost predicate IsReordering(a: seq<Remote>, rs: seq<Remote>) {
    multiset(a) == multiset(rs)
  }

  lemma {:induction false} ReorderedAt(a: seq<Remote>, rs: seq<Remote>, w: nat) returns (k: nat)
    requires IsReordering(a, rs) && w < |rs|
    ensures k < |a| && a[k] == rs[w]
  {
    assert rs[w] in multiset(rs);
    assert rs[w] in a;
    k :| 0 <= k < |a| && a[k] == rs[w];
  }

  /** A sequence has distinct times when no time occurs twice in its multiset. */
  lemma {:induction false} TimesOnce(rs: seq<Remote>)
    requires DistinctTimes(rs)
    ensures forall r | r in multiset(rs) :: multiset(rs)[r] == 1
    ensures forall r, s | r in multiset(rs) && s in multiset(rs) && r != s :: r.timestamp != s.timestamp
    decreases |rs|
  {
    if rs == [] {
    } else {
      var init, x := rs[..|rs| - 1], rs[|rs| - 1];
      TimesOnce(init);
      assert rs == init + [x];
      forall k | 0 <= k < |init| ensures init[k] != x {
        assert rs[k] == init[k];
      }
      assert x !in init;
      forall r | r in multiset(init) ensures r.timestamp != x.timestamp {
        assert r in init;
        var k :| 0 <= k < |init| && init[k] == r;
        assert rs[k] == r;
      }
    }
  }

  lemma TwiceInMultiset(a: seq<Remote>, i: nat, j: nat)
    requires i < j < |a| && a[i] == a[j]
    ensures multiset(a)[a[j]] >= 2
  {
    assert a == a[..j] + [a[j]] + a[j + 1..];
    assert a[i] in a[..j];
  }

  lemma {:induction false} ReorderedDistinct(a: seq<Remote>, rs: seq<Remote>)
    requires IsReordering(a, rs) && DistinctTimes(rs)
    ensures DistinctTimes(a)
  {
    TimesOnce(rs);
    forall i, j | 0 <= i < j < |a| ensures a[i].timestamp != a[j].timestamp {
      assert a[i] in multiset(a) && a[j] in multiset(a);
      if a[i] == a[j] {
        TwiceInMultiset(a, i, j);
      }
    }
  }

  /** Some update is not older than the entry. */
  ghost predicate FreshWrite(last: int, rs: seq<Remote>) {
    exists p | 0 <= p < |rs| :: rs[p].Write? && last <= rs[p].timestamp
  }

  /** When the order does not matter: everything is older than the entry; or the greatest of all is an update; or it is a
      deletion and, if the entry shows a value, the only one that is not older than the entry, and if it shows none, no
      update is not older. */
  ghost predicate Agreeable(v: View, rs: seq<Remote>, w: nat)
    requires w < |rs|
  {
    || rs[w].timestamp < v.last
    || rs[w].Write?
    || (if v.value.Some? then !RivalDeletes(v.last, rs, w) else !FreshWrite(v.last, rs))
  }

  /** What every order then leads to. */
  function Agreed(v: View, r: Remote): View {
    if r.timestamp < v.last || (r.Remove? && v.value.None?) then v else After(r)
  }

  /** The exact condition, for every entry and any set of messages with distinct times, `w` being the greatest: all
      orders of delivery end in the same value, presence and time if and only if the messages are agreeable, and then
      these are those of the greatest one, or of the entry if there is nothing for the messages to change. At most one
      deletion is always agreeable for an entry that shows a value. */
  lemma OrderDoesNotMatterIff(v: View, rs: seq<Remote>, w: nat)
    requires DistinctTimes(rs) && Greatest(rs, w)
    ensures (forall a | IsReordering(a, rs) :: Fold(v, a) == Agreed(v, rs[w])) <==> Agreeable(v, rs, w)
    ensures (forall a, b | IsReordering(a, rs) && IsReordering(b, rs) :: Fold(v, a) == Fold(v, b))
            <==> Agreeable(v, rs, w)
  {
    if Agreeable(v, rs, w) {
      forall a | IsReordering(a, rs) ensures Fold(v, a) == Agreed(v, rs[w]) {
        AgreeableSettles(v, rs, w, a);
      }
    } else if v.value.Some? {
      var d :| 0 <= d < |rs| && d != w && rs[d].Remove? && v.last <= rs[d].timestamp;
      RivalsDisagree(v, rs, w, d);
    } else {
      var p :| 0 <= p < |rs| && rs[p].Write? && v.last <= rs[p].timestamp;
      LateDeleteDisagrees(v, rs, w, p);
    }
  }

  lemma AgreeableSettles(v: View, rs: seq<Remote>, w: nat, a: seq<Remote>)
    requires DistinctTimes(rs) && Greatest(rs, w) && IsReordering(a, rs) && Agreeable(v, rs, w)
    ensures Fold(v, a) == Agreed(v, rs[w])
  {
    if rs[w].timestamp < v.last || (rs[w].Remove? && v.value.None?) {
      forall i | 0 <= i < |a| ensures a[i].timestamp < v.last || (a[i].Remove? && v.value.None?) {
        var j := ReorderedAt(rs, a, i);
      }
      NothingToChange(v, a);
    } else {
      AgreesWithGreatest(v, rs, w, a);
    }
  }

  lemma {:induction false} NothingToChange(v: View, rs: seq<Remote>)
    requires forall i | 0 <= i < |rs| :: rs[i].timestamp < v.last || (rs[i].Remove? && v.value.None?)
    ensures Fold(v, rs) == v
    decreases |rs|
  {
    if rs == [] {
    } else {
      NothingToChange(v, rs[1..]);
    }
  }

  /** A deletion that reaches an entry before its update leaves no time behind, so that the update brings the entry to
      life after all; in the other order the entry is gone, at the time of the deletion. */
  lemma LateDeleteDisagrees(v: View, rs: seq<Remote>, w: nat, p: nat)
    requires v.value.None? && DistinctTimes(rs) && Greatest(rs, w) && rs[w].Remove? && v.last <= rs[w].timestamp
    requires p < |rs| && rs[p].Write? && v.last <= rs[p].timestamp
    ensures exists a, b :: IsReordering(a, rs) && IsReordering(b, rs)
                           && Fold(v, a) == After(rs[w]) != Fold(v, b) && Fold(v, a) != v
  {
    hide Fold, IsReordering;
    assert rs[p].timestamp < rs[w].timestamp;
    var rest := TakeTwo(rs, w, p);
    var a, b := [rs[p], rs[w]] + rest, [rs[w], rs[p]] + rest;
    FoldTwo(v, rs[p], rs[w], rest);
    FoldTwo(v, rs[w], rs[p], rest);
    AllStale(After(rs[w]), rest);
    LastBounded(After(rs[p]), rest, rs[w].timestamp);
  }

  lemma AgreesWithGreatest(v: View, rs: seq<Remote>, w: nat, a: seq<Remote>)
    requires DistinctTimes(rs) && Greatest(rs, w) && v.last <= rs[w].timestamp
    requires (v.value.Some? || rs[w].Write?) && !RivalDeletes(v.last, rs, w) && IsReordering(a, rs)
    ensures Fold(v, a) == After(rs[w])
  {
    var k := ReorderedAt(a, rs, w);
    ReorderedDistinct(a, rs);
    forall i | 0 <= i < |a| ensures a[i].timestamp <= a[k].timestamp {
      var j := ReorderedAt(rs, a, i);
    }
    forall i | 0 <= i < |a| && i != k && a[i].Remove? && v.last <= a[i].timestamp ensures !a[k].Remove? {
      var j := ReorderedAt(rs, a, i);
      assert a[i].timestamp != a[k].timestamp;
    }
    GreatestWins(v, a, k);
  }

  lemma {:induction false} LastBounded(v: View, rs: seq<Remote>, bound: int)
    requires v.last < bound && forall i | 0 <= i < |rs| :: rs[i].timestamp < bound
    ensures Fold(v, rs).last < bound
    decreases |rs|
  {
    if rs == [] {
    } else {
      LastBounded(Step(v, rs[0]), rs[1..], bound);
    }
  }

  lemma SplitTwo(rs: seq<Remote>, i: nat, j: nat)
    requires i < j < |rs|
    ensures multiset(rs) == multiset([rs[i], rs[j]]) + multiset(rs[..i] + rs[i + 1..j] + rs[j + 1..])
  {
    assert rs == rs[..i] + ([rs[i]] + (rs[i + 1..j] + ([rs[j]] + rs[j + 1..])));
  }

  /** Taking two messages out of the order. */
  lemma TakeTwo(rs: seq<Remote>, w: nat, d: nat) returns (rest: seq<Remote>)
    requires DistinctTimes(rs) && Greatest(rs, w) && d < |rs| && d != w
    ensures IsReordering([rs[w], rs[d]] + rest, rs) && IsReordering([rs[d], rs[w]] + rest, rs)
    ensures forall k | 0 <= k < |rest| :: rest[k].timestamp < rs[w].timestamp
  {
    var i, j := if d < w then d else w, if d < w then w else d;
    rest := rs[..i] + rs[i + 1..j] + rs[j + 1..];
    SplitTwo(rs, i, j);
    assert multiset([rs[w], rs[d]]) == multiset([rs[d], rs[w]]) == multiset([rs[i], rs[j]]);
    forall k | 0 <= k < |rest| ensures rest[k].timestamp < rs[w].timestamp {
      var m := if k < i then k else if k < j - 1 then k + 1 else k + 2;
      assert rest[k] == rs[m] && m != w;
    }
  }

  lemma FoldTwo(v: View, x: Remote, y: Remote, rest: seq<Remote>)
    ensures Fold(v, [x, y] + rest) == Fold(Step(Step(v, x), y), rest)
  {
    var rs := [x, y] + rest;
    assert rs[1..] == [y] + rest && ([y] + rest)[1..] == rest;
  }

  /** Two deletions: when the earlier one comes first, the later one finds the entry gone and leaves its time as it is,
      so that older updates can still bring the entry back. */
  lemma RivalsDisagree(v: View, rs: seq<Remote>, w: nat, d: nat)
    requires v.value.Some? && DistinctTimes(rs) && Greatest(rs, w) && v.last <= rs[w].timestamp
    requires rs[w].Remove? && d < |rs| && d != w && rs[d].Remove? && v.last <= rs[d].timestamp
    ensures exists a, b :: IsReordering(a, rs) && IsReordering(b, rs) && Fold(v, a) == After(rs[w]) != Fold(v, b)
  {
    hide Fold, IsReordering;
    var rest := TakeTwo(rs, w, d);
    var a, b := [rs[w], rs[d]] + rest, [rs[d], rs[w]] + rest;
    FoldTwo(v, rs[w], rs[d], rest);
    FoldTwo(v, rs[d], rs[w], rest);
    AllStale(After(rs[w]), rest);
    LastBounded(After(rs[d]), rest, rs[w].timestamp);
  }

  /** With at most one deletion all orders agree: on the greatest message, or on what was there before when all are
      older than the entry. */
  lemma ViewsAgree(v: View, rs: seq<Remote>, a: seq<Remote>, w: nat)
    requires v.value.Some? && DistinctTimes(rs) && IsReordering(a, rs) && Greatest(rs, w)
    requires forall i, j | 0 <= i < j < |rs| :: !(rs[i].Remove? && rs[j].Remove?)
    ensures Fold(v, a) == if v.last <= rs[w].timestamp then After(rs[w]) else v
  {
    if v.last <= rs[w].timestamp {
      AgreesWithGreatest(v, rs, w, a);
    } else {
      forall i | 0 <= i < |a| ensures a[i].timestamp < v.last {
        var j := ReorderedAt(rs, a, i);
      }
      AllStale(v, a);
    }
  }

  lemma ReorderedTyped(code: byte, rs: seq<Remote>, a: seq<Remote>)
    requires Typed(code, rs) && IsReordering(a, rs)
    ensures Typed(code, a)
  {
    forall i | 0 <= i < |a| ensures a[i].timestamp != 0 && (a[i].Write? ==> a[i].value.TypeCode() == code) {
      var j := ReorderedAt(rs, a, i);
    }
  }

  /** The same for the store: any set of updates of the entry's type and at most one deletion, with distinct nonzero
      times, leaves in every order `a` the value, presence and time of the greatest one, or what was there before when
      all are older than the entry. */
  lemma LastWriterWins(st: State, id: EntryId, rs: seq<Remote>, w: nat, a: seq<Remote>, now: int)
    requires Inv(st) && id in st.ids && st.entries[st.ids[id]].HasValue()
    requires Typed(st.entries[st.ids[id]].value.TypeCode(), rs)
    requires DistinctTimes(rs) && Greatest(rs, w) && IsReordering(a, rs)
    requires forall i, j | 0 <= i < j < |rs| :: !(rs[i].Remove? && rs[j].Remove?)
    ensures
      var h, st' := st.ids[id], ReachAll(st, id, a, now);
      && |st'.entries| == |st.entries| && st'.ids == st.ids
      && ViewOf(st'.entries[h])
         == if st.entries[h].lastUpdate <= rs[w].timestamp then After(rs[w]) else ViewOf(st.entries[h])
  {
    hide Fold, Typed, ReachAll, Replayable, IsReordering, DistinctTimes, Greatest;
    var e := st.entries[st.ids[id]];
    ReorderedTyped(e.value.TypeCode(), rs, a);
    StoreFollowsView(st, id, a, now, e.value.TypeCode());
    ViewsAgree(ViewOf(e), rs, a, w);
  }

  /** What the store's entry has come to after the messages in the order `a`. */
  function EndView(st: State, id: EntryId, a: seq<Remote>, now: int): View
    requires id in st.ids
  {
    var st' := ReachAll(st, id, a, now);
    if st.ids[id] < |st'.entries| then ViewOf(st'.entries[st.ids[id]]) else View(None, 0)
  }

  /** The exact condition for the store: an entry that accepts the type of the updates, whether it shows a value or not,
      and any messages with distinct nonzero times. */
  lemma StoreOrderIff(st: State, id: EntryId, rs: seq<Remote>, w: nat, now: int, code: byte)
    requires Ready(st, id, code) && Typed(code, rs) && DistinctTimes(rs) && Greatest(rs, w)
    ensures st.ids[id] < |st.entries|
    ensures
      var v := ViewOf(st.entries[st.ids[id]]);
      && ((forall a | IsReordering(a, rs) :: EndView(st, id, a, now) == Agreed(v, rs[w])) <==> Agreeable(v, rs, w))
      && ((forall a, b | IsReordering(a, rs) && IsReordering(b, rs) ::
             EndView(st, id, a, now) == EndView(st, id, b, now)) <==> Agreeable(v, rs, w))
  {
    ReadyHandle(st, id, code);
    var v := ViewOf(st.entries[st.ids[id]]);
    hide Ready, Typed, ReachAll, ViewOf, Fold, Agreeable, Agreed, IsReordering, DistinctTimes, Greatest;
    forall a | IsReordering(a, rs) ensures EndView(st, id, a, now) == Fold(v, a) {
      ReorderedTyped(code, rs, a);
      StoreFollowsView(st, id, a, now, code);
    }
    OrderDoesNotMatterIff(v, rs, w);
  }
}
