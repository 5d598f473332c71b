/**
 * Duplicate suppression for local delivery (components/upcn/bundle_processor.c, lines 917-1005): a
 * list of identities already seen, ordered by deadline, from which entries are dropped lazily.
 */
module KnownBundles {

  /** struct bundle_unique_identifier */
  datatype Identity = Identity(
    version: nat, source: string, timestamp: nat, sequence: nat,
    fragmentOffset: nat, payloadLength: nat)

  datatype Entry = Entry(id: Identity, deadline: nat)

  ghost predicate Sorted(list: seq<Entry>) {
    forall i, j :: 0 <= i < j < |list| ==> list[i].deadline <= list[j].deadline
  }

  /** The answer and the list after looking for `e` at time `now`; `e` is inserted when it is not found. */
  function Lookup(list: seq<Entry>, e: Entry, now: nat): (bool, seq<Entry>) {
    if list == [] then (false, [e])
    else if list[0].id == e.id then (true, list)
    else if list[0].deadline < now then Lookup(list[1..], e, now)
    else if list[0].deadline > e.deadline then (false, [e] + list)
    else
      var (known, rest) := Lookup(list[1..], e, now);
      (known, [list[0]] + rest)
  }

  /** bundle_record_add_and_check_known */
  function Record(list: seq<Entry>, e: Entry, now: nat): (bool, seq<Entry>) {
    if e.deadline < now then (true, list) else Lookup(list, e, now)
  }

  /** The place of an entry with deadline `d`: behind all that are not later. */
  function Place(list: seq<Entry>, d: nat): (k: nat)
    ensures k <= |list|
  {
    if list == [] || list[0].deadline > d then 0 else 1 + Place(list[1..], d)
  }

  /** bundle_add_reassembled_as_known */
  function AddKnown(list: seq<Entry>, e: Entry): seq<Entry> {
    var k := Place(list, e.deadline);
    list[..k] + [e] + list[k..]
  }

  /** bundle_reassembled_is_known: whether the identity of `e` is reached in the order by deadline. */
  function ReassembledKnown(list: seq<Entry>, e: Entry): bool {
    list != [] && (list[0].id == e.id || (list[0].deadline <= e.deadline && ReassembledKnown(list[1..], e)))
  }

  class KnownList {
    var list: seq<Entry>

    constructor ()
      ensures list == []
    {
      list := [];
    }

    /** The walk with a slot pointer: entries before `kept` stay, expired ones are unlinked on the way. */
    method RecordAndCheck(e: Entry, now: nat) returns (known: bool)
      modifies this
      ensures (known, list) == Record(old(list), e, now)
    {
      if e.deadline < now { return true; }
      var kept := 0;
      while kept < |list|
        invariant kept <= |list|
        invariant Lookup(old(list), e, now).0 == Lookup(list[kept..], e, now).0
        invariant Lookup(old(list), e, now).1 == list[..kept] + Lookup(list[kept..], e, now).1
        decreases |list| - kept
      {
        var cur := list[kept];
        ghost var here := list[kept..];
        if cur.id == e.id {
          assert list == list[..kept] + here;
          return true;
        } else if cur.deadline < now {
          list := list[..kept] + list[kept + 1..];
          assert list[kept..] == here[1..];
        } else if cur.deadline > e.deadline {
          break;
        } else {
          assert list[kept + 1..] == here[1..] && list[..kept + 1] == list[..kept] + [cur];
          kept := kept + 1;
        }
      }
      assert [e] + list[|list|..] == [e];
      assert Lookup(list[kept..], e, now) == (false, [e] + list[kept..]);
      assert list[..kept] + [e] + list[kept..] == list[..kept] + ([e] + list[kept..]);
      list := list[..kept] + [e] + list[kept..];
      known := false;
    }

    method ReassembledIsKnown(e: Entry) returns (known: bool)
      ensures known == ReassembledKnown(list, e)
    {
      var k := 0;
      while k < |list|
        invariant k <= |list| && ReassembledKnown(list, e) == ReassembledKnown(list[k..], e)
      {
        assert list[k..][0] == list[k] && list[k..][1..] == list[k + 1..];
        if list[k].id == e.id { return true; }
        if list[k].deadline > e.deadline { return false; }
        k := k + 1;
      }
      known := false;
    }

    method AddReassembled(e: Entry)
      modifies this
      ensures list == AddKnown(old(list), e)
    {
      var k := 0;
      while k < |list| && list[k].deadline <= e.deadline
        invariant k <= |list| && Place(list, e.deadline) == k + Place(list[k..], e.deadline)
      {
        assert list[k..][1..] == list[k + 1..];
        k := k + 1;
      }
      list := list[..k] + [e] + list[k..];
    }
  }

  // ---- one call ----

  lemma {:induction false} LookupKeepsOrder(list: seq<Entry>, e: Entry, now: nat)
    requires Sorted(list)
    ensures Sorted(Lookup(list, e, now).1)
    ensures forall x <- Lookup(list, e, now).1 :: x == e || x in list
  {
    if list != [] && list[0].id != e.id && (list[0].deadline < now || list[0].deadline <= e.deadline) {
      LookupKeepsOrder(list[1..], e, now);
      var rest := Lookup(list[1..], e, now).1;
      if list[0].deadline >= now {
        assert forall i :: 0 <= i < |rest| ==> rest[i] in rest;
        assert Lookup(list, e, now).1 == [list[0]] + rest;
      }
    }
  }

  /** Nothing is forgotten but what has expired, and a new identity is remembered. */
  lemma {:induction false} LookupKeeps(list: seq<Entry>, e: Entry, now: nat, x: Entry)
    requires x in list && x.deadline >= now
    ensures x in Lookup(list, e, now).1
  {
    if list[0].id != e.id && (list[0].deadline < now || list[0].deadline <= e.deadline) && x != list[0] {
      LookupKeeps(list[1..], e, now, x);
    }
  }

  lemma {:induction false} LookupAdds(list: seq<Entry>, e: Entry, now: nat)
    ensures !Lookup(list, e, now).0 ==> e in Lookup(list, e, now).1
  {
    if list != [] && list[0].id != e.id && (list[0].deadline < now || list[0].deadline <= e.deadline) {
      LookupAdds(list[1..], e, now);
    }
  }

  /** An entry with the identity of `e` that the walk reaches: nothing before it makes the walk end early. */
  ghost predicate Reachable(list: seq<Entry>, e: Entry, now: nat) {
    exists k :: 0 <= k < |list| && list[k].id == e.id && Passable(list, k, e, now)
  }

  /** The first `k` entries have expired or do not expire later than `e`. */
  ghost predicate Passable(list: seq<Entry>, k: nat, e: Entry, now: nat) {
    forall i :: 0 <= i < k && i < |list| ==> list[i].deadline < now || list[i].deadline <= e.deadline
  }

  lemma ReachableLater(list: seq<Entry>, e: Entry, now: nat)
    requires list != [] && list[0].id != e.id && (list[0].deadline < now || list[0].deadline <= e.deadline)
    ensures Reachable(list, e, now) <==> Reachable(list[1..], e, now)
  {
    var rest := list[1..];
    if Reachable(list, e, now) {
      var k :| 0 <= k < |list| && list[k].id == e.id && Passable(list, k, e, now);
      assert rest[k - 1] == list[k] && Passable(rest, k - 1, e, now);
    }
    if Reachable(rest, e, now) {
      var k :| 0 <= k < |rest| && rest[k].id == e.id && Passable(rest, k, e, now);
      assert list[k + 1] == rest[k];
      forall i | 0 <= i < k + 1 ensures list[i].deadline < now || list[i].deadline <= e.deadline {
        if i > 0 { assert list[i] == rest[i - 1]; }
      }
    }
  }

  /** An identity is found just when the walk reaches an entry with it. */
  lemma {:induction false} LookupExact(list: seq<Entry>, e: Entry, now: nat)
    ensures Lookup(list, e, now).0 <==> Reachable(list, e, now)
  {
    if list != [] {
      if list[0].id == e.id {
        assert Passable(list, 0, e, now);
      } else if list[0].deadline < now || list[0].deadline <= e.deadline {
        ReachableLater(list, e, now);
        LookupExact(list[1..], e, now);
      }
    }
  }

  /** The early exit misses nothing in an ordered list: an entry that does not expire later than `e` is found. */
  lemma {:induction false} LookupFinds(list: seq<Entry>, e: Entry, now: nat, x: Entry)
    requires Sorted(list) && x in list && x.id == e.id && x.deadline <= e.deadline
    ensures Lookup(list, e, now).0
  {
    var k :| 0 <= k < |list| && list[k] == x;
    assert Passable(list, k, e, now);
    LookupExact(list, e, now);
  }

  /** In an ordered list a reassembled identity is found behind entries that do not expire later, and is there. */
  lemma {:induction false} ReassembledFound(list: seq<Entry>, e: Entry, x: Entry)
    requires Sorted(list)
    ensures x in list && x.id == e.id && x.deadline <= e.deadline ==> ReassembledKnown(list, e)
    ensures ReassembledKnown(list, e) ==> exists y :: y in list && y.id == e.id
  {
    if list != [] && list[0].id != e.id {
      ReassembledFound(list[1..], e, x);
      assert x in list && x.id == e.id ==> x in list[1..] && list[0].deadline <= x.deadline;
    }
  }

  lemma {:induction false} PlaceOrdered(list: seq<Entry>, d: nat)
    requires Sorted(list)
    ensures forall i :: 0 <= i < Place(list, d) ==> list[i].deadline <= d
    ensures forall i :: Place(list, d) <= i < |list| ==> list[i].deadline > d
  {
    if list != [] && list[0].deadline <= d {
      PlaceOrdered(list[1..], d);
      assert forall i :: 1 <= i < |list| ==> list[i] == list[1..][i - 1];
    }
  }

  lemma AddKnownKeeps(list: seq<Entry>, e: Entry)
    requires Sorted(list)
    ensures Sorted(AddKnown(list, e)) && e in AddKnown(list, e)
    ensures forall x <- list :: x in AddKnown(list, e)
    ensures forall x <- AddKnown(list, e) :: x == e || x in list
  {
    var k := Place(list, e.deadline);
    PlaceOrdered(list, e.deadline);
    SortedWith(list, e, k);
    WithOneMore(list, e, k);
  }

  lemma SortedWith(list: seq<Entry>, e: Entry, k: nat)
    requires Sorted(list) && k <= |list|
    requires forall i :: 0 <= i < k ==> list[i].deadline <= e.deadline
    requires forall i :: k <= i < |list| ==> list[i].deadline > e.deadline
    ensures Sorted(list[..k] + [e] + list[k..])
  {
    var r := list[..k] + [e] + list[k..];
    assert forall i :: 0 <= i < |r| ==> r[i] == if i < k then list[i] else if i == k then e else list[i - 1];
  }

  lemma WithOneMore(list: seq<Entry>, e: Entry, k: nat)
    requires k <= |list|
    ensures forall x :: x in list[..k] + [e] + list[k..] <==> x == e || x in list
  {
    assert list == list[..k] + list[k..];
    assert forall x :: x in list <==> x in list[..k] || x in list[k..];
  }

  // ---- runs ----

  /** A delivery attempt at a point in time, or the completion of a reassembly. */
  datatype Event = Deliver(e: Entry, now: nat) | Reassembled(e: Entry)

  /** The list after an event. */
  function Next(list: seq<Entry>, ev: Event): seq<Entry> {
    match ev
    case Deliver(e, now) => Record(list, e, now).1
    case Reassembled(e) => AddKnown(list, e)
  }

  /** Whether the event is the delivery of an identity that is accepted as unknown. */
  predicate Accepts(list: seq<Entry>, ev: Event) { ev.Deliver? && !Record(list, ev.e, ev.now).0 }

  /** For each event whether its identity was accepted. */
  function Answers(list: seq<Entry>, events: seq<Event>): (r: seq<bool>)
    ensures |r| == |events|
    decreases |events|
  {
    if events == [] then [] else [Accepts(list, events[0])] + Answers(Next(list, events[0]), events[1..])
  }

  /** The list after the events. */
  function Final(list: seq<Entry>, events: seq<Event>): seq<Entry>
    decreases |events|
  {
    if events == [] then list else Final(Next(list, events[0]), events[1..])
  }

  lemma {:induction false} AnswerAt(list: seq<Entry>, events: seq<Event>, j: nat)
    requires j < |events|
    ensures Answers(list, events)[j] == Accepts(Final(list, events[..j]), events[j])
    decreases |events|
  {
    if j > 0 {
      AnswerAt(Next(list, events[0]), events[1..], j - 1);
      assert events[..j][0] == events[0] && events[..j][1..] == events[1..][..j - 1];
    }
  }

  /** In every run a delivery is accepted just when it comes in time and the walk does not reach its identity. */
  lemma {:induction false} AnswersExact(list: seq<Entry>, events: seq<Event>, j: nat)
    requires j < |events|
    ensures Answers(list, events)[j] <==>
            events[j].Deliver? && events[j].now <= events[j].e.deadline &&
            !Reachable(Final(list, events[..j]), events[j].e, events[j].now)
  {
    AnswerAt(list, events, j);
    if events[j].Deliver? { LookupExact(Final(list, events[..j]), events[j].e, events[j].now); }
  }

  /** The clock never goes back. */
  ghost predicate Timed(events: seq<Event>) {
    forall i, j :: 0 <= i < j < |events| && events[i].Deliver? && events[j].Deliver? ==> events[i].now <= events[j].now
  }

  lemma TimedLater(events: seq<Event>)
    requires events != [] && Timed(events)
    ensures Timed(events[1..])
  {
  }

  lemma NextSorted(list: seq<Entry>, ev: Event)
    requires Sorted(list)
    ensures Sorted(Next(list, ev))
  {
    if ev.Deliver? { LookupKeepsOrder(list, ev.e, ev.now); } else { AddKnownKeeps(list, ev.e); }
  }

  lemma StaysListed(list: seq<Entry>, ev: Event, e: Entry)
    requires Sorted(list) && e in list && (ev.Deliver? ==> e.deadline >= ev.now)
    ensures e in Next(list, ev)
  {
    if ev.Deliver? { LookupKeeps(list, ev.e, ev.now, e); } else { AddKnownKeeps(list, ev.e); }
  }

  lemma {:induction false} StaysInRun(list: seq<Entry>, events: seq<Event>, x: Entry)
    requires Sorted(list) && x in list && forall i ::
                                            0 <= i < |events| && events[i].Deliver? ==> events[i].now <= x.deadline
    ensures Sorted(Final(list, events)) && x in Final(list, events)
    decreases |events|
  {
    if events != [] {
      NextSorted(list, events[0]);
      StaysListed(list, events[0], x);
      StaysInRun(Next(list, events[0]), events[1..], x);
    }
  }

  /** While an entry has not expired, no delivery of its identity with the same or a later deadline is accepted. */
  lemma {:induction false} KnownStaysKnown(list: seq<Entry>, events: seq<Event>, x: Entry, j: nat)
    requires Sorted(list) && x in list && Timed(events) && j < |events| && events[j].Deliver?
    requires events[j].e.id == x.id && x.deadline <= events[j].e.deadline && events[j].now <= x.deadline
    ensures !Answers(list, events)[j]
  {
    assert forall i :: 0 <= i < j ==> events[..j][i] == events[i];
    StaysInRun(list, events[..j], x);
    AnswerAt(list, events, j);
    LookupFinds(Final(list, events[..j]), events[j].e, events[j].now, x);
  }

  /** An accepted identity is listed, and so is a reassembled one. */
  lemma AcceptedIsListed(list: seq<Entry>, ev: Event)
    requires Sorted(list) && (Accepts(list, ev) || ev.Reassembled?)
    ensures ev.e in Next(list, ev)
  {
    if ev.Deliver? { LookupAdds(list, ev.e, ev.now); } else { AddKnownKeeps(list, ev.e); }
  }

  /**
   * When an identity accepted with deadline `first` may be accepted again at time `now` with deadline
   * `second`: if it is earlier, the walk can end before the entry; if it is later, the entry can have expired.
   */
  predicate MayComeBack(first: nat, second: nat, now: nat) {
    now <= second && (second < first || first < now)
  }

  /** Over any run, an identity that was accepted or reassembled is accepted again only if it may come back. */
  lemma {:induction false} AcceptedAgain(list: seq<Entry>, events: seq<Event>, i: nat, j: nat)
    requires Sorted(list) && Timed(events) && i < j < |events| && events[i].e.id == events[j].e.id
    requires Answers(list, events)[i] || events[i].Reassembled?
    ensures Answers(list, events)[j] ==> events[j].Deliver? && MayComeBack(events[i].e.deadline, events[j].e.deadline,
            events[j].now)
    decreases |events|
  {
    var ev := events[0];
    AnswersExact(list, events, j);
    NextSorted(list, ev);
    TimedLater(events);
    if i > 0 {
      AcceptedAgain(Next(list, ev), events[1..], i - 1, j - 1);
    } else if Answers(list, events)[j] && !MayComeBack(ev.e.deadline, events[j].e.deadline, events[j].now) {
      AcceptedIsListed(list, ev);
      KnownStaysKnown(Next(list, ev), events[1..], ev.e, j - 1);
    }
  }

  /** So with one deadline it is accepted at most once, and never after it was reassembled. */
  lemma {:induction false} AcceptedAtMostOnce(list: seq<Entry>, events: seq<Event>, i: nat, j: nat)
    requires Sorted(list) && Timed(events) && i < j < |events| && events[i].e == events[j].e
    requires Answers(list, events)[i] || events[i].Reassembled?
    ensures !Answers(list, events)[j]
  {
    AcceptedAgain(list, events, i, j);
  }

  /**
   * Whenever it may come back there is a run in which it does, with one other bundle: one with a
   * deadline in between that ends the walk, or one whose walk drops the expired entry.
   */
  lemma AcceptedTwice(id: Identity, other: Identity, first: nat, second: nat, before: nat, now: nat)
    requires id != other && before <= now && before <= first && MayComeBack(first, second, now)
    ensures second < first ==>
              Answers([], [Deliver(Entry(other, second + 1), before), Deliver(Entry(id, first), before),
                  Deliver(Entry(id, second), now)])
              == [true, true, true]
    ensures first < now ==>
              Answers([], [Deliver(Entry(id, first), before), Deliver(Entry(other, second), now),
                  Deliver(Entry(id, second), now)])
              == [true, true, true]
  {
    if second < first {
      var a, b, c := Entry(other, second + 1), Entry(id, first), Entry(id, second);
      assert [a][1..] == [] && Lookup([], b, before) == (false, [b]);
      assert Lookup([a], b, before) == (false, [a] + [b]) && [a] + [b] == [a, b];
      assert Lookup([a, b], c, now) == (false, [c] + [a, b]);
      ThreeAnswers([a], [a, b], Deliver(a, before), Deliver(b, before), Deliver(c, now));
    }
    if first < now {
      var a, b, c := Entry(id, first), Entry(other, second), Entry(id, second);
      assert [a][1..] == [] && Lookup([], b, now) == (false, [b]);
      assert Lookup([a], b, now) == (false, [b]);
      assert [b][1..] == [] && Lookup([], c, now) == (false, [c]);
      assert Lookup([b], c, now) == (false, [b] + [c]);
      ThreeAnswers([a], [b], Deliver(a, before), Deliver(b, now), Deliver(c, now));
    }
  }

  lemma ThreeAnswers(list: seq<Entry>, list': seq<Entry>, e1: Event, e2: Event, e3: Event)
    requires Accepts([], e1) && Next([], e1) == list
    requires Accepts(list, e2) && Next(list, e2) == list' && Accepts(list', e3)
    ensures Answers([], [e1, e2, e3]) == [true, true, true]
  {
    assert [e1, e2, e3][1..] == [e2, e3] && [e2, e3][1..] == [e3] && [e3][1..] == [];
    assert Answers(list', [e3]) == [true];
    assert Answers(list, [e2, e3]) == [true] + [true];
    assert Answers([], [e1, e2, e3]) == [true] + [true, true];
  }

  /** The order by deadline survives every run. */
  lemma {:induction false} StaysSorted(list: seq<Entry>, events: seq<Event>)
    requires Sorted(list)
    ensures Sorted(Final(list, events))
    decreases |events|
  {
    if events != [] {
      NextSorted(list, events[0]);
      StaysSorted(Next(list, events[0]), events[1..]);
    }
  }
}
