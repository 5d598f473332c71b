/** Runs of local delivery: how often an ADU is delivered. */
module LocalRuns {
  import opened Basics
  import opened KnownBundles
  import opened Reassembly
  import opened Reassembler
  import opened LocalDelivery

  /** After the first `n` arrivals. */
  function State(s: Node, events: seq<Arrival>, n: nat): Node
    requires n <= |events|
  {
    if n == 0 then s else DeliverLocal(State(s, events, n - 1), events[n - 1]).0
  }

  /** What the `i`-th arrival delivers. */
  function Out(s: Node, events: seq<Arrival>, i: nat): Option<Delivery>
    requires i < |events|
  {
    DeliverLocal(State(s, events, i), events[i]).1
  }

  /** The clock never goes back. */
  ghost predicate ClockRuns(events: seq<Arrival>) {
    forall i, j :: 0 <= i < j < |events| ==> events[i].now <= events[j].now
  }

  /** Bundles of one source, timestamp and sequence number belong to one ADU. */
  ghost predicate OneAdu(events: seq<Arrival>) {
    forall i, j :: 0 <= i < |events| && 0 <= j < |events| && events[i].f.key == events[j].f.key
        ==> AduOf(events[i].f) == AduOf(events[j].f)
  }

  // ---- one arrival ----

  /** The entry under which a delivered ADU is remembered. */
  function Remembered(d: Delivery, now: nat): Entry
    requires d.frags != []
  {
    Entry(d.adu, Deadline(d.frags[0], now))
  }

  /** The first fragment of what is delivered is waiting, or is the arrival itself. */
  ghost predicate FromPending(pending: map<Key, seq<Fragment>>, a: Arrival, d: Delivery) {
    d.frags != [] && d.adu == AduOf(d.frags[0]) && (d.frags[0] == a.f || d.frags[0] in Queued(pending, a.f.key))
  }

  lemma {:induction false} InsertMembers(list: seq<Fragment>, f: Fragment)
    ensures Insert(list, f) != [] && forall x :: x in Insert(list, f) <==> x == f || x in list
  {
    if list != [] && list[0].offset <= f.offset {
      InsertMembers(list[1..], f);
      assert forall x :: x in list <==> x == list[0] || x in list[1..];
    }
  }

  /** A delivered ADU is remembered, and nothing is forgotten but what has expired. */
  lemma ArrivalKeeps(s: Node, a: Arrival, x: Entry)
    requires s.Node? && Sorted(s.known)
    ensures var (next, out) := DeliverLocal(s, a);
      && (next.Node? ==> Sorted(next.known))
      && (next.Node? && x in s.known && x.deadline >= a.now ==> x in next.known)
      && (out.Some? ==>
          next.Node? && FromPending(s.pending, a, out.value) && Remembered(out.value, a.now) in next.known)
  {
    var e := Entry(Identify(a.f), Deadline(a.f, a.now));
    LookupKeepsOrder(s.known, e, a.now);
    LookupAdds(s.known, e, a.now);
    if x in s.known && x.deadline >= a.now { LookupKeeps(s.known, e, a.now, x); }
    var list := Record(s.known, e, a.now).1;
    InsertMembers(Queued(s.pending, a.f.key), a.f);
    var done := Receive(s.pending, a.f).1;
    if done.Some? { AddKnownKeeps(list, Entry(AduOf(done.value[0]), Deadline(done.value[0], a.now))); }
  }

  /** While an ADU is remembered and has not expired, nothing of it with the same or a later deadline is delivered. */
  lemma RememberedIsRefused(s: Node, a: Arrival, x: Entry)
    requires s.Node? && Sorted(s.known) && x in s.known && x.id == AduOf(a.f)
    requires x.deadline <= Deadline(a.f, a.now) && a.now <= x.deadline
    ensures DeliverLocal(s, a).1 == None
  {
    var e := Entry(Identify(a.f), Deadline(a.f, a.now));
    if a.whole {
      LookupFinds(s.known, e, a.now, x);
    } else {
      LookupKeepsOrder(s.known, e, a.now);
      LookupKeeps(s.known, e, a.now, x);
      ReassembledFound(Record(s.known, e, a.now).1, Entry(AduOf(a.f), e.deadline), x);
    }
  }

  /** What is delivered was in time. */
  lemma DeliveredInTime(s: Node, a: Arrival)
    requires DeliverLocal(s, a).1.Some?
    ensures a.now <= Deadline(a.f, a.now)
  {
  }

  // ---- runs ----

  /** The fragment came with one of the first `n` arrivals. */
  ghost predicate Came(events: seq<Arrival>, f: Fragment, n: nat) {
    exists m :: 0 <= m < n && m < |events| && events[m].f == f
  }

  /** Everything that waits has come. */
  ghost predicate PendingCame(s: Node, events: seq<Arrival>, n: nat) {
    s.Node? ==> forall key, f :: f in Queued(s.pending, key) ==> f.key == key && Came(events, f, n)
  }

  lemma {:induction false} AllPendingCame(events: seq<Arrival>, n: nat)
    requires n <= |events|
    ensures PendingCame(State(Node([], map[]), events, n), events, n)
  {
    if n > 0 {
      AllPendingCame(events, n - 1);
      PendingStep(State(Node([], map[]), events, n - 1), events, n);
    }
  }

  /** What waits behind an arrival is what waited before, or the arrival. */
  lemma QueuedAfter(s: Node, a: Arrival, key: Key, f: Fragment)
    requires s.Node? && DeliverLocal(s, a).0.Node? && f in Queued(DeliverLocal(s, a).0.pending, key)
    ensures f in Queued(s.pending, key) || (f == a.f && key == a.f.key)
  {
    InsertMembers(Queued(s.pending, a.f.key), a.f);
  }

  lemma PendingStep(s: Node, events: seq<Arrival>, n: nat)
    requires 0 < n <= |events| && PendingCame(s, events, n - 1)
    ensures PendingCame(DeliverLocal(s, events[n - 1]).0, events, n)
  {
    var a, next := events[n - 1], DeliverLocal(s, events[n - 1]).0;
    if next.Node? {
      forall key, f | f in Queued(next.pending, key) ensures f.key == key && Came(events, f, n) {
        QueuedAfter(s, a, key, f);
        if f in Queued(s.pending, key) {
          assert Came(events, f, n - 1);
        } else {
          assert events[n - 1].f == f;
        }
      }
    }
  }

  /** Until it expires, a delivered ADU stays remembered. */
  lemma {:induction false} StaysRemembered(s: Node, events: seq<Arrival>, m: nat, n: nat, x: Entry)
    requires m <= n <= |events| && State(s, events, m).Node? && Sorted(State(s, events, m).known)
             && x in State(s, events, m).known
    requires forall k :: m <= k < n ==> events[k].now <= x.deadline
    ensures State(s, events, n).Node? ==> Sorted(State(s, events, n).known) && x in State(s, events, n).known
    decreases n
  {
    if n > m {
      StaysRemembered(s, events, m, n - 1, x);
      if State(s, events, n - 1).Node? { ArrivalKeeps(State(s, events, n - 1), events[n - 1], x); }
    }
  }

  lemma {:induction false} KnownSorted(s: Node, events: seq<Arrival>, n: nat)
    requires n <= |events| && (s.Node? ==> Sorted(s.known))
    ensures State(s, events, n).Node? ==> Sorted(State(s, events, n).known)
  {
    if n > 0 {
      KnownSorted(s, events, n - 1);
      if State(s, events, n - 1).Node? {
        ArrivalKeeps(State(s, events, n - 1), events[n - 1], Entry(AduOf(events[n - 1].f), 0));
      }
    }
  }

  /**
   * Over any run of whole bundles and fragments, an ADU that was delivered is delivered again only if it
   * comes back with an earlier deadline or after the one remembered has passed.
   */
  lemma DeliveredAgain(events: seq<Arrival>, i: nat, j: nat)
    requires ClockRuns(events) && OneAdu(events) && i < j < |events|
    requires var s := Node([], map[]); Out(s, events, i).Some? && Out(s, events, j).Some?
    requires var s := Node([], map[]); Out(s, events, i).value.adu == Out(s, events, j).value.adu
    ensures var first := Out(Node([], map[]), events, i).value;
      && first.frags != []
      && MayComeBack(Remembered(first, events[i].now).deadline, Deadline(events[j].f, events[j].now), events[j].now)
  {
    var s := Node([], map[]);
    var before, a := State(s, events, j), events[j];
    KnownSorted(s, events, i);
    var first := Out(s, events, i).value;
    var x := Entry(first.adu, 0);
    ArrivalKeeps(State(s, events, i), events[i], x);
    x := Remembered(first, events[i].now);
    DeliveredInTime(before, a);
    AduIsOwn(events, j);
    if !MayComeBack(x.deadline, Deadline(a.f, a.now), a.now) {
      forall k | i + 1 <= k < j ensures events[k].now <= x.deadline { assert events[k].now <= events[j].now; }
      StaysRemembered(s, events, i + 1, j, x);
      RememberedIsRefused(before, a, x);
    }
  }

  /** The first fragment of what is delivered has come, and belongs to the ADU of the arrival. */
  lemma FirstCame(events: seq<Arrival>, j: nat)
    requires j < |events| && Out(Node([], map[]), events, j).Some?
    ensures var d := Out(Node([], map[]), events, j).value;
            d.frags != [] && d.adu == AduOf(d.frags[0]) && d.frags[0].key == events[j].f.key
                && Came(events, d.frags[0], j + 1)
  {
    var s := Node([], map[]);
    AllPendingCame(events, j);
    KnownSorted(s, events, j);
    ArrivalKeeps(State(s, events, j), events[j], Entry(AduOf(events[j].f), 0));
    var f := Out(s, events, j).value.frags[0];
    assert Came(events, f, j) || events[j].f == f;
  }

  lemma AduIsOwn(events: seq<Arrival>, j: nat)
    requires OneAdu(events) && j < |events| && Out(Node([], map[]), events, j).Some?
    ensures Out(Node([], map[]), events, j).value.adu == AduOf(events[j].f)
  {
    FirstCame(events, j);
  }

  /** So an ADU with a timestamp and one lifetime is delivered at most once. */
  lemma DeliveredAtMostOnce(events: seq<Arrival>, i: nat, j: nat)
    requires ClockRuns(events) && OneAdu(events) && i < j < |events|
    requires events[j].f.key.timestamp != 0
    requires forall k ::
               0 <= k < |events| && events[k].f.key == events[j].f.key ==> events[k].f.terms == events[j].f.terms
    requires var s := Node([], map[]); Out(s, events, i).Some? && Out(s, events, j).Some?
    ensures Out(Node([], map[]), events, i).value.adu != Out(Node([], map[]), events, j).value.adu
  {
    var s := Node([], map[]);
    FirstCame(events, i);
    AduIsOwn(events, j);
    if Out(s, events, i).value.adu == Out(s, events, j).value.adu { DeliveredAgain(events, i, j); }
  }

  /** A fragment that holds its whole ADU is taken for one of an ADU delivered already: its own entry is found. */
  lemma WholeFragmentIsLost(s: Node, a: Arrival)
    requires s.Node? && Sorted(s.known) && !a.whole && a.wanted && a.f.offset == 0 && |a.f.data| == a.f.total
    requires !Record(s.known, Entry(Identify(a.f), Deadline(a.f, a.now)), a.now).0
    ensures DeliverLocal(s, a) == (Lost, None)
  {
    var e := Entry(Identify(a.f), Deadline(a.f, a.now));
    LookupKeepsOrder(s.known, e, a.now);
    LookupAdds(s.known, e, a.now);
    ReassembledFound(Record(s.known, e, a.now).1, Entry(AduOf(a.f), e.deadline), e);
  }
}
