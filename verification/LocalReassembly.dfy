/**
 * Local delivery of an ADU that arrives in fragments: repeated fragments are dropped before they reach
 * the reassembly, which therefore works on the first arrivals.
 */
module LocalReassembly {
  import opened Basics
  import opened KnownBundles
  import opened Reassembly
  import opened Reassembler
  import opened LocalDelivery
  import opened LocalRuns

  /** When bundles with a timestamp expire. */
  function Due(key: Key, t: Terms): nat { key.timestamp + (t.lifetime + 500000) / 1000000 }

  /** In time, for somebody, and a piece or an empty fragment at the offset of one. */
  ghost predicate Belongs(a: Arrival, t: Terms, pieces: seq<Fragment>) {
    && !a.whole && a.wanted && a.f.terms == t && a.now <= Due(a.f.key, t)
    && (a.f in pieces || EmptyPiece(a.f, pieces))
  }

  /** All that arrives with `key` are such fragments, any number of times and in any order. */
  ghost predicate ComesLocally(events: seq<Arrival>, key: Key, t: Terms, pieces: seq<Fragment>) {
    key.timestamp != 0 && forall i :: 0 <= i < |events| && events[i].f.key == key ==> Belongs(events[i], t, pieces)
  }

  /** The fragments with `key` in the order of their first arrival. */
  function Firsts(events: seq<Arrival>, key: Key, n: nat): seq<Fragment>
    requires n <= |events|
  {
    if n == 0 then []
    else
      var before, f := Firsts(events, key, n - 1), events[n - 1].f;
      if f.key == key && f !in before then before + [f] else before
  }

  ghost predicate AllIn(pieces: seq<Fragment>, list: seq<Fragment>) { forall x <- pieces :: x in list }

  /** Fragments with `key`, each once. */
  ghost predicate Once(list: seq<Fragment>, key: Key, t: Terms, pieces: seq<Fragment>) {
    && (forall x <- list :: x.key == key && x.terms == t && (x in pieces || EmptyPiece(x, pieces)))
    && (forall i, j :: 0 <= i < j < |list| ==> list[i] != list[j])
  }

  lemma CameNext(events: seq<Arrival>, x: Fragment, n: nat)
    requires 0 < n <= |events|
    ensures Came(events, x, n) <==> Came(events, x, n - 1) || x == events[n - 1].f
  {
    if Came(events, x, n - 1) {
      var m :| 0 <= m < n - 1 && events[m].f == x;
      assert m < n;
    }
  }

  /** They are the fragments with `key` that have come. */
  lemma {:induction false} FirstsMembers(events: seq<Arrival>, key: Key, n: nat, x: Fragment)
    requires n <= |events|
    ensures x in Firsts(events, key, n) <==> x.key == key && Came(events, x, n)
  {
    if n > 0 {
      FirstsMembers(events, key, n - 1, x);
      CameNext(events, x, n);
    }
  }

  lemma {:induction false} FirstsOnce(events: seq<Arrival>, key: Key, t: Terms, pieces: seq<Fragment>, n: nat)
    requires n <= |events| && ComesLocally(events, key, t, pieces)
    ensures Once(Firsts(events, key, n), key, t, pieces)
  {
    if n > 0 { FirstsOnce(events, key, t, pieces, n - 1); }
  }

  // ---- identities ----

  /** Two fragments of the ADU with one identity are the same. */
  lemma SameIdentity(pieces: seq<Fragment>, key: Key, adu: seq<Byte>, t: Terms, x: Fragment, y: Fragment)
    requires Tiles(pieces, key, adu) && Identify(x) == Identify(y) && x.terms == t == y.terms
    requires (x in pieces || EmptyPiece(x, pieces)) && (y in pieces || EmptyPiece(y, pieces))
    ensures x == y
  {
    if x.data == [] {
      EmptyTotal(pieces, key, adu, x);
      EmptyTotal(pieces, key, adu, y);
    } else {
      var i :| 0 <= i < |pieces| && pieces[i] == x;
      var j :| 0 <= j < |pieces| && pieces[j] == y;
      SameTile(pieces, key, adu, i, j, x.offset);
    }
  }

  lemma EmptyTotal(pieces: seq<Fragment>, key: Key, adu: seq<Byte>, x: Fragment)
    requires Tiles(pieces, key, adu) && (x in pieces || EmptyPiece(x, pieces))
    ensures x.total == |adu| && x.key == key && (x in pieces <==> x.data != [])
  {
    if x in pieces {
      var i :| 0 <= i < |pieces| && pieces[i] == x;
    } else {
      var k :| 0 <= k < |pieces| && EmptyOf(x, pieces[k]);
      assert pieces[k] in pieces;
    }
  }

  /** With two pieces or more, none has the identity of the ADU. */
  lemma NotWhole(pieces: seq<Fragment>, key: Key, adu: seq<Byte>, x: Fragment)
    requires Tiles(pieces, key, adu) && |pieces| >= 2 && (x in pieces || EmptyPiece(x, pieces))
    ensures x.total == |adu| && Identify(x) != AduOf(x)
  {
    EmptyTotal(pieces, key, adu, x);
    assert pieces[0] in pieces && pieces[1] in pieces && |pieces[0].data| > 0 && |pieces[1].data| > 0;
    if x in pieces {
      var i :| 0 <= i < |pieces| && pieces[i] == x;
      if i == 0 {
        TileReach(pieces, key, adu, 1);
      } else {
        TileReach(pieces, key, adu, i);
        TileOrder(pieces, key, adu, 0, i);
      }
    }
  }

  // ---- what the node remembers of the ADU ----

  predicate OfKey(id: Identity, key: Key) {
    id.source == key.source && id.timestamp == key.timestamp && id.sequence == key.sequence
  }

  ghost predicate OwnKeys(pending: map<Key, seq<Fragment>>) {
    forall key, f :: f in Queued(pending, key) ==> f.key == key
  }

  /** Identities of first arrivals, and the one of the ADU once all pieces are there. */
  ghost predicate Explained(id: Identity, firsts: seq<Fragment>, adu: Identity, pieces: seq<Fragment>) {
    (exists g :: g in firsts && id == Identify(g)) || (id == adu && AllIn(pieces, firsts))
  }

  /** What is known of the ADU, and what waits for it, comes from the first arrivals. */
  ghost predicate Follows(s: Node, firsts: seq<Fragment>, key: Key, t: Terms, pieces: seq<Fragment>, adu: Identity) {
    && s.Node? && Sorted(s.known) && OwnKeys(s.pending)
    && (forall e <- s.known :: OfKey(e.id, key) ==> Explained(e.id, firsts, adu, pieces))
    && (forall g <- firsts :: Entry(Identify(g), Due(key, t)) in s.known)
    && Queued(s.pending, key) == Queued(After(map[], firsts, |firsts|), key)
  }

  /** What an arrival leaves in the list of known bundles. */
  lemma KnownAfter(s: Node, a: Arrival)
    requires s.Node? && Sorted(s.known) && OwnKeys(s.pending) && DeliverLocal(s, a).0.Node?
    ensures var (next, out) := DeliverLocal(s, a);
      && Sorted(next.known) && OwnKeys(next.pending)
      && (forall x <- s.known :: x.deadline >= a.now ==> x in next.known)
      && (!Record(s.known, Entry(Identify(a.f), Deadline(a.f, a.now)), a.now).0 ==>
            Entry(Identify(a.f), Deadline(a.f, a.now)) in next.known)
      && (forall x <- next.known ::
            || x in s.known || x.id == Identify(a.f)
            || (out.Some? && FromPending(s.pending, a, out.value) && x.id == out.value.adu))
  {
    var next := DeliverLocal(s, a).0;
    var e := Entry(Identify(a.f), Deadline(a.f, a.now));
    forall x | x in s.known && x.deadline >= a.now ensures x in next.known { ArrivalKeeps(s, a, x); }
    ArrivalKeeps(s, a, e);
    LookupKeepsOrder(s.known, e, a.now);
    LookupAdds(s.known, e, a.now);
    var done := Receive(s.pending, a.f).1;
    if done.Some? {
      InsertMembers(Queued(s.pending, a.f.key), a.f);
      AddKnownKeeps(Record(s.known, e, a.now).1, Entry(AduOf(done.value[0]), Deadline(done.value[0], a.now)));
    }
    forall key, f | f in Queued(next.pending, key) ensures f.key == key { QueuedAfter(s, a, key, f); }
  }

  /** Other arrivals change nothing of the ADU. */
  lemma OtherArrives(s: Node, a: Arrival, firsts: seq<Fragment>, key: Key, t: Terms, pieces: seq<Fragment>,
      adu: Identity)
    requires Follows(s, firsts, key, t, pieces, adu) && a.f.key != key && a.now <= Due(key, t)
             && DeliverLocal(s, a).0.Node?
    ensures Follows(DeliverLocal(s, a).0, firsts, key, t, pieces, adu)
  {
    KnownAfter(s, a);
    var next := DeliverLocal(s, a).0;
    forall x | x in next.known && OfKey(x.id, key) ensures Explained(x.id, firsts, adu, pieces) {
      assert x in s.known;
    }
    assert Queued(next.pending, key) == Queued(s.pending, key);
  }

  /** A repeated fragment is dropped. */
  lemma RepeatedArrives(s: Node, a: Arrival, firsts: seq<Fragment>, key: Key, t: Terms, pieces: seq<Fragment>,
      adu: Identity)
    requires Follows(s, firsts, key, t, pieces, adu) && a.f.key == key && key.timestamp != 0 && Belongs(a, t, pieces)
             && a.f in firsts
    ensures DeliverLocal(s, a).1 == None && Follows(DeliverLocal(s, a).0, firsts, key, t, pieces, adu)
  {
    var x := Entry(Identify(a.f), Due(key, t));
    assert x == Entry(Identify(a.f), Deadline(a.f, a.now));
    LookupFinds(s.known, x, a.now, x);
    KnownAfter(s, a);
    LookupKeepsOrder(s.known, x, a.now);
  }

  // ---- a first arrival ----

  /** The fragment is not known. */
  lemma NotKnown(s: Node, a: Arrival, firsts: seq<Fragment>, key: Key, t: Terms, pieces: seq<Fragment>, adu: seq<Byte>)
    requires Tiles(pieces, key, adu) && |pieces| >= 2 && Once(firsts, key, t, pieces) && key.timestamp != 0
    requires Follows(s, firsts, key, t, pieces, AduOf(a.f)) && a.f.key == key && Belongs(a, t, pieces) && a.f !in firsts
    ensures !Record(s.known, Entry(Identify(a.f), Deadline(a.f, a.now)), a.now).0
  {
    var e := Entry(Identify(a.f), Deadline(a.f, a.now));
    LookupExact(s.known, e, a.now);
    if Reachable(s.known, e, a.now) {
      var k :| 0 <= k < |s.known| && s.known[k].id == e.id && Passable(s.known, k, e, a.now);
      assert s.known[k] in s.known && OfKey(e.id, key);
      NotWhole(pieces, key, adu, a.f);
      var g :| g in firsts && e.id == Identify(g);
      SameIdentity(pieces, key, adu, t, g, a.f);
    }
  }

  /** It is taken for one of an ADU delivered already only when all pieces are there. */
  lemma StaleIsComplete(s: Node, a: Arrival, firsts: seq<Fragment>, key: Key, t: Terms, pieces: seq<Fragment>,
      adu: seq<Byte>)
    requires Tiles(pieces, key, adu) && |pieces| >= 2 && Once(firsts, key, t, pieces) && key.timestamp != 0
    requires Follows(s, firsts, key, t, pieces, AduOf(a.f)) && a.f.key == key && Belongs(a, t, pieces) && a.f !in firsts
    requires DeliverLocal(s, a).0.Lost?
    ensures AllIn(pieces, firsts) && DeliverLocal(s, a).1 == None
  {
    var e := Entry(Identify(a.f), Deadline(a.f, a.now));
    NotKnown(s, a, firsts, key, t, pieces, adu);
    LookupKeepsOrder(s.known, e, a.now);
    var list := Record(s.known, e, a.now).1;
    ReassembledFound(list, Entry(AduOf(a.f), e.deadline), e);
    var y :| y in list && y.id == AduOf(a.f);
    NotWhole(pieces, key, adu, a.f);
    assert y in s.known && OfKey(y.id, key);
    if g :| g in firsts && y.id == Identify(g) {
      NotWhole(pieces, key, adu, g);
      assert false;
    }
  }

  /** What is received of a key depends on what waits for it. */
  lemma ReceiveAlike(p: map<Key, seq<Fragment>>, q: map<Key, seq<Fragment>>, f: Fragment)
    requires Queued(p, f.key) == Queued(q, f.key)
    ensures Receive(p, f).1 == Receive(q, f).1 && Queued(Receive(p, f).0, f.key) == Queued(Receive(q, f).0, f.key)
  {
  }

  lemma {:induction false} AfterPrefix(arriving: seq<Fragment>, f: Fragment, n: nat)
    requires n <= |arriving|
    ensures After(map[], arriving + [f], n) == After(map[], arriving, n)
  {
    if n > 0 { AfterPrefix(arriving, f, n - 1); }
  }

  lemma OnceComes(firsts: seq<Fragment>, key: Key, t: Terms, pieces: seq<Fragment>)
    requires Once(firsts, key, t, pieces)
    ensures Comes(firsts, key, pieces)
    ensures forall x, n :: n >= |firsts| ==> (Arrived(firsts, x, n) <==> x in firsts)
  {
    forall x, n | n >= |firsts| ensures Arrived(firsts, x, n) <==> x in firsts {
      if x in firsts {
        var i :| 0 <= i < |firsts| && firsts[i] == x;
        assert i < n;
      }
    }
  }

  /** The reassembly works on the first arrivals. */
  lemma Reassembles(firsts: seq<Fragment>, f: Fragment, key: Key, t: Terms, pieces: seq<Fragment>, adu: seq<Byte>)
    requires Tiles(pieces, key, adu) && Once(firsts + [f], key, t, pieces)
    ensures var list := firsts + [f];
      Delivers(Completed(map[], list, |firsts|), adu,
               AllIn(pieces, list) && !AllIn(pieces, firsts) && !Obstructed(list, key, |adu|, |firsts|))
  {
    var list := firsts + [f];
    assert list[|firsts|] == f && f in list;
    OnceComes(list, key, t, pieces);
    DeliveredWhenComplete(map[], list, key, pieces, adu, |firsts|);
    forall x ensures Arrived(list, x, |firsts|) <==> x in firsts {
      if x in firsts {
        var i :| 0 <= i < |firsts| && firsts[i] == x;
        assert list[i] == x;
      }
    }
  }

  lemma {:induction false} FirstReceived(s: Node, a: Arrival, firsts: seq<Fragment>)
    requires s.Node? && Queued(s.pending, a.f.key) == Queued(After(map[], firsts, |firsts|), a.f.key)
    ensures Receive(s.pending, a.f).1 == Completed(map[], firsts + [a.f], |firsts|)
    ensures Queued(Receive(s.pending, a.f).0, a.f.key) == Queued(After(map[], firsts + [a.f], |firsts| + 1), a.f.key)
  {
    AfterPrefix(firsts, a.f, |firsts|);
    assert (firsts + [a.f])[|firsts|] == a.f;
    ReceiveAlike(s.pending, After(map[], firsts, |firsts|), a.f);
  }

  lemma {:induction false} QueuedFrom(arriving: seq<Fragment>, n: nat, key: Key, x: Fragment)
    requires n <= |arriving| && x in Queued(After(map[], arriving, n), key)
    ensures x in arriving
  {
    var before := After(map[], arriving, n - 1);
    InsertMembers(Queued(before, arriving[n - 1].key), arriving[n - 1]);
    if x in Queued(before, key) { QueuedFrom(arriving, n - 1, key, x); }
  }

  lemma AduOfAll(pieces: seq<Fragment>, key: Key, adu: seq<Byte>, t: Terms, x: Fragment, y: Fragment)
    requires Tiles(pieces, key, adu) && x.terms == t == y.terms
    requires (x in pieces || EmptyPiece(x, pieces)) && (y in pieces || EmptyPiece(y, pieces))
    ensures AduOf(x) == AduOf(y)
  {
    EmptyTotal(pieces, key, adu, x);
    EmptyTotal(pieces, key, adu, y);
  }

  /** What is delivered carries the identity of the ADU. */
  lemma {:induction false} FirstDelivers(pending: map<Key, seq<Fragment>>, a: Arrival, firsts: seq<Fragment>, key: Key,
      t: Terms,
      pieces: seq<Fragment>, adu: seq<Byte>)
    requires Tiles(pieces, key, adu) && Once(firsts, key, t, pieces) && a.f.key == key && Belongs(a, t, pieces)
    requires Queued(pending, key) == Queued(After(map[], firsts, |firsts|), key)
    ensures var done := Receive(pending, a.f).1; done.Some? ==> done.value != [] && AduOf(done.value[0]) == AduOf(a.f)
  {
    InsertMembers(Queued(pending, key), a.f);
    var done := Receive(pending, a.f).1;
    if done.Some? {
      var x := done.value[0];
      if x in Queued(pending, key) { QueuedFrom(firsts, |firsts|, key, x); }
      AduOfAll(pieces, key, adu, t, x, a.f);
    }
  }

  /** What becomes of a fragment that is not known. */
  lemma GoesToReassembly(s: Node, a: Arrival)
    requires s.Node? && !a.whole && a.wanted && DeliverLocal(s, a).0.Node?
    requires !Record(s.known, Entry(Identify(a.f), Deadline(a.f, a.now)), a.now).0
    ensures var (next, out) := DeliverLocal(s, a); var (pending, done) := Receive(s.pending, a.f);
      && next.pending == pending
      && out == if done.None? then None else Some(Delivery(AduOf(done.value[0]), done.value))
  {
    InsertMembers(Queued(s.pending, a.f.key), a.f);
  }

  lemma OnceWith(firsts: seq<Fragment>, a: Arrival, key: Key, t: Terms, pieces: seq<Fragment>)
    requires Once(firsts, key, t, pieces) && a.f.key == key && Belongs(a, t, pieces) && a.f !in firsts
    ensures Once(firsts + [a.f], key, t, pieces)
  {
  }

  lemma ExplainedLater(id: Identity, firsts: seq<Fragment>, f: Fragment, adu: Identity, pieces: seq<Fragment>)
    requires Explained(id, firsts, adu, pieces)
    ensures Explained(id, firsts + [f], adu, pieces)
  {
    if g :| g in firsts && id == Identify(g) { assert g in firsts + [f]; }
  }

  /** A first arrival goes to the reassembly. */
  lemma FirstArrives(s: Node, a: Arrival, firsts: seq<Fragment>, key: Key, t: Terms, pieces: seq<Fragment>,
      adu: seq<Byte>)
    requires Tiles(pieces, key, adu) && |pieces| >= 2 && Once(firsts, key, t, pieces) && key.timestamp != 0
    requires Follows(s, firsts, key, t, pieces, AduOf(a.f)) && a.f.key == key && Belongs(a, t, pieces) && a.f !in firsts
    requires DeliverLocal(s, a).0.Node?
    ensures var (next, out) := DeliverLocal(s, a); var done := Completed(map[], firsts + [a.f], |firsts|);
      && out == (if done.None? then None else Some(Delivery(AduOf(a.f), done.value)))
      && Follows(next, firsts + [a.f], key, t, pieces, AduOf(a.f))
  {
    NotKnown(s, a, firsts, key, t, pieces, adu);
    GoesToReassembly(s, a);
    FirstDelivers(s.pending, a, firsts, key, t, pieces, adu);
    FirstReceived(s, a, firsts);
    OnceWith(firsts, a, key, t, pieces);
    Reassembles(firsts, a.f, key, t, pieces, adu);
    FirstFollows(s, a, firsts, key, t, pieces);
  }

  lemma {:induction false} FirstFollows(s: Node, a: Arrival, firsts: seq<Fragment>, key: Key, t: Terms,
      pieces: seq<Fragment>)
    requires Follows(s, firsts, key, t, pieces, AduOf(a.f)) && a.f.key == key && key.timestamp != 0
             && Belongs(a, t, pieces)
    requires !Record(s.known, Entry(Identify(a.f), Deadline(a.f, a.now)), a.now).0
    requires var (next, out) := DeliverLocal(s, a);
      && next.Node?
      && (out.Some? ==> out.value.adu == AduOf(a.f) && AllIn(pieces, firsts + [a.f]))
      && Queued(next.pending, key) == Queued(After(map[], firsts + [a.f], |firsts| + 1), key)
    ensures Follows(DeliverLocal(s, a).0, firsts + [a.f], key, t, pieces, AduOf(a.f))
  {
    var list, next, out := firsts + [a.f], DeliverLocal(s, a).0, DeliverLocal(s, a).1;
    KnownAfter(s, a);
    DueIs(a, t);
    forall x | x in next.known && OfKey(x.id, key) ensures Explained(x.id, list, AduOf(a.f), pieces) {
      if x in s.known { ExplainedLater(x.id, firsts, a.f, AduOf(a.f), pieces); }
    }
    EntriesKept(s.known, next.known, firsts, a.f, Due(key, t), a.now);
  }

  lemma DueIs(a: Arrival, t: Terms)
    requires a.f.key.timestamp != 0 && a.f.terms == t
    ensures Deadline(a.f, a.now) == Due(a.f.key, t)
  {
  }

  lemma EntriesKept(known: seq<Entry>, known': seq<Entry>, firsts: seq<Fragment>, f: Fragment, due: nat, now: nat)
    requires now <= due && forall x <- known :: x.deadline >= now ==> x in known'
    requires (forall g <- firsts :: Entry(Identify(g), due) in known) && Entry(Identify(f), due) in known'
    ensures forall g <- firsts + [f] :: Entry(Identify(g), due) in known'
  {
    forall g | g in firsts + [f] ensures Entry(Identify(g), due) in known' {
      if g in firsts { assert Entry(Identify(g), due) in known; }
    }
  }

  // ---- the run ----

  /** Nothing of the ADU is known or waits. */
  ghost predicate Fresh(s: Node, key: Key) {
    && s.Node? && Sorted(s.known) && OwnKeys(s.pending) && key !in s.pending
    && forall e <- s.known :: !OfKey(e.id, key)
  }

  /** The identity of an ADU. */
  function AduId(key: Key, t: Terms, total: nat): Identity {
    Identity(t.version, key.source, key.timestamp, key.sequence, 0, total)
  }

  lemma {:induction false} RunFollows(s: Node, events: seq<Arrival>, key: Key, t: Terms, pieces: seq<Fragment>,
      adu: seq<Byte>, n: nat)
    requires Fresh(s, key) && Tiles(pieces, key, adu) && |pieces| >= 2 && ComesLocally(events, key, t, pieces)
    requires n <= |events| && State(s, events, n).Node? && forall m :: 0 <= m < n ==> events[m].now <= Due(key, t)
    ensures Follows(State(s, events, n), Firsts(events, key, n), key, t, pieces, AduId(key, t, |adu|))
  {
    if n > 0 {
      RunFollows(s, events, key, t, pieces, adu, n - 1);
      FirstsOnce(events, key, t, pieces, n - 1);
      StepFollows(State(s, events, n - 1), events[n - 1], Firsts(events, key, n - 1), key, t, pieces, adu);
    }
  }

  lemma StepFollows(s: Node, a: Arrival, firsts: seq<Fragment>, key: Key, t: Terms, pieces: seq<Fragment>,
      adu: seq<Byte>)
    requires Tiles(pieces, key, adu) && |pieces| >= 2 && Once(firsts, key, t, pieces) && key.timestamp != 0
    requires Follows(s, firsts, key, t, pieces, AduId(key, t, |adu|)) && a.now <= Due(key, t)
             && DeliverLocal(s, a).0.Node?
    requires a.f.key == key ==> Belongs(a, t, pieces)
    ensures Follows(DeliverLocal(s, a).0, if a.f.key == key && a.f !in firsts then firsts + [a.f] else firsts,
                    key, t, pieces, AduId(key, t, |adu|))
  {
    if a.f.key != key {
      OtherArrives(s, a, firsts, key, t, pieces, AduId(key, t, |adu|));
    } else if a.f in firsts {
      RepeatedArrives(s, a, firsts, key, t, pieces, AduId(key, t, |adu|));
    } else {
      EmptyTotal(pieces, key, adu, a.f);
      FirstArrives(s, a, firsts, key, t, pieces, adu);
    }
  }

  /** The ADU is delivered just when it should be, with exactly its bytes. */
  ghost predicate DeliversAdu(out: Option<Delivery>, id: Identity, adu: seq<Byte>, should: bool) {
    && (out.Some? <==> should)
    && (out.Some? ==> out.value.adu == id && Assemble(out.value.frags, |adu|, []) == adu)
  }

  /**
   * Fragments of an ADU come in time, any number of times, in any order and among other bundles. Up to the
   * first fragment that is used after it was discarded, an arrival delivers the ADU if and only if it
   * completes the pieces and no empty fragment came first behind the data of its offset, unless this data
   * ends the ADU.
   */
  lemma {:induction false} DeliveredLocally(s: Node, events: seq<Arrival>, key: Key, t: Terms, pieces: seq<Fragment>,
      adu: seq<Byte>, i: nat)
    requires Fresh(s, key) && Tiles(pieces, key, adu) && |pieces| >= 2
    requires ClockRuns(events) && ComesLocally(events, key, t, pieces)
    requires i < |events| && events[i].f.key == key && State(s, events, i).Node?
    ensures var firsts := Firsts(events, key, i);
            DeliversAdu(Out(s, events, i), AduId(key, t, |adu|), adu,
                        AllIn(pieces, Firsts(events, key, i + 1)) && !AllIn(pieces, firsts)
                            && !Obstructed(firsts, key, |adu|, |firsts|))
  {
    var a, before, firsts := events[i], State(s, events, i), Firsts(events, key, i);
    forall m | 0 <= m < i ensures events[m].now <= Due(key, t) { assert events[m].now <= events[i].now; }
    RunFollows(s, events, key, t, pieces, adu, i);
    FirstsOnce(events, key, t, pieces, i);
    EmptyTotal(pieces, key, adu, a.f);
    if a.f in firsts {
      RepeatedArrives(before, a, firsts, key, t, pieces, AduId(key, t, |adu|));
    } else if DeliverLocal(before, a).0.Lost? {
      StaleIsComplete(before, a, firsts, key, t, pieces, adu);
    } else {
      FirstArrives(before, a, firsts, key, t, pieces, adu);
      OnceWith(firsts, a, key, t, pieces);
      Reassembles(firsts, a.f, key, t, pieces, adu);
      ObstructedBefore(firsts, a.f, key, |adu|);
    }
  }

  lemma ObstructedBefore(firsts: seq<Fragment>, f: Fragment, key: Key, total: nat)
    ensures Obstructed(firsts + [f], key, total, |firsts|) <==> Obstructed(firsts, key, total, |firsts|)
  {
    var list := firsts + [f];
    assert forall i :: 0 <= i < |firsts| ==> list[i] == firsts[i];
    if Obstructed(list, key, total, |firsts|) {
      var d, e :| 0 <= d < e < |firsts| && list[d].key == key && list[e].key == key && Hides(list[d], list[e], total);
      assert Hides(firsts[d], firsts[e], total);
    }
    if Obstructed(firsts, key, total, |firsts|) {
      var d, e :| 0 <= d < e < |firsts| && firsts[d].key == key && firsts[e].key == key
          && Hides(firsts[d], firsts[e], total);
      assert Hides(list[d], list[e], total);
    }
  }

  // ---- an ADU in one fragment ----

  lemma FreshStays(s: Node, a: Arrival, key: Key)
    requires Fresh(s, key) && a.f.key != key && DeliverLocal(s, a).0.Node?
    ensures Fresh(DeliverLocal(s, a).0, key)
  {
    KnownAfter(s, a);
  }

  lemma {:induction false} RunStaysFresh(s: Node, events: seq<Arrival>, key: Key, n: nat)
    requires Fresh(s, key) && n <= |events| && State(s, events, n).Node? && forall m ::
                                                                              0 <= m < n ==> events[m].f.key != key
    ensures Fresh(State(s, events, n), key)
  {
    if n > 0 {
      RunStaysFresh(s, events, key, n - 1);
      FreshStays(State(s, events, n - 1), events[n - 1], key);
    }
  }

  /** An ADU that comes in one fragment is discarded with its first arrival, as if it had been delivered before. */
  lemma OneFragmentIsLost(s: Node, events: seq<Arrival>, i: nat)
    requires i < |events| && Fresh(s, events[i].f.key) && State(s, events, i).Node?
    requires forall m :: 0 <= m < i ==> events[m].f.key != events[i].f.key
    requires var a := events[i];
             !a.whole && a.wanted && a.f.offset == 0 && |a.f.data| == a.f.total && a.now <= Deadline(a.f, a.now)
    ensures Out(s, events, i) == None && State(s, events, i + 1) == Lost
  {
    var a, before := events[i], State(s, events, i);
    var e := Entry(Identify(a.f), Deadline(a.f, a.now));
    RunStaysFresh(s, events, a.f.key, i);
    LookupExact(before.known, e, a.now);
    if Reachable(before.known, e, a.now) {
      var k :| 0 <= k < |before.known| && before.known[k].id == e.id && Passable(before.known, k, e, a.now);
      assert before.known[k] in before.known && OfKey(e.id, a.f.key);
      assert false;
    }
    WholeFragmentIsLost(before, a);
  }

  // ---- whole bundles ----

  /** The first bundle of an ADU, if it is whole and comes in time, is delivered. */
  lemma {:induction false} FirstWholeIsDelivered(s: Node, events: seq<Arrival>, i: nat)
    requires i < |events| && Fresh(s, events[i].f.key) && State(s, events, i).Node?
    requires forall m :: 0 <= m < i ==> events[m].f.key != events[i].f.key
    requires var a := events[i]; a.whole && a.wanted && a.now <= Deadline(a.f, a.now)
    ensures Out(s, events, i) == Some(Delivery(AduOf(events[i].f), [events[i].f]))
    ensures Assemble([events[i].f], |events[i].f.data|, []) == events[i].f.data
  {
    var a, before := events[i], State(s, events, i);
    RunStaysFresh(s, events, a.f.key, i);
    WholeExactly(before, a);
    WholeAssembles(a.f);
    var e := Entry(Identify(a.f), Deadline(a.f, a.now));
    if Reachable(before.known, e, a.now) {
      var k :| 0 <= k < |before.known| && before.known[k].id == e.id && Passable(before.known, k, e, a.now);
      assert before.known[k] in before.known && OfKey(e.id, a.f.key);
      assert false;
    }
  }

  /**
   * So of a whole bundle that comes again and again in time, in an empty node, exactly the first arrival is
   * delivered.
   */
  lemma {:induction false} WholeIsDeliveredOnce(events: seq<Arrival>, i: nat, j: nat)
    requires ClockRuns(events) && OneAdu(events) && i <= j < |events| && events[i].f == events[j].f
    requires events[i].f.key.timestamp != 0 && State(Node([], map[]), events, i).Node?
    requires forall m :: 0 <= m < i ==> events[m].f.key != events[i].f.key
    requires forall m | 0 <= m < |events| ::
               events[m].f.key == events[i].f.key ==> events[m].f.terms == events[i].f.terms
    requires events[i].whole && events[i].wanted && events[i].now <= Deadline(events[i].f, events[i].now)
    ensures Out(Node([], map[]), events, j).Some? <==> j == i
  {
    FirstWholeIsDelivered(Node([], map[]), events, i);
    if j > i && Out(Node([], map[]), events, j).Some? {
      AduIsOwn(events, j);
      DeliveredAtMostOnce(events, i, j);
    }
  }
}
