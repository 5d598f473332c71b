/**
 * The list of pending reassemblies (components/upcn/bundle_processor.c, lines 560-601): one list of
 * fragments for each ADU of which something has arrived.
 */
module Reassembler {
  import opened Basics
  import opened Reassembly

  /** The fragments that wait for an ADU. */
  function Queued(pending: map<Key, seq<Fragment>>, key: Key): seq<Fragment> {
    if key in pending then pending[key] else []
  }

  /** The fragments of the ADU that the arrival of `f` completes, if any, and what is pending afterwards. */
  function Receive(pending: map<Key, seq<Fragment>>, f: Fragment): (map<Key, seq<Fragment>>, Option<seq<Fragment>>) {
    var list := Insert(Queued(pending, f.key), f);
    if NoGap(list, 0) then (pending - {f.key}, Some(list)) else (pending[f.key := list], None)
  }

  /** Non-empty lists, each of one ADU, no two of the same. */
  ghost predicate Distinct(lists: seq<seq<Fragment>>) {
    lists == [] || (
      && lists[0] != [] && (forall f <- lists[0] :: f.key == lists[0][0].key)
      && Distinct(lists[1..]) && lists[0][0].key !in Pending(lists[1..]))
  }

  /** The lists as a map from ADU to fragments. */
  ghost function Pending(lists: seq<seq<Fragment>>): map<Key, seq<Fragment>> {
    if lists == [] then map[]
    else if lists[0] == [] then Pending(lists[1..])
    else Pending(lists[1..])[lists[0][0].key := lists[0]]
  }

  class ReassemblyList {
    var lists: seq<seq<Fragment>>

    ghost predicate Valid()
      reads this
    {
      Distinct(lists)
    }

    constructor ()
      ensures Valid() && Pending(lists) == map[]
    {
      lists := [];
    }

    /** bundle_attempt_reassembly behind its first check; also gives the first fragment of what is delivered. */
    method Attempt(f: Fragment) returns (adu: Option<seq<Byte>>, first: Fragment)
      requires Valid()
      modifies this
      ensures Valid()
      ensures Pending(lists) == Receive(old(Pending(lists)), f).0
      ensures adu.Some? <==> Receive(old(Pending(lists)), f).1.Some?
      ensures adu.Some? ==>
                var list := Receive(old(Pending(lists)), f).1.value;
                list != [] && |adu.value| == list[0].total && Assemble(list, list[0].total, []) <= adu.value
                    && first == list[0]
    {
      ghost var pending := Pending(lists);
      var k := Find(f.key);
      var list := AddToList(if k < |lists| then lists[k] else [], f);
      assert list == Insert(Queued(pending, f.key), f);
      if k < |lists| { PendingAt(lists, k); }
      InsertSameKey(Queued(pending, f.key), f);
      if k < |lists| {
        PendingSet(lists, k, list);
        lists := lists[k := list];
      } else {
        PendingAppend(lists, list);
        lists := lists + [list];
      }
      adu := TryReassemble(list);
      first := list[0];
      if adu.Some? {
        PendingDrop(lists, k);
        lists := lists[..k] + lists[k + 1..];
        assert pending[f.key := list] - {f.key} == pending - {f.key};
      }
    }

    /** The search for the list of an ADU. */
    method Find(key: Key) returns (k: nat)
      requires Valid()
      ensures k <= |lists|
      ensures k < |lists| ==>
               lists[k] != [] && lists[k][0].key == key && key in Pending(lists) && Pending(lists)[key] == lists[k]
      ensures k == |lists| ==> key !in Pending(lists)
    {
      k := 0;
      while k < |lists|
        invariant k <= |lists| && Distinct(lists[k..])
        invariant key in Pending(lists) <==> key in Pending(lists[k..])
        invariant key in Pending(lists) ==> Pending(lists)[key] == Pending(lists[k..])[key]
      {
        if lists[k][0].key == key { return; }
        assert lists[k..][1..] == lists[k + 1..];
        k := k + 1;
      }
    }
  }

  lemma {:induction false} InsertSameKey(list: seq<Fragment>, f: Fragment)
    requires forall x <- list :: x.key == f.key
    ensures Insert(list, f) != [] && forall x <- Insert(list, f) :: x.key == f.key
  {
    if list != [] && list[0].offset <= f.offset {
      assert forall x <- list[1..] :: x in list;
      InsertSameKey(list[1..], f);
      assert list[0] in list;
    }
  }

  lemma {:induction false} PendingAt(lists: seq<seq<Fragment>>, k: nat)
    requires Distinct(lists) && k < |lists|
    ensures lists[k] != [] && lists[k][0].key in Pending(lists) && Pending(lists)[lists[k][0].key] == lists[k]
    ensures forall f <- lists[k] :: f.key == lists[k][0].key
  {
    if k > 0 { PendingAt(lists[1..], k - 1); }
  }

  lemma {:induction false} PendingSet(lists: seq<seq<Fragment>>, k: nat, list: seq<Fragment>)
    requires Distinct(lists) && k < |lists| && lists[k] != [] && list != [] && list[0].key == lists[k][0].key
    requires forall f <- list :: f.key == list[0].key
    ensures Distinct(lists[k := list]) && Pending(lists[k := list]) == Pending(lists)[list[0].key := list]
  {
    if k > 0 {
      PendingSet(lists[1..], k - 1, list);
      PendingAt(lists[1..], k - 1);
      assert lists[k := list][1..] == lists[1..][k - 1 := list];
    } else {
      assert lists[0 := list][1..] == lists[1..];
    }
  }

  lemma {:induction false} PendingAppend(lists: seq<seq<Fragment>>, list: seq<Fragment>)
    requires Distinct(lists) && list != [] && list[0].key !in Pending(lists)
    requires forall f <- list :: f.key == list[0].key
    ensures Distinct(lists + [list]) && Pending(lists + [list]) == Pending(lists)[list[0].key := list]
  {
    if lists == [] {
      assert [list][1..] == [] && lists + [list] == [list];
    } else {
      PendingAppend(lists[1..], list);
      assert (lists + [list])[1..] == lists[1..] + [list];
    }
  }

  lemma {:induction false} PendingDrop(lists: seq<seq<Fragment>>, k: nat)
    requires Distinct(lists) && k < |lists| && lists[k] != []
    ensures Distinct(lists[..k] + lists[k + 1..])
    ensures Pending(lists[..k] + lists[k + 1..]) == Pending(lists) - {lists[k][0].key}
  {
    var rest := lists[..k] + lists[k + 1..];
    if k == 0 {
      assert rest == lists[1..];
    } else {
      PendingDrop(lists[1..], k - 1);
      PendingAt(lists[1..], k - 1);
      assert rest[1..] == lists[1..][..k - 1] + lists[1..][k..];
    }
  }

  // ---- runs ----

  /** What is pending after the first `n` arrivals. */
  function After(pending: map<Key, seq<Fragment>>, arriving: seq<Fragment>, n: nat): map<Key, seq<Fragment>>
    requires n <= |arriving|
  {
    if n == 0 then pending else Receive(After(pending, arriving, n - 1), arriving[n - 1]).0
  }

  /** The fragments of the ADU that the `i`-th arrival completes, if any. */
  function Completed(pending: map<Key, seq<Fragment>>, arriving: seq<Fragment>, i: nat): Option<seq<Fragment>>
    requires i < |arriving|
  {
    Receive(After(pending, arriving, i), arriving[i]).1
  }

  /**
   * The fragments with `key` are pieces, each at most once and in any order, mixed with any number of
   * empty fragments that start where a piece starts, and with any fragments of other keys.
   */
  ghost predicate Comes(arriving: seq<Fragment>, key: Key, pieces: seq<Fragment>) {
    && (forall i ::
          0 <= i < |arriving| && arriving[i].key == key ==> arriving[i] in pieces || EmptyPiece(arriving[i], pieces))
    && (forall i, j ::
          0 <= i < j < |arriving| && arriving[i].key == key && arriving[i] == arriving[j] ==> arriving[i].data == [])
  }

  /** And all pieces arrive. */
  ghost predicate Carries(arriving: seq<Fragment>, key: Key, pieces: seq<Fragment>) {
    Comes(arriving, key, pieces) && AllArrived(arriving, pieces, |arriving|)
  }

  /** `x` is among the first `n` arrivals. */
  ghost predicate Arrived(arriving: seq<Fragment>, x: Fragment, n: nat) {
    exists i :: 0 <= i < n && i < |arriving| && arriving[i] == x
  }

  ghost predicate AllArrived(arriving: seq<Fragment>, pieces: seq<Fragment>, n: nat) {
    forall x <- pieces :: Arrived(arriving, x, n)
  }

  /** The `i`-th arrival has data of the ADU, and no data of the ADU comes after it. */
  ghost predicate LastData(arriving: seq<Fragment>, key: Key, i: nat) {
    && i < |arriving| && arriving[i].key == key && arriving[i].data != []
    && forall j :: i < j < |arriving| && arriving[j].key == key ==> arriving[j].data == []
  }

  /**
   * Among the first `n` arrivals an empty fragment comes after the data of the same offset, which does not
   * end the ADU.
   */
  ghost predicate Obstructed(arriving: seq<Fragment>, key: Key, total: nat, n: nat) {
    exists d, e :: 0 <= d < e < n && e < |arriving| && arriving[d].key == key && arriving[e].key == key
        && Hides(arriving[d], arriving[e], total)
  }

  /** The list of the fragments with `key` among the first `n` arrivals. */
  ghost function Gathered(arriving: seq<Fragment>, key: Key, n: nat): seq<Fragment>
    requires n <= |arriving|
  {
    if n == 0 then []
    else if arriving[n - 1].key == key then Insert(Gathered(arriving, key, n - 1), arriving[n - 1])
    else Gathered(arriving, key, n - 1)
  }

  lemma {:induction false} GatheredOk(arriving: seq<Fragment>, key: Key, n: nat)
    requires n <= |arriving|
    ensures SortedByOffset(Gathered(arriving, key, n))
    ensures forall x :: x in Gathered(arriving, key, n) <==> x.key == key && Arrived(arriving, x, n)
  {
    if n > 0 {
      GatheredOk(arriving, key, n - 1);
      InsertKeepsOrder(Gathered(arriving, key, n - 1), arriving[n - 1]);
      forall x ensures Arrived(arriving, x, n) <==> Arrived(arriving, x, n - 1) || x == arriving[n - 1] {
        if Arrived(arriving, x, n - 1) {
          var i :| 0 <= i < n - 1 && arriving[i] == x;
          assert i < n;
        }
      }
    }
  }

  lemma {:induction false} GatheredGathers(arriving: seq<Fragment>, key: Key, pieces: seq<Fragment>, n: nat)
    requires n <= |arriving| && Comes(arriving, key, pieces)
    ensures Gathers(Gathered(arriving, key, n), pieces)
  {
    if n > 0 {
      GatheredGathers(arriving, key, pieces, n - 1);
      GatheredOk(arriving, key, n - 1);
      if arriving[n - 1].key == key {
        if arriving[n - 1].data != [] { NotTwice(arriving, key, pieces, n - 1); }
        InsertGathers(Gathered(arriving, key, n - 1), arriving[n - 1], pieces);
      }
    }
  }

  lemma NotTwice(arriving: seq<Fragment>, key: Key, pieces: seq<Fragment>, i: nat)
    requires i < |arriving| && Comes(arriving, key, pieces) && arriving[i].key == key && arriving[i].data != []
    ensures !Arrived(arriving, arriving[i], i)
  {
    forall j | 0 <= j < i ensures arriving[j] != arriving[i] {}
  }

  lemma {:induction false} GatheredStuck(arriving: seq<Fragment>, key: Key, total: nat, n: nat)
    requires n <= |arriving|
    ensures Stuck(Gathered(arriving, key, n), total) <==> Obstructed(arriving, key, total, n)
  {
    if n > 0 {
      GatheredStuck(arriving, key, total, n - 1);
      GatheredOk(arriving, key, n - 1);
      ObstructedNext(arriving, key, total, n);
      var list := Gathered(arriving, key, n - 1);
      if arriving[n - 1].key == key {
        InsertStuck(list, arriving[n - 1], total);
        HiddenByArrived(arriving, key, list, total, n - 1);
      }
    }
  }

  lemma HiddenByArrived(arriving: seq<Fragment>, key: Key, list: seq<Fragment>, total: nat, n: nat)
    requires n < |arriving| && forall x :: x in list <==> x.key == key && Arrived(arriving, x, n)
    ensures (exists d :: d in list && Hides(d, arriving[n], total)) <==> HiddenAt(arriving, key, total, n)
  {
    if d :| d in list && Hides(d, arriving[n], total) {
      var i :| 0 <= i < n && arriving[i] == d;
    }
    if HiddenAt(arriving, key, total, n) {
      var i :| 0 <= i < n && arriving[i].key == key && Hides(arriving[i], arriving[n], total);
      assert Arrived(arriving, arriving[i], n);
    }
  }

  /** The `n`-th arrival comes after the data that it hides. */
  ghost predicate HiddenAt(arriving: seq<Fragment>, key: Key, total: nat, n: nat)
    requires n < |arriving|
  {
    exists i :: 0 <= i < n && arriving[i].key == key && Hides(arriving[i], arriving[n], total)
  }

  lemma ObstructedNext(arriving: seq<Fragment>, key: Key, total: nat, n: nat)
    requires 0 < n <= |arriving|
    ensures Obstructed(arriving, key, total, n) <==>
            Obstructed(arriving, key, total, n - 1) || (arriving[n - 1].key == key
                && HiddenAt(arriving, key, total, n - 1))
  {
    if Obstructed(arriving, key, total, n) {
      var d, e :| 0 <= d < e < n && arriving[d].key == key && arriving[e].key == key
          && Hides(arriving[d], arriving[e], total);
      assert e < n - 1 || e == n - 1;
    }
    if Obstructed(arriving, key, total, n - 1) {
      var d, e :| 0 <= d < e < n - 1 && arriving[d].key == key && arriving[e].key == key
          && Hides(arriving[d], arriving[e], total);
      assert e < n;
    }
  }

  /** Something is delivered just when it should be, and then it is the ADU. */
  ghost predicate Delivers(done: Option<seq<Fragment>>, adu: seq<Byte>, should: bool) {
    (done.Some? <==> should) && (done.Some? ==> Assemble(done.value, |adu|, []) == adu)
  }

  /** One more arrival, while nothing has been delivered. */
  lemma NextArrival(pending: map<Key, seq<Fragment>>, arriving: seq<Fragment>, key: Key, n: nat)
    requires 0 < n <= |arriving| && Queued(After(pending, arriving, n - 1), key) == Gathered(arriving, key, n - 1)
    ensures var list, now := Gathered(arriving, key, n), Queued(After(pending, arriving, n), key);
      && (arriving[n - 1].key != key || !NoGap(list, 0) ==> now == list)
      && (arriving[n - 1].key == key && !NoGap(list, 0) ==> Completed(pending, arriving, n - 1) == None)
      && (arriving[n - 1].key == key && NoGap(list, 0) ==>
          now == [] && Completed(pending, arriving, n - 1) == Some(list))
  {
  }

  /** While a piece is missing, what has arrived waits. */
  lemma {:induction false} Waits(
      pending: map<Key, seq<Fragment>>, arriving: seq<Fragment>, key: Key, pieces: seq<Fragment>,
          adu: seq<Byte>, n: nat)
    requires Tiles(pieces, key, adu) && Comes(arriving, key, pieces) && key !in pending
    requires n <= |arriving| && !AllArrived(arriving, pieces, n)
    ensures Queued(After(pending, arriving, n), key) == Gathered(arriving, key, n)
    ensures n > 0 && arriving[n - 1].key == key ==> Completed(pending, arriving, n - 1) == None
  {
    if n > 0 {
      if AllArrived(arriving, pieces, n - 1) { MissingBefore(arriving, pieces, n); }
      Waits(pending, arriving, key, pieces, adu, n - 1);
      NeedsAll(arriving, key, pieces, adu, n);
      NextArrival(pending, arriving, key, n);
    }
  }

  lemma MissingBefore(arriving: seq<Fragment>, pieces: seq<Fragment>, n: nat)
    requires 0 < n <= |arriving| && AllArrived(arriving, pieces, n - 1)
    ensures AllArrived(arriving, pieces, n)
  {
    forall x | x in pieces ensures Arrived(arriving, x, n) {
      assert Arrived(arriving, x, n - 1);
    }
  }

  lemma {:induction false} NeedsAll(arriving: seq<Fragment>, key: Key, pieces: seq<Fragment>, adu: seq<Byte>, n: nat)
    requires Tiles(pieces, key, adu) && Comes(arriving, key, pieces) && n <= |arriving|
             && !AllArrived(arriving, pieces, n)
    ensures !NoGap(Gathered(arriving, key, n), 0)
  {
    var x :| x in pieces && !Arrived(arriving, x, n);
    var k :| 0 <= k < |pieces| && pieces[k] == x;
    GatheredOk(arriving, key, n);
    GatheredGathers(arriving, key, pieces, n);
    if NoGap(Gathered(arriving, key, n), 0) { NoGapNeedsAll(Gathered(arriving, key, n), pieces, key, adu, k); }
  }

  /** When all pieces are there, empty fragments decide. */
  lemma {:induction false} AllThere(arriving: seq<Fragment>, key: Key, pieces: seq<Fragment>, adu: seq<Byte>, n: nat)
    requires Tiles(pieces, key, adu) && Comes(arriving, key, pieces) && n <= |arriving|
             && AllArrived(arriving, pieces, n)
    ensures var list := Gathered(arriving, key, n);
      && (NoGap(list, 0) <==> !Obstructed(arriving, key, |adu|, n))
      && (NoGap(list, 0) ==> Assemble(list, |adu|, []) == adu)
  {
    var list := Gathered(arriving, key, n);
    GatheredOk(arriving, key, n);
    GatheredGathers(arriving, key, pieces, n);
    GatheredStuck(arriving, key, |adu|, n);
    forall x | x in pieces ensures x in list { assert x.key == key; }
    DeliveredUnlessStuck(list, pieces, key, adu);
    if NoGap(list, 0) {
      GathersPieces(list, pieces, key, adu);
      AssembleSound(list, adu, [], 0);
    }
  }

  /** Only empty fragments. */
  ghost predicate Spent(list: seq<Fragment>, pieces: seq<Fragment>) {
    Gathers(list, pieces) && forall x <- list :: x.data == []
  }

  /** Only empty fragments wait, or everything waits behind an empty fragment. */
  ghost predicate Settled(list: seq<Fragment>, arriving: seq<Fragment>, key: Key, pieces: seq<Fragment>,
      total: nat, n: nat)
    requires n <= |arriving|
  {
    Spent(list, pieces) || (list == Gathered(arriving, key, n) && Obstructed(arriving, key, total, n))
  }

  /** The arrival after which all pieces are there. */
  lemma {:induction false} FirstAll(arriving: seq<Fragment>, pieces: seq<Fragment>, n: nat) returns (m: nat)
    requires pieces != [] && AllArrived(arriving, pieces, n)
    ensures 0 < m <= n && AllArrived(arriving, pieces, m) && !AllArrived(arriving, pieces, m - 1)
  {
    SomeArrived(arriving, pieces, n);
    m := n;
    if AllArrived(arriving, pieces, n - 1) { m := FirstAll(arriving, pieces, n - 1); }
  }

  /** Once all pieces are there, the ADU was delivered with the last one or waits for ever. */
  lemma {:induction false} Afterwards(
      pending: map<Key, seq<Fragment>>, arriving: seq<Fragment>, key: Key, pieces: seq<Fragment>, adu: seq<Byte>,
          m: nat, n: nat)
    requires Tiles(pieces, key, adu) && Comes(arriving, key, pieces) && key !in pending
    requires 0 < m <= n <= |arriving| && AllArrived(arriving, pieces, m) && !AllArrived(arriving, pieces, m - 1)
    ensures Settled(Queued(After(pending, arriving, n), key), arriving, key, pieces, |adu|, n)
    decreases n
  {
    if n == m {
      LastArrives(pending, arriving, key, pieces, adu, n);
    } else {
      Afterwards(pending, arriving, key, pieces, adu, m, n - 1);
      AllArrivedLater(arriving, pieces, m, n - 1);
      OneMore(After(pending, arriving, n - 1), arriving, key, pieces, adu, n);
    }
  }

  lemma OneMore(before: map<Key, seq<Fragment>>, arriving: seq<Fragment>, key: Key, pieces: seq<Fragment>,
      adu: seq<Byte>, n: nat)
    requires Tiles(pieces, key, adu) && Comes(arriving, key, pieces) && 0 < n <= |arriving|
             && AllArrived(arriving, pieces, n - 1)
    requires Settled(Queued(before, key), arriving, key, pieces, |adu|, n - 1)
    ensures Settled(Queued(Receive(before, arriving[n - 1]).0, key), arriving, key, pieces, |adu|, n)
  {
    if arriving[n - 1].key == key {
      OneMoreEmpty(before, arriving, key, pieces, adu, n);
    } else {
      OneMoreOther(before, arriving, key, pieces, |adu|, n);
    }
  }

  lemma SomeArrived(arriving: seq<Fragment>, pieces: seq<Fragment>, n: nat)
    requires pieces != [] && AllArrived(arriving, pieces, n)
    ensures n > 0
  {
    assert pieces[0] in pieces && Arrived(arriving, pieces[0], n);
  }

  lemma OneMoreOther(before: map<Key, seq<Fragment>>, arriving: seq<Fragment>, key: Key, pieces: seq<Fragment>,
      total: nat, n: nat)
    requires 0 < n <= |arriving| && arriving[n - 1].key != key
    requires Settled(Queued(before, key), arriving, key, pieces, total, n - 1)
    ensures Settled(Queued(Receive(before, arriving[n - 1]).0, key), arriving, key, pieces, total, n)
  {
    ObstructedNext(arriving, key, total, n);
  }

  lemma NothingSpent(pieces: seq<Fragment>)
    ensures Spent([], pieces)
  {
  }

  /** The arrival that completes the pieces. */
  lemma LastArrives(
      pending: map<Key, seq<Fragment>>, arriving: seq<Fragment>, key: Key, pieces: seq<Fragment>,
          adu: seq<Byte>, n: nat)
    requires Tiles(pieces, key, adu) && Comes(arriving, key, pieces) && key !in pending
    requires 0 < n <= |arriving| && AllArrived(arriving, pieces, n) && !AllArrived(arriving, pieces, n - 1)
    ensures Delivers(Completed(pending, arriving, n - 1), adu, !Obstructed(arriving, key, |adu|, n - 1))
    ensures Settled(Queued(After(pending, arriving, n), key), arriving, key, pieces, |adu|, n)
  {
    Waits(pending, arriving, key, pieces, adu, n - 1);
    OthersBringNothing(arriving, pieces, key, adu, n);
    NextArrival(pending, arriving, key, n);
    AllThere(arriving, key, pieces, adu, n);
    DataHidesNothing(arriving, key, |adu|, n);
    NothingSpent(pieces);
  }

  lemma DataHidesNothing(arriving: seq<Fragment>, key: Key, total: nat, n: nat)
    requires 0 < n <= |arriving| && arriving[n - 1].data != []
    ensures Obstructed(arriving, key, total, n) <==> Obstructed(arriving, key, total, n - 1)
  {
    ObstructedNext(arriving, key, total, n);
    assert !HiddenAt(arriving, key, total, n - 1);
  }

  lemma OthersBringNothing(arriving: seq<Fragment>, pieces: seq<Fragment>, key: Key, adu: seq<Byte>, n: nat)
    requires Tiles(pieces, key, adu) && 0 < n <= |arriving| && AllArrived(arriving, pieces, n)
             && !AllArrived(arriving, pieces, n - 1)
    ensures arriving[n - 1] in pieces && arriving[n - 1].key == key && arriving[n - 1].data != []
  {
    var x :| x in pieces && !Arrived(arriving, x, n - 1);
    assert Arrived(arriving, x, n);
    var i :| 0 <= i < n && arriving[i] == x;
    assert i == n - 1;
    var k :| 0 <= k < |pieces| && pieces[k] == x;
  }

  /** Data does not come after all pieces are there. */
  lemma EmptyAfterAll(arriving: seq<Fragment>, key: Key, pieces: seq<Fragment>, i: nat)
    requires Comes(arriving, key, pieces) && i < |arriving| && arriving[i].key == key && AllArrived(arriving, pieces, i)
    ensures arriving[i].data == [] && EmptyPiece(arriving[i], pieces)
  {
    if arriving[i] in pieces {
      assert Arrived(arriving, arriving[i], i);
      var j :| 0 <= j < i && arriving[j] == arriving[i];
    }
  }

  lemma OneMoreEmpty(
      before: map<Key, seq<Fragment>>, arriving: seq<Fragment>, key: Key, pieces: seq<Fragment>, adu: seq<Byte>, n: nat)
    requires Tiles(pieces, key, adu) && Comes(arriving, key, pieces)
    requires 0 < n <= |arriving| && arriving[n - 1].key == key && AllArrived(arriving, pieces, n - 1)
    requires Settled(Queued(before, key), arriving, key, pieces, |adu|, n - 1)
    ensures var (after, done) := Receive(before, arriving[n - 1]);
            done == None && Settled(Queued(after, key), arriving, key, pieces, |adu|, n)
  {
    var list, f := Queued(before, key), arriving[n - 1];
    EmptyAfterAll(arriving, key, pieces, n - 1);
    if Spent(list, pieces) {
      StaysSpent(list, f, pieces, key, adu);
    } else {
      MissingBefore(arriving, pieces, n);
      ObstructedNext(arriving, key, |adu|, n);
      AllThere(arriving, key, pieces, adu, n);
    }
  }

  lemma {:induction false} StaysSpent(list: seq<Fragment>, f: Fragment, pieces: seq<Fragment>, key: Key, adu: seq<Byte>)
    requires Tiles(pieces, key, adu) && Spent(list, pieces) && f.data == [] && EmptyPiece(f, pieces)
    ensures Spent(Insert(list, f), pieces) && !NoGap(Insert(list, f), 0)
  {
    InsertGathers(list, f, pieces);
    InsertKeepsOrder(list, f);
    if NoGap(Insert(list, f), 0) { NoGapNeedsAll(Insert(list, f), pieces, key, adu, 0); }
  }

  /**
   * Pieces of an ADU arrive in any order, mixed with empty ones and with other traffic. The arrival that
   * completes the pieces delivers the ADU, with exactly its bytes, unless an empty fragment came after the
   * data of the same offset and this data does not end the ADU. Nothing else is ever delivered.
   */
  lemma DeliveredWhenComplete(
      pending: map<Key, seq<Fragment>>, arriving: seq<Fragment>, key: Key, pieces: seq<Fragment>,
          adu: seq<Byte>, i: nat)
    requires Tiles(pieces, key, adu) && Comes(arriving, key, pieces) && key !in pending
    requires i < |arriving| && arriving[i].key == key
    ensures Delivers(Completed(pending, arriving, i), adu, Completes(arriving, pieces, i)
            && !Obstructed(arriving, key, |adu|, i))
  {
    if !AllArrived(arriving, pieces, i + 1) {
      Waits(pending, arriving, key, pieces, adu, i + 1);
    } else if !AllArrived(arriving, pieces, i) {
      LastArrives(pending, arriving, key, pieces, adu, i + 1);
    } else {
      NothingAfterwards(pending, arriving, key, pieces, adu, i);
    }
  }

  /** With the `i`-th arrival all pieces are there, and not before. */
  ghost predicate Completes(arriving: seq<Fragment>, pieces: seq<Fragment>, i: nat) {
    AllArrived(arriving, pieces, i + 1) && !AllArrived(arriving, pieces, i)
  }

  /** If all pieces arrive, this is the last arrival with data. */
  lemma DeliveredWithLastPiece(
      pending: map<Key, seq<Fragment>>, arriving: seq<Fragment>, key: Key, pieces: seq<Fragment>,
          adu: seq<Byte>, i: nat)
    requires Tiles(pieces, key, adu) && Carries(arriving, key, pieces) && key !in pending
    requires i < |arriving| && arriving[i].key == key
    ensures Delivers(Completed(pending, arriving, i), adu, LastData(arriving, key, i)
            && !Obstructed(arriving, key, |adu|, i))
  {
    LastIsComplete(arriving, key, pieces, adu, i);
    DeliveredWhenComplete(pending, arriving, key, pieces, adu, i);
  }

  lemma NothingAfterwards(
      pending: map<Key, seq<Fragment>>, arriving: seq<Fragment>, key: Key, pieces: seq<Fragment>,
          adu: seq<Byte>, i: nat)
    requires Tiles(pieces, key, adu) && Comes(arriving, key, pieces) && key !in pending
    requires i < |arriving| && arriving[i].key == key && AllArrived(arriving, pieces, i)
    ensures Completed(pending, arriving, i) == None
  {
    var m := FirstAll(arriving, pieces, i);
    Afterwards(pending, arriving, key, pieces, adu, m, i);
    OneMoreEmpty(After(pending, arriving, i), arriving, key, pieces, adu, i + 1);
  }

  /** The last data is what completes the pieces. */
  lemma LastIsComplete(arriving: seq<Fragment>, key: Key, pieces: seq<Fragment>, adu: seq<Byte>, i: nat)
    requires Tiles(pieces, key, adu) && Carries(arriving, key, pieces) && i < |arriving| && arriving[i].key == key
    ensures LastData(arriving, key, i) <==> AllArrived(arriving, pieces, i + 1) && !AllArrived(arriving, pieces, i)
  {
    if !AllArrived(arriving, pieces, i + 1) {
      LaterPiece(arriving, key, pieces, adu, i);
    } else if AllArrived(arriving, pieces, i) {
      EmptyAfterAll(arriving, key, pieces, i);
    } else {
      OthersBringNothing(arriving, pieces, key, adu, i + 1);
      forall j | i < j < |arriving| && arriving[j].key == key ensures arriving[j].data == [] {
        AllArrivedLater(arriving, pieces, i + 1, j);
        EmptyAfterAll(arriving, key, pieces, j);
      }
    }
  }

  lemma AllArrivedLater(arriving: seq<Fragment>, pieces: seq<Fragment>, n: nat, m: nat)
    requires n <= m && AllArrived(arriving, pieces, n)
    ensures AllArrived(arriving, pieces, m)
  {
    forall x | x in pieces ensures Arrived(arriving, x, m) { assert Arrived(arriving, x, n); }
  }

  lemma LaterPiece(arriving: seq<Fragment>, key: Key, pieces: seq<Fragment>, adu: seq<Byte>, i: nat)
    requires Tiles(pieces, key, adu) && Carries(arriving, key, pieces) && !AllArrived(arriving, pieces, i + 1)
    ensures !LastData(arriving, key, i)
  {
    var x :| x in pieces && !Arrived(arriving, x, i + 1);
    var k :| 0 <= k < |pieces| && pieces[k] == x;
    assert x.key == key && x.data != [];
    assert Arrived(arriving, x, |arriving|);
    var j :| 0 <= j < |arriving| && arriving[j] == x;
    assert j > i;
  }

  /** An empty fragment behind its data: all bytes arrive and nothing is ever delivered. */
  lemma EmptyBehindData(key: Key, t: Terms, a: Byte, b: Byte)
    ensures var adu, pieces := [a, b], [Fragment(key, 0, 2, [a], t), Fragment(key, 1, 2, [b], t)];
            var arriving := [pieces[0], Fragment(key, 0, 2, [], t), pieces[1]];
      && Tiles(pieces, key, adu) && Carries(arriving, key, pieces)
      && forall i :: 0 <= i < 3 ==> Completed(map[], arriving, i) == None
  {
    var adu, pieces := [a, b], [Fragment(key, 0, 2, [a], t), Fragment(key, 1, 2, [b], t)];
    var arriving := [pieces[0], Fragment(key, 0, 2, [], t), pieces[1]];
    assert adu[0..1] == [a] && |adu[1..2]| == 1 && adu[1..2][0] == b && adu[1..2] == [b];
    ThreeArrive(arriving, key, pieces);
    forall i | 0 <= i < 3 ensures Completed(map[], arriving, i) == None {
      DeliveredWithLastPiece(map[], arriving, key, pieces, adu, i);
    }
  }

  lemma ThreeArrive(arriving: seq<Fragment>, key: Key, pieces: seq<Fragment>)
    requires |pieces| == 2 && pieces[0].key == key == pieces[1].key && pieces[0].offset == 0 && pieces[1].offset == 1
    requires |pieces[0].data| == 1 && pieces[1].data != [] && arriving == [pieces[0], pieces[0].(data := []), pieces[1]]
    ensures Carries(arriving, key, pieces)
    ensures forall i :: 0 <= i < 3 ==> !LastData(arriving, key, i) || Obstructed(arriving, key, 2, i)
  {
    assert arriving[0] == pieces[0] && arriving[1] == pieces[0].(data := []) && arriving[2] == pieces[1];
    assert EmptyOf(arriving[1], pieces[0]) && EmptyPiece(arriving[1], pieces);
    assert Arrived(arriving, pieces[0], 3) && Arrived(arriving, pieces[1], 3);
    assert Hides(arriving[0], arriving[1], 2) && Obstructed(arriving, key, 2, 2);
  }
}
