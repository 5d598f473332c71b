/**
 * Ordered contact lists (components/upcn/node.c, lines 496-598) and the admission check for new
 * contacts (components/upcn/routing_table.c, lines 417-440).
 */
module Contacts {

  /** A contact: which object it is, the EID of its node and the time it lasts. */
  datatype Contact = Contact(id: nat, node: string, from: nat, to: nat)

  /** What a list is ordered by. */
  datatype Order = ByFrom | ByTo

  function Key(order: Order, c: Contact): nat {
    match order case ByFrom => c.from case ByTo => c.to
  }

  ghost predicate Sorted(order: Order, list: seq<Contact>) {
    forall i, j :: 0 <= i < j < |list| ==> Key(order, list[i]) <= Key(order, list[j])
  }

  ghost predicate Distinct(list: seq<Contact>) {
    forall i, j :: 0 <= i < j < |list| ==> list[i] != list[j]
  }

  // ---- add_contact_to_ordered_list, remove_contact_from_list and their copies for associated lists ----

  /** The list with `c` before the first contact with a greater key, unless `c` was met on the way there. */
  function Insert(order: Order, list: seq<Contact>, c: Contact): seq<Contact> {
    if list == [] then [c]
    else if list[0] == c then list
    else if Key(order, list[0]) > Key(order, c) then [c] + list
    else [list[0]] + Insert(order, list[1..], c)
  }

  method AddToOrderedList(order: Order, list: seq<Contact>, c: Contact) returns (r: seq<Contact>, added: bool)
    ensures r == Insert(order, list, c)
    ensures added ==> |r| == |list| + 1
    ensures !added ==> r == list && c in list
  {
    var k := 0;
    while k < |list|
      invariant k <= |list| && Insert(order, list, c) == list[..k] + Insert(order, list[k..], c)
    {
      if list[k] == c {
        assert list[..k] + list[k..] == list;
        return list, false;
      }
      if Key(order, list[k]) > Key(order, c) { break; }
      InsertLater(order, list, c, k);
      k := k + 1;
    }
    assert Insert(order, list[k..], c) == [c] + list[k..];
    return list[..k] + ([c] + list[k..]), true;
  }

  lemma {:induction false} InsertLater(order: Order, list: seq<Contact>, c: Contact, k: nat)
    requires k < |list| && list[k] != c && Key(order, list[k]) <= Key(order, c)
    ensures list[..k] + Insert(order, list[k..], c) == list[..k + 1] + Insert(order, list[k + 1..], c)
  {
    assert list[k..][1..] == list[k + 1..] && list[..k + 1] == list[..k] + [list[k]];
    MoveOver(list[..k], list[k], Insert(order, list[k + 1..], c));
  }

  lemma MoveOver(a: seq<Contact>, x: Contact, b: seq<Contact>)
    ensures a + ([x] + b) == a + [x] + b
  {
  }

  function Remove(list: seq<Contact>, c: Contact): seq<Contact> {
    if list == [] then []
    else if list[0] == c then list[1..]
    else [list[0]] + Remove(list[1..], c)
  }

  method RemoveFromList(list: seq<Contact>, c: Contact) returns (r: seq<Contact>, removed: bool)
    ensures r == Remove(list, c)
    ensures removed <==> c in list
    ensures !removed ==> r == list
  {
    var k := 0;
    while k < |list|
      invariant k <= |list| && Remove(list, c) == list[..k] + Remove(list[k..], c)
      invariant c !in list[..k]
    {
      if list[k] == c { return list[..k] + list[k + 1..], true; }
      RemoveLater(list, c, k);
      k := k + 1;
    }
    assert list[..k] == list && list[..k] + [] == list;
    return list, false;
  }

  lemma {:induction false} RemoveLater(list: seq<Contact>, c: Contact, k: nat)
    requires k < |list| && list[k] != c
    ensures list[..k] + Remove(list[k..], c) == list[..k + 1] + Remove(list[k + 1..], c)
  {
    assert list[k..][1..] == list[k + 1..] && list[..k + 1] == list[..k] + [list[k]];
    MoveOver(list[..k], list[k], Remove(list[k + 1..], c));
  }

  lemma ConsKeeps(order: Order, c: Contact, rest: seq<Contact>)
    requires Sorted(order, rest) && Distinct(rest)
    requires forall x <- rest :: Key(order, c) <= Key(order, x) && x != c
    ensures Sorted(order, [c] + rest) && Distinct([c] + rest)
  {
    assert forall i :: 0 <= i < |rest| ==> rest[i] in rest;
  }

  lemma SortedHead(order: Order, list: seq<Contact>)
    requires list != [] && Sorted(order, list) && Distinct(list)
    ensures Sorted(order, list[1..]) && Distinct(list[1..])
    ensures forall x <- list[1..] :: Key(order, list[0]) <= Key(order, x) && x != list[0]
    ensures forall x :: x in list <==> x == list[0] || x in list[1..]
  {
  }

  /** Inserting keeps the order and adds `c` just once. */
  lemma {:induction false} InsertKeeps(order: Order, list: seq<Contact>, c: Contact)
    requires Sorted(order, list) && Distinct(list)
    ensures Sorted(order, Insert(order, list, c)) && Distinct(Insert(order, list, c))
    ensures forall x :: x in Insert(order, list, c) <==> x == c || x in list
    ensures |Insert(order, list, c)| == if c in list then |list| else |list| + 1
  {
    if list != [] && list[0] != c {
      SortedHead(order, list);
      if Key(order, list[0]) > Key(order, c) {
        ConsKeeps(order, c, list);
      } else {
        InsertKeeps(order, list[1..], c);
        ConsKeeps(order, list[0], Insert(order, list[1..], c));
      }
    }
  }

  lemma {:induction false} RemoveKeeps(order: Order, list: seq<Contact>, c: Contact)
    requires Sorted(order, list) && Distinct(list)
    ensures Sorted(order, Remove(list, c)) && Distinct(Remove(list, c))
    ensures forall x :: x in Remove(list, c) <==> x != c && x in list
    ensures |Remove(list, c)| == if c in list then |list| - 1 else |list|
  {
    if list != [] {
      SortedHead(order, list);
      if list[0] != c {
        RemoveKeeps(order, list[1..], c);
        ConsKeeps(order, list[0], Remove(list[1..], c));
      }
    }
  }

  // ---- check_for_invalid_overlaps ----

  predicate Overlap(a: Contact, b: Contact) { a.to > b.from && a.from < b.to }

  /** How many contacts of the list overlap `c`. */
  function Overlapping(list: seq<Contact>, c: Contact): nat {
    if list == [] then 0 else Overlapping(list[1..], c) + if Overlap(list[0], c) then 1 else 0
  }

  /** Some contact of the same node overlaps `c`. */
  predicate Blocked(list: seq<Contact>, c: Contact) {
    list != [] && ((list[0].node == c.node && Overlap(list[0], c)) || Blocked(list[1..], c))
  }

  const COUNTER := 0x100

  lemma {:induction false} NothingLater(list: seq<Contact>, c: Contact)
    requires forall i :: 0 <= i < |list| ==> list[i].from >= c.to
    ensures Overlapping(list, c) == 0 && !Blocked(list, c)
  {
    if list != [] { NothingLater(list[1..], c); }
  }

  lemma {:induction false} SuffixFrom(list: seq<Contact>, k: nat, c: Contact)
    requires Sorted(ByFrom, list) && k < |list| && list[k].from >= c.to
    ensures Overlapping(list[k..], c) == 0 && !Blocked(list[k..], c)
  {
    var rest := list[k..];
    forall i | 0 <= i < |rest| ensures rest[i].from >= c.to {
      assert rest[i] == list[k + i];
      assert i > 0 ==> Key(ByFrom, list[k]) <= Key(ByFrom, list[k + i]);
    }
    NothingLater(rest, c);
  }

  /** The check reads only a part of the list, and its counter has 8 bits. */
  method CheckForInvalidOverlaps(list: seq<Contact>, c: Contact, max: nat) returns (invalid: bool)
    requires Sorted(ByFrom, list) && max > 0
    ensures invalid <==> Blocked(list, c) || Overlapping(list, c) % COUNTER >= max
  {
    var k := 0;
    while k < |list| && list[k].to < c.from
      invariant k <= |list| && Overlapping(list[k..], c) == Overlapping(list, c)
      invariant Blocked(list[k..], c) == Blocked(list, c)
    {
      OverlapsFrom(list, k, c);
      k := k + 1;
    }
    if k == |list| || list[k].from >= c.to {
      if k < |list| { SuffixFrom(list, k, c); }
      return false;
    }
    invalid := CountOverlaps(list, k, c, max);
  }

  lemma {:induction false} OverlapsFrom(list: seq<Contact>, k: nat, c: Contact)
    requires k < |list|
    ensures Overlapping(list[k..], c) == Overlapping(list[k + 1..], c) + if Overlap(list[k], c) then 1 else 0
    ensures Blocked(list[k..], c) <==> (list[k].node == c.node && Overlap(list[k], c)) || Blocked(list[k + 1..], c)
  {
    assert list[k..][0] == list[k] && list[k..][1..] == list[k + 1..];
  }

  lemma CounterStep(n: nat)
    ensures (n % COUNTER + 1) % COUNTER == (n + 1) % COUNTER
  {
  }

  /** From `start` up to `k`, `met` contacts overlap `c` and none of its node does. */
  ghost predicate Counted(list: seq<Contact>, start: nat, k: nat, c: Contact, met: nat)
    requires start <= k <= |list|
  {
    && met + Overlapping(list[k..], c) == Overlapping(list[start..], c)
    && Blocked(list[k..], c) == Blocked(list[start..], c)
  }

  /** The second loop. */
  method CountOverlaps(list: seq<Contact>, start: nat, c: Contact, max: nat) returns (invalid: bool)
    requires Sorted(ByFrom, list) && start < |list| && list[start].from < c.to
    ensures invalid <==> Blocked(list[start..], c) || Overlapping(list[start..], c) % COUNTER >= max
  {
    var k, overlaps := start, 0;
    ghost var met: nat := 0;
    while k < |list| && list[k].from < c.to
      invariant start <= k <= |list| && overlaps == met % COUNTER && Counted(list, start, k, c, met)
    {
      OverlapsFrom(list, k, c);
      if list[k].to > c.from {
        if list[k].node == c.node { return true; }
        CounterStep(met);
        overlaps, met := (overlaps + 1) % COUNTER, met + 1;
      }
      k := k + 1;
    }
    if k < |list| { SuffixFrom(list, k, c); }
    return overlaps >= max;
  }

  // ---- what the check is for ----

  predicate OpenAt(c: Contact, t: nat) { c.from <= t < c.to }

  function CountOpen(list: seq<Contact>, t: nat): nat {
    if list == [] then 0 else CountOpen(list[1..], t) + if OpenAt(list[0], t) then 1 else 0
  }

  /** Contacts of one node never overlap. */
  ghost predicate Separate(list: seq<Contact>) {
    forall i, j :: 0 <= i < j < |list| && list[i].node == list[j].node ==> !Overlap(list[i], list[j])
  }

  /** At no time more than `max` contacts are open. */
  ghost predicate Limited(list: seq<Contact>, max: nat) { forall t: nat :: CountOpen(list, t) <= max }

  lemma {:induction false} OpenOverlap(list: seq<Contact>, c: Contact, t: nat)
    requires OpenAt(c, t)
    ensures CountOpen(list, t) <= Overlapping(list, c)
  {
    if list != [] { OpenOverlap(list[1..], c, t); }
  }

  lemma {:induction false} OpenAfterInsert(list: seq<Contact>, c: Contact, t: nat)
    requires c !in list
    ensures CountOpen(Insert(ByFrom, list, c), t) == CountOpen(list, t) + if OpenAt(c, t) then 1 else 0
  {
    if list != [] && Key(ByFrom, list[0]) <= Key(ByFrom, c) {
      OpenAfterInsert(list[1..], c, t);
      assert ([list[0]] + Insert(ByFrom, list[1..], c))[1..] == Insert(ByFrom, list[1..], c);
    } else {
      assert ([c] + list)[1..] == list;
    }
  }

  lemma {:induction false} OpenAfterRemove(list: seq<Contact>, c: Contact, t: nat)
    ensures CountOpen(Remove(list, c), t) <= CountOpen(list, t)
  {
    if list != [] && list[0] != c {
      OpenAfterRemove(list[1..], c, t);
      assert ([list[0]] + Remove(list[1..], c))[1..] == Remove(list[1..], c);
    }
  }

  lemma {:induction false} BlockedIf(list: seq<Contact>, c: Contact, i: nat)
    requires i < |list| && list[i].node == c.node && Overlap(list[i], c)
    ensures Blocked(list, c)
  {
    if i > 0 { BlockedIf(list[1..], c, i - 1); }
  }

  lemma {:induction false} SeparateByMembers(list: seq<Contact>, r: seq<Contact>, c: Contact)
    requires Separate(list) && Distinct(r) && !Blocked(list, c) && forall x <- r :: x == c || x in list
    ensures Separate(r)
  {
    forall i, j | 0 <= i < j < |r| && r[i].node == r[j].node
      ensures !Overlap(r[i], r[j])
    {
      assert r[i] != r[j] && r[i] in r && r[j] in r;
      if r[i] == c || r[j] == c {
        var k :| 0 <= k < |list| && list[k] == if r[i] == c then r[j] else r[i];
        if Overlap(list[k], c) { BlockedIf(list, c, k); }
      } else {
        var k :| 0 <= k < |list| && list[k] == r[i];
        var l :| 0 <= l < |list| && list[l] == r[j];
        if k < l { assert !Overlap(list[k], list[l]); } else { assert !Overlap(list[l], list[k]); }
      }
    }
  }

  /** A contact list as the routing table keeps it. */
  ghost predicate Good(list: seq<Contact>) {
    Sorted(ByFrom, list) && Distinct(list) && Separate(list)
  }

  /** The start of `c` and the starts of other contacts inside it leave room for one more contact. */
  ghost predicate HasRoom(list: seq<Contact>, c: Contact, max: nat) {
    && (c.from < c.to ==> CountOpen(list, c.from) < max)
    && (forall x <- list :: OpenAt(c, x.from) ==> CountOpen(list, x.from) < max)
  }

  /** The latest start, not before `low`, of the contacts that are open at `t`. */
  function LatestStart(list: seq<Contact>, t: nat, low: nat): nat {
    if list == [] then low
    else
      var s := LatestStart(list[1..], t, low);
      if OpenAt(list[0], t) && list[0].from > s then list[0].from else s
  }

  lemma {:induction false} LatestStartIs(list: seq<Contact>, t: nat, low: nat)
    requires low <= t
    ensures var s := LatestStart(list, t, low);
      && low <= s <= t && (s == low || exists x :: x in list && x.from == s)
      && CountOpen(list, t) <= CountOpen(list, s)
      && forall u :: s <= u <= t ==> CountOpen(list, t) <= CountOpen(list, u)
  {
    if list != [] { LatestStartIs(list[1..], t, low); }
  }

  /** It is enough to look at the starts: contacts open at some time were all open at the latest of their starts. */
  lemma {:induction false} RoomAlways(list: seq<Contact>, c: Contact, max: nat)
    ensures HasRoom(list, c, max) <==> forall t: nat :: OpenAt(c, t) ==> CountOpen(list, t) < max
  {
    if HasRoom(list, c, max) {
      forall t: nat | OpenAt(c, t) ensures CountOpen(list, t) < max {
        LatestStartIs(list, t, c.from);
        var s := LatestStart(list, t, c.from);
        assert CountOpen(list, s) < max;
      }
    }
    if forall t: nat :: OpenAt(c, t) ==> CountOpen(list, t) < max {
      assert c.from < c.to ==> OpenAt(c, c.from);
    }
  }

  /** Exactly when one more contact keeps to the limit. */
  lemma {:induction false} AdmitLimited(list: seq<Contact>, c: Contact, max: nat)
    requires Limited(list, max) && c !in list
    ensures Limited(Insert(ByFrom, list, c), max) <==> HasRoom(list, c, max)
  {
    RoomAlways(list, c, max);
    var r := Insert(ByFrom, list, c);
    forall t: nat ensures CountOpen(r, t) == CountOpen(list, t) + if OpenAt(c, t) then 1 else 0 {
      OpenAfterInsert(list, c, t);
    }
    if Limited(r, max) {
      forall t: nat | OpenAt(c, t) ensures CountOpen(list, t) < max { assert CountOpen(r, t) <= max; }
    }
    if HasRoom(list, c, max) {
      forall t: nat ensures CountOpen(r, t) <= max { assert CountOpen(list, t) <= max; }
    }
  }

  /** Fewer than `max` overlaps leave room at every time. */
  lemma {:induction false} FewOverlaps(list: seq<Contact>, c: Contact, max: nat)
    requires Overlapping(list, c) < max
    ensures HasRoom(list, c, max)
  {
    forall t: nat | OpenAt(c, t) ensures CountOpen(list, t) < max { OpenOverlap(list, c, t); }
    RoomAlways(list, c, max);
  }

  /**
   * A contact that passes the check keeps the list good. It keeps to the limit just when there is room,
   * and there is, unless the 8-bit counter went round.
   */
  lemma {:induction false} AdmitKeeps(list: seq<Contact>, c: Contact, max: nat)
    requires Good(list) && !Blocked(list, c) && Overlapping(list, c) % COUNTER < max
    ensures Good(Insert(ByFrom, list, c))
    ensures Limited(list, max) ==> (Limited(Insert(ByFrom, list, c), max) <==> c in list || HasRoom(list, c, max))
    ensures Overlapping(list, c) < COUNTER ==> HasRoom(list, c, max)
  {
    AdmitGood(list, c);
    AdmitExact(list, c, max);
    RoomBelowCounter(list, c, max);
  }

  lemma {:induction false} RoomBelowCounter(list: seq<Contact>, c: Contact, max: nat)
    requires Overlapping(list, c) % COUNTER < max
    ensures Overlapping(list, c) < COUNTER ==> HasRoom(list, c, max)
  {
    if Overlapping(list, c) < COUNTER { FewOverlaps(list, c, max); }
  }

  lemma {:induction false} AdmitGood(list: seq<Contact>, c: Contact)
    requires Good(list) && !Blocked(list, c)
    ensures Good(Insert(ByFrom, list, c))
  {
    InsertKeeps(ByFrom, list, c);
    SeparateByMembers(list, Insert(ByFrom, list, c), c);
  }

  lemma {:induction false} AdmitExact(list: seq<Contact>, c: Contact, max: nat)
    requires Good(list)
    ensures Limited(list, max) ==> (Limited(Insert(ByFrom, list, c), max) <==> c in list || HasRoom(list, c, max))
  {
    if c in list { InsertListed(ByFrom, list, c); } else if Limited(list, max) { AdmitLimited(list, c, max); }
  }

  /** A listed contact is found before any later one. */
  lemma {:induction false} InsertListed(order: Order, list: seq<Contact>, c: Contact)
    requires Sorted(order, list) && Distinct(list) && c in list
    ensures Insert(order, list, c) == list
  {
    if list[0] != c {
      SortedHead(order, list);
      InsertListed(order, list[1..], c);
      assert [list[0]] + list[1..] == list;
    }
  }

  lemma {:induction false} DropKeeps(list: seq<Contact>, c: Contact, max: nat)
    requires Good(list)
    ensures Good(Remove(list, c))
    ensures Limited(list, max) ==> Limited(Remove(list, c), max)
  {
    RemoveKeeps(ByFrom, list, c);
    var r := Remove(list, c);
    forall i, j | 0 <= i < j < |r| && r[i].node == r[j].node
      ensures !Overlap(r[i], r[j])
    {
      assert r[i] != r[j] && r[i] in r && r[j] in r;
      var k :| 0 <= k < |list| && list[k] == r[i];
      var l :| 0 <= l < |list| && list[l] == r[j];
      if k < l { assert !Overlap(list[k], list[l]); } else { assert !Overlap(list[l], list[k]); }
    }
    forall t: nat ensures CountOpen(r, t) <= CountOpen(list, t) { OpenAfterRemove(list, c, t); }
  }

  /** What a listed contact that lasts some time meets when it is checked again: itself. */
  lemma {:induction false} ListedIsRefused(list: seq<Contact>, c: Contact)
    requires c in list && c.from < c.to
    ensures Blocked(list, c)
  {
    var i :| 0 <= i < |list| && list[i] == c;
    BlockedIf(list, c, i);
  }

  // ---- the counter going round ----

  function Name(i: nat): (r: string)
    ensures |r| == i
  {
    seq(i, _ => 'n')
  }

  /** `max` contacts of different nodes at time 0, then one after the other. */
  function Crowd(max: nat, i: nat): Contact {
    if i < max then Contact(i, Name(i), 0, 1) else Contact(i, Name(0), i, i + 1)
  }

  function Crowds(max: nat): seq<Contact> { seq(COUNTER, i requires 0 <= i < COUNTER => Crowd(max, i)) }

  lemma {:induction false} CrowdOverlaps(max: nat, c: Contact, i: nat)
    requires i <= COUNTER && c.from == 0 && c.to == COUNTER && |c.node| == max
    ensures Overlapping(Crowds(max)[i..], c) == COUNTER - i && (max > 0 ==> !Blocked(Crowds(max)[i..], c))
    decreases COUNTER - i
  {
    if i < COUNTER {
      CrowdOverlaps(max, c, i + 1);
      assert Crowds(max)[i..][1..] == Crowds(max)[i + 1..] && Crowds(max)[i..][0] == Crowd(max, i);
    }
  }

  lemma {:induction false} CrowdOpen(max: nat, i: nat, t: nat)
    requires 0 < max && i <= COUNTER
    ensures CountOpen(Crowds(max)[i..], t) <=
            if i >= max then (if t >= i then 1 else 0) else if t == 0 then max - i else 1
    ensures max <= COUNTER && i <= max && t == 0 ==> CountOpen(Crowds(max)[i..], t) == max - i
    decreases COUNTER - i
  {
    if i < COUNTER {
      CrowdOpen(max, i + 1, t);
      assert Crowds(max)[i..][1..] == Crowds(max)[i + 1..] && Crowds(max)[i..][0] == Crowd(max, i);
    }
  }

  /** With 256 overlaps the check lets a contact through although `max` others are open at its start. */
  lemma CounterGoesRound(max: nat)
    requires 0 < max < COUNTER
    ensures var list, c := Crowds(max), Contact(COUNTER, Name(max), 0, COUNTER);
      && Good(list) && Limited(list, max)
      && !Blocked(list, c) && Overlapping(list, c) % COUNTER < max
      && !Limited(Insert(ByFrom, list, c), max)
  {
    var list, c := Crowds(max), Contact(COUNTER, Name(max), 0, COUNTER);
    assert list[0..] == list;
    CrowdOverlaps(max, c, 0);
    CrowdGood(max);
    forall t: nat ensures CountOpen(list, t) <= max { CrowdOpen(max, 0, t); }
    CrowdOpen(max, 0, 0);
    assert c !in list by { assert forall i :: 0 <= i < COUNTER ==> list[i].id == i; }
    OpenAfterInsert(list, c, 0);
  }

  lemma CrowdGood(max: nat)
    ensures Good(Crowds(max))
  {
    var list := Crowds(max);
    assert forall i :: 0 <= i < COUNTER ==> list[i].id == i;
    forall i, j | 0 <= i < j < |list| && list[i].node == list[j].node ensures !Overlap(list[i], list[j]) {
      assert |list[i].node| == |list[j].node|;
    }
  }
}
