/**
 * Bundles scheduled for contacts and the capacity they take (components/upcn/router.c, lines 484-620,
 * components/upcn/node.c, lines 452-471, components/upcn/routing_table.c, lines 511-536).
 */
module Capacity {
  import opened Basics

  type ContactId = nat
  type BundleId = nat

  datatype Priority = Low | Normal | High

  function Rank(p: Priority): nat { match p case Low => 0 case Normal => 1 case High => 2 }

  /** A routed bundle and the contacts it is scheduled for. */
  datatype Routed = Routed(size: nat, priority: Priority, contacts: seq<ContactId>)

  const WORD := 0x1_0000_0000
  const HALF := 0x8000_0000

  type int32 = x: int | -HALF <= x < HALF

  /** A number in 32 bits with a sign. */
  function Wrap(x: int): int32 { if x % WORD < HALF then x % WORD else x % WORD - WORD }

  /** What is scheduled for a contact, and what that leaves for bundles of each priority. */
  datatype Load = Load(total: nat, left0: int32, left1: int32, left2: int32, bundles: seq<BundleId>, count: nat)
  {
    function Left(k: nat): int32 { if k == 0 then left0 else if k == 1 then left1 else left2 }
  }

  type Loads = map<ContactId, Load>
  type Routing = map<BundleId, Routed>

  const COUNT := 0x100

  // ---- one contact ----

  /** router_add_bundle_to_contact */
  function Enter(l: Load, id: BundleId, rb: Routed): Load {
    var l := l.(bundles := l.bundles + [id], count := (l.count + 1) % COUNT, left0 := Wrap(l.left0 - rb.size));
    if rb.priority == Low then l
    else if rb.priority == Normal then l.(left1 := Wrap(l.left1 - rb.size))
    else l.(left1 := Wrap(l.left1 - rb.size), left2 := Wrap(l.left2 - rb.size))
  }

  function Without(list: seq<BundleId>, id: BundleId): seq<BundleId> {
    if list == [] then [] else if list[0] == id then list[1..] else [list[0]] + Without(list[1..], id)
  }

  /** router_remove_bundle_from_contact */
  function Leave(l: Load, id: BundleId, rb: Routed): Load {
    if id !in l.bundles then l
    else
      var l := l.(bundles := Without(l.bundles, id), count := (l.count - 1) % COUNT, left0 := Wrap(l.left0 + rb.size));
      if rb.priority == Low then l
      else if rb.priority == Normal then l.(left1 := Wrap(l.left1 + rb.size))
      else l.(left1 := Wrap(l.left1 + rb.size), left2 := Wrap(l.left2 + rb.size))
  }

  const TIME := 0x1_0000_0000_0000_0000

  type uint32 = x: int | 0 <= x < WORD
  type uint64 = x: int | 0 <= x < TIME

  /** recalculate_contact_capacity */
  function NewTotal(from: uint64, to: uint64, bitrate: uint32): (r: nat)
    ensures r < HALF
  {
    var duration := (to - from) % TIME;
    var capacity := (if duration > 0xFFFF_FFFF then 0xFFFF_FFFF else duration) * bitrate % TIME;
    if capacity > 0x7FFF_FFFF then 0x7FFF_FFFF else capacity
  }

  /** How long a contact lasts, in 64 bits also if it ends before it starts. */
  function Lasts(from: uint64, to: uint64): nat { if from <= to then to - from else TIME - (from - to) }

  /** The capacity of a contact is its duration times its bitrate if both fit, and 2 GB otherwise. */
  ghost predicate IsTotal(total: nat, from: uint64, to: uint64, bitrate: uint32) {
    total ==
    if Lasts(from, to) <= 0xFFFF_FFFF && Lasts(from, to) * bitrate <= 0x7FFF_FFFF then Lasts(from, to) * bitrate
    else if bitrate == 0 then 0
    else 0x7FFF_FFFF
  }

  lemma TotalExactly(from: uint64, to: uint64, bitrate: uint32)
    ensures IsTotal(NewTotal(from, to, bitrate), from, to, bitrate)
  {
    if from <= to { DurationOf(to - from); } else { DurationBack(from - to); }
    var d := if Lasts(from, to) > 0xFFFF_FFFF then 0xFFFF_FFFF else Lasts(from, to);
    Products(d, bitrate);
    DurationOf(d * bitrate);
  }

  /** A product of two numbers of 32 bits fits 64 bits. */
  lemma Products(d: nat, bitrate: uint32)
    requires d < WORD
    ensures d * bitrate < TIME && (bitrate > 0 ==> d * bitrate >= d) && (bitrate == 0 ==> d * bitrate == 0)
  {
    Grows(d, WORD, bitrate);
    Grows(bitrate, WORD, WORD);
    if bitrate > 0 { Grows(1, bitrate, d); }
  }

  lemma DurationOf(d: nat)
    ensures d < TIME ==> d % TIME == d
  {
  }

  lemma DurationBack(d: nat)
    requires 0 < d < TIME
    ensures (0 - d) % TIME == TIME - d
  {
  }

  function Recalculated(l: Load, total: nat): Load {
    var d := Wrap(total - l.total);
    l.(total := total, left0 := Wrap(l.left0 + d), left1 := Wrap(l.left1 + d), left2 := Wrap(l.left2 + d))
  }

  // ---- what holds ----

  /** The bytes that bundles of priority `k` or more take. */
  function Used(list: seq<BundleId>, routed: Routing, k: nat): nat {
    if list == [] then 0
    else
      Used(list[1..], routed, k)
      + if list[0] in routed && Rank(routed[list[0]].priority) >= k then routed[list[0]].size else 0
  }

  ghost predicate Distinct(list: seq<nat>) { forall i, j :: 0 <= i < j < |list| ==> list[i] != list[j] }

  /** The books of one contact are right, in 32 bits. */
  ghost predicate LoadOk(l: Load, routed: Routing) {
    && Distinct(l.bundles) && l.count == |l.bundles| % COUNT && l.total < HALF
    && forall k :: 0 <= k <= 2 ==> l.Left(k) == Wrap(l.total - Used(l.bundles, routed, k))
  }

  /** A bundle is in the list of a contact just when the contact is one of its contacts. */
  ghost predicate Linked(loads: Loads, routed: Routing) {
    && (forall id <- routed :: Distinct(routed[id].contacts) && forall c <- routed[id].contacts :: c in loads)
    && (forall c <- loads, id: BundleId :: id in loads[c].bundles <==> id in routed && c in routed[id].contacts)
  }

  ghost predicate Balanced(loads: Loads, routed: Routing) { forall c <- loads :: LoadOk(loads[c], routed) }

  ghost predicate Ok(loads: Loads, routed: Routing) { Linked(loads, routed) && Balanced(loads, routed) }

  // ---- sums ----

  lemma {:induction false} UsedAppend(list: seq<BundleId>, id: BundleId, routed: Routing, k: nat)
    ensures Used(list + [id], routed, k) ==
            Used(list, routed, k) + if id in routed && Rank(routed[id].priority) >= k then routed[id].size else 0
  {
    if list != [] {
      assert (list + [id])[1..] == list[1..] + [id];
      UsedAppend(list[1..], id, routed, k);
    } else {
      assert list + [id] == [id];
    }
  }

  lemma {:induction false} UsedWithout(list: seq<BundleId>, id: BundleId, routed: Routing, k: nat)
    requires id in list && id in routed
    ensures Used(list, routed, k) ==
            Used(Without(list, id), routed, k) + if Rank(routed[id].priority) >= k then routed[id].size else 0
  {
    if list[0] != id {
      UsedWithout(list[1..], id, routed, k);
      assert ([list[0]] + Without(list[1..], id))[1..] == Without(list[1..], id);
    }
  }

  /** Bundles that are not in the list do not matter. */
  lemma {:induction false} UsedAgrees(list: seq<BundleId>, a: Routing, b: Routing, k: nat)
    requires forall id <- list :: (id in a <==> id in b) && (id in a ==> a[id] == b[id])
    ensures Used(list, a, k) == Used(list, b, k)
  {
    if list != [] {
      assert list[0] in list && forall id <- list[1..] :: id in list;
      UsedAgrees(list[1..], a, b, k);
    }
  }

  lemma {:induction false} WithoutOk(list: seq<BundleId>, id: BundleId)
    requires Distinct(list)
    ensures Distinct(Without(list, id)) && (forall x :: x in Without(list, id) <==> x in list && x != id)
    ensures |Without(list, id)| == if id in list then |list| - 1 else |list|
  {
    if list != [] {
      assert forall x :: x in list <==> x == list[0] || x in list[1..];
      if list[0] != id {
        WithoutOk(list[1..], id);
        var rest := Without(list[1..], id);
        forall i | 0 <= i < |rest| ensures rest[i] != list[0] { assert rest[i] in rest; }
      } else {
        forall i | 0 <= i < |list[1..]| ensures list[1..][i] != id { assert list[1..][i] == list[i + 1]; }
      }
    }
  }

  /** The other bundles keep their order. */
  lemma {:induction false} WithoutOneOf(a: seq<BundleId>, id: BundleId, b: seq<BundleId>)
    requires id !in a
    ensures Without(a + ([id] + b), id) == a + b
  {
    if a == [] {
      assert a + ([id] + b) == [id] + b && a + b == b;
    } else {
      assert (a + ([id] + b))[1..] == a[1..] + ([id] + b);
      WithoutOneOf(a[1..], id, b);
      assert [a[0]] + (a[1..] + b) == a + b;
    }
  }

  // ---- one contact keeps its books ----

  /** Sums may be cut to 32 bits at any time. */
  lemma WrapPlus(x: int, y: int)
    ensures Wrap(Wrap(x) + y) == Wrap(x + y)
  {
    var q := (x - Wrap(x)) / WORD;
    assert x + y == Wrap(x) + y + q * WORD;
    SameWord(Wrap(x) + y, q);
  }

  lemma SameWord(x: int, q: int)
    ensures (x + q * WORD) % WORD == x % WORD
  {
  }

  lemma WrapSmall(x: int)
    ensures Wrap(x) == x <==> -HALF <= x < HALF
  {
  }

  /** What is left is exact just when the contact is not overbooked by more than 2 GB. */
  lemma {:induction false} LeftExact(l: Load, routed: Routing, k: nat)
    requires LoadOk(l, routed) && k <= 2
    ensures l.Left(k) == l.total - Used(l.bundles, routed, k) <==> Used(l.bundles, routed, k) <= l.total + HALF
  {
    WrapSmall(l.total - Used(l.bundles, routed, k));
  }

  /** What one more bundle, or one less, leaves for a priority. */
  lemma LeftAfter(l: Load, id: BundleId, rb: Routed, k: nat)
    requires k <= 2
    ensures Enter(l, id, rb).Left(k) == if Rank(rb.priority) >= k then Wrap(l.Left(k) - rb.size) else l.Left(k)
    ensures id in l.bundles ==>
              Leave(l, id, rb).Left(k) == if Rank(rb.priority) >= k then Wrap(l.Left(k) + rb.size) else l.Left(k)
    ensures id !in l.bundles ==> Leave(l, id, rb) == l
  {
  }

  lemma EnterOk(l: Load, id: BundleId, rb: Routed, routed: Routing)
    requires LoadOk(l, routed) && id !in l.bundles
    ensures LoadOk(Enter(l, id, rb), routed[id := rb])
  {
    var l', routed' := Enter(l, id, rb), routed[id := rb];
    forall k | 0 <= k <= 2 ensures l'.Left(k) == Wrap(l'.total - Used(l'.bundles, routed', k)) {
      UsedAppend(l.bundles, id, routed', k);
      UsedAgrees(l.bundles, routed, routed', k);
      WrapPlus(l.total - Used(l.bundles, routed, k), 0 - rb.size);
      LeftAfter(l, id, rb, k);
    }
    CountStep(|l.bundles|);
  }

  lemma LeaveOk(l: Load, id: BundleId, routed: Routing)
    requires LoadOk(l, routed) && id in l.bundles && id in routed
    ensures LoadOk(Leave(l, id, routed[id]), routed - {id})
  {
    var l', routed' := Leave(l, id, routed[id]), routed - {id};
    WithoutOk(l.bundles, id);
    forall k | 0 <= k <= 2 ensures l'.Left(k) == Wrap(l'.total - Used(l'.bundles, routed', k)) {
      UsedWithout(l.bundles, id, routed, k);
      UsedAgrees(l'.bundles, routed, routed', k);
      WrapPlus(l.total - Used(l.bundles, routed, k), routed[id].size);
      LeftAfter(l, id, routed[id], k);
    }
    CountStep(|l.bundles|);
  }

  lemma CountStep(n: nat)
    ensures (n % COUNT + 1) % COUNT == (n + 1) % COUNT && (n % COUNT - 1) % COUNT == (n - 1) % COUNT
  {
  }

  lemma OtherOk(l: Load, routed: Routing, routed': Routing)
    requires LoadOk(l, routed)
    requires forall id <- l.bundles :: (id in routed <==> id in routed') && (id in routed ==> routed[id] == routed'[id])
    ensures LoadOk(l, routed')
  {
    forall k | 0 <= k <= 2 ensures l.Left(k) == Wrap(l.total - Used(l.bundles, routed', k)) {
      UsedAgrees(l.bundles, routed, routed', k);
    }
  }

  // ---- a bundle on all contacts of its route ----

  function EnterAll(loads: Loads, route: seq<ContactId>, id: BundleId, rb: Routed): Loads
    requires forall c <- route :: c in loads
    decreases |route|
  {
    if route == [] then loads else EnterAll(loads[route[0] := Enter(loads[route[0]], id, rb)], route[1..], id, rb)
  }

  function LeaveAll(loads: Loads, route: seq<ContactId>, id: BundleId, rb: Routed): Loads
    requires forall c <- route :: c in loads
    decreases |route|
  {
    if route == [] then loads else LeaveAll(loads[route[0] := Leave(loads[route[0]], id, rb)], route[1..], id, rb)
  }

  lemma {:induction false} EnterAllAt(loads: Loads, route: seq<ContactId>, id: BundleId, rb: Routed)
    requires Distinct(route) && forall c <- route :: c in loads
    ensures EnterAll(loads, route, id, rb).Keys == loads.Keys
    ensures forall c <- loads ::
              EnterAll(loads, route, id, rb)[c] == if c in route then Enter(loads[c], id, rb) else loads[c]
    decreases |route|
  {
    if route != [] {
      assert forall c :: c in route <==> c == route[0] || c in route[1..];
      EnterAllAt(loads[route[0] := Enter(loads[route[0]], id, rb)], route[1..], id, rb);
    }
  }

  lemma {:induction false} LeaveAllAt(loads: Loads, route: seq<ContactId>, id: BundleId, rb: Routed)
    requires Distinct(route) && forall c <- route :: c in loads
    ensures LeaveAll(loads, route, id, rb).Keys == loads.Keys
    ensures forall c <- loads ::
              LeaveAll(loads, route, id, rb)[c] == if c in route then Leave(loads[c], id, rb) else loads[c]
    decreases |route|
  {
    if route != [] {
      assert forall c :: c in route <==> c == route[0] || c in route[1..];
      LeaveAllAt(loads[route[0] := Leave(loads[route[0]], id, rb)], route[1..], id, rb);
    }
  }

  /** Routing a bundle keeps lists and routes in step and every book right. */
  lemma {:induction false} RouteOk(loads: Loads, routed: Routing, id: BundleId, rb: Routed)
    requires Ok(loads, routed) && id !in routed && Distinct(rb.contacts) && forall c <- rb.contacts :: c in loads
    ensures Ok(EnterAll(loads, rb.contacts, id, rb), routed[id := rb])
  {
    EnterAllAt(loads, rb.contacts, id, rb);
    var loads', routed' := EnterAll(loads, rb.contacts, id, rb), routed[id := rb];
    forall c | c in loads ensures LoadOk(loads'[c], routed') {
      assert id !in loads[c].bundles;
      if c in rb.contacts { EnterOk(loads[c], id, rb, routed); } else { OtherOk(loads[c], routed, routed'); }
    }
  }

  /** What taking a bundle off its route leaves of one contact. */
  function After(l: Load, c: ContactId, id: BundleId, rb: Routed): Load {
    if c in rb.contacts then Leave(l, id, rb) else l
  }

  lemma {:induction false} AfterOk(loads: Loads, routed: Routing, id: BundleId, c: ContactId)
    requires Ok(loads, routed) && id in routed && c in loads
    ensures var l := After(loads[c], c, id, routed[id]);
      LoadOk(l, routed - {id}) && l.bundles == Without(loads[c].bundles, id) && l.total == loads[c].total
  {
    assert LoadOk(loads[c], routed);
    assert id in loads[c].bundles <==> c in routed[id].contacts;
    if c in routed[id].contacts {
      LeaveOk(loads[c], id, routed);
    } else {
      WithoutAbsent(loads[c].bundles, id);
      OtherOk(loads[c], routed, routed - {id});
    }
  }

  lemma {:induction false} LinkedAfter(loads: Loads, routed: Routing, id: BundleId, loads': Loads)
    requires Ok(loads, routed) && id in routed && loads'.Keys == loads.Keys
    requires forall c <- loads :: loads'[c].bundles == Without(loads[c].bundles, id)
    ensures Linked(loads', routed - {id})
  {
    forall c, x: BundleId | c in loads'
      ensures x in loads'[c].bundles <==> x in routed - {id} && c in (routed - {id})[x].contacts
    {
      assert LoadOk(loads[c], routed);
      WithoutOk(loads[c].bundles, id);
      assert x in loads[c].bundles <==> x in routed && c in routed[x].contacts;
    }
  }

  /** Taking it off again keeps them as well. */
  lemma {:induction false} UnrouteOk(loads: Loads, routed: Routing, id: BundleId)
    requires Ok(loads, routed) && id in routed
    ensures var loads' := LeaveAll(loads, routed[id].contacts, id, routed[id]);
      && Ok(loads', routed - {id}) && loads'.Keys == loads.Keys
      && forall c <- loads :: loads'[c].bundles == Without(loads[c].bundles, id) && loads'[c].total == loads[c].total
  {
    var rb := routed[id];
    LeaveAllAt(loads, rb.contacts, id, rb);
    var loads' := LeaveAll(loads, rb.contacts, id, rb);
    forall c | c in loads
      ensures LoadOk(loads'[c], routed - {id}) && loads'[c].bundles == Without(loads[c].bundles, id)
              && loads'[c].total == loads[c].total
    {
      assert loads'[c] == After(loads[c], c, id, rb);
      AfterOk(loads, routed, id, c);
    }
    LinkedAfter(loads, routed, id, loads');
  }

  lemma {:induction false} WithoutAbsent(list: seq<BundleId>, id: BundleId)
    requires id !in list
    ensures Without(list, id) == list
  {
    if list != [] {
      WithoutAbsent(list[1..], id);
      assert [list[0]] + list[1..] == list;
    }
  }

  /** Routing a bundle and taking it off again restores every contact. */
  lemma {:induction false} RouteThenUnroute(loads: Loads, id: BundleId, rb: Routed)
    requires Distinct(rb.contacts) && forall c <- rb.contacts ::
                                        c in loads && id !in loads[c].bundles && loads[c].count < COUNT
    ensures EnterAll(loads, rb.contacts, id, rb).Keys == loads.Keys
    ensures LeaveAll(EnterAll(loads, rb.contacts, id, rb), rb.contacts, id, rb) == loads
  {
    EnterAllAt(loads, rb.contacts, id, rb);
    var loads' := EnterAll(loads, rb.contacts, id, rb);
    LeaveAllAt(loads', rb.contacts, id, rb);
    forall c | c in rb.contacts ensures Leave(Enter(loads[c], id, rb), id, rb) == loads[c] {
      LeaveEntered(loads[c], id, rb);
    }
  }

  lemma LeaveEntered(l: Load, id: BundleId, rb: Routed)
    requires id !in l.bundles && l.count < COUNT
    ensures Leave(Enter(l, id, rb), id, rb) == l
  {
    WithoutLast(l.bundles, id);
    Restored(l.left0, rb.size);
    Restored(l.left1, rb.size);
    Restored(l.left2, rb.size);
    CountRestored(l.count);
  }

  lemma Restored(x: int32, size: nat)
    ensures Wrap(Wrap(x - size) + size) == x
  {
    WrapPlus(x - size, size);
    WrapSmall(x);
  }

  lemma CountRestored(n: nat)
    requires n < COUNT
    ensures ((n + 1) % COUNT - 1) % COUNT == n
  {
  }

  lemma {:induction false} WithoutLast(list: seq<BundleId>, id: BundleId)
    requires id !in list
    ensures Without(list + [id], id) == list
  {
    if list == [] {
      assert list + [id] == [id];
    } else {
      assert (list + [id])[1..] == list[1..] + [id];
      WithoutLast(list[1..], id);
      assert [list[0]] + list[1..] == list;
    }
  }

  /** The bundle comes last on the contacts of its route, and nothing else moves. */
  ghost predicate Queued(loads: Loads, loads': Loads, route: seq<ContactId>, id: BundleId) {
    && loads'.Keys == loads.Keys
    && forall c <- loads :: loads'[c].bundles == if c in route then loads[c].bundles + [id] else loads[c].bundles
  }

  lemma {:induction false} QueuedLast(loads: Loads, route: seq<ContactId>, id: BundleId, rb: Routed)
    requires Distinct(route) && forall c <- route :: c in loads
    ensures Queued(loads, EnterAll(loads, route, id, rb), route, id)
  {
    EnterAllAt(loads, route, id, rb);
  }

  // ---- rescheduling ----

  /** The list without all of `gone`. */
  function WithoutAll(list: seq<BundleId>, gone: seq<BundleId>): seq<BundleId>
    decreases |gone|
  {
    if gone == [] then list else WithoutAll(Without(list, gone[0]), gone[1..])
  }

  lemma {:induction false} WithoutAllMembers(list: seq<BundleId>, gone: seq<BundleId>)
    requires Distinct(list)
    ensures Distinct(WithoutAll(list, gone)) && forall x :: x in WithoutAll(list, gone) <==> x in list && x !in gone
    decreases |gone|
  {
    if gone != [] {
      WithoutOk(list, gone[0]);
      WithoutAllMembers(Without(list, gone[0]), gone[1..]);
      assert forall x :: x in gone <==> x == gone[0] || x in gone[1..];
    }
  }

  lemma {:induction false} WithoutAllAppend(list: seq<BundleId>, gone: seq<BundleId>, id: BundleId)
    ensures WithoutAll(list, gone + [id]) == Without(WithoutAll(list, gone), id)
    decreases |gone|
  {
    if gone == [] {
      assert gone + [id] == [id] && [id][1..] == [];
      assert WithoutAll(list, [id]) == WithoutAll(Without(list, id), []);
    } else {
      assert (gone + [id])[1..] == gone[1..] + [id];
      WithoutAllAppend(Without(list, gone[0]), gone[1..], id);
    }
  }

  class Router {
    var loads: Loads
    var routed: Routing

    ghost predicate Valid() reads this { Ok(loads, routed) }

    constructor ()
      ensures Valid() && loads == map[] && routed == map[]
    {
      loads, routed := map[], map[];
    }

    /** A new contact; recalculate_contact_capacity gives it its capacity. */
    method AddContact(c: ContactId)
      requires Valid() && c !in loads
      modifies this`loads
      ensures Valid() && loads == old(loads)[c := Load(0, 0, 0, 0, [], 0)]
    {
      loads := loads[c := Load(0, 0, 0, 0, [], 0)];
    }

    method Recalculate(c: ContactId, from: uint64, to: uint64, bitrate: uint32)
      requires Valid() && c in loads
      modifies this`loads
      ensures Valid() && loads == old(loads)[c := Recalculated(old(loads)[c], NewTotal(from, to, bitrate))]
      ensures IsTotal(loads[c].total, from, to, bitrate)
      ensures forall k :: 0 <= k <= 2 ==>
                loads[c].Left(k) == Wrap(loads[c].total - Used(old(loads)[c].bundles, routed, k))
      ensures loads[c].bundles == old(loads)[c].bundles && loads[c].count == old(loads)[c].count
    {
      var total := NewTotal(from, to, bitrate);
      var d := Wrap(total - loads[c].total);
      var l := loads[c];
      loads := loads[c := l.(total := total, left0 := Wrap(l.left0 + d), left1 := Wrap(l.left1 + d),
          left2 := Wrap(l.left2 + d))];
      RecalculateOk(old(loads), routed, c, total);
      TotalExactly(from, to, bitrate);
    }

    /** router_update_routed_bundle: the program ends when there is no contact, or one without capacity left. */
    method AddToRoute(id: BundleId, size: nat, priority: Priority, route: seq<ContactId>) returns (aborted: bool)
      requires Valid() && id !in routed && Distinct(route) && forall c <- route :: c in loads
      modifies this
      ensures aborted <==> route == [] || exists c :: c in route && old(loads)[c].left0 <= 0
      ensures !aborted ==> Valid() && routed == old(routed)[id := Routed(size, priority, route)]
      ensures !aborted ==> loads == EnterAll(old(loads), route, id, Routed(size, priority, route))
      ensures !aborted ==> Queued(old(loads), loads, route, id)
    {
      if route == [] { return true; }
      var rb := Routed(size, priority, route);
      QueuedLast(loads, route, id, rb);
      RouteOk(loads, routed, id, rb);
      aborted := AddToContacts(id, rb);
      if !aborted { routed := routed[id := rb]; }
    }

    method AddToContacts(id: BundleId, rb: Routed) returns (aborted: bool)
      requires Distinct(rb.contacts) && forall c <- rb.contacts :: c in loads
      modifies this`loads
      ensures aborted <==> exists c :: c in rb.contacts && old(loads)[c].left0 <= 0
      ensures !aborted ==> loads == EnterAll(old(loads), rb.contacts, id, rb)
    {
      var route := rb.contacts;
      for i := 0 to |route|
        invariant Adding(old(loads), loads, id, rb, i)
      {
        AddingStep(old(loads), loads, id, rb, i);
        if loads[route[i]].left0 <= 0 { return true; }
        loads := loads[route[i] := Enter(loads[route[i]], id, rb)];
      }
      aborted := false;
    }

    /** router_remove_bundle_from_route, for the route the bundle is on */
    method RemoveFromRoute(id: BundleId)
      requires Valid() && id in routed
      modifies this
      ensures Valid() && routed == old(routed) - {id}
      ensures loads == LeaveAll(old(loads), old(routed)[id].contacts, id, old(routed)[id])
      ensures loads.Keys == old(loads).Keys
      ensures forall c <- loads :: loads[c].bundles == Without(old(loads)[c].bundles, id)
    {
      UnrouteOk(loads, routed, id);
      RemoveFromContacts(id, routed[id]);
      routed := routed - {id};
    }

    method RemoveFromContacts(id: BundleId, rb: Routed)
      requires forall c <- rb.contacts :: c in loads
      modifies this`loads
      ensures loads == LeaveAll(old(loads), rb.contacts, id, rb)
    {
      var route := rb.contacts;
      for i := 0 to |route|
        invariant forall c <- route[i..] :: c in loads
        invariant LeaveAll(old(loads), route, id, rb) == LeaveAll(loads, route[i..], id, rb)
      {
        assert route[i..][0] == route[i] && route[i..][1..] == route[i + 1..];
        loads := loads[route[i] := Leave(loads[route[i]], id, rb)];
      }
    }

    /**
     * reschedule_bundles: every bundle of the contact is taken off its whole route and announced, in
     * order; all other bundles stay, and the books of all contacts are right again.
     */
    method Reschedule(contact: ContactId) returns (announced: seq<BundleId>)
      requires Valid() && contact in loads
      modifies this
      ensures Valid() && announced == old(loads)[contact].bundles
      ensures Progress(old(loads), old(routed), loads, routed, announced)
      ensures contact in loads && loads[contact].bundles == []
      ensures forall k :: 0 <= k <= 2 ==> loads[contact].Left(k) == loads[contact].total
    {
      announced := [];
      ghost var l, r := loads, routed;
      while loads[contact].bundles != []
        invariant Emptying(l, r, loads, routed, contact, announced)
        decreases |loads[contact].bundles|
      {
        var id := loads[contact].bundles[0];
        EmptyingStep(l, r, loads, routed, contact, announced);
        RemoveFromRoute(id);
        announced := announced + [id];
      }
      FullAgain(loads[contact], routed);
    }
  }

  /** The bundle is on the first `i` contacts, all of which had capacity left. */
  ghost predicate Adding(loads: Loads, loads': Loads, id: BundleId, rb: Routed, i: nat) {
    var route := rb.contacts;
    && i <= |route| && (forall c <- route :: c in loads)
    && (forall c <- route[i..] :: c in loads' && loads'[c] == loads[c])
    && (forall c <- route[..i] :: loads[c].left0 > 0)
    && EnterAll(loads, route, id, rb) == EnterAll(loads', route[i..], id, rb)
  }

  lemma {:induction false} AddingStep(loads: Loads, loads': Loads, id: BundleId, rb: Routed, i: nat)
    requires Adding(loads, loads', id, rb, i) && i < |rb.contacts| && Distinct(rb.contacts)
    ensures var c := rb.contacts[i];
      && c in rb.contacts && c in loads' && loads'[c] == loads[c]
      && (loads[c].left0 > 0 ==> Adding(loads, loads'[c := Enter(loads'[c], id, rb)], id, rb, i + 1))
  {
    var route := rb.contacts;
    assert route[i..][0] == route[i] && route[i..][1..] == route[i + 1..];
    assert route[i] in route[i..] && route[..i + 1] == route[..i] + [route[i]];
    forall c | c in route[i + 1..] ensures c in route[i..] && c != route[i] {}
  }

  lemma FullAgain(l: Load, routed: Routing)
    requires LoadOk(l, routed) && l.bundles == []
    ensures forall k :: 0 <= k <= 2 ==> l.Left(k) == l.total
  {
    WrapSmall(l.total);
  }

  /** The bundles announced were the first ones of the contact. */
  ghost predicate Emptying(
      loads: Loads, routed: Routing, loads': Loads, routed': Routing, contact: ContactId, announced: seq<BundleId>)
  {
    && Ok(loads', routed') && Progress(loads, routed, loads', routed', announced)
    && contact in loads && contact in loads' && announced + loads'[contact].bundles == loads[contact].bundles
  }

  lemma {:induction false} EmptyingStep(
      loads: Loads, routed: Routing, loads': Loads, routed': Routing, contact: ContactId, announced: seq<BundleId>)
    requires Emptying(loads, routed, loads', routed', contact, announced) && loads'[contact].bundles != []
    ensures var id := loads'[contact].bundles[0];
      && id in routed'
      && var loads'' := LeaveAll(loads', routed'[id].contacts, id, routed'[id]);
      && Emptying(loads, routed, loads'', routed' - {id}, contact, announced + [id])
      && |loads''[contact].bundles| < |loads'[contact].bundles|
  {
    var list := loads'[contact].bundles;
    var id := list[0];
    assert id in list;
    assert id in routed';
    UnrouteOk(loads', routed', id);
    ProgressStep(loads, routed, loads', routed', announced, id);
    assert announced + list == (announced + [id]) + list[1..];
  }

  /** What is left after some bundles were taken off. */
  ghost predicate Progress(loads: Loads, routed: Routing, loads': Loads, routed': Routing, announced: seq<BundleId>) {
    && loads'.Keys == loads.Keys
    && (forall id :: id in routed' <==> id in routed && id !in announced)
    && (forall id <- routed' :: routed'[id] == routed[id])
    && (forall c <- loads ::
          loads'[c].bundles == WithoutAll(loads[c].bundles, announced) && loads'[c].total == loads[c].total)
  }

  lemma {:induction false} ProgressStep(loads: Loads, routed: Routing, loads': Loads, routed': Routing,
      announced: seq<BundleId>,
      id: BundleId)
    requires Progress(loads, routed, loads', routed', announced) && Ok(loads', routed') && id in routed'
    ensures Progress(loads, routed, LeaveAll(loads', routed'[id].contacts, id, routed'[id]), routed' - {id},
            announced + [id])
  {
    UnrouteOk(loads', routed', id);
    forall c | c in loads ensures WithoutAll(loads[c].bundles, announced + [id]) == Without(loads'[c].bundles, id) {
      WithoutAllAppend(loads[c].bundles, announced, id);
    }
  }

  lemma RecalculateOk(loads: Loads, routed: Routing, c: ContactId, total: nat)
    requires Ok(loads, routed) && c in loads && total < HALF
    ensures Ok(loads[c := Recalculated(loads[c], total)], routed)
  {
    RecalculatedOk(loads[c], routed, total);
  }

  lemma RecalculatedOk(l: Load, routed: Routing, total: nat)
    requires LoadOk(l, routed) && total < HALF
    ensures LoadOk(Recalculated(l, total), routed)
  {
    var d, r := total - l.total, Recalculated(l, total);
    WrapSmall(d);
    forall k | 0 <= k <= 2 ensures r.Left(k) == Wrap(total - Used(l.bundles, routed, k)) {
      WrapPlus(l.total - Used(l.bundles, routed, k), d);
      assert r.Left(k) == Wrap(l.Left(k) + d);
    }
  }
}
