/**
 * The routing table (components/upcn/routing_table.c, lines 135-370 and 453-485): the nodes, the list of
 * all contacts and the EID index, and the operations that keep them in step.
 */
module RoutingTable {
  import opened Contacts
  import opened EidIndex

  datatype Node = Node(endpoints: seq<string>, contacts: seq<Contact>)
  type Nodes = map<string, Node>

  /** The endpoints of single contacts; a contact without an entry has none. */
  type OwnEndpoints = map<Contact, seq<string>>

  function Own(own: OwnEndpoints, c: Contact): seq<string> { if c in own then own[c] else [] }

  /** Under which EIDs a contact is entered, in this order. */
  function Eids(nodes: Nodes, own: OwnEndpoints, c: Contact): seq<string>
    requires c.node in nodes
  {
    [c.node] + nodes[c.node].endpoints + Own(own, c)
  }

  lemma EidsExactly(nodes: Nodes, own: OwnEndpoints, c: Contact, eid: string)
    requires c.node in nodes
    ensures eid in Eids(nodes, own, c) <==>
              (eid == c.node || eid in nodes[c.node].endpoints || (c in own && eid in own[c]))
  {
  }

  datatype Tables = Tables(index: Index, list: seq<Contact>)

  /** The body of the loop in add_node_to_tables. */
  function Admit(t: Tables, eids: seq<string>, c: Contact, max: nat): Tables {
    if Blocked(t.list, c) || Overlapping(t.list, c) % COUNTER >= max then t
    else Tables(AddToAll(t.index, eids, c), Insert(ByFrom, t.list, c))
  }

  function AdmitAll(t: Tables, nodes: Nodes, own: OwnEndpoints, contacts: seq<Contact>, max: nat): Tables
    requires forall c <- contacts :: c.node in nodes
    decreases |contacts|
  {
    if contacts == [] then t
    else AdmitAll(Admit(t, Eids(nodes, own, contacts[0]), contacts[0], max), nodes, own, contacts[1..], max)
  }

  function DropAll(t: Tables, nodes: Nodes, own: OwnEndpoints, contacts: seq<Contact>): Tables
    requires forall c <- contacts :: c.node in nodes
    decreases |contacts|
  {
    if contacts == [] then t
    else DropAll(Tables(RemoveFromAll(t.index, Eids(nodes, own, contacts[0]), contacts[0]),
        Remove(t.list, contacts[0])),
                 nodes, own, contacts[1..])
  }

  // ---- what holds between the operations ----

  ghost predicate NodesOk(nodes: Nodes) {
    forall n <- nodes :: NodeOk(n, nodes[n])
  }

  /** Its contacts name the node and are ordered by start, as contact_list_union asserts. */
  ghost predicate NodeOk(n: string, node: Node) {
    (forall c <- node.contacts :: c.node == n) && Sorted(ByFrom, node.contacts) && Distinct(node.contacts)
  }

  /** The contact belongs to a node of the table. */
  ghost predicate Known(nodes: Nodes, c: Contact) { c.node in nodes && c in nodes[c.node].contacts }

  ghost predicate Sound(index: Index, nodes: Nodes, own: OwnEndpoints) {
    forall eid, c :: In(index, eid, c) ==> Known(nodes, c) && eid in Eids(nodes, own, c)
  }

  ghost predicate ListKnown(list: seq<Contact>, nodes: Nodes) { forall c <- list :: Known(nodes, c) }

  ghost predicate TablesOk(t: Tables, nodes: Nodes, own: OwnEndpoints) {
    IndexOk(t.index) && Sound(t.index, nodes, own) && Good(t.list) && ListKnown(t.list, nodes)
  }

  lemma AdmitOk(t: Tables, nodes: Nodes, own: OwnEndpoints, c: Contact, max: nat)
    requires TablesOk(t, nodes, own) && Known(nodes, c)
    ensures TablesOk(Admit(t, Eids(nodes, own, c), c, max), nodes, own)
    ensures Limited(t.list, max) ==> (Limited(Admit(t, Eids(nodes, own, c), c, max).list, max)
            <==> !Overfills(t.list, c, max))
  {
    if !(Blocked(t.list, c) || Overlapping(t.list, c) % COUNTER >= max) {
      AddToAllOk(t.index, Eids(nodes, own, c), c);
      AdmitKeeps(t.list, c, max);
      InsertKeeps(ByFrom, t.list, c);
    }
  }

  lemma {:induction false} DropAllOk(t: Tables, nodes: Nodes, own: OwnEndpoints, contacts: seq<Contact>, max: nat)
    requires TablesOk(t, nodes, own) && forall c <- contacts :: c.node in nodes
    ensures var r := DropAll(t, nodes, own, contacts);
      && TablesOk(r, nodes, own) && (Limited(t.list, max) ==> Limited(r.list, max))
      && (forall eid, c :: In(r.index, eid, c) ==> In(t.index, eid, c) && c !in contacts)
      && (forall c :: c in r.list <==> c in t.list && c !in contacts)
      && (Exact(t.index) ==> Exact(r.index) && forall eid, c ::
                                                 In(t.index, eid, c) && c !in contacts ==> In(r.index, eid, c))
    decreases |contacts|
  {
    if contacts != [] {
      var c := contacts[0];
      DropOk(t, nodes, own, c, max);
      var t' := Tables(RemoveFromAll(t.index, Eids(nodes, own, c), c), Remove(t.list, c));
      DropAllOk(t', nodes, own, contacts[1..], max);
      assert forall x :: x in contacts <==> x == c || x in contacts[1..];
    }
  }

  /** Taking a contact out under its own EIDs takes it out everywhere. */
  lemma {:induction false} DropOk(t: Tables, nodes: Nodes, own: OwnEndpoints, c: Contact, max: nat)
    requires TablesOk(t, nodes, own) && c.node in nodes
    ensures var r := Tables(RemoveFromAll(t.index, Eids(nodes, own, c), c), Remove(t.list, c));
      && TablesOk(r, nodes, own) && (Limited(t.list, max) ==> Limited(r.list, max))
      && (forall eid, x :: In(r.index, eid, x) ==> In(t.index, eid, x) && x != c)
      && (forall x :: x in r.list <==> x in t.list && x != c)
      && (Exact(t.index) ==> Exact(r.index) && forall eid, x :: In(t.index, eid, x) && x != c ==> In(r.index, eid, x))
  {
    RemoveFromAllOk(t.index, Eids(nodes, own, c), c);
    DropKeeps(t.list, c, max);
    RemoveKeeps(ByFrom, t.list, c);
  }

  /** Adding contacts changes nothing for others. */
  lemma {:induction false} AdmitAllOthers(t: Tables, nodes: Nodes, own: OwnEndpoints, contacts: seq<Contact>, max: nat)
    requires TablesOk(t, nodes, own) && forall c <- contacts :: c.node in nodes && Known(nodes, c)
    ensures var r := AdmitAll(t, nodes, own, contacts, max);
      && (forall c :: c !in contacts ==> (c in r.list <==> c in t.list))
      && (forall eid, c :: c !in contacts ==> (In(r.index, eid, c) <==> In(t.index, eid, c)))
    decreases |contacts|
  {
    if contacts != [] {
      var x := contacts[0];
      AdmitOk(t, nodes, own, x, max);
      AddToAllOk(t.index, Eids(nodes, own, x), x);
      InsertKeeps(ByFrom, t.list, x);
      AdmitAllOthers(Admit(t, Eids(nodes, own, x), x, max), nodes, own, contacts[1..], max);
      assert forall c :: c in contacts <==> c == x || c in contacts[1..];
    }
  }

  /** A new contact passes the check and goes beyond the limit, which takes 256 overlaps. */
  ghost predicate Overfills(list: seq<Contact>, c: Contact, max: nat) {
    c !in list && !Blocked(list, c) && Overlapping(list, c) % COUNTER < max && !HasRoom(list, c, max)
  }

  /** Some of the contacts go beyond the limit. */
  ghost predicate OverfillAll(t: Tables, nodes: Nodes, own: OwnEndpoints, contacts: seq<Contact>, max: nat)
    requires forall c <- contacts :: c.node in nodes
    decreases |contacts|
  {
    contacts != [] &&
    (Overfills(t.list, contacts[0], max) ||
     OverfillAll(Admit(t, Eids(nodes, own, contacts[0]), contacts[0], max), nodes, own, contacts[1..], max))
  }

  // ---- endpoint lists and the contact lists of nodes (components/upcn/node.c, lines 117-403) ----

  function AddEid(list: seq<string>, eid: string): seq<string> { if eid in list then list else list + [eid] }

  function EndpointUnion(a: seq<string>, b: seq<string>): seq<string>
    decreases |b|
  {
    if b == [] then a else EndpointUnion(AddEid(a, b[0]), b[1..])
  }

  function RemoveEid(list: seq<string>, eid: string): seq<string> {
    if list == [] then [] else if list[0] == eid then list[1..] else [list[0]] + RemoveEid(list[1..], eid)
  }

  function EndpointDifference(a: seq<string>, b: seq<string>): seq<string>
    decreases |b|
  {
    if b == [] then a else EndpointDifference(RemoveEid(a, b[0]), b[1..])
  }

  lemma {:induction false} UnionMembers(a: seq<string>, b: seq<string>)
    ensures forall e :: e in EndpointUnion(a, b) <==> e in a || e in b
    decreases |b|
  {
    if b != [] {
      UnionMembers(AddEid(a, b[0]), b[1..]);
      assert forall e :: e in b <==> e == b[0] || e in b[1..];
    }
  }

  ghost predicate NoRepeats(list: seq<string>) { forall i, j :: 0 <= i < j < |list| ==> list[i] != list[j] }

  lemma {:induction false} UnionNoRepeats(a: seq<string>, b: seq<string>)
    requires NoRepeats(a)
    ensures NoRepeats(EndpointUnion(a, b)) && a <= EndpointUnion(a, b)
    decreases |b|
  {
    if b != [] {
      assert NoRepeats(AddEid(a, b[0])) && a <= AddEid(a, b[0]);
      UnionNoRepeats(AddEid(a, b[0]), b[1..]);
    }
  }

  /** The entries of `a` that are not in `b`, in order. */
  ghost function Others(a: seq<string>, b: seq<string>): seq<string> {
    if a == [] then [] else if a[0] in b then Others(a[1..], b) else [a[0]] + Others(a[1..], b)
  }

  lemma {:induction false} OthersMembers(a: seq<string>, b: seq<string>)
    ensures forall e :: e in Others(a, b) <==> e in a && e !in b
    ensures NoRepeats(a) ==> NoRepeats(Others(a, b))
  {
    if a != [] {
      OthersMembers(a[1..], b);
      assert forall e :: e in a <==> e == a[0] || e in a[1..];
      assert NoRepeats(a) ==> NoRepeats(a[1..]) && a[0] !in a[1..];
    }
  }

  lemma {:induction false} RemoveEidOnce(a: seq<string>, e: string)
    requires NoRepeats(a)
    ensures RemoveEid(a, e) == Others(a, [e])
  {
    if a != [] {
      assert NoRepeats(a[1..]) && a[0] !in a[1..];
      RemoveEidOnce(a[1..], e);
      if a[0] == e { OthersAll(a[1..], [e]); }
    }
  }

  lemma {:induction false} OthersAll(a: seq<string>, b: seq<string>)
    requires forall e <- a :: e !in b
    ensures Others(a, b) == a
  {
    if a != [] {
      assert a[0] in a && forall e <- a[1..] :: e in a;
      OthersAll(a[1..], b);
    }
  }

  lemma {:induction false} OthersTwice(a: seq<string>, e: string, b: seq<string>)
    ensures Others(Others(a, [e]), b) == Others(a, [e] + b)
  {
    if a != [] {
      OthersTwice(a[1..], e, b);
      assert a[0] != e ==> ([a[0]] + Others(a[1..], [e]))[1..] == Others(a[1..], [e]);
    }
  }

  /** endpoint_list_difference leaves just the entries that are not named, in order. */
  lemma {:induction false} DifferenceExactly(a: seq<string>, b: seq<string>)
    requires NoRepeats(a)
    ensures EndpointDifference(a, b) == Others(a, b)
    ensures forall e :: e in EndpointDifference(a, b) <==> e in a && e !in b
    decreases |b|
  {
    OthersMembers(a, b);
    if b == [] {
      OthersAll(a, []);
    } else {
      RemoveEidOnce(a, b[0]);
      OthersMembers(a, [b[0]]);
      DifferenceExactly(RemoveEid(a, b[0]), b[1..]);
      OthersTwice(a, b[0], b[1..]);
      assert [b[0]] + b[1..] == b;
    }
  }

  /** With repetitions, each naming takes one entry out. */
  lemma {:induction false} DifferenceCounts(a: seq<string>, b: seq<string>)
    ensures multiset(EndpointDifference(a, b)) == multiset(a) - multiset(b)
    decreases |b|
  {
    if b != [] {
      RemoveEidCounts(a, b[0]);
      DifferenceCounts(RemoveEid(a, b[0]), b[1..]);
      ConsCounts(b);
      MinusTwice(multiset(a), b[0], multiset(b[1..]), multiset(b));
    } else {
      NothingCounts(multiset(a), b);
    }
  }

  lemma ConsCounts(b: seq<string>)
    requires b != []
    ensures multiset(b) == multiset{b[0]} + multiset(b[1..])
  {
    assert b == [b[0]] + b[1..];
  }

  lemma NothingCounts(a: multiset<string>, b: seq<string>)
    requires b == []
    ensures a == a - multiset(b)
  {
  }

  lemma MinusTwice(a: multiset<string>, e: string, b: multiset<string>, c: multiset<string>)
    requires c == multiset{e} + b
    ensures a - multiset{e} - b == a - c
  {
  }

  lemma {:induction false} RemoveEidCounts(a: seq<string>, e: string)
    ensures multiset(RemoveEid(a, e)) == multiset(a) - multiset{e}
  {
    if a != [] {
      ConsCounts(a);
      if a[0] != e {
        RemoveEidCounts(a[1..], e);
        ConsCounts(RemoveEid(a, e));
        assert RemoveEid(a, e)[1..] == RemoveEid(a[1..], e);
      }
    }
  }

  /** contact_list_union: contacts that start when a listed one starts are left out */
  function Merge(a: seq<Contact>, b: seq<Contact>): seq<Contact>
    decreases |a| + |b|
  {
    if a == [] then b
    else if b == [] then a
    else if b[0].from < a[0].from then [b[0]] + Merge(a, b[1..])
    else if b[0].from == a[0].from then Merge(a, b[1..])
    else [a[0]] + Merge(a[1..], b)
  }

  /** The endpoints of a contact left out go to the listed one, if both end at the same time. */
  function MergeOwn(own: OwnEndpoints, a: seq<Contact>, b: seq<Contact>): OwnEndpoints
    decreases |a| + |b|
  {
    if a == [] || b == [] then own
    else if b[0].from < a[0].from then MergeOwn(own, a, b[1..])
    else if b[0].from == a[0].from then
      MergeOwn(if b[0].to == a[0].to then own[a[0] := EndpointUnion(Own(own, a[0]), Own(own, b[0]))] else own,
          a, b[1..])
    else MergeOwn(own, a[1..], b)
  }

  /** contact_list_difference: contacts named without endpoints are taken out */
  function Minus(a: seq<Contact>, b: seq<Contact>, own: OwnEndpoints): seq<Contact>
    decreases |a| + |b|
  {
    if a == [] || b == [] then a
    else if b[0].from > a[0].from then [a[0]] + Minus(a[1..], b, own)
    else if b[0].from != a[0].from || b[0].to != a[0].to then Minus(a, b[1..], own)
    else if Own(own, b[0]) == [] then Minus(a[1..], b[1..], own)
    else [a[0]] + Minus(a[1..], b[1..], own)
  }

  /** From the other contacts named, the endpoints named are taken out; `named` are those of `b`. */
  function MinusOwn(own: OwnEndpoints, a: seq<Contact>, b: seq<Contact>, named: OwnEndpoints): OwnEndpoints
    decreases |a| + |b|
  {
    if a == [] || b == [] then own
    else if b[0].from > a[0].from then MinusOwn(own, a[1..], b, named)
    else if b[0].from != a[0].from || b[0].to != a[0].to then MinusOwn(own, a, b[1..], named)
    else if Own(named, b[0]) == [] then MinusOwn(own, a[1..], b[1..], named)
    else MinusOwn(own[a[0] := EndpointDifference(Own(own, a[0]), Own(named, b[0]))], a[1..], b[1..], named)
  }

  ghost predicate Disjoint(a: seq<Contact>, b: seq<Contact>) { forall c <- a :: c !in b }

  lemma {:induction false} MergeOk(a: seq<Contact>, b: seq<Contact>)
    requires Sorted(ByFrom, a) && Distinct(a) && Sorted(ByFrom, b) && Distinct(b) && Disjoint(a, b)
    ensures Sorted(ByFrom, Merge(a, b)) && Distinct(Merge(a, b))
    ensures forall c <- Merge(a, b) :: c in a || c in b
    ensures forall c <- a :: c in Merge(a, b)
    decreases |a| + |b|
  {
    if a != [] && b != [] {
      SortedHead(ByFrom, a);
      SortedHead(ByFrom, b);
      if b[0].from < a[0].from {
        MergeOk(a, b[1..]);
        ConsKeeps(ByFrom, b[0], Merge(a, b[1..]));
      } else if b[0].from == a[0].from {
        MergeOk(a, b[1..]);
      } else {
        MergeOk(a[1..], b);
        ConsKeeps(ByFrom, a[0], Merge(a[1..], b));
      }
    }
  }

  /** Endpoints of listed contacts only get more, and only theirs change. */
  lemma {:induction false} MergeOwnOk(own: OwnEndpoints, a: seq<Contact>, b: seq<Contact>, c: Contact)
    ensures c !in a ==> Own(MergeOwn(own, a, b), c) == Own(own, c)
    ensures forall e <- Own(own, c) :: e in Own(MergeOwn(own, a, b), c)
    decreases |a| + |b|
  {
    if a != [] && b != [] {
      if b[0].from < a[0].from {
        MergeOwnOk(own, a, b[1..], c);
      } else if b[0].from == a[0].from {
        var own' := if b[0].to == a[0].to then own[a[0] := EndpointUnion(Own(own, a[0]), Own(own, b[0]))] else own;
        UnionMembers(Own(own, a[0]), Own(own, b[0]));
        assert a[0] in a;
        MergeOwnOk(own', a, b[1..], c);
      } else {
        assert forall x <- a[1..] :: x in a;
        MergeOwnOk(own, a[1..], b, c);
      }
    }
  }

  lemma {:induction false} MinusOk(a: seq<Contact>, b: seq<Contact>, own: OwnEndpoints)
    requires Sorted(ByFrom, a) && Distinct(a)
    ensures Sorted(ByFrom, Minus(a, b, own)) && Distinct(Minus(a, b, own))
    ensures forall c <- Minus(a, b, own) :: c in a
    decreases |a| + |b|
  {
    if a != [] && b != [] {
      SortedHead(ByFrom, a);
      if b[0].from > a[0].from {
        MinusOk(a[1..], b, own);
        ConsKeeps(ByFrom, a[0], Minus(a[1..], b, own));
      } else if b[0].from != a[0].from || b[0].to != a[0].to {
        MinusOk(a, b[1..], own);
      } else {
        MinusOk(a[1..], b[1..], own);
        ConsKeeps(ByFrom, a[0], Minus(a[1..], b[1..], own));
      }
    }
  }

  lemma {:induction false} MinusOwnOk(own: OwnEndpoints, a: seq<Contact>, b: seq<Contact>, named: OwnEndpoints,
      c: Contact)
    requires c !in a
    ensures Own(MinusOwn(own, a, b, named), c) == Own(own, c)
    decreases |a| + |b|
  {
    if a != [] && b != [] {
      assert a[0] in a && forall x <- a[1..] :: x in a;
      if b[0].from > a[0].from {
        MinusOwnOk(own, a[1..], b, named, c);
      } else if b[0].from != a[0].from || b[0].to != a[0].to {
        MinusOwnOk(own, a, b[1..], named, c);
      } else if Own(named, b[0]) == [] {
        MinusOwnOk(own, a[1..], b[1..], named, c);
      } else {
        MinusOwnOk(own[a[0] := EndpointDifference(Own(own, a[0]), Own(named, b[0]))], a[1..], b[1..], named, c);
      }
    }
  }

  // ---- changes of the nodes under the tables ----

  /** Nodes and endpoints that only grew. */
  lemma GrowOk(t: Tables, nodes: Nodes, own: OwnEndpoints, nodes': Nodes, own': OwnEndpoints)
    requires TablesOk(t, nodes, own)
    requires forall c :: Known(nodes, c) ==>
             Known(nodes', c) && forall e <- Eids(nodes, own, c) :: e in Eids(nodes', own', c)
    ensures TablesOk(t, nodes', own')
  {
  }

  /** A node none of whose contacts is in the tables can change at will. */
  lemma DetachedOk(t: Tables, nodes: Nodes, own: OwnEndpoints, n: string, nodes': Nodes, own': OwnEndpoints)
    requires TablesOk(t, nodes, own)
    requires (forall eid, c :: In(t.index, eid, c) ==> c.node != n) && (forall c <- t.list :: c.node != n)
    requires forall m :: m != n ==> (m in nodes <==> m in nodes') && (m in nodes ==> nodes[m] == nodes'[m])
    requires forall c :: Known(nodes, c) && c.node != n ==> Own(own, c) == Own(own', c)
    ensures TablesOk(t, nodes', own')
  {
    forall eid, c | In(t.index, eid, c) ensures Known(nodes', c) && eid in Eids(nodes', own', c) {
      assert Known(nodes, c) && c.node != n;
    }
    forall c | c in t.list ensures Known(nodes', c) {
      assert Known(nodes, c) && c.node != n;
    }
  }

  // ---- the operations ----

  class Table {
    const max: nat
    var nodes: Nodes
    var own: OwnEndpoints
    var contactList: seq<Contact>
    var index: Index
    /** Some contact that went beyond the limit has been admitted. */
    ghost var overfull: bool

    ghost predicate Valid()
      reads this
    {
      && max > 0 && NodesOk(nodes) && TablesOk(Tables(index, contactList), nodes, own)
      && (!overfull ==> Limited(contactList, max))
    }

    ghost function Contents(): Tables reads this { Tables(index, contactList) }

    constructor (max: nat)
      requires max > 0
      ensures Valid() && !overfull && nodes == map[] && own == map[] && Contents() == Tables(map[], [])
    {
      this.max := max;
      nodes, own, contactList, index, overfull := map[], map[], [], map[], false;
    }

    method AddToIndex(eid: string, c: Contact)
      modifies this`index
      ensures index == AddTo(old(index), eid, c)
    {
      var entry := if eid in index then index[eid] else Entry([], 0);
      var list, added := AddToOrderedList(ByTo, entry.contacts, c);
      index := index[eid := Entry(list, if added then (entry.refCount + 1) % REFS else entry.refCount)];
    }

    method RemoveFromIndex(eid: string, c: Contact)
      modifies this`index
      ensures index == RemoveFrom(old(index), eid, c)
    {
      if eid !in index { return; }
      var list, removed := RemoveFromList(index[eid].contacts, c);
      if removed {
        var refs := (index[eid].refCount - 1) % REFS;
        if refs == 0 {
          index := index - {eid};
        } else {
          index := index[eid := Entry(list, refs)];
        }
      }
    }

    method AddToIndexes(eids: seq<string>, c: Contact)
      modifies this`index
      ensures index == AddToAll(old(index), eids, c)
    {
      for i := 0 to |eids|
        invariant AddToAll(old(index), eids, c) == AddToAll(index, eids[i..], c)
      {
        assert eids[i..][0] == eids[i] && eids[i..][1..] == eids[i + 1..];
        AddToIndex(eids[i], c);
      }
    }

    method RemoveFromIndexes(eids: seq<string>, c: Contact)
      modifies this`index
      ensures index == RemoveFromAll(old(index), eids, c)
    {
      for i := 0 to |eids|
        invariant RemoveFromAll(old(index), eids, c) == RemoveFromAll(index, eids[i..], c)
      {
        assert eids[i..][0] == eids[i] && eids[i..][1..] == eids[i + 1..];
        RemoveFromIndex(eids[i], c);
      }
    }

    /** The loop body of add_node_to_tables. */
    method AdmitContact(c: Contact)
      requires Valid() && Known(nodes, c)
      modifies this`index, this`contactList, this`overfull
      ensures Valid() && Contents() == Admit(old(Contents()), Eids(nodes, own, c), c, max)
      ensures overfull == (old(overfull) || Overfills(old(contactList), c, max))
    {
      AdmitOk(Contents(), nodes, own, c, max);
      var invalid := CheckForInvalidOverlaps(contactList, c, max);
      overfull := overfull || Overfills(contactList, c, max);
      if !invalid {
        AddToIndexes(Eids(nodes, own, c), c);
        var added;
        contactList, added := AddToOrderedList(ByFrom, contactList, c);
      }
    }

    /** add_node_to_tables */
    method AddNodeToTables(n: string)
      requires Valid() && n in nodes
      modifies this`index, this`contactList, this`overfull
      ensures Valid() && Contents() == AdmitAll(old(Contents()), nodes, own, nodes[n].contacts, max)
      ensures overfull == (old(overfull) || OverfillAll(old(Contents()), nodes, own, nodes[n].contacts, max))
    {
      var contacts := nodes[n].contacts;
      assert NodeOk(n, nodes[n]);
      for i := 0 to |contacts|
        invariant Valid()
        invariant AdmitAll(old(Contents()), nodes, own, contacts, max)
                  == AdmitAll(Contents(), nodes, own, contacts[i..], max)
        invariant (old(overfull) || OverfillAll(old(Contents()), nodes, own, contacts, max)) ==
                  (overfull || OverfillAll(Contents(), nodes, own, contacts[i..], max))
      {
        assert contacts[i..][0] == contacts[i] && contacts[i..][1..] == contacts[i + 1..];
        AdmitContact(contacts[i]);
      }
    }

    /** remove_node_from_tables, without the bundles */
    method RemoveNodeFromTables(n: string)
      requires Valid() && n in nodes
      modifies this`index, this`contactList
      ensures Valid() && Contents() == DropAll(old(Contents()), nodes, own, nodes[n].contacts)
      ensures (forall eid, c :: In(index, eid, c) ==> c.node != n) && (forall c <- contactList :: c.node != n)
      ensures forall c: Contact :: c.node != n ==> (c in contactList <==> c in old(contactList))
      ensures Exact(old(index)) ==>
                forall eid, c: Contact :: c.node != n ==> (In(index, eid, c) <==> In(old(index), eid, c))
    {
      var contacts := nodes[n].contacts;
      assert NodeOk(n, nodes[n]);
      ghost var t := Contents();
      for i := 0 to |contacts|
        invariant DropAll(t, nodes, own, contacts) == DropAll(Contents(), nodes, own, contacts[i..])
      {
        assert contacts[i..][0] == contacts[i] && contacts[i..][1..] == contacts[i + 1..];
        RemoveFromIndexes(Eids(nodes, own, contacts[i]), contacts[i]);
        var removed;
        contactList, removed := RemoveFromList(contactList, contacts[i]);
      }
      DropAllOk(t, nodes, own, contacts, max);
    }

    /** routing_table_add_node, for a known node: its endpoints and contacts join the old ones */
    method ExtendNode(n: string, node: Node, named: OwnEndpoints)
      requires Valid() && n in nodes && NodeOk(n, node) && NewContacts(node, named)
      modifies this
      ensures Valid()
      ensures nodes == old(nodes)[n := Node(EndpointUnion(old(nodes)[n].endpoints, node.endpoints),
                                            Merge(old(nodes)[n].contacts, node.contacts))]
      ensures own == MergeOwn(old(own) + named, old(nodes)[n].contacts, node.contacts)
      ensures Contents() == AdmitAll(old(Contents()), nodes, own, nodes[n].contacts, max)
      ensures overfull == (old(overfull) || OverfillAll(old(Contents()), nodes, own, nodes[n].contacts, max))
    {
      var was := nodes[n];
      assert NodeOk(n, was);
      MergeOk(was.contacts, node.contacts);
      ExtendOk(Contents(), nodes, own, n, node, named);
      var contacts, own' := ContactListUnion(was.contacts, node.contacts, own + named);
      own := own';
      nodes := nodes[n := Node(EndpointUnion(was.endpoints, node.endpoints), contacts)];
      AddNodeToTables(n);
    }

    /** The contacts are new objects, and their endpoints come with them. */
    ghost predicate NewContacts(node: Node, named: OwnEndpoints)
      reads this
    {
      && (forall c <- node.contacts :: !Known(nodes, c))
      && (forall c <- named :: c in node.contacts)
    }

    /** add_new_node, and routing_table_replace_node once the old node is out of the tables */
    method InstallNode(n: string, node: Node, named: OwnEndpoints)
      requires Valid() && NodeOk(n, node) && NewContacts(node, named)
      requires (forall eid, c :: In(index, eid, c) ==> c.node != n) && (forall c <- contactList :: c.node != n)
      modifies this
      ensures Valid() && nodes == old(nodes)[n := node] && own == old(own) + named
      ensures Contents() == AdmitAll(old(Contents()), nodes, own, node.contacts, max)
      ensures overfull == (old(overfull) || OverfillAll(old(Contents()), nodes, own, node.contacts, max))
    {
      DetachedOk(Contents(), nodes, own, n, nodes[n := node], own + named);
      nodes, own := nodes[n := node], own + named;
      AddNodeToTables(n);
    }

    /** routing_table_add_node */
    method AddNode(n: string, node: Node, named: OwnEndpoints)
      requires Valid() && NodeOk(n, node) && NewContacts(node, named)
      modifies this
      ensures Valid() && n in nodes
      ensures Contents() == AdmitAll(old(Contents()), nodes, own, nodes[n].contacts, max)
      ensures overfull == (old(overfull) || OverfillAll(old(Contents()), nodes, own, nodes[n].contacts, max))
    {
      if n in nodes {
        ExtendNode(n, node, named);
      } else {
        InstallNode(n, node, named);
      }
    }

    /** routing_table_replace_node */
    method ReplaceNode(n: string, node: Node, named: OwnEndpoints)
      requires Valid() && NodeOk(n, node) && NewContacts(node, named)
      modifies this
      ensures Valid() && nodes == old(nodes)[n := node] && own == old(own) + named
      ensures forall eid, c :: In(index, eid, c) && c.node == n ==> c in node.contacts
      ensures Contents() == AdmitAll(
                if n in old(nodes) then DropAll(old(Contents()), old(nodes), old(own), old(nodes)[n].contacts)
                    else old(Contents()),
                nodes, own, node.contacts, max)
      ensures forall c: Contact :: c.node != n ==> (c in contactList <==> c in old(contactList))
      ensures Exact(old(index)) ==>
                forall eid, c: Contact :: c.node != n ==> (In(index, eid, c) <==> In(old(index), eid, c))
    {
      if n in nodes {
        RemoveNodeFromTables(n);
      }
      ghost var t := Contents();
      InstallNode(n, node, named);
      AdmitAllOthers(t, nodes, own, node.contacts, max);
    }

    /** routing_table_delete_node_by_eid, and routing_table_delete_node where nothing but the node is named */
    method DeleteNode(n: string) returns (found: bool)
      requires Valid()
      modifies this
      ensures Valid() && found == (n in old(nodes)) && nodes == old(nodes) - {n}
      ensures (forall eid, c :: In(index, eid, c) ==> c.node != n) && (forall c <- contactList :: c.node != n)
      ensures Contents() ==
                if found then DropAll(old(Contents()), old(nodes), old(own), old(nodes)[n].contacts)
                    else old(Contents())
      ensures forall c: Contact :: c.node != n ==> (c in contactList <==> c in old(contactList))
      ensures Exact(old(index)) ==>
                forall eid, c: Contact :: c.node != n ==> (In(index, eid, c) <==> In(old(index), eid, c))
    {
      found := n in nodes;
      if found {
        RemoveNodeFromTables(n);
        DetachedOk(Contents(), nodes, own, n, nodes - {n}, own);
        nodes := nodes - {n};
      }
    }

    /** routing_table_delete_node, where endpoints or contacts are named */
    method DeleteFromNode(n: string, endpoints: seq<string>, contacts: seq<Contact>, named: OwnEndpoints)
        returns (found: bool)
      requires Valid()
      modifies this
      ensures Valid() && found == (n in old(nodes))
      ensures !found ==> nodes == old(nodes) && Contents() == old(Contents())
      ensures found ==>
                && nodes == old(nodes)[n := Node(EndpointDifference(old(nodes)[n].endpoints, endpoints),
                                                 Minus(old(nodes)[n].contacts, contacts, named))]
                && own == MinusOwn(old(own), old(nodes)[n].contacts, contacts, named)
                && Contents() == AdmitAll(DropAll(old(Contents()), old(nodes), old(own), old(nodes)[n].contacts),
                                          nodes, own, nodes[n].contacts, max)
      ensures found && NoRepeats(old(nodes)[n].endpoints) ==>
                forall eid, c :: In(index, eid, c) && c.node == n && eid in endpoints ==> eid == n || eid in Own(own, c)
    {
      found := n in nodes;
      if found {
        var was := nodes[n];
        assert NodeOk(n, was);
        RemoveNodeFromTables(n);
        MinusOk(was.contacts, contacts, named);
        var rest, own' := ContactListDifference(was.contacts, contacts, own, named);
        var node := Node(EndpointDifference(was.endpoints, endpoints), rest);
        forall c: Contact | c.node != n ensures Own(own, c) == Own(own', c) {
          MinusOwnOk(own, was.contacts, contacts, named, c);
        }
        DetachedOk(Contents(), nodes, own, n, nodes[n := node], own');
        nodes, own := nodes[n := node], own';
        AddNodeToTables(n);
        if NoRepeats(was.endpoints) { DifferenceExactly(was.endpoints, endpoints); }
      }
    }

    /** routing_table_delete_contact: afterwards the contact is nowhere */
    method DeleteContact(c: Contact)
      requires Valid()
      modifies this`index, this`contactList, this`nodes, this`own
      ensures Valid() && Gone(Contents(), nodes, c)
      ensures Contents() == Without(old(Contents()), old(nodes), old(own), c)
      ensures nodes == NodesWithout(old(nodes), c) && own == old(own) - {c}
    {
      DeleteOk(Contents(), nodes, own, c, max);
      TakeOut(c);
    }

    method TakeOut(c: Contact)
      modifies this`index, this`contactList, this`nodes, this`own
      ensures Contents() == Without(old(Contents()), old(nodes), old(own), c)
      ensures nodes == NodesWithout(old(nodes), c) && own == old(own) - {c}
    {
      RemoveFromIndexes(if c.node in nodes then Eids(nodes, own, c) else Own(own, c), c);
      if c.node in nodes {
        var contacts, _ := RemoveFromList(nodes[c.node].contacts, c);
        nodes := nodes[c.node := nodes[c.node].(contacts := contacts)];
      }
      own := own - {c};
      var list, _ := RemoveFromList(contactList, c);
      contactList := list;
    }
  }

  ghost predicate Gone(t: Tables, nodes: Nodes, c: Contact) {
    !Known(nodes, c) && c !in t.list && forall eid :: !In(t.index, eid, c)
  }

  /** The tables without the contact. */
  function Without(t: Tables, nodes: Nodes, own: OwnEndpoints, c: Contact): Tables {
    var eids := if c.node in nodes then Eids(nodes, own, c) else Own(own, c);
    Tables(RemoveFromAll(t.index, eids, c), Remove(t.list, c))
  }

  /** The nodes without the contact. */
  function NodesWithout(nodes: Nodes, c: Contact): Nodes {
    if c.node in nodes then nodes[c.node := nodes[c.node].(contacts := Remove(nodes[c.node].contacts, c))] else nodes
  }

  lemma DeleteOk(t: Tables, nodes: Nodes, own: OwnEndpoints, c: Contact, max: nat)
    requires TablesOk(t, nodes, own) && NodesOk(nodes)
    ensures var t' := Without(t, nodes, own, c);
      && TablesOk(t', NodesWithout(nodes, c), own - {c}) && NodesOk(NodesWithout(nodes, c))
      && (Limited(t.list, max) ==> Limited(t'.list, max))
      && Gone(t', NodesWithout(nodes, c), c)
      && (forall eid, x :: In(t'.index, eid, x) ==> In(t.index, eid, x))
      && (Exact(t.index) ==> forall eid, x :: In(t.index, eid, x) && x != c ==> In(t'.index, eid, x))
  {
    if c.node in nodes {
      assert NodeOk(c.node, nodes[c.node]);
      RemoveKeeps(ByFrom, nodes[c.node].contacts, c);
      DropOk(t, nodes, own, c, max);
      WithoutOk(Tables(RemoveFromAll(t.index, Eids(nodes, own, c), c), Remove(t.list, c)), nodes, own, c);
    } else {
      assert c !in t.list && forall eid :: !In(t.index, eid, c);
      RemoveAbsent(t.index, Own(own, c), c);
      NotListed(t.list, c);
      UnknownOk(t, nodes, own, c);
    }
  }

  lemma {:induction false} RemoveAbsent(index: Index, eids: seq<string>, c: Contact)
    requires forall eid :: !In(index, eid, c)
    ensures RemoveFromAll(index, eids, c) == index
    decreases |eids|
  {
    if eids != [] { RemoveAbsent(index, eids[1..], c); }
  }

  lemma {:induction false} NotListed(list: seq<Contact>, c: Contact)
    requires c !in list
    ensures Remove(list, c) == list
  {
    if list != [] {
      NotListed(list[1..], c);
      assert [list[0]] + list[1..] == list;
    }
  }

  /** A contact that is in no table can leave its node. */
  lemma WithoutOk(t: Tables, nodes: Nodes, own: OwnEndpoints, c: Contact)
    requires TablesOk(t, nodes, own) && NodesOk(nodes) && c.node in nodes && (forall eid :: !In(t.index, eid, c))
             && c !in t.list
    ensures TablesOk(t, NodesWithout(nodes, c), own - {c})
  {
    var nodes', own' := NodesWithout(nodes, c), own - {c};
    assert NodeOk(c.node, nodes[c.node]);
    RemoveKeeps(ByFrom, nodes[c.node].contacts, c);
    forall eid, x | In(t.index, eid, x) ensures Known(nodes', x) && eid in Eids(nodes', own', x) {
      assert Known(nodes, x) && x != c && eid in Eids(nodes, own, x);
      assert Eids(nodes', own', x) == Eids(nodes, own, x);
    }
    forall x | x in t.list ensures Known(nodes', x) { assert Known(nodes, x); }
  }

  lemma UnknownOk(t: Tables, nodes: Nodes, own: OwnEndpoints, c: Contact)
    requires TablesOk(t, nodes, own) && c.node !in nodes
    ensures TablesOk(t, nodes, own - {c})
  {
    forall eid, x | In(t.index, eid, x) ensures Known(nodes, x) && eid in Eids(nodes, own - {c}, x) {
      assert Known(nodes, x) && x != c && eid in Eids(nodes, own, x);
    }
  }

  lemma ExtendOk(t: Tables, nodes: Nodes, own: OwnEndpoints, n: string, node: Node, named: OwnEndpoints)
    requires TablesOk(t, nodes, own) && n in nodes && NodeOk(n, nodes[n]) && NodeOk(n, node)
    requires (forall c <- node.contacts :: !Known(nodes, c)) && forall c <- named :: c in node.contacts
    ensures var nodes' := nodes[n := Node(EndpointUnion(nodes[n].endpoints, node.endpoints),
            Merge(nodes[n].contacts, node.contacts))];
            TablesOk(t, nodes', MergeOwn(own + named, nodes[n].contacts, node.contacts))
  {
    var was := nodes[n];
    var nodes' := nodes[n := Node(EndpointUnion(was.endpoints, node.endpoints), Merge(was.contacts, node.contacts))];
    var own' := MergeOwn(own + named, was.contacts, node.contacts);
    assert Disjoint(was.contacts, node.contacts);
    MergeOk(was.contacts, node.contacts);
    UnionMembers(was.endpoints, node.endpoints);
    forall c | Known(nodes, c) ensures Known(nodes', c) && forall e <- Eids(nodes, own, c) ::
        e in Eids(nodes', own', c) {
      MergeOwnOk(own + named, was.contacts, node.contacts, c);
      assert Own(own + named, c) == Own(own, c);
    }
    GrowOk(t, nodes, own, nodes', own');
  }

  lemma {:induction false} MergeAt(a: seq<Contact>, b: seq<Contact>, i: nat, j: nat, own: OwnEndpoints)
    requires i < |a| && j < |b|
    ensures Merge(a[i..], b[j..]) ==
            if b[j].from < a[i].from then [b[j]] + Merge(a[i..], b[j + 1..])
            else if b[j].from == a[i].from then Merge(a[i..], b[j + 1..])
            else [a[i]] + Merge(a[i + 1..], b[j..])
    ensures MergeOwn(own, a[i..], b[j..]) ==
            if b[j].from < a[i].from then MergeOwn(own, a[i..], b[j + 1..])
            else if b[j].from == a[i].from then
              MergeOwn(if b[j].to == a[i].to then own[a[i] := EndpointUnion(Own(own, a[i]), Own(own, b[j]))] else own,
                  a[i..], b[j + 1..])
            else MergeOwn(own, a[i + 1..], b[j..])
  {
    assert a[i..][1..] == a[i + 1..] && b[j..][1..] == b[j + 1..] && a[i..][0] == a[i] && b[j..][0] == b[j];
  }

  lemma Shift(r: seq<Contact>, c: Contact, rest: seq<Contact>)
    ensures r + ([c] + rest) == (r + [c]) + rest
  {
  }

  /** contact_list_union */
  method ContactListUnion(a: seq<Contact>, b: seq<Contact>, own: OwnEndpoints)
      returns (r: seq<Contact>, own': OwnEndpoints)
    ensures r == Merge(a, b) && own' == MergeOwn(own, a, b)
  {
    r, own' := [], own;
    var i, j := 0, 0;
    assert a[0..] == a && b[0..] == b;
    ghost var merged, mergedOwn := Merge(a, b), MergeOwn(own, a, b);
    while i < |a| && j < |b|
      invariant i <= |a| && j <= |b|
      invariant merged == r + Merge(a[i..], b[j..]) && mergedOwn == MergeOwn(own', a[i..], b[j..])
    {
      MergeAt(a, b, i, j, own');
      if b[j].from < a[i].from {
        Shift(r, b[j], Merge(a[i..], b[j + 1..]));
        r, j := r + [b[j]], j + 1;
      } else if b[j].from == a[i].from {
        if b[j].to == a[i].to {
          own' := own'[a[i] := EndpointUnion(Own(own', a[i]), Own(own', b[j]))];
        }
        j := j + 1;
      } else {
        Shift(r, a[i], Merge(a[i + 1..], b[j..]));
        r, i := r + [a[i]], i + 1;
      }
    }
    r := r + if i < |a| then a[i..] else b[j..];
  }

  lemma {:induction false} MinusAt(a: seq<Contact>, b: seq<Contact>, i: nat, j: nat, own: OwnEndpoints,
      named: OwnEndpoints)
    requires i < |a| && j < |b|
    ensures Minus(a[i..], b[j..], named) ==
            if b[j].from > a[i].from then [a[i]] + Minus(a[i + 1..], b[j..], named)
            else if b[j].from != a[i].from || b[j].to != a[i].to then Minus(a[i..], b[j + 1..], named)
            else if Own(named, b[j]) == [] then Minus(a[i + 1..], b[j + 1..], named)
            else [a[i]] + Minus(a[i + 1..], b[j + 1..], named)
    ensures MinusOwn(own, a[i..], b[j..], named) ==
            if b[j].from > a[i].from then MinusOwn(own, a[i + 1..], b[j..], named)
            else if b[j].from != a[i].from || b[j].to != a[i].to then MinusOwn(own, a[i..], b[j + 1..], named)
            else if Own(named, b[j]) == [] then MinusOwn(own, a[i + 1..], b[j + 1..], named)
            else MinusOwn(own[a[i] := EndpointDifference(Own(own, a[i]), Own(named, b[j]))], a[i + 1..],
                b[j + 1..], named)
  {
    assert a[i..][1..] == a[i + 1..] && b[j..][1..] == b[j + 1..] && a[i..][0] == a[i] && b[j..][0] == b[j];
  }

  /** contact_list_difference */
  method ContactListDifference(a: seq<Contact>, b: seq<Contact>, own: OwnEndpoints, named: OwnEndpoints)
    returns (r: seq<Contact>, own': OwnEndpoints)
    ensures r == Minus(a, b, named) && own' == MinusOwn(own, a, b, named)
  {
    r, own' := [], own;
    var i, j := 0, 0;
    assert a[0..] == a && b[0..] == b;
    ghost var rest, restOwn := Minus(a, b, named), MinusOwn(own, a, b, named);
    while i < |a| && j < |b|
      invariant i <= |a| && j <= |b|
      invariant rest == r + Minus(a[i..], b[j..], named) && restOwn == MinusOwn(own', a[i..], b[j..], named)
    {
      MinusAt(a, b, i, j, own', named);
      if b[j].from > a[i].from {
        Shift(r, a[i], Minus(a[i + 1..], b[j..], named));
        r, i := r + [a[i]], i + 1;
      } else if b[j].from != a[i].from || b[j].to != a[i].to {
        j := j + 1;
      } else if Own(named, b[j]) == [] {
        i, j := i + 1, j + 1;
      } else {
        Shift(r, a[i], Minus(a[i + 1..], b[j + 1..], named));
        own' := own'[a[i] := EndpointDifference(Own(own', a[i]), Own(named, b[j]))];
        r, i, j := r + [a[i]], i + 1, j + 1;
      }
    }
    r := r + a[i..];
  }
}
