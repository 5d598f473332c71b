/**
 * What merging contacts and taking them out leaves of the lists of a node (components/upcn/node.c, lines
 * 287-402), and which new contacts of a node get into the tables.
 */
module NodeChanges {
  import opened Basics
  import opened Contacts
  import opened EidIndex
  import opened RoutingTable
  import opened IndexComplete

  // ---- contact_list_union ----

  /** The merged list holds the old contacts and the new ones with a start of their own. */
  lemma {:induction false} MergeExactly(a: seq<Contact>, b: seq<Contact>, c: Contact)
    requires Sorted(ByFrom, a) && Distinct(a) && Sorted(ByFrom, b) && Distinct(b) && Disjoint(a, b)
    ensures c in Merge(a, b) <==> c in a || (c in b && forall x <- a :: x.from != c.from)
    decreases |a| + |b|
  {
    if a != [] && b != [] {
      SortedHead(ByFrom, a);
      SortedHead(ByFrom, b);
      if b[0].from < a[0].from {
        MergeExactly(a, b[1..], c);
      } else if b[0].from == a[0].from {
        MergeExactly(a, b[1..], c);
        assert a[0] in a && b[0] in b;
      } else {
        MergeExactly(a[1..], b, c);
        assert c in b ==> c.from > a[0].from;
      }
    }
  }

  // ---- contact_list_difference ----

  function SameTimes(x: Contact, y: Contact): bool { x.from == y.from && x.to == y.to }

  /** The first of the contacts named with the times of `c`. */
  function FirstNamed(b: seq<Contact>, c: Contact): Option<Contact> {
    if b == [] then None else if SameTimes(b[0], c) then Some(b[0]) else FirstNamed(b[1..], c)
  }

  lemma {:induction false} FirstNamedIs(b: seq<Contact>, c: Contact)
    ensures FirstNamed(b, c) == None <==> forall x <- b :: !SameTimes(x, c)
    ensures FirstNamed(b, c).Some? ==> FirstNamed(b, c).value in b && SameTimes(FirstNamed(b, c).value, c)
  {
    if b != [] {
      FirstNamedIs(b[1..], c);
      assert forall x :: x in b <==> x == b[0] || x in b[1..];
    }
  }

  lemma {:induction false} NoneNamedLater(b: seq<Contact>, c: Contact)
    requires Sorted(ByFrom, b) && (b != [] ==> c.from < b[0].from)
    ensures FirstNamed(b, c) == None
  {
    FirstNamedIs(b, c);
    forall x | x in b ensures !SameTimes(x, c) {
      var j :| 0 <= j < |b| && b[j] == x;
      assert j > 0 ==> Key(ByFrom, b[0]) <= Key(ByFrom, b[j]);
    }
  }

  /** A named contact without endpoints takes the contact out, one with endpoints takes these from it. */
  ghost predicate TakenOut(c: Contact, b: seq<Contact>, named: OwnEndpoints) {
    FirstNamed(b, c).Some? && Own(named, FirstNamed(b, c).value) == []
  }

  function EndpointsLeft(own: OwnEndpoints, c: Contact, b: seq<Contact>, named: OwnEndpoints): seq<string> {
    match FirstNamed(b, c)
    case None => Own(own, c)
    case Some(x) => EndpointDifference(Own(own, c), Own(named, x))
  }

  lemma TailSorted(b: seq<Contact>)
    requires b != [] && Sorted(ByFrom, b)
    ensures Sorted(ByFrom, b[1..])
  {
  }

  /** Which contacts of a node stay, and with which endpoints: for the first contact with each start. */
  lemma {:induction false} MinusExactly(own: OwnEndpoints, a: seq<Contact>, b: seq<Contact>, named: OwnEndpoints,
      c: Contact)
    requires Sorted(ByFrom, a) && Distinct(a) && Sorted(ByFrom, b) && Leads(a, c)
    ensures c in Minus(a, b, named) <==> !TakenOut(c, b, named)
    ensures Own(MinusOwn(own, a, b, named), c) == EndpointsLeft(own, c, b, named)
    decreases |a| + |b|
  {
    LeadsIn(a, c);
    if b != [] {
      SortedHead(ByFrom, a);
      TailSorted(b);
      LeaderIsLater(a, c);
      if b[0].from > a[0].from {
        LaterNamed(own, a, b, named, c);
      } else if !SameTimes(b[0], a[0]) {
        MinusExactly(own, a, b[1..], named, c);
      } else {
        MatchNamed(own, a, b, named, c);
      }
    }
  }

  lemma LeadsIn(a: seq<Contact>, c: Contact)
    requires Leads(a, c)
    ensures c in a
  {
  }

  /** The first contact is not named. */
  lemma {:induction false} LaterNamed(own: OwnEndpoints, a: seq<Contact>, b: seq<Contact>, named: OwnEndpoints,
      c: Contact)
    requires a != [] && b != [] && Sorted(ByFrom, a) && Distinct(a) && Sorted(ByFrom, b) && Leads(a, c)
    requires b[0].from > a[0].from
    ensures c in Minus(a, b, named) <==> !TakenOut(c, b, named)
    ensures Own(MinusOwn(own, a, b, named), c) == EndpointsLeft(own, c, b, named)
    decreases |a| + |b|, 0
  {
    SortedHead(ByFrom, a);
    MinusOk(a[1..], b, named);
    if c == a[0] {
      NoneNamedLater(b, c);
      MinusOwnOk(own, a[1..], b, named, c);
    } else {
      LeaderIsLater(a, c);
      LeadsLater(a, c);
      MinusExactly(own, a[1..], b, named, c);
    }
  }

  /** What naming the first contact makes of the endpoints. */
  function OwnAfter(own: OwnEndpoints, x: Contact, y: Contact, named: OwnEndpoints): OwnEndpoints {
    if Own(named, y) == [] then own else own[x := EndpointDifference(Own(own, x), Own(named, y))]
  }

  lemma {:induction false} MatchStep(own: OwnEndpoints, a: seq<Contact>, b: seq<Contact>, named: OwnEndpoints)
    requires a != [] && b != [] && SameTimes(b[0], a[0])
    ensures Minus(a, b, named) ==
            (if Own(named, b[0]) == [] then [] else [a[0]]) + Minus(a[1..], b[1..], named)
    ensures MinusOwn(own, a, b, named) == MinusOwn(OwnAfter(own, a[0], b[0], named), a[1..], b[1..], named)
  {
    assert [] + Minus(a[1..], b[1..], named) == Minus(a[1..], b[1..], named);
  }

  /** The first contact is named by the first one. */
  lemma {:induction false} MatchNamed(own: OwnEndpoints, a: seq<Contact>, b: seq<Contact>, named: OwnEndpoints,
      c: Contact)
    requires a != [] && b != [] && Sorted(ByFrom, a) && Distinct(a) && Sorted(ByFrom, b) && Leads(a, c)
    requires SameTimes(b[0], a[0])
    ensures c in Minus(a, b, named) <==> !TakenOut(c, b, named)
    ensures Own(MinusOwn(own, a, b, named), c) == EndpointsLeft(own, c, b, named)
    decreases |a| + |b|, 0
  {
    if c == a[0] {
      MatchFirst(own, a, b, named);
    } else {
      SortedHead(ByFrom, a);
      TailSorted(b);
      LeaderIsLater(a, c);
      LeadsLater(a, c);
      MinusExactly(OwnAfter(own, a[0], b[0], named), a[1..], b[1..], named, c);
      MatchLater(own, a, b, named, c);
    }
  }

  lemma {:induction false} MatchLater(own: OwnEndpoints, a: seq<Contact>, b: seq<Contact>, named: OwnEndpoints,
      c: Contact)
    requires a != [] && b != [] && SameTimes(b[0], a[0]) && c.from > a[0].from
    ensures c in Minus(a, b, named) <==> c in Minus(a[1..], b[1..], named)
    ensures MinusOwn(own, a, b, named) == MinusOwn(OwnAfter(own, a[0], b[0], named), a[1..], b[1..], named)
    ensures TakenOut(c, b, named) <==> TakenOut(c, b[1..], named)
    ensures EndpointsLeft(own, c, b, named) == EndpointsLeft(OwnAfter(own, a[0], b[0], named), c, b[1..], named)
  {
    MatchStep(own, a, b, named);
    assert Own(OwnAfter(own, a[0], b[0], named), c) == Own(own, c);
  }

  lemma {:induction false} MatchFirst(own: OwnEndpoints, a: seq<Contact>, b: seq<Contact>, named: OwnEndpoints)
    requires a != [] && b != [] && Sorted(ByFrom, a) && Distinct(a) && SameTimes(b[0], a[0])
    ensures a[0] in Minus(a, b, named) <==> !TakenOut(a[0], b, named)
    ensures Own(MinusOwn(own, a, b, named), a[0]) == EndpointsLeft(own, a[0], b, named)
  {
    SortedHead(ByFrom, a);
    MinusOk(a[1..], b[1..], named);
    MatchStep(own, a, b, named);
    MinusOwnOk(OwnAfter(own, a[0], b[0], named), a[1..], b[1..], named, a[0]);
    assert FirstNamed(b, a[0]) == Some(b[0]);
  }

  /**
   * In a list without two contacts of one start, as it comes from node_prepare_and_verify, every contact is
   * the first.
   */
  lemma AllLead(a: seq<Contact>, c: Contact)
    requires Sorted(ByFrom, a) && c in a && forall i, j :: 0 <= i < j < |a| ==> a[i].from != a[j].from
    ensures Leads(a, c)
  {
    var i :| 0 <= i < |a| && a[i] == c;
    forall k | 0 <= k < i ensures a[k].from < c.from { assert Key(ByFrom, a[k]) <= Key(ByFrom, a[i]); }
  }

  // ---- which contacts are admitted ----

  lemma {:induction false} OverlapsAfterInsert(list: seq<Contact>, x: Contact, c: Contact)
    requires x !in list
    ensures Overlapping(Insert(ByFrom, list, x), c) == Overlapping(list, c) + if Overlap(x, c) then 1 else 0
    ensures Blocked(Insert(ByFrom, list, x), c) <==> Blocked(list, c) || (x.node == c.node && Overlap(x, c))
  {
    if list != [] && Key(ByFrom, list[0]) <= Key(ByFrom, x) {
      OverlapsAfterInsert(list[1..], x, c);
      assert ([list[0]] + Insert(ByFrom, list[1..], x))[1..] == Insert(ByFrom, list[1..], x);
    } else {
      assert ([x] + list)[1..] == list;
    }
  }

  /** A contact that passes the check gets into the list, one that does not stays out. */
  lemma {:induction false} AdmittedExactly(t: Tables, nodes: Nodes, own: OwnEndpoints, contacts: seq<Contact>,
      max: nat, k: nat)
    requires TablesOk(t, nodes, own) && AllKnown(nodes, contacts) && Distinct(contacts)
    requires k < |contacts| && contacts[k] !in t.list
    ensures AllKnown(nodes, contacts[..k])
    ensures var before, c := AdmitAll(t, nodes, own, contacts[..k], max), contacts[k];
            c in AdmitAll(t, nodes, own, contacts, max).list <==>
              !Blocked(before.list, c) && Overlapping(before.list, c) % COUNTER < max
    decreases |contacts|
  {
    var x, c := contacts[0], contacts[k];
    var next := Admit(t, Eids(nodes, own, x), x, max);
    AdmitOk(t, nodes, own, x, max);
    AdmitGrows(t, nodes, own, x, max);
    assert forall y <- contacts[..k] :: y in contacts;
    assert AllKnown(nodes, contacts[1..]) && Distinct(contacts[1..]);
    if k == 0 {
      assert contacts[..0] == [] && x !in contacts[1..];
      InsertKeeps(ByFrom, t.list, x);
      AdmitAllOthers(next, nodes, own, contacts[1..], max);
    } else {
      assert contacts[1..][k - 1] == c && x != c;
      assert contacts[..k][0] == x && contacts[..k][1..] == contacts[1..][..k - 1];
      AdmittedExactly(next, nodes, own, contacts[1..], max, k - 1);
    }
  }

  /**
   * The contact overlaps no contact of its node and fewer than `max` of the list, and none of `contacts` but
   * itself.
   */
  ghost predicate Unopposed(list: seq<Contact>, contacts: seq<Contact>, c: Contact, max: nat) {
    && !Blocked(list, c) && Overlapping(list, c) < max && Overlapping(list, c) < COUNTER
    && forall x <- contacts :: x != c ==> !Overlap(x, c)
  }

  /** So an unopposed contact of a node is in the list after the node was added. */
  lemma {:induction false} UnopposedIsAdmitted(t: Tables, nodes: Nodes, own: OwnEndpoints, contacts: seq<Contact>,
      max: nat, c: Contact)
    requires TablesOk(t, nodes, own) && AllKnown(nodes, contacts) && Distinct(contacts) && c in contacts
    requires Unopposed(t.list, contacts, c, max)
    ensures c in AdmitAll(t, nodes, own, contacts, max).list
    decreases |contacts|
  {
    var x := contacts[0];
    var next := Admit(t, Eids(nodes, own, x), x, max);
    AdmitOk(t, nodes, own, x, max);
    assert AllKnown(nodes, contacts[1..]) && Distinct(contacts[1..]) && x !in contacts[1..];
    InsertKeeps(ByFrom, t.list, x);
    if x == c {
      AdmitAllOthers(next, nodes, own, contacts[1..], max);
    } else {
      if x in t.list { InsertListed(ByFrom, t.list, x); } else { OverlapsAfterInsert(t.list, x, c); }
      UnopposedIsAdmitted(next, nodes, own, contacts[1..], max, c);
    }
  }
}
