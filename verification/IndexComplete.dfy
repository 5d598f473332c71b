/**
 * Whether every listed contact is in the index under all its EIDs, and when adding a node again
 * (components/upcn/routing_table.c, lines 139-194 and 296-329) keeps it so.
 */
module IndexComplete {
  import opened Contacts
  import opened EidIndex
  import opened RoutingTable

  /** Every listed contact is in the index under all its EIDs. */
  ghost predicate Complete(t: Tables, nodes: Nodes, own: OwnEndpoints) {
    forall c, eid :: c in t.list && c.node in nodes && eid in Eids(nodes, own, c) ==> In(t.index, eid, c)
  }

  /** Every listed contact lasts some time. */
  ghost predicate Lasting(list: seq<Contact>) { forall c <- list :: c.from < c.to }

  ghost predicate AllKnown(nodes: Nodes, contacts: seq<Contact>)
    ensures AllKnown(nodes, contacts) ==> forall c <- contacts :: c.node in nodes
  {
    forall c <- contacts :: Known(nodes, c)
  }

  // ---- adding contacts to the tables ----

  lemma AdmitGrows(t: Tables, nodes: Nodes, own: OwnEndpoints, x: Contact, max: nat)
    requires TablesOk(t, nodes, own) && Known(nodes, x)
    ensures var r := Admit(t, Eids(nodes, own, x), x, max);
      && (forall c :: c in t.list ==> c in r.list)
      && (forall c :: c in r.list ==> c in t.list || c == x)
      && (forall eid, c :: In(t.index, eid, c) ==> In(r.index, eid, c))
      && (forall eid, c :: c != x ==> (In(r.index, eid, c) <==> In(t.index, eid, c)))
      && (x in r.list && x !in t.list ==> forall eid <- Eids(nodes, own, x) :: In(r.index, eid, x))
  {
    AddToAllOk(t.index, Eids(nodes, own, x), x);
    InsertKeeps(ByFrom, t.list, x);
  }

  /** For a listed contact nothing changes in the index, whatever is added. */
  lemma {:induction false} ListedStays(t: Tables, nodes: Nodes, own: OwnEndpoints, contacts: seq<Contact>, max: nat,
      c: Contact, eid: string)
    requires TablesOk(t, nodes, own) && AllKnown(nodes, contacts) && c in t.list && c.from < c.to
    ensures c in AdmitAll(t, nodes, own, contacts, max).list
    ensures In(AdmitAll(t, nodes, own, contacts, max).index, eid, c) <==> In(t.index, eid, c)
    decreases |contacts|
  {
    if contacts != [] {
      var x := contacts[0];
      AdmitOk(t, nodes, own, x, max);
      AdmitGrows(t, nodes, own, x, max);
      ListedIsRefused(t.list, c);
      ListedStays(Admit(t, Eids(nodes, own, x), x, max), nodes, own, contacts[1..], max, c, eid);
    }
  }

  lemma {:induction false} IndexGrows(t: Tables, nodes: Nodes, own: OwnEndpoints, contacts: seq<Contact>, max: nat,
      c: Contact, eid: string)
    requires TablesOk(t, nodes, own) && AllKnown(nodes, contacts) && In(t.index, eid, c)
    ensures In(AdmitAll(t, nodes, own, contacts, max).index, eid, c)
    decreases |contacts|
  {
    if contacts != [] {
      var x := contacts[0];
      AdmitOk(t, nodes, own, x, max);
      AdmitGrows(t, nodes, own, x, max);
      IndexGrows(Admit(t, Eids(nodes, own, x), x, max), nodes, own, contacts[1..], max, c, eid);
    }
  }

  /** A new contact that gets into the list gets into the index under all its EIDs. */
  lemma {:induction false} NewIsIndexed(t: Tables, nodes: Nodes, own: OwnEndpoints, contacts: seq<Contact>, max: nat,
      c: Contact, eid: string)
    requires TablesOk(t, nodes, own) && AllKnown(nodes, contacts) && c !in t.list && c.node in nodes
    requires c in AdmitAll(t, nodes, own, contacts, max).list
    requires eid == c.node || eid in nodes[c.node].endpoints || (c in own && eid in own[c])
    ensures In(AdmitAll(t, nodes, own, contacts, max).index, eid, c)
    decreases |contacts|
  {
    EidsExactly(nodes, own, c, eid);
    var x := contacts[0];
    var next := Admit(t, Eids(nodes, own, x), x, max);
    AdmitOk(t, nodes, own, x, max);
    AdmitGrows(t, nodes, own, x, max);
    if c in next.list {
      IndexGrows(next, nodes, own, contacts[1..], max, c, eid);
    } else {
      NewIsIndexed(next, nodes, own, contacts[1..], max, c, eid);
    }
  }

  /** Adding contacts makes an index complete just when it was. */
  lemma {:induction false} AdmitAllComplete(t: Tables, nodes: Nodes, own: OwnEndpoints, contacts: seq<Contact>,
      max: nat)
    requires TablesOk(t, nodes, own) && AllKnown(nodes, contacts) && Lasting(t.list)
    ensures Complete(AdmitAll(t, nodes, own, contacts, max), nodes, own) <==> Complete(t, nodes, own)
  {
    var r := AdmitAll(t, nodes, own, contacts, max);
    forall c, eid | c in t.list ensures c in r.list && (In(r.index, eid, c) <==> In(t.index, eid, c)) {
      ListedStays(t, nodes, own, contacts, max, c, eid);
    }
    forall c, eid | c in r.list && c !in t.list && c.node in nodes && eid in Eids(nodes, own, c)
        ensures In(r.index, eid, c) {
      NewIsIndexed(t, nodes, own, contacts, max, c, eid);
    }
  }

  /** No listed contact gets an EID that it did not have. */
  ghost predicate NoneGained(list: seq<Contact>, nodes: Nodes, own: OwnEndpoints, nodes': Nodes, own': OwnEndpoints) {
    forall c, eid :: c in list && c.node in nodes && c.node in nodes' && eid in Eids(nodes', own', c)
        ==> eid in Eids(nodes, own, c)
  }

  /** When nodes or endpoints change, a complete index stays complete just when no listed contact gains an EID. */
  lemma ChangeComplete(t: Tables, nodes: Nodes, own: OwnEndpoints, nodes': Nodes, own': OwnEndpoints)
    requires TablesOk(t, nodes, own) && Complete(t, nodes, own) && ListKnown(t.list, nodes')
    ensures Complete(t, nodes', own') <==> NoneGained(t.list, nodes, own, nodes', own')
  {
    forall c, eid | c in t.list ensures In(t.index, eid, c) <==> eid in Eids(nodes, own, c) {
      assert Known(nodes, c);
    }
    forall c | c in t.list ensures c.node in nodes' { assert Known(nodes', c); }
  }

  // ---- what a merge adds ----

  /** The first contact with its start. */
  ghost predicate Leads(a: seq<Contact>, c: Contact) {
    exists i :: 0 <= i < |a| && a[i] == c && forall k :: 0 <= k < i ==> a[k].from < c.from
  }

  /** A contact with the times of `c` names the endpoint. */
  ghost predicate NamedFor(b: seq<Contact>, own: OwnEndpoints, c: Contact, eid: string) {
    exists j :: 0 <= j < |b| && b[j].from == c.from && b[j].to == c.to && eid in Own(own, b[j])
  }

  lemma LeadsLater(a: seq<Contact>, c: Contact)
    requires a != [] && Sorted(ByFrom, a) && Distinct(a) && a[0].from < c.from
    ensures Leads(a, c) <==> Leads(a[1..], c)
  {
    if Leads(a, c) {
      var i :| 0 <= i < |a| && a[i] == c && forall k :: 0 <= k < i ==> a[k].from < c.from;
      assert a[1..][i - 1] == c;
    }
    if Leads(a[1..], c) {
      var i :| 0 <= i < |a[1..]| && a[1..][i] == c && forall k :: 0 <= k < i ==> a[1..][k].from < c.from;
      assert a[i + 1] == c;
      forall k | 0 <= k < i + 1 ensures a[k].from < c.from { if k > 0 { assert a[k] == a[1..][k - 1]; } }
    }
  }

  lemma NamedLater(b: seq<Contact>, own: OwnEndpoints, c: Contact, eid: string)
    requires b != []
    ensures NamedFor(b, own, c, eid) <==>
             (b[0].from == c.from && b[0].to == c.to && eid in Own(own, b[0])) || NamedFor(b[1..], own, c, eid)
  {
    if NamedFor(b, own, c, eid) {
      var j :| 0 <= j < |b| && b[j].from == c.from && b[j].to == c.to && eid in Own(own, b[j]);
      if j > 0 { assert b[1..][j - 1] == b[j]; }
    }
    if NamedFor(b[1..], own, c, eid) {
      var j :| 0 <= j < |b[1..]| && b[1..][j].from == c.from && b[1..][j].to == c.to && eid in Own(own, b[1..][j]);
      assert b[j + 1] == b[1..][j];
    }
  }

  /** Behind later contacts nothing is named for `c`. */
  lemma NoneNamed(b: seq<Contact>, own: OwnEndpoints, c: Contact, eid: string)
    requires b != [] && Sorted(ByFrom, b) && c.from < b[0].from
    ensures !NamedFor(b, own, c, eid)
  {
    forall j | 0 <= j < |b| ensures b[j].from > c.from { assert j > 0 ==> Key(ByFrom, b[0]) <= Key(ByFrom, b[j]); }
  }

  lemma NamedSame(b: seq<Contact>, own: OwnEndpoints, own': OwnEndpoints, c: Contact, eid: string)
    requires forall x <- b :: Own(own, x) == Own(own', x)
    ensures NamedFor(b, own, c, eid) <==> NamedFor(b, own', c, eid)
  {
  }

  lemma LeaderIsLater(a: seq<Contact>, c: Contact)
    requires a != [] && Sorted(ByFrom, a) && Leads(a, c)
    ensures c.from >= a[0].from && (c != a[0] ==> c.from > a[0].from)
  {
  }

  /**
   * What the merge of contact lists adds to the endpoints of a contact: those named for its times, if it is
   * the first with its start.
   */
  lemma {:induction false} MergeOwnExact(own: OwnEndpoints, a: seq<Contact>, b: seq<Contact>, c: Contact, eid: string)
    requires Sorted(ByFrom, a) && Distinct(a) && Sorted(ByFrom, b) && Disjoint(a, b)
    ensures eid in Own(MergeOwn(own, a, b), c) <==> eid in Own(own, c) || (Leads(a, c) && NamedFor(b, own, c, eid))
    decreases |a| + |b|
  {
    if a != [] && b != [] {
      assert a[0] in a && (forall x <- a[1..] :: x in a) && forall x <- b[1..] :: x in b;
      if b[0].from < a[0].from {
        MergeOwnExact(own, a, b[1..], c, eid);
        NamedLater(b, own, c, eid);
        if Leads(a, c) { LeaderIsLater(a, c); }
      } else if b[0].from == a[0].from {
        MergeSame(own, a, b, c, eid);
        MergeOwnExact(Joined(own, a[0], b[0]), a, b[1..], c, eid);
      } else {
        MergeOwnExact(own, a[1..], b, c, eid);
        if c.from > a[0].from { LeadsLater(a, c); } else { NoneNamed(b, own, c, eid); }
      }
    }
  }

  function Joined(own: OwnEndpoints, x: Contact, y: Contact): OwnEndpoints {
    if y.to == x.to then own[x := EndpointUnion(Own(own, x), Own(own, y))] else own
  }

  /** One contact is left out and its endpoints go to the first listed one. */
  lemma MergeSame(own: OwnEndpoints, a: seq<Contact>, b: seq<Contact>, c: Contact, eid: string)
    requires a != [] && b != [] && Sorted(ByFrom, a) && Disjoint(a, b) && b[0].from == a[0].from
    ensures eid in Own(own, c) || (Leads(a, c) && NamedFor(b, own, c, eid)) <==>
            var own' := Joined(own, a[0], b[0]); eid in Own(own', c) || (Leads(a, c) && NamedFor(b[1..], own', c, eid))
  {
    var own' := Joined(own, a[0], b[0]);
    assert a[0] in a && forall x <- b[1..] :: x in b;
    UnionMembers(Own(own, a[0]), Own(own, b[0]));
    NamedLater(b, own, c, eid);
    NamedSame(b[1..], own, own', c, eid);
    if c == a[0] { assert Leads(a, c); } else if Leads(a, c) { LeaderIsLater(a, c); }
  }

  // ---- adding a node ----

  /** The node as it is after its endpoints and contacts have joined the old ones. */
  function Extended(was: Node, node: Node): Node {
    Node(EndpointUnion(was.endpoints, node.endpoints), Merge(was.contacts, node.contacts))
  }

  /** The endpoint is added to the contact: as one of its node, or as one named for a contact with its times. */
  ghost predicate Added(nodes: Nodes, own: OwnEndpoints, n: string, node: Node, named: OwnEndpoints, c: Contact,
      eid: string)
    requires n in nodes
  {
    c.node == n && (eid in node.endpoints || (Leads(nodes[n].contacts, c)
        && NamedFor(node.contacts, own + named, c, eid)))
  }

  /** Nothing that is added is new to a listed contact. */
  ghost predicate NothingNew(list: seq<Contact>, nodes: Nodes, own: OwnEndpoints, n: string, node: Node,
      named: OwnEndpoints)
    requires n in nodes
  {
    forall c, eid :: c in list && Added(nodes, own, n, node, named, c, eid) ==> eid in Eids(nodes, own, c)
  }

  lemma GainedByMerge(list: seq<Contact>, nodes: Nodes, own: OwnEndpoints, n: string, node: Node, named: OwnEndpoints)
    requires n in nodes && NodeOk(n, nodes[n]) && NodeOk(n, node) && ListKnown(list, nodes)
    requires (forall c <- node.contacts :: !Known(nodes, c)) && forall c <- named :: c in node.contacts
    ensures var nodes' := nodes[n := Extended(nodes[n], node)];
            var own' := MergeOwn(own + named, nodes[n].contacts, node.contacts);
            NoneGained(list, nodes, own, nodes', own') <==> NothingNew(list, nodes, own, n, node, named)
  {
    var nodes' := nodes[n := Extended(nodes[n], node)];
    var own' := MergeOwn(own + named, nodes[n].contacts, node.contacts);
    forall c, eid | c in list
      ensures c.node in nodes && c.node in nodes'
      ensures eid in Eids(nodes', own', c) <==> eid in Eids(nodes, own, c) || Added(nodes, own, n, node, named, c, eid)
    {
      assert Known(nodes, c);
      EidsAfter(nodes, own, n, node, named, c, eid);
    }
    GainedIf(list, nodes, own, n, node, named, nodes', own');
  }

  lemma GainedIf(
      list: seq<Contact>, nodes: Nodes, own: OwnEndpoints, n: string, node: Node, named: OwnEndpoints, nodes': Nodes,
          own': OwnEndpoints)
    requires n in nodes && forall c <- list :: c.node in nodes && c.node in nodes'
    requires forall c, eid :: c in list ==>
               (eid in Eids(nodes', own', c) <==>
                   eid in Eids(nodes, own, c) || Added(nodes, own, n, node, named, c, eid))
    ensures NoneGained(list, nodes, own, nodes', own') <==> NothingNew(list, nodes, own, n, node, named)
  {
    if NoneGained(list, nodes, own, nodes', own') {
      forall c, eid | c in list && Added(nodes, own, n, node, named, c, eid) ensures eid in Eids(nodes, own, c) {
        assert eid in Eids(nodes', own', c);
      }
    }
    if NothingNew(list, nodes, own, n, node, named) {
      forall c, eid | c in list && eid in Eids(nodes', own', c) ensures eid in Eids(nodes, own, c) {
        assert Added(nodes, own, n, node, named, c, eid) ==> eid in Eids(nodes, own, c);
      }
    }
  }

  lemma EidsAfter(nodes: Nodes, own: OwnEndpoints, n: string, node: Node, named: OwnEndpoints, c: Contact, eid: string)
    requires n in nodes && NodeOk(n, nodes[n]) && NodeOk(n, node) && Known(nodes, c)
    requires (forall x <- node.contacts :: !Known(nodes, x)) && forall x <- named :: x in node.contacts
    ensures var nodes' := nodes[n := Extended(nodes[n], node)];
            var own' := MergeOwn(own + named, nodes[n].contacts, node.contacts);
            eid in Eids(nodes', own', c) <==> eid in Eids(nodes, own, c) || Added(nodes, own, n, node, named, c, eid)
  {
    var was := nodes[n];
    assert Disjoint(was.contacts, node.contacts);
    MergeOwnExact(own + named, was.contacts, node.contacts, c, eid);
    UnionMembers(was.endpoints, node.endpoints);
    assert Own(own + named, c) == Own(own, c);
    if Leads(was.contacts, c) { assert c in was.contacts; }
  }

  /**
   * Exactly when adding to a known node keeps the index complete: listed contacts are refused when they
   * are added again, so whatever is new to them does not get into the index.
   */
  lemma ExtendComplete(t: Tables, nodes: Nodes, own: OwnEndpoints, n: string, node: Node, named: OwnEndpoints, max: nat)
    requires TablesOk(t, nodes, own) && Complete(t, nodes, own) && Lasting(t.list)
    requires n in nodes && NodesOk(nodes) && NodeOk(n, node)
    requires (forall c <- node.contacts :: !Known(nodes, c)) && forall c <- named :: c in node.contacts
    ensures var nodes' := nodes[n := Extended(nodes[n], node)];
            var own' := MergeOwn(own + named, nodes[n].contacts, node.contacts);
      && AllKnown(nodes', nodes'[n].contacts)
      && (Complete(AdmitAll(t, nodes', own', nodes'[n].contacts, max), nodes', own')
          <==> NothingNew(t.list, nodes, own, n, node, named))
  {
    var nodes' := nodes[n := Extended(nodes[n], node)];
    var own' := MergeOwn(own + named, nodes[n].contacts, node.contacts);
    assert NodeOk(n, nodes[n]);
    ExtendOk(t, nodes, own, n, node, named);
    ExtendedKnown(nodes, n, node);
    GainedByMerge(t.list, nodes, own, n, node, named);
    ChangeComplete(t, nodes, own, nodes', own');
    AdmitAllComplete(t, nodes', own', nodes'[n].contacts, max);
  }

  lemma ExtendedKnown(nodes: Nodes, n: string, node: Node)
    requires n in nodes && NodeOk(n, nodes[n]) && NodeOk(n, node) && forall c <- node.contacts :: !Known(nodes, c)
    ensures var nodes' := nodes[n := Extended(nodes[n], node)]; AllKnown(nodes', nodes'[n].contacts)
  {
    assert Disjoint(nodes[n].contacts, node.contacts);
    MergeOk(nodes[n].contacts, node.contacts);
  }

  /** A node without listed contacts always keeps it complete. */
  lemma InstallComplete(t: Tables, nodes: Nodes, own: OwnEndpoints, n: string, node: Node, named: OwnEndpoints,
      max: nat)
    requires TablesOk(t, nodes, own) && Complete(t, nodes, own) && Lasting(t.list) && NodeOk(n, node)
    requires (forall eid, c :: In(t.index, eid, c) ==> c.node != n) && (forall c <- t.list :: c.node != n)
    requires (forall c <- node.contacts :: !Known(nodes, c)) && forall c <- named :: c in node.contacts
    ensures AllKnown(nodes[n := node], node.contacts)
    ensures Complete(AdmitAll(t, nodes[n := node], own + named, node.contacts, max), nodes[n := node], own + named)
  {
    var nodes', own' := nodes[n := node], own + named;
    DetachedOk(t, nodes, own, n, nodes', own');
    forall c, eid | c in t.list && c.node in nodes && c.node in nodes' && eid in Eids(nodes', own', c)
        ensures eid in Eids(nodes, own, c) {
      assert Known(nodes, c) && Own(own', c) == Own(own, c);
    }
    ChangeComplete(t, nodes, own, nodes', own');
    AdmitAllComplete(t, nodes', own', node.contacts, max);
  }

  /**
   * A node is added, then again with a contact of the same times that names an endpoint: the endpoint does
   * not get into the index.
   */
  method MergedEndpointMissing(n: string, eid: string, from: nat, to: nat) returns (table: Table, c: Contact)
    requires from < to && eid != n
    ensures table.Valid() && c in table.contactList && c.node in table.nodes
    ensures eid in Eids(table.nodes, table.own, c) && !In(table.index, eid, c)
  {
    table := new Table(1);
    c := Contact(0, n, from, to);
    var other := Contact(1, n, from, to);
    table.InstallNode(n, Node([], [c]), map[]);
    assert table.contactList == [c] by { AdmitFirst(table.nodes, table.own, c); }
    MergeMisses(table.Contents(), table.nodes, table.own, c, other, eid, 1);
    table.ExtendNode(n, Node([], [other]), map[other := [eid]]);
  }

  /** An endpoint named for a listed contact is one of its EIDs after the merge, but not in the index. */
  lemma MergeMisses(t: Tables, nodes: Nodes, own: OwnEndpoints, c: Contact, other: Contact, eid: string, max: nat)
    requires c.node in nodes && nodes[c.node] == Node([], [c]) && TablesOk(t, nodes, own) && c in t.list
             && c.from < c.to
    requires other == c.(id := other.id) && other != c && eid !in Eids(nodes, own, c)
    ensures var node, named := Node([], [other]), map[other := [eid]];
            var nodes' := nodes[c.node := Extended(nodes[c.node], node)];
            var own' := MergeOwn(own + named, nodes[c.node].contacts, node.contacts);
      && AllKnown(nodes', nodes'[c.node].contacts) && eid in Eids(nodes', own', c)
      && var r := AdmitAll(t, nodes', own', nodes'[c.node].contacts, max); c in r.list && !In(r.index, eid, c)
  {
    var n, node, named := c.node, Node([], [other]), map[other := [eid]];
    var nodes' := nodes[n := Extended(nodes[n], node)];
    var own' := MergeOwn(own + named, nodes[n].contacts, node.contacts);
    assert node.contacts[0] == other && nodes[n].contacts[0] == c;
    assert forall x <- node.contacts :: x == other;
    assert forall x <- nodes[n].contacts :: x == c;
    assert NodeOk(n, node) && NodeOk(n, nodes[n]) && !Known(nodes, other);
    assert Leads(nodes[n].contacts, c) && NamedFor(node.contacts, own + named, c, eid);
    EidsAfter(nodes, own, n, node, named, c, eid);
    ExtendedKnown(nodes, n, node);
    ExtendOk(t, nodes, own, n, node, named);
    ListedStays(t, nodes', own', nodes'[n].contacts, max, c, eid);
  }

  lemma {:induction false} AdmitFirst(nodes: Nodes, own: OwnEndpoints, c: Contact)
    requires c.node in nodes
    ensures AdmitAll(Tables(map[], []), nodes, own, [c], 1).list == [c]
  {
    assert [c][1..] == [];
  }
}
