/**
 * The index from EIDs to the contacts over which they are reachable
 * (components/upcn/routing_table.c, lines 370-415). Reference counts have 16 bits.
 */
module EidIndex {
  import opened Contacts

  const REFS := 0x1_0000

  datatype Entry = Entry(contacts: seq<Contact>, refCount: nat)
  type Index = map<string, Entry>

  ghost predicate EntryOk(e: Entry) {
    && e.contacts != [] && Sorted(ByTo, e.contacts) && Distinct(e.contacts)
    && e.refCount == |e.contacts| % REFS
  }

  ghost predicate IndexOk(index: Index) { forall eid <- index :: EntryOk(index[eid]) }

  /** The contact is listed under the EID. */
  predicate In(index: Index, eid: string, c: Contact) { eid in index && c in index[eid].contacts }

  /** add_contact_to_node_in_htab */
  function AddTo(index: Index, eid: string, c: Contact): Index {
    var e := if eid in index then index[eid] else Entry([], 0);
    var list := Insert(ByTo, e.contacts, c);
    index[eid := Entry(list, if |list| > |e.contacts| then (e.refCount + 1) % REFS else e.refCount)]
  }

  /** remove_contact_from_node_in_htab: an entry whose count gets zero is dropped */
  function RemoveFrom(index: Index, eid: string, c: Contact): Index {
    if !In(index, eid, c) then index
    else
      var e := index[eid];
      var refs := (e.refCount - 1) % REFS;
      if refs == 0 then index - {eid} else index[eid := Entry(Remove(e.contacts, c), refs)]
  }

  function AddToAll(index: Index, eids: seq<string>, c: Contact): Index
    decreases |eids|
  {
    if eids == [] then index else AddToAll(AddTo(index, eids[0], c), eids[1..], c)
  }

  function RemoveFromAll(index: Index, eids: seq<string>, c: Contact): Index
    decreases |eids|
  {
    if eids == [] then index else RemoveFromAll(RemoveFrom(index, eids[0], c), eids[1..], c)
  }

  lemma AddToOk(index: Index, eid: string, c: Contact)
    requires IndexOk(index)
    ensures IndexOk(AddTo(index, eid, c))
    ensures forall e, x :: In(AddTo(index, eid, c), e, x) <==> In(index, e, x) || (e == eid && x == c)
  {
    var e := if eid in index then index[eid] else Entry([], 0);
    InsertKeeps(ByTo, e.contacts, c);
  }

  /** How many entries have room in their count. */
  ghost predicate Counts(index: Index, eid: string) { eid in index ==> |index[eid].contacts| <= REFS }

  lemma RemoveFromOk(index: Index, eid: string, c: Contact)
    requires IndexOk(index)
    ensures IndexOk(RemoveFrom(index, eid, c))
    ensures !In(RemoveFrom(index, eid, c), eid, c)
    ensures forall e, x :: In(RemoveFrom(index, eid, c), e, x) ==> In(index, e, x)
    ensures forall e, x ::
              In(index, e, x) && (e != eid || (x != c && Counts(index, eid))) ==> In(RemoveFrom(index, eid, c), e, x)
  {
    if In(index, eid, c) {
      RemoveKeeps(ByTo, index[eid].contacts, c);
      var n := |index[eid].contacts|;
      assert (n % REFS - 1) % REFS == (n - 1) % REFS;
      if n == 1 {
        forall x | x in index[eid].contacts ensures x == c { OnlyOne(index[eid].contacts, c, x); }
      }
    }
  }

  lemma OnlyOne(list: seq<Contact>, c: Contact, x: Contact)
    requires |list| == 1 && c in list && x in list
    ensures x == c
  {
  }

  lemma {:induction false} AddToAllOk(index: Index, eids: seq<string>, c: Contact)
    requires IndexOk(index)
    ensures IndexOk(AddToAll(index, eids, c))
    ensures forall e, x :: In(AddToAll(index, eids, c), e, x) <==> In(index, e, x) || (e in eids && x == c)
    decreases |eids|
  {
    if eids != [] {
      AddToOk(index, eids[0], c);
      AddToAllOk(AddTo(index, eids[0], c), eids[1..], c);
      assert forall e :: e in eids <==> e == eids[0] || e in eids[1..];
    }
  }

  /** No entry holds more contacts than its count can say. */
  ghost predicate Exact(index: Index) { forall eid <- index :: |index[eid].contacts| <= REFS }

  lemma RemoveExact(index: Index, eid: string, c: Contact)
    requires IndexOk(index) && Exact(index)
    ensures Exact(RemoveFrom(index, eid, c))
  {
    if In(index, eid, c) { RemoveKeeps(ByTo, index[eid].contacts, c); }
  }

  lemma {:induction false} RemoveFromAllOk(index: Index, eids: seq<string>, c: Contact)
    requires IndexOk(index)
    ensures var r := RemoveFromAll(index, eids, c);
      && IndexOk(r)
      && (forall e, x :: In(r, e, x) ==> In(index, e, x) && !(e in eids && x == c))
      && (Exact(index) ==> Exact(r) && forall e, x :: In(index, e, x) && !(e in eids && x == c) ==> In(r, e, x))
    decreases |eids|
  {
    if eids != [] {
      RemoveFromOk(index, eids[0], c);
      if Exact(index) { RemoveExact(index, eids[0], c); }
      RemoveFromAllOk(RemoveFrom(index, eids[0], c), eids[1..], c);
      assert forall e :: e in eids <==> e == eids[0] || e in eids[1..];
    }
  }
}
