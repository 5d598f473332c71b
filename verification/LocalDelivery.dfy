/**
 * Local delivery (components/upcn/bundle_processor.c, lines 404-443 and 560-601): duplicate suppression in
 * front of reassembly. A fragment whose ADU is known is discarded, and then used all the same; from
 * there on nothing is said about the run.
 */
module LocalDelivery {
  import opened Basics
  import opened KnownBundles
  import opened Reassembly
  import opened Reassembler

  /** A bundle that is delivered at some time, whole or a fragment, and whether somebody is registered for it. */
  datatype ArrivalRecord = Arrival(f: Fragment, whole: bool, wanted: bool, now: nat)
  type Arrival = a: ArrivalRecord | a.whole ==> a.f.offset == 0 && a.f.total == |a.f.data|
    witness Arrival(Fragment(Key("", 0, 0), 0, 0, [], Terms(7, 0)), true, true, 0)

  /** bundle_get_unique_identifier */
  function Identify(f: Fragment): Identity {
    Identity(f.terms.version, f.key.source, f.key.timestamp, f.key.sequence, f.offset, |f.data|)
  }

  /** The identity of the whole ADU. */
  function AduOf(f: Fragment): Identity {
    Identity(f.terms.version, f.key.source, f.key.timestamp, f.key.sequence, 0, f.total)
  }

  /** bundle_get_expiration_time: a bundle without a timestamp counts from now. */
  function Deadline(f: Fragment, now: nat): nat {
    (if f.key.timestamp != 0 then f.key.timestamp else now) + (f.terms.lifetime + 500000) / 1000000
  }

  /** What the processor remembers, unless it has gone on with a bundle that it had freed. */
  datatype Node = Node(known: seq<Entry>, pending: map<Key, seq<Fragment>>) | Lost

  /** An ADU that is delivered, and from which fragments. */
  datatype Delivery = Delivery(adu: Identity, frags: seq<Fragment>)

  /** bundle_deliver_local */
  function DeliverLocal(s: Node, a: Arrival): (Node, Option<Delivery>) {
    if s.Lost? then (Lost, None)
    else
      var deadline := Deadline(a.f, a.now);
      var (known, list) := Record(s.known, Entry(Identify(a.f), deadline), a.now);
      if known || !a.wanted then (Node(list, s.pending), None)
      else if a.whole then (Node(list, s.pending), Some(Delivery(AduOf(a.f), [a.f])))
      else if ReassembledKnown(list, Entry(AduOf(a.f), deadline)) then (Lost, None)
      else
        var (pending, done) := Receive(s.pending, a.f);
        if done.None? then (Node(list, pending), None)
        else
          var first := done.value[0];
          (Node(AddKnown(list, Entry(AduOf(first), Deadline(first, a.now))), pending),
              Some(Delivery(AduOf(first), done.value)))
  }

  class Processor {
    const known: KnownList
    const reassembly: ReassemblyList

    ghost predicate Valid()
      reads reassembly
    {
      reassembly.Valid()
    }

    ghost function State(): Node
      reads known, reassembly
    {
      Node(known.list, Pending(reassembly.lists))
    }

    constructor ()
      ensures Valid() && State() == Node([], map[]) && fresh(known) && fresh(reassembly)
    {
      known := new KnownList();
      reassembly := new ReassemblyList();
    }

    /** bundle_deliver_local; behind `lost` no state is described. */
    method Deliver(a: Arrival) returns (adu: Option<seq<Byte>>, lost: bool)
      requires Valid()
      modifies known, reassembly
      ensures Valid()
      ensures var (next, out) := DeliverLocal(old(State()), a);
        && (lost <==> next.Lost?) && (!lost ==> next == State())
        && (adu.Some? <==> out.Some?)
        && (adu.Some? ==>
              var list := out.value.frags;
              list != [] && |adu.value| == list[0].total && Assemble(list, list[0].total, []) <= adu.value)
      ensures a.whole && a.wanted ==>
                && adu == (if AcceptedNow(old(known.list), a) then Some(a.f.data) else None)
                && !lost && reassembly.lists == old(reassembly.lists)
    {
      if a.whole { WholeExactly(State(), a); }
      var deadline := Deadline(a.f, a.now);
      var seen := known.RecordAndCheck(Entry(Identify(a.f), deadline), a.now);
      if seen || !a.wanted { return None, false; }
      if a.whole {
        WholeAssembles(a.f);
        return Some(a.f.data), false;
      }
      var reassembled := known.ReassembledIsKnown(Entry(AduOf(a.f), deadline));
      if reassembled { return None, true; }
      var first;
      adu, first := reassembly.Attempt(a.f);
      if adu.Some? { known.AddReassembled(Entry(AduOf(first), Deadline(first, a.now))); }
      lost := false;
    }
  }

  lemma WholeAssembles(f: Fragment)
    requires f.offset == 0 && f.total == |f.data|
    ensures Assemble([f], f.total, []) == f.data
  {
    assert PiecesOf([f], f.data) by { assert f.data[0..|f.data|] == f.data; }
    AssembleSound([f], f.data, [], 0);
  }

  // ---- whole bundles ----

  /** Two bundles have one identity just when bundle_is_equal says so: they agree in all these fields. */
  lemma IdentityExactly(f: Fragment, g: Fragment)
    ensures Identify(f) == Identify(g) <==>
            f.terms.version == g.terms.version && f.key == g.key && f.offset == g.offset && |f.data| == |g.data|
    ensures AduOf(f) == AduOf(g) <==> f.terms.version == g.terms.version && f.key == g.key && f.total == g.total
  {
  }

  /** A bundle in time whose identity is not reached in the list; its lifetime is rounded to seconds. */
  ghost predicate AcceptedNow(list: seq<Entry>, a: Arrival) {
    var start := if a.f.key.timestamp != 0 then a.f.key.timestamp else a.now;
    var deadline := start + (a.f.terms.lifetime + 500000) / 1000000;
    var id := Identity(a.f.terms.version, a.f.key.source, a.f.key.timestamp, a.f.key.sequence, a.f.offset, |a.f.data|);
    a.now <= deadline && !Reachable(list, Entry(id, deadline), a.now)
  }

  /** Exactly when a whole bundle is delivered: in time and not known. What is delivered is its data. */
  lemma WholeExactly(s: Node, a: Arrival)
    requires s.Node? && a.whole
    ensures var (next, out) := DeliverLocal(s, a);
      && next.Node? && next.pending == s.pending
      && (out.Some? <==> a.wanted && AcceptedNow(s.known, a))
      && (out.Some? ==>
            && out.value.adu == Identify(a.f) && out.value.frags == [a.f]
            && Assemble(out.value.frags, a.f.total, []) == a.f.data)
      && (AcceptedNow(s.known, a) ==> Entry(Identify(a.f), Deadline(a.f, a.now)) in next.known)
  {
    var e := Entry(Identify(a.f), Deadline(a.f, a.now));
    LookupExact(s.known, e, a.now);
    LookupAdds(s.known, e, a.now);
    WholeAssembles(a.f);
  }
}
