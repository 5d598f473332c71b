/**
 * All forms of a configuration command (components/agents/config_parser.c, lines 173-400): with a reliability,
 * with sections left empty or left out at the end, and with endpoints of single contacts.
 */
module ConfigCommands {
  import opened Basics
  import opened ConfigParser
  import opened ConfigPrinter

  /** A contact and, where they are given, its endpoints. */
  datatype Visit = Visit(window: Window, endpoints: Option<seq<string>>)

  /**
   * A command with a node and its first `sections` sections: the CLA address, the endpoints and the contacts, each
   * empty or given.
   */
  datatype Order = Order(kind: char, eid: string, reliability: Option<nat>, sections: nat, claAddr: Option<string>,
      reachable: Option<seq<string>>, visits: Option<seq<Visit>>)

  // ---- the text ----

  function Bracket(parts: seq<string>): string { "[" + (Join(parts) + "]") }

  function VisitEnd(v: Visit): string {
    match v.endpoints
    case None => "}"
    case Some(eids) => "," + (Bracket(PrintEids(eids)) + "}")
  }

  function PrintVisit(v: Visit): string {
    "{" + (Decimal(v.window.start)
           + ("," + (Decimal(v.window.end) + ("," + (Decimal(v.window.bitrate) + VisitEnd(v))))))
  }

  function PrintVisits(vs: seq<Visit>): seq<string> {
    if vs == [] then [] else [PrintVisit(vs[0])] + PrintVisits(vs[1..])
  }

  function PrintReliability(o: Order): string {
    match o.reliability
    case None => ""
    case Some(v) => "," + Decimal(v)
  }

  function PrintCla(o: Order): string {
    match o.claAddr
    case None => ""
    case Some(addr) => PrintEid(addr)
  }

  function PrintReachable(o: Order): string {
    match o.reachable
    case None => ""
    case Some(eids) => Bracket(PrintEids(eids))
  }

  function PrintContacts(o: Order): string {
    match o.visits
    case None => ""
    case Some(vs) => Bracket(PrintVisits(vs))
  }

  function PrintSection(o: Order, i: nat): string {
    if i == 0 then PrintCla(o) else if i == 1 then PrintReachable(o) else PrintContacts(o)
  }

  /** What stands before section `i`, or behind the last one. */
  function Mark(o: Order, i: nat): char { if i < o.sections then ':' else ';' }

  function PrintSections(o: Order, i: nat): string
    requires i <= 3
    decreases 3 - i
  {
    if i == 3 || i >= o.sections then ""
    else PrintSection(o, i) + ([Mark(o, i + 1)] + PrintSections(o, i + 1))
  }

  function PrintOrder(o: Order): string {
    [o.kind] + (PrintEid(o.eid) + (PrintReliability(o) + ([Mark(o, 0)] + PrintSections(o, 0))))
  }

  // ---- what it says ----

  function OfVisit(v: Visit): Contact {
    Contact(v.window.start, v.window.end, v.window.bitrate, if v.endpoints.Some? then v.endpoints.value else [])
  }

  function OfVisits(vs: seq<Visit>): seq<Contact> { if vs == [] then [] else [OfVisit(vs[0])] + OfVisits(vs[1..]) }

  /** The reliability that counts, in thousandths: the lowest 16 bits of the number, 1000 without one. */
  function Kept(o: Order): nat { if o.reliability.Some? then o.reliability.value % 0x1_0000 else 1000 }

  /** Sections that are empty or left out say nothing. */
  function Meant(o: Order): Command {
    Command(o.kind, o.eid, Kept(o),
            if o.sections > 0 && o.claAddr.Some? then o.claAddr.value else "",
            if o.sections > 1 && o.reachable.Some? then o.reachable.value else [],
            if o.sections > 2 && o.visits.Some? then OfVisits(o.visits.value) else [])
  }

  ghost predicate EidTexts(eids: seq<string>) { forall i :: 0 <= i < |eids| ==> EidText(eids[i]) }

  ghost predicate VisitOk(v: Visit, now: nat) {
    WindowOk(v.window, now) && (v.endpoints.Some? ==> EidTexts(v.endpoints.value))
  }

  ghost predicate VisitsOk(vs: seq<Visit>, now: nat) { forall i :: 0 <= i < |vs| ==> VisitOk(vs[i], now) }

  /** The texts and times are such that they can be read; the reliability is any number that atoi can return. */
  ghost predicate Sayable(o: Order, now: nat) {
    && '1' <= o.kind <= '4' && EidText(o.eid) && o.sections <= 3
    && (o.reliability.Some? ==> o.reliability.value <= UINT64_MAX / 2)
    && (o.claAddr.Some? ==> ClaText(o.claAddr.value))
    && (o.reachable.Some? ==> EidTexts(o.reachable.value))
    && (o.visits.Some? ==> VisitsOk(o.visits.value, now))
  }

  // ---- the endpoints of a contact ----

  /** The parser in the middle of the contact `c`. */
  function In(p: Parser, stage: Stage, c: Contact): Parser { Reading(p, stage, c, p.digits) }

  function WithEids(c: Contact, eids: seq<string>): Contact { c.(endpoints := eids) }

  /** The delimiters around the endpoints of a contact. */
  predicate EndpointDelimits(from: Stage, c: char, to: Stage) {
    match from
    case ContactNodeListStart => c == '[' && to == ContactNodeStart
    case ContactNodeStart => c == ']' && to == ContactEnd
    case ContactNodeEid => c == ')' && to == ContactNodeSeparator
    case ContactNodeSeparator => (c == ',' && to == ContactNodeStart) || (c == ']' && to == ContactEnd)
    case ContactEnd => c == '}' && to == ContactSeparator
    case _ => false
  }

  lemma EndpointDelimiter(p: Parser, from: Stage, k: char, to: Stage, c: Contact)
    requires p.status == Good && EndpointDelimits(from, k, to)
    ensures Steps(In(p, from, c), [k], In(p, to, c))
  {
    CharSteps(In(p, from, c), k);
  }

  lemma OpenEidSteps(p: Parser, c: Contact, eids: seq<string>)
    requires p.status == Good
    ensures Steps(In(p, ContactNodeStart, WithEids(c, eids)), "(", In(p, ContactNodeEid, WithEids(c, eids + [""])))
  {
    CharSteps(In(p, ContactNodeStart, WithEids(c, eids)), '(');
    SetLastIs(p.command.contacts, WithEids(c, eids), WithEids(c, eids + [""]));
  }

  lemma ContactEidByte(p: Parser, c: Contact, eids: seq<string>, s: string, k: char)
    requires p.status == Good && EidText([k])
    ensures ReadByte(In(p, ContactNodeEid, WithEids(c, eids + [s])), k)
            == In(p, ContactNodeEid, WithEids(c, eids + [s + [k]]))
  {
    assert [k][0] == k;
    assert AppendLast(eids + [s], k) == eids + [s + [k]];
    SetLastIs(p.command.contacts, WithEids(c, eids + [s]), WithEids(c, eids + [s + [k]]));
  }

  lemma {:induction false} ContactEidRead(p: Parser, c: Contact, eids: seq<string>, s: string)
    requires p.status == Good && EidText(s)
    ensures ReadAll(In(p, ContactNodeEid, WithEids(c, eids + [""])), s)
            == In(p, ContactNodeEid, WithEids(c, eids + [s]))
  {
    if s != "" {
      var n := |s| - 1;
      ContactEidRead(p, c, eids, s[..n]);
      assert s[..n] + [s[n]] == s;
      ContactEidByte(p, c, eids, s[..n], s[n]);
    }
  }

  lemma EndpointRead(p: Parser, c: Contact, eids: seq<string>, eid: string)
    requires p.status == Good && EidText(eid)
    ensures Steps(In(p, ContactNodeStart, WithEids(c, eids)), PrintEid(eid),
                  In(p, ContactNodeSeparator, WithEids(c, eids + [eid])))
  {
    var a, b := In(p, ContactNodeStart, WithEids(c, eids)), In(p, ContactNodeEid, WithEids(c, eids + [""]));
    var d, e := In(p, ContactNodeEid, WithEids(c, eids + [eid])),
        In(p, ContactNodeSeparator, WithEids(c, eids + [eid]));
    OpenEidSteps(p, c, eids);
    ContactEidRead(p, c, eids, eid);
    StepsIf(b, eid, d);
    EndpointDelimiter(p, ContactNodeEid, ')', ContactNodeSeparator, WithEids(c, eids + [eid]));
    Then(b, eid, d, ")", e);
    Then(a, "(", b, eid + ")", e);
  }

  lemma AppendRest(done: seq<string>, eids: seq<string>)
    requires eids != []
    ensures (done + [eids[0]]) + eids[1..] == done + eids && (|eids| == 1 ==> done + [eids[0]] == done + eids)
  {
  }

  /** Two texts with a comma between them. */
  lemma {:induction false} ThenMore(p: Parser, s: string, q: Parser, r: Parser, t: string, end: Parser)
    requires Steps(p, s, q) && Steps(q, ",", r) && Steps(r, t, end)
    ensures Steps(p, s + ("," + t), end)
  {
    Then(q, ",", r, t, end);
    Then(p, s, q, "," + t, end);
  }

  lemma {:induction false} EndpointsRead(p: Parser, c: Contact, done: seq<string>, eids: seq<string>)
    requires p.status == Good && eids != [] && EidTexts(eids)
    ensures Steps(In(p, ContactNodeStart, WithEids(c, done)), Join(PrintEids(eids)),
                  In(p, ContactNodeSeparator, WithEids(c, done + eids)))
    decreases |eids|
  {
    var e, more := eids[0], eids[1..];
    EndpointRead(p, c, done, e);
    JoinEids(eids);
    AppendRest(done, eids);
    if |eids| > 1 {
      var a, b := In(p, ContactNodeStart, WithEids(c, done)), In(p, ContactNodeSeparator, WithEids(c, done + [e]));
      var r, z := In(p, ContactNodeStart, WithEids(c, done + [e])),
          In(p, ContactNodeSeparator, WithEids(c, done + eids));
      EndpointDelimiter(p, ContactNodeSeparator, ',', ContactNodeStart, WithEids(c, done + [e]));
      assert EidTexts(more);
      EndpointsRead(p, c, done + [e], more);
      ThenMore(a, PrintEid(e), b, r, Join(PrintEids(more)), z);
    }
  }

  /** The list with its brackets. */
  lemma {:induction false} EndpointListRead(p: Parser, c: Contact, eids: seq<string>)
    requires p.status == Good && EidTexts(eids)
    ensures Steps(In(p, ContactNodeListStart, WithEids(c, [])), Bracket(PrintEids(eids)),
                  In(p, ContactEnd, WithEids(c, eids)))
  {
    var a, b := In(p, ContactNodeListStart, WithEids(c, [])), In(p, ContactNodeStart, WithEids(c, []));
    var z := In(p, ContactEnd, WithEids(c, eids));
    EndpointDelimiter(p, ContactNodeListStart, '[', ContactNodeStart, WithEids(c, []));
    if eids == [] {
      EndpointDelimiter(p, ContactNodeStart, ']', ContactEnd, WithEids(c, []));
      assert Join(PrintEids(eids)) + "]" == "]";
    } else {
      var d := In(p, ContactNodeSeparator, WithEids(c, eids));
      EndpointsRead(p, c, [], eids);
      assert [] + eids == eids;
      EndpointDelimiter(p, ContactNodeSeparator, ']', ContactEnd, WithEids(c, eids));
      Then(b, Join(PrintEids(eids)), d, "]", z);
    }
    Then(a, "[", b, Join(PrintEids(eids)) + "]", z);
  }

  // ---- contacts ----

  lemma BitrateEnds(p: Parser, w: Window, k: char)
    requires p.status == Good && WindowOk(w, p.now) && (k == ',' || k == '}')
    ensures Steps(Reading(p, Bitrate, Contact(w.start, w.end, 0, []), ""), Decimal(w.bitrate) + [k],
                  Reading(p, if k == ',' then ContactNodeListStart else ContactSeparator, AsContact(w), ""))
  {
    var q := Reading(p, Bitrate, Contact(w.start, w.end, 0, []), "");
    NumberSteps(q, w.bitrate, k);
    SetLastIs(p.command.contacts, Contact(w.start, w.end, 0, []), AsContact(w));
    SmallModulo(w.bitrate, 0x1_0000_0000);
  }

  /** The bitrate and what follows it. */
  lemma {:induction false} VisitEndRead(p: Parser, v: Visit) returns (q: Parser)
    requires p.status == Good && VisitOk(v, p.now)
    ensures Steps(Reading(p, Bitrate, Contact(v.window.start, v.window.end, 0, []), ""),
                  Decimal(v.window.bitrate) + VisitEnd(v), q)
    ensures q == Reading(p, ContactSeparator, OfVisit(v), "")
  {
    var w := v.window;
    var d := Decimal(w.bitrate);
    q := Reading(p, ContactSeparator, OfVisit(v), "");
    if v.endpoints.Some? {
      var eids, p' := v.endpoints.value, p.(digits := "");
      var a := Reading(p, Bitrate, Contact(w.start, w.end, 0, []), "");
      var b, c := In(p', ContactNodeListStart, AsContact(w)), In(p', ContactEnd, OfVisit(v));
      BitrateEnds(p, w, ',');
      EndpointListRead(p', AsContact(w), eids);
      EndpointDelimiter(p', ContactEnd, '}', ContactSeparator, OfVisit(v));
      Then(b, Bracket(PrintEids(eids)), c, "}", q);
      Then(a, d + ",", b, Bracket(PrintEids(eids)) + "}", q);
      Regrouped(d, ",", Bracket(PrintEids(eids)) + "}");
    } else {
      BitrateEnds(p, w, '}');
    }
  }

  lemma Regrouped(a: string, b: string, c: string)
    ensures (a + b) + c == a + (b + c)
  {
  }

  lemma VisitRead(p: Parser, v: Visit) returns (q: Parser)
    requires p.status == Good && p.stage == ContactStart && VisitOk(v, p.now)
    ensures Steps(p, PrintVisit(v), q) && BehindContact(q, p, p.command.contacts + [OfVisit(v)])
  {
    var w := v.window;
    var a, b, c := Decimal(w.start) + ",", Decimal(w.end) + ",", Decimal(w.bitrate) + VisitEnd(v);
    var p1 := Reading(p, StartTime, Contact(0, 0, 0, []), "");
    var p2 := Reading(p, EndTime, Contact(w.start, 0, 0, []), "");
    var p3 := Reading(p, Bitrate, Contact(w.start, w.end, 0, []), "");
    CharSteps(p, '{');
    StartRead(p, w);
    EndRead(p, w);
    q := VisitEndRead(p, v);
    Then(p2, b, p3, c, q);
    Then(p1, a, p2, b + c, q);
    Then(p, "{", p1, a + (b + c), q);
    VisitGroup(Decimal(w.start), Decimal(w.end), Decimal(w.bitrate), VisitEnd(v));
  }

  lemma VisitGroup(a: string, b: string, c: string, d: string)
    ensures "{" + ((a + ",") + ((b + ",") + (c + d))) == "{" + (a + ("," + (b + ("," + (c + d)))))
  {
  }

  lemma {:induction false} JoinVisits(vs: seq<Visit>)
    requires vs != []
    ensures Join(PrintVisits(vs)) ==
            if |vs| == 1 then PrintVisit(vs[0]) else PrintVisit(vs[0]) + ("," + Join(PrintVisits(vs[1..])))
  {
    assert PrintVisits(vs)[1..] == PrintVisits(vs[1..]);
    assert |vs| > 1 ==> PrintVisits(vs[1..]) != [];
  }

  lemma {:induction false} VisitsRead(p: Parser, vs: seq<Visit>) returns (q: Parser)
    requires p.status == Good && p.stage == ContactStart && vs != [] && VisitsOk(vs, p.now)
    ensures Steps(p, Join(PrintVisits(vs)), q) && BehindContact(q, p, p.command.contacts + OfVisits(vs))
    decreases |vs|
  {
    var v, more := vs[0], vs[1..];
    q := VisitRead(p, v);
    JoinVisits(vs);
    Regroup(p.command.contacts, OfVisit(v), OfVisits(more));
    if |vs| > 1 {
      DelimiterSteps(q, ',', ContactStart);
      var r := q.(stage := ContactStart);
      var end := VisitsRead(r, more);
      ThenMore(p, PrintVisit(v), q, r, Join(PrintVisits(more)), end);
      q := end;
    }
  }

  // ---- sections ----

  /** The stage in which section `i` starts. */
  function StartOf(i: nat): Stage { if i == 0 then ClaStart else if i == 1 then NodeListStart else ContactListStart }

  /** Behind the mark before section `i`: the section starts, or the command is done. */
  ghost predicate Behind(q: Parser, o: Order, i: nat, command: Command, now: nat) {
    && q.command == command && q.now == now && (q.status == if i < o.sections then Good else Done)
    && (i < o.sections ==> q.stage == StartOf(i))
  }

  /** Where section `i` can be ended by a mark. */
  predicate CanEnd(s: Stage, i: nat) {
    if i == 0 then s == ReliabilitySeparator
    else if i == 1 then s == ClaStart || s == ClaNodesSeparator
    else if i == 2 then s == NodeListStart || s == NodesContactsSeparator
    else s == ContactListStart || s == CommandEnd
  }

  lemma MarkSteps(p: Parser, o: Order, i: nat) returns (q: Parser)
    requires p.status == Good && CanEnd(p.stage, i) && i <= 3 && o.sections <= 3
    ensures Steps(p, [Mark(o, i)], q) && Behind(q, o, i, p.command, p.now)
  {
    CharSteps(p, Mark(o, i));
    q := ReadByte(p, Mark(o, i));
  }

  lemma NoText(p: Parser)
    ensures Steps(p, "", p)
  {
    assert ReadAll(p, "") == p;
    StepsIf(p, "", p);
  }

  lemma ClaTextRead(p: Parser, addr: string) returns (q: Parser)
    requires p.status == Good && p.stage == ClaStart && ClaText(addr)
    ensures Steps(p, PrintEid(addr), q)
    ensures q == p.(stage := ClaNodesSeparator, command := p.command.(claAddr := addr))
  {
    var a, b := p.(stage := ClaAddr, command := p.command.(claAddr := "")),
        p.(stage := ClaAddr, command := p.command.(claAddr := addr));
    OpenSteps(p);
    ClaAddrRead(a, addr);
    assert "" + addr == addr;
    StepsIf(a, addr, b);
    q := b.(stage := ClaNodesSeparator);
    DelimiterSteps(b, ')', ClaNodesSeparator);
    Then(a, addr, b, ")", q);
    Then(p, "(", a, addr + ")", q);
  }

  /** The endpoints, of which there may be none, and the closing bracket. */
  lemma {:induction false} ListEndRead(p: Parser, eids: seq<string>)
    requires p.status == Good && p.stage == ListedStart && EidTexts(eids)
    ensures Steps(p, Join(PrintEids(eids)) + "]", Listed(p, eids).(stage := NodesContactsSeparator))
  {
    if eids == [] {
      CharSteps(p, ']');
      assert Join(PrintEids(eids)) + "]" == "]";
      assert p.command.endpoints + [] == p.command.endpoints;
    } else {
      var q := Listed(p, eids);
      EidListRead(p, eids);
      DelimiterSteps(q, ']', NodesContactsSeparator);
      Then(p, Join(PrintEids(eids)), q, "]", q.(stage := NodesContactsSeparator));
    }
  }

  lemma {:induction false} ListTextRead(p: Parser, eids: seq<string>) returns (q: Parser)
    requires p.status == Good && p.stage == NodeListStart && EidTexts(eids) && p.command.endpoints == []
    ensures Steps(p, Bracket(PrintEids(eids)), q)
    ensures q == p.(stage := NodesContactsSeparator, command := p.command.(endpoints := eids))
  {
    var a := p.(stage := ListedStart);
    DelimiterSteps(p, '[', ListedStart);
    ListEndRead(a, eids);
    assert [] + eids == eids;
    q := p.(stage := NodesContactsSeparator, command := p.command.(endpoints := eids));
    Then(p, "[", a, Join(PrintEids(eids)) + "]", q);
  }

  lemma {:induction false} VisitsEndRead(p: Parser, vs: seq<Visit>) returns (q: Parser)
    requires p.status == Good && p.stage == ContactStart && VisitsOk(vs, p.now)
    ensures Steps(p, Join(PrintVisits(vs)) + "]", q) && q.status == Good && q.stage == CommandEnd && q.now == p.now
    ensures q.command == p.command.(contacts := p.command.contacts + OfVisits(vs))
  {
    if vs == [] {
      CharSteps(p, ']');
      q := p.(stage := CommandEnd);
      assert Join(PrintVisits(vs)) + "]" == "]";
      assert p.command.contacts + [] == p.command.contacts;
    } else {
      var b := VisitsRead(p, vs);
      DelimiterSteps(b, ']', CommandEnd);
      q := b.(stage := CommandEnd);
      Then(p, Join(PrintVisits(vs)), b, "]", q);
    }
  }

  lemma {:induction false} VisitsTextRead(p: Parser, vs: seq<Visit>) returns (q: Parser)
    requires p.status == Good && p.stage == ContactListStart && VisitsOk(vs, p.now) && p.command.contacts == []
    ensures Steps(p, Bracket(PrintVisits(vs)), q) && q.status == Good && q.stage == CommandEnd && q.now == p.now
    ensures q.command == p.command.(contacts := OfVisits(vs))
  {
    var a := p.(stage := ContactStart);
    DelimiterSteps(p, '[', ContactStart);
    q := VisitsEndRead(a, vs);
    assert [] + OfVisits(vs) == OfVisits(vs);
    Then(p, "[", a, Join(PrintVisits(vs)) + "]", q);
  }

  // ---- the node and its reliability ----

  lemma NodeEidSteps(p: Parser, eid: string) returns (q: Parser)
    requires p.status == Good && p.stage == NodeStart && EidText(eid)
    ensures Steps(p, PrintEid(eid), q)
    ensures q == p.(stage := ReliabilitySeparator, command := p.command.(eid := eid))
  {
    var a, b := p.(stage := NodeEid, command := p.command.(eid := "")),
        p.(stage := NodeEid, command := p.command.(eid := eid));
    OpenSteps(p);
    NodeEidRead(a, eid);
    assert "" + eid == eid;
    StepsIf(a, eid, b);
    q := b.(stage := ReliabilitySeparator);
    DelimiterSteps(b, ')', ReliabilitySeparator);
    Then(a, eid, b, ")", q);
    Then(p, "(", a, eid + ")", q);
  }

  /** A number up to the largest signed one, of which the lowest 16 bits are looked at. */
  lemma ReliabilitySteps(p: Parser, v: nat, o: Order) returns (q: Parser)
    requires p.status == Good && p.stage == ReliabilitySeparator && v <= UINT64_MAX / 2 && o.sections <= 3
    ensures Steps(p, "," + (Decimal(v) + [Mark(o, 0)]), q)
    ensures q.status == Error <==> !(100 <= v % 0x1_0000 <= 1000)
    ensures q.status != Error ==> Behind(q, o, 0, p.command.(reliability := v % 0x1_0000), p.now)
  {
    var a := p.(stage := Reliability, digits := "");
    CharSteps(p, ',');
    NumberSteps(a, v, Mark(o, 0));
    q := ReadByte(a.(digits := Decimal(v)), Mark(o, 0));
    Then(p, ",", a, Decimal(v) + [Mark(o, 0)], q);
  }

  lemma HeadRead(p: Parser, o: Order) returns (q: Parser)
    requires p.status == Good && p.stage == ReliabilitySeparator && p.command.reliability == 1000 && o.sections <= 3
    requires o.reliability.Some? ==> o.reliability.value <= UINT64_MAX / 2
    ensures Steps(p, PrintReliability(o) + [Mark(o, 0)], q)
    ensures q.status == Error <==> !(100 <= Kept(o) <= 1000)
    ensures q.status != Error ==> Behind(q, o, 0, p.command.(reliability := Kept(o)), p.now)
  {
    match o.reliability
    case None =>
      q := MarkSteps(p, o, 0);
      assert "" + [Mark(o, 0)] == [Mark(o, 0)];
    case Some(v) =>
      q := ReliabilitySteps(p, v, o);
      Regrouped(",", Decimal(v), [Mark(o, 0)]);
  }

  // ---- the whole command ----

  /** Kind, node and reliability. */
  lemma StartOfOrder(o: Order, now: nat) returns (q: Parser)
    requires Sayable(o, now)
    ensures Steps(Begin(now), [o.kind] + (PrintEid(o.eid) + (PrintReliability(o) + [Mark(o, 0)])), q)
    ensures q.status == Error <==> !(100 <= Kept(o) <= 1000)
    ensures q.status != Error ==> Behind(q, o, 0, Meant(o.(sections := 0)), now)
  {
    var p := Begin(now);
    var p1 := p.(stage := NodeStart, command := p.command.(kind := o.kind));
    KindRead(p, o.kind);
    var p2 := NodeEidSteps(p1, o.eid);
    q := HeadRead(p2, o);
    Then(p1, PrintEid(o.eid), p2, PrintReliability(o) + [Mark(o, 0)], q);
    Then(p, [o.kind], p1, PrintEid(o.eid) + (PrintReliability(o) + [Mark(o, 0)]), q);
  }

  /** The parser has read the first `i` sections and the mark behind them. */
  ghost predicate HasRead(p: Parser, o: Order, i: nat, now: nat) { Behind(p, o, i, Meant(o.(sections := i)), now) }

  lemma {:induction false} NothingLeft(p: Parser, o: Order, i: nat, now: nat)
    requires i == o.sections && i <= 3 && HasRead(p, o, i, now)
    ensures PrintSections(o, i) == "" && Steps(p, "", p) && p.status == Done && p.command == Meant(o)
  {
    assert o.(sections := i) == o;
    NoText(p);
  }

  /** One section without its mark. */
  lemma SectionTextRead(p: Parser, o: Order, i: nat, now: nat) returns (q: Parser)
    requires Sayable(o, now) && i < o.sections && HasRead(p, o, i, now)
    ensures Steps(p, PrintSection(o, i), q) && q.status == Good && CanEnd(q.stage, i + 1) && q.now == now
    ensures q.command == Meant(o.(sections := i + 1))
  {
    if i == 0 && o.claAddr.Some? {
      q := ClaTextRead(p, o.claAddr.value);
    } else if i == 1 && o.reachable.Some? {
      q := ListTextRead(p, o.reachable.value);
    } else if i == 2 && o.visits.Some? {
      q := VisitsTextRead(p, o.visits.value);
    } else {
      q := p;
      NoText(p);
    }
  }

  lemma SectionRead(p: Parser, o: Order, i: nat, now: nat) returns (q: Parser)
    requires Sayable(o, now) && i < o.sections && HasRead(p, o, i, now)
    ensures Steps(p, PrintSection(o, i) + [Mark(o, i + 1)], q) && HasRead(q, o, i + 1, now)
  {
    var r := SectionTextRead(p, o, i, now);
    q := MarkSteps(r, o, i + 1);
    Then(p, PrintSection(o, i), r, [Mark(o, i + 1)], q);
  }

  lemma {:induction false} SectionsRead(p: Parser, o: Order, i: nat, now: nat) returns (q: Parser)
    requires Sayable(o, now) && i <= o.sections && HasRead(p, o, i, now)
    ensures Steps(p, PrintSections(o, i), q) && q.status == Done && q.command == Meant(o)
    decreases 3 - i
  {
    if i == o.sections {
      NothingLeft(p, o, i, now);
      return p;
    }
    var text := PrintSection(o, i) + [Mark(o, i + 1)];
    var next := SectionRead(p, o, i, now);
    q := SectionsRead(next, o, i + 1, now);
    Then(p, text, next, PrintSections(o, i + 1), q);
    Regrouped(PrintSection(o, i), [Mark(o, i + 1)], PrintSections(o, i + 1));
  }

  lemma {:induction false} ErrorIsFinal(p: Parser, input: string)
    requires p.status == Error
    ensures ReadAll(p, input) == p
    decreases |input|
  {
    if input != "" { ErrorIsFinal(p, input[..|input| - 1]); }
  }

  /**
   * Reading a command in any form gives what it says, with the lowest 16 bits of its reliability; it fails if and
   * only if these are not between 100 and 1000.
   */
  lemma {:induction false} OrderIsRead(o: Order, now: nat)
    requires Sayable(o, now)
    ensures var r := ReadAll(Begin(now), PrintOrder(o));
      if 100 <= Kept(o) <= 1000 then r.status == Done && r.command == Meant(o) else r.status == Error
  {
    var head := [o.kind] + (PrintEid(o.eid) + (PrintReliability(o) + [Mark(o, 0)]));
    OrderGroup([o.kind], PrintEid(o.eid), PrintReliability(o), [Mark(o, 0)], PrintSections(o, 0));
    assert head + PrintSections(o, 0) == PrintOrder(o);
    var p := StartOfOrder(o, now);
    if p.status == Error {
      ErrorIsFinal(p, PrintSections(o, 0));
      assert ReadAll(Begin(now), head + PrintSections(o, 0)) == ReadAll(p, PrintSections(o, 0));
    } else {
      var q := SectionsRead(p, o, 0, now);
      Then(Begin(now), head, p, PrintSections(o, 0), q);
      Reaches(Begin(now), PrintOrder(o), q);
    }
  }

  lemma OrderGroup(a: string, b: string, c: string, d: string, e: string)
    ensures (a + (b + (c + d))) + e == a + (b + (c + (d + e)))
  {
  }
}
