/** The printer of configuration commands (pyupcn/agents.py, lines 75-106) and its inverse, the parser. */
module ConfigPrinter {
  import opened Basics
  import opened ConfigParser

  datatype Window = Window(start: nat, end: nat, bitrate: nat)

  datatype Message = Message(kind: char, eid: string, claAddr: string, reachable: seq<string>, contacts: seq<Window>)

  function Decimal(n: nat): string {
    if n < 10 then [('0' as int + n) as char] else Decimal(n / 10) + [('0' as int + n % 10) as char]
  }

  function PrintEid(eid: string): string { "(" + (eid + ")") }

  /** The texts with commas between them. */
  function Join(parts: seq<string>): string {
    if parts == [] then "" else if |parts| == 1 then parts[0] else parts[0] + ("," + Join(parts[1..]))
  }

  function PrintEids(eids: seq<string>): seq<string> {
    if eids == [] then [] else [PrintEid(eids[0])] + PrintEids(eids[1..])
  }

  function PrintWindow(w: Window): string {
    "{" + (Decimal(w.start) + ("," + (Decimal(w.end) + ("," + (Decimal(w.bitrate) + "}")))))
  }

  function PrintWindows(ws: seq<Window>): seq<string> {
    if ws == [] then [] else [PrintWindow(ws[0])] + PrintWindows(ws[1..])
  }

  function EidList(m: Message): string { if m.reachable == [] then "" else "[" + (Join(PrintEids(m.reachable)) + "]") }

  function ContactList(m: Message): string {
    if m.contacts == [] then "" else "[" + (Join(PrintWindows(m.contacts)) + "]")
  }

  /** ConfigMessage.__str__ */
  function Print(m: Message): string {
    [m.kind] + (PrintEid(m.eid) + (":" + (PrintEid(m.claAddr) + (":" + (EidList(m) + (":" + (ContactList(m) + ";")))))))
  }

  // ---- what can be printed and read back ----

  predicate EidText(s: string) { forall i :: 0 <= i < |s| ==> EidChar(s[i]) && s[i] != ')' }

  predicate ClaText(s: string) { forall i :: 0 <= i < |s| ==> ClaChar(s[i]) }

  predicate Permitted(m: Message, now: nat) {
    && '1' <= m.kind <= '4' && EidText(m.eid) && ClaText(m.claAddr)
    && (forall i :: 0 <= i < |m.reachable| ==> EidText(m.reachable[i]))
    && (forall i :: 0 <= i < |m.contacts| ==> WindowOk(m.contacts[i], now))
  }

  predicate WindowOk(w: Window, now: nat) {
    w.start < w.end <= UINT64_MAX && w.end > now && w.bitrate < 0x1_0000_0000
  }

  // ---- texts and numbers ----

  /** The parser gets from one state to another by reading the text, whatever follows. */
  ghost predicate Steps(p: Parser, s: string, q: Parser) { forall rest :: ReadAll(p, s + rest) == ReadAll(q, rest) }

  lemma {:induction false} StepsIf(p: Parser, s: string, q: Parser)
    requires ReadAll(p, s) == q
    ensures Steps(p, s, q)
  {
    forall rest ensures ReadAll(p, s + rest) == ReadAll(q, rest) { ReadAllAppend(p, s, rest); }
  }

  lemma Then(p: Parser, a: string, q: Parser, b: string, r: Parser)
    requires Steps(p, a, q) && Steps(q, b, r)
    ensures Steps(p, a + b, r)
  {
    forall rest ensures ReadAll(p, (a + b) + rest) == ReadAll(r, rest) {
      assert (a + b) + rest == a + (b + rest);
      assert ReadAll(p, a + (b + rest)) == ReadAll(q, b + rest);
    }
  }

  lemma {:induction false} Reaches(p: Parser, s: string, q: Parser)
    requires Steps(p, s, q)
    ensures ReadAll(p, s) == q
  {
    assert s + "" == s;
    assert ReadAll(p, s + "") == ReadAll(q, "");
  }

  lemma CharSteps(p: Parser, c: char)
    ensures Steps(p, [c], ReadByte(p, c))
  {
    assert [c][..0] == "" && ReadAll(p, "") == p;
    StepsIf(p, [c], ReadByte(p, c));
  }

  /** The delimiters that only lead to another stage. */
  predicate Delimits(from: Stage, c: char, to: Stage) {
    match from
    case NodeEid => c == ')' && to == ReliabilitySeparator
    case ReliabilitySeparator => c == ':' && to == ClaStart
    case ClaAddr => c == ')' && to == ClaNodesSeparator
    case ClaNodesSeparator => c == ':' && to == NodeListStart
    case NodeListStart => (c == '[' && to == ListedStart) || (c == ':' && to == ContactListStart)
    case ListedEid => c == ')' && to == ListedSeparator
    case ListedSeparator => (c == ',' && to == ListedStart) || (c == ']' && to == NodesContactsSeparator)
    case NodesContactsSeparator => c == ':' && to == ContactListStart
    case ContactListStart => c == '[' && to == ContactStart
    case ContactSeparator => (c == ',' && to == ContactStart) || (c == ']' && to == CommandEnd)
    case _ => false
  }

  lemma DelimiterSteps(p: Parser, c: char, to: Stage)
    requires p.status == Good && Delimits(p.stage, c, to)
    ensures Steps(p, [c], p.(stage := to))
  {
    CharSteps(p, c);
  }

  lemma EndSteps(p: Parser)
    requires p.status == Good && (p.stage == ContactListStart || p.stage == CommandEnd)
    ensures Steps(p, ";", p.(status := Done))
  {
    CharSteps(p, ';');
  }

  lemma OpenSteps(p: Parser)
    requires p.status == Good
    ensures p.stage == NodeStart ==> Steps(p, "(", p.(stage := NodeEid, command := p.command.(eid := "")))
    ensures p.stage == ClaStart ==> Steps(p, "(", p.(stage := ClaAddr, command := p.command.(claAddr := "")))
    ensures p.stage == ListedStart ==> Steps(p, "(", p.(stage := ListedEid,
            command := p.command.(endpoints := p.command.endpoints + [""])))
  {
    CharSteps(p, '(');
  }

  lemma {:induction false} NodeEidRead(p: Parser, s: string)
    requires p.status == Good && p.stage == NodeEid && EidText(s)
    ensures ReadAll(p, s) == p.(command := p.command.(eid := p.command.eid + s))
  {
    if s == "" {
      assert p.command.eid + s == p.command.eid;
    } else {
      var n := |s| - 1;
      NodeEidRead(p, s[..n]);
      assert (p.command.eid + s[..n]) + [s[n]] == p.command.eid + s;
    }
  }

  lemma {:induction false} ClaAddrRead(p: Parser, s: string)
    requires p.status == Good && p.stage == ClaAddr && ClaText(s)
    ensures ReadAll(p, s) == p.(command := p.command.(claAddr := p.command.claAddr + s))
  {
    if s == "" {
      assert p.command.claAddr + s == p.command.claAddr;
    } else {
      var n := |s| - 1;
      ClaAddrRead(p, s[..n]);
      assert (p.command.claAddr + s[..n]) + [s[n]] == p.command.claAddr + s;
    }
  }

  lemma {:induction false} ListedEidRead(p: Parser, list: seq<string>, s: string)
    requires p.status == Good && p.stage == ListedEid && EidText(s) && p.command.endpoints == list + [""]
    ensures ReadAll(p, s) == p.(command := p.command.(endpoints := list + [s]))
  {
    if s != "" {
      var n := |s| - 1;
      ListedEidRead(p, list, s[..n]);
      assert s[..n] + [s[n]] == s;
      ListedByteRead(p, list, s[..n], s[n]);
    }
  }

  lemma ListedByteRead(p: Parser, list: seq<string>, s: string, c: char)
    requires p.status == Good && p.stage == ListedEid && EidText([c])
    ensures ReadByte(p.(command := p.command.(endpoints := list + [s])), c)
            == p.(command := p.command.(endpoints := list + [s + [c]]))
  {
    assert [c][0] == c;
    assert AppendLast(list + [s], c) == list + [s + [c]];
  }

  predicate NumberStage(s: Stage) { s == Reliability || s == StartTime || s == EndTime || s == Bitrate }

  lemma {:induction false} DigitsRead(p: Parser, s: string)
    requires p.status == Good && NumberStage(p.stage)
    requires forall i :: 0 <= i < |s| ==> Digit(s[i])
    ensures ReadAll(p, s) == p.(digits := p.digits + s)
  {
    if s == "" {
      assert p.digits + s == p.digits;
    } else {
      var n := |s| - 1;
      DigitsRead(p, s[..n]);
      DigitRead(p.(digits := p.digits + s[..n]), s[n]);
      assert (p.digits + s[..n]) + [s[n]] == p.digits + s;
    }
  }

  lemma DigitRead(p: Parser, c: char)
    requires p.status == Good && NumberStage(p.stage) && Digit(c)
    ensures ReadByte(p, c) == p.(digits := p.digits + [c])
  {
  }

  lemma {:induction false} DecimalIs(n: nat)
    ensures Value(Decimal(n)) == n && forall i :: 0 <= i < |Decimal(n)| ==> Digit(Decimal(n)[i])
  {
    if n >= 10 {
      DecimalIs(n / 10);
      var d := Decimal(n);
      assert d[..|d| - 1] == Decimal(n / 10);
    } else {
      assert Decimal(n)[..0] == "" && Value("") == 0;
    }
  }

  /** A number and the character behind it. */
  lemma {:induction false} NumberSteps(p: Parser, n: nat, c: char)
    requires p.status == Good && NumberStage(p.stage) && p.digits == ""
             && n <= UINT64_MAX
    ensures Value(Decimal(n)) == Number(Decimal(n)) == n
    ensures Steps(p, Decimal(n) + [c], ReadByte(p.(digits := Decimal(n)), c))
  {
    DecimalIs(n);
    DigitsRead(p, Decimal(n));
    assert "" + Decimal(n) == Decimal(n);
    var q := p.(digits := Decimal(n));
    StepsIf(p, Decimal(n), q);
    CharSteps(q, c);
    Then(p, Decimal(n), q, [c], ReadByte(q, c));
  }

  // ---- the lists ----

  /** One more endpoint. */
  function Listed(p: Parser, eids: seq<string>): Parser {
    p.(stage := ListedSeparator, command := p.command.(endpoints := p.command.endpoints + eids))
  }

  lemma ListedRead(p: Parser, eid: string)
    requires p.status == Good && p.stage == ListedStart && EidText(eid)
    ensures Steps(p, PrintEid(eid), Listed(p, [eid]))
  {
    var q := p.(stage := ListedEid, command := p.command.(endpoints := p.command.endpoints + [""]));
    OpenSteps(p);
    ListedEidRead(q, p.command.endpoints, eid);
    var r := p.(stage := ListedEid, command := p.command.(endpoints := p.command.endpoints + [eid]));
    StepsIf(q, eid, r);
    DelimiterSteps(r, ')', ListedSeparator);
    Then(q, eid, r, ")", Listed(p, [eid]));
    Then(p, "(", q, eid + ")", Listed(p, [eid]));
  }

  lemma {:induction false} EidListRead(p: Parser, eids: seq<string>)
    requires p.status == Good && p.stage == ListedStart && eids != [] && forall i ::
                                                                           0 <= i < |eids| ==> EidText(eids[i])
    ensures Steps(p, Join(PrintEids(eids)), Listed(p, eids))
    decreases |eids|
  {
    var e, more := eids[0], eids[1..];
    ListedRead(p, e);
    JoinEids(eids);
    if |eids| == 1 {
      assert eids == [e];
    } else {
      var q := Listed(p, [e]);
      DelimiterSteps(q, ',', ListedStart);
      var r := q.(stage := ListedStart);
      EidListRead(r, more);
      assert (p.command.endpoints + [e]) + more == p.command.endpoints + eids;
      Then(q, ",", r, Join(PrintEids(more)), Listed(p, eids));
      Then(p, PrintEid(e), q, "," + Join(PrintEids(more)), Listed(p, eids));
    }
  }

  lemma {:induction false} JoinEids(eids: seq<string>)
    requires eids != []
    ensures Join(PrintEids(eids)) ==
            if |eids| == 1 then PrintEid(eids[0]) else PrintEid(eids[0]) + ("," + Join(PrintEids(eids[1..])))
  {
    assert PrintEids(eids)[1..] == PrintEids(eids[1..]);
    assert |eids| > 1 ==> PrintEids(eids[1..]) != [];
  }

  function AsContact(w: Window): Contact { Contact(w.start, w.end, w.bitrate, []) }

  function AsContacts(ws: seq<Window>): seq<Contact> {
    if ws == [] then [] else [AsContact(ws[0])] + AsContacts(ws[1..])
  }

  /** The contact that is read is the last one of the list. */
  lemma SetLastIs(list: seq<Contact>, a: Contact, b: Contact)
    ensures SetLast(list + [a], b) == list + [b] && Last(list + [a]) == a
  {
  }

  /** The parser with the contact `c` being read. */
  function Reading(p: Parser, stage: Stage, c: Contact, digits: string): Parser {
    p.(stage := stage, digits := digits, command := p.command.(contacts := p.command.contacts + [c]))
  }

  lemma StartRead(p: Parser, w: Window)
    requires p.status == Good && WindowOk(w, p.now)
    ensures Steps(Reading(p, StartTime, Contact(0, 0, 0, []), ""), Decimal(w.start) + ",",
                  Reading(p, EndTime, Contact(w.start, 0, 0, []), ""))
  {
    NumberSteps(Reading(p, StartTime, Contact(0, 0, 0, []), ""), w.start, ',');
    SetLastIs(p.command.contacts, Contact(0, 0, 0, []), Contact(w.start, 0, 0, []));
  }

  lemma EndRead(p: Parser, w: Window)
    requires p.status == Good && WindowOk(w, p.now)
    ensures Steps(Reading(p, EndTime, Contact(w.start, 0, 0, []), ""), Decimal(w.end) + ",",
                  Reading(p, Bitrate, Contact(w.start, w.end, 0, []), ""))
  {
    NumberSteps(Reading(p, EndTime, Contact(w.start, 0, 0, []), ""), w.end, ',');
    SetLastIs(p.command.contacts, Contact(w.start, 0, 0, []), Contact(w.start, w.end, 0, []));
  }

  lemma BitrateByte(p: Parser, w: Window)
    requires p.status == Good && w.bitrate < 0x1_0000_0000 && Number(Decimal(w.bitrate)) == w.bitrate
    ensures ReadByte(Reading(p, Bitrate, Contact(w.start, w.end, 0, []), Decimal(w.bitrate)), '}') ==
            Reading(p, ContactSeparator, AsContact(w), "")
  {
    SetLastIs(p.command.contacts, Contact(w.start, w.end, 0, []), AsContact(w));
    SmallModulo(w.bitrate, 0x1_0000_0000);
  }

  lemma BitrateRead(p: Parser, w: Window)
    requires p.status == Good && WindowOk(w, p.now)
    ensures Steps(Reading(p, Bitrate, Contact(w.start, w.end, 0, []), ""), Decimal(w.bitrate) + "}",
                  Reading(p, ContactSeparator, AsContact(w), ""))
  {
    NumberSteps(Reading(p, Bitrate, Contact(w.start, w.end, 0, []), ""), w.bitrate, '}');
    BitrateByte(p, w);
  }

  lemma WindowRead(p: Parser, w: Window)
    requires p.status == Good && p.stage == ContactStart && WindowOk(w, p.now)
    ensures Steps(p, PrintWindow(w), Reading(p, ContactSeparator, AsContact(w), ""))
  {
    var a, b, c := Decimal(w.start) + ",", Decimal(w.end) + ",", Decimal(w.bitrate) + "}";
    var p1 := Reading(p, StartTime, Contact(0, 0, 0, []), "");
    var p2 := Reading(p, EndTime, Contact(w.start, 0, 0, []), "");
    var p3 := Reading(p, Bitrate, Contact(w.start, w.end, 0, []), "");
    var p4 := Reading(p, ContactSeparator, AsContact(w), "");
    CharSteps(p, '{');
    StartRead(p, w);
    EndRead(p, w);
    BitrateRead(p, w);
    Then(p2, b, p3, c, p4);
    Then(p1, a, p2, b + c, p4);
    Then(p, "{", p1, a + (b + c), p4);
    WindowGroup(Decimal(w.start), Decimal(w.end), Decimal(w.bitrate));
  }

  lemma WindowGroup(a: string, b: string, c: string)
    ensures "{" + ((a + ",") + ((b + ",") + (c + "}"))) == "{" + (a + ("," + (b + ("," + (c + "}")))))
  {
  }

  /** The parser is behind a contact, with the contacts `done`. */
  ghost predicate BehindContact(q: Parser, p: Parser, done: seq<Contact>) {
    q.status == Good && q.stage == ContactSeparator && q.now == p.now && q.command == p.command.(contacts := done)
  }

  lemma NextWindowRead(p: Parser, w: Window) returns (q: Parser)
    requires p.status == Good && p.stage == ContactStart && WindowOk(w, p.now)
    ensures Steps(p, PrintWindow(w), q) && BehindContact(q, p, p.command.contacts + [AsContact(w)])
  {
    WindowRead(p, w);
    q := Reading(p, ContactSeparator, AsContact(w), "");
  }

  lemma {:induction false} WindowsRead(p: Parser, ws: seq<Window>) returns (q: Parser)
    requires p.status == Good && p.stage == ContactStart && ws != [] && forall i ::
                                                                          0 <= i < |ws| ==> WindowOk(ws[i], p.now)
    ensures Steps(p, Join(PrintWindows(ws)), q) && BehindContact(q, p, p.command.contacts + AsContacts(ws))
    decreases |ws|
  {
    var w, more := ws[0], ws[1..];
    q := NextWindowRead(p, w);
    JoinWindows(ws);
    ContactsGroup(p.command.contacts, ws);
    if |ws| > 1 {
      DelimiterSteps(q, ',', ContactStart);
      var r := q.(stage := ContactStart);
      var end := WindowsRead(r, more);
      Then(q, ",", r, Join(PrintWindows(more)), end);
      Then(p, PrintWindow(w), q, "," + Join(PrintWindows(more)), end);
      q := end;
    }
  }

  lemma {:induction false} ContactsGroup(done: seq<Contact>, ws: seq<Window>)
    requires ws != []
    ensures (done + [AsContact(ws[0])]) + AsContacts(ws[1..]) == done + AsContacts(ws)
    ensures |ws| == 1 ==> done + [AsContact(ws[0])] == done + AsContacts(ws)
  {
    Regroup(done, AsContact(ws[0]), AsContacts(ws[1..]));
  }

  lemma Regroup(done: seq<Contact>, c: Contact, more: seq<Contact>)
    ensures done + ([c] + more) == (done + [c]) + more && (more == [] ==> done + ([c] + more) == done + [c])
  {
  }

  lemma {:induction false} JoinWindows(ws: seq<Window>)
    requires ws != []
    ensures Join(PrintWindows(ws)) ==
            if |ws| == 1 then PrintWindow(ws[0]) else PrintWindow(ws[0]) + ("," + Join(PrintWindows(ws[1..])))
  {
    assert PrintWindows(ws)[1..] == PrintWindows(ws[1..]);
    assert |ws| > 1 ==> PrintWindows(ws[1..]) != [];
  }

  // ---- the whole command ----

  lemma KindRead(p: Parser, kind: char)
    requires p.status == Good && p.stage == CommandType && '1' <= kind <= '4'
    ensures Steps(p, [kind], p.(stage := NodeStart, command := p.command.(kind := kind)))
  {
    CharSteps(p, kind);
  }

  lemma NodeRead(p: Parser, eid: string)
    requires p.status == Good && p.stage == NodeStart && EidText(eid)
    ensures Steps(p, PrintEid(eid) + ":", p.(stage := ClaStart, command := p.command.(eid := eid)))
  {
    var q, r := p.(stage := NodeEid, command := p.command.(eid := "")),
        p.(stage := NodeEid, command := p.command.(eid := eid));
    OpenSteps(p);
    NodeEidRead(q, eid);
    assert "" + eid == eid;
    StepsIf(q, eid, r);
    var t := r.(stage := ReliabilitySeparator);
    DelimiterSteps(r, ')', ReliabilitySeparator);
    Then(q, eid, r, ")", t);
    Then(p, "(", q, eid + ")", t);
    DelimiterSteps(t, ':', ClaStart);
    Then(p, PrintEid(eid), t, ":", t.(stage := ClaStart));
  }

  lemma ClaRead(p: Parser, addr: string)
    requires p.status == Good && p.stage == ClaStart && ClaText(addr)
    ensures Steps(p, PrintEid(addr) + ":", p.(stage := NodeListStart, command := p.command.(claAddr := addr)))
  {
    var q, r := p.(stage := ClaAddr, command := p.command.(claAddr := "")),
        p.(stage := ClaAddr, command := p.command.(claAddr := addr));
    OpenSteps(p);
    ClaAddrRead(q, addr);
    assert "" + addr == addr;
    StepsIf(q, addr, r);
    var t := r.(stage := ClaNodesSeparator);
    DelimiterSteps(r, ')', ClaNodesSeparator);
    Then(q, addr, r, ")", t);
    Then(p, "(", q, addr + ")", t);
    DelimiterSteps(t, ':', NodeListStart);
    Then(p, PrintEid(addr), t, ":", t.(stage := NodeListStart));
  }

  lemma ReachableRead(p: Parser, m: Message)
    requires p.status == Good && p.stage == NodeListStart && p.command.endpoints == []
    requires forall i :: 0 <= i < |m.reachable| ==> EidText(m.reachable[i])
    ensures Steps(p, EidList(m) + ":", p.(stage := ContactListStart, command := p.command.(endpoints := m.reachable)))
  {
    if m.reachable == [] {
      DelimiterSteps(p, ':', ContactListStart);
      assert EidList(m) + ":" == ":";
    } else {
      var q := p.(stage := ListedStart);
      DelimiterSteps(p, '[', ListedStart);
      EidListRead(q, m.reachable);
      assert [] + m.reachable == m.reachable;
      var r := Listed(q, m.reachable);
      var t := r.(stage := NodesContactsSeparator);
      DelimiterSteps(r, ']', NodesContactsSeparator);
      Then(q, Join(PrintEids(m.reachable)), r, "]", t);
      Then(p, "[", q, Join(PrintEids(m.reachable)) + "]", t);
      DelimiterSteps(t, ':', ContactListStart);
      Then(p, EidList(m), t, ":", t.(stage := ContactListStart));
    }
  }

  lemma ContactsRead(p: Parser, m: Message) returns (q: Parser)
    requires p.status == Good && p.stage == ContactListStart && p.command.contacts == []
    requires forall i :: 0 <= i < |m.contacts| ==> WindowOk(m.contacts[i], p.now)
    ensures Steps(p, ContactList(m) + ";", q)
    ensures q.status == Done && q.command == p.command.(contacts := AsContacts(m.contacts))
  {
    if m.contacts == [] {
      EndSteps(p);
      assert ContactList(m) + ";" == ";";
      q := p.(status := Done);
    } else {
      var p1 := p.(stage := ContactStart);
      DelimiterSteps(p, '[', ContactStart);
      var p2 := WindowsRead(p1, m.contacts);
      assert [] + AsContacts(m.contacts) == AsContacts(m.contacts);
      DelimiterSteps(p2, ']', CommandEnd);
      var p3 := p2.(stage := CommandEnd);
      Then(p1, Join(PrintWindows(m.contacts)), p2, "]", p3);
      Then(p, "[", p1, Join(PrintWindows(m.contacts)) + "]", p3);
      EndSteps(p3);
      q := p3.(status := Done);
      Then(p, ContactList(m), p3, ";", q);
    }
  }

  /** Reading a printed command gives its fields back. */
  lemma PrintedIsRead(m: Message, now: nat)
    requires Permitted(m, now)
    ensures var r := ReadAll(Begin(now), Print(m));
      && r.status == Done
      && r.command == Command(m.kind, m.eid, 1000, m.claAddr, m.reachable, AsContacts(m.contacts))
  {
    var p := Begin(now);
    KindRead(p, m.kind);
    var p1 := p.(stage := NodeStart, command := p.command.(kind := m.kind));
    NodeRead(p1, m.eid);
    var p2 := p1.(stage := ClaStart, command := p1.command.(eid := m.eid));
    ClaRead(p2, m.claAddr);
    var p3 := p2.(stage := NodeListStart, command := p2.command.(claAddr := m.claAddr));
    ReachableRead(p3, m);
    var p4 := p3.(stage := ContactListStart, command := p3.command.(endpoints := m.reachable));
    var p5 := ContactsRead(p4, m);
    var a, b, c, d := PrintEid(m.eid) + ":", PrintEid(m.claAddr) + ":", EidList(m) + ":", ContactList(m) + ";";
    Then(p3, c, p4, d, p5);
    Then(p2, b, p3, c + d, p5);
    Then(p1, a, p2, b + (c + d), p5);
    Then(p, [m.kind], p1, a + (b + (c + d)), p5);
    PrintGroup([m.kind], PrintEid(m.eid), PrintEid(m.claAddr), EidList(m), d);
    Reaches(p, Print(m), p5);
  }

  lemma PrintGroup(k: string, a: string, b: string, c: string, d: string)
    ensures k + ((a + ":") + ((b + ":") + ((c + ":") + d))) == k + (a + (":" + (b + (":" + (c + (":" + d))))))
  {
  }
}
