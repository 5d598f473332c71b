/**
 * The language of configuration commands, read from left to right in whole fields. The parser accepts just this
 * language, with what its commands say (components/agents/config_parser.c, lines 173-441).
 */
module ConfigGrammar {
  import opened Basics
  import opened ConfigParser
  import opened ConfigPrinter

  /** What the characters so far amount to. */
  datatype Verdict = Accepts(command: Command) | Refuses | Waits

  /** A field and what follows it, a wrong character, or the end of the characters. */
  datatype Field<T> = Whole(value: T, rest: string) | Broken | Partial

  // ---- characters ----

  /** All visible characters but five. */
  lemma EidChars(c: char)
    ensures EidChar(c) <==> ' ' < c <= '~' && c !in "`{|}"
  {
  }

  lemma ClaChars(c: char)
    ensures ClaChar(c) <==> (c in "0123456789" || c in "ABCDEFGHIJKLMNOPQRSTUVWXYZ"
                             || c in "abcdefghijklmnopqrstuvwxyz" || c in ":.[]")
  {
  }

  lemma Digits(c: char)
    ensures Digit(c) <==> c in "0123456789"
    ensures Digit(c) ==> DigitValue(c) < 10 && "0123456789"[DigitValue(c)] == c
  {
  }

  /** Numbers are cut to the largest that the conversions return. */
  lemma {:induction false} NumbersAre(digits: string)
    ensures Number(digits) <= UINT64_MAX && (Value(digits) <= UINT64_MAX ==> Number(digits) == Value(digits))
    ensures Value(digits) > UINT64_MAX ==> Number(digits) == UINT64_MAX
    ensures ShortNumber(digits) < 0x1_0000
    ensures Value(digits) < 0x1_0000 ==> ShortNumber(digits) == Value(digits)
    ensures Value(digits) > UINT64_MAX / 2 ==> ShortNumber(digits) == 0xFFFF
  {
  }

  // ---- fields ----

  /** The characters in front of the first one that is not allowed. */
  function Span(s: string, ok: char -> bool): (n: nat)
    ensures n <= |s| && (forall i :: 0 <= i < n ==> ok(s[i])) && (n < |s| ==> !ok(s[n]))
  {
    if s == "" || !ok(s[0]) then 0 else 1 + Span(s[1..], ok)
  }

  /** A text up to a closing parenthesis. */
  function TextField(s: string, ok: char -> bool): (r: Field<string>)
    ensures r.Whole? ==> |r.rest| < |s|
  {
    var n := Span(s, c => ok(c) && c != ')');
    if n == |s| then Partial else if s[n] == ')' then Whole(s[..n], s[n + 1..]) else Broken
  }

  function EidField(s: string): Field<string> { TextField(s, EidChar) }

  function ClaField(s: string): Field<string> { TextField(s, ClaChar) }

  /** Digits, of which there may be none, up to one of the delimiters; the rest starts with it. */
  function NumberField(s: string, ends: string): (r: Field<string>)
    ensures r.Whole? ==> 0 < |r.rest| <= |s| && r.rest[0] in ends && !Digit(r.rest[0])
  {
    var n := Span(s, Digit);
    if n == |s| then Partial else if s[n] in ends then Whole(s[..n], s[n..]) else Broken
  }

  /** EIDs in parentheses with commas between them, up to a closing bracket; a comma may come in front of it. */
  function ListField(s: string): (r: Field<seq<string>>)
    ensures r.Whole? ==> |r.rest| < |s|
    decreases |s|
  {
    if s == "" then Partial
    else if s[0] == ']' then Whole([], s[1..])
    else if s[0] != '(' then Broken
    else
      match EidField(s[1..])
      case Partial => Partial
      case Broken => Broken
      case Whole(eid, rest) => ListAfter(eid, rest)
  }

  function ListAfter(eid: string, s: string): (r: Field<seq<string>>)
    ensures r.Whole? ==> |r.rest| < |s|
    decreases |s|
  {
    if s == "" then Partial
    else if s[0] == ']' then Whole([eid], s[1..])
    else if s[0] != ',' then Broken
    else
      match ListField(s[1..])
      case Partial => Partial
      case Broken => Broken
      case Whole(eids, rest) => Whole([eid] + eids, rest)
  }

  /** One character that has to be there. */
  function Expect(s: string, c: char): Field<()> {
    if s == "" then Partial else if s[0] == c then Whole((), s[1..]) else Broken
  }

  /** The endpoints of a contact and its closing brace, behind the comma. */
  function EndpointsField(s: string): (r: Field<seq<string>>)
    ensures r.Whole? ==> |r.rest| < |s|
  {
    match Expect(s, '[')
    case Partial => Partial
    case Broken => Broken
    case Whole(_, list) =>
      match ListField(list)
      case Partial => Partial
      case Broken => Broken
      case Whole(eids, end) =>
        match Expect(end, '}')
        case Partial => Partial
        case Broken => Broken
        case Whole(_, rest) => Whole(eids, rest)
  }

  /** A contact behind its opening brace; it must end after it starts, and after now. */
  function ContactField(s: string, now: nat): (r: Field<Contact>)
    ensures r.Whole? ==> |r.rest| < |s|
  {
    match NumberField(s, ",")
    case Partial => Partial
    case Broken => Broken
    case Whole(digits, rest) => EndField(rest[1..], Contact(Number(digits), 0, 0, []), now)
  }

  function EndField(s: string, c: Contact, now: nat): (r: Field<Contact>)
    ensures r.Whole? ==> |r.rest| < |s|
  {
    match NumberField(s, ",")
    case Partial => Partial
    case Broken => Broken
    case Whole(digits, rest) =>
      if Number(digits) <= c.from || Number(digits) <= now then Broken
      else BitrateField(rest[1..], c.(to := Number(digits)))
  }

  function BitrateField(s: string, c: Contact): (r: Field<Contact>)
    ensures r.Whole? ==> |r.rest| < |s|
  {
    match NumberField(s, ",}")
    case Partial => Partial
    case Broken => Broken
    case Whole(digits, rest) =>
      var c := c.(bitrate := Number(digits) % 0x1_0000_0000);
      if rest[0] == '}' then Whole(c, rest[1..])
      else
        match EndpointsField(rest[1..])
        case Partial => Partial
        case Broken => Broken
        case Whole(eids, rest) => Whole(c.(endpoints := eids), rest)
  }

  function ContactsField(s: string, now: nat): Field<seq<Contact>>
    decreases |s|
  {
    if s == "" then Partial
    else if s[0] == ']' then Whole([], s[1..])
    else if s[0] != '{' then Broken
    else
      match ContactField(s[1..], now)
      case Partial => Partial
      case Broken => Broken
      case Whole(c, rest) => ContactsAfter(c, rest, now)
  }

  function ContactsAfter(c: Contact, s: string, now: nat): Field<seq<Contact>>
    decreases |s|
  {
    if s == "" then Partial
    else if s[0] == ']' then Whole([c], s[1..])
    else if s[0] != ',' then Broken
    else
      match ContactsField(s[1..], now)
      case Partial => Partial
      case Broken => Broken
      case Whole(more, rest) => Whole([c] + more, rest)
  }

  // ---- commands ----

  /** A command can end in front of each section, and some sections can be empty. */
  function OfMark(c: Command, s: string, next: string -> Verdict): Verdict {
    if s == "" then Waits
    else if s[0] == ';' then Accepts(c)
    else if s[0] == ':' then next(s[1..])
    else Refuses
  }

  function OfCommand(s: string, now: nat): Verdict {
    if s == "" then Waits
    else if s[0] !in "1234" then Refuses
    else OfNode(Command(s[0], "", 1000, "", [], []), s[1..], now)
  }

  function OfNode(c: Command, s: string, now: nat): Verdict {
    if s == "" then Waits
    else if s[0] != '(' then Refuses
    else
      match EidField(s[1..])
      case Partial => Waits
      case Broken => Refuses
      case Whole(eid, rest) => OfReliability(c.(eid := eid), rest, now)
  }

  function OfReliability(c: Command, s: string, now: nat): Verdict {
    if s == "" || s[0] != ',' then OfMark(c, s, rest => OfCla(c, rest, now))
    else
      match NumberField(s[1..], ":;")
      case Partial => Waits
      case Broken => Refuses
      case Whole(digits, rest) =>
        var c := c.(reliability := ShortNumber(digits));
        if 100 <= c.reliability <= 1000 then OfMark(c, rest, more => OfCla(c, more, now)) else Refuses
  }

  function OfCla(c: Command, s: string, now: nat): Verdict {
    if s == "" || s[0] != '(' then OfMark(c, s, rest => OfList(c, rest, now))
    else
      match ClaField(s[1..])
      case Partial => Waits
      case Broken => Refuses
      case Whole(addr, rest) =>
        var c := c.(claAddr := addr);
        OfMark(c, rest, more => OfList(c, more, now))
  }

  function OfList(c: Command, s: string, now: nat): Verdict {
    if s == "" || s[0] != '[' then OfMark(c, s, rest => OfContacts(c, rest, now))
    else
      match ListField(s[1..])
      case Partial => Waits
      case Broken => Refuses
      case Whole(eids, rest) =>
        var c := c.(endpoints := eids);
        OfMark(c, rest, more => OfContacts(c, more, now))
  }

  function OfContacts(c: Command, s: string, now: nat): Verdict {
    if s == "" || s[0] != '[' then OfEnd(c, s)
    else
      match ContactsField(s[1..], now)
      case Partial => Waits
      case Broken => Refuses
      case Whole(contacts, rest) => OfEnd(c.(contacts := contacts), rest)
  }

  function OfEnd(c: Command, s: string): Verdict {
    if s == "" then Waits else if s[0] == ';' then Accepts(c) else Refuses
  }

  // ---- what the parser makes of it ----

  ghost predicate Judged(r: Parser, v: Verdict) {
    match v
    case Accepts(c) => r.status == Done && r.command == c
    case Refuses => r.status == Error
    case Waits => r.status == Good
  }

  lemma {:induction false} First(p: Parser, s: string)
    requires s != ""
    ensures ReadAll(p, s) == ReadAll(ReadByte(p, s[0]), s[1..])
  {
    ReadAllAppend(p, s[..1], s[1..]);
    assert s[..1] + s[1..] == s;
    assert s[..1][..0] == "" && s[..1][0] == s[0] && ReadAll(p, "") == p;
  }

  lemma {:induction false} Stays(p: Parser, s: string)
    requires p.status != Good
    ensures ReadAll(p, s) == p
    decreases |s|
  {
    if s != "" { Stays(p, s[..|s| - 1]); }
  }

  lemma {:induction false} Nothing(p: Parser)
    ensures ReadAll(p, "") == p
  {
  }

  /** The parser takes a field: it comes to a state that depends on the value and goes on, fails or waits. */
  ghost predicate Takes<T>(r: Parser, field: Field<T>, done: T -> Parser) {
    match field
    case Whole(value, rest) => r == ReadAll(done(value), rest)
    case Broken => r.status == Error
    case Partial => r.status == Good
  }

  lemma {:induction false} SpanStep(s: string, ok: char -> bool)
    requires s != "" && ok(s[0])
    ensures Span(s, ok) == 1 + Span(s[1..], ok)
    ensures s[..Span(s, ok)] == [s[0]] + s[1..][..Span(s[1..], ok)]
    ensures s[Span(s, ok)..] == s[1..][Span(s[1..], ok)..]
  {
  }

  /** The states of a text: one character more, its end, or a failure. */
  ghost predicate NextOfText(r: Parser, at: string -> Parser, done: string -> Parser, ok: char -> bool, t: string,
      c: char)
  {
    if c == ')' then r == done(t) else if ok(c) then r == at(t + [c]) else r.status == Error
  }

  ghost predicate ReadsText(at: string -> Parser, done: string -> Parser, ok: char -> bool) {
    && (forall t :: at(t).status == Good)
    && (forall t, c :: NextOfText(ReadByte(at(t), c), at, done, ok, t, c))
  }

  lemma {:induction false} TextTaken(at: string -> Parser, done: string -> Parser, ok: char -> bool, got: string,
      s: string)
    requires ReadsText(at, done, ok)
    ensures Takes(ReadAll(at(got), s), TextField(s, ok), t => done(got + t))
    decreases |s|
  {
    var allowed := c => ok(c) && c != ')';
    if s == "" {
      Nothing(at(got));
    } else {
      var c := s[0];
      First(at(got), s);
      assert NextOfText(ReadByte(at(got), c), at, done, ok, got, c);
      if allowed(c) {
        TextTaken(at, done, ok, got + [c], s[1..]);
        SpanStep(s, allowed);
        TextStep(got, s, ok);
      } else if c == ')' {
        assert got + s[..0] == got;
      } else {
        Stays(ReadByte(at(got), c), s[1..]);
      }
    }
  }

  /** A field that starts one character earlier. */
  lemma {:induction false} TextStep(got: string, s: string, ok: char -> bool)
    requires s != "" && ok(s[0]) && s[0] != ')'
    ensures match TextField(s[1..], ok)
            case Whole(t, rest) => TextField(s, ok) == Whole([s[0]] + t, rest)
                && (got + [s[0]]) + t == got + ([s[0]] + t)
            case Broken => TextField(s, ok) == Broken
            case Partial => TextField(s, ok) == Partial
  {
    SpanStep(s, c => ok(c) && c != ')');
  }

  /** The states of a number: one digit more, or something else, which is a failure unless it may end the number. */
  ghost predicate NextOfNumber(r: Parser, at: string -> Parser, ends: string, t: string, c: char) {
    if Digit(c) then r == at(t + [c]) else c in ends || r.status == Error
  }

  ghost predicate ReadsNumber(at: string -> Parser, ends: string) {
    && (forall t :: at(t).status == Good)
    && (forall t, c :: NextOfNumber(ReadByte(at(t), c), at, ends, t, c))
  }

  lemma {:induction false} NumberTaken(at: string -> Parser, ends: string, got: string, s: string)
    requires ReadsNumber(at, ends)
    ensures Takes(ReadAll(at(got), s), NumberField(s, ends), t => at(got + t))
    decreases |s|
  {
    if s == "" {
      Nothing(at(got));
    } else {
      var c := s[0];
      First(at(got), s);
      assert NextOfNumber(ReadByte(at(got), c), at, ends, got, c);
      if Digit(c) {
        NumberTaken(at, ends, got + [c], s[1..]);
        SpanStep(s, Digit);
        NumberStep(got, s, ends);
      } else if c in ends {
        assert got + s[..0] == got && s[0..] == s;
      } else {
        Stays(ReadByte(at(got), c), s[1..]);
      }
    }
  }

  lemma {:induction false} NumberStep(got: string, s: string, ends: string)
    requires s != "" && Digit(s[0])
    ensures match NumberField(s[1..], ends)
            case Whole(t, rest) => NumberField(s, ends) == Whole([s[0]] + t, rest)
                && (got + [s[0]]) + t == got + ([s[0]] + t)
            case Broken => NumberField(s, ends) == Broken
            case Partial => NumberField(s, ends) == Partial
  {
    SpanStep(s, Digit);
  }

  // ---- lists of EIDs ----

  /** The states of a list: before an EID, in one, behind one, and behind the list. */
  datatype ListStates = ListStates(
    before: seq<string> -> Parser, inside: (seq<string>, string) -> Parser, behind: seq<string> -> Parser,
    done: seq<string> -> Parser)

  ghost predicate ReadsList(l: ListStates) {
    && (forall e :: l.before(e).status == Good && l.behind(e).status == Good)
    && (forall e :: ReadsEid(l, e))
    && (forall e, c :: StartOfEid(ReadByte(l.before(e), c), l, e, c))
    && (forall e, c :: EndOfEid(ReadByte(l.behind(e), c), l, e, c))
  }

  ghost predicate ReadsEid(l: ListStates, e: seq<string>) {
    ReadsText(t => l.inside(e, t), t => l.behind(e + [t]), EidChar)
  }

  ghost predicate StartOfEid(r: Parser, l: ListStates, e: seq<string>, c: char) {
    if c == '(' then r == l.inside(e, "") else if c == ']' then r == l.done(e) else r.status == Error
  }

  ghost predicate EndOfEid(r: Parser, l: ListStates, e: seq<string>, c: char) {
    if c == ',' then r == l.before(e) else if c == ']' then r == l.done(e) else r.status == Error
  }

  lemma {:induction false} ListTaken(l: ListStates, got: seq<string>, s: string)
    requires ReadsList(l)
    ensures Takes(ReadAll(l.before(got), s), ListField(s), e => l.done(got + e))
    decreases |s|
  {
    if s == "" {
      Nothing(l.before(got));
    } else {
      var c := s[0];
      First(l.before(got), s);
      assert StartOfEid(ReadByte(l.before(got), c), l, got, c);
      if c == ']' {
        assert got + [] == got;
      } else if c == '(' {
        var at, done := t => l.inside(got, t), t => l.behind(got + [t]);
        assert ReadsEid(l, got);
        TextTaken(at, done, EidChar, "", s[1..]);
        match EidField(s[1..])
        case Whole(eid, rest) =>
          assert "" + eid == eid;
          ListAfterTaken(l, got, eid, rest);
        case Broken =>
        case Partial =>
      } else {
        Stays(ReadByte(l.before(got), c), s[1..]);
      }
    }
  }

  lemma {:induction false} ListAfterTaken(l: ListStates, got: seq<string>, eid: string, s: string)
    requires ReadsList(l)
    ensures Takes(ReadAll(l.behind(got + [eid]), s), ListAfter(eid, s), e => l.done(got + e))
    decreases |s|
  {
    var e := got + [eid];
    if s == "" {
      Nothing(l.behind(e));
    } else {
      var c := s[0];
      First(l.behind(e), s);
      assert EndOfEid(ReadByte(l.behind(e), c), l, e, c);
      if c == ',' {
        ListTaken(l, e, s[1..]);
        match ListField(s[1..])
        case Whole(more, rest) => assert e + more == got + ([eid] + more);
        case Broken =>
        case Partial =>
      } else if c != ']' {
        Stays(ReadByte(l.behind(e), c), s[1..]);
      }
    }
  }

  // ---- contacts ----

  /** The parser in the middle of the contact `c`, between numbers. */
  function Between(p: Parser, stage: Stage, c: Contact): Parser { Reading(p, stage, c, "") }

  lemma SetReading(p: Parser, stage: Stage, a: Contact, digits: string, b: Contact)
    ensures WithContact(Reading(p, stage, a, digits), b) == Reading(p, stage, b, digits)
    ensures Last(Reading(p, stage, a, digits).command.contacts) == a
  {
    SetLastIs(p.command.contacts, a, b);
  }

  lemma NumberStates(p: Parser, stage: Stage, c: Contact, ends: string)
    requires p.status == Good
    requires ((stage == StartTime || stage == EndTime) && ends == ",") || (stage == Bitrate && ends == ",}")
    ensures ReadsNumber(t => Reading(p, stage, c, t), ends)
  {
    forall t, k | Digit(k) ensures ReadByte(Reading(p, stage, c, t), k) == Reading(p, stage, c, t + [k]) {}
    forall t, k | !Digit(k) && k !in ends ensures ReadByte(Reading(p, stage, c, t), k).status == Error {}
  }

  /** The endpoints of the contact `c`. */
  function ContactLists(p: Parser, c: Contact): ListStates {
    ListStates(e => Between(p, ContactNodeStart, c.(endpoints := e)),
               (e, t) => Between(p, ContactNodeEid, c.(endpoints := e + [t])),
               e => Between(p, ContactNodeSeparator, c.(endpoints := e)),
               e => Between(p, ContactEnd, c.(endpoints := e)))
  }

  lemma ContactListsRead(p: Parser, c: Contact)
    requires p.status == Good
    ensures ReadsList(ContactLists(p, c))
  {
    var l := ContactLists(p, c);
    forall e, k ensures StartOfEid(ReadByte(l.before(e), k), l, e, k) {
      SetReading(p, ContactNodeStart, c.(endpoints := e), "", c.(endpoints := e + [""]));
    }
    forall e, k ensures EndOfEid(ReadByte(l.behind(e), k), l, e, k) {}
    forall e ensures ReadsEid(l, e) { ContactEidsRead(p, c, e); }
  }

  lemma ContactEidsRead(p: Parser, c: Contact, e: seq<string>)
    requires p.status == Good
    ensures ReadsEid(ContactLists(p, c), e)
  {
    var l := ContactLists(p, c);
    forall t, k
      ensures NextOfText(ReadByte(l.inside(e, t), k), x => l.inside(e, x), x => l.behind(e + [x]), EidChar, t, k)
    {
      SetReading(p, ContactNodeEid, c.(endpoints := e + [t]), "", c.(endpoints := e + [t + [k]]));
      assert AppendLast(e + [t], k) == e + [t + [k]];
    }
  }

  lemma {:induction false} EndpointsTaken(p: Parser, c: Contact, s: string)
    requires p.status == Good && c.endpoints == []
    ensures Takes(ReadAll(Between(p, ContactNodeListStart, c), s), EndpointsField(s),
                  e => Between(p, ContactSeparator, c.(endpoints := e)))
  {
    var start := Between(p, ContactNodeListStart, c);
    var l := ContactLists(p, c);
    ContactListsRead(p, c);
    if s == "" {
      Nothing(start);
    } else {
      First(start, s);
      if s[0] != '[' {
        Stays(ReadByte(start, s[0]), s[1..]);
      } else {
        assert c.(endpoints := []) == c && ReadByte(start, '[') == l.before([]);
        ListTaken(l, [], s[1..]);
        match ListField(s[1..])
        case Whole(eids, end) =>
          assert [] + eids == eids;
          BraceTaken(p, c.(endpoints := eids), end);
        case Broken =>
        case Partial =>
      }
    }
  }

  lemma {:induction false} BraceTaken(p: Parser, c: Contact, s: string)
    requires p.status == Good
    ensures Takes(ReadAll(Between(p, ContactEnd, c), s), Expect(s, '}'), _ => Between(p, ContactSeparator, c))
  {
    var q := Between(p, ContactEnd, c);
    if s == "" {
      Nothing(q);
    } else {
      First(q, s);
      if s[0] != '}' { Stays(ReadByte(q, s[0]), s[1..]); }
    }
  }

  lemma BitrateEnd(p: Parser, c: Contact, digits: string, end: char)
    requires p.status == Good && end in ",}"
    ensures ReadByte(Reading(p, Bitrate, c, digits), end) ==
            Between(p, if end == ',' then ContactNodeListStart else ContactSeparator,
                    c.(bitrate := Number(digits) % 0x1_0000_0000))
  {
    SetReading(p, Bitrate, c, digits, c.(bitrate := Number(digits) % 0x1_0000_0000));
  }

  lemma {:induction false} BitrateTaken(p: Parser, c: Contact, s: string)
    requires p.status == Good && c.endpoints == []
    ensures Takes(ReadAll(Reading(p, Bitrate, c, ""), s), BitrateField(s, c), d => Between(p, ContactSeparator, d))
  {
    NumberStates(p, Bitrate, c, ",}");
    NumberTaken(t => Reading(p, Bitrate, c, t), ",}", "", s);
    match NumberField(s, ",}")
    case Whole(digits, rest) =>
      assert "" + digits == digits;
      BitrateEnd(p, c, digits, rest[0]);
      First(Reading(p, Bitrate, c, digits), rest);
      if rest[0] != '}' { EndpointsTaken(p, c.(bitrate := Number(digits) % 0x1_0000_0000), rest[1..]); }
    case Broken =>
    case Partial =>
  }

  lemma EndByte(p: Parser, c: Contact, digits: string)
    requires p.status == Good
    ensures var r, d := ReadByte(Reading(p, EndTime, c, digits), ','), c.(to := Number(digits));
      if d.to > d.from && d.to > p.now then r == Reading(p, Bitrate, d, "") else r.status == Error
  {
    SetReading(p, EndTime, c, digits, c.(to := Number(digits)));
  }

  /** The times of a contact. */
  lemma {:induction false} EndTaken(p: Parser, c: Contact, s: string)
    requires p.status == Good && c.endpoints == [] && c.to == 0 && c.bitrate == 0
    ensures Takes(ReadAll(Reading(p, EndTime, c, ""), s), EndField(s, c, p.now), d => Between(p, ContactSeparator, d))
  {
    NumberStates(p, EndTime, c, ",");
    NumberTaken(t => Reading(p, EndTime, c, t), ",", "", s);
    match NumberField(s, ",")
    case Whole(digits, rest) =>
      assert "" + digits == digits;
      var q, d := Reading(p, EndTime, c, digits), c.(to := Number(digits));
      EndByte(p, c, digits);
      First(q, rest);
      if d.to > d.from && d.to > p.now {
        BitrateTaken(p, d, rest[1..]);
      } else {
        Stays(ReadByte(q, ','), rest[1..]);
      }
    case Broken =>
    case Partial =>
  }

  lemma StartByte(p: Parser, c: Contact, digits: string)
    requires p.status == Good
    ensures ReadByte(Reading(p, StartTime, c, digits), ',') == Reading(p, EndTime, c.(from := Number(digits)), "")
  {
    SetReading(p, StartTime, c, digits, c.(from := Number(digits)));
  }

  lemma {:induction false} ContactTaken(p: Parser, s: string)
    requires p.status == Good
    ensures Takes(ReadAll(Reading(p, StartTime, Contact(0, 0, 0, []), ""), s), ContactField(s, p.now),
                  d => Between(p, ContactSeparator, d))
  {
    var c := Contact(0, 0, 0, []);
    NumberStates(p, StartTime, c, ",");
    NumberTaken(t => Reading(p, StartTime, c, t), ",", "", s);
    match NumberField(s, ",")
    case Whole(digits, rest) =>
      assert "" + digits == digits;
      StartByte(p, c, digits);
      First(Reading(p, StartTime, c, digits), rest);
      EndTaken(p, c.(from := Number(digits)), rest[1..]);
    case Broken =>
    case Partial =>
  }

  // ---- the list of contacts ----

  function WithContacts(p: Parser, stage: Stage, contacts: seq<Contact>): Parser {
    p.(stage := stage, digits := "", command := p.command.(contacts := p.command.contacts + contacts))
  }

  lemma {:induction false} ContactsTaken(p: Parser, s: string)
    requires p.status == Good && p.stage == ContactStart && p.digits == ""
    ensures Takes(ReadAll(p, s), ContactsField(s, p.now), cs => WithContacts(p, CommandEnd, cs))
    decreases |s|
  {
    if s == "" {
      Nothing(p);
    } else {
      var c := s[0];
      First(p, s);
      if c == ']' {
        assert p.command.contacts + [] == p.command.contacts;
      } else if c == '{' {
        assert ReadByte(p, c) == Reading(p, StartTime, Contact(0, 0, 0, []), "");
        ContactTaken(p, s[1..]);
        match ContactField(s[1..], p.now)
        case Whole(d, rest) => ContactsAfterTaken(p, d, rest);
        case Broken =>
        case Partial =>
      } else {
        Stays(ReadByte(p, c), s[1..]);
      }
    }
  }

  lemma SeparatorByte(p: Parser, d: Contact)
    requires p.status == Good && p.stage == ContactStart && p.digits == ""
    ensures ReadByte(Between(p, ContactSeparator, d), ',') == WithContacts(p, ContactStart, [d])
  {
  }

  lemma {:induction false} MoreContacts(p: Parser, d: Contact, r: Parser, field: Field<seq<Contact>>)
    requires Takes(r, field, cs => WithContacts(WithContacts(p, ContactStart, [d]), CommandEnd, cs))
    ensures field.Whole? ==> r == ReadAll(WithContacts(p, CommandEnd, [d] + field.value), field.rest)
  {
    if field.Whole? {
      assert (p.command.contacts + [d]) + field.value == p.command.contacts + ([d] + field.value);
    }
  }

  lemma {:induction false} ContactsAfterTaken(p: Parser, d: Contact, s: string)
    requires p.status == Good && p.stage == ContactStart && p.digits == ""
    ensures Takes(ReadAll(Between(p, ContactSeparator, d), s), ContactsAfter(d, s, p.now),
                  cs => WithContacts(p, CommandEnd, cs))
    decreases |s|
  {
    var q := Between(p, ContactSeparator, d);
    if s == "" {
      Nothing(q);
    } else {
      var c := s[0];
      First(q, s);
      if c == ',' {
        SeparatorByte(p, d);
        ContactsTaken(WithContacts(p, ContactStart, [d]), s[1..]);
        MoreContacts(p, d, ReadAll(q, s), ContactsField(s[1..], p.now));
      } else if c != ']' {
        Stays(ReadByte(q, c), s[1..]);
      }
    }
  }

  // ---- commands ----

  /** The stages in which a section can end, the stage of the next one, and what else can come. */
  predicate Ends(stage: Stage, next: Stage, other: string) {
    match stage
    case ReliabilitySeparator => next == ClaStart && other == ","
    case ClaStart => next == NodeListStart && other == "("
    case ClaNodesSeparator => next == NodeListStart && other == ""
    case NodeListStart => next == ContactListStart && other == "["
    case NodesContactsSeparator => next == ContactListStart && other == ""
    case _ => false
  }

  lemma {:induction false} MarkJudged(p: Parser, s: string, to: Stage, other: string, next: string -> Verdict)
    requires p.status == Good && Ends(p.stage, to, other) && (s == "" || s[0] !in other)
    requires s != "" && s[0] == ':' ==> Judged(ReadAll(p.(stage := to), s[1..]), next(s[1..]))
    ensures Judged(ReadAll(p, s), OfMark(p.command, s, next))
  {
    if s == "" {
      Nothing(p);
    } else {
      First(p, s);
      MarkByte(p, s[0], to, other);
      if s[0] != ':' { Stays(ReadByte(p, s[0]), s[1..]); }
    }
  }

  lemma MarkByte(p: Parser, c: char, to: Stage, other: string)
    requires p.status == Good && Ends(p.stage, to, other) && c !in other
    ensures var r := ReadByte(p, c);
      if c == ':' then r == p.(stage := to)
      else if c == ';' then r.status == Done && r.command == p.command
      else r.status == Error
  {
  }

  lemma {:induction false} EndJudged(p: Parser, s: string)
    requires p.status == Good && (p.stage == CommandEnd || (p.stage == ContactListStart && (s == "" || s[0] != '[')))
    ensures Judged(ReadAll(p, s), OfEnd(p.command, s))
  {
    if s == "" {
      Nothing(p);
    } else {
      First(p, s);
      Stays(ReadByte(p, s[0]), s[1..]);
    }
  }

  /** The parser is between two sections. */
  ghost predicate At(p: Parser, stage: Stage) { p.status == Good && p.stage == stage && p.digits == "" }

  lemma {:induction false} ContactsJudged(p: Parser, s: string)
    requires At(p, ContactListStart) && p.command.contacts == []
    ensures Judged(ReadAll(p, s), OfContacts(p.command, s, p.now))
  {
    if s == "" || s[0] != '[' {
      EndJudged(p, s);
    } else {
      First(p, s);
      var q := p.(stage := ContactStart);
      assert ReadByte(p, '[') == q;
      ContactsTaken(q, s[1..]);
      match ContactsField(s[1..], p.now)
      case Whole(contacts, rest) =>
        assert [] + contacts == contacts;
        EndJudged(WithContacts(q, CommandEnd, contacts), rest);
      case Broken =>
      case Partial =>
    }
  }

  /** The endpoints of the node. */
  function NodeLists(p: Parser): ListStates {
    ListStates(e => p.(stage := ListedStart, command := p.command.(endpoints := e)),
               (e, t) => p.(stage := ListedEid, command := p.command.(endpoints := e + [t])),
               e => p.(stage := ListedSeparator, command := p.command.(endpoints := e)),
               e => p.(stage := NodesContactsSeparator, command := p.command.(endpoints := e)))
  }

  lemma NodeEidsRead(p: Parser, e: seq<string>)
    requires p.status == Good
    ensures ReadsEid(NodeLists(p), e)
  {
    var l := NodeLists(p);
    forall t, k
      ensures NextOfText(ReadByte(l.inside(e, t), k), x => l.inside(e, x), x => l.behind(e + [x]), EidChar, t, k)
    {
      assert AppendLast(e + [t], k) == e + [t + [k]];
    }
  }

  lemma NodeListsRead(p: Parser)
    requires p.status == Good
    ensures ReadsList(NodeLists(p))
  {
    var l := NodeLists(p);
    forall e, k ensures StartOfEid(ReadByte(l.before(e), k), l, e, k) {}
    forall e, k ensures EndOfEid(ReadByte(l.behind(e), k), l, e, k) {}
    forall e ensures ReadsEid(l, e) { NodeEidsRead(p, e); }
  }

  lemma {:induction false} ListJudged(p: Parser, s: string)
    requires At(p, NodeListStart) && p.command.contacts == [] && p.command.endpoints == []
    ensures Judged(ReadAll(p, s), OfList(p.command, s, p.now))
  {
    if s == "" || s[0] != '[' {
      if s != "" { ContactsJudged(p.(stage := ContactListStart), s[1..]); }
      MarkJudged(p, s, ContactListStart, "[", rest => OfContacts(p.command, rest, p.now));
    } else {
      First(p, s);
      NodeListsRead(p);
      assert ReadByte(p, '[') == NodeLists(p).before([]);
      ListTaken(NodeLists(p), [], s[1..]);
      match ListField(s[1..])
      case Whole(eids, rest) =>
        assert [] + eids == eids;
        ListMarkJudged(p, eids, rest);
      case Broken =>
      case Partial =>
    }
  }

  lemma {:induction false} ListMarkJudged(p: Parser, eids: seq<string>, rest: string)
    requires At(p, NodeListStart) && p.command.contacts == []
    ensures var c := p.command.(endpoints := eids);
      Judged(ReadAll(NodeLists(p).done(eids), rest), OfMark(c, rest, more => OfContacts(c, more, p.now)))
  {
    var q := NodeLists(p).done(eids);
    if rest != "" { ContactsJudged(q.(stage := ContactListStart), rest[1..]); }
    MarkJudged(q, rest, ContactListStart, "", more => OfContacts(q.command, more, p.now));
  }

  lemma {:induction false} ClaJudged(p: Parser, s: string)
    requires At(p, ClaStart) && p.command.contacts == [] && p.command.endpoints == []
    ensures Judged(ReadAll(p, s), OfCla(p.command, s, p.now))
  {
    if s == "" || s[0] != '(' {
      if s != "" { ListJudged(p.(stage := NodeListStart), s[1..]); }
      MarkJudged(p, s, NodeListStart, "(", rest => OfList(p.command, rest, p.now));
    } else {
      First(p, s);
      ClaTextTaken(p, s[1..]);
      match ClaField(s[1..])
      case Whole(addr, rest) =>
        var q := p.(stage := ClaNodesSeparator, command := p.command.(claAddr := addr));
        if rest != "" { ListJudged(q.(stage := NodeListStart), rest[1..]); }
        MarkJudged(q, rest, NodeListStart, "", more => OfList(q.command, more, p.now));
      case Broken =>
      case Partial =>
    }
  }

  lemma {:induction false} ClaTextTaken(p: Parser, s: string)
    requires At(p, ClaStart)
    ensures Takes(ReadAll(ReadByte(p, '('), s), ClaField(s),
                  t => p.(stage := ClaNodesSeparator, command := p.command.(claAddr := t)))
  {
    var at := t => p.(stage := ClaAddr, command := p.command.(claAddr := t));
    var done := t => p.(stage := ClaNodesSeparator, command := p.command.(claAddr := t));
    forall t, c ensures NextOfText(ReadByte(at(t), c), at, done, ClaChar, t, c) {}
    TextTaken(at, done, ClaChar, "", s);
    assert forall t: string :: "" + t == t;
  }

  lemma {:induction false} NodeTextTaken(p: Parser, s: string)
    requires At(p, NodeStart)
    ensures Takes(ReadAll(ReadByte(p, '('), s), EidField(s),
                  t => p.(stage := ReliabilitySeparator, command := p.command.(eid := t)))
  {
    var at := t => p.(stage := NodeEid, command := p.command.(eid := t));
    var done := t => p.(stage := ReliabilitySeparator, command := p.command.(eid := t));
    forall t, c ensures NextOfText(ReadByte(at(t), c), at, done, EidChar, t, c) {}
    TextTaken(at, done, EidChar, "", s);
    assert forall t: string :: "" + t == t;
  }

  lemma {:induction false} ReliabilityJudged(p: Parser, s: string)
    requires At(p, ReliabilitySeparator) && p.command.contacts == [] && p.command.endpoints == []
    ensures Judged(ReadAll(p, s), OfReliability(p.command, s, p.now))
  {
    if s == "" || s[0] != ',' {
      if s != "" { ClaJudged(p.(stage := ClaStart), s[1..]); }
      MarkJudged(p, s, ClaStart, ",", rest => OfCla(p.command, rest, p.now));
    } else {
      First(p, s);
      var at := t => p.(stage := Reliability, digits := t);
      assert ReadByte(p, ',') == at("");
      forall t, c ensures NextOfNumber(ReadByte(at(t), c), at, ":;", t, c) {}
      NumberTaken(at, ":;", "", s[1..]);
      match NumberField(s[1..], ":;")
      case Whole(digits, rest) =>
        assert "" + digits == digits;
        ThousandthsJudged(p, digits, rest);
      case Broken =>
      case Partial =>
    }
  }

  lemma {:induction false} ThousandthsJudged(p: Parser, digits: string, s: string)
    requires At(p, ReliabilitySeparator) && p.command.contacts == [] && p.command.endpoints == []
    requires s != "" && s[0] in ":;"
    ensures var c := p.command.(reliability := ShortNumber(digits));
      Judged(ReadAll(p.(stage := Reliability, digits := digits), s),
             if 100 <= c.reliability <= 1000 then OfMark(c, s, more => OfCla(c, more, p.now)) else Refuses)
  {
    var q, v := p.(stage := Reliability, digits := digits), ShortNumber(digits);
    First(q, s);
    if 100 <= v <= 1000 && s[0] == ':' {
      ClaJudged(p.(stage := ClaStart, command := p.command.(reliability := v)), s[1..]);
    } else {
      Stays(ReadByte(q, s[0]), s[1..]);
    }
  }

  lemma {:induction false} NodeJudged(p: Parser, s: string)
    requires At(p, NodeStart) && p.command.contacts == [] && p.command.endpoints == []
    ensures Judged(ReadAll(p, s), OfNode(p.command, s, p.now))
  {
    if s == "" {
      Nothing(p);
    } else {
      First(p, s);
      if s[0] != '(' {
        Stays(ReadByte(p, s[0]), s[1..]);
      } else {
        NodeTextTaken(p, s[1..]);
        match EidField(s[1..])
        case Whole(eid, rest) =>
          ReliabilityJudged(p.(stage := ReliabilitySeparator, command := p.command.(eid := eid)), rest);
        case Broken =>
        case Partial =>
      }
    }
  }

  /**
   * Of any characters the parser makes what the language says: the command that they start with, an error, or it
   * waits for more.
   */
  lemma {:induction false} CommandJudged(s: string, now: nat)
    ensures Judged(ReadAll(Begin(now), s), OfCommand(s, now))
  {
    var p := Begin(now);
    if s == "" {
      Nothing(p);
    } else {
      First(p, s);
      if s[0] in "1234" {
        NodeJudged(p.(stage := NodeStart, command := p.command.(kind := s[0])), s[1..]);
      } else {
        Stays(ReadByte(p, s[0]), s[1..]);
      }
    }
  }

  /** One of the stages is never entered: behind a reliability the parser goes on without it. */
  lemma {:induction false} NeverEntered(s: string, now: nat)
    ensures ReadAll(Begin(now), s).stage != ClaSeparator
    decreases |s|
  {
    if s != "" {
      NeverEntered(s[..|s| - 1], now);
      NotEntered(ReadAll(Begin(now), s[..|s| - 1]), s[|s| - 1]);
    }
  }

  lemma NotEntered(p: Parser, c: char)
    requires p.stage != ClaSeparator
    ensures ReadByte(p, c).stage != ClaSeparator
  {
  }
}
