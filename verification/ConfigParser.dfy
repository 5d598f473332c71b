/**
 * The parser for configuration commands (components/agents/config_parser.c, lines 54-463), byte by byte
 * through its 26 stages.
 */
module ConfigParser {

  datatype Status = Good | Done | Error

  datatype Stage =
    | CommandType | NodeStart | NodeEid | ReliabilitySeparator | Reliability | ClaSeparator
    | ClaStart | ClaAddr | ClaNodesSeparator
    | NodeListStart | ListedStart | ListedEid | ListedSeparator | NodesContactsSeparator
    | ContactListStart | ContactStart | StartTime | EndTime | Bitrate
    | ContactNodeListStart | ContactNodeStart | ContactNodeEid | ContactNodeSeparator
    | ContactEnd | ContactSeparator | CommandEnd

  datatype Contact = Contact(from: nat, to: nat, bitrate: nat, endpoints: seq<string>)

  /** A command for the router; the reliability is kept in thousandths. */
  datatype Command = Command(kind: char, eid: string, reliability: nat, claAddr: string, endpoints: seq<string>,
      contacts: seq<Contact>)

  /** The parser: the command so far and the digits of the number being read; `now` is the time. */
  datatype Parser = Parser(status: Status, stage: Stage, command: Command, digits: string, now: nat)

  function Begin(now: nat): Parser { Parser(Good, CommandType, Command('0', "", 1000, "", [], []), "", now) }

  // ---- characters and numbers ----

  predicate EidChar(c: char) { '!' <= c <= '_' || 'a' <= c <= 'z' || c == '~' }

  predicate ClaChar(c: char) {
    '0' <= c <= '9' || 'A' <= c <= 'Z' || 'a' <= c <= 'z' || c == ':' || c == '.' || c == '[' || c == ']'
  }

  predicate Digit(c: char) { '0' <= c <= '9' }

  function DigitValue(c: char): nat { if Digit(c) then c as int - '0' as int else 0 }

  function Value(digits: string): nat {
    if digits == "" then 0 else 10 * Value(digits[..|digits| - 1]) + DigitValue(digits[|digits| - 1])
  }

  const UINT64_MAX := 0xFFFF_FFFF_FFFF_FFFF

  /** strtoull stops at the largest number. */
  function Number(digits: string): nat { if Value(digits) > UINT64_MAX then UINT64_MAX else Value(digits) }

  /** atoi stops at the largest signed number; its lowest 16 bits are kept. */
  function ShortNumber(digits: string): nat {
    if Value(digits) > UINT64_MAX / 2 then 0xFFFF else Value(digits) % 0x1_0000
  }

  // ---- small changes ----

  function Fail(p: Parser): Parser { p.(status := Error) }

  function Go(p: Parser, stage: Stage): Parser { p.(stage := stage) }

  function Finish(p: Parser): Parser { p.(status := Done) }

  /** A number starts or ends. */
  function GoNumber(p: Parser, stage: Stage): Parser { p.(stage := stage, digits := "") }

  function ReadDigit(p: Parser, c: char): Parser { if Digit(c) then p.(digits := p.digits + [c]) else Fail(p) }

  /** A character goes to the last text of a list. */
  function AppendLast(list: seq<string>, c: char): seq<string> {
    if list == [] then [] else list[|list| - 1 := list[|list| - 1] + [c]]
  }

  function SetLast(list: seq<Contact>, c: Contact): seq<Contact> { if list == [] then [] else list[|list| - 1 := c] }

  function Last(list: seq<Contact>): Contact { if list == [] then Contact(0, 0, 0, []) else list[|list| - 1] }

  function WithContact(p: Parser, c: Contact): Parser {
    p.(command := p.command.(contacts := SetLast(p.command.contacts, c)))
  }

  // ---- read_command ----

  function ReadNode(p: Parser, c: char): Parser {
    match p.stage
    case NodeStart => if c == '(' then Go(p.(command := p.command.(eid := "")), NodeEid) else Fail(p)
    case NodeEid =>
      if c == ')' then Go(p, ReliabilitySeparator)
      else if EidChar(c) then p.(command := p.command.(eid := p.command.eid + [c])) else Fail(p)
    case ReliabilitySeparator =>
      if c == ',' then GoNumber(p, Reliability) else if c == ':' then Go(p, ClaStart) else if c == ';' then Finish(p)
          else Fail(p)
    case Reliability =>
      if c == ':' || c == ';' then
        var v := ShortNumber(p.digits);
        var p := p.(digits := "");
        if v < 100 || v > 1000 then Fail(p)
        else
          var p := Go(p.(command := p.command.(reliability := v)), ClaStart);
          if c == ';' then Finish(p) else p
      else ReadDigit(p, c)
    case ClaSeparator => if c == ':' then Go(p, ClaStart) else if c == ';' then Finish(p) else Fail(p)
    case ClaStart =>
      if c == '(' then Go(p.(command := p.command.(claAddr := "")), ClaAddr)
      else if c == ':' then Go(p, NodeListStart) else if c == ';' then Finish(p) else Fail(p)
    case ClaAddr =>
      if c == ')' then Go(p, ClaNodesSeparator)
      else if ClaChar(c) then p.(command := p.command.(claAddr := p.command.claAddr + [c])) else Fail(p)
    case ClaNodesSeparator => if c == ':' then Go(p, NodeListStart) else if c == ';' then Finish(p) else Fail(p)
    case _ => Fail(p)
  }

  function ReadList(p: Parser, c: char): Parser {
    match p.stage
    case NodeListStart =>
      if c == '[' then Go(p, ListedStart) else if c == ':' then Go(p, ContactListStart) else if c == ';' then Finish(p)
          else Fail(p)
    case ListedStart =>
      if c == '(' then Go(p.(command := p.command.(endpoints := p.command.endpoints + [""])), ListedEid)
      else if c == ']' then Go(p, NodesContactsSeparator) else Fail(p)
    case ListedEid =>
      if c == ')' then Go(p, ListedSeparator)
      else if EidChar(c) then p.(command := p.command.(endpoints := AppendLast(p.command.endpoints, c))) else Fail(p)
    case ListedSeparator =>
      if c == ',' then Go(p, ListedStart) else if c == ']' then Go(p, NodesContactsSeparator) else Fail(p)
    case NodesContactsSeparator => if c == ':' then Go(p, ContactListStart) else if c == ';' then Finish(p) else Fail(p)
    case _ => Fail(p)
  }

  function ReadContact(p: Parser, c: char): Parser {
    var cur := Last(p.command.contacts);
    match p.stage
    case ContactListStart => if c == '[' then Go(p, ContactStart) else if c == ';' then Finish(p) else Fail(p)
    case ContactStart =>
      if c == '{' then GoNumber(p.(command := p.command.(contacts := p.command.contacts + [Contact(0, 0, 0, [])])),
          StartTime)
      else if c == ']' then Go(p, CommandEnd) else Fail(p)
    case StartTime => if c == ',' then GoNumber(WithContact(p, cur.(from := Number(p.digits))), EndTime)
        else ReadDigit(p, c)
    case EndTime =>
      if c == ',' then
        var to := Number(p.digits);
        var p := WithContact(p, cur.(to := to));
        if to > cur.from && to > p.now then GoNumber(p, Bitrate) else Fail(p.(digits := ""))
      else ReadDigit(p, c)
    case Bitrate =>
      if c == ',' || c == '}' then
        GoNumber(WithContact(p, cur.(bitrate := Number(p.digits) % 0x1_0000_0000)),
            if c == ',' then ContactNodeListStart else ContactSeparator)
      else ReadDigit(p, c)
    case ContactNodeListStart => if c == '[' then Go(p, ContactNodeStart) else Fail(p)
    case ContactNodeStart =>
      if c == '(' then Go(WithContact(p, cur.(endpoints := cur.endpoints + [""])), ContactNodeEid)
      else if c == ']' then Go(p, ContactEnd) else Fail(p)
    case ContactNodeEid =>
      if c == ')' then Go(p, ContactNodeSeparator)
      else if EidChar(c) then WithContact(p, cur.(endpoints := AppendLast(cur.endpoints, c))) else Fail(p)
    case ContactNodeSeparator =>
      if c == ',' then Go(p, ContactNodeStart) else if c == ']' then Go(p, ContactEnd) else Fail(p)
    case ContactEnd => if c == '}' then Go(p, ContactSeparator) else Fail(p)
    case ContactSeparator => if c == ',' then Go(p, ContactStart) else if c == ']' then Go(p, CommandEnd) else Fail(p)
    case CommandEnd => if c == ';' then Finish(p) else Fail(p)
    case _ => Fail(p)
  }

  /** Which part of the command a stage belongs to. */
  predicate InNode(s: Stage) {
    s.NodeStart? || s.NodeEid? || s.ReliabilitySeparator? || s.Reliability? || s.ClaSeparator? || s.ClaStart?
        || s.ClaAddr?
    || s.ClaNodesSeparator?
  }

  predicate InList(s: Stage) {
    s.NodeListStart? || s.ListedStart? || s.ListedEid? || s.ListedSeparator? || s.NodesContactsSeparator?
  }

  // ---- config_parser_read_byte ----

  function ReadByte(p: Parser, c: char): Parser {
    if p.status != Good then p
    else if p.stage == CommandType then
      var p := Go(p, NodeStart);
      if '1' <= c <= '4' then p.(command := p.command.(kind := c)) else Fail(p)
    else if InNode(p.stage) then ReadNode(p, c)
    else if InList(p.stage) then ReadList(p, c)
    else ReadContact(p, c)
  }

  function ReadAll(p: Parser, input: string): Parser {
    if input == "" then p else ReadByte(ReadAll(p, input[..|input| - 1]), input[|input| - 1])
  }

  lemma {:induction false} ReadAllAppend(p: Parser, a: string, b: string)
    ensures ReadAll(p, a + b) == ReadAll(ReadAll(p, a), b)
    decreases |b|
  {
    if b == "" {
      assert a + b == a;
    } else {
      ReadAllAppend(p, a, b[..|b| - 1]);
      assert (a + b)[..|a + b| - 1] == a + b[..|b| - 1];
    }
  }

  /** The loop over a buffer: after an error the parser starts anew and the rest of the buffer is ignored. */
  method ReadBuffer(p: Parser, buffer: string) returns (r: Parser)
    requires p.status != Error
    ensures r == if ReadAll(p, buffer).status == Error then Begin(p.now) else ReadAll(p, buffer)
  {
    r := p;
    for i := 0 to |buffer|
      invariant r == ReadAll(p, buffer[..i]) && r.status != Error
    {
      assert buffer[..i + 1][..i] == buffer[..i];
      r := ReadByte(r, buffer[i]);
      if r.status == Error {
        ErrorStays(p, buffer, i + 1);
        return Begin(p.now);
      }
    }
    assert buffer[..|buffer|] == buffer;
  }

  lemma {:induction false} ErrorStays(p: Parser, input: string, i: nat)
    requires i <= |input| && ReadAll(p, input[..i]).status == Error
    ensures ReadAll(p, input).status == Error
  {
    if i < |input| {
      assert input[..|input| - 1][..i] == input[..i];
      ErrorStays(p, input[..|input| - 1], i);
    } else {
      assert input[..i] == input;
    }
  }
}
