/**
 * The application agent protocol: its stream parser (components/aap/aap_parser.c), its serializer
 * (components/aap/aap_serializer.c) and the receive loop around the parser
 * (components/agents/posix/application_agent.c, lines 120-138 and 360-403).
 */
module Aap {
  import opened Bytes

  const ACK := 0x0
  const NACK := 0x1
  const REGISTER := 0x2
  const SENDBUNDLE := 0x3
  const RECVBUNDLE := 0x4
  const SENDCONFIRM := 0x5
  const CANCELBUNDLE := 0x6
  const WELCOME := 0x7
  const PING := 0x8

  predicate Plain(kind: nat) { kind == ACK || kind == NACK || kind == PING }
  predicate HasEid(kind: nat) { kind == REGISTER || kind == SENDBUNDLE || kind == RECVBUNDLE || kind == WELCOME }
  predicate HasPayload(kind: nat) { kind == SENDBUNDLE || kind == RECVBUNDLE }
  predicate HasId(kind: nat) { kind == SENDCONFIRM || kind == CANCELBUNDLE }

  datatype Message = Message(kind: nat, eid: seq<Octet>, payload: seq<Octet>, bundleId: nat)

  datatype Stage = TypeStage | EidLengthStage | EidStage | PayloadLengthStage | PayloadStage | BundleIdStage
  datatype Status = Good | Done | Error

  /** The parser: the message as far as it is read, and what is missing of the field being read. */
  datatype State = State(stage: Stage, status: Status, message: Message, remaining: nat)

  const Reset := State(TypeStage, Good, Message(0xFF, [], [], 0), 0)

  function Min(a: nat, b: nat): nat { if a < b then a else b }

  // ---- the stages: the next state and the number of bytes consumed ----

  function ParseType(s: State, input: seq<Octet>): State
    requires input != []
  {
    var kind := input[0] % 0x10;
    if input[0] / 0x10 != 1 then s.(status := Error)
    else
      var s := s.(message := s.message.(kind := kind));
      if Plain(kind) then s.(status := Done)
      else if HasEid(kind) then s.(stage := EidLengthStage)
      else if HasId(kind) then s.(stage := BundleIdStage)
      else s.(status := Error)
  }

  function ParseEidLength(s: State, input: seq<Octet>): State
    requires |input| >= 2
  {
    var length := BigEndian(input[..2]);
    s.(message := s.message.(eid := []), remaining := length, stage := EidStage,
       status := if length == 0 then Done else s.status)
  }

  function ParseEid(s: State, input: seq<Octet>): State {
    var n := Min(|input|, s.remaining);
    var s := s.(message := s.message.(eid := s.message.eid + input[..n]), remaining := s.remaining - n);
    if s.remaining != 0 then s
    else if HasPayload(s.message.kind) then s.(stage := PayloadLengthStage)
    else s.(status := Done)
  }

  /** `max` is the largest payload allowed, 0 for no limit. */
  function ParsePayloadLength(s: State, input: seq<Octet>, max: nat): State
    requires |input| >= 8
  {
    var length := BigEndian(input[..8]);
    if max != 0 && length > max then s.(remaining := length, status := Error)
    else
      s.(message := s.message.(payload := []), remaining := length, stage := PayloadStage,
         status := if length == 0 then Done else s.status)
  }

  function ParsePayload(s: State, input: seq<Octet>): State {
    var n := Min(|input|, s.remaining);
    s.(message := s.message.(payload := s.message.payload + input[..n]), remaining := s.remaining - n,
       status := if s.remaining == n then Done else s.status)
  }

  function ParseBundleId(s: State, input: seq<Octet>): State
    requires |input| >= 8
  {
    s.(message := s.message.(bundleId := BigEndian(input[..8]) % 0x1_0000), status := Done)
  }

  /** How many bytes the current stage takes from the input; 0 if there are too few. */
  function Taken(s: State, input: seq<Octet>): (n: nat)
    ensures n <= |input|
  {
    match s.stage
    case TypeStage => Min(1, |input|)
    case EidLengthStage => if |input| < 2 then 0 else 2
    case EidStage => Min(|input|, s.remaining)
    case PayloadLengthStage => if |input| < 8 then 0 else 8
    case PayloadStage => Min(|input|, s.remaining)
    case BundleIdStage => if |input| < 8 then 0 else 8
  }

  function Parse(s: State, input: seq<Octet>, max: nat): State
    requires Taken(s, input) > 0
  {
    match s.stage
    case TypeStage => ParseType(s, input)
    case EidLengthStage => ParseEidLength(s, input)
    case EidStage => ParseEid(s, input)
    case PayloadLengthStage => ParsePayloadLength(s, input, max)
    case PayloadStage => ParsePayload(s, input)
    case BundleIdStage => ParseBundleId(s, input)
  }

  // ---- parse_aap ----

  /** The parser after as much input as it takes. */
  function Drive(s: State, input: seq<Octet>, max: nat): State
    decreases |input|
  {
    if s.status != Good || Taken(s, input) == 0 then s
    else Drive(Parse(s, input, max), input[Taken(s, input)..], max)
  }

  /** How much that is. */
  function Consumed(s: State, input: seq<Octet>, max: nat): (n: nat)
    ensures n <= |input|
    decreases |input|
  {
    if s.status != Good || Taken(s, input) == 0 then 0
    else Taken(s, input) + Consumed(Parse(s, input, max), input[Taken(s, input)..], max)
  }

  lemma {:induction false} DriveStep(s: State, input: seq<Octet>, max: nat)
    requires s.status == Good && Taken(s, input) > 0
    ensures var s', rest := Parse(s, input, max), input[Taken(s, input)..];
      Drive(s, input, max) == Drive(s', rest, max) && Consumed(s, input, max)
          == Taken(s, input) + Consumed(s', rest, max)
  {
  }

  /** Something is missing of an EID or a payload that is being read. */
  ghost predicate StateOk(s: State) {
    s.status == Good && (s.stage == EidStage || s.stage == PayloadStage) ==> s.remaining > 0
  }

  lemma ParseOk(s: State, input: seq<Octet>, max: nat)
    requires StateOk(s) && s.status == Good && Taken(s, input) > 0
    ensures StateOk(Parse(s, input, max))
  {
  }

  lemma {:induction false} DriveOk(s: State, input: seq<Octet>, max: nat)
    requires StateOk(s)
    ensures StateOk(Drive(s, input, max))
    decreases |input|
  {
    if s.status == Good && Taken(s, input) > 0 {
      ParseOk(s, input, max);
      DriveOk(Parse(s, input, max), input[Taken(s, input)..], max);
    }
  }

  /** While the parser is good it leaves less than eight bytes; it stops being so only by consuming. */
  lemma {:induction false} DriveStops(s: State, input: seq<Octet>, max: nat)
    requires StateOk(s) && s.status == Good
    ensures Drive(s, input, max).status == Good ==> |input| - Consumed(s, input, max) < 8
    ensures Drive(s, input, max).status != Good ==> Consumed(s, input, max) > 0
    decreases |input|
  {
    if Taken(s, input) > 0 {
      ParseOk(s, input, max);
      var s', rest := Parse(s, input, max), input[Taken(s, input)..];
      assert Drive(s, input, max) == Drive(s', rest, max);
      assert Consumed(s, input, max) == Taken(s, input) + Consumed(s', rest, max);
      if s'.status == Good { DriveStops(s', rest, max); }
    }
  }

  // ---- cutting the input ----

  /** The end of the input does not matter to a stage that has enough of it. */
  lemma ParseSame(s: State, a: seq<Octet>, b: seq<Octet>, max: nat)
    requires s.status == Good && Taken(s, a) > 0
    requires (s.stage == EidStage || s.stage == PayloadStage) ==> s.remaining <= |a|
    ensures Taken(s, a + b) == Taken(s, a) && Parse(s, a + b, max) == Parse(s, a, max)
    ensures (a + b)[Taken(s, a)..] == a[Taken(s, a)..] + b
  {
    var n := Taken(s, a);
    assert (a + b)[..n] == a[..n] && (a + b)[0] == a[0];
  }

  /** An EID or a payload can be read in two pieces. */
  lemma ParseSplit(s: State, a: seq<Octet>, b: seq<Octet>, max: nat)
    requires s.status == Good && (s.stage == EidStage || s.stage == PayloadStage) && 0 < |a| < s.remaining && b != []
    ensures var s' := Parse(s, a, max);
      && Taken(s, a) == |a| && s'.status == Good && s'.stage == s.stage && s'.remaining == s.remaining - |a|
      && Taken(s', b) > 0
      && Taken(s, a + b) == |a| + Taken(s', b)
      && Parse(s, a + b, max) == Parse(s', b, max)
      && (a + b)[Taken(s, a + b)..] == b[Taken(s', b)..]
  {
    var n := Min(|a + b|, s.remaining);
    assert a[..|a|] == a;
    assert (a + b)[..n] == a + b[..n - |a|];
    SeqAssociates(s.message.eid, a, b[..n - |a|]);
    SeqAssociates(s.message.payload, a, b[..n - |a|]);
  }

  lemma SeqAssociates(x: seq<Octet>, a: seq<Octet>, b: seq<Octet>)
    ensures x + (a + b) == (x + a) + b
  {
  }

  /** Parsing in two goes is parsing in one. */
  lemma {:induction false} DriveSplit(s: State, a: seq<Octet>, b: seq<Octet>, max: nat)
    requires StateOk(s)
    ensures var s1, n1 := Drive(s, a, max), Consumed(s, a, max);
      && Drive(s, a + b, max) == Drive(s1, a[n1..] + b, max)
      && Consumed(s, a + b, max) == n1 + Consumed(s1, a[n1..] + b, max)
    decreases |a|
  {
    if s.status != Good || Taken(s, a) == 0 {
      assert a[0..] == a;
    } else if (s.stage == EidStage || s.stage == PayloadStage) && s.remaining > |a| {
      DriveSplitField(s, a, b, max);
    } else {
      ParseOk(s, a, max);
      DriveSplit(Parse(s, a, max), a[Taken(s, a)..], b, max);
      ParseSame(s, a, b, max);
      DriveStep(s, a, max);
      DriveStep(s, a + b, max);
      DriveSplitStep((x, y) => Drive(x, y, max), (x, y) => Consumed(x, y, max), s, a, b, Parse(s, a, max), Taken(s, a));
    }
  }

  /** What holds of the rest of the input holds of all of it, whatever drives the parser. */
  lemma DriveSplitStep(drive: (State, seq<Octet>) -> State, consumed: (State, seq<Octet>) -> nat,
      s: State, a: seq<Octet>, b: seq<Octet>, s': State, n: nat)
    requires n <= |a| && drive(s, a) == drive(s', a[n..]) && consumed(s, a) == n + consumed(s', a[n..]) <= |a|
    requires drive(s, a + b) == drive(s', a[n..] + b) && consumed(s, a + b) == n + consumed(s', a[n..] + b)
    requires var s1, n1 := drive(s', a[n..]), consumed(s', a[n..]);
      && drive(s', a[n..] + b) == drive(s1, a[n..][n1..] + b)
      && consumed(s', a[n..] + b) == n1 + consumed(s1, a[n..][n1..] + b)
    ensures var s1, n1 := drive(s, a), consumed(s, a);
      && drive(s, a + b) == drive(s1, a[n1..] + b)
      && consumed(s, a + b) == n1 + consumed(s1, a[n1..] + b)
  {
    DropTwice(a, n, consumed(s', a[n..]));
  }

  lemma DropTwice(a: seq<Octet>, n: nat, m: nat)
    requires n + m <= |a|
    ensures a[n..][m..] == a[n + m..]
  {
  }

  lemma {:induction false} DriveSplitField(s: State, a: seq<Octet>, b: seq<Octet>, max: nat)
    requires s.status == Good && (s.stage == EidStage || s.stage == PayloadStage) && 0 < |a| < s.remaining
    ensures var s1, n1 := Drive(s, a, max), Consumed(s, a, max);
      && Drive(s, a + b, max) == Drive(s1, a[n1..] + b, max)
      && Consumed(s, a + b, max) == n1 + Consumed(s1, a[n1..] + b, max)
  {
    var s' := Parse(s, a, max);
    var empty: seq<Octet> := a[|a|..];
    assert empty == [];
    assert Taken(s', empty) == 0;
    assert Drive(s', empty, max) == s' && Consumed(s', empty, max) == 0;
    assert Drive(s, a, max) == s' && Consumed(s, a, max) == |a|;
    assert empty + b == b;
    if b == [] {
      assert a + b == a;
    } else {
      ParseSplit(s, a, b, max);
    }
  }

  // ---- messages and errors of a stream ----

  datatype Outcome = Received(message: Message) | Failed

  function OutcomeOf(s: State): Outcome { if s.status == Done then Received(s.message) else Failed }

  /** Everything the parser makes of the input. */
  function Outcomes(s: State, input: seq<Octet>, max: nat): seq<Outcome>
    requires StateOk(s) && s.status == Good
    decreases |input|
  {
    DriveStops(s, input, max);
    var s' := Drive(s, input, max);
    if s'.status == Good then []
    else [OutcomeOf(s')] + Outcomes(Reset, input[Consumed(s, input, max)..], max)
  }

  /** What the agent keeps between two receives. */
  datatype Connection = Connection(parser: State, buffer: seq<Octet>)

  ghost predicate ConnectionOk(c: Connection) { StateOk(c.parser) && c.parser.status == Good }

  /** One receive: at most one message or error comes out, the rest of the bytes is kept. */
  function Receive(c: Connection, data: seq<Octet>, max: nat): (Connection, seq<Outcome>) {
    var input := c.buffer + data;
    var s := Drive(c.parser, input, max);
    var rest := input[Consumed(c.parser, input, max)..];
    if s.status == Good then (Connection(s, rest), []) else (Connection(Reset, rest), [OutcomeOf(s)])
  }

  lemma ReceiveOk(c: Connection, data: seq<Octet>, max: nat)
    requires ConnectionOk(c)
    ensures ConnectionOk(Receive(c, data, max).0)
  {
    DriveOk(c.parser, c.buffer + data, max);
  }

  function ReceiveAll(c: Connection, chunks: seq<seq<Octet>>, max: nat): (Connection, seq<Outcome>)
    decreases |chunks|
  {
    if chunks == [] then (c, [])
    else
      var (c', out) := Receive(c, chunks[0], max);
      var (c'', more) := ReceiveAll(c', chunks[1..], max);
      (c'', out + more)
  }

  function Concat(chunks: seq<seq<Octet>>): seq<Octet> {
    if chunks == [] then [] else chunks[0] + Concat(chunks[1..])
  }

  lemma {:induction false} ReceiveAllOk(c: Connection, chunks: seq<seq<Octet>>, max: nat)
    requires ConnectionOk(c)
    ensures ConnectionOk(ReceiveAll(c, chunks, max).0)
    decreases |chunks|
  {
    if chunks != [] {
      ReceiveOk(c, chunks[0], max);
      ReceiveAllOk(Receive(c, chunks[0], max).0, chunks[1..], max);
    }
  }

  /** One receive takes the first outcome, if there is one, and leaves the others to the kept bytes. */
  lemma {:induction false} ReceiveStep(c: Connection, data: seq<Octet>, later: seq<Octet>, max: nat)
    requires ConnectionOk(c)
    ensures var (c', out) := Receive(c, data, max);
      && ConnectionOk(c')
      && Outcomes(c.parser, c.buffer + data + later, max) == out + Outcomes(c'.parser, c'.buffer + later, max)
  {
    ReceiveOk(c, data, max);
    var input := c.buffer + data;
    DriveSplit(c.parser, input, later, max);
    var s, n := Drive(c.parser, input, max), Consumed(c.parser, input, max);
    if s.status != Good {
      assert (input + later)[n..] == input[n..] + later;
    } else {
      GoodOutcomes(c.parser, input, later, max);
    }
  }

  lemma {:induction false} GoodOutcomes(s: State, a: seq<Octet>, b: seq<Octet>, max: nat)
    requires StateOk(s) && s.status == Good && Drive(s, a, max).status == Good
    ensures StateOk(Drive(s, a, max))
    ensures Outcomes(s, a + b, max) == Outcomes(Drive(s, a, max), a[Consumed(s, a, max)..] + b, max)
  {
    DriveOk(s, a, max);
    DriveSplit(s, a, b, max);
    var s1, n1 := Drive(s, a, max), Consumed(s, a, max);
    DropBoth(a, b, n1, Consumed(s1, a[n1..] + b, max));
    SameOutcomes(s, a + b, s1, a[n1..] + b, max);
  }

  lemma DropBoth(a: seq<Octet>, b: seq<Octet>, n: nat, m: nat)
    requires n <= |a| && n + m <= |a| + |b|
    ensures (a + b)[n + m..] == (a[n..] + b)[m..]
  {
  }

  lemma {:induction false} SameOutcomes(s: State, x: seq<Octet>, s': State, y: seq<Octet>, max: nat)
    requires StateOk(s) && s.status == Good && StateOk(s') && s'.status == Good
    requires Drive(s, x, max) == Drive(s', y, max) && x[Consumed(s, x, max)..] == y[Consumed(s', y, max)..]
    ensures Outcomes(s, x, max) == Outcomes(s', y, max)
  {
    OutcomesStep(s, x, max);
    OutcomesStep(s', y, max);
  }

  lemma {:induction false} OutcomesStep(s: State, input: seq<Octet>, max: nat)
    requires StateOk(s) && s.status == Good
    ensures Outcomes(s, input, max) ==
            if Drive(s, input, max).status == Good then []
            else [OutcomeOf(Drive(s, input, max))] + Outcomes(Reset, input[Consumed(s, input, max)..], max)
  {
  }

  /**
   * However the stream is cut: what came out, followed by what the kept bytes still hold, is what the
   * whole stream holds.
   */
  lemma {:induction false} StreamDecides(c: Connection, chunks: seq<seq<Octet>>, max: nat)
    requires ConnectionOk(c)
    ensures var (c', out) := ReceiveAll(c, chunks, max);
      && ConnectionOk(c')
      && Outcomes(c.parser, c.buffer + Concat(chunks), max) == out + Outcomes(c'.parser, c'.buffer, max)
    decreases |chunks|
  {
    ReceiveAllOk(c, chunks, max);
    if chunks == [] {
      assert c.buffer + [] == c.buffer;
    } else {
      var (c1, out) := Receive(c, chunks[0], max);
      var later := Concat(chunks[1..]);
      ReceiveStep(c, chunks[0], later, max);
      assert c.buffer + Concat(chunks) == c.buffer + chunks[0] + later;
      StreamDecides(c1, chunks[1..], max);
      var (c2, more) := ReceiveAll(c1, chunks[1..], max);
      assert out + (more + Outcomes(c2.parser, c2.buffer, max)) == (out + more) + Outcomes(c2.parser, c2.buffer, max);
    }
  }

  /** Between receives there is always room in the buffer. */
  lemma BufferHasRoom(c: Connection, data: seq<Octet>, max: nat, size: nat)
    requires ConnectionOk(c) && size >= 8 && |c.buffer + data| <= size
    ensures |Receive(c, data, max).0.buffer| < size
  {
    DriveStops(c.parser, c.buffer + data, max);
  }

  /** The messages and errors that the kept bytes hold already. */
  function Waiting(c: Connection, max: nat): seq<Outcome>
    requires StateOk(c.parser) && c.parser.status == Good
  {
    Outcomes(c.parser, c.buffer, max)
  }

  /** One receive brings out exactly one of those that wait or come with it; the others wait on. */
  lemma {:induction false} OneComesOut(c: Connection, data: seq<Octet>, max: nat)
    requires ConnectionOk(c)
    ensures var (c', out) := Receive(c, data, max); var all := Outcomes(c.parser, c.buffer + data, max);
      && ConnectionOk(c')
      && out == (if all == [] then [] else all[..1])
      && Waiting(c', max) == if all == [] then [] else all[1..]
  {
    ReceiveStep(c, data, [], max);
    var (c', out) := Receive(c, data, max);
    assert c.buffer + data + [] == c.buffer + data && c'.buffer + [] == c'.buffer;
    OutcomesStep(c.parser, c.buffer + data, max);
  }

  /** There are never more of them than receives. */
  lemma {:induction false} NoMoreThanReceives(c: Connection, chunks: seq<seq<Octet>>, max: nat)
    requires ConnectionOk(c)
    ensures |ReceiveAll(c, chunks, max).1| <= |chunks|
    decreases |chunks|
  {
    if chunks != [] {
      ReceiveOk(c, chunks[0], max);
      NoMoreThanReceives(Receive(c, chunks[0], max).0, chunks[1..], max);
    }
  }

  /**
   * Everything in a stream has come out if and only if the kept bytes decide nothing more; so something
   * waits whenever it holds more messages and errors than there were receives.
   */
  lemma {:induction false} AllOutExactly(c: Connection, chunks: seq<seq<Octet>>, max: nat)
    requires ConnectionOk(c)
    ensures var (c', out) := ReceiveAll(c, chunks, max); var all := Outcomes(c.parser, c.buffer + Concat(chunks), max);
      && StateOk(c'.parser) && c'.parser.status == Good
      && (out == all <==> Drive(c'.parser, c'.buffer, max).status == Good)
      && (|all| > |chunks| ==> Waiting(c', max) != [])
  {
    StreamDecides(c, chunks, max);
    NoMoreThanReceives(c, chunks, max);
    var (c', out) := ReceiveAll(c, chunks, max);
    OutcomesStep(c'.parser, c'.buffer, max);
  }

  /** Two messages in one receive: the second one waits for the next receive. */
  lemma SecondMessageWaits()
    ensures var ping: Octet := 0x18; var start := Connection(Reset, []);
      && |ReceiveAll(start, [[ping, ping]], 0).1| == 1
      && |ReceiveAll(start, [[ping], [ping]], 0).1| == 2
  {
    var ping: Octet := 0x18;
    var start := Connection(Reset, []);
    var done := Reset.(status := Done, message := Reset.message.(kind := PING));
    forall rest: seq<Octet> ensures Drive(Reset, [ping] + rest, 0) == done && Consumed(Reset, [ping] + rest, 0) == 1 {
      assert Parse(Reset, [ping] + rest, 0) == done;
      assert Drive(done, ([ping] + rest)[1..], 0) == done && Consumed(done, ([ping] + rest)[1..], 0) == 0;
    }
    var none: seq<Octet> := [];
    assert [ping, ping] == [ping] + [ping] && [ping] == [ping] + none;
    assert [] + [ping, ping] == [ping] + [ping] && [] + [ping] == [ping] + none;
    assert Receive(start, [ping], 0) == (start, [Received(done.message)]) by { assert ([ping] + none)[1..] == []; }
    assert Receive(start, [ping, ping], 0).1 == [Received(done.message)];
    assert ReceiveAll(start, [[ping]], 0).1 == [Received(done.message)] + [] by { assert [[ping]][1..] == []; }
    assert [[ping], [ping]][1..] == [[ping]] && [[ping, ping]][1..] == [];
  }
}
