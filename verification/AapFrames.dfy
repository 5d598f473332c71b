/** What the bytes of a stream say, read off their positions; the parser says just that of every input. */
module AapFrames {
  import opened Basics
  import opened Bytes
  import opened Aap
  import opened AapSerializer

  /** An outcome and the number of bytes it takes. */
  datatype Frame = Frame(outcome: Outcome, size: nat)

  function Is(kind: nat, eid: seq<Octet>, payload: seq<Octet>, id: nat, size: nat): Option<Frame> {
    Some(Frame(Received(Message(kind, eid, payload, id)), size))
  }

  /**
   * The first frame, if the bytes hold one: half a byte of version, half a byte of type, then the fields of the
   * type. An empty EID ends the message; a payload may have at most `max` bytes, any number if that is 0.
   */
  function First(input: seq<Octet>, max: nat): (r: Option<Frame>)
    ensures r.Some? ==> 0 < r.value.size <= |input|
  {
    if input == [] then None
    else
      var kind: nat := input[0] % 0x10;
      if input[0] / 0x10 != 1 || kind > PING then Some(Frame(Failed, 1))
      else if Plain(kind) then Is(kind, [], [], 0, 1)
      else if HasId(kind) then
        if |input| < 9 then None else Is(kind, [], [], BigEndian(input[1..9]) % 0x1_0000, 9)
      else if |input| < 3 then None
      else FirstWithEid(kind, BigEndian(input[1..3]), input, max)
  }

  function FirstWithEid(kind: nat, length: nat, input: seq<Octet>, max: nat): (r: Option<Frame>)
    requires |input| >= 3
    ensures r.Some? ==> 0 < r.value.size <= |input|
  {
    var end := 3 + length;
    if length == 0 then Is(kind, [], [], 0, 3)
    else if |input| < end then None
    else if !HasPayload(kind) then Is(kind, input[3..end], [], 0, end)
    else if |input| < end + 8 then None
    else
      var size := BigEndian(input[end..end + 8]);
      if max != 0 && size > max then Some(Frame(Failed, end + 8))
      else if |input| < end + 8 + size then None
      else Is(kind, input[3..end], input[end + 8..end + 8 + size], 0, end + 8 + size)
  }

  /** The parser in this state makes of the input what the frame says, or waits for more where there is none. */
  ghost predicate Makes(s: State, input: seq<Octet>, max: nat, frame: Option<Frame>) {
    match frame
    case None => Drive(s, input, max).status == Good
    case Some(f) =>
      && Drive(s, input, max).status != Good && OutcomeOf(Drive(s, input, max)) == f.outcome
      && Consumed(s, input, max) == f.size
  }

  /** A frame that starts some bytes earlier. */
  function Earlier(frame: Option<Frame>, n: nat): Option<Frame> {
    match frame
    case None => None
    case Some(f) => Some(Frame(f.outcome, n + f.size))
  }

  lemma {:induction false} MakesEarlier(s: State, head: seq<Octet>, rest: seq<Octet>, max: nat, frame: Option<Frame>)
    requires s.status == Good && head != [] && Taken(s, head + rest) == |head|
    requires Makes(Parse(s, head + rest, max), rest, max, frame)
    ensures Makes(s, head + rest, max, Earlier(frame, |head|))
  {
    Advance(s, head, rest, max);
  }

  lemma {:induction false} MakesNow(s: State, rest: seq<Octet>, max: nat)
    requires s.status != Good
    ensures Makes(s, rest, max, Some(Frame(OutcomeOf(s), 0)))
  {
  }

  lemma {:induction false} MakesNothing(s: State, input: seq<Octet>, max: nat)
    requires s.status == Good && Taken(s, input) == 0
    ensures Makes(s, input, max, None)
  {
  }

  /** A field that is not complete. */
  lemma {:induction false} PartMakesNothing(s: State, input: seq<Octet>, max: nat)
    requires s.status == Good && (s.stage == EidStage || s.stage == PayloadStage) && |input| < s.remaining
    ensures Makes(s, input, max, None)
  {
    if input == [] {
      MakesNothing(s, input, max);
    } else {
      var s' := Parse(s, input, max);
      MakesNothing(s', [], max);
      assert input + [] == input;
      MakesEarlier(s, input, [], max, None);
    }
  }

  /** `input` is `head` and the rest. */
  lemma Cut(input: seq<Octet>, n: nat)
    requires n <= |input|
    ensures input == input[..n] + input[n..]
  {
  }

  lemma {:induction false} PayloadMakes(s: State, size: nat, input: seq<Octet>, max: nat)
    requires s.status == Good && s.stage == PayloadStage && s.message.payload == [] && s.remaining == size > 0
    ensures Makes(s, input, max, if |input| < size then None
                                 else Some(Frame(Received(s.message.(payload := input[..size])), size)))
  {
    if |input| < size {
      PartMakesNothing(s, input, max);
    } else {
      Cut(input, size);
      AfterPayload(s, input[..size], input[size..], max);
    }
  }

  lemma {:induction false} PayloadLengthMakes(s: State, input: seq<Octet>, max: nat)
    requires s.status == Good && s.stage == PayloadLengthStage && s.message.payload == []
    ensures Makes(s, input, max, WithPayload(s.message, input, max))
  {
    if |input| < 8 {
      MakesNothing(s, input, max);
    } else {
      Cut(input, 8);
      var head, rest := input[..8], input[8..];
      var size := BigEndian(head);
      var s' := Parse(s, input, max);
      if (max != 0 && size > max) || size == 0 {
        MakesNow(s', rest, max);
        MakesEarlier(s, head, rest, max, Some(Frame(OutcomeOf(s'), 0)));
        assert size == 0 ==> input[8..8] == [];
      } else {
        PayloadMakes(s', size, rest, max);
        var frame := if |rest| < size then None else Some(Frame(Received(s.message.(payload := rest[..size])), size));
        MakesEarlier(s, head, rest, max, frame);
        assert |rest| >= size ==> rest[..size] == input[8..8 + size];
      }
    }
  }

  /** The payload of a message, seen from its length on. */
  function WithPayload(m: Message, input: seq<Octet>, max: nat): Option<Frame> {
    if |input| < 8 then None
    else
      var size := BigEndian(input[..8]);
      if max != 0 && size > max then Some(Frame(Failed, 8))
      else if |input| < 8 + size then None
      else Some(Frame(Received(m.(payload := input[8..8 + size])), 8 + size))
  }

  /** The EID of a message and what follows it. */
  function WithEid(kind: nat, length: nat, input: seq<Octet>, max: nat): Option<Frame> {
    if |input| < length then None
    else if !HasPayload(kind) then Is(kind, input[..length], [], 0, length)
    else Earlier(WithPayload(Message(kind, input[..length], [], 0), input[length..], max), length)
  }

  lemma {:induction false} EidMakes(s: State, input: seq<Octet>, max: nat)
    requires s == State(EidStage, Good, Message(s.message.kind, [], [], 0), s.remaining) && s.remaining > 0
    ensures Makes(s, input, max, WithEid(s.message.kind, s.remaining, input, max))
  {
    var length, kind := s.remaining, s.message.kind;
    if |input| < length {
      PartMakesNothing(s, input, max);
    } else {
      Cut(input, length);
      var eid, rest := input[..length], input[length..];
      assert [] + eid == eid && (eid + rest)[..length] == eid;
      var s' := Parse(s, eid + rest, max);
      assert s'.message == Message(kind, eid, [], 0);
      var frame: Option<Frame>;
      if HasPayload(kind) {
        PayloadLengthMakes(s', rest, max);
        frame := WithPayload(s'.message, rest, max);
      } else {
        MakesNow(s', rest, max);
        frame := Some(Frame(OutcomeOf(s'), 0));
      }
      MakesEarlier(s, eid, rest, max, frame);
      assert WithEid(kind, length, input, max) == Earlier(frame, length);
    }
  }

  lemma {:induction false} WithPayloadAt(kind: nat, length: nat, input: seq<Octet>, max: nat)
    requires 3 + length <= |input| && length > 0 && HasPayload(kind)
    ensures Earlier(WithPayload(Message(kind, input[3..3 + length], [], 0), input[3 + length..], max), 3 + length)
            == FirstWithEid(kind, length, input, max)
  {
    var end := 3 + length;
    var rest := input[end..];
    if |rest| >= 8 {
      assert rest[..8] == input[end..end + 8];
      var size := BigEndian(rest[..8]);
      assert |rest| >= 8 + size ==> rest[8..8 + size] == input[end + 8..end + 8 + size];
    }
  }

  lemma {:induction false} WithEidAt(kind: nat, length: nat, input: seq<Octet>, max: nat)
    requires |input| >= 3 && length > 0
    ensures Earlier(WithEid(kind, length, input[3..], max), 3) == FirstWithEid(kind, length, input, max)
  {
    var rest, end := input[3..], 3 + length;
    if |input| >= end {
      assert rest[..length] == input[3..end] && rest[length..] == input[end..];
      if HasPayload(kind) { WithPayloadAt(kind, length, input, max); }
    }
  }

  lemma {:induction false} EidLengthMakes(s: State, input: seq<Octet>, max: nat)
    requires s == State(EidLengthStage, Good, Message(s.message.kind, [], [], 0), 0)
    ensures Makes(s, input, max, if |input| < 2 then None
                                 else if BigEndian(input[..2]) == 0 then Is(s.message.kind, [], [], 0, 2)
                                 else Earlier(WithEid(s.message.kind, BigEndian(input[..2]), input[2..], max), 2))
  {
    if |input| < 2 {
      MakesNothing(s, input, max);
    } else {
      Cut(input, 2);
      var s' := Parse(s, input, max);
      if s'.remaining == 0 {
        MakesNow(s', input[2..], max);
        MakesEarlier(s, input[..2], input[2..], max, Some(Frame(OutcomeOf(s'), 0)));
      } else {
        EidMakes(s', input[2..], max);
        MakesEarlier(s, input[..2], input[2..], max, WithEid(s.message.kind, s'.remaining, input[2..], max));
      }
    }
  }

  lemma {:induction false} IdMakes(s: State, input: seq<Octet>, max: nat)
    requires s == State(BundleIdStage, Good, Message(s.message.kind, [], [], 0), 0)
    ensures Makes(s, input, max, if |input| < 8 then None
                                 else Is(s.message.kind, [], [], BigEndian(input[..8]) % 0x1_0000, 8))
  {
    if |input| < 8 {
      MakesNothing(s, input, max);
    } else {
      Cut(input, 8);
      var s' := Parse(s, input, max);
      MakesNow(s', input[8..], max);
      MakesEarlier(s, input[..8], input[8..], max, Some(Frame(OutcomeOf(s'), 0)));
    }
  }

  lemma TypeIs(input: seq<Octet>, max: nat)
    requires input != []
    ensures var kind := input[0] % 0x10; var s := Parse(Reset, input, max);
      if input[0] / 0x10 != 1 || kind > PING then s.status == Error
      else s == State(if HasEid(kind) then EidLengthStage else if HasId(kind) then BundleIdStage else TypeStage,
                      if Plain(kind) then Done else Good, Message(kind, [], [], 0), 0)
  {
  }

  /** The parser makes of every input what its first frame says, and waits if and only if there is none. */
  lemma {:induction false} FirstExactly(input: seq<Octet>, max: nat)
    ensures Makes(Reset, input, max, First(input, max))
  {
    if input == [] {
      MakesNothing(Reset, input, max);
    } else {
      Cut(input, 1);
      var head, rest := input[..1], input[1..];
      var s := Parse(Reset, input, max);
      TypeIs(input, max);
      if s.status != Good {
        MakesNow(s, rest, max);
        MakesEarlier(Reset, head, rest, max, Some(Frame(OutcomeOf(s), 0)));
      } else if s.stage == BundleIdStage {
        IdMakes(s, rest, max);
        var frame := if |rest| < 8 then None else Is(s.message.kind, [], [], BigEndian(rest[..8]) % 0x1_0000, 8);
        MakesEarlier(Reset, head, rest, max, frame);
        assert |rest| >= 8 ==> rest[..8] == input[1..9];
      } else {
        FirstEid(input, s, max);
      }
    }
  }

  lemma {:induction false} FirstEid(input: seq<Octet>, s: State, max: nat)
    requires input != [] && input[0] / 0x10 == 1 && HasEid(input[0] % 0x10) && s == Parse(Reset, input, max)
    ensures Makes(Reset, input, max, First(input, max))
  {
    Cut(input, 1);
    var head, rest, kind := input[..1], input[1..], input[0] % 0x10;
    EidLengthMakes(s, rest, max);
    if |rest| < 2 {
      MakesEarlier(Reset, head, rest, max, None);
    } else {
      var length := BigEndian(rest[..2]);
      assert rest[..2] == input[1..3] && rest[2..] == input[3..];
      var frame := if length == 0 then Is(kind, [], [], 0, 2) else Earlier(WithEid(kind, length, rest[2..], max), 2);
      MakesEarlier(Reset, head, rest, max, frame);
      if length > 0 { WithEidAt(kind, length, input, max); }
    }
  }

  /** All frames, one after the other. */
  function Frames(input: seq<Octet>, max: nat): seq<Outcome>
    decreases |input|
  {
    match First(input, max)
    case None => []
    case Some(f) => [f.outcome] + Frames(input[f.size..], max)
  }

  /** The messages and errors of a stream are those of its frames. */
  lemma {:induction false} OutcomesAreFrames(input: seq<Octet>, max: nat)
    ensures Outcomes(Reset, input, max) == Frames(input, max)
    decreases |input|
  {
    FirstExactly(input, max);
    OutcomesStep(Reset, input, max);
    if First(input, max).Some? { OutcomesAreFrames(input[First(input, max).value.size..], max); }
  }
}
