/** The parser and the receive loop in the form that updates them in place. */
module AapAgent {
  import opened Bytes
  import opened Aap

  class Parser {
    var stage: Stage
    var status: Status
    var kind: nat
    var eid: seq<Octet>
    var payload: seq<Octet>
    var bundleId: nat
    var remaining: nat

    function Value(): State
      reads this
    {
      State(stage, status, Message(kind, eid, payload, bundleId), remaining)
    }

    constructor ()
      ensures Value() == Reset
    {
      stage, status, kind, eid, payload, bundleId, remaining := TypeStage, Good, 0xFF, [], [], 0, 0;
    }

    /** aap_parser_reset */
    method Restart()
      modifies this
      ensures Value() == Reset
    {
      stage, status, kind, eid, payload, bundleId, remaining := TypeStage, Good, 0xFF, [], [], 0, 0;
    }

    /** The function that the parser's `parse` pointer selects. */
    method ParseNext(input: seq<Octet>, max: nat) returns (n: nat)
      modifies this
      ensures n == Taken(old(Value()), input)
      ensures n == 0 ==> Value() == old(Value())
      ensures n > 0 ==> Value() == Parse(old(Value()), input, max)
    {
      n := Taken(Value(), input);
      if n == 0 { return; }
      match stage {
        case TypeStage => ReadType(input[0]);
        case EidLengthStage =>
          remaining := BigEndian(input[..2]);
          eid := [];
          if remaining == 0 { status := Done; }
          stage := EidStage;
        case EidStage =>
          eid := eid + input[..n];
          remaining := remaining - n;
          if remaining == 0 {
            if kind == SENDBUNDLE || kind == RECVBUNDLE { stage := PayloadLengthStage; } else { status := Done; }
          }
        case PayloadLengthStage =>
          remaining := BigEndian(input[..8]);
          if max != 0 && remaining > max {
            status := Error;
          } else {
            payload := [];
            if remaining == 0 { status := Done; }
            stage := PayloadStage;
          }
        case PayloadStage =>
          payload := payload + input[..n];
          remaining := remaining - n;
          if remaining == 0 { status := Done; }
        case BundleIdStage =>
          bundleId := BigEndian(input[..8]) % 0x1_0000;
          status := Done;
      }
    }

    method ReadType(byte: Octet)
      modifies this`status, this`kind, this`stage
      ensures Value() == ParseType(old(Value()), [byte])
    {
      if byte / 0x10 != 1 {
        status := Error;
        return;
      }
      kind := byte % 0x10;
      if kind == ACK || kind == NACK || kind == PING {
        status := Done;
      } else if kind == REGISTER || kind == SENDBUNDLE || kind == RECVBUNDLE || kind == WELCOME {
        stage := EidLengthStage;
      } else if kind == SENDCONFIRM || kind == CANCELBUNDLE {
        stage := BundleIdStage;
      } else {
        status := Error;
      }
    }

    /** parse_aap */
    method ParseInput(input: seq<Octet>, max: nat) returns (consumed: nat)
      requires StateOk(Value())
      modifies this
      ensures Value() == Drive(old(Value()), input, max) && consumed == Consumed(old(Value()), input, max)
    {
      consumed := 0;
      ghost var s := Value();
      assert input[0..] == input;
      while status == Good && consumed < |input|
        invariant Parsing(s, Value(), input, consumed, max)
        decreases |input| - consumed
      {
        ghost var before := Value();
        var n := ParseNext(input[consumed..], max);
        if n == 0 { break; }
        ParsingStep(s, before, input, consumed, max);
        consumed := consumed + n;
      }
      ParsingEnds(s, Value(), input, consumed, max);
    }
  }

  /** The parser is on its way: from `s` to `now` with the first `consumed` bytes of the input. */
  ghost predicate Parsing(s: State, now: State, input: seq<Octet>, consumed: nat, max: nat) {
    && consumed <= |input| && StateOk(now)
    && Drive(s, input, max) == Drive(now, input[consumed..], max)
    && Consumed(s, input, max) == consumed + Consumed(now, input[consumed..], max)
  }

  lemma ParsingStep(s: State, now: State, input: seq<Octet>, consumed: nat, max: nat)
    requires Parsing(s, now, input, consumed, max) && now.status == Good && Taken(now, input[consumed..]) > 0
    ensures var rest := input[consumed..];
            Parsing(s, Parse(now, rest, max), input, consumed + Taken(now, rest), max)
  {
    var rest := input[consumed..];
    ParseOk(now, rest, max);
    DriveStep(now, rest, max);
    assert rest[Taken(now, rest)..] == input[consumed + Taken(now, rest)..];
  }

  lemma {:induction false} ParsingEnds(s: State, now: State, input: seq<Octet>, consumed: nat, max: nat)
    requires Parsing(s, now, input, consumed, max) && (now.status != Good || Taken(now, input[consumed..]) == 0)
    ensures Drive(s, input, max) == now && Consumed(s, input, max) == consumed
  {
  }

  class Agent {
    const parser: Parser
    const buffer: array<Octet>
    var available: nat
    const max: nat

    ghost predicate Valid()
      reads this, parser, buffer
    {
      available < buffer.Length && 8 <= buffer.Length && ConnectionOk(Kept())
    }

    /** What is kept between receives. */
    ghost function Kept(): Connection
      reads this, parser, buffer
    {
      Connection(parser.Value(), if available <= buffer.Length then buffer[..available] else [])
    }

    constructor (size: nat, max: nat)
      requires size >= 8
      ensures Valid() && fresh(parser) && fresh(buffer) && buffer.Length == size && Kept() == Connection(Reset, [])
      ensures this.max == max
    {
      var p := new Parser();
      parser := p;
      buffer := new Octet[size](_ => 0);
      available := 0;
      this.max := max;
    }

    /** receive_from_socket: what was received is appended, parsed, and the rest moved to the front */
    method ReceiveFromSocket(data: seq<Octet>) returns (out: seq<Outcome>)
      requires Valid() && 0 < |data| <= buffer.Length - available
      modifies this`available, parser, buffer
      ensures Valid() && Kept() == Receive(old(Kept()), data, max).0
      ensures out == Receive(old(Kept()), data, max).1
    {
      ghost var before := Kept();
      Append(data);
      ghost var input := before.buffer + data;
      assert buffer[..available] == input;
      DriveOk(before.parser, input, max);
      BufferHasRoom(before, data, max, buffer.Length);
      var parsed := parser.ParseInput(buffer[..available], max);
      out := [];
      if parser.status != Good {
        out := [if parser.status == Done then Received(Message(parser.kind, parser.eid, parser.payload,
            parser.bundleId)) else Failed];
        parser.Restart();
      }
      ShiftLeft(parsed);
    }

    /** recv into the free part of the buffer */
    method Append(data: seq<Octet>)
      requires available + |data| <= buffer.Length
      modifies this`available, buffer
      ensures available == old(available) + |data|
      ensures buffer[..available] == old(buffer[..available]) + data
    {
      for i := 0 to |data|
        invariant available == old(available)
        invariant buffer[..available + i] == old(buffer[..available]) + data[..i]
      {
        buffer[available + i] := data[i];
        assert buffer[..available + i + 1] == buffer[..available + i] + [data[i]];
        assert data[..i + 1] == data[..i] + [data[i]];
      }
      assert data[..|data|] == data;
      available := available + |data|;
    }

    /** memmove of the bytes that are left */
    method ShiftLeft(n: nat)
      requires n <= available <= buffer.Length
      modifies this`available, buffer
      ensures available == old(available) - n
      ensures buffer[..available] == old(buffer[..available])[n..]
    {
      var left := available - n;
      for i := 0 to left
        invariant available == old(available)
        invariant forall j :: 0 <= j < i ==> buffer[j] == old(buffer[..available])[n + j]
        invariant forall j :: i <= j < available ==> buffer[j] == old(buffer[..available])[j]
      {
        buffer[i] := buffer[n + i];
      }
      available := left;
    }
  }
}
