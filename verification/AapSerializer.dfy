/** The serializer (components/aap/aap_serializer.c) and its inverse, the parser. */
module AapSerializer {
  import opened Bytes
  import opened Aap

  function EidPart(m: Message): seq<Octet> { if HasEid(m.kind) then ToBytes(|m.eid|, 2) + m.eid else [] }

  function PayloadPart(m: Message): seq<Octet> {
    if HasPayload(m.kind) then ToBytes(|m.payload|, 8) + m.payload else []
  }

  function IdPart(m: Message): seq<Octet> { if HasId(m.kind) then ToBytes(m.bundleId, 8) else [] }

  function Head(m: Message): Octet { 0x10 + m.kind % 0x10 }

  function Serialize(m: Message): seq<Octet> { [Head(m)] + (EidPart(m) + (PayloadPart(m) + IdPart(m))) }

  /** aap_get_serialized_size */
  function SerializedSize(m: Message): (size: nat)
    ensures size == |Serialize(m)|
  {
    1 + (if HasEid(m.kind) then 2 + |m.eid| else 0)
    + (if HasPayload(m.kind) then 8 + |m.payload| else 0)
    + (if HasId(m.kind) then 8 else 0)
  }

  /** aap_serialize, with the bytes handed to the write function one piece after the other */
  method WriteMessage(m: Message) returns (written: seq<Octet>)
    ensures written == Serialize(m)
  {
    written := [Head(m)];
    var eid := WriteEid(m);
    written := written + eid;
    var payload := WritePayload(m);
    written := written + payload;
    written := written + IdPart(m);
    Associate([Head(m)], eid, payload, IdPart(m));
  }

  lemma Associate(a: seq<Octet>, b: seq<Octet>, c: seq<Octet>, d: seq<Octet>)
    ensures ((a + b) + c) + d == a + (b + (c + d))
  {
  }

  method WriteEid(m: Message) returns (written: seq<Octet>)
    ensures written == EidPart(m)
  {
    written := [];
    if HasEid(m.kind) {
      written := ToBytes(|m.eid|, 2);
      if |m.eid| != 0 { written := written + m.eid; }
    }
  }

  method WritePayload(m: Message) returns (written: seq<Octet>)
    ensures written == PayloadPart(m)
  {
    written := [];
    if HasPayload(m.kind) {
      written := ToBytes(|m.payload|, 8);
      if |m.payload| != 0 { written := written + m.payload; }
    }
  }

  /** A message that the fields of its type and their lengths can express. */
  ghost predicate Expressible(m: Message, max: nat) {
    && (Plain(m.kind) || HasEid(m.kind) || HasId(m.kind))
    && |m.eid| < 0x1_0000 && |m.payload| < 0x1_0000_0000_0000_0000 && m.bundleId < 0x1_0000
    && (!HasEid(m.kind) ==> m.eid == []) && (!HasPayload(m.kind) ==> m.payload == [])
        && (!HasId(m.kind) ==> m.bundleId == 0)
    && (max == 0 || |m.payload| <= max)
  }

  /** The parser reads the message from the first `n` bytes. */
  ghost predicate Reads(s: State, input: seq<Octet>, max: nat, m: Message, n: nat) {
    Drive(s, input, max).status == Done && Drive(s, input, max).message == m && Consumed(s, input, max) == n
  }

  /** After `n` bytes the parser is in another state. */
  ghost predicate Leads(s: State, input: seq<Octet>, max: nat, s': State, rest: seq<Octet>, n: nat) {
    Drive(s, input, max) == Drive(s', rest, max) && Consumed(s, input, max) == n + Consumed(s', rest, max)
  }

  lemma LeadsReads(s: State, input: seq<Octet>, max: nat, s': State, rest: seq<Octet>, n: nat, m: Message, k: nat)
    requires Leads(s, input, max, s', rest, n) && Reads(s', rest, max, m, k)
    ensures Reads(s, input, max, m, n + k)
  {
  }

  /** One stage that takes `head`. */
  lemma {:induction false} Advance(s: State, head: seq<Octet>, rest: seq<Octet>, max: nat)
    requires s.status == Good && head != [] && Taken(s, head + rest) == |head|
    ensures Drive(s, head + rest, max) == Drive(Parse(s, head + rest, max), rest, max)
    ensures Consumed(s, head + rest, max) == |head| + Consumed(Parse(s, head + rest, max), rest, max)
  {
    assert (head + rest)[|head|..] == rest;
  }

  lemma {:induction false} Stopped(s: State, rest: seq<Octet>, max: nat)
    requires s.status != Good
    ensures Drive(s, rest, max) == s && Consumed(s, rest, max) == 0
  {
  }

  lemma {:induction false} AfterType(m: Message, rest: seq<Octet>, max: nat)
    requires Plain(m.kind) || HasEid(m.kind) || HasId(m.kind)
    ensures var s := Reset.(message := Reset.message.(kind := m.kind),
                            stage := if HasEid(m.kind) then EidLengthStage
                                     else if HasId(m.kind) then BundleIdStage else TypeStage,
                            status := if Plain(m.kind) then Done else Good);
      && Drive(Reset, [Head(m)] + rest, max) == Drive(s, rest, max)
      && Consumed(Reset, [Head(m)] + rest, max) == 1 + Consumed(s, rest, max)
  {
    Advance(Reset, [Head(m)], rest, max);
  }

  lemma {:induction false} AfterEidLength(s: State, length: nat, rest: seq<Octet>, max: nat)
    requires s.status == Good && s.stage == EidLengthStage && s.message.eid == [] && length < 0x1_0000
    ensures var s' := s.(remaining := length, stage := EidStage, status := if length == 0 then Done else Good);
      && Drive(s, ToBytes(length, 2) + rest, max) == Drive(s', rest, max)
      && Consumed(s, ToBytes(length, 2) + rest, max) == 2 + Consumed(s', rest, max)
  {
    Pow256Is();
    BigEndianOfBytes(length, 2);
    assert (ToBytes(length, 2) + rest)[..2] == ToBytes(length, 2);
    Advance(s, ToBytes(length, 2), rest, max);
  }

  lemma {:induction false} AfterEid(s: State, eid: seq<Octet>, rest: seq<Octet>, max: nat)
    requires s.status == Good && s.stage == EidStage && s.message.eid == [] && s.remaining == |eid| > 0
    ensures var payload := HasPayload(s.message.kind);
            var s' := s.(message := s.message.(eid := eid), remaining := 0,
                         stage := if payload then PayloadLengthStage else EidStage,
                         status := if payload then Good else Done);
      && Drive(s, eid + rest, max) == Drive(s', rest, max)
      && Consumed(s, eid + rest, max) == |eid| + Consumed(s', rest, max)
  {
    assert (eid + rest)[..|eid|] == eid && [] + eid == eid;
    Advance(s, eid, rest, max);
  }

  lemma {:induction false} AfterPayloadLength(s: State, length: nat, rest: seq<Octet>, max: nat)
    requires s.status == Good && s.stage == PayloadLengthStage && s.message.payload == []
    requires length < 0x1_0000_0000_0000_0000 && (max == 0 || length <= max)
    ensures var s' := s.(remaining := length, stage := PayloadStage, status := if length == 0 then Done else Good);
      && Drive(s, ToBytes(length, 8) + rest, max) == Drive(s', rest, max)
      && Consumed(s, ToBytes(length, 8) + rest, max) == 8 + Consumed(s', rest, max)
  {
    Pow256Is();
    BigEndianOfBytes(length, 8);
    assert (ToBytes(length, 8) + rest)[..8] == ToBytes(length, 8);
    Advance(s, ToBytes(length, 8), rest, max);
  }

  lemma {:induction false} AfterPayload(s: State, payload: seq<Octet>, rest: seq<Octet>, max: nat)
    requires s.status == Good && s.stage == PayloadStage && s.message.payload == [] && s.remaining == |payload| > 0
    ensures var s' := s.(message := s.message.(payload := payload), remaining := 0, status := Done);
      Drive(s, payload + rest, max) == s' && Consumed(s, payload + rest, max) == |payload|
  {
    assert (payload + rest)[..|payload|] == payload && [] + payload == payload;
    Advance(s, payload, rest, max);
    Stopped(s.(message := s.message.(payload := payload), remaining := 0, status := Done), rest, max);
  }

  lemma {:induction false} AfterId(s: State, id: nat, rest: seq<Octet>, max: nat)
    requires s.status == Good && s.stage == BundleIdStage && id < 0x1_0000
    ensures var s' := s.(message := s.message.(bundleId := id), status := Done);
      Drive(s, ToBytes(id, 8) + rest, max) == s' && Consumed(s, ToBytes(id, 8) + rest, max) == 8
  {
    Pow256Is();
    BigEndianOfBytes(id, 8);
    assert (ToBytes(id, 8) + rest)[..8] == ToBytes(id, 8);
    Advance(s, ToBytes(id, 8), rest, max);
    Stopped(s.(message := s.message.(bundleId := id), status := Done), rest, max);
  }

  /** The payload of a message, once its EID is read. */
  lemma {:induction false} ReadPayload(s: State, payload: seq<Octet>, rest: seq<Octet>, max: nat)
    requires s.status == Good && s.stage == PayloadLengthStage && s.message.payload == []
    requires |payload| < 0x1_0000_0000_0000_0000 && (max == 0 || |payload| <= max)
    ensures Reads(s, ToBytes(|payload|, 8) + (payload + rest), max, s.message.(payload := payload), 8 + |payload|)
  {
    AfterPayloadLength(s, |payload|, payload + rest, max);
    var s1 := s.(remaining := |payload|, stage := PayloadStage, status := if payload == [] then Done else Good);
    if payload == [] { Stopped(s1, payload + rest, max); } else { AfterPayload(s1, payload, rest, max); }
  }

  /** The state in which an EID was read. */
  function EidRead(m: Message): State {
    var payload := HasPayload(m.kind);
    State(if payload then PayloadLengthStage else EidStage, if payload then Good else Done,
        Message(m.kind, m.eid, [], 0), 0)
  }

  lemma ReadEid(m: Message, rest: seq<Octet>, max: nat)
    requires HasEid(m.kind) && 0 < |m.eid| < 0x1_0000
    ensures Leads(Begun(m), ToBytes(|m.eid|, 2) + (m.eid + rest), max, EidRead(m), rest, 2 + |m.eid|)
  {
    AfterEidLength(Begun(m), |m.eid|, m.eid + rest, max);
    AfterEid(Begun(m).(remaining := |m.eid|, stage := EidStage), m.eid, rest, max);
  }

  /** The state after the first byte. */
  function Begun(m: Message): State {
    State(if HasEid(m.kind) then EidLengthStage else if HasId(m.kind) then BundleIdStage else TypeStage,
          if Plain(m.kind) then Done else Good, Message(m.kind, [], [], 0), 0)
  }

  lemma ReadEidPart(m: Message, tail: seq<Octet>, max: nat)
    requires HasEid(m.kind) && Expressible(m, max) && m.eid != []
    ensures Reads(Begun(m), EidPart(m) + (PayloadPart(m) + tail), max, m, |EidPart(m)| + |PayloadPart(m)|)
  {
    var rest := PayloadPart(m) + tail;
    Regroup3(ToBytes(|m.eid|, 2), m.eid, rest);
    ReadEid(m, rest, max);
    if HasPayload(m.kind) {
      Regroup3(ToBytes(|m.payload|, 8), m.payload, tail);
      ReadPayload(EidRead(m), m.payload, tail, max);
    } else {
      Stopped(EidRead(m), rest, max);
    }
    LeadsReads(Begun(m), EidPart(m) + rest, max, EidRead(m), rest, |EidPart(m)|, m, |PayloadPart(m)|);
  }

  lemma Regroup3(a: seq<Octet>, b: seq<Octet>, c: seq<Octet>)
    ensures (a + b) + c == a + (b + c)
  {
  }

  /** An empty EID ends the message. */
  lemma ReadEmptyEid(m: Message, rest: seq<Octet>, max: nat)
    requires HasEid(m.kind) && m.eid == []
    ensures Reads(Begun(m), EidPart(m) + rest, max, Message(m.kind, [], [], 0), 2)
  {
    assert EidPart(m) == ToBytes(0, 2);
    AfterEidLength(Begun(m), 0, rest, max);
    Stopped(Begun(m).(stage := EidStage, status := Done), rest, max);
  }

  lemma Regroup(m: Message, tail: seq<Octet>)
    ensures Serialize(m) + tail == [Head(m)] + (EidPart(m) + (PayloadPart(m) + (IdPart(m) + tail)))
  {
  }

  /** What is read of a message: all of it, or of one with an empty EID just the first three bytes. */
  lemma ReadMessage(m: Message, tail: seq<Octet>, max: nat)
    requires Expressible(m, max)
    ensures if HasEid(m.kind) && m.eid == [] then
              Reads(Reset, Serialize(m) + tail, max, Message(m.kind, [], [], 0), 3)
            else Reads(Reset, Serialize(m) + tail, max, m, |Serialize(m)|)
  {
    Regroup(m, tail);
    var rest := EidPart(m) + (PayloadPart(m) + (IdPart(m) + tail));
    AfterType(m, rest, max);
    assert Leads(Reset, Serialize(m) + tail, max, Begun(m), rest, 1);
    if Plain(m.kind) {
      Stopped(Begun(m), rest, max);
    } else if HasId(m.kind) {
      assert rest == ToBytes(m.bundleId, 8) + tail;
      AfterId(Begun(m), m.bundleId, tail, max);
    } else {
      assert IdPart(m) + tail == tail;
      if m.eid == [] {
        ReadEmptyEid(m, PayloadPart(m) + tail, max);
      } else {
        ReadEidPart(m, tail, max);
      }
    }
  }

  /**
   * Parsing a serialized message, whatever follows it, gives the message back after exactly its bytes;
   * just messages with a payload and an empty EID are not read to their end.
   */
  lemma RoundTrip(m: Message, tail: seq<Octet>, max: nat)
    requires Expressible(m, max)
    ensures Reads(Reset, Serialize(m) + tail, max, m, |Serialize(m)|) <==> !(HasPayload(m.kind) && m.eid == [])
  {
    ReadMessage(m, tail, max);
  }

  /** A stream of serialized messages holds exactly these messages. */
  lemma {:induction false} MessagesRoundTrip(messages: seq<Message>, max: nat)
    requires forall m <- messages :: Expressible(m, max) && !(HasPayload(m.kind) && m.eid == [])
    ensures Outcomes(Reset, SerializeAll(messages), max) == ReceivedAll(messages)
  {
    if messages == [] {
      assert Drive(Reset, [], max) == Reset;
    } else {
      var m, rest := messages[0], SerializeAll(messages[1..]);
      assert m in messages && forall x <- messages[1..] :: x in messages;
      RoundTrip(m, rest, max);
      OutcomesStep(Reset, Serialize(m) + rest, max);
      assert (Serialize(m) + rest)[|Serialize(m)|..] == rest;
      MessagesRoundTrip(messages[1..], max);
    }
  }

  function SerializeAll(messages: seq<Message>): seq<Octet> {
    if messages == [] then [] else Serialize(messages[0]) + SerializeAll(messages[1..])
  }

  function ReceivedAll(messages: seq<Message>): seq<Outcome> {
    if messages == [] then [] else [Received(messages[0])] + ReceivedAll(messages[1..])
  }
}
