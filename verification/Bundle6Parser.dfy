/**
 * The byte automaton that reads a BPv6 bundle (components/bundle6/parser.c, lines 169-640; section 4.5
 * of RFC 5050). The sixteen numbers of the primary block are kept in the order in which they come.
 */
module Bundle6Parser {
  import opened Basics
  import Sdnv
  import opened Bundle6Dictionary

  type Octet = Sdnv.Octet

  datatype Status = Good | Done | Error

  /** The stages; Number(k) reads the k-th number of the primary block. */
  datatype Stage =
    | Version | Number(k: nat) | Dict
    | BlockType | BlockFlags | RefCount | RefScheme | RefSsp | DataLength | Data | Complete

  const FLAGS := 0
  const LENGTH := 1
  /** From here on scheme and scheme-specific part of destination, source, report-to and custodian. */
  const OFFSETS := 2
  const TIMESTAMP := 10
  const SEQUENCE := 11
  const LIFETIME := 12
  const DICT_LENGTH := 13
  const OFFSET := 14
  const TOTAL := 15

  function WidthOf(k: nat): Sdnv.Width {
    if k == FLAGS then Sdnv.U32 else if k < TIMESTAMP then Sdnv.U16 else if k <= LIFETIME then Sdnv.U64
    else if k == DICT_LENGTH then Sdnv.U16 else Sdnv.U32
  }

  datatype Block = Block(kind: nat, flags: nat, refs: seq<Text>, data: seq<Octet>)

  type Numbers = s: seq<nat> | |s| == 16 witness [0, 0, 0, 0, 0, 0, 0, 0, 0, 0, 0, 0, 0, 0, 0, 0]

  /** What the primary block says and the blocks behind it. */
  datatype Bundle = Bundle(version: nat, numbers: Numbers, eids: seq<Text>, blocks: seq<Block>)

  datatype Parser = Parser(
    status: Status, stage: Stage, primary: bool, sdnv: Sdnv.State,
    primaryLeft: nat, left: nat, size: nat, quota: nat, dict: seq<Octet>,
    scheme: nat, refs: nat, length: nat, last: bool,
    bundle: Bundle, current: Block, sent: Option<Bundle>)

  const UINT16 := 0x1_0000
  const UINT32 := 0x1_0000_0000
  const UINT64 := 0x1_0000_0000_0000_0000
  const PAYLOAD := 1

  function Begin(used: nat, quota: nat): Parser {
    Parser(Good, Version, true, Sdnv.Reset, 0, 0, used, quota, [], 0, 0, 0, false,
           Bundle(0, [0, 0, 0, 0, 0, 0, 0, 0, 0, 0, 0, 0, 0, 0, 0, 0], [], []), Block(0, 0, [], []), None)
  }

  function Fail(p: Parser): Parser { p.(status := Error) }

  function SetNumber(p: Parser, k: nat, v: nat): Parser
    requires k < 16
  {
    p.(bundle := p.bundle.(numbers := p.bundle.numbers[k := v]))
  }

  function NumberAt(p: Parser, k: nat): nat { if k < 16 then p.bundle.numbers[k] else 0 }

  // ---- bundle6_parser_next ----

  function EnterNumber(p: Parser, k: nat): Parser {
    var p := p.(stage := Number(k), sdnv := Sdnv.Reset);
    if k == OFFSETS then p.(primaryLeft := NumberAt(p, LENGTH))
    else if k == DICT_LENGTH then SetNumber(p, LIFETIME, NumberAt(p, LIFETIME) * 1000000 % UINT64)
    else p
  }

  function EnterDict(p: Parser): Parser {
    var n := NumberAt(p, DICT_LENGTH);
    var p := p.(stage := Dict);
    if n == 0 then Fail(p)
    else
      var size := (p.size + n + 1) % UINT32;
      if size > p.quota then Fail(p.(left := n, size := size)) else p.(left := n, size := size, dict := [])
  }

  function EnterData(p: Parser): Parser {
    var size := (p.size + p.length) % UINT32;
    var p := p.(stage := Data, left := 0, size := size);
    if size > p.quota then Fail(p) else p
  }

  function EnterComplete(p: Parser): Parser {
    var valid := exists i :: 0 <= i < |p.bundle.blocks| && p.bundle.blocks[i].kind == PAYLOAD;
    p.(stage := Complete, status := Done, sent := if valid then Some(p.bundle) else None)
  }

  function EnterSdnv(p: Parser, stage: Stage): Parser { p.(stage := stage, sdnv := Sdnv.Reset) }

  // ---- bundle6_parser_read_byte ----

  /** What follows a number. */
  function AfterNumber(p: Parser, k: nat): Parser {
    if k < DICT_LENGTH || k == OFFSET then EnterNumber(p, k + 1)
    else if k == DICT_LENGTH then EnterDict(p)
    else p.(stage := BlockType, primary := false)
  }

  /** The `i`-th EID, by its two offsets in the dictionary. */
  function EidAt(p: Parser, i: nat): Option<Text> {
    ReadEid(p.dict, NumberAt(p, OFFSETS + 2 * i), NumberAt(p, OFFSETS + 2 * i + 1))
  }

  /** The four EIDs, once the dictionary is there. */
  function ReadEids(p: Parser): Option<seq<Text>> {
    if EidAt(p, 0).None? || EidAt(p, 1).None? || EidAt(p, 2).None? || EidAt(p, 3).None? then None
    else Some([EidAt(p, 0).value, EidAt(p, 1).value, EidAt(p, 2).value, EidAt(p, 3).value])
  }

  function EndDict(p: Parser): Parser {
    match ReadEids(p)
    case None => Fail(p)
    case Some(eids) =>
      var p := p.(bundle := p.bundle.(eids := eids));
      if NumberAt(p, FLAGS) % 2 == 1 then EnterNumber(p, OFFSET) else p.(stage := BlockType, primary := false)
  }

  function ReadDict(p: Parser, byte: Octet): Parser {
    var p := p.(left := if p.left > 0 then p.left - 1 else UINT32 - 1, dict := p.dict + [byte]);
    if p.left == 0 then EndDict(p) else p
  }

  /** The stages that read a number, and its width. */
  predicate ReadsSdnv(stage: Stage) {
    match stage
    case Number(k) => k < 16
    case BlockFlags => true
    case RefCount => true
    case RefScheme => true
    case RefSsp => true
    case DataLength => true
    case _ => false
  }

  function WidthAt(stage: Stage): Sdnv.Width {
    match stage
    case Number(k) => WidthOf(k)
    case BlockFlags => Sdnv.U8
    case RefScheme => Sdnv.U16
    case RefSsp => Sdnv.U16
    case _ => Sdnv.U32
  }

  /** The flags of a block: bit 3 marks the last one, bit 6 says that EID references follow. */
  function EndFlags(p: Parser, v: nat): Parser {
    var p := p.(current := p.current.(flags := v), last := v / 8 % 2 == 1);
    EnterSdnv(p, if v / 64 % 2 == 1 then RefCount else DataLength)
  }

  function EndReference(p: Parser, v: nat): Parser {
    match ReadEid(p.dict, p.scheme, v)
    case None => Fail(p)
    case Some(eid) =>
      var p := p.(current := p.current.(refs := [eid] + p.current.refs), refs := p.refs + 1);
      EnterSdnv(p, if p.refs == p.size then DataLength else RefScheme)
  }

  /** What follows a number; the count of EID references is kept where the size of the bundle was counted. */
  function Finish(p: Parser, v: nat): Parser
    requires ReadsSdnv(p.stage)
  {
    match p.stage
    case Number(k) => AfterNumber(SetNumber(p, k, v), k)
    case BlockFlags => EndFlags(p, v)
    case RefCount => EnterSdnv(p.(size := v, refs := 0), if v == 0 then DataLength else RefScheme)
    case RefScheme => EnterSdnv(p.(scheme := v), RefSsp)
    case RefSsp => EndReference(p, v)
    case DataLength => EnterData(p.(length := v))
  }

  function ReadSdnv(p: Parser, byte: Octet): Parser
    requires ReadsSdnv(p.stage)
  {
    var s := Sdnv.Step(WidthAt(p.stage), p.sdnv, byte);
    var p := p.(sdnv := s);
    match s.status
    case InProgress => p
    case Error => Fail(p)
    case Done => Finish(p, s.value)
  }

  /** The zero byte that follows the data of a block. */
  function EndBlock(p: Parser, data: seq<Octet>): Parser {
    var p := p.(bundle := p.bundle.(blocks := p.bundle.blocks + [p.current.(data := data)]));
    if p.last then EnterComplete(p) else p.(stage := BlockType, primary := false)
  }

  /** Whether the bytes announced for the primary block are used up. */
  predicate Exhausted(p: Parser) {
    p.primary && p.primaryLeft == 0 && !p.stage.Version? && !(p.stage.Number? && p.stage.k <= LENGTH)
  }

  function Count(p: Parser): Parser {
    if p.primary then p.(primaryLeft := if p.primaryLeft > 0 then p.primaryLeft - 1 else UINT16 - 1) else p
  }

  /** A stage that reads single bytes. */
  function ReadByte(p: Parser, byte: Octet): Parser {
    if Exhausted(p) then Fail(p)
    else
      var p := Count(p);
      if ReadsSdnv(p.stage) then ReadSdnv(p, byte)
      else
        match p.stage
        case Version => EnterNumber(p.(bundle := p.bundle.(version := byte)), FLAGS)
        case Dict => ReadDict(p, byte)
        case BlockType => EnterSdnv(p.(current := Block(byte, 0, [], [])), BlockFlags)
        case _ => Fail(p)
  }

  // ---- bundle6_parser_read ----

  datatype Result = Result(parser: Parser, rest: seq<Octet>)

  /** All bytes that can be read: the data of a block only as a whole. */
  function Read(p: Parser, input: seq<Octet>): Result
    decreases |input|, if p.stage == Data then 1 else 0
  {
    if input == [] || p.status != Good then Result(p, input)
    else if p.stage == Data then
      if |input| < p.length then Result(p, input) else Read(EndBlock(p, input[..p.length]), input[p.length..])
    else Read(ReadByte(p, input[0]), input[1..])
  }

  /** What a call without a buffer does, once the data of a block has been read in bulk: it feeds a zero byte. */
  function Resume(p: Parser, data: seq<Octet>): Parser {
    if p.stage == Data then EndBlock(p, data) else ReadByte(p, 0)
  }

  /** The loop over a buffer; without one, `bulk` is what has been read into the data of the block. */
  method ReadBuffer(p: Parser, buffer: Option<seq<Octet>>, bulk: seq<Octet>) returns (r: Parser, i: nat)
    ensures buffer.None? ==> r == Resume(p, bulk) && i == 0
    ensures buffer.Some? ==> i <= |buffer.value| && Read(p, buffer.value) == Result(r, buffer.value[i..])
  {
    if buffer == None { return Resume(p, bulk), 0; }
    r, i := ReadLoop(p, buffer.value);
  }

  /** How many bytes the next step takes. */
  function Need(p: Parser): nat { if p.stage == Data then p.length else 1 }

  function Take(p: Parser, bytes: seq<Octet>): Parser
    requires |bytes| == Need(p)
  {
    if p.stage == Data then EndBlock(p, bytes) else ReadByte(p, bytes[0])
  }

  method ReadLoop(p: Parser, buffer: seq<Octet>) returns (r: Parser, i: nat)
    ensures i <= |buffer| && Read(p, buffer) == Result(r, buffer[i..])
  {
    r, i := p, 0;
    assert buffer[0..] == buffer;
    while i < |buffer| && r.status == Good
      invariant i <= |buffer| && GoesOn(p, buffer, r, i)
      decreases |buffer| - i, if r.stage == Data then 1 else 0
    {
      var n := Need(r);
      if i + n > |buffer| { break; }
      ReadStep(p, buffer, r, i);
      TakeAdvances(r, buffer[i..i + n]);
      r, i := Take(r, buffer[i..i + n]), i + n;
    }
    ReadStops(p, buffer, r, i);
  }

  /** Reading the buffer is reading on from `i` with the parser `r`. */
  ghost predicate GoesOn(p: Parser, buffer: seq<Octet>, r: Parser, i: nat) {
    i <= |buffer| && forall rest: seq<Octet> | rest == buffer[i..] :: Read(p, buffer) == Read(r, rest)
  }

  lemma {:induction false} ReadStops(p: Parser, buffer: seq<Octet>, r: Parser, i: nat)
    requires GoesOn(p, buffer, r, i) && (i == |buffer| || r.status != Good || i + Need(r) > |buffer|)
    ensures Read(p, buffer) == Result(r, buffer[i..])
  {
    assert Read(r, buffer[i..]) == Result(r, buffer[i..]);
  }

  lemma TakeAdvances(p: Parser, bytes: seq<Octet>)
    requires |bytes| == Need(p)
    ensures bytes == [] ==> p.stage == Data && Take(p, bytes).stage != Data
  {
  }

  lemma ReadStep(p: Parser, buffer: seq<Octet>, r: Parser, i: nat)
    requires GoesOn(p, buffer, r, i) && i < |buffer| && r.status == Good && i + Need(r) <= |buffer|
    ensures GoesOn(p, buffer, Take(r, buffer[i..i + Need(r)]), i + Need(r))
  {
    var n := Need(r);
    assert buffer[i..][n..] == buffer[i + n..] && buffer[i..][..n] == buffer[i..i + n] && buffer[i..][0] == buffer[i];
    assert Read(p, buffer) == Read(r, buffer[i..]) == Read(Take(r, buffer[i..i + n]), buffer[i + n..]);
  }

  /** Reading in two goes, with what was left over in front of the new bytes, is reading in one. */
  lemma {:induction false} ReadSplit(p: Parser, a: seq<Octet>, b: seq<Octet>)
    ensures Read(p, a + b) == Read(Read(p, a).parser, Read(p, a).rest + b)
    decreases |a|, if p.stage == Data then 1 else 0
  {
    if a == [] {
      assert a + b == b;
    } else if p.status == Good && (p.stage != Data || p.length <= |a|) {
      var n := if p.stage == Data then p.length else 1;
      assert (a + b)[n..] == a[n..] + b && (a + b)[..n] == a[..n] && (a + b)[0] == a[0];
      ReadSplit(if p.stage == Data then EndBlock(p, a[..n]) else ReadByte(p, a[0]), a[n..], b);
    }
  }

  lemma {:induction false} RestFits(p: Parser, a: seq<Octet>)
    ensures |Read(p, a).rest| <= |a|
    decreases |a|, if p.stage == Data then 1 else 0
  {
    if a != [] && p.status == Good && Need(p) <= |a| { RestFits(Take(p, a[..Need(p)]), a[Need(p)..]); }
  }

  // ---- a whole stream ----

  /** The data of a block is taken as soon as it is there, the other bytes one by one. */
  function ReadStream(p: Parser, input: seq<Octet>): Result
    decreases |input|, if p.stage == Data then 1 else 0
  {
    if p.status != Good then Result(p, input)
    else if p.stage == Data then
      if |input| < p.length then Result(p, input) else ReadStream(EndBlock(p, input[..p.length]), input[p.length..])
    else if input == [] then Result(p, input)
    else ReadStream(ReadByte(p, input[0]), input[1..])
  }

  /** Reading a buffer first changes nothing about the stream. */
  lemma {:induction false} BufferOfStream(p: Parser, a: seq<Octet>, b: seq<Octet>)
    ensures ReadStream(p, a + b) == ReadStream(Read(p, a).parser, Read(p, a).rest + b)
    decreases |a|, if p.stage == Data then 1 else 0
  {
    if a == [] {
      assert a + b == b;
    } else if p.status == Good && (p.stage != Data || p.length <= |a|) {
      var n := if p.stage == Data then p.length else 1;
      assert (a + b)[n..] == a[n..] + b && (a + b)[..n] == a[..n] && (a + b)[0] == a[0];
      BufferOfStream(if p.stage == Data then EndBlock(p, a[..n]) else ReadByte(p, a[0]), a[n..], b);
    }
  }

  /**
   * Where a buffer is left, it is used up, its parser is finished, or more data of a block is announced than
   * it holds.
   */
  lemma {:induction false} BufferEnds(p: Parser, a: seq<Octet>)
    ensures var r := Read(p, a);
            r.rest == [] || r.parser.status != Good || (r.parser.stage == Data && |r.rest| < r.parser.length)
    decreases |a|, if p.stage == Data then 1 else 0
  {
    if a != [] && p.status == Good && (p.stage != Data || p.length <= |a|) {
      var n := if p.stage == Data then p.length else 1;
      BufferEnds(if p.stage == Data then EndBlock(p, a[..n]) else ReadByte(p, a[0]), a[n..]);
    }
  }

  lemma {:induction false} StreamRestFits(p: Parser, a: seq<Octet>)
    ensures |ReadStream(p, a).rest| <= |a|
    decreases |a|, if p.stage == Data then 1 else 0
  {
    if p.status == Good && Need(p) <= |a| { StreamRestFits(Take(p, a[..Need(p)]), a[Need(p)..]); }
  }
}
