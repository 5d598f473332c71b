/**
 * What the BPv6 parser accepts (components/bundle6/parser.c, lines 169-592): numbers of any length, the bytes
 * announced for the primary block, the quota, and the EID references of blocks.
 */
module Bundle6Limits {
  import opened Basics
  import Sdnv
  import opened Bundle6Dictionary
  import opened Bundle6Parser
  import opened Bundle6Serializer
  import opened Bundle6RoundTrip

  // ---- any number ----

  /** The bytes of one number, in whatever length it is written. */
  ghost predicate OneNumber(bytes: seq<Octet>) {
    bytes != [] && bytes[|bytes| - 1] < 0x80 && Sdnv.Continues(bytes)
  }

  /** The parser after the first `j` bytes of a number that is still being read. */
  function Inside(p: Parser, bytes: seq<Octet>, j: nat): Parser
    requires j <= |bytes| && j < UINT16
  {
    Counted(p.(sdnv := Sdnv.State(Sdnv.InProgress, Sdnv.NoCause, j, Sdnv.Number(bytes[..j]))), j)
  }

  lemma {:induction false} Prefixes(w: Sdnv.Width, bytes: seq<Octet>, j: nat)
    requires j < |bytes| && Sdnv.Continues(bytes)
    ensures Sdnv.Feed(w, Sdnv.Reset, bytes[..j + 1])
            == Sdnv.Step(w, Sdnv.Feed(w, Sdnv.Reset, bytes[..j]), bytes[j])
    ensures Sdnv.Continues(bytes[..j]) && Sdnv.Continues(bytes[..j + 1])
  {
    assert bytes[..j + 1][..j] == bytes[..j];
  }

  /** One byte of a number: it goes on, ends or does not fit. */
  lemma {:induction false} InsideByte(w: Sdnv.Width, bytes: seq<Octet>, j: nat)
    requires j < |bytes| && OneNumber(bytes) && Sdnv.Accepted(w, bytes[..j])
    ensures var s := Sdnv.Step(w, Sdnv.State(Sdnv.InProgress, Sdnv.NoCause, j, Sdnv.Number(bytes[..j])), bytes[j]);
      if !Sdnv.Accepted(w, bytes[..j + 1]) then s.status == Sdnv.Error
      else s == Sdnv.State(if j + 1 == |bytes| then Sdnv.Done else Sdnv.InProgress, Sdnv.NoCause, j + 1,
                           Sdnv.Number(bytes[..j + 1]))
  {
    Prefixes(w, bytes, j);
    Sdnv.ReaderExact(w, bytes[..j]);
    Sdnv.ReaderExact(w, bytes[..j + 1]);
    if j > 0 { assert bytes[..j][j - 1] == bytes[j - 1]; }
    assert bytes[..j + 1][j] == bytes[j];
    if j + 1 < |bytes| { assert bytes[j] >= 0x80; }
  }

  lemma {:induction false} AcceptedBefore(w: Sdnv.Width, bytes: seq<Octet>, j: nat)
    requires j <= |bytes| && Sdnv.Accepted(w, bytes)
    ensures Sdnv.Accepted(w, bytes[..j])
    decreases |bytes| - j
  {
    if j == |bytes| {
      assert bytes[..j] == bytes;
    } else {
      AcceptedBefore(w, bytes, j + 1);
      assert bytes[..j + 1] == bytes[..j] + [bytes[j]];
      Sdnv.AcceptedPrefix(w, bytes[..j], bytes[j]);
    }
  }

  /** The parser when a number was read. */
  function Behind(p: Parser, bytes: seq<Octet>): Parser
    requires |bytes| < UINT16
  {
    Counted(p.(sdnv := Sdnv.State(Sdnv.Done, Sdnv.NoCause, |bytes|, Sdnv.Number(bytes))), |bytes|)
  }

  lemma {:induction false} ReadsInside(p: Parser, bytes: seq<Octet>, j: nat, rest: seq<Octet>)
    requires AtNumber(p) && OneNumber(bytes) && j < |bytes| < UINT16 && Room(p, |bytes|)
    requires Sdnv.Accepted(WidthAt(p.stage), bytes[..j])
    ensures if Sdnv.Accepted(WidthAt(p.stage), bytes) then
              Read(Inside(p, bytes, j), bytes[j..] + rest) == Read(Finish(Behind(p, bytes), Sdnv.Number(bytes)), rest)
            else Read(Inside(p, bytes, j), bytes[j..] + rest).parser.status == Error
    decreases |bytes| - j
  {
    var w, m := WidthAt(p.stage), Inside(p, bytes, j);
    InsideByte(w, bytes, j);
    HeadAndRest(bytes, j, rest);
    ReadOne(m, bytes[j], bytes[j + 1..] + rest);
    InsideStep(p, bytes, j);
    if j + 1 == |bytes| {
      assert bytes[..j + 1] == bytes;
    } else if Sdnv.Accepted(w, bytes[..j + 1]) {
      ReadsInside(p, bytes, j + 1, rest);
    } else if Sdnv.Accepted(w, bytes) {
      AcceptedBefore(w, bytes, j + 1);
    }
  }

  lemma {:induction false} InsideStep(p: Parser, bytes: seq<Octet>, j: nat)
    requires AtNumber(p) && OneNumber(bytes) && j < |bytes| < UINT16 && Room(p, |bytes|)
    requires Sdnv.Accepted(WidthAt(p.stage), bytes[..j])
    ensures var r := ReadByte(Inside(p, bytes, j), bytes[j]);
      if !Sdnv.Accepted(WidthAt(p.stage), bytes[..j + 1]) then r.status == Error
      else if j + 1 < |bytes| then r == Inside(p, bytes, j + 1)
      else r == Finish(Behind(p, bytes), Sdnv.Number(bytes))
  {
    var m := Inside(p, bytes, j);
    InsideByte(WidthAt(p.stage), bytes, j);
    InsideCount(p, bytes, j);
    assert j + 1 == |bytes| ==> bytes[..j + 1] == bytes;
  }

  lemma InsideCount(p: Parser, bytes: seq<Octet>, j: nat)
    requires AtNumber(p) && j < |bytes| < UINT16 && Room(p, |bytes|)
    ensures !Exhausted(Inside(p, bytes, j)) && Inside(p, bytes, j).stage == p.stage
    ensures Count(Inside(p, bytes, j)).(sdnv := Inside(p, bytes, j + 1).sdnv) == Inside(p, bytes, j + 1)
    ensures j + 1 == |bytes| ==> Count(Inside(p, bytes, j)).(sdnv := Behind(p, bytes).sdnv) == Behind(p, bytes)
  {
  }

  /** A number of any length is read to what follows it, or it is an error, just as its width has it. */
  lemma {:induction false} AnyNumberRead(p: Parser, bytes: seq<Octet>, rest: seq<Octet>)
    requires AtNumber(p) && OneNumber(bytes) && |bytes| < UINT16 && Room(p, |bytes|)
    ensures if Sdnv.Accepted(WidthAt(p.stage), bytes) then
              Read(p, bytes + rest) == Read(Finish(Behind(p, bytes), Sdnv.Number(bytes)), rest)
            else Read(p, bytes + rest).parser.status == Error
  {
    assert bytes[..0] == [] && bytes[0..] == bytes;
    assert Sdnv.Number(bytes[..0]) == 0;
    ReadsInside(p, bytes, 0, rest);
    assert Inside(p, bytes, 0) == p;
  }

  /** Numbers of the primary block are smaller: there are 16, 32 and 64 bits for them. */
  function LimitOf(k: nat): nat {
    if k == FLAGS || k == OFFSET || k == TOTAL then UINT32
    else if k == TIMESTAMP || k == SEQUENCE || k == LIFETIME then UINT64
    else UINT16
  }

  /**
   * A number of the primary block, in the shortest form, is refused if and only if it is too large for its
   * field, or it is the length of a dictionary that is empty or exceeds the quota.
   */
  lemma {:induction false} FieldRefused(p: Parser, k: nat, v: nat)
    requires AtNumber(p) && p.stage == Number(k) && k < 16 && |Sdnv.Encode(v)| < UINT16 && Room(p, Sdnv.Size(v))
    ensures Read(p, Sdnv.Encode(v)).parser.status == Error <==>
            v >= LimitOf(k) || (k == DICT_LENGTH && (v == 0 || Over(p.size, v + 1, p.quota)))
  {
    var bytes, w := Sdnv.Encode(v), WidthOf(k);
    EncodedNumber(v);
    AnyNumberRead(p, bytes, []);
    assert bytes + [] == bytes;
    FitsExactly(w, v);
    if Sdnv.Accepted(w, bytes) {
      var q := Finish(Behind(p, bytes), v);
      assert Read(q, []) == Result(q, []);
      if k == DICT_LENGTH { DictEntered(Behind(p, bytes), v); }
    }
  }

  lemma {:induction false} EncodedNumber(v: nat)
    ensures OneNumber(Sdnv.Encode(v)) && Sdnv.Number(Sdnv.Encode(v)) == v
  {
    Sdnv.NumberOfEncode(v);
  }

  /** Just the values of a width have an encoding that is accepted. */
  lemma {:induction false} FitsExactly(w: Sdnv.Width, v: nat)
    ensures Sdnv.Accepted(w, Sdnv.Encode(v)) <==> v < Sdnv.Range(w)
  {
    EncodedNumber(v);
    if v < Sdnv.Range(w) {
      Sdnv.RoundTrip(w, v);
      Sdnv.ReaderExact(w, Sdnv.Encode(v));
    }
  }

  // ---- the quota ----

  /** The sum of sizes, which is kept in 32 bits, exceeds the quota. */
  predicate Over(size: nat, more: nat, quota: nat) { (size + more) % UINT32 > quota }

  /** What follows the length of the dictionary. */
  lemma DictEntered(p: Parser, n: nat)
    requires p.status == Good && p.stage == Number(DICT_LENGTH)
    ensures Finish(p, n).status == if n == 0 || Over(p.size, n + 1, p.quota) then Error else Good
  {
    var q := SetNumber(p, DICT_LENGTH, n);
    assert NumberAt(q, DICT_LENGTH) == n && Finish(p, n) == EnterDict(q);
  }

  /** As long as the sum does not come to 4 GB, that is just what it says. */
  lemma OverIs(size: nat, more: nat, quota: nat)
    requires size + more < UINT32
    ensures Over(size, more, quota) <==> size + more > quota
  {
    SmallModulo(size + more, UINT32);
  }

  /** What follows the length of the data. */
  lemma DataEntered(p: Parser, v: nat)
    requires p.status == Good && p.stage == DataLength
    ensures var r := Finish(p, v);
      && (r.status == if Over(p.size, v, p.quota) then Error else Good)
      && r.stage == Data && r.length == v && r.size == (p.size + v) % UINT32
  {
  }

  /** The data of a block is refused if and only if its length has more than 32 bits or exceeds the quota. */
  lemma {:induction false} DataRefused(p: Parser, v: nat, rest: seq<Octet>)
    requires AtNumber(p) && p.stage == DataLength && |Sdnv.Encode(v)| < UINT16 && Room(p, Sdnv.Size(v))
    ensures v >= UINT32 || Over(p.size, v, p.quota) ==> Read(p, Sdnv.Encode(v) + rest).parser.status == Error
    ensures v < UINT32 && !Over(p.size, v, p.quota) ==>
              var q := Finish(Behind(p, Sdnv.Encode(v)), v);
              && q.status == Good && q.stage == Data && q.length == v && q.size == (p.size + v) % UINT32
              && Read(p, Sdnv.Encode(v) + rest) == Read(q, rest)
  {
    EncodedNumber(v);
    AnyNumberRead(p, Sdnv.Encode(v), rest);
    FitsExactly(Sdnv.U32, v);
    var q := Behind(p, Sdnv.Encode(v));
    assert q.status == Good && q.size == p.size && q.quota == p.quota && q.stage == p.stage;
    DataEntered(q, v);
    if Over(p.size, v, p.quota) { ReadStopped(Finish(q, v), rest); }
  }

  /** A bundle that can be read back, but for its size. */
  ghost predicate Complete(b: Outgoing) {
    && |b.eids| == 4 && EidsOk(b.eids) && |Dictionary(b.eids)| < UINT16
    && b.timestamp < UINT64 && b.sequence < UINT64 && b.lifetime < UINT64
    && b.offset < UINT32 && b.total < UINT32
    && |AfterLength(b)| <= b.primaryLength < UINT16
    && BlocksOk(b.blocks)
  }

  /** What is counted: what was counted before, the dictionary with a zero behind it, and the data of the blocks. */
  function SizeOf(b: Outgoing, used: nat): nat
    requires |b.eids| == 4
  {
    used + |Dictionary(b.eids)| + 1 + DataSize(b.blocks)
  }

  lemma {:induction false} BlocksTooLarge(p: Parser, b: Bundle, size: nat, quota: nat, blocks: seq<Block>,
      rest: seq<Octet>)
    requires AtBlock(p, b, size, quota) && BlocksOk(blocks) && size <= quota < size + DataSize(blocks) < UINT32
    ensures KindsOk(blocks) && Read(p, BlocksBytes(blocks) + rest).parser.status == Error
    decreases |blocks|
  {
    BlocksKinds(blocks);
    var x, more := blocks[0], blocks[1..];
    if size + |x.data| > quota {
      FirstTooLarge(p, b, size, quota, x, |blocks| == 1, BlocksBytes(more) + rest);
      Shift(BlockBytes(x), BlocksBytes(more), rest);
    } else {
      assert |blocks| > 1 by { assert |blocks| == 1 ==> DataSize(more) == 0; }
      var p1 := BlockRead(p, b, size, quota, x);
      BlocksTooLarge(p1, b.(blocks := b.blocks + [x]), size + |x.data|, quota, more, rest);
      Shift(BlockBytes(x), BlocksBytes(more), rest);
      assert BlocksBytes(more) == BlockBytes(more[0]) + BlocksBytes(more[1..]);
      assert Read(p, BlockBytes(x) + (BlocksBytes(more) + rest)) == Read(p1, BlocksBytes(more) + rest);
    }
  }

  lemma {:induction false} FirstTooLarge(p: Parser, b: Bundle, size: nat, quota: nat, x: Block, last: bool,
      rest: seq<Octet>)
    requires AtBlock(p, b, size, quota) && BlockOk(x, last) && quota < size + |x.data| < UINT32
    ensures Read(p, BlockBytes(x) + rest).parser.status == Error
  {
    var flags, length := Sdnv.Encode(x.flags), Sdnv.Encode(|x.data|);
    var p1 := KindRead(p, b, size, quota, x.kind);
    var p2 := FlagsRead(p1, b, x.kind, size, quota, x.flags);
    Then(p, [x.kind], p1, flags, p2);
    EncodeShort(Sdnv.U32, |x.data|);
    OverIs(size, |x.data|, quota);
    DataRefused(p2, |x.data|, x.data + rest);
    BlockParts([x.kind], flags, length, x.data, rest);
    assert length + (x.data + rest) != [];
    assert Read(p, ([x.kind] + flags) + (length + (x.data + rest))) == Read(p2, length + (x.data + rest));
  }

  lemma BlockParts(a: seq<Octet>, b: seq<Octet>, c: seq<Octet>, d: seq<Octet>, e: seq<Octet>)
    ensures (a + (b + (c + d))) + e == (a + b) + (c + (d + e))
  {
  }

  /** The primary block up to the length of the dictionary. */
  lemma BeforeDict(p: Parser, b: Outgoing, used: nat, quota: nat) returns (q: Parser)
    requires Complete(b)
    requires AtField(p, OFFSETS, b.primaryLength, [Masked(b.flags), b.primaryLength] + NO_NUMBERS, used, quota)
    ensures Steps(p, EncodeAll(Middle(b)) + Sdnv.Encode(b.lifetime / 1000000), q)
    ensures AtNumber(q) && q.stage == Number(DICT_LENGTH) && q.size == used && q.quota == quota
    ensures Room(q, Sdnv.Size(|Dictionary(b.eids)|))
  {
    var m, l := EncodeAll(Middle(b)), Sdnv.Encode(b.lifetime / 1000000);
    var n0 := p.bundle.numbers;
    MiddleInRange(b);
    var p1 := FieldsRead(p, OFFSETS, b.primaryLength, n0, Middle(b), used, quota);
    q := LifetimeRead(p1, b.primaryLength - |m|, PutAll(n0, OFFSETS, Middle(b)), b.lifetime / 1000000, used, quota);
    Then(p, m, p1, l, q);
    assert ReadsSdnv(q.stage);
  }

  /** A dictionary that exceeds the quota. */
  lemma {:induction false} DictTooLarge(p: Parser, b: Outgoing, used: nat, quota: nat, rest: seq<Octet>)
    requires Complete(b) && quota < used + |Dictionary(b.eids)| + 1 < UINT32
    requires AtField(p, OFFSETS, b.primaryLength, [Masked(b.flags), b.primaryLength] + NO_NUMBERS, used, quota)
    ensures Read(p, AfterLength(b) + rest).parser.status == Error
  {
    var dict := Dictionary(b.eids);
    var m, l, d := EncodeAll(Middle(b)), Sdnv.Encode(b.lifetime / 1000000), Sdnv.Encode(|dict|);
    var q := BeforeDict(p, b, used, quota);
    OffsetsSmall(b.eids, 0);
    var more := (dict + FragmentPart(b)) + rest;
    DictLengthTooLarge(q, |dict|, more);
    PrimaryParts(m, l, d, dict + FragmentPart(b), rest);
    assert d + more != [] by { EncodeShort(Sdnv.U16, |dict|); }
    assert Read(p, (m + l) + (d + more)) == Read(q, d + more);
  }

  lemma PrimaryParts(a: seq<Octet>, b: seq<Octet>, c: seq<Octet>, d: seq<Octet>, e: seq<Octet>)
    ensures (a + (b + (c + d))) + e == (a + b) + (c + (d + e))
  {
  }

  lemma {:induction false} DictLengthTooLarge(p: Parser, n: nat, rest: seq<Octet>)
    requires AtNumber(p) && p.stage == Number(DICT_LENGTH) && Room(p, Sdnv.Size(n)) && 0 < n < UINT16
    requires p.quota < p.size + n + 1 < UINT32
    ensures Read(p, Sdnv.Encode(n) + rest).parser.status == Error
  {
    EncodeShort(Sdnv.U16, n);
    NumberRead(p, n, rest);
    OverIs(p.size, n + 1, p.quota);
    var q := AfterSdnv(p, n);
    assert q.status == Good && q.size == p.size && q.quota == p.quota && q.stage == p.stage;
    DictEntered(q, n);
    ReadStopped(Finish(q, n), rest);
  }

  /** Another bundle with the same primary block, and as little behind it as there can be. */
  function Bare(b: Outgoing): Outgoing { b.(blocks := [Block(PAYLOAD, 8, [], [])]) }

  lemma BareReady(b: Outgoing, used: nat, quota: nat)
    requires Complete(b) && used + |Dictionary(b.eids)| + 1 <= quota < UINT32
    ensures Ready(Bare(b), used, quota) && AfterLength(Bare(b)) == AfterLength(b)
    ensures Expected(Bare(b)).(blocks := []) == Expected(b).(blocks := [])
  {
    var x := Block(PAYLOAD, 8, [], []);
    assert BlockOk(x, true) && BlocksOk([x]);
    assert DataSize([x]) == 0 + DataSize([x][1..]);
  }

  /** Blocks that exceed the quota. */
  lemma {:induction false} DataTooLarge(p: Parser, b: Outgoing, used: nat, quota: nat, tail: seq<Octet>)
    requires Complete(b) && used + |Dictionary(b.eids)| + 1 <= quota < SizeOf(b, used) < UINT32
    requires AtField(p, OFFSETS, b.primaryLength, [Masked(b.flags), b.primaryLength] + NO_NUMBERS, used, quota)
    ensures KindsOk(b.blocks) && Read(p, AfterLength(b) + (BlocksBytes(b.blocks) + tail)).parser.status == Error
  {
    BlocksKinds(b.blocks);
    BareReady(b, used, quota);
    var q := PrimaryRead(p, Bare(b), used, quota);
    var rest := BlocksBytes(b.blocks) + tail;
    BlocksTooLarge(q, Expected(b).(blocks := []), used + |Dictionary(b.eids)| + 1, quota, b.blocks, tail);
    assert BlocksBytes(b.blocks) == BlockBytes(b.blocks[0]) + BlocksBytes(b.blocks[1..]);
    assert Read(p, AfterLength(b) + rest) == Read(q, rest);
  }

  lemma {:induction false} TooLarge(b: Outgoing, used: nat, quota: nat, tail: seq<Octet>)
    requires Complete(b) && quota < SizeOf(b, used) < UINT32
    ensures KindsOk(b.blocks) && Read(Begin(used, quota), Serialize(b) + tail).parser.status == Error
  {
    BlocksKinds(b.blocks);
    var head := [6] + (Sdnv.Encode(Masked(b.flags)) + Sdnv.Encode(b.primaryLength));
    var p := HeadRead(b, used, quota);
    BundleParts([6], Sdnv.Encode(Masked(b.flags)), Sdnv.Encode(b.primaryLength), AfterLength(b), BlocksBytes(b.blocks),
                tail);
    var rest := AfterLength(b) + (BlocksBytes(b.blocks) + tail);
    LongEnough(b);
    assert Read(Begin(used, quota), head + rest) == Read(p, rest);
    if used + |Dictionary(b.eids)| + 1 > quota {
      DictTooLarge(p, b, used, quota, BlocksBytes(b.blocks) + tail);
    } else {
      DataTooLarge(p, b, used, quota, tail);
    }
  }

  lemma LongEnough(b: Outgoing)
    requires Complete(b)
    ensures AfterLength(b) != []
  {
    EncodeShort(Sdnv.U64, b.lifetime / 1000000);
  }

  lemma BundleParts(a: seq<Octet>, b: seq<Octet>, c: seq<Octet>, d: seq<Octet>, e: seq<Octet>, f: seq<Octet>)
    ensures (a + (b + (c + (d + e)))) + f == (a + (b + c)) + (d + (e + f))
  {
  }

  /** A serialized bundle is received from a stream if and only if it keeps to the quota; otherwise it is an error. */
  lemma {:induction false} ReceivedExactly(b: Outgoing, used: nat, quota: nat, tail: seq<Octet>)
    requires Complete(b) && quota < UINT32 && SizeOf(b, used) < UINT32
    ensures KindsOk(b.blocks)
    ensures var r := ReadStream(Begin(used, quota), Serialize(b) + tail);
      if SizeOf(b, used) <= quota then r.rest == tail && SentAs(r.parser, Expected(b)) else r.parser.status == Error
  {
    BlocksKinds(b.blocks);
    if SizeOf(b, used) <= quota {
      RoundTrip(b, used, quota, tail);
    } else {
      var input := Serialize(b) + tail;
      TooLarge(b, used, quota, tail);
      BufferOfStream(Begin(used, quota), input, []);
      assert input + [] == input;
    }
  }

  // ---- the bytes announced for the primary block ----

  lemma {:induction false} NeverBack(p: Parser, a: seq<Octet>)
    requires !p.primary
    ensures !Read(p, a).parser.primary
    decreases |a|, if p.stage == Data then 1 else 0
  {
    if a != [] && p.status == Good && Need(p) <= |a| {
      NotPrimary(p, a[..Need(p)]);
      NeverBack(Take(p, a[..Need(p)]), a[Need(p)..]);
    }
  }

  lemma NotPrimary(p: Parser, bytes: seq<Octet>)
    requires !p.primary && |bytes| == Need(p)
    ensures !Take(p, bytes).primary
  {
  }

  /** The parser is in the primary block, behind its length. */
  ghost predicate InPrimary(p: Parser) {
    p.status == Good && p.primary && p.primaryLeft < UINT16
    && ((p.stage.Number? && LENGTH < p.stage.k < 16) || p.stage == Dict)
  }

  lemma PrimaryByte(p: Parser, x: Octet)
    requires InPrimary(p)
    ensures var q := ReadByte(p, x);
      q.status == Good && q.primary ==> p.primaryLeft > 0 && InPrimary(q) && q.primaryLeft == p.primaryLeft - 1
  {
  }

  /**
   * Whatever comes: the primary block takes the bytes that it announces and no more. Beyond them the parser has
   * left it or has failed.
   */
  lemma {:induction false} PrimaryBound(p: Parser, a: seq<Octet>)
    requires InPrimary(p)
    ensures var q := Read(p, a).parser;
      q.status == Good && q.primary ==> |a| <= p.primaryLeft && q.primaryLeft == p.primaryLeft - |a|
    decreases |a|
  {
    if a != [] {
      var q := ReadByte(p, a[0]);
      PrimaryByte(p, a[0]);
      assert Read(p, a) == Read(q, a[1..]);
      if q.status == Good && q.primary {
        PrimaryBound(q, a[1..]);
      } else if q.status == Good {
        NeverBack(q, a[1..]);
      }
    }
  }

  // ---- EID references ----

  /** The offsets of an EID in the dictionary. */
  datatype Reference = Reference(scheme: nat, ssp: nat)

  ghost predicate References(list: seq<Reference>) { forall r <- list :: r.scheme < UINT16 && r.ssp < UINT16 }

  function ReferenceBytes(list: seq<Reference>): seq<Octet> {
    if list == [] then []
    else Sdnv.Encode(list[0].scheme) + (Sdnv.Encode(list[0].ssp) + ReferenceBytes(list[1..]))
  }

  /** The EIDs that are named, the last one first; none if one of them cannot be read. */
  function Named(dict: Text, list: seq<Reference>): Option<seq<Text>> {
    if list == [] then Some([])
    else
      match Named(dict, list[..|list| - 1])
      case None => None
      case Some(eids) =>
        var r := list[|list| - 1];
        match ReadEid(dict, r.scheme, r.ssp)
        case None => None
        case Some(eid) => Some([eid] + eids)
  }

  /** The parser has read the references `got` of `n`. */
  ghost predicate AfterReferences(q: Parser, p: Parser, got: seq<Reference>, n: nat) {
    match Named(p.dict, got)
    case None => q.status == Error
    case Some(eids) =>
      && q.status == Good && !q.primary && q.sdnv == Sdnv.Reset && q.dict == p.dict && q.bundle == p.bundle
      && q.quota == p.quota && q.last == p.last && q.refs == |got| && q.size == n
      && q.current == p.current.(refs := eids)
      && q.stage == if |got| == n then DataLength else RefScheme
  }

  lemma {:induction false} ReferenceRead(q: Parser, p: Parser, got: seq<Reference>, r: Reference, n: nat)
      returns (next: Parser)
    requires AfterReferences(q, p, got, n) && q.status == Good && |got| < n && q.primaryLeft < UINT16
    requires r.scheme < UINT16 && r.ssp < UINT16
    ensures Steps(q, Sdnv.Encode(r.scheme) + Sdnv.Encode(r.ssp), next)
    ensures AfterReferences(next, p, got + [r], n) && next.primaryLeft < UINT16
  {
    NumberSteps(q, r.scheme);
    var q1 := Finish(AfterSdnv(q, r.scheme), r.scheme);
    NumberSteps(q1, r.ssp);
    next := Finish(AfterSdnv(q1, r.ssp), r.ssp);
    Then(q, Sdnv.Encode(r.scheme), q1, Sdnv.Encode(r.ssp), next);
    assert (got + [r])[..|got|] == got;
  }

  lemma {:induction false} NamedPrefix(dict: Text, got: seq<Reference>, more: seq<Reference>)
    requires Named(dict, got) == None
    ensures Named(dict, got + more) == None
    decreases |more|
  {
    if more == [] {
      assert got + more == got;
    } else {
      var n := |more| - 1;
      NamedPrefix(dict, got, more[..n]);
      assert (got + more)[..|got + more| - 1] == got + more[..n];
    }
  }

  /** The result of reading the references and the `rest` behind them. */
  ghost predicate ReferencesDone(result: Result, p: Parser, list: seq<Reference>, n: nat, rest: seq<Octet>) {
    if Named(p.dict, list).None? then result.parser.status == Error
    else exists r :: AfterReferences(r, p, list, n) && result == Read(r, rest)
  }

  /** What is made of them, whatever follows. */
  ghost predicate ReferencesLead(q: Parser, p: Parser, input: seq<Octet>, list: seq<Reference>, n: nat) {
    forall rest: seq<Octet> | rest != [] :: ReferencesDone(Read(q, input + rest), p, list, n, rest)
  }

  lemma {:induction false} FailedReferences(q: Parser, p: Parser, got: seq<Reference>, more: seq<Reference>, n: nat)
    requires q.status == Error && Named(p.dict, got) == None
    ensures ReferencesLead(q, p, ReferenceBytes(more), got + more, n)
  {
    NamedPrefix(p.dict, got, more);
    forall rest: seq<Octet> ensures Read(q, rest).parser.status == Error { ReadStopped(q, rest); }
  }

  lemma {:induction false} ReadStopped(q: Parser, input: seq<Octet>)
    requires q.status != Good
    ensures Read(q, input) == Result(q, input)
  {
  }

  lemma {:induction false} AllReferences(q: Parser, p: Parser, list: seq<Reference>, n: nat)
    requires AfterReferences(q, p, list, n) && q.status == Good
    ensures ReferencesLead(q, p, [], list, n)
  {
    forall rest: seq<Octet> ensures ReferencesDone(Read(q, [] + rest), p, list, n, rest) { assert [] + rest == rest; }
  }

  lemma {:induction false} MoreReferences(q: Parser, p: Parser, got: seq<Reference>, more: seq<Reference>, n: nat)
    requires AfterReferences(q, p, got, n) && |got| + |more| == n && References(more) && q.primaryLeft < UINT16
    ensures ReferencesLead(q, p, ReferenceBytes(more), got + more, n)
    decreases |more|
  {
    if q.status != Good {
      FailedReferences(q, p, got, more, n);
    } else if more == [] {
      assert got + more == got;
      AllReferences(q, p, got, n);
    } else {
      var r := more[0];
      var here, later := Sdnv.Encode(r.scheme) + Sdnv.Encode(r.ssp), ReferenceBytes(more[1..]);
      assert r in more && forall x <- more[1..] :: x in more;
      var next := ReferenceRead(q, p, got, r, n);
      MoreReferences(next, p, got + [r], more[1..], n);
      assert (got + [r]) + more[1..] == got + more;
      ReferencesThen(q, p, here, next, later, got + more, n);
      Shift(Sdnv.Encode(r.scheme), Sdnv.Encode(r.ssp), later);
    }
  }

  lemma ReferencesThen(q: Parser, p: Parser, a: seq<Octet>, next: Parser, b: seq<Octet>, list: seq<Reference>, n: nat)
    requires Steps(q, a, next) && ReferencesLead(next, p, b, list, n)
    ensures ReferencesLead(q, p, a + b, list, n)
  {
    forall rest: seq<Octet> | rest != [] ensures ReferencesDone(Read(q, (a + b) + rest), p, list, n, rest) {
      Shift(a, b, rest);
      var more := b + rest;
      assert more != [];
      assert Read(q, a + more) == Read(next, more);
      assert ReferencesDone(Read(next, b + rest), p, list, n, rest);
    }
  }

  /**
   * A block with EID references: it gets the EIDs, in reverse order, if all can be read, and is an error otherwise.
   * The quota is counted from their number on.
   */
  lemma {:induction false} ReferencesRead(p: Parser, list: seq<Reference>)
    requires AtNumber(p) && p.stage == RefCount && !p.primary && p.primaryLeft < UINT16
    requires p.current.refs == [] && |list| < UINT32 && References(list)
    ensures ReferencesLead(p, p, Sdnv.Encode(|list|) + ReferenceBytes(list), list, |list|)
  {
    NumberSteps(p, |list|);
    var q := Finish(AfterSdnv(p, |list|), |list|);
    MoreReferences(q, p, [], list, |list|);
    assert [] + list == list;
    ReferencesThen(p, p, Sdnv.Encode(|list|), q, ReferenceBytes(list), list, |list|);
  }
}
