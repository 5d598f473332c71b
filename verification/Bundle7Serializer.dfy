/**
 * Writing a BPv7 bundle (components/bundle7/serializer.c, lines 19-270), the sizes announced for it
 * (components/bundle7/bundle7.c, lines 94-160), and reading its items back in the order in which the parser takes
 * them (components/bundle7/parser.c). The EIDs are given in their encoded form.
 */
module Bundle7Serializer {
  import opened Basics
  import opened Bytes
  import opened Masks
  import opened Reassembly
  import opened Fragmentation
  import opened CborHeads

  /** A checksum of some bytes, behind which stands the empty field of a checksum. */
  type Checksum = (Crc, seq<Octet>) -> nat

  function Octets(data: seq<Byte>): (r: seq<Octet>)
    ensures |r| == |data|
  {
    seq(|data|, i requires 0 <= i < |data| => data[i] as int)
  }

  /** The processing flags of BPv7, from the lowest bit on. */
  const FLAGS7: seq<bool> :=
    [true, true, true, false, false, true, true, false, false, false, false, false, false, false, true, false, true,
     true, true]

  function MemoryFlags(b: Bundle): nat { Flags(b.isFragment, b.flags) }

  /** bundle7_filter_protocol_proc_flags */
  function ProtocolFlags(b: Bundle): nat { MaskWith(MemoryFlags(b), FLAGS7) }

  // ---- pieces ----

  /** Unsigned integers one after the other. */
  function Numbers(items: seq<nat>): seq<Octet> {
    if items == [] then [] else Head(0, items[0]) + Numbers(items[1..])
  }

  /** write_crc: a byte string of two or four bytes, the most significant one first */
  function CrcField(c: Crc, sum: nat): seq<Octet> {
    match c
    case NoCrc => []
    case Crc16 => [0x42] + ToBytes(sum, 2)
    case Crc32 => [0x44] + ToBytes(sum, 4)
  }

  function WithCrc(bytes: seq<Octet>, c: Crc, sum: Checksum): seq<Octet> { bytes + CrcField(c, sum(c, bytes)) }

  /** The head of a number becomes that of a byte string. */
  function AsString(head: seq<Octet>): seq<Octet>
    requires head != [] && head[0] < 0x40
  {
    [head[0] + 0x40] + head[1..]
  }

  function Fields(c: Crc): nat { if c == NoCrc then 0 else 1 }

  function BlockHead7(b: Block): seq<Octet> {
    [0x80 + 5 + Fields(b.crc)]
    + (Numbers([b.kind, b.number, WireFlags(b), CrcCode(b.crc)]) + AsString(Head(0, |b.data|)))
  }

  function BlockBytes(b: Block, sum: Checksum): seq<Octet> {
    WithCrc(BlockHead7(b) + Octets(b.data), b.crc, sum)
  }

  function BlocksBytes(blocks: seq<Block>, sum: Checksum): seq<Octet> {
    if blocks == [] then [] else BlockBytes(blocks[0], sum) + BlocksBytes(blocks[1..], sum)
  }

  /** The numbers in front of the EIDs. */
  function FirstItems(b: Bundle): seq<nat> { [7, ProtocolFlags(b), CrcCode(b.header.crc)] }

  /** The numbers behind them, the first two of which are an array. */
  function LastItems(b: Bundle): seq<nat> {
    [b.header.key.timestamp, b.header.key.sequence, b.header.lifetime] + if b.isFragment then
        [b.offset, b.total] else []
  }

  /** The primary block without its checksum. */
  function PrimaryFront(b: Bundle, eids: seq<Octet>): seq<Octet> {
    var count := 8 + Fields(b.header.crc) + if b.isFragment then 2 else 0;
    [0x80 + count] + (Numbers(FirstItems(b)) + (eids + ([0x82] + Numbers(LastItems(b)))))
  }

  function PrimaryBytes(b: Bundle, eids: seq<Octet>, sum: Checksum): seq<Octet> {
    WithCrc(PrimaryFront(b, eids), b.header.crc, sum)
  }

  /** bundle7_serialize */
  function Serialize(b: Bundle, eids: seq<Octet>, sum: Checksum): seq<Octet> {
    [0x9F] + (PrimaryBytes(b, eids, sum) + (BlocksBytes(b.blocks, sum) + [0xFF]))
  }

  /** The pieces handed to the write function. */
  method WriteBundle(b: Bundle, eids: seq<Octet>, sum: Checksum) returns (written: seq<Octet>)
    ensures written == Serialize(b, eids, sum)
  {
    written := [0x9F] + PrimaryBytes(b, eids, sum);
    ghost var start := written;
    for i := 0 to |b.blocks|
      invariant start + BlocksBytes(b.blocks, sum) == written + BlocksBytes(b.blocks[i..], sum)
    {
      ghost var more := BlocksBytes(b.blocks[i + 1..], sum);
      assert b.blocks[i..][0] == b.blocks[i] && b.blocks[i..][1..] == b.blocks[i + 1..];
      Group(written, BlockBytes(b.blocks[i], sum), more);
      written := written + BlockBytes(b.blocks[i], sum);
    }
    assert written + [] == written;
    Group3([0x9F], PrimaryBytes(b, eids, sum), BlocksBytes(b.blocks, sum), [0xFF]);
    written := written + [0xFF];
  }

  lemma Group(a: seq<Octet>, b: seq<Octet>, c: seq<Octet>)
    ensures a + (b + c) == (a + b) + c
  {
  }

  lemma Group3(a: seq<Octet>, b: seq<Octet>, c: seq<Octet>, d: seq<Octet>)
    ensures ((a + b) + c) + d == a + (b + (c + d))
  {
  }

  // ---- sizes ----

  lemma {:induction false} NumbersSize(items: seq<nat>)
    ensures |Numbers(items)| == CborSizes(items)
  {
    if items != [] {
      HeadSize(0, items[0]);
      NumbersSize(items[1..]);
    }
  }

  lemma HeadSize(major: nat, n: nat)
    requires major < 8
    ensures |Head(major, n)| == CborSize(n) && Head(major, n)[0] / 0x20 == major
  {
    Pow256Is();
  }

  lemma {:induction false} CborSizesFront(a: nat, rest: seq<nat>)
    ensures CborSizes([a] + rest) == CborSize(a) + CborSizes(rest)
  {
    assert ([a] + rest)[1..] == rest;
  }

  /** The size announced for a block is the number of bytes written. */
  lemma {:induction false} BlockSizeIs(b: Block, sum: Checksum)
    ensures |BlockBytes(b, sum)| == BlockSize(b)
  {
    var items := [b.kind, b.number, WireFlags(b), CrcCode(b.crc)];
    NumbersSize(items);
    HeadSize(0, |b.data|);
    FiveSizes(b.kind, b.number, WireFlags(b), CrcCode(b.crc), |b.data|);
  }

  lemma {:induction false} FiveSizes(a: nat, b: nat, c: nat, d: nat, e: nat)
    ensures CborSizes([a, b, c, d, e]) == CborSizes([a, b, c, d]) + CborSize(e)
    ensures CborSizes([a, b, c, d]) == CborSize(a) + CborSize(b) + CborSize(c) + CborSize(d)
  {
    CborSizesFront(e, []);
    CborSizesFront(d, [e]);
    CborSizesFront(c, [d, e]);
    CborSizesFront(b, [c, d, e]);
    CborSizesFront(a, [b, c, d, e]);
    CborSizesFront(d, []);
    CborSizesFront(c, [d]);
    CborSizesFront(b, [c, d]);
    CborSizesFront(a, [b, c, d]);
    assert [a] + [b, c, d, e] == [a, b, c, d, e] && [a] + [b, c, d] == [a, b, c, d];
  }

  lemma {:induction false} BlocksSize(blocks: seq<Block>, sum: Checksum)
    ensures |BlocksBytes(blocks, sum)| == SumSizes(blocks)
  {
    if blocks != [] {
      BlockSizeIs(blocks[0], sum);
      BlocksSize(blocks[1..], sum);
    }
  }

  /** The size kept for the primary block counts the flags as they are in memory. */
  lemma {:induction false} PrimarySizeIs(b: Bundle, eids: seq<Octet>, sum: Checksum)
    requires |eids| == b.header.eidBytes
    ensures |PrimaryBytes(b, eids, sum)| + CborSize(MemoryFlags(b)) == PrimarySize(b) + CborSize(ProtocolFlags(b))
  {
    NumbersSize(FirstItems(b));
    NumbersSize(LastItems(b));
    ItemsSplit(b);
  }

  lemma {:induction false} ItemsSplit(b: Bundle)
    ensures CborSizes(PrimaryItems(b)) + CborSize(ProtocolFlags(b))
            == CborSizes(FirstItems(b)) + CborSizes(LastItems(b)) + CborSize(MemoryFlags(b))
  {
    var f, c, last := MemoryFlags(b), CrcCode(b.header.crc), LastItems(b);
    assert PrimaryItems(b) == [f] + ([7] + ([c] + last));
    CborSizesFront(c, last);
    CborSizesFront(7, [c] + last);
    CborSizesFront(f, [7] + ([c] + last));
    assert FirstItems(b) == [7] + ([ProtocolFlags(b)] + ([c] + []));
    CborSizesFront(c, []);
    CborSizesFront(ProtocolFlags(b), [c] + []);
    CborSizesFront(7, [ProtocolFlags(b)] + ([c] + []));
  }

  /**
   * The size announced for a bundle is the number of bytes written if and only if the flags that the protocol does
   * not know do not lengthen the number.
   */
  lemma {:induction false} SizeExactly(b: Bundle, eids: seq<Octet>, sum: Checksum)
    requires |eids| == b.header.eidBytes && b.Fresh()
    ensures |Serialize(b, eids, sum)| + CborSize(MemoryFlags(b)) == SerializedSize(b) + CborSize(ProtocolFlags(b))
    ensures |Serialize(b, eids, sum)| == SerializedSize(b) <==> CborSize(MemoryFlags(b)) == CborSize(ProtocolFlags(b))
  {
    PrimarySizeIs(b, eids, sum);
    BlocksSize(b.blocks, sum);
  }

  /** Flags that only BPv6 knows: the bundle is announced one byte too long. */
  lemma {:induction false} PriorityCounts(b: Bundle, eids: seq<Octet>, sum: Checksum)
    requires |eids| == b.header.eidBytes && b.Fresh() && !b.isFragment && b.flags == 0x40
    ensures ProtocolFlags(b) == 0 && |Serialize(b, eids, sum)| == SerializedSize(b) - 1
  {
    SizeExactly(b, eids, sum);
    PriorityDropped();
  }

  lemma PriorityDropped()
    ensures MaskWith(0x80, FLAGS7) == 0
  {
    FlagDropped(7, FLAGS7);
    assert Pow2(1) == 2 && Pow2(2) == 4 && Pow2(3) == 8 && Pow2(4) == 16 && Pow2(5) == 32 && Pow2(6) == 64;
    assert Pow2(7) == 0x80;
  }

  // ---- reading the items back ----

  /** The head of an item of one type, and what follows it. */
  function ReadItem(input: seq<Octet>, major: nat): (r: Option<(nat, seq<Octet>)>)
    ensures r.Some? ==> |r.value.1| < |input|
  {
    match ReadHead(input)
    case None => None
    case Some(h) => if h.major == major then Some((h.value, input[h.size..])) else None
  }

  function ReadNumbers(input: seq<Octet>, k: nat): (r: Option<(seq<nat>, seq<Octet>)>)
    ensures r.Some? ==> |r.value.0| == k && |r.value.1| <= |input|
  {
    if k == 0 then Some(([], input))
    else
      match ReadItem(input, 0)
      case None => None
      case Some((n, rest)) =>
        match ReadNumbers(rest, k - 1)
        case None => None
        case Some((items, rest)) => Some(([n] + items, rest))
  }

  function ReadString(input: seq<Octet>): (r: Option<(seq<Octet>, seq<Octet>)>)
    ensures r.Some? ==> |r.value.1| < |input|
  {
    match ReadItem(input, 2)
    case None => None
    case Some((n, rest)) => if n <= |rest| then Some((rest[..n], rest[n..])) else None
  }

  /** The checksum of a block with the CRC type `code`: two bytes for type 1, four for any other. */
  function ReadCrc(input: seq<Octet>, code: nat): (r: Option<(nat, seq<Octet>)>)
    ensures r.Some? ==> |r.value.1| <= |input|
  {
    if code == 0 then Some((0, input))
    else
      match ReadString(input)
      case None => None
      case Some((bytes, rest)) => if |bytes| == (if code == 1 then 2 else 4) then Some((BigEndian(bytes), rest))
          else None
  }

  function One(b: bool): nat { if b then 1 else 0 }

  datatype WireBlock = WireBlock(kind: nat, number: nat, flags: nat, crc: nat, data: seq<Octet>, sum: nat)

  /** A block is an array of as many items as it has. */
  function ReadBlock(input: seq<Octet>): (r: Option<(WireBlock, seq<Octet>)>)
    ensures r.Some? ==> |r.value.1| < |input|
  {
    match ReadItem(input, 4)
    case None => None
    case Some((count, rest)) =>
      match ReadNumbers(rest, 4)
      case None => None
      case Some((n, rest)) => if count == 5 + One(n[3] != 0) then ReadBlockData(n, rest) else None
  }

  function ReadBlockData(n: seq<nat>, input: seq<Octet>): (r: Option<(WireBlock, seq<Octet>)>)
    requires |n| == 4
    ensures r.Some? ==> |r.value.1| < |input|
  {
    match ReadString(input)
    case None => None
    case Some((data, rest)) =>
      match ReadCrc(rest, n[3])
      case None => None
      case Some((sum, rest)) => Some((WireBlock(n[0], n[1], n[2], n[3], data, sum), rest))
  }

  lemma {:induction false} ItemRead(major: nat, n: nat, rest: seq<Octet>)
    requires major < 8 && n < UINT64
    ensures ReadItem(Head(major, n) + rest, major) == Some((n, rest))
  {
    HeadRead(major, n, rest);
    var h := Head(major, n);
    assert (h + rest)[|h|..] == rest;
  }

  ghost predicate Small(items: seq<nat>) { forall n <- items :: n < UINT64 }

  lemma {:induction false} NumbersRead(items: seq<nat>, rest: seq<Octet>)
    requires Small(items)
    ensures ReadNumbers(Numbers(items) + rest, |items|) == Some((items, rest))
    decreases |items|
  {
    if items == [] {
      assert [] + rest == rest;
    } else {
      assert items[0] in items && forall n <- items[1..] :: n in items;
      NumbersRead(items[1..], rest);
      FirstNumberRead(items, rest);
    }
  }

  lemma {:induction false} FirstNumberRead(items: seq<nat>, rest: seq<Octet>)
    requires items != [] && items[0] < UINT64
    requires ReadNumbers(Numbers(items[1..]) + rest, |items| - 1) == Some((items[1..], rest))
    ensures ReadNumbers(Numbers(items) + rest, |items|) == Some((items, rest))
  {
    var more := Numbers(items[1..]);
    ItemRead(0, items[0], more + rest);
    Group(Head(0, items[0]), more, rest);
    assert [items[0]] + items[1..] == items;
  }

  lemma {:induction false} StringHead(n: nat)
    ensures Head(0, n) != [] && Head(0, n)[0] < 0x40 && AsString(Head(0, n)) == Head(2, n)
  {
  }

  lemma {:induction false} StringRead(data: seq<Octet>, rest: seq<Octet>)
    requires |data| < UINT64
    ensures ReadString(Head(2, |data|) + (data + rest)) == Some((data, rest))
  {
    ItemRead(2, |data|, data + rest);
    assert (data + rest)[..|data|] == data && (data + rest)[|data|..] == rest;
  }

  /** What a checksum comes to in its field. */
  function SumOf(c: Crc, sum: nat): nat {
    match c
    case NoCrc => 0
    case Crc16 => sum % 0x1_0000
    case Crc32 => sum % 0x1_0000_0000
  }

  lemma Split(n: nat, q: nat, r: nat, low: nat, p: nat)
    requires p > 0 && low == n % 0x100 && n / 0x100 == q * p + r && r < p
    ensures n % (0x100 * p) == 0x100 * r + low
  {
    assert n == q * (0x100 * p) + (0x100 * r + low);
    QuotientIs(n, 0x100 * p, q, 0x100 * r + low);
  }

  lemma {:induction false} SumRead(n: nat, k: nat)
    ensures BigEndian(ToBytes(n, k)) == n % Pow256(k)
  {
    if k > 0 {
      var p, high := Pow256(k - 1), n / 0x100;
      SumRead(high, k - 1);
      var q, r := Euclid(high, p);
      OneByteMore(n, k, r);
      Split(n, q, r, n % 0x100, p);
      SamePower(k, p, n);
    }
  }

  lemma Euclid(n: nat, d: nat) returns (q: nat, r: nat)
    requires d > 0
    ensures n == q * d + r && r < d && r == n % d
  {
    q, r := n / d, n % d;
  }

  lemma {:induction false} SamePower(k: nat, p: nat, n: nat)
    requires k > 0 && p == Pow256(k - 1)
    ensures n % Pow256(k) == n % (0x100 * p)
  {
  }

  lemma {:induction false} OneByteMore(n: nat, k: nat, high: nat)
    requires k > 0 && BigEndian(ToBytes(n / 0x100, k - 1)) == high
    ensures BigEndian(ToBytes(n, k)) == 0x100 * high + n % 0x100
  {
    assert ToBytes(n, k)[..k - 1] == ToBytes(n / 0x100, k - 1);
  }

  lemma {:induction false} CrcRead(c: Crc, sum: nat, rest: seq<Octet>)
    ensures ReadCrc(CrcField(c, sum) + rest, CrcCode(c)) == Some((SumOf(c, sum), rest))
  {
    Pow256Is();
    match c
    case NoCrc => assert [] + rest == rest;
    case Crc16 =>
      var bytes := ToBytes(sum, 2);
      SumRead(sum, 2);
      assert Head(2, 2) == [0x42];
      StringRead(bytes, rest);
      Group([0x42], bytes, rest);
    case Crc32 =>
      var bytes := ToBytes(sum, 4);
      SumRead(sum, 4);
      assert Head(2, 4) == [0x44];
      StringRead(bytes, rest);
      Group([0x44], bytes, rest);
  }

  /** A block as it is on the wire. */
  function OnWire(b: Block, sum: Checksum): WireBlock {
    WireBlock(b.kind, b.number, WireFlags(b), CrcCode(b.crc), Octets(b.data),
              SumOf(b.crc, sum(b.crc, BlockHead7(b) + Octets(b.data))))
  }

  ghost predicate BlockFits(b: Block) { b.kind < UINT64 && b.number < UINT64 }

  lemma FlagsFit(b: Block)
    ensures WireFlags(b) < 32
  {
  }

  lemma {:induction false} BlockDataRead(n: seq<nat>, data: seq<Octet>, c: Crc, sum: nat, rest: seq<Octet>)
    requires |n| == 4 && n[3] == CrcCode(c) && |data| < UINT64
    ensures ReadBlockData(n, Head(2, |data|) + (data + (CrcField(c, sum) + rest)))
            == Some((WireBlock(n[0], n[1], n[2], n[3], data, SumOf(c, sum)), rest))
  {
    StringRead(data, CrcField(c, sum) + rest);
    CrcRead(c, sum, rest);
  }

  lemma {:induction false} BlockItemsRead(count: nat, n: seq<nat>, more: seq<Octet>)
    requires |n| == 4 && Small(n) && count == 5 + One(n[3] != 0)
    ensures ReadBlock(Head(4, count) + (Numbers(n) + more)) == ReadBlockData(n, more)
  {
    ItemRead(4, count, Numbers(n) + more);
    NumbersRead(n, more);
  }

  /** Reading a written block gives all its fields. */
  lemma {:induction false} BlockRead(b: Block, sum: Checksum, rest: seq<Octet>)
    requires BlockFits(b)
    ensures ReadBlock(BlockBytes(b, sum) + rest) == Some((OnWire(b, sum), rest))
  {
    var items, data := [b.kind, b.number, WireFlags(b), CrcCode(b.crc)], Octets(b.data);
    var s := sum(b.crc, BlockHead7(b) + data);
    var n, head := 5 + Fields(b.crc), Head(2, |data|);
    FlagsFit(b);
    StringHead(|data|);
    assert [0x80 + n] == Head(4, n);
    BlockItemsRead(n, items, head + (data + (CrcField(b.crc, s) + rest)));
    BlockDataRead(items, data, b.crc, s, rest);
    BlockParts(Head(4, n), Numbers(items), head, data, CrcField(b.crc, s), rest);
  }

  lemma BlockParts(a: seq<Octet>, b: seq<Octet>, c: seq<Octet>, d: seq<Octet>, e: seq<Octet>, f: seq<Octet>)
    ensures (((a + (b + c)) + d) + e) + f == a + (b + (c + (d + (e + f))))
  {
  }

  /** The blocks up to the payload, which has to be the last one, and the end of the bundle. */
  function ReadBlocks(input: seq<Octet>): Option<(seq<WireBlock>, seq<Octet>)>
    decreases |input|
  {
    match ReadBlock(input)
    case None => None
    case Some((x, rest)) =>
      if x.kind == PAYLOAD then
        if rest != [] && rest[0] == 0xFF then Some(([x], rest[1..])) else None
      else
        match ReadBlocks(rest)
        case None => None
        case Some((more, rest)) => Some(([x] + more, rest))
  }

  /** The payload comes last, and just there. */
  predicate PayloadLast(blocks: seq<Block>) {
    blocks != [] && if blocks[0].kind == PAYLOAD then |blocks| == 1 else PayloadLast(blocks[1..])
  }

  function AllOnWire(blocks: seq<Block>, sum: Checksum): seq<WireBlock> {
    if blocks == [] then [] else [OnWire(blocks[0], sum)] + AllOnWire(blocks[1..], sum)
  }

  lemma {:induction false} BlockReads(blocks: seq<Block>, sum: Checksum, end: seq<Octet>)
    requires blocks != [] && BlockFits(blocks[0])
    ensures ReadBlock(BlocksBytes(blocks, sum) + end)
            == Some((OnWire(blocks[0], sum), BlocksBytes(blocks[1..], sum) + end))
  {
    var more := BlocksBytes(blocks[1..], sum);
    BlockRead(blocks[0], sum, more + end);
    Group(BlockBytes(blocks[0], sum), more, end);
  }

  lemma {:induction false} NothingBehind(end: seq<Octet>)
    requires end != [] && end[0] == 0xFF
    ensures ReadBlock(end) == None
  {
    assert ReadHead(end).None? || ReadHead(end).value.major == 7;
  }

  lemma {:induction false} PayloadRead(blocks: seq<Block>, sum: Checksum, tail: seq<Octet>)
    requires blocks != [] && BlockFits(blocks[0]) && blocks[0].kind == PAYLOAD
    ensures ReadBlocks(BlocksBytes(blocks, sum) + ([0xFF] + tail)) ==
            if |blocks| == 1 then Some(([OnWire(blocks[0], sum)], tail)) else None
  {
    var end := [0xFF] + tail;
    BlockReads(blocks, sum, end);
    BehindPayload(blocks[1..], sum, end);
    assert end[1..] == tail;
  }

  lemma {:induction false} OtherRead(blocks: seq<Block>, sum: Checksum, end: seq<Octet>)
    requires blocks != [] && BlockFits(blocks[0]) && blocks[0].kind != PAYLOAD
    ensures ReadBlocks(BlocksBytes(blocks, sum) + end)
            == InFront(OnWire(blocks[0], sum), ReadBlocks(BlocksBytes(blocks[1..], sum) + end))
  {
    BlockReads(blocks, sum, end);
  }

  /** What the blocks and the end of the bundle are read to. */
  ghost predicate BlocksAre(result: Option<(seq<WireBlock>, seq<Octet>)>, blocks: seq<Block>, sum: Checksum,
      tail: seq<Octet>)
  {
    result == if PayloadLast(blocks) then Some((AllOnWire(blocks, sum), tail)) else None
  }

  lemma {:induction false} PayloadIs(blocks: seq<Block>, sum: Checksum, tail: seq<Octet>)
    requires blocks != [] && blocks[0].kind == PAYLOAD
    ensures BlocksAre(if |blocks| == 1 then Some(([OnWire(blocks[0], sum)], tail)) else None, blocks, sum, tail)
  {
    assert PayloadLast(blocks) <==> |blocks| == 1;
    if |blocks| == 1 {
      assert blocks[1..] == [] && AllOnWire(blocks[1..], sum) == [];
      assert AllOnWire(blocks, sum) == [OnWire(blocks[0], sum)];
    }
  }

  lemma {:induction false} OtherIs(result: Option<(seq<WireBlock>, seq<Octet>)>, blocks: seq<Block>, sum: Checksum,
      tail: seq<Octet>)
    requires blocks != [] && blocks[0].kind != PAYLOAD && BlocksAre(result, blocks[1..], sum, tail)
    ensures BlocksAre(InFront(OnWire(blocks[0], sum), result), blocks, sum, tail)
  {
  }

  /** Another block in front of some that are read. */
  ghost function InFront(b: WireBlock, result: Option<(seq<WireBlock>, seq<Octet>)>):
      Option<(seq<WireBlock>, seq<Octet>)>
  {
    match result
    case None => None
    case Some((more, rest)) => Some(([b] + more, rest))
  }

  lemma {:induction false} NoBlocksRead(sum: Checksum, end: seq<Octet>)
    requires end != [] && end[0] == 0xFF
    ensures ReadBlocks(BlocksBytes([], sum) + end) == None
  {
    NothingBehind(end);
    assert [] + end == end;
  }

  lemma {:induction false} BlocksRead(blocks: seq<Block>, sum: Checksum, tail: seq<Octet>, end: seq<Octet>)
    requires (forall b <- blocks :: BlockFits(b)) && end == [0xFF] + tail
    ensures BlocksAre(ReadBlocks(BlocksBytes(blocks, sum) + end), blocks, sum, tail)
    decreases |blocks|
  {
    if blocks == [] {
      NoBlocksRead(sum, end);
    } else {
      var b := blocks[0];
      assert b in blocks && forall x <- blocks[1..] :: x in blocks;
      if b.kind == PAYLOAD {
        PayloadRead(blocks, sum, tail);
        PayloadIs(blocks, sum, tail);
      } else {
        BlocksRead(blocks[1..], sum, tail, end);
        OtherRead(blocks, sum, end);
        OtherIs(ReadBlocks(BlocksBytes(blocks[1..], sum) + end), blocks, sum, tail);
      }
    }
  }

  lemma {:induction false} BehindPayload(blocks: seq<Block>, sum: Checksum, end: seq<Octet>)
    requires end != [] && end[0] == 0xFF
    ensures var r := BlocksBytes(blocks, sum) + end; r != [] && (r[0] == 0xFF <==> blocks == [])
    ensures blocks == [] ==> BlocksBytes(blocks, sum) + end == end
  {
    if blocks == [] {
      assert [] + end == end;
    } else {
      assert BlocksBytes(blocks, sum)[0] == BlockBytes(blocks[0], sum)[0] == 0x80 + 5 + Fields(blocks[0].crc);
    }
  }

  // ---- the whole bundle ----

  /** What is read of a bundle; the EIDs stay encoded. */
  datatype WireBundle = WireBundle(
    first: seq<nat>, eids: seq<Octet>, last: seq<nat>, sum: nat, blocks: seq<WireBlock>)

  /** The primary block, of which the EIDs take `n` bytes. */
  function ReadPrimary(input: seq<Octet>, n: nat): Option<(WireBundle, seq<Octet>)> {
    match ReadItem(input, 4)
    case None => None
    case Some((count, rest)) =>
      match ReadNumbers(rest, 3)
      case None => None
      case Some((first, rest)) =>
        if first[2] > 2 || |rest| < n || count != 8 + One(first[2] != 0) + first[1] % 2 * 2 then None
        else ReadTimes(first, rest[..n], rest[n..])
  }

  /** The creation timestamp is an array of two; the fields of a fragment come with its flag. */
  function ReadTimes(first: seq<nat>, eids: seq<Octet>, input: seq<Octet>): Option<(WireBundle, seq<Octet>)>
    requires |first| == 3
  {
    match ReadItem(input, 4)
    case None => None
    case Some((two, rest)) =>
      if two != 2 then None
      else
        match ReadNumbers(rest, 3 + first[1] % 2 * 2)
        case None => None
        case Some((last, rest)) =>
          match ReadCrc(rest, first[2])
          case None => None
          case Some((sum, rest)) => Some((WireBundle(first, eids, last, sum, []), rest))
  }

  function ReadBundle(input: seq<Octet>, n: nat): Option<(WireBundle, seq<Octet>)> {
    if input == [] || input[0] != 0x9F then None
    else
      match ReadPrimary(input[1..], n)
      case None => None
      case Some((w, rest)) =>
        match ReadBlocks(rest)
        case None => None
        case Some((blocks, rest)) => Some((w.(blocks := blocks), rest))
  }

  ghost predicate Fits(b: Bundle) {
    && b.header.key.timestamp < UINT64 && b.header.key.sequence < UINT64 && b.header.lifetime < UINT64
    && forall x <- b.blocks :: BlockFits(x)
  }

  function PrimaryOnWire(b: Bundle, eids: seq<Octet>, sum: Checksum): WireBundle {
    WireBundle(FirstItems(b), eids, LastItems(b), SumOf(b.header.crc, sum(b.header.crc, PrimaryFront(b, eids))), [])
  }

  lemma {:induction false} LowestKept(flags: nat)
    ensures MaskWith(flags, FLAGS7) < UINT64 && MaskWith(flags, FLAGS7) % 2 == flags % 2
  {
    var mask := FLAGS7;
    assert |mask| == 19 && mask[0];
    MaskBound(flags, mask);
    MaskLow(flags, mask);
    NineteenBits();
  }

  lemma ProtocolFlagsFit(b: Bundle)
    ensures ProtocolFlags(b) < UINT64 && (ProtocolFlags(b) % 2 == 1 <==> b.isFragment)
  {
    var bit := if b.isFragment then 1 else 0;
    QuotientIs(MemoryFlags(b), 2, b.flags, bit);
    LowestKept(MemoryFlags(b));
  }

  lemma NineteenBits()
    ensures Pow2(19) < UINT64
  {
    assert Pow2(4) == 16 by { assert Pow2(1) == 2 && Pow2(2) == 4 && Pow2(3) == 8; }
    assert Pow2(5) == 32 && Pow2(6) == 64 && Pow2(7) == 128 && Pow2(8) == 256;
    assert Pow2(9) == 512 && Pow2(10) == 1024 && Pow2(11) == 2048 && Pow2(12) == 4096;
    assert Pow2(13) == 8192 && Pow2(14) == 16384 && Pow2(15) == 32768 && Pow2(16) == 65536;
    assert Pow2(17) == 2 * Pow2(16) && Pow2(18) == 2 * Pow2(17) && Pow2(19) == 2 * Pow2(18);
  }

  lemma {:induction false} TimesRead(first: seq<nat>, eids: seq<Octet>, last: seq<nat>, c: Crc, sum: nat,
      rest: seq<Octet>)
    requires |first| == 3 && first[2] == CrcCode(c) && |last| == 3 + first[1] % 2 * 2 && Small(last)
    ensures ReadTimes(first, eids, Head(4, 2) + (Numbers(last) + (CrcField(c, sum) + rest)))
            == Some((WireBundle(first, eids, last, SumOf(c, sum), []), rest))
  {
    ItemRead(4, 2, Numbers(last) + (CrcField(c, sum) + rest));
    NumbersRead(last, CrcField(c, sum) + rest);
    CrcRead(c, sum, rest);
  }

  lemma {:induction false} FirstRead(count: nat, first: seq<nat>, eids: seq<Octet>, more: seq<Octet>)
    requires |first| == 3 && Small(first) && first[2] <= 2 && count == 8 + One(first[2] != 0) + first[1] % 2 * 2
    ensures ReadPrimary(Head(4, count) + (Numbers(first) + (eids + more)), |eids|) == ReadTimes(first, eids, more)
  {
    ItemRead(4, count, Numbers(first) + (eids + more));
    NumbersRead(first, eids + more);
    assert (eids + more)[..|eids|] == eids && (eids + more)[|eids|..] == more;
  }

  lemma {:induction false} PrimaryRead(b: Bundle, eids: seq<Octet>, sum: Checksum, rest: seq<Octet>)
    requires Fits(b)
    ensures ReadPrimary(PrimaryBytes(b, eids, sum) + rest, |eids|) == Some((PrimaryOnWire(b, eids, sum), rest))
  {
    var count := 8 + Fields(b.header.crc) + if b.isFragment then 2 else 0;
    var first, last, c := FirstItems(b), LastItems(b), b.header.crc;
    var s := sum(c, PrimaryFront(b, eids));
    ProtocolFlagsFit(b);
    assert [0x80 + count] == Head(4, count) && [0x82] == Head(4, 2);
    FirstRead(count, first, eids, Head(4, 2) + (Numbers(last) + (CrcField(c, s) + rest)));
    TimesRead(first, eids, last, c, s, rest);
    PrimaryParts(Head(4, count), Numbers(first), eids, Head(4, 2), Numbers(last), CrcField(c, s), rest);
  }

  lemma PrimaryParts(a: seq<Octet>, b: seq<Octet>, c: seq<Octet>, d: seq<Octet>, e: seq<Octet>, f: seq<Octet>,
      g: seq<Octet>)
    ensures ((a + (b + (c + (d + e)))) + f) + g == a + (b + (c + (d + (e + (f + g)))))
  {
  }

  /**
   * Reading a written bundle, whatever follows it, gives back numbers, flags of the protocol, checksums and blocks
   * after exactly its bytes, if and only if the payload is the last block and there is no other.
   */
  lemma {:induction false} RoundTrip(b: Bundle, eids: seq<Octet>, sum: Checksum, tail: seq<Octet>)
    requires Fits(b)
    ensures ReadBundle(Serialize(b, eids, sum) + tail, |eids|) ==
            if PayloadLast(b.blocks) then
              Some((PrimaryOnWire(b, eids, sum).(blocks := AllOnWire(b.blocks, sum)), tail))
            else None
  {
    var rest := BlocksBytes(b.blocks, sum) + ([0xFF] + tail);
    BundleParts([0x9F], PrimaryBytes(b, eids, sum), BlocksBytes(b.blocks, sum), [0xFF], tail);
    var input := Serialize(b, eids, sum) + tail;
    assert input[0] == 0x9F && input[1..] == PrimaryBytes(b, eids, sum) + rest;
    PrimaryRead(b, eids, sum, rest);
    BlocksRead(b.blocks, sum, tail, [0xFF] + tail);
  }

  lemma BundleParts(a: seq<Octet>, b: seq<Octet>, c: seq<Octet>, d: seq<Octet>, e: seq<Octet>)
    ensures (a + (b + (c + d))) + e == a + (b + (c + (d + e)))
  {
  }
}
