/**
 * Splitting a BPv7 bundle (components/bundle7/fragment.c, components/upcn/bundle_fragmenter.c) and
 * the chain of splits along a route (components/upcn/router_task.c, lines 341-363). Bundles are
 * described by values here; the classes that update them in place are in Fragmenter.dfy.
 */
module Fragmentation {
  import opened Basics
  import opened Reassembly

  datatype Crc = NoCrc | Crc16 | Crc32

  const PAYLOAD := 1

  /** Bit 0 of the block flags is MUST_BE_REPLICATED; `flags` holds the bits above it. */
  datatype BlockRecord = Block(kind: nat, number: nat, replicate: bool, flags: nat, crc: Crc, data: seq<Byte>)
  type Block = b: BlockRecord | |b.data| < UINT32 witness Block(PAYLOAD, 1, false, 0, NoCrc, [])

  /** The fields that splitting only copies; `eidBytes` is the encoded size of the three EIDs. */
  datatype Header = Header(key: Key, destination: string, reportTo: string, lifetime: nat, crc: Crc, eidBytes: nat)

  /** Bit 0 of the processing flags is IS_FRAGMENT; `flags` holds the bits above it. */
  datatype Bundle = Bundle(
    header: Header, isFragment: bool, flags: nat, offset: uint32, total: uint32, primaryLength: nat, blocks: seq<Block>)
  {
    /** The payload block is the first one of that type. */
    predicate Valid() { HasPayload(blocks) }

    function PayloadAt(): nat requires Valid() { FirstPayload(blocks) }

    function Payload(): seq<Byte> requires Valid() { blocks[FirstPayload(blocks)].data }

    /** What an unfragmented bundle and a fragment of an ADU look like. */
    predicate Placed()
      requires Valid()
    {
      if isFragment then offset + |Payload()| <= total else offset == 0
    }

    /** The length of the whole ADU. */
    function AduLength(): uint32 requires Valid() { if isFragment then total else |Payload()| }

    /** primary_block_length is what bundle7_recalculate_primary_block_length stored last. */
    predicate Fresh() { primaryLength == PrimarySize(this) && primaryLength < 0x1_0000 }
  }

  predicate HasPayload(blocks: seq<Block>) { blocks != [] && (blocks[0].kind == PAYLOAD || HasPayload(blocks[1..])) }

  function FirstPayload(blocks: seq<Block>): (i: nat)
    requires HasPayload(blocks)
    ensures i < |blocks| && blocks[i].kind == PAYLOAD
  {
    if blocks[0].kind == PAYLOAD then 0 else FirstPayload(blocks[1..]) + 1
  }

  lemma {:induction false} FirstPayloadIs(blocks: seq<Block>, i: nat)
    requires i < |blocks| && blocks[i].kind == PAYLOAD && forall j :: 0 <= j < i ==> blocks[j].kind != PAYLOAD
    ensures HasPayload(blocks) && FirstPayload(blocks) == i
  {
    if i > 0 { FirstPayloadIs(blocks[1..], i - 1); }
  }

  lemma {:induction false} BeforePayload(blocks: seq<Block>)
    requires HasPayload(blocks)
    ensures forall j :: 0 <= j < FirstPayload(blocks) ==> blocks[j].kind != PAYLOAD
  {
    if blocks[0].kind != PAYLOAD {
      BeforePayload(blocks[1..]);
      forall j | 0 <= j < FirstPayload(blocks) ensures blocks[j].kind != PAYLOAD {
        if j > 0 { assert blocks[j] == blocks[1..][j - 1]; }
      }
    }
  }

  lemma {:induction false} PayloadSomewhere(blocks: seq<Block>, i: nat)
    requires i < |blocks| && blocks[i].kind == PAYLOAD
    ensures HasPayload(blocks)
  {
    if i > 0 { PayloadSomewhere(blocks[1..], i - 1); }
  }

  // ---- sizes (components/bundle7/bundle7.c) ----

  function CborSize(n: nat): nat {
    if n <= 23 then 1 else if n <= 0xFF then 2 else if n <= 0xFFFF then 3 else if n <= 0xFFFF_FFFF then 5 else 9
  }

  function CrcCode(c: Crc): nat { match c case NoCrc => 0 case Crc16 => 1 case Crc32 => 2 }

  function CrcSize(c: Crc): nat { match c case NoCrc => 0 case Crc16 => 3 case Crc32 => 5 }

  function Flags(bit: bool, rest: nat): nat { 2 * rest + if bit then 1 else 0 }

  /** The block flags BPv7 knows: bits 0, 1, 2 and 4. */
  function WireFlags(b: Block): nat { Flags(b.replicate, b.flags % 4 + b.flags / 8 % 2 * 8) }

  /** The encoded size of unsigned integers that follow each other. */
  function CborSizes(items: seq<nat>): nat {
    if items == [] then 0 else CborSize(items[0]) + CborSizes(items[1..])
  }

  function BlockHeaderSize(b: Block, flags: nat): nat {
    1 + CborSizes([b.kind, b.number, flags, CrcCode(b.crc), |b.data|]) + CrcSize(b.crc)
  }

  function BlockSize(b: Block): nat { BlockHeaderSize(b, WireFlags(b)) + |b.data| }

  /** The integers in the primary block. */
  function PrimaryItems(b: Bundle): seq<nat> {
    [Flags(b.isFragment, b.flags), 7, CrcCode(b.header.crc), b.header.key.timestamp, b.header.key.sequence,
        b.header.lifetime]
    + if b.isFragment then [b.offset, b.total] else []
  }

  /** Two arrays, the integers, the EIDs and the checksum. */
  function PrimarySize(b: Bundle): nat {
    2 + CborSizes(PrimaryItems(b)) + b.header.eidBytes + CrcSize(b.header.crc)
  }

  function SumSizes(blocks: seq<Block>): nat {
    if blocks == [] then 0 else BlockSize(blocks[0]) + SumSizes(blocks[1..])
  }

  /** bundle7_get_serialized_size */
  function SerializedSize(b: Bundle): nat { 1 + b.primaryLength + SumSizes(b.blocks) + 1 }

  /** What one block counts in the minimal size of a fragment. */
  function MinBlockSize(b: Block): nat {
    if b.kind == PAYLOAD then BlockHeaderSize(b, Flags(b.replicate, b.flags)) + 2 else BlockSize(b)
  }

  function FirstBlocksMin(blocks: seq<Block>): nat {
    if blocks == [] then 0 else MinBlockSize(blocks[0]) + FirstBlocksMin(blocks[1..])
  }

  function LastBlocksMin(blocks: seq<Block>): nat {
    if blocks == [] then 0
    else
      (if blocks[0].kind == PAYLOAD || blocks[0].replicate then MinBlockSize(blocks[0]) else 0)
      + LastBlocksMin(blocks[1..])
  }

  function FragmentFields(b: Bundle): nat requires b.Valid() { if b.isFragment then CborSize(|b.Payload()|) + 1 else 0 }

  function FirstMin(b: Bundle): nat requires b.Valid() {
    b.primaryLength + (FirstBlocksMin(b.blocks) + FragmentFields(b))
  }

  function LastMin(b: Bundle): nat requires b.Valid() {
    b.primaryLength + (LastBlocksMin(b.blocks) + FragmentFields(b))
  }

  // ---- one split ----

  datatype Outcome = TooSmall | NotNeeded | Split(cut: nat)

  /** What bundle7_fragment_bundle does with a bound for the first fragment; the payload length is cut to 32 bits. */
  function Decide(b: Bundle, firstMax: nat): (o: Outcome)
    requires b.Valid()
    ensures o.Split? ==> o.cut < |b.Payload()|
  {
    if FirstMin(b) > firstMax then TooSmall
    else
      var cut := (firstMax - FirstMin(b)) % UINT32;
      if cut >= |b.Payload()| then NotNeeded else Split(cut)
  }

  /** The extension blocks each fragment gets. */
  function Replicated(blocks: seq<Block>): seq<Block> {
    if blocks == [] then []
    else if blocks[0].replicate && blocks[0].kind != PAYLOAD then [blocks[0]] + Replicated(blocks[1..])
    else Replicated(blocks[1..])
  }

  function Recalculated(b: Bundle): Bundle { b.(primaryLength := PrimarySize(b) % 0x1_0000) }

  /** The working bundle after the split. */
  function First(b: Bundle, cut: nat): Bundle
    requires b.Valid() && cut <= |b.Payload()|
  {
    var at := FirstPayload(b.blocks);
    Recalculated(b.(isFragment := true, total := b.AduLength(),
                    blocks := b.blocks[at := b.blocks[at].(data := b.blocks[at].data[..cut])]))
  }

  /** The remainder. */
  function Rest(b: Bundle, cut: nat): Bundle
    requires b.Valid() && cut <= |b.Payload()|
  {
    Recalculated(b.(isFragment := true, total := b.AduLength(), offset := (b.offset + cut) % UINT32,
                    blocks := Replicated(b.blocks) + [Block(PAYLOAD, 1, false, 0, NoCrc, b.Payload()[cut..])]))
  }

  /** bundlefragmenter_initialize_first_fragment */
  function Started(b: Bundle): Bundle
    requires b.Valid()
  {
    Recalculated(b.(isFragment := true, total := b.AduLength()))
  }

  lemma {:induction false} ReplicatedKinds(blocks: seq<Block>)
    ensures forall b <- Replicated(blocks) :: b.replicate && b.kind != PAYLOAD && b in blocks
  {
    if blocks != [] {
      ReplicatedKinds(blocks[1..]);
      assert forall b <- blocks[1..] :: b in blocks;
    }
  }

  lemma {:induction false} ReplicatedAgain(blocks: seq<Block>)
    requires forall b <- blocks :: b.replicate && b.kind != PAYLOAD
    ensures Replicated(blocks) == blocks
  {
    if blocks != [] {
      assert blocks[0] in blocks && forall b <- blocks[1..] :: b in blocks;
      ReplicatedAgain(blocks[1..]);
      assert blocks == [blocks[0]] + blocks[1..];
    }
  }

  lemma {:induction false} ReplicatedAppend(a: seq<Block>, b: seq<Block>)
    ensures Replicated(a + b) == Replicated(a) + Replicated(b)
  {
    if a == [] {
      assert a + b == b;
    } else {
      assert (a + b)[1..] == a[1..] + b;
      ReplicatedAppend(a[1..], b);
    }
  }

  /** A changed payload does not show in the replicated blocks. */
  lemma ReplicatedPayload(blocks: seq<Block>, at: nat, block: Block)
    requires at < |blocks| && blocks[at].kind == PAYLOAD == block.kind
    ensures Replicated(blocks[at := block]) == Replicated(blocks)
  {
    var a, b := blocks[..at], blocks[at + 1..];
    assert blocks == a + ([blocks[at]] + b) && blocks[at := block] == a + ([block] + b);
    ReplicatedAppend(a, [blocks[at]] + b);
    ReplicatedAppend(a, [block] + b);
    ReplicatedAppend([blocks[at]], b);
    ReplicatedAppend([block], b);
  }

  /** A further split of a remainder replicates the same blocks. */
  lemma ReplicatedOfRest(b: Bundle, cut: nat)
    requires b.Valid() && cut <= |b.Payload()|
    ensures Replicated(Rest(b, cut).blocks) == Replicated(b.blocks)
  {
    ReplicatedKinds(b.blocks);
    ReplicatedAgain(Replicated(b.blocks));
    ReplicatedAppend(Replicated(b.blocks), [Rest(b, cut).blocks[|Replicated(b.blocks)|]]);
  }

  /** `x` and `y` are fragments of the same ADU as `b` and together hold its payload. */
  ghost predicate Halves(x: Bundle, y: Bundle, b: Bundle)
    requires b.Valid()
  {
    && SharesAdu(x, b) && SharesAdu(y, b)
    && b.Payload() == x.Payload() + y.Payload()
    && x.offset == b.offset && y.offset == x.offset + |x.Payload()|
    && AllBlocks(x.blocks, b.blocks) && OnlyReplicated(y.blocks, b.blocks)
  }

  lemma FirstOfSplit(b: Bundle, cut: nat)
    requires b.Valid() && cut <= |b.Payload()| && b.Placed()
    ensures var x := First(b, cut);
      SharesAdu(x, b) && x.Payload() == b.Payload()[..cut] && x.offset == b.offset && AllBlocks(x.blocks, b.blocks)
  {
    var x := First(b, cut);
    var at := FirstPayload(b.blocks);
    BeforePayload(b.blocks);
    FirstPayloadIs(x.blocks, at);
    ReplicatedPayload(b.blocks, at, x.blocks[at]);
  }

  lemma RestOfSplit(b: Bundle, cut: nat)
    requires b.Valid() && cut <= |b.Payload()| && b.Placed()
    ensures var y := Rest(b, cut);
      SharesAdu(y, b) && y.Payload() == b.Payload()[cut..] && y.offset == b.offset + cut
          && OnlyReplicated(y.blocks, b.blocks)
  {
    var y := Rest(b, cut);
    ReplicatedKinds(b.blocks);
    forall j | 0 <= j < |Replicated(b.blocks)| ensures y.blocks[j].kind != PAYLOAD {
      assert y.blocks[j] == Replicated(b.blocks)[j] && Replicated(b.blocks)[j] in Replicated(b.blocks);
    }
    FirstPayloadIs(y.blocks, |Replicated(b.blocks)|);
    ReplicatedOfRest(b, cut);
    assert y.blocks[..|y.blocks| - 1] == Replicated(b.blocks);
  }

  lemma SplitHalves(b: Bundle, cut: nat)
    requires b.Valid() && cut <= |b.Payload()| && b.Placed()
    ensures Halves(First(b, cut), Rest(b, cut), b)
  {
    FirstOfSplit(b, cut);
    RestOfSplit(b, cut);
    assert b.Payload() == b.Payload()[..cut] + b.Payload()[cut..];
  }

  // ---- the chain of splits ----

  /** The fragments made so far and, for each entry of the source's array, which of them it points to. */
  datatype ChainRecord = Chain(frags: seq<Bundle>, index: seq<nat>)
  {
    predicate Valid() {
      && frags != [] && index != [] && index[|index| - 1] == |frags| - 1
      && AllValid(frags)
      && (forall i :: 0 <= i < |index| ==> index[i] < |frags|)
    }

    function Last(): Bundle requires frags != [] { frags[|frags| - 1] }
  }

  type Chain = c: ChainRecord | c.Valid()
    witness Chain([Bundle(Header(Key("", 0, 0), "", "", 0, NoCrc, 0), true, 0, 0, 0, 0,
        [Block(PAYLOAD, 1, false, 0, NoCrc, [])])], [0])

  predicate AllValid(frags: seq<Bundle>) { forall f <- frags :: f.Valid() }

  /** One more entry of the array: a remainder, or the last fragment once more where no split was needed. */
  function Advance(c: Chain, firstMax: nat): (r: Option<Chain>)
    ensures r.Some? ==> |r.value.index| == |c.index| + 1
  {
    var n := |c.frags| - 1;
    match Decide(c.Last(), firstMax)
    case TooSmall => None
    case NotNeeded => Some(Chain(c.frags, c.index + [n]))
    case Split(cut) =>
      SplitValid(c.Last(), cut);
      Some(Chain(c.frags[n := First(c.Last(), cut)] + [Rest(c.Last(), cut)], c.index + [n + 1]))
  }

  lemma SplitValid(b: Bundle, cut: nat)
    requires b.Valid() && cut <= |b.Payload()|
    ensures First(b, cut).Valid() && Rest(b, cut).Valid()
  {
    PayloadSomewhere(First(b, cut).blocks, FirstPayload(b.blocks));
    PayloadSomewhere(Rest(b, cut).blocks, |Replicated(b.blocks)|);
  }

  /** The bound passed for the `f`-th split: 32-bit arithmetic on the sizes of the original bundle. */
  function Bound(b: Bundle, f: nat, payloadSize: uint32): nat
    requires b.Valid()
  {
    ((if f == 0 then FirstMin(b) else LastMin(b)) % UINT32 + payloadSize) % UINT32
  }

  /** The chain that the splits from the `f`-th on make of `c`, for the planned payload sizes `plan`. */
  function Run(b: Bundle, c: Chain, plan: seq<uint32>, f: nat): (r: Option<Chain>)
    requires b.Valid() && f <= |plan|
    ensures r.Some? ==> |r.value.index| == |c.index| + |plan| - f
    decreases |plan| - f
  {
    if f == |plan| then Some(c)
    else
      var next := Advance(c, Bound(b, f, plan[f]));
      if next.None? then None else Run(b, next.value, plan, f + 1)
  }

  /** The fragments of `b` that apply_fragmentation makes; the last planned size is not used. */
  function Fragments(b: Bundle, plan: seq<uint32>): (r: Option<Chain>)
    requires b.Valid()
    ensures r.Some? ==> |r.value.index| == |plan| + 1
  {
    Run(b, Start(b), plan, 0)
  }

  function Start(b: Bundle): (c: Chain)
    requires b.Valid()
  {
    Chain([Started(b)], [0])
  }

  /** A fragment of the same ADU as `b`, with all that identifies it. */
  ghost predicate SharesAdu(f: Bundle, b: Bundle)
    requires b.Valid()
  {
    && f.isFragment && f.header == b.header && f.flags == b.flags && f.total == b.AduLength()
    && f.Valid() && f.Placed() && Replicated(f.blocks) == Replicated(b.blocks)
  }

  ghost predicate AllShareAdu(frags: seq<Bundle>, b: Bundle)
    requires b.Valid()
    ensures AllShareAdu(frags, b) ==> AllValid(frags)
  {
    forall f <- frags :: SharesAdu(f, b)
  }

  /** Each fragment starts where the one before it ends. */
  ghost predicate Consecutive(frags: seq<Bundle>) {
    forall i :: 0 <= i < |frags| - 1 ==>
        frags[i].Valid() && frags[i + 1].offset == frags[i].offset + |frags[i].Payload()|
  }

  /** The first fragment keeps every block, the others hold just the replicated ones and the payload. */
  ghost predicate BlocksKept(frags: seq<Bundle>, b: Bundle) {
    forall i :: 0 <= i < |frags| ==>
      if i == 0 then AllBlocks(frags[i].blocks, b.blocks) else OnlyReplicated(frags[i].blocks, b.blocks)
  }

  /** The fragments hold the payload of `b` one after the other. */
  ghost predicate Divides(frags: seq<Bundle>, b: Bundle)
    requires b.Valid()
  {
    && frags != [] && AllShareAdu(frags, b)
    && frags[0].offset == b.offset && Consecutive(frags)
    && Payloads(frags) == b.Payload()
    && BlocksKept(frags, b)
  }

  /** All blocks are there, in order; only the data of the payload block may differ. */
  ghost predicate AllBlocks(blocks: seq<Block>, original: seq<Block>) {
    && HasPayload(original) && |blocks| == |original|
    && var at := FirstPayload(original);
       && (forall j :: 0 <= j < |blocks| && j != at ==> blocks[j] == original[j])
       && blocks[at] == original[at].(data := blocks[at].data)
  }

  /** Exactly the blocks that must be replicated, in order, and the payload block behind them. */
  ghost predicate OnlyReplicated(blocks: seq<Block>, original: seq<Block>) {
    && blocks != []
    && blocks[..|blocks| - 1] == Replicated(original)
    && blocks[|blocks| - 1].kind == PAYLOAD
  }

  function Payloads(frags: seq<Bundle>): seq<Byte>
    requires AllValid(frags)
  {
    if frags == [] then [] else frags[0].Payload() + Payloads(frags[1..])
  }

  lemma StartDivides(b: Bundle)
    requires b.Valid() && b.Placed()
    ensures Divides([Started(b)], b)
  {
    assert Payloads([Started(b)]) == Started(b).Payload() + Payloads([]);
  }

  lemma {:induction false} PayloadsAppend(a: seq<Bundle>, b: seq<Bundle>)
    requires AllValid(a) && AllValid(b)
    ensures Payloads(a + b) == Payloads(a) + Payloads(b)
  {
    if a == [] {
      assert a + b == b;
    } else {
      assert (a + b)[1..] == a[1..] + b;
      PayloadsAppend(a[1..], b);
    }
  }

  lemma {:induction false} PayloadsSplit(frags: seq<Bundle>, b: Bundle, x: Bundle, y: Bundle)
    requires b.Valid() && x.Valid() && y.Valid() && b.Payload() == x.Payload() + y.Payload()
    requires AllValid(frags)
    ensures Payloads(frags + [b]) == Payloads(frags + [x] + [y])
  {
    PayloadsAppend(frags, [b]);
    PayloadsAppend(frags, [x] + [y]);
    assert frags + [x] + [y] == frags + ([x] + [y]);
    assert ([x] + [y])[1..] == [y] && [y][1..] == [];
    assert Payloads([y]) == y.Payload() + Payloads([]);
    assert Payloads([x] + [y]) == x.Payload() + y.Payload();
    assert [b][1..] == [] && Payloads([b]) == b.Payload() + Payloads([]);
  }

  lemma ConsecutiveSplit(frags: seq<Bundle>, b: Bundle, x: Bundle, y: Bundle)
    requires Consecutive(frags + [b]) && b.Valid() && x.Valid()
    requires x.offset == b.offset && y.offset == x.offset + |x.Payload()|
    ensures Consecutive(frags + [x] + [y])
  {
    var old_, new_ := frags + [b], frags + [x] + [y];
    forall i | 0 <= i < |new_| - 1
      ensures new_[i].Valid() && new_[i + 1].offset == new_[i].offset + |new_[i].Payload()|
    {
      if i < |frags| {
        assert old_[i].Valid() && old_[i + 1].offset == old_[i].offset + |old_[i].Payload()|;
      }
    }
  }

  lemma BlocksSplit(frags: seq<Bundle>, l: Bundle, b: Bundle, x: Bundle, y: Bundle)
    requires BlocksKept(frags + [l], b) && Replicated(l.blocks) == Replicated(b.blocks)
    requires AllBlocks(x.blocks, l.blocks) && OnlyReplicated(y.blocks, l.blocks)
    ensures BlocksKept(frags + [x] + [y], b)
  {
    var n := |frags|;
    assert (frags + [l])[n] == l;
    if n == 0 { AllOfAll(x.blocks, l.blocks, b.blocks); } else { AllOfReplicated(x.blocks, l.blocks, b.blocks); }
    forall i | 0 <= i < n ensures (frags + [x] + [y])[i] == (frags + [l])[i] {}
  }

  lemma AllOfAll(x: seq<Block>, l: seq<Block>, original: seq<Block>)
    requires AllBlocks(x, l) && AllBlocks(l, original)
    ensures AllBlocks(x, original)
  {
    BeforePayload(original);
    FirstPayloadIs(l, FirstPayload(original));
  }

  lemma AllOfReplicated(x: seq<Block>, l: seq<Block>, original: seq<Block>)
    requires AllBlocks(x, l) && OnlyReplicated(l, original)
    ensures OnlyReplicated(x, original)
  {
    ReplicatedKinds(original);
    var k := |l| - 1;
    forall j | 0 <= j < k ensures l[j].kind != PAYLOAD {
      assert l[j] == l[..k][j] && l[..k][j] in Replicated(original);
    }
    FirstPayloadIs(l, k);
    assert x[..k] == l[..k];
  }

  lemma SplitDivides(frags: seq<Bundle>, l: Bundle, b: Bundle, x: Bundle, y: Bundle)
    requires b.Valid() && Divides(frags + [l], b) && l.Valid() && Halves(x, y, l)
    ensures Divides(frags + [x] + [y], b)
  {
    var all := frags + [x] + [y];
    assert l in frags + [l];
    assert forall f <- frags :: f in frags + [l];
    assert frags != [] ==> all[0] == (frags + [l])[0];
    PayloadsSplit(frags, l, x, y);
    ConsecutiveSplit(frags, l, x, y);
    BlocksSplit(frags, l, b, x, y);
  }

  lemma SplitLastDivides(frags: seq<Bundle>, b: Bundle, x: Bundle, y: Bundle)
    requires b.Valid() && Divides(frags, b) && frags[|frags| - 1].Valid() && Halves(x, y, frags[|frags| - 1])
    ensures Divides(frags[|frags| - 1 := x] + [y], b)
  {
    LastReplaced(frags, x, y);
    SplitDivides(frags[..|frags| - 1], frags[|frags| - 1], b, x, y);
  }

  lemma LastReplaced(frags: seq<Bundle>, x: Bundle, y: Bundle)
    requires frags != []
    ensures var n := |frags| - 1;
            frags[..n] + [frags[n]] == frags && frags[n := x] + [y] == frags[..n] + [x] + [y]
  {
  }

  lemma LastShares(frags: seq<Bundle>, b: Bundle)
    requires b.Valid() && Divides(frags, b)
    ensures SharesAdu(frags[|frags| - 1], b)
  {
    assert frags[|frags| - 1] in frags;
  }

  lemma AdvanceDivides(c: Chain, b: Bundle, firstMax: nat)
    requires b.Valid() && Divides(c.frags, b) && Advance(c, firstMax).Some?
    ensures Divides(Advance(c, firstMax).value.frags, b)
  {
    var l := c.Last();
    LastShares(c.frags, b);
    var d := Decide(l, firstMax);
    if d.Split? {
      SplitHalves(l, d.cut);
      SplitLastDivides(c.frags, b, First(l, d.cut), Rest(l, d.cut));
    }
  }

  lemma {:induction false} RunDivides(b: Bundle, c: Chain, plan: seq<uint32>, f: nat)
    requires b.Valid() && f <= |plan| && Divides(c.frags, b) && Run(b, c, plan, f).Some?
    ensures Divides(Run(b, c, plan, f).value.frags, b)
    decreases |plan| - f
  {
    if f < |plan| {
      AdvanceDivides(c, b, Bound(b, f, plan[f]));
      RunDivides(b, Advance(c, Bound(b, f, plan[f])).value, plan, f + 1);
    }
  }

  /** Along every chain of splits, of a whole bundle or of a fragment, the fragments divide it. */
  lemma FragmentsDivide(b: Bundle, plan: seq<uint32>)
    requires b.Valid() && b.Placed() && Fragments(b, plan).Some?
    ensures Divides(Fragments(b, plan).value.frags, b)
  {
    StartDivides(b);
    RunDivides(b, Start(b), plan, 0);
  }

  /** A split leaves data for the remainder. */
  lemma AdvanceLast(c: Chain, b: Bundle, firstMax: nat)
    requires b.Valid() && Divides(c.frags, b) && Advance(c, firstMax).Some? && c.Last().Payload() != []
    ensures Advance(c, firstMax).value.Last().Payload() != []
  {
    LastShares(c.frags, b);
    var d := Decide(c.Last(), firstMax);
    if d.Split? { RestOfSplit(c.Last(), d.cut); }
  }

  lemma {:induction false} RunLast(b: Bundle, c: Chain, plan: seq<uint32>, f: nat)
    requires b.Valid() && f <= |plan| && Divides(c.frags, b) && Run(b, c, plan, f).Some? && c.Last().Payload() != []
    ensures Run(b, c, plan, f).value.Last().Payload() != []
    decreases |plan| - f
  {
    if f < |plan| {
      AdvanceDivides(c, b, Bound(b, f, plan[f]));
      AdvanceLast(c, b, Bound(b, f, plan[f]));
      RunLast(b, Advance(c, Bound(b, f, plan[f])).value, plan, f + 1);
    }
  }

  /** Fragments can be empty, but the last one of a bundle with data never is. */
  lemma LastHasData(b: Bundle, plan: seq<uint32>)
    requires b.Valid() && b.Placed() && Fragments(b, plan).Some? && b.Payload() != []
    ensures Fragments(b, plan).value.Last().Payload() != []
  {
    StartDivides(b);
    RunLast(b, Start(b), plan, 0);
  }
}
