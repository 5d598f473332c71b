/** How large the fragments get: the bounds of components/bundle7/bundle7.c, lines 24-265, against the splits. */
module FragmentSizes {
  import opened Reassembly
  import opened Fragmentation

  /** Only one payload block, and block flags of one byte. */
  predicate OnePayload(b: Bundle)
    requires b.Valid()
  {
    && (forall i :: 0 <= i < |b.blocks| && i != b.PayloadAt() ==> b.blocks[i].kind != PAYLOAD)
    && b.blocks[b.PayloadAt()].flags < 0x80
  }

  lemma FlagSize(rest: nat)
    ensures CborSize(Flags(true, rest)) == CborSize(Flags(false, rest))
  {
  }

  lemma WireFlagSize(b: Block)
    ensures CborSize(WireFlags(b)) == 1
  {
  }

  lemma {:induction false} SumSizesAppend(a: seq<Block>, b: seq<Block>)
    ensures SumSizes(a + b) == SumSizes(a) + SumSizes(b)
    ensures FirstBlocksMin(a + b) == FirstBlocksMin(a) + FirstBlocksMin(b)
  {
    if a == [] {
      assert a + b == b;
    } else {
      assert (a + b)[1..] == a[1..] + b;
      SumSizesAppend(a[1..], b);
    }
  }

  lemma {:induction false} ExtensionSizes(blocks: seq<Block>)
    requires forall i :: 0 <= i < |blocks| ==> blocks[i].kind != PAYLOAD
    ensures SumSizes(blocks) == FirstBlocksMin(blocks)
  {
    if blocks != [] { ExtensionSizes(blocks[1..]); }
  }

  /** The bytes by which the minimal size of the payload block exceeds its header with `cut` bytes of data. */
  function Slack(payload: Block, cut: nat): int {
    CborSize(Flags(payload.replicate, payload.flags)) - 1 + CborSize(|payload.data|) - CborSize(cut) + 2
  }

  lemma {:induction false} CborSizesAppend(a: seq<nat>, b: seq<nat>)
    ensures CborSizes(a + b) == CborSizes(a) + CborSizes(b)
  {
    if a == [] {
      assert a + b == b;
    } else {
      assert (a + b)[1..] == a[1..] + b;
      CborSizesAppend(a[1..], b);
    }
  }

  lemma {:induction false} CborSizesCons(n: nat, rest: seq<nat>)
    ensures CborSizes([n] + rest) == CborSize(n) + CborSizes(rest)
  {
    assert ([n] + rest)[1..] == rest;
  }

  lemma BlockHeader(b: Block, flags: nat)
    ensures BlockHeaderSize(b, flags) ==
            1 + CborSize(b.kind) + CborSize(b.number) + CborSize(flags) + CborSize(CrcCode(b.crc)) + CborSize(|b.data|)
                + CrcSize(b.crc)
  {
    var crc, size := CrcCode(b.crc), |b.data|;
    CborSizesCons(size, []);
    CborSizesCons(crc, [size] + []);
    CborSizesCons(flags, [crc] + ([size] + []));
    CborSizesCons(b.number, [flags] + ([crc] + ([size] + [])));
    CborSizesCons(b.kind, [b.number] + ([flags] + ([crc] + ([size] + []))));
    assert [b.kind] + ([b.number] + ([flags] + ([crc] + ([size] + [])))) == [b.kind, b.number, flags, crc, size];
  }

  lemma PayloadBlockSize(p: Block, cut: nat)
    requires p.kind == PAYLOAD && cut <= |p.data|
    ensures BlockSize(p.(data := p.data[..cut])) == MinBlockSize(p) - Slack(p, cut) + cut
  {
    var q := p.(data := p.data[..cut]);
    WireFlagSize(q);
    BlockHeader(p, Flags(p.replicate, p.flags));
    BlockHeader(q, WireFlags(q));
  }

  lemma {:induction false} SizeAround(front: seq<Block>, p: Block, q: Block, back: seq<Block>)
    requires forall i :: 0 <= i < |front| ==> front[i].kind != PAYLOAD
    requires forall i :: 0 <= i < |back| ==> back[i].kind != PAYLOAD
    ensures SumSizes(front + ([q] + back)) == FirstBlocksMin(front + ([p] + back)) - MinBlockSize(p) + BlockSize(q)
  {
    SumSizesAppend(front, [p] + back);
    SumSizesAppend(front, [q] + back);
    SumSizesAppend([p], back);
    SumSizesAppend([q], back);
    ExtensionSizes(front);
    ExtensionSizes(back);
    assert SumSizes([q]) == BlockSize(q) + SumSizes([]) && FirstBlocksMin([p]) == MinBlockSize(p) + FirstBlocksMin([]);
  }

  lemma UpdateAround(blocks: seq<Block>, at: nat, q: Block)
    requires at < |blocks|
    ensures blocks == blocks[..at] + ([blocks[at]] + blocks[at + 1..])
    ensures blocks[at := q] == blocks[..at] + ([q] + blocks[at + 1..])
  {
  }

  lemma SizeOfBlocks(b: Bundle, cut: nat)
    requires b.Valid() && OnePayload(b) && cut <= |b.Payload()|
    ensures SumSizes(First(b, cut).blocks) == FirstBlocksMin(b.blocks) - Slack(b.blocks[b.PayloadAt()], cut) + cut
  {
    var at := b.PayloadAt();
    var p := b.blocks[at];
    var q := p.(data := p.data[..cut]);
    BeforePayload(b.blocks);
    UpdateAround(b.blocks, at, q);
    SizeAround(b.blocks[..at], p, q, b.blocks[at + 1..]);
    PayloadBlockSize(p, cut);
  }

  /** What becoming a fragment adds to the primary block. */
  lemma PrimaryGrows(b: Bundle, s: Bundle)
    requires b.Valid() && b.Placed() && s.isFragment && s.header == b.header && s.flags == b.flags
    requires s.offset == b.offset && s.total == b.AduLength()
    ensures PrimarySize(s) == PrimarySize(b) + if b.isFragment then 0 else 1 + CborSize(|b.Payload()|)
  {
    if !b.isFragment {
      var h := b.header;
      var rest := [7, CrcCode(h.crc), h.key.timestamp, h.key.sequence, h.lifetime];
      var more: seq<nat> := [s.offset, s.total];
      assert PrimaryItems(b) == [Flags(false, b.flags)] + rest;
      assert PrimaryItems(s) == [Flags(true, b.flags)] + (rest + more);
      CborSizesAppend(rest, more);
      assert CborSizes(more) == CborSize(s.offset) + CborSizes([s.total]);
      FlagSize(b.flags);
    }
  }

  /** The exact size of the first part. */
  lemma FirstSize(b: Bundle, cut: nat)
    requires b.Valid() && b.Placed() && b.Fresh() && OnePayload(b) && cut <= |b.Payload()|
    requires PrimarySize(First(b, cut)) < 0x1_0000
    ensures var fields := 1 + CborSize(|b.Payload()|);
            SerializedSize(First(b, cut)) ==
              FirstMin(b) + cut + 2 - Slack(b.blocks[b.PayloadAt()], cut) + if b.isFragment then -fields else fields
  {
    SizeOfBlocks(b, cut);
    PrimaryGrows(b, First(b, cut));
  }

  /**
   * The first part of a split keeps to its bound just when the bundle was a fragment before (or when
   * the bound is so far off that the 32-bit payload length wrapped): the size of the fragment fields
   * is reserved for bundles that have them already, not for those that get them.
   */
  lemma SplitFits(b: Bundle, firstMax: nat)
    requires b.Valid() && b.Placed() && b.Fresh() && OnePayload(b) && Decide(b, firstMax).Split?
    requires PrimarySize(First(b, Decide(b, firstMax).cut)) < 0x1_0000
    ensures SerializedSize(First(b, Decide(b, firstMax).cut)) <= firstMax <==>
            b.isFragment || firstMax - FirstMin(b) >= UINT32
  {
    FirstSize(b, Decide(b, firstMax).cut);
  }

  lemma StartedMin(b: Bundle)
    requires b.Valid() && b.Placed() && b.Fresh() && PrimarySize(Started(b)) < 0x1_0000
    ensures FirstMin(Started(b)) == FirstMin(b) + if b.isFragment then 0 else 2 * (1 + CborSize(|b.Payload()|))
  {
    PrimaryGrows(b, Started(b));
    assert Started(b).blocks == b.blocks;
  }

  /**
   * The bounds are computed from the original bundle, the splits start from a copy that is marked as
   * a fragment: unless the original was a fragment, the first fragment gets fewer bytes than planned.
   */
  lemma FirstCut(b: Bundle, planned: uint32)
    requires b.Valid() && b.Placed() && b.Fresh() && PrimarySize(Started(b)) < 0x1_0000
    requires FirstMin(b) + planned < UINT32 && planned < |b.Payload()|
    ensures var lost := if b.isFragment then 0 else 2 * (1 + CborSize(|b.Payload()|));
            Decide(Started(b), Bound(b, 0, planned)) == if planned < lost then TooSmall else Split(planned - lost)
  {
    StartedMin(b);
    assert Started(b).blocks == b.blocks;
  }

  /**
   * A bundle that was no fragment yet gets a first fragment without data just when exactly the lost bytes are
   * planned for it.
   */
  lemma EmptyFirst(b: Bundle, planned: uint32)
    requires b.Valid() && b.Placed() && b.Fresh() && PrimarySize(Started(b)) < 0x1_0000 && !b.isFragment
    requires FirstMin(b) + planned < UINT32 && planned < |b.Payload()|
    ensures Decide(Started(b), Bound(b, 0, planned)) == Split(0) <==> planned == 2 * (1 + CborSize(|b.Payload()|))
  {
    FirstCut(b, planned);
  }

  // ---- the later fragments ----

  function PayloadMins(blocks: seq<Block>): nat {
    if blocks == [] then 0
    else (if blocks[0].kind == PAYLOAD then MinBlockSize(blocks[0]) else 0) + PayloadMins(blocks[1..])
  }

  /** The minimal size of a later fragment counts the replicated blocks and the payload block. */
  lemma {:induction false} LastMinSplit(blocks: seq<Block>)
    ensures LastBlocksMin(blocks) == FirstBlocksMin(Replicated(blocks)) + PayloadMins(blocks)
  {
    if blocks != [] {
      LastMinSplit(blocks[1..]);
      if blocks[0].replicate && blocks[0].kind != PAYLOAD {
        assert ([blocks[0]] + Replicated(blocks[1..]))[1..] == Replicated(blocks[1..]);
      }
    }
  }

  lemma {:induction false} OnePayloadMin(blocks: seq<Block>, at: nat)
    requires at < |blocks| && blocks[at].kind == PAYLOAD
    requires forall i :: 0 <= i < |blocks| && i != at ==> blocks[i].kind != PAYLOAD
    ensures PayloadMins(blocks) == MinBlockSize(blocks[at])
  {
    if at == 0 {
      NoPayloadMin(blocks[1..]);
    } else {
      OnePayloadMin(blocks[1..], at - 1);
    }
  }

  lemma {:induction false} NoPayloadMin(blocks: seq<Block>)
    requires forall i :: 0 <= i < |blocks| ==> blocks[i].kind != PAYLOAD
    ensures PayloadMins(blocks) == 0
  {
    if blocks != [] { NoPayloadMin(blocks[1..]); }
  }

  /** A remainder of splits of `b`, as Rest makes it. */
  ghost predicate Remainder(r: Bundle, b: Bundle)
    requires b.Valid()
  {
    && SharesAdu(r, b) && r.Fresh()
    && r.blocks == Replicated(b.blocks) + [Block(PAYLOAD, 1, false, 0, NoCrc, r.Payload())]
  }

  lemma RestIsRemainder(x: Bundle, b: Bundle, cut: nat)
    requires b.Valid() && SharesAdu(x, b) && cut <= |x.Payload()| && PrimarySize(Rest(x, cut)) < 0x1_0000
    ensures Remainder(Rest(x, cut), b)
  {
    RestOfSplit(x, cut);
    assert PrimarySize(Rest(x, cut)) % 0x1_0000 == PrimarySize(Rest(x, cut));
    assert PrimaryItems(Rest(x, cut)) == PrimaryItems(Recalculated(Rest(x, cut)));
  }

  /**
   * By how much the minimal size of a remainder exceeds the one planned with: the fragment fields of the
   * primary block, and what the header of its payload block takes more than that of the original.
   */
  function LaterLost(b: Bundle, r: Bundle): int
    requires b.Valid() && r.Valid()
  {
    var header := MinBlockSize(Block(PAYLOAD, 1, false, 0, NoCrc, r.Payload())) - MinBlockSize(b.blocks[b.PayloadAt()]);
    if b.isFragment then CborSize(r.offset) - CborSize(b.offset)
        + CborSize(|r.Payload()|) - CborSize(|b.Payload()|) + header
    else CborSize(r.offset) + CborSize(r.total) + 1 + CborSize(|r.Payload()|) + header
  }

  lemma RemainderPrimary(b: Bundle, r: Bundle)
    requires b.Valid() && b.Placed() && SharesAdu(r, b)
    ensures PrimarySize(r) == PrimarySize(b) + CborSize(r.offset) + CborSize(r.total)
                              - if b.isFragment then CborSize(b.offset) + CborSize(b.total) else 0
  {
    var h := b.header;
    var rest := [7, CrcCode(h.crc), h.key.timestamp, h.key.sequence, h.lifetime];
    PrimaryIs(b, rest);
    PrimaryIs(r, rest);
    FlagSize(b.flags);
  }

  lemma {:induction false} PrimaryIs(b: Bundle, rest: seq<nat>)
    requires rest == [7, CrcCode(b.header.crc), b.header.key.timestamp, b.header.key.sequence, b.header.lifetime]
    ensures CborSizes(PrimaryItems(b)) == CborSize(Flags(b.isFragment, b.flags)) + CborSizes(rest)
                                          + if b.isFragment then CborSize(b.offset) + CborSize(b.total) else 0
  {
    var more: seq<nat> := if b.isFragment then [b.offset, b.total] else [];
    assert PrimaryItems(b) == [Flags(b.isFragment, b.flags)] + (rest + more);
    CborSizesCons(Flags(b.isFragment, b.flags), rest + more);
    CborSizesAppend(rest, more);
    if b.isFragment {
      CborSizesCons(b.offset, [b.total]);
      CborSizesCons(b.total, []);
      assert more == [b.offset] + [b.total] && [b.total] == [b.total] + [];
    }
  }

  lemma LaterMin(b: Bundle, r: Bundle)
    requires b.Valid() && b.Placed() && b.Fresh() && OnePayload(b) && Remainder(r, b)
    ensures FirstMin(r) == LastMin(b) + LaterLost(b, r)
  {
    var payload := Block(PAYLOAD, 1, false, 0, NoCrc, r.Payload());
    LastMinSplit(b.blocks);
    OnePayloadMin(b.blocks, b.PayloadAt());
    SumSizesAppend(Replicated(b.blocks), [payload]);
    assert FirstBlocksMin([payload]) == MinBlockSize(payload) + FirstBlocksMin([]);
    RemainderPrimary(b, r);
  }

  /** The exact cut of a later fragment. */
  lemma LaterCut(b: Bundle, r: Bundle, f: nat, planned: uint32)
    requires b.Valid() && b.Placed() && b.Fresh() && OnePayload(b) && Remainder(r, b)
    requires f > 0 && LastMin(b) + planned < UINT32 && planned - LaterLost(b, r) < UINT32
    ensures var lost := LaterLost(b, r);
            Decide(r, Bound(b, f, planned)) ==
              if planned < lost then TooSmall
              else if planned - lost >= |r.Payload()| then NotNeeded
              else Split(planned - lost)
  {
    LaterMin(b, r);
  }
}
