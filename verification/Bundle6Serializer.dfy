/** Writing a BPv6 bundle (components/bundle6/serializer.c, lines 23-126). */
module Bundle6Serializer {
  import opened Basics
  import opened Masks
  import Sdnv
  import opened Bundle6Dictionary
  import opened Bundle6Parser

  /** A bundle to be written: its EIDs are destination, source, report-to and custodian. */
  datatype Outgoing = Outgoing(
    flags: nat, eids: seq<Option<Text>>, timestamp: nat, sequence: nat, lifetime: nat, offset: nat, total: nat,
    primaryLength: nat, blocks: seq<Block>)
  {
    predicate IsFragment() { flags % 2 == 1 }
  }

  /** The processing flags that RFC 5050 knows, from bit 0 on. */
  const MASK: seq<bool> :=
    [true, true, true, true, true, true, false, true, true, false, false, false, false, false, true, true, true,
        true, true]

  function Masked(flags: nat): nat { MaskWith(flags, MASK) }

  /** The mask keeps the fragment flag, and the result fits. */
  lemma MaskedFits(flags: nat)
    ensures Masked(flags) % 2 == flags % 2 && Masked(flags) < UINT32
  {
    MaskBound(flags, MASK);
    PowFits();
    MaskLow(flags, MASK);
  }

  lemma PowFits()
    ensures Pow2(19) < UINT32
  {
    assert Pow2(4) == 16 by { assert Pow2(1) == 2 && Pow2(2) == 4 && Pow2(3) == 8; }
    assert Pow2(5) == 2 * Pow2(4) && Pow2(6) == 2 * Pow2(5) && Pow2(7) == 2 * Pow2(6) && Pow2(8) == 2 * Pow2(7);
    assert Pow2(9) == 2 * Pow2(8) && Pow2(10) == 2 * Pow2(9) && Pow2(11) == 2 * Pow2(10) && Pow2(12) == 2 * Pow2(11);
    assert Pow2(13) == 2 * Pow2(12) && Pow2(14) == 2 * Pow2(13) && Pow2(15) == 2 * Pow2(14) && Pow2(16) == 2 * Pow2(15);
    assert Pow2(17) == 2 * Pow2(16) && Pow2(18) == 2 * Pow2(17) && Pow2(19) == 2 * Pow2(18);
  }

  function EncodeAll(vs: seq<nat>): seq<Octet> {
    if vs == [] then [] else Sdnv.Encode(vs[0]) + EncodeAll(vs[1..])
  }

  /** The numbers from the first dictionary offset to the sequence number. */
  function Middle(b: Outgoing): (r: seq<nat>)
    requires |b.eids| == 4
    ensures |r| == 10
  {
    [SchemeOffset(b.eids, 0), SspOffset(b.eids, 0), SchemeOffset(b.eids, 1), SspOffset(b.eids, 1),
     SchemeOffset(b.eids, 2), SspOffset(b.eids, 2), SchemeOffset(b.eids, 3), SspOffset(b.eids, 3),
     b.timestamp, b.sequence]
  }

  function FragmentPart(b: Outgoing): seq<Octet> {
    if b.IsFragment() then Sdnv.Encode(b.offset) + Sdnv.Encode(b.total) else []
  }

  function BlockBytes(x: Block): seq<Octet>
    requires x.kind < 0x100
  {
    [x.kind] + (Sdnv.Encode(x.flags) + (Sdnv.Encode(|x.data|) + x.data))
  }

  ghost predicate KindsOk(blocks: seq<Block>) { forall x <- blocks :: x.kind < 0x100 }

  function BlocksBytes(blocks: seq<Block>): seq<Octet>
    requires KindsOk(blocks)
  {
    if blocks == [] then [] else BlockBytes(blocks[0]) + BlocksBytes(blocks[1..])
  }

  /** What follows the length field in the primary block. */
  function AfterLength(b: Outgoing): seq<Octet>
    requires |b.eids| == 4
  {
    var dict := Dictionary(b.eids);
    EncodeAll(Middle(b)) + (Sdnv.Encode(b.lifetime / 1000000) + (Sdnv.Encode(|dict|) + (dict + FragmentPart(b))))
  }

  /** bundle6_serialize, for bundles without EID references */
  function Serialize(b: Outgoing): seq<Octet>
    requires |b.eids| == 4 && KindsOk(b.blocks)
  {
    [6] + (Sdnv.Encode(Masked(b.flags)) + (Sdnv.Encode(b.primaryLength) + (AfterLength(b) + BlocksBytes(b.blocks))))
  }

  /** The pieces handed to the write function. */
  method WriteBundle(b: Outgoing) returns (written: seq<Octet>)
    requires |b.eids| == 4 && KindsOk(b.blocks)
    ensures written == Serialize(b)
  {
    var blocks := WriteBlocks(b.blocks);
    var primary := WritePrimary(b);
    written := [6] + Sdnv.Encode(Masked(b.flags));
    written := written + Sdnv.Encode(b.primaryLength);
    written := written + primary;
    written := written + blocks;
    Associate([6], Sdnv.Encode(Masked(b.flags)), Sdnv.Encode(b.primaryLength), primary, blocks);
  }

  lemma Associate(a: seq<Octet>, b: seq<Octet>, c: seq<Octet>, d: seq<Octet>, e: seq<Octet>)
    ensures (((a + b) + c) + d) + e == a + (b + (c + (d + e)))
  {
  }

  method WritePrimary(b: Outgoing) returns (written: seq<Octet>)
    requires |b.eids| == 4
    ensures written == AfterLength(b)
  {
    var dict, schemes := WriteDictionary(b.eids);
    var middle := WriteNumbers(Middle(b));
    var fragment := FragmentPart(b);
    written := middle + Sdnv.Encode(b.lifetime / 1000000);
    written := written + Sdnv.Encode(|dict|);
    written := written + dict;
    written := written + fragment;
    Associate(middle, Sdnv.Encode(b.lifetime / 1000000), Sdnv.Encode(|dict|), dict, fragment);
  }

  method WriteNumbers(vs: seq<nat>) returns (written: seq<Octet>)
    ensures written == EncodeAll(vs)
  {
    written := [];
    for i := 0 to |vs|
      invariant written + EncodeAll(vs[i..]) == EncodeAll(vs)
    {
      assert vs[i..][0] == vs[i] && vs[i..][1..] == vs[i + 1..];
      Shift(written, Sdnv.Encode(vs[i]), EncodeAll(vs[i + 1..]));
      written := written + Sdnv.Encode(vs[i]);
    }
    assert vs[|vs|..] == [] && written + [] == written;
  }

  lemma Shift(a: seq<Octet>, b: seq<Octet>, c: seq<Octet>)
    ensures a + (b + c) == (a + b) + c
  {
  }

  method WriteBlocks(blocks: seq<Block>) returns (written: seq<Octet>)
    requires KindsOk(blocks)
    ensures written == BlocksBytes(blocks)
  {
    written := [];
    for i := 0 to |blocks|
      invariant KindsOk(blocks[i..]) && written + BlocksBytes(blocks[i..]) == BlocksBytes(blocks)
    {
      assert blocks[i..][0] == blocks[i] && blocks[i..][1..] == blocks[i + 1..];
      assert KindsOk(blocks[i + 1..]);
      Shift(written, BlockBytes(blocks[i]), BlocksBytes(blocks[i + 1..]));
      written := written + BlockBytes(blocks[i]);
    }
    assert blocks[|blocks|..] == [] && written + [] == written;
  }
}
