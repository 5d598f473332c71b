/** The in-place form of the splits described in Fragmentation.dfy. */
module Fragmenter {
  import opened Basics
  import opened Reassembly
  import opened Fragmentation

  class BundleObject {
    const header: Header
    var isFragment: bool
    var flags: nat
    var offset: uint32
    var total: uint32
    var primaryLength: nat
    var blocks: seq<Block>
    /** Where payload_block points to. */
    var payload: nat

    ghost predicate Valid()
      reads this
    {
      HasPayload(blocks) && payload == FirstPayload(blocks)
    }

    function Value(): Bundle
      reads this
    {
      Bundle(header, isFragment, flags, offset, total, primaryLength, blocks)
    }

    /** bundlefragmenter_create_new_fragment without payload, the blocks filled in by the caller */
    constructor (prototype: BundleObject, blocks: seq<Block>, payload: nat)
      requires prototype.Valid()
      ensures Value() == prototype.Value().(isFragment := true, total := prototype.Value().AduLength(),
              blocks := blocks)
      ensures this.payload == payload
    {
      header := prototype.header;
      isFragment := true;
      flags := prototype.flags;
      offset := prototype.offset;
      total := if prototype.isFragment then prototype.total else |prototype.blocks[prototype.payload].data|;
      primaryLength := prototype.primaryLength;
      this.blocks := blocks;
      this.payload := payload;
    }

    /** bundle7_recalculate_primary_block_length; the result is cut to 16 bits */
    method Recalculate()
      modifies this`primaryLength
      ensures Value() == Recalculated(old(Value()))
    {
      primaryLength := PrimarySize(Bundle(header, isFragment, flags, offset, total, primaryLength, blocks)) % 0x1_0000;
    }

    /** bundle7_get_first_fragment_min_size */
    method GetFirstMin() returns (size: nat)
      requires Valid()
      ensures size == FirstMin(Value())
    {
      size := 0;
      for i := 0 to |blocks|
        invariant size + FirstBlocksMin(blocks[i..]) == FirstBlocksMin(blocks)
      {
        assert blocks[i..][0] == blocks[i] && blocks[i..][1..] == blocks[i + 1..];
        size := size + MinBlockSize(blocks[i]);
      }
      if isFragment { size := size + CborSize(|blocks[payload].data|) + 1; }
      size := primaryLength + size;
    }

    /** bundle7_get_last_fragment_min_size */
    method GetLastMin() returns (size: nat)
      requires Valid()
      ensures size == LastMin(Value())
    {
      size := 0;
      for i := 0 to |blocks|
        invariant size + LastBlocksMin(blocks[i..]) == LastBlocksMin(blocks)
      {
        assert blocks[i..][0] == blocks[i] && blocks[i..][1..] == blocks[i + 1..];
        if blocks[i].kind == PAYLOAD || blocks[i].replicate {
          size := size + MinBlockSize(blocks[i]);
        }
      }
      if isFragment { size := size + CborSize(|blocks[payload].data|) + 1; }
      size := primaryLength + size;
    }

    /** The loop over the extension blocks in bundle7_fragment_bundle. */
    method Replicate() returns (r: seq<Block>)
      ensures r == Replicated(blocks)
    {
      r := [];
      for i := 0 to |blocks|
        invariant r + Replicated(blocks[i..]) == Replicated(blocks)
      {
        assert blocks[i..][0] == blocks[i] && blocks[i..][1..] == blocks[i + 1..];
        if blocks[i].replicate && blocks[i].kind != PAYLOAD {
          assert r + ([blocks[i]] + Replicated(blocks[i + 1..])) == (r + [blocks[i]]) + Replicated(blocks[i + 1..]);
          r := r + [blocks[i]];
        }
      }
      assert blocks[|blocks|..] == [] && r + [] == r;
    }

    /** bundle7_fragment_bundle: null when the bound is too low, this bundle when it fits as it is */
    method FragmentBundle(firstMax: nat) returns (remainder: BundleObject?)
      requires Valid()
      modifies this
      ensures Valid()
      ensures match Decide(old(Value()), firstMax)
              case TooSmall => remainder == null && Value() == old(Value())
              case NotNeeded => remainder == this && Value() == old(Value())
              case Split(cut) => && remainder != null && fresh(remainder) && remainder.Valid()
                                 && Value() == First(old(Value()), cut) && remainder.Value() == Rest(old(Value()), cut)
    {
      var firstMin := GetFirstMin();
      if firstMin > firstMax { return null; }
      var cut := (firstMax - firstMin) % UINT32;
      if cut >= |blocks[payload].data| { return this; }
      remainder := Remainder(cut);
      Shorten(cut);
    }

    /** The second part: a new bundle with the replicated blocks and the rest of the payload. */
    method Remainder(cut: nat) returns (remainder: BundleObject)
      requires Valid() && cut <= |Value().Payload()|
      ensures fresh(remainder) && remainder.Valid() && remainder.Value() == Rest(Value(), cut)
    {
      var replicated := Replicate();
      var rest := Block(PAYLOAD, 1, false, 0, NoCrc, blocks[payload].data[cut..]);
      remainder := new BundleObject(this, replicated + [rest], |replicated|);
      remainder.offset := (offset + cut) % UINT32;
      remainder.Recalculate();
      RestPlace(Value(), cut);
    }

    /** The first part: this bundle with a shorter payload. */
    method Shorten(cut: nat)
      requires Valid() && cut <= |Value().Payload()|
      modifies this
      ensures Valid() && Value() == First(old(Value()), cut)
    {
      FirstPlace(Value(), cut);
      if !isFragment { total := |blocks[payload].data|; }
      blocks := blocks[payload := blocks[payload].(data := blocks[payload].data[..cut])];
      isFragment := true;
      Recalculate();
    }
  }

  lemma FirstPlace(b: Bundle, cut: nat)
    requires b.Valid() && cut <= |b.Payload()|
    ensures First(b, cut).Valid() && FirstPayload(First(b, cut).blocks) == FirstPayload(b.blocks)
  {
    BeforePayload(b.blocks);
    FirstPayloadIs(First(b, cut).blocks, FirstPayload(b.blocks));
  }

  lemma RestPlace(b: Bundle, cut: nat)
    requires b.Valid() && cut <= |b.Payload()|
    ensures Rest(b, cut).Valid() && FirstPayload(Rest(b, cut).blocks) == |Replicated(b.blocks)|
  {
    ReplicatedKinds(b.blocks);
    var r := Rest(b, cut).blocks;
    forall j | 0 <= j < |Replicated(b.blocks)| ensures r[j].kind != PAYLOAD {
      assert r[j] == Replicated(b.blocks)[j] && Replicated(b.blocks)[j] in Replicated(b.blocks);
    }
    FirstPayloadIs(r, |Replicated(b.blocks)|);
  }

  /** bundlefragmenter_initialize_first_fragment: a copy of the bundle, its payload block searched anew */
  method InitializeFirst(input: BundleObject) returns (result: BundleObject)
    requires input.Valid()
    ensures fresh(result) && result.Valid() && result.Value() == Started(input.Value())
  {
    var at := 0;
    while input.blocks[at].kind != PAYLOAD
      invariant at < |input.blocks| && HasPayload(input.blocks[at..])
      invariant at + FirstPayload(input.blocks[at..]) == FirstPayload(input.blocks)
      decreases |input.blocks| - at
    {
      assert input.blocks[at..][0] == input.blocks[at] && input.blocks[at..][1..] == input.blocks[at + 1..];
      at := at + 1;
    }
    result := new BundleObject(input, input.blocks, at);
    result.Recalculate();
  }

  /** One round of the loop in apply_fragmentation: `last` is the fragment made last, in `c` as a value. */
  method SplitLast(last: BundleObject, c: Chain, firstMax: nat) returns (next: BundleObject?, c': Chain)
    requires last.Valid() && last.Value() == c.Last()
    modifies last
    ensures next != null <==> Advance(c, firstMax).Some?
    ensures next != null ==> c' == Advance(c, firstMax).value && next.Valid() && next.Value() == c'.Last()
    ensures next == null || next == last || fresh(next)
  {
    next := last.FragmentBundle(firstMax);
    c' := c;
    if next == last {
      c' := Chain(c.frags, c.index + [|c.frags| - 1]);
    } else if next != null {
      c' := Chain(c.frags[|c.frags| - 1 := last.Value()] + [next.Value()], c.index + [|c.frags|]);
    }
  }

  /** The splits of apply_fragmentation: what its array holds, or that one of the bounds was too low. */
  method ApplyFragmentation(bundle: BundleObject, plan: seq<uint32>) returns (r: Option<Chain>)
    requires bundle.Valid()
    ensures r == Fragments(bundle.Value(), plan)
  {
    var last := InitializeFirst(bundle);
    var c: Chain := Chain([last.Value()], [0]);
    ghost var b := bundle.Value();
    assert c == Start(b);
    for f := 0 to |plan|
      invariant unchanged(bundle) && fresh(last) && last.Valid() && last.Value() == c.Last()
      invariant Run(b, c, plan, f) == Fragments(b, plan)
    {
      var firstMax := GetBound(bundle, f, plan[f]);
      var next;
      next, c := SplitLast(last, c, firstMax);
      if next == null { return None; }
      last := next;
    }
    return Some(c);
  }

  /** The bound for the `f`-th split. */
  method GetBound(bundle: BundleObject, f: nat, payloadSize: uint32) returns (size: nat)
    requires bundle.Valid()
    ensures size == Bound(bundle.Value(), f, payloadSize)
  {
    if f == 0 { size := bundle.GetFirstMin(); } else { size := bundle.GetLastMin(); }
    size := (size % UINT32 + payloadSize) % UINT32;
  }
}
