/** Flags that a protocol knows, given by a mask from the lowest bit on. */
module Masks {
  import opened Basics

  function MaskWith(flags: nat, mask: seq<bool>): nat {
    if mask == [] then 0 else (if mask[0] then flags % 2 else 0) + 2 * MaskWith(flags / 2, mask[1..])
  }

  lemma {:induction false} MaskBound(flags: nat, mask: seq<bool>)
    ensures MaskWith(flags, mask) < Pow2(|mask|)
  {
    if mask != [] { MaskBound(flags / 2, mask[1..]); }
  }

  lemma {:induction false} MaskTwice(flags: nat, mask: seq<bool>)
    ensures MaskWith(MaskWith(flags, mask), mask) == MaskWith(flags, mask)
  {
    if mask != [] {
      MaskTwice(flags / 2, mask[1..]);
      var low, high := if mask[0] then flags % 2 else 0, MaskWith(flags / 2, mask[1..]);
      assert (low + 2 * high) / 2 == high && (low + 2 * high) % 2 == low;
    }
  }

  /** Just the bits that the mask names are kept. */
  lemma {:induction false} MaskBits(flags: nat, mask: seq<bool>, i: nat)
    ensures Bit(MaskWith(flags, mask), i) == if i < |mask| && mask[i] then Bit(flags, i) else 0
    decreases |mask|
  {
    if mask == [] {
      QuotientIs(0, Pow2(i), 0, 0);
    } else {
      var low, high := if mask[0] then flags % 2 else 0, MaskWith(flags / 2, mask[1..]);
      QuotientIs(low + 2 * high, 2, high, low);
      if i > 0 {
        NextBit(flags, i - 1);
        NextBit(low + 2 * high, i - 1);
        MaskBits(flags / 2, mask[1..], i - 1);
      }
    }
  }

  lemma {:induction false} MaskLow(flags: nat, mask: seq<bool>)
    requires mask != [] && mask[0]
    ensures MaskWith(flags, mask) % 2 == flags % 2
  {
    Parity(flags % 2, MaskWith(flags / 2, mask[1..]));
  }

  lemma Parity(low: nat, high: nat)
    requires low < 2
    ensures (low + 2 * high) % 2 == low
  {
  }

  /** The lowest bit, if it is not set, does not matter. */
  lemma {:induction false} EvenFlags(n: nat, mask: seq<bool>)
    requires mask != []
    ensures MaskWith(2 * n, mask) == 2 * MaskWith(n, mask[1..])
  {
  }

  lemma {:induction false} NoFlags(mask: seq<bool>)
    ensures MaskWith(0, mask) == 0
  {
    if mask != [] { NoFlags(mask[1..]); }
  }

  /** A flag that the mask does not have. */
  lemma {:induction false} FlagDropped(i: nat, mask: seq<bool>)
    requires i < |mask| && !mask[i]
    ensures MaskWith(Pow2(i), mask) == 0
    decreases i
  {
    if i == 0 {
      NoFlags(mask[1..]);
    } else {
      EvenFlags(Pow2(i - 1), mask);
      FlagDropped(i - 1, mask[1..]);
    }
  }
}
