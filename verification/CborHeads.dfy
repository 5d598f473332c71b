/**
 * The heads of CBOR items (section 3 of RFC 8949), whose sizes components/bundle7/bundle7.c adds up
 * (lines 24-45), and the flags that are encoded with them (lines 81-91).
 */
module CborHeads {
  import opened Basics
  import opened Bytes
  import opened Fragmentation

  const UINT64 := 0x1_0000_0000_0000_0000

  /** How many bytes follow the first one of a head: the low bits 24 to 27 stand for 1, 2, 4 and 8. */
  function Width(low: nat): nat { if low == 24 then 1 else if low == 25 then 2 else if low == 26 then 4 else 8 }

  /** What a head says, and its size: the major type is in the high bits of the first byte. */
  datatype HeadOf = HeadOf(major: nat, value: nat, size: nat)

  /** Reading a head; the other low bits are not those of a number. */
  function ReadHead(input: seq<Octet>): (r: Option<HeadOf>)
    ensures r.Some? ==> 0 < r.value.size <= |input|
  {
    if input == [] then None
    else
      var major, low := input[0] / 0x20, input[0] % 0x20;
      if low < 24 then Some(HeadOf(major, low, 1))
      else if low > 27 || |input| < 1 + Width(low) then None
      else Some(HeadOf(major, BigEndian(input[1..1 + Width(low)]), 1 + Width(low)))
  }

  /** The low bits of the shortest head of a number. */
  function LowBits(n: nat): nat {
    if n < 24 then n
    else if n < Pow256(1) then 24
    else if n < Pow256(2) then 25
    else if n < Pow256(4) then 26
    else 27
  }

  function Head(major: nat, n: nat): seq<Octet>
    requires major < 8
  {
    [major * 0x20 + LowBits(n)] + if n < 24 then [] else ToBytes(n, Width(LowBits(n)))
  }

  /** The size that is added up for a number is that of a head from which it can be read. */
  lemma {:induction false} HeadRead(major: nat, n: nat, tail: seq<Octet>)
    requires major < 8 && n < UINT64
    ensures ReadHead(Head(major, n) + tail) == Some(HeadOf(major, n, CborSize(n))) && |Head(major, n)| == CborSize(n)
  {
    Pow256Is();
    var input, low := Head(major, n) + tail, LowBits(n);
    assert input[0] / 0x20 == major && input[0] % 0x20 == low;
    if n >= 24 {
      BigEndianOfBytes(n, Width(low));
      assert input[1..1 + Width(low)] == ToBytes(n, Width(low));
    }
  }

  /** No shorter head says the same number. */
  lemma {:induction false} HeadShortest(input: seq<Octet>)
    ensures ReadHead(input).Some? ==> CborSize(ReadHead(input).value.value) <= ReadHead(input).value.size
  {
    if ReadHead(input).Some? && input[0] % 0x20 >= 24 {
      Pow256Is();
      BigEndianBound(input[1..1 + Width(input[0] % 0x20)]);
    }
  }

  // ---- flags ----

  /** What is in memory is a word whose lowest bit is kept apart. */
  lemma LowestBit(bit: bool, rest: nat, i: nat)
    ensures Bit(Flags(bit, rest), 0) == (if bit then 1 else 0)
    ensures Bit(Flags(bit, rest), i + 1) == Bit(rest, i)
  {
    NextBit(Flags(bit, rest), i);
    assert Flags(bit, rest) / 2 == rest;
  }

  /** On the wire a block has the bits 0, 1, 2 and 4 of its flags and no others. */
  lemma WireBits(b: Block, i: nat)
    ensures Bit(WireFlags(b), i) ==
            if i == 0 || i == 1 || i == 2 || i == 4 then Bit(Flags(b.replicate, b.flags), i) else 0
  {
    if i == 0 {
      LowestBit(b.replicate, Masked(b.flags), 0);
      LowestBit(b.replicate, b.flags, 0);
    } else {
      LowestBit(b.replicate, Masked(b.flags), i - 1);
      LowestBit(b.replicate, b.flags, i - 1);
      MaskedBits(b.flags, i - 1);
    }
  }

  /** The mask for the flags without the lowest one. */
  function Masked(f: nat): nat { f % 4 + f / 8 % 2 * 8 }

  lemma MaskedBits(f: nat, i: nat)
    ensures Bit(Masked(f), i) == if i == 0 || i == 1 || i == 3 then Bit(f, i) else 0
  {
    LowDigits(f);
    ThreeBits(f % 2, f / 2 % 2, f / 8 % 2, i);
    assert Pow2(0) == 1 && Pow2(1) == 2 && Pow2(3) == 8 by { Powers(); }
  }

  lemma Powers()
    ensures Pow2(0) == 1 && Pow2(1) == 2 && Pow2(2) == 4 && Pow2(3) == 8
  {
    assert Pow2(1) == 2 * Pow2(0) && Pow2(2) == 2 * Pow2(1) && Pow2(3) == 2 * Pow2(2);
  }

  /** The bit above the lowest `i` bits `r`. */
  lemma {:induction false} BitIs(n: nat, i: nat, p: nat, half: nat, bit: nat, r: nat)
    requires p == Pow2(i) && bit < 2 && r < p && n == (2 * half + bit) * p + r
    ensures Bit(n, i) == bit
  {
    QuotientIs(n, p, 2 * half + bit, r);
    QuotientIs(2 * half + bit, 2, half, bit);
  }

  lemma ThreeBits(a: nat, b: nat, d: nat, i: nat)
    requires a < 2 && b < 2 && d < 2
    ensures Bit(a + 2 * b + 8 * d, i) == if i == 0 then a else if i == 1 then b else if i == 3 then d else 0
  {
    Powers();
    var n := a + 2 * b + 8 * d;
    if i == 0 {
      BitIs(n, 0, 1, b + 4 * d, a, 0);
    } else if i == 1 {
      BitIs(n, 1, 2, 2 * d, b, a);
    } else if i == 2 {
      BitIs(n, 2, 4, d, 0, a + 2 * b);
    } else if i == 3 {
      BitIs(n, 3, 8, 0, d, a + 2 * b);
    } else {
      PowerGrows(i);
      BitIs(n, i, Pow2(i), 0, 0, n);
    }
  }

  lemma LowDigits(f: nat)
    ensures f % 4 == f % 2 + 2 * (f / 2 % 2)
  {
    var g := f / 2;
    QuotientIs(f, 4, g / 2, f % 2 + 2 * (g % 2));
  }

  lemma {:induction false} PowerGrows(i: nat)
    requires i >= 4
    ensures Pow2(i) >= 16
  {
    if i > 4 {
      PowerGrows(i - 1);
    } else {
      assert Pow2(4) == 2 * Pow2(3) && Pow2(3) == 2 * Pow2(2) && Pow2(2) == 2 * Pow2(1) && Pow2(1) == 2;
    }
  }
}
