/**
 * The CRC models of pyupcn/crc.py (lines 47-243) and the streaming checksums of components/upcn/crc.c:
 * numbers are bit strings of their width, the most significant bit first.
 */
module Crc {
  import opened Basics
  import opened CrcBits

  type Byte = b: Bits | |b| == 8 witness [false, false, false, false, false, false, false, false]

  /** A byte as a number, for the table. */
  function Value(bits: Bits): (r: nat)
  {
    if bits == [] then 0 else 2 * Value(bits[..|bits| - 1]) + if bits[|bits| - 1] then 1 else 0
  }

  function ToBits(n: nat, w: nat): (r: Bits)
    ensures |r| == w
  {
    if w == 0 then [] else ToBits(n / 2, w - 1) + [n % 2 == 1]
  }

  lemma {:induction false} BitsOfValue(bits: Bits)
    ensures ToBits(Value(bits), |bits|) == bits
  {
    if bits != [] {
      BitsOfValue(bits[..|bits| - 1]);
      assert bits == bits[..|bits| - 1] + [bits[|bits| - 1]];
    }
  }

  lemma {:induction false} ValueBound(bits: Bits)
    ensures Value(bits) < Pow2(|bits|)
  {
    if bits != [] { ValueBound(bits[..|bits| - 1]); }
  }

  lemma {:induction false} ByteValue(b: Byte)
    ensures Value(b) < 256 && ToBits(Value(b), 8) == b
  {
    ValueBound(b);
    BitsOfValue(b);
    assert Pow2(8) == 2 * Pow2(7) && Pow2(7) == 2 * Pow2(6) && Pow2(6) == 2 * Pow2(5) && Pow2(5) == 2 * Pow2(4);
    assert Pow2(4) == 2 * Pow2(3) && Pow2(3) == 2 * Pow2(2) && Pow2(2) == 2 * Pow2(1);
  }

  // ---- the message ----

  /** All bits of the message, each byte reversed if the model says so. */
  function MessageBits(value: seq<Byte>, reflected: bool): Bits {
    if value == [] then [] else (if reflected then Reverse(value[0]) else value[0]) + MessageBits(value[1..], reflected)
  }

  /** The register after all bytes of the message, by the table. */
  function Bytes(crc: Bits, value: seq<Byte>, reflected: bool, poly: Bits): (r: Bits)
    requires 8 <= |crc| == |poly|
    ensures |r| == |poly|
    decreases |value|
  {
    if value == [] then crc
    else Bytes(ByteStep(crc, if reflected then Reverse(value[0]) else value[0], poly), value[1..], reflected, poly)
  }

  /** By the table or bit by bit, the remainder is the same. */
  lemma {:induction false} BytesIsRemainder(crc: Bits, value: seq<Byte>, reflected: bool, poly: Bits)
    requires 8 <= |crc| == |poly|
    ensures Bytes(crc, value, reflected, poly) == Remainder(Dividend(crc, MessageBits(value, reflected)), poly)
    decreases |value|
  {
    BytesIsDivide(crc, value, reflected, poly);
    DivideIsRemainder(crc, MessageBits(value, reflected), poly);
  }

  lemma {:induction false} BytesIsDivide(crc: Bits, value: seq<Byte>, reflected: bool, poly: Bits)
    requires 8 <= |crc| == |poly|
    ensures Bytes(crc, value, reflected, poly) == Divide(crc, MessageBits(value, reflected), poly)
    decreases |value|
  {
    if value != [] {
      var byte := if reflected then Reverse(value[0]) else value[0];
      ByteIsBits(crc, byte, poly);
      BytesIsDivide(ByteStep(crc, byte, poly), value[1..], reflected, poly);
      DivideAppend(crc, byte, MessageBits(value[1..], reflected), poly);
    }
  }

  // ---- the reflected path ----

  /** An entry of the reflected table. */
  function ReflectedEntry(index: Byte, poly: Bits): (r: Bits)
    requires 8 <= |poly|
    ensures |r| == |poly|
  {
    Reverse(Entry(Reverse(index), poly))
  }

  /** One byte by the reflected table: the low end selects the entry, the rest moves down. */
  function FastStep(crc: Bits, byte: Byte, poly: Bits): (r: Bits)
    requires 8 <= |crc| == |poly|
    ensures |r| == |poly|
  {
    var w := |crc|;
    Xor(Zeros(8) + crc[..w - 8], ReflectedEntry(Xor(crc[w - 8..], byte), poly))
  }

  function FastBytes(crc: Bits, value: seq<Byte>, poly: Bits): (r: Bits)
    requires 8 <= |crc| == |poly|
    ensures |r| == |poly|
    decreases |value|
  {
    if value == [] then crc else FastBytes(FastStep(crc, value[0], poly), value[1..], poly)
  }

  lemma {:induction false} ReverseXor(a: Bits, b: Bits)
    requires |a| == |b|
    ensures Reverse(Xor(a, b)) == Xor(Reverse(a), Reverse(b))
  {
    XorAt(a, b);
    ReverseAt(a);
    ReverseAt(b);
    ReverseAt(Xor(a, b));
    XorAt(Reverse(a), Reverse(b));
    var x, y := Reverse(Xor(a, b)), Xor(Reverse(a), Reverse(b));
    assert forall i :: 0 <= i < |a| ==> x[i] == y[i];
  }

  lemma {:induction false} ReverseTwice(a: Bits)
    ensures Reverse(Reverse(a)) == a
  {
    ReverseAt(a);
    ReverseAt(Reverse(a));
  }

  lemma {:induction false} ReverseConcat(a: Bits, b: Bits)
    ensures Reverse(a + b) == Reverse(b) + Reverse(a)
  {
    ReverseAt(a);
    ReverseAt(b);
    ReverseAt(a + b);
  }

  lemma {:induction false} ReverseZeros(n: nat)
    ensures Reverse(Zeros(n)) == Zeros(n)
  {
    ZerosAt(n);
    ReverseAt(Zeros(n));
  }

  lemma {:induction false} FastIsReversed(crc: Bits, byte: Byte, poly: Bits)
    requires 8 <= |crc| == |poly|
    ensures FastStep(Reverse(crc), byte, poly) == Reverse(ByteStep(crc, Reverse(byte), poly))
  {
    var w := |crc|;
    var high, low := crc[..8], crc[8..];
    assert crc == high + low;
    ReverseConcat(high, low);
    assert Reverse(crc)[w - 8..] == Reverse(high) && Reverse(crc)[..w - 8] == Reverse(low);
    ReverseXor(Reverse(high), byte);
    ReverseTwice(high);
    ReverseConcat(low, Zeros(8));
    ReverseZeros(8);
    ReverseXor(low + Zeros(8), Entry(Xor(high, Reverse(byte)), poly));
  }

  /** The fast path is the slow one with everything reversed, the initial value included. */
  lemma {:induction false} FastBytesReversed(crc: Bits, value: seq<Byte>, poly: Bits)
    requires 8 <= |crc| == |poly|
    ensures FastBytes(Reverse(crc), value, poly) == Reverse(Bytes(crc, value, true, poly))
    decreases |value|
  {
    if value != [] {
      FastIsReversed(crc, value[0], poly);
      FastBytesReversed(ByteStep(crc, Reverse(value[0]), poly), value[1..], poly);
    }
  }

  /** The fast path agrees with the slow one on all messages just when the initial value is its own reversal. */
  lemma {:induction false} FastAgrees(initial: Bits, poly: Bits)
    requires 8 <= |initial| == |poly|
    ensures (forall value :: FastBytes(initial, value, poly) == Reverse(Bytes(initial, value, true, poly)))
            <==> Reverse(initial) == initial
  {
    if Reverse(initial) == initial {
      forall value ensures FastBytes(initial, value, poly) == Reverse(Bytes(initial, value, true, poly)) {
        FastBytesReversed(initial, value, poly);
      }
    } else {
      var value: seq<Byte> := [];
      assert FastBytes(initial, value, poly) != Reverse(Bytes(initial, value, true, poly));
    }
  }

  /**
   * With the lowest bit of the divisor set, an initial value that is not its own reversal makes them differ
   * on every message.
   */
  lemma {:induction false} FastAgreesEver(initial: Bits, value: seq<Byte>, poly: Bits)
    requires 8 <= |initial| == |poly| && poly[|poly| - 1]
    ensures FastBytes(initial, value, poly) == Reverse(Bytes(initial, value, true, poly))
            <==> Reverse(initial) == initial
  {
    ReverseTwice(initial);
    FastBytesReversed(Reverse(initial), value, poly);
    var fast, slow := Bytes(Reverse(initial), value, true, poly), Bytes(initial, value, true, poly);
    if Reverse(fast) == Reverse(slow) {
      ReverseTwice(fast);
      ReverseTwice(slow);
      BytesIsDivide(Reverse(initial), value, true, poly);
      BytesIsDivide(initial, value, true, poly);
      DivideInjective(Reverse(initial), initial, MessageBits(value, true), poly);
    }
  }

  /** Any chunking of the input gives the same register. */
  lemma {:induction false} FastBytesAppend(crc: Bits, a: seq<Byte>, b: seq<Byte>, poly: Bits)
    requires 8 <= |crc| == |poly|
    ensures FastBytes(crc, a + b, poly) == FastBytes(FastBytes(crc, a, poly), b, poly)
    decreases |a|
  {
    if a == [] {
      assert a + b == b;
    } else {
      assert (a + b)[1..] == a[1..] + b;
      FastBytesAppend(FastStep(crc, a[0], poly), a[1..], b, poly);
    }
  }

  function Concat(chunks: seq<seq<Byte>>): seq<Byte> {
    if chunks == [] then [] else chunks[0] + Concat(chunks[1..])
  }

  function FeedAll(crc: Bits, chunks: seq<seq<Byte>>, poly: Bits): (r: Bits)
    requires 8 <= |crc| == |poly|
    ensures |r| == |poly|
    decreases |chunks|
  {
    if chunks == [] then crc else FeedAll(FastBytes(crc, chunks[0], poly), chunks[1..], poly)
  }

  lemma {:induction false} ChunksDoNotMatter(crc: Bits, chunks: seq<seq<Byte>>, poly: Bits)
    requires 8 <= |crc| == |poly|
    ensures FeedAll(crc, chunks, poly) == FastBytes(crc, Concat(chunks), poly)
    decreases |chunks|
  {
    if chunks != [] {
      FastBytesAppend(crc, chunks[0], Concat(chunks[1..]), poly);
      ChunksDoNotMatter(FastBytes(crc, chunks[0], poly), chunks[1..], poly);
    }
  }

  // ---- a model and its lazily computed tables ----

  datatype Model = Model(poly: Bits, initial: Bits, finalXor: Bits, inputReflected: bool, resultReflected: bool)
  {
    predicate Valid() { 8 <= |poly| == |initial| == |finalXor| }
  }

  /** The checksum as the parameters of the model describe it. */
  function Checksum(m: Model, value: seq<Byte>): Bits
    requires m.Valid()
  {
    var r := Remainder(Dividend(m.initial, MessageBits(value, m.inputReflected)), m.poly);
    Xor(if m.resultReflected then Reverse(r) else r, m.finalXor)
  }

  /** reflect */
  method Reflect(num: Bits) returns (r: Bits)
    ensures r == Reverse(num)
  {
    r := [];
    var i := 0;
    ReverseAt(num);
    while i < |num|
      invariant i <= |num| && r == Reverse(num)[..i]
    {
      r := r + [num[|num| - 1 - i]];
      i := i + 1;
    }
  }

  function TableEntry(i: nat, reflected: bool, poly: Bits): (r: Bits)
    requires 8 <= |poly|
  {
    if reflected then ReflectedEntry(ToBits(i, 8), poly) else Entry(ToBits(i, 8), poly)
  }

  /** The table, or the reflected one. */
  function Table(reflected: bool, poly: Bits): (r: seq<Bits>)
    requires 8 <= |poly|
    ensures |r| == 256 && forall i :: 0 <= i < 256 ==> r[i] == TableEntry(i, reflected, poly)
  {
    seq(256, i requires 0 <= i < 256 => TableEntry(i, reflected, poly))
  }

  lemma {:induction false} StepBranch(cur: Bits, poly: Bits)
    requires |cur| == |poly| > 0
    ensures Step(cur, false, poly) == if cur[0] then Xor(cur[1..] + [false], poly) else cur[1..] + [false]
  {
    XorZeros(cur[1..] + [false]);
  }

  /** The inner loop of the table functions. */
  method EightSteps(byte: Byte, poly: Bits) returns (cur: Bits)
    requires 8 <= |poly|
    ensures cur == Entry(byte, poly)
  {
    cur := byte + Zeros(|poly| - 8);
    for bit := 0 to 8
      invariant |cur| == |poly| && Entry(byte, poly) == Run(cur, 8 - bit, poly)
    {
      StepBranch(cur, poly);
      if cur[0] {
        cur := Xor(cur[1..] + [false], poly);
      } else {
        cur := cur[1..] + [false];
      }
    }
  }

  method EightStepsReflected(byte: Byte, poly: Bits) returns (cur: Bits)
    requires 8 <= |poly|
    ensures cur == ReflectedEntry(byte, poly)
  {
    var d := Reflect(byte);
    cur := EightSteps(d, poly);
    cur := Reflect(cur);
  }

  method CalculateEntry(i: nat, reflected: bool, poly: Bits) returns (e: Bits)
    requires 8 <= |poly|
    ensures e == TableEntry(i, reflected, poly)
  {
    if reflected { e := EightStepsReflected(ToBits(i, 8), poly); } else { e := EightSteps(ToBits(i, 8), poly); }
  }

  /** calculate_crc_table and calculate_crc_table_reflected */
  method CalculateTable(reflected: bool, poly: Bits) returns (table: seq<Bits>)
    requires 8 <= |poly|
    ensures table == Table(reflected, poly)
  {
    table := [];
    for i := 0 to 256
      invariant |table| == i && table == Table(reflected, poly)[..i]
    {
      var e := CalculateEntry(i, reflected, poly);
      table := table + [e];
    }
  }

  class Calculator {
    const model: Model
    /** Empty until it is needed. */
    var table: seq<Bits>
    var reflectedTable: seq<Bits>

    ghost predicate Valid()
      reads this
    {
      && model.Valid()
      && (table == [] || table == Table(false, model.poly))
      && (reflectedTable == [] || reflectedTable == Table(true, model.poly))
    }

    constructor (model: Model)
      requires model.Valid()
      ensures Valid() && this.model == model
    {
      this.model := model;
      table, reflectedTable := [], [];
    }

    /** __call__: the checksum of the model, unless the fast path starts from a value that is not its own reversal */
    method Call(value: seq<Byte>) returns (r: Bits)
      requires Valid()
      modifies this
      ensures Valid()
      ensures model.inputReflected && model.resultReflected ==>
                r == Xor(FastBytes(model.initial, value, model.poly), model.finalXor)
      ensures !(model.inputReflected && model.resultReflected) || Reverse(model.initial) == model.initial ==>
                r == Checksum(model, value)
    {
      BytesIsRemainder(model.initial, value, model.inputReflected, model.poly);
      if model.inputReflected && model.resultReflected {
        r := FastReflected(value);
        if Reverse(model.initial) == model.initial { FastBytesReversed(model.initial, value, model.poly); }
        return;
      }
      var crc := Slow(value);
      if model.resultReflected { crc := Reflect(crc); }
      r := Xor(crc, model.finalXor);
    }

    /** The loop with the plain table. */
    method Slow(value: seq<Byte>) returns (crc: Bits)
      requires Valid()
      modifies this
      ensures Valid() && crc == Bytes(model.initial, value, model.inputReflected, model.poly)
    {
      if table == [] { table := CalculateTable(false, model.poly); }
      var w := |model.poly|;
      crc := model.initial;
      for i := 0 to |value|
        invariant Valid() && table != [] && |crc| == w
        invariant Bytes(model.initial, value, model.inputReflected, model.poly) ==
                  Bytes(crc, value[i..], model.inputReflected, model.poly)
      {
        var cur: Byte := value[i];
        if model.inputReflected { cur := Reflect(cur); }
        assert value[i..][0] == value[i] && value[i..][1..] == value[i + 1..];
        crc := NextByte(table, crc, cur, model.poly);
      }
    }

    method FastReflected(value: seq<Byte>) returns (r: Bits)
      requires Valid()
      modifies this
      ensures Valid() && r == Xor(FastBytes(model.initial, value, model.poly), model.finalXor)
    {
      if reflectedTable == [] { reflectedTable := CalculateTable(true, model.poly); }
      var w := |model.poly|;
      var crc := model.initial;
      for i := 0 to |value|
        invariant Valid() && reflectedTable != [] && |crc| == w
        invariant FastBytes(model.initial, value, model.poly) == FastBytes(crc, value[i..], model.poly)
      {
        assert value[i..][0] == value[i] && value[i..][1..] == value[i + 1..];
        crc := NextByteReflected(reflectedTable, crc, value[i], model.poly);
      }
      r := Xor(crc, model.finalXor);
    }
  }

  /** The loop body with the plain table: the byte is added at the top, then the top selects the entry. */
  method NextByte(table: seq<Bits>, crc: Bits, byte: Byte, poly: Bits) returns (r: Bits)
    requires 8 <= |crc| == |poly| && table == Table(false, poly)
    ensures r == ByteStep(crc, byte, poly)
  {
    var x := Xor(crc, byte + Zeros(|crc| - 8));
    var index: Byte := x[..8];
    assert crc == crc[..8] + crc[8..];
    XorConcat(crc[..8], crc[8..], byte, Zeros(|crc| - 8));
    XorZeros(crc[8..]);
    assert index == Xor(crc[..8], byte) && x[8..] == crc[8..];
    ByteValue(index);
    r := Xor(x[8..] + Zeros(8), table[Value(index)]);
  }

  /** The loop body with the reflected table. */
  method NextByteReflected(table: seq<Bits>, crc: Bits, byte: Byte, poly: Bits) returns (r: Bits)
    requires 8 <= |crc| == |poly| && table == Table(true, poly)
    ensures r == FastStep(crc, byte, poly)
  {
    var w := |crc|;
    var index := Xor(crc[w - 8..], byte);
    ByteValue(index);
    r := Xor(Zeros(8) + crc[..w - 8], table[Value(index)]);
  }

  // ---- the streams of components/upcn/crc.c ----

  function Ones(w: nat): (r: Bits)
    ensures |r| == w
  {
    if w == 0 then [] else [true] + Ones(w - 1)
  }

  lemma {:induction false} OnesAt(w: nat)
    ensures forall i :: 0 <= i < w ==> Ones(w)[i]
  {
    if w > 0 { OnesAt(w - 1); }
  }

  lemma {:induction false} OnesReversed(w: nat)
    ensures Reverse(Ones(w)) == Ones(w)
  {
    OnesAt(w);
    ReverseAt(Ones(w));
  }

  /** A reflected checksum that starts from and ends with all ones, fed in pieces; the tables are constants. */
  class Stream {
    const poly: Bits
    const table: seq<Bits>
    var checksum: Bits

    ghost predicate Valid()
      reads this
    {
      8 <= |poly| == |checksum| && table == Table(true, poly)
    }

    constructor (poly: Bits)
      requires 8 <= |poly|
      ensures Valid() && this.poly == poly && checksum == Ones(|poly|)
    {
      this.poly := poly;
      table := Table(true, poly);
      checksum := Ones(|poly|);
    }

    /** crc_feed_bytes */
    method FeedBytes(data: seq<Byte>)
      requires Valid()
      modifies this
      ensures Valid() && checksum == FastBytes(old(checksum), data, poly)
    {
      for i := 0 to |data|
        invariant Valid() && FastBytes(old(checksum), data, poly) == FastBytes(checksum, data[i..], poly)
      {
        assert data[i..][0] == data[i] && data[i..][1..] == data[i + 1..];
        checksum := NextByteReflected(table, checksum, data[i], poly);
      }
    }

    /** feed_eof */
    method FeedEof()
      requires Valid()
      modifies this
      ensures Valid() && checksum == Xor(old(checksum), Ones(|poly|))
    {
      checksum := Xor(checksum, Ones(|poly|));
    }
  }

  /** Whatever the pieces, the stream ends with the checksum of the whole input. */
  lemma {:induction false} StreamIsChecksum(chunks: seq<seq<Byte>>, poly: Bits)
    requires 8 <= |poly|
    ensures var ones := Ones(|poly|);
            Xor(FeedAll(ones, chunks, poly), ones) == Checksum(Model(poly, ones, ones, true, true), Concat(chunks))
  {
    var ones, value := Ones(|poly|), Concat(chunks);
    OnesReversed(|poly|);
    ChunksDoNotMatter(ones, chunks, poly);
    FastBytesReversed(ones, value, poly);
    BytesIsRemainder(ones, value, true, poly);
  }

  // ---- models whose fast path differs ----

  /** 0xb2aa, the initial value of crc16_riello. */
  const RielloInitial: Bits :=
    [true, false, true, true, false, false, true, false, true, false, true, false, true, false, true, false]

  lemma {:induction false} RielloDiffers(value: seq<Byte>, poly: Bits)
    requires |poly| == 16 && poly[15]
    ensures FastBytes(RielloInitial, value, poly) != Reverse(Bytes(RielloInitial, value, true, poly))
  {
    ReverseAt(RielloInitial);
    assert Reverse(RielloInitial)[0] == RielloInitial[15];
    FastAgreesEver(RielloInitial, value, poly);
  }
}
