/**
 * The hash of strings (external/util/src/htab_hash.c, lines 94-138 and 175-403) with its three ways of
 * reading the key, chosen by the alignment of its address on a little-endian machine.
 */
module HashLittle {
  import opened Basics

  const WORD := 0x1_0000_0000

  type byte = x: int | 0 <= x < 0x100
  type word = x: int | 0 <= x < WORD

  function Add(x: word, y: word): word { if x + y < WORD then x + y else x + y - WORD }

  function Sub(x: word, y: word): word { if x >= y then x - y else x - y + WORD }

  /** The lowest `n` bits of the exclusive or. */
  function XorBits(x: nat, y: nat, n: nat): (r: nat)
    ensures r < Pow2(n)
  {
    if n == 0 then 0 else 2 * XorBits(x / 2, y / 2, n - 1) + if x % 2 != y % 2 then 1 else 0
  }

  lemma WordBits()
    ensures Pow2(32) == WORD
  {
    Pow2Add(8, 8);
    Pow2Add(16, 16);
    assert Pow2(4) == 2 * Pow2(3) && Pow2(3) == 2 * Pow2(2) && Pow2(2) == 2 * Pow2(1) && Pow2(1) == 2;
    Pow2Add(4, 4);
  }

  lemma {:induction false} Pow2Add(m: nat, n: nat)
    ensures Pow2(m + n) == Pow2(m) * Pow2(n)
    decreases m
  {
    if m > 0 { Pow2Add(m - 1, n); }
  }

  function Xor(x: word, y: word): word {
    WordBits();
    XorBits(x, y, 32)
  }

  /** Rotation to the left. */
  function Rot(x: word, k: nat): word
    requires 0 < k < 32
  {
    Add(x * Pow2(k) % WORD, x / Pow2(32 - k) % WORD)
  }

  datatype Mixed = Mixed(a: word, b: word, c: word)

  /** `mix` */
  function Mix(m: Mixed): Mixed {
    var a, b, c := m.a, m.b, m.c;
    var a := Xor(Sub(a, c), Rot(c, 4)); var c := Add(c, b);
    var b := Xor(Sub(b, a), Rot(a, 6)); var a := Add(a, c);
    var c := Xor(Sub(c, b), Rot(b, 8)); var b := Add(b, a);
    var a := Xor(Sub(a, c), Rot(c, 16)); var c := Add(c, b);
    var b := Xor(Sub(b, a), Rot(a, 19)); var a := Add(a, c);
    var c := Xor(Sub(c, b), Rot(b, 4)); var b := Add(b, a);
    Mixed(a, b, c)
  }

  /** `final`, with all that it computes */
  function FinalMix(m: Mixed): Mixed {
    var a, b, c := m.a, m.b, m.c;
    var c := Sub(Xor(c, b), Rot(b, 14));
    var a := Sub(Xor(a, c), Rot(c, 11));
    var b := Sub(Xor(b, a), Rot(a, 25));
    var c := Sub(Xor(c, b), Rot(b, 16));
    var a := Sub(Xor(a, c), Rot(c, 4));
    var b := Sub(Xor(b, a), Rot(a, 14));
    Mixed(a, b, Sub(Xor(c, b), Rot(b, 24)))
  }

  function Final(m: Mixed): word { FinalMix(m).c }

  /** The two ways of mixing; how they do it does not matter to the way the key is read. */
  datatype Mixer = Mixer(mix: Mixed -> Mixed, final: Mixed -> word)

  // ---- reading the key ----

  /** Four bytes as a number, the least significant one first. */
  function Little(b0: byte, b1: byte, b2: byte, b3: byte): word { b0 + 0x100 * b1 + 0x1_0000 * b2 + 0x100_0000 * b3 }

  /** A byte of the key, or nothing behind its end. */
  function At(k: seq<byte>, i: nat): byte { if i < |k| then k[i] else 0 }

  function WordAt(k: seq<byte>, i: nat): word { Little(At(k, i), At(k, i + 1), At(k, i + 2), At(k, i + 3)) }

  function AddBlock(m: Mixed, k: seq<byte>): Mixed {
    Mixed(Add(m.a, WordAt(k, 0)), Add(m.b, WordAt(k, 4)), Add(m.c, WordAt(k, 8)))
  }

  function Begin(length: nat, initval: word): Mixed {
    var x := Add(Add(0xdead_beef, length % WORD), initval);
    Mixed(x, x, x)
  }

  /** The hash, by whole blocks of twelve bytes, the last one filled up with zeros. */
  function HashFrom(m: Mixed, k: seq<byte>, x: Mixer): word
    decreases |k|
  {
    if k == [] then m.c
    else if |k| > 12 then HashFrom(x.mix(AddBlock(m, k)), k[12..], x)
    else x.final(AddBlock(m, k))
  }

  function Hash(k: seq<byte>, initval: word): word { HashFrom(Begin(|k|, initval), k, Mixer(Mix, Final)) }

  // ---- what the loads amount to ----

  /** Keeping the low bytes of a word. */
  lemma Masks(b0: byte, b1: byte, b2: byte, b3: byte)
    ensures Little(b0, b1, b2, b3) % 0x100_0000 == Little(b0, b1, b2, 0)
    ensures Little(b0, b1, b2, b3) % 0x1_0000 == Little(b0, b1, 0, 0)
    ensures Little(b0, b1, b2, b3) % 0x100 == Little(b0, 0, 0, 0)
  {
  }

  /** Adding the bytes one by one. */
  lemma ByBytes(x: word, b0: byte, b1: byte, b2: byte, b3: byte)
    ensures Add(Add(Add(Add(x, b0), Little(0, b1, 0, 0)), Little(0, 0, b2, 0)), Little(0, 0, 0, b3))
            == Add(x, Little(b0, b1, b2, b3))
  {
  }

  // ---- the three paths ----

  function Load32(mem: seq<byte>, p: nat): word
    requires p + 4 <= |mem|
  {
    Little(mem[p], mem[p + 1], mem[p + 2], mem[p + 3])
  }

  function Load16(mem: seq<byte>, p: nat): word
    requires p + 2 <= |mem|
  {
    Little(mem[p], mem[p + 1], 0, 0)
  }

  lemma TailAt(mem: seq<byte>, p: nat, length: nat, i: nat)
    requires p <= length <= |mem|
    ensures At(mem[p..length], i) == if p + i < length then mem[p + i] else 0
  {
  }

  lemma TailWord(mem: seq<byte>, p: nat, length: nat, i: nat)
    requires p <= length <= |mem|
    ensures var n, q := length - p - i, p + i;
      WordAt(mem[p..length], i) ==
        if n >= 4 then Little(mem[q], mem[q + 1], mem[q + 2], mem[q + 3])
        else if n == 3 then Little(mem[q], mem[q + 1], mem[q + 2], 0)
        else if n == 2 then Little(mem[q], mem[q + 1], 0, 0)
        else if n == 1 then Little(mem[q], 0, 0, 0)
        else 0
  {
    TailAt(mem, p, length, i);
    TailAt(mem, p, length, i + 1);
    TailAt(mem, p, length, i + 2);
    TailAt(mem, p, length, i + 3);
  }

  /** One word by a load, masked at the end of the key. */
  method ReadWord(mem: seq<byte>, p: nat, length: nat, i: nat) returns (w: word)
    requires p <= length && length + 3 <= |mem|
    ensures w == WordAt(mem[p..length], i)
  {
    TailWord(mem, p, length, i);
    if length <= p + i { return 0; }
    w := Load32(mem, p + i);
    Masks(mem[p + i], mem[p + i + 1], mem[p + i + 2], mem[p + i + 3]);
    match length - p - i {
      case 1 => w := w % 0x100;
      case 2 => w := w % 0x1_0000;
      case 3 => w := w % 0x100_0000;
      case _ =>
    }
  }

  /** One word by two 16-bit loads, or what is left of them at the end of the key. */
  method ReadHalves(mem: seq<byte>, p: nat, length: nat, i: nat) returns (w: word)
    requires p <= length <= |mem|
    ensures w == WordAt(mem[p..length], i)
  {
    TailWord(mem, p, length, i);
    var q := p + i;
    if length <= q { return 0; }
    match length - q {
      case 1 => w := mem[q];
      case 2 => w := Load16(mem, q);
      case 3 => w := Little(0, 0, mem[q + 2], 0) + Load16(mem, q);
      case _ => w := Load16(mem, q) + Load16(mem, q + 2) * 0x1_0000;
    }
  }

  /** One word byte by byte: in a whole block from the first byte on, in the last one from the last on. */
  method AddBytes(mem: seq<byte>, p: nat, length: nat, i: nat, x: word) returns (r: word)
    requires p <= length <= |mem|
    ensures r == Add(x, WordAt(mem[p..length], i))
  {
    if length - p > 12 && i <= 8 {
      r := AddWhole(mem, p, length, i, x);
    } else {
      r := AddLast(mem, p, length, i, x);
    }
  }

  method AddWhole(mem: seq<byte>, p: nat, length: nat, i: nat, x: word) returns (r: word)
    requires p + i + 4 <= length <= |mem|
    ensures r == Add(x, WordAt(mem[p..length], i))
  {
    TailWord(mem, p, length, i);
    var q := p + i;
    r := Add(x, mem[q]);
    r := Add(r, Little(0, mem[q + 1], 0, 0));
    r := Add(r, Little(0, 0, mem[q + 2], 0));
    r := Add(r, Little(0, 0, 0, mem[q + 3]));
    ByBytes(x, mem[q], mem[q + 1], mem[q + 2], mem[q + 3]);
  }

  /** A word in the last block. */
  method AddLast(mem: seq<byte>, p: nat, length: nat, i: nat, x: word) returns (r: word)
    requires p <= length <= |mem|
    ensures r == Add(x, WordAt(mem[p..length], i))
  {
    TailWord(mem, p, length, i);
    var q := p + i;
    if length <= q { return x; }
    match length - q {
      case 1 => r := AddOne(x, mem[q]);
      case 2 => r := AddTwo(x, mem[q], mem[q + 1]);
      case 3 => r := AddThree(x, mem[q], mem[q + 1], mem[q + 2]);
      case _ => r := AddFour(x, mem[q], mem[q + 1], mem[q + 2], mem[q + 3]);
    }
  }

  /** The cases of the switch, each falling through to the next. */
  method AddFour(x: word, b0: byte, b1: byte, b2: byte, b3: byte) returns (r: word)
    ensures r == Add(x, Little(b0, b1, b2, b3))
  {
    r := Add(x, Little(0, 0, 0, b3));
    r := AddThree(r, b0, b1, b2);
  }

  method AddThree(x: word, b0: byte, b1: byte, b2: byte) returns (r: word)
    ensures r == Add(x, Little(b0, b1, b2, 0))
  {
    r := Add(x, Little(0, 0, b2, 0));
    r := AddTwo(r, b0, b1);
  }

  method AddTwo(x: word, b0: byte, b1: byte) returns (r: word)
    ensures r == Add(x, Little(b0, b1, 0, 0))
  {
    r := Add(x, Little(0, b1, 0, 0));
    r := AddOne(r, b0);
  }

  method AddOne(x: word, b0: byte) returns (r: word)
    ensures r == Add(x, Little(b0, 0, 0, 0))
  {
    r := Add(x, b0);
  }

  datatype Path = Words | Halves | Bytes

  /** hashlittle chooses the path by the two lowest bits of the address. */
  function PathOf(address: nat): Path {
    if address % 4 == 0 then Words else if address % 2 == 0 then Halves else Bytes
  }

  /** One block, added to the state by one of the paths. */
  method ReadBlock(path: Path, mem: seq<byte>, p: nat, length: nat, m: Mixed) returns (r: Mixed)
    requires p <= length && length + 3 <= |mem|
    ensures r == AddBlock(m, mem[p..length])
  {
    var a, b, c;
    match path {
      case Words =>
        a := ReadWord(mem, p, length, 0);
        b := ReadWord(mem, p, length, 4);
        c := ReadWord(mem, p, length, 8);
        r := Mixed(Add(m.a, a), Add(m.b, b), Add(m.c, c));
      case Halves =>
        a := ReadHalves(mem, p, length, 0);
        b := ReadHalves(mem, p, length, 4);
        c := ReadHalves(mem, p, length, 8);
        r := Mixed(Add(m.a, a), Add(m.b, b), Add(m.c, c));
      case Bytes =>
        a := AddBytes(mem, p, length, 0, m.a);
        b := AddBytes(mem, p, length, 4, m.b);
        c := AddBytes(mem, p, length, 8, m.c);
        r := Mixed(a, b, c);
    }
  }

  /**
   * hashlittle: by all three paths the hash is that of the bytes of the key, whatever is in the memory
   * behind them.
   */
  method HashKey(address: nat, mem: seq<byte>, length: nat, initval: word, x: Mixer) returns (r: word)
    requires length + 3 <= |mem|
    ensures r == HashFrom(Begin(length, initval), mem[..length], x)
  {
    var path := PathOf(address);
    var m := Begin(length, initval);
    var p := 0;
    assert mem[0..length] == mem[..length];
    while length - p > 12
      invariant p <= length && HashFrom(Begin(length, initval), mem[..length], x) == HashFrom(m, mem[p..length], x)
    {
      assert mem[p..length][12..] == mem[p + 12..length];
      m := ReadBlock(path, mem, p, length, m);
      m := x.mix(m);
      p := p + 12;
    }
    if p == length { return m.c; }
    m := ReadBlock(path, mem, p, length, m);
    r := x.final(m);
  }
}
