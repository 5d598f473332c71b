/**
 * The mixing of the hash is reversible, as its documentation says (external/util/src/htab_hash.c, lines 50-60): no
 * information in its three words gets lost.
 */
module HashMix {
  import opened Basics
  import opened HashLittle

  // ---- single operations ----

  lemma AddSub(x: word, y: word)
    ensures Sub(Add(x, y), y) == x && Add(Sub(x, y), y) == x
  {
  }

  /** Each bit is the sum of two bits without carry. */
  lemma {:induction false} XorBit(x: nat, y: nat, n: nat, i: nat)
    ensures Bit(XorBits(x, y, n), i) == if i < n then (if Bit(x, i) != Bit(y, i) then 1 else 0) else 0
    decreases n
  {
    if n == 0 {
      QuotientIs(0, Pow2(i), 0, 0);
    } else {
      XorHalves(x, y, n);
      if i == 0 {
        assert Pow2(0) == 1;
      } else {
        NextBit(x, i - 1);
        NextBit(y, i - 1);
        NextBit(XorBits(x, y, n), i - 1);
        XorBit(x / 2, y / 2, n - 1, i - 1);
      }
    }
  }

  lemma {:induction false} XorHalves(x: nat, y: nat, n: nat)
    requires n > 0
    ensures XorBits(x, y, n) / 2 == XorBits(x / 2, y / 2, n - 1)
    ensures XorBits(x, y, n) % 2 == if x % 2 != y % 2 then 1 else 0
  {
    QuotientIs(XorBits(x, y, n), 2, XorBits(x / 2, y / 2, n - 1), if x % 2 != y % 2 then 1 else 0);
  }

  lemma {:induction false} XorTwice(x: nat, y: nat, n: nat)
    requires x < Pow2(n)
    ensures XorBits(XorBits(x, y, n), y, n) == x
  {
    if n > 0 {
      var low, high := if x % 2 != y % 2 then 1 else 0, XorBits(x / 2, y / 2, n - 1);
      XorTwice(x / 2, y / 2, n - 1);
      QuotientIs(2 * high + low, 2, high, low);
    }
  }

  lemma {:induction false} XorBack(x: word, y: word)
    ensures Xor(Xor(x, y), y) == x
  {
    WordBits();
    XorTwice(x, y, 32);
  }

  /** The two factors of the word that belong to a rotation. */
  lemma {:induction false} Factors(k: nat)
    requires 0 < k < 32
    ensures Pow2(k) * Pow2(32 - k) == WORD
  {
    WordBits();
    Pow2Add(k, 32 - k);
  }

  /** The high `k` bits come behind the others. */
  lemma {:induction false} RotIs(x: word, k: nat, p: nat, r: nat)
    requires 0 < k < 32 && p == Pow2(k) && r == Pow2(32 - k)
    ensures p * r == WORD && Rot(x, k) == x % r * p + x / r && x / r < p
  {
    Factors(k);
    Below(x / r, x % r, p, r, x);
    Sums(x, x / r, x % r * p, p, r);
    assert Rot(x, k) == Add(x * p % WORD, x / r % WORD);
  }

  lemma Sums(x: word, high: nat, low: nat, p: nat, r: nat)
    requires x * p == high * WORD + low && low + high < WORD
    ensures x * p % WORD == low && high % WORD == high && Add(low, high) == low + high
  {
    QuotientIs(x * p, WORD, high, low);
    SmallModulo(high, WORD);
  }

  lemma Below(high: nat, low: nat, p: nat, r: nat, x: nat)
    requires p * r == WORD && x < WORD && p > 0 && r > 0 && high == x / r && low == x % r
    ensures high < p && low * p + high < WORD
    ensures x * p == high * WORD + low * p
  {
    assert x == high * r + low && low < r;
    if high >= p {
      Grows(p, high, r);
      assert false;
    }
    Grows(low + 1, r, p);
    Distribute(low, 1, p);
    Distribute(high * r, low, p);
    Reorder(high, r, p);
  }

  lemma Distribute(a: nat, b: nat, c: nat)
    ensures (a + b) * c == a * c + b * c
  {
  }

  lemma Reorder(a: nat, b: nat, c: nat)
    ensures a * b * c == a * (c * b)
  {
  }

  /** Turning on by the remaining bits gives the word back. */
  lemma {:induction false} RotBack(x: word, k: nat)
    requires 0 < k < 32
    ensures Rot(Rot(x, k), 32 - k) == x
  {
    var p, r := Pow2(k), Pow2(32 - k);
    RotIs(x, k, p, r);
    RotIs(Rot(x, k), 32 - k, r, p);
    TurnedOn(x, Rot(x, k), p, r);
  }

  lemma TurnedOn(x: nat, y: nat, p: nat, r: nat)
    requires p > 0 && r > 0 && y == x % r * p + x / r && x / r < p
    ensures y % p * r + y / p == x
  {
    QuotientIs(y, p, x % r, x / r);
  }

  // ---- one line of mix ----

  /** `a -= c; a ^= rot(c, k); c += b`, for three words in turn */
  function Turn(a: word, b: word, c: word, k: nat): (word, word)
    requires 0 < k < 32
  {
    (Xor(Sub(a, c), Rot(c, k)), Add(c, b))
  }

  function TurnBack(a: word, b: word, c: word, k: nat): (word, word)
    requires 0 < k < 32
  {
    var c := Sub(c, b);
    (Add(Xor(a, Rot(c, k)), c), c)
  }

  lemma {:induction false} TurnedBack(a: word, b: word, c: word, k: nat)
    requires 0 < k < 32
    ensures var t := Turn(a, b, c, k); TurnBack(t.0, b, t.1, k) == (a, c)
    ensures var t := TurnBack(a, b, c, k); Turn(t.0, b, t.1, k) == (a, c)
  {
    AddSub(c, b);
    XorBack(Sub(a, c), Rot(c, k));
    AddSub(a, c);
    var d := Sub(c, b);
    XorBack(a, Rot(d, k));
    AddSub(Xor(a, Rot(d, k)), d);
  }

  /** The lines of `mix`, backwards. */
  function Unmix(m: Mixed): Mixed {
    var (c, b) := TurnBack(m.c, m.a, m.b, 4);
    var (b, a) := TurnBack(b, c, m.a, 19);
    var (a, c) := TurnBack(a, b, c, 16);
    var (c, b) := TurnBack(c, a, b, 8);
    var (b, a) := TurnBack(b, c, a, 6);
    var (a, c) := TurnBack(a, b, c, 4);
    Mixed(a, b, c)
  }

  /** The words before `mix`. */
  lemma {:induction false} MixUndone(m: Mixed)
    ensures Unmix(Mix(m)) == m
  {
    var a0, b0, c0 := m.a, m.b, m.c;
    var (a1, c1) := Turn(a0, b0, c0, 4);
    var (b1, a2) := Turn(b0, c1, a1, 6);
    var (c2, b2) := Turn(c1, a2, b1, 8);
    var (a3, c3) := Turn(a2, b2, c2, 16);
    var (b3, a4) := Turn(b2, c3, a3, 19);
    var (c4, b4) := Turn(c3, a4, b3, 4);
    assert Mix(m) == Mixed(a4, b4, c4);
    TurnedBack(c3, a4, b3, 4);
    TurnedBack(b2, c3, a3, 19);
    TurnedBack(a2, b2, c2, 16);
    TurnedBack(c1, a2, b1, 8);
    TurnedBack(b0, c1, a1, 6);
    TurnedBack(a0, b0, c0, 4);
  }

  lemma {:induction false} MixReached(m: Mixed)
    ensures Mix(Unmix(m)) == m
  {
    var (c3, b3) := TurnBack(m.c, m.a, m.b, 4);
    var (b2, a3) := TurnBack(b3, c3, m.a, 19);
    var (a2, c2) := TurnBack(a3, b2, c3, 16);
    var (c1, b1) := TurnBack(c2, a2, b2, 8);
    var (b0, a1) := TurnBack(b1, c1, a2, 6);
    var (a0, c0) := TurnBack(a1, b0, c1, 4);
    assert Unmix(m) == Mixed(a0, b0, c0);
    TurnedBack(m.c, m.a, m.b, 4);
    TurnedBack(b3, c3, m.a, 19);
    TurnedBack(a3, b2, c3, 16);
    TurnedBack(c2, a2, b2, 8);
    TurnedBack(b1, c1, a2, 6);
    TurnedBack(a1, b0, c1, 4);
  }

  /** `mix` is reversible: it is undone by its lines in reverse order, and reaches every state. */
  lemma {:induction false} MixReversible(m: Mixed)
    ensures Unmix(Mix(m)) == m && Mix(Unmix(m)) == m
  {
    MixUndone(m);
    MixReached(m);
  }

  // ---- final ----

  /** `c ^= b; c -= rot(b, k)` */
  function Blend(c: word, b: word, k: nat): word
    requires 0 < k < 32
  {
    Sub(Xor(c, b), Rot(b, k))
  }

  function BlendBack(c: word, b: word, k: nat): word
    requires 0 < k < 32
  {
    Xor(Add(c, Rot(b, k)), b)
  }

  lemma {:induction false} BlendedBack(c: word, b: word, k: nat)
    requires 0 < k < 32
    ensures BlendBack(Blend(c, b, k), b, k) == c && Blend(BlendBack(c, b, k), b, k) == c
  {
    AddSub(Xor(c, b), Rot(b, k));
    XorBack(c, b);
    XorBack(Add(c, Rot(b, k)), b);
    AddSub(c, Rot(b, k));
  }

  function Unfinal(m: Mixed): Mixed {
    var c := BlendBack(m.c, m.b, 24);
    var b := BlendBack(m.b, m.a, 14);
    var a := BlendBack(m.a, c, 4);
    var c := BlendBack(c, b, 16);
    var b := BlendBack(b, a, 25);
    var a := BlendBack(a, c, 11);
    Mixed(a, b, BlendBack(c, b, 14))
  }

  /** `final` is reversible too, as long as all three words are kept. */
  lemma {:induction false} FinalReversible(m: Mixed)
    ensures Unfinal(FinalMix(m)) == m
  {
    var c1 := Blend(m.c, m.b, 14);
    var a1 := Blend(m.a, c1, 11);
    var b1 := Blend(m.b, a1, 25);
    var c2 := Blend(c1, b1, 16);
    var a2 := Blend(a1, c2, 4);
    var b2 := Blend(b1, a2, 14);
    assert FinalMix(m) == Mixed(a2, b2, Blend(c2, b2, 24));
    BlendedBack(c2, b2, 24);
    BlendedBack(b1, a2, 14);
    BlendedBack(a1, c2, 4);
    BlendedBack(c1, b1, 16);
    BlendedBack(m.b, a1, 25);
    BlendedBack(m.a, c1, 11);
    BlendedBack(m.c, m.b, 14);
  }

  // ---- the key ----

  /** The state in front of the last block, or of none. */
  function StateOf(m: Mixed, k: seq<byte>): Mixed
    decreases |k|
  {
    if |k| <= 12 then m else StateOf(Mix(AddBlock(m, k)), k[12..])
  }

  ghost predicate SameWords(k: seq<byte>, l: seq<byte>) {
    WordAt(k, 0) == WordAt(l, 0) && WordAt(k, 4) == WordAt(l, 4) && WordAt(k, 8) == WordAt(l, 8)
  }

  lemma {:induction false} SameBlocks(k: seq<byte>, l: seq<byte>)
    requires |k| >= 12 && |l| >= 12
    ensures SameWords(k, l) <==> k[..12] == l[..12]
  {
    if k[..12] == l[..12] {
      forall i | 0 <= i < 12 ensures k[i] == l[i] { assert k[..12][i] == l[..12][i]; }
    } else if SameWords(k, l) {
      WordsKept(k, l, 0);
      WordsKept(k, l, 4);
      WordsKept(k, l, 8);
      assert forall i :: 0 <= i < 12 ==> k[..12][i] == l[..12][i];
    }
  }

  /** Different blocks give different states, and so do different states the same block. */
  lemma {:induction false} BlockKept(m: Mixed, k: seq<byte>, n: Mixed, l: seq<byte>)
    requires Mix(AddBlock(m, k)) == Mix(AddBlock(n, l)) && |k| >= 12 && |l| >= 12
    ensures k[..12] == l[..12] <==> m == n
  {
    MixReversible(AddBlock(m, k));
    MixReversible(AddBlock(n, l));
    SumKept(m, k, n, l);
    SameBlocks(k, l);
  }

  lemma SumKept(m: Mixed, k: seq<byte>, n: Mixed, l: seq<byte>)
    requires AddBlock(m, k) == AddBlock(n, l)
    ensures SameWords(k, l) <==> m == n
  {
    AddKept(m.a, WordAt(k, 0), n.a, WordAt(l, 0));
    AddKept(m.b, WordAt(k, 4), n.b, WordAt(l, 4));
    AddKept(m.c, WordAt(k, 8), n.c, WordAt(l, 8));
  }

  lemma AddKept(x: word, u: word, y: word, v: word)
    requires Add(x, u) == Add(y, v)
    ensures x == y <==> u == v
  {
  }

  lemma WordsKept(k: seq<byte>, l: seq<byte>, i: nat)
    requires i + 4 <= |k| && i + 4 <= |l| && WordAt(k, i) == WordAt(l, i)
    ensures k[i] == l[i] && k[i + 1] == l[i + 1] && k[i + 2] == l[i + 2] && k[i + 3] == l[i + 3]
  {
    LittleKept(k[i], k[i + 1], k[i + 2], k[i + 3], l[i], l[i + 1], l[i + 2], l[i + 3]);
  }

  lemma LittleKept(a: byte, b: byte, c: byte, d: byte, e: byte, f: byte, g: byte, h: byte)
    requires Little(a, b, c, d) == Little(e, f, g, h)
    ensures a == e && b == f && c == g && d == h
  {
    LowByte(a, 0x1_0000 * d + (0x100 * c + b), e, 0x1_0000 * h + (0x100 * g + f));
    LowByte(b, 0x100 * d + c, f, 0x100 * h + g);
    LowByte(c, d, g, h);
  }

  lemma LowByte(b: byte, high: nat, c: byte, top: nat)
    requires 0x100 * high + b == 0x100 * top + c
    ensures b == c && high == top
  {
  }

  lemma {:induction false} FirstBlocksTell(m: Mixed, k: seq<byte>, l: seq<byte>, b: seq<byte>)
    requires |k| == |l| == 12 && k != l && b != []
    ensures StateOf(m, k + b) != StateOf(m, l + b)
  {
    assert (k + b)[12..] == b && (l + b)[12..] == b && (k + b)[..12] == k && (l + b)[..12] == l;
    if Mix(AddBlock(m, k + b)) == Mix(AddBlock(m, l + b)) { BlockKept(m, k + b, m, l + b); }
    StatesKept(Mix(AddBlock(m, k + b)), Mix(AddBlock(m, l + b)), b);
  }

  /** Two keys of one length that differ in one of their full blocks alone never come to the same state. */
  lemma {:induction false} OneBlockTells(m: Mixed, a: seq<byte>, k: seq<byte>, l: seq<byte>, b: seq<byte>, n: nat)
    requires |a| == 12 * n && |k| == |l| == 12 && k != l && b != []
    ensures StateOf(m, a + (k + b)) != StateOf(m, a + (l + b))
    decreases n
  {
    if n == 0 {
      assert a + (k + b) == k + b && a + (l + b) == l + b;
      FirstBlocksTell(m, k, l, b);
    } else {
      var tail := a[12..];
      Smaller(|a|, n);
      OneBlockTells(Mix(AddBlock(m, a)), tail, k, l, b, n - 1);
      LaterTells(m, a, k + b, l + b);
    }
  }

  lemma Smaller(size: nat, n: nat)
    requires size == 12 * n && n > 0
    ensures size >= 12 && size - 12 == 12 * (n - 1)
  {
  }

  lemma {:induction false} LaterTells(m: Mixed, a: seq<byte>, x: seq<byte>, y: seq<byte>)
    requires |a| >= 12 && x != [] && y != []
    requires StateOf(Mix(AddBlock(m, a)), a[12..] + x) != StateOf(Mix(AddBlock(m, a)), a[12..] + y)
    ensures StateOf(m, a + x) != StateOf(m, a + y)
  {
    FirstBlock(m, a, x);
    FirstBlock(m, a, y);
  }

  lemma {:induction false} FirstBlock(m: Mixed, a: seq<byte>, b: seq<byte>)
    requires |a| >= 12 && b != []
    ensures StateOf(m, a + b) == StateOf(Mix(AddBlock(m, a)), a[12..] + b)
  {
    assert (a + b)[12..] == a[12..] + b;
    assert AddBlock(m, a + b) == AddBlock(m, a);
  }

  lemma {:induction false} StatesKept(m: Mixed, n: Mixed, k: seq<byte>)
    requires m != n
    ensures StateOf(m, k) != StateOf(n, k)
    decreases |k|
  {
    if |k| > 12 {
      if Mix(AddBlock(m, k)) == Mix(AddBlock(n, k)) { BlockKept(m, k, n, k); }
      StatesKept(Mix(AddBlock(m, k)), Mix(AddBlock(n, k)), k[12..]);
    }
  }

  /** What the hash makes of that state. */
  lemma {:induction false} HashOfState(k: seq<byte>, initval: word)
    ensures var m := Begin(|k|, initval);
      Hash(k, initval) == if k == [] then m.c else Final(AddBlock(StateOf(m, k), LastBlock(k)))
  {
    HashFromState(Begin(|k|, initval), k);
  }

  /** The last one to twelve bytes. */
  function LastBlock(k: seq<byte>): seq<byte>
    decreases |k|
  {
    if |k| <= 12 then k else LastBlock(k[12..])
  }

  lemma {:induction false} HashFromState(m: Mixed, k: seq<byte>)
    ensures HashFrom(m, k, Mixer(Mix, Final)) == if k == [] then m.c else Final(AddBlock(StateOf(m, k), LastBlock(k)))
    decreases |k|
  {
    if |k| > 12 { HashFromState(Mix(AddBlock(m, k)), k[12..]); }
  }
}
