/**
 * Cyclic redundancy checks over bit strings, the most significant bit first: polynomial division, the
 * bitwise register and the register that takes a byte at a time.
 */
module CrcBits {

  type Bits = seq<bool>

  function Zeros(n: nat): (r: Bits)
    ensures |r| == n
  {
    if n == 0 then [] else [false] + Zeros(n - 1)
  }

  function Xor(a: Bits, b: Bits): (r: Bits)
    requires |a| == |b|
    ensures |r| == |a|
  {
    if a == [] then [] else [a[0] != b[0]] + Xor(a[1..], b[1..])
  }

  function Reverse(a: Bits): (r: Bits)
    ensures |r| == |a|
  {
    if a == [] then [] else Reverse(a[1..]) + [a[0]]
  }

  lemma {:induction false} ZerosAt(n: nat)
    ensures forall i :: 0 <= i < n ==> !Zeros(n)[i]
  {
    if n > 0 { ZerosAt(n - 1); }
  }

  lemma {:induction false} XorAt(a: Bits, b: Bits)
    requires |a| == |b|
    ensures forall i :: 0 <= i < |a| ==> Xor(a, b)[i] == (a[i] != b[i])
  {
    if a != [] {
      XorAt(a[1..], b[1..]);
      forall i | 0 <= i < |a| ensures Xor(a, b)[i] == (a[i] != b[i]) {
        if i > 0 { assert Xor(a, b)[i] == Xor(a[1..], b[1..])[i - 1]; }
      }
    }
  }

  lemma {:induction false} ReverseAt(a: Bits)
    ensures forall i :: 0 <= i < |a| ==> Reverse(a)[i] == a[|a| - 1 - i]
  {
    if a != [] {
      ReverseAt(a[1..]);
      forall i | 0 <= i < |a| ensures Reverse(a)[i] == a[|a| - 1 - i] {
        if i < |a| - 1 { assert Reverse(a)[i] == Reverse(a[1..])[i]; }
      }
    }
  }

  lemma {:induction false} XorZeros(a: Bits)
    ensures Xor(a, Zeros(|a|)) == a
  {
    ZerosAt(|a|);
    XorAt(a, Zeros(|a|));
  }

  lemma {:induction false} XorSwap(a: Bits, b: Bits)
    requires |a| == |b|
    ensures Xor(a, b) == Xor(b, a)
  {
    XorAt(a, b);
    XorAt(b, a);
  }

  /** What a concatenation of equal halves adds up to. */
  lemma {:induction false} XorConcat(a: Bits, b: Bits, c: Bits, d: Bits)
    requires |a| == |c| && |b| == |d|
    ensures Xor(a + b, c + d) == Xor(a, c) + Xor(b, d)
  {
    XorAt(a, c);
    XorAt(b, d);
    XorAt(a + b, c + d);
  }

  lemma {:induction false} XorSwapInner(a: Bits, b: Bits, c: Bits, d: Bits)
    requires |a| == |b| == |c| == |d|
    ensures Xor(Xor(a, b), Xor(c, d)) == Xor(Xor(a, c), Xor(b, d))
  {
    XorAt(a, b);
    XorAt(c, d);
    XorAt(a, c);
    XorAt(b, d);
    XorAt(Xor(a, b), Xor(c, d));
    XorAt(Xor(a, c), Xor(b, d));
  }

  // ---- division ----

  /** The divisor without its leading bit, or nothing. */
  function Times(bit: bool, poly: Bits): (r: Bits)
    ensures |r| == |poly|
  {
    if bit then poly else Zeros(|poly|)
  }

  /** Schoolbook division: the divisor is subtracted under each leading one until only the remainder is left. */
  function Remainder(dividend: Bits, poly: Bits): (r: Bits)
    requires |dividend| >= |poly|
    ensures |r| == |poly|
    decreases |dividend|
  {
    var w := |poly|;
    if |dividend| == w then dividend
    else Remainder(Xor(dividend[1..w + 1], Times(dividend[0], poly)) + dividend[w + 1..], poly)
  }

  /** The message moved up by the width, with the initial value added to its first bits. */
  function Dividend(crc: Bits, message: Bits): (r: Bits)
    ensures |r| == |message| + |crc|
  {
    Xor(message + Zeros(|crc|), crc + Zeros(|message|))
  }

  // ---- the bitwise register ----

  function Step(crc: Bits, bit: bool, poly: Bits): (r: Bits)
    requires |crc| == |poly| > 0
    ensures |r| == |poly|
  {
    Xor(crc[1..] + [false], Times(crc[0] != bit, poly))
  }

  function Divide(crc: Bits, message: Bits, poly: Bits): (r: Bits)
    requires |crc| == |poly| > 0
    ensures |r| == |poly|
    decreases |message|
  {
    if message == [] then crc else Divide(Step(crc, message[0], poly), message[1..], poly)
  }

  lemma DividendStep(crc: Bits, message: Bits, poly: Bits)
    requires |crc| == |poly| > 0 && message != []
    ensures var d, w := Dividend(crc, message), |poly|;
      && |d| > w
      && Xor(d[1..w + 1], Times(d[0], poly)) + d[w + 1..] == Dividend(Step(crc, message[0], poly), message[1..])
  {
    var d, w := Dividend(crc, message), |poly|;
    var m, c := message + Zeros(w), crc + Zeros(|message|);
    var bit := d[0];
    assert bit == (crc[0] != message[0]) && d[1..] == Xor(m[1..], c[1..]);
    var m', low, zeros := message[1..] + Zeros(w), crc[1..] + [false], Zeros(|message| - 1);
    assert m[1..] == m' && m' == m'[..w] + m'[w..];
    assert c[1..] == low + zeros;
    XorConcat(m'[..w], m'[w..], low, zeros);
    assert d[1..w + 1] == d[1..][..w] && d[w + 1..] == d[1..][w..];
    XorAssociates(m'[..w], low, Times(bit, poly));
    XorConcat(m'[..w], m'[w..], Xor(low, Times(bit, poly)), zeros);
  }

  lemma {:induction false} XorAssociates(a: Bits, b: Bits, c: Bits)
    requires |a| == |b| == |c|
    ensures Xor(Xor(a, b), c) == Xor(a, Xor(b, c))
  {
    XorAt(a, b);
    XorAt(b, c);
    XorAt(Xor(a, b), c);
    XorAt(a, Xor(b, c));
  }

  /** The register holds the remainder of the division. */
  lemma {:induction false} DivideIsRemainder(crc: Bits, message: Bits, poly: Bits)
    requires |crc| == |poly| > 0
    ensures Divide(crc, message, poly) == Remainder(Dividend(crc, message), poly)
    decreases |message|
  {
    if message == [] {
      XorZeros(crc);
      XorSwap(crc, Zeros(|crc|));
      assert message + Zeros(|crc|) == Zeros(|crc|) && crc + Zeros(0) == crc;
    } else {
      DividendStep(crc, message, poly);
      DivideIsRemainder(Step(crc, message[0], poly), message[1..], poly);
    }
  }

  /** With the lowest bit of the divisor set, no step loses anything of the register. */
  lemma StepInjective(a: Bits, b: Bits, bit: bool, poly: Bits)
    requires |a| == |b| == |poly| > 0 && poly[|poly| - 1] && Step(a, bit, poly) == Step(b, bit, poly)
    ensures a == b
  {
    var w := |poly|;
    var x, y := a[1..] + [false], b[1..] + [false];
    XorAt(x, Times(a[0] != bit, poly));
    XorAt(y, Times(b[0] != bit, poly));
    ZerosAt(w);
    assert Step(a, bit, poly)[w - 1] == (a[0] != bit) && Step(b, bit, poly)[w - 1] == (b[0] != bit);
    assert a[0] == b[0];
    forall i | 0 < i < w ensures a[i] == b[i] {
      assert x[i - 1] == a[i] && y[i - 1] == b[i];
      assert Step(a, bit, poly)[i - 1] == Step(b, bit, poly)[i - 1];
    }
  }

  lemma {:induction false} DivideInjective(a: Bits, b: Bits, message: Bits, poly: Bits)
    requires |a| == |b| == |poly| > 0 && poly[|poly| - 1] && Divide(a, message, poly) == Divide(b, message, poly)
    ensures a == b
    decreases |message|
  {
    if message != [] {
      DivideInjective(Step(a, message[0], poly), Step(b, message[0], poly), message[1..], poly);
      StepInjective(a, b, message[0], poly);
    }
  }

  lemma {:induction false} DivideAppend(crc: Bits, a: Bits, b: Bits, poly: Bits)
    requires |crc| == |poly| > 0
    ensures Divide(crc, a + b, poly) == Divide(Divide(crc, a, poly), b, poly)
    decreases |a|
  {
    if a == [] {
      assert a + b == b;
    } else {
      assert (a + b)[1..] == a[1..] + b;
      DivideAppend(Step(crc, a[0], poly), a[1..], b, poly);
    }
  }

  // ---- a byte at a time ----

  /** `n` steps without input. */
  function Run(crc: Bits, n: nat, poly: Bits): (r: Bits)
    requires |crc| == |poly| > 0
    ensures |r| == |poly|
    decreases n
  {
    if n == 0 then crc else Run(Step(crc, false, poly), n - 1, poly)
  }

  /** The bits of a byte in front of zeros. */
  function Pad(bits: Bits, w: nat): (r: Bits)
    requires |bits| <= w
    ensures |r| == w
  {
    bits + Zeros(w - |bits|)
  }

  /** The input can be added to the register all at once. */
  lemma {:induction false} InputFirst(crc: Bits, message: Bits, poly: Bits)
    requires |message| <= |crc| == |poly| && |poly| > 0
    ensures Divide(crc, message, poly) == Run(Xor(crc, Pad(message, |crc|)), |message|, poly)
    decreases |message|
  {
    var w := |crc|;
    if message == [] {
      assert Pad(message, w) == Zeros(w);
      XorZeros(crc);
    } else {
      InputFirst(Step(crc, message[0], poly), message[1..], poly);
      StepInput(crc, message, poly);
    }
  }

  lemma {:induction false} StepInput(crc: Bits, message: Bits, poly: Bits)
    requires 0 < |message| <= |crc| == |poly|
    ensures Xor(Step(crc, message[0], poly), Pad(message[1..], |crc|))
            == Step(Xor(crc, Pad(message, |crc|)), false, poly)
  {
    var w := |crc|;
    var pad' := Pad(message[1..], w);
    var low, times := crc[1..] + [false], Times(crc[0] != message[0], poly);
    ShiftInput(crc, message);
    XorAssociates(low, pad', times);
    XorAssociates(low, times, pad');
    XorSwap(pad', times);
  }

  lemma {:induction false} ShiftInput(crc: Bits, message: Bits)
    requires 0 < |message| <= |crc|
    ensures var x := Xor(crc, Pad(message, |crc|));
            x[0] == (crc[0] != message[0]) && x[1..] + [false] == Xor(crc[1..] + [false], Pad(message[1..], |crc|))
  {
    PadTail(message, |crc|);
    var pad := Pad(message, |crc|);
    XorConcat(crc[1..], [false], pad[1..], [false]);
    XorOne();
    XorTail(crc, pad);
  }

  lemma PadTail(message: Bits, w: nat)
    requires 0 < |message| <= w
    ensures Pad(message, w)[0] == message[0] && Pad(message[1..], w) == Pad(message, w)[1..] + [false]
  {
    var n := w - |message|;
    ZerosTail(n);
    assert (message + Zeros(n))[1..] == message[1..] + Zeros(n);
    assert message[1..] + (Zeros(n) + [false]) == (message[1..] + Zeros(n)) + [false];
  }

  lemma {:induction false} XorTail(a: Bits, b: Bits)
    requires |a| == |b| > 0
    ensures Xor(a, b)[0] == (a[0] != b[0]) && Xor(a, b)[1..] == Xor(a[1..], b[1..])
  {
  }

  lemma XorOne()
    ensures Xor([false], [false]) == [false]
  {
    assert [false][1..] == [] && Xor([], []) == [];
  }

  lemma {:induction false} ZerosTail(n: nat)
    ensures Zeros(n + 1) == Zeros(n) + [false]
  {
    if n > 0 { ZerosTail(n - 1); }
  }

  lemma {:induction false} StepLinear(a: Bits, b: Bits, poly: Bits)
    requires |a| == |b| == |poly| > 0
    ensures Step(Xor(a, b), false, poly) == Xor(Step(a, false, poly), Step(b, false, poly))
  {
    var low, low' := a[1..] + [false], b[1..] + [false];
    XorAt(a, b);
    assert Xor(a, b)[1..] + [false] == Xor(low, low') by { XorAt(low, low'); }
    XorSwapInner(low, low', Times(a[0], poly), Times(b[0], poly));
    TimesAdd(a[0], b[0], poly);
  }

  lemma TimesAdd(x: bool, y: bool, poly: Bits)
    ensures Times(x != y, poly) == Xor(Times(x, poly), Times(y, poly))
  {
    XorZeros(poly);
    XorSwap(poly, Zeros(|poly|));
    XorZeros(Zeros(|poly|));
    XorAt(poly, poly);
    ZerosAt(|poly|);
    assert Xor(poly, poly) == Zeros(|poly|);
  }

  lemma {:induction false} RunLinear(a: Bits, b: Bits, n: nat, poly: Bits)
    requires |a| == |b| == |poly| > 0
    ensures Run(Xor(a, b), n, poly) == Xor(Run(a, n, poly), Run(b, n, poly))
    decreases n
  {
    if n > 0 {
      StepLinear(a, b, poly);
      RunLinear(Step(a, false, poly), Step(b, false, poly), n - 1, poly);
    }
  }

  /** Leading zeros are shifted out. */
  lemma {:induction false} RunZeros(n: nat, low: Bits, poly: Bits)
    requires n + |low| == |poly| > 0
    ensures Run(Zeros(n) + low, n, poly) == low + Zeros(n)
  {
    NoTail(Zeros(n) + low);
    RunZerosTo(n, n, low, poly);
  }

  lemma NoTail(a: Bits)
    ensures a + Zeros(0) == a
  {
  }

  lemma {:induction false} RunZerosTo(n: nat, k: nat, low: Bits, poly: Bits)
    requires n + |low| == |poly| > 0 && k <= n
    ensures Run(Zeros(k) + low + Zeros(n - k), k, poly) == low + Zeros(n)
    decreases k
  {
    var c := Zeros(k) + low + Zeros(n - k);
    if k == 0 {
      assert c == low + Zeros(n);
    } else {
      var d := Zeros(k - 1) + low + Zeros(n - (k - 1));
      ZerosAt(k);
      ZerosAt(k - 1);
      ZerosAt(n - k);
      ZerosAt(n - (k - 1));
      assert c[1..] + [false] == d;
      XorZeros(d);
      RunZerosTo(n, k - 1, low, poly);
    }
  }

  /** The table: what eight steps make of a byte at the top of the register. */
  function Entry(index: Bits, poly: Bits): (r: Bits)
    requires |index| == 8 <= |poly|
    ensures |r| == |poly|
  {
    Run(Pad(index, |poly|), 8, poly)
  }

  /** One byte by the table: the top of the register selects the entry, the rest moves up. */
  function ByteStep(crc: Bits, byte: Bits, poly: Bits): (r: Bits)
    requires |byte| == 8 <= |crc| == |poly|
    ensures |r| == |poly|
  {
    Xor(crc[8..] + Zeros(8), Entry(Xor(crc[..8], byte), poly))
  }

  /** A byte by the table is eight bits by the register. */
  lemma {:induction false} ByteIsBits(crc: Bits, byte: Bits, poly: Bits)
    requires |byte| == 8 <= |crc| == |poly|
    ensures ByteStep(crc, byte, poly) == Divide(crc, byte, poly)
  {
    var top, low := Pad(Xor(crc[..8], byte), |crc|), Zeros(8) + crc[8..];
    InputFirst(crc, byte, poly);
    TopAndLow(crc, byte);
    RunLinear(top, low, 8, poly);
    RunZeros(8, crc[8..], poly);
    XorSwap(Entry(Xor(crc[..8], byte), poly), crc[8..] + Zeros(8));
  }

  /** The byte goes to the top of the register. */
  lemma {:induction false} TopAndLow(crc: Bits, byte: Bits)
    requires |byte| <= |crc|
    ensures var n := |byte|; Xor(crc, Pad(byte, |crc|)) == Xor(Pad(Xor(crc[..n], byte), |crc|), Zeros(n) + crc[n..])
  {
    var n := |byte|;
    AddToTop(crc[..n], crc[n..], byte);
    assert crc[..n] + crc[n..] == crc;
  }

  lemma {:induction false} AddToTop(high: Bits, low: Bits, byte: Bits)
    requires |high| == |byte|
    ensures Xor(high + low, byte + Zeros(|low|)) == Xor(Xor(high, byte) + Zeros(|low|), Zeros(|high|) + low)
  {
    var n := |low|;
    XorConcat(high, low, byte, Zeros(n));
    XorConcat(Xor(high, byte), Zeros(n), Zeros(|high|), low);
    XorZeros(Xor(high, byte));
    XorZeros(low);
    XorSwap(low, Zeros(n));
  }
}
