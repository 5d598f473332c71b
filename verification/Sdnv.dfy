/**
 * Self-delimiting numeric values (components/bundle6/sdnv.c; section 2 of RFC 6256): 7-bit groups, the
 * most significant first, bit 7 set in every byte but the last.
 */
module Sdnv {
  import opened Basics

  type Octet = x: int | 0 <= x < 0x100

  datatype Width = U8 | U16 | U32 | U64

  /** One more than the largest value. */
  function Range(w: Width): nat {
    match w
    case U8 => 0x100
    case U16 => 0x1_0000
    case U32 => 0x1_0000_0000
    case U64 => 0x1_0000_0000_0000_0000
  }

  /** How many bytes are accepted whatever their value. */
  function FreeBytes(w: Width): nat {
    match w case U8 => 1 case U16 => 2 case U32 => 4 case U64 => 9
  }

  /** The largest value after those bytes that leaves room for one more. */
  function PrefixMax(w: Width): nat {
    match w
    case U8 => 0x1
    case U16 => 0x1FF
    case U32 => 0x1FF_FFFF
    case U64 => 0x1FF_FFFF_FFFF_FFFF
  }

  // ---- reading ----

  datatype Status = InProgress | Done | Error
  datatype Cause = NoCause | Overflow | AlreadyDone

  datatype State = State(status: Status, error: Cause, parsed: nat, value: nat)

  /** sdnv_reset; the value is set by the first byte. */
  const Reset := State(InProgress, NoCause, 0, 0)

  predicate Validates(w: Width, s: State) {
    s.parsed < FreeBytes(w) || (s.parsed == FreeBytes(w) && s.value <= PrefixMax(w))
  }

  /** sdnv_read_generic, with the shift cut to the width. */
  function Step(w: Width, s: State, byte: Octet): State {
    if !Validates(w, s) then s.(error := Overflow, status := Error)
    else if s.status == Done then s.(error := AlreadyDone, status := Error)
    else
      s.(value := (if s.parsed == 0 then 0 else s.value * 0x80 % Range(w)) + byte % 0x80,
         status := if byte < 0x80 then Done else s.status,
         parsed := s.parsed + 1)
  }

  /** The reader's state, updated in place. */
  class Reader {
    var status: Status
    var error: Cause
    var parsed: nat
    var value: nat

    ghost function Abstract(): State reads this { State(status, error, parsed, value) }

    constructor ()
      ensures Abstract() == Reset
    {
      status, error, parsed, value := InProgress, NoCause, 0, 0;
    }

    method Read(w: Width, byte: Octet)
      modifies this
      ensures Abstract() == Step(w, old(Abstract()), byte)
    {
      if !(parsed < FreeBytes(w) || (parsed == FreeBytes(w) && value <= PrefixMax(w))) {
        error := Overflow;
        status := Error;
      } else if status == Done {
        error := AlreadyDone;
        status := Error;
      } else {
        value := if parsed == 0 then 0 else value * 0x80 % Range(w);
        value := value + byte % 0x80;
        if byte < 0x80 { status := Done; }
        parsed := parsed + 1;
      }
    }
  }

  function Feed(w: Width, s: State, bytes: seq<Octet>): State {
    if bytes == [] then s else Step(w, Feed(w, s, bytes[..|bytes| - 1]), bytes[|bytes| - 1])
  }

  /** The number the groups stand for. */
  function Number(bytes: seq<Octet>): nat {
    if bytes == [] then 0 else Number(bytes[..|bytes| - 1]) * 0x80 + bytes[|bytes| - 1] % 0x80
  }

  /** No byte but the last one can end the number. */
  ghost predicate Continues(bytes: seq<Octet>) {
    forall i :: 0 <= i < |bytes| - 1 ==> bytes[i] >= 0x80
  }

  function Pow128(n: nat): nat { if n == 0 then 1 else 0x80 * Pow128(n - 1) }

  lemma {:induction false} NumberBound(bytes: seq<Octet>)
    ensures Number(bytes) < Pow128(|bytes|)
  {
    if bytes != [] { NumberBound(bytes[..|bytes| - 1]); }
  }

  lemma {:induction false} PowGrows(m: nat, n: nat)
    requires m <= n
    ensures Pow128(m) <= Pow128(n)
    decreases n
  {
    if m < n { PowGrows(m, n - 1); }
  }

  lemma PowSteps(n: nat)
    ensures Pow128(n + 1) == 0x80 * Pow128(n) && Pow128(n + 2) == 0x4000 * Pow128(n)
  {
    assert Pow128(n + 2) == 0x80 * Pow128(n + 1);
  }

  /** The bytes that are always accepted hold a value that fits. */
  lemma FreeFits(w: Width)
    ensures Pow128(FreeBytes(w)) <= Range(w) < Pow128(FreeBytes(w) + 1)
    ensures Range(w) == 0x80 * (PrefixMax(w) + 1)
  {
    PowSteps(0);
    PowSteps(2);
    PowSteps(4);
    PowSteps(6);
    PowSteps(8);
  }

  /** The terminator or one more group came within the limit, and the number fits. */
  ghost predicate Accepted(w: Width, bytes: seq<Octet>) {
    |bytes| <= FreeBytes(w) + 1 && Number(bytes) < Range(w)
  }

  lemma GroupFits(n: nat, group: nat, max: nat)
    requires group < 0x80
    ensures n * 0x80 + group < 0x80 * (max + 1) <==> n <= max
  {
  }

  lemma {:induction false} FewBytesFit(w: Width, bytes: seq<Octet>)
    requires |bytes| <= FreeBytes(w)
    ensures Number(bytes) < Range(w)
  {
    FreeFits(w);
    NumberBound(bytes);
    PowGrows(|bytes|, FreeBytes(w));
  }

  lemma {:induction false} NumberAppend(front: seq<Octet>, byte: Octet)
    ensures Number(front + [byte]) == Number(front) * 0x80 + byte % 0x80
  {
    assert (front + [byte])[..|front|] == front;
  }

  /** One more group of an accepted prefix: it is accepted again just when the reader validates it. */
  lemma {:induction false} OneMore(w: Width, front: seq<Octet>, byte: Octet)
    requires Accepted(w, front)
    ensures Accepted(w, front + [byte]) <==> Validates(w, State(InProgress, NoCause, |front|, Number(front)))
    ensures Accepted(w, front + [byte]) ==> Number(front) * 0x80 < Range(w)
  {
    FreeFits(w);
    NumberAppend(front, byte);
    GroupFits(Number(front), byte % 0x80, PrefixMax(w));
    if |front| < FreeBytes(w) { FewBytesFit(w, front + [byte]); }
  }

  lemma {:induction false} StepAccepted(w: Width, front: seq<Octet>, byte: Octet)
    requires Accepted(w, front + [byte]) && Accepted(w, front)
    ensures Step(w, State(InProgress, NoCause, |front|, Number(front)), byte) ==
            State(if byte < 0x80 then Done else InProgress, NoCause, |front| + 1, Number(front + [byte]))
  {
    OneMore(w, front, byte);
    assert (front + [byte])[..|front|] == front;
    if front == [] { assert Number(front) == 0; }
    SmallModulo(Number(front) * 0x80, Range(w));
  }

  lemma AcceptedPrefix(w: Width, front: seq<Octet>, byte: Octet)
    requires Accepted(w, front + [byte])
    ensures Accepted(w, front)
  {
    assert (front + [byte])[..|front|] == front;
  }

  /**
   * What the reader does with any bytes up to the first terminator: it never wraps, it is done just
   * when the terminator came within the width's limit and the number fits, and otherwise it is in
   * progress or reports an overflow.
   */
  lemma {:induction false} ReaderExact(w: Width, bytes: seq<Octet>)
    requires Continues(bytes)
    ensures var s := Feed(w, Reset, bytes);
      if Accepted(w, bytes) then
        s == State(if bytes != [] && bytes[|bytes| - 1] < 0x80 then Done else InProgress, NoCause, |bytes|,
            Number(bytes))
      else s.status == Error && s.error == Overflow && !Validates(w, s)
  {
    if bytes != [] {
      var n := |bytes| - 1;
      var front, byte := bytes[..n], bytes[n];
      assert bytes == front + [byte];
      ReaderExact(w, front);
      if Accepted(w, bytes) {
        AcceptedPrefix(w, front, byte);
        StepAccepted(w, front, byte);
      } else if Accepted(w, front) {
        OneMore(w, front, byte);
      }
    }
  }

  // ---- sizes and writing ----

  /** The groups of a value; sdnv_get_size tests the bits above them. */
  function Size(v: nat): nat { if v < 0x80 then 1 else 1 + Size(v / 0x80) }

  /** sdnv_get_size_u8 .. sdnv_get_size_u64: which of the masks leaves nothing of the value */
  function GetSize(w: Width, v: nat): (r: nat)
    requires v < Range(w)
    ensures r == Size(v)
  {
    SizeByBits(v);
    match w
    case U8 => if v < 0x80 then 1 else 2
    case U16 => if v < 0x80 then 1 else if v < 0x4000 then 2 else 3
    case U32 =>
      if v < 0x80 then 1 else if v < 0x4000 then 2 else if v < 0x20_0000 then 3 else if v < 0x1000_0000 then 4 else 5
    case U64 =>
      if v < 0x80 then 1 else if v < 0x4000 then 2 else if v < 0x20_0000 then 3 else if v < 0x1000_0000 then 4
      else if v < 0x8_0000_0000 then 5 else if v < 0x400_0000_0000 then 6 else if v < 0x2_0000_0000_0000 then 7
      else if v < 0x100_0000_0000_0000 then 8 else if v < 0x8000_0000_0000_0000 then 9 else 10
  }

  lemma {:induction false} SizeIs(v: nat, n: nat)
    requires n > 0 && v < Pow128(n) && (n > 1 ==> v >= Pow128(n - 1))
    ensures Size(v) == n
  {
    if n > 1 {
      assert Pow128(n) == 0x80 * Pow128(n - 1) && Pow128(n - 1) == 0x80 * Pow128(n - 2);
      assert v / 0x80 < Pow128(n - 1) && v / 0x80 >= Pow128(n - 2);
      PowGrows(1, n - 1);
      SizeIs(v / 0x80, n - 1);
    }
  }

  lemma {:induction false} SizeByBits(v: nat)
    ensures v < 0x80 ==> Size(v) == 1
    ensures 0x80 <= v < 0x4000 ==> Size(v) == 2
    ensures 0x4000 <= v < 0x20_0000 ==> Size(v) == 3
    ensures 0x20_0000 <= v < 0x1000_0000 ==> Size(v) == 4
    ensures 0x1000_0000 <= v < 0x8_0000_0000 ==> Size(v) == 5
    ensures 0x8_0000_0000 <= v < 0x400_0000_0000 ==> Size(v) == 6
    ensures 0x400_0000_0000 <= v < 0x2_0000_0000_0000 ==> Size(v) == 7
    ensures 0x2_0000_0000_0000 <= v < 0x100_0000_0000_0000 ==> Size(v) == 8
    ensures 0x100_0000_0000_0000 <= v < 0x8000_0000_0000_0000 ==> Size(v) == 9
    ensures 0x8000_0000_0000_0000 <= v < 0x40_0000_0000_0000_0000 ==> Size(v) == 10
  {
    PowSteps(0);
    PowSteps(2);
    PowSteps(4);
    PowSteps(6);
    PowSteps(8);
    if n :| 1 <= n <= 10 && v < Pow128(n) && (n > 1 ==> v >= Pow128(n - 1)) { SizeIs(v, n); }
  }

  /** All groups with the marker set. */
  function Groups(v: nat, n: nat): (r: seq<Octet>)
    ensures |r| == n && forall i :: 0 <= i < n ==> r[i] >= 0x80
  {
    if n == 0 then [] else Groups(v / 0x80, n - 1) + [v % 0x80 + 0x80]
  }

  /** What the writer puts into the buffer. */
  function Encode(v: nat): (r: seq<Octet>)
    ensures |r| == Size(v)
  {
    Groups(v / 0x80, Size(v) - 1) + [v % 0x80]
  }

  /** sdnv_write_generic: the groups from the last byte backwards, then the marker of the last one is cleared */
  method Write(w: Width, v: nat) returns (buffer: array<Octet>)
    requires v < Range(w)
    ensures fresh(buffer) && buffer[..] == Encode(v)
  {
    var n := GetSize(w, v);
    buffer := WriteSized(v, n);
  }

  method WriteSized(v: nat, n: nat) returns (buffer: array<Octet>)
    requires n == Size(v)
    ensures fresh(buffer) && buffer[..] == Encode(v)
  {
    buffer := new Octet[n](_ => 0);
    WriteGroups(buffer, v);
    ClearMarker(buffer, Groups(v / 0x80, n - 1), v % 0x80);
  }

  /** The last byte ends the number. */
  method ClearMarker(buffer: array<Octet>, ghost front: seq<Octet>, ghost group: Octet)
    requires group < 0x80 && buffer[..] == front + [group + 0x80]
    modifies buffer
    ensures buffer[..] == front + [group]
  {
    var n := buffer.Length;
    assert n == |buffer[..]| == |front| + 1;
    assert buffer[n - 1] == buffer[..][|front|] && buffer[..n - 1] == buffer[..][..|front|] == front;
    buffer[n - 1] := buffer[n - 1] % 0x80;
    assert buffer[..] == buffer[..n - 1] + [buffer[n - 1]];
  }

  method WriteGroups(buffer: array<Octet>, v: nat)
    modifies buffer
    ensures buffer[..] == Groups(v, buffer.Length)
  {
    var n := buffer.Length;
    var rest, b := v, n;
    assert buffer[n..] == [] && Groups(v, n) + [] == Groups(v, n);
    while b > 0
      invariant 0 <= b <= n && rest >= 0
      invariant Groups(v, n) == Groups(rest, b) + buffer[b..]
    {
      ghost var behind := buffer[b..];
      buffer[b - 1] := rest % 0x80 + 0x80;
      assert buffer[b - 1..] == [rest % 0x80 + 0x80] + behind;
      GroupsAround(rest, b, behind);
      rest := rest / 0x80;
      b := b - 1;
    }
    assert buffer[..] == buffer[0..];
  }

  lemma GroupsAround(v: nat, n: nat, behind: seq<Octet>)
    requires n > 0
    ensures Groups(v, n) + behind == Groups(v / 0x80, n - 1) + ([v % 0x80 + 0x80] + behind)
  {
  }

  lemma {:induction false} SizeFits(v: nat)
    ensures v < Pow128(Size(v)) && (Size(v) > 1 ==> v >= Pow128(Size(v) - 1))
  {
    if v >= 0x80 {
      SizeFits(v / 0x80);
      assert Pow128(Size(v)) == 0x80 * Pow128(Size(v) - 1);
      if Size(v) > 2 { assert Pow128(Size(v) - 1) == 0x80 * Pow128(Size(v) - 2); }
    }
  }

  lemma {:induction false} NumberOfGroups(v: nat, n: nat)
    requires v < Pow128(n)
    ensures Number(Groups(v, n)) == v
  {
    if n > 0 {
      NumberOfGroups(v / 0x80, n - 1);
      assert Groups(v, n)[..n - 1] == Groups(v / 0x80, n - 1);
    }
  }

  lemma NumberOfEncode(v: nat)
    ensures Number(Encode(v)) == v && Continues(Encode(v)) && Encode(v)[|Encode(v)| - 1] < 0x80
  {
    var n := Size(v);
    SizeFits(v);
    assert Pow128(n) == 0x80 * Pow128(n - 1);
    NumberOfGroups(v / 0x80, n - 1);
    assert Encode(v)[..n - 1] == Groups(v / 0x80, n - 1);
  }

  /** Reading back what was written ends after exactly those bytes with the value. */
  lemma {:induction false} RoundTrip(w: Width, v: nat)
    requires v < Range(w)
    ensures Feed(w, Reset, Encode(v)) == State(Done, NoCause, Size(v), v)
  {
    NumberOfEncode(v);
    SizeFits(v);
    FreeFits(w);
    if Size(v) > FreeBytes(w) + 1 { PowGrows(FreeBytes(w) + 1, Size(v) - 1); }
    ReaderExact(w, Encode(v));
  }

  /** Before its last byte the reader is still in progress. */
  lemma {:induction false} NotDoneEarly(w: Width, v: nat, k: nat)
    requires v < Range(w) && k < Size(v)
    ensures Feed(w, Reset, Encode(v)[..k]).status == InProgress
  {
    NumberOfEncode(v);
    RoundTrip(w, v);
    var front := Encode(v)[..k];
    assert Continues(front);
    ReaderExact(w, front);
    if k > 0 { assert front[k - 1] == Encode(v)[k - 1]; }
    if !Accepted(w, front) { ErrorStays(w, Encode(v), k); }
  }

  lemma {:induction false} ErrorStays(w: Width, bytes: seq<Octet>, k: nat)
    requires k <= |bytes| && Feed(w, Reset, bytes[..k]).status == Error && !Validates(w, Feed(w, Reset, bytes[..k]))
    ensures Feed(w, Reset, bytes).status == Error && !Validates(w, Feed(w, Reset, bytes))
  {
    if k < |bytes| {
      var front := bytes[..|bytes| - 1];
      assert front[..k] == bytes[..k];
      ErrorStays(w, front, k);
    } else {
      assert bytes[..k] == bytes;
    }
  }

  /** No shorter sequence of groups stands for the value. */
  lemma {:induction false} EncodeMinimal(bytes: seq<Octet>)
    requires bytes != []
    ensures |Encode(Number(bytes))| <= |bytes|
  {
    var v := Number(bytes);
    NumberBound(bytes);
    SizeFits(v);
    if Size(v) > |bytes| { PowGrows(|bytes|, Size(v) - 1); }
  }
}
