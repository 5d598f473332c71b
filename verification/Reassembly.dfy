/**
 * Reassembly of fragments (components/upcn/bundle_processor.c, lines 445-601): fragments of one
 * application data unit (ADU) are kept in a list ordered by offset until the list has no gap, and
 * are then copied into one buffer.
 */
module Reassembly {
  import opened Basics

  type Byte = bv8

  /** What may_reassemble compares. */
  datatype Key = Key(source: string, timestamp: nat, sequence: nat)

  const UINT32 := 0x1_0000_0000
  const SIZE := 0x1_0000_0000_0000_0000

  type uint32 = x: int | 0 <= x < UINT32

  /** The protocol version and the lifetime in microseconds. */
  datatype Terms = Terms(version: nat, lifetime: nat)

  /** A received fragment; its payload is no longer than a 32-bit length field can say. */
  datatype FragmentRecord = Fragment(key: Key, offset: uint32, total: uint32, data: seq<Byte>, terms: Terms)
  type Fragment = f: FragmentRecord | |f.data| < UINT32 witness Fragment(Key("", 0, 0), 0, 0, [], Terms(7, 0))

  function Min(a: int, b: int): int { if a < b then a else b }

  ghost predicate SortedByOffset(list: seq<Fragment>) {
    forall i, j :: 0 <= i < j < |list| ==> list[i].offset <= list[j].offset
  }

  // ---- add_to_reassembly_bundle_list ----

  /** The new fragment goes before the first one with a greater offset. */
  function Insert(list: seq<Fragment>, f: Fragment): seq<Fragment> {
    if list == [] || list[0].offset > f.offset then [f] + list
    else [list[0]] + Insert(list[1..], f)
  }

  method AddToList(list: seq<Fragment>, f: Fragment) returns (r: seq<Fragment>)
    ensures r == Insert(list, f)
  {
    var k := 0;
    while k < |list|
      invariant k <= |list| && Insert(list, f) == list[..k] + Insert(list[k..], f)
    {
      if list[k].offset > f.offset { break; }
      InsertLater(list, f, k);
      k := k + 1;
    }
    assert Insert(list[k..], f) == [f] + list[k..];
    r := list[..k] + [f] + list[k..];
    assert r == list[..k] + ([f] + list[k..]);
  }

  lemma {:induction false} InsertLater(list: seq<Fragment>, f: Fragment, k: nat)
    requires k < |list| && list[k].offset <= f.offset
    ensures list[..k] + Insert(list[k..], f) == list[..k + 1] + Insert(list[k + 1..], f)
  {
    assert list[k..][1..] == list[k + 1..] && list[..k + 1] == list[..k] + [list[k]];
    MoveOver(list[..k], list[k], Insert(list[k + 1..], f));
  }

  lemma MoveOver(a: seq<Fragment>, x: Fragment, b: seq<Fragment>)
    ensures a + ([x] + b) == a + [x] + b
  {
  }

  lemma {:induction false} InsertKeepsOrder(list: seq<Fragment>, f: Fragment)
    requires SortedByOffset(list)
    ensures SortedByOffset(Insert(list, f))
    ensures forall x :: x in Insert(list, f) <==> x == f || x in list
    ensures |Insert(list, f)| == |list| + 1
  {
    if list != [] && list[0].offset <= f.offset {
      InsertKeepsOrder(list[1..], f);
      var rest := Insert(list[1..], f);
      assert forall i :: 0 <= i < |rest| ==> rest[i] in rest;
      assert forall x :: x in list <==> x == list[0] || x in list[1..];
    }
  }

  // ---- try_reassemble ----

  /** Where a fragment ends, a sum of 32 bits. */
  function End(f: Fragment): nat {
    var end := f.offset + |f.data|;
    if end < UINT32 then end else end - UINT32
  }

  /** The first loop: no fragment starts behind the end of the one before it, until one reaches the total length. */
  predicate NoGap(list: seq<Fragment>, pos: nat) {
    list != [] && list[0].offset <= pos && (End(list[0]) >= list[0].total || NoGap(list[1..], End(list[0])))
  }

  /** Every fragment is a piece of `adu` and knows its total length. */
  ghost predicate PiecesOf(list: seq<Fragment>, adu: seq<Byte>) {
    forall f <- list :: f.total == |adu| && f.offset + |f.data| <= |adu| && f.data == adu[f.offset..f.offset + |f.data|]
  }

  /** `pos - offset` in a 64-bit `size_t`. */
  function Sub64(pos: nat, offset: nat): nat { (pos - offset) % SIZE }

  /** How many bytes of `f` the second loop copies when `pos` bytes are there, and from where on. */
  function Skip(f: Fragment, pos: nat): nat { Sub64(pos, f.offset) }

  function Copied(f: Fragment, total: nat, pos: nat): (n: nat)
    requires pos <= total
    ensures Skip(f, pos) + n <= |f.data| || n == 0
  {
    if Skip(f, pos) < |f.data| then Min(|f.data| - Skip(f, pos), total - pos) else 0
  }

  /** The bytes `acc` that are there already and what one more fragment adds to them. */
  function Extend(f: Fragment, total: nat, acc: seq<Byte>): (r: seq<Byte>)
    requires |acc| <= total
    ensures |r| <= total
  {
    var n := Copied(f, total, |acc|);
    if n == 0 then acc else acc + f.data[Skip(f, |acc|)..Skip(f, |acc|) + n]
  }

  /** The second loop: one fragment after the other adds to the bytes `acc`. */
  function Assemble(list: seq<Fragment>, total: nat, acc: seq<Byte>): (r: seq<Byte>)
    requires |acc| <= total
    ensures |r| <= total
  {
    if list == [] then acc else Assemble(list[1..], total, Extend(list[0], total, acc))
  }

  method TryReassemble(list: seq<Fragment>) returns (r: Option<seq<Byte>>)
    requires list != []
    ensures r.Some? <==> NoGap(list, 0)
    ensures r.Some? ==> |r.value| == list[0].total && Assemble(list, list[0].total, []) <= r.value
  {
    var complete := CheckGaps(list);
    if !complete { return None; }
    var total := list[0].total;
    var payload := new Byte[total];
    var pos := 0;
    ghost var acc: seq<Byte> := [];
    for i := 0 to |list|
      invariant |acc| == pos <= total && payload[..pos] == acc
      invariant Assemble(list, total, []) == Assemble(list[i..], total, acc)
    {
      var f := list[i];
      assert list[i..][0] == f && list[i..][1..] == list[i + 1..];
      pos := CopyFragment(payload, pos, f, acc);
      acc := Extend(f, total, acc);
    }
    return Some(payload[..]);
  }

  /** The body of the second loop. */
  method CopyFragment(payload: array<Byte>, pos: nat, f: Fragment, ghost acc: seq<Byte>) returns (pos': nat)
    requires pos <= payload.Length && payload[..pos] == acc
    modifies payload
    ensures pos' <= payload.Length && payload[..pos'] == Extend(f, payload.Length, acc)
  {
    var skip := Sub64(pos, f.offset);
    pos' := pos;
    if skip < |f.data| {
      var bytes := Min(|f.data| - skip, payload.Length - pos);
      assert bytes == Copied(f, payload.Length, pos);
      CopyInto(payload, pos, f.data, skip, bytes);
      assert f.data[skip..skip] == [] && acc + [] == acc;
      pos' := pos + bytes;
    }
  }

  /** Copies some of the data behind the bytes that are there. */
  method CopyInto(payload: array<Byte>, pos: nat, data: seq<Byte>, skip: nat, bytes: nat)
    requires pos + bytes <= payload.Length && skip + bytes <= |data|
    modifies payload
    ensures payload[..pos + bytes] == old(payload[..pos]) + data[skip..skip + bytes]
  {
    for j := 0 to bytes
      invariant payload[..pos + j] == old(payload[..pos]) + data[skip..skip + j]
    {
      payload[pos + j] := data[skip + j];
      assert payload[..pos + j + 1] == payload[..pos + j] + [data[skip + j]];
      assert data[skip..skip + j + 1] == data[skip..skip + j] + [data[skip + j]];
    }
  }

  method CheckGaps(list: seq<Fragment>) returns (complete: bool)
    ensures complete == NoGap(list, 0)
  {
    var pos := 0;
    for i := 0 to |list|
      invariant pos >= 0 && NoGap(list, 0) == NoGap(list[i..], pos)
    {
      var f := list[i];
      assert list[i..][0] == f && list[i..][1..] == list[i + 1..];
      if f.offset > pos { return false; }
      pos := End(f);
      if pos >= f.total { return true; }
    }
    return false;
  }

  // ---- soundness ----

  /** Fragments behind a full buffer add nothing. */
  lemma {:induction false} AssembleFull(list: seq<Fragment>, total: nat, acc: seq<Byte>)
    requires |acc| == total
    ensures Assemble(list, total, acc) == acc
  {
    if list != [] {
      AssembleFull(list[1..], total, acc);
    }
  }

  lemma Sub64Exact(pos: nat, offset: nat)
    requires offset <= pos < SIZE
    ensures Sub64(pos, offset) == pos - offset
  {
  }

  lemma SliceOfSlice(s: seq<Byte>, a: nat, b: nat, c: nat, d: nat)
    requires a <= b <= |s| && c <= d <= b - a
    ensures s[a..b][c..d] == s[a + c..a + d]
  {
    var x, y := s[a..b][c..d], s[a + c..a + d];
    assert |x| == |y| && forall i :: 0 <= i < |x| ==> x[i] == y[i];
  }

  lemma ExtendPrefix(f: Fragment, adu: seq<Byte>, acc: seq<Byte>)
    requires PiecesOf([f], adu) && f.offset <= |acc| <= |adu| && acc == adu[..|acc|]
    ensures |acc| <= |Extend(f, |adu|, acc)| <= |adu| && f.offset + |f.data| <= |Extend(f, |adu|, acc)|
    ensures Extend(f, |adu|, acc) == adu[..|Extend(f, |adu|, acc)|]
  {
    assert f in [f];
    assert f.total == |adu| < UINT32;
    Sub64Exact(|acc|, f.offset);
    var n, skip := Copied(f, |adu|, |acc|), |acc| - f.offset;
    if n > 0 {
      SliceOfSlice(adu, f.offset, f.offset + |f.data|, skip, skip + n);
      assert adu[..|acc| + n] == adu[..|acc|] + adu[|acc|..|acc| + n];
    }
  }

  /**
   * The gap check follows only the end of the last fragment while copying follows the furthest end
   * so far. Whenever the check succeeds, copying still yields the ADU.
   */
  lemma {:induction false} AssembleSound(list: seq<Fragment>, adu: seq<Byte>, acc: seq<Byte>, pos: nat)
    requires PiecesOf(list, adu) && NoGap(list, pos)
    requires pos <= |acc| <= |adu| && acc == adu[..|acc|]
    ensures Assemble(list, |adu|, acc) == adu
    decreases list
  {
    var f := list[0];
    assert f in list;
    ExtendPrefix(f, adu, acc);
    var acc' := Extend(f, |adu|, acc);
    assert Assemble(list, |adu|, acc) == Assemble(list[1..], |adu|, acc');
    if End(f) >= f.total {
      AssembleFull(list[1..], |adu|, acc');
    } else {
      assert forall x <- list[1..] :: x in list;
      AssembleSound(list[1..], adu, acc', End(f));
    }
  }

  /** Whatever is delivered is the ADU. */
  lemma {:induction false} DeliveredIsAdu(list: seq<Fragment>, adu: seq<Byte>, r: seq<Byte>)
    requires PiecesOf(list, adu) && NoGap(list, 0)
    requires |r| == |adu| && Assemble(list, |adu|, []) <= r
    ensures r == adu
  {
    AssembleSound(list, adu, [], 0);
  }

  // ---- completeness ----

  /** Every byte of the ADU is in some fragment of the list. */
  ghost predicate Covers(list: seq<Fragment>, from: nat, to: nat) {
    forall p :: from <= p < to ==> HasByte(list, p)
  }

  ghost predicate HasByte(list: seq<Fragment>, p: nat) {
    exists i :: 0 <= i < |list| && list[i].offset <= p < list[i].offset + |list[i].data|
  }

  /** Some fragment up to the `i`-th reaches the total length. */
  ghost predicate Reached(list: seq<Fragment>, i: nat, total: nat) {
    exists k :: 0 <= k <= i && k < |list| && End(list[k]) >= total
  }

  /** Until one reaches the total length, no fragment starts behind the end of the one before it. */
  ghost predicate Linked(list: seq<Fragment>, total: nat) {
    forall i :: 0 <= i < |list| - 1 && !Reached(list, i, total) ==> list[i + 1].offset <= End(list[i])
  }

  lemma ReachedLater(list: seq<Fragment>, i: nat, total: nat)
    requires list != [] && End(list[0]) < total
    ensures Reached(list, i + 1, total) <==> Reached(list[1..], i, total)
  {
    if Reached(list, i + 1, total) {
      var k :| 0 <= k <= i + 1 && k < |list| && End(list[k]) >= total;
      assert list[1..][k - 1] == list[k];
    }
    if Reached(list[1..], i, total) {
      var k :| 0 <= k <= i && k < |list[1..]| && End(list[1..][k]) >= total;
      assert list[k + 1] == list[1..][k];
    }
  }

  lemma LinkedLater(list: seq<Fragment>, total: nat)
    requires |list| > 1 && End(list[0]) < total && list[1].offset <= End(list[0])
    ensures Linked(list, total) <==> Linked(list[1..], total)
  {
    var rest := list[1..];
    forall i: nat ensures Reached(list, i + 1, total) <==> Reached(rest, i, total) { ReachedLater(list, i, total); }
    if Linked(rest, total) {
      forall i | 0 <= i < |list| - 1 && !Reached(list, i, total) ensures list[i + 1].offset <= End(list[i]) {
        if i > 0 { assert rest[i - 1] == list[i] && rest[i - 1 + 1] == list[i + 1] && !Reached(rest, i - 1, total); }
      }
    }
    if Linked(list, total) {
      forall i | 0 <= i < |rest| - 1 && !Reached(rest, i, total) ensures rest[i + 1].offset <= End(rest[i]) {
        assert rest[i] == list[i + 1] && rest[i + 1] == list[i + 1 + 1] && !Reached(list, i + 1, total);
      }
    }
  }

  lemma {:induction false} NoGapIsLinked(list: seq<Fragment>, total: nat, pos: nat, k: nat)
    requires k < |list| && End(list[k]) >= total && list[0].offset <= pos && forall f <- list :: f.total == total
    ensures NoGap(list, pos) <==> Linked(list, total)
    decreases list
  {
    assert list[0] in list;
    if End(list[0]) >= total {
      forall i: nat ensures Reached(list, i, total) {}
    } else {
      assert forall f <- list[1..] :: f in list;
      assert list[1] == list[1..][0] && list[1..][k - 1] == list[k];
      if list[1].offset <= End(list[0]) {
        LinkedLater(list, total);
        NoGapIsLinked(list[1..], total, End(list[0]), k - 1);
      } else {
        NotReached(list, total);
      }
    }
  }

  lemma NotReached(list: seq<Fragment>, total: nat)
    requires |list| > 1 && End(list[0]) < total && list[1].offset > End(list[0])
    ensures !Linked(list, total)
  {
    assert !Reached(list, 0, total);
    assert list[0 + 1].offset > End(list[0]);
  }

  /** A list with all bytes starts at 0, and some fragment reaches the end. */
  lemma EndsCovered(list: seq<Fragment>, adu: seq<Byte>) returns (k: nat)
    requires list != [] && SortedByOffset(list) && PiecesOf(list, adu) && Covers(list, 0, |adu|)
    ensures k < |list| && End(list[k]) >= |adu| && list[0].offset == 0
  {
    k := 0;
    assert list[0] in list;
    if adu != [] {
      assert HasByte(list, 0);
      var i :| 0 <= i < |list| && list[i].offset <= 0 < list[i].offset + |list[i].data|;
      assert i > 0 ==> list[0].offset <= list[i].offset;
      k := LastByte(list, adu);
    }
  }

  lemma LastByte(list: seq<Fragment>, adu: seq<Byte>) returns (k: nat)
    requires PiecesOf(list, adu) && Covers(list, 0, |adu|) && adu != []
    ensures k < |list| && End(list[k]) >= |adu|
  {
    assert HasByte(list, |adu| - 1);
    k :| 0 <= k < |list| && list[k].offset <= |adu| - 1 < list[k].offset + |list[k].data|;
    assert list[k] in list;
  }

  /**
   * An ADU whose bytes are all there is delivered just when no fragment starts behind the end of the
   * one before it, up to the first fragment that reaches the total length.
   */
  lemma {:induction false} CoveredIsDelivered(list: seq<Fragment>, adu: seq<Byte>)
    requires list != [] && SortedByOffset(list) && PiecesOf(list, adu) && Covers(list, 0, |adu|)
    ensures NoGap(list, 0) <==> Linked(list, |adu|)
  {
    var k := EndsCovered(list, adu);
    NoGapIsLinked(list, |adu|, 0, k);
  }

  /** What is delivered is covered. */
  lemma {:induction false} DeliveredIsCovered(list: seq<Fragment>, adu: seq<Byte>, pos: nat)
    requires NoGap(list, pos) && PiecesOf(list, adu)
    ensures Covers(list, pos, |adu|)
  {
    var end := End(list[0]);
    assert list[0] in list;
    if end < |adu| {
      assert forall f <- list[1..] :: f in list;
      DeliveredIsCovered(list[1..], adu, end);
    }
    forall p | pos <= p < |adu|
      ensures HasByte(list, p)
    {
      if p >= end {
        assert HasByte(list[1..], p);
        var i :| 0 <= i < |list[1..]| && list[1..][i].offset <= p < list[1..][i].offset + |list[1..][i].data|;
        assert list[i + 1] == list[1..][i];
      }
    }
  }

  /** A fragment inside its predecessor can hide that all bytes are there: the check gives up. */
  lemma NestedIsRefused(key: Key, t: Terms, a: Byte, b: Byte, c: Byte, d: Byte)
    ensures var adu := [a, b, c, d];
            var list := [Fragment(key, 0, 4, [a, b, c], t), Fragment(key, 1, 4, [b], t), Fragment(key, 3, 4, [d], t)];
            SortedByOffset(list) && PiecesOf(list, adu) && Covers(list, 0, 4) && !NoGap(list, 0)
  {
    var adu := [a, b, c, d];
    var f, g, h := Fragment(key, 0, 4, [a, b, c], t), Fragment(key, 1, 4, [b], t), Fragment(key, 3, 4, [d], t);
    var list := [f, g, h];
    assert list[0] == f && list[1] == g && list[2] == h;
    assert adu[0..3] == [a, b, c];
    assert |adu[1..2]| == 1 && adu[1..2][0] == b && adu[1..2] == [b];
    assert |adu[3..4]| == 1 && adu[3..4][0] == d && adu[3..4] == [d];
    assert PiecesOf(list, adu) && SortedByOffset(list);
    forall p | 0 <= p < 4 ensures HasByte(list, p) {
      var i := if p < 3 then 0 else 2;
      assert list[i].offset <= p < list[i].offset + |list[i].data|;
    }
    assert Covers(list, 0, 4);
    assert list[1..] == [g, h] && [g, h][1..] == [h];
    assert !NoGap([h], 2);
    assert NoGap([g, h], 3) == NoGap([h], 2);
    assert NoGap(list, 0) == NoGap([g, h], 3);
  }

  // ---- fragments that tile an ADU ----

  /** Non-empty fragments of one key that follow each other without gap or overlap and together are the ADU. */
  ghost predicate Tiles(pieces: seq<Fragment>, key: Key, adu: seq<Byte>) {
    && pieces != [] && pieces[0].offset == 0 && PiecesOf(pieces, adu)
    && (forall i :: 0 <= i < |pieces| ==> pieces[i].key == key && pieces[i].data != [])
    && (forall i :: 0 <= i < |pieces| - 1 ==> pieces[i].offset + |pieces[i].data| == pieces[i + 1].offset)
    && pieces[|pieces| - 1].offset + |pieces[|pieces| - 1].data| == |adu|
  }

  lemma {:induction false} TileOrder(pieces: seq<Fragment>, key: Key, adu: seq<Byte>, i: nat, j: nat)
    requires Tiles(pieces, key, adu) && i < j < |pieces|
    ensures pieces[i].offset + |pieces[i].data| <= pieces[j].offset
    decreases j
  {
    assert pieces[j - 1].offset + |pieces[j - 1].data| == pieces[j - 1 + 1].offset;
    if i < j - 1 { TileOrder(pieces, key, adu, i, j - 1); }
  }

  lemma TileReach(pieces: seq<Fragment>, key: Key, adu: seq<Byte>, i: nat)
    requires Tiles(pieces, key, adu) && 0 < i < |pieces|
    ensures pieces[i - 1].offset + |pieces[i - 1].data| == pieces[i].offset < |adu|
  {
    assert pieces[i - 1].offset + |pieces[i - 1].data| == pieces[i - 1 + 1].offset;
    assert pieces[i] in pieces && |pieces[i].data| > 0;
  }

  // ---- pieces with data, and empty ones among them ----

  /** A fragment without data that starts where one of the pieces starts. */
  ghost predicate EmptyPiece(x: Fragment, pieces: seq<Fragment>) {
    exists k :: 0 <= k < |pieces| && EmptyOf(x, pieces[k])
  }

  predicate EmptyOf(x: Fragment, y: Fragment) {
    x.data == [] && x.key == y.key && x.offset == y.offset && x.total == y.total
  }

  /** The list holds pieces, each at most once, and empty pieces. */
  ghost predicate Gathers(list: seq<Fragment>, pieces: seq<Fragment>) {
    && SortedByOffset(list)
    && (forall x <- list :: x in pieces || EmptyPiece(x, pieces))
    && (forall i, j :: 0 <= i < j < |list| && list[i] == list[j] ==> list[i].data == [])
  }

  /** `e` is empty and starts with `d`, which has data but does not end the ADU. */
  ghost predicate Hides(d: Fragment, e: Fragment, total: nat) {
    d.data != [] && e.data == [] && d.offset == e.offset && d.offset + |d.data| < total
  }

  /** An empty fragment lies behind the data of the same offset. */
  ghost predicate Stuck(list: seq<Fragment>, total: nat) {
    exists i, j :: 0 <= i < j < |list| && Hides(list[i], list[j], total)
  }

  lemma GathersPieces(list: seq<Fragment>, pieces: seq<Fragment>, key: Key, adu: seq<Byte>)
    requires Tiles(pieces, key, adu) && Gathers(list, pieces)
    ensures PiecesOf(list, adu)
  {
    forall x | x in list
      ensures x.total == |adu| && x.offset + |x.data| <= |adu| && x.data == adu[x.offset..x.offset + |x.data|]
    {
      if x !in pieces {
        var k :| 0 <= k < |pieces| && EmptyOf(x, pieces[k]);
        assert pieces[k] in pieces && adu[x.offset..x.offset] == [];
      }
    }
  }

  /** Tiles of one offset are the same tile. */
  lemma SameTile(pieces: seq<Fragment>, key: Key, adu: seq<Byte>, i: nat, j: nat, p: nat)
    requires Tiles(pieces, key, adu) && i < |pieces| && j < |pieces|
    requires pieces[i].offset <= p < pieces[i].offset + |pieces[i].data|
             && pieces[j].offset <= p < pieces[j].offset + |pieces[j].data|
    ensures i == j
  {
    if i < j { TileOrder(pieces, key, adu, i, j); } else if j < i { TileOrder(pieces, key, adu, j, i); }
  }

  /** Nothing is delivered while a piece with data is missing. */
  lemma {:induction false} NoGapNeedsAll(list: seq<Fragment>, pieces: seq<Fragment>, key: Key, adu: seq<Byte>, k: nat)
    requires Tiles(pieces, key, adu) && Gathers(list, pieces) && NoGap(list, 0) && k < |pieces|
    ensures pieces[k] in list
  {
    GathersPieces(list, pieces, key, adu);
    DeliveredIsCovered(list, adu, 0);
    var p := pieces[k].offset;
    assert pieces[k] in pieces && pieces[k].data != [];
    assert HasByte(list, p);
    var i :| 0 <= i < |list| && list[i].offset <= p < list[i].offset + |list[i].data|;
    assert list[i] in list;
    if list[i] in pieces {
      var j :| 0 <= j < |pieces| && pieces[j] == list[i];
      SameTile(pieces, key, adu, j, k, p);
    }
  }

  /** The end of a piece of data that is not the last one is where the next one starts. */
  lemma NextTile(pieces: seq<Fragment>, key: Key, adu: seq<Byte>, k: nat)
    requires Tiles(pieces, key, adu) && k < |pieces|
    ensures End(pieces[k]) == pieces[k].offset + |pieces[k].data| <= |adu| && pieces[k].offset < End(pieces[k])
    ensures k + 1 < |pieces| ==> pieces[k + 1].offset == End(pieces[k]) < |adu|
    ensures k + 1 == |pieces| ==> End(pieces[k]) == |adu|
  {
    assert pieces[k] in pieces && pieces[k].data != [];
    if k + 1 < |pieces| { TileReach(pieces, key, adu, k + 1); }
  }

  lemma IndexAbove(list: seq<Fragment>, i: nat, m: nat)
    requires SortedByOffset(list) && i < |list| && m < |list| && list[m].offset > list[i].offset
    ensures m > i && i + 1 < |list| && list[i + 1].offset <= list[m].offset
  {
    if m < i { assert false; }
    if i + 1 < m { assert list[i + 1].offset <= list[m].offset; }
  }

  /** With all data there and no empty fragment behind its data, the list is linked. */
  lemma FreeIsLinked(list: seq<Fragment>, pieces: seq<Fragment>, key: Key, adu: seq<Byte>)
    requires Tiles(pieces, key, adu) && Gathers(list, pieces) && (forall x <- pieces :: x in list)
             && !Stuck(list, |adu|)
    ensures Linked(list, |adu|)
  {
    forall i | 0 <= i < |list| - 1 && !Reached(list, i, |adu|) ensures list[i + 1].offset <= End(list[i]) {
      assert list[i] in list;
      if list[i] in pieces {
        var k :| 0 <= k < |pieces| && pieces[k] == list[i];
        NextTile(pieces, key, adu, k);
        assert k + 1 < |pieces|;
        assert pieces[k + 1] in pieces;
        var m :| 0 <= m < |list| && list[m] == pieces[k + 1];
        IndexAbove(list, i, m);
      } else {
        var k :| 0 <= k < |pieces| && EmptyOf(list[i], pieces[k]);
        EmptyLinks(list, pieces, key, adu, i, k);
      }
    }
  }

  lemma DataBehind(list: seq<Fragment>, i: nat, m: nat, total: nat)
    requires !Stuck(list, total) && i < |list| && m < |list| && !Reached(list, i, total)
    requires list[m].data != [] && EmptyOf(list[i], list[m]) && End(list[m]) == list[m].offset + |list[m].data|
    ensures m > i
  {
    assert Hides(list[m], list[i], total) <==> End(list[m]) < total;
  }

  lemma EmptyLinks(list: seq<Fragment>, pieces: seq<Fragment>, key: Key, adu: seq<Byte>, i: nat, k: nat)
    requires Tiles(pieces, key, adu) && Gathers(list, pieces) && (forall x <- pieces :: x in list)
             && !Stuck(list, |adu|)
    requires i < |list| - 1 && !Reached(list, i, |adu|) && k < |pieces| && EmptyOf(list[i], pieces[k])
    ensures list[i + 1].offset <= End(list[i])
  {
    NextTile(pieces, key, adu, k);
    assert pieces[k] in pieces;
    var m :| 0 <= m < |list| && list[m] == pieces[k];
    DataBehind(list, i, m, |adu|);
    assert i + 1 < m ==> list[i + 1].offset <= list[m].offset;
  }

  /** The last index with the offset of the `j`-th fragment. */
  lemma {:induction false} LastAtOffset(list: seq<Fragment>, j: nat) returns (n: nat)
    requires SortedByOffset(list) && j < |list|
    ensures j <= n < |list| && list[n].offset == list[j].offset
    ensures n + 1 < |list| ==> list[n + 1].offset > list[n].offset
    decreases |list| - j
  {
    n := j;
    if j + 1 < |list| {
      assert list[j].offset <= list[j + 1].offset;
      if list[j + 1].offset == list[j].offset { n := LastAtOffset(list, j + 1); }
    }
  }

  /** Nothing up to an index of this offset reaches the total length. */
  lemma NoneReached(list: seq<Fragment>, pieces: seq<Fragment>, key: Key, adu: seq<Byte>, n: nat, k: nat)
    requires Tiles(pieces, key, adu) && Gathers(list, pieces) && n < |list| && k + 1 < |pieces|
             && list[n].offset == pieces[k].offset
    ensures !Reached(list, n, |adu|)
  {
    NextTile(pieces, key, adu, k);
    forall i | 0 <= i <= n ensures End(list[i]) < |adu| {
      assert list[i] in list;
      assert i < n ==> list[i].offset <= list[n].offset;
      if list[i] in pieces {
        var m :| 0 <= m < |pieces| && pieces[m] == list[i];
        NextTile(pieces, key, adu, m);
        if m > k { TileOrder(pieces, key, adu, k, m); } else if m < k { TileOrder(pieces, key, adu, m, k); }
      } else {
        var m :| 0 <= m < |pieces| && EmptyOf(list[i], pieces[m]);
      }
    }
  }

  /** An empty fragment behind its data cuts the list. */
  lemma StuckIsCut(list: seq<Fragment>, pieces: seq<Fragment>, key: Key, adu: seq<Byte>)
    requires Tiles(pieces, key, adu) && Gathers(list, pieces) && (forall x <- pieces :: x in list) && Stuck(list, |adu|)
    ensures !Linked(list, |adu|)
  {
    var i, j :| 0 <= i < j < |list| && Hides(list[i], list[j], |adu|);
    assert list[i] in list && list[i] in pieces;
    var k :| 0 <= k < |pieces| && pieces[k] == list[i];
    NextTile(pieces, key, adu, k);
    assert k + 1 < |pieces| && pieces[k + 1] in pieces;
    var m :| 0 <= m < |list| && list[m] == pieces[k + 1];
    var n := LastAtOffset(list, j);
    IndexAbove(list, n, m);
    NoneReached(list, pieces, key, adu, n, k);
    EmptyAt(list, pieces, key, adu, i, n, k);
    CutAt(list, n, |adu|);
  }

  lemma CutAt(list: seq<Fragment>, n: nat, total: nat)
    requires n + 1 < |list| && list[n].data == [] && list[n + 1].offset > list[n].offset && !Reached(list, n, total)
    ensures !Linked(list, total)
  {
    assert End(list[n]) == list[n].offset;
  }

  /** Behind the one data piece of an offset, everything of this offset is empty. */
  lemma EmptyAt(list: seq<Fragment>, pieces: seq<Fragment>, key: Key, adu: seq<Byte>, i: nat, n: nat, k: nat)
    requires Tiles(pieces, key, adu) && Gathers(list, pieces) && i < n < |list| && k < |pieces|
    requires list[i] == pieces[k] && list[n].offset == list[i].offset
    ensures list[n].data == []
  {
    assert list[n] in list && pieces[k] in pieces && pieces[k].data != [];
    if list[n] in pieces {
      var m :| 0 <= m < |pieces| && pieces[m] == list[n];
      assert pieces[m] in pieces && pieces[m].data != [];
      SameTile(pieces, key, adu, m, k, list[n].offset);
      assert false;
    }
  }

  /** With all data there, delivery depends on the empty fragments alone. */
  lemma {:induction false} DeliveredUnlessStuck(list: seq<Fragment>, pieces: seq<Fragment>, key: Key, adu: seq<Byte>)
    requires Tiles(pieces, key, adu) && Gathers(list, pieces) && forall x <- pieces :: x in list
    ensures NoGap(list, 0) <==> !Stuck(list, |adu|)
  {
    GathersPieces(list, pieces, key, adu);
    assert pieces[0] in pieces;
    AllCovered(list, pieces, key, adu);
    CoveredIsDelivered(list, adu);
    if Stuck(list, |adu|) { StuckIsCut(list, pieces, key, adu); } else { FreeIsLinked(list, pieces, key, adu); }
  }

  lemma {:induction false} TileWith(pieces: seq<Fragment>, key: Key, adu: seq<Byte>, p: nat, k: nat) returns (m: nat)
    requires Tiles(pieces, key, adu) && k < |pieces| && pieces[k].offset <= p < |adu|
    ensures m < |pieces| && pieces[m].offset <= p < pieces[m].offset + |pieces[m].data|
    decreases |pieces| - k
  {
    NextTile(pieces, key, adu, k);
    m := k;
    if p >= End(pieces[k]) { m := TileWith(pieces, key, adu, p, k + 1); }
  }

  lemma AllCovered(list: seq<Fragment>, pieces: seq<Fragment>, key: Key, adu: seq<Byte>)
    requires Tiles(pieces, key, adu) && forall x <- pieces :: x in list
    ensures Covers(list, 0, |adu|)
  {
    forall p | 0 <= p < |adu| ensures HasByte(list, p) {
      var m := TileWith(pieces, key, adu, p, 0);
      assert pieces[m] in pieces;
      var i :| 0 <= i < |list| && list[i] == pieces[m];
    }
  }

  // ---- one more fragment ----

  /** Where a fragment is inserted: behind all of its offset. */
  lemma {:induction false} InsertAt(list: seq<Fragment>, f: Fragment) returns (k: nat)
    requires SortedByOffset(list)
    ensures k <= |list| && Insert(list, f) == list[..k] + [f] + list[k..]
    ensures forall i :: 0 <= i < k ==> list[i].offset <= f.offset
    ensures forall i :: k <= i < |list| ==> list[i].offset > f.offset
  {
    if list == [] || list[0].offset > f.offset {
      k := 0;
      forall i | 0 <= i < |list| ensures list[i].offset > f.offset {
        assert i > 0 ==> list[0].offset <= list[i].offset;
      }
    } else {
      k := InsertAt(list[1..], f);
      assert list[1..][..k] == list[1..k + 1] && list[1..][k..] == list[k + 1..];
      assert [list[0]] + (list[1..k + 1] + [f] + list[k + 1..]) == list[..k + 1] + [f] + list[k + 1..];
      k := k + 1;
    }
  }

  /** Where a fragment of the list, or of the list with another one at `k`, is found. */
  function Shifted(i: nat, k: nat): nat { if i < k then i else i + 1 }

  function Unshifted(i: nat, k: nat): nat
    requires i != k
  {
    if i < k then i else i - 1
  }

  /** A fragment is stuck behind data that is there, or nothing changes. */
  lemma {:induction false} InsertStuck(list: seq<Fragment>, f: Fragment, total: nat)
    requires SortedByOffset(list)
    ensures Stuck(Insert(list, f), total) <==> Stuck(list, total) || exists d :: d in list && Hides(d, f, total)
  {
    var k := InsertAt(list, f);
    if Stuck(Insert(list, f), total) { StuckBefore(list, f, k, total); }
    if Stuck(list, total) { StillStuck(list, f, k, total); }
    if d :| d in list && Hides(d, f, total) {
      var i :| 0 <= i < |list| && list[i] == d;
      var r := Insert(list, f);
      assert r[i] == d && r[k] == f && i < k;
    }
  }

  lemma StillStuck(list: seq<Fragment>, f: Fragment, k: nat, total: nat)
    requires k <= |list| && Stuck(list, total)
    ensures Stuck(list[..k] + [f] + list[k..], total)
  {
    var r := list[..k] + [f] + list[k..];
    var i, j :| 0 <= i < j < |list| && Hides(list[i], list[j], total);
    assert r[Shifted(i, k)] == list[i] && r[Shifted(j, k)] == list[j];
  }

  lemma StuckBefore(list: seq<Fragment>, f: Fragment, k: nat, total: nat)
    requires k <= |list| && Stuck(list[..k] + [f] + list[k..], total) && forall i ::
                                                                           k <= i < |list| ==> list[i].offset > f.offset
    ensures Stuck(list, total) || exists d :: d in list && Hides(d, f, total)
  {
    var r := list[..k] + [f] + list[k..];
    var i, j :| 0 <= i < j < |r| && Hides(r[i], r[j], total);
    assert r[k] == f;
    if j == k {
      assert r[i] == list[i] && list[i] in list;
    } else {
      assert r[j] == list[Unshifted(j, k)];
      assert i != k;
      assert r[i] == list[Unshifted(i, k)];
    }
  }

  lemma {:induction false} InsertGathers(list: seq<Fragment>, f: Fragment, pieces: seq<Fragment>)
    requires Gathers(list, pieces) && (f in pieces || EmptyPiece(f, pieces)) && (f.data == [] || f !in list)
    ensures Gathers(Insert(list, f), pieces)
  {
    InsertKeepsOrder(list, f);
    var k := InsertAt(list, f);
    OnceMore(list, f, k);
  }

  lemma OnceMore(list: seq<Fragment>, f: Fragment, k: nat)
    requires k <= |list| && (f.data == [] || f !in list)
    requires forall i, j :: 0 <= i < j < |list| && list[i] == list[j] ==> list[i].data == []
    ensures var r := list[..k] + [f] + list[k..]; forall i, j :: 0 <= i < j < |r| && r[i] == r[j] ==> r[i].data == []
  {
    var r := list[..k] + [f] + list[k..];
    forall i, j | 0 <= i < j < |r| && r[i] == r[j] ensures r[i].data == [] {
      if i == k {
        assert r[j] == list[Unshifted(j, k)];
      } else if j == k {
        assert r[i] == list[Unshifted(i, k)];
      } else {
        assert r[i] == list[Unshifted(i, k)] && r[j] == list[Unshifted(j, k)];
      }
    }
  }
}
