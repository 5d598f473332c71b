/** Fragments made by any splits and received in any order: when they give back the ADU. */
module FragmentRoundTrip {
  import opened Basics
  import opened Reassembly
  import opened Reassembler
  import opened LocalDelivery
  import opened LocalRuns
  import opened LocalReassembly
  import opened Fragmentation

  /** A bundle as the receiver's reassembly sees it. */
  function Piece(b: Bundle): Fragment
    requires b.Valid()
  {
    Fragment(b.header.key, b.offset, b.AduLength(), b.Payload(), Terms(7, b.header.lifetime))
  }

  function PiecesIn(frags: seq<Bundle>): seq<Fragment>
    requires AllValid(frags)
  {
    if frags == [] then [] else [Piece(frags[0])] + PiecesIn(frags[1..])
  }

  /** The fragments that hold data. */
  function NonEmpty(list: seq<Fragment>): seq<Fragment> {
    if list == [] then []
    else if list[0].data == [] then NonEmpty(list[1..])
    else [list[0]] + NonEmpty(list[1..])
  }

  // ---- a part of an ADU ----

  /** The fragments, with data or without, hold the bytes from `start` to `end` one after the other. */
  ghost predicate FillRange(list: seq<Fragment>, key: Key, adu: seq<Byte>, start: nat, end: nat) {
    start <= end <= |adu| &&
    if list == [] then start == end
    else
      && IsPiece(list[0], key, adu) && list[0].offset == start
      && FillRange(list[1..], key, adu, start + |list[0].data|, end)
  }

  ghost predicate IsPiece(f: Fragment, key: Key, adu: seq<Byte>) {
    && f.key == key && f.total == |adu|
    && f.offset + |f.data| <= |adu| && f.data == adu[f.offset..f.offset + |f.data|]
  }

  /** The fragments hold the ADU one after the other, and the last one has data. */
  ghost predicate Fills(list: seq<Fragment>, key: Key, adu: seq<Byte>) {
    FillRange(list, key, adu, 0, |adu|) && list != [] && list[|list| - 1].data != []
  }

  lemma {:induction false} FillAppend(a: seq<Fragment>, b: seq<Fragment>, key: Key, adu: seq<Byte>, start: nat,
      mid: nat, end: nat)
    requires FillRange(a, key, adu, start, mid) && FillRange(b, key, adu, mid, end)
    ensures FillRange(a + b, key, adu, start, end)
    decreases a
  {
    if a == [] {
      assert a + b == b;
    } else {
      FillAppend(a[1..], b, key, adu, start + |a[0].data|, mid, end);
      assert (a + b)[1..] == a[1..] + b;
    }
  }

  lemma {:induction false} FillCut(list: seq<Fragment>, key: Key, adu: seq<Byte>, start: nat, end: nat, i: nat)
    requires FillRange(list, key, adu, start, end) && i < |list|
    ensures var f := list[i];
      && start <= f.offset && f.offset + |f.data| <= end && IsPiece(f, key, adu)
      && FillRange(list[..i], key, adu, start, f.offset)
      && FillRange(list[i + 1..], key, adu, f.offset + |f.data|, end)
    decreases list
  {
    if i > 0 {
      FillCut(list[1..], key, adu, start + |list[0].data|, end, i - 1);
      assert list[..i] == [list[0]] + list[1..][..i - 1] && list[i + 1..] == list[1..][i..];
      assert list[..i][1..] == list[1..][..i - 1];
    } else {
      assert list[..0] == [];
    }
  }

  // ---- the fragments with data ----

  lemma {:induction false} DataFills(list: seq<Fragment>, key: Key, adu: seq<Byte>, start: nat, end: nat)
    requires FillRange(list, key, adu, start, end)
    ensures FillRange(NonEmpty(list), key, adu, start, end)
    decreases list
  {
    if list != [] {
      DataFills(list[1..], key, adu, start + |list[0].data|, end);
      assert list[0].data != [] ==> NonEmpty(list)[1..] == NonEmpty(list[1..]);
    }
  }

  lemma {:induction false} DataOnly(list: seq<Fragment>)
    ensures forall x :: x in NonEmpty(list) <==> x in list && x.data != []
  {
    if list != [] {
      DataOnly(list[1..]);
      assert forall x :: x in list <==> x == list[0] || x in list[1..];
    }
  }

  lemma {:induction false} RangeIsTiled(list: seq<Fragment>, key: Key, adu: seq<Byte>, start: nat)
    requires FillRange(list, key, adu, start, |adu|) && list != []
    ensures list[0].offset == start && forall i :: 0 <= i < |list| ==> IsPiece(list[i], key, adu)
    ensures forall i :: 0 <= i < |list| - 1 ==> list[i].offset + |list[i].data| == list[i + 1].offset
    ensures list[|list| - 1].offset + |list[|list| - 1].data| == |adu|
    decreases list
  {
    if list[1..] != [] {
      RangeIsTiled(list[1..], key, adu, start + |list[0].data|);
      forall i | 0 < i < |list| ensures list[i] == list[1..][i - 1] {}
    }
  }

  /** The fragments with data tile the ADU. */
  lemma {:induction false} DataTiles(list: seq<Fragment>, key: Key, adu: seq<Byte>)
    requires Fills(list, key, adu)
    ensures Tiles(NonEmpty(list), key, adu)
  {
    var data := NonEmpty(list);
    DataFills(list, key, adu, 0, |adu|);
    DataOnly(list);
    assert list[|list| - 1] in list && list[|list| - 1] in data;
    forall i | 0 <= i < |data| ensures data[i].data != [] { assert data[i] in data; }
    RangeTiles(data, key, adu);
  }

  lemma {:induction false} RangeTiles(data: seq<Fragment>, key: Key, adu: seq<Byte>)
    requires FillRange(data, key, adu, 0, |adu|) && data != [] && forall i :: 0 <= i < |data| ==> data[i].data != []
    ensures Tiles(data, key, adu)
  {
    RangeIsTiled(data, key, adu, 0);
  }

  /** A fragment without data starts where the next one with data starts. */
  lemma {:induction false} EmptyBefore(list: seq<Fragment>, key: Key, adu: seq<Byte>, start: nat, x: Fragment)
    requires FillRange(list, key, adu, start, |adu|) && list != [] && list[|list| - 1].data != []
    ensures NonEmpty(list) != [] && NonEmpty(list)[0].offset == start
    ensures NonEmpty(list)[0].key == key && NonEmpty(list)[0].total == |adu|
    ensures x in list && x.data == [] ==> EmptyPiece(x, NonEmpty(list))
    decreases list
  {
    if |list| > 1 {
      EmptyBefore(list[1..], key, adu, start + |list[0].data|, x);
      var rest := NonEmpty(list[1..]);
      if x in list[1..] && x.data == [] {
        var k :| 0 <= k < |rest| && EmptyOf(x, rest[k]);
        if list[0].data != [] { assert NonEmpty(list)[k + 1] == rest[k]; }
      } else if x == list[0] && x.data == [] {
        assert EmptyOf(x, rest[0]);
      }
    }
  }

  // ---- a split refines what it splits ----

  /** The fragments hold `data`, which starts at `start`, one after the other. */
  ghost predicate Joins(list: seq<Fragment>, key: Key, total: nat, start: nat, data: seq<Byte>) {
    if list == [] then data == []
    else
      && list[0].key == key && list[0].total == total && list[0].offset == start && list[0].data <= data
      && Joins(list[1..], key, total, start + |list[0].data|, data[|list[0].data|..])
  }

  lemma Tail(frags: seq<Bundle>, b: Bundle)
    requires b.Valid() && frags != [] && AllShareAdu(frags, b) && Consecutive(frags)
    ensures AllShareAdu(frags[1..], b) && Consecutive(frags[1..]) && SharesAdu(frags[0], b)
    ensures |frags| > 1 ==> frags[1].offset == frags[0].offset + |frags[0].Payload()|
  {
    assert frags[0] in frags;
    assert forall f <- frags[1..] :: f in frags;
    assert |frags| > 1 ==> frags[0 + 1].offset == frags[0].offset + |frags[0].Payload()|;
    var rest := frags[1..];
    forall i | 0 <= i < |rest| - 1 ensures rest[i].Valid() && rest[i + 1].offset
        == rest[i].offset + |rest[i].Payload()| {
      assert rest[i] == frags[i + 1] && frags[i + 1].Valid();
    }
  }

  lemma {:induction false} JoinOne(f: Fragment, list: seq<Fragment>, key: Key, total: nat, data: seq<Byte>)
    requires f.key == key && f.total == total && Joins(list, key, total, f.offset + |f.data|, data)
    ensures Joins([f] + list, key, total, f.offset, f.data + data)
  {
    assert ([f] + list)[1..] == list && (f.data + data)[|f.data|..] == data;
  }

  lemma {:induction false} PiecesJoin(frags: seq<Bundle>, b: Bundle, start: nat)
    requires b.Valid() && AllShareAdu(frags, b) && Consecutive(frags)
    requires frags != [] ==> frags[0].offset == start
    ensures Joins(PiecesIn(frags), b.header.key, b.AduLength(), start, Payloads(frags))
    decreases frags
  {
    if frags != [] {
      Tail(frags, b);
      PiecesJoin(frags[1..], b, start + |frags[0].Payload()|);
      JoinOne(Piece(frags[0]), PiecesIn(frags[1..]), b.header.key, b.AduLength(), Payloads(frags[1..]));
    }
  }

  lemma {:induction false} JoinsFill(list: seq<Fragment>, key: Key, adu: seq<Byte>, start: nat, end: nat)
    requires start <= end <= |adu| && Joins(list, key, |adu|, start, adu[start..end])
    ensures FillRange(list, key, adu, start, end)
    decreases list
  {
    if list != [] {
      var f, data := list[0], adu[start..end];
      var next := start + |f.data|;
      assert f.data == data[..|f.data|] && data[..|f.data|] == adu[start..next];
      assert data[|f.data|..] == adu[next..end];
      JoinsFill(list[1..], key, adu, next, end);
    }
  }

  lemma {:induction false} LastPiece(frags: seq<Bundle>)
    requires AllValid(frags) && frags != []
    ensures PiecesIn(frags) != [] && PiecesIn(frags)[|PiecesIn(frags)| - 1] == Piece(frags[|frags| - 1])
  {
    if |frags| > 1 { LastPiece(frags[1..]); }
  }

  /** Fragments of the `i`-th piece in its place. */
  function Replace(pieces: seq<Fragment>, i: nat, list: seq<Fragment>): seq<Fragment>
    requires i < |pieces|
  {
    pieces[..i] + list + pieces[i + 1..]
  }

  lemma {:induction false} ReplaceFills(pieces: seq<Fragment>, i: nat, list: seq<Fragment>, key: Key, adu: seq<Byte>)
    requires Fills(pieces, key, adu) && i < |pieces| && Joins(list, key, |adu|, pieces[i].offset, pieces[i].data)
    requires list != [] && (pieces[i].data != [] ==> list[|list| - 1].data != [])
    ensures Fills(Replace(pieces, i, list), key, adu)
  {
    ReplaceRange(pieces, i, list, key, adu);
    ReplaceLast(pieces, i, list);
  }

  lemma {:induction false} ReplaceRange(pieces: seq<Fragment>, i: nat, list: seq<Fragment>, key: Key, adu: seq<Byte>)
    requires FillRange(pieces, key, adu, 0, |adu|) && i < |pieces|
             && Joins(list, key, |adu|, pieces[i].offset, pieces[i].data)
    ensures FillRange(Replace(pieces, i, list), key, adu, 0, |adu|)
  {
    FillCut(pieces, key, adu, 0, |adu|, i);
    var end := pieces[i].offset + |pieces[i].data|;
    JoinsFill(list, key, adu, pieces[i].offset, end);
    FillThree(pieces[..i], list, pieces[i + 1..], key, adu, pieces[i].offset, end);
  }

  lemma {:induction false} FillThree(a: seq<Fragment>, b: seq<Fragment>, c: seq<Fragment>, key: Key, adu: seq<Byte>,
      start: nat, end: nat)
    requires FillRange(a, key, adu, 0, start) && FillRange(b, key, adu, start, end)
             && FillRange(c, key, adu, end, |adu|)
    ensures FillRange(a + b + c, key, adu, 0, |adu|)
  {
    FillAppend(a, b, key, adu, 0, start, end);
    FillAppend(a + b, c, key, adu, 0, end, |adu|);
  }

  lemma ReplaceLast(pieces: seq<Fragment>, i: nat, list: seq<Fragment>)
    requires i < |pieces| && list != []
    ensures var r := Replace(pieces, i, list);
            r != [] && r[|r| - 1] == if i == |pieces| - 1 then list[|list| - 1] else pieces[|pieces| - 1]
  {
  }

  /** After splitting one of the fragments, with data or without, they still hold the ADU one after the other. */
  lemma SplitKeepsTiles(pieces: seq<Fragment>, i: nat, key: Key, adu: seq<Byte>, b: Bundle, plan: seq<uint32>)
    requires Fills(pieces, key, adu) && i < |pieces| && b.Valid() && b.Placed() && Piece(b) == pieces[i]
             && Fragments(b, plan).Some?
    ensures Fills(Replace(pieces, i, PiecesIn(Fragments(b, plan).value.frags)), key, adu)
  {
    var frags := Fragments(b, plan).value.frags;
    FragmentsDivide(b, plan);
    PiecesJoin(frags, b, b.offset);
    LastPiece(frags);
    if b.Payload() != [] { LastHasData(b, plan); }
    FillCut(pieces, key, adu, 0, |adu|, i);
    ReplaceFills(pieces, i, PiecesIn(frags), key, adu);
  }

  // ---- repeated splits on the way ----

  /** A node splits the bundle `b`, which carries the `i`-th piece, for the planned payload sizes. */
  datatype Resplit = Resplit(i: nat, b: Bundle, plan: seq<uint32>)

  ghost predicate CanApply(pieces: seq<Fragment>, s: Resplit) {
    && s.i < |pieces| && s.b.Valid() && s.b.Placed() && Piece(s.b) == pieces[s.i]
    && Fragments(s.b, s.plan).Some?
  }

  function Apply(pieces: seq<Fragment>, s: Resplit): seq<Fragment>
    requires s.i < |pieces| && s.b.Valid() && Fragments(s.b, s.plan).Some?
  {
    Replace(pieces, s.i, PiecesIn(Fragments(s.b, s.plan).value.frags))
  }

  /** `now` is what a sequence of splits makes of `pieces`. */
  ghost predicate SplitInto(pieces: seq<Fragment>, steps: seq<Resplit>, now: seq<Fragment>)
    decreases |steps|
  {
    if steps == [] then now == pieces
    else CanApply(pieces, steps[0]) && SplitInto(Apply(pieces, steps[0]), steps[1..], now)
  }

  lemma {:induction false} SplitIntoFills(pieces: seq<Fragment>, steps: seq<Resplit>, now: seq<Fragment>, key: Key,
      adu: seq<Byte>)
    requires Fills(pieces, key, adu) && SplitInto(pieces, steps, now)
    ensures Fills(now, key, adu)
    decreases |steps|
  {
    if steps != [] {
      var s := steps[0];
      SplitKeepsTiles(pieces, s.i, key, adu, s.b, s.plan);
      SplitIntoFills(Apply(pieces, s), steps[1..], now, key, adu);
    }
  }

  lemma WholeFills(b: Bundle)
    requires b.Valid() && !b.isFragment && b.Placed() && b.Payload() != []
    ensures Fills([Piece(b)], b.header.key, b.Payload())
  {
    assert b.Payload()[0..|b.Payload()|] == b.Payload();
    assert [Piece(b)][1..] == [];
  }

  // ---- terms ----

  ghost predicate AllTerms(pieces: seq<Fragment>, t: Terms) { forall x <- pieces :: x.terms == t }

  lemma {:induction false} PieceTerms(frags: seq<Bundle>, b: Bundle)
    requires b.Valid() && AllShareAdu(frags, b)
    ensures AllTerms(PiecesIn(frags), Piece(b).terms)
    decreases frags
  {
    if frags != [] {
      assert SharesAdu(frags[0], b) by { assert frags[0] in frags; }
      assert forall f <- frags[1..] :: f in frags;
      PieceTerms(frags[1..], b);
    }
  }

  lemma {:induction false} SplitIntoTerms(pieces: seq<Fragment>, steps: seq<Resplit>, now: seq<Fragment>, t: Terms)
    requires AllTerms(pieces, t) && SplitInto(pieces, steps, now)
    ensures AllTerms(now, t)
    decreases |steps|
  {
    if steps != [] {
      var s := steps[0];
      FragmentsDivide(s.b, s.plan);
      PieceTerms(Fragments(s.b, s.plan).value.frags, s.b);
      assert pieces[s.i] in pieces;
      SplitIntoTerms(Apply(pieces, s), steps[1..], now, t);
    }
  }

  // ---- arrival ----

  /** What arrives with `key` are pieces, in time and for somebody, any number of times and in any order. */
  ghost predicate Arrive(events: seq<Arrival>, key: Key, t: Terms, pieces: seq<Fragment>) {
    forall i :: 0 <= i < |events| && events[i].f.key == key ==>
      var a := events[i];
      !a.whole && a.wanted && a.now <= Due(key, t) && a.f in pieces
  }

  lemma {:induction false} ArriveComes(events: seq<Arrival>, key: Key, t: Terms, pieces: seq<Fragment>, adu: seq<Byte>)
    requires Fills(pieces, key, adu) && AllTerms(pieces, t) && Arrive(events, key, t, pieces) && key.timestamp != 0
    ensures ComesLocally(events, key, t, NonEmpty(pieces))
  {
    DataOnly(pieces);
    forall i | 0 <= i < |events| && events[i].f.key == key ensures Belongs(events[i], t, NonEmpty(pieces)) {
      EmptyBefore(pieces, key, adu, 0, events[i].f);
    }
  }

  /** If no fragment holds the whole ADU, two at least have data. */
  lemma {:induction false} TwoPieces(pieces: seq<Fragment>, key: Key, adu: seq<Byte>)
    requires Tiles(NonEmpty(pieces), key, adu) && forall x <- pieces :: |x.data| < |adu|
    ensures |NonEmpty(pieces)| >= 2
  {
    DataOnly(pieces);
    assert NonEmpty(pieces)[0] in NonEmpty(pieces);
  }

  /**
   * A bundle is split by any nodes on its way into any fragments, with data and without, none of them
   * whole. They arrive in time, in any order, any number of times and among other bundles. Up to the first
   * fragment that is used after it was discarded: an arrival delivers the payload, exactly, if and only if
   * with it all data has come, and no fragment without data came first behind the one with data at its
   * offset, unless that one ends the payload.
   */
  lemma SplitAndDeliver(b: Bundle, steps: seq<Resplit>, pieces: seq<Fragment>, s: Node, events: seq<Arrival>, i: nat)
    requires b.Valid() && !b.isFragment && b.Placed() && b.header.key.timestamp != 0
    requires SplitInto([Piece(b)], steps, pieces) && forall x <- pieces :: |x.data| < |b.Payload()|
    requires Fresh(s, b.header.key) && ClockRuns(events) && Arrive(events, b.header.key, Piece(b).terms, pieces)
    requires i < |events| && events[i].f.key == b.header.key && State(s, events, i).Node?
    ensures var key, adu, data := b.header.key, b.Payload(), NonEmpty(pieces); var firsts := Firsts(events, key, i);
            DeliversAdu(Out(s, events, i), AduId(key, Piece(b).terms, |adu|), adu,
                        AllIn(data, Firsts(events, key, i + 1)) && !AllIn(data, firsts)
                            && !Obstructed(firsts, key, |adu|, |firsts|))
  {
    var key, adu, t := b.header.key, b.Payload(), Piece(b).terms;
    assert events[i].f in pieces && adu != [];
    WholeFills(b);
    SplitIntoFills([Piece(b)], steps, pieces, key, adu);
    SplitIntoTerms([Piece(b)], steps, pieces, t);
    DataTiles(pieces, key, adu);
    TwoPieces(pieces, key, adu);
    ArriveComes(events, key, t, pieces, adu);
    DeliveredLocally(s, events, key, t, NonEmpty(pieces), adu, i);
  }

  /** If all fragments have data, the payload is delivered when the last of them has come. */
  lemma DeliveredWithoutEmpty(b: Bundle, steps: seq<Resplit>, pieces: seq<Fragment>, s: Node,
      events: seq<Arrival>, i: nat)
    requires b.Valid() && !b.isFragment && b.Placed() && b.header.key.timestamp != 0
    requires SplitInto([Piece(b)], steps, pieces) && forall x <- pieces :: 0 < |x.data| < |b.Payload()|
    requires Fresh(s, b.header.key) && ClockRuns(events) && Arrive(events, b.header.key, Piece(b).terms, pieces)
    requires i < |events| && events[i].f.key == b.header.key && State(s, events, i).Node?
    ensures var key, adu := b.header.key, b.Payload();
            DeliversAdu(Out(s, events, i), AduId(key, Piece(b).terms, |adu|), adu,
                        AllIn(pieces, Firsts(events, key, i + 1)) && !AllIn(pieces, Firsts(events, key, i)))
  {
    SplitAndDeliver(b, steps, pieces, s, events, i);
    var key, firsts := b.header.key, Firsts(events, b.header.key, i);
    DataOnly(pieces);
    FirstsHaveData(events, key, i);
  }

  lemma {:induction false} FirstsHaveData(events: seq<Arrival>, key: Key, n: nat)
    requires n <= |events| && forall i :: 0 <= i < |events| && events[i].f.key == key ==> events[i].f.data != []
    ensures forall x <- Firsts(events, key, n) :: x.data != []
  {
    if n > 0 { FirstsHaveData(events, key, n - 1); }
  }
}
