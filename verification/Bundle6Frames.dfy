/**
 * Convergence layers that announce the length of a bundle (components/cla/posix/cla_mtcp.c, lines
 * 286-336, components/cla/posix/cla_tcpclv3.c, lines 575-628): they count the bytes that the parser takes
 * and reset it after the last one. Bytes read in bulk are not counted.
 */
module Bundle6Frames {
  import opened Bundle6Parser
  import opened Bundle6Serializer
  import opened Bundle6RoundTrip
  import opened Bundle6Receiver

  datatype Frame = Frame(link: Link, left: nat, reset: bool)

  predicate Over(f: Frame) { f.reset || f.link.parser.status != Good }

  /** One turn of the task; a chunk is cut at the end of the frame. */
  function FrameTurn(f: Frame, n: nat): Frame {
    var l := f.link;
    if Over(f) then f
    else if WantsBulk(l.parser) then f.(link := Turn(l, n))
    else
      var k := Min(n, |l.stream|);
      var input := l.buffer + l.stream[..k];
      var m := Min(|input|, f.left);
      var r := Read(l.parser, input[..m]);
      RestFits(l.parser, input[..m]);
      Frame(Link(r.parser, r.rest + input[m..], l.stream[k..], l.bulk), f.left - (m - |r.rest|), f.left == m - |r.rest|)
  }

  function FrameTurns(f: Frame, sizes: seq<nat>): Frame
    decreases |sizes|
  {
    if sizes == [] then f else FrameTurns(FrameTurn(f, sizes[0]), sizes[1..])
  }

  // ---- what a parser that finishes has read ----

  predicate EndsEmpty(b: Bundle) { b.blocks != [] && b.blocks[|b.blocks| - 1].data == [] }

  lemma ByteDoesNotFinish(p: Parser, byte: Octet)
    requires p.status == Good && p.stage != Data
    ensures ReadByte(p, byte).status != Done
  {
  }

  /** A parser that finishes with the last byte of a buffer has read a last block with data. */
  lemma {:induction false} FinishedAtEnd(p: Parser, a: seq<Octet>)
    requires p.status == Good && Read(p, a).parser.status == Done && Read(p, a).rest == []
    ensures !EndsEmpty(Read(p, a).parser.bundle)
    decreases |a|, if p.stage == Data then 1 else 0
  {
    var n := if p.stage == Data then p.length else 1;
    var q := if p.stage == Data then EndBlock(p, a[..n]) else ReadByte(p, a[0]);
    assert Read(p, a) == Read(q, a[n..]);
    if q.status == Good {
      FinishedAtEnd(q, a[n..]);
    } else {
      if p.stage != Data { ByteDoesNotFinish(p, a[0]); }
      assert a[n..] == [];
      assert n > 0 && a[..n] != [];
    }
  }

  /** A parser that finishes without a byte has read an empty last block. */
  lemma {:induction false} FinishedWithNothing(p: Parser, s: seq<Octet>)
    requires p.status == Good && ReadStream(p, s).parser.status == Done && |ReadStream(p, s).rest| == |s|
    ensures p.stage == Data && p.length == 0 && EndsEmpty(ReadStream(p, s).parser.bundle)
  {
    if p.stage != Data && s != [] { StreamRestFits(ReadByte(p, s[0]), s[1..]); }
    if p.stage == Data {
      var q := EndBlock(p, s[..p.length]);
      if q.status == Good && s[p.length..] != [] { StreamRestFits(ReadByte(q, s[p.length]), s[p.length..][1..]); }
      StreamRestFits(q, s[p.length..]);
      assert ReadStream(p, s) == ReadStream(q, s[p.length..]);
      assert s[..0] == [];
    }
  }

  // ---- one bundle in one frame ----

  /** What is left of the bundle in front of `tail`. */
  function Unread(l: Link, tail: seq<Octet>): int { |l.buffer| + |l.stream| - |tail| }

  /** Reading the rest of the stream ends the bundle `b` in front of `tail`. */
  ghost predicate Leads(l: Link, b: Bundle, tail: seq<Octet>) {
    Tidy(l) && StreamOf(l).rest == tail && SentAs(StreamOf(l).parser, b)
  }

  /** While the frame is open, it counts what is left of the bundle and what was read in bulk. */
  ghost predicate Open(f: Frame, b: Bundle, tail: seq<Octet>) {
    !Over(f) && Leads(f.link, b, tail) && f.left == Unread(f.link, tail) + f.link.bulk && f.left > 0
  }

  /** The frame is over: the bundle was sent, or lost with the reset. */
  ghost predicate Closed(f: Frame, b: Bundle) {
    && Over(f)
    && (SentAs(f.link.parser, b) <==> !EndsEmpty(b) || f.link.bulk > 0)
    && (!SentAs(f.link.parser, b) ==> f.reset && f.link.parser.status == Good)
  }

  lemma BulkTurn(f: Frame, b: Bundle, tail: seq<Octet>, n: nat)
    requires Open(f, b, tail) && WantsBulk(f.link.parser)
    ensures var f' := FrameTurn(f, n); Open(f', b, tail) || Closed(f', b)
  {
    var l, l' := f.link, Turn(f.link, n);
    BulkKeeps(l, n);
    if l'.parser.status != Good {
      assert StreamOf(l') == Result(l'.parser, l'.buffer + l'.stream);
      if EndsEmpty(b) && l'.bulk == 0 {
        FinishedWithNothing(l.parser, l.buffer + l.stream);
        assert false;
      }
    }
  }

  /** What a chunk, cut to the `m` bytes that the frame still counts, leaves of the stream. */
  lemma ChunkLeaves(l: Link, k: nat, m: nat, b: Bundle, tail: seq<Octet>) returns (r: Result, later: seq<Octet>)
    requires Leads(l, b, tail) && l.parser.status == Good && !WantsBulk(l.parser) && m <= k <= |l.stream|
    ensures l.buffer == [] && r == Read(l.parser, l.stream[..m]) && later == l.stream[m..] && |r.rest| <= m
    ensures ReadStream(r.parser, r.rest + later).rest == tail && SentAs(ReadStream(r.parser, r.rest + later).parser, b)
    ensures r.rest == [] || r.parser.status != Good || (r.parser.stage == Data && |r.rest| < r.parser.length)
  {
    assert [] + l.stream == l.stream == l.stream[..m] + l.stream[m..];
    r, later := Read(l.parser, l.stream[..m]), l.stream[m..];
    BufferOfStream(l.parser, l.stream[..m], later);
    BufferEnds(l.parser, l.stream[..m]);
    RestFits(l.parser, l.stream[..m]);
  }

  /** A block whose data is not all there takes more than what is there. */
  lemma {:induction false} TakesMore(p: Parser, kept: seq<Octet>, later: seq<Octet>)
    requires WantsBulk(p) && |kept| < p.length && ReadStream(p, kept + later).parser.status == Done
    ensures |ReadStream(p, kept + later).rest| < |later|
  {
    var s := kept + later;
    if p.length <= |s| { StreamRestFits(EndBlock(p, s[..p.length]), s[p.length..]); }
  }

  /** What the chunk of a turn comes to. */
  lemma ChunkIs(f: Frame, b: Bundle, tail: seq<Octet>, n: nat) returns (k: nat, m: nat, r: Result, later: seq<Octet>)
    requires Open(f, b, tail) && !WantsBulk(f.link.parser)
    ensures k == Min(n, |f.link.stream|) && m == Min(k, f.left)
    ensures f.link.buffer == [] && r == Read(f.link.parser, f.link.stream[..m]) && later == f.link.stream[m..]
            && |r.rest| <= m
    ensures ReadStream(r.parser, r.rest + later).rest == tail && SentAs(ReadStream(r.parser, r.rest + later).parser, b)
    ensures r.rest == [] || r.parser.status != Good || (r.parser.stage == Data && |r.rest| < r.parser.length)
    ensures var f' := FrameTurn(f, n);
      && f'.link.parser == r.parser && f'.link.bulk == f.link.bulk && f'.link.buffer + f'.link.stream == r.rest + later
      && (m == k ==> f'.link.buffer == r.rest)
      && f'.left == f.left - (m - |r.rest|) && (f'.reset <==> f'.left == 0)
  {
    var l := f.link;
    k := Min(n, |l.stream|);
    m := Min(k, f.left);
    r, later := ChunkLeaves(l, k, m, b, tail);
    var input := l.stream[..k];
    assert [] + input == input && input[..m] == l.stream[..m] && input[m..] + l.stream[k..] == later;
    Bundle6Receiver.Associate(r.rest, input[m..], l.stream[k..]);
    assert m == k ==> input[m..] == [];
  }

  lemma ChunkTurn(f: Frame, b: Bundle, tail: seq<Octet>, n: nat)
    requires Open(f, b, tail) && !WantsBulk(f.link.parser)
    ensures var f' := FrameTurn(f, n); Open(f', b, tail) || Closed(f', b)
  {
    var k, m, r, later := ChunkIs(f, b, tail, n);
    if r.parser.status != Good {
      assert |r.rest + later| == |tail|;
      ChunkFinishes(f, b, tail, m, r);
    } else {
      ChunkGoesOn(f, b, tail, n, k, m, r, later);
    }
  }

  lemma {:induction false} ChunkGoesOn(f: Frame, b: Bundle, tail: seq<Octet>, n: nat, k: nat, m: nat, r: Result,
      later: seq<Octet>)
    requires Open(f, b, tail) && k <= |f.link.stream| && m == Min(k, f.left) && later == f.link.stream[m..]
             && f.link.buffer == []
    requires r.parser.status == Good && (r.rest == [] || (r.parser.stage == Data && |r.rest| < r.parser.length))
             && |r.rest| <= m
    requires ReadStream(r.parser, r.rest + later).rest == tail && SentAs(ReadStream(r.parser, r.rest + later).parser, b)
    requires var f' := FrameTurn(f, n);
      && f'.link.parser == r.parser && f'.link.bulk == f.link.bulk && f'.link.buffer + f'.link.stream == r.rest + later
      && (m == k ==> f'.link.buffer == r.rest)
      && f'.left == f.left - (m - |r.rest|) && (f'.reset <==> f'.left == 0)
    ensures var f' := FrameTurn(f, n); Open(f', b, tail) || Closed(f', b)
  {
    var f' := FrameTurn(f, n);
    assert |f'.link.buffer| + |f'.link.stream| == |r.rest + later|;
    assert StreamOf(f'.link) == ReadStream(r.parser, r.rest + later);
    StreamRestFits(r.parser, r.rest + later);
    if f'.reset {
      FinishedWithNothing(r.parser, r.rest + later);
    } else if m < k && r.rest != [] {
      TakesMore(r.parser, r.rest, later);
    }
  }

  lemma ChunkFinishes(f: Frame, b: Bundle, tail: seq<Octet>, m: nat, r: Result)
    requires Open(f, b, tail) && !WantsBulk(f.link.parser) && m <= |f.link.stream| && m <= f.left && f.link.buffer == []
    requires r == Read(f.link.parser, f.link.stream[..m]) && r.parser.status != Good
    requires |r.rest| + |f.link.stream| - m == |tail| && SentAs(r.parser, b)
    ensures !EndsEmpty(b) || f.link.bulk > 0
  {
    if f.link.bulk == 0 {
      assert r.rest == [];
      FinishedAtEnd(f.link.parser, f.link.stream[..m]);
    }
  }

  lemma {:induction false} FrameRun(f: Frame, b: Bundle, tail: seq<Octet>, sizes: seq<nat>)
    requires Open(f, b, tail) || Closed(f, b)
    ensures var f' := FrameTurns(f, sizes); Open(f', b, tail) || Closed(f', b)
    decreases |sizes|
  {
    if sizes != [] {
      if Open(f, b, tail) {
        if WantsBulk(f.link.parser) { BulkTurn(f, b, tail, sizes[0]); } else { ChunkTurn(f, b, tail, sizes[0]); }
      }
      FrameRun(FrameTurn(f, sizes[0]), b, tail, sizes[1..]);
    }
  }

  lemma FrameAdvances(f: Frame, b: Bundle, tail: seq<Octet>, n: nat)
    requires Open(f, b, tail) && n > 0
    ensures Measure(FrameTurn(f, n).link) < Measure(f.link)
  {
    assert !Settled(f.link);
    if WantsBulk(f.link.parser) { TurnAdvances(f.link, n); }
  }

  /** After enough turns in which something arrives, the frame is over. */
  lemma {:induction false} FrameEnds(f: Frame, b: Bundle, tail: seq<Octet>, sizes: seq<nat>)
    requires Open(f, b, tail) || Closed(f, b)
    requires (forall n <- sizes :: n > 0) && |sizes| > Measure(f.link)
    ensures Over(FrameTurns(f, sizes))
    decreases |sizes|
  {
    assert sizes[0] in sizes && forall n <- sizes[1..] :: n in sizes;
    if Open(f, b, tail) {
      FrameRun(f, b, tail, sizes[..1]);
      assert sizes[..1][1..] == [] && FrameTurns(f, sizes[..1]) == FrameTurn(f, sizes[0]);
      FrameAdvances(f, b, tail, sizes[0]);
      FrameEnds(FrameTurn(f, sizes[0]), b, tail, sizes[1..]);
    } else {
      OverStays(f, sizes);
    }
  }

  lemma {:induction false} OverStays(f: Frame, sizes: seq<nat>)
    requires Over(f)
    ensures FrameTurns(f, sizes) == f
    decreases |sizes|
  {
    if sizes != [] { OverStays(f, sizes[1..]); }
  }

  /**
   * A bundle sent in a frame of its length, however it is cut into chunks: it is received unless its last
   * block is empty and no byte was read in bulk. Then the frame ends, and with it the parser is reset,
   * before the parser is called for the empty data.
   */
  lemma {:induction false} FrameOutcome(b: Outgoing, used: nat, quota: nat, tail: seq<Octet>, sizes: seq<nat>)
    requires Ready(b, used, quota) && (forall n <- sizes :: n > 0) && |sizes| > 2 * |Serialized(b) + tail|
    ensures var f := FrameTurns(Frame(Arriving(b, used, quota, tail), |Serialized(b)|, false), sizes);
            Over(f) && (SentAs(f.link.parser, Expected(b)) <==> !EndsEmpty(Expected(b)) || f.link.bulk > 0)
  {
    var f := Frame(Arriving(b, used, quota, tail), |Serialized(b)|, false);
    ArrivingLeads(b, used, quota, tail);
    FrameRun(f, Expected(b), tail, sizes);
    FrameEnds(f, Expected(b), tail, sizes);
  }

  /** The bytes of a bundle that can be read back. */
  function Serialized(b: Outgoing): seq<Octet>
    requires |b.eids| == 4 && BlocksOk(b.blocks)
  {
    BlocksKinds(b.blocks);
    Serialize(b)
  }

  /** A link on which nothing of the bundle has arrived. */
  function Arriving(b: Outgoing, used: nat, quota: nat, tail: seq<Octet>): Link
    requires |b.eids| == 4 && BlocksOk(b.blocks)
  {
    Link(Begin(used, quota), [], Serialized(b) + tail, 0)
  }

  lemma ArrivingLeads(b: Outgoing, used: nat, quota: nat, tail: seq<Octet>)
    requires Ready(b, used, quota)
    ensures Leads(Arriving(b, used, quota, tail), Expected(b), tail) && |Serialized(b)| > 0
  {
    RoundTrip(b, used, quota, tail);
    assert [] + (Serialized(b) + tail) == Serialized(b) + tail;
  }

  // ---- one bundle on an open stream ----

  /** Without a count the bundle is received, however the stream is cut, and the bytes behind it stay. */
  lemma {:induction false} Received(b: Outgoing, used: nat, quota: nat, tail: seq<Octet>, sizes: seq<nat>)
    requires Ready(b, used, quota) && (forall n <- sizes :: n > 0) && |sizes| >= 2 * |Serialized(b) + tail|
    ensures var l := Turns(Arriving(b, used, quota, tail), sizes);
            SentAs(l.parser, Expected(b)) && l.buffer + l.stream == tail
  {
    ArrivingLeads(b, used, quota, tail);
    ReceivedIf(Arriving(b, used, quota, tail), Expected(b), tail, sizes);
  }

  lemma {:induction false} ReceivedIf(l: Link, b: Bundle, tail: seq<Octet>, sizes: seq<nat>)
    requires Leads(l, b, tail) && (forall n <- sizes :: n > 0) && |sizes| >= Measure(l)
    ensures SentAs(Turns(l, sizes).parser, b) && Turns(l, sizes).buffer + Turns(l, sizes).stream == tail
  {
    TurnsRead(l, sizes);
    TurnsSettle(l, sizes);
  }
}
