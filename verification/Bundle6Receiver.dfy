/**
 * The task that feeds a BPv6 parser (components/cla/cla_contact_rx_task.c, lines 114-369): chunks of
 * the stream go through a buffer, announced block data is read in bulk past it. One bundle is
 * followed; after it the parsers are reset.
 */
module Bundle6Receiver {
  import opened Basics
  import opened Bundle6Parser

  /** The parser has asked for a bulk read. */
  predicate WantsBulk(p: Parser) { p.status == Good && p.stage == Data }

  function Joined(pieces: seq<seq<Octet>>): seq<Octet> {
    if pieces == [] then [] else pieces[0] + Joined(pieces[1..])
  }

  /** No read delivers more than was asked for. */
  ghost predicate Fits(pieces: seq<seq<Octet>>, missing: nat) {
    pieces == [] || (|pieces[0]| <= missing && Fits(pieces[1..], missing - |pieces[0]|))
  }

  class Receiver {
    const start: Parser
    var parser: Parser
    var buffer: seq<Octet>

    constructor (used: nat, quota: nat)
      ensures start == Begin(used, quota) && parser == start && buffer == []
    {
      start, parser, buffer := Begin(used, quota), Begin(used, quota), [];
    }

    /** chunk_read, for the bytes that one read has delivered; the loop ends with the bundle. */
    method ChunkRead(data: seq<Octet>)
      requires parser.status == Good
      modifies this
      ensures Read(old(parser), old(buffer) + data) == Result(parser, buffer)
    {
      buffer := buffer + data;
      var stream := 0;
      assert buffer[0..] == buffer;
      while stream < |buffer| && parser.status == Good
        invariant stream <= |buffer| && buffer == old(buffer) + data
        invariant Read(old(parser), buffer) == Read(parser, buffer[stream..])
        decreases |buffer| - stream
      {
        ReadTwice(parser, buffer[stream..]);
        var p, parsed := ReadBuffer(parser, Some(buffer[stream..]), []);
        assert buffer[stream..][parsed..] == buffer[stream + parsed..];
        parser, stream := p, stream + parsed;
        if WantsBulk(parser) || parsed == 0 { break; }
      }
      buffer := buffer[stream..];
    }

    /**
     * bulk_read, for the bytes that the reads deliver: the data of the block is filled from the buffer and
     * then from the stream, and the parser goes on without a buffer. If a read fails, the parser is reset.
     */
    method BulkRead(pieces: seq<seq<Octet>>) returns (ok: bool)
      requires WantsBulk(parser) && Fits(pieces, if parser.length > |buffer| then parser.length - |buffer| else 0)
      modifies this
      ensures ok <==> old(parser).length <= |old(buffer) + Joined(pieces)|
      ensures ok ==>
                var n, all := old(parser).length, old(buffer) + Joined(pieces);
                parser == Resume(old(parser), all[..n]) && buffer == all[n..]
      ensures !ok ==> parser == start && buffer == []
    {
      var n := parser.length;
      var data: seq<Octet>;
      if n <= |buffer| {
        if pieces != [] { NothingMore(pieces); }
        data, buffer := buffer[..n], buffer[n..];
        assert Joined(pieces) == [] && old(buffer) + [] == old(buffer);
      } else {
        data := FillData(buffer, n, pieces);
        buffer := [];
        if |data| < n {
          parser := start;
          return false;
        }
        assert data[..n] == data && data[n..] == [];
      }
      var parsed;
      parser, parsed := ReadBuffer(parser, None, data);
      ok := true;
    }
  }

  lemma {:induction false} NothingMore(pieces: seq<seq<Octet>>)
    requires Fits(pieces, 0)
    ensures Joined(pieces) == []
  {
    if pieces != [] { NothingMore(pieces[1..]); }
  }

  /** The loop that reads the rest of the data past the buffer. */
  method FillData(kept: seq<Octet>, n: nat, pieces: seq<seq<Octet>>) returns (data: seq<Octet>)
    requires |kept| < n && Fits(pieces, n - |kept|)
    ensures data == kept + Joined(pieces) && |data| <= n
  {
    data := kept;
    var k := 0;
    assert pieces[0..] == pieces;
    while |data| < n && k < |pieces|
      invariant k <= |pieces| && |data| <= n && Fits(pieces[k..], n - |data|)
      invariant kept + Joined(pieces) == data + Joined(pieces[k..])
      decreases |pieces| - k
    {
      assert pieces[k..][0] == pieces[k] && pieces[k..][1..] == pieces[k + 1..];
      Associate(data, pieces[k], Joined(pieces[k + 1..]));
      data, k := data + pieces[k], k + 1;
    }
    if |data| == n { NothingMore(pieces[k..]); }
  }

  lemma Associate(a: seq<Octet>, b: seq<Octet>, c: seq<Octet>)
    ensures a + (b + c) == a + b + c
  {
  }

  /** Reading on from where a buffer was left does nothing. */
  lemma {:induction false} ReadTwice(p: Parser, a: seq<Octet>)
    ensures Read(Read(p, a).parser, Read(p, a).rest) == Read(p, a)
  {
    assert a + [] == a;
    ReadSplit(p, a, []);
    assert Read(p, a).rest + [] == Read(p, a).rest;
  }

  // ---- turns of the task ----

  /** The parser, what is in the buffer, what is still to come, and how many bytes were read in bulk. */
  datatype Link = Link(parser: Parser, buffer: seq<Octet>, stream: seq<Octet>, bulk: nat)

  function Min(a: nat, b: nat): nat { if a < b then a else b }

  /** One turn, in which a chunk read gets up to `n` bytes; a bulk read waits until all its bytes are there. */
  function Turn(l: Link, n: nat): Link {
    if l.parser.status != Good then l
    else if WantsBulk(l.parser) then
      var all, k := l.buffer + l.stream, l.parser.length;
      if |all| < k then l
      else if k <= |l.buffer| then Link(Resume(l.parser, l.buffer[..k]), l.buffer[k..], l.stream, l.bulk + k)
      else Link(Resume(l.parser, all[..k]), [], all[k..], l.bulk + k)
    else
      var k := Min(n, |l.stream|);
      var r := Read(l.parser, l.buffer + l.stream[..k]);
      Link(r.parser, r.rest, l.stream[k..], l.bulk)
  }

  function Turns(l: Link, sizes: seq<nat>): Link
    decreases |sizes|
  {
    if sizes == [] then l else Turns(Turn(l, sizes[0]), sizes[1..])
  }

  /** Only bytes of a block that is to be read in bulk stay in the buffer. */
  ghost predicate Tidy(l: Link) {
    l.buffer == [] || l.parser.status != Good || (l.parser.stage == Data && |l.buffer| < l.parser.length)
  }

  /** Nothing more can happen. */
  predicate Settled(l: Link) {
    || l.parser.status != Good
    || (if l.parser.stage == Data then |l.buffer + l.stream| < l.parser.length else l.stream == [])
  }

  function StreamOf(l: Link): Result { ReadStream(l.parser, l.buffer + l.stream) }

  /** Whatever a turn does, the stream means the same. */
  lemma TurnKeeps(l: Link, n: nat)
    requires Tidy(l)
    ensures Tidy(Turn(l, n)) && StreamOf(Turn(l, n)) == StreamOf(l)
  {
    if l.parser.status == Good && !WantsBulk(l.parser) {
      var k := Min(n, |l.stream|);
      var input := l.buffer + l.stream[..k];
      assert l.stream[..k] + l.stream[k..] == l.stream;
      Associate(l.buffer, l.stream[..k], l.stream[k..]);
      BufferOfStream(l.parser, input, l.stream[k..]);
      BufferEnds(l.parser, input);
    } else if WantsBulk(l.parser) {
      BulkKeeps(l, n);
    }
  }

  lemma BulkKeeps(l: Link, n: nat)
    requires Tidy(l) && WantsBulk(l.parser)
    ensures Tidy(Turn(l, n)) && StreamOf(Turn(l, n)) == StreamOf(l)
  {
    var all, k := l.buffer + l.stream, l.parser.length;
    if k <= |l.buffer| {
      assert l.buffer == [] && k == 0;
      assert all[..0] == l.buffer[..0] && l.buffer[0..] + l.stream == all[0..];
    } else if k <= |all| {
      assert [] + all[k..] == all[k..];
    }
  }

  /**
   * However the stream is cut into chunks and whatever is read in bulk: when nothing more can happen, the
   * parser is where reading the whole stream takes it, and has left the same bytes.
   */
  lemma {:induction false} TurnsRead(l: Link, sizes: seq<nat>)
    requires Tidy(l)
    ensures var l' := Turns(l, sizes);
      && Tidy(l') && StreamOf(l') == StreamOf(l)
      && (Settled(l') ==> Result(l'.parser, l'.buffer + l'.stream) == StreamOf(l))
    decreases |sizes|
  {
    if sizes != [] {
      TurnKeeps(l, sizes[0]);
      TurnsRead(Turn(l, sizes[0]), sizes[1..]);
    }
  }

  /** How many turns can still do something. */
  function Measure(l: Link): nat { 2 * |l.stream| + if WantsBulk(l.parser) then 1 else 0 }

  lemma TurnAdvances(l: Link, n: nat)
    requires n > 0
    ensures !Settled(l) ==> Measure(Turn(l, n)) < Measure(l)
  {
  }

  /** And nothing more can happen after enough turns in which something arrives. */
  lemma {:induction false} TurnsSettle(l: Link, sizes: seq<nat>)
    requires Tidy(l) && (forall n <- sizes :: n > 0) && |sizes| >= Measure(l)
    ensures Settled(Turns(l, sizes))
    decreases |sizes|
  {
    if sizes == [] {
      assert l.stream == [] && !WantsBulk(l.parser);
    } else {
      assert sizes[0] in sizes && forall n <- sizes[1..] :: n in sizes;
      TurnKeeps(l, sizes[0]);
      TurnAdvances(l, sizes[0]);
      if Settled(l) {
        SettledStays(l, sizes);
      } else {
        TurnsSettle(Turn(l, sizes[0]), sizes[1..]);
      }
    }
  }

  lemma {:induction false} SettledStays(l: Link, sizes: seq<nat>)
    requires Tidy(l) && Settled(l)
    ensures Turns(l, sizes) == l
    decreases |sizes|
  {
    if sizes != [] {
      SettledTurn(l, sizes[0]);
      SettledStays(l, sizes[1..]);
    }
  }

  lemma SettledTurn(l: Link, n: nat)
    requires Tidy(l) && Settled(l)
    ensures Turn(l, n) == l
  {
    if l.parser.status == Good && l.parser.stage != Data {
      assert l.buffer == [] && l.stream == [];
    }
  }
}
