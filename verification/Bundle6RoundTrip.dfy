/** Reading what was written: the parser gives back the fields of a serialized BPv6 bundle. */
module Bundle6RoundTrip {
  import opened Basics
  import Sdnv
  import opened Bundle6Dictionary
  import opened Bundle6Parser
  import opened Bundle6Serializer

  // ---- single steps ----

  lemma {:induction false} ReadOne(p: Parser, x: Octet, rest: seq<Octet>)
    requires p.status == Good && p.stage != Data
    ensures Read(p, [x] + rest) == Read(ReadByte(p, x), rest)
  {
    assert ([x] + rest)[1..] == rest;
  }

  /** The count of primary bytes after `n` more of them; it wraps only before the length is known. */
  function Less(left: nat, n: nat): nat
    requires n <= left + UINT16
  {
    if left >= n then left - n else left - n + UINT16
  }

  function Counted(p: Parser, n: nat): Parser
    requires n < UINT16
  {
    if p.primary then p.(primaryLeft := Less(p.primaryLeft, n)) else p
  }

  predicate Early(stage: Stage) { stage.Version? || (stage.Number? && stage.k <= LENGTH) }

  /** There is room for `n` bytes in the primary block. */
  predicate Room(p: Parser, n: nat) { p.primaryLeft < UINT16 && (p.primary && !Early(p.stage) ==> p.primaryLeft >= n) }

  /** A number is about to be read. */
  predicate AtNumber(p: Parser) { p.status == Good && ReadsSdnv(p.stage) && p.sdnv == Sdnv.Reset }

  lemma {:induction false} EncodeShort(w: Sdnv.Width, v: nat)
    requires v < Sdnv.Range(w)
    ensures 0 < Sdnv.Size(v) <= 10
  {
    Sdnv.RoundTrip(w, v);
    Sdnv.NumberOfEncode(v);
    Sdnv.ReaderExact(w, Sdnv.Encode(v));
  }

  /** The parser after the first `j` bytes of a number. */
  function Mid(p: Parser, v: nat, j: nat): Parser
    requires j <= Sdnv.Size(v) && j < UINT16
  {
    Counted(p.(sdnv := Sdnv.Feed(WidthAt(p.stage), Sdnv.Reset, Sdnv.Encode(v)[..j])), j)
  }

  lemma {:induction false} FeedOneMore(w: Sdnv.Width, v: nat, j: nat)
    requires j < Sdnv.Size(v)
    ensures Sdnv.Feed(w, Sdnv.Reset, Sdnv.Encode(v)[..j + 1]) ==
            Sdnv.Step(w, Sdnv.Feed(w, Sdnv.Reset, Sdnv.Encode(v)[..j]), Sdnv.Encode(v)[j])
  {
    var e := Sdnv.Encode(v);
    assert e[..j + 1][..j] == e[..j];
  }

  /** The number reader after one more byte. */
  lemma {:induction false} SdnvByte(w: Sdnv.Width, v: nat, j: nat)
    requires v < Sdnv.Range(w) && j < Sdnv.Size(v)
    ensures var s := Sdnv.Step(w, Sdnv.Feed(w, Sdnv.Reset, Sdnv.Encode(v)[..j]), Sdnv.Encode(v)[j]);
      && s == Sdnv.Feed(w, Sdnv.Reset, Sdnv.Encode(v)[..j + 1])
      && s.status == (if j + 1 < Sdnv.Size(v) then Sdnv.InProgress else Sdnv.Done)
      && (s.status == Sdnv.Done ==> s.value == v)
  {
    FeedOneMore(w, v, j);
    if j + 1 < Sdnv.Size(v) {
      Sdnv.NotDoneEarly(w, v, j + 1);
    } else {
      Sdnv.RoundTrip(w, v);
      assert Sdnv.Encode(v)[..j + 1] == Sdnv.Encode(v);
    }
  }

  /** The count of primary bytes after one more byte of the number. */
  lemma {:induction false} MidByte(p: Parser, v: nat, j: nat)
    requires p.status == Good && j < Sdnv.Size(v) <= 10 && Room(p, Sdnv.Size(v))
    ensures Mid(p, v, j).status == Good && Mid(p, v, j).stage == p.stage && !Exhausted(Mid(p, v, j))
    ensures Count(Mid(p, v, j)).(sdnv := Mid(p, v, j + 1).sdnv) == Mid(p, v, j + 1)
    ensures Mid(p, v, j).sdnv == Sdnv.Feed(WidthAt(p.stage), Sdnv.Reset, Sdnv.Encode(v)[..j])
  {
  }

  lemma {:induction false} ByteOfNumber(p: Parser, v: nat, j: nat)
    requires AtNumber(p) && v < Sdnv.Range(WidthAt(p.stage)) && j < Sdnv.Size(v) <= 10 && Room(p, Sdnv.Size(v))
    ensures Mid(p, v, j).status == Good && Mid(p, v, j).stage == p.stage && !Exhausted(Mid(p, v, j))
    ensures ReadByte(Mid(p, v, j), Sdnv.Encode(v)[j]) ==
            if j + 1 < Sdnv.Size(v) then Mid(p, v, j + 1) else Finish(Mid(p, v, j + 1), v)
  {
    MidByte(p, v, j);
    SdnvByte(WidthAt(p.stage), v, j);
    ReadsByte(Mid(p, v, j), Sdnv.Encode(v)[j], Mid(p, v, j + 1), v);
  }

  lemma ReadsByte(m: Parser, byte: Octet, next: Parser, v: nat)
    requires !Exhausted(m) && ReadsSdnv(m.stage) && next.sdnv == Sdnv.Step(WidthAt(m.stage), m.sdnv, byte)
    requires Count(m).(sdnv := next.sdnv) == next && (next.sdnv.status == Sdnv.Done ==> next.sdnv.value == v)
    requires next.sdnv.status == Sdnv.InProgress || next.sdnv.status == Sdnv.Done
    ensures ReadByte(m, byte) == if next.sdnv.status == Sdnv.InProgress then next else Finish(next, v)
  {
  }

  lemma {:induction false} ReadsNumber(p: Parser, v: nat, j: nat, rest: seq<Octet>)
    requires AtNumber(p) && v < Sdnv.Range(WidthAt(p.stage)) && j < Sdnv.Size(v) <= 10 && Room(p, Sdnv.Size(v))
    ensures Read(Mid(p, v, j), Sdnv.Encode(v)[j..] + rest) == Read(Finish(Mid(p, v, Sdnv.Size(v)), v), rest)
    decreases Sdnv.Size(v) - j
  {
    var e := Sdnv.Encode(v);
    ByteOfNumber(p, v, j);
    HeadAndRest(e, j, rest);
    ReadOne(Mid(p, v, j), e[j], e[j + 1..] + rest);
    if j + 1 < Sdnv.Size(v) {
      ReadsNumber(p, v, j + 1, rest);
    }
  }

  lemma HeadAndRest(e: seq<Octet>, j: nat, rest: seq<Octet>)
    requires j < |e|
    ensures e[j..] + rest == [e[j]] + (e[j + 1..] + rest) && (j + 1 == |e| ==> e[j + 1..] + rest == rest)
  {
  }

  /** The parser when a number has been read, before what follows it. */
  function AfterSdnv(p: Parser, v: nat): Parser
    requires Sdnv.Size(v) < UINT16
  {
    Counted(p.(sdnv := Sdnv.State(Sdnv.Done, Sdnv.NoCause, Sdnv.Size(v), v)), Sdnv.Size(v))
  }

  lemma {:induction false} NumberRead(p: Parser, v: nat, rest: seq<Octet>)
    requires AtNumber(p) && v < Sdnv.Range(WidthAt(p.stage)) && Room(p, Sdnv.Size(v))
    ensures Sdnv.Size(v) <= 10
    ensures Read(p, Sdnv.Encode(v) + rest) == Read(Finish(AfterSdnv(p, v), v), rest)
  {
    var w, e := WidthAt(p.stage), Sdnv.Encode(v);
    EncodeShort(w, v);
    Sdnv.RoundTrip(w, v);
    assert e[..|e|] == e && e[..0] == [] && e[0..] == e;
    ReadsNumber(p, v, 0, rest);
    assert Mid(p, v, 0) == p;
  }

  /** After the bytes `input`, and if more follow, the parser is in the state `q`. */
  ghost predicate Steps(p: Parser, input: seq<Octet>, q: Parser) {
    forall rest: seq<Octet> :: rest != [] ==> Read(p, input + rest) == Read(q, rest)
  }

  lemma Then(p: Parser, a: seq<Octet>, q: Parser, b: seq<Octet>, r: Parser)
    requires Steps(p, a, q) && Steps(q, b, r)
    ensures Steps(p, a + b, r)
  {
    forall rest: seq<Octet> | rest != [] ensures Read(p, (a + b) + rest) == Read(r, rest) {
      Shift(a, b, rest);
      var more := b + rest;
      assert Read(p, a + more) == Read(q, more);
    }
  }

  lemma ByteSteps(p: Parser, x: Octet)
    requires p.status == Good && p.stage != Data
    ensures Steps(p, [x], ReadByte(p, x))
  {
    forall rest: seq<Octet> | rest != [] ensures Read(p, [x] + rest) == Read(ReadByte(p, x), rest) {
      ReadOne(p, x, rest);
    }
  }

  lemma {:induction false} NumberSteps(p: Parser, v: nat)
    requires AtNumber(p) && v < Sdnv.Range(WidthAt(p.stage)) && Room(p, Sdnv.Size(v))
    ensures Sdnv.Size(v) <= 10 && Steps(p, Sdnv.Encode(v), Finish(AfterSdnv(p, v), v))
  {
    EncodeShort(WidthAt(p.stage), v);
    forall rest: seq<Octet> | rest != [] ensures Read(p, Sdnv.Encode(v) + rest)
        == Read(Finish(AfterSdnv(p, v), v), rest) {
      NumberRead(p, v, rest);
    }
  }

  lemma NoSteps(p: Parser)
    ensures Steps(p, [], p)
  {
    forall rest: seq<Octet> | rest != [] ensures Read(p, [] + rest) == Read(p, rest) { assert [] + rest == rest; }
  }

  // ---- the primary block ----

  /** What does not change while the primary block is read. */
  ghost predicate Base(p: Parser, size: nat, quota: nat) {
    && p.status == Good && p.primary && p.size == size && p.quota == quota && p.sent == None
    && p.bundle.version == 6 && p.bundle.eids == [] && p.bundle.blocks == []
  }

  /** The parser is about to read the `k`-th number, `left` bytes are left of the primary block. */
  ghost predicate AtField(p: Parser, k: nat, left: nat, n: Numbers, size: nat, quota: nat) {
    Base(p, size, quota) && p.stage == Number(k) && p.sdnv == Sdnv.Reset && p.primaryLeft == left
        && p.bundle.numbers == n
  }

  lemma VersionRead(used: nat, quota: nat) returns (p: Parser)
    ensures Steps(Begin(used, quota), [6], p)
    ensures AtField(p, FLAGS, UINT16 - 1, [0, 0, 0, 0, 0, 0, 0, 0, 0, 0, 0, 0, 0, 0, 0, 0], used, quota)
  {
    ByteSteps(Begin(used, quota), 6);
    p := ReadByte(Begin(used, quota), 6);
  }

  lemma FlagFieldRead(p: Parser, left: nat, n: Numbers, v: nat, used: nat, quota: nat) returns (q: Parser)
    requires AtField(p, FLAGS, left, n, used, quota) && v < UINT32 && left < UINT16
    ensures Steps(p, Sdnv.Encode(v), q) && q.primaryLeft < UINT16
    ensures AtField(q, LENGTH, q.primaryLeft, n[FLAGS := v], used, quota)
  {
    NumberSteps(p, v);
    q := Finish(AfterSdnv(p, v), v);
  }

  lemma LengthFieldRead(p: Parser, left: nat, n: Numbers, v: nat, used: nat, quota: nat) returns (q: Parser)
    requires AtField(p, LENGTH, left, n, used, quota) && v < UINT16 && left < UINT16
    ensures Steps(p, Sdnv.Encode(v), q) && AtField(q, OFFSETS, v, n[LENGTH := v], used, quota)
  {
    NumberSteps(p, v);
    q := Finish(AfterSdnv(p, v), v);
  }

  lemma MiddleFieldRead(p: Parser, k: nat, left: nat, n: Numbers, v: nat, used: nat, quota: nat) returns (q: Parser)
    requires AtField(p, k, left, n, used, quota) && LENGTH < k < LIFETIME
    requires v < Sdnv.Range(WidthOf(k)) && Sdnv.Size(v) <= left < UINT16
    ensures Steps(p, Sdnv.Encode(v), q) && AtField(q, k + 1, left - Sdnv.Size(v), n[k := v], used, quota)
  {
    NumberSteps(p, v);
    q := Finish(AfterSdnv(p, v), v);
  }

  lemma LifetimeRead(p: Parser, left: nat, n: Numbers, v: nat, used: nat, quota: nat) returns (q: Parser)
    requires AtField(p, LIFETIME, left, n, used, quota) && v < UINT64 && Sdnv.Size(v) <= left < UINT16
    ensures Steps(p, Sdnv.Encode(v), q)
    ensures AtField(q, DICT_LENGTH, left - Sdnv.Size(v), n[LIFETIME := v * 1000000 % UINT64], used, quota)
  {
    NumberSteps(p, v);
    q := Finish(AfterSdnv(p, v), v);
    assert n[LIFETIME := v][LIFETIME := v * 1000000 % UINT64] == n[LIFETIME := v * 1000000 % UINT64];
  }

  ghost predicate InRange(k: nat, vs: seq<nat>)
    decreases |vs|
  {
    vs == [] || (vs[0] < Sdnv.Range(WidthOf(k)) && InRange(k + 1, vs[1..]))
  }

  function PutAll(n: Numbers, k: nat, vs: seq<nat>): Numbers
    requires k + |vs| <= 16
    decreases |vs|
  {
    if vs == [] then n else PutAll(n[k := vs[0]], k + 1, vs[1..])
  }

  lemma {:induction false} PutAllIs(n: Numbers, k: nat, vs: seq<nat>)
    requires k + |vs| <= 16
    ensures PutAll(n, k, vs) == n[..k] + vs + n[k + |vs|..]
    decreases |vs|
  {
    if vs == [] {
      assert n[..k] + vs + n[k..] == n;
    } else {
      PutAllIs(n[k := vs[0]], k + 1, vs[1..]);
      NumbersSplice(n, k, vs);
    }
  }

  lemma NumbersSplice(n: seq<nat>, k: nat, vs: seq<nat>)
    requires vs != [] && k + |vs| <= |n|
    ensures var m := n[k := vs[0]];
            m[..k + 1] + vs[1..] + m[k + 1 + |vs[1..]|..] == n[..k] + vs + n[k + |vs|..]
  {
  }

  /** Several numbers in a row, none of which has an effect of its own. */
  lemma {:induction false} FieldsRead(p: Parser, k: nat, left: nat, n: Numbers, vs: seq<nat>, used: nat, quota: nat)
      returns (q: Parser)
    requires AtField(p, k, left, n, used, quota) && LENGTH < k && k + |vs| <= LIFETIME
    requires InRange(k, vs) && |EncodeAll(vs)| <= left < UINT16
    ensures Steps(p, EncodeAll(vs), q)
    ensures AtField(q, k + |vs|, left - |EncodeAll(vs)|, PutAll(n, k, vs), used, quota)
    decreases |vs|
  {
    if vs == [] {
      q := p;
      NoSteps(p);
    } else {
      var v := vs[0];
      var q1 := MiddleFieldRead(p, k, left, n, v, used, quota);
      q := FieldsRead(q1, k + 1, left - Sdnv.Size(v), n[k := v], vs[1..], used, quota);
      Then(p, Sdnv.Encode(v), q1, EncodeAll(vs[1..]), q);
    }
  }

  // ---- the dictionary ----

  /** The parser reads the dictionary: `got` is there, `left` bytes are to come. */
  ghost predicate AtDict(p: Parser, got: Text, left: nat, room: nat, n: Numbers, size: nat, quota: nat) {
    Base(p, size, quota) && p.stage == Dict && p.dict == got && p.left == left && p.primaryLeft == room
        && p.bundle.numbers == n
  }

  lemma EnterDictIs(p: Parser)
    requires NumberAt(p, DICT_LENGTH) > 0 && p.size + NumberAt(p, DICT_LENGTH) + 1 <= p.quota < UINT32
    ensures var n := NumberAt(p, DICT_LENGTH);
            EnterDict(p) == p.(stage := Dict, left := n, size := p.size + n + 1, dict := [])
  {
    SmallModulo(p.size + NumberAt(p, DICT_LENGTH) + 1, UINT32);
  }

  lemma DictLengthRead(p: Parser, left: nat, n: Numbers, v: nat, used: nat, quota: nat) returns (q: Parser)
    requires AtField(p, DICT_LENGTH, left, n, used, quota) && 0 < v < UINT16 && Sdnv.Size(v) <= left < UINT16
    requires used + v + 1 <= quota < UINT32
    ensures Steps(p, Sdnv.Encode(v), q)
    ensures AtDict(q, [], v, left - Sdnv.Size(v), n[DICT_LENGTH := v], used + v + 1, quota)
  {
    NumberSteps(p, v);
    EnterDictIs(SetNumber(AfterSdnv(p, v), DICT_LENGTH, v));
    q := Finish(AfterSdnv(p, v), v);
  }

  lemma DictByteRead(p: Parser, got: Text, left: nat, room: nat, n: Numbers, size: nat, quota: nat, x: Octet)
      returns (q: Parser)
    requires AtDict(p, got, left, room, n, size, quota) && left > 0 && room > 0
    ensures AtDict(q, got + [x], left - 1, room - 1, n, size, quota)
    ensures Steps(p, [x], if left == 1 then EndDict(q) else q)
  {
    ByteSteps(p, x);
    q := p.(primaryLeft := room - 1, left := left - 1, dict := got + [x]);
    DictByteIs(p, x, q);
  }

  lemma DictByteIs(p: Parser, x: Octet, q: Parser)
    requires p.stage == Dict && p.primary && p.primaryLeft > 0 && p.left > 0
    requires q == p.(primaryLeft := p.primaryLeft - 1, left := p.left - 1, dict := p.dict + [x])
    ensures ReadByte(p, x) == if p.left == 1 then EndDict(q) else q
  {
  }

  lemma {:induction false} DictRead(p: Parser, got: Text, d: Text, room: nat, n: Numbers, size: nat, quota: nat)
      returns (q: Parser)
    requires AtDict(p, got, |d|, room, n, size, quota) && 0 < |d| <= room
    ensures AtDict(q, got + d, 0, room - |d|, n, size, quota) && Steps(p, d, EndDict(q))
    decreases |d|
  {
    var q1 := DictByteRead(p, got, |d|, room, n, size, quota, d[0]);
    GotMore(got, d);
    if |d| > 1 {
      q := DictRead(q1, got + [d[0]], d[1..], room - 1, n, size, quota);
      Then(p, [d[0]], q1, d[1..], EndDict(q));
    } else {
      q := q1;
    }
  }

  lemma GotMore(got: Text, d: Text)
    requires d != []
    ensures (got + [d[0]]) + d[1..] == got + d && [d[0]] + d[1..] == d && (|d| == 1 ==> d == [d[0]])
  {
  }

  function Normals(eids: seq<Option<Text>>): seq<Text>
    requires |eids| == 4
  {
    [Normal(eids[0]), Normal(eids[1]), Normal(eids[2]), Normal(eids[3])]
  }

  /** The numbers name the offsets in the dictionary. */
  ghost predicate OffsetsIn(n: Numbers, eids: seq<Option<Text>>)
    requires |eids| == 4
  {
    forall i :: 0 <= i < 4 ==>
        n[OFFSETS + 2 * i] == SchemeOffset(eids, i) && n[OFFSETS + 2 * i + 1] == SspOffset(eids, i)
  }

  lemma EidsRead(p: Parser, eids: seq<Option<Text>>)
    requires |eids| == 4 && EidsOk(eids) && p.dict == Dictionary(eids) && OffsetsIn(p.bundle.numbers, eids)
    ensures ReadEids(p) == Some(Normals(eids))
  {
    OneEidRead(p, eids, 0);
    OneEidRead(p, eids, 1);
    OneEidRead(p, eids, 2);
    OneEidRead(p, eids, 3);
  }

  lemma OneEidRead(p: Parser, eids: seq<Option<Text>>, i: nat)
    requires i < |eids| == 4 && EidsOk(eids) && p.dict == Dictionary(eids) && OffsetsIn(p.bundle.numbers, eids)
    ensures EidAt(p, i) == Some(Normal(eids[i]))
  {
    DictionaryRead(eids, i);
    assert p.bundle.numbers[OFFSETS + 2 * i] == SchemeOffset(eids, i);
  }

  // ---- the blocks ----

  /** The parser is in front of a block. */
  ghost predicate AtBlock(p: Parser, b: Bundle, size: nat, quota: nat) {
    && p.status == Good && p.stage == BlockType && !p.primary && p.size == size && p.quota == quota && p.sent == None
    && p.bundle == b && p.primaryLeft < UINT16
  }

  /** The parser is inside a block, of which `x` is read so far. */
  ghost predicate InBlock(p: Parser, stage: Stage, b: Bundle, x: Block, size: nat, quota: nat) {
    && p.status == Good && p.stage == stage && !p.primary && p.size == size && p.quota == quota && p.sent == None
    && p.bundle == b && p.current == x && p.primaryLeft < UINT16
  }

  /** A block that can be read back: no EID references, and whether it is marked as the last one. */
  ghost predicate BlockOk(x: Block, last: bool) {
    && x.kind < 0x100 && x.flags < 0x100 && x.flags / 64 % 2 == 0 && x.refs == [] && |x.data| < UINT32
    && (x.flags / 8 % 2 == 1 <==> last)
  }

  lemma KindRead(p: Parser, b: Bundle, size: nat, quota: nat, kind: Octet) returns (q: Parser)
    requires AtBlock(p, b, size, quota)
    ensures Steps(p, [kind], q)
    ensures InBlock(q, BlockFlags, b, Block(kind, 0, [], []), size, quota) && q.sdnv == Sdnv.Reset
  {
    ByteSteps(p, kind);
    q := ReadByte(p, kind);
  }

  lemma FlagsRead(p: Parser, b: Bundle, kind: Octet, size: nat, quota: nat, flags: nat) returns (q: Parser)
    requires InBlock(p, BlockFlags, b, Block(kind, 0, [], []), size, quota) && p.sdnv == Sdnv.Reset
    requires flags < 0x100 && flags / 64 % 2 == 0
    ensures Steps(p, Sdnv.Encode(flags), q)
    ensures InBlock(q, DataLength, b, Block(kind, flags, [], []), size, quota) && q.sdnv == Sdnv.Reset
    ensures q.last <==> flags / 8 % 2 == 1
  {
    NumberSteps(p, flags);
    q := Finish(AfterSdnv(p, flags), flags);
  }

  lemma EnterDataIs(p: Parser)
    requires p.size + p.length <= p.quota < UINT32
    ensures EnterData(p) == p.(stage := Data, left := 0, size := p.size + p.length)
  {
    SmallModulo(p.size + p.length, UINT32);
  }

  lemma LengthRead(p: Parser, b: Bundle, x: Block, size: nat, quota: nat, length: nat) returns (q: Parser)
    requires InBlock(p, DataLength, b, x, size, quota) && p.sdnv == Sdnv.Reset
    requires length < UINT32 && size + length <= quota < UINT32
    ensures ReadsTo(p, Sdnv.Encode(length), q)
    ensures InBlock(q, Data, b, x, size + length, quota) && q.length == length && q.last == p.last
  {
    NumberSteps(p, length);
    NumberRead(p, length, []);
    EncodeShort(Sdnv.U32, length);
    assert Sdnv.Encode(length) + [] == Sdnv.Encode(length);
    EnterDataIs(AfterSdnv(p, length).(length := length));
    q := Finish(AfterSdnv(p, length), length);
  }

  /** A block up to its data. */
  function BlockHead(x: Block): seq<Octet>
    requires x.kind < 0x100
  {
    [x.kind] + (Sdnv.Encode(x.flags) + Sdnv.Encode(|x.data|))
  }

  lemma BlockHeadRead(p: Parser, b: Bundle, size: nat, quota: nat, x: Block, last: bool) returns (q: Parser)
    requires AtBlock(p, b, size, quota) && BlockOk(x, last) && size + |x.data| <= quota < UINT32
    ensures ReadsTo(p, BlockHead(x), q)
    ensures InBlock(q, Data, b, x.(data := []), size + |x.data|, quota) && q.length == |x.data| && q.last == last
  {
    var p1 := KindRead(p, b, size, quota, x.kind);
    var p2 := FlagsRead(p1, b, x.kind, size, quota, x.flags);
    q := LengthRead(p2, b, Block(x.kind, x.flags, [], []), size, quota, |x.data|);
    ThenTo(p1, Sdnv.Encode(x.flags), p2, Sdnv.Encode(|x.data|), q);
    ThenTo(p, [x.kind], p1, Sdnv.Encode(x.flags) + Sdnv.Encode(|x.data|), q);
  }

  /** The data of a block, which is taken only when something is there to be read. */
  lemma {:induction false} DataRead(q: Parser, data: seq<Octet>, rest: seq<Octet>)
    requires q.status == Good && q.stage == Data && q.length == |data| && data + rest != []
    ensures Read(q, data + rest) == Read(EndBlock(q, data), rest)
  {
    assert (data + rest)[..|data|] == data && (data + rest)[|data|..] == rest;
  }

  lemma DataSteps(q: Parser, data: seq<Octet>)
    requires q.status == Good && q.stage == Data && q.length == |data|
    ensures Steps(q, data, EndBlock(q, data))
  {
    forall rest: seq<Octet> | rest != [] ensures Read(q, data + rest) == Read(EndBlock(q, data), rest) {
      DataRead(q, data, rest);
    }
  }

  /** A block in front of others. */
  lemma BlockRead(p: Parser, b: Bundle, size: nat, quota: nat, x: Block) returns (r: Parser)
    requires AtBlock(p, b, size, quota) && BlockOk(x, false) && size + |x.data| <= quota < UINT32
    ensures Steps(p, BlockBytes(x), r) && AtBlock(r, b.(blocks := b.blocks + [x]), size + |x.data|, quota)
  {
    var q := BlockHeadRead(p, b, size, quota, x, false);
    DataSteps(q, x.data);
    r := EndBlock(q, x.data);
    Then(p, BlockHead(x), q, x.data, r);
    HeadAndData(x);
  }

  lemma HeadAndData(x: Block)
    requires x.kind < 0x100
    ensures BlockHead(x) + x.data == BlockBytes(x)
  {
    Regroup3([x.kind], Sdnv.Encode(x.flags), Sdnv.Encode(|x.data|), x.data);
  }

  lemma Regroup3(a: seq<Octet>, b: seq<Octet>, c: seq<Octet>, d: seq<Octet>)
    ensures (a + (b + c)) + d == a + (b + (c + d))
  {
  }

  /** Just the last block is marked. */
  ghost predicate BlocksOk(blocks: seq<Block>) {
    blocks != [] &&
    if |blocks| == 1 then BlockOk(blocks[0], true)
    else BlockOk(blocks[0], false) && BlocksOk(blocks[1..])
  }

  function DataSize(blocks: seq<Block>): nat { if blocks == [] then 0 else |blocks[0].data| + DataSize(blocks[1..]) }

  /** Everything but the data of the last block. */
  ghost function UpToLast(blocks: seq<Block>): seq<Octet>
    requires KindsOk(blocks) && blocks != []
  {
    if |blocks| == 1 then BlockHead(blocks[0]) else BlockBytes(blocks[0]) + UpToLast(blocks[1..])
  }

  lemma {:induction false} BlocksKinds(blocks: seq<Block>)
    requires BlocksOk(blocks)
    ensures KindsOk(blocks) && BlocksBytes(blocks) == UpToLast(blocks) + blocks[|blocks| - 1].data
    ensures BlockOk(blocks[|blocks| - 1], true)
  {
    if |blocks| == 1 {
      HeadAndData(blocks[0]);
      assert BlocksBytes(blocks) == BlockBytes(blocks[0]) + [];
    } else {
      BlocksKinds(blocks[1..]);
      Shift(BlockBytes(blocks[0]), UpToLast(blocks[1..]), blocks[|blocks| - 1].data);
    }
  }

  /** The input, to its end and followed by more, takes the parser there. */
  ghost predicate ReadsTo(p: Parser, input: seq<Octet>, q: Parser) {
    Steps(p, input, q) && Read(p, input) == Result(q, []) && input != []
  }

  lemma ThenTo(p: Parser, a: seq<Octet>, q: Parser, b: seq<Octet>, r: Parser)
    requires Steps(p, a, q) && ReadsTo(q, b, r)
    ensures ReadsTo(p, a + b, r)
  {
    Then(p, a, q, b, r);
    Ends(p, a, q, b, r, []);
  }

  lemma {:induction false} BlocksRead(p: Parser, b: Bundle, size: nat, quota: nat, blocks: seq<Block>)
      returns (q: Parser)
    requires AtBlock(p, b, size, quota) && BlocksOk(blocks) && size + DataSize(blocks) <= quota < UINT32
    ensures KindsOk(blocks) && ReadsTo(p, UpToLast(blocks), q)
    ensures AtLastData(q, b, blocks)
    decreases |blocks|
  {
    BlocksKinds(blocks);
    var x, more := blocks[0], blocks[1..];
    if |blocks| == 1 {
      q := BlockHeadRead(p, b, size, quota, x, true);
      assert b.blocks + blocks[..0] == b.blocks;
    } else {
      var p1 := BlockRead(p, b, size, quota, x);
      q := BlocksRead(p1, b.(blocks := b.blocks + [x]), size + |x.data|, quota, more);
      ThenTo(p, BlockBytes(x), p1, UpToLast(more), q);
      LastOfMore(q, b, blocks);
    }
  }

  lemma LastOfMore(q: Parser, b: Bundle, blocks: seq<Block>)
    requires |blocks| > 1 && AtLastData(q, b.(blocks := b.blocks + [blocks[0]]), blocks[1..])
    ensures AtLastData(q, b, blocks)
  {
    var more := blocks[1..];
    assert (b.blocks + [blocks[0]]) + more[..|more| - 1] == b.blocks + blocks[..|blocks| - 1];
  }

  /** What the parser hands over: nothing if there is no payload block. */
  ghost predicate SentAs(p: Parser, b: Bundle) {
    && p.status == Done && p.bundle == b
    && p.sent == if exists i :: 0 <= i < |b.blocks| && b.blocks[i].kind == PAYLOAD then Some(b) else None
  }

  lemma LastDataRead(q: Parser, b: Bundle, blocks: seq<Block>)
    requires blocks != [] && AtLastData(q, b, blocks)
    ensures SentAs(EndBlock(q, blocks[|blocks| - 1].data), b.(blocks := b.blocks + blocks))
  {
    assert (b.blocks + blocks[..|blocks| - 1]) + [blocks[|blocks| - 1]] == b.blocks + blocks;
  }

  // ---- the whole bundle ----

  /** The numbers of a fragment, behind the dictionary. */
  lemma FragmentFieldsRead(p: Parser, room: nat, n: Numbers, size: nat, quota: nat, b: Outgoing, eids: seq<Text>)
      returns (q: Parser)
    requires p.status == Good && p.primary && p.size == size && p.quota == quota && p.sent == None
    requires p.stage == Number(OFFSET) && p.sdnv == Sdnv.Reset && p.primaryLeft == room
             && p.bundle == Bundle(6, n, eids, [])
    requires b.offset < UINT32 && b.total < UINT32 && Sdnv.Size(b.offset) + Sdnv.Size(b.total) <= room < UINT16
    ensures Steps(p, Sdnv.Encode(b.offset) + Sdnv.Encode(b.total), q)
    ensures AtBlock(q, Bundle(6, n[OFFSET := b.offset][TOTAL := b.total], eids, []), size, quota)
  {
    NumberSteps(p, b.offset);
    var p1 := Finish(AfterSdnv(p, b.offset), b.offset);
    NumberSteps(p1, b.total);
    q := Finish(AfterSdnv(p1, b.total), b.total);
    Then(p, Sdnv.Encode(b.offset), p1, Sdnv.Encode(b.total), q);
  }

  lemma FragmentRead(q: Parser, room: nat, n: Numbers, size: nat, quota: nat, b: Outgoing) returns (p: Parser)
    requires |b.eids| == 4 && EidsOk(b.eids) && AtDict(q, Dictionary(b.eids), 0, room, n, size, quota)
             && OffsetsIn(n, b.eids)
    requires n[FLAGS] % 2 == b.flags % 2 && b.offset < UINT32 && b.total < UINT32 && |FragmentPart(b)| <= room < UINT16
    ensures Steps(EndDict(q), FragmentPart(b), p)
    ensures AtBlock(p, Bundle(6, if b.IsFragment() then n[OFFSET := b.offset][TOTAL := b.total] else n, Normals(b.eids),
            []), size, quota)
  {
    EidsRead(q, b.eids);
    p := EndDict(q);
    if b.IsFragment() {
      p := FragmentFieldsRead(p, room, n, size, quota, b, Normals(b.eids));
    } else {
      NoSteps(p);
    }
  }

  /** A bundle that can be read back. */
  ghost predicate Ready(b: Outgoing, used: nat, quota: nat) {
    && |b.eids| == 4 && EidsOk(b.eids) && |Dictionary(b.eids)| < UINT16
    && b.timestamp < UINT64 && b.sequence < UINT64 && b.lifetime < UINT64
    && b.offset < UINT32 && b.total < UINT32
    && |AfterLength(b)| <= b.primaryLength < UINT16
    && BlocksOk(b.blocks)
    && used + |Dictionary(b.eids)| + 1 + DataSize(b.blocks) <= quota < UINT32
  }

  /** The numbers up to the dictionary, as the parser keeps them; the lifetime is sent in whole seconds. */
  function NumbersOf(b: Outgoing): Numbers
    requires |b.eids| == 4
  {
    [Masked(b.flags), b.primaryLength] + Middle(b) + [b.lifetime / 1000000 * 1000000, |Dictionary(b.eids)|, 0, 0]
  }

  /** The bundle the parser gives back. */
  function Expected(b: Outgoing): Bundle
    requires |b.eids| == 4
  {
    var n := NumbersOf(b);
    Bundle(6, if b.IsFragment() then n[OFFSET := b.offset][TOTAL := b.total] else n, Normals(b.eids), b.blocks)
  }

  lemma HeadRead(b: Outgoing, used: nat, quota: nat) returns (p: Parser)
    requires b.primaryLength < UINT16
    ensures Steps(Begin(used, quota), [6] + (Sdnv.Encode(Masked(b.flags)) + Sdnv.Encode(b.primaryLength)), p)
    ensures AtField(p, OFFSETS, b.primaryLength, [Masked(b.flags), b.primaryLength] + NO_NUMBERS, used, quota)
  {
    MaskedFits(b.flags);
    var x, y := Sdnv.Encode(Masked(b.flags)), Sdnv.Encode(b.primaryLength);
    var p0 := VersionRead(used, quota);
    var p1 := FlagFieldRead(p0, UINT16 - 1, p0.bundle.numbers, Masked(b.flags), used, quota);
    p := LengthFieldRead(p1, p1.primaryLeft, p1.bundle.numbers, b.primaryLength, used, quota);
    Then(p0, x, p1, y, p);
    Then(Begin(used, quota), [6], p0, x + y, p);
  }

  /** The offsets are smaller than the dictionary. */
  lemma OffsetsSmall(eids: seq<Option<Text>>, i: nat)
    requires i < |eids|
    ensures SchemeOffset(eids, i) < SspOffset(eids, i) < |Dictionary(eids)|
  {
    PartAt(Entries(eids), i);
    EntryIs(eids, i);
  }

  lemma MiddleInRange(b: Outgoing)
    requires |b.eids| == 4 && |Dictionary(b.eids)| < UINT16 && b.timestamp < UINT64 && b.sequence < UINT64
    ensures InRange(OFFSETS, Middle(b))
  {
    forall i | 0 <= i < 4 ensures SchemeOffset(b.eids, i) < SspOffset(b.eids, i) < UINT16 { OffsetsSmall(b.eids, i); }
    var vs := Middle(b);
    forall i | 0 <= i < 10 ensures vs[i] < Sdnv.Range(WidthOf(OFFSETS + i)) {}
    AllInRange(OFFSETS, vs);
  }

  lemma {:induction false} AllInRange(k: nat, vs: seq<nat>)
    requires forall i :: 0 <= i < |vs| ==> vs[i] < Sdnv.Range(WidthOf(k + i))
    ensures InRange(k, vs)
    decreases |vs|
  {
    if vs != [] {
      assert vs[0] < Sdnv.Range(WidthOf(k + 0));
      forall i | 0 <= i < |vs[1..]| ensures vs[1..][i] < Sdnv.Range(WidthOf(k + 1 + i)) {
        assert vs[1..][i] == vs[i + 1] && k + (i + 1) == k + 1 + i;
      }
      AllInRange(k + 1, vs[1..]);
    }
  }

  const NO_NUMBERS: seq<nat> := [0, 0, 0, 0, 0, 0, 0, 0, 0, 0, 0, 0, 0, 0]

  /** The numbers up to the dictionary. */
  lemma NumbersRead(p: Parser, b: Outgoing, used: nat, quota: nat) returns (q: Parser)
    requires Ready(b, used, quota)
    requires AtField(p, OFFSETS, b.primaryLength, [Masked(b.flags), b.primaryLength] + NO_NUMBERS, used, quota)
    ensures var dict := Dictionary(b.eids); var m, l, d := EncodeAll(Middle(b)), Sdnv.Encode(b.lifetime / 1000000),
            Sdnv.Encode(|dict|);
      && Steps(p, m + (l + d), q)
      && AtDict(q, [], |dict|, b.primaryLength - |m| - |l| - |d|, NumbersOf(b), used + |dict| + 1, quota)
  {
    var n0, dict, life := p.bundle.numbers, Dictionary(b.eids), b.lifetime / 1000000;
    MiddleInRange(b);
    OffsetsSmall(b.eids, 0);
    q := FieldsUpToDict(p, b.primaryLength, Middle(b), life, |dict|, used, quota);
    NumbersAre(b, n0, PutAll(n0, OFFSETS, Middle(b))[LIFETIME := life * 1000000 % UINT64][DICT_LENGTH := |dict|]);
  }

  lemma FieldsUpToDict(p: Parser, left: nat, vs: seq<nat>, life: nat, size: nat, used: nat, quota: nat)
      returns (q: Parser)
    requires AtField(p, OFFSETS, left, p.bundle.numbers, used, quota) && |vs| == 10 && InRange(OFFSETS, vs)
             && life < UINT64
    requires 0 < size < UINT16 && used + size + 1 <= quota < UINT32 && left < UINT16
    requires |EncodeAll(vs)| + |Sdnv.Encode(life)| + |Sdnv.Encode(size)| <= left
    ensures var m, l, d := EncodeAll(vs), Sdnv.Encode(life), Sdnv.Encode(size);
      && Steps(p, m + (l + d), q)
      && AtDict(q, [], size, left - |m| - |l| - |d|,
                PutAll(p.bundle.numbers, OFFSETS, vs)[LIFETIME := life * 1000000 % UINT64][DICT_LENGTH := size],
                    used + size + 1, quota)
  {
    var m, l, d := EncodeAll(vs), Sdnv.Encode(life), Sdnv.Encode(size);
    var n0 := p.bundle.numbers;
    var p1 := FieldsRead(p, OFFSETS, left, n0, vs, used, quota);
    var n1 := PutAll(n0, OFFSETS, vs);
    var p2 := LifetimeRead(p1, left - |m|, n1, life, used, quota);
    q := DictLengthRead(p2, left - |m| - |l|, n1[LIFETIME := life * 1000000 % UINT64], size, used, quota);
    Then(p1, l, p2, d, q);
    Then(p, m, p1, l + d, q);
  }

  /** The primary block behind its length field. */
  lemma PrimaryRead(p: Parser, b: Outgoing, used: nat, quota: nat) returns (q: Parser)
    requires Ready(b, used, quota)
    requires AtField(p, OFFSETS, b.primaryLength, [Masked(b.flags), b.primaryLength] + NO_NUMBERS, used, quota)
    ensures Steps(p, AfterLength(b), q)
    ensures AtBlock(q, Expected(b).(blocks := []), used + |Dictionary(b.eids)| + 1, quota)
  {
    var dict := Dictionary(b.eids);
    var m, l, d, f := EncodeAll(Middle(b)), Sdnv.Encode(b.lifetime / 1000000), Sdnv.Encode(|dict|), FragmentPart(b);
    var p3 := NumbersRead(p, b, used, quota);
    var n, size, room := NumbersOf(b), used + |dict| + 1, b.primaryLength - |m| - |l| - |d|;
    OffsetsSmall(b.eids, 0);
    var p4 := DictRead(p3, [], dict, room, n, size, quota);
    assert [] + dict == dict;
    MaskedFits(b.flags);
    OffsetsNamed(b);
    q := FragmentRead(p4, room - |dict|, n, size, quota, b);
    Then(p3, dict, EndDict(p4), f, q);
    Then(p, m + (l + d), p3, dict + f, q);
    Regroup5(m, l, d, dict, f);
  }

  lemma Regroup5(a: seq<Octet>, b: seq<Octet>, c: seq<Octet>, d: seq<Octet>, e: seq<Octet>)
    ensures (a + (b + c)) + (d + e) == a + (b + (c + (d + e)))
  {
  }

  lemma OffsetsNamed(b: Outgoing)
    requires |b.eids| == 4
    ensures OffsetsIn(NumbersOf(b), b.eids) && NumbersOf(b)[FLAGS] == Masked(b.flags)
  {
    OffsetsBehind([Masked(b.flags), b.primaryLength], b, [b.lifetime / 1000000 * 1000000, |Dictionary(b.eids)|, 0, 0],
        NumbersOf(b));
  }

  lemma OffsetsBehind(head: seq<nat>, b: Outgoing, more: seq<nat>, n: Numbers)
    requires |b.eids| == 4 && |head| == 2 && n == head + Middle(b) + more
    ensures OffsetsIn(n, b.eids) && n[FLAGS] == head[FLAGS]
  {
    forall i | 0 <= i < 4 ensures n[OFFSETS + 2 * i] == SchemeOffset(b.eids, i)
        && n[OFFSETS + 2 * i + 1] == SspOffset(b.eids, i) {
      assert n[OFFSETS + 2 * i] == Middle(b)[2 * i] && n[OFFSETS + 2 * i + 1] == Middle(b)[2 * i + 1];
    }
  }

  lemma {:induction false} NumbersAre(b: Outgoing, n0: Numbers, n3: Numbers)
    requires |b.eids| == 4 && b.lifetime < UINT64
    requires n0 == [Masked(b.flags), b.primaryLength] + NO_NUMBERS
    requires n3 == PutAll(n0, OFFSETS, Middle(b))
                   [LIFETIME := b.lifetime / 1000000 * 1000000 % UINT64][DICT_LENGTH := |Dictionary(b.eids)|]
    ensures n3 == NumbersOf(b)
  {
    PutAllIs(n0, OFFSETS, Middle(b));
    SmallModulo(b.lifetime / 1000000 * 1000000, UINT64);
    assert n0[..2] == [Masked(b.flags), b.primaryLength] && n0[12..] == [0, 0, 0, 0];
  }

  /** The parser waits for the data of the last block. */
  ghost predicate AtLastData(q: Parser, b: Bundle, blocks: seq<Block>)
    requires blocks != []
  {
    var n := |blocks| - 1;
    && q.status == Good && q.stage == Data && q.length == |blocks[n].data| && q.last && q.sent == None
    && q.bundle == b.(blocks := b.blocks + blocks[..n]) && q.current == blocks[n].(data := [])
  }

  /** The bundle up to the data of its last block. */
  ghost function BeforeLast(b: Outgoing): seq<Octet>
    requires |b.eids| == 4 && KindsOk(b.blocks) && b.blocks != []
  {
    [6] + (Sdnv.Encode(Masked(b.flags)) + Sdnv.Encode(b.primaryLength)) + AfterLength(b) + UpToLast(b.blocks)
  }

  lemma UpToLastRead(b: Outgoing, used: nat, quota: nat) returns (q: Parser)
    requires Ready(b, used, quota)
    ensures KindsOk(b.blocks) && AtLastData(q, Expected(b).(blocks := []), b.blocks)
    ensures ReadsTo(Begin(used, quota), BeforeLast(b), q)
  {
    var p := Begin(used, quota);
    var head := [6] + (Sdnv.Encode(Masked(b.flags)) + Sdnv.Encode(b.primaryLength));
    var p1 := HeadRead(b, used, quota);
    var p2 := PrimaryRead(p1, b, used, quota);
    q := BlocksRead(p2, Expected(b).(blocks := []), used + |Dictionary(b.eids)| + 1, quota, b.blocks);
    Then(p, head, p1, AfterLength(b), p2);
    ThenTo(p, head + AfterLength(b), p2, UpToLast(b.blocks), q);
  }

  /**
   * Reading a serialized bundle from a stream, whatever follows it, takes exactly its bytes and gives back
   * its masked flags, EIDs, timestamps, lifetime in seconds, fragment fields and blocks.
   */
  lemma {:induction false} RoundTrip(b: Outgoing, used: nat, quota: nat, tail: seq<Octet>)
    requires Ready(b, used, quota)
    ensures KindsOk(b.blocks)
    ensures var r := ReadStream(Begin(used, quota), Serialize(b) + tail);
            r.rest == tail && SentAs(r.parser, Expected(b))
  {
    var q := UpToLastRead(b, used, quota);
    SerializeSplit(b, tail);
    LastBlockRead(Begin(used, quota), BeforeLast(b), q, Expected(b), tail);
  }

  lemma LastBlockRead(p: Parser, input: seq<Octet>, q: Parser, b: Bundle, tail: seq<Octet>)
    requires b.blocks != [] && ReadsTo(p, input, q) && AtLastData(q, b.(blocks := []), b.blocks)
    ensures var r := ReadStream(p, input + (b.blocks[|b.blocks| - 1].data + tail));
            r.rest == tail && SentAs(r.parser, b)
  {
    var data := b.blocks[|b.blocks| - 1].data;
    BufferOfStream(p, input, data + tail);
    assert [] + (data + tail) == data + tail;
    assert (data + tail)[..|data|] == data && (data + tail)[|data|..] == tail;
    LastDataRead(q, b.(blocks := []), b.blocks);
    assert [] + b.blocks == b.blocks;
  }

  lemma {:induction false} Ends(p: Parser, input: seq<Octet>, q: Parser, more: seq<Octet>, r: Parser, tail: seq<Octet>)
    requires Steps(p, input, q) && more != [] && Read(q, more) == Result(r, tail)
    ensures Read(p, input + more) == Result(r, tail)
  {
  }

  lemma SerializeSplit(b: Outgoing, tail: seq<Octet>)
    requires |b.eids| == 4 && BlocksOk(b.blocks)
    ensures KindsOk(b.blocks)
    ensures Serialize(b) + tail == BeforeLast(b) + (b.blocks[|b.blocks| - 1].data + tail)
  {
    BlocksKinds(b.blocks);
    Regroup7([6], Sdnv.Encode(Masked(b.flags)), Sdnv.Encode(b.primaryLength), AfterLength(b),
             UpToLast(b.blocks), b.blocks[|b.blocks| - 1].data, tail);
  }

  lemma Regroup7(a: seq<Octet>, b: seq<Octet>, c: seq<Octet>, d: seq<Octet>, e: seq<Octet>, f: seq<Octet>,
      g: seq<Octet>)
    ensures (a + (b + (c + (d + (e + f))))) + g == ((a + (b + c)) + d + e) + (f + g)
  {
  }
}
