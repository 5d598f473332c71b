/**
 * Planning the fragments of a bundle and the route of each (components/upcn/router.c, lines 184-318).
 * Confidences are real numbers.
 */
module Planner {
  import opened Basics

  const UINT32 := 0x1_0000_0000
  type uint32 = x: int | 0 <= x < UINT32
  type uint16 = x: int | 0 <= x < 0x1_0000

  type int32 = x: int | -0x8000_0000 <= x < 0x8000_0000

  /** The conversions between the signed and the unsigned numbers, and the unsigned difference. */
  function Signed(u: uint32): int32 { if u < 0x8000_0000 then u else u - UINT32 }

  function Unsigned(i: int32): uint32 { if i >= 0 then i else i + UINT32 }

  function Sub32(a: uint32, b: uint32): uint32 { if a >= b then a - b else a - b + UINT32 }

  function Min(a: int, b: int): int { if a < b then a else b }

  const MAX_FRAGMENTS := 10
  const MAX_CONTACTS := 4

  // ---- the payload sizes ----

  /** The sizes that the plan depends on: the bound, the headers and the least payload of a fragment. */
  datatype Sizes = Sizes(bound: uint32, first: uint32, mid: uint32, last: uint32, least: uint16)
  {
    /** The header of the next fragment when `n` are planned. */
    function Header(n: nat): uint32 { if n == 0 then first else mid }

    /** The header of the `i`-th of `n` fragments. */
    function HeaderOf(i: nat, n: nat): uint32 { if i == 0 then first else if i == n - 1 then last else mid }
  }

  datatype Choice = Stop | Take(payload: uint32)

  /** What the loop does with the remaining payload: from 2 GB on the signed comparison makes it take all. */
  function Next(s: Sizes, n: nat, remaining: uint32): (c: Choice)
    ensures c.Take? ==> c.payload <= remaining && (remaining >= 0x8000_0000 ==> c.payload == remaining)
  {
    var least := Min(remaining, s.least);
    var most := Signed(Sub32(s.bound, s.Header(n)));
    if most < least then Stop
    else if remaining <= Sub32(s.bound, s.last) then Take(remaining)
    else Take(Unsigned(Min(Signed(remaining), most)))
  }

  /** The payload sizes from the `n`-th fragment on. */
  function Payloads(s: Sizes, n: nat, remaining: uint32): seq<uint32>
    decreases MAX_FRAGMENTS - n
  {
    if remaining == 0 || n >= MAX_FRAGMENTS || Next(s, n, remaining).Stop? then []
    else
      var payload := Next(s, n, remaining).payload;
      [payload] + Payloads(s, n + 1, remaining - payload)
  }

  /** What is left in the end. */
  function Left(s: Sizes, n: nat, remaining: uint32): uint32
    decreases MAX_FRAGMENTS - n
  {
    if remaining == 0 || n >= MAX_FRAGMENTS || Next(s, n, remaining).Stop? then remaining
    else Left(s, n + 1, remaining - Next(s, n, remaining).payload)
  }

  lemma PlanStep(s: Sizes, n: nat, remaining: uint32, payload: uint32)
    requires remaining != 0 && n < MAX_FRAGMENTS && Next(s, n, remaining) == Take(payload)
    ensures Payloads(s, n, remaining) == [payload] + Payloads(s, n + 1, remaining - payload)
    ensures Left(s, n, remaining) == Left(s, n + 1, remaining - payload)
  {
  }

  /** The first half of router_get_first_route_frag. */
  method PlanFragments(s: Sizes, payload: uint32) returns (r: Option<seq<uint32>>)
    ensures r == if s.first > s.bound || s.last > s.bound || Left(s, 0, payload) != 0 then None
                 else Some(Payloads(s, 0, payload))
    ensures r.Some? <==> s.first <= s.bound && s.last <= s.bound && Plannable(s, payload)
    ensures r.Some? ==> Sum(r.value) == payload && |r.value| <= MAX_FRAGMENTS && Filled(s, 0, r.value)
  {
    if s.first > s.bound || s.last > s.bound { return None; }
    PlanExactly(s, payload);
    PlanSum(s, 0, payload);
    PlanCount(s, 0, payload);
    PlanFilled(s, 0, payload);
    var plan, remaining := PlanLoop(s, payload);
    if remaining != 0 { return None; }
    return Some(plan);
  }

  method PlanLoop(s: Sizes, payload: uint32) returns (plan: seq<uint32>, remaining: uint32)
    ensures plan == Payloads(s, 0, payload) && remaining == Left(s, 0, payload)
  {
    remaining, plan := payload, [];
    var n := 0;
    while remaining != 0 && n < MAX_FRAGMENTS
      invariant 0 <= n <= MAX_FRAGMENTS && Planning(s, payload, n, plan, remaining)
      decreases MAX_FRAGMENTS - n
    {
      var choice := Next(s, n, remaining);
      if choice == Stop { break; }
      PlanningStep(s, payload, n, plan, remaining, choice.payload);
      plan, remaining := plan + [choice.payload], remaining - choice.payload;
      n := n + 1;
    }
  }

  /** The `n` sizes planned so far are a part of the plan. */
  ghost predicate Planning(s: Sizes, payload: uint32, n: nat, plan: seq<uint32>, remaining: uint32) {
    && |plan| == n
    && Payloads(s, 0, payload) == plan + Payloads(s, n, remaining)
    && Left(s, 0, payload) == Left(s, n, remaining)
  }

  lemma PlanningStep(s: Sizes, payload: uint32, n: nat, plan: seq<uint32>, remaining: uint32, taken: uint32)
    requires Planning(s, payload, n, plan, remaining) && remaining != 0 && n < MAX_FRAGMENTS
    requires Next(s, n, remaining) == Take(taken)
    ensures Planning(s, payload, n + 1, plan + [taken], remaining - taken)
  {
    PlanStep(s, n, remaining, taken);
    Shift(Payloads(s, 0, payload), plan, Payloads(s, n, remaining), taken, Payloads(s, n + 1, remaining - taken));
  }

  lemma Shift(goal: seq<uint32>, plan: seq<uint32>, rest: seq<uint32>, taken: uint32, later: seq<uint32>)
    requires goal == plan + rest && rest == [taken] + later
    ensures goal == (plan + [taken]) + later && |plan + [taken]| == |plan| + 1
  {
  }

  function Sum(plan: seq<uint32>): nat { if plan == [] then 0 else plan[0] + Sum(plan[1..]) }

  lemma {:induction false} SumCons(payload: uint32, rest: seq<uint32>)
    ensures Sum([payload] + rest) == payload + Sum(rest) && |[payload] + rest| == 1 + |rest|
  {
    assert ([payload] + rest)[1..] == rest;
  }

  /** The planned payloads and what is left make up the payload. */
  lemma {:induction false} PlanSum(s: Sizes, n: nat, remaining: uint32)
    ensures Sum(Payloads(s, n, remaining)) + Left(s, n, remaining) == remaining
    decreases MAX_FRAGMENTS - n
  {
    if remaining != 0 && n < MAX_FRAGMENTS && Next(s, n, remaining).Take? {
      var payload := Next(s, n, remaining).payload;
      PlanStep(s, n, remaining, payload);
      PlanSum(s, n + 1, remaining - payload);
      SumCons(payload, Payloads(s, n + 1, remaining - payload));
    }
  }

  /** There are not too many of them. */
  lemma {:induction false} PlanCount(s: Sizes, n: nat, remaining: uint32)
    requires n <= MAX_FRAGMENTS
    ensures |Payloads(s, n, remaining)| <= MAX_FRAGMENTS - n
    decreases MAX_FRAGMENTS - n
  {
    if remaining != 0 && n < MAX_FRAGMENTS && Next(s, n, remaining).Take? {
      PlanCount(s, n + 1, remaining - Next(s, n, remaining).payload);
    }
  }

  /** The `i`-th planned fragment, counted from the `n`-th on, fits the bound together with its header. */
  ghost predicate FitsFrom(s: Sizes, n: nat, plan: seq<uint32>) {
    forall i :: 0 <= i < |plan| ==> plan[i] + s.HeaderOf(n + i, n + |plan|) <= s.bound
  }

  lemma FitsCons(s: Sizes, n: nat, payload: uint32, rest: seq<uint32>)
    ensures FitsFrom(s, n, [payload] + rest) <==>
             payload + s.HeaderOf(n, n + 1 + |rest|) <= s.bound && FitsFrom(s, n + 1, rest)
  {
    var plan := [payload] + rest;
    forall i | 0 <= i < |rest| ensures plan[i + 1] == rest[i] && n + (i + 1) == n + 1 + i {}
    if FitsFrom(s, n, plan) {
      assert plan[0] + s.HeaderOf(n + 0, n + |plan|) <= s.bound;
      forall i | 0 <= i < |rest| ensures rest[i] + s.HeaderOf(n + 1 + i, n + 1 + |rest|) <= s.bound {
        assert plan[i + 1] + s.HeaderOf(n + (i + 1), n + |plan|) <= s.bound;
      }
    }
    if payload + s.HeaderOf(n, n + 1 + |rest|) <= s.bound && FitsFrom(s, n + 1, rest) {
      forall i | 0 <= i < |plan| ensures plan[i] + s.HeaderOf(n + i, n + |plan|) <= s.bound {
        if i > 0 {
          assert plan[i] == rest[i - 1] && rest[i - 1] + s.HeaderOf(n + 1 + (i - 1), n + 1 + |rest|) <= s.bound;
        }
      }
    }
  }

  /**
   * `rest` bytes behind the first fragment fit: they fill fragments with the middle header, and what
   * is left over for the last fragment fits with the last header.
   */
  predicate RestFits(s: Sizes, rest: int)
    requires s.last <= s.bound
  {
    if s.mid > s.bound then rest <= s.bound - s.last
    else s.last <= s.mid || LastPart(rest, s.bound - s.mid) <= s.bound - s.last
  }

  /** What is left of `rest` bytes for the last of several fragments with room for `room` each. */
  function LastPart(rest: int, room: int): int
    requires room > 0
    decreases rest
  {
    if rest <= room then rest else LastPart(rest - room, room)
  }

  lemma {:induction false} LastPartIs(rest: int, room: int)
    requires room > 0 && rest > 0
    ensures LastPart(rest, room) == (rest - 1) % room + 1
    decreases rest
  {
    if rest <= room {
      ModIs(rest - 1, room, 0, rest - 1);
    } else {
      LastPartIs(rest - room, room);
      ModStep(rest - 1, room);
    }
  }

  lemma ModStep(x: nat, d: nat)
    requires 0 < d <= x
    ensures x % d == (x - d) % d
  {
    var q, r := (x - d) / d, (x - d) % d;
    assert x == d * (q + 1) + r;
    ModIs(x, d, q + 1, r);
  }

  lemma ModIs(x: nat, d: nat, q: nat, r: nat)
    requires x == d * q + r && r < d
    ensures x % d == r
  {
    var e := x / d - q;
    assert x == d * (x / d) + x % d;
    assert d * e == r - x % d;
  }

  lemma FullFragment(s: Sizes, rest: int)
    requires s.last <= s.bound && s.mid <= s.bound && rest > s.bound - s.mid
    ensures RestFits(s, rest) <==> RestFits(s, rest - (s.bound - s.mid))
  {
  }

  /** What fits the last fragment, or just does not. */
  lemma OneFragment(s: Sizes, rest: int)
    requires s.last <= s.bound && 0 < rest && (rest <= s.bound - s.last || rest <= s.bound - s.mid || s.mid > s.bound)
    ensures RestFits(s, rest) <==> rest <= s.bound - s.last || (s.mid <= s.bound && s.last <= s.mid)
  {
  }

  /** What the `n`-th fragment takes: all that is left, or what fits with its header. */
  lemma NextTakes(s: Sizes, n: nat, rest: uint32)
    requires s.last <= s.bound && 0 < rest < 0x8000_0000 && Next(s, n, rest).Take?
    ensures var payload := Next(s, n, rest).payload;
      && (payload < rest && s.Header(n) <= s.bound ==> payload == s.bound - s.Header(n))
      && (payload == rest ==> rest <= s.bound - s.last || rest <= s.bound - s.Header(n) || s.Header(n) > s.bound)
      && (payload < rest ==> rest > s.bound - s.last)
  {
  }

  /** What a fragment behind the first takes of `rest` bytes: all of it, or what fits with the middle header. */
  ghost predicate TakesPart(s: Sizes, rest: int, payload: int) {
    && 0 <= payload <= rest
    && (payload < rest && s.mid <= s.bound ==> payload == s.bound - s.mid)
    && (payload == rest ==> rest <= s.bound - s.last || rest <= s.bound - s.mid || s.mid > s.bound)
    && (payload < rest ==> rest > s.bound - s.last)
  }

  /** The planned fragments take `rest` bytes. */
  ghost predicate Makes(s: Sizes, rest: int, plan: seq<uint32>) {
    if plan == [] then rest == 0
    else rest > 0 && TakesPart(s, rest, plan[0]) && Makes(s, rest - plan[0], plan[1..])
  }

  /** So does a plan that leaves nothing. */
  lemma {:induction false} PlanMakes(s: Sizes, n: nat, rest: uint32)
    requires 0 < n <= MAX_FRAGMENTS && s.last <= s.bound && rest < 0x8000_0000 && Left(s, n, rest) == 0
    ensures Makes(s, rest, Payloads(s, n, rest))
    decreases MAX_FRAGMENTS - n
  {
    if rest != 0 {
      var payload := Next(s, n, rest).payload;
      NextTakes(s, n, rest);
      PlanStep(s, n, rest, payload);
      PlanMakes(s, n + 1, rest - payload);
      assert ([payload] + Payloads(s, n + 1, rest - payload))[1..] == Payloads(s, n + 1, rest - payload);
    }
  }

  /** From the second fragment on. */
  lemma {:induction false} FitsAfterFirst(s: Sizes, n: nat, rest: int, plan: seq<uint32>)
    requires 0 < n && s.last <= s.bound && rest > 0 && Makes(s, rest, plan)
    ensures FitsFrom(s, n, plan) <==> RestFits(s, rest)
    decreases plan
  {
    var payload, later := plan[0], plan[1..];
    assert plan == [payload] + later;
    if payload < rest { FitsAfterFirst(s, n + 1, rest - payload, later); }
    OneStep(s, n, rest, payload, later);
  }

  lemma OneStep(s: Sizes, n: nat, rest: int, payload: uint32, later: seq<uint32>)
    requires 0 < n && s.last <= s.bound && 0 < rest && TakesPart(s, rest, payload)
    requires payload == rest <==> later == []
    requires payload < rest ==> (FitsFrom(s, n + 1, later) <==> RestFits(s, rest - payload))
    ensures FitsFrom(s, n, [payload] + later) <==> RestFits(s, rest)
  {
    FitsCons(s, n, payload, later);
    if payload == rest || s.mid > s.bound {
      OneFragment(s, rest);
    } else {
      FullFragment(s, rest);
    }
  }

  /** The first of several fragments is full. */
  lemma {:induction false} FirstIsFull(s: Sizes, payload: uint32)
    requires s.first <= s.bound && s.last <= s.bound && |Payloads(s, 0, payload)| >= 2
    ensures s.bound - s.first < payload < 0x8000_0000 && Next(s, 0, payload) == Take(s.bound - s.first)
  {
  }

  lemma {:induction false} FirstAndRest(s: Sizes, payload: uint32, taken: uint32)
    requires s.last <= s.bound && taken < payload < 0x8000_0000 && Left(s, 0, payload) == 0
             && Next(s, 0, payload) == Take(taken)
    ensures Payloads(s, 0, payload) == [taken] + Payloads(s, 1, payload - taken)
    ensures Makes(s, payload - taken, Payloads(s, 1, payload - taken))
  {
    PlanStep(s, 0, payload, taken);
    PlanMakes(s, 1, payload - taken);
  }

  lemma {:induction false} FitsBehind(s: Sizes, rest: int, taken: uint32, later: seq<uint32>)
    requires taken + s.first <= s.bound && s.last <= s.bound && rest > 0 && Makes(s, rest, later)
    ensures FitsFrom(s, 0, [taken] + later) <==> RestFits(s, rest)
  {
    FitsAfterFirst(s, 1, rest, later);
    FitsCons(s, 0, taken, later);
  }

  lemma {:induction false} PlanFitsRest(s: Sizes, payload: uint32)
    requires s.first <= s.bound && s.last <= s.bound && Left(s, 0, payload) == 0 && |Payloads(s, 0, payload)| >= 2
    ensures payload - (s.bound - s.first) > 0
    ensures FitsFrom(s, 0, Payloads(s, 0, payload)) <==> RestFits(s, payload - (s.bound - s.first))
  {
    FirstIsFull(s, payload);
    var taken: uint32 := s.bound - s.first;
    FirstAndRest(s, payload, taken);
    FitsBehind(s, payload - taken, taken, Payloads(s, 1, payload - taken));
  }

  /** The same, as a caller computes it: the remainder of the rest is what the last fragment gets. */
  predicate LastFits(s: Sizes, rest: int)
    requires s.last <= s.bound
  {
    if s.mid > s.bound then rest <= s.bound - s.last
    else s.last <= s.mid || (rest - 1) % (s.bound - s.mid) + 1 <= s.bound - s.last
  }

  lemma RestFitsIs(s: Sizes, rest: int)
    requires s.last <= s.bound && rest > 0
    ensures RestFits(s, rest) <==> LastFits(s, rest)
  {
    if s.mid < s.bound { LastPartIs(rest, s.bound - s.mid); }
  }

  /** Exactly when every fragment of a plan with two fragments or more fits the bound. */
  lemma {:induction false} PlanFits(s: Sizes, payload: uint32)
    requires s.first <= s.bound && s.last <= s.bound && Left(s, 0, payload) == 0 && |Payloads(s, 0, payload)| >= 2
    ensures FitsFrom(s, 0, Payloads(s, 0, payload)) <==> LastFits(s, payload - (s.bound - s.first))
  {
    PlanFitsRest(s, payload);
    RestFitsIs(s, payload - (s.bound - s.first));
  }

  // ---- when there is a plan ----

  /** The payload that a fragment with this header has room for: a difference of 32 bits with a sign. */
  function Room(bound: int, header: int): int {
    var d := bound - header;
    if d >= 0x8000_0000 then d - UINT32 else if d < -0x8000_0000 then d + UINT32 else d
  }

  /** `fragments` middle fragments, or the last of them with its own header, hold `rest` bytes. */
  predicate RestHolds(s: Sizes, rest: int, fragments: nat)
    requires s.last <= s.bound
  {
    var mid, last := Room(s.bound, s.mid), s.bound - s.last;
    if mid >= s.least then rest <= (fragments - 1) * mid + Max(mid, last) else rest <= mid
  }

  function Max(a: int, b: int): int { if a < b then b else a }

  /**
   * There is a plan. The first fragment needs room for the least payload, or for all of it; so does every
   * other one, and what they hold together must be enough. From 2 GB on, one fragment takes all.
   */
  predicate Plannable(s: Sizes, payload: uint32)
    requires s.last <= s.bound
  {
    var first, last := Room(s.bound, s.first), s.bound - s.last;
    || payload == 0
    || (&& first >= Min(payload, s.least)
        && (|| payload >= 0x8000_0000
            || payload <= Max(first, last)
            || RestHolds(s, payload - first, MAX_FRAGMENTS - 1)))
  }

  lemma RoomIs(a: uint32, b: uint32)
    ensures Signed(Sub32(a, b)) == Room(a, b)
  {
  }

  /** What a fragment does, in these terms. */
  lemma NextInTerms(s: Sizes, n: nat, rest: uint32)
    requires s.last <= s.bound && 0 < rest
    ensures var room, last := Room(s.bound, s.Header(n)), s.bound - s.last;
      && (Next(s, n, rest).Stop? <==> room < Min(rest, s.least))
      && (Next(s, n, rest).Take? && (rest >= 0x8000_0000 || rest <= Max(room, last)) ==> Next(s, n, rest) == Take(rest))
      && (Next(s, n, rest).Take? && rest < 0x8000_0000 && rest > Max(room, last) ==>
            0 <= room < rest && Next(s, n, rest) == Take(room))
  {
    RoomIs(s.bound, s.Header(n));
  }

  lemma OneLess(m: int, fragments: nat)
    requires fragments > 0
    ensures (fragments - 1) * m == (fragments - 1 - 1) * m + m
  {
  }

  lemma NotNegative(a: nat, b: nat)
    ensures a * b >= 0
  {
  }

  /** Behind the first fragment. */
  lemma {:induction false} RestPlanned(s: Sizes, n: nat, rest: uint32)
    requires 0 < n <= MAX_FRAGMENTS && s.last <= s.bound && 0 < rest < 0x8000_0000
    ensures Left(s, n, rest) == 0 <==> n < MAX_FRAGMENTS && RestHolds(s, rest, MAX_FRAGMENTS - n)
    decreases MAX_FRAGMENTS - n
  {
    if n < MAX_FRAGMENTS {
      var mid, last := Room(s.bound, s.mid), s.bound - s.last;
      NextInTerms(s, n, rest);
      OneLess(mid, MAX_FRAGMENTS - n);
      if mid >= Min(rest, s.least) {
        if mid >= 0 { NotNegative(MAX_FRAGMENTS - n - 1, mid); }
        if rest > Max(mid, last) { RestPlanned(s, n + 1, rest - mid); }
      }
    }
  }

  /** What the first fragment leaves. */
  lemma {:induction false} FirstLeaves(s: Sizes, payload: uint32)
    requires s.last <= s.bound && payload != 0
    ensures var first := Room(s.bound, s.first);
      if first < Min(payload, s.least) then Left(s, 0, payload) == payload
      else if payload >= 0x8000_0000 || payload <= Max(first, s.bound - s.last) then Left(s, 0, payload) == 0
      else 0 <= first < payload && Left(s, 0, payload) == Left(s, 1, payload - first)
  {
    NextInTerms(s, 0, payload);
  }

  /** The first fragment leaves nothing, or what the others hold. */
  lemma FirstDecides(s: Sizes, payload: uint32) returns (holds: bool)
    requires s.first <= s.bound && s.last <= s.bound && payload != 0
    ensures var first, last := Room(s.bound, s.first), s.bound - s.last;
      && (holds <==> RestHolds(s, payload - first, MAX_FRAGMENTS - 1))
      && (Left(s, 0, payload) == 0 <==>
            first >= Min(payload, s.least) && (payload >= 0x8000_0000 || payload <= Max(first, last) || holds))
  {
    var first := Room(s.bound, s.first);
    FirstLeaves(s, payload);
    holds := RestHolds(s, payload - first, MAX_FRAGMENTS - 1);
    if 0 <= first < payload < 0x8000_0000 { RestPlanned(s, 1, payload - first); }
  }

  /** Exactly when the loop leaves nothing over. */
  lemma {:induction false} PlanExactly(s: Sizes, payload: uint32)
    requires s.first <= s.bound && s.last <= s.bound
    ensures Left(s, 0, payload) == 0 <==> Plannable(s, payload)
  {
    if payload != 0 { var holds := FirstDecides(s, payload); }
  }

  /** All fragments but the last one are filled. */
  ghost predicate Filled(s: Sizes, n: nat, plan: seq<uint32>) {
    forall i :: 0 <= i < |plan| - 1 ==> plan[i] == Room(s.bound, s.Header(n + i))
  }

  lemma FilledCons(s: Sizes, n: nat, payload: uint32, rest: seq<uint32>)
    requires Filled(s, n + 1, rest) && (rest != [] ==> payload == Room(s.bound, s.Header(n)))
    ensures Filled(s, n, [payload] + rest)
  {
    var plan := [payload] + rest;
    forall i | 0 <= i < |plan| - 1 ensures plan[i] == Room(s.bound, s.Header(n + i)) {
      if i > 0 { assert plan[i] == rest[i - 1] && rest[i - 1] == Room(s.bound, s.Header(n + 1 + (i - 1))); }
    }
  }

  lemma {:induction false} PlanFilled(s: Sizes, n: nat, rest: uint32)
    requires s.last <= s.bound
    ensures Left(s, n, rest) == 0 ==> Filled(s, n, Payloads(s, n, rest))
    decreases MAX_FRAGMENTS - n
  {
    if rest != 0 && n < MAX_FRAGMENTS && Next(s, n, rest).Take? {
      var payload := Next(s, n, rest).payload;
      NextInTerms(s, n, rest);
      PlanStep(s, n, rest, payload);
      PlanFilled(s, n + 1, rest - payload);
      if Left(s, n, rest) == 0 { FilledCons(s, n, payload, Payloads(s, n + 1, rest - payload)); }
    }
  }

  /** With a larger last header the last fragment can be too large. */
  lemma LargeLastHeader()
    ensures var s := Sizes(100, 10, 10, 20, 1);
            Payloads(s, 0, 175) == [90, 85] && Left(s, 0, 175) == 0 && !FitsFrom(s, 0, [90, 85])
  {
    var s := Sizes(100, 10, 10, 20, 1);
    assert Next(s, 0, 175) == Take(90);
    assert Next(s, 1, 85) == Take(85);
    assert Payloads(s, 2, 0) == [] && Left(s, 1, 85) == 0;
    assert Payloads(s, 1, 85) == [85] + Payloads(s, 2, 0);
    assert Payloads(s, 0, 175) == [90] + Payloads(s, 1, 85);
    var plan: seq<uint32> := [90, 85];
    assert [90] + ([85] + []) == plan;
    assert plan[1] + s.HeaderOf(0 + 1, 0 + |plan|) > s.bound;
  }

  // ---- the route of one fragment ----

  /** A contact as the search sees it: its capacity now for the lowest priority and for the bundle's. */
  datatype Candidate = Candidate(contact: nat, to: nat, capacity: int32, capacityForPriority: int32, confidence: real)

  datatype Config = Config(minProbability: real, opportunistic: real, deterministic: real)

  datatype Route = Route(contacts: seq<Candidate>, probability: real, improved: nat)

  /** The state of the search: the route so far, the bytes still to pass over, and whether it is over. */
  datatype Search = Search(route: Route, skip: uint32, over: bool)

  /** What the loop of router_calculate_fragment_route does with a contact that is neither excluded nor over. */
  function Consider(s: Search, c: Candidate, size: uint32, cfg: Config): Search {
    var capacity := Unsigned(c.capacity);
    if s.skip != 0 && s.skip >= capacity then s.(skip := s.skip - capacity)
    else if capacity - s.skip < size then
      var better := Sub32(Unsigned(c.capacityForPriority), s.skip) >= size;
      Search(s.route.(improved := if better then (s.route.improved + 1) % 0x100 else s.route.improved), 0, false)
    else if c.confidence >= cfg.deterministic then
      Search(Route([c], c.confidence, s.route.improved), 0, true)
    else if c.confidence >= cfg.opportunistic then
      var p := s.route.probability;
      Search(Route(s.route.contacts + [c], p + c.confidence - p * c.confidence, s.route.improved), 0, false)
    else s.(skip := 0)
  }

  function Visit(s: Search, c: Candidate, size: uint32, time: nat, excluded: seq<nat>, cfg: Config): Search {
    if c.contact in excluded || c.to <= time then s else Consider(s, c, size, cfg)
  }

  predicate Ends(s: Search, cfg: Config) {
    s.over || s.route.probability >= cfg.minProbability || |s.route.contacts| == MAX_CONTACTS
  }

  function Walk(s: Search, list: seq<Candidate>, size: uint32, time: nat, excluded: seq<nat>, cfg: Config): Route
    decreases |list|
  {
    if list == [] || Ends(s, cfg) then s.route
    else Walk(Visit(s, list[0], size, time, excluded, cfg), list[1..], size, time, excluded, cfg)
  }

  function Begin(skip: uint32): Search { Search(Route([], 0.0, 0), skip, false) }

  method CalculateFragmentRoute(
      list: seq<Candidate>, size: uint32, skip: uint32, time: nat, excluded: seq<nat>, cfg: Config)
    returns (route: Route, success: bool)
    ensures route == Walk(Begin(skip), list, size, time, excluded, cfg)
    ensures success <==> route.probability >= cfg.minProbability
  {
    var s := Begin(skip);
    var k := 0;
    while k < |list| && !s.over && s.route.probability < cfg.minProbability && |s.route.contacts| != MAX_CONTACTS
      invariant k <= |list|
      invariant Walk(Begin(skip), list, size, time, excluded, cfg) == Walk(s, list[k..], size, time, excluded, cfg)
    {
      var c := list[k];
      assert list[k..][0] == c && list[k..][1..] == list[k + 1..];
      var left := IsExcluded(c.contact, excluded);
      if !left && c.to > time { s := Consider(s, c, size, cfg); }
      k := k + 1;
    }
    route, success := s.route, s.route.probability >= cfg.minProbability;
  }

  method IsExcluded(contact: nat, excluded: seq<nat>) returns (d: bool)
    ensures d <==> contact in excluded
  {
    d := false;
    for i := 0 to |excluded|
      invariant d <==> contact in excluded[..i]
    {
      if excluded[i] == contact { d := true; }
    }
  }

  /** The chance that at least one of independent contacts works out. */
  function Miss(contacts: seq<Candidate>): real {
    if contacts == [] then 1.0 else Miss(contacts[..|contacts| - 1]) * (1.0 - contacts[|contacts| - 1].confidence)
  }

  /** A contact that can take the fragment. */
  predicate Usable(c: Candidate, size: uint32, time: nat, excluded: seq<nat>, cfg: Config) {
    c.contact !in excluded && c.to > time && c.capacity >= size && c.confidence >= cfg.opportunistic
  }

  /** A contact that seems to: the comparison takes the capacity as an unsigned number. */
  predicate Chosen(c: Candidate, size: uint32, time: nat, excluded: seq<nat>, cfg: Config) {
    c.contact !in excluded && c.to > time && Unsigned(c.capacity) >= size && c.confidence >= cfg.opportunistic
  }

  /** Contacts that look usable, in the order of the list and so without repetition, and their joint probability. */
  ghost predicate RouteOk(r: Route, list: seq<Candidate>, size: uint32, time: nat, excluded: seq<nat>, cfg: Config) {
    && |r.contacts| <= MAX_CONTACTS
    && (forall c <- r.contacts :: c in list && Chosen(c, size, time, excluded, cfg))
    && (forall i, j :: 0 <= i < j < |r.contacts| ==> r.contacts[i].contact != r.contacts[j].contact)
    && r.probability == 1.0 - Miss(r.contacts)
  }

  ghost predicate Different(list: seq<Candidate>) {
    forall i, j :: 0 <= i < j < |list| ==> list[i].contact != list[j].contact
  }

  lemma {:induction false} MissAppend(contacts: seq<Candidate>, c: Candidate)
    ensures Miss(contacts + [c]) == Miss(contacts) * (1.0 - c.confidence)
  {
    assert (contacts + [c])[..|contacts|] == contacts;
  }

  lemma RouteAppend(r: Route, seen: seq<Candidate>, c: Candidate, size: uint32, time: nat, excluded: seq<nat>,
      cfg: Config, improved: nat)
    requires RouteOk(r, seen, size, time, excluded, cfg) && |r.contacts| < MAX_CONTACTS
    requires (forall x <- seen :: x.contact != c.contact) && Chosen(c, size, time, excluded, cfg)
    ensures RouteOk(Route(r.contacts + [c], r.probability + c.confidence - r.probability * c.confidence, improved),
                    seen + [c], size, time, excluded, cfg)
  {
    MissAppend(r.contacts, c);
    Joint(Miss(r.contacts), c.confidence);
    forall i | 0 <= i < |r.contacts| ensures r.contacts[i].contact != c.contact {
      assert r.contacts[i] in r.contacts;
    }
  }

  lemma RouteSame(r: Route, seen: seq<Candidate>, c: Candidate, size: uint32, time: nat, excluded: seq<nat>,
      cfg: Config, improved: nat)
    requires RouteOk(r, seen, size, time, excluded, cfg)
    ensures RouteOk(r.(improved := improved), seen + [c], size, time, excluded, cfg)
  {
    assert forall x <- seen :: x in seen + [c];
  }

  lemma RouteSingle(seen: seq<Candidate>, c: Candidate, size: uint32, time: nat, excluded: seq<nat>, cfg: Config,
      improved: nat)
    requires Chosen(c, size, time, excluded, cfg)
    ensures RouteOk(Route([c], c.confidence, improved), seen + [c], size, time, excluded, cfg)
  {
    MissAppend([], c);
    assert [] + [c] == [c] && Miss([]) == 1.0;
  }

  lemma VisitOk(s: Search, seen: seq<Candidate>, c: Candidate, size: uint32, time: nat, excluded: seq<nat>, cfg: Config)
    requires cfg.opportunistic <= cfg.deterministic
    requires RouteOk(s.route, seen, size, time, excluded, cfg) && |s.route.contacts| < MAX_CONTACTS
    requires forall x <- seen :: x.contact != c.contact
    ensures RouteOk(Visit(s, c, size, time, excluded, cfg).route, seen + [c], size, time, excluded, cfg)
  {
    VisitCases(s, c, size, time, excluded, cfg);
    ChangedOk(s.route, Visit(s, c, size, time, excluded, cfg).route, seen, c, size, time, excluded, cfg);
  }

  /** The route stays, is replaced by the contact or gets it as well. */
  ghost predicate Changed(q: Route, r: Route, c: Candidate, size: uint32, time: nat, excluded: seq<nat>, cfg: Config) {
    || r == q.(improved := r.improved)
    || (&& Chosen(c, size, time, excluded, cfg)
        && (|| r == Route([c], c.confidence, r.improved)
            || r == Route(q.contacts + [c], q.probability + c.confidence - q.probability * c.confidence, r.improved)))
  }

  lemma ChangedOk(q: Route, r: Route, seen: seq<Candidate>, c: Candidate, size: uint32, time: nat, excluded: seq<nat>,
      cfg: Config)
    requires Changed(q, r, c, size, time, excluded, cfg)
    requires RouteOk(q, seen, size, time, excluded, cfg) && |q.contacts| < MAX_CONTACTS
    requires forall x <- seen :: x.contact != c.contact
    ensures RouteOk(r, seen + [c], size, time, excluded, cfg)
  {
    if r == q.(improved := r.improved) {
      RouteSame(q, seen, c, size, time, excluded, cfg, r.improved);
    } else if r == Route([c], c.confidence, r.improved) {
      RouteSingle(seen, c, size, time, excluded, cfg, r.improved);
    } else {
      RouteAppend(q, seen, c, size, time, excluded, cfg, r.improved);
    }
  }

  lemma VisitCases(s: Search, c: Candidate, size: uint32, time: nat, excluded: seq<nat>, cfg: Config)
    requires cfg.opportunistic <= cfg.deterministic
    ensures Changed(s.route, Visit(s, c, size, time, excluded, cfg).route, c, size, time, excluded, cfg)
  {
  }

  lemma Joint(miss: real, confidence: real)
    ensures (1.0 - miss) + confidence - (1.0 - miss) * confidence == 1.0 - miss * (1.0 - confidence)
  {
  }

  /**
   * Every computed route: distinct contacts of the list that are not excluded, not over and seem to
   * have room for the fragment; its probability is that of reaching the destination over at least one of them.
   */
  lemma {:induction false} WalkOk(s: Search, seen: seq<Candidate>, list: seq<Candidate>, size: uint32, time: nat,
      excluded: seq<nat>, cfg: Config)
    requires cfg.opportunistic <= cfg.deterministic && Different(seen + list)
    requires RouteOk(s.route, seen, size, time, excluded, cfg)
    ensures RouteOk(Walk(s, list, size, time, excluded, cfg), seen + list, size, time, excluded, cfg)
    decreases |list|
  {
    if list == [] || Ends(s, cfg) {
      assert forall c <- seen :: c in seen + list;
    } else {
      var c := list[0];
      forall x | x in seen ensures x.contact != c.contact {
        var i :| 0 <= i < |seen| && seen[i] == x;
        assert (seen + list)[i] == x && (seen + list)[|seen|] == c;
      }
      VisitOk(s, seen, c, size, time, excluded, cfg);
      assert (seen + [c]) + list[1..] == seen + list;
      WalkOk(Visit(s, c, size, time, excluded, cfg), seen + [c], list[1..], size, time, excluded, cfg);
    }
  }

  /** A route holds contacts of the list that look usable, and each has room just when its capacity is not negative. */
  lemma {:induction false} RouteIsSound(list: seq<Candidate>, size: uint32, skip: uint32, time: nat, excluded: seq<nat>,
      cfg: Config)
    requires cfg.opportunistic <= cfg.deterministic && Different(list)
    ensures var r := Walk(Begin(skip), list, size, time, excluded, cfg);
      && RouteOk(r, list, size, time, excluded, cfg)
      && forall c <- r.contacts :: Usable(c, size, time, excluded, cfg) <==> c.capacity >= 0
  {
    assert [] + list == list;
    WalkOk(Begin(skip), [], list, size, time, excluded, cfg);
  }

  // ---- which contacts stay in the route ----

  /** The search before the `k`-th contact; it stays as it is once it ends. */
  function SearchAt(s: Search, list: seq<Candidate>, k: nat, size: uint32, time: nat, excluded: seq<nat>,
      cfg: Config): Search
    requires k <= |list|
  {
    if k == 0 then s
    else
      var before := SearchAt(s, list, k - 1, size, time, excluded, cfg);
      if Ends(before, cfg) then before else Visit(before, list[k - 1], size, time, excluded, cfg)
  }

  /** The search takes a contact that may be used, is not passed over and seems to have room for the fragment. */
  predicate Takes(s: Search, c: Candidate, size: uint32, time: nat, excluded: seq<nat>, cfg: Config) {
    && !Ends(s, cfg) && c.contact !in excluded && c.to > time && c.confidence >= cfg.opportunistic
    && (s.skip == 0 || s.skip < Unsigned(c.capacity)) && Unsigned(c.capacity) - s.skip >= size
  }

  /** The walk, not ended before, takes the `k`-th contact. */
  predicate TakesAt(s: Search, list: seq<Candidate>, k: nat, size: uint32, time: nat, excluded: seq<nat>, cfg: Config)
    requires k < |list|
  {
    Takes(SearchAt(s, list, k, size, time, excluded, cfg), list[k], size, time, excluded, cfg)
  }

  /** The `k`-th contact is taken, and no deterministic one between it and the `n`-th replaces it. */
  ghost predicate Stays(s: Search, list: seq<Candidate>, k: nat, n: nat, size: uint32, time: nat, excluded: seq<nat>,
      cfg: Config)
    requires k < n <= |list|
  {
    && TakesAt(s, list, k, size, time, excluded, cfg)
    && forall j :: k < j < n && TakesAt(s, list, j, size, time, excluded, cfg)
        ==> list[j].confidence < cfg.deterministic
  }

  lemma VisitTakes(s: Search, c: Candidate, size: uint32, time: nat, excluded: seq<nat>, cfg: Config)
    requires cfg.opportunistic <= cfg.deterministic && !Ends(s, cfg)
    ensures Visit(s, c, size, time, excluded, cfg).route.contacts ==
            if !Takes(s, c, size, time, excluded, cfg) then s.route.contacts
            else if c.confidence >= cfg.deterministic then [c]
            else s.route.contacts + [c]
  {
  }

  lemma {:induction false} ContactsAt(s: Search, list: seq<Candidate>, n: nat, size: uint32, time: nat,
      excluded: seq<nat>, cfg: Config, x: Candidate)
    requires cfg.opportunistic <= cfg.deterministic && n <= |list| && s.route.contacts == []
    ensures x in SearchAt(s, list, n, size, time, excluded, cfg).route.contacts <==>
            exists k :: 0 <= k < n && list[k] == x && Stays(s, list, k, n, size, time, excluded, cfg)
  {
    if n > 0 {
      ContactsAt(s, list, n - 1, size, time, excluded, cfg, x);
      StaysNext(s, list, n, size, time, excluded, cfg, x);
    }
  }

  lemma StaysNext(s: Search, list: seq<Candidate>, n: nat, size: uint32, time: nat, excluded: seq<nat>, cfg: Config,
      x: Candidate)
    requires cfg.opportunistic <= cfg.deterministic && 0 < n <= |list|
    requires x in SearchAt(s, list, n - 1, size, time, excluded, cfg).route.contacts <==>
             exists k :: 0 <= k < n - 1 && list[k] == x && Stays(s, list, k, n - 1, size, time, excluded, cfg)
    ensures x in SearchAt(s, list, n, size, time, excluded, cfg).route.contacts <==>
            exists k :: 0 <= k < n && list[k] == x && Stays(s, list, k, n, size, time, excluded, cfg)
  {
    var before, c := SearchAt(s, list, n - 1, size, time, excluded, cfg), list[n - 1];
    if !Ends(before, cfg) { VisitTakes(before, c, size, time, excluded, cfg); }
    var takes := TakesAt(s, list, n - 1, size, time, excluded, cfg);
    forall k | 0 <= k < n - 1
      ensures Stays(s, list, k, n, size, time, excluded, cfg) <==>
              Stays(s, list, k, n - 1, size, time, excluded, cfg) && !(takes && c.confidence >= cfg.deterministic)
    {
    }
    assert Stays(s, list, n - 1, n, size, time, excluded, cfg) <==> takes;
  }

  lemma {:induction false} WalkIsSearch(s: Search, list: seq<Candidate>, k: nat, size: uint32, time: nat,
      excluded: seq<nat>, cfg: Config)
    requires k <= |list|
    ensures Walk(s, list, size, time, excluded, cfg) ==
            Walk(SearchAt(s, list, k, size, time, excluded, cfg), list[k..], size, time, excluded, cfg)
  {
    if k == 0 {
      assert list[0..] == list;
    } else {
      WalkIsSearch(s, list, k - 1, size, time, excluded, cfg);
      assert list[k - 1..][0] == list[k - 1] && list[k - 1..][1..] == list[k..];
    }
  }

  // ---- what is passed over, and what preemption would add ----

  predicate Open(c: Candidate, time: nat, excluded: seq<nat>) { c.contact !in excluded && c.to > time }

  /** What the first `n` contacts that may be used have room for, read as unsigned numbers. */
  function RoomOf(list: seq<Candidate>, n: nat, time: nat, excluded: seq<nat>): nat
    requires n <= |list|
  {
    if n == 0 then 0
    else
      RoomOf(list, n - 1, time, excluded)
      + if Open(list[n - 1], time, excluded) then Unsigned(list[n - 1].capacity) else 0
  }

  /** The contacts that the bytes planned before take up are passed over; the next one loses what is left of them. */
  lemma {:induction false} SkipAt(skip: uint32, list: seq<Candidate>, n: nat, size: uint32, time: nat,
      excluded: seq<nat>, cfg: Config)
    requires n <= |list| && !Ends(SearchAt(Begin(skip), list, n, size, time, excluded, cfg), cfg)
    ensures var room := RoomOf(list, n, time, excluded);
      SearchAt(Begin(skip), list, n, size, time, excluded, cfg).skip == if room < skip then skip - room else 0
  {
    if n > 0 {
      SkipAt(skip, list, n - 1, size, time, excluded, cfg);
      var before, c := SearchAt(Begin(skip), list, n - 1, size, time, excluded, cfg), list[n - 1];
      VisitSkips(before, c, size, time, excluded, cfg);
    }
  }

  lemma VisitSkips(s: Search, c: Candidate, size: uint32, time: nat, excluded: seq<nat>, cfg: Config)
    ensures Visit(s, c, size, time, excluded, cfg).skip ==
            if !Open(c, time, excluded) then s.skip
            else if Unsigned(c.capacity) < s.skip then s.skip - Unsigned(c.capacity)
            else 0
  {
  }

  /** The walk refuses the `k`-th contact for want of room, and bundles of its priority would have had it. */
  predicate PreemptsAt(s: Search, list: seq<Candidate>, k: nat, size: uint32, time: nat, excluded: seq<nat>,
      cfg: Config)
    requires k < |list|
  {
    var before, c := SearchAt(s, list, k, size, time, excluded, cfg), list[k];
    && !Ends(before, cfg) && Open(c, time, excluded) && (before.skip == 0 || before.skip < Unsigned(c.capacity))
    && Unsigned(c.capacity) - before.skip < size <= Sub32(Unsigned(c.capacityForPriority), before.skip)
  }

  function Preempting(s: Search, list: seq<Candidate>, n: nat, size: uint32, time: nat, excluded: seq<nat>,
      cfg: Config): nat
    requires n <= |list|
  {
    if n == 0 then 0
    else
      Preempting(s, list, n - 1, size, time, excluded, cfg)
      + if PreemptsAt(s, list, n - 1, size, time, excluded, cfg) then 1 else 0
  }

  /** Such contacts are counted, in eight bits. */
  lemma {:induction false} ImprovedAt(s: Search, list: seq<Candidate>, n: nat, size: uint32, time: nat,
      excluded: seq<nat>, cfg: Config)
    requires n <= |list| && s.route.improved == 0
    ensures SearchAt(s, list, n, size, time, excluded, cfg).route.improved ==
            Preempting(s, list, n, size, time, excluded, cfg) % 0x100
  {
    if n > 0 {
      ImprovedAt(s, list, n - 1, size, time, excluded, cfg);
      ModulusStep(Preempting(s, list, n - 1, size, time, excluded, cfg));
      ImprovedStep(s, list, n - 1, size, time, excluded, cfg);
    }
  }

  lemma ModulusStep(n: nat)
    ensures (n % 0x100 + 1) % 0x100 == (n + 1) % 0x100
  {
  }

  lemma ImprovedStep(s: Search, list: seq<Candidate>, k: nat, size: uint32, time: nat, excluded: seq<nat>, cfg: Config)
    requires k < |list|
    ensures var before := SearchAt(s, list, k, size, time, excluded, cfg).route.improved;
      SearchAt(s, list, k + 1, size, time, excluded, cfg).route.improved ==
      if PreemptsAt(s, list, k, size, time, excluded, cfg) then (before + 1) % 0x100 else before
  {
  }

  /** The route that comes out counts those of the whole list. */
  lemma {:induction false} RouteImproved(list: seq<Candidate>, size: uint32, skip: uint32, time: nat,
      excluded: seq<nat>, cfg: Config)
    ensures Walk(Begin(skip), list, size, time, excluded, cfg).improved ==
            Preempting(Begin(skip), list, |list|, size, time, excluded, cfg) % 0x100
  {
    WalkIsSearch(Begin(skip), list, |list|, size, time, excluded, cfg);
    ImprovedAt(Begin(skip), list, |list|, size, time, excluded, cfg);
  }

  /**
   * A route is unsound if and only if the walk, not ended before, takes a contact with a negative capacity
   * that no later deterministic contact replaces.
   */
  lemma {:induction false} UnsoundExactly(list: seq<Candidate>, size: uint32, skip: uint32, time: nat,
      excluded: seq<nat>, cfg: Config)
    requires cfg.opportunistic <= cfg.deterministic && Different(list)
    ensures (exists c ::
               && c in Walk(Begin(skip), list, size, time, excluded, cfg).contacts
               && !Usable(c, size, time, excluded, cfg)) <==>
            exists k :: 0 <= k < |list| && list[k].capacity < 0
                && Stays(Begin(skip), list, k, |list|, size, time, excluded, cfg)
  {
    var s, n := Begin(skip), |list|;
    RouteIsSound(list, size, skip, time, excluded, cfg);
    WalkIsSearch(s, list, n, size, time, excluded, cfg);
    var contacts := Walk(s, list, size, time, excluded, cfg).contacts;
    assert contacts == SearchAt(s, list, n, size, time, excluded, cfg).route.contacts;
    if c :| c in contacts && !Usable(c, size, time, excluded, cfg) {
      ContactsAt(s, list, n, size, time, excluded, cfg, c);
    }
    if k :| 0 <= k < |list| && list[k].capacity < 0 && Stays(s, list, k, n, size, time, excluded, cfg) {
      ContactsAt(s, list, n, size, time, excluded, cfg, list[k]);
      assert !Usable(list[k], size, time, excluded, cfg);
    }
  }

  /** Without negative capacities every route is sound. */
  lemma {:induction false} SoundWithoutNegative(list: seq<Candidate>, size: uint32, skip: uint32, time: nat,
      excluded: seq<nat>,
      cfg: Config)
    requires cfg.opportunistic <= cfg.deterministic && Different(list) && forall c <- list :: c.capacity >= 0
    ensures forall c <- Walk(Begin(skip), list, size, time, excluded, cfg).contacts ::
            Usable(c, size, time, excluded, cfg)
  {
    RouteIsSound(list, size, skip, time, excluded, cfg);
  }

  /** With nothing to pass over, a contact of deterministic confidence that looks usable is not missed. */
  lemma {:induction false} DeterministicIsFound(
      s: Search, list: seq<Candidate>, k: nat, size: uint32, time: nat, excluded: seq<nat>, cfg: Config)
    requires cfg.minProbability <= cfg.deterministic && s.skip == 0 && !s.over && |s.route.contacts| <= MAX_CONTACTS
    requires k < |list| && Chosen(list[k], size, time, excluded, cfg) && list[k].confidence >= cfg.deterministic
    ensures var r := Walk(s, list, size, time, excluded, cfg);
            r.probability >= cfg.minProbability || |r.contacts| == MAX_CONTACTS
    decreases |list|
  {
    if !Ends(s, cfg) {
      assert list[0] in list;
      var s' := Visit(s, list[0], size, time, excluded, cfg);
      if s'.over {
        assert Walk(s', list[1..], size, time, excluded, cfg) == s'.route;
      } else {
        assert forall c <- list[1..] :: c in list;
        DeterministicIsFound(s', list[1..], k - 1, size, time, excluded, cfg);
      }
    }
  }

  /** A negative capacity is read as a large unsigned number: such a contact looks as if it had room. */
  lemma {:induction false} NegativeCapacity(size: uint32, cfg: Config, confidence: real)
    requires size < 0xFFFF_FFFF && cfg.deterministic <= confidence && 0.0 < cfg.minProbability
    ensures var c := Candidate(0, 1, -1, -1, confidence);
            Walk(Begin(0), [c], size, 0, [], cfg).contacts == [c] && !Usable(c, size, 0, [], cfg)
  {
    var c := Candidate(0, 1, -1, -1, confidence);
    var next := Visit(Begin(0), c, size, 0, [], cfg);
    assert next.over && [c][1..] == [];
    assert Walk(Begin(0), [c], size, 0, [], cfg) == Walk(next, [], size, 0, [], cfg);
  }
}
