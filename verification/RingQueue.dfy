/**
 * The message queue between tasks (components/platform/posix/simple_queue.c): a ring buffer guarded
 * by three semaphores, as a system of interleaved steps. Each step is one semaphore operation, one
 * copy or one pointer update of one thread; any number of threads may be in the middle of a call.
 */
module RingQueue {
  import opened Basics

  type Tid = int

  /** How far a thread has come in queuePush, queuePop or a forced queuePush on a full queue. */
  datatype Loc<T> =
    | Idle
    | PushReady(item: T)      // has taken sem_push, waits for the mutex
    | PushLocked(item: T)     // holds the mutex
    | PushWritten(item: T)    // has copied the item into the buffer
    | PushAdvanced            // has moved current_end
    | PushPosted              // has posted sem_pop
    | PopReady                // has taken sem_pop, waits for the mutex
    | PopLocked
    | PopCopied(item: T)      // has copied the item out of the buffer
    | PopAdvanced(item: T)    // has moved current_start
    | PopPosted(item: T)      // has posted sem_push
    | ForceReady(item: T)     // sem_trywait has failed, waits for the mutex
    | ForceLocked(item: T)
    | ForceWritten            // has overwritten the last item

  datatype Mutex = Free | HeldBy(thread: Tid)

  /**
   * `start` and `end` are current_start and current_end in units of items from abs_start; `mutex`
   * says which thread holds the mutex; `pushed` and `popped` record all items that went in and came out.
   */
  datatype State<T> = State(
    buf: seq<T>, start: nat, end: nat,
    mutex: Mutex, semPush: nat, semPop: nat,
    threads: map<Tid, Loc<T>>,
    pushed: seq<T>, popped: seq<T>)

  // ---- pointer arithmetic of the source ----

  function Increment(cur: nat, n: nat): nat { if cur + 1 > n then 0 else cur + 1 }

  /** A pointer never gets past the end. */
  lemma IncrementStays(cur: nat, n: nat)
    requires n > 0
    ensures Increment(Norm(cur, n), n) == (if cur < n then cur + 1 else 1) <= n
    ensures Increment(n, n) == 0
  {
  }

  function Decrement(cur: nat, n: nat): nat
    requires n > 0
  {
    if cur == 0 then n - 1 else cur - 1
  }

  /** A pointer that has reached the end goes back to the start. */
  function Norm(p: nat, n: nat): nat { if p >= n then 0 else p }

  // ---- steps ----

  /** What an idle thread may start. */
  datatype Call<T> = Push(item: T) | Pop | Force(item: T)

  ghost predicate CanStart<T>(s: State<T>, t: Tid, c: Call<T>) {
    && t in s.threads && s.threads[t].Idle?
    && match c
       case Push(_) => s.semPush > 0
       case Pop => s.semPop > 0
       case Force(_) => true
  }

  function Start<T>(s: State<T>, t: Tid, c: Call<T>): State<T>
    requires c.Push? ==> s.semPush > 0
    requires c.Pop? ==> s.semPop > 0
  {
    match c
    case Push(x) => s.(semPush := s.semPush - 1, threads := s.threads[t := PushReady(x)])
    case Pop => s.(semPop := s.semPop - 1, threads := s.threads[t := PopReady])
    case Force(x) =>
      if s.semPush == 0 then s.(threads := s.threads[t := ForceReady(x)])
      else s.(semPush := s.semPush - 1, threads := s.threads[t := PushReady(x)])
  }

  predicate Waits<T>(loc: Loc<T>) { loc.PushReady? || loc.PopReady? || loc.ForceReady? }

  predicate InSection<T>(loc: Loc<T>) { !loc.Idle? && !Waits(loc) }

  /** A thread in the middle of a call can go on unless it waits for a mutex that is taken. */
  ghost predicate CanAdvance<T>(s: State<T>, t: Tid) {
    t in s.threads && !s.threads[t].Idle? && (Waits(s.threads[t]) ==> s.mutex.Free?)
  }

  function Advance<T>(s: State<T>, t: Tid): State<T>
    requires t in s.threads && |s.buf| > 0
  {
    var n := |s.buf|;
    match s.threads[t]
    case Idle => s
    case PushReady(x) => s.(mutex := HeldBy(t), threads := s.threads[t := PushLocked(x)])
    case PushLocked(x) =>
      var e := Norm(s.end, n);
      s.(end := e, buf := s.buf[e := x], pushed := s.pushed + [x], threads := s.threads[t := PushWritten(x)])
    case PushWritten(_) => s.(end := Increment(s.end, n), threads := s.threads[t := PushAdvanced])
    case PushAdvanced => s.(semPop := s.semPop + 1, threads := s.threads[t := PushPosted])
    case PushPosted => s.(mutex := Free, threads := s.threads[t := Idle])
    case PopReady => s.(mutex := HeldBy(t), threads := s.threads[t := PopLocked])
    case PopLocked =>
      var b := Norm(s.start, n);
      s.(start := b, popped := s.popped + [s.buf[b]], threads := s.threads[t := PopCopied(s.buf[b])])
    case PopCopied(x) => s.(start := Increment(s.start, n), threads := s.threads[t := PopAdvanced(x)])
    case PopAdvanced(x) => s.(semPush := s.semPush + 1, threads := s.threads[t := PopPosted(x)])
    case PopPosted(_) => s.(mutex := Free, threads := s.threads[t := Idle])
    case ForceReady(x) => s.(mutex := HeldBy(t), threads := s.threads[t := ForceLocked(x)])
    case ForceLocked(x) =>
      s.(buf := s.buf[Replaced(s) := x],
         pushed := if |s.pushed| > |s.popped| then s.pushed[|s.pushed| - 1 := x] else s.pushed,
         threads := s.threads[t := ForceWritten])
    case ForceWritten => s.(mutex := Free, threads := s.threads[t := Idle])
  }

  /** The slot that a forced push overwrites. */
  function Replaced<T>(s: State<T>): nat
    requires |s.buf| > 0
  {
    var d := Decrement(s.end, |s.buf|);
    if d < |s.buf| then d else 0
  }

  ghost predicate Init<T>(s: State<T>, n: nat) {
    && n > 0 && |s.buf| == n && s.start == 0 && s.end == 0
    && s.mutex.Free? && s.semPush == n && s.semPop == 0
    && (forall t <- s.threads :: s.threads[t].Idle?)
    && s.pushed == [] && s.popped == []
  }

  /** One step of the system: a thread starts a call or goes on with one. */
  datatype Step<T> = Begin(thread: Tid, call: Call<T>) | Continue(thread: Tid)

  ghost predicate Enabled<T>(s: State<T>, step: Step<T>) {
    match step
    case Begin(t, c) => CanStart(s, t, c)
    case Continue(t) => |s.buf| > 0 && CanAdvance(s, t)
  }

  ghost function Do<T>(s: State<T>, step: Step<T>): State<T>
    requires Enabled(s, step)
  {
    match step
    case Begin(t, c) => Start(s, t, c)
    case Continue(t) => Advance(s, t)
  }

  /** The steps can be taken one after the other from `s`. */
  ghost predicate CanRun<T>(s: State<T>, steps: seq<Step<T>>)
    decreases steps
  {
    steps == [] || (Enabled(s, steps[0]) && CanRun(Do(s, steps[0]), steps[1..]))
  }

  ghost function After<T>(s: State<T>, steps: seq<Step<T>>): State<T>
    requires CanRun(s, steps)
    decreases steps
  {
    if steps == [] then s else After(Do(s, steps[0]), steps[1..])
  }

  // ---- counting threads ----

  /** Which of the four kinds of tokens a thread holds, if any. */
  datatype Token = NoToken | Space | Written | Item | Copied

  function TokenOf<T>(loc: Loc<T>): Token {
    match loc
    case PushReady(_) => Space
    case PushLocked(_) => Space
    case PushWritten(_) => Written
    case PushAdvanced => Written
    case PopReady => Item
    case PopLocked => Item
    case PopCopied(_) => Copied
    case PopAdvanced(_) => Copied
    case _ => NoToken
  }

  ghost function Holders<T>(threads: map<Tid, Loc<T>>, k: Token): set<Tid> {
    set t | t in threads && TokenOf(threads[t]) == k
  }

  ghost function Count<T>(threads: map<Tid, Loc<T>>, k: Token): nat { |Holders(threads, k)| }

  function One(b: bool): nat { if b then 1 else 0 }

  lemma CountMove<T>(threads: map<Tid, Loc<T>>, t: Tid, loc: Loc<T>, k: Token)
    requires t in threads
    ensures Count(threads[t := loc], k) + One(TokenOf(threads[t]) == k) == Count(threads, k) + One(TokenOf(loc) == k)
  {
    CountOthers(threads, t, k);
    CountOthers(threads[t := loc], t, k);
    OthersSame(threads, t, loc, k);
  }

  lemma OthersSame<T>(threads: map<Tid, Loc<T>>, t: Tid, loc: Loc<T>, k: Token)
    requires t in threads
    ensures Holders(threads, k) - {t} == Holders(threads[t := loc], k) - {t}
  {
    var a, b := Holders(threads, k) - {t}, Holders(threads[t := loc], k) - {t};
    forall u: Tid ensures u in a <==> u in b {}
  }

  lemma CountOthers<T>(threads: map<Tid, Loc<T>>, t: Tid, k: Token)
    requires t in threads
    ensures Count(threads, k) == |Holders(threads, k) - {t}| + One(TokenOf(threads[t]) == k)
  {
    if TokenOf(threads[t]) == k {
      assert Holders(threads, k) == (Holders(threads, k) - {t}) + {t};
    } else {
      assert Holders(threads, k) == Holders(threads, k) - {t};
    }
  }

  // ---- invariant ----

  /** Position `i` items after `p` in a ring of `n` slots. */
  function Wrap(p: nat, i: nat, n: nat): nat { if p + i < n then p + i else p + i - n }

  /** A thread has copied an item out but not yet moved current_start. */
  ghost predicate Copying<T>(s: State<T>) {
    s.mutex.HeldBy? && s.mutex.thread in s.threads && s.threads[s.mutex.thread].PopCopied?
  }

  ghost predicate Writing<T>(s: State<T>) {
    s.mutex.HeldBy? && s.mutex.thread in s.threads && s.threads[s.mutex.thread].PushWritten?
  }

  ghost function ReadPos<T>(s: State<T>): nat {
    if Copying(s) then Norm(s.start + 1, |s.buf|) else Norm(s.start, |s.buf|)
  }

  ghost function WritePos<T>(s: State<T>): nat {
    if Writing(s) then Norm(s.end + 1, |s.buf|) else Norm(s.end, |s.buf|)
  }

  /** Items that are in the queue. */
  function Waiting<T>(s: State<T>): seq<T> {
    if |s.popped| <= |s.pushed| then s.pushed[|s.popped|..] else []
  }

  /** The mutex is held by exactly the thread inside the critical section. */
  ghost predicate Exclusive<T>(s: State<T>) {
    && (s.mutex.HeldBy? ==> s.mutex.thread in s.threads)
    && forall t <- s.threads :: InSection(s.threads[t]) <==> s.mutex == HeldBy(t)
  }

  /** The ring holds the items in the queue, in order, between the two positions. */
  ghost predicate Stored<T>(s: State<T>) {
    && |s.buf| > 0 && s.start <= |s.buf| && s.end <= |s.buf|
    && (Copying(s) ==> s.start < |s.buf|) && (Writing(s) ==> s.end < |s.buf|)
    && s.popped <= s.pushed && |s.pushed| - |s.popped| <= |s.buf|
    && WritePos(s) == Norm(Wrap(ReadPos(s), |s.pushed| - |s.popped|, |s.buf|), |s.buf|)
    && forall i :: 0 <= i < |s.pushed| - |s.popped| ==>
         s.buf[Wrap(ReadPos(s), i, |s.buf|)] == s.pushed[|s.popped| + i]
  }

  /** Every slot and every item is accounted for by a semaphore or by a thread. */
  ghost predicate Balanced<T>(s: State<T>) {
    && s.semPop + Count(s.threads, Item) + Count(s.threads, Written) == |s.pushed| - |s.popped|
    && s.semPush + Count(s.threads, Space) + Count(s.threads, Copied) == |s.buf| - (|s.pushed| - |s.popped|)
  }

  ghost predicate Inv<T>(s: State<T>) { Exclusive(s) && Stored(s) && Balanced(s) }

  // ---- the invariant holds in every reachable state ----

  lemma InitInv<T>(s: State<T>, n: nat)
    requires Init(s, n)
    ensures Inv(s)
  {
    NoHolders(s.threads, Space);
    NoHolders(s.threads, Written);
    NoHolders(s.threads, Item);
    NoHolders(s.threads, Copied);
  }

  lemma NoHolders<T>(threads: map<Tid, Loc<T>>, k: Token)
    requires forall t <- threads :: TokenOf(threads[t]) != k
    ensures Count(threads, k) == 0
  {
    var none: set<Tid> := {};
    assert forall t :: t in Holders(threads, k) <==> t in none;
    assert Holders(threads, k) == none;
  }

  function HasItem(k: Token): nat { One(k == Item) + One(k == Written) }

  function HasSpace(k: Token): nat { One(k == Space) + One(k == Copied) }

  /**
   * A step of one thread keeps the accounts when what it does to the semaphores matches the tokens it gives
   * and takes.
   */
  lemma BalancedStep<T>(s: State<T>, s': State<T>, t: Tid)
    requires Balanced(s) && t in s.threads && t in s'.threads && s'.threads == s.threads[t := s'.threads[t]]
    requires |s'.buf| == |s.buf|
    requires var k, k', len, len' := TokenOf(s.threads[t]), TokenOf(s'.threads[t]), |s.pushed| - |s.popped|,
             |s'.pushed| - |s'.popped|;
      && s'.semPop + HasItem(k') - len' == s.semPop + HasItem(k) - len
      && s'.semPush + HasSpace(k') + len' == s.semPush + HasSpace(k) + len
    ensures Balanced(s')
  {
    var loc := s'.threads[t];
    CountMove(s.threads, t, loc, Space);
    CountMove(s.threads, t, loc, Written);
    CountMove(s.threads, t, loc, Item);
    CountMove(s.threads, t, loc, Copied);
  }

  lemma StartKeeps<T>(s: State<T>, t: Tid, c: Call<T>)
    requires Inv(s) && CanStart(s, t, c)
    ensures Inv(Start(s, t, c)) && Waiting(Start(s, t, c)) == Waiting(s) && |Start(s, t, c).buf| == |s.buf|
  {
    var s' := Start(s, t, c);
    BalancedStep(s, s', t);
    StartExclusive(s, t, c);
    assert Copying(s') == Copying(s) && Writing(s') == Writing(s);
    StoredSame(s, s');
  }

  lemma StartExclusive<T>(s: State<T>, t: Tid, c: Call<T>)
    requires Exclusive(s) && CanStart(s, t, c)
    ensures Exclusive(Start(s, t, c))
  {
  }

  /** Whether the ring holds the queue depends on nothing but the buffer, the two positions and the record. */
  lemma StoredSame<T>(s: State<T>, s': State<T>)
    requires Stored(s) && s'.buf == s.buf && s'.pushed == s.pushed && s'.popped == s.popped
    requires s'.start <= |s.buf| && s'.end <= |s.buf|
    requires (Copying(s') ==> s'.start < |s.buf|) && (Writing(s') ==> s'.end < |s.buf|)
    requires ReadPos(s') == ReadPos(s) && WritePos(s') == WritePos(s)
    ensures Stored(s')
  {
  }

  lemma AdvanceBalanced<T>(s: State<T>, t: Tid)
    requires Balanced(s) && t in s.threads && |s.buf| > 0
    ensures Balanced(Advance(s, t))
  {
    BalancedStep(s, Advance(s, t), t);
  }

  lemma AdvanceExclusive<T>(s: State<T>, t: Tid)
    requires Exclusive(s) && CanAdvance(s, t) && |s.buf| > 0
    ensures Exclusive(Advance(s, t))
  {
  }

  /** A push never overwrites an item that has not been read. */
  lemma WriteStores<T>(s: State<T>, t: Tid)
    requires Inv(s) && CanAdvance(s, t) && s.threads[t].PushLocked?
    ensures Stored(Advance(s, t)) && |Waiting(s)| < |s.buf|
    ensures Waiting(Advance(s, t)) == Waiting(s) + [s.threads[t].item]
  {
    CountOthers(s.threads, t, Space);
    var s' := Advance(s, t);
    assert ReadPos(s') == ReadPos(s);
    forall i | 0 <= i < |s'.pushed| - |s'.popped|
      ensures s'.buf[Wrap(ReadPos(s'), i, |s'.buf|)] == s'.pushed[|s'.popped| + i]
    {
    }
  }

  lemma OneMorePopped<T>(pushed: seq<T>, popped: seq<T>, popped': seq<T>)
    requires popped <= pushed && |popped| < |pushed| && popped' == popped + [pushed[|popped|]]
    ensures popped' <= pushed && popped' == pushed[..|popped'|]
    ensures pushed[|popped|..] == [pushed[|popped|]] + pushed[|popped'|..]
  {
  }

  lemma CopyStores<T>(s: State<T>, t: Tid)
    requires Inv(s) && CanAdvance(s, t) && s.threads[t].PopLocked?
    ensures Stored(Advance(s, t))
    ensures Advance(s, t).threads[t].PopCopied?
    ensures Waiting(s) == [Advance(s, t).threads[t].item] + Waiting(Advance(s, t))
  {
    CountOthers(s.threads, t, Item);
    var s' := Advance(s, t);
    var n := |s.buf|;
    assert s.buf[Wrap(ReadPos(s), 0, n)] == s.pushed[|s.popped|];
    OneMorePopped(s.pushed, s.popped, s'.popped);
    assert ReadPos(s') == Norm(ReadPos(s) + 1, n) && WritePos(s') == WritePos(s);
    forall i | 0 <= i < |s'.pushed| - |s'.popped|
      ensures s'.buf[Wrap(ReadPos(s'), i, n)] == s'.pushed[|s'.popped| + i]
    {
      assert Wrap(ReadPos(s'), i, n) == Wrap(ReadPos(s), i + 1, n);
    }
  }

  /**
   * A forced push replaces the newest item. If nothing waits in the queue, as after it was emptied or while
   * other pushes hold all tokens, its item is lost.
   */
  lemma ForceStores<T>(s: State<T>, t: Tid)
    requires Inv(s) && CanAdvance(s, t) && s.threads[t].ForceLocked?
    ensures Stored(Advance(s, t)) && |Waiting(Advance(s, t))| == |Waiting(s)|
    ensures Waiting(Advance(s, t)) ==
              if Waiting(s) == [] then [] else Waiting(s)[..|Waiting(s)| - 1] + [s.threads[t].item]
  {
    var s' := Advance(s, t);
    var n, len := |s.buf|, |s.pushed| - |s.popped|;
    assert ReadPos(s') == ReadPos(s);
    if len > 0 {
      assert Replaced(s) == Wrap(ReadPos(s), len - 1, n);
    }
    forall i | 0 <= i < len
      ensures s'.buf[Wrap(ReadPos(s'), i, n)] == s'.pushed[|s'.popped| + i]
    {
    }
  }

  /** Every other step leaves the contents of the queue alone. */
  lemma OtherStores<T>(s: State<T>, t: Tid)
    requires Inv(s) && CanAdvance(s, t)
    requires !s.threads[t].PushLocked? && !s.threads[t].PopLocked? && !s.threads[t].ForceLocked?
    ensures Stored(Advance(s, t)) && Waiting(Advance(s, t)) == Waiting(s)
  {
    AdvanceExclusive(s, t);
    StoredSame(s, Advance(s, t));
  }

  lemma AdvanceKeeps<T>(s: State<T>, t: Tid)
    requires Inv(s) && CanAdvance(s, t)
    ensures Inv(Advance(s, t)) && |Advance(s, t).buf| == |s.buf|
  {
    AdvanceBalanced(s, t);
    AdvanceExclusive(s, t);
    match s.threads[t]
    case PushLocked(_) => WriteStores(s, t);
    case PopLocked => CopyStores(s, t);
    case ForceLocked(_) => ForceStores(s, t);
    case _ => OtherStores(s, t);
  }

  lemma StepKeeps<T>(s: State<T>, step: Step<T>)
    requires Inv(s) && Enabled(s, step)
    ensures Inv(Do(s, step)) && |Do(s, step).buf| == |s.buf|
  {
    match step
    case Begin(t, c) => StartKeeps(s, t, c);
    case Continue(t) => AdvanceKeeps(s, t);
  }

  lemma {:induction false} RunKeeps<T>(s: State<T>, steps: seq<Step<T>>)
    requires Inv(s) && CanRun(s, steps)
    ensures Inv(After(s, steps)) && |After(s, steps).buf| == |s.buf|
    decreases steps
  {
    if steps != [] {
      StepKeeps(s, steps[0]);
      var s' := Do(s, steps[0]);
      RunKeeps(s', steps[1..]);
      assert After(s, steps) == After(s', steps[1..]);
    }
  }

  /**
   * Whatever the interleaving: what came out is a prefix of what went in, the semaphores and the
   * threads in the middle of a call together own each of the `n` slots once, and at most one thread
   * is inside the critical section.
   */
  lemma {:induction false} QueueSafe<T>(s0: State<T>, n: nat, steps: seq<Step<T>>)
    requires Init(s0, n) && CanRun(s0, steps)
    ensures var s := After(s0, steps);
      && s.popped <= s.pushed && |s.pushed| - |s.popped| <= n
      && s.semPush + s.semPop + Count(s.threads, Space) + Count(s.threads, Written)
           + Count(s.threads, Item) + Count(s.threads, Copied) == n
      && forall t <- s.threads, u <- s.threads :: InSection(s.threads[t]) && InSection(s.threads[u]) ==> t == u
  {
    InitInv(s0, n);
    RunKeeps(s0, steps);
  }

  /** As long as a call is in progress some thread can go on; otherwise a push or a pop can start. */
  lemma NoDeadlock<T>(s: State<T>)
    requires Inv(s)
    ensures if exists t :: t in s.threads && !s.threads[t].Idle? then exists t :: CanAdvance(s, t)
            else s.semPush > 0 || s.semPop > 0
  {
    if t :| t in s.threads && !s.threads[t].Idle? {
      var u := if s.mutex.HeldBy? then s.mutex.thread else t;
      assert CanAdvance(s, u);
    } else {
      NoHolders(s.threads, Space);
      NoHolders(s.threads, Written);
      NoHolders(s.threads, Item);
      NoHolders(s.threads, Copied);
    }
  }

  // ---- a call that nobody interrupts ----

  ghost predicate AllIdle<T>(s: State<T>) { forall t <- s.threads :: s.threads[t].Idle? }

  /** All threads are idle again, and the queue holds `items`. */
  ghost predicate Rests<T>(s: State<T>, before: State<T>, items: seq<T>) {
    Inv(s) && s.threads == before.threads && s.mutex.Free? && |s.buf| == |before.buf| && Waiting(s) == items
  }

  /** With all threads idle, the semaphores count the free slots and the items. */
  lemma IdleTokens<T>(s: State<T>)
    requires Inv(s) && AllIdle(s)
    ensures s.mutex.Free? && s.semPop == |Waiting(s)| && s.semPush == |s.buf| - |Waiting(s)|
  {
    NoHolders(s.threads, Space);
    NoHolders(s.threads, Written);
    NoHolders(s.threads, Item);
    NoHolders(s.threads, Copied);
  }

  /** The thread goes on from `s` to `s'`. */
  ghost predicate Next<T>(s: State<T>, t: Tid, s': State<T>) {
    |s.buf| > 0 && CanAdvance(s, t) && forall u: Tid | u == t :: s' == Advance(s, u)
  }

  /** The thread is at `loc` and can go on, all others are where they were before, and the queue holds `items`. */
  ghost predicate Stage<T>(s: State<T>, before: State<T>, t: Tid, loc: Loc<T>, items: seq<T>) {
    forall u: Tid | u == t ::
      && Inv(s) && u in before.threads && s.threads == before.threads[u := loc] && |s.buf| == |before.buf|
      && Waiting(s) == items && (Waits(loc) || loc == Idle ==> s.mutex.Free?)
  }

  lemma StageIs<T>(s: State<T>, before: State<T>, t: Tid, loc: Loc<T>, items: seq<T>)
    requires Stage(s, before, t, loc, items)
    ensures Inv(s) && t in before.threads && s.threads == before.threads[t := loc] && |s.buf| == |before.buf|
    ensures CanAdvance(s, t) || loc == Idle
    ensures Waiting(s) == items && (Waits(loc) || loc == Idle ==> s.mutex.Free?)
  {
    var known := t in before.threads;
  }

  /** Where a step takes the thread that leaves the contents of the queue alone. */
  function Following<T>(loc: Loc<T>): Option<Loc<T>> {
    match loc
    case PushReady(x) => Some(PushLocked(x))
    case PushWritten(_) => Some(PushAdvanced)
    case PushAdvanced => Some(PushPosted)
    case PushPosted => Some(Idle)
    case PopReady => Some(PopLocked)
    case PopCopied(x) => Some(PopAdvanced(x))
    case PopAdvanced(x) => Some(PopPosted(x))
    case PopPosted(_) => Some(Idle)
    case ForceReady(x) => Some(ForceLocked(x))
    case ForceWritten => Some(Idle)
    case _ => None
  }

  lemma QuietStep<T>(s: State<T>, before: State<T>, t: Tid, loc: Loc<T>, items: seq<T>) returns (s': State<T>)
    requires Stage(s, before, t, loc, items) && Following(loc).Some?
    ensures Next(s, t, s') && Stage(s', before, t, Following(loc).value, items)
  {
    StageIs(s, before, t, loc, items);
    s' := Advance(s, t);
    AdvanceKeeps(s, t);
    OtherStores(s, t);
    assert before.threads[t := loc][t := Following(loc).value] == before.threads[t := Following(loc).value];
  }

  lemma WriteStep<T>(s: State<T>, before: State<T>, t: Tid, x: T, items: seq<T>) returns (s': State<T>)
    requires Stage(s, before, t, PushLocked(x), items)
    ensures Next(s, t, s') && Stage(s', before, t, PushWritten(x), items + [x])
  {
    StageIs(s, before, t, PushLocked(x), items);
    s' := WrittenState(s, t, x);
    assert before.threads[t := PushLocked(x)][t := PushWritten(x)] == before.threads[t := PushWritten(x)];
  }

  lemma WrittenState<T>(s: State<T>, t: Tid, x: T) returns (s': State<T>)
    requires Inv(s) && CanAdvance(s, t) && s.threads[t] == PushLocked(x)
    ensures Next(s, t, s') && Inv(s') && |s'.buf| == |s.buf| && s'.threads == s.threads[t := PushWritten(x)]
    ensures Waiting(s') == Waiting(s) + [x]
  {
    s' := Advance(s, t);
    AdvanceKeeps(s, t);
    WriteStores(s, t);
  }

  lemma CopyStep<T>(s: State<T>, before: State<T>, t: Tid, items: seq<T>) returns (s': State<T>)
    requires Stage(s, before, t, PopLocked, items)
    ensures items != [] && Next(s, t, s') && Stage(s', before, t, PopCopied(items[0]), items[1..])
  {
    StageIs(s, before, t, PopLocked, items);
    s' := Advance(s, t);
    AdvanceKeeps(s, t);
    CopyStores(s, t);
    var y := s'.threads[t].item;
    assert items == [y] + Waiting(s');
    assert before.threads[t := PopLocked][t := PopCopied(y)] == before.threads[t := PopCopied(y)];
  }

  function GoOn<T>(t: Tid): seq<Step<T>> {
    [Continue(t)] + ([Continue(t)] + ([Continue(t)] + ([Continue(t)] + ([Continue(t)] + []))))
  }

  lemma FiveNext<T>(s: State<T>, t: Tid, s1: State<T>, s2: State<T>, s3: State<T>, s4: State<T>, s5: State<T>)
    requires Next(s, t, s1) && Next(s1, t, s2) && Next(s2, t, s3) && Next(s3, t, s4) && Next(s4, t, s5)
    ensures Leads(s, GoOn(t), s5)
  {
    NextLeads(s4, t, s5, [], s5);
    NextLeads(s3, t, s4, [Continue(t)] + [], s5);
    NextLeads(s2, t, s3, [Continue(t)] + ([Continue(t)] + []), s5);
    NextLeads(s1, t, s2, [Continue(t)] + ([Continue(t)] + ([Continue(t)] + [])), s5);
    NextLeads(s, t, s1, [Continue(t)] + ([Continue(t)] + ([Continue(t)] + ([Continue(t)] + []))), s5);
  }

  lemma NextLeads<T>(s: State<T>, t: Tid, s': State<T>, steps: seq<Step<T>>, end: State<T>)
    requires Next(s, t, s') && Leads(s', steps, end)
    ensures Leads(s, [Continue(t)] + steps, end)
  {
    assert s' == Advance(s, t);
    Before(s, Continue(t), s', steps, end);
  }

  /** The five steps of a push that has its token. */
  lemma PushGoesOn<T>(s: State<T>, before: State<T>, t: Tid, x: T, items: seq<T>) returns (end: State<T>)
    requires Stage(s, before, t, PushReady(x), items)
    ensures Leads(s, GoOn(t), end) && Stage(end, before, t, Idle, items + [x])
  {
    var s1 := QuietStep(s, before, t, PushReady(x), items);
    var s2 := WriteStep(s1, before, t, x, items);
    var s3 := QuietStep(s2, before, t, PushWritten(x), items + [x]);
    var s4 := QuietStep(s3, before, t, PushAdvanced, items + [x]);
    end := QuietStep(s4, before, t, PushPosted, items + [x]);
    FiveNext(s, t, s1, s2, s3, s4, end);
  }

  /** The five steps of a pop that has its token; after two of them it has copied the oldest item. */
  lemma PopGoesOn<T>(s: State<T>, before: State<T>, t: Tid, items: seq<T>) returns (end: State<T>, copied: State<T>)
    requires Stage(s, before, t, PopReady, items)
    ensures items != [] && Leads(s, GoOn(t), end) && Stage(end, before, t, Idle, items[1..])
    ensures Leads(s, [Continue(t)] + ([Continue(t)] + []), copied)
    ensures Stage(copied, before, t, PopCopied(items[0]), items[1..])
  {
    var s1 := QuietStep(s, before, t, PopReady, items);
    copied := CopyStep(s1, before, t, items);
    var s3 := QuietStep(copied, before, t, PopCopied(items[0]), items[1..]);
    var s4 := QuietStep(s3, before, t, PopAdvanced(items[0]), items[1..]);
    end := QuietStep(s4, before, t, PopPosted(items[0]), items[1..]);
    FiveNext(s, t, s1, copied, s3, s4, end);
    NextLeads(s1, t, copied, [], copied);
    NextLeads(s, t, s1, [Continue(t)] + [], copied);
  }

  /** A push, forced or not, into an idle queue that has room appends its item. */
  lemma PushAlone<T>(s: State<T>, t: Tid, x: T, c: Call<T>) returns (end: State<T>)
    requires Inv(s) && AllIdle(s) && t in s.threads && |Waiting(s)| < |s.buf| && (c == Push(x) || c == Force(x))
    ensures CanStart(s, t, c) && Leads(s, [Begin(t, c)] + GoOn(t), end) && Rests(end, s, Waiting(s) + [x])
  {
    IdleTokens(s);
    var s1 := Start(s, t, c);
    StartKeeps(s, t, c);
    end := PushGoesOn(s1, s, t, x, Waiting(s));
    AtRest(end, s, t, Waiting(s) + [x]);
    Before(s, Begin(t, c), s1, GoOn(t), end);
  }

  /** A pop from an idle queue that holds something takes the oldest item. */
  lemma PopAlone<T>(s: State<T>, t: Tid) returns (end: State<T>, copied: State<T>)
    requires Inv(s) && AllIdle(s) && t in s.threads && Waiting(s) != []
    ensures CanStart(s, t, Pop) && Leads(s, [Begin(t, Pop)] + GoOn(t), end) && Rests(end, s, Waiting(s)[1..])
    ensures Leads(s, [Begin(t, Pop)] + ([Continue(t)] + ([Continue(t)] + [])), copied)
    ensures t in copied.threads && copied.threads[t] == PopCopied(Waiting(s)[0])
  {
    IdleTokens(s);
    var s1 := Start(s, t, Pop);
    StartKeeps(s, t, Pop);
    end, copied := PopGoesOn(s1, s, t, Waiting(s));
    AtRest(end, s, t, Waiting(s)[1..]);
    Before(s, Begin(t, Pop), s1, GoOn(t), end);
    Before(s, Begin(t, Pop), s1, [Continue(t)] + ([Continue(t)] + []), copied);
    StageIs(copied, s, t, PopCopied(Waiting(s)[0]), Waiting(s)[1..]);
  }

  lemma AtRest<T>(s: State<T>, before: State<T>, t: Tid, items: seq<T>)
    requires t in before.threads && before.threads[t] == Idle && Stage(s, before, t, Idle, items)
    ensures Rests(s, before, items)
  {
    StageIs(s, before, t, Idle, items);
    IdleAgain(before.threads, t);
  }

  lemma ReplaceStep<T>(s: State<T>, before: State<T>, t: Tid, x: T, items: seq<T>) returns (s': State<T>)
    requires Stage(s, before, t, ForceLocked(x), items)
    ensures Next(s, t, s')
    ensures Stage(s', before, t, ForceWritten, if items == [] then [] else items[..|items| - 1] + [x])
  {
    StageIs(s, before, t, ForceLocked(x), items);
    s' := Advance(s, t);
    AdvanceKeeps(s, t);
    ForceStores(s, t);
    assert before.threads[t := ForceLocked(x)][t := ForceWritten] == before.threads[t := ForceWritten];
  }

  /** A forced push that got no token takes three steps and replaces the newest item. */
  lemma ForceUninterrupted<T>(s: State<T>, before: State<T>, t: Tid, x: T, items: seq<T>) returns (end: State<T>)
    requires Stage(s, before, t, ForceReady(x), items) && items != []
    ensures Leads(s, [Continue(t)] + ([Continue(t)] + ([Continue(t)] + [])), end)
    ensures Stage(end, before, t, Idle, items[..|items| - 1] + [x])
  {
    var s1 := QuietStep(s, before, t, ForceReady(x), items);
    var s2 := ReplaceStep(s1, before, t, x, items);
    end := QuietStep(s2, before, t, ForceWritten, items[..|items| - 1] + [x]);
    NextLeads(s2, t, end, [], end);
    NextLeads(s1, t, s2, [Continue(t)] + [], end);
    NextLeads(s, t, s1, [Continue(t)] + ([Continue(t)] + []), end);
  }

  /** On a full idle queue, that is what a forced push does. */
  lemma ForceWhenFull<T>(s: State<T>, t: Tid, x: T) returns (end: State<T>)
    requires Inv(s) && AllIdle(s) && t in s.threads && |Waiting(s)| == |s.buf|
    ensures Leads(s, [Begin(t, Force(x))] + ([Continue(t)] + ([Continue(t)] + ([Continue(t)] + []))), end)
    ensures Rests(end, s, Waiting(s)[..|s.buf| - 1] + [x])
  {
    IdleTokens(s);
    var s1 := Start(s, t, Force(x));
    StartKeeps(s, t, Force(x));
    end := ForceUninterrupted(s1, s, t, x, Waiting(s));
    AtRest(end, s, t, Waiting(s)[..|s.buf| - 1] + [x]);
    Before(s, Begin(t, Force(x)), s1, [Continue(t)] + ([Continue(t)] + ([Continue(t)] + [])), end);
  }

  /** On an idle queue a push can start just when there is room, a pop just when there is something. */
  lemma StartsWhen<T>(s: State<T>, t: Tid, x: T)
    requires Inv(s) && AllIdle(s) && t in s.threads
    ensures CanStart(s, t, Push(x)) <==> |Waiting(s)| < |s.buf|
    ensures CanStart(s, t, Pop) <==> Waiting(s) != []
    ensures CanStart(s, t, Force(x))
  {
    IdleTokens(s);
  }

  // ---- a call among others ----

  /** The thread is in a call whose effect is still to come. */
  ghost predicate ToCome<T>(loc: Loc<T>, c: Call<T>) {
    match c
    case Push(x) => loc == PushReady(x) || loc == PushLocked(x)
    case Pop => loc == PopReady || loc == PopLocked
    case Force(x) => loc == ForceReady(x) || loc == ForceLocked(x)
  }

  /** What a call makes of the items in the queue; a pop has copied the oldest one out. */
  ghost predicate Effect<T>(c: Call<T>, items: seq<T>, items': seq<T>, loc: Loc<T>) {
    match c
    case Push(x) => items' == items + [x]
    case Pop => loc.PopCopied? && items == [loc.item] + items'
    case Force(x) => items' == if items == [] then [] else items[..|items| - 1] + [x]
  }

  /** A forced push is a push if there is a token for it. */
  function ComesAs<T>(s: State<T>, c: Call<T>): Call<T> {
    match c
    case Force(x) => if s.semPush > 0 then Push(x) else c
    case _ => c
  }

  lemma StartsAs<T>(s: State<T>, t: Tid, c: Call<T>)
    requires Inv(s) && CanStart(s, t, c)
    ensures var s' := Start(s, t, c);
      && ToCome(s'.threads[t], ComesAs(s, c)) && Waiting(s') == Waiting(s)
          && s'.threads == s.threads[t := s'.threads[t]]
      && s'.semPush == s.semPush - One(ComesAs(s, c).Push?) && s'.semPop == s.semPop - One(c.Pop?)
  {
    StartKeeps(s, t, c);
  }

  /** The thread holds the mutex and is about to copy its item. */
  predicate Copies<T>(loc: Loc<T>) { loc.PushLocked? || loc.PopLocked? || loc.ForceLocked? }

  lemma EffectStep<T>(s: State<T>, t: Tid, c: Call<T>)
    requires Inv(s) && CanAdvance(s, t) && ToCome(s.threads[t], c) && Copies(s.threads[t])
    ensures t in Advance(s, t).threads && Effect(c, Waiting(s), Waiting(Advance(s, t)), Advance(s, t).threads[t])
  {
    match s.threads[t]
    case PushLocked(_) => WriteStores(s, t);
    case PopLocked => CopyStores(s, t);
    case ForceLocked(_) => ForceStores(s, t);
  }

  lemma NoEffectYet<T>(s: State<T>, t: Tid, c: Call<T>)
    requires CanAdvance(s, t) && |s.buf| > 0 && ToCome(s.threads[t], c) && !Copies(s.threads[t])
    ensures t in Advance(s, t).threads && ToCome(Advance(s, t).threads[t], c)
  {
  }

  /** Steps of other threads leave a thread where it is. */
  lemma OthersStep<T>(s: State<T>, step: Step<T>, t: Tid)
    requires Enabled(s, step) && t in s.threads && !s.threads[t].Idle? && step != Continue(t)
    ensures t in Do(s, step).threads && Do(s, step).threads[t] == s.threads[t]
  {
  }

  lemma BehindOne<T>(step: Step<T>, front: seq<Step<T>>, t: Tid, back: seq<Step<T>>)
    ensures [step] + (front + [Continue(t)] + back) == ([step] + front) + [Continue(t)] + back
  {
  }

  /** The thread is in a call whose effect is still to come. */
  ghost predicate Awaiting<T>(s: State<T>, t: Tid, c: Call<T>) {
    forall u: Tid | u == t :: Inv(s) && u in s.threads && ToCome(s.threads[u], c)
  }

  lemma AwaitingIs<T>(s: State<T>, t: Tid, c: Call<T>)
    requires Awaiting(s, t, c)
    ensures Inv(s) && t in s.threads && ToCome(s.threads[t], c)
  {
    var known := t in s.threads;
  }

  /** A step of the thread that has the effect of its call. */
  ghost predicate EffectIn<T>(s: State<T>, t: Tid, c: Call<T>) {
    && Inv(s) && Enabled(s, Continue(t))
    && var s' := Do(s, Continue(t)); t in s'.threads && Effect(c, Waiting(s), Waiting(s'), s'.threads[t])
  }

  /** After the steps `front`, the next step of the thread is such a step. */
  ghost predicate EffectAt<T>(s: State<T>, front: seq<Step<T>>, t: Tid, c: Call<T>) {
    CanRun(s, front) && forall u: Tid | u == t :: EffectIn(After(s, front), u, c)
  }

  /** Any step: the effect is still to come, or the step is the one of the thread that has it. */
  lemma CallStep<T>(s: State<T>, step: Step<T>, t: Tid, c: Call<T>)
    requires Enabled(s, step) && Awaiting(s, t, c)
    ensures Awaiting(Do(s, step), t, c) || (step == Continue(t) && EffectAt(s, [], t, c))
  {
    if step == Continue(t) {
      OwnStep(s, t, c);
    } else {
      AwaitingIs(s, t, c);
      StepKeeps(s, step);
      OthersStep(s, step, t);
    }
  }

  lemma OwnStep<T>(s: State<T>, t: Tid, c: Call<T>)
    requires Enabled(s, Continue(t)) && Awaiting(s, t, c)
    ensures Awaiting(Advance(s, t), t, c) || EffectAt(s, [], t, c)
  {
    AwaitingIs(s, t, c);
    if Copies(s.threads[t]) {
      EffectStep(s, t, c);
      EffectOf(s, t, c);
    } else {
      NoEffectYet(s, t, c);
      AdvanceKeeps(s, t);
      AwaitingOf(Advance(s, t), t, c);
    }
  }

  lemma AwaitingOf<T>(s: State<T>, t: Tid, c: Call<T>)
    requires Inv(s) && t in s.threads && ToCome(s.threads[t], c)
    ensures Awaiting(s, t, c)
  {
  }

  lemma EffectOf<T>(s: State<T>, t: Tid, c: Call<T>)
    requires Inv(s) && Enabled(s, Continue(t)) && t in Advance(s, t).threads
    requires Effect(c, Waiting(s), Waiting(Advance(s, t)), Advance(s, t).threads[t])
    ensures EffectAt(s, [], t, c)
  {
    assert EffectIn(s, t, c);
  }

  lemma EffectLater<T>(s: State<T>, step: Step<T>, front: seq<Step<T>>, t: Tid, c: Call<T>)
    requires Enabled(s, step) && EffectAt(Do(s, step), front, t, c)
    ensures EffectAt(s, [step] + front, t, c)
  {
    FirstStep(s, step, front);
  }

  lemma {:induction false} FirstStep<T>(s: State<T>, step: Step<T>, steps: seq<Step<T>>)
    requires Enabled(s, step) && CanRun(Do(s, step), steps)
    ensures CanRun(s, [step] + steps) && After(s, [step] + steps) == After(Do(s, step), steps)
  {
    assert ([step] + steps)[1..] == steps;
  }

  /** The thread is idle after the steps. */
  ghost predicate EndsIdle<T>(s: State<T>, steps: seq<Step<T>>, t: Tid) {
    CanRun(s, steps) && t in After(s, steps).threads && After(s, steps).threads[t].Idle?
  }

  lemma NotYet<T>(s: State<T>, steps: seq<Step<T>>, t: Tid, c: Call<T>)
    requires Awaiting(s, t, c) && EndsIdle(s, steps, t)
    ensures steps != [] && Enabled(s, steps[0]) && EndsIdle(Do(s, steps[0]), steps[1..], t)
  {
    AwaitingIs(s, t, c);
  }

  /** Whatever other threads do meanwhile, a call that ends has had its effect in one of the steps of its thread. */
  lemma {:induction false} TakesEffect<T>(s: State<T>, steps: seq<Step<T>>, t: Tid, c: Call<T>)
      returns (front: seq<Step<T>>, back: seq<Step<T>>)
    requires Awaiting(s, t, c) && EndsIdle(s, steps, t)
    ensures steps == front + [Continue(t)] + back && EffectAt(s, front, t, c)
    decreases steps
  {
    NotYet(s, steps, t, c);
    var step, s1 := steps[0], Do(s, steps[0]);
    assert steps == [step] + steps[1..];
    CallStep(s, step, t, c);
    if Awaiting(s1, t, c) {
      front, back := TakesEffect(s1, steps[1..], t, c);
      BehindOne(step, front, t, back);
      EffectLater(s, step, front, t, c);
      front := [step] + front;
    } else {
      front, back := [], steps[1..];
      assert [] + [Continue(t)] + back == steps;
    }
  }

  /** So does every call that starts and ends; a forced push appends its item if it got a token. */
  lemma CallTakesEffect<T>(s: State<T>, t: Tid, c: Call<T>, steps: seq<Step<T>>)
      returns (front: seq<Step<T>>, back: seq<Step<T>>)
    requires Inv(s) && CanStart(s, t, c) && EndsIdle(Start(s, t, c), steps, t)
    ensures steps == front + [Continue(t)] + back && EffectAt(Start(s, t, c), front, t, ComesAs(s, c))
  {
    StartsAs(s, t, c);
    StartKeeps(s, t, c);
    front, back := TakesEffect(Start(s, t, c), steps, t, ComesAs(s, c));
  }

  // ---- a forced push that loses its item ----

  ghost predicate Leads<T>(s: State<T>, steps: seq<Step<T>>, s': State<T>) { CanRun(s, steps) && After(s, steps) == s' }

  lemma Before<T>(s: State<T>, step: Step<T>, s': State<T>, steps: seq<Step<T>>, end: State<T>)
    requires Enabled(s, step) && Do(s, step) == s' && Leads(s', steps, end)
    ensures Leads(s, [step] + steps, end)
  {
    assert ([step] + steps)[1..] == steps;
  }

  /** The thread goes on five times; `s1` to `s4` are the states in between. */
  lemma FiveSteps<T>(s: State<T>, t: Tid, s1: State<T>, s2: State<T>, s3: State<T>, s4: State<T>, s5: State<T>,
      steps: seq<Step<T>>, end: State<T>)
    requires |s.buf| == |s1.buf| == |s2.buf| == |s3.buf| == |s4.buf| > 0 && Leads(s5, steps, end)
    requires CanAdvance(s, t) && CanAdvance(s1, t) && CanAdvance(s2, t) && CanAdvance(s3, t) && CanAdvance(s4, t)
    requires Advance(s, t) == s1 && Advance(s1, t) == s2 && Advance(s2, t) == s3 && Advance(s3, t) == s4
             && Advance(s4, t) == s5
    ensures Leads(s, [Continue(t)] + ([Continue(t)] + ([Continue(t)] + ([Continue(t)] + ([Continue(t)] + steps)))), end)
  {
    Before(s4, Continue(t), s5, steps, end);
    Before(s3, Continue(t), s4, [Continue(t)] + steps, end);
    Before(s2, Continue(t), s3, [Continue(t)] + ([Continue(t)] + steps), end);
    Before(s1, Continue(t), s2, [Continue(t)] + ([Continue(t)] + ([Continue(t)] + steps)), end);
    Before(s, Continue(t), s1, [Continue(t)] + ([Continue(t)] + ([Continue(t)] + ([Continue(t)] + steps))), end);
  }

  lemma Behind<T>(first: seq<Step<T>>, x: Step<T>, steps: seq<Step<T>>)
    ensures forall y <- steps :: y in first + ([x] + ([x] + ([x] + ([x] + ([x] + steps)))))
  {
  }

  lemma IdleAgain<T>(threads: map<Tid, Loc<T>>, t: Tid)
    requires t in threads && threads[t] == Idle
    ensures threads[t := Idle] == threads
  {
  }

  /** A push into an empty ring of one slot. */
  lemma PushRun<T>(s: State<T>, t: Tid, a: T, steps: seq<Step<T>>, end: State<T>) returns (all: seq<Step<T>>)
    requires Init(s, 1) && t in s.threads
    requires Leads(s.(buf := [a], end := 1, semPush := 0, semPop := 1, pushed := [a]), steps, end)
    ensures Leads(s, all, end) && forall x <- steps :: x in all
  {
    var th := s.threads;
    var s1 := s.(semPush := 0, threads := th[t := PushReady(a)]);
    var s2 := s1.(mutex := HeldBy(t), threads := th[t := PushLocked(a)]);
    var s3 := s2.(buf := [a], pushed := [a], threads := th[t := PushWritten(a)]);
    var s4 := s3.(end := 1, threads := th[t := PushAdvanced]);
    var s5 := s4.(semPop := 1, threads := th[t := PushPosted]);
    var s6 := s5.(mutex := Free, threads := th[t := Idle]);
    IdleAgain(th, t);
    assert s.buf[0 := a] == [a];
    FiveSteps(s1, t, s2, s3, s4, s5, s6, steps, end);
    var five := [Continue(t)] + ([Continue(t)] + ([Continue(t)] + ([Continue(t)] + ([Continue(t)] + steps))));
    Before(s, Begin(t, Push(a)), s1, five, end);
    all := [Begin(t, Push(a))] + five;
    Behind([Begin(t, Push(a))], Continue(t), steps);
  }

  /** A pop from a full ring of one slot, while another thread waits to force its item in. */
  lemma PopRun<T>(s: State<T>, t: Tid, a: T, steps: seq<Step<T>>, end: State<T>) returns (all: seq<Step<T>>)
    requires s.buf == [a] && s.start == 0 && s.mutex == Free && s.semPush == 0 && s.semPop == 1
    requires s.popped == [] && t in s.threads && s.threads[t] == Idle
    requires Leads(s.(start := 1, semPush := 1, semPop := 0, popped := [a]), steps, end)
    ensures Leads(s, all, end) && forall x <- steps :: x in all
  {
    var s1, s2, s3, s4, s5, s6 := PopStates(s, t, a);
    FiveSteps(s1, t, s2, s3, s4, s5, s6, steps, end);
    var five := [Continue(t)] + ([Continue(t)] + ([Continue(t)] + ([Continue(t)] + ([Continue(t)] + steps))));
    Before(s, Begin(t, Pop), s1, five, end);
    all := [Begin(t, Pop)] + five;
    Behind([Begin(t, Pop)], Continue(t), steps);
  }

  /** The states on the way of that pop. */
  lemma PopStates<T>(s: State<T>, t: Tid, a: T)
      returns (s1: State<T>, s2: State<T>, s3: State<T>, s4: State<T>, s5: State<T>, s6: State<T>)
    requires s.buf == [a] && s.start == 0 && s.mutex == Free && s.semPush == 0 && s.semPop == 1
    requires s.popped == [] && t in s.threads && s.threads[t] == Idle
    ensures |s1.buf| == |s2.buf| == |s3.buf| == |s4.buf| == |s5.buf| == 1 && Start(s, t, Pop) == s1
    ensures CanAdvance(s1, t) && CanAdvance(s2, t) && CanAdvance(s3, t) && CanAdvance(s4, t) && CanAdvance(s5, t)
    ensures Advance(s1, t) == s2 && Advance(s2, t) == s3 && Advance(s3, t) == s4 && Advance(s4, t) == s5
            && Advance(s5, t) == s6
    ensures s6 == s.(start := 1, semPush := 1, semPop := 0, popped := [a])
  {
    var th := s.threads;
    s1 := s.(semPop := 0, threads := th[t := PopReady]);
    s2 := s1.(mutex := HeldBy(t), threads := th[t := PopLocked]);
    s3 := s2.(popped := [a], threads := th[t := PopCopied(a)]);
    s4 := s3.(start := 1, threads := th[t := PopAdvanced(a)]);
    s5 := s4.(semPush := 1, threads := th[t := PopPosted(a)]);
    s6 := s5.(mutex := Free, threads := th[t := Idle]);
    IdleAgain(th, t);
    PopCopies(s2, t, a, s3);
    PopRest(s3, t, a, s4, s5, s6);
    assert Advance(s1, t) == s2;
  }

  lemma PopRest<T>(s3: State<T>, t: Tid, a: T, s4: State<T>, s5: State<T>, s6: State<T>)
    requires s3.buf == [a] && s3.start == 0 && s3.semPush == 0 && t in s3.threads && s3.threads[t] == PopCopied(a)
    requires s4 == s3.(start := 1, threads := s3.threads[t := PopAdvanced(a)])
    requires s5 == s4.(semPush := 1, threads := s3.threads[t := PopPosted(a)])
    requires s6 == s5.(mutex := Free, threads := s3.threads[t := Idle])
    ensures Advance(s3, t) == s4 && Advance(s4, t) == s5 && Advance(s5, t) == s6
  {
  }

  lemma PopCopies<T>(s: State<T>, t: Tid, a: T, s': State<T>)
    requires s.buf == [a] && s.start == 0 && s.popped == [] && t in s.threads && s.threads[t] == PopLocked
    requires s' == s.(popped := [a], threads := s.threads[t := PopCopied(a)])
    ensures Advance(s, t) == s'
  {
    assert s.popped + [s.buf[0]] == [a];
  }

  /** The forced push goes on when the ring of one slot is empty. */
  lemma ForceRun<T>(s: State<T>, t: Tid, a: T, b: T) returns (steps: seq<Step<T>>)
    requires s.buf == [a] && s.end == 1 && s.mutex == Free && s.pushed == [a] && s.popped == [a]
    requires t in s.threads && s.threads[t] == ForceReady(b)
    ensures Leads(s, steps, s.(buf := [b], threads := s.threads[t := Idle]))
  {
    var th := s.threads;
    var s1 := s.(mutex := HeldBy(t), threads := th[t := ForceLocked(b)]);
    var s2 := s1.(buf := [b], threads := th[t := ForceWritten]);
    var s3 := s2.(mutex := Free, threads := th[t := Idle]);
    assert s.buf[0 := b] == [b];
    Before(s2, Continue(t), s3, [], s3);
    Before(s1, Continue(t), s2, [Continue(t)] + [], s3);
    Before(s, Continue(t), s1, [Continue(t)] + ([Continue(t)] + []), s3);
    steps := [Continue(t)] + ([Continue(t)] + ([Continue(t)] + []));
  }

  /**
   * A run in which a forced push returns like any other, but its item was never in the queue: between
   * its failed sem_trywait and the mutex another thread takes the only item out.
   */
  lemma ForcedItemLost<T>(s: State<T>, a: T, b: T) returns (steps: seq<Step<T>>)
    requires Init(s, 1) && 1 in s.threads && 2 in s.threads
    ensures CanRun(s, steps) && Begin(2, Force(b)) in steps
    ensures var s' := After(s, steps); s'.threads == s.threads && Waiting(s') == [] && s'.popped == [a]
  {
    var full := s.(buf := [a], end := 1, semPush := 0, semPop := 1, pushed := [a]);
    var waits := full.(threads := s.threads[2 := ForceReady(b)]);
    var empty := waits.(start := 1, semPush := 1, semPop := 0, popped := [a]);
    var end := empty.(buf := [b], threads := empty.threads[2 := Idle]);
    steps := ForceRun(empty, 2, a, b);
    steps := PopRun(waits, 1, a, steps, end);
    Before(full, Begin(2, Force(b)), waits, steps, end);
    steps := [Begin(2, Force(b))] + steps;
    steps := PushRun(s, 1, a, steps, end);
    assert end.threads == s.threads;
  }
}
