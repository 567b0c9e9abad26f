/** The semaphore-protected bounded buffer (sbuf.c) as a transition system.

    Any number of threads call sbuf_insert and sbuf_remove.  Every semaphore operation, every
    increment of `front` or `rear`, and every access to `buf` is a step of its own; steps of
    different threads interleave freely.  `written` and `taken` record the values stored and
    loaded, in the order of those accesses; `entered` and `returned` record calls and returns. */
module Sbuf {
  import opened DivMod

  /** Where a thread stands; the names say what it has just done. */
  datatype Pc =
    | Idle
    // sbuf_insert
    | Inserting(item: int)    // before P(&slots)
    | GotSlot(item: int)      // before P(&mutex)
    | InsLocked(item: int)    // before ++rear
    | RearMoved(item: int)    // before the store
    | Stored                  // before V(&mutex)
    | InsUnlocked             // before V(&items)
    // sbuf_remove
    | Removing                // before P(&items)
    | GotItem                 // before P(&mutex)
    | RemLocked               // before ++front
    | FrontMoved              // before the load
    | Loaded(item: int)       // before V(&mutex)
    | RemUnlocked(item: int)  // before V(&slots)

  datatype State = State(
    buf: seq<int>, front: int, rear: int,
    mutex: int, slots: int, items: int,
    pcs: seq<Pc>,
    written: seq<int>, taken: seq<int>,
    entered: seq<int>, returned: seq<int>)

  datatype Event =
    | CallInsert(t: nat, item: int)
    | CallRemove(t: nat)
    | Advance(t: nat)

  /** sbuf_init(sp, n), with every thread idle. */
  function Init(n: nat, threads: nat): State {
    State(seq(n, _ => 0), 0, 0, 1, n, 0, seq(threads, _ => Idle), [], [], [], [])
  }

  /** A call needs an idle thread, P needs a positive semaphore, every other step is free. */
  predicate Enabled(s: State, e: Event) {
    && e.t < |s.pcs|
    && match e
       case CallInsert(t, _) => s.pcs[t].Idle?
       case CallRemove(t) => s.pcs[t].Idle?
       case Advance(t) =>
         match s.pcs[t]
         case Idle => false
         case Inserting(_) => s.slots > 0
         case Removing => s.items > 0
         case GotSlot(_) => s.mutex > 0
         case GotItem => s.mutex > 0
         case _ => true
  }

  function Goto(s: State, t: nat, pc: Pc): State
    requires t < |s.pcs|
  {
    s.(pcs := s.pcs[t := pc])
  }

  /** One step of one thread (lines 28-49). */
  function Apply(s: State, e: Event): State
    requires |s.buf| > 0 && Enabled(s, e)
  {
    var t := e.t;
    match e
    case CallInsert(_, item) => Goto(s, t, Inserting(item)).(entered := s.entered + [item])
    case CallRemove(_) => Goto(s, t, Removing)
    case Advance(_) =>
      match s.pcs[t]
      case Inserting(item) => Goto(s, t, GotSlot(item)).(slots := s.slots - 1)
      case GotSlot(item) => Goto(s, t, InsLocked(item)).(mutex := s.mutex - 1)
      case InsLocked(item) => Goto(s, t, RearMoved(item)).(rear := s.rear + 1)
      case RearMoved(item) => Goto(s, t, Stored).(buf := s.buf[s.rear % |s.buf| := item], written := s.written + [item])
      case Stored => Goto(s, t, InsUnlocked).(mutex := s.mutex + 1)
      case InsUnlocked => Goto(s, t, Idle).(items := s.items + 1)
      case Removing => Goto(s, t, GotItem).(items := s.items - 1)
      case GotItem => Goto(s, t, RemLocked).(mutex := s.mutex - 1)
      case RemLocked => Goto(s, t, FrontMoved).(front := s.front + 1)
      case FrontMoved =>
        var item := s.buf[s.front % |s.buf|];
        Goto(s, t, Loaded(item)).(taken := s.taken + [item])
      case Loaded(item) => Goto(s, t, RemUnlocked(item)).(mutex := s.mutex + 1)
      case RemUnlocked(item) => Goto(s, t, Idle).(slots := s.slots + 1, returned := s.returned + [item])
  }

  /** A sequence of events that can happen one after the other. */
  predicate Legal(s: State, es: seq<Event>)
    requires |s.buf| > 0
    decreases |es|
  {
    es == [] || (Enabled(s, es[0]) && Legal(Apply(s, es[0]), es[1..]))
  }

  function After(s: State, es: seq<Event>): State
    requires |s.buf| > 0 && Legal(s, es)
    decreases |es|
  {
    if es == [] then s else After(Apply(s, es[0]), es[1..])
  }

  // ---------- Counting threads by what they hold ----------

  /** What a thread may be holding, or owe, between the steps of an operation. */
  datatype Role =
    | Lock        // the mutex
    | SlotToken   // a slot it has not filled yet
    | SlotDebt    // an emptied slot it has not announced yet
    | ItemToken   // an item it has not loaded yet
    | ItemDebt    // a stored item it has not announced yet
    | RearAhead   // rear has moved, the store has not happened
    | FrontAhead  // front has moved, the load has not happened
    | Pending(x: int)  // the value x, handed to sbuf_insert and not stored yet
    | InHand(x: int)   // the value x, loaded by sbuf_remove and not returned yet

  function Weight(r: Role, pc: Pc): nat {
    var yes := match r
      case Lock => pc.InsLocked? || pc.RearMoved? || pc.Stored? || pc.RemLocked? || pc.FrontMoved? || pc.Loaded?
      case SlotToken => pc.GotSlot? || pc.InsLocked? || pc.RearMoved?
      case SlotDebt => pc.Loaded? || pc.RemUnlocked?
      case ItemToken => pc.GotItem? || pc.RemLocked? || pc.FrontMoved?
      case ItemDebt => pc.Stored? || pc.InsUnlocked?
      case RearAhead => pc.RearMoved?
      case FrontAhead => pc.FrontMoved?
      case Pending(x) => (pc.Inserting? || pc.GotSlot? || pc.InsLocked? || pc.RearMoved?) && pc.item == x
      case InHand(x) => (pc.Loaded? || pc.RemUnlocked?) && pc.item == x;
    if yes then 1 else 0
  }

  function Count(r: Role, pcs: seq<Pc>): nat {
    if pcs == [] then 0 else Weight(r, pcs[0]) + Count(r, pcs[1..])
  }

  lemma {:induction false} CountUpdate(r: Role, pcs: seq<Pc>, t: nat, pc: Pc)
    requires t < |pcs|
    ensures Count(r, pcs[t := pc]) == Count(r, pcs) - Weight(r, pcs[t]) + Weight(r, pc)
    decreases |pcs|
  {
    var qs := pcs[t := pc];
    if t == 0 {
      assert qs[1..] == pcs[1..];
    } else {
      assert qs[1..] == pcs[1..][t - 1 := pc];
      CountUpdate(r, pcs[1..], t - 1, pc);
    }
  }

  lemma {:induction false} CountHas(r: Role, pcs: seq<Pc>, t: nat)
    requires t < |pcs|
    ensures Weight(r, pcs[t]) <= Count(r, pcs)
  {
    CountUpdate(r, pcs, t, Idle);
  }

  lemma {:induction false} CountPair(r: Role, pcs: seq<Pc>, t: nat, u: nat)
    requires t < |pcs| && u < |pcs| && t != u
    ensures Weight(r, pcs[t]) + Weight(r, pcs[u]) <= Count(r, pcs)
  {
    CountUpdate(r, pcs, t, Idle);
    CountUpdate(r, pcs[t := Idle], u, Idle);
  }

  lemma {:induction false} CountZero(r: Role, pcs: seq<Pc>)
    requires forall t :: 0 <= t < |pcs| ==> Weight(r, pcs[t]) == 0
    ensures Count(r, pcs) == 0
    decreases |pcs|
  {
    if pcs != [] { CountZero(r, pcs[1..]); }
  }

  lemma {:induction false} CountFinds(r: Role, pcs: seq<Pc>) returns (t: nat)
    requires Count(r, pcs) > 0
    ensures t < |pcs| && Weight(r, pcs[t]) == 1
    decreases |pcs|
  {
    if Weight(r, pcs[0]) == 1 {
      t := 0;
    } else {
      var u := CountFinds(r, pcs[1..]);
      t := u + 1;
    }
  }

  /** Only a lock holder has moved `rear` or `front` ahead. */
  lemma {:induction false} AheadIsLocked(pcs: seq<Pc>)
    ensures Count(RearAhead, pcs) + Count(FrontAhead, pcs) <= Count(Lock, pcs)
    decreases |pcs|
  {
    if pcs != [] { AheadIsLocked(pcs[1..]); }
  }

  lemma {:induction false} AheadOfOne(pcs: seq<Pc>, t: nat)
    requires t < |pcs| && Count(Lock, pcs) <= 1 && Weight(Lock, pcs[t]) == 1
    ensures Count(RearAhead, pcs) == Weight(RearAhead, pcs[t])
    ensures Count(FrontAhead, pcs) == Weight(FrontAhead, pcs[t])
  {
    var others := pcs[t := Idle];
    CountUpdate(Lock, pcs, t, Idle);
    CountUpdate(RearAhead, pcs, t, Idle);
    CountUpdate(FrontAhead, pcs, t, Idle);
    AheadIsLocked(others);
  }

  // ---------- The invariant ----------

  /** Semaphores plus what the threads hold and owe account for every slot, item and the lock. */
  ghost predicate Accounts(s: State) {
    && s.mutex >= 0 && s.slots >= 0 && s.items >= 0
    && |s.taken| <= |s.written|
    && s.mutex + Count(Lock, s.pcs) == 1
    && s.rear == |s.written| + Count(RearAhead, s.pcs)
    && s.front == |s.taken| + Count(FrontAhead, s.pcs)
    && s.slots + Count(SlotToken, s.pcs) + Count(SlotDebt, s.pcs) == |s.buf| - (|s.written| - |s.taken|)
    && s.items + Count(ItemToken, s.pcs) + Count(ItemDebt, s.pcs) == |s.written| - |s.taken|
  }

  /** The values loaded are the first values stored, and the rest are in the buffer in order. */
  ghost predicate Fifo(s: State)
    requires |s.buf| > 0
  {
    && s.taken <= s.written
    && forall k {:trigger s.written[k]} :: |s.taken| <= k < |s.written| ==> s.buf[(k + 1) % |s.buf|] == s.written[k]
  }

  ghost predicate Inv(s: State) {
    |s.buf| > 0 && Accounts(s) && Fifo(s)
  }

  lemma {:induction false} InitCounts(r: Role, n: nat, threads: nat)
    ensures Count(r, Init(n, threads).pcs) == 0
  {
    CountZero(r, Init(n, threads).pcs);
  }

  lemma {:induction false} InitInv(n: nat, threads: nat)
    requires n > 0
    ensures Inv(Init(n, threads))
  {
    forall r: Role ensures Count(r, Init(n, threads).pcs) == 0 { InitCounts(r, n, threads); }
  }

  /** How every count moves in one step. */
  ghost predicate CountsMove(s: State, s': State, t: nat)
    requires t < |s.pcs| && t < |s'.pcs|
  {
    forall r: Role {:trigger Count(r, s'.pcs)} ::
      Count(r, s'.pcs) == Count(r, s.pcs) - Weight(r, s.pcs[t]) + Weight(r, s'.pcs[t])
  }

  lemma {:induction false} StepCounts(s: State, e: Event)
    requires |s.buf| > 0 && Enabled(s, e)
    ensures |Apply(s, e).pcs| == |s.pcs| && CountsMove(s, Apply(s, e), e.t)
  {
    hide Count, Weight;
    var s', t := Apply(s, e), e.t;
    assert s'.pcs == s.pcs[t := s'.pcs[t]];
    forall r: Role ensures Count(r, s'.pcs) == Count(r, s.pcs) - Weight(r, s.pcs[t]) + Weight(r, s'.pcs[t]) {
      CountUpdate(r, s.pcs, t, s'.pcs[t]);
    }
  }

  predicate InsertStep(s: State, t: nat)
    requires t < |s.pcs|
  {
    var pc := s.pcs[t];
    pc.Inserting? || pc.GotSlot? || pc.InsLocked? || pc.RearMoved? || pc.Stored? || pc.InsUnlocked?
  }

  lemma {:induction false} CallAccounts(s: State, e: Event)
    requires Inv(s) && Enabled(s, e) && !e.Advance?
    ensures Accounts(Apply(s, e))
  {
    hide Count;
    StepCounts(s, e);
  }

  lemma {:induction false} InsertAccounts(s: State, t: nat)
    requires Inv(s) && Enabled(s, Advance(t)) && InsertStep(s, t)
    ensures Accounts(Apply(s, Advance(t)))
  {
    hide Count;
    StepCounts(s, Advance(t));
  }

  lemma {:induction false} RemoveAccounts(s: State, t: nat)
    requires Inv(s) && Enabled(s, Advance(t)) && !InsertStep(s, t)
    ensures Accounts(Apply(s, Advance(t)))
  {
    hide Count;
    StepCounts(s, Advance(t));
    CountHas(ItemToken, s.pcs, t);
  }

  /** Positions less than `n` apart are different cells of a ring of `n`. */
  lemma {:induction false} RingCells(a: int, b: int, n: int)
    requires 0 <= a < b < a + n
    ensures a % n != b % n
  {
    var p, q := a / n, b / n;
    assert a == n * p + a % n && b == n * q + b % n;
    MulGap(n, q, p);
  }

  lemma {:induction false} StoreKeepsFifo(s: State, t: nat)
    requires Inv(s) && t < |s.pcs| && s.pcs[t].RearMoved?
    ensures Fifo(Apply(s, Advance(t)))
  {
    var s', n, w := Apply(s, Advance(t)), |s.buf|, |s.written|;
    CountHas(Lock, s.pcs, t);
    AheadOfOne(s.pcs, t);
    CountHas(SlotToken, s.pcs, t);
    assert s.rear == w + 1 && w - |s.taken| < n;
    forall k | |s'.taken| <= k < |s'.written| ensures s'.buf[(k + 1) % n] == s'.written[k] {
      if k < w {
        assert s'.written[k] == s.written[k];
        RingCells(k + 1, w + 1, n);
      }
    }
  }

  lemma {:induction false} LoadKeepsFifo(s: State, t: nat)
    requires Inv(s) && t < |s.pcs| && s.pcs[t].FrontMoved?
    ensures Fifo(Apply(s, Advance(t)))
  {
    var s', r := Apply(s, Advance(t)), |s.taken|;
    CountHas(Lock, s.pcs, t);
    AheadOfOne(s.pcs, t);
    CountHas(ItemToken, s.pcs, t);
    assert s.front == r + 1 && r < |s.written|;
    assert s.buf[s.front % |s.buf|] == s.written[r];
    assert s'.taken == s.written[..r + 1];
  }

  lemma {:induction false} StepAccounts(s: State, e: Event)
    requires Inv(s) && Enabled(s, e)
    ensures Accounts(Apply(s, e))
  {
    hide Accounts, Apply, Count;
    if !e.Advance? {
      CallAccounts(s, e);
    } else if InsertStep(s, e.t) {
      InsertAccounts(s, e.t);
    } else {
      RemoveAccounts(s, e.t);
    }
  }

  lemma {:induction false} StepInv(s: State, e: Event)
    requires Inv(s) && Enabled(s, e)
    ensures Inv(Apply(s, e)) && |Apply(s, e).buf| == |s.buf| && |Apply(s, e).pcs| == |s.pcs|
  {
    StepAccounts(s, e);
    if e.Advance? && s.pcs[e.t].RearMoved? {
      StoreKeepsFifo(s, e.t);
    } else if e.Advance? && s.pcs[e.t].FrontMoved? {
      LoadKeepsFifo(s, e.t);
    } else {
      assert Apply(s, e).buf == s.buf && Apply(s, e).written == s.written && Apply(s, e).taken == s.taken;
    }
  }

  lemma {:induction false} RunInv(s: State, es: seq<Event>)
    requires Inv(s) && Legal(s, es)
    ensures Inv(After(s, es)) && |After(s, es).buf| == |s.buf| && |After(s, es).pcs| == |s.pcs|
    decreases |es|
  {
    if es != [] {
      StepInv(s, es[0]);
      RunInv(Apply(s, es[0]), es[1..]);
    }
  }

  // ---------- What callers are promised, over every run ----------

  /** In every interleaving, the values taken out are a prefix of the values put in, the rest is
      still in the ring, and there are never more than `n` of those. */
  lemma {:induction false} FirstInFirstOut(n: nat, threads: nat, es: seq<Event>)
    requires n > 0 && Legal(Init(n, threads), es)
    ensures var s := After(Init(n, threads), es);
            && s.taken <= s.written && |s.written| - |s.taken| <= n == |s.buf|
            && forall k :: |s.taken| <= k < |s.written| ==> s.buf[(k + 1) % n] == s.written[k]
  {
    InitInv(n, threads);
    RunInv(Init(n, threads), es);
  }

  /** No two threads are ever between P(&mutex) and V(&mutex). */
  lemma {:induction false} MutualExclusion(n: nat, threads: nat, es: seq<Event>, t: nat, u: nat)
    requires n > 0 && Legal(Init(n, threads), es) && t < threads && u < threads && t != u
    ensures var s := After(Init(n, threads), es);
            |s.pcs| == threads && (Weight(Lock, s.pcs[t]) == 0 || Weight(Lock, s.pcs[u]) == 0)
  {
    InitInv(n, threads);
    RunInv(Init(n, threads), es);
    CountPair(Lock, After(Init(n, threads), es).pcs, t, u);
  }

  // ---------- Progress ----------

  /** Some thread is in the middle of an operation, and none of those can take its next step. */
  ghost predicate Deadlocked(s: State) {
    && (exists t :: 0 <= t < |s.pcs| && !s.pcs[t].Idle?)
    && forall t: nat :: t < |s.pcs| && !s.pcs[t].Idle? ==> !Enabled(s, Advance(t))
  }

  /** Every thread in an operation is an inserter still waiting for a slot of a full buffer. */
  ghost predicate AllWaitForSlot(s: State) {
    && |s.written| - |s.taken| == |s.buf|
    && forall t :: 0 <= t < |s.pcs| && !s.pcs[t].Idle? ==> s.pcs[t].Inserting?
  }

  /** Every thread in an operation is a remover still waiting for an item of an empty buffer. */
  ghost predicate AllWaitForItem(s: State) {
    && |s.written| == |s.taken|
    && forall t :: 0 <= t < |s.pcs| && !s.pcs[t].Idle? ==> s.pcs[t].Removing?
  }

  lemma {:induction false} NobodyHolds(s: State)
    requires Inv(s)
    requires forall t :: 0 <= t < |s.pcs| ==> s.pcs[t].Idle? || s.pcs[t].Inserting? || s.pcs[t].Removing?
    ensures s.items == |s.written| - |s.taken| && s.slots == |s.buf| - (|s.written| - |s.taken|)
  {
    CountZero(SlotToken, s.pcs);
    CountZero(SlotDebt, s.pcs);
    CountZero(ItemToken, s.pcs);
    CountZero(ItemDebt, s.pcs);
  }

  lemma {:induction false} LockHolderMoves(s: State, t: nat)
    requires t < |s.pcs| && Weight(Lock, s.pcs[t]) == 1
    ensures !s.pcs[t].Idle? && Enabled(s, Advance(t))
  {
  }

  /** A deadlocked thread is waiting on `slots` or on `items`, never on the mutex. */
  lemma {:induction false} DeadlockedWaits(s: State, t: nat)
    requires Inv(s) && Deadlocked(s) && t < |s.pcs|
    ensures s.pcs[t].Idle? || s.pcs[t].Inserting? || s.pcs[t].Removing?
  {
    if s.mutex == 0 {
      var u := CountFinds(Lock, s.pcs);
      LockHolderMoves(s, u);
      assert false;
    }
    assert s.pcs[t].Idle? || !Enabled(s, Advance(t));
  }

  /** The threads can only block each other for good in the two legitimate ways: everybody wants
      to insert into a full buffer, or everybody wants to remove from an empty one. */
  lemma {:induction false} DeadlockExactly(s: State)
    requires Inv(s) && (exists t :: 0 <= t < |s.pcs| && !s.pcs[t].Idle?)
    ensures Deadlocked(s) <==> AllWaitForSlot(s) || AllWaitForItem(s)
  {
    if Deadlocked(s) {
      forall t: nat | t < |s.pcs| ensures s.pcs[t].Idle? || s.pcs[t].Inserting? || s.pcs[t].Removing? {
        DeadlockedWaits(s, t);
      }
      NobodyHolds(s);
      var t: nat :| t < |s.pcs| && !s.pcs[t].Idle?;
      assert !Enabled(s, Advance(t));
      forall u: nat | u < |s.pcs| && !s.pcs[u].Idle? ensures s.pcs[u].Inserting? == s.pcs[t].Inserting? {
        assert !Enabled(s, Advance(u));
      }
    }
    if AllWaitForSlot(s) || AllWaitForItem(s) {
      NobodyHolds(s);
    }
  }

  /** One thread inside sbuf_insert and one inside sbuf_remove: somebody can always move, and is one
      step nearer to its return then. */
  lemma {:induction false} MixedThreadsMove(s: State, t: nat, u: nat)
    requires Inv(s) && t < |s.pcs| && u < |s.pcs|
    requires s.pcs[t].Inserting? || s.pcs[t].GotSlot? || s.pcs[t].InsLocked? || s.pcs[t].RearMoved? || s.pcs[t].Stored? || s.pcs[t].InsUnlocked?
    requires s.pcs[u].Removing? || s.pcs[u].GotItem? || s.pcs[u].RemLocked? || s.pcs[u].FrontMoved? || s.pcs[u].Loaded? || s.pcs[u].RemUnlocked?
    ensures exists v: nat :: v < |s.pcs| && !s.pcs[v].Idle? && Nearer(s, v)
  {
    DeadlockExactly(s);
    var v: nat :| v < |s.pcs| && !s.pcs[v].Idle? && Enabled(s, Advance(v));
    OneStep(s, Advance(v), v);
  }

  // ---------- Every operation ends ----------

  /** How many steps of its own a thread has left until it returns to its caller. */
  function Left(pc: Pc): nat {
    match pc
    case Idle => 0
    case Inserting(_) => 6
    case GotSlot(_) => 5
    case InsLocked(_) => 4
    case RearMoved(_) => 3
    case Stored => 2
    case InsUnlocked => 1
    case Removing => 6
    case GotItem => 5
    case RemLocked => 4
    case FrontMoved => 3
    case Loaded(_) => 2
    case RemUnlocked(_) => 1
  }

  /** Thread `v` can take a step, and has one step less left after it. */
  ghost predicate Nearer(s: State, v: nat)
    requires |s.buf| > 0
  {
    && Enabled(s, Advance(v)) && v < |Apply(s, Advance(v)).pcs|
    && Left(Apply(s, Advance(v)).pcs[v]) == Left(s.pcs[v]) - 1
  }

  /** A call leaves six steps, each step one less, and other threads stay where they are. */
  lemma {:induction false} OneStep(s: State, e: Event, t: nat)
    requires |s.buf| > 0 && Enabled(s, e) && t < |s.pcs|
    ensures |Apply(s, e).buf| == |s.buf| && |Apply(s, e).pcs| == |s.pcs|
    ensures e.t != t ==> Apply(s, e).pcs[t] == s.pcs[t]
    ensures e.t == t ==> Left(Apply(s, e).pcs[t]) == if e.Advance? then Left(s.pcs[t]) - 1 else Left(s.pcs[t]) + 6
  {
  }

  /** The steps that thread `t` takes, and the calls it makes. */
  function Steps(t: nat, es: seq<Event>): nat {
    if es == [] then 0 else (if es[0] == Advance(t) then 1 else 0) + Steps(t, es[1..])
  }

  function Calls(t: nat, es: seq<Event>): nat {
    if es == [] then 0 else (if es[0].t == t && !es[0].Advance? then 1 else 0) + Calls(t, es[1..])
  }

  /** In every interleaving, each thread takes six steps for each of its calls, less those it still
      has to take. */
  lemma {:induction false} StepsAddUp(s: State, es: seq<Event>, t: nat)
    requires |s.buf| > 0 && Legal(s, es) && t < |s.pcs|
    ensures |After(s, es).pcs| == |s.pcs|
    ensures Steps(t, es) + Left(After(s, es).pcs[t]) == Left(s.pcs[t]) + 6 * Calls(t, es)
    decreases |es|
  {
    if es != [] {
      OneStep(s, es[0], t);
      StepsAddUp(Apply(s, es[0]), es[1..], t);
    }
  }

  /** What a call of sbuf_insert(x) has done by the time the thread stands where it does; `w` values
      had been stored when it began. */
  ghost predicate InsertOn(s: State, t: nat, x: int, w: nat)
    requires t < |s.pcs|
  {
    var pc := s.pcs[t];
    && w <= |s.written|
    && (pc == Inserting(x) || pc == GotSlot(x) || pc == InsLocked(x) || pc == RearMoved(x)
        || ((pc.Stored? || pc.InsUnlocked? || pc.Idle?) && x in s.written[w..]))
  }

  /** The same for sbuf_remove, with the counts of loaded and returned values. */
  ghost predicate RemoveOn(s: State, t: nat, k: nat, r: nat)
    requires t < |s.pcs|
  {
    var pc := s.pcs[t];
    && k <= |s.taken| && r <= |s.returned|
    && (|| pc.Removing? || pc.GotItem? || pc.RemLocked? || pc.FrontMoved?
        || ((pc.Loaded? || pc.RemUnlocked?) && pc.item in s.taken[k..])
        || (pc.Idle? && exists x :: x in s.taken[k..] && x in s.returned[r..]))
  }

  lemma InsertGoesOn(s: State, e: Event, t: nat, x: int, w: nat)
    requires |s.buf| > 0 && Enabled(s, e) && t < |s.pcs| && InsertOn(s, t, x, w) && (e.t == t ==> e.Advance?)
    ensures t < |Apply(s, e).pcs| && InsertOn(Apply(s, e), t, x, w)
  {
    var s' := Apply(s, e);
    OneStep(s, e, t);
    assert s'.written == s.written || s'.written[w..] == s.written[w..] + s'.written[|s.written|..];
  }

  lemma RemoveGoesOn(s: State, e: Event, t: nat, k: nat, r: nat)
    requires |s.buf| > 0 && Enabled(s, e) && t < |s.pcs| && RemoveOn(s, t, k, r) && (e.t == t ==> e.Advance?)
    ensures t < |Apply(s, e).pcs| && RemoveOn(Apply(s, e), t, k, r)
  {
    var s' := Apply(s, e);
    OneStep(s, e, t);
    assert s'.taken == s.taken || s'.taken[k..] == s.taken[k..] + s'.taken[|s.taken|..];
    assert s'.returned == s.returned || s'.returned[r..] == s.returned[r..] + s'.returned[|s.returned|..];
  }

  lemma {:induction false} InsertRuns(s: State, es: seq<Event>, t: nat, x: int, w: nat)
    requires |s.buf| > 0 && Legal(s, es) && t < |s.pcs| && InsertOn(s, t, x, w) && Calls(t, es) == 0
    ensures t < |After(s, es).pcs| && InsertOn(After(s, es), t, x, w)
    decreases |es|
  {
    if es != [] {
      OneStep(s, es[0], t);
      InsertGoesOn(s, es[0], t, x, w);
      InsertRuns(Apply(s, es[0]), es[1..], t, x, w);
    }
  }

  lemma {:induction false} RemoveRuns(s: State, es: seq<Event>, t: nat, k: nat, r: nat)
    requires |s.buf| > 0 && Legal(s, es) && t < |s.pcs| && RemoveOn(s, t, k, r) && Calls(t, es) == 0
    ensures t < |After(s, es).pcs| && RemoveOn(After(s, es), t, k, r)
    decreases |es|
  {
    if es != [] {
      OneStep(s, es[0], t);
      RemoveGoesOn(s, es[0], t, k, r);
      RemoveRuns(Apply(s, es[0]), es[1..], t, k, r);
    }
  }

  /** sbuf_insert(x) is over after six steps of its own, whatever the other threads do in between,
      and has stored x by then. */
  lemma {:induction false} InsertEnds(s: State, t: nat, x: int, es: seq<Event>)
    requires |s.buf| > 0 && Enabled(s, CallInsert(t, x)) && Legal(Apply(s, CallInsert(t, x)), es)
    requires Calls(t, es) == 0
    ensures var s' := After(Apply(s, CallInsert(t, x)), es);
            && t < |s'.pcs| && |s.written| <= |s'.written| && Steps(t, es) <= 6
            && (s'.pcs[t].Idle? <==> Steps(t, es) == 6)
            && (s'.pcs[t].Idle? ==> x in s'.written[|s.written|..])
  {
    hide After, Legal, Steps, Calls;
    var s0 := Apply(s, CallInsert(t, x));
    OneStep(s, CallInsert(t, x), t);
    StepsAddUp(s0, es, t);
    InsertRuns(s0, es, t, x, |s.written|);
  }

  /** sbuf_remove is over after six steps of its own, and has returned a value it took from the
      buffer by then. */
  lemma {:induction false} RemoveEnds(s: State, t: nat, es: seq<Event>)
    requires |s.buf| > 0 && Enabled(s, CallRemove(t)) && Legal(Apply(s, CallRemove(t)), es)
    requires Calls(t, es) == 0
    ensures var s' := After(Apply(s, CallRemove(t)), es);
            && t < |s'.pcs| && |s.taken| <= |s'.taken| && |s.returned| <= |s'.returned| && Steps(t, es) <= 6
            && (s'.pcs[t].Idle? <==> Steps(t, es) == 6)
            && (s'.pcs[t].Idle? ==> exists x :: x in s'.taken[|s.taken|..] && x in s'.returned[|s.returned|..])
  {
    hide After, Legal, Steps, Calls;
    var s0 := Apply(s, CallRemove(t));
    OneStep(s, CallRemove(t), t);
    StepsAddUp(s0, es, t);
    RemoveRuns(s0, es, t, |s.taken|, |s.returned|);
  }

  // ---------- Conservation, from call to return ----------

  /** How often `x` occurs in `s`. */
  function Occurrences(x: int, s: seq<int>): nat {
    if s == [] then 0 else Occurrences(x, s[..|s| - 1]) + (if s[|s| - 1] == x then 1 else 0)
  }

  lemma {:induction false} OccurrencesAppend(x: int, s: seq<int>, y: int)
    ensures Occurrences(x, s + [y]) == Occurrences(x, s) + (if y == x then 1 else 0)
  {
    assert (s + [y])[..|s|] == s;
  }

  lemma {:induction false} OccurrencesSplit(x: int, s: seq<int>, k: nat)
    requires k <= |s|
    ensures Occurrences(x, s) == Occurrences(x, s[..k]) + Occurrences(x, s[k..])
    decreases |s|
  {
    if k == |s| {
      assert s[..k] == s;
    } else {
      var p := s[..|s| - 1];
      OccurrencesSplit(x, p, k);
      assert p[..k] == s[..k];
      assert s[k..][..|s| - k - 1] == p[k..];
    }
  }

  /** Every value handed in is pending or was stored; every value loaded is in hand or was returned. */
  ghost predicate Conserved(s: State, x: int) {
    && Occurrences(x, s.entered) == Count(Pending(x), s.pcs) + Occurrences(x, s.written)
    && Occurrences(x, s.taken) == Count(InHand(x), s.pcs) + Occurrences(x, s.returned)
  }

  lemma {:induction false} StepConserves(s: State, e: Event, x: int)
    requires |s.buf| > 0 && Enabled(s, e) && Conserved(s, x)
    ensures Conserved(Apply(s, e), x)
  {
    hide Count, Occurrences;
    StepCounts(s, e);
    var pc := s.pcs[e.t];
    if e.CallInsert? {
      OccurrencesAppend(x, s.entered, e.item);
    } else if e.Advance? && pc.RearMoved? {
      OccurrencesAppend(x, s.written, pc.item);
    } else if e.Advance? && pc.FrontMoved? {
      OccurrencesAppend(x, s.taken, s.buf[s.front % |s.buf|]);
    } else if e.Advance? && pc.RemUnlocked? {
      OccurrencesAppend(x, s.returned, pc.item);
    }
  }

  lemma {:induction false} RunConserves(s: State, es: seq<Event>, x: int)
    requires Inv(s) && Legal(s, es) && Conserved(s, x)
    ensures Conserved(After(s, es), x)
    decreases |es|
  {
    if es != [] {
      StepInv(s, es[0]);
      StepConserves(s, es[0], x);
      RunConserves(Apply(s, es[0]), es[1..], x);
    }
  }

  /** Nothing is lost or duplicated between callers: at every moment each value has been handed in
      as often as it was returned, is in the ring, or is in the hands of a thread. */
  lemma {:induction false} NothingLost(n: nat, threads: nat, es: seq<Event>, x: int)
    requires n > 0 && Legal(Init(n, threads), es)
    ensures var s := After(Init(n, threads), es);
            && |s.taken| <= |s.written|
            && Occurrences(x, s.entered) == Occurrences(x, s.returned) + Count(InHand(x), s.pcs)
                                            + Occurrences(x, s.written[|s.taken|..]) + Count(Pending(x), s.pcs)
  {
    hide Count, After, Legal;
    var s := After(Init(n, threads), es);
    InitInv(n, threads);
    InitCounts(Pending(x), n, threads);
    InitCounts(InHand(x), n, threads);
    RunInv(Init(n, threads), es);
    RunConserves(Init(n, threads), es, x);
    OccurrencesSplit(x, s.written, |s.taken|);
    assert s.written[..|s.taken|] == s.taken;
  }
}
