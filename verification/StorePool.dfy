/**
 The lock-free pool of warm stores (src/store_pool.c) as a step system.

 Every thread carries a program counter; one step is one atomic access to shared memory
 (the fetch-and-add on the scan hint, the compare-and-swap on a slot flag, the restore of a
 claimed slot's linear memory, each statistics increment, the clearing of a flag).  Steps of
 different threads interleave in any order.  The class at the end is the code itself; its
 methods are proved to be uninterrupted sequences of these steps.
 */
module StorePool {
  import opened Bytes

  datatype Pc =
    | Outside
    | Scan(start: nat, i: nat)   // next: try the i-th probe, or give up when all are tried
    | Undo(start: nat, i: nat)   // claimed a slot that was never initialised
    | Claimed(slot: nat)         // next: restore its memory
    | Restored(slot: nat)        // next: count the reset
    | Ready(slot: nat)           // next: count the acquire and return the store
    | Holding(slot: nat)
    | Clearing(slot: nat)        // inside release, flag still set
    | Cleared                    // flag cleared, release not yet counted

  /** live: the slot was instantiated; hasMemory: its module exports a linear memory. */
  datatype Slot = Slot(inUse: bool, live: bool, hasMemory: bool, mem: seq<byte>)

  datatype Pool = Pool(
    warm: Option<seq<byte>>, slots: seq<Slot>, hint: nat,
    acquires: nat, releases: nat, fallbacks: nat, resets: nat,
    threads: seq<Pc>)

  function RestoreMem(mem: seq<byte>, snap: seq<byte>): seq<byte> {
    if |mem| < |snap| then mem else snap + mem[|snap|..]
  }

  /** The slot index of the i-th probe, with the 64-bit wrap of start + i. */
  function Probe(start: nat, i: nat, cap: nat): (s: nat)
    requires cap > 0
    ensures s < cap
  {
    ((start + i) % U64_MOD) % cap
  }

  function SetThread(p: Pool, t: nat, pc: Pc): Pool
    requires t < |p.threads|
  {
    p.(threads := p.threads[t := pc])
  }

  function SetFlag(p: Pool, s: nat, b: bool): Pool
    requires s < |p.slots|
  {
    p.(slots := p.slots[s := p.slots[s].(inUse := b)])
  }

  function SetMem(p: Pool, s: nat, m: seq<byte>): Pool
    requires s < |p.slots|
  {
    p.(slots := p.slots[s := p.slots[s].(mem := m)])
  }

  predicate WillRestore(p: Pool, s: nat)
    requires s < |p.slots|
  {
    p.warm.Some? && p.slots[s].hasMemory
  }

  predicate PcShape(pc: Pc, cap: nat) {
    match pc
    case Scan(_, i) => i <= cap
    case Undo(_, i) => i < cap
    case Claimed(s) => s < cap
    case Restored(s) => s < cap
    case Ready(s) => s < cap
    case Holding(s) => s < cap
    case Clearing(s) => s < cap
    case _ => true
  }

  predicate Shape(p: Pool) {
    |p.slots| > 0 && forall t :: 0 <= t < |p.threads| ==> PcShape(p.threads[t], |p.slots|)
  }

  /** The next atomic step of thread t. */
  function Advance(p: Pool, t: nat): (q: Pool)
    requires Shape(p) && t < |p.threads|
  {
    match p.threads[t]
    case Outside =>
      SetThread(p.(hint := (p.hint + 1) % U64_MOD), t, Scan(p.hint, 0))
    case Scan(start, i) =>
      if i == |p.slots| then SetThread(p.(fallbacks := p.fallbacks + 1), t, Outside)
      else
        var s := Probe(start, i, |p.slots|);
        if p.slots[s].inUse then SetThread(p, t, Scan(start, i + 1))
        else SetThread(SetFlag(p, s, true), t, if p.slots[s].live then Claimed(s) else Undo(start, i))
    case Undo(start, i) =>
      SetThread(SetFlag(p, Probe(start, i, |p.slots|), false), t, Scan(start, i + 1))
    case Claimed(s) =>
      if WillRestore(p, s) then
        SetThread(SetMem(p, s, RestoreMem(p.slots[s].mem, p.warm.value)), t, Restored(s))
      else SetThread(p, t, Ready(s))
    case Restored(s) => SetThread(p.(resets := p.resets + 1), t, Ready(s))
    case Ready(s) => SetThread(p.(acquires := p.acquires + 1), t, Holding(s))
    case Holding(s) => SetThread(p, t, Clearing(s))
    case Clearing(s) => SetThread(SetFlag(p, s, false), t, Cleared)
    case Cleared => SetThread(p.(releases := p.releases + 1), t, Outside)
  }

  /** A guest may rewrite the memory of the store its thread holds; Wasm memory never shrinks. */
  ghost predicate GuestRuns(p: Pool, q: Pool, t: nat)
    requires Shape(p) && t < |p.threads|
  {
    && p.threads[t].Holding?
    && var s := p.threads[t].slot;
    && |q.slots| == |p.slots|
    && |p.slots[s].mem| <= |q.slots[s].mem|
    && q == SetMem(p, s, q.slots[s].mem)
  }

  ghost predicate StepBy(p: Pool, q: Pool, t: nat) {
    Shape(p) && t < |p.threads| && (q == Advance(p, t) || GuestRuns(p, q, t))
  }

  ghost predicate Step(p: Pool, q: Pool) {
    exists t: nat :: StepBy(p, q, t)
  }

  /** A fresh pool: capacity is positive, no flag is set, all counters are zero. */
  predicate Init(p: Pool) {
    && |p.slots| > 0
    && (forall s :: 0 <= s < |p.slots| ==> !p.slots[s].inUse)
    && p.hint == 0
    && p.acquires == 0 && p.releases == 0 && p.fallbacks == 0 && p.resets == 0
    && (forall t :: 0 <= t < |p.threads| ==> p.threads[t].Outside?)
  }

  ghost predicate StepsAt(run: seq<Pool>, k: nat) {
    k + 1 < |run| ==> Step(run[k], run[k + 1])
  }

  ghost predicate IsRun(run: seq<Pool>) {
    |run| > 0 && Init(run[0]) && forall k: nat :: StepsAt(run, k)
  }

  // ---------------------------------------------------------------- ownership

  /** The slot whose flag this thread has set and not yet cleared, or -1. */
  function Owned(pc: Pc, cap: nat): (s: int)
    requires cap > 0
  {
    match pc
    case Outside => -1
    case Scan(_, _) => -1
    case Undo(start, i) => Probe(start, i, cap)
    case Claimed(s) => s
    case Restored(s) => s
    case Ready(s) => s
    case Holding(s) => s
    case Clearing(s) => s
    case Cleared => -1
  }

  predicate PcInv(p: Pool, pc: Pc)
    requires |p.slots| > 0
  {
    && PcShape(pc, |p.slots|)
    && (pc.Scan? || pc.Undo? ==> pc.start < U64_MOD)
    && (Owned(pc, |p.slots|) >= 0 ==>
          && p.slots[Owned(pc, |p.slots|)].inUse
          && p.slots[Owned(pc, |p.slots|)].live == !pc.Undo?)
    && (pc.Restored? ==> WillRestore(p, pc.slot))
    && (pc.Restored? || pc.Ready? ==> Fresh(p, pc.slot))
  }

  /** The memory starts with the snapshot, unless there is nothing to restore or no room for it. */
  predicate Fresh(p: Pool, s: nat)
    requires s < |p.slots|
  {
    WillRestore(p, s) && |p.slots[s].mem| >= |p.warm.value| ==> p.warm.value <= p.slots[s].mem
  }

  ghost predicate HasOwner(p: Pool, s: int)
    requires |p.slots| > 0
  {
    exists t :: 0 <= t < |p.threads| && Owned(p.threads[t], |p.slots|) == s
  }

  function Count(ths: seq<Pc>, f: Pc -> bool): nat {
    if ths == [] then 0 else (if f(ths[0]) then 1 else 0) + Count(ths[1..], f)
  }

  /** In the hands of a caller: returned by acquire and not yet given up by release. */
  predicate IsHeld(pc: Pc) { pc.Holding? || pc.Clearing? }
  predicate IsUncounted(pc: Pc) { pc.Cleared? }

  ghost predicate Inv(p: Pool) {
    && |p.slots| > 0
    && p.hint < U64_MOD
    && (forall t :: 0 <= t < |p.threads| ==> PcInv(p, p.threads[t]))
    && (forall t, u :: 0 <= t < u < |p.threads| && Owned(p.threads[t], |p.slots|) >= 0
          ==> Owned(p.threads[t], |p.slots|) != Owned(p.threads[u], |p.slots|))
    && (forall s :: 0 <= s < |p.slots| && p.slots[s].inUse ==> HasOwner(p, s))
    && p.acquires == p.releases + Count(p.threads, IsHeld) + Count(p.threads, IsUncounted)
  }

  lemma {:induction false} CountUpdate(ths: seq<Pc>, t: nat, pc: Pc, f: Pc -> bool)
    requires t < |ths|
    ensures Count(ths[t := pc], f) + (if f(ths[t]) then 1 else 0) == Count(ths, f) + (if f(pc) then 1 else 0)
  {
    if t == 0 {
      assert ths[t := pc][1..] == ths[1..];
    } else {
      assert ths[t := pc][1..] == ths[1..][t - 1 := pc];
      CountUpdate(ths[1..], t - 1, pc, f);
    }
  }

  lemma {:induction false} CountNone(ths: seq<Pc>, f: Pc -> bool)
    requires forall t :: 0 <= t < |ths| ==> !f(ths[t])
    ensures Count(ths, f) == 0
  {
    if ths != [] { CountNone(ths[1..], f); }
  }

  lemma InitInv(p: Pool)
    requires Init(p)
    ensures Inv(p)
  {
    CountNone(p.threads, IsHeld);
    CountNone(p.threads, IsUncounted);
  }

  /** What one step of thread t does to slots and ownership. */
  lemma AdvanceEffect(p: Pool, t: nat)
    requires Inv(p) && t < |p.threads|
    ensures var q := Advance(p, t);
            var mine, next := Owned(p.threads[t], |p.slots|), Owned(q.threads[t], |p.slots|);
            && |q.slots| == |p.slots| && q.warm == p.warm && q.hint < U64_MOD
            && q.threads == p.threads[t := q.threads[t]]
            && (forall s :: 0 <= s < |p.slots| && s != mine && s != next ==> q.slots[s] == p.slots[s])
            && (next >= 0 && next != mine ==> !p.slots[next].inUse)
            && (mine >= 0 ==> next == mine || (next == -1 && !q.slots[mine].inUse))
            && PcInv(q, q.threads[t])
  {
    assert PcInv(p, p.threads[t]);
  }

  lemma AdvanceCounts(p: Pool, t: nat)
    requires Inv(p) && t < |p.threads|
    ensures var q := Advance(p, t);
            q.acquires == q.releases + Count(q.threads, IsHeld) + Count(q.threads, IsUncounted)
  {
    var q := Advance(p, t);
    HeldStep(p, t);
    CountUpdate(p.threads, t, q.threads[t], IsHeld);
    CountUpdate(p.threads, t, q.threads[t], IsUncounted);
  }

  function Once(b: bool): nat {
    if b then 1 else 0
  }

  /** What one step adds to acquires or releases, it moves in or out of a caller's hands. */
  lemma HeldStep(p: Pool, t: nat)
    requires Shape(p) && t < |p.threads|
    ensures var q := Advance(p, t);
            var a, b := p.threads[t], q.threads[t];
            && q.threads == p.threads[t := b]
            && q.acquires - p.acquires - (q.releases - p.releases)
               == Once(IsHeld(b)) + Once(IsUncounted(b)) - Once(IsHeld(a)) - Once(IsUncounted(a))
  {
  }

  /** The invariant survives any change by thread t that keeps to the slots it owns or newly claims. */
  lemma OwnershipKept(p: Pool, q: Pool, t: nat)
    requires Inv(p) && t < |p.threads| == |q.threads|
    requires |q.slots| == |p.slots| && q.warm == p.warm
    requires q.threads == p.threads[t := q.threads[t]]
    requires var mine, next := Owned(p.threads[t], |p.slots|), Owned(q.threads[t], |p.slots|);
             && PcInv(q, q.threads[t])
             && (forall s :: 0 <= s < |p.slots| && s != mine && s != next ==> q.slots[s] == p.slots[s])
             && (next >= 0 && next != mine ==> !p.slots[next].inUse)
             && (mine >= 0 ==> next == mine || (next == -1 && !q.slots[mine].inUse))
    ensures forall u :: 0 <= u < |q.threads| ==> PcInv(q, q.threads[u])
    ensures forall u, v :: 0 <= u < v < |q.threads| && Owned(q.threads[u], |q.slots|) >= 0
              ==> Owned(q.threads[u], |q.slots|) != Owned(q.threads[v], |q.slots|)
    ensures forall s :: 0 <= s < |q.slots| && q.slots[s].inUse ==> HasOwner(q, s)
  {
    var cap := |p.slots|;
    var mine, next := Owned(p.threads[t], cap), Owned(q.threads[t], cap);
    forall u | 0 <= u < |q.threads| && u != t
      ensures PcInv(q, q.threads[u])
      ensures Owned(q.threads[u], cap) >= 0 ==> Owned(q.threads[u], cap) != next
    {
      assert q.threads[u] == p.threads[u];
      assert PcInv(p, p.threads[u]);
      var other := Owned(p.threads[u], cap);
      if other >= 0 {
        assert other != mine;
        assert p.slots[other].inUse;
      }
    }
    forall s | 0 <= s < |q.slots| && q.slots[s].inUse
      ensures HasOwner(q, s)
    {
      if next == s {
        assert Owned(q.threads[t], cap) == s;
      } else {
        assert HasOwner(p, s);
        var u :| 0 <= u < |p.threads| && Owned(p.threads[u], cap) == s;
        assert q.threads[u] == p.threads[u];
      }
    }
  }

  lemma AdvanceInv(p: Pool, t: nat)
    requires Inv(p) && t < |p.threads|
    ensures Inv(Advance(p, t))
  {
    AdvanceEffect(p, t);
    AdvanceCounts(p, t);
    OwnershipKept(p, Advance(p, t), t);
  }

  lemma GuestInv(p: Pool, q: Pool, t: nat)
    requires Inv(p) && t < |p.threads| && GuestRuns(p, q, t)
    ensures Inv(q)
  {
    assert PcInv(p, p.threads[t]);
    assert q.threads == p.threads[t := q.threads[t]];
    OwnershipKept(p, q, t);
  }

  lemma {:induction false} RunInv(run: seq<Pool>, k: nat)
    requires IsRun(run) && k < |run|
    ensures Inv(run[k])
  {
    if k == 0 {
      InitInv(run[0]);
    } else {
      RunInv(run, k - 1);
      assert StepsAt(run, k - 1);
      var t: nat :| StepBy(run[k - 1], run[k], t);
      if run[k] == Advance(run[k - 1], t) {
        AdvanceInv(run[k - 1], t);
      } else {
        GuestInv(run[k - 1], run[k], t);
      }
    }
  }

  // ---------------------------------------------------------------- safety over every run

  /** No slot has two holders, in any interleaving. */
  lemma OneHolderPerSlot(run: seq<Pool>, k: nat, t: nat, u: nat)
    requires IsRun(run) && k < |run|
    requires t < |run[k].threads| && u < |run[k].threads|
    requires IsHeld(run[k].threads[t]) && IsHeld(run[k].threads[u])
    requires run[k].threads[t].slot == run[k].threads[u].slot
    ensures t == u
  {
    RunInv(run, k);
    var cap := |run[k].slots|;
    assert Owned(run[k].threads[t], cap) == Owned(run[k].threads[u], cap);
  }

  /** acquires - releases is the number of stores held plus the releases not yet counted. */
  lemma AcquiresBalance(run: seq<Pool>, k: nat)
    requires IsRun(run) && k < |run|
    ensures run[k].acquires - run[k].releases
         == Count(run[k].threads, IsHeld) + Count(run[k].threads, IsUncounted)
  {
    RunInv(run, k);
  }

  /** A flag is set exactly while some thread is responsible for it, so no slot is ever lost. */
  lemma FlagIffOwned(run: seq<Pool>, k: nat, s: nat)
    requires IsRun(run) && k < |run| && s < |run[k].slots|
    ensures |run[k].slots| > 0
    ensures run[k].slots[s].inUse <==> HasOwner(run[k], s)
  {
    RunInv(run, k);
  }

  // ---------------------------------------------------------------- what the counters count

  /** An acquire begins, returns NULL, has restored a memory, returns a store; a release returns. */
  datatype Move = Begins | ReturnsNothing | Restores | ReturnsStore | ReleaseReturns

  predicate IsMove(m: Move, a: Pc, b: Pc) {
    match m
    case Begins => a.Outside? && b.Scan?
    case ReturnsNothing => a.Scan? && b.Outside?
    case Restores => a.Restored? && b.Ready?
    case ReturnsStore => a.Ready? && b.Holding?
    case ReleaseReturns => a.Cleared? && b.Outside?
  }

  ghost predicate Made(p: Pool, q: Pool, m: Move) {
    |p.threads| == |q.threads| && exists t :: 0 <= t < |p.threads| && IsMove(m, p.threads[t], q.threads[t])
  }

  /** How often some thread made this move in the first k steps. */
  ghost function Moves(run: seq<Pool>, k: nat, m: Move): nat
    requires k < |run|
  {
    if k == 0 then 0 else Moves(run, k - 1, m) + if Made(run[k - 1], run[k], m) then 1 else 0
  }

  lemma MadeBy(p: Pool, q: Pool, t: nat, m: Move)
    requires t < |p.threads| == |q.threads| && q.threads == p.threads[t := q.threads[t]]
    ensures Made(p, q, m) <==> IsMove(m, p.threads[t], q.threads[t])
  {
    forall u | 0 <= u < |p.threads| && u != t
      ensures !IsMove(m, p.threads[u], q.threads[u])
    {
      assert q.threads[u] == p.threads[u];
    }
  }

  predicate IsTrying(pc: Pc) { pc.Scan? || pc.Undo? || pc.Claimed? || pc.Restored? || pc.Ready? }

  /** One step of thread t in terms of its own move. */
  lemma OwnMove(p: Pool, q: Pool, t: nat)
    requires StepBy(p, q, t)
    ensures |q.threads| == |p.threads| && q.threads == p.threads[t := q.threads[t]]
    ensures var a, b := p.threads[t], q.threads[t];
            && q.fallbacks == p.fallbacks + Once(IsMove(ReturnsNothing, a, b))
            && q.resets == p.resets + Once(IsMove(Restores, a, b))
            && q.acquires == p.acquires + Once(IsMove(ReturnsStore, a, b))
            && q.releases == p.releases + Once(IsMove(ReleaseReturns, a, b))
            && q.hint == (if IsMove(Begins, a, b) then (p.hint + 1) % U64_MOD else p.hint)
            && Once(IsTrying(b)) + Once(IsMove(ReturnsStore, a, b)) + Once(IsMove(ReturnsNothing, a, b))
               == Once(IsTrying(a)) + Once(IsMove(Begins, a, b))
  {
  }

  lemma StepCounts(p: Pool, q: Pool)
    requires Step(p, q)
    ensures q.fallbacks == p.fallbacks + Once(Made(p, q, ReturnsNothing))
    ensures q.resets == p.resets + Once(Made(p, q, Restores))
    ensures q.acquires == p.acquires + Once(Made(p, q, ReturnsStore))
    ensures q.releases == p.releases + Once(Made(p, q, ReleaseReturns))
    ensures q.hint == if Made(p, q, Begins) then (p.hint + 1) % U64_MOD else p.hint
  {
    var t: nat :| StepBy(p, q, t);
    OwnMove(p, q, t);
    MadeBy(p, q, t, Begins);
    MadeBy(p, q, t, ReturnsNothing);
    MadeBy(p, q, t, Restores);
    MadeBy(p, q, t, ReturnsStore);
    MadeBy(p, q, t, ReleaseReturns);
  }

  /**
   In every interleaving the counters are numbers of returns: fallbacks of NULL returns, acquires of
   stores returned, releases of releases, resets of restored memories; the hint counts the acquires
   begun, modulo 2^64.
   */
  lemma {:induction false} RunCounts(run: seq<Pool>, k: nat)
    requires IsRun(run) && k < |run|
    ensures run[k].fallbacks == Moves(run, k, ReturnsNothing)
    ensures run[k].resets == Moves(run, k, Restores)
    ensures run[k].acquires == Moves(run, k, ReturnsStore)
    ensures run[k].releases == Moves(run, k, ReleaseReturns)
    ensures run[k].hint == Moves(run, k, Begins) % 0x1_0000_0000_0000_0000
  {
    if k > 0 {
      RunCounts(run, k - 1);
      assert StepsAt(run, k - 1);
      StepCounts(run[k - 1], run[k]);
      NextHint(Moves(run, k - 1, Begins));
    }
  }

  lemma NextHint(x: nat)
    ensures (x % U64_MOD + 1) % U64_MOD == (x + 1) % U64_MOD
  {
  }

  /** Every acquire begun has returned a store, has returned NULL, or is still at it. */
  lemma {:induction false} EveryAcquireEnds(run: seq<Pool>, k: nat)
    requires IsRun(run) && k < |run|
    ensures Moves(run, k, Begins)
         == Moves(run, k, ReturnsStore) + Moves(run, k, ReturnsNothing) + Count(run[k].threads, IsTrying)
  {
    if k == 0 {
      CountNone(run[0].threads, IsTrying);
    } else {
      EveryAcquireEnds(run, k - 1);
      assert StepsAt(run, k - 1);
      TryingStep(run[k - 1], run[k]);
    }
  }

  lemma TryingStep(p: Pool, q: Pool)
    requires Step(p, q)
    ensures Count(q.threads, IsTrying) + Once(Made(p, q, ReturnsStore)) + Once(Made(p, q, ReturnsNothing))
         == Count(p.threads, IsTrying) + Once(Made(p, q, Begins))
  {
    var t: nat :| StepBy(p, q, t);
    OwnMove(p, q, t);
    CountUpdate(p.threads, t, q.threads[t], IsTrying);
    MadeBy(p, q, t, Begins);
    MadeBy(p, q, t, ReturnsNothing);
    MadeBy(p, q, t, ReturnsStore);
  }

  // ---------------------------------------------------------------- an empty-handed scan

  ghost predicate Probed(start: nat, cap: nat, s: nat)
    requires cap > 0
  {
    exists i :: 0 <= i < cap && Probe(start, i, cap) == s
  }

  /** The probes of one scan reach every slot. */
  ghost predicate Covers(start: nat, cap: nat)
    requires cap > 0
  {
    forall s: nat :: s < cap ==> Probed(start, cap, s)
  }

  lemma ModIs(x: nat, k: int, r: nat, cap: nat)
    requires r < cap && x == k * cap + r
    ensures x % cap == r
  {
    var a := x / cap - k;
    assert x == (x / cap) * cap + x % cap;
    assert a * cap == (x / cap) * cap - k * cap;
    assert a >= 1 ==> a * cap >= cap;
    assert a <= -1 ==> a * cap <= -(cap as int);
  }

  lemma Multiple(k: int, r: int, cap: nat)
    ensures (k + 1) * cap + r == k * cap + (r + cap)
  {
  }

  lemma ProbeHits(start: nat, s: nat, cap: nat)
    requires start < U64_MOD && s < cap <= U64_MOD
    requires start + cap <= U64_MOD || U64_MOD % cap == 0
    ensures Probed(start, cap, s)
  {
    var i, k := Aligned(start, s, cap);
    if start + i < U64_MOD {
      ModIs(start + i, k, s, cap);
    } else {
      AfterWrap(start + i, k, s, cap);
    }
    assert Probe(start, i, cap) == s;
  }

  /** Among cap consecutive numbers one is s modulo cap. */
  lemma Aligned(start: nat, s: nat, cap: nat) returns (i: nat, k: nat)
    requires s < cap
    ensures i < cap && start + i == k * cap + s
  {
    var q, r := start / cap, start % cap;
    assert start == q * cap + r;
    if r <= s {
      i, k := s - r, q;
    } else {
      i, k := s - r + cap, q + 1;
      assert (q + 1) * cap == q * cap + cap;
    }
  }

  lemma AfterWrap(x: nat, k: int, s: nat, cap: nat)
    requires U64_MOD <= x < 2 * U64_MOD && s < cap && x == k * cap + s && U64_MOD % cap == 0
    ensures x % U64_MOD % cap == s
  {
    var m := U64_MOD / cap;
    assert (k - m) * cap == k * cap - m * cap;
    ModIs(x - U64_MOD, k - m, s, cap);
  }

  /**
   The scan reaches every slot exactly when start + capacity stays within 64 bits or the
   capacity divides 2^64; past the wrap it otherwise restarts at slot 0 and misses some slot.
   */
  lemma CoversIff(start: nat, cap: nat)
    requires start < U64_MOD && 0 < cap <= U64_MOD
    ensures Covers(start, cap) <==> start + cap <= U64_MOD || U64_MOD % cap == 0
  {
    if start + cap <= U64_MOD || U64_MOD % cap == 0 {
      forall s: nat | s < cap
        ensures Probed(start, cap, s)
      {
        ProbeHits(start, s, cap);
      }
    } else {
      var _ := MissedSlot(start, cap);
    }
  }

  lemma MissedSlot(start: nat, cap: nat) returns (missed: nat)
    requires start < U64_MOD && 0 < cap <= U64_MOD
    requires start + cap > U64_MOD && U64_MOD % cap != 0
    ensures missed < cap && !Probed(start, cap, missed)
  {
    var w := U64_MOD - start;          // probes before the wrap, w < cap
    var e := U64_MOD % cap;            // where the scan should have gone on
    // Before the wrap the probes are the w slots below e, cyclically; after it 0, ..., cap - w - 1.
    missed := if e >= w then cap - 1 else cap - w + e - 1;
    forall i | 0 <= i < cap
      ensures Probe(start, i, cap) != missed
    {
      if i >= w {
        assert (start + i) % U64_MOD == i - w;
        ModIs(i - w, 0, i - w, cap);
      } else {
        BeforeWrap(start, i, cap, w, e);
      }
    }
    assert !Probed(start, cap, missed);
  }

  lemma BeforeWrap(start: nat, i: nat, cap: nat, w: nat, e: nat)
    requires 0 < w < cap && start + w == U64_MOD && i < w && e == U64_MOD % cap && cap <= U64_MOD
    ensures Probe(start, i, cap) == if e >= w - i then e - (w - i) else e - (w - i) + cap
  {
    var m := U64_MOD / cap;
    var d := w - i;
    if e >= d {
      ModIs(start + i, m, e - d, cap);
    } else {
      Multiple(m - 1, e - d, cap);
      ModIs(start + i, m - 1, e - d + cap, cap);
    }
  }

  /** A pool of ten slots whose hint stands at 2^64 - 1 never probes slot 9. */
  lemma TenSlotsMissOne()
    ensures !Probed(U64_MOD - 1, 10, 9)
  {
    var start := U64_MOD - 1;
    forall i | 0 <= i < 10
      ensures Probe(start, i, 10) != 9
    {
      if i > 0 {
        assert (start + i) % U64_MOD == i - 1;
      }
    }
  }

  /** Busy or never initialised: a slot the scan has to pass over. */
  predicate Unavailable(p: Pool, s: nat) {
    s < |p.slots| && (p.slots[s].inUse || !p.slots[s].live)
  }

  /** What no step changes, whoever takes it. */
  lemma StepFrame(p: Pool, q: Pool, u: nat)
    requires StepBy(p, q, u)
    ensures |q.slots| == |p.slots| && |q.threads| == |p.threads| && q.warm == p.warm
    ensures forall v :: 0 <= v < |p.threads| && v != u ==> q.threads[v] == p.threads[v]
    ensures forall s :: 0 <= s < |p.slots| ==>
              && q.slots[s].live == p.slots[s].live && q.slots[s].hasMemory == p.slots[s].hasMemory
              && |p.slots[s].mem| <= |q.slots[s].mem|
  {
  }

  lemma {:induction false} RunFrame(run: seq<Pool>, j: nat, k: nat)
    requires IsRun(run) && j <= k < |run|
    ensures |run[k].slots| == |run[j].slots| && |run[k].threads| == |run[j].threads| && run[k].warm == run[j].warm
    ensures forall s :: 0 <= s < |run[j].slots| ==>
              && run[k].slots[s].live == run[j].slots[s].live
              && run[k].slots[s].hasMemory == run[j].slots[s].hasMemory
              && |run[j].slots[s].mem| <= |run[k].slots[s].mem|
  {
    if j < k {
      RunFrame(run, j, k - 1);
      assert StepsAt(run, k - 1);
      var t: nat :| StepBy(run[k - 1], run[k], t);
      StepFrame(run[k - 1], run[k], t);
    }
  }

  predicate Probing(pc: Pc) { pc.Scan? || pc.Undo? }

  /** Thread t entered acquire with step b and has been probing from that start up to state k. */
  ghost predicate BegunAt(run: seq<Pool>, t: nat, b: nat, k: nat, start: nat) {
    && b < k < |run|
    && t < |run[b].threads| && run[b].threads[t].Outside? && run[b].hint == start
    && forall m :: b < m <= k ==>
         t < |run[m].threads| && Probing(run[m].threads[t]) && run[m].threads[t].start == start
  }

  ghost predicate SeenUnavailable(run: seq<Pool>, b: nat, k: nat, s: nat) {
    exists m: nat :: b < m < k <= |run| && Unavailable(run[m], s)
  }

  ghost predicate SeenProbes(run: seq<Pool>, b: nat, k: nat, start: nat, n: nat, cap: nat)
    requires cap > 0
  {
    forall j: nat :: j < n ==> SeenUnavailable(run, b, k, Probe(start, j, cap))
  }

  lemma SeenLonger(run: seq<Pool>, b: nat, k: nat, start: nat, n: nat, cap: nat)
    requires cap > 0 && 0 < k < |run| && SeenProbes(run, b, k - 1, start, n, cap)
    ensures SeenProbes(run, b, k, start, n, cap)
  {
    forall j: nat | j < n
      ensures SeenUnavailable(run, b, k, Probe(start, j, cap))
    {
      assert SeenUnavailable(run, b, k - 1, Probe(start, j, cap));
      var m: nat :| b < m < k - 1 && Unavailable(run[m], Probe(start, j, cap));
      assert b < m < k && Unavailable(run[m], Probe(start, j, cap));
    }
  }

  /** One step of the run, seen from a thread that is probing after it. */
  lemma ScanStep(p: Pool, q: Pool, u: nat, t: nat)
    requires Inv(p) && StepBy(p, q, u) && t < |q.threads| && Probing(q.threads[t])
    ensures |q.slots| == |p.slots| && |q.threads| == |p.threads|
    ensures var was, now := p.threads[t], q.threads[t];
            || (was.Outside? && now == Scan(p.hint, 0))
            || (&& Probing(was) && now.start == was.start
                && (now.i == was.i
                    || (now.i == was.i + 1 && Unavailable(p, Probe(was.start, was.i, |p.slots|)))))
  {
    assert PcInv(p, p.threads[t]);
    if u != t {
      StepFrame(p, q, u);
    }
  }

  lemma ScanStepOfRun(run: seq<Pool>, t: nat, k: nat)
    requires IsRun(run) && k < |run| && t < |run[k].threads| && Probing(run[k].threads[t])
    ensures k > 0 && |run[k - 1].slots| == |run[k].slots| > 0 && t < |run[k - 1].threads|
    ensures var was, now := run[k - 1].threads[t], run[k].threads[t];
            || (was.Outside? && now == Scan(run[k - 1].hint, 0))
            || (&& Probing(was) && now.start == was.start
                && (now.i == was.i
                    || (&& now.i == was.i + 1
                        && Unavailable(run[k - 1], Probe(was.start, was.i, |run[k - 1].slots|)))))
  {
    assert k > 0;
    assert StepsAt(run, k - 1);
    var u: nat :| StepBy(run[k - 1], run[k], u);
    RunInv(run, k - 1);
    ScanStep(run[k - 1], run[k], u, t);
  }

  lemma {:induction false} ScanHistory(run: seq<Pool>, t: nat, k: nat) returns (b: nat)
    requires IsRun(run) && k < |run| && t < |run[k].threads| && Probing(run[k].threads[t])
    ensures |run[k].slots| > 0
    ensures BegunAt(run, t, b, k, run[k].threads[t].start)
    ensures SeenProbes(run, b, k, run[k].threads[t].start, run[k].threads[t].i, |run[k].slots|)
  {
    ScanStepOfRun(run, t, k);
    var was, now := run[k - 1].threads[t], run[k].threads[t];
    if was.Outside? {
      b := k - 1;
    } else {
      b := ScanHistory(run, t, k - 1);
      SeenLonger(run, b, k, now.start, was.i, |run[k].slots|);
      if now.i != was.i {
        assert SeenUnavailable(run, b, k, Probe(was.start, was.i, |run[k].slots|));
      }
    }
  }

  /**
   When acquire is about to return NULL, every slot was seen busy or uninitialised at some
   moment of that very scan, provided the scan start does not wrap (or the capacity divides 2^64).
   */
  lemma NullMeansAllSeen(run: seq<Pool>, t: nat, k: nat)
    requires IsRun(run) && k < |run| && t < |run[k].threads|
    requires 0 < |run[k].slots| <= U64_MOD
    requires run[k].threads[t].Scan? && run[k].threads[t].i == |run[k].slots|
    requires var start, cap := run[k].threads[t].start, |run[k].slots|;
             start + cap <= U64_MOD || U64_MOD % cap == 0
    ensures exists b: nat ::
              && BegunAt(run, t, b, k, run[k].threads[t].start)
              && forall s: nat :: s < |run[k].slots| ==> SeenUnavailable(run, b, k, s)
  {
    var start, cap := run[k].threads[t].start, |run[k].slots|;
    RunInv(run, k);
    assert PcInv(run[k], run[k].threads[t]);
    var b := ScanHistory(run, t, k);
    CoversIff(start, cap);
    forall s: nat | s < cap
      ensures SeenUnavailable(run, b, k, s)
    {
      assert Probed(start, cap, s);
      var i :| 0 <= i < cap && Probe(start, i, cap) == s;
    }
  }

  // ---------------------------------------------------------------- NULL with a free slot

  function AdvanceN(p: Pool, t: nat, n: nat): (q: Pool)
    requires Shape(p) && t < |p.threads|
    ensures Shape(q) && |q.threads| == |p.threads|
  {
    if n == 0 then p else Advance(AdvanceN(p, t, n - 1), t)
  }

  lemma OneMore(p: Pool, t: nat, n: nat, v: Pool)
    requires Shape(p) && t < |p.threads| && v == AdvanceN(p, t, n)
    ensures Shape(v) && t < |v.threads| && Advance(v, t) == AdvanceN(p, t, n + 1) && Shape(Advance(v, t))
  {
  }

  /** The first i probes of a scan from start find nothing to claim. */
  ghost predicate NothingYet(p: Pool, start: nat, i: nat)
    requires |p.slots| > 0
  {
    forall j: nat :: j < i ==> Unavailable(p, Probe(start, j, |p.slots|))
  }

  lemma NothingMore(p: Pool, start: nat, i: nat)
    requires |p.slots| > 0 && NothingYet(p, start, i) && Unavailable(p, Probe(start, i, |p.slots|))
    ensures NothingYet(p, start, i + 1)
  {
  }

  lemma AllProbedUnavailable(p: Pool, start: nat)
    requires |p.slots| > 0 && NothingYet(p, start, |p.slots|)
    ensures Covers(start, |p.slots|) ==> forall s: nat :: s < |p.slots| ==> Unavailable(p, s)
  {
    forall s: nat | s < |p.slots| && Covers(start, |p.slots|)
      ensures Unavailable(p, s)
    {
      assert Probed(start, |p.slots|, s);
    }
  }

  /** n steps into an uninterrupted acquire by t, nothing has been claimed yet. */
  ghost predicate Passing(p: Pool, t: nat, n: nat)
    requires Shape(p) && t < |p.threads|
  {
    forall m: nat :: 1 <= m <= n ==> AdvanceN(p, t, m).threads[t].Scan? || AdvanceN(p, t, m).threads[t].Undo?
  }

  /** An uninterrupted acquire by t has passed over all its probes after n steps, and so returns NULL. */
  ghost predicate ReturnsNull(p: Pool, t: nat, n: nat) {
    && Shape(p) && t < |p.threads| && p.threads[t].Outside? && 1 <= n && Passing(p, t, n)
    && AdvanceN(p, t, n).threads[t] == Scan(p.hint, |p.slots|)
  }

  /** In the midst of it: the probes so far met busy or uninitialised slots of p, and the slots are as they were. */
  ghost predicate Midway(p: Pool, t: nat, v: Pool) {
    && |p.slots| == |v.slots| > 0 && t < |v.threads| && PcShape(v.threads[t], |p.slots|)
    && match v.threads[t]
       case Scan(start, i) => start == p.hint && v.slots == p.slots && NothingYet(p, start, i)
       case Undo(start, i) =>
         var s := Probe(start, i, |p.slots|);
         && start == p.hint && NothingYet(p, start, i)
         && !p.slots[s].inUse && !p.slots[s].live && v.slots == p.slots[s := p.slots[s].(inUse := true)]
       case _ => false
  }

  lemma MidwayOn(p: Pool, t: nat, v: Pool)
    requires Midway(p, t, v) && Shape(v) && Shape(Advance(v, t))
    requires Advance(v, t).threads[t].Scan? || Advance(v, t).threads[t].Undo?
    ensures Midway(p, t, Advance(v, t))
  {
    var pc := v.threads[t];
    var s := Probe(pc.start, pc.i, |p.slots|);
    if Unavailable(p, s) {
      NothingMore(p, pc.start, pc.i);
    }
    if pc.Undo? {
      assert v.slots[s := v.slots[s].(inUse := false)] == p.slots;
    }
  }

  lemma {:induction false} MidwayAt(p: Pool, t: nat, n: nat)
    requires Shape(p) && t < |p.threads| && p.threads[t].Outside? && 1 <= n && Passing(p, t, n)
    ensures Midway(p, t, AdvanceN(p, t, n))
  {
    var v := AdvanceN(p, t, n - 1);
    OneMore(p, t, n - 1, v);
    assert AdvanceN(p, t, n).threads[t].Scan? || AdvanceN(p, t, n).threads[t].Undo?;
    if n > 1 {
      MidwayAt(p, t, n - 1);
      MidwayOn(p, t, v);
    }
  }

  /** A covering scan that returns NULL found no slot free. */
  lemma NullMeansNoneFree(p: Pool, t: nat, n: nat)
    requires ReturnsNull(p, t, n) && Covers(p.hint, |p.slots|)
    ensures forall s: nat :: s < |p.slots| ==> Unavailable(p, s)
  {
    MidwayAt(p, t, n);
    AllProbedUnavailable(p, p.hint);
  }

  // A reachable pool for every start that does not cover: one thread, one live slot, and as many
  // finished acquires as it takes the hint to get there.

  ghost predicate Reached(p: Pool) {
    exists run :: IsRun(run) && run[|run| - 1] == p
  }

  lemma ReachedNext(p: Pool, t: nat)
    requires Reached(p) && Shape(p) && t < |p.threads|
    ensures Reached(Advance(p, t))
  {
    var run :| IsRun(run) && run[|run| - 1] == p;
    var q := Advance(p, t);
    var on := run + [q];
    assert StepBy(p, q, t);
    forall k: nat
      ensures StepsAt(on, k)
    {
      assert StepsAt(run, k);
    }
    assert IsRun(on) && on[|on| - 1] == q;
  }

  function OneLive(cap: nat, live: nat): seq<Slot> {
    seq(cap, i => Slot(false, i == live, false, []))
  }

  /** One thread at pc, no flag set, only slot `live` initialised. */
  predicate Lone(p: Pool, cap: nat, live: nat, hint: nat, pc: Pc) {
    && live < cap && p.warm == None && p.slots == OneLive(cap, live) && p.hint == hint
    && p.threads == [pc] && PcShape(pc, cap)
  }

  /** A probe of an uninitialised slot takes it and gives it back. */
  lemma ProbePasses(p: Pool, cap: nat, live: nat, hint: nat, start: nat, i: nat)
    requires Lone(p, cap, live, hint, Scan(start, i)) && i < cap && Probe(start, i, cap) != live
    ensures Shape(p) && Shape(Advance(p, 0)) && Advance(p, 0).threads == [Undo(start, i)]
    ensures Lone(Advance(Advance(p, 0), 0), cap, live, hint, Scan(start, i + 1))
  {
    var q := Advance(p, 0);
    assert q.threads == [Undo(start, i)];
    assert Advance(q, 0).slots == p.slots;
  }

  /** A probe of the live slot leads to an acquire, which is released at once. */
  lemma ProbeServed(p: Pool, cap: nat, live: nat, hint: nat, start: nat, i: nat) returns (q: Pool)
    requires Reached(p) && Lone(p, cap, live, hint, Scan(start, i)) && i < cap && Probe(start, i, cap) == live
    ensures Reached(q) && Lone(q, cap, live, hint, Outside)
  {
    q := p;
    q := Next(q, Claimed(live));
    q := Next(q, Ready(live));
    q := Next(q, Holding(live));
    q := Next(q, Clearing(live));
    q := Next(q, Cleared);
    assert q.slots == p.slots;
    q := Next(q, Outside);
  }

  lemma Next(p: Pool, pc: Pc) returns (q: Pool)
    requires Reached(p) && Shape(p) && |p.threads| == 1 && Advance(p, 0).threads == [pc] && PcShape(pc, |p.slots|)
    ensures q == Advance(p, 0) && Reached(q) && Shape(q)
  {
    q := Advance(p, 0);
    ReachedNext(p, 0);
    assert |q.slots| == |p.slots|;
  }

  /** However a scan ends, the thread gets out again with the slots as they were. */
  lemma {:induction false} ScanEnds(p: Pool, cap: nat, live: nat, hint: nat, start: nat, i: nat) returns (q: Pool)
    requires Reached(p) && Lone(p, cap, live, hint, Scan(start, i)) && i <= cap
    ensures Reached(q) && Lone(q, cap, live, hint, Outside)
    decreases cap - i
  {
    if i == cap {
      q := Next(p, Outside);
    } else if Probe(start, i, cap) == live {
      q := ProbeServed(p, cap, live, hint, start, i);
    } else {
      ProbePasses(p, cap, live, hint, start, i);
      q := Next(p, Undo(start, i));
      q := Next(q, Scan(start, i + 1));
      q := ScanEnds(q, cap, live, hint, start, i + 1);
    }
  }

  /** Every hint is reached. */
  lemma {:induction false} HintReached(cap: nat, live: nat, hint: nat) returns (p: Pool)
    requires live < cap && hint < U64_MOD
    ensures Reached(p) && Lone(p, cap, live, hint, Outside)
  {
    if hint == 0 {
      p := Pool(None, OneLive(cap, live), 0, 0, 0, 0, 0, [Outside]);
      assert IsRun([p]) && [p][0] == p;
    } else {
      p := HintReached(cap, live, hint - 1);
      p := Next(p, Scan(hint - 1, 0));
      p := ScanEnds(p, cap, live, hint, hint - 1, 0);
    }
  }

  lemma PassesOne(p: Pool, cap: nat, live: nat, next: nat, hint: nat, i: nat, n: nat)
    requires Shape(p) && |p.threads| == 1 && i < cap && Probe(hint, i, cap) != live && Passing(p, 0, n)
    requires Lone(AdvanceN(p, 0, n), cap, live, next, Scan(hint, i))
    ensures Passing(p, 0, n + 2)
    ensures Lone(AdvanceN(p, 0, n + 2), cap, live, next, Scan(hint, i + 1))
  {
    var v := AdvanceN(p, 0, n);
    ProbePasses(v, cap, live, next, hint, i);
    OneMore(p, 0, n, v);
    OneMore(p, 0, n + 1, Advance(v, 0));
  }

  lemma NotProbed(hint: nat, cap: nat, live: nat, i: nat)
    requires i < cap && !Probed(hint, cap, live)
    ensures Probe(hint, i, cap) != live
  {
  }

  lemma ScanStarts(p: Pool, cap: nat, live: nat, hint: nat)
    requires Lone(p, cap, live, hint, Outside)
    ensures Shape(p) && Passing(p, 0, 1)
    ensures Lone(AdvanceN(p, 0, 1), cap, live, (hint + 1) % U64_MOD, Scan(hint, 0))
  {
    OneMore(p, 0, 0, p);
  }

  /** A scan that never probes the live slot runs through: two steps for each probe. */
  lemma {:induction false} ScanRuns(p: Pool, cap: nat, live: nat, next: nat, hint: nat, i: nat, n: nat)
    requires Shape(p) && |p.threads| == 1 && 0 < cap && i <= cap && n == 2 * i + 1 && !Probed(hint, cap, live)
    requires Passing(p, 0, 1) && Lone(AdvanceN(p, 0, 1), cap, live, next, Scan(hint, 0))
    ensures Passing(p, 0, n) && Lone(AdvanceN(p, 0, n), cap, live, next, Scan(hint, i))
  {
    if i > 0 {
      var m: nat := n - 2;
      ScanRuns(p, cap, live, next, hint, i - 1, m);
      NotProbed(hint, cap, live, i - 1);
      PassesOne(p, cap, live, next, hint, i - 1, m);
    }
  }

  /** An uninterrupted acquire from a reachable pool returns NULL although slot s is free and initialised. */
  ghost predicate NullDespite(start: nat, cap: nat, p: Pool, t: nat, n: nat, s: nat) {
    Reached(p) && p.hint == start && |p.slots| == cap && s < cap && !Unavailable(p, s) && ReturnsNull(p, t, n)
  }

  /** That happens exactly for the starts whose scan does not cover the pool. */
  lemma NullDespiteIff(start: nat, cap: nat)
    requires start < U64_MOD && 0 < cap <= U64_MOD
    ensures (exists p, t, n, s :: NullDespite(start, cap, p, t, n, s)) <==> !Covers(start, cap)
  {
    if !Covers(start, cap) {
      var missed: nat :| missed < cap && !Probed(start, cap, missed);
      var p := HintReached(cap, missed, start);
      ScanStarts(p, cap, missed, start);
      ScanRuns(p, cap, missed, (start + 1) % U64_MOD, start, cap, 2 * cap + 1);
      assert NullDespite(start, cap, p, 0, 2 * cap + 1, missed);
    } else {
      forall p, t, n, s | NullDespite(start, cap, p, t, n, s)
        ensures false
      {
        NullMeansNoneFree(p, t, n);
      }
    }
  }

  // ---------------------------------------------------------------- restored memory

  /** Restoring puts the snapshot in front exactly when the memory has room for it. */
  lemma RestoreIff(mem: seq<byte>, snap: seq<byte>)
    ensures |RestoreMem(mem, snap)| == |mem|
    ensures snap <= RestoreMem(mem, snap) <==> |snap| <= |mem|
    ensures forall i :: |snap| <= i < |mem| ==> RestoreMem(mem, snap)[i] == mem[i]
  {
  }

  /**
   If a slot's memory was at least as large as the snapshot when the pool was created, then
   whatever guests did since, the acquire that completes with step k hands it out beginning
   with the snapshot.
   */
  lemma AcquireHandsOutSnapshot(run: seq<Pool>, k: nat, t: nat, s: nat)
    requires IsRun(run) && k + 1 < |run| && t < |run[k].threads|
    requires t < |run[k + 1].threads| && run[k].threads[t] == Ready(s) && run[k + 1].threads[t] == Holding(s)
    requires s < |run[0].slots| && run[0].slots[s].hasMemory
    requires run[0].warm.Some? && |run[0].warm.value| <= |run[0].slots[s].mem|
    ensures s < |run[k + 1].slots| && run[0].warm.value <= run[k + 1].slots[s].mem
  {
    RunInv(run, k);
    RunFrame(run, 0, k);
    assert PcInv(run[k], run[k].threads[t]);
    assert StepsAt(run, k);
    var u: nat :| StepBy(run[k], run[k + 1], u);
    StepFrame(run[k], run[k + 1], u);
  }

  // ---------------------------------------------------------------- the code

  /** memcpy of the snapshot over the front of a linear memory; -1 (false) when it does not fit. */
  method Restore(mem: array<byte>, snap: seq<byte>) returns (ok: bool)
    modifies mem
    ensures ok <==> |snap| <= mem.Length
    ensures mem[..] == RestoreMem(old(mem[..]), snap)
  {
    if mem.Length < |snap| {
      return false;
    }
    for i := 0 to |snap|
      invariant forall j :: 0 <= j < i ==> mem[j] == snap[j]
      invariant forall j :: i <= j < mem.Length ==> mem[j] == old(mem[j])
    {
      mem[i] := snap[i];
    }
    return true;
  }

  /** The copy of the snapshot over a slot's memory. */
  method RestoreCopy(mem: seq<byte>, snap: seq<byte>) returns (out: seq<byte>)
    ensures out == RestoreMem(mem, snap)
  {
    var data := new byte[|mem|](i requires 0 <= i < |mem| => mem[i]);
    assert data[..] == mem;
    var _ := Restore(data, snap);
    out := data[..];
  }

  class StorePool {
    const warm: Option<seq<byte>>
    const slots: array<Slot>
    var hint: nat
    var acquires: nat
    var releases: nat
    var fallbacks: nat
    var resets: nat

    ghost predicate Valid()
      reads this
    {
      slots.Length > 0 && hint < U64_MOD
    }

    /**
     A new pool: the size is clamped to [8, 1024]; slots whose instantiation failed (made(i) is
     None) stay unusable, the others start out restored from the snapshot.
     */
    constructor (poolSize: nat, warm: Option<seq<byte>>, made: nat -> Option<(bool, seq<byte>)>)
      ensures Valid() && this.warm == warm && fresh(slots)
      ensures slots.Length == (if poolSize < 8 then 8 else if poolSize > 1024 then 1024 else poolSize)
      ensures forall ths: seq<Pc> | (forall t :: 0 <= t < |ths| ==> ths[t].Outside?) :: Init(View(ths))
      ensures forall i: nat :: i < slots.Length ==>
                && slots[i].live == made(i).Some?
                && (made(i).Some? ==>
                      && slots[i].hasMemory == made(i).value.0
                      && slots[i].mem == if warm.Some? && made(i).value.0
                                         then RestoreMem(made(i).value.1, warm.value) else made(i).value.1)
    {
      this.warm := warm;
      var size := if poolSize < 8 then 8 else if poolSize > 1024 then 1024 else poolSize;
      slots := new Slot[size](i => Slot(false, false, false, []));
      hint, acquires, releases, fallbacks, resets := 0, 0, 0, 0, 0;
      new;
      for i := 0 to size
        modifies slots
        invariant forall j: nat :: j < size ==> !slots[j].inUse
        invariant forall j: nat :: i <= j < size ==> !slots[j].live
        invariant forall j: nat :: j < i ==>
                    && slots[j].live == made(j).Some?
                    && (made(j).Some? ==>
                          && slots[j].hasMemory == made(j).value.0
                          && slots[j].mem == if warm.Some? && made(j).value.0
                                             then RestoreMem(made(j).value.1, warm.value) else made(j).value.1)
      {
        var instance := made(i);
        if instance.Some? {
          var mem := instance.value.1;
          if warm.Some? && instance.value.0 {
            mem := RestoreCopy(mem, warm.value);
          }
          slots[i] := Slot(false, true, instance.value.0, mem);
        }
      }
    }

    /** The pool as a state of the step system, beside threads standing at ths. */
    ghost function View(ths: seq<Pc>): Pool
      reads this, slots
    {
      Pool(warm, slots[..], hint, acquires, releases, fallbacks, resets, ths)
    }

    /**
     A whole acquire, not interleaved with anyone: n steps of thread t.  With the scan covering
     all slots, NULL is returned exactly when no initialised slot is free.
     */
    method Acquire(ghost ths: seq<Pc>, ghost t: nat) returns (r: Option<nat>, ghost n: nat)
      requires Valid() && t < |ths| && ths[t].Outside? && Shape(View(ths))
      modifies this, slots
      ensures Valid()
      ensures r.Some? ==> r.value < slots.Length && !Unavailable(old(View(ths)), r.value)
      ensures r.None? && Covers(old(hint), slots.Length) ==>
                forall s: nat :: s < slots.Length ==> Unavailable(old(View(ths)), s)
      ensures View(ths[t := if r.Some? then Holding(r.value) else Outside]) == AdvanceN(old(View(ths)), t, n)
    {
      ghost var p := View(ths);
      var start := hint;
      hint := (hint + 1) % U64_MOD;
      n := 1;
      assert View(ths[t := Scan(start, 0)]) == AdvanceN(p, t, 0 + 1);
      var i := 0;
      while i < slots.Length
        invariant 0 <= i <= slots.Length
        invariant Valid() && start == p.hint
        invariant slots[..] == p.slots
        invariant View(ths[t := Scan(start, i)]) == AdvanceN(p, t, n)
        invariant NothingYet(p, start, i)
      {
        var claimed, idx;
        claimed, idx, n := TryProbe(start, i, ths, t, p, n);
        if claimed {
          return Some(idx), n;
        }
        NothingMore(p, start, i);
        i := i + 1;
      }
      fallbacks := fallbacks + 1;
      n := n + 1;
      AllProbedUnavailable(p, start);
      return None, n;
    }

    /** One compare-and-swap of the scan, and what follows when it succeeds. */
    method TryProbe(start: nat, i: nat, ghost ths: seq<Pc>, ghost t: nat, ghost p: Pool, ghost n: nat)
      returns (claimed: bool, idx: nat, ghost m: nat)
      requires Valid() && Shape(p) && t < |ths| == |p.threads| && i < slots.Length
      requires View(ths[t := Scan(start, i)]) == AdvanceN(p, t, n)
      modifies this, slots
      ensures Valid() && idx == Probe(start, i, slots.Length)
      ensures claimed == !Unavailable(old(View(ths)), idx)
      ensures claimed ==> View(ths[t := Holding(idx)]) == AdvanceN(p, t, m)
      ensures !claimed ==> slots[..] == old(slots[..])
      ensures !claimed ==> View(ths[t := Scan(start, i + 1)]) == AdvanceN(p, t, m)
    {
      idx := ((start + i) % U64_MOD) % slots.Length;
      ghost var here := ths[t := Scan(start, i)];
      assert here[t := Scan(start, i + 1)] == ths[t := Scan(start, i + 1)];
      assert here[t := Holding(idx)] == ths[t := Holding(idx)];
      if slots[idx].inUse {
        OneMore(p, t, n, View(here));
        assert View(ths[t := Scan(start, i + 1)]) == Advance(View(here), t);
        return false, idx, n + 1;
      }
      if !slots[idx].live {
        m := PassOver(here, t, p, n, idx);
        return false, idx, m;
      }
      m := ClaimFrom(here, t, p, n, idx);
      return true, idx, m;
    }

    /** Claim an uninitialised slot and give it straight back: two steps. */
    method PassOver(ghost ths: seq<Pc>, ghost t: nat, ghost p: Pool, ghost n: nat, idx: nat)
      returns (ghost m: nat)
      requires Valid() && Shape(p) && t < |ths| == |p.threads| && View(ths) == AdvanceN(p, t, n)
      requires idx < slots.Length && !slots[idx].inUse && !slots[idx].live
      requires ths[t].Scan? && ths[t].i < slots.Length && Probe(ths[t].start, ths[t].i, slots.Length) == idx
      modifies slots
      ensures slots[..] == old(slots[..])
      ensures View(ths[t := Scan(ths[t].start, ths[t].i + 1)]) == AdvanceN(p, t, m)
    {
      slots[idx] := slots[idx].(inUse := true);
      assert View(ths[t := Undo(ths[t].start, ths[t].i)]) == AdvanceN(p, t, n + 1);
      slots[idx] := slots[idx].(inUse := false);
      assert View(ths[t := Scan(ths[t].start, ths[t].i + 1)]) == AdvanceN(p, t, n + 1 + 1);
      return n + 2;
    }

    /** Claim a free initialised slot, restore its memory and hand it out. */
    method ClaimFrom(ghost ths: seq<Pc>, ghost t: nat, ghost p: Pool, ghost n: nat, idx: nat)
      returns (ghost m: nat)
      requires Valid() && Shape(p) && t < |ths| == |p.threads| && View(ths) == AdvanceN(p, t, n)
      requires idx < slots.Length && !slots[idx].inUse && slots[idx].live
      requires ths[t].Scan? && ths[t].i < slots.Length && Probe(ths[t].start, ths[t].i, slots.Length) == idx
      modifies this, slots
      ensures Valid()
      ensures View(ths[t := Holding(idx)]) == AdvanceN(p, t, m)
    {
      OneMore(p, t, n, View(ths));
      SetClaimed(ths, t, idx);
      m := HandOut(ths[t := Claimed(idx)], t, p, n + 1, idx);
      assert ths[t := Claimed(idx)][t := Holding(idx)] == ths[t := Holding(idx)];
    }

    /** Restores a claimed slot and counts the acquire. */
    method HandOut(ghost ths: seq<Pc>, ghost t: nat, ghost p: Pool, ghost n: nat, idx: nat)
      returns (ghost m: nat)
      requires Valid() && Shape(p) && t < |ths| == |p.threads| && View(ths) == AdvanceN(p, t, n)
      requires idx < slots.Length && ths[t] == Claimed(idx)
      modifies this`resets, this`acquires, slots
      ensures View(ths[t := Holding(idx)]) == AdvanceN(p, t, m)
    {
      m := RestoreClaimed(ths, t, p, n, idx);
      ghost var ready := ths[t := Ready(idx)];
      OneMore(p, t, m, View(ready));
      CountAcquire(ready, t, idx);
      assert ready[t := Holding(idx)] == ths[t := Holding(idx)];
      m := m + 1;
    }

    /** The successful compare-and-swap: one step. */
    method SetClaimed(ghost ths: seq<Pc>, ghost t: nat, idx: nat)
      requires Valid() && t < |ths| && Shape(View(ths))
      requires idx < slots.Length && !slots[idx].inUse && slots[idx].live
      requires ths[t].Scan? && ths[t].i < slots.Length && Probe(ths[t].start, ths[t].i, slots.Length) == idx
      modifies slots
      ensures View(ths[t := Claimed(idx)]) == Advance(old(View(ths)), t)
    {
      slots[idx] := slots[idx].(inUse := true);
    }

    method CountAcquire(ghost ths: seq<Pc>, ghost t: nat, idx: nat)
      requires Valid() && t < |ths| && ths[t] == Ready(idx) && Shape(View(ths))
      modifies this`acquires
      ensures View(ths[t := Holding(idx)]) == Advance(old(View(ths)), t)
    {
      acquires := acquires + 1;
    }

    method RestoreClaimed(ghost ths: seq<Pc>, ghost t: nat, ghost p: Pool, ghost n: nat, idx: nat)
      returns (ghost m: nat)
      requires Valid() && Shape(p) && t < |ths| == |p.threads| && View(ths) == AdvanceN(p, t, n)
      requires idx < slots.Length && ths[t] == Claimed(idx)
      modifies this`resets, slots
      ensures View(ths[t := Ready(idx)]) == AdvanceN(p, t, m)
    {
      OneMore(p, t, n, View(ths));
      if warm.Some? && slots[idx].hasMemory {
        CopySnapshot(ths, t, idx);
        ghost var copied := ths[t := Restored(idx)];
        OneMore(p, t, n + 1, View(copied));
        CountReset(copied, t, idx);
        assert copied[t := Ready(idx)] == ths[t := Ready(idx)];
        return n + 2;
      }
      assert View(ths[t := Ready(idx)]) == Advance(View(ths), t);
      return n + 1;
    }

    method CountReset(ghost ths: seq<Pc>, ghost t: nat, idx: nat)
      requires Valid() && t < |ths| && ths[t] == Restored(idx) && Shape(View(ths))
      modifies this`resets
      ensures View(ths[t := Ready(idx)]) == Advance(old(View(ths)), t)
    {
      resets := resets + 1;
    }

    /** The copy of the snapshot over the slot's memory: one step. */
    method CopySnapshot(ghost ths: seq<Pc>, ghost t: nat, idx: nat)
      requires Valid() && t < |ths| && Shape(View(ths))
      requires idx < slots.Length && ths[t] == Claimed(idx) && warm.Some? && slots[idx].hasMemory
      modifies slots
      ensures View(ths[t := Restored(idx)]) == Advance(old(View(ths)), t)
    {
      var mem := RestoreCopy(slots[idx].mem, warm.value);
      slots[idx] := slots[idx].(mem := mem);
    }

    /** A whole release: three steps, after which the slot is free again. */
    method Release(idx: nat, ghost ths: seq<Pc>, ghost t: nat)
      requires Valid() && t < |ths| && ths[t] == Holding(idx) && Shape(View(ths))
      modifies this, slots
      ensures Valid()
      ensures View(ths[t := Outside]) == AdvanceN(old(View(ths)), t, 3)
    {
      ghost var p := View(ths);
      assert View(ths[t := Clearing(idx)]) == AdvanceN(p, t, 1);
      slots[idx] := slots[idx].(inUse := false);
      assert View(ths[t := Cleared]) == AdvanceN(p, t, 2);
      releases := releases + 1;
    }
  }
}
