/**
 Who gives a Wasm store back (src/wasm_engine.c with src/vdp_wasm.c). A call takes a store, pooled
 or new, and either gives it back on its way out or hands it to a task that the delivery filter or
 the end of the client request gives back. Wasmtime and Varnish are inputs.
 */
module Lifecycle {
  import opened Bytes

  // ---------------------------------------------------------------- what a call does

  datatype Phase = RequestPhase | ResponsePhase

  /** How the header callbacks ended; an action of 1 pauses. */
  datatype Headers = CallbackFailed | LocalResponse | Answered(action: int)

  /** What the runtime answers to one call. */
  datatype Script = Script(
    moduleFound: bool, hasPool: bool, hasInitialize: bool, slotFree: bool, storeMade: bool, instantiated: bool,
    headers: Headers, phase: Phase, bodyHandler: bool, taskMemory: bool, privTask: bool)

  /** The ways a call can go, as far as its store is concerned. */
  datatype Kind = NoStore | Finished(ok: bool) | Deferred | TaskRefused

  predicate UsesPool(c: Script) {
    c.hasPool && !c.hasInitialize && c.slotFree
  }

  function KindOf(c: Script): Kind {
    if !c.moduleFound || (!UsesPool(c) && !c.storeMade) then NoStore
    else if !UsesPool(c) && !c.instantiated then Finished(false)
    else PhaseKind(c)
  }

  /** From the header callbacks on. */
  function PhaseKind(c: Script): Kind {
    match c.headers
    case CallbackFailed => Finished(false)
    case LocalResponse => Finished(true)
    case Answered(action) =>
      if action == 1 then Finished(true)
      else if !(c.bodyHandler && c.phase == ResponsePhase) then Finished(action >= 0)
      else if !c.taskMemory then Finished(false)
      else if !c.privTask then TaskRefused
      else Deferred
  }

  // ---------------------------------------------------------------- state

  /** A deferred delivery task; store is None once the filter has given it back. */
  datatype Task = Task(store: Option<nat>)

  /** What became of a store: still with a delivery task, given back, given back twice, or forgotten. */
  datatype Fate = InTask(req: nat) | Returned | ReturnedTwice | Lost

  /** Stores are numbered in the order they were taken; gives[n] counts how often store n was given back. */
  datatype State = State(gives: seq<nat>, fate: seq<Fate>, tasks: map<nat, Task>, total: nat, ok: nat, error: nat)

  const START := State([], [], map[], 0, 0, 0)

  datatype Event = Called(req: nat, kind: Kind) | FilterDone(req: nat) | TaskEnded(req: nat)

  /** A delivery filter finishes once per task, a request's task ends once. */
  predicate Enabled(s: State, e: Event) {
    match e
    case Called(_, _) => true
    case FilterDone(req) => req in s.tasks && s.tasks[req].store.Some?
    case TaskEnded(req) => req in s.tasks
  }

  function TaskStore(s: State, req: nat): Option<nat> {
    if req in s.tasks then s.tasks[req].store else None
  }

  function GiveBack(gives: seq<nat>, n: Option<nat>): seq<nat>
  {
    if n.Some? && n.value < |gives| then gives[n.value := gives[n.value] + 1] else gives
  }

  function Mark(fate: seq<Fate>, n: Option<nat>, f: Fate): seq<Fate>
  {
    if n.Some? && n.value < |fate| then fate[n.value := f] else fate
  }

  /** Tasks and fates agree, and a store was given back as often as its fate says. */
  ghost predicate Inv(s: State) {
    && |s.fate| == |s.gives|
    && (forall n: nat :: n < |s.gives| ==> s.gives[n] == Due(s.fate[n]))
    && (forall req :: TaskStore(s, req).Some? ==>
          TaskStore(s, req).value < |s.fate| && s.fate[TaskStore(s, req).value] == InTask(req))
    && (forall n: nat :: n < |s.fate| && s.fate[n].InTask? ==> TaskStore(s, s.fate[n].req) == Some(n))
  }

  function Due(f: Fate): nat {
    match f
    case InTask(_) => 0
    case Returned => 1
    case ReturnedTwice => 2
    case Lost => 0
  }

  function Apply(s: State, e: Event): State
    requires Enabled(s, e)
  {
    match e
    case Called(_, NoStore) => s
    case Called(_, Finished(ok)) =>
      s.(gives := s.gives + [1], fate := s.fate + [Returned],
         total := s.total + 1, ok := s.ok + (if ok then 1 else 0), error := s.error + (if ok then 0 else 1))
    case Called(_, TaskRefused) =>
      s.(gives := s.gives + [2], fate := s.fate + [ReturnedTwice], total := s.total + 1, error := s.error + 1)
    case Called(req, Deferred) =>
      s.(gives := s.gives + [0], fate := Mark(s.fate, TaskStore(s, req), Lost) + [InTask(req)],
         tasks := s.tasks[req := Task(Some(|s.gives|))], total := s.total + 1)
    case FilterDone(req) =>
      s.(gives := GiveBack(s.gives, TaskStore(s, req)), fate := Mark(s.fate, TaskStore(s, req), Returned),
         tasks := s.tasks[req := Task(None)], ok := s.ok + 1)
    case TaskEnded(req) =>
      s.(gives := GiveBack(s.gives, TaskStore(s, req)), fate := Mark(s.fate, TaskStore(s, req), Returned),
         tasks := s.tasks - {req})
  }

  // ---------------------------------------------------------------- what each path does

  /** A warm slot of a module without _initialize, or a new store. */
  predicate GetsStore(c: Script) {
    c.moduleFound && ((c.hasPool && !c.hasInitialize && c.slotFree) || c.storeMade)
  }

  /** A new store also has to be instantiated before the callbacks run. */
  predicate RunsCallbacks(c: Script) {
    GetsStore(c) && ((c.hasPool && !c.hasInitialize && c.slotFree) || c.instantiated)
  }

  /** The guest answered to go on and its body handler is for the response, which is delivered later. */
  predicate WantsBody(c: Script) {
    RunsCallbacks(c) && c.headers.Answered? && c.headers.action != 1 && c.bodyHandler && c.phase == ResponsePhase
  }

  /** The guest sent a response of its own, paused, or went on without such a handler. */
  predicate EndsWell(c: Script) {
    && RunsCallbacks(c) && !WantsBody(c)
    && (c.headers.LocalResponse? || (c.headers.Answered? && c.headers.action >= 0))
  }

  /**
   What a call does: without a store nothing; with one it counts one call, as good, as bad, or as
   neither yet when the body is to be delivered, and gives the store back once, unless a delivery
   task has it, or twice when the slot for one is refused.
   */
  ghost predicate Effect(s: State, req: nat, c: Script, s': State, ret: int) {
    if !GetsStore(c) then s' == s && ret == -1
    else
      && s'.total == s.total + 1 && |s'.gives| == |s.gives| + 1 && s'.gives[..|s.gives|] == s.gives
      && var given := s'.gives[|s.gives|];
         if EndsWell(c) then
           s'.ok == s.ok + 1 && s'.error == s.error && given == 1 && ret >= 0 && s'.tasks == s.tasks
         else if WantsBody(c) && c.taskMemory && c.privTask then
           && s'.ok == s.ok && s'.error == s.error && given == 0 && ret == c.headers.action
           && s'.tasks == s.tasks[req := Task(Some(|s.gives|))]
         else
           && s'.ok == s.ok && s'.error == s.error + 1 && ret < 0 && s'.tasks == s.tasks
           && given == if WantsBody(c) && c.taskMemory then 2 else 1
  }

  lemma CalledEffect(s: State, req: nat, c: Script, ret: int)
    requires KindOf(c).NoStore? || KindOf(c).TaskRefused? ==> ret == -1
    requires KindOf(c).Finished? ==> (ret >= 0 <==> KindOf(c).ok)
    requires KindOf(c).Deferred? ==> c.headers.Answered? && ret == c.headers.action
    ensures Effect(s, req, c, Apply(s, Called(req, KindOf(c))), ret)
  {
  }

  // ---------------------------------------------------------------- what every run keeps

  /** A store leaves its task, and nothing else changes hands. */
  lemma MarkInv(s: State, t: State, req: nat, f: Fate)
    requires Inv(s) && !f.InTask? && t.fate == Mark(s.fate, TaskStore(s, req), f)
    requires t.gives == if Due(f) == 1 then GiveBack(s.gives, TaskStore(s, req)) else s.gives
    requires Due(f) <= 1 && TaskStore(t, req) == None
    requires forall other :: other != req ==> TaskStore(t, other) == TaskStore(s, other)
    ensures Inv(t)
  {
  }

  lemma TakeInv(s: State, t: State, req: nat, f: Fate)
    requires Inv(s) && TaskStore(s, req) == None
    requires t.fate == s.fate + [f] && t.gives == s.gives + [Due(f)]
    requires f.InTask? ==> f.req == req && TaskStore(t, req) == Some(|s.gives|)
    requires forall other :: other != req || !f.InTask? ==> TaskStore(t, other) == TaskStore(s, other)
    ensures Inv(t)
  {
  }

  lemma StepInv(s: State, e: Event)
    requires Inv(s) && Enabled(s, e)
    ensures Inv(Apply(s, e))
  {
    var t := Apply(s, e);
    match e
    case Called(_, NoStore) =>
    case Called(req, Finished(_)) =>
      TakeAnyInv(s, t, Returned);
    case Called(req, TaskRefused) =>
      TakeAnyInv(s, t, ReturnedTwice);
    case Called(req, Deferred) =>
      var mid := s.(fate := Mark(s.fate, TaskStore(s, req), Lost), tasks := s.tasks - {req});
      MarkInv(s, mid, req, Lost);
      TakeInv(mid, t, req, InTask(req));
    case FilterDone(req) =>
      MarkInv(s, t, req, Returned);
    case TaskEnded(req) =>
      MarkInv(s, t, req, Returned);
  }

  lemma TakeAnyInv(s: State, t: State, f: Fate)
    requires Inv(s) && !f.InTask? && t.tasks == s.tasks
    requires t.fate == s.fate + [f] && t.gives == s.gives + [Due(f)]
    ensures Inv(t)
  {
    assert forall req :: TaskStore(t, req) == TaskStore(s, req);
  }

  ghost predicate StepAt(states: seq<State>, events: seq<Event>, k: nat) {
    k + 1 < |states| && k < |events| && Enabled(states[k], events[k]) && states[k + 1] == Apply(states[k], events[k])
  }

  /** Any interleaving of calls, finished deliveries and ended requests. */
  ghost predicate IsRun(states: seq<State>, events: seq<Event>) {
    |states| == |events| + 1 && states[0] == START && forall k: nat :: k < |events| ==> StepAt(states, events, k)
  }

  lemma {:induction false} RunInv(states: seq<State>, events: seq<Event>, k: nat)
    requires IsRun(states, events) && k <= |events|
    ensures Inv(states[k])
  {
    if k > 0 {
      RunInv(states, events, k - 1);
      assert StepAt(states, events, k - 1);
      StepInv(states[k - 1], events[k - 1]);
    }
  }

  // ---------------------------------------------------------------- statistics

  /** Event j is the deferral that took store n. */
  ghost predicate DefersAt(states: seq<State>, events: seq<Event>, j: nat, n: nat) {
    j < |events| && j < |states| && events[j].Called? && events[j].kind == Deferred && |states[j].gives| == n
  }

  /** Event j is the end of the delivery filter of store n. */
  ghost predicate FilterEndsAt(states: seq<State>, events: seq<Event>, j: nat, n: nat) {
    j < |events| && j < |states| && events[j].FilterDone? && TaskStore(states[j], events[j].req) == Some(n)
  }

  /** Store n was taken by a deferred call whose filter has not finished after k events. */
  ghost predicate IsPending(states: seq<State>, events: seq<Event>, k: nat, n: nat) {
    && (exists j: nat :: j < k && DefersAt(states, events, j, n))
    && (forall j: nat :: j < k ==> !FilterEndsAt(states, events, j, n))
  }

  /** The deferred calls whose filter has not finished, by their stores. */
  ghost function Pending(states: seq<State>, events: seq<Event>, k: nat): set<nat>
    requires k < |states|
  {
    set n: nat | n < |states[k].gives| && IsPending(states, events, k, n)
  }

  /** Store numbers only grow, and a call takes the next one. */
  lemma {:induction false} RunTakes(states: seq<State>, events: seq<Event>, j: nat, k: nat)
    requires IsRun(states, events) && j <= k <= |events|
    ensures |states[j].gives| <= |states[k].gives|
    ensures j < k && events[j].Called? && events[j].kind != NoStore ==> |states[j].gives| < |states[k].gives|
  {
    if j < k {
      RunTakes(states, events, j, k - 1);
      assert StepAt(states, events, k - 1);
    }
  }

  /** A filter ends only for a store that was taken before. */
  lemma EndedWasTaken(states: seq<State>, events: seq<Event>, j: nat, k: nat, n: nat)
    requires IsRun(states, events) && j < k <= |events| && FilterEndsAt(states, events, j, n)
    ensures n < |states[k].gives|
  {
    RunInv(states, events, j);
    RunTakes(states, events, j, k);
  }

  lemma PendingNext(states: seq<State>, events: seq<Event>, k: nat, n: nat)
    requires IsRun(states, events) && k < |events|
    ensures IsPending(states, events, k + 1, n) <==>
              (IsPending(states, events, k, n) && !FilterEndsAt(states, events, k, n)) || DefersAt(states, events, k, n)
  {
    if DefersAt(states, events, k, n) {
      forall j: nat | j < k + 1
        ensures !FilterEndsAt(states, events, j, n)
      {
        if j < k && FilterEndsAt(states, events, j, n) {
          EndedWasTaken(states, events, j, k, n);
        }
      }
    }
  }

  /** The store in a task belongs to a deferred call whose filter has not finished. */
  lemma {:induction false} InTaskPending(states: seq<State>, events: seq<Event>, k: nat, req: nat)
    requires IsRun(states, events) && k <= |events| && TaskStore(states[k], req).Some?
    ensures IsPending(states, events, k, TaskStore(states[k], req).value)
  {
    if k > 0 {
      var s, e, n := states[k - 1], events[k - 1], TaskStore(states[k], req).value;
      assert StepAt(states, events, k - 1);
      RunInv(states, events, k - 1);
      PendingNext(states, events, k - 1, n);
      if !DefersAt(states, events, k - 1, n) {
        assert TaskStore(s, req) == Some(n);
        InTaskPending(states, events, k - 1, req);
      }
    }
  }

  /** How the set of pending calls moves: a deferral adds its store, the end of a filter removes its own. */
  lemma PendingMoves(states: seq<State>, events: seq<Event>, k: nat)
    requires IsRun(states, events) && k < |events|
    ensures var before, after, e := Pending(states, events, k), Pending(states, events, k + 1), events[k];
            if e.Called? && e.kind == Deferred then |after| == |before| + 1
            else if e.FilterDone? then |after| == |before| - 1
            else after == before
  {
    var s, e := states[k], events[k];
    var before, after := Pending(states, events, k), Pending(states, events, k + 1);
    assert StepAt(states, events, k);
    RunTakes(states, events, k, k + 1);
    RunInv(states, events, k);
    forall n: nat
      ensures n in after <==> (n in before && !FilterEndsAt(states, events, k, n)) || DefersAt(states, events, k, n)
    {
      PendingNext(states, events, k, n);
      if IsPending(states, events, k, n) {
        PendingTaken(states, events, k, n);
      }
    }
    if e.Called? && e.kind == Deferred {
      assert after == before + {|s.gives|};
    } else if e.FilterDone? {
      InTaskPending(states, events, k, e.req);
      assert after == before - {TaskStore(s, e.req).value};
    } else {
      assert after == before;
    }
  }

  lemma PendingTaken(states: seq<State>, events: seq<Event>, k: nat, n: nat)
    requires IsRun(states, events) && k <= |events| && IsPending(states, events, k, n)
    ensures n < |states[k].gives|
  {
    var j: nat :| j < k && DefersAt(states, events, j, n);
    RunTakes(states, events, j, k);
  }

  function Count(events: seq<Event>, k: nat, counts: Event -> bool): nat
    requires k <= |events|
  {
    if k == 0 then 0 else Count(events, k - 1, counts) + if counts(events[k - 1]) then 1 else 0
  }

  /**
   In every run the three counters are read off the events: calls that got a store, calls that ended
   well and filters that finished, calls that ended badly or had their task slot refused.
   */
  lemma {:induction false} RunCounts(states: seq<State>, events: seq<Event>, k: nat)
    requires IsRun(states, events) && k <= |events|
    ensures states[k].total == Count(events, k, (e: Event) => e.Called? && e.kind != NoStore)
    ensures states[k].ok == Count(events, k, (e: Event) => (e.Called? && e.kind == Finished(true)) || e.FilterDone?)
    ensures states[k].error == Count(events, k, (e: Event) => e.Called? && e.kind in {Finished(false), TaskRefused})
  {
    if k > 0 {
      RunCounts(states, events, k - 1);
      assert StepAt(states, events, k - 1);
    }
  }

  /** On every path calls_total is calls_ok plus calls_error plus the deferred calls whose filter has not finished. */
  lemma {:induction false} RunBalance(states: seq<State>, events: seq<Event>, k: nat)
    requires IsRun(states, events) && k <= |events|
    ensures states[k].total == states[k].ok + states[k].error + |Pending(states, events, k)|
  {
    if k > 0 {
      RunBalance(states, events, k - 1);
      assert StepAt(states, events, k - 1);
      PendingMoves(states, events, k - 1);
    }
  }

  // ---------------------------------------------------------------- given back exactly once

  /** The two branches that break it: a task slot is refused, or an unfinished task is overwritten. */
  predicate Breaks(s: State, e: Event) {
    e.Called? && (e.kind == TaskRefused || (e.kind == Deferred && TaskStore(s, e.req).Some?))
  }

  predicate Wrong(f: Fate) {
    f == ReturnedTwice || f == Lost
  }

  predicate NoneWrong(fate: seq<Fate>) {
    forall n :: 0 <= n < |fate| ==> !Wrong(fate[n])
  }

  /** What went wrong stays wrong, and only those branches make it so. */
  lemma StepWrong(s: State, e: Event)
    requires Inv(s) && Enabled(s, e)
    ensures NoneWrong(Apply(s, e).fate) <==> NoneWrong(s.fate) && !Breaks(s, e)
  {
    var t := Apply(s, e);
    if Breaks(s, e) {
      var n := if e.kind == TaskRefused then |s.fate| else TaskStore(s, e.req).value;
      assert Wrong(t.fate[n]);
    }
    forall n | 0 <= n < |s.fate| && Wrong(s.fate[n])
      ensures t.fate[n] == s.fate[n]
    {
    }
  }

  predicate SoFarSound(states: seq<State>, events: seq<Event>, k: nat)
    requires k <= |events| < |states|
  {
    forall j :: 0 <= j < k ==> !Breaks(states[j], events[j])
  }

  lemma {:induction false} RunWrong(states: seq<State>, events: seq<Event>, k: nat)
    requires IsRun(states, events) && k <= |events|
    ensures NoneWrong(states[k].fate) <==> SoFarSound(states, events, k)
  {
    if k > 0 {
      RunWrong(states, events, k - 1);
      RunInv(states, events, k - 1);
      assert StepAt(states, events, k - 1);
      StepWrong(states[k - 1], events[k - 1]);
    }
  }

  /**
   When every request has ended, each store taken has been given back exactly once if and only if
   no task slot was refused and no unfinished task overwritten.
   */
  lemma GivenBackOnceIff(states: seq<State>, events: seq<Event>, k: nat)
    requires IsRun(states, events) && k <= |events| && states[k].tasks == map[]
    ensures (forall n :: 0 <= n < |states[k].gives| ==> states[k].gives[n] == 1) <==> SoFarSound(states, events, k)
  {
    var s := states[k];
    RunInv(states, events, k);
    RunWrong(states, events, k);
    forall n: nat | n < |s.gives|
      ensures s.gives[n] == 1 <==> !Wrong(s.fate[n])
    {
      assert s.fate[n].InTask? ==> TaskStore(s, s.fate[n].req) == Some(n);
    }
  }

  /** At any moment of a sound run a store is given back once or is still, not given back, with exactly one task. */
  lemma OwnedOrReturned(states: seq<State>, events: seq<Event>, k: nat, n: nat)
    requires IsRun(states, events) && k <= |events| && SoFarSound(states, events, k) && n < |states[k].gives|
    ensures states[k].gives[n] == 1 || states[k].gives[n] == 0
    ensures states[k].gives[n] == 0 <==> exists req :: TaskStore(states[k], req) == Some(n)
    ensures forall a, b :: TaskStore(states[k], a) == Some(n) == TaskStore(states[k], b) ==> a == b
  {
    RunInv(states, events, k);
    RunWrong(states, events, k);
    var s := states[k];
    assert !Wrong(s.fate[n]);
    assert s.fate[n].InTask? ==> TaskStore(s, s.fate[n].req) == Some(n);
  }

  /** A call whose task slot is refused gives its store back twice. */
  lemma RefusedTwice(req: nat)
    ensures Apply(START, Called(req, TaskRefused)).gives == [2]
  {
  }

  /** Two deferrals in one request: the first store is never given back. */
  lemma OverwrittenLost(req: nat)
    ensures var s1 := Apply(START, Called(req, Deferred));
            var s2 := Apply(s1, Called(req, Deferred));
            Enabled(s2, FilterDone(req)) &&
            var s3 := Apply(s2, FilterDone(req));
            && Enabled(s3, TaskEnded(req))
            && Apply(s3, TaskEnded(req)).gives == [0, 1] && Apply(s3, TaskEnded(req)).tasks == map[]
  {
  }

  // ---------------------------------------------------------------- the engine

  class Engine {
    var tasks: map<nat, Task>
    var total: nat
    var ok: nat
    var error: nat
    var fallbacks: nat
    /** How often each store taken so far was released to its pool or deleted, and why. */
    var gives: seq<nat>
    ghost var fate: seq<Fate>

    ghost function Snapshot(): State
      reads this
    {
      State(gives, fate, tasks, total, ok, error)
    }

    constructor ()
      ensures Snapshot() == START && Inv(Snapshot())
    {
      tasks, total, ok, error, fallbacks, gives, fate := map[], 0, 0, 0, 0, [], [];
    }

    /** Acquires a warm store or makes a new one. */
    method TakeStore() returns (n: nat)
      modifies this`gives
      ensures n == |old(gives)| && gives == old(gives) + [0]
    {
      n := |gives|;
      gives := gives + [0];
    }

    /** Releases a pooled store or deletes a new one. */
    method ReturnStore(n: nat)
      requires n < |gives|
      modifies this`gives
      ensures gives == old(gives)[n := old(gives)[n] + 1]
    {
      gives := gives[n := gives[n] + 1];
    }

    /** proxy_wasm_execute. */
    method Execute(req: nat, c: Script) returns (ret: int)
      requires |fate| == |gives|
      modifies this
      ensures Snapshot() == Apply(old(Snapshot()), Called(req, KindOf(c)))
      ensures Effect(old(Snapshot()), req, c, Snapshot(), ret)
      ensures fallbacks == old(fallbacks) + (if c.moduleFound && c.hasPool && c.hasInitialize then 1 else 0)
    {
      ret := RunModule(req, c);
      CalledEffect(old(Snapshot()), req, c, ret);
    }

    method RunModule(req: nat, c: Script) returns (ret: int)
      requires |fate| == |gives|
      modifies this
      ensures Snapshot() == Apply(old(Snapshot()), Called(req, KindOf(c)))
      ensures KindOf(c).NoStore? || KindOf(c).TaskRefused? ==> ret == -1
      ensures KindOf(c).Finished? ==> (ret >= 0 <==> KindOf(c).ok)
      ensures KindOf(c).Deferred? ==> c.headers.Answered? && ret == c.headers.action
      ensures fallbacks == old(fallbacks) + (if c.moduleFound && c.hasPool && c.hasInitialize then 1 else 0)
    {
      if !c.moduleFound {
        return -1;
      }
      var pooled := false;
      if c.hasPool {
        if c.hasInitialize {
          fallbacks := fallbacks + 1;
        } else {
          pooled := c.slotFree;
        }
      }
      if !pooled && !c.storeMade {
        return -1;
      }
      var store := TakeStore();
      if !pooled && !c.instantiated {
        CleanUp(store, -1);
        return -1;
      }
      var deferred;
      ret, deferred := RunPhases(req, c, store);
      if !deferred {
        CleanUp(store, ret);
      }
    }

    /** From the header callbacks on; a deferred store now belongs to the request's task. */
    method RunPhases(req: nat, c: Script, store: nat) returns (ret: int, deferred: bool)
      requires store == |fate| == |gives| - 1
      modifies this`gives, this`fate, this`tasks, this`total
      ensures deferred <==> PhaseKind(c) == Deferred
      ensures deferred ==> c.headers.Answered? && ret == c.headers.action
      ensures deferred ==>
                gives == old(gives) && fate == Mark(old(fate), TaskStore(old(Snapshot()), req), Lost) + [InTask(req)]
      ensures deferred ==> tasks == old(tasks)[req := Task(Some(store))] && total == old(total) + 1
      ensures !deferred ==> fate == old(fate) && tasks == old(tasks) && total == old(total)
      ensures !deferred ==>
                gives == if PhaseKind(c) == TaskRefused then old(gives)[store := old(gives)[store] + 1] else old(gives)
      ensures !deferred ==>
                (ret >= 0 <==> PhaseKind(c) == Finished(true)) && (PhaseKind(c) == TaskRefused ==> ret == -1)
    {
      ret, deferred := -1, false;
      match c.headers {
        case CallbackFailed =>
        case LocalResponse =>
          ret := 0;
        case Answered(action) =>
          if action == 1 {
            ret := 0;
          } else if c.bodyHandler && c.phase == ResponsePhase {
            if c.taskMemory {
              if c.privTask {
                fate := Mark(fate, TaskStore(Snapshot(), req), Lost) + [InTask(req)];
                tasks := tasks[req := Task(Some(store))];
                total := total + 1;
                return action, true;
              }
              ReturnStore(store);
            }
          } else {
            ret := action;
          }
      }
    }

    /** The clean-up label: statistics, then the store goes back. */
    method CleanUp(store: nat, ret: int)
      requires store == |fate| == |gives| - 1 && gives[store] <= 1
      modifies this`gives, this`fate, this`total, this`ok, this`error
      ensures gives == old(gives)[store := old(gives)[store] + 1]
      ensures fate == old(fate) + [if old(gives)[store] == 1 then ReturnedTwice else Returned]
      ensures total == old(total) + 1
      ensures ok == old(ok) + (if ret >= 0 then 1 else 0) && error == old(error) + (if ret >= 0 then 0 else 1)
    {
      total := total + 1;
      if ret >= 0 {
        ok := ok + 1;
      } else {
        error := error + 1;
      }
      fate := fate + [if gives[store] == 1 then ReturnedTwice else Returned];
      ReturnStore(store);
    }

    /** vdp_wasm_fini: the delivery filter of a request's task ends. */
    method FilterFini(req: nat)
      requires Inv(Snapshot()) && Enabled(Snapshot(), FilterDone(req))
      modifies this
      ensures Inv(Snapshot()) && Snapshot() == Apply(old(Snapshot()), FilterDone(req))
    {
      StepInv(Snapshot(), FilterDone(req));
      ok := ok + 1;
      fate := Mark(fate, tasks[req].store, Returned);
      assert TaskStore(Snapshot(), req).Some?;
      ReturnStore(tasks[req].store.value);
      tasks := tasks[req := Task(None)];
    }

    /** vdp_wasm_task_fini: the client request ends, whether or not the filter ran. */
    method TaskFini(req: nat)
      requires Inv(Snapshot()) && Enabled(Snapshot(), TaskEnded(req))
      modifies this
      ensures Inv(Snapshot()) && Snapshot() == Apply(old(Snapshot()), TaskEnded(req))
    {
      StepInv(Snapshot(), TaskEnded(req));
      assert TaskStore(Snapshot(), req) == tasks[req].store;
      fate := Mark(fate, tasks[req].store, Returned);
      if tasks[req].store.Some? {
        ReturnStore(tasks[req].store.value);
      }
      tasks := tasks - {req};
    }
  }
}
