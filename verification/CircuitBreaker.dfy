/**
 The circuit breakers of the HTTP pool (src/http_pool.c): one per upstream, at most 32, created
 on first use and never removed. Times are whole seconds and inputs.
 */
module CircuitBreaker {
  import opened Bytes

  const THRESHOLD := 5
  const HALF_OPEN_AFTER := 10
  const MAX_BREAKERS := 32

  datatype Mode = Shut | Open | HalfOpen

  datatype Breaker = Breaker(
    key: seq<byte>, mode: Mode, failures: nat, successes: nat, lastFailure: int, lastSuccess: int,
    requests: nat, totalFailures: nat, rejections: nat)

  /** rejections is the pool-wide counter. */
  datatype Table = Table(breakers: seq<Breaker>, rejections: nat)

  datatype Event =
    | Allow(key: seq<byte>, now: int)
    | Success(key: seq<byte>, now: int)
    | Failure(key: seq<byte>, now: int)

  // ---------------------------------------------------------------- one call

  function NewBreaker(key: seq<byte>): Breaker {
    Breaker(key, Shut, 0, 0, 0, 0, 0, 0, 0)
  }

  predicate Rejects(b: Breaker, now: int) {
    b.mode == Open && now - b.lastFailure < HALF_OPEN_AFTER
  }

  function Touched(b: Breaker, e: Event): Breaker {
    match e
    case Allow(_, now) =>
      var c := b.(requests := b.requests + 1);
      if Rejects(b, now) then c.(rejections := b.rejections + 1)
      else if b.mode == Open then c.(mode := HalfOpen, successes := 0)
      else c
    case Success(_, now) =>
      b.(failures := 0, successes := b.successes + 1, lastSuccess := now,
         mode := if b.mode == HalfOpen then Shut else b.mode)
    case Failure(_, now) =>
      var c := b.(failures := b.failures + 1, successes := 0, lastFailure := now, totalFailures := b.totalFailures + 1);
      if b.mode == HalfOpen || (b.mode == Shut && c.failures >= THRESHOLD) then c.(mode := Open) else c
  }

  /** The position of the breaker for key among those from i on, or the number of breakers. */
  function Find(bs: seq<Breaker>, key: seq<byte>, i: nat): (r: nat)
    requires i <= |bs|
    ensures i <= r <= |bs| && (r < |bs| ==> bs[r].key == key)
    ensures forall j :: i <= j < r ==> bs[j].key != key
  {
    FirstWhere(bs, (b: Breaker) => b.key == key, i)
  }

  /** cb_find_or_create: the table with a breaker for key, unless it is full without one. */
  function Ensure(bs: seq<Breaker>, key: seq<byte>): seq<Breaker> {
    if Find(bs, key, 0) == |bs| && |bs| < MAX_BREAKERS then bs + [NewBreaker(key)] else bs
  }

  predicate Tracked(bs: seq<Breaker>, key: seq<byte>) {
    Find(bs, key, 0) < |bs|
  }

  function Apply(t: Table, e: Event): Table {
    var bs := Ensure(t.breakers, e.key);
    var i := Find(bs, e.key, 0);
    if i == |bs| then t
    else Table(bs[i := Touched(bs[i], e)], t.rejections + if e.Allow? && Rejects(bs[i], e.now) then 1 else 0)
  }

  /** What cb_allow answers in table t. */
  predicate Rejected(t: Table, key: seq<byte>, now: int) {
    var i := Find(t.breakers, key, 0);
    i < |t.breakers| && Rejects(t.breakers[i], now)
  }

  // ---------------------------------------------------------------- histories

  ghost predicate StepAt(ts: seq<Table>, h: seq<Event>, k: nat) {
    k + 1 < |ts| && k < |h| && ts[k + 1] == Apply(ts[k], h[k])
  }

  /** ts[k] is the table of a new pool after the first k events of h. */
  ghost predicate IsRun(ts: seq<Table>, h: seq<Event>) {
    |ts| == |h| + 1 && ts[0] == Table([], 0) && forall k: nat :: k < |h| ==> StepAt(ts, h, k)
  }

  /** Failures reported for key since its last success, in the first n events. */
  function FailureRun(h: seq<Event>, n: nat, key: seq<byte>): nat
    requires n <= |h|
  {
    if n == 0 then 0
    else if h[n - 1].key != key || h[n - 1].Allow? then FailureRun(h, n - 1, key)
    else if h[n - 1].Success? then 0
    else FailureRun(h, n - 1, key) + 1
  }

  /** How many of the first n events are requests for key. */
  function Requests(h: seq<Event>, n: nat, key: seq<byte>): nat
    requires n <= |h|
  {
    if n == 0 then 0 else Requests(h, n - 1, key) + if h[n - 1].Allow? && h[n - 1].key == key then 1 else 0
  }

  /** How many of the first n events are failures of key. */
  function Failures(h: seq<Event>, n: nat, key: seq<byte>): nat
    requires n <= |h|
  {
    if n == 0 then 0 else Failures(h, n - 1, key) + if h[n - 1].Failure? && h[n - 1].key == key then 1 else 0
  }

  /** Event i is the latest failure reported for key before n. */
  predicate LatestFailure(h: seq<Event>, n: nat, key: seq<byte>, i: nat)
    requires n <= |h|
  {
    i < n && h[i].Failure? && h[i].key == key && forall j :: i < j < n ==> !(h[j].Failure? && h[j].key == key)
  }

  /** How many of the first n events were rejected requests. */
  function RejectedCount(ts: seq<Table>, h: seq<Event>, n: nat): nat
    requires n <= |h| < |ts|
  {
    if n == 0 then 0
    else
      RejectedCount(ts, h, n - 1)
      + if h[n - 1].Allow? && Rejected(ts[n - 1], h[n - 1].key, h[n - 1].now) then 1 else 0
  }

  function SumRejections(bs: seq<Breaker>, n: nat): nat
    requires n <= |bs|
  {
    if n == 0 then 0 else SumRejections(bs, n - 1) + bs[n - 1].rejections
  }

  predicate UniqueKeys(bs: seq<Breaker>) {
    forall i, j :: 0 <= i < j < |bs| ==> bs[i].key != bs[j].key
  }

  /** A breaker against the history of its upstream. */
  ghost predicate Explained(b: Breaker, h: seq<Event>, n: nat)
    requires n <= |h|
  {
    && b.failures == FailureRun(h, n, b.key)
    && b.requests == Requests(h, n, b.key) && b.totalFailures == Failures(h, n, b.key)
    && (b.mode == Shut ==> b.failures < THRESHOLD)
    && (b.mode != Shut ==> exists i: nat :: LatestFailure(h, n, b.key, i) && h[i].now == b.lastFailure)
  }

  // ---------------------------------------------------------------- one event

  predicate Shaped(bs: seq<Breaker>) {
    UniqueKeys(bs) && |bs| <= MAX_BREAKERS
  }

  /** The breaker at i after event e: touched if it is the one addressed, else as it was. */
  function After(b: Breaker, e: Event): Breaker {
    if b.key == e.key then Touched(b, e) else b
  }

  lemma FindIs(bs: seq<Breaker>, key: seq<byte>, i: nat)
    requires UniqueKeys(bs) && i < |bs| && bs[i].key == key
    ensures Find(bs, key, 0) == i
  {
  }

  /** Old breakers change only through After, and at most one is new: the one addressed, if there was room. */
  lemma ApplyEffect(t: Table, e: Event)
    requires Shaped(t.breakers)
    ensures var bs, cs := t.breakers, Apply(t, e).breakers;
            && Shaped(cs) && |bs| <= |cs| <= |bs| + 1
            && (forall i :: 0 <= i < |bs| ==> cs[i] == After(bs[i], e))
            && (|cs| == |bs| + 1 ==> cs[|bs|] == Touched(NewBreaker(e.key), e) && !Tracked(bs, e.key))
            && (|cs| == |bs| ==> Tracked(bs, e.key) || |bs| == MAX_BREAKERS)
  {
    var bs := t.breakers;
    var f := Find(bs, e.key, 0);
    if f == |bs| && |bs| < MAX_BREAKERS {
      var ds := bs + [NewBreaker(e.key)];
      assert UniqueKeys(ds);
      FindIs(ds, e.key, |bs|);
    }
  }

  // ---------------------------------------------------------------- every history

  lemma {:induction false} RunShaped(ts: seq<Table>, h: seq<Event>, n: nat)
    requires IsRun(ts, h) && n <= |h|
    ensures Shaped(ts[n].breakers)
  {
    if n > 0 {
      RunShaped(ts, h, n - 1);
      assert StepAt(ts, h, n - 1);
      ApplyEffect(ts[n - 1], h[n - 1]);
    }
  }

  lemma UntrackedBefore(t: Table, e: Event, key: seq<byte>)
    requires Shaped(t.breakers) && !Tracked(Apply(t, e).breakers, key) && |Apply(t, e).breakers| < MAX_BREAKERS
    ensures e.key != key && !Tracked(t.breakers, key) && |t.breakers| < MAX_BREAKERS
  {
    var bs, cs := t.breakers, Apply(t, e).breakers;
    ApplyEffect(t, e);
    NotAmong(cs, key);
    assert forall i :: 0 <= i < |bs| ==> bs[i].key == cs[i].key != key;
  }

  /** While there is room, an upstream without a breaker has had no event. */
  lemma {:induction false} UntrackedUnseen(ts: seq<Table>, h: seq<Event>, n: nat, key: seq<byte>)
    requires IsRun(ts, h) && n <= |h| && !Tracked(ts[n].breakers, key) && |ts[n].breakers| < MAX_BREAKERS
    ensures forall i :: 0 <= i < n ==> h[i].key != key
  {
    if n > 0 {
      RunShaped(ts, h, n - 1);
      assert StepAt(ts, h, n - 1);
      UntrackedBefore(ts[n - 1], h[n - 1], key);
      UntrackedUnseen(ts, h, n - 1, key);
    }
  }

  lemma NotAmong(bs: seq<Breaker>, key: seq<byte>)
    requires !Tracked(bs, key)
    ensures forall i :: 0 <= i < |bs| ==> bs[i].key != key
  {
  }

  lemma {:induction false} UnseenRun(h: seq<Event>, n: nat, key: seq<byte>)
    requires n <= |h| && forall i :: 0 <= i < n ==> h[i].key != key
    ensures FailureRun(h, n, key) == Requests(h, n, key) == Failures(h, n, key) == 0
  {
    if n > 0 {
      UnseenRun(h, n - 1, key);
    }
  }

  lemma ExplainedNext(b: Breaker, h: seq<Event>, n: nat)
    requires n < |h| && Explained(b, h, n)
    ensures Explained(After(b, h[n]), h, n + 1)
  {
    var c := After(b, h[n]);
    if h[n].Failure? && h[n].key == b.key {
      assert LatestFailure(h, n + 1, b.key, n);
    } else if b.mode != Shut {
      var i: nat :| LatestFailure(h, n, b.key, i) && h[i].now == b.lastFailure;
      assert LatestFailure(h, n + 1, b.key, i);
    }
  }

  ghost predicate AllExplained(bs: seq<Breaker>, h: seq<Event>, n: nat)
    requires n <= |h|
  {
    forall i :: 0 <= i < |bs| ==> Explained(bs[i], h, n)
  }

  lemma AllExplainedNext(t: Table, h: seq<Event>, n: nat)
    requires n < |h| && Shaped(t.breakers) && AllExplained(t.breakers, h, n)
    requires !Tracked(t.breakers, h[n].key) && |t.breakers| < MAX_BREAKERS ==>
               FailureRun(h, n, h[n].key) == Requests(h, n, h[n].key) == Failures(h, n, h[n].key) == 0
    ensures AllExplained(Apply(t, h[n]).breakers, h, n + 1)
  {
    var bs, cs := t.breakers, Apply(t, h[n]).breakers;
    ApplyEffect(t, h[n]);
    forall i | 0 <= i < |cs|
      ensures Explained(cs[i], h, n + 1)
    {
      ExplainedNext(if i < |bs| then bs[i] else NewBreaker(h[n].key), h, n);
    }
  }

  /**
   In every run every breaker counts its upstream's requests, failures, and failures since the last
   success; while shut there are fewer than the threshold of those; otherwise it remembers the time of the latest
   failure.
   */
  lemma {:induction false} RunExplains(ts: seq<Table>, h: seq<Event>, n: nat)
    requires IsRun(ts, h) && n <= |h|
    ensures AllExplained(ts[n].breakers, h, n)
  {
    if n > 0 {
      var t, key := ts[n - 1], h[n - 1].key;
      RunExplains(ts, h, n - 1);
      RunShaped(ts, h, n - 1);
      if !Tracked(t.breakers, key) && |t.breakers| < MAX_BREAKERS {
        UntrackedUnseen(ts, h, n - 1, key);
        UnseenRun(h, n - 1, key);
      }
      AllExplainedNext(t, h, n - 1);
      assert StepAt(ts, h, n - 1);
    }
  }

  /** The mode of an upstream; one without a breaker counts as shut. */
  function ModeOf(t: Table, key: seq<byte>): Mode {
    if Tracked(t.breakers, key) then t.breakers[Find(t.breakers, key, 0)].mode else Shut
  }

  /** A shut breaker opens exactly at the failure that brings the run since the last success to the threshold. */
  lemma OpensIff(ts: seq<Table>, h: seq<Event>, n: nat, key: seq<byte>)
    requires IsRun(ts, h) && n < |h| && Tracked(ts[n].breakers, key) && ModeOf(ts[n], key) == Shut
    ensures ModeOf(ts[n + 1], key) == Open <==>
              h[n].Failure? && h[n].key == key && FailureRun(h, n + 1, key) == THRESHOLD
    ensures ModeOf(ts[n + 1], key) != HalfOpen
  {
    RunExplains(ts, h, n);
    assert Explained(ts[n].breakers[Find(ts[n].breakers, key, 0)], h, n);
    ModeAfter(ts, h, n, key);
  }

  /**
   An open breaker goes half-open exactly at a request 10 s or more after the latest failure, and
   never straight to shut.
   */
  lemma HalfOpensIff(ts: seq<Table>, h: seq<Event>, n: nat, key: seq<byte>, i: nat)
    requires IsRun(ts, h) && n < |h| && Tracked(ts[n].breakers, key) && ModeOf(ts[n], key) == Open
    requires LatestFailure(h, n, key, i)
    ensures ModeOf(ts[n + 1], key) == HalfOpen <==>
              h[n].Allow? && h[n].key == key && h[n].now - h[i].now >= HALF_OPEN_AFTER
    ensures ModeOf(ts[n + 1], key) != Shut
  {
    var b := ts[n].breakers[Find(ts[n].breakers, key, 0)];
    RunExplains(ts, h, n);
    assert Explained(b, h, n);
    var j: nat :| LatestFailure(h, n, b.key, j) && h[j].now == b.lastFailure;
    assert j == i;
    ModeAfter(ts, h, n, key);
  }

  /** A half-open breaker shuts exactly at a success and opens again exactly at a failure. */
  lemma HalfOpenLeavesIff(ts: seq<Table>, h: seq<Event>, n: nat, key: seq<byte>)
    requires IsRun(ts, h) && n < |h| && Tracked(ts[n].breakers, key) && ModeOf(ts[n], key) == HalfOpen
    ensures ModeOf(ts[n + 1], key) == Shut <==> h[n].Success? && h[n].key == key
    ensures ModeOf(ts[n + 1], key) == Open <==> h[n].Failure? && h[n].key == key
  {
    ModeAfter(ts, h, n, key);
  }

  lemma ModeAfter(ts: seq<Table>, h: seq<Event>, n: nat, key: seq<byte>)
    requires IsRun(ts, h) && n < |h| && Tracked(ts[n].breakers, key)
    ensures ModeOf(ts[n + 1], key) == After(ts[n].breakers[Find(ts[n].breakers, key, 0)], h[n]).mode
  {
    RunShaped(ts, h, n);
    ApplyEffect(ts[n], h[n]);
    assert StepAt(ts, h, n);
    FindIs(ts[n + 1].breakers, key, Find(ts[n].breakers, key, 0));
  }

  /** A request is rejected only less than 10 s after the latest failure reported for its upstream. */
  lemma RejectedOnlySoon(ts: seq<Table>, h: seq<Event>, n: nat, key: seq<byte>, now: int)
    requires IsRun(ts, h) && n <= |h| && Rejected(ts[n], key, now)
    ensures exists i: nat :: LatestFailure(h, n, key, i) && now - h[i].now < HALF_OPEN_AFTER
  {
    RunExplains(ts, h, n);
    assert Explained(ts[n].breakers[Find(ts[n].breakers, key, 0)], h, n);
  }

  // ---------------------------------------------------------------- the answers, from the earlier events alone

  /** The upstreams that have a breaker: the first 32 that had an event. */
  function Upstreams(h: seq<Event>, n: nat): seq<seq<byte>>
    requires n <= |h|
  {
    if n == 0 then []
    else
      var known := Upstreams(h, n - 1);
      if h[n - 1].key in known || |known| >= 32 then known else known + [h[n - 1].key]
  }

  /** When the latest failure of key was reported. */
  function LastFailed(h: seq<Event>, n: nat, key: seq<byte>): int
    requires n <= |h|
  {
    if n == 0 then 0 else if h[n - 1].Failure? && h[n - 1].key == key then h[n - 1].now else LastFailed(h, n - 1, key)
  }

  /**
   Shut until the fifth failure without a success between, then open until a request comes 10 s or
   more after the latest failure, then half-open until a success shuts or a failure opens it.
   */
  function Phase(h: seq<Event>, n: nat, key: seq<byte>): Mode
    requires n <= |h|
  {
    if n == 0 then Shut
    else
      var e, was := h[n - 1], Phase(h, n - 1, key);
      if e.key != key then was
      else match was
        case Shut => if e.Failure? && FailureRun(h, n, key) >= 5 then Open else Shut
        case Open => if e.Allow? && e.now - LastFailed(h, n - 1, key) >= 10 then HalfOpen else Open
        case HalfOpen => if e.Success? then Shut else if e.Failure? then Open else HalfOpen
  }

  predicate Phased(b: Breaker, h: seq<Event>, n: nat)
    requires n <= |h|
  {
    && b.mode == Phase(h, n, b.key) && b.lastFailure == LastFailed(h, n, b.key)
    && b.failures == FailureRun(h, n, b.key)
  }

  lemma PhasedNext(b: Breaker, h: seq<Event>, n: nat)
    requires n < |h| && Phased(b, h, n)
    ensures Phased(After(b, h[n]), h, n + 1)
  {
  }

  lemma {:induction false} UnseenPhased(h: seq<Event>, n: nat, key: seq<byte>)
    requires n <= |h| && forall i :: 0 <= i < n ==> h[i].key != key
    ensures Phased(NewBreaker(key), h, n)
  {
    if n > 0 {
      UnseenPhased(h, n - 1, key);
    }
  }

  /** Breaker i is the one of upstream i, and as its events say. */
  ghost predicate AllPhased(bs: seq<Breaker>, h: seq<Event>, n: nat)
    requires n <= |h|
  {
    |bs| == |Upstreams(h, n)| && forall i :: 0 <= i < |bs| ==> bs[i].key == Upstreams(h, n)[i] && Phased(bs[i], h, n)
  }

  lemma KnownTracked(bs: seq<Breaker>, h: seq<Event>, n: nat, key: seq<byte>)
    requires n <= |h| && AllPhased(bs, h, n)
    ensures Tracked(bs, key) <==> key in Upstreams(h, n)
  {
    if key in Upstreams(h, n) {
      var i :| 0 <= i < |Upstreams(h, n)| && Upstreams(h, n)[i] == key;
      assert bs[i].key == key;
    }
  }

  lemma AllPhasedNext(t: Table, h: seq<Event>, n: nat)
    requires n < |h| && Shaped(t.breakers) && AllPhased(t.breakers, h, n)
    requires !Tracked(t.breakers, h[n].key) && |t.breakers| < MAX_BREAKERS ==> Phased(NewBreaker(h[n].key), h, n)
    ensures AllPhased(Apply(t, h[n]).breakers, h, n + 1)
  {
    var bs, cs := t.breakers, Apply(t, h[n]).breakers;
    ApplyEffect(t, h[n]);
    KnownTracked(bs, h, n, h[n].key);
    forall i | 0 <= i < |cs|
      ensures cs[i].key == Upstreams(h, n + 1)[i] && Phased(cs[i], h, n + 1)
    {
      PhasedNext(if i < |bs| then bs[i] else NewBreaker(h[n].key), h, n);
    }
  }

  lemma {:induction false} RunPhased(ts: seq<Table>, h: seq<Event>, n: nat)
    requires IsRun(ts, h) && n <= |h|
    ensures AllPhased(ts[n].breakers, h, n)
  {
    if n > 0 {
      var t, key := ts[n - 1], h[n - 1].key;
      RunPhased(ts, h, n - 1);
      RunShaped(ts, h, n - 1);
      if !Tracked(t.breakers, key) && |t.breakers| < MAX_BREAKERS {
        UntrackedUnseen(ts, h, n - 1, key);
        UnseenPhased(h, n - 1, key);
      }
      AllPhasedNext(t, h, n - 1);
      assert StepAt(ts, h, n - 1);
    }
  }

  /**
   In every run a request is rejected exactly when its upstream is among the first 32, is open by its
   events, and failed less than 10 s before.
   */
  lemma RejectedIff(ts: seq<Table>, h: seq<Event>, n: nat, key: seq<byte>, now: int)
    requires IsRun(ts, h) && n <= |h|
    ensures Rejected(ts[n], key, now) <==>
              key in Upstreams(h, n) && Phase(h, n, key) == Open && now - LastFailed(h, n, key) < 10
    ensures ModeOf(ts[n], key) == if key in Upstreams(h, n) then Phase(h, n, key) else Shut
  {
    RunPhased(ts, h, n);
    KnownTracked(ts[n].breakers, h, n, key);
  }

  // ---------------------------------------------------------------- rejection totals

  lemma {:induction false} SumUpdate(bs: seq<Breaker>, i: nat, b: Breaker, n: nat)
    requires i < |bs| && n <= |bs|
    ensures SumRejections(bs[i := b], n) == SumRejections(bs, n) + if i < n then b.rejections - bs[i].rejections else 0
  {
    if n > 0 {
      SumUpdate(bs, i, b, n - 1);
    }
  }

  lemma {:induction false} SumPrefix(bs: seq<Breaker>, b: Breaker, n: nat)
    requires n <= |bs|
    ensures SumRejections(bs + [b], n) == SumRejections(bs, n)
  {
    if n > 0 {
      SumPrefix(bs, b, n - 1);
    }
  }

  lemma ApplyAddsUp(t: Table, e: Event)
    requires t.rejections == SumRejections(t.breakers, |t.breakers|)
    ensures Apply(t, e).rejections == SumRejections(Apply(t, e).breakers, |Apply(t, e).breakers|)
    ensures Apply(t, e).rejections == t.rejections + if e.Allow? && Rejected(t, e.key, e.now) then 1 else 0
  {
    var bs := Ensure(t.breakers, e.key);
    var i := Find(bs, e.key, 0);
    if |bs| > |t.breakers| {
      SumPrefix(t.breakers, NewBreaker(e.key), |t.breakers|);
    }
    if i < |bs| {
      SumUpdate(bs, i, Touched(bs[i], e), |bs|);
    }
  }

  /** The pool's total is the sum over its breakers, and the number of requests turned away. */
  lemma {:induction false} RejectionsAddUp(ts: seq<Table>, h: seq<Event>, n: nat)
    requires IsRun(ts, h) && n <= |h|
    ensures ts[n].rejections == SumRejections(ts[n].breakers, |ts[n].breakers|) == RejectedCount(ts, h, n)
  {
    if n > 0 {
      RejectionsAddUp(ts, h, n - 1);
      assert StepAt(ts, h, n - 1);
      ApplyAddsUp(ts[n - 1], h[n - 1]);
    }
  }

  // ---------------------------------------------------------------- callouts that keep failing

  /** A callout that is turned away: its request, and the failure it reports itself, at the same time. */
  datatype Retry = Retry(asked: nat, failed: nat)

  predicate RetryIn(h: seq<Event>, key: seq<byte>, r: Retry) {
    && r.asked < r.failed < |h| && h[r.asked].Allow? && h[r.failed].Failure?
    && h[r.asked].key == h[r.failed].key == key && h[r.asked].now == h[r.failed].now
  }

  /** Nothing happens to this upstream from a up to b. */
  predicate Silent(h: seq<Event>, key: seq<byte>, a: nat, b: nat)
    requires b <= |h|
  {
    forall j :: a <= j < b ==> h[j].key != key
  }

  /** Where the silence before retry r begins: at n, or behind the retry before it. */
  function Since(rs: seq<Retry>, n: nat, r: nat): nat
    requires r <= |rs|
  {
    if r == 0 then n else rs[r - 1].failed + 1
  }

  /** From n on the events of this upstream are those retries, one after the other, among any events of others. */
  predicate OnlyRetries(h: seq<Event>, key: seq<byte>, n: nat, rs: seq<Retry>) {
    forall r: nat :: r < |rs| ==> RetryAt(h, key, n, rs, r)
  }

  predicate RetryAt(h: seq<Event>, key: seq<byte>, n: nat, rs: seq<Retry>, r: nat)
    requires r < |rs|
  {
    && RetryIn(h, key, rs[r]) && Since(rs, n, r) <= rs[r].asked
    && Silent(h, key, Since(rs, n, r), rs[r].asked) && Silent(h, key, rs[r].asked + 1, rs[r].failed)
  }

  /** How long after the failure before it (the first one at time `start`) retry r comes. */
  function Gap(h: seq<Event>, start: int, rs: seq<Retry>, r: nat): int
    requires r < |rs| && rs[r].asked < |h| && (r > 0 ==> rs[r - 1].failed < |h|)
  {
    h[rs[r].asked].now - if r == 0 then start else h[rs[r - 1].failed].now
  }

  predicate Soon(h: seq<Event>, start: int, rs: seq<Retry>, r: nat) {
    && r < |rs| && rs[r].asked < |h| && (r > 0 ==> rs[r - 1].failed < |h|)
    && Gap(h, start, rs, r) < HALF_OPEN_AFTER
  }

  /** Every retry before r came less than 10 s after the one before. */
  predicate Hasty(h: seq<Event>, start: int, rs: seq<Retry>, r: nat) {
    forall q: nat :: q < r ==> Soon(h, start, rs, q)
  }

  /** Open at k, the latest failure being event i. */
  ghost predicate OpenSince(ts: seq<Table>, h: seq<Event>, k: nat, key: seq<byte>, i: nat) {
    k <= |h| && k < |ts| && Tracked(ts[k].breakers, key) && ModeOf(ts[k], key) == Open && LatestFailure(h, k, key, i)
  }

  lemma TrackedOn(ts: seq<Table>, h: seq<Event>, k: nat, key: seq<byte>)
    requires IsRun(ts, h) && k < |h| && Tracked(ts[k].breakers, key)
    ensures Tracked(ts[k + 1].breakers, key)
  {
    RunShaped(ts, h, k);
    ApplyEffect(ts[k], h[k]);
    assert StepAt(ts, h, k);
    FindIs(ts[k + 1].breakers, key, Find(ts[k].breakers, key, 0));
  }

  /** Events of other upstreams change nothing. */
  lemma {:induction false} SilenceKeeps(ts: seq<Table>, h: seq<Event>, a: nat, b: nat, key: seq<byte>, i: nat)
    requires IsRun(ts, h) && a <= b <= |h| && Silent(h, key, a, b) && OpenSince(ts, h, a, key, i)
    ensures OpenSince(ts, h, b, key, i)
  {
    if a < b {
      SilenceKeeps(ts, h, a, b - 1, key, i);
      TrackedOn(ts, h, b - 1, key);
      ModeAfter(ts, h, b - 1, key);
    }
  }

  /**
   A request to an open breaker is rejected exactly when it comes less than 10 s after the latest
   failure; then it stays open.
   */
  lemma AskedWhileOpen(ts: seq<Table>, h: seq<Event>, k: nat, key: seq<byte>, i: nat)
    requires IsRun(ts, h) && k < |h| && OpenSince(ts, h, k, key, i) && h[k].Allow? && h[k].key == key
    ensures Rejected(ts[k], key, h[k].now) <==> h[k].now - h[i].now < HALF_OPEN_AFTER
    ensures h[k].now - h[i].now < HALF_OPEN_AFTER ==> OpenSince(ts, h, k + 1, key, i)
  {
    HalfOpensIff(ts, h, k, key, i);
    TrackedOn(ts, h, k, key);
    RunExplains(ts, h, k);
    var b := ts[k].breakers[Find(ts[k].breakers, key, 0)];
    assert Explained(b, h, k);
    var j: nat :| LatestFailure(h, k, b.key, j) && h[j].now == b.lastFailure;
    assert j == i;
  }

  /** A failure reported to an open breaker leaves it open and is the latest one. */
  lemma FailedWhileOpen(ts: seq<Table>, h: seq<Event>, k: nat, key: seq<byte>, i: nat)
    requires IsRun(ts, h) && k < |h| && OpenSince(ts, h, k, key, i) && h[k].Failure? && h[k].key == key
    ensures OpenSince(ts, h, k + 1, key, k)
  {
    TrackedOn(ts, h, k, key);
    ModeAfter(ts, h, k, key);
  }

  /** The failure before retry r. */
  function FailedBefore(rs: seq<Retry>, i: nat, r: nat): nat
    requires r <= |rs|
  {
    if r == 0 then i else rs[r - 1].failed
  }

  lemma {:induction false} RetriesKeepOpen(ts: seq<Table>, h: seq<Event>, n: nat, key: seq<byte>, i: nat,
                                           rs: seq<Retry>, r: nat)
    requires IsRun(ts, h) && OpenSince(ts, h, n, key, i) && r <= |rs| && OnlyRetries(h, key, n, rs)
    requires Hasty(h, h[i].now, rs, r)
    ensures OpenSince(ts, h, Since(rs, n, r), key, FailedBefore(rs, i, r))
  {
    if r > 0 {
      var q := r - 1;
      var f := FailedBefore(rs, i, q);
      RetriesKeepOpen(ts, h, n, key, i, rs, q);
      assert RetryAt(h, key, n, rs, q) && Soon(h, h[i].now, rs, q);
      OneRetry(ts, h, Since(rs, n, q), key, f, rs[q]);
    }
  }

  lemma OneRetry(ts: seq<Table>, h: seq<Event>, a: nat, key: seq<byte>, i: nat, r: Retry)
    requires IsRun(ts, h) && OpenSince(ts, h, a, key, i) && RetryIn(h, key, r) && a <= r.asked
    requires Silent(h, key, a, r.asked) && Silent(h, key, r.asked + 1, r.failed)
    requires h[r.asked].now - h[i].now < HALF_OPEN_AFTER
    ensures OpenSince(ts, h, r.failed + 1, key, r.failed)
  {
    SilenceKeeps(ts, h, a, r.asked, key, i);
    AskedWhileOpen(ts, h, r.asked, key, i);
    SilenceKeeps(ts, h, r.asked + 1, r.failed, key, i);
    FailedWhileOpen(ts, h, r.failed, key, i);
  }

  /**
   There is no bound on how long an open breaker turns away callouts that are reported as failures
   themselves: in every run, whatever happens to other upstreams, while the retries come less than
   10 s apart each is rejected, and the first to be let through is exactly the first that comes 10 s
   or more after the one before.
   */
  lemma RetriesRejected(ts: seq<Table>, h: seq<Event>, n: nat, key: seq<byte>, i: nat, rs: seq<Retry>, r: nat)
    requires IsRun(ts, h) && OpenSince(ts, h, n, key, i) && r < |rs| && OnlyRetries(h, key, n, rs)
    requires Hasty(h, h[i].now, rs, r)
    ensures RetryAt(h, key, n, rs, r) && rs[r].asked < |ts|
    ensures Rejected(ts[rs[r].asked], key, h[rs[r].asked].now) <==> Hasty(h, h[i].now, rs, r + 1)
  {
    RetriesKeepOpen(ts, h, n, key, i, rs, r);
    assert RetryAt(h, key, n, rs, r) && (r > 0 ==> RetryAt(h, key, n, rs, r - 1));
    var f := FailedBefore(rs, i, r);
    SilenceKeeps(ts, h, Since(rs, n, r), rs[r].asked, key, f);
    AskedWhileOpen(ts, h, rs[r].asked, key, f);
    assert Gap(h, h[i].now, rs, r) == h[rs[r].asked].now - h[f].now;
    assert Hasty(h, h[i].now, rs, r + 1) <==> Soon(h, h[i].now, rs, r);
  }

  // ---------------------------------------------------------------- the table in the pool

  class Breakers {
    var breakers: seq<Breaker>
    var rejections: nat

    constructor ()
      ensures Contents() == Table([], 0)
    {
      breakers, rejections := [], 0;
    }

    function Contents(): Table
      reads this
    {
      Table(breakers, rejections)
    }

    /** cb_find_or_create: None when the table is full. */
    method FindOrCreate(key: seq<byte>) returns (r: Option<nat>)
      modifies this`breakers
      ensures breakers == Ensure(old(breakers), key) && (r.None? ==> breakers == old(breakers))
      ensures r == if Tracked(breakers, key) then Some(Find(breakers, key, 0)) else None
    {
      for i := 0 to |breakers|
        invariant Find(breakers, key, 0) == Find(breakers, key, i)
      {
        if breakers[i].key == key {
          return Some(i);
        }
      }
      if |breakers| >= MAX_BREAKERS {
        return None;
      }
      FindAppended(breakers, key);
      breakers := breakers + [NewBreaker(key)];
      return Some(|breakers| - 1);
    }

    method CbAllow(key: seq<byte>, now: int) returns (allowed: bool)
      modifies this
      ensures Contents() == Apply(old(Contents()), Allow(key, now))
      ensures allowed <==> !Rejected(old(Contents()), key, now)
    {
      var at := FindOrCreate(key);
      if at.None? {
        return true;
      }
      var i := at.value;
      var b := breakers[i];
      b := b.(requests := b.requests + 1);
      allowed := true;
      match b.mode {
        case Shut =>
        case Open =>
          if now - b.lastFailure >= HALF_OPEN_AFTER {
            b := b.(mode := HalfOpen, successes := 0);
          } else {
            b := b.(rejections := b.rejections + 1);
            rejections := rejections + 1;
            allowed := false;
          }
        case HalfOpen =>
      }
      breakers := breakers[i := b];
    }

    method CbSuccess(key: seq<byte>, now: int)
      modifies this
      ensures Contents() == Apply(old(Contents()), Success(key, now))
    {
      var at := FindOrCreate(key);
      if at.Some? {
        var b := breakers[at.value];
        b := b.(failures := 0, successes := b.successes + 1, lastSuccess := now);
        if b.mode == HalfOpen {
          b := b.(mode := Shut);
        }
        breakers := breakers[at.value := b];
      }
    }

    method CbFailure(key: seq<byte>, now: int)
      modifies this
      ensures Contents() == Apply(old(Contents()), Failure(key, now))
    {
      var at := FindOrCreate(key);
      if at.Some? {
        var b := breakers[at.value];
        b := b.(failures := b.failures + 1, successes := 0, lastFailure := now, totalFailures := b.totalFailures + 1);
        if b.mode == HalfOpen {
          b := b.(mode := Open);
        } else if b.mode == Shut && b.failures >= THRESHOLD {
          b := b.(mode := Open);
        }
        breakers := breakers[at.value := b];
      }
    }
  }

  lemma FindAppended(bs: seq<Breaker>, key: seq<byte>)
    requires !Tracked(bs, key)
    ensures Find(bs + [NewBreaker(key)], key, 0) == |bs|
  {
    var cs := bs + [NewBreaker(key)];
    assert forall j :: 0 <= j < |bs| ==> cs[j] == bs[j];
    assert cs[|bs|].key == key;
  }
}
