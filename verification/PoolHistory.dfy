/**
 The connection pool told by its history (src/http_pool.c): what every acquire answers is determined
 by the earlier acquires and releases alone, without looking into a slot.
 */
module PoolHistory {
  import opened Bytes
  import opened ConnPool

  /** The event puts a new connection into slot i. */
  predicate Opens(e: Event, i: nat) {
    e.Acquiring? && (e.how == Filled(i) || e.how == Evicted(i))
  }

  predicate HandsOut(e: Event, i: nat) {
    Opens(e, i) || (e.Acquiring? && e.how == Reused(i))
  }

  predicate TakesBack(e: Event, i: nat) {
    e.Releasing? && e.ref == Slot(i)
  }

  /** The event is an acquire whose scan goes past slot i. */
  predicate Passes(e: Event, i: nat) {
    e.Acquiring? && !Opens(e, i) && (e.how.Reused? ==> i < e.how.i)
  }

  /** The request for which the connection in slot i was last opened. */
  function Opening(events: seq<Event>, k: nat, i: nat): Option<Request>
    requires k <= |events|
  {
    if k == 0 then None
    else if Opens(events[k - 1], i) then Some(events[k - 1].q)
    else Opening(events, k - 1, i)
  }

  /** How often slot i was handed out since then, that acquire included. */
  function Uses(events: seq<Event>, k: nat, i: nat): nat
    requires k <= |events|
  {
    if k == 0 then 0
    else if Opens(events[k - 1], i) then 1
    else Uses(events, k - 1, i) + if HandsOut(events[k - 1], i) then 1 else 0
  }

  /** Slot i was handed out and not given back since. */
  predicate InHands(events: seq<Event>, k: nat, i: nat)
    requires k <= |events|
  {
    k > 0 && (HandsOut(events[k - 1], i) || (!TakesBack(events[k - 1], i) && InHands(events, k - 1, i)))
  }

  /** When slot i was last handed out or given back. */
  function LastTime(events: seq<Event>, k: nat, i: nat): int
    requires k <= |events|
  {
    if k == 0 then 0
    else if HandsOut(events[k - 1], i) || TakesBack(events[k - 1], i) then TimeOf(events[k - 1])
    else LastTime(events, k - 1, i)
  }

  /** Slot i, not in anybody's hands, was opened for the same host and port, and the request may reuse. */
  predicate Suits(events: seq<Event>, k: nat, i: nat, q: Request)
    requires k <= |events|
    decreases k, 1
  {
    && q.exempt && !Gone(events, k, i) && !InHands(events, k, i)
    && var o := Opening(events, k, i); o.Some? && o.value.host == q.host && o.value.port == q.port
  }

  /** Opened over 300 seconds ago, handed out 100 times, or dropped by the peer. */
  predicate Spent(events: seq<Event>, k: nat, i: nat, q: Request)
    requires k <= |events|
  {
    var o := Opening(events, k, i);
    && o.Some?
    && (q.now - o.value.now > 300 || Uses(events, k, i) >= 100 || (o.value.fd.Some? && o.value.fd.value in q.dead))
  }

  /** Slot i has no connection: never opened, given back for closing, or found spent by a scan. */
  predicate Gone(events: seq<Event>, k: nat, i: nat)
    requires k <= |events|
    decreases k, 0
  {
    if k == 0 then true
    else
      var e := events[k - 1];
      if HandsOut(e, i) then false
      else if TakesBack(e, i) then !e.keepAlive
      else
        || Gone(events, k - 1, i)
        || (Passes(e, i) && Suits(events, k - 1, i, e.q) && Spent(events, k - 1, i, e.q))
  }

  // ---------------------------------------------------------------- slots and history agree

  /** What slot i holds after one event. */
  function Moved(c: Conn, e: Event, i: nat): Conn {
    if Opens(e, i) && e.q.fd.Some? then NewConn(e.q.fd.value, e.q, true)
    else if HandsOut(e, i) then Again(c, e.q)
    else if TakesBack(e, i) then Returned(c, e.keepAlive, e.now)
    else if Passes(e, i) then Swept(c, e.q)
    else c
  }

  lemma SlotMoves(s: State, e: Event, s': State, i: nat)
    requires Step(s, e, s') && i < |s.conns|
    ensures |s'.conns| == |s.conns| && s'.conns[i] == Moved(s.conns[i], e, i)
    ensures Opens(e, i) ==> e.q.fd.Some?
  {
    if e.Acquiring? {
      if e.how.Reused? {
        var mid :| SweptTo(s.conns, e.how.i, e.q, mid) && s'.conns == mid[e.how.i := Again(s.conns[e.how.i], e.q)];
      } else {
        var mid :| SweptTo(s.conns, |s.conns|, e.q, mid) && Creates(e.how, e.q, mid, s.records, s'.conns, s'.records);
        assert mid[i] == Swept(s.conns[i], e.q);
      }
    }
  }

  /** A slot is as its history says. */
  predicate Told(events: seq<Event>, k: nat, i: nat, c: Conn)
    requires k <= |events|
  {
    && (c.fd < 0 <==> Gone(events, k, i)) && (InHands(events, k, i) ==> c.fd >= 0)
    && (c.fd >= 0 ==> ToldOpen(events, k, i, c))
  }

  predicate ToldOpen(events: seq<Event>, k: nat, i: nat, c: Conn)
    requires k <= |events|
  {
    var o := Opening(events, k, i);
    && o.Some? && o.value.fd == Some(c.fd) && o.value.host == c.host && o.value.port == c.port
    && o.value.now == c.createdAt && c.served == Uses(events, k, i) && c.keepAlive
    && c.inUse == InHands(events, k, i) && c.lastUsed == LastTime(events, k, i)
  }

  /** What makes an event possible for slot i as it is. */
  predicate Applies(c: Conn, e: Event, i: nat) {
    && (Opens(e, i) ==> e.q.fd.Some? && e.q.fd.value >= 0)
    && (HandsOut(e, i) && !Opens(e, i) ==> Fit(c, e.q))
    && (TakesBack(e, i) ==> c.inUse && c.fd >= 0)
  }

  lemma StepTold(events: seq<Event>, k: nat, i: nat, c: Conn)
    requires k < |events| && Told(events, k, i, c) && Applies(c, events[k], i)
    ensures Told(events, k + 1, i, Moved(c, events[k], i))
  {
  }

  /** Connects give descriptors, which are not negative. */
  predicate RealFds(events: seq<Event>) {
    forall k :: 0 <= k < |events| && events[k].Acquiring? && events[k].q.fd.Some? ==> events[k].q.fd.value >= 0
  }

  lemma StepApplies(s: State, e: Event, s': State, i: nat)
    requires Step(s, e, s') && i < |s.conns|
    requires e.Acquiring? && e.q.fd.Some? ==> e.q.fd.value >= 0
    requires s.conns[i].inUse ==> s.conns[i].fd >= 0
    ensures Applies(s.conns[i], e, i)
  {
    SlotMoves(s, e, s', i);
  }

  /** In every run every slot is as its history says. */
  lemma {:induction false} RunTold(states: seq<State>, events: seq<Event>, k: nat, i: nat)
    requires IsRun(states, events) && RealFds(events) && k <= |events| && i < |states[0].conns|
    ensures |states[k].conns| == |states[0].conns| && Told(events, k, i, states[k].conns[i])
    ensures states[k].conns[i].inUse ==> states[k].conns[i].fd >= 0
  {
    if k > 0 {
      RunTold(states, events, k - 1, i);
      assert StepAt(states, events, k - 1);
      SlotMoves(states[k - 1], events[k - 1], states[k], i);
      StepApplies(states[k - 1], events[k - 1], states[k], i);
      StepTold(events, k - 1, i, states[k - 1].conns[i]);
    }
  }

  // ---------------------------------------------------------------- what an acquire answers

  /** Slot i can be reused for q. */
  predicate Usable(events: seq<Event>, k: nat, i: nat, q: Request)
    requires k <= |events|
  {
    Suits(events, k, i, q) && !Spent(events, k, i, q)
  }

  /** Slot i is empty once the scan for q has passed it. */
  predicate Vacant(events: seq<Event>, k: nat, i: nat, q: Request)
    requires k <= |events|
  {
    Gone(events, k, i) || (Suits(events, k, i, q) && Spent(events, k, i, q))
  }

  /** Slot i has been idle longest, the last one of several. */
  predicate LongestIdle(events: seq<Event>, k: nat, cap: nat, i: nat)
    requires k <= |events|
  {
    && i < cap && !InHands(events, k, i)
    && (forall j: nat :: j < cap && !InHands(events, k, j) ==> LastTime(events, k, i) <= LastTime(events, k, j))
    && (forall j: nat :: i < j < cap && !InHands(events, k, j) ==> LastTime(events, k, i) < LastTime(events, k, j))
  }

  predicate AllInHands(events: seq<Event>, k: nat, cap: nat)
    requires k <= |events|
  {
    forall i: nat :: i < cap ==> InHands(events, k, i)
  }

  predicate NoneUsable(events: seq<Event>, k: nat, n: nat, q: Request)
    requires k <= |events|
  {
    forall i: nat :: i < n ==> !Usable(events, k, i, q)
  }

  predicate NoneVacant(events: seq<Event>, k: nat, n: nat, q: Request)
    requires k <= |events|
  {
    forall i: nat :: i < n ==> !Vacant(events, k, i, q)
  }

  /** The answer of an acquire after k events; the cases exclude each other. */
  predicate Answer(events: seq<Event>, k: nat, cap: nat, q: Request, how: How)
    requires k <= |events|
  {
    match how
    case Reused(i) => i < cap && Usable(events, k, i, q) && NoneUsable(events, k, i, q)
    case Filled(i) =>
      && NoneUsable(events, k, cap, q) && q.fd.Some?
      && i < cap && Vacant(events, k, i, q) && NoneVacant(events, k, i, q)
    case Evicted(i) =>
      && NoneUsable(events, k, cap, q) && q.fd.Some?
      && NoneVacant(events, k, cap, q) && LongestIdle(events, k, cap, i)
    case Overflowed(_) => q.fd.Some? && AllInHands(events, k, cap) && q.memory
    case Refused => NoneUsable(events, k, cap, q) && (q.fd.None? || (AllInHands(events, k, cap) && !q.memory))
  }

  /** What a scan sees of a slot is what its history says. */
  lemma ToldSlot(events: seq<Event>, k: nat, i: nat, c: Conn, q: Request)
    requires k <= |events| && Told(events, k, i, c)
    ensures Fit(c, q) <==> Usable(events, k, i, q)
    ensures Swept(c, q).fd < 0 <==> Vacant(events, k, i, q)
    ensures Idle(c) <==> !Gone(events, k, i) && !InHands(events, k, i)
    ensures Idle(c) ==> c.lastUsed == LastTime(events, k, i)
    ensures InHands(events, k, i) ==> !Gone(events, k, i)
  {
  }

  ghost predicate AllTold(events: seq<Event>, k: nat, cs: seq<Conn>)
    requires k <= |events|
  {
    forall i: nat :: i < |cs| ==> Told(events, k, i, cs[i])
  }

  lemma SweptTold(events: seq<Event>, k: nat, cs: seq<Conn>, n: nat, q: Request, mid: seq<Conn>)
    requires k <= |events| && AllTold(events, k, cs) && SweptTo(cs, n, q, mid)
    ensures NoneUsable(events, k, n, q)
    ensures forall i: nat :: i < n ==> (mid[i].fd < 0 <==> Vacant(events, k, i, q))
  {
    forall i: nat | i < n
      ensures !Usable(events, k, i, q) && (mid[i].fd < 0 <==> Vacant(events, k, i, q))
    {
      ToldSlot(events, k, i, cs[i], q);
    }
  }

  /** A full pool without anything idle not later than now is all in hands. */
  lemma BusyTold(events: seq<Event>, k: nat, cs: seq<Conn>, q: Request)
    requires k <= |events| && AllTold(events, k, cs) && Full(cs) && NothingIdle(cs, q.now) && Clocked(cs, q.now)
    ensures AllInHands(events, k, |cs|)
  {
    forall i: nat | i < |cs|
      ensures InHands(events, k, i)
    {
      ToldSlot(events, k, i, cs[i], q);
    }
  }

  lemma OldestTold(events: seq<Event>, k: nat, cs: seq<Conn>, i: nat, q: Request)
    requires k <= |events| && AllTold(events, k, cs) && Full(cs) && Oldest(cs, i, q.now)
    ensures LongestIdle(events, k, |cs|, i)
  {
    ToldSlot(events, k, i, cs[i], q);
    forall j: nat | j < |cs| && !InHands(events, k, j)
      ensures LastTime(events, k, i) <= LastTime(events, k, j)
      ensures i < j ==> LastTime(events, k, i) < LastTime(events, k, j)
    {
      ToldSlot(events, k, j, cs[j], q);
    }
  }

  lemma CreateAnswers(events: seq<Event>, k: nat, how: How, q: Request, cs: seq<Conn>, rs: map<nat, Conn>,
                      cs': seq<Conn>, rs': map<nat, Conn>)
    requires k <= |events| && AllTold(events, k, cs) && Clocked(cs, q.now)
    requires Acquires(how, q, cs, rs, cs', rs') && !how.Reused?
    ensures Answer(events, k, |cs|, q, how)
  {
    var mid :| SweptTo(cs, |cs|, q, mid) && Creates(how, q, mid, rs, cs', rs');
    SweptTold(events, k, cs, |cs|, q, mid);
    match how
    case Filled(i) =>
      assert forall j: nat :: j < i ==> mid[..i][j] == mid[j];
    case Evicted(i) =>
      FullNotSwept(cs, q, mid);
      OldestTold(events, k, cs, i, q);
    case Overflowed(_) =>
      FullNotSwept(cs, q, mid);
      BusyTold(events, k, cs, q);
    case Refused =>
      if q.fd.Some? {
        FullNotSwept(cs, q, mid);
        BusyTold(events, k, cs, q);
      }
  }

  /**
   In every run with a nondecreasing clock the answer of every acquire follows from the earlier
   events: reuse of the first usable slot, else the first vacant one, else the one idle longest,
   else a record of its own.
   */
  lemma AcquireAnswers(states: seq<State>, events: seq<Event>, k: nat)
    requires IsRun(states, events) && RealFds(events) && k < |events| && events[k].Acquiring?
    ensures Answer(events, k, |states[0].conns|, events[k].q, events[k].how)
  {
    var s, s', q, how := states[k], states[k + 1], events[k].q, events[k].how;
    assert StepAt(states, events, k);
    RunClocked(states, events, k);
    RunSize(states, events, k);
    forall i: nat | i < |s.conns|
      ensures Told(events, k, i, s.conns[i])
    {
      RunTold(states, events, k, i);
    }
    if how.Reused? {
      var mid :| SweptTo(s.conns, how.i, q, mid) && s'.conns == mid[how.i := Again(s.conns[how.i], q)];
      SweptTold(events, k, s.conns, how.i, q, mid);
      ToldSlot(events, k, how.i, s.conns[how.i], q);
    } else {
      CreateAnswers(events, k, how, q, s.conns, s.records, s'.conns, s'.records);
    }
  }

  lemma {:induction false} RunSize(states: seq<State>, events: seq<Event>, k: nat)
    requires IsRun(states, events) && k <= |events|
    ensures |states[k].conns| == |states[0].conns|
  {
    if k > 0 {
      RunSize(states, events, k - 1);
      assert StepAt(states, events, k - 1);
    }
  }

  /** Two answers to one request are the same, but for the number of a record. */
  lemma AnswerUnique(events: seq<Event>, k: nat, cap: nat, q: Request, how: How, how': How)
    requires k <= |events| && Answer(events, k, cap, q, how) && Answer(events, k, cap, q, how')
    ensures how == how' || (how.Overflowed? && how'.Overflowed?)
  {
    forall i: nat | i < cap && InHands(events, k, i)
      ensures !Gone(events, k, i)
    {
      HeldNotGone(events, k, i);
    }
  }

  lemma {:induction false} HeldNotGone(events: seq<Event>, k: nat, i: nat)
    requires k <= |events| && InHands(events, k, i)
    ensures !Gone(events, k, i)
  {
    if !HandsOut(events[k - 1], i) {
      HeldNotGone(events, k - 1, i);
    }
  }

  // ---------------------------------------------------------------- the life of a reused connection

  /** Event j opened the connection that is in slot i before event k. */
  predicate OpenedBy(events: seq<Event>, j: nat, k: nat, i: nat) {
    j < k <= |events| && Opens(events[j], i) && forall m :: j < m < k ==> !Opens(events[m], i)
  }

  /** How many of the events from j up to k handed out slot i. */
  function Handed(events: seq<Event>, j: nat, k: nat, i: nat): nat
    requires j <= k <= |events|
  {
    if j == k then 0 else Handed(events, j, k - 1, i) + if HandsOut(events[k - 1], i) then 1 else 0
  }

  lemma {:induction false} OpeningEvent(events: seq<Event>, k: nat, i: nat) returns (j: nat)
    requires k <= |events| && Opening(events, k, i).Some?
    ensures OpenedBy(events, j, k, i) && Opening(events, k, i) == Some(events[j].q)
    ensures Uses(events, k, i) == Handed(events, j, k, i)
  {
    if Opens(events[k - 1], i) {
      j := k - 1;
      assert Handed(events, j, j, i) == 0;
    } else {
      j := OpeningEvent(events, k - 1, i);
    }
  }

  /**
   A reused connection was opened by an earlier acquire for the very same host and port, at most 300
   seconds before, has been handed out fewer than 100 times since, and is in nobody's hands.
   */
  lemma ReusedLife(states: seq<State>, events: seq<Event>, k: nat) returns (j: nat)
    requires IsRun(states, events) && RealFds(events) && k < |events|
    requires events[k].Acquiring? && events[k].how.Reused?
    ensures OpenedBy(events, j, k, events[k].how.i)
    ensures events[k].q.exempt && events[j].q.host == events[k].q.host && events[j].q.port == events[k].q.port
    ensures events[k].q.now - events[j].q.now <= 300 && Handed(events, j, k, events[k].how.i) < 100
    ensures events[j].q.fd.Some? && events[j].q.fd.value !in events[k].q.dead
    ensures !InHands(events, k, events[k].how.i)
  {
    AcquireAnswers(states, events, k);
    j := OpeningEvent(events, k, events[k].how.i);
    RunTold(states, events, k, events[k].how.i);
  }
}
