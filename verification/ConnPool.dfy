/**
 The connection slots of the HTTP pool (src/http_pool.c): reuse, creation, eviction, overflow
 records, and release. Acquire and release are atomic calls here. Descriptors are identities: a
 connect yields one that was never seen before. Sockets, DNS and the clock are inputs.
 */
module ConnPool {
  import opened Bytes

  const MAX_AGE := 300
  const MAX_REQUESTS := 100

  /** One connection record; fd is -1 when the slot is empty. */
  datatype Conn = Conn(
    fd: int, host: seq<byte>, port: nat, createdAt: int, lastUsed: int, inUse: bool, keepAlive: bool, served: nat)

  const EMPTY := Conn(-1, [], 0, 0, 0, false, false, 0)

  /** The conn pointer callers hold: a slot of the pool or a heap record outside it. */
  datatype Ref = Slot(i: nat) | Record(k: nat)

  /** Where a descriptor is. */
  datatype Place = At(ref: Ref) | Closed

  /**
   What a caller asks for and what the outside world answers: dead are the descriptors whose peer
   is gone, fd the descriptor a connect would give (None when resolving or connecting fails),
   memory whether an overflow record can be allocated.
   */
  datatype Request = Request(
    host: seq<byte>, port: nat, exempt: bool, now: int, dead: set<int>, fd: Option<int>, memory: bool)

  datatype How = Refused | Reused(i: nat) | Filled(i: nat) | Evicted(i: nat) | Overflowed(k: nat)

  predicate Idle(c: Conn) { c.fd >= 0 && !c.inUse }

  predicate Serves(c: Conn, q: Request) { q.exempt && Idle(c) && c.host == q.host && c.port == q.port }

  /** Too old, used up, or dropped by the peer. */
  predicate Stale(c: Conn, q: Request) {
    q.now - c.createdAt > MAX_AGE || c.served >= MAX_REQUESTS || c.fd in q.dead
  }

  predicate Fit(c: Conn, q: Request) { Serves(c, q) && !Stale(c, q) }

  function NewConn(fd: int, q: Request, keepAlive: bool): Conn {
    Conn(fd, q.host, q.port, q.now, q.now, true, keepAlive, 1)
  }

  function Again(c: Conn, q: Request): Conn {
    c.(inUse := true, lastUsed := q.now, served := c.served + 1)
  }

  /** A slot the scan has passed: a stale connection to this upstream is closed. */
  function Swept(c: Conn, q: Request): Conn {
    if Serves(c, q) && Stale(c, q) then c.(fd := -1) else c
  }

  /** The slots after the scan has passed the first n. */
  ghost predicate SweptTo(cs: seq<Conn>, n: nat, q: Request, after: seq<Conn>) {
    && n <= |cs| == |after|
    && (forall i :: 0 <= i < n ==> after[i] == Swept(cs[i], q) && !Fit(cs[i], q))
    && (forall i :: n <= i < |cs| ==> after[i] == cs[i])
  }

  lemma SweptMore(cs: seq<Conn>, n: nat, q: Request, after: seq<Conn>)
    requires SweptTo(cs, n, q, after) && n < |cs| && !Fit(after[n], q)
    ensures SweptTo(cs, n + 1, q, after[n := Swept(after[n], q)])
  {
  }

  /** The slot eviction picks: idle, not later than now, of least last use, the last one of those. */
  predicate Oldest(cs: seq<Conn>, i: nat, now: int) {
    && i < |cs| && Idle(cs[i]) && cs[i].lastUsed <= now
    && (forall j :: 0 <= j < |cs| && Idle(cs[j]) ==> cs[i].lastUsed <= cs[j].lastUsed)
    && (forall j :: i < j < |cs| && Idle(cs[j]) ==> cs[i].lastUsed < cs[j].lastUsed)
  }

  predicate Full(cs: seq<Conn>) {
    forall i :: 0 <= i < |cs| ==> cs[i].fd >= 0
  }

  predicate NothingIdle(cs: seq<Conn>, now: int) {
    forall i :: 0 <= i < |cs| && Idle(cs[i]) ==> cs[i].lastUsed > now
  }

  /** What an acquire does to slots and records. */
  ghost predicate Acquires(how: How, q: Request, cs: seq<Conn>, rs: map<nat, Conn>,
                           cs': seq<Conn>, rs': map<nat, Conn>)
  {
    match how
    case Reused(i) =>
      rs' == rs && i < |cs| && Fit(cs[i], q) && exists mid :: SweptTo(cs, i, q, mid) && cs' == mid[i := Again(cs[i], q)]
    case _ =>
      exists mid :: SweptTo(cs, |cs|, q, mid) && Creates(how, q, mid, rs, cs', rs')
  }

  /** The part after the scan found nothing; mid is what the scan left. */
  ghost predicate Creates(how: How, q: Request, mid: seq<Conn>, rs: map<nat, Conn>,
                          cs': seq<Conn>, rs': map<nat, Conn>)
  {
    match how
    case Refused =>
      && cs' == mid && rs' == rs
      && (q.fd.None? || (!q.memory && Full(mid) && NothingIdle(mid, q.now)))
    case Filled(i) =>
      && q.fd.Some? && rs' == rs
      && i < |mid| && mid[i].fd < 0 && Full(mid[..i]) && cs' == mid[i := NewConn(q.fd.value, q, true)]
    case Evicted(i) =>
      && q.fd.Some? && rs' == rs
      && Full(mid) && Oldest(mid, i, q.now) && cs' == mid[i := NewConn(q.fd.value, q, true)]
    case Overflowed(k) =>
      && q.fd.Some? && q.memory && cs' == mid && k !in rs
      && Full(mid) && NothingIdle(mid, q.now) && rs' == rs[k := NewConn(q.fd.value, q, false)]
    case Reused(i) => false
  }

  // ---------------------------------------------------------------- descriptors

  /** Every slot and record that has a descriptor is where that descriptor is, and the other way round. */
  ghost predicate Placed(conns: seq<Conn>, records: map<nat, Conn>, place: map<int, Place>) {
    && (forall i: nat :: i < |conns| && conns[i].fd >= 0 ==> conns[i].fd in place && place[conns[i].fd] == At(Slot(i)))
    && (forall k :: k in records ==> records[k].fd in place && place[records[k].fd] == At(Record(k)))
    && (forall fd :: fd in place ==> fd >= 0 && Holds(conns, records, place[fd], fd))
  }

  ghost predicate Holds(conns: seq<Conn>, records: map<nat, Conn>, p: Place, fd: int) {
    match p
    case Closed => true
    case At(Slot(i)) => i < |conns| && conns[i].fd == fd
    case At(Record(k)) => k in records && records[k].fd == fd
  }

  /**
   A slot is in use only with a descriptor, is kept alive and has served at most 100 requests; a
   record is always in use and never kept alive.
   */
  predicate WellUsed(conns: seq<Conn>, records: map<nat, Conn>) {
    && (forall i :: 0 <= i < |conns| && conns[i].inUse ==> conns[i].fd >= 0)
    && (forall i :: 0 <= i < |conns| && conns[i].fd >= 0 ==> conns[i].keepAlive && conns[i].served <= MAX_REQUESTS)
    && (forall k :: k in records ==> records[k].fd >= 0 && records[k].inUse && !records[k].keepAlive)
  }

  ghost predicate Sound(conns: seq<Conn>, records: map<nat, Conn>, next: nat, place: map<int, Place>) {
    && Placed(conns, records, place)
    && WellUsed(conns, records)
    && forall k :: k in records ==> k < next
  }

  lemma SoundClosed(cs: seq<Conn>, rs: map<nat, Conn>, next: nat, place: map<int, Place>, i: nat, c: Conn)
    requires Sound(cs, rs, next, place) && i < |cs| && cs[i].fd >= 0 && c.fd == -1 && !c.inUse
    ensures Sound(cs[i := c], rs, next, place[cs[i].fd := Closed])
  {
  }

  lemma SoundFilled(cs: seq<Conn>, rs: map<nat, Conn>, next: nat, place: map<int, Place>, i: nat, c: Conn)
    requires Sound(cs, rs, next, place) && i < |cs| && cs[i].fd < 0
    requires c.fd >= 0 && c.fd !in place && c.keepAlive && c.served <= MAX_REQUESTS
    ensures Sound(cs[i := c], rs, next, place[c.fd := At(Slot(i))])
  {
  }

  /** Changing anything but the descriptor of a slot. */
  lemma SoundMarked(cs: seq<Conn>, rs: map<nat, Conn>, next: nat, place: map<int, Place>, i: nat, c: Conn)
    requires Sound(cs, rs, next, place) && i < |cs| && c.fd == cs[i].fd >= 0 && c.keepAlive && c.served <= MAX_REQUESTS
    ensures Sound(cs[i := c], rs, next, place)
  {
  }

  lemma SoundRecorded(cs: seq<Conn>, rs: map<nat, Conn>, next: nat, place: map<int, Place>, c: Conn)
    requires Sound(cs, rs, next, place) && c.fd >= 0 && c.fd !in place && c.inUse && !c.keepAlive
    ensures Sound(cs, rs[next := c], next + 1, place[c.fd := At(Record(next))])
  {
  }

  lemma SoundFreed(cs: seq<Conn>, rs: map<nat, Conn>, next: nat, place: map<int, Place>, k: nat)
    requires Sound(cs, rs, next, place) && k in rs
    ensures Sound(cs, rs - {k}, next, place[rs[k].fd := Closed])
  {
  }

  lemma SoundLost(cs: seq<Conn>, rs: map<nat, Conn>, next: nat, place: map<int, Place>, fd: int)
    requires Sound(cs, rs, next, place) && fd >= 0 && fd !in place
    ensures Sound(cs, rs, next, place[fd := Closed])
  {
  }

  /** Every opened descriptor has a count of its closes: one if it is closed, none if it is not. */
  ghost predicate Counted(place: map<int, Place>, closes: map<int, nat>) {
    closes.Keys == place.Keys && forall fd :: fd in place ==> closes[fd] == if place[fd] == Closed then 1 else 0
  }

  /** No descriptor is lost, none comes back once closed. */
  ghost predicate Later(before: map<int, Place>, after: map<int, Place>) {
    before.Keys <= after.Keys && forall fd :: fd in before && before[fd] == Closed ==> after[fd] == Closed
  }

  /**
   An opened descriptor is in exactly one slot, in exactly one record, or was closed exactly once;
   otherwise never.
   */
  lemma OnePlace(conns: seq<Conn>, records: map<nat, Conn>, place: map<int, Place>, closes: map<int, nat>, fd: int)
    requires Placed(conns, records, place) && Counted(place, closes) && fd in place
    ensures closes[fd] == 1 <==>
              && (forall i :: 0 <= i < |conns| ==> conns[i].fd != fd)
              && (forall k :: k in records ==> records[k].fd != fd)
    ensures closes[fd] == 0 <==>
              || (exists i :: 0 <= i < |conns| && conns[i].fd == fd)
              || (exists k :: k in records && records[k].fd == fd)
    ensures forall i, j :: 0 <= i < |conns| && 0 <= j < |conns| && conns[i].fd == fd == conns[j].fd ==> i == j
    ensures forall k, l :: k in records && l in records && records[k].fd == fd == records[l].fd ==> k == l
    ensures forall i, k :: 0 <= i < |conns| && k in records ==> !(conns[i].fd == fd == records[k].fd)
  {
    assert Holds(conns, records, place[fd], fd);
    assert forall i: nat :: i < |conns| && conns[i].fd == fd ==> place[fd] == At(Slot(i));
    assert forall k :: k in records && records[k].fd == fd ==> place[fd] == At(Record(k));
  }

  // ---------------------------------------------------------------- what an acquire chooses

  /** A connection is reused exactly when the upstream is allowlisted and a fit idle one exists; the first is taken. */
  lemma ReusesIff(how: How, q: Request, cs: seq<Conn>, rs: map<nat, Conn>, cs': seq<Conn>, rs': map<nat, Conn>)
    requires Acquires(how, q, cs, rs, cs', rs')
    ensures how.Reused? <==> exists i :: 0 <= i < |cs| && Fit(cs[i], q)
    ensures how.Reused? ==> how.i < |cs| && Fit(cs[how.i], q) && forall j :: 0 <= j < how.i ==> !Fit(cs[j], q)
  {
  }

  /** Nothing a caller holds changes, and what an acquire hands out was not held. */
  lemma LoansKept(how: How, q: Request, cs: seq<Conn>, rs: map<nat, Conn>, cs': seq<Conn>, rs': map<nat, Conn>)
    requires Acquires(how, q, cs, rs, cs', rs')
    ensures |cs'| == |cs| && forall i :: 0 <= i < |cs| && cs[i].fd >= 0 && cs[i].inUse ==> cs'[i] == cs[i]
    ensures forall k :: k in rs ==> k in rs' && rs'[k] == rs[k]
    ensures how.Reused? || how.Filled? || how.Evicted? ==> how.i < |cs| && !(cs[how.i].fd >= 0 && cs[how.i].inUse)
    ensures how.Overflowed? ==> how.k !in rs
  {
  }

  /** An acquire makes no connection idle, and hands out an idle one on its own descriptor when it reuses. */
  lemma IdleKept(how: How, q: Request, cs: seq<Conn>, rs: map<nat, Conn>, cs': seq<Conn>, rs': map<nat, Conn>)
    requires Acquires(how, q, cs, rs, cs', rs')
    ensures |cs'| == |cs| && forall i :: 0 <= i < |cs| && Idle(cs'[i]) ==> Idle(cs[i]) && cs[i].fd == cs'[i].fd
    ensures how.Reused? ==> how.i < |cs| && Idle(cs[how.i]) && cs'[how.i].fd == cs[how.i].fd
  {
  }

  /** A full pool that holds nothing stale: eviction and overflow leave the scan no change behind. */
  lemma FullNotSwept(cs: seq<Conn>, q: Request, mid: seq<Conn>)
    requires SweptTo(cs, |cs|, q, mid) && Full(mid)
    ensures mid == cs
  {
    assert forall i :: 0 <= i < |cs| ==> mid[i] == cs[i];
  }

  /** Every idle connection was last used at or before now. */
  predicate Clocked(cs: seq<Conn>, now: int) {
    forall i :: 0 <= i < |cs| && Idle(cs[i]) ==> cs[i].lastUsed <= now
  }

  /** With a clock that does not go back, a record is made only when every slot is busy. */
  lemma OverflowOnlyWhenBusy(how: How, q: Request, cs: seq<Conn>, rs: map<nat, Conn>,
                             cs': seq<Conn>, rs': map<nat, Conn>)
    requires Acquires(how, q, cs, rs, cs', rs') && how.Overflowed? && Clocked(cs, q.now)
    ensures forall i :: 0 <= i < |cs| ==> cs[i].fd >= 0 && cs[i].inUse
  {
    var mid :| SweptTo(cs, |cs|, q, mid) && Creates(how, q, mid, rs, cs', rs');
    FullNotSwept(cs, q, mid);
  }

  /** An eviction takes, from a full pool, an idle slot of least last use. */
  lemma EvictsOldest(how: How, q: Request, cs: seq<Conn>, rs: map<nat, Conn>, cs': seq<Conn>, rs': map<nat, Conn>)
    requires Acquires(how, q, cs, rs, cs', rs') && how.Evicted?
    ensures Full(cs) && Oldest(cs, how.i, q.now)
  {
    var mid :| SweptTo(cs, |cs|, q, mid) && Creates(how, q, mid, rs, cs', rs');
    FullNotSwept(cs, q, mid);
  }

  // ---------------------------------------------------------------- runs

  datatype Event = Acquiring(q: Request, how: How) | Releasing(ref: Ref, keepAlive: bool, now: int)

  datatype State = State(conns: seq<Conn>, records: map<nat, Conn>)

  function TimeOf(e: Event): int {
    match e
    case Acquiring(q, _) => q.now
    case Releasing(_, _, now) => now
  }

  function Returned(c: Conn, keepAlive: bool, now: int): Conn {
    if keepAlive && c.keepAlive then c.(inUse := false, lastUsed := now) else c.(fd := -1, inUse := false)
  }

  ghost predicate Releases(ref: Ref, keepAlive: bool, now: int, s: State, s': State) {
    match ref
    case Slot(i) =>
      i < |s.conns| && s.conns[i].inUse && s' == s.(conns := s.conns[i := Returned(s.conns[i], keepAlive, now)])
    case Record(k) =>
      k in s.records && s' == s.(records := s.records - {k})
  }

  ghost predicate Step(s: State, e: Event, s': State) {
    match e
    case Acquiring(q, how) => Acquires(how, q, s.conns, s.records, s'.conns, s'.records)
    case Releasing(ref, keepAlive, now) => Releases(ref, keepAlive, now, s, s')
  }

  /** states[k] is reached after k events of a new pool, and the clock never goes back. */
  ghost predicate StepAt(states: seq<State>, events: seq<Event>, k: nat) {
    k + 1 < |states| && k < |events| && Step(states[k], events[k], states[k + 1])
    && (k > 0 ==> TimeOf(events[k - 1]) <= TimeOf(events[k]))
  }

  ghost predicate IsRun(states: seq<State>, events: seq<Event>) {
    && |states| == |events| + 1
    && states[0].records == map[] && (forall i :: 0 <= i < |states[0].conns| ==> states[0].conns[i] == EMPTY)
    && forall k: nat :: k < |events| ==> StepAt(states, events, k)
  }

  lemma StepClocked(s: State, e: Event, s': State, now: int)
    requires Step(s, e, s') && Clocked(s.conns, now) && now <= TimeOf(e)
    ensures Clocked(s'.conns, TimeOf(e))
  {
  }

  lemma {:induction false} RunClocked(states: seq<State>, events: seq<Event>, k: nat)
    requires IsRun(states, events) && k < |events|
    ensures Clocked(states[k].conns, TimeOf(events[k]))
  {
    assert StepAt(states, events, k);
    if k > 0 {
      RunClocked(states, events, k - 1);
      assert StepAt(states, events, k - 1);
      StepClocked(states[k - 1], events[k - 1], states[k], TimeOf(events[k - 1]));
    }
  }

  /**
   In every run with a nondecreasing clock: overflow only when all slots are busy, eviction only of
   the least recently used.
   */
  lemma RunChoices(states: seq<State>, events: seq<Event>, k: nat)
    requires IsRun(states, events) && k < |events| && events[k].Acquiring?
    ensures var cs, q, how := states[k].conns, events[k].q, events[k].how;
            && (how.Overflowed? ==> forall i :: 0 <= i < |cs| ==> cs[i].fd >= 0 && cs[i].inUse)
            && (how.Evicted? ==> Full(cs) && Oldest(cs, how.i, q.now))
            && (how.Reused? <==> exists i :: 0 <= i < |cs| && Fit(cs[i], q))
  {
    var s, s', q, how := states[k], states[k + 1], events[k].q, events[k].how;
    assert StepAt(states, events, k);
    RunClocked(states, events, k);
    ReusesIff(how, q, s.conns, s.records, s'.conns, s'.records);
    if how.Overflowed? {
      OverflowOnlyWhenBusy(how, q, s.conns, s.records, s'.conns, s'.records);
    } else if how.Evicted? {
      EvictsOldest(how, q, s.conns, s.records, s'.conns, s'.records);
    }
  }

  class Pool {
    var conns: seq<Conn>
    var records: map<nat, Conn>
    var nextRecord: nat
    var acquires: nat
    var releases: nat
    var reuses: nat
    var creates: nat
    var evictions: nat
    /** Every descriptor ever opened and where it is now. */
    ghost var place: map<int, Place>
    /** How often close was called on each of them. */
    ghost var closes: map<int, nat>

    ghost predicate Valid()
      reads this
    {
      Sound(conns, records, nextRecord, place) && Counted(place, closes) && acquires == reuses + creates
    }

    /** vwasm_http_pool_new: 16 slots by default, at most 256. */
    constructor (maxConns: nat)
      ensures Valid() && place == map[] && records == map[] && acquires == 0 && releases == 0
      ensures |conns| == (if maxConns == 0 then 16 else Min(maxConns, 256))
      ensures forall i :: 0 <= i < |conns| ==> conns[i] == EMPTY
    {
      conns := seq(if maxConns == 0 then 16 else Min(maxConns, 256), i => EMPTY);
      records, nextRecord := map[], 0;
      acquires, releases, reuses, creates, evictions := 0, 0, 0, 0, 0;
      place, closes := map[], map[];
    }

    /** The connection a pointer points to is in the hands of a caller. */
    predicate Held(ref: Ref)
      reads this
    {
      match ref
      case Slot(i) => i < |conns| && conns[i].inUse
      case Record(k) => k in records
    }

    function Get(ref: Ref): Conn
      reads this
      requires Held(ref)
    {
      match ref
      case Slot(i) => conns[i]
      case Record(k) => records[k]
    }

    /** The scan for a fit idle connection, closing stale ones on the way. */
    method Scan(q: Request) returns (found: Option<nat>)
      requires Valid()
      modifies this`conns, this`place, this`closes
      ensures Valid() && Later(old(place), place) && place.Keys == old(place).Keys
      ensures SweptTo(old(conns), if found.Some? then found.value else |old(conns)|, q, conns)
      ensures found.Some? ==> found.value < |conns| && Fit(conns[found.value], q)
    {
      for i := 0 to |conns|
        invariant Valid() && Later(old(place), place) && place.Keys == old(place).Keys
        invariant SweptTo(old(conns), i, q, conns)
      {
        if Serves(conns[i], q) && !Stale(conns[i], q) {
          return Some(i);
        }
        SweptMore(old(conns), i, q, conns);
        PassSlot(i, q);
      }
      return None;
    }

    /** A slot the scan goes past; closed when it is one to this upstream, but stale. */
    method PassSlot(i: nat, q: Request)
      requires Valid() && i < |conns| && !Fit(conns[i], q)
      modifies this`conns, this`place, this`closes
      ensures Valid() && conns == old(conns)[i := Swept(old(conns)[i], q)]
      ensures Later(old(place), place) && place.Keys == old(place).Keys
    {
      if Serves(conns[i], q) {
        CloseSlot(i);
      }
    }

    /** A connect succeeded: a new descriptor, at ref. */
    ghost method OpenFd(fd: int, ref: Ref)
      requires fd !in place
      modifies this`place, this`closes
      ensures place == old(place)[fd := At(ref)] && closes == old(closes)[fd := 0]
    {
      place, closes := place[fd := At(ref)], closes[fd := 0];
    }

    /** One close(fd). */
    ghost method CloseFd(fd: int)
      requires fd in closes
      modifies this`place, this`closes
      ensures place == old(place)[fd := Closed] && closes == old(closes)[fd := old(closes)[fd] + 1]
    {
      place, closes := place[fd := Closed], closes[fd := closes[fd] + 1];
    }

    /** close(c->fd); c->fd = -1 on an idle slot. */
    method CloseSlot(i: nat)
      requires Valid() && i < |conns| && Idle(conns[i])
      modifies this`conns, this`place, this`closes
      ensures Valid() && conns == old(conns)[i := old(conns)[i].(fd := -1)]
      ensures place == old(place)[old(conns)[i].fd := Closed] && closes == old(closes)[old(conns)[i].fd := 1]
    {
      SoundClosed(conns, records, nextRecord, place, i, conns[i].(fd := -1));
      CloseFd(conns[i].fd);
      conns := conns[i := conns[i].(fd := -1)];
    }

    method FindFree() returns (found: Option<nat>)
      ensures found.Some? ==> found.value < |conns| && conns[found.value].fd < 0 && Full(conns[..found.value])
      ensures found.None? ==> Full(conns)
    {
      for i := 0 to |conns|
        invariant Full(conns[..i])
      {
        if conns[i].fd < 0 {
          return Some(i);
        }
      }
      assert conns[..|conns|] == conns;
      return None;
    }

    method FindOldest(now: int) returns (found: Option<nat>)
      ensures found.Some? ==> Oldest(conns, found.value, now)
      ensures found.None? ==> NothingIdle(conns, now)
    {
      var oldestTime := now;
      found := None;
      for i := 0 to |conns|
        invariant found.None? ==>
                    oldestTime == now && forall j :: 0 <= j < i && Idle(conns[j]) ==> conns[j].lastUsed > now
        invariant found.Some? ==>
                    && found.value < i && Idle(conns[found.value])
                    && conns[found.value].lastUsed == oldestTime <= now
        invariant found.Some? ==> forall j :: 0 <= j < i && Idle(conns[j]) ==> oldestTime <= conns[j].lastUsed
        invariant found.Some? ==> forall j :: found.value < j < i && Idle(conns[j]) ==> oldestTime < conns[j].lastUsed
      {
        if Idle(conns[i]) && conns[i].lastUsed <= oldestTime {
          oldestTime, found := conns[i].lastUsed, Some(i);
        }
      }
    }

    /** Puts a new connection into a slot that holds none. */
    method FillSlot(i: nat, fd: int, q: Request)
      requires Valid() && i < |conns| && conns[i].fd < 0 && fd >= 0 && fd !in place
      modifies this`conns, this`place, this`closes, this`acquires, this`creates
      ensures Valid() && conns == old(conns)[i := NewConn(fd, q, true)]
      ensures place == old(place)[fd := At(Slot(i))] && acquires == old(acquires) + 1 && creates == old(creates) + 1
    {
      SoundFilled(conns, records, nextRecord, place, i, NewConn(fd, q, true));
      conns := conns[i := NewConn(fd, q, true)];
      OpenFd(fd, Slot(i));
      creates, acquires := creates + 1, acquires + 1;
    }

    /** Closes an idle connection and puts the new one in its place. */
    method EvictSlot(i: nat, fd: int, q: Request)
      requires Valid() && i < |conns| && Idle(conns[i]) && fd >= 0 && fd !in place
      modifies this`conns, this`place, this`closes, this`acquires, this`creates, this`evictions
      ensures Valid() && Later(old(place), place) && conns == old(conns)[i := NewConn(fd, q, true)]
      ensures place.Keys == old(place).Keys + {fd} && closes[old(conns)[i].fd] == 1
      ensures acquires == old(acquires) + 1 && creates == old(creates) + 1 && evictions == old(evictions) + 1
    {
      CloseSlot(i);
      FillSlot(i, fd, q);
      evictions := evictions + 1;
    }

    /** A new connection that finds no place is closed. */
    method DropFd(fd: int)
      requires Valid() && fd >= 0 && fd !in place
      modifies this`place, this`closes
      ensures Valid() && place == old(place)[fd := Closed] && closes == old(closes)[fd := 1]
    {
      SoundLost(conns, records, nextRecord, place, fd);
      OpenFd(fd, Record(nextRecord));
      CloseFd(fd);
    }

    /** A heap record for a connection without a slot. */
    method AddRecord(fd: int, q: Request)
      requires Valid() && fd >= 0 && fd !in place
      modifies this`records, this`nextRecord, this`place, this`closes, this`acquires, this`creates
      ensures Valid() && records == old(records)[old(nextRecord) := NewConn(fd, q, false)]
      ensures old(nextRecord) !in old(records) && place == old(place)[fd := At(Record(old(nextRecord)))]
      ensures acquires == old(acquires) + 1 && creates == old(creates) + 1
    {
      SoundRecorded(conns, records, nextRecord, place, NewConn(fd, q, false));
      OpenFd(fd, Record(nextRecord));
      records := records[nextRecord := NewConn(fd, q, false)];
      nextRecord := nextRecord + 1;
      creates, acquires := creates + 1, acquires + 1;
    }

    /** vwasm_http_pool_acquire, once the breaker let it through. */
    method Acquire(q: Request) returns (how: How)
      requires Valid()
      requires q.fd.Some? ==> q.fd.value >= 0 && q.fd.value !in place
      modifies this
      ensures Valid() && Later(old(place), place)
      ensures Acquires(how, q, old(conns), old(records), conns, records)
      ensures how.Reused? || q.fd.None? ==> place.Keys == old(place).Keys
      ensures !how.Reused? && q.fd.Some? ==>
                place.Keys == old(place).Keys + {q.fd.value} && (how.Refused? ==> closes[q.fd.value] == 1)
      ensures releases == old(releases) && acquires == old(acquires) + (if how.Refused? then 0 else 1)
      ensures reuses == old(reuses) + (if how.Reused? then 1 else 0)
      ensures evictions == old(evictions) + (if how.Evicted? then 1 else 0)
    {
      var found := Scan(q);
      if found.Some? {
        var i := found.value;
        SoundMarked(conns, records, nextRecord, place, i, Again(conns[i], q));
        conns := conns[i := Again(conns[i], q)];
        reuses, acquires := reuses + 1, acquires + 1;
        return Reused(i);
      }
      if q.fd.None? {
        return Refused;
      }
      how := Create(q);
    }

    /** Places the new descriptor: a free slot, else the oldest idle slot, else a record. */
    method Create(q: Request) returns (how: How)
      requires Valid() && q.fd.Some? && q.fd.value >= 0 && q.fd.value !in place
      modifies this
      ensures Valid() && Later(old(place), place)
      ensures Creates(how, q, old(conns), old(records), conns, records)
      ensures place.Keys == old(place).Keys + {q.fd.value} && (how.Refused? ==> closes[q.fd.value] == 1)
      ensures releases == old(releases) && acquires == old(acquires) + (if how.Refused? then 0 else 1)
      ensures reuses == old(reuses) && evictions == old(evictions) + (if how.Evicted? then 1 else 0)
    {
      var free := FindFree();
      if free.Some? {
        FillSlot(free.value, q.fd.value, q);
        return Filled(free.value);
      }
      var oldest := FindOldest(q.now);
      if oldest.Some? {
        EvictSlot(oldest.value, q.fd.value, q);
        return Evicted(oldest.value);
      }
      if !q.memory {
        DropFd(q.fd.value);
        return Refused;
      }
      how := Overflowed(nextRecord);
      AddRecord(q.fd.value, q);
    }

    /** vwasm_http_pool_release; vwasm_http_pool_close is a release with keepAlive false. */
    method Release(ref: Ref, keepAlive: bool, now: int)
      requires Valid() && Held(ref)
      modifies this`conns, this`records, this`place, this`closes, this`releases
      ensures Valid() && Later(old(place), place) && place.Keys == old(place).Keys && releases == old(releases) + 1
      ensures place == if keepAlive && ref.Slot? then old(place) else old(place)[old(Get(ref)).fd := Closed]
      ensures closes == if keepAlive && ref.Slot? then old(closes) else old(closes)[old(Get(ref)).fd := 1]
      ensures Releases(ref, keepAlive, now, State(old(conns), old(records)), State(conns, records))
    {
      var c := Get(ref);
      releases := releases + 1;
      match ref
      case Slot(i) =>
        var d := Returned(c, keepAlive, now);
        if d.fd < 0 {
          SoundClosed(conns, records, nextRecord, place, i, d);
          CloseFd(c.fd);
        } else {
          SoundMarked(conns, records, nextRecord, place, i, d);
        }
        conns := conns[i := d];
      case Record(k) =>
        SoundFreed(conns, records, nextRecord, place, k);
        CloseFd(c.fd);
        records := records - {k};
    }
  }
}
