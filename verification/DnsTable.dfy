/**
 The DNS table of the HTTP pool (src/http_pool.c). A lookup that misses resolves without the lock
 and records the answer later, under the time of its lookup, so records arrive in any order
 between other callers' lookups and records.
 */
module DnsTable {
  import opened Bytes

  const CAPACITY := 64
  const TTL := 60

  datatype Address = V4(octets: seq<byte>) | V6(octets: seq<byte>) | OtherFamily(octets: seq<byte>)

  datatype Entry = Entry(host: seq<byte>, addr: Address, resolvedAt: int)

  /** The position of host from i on, or the number of entries. */
  function FindHost(es: seq<Entry>, host: seq<byte>, i: nat): (r: nat)
    requires i <= |es|
    ensures i <= r <= |es| && (r < |es| ==> es[r].host == host)
    ensures forall j :: i <= j < r ==> es[j].host != host
  {
    FirstWhere(es, (e: Entry) => e.host == host, i)
  }

  predicate Present(es: seq<Entry>, host: seq<byte>) {
    FindHost(es, host, 0) < |es|
  }

  /** Overwrites the host's own entry, else appends, else overwrites the first entry. */
  function Recorded(es: seq<Entry>, e: Entry): seq<Entry> {
    var i := FindHost(es, e.host, 0);
    if i < |es| then es[i := e]
    else if |es| < CAPACITY then es + [e]
    else es[0 := e]
  }

  /** What a lookup answers. */
  function Lookup(es: seq<Entry>, host: seq<byte>, now: int): Option<Address> {
    var i := FindHost(es, host, 0);
    if i < |es| && now - es[i].resolvedAt < TTL then Some(es[i].addr) else None
  }

  predicate UniqueHosts(es: seq<Entry>) {
    forall i, j :: 0 <= i < j < |es| ==> es[i].host != es[j].host
  }

  predicate Shaped(es: seq<Entry>) {
    UniqueHosts(es) && |es| <= CAPACITY
  }

  // ---------------------------------------------------------------- one record

  lemma FindIs(es: seq<Entry>, host: seq<byte>, i: nat)
    requires UniqueHosts(es) && i < |es| && es[i].host == host
    ensures FindHost(es, host, 0) == i
  {
  }

  lemma RecordedShaped(es: seq<Entry>, e: Entry)
    requires Shaped(es)
    ensures Shaped(Recorded(es, e))
  {
  }

  /** The entry that gives way when a host without one is recorded into a full table. */
  predicate Displaces(es: seq<Entry>, e: Entry, host: seq<byte>) {
    !Present(es, e.host) && |es| >= CAPACITY && es[0].host == host
  }

  /** The entry of a host after a record: its own if it was recorded, else as before unless it gave way. */
  function EntryFor(es: seq<Entry>, host: seq<byte>): Option<Entry> {
    var i := FindHost(es, host, 0);
    if i < |es| then Some(es[i]) else None
  }

  lemma RecordEffect(es: seq<Entry>, e: Entry, host: seq<byte>)
    requires Shaped(es)
    ensures EntryFor(Recorded(es, e), host)
         == if host == e.host then Some(e) else if Displaces(es, e, host) then None else EntryFor(es, host)
  {
    var i, k := FindHost(es, e.host, 0), FindHost(es, host, 0);
    var after := Recorded(es, e);
    RecordedShaped(es, e);
    if host == e.host {
      FindIs(after, host, if i < |es| then i else if |es| < CAPACITY then |es| else 0);
    } else if k < |es| && !Displaces(es, e, host) {
      FindIs(after, host, k);
    } else {
      assert forall j :: 0 <= j < |after| ==> after[j].host != host;
    }
  }

  // ---------------------------------------------------------------- every run

  ghost predicate StepAt(ts: seq<seq<Entry>>, h: seq<Entry>, k: nat) {
    k + 1 < |ts| && k < |h| && ts[k + 1] == Recorded(ts[k], h[k])
  }

  /** ts[k] is the table after the first k records; each carries the time of the lookup that led to it. */
  ghost predicate IsRun(ts: seq<seq<Entry>>, h: seq<Entry>) {
    |ts| == |h| + 1 && ts[0] == [] && forall k: nat :: k < |h| ==> StepAt(ts, h, k)
  }

  predicate LatestRecord(h: seq<Entry>, n: nat, host: seq<byte>, i: nat)
    requires n <= |h|
  {
    i < n && h[i].host == host && forall j :: i < j < n ==> h[j].host != host
  }

  /** Record k pushed the host's entry out. */
  ghost predicate PushedOut(ts: seq<seq<Entry>>, h: seq<Entry>, k: nat, host: seq<byte>) {
    k < |ts| && k < |h| && h[k].host != host && Displaces(ts[k], h[k], host)
  }

  /** Host entries stay unique and at most 64. */
  lemma {:induction false} RunShaped(ts: seq<seq<Entry>>, h: seq<Entry>, n: nat)
    requires IsRun(ts, h) && n <= |h|
    ensures Shaped(ts[n])
  {
    if n > 0 {
      RunShaped(ts, h, n - 1);
      assert StepAt(ts, h, n - 1);
      RecordedShaped(ts[n - 1], h[n - 1]);
    }
  }

  /**
   The entry of a host is its latest record; it is there exactly when no later record of another
   host pushed it out.
   */
  lemma {:induction false} RunHoldsLatest(ts: seq<seq<Entry>>, h: seq<Entry>, n: nat, host: seq<byte>, i: nat)
    requires IsRun(ts, h) && n <= |h| && LatestRecord(h, n, host, i)
    ensures EntryFor(ts[n], host)
         == if exists k: nat :: i < k < n && PushedOut(ts, h, k, host) then None else Some(h[i])
  {
    RunShaped(ts, h, n - 1);
    assert StepAt(ts, h, n - 1);
    RecordEffect(ts[n - 1], h[n - 1], host);
    if i < n - 1 {
      RunHoldsLatest(ts, h, n - 1, host, i);
      if exists k: nat :: i < k < n - 1 && PushedOut(ts, h, k, host) {
      } else {
        assert EntryFor(ts[n - 1], host) == Some(h[i]);
        assert PushedOut(ts, h, n - 1, host) <==> Displaces(ts[n - 1], h[n - 1], host);
      }
    }
  }

  lemma {:induction false} NeverRecorded(ts: seq<seq<Entry>>, h: seq<Entry>, n: nat, host: seq<byte>)
    requires IsRun(ts, h) && n <= |h| && forall i :: 0 <= i < n ==> h[i].host != host
    ensures EntryFor(ts[n], host) == None
  {
    if n > 0 {
      NeverRecorded(ts, h, n - 1, host);
      RunShaped(ts, h, n - 1);
      assert StepAt(ts, h, n - 1);
      RecordEffect(ts[n - 1], h[n - 1], host);
    }
  }

  /** A hit is exactly the latest recorded address of the host, younger than the TTL and not pushed out. */
  lemma HitIff(ts: seq<seq<Entry>>, h: seq<Entry>, n: nat, host: seq<byte>, now: int, a: Address)
    requires IsRun(ts, h) && n <= |h|
    ensures Lookup(ts[n], host, now) == Some(a)
       <==> exists i: nat :: LatestRecord(h, n, host, i) && h[i].addr == a && now - h[i].resolvedAt < TTL
                             && forall k: nat :: i < k < n ==> !PushedOut(ts, h, k, host)
  {
    if i: nat :| LatestRecord(h, n, host, i) {
      RunHoldsLatest(ts, h, n, host, i);
      assert forall j: nat :: LatestRecord(h, n, host, j) ==> j == i;
    } else {
      LatestExists(h, n, host);
      NeverRecorded(ts, h, n, host);
    }
  }

  lemma {:induction false} LatestExists(h: seq<Entry>, n: nat, host: seq<byte>)
    requires n <= |h| && forall i: nat :: !LatestRecord(h, n, host, i)
    ensures forall i :: 0 <= i < n ==> h[i].host != host
  {
    if n > 0 {
      var m := n - 1;
      assert !LatestRecord(h, n, host, m);
      forall i: nat
        ensures !LatestRecord(h, m, host, i)
      {
        assert !LatestRecord(h, n, host, i);
      }
      LatestExists(h, m, host);
    }
  }

  // ---------------------------------------------------------------- the answers, from the records alone

  /** The hosts in the table, by slot: a new one takes the next of 64 slots, then always the first. */
  function Hosts(h: seq<Entry>, n: nat): seq<seq<byte>>
    requires n <= |h|
  {
    if n == 0 then []
    else
      var was, host := Hosts(h, n - 1), h[n - 1].host;
      if host in was then was
      else if |was| < 64 then was + [host]
      else was[0 := host]
  }

  predicate HostsAre(es: seq<Entry>, hosts: seq<seq<byte>>) {
    |es| == |hosts| && forall i :: 0 <= i < |es| ==> es[i].host == hosts[i]
  }

  lemma HostsPresent(es: seq<Entry>, hosts: seq<seq<byte>>, host: seq<byte>)
    requires HostsAre(es, hosts)
    ensures Present(es, host) <==> host in hosts
  {
    if host in hosts {
      var i :| 0 <= i < |hosts| && hosts[i] == host;
      assert es[i].host == host;
    }
  }

  lemma {:induction false} RunHosts(ts: seq<seq<Entry>>, h: seq<Entry>, n: nat)
    requires IsRun(ts, h) && n <= |h|
    ensures HostsAre(ts[n], Hosts(h, n))
  {
    if n > 0 {
      RunHosts(ts, h, n - 1);
      assert StepAt(ts, h, n - 1);
      HostsPresent(ts[n - 1], Hosts(h, n - 1), h[n - 1].host);
    }
  }

  /** In every run a lookup finds exactly the latest record of a host that still has a slot, for less than 60 s. */
  lemma LookupAnswers(ts: seq<seq<Entry>>, h: seq<Entry>, n: nat, host: seq<byte>, now: int, a: Address)
    requires IsRun(ts, h) && n <= |h|
    ensures Lookup(ts[n], host, now) == Some(a) <==>
              && host in Hosts(h, n)
              && exists i: nat :: LatestRecord(h, n, host, i) && h[i].addr == a && now - h[i].resolvedAt < 60
  {
    RunHosts(ts, h, n);
    HostsPresent(ts[n], Hosts(h, n), host);
    if i: nat :| LatestRecord(h, n, host, i) {
      RunHoldsLatest(ts, h, n, host, i);
      assert forall j: nat :: LatestRecord(h, n, host, j) ==> j == i;
    } else {
      LatestExists(h, n, host);
      NeverRecorded(ts, h, n, host);
    }
  }

  // ---------------------------------------------------------------- the table in the pool

  class Table {
    var entries: seq<Entry>
    var hits: nat
    var misses: nat

    constructor ()
      ensures entries == []
    {
      entries, hits, misses := [], 0, 0;
    }

    /** The first half of a resolve: the cached address, or a miss. */
    method Consult(host: seq<byte>, now: int) returns (r: Option<Address>)
      requires Shaped(entries)
      modifies this`hits, this`misses
      ensures r == Lookup(entries, host, now)
      ensures hits == old(hits) + (if r.Some? then 1 else 0) && misses == old(misses) + (if r.Some? then 0 else 1)
    {
      for i := 0 to |entries|
        invariant hits == old(hits) && misses == old(misses)
        invariant forall j :: 0 <= j < i ==> entries[j].host != host || now - entries[j].resolvedAt >= TTL
      {
        if entries[i].host == host && now - entries[i].resolvedAt < TTL {
          FindIs(entries, host, i);
          hits := hits + 1;
          return Some(entries[i].addr);
        }
      }
      misses := misses + 1;
      return None;
    }

    /** The second half: the resolver's answer under the time of the lookup. */
    method Record(host: seq<byte>, addr: Address, lookedUpAt: int)
      requires Shaped(entries)
      modifies this`entries
      ensures Shaped(entries) && entries == Recorded(old(entries), Entry(host, addr, lookedUpAt))
    {
      var e := Entry(host, addr, lookedUpAt);
      RecordedShaped(entries, e);
      var slot := |entries|;
      for i := 0 to |entries|
        invariant slot == |entries| && FindHost(entries, host, 0) == FindHost(entries, host, i)
      {
        if entries[i].host == host {
          slot := i;
          break;
        }
      }
      if slot >= CAPACITY {
        slot := 0;
      }
      if slot == |entries| {
        entries := entries + [e];
      } else {
        entries := entries[slot := e];
      }
    }
  }
}
