/**
 Callouts over pooled connections: src/proxy_wasm_http.c on top of src/http_pool.c. A callout
 acquires a connection, reads its response and releases it; between the two any number of other
 callouts may begin and end.
 */
module CalloutRuns {
  import opened Bytes
  import opened ConnPool
  import HttpResponse
  import CB = CircuitBreaker

  class Callouts {
    const pool: Pool
    /** The stream behind each descriptor. */
    var socks: map<int, HttpResponse.Socket>
    /** What a stream still held at the end of the last complete response on it. */
    ghost var ends: map<int, seq<byte>>

    ghost predicate Valid()
      reads this, pool, socks.Values
    {
      && pool.Valid()
      && socks.Keys == pool.place.Keys
      && Distinct()
      && IdleAtEnd()
    }

    /** Every idle connection stands at the end of a response. */
    ghost predicate IdleAtEnd()
      reads this, pool, socks.Values
    {
      forall i :: 0 <= i < |pool.conns| && Idle(pool.conns[i]) ==> AtEnd(pool.conns[i].fd)
    }

    /** The connection has served a complete response and stands exactly at its end. */
    ghost predicate AtEnd(fd: int)
      reads this, socks.Values
    {
      fd in socks && fd in ends && socks[fd].rest == ends[fd]
    }

    constructor (maxConns: nat)
      ensures Valid() && fresh(pool) && socks == map[]
    {
      pool := new Pool(maxConns);
      socks, ends := map[], map[];
    }

    /** The acquire of a callout; stream and pieces are what a new connection would deliver. */
    method Begin(q: Request, stream: seq<byte>, pieces: seq<nat>) returns (how: How)
      requires Valid()
      requires q.fd.Some? ==> q.fd.value >= 0 && q.fd.value !in pool.place
      modifies this, pool
      ensures Valid() && ends == old(ends)
      ensures Acquires(how, q, old(pool.conns), old(pool.records), pool.conns, pool.records)
      ensures forall fd :: fd in old(socks) ==> fd in socks && socks[fd] == old(socks)[fd]
      ensures how.Reused? ==> how.i < |pool.conns| && AtEnd(pool.conns[how.i].fd)
    {
      how := pool.Acquire(q);
      IdleKept(how, q, old(pool.conns), old(pool.records), pool.conns, pool.records);
      assert IdleAtEnd();
      if !how.Reused? && q.fd.Some? {
        AddSocket(q.fd.value, stream, pieces);
      }
    }

    /** The stream behind a new descriptor. */
    method AddSocket(fd: int, stream: seq<byte>, pieces: seq<nat>)
      requires fd !in socks && Distinct() && IdleAtEnd()
      modifies this`socks
      ensures fd in socks && socks == old(socks)[fd := socks[fd]] && fresh(socks[fd]) && Distinct() && IdleAtEnd()
    {
      var sock := new HttpResponse.Socket(stream, pieces);
      socks := socks[fd := sock];
    }

    /** Every descriptor has its own stream. */
    ghost predicate Distinct()
      reads this
    {
      forall a, b :: a in socks && b in socks && a != b ==> socks[a] != socks[b]
    }

    /** The descriptor of a connection a caller holds is no other slot's. */
    lemma HeldApart(ref: Ref)
      requires pool.Valid() && pool.Held(ref)
      ensures var fd := pool.Get(ref).fd;
              && fd in pool.place
              && forall i :: 0 <= i < |pool.conns| && pool.conns[i].fd == fd ==> ref == Slot(i)
    {
      var fd := pool.Get(ref).fd;
      assert pool.place[fd] == At(ref);
    }

    /** The rest of a callout once its request is sent: read, then release if reusable or else close. */
    method Finish(ref: Ref, exempt: bool, now: int) returns (r: HttpResponse.Response)
      requires Valid() && pool.Held(ref)
      modifies this, pool, socks.Values
      ensures Valid() && socks == old(socks)
      ensures var s := old(socks[pool.Get(ref).fd].rest);
              && HttpResponse.Left(s, socks[old(pool.Get(ref).fd)].rest)
              && Outcome(s, socks[old(pool.Get(ref).fd)].rest, exempt, r)
              && ends == (if r.complete then old(ends)[old(pool.Get(ref).fd) := s[|r.bytes|..]] else old(ends))
      ensures Releases(ref, r.reusable, now, State(old(pool.conns), old(pool.records)), State(pool.conns, pool.records))
      ensures forall fd :: fd in socks && fd != old(pool.Get(ref).fd) ==> socks[fd].rest == old(socks[fd].rest)
    {
      r := ReadOn(ref, exempt);
      HandBack(ref, r.reusable, now);
    }

    /** Reads the response on a held connection; idle connections do not notice. */
    method ReadOn(ref: Ref, exempt: bool) returns (r: HttpResponse.Response)
      requires Valid() && pool.Held(ref)
      modifies this`ends, socks[pool.Get(ref).fd]
      ensures Valid()
      ensures var s := old(socks[pool.Get(ref).fd].rest);
              && HttpResponse.Left(s, socks[pool.Get(ref).fd].rest)
              && Outcome(s, socks[pool.Get(ref).fd].rest, exempt, r)
              && ends == (if r.complete then old(ends)[pool.Get(ref).fd := s[|r.bytes|..]] else old(ends))
      ensures r.reusable ==> AtEnd(pool.Get(ref).fd)
    {
      var fd := pool.Get(ref).fd;
      HeldApart(ref);
      var sock := socks[fd];
      ghost var s := sock.rest;
      r := HttpResponse.ReadResponse(sock, exempt);
      if HttpResponse.HeadEnd(s) >= 0 {
        HttpResponse.StopFromStart(s, old(sock.plan));
      }
      Ended(s, sock.rest, HttpResponse.Stop(s, old(sock.plan), 0), exempt, r);
      if r.complete {
        ends := ends[fd := s[|r.bytes|..]];
      }
    }

    /** A connection is kept only if it stands at the end of a response; a failed send closes it. */
    method HandBack(ref: Ref, keepAlive: bool, now: int)
      requires Valid() && pool.Held(ref) && (keepAlive ==> AtEnd(pool.Get(ref).fd))
      modifies pool
      ensures Valid()
      ensures Releases(ref, keepAlive, now, State(old(pool.conns), old(pool.records)), State(pool.conns, pool.records))
    {
      pool.Release(ref, keepAlive, now);
    }
  }

  /**
   A response read off stream s, of which rest is left: complete exactly when it can be received, a
   prefix of the stream then, and the connection reusable only at its end.
   */
  ghost predicate Outcome(s: seq<byte>, rest: seq<byte>, exempt: bool, r: HttpResponse.Response) {
    && (exists len: nat :: HttpResponse.Frames(s, len, exempt, r))
    && (r.complete <==> HttpResponse.Receivable(s, |s| - |rest|))
    && (r.complete ==> r.bytes <= s)
    && (r.reusable ==> r.complete && rest == s[|r.bytes|..])
  }

  /** Only a call that consumed exactly its response leaves the connection reusable. */
  lemma Ended(s: seq<byte>, rest: seq<byte>, len: nat, exempt: bool, r: HttpResponse.Response)
    requires HttpResponse.Frames(s, len, exempt, r)
    requires HttpResponse.Left(s, rest) && HttpResponse.Consumes(s, len, r, |s| - |rest|)
    requires HttpResponse.HeadEnd(s) >= 0 ==> HttpResponse.HeadEnd(s) + 4 <= len
    ensures Outcome(s, rest, exempt, r)
  {
    HttpResponse.CompleteIff(s, len, exempt, r, |s| - |rest|);
    HttpResponse.ReusableIff(s, len, exempt, r, |s| - |rest|);
    if r.complete {
      HttpResponse.CompleteHoldsHead(s, len, exempt, r);
    }
  }

  // ---------------------------------------------------------------- with the breaker

  /**
   The start of a callout: a rejection by the breaker leaves the connections alone, and every
   failure to get a connection, that rejection included, is reported to the breaker.
   */
  method StartCallout(c: Callouts, b: CB.Breakers, key: seq<byte>, q: Request, stream: seq<byte>, pieces: seq<nat>)
      returns (how: How)
    requires c.Valid()
    requires q.fd.Some? ==> q.fd.value >= 0 && q.fd.value !in c.pool.place
    modifies c, c.pool, b
    ensures c.Valid()
    ensures b.Contents() == (var t := CB.Apply(old(b.Contents()), CB.Allow(key, q.now));
                             if how.Refused? then CB.Apply(t, CB.Failure(key, q.now)) else t)
    ensures CB.Rejected(old(b.Contents()), key, q.now) ==> how.Refused? && unchanged(c) && unchanged(c.pool)
    ensures !CB.Rejected(old(b.Contents()), key, q.now)
            ==> Acquires(how, q, old(c.pool.conns), old(c.pool.records), c.pool.conns, c.pool.records)
  {
    var allowed := b.CbAllow(key, q.now);
    if allowed {
      how := c.Begin(q, stream, pieces);
    } else {
      how := Refused;
    }
    if how.Refused? {
      b.CbFailure(key, q.now);
    }
  }

  /** The end of a callout: complete responses, and only those, are reported as successes. */
  method EndCallout(c: Callouts, b: CB.Breakers, key: seq<byte>, ref: Ref, exempt: bool, now: int)
      returns (r: HttpResponse.Response)
    requires c.Valid() && c.pool.Held(ref)
    modifies c, c.pool, c.socks.Values, b
    ensures c.Valid() && c.socks == old(c.socks)
    ensures Outcome(old(c.socks[c.pool.Get(ref).fd].rest), c.socks[old(c.pool.Get(ref).fd)].rest, exempt, r)
    ensures b.Contents()
         == CB.Apply(old(b.Contents()), if r.complete then CB.Success(key, now) else CB.Failure(key, now))
  {
    r := c.Finish(ref, exempt, now);
    Report(c, b, key, r.complete, now);
  }

  /** Reporting leaves the connections alone. */
  method Report(ghost c: Callouts, b: CB.Breakers, key: seq<byte>, complete: bool, now: int)
    requires c.Valid()
    modifies b
    ensures c.Valid()
    ensures b.Contents() == CB.Apply(old(b.Contents()), if complete then CB.Success(key, now) else CB.Failure(key, now))
  {
    if complete {
      b.CbSuccess(key, now);
    } else {
      b.CbFailure(key, now);
    }
  }
}
