/**
 The chained response cache of the HTTP pool (src/http_pool.c). Times are whole seconds and inputs.
 */
module HttpCaches {
  import opened Bytes
  import opened HttpText

  // ---------------------------------------------------------------- response cache keys

  const BUCKETS: nat := 64
  const MAX_SIZE: nat := 1024 * 1024
  const CACHE_TTL_MS: nat := 1000

  /** uint16_t */
  type Port = p: nat | p < 0x1_0000

  /** "%s:%s:%u:%s" of method, host, port and path. */
  function CacheKey(verb: seq<byte>, host: seq<byte>, port: Port, path: seq<byte>): seq<byte> {
    verb + [58] + (host + [58] + (PrintDec(port) + [58] + path))
  }

  /** The part of a key before the port. */
  function Front(verb: seq<byte>, host: seq<byte>): seq<byte> {
    verb + [58] + host
  }

  /** b goes on after a as a key does: ':', a port, and then nothing or another ':'. */
  ghost predicate Extends(a: seq<byte>, b: seq<byte>) {
    exists p: Port, rest :: ExtendsBy(a, b, p, rest)
  }

  predicate ExtendsBy(a: seq<byte>, b: seq<byte>, p: Port, rest: seq<byte>) {
    b == a + [58] + PrintDec(p) + rest && (rest == [] || rest[0] == 58)
  }

  /** Some requests for these two methods and hosts share a key. */
  ghost predicate Clash(verb: seq<byte>, host: seq<byte>, verb': seq<byte>, host': seq<byte>) {
    exists p: Port, path, p': Port, path' :: CacheKey(verb, host, p, path) == CacheKey(verb', host', p', path')
  }

  lemma KeyParts(verb: seq<byte>, host: seq<byte>, port: Port, path: seq<byte>)
    ensures CacheKey(verb, host, port, path) == Front(verb, host) + [58] + PrintDec(port) + [58] + path
  {
  }

  /** Keys with one front differ in nothing else. */
  lemma SameFront(f: seq<byte>, p: Port, path: seq<byte>, p': Port, path': seq<byte>)
    requires f + [58] + PrintDec(p) + [58] + path == f + [58] + PrintDec(p') + [58] + path'
    ensures p == p' && path == path'
  {
    var s := f + [58] + PrintDec(p) + [58] + path;
    assert s[|f| + 1..] == PrintDec(p) + [58] + path;
    assert s[|f| + 1..] == PrintDec(p') + [58] + path';
    FirstSplit(58, PrintDec(p), path, PrintDec(p'), path');
    DecOfPrint(p);
    DecOfPrint(p');
  }

  /** A longer front under the same key goes on after the shorter one. */
  lemma LongerExtends(f: seq<byte>, p: Port, path: seq<byte>, g: seq<byte>, p': Port, path': seq<byte>)
    requires f + [58] + PrintDec(p) + [58] + path == g + [58] + PrintDec(p') + [58] + path'
    requires |f| < |g|
    ensures Extends(f, g)
  {
    var s, d := f + [58] + PrintDec(p) + [58] + path, PrintDec(p);
    assert s[..|g|] == g && s[|g|] == 58;
    assert forall k :: 0 <= k < |d| ==> s[|f| + 1 + k] == d[k] != 58;
    assert |f| + 1 + |d| <= |g|;
    var rest := g[|f| + 1 + |d|..];
    assert s[..|f| + 1 + |d|] == f + [58] + d;
    assert g == s[..|f| + 1 + |d|] + rest;
    assert rest != [] ==> rest[0] == s[|f| + 1 + |d|] == 58;
    assert ExtendsBy(f, g, p, rest);
  }

  /** Such a front gives rise to a shared key. */
  lemma ExtendsShares(verb: seq<byte>, host: seq<byte>, verb': seq<byte>, host': seq<byte>)
    requires Extends(Front(verb, host), Front(verb', host'))
    ensures Clash(verb, host, verb', host')
  {
    var f, g := Front(verb, host), Front(verb', host');
    var p: Port, rest :| ExtendsBy(f, g, p, rest);
    var path := if rest == [] then PrintDec(0) + [58] else rest[1..] + [58] + PrintDec(0) + [58];
    KeyParts(verb, host, p, path);
    KeyParts(verb', host', 0, []);
    Regrouped(f + [58] + PrintDec(p), rest, PrintDec(0), path);
    assert CacheKey(verb, host, p, path) == CacheKey(verb', host', 0, []);
  }

  lemma Regrouped(a: seq<byte>, rest: seq<byte>, d: seq<byte>, path: seq<byte>)
    requires rest == [] || rest[0] == 58
    requires path == if rest == [] then d + [58] else rest[1..] + [58] + d + [58]
    ensures a + [58] + path == a + rest + [58] + d + [58] + []
  {
    if rest != [] {
      assert rest == [58] + rest[1..];
    }
  }

  lemma ClashSym(verb: seq<byte>, host: seq<byte>, verb': seq<byte>, host': seq<byte>)
    requires Clash(verb, host, verb', host')
    ensures Clash(verb', host', verb, host)
  {
  }

  /** Two methods and hosts can share a key exactly when their fronts are equal or one goes on after the other. */
  lemma ClashIff(verb: seq<byte>, host: seq<byte>, verb': seq<byte>, host': seq<byte>)
    ensures var f, g := Front(verb, host), Front(verb', host');
            Clash(verb, host, verb', host') <==> f == g || Extends(f, g) || Extends(g, f)
  {
    var f, g := Front(verb, host), Front(verb', host');
    if f == g {
      KeyParts(verb, host, 0, []);
      KeyParts(verb', host', 0, []);
      assert CacheKey(verb, host, 0, []) == CacheKey(verb', host', 0, []);
    } else if Extends(f, g) {
      ExtendsShares(verb, host, verb', host');
    } else if Extends(g, f) {
      ExtendsShares(verb', host', verb, host);
      ClashSym(verb', host', verb, host);
    } else if Clash(verb, host, verb', host') {
      FrontsMeet(verb, host, verb', host');
    }
  }

  lemma FrontsMeet(verb: seq<byte>, host: seq<byte>, verb': seq<byte>, host': seq<byte>)
    requires Clash(verb, host, verb', host')
    ensures var f, g := Front(verb, host), Front(verb', host'); f == g || Extends(f, g) || Extends(g, f)
  {
    var f, g := Front(verb, host), Front(verb', host');
    var p: Port, path, p': Port, path' :| CacheKey(verb, host, p, path) == CacheKey(verb', host', p', path');
    KeyParts(verb, host, p, path);
    KeyParts(verb', host', p', path');
    var s := CacheKey(verb, host, p, path);
    assert s[..|f|] == f && s[..|g|] == g;
    if |f| < |g| {
      LongerExtends(f, p, path, g, p', path');
    } else if |g| < |f| {
      LongerExtends(g, p', path', f, p, path);
    }
  }

  /** Requests to one method and host, or to two that do not clash, share a key only if they are the same request. */
  lemma CacheKeyInjective(verb: seq<byte>, host: seq<byte>, port: Port, path: seq<byte>,
                          verb': seq<byte>, host': seq<byte>, port': Port, path': seq<byte>)
    requires (verb == verb' && host == host') || !Clash(verb, host, verb', host')
    requires CacheKey(verb, host, port, path) == CacheKey(verb', host', port', path')
    ensures verb == verb' && host == host' && port == port' && path == path'
  {
    KeyParts(verb, host, port, path);
    KeyParts(verb', host', port', path');
    SameFront(Front(verb, host), port, path, port', path');
  }

  /** Different methods and hosts without ':' do not clash, */
  lemma ColonFreeApart(verb: seq<byte>, host: seq<byte>, verb': seq<byte>, host': seq<byte>)
    requires 58 !in verb && 58 !in host && 58 !in verb' && 58 !in host' && (verb != verb' || host != host')
    ensures !Clash(verb, host, verb', host')
  {
    if p: Port, path, p': Port, path' :| CacheKey(verb, host, p, path) == CacheKey(verb', host', p', path') {
      var rest, rest' := PrintDec(p) + [58] + path, PrintDec(p') + [58] + path';
      FirstSplit(58, verb, host + [58] + rest, verb', host' + [58] + rest');
      FirstSplit(58, host, rest, host', rest');
      assert false;
    }
  }

  /** ... but with ':' the method may take over part of the host. */
  lemma CacheKeysCanCollide(a: seq<byte>, b: seq<byte>, c: seq<byte>, port: Port, path: seq<byte>)
    ensures CacheKey(a + [58] + b, c, port, path) == CacheKey(a, b + [58] + c, port, path)
  {
    var rest := PrintDec(port) + [58] + path;
    assert a + [58] + b + [58] + (c + [58] + rest) == a + [58] + (b + [58] + c + [58] + rest);
  }

  /** djb2 over the first n octets, modulo 2^32. */
  function Djb2(key: seq<byte>, n: nat): (h: nat)
    requires n <= |key|
    ensures h < U32_MOD
  {
    if n == 0 then 5381 else (Djb2(key, n - 1) * 33 + key[n - 1]) % U32_MOD
  }

  /** Two values of the djb2 hash: of nothing and of "a". */
  lemma Djb2Vectors()
    ensures Djb2([], 0) == 5381 && Djb2(Ascii("a"), 1) == 177670
  {
    assert Ascii("a")[0] == 97 && Djb2(Ascii("a"), 0) == 5381;
  }

  function Bucket(key: seq<byte>): (b: nat)
    ensures b < BUCKETS
  {
    Djb2(key, |key|) % BUCKETS
  }

  method CacheHash(key: seq<byte>) returns (b: nat)
    ensures b == Bucket(key)
  {
    var hash: nat := 5381;
    for i := 0 to |key|
      invariant hash == Djb2(key, i)
    {
      hash := (hash * 32 + hash + key[i]) % U32_MOD;
    }
    b := hash % BUCKETS;
  }

  // ---------------------------------------------------------------- response cache contents

  datatype Entry = Entry(key: seq<byte>, data: seq<byte>, status: int, cachedAt: int)

  /** The position of key in a chain from i on, or the chain's length. */
  function FindKey(chain: seq<Entry>, key: seq<byte>, i: nat): (r: nat)
    requires i <= |chain|
    ensures i <= r <= |chain| && (r < |chain| ==> chain[r].key == key)
    ensures forall j :: i <= j < r ==> chain[j].key != key
  {
    FirstWhere(chain, (e: Entry) => e.key == key, i)
  }

  function PutChain(chain: seq<Entry>, e: Entry): seq<Entry> {
    var i := FindKey(chain, e.key, 0);
    if i < |chain| then chain[i := e] else [e] + chain
  }

  function LookupChain(chain: seq<Entry>, key: seq<byte>): Option<Entry> {
    var i := FindKey(chain, key, 0);
    if i < |chain| then Some(chain[i]) else None
  }

  lemma LookupChainIs(chain: seq<Entry>, key: seq<byte>, i: nat)
    requires i < |chain| && chain[i].key == key && forall j :: 0 <= j < i ==> chain[j].key != key
    ensures LookupChain(chain, key) == Some(chain[i])
  {
  }

  lemma LookupChainNone(chain: seq<Entry>, key: seq<byte>)
    requires forall j :: 0 <= j < |chain| ==> chain[j].key != key
    ensures LookupChain(chain, key) == None
  {
  }

  lemma PutChainEffect(chain: seq<Entry>, e: Entry, key: seq<byte>)
    ensures LookupChain(PutChain(chain, e), key) == if key == e.key then Some(e) else LookupChain(chain, key)
  {
    var i, k := FindKey(chain, e.key, 0), FindKey(chain, key, 0);
    var after := PutChain(chain, e);
    if i < |chain| {
      if k < |chain| {
        LookupChainIs(after, key, k);
      } else {
        LookupChainNone(after, key);
      }
    } else if key == e.key {
      LookupChainIs(after, key, 0);
    } else if k < |chain| {
      LookupChainIs(after, key, k + 1);
    } else {
      LookupChainNone(after, key);
    }
  }

  type Table = t: seq<seq<Entry>> | |t| == BUCKETS witness seq(BUCKETS, i => [])

  function Put(t: Table, e: Entry): Table {
    t[Bucket(e.key) := PutChain(t[Bucket(e.key)], e)]
  }

  function Lookup(t: Table, key: seq<byte>): Option<Entry> {
    LookupChain(t[Bucket(key)], key)
  }

  /** The chained table refines a map: a put is seen by its own key and by no other. */
  lemma PutEffect(t: Table, e: Entry, key: seq<byte>)
    ensures Lookup(Put(t, e), key) == if key == e.key then Some(e) else Lookup(t, key)
  {
    PutChainEffect(t[Bucket(e.key)], e, key);
  }

  // ---------------------------------------------------------------- puts and hits

  /** A put call; memory says whether its allocations succeed. */
  datatype PutCall = PutCall(
    verb: seq<byte>, host: seq<byte>, port: Port, path: seq<byte>, data: seq<byte>, status: int, now: int, memory: bool)

  predicate Accepted(p: PutCall) {
    0 < |p.data| <= MAX_SIZE && p.memory
  }

  function KeyOf(p: PutCall): seq<byte> {
    CacheKey(p.verb, p.host, p.port, p.path)
  }

  function EntryOf(p: PutCall): Entry {
    Entry(KeyOf(p), p.data, p.status, p.now)
  }

  function AfterPut(t: Table, p: PutCall): Table {
    if Accepted(p) then Put(t, EntryOf(p)) else t
  }

  ghost predicate PutAt(ts: seq<Table>, h: seq<PutCall>, k: nat) {
    k + 1 < |ts| && k < |h| && ts[k + 1] == AfterPut(ts[k], h[k])
  }

  /** ts[k] is the cache of a new pool after the first k puts of h. */
  ghost predicate IsRun(ts: seq<Table>, h: seq<PutCall>) {
    |ts| == |h| + 1 && (forall b :: 0 <= b < BUCKETS ==> ts[0][b] == []) && forall k: nat :: k < |h| ==> PutAt(ts, h, k)
  }

  /** Put i is the latest accepted one for this key before n. */
  predicate LatestPut(h: seq<PutCall>, n: nat, key: seq<byte>, i: nat)
    requires n <= |h|
  {
    i < n && Accepted(h[i]) && KeyOf(h[i]) == key && forall j :: i < j < n ==> !(Accepted(h[j]) && KeyOf(h[j]) == key)
  }

  predicate NoPut(h: seq<PutCall>, n: nat, key: seq<byte>)
    requires n <= |h|
  {
    forall j :: 0 <= j < n ==> !(Accepted(h[j]) && KeyOf(h[j]) == key)
  }

  /** After every run the cache holds, for each key, exactly its latest accepted put. */
  lemma {:induction false} RunHoldsLatest(ts: seq<Table>, h: seq<PutCall>, n: nat, key: seq<byte>)
    requires IsRun(ts, h) && n <= |h|
    ensures match Lookup(ts[n], key)
            case None => NoPut(h, n, key)
            case Some(e) => exists i: nat :: LatestPut(h, n, key, i) && e == EntryOf(h[i])
  {
    if n == 0 {
      LookupChainNone(ts[0][Bucket(key)], key);
    } else {
      RunHoldsLatest(ts, h, n - 1, key);
      assert PutAt(ts, h, n - 1);
      var p := h[n - 1];
      if Accepted(p) {
        PutEffect(ts[n - 1], EntryOf(p), key);
      }
      if Accepted(p) && KeyOf(p) == key {
        assert LatestPut(h, n, key, n - 1);
      } else if Lookup(ts[n - 1], key).Some? {
        var i: nat :| LatestPut(h, n - 1, key, i) && Lookup(ts[n - 1], key) == Some(EntryOf(h[i]));
        assert LatestPut(h, n, key, i);
      }
    }
  }

  predicate Young(e: Entry, now: int) {
    (now - e.cachedAt) * 1000 < CACHE_TTL_MS
  }

  /** What a get answers in table t. */
  function Hit(t: Table, key: seq<byte>, now: int): Option<Entry> {
    match Lookup(t, key)
    case None => None
    case Some(e) => if Young(e, now) then Some(e) else None
  }

  /** No accepted put of another method and host can share a key with q. */
  ghost predicate Apart(h: seq<PutCall>, q: PutCall) {
    forall i :: 0 <= i < |h| && Accepted(h[i]) ==>
      (h[i].verb == q.verb && h[i].host == q.host) || !Clash(h[i].verb, h[i].host, q.verb, q.host)
  }

  /** A hit is exactly the latest kept put of the very same request, for less than a second. */
  lemma HitIff(ts: seq<Table>, h: seq<PutCall>, n: nat, q: PutCall)
    requires IsRun(ts, h) && n <= |h| && Apart(h, q)
    ensures var hit := Hit(ts[n], KeyOf(q), q.now);
            && (hit.Some? ==> exists i: nat :: LatestFor(h, n, q, i) && q.now - h[i].now < 1
                                               && hit.value.data == h[i].data && hit.value.status == h[i].status)
            && (hit.None? ==> forall i: nat :: LatestFor(h, n, q, i) ==> q.now - h[i].now >= 1)
  {
    var key := KeyOf(q);
    RunHoldsLatest(ts, h, n, key);
    forall i | 0 <= i < n && Accepted(h[i])
      ensures KeyOf(h[i]) == key <==> SameRequest(h[i], q)
    {
      if KeyOf(h[i]) == key {
        CacheKeyInjective(h[i].verb, h[i].host, h[i].port, h[i].path, q.verb, q.host, q.port, q.path);
      }
    }
    if Lookup(ts[n], key).Some? {
      var i: nat :| LatestPut(h, n, key, i) && Lookup(ts[n], key) == Some(EntryOf(h[i]));
      assert LatestFor(h, n, q, i);
      assert forall j: nat :: LatestFor(h, n, q, j) ==> j == i;
    }
  }

  /** In particular where no method or host holds a ':'. */
  lemma ColonFreeHistory(h: seq<PutCall>, q: PutCall)
    requires 58 !in q.verb && 58 !in q.host && forall i :: 0 <= i < |h| ==> 58 !in h[i].verb && 58 !in h[i].host
    ensures Apart(h, q)
  {
    forall i | 0 <= i < |h| && (h[i].verb != q.verb || h[i].host != q.host)
      ensures !Clash(h[i].verb, h[i].host, q.verb, q.host)
    {
      ColonFreeApart(h[i].verb, h[i].host, q.verb, q.host);
    }
  }

  /** A put of p into a new cache is a hit for q although q is another request. */
  predicate Confuses(p: PutCall, q: PutCall) {
    Accepted(p) && !SameRequest(p, q) && Hit(AfterPut(NewTable(), p), KeyOf(q), q.now) == Some(EntryOf(p))
  }

  function NewTable(): Table {
    seq(BUCKETS, i => [])
  }

  /** Two different methods and hosts get each other's responses, for some requests, exactly when they clash. */
  lemma ConfusedIff(verb: seq<byte>, host: seq<byte>, verb': seq<byte>, host': seq<byte>)
    requires verb != verb' || host != host'
    ensures Clash(verb, host, verb', host') <==>
            exists p: PutCall, q: PutCall ::
              p.verb == verb && p.host == host && q.verb == verb' && q.host == host' && Confuses(p, q)
  {
    if p0: Port, path, p1: Port, path' :| CacheKey(verb, host, p0, path) == CacheKey(verb', host', p1, path') {
      var p := PutCall(verb, host, p0, path, [0], 200, 0, true);
      var q := PutCall(verb', host', p1, path', [0], 200, 0, true);
      PutEffect(NewTable(), EntryOf(p), KeyOf(q));
      assert Confuses(p, q);
    } else {
      forall p: PutCall, q: PutCall | p.verb == verb && p.host == host && q.verb == verb' && q.host == host'
        ensures !Confuses(p, q)
      {
        if Accepted(p) {
          assert CacheKey(p.verb, p.host, p.port, p.path) != CacheKey(q.verb, q.host, q.port, q.path);
          PutEffect(NewTable(), EntryOf(p), KeyOf(q));
          LookupChainNone(NewTable()[Bucket(KeyOf(q))], KeyOf(q));
        }
      }
    }
  }

  predicate SameRequest(p: PutCall, q: PutCall) {
    p.verb == q.verb && p.host == q.host && p.port == q.port && p.path == q.path
  }

  /** A put that is kept: some data, at most a mebibyte, and memory for it. */
  predicate Kept(p: PutCall) {
    1 <= |p.data| <= 1048576 && p.memory
  }

  /** Put i is the latest kept one of the same request before n. */
  predicate LatestFor(h: seq<PutCall>, n: nat, q: PutCall, i: nat)
    requires n <= |h|
  {
    i < n && Kept(h[i]) && SameRequest(h[i], q) && forall j :: i < j < n ==> !(Kept(h[j]) && SameRequest(h[j], q))
  }

  class ResponseCache {
    var buckets: Table
    var hits: nat
    var misses: nat

    constructor ()
      ensures forall b :: 0 <= b < BUCKETS ==> buckets[b] == []
    {
      buckets := NewTable();
      hits, misses := 0, 0;
    }

    method CacheGet(verb: seq<byte>, host: seq<byte>, port: Port, path: seq<byte>, now: int) returns (r: Option<Entry>)
      modifies this`hits, this`misses
      ensures r == Hit(buckets, CacheKey(verb, host, port, path), now)
      ensures hits == old(hits) + (if r.Some? then 1 else 0) && misses == old(misses) + (if r.Some? then 0 else 1)
    {
      var key := CacheKey(verb, host, port, path);
      var bucket := CacheHash(key);
      var chain := buckets[bucket];
      for i := 0 to |chain|
        invariant FindKey(chain, key, 0) == FindKey(chain, key, i)
        invariant hits == old(hits) && misses == old(misses)
      {
        if chain[i].key == key {
          if (now - chain[i].cachedAt) * 1000 < CACHE_TTL_MS {
            hits := hits + 1;
            return Some(chain[i]);
          }
          break;
        }
      }
      misses := misses + 1;
      return None;
    }

    method CachePut(p: PutCall)
      modifies this`buckets
      ensures buckets == AfterPut(old(buckets), p)
    {
      if |p.data| == 0 || |p.data| > MAX_SIZE || !p.memory {
        return;
      }
      var key := KeyOf(p);
      var bucket := CacheHash(key);
      var chain := buckets[bucket];
      for i := 0 to |chain|
        invariant FindKey(chain, key, 0) == FindKey(chain, key, i)
      {
        if chain[i].key == key {
          buckets := buckets[bucket := chain[i := EntryOf(p)]];
          return;
        }
      }
      buckets := buckets[bucket := [EntryOf(p)] + chain];
    }
  }
}
