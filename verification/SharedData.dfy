/**
 The shared key-value store with versions (src/proxy_wasm_shared.c): 64 hash buckets of linked
 entries.  `Table` is the value of the data structure; its laws below are about what a caller
 sees of it (`Lookup`), and the class at the end is the linked structure itself.
 */
module SharedData {
  import opened Bytes

  const BUCKETS: nat := 64
  const MAX_KEY: nat := 256
  const MAX_VALUE: nat := 65536

  datatype Cell = Cell(value: seq<byte>, version: nat)
  datatype Item = Item(key: seq<byte>, cell: Cell)
  datatype Status = Ok | CasMismatch | Error

  type Table = t: seq<seq<Item>> | |t| == BUCKETS
    witness seq(BUCKETS, i => [])

  function Empty(): Table {
    seq(BUCKETS, i => [])
  }

  // ---------------------------------------------------------------- hashing

  function Xor(a: byte, b: byte): byte {
    ((a as bv8) ^ (b as bv8)) as byte
  }

  /** One round on 32 bits: exclusive-or with the octet (which meets only the low eight bits), then multiply. */
  function Round(hash: nat, c: byte): nat {
    ((hash - hash % 256 + Xor(hash % 256, c)) * 16777619) % U32_MOD
  }

  function Fnv1a(key: seq<byte>): nat {
    if key == [] then 2166136261 else Round(Fnv1a(key[..|key| - 1]), key[|key| - 1])
  }

  method ComputeFnv1a(key: seq<byte>) returns (hash: nat)
    ensures hash == Fnv1a(key)
  {
    hash := 2166136261;
    for i := 0 to |key|
      invariant hash == Fnv1a(key[..i])
    {
      assert key[..i + 1][..i] == key[..i];
      hash := Round(hash, key[i]);
    }
    assert key[..|key|] == key;
  }

  /** Two published values of the 32-bit FNV-1a hash: of nothing and of "a". */
  lemma Fnv1aVectors()
    ensures Fnv1a([]) == 0x811c_9dc5 && Fnv1a(Ascii("a")) == 0xe40c_292c
  {
    var a: seq<byte> := Ascii("a");
    assert a == [97] && a[..0] == [];
    RoundVector();
    assert Fnv1a(a) == Round(Fnv1a(a[..0]), 97);
  }

  lemma RoundVector()
    ensures Round(2166136261, 97) == 0xe40c_292c
  {
    XorVector();
    RoundIs(2166136261, 97, 0xa4);
  }

  lemma RoundIs(hash: nat, c: byte, x: byte)
    requires Xor(hash % 256, c) == x
    ensures Round(hash, c) == (hash - hash % 256 + x) * 16777619 % U32_MOD
  {
  }

  lemma XorVector()
    ensures Xor(0xc5, 97) == 0xa4
  {
    assert 0xc5 as bv8 ^ 97 as bv8 == 0xa4 as bv8;
  }

  function Bucket(key: seq<byte>): (b: nat)
    ensures b < BUCKETS
  {
    Fnv1a(key) % BUCKETS
  }

  // ---------------------------------------------------------------- the structure as a value

  /** strlen(stored) == |key| && memcmp(stored, key, |key|) == 0. */
  predicate Matches(stored: seq<byte>, key: seq<byte>)
    ensures Matches(stored, key) <==> CStr(stored) == key
  {
    |CStr(stored)| == |key| && stored[..|key|] == key
  }

  /** The position of the first matching entry, or the chain's length. */
  function Find(chain: seq<Item>, key: seq<byte>): (i: nat)
    ensures i <= |chain|
    ensures i < |chain| ==> Matches(chain[i].key, key)
    ensures forall j :: 0 <= j < i ==> !Matches(chain[j].key, key)
  {
    FirstWhere(chain, (e: Item) => Matches(e.key, key), 0)
  }

  function FindCell(chain: seq<Item>, key: seq<byte>): Option<Cell> {
    var i := Find(chain, key);
    if i < |chain| then Some(chain[i].cell) else None
  }

  function Lookup(t: Table, key: seq<byte>): Option<Cell> {
    if key == [] then None else FindCell(t[Bucket(key)], key)
  }

  predicate Accepted(key: seq<byte>, value: seq<byte>) {
    0 < |key| <= MAX_KEY && |value| <= MAX_VALUE
  }

  function PutChain(chain: seq<Item>, key: seq<byte>, value: seq<byte>, cas: nat): (seq<Item>, Status) {
    var i := Find(chain, key);
    if i == |chain| then
      ([Item(key, Cell(value, 1))] + chain, Ok)
    else if cas != 0 && chain[i].cell.version != cas then
      (chain, CasMismatch)
    else
      (chain[i := chain[i].(cell := Cell(value, (chain[i].cell.version + 1) % U32_MOD))], Ok)
  }

  function Put(t: Table, key: seq<byte>, value: seq<byte>, cas: nat): (Table, Status) {
    if !Accepted(key, value) then (t, Error)
    else
      var w := PutChain(t[Bucket(key)], key, value, cas);
      (t[Bucket(key) := w.0], w.1)
  }

  // ---------------------------------------------------------------- what callers see

  /** The plain map's account of one write: version 0 is unconditional, an absent key is created. */
  function WriteCell(was: Option<Cell>, value: seq<byte>, cas: nat): (r: (Option<Cell>, Status)) {
    if was.None? then (Some(Cell(value, 1)), Ok)
    else if cas != 0 && cas != was.value.version then (was, CasMismatch)
    else (Some(Cell(value, (was.value.version + 1) % U32_MOD)), Ok)
  }

  lemma FindUnique(chain: seq<Item>, key: seq<byte>, i: nat)
    requires i <= |chain|
    requires i < |chain| ==> Matches(chain[i].key, key)
    requires forall j :: 0 <= j < i ==> !Matches(chain[j].key, key)
    ensures Find(chain, key) == i
  {
  }

  lemma PutChainRefines(chain: seq<Item>, key: seq<byte>, value: seq<byte>, cas: nat, k: seq<byte>)
    requires NulFree(key)
    ensures var w, was := PutChain(chain, key, value, cas), FindCell(chain, key);
            && w.1 == WriteCell(was, value, cas).1
            && FindCell(w.0, k) == if k == key then WriteCell(was, value, cas).0 else FindCell(chain, k)
  {
    var w := PutChain(chain, key, value, cas);
    var i, f := Find(chain, key), Find(chain, k);
    NulFreeIsOwnCStr(key);
    if i == |chain| {
      FindUnique(w.0, k, if k == key then 0 else f + 1);
    } else {
      FindUnique(w.0, k, f);
    }
  }

  /** A write under a NUL-free key does to the lookups exactly what it does to a plain map. */
  lemma PutRefinesMap(t: Table, key: seq<byte>, value: seq<byte>, cas: nat, k: seq<byte>)
    requires Accepted(key, value) && NulFree(key)
    ensures var w, was := Put(t, key, value, cas), Lookup(t, key);
            && w.1 == WriteCell(was, value, cas).1
            && Lookup(w.0, k) == if k == key then WriteCell(was, value, cas).0 else Lookup(t, k)
  {
    PutChainRefines(t[Bucket(key)], key, value, cas, k);
  }

  /** A write that is not answered Ok changes nothing. */
  lemma RefusedKeeps(t: Table, key: seq<byte>, value: seq<byte>, cas: nat)
    ensures Put(t, key, value, cas).1 != Ok ==> Put(t, key, value, cas).0 == t
  {
    assert t[Bucket(key) := t[Bucket(key)]] == t;
  }

  /** The write reports a mismatch exactly when the key is present and cas is another, nonzero version. */
  lemma MismatchIff(t: Table, key: seq<byte>, value: seq<byte>, cas: nat)
    requires Accepted(key, value)
    ensures Put(t, key, value, cas).1 == CasMismatch <==>
              Lookup(t, key).Some? && cas != 0 && cas != Lookup(t, key).value.version
  {
  }

  /** An accepted, successful write can be read back under its own key exactly when that key has no NUL. */
  lemma ReadBackIff(t: Table, key: seq<byte>, value: seq<byte>, cas: nat)
    requires Put(t, key, value, cas).1 == Ok
    ensures (exists v: nat :: Lookup(Put(t, key, value, cas).0, key) == Some(Cell(value, v))) <==> NulFree(key)
  {
    var t' := Put(t, key, value, cas).0;
    if NulFree(key) {
      PutRefinesMap(t, key, value, cas, key);
      assert Lookup(t', key) == Some(Cell(value, Lookup(t', key).value.version));
    } else {
      NulFreeIsOwnCStr(key);
      var i := Find(t'[Bucket(key)], key);
    }
  }

  // ---------------------------------------------------------------- every history of calls

  datatype Op = Op(key: seq<byte>, value: seq<byte>, cas: nat)

  ghost predicate StepAt(ts: seq<Table>, log: seq<Status>, ops: seq<Op>, n: nat) {
    n + 1 < |ts| && n < |log| && n < |ops| && (ts[n + 1], log[n]) == Put(ts[n], ops[n].key, ops[n].value, ops[n].cas)
  }

  /** ts[n] is a new store after the first n calls of ops, log[n] the answer to call n. */
  ghost predicate IsRun(ts: seq<Table>, log: seq<Status>, ops: seq<Op>) {
    && |ts| == |ops| + 1 && |log| == |ops| && ts[0] == Empty()
    && (forall n: nat :: n < |ops| ==> StepAt(ts, log, ops, n))
    && (forall n: nat :: n < |ops| ==> NulFree(ops[n].key))
  }

  /** Call n was a successful write to k. */
  predicate Wrote(log: seq<Status>, ops: seq<Op>, n: nat, k: seq<byte>)
    requires n < |ops| == |log|
  {
    ops[n].key == k && log[n] == Ok
  }

  /** How many of the first n calls were successful writes to k. */
  function Writes(log: seq<Status>, ops: seq<Op>, n: nat, k: seq<byte>): nat
    requires n <= |ops| == |log|
  {
    if n == 0 then 0 else Writes(log, ops, n - 1, k) + if Wrote(log, ops, n - 1, k) then 1 else 0
  }

  /** The value of the latest successful write to k among the first n calls. */
  function LatestValue(log: seq<Status>, ops: seq<Op>, n: nat, k: seq<byte>): Option<seq<byte>>
    requires n <= |ops| == |log|
  {
    if n == 0 then None
    else if Wrote(log, ops, n - 1, k) then Some(ops[n - 1].value)
    else LatestValue(log, ops, n - 1, k)
  }

  lemma EmptyHasNothing(k: seq<byte>)
    ensures Lookup(Empty(), k) == None
  {
    assert Empty()[Bucket(k)] == [];
  }

  lemma NextVersion(n: nat)
    ensures (n % U32_MOD + 1) % U32_MOD == (n + 1) % U32_MOD
  {
  }

  /** Only a successful write to k changes what is read under k. */
  lemma PutEffect(t: Table, op: Op, k: seq<byte>)
    requires NulFree(op.key)
    ensures var w, was := Put(t, op.key, op.value, op.cas), Lookup(t, k);
            Lookup(w.0, k) ==
              if op.key == k && w.1 == Ok
              then Some(Cell(op.value, if was.None? then 1 else (was.value.version + 1) % U32_MOD))
              else was
  {
    if Accepted(op.key, op.value) {
      PutRefinesMap(t, op.key, op.value, op.cas, k);
    }
  }

  /** What a key reads as after n calls. */
  ghost predicate Explained(cell: Option<Cell>, writes: nat, latest: Option<seq<byte>>) {
    && (writes == 0 <==> latest.None?)
    && cell == if latest.None? then None else Some(Cell(latest.value, writes % U32_MOD))
  }

  /**
   After any history of writes under NUL-free keys, a key is present exactly when it was written,
   it holds the latest value written, and its version is its number of successful writes (mod 2^32).
   */
  lemma {:induction false} HistoryDeterminesCell(ts: seq<Table>, log: seq<Status>, ops: seq<Op>, n: nat, k: seq<byte>)
    requires IsRun(ts, log, ops) && n <= |ops|
    ensures Explained(Lookup(ts[n], k), Writes(log, ops, n, k), LatestValue(log, ops, n, k))
  {
    if n == 0 {
      EmptyHasNothing(k);
    } else {
      HistoryDeterminesCell(ts, log, ops, n - 1, k);
      assert StepAt(ts, log, ops, n - 1);
      PutEffect(ts[n - 1], ops[n - 1], k);
      NextVersion(Writes(log, ops, n - 1, k));
    }
  }

  /**
   In every such history a write is an error exactly for a key of 0 or over 256 bytes or a value of
   over 65536, and a mismatch exactly when the key was written before and the version given is
   neither 0 nor its number of successful writes (mod 2^32).
   */
  lemma SetAnswers(ts: seq<Table>, log: seq<Status>, ops: seq<Op>, n: nat)
    requires IsRun(ts, log, ops) && n < |ops|
    ensures var op := ops[n];
            var writes := Writes(log, ops, n, op.key);
            log[n] == if !(1 <= |op.key| <= 256) || |op.value| > 65536 then Error
                      else if writes > 0 && op.cas != 0 && op.cas != writes % 0x1_0000_0000 then CasMismatch
                      else Ok
  {
    var op := ops[n];
    assert StepAt(ts, log, ops, n);
    HistoryDeterminesCell(ts, log, ops, n, op.key);
    if Accepted(op.key, op.value) {
      PutRefinesMap(ts[n], op.key, op.value, op.cas, op.key);
    }
  }

  /** Chains hold NUL-free keys, each once and in its own bucket. */
  ghost predicate WellFormed(t: Table) {
    && (forall b, i :: 0 <= b < BUCKETS && 0 <= i < |t[b]| ==>
          NulFree(t[b][i].key) && t[b][i].key != [] && Bucket(t[b][i].key) == b)
    && (forall b, i, j :: 0 <= b < BUCKETS && 0 <= i < j < |t[b]| ==> t[b][i].key != t[b][j].key)
  }

  lemma PutWellFormed(t: Table, key: seq<byte>, value: seq<byte>, cas: nat)
    requires WellFormed(t) && NulFree(key)
    ensures WellFormed(Put(t, key, value, cas).0)
  {
    var b := Bucket(key);
    forall i | 0 <= i < |t[b]|
      ensures Matches(t[b][i].key, key) <==> t[b][i].key == key
    {
      NulFreeIsOwnCStr(t[b][i].key);
    }
  }

  lemma {:induction false} HistoryWellFormed(ts: seq<Table>, log: seq<Status>, ops: seq<Op>, n: nat)
    requires IsRun(ts, log, ops) && n <= |ops|
    ensures WellFormed(ts[n])
  {
    if n > 0 {
      HistoryWellFormed(ts, log, ops, n - 1);
      assert StepAt(ts, log, ops, n - 1);
      var op := ops[n - 1];
      PutWellFormed(ts[n - 1], op.key, op.value, op.cas);
    }
  }

  // ---------------------------------------------------------------- the linked structure

  class Entry {
    const key: seq<byte>
    var value: seq<byte>
    var cas: nat
    const next: Entry?         // entries are only ever put in front, so links never change
    ghost const bucket: nat
    ghost const rank: nat      // how many entries its bucket held before it

    constructor (key: seq<byte>, value: seq<byte>, next: Entry?, ghost bucket: nat, ghost rank: nat)
      ensures this.key == key && this.value == value && this.cas == 1 && this.next == next
      ensures this.bucket == bucket && this.rank == rank
    {
      this.key, this.value, this.cas, this.next := key, value, 1, next;
      this.bucket, this.rank := bucket, rank;
    }

    ghost function ToItem(): Item
      reads this
    {
      Item(key, Cell(value, cas))
    }
  }

  ghost predicate Linked(head: Entry?, chain: seq<Entry>) {
    if chain == [] then head == null
    else head == chain[0] && Linked(chain[0].next, chain[1..])
  }

  class Store {
    const buckets: array<Entry?>
    ghost var chains: seq<seq<Entry>>
    ghost var table: Table
    ghost var entries: set<Entry>

    ghost predicate Valid()
      reads this, buckets, entries
    {
      && buckets.Length == BUCKETS == |chains|
      && (forall b :: 0 <= b < BUCKETS ==> Linked(buckets[b], chains[b]) && |chains[b]| == |table[b]|)
      && (forall b, i :: 0 <= b < BUCKETS && 0 <= i < |chains[b]| ==>
            && chains[b][i] in entries
            && chains[b][i].bucket == b && chains[b][i].rank == |chains[b]| - 1 - i
            && table[b][i] == chains[b][i].ToItem())
    }

    constructor ()
      ensures Valid() && fresh(buckets) && entries == {} && table == Empty()
    {
      buckets := new Entry?[BUCKETS](i => null);
      chains := seq(BUCKETS, i => []);
      table := Empty();
      entries := {};
    }

    /** The first entry of bucket b that matches, with its position in the chain. */
    method Search(b: nat, key: seq<byte>) returns (e: Entry?, ghost i: nat)
      requires Valid() && b < BUCKETS
      ensures i == Find(table[b], key)
      ensures if i < |table[b]| then e == chains[b][i] else e == null
    {
      e := buckets[b];
      i := 0;
      while e != null
        invariant i <= |chains[b]| && Linked(e, chains[b][i..])
        invariant forall j :: 0 <= j < i ==> !Matches(table[b][j].key, key)
        decreases |chains[b]| - i
      {
        if |CStr(e.key)| == |key| && e.key[..|key|] == key {
          break;
        }
        e, i := e.next, i + 1;
      }
      FindUnique(table[b], key, i);
    }

    method Get(key: seq<byte>) returns (r: Option<Cell>)
      requires Valid()
      ensures r == Lookup(table, key)
    {
      if |key| == 0 {
        return None;
      }
      var h := ComputeFnv1a(key);
      var e, i := Search(h % BUCKETS, key);
      return if e == null then None else Some(Cell(e.value, e.cas));
    }

    method Set(key: seq<byte>, value: seq<byte>, cas: nat) returns (status: Status)
      requires Valid()
      modifies this, buckets, entries
      ensures Valid() && fresh(entries - old(entries))
      ensures table == Put(old(table), key, value, cas).0 && status == Put(old(table), key, value, cas).1
    {
      if |key| == 0 || |key| > MAX_KEY || |value| > MAX_VALUE {
        return Error;
      }
      var h := ComputeFnv1a(key);
      var b := h % BUCKETS;
      var e, i := Search(b, key);
      if e != null {
        status := Replace(e, key, value, cas, b, i);
        return;
      }
      Prepend(key, value, b);
      return Ok;
    }

    /** A key that is there: checked against the version, then updated in place. */
    method Replace(e: Entry, key: seq<byte>, value: seq<byte>, cas: nat, ghost b: nat, ghost i: nat)
        returns (status: Status)
      requires Valid() && Accepted(key, value) && b == Bucket(key)
      requires i == Find(table[b], key) < |table[b]| && e == chains[b][i]
      modifies this`table, e
      ensures Valid() && table == Put(old(table), key, value, cas).0 && status == Put(old(table), key, value, cas).1
    {
      if cas != 0 && e.cas != cas {
        return CasMismatch;
      }
      Update(e, value, b, i);
      return Ok;
    }

    method Prepend(key: seq<byte>, value: seq<byte>, b: nat)
      requires Valid() && b < BUCKETS
      modifies this, buckets
      ensures Valid() && fresh(entries - old(entries))
      ensures table == old(table)[b := [Item(key, Cell(value, 1))] + old(table)[b]]
    {
      var e := new Entry(key, value, buckets[b], b, |chains[b]|);
      buckets[b] := e;
      chains := chains[b := [e] + chains[b]];
      table := table[b := [Item(key, Cell(value, 1))] + table[b]];
      entries := entries + {e};
    }

    method Update(e: Entry, value: seq<byte>, ghost b: nat, ghost i: nat)
      requires Valid() && b < BUCKETS && i < |chains[b]| && e == chains[b][i]
      modifies this`table, e
      ensures Valid()
      ensures table == old(table)[b := old(table)[b][i :=
                         Item(e.key, Cell(value, (old(table)[b][i].cell.version + 1) % U32_MOD))]]
    {
      e.value := value;
      e.cas := (e.cas + 1) % U32_MOD;
      table := table[b := table[b][i := e.ToItem()]];
    }
  }
}
