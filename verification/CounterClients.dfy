/**
 Counters kept in the shared store by compare-and-swap retry loops
 (examples/edge-security-filter/src/lib.rs over src/proxy_wasm_shared.c).

 Any number of clients run increment_shared_counter (width 8) or the loop of is_rate_limited
 (width 4) on one key; between any two host calls of a client any other client, or a writer of
 other keys, may run.  A failed read reaches the client as "no value, no version".
 */
module CounterClients {
  import opened Bytes
  import SD = SharedData

  datatype Client =
    | Start
    | HasRead(current: nat, cas: nat)
    | Counted(newVal: nat)       // the write succeeded
    | GaveUp                     // the write failed for another reason

  datatype State = State(
    table: SD.Table, clients: seq<Client>,
    successes: nat,              // increments that succeeded so far
    overwrites: nat,             // of these, unconditional writes over a present, nonzero counter
    failedReads: nat)

  datatype Params = Params(key: seq<byte>, width: nat)

  ghost predicate ValidParams(c: Params) {
    NulFree(c.key) && 0 < |c.key| <= SD.MAX_KEY && (c.width == 4 || c.width == 8)
  }

  function Decode(width: nat, value: seq<byte>): nat {
    FromLE(value[..Min(|value|, width)])
  }

  function Encode(width: nat, v: nat): seq<byte> {
    LE(width, v)
  }

  function Value(t: SD.Table, c: Params): nat {
    var cell := SD.Lookup(t, c.key);
    if cell.None? then 0 else Decode(c.width, cell.value.value)
  }

  function Version(t: SD.Table, c: Params): nat {
    var cell := SD.Lookup(t, c.key);
    if cell.None? then 0 else cell.value.version
  }

  predicate Present(t: SD.Table, c: Params) {
    SD.Lookup(t, c.key).Some?
  }

  function ReadStep(s: State, c: Params, i: nat, ok: bool): State
    requires i < |s.clients|
  {
    if ok then s.(clients := s.clients[i := HasRead(Value(s.table, c), Version(s.table, c))])
    else s.(clients := s.clients[i := HasRead(0, 0)], failedReads := s.failedReads + 1)
  }

  function WriteStep(s: State, c: Params, i: nat): State
    requires i < |s.clients| && s.clients[i].HasRead?
  {
    var current, cas := s.clients[i].current, s.clients[i].cas;
    var newVal := (current + 1) % Pow256(c.width);
    var w := SD.Put(s.table, c.key, Encode(c.width, newVal), cas);
    match w.1
    case Ok =>
      var loses := cas == 0 && Present(s.table, c) && Value(s.table, c) > 0;
      State(w.0, s.clients[i := Counted(newVal)], s.successes + 1,
            s.overwrites + (if loses then 1 else 0), s.failedReads)
    case CasMismatch => s.(table := w.0, clients := s.clients[i := Start])
    case Error => s.(table := w.0, clients := s.clients[i := GaveUp])
  }

  ghost predicate OtherWrites(s: State, q: State, c: Params) {
    exists op: SD.Op ::
      && NulFree(op.key) && op.key != c.key
      && q == s.(table := SD.Put(s.table, op.key, op.value, op.cas).0)
  }

  ghost predicate Step(s: State, q: State, c: Params) {
    || OtherWrites(s, q, c)
    || (exists i: nat, ok: bool :: i < |s.clients| && s.clients[i].Start? && q == ReadStep(s, c, i, ok))
    || (exists i: nat :: i < |s.clients| && s.clients[i].HasRead? && q == WriteStep(s, c, i))
  }

  ghost predicate StepsAt(run: seq<State>, c: Params, k: nat) {
    k + 1 < |run| ==> Step(run[k], run[k + 1], c)
  }

  /** A run from any table, all clients at the start; the version counter does not wrap. */
  ghost predicate IsRun(run: seq<State>, c: Params) {
    && ValidParams(c) && |run| > 0
    && (forall i :: 0 <= i < |run[0].clients| ==> run[0].clients[i].Start?)
    && run[0].successes == 0 && run[0].overwrites == 0 && run[0].failedReads == 0
    && (Present(run[0].table, c) ==> Version(run[0].table, c) >= 1)
    && forall k: nat :: StepsAt(run, c, k)
  }

  /** Fewer than 2^32 writes to the key, and a counter that does not overflow its width. */
  predicate NoWrap(s0: State, s: State, c: Params) {
    && Version(s0.table, c) + s.successes < U32_MOD
    && Value(s0.table, c) + s.successes < Pow256(c.width)
  }

  // ---------------------------------------------------------------- what every step keeps

  /** A version read and still current belongs to the value read with it. */
  predicate ClientInv(s: State, c: Params, cl: Client) {
    cl.HasRead? ==>
      && cl.cas <= Version(s.table, c)
      && (cl.cas > 0 && cl.cas == Version(s.table, c) ==> cl.current == Value(s.table, c))
      && (cl.cas == 0 ==> cl.current == 0)
  }

  ghost predicate Inv(s0: State, s: State, c: Params) {
    && (Present(s.table, c) <==> Present(s0.table, c) || s.successes > 0)
    && Version(s.table, c) == Version(s0.table, c) + s.successes
    && (Present(s.table, c) ==> Version(s.table, c) >= 1)
    && (forall i :: 0 <= i < |s.clients| ==> ClientInv(s, c, s.clients[i]))
    && Value(s.table, c) <= Value(s0.table, c) + s.successes
    && (Value(s.table, c) == Value(s0.table, c) + s.successes <==> s.overwrites == 0)
    && (Present(s0.table, c) && s.failedReads == 0 ==>
          s.overwrites == 0
          && forall i :: 0 <= i < |s.clients| && s.clients[i].HasRead? ==> s.clients[i].cas > 0)
  }

  lemma DecodeEncode(width: nat, v: nat)
    requires v < Pow256(width)
    ensures |Encode(width, v)| == width && Decode(width, Encode(width, v)) == v
  {
    FromLEOfLE(width, v);
    assert LE(width, v)[..width] == LE(width, v);
  }

  lemma SmallMod(x: nat, m: nat)
    requires x < m
    ensures x % m == x
  {
  }

  /** A write by client i: what becomes of the counter's cell. */
  lemma WriteEffect(s: State, c: Params, i: nat)
    requires ValidParams(c) && i < |s.clients| && s.clients[i].HasRead?
    requires s.clients[i].current + 1 < Pow256(c.width)
    requires Version(s.table, c) + 1 < U32_MOD
    ensures var cl, q := s.clients[i], WriteStep(s, c, i);
            if Present(s.table, c) && cl.cas != 0 && cl.cas != Version(s.table, c)
            then q == s.(clients := s.clients[i := Start])
            else
              && q.clients == s.clients[i := Counted(cl.current + 1)] && q.successes == s.successes + 1
              && q.overwrites == s.overwrites
                   + (if cl.cas == 0 && Present(s.table, c) && Value(s.table, c) > 0 then 1 else 0)
              && q.failedReads == s.failedReads
              && Present(q.table, c) && Version(q.table, c) == Version(s.table, c) + 1
              && Value(q.table, c) == cl.current + 1
  {
    var newVal := s.clients[i].current + 1;
    SmallMod(newVal, Pow256(c.width));
    CounterWritten(s.table, c, newVal, s.clients[i].cas);
  }

  lemma CounterWritten(t: SD.Table, c: Params, v: nat, cas: nat)
    requires ValidParams(c) && v < Pow256(c.width) && Version(t, c) + 1 < U32_MOD
    ensures var w := SD.Put(t, c.key, Encode(c.width, v), cas);
            if Present(t, c) && cas != 0 && cas != Version(t, c) then w == (t, SD.CasMismatch)
            else w.1 == SD.Ok && Present(w.0, c) && Version(w.0, c) == Version(t, c) + 1 && Value(w.0, c) == v
  {
    var value := Encode(c.width, v);
    DecodeEncode(c.width, v);
    SD.PutRefinesMap(t, c.key, value, cas, c.key);
    SD.RefusedKeeps(t, c.key, value, cas);
    VersionUp(SD.Lookup(t, c.key), value, cas);
  }

  lemma VersionUp(was: Option<SD.Cell>, value: seq<byte>, cas: nat)
    requires was.Some? ==> was.value.version + 1 < U32_MOD
    ensures SD.WriteCell(was, value, cas)
         == if was.Some? && cas != 0 && cas != was.value.version then (was, SD.CasMismatch)
            else (Some(SD.Cell(value, if was.None? then 1 else was.value.version + 1)), SD.Ok)
  {
  }

  lemma OtherKeepsCounter(s: State, q: State, c: Params)
    requires ValidParams(c) && OtherWrites(s, q, c)
    ensures SD.Lookup(q.table, c.key) == SD.Lookup(s.table, c.key) && q == s.(table := q.table)
  {
    var op: SD.Op :| NulFree(op.key) && op.key != c.key
      && q == s.(table := SD.Put(s.table, op.key, op.value, op.cas).0);
    SD.PutEffect(s.table, op, c.key);
  }

  lemma WriteInv(s0: State, s: State, c: Params, i: nat)
    requires ValidParams(c) && Inv(s0, s, c)
    requires i < |s.clients| && s.clients[i].HasRead?
    requires NoWrap(s0, WriteStep(s, c, i), c)
    ensures Inv(s0, WriteStep(s, c, i), c)
  {
    var cl, q := s.clients[i], WriteStep(s, c, i);
    assert ClientInv(s, c, cl);
    if Present(s.table, c) && cl.cas != 0 && cl.cas != Version(s.table, c) {
      SD.MismatchIff(s.table, c.key, Encode(c.width, (cl.current + 1) % Pow256(c.width)), cl.cas);
    } else {
      assert q.successes == s.successes + 1 by {
        SD.PutRefinesMap(s.table, c.key, Encode(c.width, (cl.current + 1) % Pow256(c.width)), cl.cas, c.key);
      }
      assert cl.current <= Value(s.table, c);
      WriteEffect(s, c, i);
      forall j | 0 <= j < |q.clients|
        ensures ClientInv(q, c, q.clients[j])
      {
        if j != i {
          assert ClientInv(s, c, s.clients[j]);
        }
      }
    }
  }

  lemma SuccessesGrow(s: State, q: State, c: Params)
    requires ValidParams(c) && Step(s, q, c)
    ensures s.successes <= q.successes && |q.clients| == |s.clients|
  {
    if OtherWrites(s, q, c) {
      OtherKeepsCounter(s, q, c);
    }
  }

  lemma StepInv(s0: State, s: State, q: State, c: Params)
    requires ValidParams(c) && Inv(s0, s, c) && Step(s, q, c) && NoWrap(s0, q, c)
    ensures Inv(s0, q, c)
  {
    if OtherWrites(s, q, c) {
      OtherKeepsCounter(s, q, c);
      forall j | 0 <= j < |q.clients|
        ensures ClientInv(q, c, q.clients[j])
      {
        assert ClientInv(s, c, s.clients[j]);
      }
    } else if i: nat, ok: bool :| i < |s.clients| && s.clients[i].Start? && q == ReadStep(s, c, i, ok) {
      forall j | 0 <= j < |q.clients|
        ensures ClientInv(q, c, q.clients[j])
      {
        assert j != i ==> ClientInv(s, c, s.clients[j]);
      }
    } else {
      var i: nat :| i < |s.clients| && s.clients[i].HasRead? && q == WriteStep(s, c, i);
      WriteInv(s0, s, c, i);
    }
  }

  lemma {:induction false} RunInv(run: seq<State>, c: Params, k: nat)
    requires IsRun(run, c) && k < |run| && NoWrap(run[0], run[k], c)
    ensures Inv(run[0], run[k], c)
  {
    if k > 0 {
      assert StepsAt(run, c, k - 1);
      SuccessesGrow(run[k - 1], run[k], c);
      RunInv(run, c, k - 1);
      StepInv(run[0], run[k - 1], run[k], c);
    }
  }

  // ---------------------------------------------------------------- theorems

  /**
   In every interleaving the counter stands at its start value plus the number of successful
   increments exactly when no success was an unconditional write over a present, nonzero counter.
   */
  lemma CounterExactIff(run: seq<State>, c: Params, k: nat)
    requires IsRun(run, c) && k < |run| && NoWrap(run[0], run[k], c)
    ensures Value(run[k].table, c) == Value(run[0].table, c) + run[k].successes <==> run[k].overwrites == 0
    ensures Value(run[k].table, c) <= Value(run[0].table, c) + run[k].successes
  {
    RunInv(run, c, k);
  }

  /** A counter that exists from the start, read without host errors, never loses an increment. */
  lemma ExistingCounterExact(run: seq<State>, c: Params, k: nat)
    requires IsRun(run, c) && k < |run| && NoWrap(run[0], run[k], c)
    requires Present(run[0].table, c) && run[k].failedReads == 0
    ensures Value(run[k].table, c) == Value(run[0].table, c) + run[k].successes
  {
    RunInv(run, c, k);
  }

  /** The number a client ends with counts no more than the successes up to and including its own. */
  lemma CountedAtMost(run: seq<State>, c: Params, k: nat, i: nat)
    requires IsRun(run, c) && k + 1 < |run| && NoWrap(run[0], run[k + 1], c)
    requires i < |run[k].clients| == |run[k + 1].clients|
    requires run[k].clients[i].HasRead? && run[k + 1].clients[i].Counted?
    ensures run[k + 1].successes == run[k].successes + 1
    ensures run[k + 1].clients[i].newVal <= Value(run[0].table, c) + run[k].successes + 1
    ensures Present(run[0].table, c) && run[k].failedReads == 0 ==>
              run[k + 1].clients[i].newVal == Value(run[0].table, c) + run[k].successes + 1
  {
    var s, q := run[k], run[k + 1];
    assert StepsAt(run, c, k);
    ItsOwnWrite(s, q, c, i);
    RunInv(run, c, k);
    assert ClientInv(s, c, s.clients[i]);
    WriteEffect(s, c, i);
  }

  /** A client counts itself only by its own successful write. */
  lemma ItsOwnWrite(s: State, q: State, c: Params, i: nat)
    requires Step(s, q, c) && i < |s.clients| == |q.clients| && s.clients[i].HasRead? && q.clients[i].Counted?
    ensures q == WriteStep(s, c, i) && q.successes == s.successes + 1
  {
    if !OtherWrites(s, q, c) {
      var j: nat :| j < |s.clients| && s.clients[j].HasRead? && q == WriteStep(s, c, j);
      assert j == i;
    }
  }

  /** is_rate_limited refuses a client exactly when its own count exceeds the limit. */
  predicate Limited(cl: Client, maxRequests: nat) {
    cl.Counted? && cl.newVal > maxRequests
  }

  /**
   Starting a window with no counter, a request is limited only after at least maxRequests
   earlier requests were counted; with the counter already there it is limited exactly then.
   */
  lemma LimitedOnlyAfter(run: seq<State>, c: Params, k: nat, i: nat, maxRequests: nat)
    requires IsRun(run, c) && k + 1 < |run| && NoWrap(run[0], run[k + 1], c)
    requires i < |run[k].clients| == |run[k + 1].clients|
    requires run[k].clients[i].HasRead? && run[k + 1].clients[i].Counted?
    ensures Limited(run[k + 1].clients[i], maxRequests) ==>
              Value(run[0].table, c) + run[k].successes >= maxRequests
    ensures Present(run[0].table, c) && run[k].failedReads == 0 ==>
              (Limited(run[k + 1].clients[i], maxRequests) <==>
                 Value(run[0].table, c) + run[k].successes >= maxRequests)
  {
    CountedAtMost(run, c, k, i);
  }

  /** The state in which two clients have both found no counter. */
  function BothRead(): State {
    State(SD.Empty(), [HasRead(0, 0), HasRead(0, 0)], 0, 0, 0)
  }

  lemma TwoReads(c: Params)
    requires ValidParams(c)
    ensures var s0 := State(SD.Empty(), [Start, Start], 0, 0, 0);
            && !Present(s0.table, c) && Value(s0.table, c) == 0 && Version(s0.table, c) == 0
            && ReadStep(ReadStep(s0, c, 0, true), c, 1, true) == BothRead()
  {
    SD.EmptyHasNothing(c.key);
  }

  lemma WidthHolds(c: Params)
    requires ValidParams(c)
    ensures Pow256(c.width) >= 256
  {
    assert Pow256(c.width) == 256 * Pow256(c.width - 1);
  }

  lemma TwoWrites(c: Params)
    requires ValidParams(c)
    ensures var s3 := WriteStep(BothRead(), c, 0);
            && |s3.clients| == 2 && s3.clients[1].HasRead?
            && var s4 := WriteStep(s3, c, 1);
               s4.successes == 2 && s4.failedReads == 0 && Value(s4.table, c) == 1
  {
    TwoReads(c);
    WidthHolds(c);
    WriteEffect(BothRead(), c, 0);
    WriteEffect(WriteStep(BothRead(), c, 0), c, 1);
  }

  /** Two clients that both find no counter: two successes, and the counter stands at one. */
  lemma FirstTwoCanCollide(c: Params) returns (run: seq<State>)
    requires ValidParams(c)
    ensures IsRun(run, c) && |run| == 5 && NoWrap(run[0], run[4], c)
    ensures run[4].successes == 2 && run[4].failedReads == 0 && Value(run[4].table, c) == 1
  {
    var s0 := State(SD.Empty(), [Start, Start], 0, 0, 0);
    var s1 := ReadStep(s0, c, 0, true);
    var s2 := BothRead();
    TwoReads(c);
    TwoWrites(c);
    WidthHolds(c);
    var s3 := WriteStep(s2, c, 0);
    var s4 := WriteStep(s3, c, 1);
    run := [s0, s1, s2, s3, s4];
    assert Step(s0, s1, c) && Step(s1, s2, c) && Step(s2, s3, c) && Step(s3, s4, c);
    forall k: nat
      ensures StepsAt(run, c, k)
    {
      assert k < 4 ==> k == 0 || k == 1 || k == 2 || k == 3;
    }
  }

  // ---------------------------------------------------------------- progress

  lemma {:induction false} RunGrows(run: seq<State>, c: Params, j: nat, k: nat)
    requires IsRun(run, c) && j <= k < |run|
    ensures run[j].successes <= run[k].successes && |run[j].clients| == |run[k].clients|
  {
    if j < k {
      RunGrows(run, c, j, k - 1);
      assert StepsAt(run, c, k - 1);
      SuccessesGrow(run[k - 1], run[k], c);
    }
  }

  lemma {:induction false} GrowthStep(run: seq<State>, c: Params, j: nat, k: nat) returns (l: nat)
    requires IsRun(run, c) && j <= k < |run| && run[j].successes < run[k].successes
    ensures j <= l < k && run[l].successes < run[l + 1].successes
  {
    RunGrows(run, c, j, k - 1);
    if run[j].successes < run[k - 1].successes {
      l := GrowthStep(run, c, j, k - 1);
    } else {
      l := k - 1;
    }
  }

  /** A success is some client's write. */
  lemma WhoSucceeded(s: State, q: State, c: Params) returns (o: nat)
    requires ValidParams(c) && Step(s, q, c) && s.successes < q.successes
    ensures o < |s.clients| == |q.clients| && s.clients[o].HasRead? && q.clients[o].Counted?
  {
    if OtherWrites(s, q, c) {
      OtherKeepsCounter(s, q, c);
      assert false;
    } else {
      o :| o < |s.clients| && s.clients[o].HasRead? && q == WriteStep(s, c, o);
    }
  }

  /** A read takes the current version, or none when it fails or finds nothing. */
  lemma ItsOwnRead(s: State, q: State, c: Params, i: nat)
    requires ValidParams(c) && Step(s, q, c) && i < |s.clients| == |q.clients|
    requires s.clients[i].Start? && q.clients[i].HasRead?
    ensures q.clients[i].cas == 0 || q.clients[i].cas == Version(s.table, c)
    ensures q.successes == s.successes
  {
    if OtherWrites(s, q, c) {
      OtherKeepsCounter(s, q, c);
    }
  }

  /** A client starts over only because its version is not the current one. */
  lemma ItsOwnMismatch(s: State, q: State, c: Params, i: nat)
    requires ValidParams(c) && Step(s, q, c) && i < |s.clients| == |q.clients|
    requires s.clients[i].HasRead? && q.clients[i].Start?
    ensures s.clients[i].cas != 0 && s.clients[i].cas != Version(s.table, c)
  {
    if OtherWrites(s, q, c) {
      OtherKeepsCounter(s, q, c);
    } else {
      var j: nat :| j < |s.clients| && s.clients[j].HasRead? && q == WriteStep(s, c, j);
      assert j == i;
      var cl := s.clients[i];
      SD.MismatchIff(s.table, c.key, Encode(c.width, (cl.current + 1) % Pow256(c.width)), cl.cas);
    }
  }

  /** From just after j up to k, client i stands between its read and its write. */
  ghost predicate Waits(run: seq<State>, i: nat, j: nat, k: nat, cl: Client)
    requires k < |run|
  {
    cl.HasRead? && forall l :: j < l <= k ==> i < |run[l].clients| && run[l].clients[i] == cl
  }

  /** The successes in between, seen from the versions. */
  lemma VersionMoved(run: seq<State>, c: Params, i: nat, j: nat, k: nat, cl: Client)
    requires IsRun(run, c) && j < k && k + 1 < |run| && NoWrap(run[0], run[k], c)
    requires i < |run[j].clients| && run[j].clients[i].Start? && Waits(run, i, j, k, cl)
    requires i < |run[k + 1].clients| && run[k + 1].clients[i].Start?
    ensures run[j + 1].successes < run[k].successes
  {
    assert StepsAt(run, c, j);
    assert StepsAt(run, c, k);
    RunGrows(run, c, j, j + 1);
    RunGrows(run, c, k, k + 1);
    ItsOwnRead(run[j], run[j + 1], c, i);
    ItsOwnMismatch(run[k], run[k + 1], c, i);
    RunGrows(run, c, j + 1, k);
    RunInv(run, c, j);
    RunInv(run, c, k);
  }

  /**
   Every retry is paid for: when a client reads at step j and has its write refused at step k, some
   other client counted itself in between. So among any number of clients somebody always advances.
   */
  lemma RetryMeansProgress(run: seq<State>, c: Params, i: nat, j: nat, k: nat, cl: Client) returns (l: nat, o: nat)
    requires IsRun(run, c) && j < k && k + 1 < |run| && NoWrap(run[0], run[k], c)
    requires i < |run[j].clients| && run[j].clients[i].Start? && Waits(run, i, j, k, cl)
    requires i < |run[k + 1].clients| && run[k + 1].clients[i].Start?
    ensures j < l < k && o != i && o < |run[l].clients| == |run[l + 1].clients|
    ensures run[l].clients[o].HasRead? && run[l + 1].clients[o].Counted?
  {
    VersionMoved(run, c, i, j, k, cl);
    l := GrowthStep(run, c, j + 1, k);
    assert StepsAt(run, c, l);
    o := WhoSucceeded(run[l], run[l + 1], c);
    assert run[l + 1].clients[i] == cl;
  }

  // ---------------------------------------------------------------- the code

  /** The store after the first n of some other callers' writes. */
  function AfterOps(t: SD.Table, ops: seq<SD.Op>, n: nat): SD.Table
    requires n <= |ops|
  {
    if n == 0 then t
    else SD.Put(AfterOps(t, ops, n - 1), ops[n - 1].key, ops[n - 1].value, ops[n - 1].cas).0
  }

  /** What happens around one attempt: whether its read goes through, and what others write before its write. */
  datatype Round = Round(readOk: bool, ops: seq<SD.Op>)

  /** The round of attempt a; after the last one given nothing fails and nobody interferes. */
  function RoundAt(rounds: seq<Round>, a: nat): Round {
    if a < |rounds| then rounds[a] else Round(true, [])
  }

  /** The value and the version a read of table t hands to the client. */
  function SeenValue(t: SD.Table, c: Params, readOk: bool): nat {
    if readOk then Value(t, c) else 0
  }

  function SeenVersion(t: SD.Table, c: Params, readOk: bool): nat {
    if readOk then Version(t, c) else 0
  }

  function NextValue(t: SD.Table, c: Params, readOk: bool): nat {
    (SeenValue(t, c, readOk) + 1) % Pow256(c.width)
  }

  /** One attempt that reads table t, in round r. */
  function Attempt(t: SD.Table, r: Round, c: Params): (SD.Table, SD.Status) {
    SD.Put(AfterOps(t, r.ops, |r.ops|), c.key, Encode(c.width, NextValue(t, c, r.readOk)), SeenVersion(t, c, r.readOk))
  }

  /**
   One pass of the retry loop with nobody in between: a read and a write by client i, which then
   has counted itself or given up; a mismatch, and so another pass, needs an interleaved writer.
   */
  method IncrementPass(store: SD.Store, c: Params, readOk: bool, ghost s: State, ghost i: nat)
      returns (status: SD.Status, newVal: nat)
    requires store.Valid() && ValidParams(c)
    requires i < |s.clients| && s.clients[i].Start? && s.table == store.table
    modifies store, store.buckets, store.entries
    ensures store.Valid()
    ensures var q := WriteStep(ReadStep(s, c, i, readOk), c, i);
            && store.table == q.table
            && q.clients[i] == if status == SD.Ok then Counted(newVal) else GaveUp
  {
    SD.MismatchIff(store.table, c.key, Encode(c.width, NextValue(store.table, c, readOk)),
                   SeenVersion(store.table, c, readOk));
    assert AfterOps(store.table, [], 0) == store.table;
    status, newVal := TryOnce(store, c, Round(readOk, []));
  }

  predicate Touches(ops: seq<SD.Op>, key: seq<byte>) {
    exists i :: 0 <= i < |ops| && ops[i].key == key
  }

  lemma {:induction false} UntouchedKept(t: SD.Table, ops: seq<SD.Op>, n: nat, key: seq<byte>)
    requires n <= |ops| && (forall i :: 0 <= i < |ops| ==> NulFree(ops[i].key) && ops[i].key != key)
    ensures SD.Lookup(AfterOps(t, ops, n), key) == SD.Lookup(t, key)
  {
    if n > 0 {
      UntouchedKept(t, ops, n - 1, key);
      SD.PutEffect(AfterOps(t, ops, n - 1), ops[n - 1], key);
    }
  }

  /** An attempt is refused only if its read went through and somebody wrote the counter after it. */
  lemma RefusedWasTouched(t: SD.Table, r: Round, c: Params)
    requires ValidParams(c) && (forall i :: 0 <= i < |r.ops| ==> NulFree(r.ops[i].key))
    ensures Attempt(t, r, c).1 == SD.CasMismatch ==> r.readOk && Touches(r.ops, c.key)
  {
    SD.MismatchIff(AfterOps(t, r.ops, |r.ops|), c.key, Encode(c.width, NextValue(t, c, r.readOk)),
                   SeenVersion(t, c, r.readOk));
    if !Touches(r.ops, c.key) {
      UntouchedKept(t, r.ops, |r.ops|, c.key);
    }
  }

  /** ts[a] is the table attempt a reads; every attempt before the last was refused. */
  ghost predicate Attempts(ts: seq<SD.Table>, rounds: seq<Round>, c: Params) {
    && |ts| > 0
    && forall a: nat :: a + 1 < |ts| ==> RefusedAt(ts, rounds, c, a)
  }

  ghost predicate RefusedAt(ts: seq<SD.Table>, rounds: seq<Round>, c: Params, a: nat) {
    && a + 1 < |ts| && Attempt(ts[a], RoundAt(rounds, a), c) == (ts[a + 1], SD.CasMismatch)
    && RoundAt(rounds, a).readOk && Touches(RoundAt(rounds, a).ops, c.key)
  }

  /** The last attempt leaves table t and answers status, having written newVal if it succeeded. */
  ghost predicate Ends(ts: seq<SD.Table>, rounds: seq<Round>, c: Params, t: SD.Table, status: SD.Status, newVal: nat) {
    |ts| > 0
    && var t0, r := ts[|ts| - 1], RoundAt(rounds, |ts| - 1);
       (t, status) == Attempt(t0, r, c) && newVal == NextValue(t0, c, r.readOk)
  }

  lemma StillRefused(ts: seq<SD.Table>, rounds: seq<Round>, c: Params, t: SD.Table, a: nat)
    requires RefusedAt(ts, rounds, c, a)
    ensures RefusedAt(ts + [t], rounds, c, a)
  {
    assert (ts + [t])[a] == ts[a] && (ts + [t])[a + 1] == ts[a + 1];
  }

  /** The last attempt, refused, had its read go through and the counter written after it. */
  lemma LastRefused(ts: seq<SD.Table>, rounds: seq<Round>, c: Params, t: SD.Table, newVal: nat)
    requires ValidParams(c) && RoundsOk(rounds) && Ends(ts, rounds, c, t, SD.CasMismatch, newVal)
    ensures RefusedAt(ts + [t], rounds, c, |ts| - 1) && |ts| <= |rounds|
  {
    RefusedWasTouched(ts[|ts| - 1], RoundAt(rounds, |ts| - 1), c);
    assert (ts + [t])[|ts| - 1] == ts[|ts| - 1];
  }

  lemma OneMore(ts: seq<SD.Table>, rounds: seq<Round>, c: Params, t: SD.Table, newVal: nat)
    requires ValidParams(c) && RoundsOk(rounds) && Attempts(ts, rounds, c)
    requires Ends(ts, rounds, c, t, SD.CasMismatch, newVal)
    ensures Attempts(ts + [t], rounds, c) && |ts| <= |rounds|
  {
    LastRefused(ts, rounds, c, t, newVal);
    forall a: nat | a + 1 < |ts + [t]|
      ensures RefusedAt(ts + [t], rounds, c, a)
    {
      if a + 1 < |ts| {
        StillRefused(ts, rounds, c, t, a);
      }
    }
  }

  /** s is v in this many octets, least significant first. */
  predicate HasOctets(s: seq<byte>, width: nat, v: nat) {
    |s| == width && forall k :: 0 <= k < width ==> s[k] == v / Pow256(k) % 256
  }

  lemma EncodeOctets(width: nat, v: nat)
    ensures HasOctets(Encode(width, v), width, v)
  {
    forall k | 0 <= k < width
      ensures Encode(width, v)[k] == v / Pow256(k) % 256
    {
      LEOctet(width, v, k);
    }
  }

  /** The number read from a present counter: its digits are the octets of the cell, as many as the client looks at. */
  lemma ReadOctets(t: SD.Table, c: Params)
    requires Present(t, c)
    ensures var value := SD.Lookup(t, c.key).value.value;
            var m := Min(|value|, c.width);
            HasOctets(value[..m], m, Value(t, c)) && Value(t, c) < Pow256(m)
  {
    var value := SD.Lookup(t, c.key).value.value;
    var m := Min(|value|, c.width);
    forall k | 0 <= k < m
      ensures value[..m][k] == Value(t, c) / Pow256(k) % 256
    {
      FromLEOctet(value[..m], k);
    }
    FromLESmall(value[..m]);
  }

  /** After a success the cell holds the new count, least significant octet first. */
  lemma CountedOctets(ts: seq<SD.Table>, rounds: seq<Round>, c: Params, t: SD.Table, status: SD.Status, newVal: nat)
    requires ValidParams(c) && Ends(ts, rounds, c, t, status, newVal) && status != SD.CasMismatch
    ensures status == SD.Ok && Present(t, c) && HasOctets(SD.Lookup(t, c.key).value.value, c.width, newVal)
  {
    var t0, r := ts[|ts| - 1], RoundAt(rounds, |ts| - 1);
    SD.PutRefinesMap(AfterOps(t0, r.ops, |r.ops|), c.key, Encode(c.width, newVal), SeenVersion(t0, c, r.readOk), c.key);
    EncodeOctets(c.width, newVal);
  }

  predicate RoundsOk(rounds: seq<Round>) {
    forall a, i :: 0 <= a < |rounds| && 0 <= i < |rounds[a].ops| ==> NulFree(rounds[a].ops[i].key)
  }

  /**
   The whole retry loop, against any failed reads and any writes of others between its reads and its
   writes: it ends with a success, after at most one attempt more than there are
   rounds in which somebody wrote the counter, and it writes one more than its last attempt read.
   */
  method Increment(store: SD.Store, c: Params, rounds: seq<Round>)
      returns (status: SD.Status, newVal: nat, ghost ts: seq<SD.Table>)
    requires store.Valid() && ValidParams(c) && RoundsOk(rounds)
    modifies store, store.buckets, store.entries
    ensures store.Valid() && fresh(store.entries - old(store.entries))
    ensures Attempts(ts, rounds, c) && ts[0] == old(store.table) && |ts| <= |rounds| + 1
    ensures status == SD.Ok && Ends(ts, rounds, c, store.table, status, newVal)
    ensures Present(store.table, c) && HasOctets(SD.Lookup(store.table, c.key).value.value, c.width, newVal)
  {
    var a := 0;
    ts := [store.table];
    status, newVal := TryLast(store, c, rounds, 0, ts);
    while status == SD.CasMismatch
      invariant store.Valid() && fresh(store.entries - old(store.entries))
      invariant a <= |rounds| && |ts| == a + 1 && Attempts(ts, rounds, c) && ts[0] == old(store.table)
      invariant Ends(ts, rounds, c, store.table, status, newVal)
      decreases |rounds| - a, status == SD.CasMismatch
    {
      OneMore(ts, rounds, c, store.table, newVal);
      ts := ts + [store.table];
      a := a + 1;
      status, newVal := TryLast(store, c, rounds, a, ts);
    }
    CountedOctets(ts, rounds, c, store.table, status, newVal);
  }

  /** Attempt a, whose read meets the last table of ts. */
  method TryLast(store: SD.Store, c: Params, rounds: seq<Round>, a: nat, ghost ts: seq<SD.Table>)
      returns (status: SD.Status, newVal: nat)
    requires store.Valid() && ValidParams(c) && |ts| == a + 1 && ts[a] == store.table
    modifies store, store.buckets, store.entries
    ensures store.Valid() && fresh(store.entries - old(store.entries))
    ensures Ends(ts, rounds, c, store.table, status, newVal)
  {
    status, newVal := TryOnce(store, c, RoundAt(rounds, a));
  }

  /** Read, let the others write, write. */
  method TryOnce(store: SD.Store, c: Params, r: Round) returns (status: SD.Status, newVal: nat)
    requires store.Valid() && ValidParams(c)
    modifies store, store.buckets, store.entries
    ensures store.Valid() && fresh(store.entries - old(store.entries))
    ensures (store.table, status) == Attempt(old(store.table), r, c)
    ensures newVal == NextValue(old(store.table), c, r.readOk)
  {
    var current, cas := ReadCounter(store, c, r.readOk);
    newVal := (current + 1) % Pow256(c.width);
    OthersWrite(store, r.ops);
    status := store.Set(c.key, LE(c.width, newVal), cas);
  }

  /** What the client makes of a read: a failed one, like a missing value, gives zero and no version. */
  method ReadCounter(store: SD.Store, c: Params, readOk: bool) returns (current: nat, cas: nat)
    requires store.Valid()
    ensures current == SeenValue(store.table, c, readOk) && cas == SeenVersion(store.table, c, readOk)
  {
    current, cas := 0, 0;
    if readOk {
      var cell := store.Get(c.key);
      if cell.Some? {
        current, cas := FromLE(cell.value.value[..Min(|cell.value.value|, c.width)]), cell.value.version;
      }
    }
  }

  method OthersWrite(store: SD.Store, ops: seq<SD.Op>)
    requires store.Valid()
    modifies store, store.buckets, store.entries
    ensures store.Valid() && fresh(store.entries - old(store.entries))
    ensures store.table == AfterOps(old(store.table), ops, |ops|)
  {
    for i := 0 to |ops|
      invariant store.Valid() && fresh(store.entries - old(store.entries))
      invariant store.table == AfterOps(old(store.table), ops, i)
    {
      var _ := store.Set(ops[i].key, ops[i].value, ops[i].cas);
    }
  }
}
