/**
 The named FIFO queues of src/proxy_wasm_shared.c: a list of queues, newest first, each a singly
 linked list of messages with head, tail and depth.  `Board` is the value of the structure; the
 classes at the end are the links.
 */
module SharedQueues {
  import opened Bytes

  const MAX_NAME: nat := 256
  const MAX_MSG: nat := 65536
  const MAX_DEPTH: nat := 1024
  const MAX_COUNT: nat := 64

  datatype Queue = Queue(name: seq<byte>, id: nat, messages: seq<seq<byte>>)
  datatype Board = Board(queues: seq<Queue>, nextId: nat)

  const EMPTY := Board([], 1)

  /** The position of the first queue whose name, up to its first NUL, is the name asked for; |qs| if none. */
  function FindName(qs: seq<Queue>, name: seq<byte>): (i: nat)
    ensures i <= |qs|
    ensures i < |qs| ==> CStr(qs[i].name) == name
    ensures forall j :: 0 <= j < i ==> CStr(qs[j].name) != name
  {
    FirstWhere(qs, (q: Queue) => |CStr(q.name)| == |name| && q.name[..|name|] == name, 0)
  }

  function FindId(qs: seq<Queue>, id: nat): (i: nat)
    ensures i <= |qs|
    ensures i < |qs| ==> qs[i].id == id
    ensures forall j :: 0 <= j < i ==> qs[j].id != id
  {
    FirstWhere(qs, (q: Queue) => q.id == id, 0)
  }

  function Resolve(b: Board, name: seq<byte>): nat {
    var i := FindName(b.queues, name);
    if name == [] || i == |b.queues| then 0 else b.queues[i].id
  }

  function Register(b: Board, name: seq<byte>): (r: (Board, nat)) {
    if name == [] || |name| > MAX_NAME then (b, 0)
    else
      var i := FindName(b.queues, name);
      if i < |b.queues| then (b, b.queues[i].id)
      else if b.nextId > MAX_COUNT then (b, 0)
      else (Board([Queue(name, b.nextId, [])] + b.queues, b.nextId + 1), b.nextId)
  }

  function Enqueue(b: Board, id: nat, data: seq<byte>): (r: (Board, bool)) {
    if id == 0 || |data| > MAX_MSG then (b, false)
    else
      var i := FindId(b.queues, id);
      if i == |b.queues| || |b.queues[i].messages| >= MAX_DEPTH then (b, false)
      else (b.(queues := b.queues[i := b.queues[i].(messages := b.queues[i].messages + [data])]), true)
  }

  function Dequeue(b: Board, id: nat): (r: (Board, Option<seq<byte>>)) {
    if id == 0 then (b, None)
    else
      var i := FindId(b.queues, id);
      if i == |b.queues| || b.queues[i].messages == [] then (b, None)
      else (b.(queues := b.queues[i := b.queues[i].(messages := b.queues[i].messages[1..])]),
            Some(b.queues[i].messages[0]))
  }

  function Messages(b: Board, id: nat): seq<seq<byte>> {
    var i := FindId(b.queues, id);
    if i == |b.queues| then [] else b.queues[i].messages
  }

  // ---------------------------------------------------------------- every history of calls

  datatype Op = Reg(name: seq<byte>) | Enq(id: nat, data: seq<byte>) | Deq(id: nat)
  datatype Reply = Id(id: nat) | Sent(ok: bool) | Got(msg: Option<seq<byte>>)

  function Apply(b: Board, op: Op): (Board, Reply) {
    match op
    case Reg(name) => var r := Register(b, name); (r.0, Id(r.1))
    case Enq(id, data) => var r := Enqueue(b, id, data); (r.0, Sent(r.1))
    case Deq(id) => var r := Dequeue(b, id); (r.0, Got(r.1))
  }

  ghost predicate StepAt(bs: seq<Board>, log: seq<Reply>, ops: seq<Op>, n: nat) {
    n + 1 < |bs| && n < |log| && n < |ops| && (bs[n + 1], log[n]) == Apply(bs[n], ops[n])
  }

  /** bs[n] is a new board after the first n calls of ops, log[n] the answer to call n. */
  ghost predicate IsRun(bs: seq<Board>, log: seq<Reply>, ops: seq<Op>) {
    |bs| == |ops| + 1 && |log| == |ops| && bs[0] == EMPTY && forall n: nat :: n < |ops| ==> StepAt(bs, log, ops, n)
  }

  /** What one call put into, or took out of, queue id. */
  function SentBy(id: nat, op: Op, reply: Reply): seq<seq<byte>> {
    if op.Enq? && op.id == id && reply == Sent(true) then [op.data] else []
  }

  function TakenBy(id: nat, op: Op, reply: Reply): seq<seq<byte>> {
    if op.Deq? && op.id == id && reply.Got? && reply.msg.Some? then [reply.msg.value] else []
  }

  /** The messages successfully sent to, and taken from, queue id by the first n calls, in order. */
  function SentTo(id: nat, log: seq<Reply>, ops: seq<Op>, n: nat): seq<seq<byte>>
    requires n <= |ops| == |log|
  {
    if n == 0 then [] else SentTo(id, log, ops, n - 1) + SentBy(id, ops[n - 1], log[n - 1])
  }

  function TakenFrom(id: nat, log: seq<Reply>, ops: seq<Op>, n: nat): seq<seq<byte>>
    requires n <= |ops| == |log|
  {
    if n == 0 then [] else TakenFrom(id, log, ops, n - 1) + TakenBy(id, ops[n - 1], log[n - 1])
  }

  /** Newest first, numbered downwards from nextId - 1 to 1; no queue over its depth. */
  ghost predicate BoardInv(b: Board) {
    && 1 <= b.nextId <= MAX_COUNT + 1
    && |b.queues| == b.nextId - 1
    && (forall i :: 0 <= i < |b.queues| ==> b.queues[i].id == b.nextId - 1 - i)
    && (forall i :: 0 <= i < |b.queues| ==> |b.queues[i].messages| <= MAX_DEPTH)
  }

  lemma FindIdIs(b: Board, id: nat)
    requires BoardInv(b)
    ensures FindId(b.queues, id) == if 1 <= id < b.nextId then b.nextId - 1 - id else |b.queues|
  {
    var i := FindId(b.queues, id);
    if 1 <= id < b.nextId {
      assert b.queues[b.nextId - 1 - id].id == id;
    }
  }

  lemma ApplyInv(b: Board, op: Op)
    requires BoardInv(b)
    ensures BoardInv(Apply(b, op).0)
  {
  }

  lemma EnqueueMessages(b: Board, to: nat, data: seq<byte>, id: nat)
    requires BoardInv(b)
    ensures var w := Enqueue(b, to, data);
            Messages(w.0, id) == Messages(b, id) + if id == to && w.1 then [data] else []
  {
    var w := Enqueue(b, to, data);
    assert BoardInv(w.0);
    FindIdIs(b, id);
    FindIdIs(w.0, id);
    FindIdIs(b, to);
  }

  lemma DequeueMessages(b: Board, from: nat, id: nat)
    requires BoardInv(b)
    ensures var w := Dequeue(b, from);
            (if id == from && w.1.Some? then [w.1.value] else []) + Messages(w.0, id) == Messages(b, id)
  {
    var w := Dequeue(b, from);
    assert BoardInv(w.0);
    FindIdIs(b, id);
    FindIdIs(w.0, id);
    FindIdIs(b, from);
  }

  lemma RegisterMessages(b: Board, name: seq<byte>, id: nat)
    requires BoardInv(b)
    ensures Messages(Register(b, name).0, id) == Messages(b, id)
  {
    var w := Register(b, name);
    assert BoardInv(w.0);
    FindIdIs(b, id);
    FindIdIs(w.0, id);
  }

  /** One call changes a queue only by appending what it sent or dropping the head it returned. */
  lemma ApplyMessages(b: Board, op: Op, id: nat)
    requires BoardInv(b)
    ensures var w := Apply(b, op);
            TakenBy(id, op, w.1) + Messages(w.0, id) == Messages(b, id) + SentBy(id, op, w.1)
  {
    match op
    case Reg(name) => RegisterMessages(b, name, id);
    case Enq(to, data) => EnqueueMessages(b, to, data, id);
    case Deq(from) => DequeueMessages(b, from, id);
  }

  lemma {:induction false} RunInv(bs: seq<Board>, log: seq<Reply>, ops: seq<Op>, n: nat)
    requires IsRun(bs, log, ops) && n <= |ops|
    ensures BoardInv(bs[n])
  {
    if n > 0 {
      RunInv(bs, log, ops, n - 1);
      assert StepAt(bs, log, ops, n - 1);
      ApplyInv(bs[n - 1], ops[n - 1]);
    }
  }

  /** A move from the waiting to the taken messages, or an arrival, keeps taken + waiting == sent. */
  lemma Carry(taken: seq<seq<byte>>, was: seq<seq<byte>>, out: seq<seq<byte>>,
              waiting: seq<seq<byte>>, arrived: seq<seq<byte>>)
    requires out + waiting == was + arrived
    ensures taken + out + waiting == taken + was + arrived
  {
    assert taken + out + waiting == taken + (out + waiting);
    assert taken + was + arrived == taken + (was + arrived);
  }

  /** Messages taken, followed by those still waiting, are the messages sent, in order. */
  lemma {:induction false} FifoConservation(bs: seq<Board>, log: seq<Reply>, ops: seq<Op>, n: nat, id: nat)
    requires IsRun(bs, log, ops) && n <= |ops|
    ensures TakenFrom(id, log, ops, n) + Messages(bs[n], id) == SentTo(id, log, ops, n)
    ensures |Messages(bs[n], id)| <= MAX_DEPTH
  {
    RunInv(bs, log, ops, n);
    if n > 0 {
      var op, reply := ops[n - 1], log[n - 1];
      FifoConservation(bs, log, ops, n - 1, id);
      RunInv(bs, log, ops, n - 1);
      assert StepAt(bs, log, ops, n - 1);
      ApplyMessages(bs[n - 1], op, id);
      Carry(TakenFrom(id, log, ops, n - 1), Messages(bs[n - 1], id), TakenBy(id, op, reply),
            Messages(bs[n], id), SentBy(id, op, reply));
    }
  }

  // ---------------------------------------------------------------- names and ids

  /** Different names never resolve to the same queue. */
  lemma NamesInjective(b: Board, x: seq<byte>, y: seq<byte>)
    requires BoardInv(b) && Resolve(b, x) != 0 && Resolve(b, x) == Resolve(b, y)
    ensures x == y
  {
    var i, j := FindName(b.queues, x), FindName(b.queues, y);
    assert b.queues[i].id == b.queues[j].id;
  }

  lemma FindNameUnique(qs: seq<Queue>, name: seq<byte>, i: nat)
    requires i <= |qs| && (i < |qs| ==> CStr(qs[i].name) == name)
    requires forall j :: 0 <= j < i ==> CStr(qs[j].name) != name
    ensures FindName(qs, name) == i
  {
  }

  lemma FindNameInFront(q: Queue, qs: seq<Queue>, name: seq<byte>)
    ensures FindName([q] + qs, name) == if name == CStr(q.name) then 0 else FindName(qs, name) + 1
  {
    FindNameUnique([q] + qs, name, if name == CStr(q.name) then 0 else FindName(qs, name) + 1);
  }

  /** A registered name resolves to the id it was given exactly when it holds no NUL. */
  lemma RegisteredResolvesIff(b: Board, name: seq<byte>)
    requires BoardInv(b) && Register(b, name).1 != 0
    ensures Resolve(Register(b, name).0, name) == Register(b, name).1 <==> NulFree(name)
  {
    var (b', id) := Register(b, name);
    NulFreeIsOwnCStr(name);
    var i := FindName(b.queues, name);
    if i == |b.queues| {
      FindNameUnique(b'.queues, name, if NulFree(name) then 0 else |b'.queues|);
    }
  }

  /** Every resolution in force survives the registration of `name`. */
  ghost predicate KeepsResolutions(b: Board, name: seq<byte>) {
    forall x: seq<byte> :: Resolve(b, x) != 0 ==> Resolve(Register(b, name).0, x) == Resolve(b, x)
  }

  /** A new queue is found under its C-string name; every other name resolves as before. */
  lemma NewQueueResolves(b: Board, name: seq<byte>, x: seq<byte>)
    requires BoardInv(b) && Register(b, name).0 != b
    ensures Resolve(Register(b, name).0, x) == if x != [] && x == CStr(name) then b.nextId else Resolve(b, x)
  {
    FindNameInFront(Queue(name, b.nextId, []), b.queues, x);
  }

  /**
   Ids are permanent, except that registering a name with an embedded NUL (one the table accepts)
   hides the queue known under the part before the NUL, if there is one.
   */
  lemma PermanentIff(b: Board, name: seq<byte>)
    requires BoardInv(b)
    ensures KeepsResolutions(b, name) <==>
              NulFree(name) || |name| > MAX_NAME || b.nextId > MAX_COUNT || Resolve(b, CStr(name)) == 0
  {
    var b', cut := Register(b, name).0, CStr(name);
    NulFreeIsOwnCStr(name);
    if b' != b {
      forall x: seq<byte>
        ensures Resolve(b', x) == if x != [] && x == cut then b.nextId else Resolve(b, x)
      {
        NewQueueResolves(b, name, x);
      }
      assert Resolve(b, cut) != 0 ==> Resolve(b', cut) != Resolve(b, cut);
    }
  }

  /** A registration that makes a new queue known under x, hiding the one x resolved to. */
  predicate Hides(b: Board, op: Op, x: seq<byte>) {
    op.Reg? && !NulFree(op.name) && |op.name| <= MAX_NAME && b.nextId <= MAX_COUNT && CStr(op.name) == x
  }

  /** Names and ids, without the messages. */
  predicate SameNames(b: Board, b': Board) {
    && |b.queues| == |b'.queues|
    && forall i :: 0 <= i < |b.queues| ==> b'.queues[i].name == b.queues[i].name && b'.queues[i].id == b.queues[i].id
  }

  lemma SameNamesResolve(b: Board, b': Board, x: seq<byte>)
    requires SameNames(b, b')
    ensures Resolve(b', x) == Resolve(b, x)
  {
    FindNameUnique(b'.queues, x, FindName(b.queues, x));
  }

  /** One call gives x its old id or, exactly when it hides it, a new and larger one. */
  lemma ApplyResolves(b: Board, op: Op, x: seq<byte>)
    requires BoardInv(b) && Resolve(b, x) != 0
    ensures var b' := Apply(b, op).0;
            && b.nextId <= b'.nextId && Resolve(b, x) < b.nextId
            && Resolve(b', x) == if Hides(b, op, x) then b.nextId else Resolve(b, x)
  {
    var b' := Apply(b, op).0;
    if op.Reg? && b' != b {
      NewQueueResolves(b, op.name, x);
      NulFreeIsOwnCStr(op.name);
    } else if !op.Reg? {
      assert SameNames(b, b');
      SameNamesResolve(b, b', x);
    } else {
      NulFreeIsOwnCStr(op.name);
    }
  }

  /** No call from n up to m hides x. */
  predicate NeverHidden(bs: seq<Board>, ops: seq<Op>, n: nat, m: nat, x: seq<byte>)
    requires m <= |ops| && m <= |bs|
  {
    forall k :: n <= k < m ==> !Hides(bs[k], ops[k], x)
  }

  /**
   Over every history: what a name resolves to at one moment it resolves to at every later one,
   exactly until a name with an embedded NUL hides it; then its id has grown for good.
   */
  lemma {:induction false} RunPermanentIff(bs: seq<Board>, log: seq<Reply>, ops: seq<Op>, n: nat, m: nat, x: seq<byte>)
    requires IsRun(bs, log, ops) && n <= m <= |ops| && Resolve(bs[n], x) != 0
    ensures Resolve(bs[m], x) >= Resolve(bs[n], x)
    ensures Resolve(bs[m], x) == Resolve(bs[n], x) <==> NeverHidden(bs, ops, n, m, x)
  {
    if n < m {
      RunPermanentIff(bs, log, ops, n, m - 1, x);
      StepResolves(bs, log, ops, m - 1, x);
    }
  }

  lemma StepResolves(bs: seq<Board>, log: seq<Reply>, ops: seq<Op>, k: nat, x: seq<byte>)
    requires IsRun(bs, log, ops) && k < |ops| && Resolve(bs[k], x) != 0
    ensures if Hides(bs[k], ops[k], x) then Resolve(bs[k + 1], x) > Resolve(bs[k], x)
            else Resolve(bs[k + 1], x) == Resolve(bs[k], x)
  {
    RunInv(bs, log, ops, k);
    assert StepAt(bs, log, ops, k);
    ApplyResolves(bs[k], ops[k], x);
  }

  // ---------------------------------------------------------------- the answers, from the earlier answers alone

  /** The id call k was answered with, 0 for none. */
  function IdGiven(log: seq<Reply>, ops: seq<Op>, k: nat): nat
    requires k < |ops| == |log|
  {
    if ops[k].Reg? && log[k].Id? then log[k].id else 0
  }

  /** The largest id the first n calls were answered with. */
  function LargestId(log: seq<Reply>, ops: seq<Op>, n: nat): nat
    requires n <= |ops| == |log|
  {
    if n == 0 then 0
    else if IdGiven(log, ops, n - 1) > LargestId(log, ops, n - 1) then IdGiven(log, ops, n - 1)
    else LargestId(log, ops, n - 1)
  }

  /** What the latest of the first n calls to register a name that reads as x was answered, if not 0. */
  function LatestId(log: seq<Reply>, ops: seq<Op>, n: nat, x: seq<byte>): nat
    requires n <= |ops| == |log|
  {
    if n == 0 then 0
    else if IdGiven(log, ops, n - 1) != 0 && CStr(ops[n - 1].name) == x then IdGiven(log, ops, n - 1)
    else LatestId(log, ops, n - 1, x)
  }

  lemma RegisterSteps(b: Board, name: seq<byte>)
    requires BoardInv(b)
    ensures var w := Register(b, name);
            && w.1 <= b.nextId && w.0.nextId == (if w.1 == b.nextId then b.nextId + 1 else b.nextId)
  {
    var i := FindName(b.queues, name);
    assert i < |b.queues| ==> b.queues[i].id == b.nextId - 1 - i;
  }

  /** Ids are handed out consecutively from 1. */
  lemma {:induction false} IdsConsecutive(bs: seq<Board>, log: seq<Reply>, ops: seq<Op>, n: nat)
    requires IsRun(bs, log, ops) && n <= |ops|
    ensures bs[n].nextId == LargestId(log, ops, n) + 1
  {
    if n > 0 {
      IdsConsecutive(bs, log, ops, n - 1);
      RunInv(bs, log, ops, n - 1);
      assert StepAt(bs, log, ops, n - 1);
      if ops[n - 1].Reg? {
        RegisterSteps(bs[n - 1], ops[n - 1].name);
      }
    }
  }

  lemma ApplyLatest(b: Board, op: Op, x: seq<byte>)
    requires BoardInv(b) && x != []
    ensures var w := Apply(b, op);
            Resolve(w.0, x) == if op.Reg? && w.1.id != 0 && CStr(op.name) == x then w.1.id else Resolve(b, x)
  {
    var w := Apply(b, op);
    if op.Reg? {
      NulFreeIsOwnCStr(op.name);
      if w.0 != b {
        NewQueueResolves(b, op.name, x);
      }
    } else {
      assert SameNames(b, w.0);
      SameNamesResolve(b, w.0, x);
    }
  }

  /** After every history a name resolves to the id that the latest registration read as that name got. */
  lemma {:induction false} ResolvesLatest(bs: seq<Board>, log: seq<Reply>, ops: seq<Op>, n: nat, x: seq<byte>)
    requires IsRun(bs, log, ops) && n <= |ops| && x != []
    ensures Resolve(bs[n], x) == LatestId(log, ops, n, x)
  {
    if n > 0 {
      ResolvesLatest(bs, log, ops, n - 1, x);
      RunInv(bs, log, ops, n - 1);
      assert StepAt(bs, log, ops, n - 1);
      ApplyLatest(bs[n - 1], ops[n - 1], x);
    } else {
      FindNameUnique([], x, 0);
    }
  }

  /**
   In every history a registration is refused exactly when the name is empty, longer than 256 bytes, or
   new after 64 ids; otherwise it gets the id of the latest registration read as that name, or the next one.
   */
  lemma RegisterAnswers(bs: seq<Board>, log: seq<Reply>, ops: seq<Op>, n: nat)
    requires IsRun(bs, log, ops) && n < |ops| && ops[n].Reg?
    ensures var name := ops[n].name;
            var known, largest := LatestId(log, ops, n, name), LargestId(log, ops, n);
            log[n] == Id(if !(1 <= |name| <= 256) then 0
                         else if known != 0 then known
                         else if largest < 64 then largest + 1
                         else 0)
  {
    var name := ops[n].name;
    assert StepAt(bs, log, ops, n);
    RunInv(bs, log, ops, n);
    IdsConsecutive(bs, log, ops, n);
    if name != [] {
      ResolvesLatest(bs, log, ops, n, name);
    }
  }

  /** In every history a send succeeds exactly when the id was handed out, the message fits and fewer than 1024 wait. */
  lemma SendAnswers(bs: seq<Board>, log: seq<Reply>, ops: seq<Op>, n: nat)
    requires IsRun(bs, log, ops) && n < |ops| && ops[n].Enq?
    ensures var id := ops[n].id;
            log[n] == Sent(&& 1 <= id <= LargestId(log, ops, n) && |ops[n].data| <= 65536
                           && |SentTo(id, log, ops, n)| - |TakenFrom(id, log, ops, n)| < 1024)
  {
    var id := ops[n].id;
    assert StepAt(bs, log, ops, n);
    RunInv(bs, log, ops, n);
    IdsConsecutive(bs, log, ops, n);
    FindIdIs(bs[n], id);
    FifoConservation(bs, log, ops, n, id);
  }

  /** In every history a take returns the first message sent and not yet taken, and nothing iff there is none. */
  lemma TakeAnswers(bs: seq<Board>, log: seq<Reply>, ops: seq<Op>, n: nat)
    requires IsRun(bs, log, ops) && n < |ops| && ops[n].Deq?
    ensures var sent, taken := SentTo(ops[n].id, log, ops, n), TakenFrom(ops[n].id, log, ops, n);
            log[n] == Got(if |taken| < |sent| then Some(sent[|taken|]) else None)
  {
    var id := ops[n].id;
    assert StepAt(bs, log, ops, n);
    RunInv(bs, log, ops, n);
    FindIdIs(bs[n], id);
    FifoConservation(bs, log, ops, n, id);
  }

  /** Registering "a\0b" right after "a" takes "a" away from its first queue. */
  lemma HiddenName(bs: seq<Board>, log: seq<Reply>)
    requires IsRun(bs, log, [Reg([97]), Reg([97, 0, 98])])
    ensures Resolve(bs[1], [97]) == 1 && Resolve(bs[2], [97]) == 2
  {
    var ops := [Reg([97]), Reg([97, 0, 98])];
    assert StepAt(bs, log, ops, 0) && StepAt(bs, log, ops, 1);
    assert bs[1].queues == [Queue([97], 1, [])];
    NulFreeIsOwnCStr([97]);
    assert Hides(bs[1], ops[1], [97]);
    RunInv(bs, log, ops, 1);
    ApplyResolves(bs[1], ops[1], [97]);
  }

  // ---------------------------------------------------------------- the linked structure

  class Msg {
    const data: seq<byte>
    var next: Msg?
    ghost const home: nat      // the id of the queue it was made for

    constructor (data: seq<byte>, ghost home: nat)
      ensures this.data == data && next == null && this.home == home
    {
      this.data, next, this.home := data, null, home;
    }
  }

  /**
   One queue; spine is the list of its messages as objects, from head to tail. The link to the
   queue made before it is set once, when the queue goes on the list.
   */
  class QueueObject {
    const name: seq<byte>
    const id: nat
    const next: QueueObject?
    var head: Msg?
    var tail: Msg?
    var depth: nat
    ghost var spine: seq<Msg>
    ghost var messages: seq<seq<byte>>

    constructor (name: seq<byte>, id: nat, next: QueueObject?)
      ensures Valid() && spine == [] && messages == []
      ensures this.name == name && this.id == id && this.next == next
    {
      this.name, this.id, this.next := name, id, next;
      head, tail, depth, spine, messages := null, null, 0, [], [];
    }

    ghost predicate Valid()
      reads this, spine
    {
      && depth == |spine| == |messages|
      && (spine == [] ==> head == null && tail == null)
      && (spine != [] ==> head == spine[0] && tail == spine[|spine| - 1] && tail.next == null)
      && (forall i :: 0 <= i < |spine| - 1 ==> spine[i].next == spine[i + 1])
      && (forall i :: 0 <= i < |spine| ==> spine[i].data == messages[i] && spine[i].home == id)
      && (forall i, j :: 0 <= i < j < |spine| ==> spine[i] != spine[j])
    }

    ghost function ToQueue(): Queue
      reads this
    {
      Queue(name, id, messages)
    }

    method Append(msg: Msg)
      requires Valid() && msg !in spine && msg.next == null && msg.home == id
      modifies this`head, this`tail, this`depth, this`spine, this`messages, tail
      ensures Valid() && spine == old(spine) + [msg] && messages == old(messages) + [msg.data]
    {
      if tail != null {
        tail.next := msg;
      } else {
        head := msg;
      }
      tail := msg;
      depth := depth + 1;
      spine := spine + [msg];
      messages := messages + [msg.data];
    }

    method Pop() returns (data: seq<byte>)
      requires Valid() && spine != []
      modifies this
      ensures Valid() && spine == old(spine)[1..]
      ensures data == old(messages)[0] && messages == old(messages)[1..]
    {
      var msg := head;
      head := msg.next;
      if head == null {
        tail := null;
      }
      depth := depth - 1;
      spine := spine[1..];
      messages := messages[1..];
      data := msg.data;
    }
  }

  /** Following the links from q visits exactly qs. */
  ghost predicate Linked(q: QueueObject?, qs: seq<QueueObject>) {
    if qs == [] then q == null else q == qs[0] && Linked(qs[0].next, qs[1..])
  }

  lemma LinkNext(q: QueueObject, qs: seq<QueueObject>, i: nat)
    requires i <= |qs| && Linked(q, qs[i..])
    ensures i < |qs| && q == qs[i] && Linked(q.next, qs[i + 1..])
  {
    assert qs[i..][1..] == qs[i + 1..];
  }

  /** The list of queues from its head, newest first; queues is that list as objects. */
  class QueueStore {
    var first: QueueObject?
    var nextId: nat
    ghost var queues: seq<QueueObject>
    ghost var board: Board
    ghost var owned: set<object>

    ghost predicate Valid()
      reads this, owned
    {
      && Linked(first, queues)
      && nextId == board.nextId && |queues| == |board.queues|
      && this !in owned
      && (forall i :: 0 <= i < |queues| ==> queues[i] in owned)
      && (forall i, k :: 0 <= i < |queues| && 0 <= k < |queues[i].spine| ==> queues[i].spine[k] in owned)
      && (forall i :: 0 <= i < |queues| ==> queues[i].Valid() && board.queues[i] == queues[i].ToQueue())
      && (forall i :: 0 <= i < |queues| ==> queues[i].id == nextId - 1 - i)
    }

    constructor ()
      ensures Valid() && board == EMPTY && owned == {}
    {
      first, nextId, queues, board, owned := null, 1, [], EMPTY, {};
    }

    /** The list walk shared by register and resolve. */
    method SearchName(name: seq<byte>) returns (q: QueueObject?, ghost i: nat)
      requires Valid()
      ensures i == FindName(board.queues, name)
      ensures if i == |queues| then q == null else q == queues[i]
    {
      q, i := first, 0;
      while q != null
        invariant i <= |queues| && Linked(q, queues[i..])
        invariant forall j :: 0 <= j < i ==> CStr(board.queues[j].name) != name
        decreases |queues| - i
      {
        LinkNext(q, queues, i);
        if |CStr(q.name)| == |name| && q.name[..|name|] == name {
          break;
        }
        q, i := q.next, i + 1;
      }
      FindNameUnique(board.queues, name, i);
    }

    method SearchId(id: nat) returns (q: QueueObject?, ghost i: nat)
      requires Valid()
      ensures i == FindId(board.queues, id)
      ensures if i == |queues| then q == null else q == queues[i]
    {
      q, i := first, 0;
      while q != null
        invariant i <= |queues| && Linked(q, queues[i..])
        invariant forall j :: 0 <= j < i ==> board.queues[j].id != id
        decreases |queues| - i
      {
        LinkNext(q, queues, i);
        if q.id == id {
          break;
        }
        q, i := q.next, i + 1;
      }
    }

    method RegisterQueue(name: seq<byte>) returns (id: nat)
      requires Valid()
      modifies this
      ensures Valid() && fresh(owned - old(owned))
      ensures board == Register(old(board), name).0 && id == Register(old(board), name).1
    {
      if |name| == 0 || |name| > MAX_NAME {
        return 0;
      }
      var q, i := SearchName(name);
      if q != null {
        return q.id;
      }
      if nextId > MAX_COUNT {
        return 0;
      }
      id := nextId;
      Prepend(name);
    }

    method Prepend(name: seq<byte>)
      requires Valid()
      modifies this
      ensures Valid() && fresh(owned - old(owned))
      ensures board == Board([Queue(name, old(nextId), [])] + old(board).queues, old(nextId) + 1)
    {
      var q := new QueueObject(name, nextId, first);
      first := q;
      queues := [q] + queues;
      nextId := nextId + 1;
      board := Board([q.ToQueue()] + board.queues, board.nextId + 1);
      owned := owned + {q};
      assert queues[1..] == old(queues);
      forall i | 1 <= i < |queues|
        ensures queues[i].Valid() && board.queues[i] == queues[i].ToQueue()
      {
        assert queues[i] == old(queues)[i - 1];
      }
    }

    method ResolveQueue(name: seq<byte>) returns (id: nat)
      requires Valid()
      ensures id == Resolve(board, name)
    {
      if |name| == 0 {
        return 0;
      }
      var q, i := SearchName(name);
      return if q != null then q.id else 0;
    }

    method EnqueueMessage(id: nat, data: seq<byte>) returns (ok: bool)
      requires Valid()
      modifies this, owned
      ensures Valid() && fresh(owned - old(owned))
      ensures board == Enqueue(old(board), id, data).0 && ok == Enqueue(old(board), id, data).1
    {
      if id == 0 || |data| > MAX_MSG {
        return false;
      }
      var q, i := SearchId(id);
      if q == null || q.depth >= MAX_DEPTH {
        return false;
      }
      AppendTo(q, i, data);
      return true;
    }

    method AppendTo(q: QueueObject, ghost i: nat, data: seq<byte>)
      requires Valid() && i < |queues| && q == queues[i]
      modifies this`board, this`owned, owned
      ensures Valid() && fresh(owned - old(owned))
      ensures board == old(board).(queues := old(board).queues[i :=
                         old(board).queues[i].(messages := old(board).queues[i].messages + [data])])
    {
      var msg := LinkNew(q, i, data);
      owned := owned + {msg};
      board := board.(queues := board.queues[i := q.ToQueue()]);
    }

    /** The pointer work: only queue i and its former tail change. */
    method LinkNew(q: QueueObject, ghost i: nat, data: seq<byte>) returns (msg: Msg)
      requires Valid() && i < |queues| && q == queues[i]
      modifies owned
      ensures fresh(msg) && queues[i].Valid()
      ensures queues[i].spine == old(queues[i].spine) + [msg]
      ensures queues[i].messages == old(queues[i].messages) + [data]
      ensures forall j :: 0 <= j < |queues| && j != i ==>
                && queues[j].Valid() && queues[j].spine == old(queues[j].spine)
                && queues[j].messages == old(queues[j].messages)
    {
      msg := new Msg(data, q.id);
      assert q.tail == null || (q.tail in owned && q.tail.home == q.id);
      q.Append(msg);
      forall j | 0 <= j < |queues| && j != i
        ensures queues[j].Valid() && queues[j].spine == old(queues[j].spine)
        ensures queues[j].messages == old(queues[j].messages)
      {
        assert old(queues[j].Valid()) && queues[j].id != q.id;
      }
    }

    method DequeueMessage(id: nat) returns (r: Option<seq<byte>>)
      requires Valid()
      modifies this, owned
      ensures Valid() && owned == old(owned)
      ensures board == Dequeue(old(board), id).0 && r == Dequeue(old(board), id).1
    {
      if id == 0 {
        return None;
      }
      var q, i := SearchId(id);
      if q == null || q.head == null {
        return None;
      }
      var data := PopFrom(q, i);
      return Some(data);
    }

    method PopFrom(q: QueueObject, ghost i: nat) returns (data: seq<byte>)
      requires Valid() && i < |queues| && q == queues[i] && q.spine != []
      modifies this`board, owned
      ensures Valid()
      ensures data == old(board).queues[i].messages[0]
      ensures board == old(board).(queues := old(board).queues[i :=
                         old(board).queues[i].(messages := old(board).queues[i].messages[1..])])
    {
      data := q.Pop();
      board := board.(queues := board.queues[i := q.ToQueue()]);
    }
  }
}
