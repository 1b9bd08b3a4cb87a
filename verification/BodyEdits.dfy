/**
 Body rewrites (src/proxy_wasm.c) and their delivery (src/vdp_wasm.c): the guest reads and rewrites
 the current chunk through host calls, and the delivery filter forwards what is left of it.
 */
module BodyEdits {
  import opened Bytes
  import HeaderCodec

  // ---------------------------------------------------------------- splices

  /**
   Replace `size` bytes from `start` on, both clamped to the buffer, by `value`; memory: the new
   buffer can be allocated.
   */
  datatype Edit = Edit(start: nat, size: nat, value: seq<byte>, memory: bool)

  function Splice(base: seq<byte>, e: Edit): seq<byte> {
    var from := Min(e.start, |base|);
    var to := Min(e.start + e.size, |base|);
    base[..from] + e.value + base[to..]
  }

  /** The rewrite succeeds: the new length is representable and there is memory for it. */
  predicate Possible(base: seq<byte>, e: Edit) {
    |Splice(base, e)| <= SIZE_MAX && (e.memory || Splice(base, e) == [])
  }

  /** The buffer after a rewrite; one that fails leaves it alone. */
  function Rewritten(base: seq<byte>, e: Edit): seq<byte> {
    if Possible(base, e) then Splice(base, e) else base
  }

  /** What a guest may do with the buffer in a callback. */
  datatype HostCall = SetBytes(edit: Edit) | GetBytes(start: nat, max: nat) | GetStatus

  datatype Status = Ok | InternalFailure

  datatype Answer = Done(status: Status) | Data(bytes: seq<byte>) | Length(n: nat)

  /** The buffer after the first n calls, the rewrites among them from left to right. */
  function Fold(chunk: seq<byte>, calls: seq<HostCall>, n: nat): seq<byte>
    requires n <= |calls|
  {
    if n == 0 then chunk
    else if calls[n - 1].SetBytes? then Rewritten(Fold(chunk, calls, n - 1), calls[n - 1].edit)
    else Fold(chunk, calls, n - 1)
  }

  /** What a call is to be answered when the buffer stands at data. */
  function AnswerTo(data: seq<byte>, call: HostCall): Answer {
    match call
    case SetBytes(e) => Done(if Possible(data, e) then Ok else InternalFailure)
    case GetBytes(start, max) => Data(Window(data, start, max))
    case GetStatus => Length(|data| % U32_MOD)
  }

  /** Every answer is that of the fold so far. */
  ghost predicate Answered(chunk: seq<byte>, calls: seq<HostCall>, answers: seq<Answer>) {
    |answers| <= |calls| && forall i: nat :: i < |answers| ==> AnsweredAt(chunk, calls, i, answers[i])
  }

  predicate AnsweredAt(chunk: seq<byte>, calls: seq<HostCall>, i: nat, answer: Answer)
    requires i < |calls|
  {
    answer == AnswerTo(Fold(chunk, calls, i), calls[i])
  }

  lemma OneMoreAnswer(chunk: seq<byte>, calls: seq<HostCall>, answers: seq<Answer>, answer: Answer)
    requires |answers| < |calls| && Answered(chunk, calls, answers) && AnsweredAt(chunk, calls, |answers|, answer)
    ensures Answered(chunk, calls, answers + [answer])
  {
    forall i: nat | i <= |answers|
      ensures AnsweredAt(chunk, calls, i, (answers + [answer])[i])
    {
      assert i < |answers| ==> AnsweredAt(chunk, calls, i, answers[i]);
    }
  }

  /** proxy_get_buffer_bytes: from `start`, at most `max` bytes, 0 meaning all. */
  function Window(data: seq<byte>, start: nat, max: nat): seq<byte> {
    if start >= |data| then []
    else if max > 0 then data[start..Min(start + max, |data|)]
    else data[start..]
  }

  /** Every byte of a spliced buffer: the value stands at the clamped start, what was before and behind it is kept. */
  lemma SpliceBytes(base: seq<byte>, e: Edit)
    ensures var from, to := Min(e.start, |base|), Min(e.start + e.size, |base|);
            var after := Splice(base, e);
            && |after| == |base| - (to - from) + |e.value|
            && after[..from] == base[..from]
            && after[from..from + |e.value|] == e.value
            && after[from + |e.value|..] == base[to..]
  {
    var from, to := Min(e.start, |base|), Min(e.start + e.size, |base|);
    var after := Splice(base, e);
    assert after[..from] == base[..from];
    assert after[from..from + |e.value|] == e.value;
    assert after[from + |e.value|..] == base[to..];
  }

  /**
   A rewrite succeeds, whatever its start, exactly when the new length is one a size can hold and
   there is memory, which an empty result does not need.
   */
  lemma SucceedsIff(base: seq<byte>, e: Edit)
    ensures var kept := Min(e.start, |base|) + (|base| - Min(e.start + e.size, |base|));
            Possible(base, e) <==> kept + |e.value| < 0x1_0000_0000_0000_0000 && (e.memory || kept + |e.value| == 0)
  {
    SpliceBytes(base, e);
  }

  /** Reading where a value was written gives the value back. */
  lemma WrittenReadsBack(base: seq<byte>, e: Edit)
    requires e.value != []
    ensures Window(Splice(base, e), Min(e.start, |base|), |e.value|) == e.value
  {
    SpliceBytes(base, e);
  }

  /** Writing back what was read changes nothing. */
  lemma ReadWritesBack(base: seq<byte>, start: nat, max: nat)
    requires max > 0
    ensures forall memory :: Splice(base, Edit(start, max, Window(base, start, max), memory)) == base
  {
    var from, to := Min(start, |base|), Min(start + max, |base|);
    assert Window(base, start, max) == base[from..to];
    assert base[..from] + base[from..to] + base[to..] == base;
  }

  /** Consecutive windows tile the buffer. */
  lemma WindowsTile(data: seq<byte>, start: nat, max: nat)
    requires max > 0
    ensures Window(data, start, max) + Window(data, start + max, 0) == Window(data, start, 0)
  {
    if start < |data| {
      var mid := Min(start + max, |data|);
      assert data[start..mid] + data[mid..] == data[start..];
    }
  }

  // ---------------------------------------------------------------- one callback

  /** A read right after a successful rewrite finds the value, and all the rest as before. */
  lemma ReadsAfterWrite(chunk: seq<byte>, calls: seq<HostCall>, answers: seq<Answer>, i: nat)
    requires i + 1 < |calls| == |answers| && Answered(chunk, calls, answers)
    requires calls[i].SetBytes? && answers[i] == Done(Ok) && calls[i + 1].GetBytes?
    ensures var was, e, q := Fold(chunk, calls, i), calls[i].edit, calls[i + 1];
            var from, to := Min(e.start, |was|), Min(e.start + e.size, |was|);
            answers[i + 1] == Data(Window(was[..from] + e.value + was[to..], q.start, q.max))
  {
    assert AnsweredAt(chunk, calls, i, answers[i]) && AnsweredAt(chunk, calls, i + 1, answers[i + 1]);
  }

  /** Up to the first successful rewrite the guest sees, and the client gets, the chunk itself. */
  lemma {:induction false} ChunkUntilWritten(chunk: seq<byte>, calls: seq<HostCall>, answers: seq<Answer>, n: nat)
    requires n <= |calls| == |answers| && Answered(chunk, calls, answers)
    requires forall i :: 0 <= i < n && calls[i].SetBytes? ==> answers[i] != Done(Ok)
    ensures Fold(chunk, calls, n) == chunk
  {
    if n > 0 {
      ChunkUntilWritten(chunk, calls, answers, n - 1);
      assert AnsweredAt(chunk, calls, n - 1, answers[n - 1]);
    }
  }

  // ---------------------------------------------------------------- the host calls

  /** pw_replace_bytes: a new buffer filled prefix, value, suffix; None when it cannot be made. */
  method ReplaceBytes(base: seq<byte>, e: Edit) returns (r: Option<seq<byte>>)
    ensures r == if Possible(base, e) then Some(Splice(base, e)) else None
  {
    var prefixLen := if e.start > |base| then |base| else e.start;
    var replaceLen := if e.size > |base| - prefixLen then |base| - prefixLen else e.size;
    var suffixOffset := prefixLen + replaceLen;
    SpliceBytes(base, e);
    var newLen := prefixLen + |e.value| + (|base| - suffixOffset);
    if newLen > SIZE_MAX {
      return None;
    }
    if newLen == 0 {
      return Some([]);
    }
    if !e.memory {
      return None;
    }
    var bytes := FillBuffer(base[..prefixLen], e.value, base[suffixOffset..]);
    return Some(bytes);
  }

  /** Three copies into one new buffer. */
  method FillBuffer(prefix: seq<byte>, value: seq<byte>, suffix: seq<byte>) returns (bytes: seq<byte>)
    ensures bytes == prefix + value + suffix
  {
    var buf := new byte[|prefix| + |value| + |suffix|];
    HeaderCodec.CopyInto(buf, 0, prefix);
    assert buf[..|prefix|] == prefix;
    HeaderCodec.CopyInto(buf, |prefix|, value);
    HeaderCodec.CopyInto(buf, |prefix| + |value|, suffix);
    bytes := buf[..];
    assert bytes == buf[..|prefix| + |value| + |suffix|];
  }

  /** The part of the proxy context the body calls share. */
  class Context {
    /** The chunk exposed to the guest. */
    var body: seq<byte>
    var modified: bool
    var modifiedBody: seq<byte>

    constructor ()
      ensures !modified && Current() == []
    {
      body, modified, modifiedBody := [], false, [];
    }

    /** What the guest sees as the buffer. */
    function Current(): seq<byte>
      reads this
    {
      if modified then modifiedBody else body
    }

    method SetBufferBytes(e: Edit) returns (status: Status)
      modifies this`modified, this`modifiedBody
      ensures status == if Possible(old(Current()), e) then Ok else InternalFailure
      ensures Current() == Rewritten(old(Current()), e) && modified == (old(modified) || status == Ok)
    {
      var base := if modified then modifiedBody else body;
      var r := ReplaceBytes(base, e);
      if r.None? {
        return InternalFailure;
      }
      modifiedBody, modified := r.value, true;
      return Ok;
    }

    method GetBufferBytes(start: nat, max: nat) returns (data: seq<byte>)
      ensures data == Window(Current(), start, max)
    {
      data := if modified then modifiedBody else body;
      if start < |data| {
        data := data[start..];
        if max > 0 && |data| > max {
          data := data[..max];
        }
      } else {
        data := [];
      }
    }

    /** The length, as the 32-bit word that is written for the guest. */
    method GetBufferStatus() returns (len: nat)
      ensures len == |Current()| % U32_MOD
      ensures |Current()| < U32_MOD ==> len == |Window(Current(), 0, 0)|
    {
      len := if modified then |modifiedBody| % U32_MOD else |body| % U32_MOD;
    }

    /** One host call of the guest. */
    method Serve(call: HostCall) returns (answer: Answer)
      modifies this`modified, this`modifiedBody
      ensures answer == AnswerTo(old(Current()), call)
      ensures Current() == if call.SetBytes? then Rewritten(old(Current()), call.edit) else old(Current())
    {
      match call
      case SetBytes(e) =>
        var status := SetBufferBytes(e);
        answer := Done(status);
      case GetBytes(start, max) =>
        var data := GetBufferBytes(start, max);
        answer := Data(data);
      case GetStatus =>
        var len := GetBufferStatus();
        answer := Length(len);
    }

    /** A guest callback: any sequence of rewrites, reads and queries. */
    method Callback(calls: seq<HostCall>) returns (answers: seq<Answer>)
      modifies this`modified, this`modifiedBody
      ensures Current() == Fold(old(Current()), calls, |calls|)
      ensures |answers| == |calls| && Answered(old(Current()), calls, answers)
    {
      answers := [];
      for i := 0 to |calls|
        invariant Current() == Fold(old(Current()), calls, i)
        invariant |answers| == i && Answered(old(Current()), calls, answers)
      {
        var answer := Serve(calls[i]);
        OneMoreAnswer(old(Current()), calls, answers, answer);
        answers := answers + [answer];
      }
    }

    /**
     vdp_wasm_bytes: exposes the chunk, runs the callback, forwards. A call without data that is
     not the end runs no callback.
     */
    method FilterBytes(c: Chunk) returns (out: seq<byte>, answers: seq<Answer>)
      modifies this
      ensures !modified
      ensures |answers| == (if c.data != [] || c.end then |c.calls| else 0) && Answered(c.data, c.calls, answers)
      ensures out == if c.data != [] || c.end then Fold(c.data, c.calls, |c.calls|)
                     else if old(modified) then old(modifiedBody) else []
    {
      var chunk := c.data;
      answers := [];
      if |chunk| > 0 || c.end {
        modified, modifiedBody := false, [];
        body := chunk;
        answers := Callback(c.calls);
        ghost var after := Current();
        body := [];
        assert modified || after == chunk;
      }
      if modified {
        out := modifiedBody;
        modified, modifiedBody := false, [];
        return;
      }
      out := chunk;
    }

    /**
     Every chunk of a response in turn: the client gets exactly the folds, after what a rewrite
     made before delivery left behind if the first call carries no data and is not the end.
     */
    method Deliver(chunks: seq<Chunk>) returns (out: seq<byte>)
      modifies this
      ensures out == (if old(modified) && chunks != [] && !Runs(chunks[0]) then old(modifiedBody) else [])
                       + Delivered(chunks, |chunks|)
    {
      out := [];
      if chunks == [] {
        return;
      }
      ghost var before := if modified && !Runs(chunks[0]) then modifiedBody else [];
      var first, _ := FilterBytes(chunks[0]);
      out := first;
      assert out == before + Delivered(chunks, 1) by { FirstDelivered(chunks); }
      for i := 1 to |chunks|
        invariant out == before + Delivered(chunks, i) && !modified
      {
        var piece, _ := FilterBytes(chunks[i]);
        Assoc(before, Delivered(chunks, i), piece);
        out := out + piece;
        assert Delivered(chunks, i + 1) == Delivered(chunks, i) + piece;
      }
    }
  }

  /** One call of the filter and what the guest does in its callback. */
  datatype Chunk = Chunk(data: seq<byte>, end: bool, calls: seq<HostCall>)

  /** The callback runs for this chunk. */
  predicate Runs(c: Chunk) {
    c.data != [] || c.end
  }

  /** What the client is to get: each chunk as its calls leave it, in order. */
  function Delivered(chunks: seq<Chunk>, n: nat): seq<byte>
    requires n <= |chunks|
  {
    if n == 0 then [] else Delivered(chunks, n - 1) + Piece(chunks[n - 1])
  }

  function Piece(c: Chunk): seq<byte> {
    if Runs(c) then Fold(c.data, c.calls, |c.calls|) else []
  }

  lemma FirstDelivered(chunks: seq<Chunk>)
    requires chunks != []
    ensures Delivered(chunks, 1) == Piece(chunks[0])
  {
    assert Delivered(chunks, 0) == [];
  }
}
