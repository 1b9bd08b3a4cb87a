/**
 Reading the response of an HTTP callout (src/proxy_wasm_http.c): a first phase reads until the
 blank line is in the buffer, a second reads what Content-Length still asks for. The socket may
 deliver the bytes in any pieces.
 */
module HttpResponse {
  import opened Bytes
  import opened HttpText
  import opened HttpFields
  import opened HttpRequest
  import HeaderCodec
  import HeaderCount

  const MAX_RESPONSE: nat := 256 * 1024
  /** CRLF CRLF */
  const BLANK: seq<byte> := [13, 10, 13, 10]
  /** "HTTP/1.1" */
  const HTTP11: seq<byte> := [72, 84, 84, 80, 47, 49, 46, 49]
  /** "Transfer-Encoding" */
  const TRANSFER_ENCODING: seq<byte> := [84, 114, 97, 110, 115, 102, 101, 114, 45, 69, 110, 99, 111, 100, 105, 110, 103]
  /** "chunked" */
  const CHUNKED: seq<byte> := [99, 104, 117, 110, 107, 101, 100]

  // ---------------------------------------------------------------- the socket

  /** How many bytes a read of at most max gets when n were offered: at least one while any are left. */
  function Piece(plan: seq<nat>, left: nat, max: nat): (n: nat)
    ensures n <= left && n <= max
    ensures left > 0 && max > 0 ==> n > 0
  {
    var most := Min(left, max);
    if plan == [] || plan[0] > most then most else if plan[0] == 0 then Min(1, most) else plan[0]
  }

  function Tail(plan: seq<nat>): seq<nat> {
    if plan == [] then [] else plan[1..]
  }

  /** A connection: the bytes still to come before it ends, and the pieces they come in. */
  class Socket {
    var rest: seq<byte>
    var plan: seq<nat>

    constructor (rest: seq<byte>, plan: seq<nat>)
      ensures this.rest == rest && this.plan == plan
    {
      this.rest, this.plan := rest, plan;
    }

    /** pw_http_read_some; an empty result is the end of the stream or an error. */
    method Read(max: nat) returns (chunk: seq<byte>)
      modifies this
      ensures |chunk| == Piece(old(plan), |old(rest)|, max) && old(rest) == chunk + rest && plan == Tail(old(plan))
    {
      var n := Piece(plan, |rest|, max);
      chunk := rest[..n];
      rest, plan := rest[n..], Tail(plan);
    }
  }

  // ---------------------------------------------------------------- the end of the head

  /** The first blank line starts at h and no NUL stands before it. */
  ghost predicate BlankAt(s: seq<byte>, h: nat) {
    && At(s, h, BLANK)
    && (forall j :: 0 <= j < h ==> !At(s, j, BLANK))
    && (forall k :: 0 <= k < h ==> s[k] != 0)
  }

  /** The blank line a NUL-terminated buffer shows, or -1. */
  ghost function BlankIn(s: seq<byte>): (h: int)
    ensures -1 <= h && (h >= 0 ==> h + 4 <= |s|)
  {
    if exists h: nat :: BlankAt(s, h) then
      var h: nat :| BlankAt(s, h);
      h
    else -1
  }

  lemma BlankInIs(s: seq<byte>, h: nat)
    requires BlankAt(s, h)
    ensures BlankIn(s) == h
  {
    var g := BlankIn(s);
    assert BlankAt(s, g);
    assert At(s, g, BLANK) && At(s, h, BLANK);
  }

  /** strstr for CRLF CRLF. */
  method FindBlank(s: seq<byte>) returns (h: int)
    ensures h == BlankIn(s)
  {
    var c := CStr(s);
    h := First(c, BLANK);
    if h >= 0 {
      AtPrefix(s, c, h, BLANK);
      forall j | 0 <= j < h
        ensures !At(s, j, BLANK)
      {
        AtPrefix(s, c, j, BLANK);
      }
      BlankInIs(s, h);
    } else {
      forall g: nat
        ensures !BlankAt(s, g)
      {
        if BlankAt(s, g) {
          assert s[g..g + 4] == BLANK;
          assert forall k :: g <= k < g + 4 ==> s[k] == s[g..g + 4][k - g];
          AtPrefix(s, c, g, BLANK);
          assert false;
        }
      }
    }
  }

  /** Where the head of a response stream ends, looking no further than the buffer reaches. */
  ghost function HeadEnd(s: seq<byte>): (h: int)
    ensures -1 <= h && (h >= 0 ==> h + 4 <= |s| && h + 4 <= MAX_RESPONSE)
  {
    BlankIn(s[..Min(|s|, MAX_RESPONSE)])
  }

  lemma AtPrefix(s: seq<byte>, t: seq<byte>, i: nat, pat: seq<byte>)
    requires t <= s && i + |pat| <= |t|
    ensures At(t, i, pat) <==> At(s, i, pat)
  {
    assert s[i..i + |pat|] == t[i..i + |pat|];
  }

  lemma BlankAtPrefix(s: seq<byte>, n: nat, h: nat)
    requires n <= |s| && h + 4 <= n
    ensures BlankAt(s[..n], h) <==> BlankAt(s, h)
  {
    forall j: nat | j <= h
      ensures At(s[..n], j, BLANK) <==> At(s, j, BLANK)
    {
      AtPrefix(s, s[..n], j, BLANK);
    }
  }

  /**
   A longer buffer has its blank line where the shorter one has it, and the shorter one has it once
   it is long enough.
   */
  lemma BlankInPrefix(s: seq<byte>, n: nat)
    requires n <= |s|
    ensures BlankIn(s[..n]) == if 0 <= BlankIn(s) && BlankIn(s) + 4 <= n then BlankIn(s) else -1
  {
    var h, g := BlankIn(s), BlankIn(s[..n]);
    if g >= 0 {
      BlankAtPrefix(s, n, g);
      BlankInIs(s, g);
    } else if 0 <= h && h + 4 <= n {
      BlankAtPrefix(s, n, h);
      BlankInIs(s[..n], h);
    }
  }

  // ---------------------------------------------------------------- phase 1

  /** How many bytes are in the buffer when the first phase ends, got of them being there already. */
  ghost function Stop(s: seq<byte>, plan: seq<nat>, got: nat): nat
    requires got <= |s| && got <= MAX_RESPONSE
    decreases |s| - got
  {
    if got == MAX_RESPONSE || got == |s| then got
    else
      var len := got + Piece(plan, |s| - got, MAX_RESPONSE - got);
      if BlankIn(s[..len]) >= 0 then len else Stop(s, Tail(plan), len)
  }

  lemma StopNext(s: seq<byte>, plan: seq<nat>, got: nat)
    requires got < |s| && got < MAX_RESPONSE
    ensures var len := got + Piece(plan, |s| - got, MAX_RESPONSE - got);
            Stop(s, plan, got) == if BlankIn(s[..len]) >= 0 then len else Stop(s, Tail(plan), len)
  {
  }

  method ReadHead(sock: Socket, buf: array<byte>) returns (len: nat, h: int)
    requires buf.Length == MAX_RESPONSE + 1
    modifies sock, buf
    ensures len <= MAX_RESPONSE && old(sock.rest) == buf[..len] + sock.rest
    ensures len == Stop(old(sock.rest), old(sock.plan), 0)
    ensures h == HeadEnd(old(sock.rest)) && (h >= 0 ==> h + 4 <= len)
  {
    ghost var s := sock.rest;
    len, h := 0, -1;
    var more := true;
    while len < MAX_RESPONSE && more
      invariant 0 <= len <= MAX_RESPONSE && s == buf[..len] + sock.rest
      invariant h == BlankIn(s[..len])
      invariant more ==> h == -1 && Stop(s, sock.plan, len) == Stop(s, old(sock.plan), 0)
      invariant !more ==> len == Stop(s, old(sock.plan), 0) && (h >= 0 || len == |s|)
      decreases MAX_RESPONSE - len, more
    {
      len, h, more := ReadOnce(sock, buf, len, s);
    }
    HeadEndSeen(s, len);
  }

  /** One turn of the loop; more says whether another follows. */
  method ReadOnce(sock: Socket, buf: array<byte>, got: nat, ghost s: seq<byte>) returns (len: nat, h: int, more: bool)
    requires buf.Length == MAX_RESPONSE + 1 && got < MAX_RESPONSE
    requires s == buf[..got] + sock.rest && BlankIn(s[..got]) == -1
    modifies sock, buf
    ensures got <= len <= MAX_RESPONSE && s == buf[..len] + sock.rest && h == BlankIn(s[..len])
    ensures more ==> got < len && h == -1 && Stop(s, sock.plan, len) == Stop(s, old(sock.plan), got)
    ensures !more ==> len == Stop(s, old(sock.plan), got) && (h >= 0 || len == |s|)
  {
    ghost var plan := sock.plan;
    var n := ReadMore(sock, buf, got, MAX_RESPONSE - got);
    if n == 0 {
      return got, -1, false;
    }
    len := got + n;
    assert s[..len] == buf[..len];
    StopNext(s, plan, got);
    h := FindBlank(buf[..len]);
    more := h < 0;
  }

  /** One read into the buffer, with the terminating NUL behind it. */
  method ReadMore(sock: Socket, buf: array<byte>, len: nat, max: nat) returns (n: nat)
    requires len + max < buf.Length
    modifies sock, buf
    ensures n == Piece(old(sock.plan), |old(sock.rest)|, max) && sock.plan == Tail(old(sock.plan))
    ensures old(buf[..len] + sock.rest) == buf[..len + n] + sock.rest
  {
    var chunk := sock.Read(max);
    n := |chunk|;
    HeaderCodec.CopyInto(buf, len, chunk);
    buf[len + n] := 0;
    assert buf[..len + n] == old(buf[..len]) + chunk;
  }

  /** However many bytes the buffer holds when reading stops, they decide where the head ends. */
  lemma HeadEndSeen(s: seq<byte>, len: nat)
    requires len <= |s| && len <= MAX_RESPONSE
    requires BlankIn(s[..len]) >= 0 || len == |s| || len == MAX_RESPONSE
    ensures BlankIn(s[..len]) == HeadEnd(s)
  {
    var t := s[..Min(|s|, MAX_RESPONSE)];
    assert t[..len] == s[..len];
    BlankInPrefix(t, len);
  }

  // ---------------------------------------------------------------- phase 2

  /** Reads until need bytes came or the stream ended. */
  method ReadBody(sock: Socket, buf: array<byte>, have: nat, need: nat) returns (len: nat)
    requires buf.Length == MAX_RESPONSE + 1 && have + need <= MAX_RESPONSE
    modifies sock, buf
    ensures len == have + Min(need, |old(sock.rest)|)
    ensures old(buf[..have] + sock.rest) == buf[..len] + sock.rest
  {
    var bodyNeed := need;
    len := have;
    while bodyNeed > 0
      invariant have <= len && len + bodyNeed == have + need
      invariant old(buf[..have] + sock.rest) == buf[..len] + sock.rest
    {
      var n := ReadMore(sock, buf, len, Min(bodyNeed, MAX_RESPONSE - len));
      if n == 0 {
        break;
      }
      len, bodyNeed := len + n, bodyNeed - n;
    }
    assert |old(buf[..have] + sock.rest)| == have + |old(sock.rest)| == len + |sock.rest|;
  }

  // ---------------------------------------------------------------- what the head asks for

  ghost predicate FieldHasToken(head: seq<byte>, name: seq<byte>, token: seq<byte>) {
    exists v :: FieldValue(head, name, v) && HasToken(v, token)
  }

  method CheckToken(head: seq<byte>, name: seq<byte>, token: seq<byte>) returns (b: bool)
    requires 58 !in name && token != []
    ensures b <==> FieldHasToken(head, name, token)
  {
    var value := FindHeaderValue(head, name);
    if value.None? {
      return false;
    }
    b := ValueHasToken(value.value, token);
    forall v | FieldValue(head, name, v)
      ensures v == value.value
    {
      FieldValueOne(head, name, v, value.value);
    }
  }

  /** The head frames its body by a Content-Length of n. */
  ghost predicate Length(head: seq<byte>, n: nat) {
    n <= SIZE_MAX && exists v :: FieldValue(head, CONTENT_LENGTH, v) && IsSize(v, n)
  }

  lemma LengthOne(head: seq<byte>, n: nat, m: nat)
    requires Length(head, n) && Length(head, m)
    ensures n == m
  {
    var v :| FieldValue(head, CONTENT_LENGTH, v) && IsSize(v, n);
    var w :| FieldValue(head, CONTENT_LENGTH, w) && IsSize(w, m);
    FieldValueOne(head, CONTENT_LENGTH, v, w);
    SizeUnique(v, n, m);
  }

  datatype Framing = InChunks | ByLength(n: nat) | NoLength | BadLength

  ghost predicate IsFraming(head: seq<byte>, f: Framing) {
    if FieldHasToken(head, TRANSFER_ENCODING, CHUNKED) then f == InChunks
    else if !HasField(head, CONTENT_LENGTH) then f == NoLength
    else (f.ByLength? && Length(head, f.n)) || (f == BadLength && forall n :: !Length(head, n))
  }

  method FindFraming(head: seq<byte>) returns (f: Framing)
    ensures IsFraming(head, f)
  {
    var chunked := CheckToken(head, TRANSFER_ENCODING, CHUNKED);
    if chunked {
      return InChunks;
    }
    var value := FindHeaderValue(head, CONTENT_LENGTH);
    if value.None? {
      return NoLength;
    }
    var n := ParseSize(value.value);
    if n.Some? {
      assert Length(head, n.value);
      return ByLength(n.value);
    }
    forall m
      ensures !Length(head, m)
    {
      if Length(head, m) {
        var v :| FieldValue(head, CONTENT_LENGTH, v) && IsSize(v, m);
        FieldValueOne(head, CONTENT_LENGTH, v, value.value);
      }
    }
    return BadLength;
  }

  // ---------------------------------------------------------------- the response

  datatype Status = Ok | InternalFailure | ParseFailure | Unimplemented

  /** bytes is the response kept when complete; reusable says the connection may serve again. */
  datatype Response = Response(status: Status, complete: bool, reusable: bool, bytes: seq<byte>)

  const TRUNCATED := Response(InternalFailure, false, false, [])
  const UNPARSED := Response(ParseFailure, false, false, [])

  /** The connection may stay open: HTTP/1.1, no close option, and an allowlisted upstream. */
  ghost predicate Persists(head: seq<byte>, exempt: bool) {
    HTTP11 <= head && !FieldHasToken(head, CONNECTION, CLOSE) && exempt
  }

  /**
   The outcome for a stream s when the first phase ended with len bytes. For a usable
   Content-Length n it is complete exactly when s holds the head and n more bytes, and reusable
   only when the first phase did not read past them.
   */
  ghost predicate Frames(s: seq<byte>, len: nat, exempt: bool, r: Response) {
    if HeadEnd(s) < 0 then r == UNPARSED else FramesHead(s, HeadEnd(s) + 4, len, exempt, r)
  }

  /** The same for a stream with a head of k bytes. */
  ghost predicate FramesHead(s: seq<byte>, k: nat, len: nat, exempt: bool, r: Response)
    requires k <= |s|
  {
    var head := s[..k];
    if FieldHasToken(head, TRANSFER_ENCODING, CHUNKED) then r == Response(Unimplemented, false, false, [])
    else if !HasField(head, CONTENT_LENGTH) then r == if len == k then Response(Ok, true, false, head) else UNPARSED
    else
      && (forall n :: Length(head, n) ==> FramesLength(s, k, len, exempt, n, r))
      && ((forall n :: !Length(head, n)) ==> r == UNPARSED)
  }

  /** The Content-Length case. */
  ghost predicate FramesLength(s: seq<byte>, k: nat, len: nat, exempt: bool, n: nat, r: Response)
    requires k <= |s|
  {
    if k + n > MAX_RESPONSE || k + n > |s| then r == TRUNCATED
    else r == Response(Ok, true, len <= k + n && Persists(s[..k], exempt), s[..k + n])
  }

  /** How many bytes the call takes from the connection. */
  ghost predicate Consumes(s: seq<byte>, len: nat, r: Response, taken: int) {
    r.complete || r.status != InternalFailure ==> taken == if len <= |r.bytes| then |r.bytes| else len
  }

  /** rest is what is left of s after some bytes were taken from it. */
  ghost predicate Left(s: seq<byte>, rest: seq<byte>) {
    |rest| <= |s| && rest == s[|s| - |rest|..]
  }

  lemma LeftAfter(s: seq<byte>, taken: seq<byte>, rest: seq<byte>)
    requires s == taken + rest
    ensures Left(s, rest) && |s| - |rest| == |taken|
  {
  }

  method ReadResponse(sock: Socket, exempt: bool) returns (r: Response)
    modifies sock
    ensures Left(old(sock.rest), sock.rest)
    ensures var s, len := old(sock.rest), Stop(old(sock.rest), old(sock.plan), 0);
            Frames(s, len, exempt, r) && Consumes(s, len, r, |s| - |sock.rest|)
  {
    var buf := new byte[MAX_RESPONSE + 1];
    var len, h := ReadHead(sock, buf);
    LeftAfter(old(sock.rest), buf[..len], sock.rest);
    if h < 0 {
      return UNPARSED;
    }
    BlankAtHeadEnd(old(sock.rest));
    r := ReadFramed(sock, buf, len, h, exempt, old(sock.rest));
  }

  lemma BlankAtHeadEnd(s: seq<byte>)
    requires HeadEnd(s) >= 0
    ensures BlankAt(s, HeadEnd(s)) && s[HeadEnd(s)] == 13
  {
    BlankAtPrefix(s, Min(|s|, MAX_RESPONSE), HeadEnd(s));
    assert s[HeadEnd(s)] == s[HeadEnd(s)..HeadEnd(s) + 4][0];
  }

  method ReadFramed(sock: Socket, buf: array<byte>, len: nat, h: nat, exempt: bool, ghost s: seq<byte>)
      returns (r: Response)
    requires buf.Length == MAX_RESPONSE + 1 && h + 4 <= len <= MAX_RESPONSE && s == buf[..len] + sock.rest
    requires At(s, h, BLANK)
    modifies sock, buf
    ensures Left(s, sock.rest) && FramesHead(s, h + 4, len, exempt, r) && Consumes(s, len, r, |s| - |sock.rest|)
  {
    var head := buf[..h + 4];
    var http11 := len >= 8 && buf[..8] == HTTP11;
    assert head == s[..h + 4];
    assert http11 <==> HTTP11 <= head by {
      AtPrefix(s, buf[..len], h, BLANK);
      VersionInHead(buf[..len], h);
    }
    LeftAfter(s, buf[..len], sock.rest);
    var framing := FindFraming(head);
    var closing := CheckToken(head, CONNECTION, CLOSE);
    var persists := http11 && !closing && exempt;
    r := Finish(sock, buf, len, h + 4, framing, persists, s);
    FramesTable(s, h + 4, len, exempt, framing, persists, r);
  }

  /** The outcome for a head of k bytes with that framing. */
  function Table(s: seq<byte>, k: nat, len: nat, f: Framing, persists: bool): Response
    requires k <= |s|
  {
    match f
    case InChunks => Response(Unimplemented, false, false, [])
    case BadLength => UNPARSED
    case NoLength => if len == k then Response(Ok, true, false, s[..k]) else UNPARSED
    case ByLength(n) =>
      if k + n > MAX_RESPONSE || k + n > |s| then TRUNCATED
      else Response(Ok, true, len <= k + n && persists, s[..k + n])
  }

  method Finish(sock: Socket, buf: array<byte>, len: nat, k: nat, framing: Framing, persists: bool, ghost s: seq<byte>)
      returns (r: Response)
    requires buf.Length == MAX_RESPONSE + 1 && k <= len <= MAX_RESPONSE && s == buf[..len] + sock.rest
    modifies sock, buf
    ensures r == Table(s, k, len, framing, persists)
    ensures Left(s, sock.rest) && Consumes(s, len, r, |s| - |sock.rest|)
  {
    LeftAfter(s, buf[..len], sock.rest);
    match framing
    case InChunks =>
      r := Response(Unimplemented, false, false, []);
    case BadLength =>
      r := UNPARSED;
    case NoLength =>
      r := if len == k then Response(Ok, true, false, buf[..k]) else UNPARSED;
    case ByLength(n) =>
      r := ReadByLength(sock, buf, len, k, n, persists, s);
  }

  lemma FramesTable(s: seq<byte>, k: nat, len: nat, exempt: bool, f: Framing, persists: bool, r: Response)
    requires k <= |s| && IsFraming(s[..k], f) && persists == Persists(s[..k], exempt)
    requires r == Table(s, k, len, f, persists)
    ensures FramesHead(s, k, len, exempt, r)
  {
    if f.ByLength? {
      var head := s[..k];
      forall m | Length(head, m) ensures m == f.n { LengthOne(head, f.n, m); }
    }
  }

  /** The version is compared in the buffer, but only the head can match it. */
  lemma VersionInHead(s: seq<byte>, h: nat)
    requires At(s, h, BLANK)
    ensures |s| >= 8 && s[..8] == HTTP11 <==> HTTP11 <= s[..h + 4]
  {
    assert s[h..h + 4][0] == s[h] == 13;
    if |s| >= 8 && s[..8] == HTTP11 {
      assert forall i :: 0 <= i < 8 ==> s[i] == HTTP11[i] != 13;
    }
  }

  method ReadByLength(sock: Socket, buf: array<byte>, len: nat, k: nat, n: nat, persists: bool, ghost s: seq<byte>)
      returns (r: Response)
    requires buf.Length == MAX_RESPONSE + 1 && k <= len <= MAX_RESPONSE && s == buf[..len] + sock.rest
    modifies sock, buf
    ensures r == if k + n > MAX_RESPONSE || k + n > |s| then TRUNCATED
                 else Response(Ok, true, len <= k + n && persists, s[..k + n])
    ensures Left(s, sock.rest) && Consumes(s, len, r, |s| - |sock.rest|)
  {
    LeftAfter(s, buf[..len], sock.rest);
    if n > MAX_RESPONSE - k {
      return TRUNCATED;
    }
    var bodyHave := len - k;
    if bodyHave > n {
      assert s[..k + n] == buf[..k + n];
      return Response(Ok, true, false, buf[..k + n]);
    }
    var total := ReadBody(sock, buf, len, n - bodyHave);
    LeftAfter(s, buf[..total], sock.rest);
    assert s[..total] == buf[..total];
    if total == k + n {
      return Response(Ok, true, persists, buf[..total]);
    }
    return TRUNCATED;
  }

  // ---------------------------------------------------------------- how the pieces matter

  /** The stream starts with a head that frames its body by a Content-Length of n. */
  ghost predicate SizedBy(s: seq<byte>, n: nat) {
    && HeadEnd(s) >= 0
    && !FieldHasToken(s[..HeadEnd(s) + 4], TRANSFER_ENCODING, CHUNKED)
    && Length(s[..HeadEnd(s) + 4], n)
  }

  lemma SizedFrames(s: seq<byte>, n: nat, len: nat, exempt: bool, r: Response)
    requires SizedBy(s, n) && Frames(s, len, exempt, r)
    ensures FramesLength(s, HeadEnd(s) + 4, len, exempt, n, r)
  {
    var head := s[..HeadEnd(s) + 4];
    var v :| FieldValue(head, CONTENT_LENGTH, v) && IsSize(v, n);
    assert HasField(head, CONTENT_LENGTH);
  }

  /**
   A Content-Length response that fits the buffer is accepted exactly when the stream holds all of
   it, and what is kept is its head and exactly n bytes after it, however the bytes arrived.
   */
  lemma AcceptedIff(s: seq<byte>, n: nat, len: nat, exempt: bool, r: Response)
    requires SizedBy(s, n) && Frames(s, len, exempt, r)
    ensures var k := HeadEnd(s) + 4;
            && (r.complete <==> k + n <= 262144 && k + n <= |s|)
            && (r.complete ==> r.status == Ok && r.bytes == s[..k + n])
            && (!r.complete ==> r.status == InternalFailure)
  {
    SizedFrames(s, n, len, exempt, r);
  }

  /** A reusable connection stands exactly at the end of the response. */
  lemma ReusableIff(s: seq<byte>, len: nat, exempt: bool, r: Response, taken: nat)
    requires Frames(s, len, exempt, r) && Consumes(s, len, r, taken)
    ensures r.reusable ==> r.complete && taken == |r.bytes|
    ensures forall n :: SizedBy(s, n) ==>
              (r.reusable <==>
                 && r.complete && exempt && taken == |r.bytes| && Ascii("HTTP/1.1") <= s[..HeadEnd(s) + 4]
                 && !FieldHasToken(s[..HeadEnd(s) + 4], Ascii("Connection"), Ascii("close")))
  {
    Spelled();
    assert HTTP11 == Ascii("HTTP/1.1");
    forall n | SizedBy(s, n)
      ensures r.reusable <==> r.complete && Persists(s[..HeadEnd(s) + 4], exempt) && taken == |r.bytes|
    {
      SizedFrames(s, n, len, exempt, r);
    }
    if r.reusable {
      var head := s[..HeadEnd(s) + 4];
      if forall n :: !Length(head, n) {
        assert false;
      } else {
        var n :| Length(head, n);
        SizedFrames(s, n, len, exempt, r);
      }
    }
  }

  /** The first phase never stops before the head is in the buffer. */
  lemma {:induction false} StopRange(s: seq<byte>, plan: seq<nat>, got: nat)
    requires got <= |s| && got <= MAX_RESPONSE && BlankIn(s[..got]) < 0 && HeadEnd(s) >= 0
    ensures HeadEnd(s) + 4 <= Stop(s, plan, got) <= Min(|s|, MAX_RESPONSE)
    decreases |s| - got
  {
    if got == |s| || got == MAX_RESPONSE {
      HeadEndSeen(s, got);
    } else {
      var len := got + Piece(plan, |s| - got, MAX_RESPONSE - got);
      StopNext(s, plan, got);
      if BlankIn(s[..len]) >= 0 {
        HeadEndSeen(s, len);
      } else {
        StopRange(s, Tail(plan), len);
      }
    }
  }

  /** It may stop anywhere from the end of the head on: a first piece of c bytes does it. */
  lemma StopAnywhere(s: seq<byte>, c: nat)
    requires HeadEnd(s) >= 0 && HeadEnd(s) + 4 <= c <= Min(|s|, MAX_RESPONSE)
    ensures Stop(s, [c], 0) == c
  {
    var m := Min(|s|, MAX_RESPONSE);
    assert s[..m][..c] == s[..c];
    BlankInPrefix(s[..m], c);
    StopNext(s, [c], 0);
  }

  ghost predicate Unsized(s: seq<byte>) {
    && HeadEnd(s) >= 0
    && !FieldHasToken(s[..HeadEnd(s) + 4], TRANSFER_ENCODING, CHUNKED)
    && !HasField(s[..HeadEnd(s) + 4], CONTENT_LENGTH)
  }

  /** The stream starts with a head whose Transfer-Encoding names chunked. */
  ghost predicate Chunked(s: seq<byte>) {
    HeadEnd(s) >= 0 && FieldHasToken(s[..HeadEnd(s) + 4], Ascii("Transfer-Encoding"), Ascii("chunked"))
  }

  lemma EncodingSpelled()
    ensures TRANSFER_ENCODING == Ascii("Transfer-Encoding") && CHUNKED == Ascii("chunked")
  {
  }

  predicate CrLfCrLf(s: seq<byte>, j: nat) {
    j + 4 <= |s| && s[j] == 13 && s[j + 1] == 10 && s[j + 2] == 13 && s[j + 3] == 10
  }

  lemma BlankSpelled(s: seq<byte>, j: nat)
    ensures CrLfCrLf(s, j) <==> At(s, j, BLANK)
  {
    if j + 4 <= |s| {
      assert s[j..j + 4] == [s[j], s[j + 1], s[j + 2], s[j + 3]];
    }
  }

  /** The head of a response ends with the first blank line, within 262144 bytes and with no NUL before it. */
  lemma HeadEndIff(s: seq<byte>, h: nat)
    ensures HeadEnd(s) == h <==>
              && CrLfCrLf(s, h) && h + 4 <= 262144 && (forall k :: 0 <= k < h ==> s[k] != 0)
              && forall j: nat :: j < h ==> !CrLfCrLf(s, j)
  {
    forall j: nat
      ensures CrLfCrLf(s, j) <==> At(s, j, BLANK)
    {
      BlankSpelled(s, j);
    }
    if HeadEnd(s) == h {
      BlankAtHeadEnd(s);
    } else if BlankAt(s, h) && h + 4 <= MAX_RESPONSE {
      var m := Min(|s|, MAX_RESPONSE);
      BlankAtPrefix(s, m, h);
      BlankInIs(s[..m], h);
    }
  }

  /** The stream starts with a head that has a Content-Length which is no size. */
  ghost predicate Missized(s: seq<byte>) {
    && HeadEnd(s) >= 0 && !Chunked(s)
    && HasField(s[..HeadEnd(s) + 4], CONTENT_LENGTH) && Sizeless(s[..HeadEnd(s) + 4])
  }

  ghost predicate Sizeless(head: seq<byte>) {
    forall n :: !Length(head, n)
  }

  /** Every stream with a head is of one of the four kinds. */
  lemma KindsExhaust(s: seq<byte>)
    requires HeadEnd(s) >= 0
    ensures Chunked(s) || Missized(s) || Unsized(s) || exists n :: SizedBy(s, n)
  {
    EncodingSpelled();
    if !Chunked(s) && !Missized(s) && !Unsized(s) {
      var n :| Length(s[..HeadEnd(s) + 4], n);
      assert SizedBy(s, n);
    }
  }

  /**
   Whatever pieces arrive: no head or no usable Content-Length is a parse failure, chunks are not
   implemented, and without a Content-Length a response is accepted exactly when nothing past its
   head was taken from the connection; none of these leaves the connection reusable.
   */
  lemma OthersRefused(s: seq<byte>, len: nat, exempt: bool, r: Response, taken: int)
    requires Frames(s, len, exempt, r) && Consumes(s, len, r, taken)
    requires HeadEnd(s) >= 0 ==> HeadEnd(s) + 4 <= len
    ensures HeadEnd(s) < 0 || Missized(s) ==> r.status == ParseFailure && !r.complete && !r.reusable
    ensures Chunked(s) ==> r.status == Unimplemented && !r.complete && !r.reusable
    ensures Unsized(s) ==>
              && !r.reusable && (r.complete <==> taken == HeadEnd(s) + 4)
              && r.status == (if r.complete then Ok else ParseFailure)
              && (r.complete ==> r.bytes == s[..HeadEnd(s) + 4])
  {
    EncodingSpelled();
  }

  /** For one delivery plan, the outcome of a call on stream s. */
  ghost predicate Delivers(s: seq<byte>, plan: seq<nat>, exempt: bool, r: Response) {
    Frames(s, Stop(s, plan, 0), exempt, r)
  }

  /**
   Without a Content-Length the outcome is independent of how the bytes arrive exactly when
   nothing follows the head that the buffer could take; otherwise the same stream is accepted in
   one delivery and refused in another.
   */
  lemma UnsizedIff(s: seq<byte>, exempt: bool)
    requires Unsized(s)
    ensures var k := HeadEnd(s) + 4;
            (forall plan, r :: Delivers(s, plan, exempt, r) ==> r.complete) <==> k == Min(|s|, MAX_RESPONSE)
    ensures Delivers(s, [HeadEnd(s) + 4], exempt, Response(Ok, true, false, s[..HeadEnd(s) + 4]))
  {
    var k := HeadEnd(s) + 4;
    StopAnywhere(s, k);
    if k == Min(|s|, MAX_RESPONSE) {
      forall plan, r | Delivers(s, plan, exempt, r)
        ensures r.complete
      {
        StopRange(s, plan, 0);
      }
    } else {
      StopAnywhere(s, k + 1);
      assert Delivers(s, [k + 1], exempt, UNPARSED);
    }
  }

  /** A NUL before the first blank line hides it: the response is refused whatever follows. */
  lemma NulHidesHead(s: seq<byte>, z: nat, len: nat, exempt: bool, r: Response)
    requires z < |s| && s[z] == 0 && (forall j :: 0 <= j < z ==> !At(s, j, BLANK))
    requires Frames(s, len, exempt, r)
    ensures r == UNPARSED
  {
    if HeadEnd(s) >= 0 {
      BlankAtHeadEnd(s);
      assert false;
    }
  }

  // ---------------------------------------------------------------- the body

  /** The blank line of a complete response, searched for again without regard to NULs, is the same one. */
  lemma SearchesAgree(s: seq<byte>, len: nat, exempt: bool, r: Response)
    requires Frames(s, len, exempt, r) && r.complete
    ensures HeadEnd(s) >= 0 && IsFirst(r.bytes, BLANK, HeadEnd(s))
  {
    CompleteHoldsHead(s, len, exempt, r);
    BlankAtHeadEnd(s);
    forall j | 0 <= j <= HeadEnd(s)
      ensures At(r.bytes, j, BLANK) <==> At(s, j, BLANK)
    {
      AtPrefix(s, r.bytes, j, BLANK);
    }
  }

  lemma CompleteHoldsHead(s: seq<byte>, len: nat, exempt: bool, r: Response)
    requires Frames(s, len, exempt, r) && r.complete
    ensures HeadEnd(s) >= 0 && r.bytes <= s && HeadEnd(s) + 4 <= |r.bytes|
  {
    var head := s[..HeadEnd(s) + 4];
    if HasField(head, CONTENT_LENGTH) && exists n :: Length(head, n) {
      var n :| Length(head, n);
      SizedFrames(s, n, len, exempt, r);
    }
  }

  /** The second search, over the kept bytes. */
  method SplitResponse(bytes: seq<byte>) returns (headerEnd: int, body: seq<byte>)
    ensures IsFirst(bytes, BLANK, headerEnd)
    ensures body == if headerEnd >= 0 then bytes[headerEnd + 4..] else []
  {
    var i := 0;
    while i + 3 < |bytes|
      invariant 0 <= i && forall j :: 0 <= j < i ==> !At(bytes, j, BLANK)
    {
      if bytes[i..i + 4] == BLANK {
        return i, bytes[i + 4..];
      }
      i := i + 1;
    }
    return -1, [];
  }

  /** What the guest is to get for a Content-Length of n, rest being what the call leaves unread. */
  ghost predicate Received(s: seq<byte>, n: nat, rest: seq<byte>, status: Status, got: Option<Stored>, reusable: bool)
    requires HeadEnd(s) >= 0
  {
    var h := HeadEnd(s);
    var k := h + 4;
    if k + n > 262144 || k + n > |s| then status == InternalFailure && got == None && !reusable
    else
      && status == Ok && got == Some(Stored(s[k..k + n], HeaderCount.FieldCount(s[..h])))
      && (reusable ==> rest == s[k + n..])
  }

  /** Without a Content-Length there is no body, or a parse failure. */
  ghost predicate EmptyReceived(s: seq<byte>, status: Status, got: Option<Stored>, reusable: bool)
    requires HeadEnd(s) >= 0
  {
    && !reusable && (status == Ok || status == ParseFailure)
    && (got.Some? ==> got.value == Stored([], HeaderCount.FieldCount(s[..HeadEnd(s)])))
  }

  /** What is kept for the guest: the body and the number of header fields. */
  datatype Stored = Stored(body: seq<byte>, numHeaders: nat)

  /**
   A response whose body the guest gets: it has a head within 262144 bytes, is not in chunks, and has
   either a Content-Length that fits in with the head and is all there, or none and nothing was taken
   past the head.
   */
  ghost predicate Receivable(s: seq<byte>, taken: int) {
    && HeadEnd(s) >= 0 && !Chunked(s)
    && var k := HeadEnd(s) + 4;
       || (exists n :: Length(s[..k], n) && k + n <= 262144 && k + n <= |s|)
       || (!HasField(s[..k], CONTENT_LENGTH) && taken == k)
  }

  /**
   The call as the guest sees it: what is stored, for which streams and with which status otherwise.
   The body of a Content-Length response is the n bytes after the first blank line.
   */
  method ReceiveBody(sock: Socket, exempt: bool) returns (status: Status, got: Option<Stored>, reusable: bool)
    modifies sock
    ensures got.Some? <==> status == Ok
    ensures got.Some? <==> Receivable(old(sock.rest), |old(sock.rest)| - |sock.rest|)
    ensures Chunked(old(sock.rest)) ==> status == Unimplemented && !reusable
    ensures HeadEnd(old(sock.rest)) < 0 || Missized(old(sock.rest)) ==> status == ParseFailure && !reusable
    ensures Unsized(old(sock.rest)) ==> EmptyReceived(old(sock.rest), status, got, reusable)
    ensures forall n :: SizedBy(old(sock.rest), n) ==> Received(old(sock.rest), n, sock.rest, status, got, reusable)
  {
    var r := ReadResponse(sock, exempt);
    ghost var s, len := old(sock.rest), Stop(old(sock.rest), old(sock.plan), 0);
    if HeadEnd(s) >= 0 {
      StopFromStart(s, old(sock.plan));
    }
    OthersRefused(s, len, exempt, r, |s| - |sock.rest|);
    CompleteIff(s, len, exempt, r, |s| - |sock.rest|);
    if !r.complete {
      NotReceived(s, sock.rest, len, exempt, r);
      return r.status, None, r.reusable;
    }
    var headerEnd, bytes := SplitResponse(r.bytes);
    BodyReceived(s, sock.rest, len, exempt, r, headerEnd);
    EmptyBody(s, len, exempt, r, headerEnd, |s| - |sock.rest|);
    var numHeaders := HeaderCount.CountHeaders(r.bytes[..headerEnd]);
    return Ok, Some(Stored(bytes, numHeaders)), r.reusable;
  }

  lemma EmptyBody(s: seq<byte>, len: nat, exempt: bool, r: Response, headerEnd: int, taken: int)
    requires Frames(s, len, exempt, r) && Consumes(s, len, r, taken) && r.complete
    requires HeadEnd(s) >= 0 ==> HeadEnd(s) + 4 <= len
    requires IsFirst(r.bytes, BLANK, headerEnd)
    ensures headerEnd >= 0
    ensures Unsized(s) ==> EmptyReceived(s, Ok, Some(FromBuffer(r.bytes, headerEnd)), r.reusable)
  {
    SameBlank(s, len, exempt, r, headerEnd);
    OthersRefused(s, len, exempt, r, taken);
    BodyOf(s, headerEnd, headerEnd + 4);
  }

  lemma StopFromStart(s: seq<byte>, plan: seq<nat>)
    requires HeadEnd(s) >= 0
    ensures HeadEnd(s) + 4 <= Stop(s, plan, 0)
  {
    assert s[..0] == [];
    StopRange(s, plan, 0);
  }

  lemma CompleteIff(s: seq<byte>, len: nat, exempt: bool, r: Response, taken: int)
    requires Frames(s, len, exempt, r) && Consumes(s, len, r, taken)
    requires HeadEnd(s) >= 0 ==> HeadEnd(s) + 4 <= len
    ensures r.complete <==> Receivable(s, taken)
  {
    OthersRefused(s, len, exempt, r, taken);
    if HeadEnd(s) >= 0 {
      KindsExhaust(s);
      if n :| SizedBy(s, n) {
        AcceptedIff(s, n, len, exempt, r);
        SizedReceivable(s, n, taken);
      }
    }
  }

  lemma SizedReceivable(s: seq<byte>, n: nat, taken: int)
    requires SizedBy(s, n)
    ensures Receivable(s, taken) <==> HeadEnd(s) + 4 + n <= 262144 && HeadEnd(s) + 4 + n <= |s|
  {
    var k := HeadEnd(s) + 4;
    EncodingSpelled();
    assert HasField(s[..k], CONTENT_LENGTH) by {
      var v :| FieldValue(s[..k], CONTENT_LENGTH, v) && IsSize(v, n);
    }
    forall m | Length(s[..k], m)
      ensures m == n
    {
      LengthOne(s[..k], n, m);
    }
  }

  lemma NotReceived(s: seq<byte>, rest: seq<byte>, len: nat, exempt: bool, r: Response)
    requires Frames(s, len, exempt, r) && !r.complete
    ensures r.status != Ok
    ensures forall n :: SizedBy(s, n) ==> Received(s, n, rest, r.status, None, r.reusable)
  {
    forall n | SizedBy(s, n)
      ensures Received(s, n, rest, r.status, None, r.reusable)
    {
      SizedFrames(s, n, len, exempt, r);
    }
  }

  lemma SameBlank(s: seq<byte>, len: nat, exempt: bool, r: Response, headerEnd: int)
    requires Frames(s, len, exempt, r) && r.complete && IsFirst(r.bytes, BLANK, headerEnd)
    ensures headerEnd == HeadEnd(s) >= 0
  {
    SearchesAgree(s, len, exempt, r);
    FirstUnique(r.bytes, BLANK, headerEnd);
    FirstUnique(r.bytes, BLANK, HeadEnd(s));
  }

  /** What the call stores of the bytes read, the blank line being at h. */
  function FromBuffer(bytes: seq<byte>, h: nat): Stored
    requires h + 4 <= |bytes|
  {
    Stored(bytes[h + 4..], HeaderCount.FieldCount(bytes[..h]))
  }

  lemma BodyReceived(s: seq<byte>, rest: seq<byte>, len: nat, exempt: bool, r: Response, headerEnd: int)
    requires Frames(s, len, exempt, r) && Left(s, rest) && Consumes(s, len, r, |s| - |rest|) && r.complete
    requires IsFirst(r.bytes, BLANK, headerEnd)
    ensures headerEnd >= 0
    ensures forall n :: SizedBy(s, n) ==>
              Received(s, n, rest, Ok, Some(FromBuffer(r.bytes, headerEnd)), r.reusable)
  {
    SameBlank(s, len, exempt, r, headerEnd);
    forall n | SizedBy(s, n)
      ensures Received(s, n, rest, Ok, Some(FromBuffer(r.bytes, headerEnd)), r.reusable)
    {
      SizedReceived(s, rest, n, len, exempt, r, headerEnd);
    }
  }

  lemma SizedReceived(s: seq<byte>, rest: seq<byte>, n: nat, len: nat, exempt: bool, r: Response, h: nat)
    requires Frames(s, len, exempt, r) && Left(s, rest) && Consumes(s, len, r, |s| - |rest|) && r.complete
    requires SizedBy(s, n) && h == HeadEnd(s) && h + 4 <= |r.bytes|
    ensures Received(s, n, rest, Ok, Some(FromBuffer(r.bytes, h)), r.reusable)
  {
    SizedFrames(s, n, len, exempt, r);
    BodyOf(s, h + 4, h + 4 + n);
    BodyOf(s, h, h + 4 + n);
  }

  lemma BodyOf(s: seq<byte>, k: nat, m: nat)
    requires k <= m <= |s|
    ensures s[..m][k..] == s[k..m] && s[..m][..k] == s[..k]
  {
  }

  /** A CRLF right before a blank line makes one two bytes earlier. */
  lemma EarlierBlank(s: seq<byte>, h: nat)
    requires 2 <= h && At(s, h, BLANK) && HeaderCount.Paired(s[..h], h - 1)
    ensures At(s, h - 2, BLANK)
  {
    assert s[h] == s[h..h + 4][0] && s[h + 1] == s[h..h + 4][1];
    assert s[h - 2..h + 2] == [s[h - 2], s[h - 1], s[h], s[h + 1]];
  }

  /**
   The number of headers reported is that of the lines of the head between the status line and the
   empty line exactly when no line feed of it is bare, but for one right before the blank line.
   */
  lemma CountsFieldsIff(s: seq<byte>)
    requires HeadEnd(s) >= 0
    ensures var h := HeadEnd(s);
            HeaderCount.FieldCount(s[..h]) == |LinesFrom(s[..h + 4], 0)| - 2 <==>
              forall k :: 0 <= k < h - 1 ==> !HeaderCount.Bare(s[..h], k)
  {
    var h := HeadEnd(s);
    BlankAtHeadEnd(s);
    if h >= 2 && HeaderCount.Paired(s[..h], h - 1) {
      EarlierBlank(s, h);
      assert false;
    }
    assert s[..h + 4] == s[..h] + BLANK;
    HeaderCount.CountIff(s[..h]);
  }

  /** One bare line feed: the head "A\nB" has no field line, and one header is reported. */
  lemma BareFeedMiscounts()
    ensures var s := [65, 10, 66] + BLANK;
            HeadEnd(s) == 3 && HeaderCount.FieldCount(s[..3]) == 1 && |LinesFrom(s[..7], 0)| - 2 == 0
  {
    var s: seq<byte> := [65, 10, 66] + BLANK;
    assert s == [65, 10, 66, 13, 10, 13, 10] == s[..7] && s[..3] == [65, 10, 66];
    assert s[0..4][0] == 65 && s[1..5][0] == 10 && s[2..6][0] == 66;
    assert s[..Min(|s|, MAX_RESPONSE)] == s;
    BlankInIs(s, 3);
    HeaderCount.NoFeeds(s[..3], 0, 1);
    assert HeaderCount.Feeds(s[..3], 2) == 1;
    HeaderCount.NoFeeds(s[..3], 2, 3);
    HeaderCount.LinesAreEnds(s, 0);
    HeaderCount.NoEnds(s, 0, 4);
    assert HeaderCount.Ends(s, 5) == HeaderCount.Ends(s, 6) == 1;
  }
}
