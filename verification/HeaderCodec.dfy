/**
 The serialized header map of the Proxy-Wasm ABI (v0.2.1): a 32-bit count, then a (key size,
 value size) field per pair, then every key and value followed by a NUL.  The encoder fills a
 buffer of exactly the computed size (src/proxy_wasm_headers.c); the strict decoder is the one
 of the HTTP callout (src/proxy_wasm_http.c).
 */
module HeaderCodec {
  import opened Bytes

  datatype Pair = Pair(key: seq<byte>, value: seq<byte>)

  /** The size fields of the first i pairs. */
  ghost function SizeFields(ps: seq<Pair>, i: nat): (s: seq<byte>)
    requires i <= |ps|
    ensures |s| == 8 * i
  {
    if i == 0 then []
    else SizeFields(ps, i - 1) + (U32LE(|ps[i - 1].key|) + U32LE(|ps[i - 1].value|))
  }

  function Block(p: Pair): seq<byte> {
    p.key + [0] + p.value + [0]
  }

  /** The data of the first i pairs, and its length. */
  function Data(ps: seq<Pair>, i: nat): (s: seq<byte>)
    requires i <= |ps|
    ensures |s| == DataLen(ps, i)
  {
    if i == 0 then [] else Data(ps, i - 1) + Block(ps[i - 1])
  }

  function DataLen(ps: seq<Pair>, i: nat): nat
    requires i <= |ps|
  {
    if i == 0 then 0 else DataLen(ps, i - 1) + |ps[i - 1].key| + 1 + |ps[i - 1].value| + 1
  }

  ghost function Encode(ps: seq<Pair>): seq<byte> {
    U32LE(|ps|) + SizeFields(ps, |ps|) + Data(ps, |ps|)
  }

  predicate StartsWith(d: seq<byte>, s: seq<byte>) {
    |s| <= |d| && d[0..|s|] == s
  }

  predicate PairFits(p: Pair) {
    |p.key| < U32_MOD && |p.value| < U32_MOD
  }

  /** Every length is one that a 32-bit field can hold. */
  predicate Fits(ps: seq<Pair>) {
    |ps| < U32_MOD && forall i :: 0 <= i < |ps| ==> PairFits(ps[i])
  }

  /** Where the data of pair i begins in a map of n pairs. */
  function Offset(n: nat, ps: seq<Pair>, i: nat): nat
    requires i <= |ps|
  {
    4 + 8 * n + DataLen(ps, i)
  }

  /** d holds p, with its size fields at `at` and its data at `off`. */
  predicate HoldsPair(d: seq<byte>, at: nat, off: nat, p: Pair) {
    && at + 8 <= |d| && off + |Block(p)| <= |d|
    && U32At(d, at) == |p.key| && U32At(d, at + 4) == |p.value|
    && d[off..off + |Block(p)|] == Block(p)
  }

  predicate HoldsAt(d: seq<byte>, n: nat, ps: seq<Pair>, k: nat)
    requires k < |ps|
  {
    HoldsPair(d, 4 + 8 * k, Offset(n, ps, k), ps[k])
  }

  /** The first i of d's n pairs are the first i of ps. */
  predicate HoldsPairs(d: seq<byte>, n: nat, ps: seq<Pair>, i: nat)
    requires i <= |ps|
  {
    i == 0 || (HoldsPairs(d, n, ps, i - 1) && HoldsAt(d, n, ps, i - 1))
  }

  // ---------------------------------------------------------------- reading an encoding field by field

  lemma Cut(d: seq<byte>, a: nat, b: nat, c: nat)
    requires a <= b <= c <= |d|
    ensures d[a..c] == d[a..b] + d[b..c]
  {
  }

  lemma SameSplit(a: seq<byte>, b: seq<byte>, x: seq<byte>, y: seq<byte>)
    requires |a| == |x|
    ensures a + b == x + y <==> a == x && b == y
  {
    if a + b == x + y {
      assert a == (a + b)[..|a|] == (x + y)[..|x|] == x;
      assert b == (a + b)[|a|..] == (x + y)[|x|..] == y;
    }
  }

  /** Comparing a stretch of d with a concatenation is comparing its pieces. */
  lemma Pieces(d: seq<byte>, a: nat, b: nat, c: nat, x: seq<byte>, y: seq<byte>)
    requires a <= b <= c <= |d| && |x| == b - a && |y| == c - b
    ensures d[a..c] == x + y <==> d[a..b] == x && d[b..c] == y
  {
    Cut(d, a, b, c);
    SameSplit(d[a..b], d[b..c], x, y);
  }

  /** d carries these size fields after its count, and this data after room for n size fields. */
  predicate PartsAre(d: seq<byte>, n: nat, sizes: seq<byte>, data: seq<byte>) {
    && 4 + |sizes| <= |d| && d[4..4 + |sizes|] == sizes
    && 4 + 8 * n + |data| <= |d| && d[4 + 8 * n..4 + 8 * n + |data|] == data
  }

  lemma PartsAreExtend(d: seq<byte>, n: nat, at: nat, off: nat, sizes: seq<byte>, data: seq<byte>, p: Pair)
    requires 4 + 8 * n <= |d| && at == 4 + |sizes| && at + 8 <= |d| && PairFits(p)
    requires off == 4 + 8 * n + |data|
    ensures PartsAre(d, n, sizes + (U32LE(|p.key|) + U32LE(|p.value|)), data + Block(p)) <==>
              PartsAre(d, n, sizes, data) && HoldsPair(d, at, off, p)
  {
    Pieces(d, 4, at, at + 8, sizes, U32LE(|p.key|) + U32LE(|p.value|));
    Pieces(d, at, at + 4, at + 8, U32LE(|p.key|), U32LE(|p.value|));
    FieldIff(d, at, |p.key|);
    FieldIff(d, at + 4, |p.value|);
    if off + |Block(p)| <= |d| {
      Pieces(d, 4 + 8 * n, off, off + |Block(p)|, data, Block(p));
    }
  }

  /** The bytes that a list of pairs stands for are there exactly when each pair reads back. */
  lemma {:induction false} PartsIff(d: seq<byte>, n: nat, ps: seq<Pair>, i: nat)
    requires i <= |ps| && i <= n && 4 + 8 * n <= |d| && Fits(ps)
    ensures HoldsPairs(d, n, ps, i) <==> PartsAre(d, n, SizeFields(ps, i), Data(ps, i))
  {
    if i > 0 {
      PartsIff(d, n, ps, i - 1);
      PartsStep(d, n, ps, i - 1);
    }
  }

  lemma PartsStep(d: seq<byte>, n: nat, ps: seq<Pair>, k: nat)
    requires k < |ps| && k < n && 4 + 8 * n <= |d| && Fits(ps)
    ensures PartsAre(d, n, SizeFields(ps, k + 1), Data(ps, k + 1)) <==>
              PartsAre(d, n, SizeFields(ps, k), Data(ps, k)) && HoldsAt(d, n, ps, k)
  {
    var sizes, data := SizeFields(ps, k), Data(ps, k);
    assert PairFits(ps[k]);
    PartsAreExtend(d, n, 4 + 8 * k, Offset(n, ps, k), sizes, data, ps[k]);
    assert SizeFields(ps, k + 1) == sizes + (U32LE(|ps[k].key|) + U32LE(|ps[k].value|));
    assert Data(ps, k + 1) == data + Block(ps[k]);
  }

  lemma StartsWithParts(d: seq<byte>, n: nat, count: seq<byte>, sizes: seq<byte>, data: seq<byte>)
    requires |count| == 4 && |sizes| == 8 * n && 4 + 8 * n <= |d|
    ensures StartsWith(d, count + sizes + data) <==> d[0..4] == count && PartsAre(d, n, sizes, data)
  {
    var end := 4 + 8 * n + |data|;
    if end <= |d| {
      Pieces(d, 0, 4 + 8 * n, end, count + sizes, data);
      Pieces(d, 0, 4, 4 + 8 * n, count, sizes);
    }
  }

  /** d begins with the encoding of ps exactly when it begins with the count and every pair reads back. */
  lemma EncodeIff(d: seq<byte>, ps: seq<Pair>)
    requires Fits(ps)
    ensures StartsWith(d, Encode(ps)) <==>
              4 + 8 * |ps| <= |d| && d[0..4] == U32LE(|ps|) && HoldsPairs(d, |ps|, ps, |ps|)
  {
    if 4 + 8 * |ps| <= |d| {
      StartsWithParts(d, |ps|, U32LE(|ps|), SizeFields(ps, |ps|), Data(ps, |ps|));
      PartsIff(d, |ps|, ps, |ps|);
    }
  }

  /** d has p's two lengths at `at` and its key and value, each with a NUL, at `off`, octet by octet. */
  predicate Laid(d: seq<byte>, at: nat, off: nat, p: Pair) {
    && at + 8 <= |d| && off + |p.key| + 1 + |p.value| + 1 <= |d|
    && d[at..at + 4] == Octets(|p.key|) && d[at + 4..at + 8] == Octets(|p.value|)
    && d[off..off + |p.key|] == p.key && d[off + |p.key|] == 0
    && d[off + |p.key| + 1..off + |p.key| + 1 + |p.value|] == p.value && d[off + |p.key| + 1 + |p.value|] == 0
  }

  lemma BlockLaid(d: seq<byte>, off: nat, p: Pair)
    requires off + |Block(p)| <= |d| && d[off..off + |Block(p)|] == Block(p)
    ensures d[off..off + |p.key|] == p.key && d[off + |p.key|] == 0
    ensures d[off + |p.key| + 1..off + |p.key| + 1 + |p.value|] == p.value && d[off + |p.key| + 1 + |p.value|] == 0
  {
    var k, v := |p.key|, |p.value|;
    assert off + |Block(p)| == off + k + 1 + v + 1;
    Pieces(d, off, off + k + 1 + v, off + k + 1 + v + 1, p.key + [0] + p.value, [0]);
    Pieces(d, off, off + k + 1, off + k + 1 + v, p.key + [0], p.value);
    Pieces(d, off, off + k, off + k + 1, p.key, [0]);
    assert d[off + k] == d[off + k..off + k + 1][0];
    assert d[off + k + 1 + v] == d[off + k + 1 + v..off + k + 1 + v + 1][0];
  }

  lemma HeldIsLaid(d: seq<byte>, at: nat, off: nat, p: Pair)
    requires HoldsPair(d, at, off, p) && PairFits(p)
    ensures Laid(d, at, off, p)
  {
    FieldIff(d, at, |p.key|);
    FieldIff(d, at + 4, |p.value|);
    U32LEOctets(|p.key|);
    U32LEOctets(|p.value|);
    BlockLaid(d, off, p);
  }

  lemma CountFirst(ps: seq<Pair>)
    requires Fits(ps)
    ensures Encode(ps)[0..4] == Octets(|ps|)
  {
    U32LEOctets(|ps|);
    assert (U32LE(|ps|) + SizeFields(ps, |ps|) + Data(ps, |ps|))[0..4] == U32LE(|ps|);
  }

  /**
   The encoding octet by octet: the count, least significant octet first, then for each pair its two
   lengths likewise, and from 4 + 8n on, one after the other, each key and value with its NUL.
   */
  lemma EncodedOctets(ps: seq<Pair>, i: nat)
    requires Fits(ps) && i < |ps|
    ensures |Encode(ps)| == Offset(|ps|, ps, |ps|) && Encode(ps)[0..4] == Octets(|ps|)
    ensures Laid(Encode(ps), 4 + 8 * i, Offset(|ps|, ps, i), ps[i])
    ensures Offset(|ps|, ps, 0) == 4 + 8 * |ps|
    ensures Offset(|ps|, ps, i + 1) == Offset(|ps|, ps, i) + |ps[i].key| + 1 + |ps[i].value| + 1
  {
    CountFirst(ps);
    EncodingHolds(ps);
    EachLaid(Encode(ps), ps, i);
    OffsetNext(ps, i);
  }

  lemma OffsetNext(ps: seq<Pair>, i: nat)
    requires i < |ps|
    ensures Offset(|ps|, ps, 0) == 4 + 8 * |ps|
    ensures Offset(|ps|, ps, i + 1) == Offset(|ps|, ps, i) + |ps[i].key| + 1 + |ps[i].value| + 1
  {
  }

  lemma EachLaid(d: seq<byte>, ps: seq<Pair>, i: nat)
    requires Fits(ps) && i < |ps| && HoldsPairs(d, |ps|, ps, |ps|)
    ensures Laid(d, 4 + 8 * i, Offset(|ps|, ps, i), ps[i])
  {
    HoldsEach(d, |ps|, ps, i, |ps|);
    HeldIsLaid(d, 4 + 8 * i, Offset(|ps|, ps, i), ps[i]);
  }

  lemma EncodingHolds(ps: seq<Pair>)
    requires Fits(ps)
    ensures |Encode(ps)| == Offset(|ps|, ps, |ps|) && U32At(Encode(ps), 0) == |ps|
    ensures HoldsPairs(Encode(ps), |ps|, ps, |ps|)
  {
    var d := Encode(ps);
    assert d[0..|d|] == d;
    HeldByEncoding(d, ps);
  }

  lemma {:induction false} HoldsEach(d: seq<byte>, n: nat, ps: seq<Pair>, i: nat, j: nat)
    requires i < j <= |ps| && HoldsPairs(d, n, ps, j)
    ensures HoldsPairs(d, n, ps, i) && HoldsAt(d, n, ps, i)
  {
    if i < j - 1 {
      HoldsEach(d, n, ps, i, j - 1);
    }
  }

  lemma HeldPairUnique(d: seq<byte>, at: nat, off: nat, p: Pair, q: Pair)
    requires HoldsPair(d, at, off, p) && HoldsPair(d, at, off, q)
    ensures p == q
  {
    SameSplit(p.key + [0] + p.value, [0], q.key + [0] + q.value, [0]);
    SameSplit(p.key + [0], p.value, q.key + [0], q.value);
    SameSplit(p.key, [0], q.key, [0]);
  }

  /** What a buffer holds is determined: no two lists of pairs can both be read from it. */
  lemma {:induction false} HeldUnique(d: seq<byte>, n: nat, ps: seq<Pair>, qs: seq<Pair>, i: nat)
    requires i <= |ps| && i <= |qs| && HoldsPairs(d, n, ps, i) && HoldsPairs(d, n, qs, i)
    ensures DataLen(ps, i) == DataLen(qs, i)
    ensures forall j :: 0 <= j < i ==> ps[j] == qs[j]
  {
    if i > 0 {
      HeldUnique(d, n, ps, qs, i - 1);
      HeldPairUnique(d, 4 + 8 * (i - 1), Offset(n, ps, i - 1), ps[i - 1], qs[i - 1]);
    }
  }

  lemma {:induction false} Extended(d: seq<byte>, n: nat, ps: seq<Pair>, p: Pair, i: nat)
    requires i <= |ps|
    ensures DataLen(ps + [p], i) == DataLen(ps, i)
    ensures HoldsPairs(d, n, ps + [p], i) == HoldsPairs(d, n, ps, i)
  {
    if i > 0 {
      Extended(d, n, ps, p, i - 1);
    }
  }

  lemma Append(d: seq<byte>, n: nat, ps: seq<Pair>, p: Pair)
    requires HoldsPairs(d, n, ps, |ps|) && HoldsPair(d, 4 + 8 * |ps|, Offset(n, ps, |ps|), p)
    ensures HoldsPairs(d, n, ps + [p], |ps| + 1)
    ensures Offset(n, ps + [p], |ps| + 1) == Offset(n, ps, |ps|) + |p.key| + 1 + |p.value| + 1
  {
    Extended(d, n, ps, p, |ps|);
    assert HoldsAt(d, n, ps + [p], |ps|);
  }

  // ---------------------------------------------------------------- the encoder

  /** memcpy(dst + off, src, |src|). */
  method CopyInto(dst: array<byte>, off: nat, src: seq<byte>)
    requires off + |src| <= dst.Length
    modifies dst
    ensures dst[..off + |src|] == old(dst[..off]) + src
  {
    for i := 0 to |src|
      invariant dst[..off] == old(dst[..off])
      invariant dst[off..off + i] == src[..i]
    {
      dst[off + i] := src[i];
    }
    assert src[..|src|] == src;
    assert dst[..off + |src|] == dst[..off] + dst[off..off + |src|];
  }

  /** Three passes: the exact size, the count and size fields, then the data. */
  method EncodePairs(ps: seq<Pair>) returns (buf: array<byte>)
    ensures fresh(buf) && buf[..] == Encode(ps)
  {
    var size := 4 + 8 * |ps|;
    for i := 0 to |ps|
      invariant size == 4 + 8 * |ps| + DataLen(ps, i)
    {
      size := size + |ps[i].key| + 1 + |ps[i].value| + 1;
    }
    buf := new byte[size](_ => 0);
    WriteFields(buf, ps);
    WriteData(buf, ps);
  }

  method WriteFields(buf: array<byte>, ps: seq<Pair>)
    requires 4 + 8 * |ps| <= buf.Length
    modifies buf
    ensures buf[..4 + 8 * |ps|] == U32LE(|ps|) + SizeFields(ps, |ps|)
  {
    PutField(buf, 0, |ps|);
    assert buf[..0] == [];
    for i := 0 to |ps|
      invariant buf[..4 + 8 * i] == U32LE(|ps|) + SizeFields(ps, i)
    {
      PutSizes(buf, 4 + 8 * i, ps[i]);
    }
  }

  method PutSizes(buf: array<byte>, off: nat, p: Pair)
    requires off + 8 <= buf.Length
    modifies buf
    ensures buf[..off + 8] == old(buf[..off]) + (U32LE(|p.key|) + U32LE(|p.value|))
  {
    PutField(buf, off, |p.key|);
    PutField(buf, off + 4, |p.value|);
  }

  method PutField(buf: array<byte>, off: nat, v: nat)
    requires off + 4 <= buf.Length
    modifies buf
    ensures buf[..off + 4] == old(buf[..off]) + U32LE(v)
  {
    var field := LE(4, v % U32_MOD);
    OctetsReadBack(v % U32_MOD);
    FromLEInjective(field, U32LE(v));
    CopyInto(buf, off, field);
  }

  lemma {:induction false} DataLenGrows(ps: seq<Pair>, i: nat, j: nat)
    requires i <= j <= |ps|
    ensures DataLen(ps, i) <= DataLen(ps, j)
  {
    if i < j {
      DataLenGrows(ps, i, j - 1);
    }
  }

  method WriteData(buf: array<byte>, ps: seq<Pair>)
    requires 4 + 8 * |ps| + DataLen(ps, |ps|) == buf.Length
    modifies buf
    ensures buf[..] == old(buf[..4 + 8 * |ps|]) + Data(ps, |ps|)
  {
    var off := 4 + 8 * |ps|;
    ghost var head := buf[..off];
    off := PutAll(buf, off, ps, head);
    assert buf[..] == buf[..off];
  }

  method PutAll(buf: array<byte>, start: nat, ps: seq<Pair>, ghost head: seq<byte>) returns (off: nat)
    requires start == |head| && start + DataLen(ps, |ps|) <= buf.Length && buf[..start] == head
    modifies buf
    ensures off == start + DataLen(ps, |ps|) && buf[..off] == head + Data(ps, |ps|)
  {
    off := start;
    ghost var data: seq<byte> := [];
    for i := 0 to |ps|
      invariant data == Data(ps, i) && off == start + |data| <= buf.Length && buf[..off] == head + data
    {
      DataLenGrows(ps, i + 1, |ps|);
      off := PutNext(buf, off, ps[i], head, data);
      data := data + Block(ps[i]);
    }
  }

  /** The data of one pair, behind that of the pairs before it. */
  method PutNext(buf: array<byte>, off: nat, p: Pair, ghost head: seq<byte>, ghost data: seq<byte>)
      returns (off': nat)
    requires off + |Block(p)| <= buf.Length && buf[..off] == head + data
    modifies buf
    ensures off' == off + |Block(p)| && buf[..off'] == head + (data + Block(p))
  {
    Assoc(head, data, Block(p));
    off' := PutBlock(buf, off, p);
  }

  method PutBlock(buf: array<byte>, off: nat, p: Pair) returns (off': nat)
    requires off + |Block(p)| <= buf.Length
    modifies buf
    ensures off' == off + |Block(p)| && buf[..off'] == old(buf[..off]) + Block(p)
  {
    off' := PutString(buf, off, p.key);
    off' := PutString(buf, off', p.value);
  }

  method PutString(buf: array<byte>, off: nat, s: seq<byte>) returns (off': nat)
    requires off + |s| + 1 <= buf.Length
    modifies buf
    ensures off' == off + |s| + 1 && buf[..off'] == old(buf[..off]) + s + [0]
  {
    CopyInto(buf, off, s);
    buf[off + |s|] := 0;
    off' := off + |s| + 1;
    assert buf[..off'] == buf[..off + |s|] + [0];
  }

  /** The size query: the same sum in 32 bits, without building the buffer. */
  method ComputeSize(ps: seq<Pair>) returns (size: nat)
    ensures size == |Encode(ps)| % U32_MOD
  {
    size := (4 + 8 * |ps|) % U32_MOD;
    for i := 0 to |ps|
      invariant size == (4 + 8 * |ps| + DataLen(ps, i)) % U32_MOD
    {
      AddMod(4 + 8 * |ps| + DataLen(ps, i), |ps[i].key| + 1 + |ps[i].value| + 1);
      size := (size + |ps[i].key| + 1 + |ps[i].value| + 1) % U32_MOD;
    }
  }

  lemma AddMod(a: nat, b: nat)
    ensures (a % U32_MOD + b) % U32_MOD == (a + b) % U32_MOD
  {
  }

  // ---------------------------------------------------------------- the strict decoder

  const MAX_PAIRS: nat := 64

  /** Some list of at most 64 pairs is encoded at the front of d. */
  ghost predicate Decodable(d: seq<byte>) {
    exists ps: seq<Pair> :: |ps| <= 64 && Fits(ps) && StartsWith(d, Encode(ps))
  }

  /**
   Accepts exactly the buffers that begin with an encoding, and returns what is encoded; bytes
   after the last pair are ignored.
   */
  method DecodeStrict(d: seq<byte>) returns (r: Option<seq<Pair>>)
    requires |d| < U32_MOD
    ensures r.Some? ==> |r.value| <= 64 && Fits(r.value) && StartsWith(d, Encode(r.value))
    ensures r.None? ==> !Decodable(d)
  {
    if |d| < 4 {
      return None;
    }
    var n := U32At(d, 0);
    if n > MAX_PAIRS || 4 + n * 8 > |d| {
      NotDecodable(d, n, []);
      return None;
    }
    r := DecodePairs(d, n);
    if r.Some? {
      FieldIff(d, 0, n);
      EncodeIff(d, r.value);
    }
  }

  method DecodePairs(d: seq<byte>, n: nat) returns (r: Option<seq<Pair>>)
    requires 4 + 8 * n <= |d| < U32_MOD && n == U32At(d, 0)
    ensures r.Some? ==> |r.value| == n && Fits(r.value) && HoldsPairs(d, n, r.value, n)
    ensures r.None? ==> !Decodable(d)
  {
    var off := 4 + n * 8;
    var ps: seq<Pair> := [];
    while |ps| < n
      invariant |ps| <= n && off == Offset(n, ps, |ps|) <= |d|
      invariant HoldsPairs(d, n, ps, |ps|) && Fits(ps)
    {
      var p := ReadPair(d, 4 + 8 * |ps|, off);
      if p.None? {
        NotDecodable(d, n, ps);
        return None;
      }
      Append(d, n, ps, p.value);
      ps := ps + [p.value];
      off := off + |p.value.key| + 1 + |p.value.value| + 1;
    }
    return Some(ps);
  }

  /** The body of the decoding loop: bounds and terminators are checked before anything is taken. */
  method ReadPair(d: seq<byte>, at: nat, off: nat) returns (r: Option<Pair>)
    requires off <= |d| < U32_MOD && at + 8 <= |d|
    ensures r.Some? ==> HoldsPair(d, at, off, r.value) && PairFits(r.value)
    ensures r.None? ==> !Readable(d, at, off)
  {
    var ks, vs := U32At(d, at), U32At(d, at + 4);
    if ks + 1 > |d| - off || d[off + ks] != 0 {
      return None;
    }
    var voff := off + ks + 1;
    if vs + 1 > |d| - voff || d[voff + vs] != 0 {
      return None;
    }
    var p := Pair(d[off..off + ks], d[voff..voff + vs]);
    BlockAt(d, off, p);
    return Some(p);
  }

  lemma BlockAt(d: seq<byte>, off: nat, p: Pair)
    requires off + |Block(p)| <= |d|
    requires d[off..off + |p.key|] == p.key && d[off + |p.key|] == 0
    requires var v := off + |p.key| + 1; d[v..v + |p.value|] == p.value && d[v + |p.value|] == 0
    ensures d[off..off + |Block(p)|] == Block(p)
  {
  }

  /** There is room for the announced key and value, and both terminators are there. */
  predicate Readable(d: seq<byte>, at: nat, off: nat)
    requires off <= |d| && at + 8 <= |d|
  {
    var ks, vs := U32At(d, at), U32At(d, at + 4);
    && off + ks + 1 + vs + 1 <= |d| && d[off + ks] == 0 && d[off + ks + 1 + vs] == 0
  }

  lemma ReadableAt(d: seq<byte>, n: nat, ps: seq<Pair>, k: nat, off: nat)
    requires k < |ps| && HoldsAt(d, n, ps, k) && off == Offset(n, ps, k)
    ensures off <= |d| && 4 + 8 * k + 8 <= |d| && Readable(d, 4 + 8 * k, off)
  {
    var p := ps[k];
    var block := d[off..off + |Block(p)|];
    assert block[|p.key|] == 0 && block[|p.key| + 1 + |p.value|] == 0;
  }

  /** ps is what d holds so far, and the next of its n pairs cannot be read. */
  predicate Stuck(d: seq<byte>, n: nat, ps: seq<Pair>) {
    && |ps| < n && Offset(n, ps, |ps|) <= |d| && 4 + 8 * |ps| + 8 <= |d|
    && !Readable(d, 4 + 8 * |ps|, Offset(n, ps, |ps|))
  }

  lemma NotDecodable(d: seq<byte>, n: nat, ps: seq<Pair>)
    requires 4 <= |d| < U32_MOD && n == U32At(d, 0)
    requires HoldsPairs(d, n, ps, |ps|)
    requires n > MAX_PAIRS || 4 + 8 * n > |d| || Stuck(d, n, ps)
    ensures !Decodable(d)
  {
    forall qs: seq<Pair> | |qs| <= MAX_PAIRS && Fits(qs)
      ensures !StartsWith(d, Encode(qs))
    {
      if StartsWith(d, Encode(qs)) {
        HeldByEncoding(d, qs);
        NotStuck(d, n, ps, qs);
      }
    }
  }

  /** While d holds n pairs qs, what was read so far can be read on. */
  lemma NotStuck(d: seq<byte>, n: nat, ps: seq<Pair>, qs: seq<Pair>)
    requires |qs| == n && HoldsPairs(d, n, qs, n) && HoldsPairs(d, n, ps, |ps|)
    ensures !Stuck(d, n, ps)
  {
    if |ps| < n {
      NextReadable(d, n, ps, qs, |ps|, Offset(n, ps, |ps|));
    }
  }

  lemma NextReadable(d: seq<byte>, n: nat, ps: seq<Pair>, qs: seq<Pair>, k: nat, off: nat)
    requires HoldsPairs(d, n, qs, |qs|) && HoldsPairs(d, n, ps, |ps|) && k == |ps| < |qs| && off == Offset(n, ps, k)
    ensures off <= |d| && 4 + 8 * k + 8 <= |d| && Readable(d, 4 + 8 * k, off)
  {
    NextHeld(d, n, ps, qs);
    ReadableAt(d, n, qs, k, off);
  }

  lemma HeldByEncoding(d: seq<byte>, qs: seq<Pair>)
    requires Fits(qs) && StartsWith(d, Encode(qs))
    ensures 4 + 8 * |qs| <= Offset(|qs|, qs, |qs|) <= |d|
    ensures U32At(d, 0) == |qs| && HoldsPairs(d, |qs|, qs, |qs|)
  {
    EncodeIff(d, qs);
    FieldReads(d, |qs|);
  }

  lemma NextHeld(d: seq<byte>, n: nat, ps: seq<Pair>, qs: seq<Pair>)
    requires HoldsPairs(d, n, qs, |qs|) && HoldsPairs(d, n, ps, |ps|) && |ps| < |qs|
    ensures Offset(n, ps, |ps|) == Offset(n, qs, |ps|) && HoldsAt(d, n, qs, |ps|)
  {
    HoldsEach(d, n, qs, |ps|, |qs|);
    HeldUnique(d, n, ps, qs, |ps|);
  }

  // ---------------------------------------------------------------- mutual inverses

  /** At most one list of pairs is encoded at the front of a buffer. */
  lemma EncodeInjective(ps: seq<Pair>, qs: seq<Pair>, d: seq<byte>)
    requires Fits(ps) && Fits(qs) && StartsWith(d, Encode(ps)) && StartsWith(d, Encode(qs))
    ensures ps == qs
  {
    HeldByEncoding(d, ps);
    HeldByEncoding(d, qs);
    HeldUnique(d, |ps|, ps, qs, |ps|);
  }

  /** Decoding an encoding, whatever follows it, gives back the pairs; more than 64 are refused. */
  method RoundTrip(ps: seq<Pair>, rest: seq<byte>) returns (r: Option<seq<Pair>>)
    requires Fits(ps) && |Encode(ps)| + |rest| < U32_MOD
    ensures r == if |ps| <= 64 then Some(ps) else None
  {
    var buf := EncodePairs(ps);
    var d := buf[..] + rest;
    assert d[0..|Encode(ps)|] == Encode(ps);
    r := DecodeStrict(d);
    if r.Some? {
      EncodeInjective(ps, r.value, d);
    }
  }
}
