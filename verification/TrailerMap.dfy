/**
 Trailer maps and the lenient decoder of proxy_set_header_map_pairs (src/proxy_wasm_headers.c).

 The decoder computes every offset in 32 bits from size fields the guest chose freely.  What it
 stores is described by spans (offset and length of key and value), so that the claim "inside the
 data" can be made, and refuted, without presuming it.
 */
module TrailerMap {
  import opened Bytes
  import opened HeaderCodec

  const MAX_TRAILERS: nat := 32
  const MAX_SET_PAIRS: nat := 256

  datatype Span = Span(keyOff: nat, keyLen: nat, valOff: nat, valLen: nat)

  predicate Stored(ks: nat, vs: nat) {
    0 < ks < 256 && vs < 4096
  }

  predicate Inside(s: Span, size: nat) {
    s.keyOff + s.keyLen <= size && s.valOff + s.valLen <= size
  }

  function Add32(a: nat, b: nat): nat {
    (a + b) % U32_MOD
  }

  /** The spans stored by the loop from pair i on, the running offset being off. */
  function Spans(d: seq<byte>, n: nat, i: nat, off: nat): seq<Span>
    requires i <= n && 4 + 8 * n <= |d|
    decreases n - i
  {
    if i == n then []
    else
      var ks, vs := U32At(d, 4 + 8 * i), U32At(d, 4 + 8 * i + 4);
      if Add32(off, ks + 1 + vs + 1) > |d| then []
      else
        var voff := Add32(off, ks + 1);
        var rest := Spans(d, n, i + 1, Add32(voff, vs + 1));
        if Stored(ks, vs) then [Span(off, ks, voff, vs)] + rest else rest
  }

  /** None: the call is refused before anything is changed. */
  function SetSpans(d: seq<byte>): Option<seq<Span>> {
    if |d| < 4 then None
    else
      var n := U32At(d, 0);
      if n > MAX_SET_PAIRS || |d| < 4 + 8 * n then None
      else Some(Spans(d, n, 0, 4 + 8 * n))
  }

  // ---------------------------------------------------------------- bounds of what is stored

  const SAFE_SIZE: nat := U32_MOD - 4353

  lemma {:induction false} SpansInside(d: seq<byte>, n: nat, i: nat, off: nat)
    requires i <= n && 4 + 8 * n <= |d| <= SAFE_SIZE && off <= |d|
    ensures forall s :: s in Spans(d, n, i, off) ==> Inside(s, |d|)
    decreases n - i
  {
    if i < n {
      var ks, vs := U32At(d, 4 + 8 * i), U32At(d, 4 + 8 * i + 4);
      if Add32(off, ks + 1 + vs + 1) <= |d| {
        var voff := Add32(off, ks + 1);
        AddAssoc(off, ks + 1, vs + 1);
        SpansInside(d, n, i + 1, Add32(voff, vs + 1));
        if Stored(ks, vs) {
          NoWrap(off, ks + 1 + vs + 1);
          NoWrap(off, ks + 1);
        }
      }
    }
  }

  lemma AddAssoc(a: nat, b: nat, c: nat)
    ensures Add32(Add32(a, b), c) == Add32(a, b + c)
  {
    AddMod(a + b, c);
  }

  lemma NoWrap(a: nat, b: nat)
    requires a + b < U32_MOD
    ensures Add32(a, b) == a + b
  {
  }

  /** Every pair the decoder stores lies wholly inside the given bytes, for every data_size up to 2^32 - 4353. */
  lemma StoredInside(d: seq<byte>)
    requires |d| <= SAFE_SIZE
    ensures SetSpans(d).Some? ==> forall s :: s in SetSpans(d).value ==> Inside(s, |d|)
  {
    if SetSpans(d).Some? {
      SpansInside(d, U32At(d, 0), 0, 4 + 8 * U32At(d, 0));
    }
  }

  /** What is stored comes from the data itself. */
  predicate AllInside(spans: seq<Span>, size: nat) {
    forall i :: 0 <= i < |spans| ==> Inside(spans[i], size)
  }

  lemma SafeAllInside(d: seq<byte>)
    requires |d| <= SAFE_SIZE
    ensures SetSpans(d).Some? ==> AllInside(SetSpans(d).value, |d|)
  {
    StoredInside(d);
    if SetSpans(d).Some? {
      var spans := SetSpans(d).value;
      assert forall i :: 0 <= i < |spans| ==> spans[i] in spans;
    }
  }

  /** A buffer of this size whose first pair fills it and whose second pair wraps past its end. */
  ghost function Escaping(size: nat): seq<byte>
    requires SAFE_SIZE < size < U32_MOD
  {
    U32LE(2) + U32LE(size - 22) + U32LE(0) + U32LE(255) + U32LE(4095) + seq(size - 20, i => 0)
  }

  lemma EscapingFields(size: nat)
    requires SAFE_SIZE < size < U32_MOD
    ensures var d := Escaping(size);
            && |d| == size && U32At(d, 0) == 2
            && U32At(d, 4) == size - 22 && U32At(d, 8) == 0
            && U32At(d, 12) == 255 && U32At(d, 16) == 4095
  {
    var d := Escaping(size);
    assert d[0..4] == U32LE(2);
    assert d[4..8] == U32LE(size - 22);
    assert d[8..12] == U32LE(0);
    assert d[12..16] == U32LE(255);
    assert d[16..20] == U32LE(4095);
  }

  /** Beyond that size the bound fails: some buffer makes the decoder store bytes outside it. */
  lemma LargerSizesEscape(size: nat)
    requires SAFE_SIZE < size < U32_MOD
    ensures exists d: seq<byte> ::
              |d| == size && SetSpans(d).Some? && exists s :: s in SetSpans(d).value && !Inside(s, size)
  {
    var d := Escaping(size);
    EscapingFields(size);
    var s := Span(size, 255, Add32(size, 256), 4095);
    NoWrap(20, size - 22 + 1 + 0 + 1);
    NoWrap(20, size - 22 + 1);
    NoWrap(size - 1, 1);
    assert Add32(size, 255 + 1 + 4095 + 1) == size + 4352 - U32_MOD;
    assert Spans(d, 2, 2, Add32(Add32(size, 256), 4096)) == [];
    assert Spans(d, 2, 1, size) == [s];
    assert Spans(d, 2, 0, 20) == [s];
    assert s in SetSpans(d).value && !Inside(s, size);
  }

  /** The stored pairs are inside the data, whatever the data says, exactly up to 2^32 - 4353 bytes. */
  lemma InsideIff(size: nat)
    requires size < U32_MOD
    ensures (forall d: seq<byte> :: |d| == size && SetSpans(d).Some? ==>
               forall s :: s in SetSpans(d).value ==> Inside(s, size)) <==> size <= SAFE_SIZE
  {
    if size <= SAFE_SIZE {
      forall d: seq<byte> | |d| == size && SetSpans(d).Some?
        ensures forall s :: s in SetSpans(d).value ==> Inside(s, size)
      {
        StoredInside(d);
      }
    } else {
      LargerSizesEscape(size);
    }
  }

  /** At most 4351 bytes past the data are ever looked at. */
  const REACH: nat := 4351

  lemma AddLe(a: nat, b: nat)
    ensures Add32(a, b) <= a + b
  {
  }

  lemma InsideCons(s: Span, rest: seq<Span>, size: nat)
    requires Inside(s, size) && AllInside(rest, size)
    ensures AllInside([s] + rest, size)
  {
  }

  lemma {:induction false} SpansReach(d: seq<byte>, n: nat, i: nat, off: nat)
    requires i <= n && 4 + 8 * n <= |d| && off <= |d|
    ensures AllInside(Spans(d, n, i, off), |d| + REACH)
    decreases n - i
  {
    if i < n {
      var ks, vs := U32At(d, 4 + 8 * i), U32At(d, 4 + 8 * i + 4);
      if Add32(off, ks + 1 + vs + 1) <= |d| {
        var voff := Add32(off, ks + 1);
        AddAssoc(off, ks + 1, vs + 1);
        var rest := Spans(d, n, i + 1, Add32(voff, vs + 1));
        SpansReach(d, n, i + 1, Add32(voff, vs + 1));
        if Stored(ks, vs) {
          AddLe(off, ks + 1);
          InsideCons(Span(off, ks, voff, vs), rest, |d| + REACH);
        }
      }
    }
  }

  lemma StoredReach(d: seq<byte>)
    ensures SetSpans(d).Some? ==> AllInside(SetSpans(d).value, |d| + REACH)
  {
    if SetSpans(d).Some? {
      SpansReach(d, U32At(d, 0), 0, 4 + 8 * U32At(d, 0));
    }
  }

  // ---------------------------------------------------------------- what an encoding stores

  function Contents(d: seq<byte>, s: Span): Pair
    requires Inside(s, |d|)
  {
    Pair(d[s.keyOff..s.keyOff + s.keyLen], d[s.valOff..s.valOff + s.valLen])
  }

  /** These spans lie inside d and their contents are qs. */
  predicate Recovers(d: seq<byte>, spans: seq<Span>, qs: seq<Pair>) {
    && |spans| == |qs|
    && forall i :: 0 <= i < |spans| ==> Inside(spans[i], |d|) && Contents(d, spans[i]) == qs[i]
  }

  lemma RecoversCons(d: seq<byte>, s: Span, rest: seq<Span>, qs: seq<Pair>)
    requires Inside(s, |d|) && Recovers(d, rest, qs)
    ensures Recovers(d, [s] + rest, [Contents(d, s)] + qs)
  {
  }

  lemma RecoversSnoc(d: seq<byte>, done: seq<Span>, s: Span, got: seq<Pair>)
    requires Inside(s, |d|) && Recovers(d, done, got)
    ensures Recovers(d, done + [s], got + [Contents(d, s)])
  {
  }

  /** A trailer has a name of 1 to 255 bytes and a value of at most 4095. */
  predicate IsTrailer(p: Pair) {
    1 <= |p.key| <= 255 && |p.value| <= 4095
  }

  /** The trailers among the pairs from i up to j, in order. */
  function TrailersIn(ps: seq<Pair>, i: nat, j: nat): (r: seq<Pair>)
    requires i <= j <= |ps|
    ensures |r| <= j - i
    decreases j - i
  {
    if i == j then []
    else if IsTrailer(ps[i]) then [ps[i]] + TrailersIn(ps, i + 1, j)
    else TrailersIn(ps, i + 1, j)
  }

  /** d begins with the encoding of ps, or is the front of it that holds just its first j pairs whole. */
  predicate CutAt(d: seq<byte>, ps: seq<Pair>, j: nat) {
    && j <= |ps| <= 256 && 4 + 8 * |ps| <= |d| < U32_MOD && Offset(|ps|, ps, |ps|) < U32_MOD
    && U32At(d, 0) == |ps| && HoldsPairs(d, |ps|, ps, j)
    && (j < |ps| ==> EndsInside(d, ps, j))
  }

  /** The size fields of pair j are there, its data is not. */
  predicate EndsInside(d: seq<byte>, ps: seq<Pair>, j: nat)
    requires j < |ps| && 4 + 8 * |ps| <= |d|
  {
    && U32At(d, 4 + 8 * j) == |ps[j].key| && U32At(d, 4 + 8 * j + 4) == |ps[j].value|
    && |d| < Offset(|ps|, ps, j + 1)
  }

  function OwnSpan(ps: seq<Pair>, i: nat): Span
    requires i < |ps|
  {
    var off := Offset(|ps|, ps, i);
    Span(off, |ps[i].key|, off + |ps[i].key| + 1, |ps[i].value|)
  }

  lemma OwnSpanContents(d: seq<byte>, ps: seq<Pair>, i: nat)
    requires i < |ps| && HoldsAt(d, |ps|, ps, i)
    ensures Inside(OwnSpan(ps, i), |d|) && Contents(d, OwnSpan(ps, i)) == ps[i]
  {
    BlockLaid(d, Offset(|ps|, ps, i), ps[i]);
  }

  /** A pair that ends inside the data: no offset wraps. */
  lemma SpansAt(d: seq<byte>, n: nat, i: nat, off: nat, k: nat, v: nat)
    requires i < n && 4 + 8 * n <= |d| < U32_MOD && off + k + 1 + v + 1 <= |d|
    requires U32At(d, 4 + 8 * i) == k && U32At(d, 4 + 8 * i + 4) == v
    ensures Spans(d, n, i, off)
         == (if Stored(k, v) then [Span(off, k, off + k + 1, v)] else []) + Spans(d, n, i + 1, off + k + 1 + v + 1)
  {
    NoWrap(off, k + 1 + v + 1);
    NoWrap(off, k + 1);
    NoWrap(off + k + 1, v + 1);
  }

  /** Decoding pair i of an encoding takes it back if it is a trailer, and otherwise skips it. */
  lemma OwnSpans(d: seq<byte>, ps: seq<Pair>, i: nat)
    requires i < |ps| && HoldsAt(d, |ps|, ps, i) && 4 + 8 * |ps| <= |d| < U32_MOD
    ensures Spans(d, |ps|, i, Offset(|ps|, ps, i))
         == (if IsTrailer(ps[i]) then [OwnSpan(ps, i)] else []) + Spans(d, |ps|, i + 1, Offset(|ps|, ps, i + 1))
  {
    var off, k, v := Offset(|ps|, ps, i), |ps[i].key|, |ps[i].value|;
    assert Offset(|ps|, ps, i + 1) == off + k + 1 + v + 1;
    SpansAt(d, |ps|, i, off, k, v);
  }

  lemma OwnStep(d: seq<byte>, ps: seq<Pair>, i: nat, rest: seq<Span>, qs: seq<Pair>)
    requires i < |ps| && HoldsAt(d, |ps|, ps, i) && 4 + 8 * |ps| <= |d| < U32_MOD
    requires rest == Spans(d, |ps|, i + 1, Offset(|ps|, ps, i + 1)) && Recovers(d, rest, qs)
    ensures Recovers(d, Spans(d, |ps|, i, Offset(|ps|, ps, i)), if IsTrailer(ps[i]) then [ps[i]] + qs else qs)
  {
    OwnSpans(d, ps, i);
    if IsTrailer(ps[i]) {
      OwnSpanContents(d, ps, i);
      RecoversCons(d, OwnSpan(ps, i), rest, qs);
    } else {
      assert [] + rest == rest;
    }
  }

  /** The loop stops at a pair whose data is not all there. */
  lemma StopsAt(d: seq<byte>, ps: seq<Pair>, j: nat)
    requires CutAt(d, ps, j)
    ensures Spans(d, |ps|, j, Offset(|ps|, ps, j)) == []
  {
    if j < |ps| {
      var off, k, v := Offset(|ps|, ps, j), |ps[j].key|, |ps[j].value|;
      DataLenGrows(ps, j + 1, |ps|);
      assert Offset(|ps|, ps, j + 1) == off + k + 1 + v + 1;
      NoWrap(off, k + 1 + v + 1);
    }
  }

  lemma {:induction false} SpansOfOwn(d: seq<byte>, ps: seq<Pair>, i: nat, j: nat)
    requires i <= j && CutAt(d, ps, j)
    ensures Recovers(d, Spans(d, |ps|, i, Offset(|ps|, ps, i)), TrailersIn(ps, i, j))
    decreases j - i
  {
    if i == j {
      StopsAt(d, ps, j);
    } else {
      SpansOfOwn(d, ps, i + 1, j);
      HoldsEach(d, |ps|, ps, i, j);
      OwnStep(d, ps, i, Spans(d, |ps|, i + 1, Offset(|ps|, ps, i + 1)), TrailersIn(ps, i + 1, j));
    }
  }

  /** The decoder, given an encoding or a front of one, stores the trailers among the pairs that are all there. */
  lemma EncodingStored(d: seq<byte>, ps: seq<Pair>, j: nat)
    requires CutAt(d, ps, j)
    ensures SetSpans(d).Some? && Recovers(d, SetSpans(d).value, TrailersIn(ps, 0, j))
  {
    OffsetStart(ps);
    SpansOfOwn(d, ps, 0, j);
  }

  lemma OffsetStart(ps: seq<Pair>)
    ensures Offset(|ps|, ps, 0) == 4 + 8 * |ps|
  {
  }

  /** What begins with the encoding of up to 256 pairs is cut nowhere; with that of more it is refused. */
  lemma WholeEncoding(d: seq<byte>, ps: seq<Pair>)
    requires Fits(ps) && StartsWith(d, Encode(ps)) && |d| < U32_MOD
    ensures if |ps| <= 256 then CutAt(d, ps, |ps|) else SetSpans(d) == None
  {
    HeldByEncoding(d, ps);
  }

  /** What is recovered from memory that goes on behind an encoding, or a front of one. */
  lemma StoredAre(m: seq<byte>, size: nat, ps: seq<Pair>, j: nat, all: seq<Pair>)
    requires size <= |m| && CutAt(m[..size], ps, j)
    requires SetSpans(m[..size]).Some? && Recovers(m, SetSpans(m[..size]).value, all)
    ensures all == TrailersIn(ps, 0, j)
  {
    EncodingStored(m[..size], ps, j);
    RecoversOne(m, size, SetSpans(m[..size]).value, all, TrailersIn(ps, 0, j));
  }

  lemma RecoversOne(m: seq<byte>, size: nat, spans: seq<Span>, all: seq<Pair>, qs: seq<Pair>)
    requires size <= |m| && Recovers(m, spans, all) && Recovers(m[..size], spans, qs)
    ensures all == qs
  {
    forall i | 0 <= i < |spans|
      ensures all[i] == qs[i]
    {
      var s := spans[i];
      assert m[..size][s.keyOff..s.keyOff + s.keyLen] == m[s.keyOff..s.keyOff + s.keyLen];
      assert m[..size][s.valOff..s.valOff + s.valLen] == m[s.valOff..s.valOff + s.valLen];
    }
  }

  lemma FieldOfFront(d: seq<byte>, m: nat, i: nat)
    requires i + 4 <= m <= |d|
    ensures U32At(d[..m], i) == U32At(d, i)
  {
    assert d[..m][i..i + 4] == d[i..i + 4];
  }

  lemma {:induction false} HeldByFront(d: seq<byte>, m: nat, ps: seq<Pair>, j: nat)
    requires j <= |ps| && HoldsPairs(d, |ps|, ps, j) && 4 + 8 * |ps| <= m <= |d| && Offset(|ps|, ps, j) <= m
    ensures HoldsPairs(d[..m], |ps|, ps, j)
  {
    if j > 0 {
      HeldByFront(d, m, ps, j - 1);
      PairOfFront(d, m, 4 + 8 * (j - 1), Offset(|ps|, ps, j - 1), ps[j - 1]);
    }
  }

  lemma PairOfFront(d: seq<byte>, m: nat, at: nat, off: nat, p: Pair)
    requires HoldsPair(d, at, off, p) && at + 8 <= m <= |d| && off + |Block(p)| <= m
    ensures HoldsPair(d[..m], at, off, p)
  {
    FieldOfFront(d, m, at);
    FieldOfFront(d, m, at + 4);
    assert d[..m][off..off + |Block(p)|] == d[off..off + |Block(p)|];
  }

  /** A front of what begins with an encoding (HeldByEncoding), cut inside the data of pair j. */
  lemma FrontOfEncoding(d: seq<byte>, ps: seq<Pair>, m: nat, j: nat)
    requires j < |ps| <= 256 && Offset(|ps|, ps, |ps|) <= |d| < U32_MOD
    requires U32At(d, 0) == |ps| && HoldsPairs(d, |ps|, ps, |ps|)
    requires Offset(|ps|, ps, j) <= m < Offset(|ps|, ps, j + 1)
    ensures m <= |d| && CutAt(d[..m], ps, j)
  {
    DataLenGrows(ps, j + 1, |ps|);
    HoldsEach(d, |ps|, ps, j, |ps|);
    FrontHolds(d, ps, m, j);
  }

  lemma FrontHolds(d: seq<byte>, ps: seq<Pair>, m: nat, j: nat)
    requires j < |ps| && 4 + 8 * |ps| <= m <= |d| && Offset(|ps|, ps, j) <= m < Offset(|ps|, ps, j + 1)
    requires U32At(d, 0) == |ps| && HoldsPairs(d, |ps|, ps, j) && HoldsAt(d, |ps|, ps, j)
    ensures U32At(d[..m], 0) == |ps| && HoldsPairs(d[..m], |ps|, ps, j) && EndsInside(d[..m], ps, j)
  {
    HeldByFront(d, m, ps, j);
    FieldOfFront(d, m, 0);
    FieldOfFront(d, m, 4 + 8 * j);
    FieldOfFront(d, m, 4 + 8 * j + 4);
  }

  // ---------------------------------------------------------------- a map and its own encoding

  predicate TrailerFits(p: Pair) {
    |p.key| < 256 && |p.value| < 4096
  }

  /** What the trailer operations keep: at most 32 entries within the buffer limits. */
  predicate ValidEntries(ps: seq<Pair>) {
    |ps| <= MAX_TRAILERS && forall i :: 0 <= i < |ps| ==> TrailerFits(ps[i])
  }

  lemma {:induction false} DataLenBound(ps: seq<Pair>, i: nat)
    requires i <= |ps| && ValidEntries(ps)
    ensures DataLen(ps, i) <= 4353 * i
  {
    if i > 0 {
      DataLenBound(ps, i - 1);
      assert TrailerFits(ps[i - 1]);
    }
  }

  lemma EncodingSmall(ps: seq<Pair>)
    requires ValidEntries(ps)
    ensures Fits(ps) && |Encode(ps)| <= SAFE_SIZE
  {
    DataLenBound(ps, |ps|);
    forall i | 0 <= i < |ps|
      ensures PairFits(ps[i])
    {
      assert TrailerFits(ps[i]);
    }
  }

  /** The decoder, given a map's own encoding, stores the entries that have a name. */
  lemma OwnEncoding(ps: seq<Pair>)
    requires ValidEntries(ps)
    ensures |Encode(ps)| <= SAFE_SIZE && SetSpans(Encode(ps)).Some?
    ensures Recovers(Encode(ps), SetSpans(Encode(ps)).value, TrailersIn(ps, 0, |ps|))
  {
    var d := Encode(ps);
    EncodingSmall(ps);
    assert d[0..|d|] == d;
    WholeEncoding(d, ps);
    EncodingStored(d, ps, |ps|);
  }

  /** Before pair i: what is done, followed by what the loop still stores, is all it stores. */
  predicate Progress(m: seq<byte>, d: seq<byte>, n: nat, i: nat, off: nat,
                     all: seq<Span>, done: seq<Span>, got: seq<Pair>)
    requires i <= n && 4 + 8 * n <= |d|
  {
    off <= |d| && done + Spans(d, n, i, off) == all && Recovers(m, done, got)
  }

  /** The check on the end offset of pair i. */
  predicate EndsIn(d: seq<byte>, i: nat, off: nat)
    requires 4 + 8 * (i + 1) <= |d|
  {
    Add32(off, U32At(d, 4 + 8 * i) + 1 + U32At(d, 4 + 8 * i + 4) + 1) <= |d|
  }

  lemma MoveOver(all: seq<Span>, done: seq<Span>, s: Span, rest: seq<Span>, size: nat)
    requires AllInside(all, size) && done + ([s] + rest) == all
    ensures Inside(s, size) && (done + [s]) + rest == all
  {
    assert all[|done|] == s;
  }

  lemma OnePair(m: seq<byte>, d: seq<byte>, n: nat, i: nat, off: nat,
                all: seq<Span>, done: seq<Span>, got: seq<Pair>)
      returns (done': seq<Span>, got': seq<Pair>)
    requires i < n && 4 + 8 * n <= |d| && AllInside(all, |m|) && Progress(m, d, n, i, off, all, done, got)
    requires EndsIn(d, i, off)
    ensures var ks, vs := U32At(d, 4 + 8 * i), U32At(d, 4 + 8 * i + 4);
            var voff := Add32(off, ks + 1);
            && Progress(m, d, n, i + 1, Add32(voff, vs + 1), all, done', got')
            && if Stored(ks, vs)
               then off + ks <= |m| && voff + vs <= |m| && got' == got + [Pair(m[off..off + ks], m[voff..voff + vs])]
               else got' == got
  {
    var ks, vs := U32At(d, 4 + 8 * i), U32At(d, 4 + 8 * i + 4);
    var voff := Add32(off, ks + 1);
    AddAssoc(off, ks + 1, vs + 1);
    if Stored(ks, vs) {
      var s := Span(off, ks, voff, vs);
      MoveOver(all, done, s, Spans(d, n, i + 1, Add32(voff, vs + 1)), |m|);
      RecoversSnoc(m, done, s, got);
      done', got' := done + [s], got + [Contents(m, s)];
    } else {
      done', got' := done, got;
    }
  }

  /** When the loop stops, everything it stores is stored. */
  lemma AllDone(m: seq<byte>, d: seq<byte>, n: nat, i: nat, off: nat,
                all: seq<Span>, done: seq<Span>, got: seq<Pair>)
    requires i <= n && 4 + 8 * n <= |d| && Progress(m, d, n, i, off, all, done, got)
    requires i < n ==> !EndsIn(d, i, off)
    ensures Recovers(m, all, got)
  {
    assert done == all;
  }

  lemma NothingDone(m: seq<byte>, d: seq<byte>, n: nat, all: seq<Span>)
    requires 4 + 8 * n <= |d| && all == Spans(d, n, 0, 4 + 8 * n)
    ensures Progress(m, d, n, 0, 4 + 8 * n, all, [], [])
  {
  }

  /** The trailer map itself. */
  class Trailers {
    var entries: seq<Pair>

    ghost predicate Valid()
      reads this
    {
      ValidEntries(entries)
    }

    constructor ()
      ensures Valid() && entries == []
    {
      entries := [];
    }

    /** proxy_add_header_map_value: C-string arguments, refused when over the buffers or full. */
    method AddValue(key: seq<byte>, value: seq<byte>) returns (ok: bool)
      requires Valid()
      modifies this
      ensures Valid()
      ensures ok <==> |key| < 256 && |value| < 4096 && |old(entries)| < 32
      ensures entries == old(entries) + if ok then [Pair(CStr(key), CStr(value))] else []
    {
      if |key| >= 256 || |value| >= 4096 || |entries| >= MAX_TRAILERS {
        return false;
      }
      entries := entries + [Pair(CStr(key), CStr(value))];
      return true;
    }

    /** proxy_get_header_map_pairs: an empty map is returned as no bytes at all. */
    method GetPairs() returns (bytes: seq<byte>)
      requires Valid()
      ensures bytes == if entries == [] then [] else Encode(entries)
    {
      if entries == [] {
        return [];
      }
      var buf := EncodePairs(entries);
      return buf[..];
    }

    /** proxy_get_header_map_size agrees with what proxy_get_header_map_pairs returns. */
    method SizeQuery() returns (size: nat)
      requires Valid()
      ensures size == |if entries == [] then [] else Encode(entries)|
    {
      if entries == [] {
        return 0;
      }
      EncodingSmall(entries);
      size := ComputeSize(entries);
    }

    /**
     proxy_set_header_map_pairs on the first size bytes of the memory m: true is PROXY_OK; a refused
     call changes nothing. A stored pair may lie past the data, so m has to reach as far as they do;
     by StoredReach 4351 more bytes always suffice, and by StoredInside none are needed for data of
     up to 2^32 - 4353 bytes.
     */
    method SetPairs(m: seq<byte>, size: nat) returns (ok: bool)
      requires Valid() && size <= |m| && size < U32_MOD
      requires var spans := SetSpans(m[..size]); spans.Some? ==> AllInside(spans.value, |m|)
      modifies this
      ensures Valid() && ok == SetSpans(m[..size]).Some?
      ensures !ok ==> entries == old(entries)
      ensures ok ==> exists all :: Recovers(m, SetSpans(m[..size]).value, all) && entries == UpTo32(all)
      ensures forall ps, j :: CutAt(m[..size], ps, j) ==> ok && entries == UpTo32(TrailersIn(ps, 0, j))
    {
      if size < 4 {
        return false;
      }
      var d := m[..size];
      var n := U32At(d, 0);
      if n > MAX_SET_PAIRS || size < 4 + n * 8 {
        return false;
      }
      StorePairs(m, d, n);
      ghost var all :| Recovers(m, SetSpans(d).value, all) && entries == UpTo32(all);
      forall ps, j | CutAt(d, ps, j)
        ensures all == TrailersIn(ps, 0, j)
      {
        StoredAre(m, size, ps, j, all);
      }
      return true;
    }

    method StorePairs(m: seq<byte>, d: seq<byte>, n: nat)
      requires Valid() && 4 + 8 * n <= |d| && AllInside(Spans(d, n, 0, 4 + 8 * n), |m|)
      modifies this
      ensures Valid()
      ensures exists all :: Recovers(m, Spans(d, n, 0, 4 + 8 * n), all) && entries == UpTo32(all)
    {
      entries := [];
      ghost var all := Spans(d, n, 0, 4 + 8 * n);
      NothingDone(m, d, n, all);
      ghost var got := StoreAll(m, d, n, all);
      assert Recovers(m, all, got);
    }

    /** The pair loop. */
    method StoreAll(m: seq<byte>, d: seq<byte>, n: nat, ghost all: seq<Span>) returns (ghost got: seq<Pair>)
      requires Valid() && entries == [] && 4 + 8 * n <= |d| && AllInside(all, |m|)
      requires Progress(m, d, n, 0, 4 + 8 * n, all, [], [])
      modifies this
      ensures Valid() && Recovers(m, all, got) && entries == UpTo32(got)
    {
      var off: nat, i: nat := 4 + 8 * n, 0;
      ghost var done: seq<Span> := [];
      got := [];
      while i < n
        invariant i <= n && Valid()
        invariant Progress(m, d, n, i, off, all, done, got) && entries == UpTo32(got)
      {
        if !EndsIn(d, i, off) {
          break;
        }
        off, done, got := StoreOne(m, d, n, i, off, all, done, got);
        i := i + 1;
      }
      AllDone(m, d, n, i, off, all, done, got);
    }

    /** One pair that passed the check on its end offset. */
    method StoreOne(m: seq<byte>, d: seq<byte>, n: nat, i: nat, off: nat,
                    ghost all: seq<Span>, ghost done: seq<Span>, ghost got: seq<Pair>)
        returns (off': nat, ghost done': seq<Span>, ghost got': seq<Pair>)
      requires Valid() && i < n && 4 + 8 * n <= |d| && AllInside(all, |m|)
      requires Progress(m, d, n, i, off, all, done, got) && entries == UpTo32(got)
      requires EndsIn(d, i, off)
      modifies this
      ensures Valid() && Progress(m, d, n, i + 1, off', all, done', got') && entries == UpTo32(got')
    {
      var ks, vs := U32At(d, 4 + 8 * i), U32At(d, 4 + 8 * i + 4);
      var voff := Add32(off, ks + 1);
      done', got' := OnePair(m, d, n, i, off, all, done, got);
      off' := Add32(voff, vs + 1);
      if Stored(ks, vs) {
        AddEntry(m[off..off + ks], m[voff..voff + vs]);
      }
    }

    /** pw_trailer_add, whose failure on a full map the decoder ignores. */
    method AddEntry(name: seq<byte>, value: seq<byte>)
      requires Valid() && TrailerFits(Pair(name, value))
      modifies this
      ensures Valid()
      ensures entries == if |old(entries)| < MAX_TRAILERS then old(entries) + [Pair(name, value)] else old(entries)
    {
      if |entries| < MAX_TRAILERS {
        entries := entries + [Pair(name, value)];
      }
    }

    /**
     Setting a map from its own encoding keeps exactly the entries that have a name, so it leaves
     the map unchanged if and only if every entry has one; an empty map refuses its own (empty)
     encoding and stays empty.
     */
    method SetFromOwn() returns (ok: bool)
      requires Valid()
      modifies this
      ensures Valid()
      ensures ok <==> old(entries) != []
      ensures entries == TrailersIn(old(entries), 0, |old(entries)|)
      ensures entries == old(entries) <==> forall i :: 0 <= i < |old(entries)| ==> old(entries)[i].key != []
    {
      ghost var ps := entries;
      var d := GetPairs();
      OwnEncoding(ps);
      NamedAll(ps, 0);
      SafeAllInside(d);
      assert d[..|d|] == d;
      ok := SetPairs(d, |d|);
    }
  }

  function UpTo32(ps: seq<Pair>): seq<Pair> {
    if |ps| <= 32 then ps else ps[..32]
  }

  lemma {:induction false} NamedAll(ps: seq<Pair>, i: nat)
    requires i <= |ps| && ValidEntries(ps)
    ensures TrailersIn(ps, i, |ps|) == ps[i..] <==> forall j :: i <= j < |ps| ==> ps[j].key != []
    decreases |ps| - i
  {
    if i < |ps| {
      NamedAll(ps, i + 1);
      assert TrailerFits(ps[i]) && |ps[i..]| == |ps| - i;
      assert ps[i..] == [ps[i]] + ps[i + 1..];
      var rest := TrailersIn(ps, i + 1, |ps|);
      assert [ps[i]] + rest == [ps[i]] + ps[i + 1..] <==> rest == ps[i + 1..] by {
        assert ([ps[i]] + rest)[1..] == rest && ([ps[i]] + ps[i + 1..])[1..] == ps[i + 1..];
      }
    }
  }
}
