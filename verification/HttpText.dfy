/**
 Characters, decimal numbers and upstream names of the HTTP callout (src/proxy_wasm_http.c).
 Octets are numbers: 9 is TAB, 10 LF, 13 CR, 32 SP, 44 ',', 48..57 the digits, 58 ':'.
 */
module HttpText {
  import opened Bytes

  const CRLF: seq<byte> := [13, 10]

  // ---------------------------------------------------------------- character checks

  predicate IsDigit(c: byte) { 48 <= c <= 57 }

  /** RFC 9110 section 5.6.2: digits, letters and !#$%&'*+-.^_`|~ */
  predicate IsTokenChar(c: byte) {
    IsDigit(c) || 65 <= c <= 90 || 97 <= c <= 122
    || c in {33, 35, 36, 37, 38, 39, 42, 43, 45, 46, 94, 95, 96, 124, 126}
  }

  predicate IsToken(s: seq<byte>) {
    s != [] && forall i :: 0 <= i < |s| ==> IsTokenChar(s[i])
  }

  predicate HasLineCtl(s: seq<byte>) {
    0 in s || 13 in s || 10 in s
  }

  predicate HostOk(s: seq<byte>) {
    s != [] && forall i :: 0 <= i < |s| ==> 32 < s[i] < 127 && s[i] != 47
  }

  predicate PathOk(s: seq<byte>) {
    s != [] && forall i :: 0 <= i < |s| ==> 32 < s[i] < 127
  }

  /** RFC 9112 section 5: no NUL, no line ends, no other control except TAB. */
  predicate ValueOk(s: seq<byte>) {
    forall i :: 0 <= i < |s| ==> s[i] != 127 && (s[i] >= 32 || s[i] == 9)
  }

  /** The classes by their characters. */
  lemma Characters(s: seq<byte>)
    ensures PathOk(s) <==> s != [] && forall c :: c in s ==> '!' as int <= c <= '~' as int
    ensures HostOk(s) <==> s != [] && forall c :: c in s ==> '!' as int <= c <= '~' as int && c != '/' as int
    ensures ValueOk(s) <==> forall c :: c in s ==> c == '\t' as int || ' ' as int <= c <= '~' as int || c >= 128
    ensures IsToken(s) <==>
              s != [] && forall c :: c in s ==> IsDigit(c) || IsLetter(c) || c in Ascii("!#$%&'*+-.^_`|~")
  {
    forall c: byte
      ensures c in Ascii("!#$%&'*+-.^_`|~") <==>
                c in {33, 35, 36, 37, 38, 39, 42, 43, 45, 46, 94, 95, 96, 124, 126}
    {
      Specials(c);
    }
    assert forall i :: 0 <= i < |s| ==> s[i] in s;
  }

  predicate IsLetter(c: byte) {
    'A' as int <= c <= 'Z' as int || 'a' as int <= c <= 'z' as int
  }

  lemma BlanksAndDigits(c: byte)
    ensures IsDigit(c) <==> '0' as int <= c <= '9' as int
    ensures IsBlank(c) <==> c == ' ' as int || c == '\t' as int
  {
  }

  lemma Specials(c: byte)
    ensures c in Ascii("!#$%&'*+-.^_`|~") <==>
              c in {33, 35, 36, 37, 38, 39, 42, 43, 45, 46, 94, 95, 96, 124, 126}
  {
    var t := Ascii("!#$%&'*+-.^_`|~");
    assert t == [33, 35, 36, 37, 38, 39, 42, 43, 45, 46, 94, 95, 96, 124, 126];
  }

  // ---------------------------------------------------------------- decimal numbers

  predicate IsBlank(c: byte) { c == 32 || c == 9 }

  predicate Digits(s: seq<byte>, i: nat, j: nat)
    requires j <= |s|
  {
    forall k :: i <= k < j ==> IsDigit(s[k])
  }

  predicate Blanks(s: seq<byte>, i: nat, j: nat)
    requires j <= |s|
  {
    forall k :: i <= k < j ==> IsBlank(s[k])
  }

  /** The number the digits s[i..j] denote. */
  function Dec(s: seq<byte>, i: nat, j: nat): nat
    requires i <= j <= |s| && Digits(s, i, j)
    decreases j
  {
    if i == j then 0 else 10 * Dec(s, i, j - 1) + (s[j - 1] - 48)
  }

  /** "%u" */
  function PrintDec(v: nat): (s: seq<byte>)
    ensures s != [] && Digits(s, 0, |s|)
  {
    if v < 10 then [48 + v] else PrintDec(v / 10) + [48 + v % 10]
  }

  lemma {:induction false} DecLocal(s: seq<byte>, t: seq<byte>, at: nat, j: nat)
    requires at + j <= |s| && j <= |t| && s[at..at + j] == t[..j] && Digits(t, 0, j)
    ensures Digits(s, at, at + j) && Dec(s, at, at + j) == Dec(t, 0, j)
  {
    assert forall k :: at <= k < at + j ==> s[k] == s[at..at + j][k - at] == t[k - at];
    if j > 0 {
      assert s[at..at + (j - 1)] == s[at..at + j][..j - 1] == t[..j - 1];
      DecLocal(s, t, at, j - 1);
    }
  }

  lemma {:induction false} DecOfPrint(v: nat)
    ensures Dec(PrintDec(v), 0, |PrintDec(v)|) == v
  {
    if v >= 10 {
      DecOfPrint(v / 10);
      var s := PrintDec(v);
      assert s[0..|s| - 1] == PrintDec(v / 10);
      DecLocal(s, PrintDec(v / 10), 0, |s| - 1);
    }
  }

  function Pow10(k: nat): (p: nat)
    ensures p >= 1
  {
    if k == 0 then 1 else 10 * Pow10(k - 1)
  }

  /** Decimal, the most significant digit first: the k-th digit from the right has weight 10^k. */
  lemma {:induction false} DecDigit(s: seq<byte>, i: nat, j: nat, k: nat)
    requires i <= j <= |s| && Digits(s, i, j) && k < j - i
    ensures s[j - 1 - k] - 48 == Dec(s, i, j) / Pow10(k) % 10
  {
    LastDigit(Dec(s, i, j - 1), s[j - 1] - 48);
    if k > 0 {
      DecDigit(s, i, j - 1, k - 1);
      DivTwice(Dec(s, i, j), 10, Pow10(k - 1));
    }
  }

  lemma LastDigit(x: nat, d: nat)
    requires d < 10
    ensures (10 * x + d) / 10 == x && (10 * x + d) % 10 == d
  {
  }

  lemma {:induction false} DecSmall(s: seq<byte>, i: nat, j: nat)
    requires i <= j <= |s| && Digits(s, i, j)
    ensures Dec(s, i, j) < Pow10(j - i)
  {
    if i < j {
      DecSmall(s, i, j - 1);
    }
  }

  /** The printed digits are those of the number, without a leading zero. */
  lemma {:induction false} PrintDigits(v: nat)
    ensures var s := PrintDec(v);
            && (forall k: nat :: k < |s| ==> s[|s| - 1 - k] == 48 + v / Pow10(k) % 10)
            && v < Pow10(|s|) && (|s| > 1 ==> s[0] != 48)
  {
    var s := PrintDec(v);
    DecOfPrint(v);
    DecSmall(s, 0, |s|);
    NoLeadingZero(v);
    forall k: nat | k < |s|
      ensures s[|s| - 1 - k] == 48 + v / Pow10(k) % 10
    {
      DecDigit(s, 0, |s|, k);
    }
  }

  lemma {:induction false} NoLeadingZero(v: nat)
    ensures v > 0 ==> PrintDec(v)[0] != 48
    ensures v == 0 ==> |PrintDec(v)| == 1
  {
    if v >= 10 {
      NoLeadingZero(v / 10);
    }
  }

  lemma {:induction false} DecMonotone(s: seq<byte>, i: nat, m: nat, j: nat)
    requires i <= m <= j <= |s| && Digits(s, i, j)
    ensures Dec(s, i, m) <= Dec(s, i, j)
  {
    if m < j {
      DecMonotone(s, i, m, j - 1);
    }
  }

  /** s reads "blanks digits blanks", the digits being s[i..j]. */
  predicate SizeAt(s: seq<byte>, i: nat, j: nat) {
    i < j <= |s| && Blanks(s, 0, i) && Digits(s, i, j) && Blanks(s, j, |s|)
  }

  ghost predicate IsSize(s: seq<byte>, v: nat) {
    exists i: nat, j: nat :: SizeAt(s, i, j) && v == Dec(s, i, j)
  }

  /** A text has at most one reading, so the value below is the value. */
  lemma SizeUnique(s: seq<byte>, v: nat, w: nat)
    requires IsSize(s, v) && IsSize(s, w)
    ensures v == w
  {
    var i: nat, j: nat :| SizeAt(s, i, j) && v == Dec(s, i, j);
    var i': nat, j': nat :| SizeAt(s, i', j') && w == Dec(s, i', j');
    assert IsDigit(s[i]) && IsDigit(s[i']);
    assert i == i' && j == j';
  }

  /**
   pw_http_parse_size: accepts exactly optional blanks, digits, optional blanks with a value of
   at most SIZE_MAX, and returns that value; no intermediate value exceeds SIZE_MAX.
   */
  method ParseSize(s: seq<byte>) returns (r: Option<nat>)
    ensures r.Some? ==> IsSize(s, r.value) && r.value <= SIZE_MAX
    ensures r.None? ==> forall v: nat :: IsSize(s, v) ==> v > SIZE_MAX
  {
    var i := 0;
    while i < |s| && IsBlank(s[i])
      invariant 0 <= i <= |s| && Blanks(s, 0, i)
    {
      i := i + 1;
    }
    var first := i;
    var value, stop := ParseDigits(s, first);
    if value.None? {
      return None;
    }
    i := stop;
    while i < |s| && IsBlank(s[i])
      invariant stop <= i <= |s| && Blanks(s, stop, i)
    {
      i := i + 1;
    }
    if i != |s| || stop == first {
      NoSize(s, first, stop, i);
      return None;
    }
    assert SizeAt(s, first, stop);
    return value;
  }

  /** The digit loop, up to the end or the first blank. */
  method ParseDigits(s: seq<byte>, first: nat) returns (value: Option<nat>, stop: nat)
    requires first <= |s| && Blanks(s, 0, first)
    ensures value.Some? ==> first <= stop <= |s| && Digits(s, first, stop) && (stop < |s| ==> IsBlank(s[stop]))
                            && value.value == Dec(s, first, stop) <= SIZE_MAX
    ensures value.None? ==> forall v: nat :: IsSize(s, v) ==> v > SIZE_MAX
  {
    var n := 0;
    stop := first;
    while stop < |s| && !IsBlank(s[stop])
      invariant first <= stop <= |s| && Digits(s, first, stop) && n == Dec(s, first, stop) <= SIZE_MAX
    {
      var c := s[stop];
      if c < 48 || c > 57 {
        NotADigit(s, first, stop);
        return None, stop;
      }
      if n > (SIZE_MAX - (c - 48)) / 10 {
        TooLarge(s, first, stop + 1);
        return None, stop;
      }
      n := n * 10 + (c - 48);
      stop := stop + 1;
    }
    value := Some(n);
  }

  /** After blanks and digits, a character that is neither: no reading. */
  lemma NotADigit(s: seq<byte>, first: nat, i: nat)
    requires first <= i < |s| && !IsBlank(s[i]) && !IsDigit(s[i])
    ensures forall v: nat :: !IsSize(s, v)
  {
    forall a: nat, b: nat
      ensures !SizeAt(s, a, b)
    {
    }
  }

  lemma TooLarge(s: seq<byte>, first: nat, i: nat)
    requires first < i <= |s| && Blanks(s, 0, first) && Digits(s, first, i) && Dec(s, first, i) > SIZE_MAX
    ensures forall v: nat :: IsSize(s, v) ==> v > SIZE_MAX
  {
    forall a: nat, b: nat | SizeAt(s, a, b)
      ensures Dec(s, a, b) > SIZE_MAX
    {
      assert IsDigit(s[a]) && IsDigit(s[first]) && IsDigit(s[i - 1]);
      assert a == first && i <= b;
      DecMonotone(s, first, i, b);
    }
  }

  /** No digits, or something after the trailing blanks: no reading. */
  lemma NoSize(s: seq<byte>, first: nat, stop: nat, i: nat)
    requires first <= stop <= i <= |s| && Blanks(s, 0, first) && Digits(s, first, stop) && Blanks(s, stop, i)
    requires first < |s| ==> !IsBlank(s[first])
    requires stop < |s| ==> IsBlank(s[stop])
    requires i < |s| ==> !IsBlank(s[i])
    requires i != |s| || stop == first
    ensures forall v: nat :: !IsSize(s, v)
  {
    if i == |s| {
      assert forall k :: 0 <= k < |s| ==> IsBlank(s[k]);
    } else {
      assert first < stop < i && IsDigit(s[first]) && !IsDigit(s[stop]);
      assert forall a: nat, b: nat :: SizeAt(s, a, b) ==> a <= first && i < b;
    }
  }

  // ---------------------------------------------------------------- upstream names

  datatype Endpoint = Endpoint(host: seq<byte>, port: nat)

  predicate IsPort(s: seq<byte>, v: nat) {
    s != [] && Digits(s, 0, |s|) && v == Dec(s, 0, |s|) && 0 < v <= 65535
  }

  method ParsePort(s: seq<byte>) returns (r: Option<nat>)
    ensures r.Some? ==> IsPort(s, r.value)
    ensures r.None? ==> forall v :: !IsPort(s, v)
  {
    if s == [] {
      return None;
    }
    var value: nat := 0;
    for i := 0 to |s|
      invariant Digits(s, 0, i) && value == Dec(s, 0, i) <= 65535
    {
      if s[i] < 48 || s[i] > 57 {
        return None;
      }
      value := value * 10 + (s[i] - 48);
      if value > 65535 {
        if Digits(s, 0, |s|) {
          DecMonotone(s, 0, i + 1, |s|);
        }
        return None;
      }
    }
    r := if value == 0 then None else Some(value);
  }

  predicate ValidEndpoint(e: Endpoint) {
    HostOk(e.host) && 58 !in e.host && 0 < e.port <= 65535
  }

  /** s names e: a host alone means port 80, otherwise host, ':' and a decimal port. */
  ghost predicate Names(s: seq<byte>, e: Endpoint) {
    && 0 < |s| < 256
    && ValidEndpoint(e)
    && ((s == e.host && e.port == 80)
        || (|e.host| < |s| && s[..|e.host|] == e.host && s[|e.host|] == 58 && IsPort(s[|e.host| + 1..], e.port)))
  }

  lemma NamesOne(s: seq<byte>, e: Endpoint, f: Endpoint)
    requires Names(s, e) && Names(s, f)
    ensures e == f
  {
    assert forall k :: 0 <= k < |e.host| ==> s[k] == e.host[k];
    assert forall k :: 0 <= k < |f.host| ==> s[k] == f.host[k];
  }

  /** A host alone means port 80. */
  lemma HostAlone(host: seq<byte>)
    requires HostOk(host) && 58 !in host && |host| < 256
    ensures Names(host, Endpoint(host, 80))
  {
  }

  /** pw_http_parse_upstream with a 256-octet host buffer: None is the error return. */
  method ParseUpstream(s: seq<byte>) returns (r: Option<Endpoint>)
    ensures r.Some? ==> Names(s, r.value)
    ensures r.None? ==> forall e :: !Names(s, e)
  {
    if |s| == 0 || |s| >= 256 {
      return None;
    }
    if HasLineCtl(s) {
      NoLineCtlInName(s);
      return None;
    }
    var colon := FindByte(s, 58);
    if colon < |s| {
      if colon == 0 || !HostOk(s[..colon]) {
        forall e ensures !Names(s, e) { HostEndsAtColon(s, e, colon); }
        return None;
      }
      var port := ParsePort(s[colon + 1..]);
      if port.None? {
        forall e ensures !Names(s, e) { HostEndsAtColon(s, e, colon); }
        return None;
      }
      return Some(Endpoint(s[..colon], port.value));
    }
    if !HostOk(s) {
      return None;
    }
    return Some(Endpoint(s, 80));
  }

  /** memchr: the first position of c, or the length. */
  method FindByte(s: seq<byte>, c: byte) returns (i: nat)
    ensures i <= |s| && c !in s[..i] && (i < |s| ==> s[i] == c)
  {
    i := 0;
    while i < |s| && s[i] != c
      invariant i <= |s| && c !in s[..i]
    {
      i := i + 1;
    }
  }

  lemma HostEndsAtColon(s: seq<byte>, e: Endpoint, colon: nat)
    requires colon < |s| && s[colon] == 58 && 58 !in s[..colon]
    ensures Names(s, e) ==> e.host == s[..colon]
  {
    if Names(s, e) {
      assert forall k :: 0 <= k < |e.host| ==> s[k] == e.host[k];
      assert forall k :: 0 <= k < colon ==> s[k] == s[..colon][k];
    }
  }

  lemma NoLineCtlInName(s: seq<byte>)
    requires HasLineCtl(s)
    ensures forall e :: !Names(s, e)
  {
    forall e
      ensures !Names(s, e)
    {
      if |e.host| < |s| {
        var port := s[|e.host| + 1..];
        assert forall k :: |e.host| < k < |s| ==> s[k] == port[k - (|e.host| + 1)];
      }
    }
  }

  /** "%s:%u", the spelling compared with the allowlist. */
  function Canonical(e: Endpoint): (s: seq<byte>)
    ensures |e.host| < |s|
  {
    e.host + [58] + PrintDec(e.port)
  }

  /** Parsing undoes printing, for every endpoint whose spelling fits the buffer. */
  lemma CanonicalNames(e: Endpoint)
    requires ValidEndpoint(e)
    ensures Names(Canonical(e), e) <==> |Canonical(e)| < 256
  {
    DecOfPrint(e.port);
    assert Canonical(e)[|e.host| + 1..] == PrintDec(e.port);
    assert Canonical(e)[..|e.host|] == e.host;
    assert Canonical(e)[|e.host|] == 58;
  }

  /** Two endpoints with one spelling are one endpoint. */
  lemma CanonicalInjective(e: Endpoint, f: Endpoint)
    requires ValidEndpoint(e) && ValidEndpoint(f) && Canonical(e) == Canonical(f)
    ensures e == f
  {
    FirstSplit(58, e.host, PrintDec(e.port), f.host, PrintDec(f.port));
    DecOfPrint(e.port);
    DecOfPrint(f.port);
  }

  /**
   The upstream argument of a callout: parsed, and checked against the allowlist when there is one.
   exempt is ssrf_exempt, which later permits connection reuse.
   */
  method CheckUpstream(s: seq<byte>, allowed: seq<seq<byte>>) returns (r: Option<Endpoint>, exempt: bool)
    ensures r.Some? ==> Names(s, r.value) && (allowed == [] || Canonical(r.value) in allowed)
    ensures r.None? ==> forall e :: Names(s, e) ==> allowed != [] && Canonical(e) !in allowed
    ensures exempt <==> r.Some? && allowed != []
  {
    r := ParseUpstream(s);
    exempt := false;
    if r.Some? && |allowed| > 0 {
      var spelling := Canonical(r.value);
      for i := 0 to |allowed|
        invariant spelling !in allowed[..i]
      {
        if spelling == allowed[i] {
          return r, true;
        }
      }
      forall e | Names(s, e) ensures Canonical(e) !in allowed { NamesOne(s, e, r.value); }
      r := None;
    }
  }
}
