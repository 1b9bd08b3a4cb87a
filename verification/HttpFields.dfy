/**
 Lines and header fields of an HTTP message as the callout reads them (src/proxy_wasm_http.c).
 */
module HttpFields {
  import opened Bytes
  import opened HttpText

  // ---------------------------------------------------------------- lines

  /** The CRLF-terminated lines of s from position p on, without their terminators. */
  function LinesFrom(s: seq<byte>, p: nat): seq<seq<byte>>
    requires p <= |s|
    decreases |s| - p
  {
    var e := FirstFrom(s, CRLF, p);
    if e < 0 then [] else [s[p..e]] + LinesFrom(s, e + 2)
  }

  // ---------------------------------------------------------------- values

  /** s[i..j] is s without its leading and trailing blanks. */
  predicate TrimmedAt(s: seq<byte>, i: nat, j: nat) {
    && i <= j <= |s|
    && Blanks(s, 0, i) && Blanks(s, j, |s|)
    && (i < j ==> !IsBlank(s[i]) && !IsBlank(s[j - 1]))
  }

  /** t is s without its leading and trailing blanks. */
  ghost predicate Trimmed(s: seq<byte>, t: seq<byte>) {
    exists i: nat, j: nat :: TrimmedAt(s, i, j) && t == s[i..j]
  }

  lemma TrimmedOne(s: seq<byte>, t: seq<byte>, u: seq<byte>)
    requires Trimmed(s, t) && Trimmed(s, u)
    ensures t == u
  {
    var i: nat, j: nat :| TrimmedAt(s, i, j) && t == s[i..j];
    var a: nat, b: nat :| TrimmedAt(s, a, b) && u == s[a..b];
    if i < j {
      assert !IsBlank(s[i]) && !IsBlank(s[j - 1]);
      assert a <= i && j <= b;
      assert a == i && b == j;
    } else {
      assert Blanks(s, 0, |s|);
      assert a == b;
    }
  }

  method Trim(s: seq<byte>) returns (t: seq<byte>)
    ensures Trimmed(s, t)
  {
    var v := 0;
    while v < |s| && IsBlank(s[v])
      invariant v <= |s| && Blanks(s, 0, v)
    {
      v := v + 1;
    }
    var vend := |s|;
    while vend > v && IsBlank(s[vend - 1])
      invariant v <= vend <= |s| && Blanks(s, vend, |s|)
    {
      vend := vend - 1;
    }
    assert TrimmedAt(s, v, vend);
    t := s[v..vend];
  }

  function Lower(c: byte): byte {
    if 65 <= c <= 90 then c + 32 else c
  }

  /** strncasecmp over equal lengths. */
  predicate EqFold(s: seq<byte>, t: seq<byte>) {
    |s| == |t| && forall i :: 0 <= i < |s| ==> Lower(s[i]) == Lower(t[i])
  }

  /** Equal up to case: at every place the same octet, or the two cases of one letter. */
  lemma EqFoldIff(s: seq<byte>, t: seq<byte>)
    ensures EqFold(s, t) <==>
              |s| == |t| && forall i :: 0 <= i < |s| ==> s[i] == t[i] || CasesOf(s[i], t[i]) || CasesOf(t[i], s[i])
  {
    if EqFold(s, t) {
      forall i | 0 <= i < |s|
        ensures s[i] == t[i] || CasesOf(s[i], t[i]) || CasesOf(t[i], s[i])
      {
        assert Lower(s[i]) == Lower(t[i]);
      }
    }
  }

  predicate CasesOf(upper: byte, lower: byte) {
    'A' as int <= upper <= 'Z' as int && lower == upper + ('a' as int - 'A' as int)
  }

  // ---------------------------------------------------------------- header fields

  /** The line's first ':' ends a name that is `name` up to letter case. */
  predicate Named(line: seq<byte>, name: seq<byte>) {
    |name| < |line| && line[|name|] == 58 && 58 !in line[..|name|] && EqFold(line[..|name|], name)
  }

  /** Line k is the first header line called `name`, and no empty line stands before it. */
  predicate FieldLine(lines: seq<seq<byte>>, k: nat, name: seq<byte>) {
    && 1 <= k < |lines|
    && (forall j :: 1 <= j <= k ==> lines[j] != [])
    && Named(lines[k], name)
    && (forall j :: 1 <= j < k ==> !Named(lines[j], name))
  }

  /** v is the trimmed value of the first header field called `name` of the message head s. */
  ghost predicate FieldValue(s: seq<byte>, name: seq<byte>, v: seq<byte>) {
    exists k: nat :: FieldLine(LinesFrom(s, 0), k, name) && Trimmed(LinesFrom(s, 0)[k][|name| + 1..], v)
  }

  ghost predicate HasField(s: seq<byte>, name: seq<byte>) {
    exists k: nat :: FieldLine(LinesFrom(s, 0), k, name)
  }

  lemma FieldValueOne(s: seq<byte>, name: seq<byte>, v: seq<byte>, w: seq<byte>)
    requires FieldValue(s, name, v) && FieldValue(s, name, w)
    ensures v == w
  {
    var lines := LinesFrom(s, 0);
    var k: nat :| FieldLine(lines, k, name) && Trimmed(lines[k][|name| + 1..], v);
    var m: nat :| FieldLine(lines, m, name) && Trimmed(lines[m][|name| + 1..], w);
    assert k == m;
    TrimmedOne(lines[k][|name| + 1..], v, w);
  }

  /**
   pw_http_find_header_value: walks the lines after the status line up to the empty line. Its
   answer is the first field of that name among the lines of the head.
   */
  method FindHeaderValue(s: seq<byte>, name: seq<byte>) returns (r: Option<seq<byte>>)
    requires 58 !in name
    ensures r.Some? ==> FieldValue(s, name, r.value)
    ensures r.None? ==> !HasField(s, name)
  {
    ghost var lines := LinesFrom(s, 0);
    assert lines[0..] == lines;
    var lineEnd := FindLineEnd(s, 0, lines, 0);
    if lineEnd < 0 {
      return None;
    }
    r := SearchLines(s, lineEnd + 2, name, lines, 1);
  }

  /** From line k on, the lines are those of s from p on. */
  ghost predicate LinesAt(lines: seq<seq<byte>>, k: nat, s: seq<byte>, p: nat) {
    k <= |lines| && p <= |s| && lines[k..] == LinesFrom(s, p)
  }

  /** strstr for the end of the line at p, which is line k. */
  method FindLineEnd(s: seq<byte>, p: nat, ghost lines: seq<seq<byte>>, ghost k: nat) returns (e: int)
    requires LinesAt(lines, k, s, p)
    ensures e < 0 ==> k == |lines|
    ensures e >= 0 ==> p <= e && e + 2 <= |s| && k < |lines| && lines[k] == s[p..e] && LinesAt(lines, k + 1, s, e + 2)
  {
    e := FirstFrom(s, CRLF, p);
    if k < |lines| {
      assert lines[k] == lines[k..][0] && lines[k + 1..] == lines[k..][1..];
    }
  }

  /** Lines 1 to k-1 are neither empty nor of that name. */
  predicate Passed(lines: seq<seq<byte>>, k: nat, name: seq<byte>)
    requires k <= |lines|
  {
    forall j :: 1 <= j < k ==> lines[j] != [] && !Named(lines[j], name)
  }

  method SearchLines(s: seq<byte>, from: nat, name: seq<byte>, ghost lines: seq<seq<byte>>, ghost first: nat)
      returns (r: Option<seq<byte>>)
    requires 58 !in name && 1 <= first && LinesAt(lines, first, s, from) && Passed(lines, first, name)
    ensures r.Some? ==> exists k: nat :: FieldLine(lines, k, name) && Trimmed(lines[k][|name| + 1..], r.value)
    ensures r.None? ==> forall k: nat :: !FieldLine(lines, k, name)
  {
    var p := from;
    ghost var k := first;
    while p < |s|
      invariant 1 <= k && LinesAt(lines, k, s, p) && Passed(lines, k, name)
      decreases |s| - p
    {
      var lineEnd := FindLineEnd(s, p, lines, k);
      if lineEnd < 0 || lineEnd == p {
        NoFieldLeft(lines, k, name);
        return None;
      }
      r := MatchLine(s[p..lineEnd], name);
      if r.Some? {
        assert FieldLine(lines, k, name);
        return;
      }
      p := lineEnd + 2;
      k := k + 1;
    }
    assert LinesFrom(s, p) == [];
    NoFieldLeft(lines, k, name);
    return None;
  }

  lemma NoFieldLeft(lines: seq<seq<byte>>, k: nat, name: seq<byte>)
    requires 1 <= k <= |lines| && Passed(lines, k, name) && (k < |lines| ==> lines[k] == [])
    ensures forall j: nat :: !FieldLine(lines, j, name)
  {
  }

  /** One header line: its trimmed value if it has that name. */
  method MatchLine(line: seq<byte>, name: seq<byte>) returns (r: Option<seq<byte>>)
    requires 58 !in name
    ensures r.Some? ==> Named(line, name) && Trimmed(line[|name| + 1..], r.value)
    ensures r.None? ==> !Named(line, name)
  {
    var colon := FindByte(line, 58);
    if colon < |line| && colon == |name| && EqFold(line[..colon], name) {
      var v := Trim(line[colon + 1..]);
      return Some(v);
    }
    NotNamed(line, name, colon);
    return None;
  }

  lemma NotNamed(line: seq<byte>, name: seq<byte>, colon: nat)
    requires colon <= |line| && 58 !in line[..colon] && (colon < |line| ==> line[colon] == 58)
    requires !(colon < |line| && colon == |name| && EqFold(line[..colon], name))
    ensures !Named(line, name)
  {
    assert forall k :: 0 <= k < colon ==> line[k] == line[..colon][k];
    if |name| <= |line| {
      assert forall k :: 0 <= k < |name| ==> line[k] == line[..|name|][k];
    }
  }

  // ---------------------------------------------------------------- token lists

  /** s[a..b] is one element of the comma-separated list s. */
  predicate ElementAt(s: seq<byte>, a: nat, b: nat) {
    && a <= b <= |s|
    && (a == 0 || s[a - 1] == 44) && (b == |s| || s[b] == 44)
    && forall k :: a <= k < b ==> s[k] != 44
  }

  ghost predicate TokenAt(s: seq<byte>, a: nat, b: nat, token: seq<byte>) {
    ElementAt(s, a, b) && exists t :: Trimmed(s[a..b], t) && EqFold(t, token)
  }

  /** Some element of the list, trimmed, is the token up to letter case. */
  ghost predicate HasToken(s: seq<byte>, token: seq<byte>) {
    exists a: nat, b: nat :: TokenAt(s, a, b, token)
  }

  /** No element that ends before n is the token. */
  ghost predicate NoTokenBefore(s: seq<byte>, n: nat, token: seq<byte>) {
    forall a: nat, b: nat :: b < n ==> !TokenAt(s, a, b, token)
  }

  /** pw_http_value_has_token */
  method ValueHasToken(s: seq<byte>, token: seq<byte>) returns (r: bool)
    requires token != []
    ensures r <==> HasToken(s, token)
  {
    if s == [] {
      BlankElement(s, 0, 0, token);
    }
    var i := 0;
    while i < |s|
      invariant i <= |s| && (i == 0 || i == |s| || s[i] == 44)
      invariant NoTokenBefore(s, if i == 0 then 0 else i + 1, token)
    {
      ghost var a;
      var start: nat;
      start, a := SkipSeparators(s, i, token);
      i := start;
      while i < |s| && s[i] != 44
        invariant start <= i <= |s| && forall k :: start <= k < i ==> s[k] != 44
      {
        i := i + 1;
      }
      var end := i;
      while end > start && IsBlank(s[end - 1])
        invariant start <= end <= i && Blanks(s, end, i)
      {
        end := end - 1;
      }
      TrimmedElement(s, a, start, end, i);
      if EqFold(s[start..end], token) {
        assert TokenAt(s, a, i, token);
        return true;
      }
      ElementPassed(s, a, i, s[start..end], token);
    }
    return false;
  }

  /** Past blanks and commas; a is where the element at i begins. */
  method SkipSeparators(s: seq<byte>, from: nat, token: seq<byte>) returns (i: nat, ghost a: nat)
    requires from < |s| && (from == 0 || s[from] == 44) && token != []
    requires NoTokenBefore(s, if from == 0 then 0 else from + 1, token)
    ensures from <= i <= |s| && (i == from ==> i == 0)
    ensures a <= i && (a == 0 || s[a - 1] == 44) && Blanks(s, a, i) && (i < |s| ==> !IsBlank(s[i]) && s[i] != 44)
    ensures NoTokenBefore(s, a, token)
  {
    i := from;
    a := if from == 0 then 0 else from + 1;
    while i < |s| && (IsBlank(s[i]) || s[i] == 44)
      invariant from <= i <= |s| && (i == from > 0 ==> a == i + 1 && s[i] == 44)
      invariant i == from == 0 || i > from ==> a <= i
      invariant (a == 0 || s[a - 1] == 44) && (a <= i ==> Blanks(s, a, i)) && NoTokenBefore(s, a, token)
    {
      if s[i] == 44 && a <= i {
        BlankElement(s, a, i, token);
        a := i + 1;
      }
      i := i + 1;
    }
  }

  /** A blank element is no token, so nothing that ends at or before it is either. */
  lemma BlankElement(s: seq<byte>, a: nat, b: nat, token: seq<byte>)
    requires a <= b <= |s| && (a == 0 || s[a - 1] == 44) && (b == |s| || s[b] == 44) && Blanks(s, a, b)
    requires NoTokenBefore(s, a, token) && token != []
    ensures NoTokenBefore(s, b + 1, token)
  {
    assert TrimmedAt(s[a..b], 0, 0);
    ElementPassed(s, a, b, [], token);
  }

  lemma TrimmedElement(s: seq<byte>, a: nat, start: nat, end: nat, b: nat)
    requires a <= start <= end <= b <= |s| && Blanks(s, a, start) && Blanks(s, end, b)
    requires start < end ==> !IsBlank(s[start]) && !IsBlank(s[end - 1])
    ensures Trimmed(s[a..b], s[start..end])
  {
    var e := s[a..b];
    assert forall k :: a <= k < b ==> s[k] == e[k - a];
    assert TrimmedAt(e, start - a, end - a);
    assert e[start - a..end - a] == s[start..end];
  }

  lemma ElementPassed(s: seq<byte>, a: nat, b: nat, t: seq<byte>, token: seq<byte>)
    requires ElementAt(s, a, b) && NoTokenBefore(s, a, token)
    requires Trimmed(s[a..b], t) && !EqFold(t, token)
    ensures NoTokenBefore(s, b + 1, token)
  {
    forall x: nat, y: nat | y < b + 1
      ensures !TokenAt(s, x, y, token)
    {
      if a <= y && TokenAt(s, x, y, token) {
        assert y == b && x == a;
        var u :| Trimmed(s[x..y], u) && EqFold(u, token);
        TrimmedOne(s[a..b], t, u);
        assert false;
      }
    }
  }
}
