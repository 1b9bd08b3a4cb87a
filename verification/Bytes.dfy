/**
 Octets, little-endian fields, NUL-terminated strings and substring search: the vocabulary
 that the C sources and the guest share.
 */
module Bytes {

  type byte = x: int | 0 <= x < 256

  const U32_MOD: nat := 0x1_0000_0000
  const U64_MOD: nat := 0x1_0000_0000_0000_0000
  const SIZE_MAX: nat := U64_MOD - 1
  const INT_MAX: nat := 0x7fff_ffff

  datatype Option<+T> = None | Some(value: T)

  function Min(a: int, b: int): int {
    if a <= b then a else b
  }

  // ---------------------------------------------------------------- little-endian integers

  function Pow256(n: nat): (p: nat)
    ensures p >= 1
  {
    if n == 0 then 1 else 256 * Pow256(n - 1)
  }

  /** The n low-order octets of v, least significant first. */
  function LE(n: nat, v: nat): (s: seq<byte>)
    ensures |s| == n
  {
    if n == 0 then [] else [v % 256] + LE(n - 1, v / 256)
  }

  function FromLE(s: seq<byte>): nat {
    if s == [] then 0 else s[0] + 256 * FromLE(s[1..])
  }

  lemma {:induction false} FromLEOfLE(n: nat, v: nat)
    requires v < Pow256(n)
    ensures FromLE(LE(n, v)) == v
  {
    if n > 0 {
      FromLEOfLE(n - 1, v / 256);
      assert LE(n, v)[1..] == LE(n - 1, v / 256);
    }
  }

  lemma {:induction false} LEOfFromLE(s: seq<byte>)
    ensures LE(|s|, FromLE(s)) == s
  {
    if s != [] {
      LEOfFromLE(s[1..]);
      assert FromLE(s) % 256 == s[0] && FromLE(s) / 256 == FromLE(s[1..]);
    }
  }

  lemma FromLEInjective(s: seq<byte>, t: seq<byte>)
    requires |s| == |t| && FromLE(s) == FromLE(t)
    ensures s == t
  {
    LEOfFromLE(s);
    LEOfFromLE(t);
  }

  /** Octet k is the digit of weight 256^k: the least significant one comes first. */
  lemma {:induction false} LEOctet(n: nat, v: nat, k: nat)
    requires k < n
    ensures LE(n, v)[k] == v / Pow256(k) % 256
  {
    if k > 0 {
      LEOctet(n - 1, v / 256, k - 1);
      DivTwice(v, 256, Pow256(k - 1));
    }
  }

  lemma DivTwice(v: nat, a: nat, b: nat)
    requires a > 0 && b > 0
    ensures a * b > 0 && v / (a * b) == v / a / b
  {
    var q := v / a;
    var p, r := q / b, q % b;
    Split(v, a, b, p, r, v % a);
    MulGrows(a, r + 1, b);
    QuotientIs(v, a * b, p, a * r + v % a);
  }

  lemma Split(v: nat, a: nat, b: nat, p: nat, r: nat, t: nat)
    requires v == a * (b * p + r) + t
    ensures v == a * b * p + (a * r + t)
  {
    assert a * (b * p + r) == a * (b * p) + a * r;
    assert a * (b * p) == a * b * p;
  }

  lemma QuotientIs(v: nat, m: nat, p: nat, r: nat)
    requires r < m && v == m * p + r
    ensures v / m == p
  {
    var q := v / m;
    assert m * q + v % m == v;
    if q > p {
      MulGrows(m, p + 1, q);
    } else if q < p {
      MulGrows(m, q + 1, p);
    }
  }

  lemma MulGrows(m: nat, a: nat, b: nat)
    requires a <= b
    ensures m * a <= m * b && m * a == m * (a - 1) + m
  {
    assert m * b == m * a + m * (b - a);
  }

  lemma {:induction false} FromLESmall(s: seq<byte>)
    ensures FromLE(s) < Pow256(|s|)
  {
    if s != [] {
      FromLESmall(s[1..]);
    }
  }

  /** Reading octets gives the number whose digits they are. */
  lemma FromLEOctet(s: seq<byte>, k: nat)
    requires k < |s|
    ensures s[k] == FromLE(s) / Pow256(k) % 256
  {
    LEOfFromLE(s);
    LEOctet(|s|, FromLE(s), k);
  }

  // ---------------------------------------------------------------- 32-bit fields

  /** The little-endian 32-bit field of d at i. */
  function U32At(d: seq<byte>, i: nat): nat
    requires i + 4 <= |d|
  {
    FromLE(d[i..i + 4])
  }

  /** Least significant octet first. */
  lemma U32AtOctets(d: seq<byte>, i: nat)
    requires i + 4 <= |d|
    ensures U32At(d, i) == d[i] as nat + 256 * d[i + 1] as nat + 65536 * d[i + 2] as nat + 16777216 * d[i + 3] as nat
  {
    var s := d[i..i + 4];
    assert s[1..][1..] == s[2..] && s[2..][1..] == s[3..] && s[3..][1..] == [];
    assert FromLE(s[3..]) == s[3];
    assert FromLE(s[2..]) == s[2] as nat + 256 * FromLE(s[3..]);
    assert FromLE(s[1..]) == s[1] as nat + 256 * FromLE(s[2..]);
  }

  lemma Pow256Of4()
    ensures Pow256(4) == U32_MOD
  {
    assert Pow256(2) == 256 * Pow256(1);
    assert Pow256(3) == 256 * Pow256(2);
  }

  lemma OctetsReadBack(v: nat)
    requires v < U32_MOD
    ensures FromLE(LE(4, v)) == v
  {
    Pow256Of4();
    FromLEOfLE(4, v);
  }

  /** The four octets that read as v (taken modulo 2^32). */
  ghost function U32LE(v: nat): (s: seq<byte>)
    ensures |s| == 4 && FromLE(s) == v % U32_MOD
  {
    OctetsReadBack(v % U32_MOD);
    var s: seq<byte> :| |s| == 4 && FromLE(s) == v % U32_MOD;
    s
  }

  /** A field reads as v exactly when its four octets are those of v. */
  lemma FieldIff(d: seq<byte>, i: nat, v: nat)
    requires i + 4 <= |d| && v < U32_MOD
    ensures U32At(d, i) == v <==> d[i..i + 4] == U32LE(v)
  {
    if U32At(d, i) == v {
      FromLEInjective(d[i..i + 4], U32LE(v));
    }
  }

  /** A 32-bit number as octets, least significant first. */
  function Octets(v: nat): (s: seq<byte>)
    ensures |s| == 4
  {
    [v % 256, v / 256 % 256, v / 65536 % 256, v / 16777216 % 256]
  }

  /** The octets of a written field. */
  lemma U32LEOctets(v: nat)
    requires v < U32_MOD
    ensures U32LE(v) == Octets(v)
  {
    OctetsReadBack(v);
    FromLEInjective(U32LE(v), LE(4, v));
    assert Pow256(1) == 256 && Pow256(2) == 65536 && Pow256(3) == 16777216;
    LEOctet(4, v, 0);
    LEOctet(4, v, 1);
    LEOctet(4, v, 2);
    LEOctet(4, v, 3);
  }

  lemma FieldReads(d: seq<byte>, v: nat)
    requires 4 <= |d| && v < U32_MOD && d[0..4] == U32LE(v)
    ensures U32At(d, 0) == v
  {
  }

  // ---------------------------------------------------------------- text

  /** A text of the source as octets; there is nothing outside ASCII in it. */
  function Ascii(t: string): (s: seq<byte>)
    ensures |s| == |t|
  {
    seq(|t|, i requires 0 <= i < |t| => if t[i] as int < 128 then t[i] as int else 0)
  }

  // ---------------------------------------------------------------- C strings

  predicate NulFree(s: seq<byte>) {
    0 !in s
  }

  /** What strlen, strcmp and strstr see of a buffer: everything before its first NUL. */
  function CStr(s: seq<byte>): (r: seq<byte>)
    ensures r <= s
    ensures NulFree(r)
    ensures |r| < |s| ==> s[|r|] == 0
  {
    if s == [] || s[0] == 0 then [] else [s[0]] + CStr(s[1..])
  }

  lemma {:induction false} CStrUnique(s: seq<byte>, r: seq<byte>)
    requires r <= s && NulFree(r)
    requires |r| < |s| ==> s[|r|] == 0
    ensures CStr(s) == r
  {
    if s != [] && s[0] != 0 {
      CStrUnique(s[1..], r[1..]);
    }
  }

  lemma NulFreeIsOwnCStr(s: seq<byte>)
    ensures NulFree(s) <==> CStr(s) == s
  {
    if NulFree(s) {
      CStrUnique(s, s);
    }
  }

  // ---------------------------------------------------------------- concatenations

  lemma Assoc(a: seq<byte>, b: seq<byte>, c: seq<byte>)
    ensures a + b + c == a + (b + c)
  {
  }

  /** A text has one cut at its first c. */
  lemma FirstSplit(c: byte, a: seq<byte>, b: seq<byte>, x: seq<byte>, y: seq<byte>)
    requires c !in a && c !in x && a + [c] + b == x + [c] + y
    ensures a == x && b == y
  {
    var s := a + [c] + b;
    assert s[..|a|] == a && s[|a|] == c && s[|a| + 1..] == b;
    assert s[..|x|] == x && s[|x|] == c && s[|x| + 1..] == y;
    assert forall k :: 0 <= k < |a| ==> s[k] == a[k];
    assert forall k :: 0 <= k < |x| ==> s[k] == x[k];
  }

  // ---------------------------------------------------------------- first match

  /** The first position from i on whose element satisfies p, or the length. */
  function FirstWhere<T>(s: seq<T>, p: T -> bool, i: nat): (r: nat)
    requires i <= |s|
    ensures i <= r <= |s| && (r < |s| ==> p(s[r]))
    ensures forall j :: i <= j < r ==> !p(s[j])
    decreases |s| - i
  {
    if i == |s| || p(s[i]) then i else FirstWhere(s, p, i + 1)
  }

  // ---------------------------------------------------------------- substring search

  predicate At(s: seq<byte>, i: int, pat: seq<byte>) {
    0 <= i && i + |pat| <= |s| && s[i..i + |pat|] == pat
  }

  /** r is the first position of pat in s, or -1 when there is none. */
  ghost predicate IsFirst(s: seq<byte>, pat: seq<byte>, r: int) {
    && -1 <= r
    && (r >= 0 ==> At(s, r, pat) && forall j :: 0 <= j < r ==> !At(s, j, pat))
    && (r == -1 ==> forall j :: 0 <= j ==> !At(s, j, pat))
  }

  function FirstFrom(s: seq<byte>, pat: seq<byte>, from: nat): (r: int)
    requires from <= |s|
    ensures r >= 0 ==> from <= r && At(s, r, pat) && forall j :: from <= j < r ==> !At(s, j, pat)
    ensures r < 0 ==> r == -1 && forall j :: from <= j ==> !At(s, j, pat)
    decreases |s| - from
  {
    if At(s, from, pat) then from
    else if from == |s| then -1
    else FirstFrom(s, pat, from + 1)
  }

  function First(s: seq<byte>, pat: seq<byte>): (r: int)
    ensures IsFirst(s, pat, r)
  {
    FirstFrom(s, pat, 0)
  }

  lemma FirstUnique(s: seq<byte>, pat: seq<byte>, r: int)
    requires IsFirst(s, pat, r)
    ensures First(s, pat) == r
  {
  }
}
