/**
 The number of header fields the callout reports for a response (src/proxy_wasm_http.c). The code
 counts line feeds, the fields are the lines between CRLFs; bare line feeds tell the two apart.
 */
module HeaderCount {
  import opened Bytes
  import opened HttpText
  import opened HttpFields

  /** Line feeds before q. */
  function Feeds(s: seq<byte>, q: nat): nat
    requires q <= |s|
  {
    if q == 0 then 0 else Feeds(s, q - 1) + if s[q - 1] == 10 then 1 else 0
  }

  /** A line feed that ends a CRLF. */
  predicate Paired(s: seq<byte>, k: nat)
    requires k < |s|
  {
    s[k] == 10 && k > 0 && s[k - 1] == 13
  }

  predicate Bare(s: seq<byte>, k: nat)
    requires k < |s|
  {
    s[k] == 10 && !Paired(s, k)
  }

  /** CRLFs that end before q. */
  function Ends(s: seq<byte>, q: nat): nat
    requires q <= |s|
  {
    if q == 0 then 0 else Ends(s, q - 1) + if Paired(s, q - 1) then 1 else 0
  }

  // ---------------------------------------------------------------- the loop

  /** Lines passed at p: those ended by a line feed, and an unended last one. */
  function Passed(s: seq<byte>, p: nat): nat
    requires p <= |s|
  {
    Feeds(s, p) + if 0 < p == |s| && s[p - 1] != 10 then 1 else 0
  }

  lemma {:induction false} NoFeeds(s: seq<byte>, p: nat, q: nat)
    requires p <= q <= |s| && forall k :: p <= k < q ==> s[k] != 10
    ensures Feeds(s, q) == Feeds(s, p)
  {
    if p < q {
      NoFeeds(s, p, q - 1);
    }
  }

  /** Past the line at p: behind its line feed, or the end. */
  method SkipLine(s: seq<byte>, from: nat) returns (p: nat)
    requires from < |s|
    ensures from < p <= |s| && Passed(s, p) == Passed(s, from) + 1
  {
    p := from;
    while p < |s| && s[p] != 10
      invariant from <= p <= |s| && forall k :: from <= k < p ==> s[k] != 10
    {
      p := p + 1;
    }
    NoFeeds(s, from, p);
    if p < |s| {
      p := p + 1;
    }
  }

  /** All lines but the first, or 0 for no bytes at all. */
  function FieldCount(s: seq<byte>): nat {
    if s == [] || Passed(s, |s|) == 0 then 0 else Passed(s, |s|) - 1
  }

  /** The count over the bytes before the blank line. */
  method CountHeaders(s: seq<byte>) returns (n: nat)
    ensures n == FieldCount(s)
  {
    n := 0;
    if |s| > 0 {
      var p := SkipLine(s, 0);
      while p < |s|
        invariant 0 < p <= |s| && Passed(s, p) == n + 1
      {
        n := n + 1;
        p := SkipLine(s, p);
      }
    }
  }

  // ---------------------------------------------------------------- against the lines

  lemma PairedAt(s: seq<byte>, k: nat)
    requires k + 1 < |s|
    ensures At(s, k, CRLF) <==> Paired(s, k + 1)
  {
    assert s[k..k + 2] == [s[k], s[k + 1]];
  }

  lemma {:induction false} NoEnds(s: seq<byte>, p: nat, q: nat)
    requires p <= q <= |s| && forall k :: p <= k < q ==> !Paired(s, k)
    ensures Ends(s, q) == Ends(s, p)
  {
    if p < q {
      NoEnds(s, p, q - 1);
    }
  }

  /** Splitting at CRLF gives as many lines as there are CRLFs. */
  lemma {:induction false} LinesAreEnds(s: seq<byte>, p: nat)
    requires p <= |s| && (p < |s| ==> !Paired(s, p))
    ensures |LinesFrom(s, p)| == Ends(s, |s|) - Ends(s, p)
    decreases |s| - p
  {
    var e := FirstFrom(s, CRLF, p);
    var q := if e < 0 then |s| else e + 1;
    forall k | p <= k < q
      ensures !Paired(s, k)
    {
      if k > p {
        PairedAt(s, k - 1);
      }
    }
    NoEnds(s, p, q);
    if e >= 0 {
      PairedAt(s, e);
      LinesAreEnds(s, e + 2);
      assert Ends(s, e + 2) == Ends(s, e + 1) + 1;
    }
  }

  lemma {:induction false} EndsLocal(s: seq<byte>, t: seq<byte>, q: nat)
    requires q <= |t| && t <= s
    ensures Ends(s, q) == Ends(t, q)
  {
    if q > 0 {
      EndsLocal(s, t, q - 1);
    }
  }

  /** Feeds are the CRLFs and the bare ones; there are none of the latter exactly when the two counts agree. */
  lemma {:induction false} FeedsSplit(s: seq<byte>, q: nat)
    requires q <= |s|
    ensures Ends(s, q) <= Feeds(s, q)
    ensures Feeds(s, q) == Ends(s, q) <==> forall k :: 0 <= k < q ==> !Bare(s, k)
  {
    if q > 0 {
      FeedsSplit(s, q - 1);
      assert Bare(s, q - 1) <==> s[q - 1] == 10 && !Paired(s, q - 1);
    }
  }

  /** The head before its blank line, which is the first. */
  predicate IsHead(s: seq<byte>) {
    |s| >= 2 ==> !Paired(s, |s| - 1)
  }

  /** The lines of a head with its blank line: the status line, the fields and the empty line. */
  lemma HeadLineCount(s: seq<byte>)
    requires IsHead(s)
    ensures |LinesFrom(s + [13, 10, 13, 10], 0)| == Ends(s, |s|) + 2
  {
    var t := s + [13, 10, 13, 10];
    var h := |s|;
    LinesAreEnds(t, 0);
    EndsLocal(t, s, h);
    assert !Paired(t, h) && Paired(t, h + 1) && !Paired(t, h + 2) && Paired(t, h + 3);
    assert Ends(t, h + 1) == Ends(t, h);
    assert Ends(t, h + 2) == Ends(t, h + 1) + 1;
    assert Ends(t, h + 3) == Ends(t, h + 2);
    assert Ends(t, h + 4) == Ends(t, h + 3) + 1;
  }

  /** The count is the number of fields exactly when no line feed is bare, but for one right before the blank line. */
  lemma CountIff(s: seq<byte>)
    requires IsHead(s)
    ensures FieldCount(s) == |LinesFrom(s + [13, 10, 13, 10], 0)| - 2 <==> forall k :: 0 <= k < |s| - 1 ==> !Bare(s, k)
  {
    HeadLineCount(s);
    if s != [] {
      FeedsSplit(s, |s| - 1);
    }
  }
}
