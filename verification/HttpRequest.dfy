/**
 The request head of an HTTP callout (src/proxy_wasm_http.c): chosen from the guest's header
 pairs, checked, and printed. The receiver's view is HttpFields: splitting at CRLF and reading
 fields gives back exactly what was put in.
 */
module HttpRequest {
  import opened Bytes
  import opened HttpText
  import opened HttpFields
  import opened HeaderCodec

  const GET: seq<byte> := [71, 69, 84]
  const SLASH: seq<byte> := [47]
  /** ":method" */
  const METHOD_KEY: seq<byte> := [58, 109, 101, 116, 104, 111, 100]
  /** ":path" */
  const PATH_KEY: seq<byte> := [58, 112, 97, 116, 104]
  /** " HTTP/1.1" */
  const VERSION: seq<byte> := [32, 72, 84, 84, 80, 47, 49, 46, 49]
  const HOST: seq<byte> := [72, 111, 115, 116]
  /** "Content-Length" */
  const CONTENT_LENGTH: seq<byte> := [67, 111, 110, 116, 101, 110, 116, 45, 76, 101, 110, 103, 116, 104]
  /** "Connection" */
  const CONNECTION: seq<byte> := [67, 111, 110, 110, 101, 99, 116, 105, 111, 110]
  /** "keep-alive" */
  const KEEP_ALIVE: seq<byte> := [107, 101, 101, 112, 45, 97, 108, 105, 118, 101]
  const CLOSE: seq<byte> := [99, 108, 111, 115, 101]

  const EXTRA_SIZE := 4096
  const REQUEST_SIZE := 8192

  // ---------------------------------------------------------------- what a head says

  datatype Head = Head(
    verb: seq<byte>, path: seq<byte>, host: seq<byte>, length: nat, keepAlive: bool, extra: seq<Pair>)

  predicate Sendable(h: Head) {
    && IsToken(h.verb) && PathOk(h.path) && HostOk(h.host)
    && forall i :: 0 <= i < |h.extra| ==> FieldOk(h.extra[i])
  }

  predicate FieldOk(p: Pair) {
    IsToken(p.key) && ValueOk(p.value)
  }

  function RequestLine(verb: seq<byte>, path: seq<byte>): seq<byte> {
    verb + [32] + path + VERSION
  }

  function FieldText(key: seq<byte>, value: seq<byte>): seq<byte> {
    key + [58, 32] + value
  }

  function ExtraLines(extra: seq<Pair>): (lines: seq<seq<byte>>)
    ensures |lines| == |extra|
    ensures forall i :: 0 <= i < |extra| ==> lines[i] == FieldText(extra[i].key, extra[i].value)
  {
    seq(|extra|, i requires 0 <= i < |extra| => FieldText(extra[i].key, extra[i].value))
  }

  function ConnectionText(keepAlive: bool): seq<byte> {
    FieldText(CONNECTION, if keepAlive then KEEP_ALIVE else CLOSE)
  }

  /** The fields the callout writes itself. */
  function OwnLines(h: Head): seq<seq<byte>> {
    if h.length > 0 then
      [RequestLine(h.verb, h.path), FieldText(HOST, h.host), FieldText(CONTENT_LENGTH, PrintDec(h.length)),
       ConnectionText(h.keepAlive)]
    else
      [RequestLine(h.verb, h.path), FieldText(HOST, h.host), ConnectionText(h.keepAlive)]
  }

  /** The lines of the head with the empty line that ends it. */
  function HeadLines(h: Head): seq<seq<byte>> {
    OwnLines(h) + ExtraLines(h.extra) + [[]]
  }

  /** Lines i, i+1, ... each followed by CRLF. */
  function Text(lines: seq<seq<byte>>, i: nat): seq<byte>
    requires i <= |lines|
    decreases |lines| - i
  {
    if i == |lines| then [] else lines[i] + CRLF + Text(lines, i + 1)
  }

  // ---------------------------------------------------------------- splitting undoes joining

  lemma {:induction false} TextAppend(lines: seq<seq<byte>>, more: seq<seq<byte>>, i: nat)
    requires i <= |lines|
    ensures Text(lines + more, i) == Text(lines, i) + Text(more, 0)
    decreases |lines| - i
  {
    if i == |lines| {
      TextSuffix(lines, more, 0);
    } else {
      TextAppend(lines, more, i + 1);
      assert (lines + more)[i] == lines[i];
      Assoc(lines[i] + CRLF, Text(lines, i + 1), Text(more, 0));
    }
  }

  lemma {:induction false} TextSuffix(lines: seq<seq<byte>>, more: seq<seq<byte>>, i: nat)
    requires i <= |more|
    ensures Text(lines + more, |lines| + i) == Text(more, i)
    decreases |more| - i
  {
    if i < |more| {
      TextSuffix(lines, more, i + 1);
      assert (lines + more)[|lines| + i] == more[i];
    }
  }

  predicate NoCR(lines: seq<seq<byte>>) {
    forall i :: 0 <= i < |lines| ==> 13 !in lines[i]
  }

  /** Splitting a joined text at CRLF gives its lines back. */
  lemma {:induction false} LinesOfText(s: seq<byte>, p: nat, lines: seq<seq<byte>>, i: nat)
    requires i <= |lines| && NoCR(lines) && p <= |s| && s[p..] == Text(lines, i)
    ensures LinesFrom(s, p) == lines[i..]
    decreases |lines| - i
  {
    if i == |lines| {
      assert p == |s|;
      NoLines(s);
    } else {
      var line, rest := lines[i], Text(lines, i + 1);
      FirstLine(s, p, line, rest);
      LinesOfText(s, p + |line| + 2, lines, i + 1);
      assert lines[i..] == [line] + lines[i + 1..];
    }
  }

  lemma NoLines(s: seq<byte>)
    ensures LinesFrom(s, |s|) == []
  {
  }

  lemma FirstLine(s: seq<byte>, p: nat, line: seq<byte>, rest: seq<byte>)
    requires p <= |s| && 13 !in line && s[p..] == line + CRLF + rest
    ensures var e := p + |line|; e + 2 <= |s| && s[e + 2..] == rest && LinesFrom(s, p) == [line] + LinesFrom(s, e + 2)
  {
    LineEndsAt(s, p, line, rest);
  }

  lemma LineEndsAt(s: seq<byte>, p: nat, line: seq<byte>, rest: seq<byte>)
    requires p <= |s| && 13 !in line && s[p..] == line + CRLF + rest
    ensures var e := p + |line|; e + 2 <= |s| && FirstFrom(s, CRLF, p) == e && s[p..e] == line && s[e + 2..] == rest
  {
    var t := s[p..];
    var e := p + |line|;
    assert forall k :: p <= k < |s| ==> s[k] == t[k - p];
    assert s[p..e] == line && s[e + 2..] == rest;
    assert s[e..e + 2] == CRLF;
    assert At(s, e, CRLF);
    forall j | p <= j < e
      ensures !At(s, j, CRLF)
    {
      assert s[j] == line[j - p];
      if j + 2 <= |s| {
        assert s[j..j + 2][0] == s[j];
      }
    }
  }

  // ---------------------------------------------------------------- what the receiver reads

  function HeadText(h: Head): seq<byte> {
    Text(HeadLines(h), 0)
  }

  lemma FieldNoCR(key: seq<byte>, value: seq<byte>)
    requires 13 !in key && 13 !in value
    ensures 13 !in FieldText(key, value)
  {
  }

  lemma TokenPlain(s: seq<byte>)
    requires IsToken(s)
    ensures 13 !in s && 58 !in s && 32 !in s
  {
  }

  lemma HeadNoCR(h: Head)
    requires Sendable(h)
    ensures NoCR(HeadLines(h))
  {
    TokenPlain(h.verb);
    var own, extra := OwnLines(h), ExtraLines(h.extra);
    assert NoCR(own) by {
      FieldNoCR(HOST, h.host);
      FieldNoCR(CONTENT_LENGTH, PrintDec(h.length));
    }
    forall i | 0 <= i < |h.extra|
      ensures 13 !in extra[i]
    {
      var p := h.extra[i];
      assert FieldOk(p);
      TokenPlain(p.key);
      FieldNoCR(p.key, p.value);
    }
  }

  /** Splitting the printed head at CRLF gives the request line, the fields in order and the empty line. */
  lemma HeadSplits(h: Head)
    requires Sendable(h)
    ensures LinesFrom(HeadText(h), 0) == HeadLines(h)
  {
    HeadNoCR(h);
    var s, lines := HeadText(h), HeadLines(h);
    assert s[0..] == s && lines[0..] == lines;
    LinesOfText(s, 0, lines, 0);
  }

  predicate NoBlank(s: seq<byte>) {
    forall i :: 0 <= i < |s| ==> !IsBlank(s[i])
  }

  /** The fields of a head, the callout's own first. */
  function OwnFields(h: Head): seq<Pair> {
    var option := Pair(CONNECTION, if h.keepAlive then KEEP_ALIVE else CLOSE);
    if h.length > 0 then [Pair(HOST, h.host), Pair(CONTENT_LENGTH, PrintDec(h.length)), option]
    else [Pair(HOST, h.host), option]
  }

  function Fields(h: Head): seq<Pair> {
    OwnFields(h) + h.extra
  }

  /** Line i + 1 of the head prints field i; the empty line follows. */
  lemma LinesAreFields(h: Head)
    ensures var lines, fs := HeadLines(h), Fields(h);
            && |lines| == |fs| + 2 && lines[|fs| + 1] == []
            && forall k :: 1 <= k <= |fs| ==> lines[k] == FieldText(fs[k - 1].key, fs[k - 1].value)
  {
    var own, extra := OwnFields(h), ExtraLines(h.extra);
    forall k | 1 <= k <= |Fields(h)|
      ensures HeadLines(h)[k] == FieldText(Fields(h)[k - 1].key, Fields(h)[k - 1].value)
    {
      if k <= |own| {
        assert HeadLines(h)[k] == OwnLines(h)[k];
      } else {
        assert HeadLines(h)[k] == extra[k - 1 - |own|];
      }
    }
  }

  lemma KeysPlain(h: Head)
    requires Sendable(h)
    ensures forall i :: 0 <= i < |Fields(h)| ==> 58 !in Fields(h)[i].key
  {
    forall i | 0 <= i < |h.extra|
      ensures 58 !in h.extra[i].key
    {
      assert FieldOk(h.extra[i]);
      TokenPlain(h.extra[i].key);
    }
  }

  /** A printed field has a name exactly up to letter case, and its value up to blanks around it. */
  lemma NamedIff(key: seq<byte>, value: seq<byte>, name: seq<byte>)
    requires 58 !in key && 58 !in name
    ensures Named(FieldText(key, value), name) <==> EqFold(key, name)
    ensures FieldText(key, value) != [] && FieldText(key, value)[|key| + 1..] == [32] + value
  {
    var line := FieldText(key, value);
    assert line[..|key|] == key && line[|key|] == 58;
    if !EqFold(key, name) {
      NotNamed(line, name, |key|);
    }
  }

  lemma BlanksShift(value: seq<byte>, i: nat, j: nat)
    requires i <= j <= |value|
    ensures Blanks([32] + value, i + 1, j + 1) <==> Blanks(value, i, j)
  {
    var s := [32] + value;
    assert forall k :: 1 <= k < |s| ==> s[k] == value[k - 1];
    if Blanks(s, i + 1, j + 1) {
      forall k | i <= k < j
        ensures IsBlank(value[k])
      {
        assert IsBlank(s[k + 1]);
      }
    }
  }

  lemma TrimmedShift(value: seq<byte>, i: nat, j: nat)
    requires i <= j <= |value|
    ensures TrimmedAt([32] + value, i + 1, j + 1) <==> TrimmedAt(value, i, j)
    ensures ([32] + value)[i + 1..j + 1] == value[i..j]
  {
    var s := [32] + value;
    BlanksShift(value, 0, i);
    BlanksShift(value, j, |value|);
    assert forall k :: 1 <= k < |s| ==> s[k] == value[k - 1];
    assert Blanks(s, 0, i + 1) <==> Blanks(s, 1, i + 1);
    assert i < j ==> s[i + 1] == value[i] && s[j] == value[j - 1];
    assert s[i + 1..j + 1] == value[i..j];
  }

  lemma TrimmedInside(value: seq<byte>, i: nat, j: nat)
    requires TrimmedAt([32] + value, i, j)
    ensures Trimmed(value, ([32] + value)[i..j])
  {
    var s := [32] + value;
    if i == j {
      BlanksShift(value, 0, |value|);
      assert Blanks(s, 1, |s|);
      assert TrimmedAt(value, 0, 0);
      assert s[i..j] == value[0..0];
    } else {
      assert i > 0;
      TrimmedShift(value, i - 1, j - 1);
    }
  }

  lemma TrimmedBehindBlank(value: seq<byte>, v: seq<byte>)
    ensures Trimmed([32] + value, v) <==> Trimmed(value, v)
  {
    var s := [32] + value;
    if Trimmed(value, v) {
      var i: nat, j: nat :| TrimmedAt(value, i, j) && v == value[i..j];
      TrimmedShift(value, i, j);
      assert TrimmedAt(s, i + 1, j + 1);
    } else if Trimmed(s, v) {
      var i: nat, j: nat :| TrimmedAt(s, i, j) && v == s[i..j];
      TrimmedInside(value, i, j);
    }
  }

  /** Field i is the first of that name. */
  predicate FirstField(fs: seq<Pair>, i: nat, name: seq<byte>) {
    i < |fs| && EqFold(fs[i].key, name) && forall j :: 0 <= j < i ==> !EqFold(fs[j].key, name)
  }

  /** Lines and fields agree on which have that name. */
  ghost predicate Agree(lines: seq<seq<byte>>, fs: seq<Pair>, name: seq<byte>) {
    && |lines| == |fs| + 2 && lines[|fs| + 1] == []
    && forall k :: 1 <= k <= |fs| ==> lines[k] != [] && (Named(lines[k], name) <==> EqFold(fs[k - 1].key, name))
  }

  lemma HeadAgrees(h: Head, name: seq<byte>)
    requires Sendable(h) && 58 !in name
    ensures Agree(HeadLines(h), Fields(h), name)
  {
    var lines, fs := HeadLines(h), Fields(h);
    LinesAreFields(h);
    KeysPlain(h);
    forall k | 1 <= k <= |fs|
      ensures lines[k] != [] && (Named(lines[k], name) <==> EqFold(fs[k - 1].key, name))
    {
      NamedIff(fs[k - 1].key, fs[k - 1].value, name);
    }
  }

  lemma FieldLineIff(lines: seq<seq<byte>>, fs: seq<Pair>, k: nat, name: seq<byte>)
    requires Agree(lines, fs, name)
    ensures FieldLine(lines, k, name) <==> 1 <= k && FirstField(fs, k - 1, name)
  {
    if FieldLine(lines, k, name) {
      forall j | 0 <= j < k - 1
        ensures !EqFold(fs[j].key, name)
      {
        assert !Named(lines[j + 1], name);
      }
    }
  }

  /** Whatever the name, a receiver's lookup in the printed head finds the first field of that name. */
  lemma LookupIff(h: Head, name: seq<byte>, v: seq<byte>)
    requires Sendable(h) && 58 !in name
    ensures FieldValue(HeadText(h), name, v) <==>
              exists i: nat :: FirstField(Fields(h), i, name) && Trimmed(Fields(h)[i].value, v)
  {
    var lines, fs := HeadLines(h), Fields(h);
    HeadSplits(h);
    HeadAgrees(h, name);
    if k: nat :| FieldLine(lines, k, name) && Trimmed(lines[k][|name| + 1..], v) {
      FieldLineIff(lines, fs, k, name);
      ValueAt(h, k - 1, name, v);
    }
    if i: nat :| FirstField(fs, i, name) && Trimmed(fs[i].value, v) {
      FieldLineIff(lines, fs, i + 1, name);
      ValueAt(h, i, name, v);
    }
  }

  lemma ValueAt(h: Head, i: nat, name: seq<byte>, v: seq<byte>)
    requires Sendable(h) && 58 !in name && i < |Fields(h)| && EqFold(Fields(h)[i].key, name)
    ensures i + 1 < |HeadLines(h)| && |name| < |HeadLines(h)[i + 1]|
    ensures Trimmed(HeadLines(h)[i + 1][|name| + 1..], v) <==> Trimmed(Fields(h)[i].value, v)
  {
    LinesAreFields(h);
    KeysPlain(h);
    NamedIff(Fields(h)[i].key, Fields(h)[i].value, name);
    TrimmedBehindBlank(Fields(h)[i].value, v);
  }

  lemma OwnValueReadsBack(h: Head, i: nat, value: seq<byte>)
    requires Sendable(h) && i < |OwnFields(h)| && value == OwnFields(h)[i].value && NoBlank(value)
    ensures FieldValue(HeadText(h), OwnFields(h)[i].key, value)
  {
    var fs := Fields(h);
    assert fs[i] == OwnFields(h)[i];
    assert FirstField(fs, i, fs[i].key) by { OwnNamesDiffer(h, i); }
    assert TrimmedAt(value, 0, |value|) && value == value[0..|value|];
    KeysPlain(h);
    LookupIff(h, fs[i].key, value);
  }

  lemma OwnNamesDiffer(h: Head, i: nat)
    requires i < |OwnFields(h)|
    ensures forall j :: 0 <= j < |OwnFields(h)| && j != i ==> !EqFold(OwnFields(h)[j].key, OwnFields(h)[i].key)
    ensures forall j :: 0 <= j < |OwnFields(h)| ==> Fields(h)[j] == OwnFields(h)[j]
  {
    assert |HOST| == 4 && |CONTENT_LENGTH| == 14 && |CONNECTION| == 10;
  }

  /** The receiver reads the host the callout chose, */
  lemma HostReadsBack(h: Head)
    requires Sendable(h)
    ensures FieldValue(HeadText(h), HOST, h.host)
  {
    OwnValueReadsBack(h, 0, h.host);
  }

  /** ... the length of the body that follows, */
  lemma LengthReadsBack(h: Head)
    requires Sendable(h) && h.length > 0
    ensures FieldValue(HeadText(h), CONTENT_LENGTH, PrintDec(h.length)) && IsSize(PrintDec(h.length), h.length)
  {
    var n := PrintDec(h.length);
    OwnValueReadsBack(h, 1, n);
    DecOfPrint(h.length);
    assert SizeAt(n, 0, |n|);
  }

  /** ... and whether the connection stays open, whatever the guest's own fields are called. */
  lemma ConnectionReadsBack(h: Head)
    requires Sendable(h)
    ensures FieldValue(HeadText(h), CONNECTION, if h.keepAlive then KEEP_ALIVE else CLOSE)
  {
    var i := |OwnFields(h)| - 1;
    assert OwnFields(h)[i].key == CONNECTION;
    OwnValueReadsBack(h, i, OwnFields(h)[i].value);
  }

  lemma FirstBehind(own: seq<Pair>, extra: seq<Pair>, name: seq<byte>, i: nat)
    requires forall j :: 0 <= j < |own| ==> !EqFold(own[j].key, name)
    ensures FirstField(own + extra, i, name) <==> |own| <= i && FirstField(extra, i - |own|, name)
  {
    var fs := own + extra;
    assert forall j :: 0 <= j < |own| ==> fs[j] == own[j];
    assert forall j :: |own| <= j < |fs| ==> fs[j] == extra[j - |own|];
    if FirstField(fs, i, name) {
      forall j | 0 <= j < i - |own|
        ensures !EqFold(extra[j].key, name)
      {
        assert fs[j + |own|] == extra[j];
      }
    }
  }

  /**
   Without a body a receiver reads a Content-Length exactly when the guest's fields hold one, and
   then the first of them.
   */
  lemma LengthWithoutBody(h: Head, v: seq<byte>)
    requires Sendable(h) && h.length == 0
    ensures FieldValue(HeadText(h), CONTENT_LENGTH, v) <==>
              exists i: nat :: FirstField(h.extra, i, CONTENT_LENGTH) && Trimmed(h.extra[i].value, v)
  {
    var own, fs := OwnFields(h), Fields(h);
    LookupIff(h, CONTENT_LENGTH, v);
    assert |CONTENT_LENGTH| == 14 && |HOST| == 4 && |CONNECTION| == 10;
    assert forall j :: 0 <= j < |own| ==> !EqFold(own[j].key, CONTENT_LENGTH);
    if i: nat :| FirstField(fs, i, CONTENT_LENGTH) && Trimmed(fs[i].value, v) {
      FirstBehind(own, h.extra, CONTENT_LENGTH, i);
      assert fs[i] == h.extra[i - |own|];
    }
    if i: nat :| FirstField(h.extra, i, CONTENT_LENGTH) && Trimmed(h.extra[i].value, v) {
      FirstBehind(own, h.extra, CONTENT_LENGTH, i + |own|);
      assert fs[i + |own|] == h.extra[i];
    }
  }

  /** No line but the callout's own field i has its name. */
  predicate Sole(h: Head, i: nat)
    requires i < |OwnFields(h)|
  {
    forall k :: 1 <= k < |HeadLines(h)| && Named(HeadLines(h)[k], OwnFields(h)[i].key) ==> k == i + 1
  }

  /**
   The head has its own Host, Content-Length or Connection as the only one exactly when no field of
   the guest has that name.
   */
  lemma SoleIff(h: Head, i: nat)
    requires Sendable(h) && i < |OwnFields(h)|
    ensures Sole(h, i) <==> forall j :: 0 <= j < |h.extra| ==> !EqFold(h.extra[j].key, OwnFields(h)[i].key)
  {
    var lines, fs, own := HeadLines(h), Fields(h), OwnFields(h);
    var name := own[i].key;
    OwnNamesDiffer(h, i);
    KeysPlain(h);
    assert 58 !in fs[i].key;
    HeadAgrees(h, name);
    assert forall j :: |own| <= j < |fs| ==> fs[j] == h.extra[j - |own|];
    if Sole(h, i) {
      forall j | 0 <= j < |h.extra|
        ensures !EqFold(h.extra[j].key, name)
      {
        var k := |own| + j + 1;
        assert fs[k - 1] == h.extra[j] && lines[k] != [];
      }
    }
    if forall j :: 0 <= j < |h.extra| ==> !EqFold(h.extra[j].key, name) {
      forall k | 1 <= k < |lines| && Named(lines[k], name)
        ensures k == i + 1
      {
        assert EqFold(fs[k - 1].key, name);
      }
    }
  }

  lemma RequestLineInjective(verb: seq<byte>, path: seq<byte>, verb': seq<byte>, path': seq<byte>)
    requires IsToken(verb) && IsToken(verb') && RequestLine(verb, path) == RequestLine(verb', path')
    ensures verb == verb' && path == path'
  {
    TokenPlain(verb);
    TokenPlain(verb');
    assert RequestLine(verb, path) == verb + [32] + (path + VERSION);
    assert RequestLine(verb', path') == verb' + [32] + (path' + VERSION);
    FirstSplit(32, verb, path + VERSION, verb', path' + VERSION);
    assert (path + VERSION)[..|path|] == path && (path' + VERSION)[..|path'|] == path';
  }

  lemma FieldInjective(key: seq<byte>, value: seq<byte>, key': seq<byte>, value': seq<byte>)
    requires 58 !in key && 58 !in key' && FieldText(key, value) == FieldText(key', value')
    ensures key == key' && value == value'
  {
    assert FieldText(key, value) == key + [58] + ([32] + value);
    assert FieldText(key', value') == key' + [58] + ([32] + value');
    FirstSplit(58, key, [32] + value, key', [32] + value');
    assert ([32] + value)[1..] == value && ([32] + value')[1..] == value';
  }

  /** Two heads that print alike are the same head. */
  lemma HeadInjective(h: Head, g: Head)
    requires Sendable(h) && Sendable(g) && HeadText(h) == HeadText(g)
    ensures h == g
  {
    HeadSplits(h);
    HeadSplits(g);
    SameOwnFields(h, g, HeadLines(h));
    SameExtra(h, g, HeadLines(h));
  }

  lemma SameExtra(h: Head, g: Head, lines: seq<seq<byte>>)
    requires Sendable(h) && Sendable(g) && lines == HeadLines(h) == HeadLines(g) && |OwnLines(h)| == |OwnLines(g)|
    ensures h.extra == g.extra
  {
    var k := |OwnLines(h)|;
    assert |h.extra| == |lines| - k - 1 == |g.extra|;
    forall i | 0 <= i < |h.extra|
      ensures h.extra[i] == g.extra[i]
    {
      assert lines[k + i] == ExtraLines(h.extra)[i] && lines[k + i] == ExtraLines(g.extra)[i];
      assert FieldOk(h.extra[i]) && FieldOk(g.extra[i]);
      TokenPlain(h.extra[i].key);
      TokenPlain(g.extra[i].key);
      FieldInjective(h.extra[i].key, h.extra[i].value, g.extra[i].key, g.extra[i].value);
    }
  }

  lemma SameOwnFields(h: Head, g: Head, lines: seq<seq<byte>>)
    requires IsToken(h.verb) && IsToken(g.verb) && lines == HeadLines(h) == HeadLines(g)
    ensures h.(extra := []) == g.(extra := []) && |OwnLines(h)| == |OwnLines(g)|
  {
    assert lines[0] == OwnLines(h)[0] && lines[0] == OwnLines(g)[0];
    RequestLineInjective(h.verb, h.path, g.verb, g.path);
    assert lines[1] == OwnLines(h)[1] && lines[1] == OwnLines(g)[1];
    FieldInjective(HOST, h.host, HOST, g.host);
    assert lines[2] == OwnLines(h)[2] && lines[2] == OwnLines(g)[2];
    SameLengths(h, g);
    if h.length > 0 {
      assert lines[3] == OwnLines(h)[3] && lines[3] == OwnLines(g)[3];
    }
    assert KEEP_ALIVE[0] != CLOSE[0];
    assert ConnectionText(h.keepAlive)[12] == ConnectionText(g.keepAlive)[12];
  }

  lemma SameLengths(h: Head, g: Head)
    requires OwnLines(h)[2] == OwnLines(g)[2]
    ensures h.length == g.length
  {
    assert OwnLines(h)[2][3] == if h.length > 0 then 116 else 110;
    assert OwnLines(g)[2][3] == if g.length > 0 then 116 else 110;
    if h.length > 0 {
      FieldInjective(CONTENT_LENGTH, PrintDec(h.length), CONTENT_LENGTH, PrintDec(g.length));
      DecOfPrint(h.length);
      DecOfPrint(g.length);
    }
  }

  // ---------------------------------------------------------------- building the head

  /** The value of the last pair with that key among the first n, or the default. */
  function LastValue(ps: seq<Pair>, n: nat, key: seq<byte>, otherwise: seq<byte>): seq<byte>
    requires n <= |ps|
  {
    if n == 0 then otherwise else if ps[n - 1].key == key then ps[n - 1].value else LastValue(ps, n - 1, key, otherwise)
  }

  predicate LastWith(ps: seq<Pair>, n: nat, key: seq<byte>, i: nat)
    requires n <= |ps|
  {
    i < n && ps[i].key == key && forall j :: i < j < n ==> ps[j].key != key
  }

  lemma {:induction false} LastWins(ps: seq<Pair>, n: nat, key: seq<byte>, otherwise: seq<byte>)
    requires n <= |ps|
    ensures || (exists i: nat :: LastWith(ps, n, key, i) && LastValue(ps, n, key, otherwise) == ps[i].value)
            || ((forall j :: 0 <= j < n ==> ps[j].key != key) && LastValue(ps, n, key, otherwise) == otherwise)
  {
    if n > 0 {
      if ps[n - 1].key == key {
        assert LastWith(ps, n, key, n - 1);
      } else {
        LastWins(ps, n - 1, key, otherwise);
        if i: nat :| LastWith(ps, n - 1, key, i) && LastValue(ps, n - 1, key, otherwise) == ps[i].value {
          assert LastWith(ps, n, key, i);
        }
      }
    }
  }

  predicate IsExtra(p: Pair) {
    p.key != [] && p.key[0] != 58
  }

  /** The pairs sent as fields: those whose key is neither empty nor starts with ':'. */
  function Extras(ps: seq<Pair>, n: nat): seq<Pair>
    requires n <= |ps|
  {
    if n == 0 then [] else if IsExtra(ps[n - 1]) then Extras(ps, n - 1) + [ps[n - 1]] else Extras(ps, n - 1)
  }

  /** Every pair whose key is not empty and does not start with ':' is sent, no other is, and they keep their order. */
  lemma {:induction false} ExtrasInOrder(ps: seq<Pair>, n: nat) returns (from: seq<nat>)
    requires n <= |ps|
    ensures |from| == |Extras(ps, n)|
    ensures forall k :: 0 <= k < |from| ==> from[k] < n && Extras(ps, n)[k] == ps[from[k]]
    ensures forall k, l :: 0 <= k < l < |from| ==> from[k] < from[l]
    ensures forall i: nat :: i < n ==> (ps[i].key != [] && ps[i].key[0] != ':' as int <==> i in from)
  {
    from := [];
    if n > 0 {
      from := ExtrasInOrder(ps, n - 1);
      if IsExtra(ps[n - 1]) {
        from := from + [n - 1];
      }
    }
  }

  function ExtraText(ps: seq<Pair>, n: nat): seq<byte>
    requires n <= |ps|
  {
    Text(ExtraLines(Extras(ps, n)), 0)
  }

  predicate AllFieldsOk(extra: seq<Pair>) {
    forall i :: 0 <= i < |extra| ==> FieldOk(extra[i])
  }

  function HeadOf(ps: seq<Pair>, host: seq<byte>, length: nat, keepAlive: bool): Head {
    Head(LastValue(ps, |ps|, METHOD_KEY, GET), LastValue(ps, |ps|, PATH_KEY, SLASH), host, length, keepAlive,
         Extras(ps, |ps|))
  }

  lemma ExtraTextNext(ps: seq<Pair>, n: nat)
    requires n < |ps|
    ensures IsExtra(ps[n]) ==> ExtraText(ps, n + 1) == ExtraText(ps, n) + (FieldText(ps[n].key, ps[n].value) + CRLF)
    ensures !IsExtra(ps[n]) ==> ExtraText(ps, n + 1) == ExtraText(ps, n)
  {
    if IsExtra(ps[n]) {
      var line := FieldText(ps[n].key, ps[n].value);
      var lines := ExtraLines(Extras(ps, n));
      assert ExtraLines(Extras(ps, n + 1)) == lines + [line];
      TextAppend(lines, [line], 0);
      assert Text([line], 1) == [];
      assert Text([line], 0) == line + CRLF;
    }
  }

  /** What the first n pairs contribute stays in what more pairs contribute. */
  lemma {:induction false} ExtrasGrow(ps: seq<Pair>, n: nat, m: nat)
    requires n <= m <= |ps|
    ensures |ExtraText(ps, n)| <= |ExtraText(ps, m)|
    ensures AllFieldsOk(Extras(ps, m)) ==> AllFieldsOk(Extras(ps, n))
  {
    if n < m {
      ExtrasGrow(ps, n, m - 1);
      ExtraTextNext(ps, m - 1);
      if AllFieldsOk(Extras(ps, m)) && IsExtra(ps[m - 1]) {
        assert Extras(ps, m)[..|Extras(ps, m - 1)|] == Extras(ps, m - 1);
        assert forall i :: 0 <= i < |Extras(ps, m - 1)| ==> Extras(ps, m - 1)[i] == Extras(ps, m)[i];
      }
    }
  }

  /** pw_http_append_header: one field into the fixed buffer, keeping room for the final NUL. */
  method AppendHeader(dst: array<byte>, len: nat, key: seq<byte>, value: seq<byte>) returns (ok: bool, len': nat)
    requires len < dst.Length
    modifies dst
    ensures ok <==> IsToken(key) && ValueOk(value) && len + |key| + |value| + 4 < dst.Length
    ensures ok ==> len' == len + |key| + |value| + 4 && dst[..len'] == old(dst[..len]) + (FieldText(key, value) + CRLF)
    ensures !ok ==> len' == len && dst[..len] == old(dst[..len])
  {
    var field := FieldText(key, value) + CRLF;
    if !IsToken(key) || !ValueOk(value) || len + |field| >= dst.Length {
      return false, len;
    }
    CopyInto(dst, len, field);
    return true, len + |field|;
  }

  datatype Built = Request(bytes: seq<byte>) | BadArgument | Internal

  /** The guest's pairs are acceptable as a request to this host. */
  predicate Acceptable(ps: seq<Pair>, h: Head) {
    Sendable(h) && |ExtraText(ps, |ps|)| < EXTRA_SIZE && |h.verb| <= INT_MAX && |h.path| <= INT_MAX
  }

  // ---------------------------------------------------------------- the outcome in the words of the format

  lemma Spelled()
    ensures METHOD_KEY == Ascii(":method") && PATH_KEY == Ascii(":path") && GET == Ascii("GET") && SLASH == Ascii("/")
    ensures VERSION == Ascii(" HTTP/1.1") && HOST == Ascii("Host") && CONTENT_LENGTH == Ascii("Content-Length")
    ensures CONNECTION == Ascii("Connection") && KEEP_ALIVE == Ascii("keep-alive") && CLOSE == Ascii("close")
  {
  }

  function Verb(ps: seq<Pair>): seq<byte> {
    LastValue(ps, |ps|, Ascii(":method"), Ascii("GET"))
  }

  function Path(ps: seq<Pair>): seq<byte> {
    LastValue(ps, |ps|, Ascii(":path"), Ascii("/"))
  }

  /** The lines of the request that the pairs, the upstream and the body ask for. */
  function Wanted(ps: seq<Pair>, host: seq<byte>, length: nat, keepAlive: bool): seq<seq<byte>> {
    var extra := Extras(ps, |ps|);
    [Verb(ps) + Ascii(" ") + Path(ps) + Ascii(" HTTP/1.1"), Ascii("Host: ") + host]
    + (if length > 0 then [Ascii("Content-Length: ") + PrintDec(length)] else [])
    + [if keepAlive then Ascii("Connection: keep-alive") else Ascii("Connection: close")]
    + seq(|extra|, i requires 0 <= i < |extra| => extra[i].key + Ascii(": ") + extra[i].value)
    + [[]]
  }

  lemma FieldSpelled(key: seq<byte>, value: seq<byte>)
    ensures FieldText(key, value) == key + Ascii(": ") + value
  {
    assert [58, 32] == Ascii(": ");
  }

  lemma OwnWanted(ps: seq<Pair>, host: seq<byte>, length: nat, keepAlive: bool)
    ensures OwnLines(HeadOf(ps, host, length, keepAlive))
         == [Verb(ps) + Ascii(" ") + Path(ps) + Ascii(" HTTP/1.1"), Ascii("Host: ") + host]
            + (if length > 0 then [Ascii("Content-Length: ") + PrintDec(length)] else [])
            + [if keepAlive then Ascii("Connection: keep-alive") else Ascii("Connection: close")]
  {
    Spelled();
    assert [32] == Ascii(" ");
    HostSpelled(host);
    LengthSpelled(length);
    ConnectionSpelled(keepAlive);
  }

  lemma HostSpelled(host: seq<byte>)
    ensures FieldText(HOST, host) == Ascii("Host: ") + host
  {
    FieldSpelled(HOST, host);
    assert HOST + Ascii(": ") == Ascii("Host: ");
  }

  lemma LengthSpelled(length: nat)
    ensures FieldText(CONTENT_LENGTH, PrintDec(length)) == Ascii("Content-Length: ") + PrintDec(length)
  {
    FieldSpelled(CONTENT_LENGTH, PrintDec(length));
    assert CONTENT_LENGTH + Ascii(": ") == Ascii("Content-Length: ");
  }

  lemma ConnectionSpelled(keepAlive: bool)
    ensures ConnectionText(keepAlive)
         == if keepAlive then Ascii("Connection: keep-alive") else Ascii("Connection: close")
  {
    FieldSpelled(CONNECTION, if keepAlive then KEEP_ALIVE else CLOSE);
    if keepAlive {
      assert CONNECTION + Ascii(": ") + KEEP_ALIVE == Ascii("Connection: keep-alive");
    } else {
      assert CONNECTION + Ascii(": ") + CLOSE == Ascii("Connection: close");
    }
  }

  lemma HeadWanted(ps: seq<Pair>, host: seq<byte>, length: nat, keepAlive: bool)
    ensures HeadLines(HeadOf(ps, host, length, keepAlive)) == Wanted(ps, host, length, keepAlive)
  {
    OwnWanted(ps, host, length, keepAlive);
    var extra := Extras(ps, |ps|);
    forall i | 0 <= i < |extra|
      ensures ExtraLines(extra)[i] == extra[i].key + Ascii(": ") + extra[i].value
    {
      FieldSpelled(extra[i].key, extra[i].value);
    }
    assert ExtraLines(extra)
        == seq(|extra|, i requires 0 <= i < |extra| => extra[i].key + Ascii(": ") + extra[i].value);
  }

  /** What the fields of the first n pairs take in the buffer. */
  function ExtraSize(ps: seq<Pair>, n: nat): nat
    requires n <= |ps|
  {
    if n == 0 then 0
    else
      ExtraSize(ps, n - 1)
      + if ps[n - 1].key != [] && ps[n - 1].key[0] != 58 then |ps[n - 1].key| + |ps[n - 1].value| + 4 else 0
  }

  /** A method that is a token, a path of visible characters, and fields that are well formed and fit. */
  predicate Permitted(ps: seq<Pair>) {
    && IsToken(Verb(ps)) && |Verb(ps)| <= INT_MAX && PathOk(Path(ps)) && |Path(ps)| <= INT_MAX
    && (forall i :: 0 <= i < |ps| && ps[i].key != [] && ps[i].key[0] != 58 ==>
          IsToken(ps[i].key) && ValueOk(ps[i].value))
    && ExtraSize(ps, |ps|) < 4096
  }

  lemma {:induction false} ExtraSizeIs(ps: seq<Pair>, n: nat)
    requires n <= |ps|
    ensures ExtraSize(ps, n) == |ExtraText(ps, n)|
  {
    if n > 0 {
      ExtraSizeIs(ps, n - 1);
      ExtraTextNext(ps, n - 1);
    }
  }

  lemma {:induction false} ExtrasAllOk(ps: seq<Pair>, n: nat)
    requires n <= |ps|
    ensures AllFieldsOk(Extras(ps, n)) <==> forall i :: 0 <= i < n && IsExtra(ps[i]) ==> FieldOk(ps[i])
  {
    if n > 0 {
      ExtrasAllOk(ps, n - 1);
      var rest := Extras(ps, n - 1);
      if IsExtra(ps[n - 1]) {
        assert Extras(ps, n) == rest + [ps[n - 1]];
        assert forall i :: 0 <= i < |rest| ==> Extras(ps, n)[i] == rest[i];
        assert Extras(ps, n)[|rest|] == ps[n - 1];
      }
    }
  }

  lemma AcceptableIff(ps: seq<Pair>, host: seq<byte>, length: nat, keepAlive: bool)
    requires HostOk(host)
    ensures Acceptable(ps, HeadOf(ps, host, length, keepAlive)) <==> Permitted(ps)
  {
    Spelled();
    ExtraSizeIs(ps, |ps|);
    ExtrasAllOk(ps, |ps|);
    assert AllFieldsOk(Extras(ps, |ps|)) <==>
             forall i :: 0 <= i < |ps| && ps[i].key != [] && ps[i].key[0] != 58 ==> FieldOk(ps[i]);
  }

  /**
   The answer to a list of pairs: refused exactly when it is not permitted, an internal error
   exactly when the request would be 8192 bytes or more, and otherwise a request which a receiver splits into
   exactly the lines wanted and reads with this host, length and connection option.
   */
  ghost predicate Answers(r: Built, ps: seq<Pair>, host: seq<byte>, length: nat, keepAlive: bool) {
    var lines := Wanted(ps, host, length, keepAlive);
    match r
    case BadArgument => !Permitted(ps)
    case Internal => Permitted(ps) && |Text(lines, 0)| >= 8192
    case Request(bytes) =>
      && Permitted(ps) && bytes == Text(lines, 0) && |bytes| < 8192 && LinesFrom(bytes, 0) == lines
      && ReadAs(bytes, host, length, keepAlive)
  }

  /** What a receiver finds under the three names. */
  ghost predicate ReadAs(bytes: seq<byte>, host: seq<byte>, length: nat, keepAlive: bool) {
    && FieldValue(bytes, Ascii("Host"), host)
    && (length > 0 ==> FieldValue(bytes, Ascii("Content-Length"), PrintDec(length)))
    && FieldValue(bytes, Ascii("Connection"), if keepAlive then Ascii("keep-alive") else Ascii("close"))
  }

  lemma OwnReadsBack(h: Head)
    requires Sendable(h)
    ensures ReadAs(HeadText(h), h.host, h.length, h.keepAlive)
  {
    Spelled();
    HostReadsBack(h);
    ConnectionReadsBack(h);
    if h.length > 0 {
      LengthReadsBack(h);
    }
  }

  lemma OutcomeAnswers(ps: seq<Pair>, host: seq<byte>, length: nat, keepAlive: bool)
    requires HostOk(host)
    ensures Answers(Outcome(ps, host, length, keepAlive), ps, host, length, keepAlive)
  {
    var h := HeadOf(ps, host, length, keepAlive);
    HeadWanted(ps, host, length, keepAlive);
    AcceptableIff(ps, host, length, keepAlive);
    if Acceptable(ps, h) {
      HeadSplits(h);
      OwnReadsBack(h);
    }
  }

  /** The exact outcome for a list of pairs. */
  function Outcome(ps: seq<Pair>, host: seq<byte>, length: nat, keepAlive: bool): Built {
    var h := HeadOf(ps, host, length, keepAlive);
    if !Acceptable(ps, h) then BadArgument
    else if |HeadText(h)| >= REQUEST_SIZE then Internal
    else Request(HeadText(h))
  }

  /**
   From the serialized headers the guest passes to the request: no headers mean a plain GET, an
   undecodable buffer is refused, and anything else is the request of the pairs it encodes.
   */
  method PrepareRequest(d: seq<byte>, host: seq<byte>, length: nat, keepAlive: bool) returns (r: Built)
    requires HostOk(host) && |d| < U32_MOD
    ensures d == [] ==> Answers(r, [], host, length, keepAlive)
    ensures d != [] && !Decodable(d) ==> r == BadArgument
    ensures forall ps :: d != [] && |ps| <= 64 && Fits(ps) && StartsWith(d, Encode(ps))
              ==> Answers(r, ps, host, length, keepAlive)
  {
    if d == [] {
      r := BuildRequest([], host, length, keepAlive);
      return;
    }
    var decoded := DecodeStrict(d);
    if decoded.None? {
      return BadArgument;
    }
    r := BuildRequest(decoded.value, host, length, keepAlive);
    forall ps | Fits(ps) && StartsWith(d, Encode(ps))
      ensures ps == decoded.value
    {
      EncodeInjective(ps, decoded.value, d);
    }
  }

  /**
   From the pairs to the request. The request is exactly the lines wanted for the verb, path, host,
   length, connection option and fields chosen; both errors are exact.
   */
  method BuildRequest(ps: seq<Pair>, host: seq<byte>, length: nat, keepAlive: bool) returns (r: Built)
    requires HostOk(host)
    ensures Answers(r, ps, host, length, keepAlive)
  {
    r := FillRequest(ps, host, length, keepAlive);
    OutcomeAnswers(ps, host, length, keepAlive);
  }

  /** The pair loop and the two snprintf forms. */
  method FillRequest(ps: seq<Pair>, host: seq<byte>, length: nat, keepAlive: bool) returns (r: Built)
    requires HostOk(host)
    ensures r == Outcome(ps, host, length, keepAlive)
  {
    var buffer := new byte[EXTRA_SIZE];
    var verb, path, extraLen := GET, SLASH, 0;
    for i := 0 to |ps|
      invariant verb == LastValue(ps, i, METHOD_KEY, GET) && path == LastValue(ps, i, PATH_KEY, SLASH)
      invariant 0 <= extraLen < EXTRA_SIZE && buffer[..extraLen] == ExtraText(ps, i) && AllFieldsOk(Extras(ps, i))
    {
      ExtraTextNext(ps, i);
      var k, v := ps[i].key, ps[i].value;
      if k == METHOD_KEY {
        verb := v;
      } else if k == PATH_KEY {
        path := v;
      } else if |k| > 0 && k[0] != 58 {
        var ok;
        ok, extraLen := AppendHeader(buffer, extraLen, k, v);
        if !ok {
          BadField(ps, i);
          return BadArgument;
        }
      }
    }
    if !IsToken(verb) || !PathOk(path) || |verb| > INT_MAX || |path| > INT_MAX {
      return BadArgument;
    }
    var text := PrintHead(verb, path, host, length, keepAlive, buffer[..extraLen], Extras(ps, |ps|));
    if |text| >= REQUEST_SIZE {
      return Internal;
    }
    return Request(text);
  }

  lemma BadField(ps: seq<Pair>, i: nat)
    requires i < |ps| && IsExtra(ps[i])
    requires !FieldOk(ps[i]) || |ExtraText(ps, i)| + |ps[i].key| + |ps[i].value| + 4 >= EXTRA_SIZE
    ensures !(AllFieldsOk(Extras(ps, |ps|)) && |ExtraText(ps, |ps|)| < EXTRA_SIZE)
  {
    ExtraTextNext(ps, i);
    ExtrasGrow(ps, i + 1, |ps|);
    var extra := Extras(ps, i + 1);
    assert extra[|extra| - 1] == ps[i];
  }

  /** The request format of the callout, filled in from left to right. */
  method PrintHead(verb: seq<byte>, path: seq<byte>, host: seq<byte>, length: nat, keepAlive: bool,
                   extraText: seq<byte>, ghost extra: seq<Pair>)
      returns (text: seq<byte>)
    requires extraText == Text(ExtraLines(extra), 0)
    ensures text == HeadText(Head(verb, path, host, length, keepAlive, extra))
  {
    ghost var h := Head(verb, path, host, length, keepAlive, extra);
    text := RequestLine(verb, path) + CRLF + FieldText(HOST, host) + CRLF;
    if length > 0 {
      text := text + FieldText(CONTENT_LENGTH, PrintDec(length)) + CRLF;
    }
    text := text + ConnectionText(keepAlive) + CRLF;
    OwnText(h);
    assert text == Text(OwnLines(h), 0);
    text := text + extraText + CRLF;
    TextAppend(OwnLines(h), ExtraLines(extra), 0);
    TextAppend(OwnLines(h) + ExtraLines(extra), [[]], 0);
    assert Text([[]], 0) == [] + CRLF + Text([[]], 1);
  }

  lemma OwnText(h: Head)
    ensures var start := RequestLine(h.verb, h.path) + CRLF + FieldText(HOST, h.host) + CRLF;
            var middle := if h.length > 0 then start + FieldText(CONTENT_LENGTH, PrintDec(h.length)) + CRLF else start;
            Text(OwnLines(h), 0) == middle + ConnectionText(h.keepAlive) + CRLF
  {
    var own := OwnLines(h);
    if h.length > 0 {
      FourLines(own);
    } else {
      ThreeLines(own);
    }
  }

  lemma ThreeLines(l: seq<seq<byte>>)
    requires |l| == 3
    ensures Text(l, 0) == l[0] + CRLF + l[1] + CRLF + l[2] + CRLF
  {
    assert Text(l, 2) == l[2] + CRLF + Text(l, 3);
    assert Text(l, 1) == l[1] + CRLF + Text(l, 2);
  }

  lemma FourLines(l: seq<seq<byte>>)
    requires |l| == 4
    ensures Text(l, 0) == l[0] + CRLF + l[1] + CRLF + l[2] + CRLF + l[3] + CRLF
  {
    assert Text(l, 3) == l[3] + CRLF + Text(l, 4);
    assert Text(l, 2) == l[2] + CRLF + Text(l, 3);
    assert Text(l, 1) == l[1] + CRLF + Text(l, 2);
  }
}
