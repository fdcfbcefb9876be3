/** The message builder of marsksim/comm/http.cc, and the receiver reading back what it builds. */
module HttpBuilder {
  import opened Seqs
  import opened Options
  import opened Strings
  import opened HttpText
  import opened HttpParser
  import opened HttpStreaming
  import opened HttpCuts
  import opened HttpMessages

  // ---------- first lines ----------

  function PrintFirstLine(line: FirstLine): string
    requires line.StatusLine? ==> line.code >= 0
  {
    match line
    case StatusLine(version, code, reason) => version + " " + Numeral(code, 10) + " " + reason + CRLF
    case RequestLine(verb, url, version) => verb + " " + url + " " + version + CRLF
  }

  /** Text that may stand in a line: no carriage return and no NUL. */
  predicate Clean(s: string) {
    '\r' !in s && NUL !in s
  }

  predicate Word(s: string) {
    s != [] && ' ' !in s && Clean(s)
  }

  predicate LineOk(line: FirstLine) {
    match line
    case StatusLine(version, code, reason) => version in VERSIONS && 0 <= code < 0x8000_0000 && Clean(reason)
    case RequestLine(verb, url, version) => verb in METHODS && Word(url) && version in VERSIONS
  }

  lemma {:induction false} TokenRun(a: string, rest: string, token: string)
    requires ' ' !in a
    ensures Tokens(a + rest, token) == Tokens(rest, token + a)
    decreases |a|
  {
    if a == [] {
      assert a + rest == rest && token + a == token;
    } else {
      assert (a + rest)[1..] == a[1..] + rest;
      TokenRun(a[1..], rest, token + [a[0]]);
      Shift(token, a);
    }
  }

  /** A word and a space in front of other text. */
  lemma TokenFirst(a: string, rest: string)
    requires Word(a)
    ensures Tokens(a + (" " + rest), []) == [a] + Tokens(rest, [])
  {
    TokenRun(a, " " + rest, []);
    assert [] + a == a && (" " + rest)[1..] == rest;
  }

  lemma TokenLast(a: string)
    requires ' ' !in a
    ensures Tokens(a, []) == if a == [] then [] else [a]
  {
    TokenRun(a, [], []);
    assert a + [] == a && [] + a == a;
  }

  lemma {:induction false} TokensHaveNoSpace(s: string, token: string)
    requires ' ' !in token
    ensures forall i :: 0 <= i < |Tokens(s, token)| ==> ' ' !in Tokens(s, token)[i]
    decreases |s|
  {
    if s != [] {
      if s[0] == ' ' {
        TokensHaveNoSpace(s[1..], []);
      } else {
        TokensHaveNoSpace(s[1..], token + [s[0]]);
      }
    }
  }

  lemma NumeralWord(n: nat)
    ensures Word(Numeral(n, 10))
  {
    var d := Numeral(n, 10);
    NumeralDigits(n, 10);
    assert forall i :: 0 <= i < |d| ==> Digit(d[i], 10) >= 0;
  }

  lemma CodeReads(n: nat)
    requires n < 0x8000_0000
    ensures Int32(StrToL(Numeral(n, 10), 10)) == n
  {
    NumeralReads(n, 10);
    Int32Small(n);
  }

  lemma Int32Small(n: nat)
    requires n < 0x8000_0000
    ensures Int32(Clamp(n)) == n
  {
  }

  lemma VersionWord(v: string)
    requires v in VERSIONS
    ensures Word(v) && "HTTP/" <= v
  {
  }

  lemma MethodWord(v: string)
    requires v in METHODS
    ensures Word(v) && |v| > 1 && (v[0] != 'H' || v[1] != 'T')
  {
  }

  lemma StatusTokens(version: string, code: nat, reason: string)
    requires version in VERSIONS
    ensures Tokens(version + " " + Numeral(code, 10) + " " + reason, [])
      == [version, Numeral(code, 10)] + Tokens(reason, [])
  {
    var d := Numeral(code, 10);
    VersionWord(version);
    NumeralWord(code);
    StatusRegroup(version, d, reason);
    TokenFirst(version, d + (" " + reason));
    TokenFirst(d, reason);
    TwoFirst(version, d, Tokens(reason, []));
  }

  lemma StatusRegroup(version: string, d: string, reason: string)
    ensures version + " " + d + " " + reason == version + (" " + (d + (" " + reason)))
  {
  }

  lemma TwoFirst(a: string, b: string, rest: seq<string>)
    ensures [a] + ([b] + rest) == [a, b] + rest
  {
  }

  /** Of the reason phrase of a printed status line the receiver keeps its only word: nothing of a
      phrase with two words or more. */
  lemma ReasonRead(version: string, code: nat, reason: string)
    requires version in VERSIONS && code < 0x8000_0000
    ensures var words := Tokens(reason, []);
            ParseStatusLine(version + " " + Numeral(code, 10) + " " + reason)
            == Some(StatusLine(version, code, if |words| == 1 then words[0] else ""))
  {
    StatusTokens(version, code, reason);
    CodeReads(code);
  }

  /** A status line is read back exactly when its reason phrase has no space. */
  lemma StatusLineRead(version: string, code: nat, reason: string)
    requires version in VERSIONS && code < 0x8000_0000
    ensures var text := version + " " + Numeral(code, 10) + " " + reason;
            ParseStatusLine(text) == Some(StatusLine(version, code, reason)) <==> ' ' !in reason
  {
    ReasonRead(version, code, reason);
    if ' ' !in reason {
      TokenLast(reason);
    } else {
      TokensHaveNoSpace(reason, []);
    }
  }

  /** The phrase of a well-known status, which is lost. */
  lemma NotFoundIsDropped()
    ensures ParseStatusLine("HTTP/1.1" + " " + Numeral(404, 10) + " " + "Not Found")
      == Some(StatusLine("HTTP/1.1", 404, ""))
  {
    assert VERSIONS[2] == "HTTP/1.1";
    assert "Not Found" == "Not" + (" " + "Found");
    TokenFirst("Not", "Found");
    TokenLast("Found");
    assert |["Not"] + ["Found"]| == 2;
    ReasonRead("HTTP/1.1", 404, "Not Found");
  }

  lemma RequestLineRead(verb: string, url: string, version: string)
    requires verb in METHODS && Word(url) && version in VERSIONS
    ensures ParseRequestLine(verb + " " + url + " " + version) == Some(RequestLine(verb, url, version))
  {
    MethodWord(verb);
    VersionWord(version);
    assert verb + " " + url + " " + version == verb + (" " + (url + (" " + version)));
    TokenFirst(verb, url + (" " + version));
    TokenFirst(url, version);
    TokenLast(version);
  }

  /** The CRLF at the end of a clean line is the first one. */
  lemma LineEnd(line: string, rest: string)
    requires Clean(line)
    ensures Find(line + CRLF + rest, CRLF) == |line| && StrNStr(line + CRLF + rest, CRLF) == |line|
  {
    var s := line + CRLF + rest;
    forall k | 0 <= k < |line|
      ensures !Occurs(CRLF, s, k)
    {
      assert s[k..k + 2][0] == line[k];
    }
    assert s[|line|..|line| + 2] == CRLF && s[..|line| + 2] == line + CRLF;
    FindIs(s, CRLF, |line|);
    StrNStrFirst(s, CRLF, |line|);
  }

  /** What the receiver makes of a printed first line. */
  lemma FirstLineRead(line: FirstLine)
    requires LineOk(line)
    ensures var f := PrintFirstLine(line);
            && StrNStr(f, CRLF) == |f| - 2 >= 0
            && (ReadFirstLine(HTTP, f) == Some(line) <==> (line.StatusLine? ==> ' ' !in line.reason))
            && (line.RequestLine? ==> ReadFirstLine(HTTP, f).Some?)
  {
    var f := PrintFirstLine(line);
    var text := f[..|f| - 2];
    assert f == text + CRLF && text + CRLF + [] == f;
    match line
    case StatusLine(version, code, reason) =>
      StatusText(version, code, reason);
      LineEnd(text, []);
      StatusLineRead(version, code, reason);
    case RequestLine(verb, url, version) =>
      RequestText(verb, url, version);
      LineEnd(text, []);
      RequestLineRead(verb, url, version);
  }

  lemma StatusText(version: string, code: nat, reason: string)
    requires version in VERSIONS && Clean(reason)
    ensures var text := version + " " + Numeral(code, 10) + " " + reason;
            Clean(text) && "HTTP/" <= text + CRLF && (text + CRLF)[..|text|] == text
  {
    VersionWord(version);
    NumeralWord(code);
    var text := version + " " + Numeral(code, 10) + " " + reason;
    assert (text + CRLF)[..5] == version[..5];
  }

  lemma RequestText(verb: string, url: string, version: string)
    requires verb in METHODS && Word(url) && version in VERSIONS
    ensures var text := verb + " " + url + " " + version;
            Clean(text) && !("HTTP/" <= text + CRLF) && (text + CRLF)[..|text|] == text
  {
    MethodWord(verb);
    VersionWord(version);
    var text := verb + " " + url + " " + version;
    assert (text + CRLF)[0] == verb[0] && (text + CRLF)[1] == verb[1];
  }

  // ---------- header fields ----------

  function PrintHeader(h: Header): string {
    h.name + ":" + " " + h.value
  }

  /** HeaderFields::ToString, in the order in which the fields are listed. */
  function PrintHeaders(headers: seq<Header>): string {
    if headers == [] then [] else PrintHeader(headers[0]) + CRLF + PrintHeaders(headers[1..])
  }

  predicate HeaderOk(h: Header) {
    Trimmed(h.name) && Trimmed(h.value) && Clean(h.name) && Clean(h.value) && ':' !in h.name
  }

  ghost predicate HeaderListOk(headers: seq<Header>) {
    && (forall i :: 0 <= i < |headers| ==> HeaderOk(headers[i]))
    && (forall i, j :: 0 <= i < j < |headers| ==> !SameName(headers[i].name, headers[j].name))
  }

  lemma LineRead(done: seq<Header>, h: Header)
    requires HeaderOk(h) && forall i :: 0 <= i < |done| ==> !SameName(done[i].name, h.name)
    ensures ParseLine(done, PrintHeader(h)) == done + [h]
  {
    var line, n := PrintHeader(h), |h.name|;
    forall k | 0 <= k < n
      ensures !Occurs(":", line, k)
    {
      assert line[k..k + 1][0] == h.name[k];
    }
    assert line[n..n + 1] == ":";
    FindIs(line, ":", n);
    assert line[n + 1] == ' ' && line[..n] == h.name && line[n + 1..] == " " + h.value;
    TrimTrimmed(h.name);
    TrimTrimmed(h.value);
    LookupNone(done, h.name);
  }

  lemma LookupNone(headers: seq<Header>, name: string)
    ensures Lookup(headers, name).None? <==> forall i :: 0 <= i < |headers| ==> !SameName(headers[i].name, name)
  {
    forall i | 0 <= i < |headers|
      ensures Lower(headers[i].name) == Lower(name) <==> SameName(headers[i].name, name)
    {
      LowerSame(headers[i].name, name);
    }
  }

  /** The one field with a name is found, however the name is written. */
  lemma LookupAt(headers: seq<Header>, k: nat, name: string)
    requires HeaderListOk(headers) && k < |headers| && SameName(headers[k].name, name)
    ensures Lookup(headers, name) == Some(headers[k].value)
  {
    LookupNone(headers, name);
    var i :| 0 <= i < |headers| && HasField(headers[i], name, Lookup(headers, name).value);
    LowerSame(headers[i].name, name);
    LowerSame(headers[k].name, name);
    LowerSame(headers[i].name, headers[k].name);
    LowerSame(headers[k].name, headers[i].name);
    assert i == k;
  }

  lemma PrintHeaderClean(h: Header)
    requires HeaderOk(h)
    ensures Clean(PrintHeader(h)) && |PrintHeader(h)| >= 2
  {
  }

  lemma {:induction false} HeadersRead(headers: seq<Header>, done: seq<Header>)
    requires HeaderListOk(done + headers)
    ensures ParseHeaders(PrintHeaders(headers) + CRLF, done) == done + headers
    decreases |headers|
  {
    if headers == [] {
      EmptyLine(done);
      assert [] + CRLF == CRLF && done + [] == done;
    } else {
      var h, line, rest := headers[0], PrintHeader(headers[0]), PrintHeaders(headers[1..]) + CRLF;
      assert h == (done + headers)[|done|];
      PrintHeaderClean(h);
      LineEnd(line, rest);
      assert PrintHeaders(headers) + CRLF == line + CRLF + rest;
      assert forall i :: 0 <= i < |done| ==> (done + headers)[i] == done[i];
      LineRead(done, h);
      Shift(done, headers);
      HeadersRead(headers[1..], done + [h]);
      HeadersStep(line, rest, done);
    }
  }

  lemma HeadersStep(line: string, rest: string, done: seq<Header>)
    requires Find(line + CRLF + rest, CRLF) == |line|
    ensures ParseHeaders(line + CRLF + rest, done) == ParseHeaders(rest, ParseLine(done, line))
  {
    var s := line + CRLF + rest;
    assert s[..|line|] == line && s[|line| + 2..] == rest;
  }

  lemma EmptyLine(done: seq<Header>)
    ensures ParseHeaders(CRLF, done) == done
  {
    assert [] + CRLF + [] == CRLF;
    LineEnd([], []);
    HeadersStep([], [], done);
    assert Find([], CRLF) < 0;
  }

  // ---------- the end of the header block ----------

  lemma {:induction false} NoEarlyEnd(headers: seq<Header>, k: nat)
    requires headers != [] && forall i :: 0 <= i < |headers| ==> HeaderOk(headers[i])
    requires k < |PrintHeaders(headers)| - 2
    ensures !Occurs(CRLF2, PrintHeaders(headers) + CRLF, k)
    decreases |headers|
  {
    var line, rest := PrintHeader(headers[0]), PrintHeaders(headers[1..]) + CRLF;
    PrintHeaderClean(headers[0]);
    assert PrintHeaders(headers) + CRLF == line + CRLF + rest;
    if k <= |line| + 1 {
      if headers[1..] != [] {
        BlockStart(headers[1..]);
      }
      EarlyInLine(line, rest, k);
    } else {
      OccursLater(line + CRLF, rest, k);
      NoEarlyEnd(headers[1..], k - |line| - 2);
    }
  }

  lemma BlockStart(headers: seq<Header>)
    requires headers != [] && HeaderOk(headers[0])
    ensures var s := PrintHeaders(headers) + CRLF; |s| >= 4 && s[0] != '\r'
  {
    PrintHeaderClean(headers[0]);
    assert (PrintHeaders(headers) + CRLF)[0] == PrintHeader(headers[0])[0];
    assert PrintHeader(headers[0])[0] in PrintHeader(headers[0]);
  }

  lemma EarlyInLine(line: string, rest: string, k: nat)
    requires Clean(line) && k <= |line| + 1 && (k >= |line| ==> rest != [] && (k == |line| ==> rest[0] != '\r'))
    ensures !Occurs(CRLF2, line + CRLF + rest, k)
  {
    var s := line + CRLF + rest;
    if k + 4 <= |s| {
      var w := s[k..k + 4];
      assert w[0] == s[k] && w[2] == s[k + 2];
      assert k < |line| ==> s[k] == line[k];
      assert k == |line| ==> s[k + 2] == rest[0];
      assert k == |line| + 1 ==> s[k] == '\n';
    }
  }

  lemma OccursLater(a: string, b: string, k: nat)
    requires k >= |a|
    ensures Occurs(CRLF2, a + b, k) == Occurs(CRLF2, b, k - |a|)
  {
    if k + 4 <= |a + b| {
      assert (a + b)[k..k + 4] == b[k - |a|..k - |a| + 4];
    }
  }

  lemma {:induction false} BlockClean(headers: seq<Header>)
    requires forall i :: 0 <= i < |headers| ==> HeaderOk(headers[i])
    ensures NUL !in PrintHeaders(headers)
    ensures headers != []
      ==> |PrintHeaders(headers)| >= 2 && PrintHeaders(headers)[|PrintHeaders(headers)| - 2..] == CRLF
    decreases |headers|
  {
    if headers != [] {
      PrintHeaderClean(headers[0]);
      BlockClean(headers[1..]);
    }
  }

  /** The printed fields and the empty line make a header block. */
  lemma BlockFound(headers: seq<Header>)
    requires headers != [] && HeaderListOk(headers)
    ensures IsBlock(PrintHeaders(headers) + CRLF)
  {
    var p := PrintHeaders(headers);
    var h := p + CRLF;
    BlockClean(headers);
    BlockEnd(p);
    NoEarlyEnds(headers);
    StrNStrFirst(h, CRLF2, |p| - 2);
    BlockStart(headers);
  }

  lemma NoEarlyEnds(headers: seq<Header>)
    requires headers != [] && forall i :: 0 <= i < |headers| ==> HeaderOk(headers[i])
    ensures forall k :: 0 <= k < |PrintHeaders(headers)| - 2 ==> !Occurs(CRLF2, PrintHeaders(headers) + CRLF, k)
  {
    forall k | 0 <= k < |PrintHeaders(headers)| - 2
      ensures !Occurs(CRLF2, PrintHeaders(headers) + CRLF, k)
    {
      NoEarlyEnd(headers, k);
    }
  }

  lemma BlockEnd(p: string)
    requires |p| >= 2 && p[|p| - 2..] == CRLF && NUL !in p
    ensures Occurs(CRLF2, p + CRLF, |p| - 2) && NUL !in (p + CRLF)[..|p| + 2]
  {
    var n := |p| - 2;
    assert (p + CRLF)[n..n + 4] == p[n..] + CRLF == CRLF2 && (p + CRLF)[..n + 4] == p + CRLF;
  }

  /** Within the limit it is read in any cut. */
  lemma BlockOk(headers: seq<Header>)
    requires headers != [] && HeaderListOk(headers) && |PrintHeaders(headers)| + 2 <= HEADER_LIMIT + 1
    ensures HeadersOk(PrintHeaders(headers) + CRLF)
  {
    BlockFound(headers);
  }

  // ---------- the builder ----------

  function LengthField(n: nat): Header {
    Header("Content-Length", Numeral(n, 10))
  }

  const CHUNKED_FIELD: Header := Header("Transfer-Encoding", "chunked")

  /** HeaderToBuffer. */
  function Head(line: FirstLine, headers: seq<Header>): string
    requires line.StatusLine? ==> line.code >= 0
  {
    PrintFirstLine(line) + (PrintHeaders(headers) + CRLF)
  }

  class Builder {
    var line: FirstLine
    var headers: seq<Header>

    constructor (line: FirstLine, headers: seq<Header>)
      ensures this.line == line && this.headers == headers
    {
      this.line, this.headers := line, headers;
    }

    /** HeaderFields::ToString. */
    method FieldsToString() returns (out: string)
      ensures out == PrintHeaders(headers)
    {
      out := [];
      for i := 0 to |headers|
        invariant out + PrintHeaders(headers[i..]) == PrintHeaders(headers)
      {
        assert headers[i..][1..] == headers[i + 1..];
        Assoc(out, PrintHeader(headers[i]) + CRLF, PrintHeaders(headers[i + 1..]));
        out := out + (headers[i].name + ":" + " " + headers[i].value + CRLF);
      }
      assert headers[|headers|..] == [];
      assert out + [] == out;
    }

    method HeaderToBuffer() returns (out: string)
      requires line.StatusLine? ==> line.code >= 0
      ensures headers != [] ==> out == Head(line, headers)
      ensures headers == [] ==> out == []
    {
      var fields := FieldsToString();
      if headers == [] {
        return [];
      }
      out := PrintFirstLine(line) + (fields + CRLF);
    }

    /** HttpToBuffer with a block body: nothing at all is written for an empty one. */
    method BlockToBuffer(body: string) returns (out: string)
      requires line.StatusLine? ==> line.code >= 0
      modifies this
      ensures line == old(line)
      ensures body == [] ==> out == [] && headers == old(headers)
      ensures body != [] ==> headers == Insert(old(headers), LengthField(|body|)) && out == Head(line, headers) + body
    {
      if body == [] {
        return [];
      }
      headers := Insert(headers, LengthField(|body|));
      InsertNonEmpty(old(headers), LengthField(|body|));
      out := HeaderToBuffer();
      out := out + body;
    }

    /** HttpToBuffer with a stream body that has all its chunks. */
    method StreamToBuffer(chunks: seq<string>) returns (out: string)
      requires line.StatusLine? ==> line.code >= 0
      modifies this
      ensures line == old(line) && headers == Insert(old(headers), CHUNKED_FIELD)
      ensures out == Head(line, headers) + (EncodeChunks(chunks) + EOF_DATA)
    {
      headers := Insert(headers, CHUNKED_FIELD);
      InsertNonEmpty(old(headers), CHUNKED_FIELD);
      out := HeaderToBuffer();
      var body := WriteChunks(chunks);
      out := out + body;
    }
  }

  lemma InsertNonEmpty(headers: seq<Header>, h: Header)
    ensures Insert(headers, h) != []
  {
  }

  // ---------- what the fields say ----------

  lemma {:induction false} LowerLength(s: string)
    ensures |Lower(s)| == |s|
  {
    if s != [] {
      LowerLength(s[1..]);
    }
  }

  /** Not chunked: no transfer encoding, or another one. */
  ghost predicate NotChunked(headers: seq<Header>) {
    forall j :: 0 <= j < |headers| && SameName(headers[j].name, "Transfer-Encoding") ==>
      !SameName(headers[j].value, "chunked")
  }

  lemma NotChunkedRead(headers: seq<Header>)
    requires NotChunked(headers)
    ensures !IsChunked(headers)
  {
    var name, v := "Transfer-Encoding", Lookup(headers, "Transfer-Encoding");
    if v.Some? {
      var i :| 0 <= i < |headers| && HasField(headers[i], name, v.value);
      LowerSame(headers[i].name, name);
      LowerSame(v.value, "chunked");
      LowerChunked();
    }
  }

  lemma ChunkedRead(headers: seq<Header>, k: nat)
    requires HeaderListOk(headers) && k < |headers|
    requires SameName(headers[k].name, "Transfer-Encoding") && SameName(headers[k].value, "chunked")
    ensures IsChunked(headers)
  {
    LookupAt(headers, k, "Transfer-Encoding");
    LowerSame(headers[k].value, "chunked");
    LowerChunked();
  }

  lemma LengthRead(headers: seq<Header>, k: nat, n: nat)
    requires HeaderListOk(headers) && k < |headers| && n < 0x8000_0000
    requires SameName(headers[k].name, "Content-Length") && headers[k].value == Numeral(n, 10)
    ensures ContentLength(headers) == n
  {
    LookupAt(headers, k, "Content-Length");
    CodeReads(n);
  }

  lemma LowerChunked()
    ensures Lower("chunked") == "chunked"
  {
    var s := "chunked";
    LowerStays(s);
  }

  lemma {:induction false} LowerStays(s: string)
    requires forall i :: 0 <= i < |s| ==> !('A' <= s[i] <= 'Z')
    ensures Lower(s) == s
  {
    if s != [] {
      LowerStays(s[1..]);
    }
  }

  // ---------- built messages in any cut ----------

  /** A first line that fits the receiver's limit and survives it. */
  predicate LineFits(line: FirstLine) {
    LineOk(line) && (line.StatusLine? ==> ' ' !in line.reason) && |PrintFirstLine(line)| <= FIRST_LINE_LIMIT + 1
  }

  ghost predicate FieldsFit(headers: seq<Header>) {
    HeaderListOk(headers) && |PrintHeaders(headers)| + 2 <= HEADER_LIMIT + 1
  }

  lemma HttpReaders(f: string, h: string, headers: seq<Header>)
    ensures ReadFirstLine(HTTP, f) == ParseFirstLine(f)
    ensures ReadFields(HTTP, h, headers) == ParseHeaders(h, headers)
    ensures ReadFraming(HTTP, headers) == FramingOf(headers)
  {
  }

  lemma NoFields()
    ensures !UntilClose(FramingOf([]))
  {
  }

  /** The receiver's state behind the head of a built message. */
  function AfterHead(line: FirstLine, headers: seq<Header>): State
    requires line.StatusLine? ==> line.code >= 0
  {
    State(Body, [], Some(line), headers, [], |PrintFirstLine(line)|, |PrintHeaders(headers)| + 2)
  }

  lemma HeadRead(line: FirstLine, headers: seq<Header>)
    requires LineFits(line) && FieldsFit(headers) && headers != []
    ensures FirstLineOk(HTTP, PrintFirstLine(line)) && HeadersOk(PrintHeaders(headers) + CRLF)
    ensures AtBody(HTTP, PrintFirstLine(line), PrintHeaders(headers) + CRLF) == AfterHead(line, headers)
  {
    FirstLineRead(line);
    BlockOk(headers);
    HeadersRead(headers, []);
    assert [] + headers == headers;
    HttpReaders(PrintFirstLine(line), PrintHeaders(headers) + CRLF, []);
  }

  lemma BuiltAnyCut(line: FirstLine, headers: seq<Header>, body: string, pieces: seq<string>, end: State)
    requires LineFits(line) && FieldsFit(headers) && headers != []
    requires !UntilClose(ReadFraming(HTTP, headers)) && Live(end)
    requires Run(HTTP, Add(AfterHead(line, headers), body)) == end
    requires NonEmpty(pieces) && Join(pieces) == Head(line, headers) + body
    ensures Feed(HTTP, INITIAL, pieces) == end
  {
    var f, h := PrintFirstLine(line), PrintHeaders(headers) + CRLF;
    HeadRead(line, headers);
    HttpReaders(f, h, []);
    NoFields();
    MessageAnyCut(HTTP, f, h, body, pieces);
  }

  /** A body of known length received at once. */
  lemma LengthAtOnce(g: Grammar, s: State, b: string)
    requires s.status == Body && s.buf == [] && s.body == []
    requires var f := ReadFraming(g, s.headers); !f.chunked && f.length > 0
    ensures var n := ReadFraming(g, s.headers).length;
            Run(g, Add(s, b)) == if |b| < n then s.(body := b) else s.(status := End, body := b[..n], buf := b[n..])
  {
    var f := ReadFraming(g, s.headers);
    assert Add(s, b).buf == b;
    if |b| < f.length {
      LengthWaits(Add(s, b), [], f.length, f.close);
      assert [] + b == b;
    } else {
      LengthReached(Add(s, b), f.length, f.close);
      assert [] + b[..f.length] == b[..f.length];
    }
  }

  lemma LengthExactly(g: Grammar, s: State, body: string, extra: string)
    requires s.status == Body && s.buf == [] && s.body == [] && body != []
    requires var f := ReadFraming(g, s.headers); !f.chunked && f.length == |body|
    ensures Run(g, Add(s, body + extra)) == s.(status := End, body := body, buf := extra)
  {
    LengthAtOnce(g, s, body + extra);
    assert (body + extra)[..|body|] == body && (body + extra)[|body|..] == extra;
  }

  lemma ChunksExactly(g: Grammar, s: State, chunks: seq<string>, extra: string)
    requires s.status == Body && s.buf == [] && s.body == [] && ReadsSizes(g) && ChunksOk(chunks)
    requires ReadFraming(g, s.headers).chunked
    ensures Run(g, Add(s, EncodeChunks(chunks) + EOF_DATA + extra))
      == s.(status := End, body := Join(chunks), buf := extra)
  {
    var body := EncodeChunks(chunks) + EOF_DATA + extra;
    assert [] + body == body && [] + Join(chunks) == Join(chunks);
    ChunksAtOnce(g, Add(s, body), chunks, extra);
  }

  /** A message with a content length: whatever the cut, however the field's name is written, and
      whatever follows on the connection, it is received with the same first line, fields and body. */
  lemma BlockMessageAnyCut(line: FirstLine, all: seq<Header>, k: nat, body: string, extra: string, pieces: seq<string>)
    requires LineFits(line) && FieldsFit(all) && k < |all| && NotChunked(all)
    requires SameName(all[k].name, "Content-Length") && all[k].value == Numeral(|body|, 10)
    requires 0 < |body| < 0x8000_0000 && NonEmpty(pieces) && Join(pieces) == Head(line, all) + (body + extra)
    ensures Feed(HTTP, INITIAL, pieces) == AfterHead(line, all).(status := End, body := body, buf := extra)
  {
    NotChunkedRead(all);
    LengthRead(all, k, |body|);
    LengthMessage(line, all, body, extra, pieces, FramingOf(all));
  }

  /** The builder's own spelling. */
  lemma BuiltBlockAnyCut(line: FirstLine, headers: seq<Header>, body: string, extra: string, pieces: seq<string>)
    requires 0 < |body| < 0x8000_0000 && NotChunked(headers)
    requires forall i :: 0 <= i < |headers| ==> !SameName(headers[i].name, "Content-Length")
    requires var all := Insert(headers, LengthField(|body|));
             LineFits(line) && FieldsFit(all) && NonEmpty(pieces) && Join(pieces) == Head(line, all) + (body + extra)
    ensures var all := Insert(headers, LengthField(|body|));
            Feed(HTTP, INITIAL, pieces) == AfterHead(line, all).(status := End, body := body, buf := extra)
  {
    InsertNew(headers, LengthField(|body|));
    NotChunkedMore(headers, LengthField(|body|));
    BlockMessageAnyCut(line, headers + [LengthField(|body|)], |headers|, body, extra, pieces);
  }

  lemma InsertNew(headers: seq<Header>, h: Header)
    requires forall i :: 0 <= i < |headers| ==> !SameName(headers[i].name, h.name)
    ensures Insert(headers, h) == headers + [h]
  {
    LookupNone(headers, h.name);
  }

  lemma NotChunkedMore(headers: seq<Header>, h: Header)
    requires NotChunked(headers) && |h.name| != |"Transfer-Encoding"|
    ensures NotChunked(headers + [h])
  {
  }

  lemma LengthMessage(line: FirstLine, all: seq<Header>, body: string, extra: string, pieces: seq<string>,
    framing: Framing)
    requires framing == FramingOf(all) && !framing.chunked && framing.length == |body| > 0 && all != []
    requires LineFits(line) && FieldsFit(all) && NonEmpty(pieces) && Join(pieces) == Head(line, all) + (body + extra)
    ensures Feed(HTTP, INITIAL, pieces) == AfterHead(line, all).(status := End, body := body, buf := extra)
  {
    HttpReaders([], [], all);
    LengthExactly(HTTP, AfterHead(line, all), body, extra);
    BuiltAnyCut(line, all, body + extra, pieces, AfterHead(line, all).(status := End, body := body, buf := extra));
  }

  /** The same for a chunked body, however the field's name and its value are written. */
  lemma StreamMessageAnyCut(line: FirstLine, all: seq<Header>, k: nat, chunks: seq<string>, extra: string,
    pieces: seq<string>)
    requires LineFits(line) && FieldsFit(all) && k < |all| && ChunksOk(chunks) && NonEmpty(pieces)
    requires SameName(all[k].name, "Transfer-Encoding") && SameName(all[k].value, "chunked")
    requires Join(pieces) == Head(line, all) + (EncodeChunks(chunks) + EOF_DATA + extra)
    ensures Feed(HTTP, INITIAL, pieces)
      == AfterHead(line, all).(status := End, body := Join(chunks), buf := extra)
  {
    ChunkedRead(all, k);
    ChunkedMessage(line, all, chunks, extra, pieces, FramingOf(all));
  }

  /** The builder's own spelling. */
  lemma BuiltStreamAnyCut(line: FirstLine, headers: seq<Header>, chunks: seq<string>, extra: string,
    pieces: seq<string>)
    requires ChunksOk(chunks) && forall i :: 0 <= i < |headers| ==> !SameName(headers[i].name, "Transfer-Encoding")
    requires var all := Insert(headers, CHUNKED_FIELD);
             && LineFits(line) && FieldsFit(all) && NonEmpty(pieces)
             && Join(pieces) == Head(line, all) + (EncodeChunks(chunks) + EOF_DATA + extra)
    ensures var all := Insert(headers, CHUNKED_FIELD);
            Feed(HTTP, INITIAL, pieces) == AfterHead(line, all).(status := End, body := Join(chunks), buf := extra)
  {
    InsertNew(headers, CHUNKED_FIELD);
    StreamMessageAnyCut(line, headers + [CHUNKED_FIELD], |headers|, chunks, extra, pieces);
  }

  lemma ChunkedMessage(line: FirstLine, all: seq<Header>, chunks: seq<string>, extra: string, pieces: seq<string>,
    framing: Framing)
    requires framing == FramingOf(all) && framing.chunked && ChunksOk(chunks) && all != []
    requires LineFits(line) && FieldsFit(all) && NonEmpty(pieces)
    requires Join(pieces) == Head(line, all) + (EncodeChunks(chunks) + EOF_DATA + extra)
    ensures Feed(HTTP, INITIAL, pieces) == AfterHead(line, all).(status := End, body := Join(chunks), buf := extra)
  {
    HttpReaders([], [], all);
    HttpReadsSizes();
    ChunksExactly(HTTP, AfterHead(line, all), chunks, extra);
    BuiltAnyCut(line, all, EncodeChunks(chunks) + EOF_DATA + extra, pieces,
      AfterHead(line, all).(status := End, body := Join(chunks), buf := extra));
  }

  /** A response with a field name in small letters, received in two pieces. */
  lemma SmallLetters()
    ensures var line, h := StatusLine("HTTP/1.1", 200, "OK"), Header("content-length", "5");
            var m := Head(line, [h]) + "hello";
            Feed(HTTP, INITIAL, [m[..1], m[1..]]) == AfterHead(line, [h]).(status := End, body := "hello")
  {
    var line, h := StatusLine("HTTP/1.1", 200, "OK"), Header("content-length", "5");
    var m := Head(line, [h]) + "hello";
    assert VERSIONS[2] == "HTTP/1.1";
    assert LineFits(line);
    OneFieldFits(h);
    assert "hello" + [] == "hello" && |h.name| != |"Transfer-Encoding"| && Numeral(5, 10) == "5";
    JoinTwo(m);
    BlockMessageAnyCut(line, [h], 0, "hello", [], [m[..1], m[1..]]);
  }

  /** A message of one byte, received in two pieces. */
  lemma SmallPost()
    ensures var line := RequestLine("POST", "/", "HTTP/1.1");
            var m := Head(line, [LengthField(1)]) + "x";
            Feed(HTTP, INITIAL, [m[..1], m[1..]]) == AfterHead(line, [LengthField(1)]).(status := End, body := "x")
  {
    var line := RequestLine("POST", "/", "HTTP/1.1");
    var m := Head(line, [LengthField(1)]) + "x";
    SmallFits();
    assert "x" + [] == "x" && |"Content-Length"| != |"Transfer-Encoding"|;
    JoinTwo(m);
    BlockMessageAnyCut(line, [LengthField(1)], 0, "x", [], [m[..1], m[1..]]);
  }

  lemma SmallFits()
    ensures LineFits(RequestLine("POST", "/", "HTTP/1.1")) && FieldsFit([LengthField(1)])
  {
    assert VERSIONS[2] == "HTTP/1.1" && METHODS[1] == "POST";
    NumeralWord(1);
    OneFieldFits(LengthField(1));
  }

  lemma OneFieldFits(h: Header)
    requires HeaderOk(h) && |h.name| + |h.value| < 100
    ensures FieldsFit([h])
  {
    assert [h][1..] == [];
  }

  lemma JoinTwo(m: string)
    requires |m| > 1
    ensures Join([m[..1], m[1..]]) == m && NonEmpty([m[..1], m[1..]])
  {
    var pieces := [m[..1], m[1..]];
    assert pieces[1..] == [m[1..]] && pieces[1..][1..] == [];
    assert Join(pieces[1..]) == m[1..] + [] == m[1..];
  }

  // ---------- cuts that matter, in built messages ----------

  /** A request whose URL makes its first line too long: accepted at once, and refused in some cut. */
  lemma LongUrl()
    ensures var f := PrintFirstLine(RequestLine("GET", seq(9000, i => '/'), "HTTP/1.1"));
            Live(Feed(HTTP, INITIAL, [f])) && !AnyCutLive(HTTP, f)
  {
    var url := seq(9000, i => '/');
    var line := RequestLine("GET", url, "HTTP/1.1");
    assert VERSIONS[2] == "HTTP/1.1" && METHODS[0] == "GET" && url[0] == '/';
    LongLine(line);
  }

  lemma LongLine(line: FirstLine)
    requires LineOk(line) && line.RequestLine? && |line.url| > FIRST_LINE_LIMIT
    ensures Live(Feed(HTTP, INITIAL, [PrintFirstLine(line)])) && !AnyCutLive(HTTP, PrintFirstLine(line))
  {
    var f := PrintFirstLine(line);
    FirstLineRead(line);
    MethodWord(line.verb);
    FirstLineAtOnce(HTTP, f);
    FeedOne(HTTP, INITIAL, f);
    LongFirstLine(HTTP, f);
  }

  /** A header field that makes the block too long: the same. */
  lemma LongField(line: FirstLine, h: Header)
    requires LineFits(line) && HeaderOk(h) && |h.value| > HEADER_LIMIT && |h.name| < 10
    ensures Live(Feed(HTTP, INITIAL, [Head(line, [h])])) && !AnyCutLive(HTTP, Head(line, [h]))
  {
    var f, block := PrintFirstLine(line), PrintHeaders([h]) + CRLF;
    FirstLineRead(line);
    FieldBlock(h);
    FieldFraming(h);
    HeadersAtOnce(HTTP, f, block);
    FeedOne(HTTP, INITIAL, f + block);
    LongHeaders(HTTP, f, block);
  }

  lemma FieldBlock(h: Header)
    requires HeaderOk(h)
    ensures var block := PrintHeaders([h]) + CRLF;
            IsBlock(block) && |block| > |h.value| + 2 && ReadFields(HTTP, block, []) == [h]
  {
    BlockFound([h]);
    assert PrintHeaders([h]) == PrintHeader(h) + CRLF + PrintHeaders([h][1..]);
    HeadersRead([h], []);
    assert [] + [h] == [h];
    HttpReaders([], PrintHeaders([h]) + CRLF, []);
  }

  lemma FieldFraming(h: Header)
    requires |h.name| <= 10
    ensures ReadFraming(HTTP, [h]).length == 0
  {
    NoLength(h);
    HttpReaders([], [], [h]);
  }

  lemma LookupOther(h: Header, name: string)
    requires |h.name| != |name|
    ensures Lookup([h], name) == None
  {
    LowerLength(h.name);
    LowerLength(name);
    assert [h][1..] == [];
  }

  lemma LookupOwn(h: Header)
    ensures Lookup([h], h.name) == Some(h.value)
  {
  }

  lemma NoLength(h: Header)
    requires |h.name| <= 10
    ensures !IsChunked([h]) && ContentLength([h]) == 0
  {
    LookupOther(h, "Transfer-Encoding");
    LookupOther(h, "Content-Length");
  }

  const CLOSE_FIELD: Header := Header("Connection", "close")

  lemma CloseIsClose()
    ensures IsConnectionClose([CLOSE_FIELD])
  {
    ClosedBy(CLOSE_FIELD);
  }

  lemma ClosedBy(h: Header)
    requires h.name == "Connection" && h.value == "close"
    ensures IsConnectionClose([h])
  {
    LookupOwn(h);
    LowerClose();
  }

  lemma LowerClose()
    ensures Lower("close") == "close"
  {
    LowerStays("close");
  }

  lemma CloseFraming()
    ensures UntilClose(ReadFraming(HTTP, [CLOSE_FIELD]))
  {
    NoLength(CLOSE_FIELD);
    CloseIsClose();
    HttpReaders([], [], [CLOSE_FIELD]);
  }

  /** A response that ends with the connection: if its head fills the first piece, its body is lost. */
  lemma CloseLosesBody(line: FirstLine, body: string)
    requires LineFits(line) && body != []
    ensures var head := Head(line, [CLOSE_FIELD]);
            && Feed(HTTP, INITIAL, [head, body]) == AfterHead(line, [CLOSE_FIELD]).(status := End, buf := body)
            && Feed(HTTP, INITIAL, [head + body]) == AfterHead(line, [CLOSE_FIELD]).(body := body)
  {
    var head, at := Head(line, [CLOSE_FIELD]), AfterHead(line, [CLOSE_FIELD]);
    CloseFits();
    CloseFraming();
    HeadRun(line, [CLOSE_FIELD], []);
    HeadRun(line, [CLOSE_FIELD], body);
    assert head + [] == head;
    LostBody(HTTP, at, body);
    FeedTwo(HTTP, INITIAL, head, body);
    FeedOne(HTTP, INITIAL, head + body);
  }

  lemma LostBody(g: Grammar, at: State, body: string)
    requires at.status == Body && at.buf == [] && at.body == [] && body != [] && UntilClose(ReadFraming(g, at.headers))
    ensures Run(g, Add(at, [])) == at.(status := End)
    ensures Run(g, Add(at.(status := End), body)) == at.(status := End, buf := body)
    ensures Run(g, Add(at, body)) == at.(body := body)
  {
    UntilCloseRun(g, Add(at, []));
    UntilCloseRun(g, Add(at, body));
    EndStays(g, Add(at.(status := End), body));
    assert [] + body == body;
  }

  /** Once a byte of such a body is there, it grows with every piece, and the closing of the connection ends it. */
  lemma {:induction false} GrowsUntilClose(g: Grammar, s: State, pieces: seq<string>)
    requires s.status == Body && s.buf == [] && s.body != [] && UntilClose(ReadFraming(g, s.headers))
    requires forall i :: 0 <= i < |pieces| ==> pieces[i] != []
    ensures Feed(g, s, pieces) == s.(body := s.body + Join(pieces))
    ensures Recv(g, Feed(g, s, pieces), []) == s.(status := End, body := s.body + Join(pieces))
    decreases |pieces|
  {
    if pieces == [] {
      assert s.body + [] == s.body;
    } else {
      var n := |pieces| - 1;
      GrowsUntilClose(g, s, pieces[..n]);
      JoinLast(pieces);
      Assoc(s.body, Join(pieces[..n]), pieces[n]);
      GrowsOnce(g, s.(body := s.body + Join(pieces[..n])), pieces[n]);
    }
  }

  lemma GrowsOnce(g: Grammar, s: State, piece: string)
    requires s.status == Body && s.buf == [] && s.body != [] && UntilClose(ReadFraming(g, s.headers)) && piece != []
    ensures Recv(g, s, piece) == s.(body := s.body + piece)
  {
    UntilCloseRun(g, Add(s, piece));
    assert [] + piece == piece;
  }

  /** A response that ends with the connection, whose head comes with the first bytes of its body: every
      piece is delivered, and the close ends it. */
  lemma CloseDelivers(line: FirstLine, first: string, pieces: seq<string>)
    requires LineFits(line) && first != [] && forall i :: 0 <= i < |pieces| ==> pieces[i] != []
    ensures var s := Feed(HTTP, INITIAL, [Head(line, [CLOSE_FIELD]) + first]);
            && Live(s) && Live(Feed(HTTP, s, pieces))
            && Recv(HTTP, Feed(HTTP, s, pieces), [])
               == AfterHead(line, [CLOSE_FIELD]).(status := End, body := first + Join(pieces))
  {
    CloseLosesBody(line, first);
    CloseFraming();
    GrowsUntilClose(HTTP, AfterHead(line, [CLOSE_FIELD]).(body := first), pieces);
  }

  /** Without that field, or outside the body, a close changes nothing. */
  lemma OtherCloseIgnored(g: Grammar, s: State)
    requires Live(s) && (s.status != Body || !ReadFraming(g, s.headers).close)
    ensures Recv(g, s, []) == s
  {
  }

  lemma CloseFits()
    ensures FieldsFit([CLOSE_FIELD])
  {
    OneFieldFits(CLOSE_FIELD);
  }

  lemma HeadRun(line: FirstLine, headers: seq<Header>, c: string)
    requires LineFits(line) && FieldsFit(headers) && headers != []
    ensures Run(HTTP, Add(INITIAL, Head(line, headers) + c)) == Run(HTTP, Add(AfterHead(line, headers), c))
  {
    HeadRead(line, headers);
    PastHeaders(HTTP, PrintFirstLine(line), PrintHeaders(headers) + CRLF, c);
  }
}
