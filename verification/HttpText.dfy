/** The text of HTTP messages as marsksim/comm/http.cc reads it: searches, numbers, first lines and header fields. */
module HttpText {
  import opened Options
  import opened Seqs
  import opened Strings

  const CRLF: string := "\r\n"
  const CRLF2: string := "\r\n\r\n"

  // ---------- searching ----------

  /** string_strnstr: the search ends at the first NUL. */
  function StrNStr(s: string, tag: string): (i: int)
    ensures i >= 0 ==> Occurs(tag, s, i)
  {
    CStringIsPrefix(s);
    var i := Find(CString(s), tag);
    if i >= 0 then OccursExtends(tag, CString(s), s, i); i else -1
  }

  method Search(s: string, tag: string) returns (i: int)
    requires tag != []
    ensures i == StrNStr(s, tag)
  {
    CStringIsPrefix(s);
    var n := StrNLen(s);
    var left := n;
    i := 0;
    while left >= |tag|
      invariant 0 <= i <= n && left == n - i
      invariant forall k :: 0 <= k < i ==> !Occurs(tag, s[..n], k)
    {
      left := left - 1;
      OccursExtends(tag, s[..n], s, i);
      if s[i..i + |tag|] == tag {
        return;
      }
      i := i + 1;
    }
    i := -1;
  }

  method StrNLen(s: string) returns (n: nat)
    ensures n <= |s| && s[..n] == CString(s)
  {
    n := 0;
    while n < |s| && s[n] != NUL
      invariant n <= |s| && NUL !in s[..n]
    {
      n := n + 1;
    }
    CStringLength(s, n);
  }

  lemma CStringLength(s: string, n: nat)
    requires n <= |s| && NUL !in s[..n] && (n < |s| ==> s[n] == NUL)
    ensures CString(s) == s[..n]
  {
    CStringPlain(s[..n]);
    if n == |s| {
      assert s == s[..n];
    } else {
      CStringEnds(s[..n], s[n + 1..]);
      SplitAt(s, n);
    }
  }

  /** What is found stays where it is when more text arrives. */
  lemma StrNStrExtends(s: string, b: string, tag: string)
    requires tag != [] && StrNStr(s, tag) >= 0
    ensures StrNStr(s + b, tag) == StrNStr(s, tag)
  {
    CStringExtends(s, b);
    FindExtends(CString(s), CString(s + b), tag);
  }

  /** A text without NUL before the tag's first place. */
  lemma StrNStrFirst(s: string, tag: string, i: nat)
    requires tag != [] && Occurs(tag, s, i) && NUL !in s[..i + |tag|]
    requires forall k :: 0 <= k < i ==> !Occurs(tag, s, k)
    ensures StrNStr(s, tag) == i
  {
    var p := s[..i + |tag|];
    CStringPlain(p);
    assert s == p + s[i + |tag|..];
    forall k | 0 <= k <= i
      ensures Occurs(tag, p, k) == Occurs(tag, s, k)
    {
      OccursExtends(tag, p, s, k);
    }
    FindIs(p, tag, i);
    StrNStrExtends(p, s[i + |tag|..], tag);
  }

  // ---------- trimming and numbers ----------

  function TrimLeft(s: string): (t: string)
    ensures t == [] || !IsWhiteSpace(t[0])
  {
    if s != [] && IsWhiteSpace(s[0]) then TrimLeft(s[1..]) else s
  }

  function TrimRight(s: string): (t: string)
    ensures t == [] || !IsWhiteSpace(t[|t| - 1])
  {
    if s != [] && IsWhiteSpace(s[|s| - 1]) then TrimRight(s[..|s| - 1]) else s
  }

  function Trim(s: string): string {
    TrimRight(TrimLeft(s))
  }

  /** No white space at either end. */
  predicate Trimmed(s: string) {
    s == [] || (!IsWhiteSpace(s[0]) && !IsWhiteSpace(s[|s| - 1]))
  }

  lemma TrimTrimmed(s: string)
    requires Trimmed(s)
    ensures Trim(s) == s && Trim(" " + s) == s
  {
    assert (" " + s)[1..] == s;
  }

  function Times(n: nat, base: nat): nat {
    if base == 16 then n * 16 else n * 10
  }

  /** Value of the leading digits, after those already read. */
  function Digits(s: string, base: nat, value: nat): nat {
    if s == [] || Digit(s[0], base) < 0 then value else Digits(s[1..], base, Times(value, base) + Digit(s[0], base))
  }

  const LONG_MAX: int := 0x7FFF_FFFF_FFFF_FFFF

  function Clamp(n: int): (r: int)
    ensures -0x8000_0000_0000_0000 <= r <= 0x7FFF_FFFF_FFFF_FFFF
    ensures -0x8000_0000_0000_0000 <= n <= 0x7FFF_FFFF_FFFF_FFFF ==> r == n
    ensures n < -0x8000_0000_0000_0000 ==> r == -0x8000_0000_0000_0000
    ensures n > 0x7FFF_FFFF_FFFF_FFFF ==> r == 0x7FFF_FFFF_FFFF_FFFF
  {
    if n > LONG_MAX then LONG_MAX else if n < -LONG_MAX - 1 then -LONG_MAX - 1 else n
  }

  predicate HexPrefix(s: string) {
    |s| > 2 && s[0] == '0' && (s[1] == 'x' || s[1] == 'X') && Digit(s[2], 16) >= 0
  }

  function Magnitude(s: string, base: nat): nat {
    Digits(if base == 16 && HexPrefix(s) then s[2..] else s, base, 0)
  }

  /** strtol with 64-bit long. */
  function StrToL(s: string, base: nat): int {
    var t := TrimLeft(s);
    var m: int := Magnitude(if t != [] && (t[0] == '-' || t[0] == '+') then t[1..] else t, base);
    Clamp(if t != [] && t[0] == '-' then -m else m)
  }

  /** The cast from long to int. */
  function Int32(n: int): (r: int)
    ensures -0x8000_0000 <= r < 0x8000_0000 && (n - r) % 0x1_0000_0000 == 0
  {
    var m := n % 0x1_0000_0000;
    if m < 0x8000_0000 then m else m - 0x1_0000_0000
  }

  lemma DigitOfChar(d: nat, base: nat)
    requires (base == 10 || base == 16) && d < base
    ensures Digit(DigitChar(d), base) == d
  {
  }

  lemma DivMod(n: nat, base: nat)
    requires base == 10 || base == 16
    ensures Times(n / base, base) + n % base == n
  {
  }

  lemma {:induction false} DigitsNumeral(n: nat, base: nat, t: string)
    requires base == 10 || base == 16
    ensures Digits(Numeral(n, base) + t, base, 0) == Digits(t, base, n)
  {
    if n < base {
      DigitOfChar(n, base);
      assert ([DigitChar(n)] + t)[1..] == t;
    } else {
      var d := DigitChar(n % base);
      DigitOfChar(n % base, base);
      DivMod(n, base);
      DigitsNumeral(n / base, base, [d] + t);
      assert Numeral(n, base) + t == Numeral(n / base, base) + ([d] + t);
      assert ([d] + t)[1..] == t;
    }
  }

  /** Printing and reading a number. */
  lemma NumeralReads(n: nat, base: nat)
    requires base == 10 || base == 16
    ensures Trimmed(Numeral(n, base)) && StrToL(Numeral(n, base), base) == Clamp(n)
  {
    var s := Numeral(n, base);
    NumeralDigits(n, base);
    assert Digit(s[0], base) >= 0 && Digit(s[|s| - 1], base) >= 0;
    assert |s| > 1 ==> Digit(s[1], base) >= 0;
    DigitsNumeral(n, base, []);
    assert s + [] == s;
    DigitsRead(s, base, n);
  }

  lemma DigitsRead(s: string, base: nat, n: nat)
    requires s != [] && Digit(s[0], base) >= 0 && (|s| > 1 ==> Digit(s[1], base) >= 0) && Digits(s, base, 0) == n
    ensures StrToL(s, base) == Clamp(n)
  {
  }

  // ---------- header fields ----------

  datatype Header = Header(name: string, value: string)

  function LowerChar(c: char): char {
    if 'A' <= c <= 'Z' then c + 32 as char else c
  }

  function Lower(s: string): string {
    if s == [] then [] else [LowerChar(s[0])] + Lower(s[1..])
  }

  predicate HasField(h: Header, name: string, value: string) {
    Lower(h.name) == Lower(name) && h.value == value
  }

  /** The same character, or the two cases of one ASCII letter. */
  predicate SameLetter(c: char, d: char) {
    c == d || ('A' <= c <= 'Z' && d as int == c as int + 32) || ('A' <= d <= 'Z' && c as int == d as int + 32)
  }

  /** Equal for strcasecmp. */
  predicate SameName(s: string, t: string) {
    |s| == |t| && forall i :: 0 <= i < |s| ==> SameLetter(s[i], t[i])
  }

  lemma LowerSameLetter(c: char, d: char)
    ensures LowerChar(c) == LowerChar(d) <==> SameLetter(c, d)
  {
  }

  lemma {:induction false} LowerSame(s: string, t: string)
    ensures Lower(s) == Lower(t) <==> SameName(s, t)
    decreases |s|
  {
    if s == [] || t == [] {
      assert Lower(s) == [] <==> s == [];
      assert Lower(t) == [] <==> t == [];
    } else {
      LowerSame(s[1..], t[1..]);
      LowerSameLetter(s[0], t[0]);
      FirstAndRest(LowerChar(s[0]), Lower(s[1..]), LowerChar(t[0]), Lower(t[1..]));
      NameFirstAndRest(s, t);
    }
  }

  lemma FirstAndRest(c: char, x: string, d: char, y: string)
    ensures [c] + x == [d] + y <==> c == d && x == y
  {
    if [c] + x == [d] + y {
      ConsRest(c, x);
      ConsRest(d, y);
      assert ([c] + x)[0] == ([d] + y)[0];
    }
  }

  lemma NameFirstAndRest(s: string, t: string)
    requires s != [] && t != []
    ensures SameName(s, t) <==> SameLetter(s[0], t[0]) && SameName(s[1..], t[1..])
  {
    if SameLetter(s[0], t[0]) && SameName(s[1..], t[1..]) {
      forall i | 0 <= i < |s|
        ensures SameLetter(s[i], t[i])
      {
        if i > 0 {
          assert s[i] == s[1..][i - 1] && t[i] == t[1..][i - 1];
        }
      }
    }
  }

  /** The field with a name, whatever its case. */
  function Lookup(headers: seq<Header>, name: string): (r: Option<string>)
    ensures r.None? ==> forall i :: 0 <= i < |headers| ==> Lower(headers[i].name) != Lower(name)
    ensures r.Some? ==> exists i :: 0 <= i < |headers| && HasField(headers[i], name, r.value)
  {
    if headers == [] then None
    else if Lower(headers[0].name) == Lower(name) then Some(headers[0].value)
    else
      var r := Lookup(headers[1..], name);
      assert r.Some? ==> exists i :: 0 <= i < |headers[1..]| && HasField(headers[1..][i], name, r.value);
      r
  }

  /** std::map::insert: the first value of a name stays. */
  function Insert(headers: seq<Header>, h: Header): seq<Header> {
    if Lookup(headers, h.name).Some? then headers else headers + [h]
  }

  predicate AllColons(line: string) {
    forall i :: 0 <= i < |line| ==> line[i] == ':'
  }

  /** One header line.  A line without colon becomes a field whose name and value are both the
      line, and "name:" without anything behind the colon is dropped. */
  function ParseLine(headers: seq<Header>, line: string): seq<Header> {
    var colon := Find(line, ":");
    if AllColons(line) then headers
    else if colon < 0 then Insert(headers, Header(Trim(line), Trim(line)))
    else if |line| > colon + 1 then Insert(headers, Header(Trim(line[..colon]), Trim(line[colon + 1..])))
    else headers
  }

  /** __ParserHeaders: the lines of a block, each ended by CRLF. */
  function ParseHeaders(block: string, headers: seq<Header>): seq<Header>
    decreases |block|
  {
    var i := Find(block, CRLF);
    if i < 0 then headers else ParseHeaders(block[i + 2..], ParseLine(headers, block[..i]))
  }

  method ReadHeaders(block: string, fields: seq<Header>) returns (headers: seq<Header>)
    ensures headers == ParseHeaders(block, fields)
  {
    var rest := block;
    headers := fields;
    while true
      invariant ParseHeaders(rest, headers) == ParseHeaders(block, fields)
      decreases |rest|
    {
      var end := Find(rest, CRLF);
      if end < 0 {
        return;
      }
      rest, headers := rest[end + 2..], ParseLine(headers, rest[..end]);
    }
  }

  predicate IsChunked(headers: seq<Header>) {
    var v := Lookup(headers, "Transfer-Encoding");
    v.Some? && Lower(v.value) == "chunked"
  }

  predicate IsConnectionClose(headers: seq<Header>) {
    var v := Lookup(headers, "Connection");
    v.Some? && Lower(v.value) == "close"
  }

  function ContentLength(headers: seq<Header>): int {
    var v := Lookup(headers, "Content-Length");
    if v.None? then 0 else Int32(StrToL(v.value, 10))
  }

  // ---------- first lines ----------

  const VERSIONS: seq<string> := ["HTTP/0.9", "HTTP/1.0", "HTTP/1.1", "HTTP/2"]
  const METHODS: seq<string> := ["GET", "POST", "OPTIONS", "HEAD", "PUT", "DELETE", "TRACE", "CONNECT"]

  datatype FirstLine =
    | StatusLine(version: string, code: int, reason: string)
    | RequestLine(verb: string, url: string, version: string)

  /** SplitToken on spaces: the runs of other characters. */
  function Tokens(s: string, token: string): seq<string> {
    if s == [] then (if token == [] then [] else [token])
    else if s[0] == ' ' then (if token == [] then [] else [token]) + Tokens(s[1..], [])
    else Tokens(s[1..], token + [s[0]])
  }

  function ParseStatusLine(line: string): Option<FirstLine> {
    var t := Tokens(line, []);
    if |t| < 2 || t[0] !in VERSIONS then None
    else Some(StatusLine(t[0], Int32(StrToL(t[1], 10)), if |t| == 3 then t[2] else ""))
  }

  function ParseRequestLine(line: string): Option<FirstLine> {
    var t := Tokens(line, []);
    if |t| < 3 || t[0] !in METHODS || t[2] !in VERSIONS then None
    else Some(RequestLine(t[0], t[1], t[2]))
  }

  /** The first line up to its CRLF. */
  function ParseFirstLine(firstline: string): Option<FirstLine> {
    var pos := Find(firstline, CRLF);
    if pos < 0 then None
    else if "HTTP/" <= firstline then ParseStatusLine(firstline[..pos])
    else ParseRequestLine(firstline[..pos])
  }
}
