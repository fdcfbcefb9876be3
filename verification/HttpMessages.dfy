/** Messages that marsksim/comm/http.cc writes, received in any number of pieces. */
module HttpMessages {
  import opened Seqs
  import opened Options
  import opened Strings
  import opened HttpText
  import opened HttpParser
  import opened HttpStreaming

  // ---------- chunks ----------

  const EOF_DATA: string := "0\r\n\r\n"

  /** AppendHeader, the data, AppendTail; the size is cut to 32 bits. */
  function EncodeChunk(c: string): string {
    Numeral(|c| % 0x1_0000_0000, 16) + CRLF + c + CRLF
  }

  function EncodeChunks(chunks: seq<string>): string {
    if chunks == [] then [] else EncodeChunk(chunks[0]) + EncodeChunks(chunks[1..])
  }

  /** Sizes the chunk encoding can express; an empty chunk would end the body. */
  predicate ChunksOk(chunks: seq<string>) {
    forall i :: 0 <= i < |chunks| ==> 0 < |chunks[i]| < 0x1_0000_0000
  }

  /** The stream provider's writes. */
  method WriteChunks(chunks: seq<string>) returns (out: string)
    ensures out == EncodeChunks(chunks) + EOF_DATA
  {
    out := [];
    for i := 0 to |chunks|
      invariant out + EncodeChunks(chunks[i..]) == EncodeChunks(chunks)
    {
      var c, more := chunks[i], EncodeChunks(chunks[i + 1..]);
      assert chunks[i..][1..] == chunks[i + 1..];
      WriteRegroup(out, Numeral(|c| % 0x1_0000_0000, 16), c, more);
      out := out + (Numeral(|c| % 0x1_0000_0000, 16) + CRLF);
      out := out + c;
      out := out + CRLF;
    }
    assert chunks[|chunks|..] == [];
    assert out + [] == out;
    out := out + EOF_DATA;
  }

  lemma WriteRegroup(out: string, head: string, c: string, more: string)
    ensures out + (head + CRLF) + c + CRLF + more == out + ((head + CRLF + c + CRLF) + more)
  {
  }

  /** A line of digits is found up to its CRLF. */
  lemma SizeLine(n: nat, rest: string)
    ensures StrNStr(Numeral(n, 16) + CRLF + rest, CRLF) == |Numeral(n, 16)|
  {
    var d := Numeral(n, 16);
    var s := d + CRLF + rest;
    NumeralDigits(n, 16);
    forall k | 0 <= k < |d|
      ensures !Occurs(CRLF, s, k)
    {
      assert Digit(d[k], 16) >= 0;
      assert |s| >= k + 2 && s[k..k + 2][0] == d[k];
    }
    assert s[|d|..|d| + 2] == CRLF && s[..|d| + 2] == d + CRLF;
    assert forall i :: 0 <= i < |d| ==> Digit(d[i], 16) >= 0;
    StrNStrFirst(s, CRLF, |d|);
  }

  /** The reader understands the sizes that the encoder writes. */
  ghost predicate ReadsSizes(g: Grammar) {
    forall n: nat :: n < 0x1_0000_0000 ==> ReadSize(g, Numeral(n, 16)) == n
  }

  lemma HttpReadsSizes()
    ensures ReadsSizes(HTTP)
  {
    forall n: nat | n < 0x1_0000_0000
      ensures ReadSize(HTTP, Numeral(n, 16)) == n
    {
      NumeralReads(n, 16);
      TrimTrimmed(Numeral(n, 16));
    }
  }

  lemma ChunkRead(g: Grammar, s: State, c: string, rest: string)
    requires ReadsSizes(g) && 0 < |c| < 0x1_0000_0000 && s.buf == EncodeChunk(c) + rest
    ensures ChunkTurn(g, s) == GoOn(s.(body := s.body + c, buf := rest))
  {
    var d := Numeral(|c|, 16);
    assert s.buf == d + CRLF + c + CRLF + rest;
    ChunkParts(d, c, rest);
    SizeLine(|c|, c + CRLF + rest);
    assert ReadSize(g, d) == |c|;
    ChunkAt(g, s, d, c, rest);
  }

  lemma ChunkParts(d: string, c: string, rest: string)
    ensures var s := d + CRLF + c + CRLF + rest;
            && s == d + CRLF + (c + CRLF + rest) && s[..|d|] == d && s[|d| + 2..|d| + 2 + |c|] == c
            && s[|d| + 2 + |c|] == '\r' && s[|d| + 2 + |c| + 1] == '\n' && s[|d| + 2 + |c| + 2..] == rest
  {
  }

  lemma ChunkAt(g: Grammar, s: State, d: string, c: string, rest: string)
    requires c != [] && s.buf == d + CRLF + c + CRLF + rest && StrNStr(s.buf, CRLF) == |d| && ReadSize(g, d) == |c|
    ensures ChunkTurn(g, s) == GoOn(s.(body := s.body + c, buf := rest))
  {
    ChunkParts(d, c, rest);
  }

  /** A chunk whose data is not followed by CRLF is refused. */
  lemma BadChunkRefused(g: Grammar, s: State, c: string, bad: string, rest: string)
    requires ReadsSizes(g) && s.status == Body && ReadFraming(g, s.headers).chunked
    requires 0 < |c| < 0x1_0000_0000 && |bad| == 2 && bad != CRLF
    requires s.buf == Numeral(|c|, 16) + CRLF + c + bad + rest
    ensures Run(g, s) == s.(status := BodyError)
  {
    var d := Numeral(|c|, 16);
    BadParts(d, c, bad, rest);
    SizeLine(|c|, c + bad + rest);
    assert ReadSize(g, d) == |c|;
    BodyStep(g, s);
    assert bad == [bad[0], bad[1]];
  }

  lemma BadParts(d: string, c: string, bad: string, rest: string)
    requires |bad| == 2
    ensures var s := d + CRLF + c + bad + rest;
            && s == d + CRLF + (c + bad + rest) && s[..|d|] == d
            && s[|d| + 2 + |c|] == bad[0] && s[|d| + 2 + |c| + 1] == bad[1]
  {
  }

  lemma LastRead(g: Grammar, s: State, extra: string)
    requires ReadsSizes(g) && s.buf == EOF_DATA + extra
    ensures ChunkTurn(g, s) == GoOn(s.(status := End, buf := extra))
  {
    var d := Numeral(0, 16);
    assert d == "0" && ReadSize(g, d) == 0;
    SizeLine(0, CRLF + extra);
    EofParts(extra);
    LastAtEof(g, s, extra);
  }

  lemma EofParts(extra: string)
    ensures var s := EOF_DATA + extra;
            s == "0" + CRLF + (CRLF + extra) && s[..1] == "0" && s[3..] == CRLF + extra && s[5..] == extra
  {
  }

  lemma LastAtEof(g: Grammar, s: State, extra: string)
    requires s.buf == EOF_DATA + extra && StrNStr(s.buf, CRLF) == 1 && ReadSize(g, "0") == 0
    ensures ChunkTurn(g, s) == GoOn(s.(status := End, buf := extra))
  {
    EofParts(extra);
    var t := CRLF + extra;
    assert t[..2] == CRLF;
    assert Occurs(CRLF, t, 0);
    StrNStrFirst(t, CRLF, 0);
    LastAt(s, 1, 0);
  }

  lemma BodyStep(g: Grammar, s: State)
    requires s.status == Body && ReadFraming(g, s.headers).chunked
    ensures Step(g, s) == ChunkTurn(g, s)
  {
  }

  /** A chunked body received at once. */
  lemma {:induction false} ChunksAtOnce(g: Grammar, s: State, chunks: seq<string>, extra: string)
    requires ReadsSizes(g) && s.status == Body && ReadFraming(g, s.headers).chunked && ChunksOk(chunks)
    requires s.buf == EncodeChunks(chunks) + EOF_DATA + extra
    ensures Run(g, s) == s.(status := End, body := s.body + Join(chunks), buf := extra)
    decreases |chunks|
  {
    BodyStep(g, s);
    if chunks == [] {
      assert EncodeChunks(chunks) + EOF_DATA == EOF_DATA;
      LastRead(g, s, extra);
      LastStep(g, s, extra);
      assert s.body + [] == s.body;
    } else {
      var rest := EncodeChunks(chunks[1..]) + EOF_DATA + extra;
      var t := s.(body := s.body + chunks[0], buf := rest);
      FirstChunk(chunks, EOF_DATA, extra);
      ChunkRead(g, s, chunks[0], rest);
      RunAgain(g, s, t);
      ChunksAtOnce(g, t, chunks[1..], extra);
      Assoc(s.body, chunks[0], Join(chunks[1..]));
    }
  }

  lemma LastStep(g: Grammar, s: State, extra: string)
    requires Live(s) && Step(g, s) == GoOn(s.(status := End, buf := extra))
    ensures Run(g, s) == s.(status := End, buf := extra)
  {
  }

  lemma FirstChunk(chunks: seq<string>, eof: string, extra: string)
    requires chunks != []
    ensures EncodeChunks(chunks) + eof + extra == EncodeChunk(chunks[0]) + (EncodeChunks(chunks[1..]) + eof + extra)
  {
  }

  /** Every cut of a chunked body delivers exactly the chunks' data, and reaches the end. */
  lemma ChunksAnyCut(g: Grammar, s: State, chunks: seq<string>, extra: string, pieces: seq<string>)
    requires ReadsSizes(g) && s.status == Body && s.buf == [] && ReadFraming(g, s.headers).chunked && ChunksOk(chunks)
    requires NonEmpty(pieces) && Join(pieces) == EncodeChunks(chunks) + EOF_DATA + extra
    ensures Feed(g, s, pieces) == s.(status := End, body := s.body + Join(chunks), buf := extra)
  {
    var m := Join(pieces);
    assert Add(s, m).buf == m;
    ChunksAtOnce(g, Add(s, m), chunks, extra);
    BodyAnyCut(g, s, pieces);
  }

  /** The end is reached by the last byte and not before. */
  lemma ChunksNotEarly(g: Grammar, s: State, chunks: seq<string>, pieces: seq<string>)
    requires ReadsSizes(g) && s.status == Body && s.buf == [] && ReadFraming(g, s.headers).chunked && ChunksOk(chunks)
    requires NonEmpty(pieces)
    requires Join(pieces) <= EncodeChunks(chunks) + EOF_DATA && Join(pieces) != EncodeChunks(chunks) + EOF_DATA
    ensures Feed(g, s, pieces).status == Body
  {
    var m := EncodeChunks(chunks) + EOF_DATA;
    EncodedEnds(g, s, chunks, m);
    PrefixRest(Join(pieces), m);
    NotEarly(g, s, pieces, m[|Join(pieces)|..]);
  }

  lemma EncodedEnds(g: Grammar, s: State, chunks: seq<string>, m: string)
    requires ReadsSizes(g) && s.status == Body && s.buf == [] && ReadFraming(g, s.headers).chunked && ChunksOk(chunks)
    requires m == EncodeChunks(chunks) + EOF_DATA
    ensures Run(g, Add(s, m)).status == End && Run(g, Add(s, m)).buf == []
  {
    assert m + [] == m && Add(s, m).buf == m;
    ChunksAtOnce(g, Add(s, m), chunks, []);
  }

  lemma NotEarly(g: Grammar, s: State, pieces: seq<string>, rest: string)
    requires s.status == Body && !UntilClose(ReadFraming(g, s.headers)) && NonEmpty(pieces) && rest != []
    requires Run(g, Add(s, Join(pieces) + rest)).status == End && Run(g, Add(s, Join(pieces) + rest)).buf == []
    ensures Feed(g, s, pieces).status == Body
  {
    PrefixNotEarly(g, s, Join(pieces), rest);
    PartAnyCut(g, s, pieces);
  }

  lemma PartAnyCut(g: Grammar, s: State, pieces: seq<string>)
    requires s.status == Body && !UntilClose(ReadFraming(g, s.headers)) && NonEmpty(pieces)
    requires Run(g, Add(s, Join(pieces))).status == Body
    ensures Feed(g, s, pieces) == Run(g, Add(s, Join(pieces)))
  {
    BodyAnyCut(g, s, pieces);
  }

  lemma PrefixNotEarly(g: Grammar, s: State, p: string, rest: string)
    requires s.status == Body && !UntilClose(ReadFraming(g, s.headers)) && rest != []
    requires Run(g, Add(s, p + rest)).status == End && Run(g, Add(s, p + rest)).buf == []
    ensures Run(g, Add(s, p)).status == Body
  {
    BodyCuts(g, s, p + rest, p, rest);
    BodyKeeps(g, Add(s, p));
    EndKeepsBytes(g, s, p, rest);
  }

  /** A receiver at its end leaves later bytes in the buffer. */
  lemma EndKeepsBytes(g: Grammar, s: State, p: string, rest: string)
    requires s.status == Body && rest != [] && Harmless(g, s, p, rest)
    ensures Run(g, Add(s, p)).status == End ==> Run(g, Add(s, p + rest)).buf != []
  {
    var t := Run(g, Add(s, p));
    RunTwice(g, Add(s, p), rest);
    AddTwice(s, p, rest);
    if t.status == End {
      EndStays(g, Add(t, rest));
    }
  }

  lemma EndStays(g: Grammar, t: State)
    requires t.status == End
    ensures Run(g, t) == t
  {
  }

  /** An empty chunk is encoded as the end of the body. */
  lemma EmptyChunkIsEof()
    ensures EncodeChunk([]) == EOF_DATA
  {
    assert Numeral(0, 16) == "0";
    assert "0" + CRLF + [] + CRLF == EOF_DATA;
  }

  lemma {:induction false} EncodeAppend(a: seq<string>, b: seq<string>)
    ensures EncodeChunks(a + b) == EncodeChunks(a) + EncodeChunks(b)
    decreases |a|
  {
    if a == [] {
      assert a + b == b;
    } else {
      RestAppend(a, b);
      EncodeAppend(a[1..], b);
      Assoc(EncodeChunk(a[0]), EncodeChunks(a[1..]), EncodeChunks(b));
    }
  }

  /** A stream with an empty chunk stops there, in every cut: the body is the data before it, and
      everything behind it is left in the buffer. */
  lemma EmptyChunkStops(g: Grammar, s: State, before: seq<string>, after: seq<string>, extra: string,
    pieces: seq<string>)
    requires ReadsSizes(g) && s.status == Body && s.buf == [] && ReadFraming(g, s.headers).chunked && ChunksOk(before)
    requires NonEmpty(pieces) && Join(pieces) == EncodeChunks(before + [""] + after) + EOF_DATA + extra
    ensures Feed(g, s, pieces)
         == s.(status := End, body := s.body + Join(before), buf := EncodeChunks(after) + EOF_DATA + extra)
  {
    EncodeAppend(before + [""], after);
    EncodeAppend(before, [""]);
    assert EncodeChunks([""]) == EncodeChunk([]) + [] == EncodeChunk([]);
    EmptyChunkIsEof();
    var rest := EncodeChunks(after) + EOF_DATA + extra;
    StreamSplit(EncodeChunks(before), EOF_DATA, EncodeChunks(after), EOF_DATA, extra);
    ChunksAnyCut(g, s, before, rest, pieces);
  }

  lemma StreamSplit(a: string, b: string, c: string, d: string, e: string)
    ensures a + b + c + d + e == a + b + (c + d + e)
  {
  }
}
