/**
  Which cuts of the byte stream change what the receiver makes of it.  There are four, and no
  others: three lie behind the limits and the empty line of a message's head, and one is the
  end of a head whose body only the closing of the connection ends.
 */
module HttpCuts {
  import opened Seqs
  import opened Options
  import opened Strings
  import opened HttpText
  import opened HttpParser
  import opened HttpStreaming

  /** What a caller sees: after an error nothing more is fed, so the buffer does not count. */
  function Outcome(s: State): State {
    if Live(s) then s else s.(buf := [])
  }

  /** Running, and then running with more bytes unless an error was reported. */
  function Twice(g: Grammar, s: State, b: string): State
    requires Live(s)
  {
    var t := Run(g, s);
    if Live(t) then Run(g, Add(t, b)) else t
  }

  // ---------- the harmful cuts ----------

  /** The body begins at the cut, and only the closing of the connection ends it: without a byte of it
      the receiver takes it for an empty one. */
  predicate LosesBody(g: Grammar, s: State) {
    s.buf == [] && s.body == [] && UntilClose(ReadFraming(g, s.headers))
  }

  predicate HarmfulInHeaders(g: Grammar, s: State, b: string) {
    var pos := StrNStr(s.buf, CRLF2);
    if pos < 0 then |s.buf| > HEADER_LIMIT && StrNStr(s.buf + b, CRLF2) >= 0
    else LosesBody(g, HeaderTurn(g, s).next)
  }

  /** The text begins with a complete first line that can be read. */
  predicate Readable(g: Grammar, text: string) {
    var pos := StrNStr(text, CRLF);
    pos >= 0 && ReadFirstLine(g, text[..pos + 2]).Some?
  }

  predicate HarmfulInFirstLine(g: Grammar, s: State, b: string) {
    if StrNStr(s.buf, CRLF) < 0 then |s.buf| > FIRST_LINE_LIMIT && Readable(g, s.buf + b)
    else Readable(g, s.buf) && (Splits(s, b) || HarmfulBehind(g, FirstLineTurn(g, s).next, b))
  }

  predicate HarmfulBehind(g: Grammar, s: State, b: string) {
    if s.status == HeaderFields then HarmfulInHeaders(g, s, b) else LosesBody(g, s)
  }

  /** A cut behind s.buf and in front of b that changes the result. */
  predicate Harmful(g: Grammar, s: State, b: string) {
    match s.status
    case HeaderFields => HarmfulInHeaders(g, s, b)
    case Body => LosesBody(g, s)
    case End => false
    case _ => HarmfulInFirstLine(g, s, b)
  }

  // ---------- in the body ----------

  /** With a body that only the closing ends, every turn takes the whole buffer. */
  lemma UntilCloseRun(g: Grammar, s: State)
    requires s.status == Body && UntilClose(ReadFraming(g, s.headers))
    ensures Run(g, s) == s.(status := if s.body + s.buf == [] then End else Body, body := s.body + s.buf, buf := [])
  {
    assert s.buf[..|s.buf|] == s.buf && s.buf[|s.buf|..] == [];
    assert |s.body + s.buf| == 0 <==> s.body + s.buf == [];
  }

  lemma UntilCloseCut(g: Grammar, s: State, b: string)
    requires s.status == Body && UntilClose(ReadFraming(g, s.headers)) && b != []
    ensures Outcome(Twice(g, s, b)) == Outcome(Run(g, Add(s, b))) <==> !LosesBody(g, s)
  {
    var t := Run(g, s);
    UntilCloseRun(g, s);
    UntilCloseRun(g, Add(s, b));
    if t.status == Body {
      UntilCloseRun(g, Add(t, b));
      Assoc(s.body, s.buf, b);
      assert [] + b == b;
    }
  }

  lemma BodyCutExactly(g: Grammar, s: State, b: string)
    requires s.status == Body && b != []
    ensures Outcome(Twice(g, s, b)) == Outcome(Run(g, Add(s, b))) <==> !LosesBody(g, s)
  {
    if UntilClose(ReadFraming(g, s.headers)) {
      UntilCloseCut(g, s, b);
    } else if Live(Run(g, s)) {
      BodyKeeps(g, s);
      RunTwice(g, s, b);
    } else {
      DeadExtends(g, s, b);
    }
  }

  // ---------- in the header fields ----------

  lemma HeaderRun(g: Grammar, s: State)
    requires s.status == HeaderFields
    ensures var t := Run(g, s);
            t.status == HeaderFields || t.status == HeaderFieldsError || (InBody(t) && t.headerLength >= 4)
    ensures StrNStr(s.buf, CRLF2) >= 0 ==> InBody(Run(g, s))
  {
    match Step(g, s)
    case Return(t) =>
    case Again(t) =>
      BodyKeeps(g, t);
  }

  lemma TwiceAgain(g: Grammar, s: State, t: State, b: string)
    requires Live(s) && Step(g, s) == Again(t) && Step(g, Add(s, b)) == Again(Add(t, b))
    ensures Twice(g, s, b) == Twice(g, t, b) && Run(g, Add(s, b)) == Run(g, Add(t, b))
  {
    RunAgain(g, s, t);
    RunAgain(g, Add(s, b), Add(t, b));
  }

  lemma HeaderCutExactly(g: Grammar, s: State, b: string)
    requires s.status == HeaderFields && b != []
    ensures Outcome(Twice(g, s, b)) == Outcome(Run(g, Add(s, b))) <==> !HarmfulInHeaders(g, s, b)
  {
    if StrNStr(s.buf, CRLF2) >= 0 {
      var t := HeaderTurn(g, s).next;
      HeaderExtends(g, s, b, t);
      TwiceAgain(g, s, t, b);
      BodyCutExactly(g, t, b);
    } else if |s.buf| > HEADER_LIMIT {
      HeaderRun(g, Add(s, b));
    }
  }

  // ---------- in the first line ----------

  lemma SplitIsShort(s: State, b: string)
    requires Splits(s, b)
    ensures |s.buf| < StrNStr(s.buf, CRLF) + 4
  {
    var pos := StrNStr(s.buf, CRLF);
    if |s.buf| >= pos + 4 {
      CStringIsPrefix(s.buf + b);
      var p := (s.buf + b)[..pos + 4];
      assert p == CString(s.buf + b)[..pos + 4];
      assert p == s.buf[..pos + 4];
      OccursExtends(CRLF2, s.buf, s.buf + b, pos);
      forall k | 0 <= k < pos
        ensures !Occurs(CRLF2, s.buf, k)
      {
        OccursExtends(CRLF2, p, s.buf, k);
        OccursExtends(CRLF2, p, CString(s.buf + b), k);
      }
      StrNStrFirst(s.buf, CRLF2, pos);
      assert false;
    }
  }

  /** When the empty line arrives later than the first line, the result is another one: no header
      block is recorded in the one case, and in the other one is still awaited or was read. */
  lemma SplitDiffers(g: Grammar, s: State, b: string)
    requires Splits(s, b) && Readable(g, s.buf) && s.headerLength == 0
    ensures Outcome(Twice(g, s, b)) != Outcome(Run(g, Add(s, b)))
  {
    var pos: nat := StrNStr(s.buf, CRLF);
    var line := ReadFirstLine(g, s.buf[..pos + 2]);
    SplitIsShort(s, b);
    FirstLineAt(g, s, pos, line);
    var t := FirstLineDone(s, pos, line, false).next;
    ShortBlockWaits(g, t);
    RunAgain(g, s, t);
    HeaderRun(g, Add(t, b));
    HeadlessRun(g, s, b, pos, line);
  }

  lemma ShortBlockWaits(g: Grammar, t: State)
    requires t.status == HeaderFields && |t.buf| < 4
    ensures Run(g, t) == t
  {
    assert StrNStr(t.buf, CRLF2) < 0;
  }

  lemma HeadlessRun(g: Grammar, s: State, b: string, pos: nat, line: Option<FirstLine>)
    requires Live(s) && StrNStr(s.buf, CRLF) == pos == StrNStr(s.buf + b, CRLF2)
    requires line == ReadFirstLine(g, s.buf[..pos + 2]) && line.Some?
      && (s.status == Start || s.status == FirstLinePart)
    ensures InBody(Run(g, Add(s, b))) && Run(g, Add(s, b)).headerLength == s.headerLength
  {
    StrNStrExtends(s.buf, b, CRLF);
    PrefixSame(s.buf, b, pos + 2);
    FirstLineAt(g, Add(s, b), pos, line);
    var u := FirstLineDone(Add(s, b), pos, line, true).next;
    RunAgain(g, Add(s, b), u);
    BodyKeeps(g, u);
  }

  /** A complete line is never reported as a bad first line, however long it is. */
  lemma ReadableRun(g: Grammar, s: State)
    requires (s.status == Start || s.status == FirstLinePart) && Readable(g, s.buf)
    ensures Run(g, s).status != FirstLineError
  {
    var pos: nat := StrNStr(s.buf, CRLF);
    var line := ReadFirstLine(g, s.buf[..pos + 2]);
    FirstLineAt(g, s, pos, line);
    var t := FirstLineDone(s, pos, line, StrNStr(s.buf, CRLF2) == pos).next;
    RunAgain(g, s, t);
    if t.status == Body {
      BodyKeeps(g, t);
    } else {
      HeaderRun(g, t);
    }
  }

  /** A complete line that cannot be read is refused. */
  lemma UnreadableRun(g: Grammar, s: State)
    requires (s.status == Start || s.status == FirstLinePart) && !Readable(g, s.buf)
    requires StrNStr(s.buf, CRLF) >= 0 || |s.buf| > FIRST_LINE_LIMIT
    ensures Run(g, s) == s.(status := FirstLineError)
  {
  }

  lemma PendingCut(g: Grammar, s: State, b: string)
    requires (s.status == Start || s.status == FirstLinePart) && StrNStr(s.buf, CRLF) < 0 && b != []
    ensures Outcome(Twice(g, s, b)) == Outcome(Run(g, Add(s, b)))
      <==> !(|s.buf| > FIRST_LINE_LIMIT && Readable(g, s.buf + b))
  {
    if |s.buf| <= FIRST_LINE_LIMIT {
      FirstLineWaits(g, s, b, s.(status := FirstLinePart));
    } else {
      UnreadableRun(g, s);
      if Readable(g, s.buf + b) {
        ReadableRun(g, Add(s, b));
      } else {
        UnreadableRun(g, Add(s, b));
      }
    }
  }

  lemma CompleteCut(g: Grammar, s: State, b: string)
    requires (s.status == Start || s.status == FirstLinePart) && Readable(g, s.buf) && !Splits(s, b) && b != []
    ensures Outcome(Twice(g, s, b)) == Outcome(Run(g, Add(s, b))) <==> !HarmfulBehind(g, FirstLineTurn(g, s).next, b)
  {
    var t := FirstLineTurn(g, s).next;
    FirstLineExtends(g, s, b, t);
    TwiceAgain(g, s, t, b);
    if t.status == HeaderFields {
      HeaderCutExactly(g, t, b);
    } else {
      BodyCutExactly(g, t, b);
    }
  }

  lemma UnreadableCut(g: Grammar, s: State, b: string)
    requires (s.status == Start || s.status == FirstLinePart) && StrNStr(s.buf, CRLF) >= 0 && !Readable(g, s.buf)
    ensures Outcome(Twice(g, s, b)) == Outcome(Run(g, Add(s, b)))
  {
    StrNStrExtends(s.buf, b, CRLF);
    PrefixSame(s.buf, b, StrNStr(s.buf, CRLF) + 2);
    UnreadableRun(g, s);
    UnreadableRun(g, Add(s, b));
  }

  // ---------- exactly the harmful cuts ----------

  /** Every cut of every stream, at any point of a message: it changes the outcome exactly when it is
      one of the harmful ones. */
  lemma CutExactly(g: Grammar, s: State, b: string)
    requires Live(s) && b != [] && (s.status == Start || s.status == FirstLinePart ==> s.headerLength == 0)
    ensures Outcome(Twice(g, s, b)) == Outcome(Run(g, Add(s, b))) <==> !Harmful(g, s, b)
  {
    if s.status == HeaderFields {
      HeaderCutExactly(g, s, b);
    } else if s.status == Body {
      BodyCutExactly(g, s, b);
    } else if s.status != End {
      if StrNStr(s.buf, CRLF) < 0 {
        PendingCut(g, s, b);
      } else if !Readable(g, s.buf) {
        UnreadableCut(g, s, b);
      } else if Splits(s, b) {
        SplitDiffers(g, s, b);
      } else {
        CompleteCut(g, s, b);
      }
    }
  }

  /** The same for a caller: two pieces against one. */
  lemma CutHarmless(g: Grammar, s: State, a: string, b: string)
    requires Live(s) && a != [] && b != [] && (s.status == Start || s.status == FirstLinePart ==> s.headerLength == 0)
    ensures Outcome(Feed(g, s, [a, b])) == Outcome(Feed(g, s, [a + b])) <==> !Harmful(g, Add(s, a), b)
  {
    CutExactly(g, Add(s, a), b);
    FeedOne(g, s, a + b);
    FeedTwo(g, s, a, b);
    AddTwice(s, a, b);
  }

  lemma FeedOne(g: Grammar, s: State, a: string)
    requires Live(s) && a != []
    ensures Feed(g, s, [a]) == Run(g, Add(s, a))
  {
    assert [a][..0] == [];
  }

  lemma FeedTwo(g: Grammar, s: State, a: string, b: string)
    requires Live(s) && a != [] && b != []
    ensures Feed(g, s, [a, b]) == Twice(g, Add(s, a), b)
  {
    FeedOne(g, s, a);
    assert [a, b][..1] == [a];
  }

  // ---------- every message has such cuts ----------

  /** Any first line, and the empty line in a piece of its own: another result than at once. */
  lemma EmptyLineLater(g: Grammar, f: string)
    requires IsFirstLine(g, f)
    ensures Outcome(Feed(g, INITIAL, [f, CRLF])) != Outcome(Feed(g, INITIAL, [f + CRLF]))
  {
    var s := Add(INITIAL, f);
    EmptyLineAt(f);
    assert s.buf == f && f[..|f|] == f && |f| < StrNStr(f, CRLF) + 4;
    assert Splits(s, CRLF) && Readable(g, s.buf);
    CutHarmless(g, INITIAL, f, CRLF);
  }

  lemma EmptyLineAt(f: string)
    requires StrNStr(f, CRLF) == |f| - 2 >= 0
    ensures StrNStr(f + CRLF, CRLF2) == |f| - 2
  {
    var s, n := f + CRLF, |f| - 2;
    CStringIsPrefix(f);
    assert CString(f) == f;
    assert s[n..n + 4] == f[n..n + 2] + CRLF == CRLF2 && s[..n + 4] == s;
    forall k | 0 <= k < n
      ensures !Occurs(CRLF2, s, k)
    {
      assert !Occurs(CRLF, f, k);
      assert f[k..k + 2] == s[k..k + 4][..2];
      assert CRLF2[..2] == CRLF;
    }
    StrNStrFirst(s, CRLF2, n);
  }

  /** When both come at once, the body begins behind the empty line, without header fields. */
  lemma HeadlessMessage(g: Grammar, f: string, c: string)
    requires IsFirstLine(g, f)
    ensures Run(g, Add(INITIAL, f + CRLF + c))
         == Run(g, State(Body, c, ReadFirstLine(g, f), [], [], |f|, 0))
  {
    var s, line := Add(INITIAL, f + CRLF + c), ReadFirstLine(g, f);
    HeadlessText(f, c);
    FirstLineAt(g, s, |f| - 2, line);
    RunAgain(g, s, State(Body, c, line, [], [], |f|, 0));
  }

  lemma HeadlessText(f: string, c: string)
    requires StrNStr(f, CRLF) == |f| - 2 >= 0
    ensures var m := f + CRLF + c;
            && Add(INITIAL, m).buf == m && StrNStr(m, CRLF) == |f| - 2 == StrNStr(m, CRLF2)
            && m[..|f|] == f && m[|f| + 2..] == c
  {
    EmptyLineAt(f);
    StrNStrExtends(f + CRLF, c, CRLF2);
    Assoc(f, CRLF, c);
    StrNStrExtends(f, CRLF + c, CRLF);
  }

  // ---------- the limits are exact ----------

  ghost predicate AnyCutLive(g: Grammar, m: string) {
    forall pieces :: NonEmpty(pieces) && Join(pieces) == m ==> Live(Feed(g, INITIAL, pieces))
  }

  lemma SomeCutDead(g: Grammar, a: string, b: string)
    requires a != [] && b != [] && !Live(Run(g, Add(INITIAL, a)))
    ensures !AnyCutLive(g, a + b)
  {
    var pieces := [a, b];
    FeedTwo(g, INITIAL, a, b);
    assert pieces[1..] == [b] && [b][1..] == [];
    assert Join([b]) == b + [] == b;
    assert NonEmpty(pieces) && Join(pieces) == a + b;
  }

  /** A first line of any length is accepted when it comes at once. */
  lemma FirstLineAtOnce(g: Grammar, f: string)
    requires IsFirstLine(g, f)
    ensures Run(g, Add(INITIAL, f)) == AtHeaders(g, f, [])
  {
    assert f + [] == f;
    PastFirstLine(g, f, []);
  }

  /** It is accepted in every cut exactly when it has at most 8 KiB and one byte. */
  lemma FirstLineLimit(g: Grammar, f: string)
    requires IsFirstLine(g, f) && !UntilClose(ReadFraming(g, []))
    ensures AnyCutLive(g, f) <==> |f| <= FIRST_LINE_LIMIT + 1
  {
    if |f| <= FIRST_LINE_LIMIT + 1 {
      forall pieces | NonEmpty(pieces) && Join(pieces) == f
        ensures Live(Feed(g, INITIAL, pieces))
      {
        ShortFirstLine(g, f, pieces);
      }
    } else {
      LongFirstLine(g, f);
    }
  }

  lemma ShortFirstLine(g: Grammar, f: string, pieces: seq<string>)
    requires FirstLineOk(g, f) && !UntilClose(ReadFraming(g, [])) && NonEmpty(pieces) && Join(pieces) == f
    ensures Feed(g, INITIAL, pieces) == AtHeaders(g, f, [])
  {
    assert f + [] == f;
    forall p, b | p != [] && b != [] && p + b <= Join(pieces)
      ensures Harmless(g, INITIAL, p, b)
    {
      FirstLineCut(g, f, [], p, b);
    }
    FeedIsRun(g, INITIAL, pieces);
    FirstLineAtOnce(g, f);
  }

  lemma LongFirstLine(g: Grammar, f: string)
    requires IsFirstLine(g, f) && |f| > FIRST_LINE_LIMIT + 1
    ensures !AnyCutLive(g, f)
  {
    var p := f[..|f| - 1];
    PrefixRest(p, f);
    OverlongLine(g, p, f[|p|..]);
  }

  lemma OverlongLine(g: Grammar, p: string, last: string)
    requires IsFirstLine(g, p + last) && |p| > FIRST_LINE_LIMIT && last != []
    ensures !AnyCutLive(g, p + last)
  {
    NotYet(p, p + last, CRLF);
    OverlongPart(g, p);
    SomeCutDead(g, p, last);
  }

  lemma OverlongPart(g: Grammar, p: string)
    requires StrNStr(p, CRLF) < 0 && |p| > FIRST_LINE_LIMIT
    ensures !Live(Run(g, Add(INITIAL, p)))
  {
    assert Add(INITIAL, p).buf == p;
    UnreadableRun(g, Add(INITIAL, p));
  }

  /** The header block is accepted at once whatever its length, unless it announces a negative length. */
  lemma HeadersAtOnce(g: Grammar, f: string, h: string)
    requires IsFirstLine(g, f) && IsBlock(h)
    ensures var framing := ReadFraming(g, ReadFields(g, h, []));
            Live(Run(g, Add(INITIAL, f + h))) <==> framing.chunked || framing.length >= 0
  {
    assert f + h + [] == f + h;
    PastHeaders(g, f, h, []);
    EmptyBodyRun(g, Add(AtBody(g, f, h), []));
  }

  lemma EmptyBodyRun(g: Grammar, s: State)
    requires s.status == Body && s.buf == [] && s.body == []
    ensures var framing := ReadFraming(g, s.headers); Live(Run(g, s)) <==> framing.chunked || framing.length >= 0
  {
    assert Find([], CRLF) < 0;
  }

  /** It is accepted in every cut exactly when it also has at most 128 KiB and one byte. */
  lemma HeaderLimit(g: Grammar, f: string, h: string)
    requires FirstLineOk(g, f) && IsBlock(h) && !UntilClose(ReadFraming(g, []))
    ensures var framing := ReadFraming(g, ReadFields(g, h, []));
            AnyCutLive(g, f + h) <==> |h| <= HEADER_LIMIT + 1 && (framing.chunked || framing.length >= 0)
  {
    var framing := ReadFraming(g, ReadFields(g, h, []));
    HeadersAtOnce(g, f, h);
    if |h| > HEADER_LIMIT + 1 {
      LongHeaders(g, f, h);
    } else if framing.chunked || framing.length >= 0 {
      forall pieces | NonEmpty(pieces) && Join(pieces) == f + h
        ensures Live(Feed(g, INITIAL, pieces))
      {
        ShortHeaders(g, f, h, pieces);
      }
    } else {
      RefusedAtOnce(g, f + h);
    }
  }

  lemma RefusedAtOnce(g: Grammar, m: string)
    requires m != [] && !Live(Run(g, Add(INITIAL, m)))
    ensures !AnyCutLive(g, m)
  {
    FeedOne(g, INITIAL, m);
    assert [m][1..] == [] && m + [] == m;
    assert NonEmpty([m]) && Join([m]) == m;
  }

  lemma ShortHeaders(g: Grammar, f: string, h: string, pieces: seq<string>)
    requires FirstLineOk(g, f) && HeadersOk(h) && !UntilClose(ReadFraming(g, []))
    requires NonEmpty(pieces) && Join(pieces) == f + h
    ensures Feed(g, INITIAL, pieces) == Run(g, Add(INITIAL, f + h))
  {
    assert f + h + [] == f + h;
    forall p, b | p != [] && b != [] && p + b <= Join(pieces)
      ensures Harmless(g, INITIAL, p, b)
    {
      if |p| < |f| {
        FirstLineCut(g, f, h, p, b);
      } else {
        HeaderCut(g, f, h, [], p, b);
      }
    }
    FeedIsRun(g, INITIAL, pieces);
  }

  lemma LongHeaders(g: Grammar, f: string, h: string)
    requires FirstLineOk(g, f) && IsBlock(h) && |h| > HEADER_LIMIT + 1
    ensures !AnyCutLive(g, f + h)
  {
    var q := h[..|h| - 1];
    NotYet(q, h, CRLF2);
    assert !Occurs(CRLF, q, 0) by {
      OccursExtends(CRLF, q, h, 0);
    }
    PastFirstLine(g, f, q);
    OverLimit(g, AtHeaders(g, f, q));
    LastApart(f, h);
    SomeCutDead(g, f + q, h[|h| - 1..]);
  }

  lemma OverLimit(g: Grammar, s: State)
    requires s.status == HeaderFields && StrNStr(s.buf, CRLF2) < 0 && |s.buf| > HEADER_LIMIT
    ensures !Live(Run(g, s))
  {
  }
}
