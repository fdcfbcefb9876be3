/** How the network cuts the bytes of a message does not change what the receiver makes of them. */
module HttpStreaming {
  import opened Options
  import opened Seqs
  import opened Strings
  import opened HttpText
  import opened HttpParser

  // ---------- one turn on a longer buffer ----------

  lemma FirstLineAt(g: Grammar, s: State, pos: nat, line: Option<FirstLine>)
    requires StrNStr(s.buf, CRLF) == pos && ReadFirstLine(g, s.buf[..pos + 2]) == line && line.Some?
    ensures FirstLineTurn(g, s) == FirstLineDone(s, pos, line, StrNStr(s.buf, CRLF2) == pos)
  {
  }

  lemma FirstLineExtends(g: Grammar, s: State, b: string, t: State)
    requires FirstLineTurn(g, s) == Again(t) && !Splits(s, b)
    requires s.status == Start || s.status == FirstLinePart
    ensures FirstLineTurn(g, Add(s, b)) == Again(Add(t, b))
  {
    var pos: nat := StrNStr(s.buf, CRLF);
    StrNStrExtends(s.buf, b, CRLF);
    PrefixSame(s.buf, b, pos + 2);
    FirstLineAt(g, Add(s, b), pos, ReadFirstLine(g, s.buf[..pos + 2]));
    if StrNStr(s.buf, CRLF2) == pos {
      StrNStrExtends(s.buf, b, CRLF2);
    }
    DoneExtends(s, b, pos, ReadFirstLine(g, s.buf[..pos + 2]), StrNStr(s.buf, CRLF2) == pos);
  }

  lemma DoneExtends(s: State, b: string, pos: nat, line: Option<FirstLine>, headless: bool)
    requires pos + (if headless then 4 else 2) <= |s.buf|
    ensures FirstLineDone(Add(s, b), pos, line, headless) == Again(Add(FirstLineDone(s, pos, line, headless).next, b))
  {
  }

  lemma HeaderExtends(g: Grammar, s: State, b: string, t: State)
    requires HeaderTurn(g, s) == Again(t)
    ensures HeaderTurn(g, Add(s, b)) == Again(Add(t, b))
  {
    var pos := StrNStr(s.buf, CRLF2);
    StrNStrExtends(s.buf, b, CRLF2);
    PrefixSame(s.buf, b, pos + 4);
  }

  /** A turn on the longer buffer does the same work and leaves the new bytes behind. */
  ghost predicate SameTurn(t: Turn, longer: Turn, b: string) {
    longer == if Live(t.next) then Again(Add(t.next, b)) else Return(Add(t.next, b))
  }

  lemma DataExtends(s: State, b: string, pos: nat, size: int)
    requires Live(s) && b != [] && pos + 2 <= |s.buf| && |s.buf| >= size + pos + 4
    ensures SameTurn(DataChunk(s, pos, size), DataChunk(Add(s, b), pos, size), b)
  {
    if size >= 0 {
      var end := pos + 2 + size;
      assert (s.buf + b)[end] == s.buf[end] && (s.buf + b)[end + 1] == s.buf[end + 1];
      assert (s.buf + b)[pos + 2..end] == s.buf[pos + 2..end];
      assert (s.buf + b)[end + 2..] == s.buf[end + 2..] + b;
    }
  }

  lemma GoOnExtends(t: State, b: string)
    requires Live(t) && b != []
    ensures SameTurn(GoOn(t), GoOn(Add(t, b)), b)
  {
  }

  lemma LastAt(s: State, pos: nat, trailer: nat)
    requires pos + 4 <= |s.buf| && StrNStr(s.buf[pos + 2..], CRLF) == trailer
    ensures pos + 2 + trailer + 2 <= |s.buf|
    ensures LastChunk(s, pos) == GoOn(s.(status := End, buf := s.buf[pos + 2 + trailer + 2..]))
  {
  }

  lemma LastExtends(s: State, b: string, pos: nat)
    requires Live(s) && b != [] && pos + 4 <= |s.buf| && StrNStr(s.buf[pos + 2..], CRLF) >= 0
    ensures SameTurn(LastChunk(s, pos), LastChunk(Add(s, b), pos), b)
  {
    var trailer: nat := StrNStr(s.buf[pos + 2..], CRLF);
    StrNStrExtends(s.buf[pos + 2..], b, CRLF);
    PrefixSame(s.buf, b, pos + 2);
    LastAt(s, pos, trailer);
    LastAt(Add(s, b), pos, trailer);
    PrefixSame(s.buf, b, pos + 2 + trailer + 2);
    GoOnExtends(s.(status := End, buf := s.buf[pos + 2 + trailer + 2..]), b);
  }

  lemma ChunkExtends(g: Grammar, s: State, b: string)
    requires Live(s) && b != []
    ensures ChunkTurn(g, s) == Return(s) || SameTurn(ChunkTurn(g, s), ChunkTurn(g, Add(s, b)), b)
  {
    var pos := StrNStr(s.buf, CRLF);
    if pos >= 0 {
      StrNStrExtends(s.buf, b, CRLF);
      assert (s.buf + b)[..pos] == s.buf[..pos];
      var size := ReadSize(g, s.buf[..pos]);
      if size != 0 && |s.buf| >= size + pos + 4 {
        DataExtends(s, b, pos, size);
      } else if size == 0 && |s.buf| >= pos + 4 && StrNStr(s.buf[pos + 2..], CRLF) >= 0 {
        LastExtends(s, b, pos);
      }
    }
  }

  /** A body that only the closing of the connection ends. */
  predicate UntilClose(framing: Framing) {
    !framing.chunked && framing.length == 0 && framing.close
  }

  /** Fewer bytes than the length so far: the body takes them all. */
  lemma LengthWaits(s: State, b: string, n: int, close: bool)
    requires |s.buf| + |s.body| < n
    ensures LengthTurn(s, n, close) == Return(s.(body := s.body + s.buf, buf := []))
    ensures LengthTurn(s.(body := s.body + s.buf, buf := b), n, close) == LengthTurn(Add(s, b), n, close)
  {
    var k := n - |s.body|;
    var m := n - |s.body| - |s.buf|;
    assert s.body + (s.buf + b) == s.body + s.buf + b;
    if m <= |b| {
      assert (s.buf + b)[..k] == s.buf + b[..m] && (s.buf + b)[k..] == b[m..];
      assert s.body + (s.buf + b[..m]) == s.body + s.buf + b[..m];
    }
    assert s.buf[..|s.buf|] == s.buf;
    assert b[..|b|] == b && b[|b|..] == [] && (s.buf + b)[..|s.buf + b|] == s.buf + b;
  }

  /** The length is reached: what follows stays in the buffer. */
  lemma LengthReached(s: State, n: int, close: bool)
    requires 0 <= n - |s.body| <= |s.buf| && !(close && n == 0)
    ensures var k := n - |s.body|;
            LengthTurn(s, n, close) == Return(s.(status := End, body := s.body + s.buf[..k], buf := s.buf[k..]))
  {
    assert s.buf[..|s.buf|] == s.buf && s.buf[|s.buf|..] == [];
  }

  lemma LengthExtends(s: State, b: string, n: int, close: bool)
    requires s.status == Body && b != [] && !(close && n == 0)
    ensures var t := LengthTurn(s, n, close).next;
            match t.status
            case Body => LengthTurn(Add(t, b), n, close) == LengthTurn(Add(s, b), n, close)
            case End => LengthTurn(Add(s, b), n, close) == Return(Add(t, b))
            case _ => LengthTurn(Add(s, b), n, close) == Return(Add(t, b))
  {
    var k := n - |s.body|;
    if k > |s.buf| {
      LengthWaits(s, b, n, close);
      assert [] + b == b;
    } else if k >= 0 {
      LengthReached(s, n, close);
      LengthReached(Add(s, b), n, close);
      PrefixSame(s.buf, b, k);
    }
  }

  // ---------- a run on a longer buffer ----------

  /** The first line has arrived, and the empty line that follows it at once has not, so that the
      receiver goes on to read header fields. */
  predicate Splits(s: State, b: string) {
    (s.status == Start || s.status == FirstLinePart) &&
    var pos := StrNStr(s.buf, CRLF);
    pos >= 0 && StrNStr(s.buf, CRLF2) != pos && StrNStr(s.buf + b, CRLF2) == pos
  }

  lemma StepExtends(g: Grammar, s: State, b: string, t: State)
    requires Live(s) && Step(g, s) == Again(t) && !Splits(s, b) && b != []
    ensures Step(g, Add(s, b)) == Again(Add(t, b))
  {
    match s.status
    case HeaderFields => HeaderExtends(g, s, b, t);
    case Body => BodyExtends(g, s, b, ReadFraming(g, s.headers));
    case End =>
    case _ => FirstLineExtends(g, s, b, t);
  }

  lemma BodyExtends(g: Grammar, s: State, b: string, framing: Framing)
    requires s.status == Body && b != [] && BodyTurn(g, s, framing).Again?
    ensures BodyTurn(g, Add(s, b), framing) == Again(Add(BodyTurn(g, s, framing).next, b))
  {
    ChunkExtends(g, s, b);
  }

  /** The run stops here, and the new bytes take it on as if it had not stopped. */
  lemma StopExtends(g: Grammar, s: State, b: string, t: State)
    requires Live(s) && Step(g, s) == Return(t) && Live(t) && b != [] && !UntilClose(ReadFraming(g, s.headers))
    ensures Run(g, Add(t, b)) == Run(g, Add(s, b))
  {
    if s.status == Body {
      BodyStopExtends(g, s, b, t, ReadFraming(g, s.headers));
    } else if s.status == Start || s.status == FirstLinePart {
      FirstLineWaits(g, s, b, t);
    }
  }

  lemma FirstLineWaits(g: Grammar, s: State, b: string, t: State)
    requires FirstLineTurn(g, s) == Return(t) && (s.status == Start || s.status == FirstLinePart) && Live(t)
    ensures t.status == FirstLinePart && FirstLineTurn(g, Add(t, b)) == FirstLineTurn(g, Add(s, b))
  {
    assert StrNStr(s.buf, CRLF) < 0;
    assert t == s.(status := FirstLinePart);
  }

  lemma BodyStopExtends(g: Grammar, s: State, b: string, t: State, framing: Framing)
    requires s.status == Body && framing == ReadFraming(g, s.headers) && BodyTurn(g, s, framing) == Return(t) && Live(t)
    requires b != [] && !UntilClose(framing)
    ensures Run(g, Add(t, b)) == Run(g, Add(s, b))
  {
    if framing.chunked {
      ChunkExtends(g, s, b);
    } else {
      LengthExtends(s, b, framing.length, framing.close);
    }
  }

  lemma RunAgain(g: Grammar, s: State, t: State)
    requires Live(s) && Step(g, s) == Again(t)
    ensures Run(g, s) == Run(g, t)
  {
  }

  lemma StepKeepsHeaders(g: Grammar, s: State)
    requires Live(s) && Step(g, s).Return?
    ensures Run(g, s) == Step(g, s).next && Step(g, s).next.headers == s.headers
  {
  }

  /** Running, then running again with more bytes, is running once with all of them. */
  lemma {:induction false} RunTwice(g: Grammar, s: State, b: string)
    requires Live(s) && Live(Run(g, s)) && !Splits(s, b) && b != [] && !UntilClose(ReadFraming(g, Run(g, s).headers))
    ensures Run(g, Add(Run(g, s), b)) == Run(g, Add(s, b))
    decreases |s.buf|
  {
    match Step(g, s)
    case Return(t) =>
      StepKeepsHeaders(g, s);
      StopExtends(g, s, b, t);
    case Again(t) =>
      RunAgain(g, s, t);
      StepExtends(g, s, b, t);
      RunAgain(g, Add(s, b), Add(t, b));
      RunTwice(g, t, b);
  }

  predicate InBody(s: State) {
    s.status == Body || s.status == BodyError || s.status == End || s.status == Undefined
  }

  /** From the body on, only the body and the buffer change. */
  lemma {:induction false} BodyKeeps(g: Grammar, s: State)
    requires s.status == Body || s.status == End
    ensures InBody(Run(g, s))
    ensures Run(g, s) == s.(status := Run(g, s).status, buf := Run(g, s).buf, body := Run(g, s).body)
    decreases |s.buf|
  {
    BodyStepKeeps(g, s);
    match Step(g, s)
    case Return(t) =>
    case Again(t) =>
      BodyKeeps(g, t);
  }

  lemma BodyStepKeeps(g: Grammar, s: State)
    requires s.status == Body || s.status == End
    ensures var t := Step(g, s).next; InBody(t) && t == s.(status := t.status, buf := t.buf, body := t.body)
  {
  }

  // ---------- any number of pieces ----------

  /** The state after the pieces; a caller stops at the first error. */
  function Feed(g: Grammar, s: State, pieces: seq<string>): State
    requires Live(s)
  {
    if pieces == [] then s
    else
      var t := Feed(g, s, pieces[..|pieces| - 1]);
      if Live(t) then Recv(g, t, pieces[|pieces| - 1]) else t
  }

  /** A caller that hands the pieces to the receiver as they arrive. */
  method ReceiveAll(parser: Parser, pieces: seq<string>)
    requires Live(parser.Value())
    modifies parser
    ensures parser.Value() == Feed(parser.grammar, old(parser.Value()), pieces)
  {
    for i := 0 to |pieces|
      invariant parser.Value() == Feed(parser.grammar, old(parser.Value()), pieces[..i])
    {
      assert pieces[..i + 1][..i] == pieces[..i];
      if Live(parser.Value()) {
        var _ := parser.Receive(pieces[i]);
      }
    }
    assert pieces[..|pieces|] == pieces;
  }

  /** Having received p, the receiver goes on with b as if it had received both at once. */
  ghost predicate Harmless(g: Grammar, s: State, p: string, b: string)
    requires Live(s)
  {
    var t := Add(s, p);
    Live(Run(g, t)) && !Splits(t, b) && !UntilClose(ReadFraming(g, Run(g, t).headers))
  }

  predicate NonEmpty(pieces: seq<string>) {
    pieces != [] && forall i :: 0 <= i < |pieces| ==> pieces[i] != []
  }

  lemma {:induction false} FeedIsRun(g: Grammar, s: State, pieces: seq<string>)
    requires Live(s) && NonEmpty(pieces)
    requires forall p, b :: p != [] && b != [] && p + b <= Join(pieces) ==> Harmless(g, s, p, b)
    ensures Feed(g, s, pieces) == Run(g, Add(s, Join(pieces)))
    decreases |pieces|
  {
    var n := |pieces| - 1;
    var front, last := pieces[..n], pieces[n];
    JoinLast(pieces);
    if n == 0 {
      assert front == [];
      assert Join(front) + last == last;
    } else {
      var p := Join(front);
      JoinNonEmpty(front);
      assert Harmless(g, s, p, last);
      forall q, b | q != [] && b != [] && q + b <= p
        ensures Harmless(g, s, q, b)
      {
        assert q + b <= p + last;
      }
      FeedIsRun(g, s, front);
      RunTwice(g, Add(s, p), last);
      AddTwice(s, p, last);
    }
  }

  lemma AddTwice(s: State, a: string, b: string)
    ensures Add(Add(s, a), b) == Add(s, a + b)
  {
    assert s.buf + a + b == s.buf + (a + b);
  }

  lemma JoinNonEmpty(pieces: seq<string>)
    requires NonEmpty(pieces)
    ensures Join(pieces) != []
  {
    JoinLast(pieces);
    assert pieces[|pieces| - 1] != [];
  }

  // ---------- bodies ----------

  /** A body that is refused is refused in the same way when it goes on. */
  lemma {:induction false} DeadExtends(g: Grammar, s: State, b: string)
    requires s.status == Body && !Live(Run(g, s)) && b != [] && !UntilClose(ReadFraming(g, s.headers))
    ensures Run(g, Add(s, b)) == Add(Run(g, s), b)
    decreases |s.buf|
  {
    match Step(g, s)
    case Return(t) =>
      DeadStop(g, s, b, t, ReadFraming(g, s.headers));
    case Again(t) =>
      AgainInBody(g, s, t);
      RunAgain(g, s, t);
      DeadExtends(g, t, b);
      StepExtends(g, s, b, t);
      RunAgain(g, Add(s, b), Add(t, b));
  }

  /** A run that goes on and ends badly is still in the body. */
  lemma AgainInBody(g: Grammar, s: State, t: State)
    requires s.status == Body && Step(g, s) == Again(t) && !Live(Run(g, s))
    ensures t.status == Body && t.headers == s.headers && !Live(Run(g, t))
  {
    RunAgain(g, s, t);
    BodyStepKeeps(g, s);
  }

  lemma DeadStop(g: Grammar, s: State, b: string, t: State, framing: Framing)
    requires s.status == Body && framing == ReadFraming(g, s.headers) && BodyTurn(g, s, framing) == Return(t)
      && !Live(t)
    requires b != [] && !UntilClose(framing)
    ensures Run(g, Add(s, b)) == Add(t, b)
  {
    if framing.chunked {
      ChunkExtends(g, s, b);
    } else {
      LengthExtends(s, b, framing.length, framing.close);
    }
  }

  /** In the body any cut is harmless, if all of it together is well formed. */
  lemma BodyCuts(g: Grammar, s: State, whole: string, p: string, b: string)
    requires s.status == Body && !UntilClose(ReadFraming(g, s.headers)) && Live(Run(g, Add(s, whole)))
    requires p + b <= whole && b != []
    ensures Harmless(g, s, p, b)
  {
    var rest := whole[|p|..];
    assert whole == p + rest;
    AddTwice(s, p, rest);
    if !Live(Run(g, Add(s, p))) {
      DeadExtends(g, Add(s, p), rest);
    }
    BodyKeeps(g, Add(s, p));
  }

  /** Whatever the network does with a well-formed body, the receiver ends as if it had come at once. */
  lemma BodyAnyCut(g: Grammar, s: State, pieces: seq<string>)
    requires s.status == Body && !UntilClose(ReadFraming(g, s.headers)) && NonEmpty(pieces)
    requires Live(Run(g, Add(s, Join(pieces))))
    ensures Feed(g, s, pieces) == Run(g, Add(s, Join(pieces)))
  {
    forall p, b | p != [] && b != [] && p + b <= Join(pieces)
      ensures Harmless(g, s, p, b)
    {
      BodyCuts(g, s, Join(pieces), p, b);
    }
    FeedIsRun(g, s, pieces);
  }

  // ---------- whole messages ----------

  /** A first line with its CRLF. */
  ghost predicate IsFirstLine(g: Grammar, f: string) {
    StrNStr(f, CRLF) == |f| - 2 >= 0 && ReadFirstLine(g, f).Some?
  }

  /** A first line the receiver accepts in any number of pieces. */
  ghost predicate FirstLineOk(g: Grammar, f: string) {
    |f| <= FIRST_LINE_LIMIT + 1 && IsFirstLine(g, f)
  }

  /** A header block, with at least one line before the empty one. */
  ghost predicate IsBlock(h: string) {
    StrNStr(h, CRLF2) == |h| - 4 >= 0 && !Occurs(CRLF, h, 0)
  }

  /** A header block the receiver accepts in any number of pieces. */
  ghost predicate HeadersOk(h: string) {
    |h| <= HEADER_LIMIT + 1 && IsBlock(h)
  }

  /** The receiver at the beginning of a message's body. */
  function AtBody(g: Grammar, f: string, h: string): State {
    State(Body, [], ReadFirstLine(g, f), ReadFields(g, h, []), [], |f|, |h|)
  }

  /** Behind a first line and a part of the header block. */
  function AtHeaders(g: Grammar, f: string, q: string): State {
    State(HeaderFields, q, ReadFirstLine(g, f), [], [], |f|, 0)
  }

  lemma PastFirstLine(g: Grammar, f: string, q: string)
    requires IsFirstLine(g, f) && !Occurs(CRLF, q, 0)
    ensures Run(g, Add(INITIAL, f + q)) == Run(g, AtHeaders(g, f, q))
  {
    FirstLineStep(g, f, q, Add(INITIAL, f + q));
    RunAgain(g, Add(INITIAL, f + q), AtHeaders(g, f, q));
  }

  lemma FirstLineStep(g: Grammar, f: string, q: string, s: State)
    requires IsFirstLine(g, f) && !Occurs(CRLF, q, 0) && s == Add(INITIAL, f + q)
    ensures Step(g, s) == Again(AtHeaders(g, f, q))
  {
    assert s.buf == f + q;
    StrNStrExtends(f, q, CRLF);
    WholeFirst(f, q);
    NotHeadless(f, q);
    FirstLineAt(g, s, |f| - 2, ReadFirstLine(g, f));
    LeavesFirstLine(g, f, q);
  }

  lemma NotHeadless(f: string, q: string)
    requires |f| >= 2 && !Occurs(CRLF, q, 0)
    ensures StrNStr(f + q, CRLF2) != |f| - 2
  {
    NoSecond(f, q);
  }

  lemma WholeFirst(f: string, q: string)
    ensures (f + q)[..|f|] == f && (f + q)[|f|..] == q
  {
  }

  lemma LeavesFirstLine(g: Grammar, f: string, q: string)
    requires |f| >= 2
    ensures FirstLineDone(Add(INITIAL, f + q), |f| - 2, ReadFirstLine(g, f), false) == Again(AtHeaders(g, f, q))
  {
    assert Add(INITIAL, f + q).buf == f + q;
    WholeFirst(f, q);
  }

  lemma NoSecond(f: string, q: string)
    requires |f| >= 2 && !Occurs(CRLF, q, 0)
    ensures !Occurs(CRLF2, f + q, |f| - 2)
  {
    if |q| >= 2 {
      var w := (f + q)[|f| - 2..|f| + 2];
      assert w[2] == q[0] && w[3] == q[1];
      assert q[0..2] == [q[0], q[1]];
    }
  }

  lemma PastHeaders(g: Grammar, f: string, h: string, c: string)
    requires IsFirstLine(g, f) && IsBlock(h)
    ensures Run(g, Add(INITIAL, f + h + c)) == Run(g, Add(AtBody(g, f, h), c))
  {
    Assoc(f, h, c);
    OccursExtends(CRLF, h, h + c, 0);
    PastFirstLine(g, f, h + c);
    var t := AtHeaders(g, f, h + c);
    StrNStrExtends(h, c, CRLF2);
    PrefixSame(h, c, |h|);
    assert h[..|h|] == h && h[|h|..] + c == c && [] + c == c;
    RunAgain(g, t, Add(AtBody(g, f, h), c));
  }

  lemma WithinFirstLine(g: Grammar, f: string, p: string)
    requires FirstLineOk(g, f) && p <= f && |p| < |f|
    ensures StrNStr(p, CRLF) < 0 && Run(g, Add(INITIAL, p)) == Add(INITIAL, p).(status := FirstLinePart)
  {
    NotYet(p, f, CRLF);
    assert [] + p == p;
  }

  lemma NotYet(p: string, f: string, tag: string)
    requires p <= f && |p| < |f| && tag != [] && StrNStr(f, tag) == |f| - |tag|
    ensures StrNStr(p, tag) < 0
  {
    if StrNStr(p, tag) >= 0 {
      assert f == p + f[|p|..];
      StrNStrExtends(p, f[|p|..], tag);
    }
  }

  lemma WithinHeaders(g: Grammar, f: string, h: string, q: string)
    requires FirstLineOk(g, f) && HeadersOk(h) && q <= h && |q| < |h|
    ensures Run(g, Add(INITIAL, f + q)) == AtHeaders(g, f, q)
  {
    assert Occurs(CRLF, q, 0) ==> Occurs(CRLF, h, 0);
    PastFirstLine(g, f, q);
    NotYet(q, h, CRLF2);
  }

  /** A message with a first line, header fields and a well-formed body is cut anywhere without harm. */
  lemma MessageCuts(g: Grammar, f: string, h: string, body: string, p: string, b: string)
    requires FirstLineOk(g, f) && HeadersOk(h) && !UntilClose(ReadFraming(g, []))
      && !UntilClose(ReadFraming(g, ReadFields(g, h, [])))
    requires Live(Run(g, Add(AtBody(g, f, h), body)))
    requires p + b <= f + h + body && b != []
    ensures Harmless(g, INITIAL, p, b)
  {
    if |p| < |f| {
      Assoc(f, h, body);
      FirstLineCut(g, f, h + body, p, b);
    } else if |p| < |f| + |h| {
      HeaderCut(g, f, h, body, p, b);
    } else {
      BodyCut(g, f, h, body, p, b);
    }
  }

  lemma FirstLineCut(g: Grammar, f: string, x: string, p: string, b: string)
    requires FirstLineOk(g, f) && !UntilClose(ReadFraming(g, []))
    requires p + b <= f + x && |p| < |f|
    ensures Harmless(g, INITIAL, p, b)
  {
    PrefixParts(f, x, p, b);
    WithinFirstLine(g, f, p);
    assert Add(INITIAL, p).buf == p;
  }

  lemma PrefixParts(f: string, x: string, p: string, b: string)
    requires p + b <= f + x
    ensures |p| <= |f| ==> p <= f
    ensures |p| >= |f| ==> f <= p && p[|f|..] + b <= x && p == f + p[|f|..]
  {
    var m := f + x;
    assert p == m[..|p|];
    if |p| >= |f| {
      assert p + b == m[..|p + b|];
      assert p[|f|..] + b == (p + b)[|f|..] == x[..|p + b| - |f|];
      assert f == p[..|f|];
    }
  }

  lemma HeaderCut(g: Grammar, f: string, h: string, body: string, p: string, b: string)
    requires FirstLineOk(g, f) && HeadersOk(h) && !UntilClose(ReadFraming(g, []))
    requires p + b <= f + h + body && b != [] && |f| <= |p| < |f| + |h|
    ensures Harmless(g, INITIAL, p, b)
  {
    var q := p[|f|..];
    Assoc(f, h, body);
    PrefixParts(f, h + body, p, b);
    PrefixParts(h, body, q, b);
    WithinHeaders(g, f, h, q);
    NoSplit(f, h, body, p, b);
  }

  lemma BodyCut(g: Grammar, f: string, h: string, body: string, p: string, b: string)
    requires FirstLineOk(g, f) && HeadersOk(h) && !UntilClose(ReadFraming(g, ReadFields(g, h, [])))
    requires Live(Run(g, Add(AtBody(g, f, h), body)))
    requires p + b <= f + h + body && b != [] && |f| + |h| <= |p|
    ensures Harmless(g, INITIAL, p, b)
  {
    var c := p[|f + h|..];
    PrefixParts(f + h, body, p, b);
    PastHeaders(g, f, h, c);
    BodyCuts(g, AtBody(g, f, h), body, c, b);
    BodyKeeps(g, Add(AtBody(g, f, h), c));
    NoSplit(f, h, body, p, b);
  }

  lemma NoEmptyLine(f: string, h: string, body: string, p: string)
    requires |f| >= 2 && |h| >= 2 && !Occurs(CRLF, h, 0) && p <= f + h + body
    ensures !Occurs(CRLF2, p, |f| - 2)
  {
    Assoc(f, h, body);
    OccursExtends(CRLF, h, h + body, 0);
    NoSecond(f, h + body);
    if Occurs(CRLF2, p, |f| - 2) {
      OccursExtends(CRLF2, p, f + h + body, |f| - 2);
    }
  }

  lemma NoSplit(f: string, h: string, body: string, p: string, b: string)
    requires StrNStr(f, CRLF) == |f| - 2 >= 0 && !Occurs(CRLF, h, 0) && |h| >= 2
    requires f <= p && p + b <= f + h + body
    ensures !Splits(Add(INITIAL, p), b)
  {
    assert Add(INITIAL, p).buf == p;
    assert p == f + p[|f|..];
    StrNStrExtends(f, p[|f|..], CRLF);
    NoEmptyLine(f, h, body, p + b);
  }

  /** Every cut of such a message gives the same first line, header fields and body. */
  lemma MessageAnyCut(g: Grammar, f: string, h: string, body: string, pieces: seq<string>)
    requires FirstLineOk(g, f) && HeadersOk(h) && !UntilClose(ReadFraming(g, []))
      && !UntilClose(ReadFraming(g, ReadFields(g, h, [])))
    requires Live(Run(g, Add(AtBody(g, f, h), body)))
    requires NonEmpty(pieces) && Join(pieces) == f + h + body
    ensures Feed(g, INITIAL, pieces) == Run(g, Add(AtBody(g, f, h), body))
  {
    forall p, b | p != [] && b != [] && p + b <= Join(pieces)
      ensures Harmless(g, INITIAL, p, b)
    {
      MessageCuts(g, f, h, body, p, b);
    }
    FeedIsRun(g, INITIAL, pieces);
    PastHeaders(g, f, h, body);
  }
}
