/**
  The streaming receiver of marsksim/comm/http.cc, Parser::Recv.  recvbuf_ is only appended to and
  consumed from the front, so it is the string of bytes it holds.
 */
module HttpParser {
  import opened Options
  import opened Strings
  import opened HttpText

  const FIRST_LINE_LIMIT: nat := 8 * 1024
  const HEADER_LIMIT: nat := 128 * 1024

  /** The source's statuses, and Undefined for a negative size, which the source does not survive. */
  datatype Status =
    | Start | FirstLinePart | FirstLineError | HeaderFields | HeaderFieldsError
    | Body | BodyError | End | Undefined

  datatype State = State(
    status: Status,
    buf: string,
    first: Option<FirstLine>,
    headers: seq<Header>,
    body: string,
    firstLineLength: nat,
    headerLength: nat)

  const INITIAL: State := State(Start, [], None, [], [], 0, 0)

  /** Recv may only be entered in these: in the others its loop would never return. */
  predicate Live(s: State) {
    s.status == Start || s.status == FirstLinePart || s.status == HeaderFields || s.status == Body || s.status == End
  }

  /** What the header fields say about the body. */
  datatype Framing = Framing(chunked: bool, length: int, close: bool)

  function FramingOf(headers: seq<Header>): Framing {
    Framing(IsChunked(headers), ContentLength(headers), IsConnectionClose(headers))
  }

  /** The size on a chunk's first line. */
  function ChunkSize(line: string): int {
    StrToL(Trim(line), 16)
  }

  /** The texts inside a message, which the receiver reads only once they are complete.  Nothing
      said about the receiver depends on how they are read, so it takes the readers as values. */
  datatype Grammar = Grammar(
    firstLine: string -> Option<FirstLine>,
    fields: (string, seq<Header>) -> seq<Header>,
    framing: seq<Header> -> Framing,
    size: string -> int)

  const HTTP: Grammar := Grammar(ParseFirstLine, ParseHeaders, FramingOf, ChunkSize)

  function ReadFirstLine(g: Grammar, line: string): Option<FirstLine> {
    g.firstLine(line)
  }

  function ReadFields(g: Grammar, block: string, headers: seq<Header>): seq<Header> {
    g.fields(block, headers)
  }

  function ReadFraming(g: Grammar, headers: seq<Header>): Framing {
    g.framing(headers)
  }

  function ReadSize(g: Grammar, line: string): int {
    g.size(line)
  }

  /** What one turn of the loop does: go on in the new state, or return. */
  datatype Turn = Again(next: State) | Return(next: State)

  function FirstLineTurn(g: Grammar, s: State): (t: Turn)
    ensures t.Again? ==> |t.next.buf| < |s.buf| && (t.next.status == HeaderFields || t.next.status == Body)
  {
    var pos := StrNStr(s.buf, CRLF);
    if pos < 0 then
      Return(s.(status := if |s.buf| > FIRST_LINE_LIMIT then FirstLineError else FirstLinePart))
    else
      var line := ReadFirstLine(g, s.buf[..pos + 2]);
      if line.None? then Return(s.(status := FirstLineError))
      else FirstLineDone(s, pos, line, StrNStr(s.buf, CRLF2) == pos)
  }

  /** Goes on behind the first line; headless says that an empty line follows it at once. */
  function FirstLineDone(s: State, pos: nat, line: Option<FirstLine>, headless: bool): Turn
    requires pos + (if headless then 4 else 2) <= |s.buf|
  {
    var t := s.(first := line, firstLineLength := pos + 2);
    if headless then Again(t.(status := Body, buf := s.buf[pos + 4..]))
    else Again(t.(status := HeaderFields, buf := s.buf[pos + 2..]))
  }

  function HeaderTurn(g: Grammar, s: State): (t: Turn)
    ensures t.Again? ==> t.next.status == Body && |t.next.buf| < |s.buf|
  {
    var pos := StrNStr(s.buf, CRLF2);
    if pos < 0 then
      Return(if |s.buf| > HEADER_LIMIT then s.(status := HeaderFieldsError) else s)
    else
      Again(s.(status := Body, buf := s.buf[pos + 4..], headers := ReadFields(g, s.buf[..pos + 4], s.headers),
        headerLength := pos + 4))
  }

  function ChunkTurn(g: Grammar, s: State): (t: Turn)
    ensures t.Again? ==> (t.next.status == s.status || t.next.status == End) && |t.next.buf| < |s.buf|
  {
    var pos := StrNStr(s.buf, CRLF);
    if pos < 0 then Return(s)
    else
      var size := ReadSize(g, s.buf[..pos]);
      if size != 0 then DataChunk(s, pos, size) else LastChunk(s, pos)
  }

  function GoOn(s: State): Turn {
    if s.buf == [] then Return(s) else Again(s)
  }

  function DataChunk(s: State, pos: nat, size: int): (t: Turn)
    requires pos + 2 <= |s.buf|
    ensures t.Again? ==> t.next.status == s.status && |t.next.buf| < |s.buf|
  {
    if |s.buf| < size + pos + 4 then Return(s)
    else if size < 0 then Return(s.(status := Undefined))
    else
      var end := pos + 2 + size;
      if s.buf[end] != '\r' || s.buf[end + 1] != '\n' then Return(s.(status := BodyError))
      else GoOn(s.(body := s.body + s.buf[pos + 2..end], buf := s.buf[end + 2..]))
  }

  function LastChunk(s: State, pos: nat): (t: Turn)
    requires pos + 2 <= |s.buf|
    ensures t.Again? ==> t.next.status == End && |t.next.buf| < |s.buf|
  {
    if |s.buf| < pos + 4 then Return(s)
    else
      var trailer := StrNStr(s.buf[pos + 2..], CRLF);
      if trailer < 0 then Return(s) else GoOn(s.(status := End, buf := s.buf[pos + 2 + trailer + 2..]))
  }

  function LengthTurn(s: State, length: int, close: bool): (t: Turn)
    ensures t.Return?
  {
    var n := if close && length == 0 then |s.buf|
             else if |s.buf| + |s.body| <= length then |s.buf|
             else length - |s.body|;
    if n < 0 then Return(s.(status := Undefined))
    else
      var t := s.(body := s.body + s.buf[..n], buf := s.buf[n..]);
      Return(if |t.body| == length then t.(status := End) else t)
  }

  function BodyTurn(g: Grammar, s: State, framing: Framing): (t: Turn)
    ensures t.Again? ==> (t.next.status == s.status || t.next.status == End) && |t.next.buf| < |s.buf|
  {
    if framing.chunked then ChunkTurn(g, s) else LengthTurn(s, framing.length, framing.close)
  }

  /** One turn of the switch. */
  function Step(g: Grammar, s: State): (t: Turn)
    requires Live(s)
    ensures t.Again? ==> |t.next.buf| < |s.buf|
    ensures t.Again? ==> t.next.status == HeaderFields || t.next.status == Body || t.next.status == End
  {
    match s.status
    case HeaderFields => HeaderTurn(g, s)
    case Body => BodyTurn(g, s, ReadFraming(g, s.headers))
    case End => Return(s)
    case _ => FirstLineTurn(g, s)
  }

  /** The loop: every turn that goes on has consumed bytes, so it ends. */
  function Run(g: Grammar, s: State): State
    requires Live(s)
    decreases |s.buf|
  {
    match Step(g, s)
    case Return(t) => t
    case Again(t) => Run(g, t)
  }

  function Add(s: State, piece: string): State {
    s.(buf := s.buf + piece)
  }

  /** The peer closed the connection. */
  function Closed(g: Grammar, s: State): State {
    if ReadFraming(g, s.headers).close && s.status == Body then s.(status := End) else s
  }

  /** Parser::Recv on the next bytes from the network; no bytes mean that the peer closed. */
  function Recv(g: Grammar, s: State, piece: string): State
    requires Live(s)
  {
    if piece == [] then Closed(g, s) else Run(g, Add(s, piece))
  }

  // ---------- the receiver ----------

  class Parser {
    const grammar: Grammar
    var status: Status
    var recvbuf: string
    var first: Option<FirstLine>
    var headers: seq<Header>
    var body: string
    var firstLineLength: nat
    var headerLength: nat

    function Value(): State
      reads this
    {
      State(status, recvbuf, first, headers, body, firstLineLength, headerLength)
    }

    constructor (g: Grammar)
      ensures Value() == INITIAL && grammar == g
    {
      grammar := g;
      status, recvbuf, first, headers, body := Start, [], None, [], [];
      firstLineLength, headerLength := 0, 0;
    }

    /** Recv: consumed is what the call took off the buffer. */
    method Receive(piece: string) returns (consumed: nat)
      requires Live(Value())
      modifies this
      ensures Value() == Recv(grammar, old(Value()), piece)
      ensures piece != [] ==> consumed == |old(recvbuf)| + |piece| - |recvbuf|
    {
      if piece == [] {
        consumed := 0;
        PeerClosed();
      } else {
        recvbuf := recvbuf + piece;
        var size := |recvbuf|;
        Loop();
        consumed := size - |recvbuf|;
      }
    }

    method PeerClosed()
      modifies this
      ensures Value() == Closed(grammar, old(Value()))
    {
      if ReadFraming(grammar, headers).close && status == Body {
        status := End;
      }
    }

    method Loop()
      requires Live(Value())
      modifies this
      ensures Value() == Run(grammar, old(Value())) && |recvbuf| <= |old(recvbuf)|
    {
      var again := true;
      while again
        invariant |recvbuf| <= |old(recvbuf)|
        invariant if again then Live(Value()) && Run(grammar, Value()) == Run(grammar, old(Value()))
                  else Value() == Run(grammar, old(Value()))
        decreases |recvbuf|, again
      {
        again := TakeTurn();
      }
    }

    /** One turn of the switch. */
    method TakeTurn() returns (again: bool)
      requires Live(Value())
      modifies this
      ensures Step(grammar, old(Value())) == if again then Again(Value()) else Return(Value())
      ensures |recvbuf| <= |old(recvbuf)|
    {
      ghost var was := Value();
      if status == HeaderFields {
        assert Step(grammar, was) == HeaderTurn(grammar, was);
        again := TakeHeaders();
      } else if status == Body {
        var framing := ReadFraming(grammar, headers);
        assert Step(grammar, was) == BodyTurn(grammar, was, framing);
        again := TakeBody(framing);
      } else if status == End {
        assert Step(grammar, was) == Return(was);
        again := false;
      } else {
        assert Step(grammar, was) == FirstLineTurn(grammar, was);
        again := TakeFirstLine();
      }
    }

    method TakeBody(framing: Framing) returns (again: bool)
      modifies this
      ensures BodyTurn(grammar, old(Value()), framing) == if again then Again(Value()) else Return(Value())
      ensures |recvbuf| <= |old(recvbuf)|
    {
      if framing.chunked {
        again := TakeChunk();
      } else {
        TakeBytes(framing.length, framing.close);
        again := false;
      }
    }

    method TakeFirstLine() returns (again: bool)
      requires Live(Value())
      modifies this
      ensures FirstLineTurn(grammar, old(Value())) == if again then Again(Value()) else Return(Value())
      ensures |recvbuf| <= |old(recvbuf)|
    {
      var pos := Search(recvbuf, CRLF);
      if pos < 0 {
        status := if |recvbuf| > FIRST_LINE_LIMIT then FirstLineError else FirstLinePart;
        return false;
      }
      var line := ReadFirstLine(grammar, recvbuf[..pos + 2]);
      if line.None? {
        status := FirstLineError;
        return false;
      }
      var end := Search(recvbuf, CRLF2);
      LeaveFirstLine(pos, line, end == pos);
      again := true;
    }

    method LeaveFirstLine(pos: nat, line: Option<FirstLine>, headless: bool)
      requires pos + (if headless then 4 else 2) <= |recvbuf|
      modifies this
      ensures FirstLineDone(old(Value()), pos, line, headless) == Again(Value())
      ensures |recvbuf| <= |old(recvbuf)|
    {
      if headless {
        status, recvbuf := Body, recvbuf[pos + 4..];
      } else {
        status, recvbuf := HeaderFields, recvbuf[pos + 2..];
      }
      first, firstLineLength := line, pos + 2;
    }

    method TakeHeaders() returns (again: bool)
      modifies this
      ensures HeaderTurn(grammar, old(Value())) == if again then Again(Value()) else Return(Value())
      ensures |recvbuf| <= |old(recvbuf)|
    {
      var pos := Search(recvbuf, CRLF2);
      if pos < 0 {
        if |recvbuf| > HEADER_LIMIT {
          status := HeaderFieldsError;
        }
        return false;
      }
      headers := ReadFields(grammar, recvbuf[..pos + 4], headers);
      status, recvbuf, headerLength := Body, recvbuf[pos + 4..], pos + 4;
      again := true;
    }

    method TakeChunk() returns (again: bool)
      modifies this
      ensures ChunkTurn(grammar, old(Value())) == if again then Again(Value()) else Return(Value())
      ensures |recvbuf| <= |old(recvbuf)|
    {
      var pos := Search(recvbuf, CRLF);
      if pos < 0 {
        return false;
      }
      var size := ReadSize(grammar, recvbuf[..pos]);
      if size != 0 {
        again := TakeDataChunk(pos, size);
      } else {
        again := TakeLastChunk(pos);
      }
    }

    method TakeDataChunk(pos: nat, size: int) returns (again: bool)
      requires pos + 2 <= |recvbuf|
      modifies this
      ensures DataChunk(old(Value()), pos, size) == if again then Again(Value()) else Return(Value())
      ensures |recvbuf| <= |old(recvbuf)|
    {
      if |recvbuf| < size + pos + 4 {
        return false;
      }
      if size < 0 {
        status := Undefined;
        return false;
      }
      var end := pos + 2 + size;
      if recvbuf[end] != '\r' || recvbuf[end + 1] != '\n' {
        status := BodyError;
        return false;
      }
      body, recvbuf := body + recvbuf[pos + 2..end], recvbuf[end + 2..];
      again := recvbuf != [];
    }

    method TakeLastChunk(pos: nat) returns (again: bool)
      requires pos + 2 <= |recvbuf|
      modifies this
      ensures LastChunk(old(Value()), pos) == if again then Again(Value()) else Return(Value())
      ensures |recvbuf| <= |old(recvbuf)|
    {
      if |recvbuf| < pos + 4 {
        return false;
      }
      var trailer := Search(recvbuf[pos + 2..], CRLF);
      if trailer < 0 {
        return false;
      }
      status, recvbuf := End, recvbuf[pos + 2 + trailer + 2..];
      again := recvbuf != [];
    }

    method TakeBytes(length: int, close: bool)
      modifies this
      ensures LengthTurn(old(Value()), length, close) == Return(Value())
      ensures |recvbuf| <= |old(recvbuf)|
    {
      var n;
      if close && length == 0 {
        n := |recvbuf|;
      } else if |recvbuf| + |body| <= length {
        n := |recvbuf|;
      } else {
        n := length - |body|;
      }
      if n < 0 {
        status := Undefined;
        return;
      }
      body, recvbuf := body + recvbuf[..n], recvbuf[n..];
      if |body| == length {
        status := End;
      }
    }
  }
}
