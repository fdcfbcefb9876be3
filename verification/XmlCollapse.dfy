/** White-space collapsing of marsksim/comm/tinyxml2.cc, StrPair::CollapseWhitespace. */
module XmlCollapse {
  import opened Seqs
  import opened Strings

  // ---------- what is left ----------

  /** Every run of white space becomes one space, and none is left at the end. */
  function Squeezed(s: string): string
    decreases |s|
  {
    if s == [] then []
    else if !IsWhiteSpace(s[0]) then [s[0]] + Squeezed(s[1..])
    else
      var t := SkipWhiteSpace(s);
      if t == [] then [] else [' ', t[0]] + Squeezed(t[1..])
  }

  function Collapsed(s: string): string {
    Squeezed(SkipWhiteSpace(s))
  }

  /** The runs of other characters, with the one that is being read. */
  function Words(s: string, word: string): seq<string> {
    if s == [] then Flushing(word)
    else if IsWhiteSpace(s[0]) then Flushing(word) + Words(s[1..], [])
    else Words(s[1..], word + [s[0]])
  }

  function Flushing(word: string): seq<string> {
    if word == [] then [] else [word]
  }

  /** No white space at the ends, and no other than single spaces inside. */
  ghost predicate Tidy(s: string) {
    && (s != [] ==> !IsWhiteSpace(s[0]) && !IsWhiteSpace(s[|s| - 1]))
    && Spaced(s)
  }

  /** White space is single spaces. */
  ghost predicate Spaced(t: string) {
    forall i :: 0 <= i < |t| && IsWhiteSpace(t[i]) ==> t[i] == ' ' && (i + 1 < |t| ==> !IsWhiteSpace(t[i + 1]))
  }

  lemma {:induction false} WordsSkip(s: string)
    ensures Words(s, []) == Words(SkipWhiteSpace(s), [])
  {
    if s != [] && IsWhiteSpace(s[0]) {
      WordsSkip(s[1..]);
      assert [] + Words(s[1..], []) == Words(s[1..], []);
    }
  }

  lemma WordsStart(s: string, word: string)
    requires s != [] && IsWhiteSpace(s[0])
    ensures Words(s, word) == Flushing(word) + Words(SkipWhiteSpace(s), [])
  {
    WordsSkip(s[1..]);
  }

  /** Collapsing keeps the words. */
  lemma {:induction false} SqueezedWords(s: string, word: string)
    ensures Words(Squeezed(s), word) == Words(s, word)
    decreases |s|
  {
    if s != [] {
      if !IsWhiteSpace(s[0]) {
        ConsRest(s[0], Squeezed(s[1..]));
        SqueezedWords(s[1..], word + [s[0]]);
      } else {
        var t := SkipWhiteSpace(s);
        WordsStart(s, word);
        if t == [] {
          assert Flushing(word) + [] == Flushing(word);
        } else {
          SkipStops(s);
          SpaceWords(t[0], Squeezed(t[1..]), word);
          SqueezedWords(t[1..], [t[0]]);
          assert [] + [t[0]] == [t[0]];
          assert Words(t, []) == Words(t[1..], [t[0]]);
        }
      }
    }
  }

  lemma SkipStops(s: string)
    ensures SkipWhiteSpace(s) != [] ==> !IsWhiteSpace(SkipWhiteSpace(s)[0])
  {
  }

  lemma SpaceWords(c: char, rest: string, word: string)
    requires !IsWhiteSpace(c)
    ensures Words([' ', c] + rest, word) == Flushing(word) + Words(rest, [c])
  {
    var s := [' ', c] + rest;
    assert s[1..] == [c] + rest;
    ConsRest(c, rest);
    assert [] + [c] == [c];
  }

  lemma CollapsedWords(s: string)
    ensures Words(Collapsed(s), []) == Words(s, [])
  {
    WordsSkip(s);
    SqueezedWords(SkipWhiteSpace(s), []);
  }

  /** Squeezed text is tidy but for a space in front. */
  lemma {:induction false} SqueezedTidy(s: string)
    ensures var t := Squeezed(s);
            && (t != [] ==> !IsWhiteSpace(t[|t| - 1]) && IsWhiteSpace(t[0]) == IsWhiteSpace(s[0]))
            && (s == [] ==> t == [])
            && Spaced(t)
    decreases |s|
  {
    if s != [] {
      if !IsWhiteSpace(s[0]) {
        SqueezedTidy(s[1..]);
        TidyCons(s[0], Squeezed(s[1..]));
      } else {
        var t := SkipWhiteSpace(s);
        if t != [] {
          SkipStops(s);
          SqueezedTidy(t[1..]);
          TidyCons(t[0], Squeezed(t[1..]));
          assert [' ', t[0]] + Squeezed(t[1..]) == [' '] + ([t[0]] + Squeezed(t[1..]));
          TidySpace([t[0]] + Squeezed(t[1..]));
        }
      }
    }
  }

  lemma TidyCons(c: char, t: string)
    requires !IsWhiteSpace(c) && Spaced(t)
    ensures Spaced([c] + t)
  {
  }

  lemma TidySpace(t: string)
    requires Spaced(t) && t != [] && !IsWhiteSpace(t[0])
    ensures Spaced([' '] + t)
  {
  }

  /** Collapsed text is tidy, and has the words of the text in order. */
  lemma CollapsedTidy(s: string)
    ensures Tidy(Collapsed(s))
  {
    SkipStops(s);
    SqueezedTidy(SkipWhiteSpace(s));
  }

  // ---------- in place ----------

  /** The C string t lies at position p. */
  ghost predicate Holds(buf: array<char>, p: nat, t: string)
    reads buf
  {
    p + |t| < buf.Length && buf[p..p + |t|] == t && buf[p + |t|] == NUL && NUL !in t
  }

  lemma HoldsString(buf: array<char>, p: nat, t: string)
    requires Holds(buf, p, t)
    ensures CString(buf[p..]) == t
  {
    CStringPlain(t);
    CStringEnds(t, buf[p + |t| + 1..]);
    assert buf[p..] == t + [NUL] + buf[p + |t| + 1..];
  }

  method SkipSpaces(buf: array<char>, from: nat, ghost t: string) returns (p: nat, ghost rest: string)
    requires Holds(buf, from, t)
    ensures rest == SkipWhiteSpace(t) && p + |rest| == from + |t| && p >= from && Holds(buf, p, rest)
    ensures t != [] && IsWhiteSpace(t[0]) ==> p > from
  {
    p, rest := from, t;
    while IsWhiteSpace(buf[p])
      invariant p >= from && p + |rest| == from + |t| && Holds(buf, p, rest)
      invariant SkipWhiteSpace(rest) == SkipWhiteSpace(t) && (p > from || rest == t)
      decreases |rest|
    {
      HoldsNext(buf, p, rest);
      p, rest := p + 1, rest[1..];
    }
    assert rest != [] ==> buf[p] == rest[0];
  }

  lemma HoldsNext(buf: array<char>, p: nat, t: string)
    requires Holds(buf, p, t) && buf[p] != NUL
    ensures t != [] && buf[p] == t[0] && Holds(buf, p + 1, t[1..])
  {
    assert buf[p..p + |t|][0] == t[0];
    assert buf[p + 1..p + |t|] == buf[p..p + |t|][1..];
  }

  lemma HoldsEnd(buf: array<char>, p: nat, t: string)
    requires Holds(buf, p, t) && buf[p] == NUL
    ensures t == []
  {
  }

  /** What the loop has written and has still to read. */
  ghost predicate Progressing(buf: array<char>, start: nat, q: nat, p: nat, out: string, rest: string)
    reads buf
  {
    start <= q <= p && Holds(buf, p, rest) && buf[start..q] == out
  }

  /** Writes one character behind the output. */
  method Emit(buf: array<char>, start: nat, q: nat, p: nat, c: char, ghost out: string, ghost rest: string)
    requires start <= q < p && Holds(buf, p, rest) && buf[start..q] == out
    modifies buf
    ensures Progressing(buf, start, q + 1, p, out + [c], rest)
    ensures forall i :: 0 <= i < buf.Length && i != q ==> buf[i] == old(buf[i])
  {
    buf[q] := c;
    assert buf[p..p + |rest|] == rest;
  }

  /** Reads one character and writes it behind the output. */
  method Copy(buf: array<char>, start: nat, q: nat, p: nat, ghost out: string, ghost rest: string)
    requires Progressing(buf, start, q, p, out, rest) && rest != []
    modifies buf
    ensures Progressing(buf, start, q + 1, p + 1, out + [rest[0]], rest[1..])
    ensures forall i :: 0 <= i < buf.Length && i != q ==> buf[i] == old(buf[i])
  {
    assert buf[p] == buf[p..p + |rest|][0] == rest[0];
    assert rest[0] in rest;
    HoldsNext(buf, p, rest);
    Emit(buf, start, q, p + 1, buf[p], out, rest[1..]);
  }

  /** CollapseWhitespace: the string begins at the returned position. */
  method CollapseWhitespace(buf: array<char>, start: nat, ghost t: string) returns (at: nat)
    requires Holds(buf, start, t)
    modifies buf
    ensures start <= at <= start + |t| && CString(buf[at..]) == Collapsed(t)
    ensures forall i :: 0 <= i < buf.Length && (i < start || i > start + |t|) ==> buf[i] == old(buf[i])
  {
    ghost var rest;
    at, rest := SkipSpaces(buf, start, t);
    if buf[at] == NUL {
      HoldsEnd(buf, at, rest);
      HoldsString(buf, at, []);
    } else {
      Squeeze(buf, at, rest);
    }
  }

  /** The loop over the read pointer p and the write pointer q. */
  method Squeeze(buf: array<char>, start: nat, ghost t: string)
    requires Holds(buf, start, t)
    modifies buf
    ensures CString(buf[start..]) == Squeezed(t)
    ensures forall i :: 0 <= i < buf.Length && (i < start || i > start + |t|) ==> buf[i] == old(buf[i])
  {
    var p: nat, q: nat := start, start;
    ghost var rest, out := t, "";
    while buf[p] != NUL
      invariant Progressing(buf, start, q, p, out, rest) && p + |rest| == start + |t|
      invariant out + Squeezed(rest) == Squeezed(t) && NUL !in out
      invariant forall i :: 0 <= i < buf.Length && (i < start || i > start + |t|) ==> buf[i] == old(buf[i])
      decreases |rest|
    {
      HoldsNext(buf, p, rest);
      p, q, rest, out := SqueezeNext(buf, start, q, p, out, rest);
    }
    HoldsEnd(buf, p, rest);
    assert out + Squeezed([]) == out;
    Finish(buf, start, q, p, out, rest);
  }

  /** One turn: a run of white space, if there is one, and the character behind it. */
  method SqueezeNext(buf: array<char>, start: nat, q0: nat, p0: nat, ghost out0: string, ghost rest0: string)
    returns (p: nat, q: nat, ghost rest: string, ghost out: string)
    requires Progressing(buf, start, q0, p0, out0, rest0) && rest0 != [] && NUL !in out0
    modifies buf
    ensures Progressing(buf, start, q, p, out, rest) && p + |rest| == p0 + |rest0| && |rest| < |rest0|
    ensures out + Squeezed(rest) == out0 + Squeezed(rest0) && NUL !in out
    ensures forall i :: 0 <= i < buf.Length && (i < q0 || i >= p) ==> buf[i] == old(buf[i])
  {
    HoldsFirst(buf, p0, rest0);
    if IsWhiteSpace(buf[p0]) {
      p, q, rest, out := SqueezeRun(buf, start, q0, p0, out0, rest0);
    } else {
      SqueezeChar(out0, rest0);
      Copy(buf, start, q0, p0, out0, rest0);
      p, q, rest, out := p0 + 1, q0 + 1, rest0[1..], out0 + [rest0[0]];
    }
  }

  lemma HoldsFirst(buf: array<char>, p: nat, t: string)
    requires Holds(buf, p, t) && t != []
    ensures buf[p] == t[0] && t[0] != NUL
  {
    assert buf[p..p + |t|][0] == t[0];
    assert t[0] in t;
  }

  method SqueezeRun(buf: array<char>, start: nat, q0: nat, p0: nat, ghost out0: string, ghost rest0: string)
    returns (p: nat, q: nat, ghost rest: string, ghost out: string)
    requires Progressing(buf, start, q0, p0, out0, rest0) && rest0 != [] && IsWhiteSpace(rest0[0]) && NUL !in out0
    modifies buf
    ensures Progressing(buf, start, q, p, out, rest) && p + |rest| == p0 + |rest0| && |rest| < |rest0|
    ensures out + Squeezed(rest) == out0 + Squeezed(rest0) && NUL !in out
    ensures forall i :: 0 <= i < buf.Length && (i < q0 || i >= p) ==> buf[i] == old(buf[i])
  {
    var skipped, behind := SkipSpaces(buf, p0, rest0);
    if buf[skipped] == NUL {
      HoldsEnd(buf, skipped, behind);
      SqueezeNothing(out0, rest0);
      p, q, rest, out := skipped, q0, behind, out0;
    } else {
      HoldsNext(buf, skipped, behind);
      SqueezeSpace(out0, rest0);
      SpaceAndCopy(buf, start, q0, skipped, out0, behind);
      p, q, rest, out := skipped + 1, q0 + 2, behind[1..], out0 + [' '] + [behind[0]];
    }
  }

  method SpaceAndCopy(buf: array<char>, start: nat, q: nat, p: nat, ghost out: string, ghost rest: string)
    requires start <= q < p && Holds(buf, p, rest) && buf[start..q] == out && rest != [] && NUL !in out
    modifies buf
    ensures Progressing(buf, start, q + 2, p + 1, out + [' '] + [rest[0]], rest[1..])
    ensures NUL !in out + [' '] + [rest[0]]
    ensures forall i :: 0 <= i < buf.Length && (i < q || i > q + 1) ==> buf[i] == old(buf[i])
  {
    HoldsFirst(buf, p, rest);
    Emit(buf, start, q, p, ' ', out, rest);
    Copy(buf, start, q + 1, p, out + [' '], rest);
  }

  lemma SqueezeChar(out: string, s: string)
    requires s != [] && !IsWhiteSpace(s[0])
    ensures out + [s[0]] + Squeezed(s[1..]) == out + Squeezed(s)
  {
    Assoc(out, [s[0]], Squeezed(s[1..]));
  }

  lemma SqueezeNothing(out: string, s: string)
    requires s != [] && IsWhiteSpace(s[0]) && SkipWhiteSpace(s) == []
    ensures out + Squeezed([]) == out + Squeezed(s)
  {
  }

  lemma SqueezeSpace(out: string, s: string)
    requires s != [] && IsWhiteSpace(s[0]) && SkipWhiteSpace(s) != []
    ensures var t := SkipWhiteSpace(s); out + [' '] + [t[0]] + Squeezed(t[1..]) == out + Squeezed(s)
  {
  }

  method Finish(buf: array<char>, start: nat, q: nat, p: nat, ghost out: string, ghost rest: string)
    requires Progressing(buf, start, q, p, out, rest) && NUL !in out
    modifies buf
    ensures CString(buf[start..]) == out
    ensures forall i :: 0 <= i < buf.Length && i != q ==> buf[i] == old(buf[i])
  {
    buf[q] := NUL;
    assert buf[start..q] == out;
    HoldsString(buf, start, out);
  }
}
