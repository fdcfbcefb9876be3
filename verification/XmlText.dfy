/**
  Characters, entities and string flushing of marsksim/comm/tinyxml2.h and tinyxml2.cc.
 */
module XmlText {
  import opened Seqs
  import opened Strings
  import XmlCollapse

  const CR: char := '\r'
  const LF: char := '\n'

  // ---------- character classes ----------

  predicate IsNameStartChar(c: char) {
    c as int >= 128 || 'a' <= c <= 'z' || 'A' <= c <= 'Z' || c == ':' || c == '_'
  }

  predicate IsNameChar(c: char) {
    IsNameStartChar(c) || '0' <= c <= '9' || c == '.' || c == '-'
  }

  /** Names by their codes: letters, colon, underscore and all bytes above ASCII, then also digits, dot and
      hyphen. */
  lemma NameCodes(c: char)
    ensures var n := c as int;
            && (IsNameStartChar(c) <==> 65 <= n <= 90 || 97 <= n <= 122 || n == 58 || n == 95 || n > 127)
            && (IsNameChar(c) <==> IsNameStartChar(c) || 48 <= n <= 57 || n == 45 || n == 46)
  {
  }

  /** Number of leading name characters. */
  function NameSpan(p: string): (n: nat)
    ensures n <= |p|
  {
    if p != [] && IsNameChar(p[0]) then 1 + NameSpan(p[1..]) else 0
  }

  // ---------- entities ----------

  datatype Entity = Entity(pattern: string, value: char)

  const ENTITIES: seq<Entity> :=
    [Entity("quot", '"'), Entity("amp", '&'), Entity("apos", '\''), Entity("lt", '<'), Entity("gt", '>')]

  /** The characters PrintString escapes: all five entities in attribute values, only & < > in text. */
  predicate IsEscaped(c: char, restricted: bool) {
    c == '&' || c == '<' || c == '>' || (!restricted && (c == '"' || c == '\''))
  }

  function EntityOf(c: char): string
    requires IsEscaped(c, false)
  {
    if c == '"' then "&quot;" else if c == '&' then "&amp;" else if c == '\'' then "&apos;"
    else if c == '<' then "&lt;" else "&gt;"
  }

  function EscapeChar(c: char, restricted: bool): string {
    if IsEscaped(c, restricted) then EntityOf(c) else [c]
  }

  /** What PrintString prints. */
  function Escape(s: string, restricted: bool): string {
    if s == [] then [] else EscapeChar(s[0], restricted) + Escape(s[1..], restricted)
  }

  // ---------- character references ----------

  /** The bytes ConvertUTF32ToUTF8 produces; nothing for values it does not handle. */
  function Utf8(ucs: nat): (s: string)
    ensures |s| <= 4
    ensures ucs < 0x80 ==> |s| == 1
  {
    if ucs < 0x80 then [ucs as char]
    else if ucs < 0x800 then [(0xC0 + ucs / 64) as char, (0x80 + ucs % 64) as char]
    else if ucs < 0x10000 then
      [(0xE0 + ucs / 4096) as char, (0x80 + ucs / 64 % 64) as char, (0x80 + ucs % 64) as char]
    else if ucs < 0x200000 then
      [(0xF0 + ucs / 0x40000) as char, (0x80 + ucs / 4096 % 64) as char, (0x80 + ucs / 64 % 64) as char,
        (0x80 + ucs % 64) as char]
    else []
  }

  /** The digits before position i, read backwards to the stop character, with the source's
      32-bit multiplier; -1 if another character is met. */
  function ReadDigits(s: string, i: nat, stop: char, radix: int, mult: nat): int
    requires i <= |s|
    decreases i
  {
    if i == 0 then -1
    else if s[i - 1] == stop then 0
    else if Digit(s[i - 1], radix) < 0 then -1
    else
      var rest := ReadDigits(s, i - 1, stop, radix, mult * radix % 0x1_0000_0000);
      if rest < 0 then -1 else rest + mult * Digit(s[i - 1], radix) % 0x1_0000_0000
  }

  /** GetCharacterRef at a "&#": how many characters it consumes (0: not a reference) and the
      bytes it stands for. */
  function CharacterRef(s: string): (r: (nat, string))
    requires |s| >= 2 && s[0] == '&' && s[1] == '#'
    ensures |r.1| <= r.0 <= |s|
  {
    if |s| == 2 then (1, [])
    else
      var hex := s[2] == 'x';
      var from := if hex then 3 else 2;
      var semi := Find(s[from..], ";");
      if semi < 0 then (0, [])
      else
        var ucs := ReadDigits(s, from + semi, if hex then 'x' else '#', if hex then 16 else 10, 1);
        if ucs < 0 then (0, [])
        else
          assert semi == 0 && !hex ==> ucs == 0;
          (from + semi + 1, Utf8(ucs))
  }

  // ---------- flushing ----------

  /** The first entity of the table whose name and semicolon follow the ampersand: 5 if none. */
  function EntityAt(s: string, i: nat): (j: nat)
    requires i <= 5
    ensures i <= j <= 5
    ensures j < 5 ==> ENTITIES[j].pattern + ";" <= s
    decreases |s|, 5 - i
  {
    if i == 5 then 5 else if ENTITIES[i].pattern + ";" <= s then i else EntityAt(s, i + 1)
  }

  /** One step of the flush loop on the unread rest of the text: characters consumed and written.
      An ampersand that starts no known entity consumes one and writes nothing: its place in
      the output keeps whatever character the buffer already held there. */
  datatype FlushStep = FlushStep(consumed: nat, written: string) | Keep

  function NextStep(rest: string, entities: bool): (f: FlushStep)
    requires rest != []
    ensures f.FlushStep? ==> 0 < f.consumed <= |rest| && |f.written| <= f.consumed
  {
    var c := rest[0];
    if c == CR then FlushStep(if |rest| > 1 && rest[1] == LF then 2 else 1, [LF])
    else if c == LF then FlushStep(if |rest| > 1 && rest[1] == CR then 2 else 1, [LF])
    else if entities && c == '&' then
      if |rest| > 1 && rest[1] == '#' then
        var (n, bytes) := CharacterRef(rest);
        if n == 0 then FlushStep(1, "&") else FlushStep(n, bytes)
      else
        var j := EntityAt(rest[1..], 0);
        if j < 5 then FlushStep(|ENTITIES[j].pattern| + 2, [ENTITIES[j].value]) else Keep
    else FlushStep(1, [c])
  }

  /** The steps that read a text to its end.  They never depend on what is written, because the
      write pointer stays behind the read pointer. */
  function Steps(rest: string, entities: bool): (steps: seq<FlushStep>)
    decreases |rest|
  {
    if rest == [] then []
    else
      var f := NextStep(rest, entities);
      [f] + Steps(rest[Consumed(f)..], entities)
  }

  function Consumed(f: FlushStep): nat {
    if f.FlushStep? then f.consumed else 1
  }

  /** What a step writes behind the output out into the buffer that held seg. */
  function Written(seg: string, f: FlushStep, out: string): (w: string) {
    if f.FlushStep? then f.written else if |out| < |seg| then [seg[|out|]] else [NUL]
  }

  /** The output after some steps. */
  function Write(seg: string, steps: seq<FlushStep>, out: string): string {
    if steps == [] then out else Write(seg, steps[1..], out + Written(seg, steps[0], out))
  }

  /** StrPair::GetStr: the text seg rewritten in place. */
  function Flush(seg: string, entities: bool): string {
    Write(seg, Steps(seg, entities), [])
  }

  function Flushed(seg: string, entities: bool): string {
    CString(Flush(seg, entities))
  }

  // ---------- flushing undoes escaping ----------

  /** Text whose characters survive a flush: no carriage return (it is normalised) and no NUL. */
  predicate Plain(s: string) {
    CR !in s && NUL !in s
  }

  lemma EscapeStep(c: char, restricted: bool, rest: string)
    requires c != CR && (rest == [] || rest[0] != CR)
    ensures NextStep(EscapeChar(c, restricted) + rest, true) == FlushStep(|EscapeChar(c, restricted)|, [c])
  {
    var e := EscapeChar(c, restricted);
    var s := e + rest;
    if IsEscaped(c, restricted) {
      assert s[1..] == e[1..] + rest;
      EntityMatches(c, rest);
    }
  }

  lemma {:induction false} EntityAtFirst(s: string, i: nat, j: nat)
    requires i <= j < 5 && ENTITIES[j].pattern + ";" <= s
    requires forall k :: i <= k < j ==> !(ENTITIES[k].pattern + ";" <= s)
    ensures EntityAt(s, i) == j
    decreases j - i
  {
    if i < j {
      EntityAtFirst(s, i + 1, j);
    }
  }

  /** The table position of a character. */
  function EntityIndex(c: char): nat
    requires IsEscaped(c, false)
  {
    if c == '"' then 0 else if c == '&' then 1 else if c == '\'' then 2 else if c == '<' then 3 else 4
  }

  lemma EntityMatches(c: char, rest: string)
    requires IsEscaped(c, false)
    ensures EntityAt(EntityOf(c)[1..] + rest, 0) == EntityIndex(c)
    ensures ENTITIES[EntityIndex(c)].value == c && |ENTITIES[EntityIndex(c)].pattern| + 2 == |EntityOf(c)|
    ensures EntityOf(c)[0] == '&' && EntityOf(c)[1] != '#'
  {
    var j := EntityIndex(c);
    var s := EntityOf(c)[1..] + rest;
    assert EntityOf(c)[1..] == ENTITIES[j].pattern + ";";
    forall k | 0 <= k < j
      ensures !(ENTITIES[k].pattern + ";" <= s)
    {
      assert s[0] != ENTITIES[k].pattern[0] || s[1] != ENTITIES[k].pattern[1];
    }
    EntityAtFirst(s, 0, j);
  }

  lemma EscapeAppend(s: string, t: string, restricted: bool)
    ensures Escape(s + t, restricted) == Escape(s, restricted) + Escape(t, restricted)
  {
    if s == [] {
      assert s + t == t;
    } else {
      assert (s + t)[1..] == s[1..] + t;
      EscapeAppend(s[1..], t, restricted);
    }
  }

  lemma EscapeHead(s: string, restricted: bool)
    requires s != []
    ensures Escape(s, restricted) != [] && (s[0] != CR ==> Escape(s, restricted)[0] != CR)
  {
  }

  lemma StepsCons(rest: string, entities: bool, n: nat, w: string, more: string)
    requires rest != [] && NextStep(rest, entities) == FlushStep(n, w) && rest[n..] == more
    ensures Steps(rest, entities) == [FlushStep(n, w)] + Steps(more, entities)
  {
  }

  lemma WriteCons(seg: string, f: FlushStep, steps: seq<FlushStep>, out: string)
    ensures Write(seg, [f] + steps, out) == Write(seg, steps, out + Written(seg, f, out))
  {
    assert ([f] + steps)[1..] == steps;
  }

  /** Escaped text is read back one character a step. */
  lemma {:induction false} WriteEscaped(seg: string, out: string, s: string, restricted: bool)
    requires CR !in s
    ensures Write(seg, Steps(Escape(s, restricted), true), out) == out + s
    decreases |s|
  {
    if s != [] {
      var e, rest := EscapeChar(s[0], restricted), Escape(s[1..], restricted);
      if s[1..] != [] {
        EscapeHead(s[1..], restricted);
      }
      EscapeStep(s[0], restricted, rest);
      StepsCons(e + rest, true, |e|, [s[0]], rest);
      WriteCons(seg, FlushStep(|e|, [s[0]]), Steps(rest, true), out);
      WriteEscaped(seg, out + [s[0]], s[1..], restricted);
      Shift(out, s);
    }
  }

  /** Reading back what PrintString printed gives the original text. */
  lemma FlushedEscape(s: string, restricted: bool)
    requires Plain(s)
    ensures Flushed(Escape(s, restricted), true) == s
  {
    WriteEscaped(Escape(s, restricted), [], s, restricted);
    assert [] + s == s;
    CStringPlain(s);
  }

  /** Text without entity processing (comments, CDATA, declarations) is kept as it is. */
  lemma {:induction false} WriteVerbatim(seg: string, out: string, s: string)
    requires CR !in s
    ensures Write(seg, Steps(s, false), out) == out + s
    decreases |s|
  {
    if s != [] {
      StepsCons(s, false, 1, [s[0]], s[1..]);
      WriteCons(seg, FlushStep(1, [s[0]]), Steps(s[1..], false), out);
      WriteVerbatim(seg, out + [s[0]], s[1..]);
      Shift(out, s);
    }
  }

  lemma FlushedVerbatim(s: string)
    requires Plain(s)
    ensures Flushed(s, false) == s
  {
    WriteVerbatim(s, [], s);
    assert [] + s == s;
    CStringPlain(s);
  }

  /** Escaped text has no '<', escaped attribute values have no quote either. */
  lemma {:induction false} EscapeClean(s: string, restricted: bool)
    ensures '<' !in Escape(s, restricted)
    ensures !restricted ==> '"' !in Escape(s, restricted)
  {
    if s != [] {
      EscapeClean(s[1..], restricted);
      assert '<' !in EscapeChar(s[0], restricted);
    }
  }

  // ---------- unknown entities ----------

  /** What the steps stand for when an unknown entity is left as it is. */
  function Meaning(steps: seq<FlushStep>): string {
    if steps == [] then []
    else (if steps[0].FlushStep? then steps[0].written else "&") + Meaning(steps[1..])
  }

  /** Every unknown entity lands on a place of the buffer that still holds an ampersand.  q counts
      the characters written so far. */
  predicate KeepsAmpersands(seg: string, steps: seq<FlushStep>, q: nat) {
    steps == [] ||
    (if steps[0].FlushStep? then KeepsAmpersands(seg, steps[1..], q + |steps[0].written|)
     else q < |seg| && seg[q] == '&' && KeepsAmpersands(seg, steps[1..], q + 1))
  }

  lemma {:induction false} WriteExtends(seg: string, steps: seq<FlushStep>, out: string)
    ensures out <= Write(seg, steps, out)
    decreases |steps|
  {
    if steps != [] {
      WriteExtends(seg, steps[1..], out + Written(seg, steps[0], out));
    }
  }

  lemma {:induction false} WriteMeans(seg: string, steps: seq<FlushStep>, out: string)
    ensures Write(seg, steps, out) == out + Meaning(steps) <==> KeepsAmpersands(seg, steps, |out|)
    decreases |steps|
  {
    if steps == [] {
      assert out + [] == out;
    } else {
      var w, m := Written(seg, steps[0], out), Meaning(steps[1..]);
      WriteMeans(seg, steps[1..], out + w);
      if steps[0].FlushStep? {
        assert out + (w + m) == out + w + m;
      } else {
        WriteExtends(seg, steps[1..], out + w);
        PrefixAmpersand(out, w[0], Write(seg, steps[1..], out + w), m);
      }
    }
  }

  lemma PrefixAmpersand(out: string, c: char, f: string, m: string)
    requires out + [c] <= f
    ensures f == out + ("&" + m) <==> c == '&' && f == out + [c] + m
  {
    assert f[|out|] == c;
    assert out + ("&" + m) == out + "&" + m;
    assert f == out + "&" + m ==> f[|out|] == '&';
  }

  /** The in-place rewrite gives a text its meaning exactly when no unknown entity falls on a place
      that holds another character by then. */
  lemma FlushMeans(seg: string, entities: bool)
    ensures Flush(seg, entities) == Meaning(Steps(seg, entities)) <==> KeepsAmpersands(seg, Steps(seg, entities), 0)
  {
    WriteMeans(seg, Steps(seg, entities), []);
    assert [] + Meaning(Steps(seg, entities)) == Meaning(Steps(seg, entities));
  }

  /** Such a text: "&lt;&" means "<&" and is read as "<l", because the second ampersand is kept
      where the buffer holds the l of the first entity. */
  lemma UnknownEntityKeepsStale()
    ensures Meaning(Steps("&lt;&", true)) == "<&"
    ensures Flush("&lt;&", true) == "<l"
  {
    UnknownEntitySteps();
    WriteTwo("&lt;&", FlushStep(4, "<"));
  }

  lemma WriteTwo(seg: string, f: FlushStep)
    requires f.FlushStep? && |f.written| < |seg|
    ensures Write(seg, [f, Keep], []) == f.written + [seg[|f.written|]]
    ensures Meaning([f, Keep]) == f.written + "&"
  {
    assert [f, Keep][1..] == [Keep] && [Keep][1..] == [];
    assert [] + f.written == f.written;
    assert Meaning([Keep]) == "&" + Meaning([]) == "&";
    assert Write(seg, [Keep], f.written) == Write(seg, [], f.written + [seg[|f.written|]]);
  }

  lemma UnknownEntitySteps()
    ensures Steps("&lt;&", true) == [FlushStep(4, "<"), Keep]
  {
    var s := "&lt;&";
    assert NextStep(s, true) == FlushStep(4, "<") by {
      EntityMatches('<', "&");
      assert s[1..] == "lt;" + "&" && EntityOf('<')[1..] == "lt;";
    }
    StepsCons(s, true, 4, "<", "&");
    assert NextStep("&", true) == Keep;
  }

  // ---------- flushing in place ----------

  /** One turn of the rewriting loop. */
  lemma WriteStep(seg: string, rest: string, out: string, entities: bool, f: FlushStep)
    requires rest != [] && f == NextStep(rest, entities)
    ensures Write(seg, Steps(rest[Consumed(f)..], entities), out + Written(seg, f, out))
      == Write(seg, Steps(rest, entities), out)
  {
    WriteCons(seg, f, Steps(rest[Consumed(f)..], entities), out);
  }

  /** A string that ends within the first n + 1 characters. */
  lemma {:induction false} StringIn(s: string, n: nat)
    requires n < |s| && NUL in s[..n + 1]
    ensures var t := CString(s); |t| <= n && s[..|t|] == t && s[|t|] == NUL && NUL !in t
    decreases n
  {
    if s[0] != NUL {
      var i :| 0 <= i < n + 1 && s[i] == NUL;
      assert s[1..][i - 1] == NUL && s[1..][i - 1] in s[1..][..n];
      StringIn(s[1..], n - 1);
    }
  }

  /** A string that still lies in the parsed text, from start up to end, and is only terminated and
      rewritten when it is first asked for. */
  class StrPair {
    const buf: array<char>
    var start: nat
    var end: nat
    var needsFlush: bool
    var normalize: bool
    var entities: bool
    var collapse: bool

    ghost predicate Valid()
      reads this
    {
      start <= end < buf.Length && (entities || collapse ==> normalize)
    }

    /** The raw text of a string not flushed yet. */
    ghost function Raw(): string
      requires Valid()
      reads this, buf
    {
      buf[start..end]
    }

    /** The C string at start. */
    ghost function Str(): string
      requires Valid()
      reads this, buf
    {
      CString(buf[start..])
    }

    constructor (buf: array<char>, start: nat, end: nat, normalize: bool, entities: bool, collapse: bool)
      requires start <= end < buf.Length && (entities || collapse ==> normalize)
      ensures Valid() && this.buf == buf && this.start == start && this.end == end
      ensures needsFlush && this.normalize == normalize && this.entities == entities && this.collapse == collapse
    {
      this.buf, this.start, this.end := buf, start, end;
      needsFlush, this.normalize, this.entities, this.collapse := true, normalize, entities, collapse;
    }

    /** What the raw text stands for under the flags. */
    ghost function Meant(): string
      requires Valid()
      reads this, buf
    {
      var s := if normalize then Flushed(Raw(), entities) else CString(Raw());
      if collapse then XmlCollapse.Collapsed(s) else s
    }

    /** GetStr: the string from start is what the raw text stands for, and start only moves when
        leading white space is collapsed.  Nothing outside the pair's own range changes, and a
        second call changes nothing at all. */
    method GetStr() returns (at: nat)
      requires Valid()
      modifies this, buf
      ensures Valid() && !needsFlush && at == start && end == old(end) && start >= old(start)
      ensures !old(needsFlush) || !old(collapse) ==> start == old(start)
      ensures Str() == if old(needsFlush) then old(Meant()) else old(Str())
      ensures forall i :: 0 <= i < buf.Length && (i < old(start) || i > end) ==> buf[i] == old(buf[i])
      ensures !old(needsFlush) ==> buf[..] == old(buf[..])
    {
      if needsFlush {
        Flushes();
        if collapse {
          Collapse();
        }
        needsFlush, normalize, entities, collapse := false, false, false, false;
      }
      at := start;
    }

    method Flushes()
      requires Valid()
      modifies buf
      ensures Str() == if normalize then Flushed(old(Raw()), entities) else CString(old(Raw()))
      ensures NUL in buf[start..end + 1]
      ensures forall i :: 0 <= i < buf.Length && (i < start || i > end) ==> buf[i] == old(buf[i])
    {
      Terminate(end, buf[start..end]);
      if normalize {
        var q := Rewrite();
        Terminate(q, buf[start..q]);
      }
    }

    method Collapse()
      requires Valid() && NUL in buf[start..end + 1]
      modifies this`start, buf
      ensures Valid() && start >= old(start) && Str() == XmlCollapse.Collapsed(old(Str()))
      ensures forall i :: 0 <= i < buf.Length && (i < old(start) || i > end) ==> buf[i] == old(buf[i])
    {
      ghost var t := Str();
      StringIn(buf[start..], end - start);
      assert buf[start..start + |t|] == buf[start..][..|t|];
      start := XmlCollapse.CollapseWhitespace(buf, start, t);
    }

    /** Ends the string at a position of its range. */
    method Terminate(at: nat, ghost s: string)
      requires Valid() && start <= at <= end && buf[start..at] == s
      modifies buf
      ensures buf[start..at] == s && Str() == CString(s) && buf[at] == NUL
      ensures forall i :: 0 <= i < buf.Length && i != at ==> buf[i] == old(buf[i])
    {
      buf[at] := NUL;
      assert buf[start..] == s + [NUL] + buf[at + 1..];
      CStringEnds(s, buf[at + 1..]);
    }

    /** Copies the bytes of one step behind the output. */
    method Put(q: nat, bytes: string)
      requires start <= q <= q + |bytes| <= buf.Length
      modifies buf
      ensures buf[start..q + |bytes|] == old(buf[start..q]) + bytes
      ensures forall i :: 0 <= i < buf.Length && (i < q || i >= q + |bytes|) ==> buf[i] == old(buf[i])
    {
      for i := 0 to |bytes|
        invariant forall k :: 0 <= k < i ==> buf[q + k] == bytes[k]
        invariant forall k :: 0 <= k < buf.Length && (k < q || k >= q + i) ==> buf[k] == old(buf[k])
      {
        buf[q + i] := bytes[i];
      }
    }

    /** The loop over the read pointer p and the write pointer q, which never overtakes p. */
    method Rewrite() returns (q: nat)
      requires Valid()
      modifies buf
      ensures start <= q <= end
      ensures buf[start..q] == Flush(old(Raw()), entities)
      ensures forall i :: 0 <= i < buf.Length && (i < start || i >= end) ==> buf[i] == old(buf[i])
    {
      ghost var raw, rest, out := buf[start..end], buf[start..end], "";
      var p := start;
      q := start;
      while p < end
        invariant start <= q <= p <= end && buf[start..q] == out && |rest| == end - p
        invariant forall i :: 0 <= i < buf.Length && (i < start || i >= q) ==> buf[i] == old(buf[i])
        invariant forall i :: p <= i < end ==> buf[i] == rest[i - p]
        invariant Write(raw, Steps(rest, entities), out) == Flush(raw, entities)
      {
        p, q, rest, out := Turn(p, q, raw, rest, out);
      }
    }

    /** One turn of the loop: raw is the text as it was when the loop began, rest the part still to
        be read, out what was written. */
    method Turn(p: nat, q: nat, ghost raw: string, ghost rest: string, ghost out: string)
      returns (p': nat, q': nat, ghost rest': string, ghost out': string)
      requires Valid() && start <= q <= p < end && |raw| == end - start && |rest| == end - p
      requires buf[start..q] == out && buf[q] == raw[q - start]
      requires forall i :: p <= i < end ==> buf[i] == rest[i - p]
      modifies buf
      ensures q <= q' <= p' <= end && p < p' && buf[start..q'] == out' && |rest'| == end - p'
      ensures forall i :: p' <= i < end ==> buf[i] == rest'[i - p']
      ensures forall i :: 0 <= i < buf.Length && (i < q || i >= q') ==> buf[i] == old(buf[i])
      ensures Write(raw, Steps(rest', entities), out') == Write(raw, Steps(rest, entities), out)
    {
      var f := Read(p, rest);
      WriteStep(raw, rest, out, entities, f);
      p', q' := Take(f, p, q, raw);
      rest', out' := rest[Consumed(f)..], out + Written(raw, f, out);
      forall i | p' <= i < end
        ensures buf[i] == rest'[i - p']
      {
        assert rest'[i - p'] == rest[i - p];
      }
    }

    /** Looks at the text behind the read pointer. */
    method Read(p: nat, ghost rest: string) returns (f: FlushStep)
      requires Valid() && start <= p < end
      requires |rest| == end - p && forall i :: p <= i < end ==> buf[i] == rest[i - p]
      ensures f == NextStep(rest, entities)
    {
      f := NextStep(buf[p..end], entities);
      assert buf[p..end] == rest;
    }

    /** Advances both pointers by one step. */
    method Take(f: FlushStep, p: nat, q: nat, ghost raw: string) returns (p': nat, q': nat)
      requires Valid() && start <= q <= p < end && |raw| == end - start && buf[q] == raw[q - start]
      requires f.FlushStep? ==> 0 < f.consumed <= end - p && |f.written| <= f.consumed
      modifies buf
      ensures p' == p + Consumed(f) && q <= q' <= p' <= end
      ensures forall i :: 0 <= i < buf.Length && (i < q || i >= q') ==> buf[i] == old(buf[i])
      ensures buf[start..q'] == old(buf[start..q]) + Written(raw, f, old(buf[start..q]))
    {
      if f.FlushStep? {
        Put(q, f.written);
        p', q' := p + f.consumed, q + |f.written|;
      } else {
        p', q' := p + 1, q + 1;
      }
    }
  }
}
