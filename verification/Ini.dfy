/** The INI store of marsksim/comm/ini.h; a file is the string of its bytes. */
module Ini {
  import opened Options
  import opened Seqs
  import opened Strings

  const BUFFER_SIZE: nat := 4096
  const SECTION_SIZE: nat := 512

  type Keys = map<string, string>
  type Sections = map<string, Keys>

  // ---------- names ----------

  predicate IsNameChar(c: char) {
    'a' <= c <= 'z' || 'A' <= c <= 'Z' || '0' <= c <= '9' || c == '-' || c == '_' || c == '.' || c == ' '
  }

  predicate ValidName(s: string) {
    s != [] && forall i :: 0 <= i < |s| ==> IsNameChar(s[i])
  }

  /** The codes of the capital and small letters, the digits, space, hyphen, dot and underscore. */
  predicate NameCode(n: int) {
    65 <= n <= 90 || 97 <= n <= 122 || 48 <= n <= 57 || n == 32 || n == 45 || n == 46 || n == 95
  }

  method VerifyName(name: string) returns (ok: bool)
    ensures ok == ValidName(name)
    ensures ok <==> name != [] && forall i :: 0 <= i < |name| ==> NameCode(name[i] as int)
  {
    if name == [] {
      return false;
    }
    for i := 0 to |name|
      invariant forall k :: 0 <= k < i ==> IsNameChar(name[k])
    {
      if !IsNameChar(name[i]) {
        return false;
      }
    }
    ok := true;
  }

  /** Number of leading name characters: what the scanset of sscanf matches. */
  function Span(s: string): (n: nat)
    ensures n <= |s| && forall i :: 0 <= i < n ==> IsNameChar(s[i])
    ensures n < |s| ==> !IsNameChar(s[n])
  {
    if s != [] && IsNameChar(s[0]) then 1 + Span(s[1..]) else 0
  }

  // ---------- parsing ----------

  /** The section the parser is in (empty: none) and what it has read. */
  datatype Progress = Progress(cur: string, sections: Sections)

  /** What fgets takes: up to the newline, and at most one less than its buffer. */
  function LineLength(file: string): (n: nat)
    requires file != []
    ensures 0 < n <= |file|
  {
    var i := Find(file, "\n");
    var n := if i < 0 then |file| else i + 1;
    if n < BUFFER_SIZE then n else BUFFER_SIZE - 1
  }

  function Strip(line: string): string {
    if line != [] && line[|line| - 1] == '\n' then line[..|line| - 1] else line
  }

  function Enter(s: Sections, name: string): Sections {
    if name in s then s else s[name := map[]]
  }

  function Store(s: Sections, name: string, key: string, value: string): Sections {
    s[name := (if name in s then s[name] else map[])[key := value]]
  }

  /** A line without its newline. */
  function Take(line: string, p: Progress): Progress {
    if line != [] && line[0] == '[' then TakeSection(line[1..], p.sections)
    else if p.cur == [] then p
    else TakeEntry(line, p)
  }

  function TakeSection(line: string, sections: Sections): Progress {
    var n := Span(line);
    var name := if n < SECTION_SIZE then line[..n] else line[..SECTION_SIZE - 1];
    if n == 0 then Progress([], sections) else Progress(name, Enter(sections, name))
  }

  function TakeEntry(line: string, p: Progress): Progress {
    var i := Find(line, "=");
    if i < 0 || !ValidName(line[..i]) then p
    else p.(sections := Store(p.sections, p.cur, line[..i], line[i + 1..]))
  }

  /** One turn of the loop on what fgets put into the buffer. */
  function ParseLine(raw: string, p: Progress): Progress {
    var line := CString(raw);
    if "//" <= line then p else Take(Strip(line), p)
  }

  function ParseFile(file: string, p: Progress): Progress
    decreases |file|
  {
    if file == [] then p
    else
      var n := LineLength(file);
      ParseFile(file[n..], ParseLine(file[..n], p))
  }

  // ---------- saving ----------

  datatype Entry = Entry(key: string, value: string)
  datatype Section = Section(name: string, entries: seq<Entry>)

  function MakeSection(name: string): string {
    "[" + name + "]"
  }

  function MakeKeyValue(e: Entry): string {
    e.key + "=" + e.value
  }

  function PrintEntries(entries: seq<Entry>): string {
    if entries == [] then [] else MakeKeyValue(entries[0]) + "\n" + PrintEntries(entries[1..])
  }

  function PrintSection(s: Section): string {
    if s.entries == [] then [] else MakeSection(s.name) + "\n" + PrintEntries(s.entries)
  }

  /** What Save writes for the sections in the order in which it visits them. */
  function PrintSections(listing: seq<Section>): string {
    if listing == [] then [] else PrintSection(listing[0]) + PrintSections(listing[1..])
  }

  // ---------- listings of a map ----------

  function KeysOf(entries: seq<Entry>): Keys {
    if entries == [] then map[] else KeysOf(entries[1..])[entries[0].key := entries[0].value]
  }

  function SectionsOf(listing: seq<Section>): Sections {
    if listing == [] then map[] else SectionsOf(listing[1..])[listing[0].name := KeysOf(listing[0].entries)]
  }

  ghost predicate DistinctKeys(entries: seq<Entry>) {
    forall i, j :: 0 <= i < j < |entries| ==> entries[i].key != entries[j].key
  }

  ghost predicate Distinct(listing: seq<Section>) {
    && (forall i, j :: 0 <= i < j < |listing| ==> listing[i].name != listing[j].name)
    && (forall i :: 0 <= i < |listing| ==> DistinctKeys(listing[i].entries))
  }

  /** Sections without keys are not saved. */
  function DropEmpty(s: Sections): Sections {
    map n | n in s && s[n] != map[] :: s[n]
  }

  lemma {:induction false} KeysOfDomain(entries: seq<Entry>)
    ensures forall k :: k in KeysOf(entries) <==> exists i :: 0 <= i < |entries| && entries[i].key == k
    decreases |entries|
  {
    if entries != [] {
      KeysOfDomain(entries[1..]);
      forall i | 0 <= i < |entries|
        ensures entries[i].key in KeysOf(entries)
      {
        assert i > 0 ==> entries[1..][i - 1] == entries[i];
      }
    }
  }

  lemma {:induction false} SectionsOfDomain(listing: seq<Section>)
    ensures forall n :: n in SectionsOf(listing) <==> exists i :: 0 <= i < |listing| && listing[i].name == n
    decreases |listing|
  {
    if listing != [] {
      SectionsOfDomain(listing[1..]);
      forall i | 0 <= i < |listing|
        ensures listing[i].name in SectionsOf(listing)
      {
        assert i > 0 ==> listing[1..][i - 1] == listing[i];
      }
    }
  }

  lemma {:induction false} KeysOfAppend(entries: seq<Entry>, e: Entry)
    requires forall i :: 0 <= i < |entries| ==> entries[i].key != e.key
    ensures KeysOf(entries + [e]) == KeysOf(entries)[e.key := e.value]
    decreases |entries|
  {
    if entries == [] {
      assert (entries + [e])[1..] == [];
    } else {
      assert (entries + [e])[1..] == entries[1..] + [e];
      KeysOfAppend(entries[1..], e);
    }
  }

  lemma {:induction false} SectionsOfAppend(listing: seq<Section>, s: Section)
    requires forall i :: 0 <= i < |listing| ==> listing[i].name != s.name
    ensures SectionsOf(listing + [s]) == SectionsOf(listing)[s.name := KeysOf(s.entries)]
    decreases |listing|
  {
    if listing == [] {
      assert (listing + [s])[1..] == [];
    } else {
      assert (listing + [s])[1..] == listing[1..] + [s];
      SectionsOfAppend(listing[1..], s);
    }
  }

  // ---------- lines that change nothing ----------

  /** Comments. */
  lemma CommentSkipped(t: string, p: Progress)
    requires PlainText(t)
    ensures ParseLine("//" + t + "\n", p) == p
  {
    var raw := "//" + t + "\n";
    CStringPlain(raw);
    assert raw[..2] == "//";
  }

  /** Anything but a section, while no section is open. */
  lemma OutsideSkipped(line: string, p: Progress)
    requires p.cur == [] && (line == [] || line[0] != '[')
    ensures Take(line, p) == p
  {
  }

  /** Lines without an equals sign, and lines whose key is not a name. */
  lemma NoEntrySkipped(line: string, key: string, value: string, p: Progress)
    requires '=' !in line && (line == [] || line[0] != '[')
    requires '=' !in key && !ValidName(key) && (key == [] || key[0] != '[')
    ensures Take(line, p) == p && Take(key + "=" + value, p) == p
  {
    FindNone(line, '=');
    KeyAt(key, value);
    assert (key + "=" + value)[..|key|] == key;
    assert (key + "=" + value)[0] == if key == [] then '=' else key[0];
  }

  lemma KeyAt(key: string, value: string)
    requires '=' !in key
    ensures Find(key + "=" + value, "=") == |key|
  {
    var s := key + "=" + value;
    forall k | 0 <= k < |key|
      ensures !Occurs("=", s, k)
    {
      assert s[k..k + 1][0] == key[k];
    }
    assert s[|key|..|key| + 1] == "=";
    FindIs(s, "=", |key|);
  }

  /** A bracket without a name behind it leaves the section; what follows the name does not count. */
  lemma SectionLines(name: string, rest: string, p: Progress)
    requires (name == [] || ValidName(name)) && |name| < SECTION_SIZE && rest != [] && !IsNameChar(rest[0])
    ensures Take("[" + (name + rest), p)
         == if name == [] then Progress([], p.sections) else Progress(name, Enter(p.sections, name))
  {
    assert ("[" + (name + rest))[1..] == name + rest;
    SpanName(name, rest);
    assert (name + rest)[..|name|] == name;
  }

  // ---------- reading back one line ----------

  predicate PlainText(s: string) {
    '\n' !in s && NUL !in s
  }

  lemma NameIsPlain(s: string)
    requires ValidName(s)
    ensures PlainText(s) && '=' !in s && s[0] != '[' && s[0] != '/'
  {
  }

  /** The newline of a plain text is the first one. */
  lemma NewlineAt(t: string, rest: string)
    requires '\n' !in t
    ensures Find(t + "\n" + rest, "\n") == |t|
  {
    var s := t + "\n" + rest;
    forall k | 0 <= k < |t|
      ensures !Occurs("\n", s, k)
    {
      assert s[k..k + 1][0] == t[k];
    }
    assert s[|t|..|t| + 1] == "\n";
    FindIs(s, "\n", |t|);
  }

  /** A text that fits is read with its newline. */
  lemma ShortLine(t: string, rest: string, p: Progress)
    requires '\n' !in t && |t| < BUFFER_SIZE - 1
    ensures ParseFile(t + "\n" + rest, p) == ParseFile(rest, ParseLine(t + "\n", p))
  {
    var file := t + "\n" + rest;
    NewlineAt(t, rest);
    assert file[..|t| + 1] == t + "\n" && file[|t| + 1..] == rest;
  }

  /** A longer one is cut, and the next read gets what is left of it. */
  lemma LongLine(t: string, rest: string, p: Progress)
    requires '\n' !in t && BUFFER_SIZE - 1 <= |t| <= BUFFER_SIZE
    ensures var n := BUFFER_SIZE - 1;
            ParseFile(t + "\n" + rest, p) == ParseFile(rest, ParseLine(t[n..] + "\n", ParseLine(t[..n], p)))
  {
    var n := BUFFER_SIZE - 1;
    var file := t + "\n" + rest;
    NewlineAt(t, rest);
    assert file[..n] == t[..n] && file[n..] == t[n..] + "\n" + rest;
    ShortLine(t[n..], rest, ParseLine(t[..n], p));
  }

  lemma PlainLine(t: string, p: Progress)
    requires PlainText(t) && !("//" <= t)
    ensures ParseLine(t + "\n", p) == Take(t, p)
    ensures ParseLine(t, p) == Take(t, p)
  {
    CStringPlain(t);
    CStringPlain(t + "\n");
    assert Strip(t + "\n") == t;
    assert |t| >= 2 ==> (t + "\n")[..2] == t[..2];
    assert |t| == 1 ==> (t + "\n")[1] == '\n';
  }

  lemma EqualsAt(key: string, value: string)
    requires ValidName(key)
    ensures Find(key + "=" + value, "=") == |key|
  {
    var s := key + "=" + value;
    NameIsPlain(key);
    forall k | 0 <= k < |key|
      ensures !Occurs("=", s, k)
    {
      assert s[k..k + 1][0] == key[k];
    }
    assert s[|key|..|key| + 1] == "=";
    FindIs(s, "=", |key|);
  }

  lemma TakeKeyValue(key: string, value: string, p: Progress)
    requires ValidName(key)
    ensures Take(key + "=" + value, p)
      == if p.cur == [] then p else p.(sections := Store(p.sections, p.cur, key, value))
  {
    var line := key + "=" + value;
    NameIsPlain(key);
    EqualsAt(key, value);
    assert line[0] == key[0] && line[..|key|] == key && line[|key| + 1..] == value;
  }

  /** What a single left-over character does: a bracket leaves the section. */
  lemma TakeChar(c: char, p: Progress)
    ensures Take([c], p) == if c == '[' then Progress([], p.sections) else p
  {
    assert [c][1..] == [];
    if c != '[' && Find([c], "=") >= 0 {
      assert [c][..0] == [];
    }
  }

  // ---------- reading back what was saved ----------

  /** An entry as Set admits it, with a value of one line. */
  predicate EntryOk(e: Entry) {
    ValidName(e.key) && PlainText(e.value) && |e.key| + |e.value| + 1 <= BUFFER_SIZE
  }

  predicate Fits(e: Entry) {
    |e.key| + |e.value| + 1 < BUFFER_SIZE
  }

  /** The exact effect of an entry's line.  One that does not fit loses the last character of its
      value, or is lost with an empty value; the lost character is a line of its own. */
  function ReadEntry(e: Entry, p: Progress): Progress {
    if p.cur == [] then p
    else if Fits(e) then p.(sections := Store(p.sections, p.cur, e.key, e.value))
    else if e.value == [] then p
    else
      var n := |e.value| - 1;
      Progress(if e.value[n] == '[' then [] else p.cur, Store(p.sections, p.cur, e.key, e.value[..n]))
  }

  lemma EntryRead(e: Entry, rest: string, p: Progress)
    requires EntryOk(e)
    ensures ParseFile(MakeKeyValue(e) + "\n" + rest, p) == ParseFile(rest, ReadEntry(e, p))
  {
    var t := MakeKeyValue(e);
    EntryPlain(e);
    if |t| < BUFFER_SIZE - 1 {
      ShortLine(t, rest, p);
      PlainLine(t, p);
      TakeKeyValue(e.key, e.value, p);
    } else {
      LongEntryRead(e, t, rest, p);
    }
  }

  lemma EntryPlain(e: Entry)
    requires EntryOk(e)
    ensures var t := MakeKeyValue(e); PlainText(t) && t[0] != '/'
  {
    NameIsPlain(e.key);
    assert MakeKeyValue(e)[0] == e.key[0];
  }

  lemma LongEntryRead(e: Entry, t: string, rest: string, p: Progress)
    requires EntryOk(e) && t == MakeKeyValue(e) && PlainText(t) && t[0] != '/' && |t| >= BUFFER_SIZE - 1
    ensures ParseFile(t + "\n" + rest, p) == ParseFile(rest, ReadEntry(e, p))
  {
    var n := BUFFER_SIZE - 1;
    LongLine(t, rest, p);
    assert t[..n][0] == t[0];
    PlainLine(t[..n], p);
    LongEntryTaken(e, t, p);
  }

  /** The two reads of a line that does not fit into one. */
  lemma LongEntryTaken(e: Entry, t: string, p: Progress)
    requires EntryOk(e) && t == MakeKeyValue(e) && BUFFER_SIZE - 1 <= |t|
    ensures var n := BUFFER_SIZE - 1; ParseLine(t[n..] + "\n", Take(t[..n], p)) == ReadEntry(e, p)
  {
    if |t| == BUFFER_SIZE - 1 {
      FullLine(e, t, p);
    } else if e.value == [] {
      CutKey(e.key);
      TakeKeyOnly(e.key, p);
      LeftOver('=', p);
    } else {
      CutLine(e, t, p);
    }
  }

  lemma FullLine(e: Entry, t: string, p: Progress)
    requires EntryOk(e) && t == MakeKeyValue(e) && |t| == BUFFER_SIZE - 1
    ensures ParseLine(t[|t|..] + "\n", Take(t[..|t|], p)) == ReadEntry(e, p)
  {
    assert t[..|t|] == t && t[|t|..] == [];
    TakeKeyValue(e.key, e.value, p);
    NothingLeft(ReadEntry(e, p));
  }

  lemma CutLine(e: Entry, t: string, p: Progress)
    requires EntryOk(e) && t == MakeKeyValue(e) && |t| == BUFFER_SIZE && e.value != []
    ensures ParseLine(t[|t| - 1..] + "\n", Take(t[..|t| - 1], p)) == ReadEntry(e, p)
  {
    CutValue(e.key, e.value);
    TakeKeyValue(e.key, e.value[..|e.value| - 1], p);
    LeftOver(e.value[|e.value| - 1], Take(t[..|t| - 1], p));
  }

  lemma NothingLeft(p: Progress)
    ensures ParseLine([] + "\n", p) == p
  {
    PlainLine([], p);
  }

  lemma CutKey(key: string)
    ensures var t := key + "=" + []; t[..|t| - 1] == key && t[|t| - 1..] == "="
  {
  }

  lemma CutValue(key: string, value: string)
    requires value != []
    ensures var t := key + "=" + value; var m := |value| - 1;
            t[..|t| - 1] == key + "=" + value[..m] && t[|t| - 1..] == [value[m]]
  {
  }

  lemma LeftOver(c: char, p: Progress)
    requires c != '\n' && c != NUL
    ensures ParseLine([c] + "\n", p) == if c == '[' then Progress([], p.sections) else p
  {
    PlainLine([c], p);
    TakeChar(c, p);
  }

  lemma TakeKeyOnly(key: string, p: Progress)
    requires ValidName(key)
    ensures Take(key, p) == p
  {
    NameIsPlain(key);
    if Find(key, "=") >= 0 {
      assert key[Find(key, "=")..Find(key, "=") + 1][0] in key;
    }
  }

  lemma {:induction false} SpanName(name: string, rest: string)
    requires forall i :: 0 <= i < |name| ==> IsNameChar(name[i])
    requires rest != [] && !IsNameChar(rest[0])
    ensures Span(name + rest) == |name|
  {
    if name == [] {
      assert name + rest == rest;
    } else {
      assert (name + rest)[1..] == name[1..] + rest;
      SpanName(name[1..], rest);
    }
  }

  lemma SectionRead(name: string, rest: string, p: Progress)
    requires ValidName(name) && |name| < SECTION_SIZE
    ensures ParseFile(MakeSection(name) + "\n" + rest, p) == ParseFile(rest, Progress(name, Enter(p.sections, name)))
  {
    var t := MakeSection(name);
    NameIsPlain(name);
    ShortLine(t, rest, p);
    PlainLine(t, p);
    TakeName(name, p);
  }

  lemma TakeName(name: string, p: Progress)
    requires ValidName(name) && |name| < SECTION_SIZE
    ensures Take(MakeSection(name), p) == Progress(name, Enter(p.sections, name))
  {
    assert MakeSection(name)[1..] == name + "]";
    SpanName(name, "]");
    assert (name + "]")[..|name|] == name;
  }

  function ReadEntries(entries: seq<Entry>, p: Progress): Progress {
    if entries == [] then p else ReadEntries(entries[1..], ReadEntry(entries[0], p))
  }

  function ReadSections(listing: seq<Section>, p: Progress): Progress {
    if listing == [] then p
    else if listing[0].entries == [] then ReadSections(listing[1..], p)
    else ReadSections(listing[1..],
      ReadEntries(listing[0].entries, Progress(listing[0].name, Enter(p.sections, listing[0].name))))
  }

  predicate SectionOk(s: Section) {
    ValidName(s.name) && |s.name| < SECTION_SIZE && forall i :: 0 <= i < |s.entries| ==> EntryOk(s.entries[i])
  }

  lemma {:induction false} EntriesRead(entries: seq<Entry>, rest: string, p: Progress)
    requires forall i :: 0 <= i < |entries| ==> EntryOk(entries[i])
    ensures ParseFile(PrintEntries(entries) + rest, p) == ParseFile(rest, ReadEntries(entries, p))
    decreases |entries|
  {
    if entries == [] {
      assert PrintEntries(entries) + rest == rest;
    } else {
      var more := PrintEntries(entries[1..]);
      Assoc(MakeKeyValue(entries[0]) + "\n", more, rest);
      EntryRead(entries[0], more + rest, p);
      EntriesRead(entries[1..], rest, ReadEntry(entries[0], p));
    }
  }

  /** Parsing a saved file has exactly the effect of its lines. */
  lemma {:induction false} SavedRead(listing: seq<Section>, p: Progress)
    requires forall i :: 0 <= i < |listing| ==> SectionOk(listing[i])
    ensures ParseFile(PrintSections(listing), p) == ReadSections(listing, p)
    decreases |listing|
  {
    if listing != [] {
      var s, more := listing[0], PrintSections(listing[1..]);
      if s.entries == [] {
        assert [] + more == more;
        SavedRead(listing[1..], p);
      } else {
        var q := Progress(s.name, Enter(p.sections, s.name));
        Assoc(MakeSection(s.name) + "\n", PrintEntries(s.entries), more);
        SectionRead(s.name, PrintEntries(s.entries) + more, p);
        EntriesRead(s.entries, more, q);
        SavedRead(listing[1..], ReadEntries(s.entries, q));
      }
    }
  }

  // ---------- the round trip ----------

  ghost predicate AllFit(listing: seq<Section>) {
    forall i, j :: 0 <= i < |listing| && 0 <= j < |listing[i].entries| ==> Fits(listing[i].entries[j])
  }

  lemma {:induction false} FittingEntries(entries: seq<Entry>, p: Progress)
    requires DistinctKeys(entries) && p.cur != [] && p.cur in p.sections
    requires forall i :: 0 <= i < |entries| ==> Fits(entries[i])
    ensures ReadEntries(entries, p) == p.(sections := p.sections[p.cur := p.sections[p.cur] + KeysOf(entries)])
    decreases |entries|
  {
    if entries == [] {
      assert p.sections[p.cur] + map[] == p.sections[p.cur];
      assert p.sections[p.cur := p.sections[p.cur]] == p.sections;
    } else {
      var e := entries[0];
      var keys := p.sections[p.cur];
      FittingEntries(entries[1..], ReadEntry(e, p));
      KeysOfDomain(entries[1..]);
      assert e.key !in KeysOf(entries[1..]);
      UpdateFirst(keys, e, KeysOf(entries[1..]));
    }
  }

  lemma UpdateFirst(keys: Keys, e: Entry, more: Keys)
    requires e.key !in more
    ensures keys[e.key := e.value] + more == keys + more[e.key := e.value]
  {
  }

  lemma {:induction false} FittingSections(listing: seq<Section>, p: Progress)
    requires Distinct(listing) && AllFit(listing)
    requires forall i :: 0 <= i < |listing| ==> listing[i].name != [] && listing[i].name !in p.sections
    ensures ReadSections(listing, p).sections == p.sections + DropEmpty(SectionsOf(listing))
    decreases |listing|
  {
    if listing != [] {
      SectionsOfDomain(listing[1..]);
      var s, rest := listing[0], SectionsOf(listing[1..]);
      assert s.name !in rest;
      if s.entries == [] {
        FittingSections(listing[1..], p);
        DropEmptyNone(rest, s.name);
      } else {
        var q := Progress(s.name, Enter(p.sections, s.name));
        FittingSection(s, p);
        FittingSections(listing[1..], ReadEntries(s.entries, q));
        DropEmptyCons(rest, s.name, KeysOf(s.entries), p.sections);
      }
    }
  }

  lemma FittingSection(s: Section, p: Progress)
    requires DistinctKeys(s.entries) && s.name != [] && s.name !in p.sections && s.entries != []
    requires forall i :: 0 <= i < |s.entries| ==> Fits(s.entries[i])
    ensures KeysOf(s.entries) != map[]
    ensures ReadEntries(s.entries, Progress(s.name, Enter(p.sections, s.name))).sections
      == p.sections[s.name := KeysOf(s.entries)]
  {
    var q := Progress(s.name, Enter(p.sections, s.name));
    assert s.entries[0].key in KeysOf(s.entries);
    FittingEntries(s.entries, q);
    assert map[] + KeysOf(s.entries) == KeysOf(s.entries);
  }

  lemma DropEmptyNone(rest: Sections, name: string)
    requires name !in rest
    ensures DropEmpty(rest[name := map[]]) == DropEmpty(rest)
  {
  }

  lemma DropEmptyCons(rest: Sections, name: string, keys: Keys, base: Sections)
    requires name !in rest && name !in base && keys != map[]
    ensures base[name := keys] + DropEmpty(rest) == base + DropEmpty(rest[name := keys])
  {
  }

  function ValueAt(s: Sections, name: string, key: string): Option<string> {
    if name in s && key in s[name] then Some(s[name][key]) else None
  }

  /** Once an entry that does not fit has the wrong value, no line puts it right. */
  lemma {:induction false} EntriesStayWrong(entries: seq<Entry>, p: Progress, name: string, e: Entry)
    requires !Fits(e) && name != [] && ValueAt(p.sections, name, e.key) != Some(e.value)
    requires p.cur == name ==> forall i :: 0 <= i < |entries| && entries[i].key == e.key ==> entries[i] == e
    ensures ValueAt(ReadEntries(entries, p).sections, name, e.key) != Some(e.value)
    decreases |entries|
  {
    if entries != [] {
      EntryStaysWrong(entries[0], p, name, e);
      EntriesStayWrong(entries[1..], ReadEntry(entries[0], p), name, e);
    }
  }

  lemma EntryStaysWrong(x: Entry, p: Progress, name: string, e: Entry)
    requires !Fits(e) && ValueAt(p.sections, name, e.key) != Some(e.value)
    requires p.cur == name && x.key == e.key ==> x == e
    ensures ValueAt(ReadEntry(x, p).sections, name, e.key) != Some(e.value)
    ensures ReadEntry(x, p).cur == p.cur || ReadEntry(x, p).cur == []
  {
    if p.cur == name && x.key == e.key && p.cur != [] && e.value != [] {
      var n := |e.value| - 1;
      assert ReadEntry(x, p).sections[name][e.key] == e.value[..n];
    }
  }

  /** No other entry has this section and key. */
  ghost predicate OnlyEntry(listing: seq<Section>, name: string, e: Entry) {
    forall i, j :: 0 <= i < |listing| && 0 <= j < |listing[i].entries| ==>
      (listing[i].name == name && listing[i].entries[j].key == e.key ==> listing[i].entries[j] == e)
  }

  lemma {:induction false} SectionsStayWrong(listing: seq<Section>, p: Progress, name: string, e: Entry)
    requires !Fits(e) && name != [] && ValueAt(p.sections, name, e.key) != Some(e.value)
    requires OnlyEntry(listing, name, e)
    ensures ValueAt(ReadSections(listing, p).sections, name, e.key) != Some(e.value)
    decreases |listing|
  {
    if listing != [] {
      var s := listing[0];
      if s.entries == [] {
        SectionsStayWrong(listing[1..], p, name, e);
      } else {
        var q := Progress(s.name, Enter(p.sections, s.name));
        assert ValueAt(q.sections, name, e.key) == ValueAt(p.sections, name, e.key);
        EntriesStayWrong(s.entries, q, name, e);
        SectionsStayWrong(listing[1..], ReadEntries(s.entries, q), name, e);
      }
    }
  }

  lemma {:induction false} KeysOfValue(entries: seq<Entry>, j: nat)
    requires DistinctKeys(entries) && j < |entries|
    ensures entries[j].key in KeysOf(entries) && KeysOf(entries)[entries[j].key] == entries[j].value
    decreases |entries|
  {
    if j > 0 {
      KeysOfValue(entries[1..], j - 1);
      assert entries[1..][j - 1] == entries[j];
    }
  }

  lemma {:induction false} SectionsOfValue(listing: seq<Section>, i: nat)
    requires Distinct(listing) && i < |listing|
    ensures listing[i].name in SectionsOf(listing) && SectionsOf(listing)[listing[i].name] == KeysOf(listing[i].entries)
    decreases |listing|
  {
    if i > 0 {
      SectionsOfValue(listing[1..], i - 1);
      assert listing[1..][i - 1] == listing[i];
    }
  }

  lemma UniqueEntry(listing: seq<Section>, i: nat, j: nat)
    requires Distinct(listing) && i < |listing| && j < |listing[i].entries|
    ensures OnlyEntry(listing, listing[i].name, listing[i].entries[j])
  {
    forall a, b | 0 <= a < |listing| && 0 <= b < |listing[a].entries| &&
                  listing[a].name == listing[i].name && listing[a].entries[b].key == listing[i].entries[j].key
      ensures listing[a].entries[b] == listing[i].entries[j]
    {
      assert a == i;
      assert DistinctKeys(listing[i].entries);
      assert b == j;
    }
  }

  lemma OversizedIsWrong(listing: seq<Section>, i: nat, j: nat)
    requires Distinct(listing) && i < |listing| && j < |listing[i].entries| && !Fits(listing[i].entries[j])
      && listing[i].name != []
    ensures ReadSections(listing, Progress([], map[])).sections != DropEmpty(SectionsOf(listing))
  {
    var name, e := listing[i].name, listing[i].entries[j];
    UniqueEntry(listing, i, j);
    SectionsStayWrong(listing, Progress([], map[]), name, e);
    SectionsOfValue(listing, i);
    KeysOfValue(listing[i].entries, j);
    assert ValueAt(DropEmpty(SectionsOf(listing)), name, e.key) == Some(e.value);
  }

  /** Saving and parsing gives back the sections that have keys, exactly when every entry, with its
      equals sign, is shorter than the parser's buffer.  Set lets through one character more. */
  lemma RoundTrip(listing: seq<Section>)
    requires Distinct(listing) && forall i :: 0 <= i < |listing| ==> SectionOk(listing[i])
    ensures ParseFile(PrintSections(listing), Progress([], map[])).sections == DropEmpty(SectionsOf(listing))
      <==> AllFit(listing)
  {
    SavedRead(listing, Progress([], map[]));
    LinesRoundTrip(listing);
  }

  lemma LinesRoundTrip(listing: seq<Section>)
    requires Distinct(listing) && forall i :: 0 <= i < |listing| ==> listing[i].name != []
    ensures ReadSections(listing, Progress([], map[])).sections == DropEmpty(SectionsOf(listing)) <==> AllFit(listing)
  {
    if AllFit(listing) {
      FittingSections(listing, Progress([], map[]));
      assert map[] + DropEmpty(SectionsOf(listing)) == DropEmpty(SectionsOf(listing));
    } else {
      var i, j :| 0 <= i < |listing| && 0 <= j < |listing[i].entries| && !Fits(listing[i].entries[j]);
      OversizedIsWrong(listing, i, j);
    }
  }

  /** The same about the map that was saved, whatever order Save visits it in. */
  ghost predicate Storable(s: Sections) {
    forall n :: n in s ==> ValidName(n) && |n| < SECTION_SIZE && forall k :: k in s[n] ==> EntryOk(Entry(k, s[n][k]))
  }

  ghost predicate MapFits(s: Sections) {
    forall n, k :: n in s && k in s[n] ==> Fits(Entry(k, s[n][k]))
  }

  lemma MapRoundTrip(listing: seq<Section>, s: Sections)
    requires Distinct(listing) && SectionsOf(listing) == s && Storable(s)
    ensures ParseFile(PrintSections(listing), Progress([], map[])).sections == DropEmpty(s) <==> MapFits(s)
  {
    forall i | 0 <= i < |listing|
      ensures SectionOk(listing[i])
    {
      SectionsOfValue(listing, i);
      forall j | 0 <= j < |listing[i].entries|
        ensures EntryOk(listing[i].entries[j])
      {
        KeysOfValue(listing[i].entries, j);
      }
    }
    RoundTrip(listing);
    FitsAlike(listing, s);
  }

  lemma FitsAlike(listing: seq<Section>, s: Sections)
    requires Distinct(listing) && SectionsOf(listing) == s
    ensures AllFit(listing) <==> MapFits(s)
  {
    if MapFits(s) {
      forall i, j | 0 <= i < |listing| && 0 <= j < |listing[i].entries|
        ensures Fits(listing[i].entries[j])
      {
        SectionsOfValue(listing, i);
        KeysOfValue(listing[i].entries, j);
      }
    }
    if AllFit(listing) {
      forall n, k | n in s && k in s[n]
        ensures Fits(Entry(k, s[n][k]))
      {
        SectionsOfDomain(listing);
        var i :| 0 <= i < |listing| && listing[i].name == n;
        SectionsOfValue(listing, i);
        KeysOfDomain(listing[i].entries);
        var j :| 0 <= j < |listing[i].entries| && listing[i].entries[j].key == k;
        KeysOfValue(listing[i].entries, j);
      }
    }
  }

  /** A store that Set accepts and that does not come back: one key with 4094 characters. */
  lemma OneTooMany()
    ensures var value := seq(BUFFER_SIZE - 2, i => 'x');
            var listing := [Section("s", [Entry("k", value)])];
            && EntryOk(Entry("k", value))
            && ParseFile(PrintSections(listing), Progress([], map[])).sections != DropEmpty(SectionsOf(listing))
  {
    var value := seq(BUFFER_SIZE - 2, i => 'x');
    var e := Entry("k", value);
    var listing := [Section("s", [e])];
    assert EntryOk(e) && !Fits(listing[0].entries[0]);
    RoundTrip(listing);
  }

  // ---------- the store ----------

  class INI {
    var sections: Sections
    var current: string

    /** Every name has passed VerifyName. */
    ghost predicate Valid()
      reads this
    {
      forall n :: n in sections ==> ValidName(n) && forall k :: k in sections[n] ==> ValidName(k)
    }

    constructor ()
      ensures Valid() && sections == map[] && current == []
    {
      sections, current := map[], [];
    }

    method Select(section: string) returns (ok: bool)
      modifies this`current
      ensures ok == (ValidName(section) && section in sections)
      ensures current == if ok then section else old(current)
    {
      var valid := VerifyName(section);
      ok := valid && section in sections;
      if ok {
        current := section;
      }
    }

    method Create(section: string) returns (ok: bool)
      requires Valid()
      modifies this
      ensures Valid() && ok == (ValidName(section) && section !in old(sections))
      ensures sections == if ok then old(sections)[section := map[]] else old(sections)
      ensures current == if ValidName(section) then section else old(current)
    {
      var valid := VerifyName(section);
      if !valid {
        return false;
      }
      var selected := Select(section);
      if selected {
        return false;
      }
      current := section;
      sections := sections[section := map[]];
      ok := true;
    }

    method Set(section: string, key: string, value: string) returns (ok: bool)
      requires Valid()
      modifies this`sections
      ensures Valid() && ok == (ValidName(section) && ValidName(key) && |key| + |value| + 1 <= BUFFER_SIZE)
      ensures sections == if ok then Store(old(sections), section, key, value) else old(sections)
    {
      var validSection := VerifyName(section);
      if !validSection {
        return false;
      }
      var validKey := VerifyName(key);
      if !validKey {
        return false;
      }
      if BUFFER_SIZE < |key| + |value| + 1 {
        return false;
      }
      sections := Store(sections, section, key, value);
      ok := true;
    }

    /** Get: looking a key up creates its section. */
    method Get(section: string, key: string, default: string) returns (value: string)
      requires Valid()
      modifies this`sections
      ensures Valid()
      ensures sections == if ValidName(section) && ValidName(key) then Enter(old(sections), section) else old(sections)
      ensures DropEmpty(sections) == DropEmpty(old(sections))
      ensures var found := ValueAt(old(sections), section, key);
              value == if ValidName(section) && ValidName(key) && found.Some? then found.value else default
    {
      value := default;
      EnterKeeps(sections, section);
      var validSection := VerifyName(section);
      var validKey := VerifyName(key);
      if validSection && validKey {
        sections := Enter(sections, section);
        if key in sections[section] {
          value := sections[section][key];
        }
      }
    }

    /** The loop over the lines that fgets reads. */
    method Parse(file: string)
      requires Valid()
      modifies this`sections
      ensures Valid() && sections == ParseFile(file, Progress([], old(sections))).sections
    {
      var rest, cur := file, "";
      while rest != []
        invariant Valid() && (cur == [] || ValidName(cur))
        invariant ParseFile(rest, Progress(cur, sections)) == ParseFile(file, Progress([], old(sections)))
        decreases |rest|
      {
        var n := LineLength(rest);
        var next := ParseLine(rest[..n], Progress(cur, sections));
        LineKeepsNames(rest[..n], Progress(cur, sections));
        rest, cur, sections := rest[n..], next.cur, next.sections;
      }
    }

    /** Save visits the sections and keys in some order, and writes what it visits. */
    method Save() returns (file: string)
      ensures IsSaved(file, sections)
    {
      file := [];
      ghost var listing := [];
      var left := sections.Keys;
      while left != {}
        invariant file == PrintSections(listing) && ListsRest(listing, sections, left)
      {
        var name :| name in left;
        var text := SaveKeys(sections[name]);
        ghost var entries := EntriesSaved(text, sections[name]);
        if sections[name] != map[] {
          file := file + ("[" + name + "]" + "\n" + text);
        }
        ListSection(listing, sections, left, name, entries);
        PrintAppend(listing, Section(name, entries));
        listing := listing + [Section(name, entries)];
        left := left - {name};
      }
      NothingIsLeft(sections);
    }

    /** Save, and Parse in another store: what comes back is what was saved, exactly when it fits. */
    method Reload() returns (copy: INI)
      requires Valid() && Storable(sections)
      ensures fresh(copy) && copy.Valid()
      ensures copy.sections == DropEmpty(sections) <==> MapFits(sections)
    {
      var file := Save();
      SavedRoundTrip(file, sections);
      copy := new INI();
      copy.Parse(file);
    }

    method SaveKeys(keys: Keys) returns (text: string)
      ensures AreSaved(text, keys)
    {
      text := [];
      ghost var entries := [];
      var left := keys.Keys;
      while left != {}
        invariant text == PrintEntries(entries) && ListsKeys(entries, keys, left)
      {
        var key :| key in left;
        text := text + (key + "=" + keys[key] + "\n");
        ListKey(entries, keys, left, key);
        PrintEntriesAppend(entries, Entry(key, keys[key]));
        entries := entries + [Entry(key, keys[key])];
        left := left - {key};
      }
      NothingIsLeft(keys);
    }
  }

  /** The text of the keys, each once, in some order. */
  ghost predicate AreSaved(text: string, keys: Keys) {
    exists entries :: DistinctKeys(entries) && KeysOf(entries) == keys && text == PrintEntries(entries)
  }

  /** The text of the sections, each once, in some order. */
  ghost predicate IsSaved(file: string, sections: Sections) {
    exists listing :: Distinct(listing) && SectionsOf(listing) == sections && file == PrintSections(listing)
  }

  ghost function EntriesSaved(text: string, keys: Keys): (entries: seq<Entry>)
    requires AreSaved(text, keys)
    ensures DistinctKeys(entries) && KeysOf(entries) == keys && text == PrintEntries(entries)
  {
    var entries :| DistinctKeys(entries) && KeysOf(entries) == keys && text == PrintEntries(entries);
    entries
  }

  /** Any file that Save may write for a store gives it back, exactly when every entry fits. */
  lemma SavedRoundTrip(file: string, s: Sections)
    requires IsSaved(file, s) && Storable(s)
    ensures ParseFile(file, Progress([], map[])).sections == DropEmpty(s) <==> MapFits(s)
  {
    var listing :| Distinct(listing) && SectionsOf(listing) == s && file == PrintSections(listing);
    MapRoundTrip(listing, s);
  }

  /** The entries list the keys that are not left. */
  ghost predicate ListsKeys(entries: seq<Entry>, keys: Keys, left: set<string>) {
    left <= keys.Keys && DistinctKeys(entries) && KeysOf(entries) == keys - left
  }

  lemma ListKey(entries: seq<Entry>, keys: Keys, left: set<string>, key: string)
    requires ListsKeys(entries, keys, left) && key in left
    ensures ListsKeys(entries + [Entry(key, keys[key])], keys, left - {key})
  {
    KeysOfDomain(entries);
    assert key !in KeysOf(entries);
    KeysOfAppend(entries, Entry(key, keys[key]));
    LessOne(keys, left, key);
  }

  lemma LessOne<T>(all: map<string, T>, left: set<string>, key: string)
    requires left <= all.Keys && key in left
    ensures (all - left)[key := all[key]] == all - (left - {key})
  {
  }

  lemma NothingIsLeft<T>(all: map<string, T>)
    ensures all - {} == all
  {
  }

  ghost predicate ListsRest(listing: seq<Section>, all: Sections, left: set<string>) {
    left <= all.Keys && Distinct(listing) && SectionsOf(listing) == all - left
  }

  lemma ListSection(listing: seq<Section>, all: Sections, left: set<string>, name: string, entries: seq<Entry>)
    requires ListsRest(listing, all, left) && name in left && DistinctKeys(entries) && KeysOf(entries) == all[name]
    ensures ListsRest(listing + [Section(name, entries)], all, left - {name})
    ensures all[name] == map[] <==> entries == []
  {
    SectionsOfDomain(listing);
    assert name !in SectionsOf(listing);
    SectionsOfAppend(listing, Section(name, entries));
    LessOne(all, left, name);
    KeysOfDomain(entries);
    assert entries != [] ==> entries[0].key in KeysOf(entries);
  }

  lemma EnterKeeps(s: Sections, name: string)
    ensures DropEmpty(Enter(s, name)) == DropEmpty(s)
  {
    if name !in s {
      DropEmptyNone(s, name);
    }
  }

  lemma {:induction false} PrintEntriesAppend(entries: seq<Entry>, e: Entry)
    ensures PrintEntries(entries + [e]) == PrintEntries(entries) + (MakeKeyValue(e) + "\n")
    decreases |entries|
  {
    if entries == [] {
      assert (entries + [e])[1..] == [];
    } else {
      assert (entries + [e])[1..] == entries[1..] + [e];
      PrintEntriesAppend(entries[1..], e);
    }
  }

  lemma {:induction false} PrintAppend(listing: seq<Section>, s: Section)
    ensures PrintSections(listing + [s]) == PrintSections(listing) + PrintSection(s)
    decreases |listing|
  {
    if listing == [] {
      assert (listing + [s])[1..] == [];
      assert PrintSection(s) + [] == PrintSection(s) == [] + PrintSection(s);
    } else {
      RestAppend(listing, [s]);
      PrintAppend(listing[1..], s);
      Assoc(PrintSection(listing[0]), PrintSections(listing[1..]), PrintSection(s));
    }
  }

  ghost predicate NamesOk(p: Progress) {
    (p.cur == [] || ValidName(p.cur)) &&
    forall n :: n in p.sections ==> ValidName(n) && forall k :: k in p.sections[n] ==> ValidName(k)
  }

  lemma LineKeepsNames(raw: string, p: Progress)
    requires NamesOk(p)
    ensures NamesOk(ParseLine(raw, p))
  {
  }
}
