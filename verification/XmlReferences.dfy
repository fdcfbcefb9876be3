/** What character references and line ends of a text stand for once it is flushed. */
module XmlReferences {
  import opened Seqs
  import opened Strings
  import opened XmlText

  // ---------- numbers ----------

  /** A reference to a number, in decimal or in hexadecimal. */
  function Reference(n: nat, hex: bool): string {
    (if hex then "&#x" else "&#") + Numeral(n, if hex then 16 else 10) + ";"
  }

  /** The numeral of n ends at position i, behind the stop character. */
  ghost predicate NumeralAt(s: string, i: nat, stop: char, radix: nat, n: nat)
    requires radix == 10 || radix == 16
  {
    var k := |Numeral(n, radix)|;
    k < i <= |s| && s[i - k..i] == Numeral(n, radix) && s[i - k - 1] == stop && Digit(stop, radix) < 0
  }

  lemma NumeralEnd(s: string, i: nat, stop: char, radix: nat, n: nat)
    requires (radix == 10 || radix == 16) && NumeralAt(s, i, stop, radix, n)
    ensures 1 < i <= |s| && s[i - 1] != stop && Digit(s[i - 1], radix) == n % radix
    ensures n < radix ==> s[i - 2] == stop
    ensures n >= radix ==> NumeralAt(s, i - 1, stop, radix, n / radix)
  {
    LastDigit(s, i, radix, n);
    DigitChars(n % radix, radix);
    if n >= radix {
      FrontDigits(s, i, radix, n);
    }
  }

  /** Reading the digits backwards from position i gives n times the multiplier. */
  lemma {:induction false} DigitsRead(s: string, i: nat, stop: char, radix: nat, n: nat, mult: nat)
    requires (radix == 10 || radix == 16) && NumeralAt(s, i, stop, radix, n)
    requires mult >= 1 && n * mult < 0x1_0000_0000
    ensures ReadDigits(s, i, stop, radix, mult) == n * mult
    decreases n
  {
    NumeralEnd(s, i, stop, radix, n);
    if n < radix {
      OneDigit(s, i, stop, radix, n, mult);
    } else {
      var more, high, low := Weights(n, n / radix, n % radix, radix, mult);
      DigitsRead(s, i - 1, stop, radix, n / radix, more);
      MoreDigits(s, i, stop, radix, mult, n % radix, more, high, low);
    }
  }

  lemma DigitChars(d: nat, radix: nat)
    requires (radix == 10 || radix == 16) && d < radix
    ensures Digit(DigitChar(d), radix) == d
  {
  }

  lemma LastDigit(s: string, i: nat, radix: nat, n: nat)
    requires (radix == 10 || radix == 16) && |Numeral(n, radix)| <= i <= |s|
    requires s[i - |Numeral(n, radix)|..i] == Numeral(n, radix)
    ensures s[i - 1] == DigitChar(n % radix)
  {
    var k := |Numeral(n, radix)|;
    assert s[i - k..i][k - 1] == s[i - 1];
  }

  lemma FrontDigits(s: string, i: nat, radix: nat, n: nat)
    requires (radix == 10 || radix == 16) && n >= radix && |Numeral(n, radix)| <= i <= |s|
    requires s[i - |Numeral(n, radix)|..i] == Numeral(n, radix)
    ensures var q := Numeral(n / radix, radix); |Numeral(n, radix)| == |q| + 1 && s[i - 1 - |q|..i - 1] == q
  {
    var k := |Numeral(n, radix)|;
    assert s[i - k..i][..k - 1] == s[i - k..i - 1];
  }

  lemma OneDigit(s: string, i: nat, stop: char, radix: nat, n: nat, mult: nat)
    requires 1 < i <= |s| && s[i - 1] != stop && Digit(s[i - 1], radix) == n && s[i - 2] == stop
    requires n * mult < 0x1_0000_0000
    ensures ReadDigits(s, i, stop, radix, mult) == n * mult
  {
    assert mult * n == n * mult;
  }

  lemma MoreDigits(s: string, i: nat, stop: char, radix: nat, mult: nat, d: nat, more: nat, high: nat, low: nat)
    requires 0 < i <= |s| && s[i - 1] != stop && Digit(s[i - 1], radix) == d
    requires more == mult * radix < 0x1_0000_0000 && low == mult * d < 0x1_0000_0000
    requires ReadDigits(s, i - 1, stop, radix, more) == high
    ensures ReadDigits(s, i, stop, radix, mult) == high + low
  {
  }

  /** The parts of n * mult: the next multiplier, the other digits and the last one. */
  lemma Weights(n: nat, q: nat, d: nat, radix: nat, mult: nat) returns (more: nat, high: nat, low: nat)
    requires (radix == 10 || radix == 16) && n >= radix && q == n / radix && d == n % radix
    requires mult >= 1 && n * mult < 0x1_0000_0000
    ensures more == mult * radix && high == q * more && low == mult * d && high + low == n * mult
    ensures 1 <= more < 0x1_0000_0000 && high < 0x1_0000_0000 && low < 0x1_0000_0000
  {
    more, low := mult * radix, mult * d;
    high := q * more;
    assert n == q * radix + d;
    Expand(q, radix, d, mult);
    AtLeast(q, more);
  }

  lemma Expand(q: nat, radix: nat, d: nat, mult: nat)
    ensures (q * radix + d) * mult == q * (mult * radix) + mult * d
  {
    assert (q * radix) * mult == q * (mult * radix);
  }

  lemma AtLeast(q: nat, x: nat)
    requires q >= 1
    ensures q * x >= x
  {
  }

  /** Every reference is read as its number. */
  lemma ReferenceRead(n: nat, hex: bool, rest: string)
    requires n < 0x1_0000_0000
    ensures CharacterRef(Reference(n, hex) + rest) == (|Reference(n, hex)|, Utf8(n))
  {
    var d := Numeral(n, if hex then 16 else 10);
    ReferenceText(n, hex, rest);
    SemicolonAt(d, if hex then 16 else 10, n, rest);
    NotHex(n, hex);
    ReferenceDigits(n, hex, rest);
    ReferenceFrom(Reference(n, hex) + rest, hex, |d|, n);
  }

  /** The digits of a decimal reference do not begin with an x. */
  lemma NotHex(n: nat, hex: bool)
    ensures Numeral(n, if hex then 16 else 10)[0] != 'x'
  {
    var radix := if hex then 16 else 10;
    NumeralDigits(n, radix);
    assert Digit(Numeral(n, radix)[0], radix) >= 0;
  }

  lemma ReferenceDigits(n: nat, hex: bool, rest: string)
    requires n < 0x1_0000_0000
    ensures var s, from, radix := Reference(n, hex) + rest, if hex then 3 else 2, if hex then 16 else 10;
            var i := from + |Numeral(n, radix)|;
            i <= |s| && ReadDigits(s, i, if hex then 'x' else '#', radix, 1) == n
  {
    var s, from, radix := Reference(n, hex) + rest, if hex then 3 else 2, if hex then 16 else 10;
    ReferenceText(n, hex, rest);
    DigitsRead(s, from + |Numeral(n, radix)|, if hex then 'x' else '#', radix, n, 1);
  }

  lemma ReferenceFrom(s: string, hex: bool, semi: nat, n: nat)
    requires var from := if hex then 3 else 2;
             && 3 < from + semi + 1 <= |s| && s[0] == '&' && s[1] == '#' && (s[2] == 'x' <==> hex)
             && Find(s[from..], ";") == semi
             && ReadDigits(s, from + semi, if hex then 'x' else '#', if hex then 16 else 10, 1) == n
    ensures CharacterRef(s) == ((if hex then 3 else 2) + semi + 1, Utf8(n))
  {
  }

  lemma ReferenceText(n: nat, hex: bool, rest: string)
    ensures var s, from := Reference(n, hex) + rest, if hex then 3 else 2;
            var d := Numeral(n, if hex then 16 else 10);
            && |Reference(n, hex)| == from + |d| + 1 <= |s|
            && s[0] == '&' && s[1] == '#' && s[2] == (if hex then 'x' else d[0])
            && s[from..] == d + ";" + rest && s[from..from + |d|] == d && s[from - 1] == (if hex then 'x' else '#')
  {
  }

  lemma SemicolonAt(d: string, radix: nat, n: nat, rest: string)
    requires (radix == 10 || radix == 16) && d == Numeral(n, radix)
    ensures Find(d + ";" + rest, ";") == |d|
  {
    NumeralDigits(n, radix);
    assert forall k :: 0 <= k < |d| ==> Digit(d[k], radix) >= 0;
    PlainSemicolon(d, rest);
  }

  // ---------- texts that are no references ----------

  /** At the end of the text the ampersand is dropped. */
  lemma BareReference()
    ensures NextStep("&#", true) == FlushStep(1, [])
  {
  }

  /** Without a semicolon, or with another character in front of it, the ampersand stands for itself. */
  lemma UnendedReference(rest: string)
    requires rest != [] && ';' !in rest
    ensures NextStep("&#" + rest, true) == FlushStep(1, "&")
  {
    var s := "&#" + rest;
    var from := if s[2] == 'x' then 3 else 2;
    assert forall c :: c in s[from..] ==> c in rest;
    FindNone(s[from..], ';');
  }

  lemma BadReference(y: string, c: char, rest: string)
    requires Digit(c, 10) < 0 && c != '#' && c != ';' && ';' !in y && (y + [c])[0] != 'x'
    ensures NextStep("&#" + ((y + [c]) + ";" + rest), true) == FlushStep(1, "&")
  {
    var d := y + [c];
    var s := "&#" + (d + ";" + rest);
    assert s[2] == d[0] && s[2..] == d + ";" + rest && s[2 + |d| - 1] == c;
    PlainSemicolon(d, rest);
  }

  lemma PlainSemicolon(d: string, rest: string)
    requires ';' !in d
    ensures Find(d + ";" + rest, ";") == |d|
  {
    var s := d + ";" + rest;
    forall k | 0 <= k < |d|
      ensures !Occurs(";", s, k)
    {
      assert s[k..k + 1][0] == d[k];
    }
    assert s[|d|..|d| + 1] == ";";
    FindIs(s, ";", |d|);
  }

  // ---------- UTF-8 ----------

  /** The low six bits of a continuation byte. */
  function Low(c: char): int {
    c as int - 0x80
  }

  predicate IsContinuation(c: char) {
    0x80 <= c as int < 0xC0
  }

  /** The number that a UTF-8 sequence of one to four bytes stands for, section 3 of RFC 3629; -1 for others. */
  function Utf8Value(s: string): int {
    if |s| == 1 && s[0] as int < 0x80 then s[0] as int
    else if |s| == 2 && 0xC0 <= s[0] as int < 0xE0 && IsContinuation(s[1]) then
      (s[0] as int - 0xC0) * 64 + Low(s[1])
    else if |s| == 3 && 0xE0 <= s[0] as int < 0xF0 && IsContinuation(s[1]) && IsContinuation(s[2]) then
      ((s[0] as int - 0xE0) * 64 + Low(s[1])) * 64 + Low(s[2])
    else if |s| == 4 && 0xF0 <= s[0] as int < 0xF8 && forall i :: 1 <= i < 4 ==> IsContinuation(s[i]) then
      (((s[0] as int - 0xF0) * 64 + Low(s[1])) * 64 + Low(s[2])) * 64 + Low(s[3])
    else -1
  }

  /** The bytes of a number decode to it, and are as few as can be. */
  lemma Utf8Decodes(n: nat)
    requires n < 0x20_0000
    ensures Utf8Value(Utf8(n)) == n
    ensures |Utf8(n)| == if n < 0x80 then 1 else if n < 0x800 then 2 else if n < 0x1_0000 then 3 else 4
  {
    assert n == (n / 64) * 64 + n % 64;
    assert n / 64 == (n / 4096) * 64 + n / 64 % 64;
    assert n / 4096 == (n / 0x40000) * 64 + n / 4096 % 64;
  }

  /** Larger numbers are written as nothing. */
  lemma Utf8TooLarge(n: nat)
    requires n >= 0x20_0000
    ensures Utf8(n) == []
  {
  }

  /** Flushing a reference to a character gives that character, in either form. */
  lemma ReferenceFlushed(n: nat, hex: bool)
    requires 0 < n < 0x80
    ensures Flushed(Reference(n, hex), true) == [n as char]
  {
    var r, c := Reference(n, hex), [n as char];
    ReferenceStep(n, hex);
    assert r[|r|..] == [];
    StepsCons(r, true, |r|, c, []);
    OneStep(r, |r|, c);
    CStringPlain(c);
  }

  lemma ReferenceStep(n: nat, hex: bool)
    requires 0 < n < 0x80
    ensures NextStep(Reference(n, hex), true) == FlushStep(|Reference(n, hex)|, [n as char])
  {
    var r := Reference(n, hex);
    assert r + [] == r;
    ReferenceRead(n, hex, []);
    ReferenceText(n, hex, []);
  }

  lemma OneStep(seg: string, n: nat, w: string)
    ensures Write(seg, [FlushStep(n, w)] + Steps([], true), []) == w
  {
    assert [FlushStep(n, w)] + Steps([], true) == [FlushStep(n, w)] + [];
    WriteCons(seg, FlushStep(n, w), [], []);
    assert [] + w == w;
  }

  // ---------- line ends ----------

  /** The four ways of ending a line. */
  predicate IsLineEnd(sep: string) {
    sep == [LF] || sep == [CR] || sep == [CR, LF] || sep == [LF, CR]
  }

  predicate IsLine(s: string) {
    CR !in s && LF !in s
  }

  function Lines(lines: seq<string>, sep: string): string {
    if lines == [] then [] else lines[0] + (sep + Lines(lines[1..], sep))
  }

  /** A line end, and what may follow it: another line, or its own like. */
  lemma LineEndStep(sep: string, rest: string)
    requires IsLineEnd(sep) && (rest == [] || (rest[0] != CR && rest[0] != LF) || rest[0] == sep[0])
    ensures NextStep(sep + rest, false) == FlushStep(|sep|, [LF])
  {
    var s := sep + rest;
    assert s[0] == sep[0];
    assert |sep| == 2 ==> s[1] == sep[1];
    assert |sep| == 1 && rest != [] ==> s[1] == rest[0];
  }

  lemma {:induction false} LineRead(line: string, rest: string, seg: string, out: string)
    requires IsLine(line)
    ensures Write(seg, Steps(line + rest, false), out) == Write(seg, Steps(rest, false), out + line)
    decreases |line|
  {
    if line == [] {
      assert line + rest == rest && out + line == out;
    } else {
      RestAppend(line, rest);
      var c := line[0];
      assert c in line;
      StepsCons(line + rest, false, 1, [c], line[1..] + rest);
      WriteCons(seg, FlushStep(1, [c]), Steps(line[1..] + rest, false), out);
      LineRead(line[1..], rest, seg, out + [c]);
      Shift(out, line);
    }
  }

  /** Whatever ends its lines, a flushed text ends them with a line feed. */
  lemma {:induction false} LinesNormalised(lines: seq<string>, sep: string, seg: string, out: string)
    requires IsLineEnd(sep) && forall i :: 0 <= i < |lines| ==> IsLine(lines[i])
    ensures Write(seg, Steps(Lines(lines, sep), false), out) == out + Lines(lines, [LF])
    decreases |lines|
  {
    if lines == [] {
      assert out + [] == out;
    } else {
      var line, rest := lines[0], Lines(lines[1..], sep);
      LineRead(line, sep + rest, seg, out);
      LinesStart(lines[1..], sep);
      LineEndStep(sep, rest);
      PrefixSame(sep, rest, |sep|);
      assert sep[|sep|..] + rest == rest;
      StepsCons(sep + rest, false, |sep|, [LF], rest);
      WriteCons(seg, FlushStep(|sep|, [LF]), Steps(rest, false), out + line);
      LinesNormalised(lines[1..], sep, seg, out + line + [LF]);
      LinesRegroup(out, line, Lines(lines[1..], [LF]));
    }
  }

  lemma LinesRegroup(out: string, line: string, rest: string)
    ensures out + line + [LF] + rest == out + (line + ([LF] + rest))
  {
  }

  lemma LinesStart(lines: seq<string>, sep: string)
    requires IsLineEnd(sep) && forall i :: 0 <= i < |lines| ==> IsLine(lines[i])
    ensures var s := Lines(lines, sep); s == [] || (s[0] != CR && s[0] != LF) || s[0] == sep[0]
  {
    if lines != [] && lines[0] != [] {
      assert lines[0][0] in lines[0];
    }
  }

  lemma NewlinesNormalised(lines: seq<string>, sep: string)
    requires IsLineEnd(sep) && forall i :: 0 <= i < |lines| ==> IsLine(lines[i])
    ensures Flush(Lines(lines, sep), false) == Lines(lines, [LF])
  {
    LinesNormalised(lines, sep, Lines(lines, sep), []);
    assert [] + Lines(lines, [LF]) == Lines(lines, [LF]);
  }
}
