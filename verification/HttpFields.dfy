/** How header lines and numbers may be written, as marsksim/comm/http.cc reads them. */
module HttpFields {
  import opened Seqs
  import opened Options
  import opened Strings
  import opened HttpText

  predicate Blank(w: string) {
    forall i :: 0 <= i < |w| ==> IsWhiteSpace(w[i])
  }

  // ---------- trimming ----------

  lemma {:induction false} TrimLeftIs(w: string, s: string)
    requires Blank(w) && (s == [] || !IsWhiteSpace(s[0]))
    ensures TrimLeft(w + s) == s
  {
    if w == [] {
      assert w + s == s;
    } else {
      RestAppend(w, s);
      TrimLeftIs(w[1..], s);
    }
  }

  lemma {:induction false} TrimRightIs(s: string, w: string)
    requires Blank(w) && (s == [] || !IsWhiteSpace(s[|s| - 1]))
    ensures TrimRight(s + w) == s
    decreases |w|
  {
    if w == [] {
      assert s + w == s;
    } else {
      var n := |w| - 1;
      assert (s + w)[..|s + w| - 1] == s + w[..n] && (s + w)[|s + w| - 1] == w[n];
      TrimRightIs(s, w[..n]);
    }
  }

  /** Trim takes exactly the white space at both ends. */
  lemma TrimIs(w1: string, s: string, w2: string)
    requires Blank(w1) && Blank(w2) && Trimmed(s)
    ensures Trim(w1 + (s + w2)) == s
  {
    if s == [] {
      assert s + w2 == w2 && w1 + w2 + [] == w1 + w2;
      TrimLeftIs(w1 + w2, []);
    } else {
      assert (s + w2)[0] == s[0];
      TrimLeftIs(w1, s + w2);
      TrimRightIs(s, w2);
    }
  }

  // ---------- header lines ----------

  lemma ColonAt(name: string, rest: string)
    requires ':' !in name
    ensures Find(name + ":" + rest, ":") == |name|
  {
    var s := name + ":" + rest;
    forall k | 0 <= k < |name|
      ensures !Occurs(":", s, k)
    {
      assert s[k..k + 1][0] == name[k];
    }
    assert s[|name|..|name| + 1] == ":";
    FindIs(s, ":", |name|);
  }

  /** White space around the name and around the value does not count. */
  lemma SpacedLine(done: seq<Header>, w1: string, name: string, w2: string, w3: string, value: string, w4: string)
    requires Blank(w1) && Blank(w2) && Blank(w3) && Blank(w4)
    requires Trimmed(name) && Trimmed(value) && ':' !in name && w3 + (value + w4) != []
    requires !AllColons(w1 + (name + w2) + ":" + (w3 + (value + w4)))
    ensures ParseLine(done, w1 + (name + w2) + ":" + (w3 + (value + w4))) == Insert(done, Header(name, value))
  {
    var n, v := w1 + (name + w2), w3 + (value + w4);
    assert ':' !in n;
    ColonAt(n, v);
    assert (n + ":" + v)[..|n|] == n && (n + ":" + v)[|n| + 1..] == v;
    TrimIs(w1, name, w2);
    TrimIs(w3, value, w4);
  }

  /** The first value of a name stays, however the second one writes it. */
  lemma FirstValueStays(done: seq<Header>, h: Header, i: nat)
    requires i < |done| && SameName(done[i].name, h.name)
    ensures Insert(done, h) == done
  {
    LowerSame(done[i].name, h.name);
  }

  /** A line without a colon becomes a field whose name and value are both the line. */
  lemma LineWithoutColon(done: seq<Header>, w1: string, text: string, w2: string)
    requires Blank(w1) && Blank(w2) && Trimmed(text) && text != [] && ':' !in text
    ensures ParseLine(done, w1 + (text + w2)) == Insert(done, Header(text, text))
  {
    var line := w1 + (text + w2);
    assert ':' !in line && line[|w1|] == text[0];
    FindNone(line, ':');
    TrimIs(w1, text, w2);
  }

  /** A name with nothing behind its colon is dropped, and so are the empty line and colons alone. */
  lemma DroppedLines(done: seq<Header>, name: string)
    requires ':' !in name
    ensures ParseLine(done, name + ":") == done && ParseLine(done, []) == done && ParseLine(done, ":::") == done
  {
    assert name + ":" + [] == name + ":";
    ColonAt(name, []);
  }

  // ---------- numbers ----------

  /** strtol skips white space and takes a sign. */
  lemma SignedNumber(w: string, n: nat)
    requires Blank(w)
    ensures StrToL(w + ("-" + Numeral(n, 10)), 10) == Clamp(-(n as int))
    ensures StrToL(w + ("+" + Numeral(n, 10)), 10) == Clamp(n)
  {
    var d := Numeral(n, 10);
    TrimLeftIs(w, "-" + d);
    TrimLeftIs(w, "+" + d);
    ConsRest('-', d);
    ConsRest('+', d);
    DigitsNumeral(n, 10, []);
    assert d + [] == d;
  }

  /** A hexadecimal number may carry the prefix 0x or 0X, and ends at the first other character. */
  lemma PrefixedNumber(n: nat, x: char, tail: string)
    requires (x == 'x' || x == 'X') && (tail == [] || Digit(tail[0], 16) < 0)
    ensures StrToL(['0', x] + (Numeral(n, 16) + tail), 16) == Clamp(n)
  {
    var d := Numeral(n, 16);
    var s := ['0', x] + (d + tail);
    NumeralDigits(n, 16);
    assert Digit(d[0], 16) >= 0 && s[0] == '0' && s[1] == x && s[2] == d[0] && s[2..] == d + tail;
    DigitsNumeral(n, 16, tail);
  }

  /** Hexadecimal digits are small letters. */
  lemma KnownNumerals()
    ensures Numeral(0xabc, 16) == "abc" && Numeral(405, 10) == "405" && Numeral(0, 16) == "0"
  {
    assert Numeral(0xa, 16) == "a" && Numeral(0xab, 16) == "a" + "b" == "ab";
    assert Numeral(4, 10) == "4" && Numeral(40, 10) == "4" + "0" == "40";
    assert Numeral(0xabc, 16) == "ab" + "c" && Numeral(405, 10) == "40" + "5";
  }
}
