/**
  C strings: a char stands for one byte, and a `char*` into a NUL-terminated text is the suffix of
  the text it points at, so the end of the text is the empty suffix.
 */
module Strings {

  const NUL: char := '\0'

  predicate IsWhiteSpace(c: char) {
    9 <= c as int <= 13 || c == ' '
  }

  function SkipWhiteSpace(p: string): (q: string)
    ensures |q| <= |p|
  {
    if p != [] && IsWhiteSpace(p[0]) then SkipWhiteSpace(p[1..]) else p
  }

  /** Value of a digit, or -1. */
  function Digit(c: char, radix: int): int {
    if '0' <= c <= '9' then c as int - '0' as int
    else if radix == 16 && 'a' <= c <= 'f' then c as int - 'a' as int + 10
    else if radix == 16 && 'A' <= c <= 'F' then c as int - 'A' as int + 10
    else -1
  }

  // ---------- numerals ----------

  function DigitChar(d: nat): char
    requires d < 16
  {
    if d < 10 then '0' + d as char else 'a' + (d - 10) as char
  }

  /** "%x" for base 16, "%d" of a natural number for base 10. */
  function Numeral(n: nat, base: nat): (s: string)
    requires base == 10 || base == 16
    ensures s != []
  {
    if n < base then [DigitChar(n)] else Numeral(n / base, base) + [DigitChar(n % base)]
  }

  predicate AllDigits(s: string, base: nat) {
    forall i :: 0 <= i < |s| ==> Digit(s[i], base) >= 0
  }

  lemma {:induction false} NumeralDigits(n: nat, base: nat)
    requires base == 10 || base == 16
    ensures AllDigits(Numeral(n, base), base)
  {
    if n >= base {
      NumeralDigits(n / base, base);
    }
  }

  // ---------- C strings ----------

  /** A C string ends at its first NUL. */
  function CString(s: string): string {
    if s == [] || s[0] == NUL then [] else [s[0]] + CString(s[1..])
  }

  lemma {:induction false} CStringPlain(s: string)
    requires NUL !in s
    ensures CString(s) == s
  {
    if s != [] {
      CStringPlain(s[1..]);
    }
  }

  lemma {:induction false} CStringEnds(s: string, t: string)
    ensures CString(s + [NUL] + t) == CString(s)
  {
    if s != [] && s[0] != NUL {
      assert (s + [NUL] + t)[1..] == s[1..] + [NUL] + t;
      CStringEnds(s[1..], t);
    }
  }

  lemma {:induction false} CStringIsPrefix(s: string)
    ensures CString(s) <= s && NUL !in CString(s)
  {
    if s != [] && s[0] != NUL {
      CStringIsPrefix(s[1..]);
      assert s == [s[0]] + s[1..];
    }
  }

  /** More text after a string never shortens it. */
  lemma {:induction false} CStringExtends(s: string, t: string)
    ensures CString(s) <= CString(s + t)
  {
    if s != [] && s[0] != NUL {
      assert (s + t)[1..] == s[1..] + t;
      CStringExtends(s[1..], t);
    }
  }

  /** The tag stands at position i. */
  predicate Occurs(tag: string, p: string, i: int) {
    0 <= i <= i + |tag| <= |p| && p[i..i + |tag|] == tag
  }

  /** Position of the first occurrence of a tag, or -1. */
  function Find(p: string, tag: string): (i: int)
    ensures -1 <= i <= |p|
    ensures i >= 0 ==> Occurs(tag, p, i)
    ensures forall k :: 0 <= k < (if i < 0 then |p| else i) ==> !Occurs(tag, p, k)
    decreases |p|
  {
    if p == [] then -1
    else if Occurs(tag, p, 0) then 0
    else
      var i := Find(p[1..], tag);
      OccursNext(tag, p);
      if i < 0 then -1 else i + 1
  }

  lemma RestSlice(p: string, k: int, n: nat)
    requires p != [] && k > 0
    ensures k + n <= |p| ==> p[k..k + n] == p[1..][k - 1..k - 1 + n]
  {
  }

  lemma OccursNext(tag: string, p: string)
    requires p != []
    ensures forall k :: k > 0 ==> Occurs(tag, p, k) == Occurs(tag, p[1..], k - 1)
  {
    forall k | k > 0
      ensures Occurs(tag, p, k) == Occurs(tag, p[1..], k - 1)
    {
      RestSlice(p, k, |tag|);
    }
  }

  lemma OccursExtends(tag: string, p: string, q: string, i: nat)
    requires p <= q && i + |tag| <= |p|
    ensures Occurs(tag, p, i) == Occurs(tag, q, i)
  {
    assert q[i..i + |tag|] == p[i..i + |tag|];
  }

  /** What is found in a text is found at the same place when the text goes on. */
  lemma FindExtends(p: string, q: string, tag: string)
    requires tag != [] && Find(p, tag) >= 0 && p <= q
    ensures Find(q, tag) == Find(p, tag)
  {
    var i, j := Find(p, tag), Find(q, tag);
    OccursExtends(tag, p, q, i);
    if 0 <= j < i {
      OccursExtends(tag, p, q, j);
    }
  }

  lemma FindIs(p: string, tag: string, i: nat)
    requires tag != [] && Occurs(tag, p, i) && forall k :: 0 <= k < i ==> !Occurs(tag, p, k)
    ensures Find(p, tag) == i
  {
  }

  lemma FindNone(s: string, c: char)
    requires c !in s
    ensures Find(s, [c]) < 0
  {
    FoundChar(s, c);
  }

  lemma FoundChar(s: string, c: char)
    ensures Find(s, [c]) >= 0 ==> s[Find(s, [c])] == c
  {
    var i := Find(s, [c]);
    if i >= 0 {
      assert s[i..i + 1][0] == s[i];
    }
  }

  // ---------- character codes ----------

  /** isspace: tab, line feed, vertical tab, form feed, carriage return and space. */
  lemma WhiteSpaceCodes(c: char)
    ensures IsWhiteSpace(c) <==> c as int in {9, 10, 11, 12, 13, 32}
  {
  }

  /** The digits by their codes; hexadecimal ones in either case. */
  lemma DigitCodes(c: char, radix: int)
    ensures var n := c as int;
            Digit(c, radix) == if 48 <= n <= 57 then n - 48
                               else if radix == 16 && 65 <= n <= 70 then n - 55
                               else if radix == 16 && 97 <= n <= 102 then n - 87
                               else -1
  {
  }
}
