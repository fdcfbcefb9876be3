/** Printing a document compactly and parsing the result gives the same document back. */
module XmlRoundTrip {
  import opened Seqs
  import opened Strings
  import opened XmlText
  import opened XmlParser
  import opened XmlPrinter

  // ---------- which trees ----------

  predicate ValidName(s: string) {
    s != [] && IsNameStartChar(s[0]) && forall i :: 0 <= i < |s| ==> IsNameChar(s[i])
  }

  ghost predicate Contains(s: string, tag: string) {
    exists i :: 0 <= i < |s| && Occurs(tag, s, i)
  }

  predicate HasNonSpace(s: string) {
    exists i :: 0 <= i < |s| && !IsWhiteSpace(s[i])
  }

  ghost predicate ValidAttributes(attributes: seq<Attribute>) {
    && (forall i :: 0 <= i < |attributes| ==> ValidName(attributes[i].name) && Plain(attributes[i].value))
    && (forall i, j :: 0 <= i < j < |attributes| ==> attributes[i].name != attributes[j].name)
  }

  predicate IsPlainText(n: Node) {
    n.Text? && !n.cdata
  }

  /** docEmpty: the document has no child yet, so a declaration is still allowed. */
  ghost predicate WellFormed(n: Node, docEmpty: bool)
    decreases n, 0
  {
    match n
    case Element(name, attributes, kids) => ValidName(name) && ValidAttributes(attributes)
      && WellFormedKids(kids, false, docEmpty)
    case Text(v, cdata) => Plain(v) && if cdata then !Contains(v, "]]>") else HasNonSpace(v)
    case Comment(v) => Plain(v) && !Contains(v, "-->")
    case Declaration(v) => Plain(v) && !Contains(v, "?>") && docEmpty
    case Unknown(v) => Plain(v) && !Contains(v, ">") && !("--" <= v) && !("[CDATA[" <= v)
  }

  /** Children: each well-formed, and no two text nodes side by side (they would merge). */
  ghost predicate WellFormedKids(kids: seq<Node>, top: bool, docEmpty: bool)
    decreases kids, 1
  {
    kids == [] ||
    (&& WellFormed(kids[0], docEmpty)
     && WellFormedKids(kids[1..], top, docEmpty && !top)
     && (|kids| > 1 && IsPlainText(kids[0]) ==> !IsPlainText(kids[1])))
  }

  // ---------- finding end tags ----------

  lemma FindAt(v: string, tag: string, rest: string)
    requires tag != [] && !Contains(v, tag)
    requires forall j :: 0 <= j < |tag| - 1 ==> tag[j] != tag[|tag| - 1]
    ensures Find(v + tag + rest, tag) == |v|
  {
    var p := v + tag + rest;
    assert p[|v|..|v| + |tag|] == tag;
    forall k | 0 <= k < |v|
      ensures !Occurs(tag, p, k)
    {
      NoEarlier(v, tag, rest, k);
    }
    FindIs(p, tag, |v|);
  }

  /** The tag does not begin inside v: its last character is nowhere else in the tag. */
  lemma NoEarlier(v: string, tag: string, rest: string, i: nat)
    requires tag != [] && !Contains(v, tag) && i < |v|
    requires forall j :: 0 <= j < |tag| - 1 ==> tag[j] != tag[|tag| - 1]
    ensures !Occurs(tag, v + tag + rest, i)
  {
    var p, n := v + tag + rest, |tag| - 1;
    if i + n < |v| {
      assert v <= p;
      OccursExtends(tag, v, p, i);
    } else {
      assert p[i..i + |tag|][n] == tag[i + n - |v|];
    }
  }

  lemma ParseTextPrinted(v: string, tag: string, rest: string)
    requires tag != [] && !Contains(v, tag)
    requires forall j :: 0 <= j < |tag| - 1 ==> tag[j] != tag[|tag| - 1]
    ensures ParseText(v + tag + rest, tag) == Token(v, rest)
  {
    FindAt(v, tag, rest);
  }

  lemma AbsentChar(v: string, c: char)
    requires c !in v
    ensures !Contains(v, [c])
  {
    forall i | 0 <= i < |v|
      ensures !Occurs([c], v, i)
    {
      assert v[i..i + 1][0] in v;
    }
  }

  // ---------- names and attributes ----------

  lemma {:induction false} NameSpanPrinted(s: string, rest: string)
    requires forall i :: 0 <= i < |s| ==> IsNameChar(s[i])
    requires rest != [] && !IsNameChar(rest[0])
    ensures NameSpan(s + rest) == |s|
  {
    if s == [] {
      assert s + rest == rest;
    } else {
      assert (s + rest)[1..] == s[1..] + rest;
      NameSpanPrinted(s[1..], rest);
    }
  }

  lemma ParseNamePrinted(s: string, rest: string)
    requires ValidName(s) && rest != [] && !IsNameChar(rest[0])
    ensures ParseName(s + rest) == Token(s, rest) && CString(s) == s
  {
    assert (s + rest)[1..] == s[1..] + rest;
    NameSpanPrinted(s[1..], rest);
    CStringPlain(s);
  }

  lemma ParseAttributePrinted(a: Attribute, rest: string)
    requires ValidName(a.name) && Plain(a.value)
    ensures ParseAttribute(a.name + ("=" + ("\"" + (Escape(a.value, false) + "\"" + rest)))) == GoodAttribute(a, rest)
  {
    var raw := Escape(a.value, false);
    ParseNamePrinted(a.name, "=" + ("\"" + (raw + "\"" + rest)));
    EscapeClean(a.value, false);
    AbsentChar(raw, '"');
    ParseTextPrinted(raw, "\"", rest);
    ParseValuePrinted(raw + "\"" + rest);
    FlushedEscape(a.value, false);
  }

  lemma ParseValuePrinted(quoted: string)
    ensures ParseAttributeValue("=" + ("\"" + quoted)) == ParseText(quoted, "\"")
  {
    SkipNothing('=', "\"" + quoted);
    SkipNothing('"', quoted);
  }

  lemma SkipNothing(c: char, x: string)
    requires !IsWhiteSpace(c)
    ensures SkipWhiteSpace([c] + x) == [c] + x && ([c] + x)[1..] == x && ([c] + x)[0] == c
  {
  }

  lemma {:induction false} ParseAttributesPrinted(attributes: seq<Attribute>, done: seq<Attribute>, rest: string)
    requires ValidAttributes(done + attributes)
    ensures ParseAttributes(PrintAttributes(attributes) + rest, done) == ParseAttributes(rest, done + attributes)
    decreases |attributes|
  {
    if attributes == [] {
      assert PrintAttributes(attributes) + rest == rest;
      assert done + attributes == done;
    } else {
      var a, more := attributes[0], PrintAttributes(attributes[1..]) + rest;
      assert a == (done + attributes)[|done|];
      AttributePrinted(a, PrintAttributes(attributes[1..]), rest);
      assert !HasAttribute(done, a.name) by {
        assert forall i :: 0 <= i < |done| ==> (done + attributes)[i] == done[i];
      }
      AttributesStep(a, done, more);
      Shift(done, attributes);
      ParseAttributesPrinted(attributes[1..], done + [a], rest);
    }
  }

  lemma AttributesStep(a: Attribute, done: seq<Attribute>, more: string)
    requires ValidName(a.name) && Plain(a.value) && !HasAttribute(done, a.name)
    ensures ParseAttributes(" " + (a.name + ("=" + ("\"" + (Escape(a.value, false) + "\"" + more)))), done)
      == ParseAttributes(more, done + [a])
  {
    var q := a.name + ("=" + ("\"" + (Escape(a.value, false) + "\"" + more)));
    ParseAttributePrinted(a, more);
    AttributesStepFrom(q, a, done, more);
  }

  lemma AttributesStepFrom(q: string, a: Attribute, done: seq<Attribute>, more: string)
    requires q != [] && IsNameStartChar(q[0]) && ParseAttribute(q) == GoodAttribute(a, more)
      && !HasAttribute(done, a.name)
    ensures ParseAttributes(" " + q, done) == ParseAttributes(more, done + [a])
  {
    assert (" " + q)[1..] == q;
    assert SkipWhiteSpace(" " + q) == SkipWhiteSpace(q) == q;
  }

  lemma AttributePrinted(a: Attribute, more: string, rest: string)
    ensures (" " + a.name + "=\"" + Escape(a.value, false) + "\"" + more) + rest
         == " " + (a.name + ("=" + ("\"" + (Escape(a.value, false) + "\"" + (more + rest)))))
  {
  }

  // ---------- nodes ----------

  function ClosingOf(n: Node): Closing {
    if n.Element? && n.kids == [] then CLOSED else OPEN
  }

  function EndTagOf(n: Node): string {
    if n.Element? && n.kids != [] then n.name else []
  }

  /** What may follow a printed node: after a text, the start of another tag. */
  ghost predicate Follows(n: Node, rest: string) {
    IsPlainText(n) ==> |rest| > 1 && rest[0] == '<'
  }

  lemma VerbatimPrinted(v: string, k: Kind, rest: string)
    requires Plain(v) && !Contains(v, Footer(k))
    ensures ParseVerbatim(v + Footer(k) + rest, k) == Parsed(Verbatim(k, v), OPEN, [], rest)
  {
    FooterEnd(k);
    ParseTextPrinted(v, Footer(k), rest);
    FlushedVerbatim(v);
  }

  lemma FooterEnd(k: Kind)
    ensures var tag := Footer(k); forall j :: 0 <= j < |tag| - 1 ==> tag[j] != tag[|tag| - 1]
  {
  }

  lemma {:induction false} SkipEscaped(v: string, rest: string)
    requires HasNonSpace(v)
    ensures var q := SkipWhiteSpace(Escape(v, true) + rest); q != [] && q[0] != '<'
  {
    var p := Escape(v, true) + rest;
    var e := EscapeChar(v[0], true);
    assert p == e + (Escape(v[1..], true) + rest);
    if IsWhiteSpace(v[0]) {
      assert e == [v[0]] && p[1..] == Escape(v[1..], true) + rest;
      var i :| 0 <= i < |v| && !IsWhiteSpace(v[i]);
      assert v[1..][i - 1] == v[i];
      SkipEscaped(v[1..], rest);
    }
  }

  // Identify's dispatch, one lemma for each kind of node.

  lemma DispatchText(p: string, docEmpty: bool)
    requires SkipWhiteSpace(p) != [] && SkipWhiteSpace(p)[0] != '<'
    ensures p != [] && ParseNode(p, docEmpty) == ParsePlainText(p)
  {
    TextProgress(p);
  }

  /** An unknown node must not read as a comment or as CDATA. */
  predicate KeepsKind(k: Kind, x: string) {
    k.UnknownKind? ==> !("--" <= x) && !("[CDATA[" <= x)
  }

  lemma IdentifyHeader(k: Kind, x: string)
    requires KeepsKind(k, x)
    ensures Identify(Header(k) + x) == VerbatimStart(k)
  {
    var q := Header(k) + x;
    assert q[1] == Header(k)[1];
    match k
    case DeclarationKind =>
    case CommentKind =>
    case CDataKind => assert q[2] == '[';
    case UnknownKind => assert q[2..] == x;
  }

  lemma DispatchVerbatim(k: Kind, x: string, docEmpty: bool)
    requires KeepsKind(k, x)
    ensures SkipWhiteSpace(Header(k) + x) == Header(k) + x
    ensures ParseNode(Header(k) + x, docEmpty) == ParseVerbatim(x, k)
  {
    IdentifyHeader(k, x);
    assert (Header(k) + x)[|Header(k)|..] == x;
  }

  lemma IdentifyElement(x: string)
    requires x != [] && x[0] != '?' && x[0] != '!'
    ensures Identify("<" + x) == ElementStart
  {
    assert ("<" + x)[1] == x[0];
    assert forall k: Kind :: Header(k)[1] == '?' || Header(k)[1] == '!';
  }

  lemma DispatchElement(x: string, docEmpty: bool)
    requires x != [] && x[0] != '?' && x[0] != '!'
    ensures SkipWhiteSpace("<" + x) == "<" + x
    ensures ParseNode("<" + x, docEmpty) == ParseElement(x, docEmpty)
  {
    IdentifyElement(x);
    var p := "<" + x;
    assert p[1..] == x;
  }

  lemma TextPrinted(v: string, rest: string, docEmpty: bool)
    requires Plain(v) && HasNonSpace(v) && |rest| > 1 && rest[0] == '<'
    ensures SkipWhiteSpace(Escape(v, true) + rest) != []
    ensures ParseNode(Escape(v, true) + rest, docEmpty) == Parsed(Text(v, false), OPEN, [], rest)
  {
    SkipEscaped(v, rest);
    DispatchText(Escape(v, true) + rest, docEmpty);
    PlainTextPrinted(v, rest);
  }

  lemma PlainTextPrinted(v: string, rest: string)
    requires Plain(v) && |rest| > 1 && rest[0] == '<'
    ensures ParsePlainText(Escape(v, true) + rest) == Parsed(Text(v, false), OPEN, [], rest)
  {
    var raw := Escape(v, true);
    EscapeClean(v, true);
    AbsentChar(raw, '<');
    assert raw + rest == raw + "<" + rest[1..];
    ParseTextPrinted(raw, "<", rest[1..]);
    assert (raw + rest)[|raw|..] == rest;
    FlushedEscape(v, true);
  }

  /** The closing tag of an element, as its children's parser reads it. */
  lemma CloseTagPrinted(name: string, rest: string, kids: seq<Node>, top: bool, docEmpty: bool)
    requires ValidName(name)
    ensures ParseKids("</" + name + ">" + rest, kids, top, docEmpty) == Ended(kids, name, rest)
  {
    CloseTagText(name, rest);
    CloseTagNode(name, rest, if top then kids == [] else docEmpty);
    EndedKids("</" + name + ">" + rest, Element(name, [], []), rest, kids, top, docEmpty);
  }

  lemma CloseTagText(name: string, rest: string)
    ensures "</" + name + ">" + rest == "<" + ("/" + (name + (">" + rest)))
  {
  }

  lemma CloseTagNode(name: string, rest: string, docEmpty: bool)
    requires ValidName(name)
    ensures var p := "<" + ("/" + (name + (">" + rest)));
            SkipWhiteSpace(p) != [] && ParseNode(p, docEmpty) == Parsed(Element(name, [], []), CLOSING, [], rest)
  {
    CloseElementParsed(name, rest, docEmpty);
    DispatchElement("/" + (name + (">" + rest)), docEmpty);
  }

  lemma EndedKids(p: string, n: Node, rest: string, kids: seq<Node>, top: bool, docEmpty: bool)
    requires SkipWhiteSpace(p) != [] && n.Element?
    requires ParseNode(p, if top then kids == [] else docEmpty) == Parsed(n, CLOSING, [], rest)
    ensures ParseKids(p, kids, top, docEmpty) == Ended(kids, n.name, rest)
  {
  }

  lemma CloseElementParsed(name: string, rest: string, docEmpty: bool)
    requires ValidName(name)
    ensures ParseElement("/" + (name + (">" + rest)), docEmpty) == Parsed(Element(name, [], []), CLOSING, [], rest)
  {
    var x := "/" + (name + (">" + rest));
    assert x[1..] == name + (">" + rest);
    assert SkipWhiteSpace(x) == x;
    ParseNamePrinted(name, ">" + rest);
    TagEnd(rest, []);
  }

  lemma TagEnd(rest: string, attributes: seq<Attribute>)
    ensures ParseAttributes(">" + rest, attributes) == GoodAttributes(attributes, false, rest)
    ensures ParseAttributes("/>" + rest, attributes) == GoodAttributes(attributes, true, rest)
  {
    assert (">" + rest)[1..] == rest && ("/>" + rest)[2..] == rest;
    assert SkipWhiteSpace(">" + rest) == ">" + rest;
    assert SkipWhiteSpace("/>" + rest) == "/>" + rest;
    assert ("/>" + rest)[0] == '/' && ("/>" + rest)[1] == '>';
  }

  /** The start tag: name and attributes, up to what ends the tag. */
  lemma StartTagPrinted(name: string, attributes: seq<Attribute>, end: string)
    requires ValidName(name) && ValidAttributes(attributes) && end != [] && (end[0] == '>' || end[0] == '/')
    ensures var p := name + (PrintAttributes(attributes) + end);
            && SkipWhiteSpace(p) == p && p[0] != '/' && p[0] != '?' && p[0] != '!'
            && ParseName(p) == Token(name, PrintAttributes(attributes) + end)
            && ParseAttributes(PrintAttributes(attributes) + end, []) == ParseAttributes(end, attributes)
            && CString(name) == name
  {
    var after := PrintAttributes(attributes) + end;
    AttributesStart(attributes, end);
    ParseNamePrinted(name, after);
    NameStart(name, after);
    assert [] + attributes == attributes;
    ParseAttributesPrinted(attributes, [], end);
  }

  lemma AttributesStart(attributes: seq<Attribute>, end: string)
    requires end != [] && !IsNameChar(end[0])
    ensures var p := PrintAttributes(attributes) + end; p != [] && !IsNameChar(p[0])
  {
    assert (PrintAttributes(attributes) + end)[0] == if attributes == [] then end[0] else ' ';
  }

  lemma NameStart(name: string, rest: string)
    requires ValidName(name)
    ensures var p := name + rest; SkipWhiteSpace(p) == p && p[0] != '/' && p[0] != '?' && p[0] != '!'
  {
    assert (name + rest)[0] == name[0];
  }

  // ---------- the round trip ----------

  lemma EmptyElementText(name: string, attributes: seq<Attribute>, rest: string)
    ensures PrintNode(Element(name, attributes, [])) + rest
      == "<" + (name + (PrintAttributes(attributes) + ("/>" + rest)))
  {
    var a := PrintAttributes(attributes);
    assert "<" + name + a + "/>" + rest == "<" + (name + (a + ("/>" + rest)));
  }

  lemma ElementText(name: string, attributes: seq<Attribute>, kids: seq<Node>, rest: string)
    requires kids != []
    ensures PrintNode(Element(name, attributes, kids)) + rest
         == "<" + (name + (PrintAttributes(attributes) + (">" + (PrintKids(kids) + ("</" + name + ">" + rest)))))
  {
    var a, k := PrintAttributes(attributes), PrintKids(kids);
    var close := "</" + name + ">";
    assert ">" + k + "</" + name + ">" == ">" + k + close;
    assert "<" + name + a + (">" + k + close) + rest == "<" + (name + (a + (">" + (k + (close + rest)))));
  }

  lemma EmptyElementPrinted(name: string, attributes: seq<Attribute>, rest: string, docEmpty: bool)
    requires ValidName(name) && ValidAttributes(attributes)
    ensures ParseElement(name + (PrintAttributes(attributes) + ("/>" + rest)), docEmpty)
         == Parsed(Element(name, attributes, []), CLOSED, [], rest)
  {
    StartTagPrinted(name, attributes, "/>" + rest);
    TagEnd(rest, attributes);
  }

  function ElementOf(name: string, attributes: seq<Attribute>, r: KidsResult): NodeResult {
    match r
    case Ended(kids, endTag, rest) => Parsed(Element(name, attributes, kids), OPEN, endTag, rest)
    case Stopped(_, e) => Failed(e)
  }

  /** A start tag and what its children's parser makes of the text behind it. */
  lemma StartTagParsed(name: string, attributes: seq<Attribute>, inner: string, docEmpty: bool)
    requires ValidName(name) && ValidAttributes(attributes) && inner != []
    ensures ParseElement(name + (PrintAttributes(attributes) + (">" + inner)), docEmpty)
         == ElementOf(name, attributes, ParseKids(inner, [], false, docEmpty))
  {
    StartTagPrinted(name, attributes, ">" + inner);
    TagEnd(inner, attributes);
  }

  /** node parses from its printed form followed by rest, and leaves rest. */
  ghost predicate Reads(n: Node, rest: string, docEmpty: bool) {
    && SkipWhiteSpace(PrintNode(n) + rest) != []
    && ParseNode(PrintNode(n) + rest, docEmpty) == Parsed(n, ClosingOf(n), EndTagOf(n), rest)
  }

  lemma EmptyElementReads(name: string, attributes: seq<Attribute>, rest: string, docEmpty: bool)
    requires ValidName(name) && ValidAttributes(attributes)
    ensures Reads(Element(name, attributes, []), rest, docEmpty)
  {
    EmptyElementText(name, attributes, rest);
    EmptyElementPrinted(name, attributes, rest, docEmpty);
    StartTagPrinted(name, attributes, "/>" + rest);
    DispatchElement(name + (PrintAttributes(attributes) + ("/>" + rest)), docEmpty);
  }

  lemma OpenElementReads(name: string, attributes: seq<Attribute>, kids: seq<Node>, rest: string, docEmpty: bool)
    requires ValidName(name) && ValidAttributes(attributes) && kids != []
    requires ParseKids(PrintKids(kids) + ("</" + name + ">" + rest), [], false, docEmpty) == Ended(kids, name, rest)
    ensures Reads(Element(name, attributes, kids), rest, docEmpty)
  {
    var inner := PrintKids(kids) + ("</" + name + ">" + rest);
    ElementText(name, attributes, kids, rest);
    StartTagParsed(name, attributes, inner, docEmpty);
    StartTagPrinted(name, attributes, ">" + inner);
    DispatchElement(name + (PrintAttributes(attributes) + (">" + inner)), docEmpty);
  }

  lemma Regroup(open: string, v: string, close: string, rest: string)
    ensures open + v + close + rest == open + (v + close + rest)
  {
  }

  function KindOf(n: Node): Kind
    requires !n.Element? && !IsPlainText(n)
  {
    match n
    case Text(_, _) => CDataKind
    case Comment(_) => CommentKind
    case Declaration(_) => DeclarationKind
    case Unknown(_) => UnknownKind
  }

  lemma PrintVerbatim(n: Node, docEmpty: bool)
    requires WellFormed(n, docEmpty) && !n.Element? && !IsPlainText(n)
    ensures var k := KindOf(n);
            && n == Verbatim(k, n.value) && PrintNode(n) == Header(k) + n.value + Footer(k)
            && Plain(n.value) && !Contains(n.value, Footer(k)) && KeepsKind(k, n.value)
  {
  }

  lemma VerbatimReads(n: Node, rest: string, docEmpty: bool)
    requires WellFormed(n, docEmpty) && !n.Element? && !IsPlainText(n)
    ensures Reads(n, rest, docEmpty)
  {
    var k := KindOf(n);
    PrintVerbatim(n, docEmpty);
    Regroup(Header(k), n.value, Footer(k), rest);
    UnknownStart(k, n.value, rest);
    DispatchVerbatim(k, n.value + Footer(k) + rest, docEmpty);
    VerbatimPrinted(n.value, k, rest);
  }

  /** A printed node, whatever follows it, parses to the node and leaves what follows. */
  lemma {:induction false} NodePrinted(n: Node, rest: string, docEmpty: bool)
    requires WellFormed(n, docEmpty) && Follows(n, rest)
    ensures Reads(n, rest, docEmpty)
    decreases n, 0
  {
    if n.Element? {
      if n.kids == [] {
        EmptyElementReads(n.name, n.attributes, rest, docEmpty);
      } else {
        var tail := "</" + n.name + ">" + rest;
        KidsPrinted(n.kids, [], false, docEmpty, tail);
        assert [] + n.kids == n.kids;
        CloseTagPrinted(n.name, rest, n.kids, false, docEmpty);
        OpenElementReads(n.name, n.attributes, n.kids, rest, docEmpty);
      }
    } else if IsPlainText(n) {
      TextPrinted(n.value, rest, docEmpty);
    } else {
      VerbatimReads(n, rest, docEmpty);
    }
  }

  lemma UnknownStart(k: Kind, v: string, rest: string)
    requires KeepsKind(k, v)
    ensures KeepsKind(k, v + Footer(k) + rest)
  {
    if k.UnknownKind? {
      var x := v + ">" + rest;
      assert x[|v|] == '>';
      assert |v| >= 2 ==> x[..2] == v[..2];
      assert |v| >= 7 ==> x[..7] == v[..7];
    }
  }

  /** Printed children are read one after the other, until what follows them. */
  lemma {:induction false} KidsPrinted(kids: seq<Node>, done: seq<Node>, top: bool, docEmpty: bool, tail: string)
    requires WellFormedKids(kids, top, if top then done == [] else docEmpty)
    requires kids != [] ==> Follows(kids[|kids| - 1], tail)
    ensures ParseKids(PrintKids(kids) + tail, done, top, docEmpty) == ParseKids(tail, done + kids, top, docEmpty)
    decreases kids, 2
  {
    if kids == [] {
      assert PrintKids(kids) + tail == tail && done + kids == done;
    } else {
      FirstKidPrinted(kids, done, top, docEmpty, tail);
      KidsPrinted(kids[1..], done + [kids[0]], top, docEmpty, tail);
      Shift(done, kids);
    }
  }

  lemma {:induction false} FirstKidPrinted(kids: seq<Node>, done: seq<Node>, top: bool, docEmpty: bool, tail: string)
    requires kids != [] && WellFormedKids(kids, top, if top then done == [] else docEmpty)
    requires Follows(kids[|kids| - 1], tail)
    ensures ParseKids(PrintKids(kids) + tail, done, top, docEmpty)
         == ParseKids(PrintKids(kids[1..]) + tail, done + [kids[0]], top, docEmpty)
    decreases kids, 1
  {
    var more, first := PrintKids(kids[1..]) + tail, if top then done == [] else docEmpty;
    NextFollows(kids, tail, top, first);
    NodePrinted(kids[0], more, first);
    KidsStep(kids[0], more, done, top, docEmpty);
    RegroupKids(kids, tail);
  }

  lemma RegroupKids(kids: seq<Node>, tail: string)
    requires kids != []
    ensures PrintKids(kids) + tail == PrintNode(kids[0]) + (PrintKids(kids[1..]) + tail)
  {
  }

  lemma KidsStep(n: Node, more: string, done: seq<Node>, top: bool, docEmpty: bool)
    requires var first := if top then done == [] else docEmpty; WellFormed(n, first) && Reads(n, more, first)
    ensures ParseKids(PrintNode(n) + more, done, top, docEmpty) == ParseKids(more, done + [n], top, docEmpty)
  {
  }

  lemma NextFollows(kids: seq<Node>, tail: string, top: bool, docEmpty: bool)
    requires kids != [] && WellFormedKids(kids, top, docEmpty) && Follows(kids[|kids| - 1], tail)
    ensures Follows(kids[0], PrintKids(kids[1..]) + tail)
  {
    if |kids| == 1 {
      assert PrintKids(kids[1..]) + tail == tail;
    } else if IsPlainText(kids[0]) {
      var next := kids[1];
      assert kids[1..][0] == next;
      assert WellFormedKids(kids[1..], top, docEmpty && !top);
      TagStart(next, docEmpty && !top);
    }
  }

  lemma TagStart(n: Node, docEmpty: bool)
    requires !IsPlainText(n) && WellFormed(n, docEmpty)
    ensures |PrintNode(n)| > 1 && PrintNode(n)[0] == '<'
  {
  }

  /** Documents that round-trip: at least one node, and no text before the first or after the
      last tag. */
  ghost predicate ValidDocument(kids: seq<Node>) {
    kids != [] && WellFormedKids(kids, true, true) && !IsPlainText(kids[0]) && !IsPlainText(kids[|kids| - 1])
  }

  /** Parsing what was printed returns the same tree. */
  lemma RoundTrip(kids: seq<Node>)
    requires ValidDocument(kids)
    ensures ParseDocument(PrintKids(kids)) == Success(kids)
  {
    var text := PrintKids(kids);
    KidsPrinted(kids, [], true, true, []);
    assert text + [] == text && [] + kids == kids;
    TagStart(kids[0], true);
    assert text[0] == '<';
  }
}
