/** Texts other than printed ones: what the parser refuses, and the spellings it accepts. */
module XmlRefusals {
  import opened Seqs
  import opened Options
  import opened Strings
  import opened XmlText
  import opened XmlParser
  import opened XmlPrinter
  import opened XmlRoundTrip

  // ---------- closing tags ----------

  /** An element's start tag, and the text behind it. */
  function Opened(name: string, attributes: seq<Attribute>, inner: string): string {
    "<" + (name + (PrintAttributes(attributes) + (">" + inner)))
  }

  function ClosedBy(name: string, rest: string): string {
    "</" + name + ">" + rest
  }

  ghost function First(done: seq<Node>, top: bool, docEmpty: bool): bool {
    if top then done == [] else docEmpty
  }

  lemma OpenedParsed(name: string, attributes: seq<Attribute>, inner: string, docEmpty: bool)
    requires ValidName(name) && ValidAttributes(attributes)
    ensures var p := Opened(name, attributes, inner);
            && SkipWhiteSpace(p) != []
            && ParseNode(p, docEmpty) == ParseElement(name + (PrintAttributes(attributes) + (">" + inner)), docEmpty)
  {
    StartTagPrinted(name, attributes, ">" + inner);
    DispatchElement(name + (PrintAttributes(attributes) + (">" + inner)), docEmpty);
  }

  /** Children in front of a closing tag with any name. */
  lemma KidsEnded(kids: seq<Node>, name: string, rest: string, docEmpty: bool)
    requires WellFormedKids(kids, false, docEmpty) && ValidName(name)
    ensures ParseKids(PrintKids(kids) + ClosedBy(name, rest), [], false, docEmpty) == Ended(kids, name, rest)
  {
    CloseTagText(name, rest);
    KidsPrinted(kids, [], false, docEmpty, ClosedBy(name, rest));
    CloseTagPrinted(name, rest, kids, false, docEmpty);
    assert [] + kids == kids;
  }

  /** What the parser of the surrounding node does with an element whose closing tag has the name b. */
  lemma ElementClosed(a: string, b: string, attributes: seq<Attribute>, kids: seq<Node>, rest: string,
    done: seq<Node>, top: bool, docEmpty: bool)
    requires ValidName(a) && ValidName(b) && ValidAttributes(attributes)
    requires WellFormedKids(kids, false, First(done, top, docEmpty))
    ensures var r := ParseKids(Opened(a, attributes, PrintKids(kids) + ClosedBy(b, rest)), done, top, docEmpty);
            if a == b then r == ParseKids(rest, done + [Element(a, attributes, kids)], top, docEmpty)
            else r == Stopped(done, Some(MismatchedElement))
  {
    var first, inner := First(done, top, docEmpty), PrintKids(kids) + ClosedBy(b, rest);
    KidsEnded(kids, b, rest, first);
    StartTagParsed(a, attributes, inner, first);
    OpenedParsed(a, attributes, inner, first);
    ClosedStep(Opened(a, attributes, inner), Element(a, attributes, kids), b, rest, done, top, docEmpty);
  }

  lemma ClosedStep(p: string, n: Node, b: string, rest: string, done: seq<Node>, top: bool, docEmpty: bool)
    requires SkipWhiteSpace(p) != [] && n.Element? && b != []
    requires ParseNode(p, First(done, top, docEmpty)) == Parsed(n, OPEN, b, rest)
    ensures var r := ParseKids(p, done, top, docEmpty);
            if n.name == b then r == ParseKids(rest, done + [n], top, docEmpty)
            else r == Stopped(done, Some(MismatchedElement))
  {
  }

  /** A document whose element is closed under another name is refused. */
  lemma MismatchRefused(a: string, b: string, attributes: seq<Attribute>, kids: seq<Node>, rest: string)
    requires ValidName(a) && ValidName(b) && a != b && ValidAttributes(attributes) && WellFormedKids(kids, false, true)
    ensures ParseDocument(Opened(a, attributes, PrintKids(kids) + ClosedBy(b, rest))) == Failure(MismatchedElement)
  {
    var p := Opened(a, attributes, PrintKids(kids) + ClosedBy(b, rest));
    ElementClosed(a, b, attributes, kids, rest, [], true, true);
    DocumentOf(p);
  }

  /** A text that begins with a tag has no space and no byte order mark in front. */
  lemma DocumentOf(p: string)
    requires p != [] && p[0] == '<'
    ensures var r := ParseKids(p, [], true, true);
            ParseDocument(p) == if r.Stopped? && r.error.Some? then Failure(r.error.value) else Success(r.kids)
  {
    assert BOM[0] != '<';
  }

  // ---------- text that ends too early ----------

  lemma NothingLeft(kids: seq<Node>, top: bool, docEmpty: bool)
    ensures ParseKids([], kids, top, docEmpty) == Stopped(kids, None)
  {
  }

  /** Text without a tag behind it. */
  lemma LooseText(v: string, done: seq<Node>, top: bool, docEmpty: bool)
    requires HasNonSpace(v)
    ensures ParseKids(Escape(v, true), done, top, docEmpty) == Stopped(done, Some(ParsingText))
  {
    var p := Escape(v, true);
    assert p + [] == p;
    SkipEscaped(v, []);
    DispatchText(p, First(done, top, docEmpty));
    EscapeClean(v, true);
    AbsentChar(p, '<');
    NoTag(p, "<");
  }

  lemma NoTag(p: string, tag: string)
    requires tag != [] && !Contains(p, tag)
    ensures ParseText(p, tag) == NoToken
  {
  }

  /** How an element without its closing tag is refused. */
  function UnclosedError(kids: seq<Node>): XmlError {
    if kids == [] then MismatchedElement else if IsPlainText(kids[|kids| - 1]) then ParsingText else Parsing
  }

  lemma KidsUnclosed(kids: seq<Node>, docEmpty: bool)
    requires WellFormedKids(kids, false, docEmpty) && kids != []
    ensures ParseKids(PrintKids(kids), [], false, docEmpty).Stopped?
    ensures ParseKids(PrintKids(kids), [], false, docEmpty).error
         == if IsPlainText(kids[|kids| - 1]) then Some(ParsingText) else None
  {
    var n := |kids| - 1;
    if IsPlainText(kids[n]) {
      FrontWellFormed(kids, docEmpty);
      KidsPrinted(kids[..n], [], false, docEmpty, PrintNode(kids[n]));
      PrintLast(kids);
      LooseText(kids[n].value, [] + kids[..n], false, docEmpty);
    } else {
      assert PrintKids(kids) + [] == PrintKids(kids);
      KidsPrinted(kids, [], false, docEmpty, []);
      NothingLeft([] + kids, false, docEmpty);
    }
  }

  lemma {:induction false} FrontWellFormed(kids: seq<Node>, docEmpty: bool)
    requires WellFormedKids(kids, false, docEmpty) && kids != [] && IsPlainText(kids[|kids| - 1])
    ensures WellFormedKids(kids[..|kids| - 1], false, docEmpty) && HasNonSpace(kids[|kids| - 1].value)
    ensures |kids| > 1 ==> !IsPlainText(kids[|kids| - 2])
    decreases |kids|
  {
    if |kids| > 1 {
      FrontWellFormed(kids[1..], docEmpty);
      assert kids[1..][..|kids| - 2] == kids[..|kids| - 1][1..];
    }
  }

  lemma {:induction false} PrintLast(kids: seq<Node>)
    requires kids != []
    ensures PrintKids(kids) == PrintKids(kids[..|kids| - 1]) + PrintNode(kids[|kids| - 1])
    decreases |kids|
  {
    var n := |kids| - 1;
    if n > 0 {
      PrintLast(kids[1..]);
      assert kids[1..][..n - 1] == kids[..n][1..];
      Assoc(PrintNode(kids[0]), PrintKids(kids[..n][1..]), PrintNode(kids[n]));
    } else {
      assert kids[1..] == [] && kids[..0] == [];
      assert PrintNode(kids[0]) + [] == [] + PrintNode(kids[0]);
    }
  }

  /** An element whose text ends before its closing tag is refused. */
  lemma UnclosedRefused(a: string, attributes: seq<Attribute>, kids: seq<Node>, done: seq<Node>, top: bool,
    docEmpty: bool)
    requires ValidName(a) && ValidAttributes(attributes) && WellFormedKids(kids, false, First(done, top, docEmpty))
    ensures ParseKids(Opened(a, attributes, PrintKids(kids)), done, top, docEmpty)
         == Stopped(done, Some(UnclosedError(kids)))
  {
    var first, p := First(done, top, docEmpty), Opened(a, attributes, PrintKids(kids));
    OpenedParsed(a, attributes, PrintKids(kids), first);
    if kids == [] {
      BareStartTag(a, attributes, first);
      UnendedStep(p, Element(a, attributes, []), done, top, docEmpty);
    } else {
      UnclosedElement(a, attributes, kids, first);
      FailedStep(p, if IsPlainText(kids[|kids| - 1]) then Some(ParsingText) else None, done, top, docEmpty);
    }
  }

  lemma UnclosedElement(a: string, attributes: seq<Attribute>, kids: seq<Node>, docEmpty: bool)
    requires ValidName(a) && ValidAttributes(attributes) && WellFormedKids(kids, false, docEmpty) && kids != []
    ensures ParseElement(a + (PrintAttributes(attributes) + (">" + PrintKids(kids))), docEmpty)
         == Failed(if IsPlainText(kids[|kids| - 1]) then Some(ParsingText) else None)
  {
    KidsUnclosed(kids, docEmpty);
    PrintedNonEmpty(kids, docEmpty);
    StartTagParsed(a, attributes, PrintKids(kids), docEmpty);
  }

  lemma FailedStep(p: string, e: Option<XmlError>, done: seq<Node>, top: bool, docEmpty: bool)
    requires SkipWhiteSpace(p) != [] && ParseNode(p, First(done, top, docEmpty)) == Failed(e)
    ensures ParseKids(p, done, top, docEmpty) == Stopped(done, if e.None? then Some(Parsing) else e)
  {
  }

  lemma UnendedStep(p: string, n: Node, done: seq<Node>, top: bool, docEmpty: bool)
    requires SkipWhiteSpace(p) != [] && n.Element?
    requires ParseNode(p, First(done, top, docEmpty)) == Parsed(n, OPEN, [], [])
    ensures ParseKids(p, done, top, docEmpty) == Stopped(done, Some(MismatchedElement))
  {
  }

  lemma PrintedNonEmpty(kids: seq<Node>, docEmpty: bool)
    requires kids != [] && WellFormedKids(kids, false, docEmpty)
    ensures PrintKids(kids) != []
  {
    if IsPlainText(kids[0]) {
      EscapeHead(kids[0].value, true);
    } else {
      TagStart(kids[0], docEmpty);
    }
  }

  lemma BareStartTag(a: string, attributes: seq<Attribute>, docEmpty: bool)
    requires ValidName(a) && ValidAttributes(attributes)
    ensures ParseElement(a + (PrintAttributes(attributes) + (">" + [])), docEmpty)
         == Parsed(Element(a, attributes, []), OPEN, [], [])
  {
    StartTagPrinted(a, attributes, ">" + []);
    TagEnd([], attributes);
  }

  // ---------- the document ----------

  /** A closing tag that closes nothing ends the document: what follows it is not parsed, and no error
      is reported. */
  lemma StrayCloseEnds(kids: seq<Node>, name: string, rest: string)
    requires ValidDocument(kids) && ValidName(name)
    ensures ParseDocument(PrintKids(kids) + ClosedBy(name, rest)) == Success(kids)
  {
    var p := PrintKids(kids) + ClosedBy(name, rest);
    KidsPrinted(kids, [], true, true, ClosedBy(name, rest));
    assert [] + kids == kids;
    CloseTagPrinted(name, rest, kids, true, true);
    TagStart(kids[0], true);
    assert p[0] == PrintKids(kids)[0] == '<';
    DocumentOf(p);
  }

  /** A declaration is accepted as the first node only. */
  lemma LateDeclaration(v: string, rest: string, done: seq<Node>, docEmpty: bool)
    requires Plain(v) && !Contains(v, "?>") && done != []
    ensures ParseKids(PrintNode(Declaration(v)) + rest, done, true, docEmpty) == Stopped(done, Some(ParsingDeclaration))
  {
    var k := DeclarationKind;
    PrintVerbatim(Declaration(v), true);
    XmlRoundTrip.Regroup(Header(k), v, Footer(k), rest);
    DispatchVerbatim(k, v + Footer(k) + rest, false);
    VerbatimPrinted(v, k, rest);
    LateStep(PrintNode(Declaration(v)) + rest, v, rest, done, docEmpty);
  }

  lemma LateStep(p: string, v: string, rest: string, done: seq<Node>, docEmpty: bool)
    requires SkipWhiteSpace(p) != [] && done != [] && ParseNode(p, false) == Parsed(Declaration(v), OPEN, [], rest)
    ensures ParseKids(p, done, true, docEmpty) == Stopped(done, Some(ParsingDeclaration))
  {
  }

  /** An empty text, also behind space and a byte order mark, is refused. */
  lemma EmptyRefused(space: string)
    requires forall i :: 0 <= i < |space| ==> IsWhiteSpace(space[i])
    ensures ParseDocument(space) == Failure(EmptyDocument)
    ensures ParseDocument(space + BOM) == Failure(EmptyDocument)
  {
    assert space + [] == space;
    SkipAll(space, []);
    SkipAll(space, BOM);
    assert BOM[3..] == [];
  }

  // ---------- attributes ----------

  lemma {:induction false} SkipAll(w: string, x: string)
    requires forall i :: 0 <= i < |w| ==> IsWhiteSpace(w[i])
    requires x == [] || !IsWhiteSpace(x[0])
    ensures SkipWhiteSpace(w + x) == x
  {
    if w == [] {
      assert w + x == x;
    } else {
      RestAppend(w, x);
      SkipAll(w[1..], x);
    }
  }

  predicate Blank(w: string) {
    forall i :: 0 <= i < |w| ==> IsWhiteSpace(w[i])
  }

  /** Either quote, and any white space around the equals sign. */
  lemma ValueSpelled(w1: string, w2: string, quote: char, raw: string, rest: string)
    requires Blank(w1) && Blank(w2) && (quote == '"' || quote == '\'') && quote !in raw
    ensures ParseAttributeValue(w1 + ("=" + (w2 + ([quote] + (raw + [quote] + rest))))) == Token(raw, rest)
  {
    var tail := raw + [quote] + rest;
    SkipAll(w2, [quote] + tail);
    SkipAll(w1, "=" + (w2 + ([quote] + tail)));
    SkipNothing('=', w2 + ([quote] + tail));
    SkipNothing(quote, tail);
    AbsentChar(raw, quote);
    ParseTextPrinted(raw, [quote], rest);
  }

  lemma AttributeSpelled(name: string, w1: string, w2: string, quote: char, raw: string, rest: string)
    requires ValidName(name) && Blank(w1) && Blank(w2) && (quote == '"' || quote == '\'') && quote !in raw
    ensures ParseAttribute(name + (w1 + ("=" + (w2 + ([quote] + (raw + [quote] + rest))))))
         == GoodAttribute(Attribute(name, Flushed(raw, true)), rest)
  {
    var after := w1 + ("=" + (w2 + ([quote] + (raw + [quote] + rest))));
    assert after != [] && after[0] == if w1 == [] then '=' else w1[0];
    ParseNamePrinted(name, after);
    ValueSpelled(w1, w2, quote, raw, rest);
  }

  /** Any white space in front of an attribute or of the end of a tag. */
  lemma BlankInTag(w: string, x: string, attributes: seq<Attribute>)
    requires Blank(w) && x != [] && !IsWhiteSpace(x[0])
    ensures ParseAttributes(w + x, attributes) == ParseAttributes(x, attributes)
  {
    SkipAll(w, x);
    SkipAll([], x);
    assert [] + x == x;
  }

  /** An attribute name that occurs twice in a tag is refused, whatever stands between and behind. */
  lemma RepeatedAttribute(attributes: seq<Attribute>, a: Attribute, rest: string)
    requires ValidAttributes(attributes) && HasAttribute(attributes, a.name) && Plain(a.value)
    ensures ParseAttributes(PrintAttributes(attributes + [a]) + rest, []) == BadAttributes(ParsingAttribute)
  {
    PrintOneMore(attributes, a, rest);
    assert [] + attributes == attributes;
    ParseAttributesPrinted(attributes, [], PrintAttributes([a]) + rest);
    assert ValidName(a.name);
    AttributePrinted(a, PrintAttributes([a][1..]), rest);
    ParseAttributePrinted(a, PrintAttributes([a][1..]) + rest);
    RefusedStep(a.name + ("=" + ("\"" + (Escape(a.value, false) + "\"" + (PrintAttributes([a][1..]) + rest)))),
      a, attributes, PrintAttributes([a][1..]) + rest);
  }

  lemma RefusedStep(q: string, a: Attribute, done: seq<Attribute>, more: string)
    requires q != [] && IsNameStartChar(q[0]) && ParseAttribute(q) == GoodAttribute(a, more)
    requires HasAttribute(done, a.name)
    ensures ParseAttributes(" " + q, done) == BadAttributes(ParsingAttribute)
  {
    assert (" " + q)[1..] == q;
    assert SkipWhiteSpace(" " + q) == SkipWhiteSpace(q) == q;
  }

  lemma {:induction false} PrintOneMore(attributes: seq<Attribute>, a: Attribute, rest: string)
    ensures PrintAttributes(attributes + [a]) + rest == PrintAttributes(attributes) + (PrintAttributes([a]) + rest)
    decreases |attributes|
  {
    if attributes == [] {
      assert attributes + [a] == [a];
      assert [] + (PrintAttributes([a]) + rest) == PrintAttributes([a]) + rest;
    } else {
      RestAppend(attributes, [a]);
      PrintOneMore(attributes[1..], a, rest);
      var head := " " + attributes[0].name + "=\"" + Escape(attributes[0].value, false) + "\"";
      Assoc(head, PrintAttributes((attributes + [a])[1..]), rest);
      Assoc(head, PrintAttributes(attributes[1..]), PrintAttributes([a]) + rest);
    }
  }

  /** So is the element. */
  lemma RepeatedRefused(name: string, attributes: seq<Attribute>, a: Attribute, rest: string, done: seq<Node>,
    top: bool, docEmpty: bool)
    requires ValidName(name) && ValidAttributes(attributes) && HasAttribute(attributes, a.name) && Plain(a.value)
    ensures ParseKids("<" + (name + (PrintAttributes(attributes + [a]) + rest)), done, top, docEmpty)
         == Stopped(done, Some(ParsingAttribute))
  {
    var after := PrintAttributes(attributes + [a]) + rest;
    assert PrintAttributes(attributes + [a])[0] == ' ';
    RepeatedAttribute(attributes, a, rest);
    ParseNamePrinted(name, after);
    NameStart(name, after);
    DispatchElement(name + after, First(done, top, docEmpty));
  }

  // ---------- known texts ----------

  lemma KnownEscape()
    ensures Escape("<", true) == "&lt;" && Escape(">", true) == "&gt;" && Escape("&", true) == "&amp;"
    ensures Escape("\"", true) == "\"" && Escape("'", true) == "'"
    ensures Escape("\"", false) == "&quot;" && Escape("'", false) == "&apos;"
    ensures Escape("<", false) == "&lt;" && Escape(">", false) == "&gt;" && Escape("&", false) == "&amp;"
  {
    EscapeOne('<');
    EscapeOne('>');
    EscapeOne('&');
    EscapeOne('"');
    EscapeOne('\'');
  }

  lemma EscapeOne(c: char)
    ensures Escape([c], true) == EscapeChar(c, true) && Escape([c], false) == EscapeChar(c, false)
  {
    assert [c][1..] == [];
  }
}
