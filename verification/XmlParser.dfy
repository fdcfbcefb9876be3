/**
  The recursive-descent parser of marsksim/comm/tinyxml2.cc.  The functions say what parsing a
  text means; the methods run the source's loops over an advancing pointer and are proved
  equal to them.
 */
module XmlParser {
  import opened Options
  import opened Strings
  import opened XmlText

  datatype Attribute = Attribute(name: string, value: string)

  datatype Node =
    | Element(name: string, attributes: seq<Attribute>, kids: seq<Node>)
    | Text(value: string, cdata: bool)
    | Comment(value: string)
    | Declaration(value: string)
    | Unknown(value: string)

  datatype XmlError =
    | ParsingElement | ParsingAttribute | ParsingText | ParsingCData | ParsingComment
    | ParsingDeclaration | ParsingUnknown | MismatchedElement | Parsing | EmptyDocument

  // ---------- names, attributes ----------

  datatype Token = NoToken | Token(text: string, rest: string)

  function ParseName(p: string): (t: Token)
    ensures t.Token? ==> t.text != [] && |t.rest| < |p|
  {
    if p == [] || !IsNameStartChar(p[0]) then NoToken
    else
      var n := 1 + NameSpan(p[1..]);
      Token(p[..n], p[n..])
  }

  /** ParseText: everything up to the end tag, and what follows the tag. */
  function ParseText(p: string, tag: string): (t: Token)
    requires tag != []
    ensures t.Token? ==> |t.text| + |tag| + |t.rest| == |p|
  {
    var i := Find(p, tag);
    if i < 0 then NoToken else Token(p[..i], p[i + |tag|..])
  }

  /** The part of an attribute behind its name: '=', a quote, and the raw value up to the same quote. */
  function ParseAttributeValue(p: string): (t: Token)
    ensures t.Token? ==> |t.rest| < |p|
  {
    var eq := SkipWhiteSpace(p);
    if eq == [] || eq[0] != '=' then NoToken
    else
      var quote := SkipWhiteSpace(eq[1..]);
      if quote == [] || (quote[0] != '"' && quote[0] != '\'') then NoToken
      else ParseText(quote[1..], [quote[0]])
  }

  datatype AttributeResult = BadAttribute | GoodAttribute(attribute: Attribute, rest: string)

  /** XMLAttribute::ParseDeep: name, '=', quoted value. */
  function ParseAttribute(p: string): (r: AttributeResult)
    ensures r.GoodAttribute? ==> |r.rest| < |p|
  {
    match ParseName(p)
    case NoToken => BadAttribute
    case Token(name, afterName) =>
      match ParseAttributeValue(afterName)
      case NoToken => BadAttribute
      case Token(raw, rest) => GoodAttribute(Attribute(CString(name), Flushed(raw, true)), rest)
  }

  predicate HasAttribute(attributes: seq<Attribute>, name: string) {
    exists i :: 0 <= i < |attributes| && attributes[i].name == name
  }

  datatype AttributesResult =
    | BadAttributes(error: XmlError)
    | GoodAttributes(attributes: seq<Attribute>, sealed: bool, rest: string)

  /** XMLElement::ParseAttributes with the attributes read so far. */
  function ParseAttributes(p: string, attributes: seq<Attribute>): (r: AttributesResult)
    ensures r.GoodAttributes? ==> |r.rest| < |p|
    decreases |p|
  {
    var q := SkipWhiteSpace(p);
    if q == [] then BadAttributes(ParsingElement)
    else if IsNameStartChar(q[0]) then
      match ParseAttribute(q)
      case BadAttribute => BadAttributes(ParsingAttribute)
      case GoodAttribute(a, rest) =>
        if HasAttribute(attributes, a.name) then BadAttributes(ParsingAttribute)
        else ParseAttributes(rest, attributes + [a])
    else if q[0] == '>' then GoodAttributes(attributes, false, q[1..])
    else if q[0] == '/' && |q| > 1 && q[1] == '>' then GoodAttributes(attributes, true, q[2..])
    else BadAttributes(ParsingElement)
  }

  // ---------- nodes ----------

  datatype Closing = OPEN | CLOSED | CLOSING

  /** A node's ParseDeep: a null pointer with the error set (if any), or the pointer it returns;
      endTag is the name of the closing tag its children ended with, empty if there was none. */
  datatype NodeResult =
    | Failed(error: Option<XmlError>)
    | Parsed(node: Node, closing: Closing, endTag: string, rest: string)

  /** XMLNode::ParseDeep: ended by a closing tag, or with a null pointer and the error set (if any). */
  datatype KidsResult =
    | Ended(kids: seq<Node>, endTag: string, rest: string)
    | Stopped(kids: seq<Node>, error: Option<XmlError>)

  /** The kinds of node that hold verbatim text between a header and a footer. */
  datatype Kind = DeclarationKind | CommentKind | CDataKind | UnknownKind

  function Header(k: Kind): (s: string)
    ensures s != [] && s[0] == '<'
  {
    match k
    case DeclarationKind => "<?"
    case CommentKind => "<!--"
    case CDataKind => "<![CDATA["
    case UnknownKind => "<!"
  }

  function Footer(k: Kind): (s: string)
    ensures s != []
  {
    match k
    case DeclarationKind => "?>"
    case CommentKind => "-->"
    case CDataKind => "]]>"
    case UnknownKind => ">"
  }

  function Verbatim(k: Kind, value: string): Node {
    match k
    case DeclarationKind => Declaration(value)
    case CommentKind => Comment(value)
    case CDataKind => Text(value, true)
    case UnknownKind => Unknown(value)
  }

  function VerbatimError(k: Kind): XmlError {
    match k
    case DeclarationKind => ParsingDeclaration
    case CommentKind => ParsingComment
    case CDataKind => ParsingCData
    case UnknownKind => ParsingUnknown
  }

  /** ParseDeep of the verbatim kinds: the text up to the footer. */
  function ParseVerbatim(p: string, k: Kind): (r: NodeResult)
    ensures r.Parsed? ==> |r.rest| <= |p|
  {
    match ParseText(p, Footer(k))
    case NoToken => Failed(Some(VerbatimError(k)))
    case Token(raw, rest) => Parsed(Verbatim(k, Flushed(raw, false)), OPEN, [], rest)
  }

  datatype Start = VerbatimStart(kind: Kind) | ElementStart | TextStart

  /** XMLDocument::Identify at the first non-space character. */
  function Identify(q: string): (s: Start)
    ensures s.VerbatimStart? ==> Header(s.kind) <= q
    ensures s.ElementStart? ==> q != [] && q[0] == '<'
    ensures s.TextStart? ==> q == [] || q[0] != '<'
  {
    if Header(DeclarationKind) <= q then VerbatimStart(DeclarationKind)
    else if Header(CommentKind) <= q then VerbatimStart(CommentKind)
    else if Header(CDataKind) <= q then VerbatimStart(CDataKind)
    else if Header(UnknownKind) <= q then VerbatimStart(UnknownKind)
    else if "<" <= q then ElementStart
    else TextStart
  }

  function ParsePlainText(p: string): (r: NodeResult)
    requires p != []
    ensures r.Parsed? && p[0] != '<' ==> |r.rest| < |p|
  {
    match ParseText(p, "<")
    case NoToken => Failed(Some(ParsingText))
    case Token(raw, rest) =>
      if rest == [] then Failed(None) else Parsed(Text(Flushed(raw, true), false), OPEN, [], p[|raw|..])
  }

  /** Identify followed by the node's ParseDeep.  docEmpty says that the document has
      no child yet. */
  function ParseNode(p: string, docEmpty: bool): (r: NodeResult)
    requires SkipWhiteSpace(p) != []
    ensures r.Parsed? ==> |r.rest| < |p|
    decreases |p|, 0
  {
    var q := SkipWhiteSpace(p);
    match Identify(q)
    case VerbatimStart(k) => ParseVerbatim(q[|Header(k)|..], k)
    case ElementStart => ParseElement(q[1..], docEmpty)
    case TextStart =>
      TextProgress(p);
      ParsePlainText(p)
  }

  lemma TextProgress(p: string)
    requires SkipWhiteSpace(p) != [] && SkipWhiteSpace(p)[0] != '<'
    ensures p != [] && p[0] != '<'
  {
  }

  /** XMLElement::ParseDeep. */
  function ParseElement(p: string, docEmpty: bool): (r: NodeResult)
    ensures r.Parsed? ==> |r.rest| <= |p|
    decreases |p|, 2
  {
    var q := SkipWhiteSpace(p);
    var closing := q != [] && q[0] == '/';
    match ParseName(if closing then q[1..] else q)
    case NoToken => Failed(None)
    case Token(rawName, afterName) =>
      var name := CString(rawName);
      match ParseAttributes(afterName, [])
      case BadAttributes(e) => Failed(Some(e))
      case GoodAttributes(attributes, sealed, rest) =>
        if sealed then Parsed(Element(name, attributes, []), CLOSED, [], rest)
        else if closing then Parsed(Element(name, attributes, []), CLOSING, [], rest)
        else if rest == [] then Parsed(Element(name, attributes, []), OPEN, [], rest)
        else
          match ParseKids(rest, [], false, docEmpty)
          case Ended(kids, endTag, after) => Parsed(Element(name, attributes, kids), OPEN, endTag, after)
          case Stopped(_, e) => Failed(e)
  }

  predicate Mismatch(closing: Closing, endTag: string, name: string) {
    if endTag == [] then closing == OPEN else closing != OPEN || endTag != name
  }

  /** XMLNode::ParseDeep with the children linked so far; top marks the document itself. */
  function ParseKids(p: string, kids: seq<Node>, top: bool, docEmpty: bool): (r: KidsResult)
    ensures r.Ended? ==> |r.rest| < |p|
    decreases |p|, 1
  {
    if SkipWhiteSpace(p) == [] then Stopped(kids, None)
    else
      var first := if top then kids == [] else docEmpty;
      match ParseNode(p, first)
      case Failed(e) => Stopped(kids, if e.None? then Some(Parsing) else e)
      case Parsed(node, closing, endTag, rest) =>
        if node.Declaration? && !first then Stopped(kids, Some(ParsingDeclaration))
        else if node.Element? && closing == CLOSING then Ended(kids, node.name, rest)
        else if node.Element? && Mismatch(closing, endTag, node.name) then Stopped(kids, Some(MismatchedElement))
        else ParseKids(rest, kids + [node], top, docEmpty)
  }

  const BOM: string := [0xEF as char, 0xBB as char, 0xBF as char]

  datatype DocumentResult = Failure(error: XmlError) | Success(kids: seq<Node>)

  /** XMLDocument::Parse. */
  function ParseDocument(text: string): DocumentResult {
    var p := SkipWhiteSpace(text);
    var q := if BOM <= p then p[3..] else p;
    if q == [] then Failure(EmptyDocument)
    else
      match ParseKids(q, [], true, true)
      case Ended(kids, _, _) => Success(kids)
      case Stopped(kids, e) => if e.None? then Success(kids) else Failure(e.value)
  }

  // ---------- strings flushed during parsing ----------

  /** Names are flushed while the rest is still to be parsed: attribute names to refuse a repeated one,
      element names and end tags to compare them.  Flushing writes no further than the character
      behind the name (StrPair.GetStr), and the parser has passed that one by then. */
  lemma AttributeNamePassed(p: string)
    requires ParseAttribute(p).GoodAttribute?
    ensures ParseName(p).Token? && |ParseAttribute(p).rest| < |ParseName(p).rest|
  {
  }

  function TagName(p: string): Token {
    var q := SkipWhiteSpace(p);
    ParseName(if q != [] && q[0] == '/' then q[1..] else q)
  }

  lemma ElementNamePassed(p: string, docEmpty: bool)
    requires ParseElement(p, docEmpty).Parsed?
    ensures TagName(p).Token? && |ParseElement(p, docEmpty).rest| < |TagName(p).rest|
    ensures ParseElement(p, docEmpty).node.Element? && ParseElement(p, docEmpty).node.name == CString(TagName(p).text)
  {
    var name := TagName(p);
    match ParseAttributes(name.rest, [])
    case GoodAttributes(_, _, rest) =>
    case BadAttributes(_) =>
  }

  // ---------- the parser's loops ----------

  method SkipSpaces(start: string) returns (p: string)
    ensures p == SkipWhiteSpace(start)
  {
    p := start;
    while p != [] && IsWhiteSpace(p[0])
      invariant SkipWhiteSpace(p) == SkipWhiteSpace(start)
      decreases |p|
    {
      p := p[1..];
    }
  }

  method ScanName(start: string) returns (t: Token)
    ensures t == ParseName(start)
  {
    if start == [] || !IsNameStartChar(start[0]) {
      return NoToken;
    }
    var n := 1;
    while n < |start| && IsNameChar(start[n])
      invariant 1 <= n <= |start| && n + NameSpan(start[n..]) == 1 + NameSpan(start[1..])
    {
      n := n + 1;
      assert start[n - 1..][1..] == start[n..];
    }
    t := Token(start[..n], start[n..]);
  }

  method ScanText(start: string, tag: string) returns (t: Token)
    requires tag != []
    ensures t == ParseText(start, tag)
  {
    var i := 0;
    while i < |start|
      invariant 0 <= i <= |start| && forall k :: 0 <= k < i ==> !Occurs(tag, start, k)
    {
      if start[i] == tag[0] && Occurs(tag, start, i) {
        return Token(start[..i], start[i + |tag|..]);
      }
      i := i + 1;
    }
    t := NoToken;
  }

  method ReadAttributeValue(start: string) returns (t: Token)
    ensures t == ParseAttributeValue(start)
  {
    var p := SkipSpaces(start);
    if p == [] || p[0] != '=' {
      return NoToken;
    }
    p := SkipSpaces(p[1..]);
    if p == [] || (p[0] != '"' && p[0] != '\'') {
      return NoToken;
    }
    t := ScanText(p[1..], [p[0]]);
  }

  method ReadAttribute(start: string) returns (r: AttributeResult)
    ensures r == ParseAttribute(start)
  {
    var name := ScanName(start);
    if name.NoToken? {
      return BadAttribute;
    }
    var value := ReadAttributeValue(name.rest);
    if value.NoToken? {
      return BadAttribute;
    }
    r := GoodAttribute(Attribute(CString(name.text), Flushed(value.text, true)), value.rest);
  }

  method FindAttribute(attributes: seq<Attribute>, name: string) returns (found: bool)
    ensures found == HasAttribute(attributes, name)
  {
    for i := 0 to |attributes|
      invariant forall k :: 0 <= k < i ==> attributes[k].name != name
    {
      if attributes[i].name == name {
        return true;
      }
    }
    found := false;
  }

  method ReadAttributes(start: string) returns (r: AttributesResult)
    ensures r == ParseAttributes(start, [])
  {
    var p, attributes := start, [];
    while true
      invariant ParseAttributes(p, attributes) == ParseAttributes(start, [])
      decreases |p|
    {
      var q := SkipSpaces(p);
      if q == [] {
        return BadAttributes(ParsingElement);
      } else if IsNameStartChar(q[0]) {
        var a := ReadAttribute(q);
        if a.BadAttribute? {
          return BadAttributes(ParsingAttribute);
        }
        var duplicate := FindAttribute(attributes, a.attribute.name);
        if duplicate {
          return BadAttributes(ParsingAttribute);
        }
        p, attributes := a.rest, attributes + [a.attribute];
      } else if q[0] == '>' {
        return GoodAttributes(attributes, false, q[1..]);
      } else if q[0] == '/' && |q| > 1 && q[1] == '>' {
        return GoodAttributes(attributes, true, q[2..]);
      } else {
        return BadAttributes(ParsingElement);
      }
    }
  }

  method ReadNode(p: string, docEmpty: bool) returns (r: NodeResult)
    requires SkipWhiteSpace(p) != []
    ensures r == ParseNode(p, docEmpty)
    decreases |p|, 0
  {
    var q := SkipSpaces(p);
    match Identify(q)
    case VerbatimStart(k) =>
      r := ReadVerbatim(q[|Header(k)|..], k);
    case ElementStart =>
      r := ReadElement(q[1..], docEmpty);
    case TextStart =>
      TextProgress(p);
      r := ReadPlainText(p);
  }

  method ReadVerbatim(p: string, k: Kind) returns (r: NodeResult)
    ensures r == ParseVerbatim(p, k)
  {
    var t := ScanText(p, Footer(k));
    if t.NoToken? {
      return Failed(Some(VerbatimError(k)));
    }
    r := Parsed(Verbatim(k, Flushed(t.text, false)), OPEN, [], t.rest);
  }

  method ReadPlainText(p: string) returns (r: NodeResult)
    requires p != []
    ensures r == ParsePlainText(p)
  {
    var t := ScanText(p, "<");
    if t.NoToken? {
      return Failed(Some(ParsingText));
    }
    if t.rest == [] {
      return Failed(None);
    }
    r := Parsed(Text(Flushed(t.text, true), false), OPEN, [], p[|t.text|..]);
  }

  method ReadElement(p: string, docEmpty: bool) returns (r: NodeResult)
    ensures r == ParseElement(p, docEmpty)
    decreases |p|, 2
  {
    var q := SkipSpaces(p);
    var closing := q != [] && q[0] == '/';
    var name := ScanName(if closing then q[1..] else q);
    if name.NoToken? {
      return Failed(None);
    }
    var attributes := ReadAttributes(name.rest);
    if attributes.BadAttributes? {
      return Failed(Some(attributes.error));
    }
    var element := Element(CString(name.text), attributes.attributes, []);
    if attributes.sealed {
      return Parsed(element, CLOSED, [], attributes.rest);
    }
    if closing {
      return Parsed(element, CLOSING, [], attributes.rest);
    }
    if attributes.rest == [] {
      return Parsed(element, OPEN, [], attributes.rest);
    }
    var kids := ReadKids(attributes.rest, false, docEmpty);
    match kids
    case Ended(k, endTag, after) => r := Parsed(Element(element.name, element.attributes, k), OPEN, endTag, after);
    case Stopped(_, e) => r := Failed(e);
  }

  /** XMLNode::ParseDeep: the loop over the children of one node. */
  method ReadKids(start: string, top: bool, docEmpty: bool) returns (r: KidsResult)
    ensures r == ParseKids(start, [], top, docEmpty)
    decreases |start|, 1
  {
    var p, kids := start, [];
    while true
      invariant |p| <= |start|
      invariant ParseKids(p, kids, top, docEmpty) == ParseKids(start, [], top, docEmpty)
      decreases |p|
    {
      var q := SkipSpaces(p);
      if q == [] {
        return Stopped(kids, None);
      }
      var first := if top then kids == [] else docEmpty;
      var n := ReadNode(p, first);
      if n.Failed? {
        return Stopped(kids, if n.error.None? then Some(Parsing) else n.error);
      }
      if n.node.Declaration? && !first {
        return Stopped(kids, Some(ParsingDeclaration));
      }
      if n.node.Element? && n.closing == CLOSING {
        return Ended(kids, n.node.name, n.rest);
      }
      if n.node.Element? && Mismatch(n.closing, n.endTag, n.node.name) {
        return Stopped(kids, Some(MismatchedElement));
      }
      p, kids := n.rest, kids + [n.node];
    }
  }

  method ReadDocument(text: string) returns (r: DocumentResult)
    ensures r == ParseDocument(text)
  {
    var p := SkipSpaces(text);
    if BOM <= p {
      p := p[3..];
    }
    if p == [] {
      return Failure(EmptyDocument);
    }
    var kids := ReadKids(p, true, true);
    match kids
    case Ended(k, _, _) => r := Success(k);
    case Stopped(k, e) => r := if e.None? then Success(k) else Failure(e.value);
  }
}
