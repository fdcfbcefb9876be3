/** The compact printer of marsksim/comm/tinyxml2.cc: XMLPrinter with its visitor callbacks. */
module XmlPrinter {
  import opened Seqs
  import opened Strings
  import opened XmlText
  import opened XmlParser

  // ---------- what is printed ----------

  function PrintAttributes(attributes: seq<Attribute>): string {
    if attributes == [] then []
    else " " + attributes[0].name + "=\"" + Escape(attributes[0].value, false) + "\"" + PrintAttributes(attributes[1..])
  }

  function PrintNode(n: Node): string
    decreases n, 0
  {
    match n
    case Element(name, attributes, kids) =>
      "<" + name + PrintAttributes(attributes) +
      if kids == [] then "/>" else ">" + PrintKids(kids) + "</" + name + ">"
    case Text(v, cdata) => if cdata then "<![CDATA[" + v + "]]>" else Escape(v, true)
    case Comment(v) => "<!--" + v + "-->"
    case Declaration(v) => "<?" + v + "?>"
    case Unknown(v) => "<!" + v + ">"
  }

  function PrintKids(kids: seq<Node>): string
    decreases kids, 1
  {
    if kids == [] then [] else PrintNode(kids[0]) + PrintKids(kids[1..])
  }

  // ---------- the printer ----------

  class Printer {
    var buffer: string
    var stack: seq<string>
    var elementJustOpened: bool
    var firstElement: bool
    var depth: int
    var textDepth: int

    constructor ()
      ensures buffer == [] && stack == [] && !elementJustOpened
    {
      buffer, stack, elementJustOpened, firstElement, depth, textDepth := [], [], false, true, 0, -1;
    }

    function Seal(): string
      reads this
    {
      if elementJustOpened then ">" else ""
    }

    method Print(s: string)
      modifies this`buffer
      ensures buffer == old(buffer) + s
    {
      buffer := buffer + s;
    }

    /** PrintString: runs of ordinary characters are printed at once, between entities. */
    method PrintString(s: string, restricted: bool)
      modifies this`buffer
      ensures buffer == old(buffer) + Escape(s, restricted)
    {
      var p, q := 0, 0;
      assert s[..0] == [];
      while q < |s|
        invariant 0 <= p <= q <= |s|
        invariant buffer + s[p..q] == old(buffer) + Escape(s[..q], restricted)
      {
        PrintStep(old(buffer), buffer, s, p, q, restricted);
        if IsEscaped(s[q], restricted) {
          Print(s[p..q]);
          p := q;
          Print(EntityOf(s[q]));
          p := p + 1;
        }
        q := q + 1;
      }
      assert s[..|s|] == s;
      if p < q {
        Print(s[p..]);
      }
    }

    method SealElementIfJustOpened()
      modifies this`buffer, this`elementJustOpened
      ensures buffer == old(buffer) + old(Seal()) && !elementJustOpened
    {
      if !elementJustOpened { return; }
      elementJustOpened := false;
      Print(">");
    }

    method OpenElement(name: string)
      modifies this
      ensures buffer == old(buffer) + old(Seal()) + "<" + name
      ensures stack == old(stack) + [name] && elementJustOpened
    {
      SealElementIfJustOpened();
      stack := stack + [name];
      Print("<");
      Print(name);
      elementJustOpened := true;
      firstElement := false;
      depth := depth + 1;
    }

    method PushAttributes(attributes: seq<Attribute>)
      modifies this`buffer
      ensures buffer == old(buffer) + PrintAttributes(attributes)
    {
      var i := 0;
      while i < |attributes|
        invariant 0 <= i <= |attributes|
        invariant buffer + PrintAttributes(attributes[i..]) == old(buffer) + PrintAttributes(attributes)
      {
        ghost var before := buffer;
        Print(" " + attributes[i].name + "=\"");
        PrintString(attributes[i].value, false);
        Print("\"");
        AttributeStep(before, attributes[i..]);
        assert attributes[i..][1..] == attributes[i + 1..];
        i := i + 1;
      }
    }

    method CloseElement()
      requires stack != []
      modifies this
      ensures buffer == old(buffer)
        + (if old(elementJustOpened) then "/>" else "</" + old(stack)[|old(stack)| - 1] + ">")
      ensures stack == old(stack)[..|old(stack)| - 1] && !elementJustOpened
    {
      depth := depth - 1;
      var name := stack[|stack| - 1];
      stack := stack[..|stack| - 1];
      if elementJustOpened {
        Print("/>");
      } else {
        Print("</" + name + ">");
      }
      if textDepth == depth { textDepth := -1; }
      elementJustOpened := false;
    }

    /** Accept: visits the node and its children.  The pending '>' of an open tag is printed
        only when a child follows, so the running state equals the plain recursive form. */
    method Accept(n: Node)
      modifies this
      ensures buffer == old(buffer) + old(Seal()) + PrintNode(n)
      ensures stack == old(stack) && !elementJustOpened
      decreases n, 0
    {
      match n
      case Element(name, attributes, kids) =>
        ElementPrinted(buffer + Seal(), name, attributes, kids);
        OpenElement(name);
        PushAttributes(attributes);
        AcceptKids(kids);
        CloseElement();
      case Text(v, cdata) =>
        textDepth := depth - 1;
        SealElementIfJustOpened();
        if cdata { Print("<![CDATA[" + v + "]]>"); } else { PrintString(v, true); }
      case Comment(v) =>
        SealElementIfJustOpened();
        firstElement := false;
        Print("<!--" + v + "-->");
      case Declaration(v) =>
        SealElementIfJustOpened();
        firstElement := false;
        Print("<?" + v + "?>");
      case Unknown(v) =>
        SealElementIfJustOpened();
        firstElement := false;
        Print("<!" + v + ">");
    }

    method AcceptKids(kids: seq<Node>)
      modifies this
      ensures kids == [] ==> buffer == old(buffer) && elementJustOpened == old(elementJustOpened)
      ensures kids != [] ==> buffer == old(buffer) + old(Seal()) + PrintKids(kids) && !elementJustOpened
      ensures stack == old(stack)
      decreases kids, 1
    {
      var i := 0;
      while i < |kids|
        invariant 0 <= i <= |kids| && stack == old(stack)
        invariant i == 0 ==> buffer == old(buffer) && elementJustOpened == old(elementJustOpened)
        invariant i > 0 ==> !elementJustOpened
        invariant buffer + Seal() + PrintKids(kids[i..]) == old(buffer) + old(Seal()) + PrintKids(kids)
      {
        ghost var before, seal := buffer, Seal();
        Accept(kids[i]);
        assert kids[i..][1..] == kids[i + 1..];
        KidStep(before, seal, kids[i..]);
        i := i + 1;
      }
    }
  }

  lemma EscapeSnoc(s: string, q: nat, restricted: bool)
    requires q < |s|
    ensures Escape(s[..q + 1], restricted) == Escape(s[..q], restricted) + EscapeChar(s[q], restricted)
  {
    assert s[..q + 1] == s[..q] + [s[q]];
    EscapeAppend(s[..q], [s[q]], restricted);
    assert [s[q]][1..] == [];
  }

  /** One round of PrintString: before it, base followed by the escaped prefix is what is printed
      plus the pending run. */
  lemma PrintStep(base: string, buffer: string, s: string, p: nat, q: nat, restricted: bool)
    requires p <= q < |s| && buffer + s[p..q] == base + Escape(s[..q], restricted)
    ensures IsEscaped(s[q], restricted) ==>
      buffer + s[p..q] + EntityOf(s[q]) + s[q + 1..q + 1] == base + Escape(s[..q + 1], restricted)
    ensures !IsEscaped(s[q], restricted) ==> buffer + s[p..q + 1] == base + Escape(s[..q + 1], restricted)
  {
    EscapeSnoc(s, q, restricted);
    Assoc(base, Escape(s[..q], restricted), EscapeChar(s[q], restricted));
    ExtendRun(buffer, s, p, q, if IsEscaped(s[q], restricted) then EntityOf(s[q]) else []);
  }

  lemma ExtendRun(buffer: string, s: string, p: nat, q: nat, entity: string)
    requires p <= q < |s|
    ensures buffer + s[p..q + 1] == buffer + s[p..q] + [s[q]]
    ensures buffer + s[p..q] + entity + s[q + 1..q + 1] == buffer + s[p..q] + entity
  {
  }

  lemma ElementPrinted(before: string, name: string, attributes: seq<Attribute>, kids: seq<Node>)
    ensures kids == [] ==>
      before + "<" + name + PrintAttributes(attributes) + "/>" == before + PrintNode(Element(name, attributes, kids))
    ensures kids != [] ==>
      before + "<" + name + PrintAttributes(attributes) + ">" + PrintKids(kids) + ("</" + name + ">")
      == before + PrintNode(Element(name, attributes, kids))
  {
    var open, close := "<" + name + PrintAttributes(attributes), "</" + name + ">";
    assert before + "<" + name + PrintAttributes(attributes) == before + open;
    if kids == [] {
      assert before + open + "/>" == before + (open + "/>");
    } else {
      Regroup(before, open, ">", PrintKids(kids), close);
      assert ">" + PrintKids(kids) + "</" + name + ">" == ">" + PrintKids(kids) + close;
    }
  }

  lemma Regroup(a: string, b: string, c: string, d: string, e: string)
    ensures a + b + c + d + e == a + (b + (c + d + e))
  {
  }

  lemma AttributeStep(before: string, attributes: seq<Attribute>)
    requires attributes != []
    ensures before + (" " + attributes[0].name + "=\"") + Escape(attributes[0].value, false) + "\""
      + PrintAttributes(attributes[1..])
         == before + PrintAttributes(attributes)
  {
  }

  lemma KidStep(before: string, seal: string, kids: seq<Node>)
    requires kids != []
    ensures before + seal + PrintNode(kids[0]) + "" + PrintKids(kids[1..]) == before + seal + PrintKids(kids)
  {
  }
}
