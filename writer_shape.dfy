/** The shape of what `valueToXML` writes: a sequence of XML elements, each
    named by a tag drawn from `[A-Za-z0-9_-]` and holding either escaped text on the same line or
    child elements on the lines below, indented two spaces per level.

    `Node` is that element tree, `Render` prints it, and `EntryNodes` and
    `ItemNodes` say which elements a map or a list becomes. The writer is
    proved to print exactly the rendering of those elements, and every
    element is proved to be well formed. */
module WriterShape {
  import opened Values
  import opened TextRules
  import opened Sequential

  /** An element: a name and either text or children. */
  datatype Node = Leaf(name: string, text: string) | Branch(name: string, children: seq<Node>)

  /** One element at indentation `level`: the children, if any, one level
      deeper between the opening and the closing line. */
  function Render(n: Node, level: nat): string
    decreases n, 0
  {
    var content :=
      match n
      case Leaf(_, t) => t
      case Branch(_, cs) => "\n" + RenderAll(cs, level + 1) + Indent(level);
    Element(n.name, content, level)
  }

  function RenderAll(ns: seq<Node>, level: nat): string
    decreases ns, 1
  {
    if ns == [] then "" else Render(ns[0], level) + RenderAll(ns[1..], level)
  }

  /** Tag names drawn from `[A-Za-z0-9_-]` everywhere, and text in which no markup character
      appears raw. */
  predicate WellFormedNode(n: Node)
    decreases n, 0
  {
    IsTagName(n.name) &&
    match n
    case Leaf(_, t) => SafeText(t)
    case Branch(_, cs) => WellFormedNodes(cs)
  }

  predicate WellFormedNodes(ns: seq<Node>)
    decreases ns, 1
  {
    ns != [] ==> WellFormedNode(ns[0]) && WellFormedNodes(ns[1..])
  }

  /** The text a scalar is written as: null is empty, anything else is the
      escaped `String.valueOf`. */
  function ScalarXml(v: Value): (t: string)
    requires !v.Object? && !v.Array?
    ensures SafeText(t)
    ensures !v.Null? ==> UnescapeXml(t) == ScalarText(v)
  {
    EscapeXmlSafe(ScalarText(v));
    EscapeXmlRoundTrip(ScalarText(v));
    if v.Null? then "" else EscapeXml(ScalarText(v))
  }

  /** The element of one map entry, named after the sanitised key. */
  function EntryNode(e: Entry): Node
    decreases e, 0
  {
    var key := SanitizeTagName(e.key);
    match e.value
    case Object(es) => Branch(key, EntryNodes(es))
    case Array(xs) => Branch(key, ItemNodes(xs, ToSingular(key)))
    case _ => Leaf(key, ScalarXml(e.value))
  }

  function EntryNodes(es: seq<Entry>): (ns: seq<Node>)
    ensures |ns| == |es|
    decreases es, 1
  {
    if es == [] then [] else [EntryNode(es[0])] + EntryNodes(es[1..])
  }

  /** The element of one list element, named `tag`. A nested list's elements
      are named `item`. */
  function ItemNode(x: Value, tag: string): Node
    decreases x, 0
  {
    match x
    case Object(es) => Branch(tag, EntryNodes(es))
    case Array(xs) => Branch(tag, ItemNodes(xs, "item"))
    case _ => Leaf(tag, ScalarXml(x))
  }

  function ItemNodes(xs: seq<Value>, tag: string): (ns: seq<Node>)
    ensures |ns| == |xs|
    decreases xs, 1
  {
    if xs == [] then [] else [ItemNode(xs[0], tag)] + ItemNodes(xs[1..], tag)
  }

  lemma ItemIsSingular()
    ensures ToSingular("item") == "item"
  {
    SingularKeepsOtherWords("item");
  }

  lemma ItemIsTagName()
    ensures IsTagName("item")
  {
    assert IsTagChar('i') && IsTagChar('t') && IsTagChar('e') && IsTagChar('m');
  }

  /** Tag names are only drawn from `[A-Za-z0-9_-]`; nothing makes them XML
      names. An empty key gives the empty tag. */
  lemma EmptyKeyTag()
    ensures EntryXml(Entry("", Null), 1) == "  <></>\n"
  {
    assert SanitizeTagName("") == "";
    assert ValueToXml(Null, 1) == "";
    assert Indent(1) == "  ";
  }

  /** A key may start with a digit, and keeps it. */
  lemma DigitKeyTag()
    ensures EntryXml(Entry("1", Null), 1) == "  <1></1>\n"
  {
    assert "1"[1..] == "";
    assert SanitizeTagName("1") == "1" + SanitizeTagName("");
    assert ValueToXml(Null, 1) == "";
    assert Indent(1) == "  ";
  }

  /** The elements of a list under the key `s` get the empty tag. */
  lemma PluralSItemTag()
    ensures ListToXml([Null], 2, "s") == "    <></>\n"
  {
    SingularOfPluralS("");
    assert "" + "s" == "s";
    var xs := [Null];
    assert ListToXml(xs, 2, "s") == ListItems(xs, 2, "");
    assert xs[1..] == [];
    assert ListItems(xs, 2, "") == ItemXml(Null, 2, "") + ListItems([], 2, "");
    assert ValueToXml(Null, 2) == "";
    assert Indent(2) == "    ";
  }

  // ----- The writer prints the elements -----

  /** `valueToXML` of a map or a list is the rendering of its elements; of a
      scalar, its text. */
  lemma {:induction false} ValueRendersNodes(v: Value, level: nat)
    ensures v.Object? ==> ValueToXml(v, level) == RenderAll(EntryNodes(v.entries), level)
    ensures v.Array? ==> ValueToXml(v, level) == RenderAll(ItemNodes(v.items, "item"), level)
    ensures !v.Object? && !v.Array? ==> ValueToXml(v, level) == ScalarXml(v)
    decreases v, 2
  {
    match v
    case Object(es) => MapRendersNodes(es, level);
    case Array(xs) =>
      ItemIsSingular();
      ListRendersNodes(xs, level, "item");
    case _ =>
  }

  lemma {:induction false} MapRendersNodes(es: seq<Entry>, level: nat)
    ensures MapToXml(es, level) == RenderAll(EntryNodes(es), level)
    decreases es, 1
  {
    if es != [] {
      EntryRendersNode(es[0], level);
      MapRendersNodes(es[1..], level);
    }
  }

  lemma {:induction false} EntryRendersNode(e: Entry, level: nat)
    ensures EntryXml(e, level) == Render(EntryNode(e), level)
    decreases e, 0
  {
    var key := SanitizeTagName(e.key);
    match e.value
    case Object(es) =>
      MapRendersNodes(es, level + 1);
      assert ValueToXml(e.value, level + 1) == MapToXml(es, level + 1);
      assert EntryXml(e, level) == Element(key, "\n" + MapToXml(es, level + 1) + Indent(level), level);
    case Array(xs) =>
      ListRendersNodes(xs, level + 1, ToSingular(key));
      assert EntryXml(e, level) == Element(key, "\n" + ListToXml(xs, level + 1, key) + Indent(level), level);
    case _ =>
      assert EntryXml(e, level) == Element(key, ValueToXml(e.value, level), level);
  }

  lemma {:induction false} ListRendersNodes(xs: seq<Value>, level: nat, tag: string)
    ensures ListItems(xs, level, tag) == RenderAll(ItemNodes(xs, tag), level)
    decreases xs, 1
  {
    if xs != [] {
      ItemRendersNode(xs[0], level, tag);
      ListRendersNodes(xs[1..], level, tag);
    }
  }

  lemma {:induction false} ItemRendersNode(x: Value, level: nat, tag: string)
    ensures ItemXml(x, level, tag) == Render(ItemNode(x, tag), level)
    decreases x, 3
  {
    match x
    case Object(es) =>
      ValueRendersNodes(x, level + 1);
      var cs := EntryNodes(es);
      assert ItemNode(x, tag) == Branch(tag, cs);
      assert ItemXml(x, level, tag) == Element(tag, "\n" + RenderAll(cs, level + 1) + Indent(level), level);
      assert Render(Branch(tag, cs), level) == Element(tag, "\n" + RenderAll(cs, level + 1) + Indent(level), level);
    case Array(xs) =>
      ValueRendersNodes(x, level + 1);
      var cs := ItemNodes(xs, "item");
      assert ItemNode(x, tag) == Branch(tag, cs);
      assert ItemXml(x, level, tag) == Element(tag, "\n" + RenderAll(cs, level + 1) + Indent(level), level);
      assert Render(Branch(tag, cs), level) == Element(tag, "\n" + RenderAll(cs, level + 1) + Indent(level), level);
    case _ =>
      assert ItemNode(x, tag) == Leaf(tag, ScalarXml(x));
      assert ItemXml(x, level, tag) == Element(tag, ScalarXml(x), level);
      assert Render(Leaf(tag, ScalarXml(x)), level) == Element(tag, ScalarXml(x), level);
  }

  // ----- Every element is well formed -----

  lemma {:induction false} EntryNodesWellFormed(es: seq<Entry>)
    ensures WellFormedNodes(EntryNodes(es))
    decreases es, 1
  {
    if es != [] {
      EntryNodeWellFormed(es[0]);
      EntryNodesWellFormed(es[1..]);
      assert EntryNodes(es)[1..] == EntryNodes(es[1..]);
    }
  }

  lemma {:induction false} EntryNodeWellFormed(e: Entry)
    ensures WellFormedNode(EntryNode(e))
    decreases e, 0
  {
    var key := SanitizeTagName(e.key);
    match e.value
    case Object(es) => EntryNodesWellFormed(es);
    case Array(xs) =>
      SingularKeepsTagNames(key);
      ItemNodesWellFormed(xs, ToSingular(key));
    case _ =>
  }

  lemma {:induction false} ItemNodesWellFormed(xs: seq<Value>, tag: string)
    requires IsTagName(tag)
    ensures WellFormedNodes(ItemNodes(xs, tag))
    decreases xs, 1
  {
    if xs != [] {
      ItemNodeWellFormed(xs[0], tag);
      ItemNodesWellFormed(xs[1..], tag);
      assert ItemNodes(xs, tag)[1..] == ItemNodes(xs[1..], tag);
    }
  }

  lemma {:induction false} ItemNodeWellFormed(x: Value, tag: string)
    requires IsTagName(tag)
    ensures WellFormedNode(ItemNode(x, tag))
    decreases x, 0
  {
    match x
    case Object(es) => EntryNodesWellFormed(es);
    case Array(xs) =>
      ItemIsTagName();
      ItemNodesWellFormed(xs, "item");
    case _ =>
  }

  /** The document `toXML` writes for a map or a list is the header, a
      sequence of well-formed elements one level in, and the footer; for a
      scalar, the header, its escaped text and the footer. */
  lemma DocumentShape(v: Value)
    ensures v.Object? ==>
      Document(v) == Header + RenderAll(EntryNodes(v.entries), 1) + Footer && WellFormedNodes(EntryNodes(v.entries))
    ensures v.Array? ==>
      Document(v) == Header + RenderAll(ItemNodes(v.items, "item"), 1) + Footer && WellFormedNodes(ItemNodes(v.items, "item"))
    ensures !v.Object? && !v.Array? ==> Document(v) == Header + ScalarXml(v) + Footer
  {
    ValueRendersNodes(v, 1);
    if v.Object? {
      EntryNodesWellFormed(v.entries);
    } else if v.Array? {
      ItemIsTagName();
      ItemNodesWellFormed(v.items, "item");
    }
  }

  // ----- Order -----

  /** Rendering a sequence of elements is rendering each in turn: the map's
      entries come out in entry order and the list's elements in list
      order. */
  lemma {:induction false} RenderAllAppend(a: seq<Node>, b: seq<Node>, level: nat)
    ensures RenderAll(a + b, level) == RenderAll(a, level) + RenderAll(b, level)
  {
    if a == [] {
      assert a + b == b;
    } else {
      assert (a + b)[0] == a[0] && (a + b)[1..] == a[1..] + b;
      RenderAllAppend(a[1..], b, level);
    }
  }

  lemma {:induction false} MapToXmlAppend(a: seq<Entry>, b: seq<Entry>, level: nat)
    ensures MapToXml(a + b, level) == MapToXml(a, level) + MapToXml(b, level)
  {
    if a == [] {
      assert a + b == b;
    } else {
      var ab := a + b;
      assert ab[0] == a[0] && ab[1..] == a[1..] + b;
      assert MapToXml(ab, level) == EntryXml(a[0], level) + MapToXml(a[1..] + b, level);
      MapToXmlAppend(a[1..], b, level);
    }
  }

  lemma {:induction false} ListItemsAppend(a: seq<Value>, b: seq<Value>, level: nat, tag: string)
    ensures ListItems(a + b, level, tag) == ListItems(a, level, tag) + ListItems(b, level, tag)
  {
    if a == [] {
      assert a + b == b;
    } else {
      var ab := a + b;
      assert ab[0] == a[0] && ab[1..] == a[1..] + b;
      assert ListItems(ab, level, tag) == ItemXml(a[0], level, tag) + ListItems(a[1..] + b, level, tag);
      ListItemsAppend(a[1..], b, level, tag);
    }
  }
}
