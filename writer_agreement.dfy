/** How the fork/join writer's output compares with the sequential writer's.

    They agree on every tree in which no list sits directly inside another
    list and the root is not a list. A list converted by its own task (the
    root, or an element of a list) has its elements written one level deeper
    than the sequential writer puts them, because `convertListWithName`
    places elements one level below the conversion task's level, which is right for a
    list under a map key but not for a list that is the conversion task's own value.

    `FixedConvert` is the fork/join writer with the elements of a list task
    placed at the conversion task's own level; it equals the sequential writer on every
    tree. */
module WriterAgreement {
  import opened Values
  import opened TextRules
  import opened Sequential
  import opened ForkJoin
  import WriterShape

  /** No list is an element of a list, anywhere in the tree. */
  predicate NoNestedList(v: Value)
    decreases v, 2
  {
    match v
    case Object(es) => NoNestedListEntries(es)
    case Array(xs) => NoNestedListItems(xs)
    case _ => true
  }

  predicate NoNestedListEntries(es: seq<Entry>)
    decreases es, 1
  {
    es != [] ==> NoNestedList(es[0].value) && NoNestedListEntries(es[1..])
  }

  predicate NoNestedListItems(xs: seq<Value>)
    decreases xs, 1
  {
    xs != [] ==> !xs[0].Array? && NoNestedList(xs[0]) && NoNestedListItems(xs[1..])
  }

  // ----- Where the writers agree -----

  /** A map or scalar with no nested list is written the same by both
      writers. */
  lemma {:induction false} ConvertAgrees(v: Value, level: nat)
    requires NoNestedList(v) && !v.Array?
    ensures Convert(v, level) == ValueToXml(v, level)
    decreases v, 2
  {
    match v
    case Object(es) => MapAgrees(es, level);
    case _ =>
  }

  lemma {:induction false} MapAgrees(es: seq<Entry>, level: nat)
    requires NoNestedListEntries(es)
    ensures MapFragments(es, level) == MapToXml(es, level)
    decreases es, 1
  {
    if es != [] {
      EntryAgrees(es[0], level);
      MapAgrees(es[1..], level);
    }
  }

  /** An entry is written the same: a list under a key has its elements one
      level below the key in both. */
  lemma {:induction false} EntryAgrees(e: Entry, level: nat)
    requires NoNestedList(e.value)
    ensures EntryFragment(e, level) == EntryXml(e, level)
    decreases e, 0
  {
    var key := SanitizeTagName(e.key);
    match e.value
    case Object(_) => ConvertAgrees(e.value, level + 1);
    case Array(xs) =>
      SingularRulesAgree(key);
      ListAgrees(xs, level, ToSingular(key));
    case _ =>
  }

  /** `convertListWithName` at level `level` writes what `listToXML` writes
      at `level + 1`, as long as no element is a list. */
  lemma {:induction false} ListAgrees(xs: seq<Value>, level: nat, tag: string)
    requires NoNestedListItems(xs)
    ensures ListFragments(xs, level, tag) == ListItems(xs, level + 1, tag)
    decreases xs, 1
  {
    if xs != [] {
      ItemAgrees(xs[0], level, tag);
      ListAgrees(xs[1..], level, tag);
    }
  }

  lemma {:induction false} ItemAgrees(x: Value, level: nat, tag: string)
    requires !x.Array? && NoNestedList(x)
    ensures ItemFragment(x, level, tag) == ItemXml(x, level + 1, tag)
    decreases x, 3
  {
    if x.Object? {
      ConvertAgrees(x, level + 2);
    }
  }

  /** The documents agree when the root is not a list and no list is nested
      in a list. */
  lemma DocumentsAgree(v: Value)
    requires NoNestedList(v) && !v.Array?
    ensures ForkJoinDocument(v) == Document(v)
  {
    ConvertAgrees(v, 1);
  }

  // ----- Where they do not -----

  /** A list converted by its own task comes out exactly as the sequential
      writer would write it one level deeper. */
  lemma ListTaskShifted(xs: seq<Value>, level: nat)
    requires NoNestedListItems(xs)
    ensures Convert(Array(xs), level) == ValueToXml(Array(xs), level + 1)
  {
    SingularRulesAgree("item");
    ListAgrees(xs, level, ToSingular("item"));
  }

  /** A list inside a list: the fork/join writer puts the inner elements
      three levels below the list it is converting, the sequential writer
      two. */
  lemma NestedListShifted(ys: seq<Value>, level: nat, tag: string)
    requires NoNestedListItems(ys)
    ensures ItemFragment(Array(ys), level, tag) ==
      Element(tag, "\n" + ValueToXml(Array(ys), level + 3) + Indent(level + 1), level + 1)
    ensures ItemXml(Array(ys), level + 1, tag) ==
      Element(tag, "\n" + ValueToXml(Array(ys), level + 2) + Indent(level + 1), level + 1)
  {
    ListTaskShifted(ys, level + 2);
  }

  lemma ElementLength(tag: string, body: string, level: nat)
    ensures |Element(tag, body, level)| == 2 * level + 2 * |tag| + |body| + 6
  {
  }

  /** The list `[null]` is one empty `item` element. */
  lemma NullList(level: nat)
    ensures ValueToXml(Array([Null]), level) == Element("item", "", level)
  {
    WriterShape.ItemIsSingular();
    var xs := [Null];
    assert xs[1..] == [];
    assert ListItems(xs, level, "item") == ItemXml(Null, level, "item");
  }

  /** `[null]`: the sequential writer indents its element by one level, the
      fork/join writer by two. */
  lemma RootListDiffers()
    ensures ForkJoinDocument(Array([Null])) != Document(Array([Null]))
  {
    ListTaskShifted([Null], 1);
    NullList(1);
    NullList(2);
    ElementLength("item", "", 1);
    ElementLength("item", "", 2);
  }

  /** The fork/join writer's content of the entry `"a": [[null]]`: one `a`
      element two levels in, holding an empty `item` four levels in. */
  lemma NestedEntryForked()
    ensures NamedListFragments([Array([Null])], 1, "a") ==
      Element("a", "\n" + Element("item", "", 4) + Indent(2), 2)
  {
    var inner := Array([Null]);
    SingularKeepsOtherWords("a");
    SingularRulesAgree("a");
    NestedListShifted([Null], 1, "a");
    var xs := [inner];
    assert xs[1..] == [];
    assert ListFragments(xs, 1, "a") == ItemFragment(inner, 1, "a") + ListFragments([], 1, "a");
    NullList(4);
  }

  /** The sequential writer's content of the same entry: the `item` is three
      levels in. */
  lemma NestedEntryWritten()
    ensures ListToXml([Array([Null])], 2, "a") ==
      Element("a", "\n" + Element("item", "", 3) + Indent(2), 2)
  {
    var inner := Array([Null]);
    SingularKeepsOtherWords("a");
    NestedListShifted([Null], 1, "a");
    var xs := [inner];
    assert xs[1..] == [];
    assert ListItems(xs, 2, "a") == ItemXml(inner, 2, "a") + ListItems([], 2, "a");
    NullList(3);
  }

  /** The entry `"a": [[null]]` is two characters longer in the fork/join
      writer's output. */
  lemma NestedEntryLonger(e: Entry)
    requires e == Entry("a", Array([Array([Null])]))
    ensures |EntryFragment(e, 1)| == |EntryXml(e, 1)| + 2
  {
    var inner := Array([Null]);
    assert IsTagChar('a');
    assert SanitizeTagName("a") == "a";
    NestedEntryForked();
    NestedEntryWritten();
    var forked := "\n" + NamedListFragments([inner], 1, "a") + Indent(1);
    var written := "\n" + ListToXml([inner], 2, "a") + Indent(1);
    assert EntryFragment(e, 1) == Element("a", forked, 1);
    assert EntryXml(e, 1) == Element("a", written, 1);
    ElementLength("item", "", 3);
    ElementLength("item", "", 4);
    ElementLength("a", "\n" + Element("item", "", 4) + Indent(2), 2);
    ElementLength("a", "\n" + Element("item", "", 3) + Indent(2), 2);
    ElementLength("a", forked, 1);
    ElementLength("a", written, 1);
  }

  /** `{"a": [[null]]}`: the innermost element is indented by three levels
      in the sequential document and by four in the fork/join one. */
  lemma NestedListDiffers()
    ensures ForkJoinDocument(Object([Entry("a", Array([Array([Null])]))])) !=
      Document(Object([Entry("a", Array([Array([Null])]))]))
  {
    var e := Entry("a", Array([Array([Null])]));
    NestedEntryLonger(e);
    assert [e][1..] == [];
    assert MapFragments([e], 1) == EntryFragment(e, 1);
    assert MapToXml([e], 1) == EntryXml(e, 1);
  }

  // ----- The corrected writer -----

  /** `compute` corrected by one change: a list is handed the level its
      elements go at (`FixedListFragments` takes the element level), so a
      list task writes its elements at the task's own level, while a list
      under a map key still has them one level below the key. Everything
      else, `ToSingularIesFirst` included, is as in `Convert`. */
  function FixedConvert(v: Value, level: nat): string
    decreases v, 2
  {
    match v
    case Null => ""
    case Object(es) => FixedMapFragments(es, level)
    case Array(xs) => FixedListFragments(xs, level, ToSingularIesFirst("item"))
    case _ => EscapeXml(ScalarText(v))
  }

  function FixedMapFragments(es: seq<Entry>, level: nat): string
    decreases es, 1
  {
    if es == [] then "" else FixedEntryFragment(es[0], level) + FixedMapFragments(es[1..], level)
  }

  /** An entry as `convertMap` writes it; a list under the key has its
      elements one level below the key. */
  function FixedEntryFragment(e: Entry, level: nat): string
    decreases e, 0
  {
    var key := SanitizeTagName(e.key);
    var body :=
      match e.value
      case Object(_) => "\n" + FixedConvert(e.value, level + 1) + Indent(level)
      case Array(xs) => "\n" + FixedListFragments(xs, level + 1, ToSingularIesFirst(key)) + Indent(level)
      case _ => FixedConvert(e.value, level);
    Element(key, body, level)
  }

  /** The elements of a list, at `itemLevel`. */
  function FixedListFragments(xs: seq<Value>, itemLevel: nat, tag: string): string
    decreases xs, 1
  {
    if xs == [] then "" else FixedItemFragment(xs[0], itemLevel, tag) + FixedListFragments(xs[1..], itemLevel, tag)
  }

  function FixedItemFragment(x: Value, itemLevel: nat, tag: string): string
    decreases x, 3
  {
    var body :=
      if x.Object? || x.Array? then "\n" + FixedConvert(x, itemLevel + 1) + Indent(itemLevel)
      else FixedConvert(x, itemLevel);
    Element(tag, body, itemLevel)
  }

  /** The corrected fork/join writer is byte-identical to the sequential
      writer on every tree. */
  lemma {:induction false} FixedConvertAgrees(v: Value, level: nat)
    ensures FixedConvert(v, level) == ValueToXml(v, level)
    decreases v, 2
  {
    match v
    case Object(es) => FixedMapAgrees(es, level);
    case Array(xs) =>
      SingularRulesAgree("item");
      FixedListAgrees(xs, level, ToSingular("item"));
    case _ =>
  }

  /** The correction changes nothing where the two writers already agree:
      on a non-list tree with no list directly inside a list. */
  lemma FixedConvertKeepsConvert(v: Value, level: nat)
    requires NoNestedList(v) && !v.Array?
    ensures FixedConvert(v, level) == Convert(v, level)
  {
    ConvertAgrees(v, level);
    FixedConvertAgrees(v, level);
  }

  lemma {:induction false} FixedMapAgrees(es: seq<Entry>, level: nat)
    ensures FixedMapFragments(es, level) == MapToXml(es, level)
    decreases es, 1
  {
    if es != [] {
      FixedEntryAgrees(es[0], level);
      FixedMapAgrees(es[1..], level);
    }
  }

  lemma {:induction false} FixedEntryAgrees(e: Entry, level: nat)
    ensures FixedEntryFragment(e, level) == EntryXml(e, level)
    decreases e, 0
  {
    var key := SanitizeTagName(e.key);
    match e.value
    case Object(_) => FixedConvertAgrees(e.value, level + 1);
    case Array(xs) =>
      SingularRulesAgree(key);
      FixedListAgrees(xs, level + 1, ToSingular(key));
    case _ => FixedConvertAgrees(e.value, level);
  }

  lemma {:induction false} FixedListAgrees(xs: seq<Value>, itemLevel: nat, tag: string)
    ensures FixedListFragments(xs, itemLevel, tag) == ListItems(xs, itemLevel, tag)
    decreases xs, 1
  {
    if xs != [] {
      FixedItemAgrees(xs[0], itemLevel, tag);
      FixedListAgrees(xs[1..], itemLevel, tag);
    }
  }

  lemma {:induction false} FixedItemAgrees(x: Value, itemLevel: nat, tag: string)
    ensures FixedItemFragment(x, itemLevel, tag) == ItemXml(x, itemLevel, tag)
    decreases x, 3
  {
    if x.Object? || x.Array? {
      FixedConvertAgrees(x, itemLevel + 1);
    } else {
      FixedConvertAgrees(x, itemLevel);
    }
  }

  /** The corrected document equals the sequential one for every tree. */
  lemma FixedDocumentAgrees(v: Value)
    ensures Header + FixedConvert(v, 1) + Footer == Document(v)
  {
    FixedConvertAgrees(v, 1);
  }
}
