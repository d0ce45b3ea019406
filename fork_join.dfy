/** `JsonParserForkJoin`: the fork/join converter. It reads the text with its
    own copy of the parser (`JsonParseTask`), writes XML with a recursive task
    (`XmlConversionTask`) that splits large maps and lists into subtasks, and
    counts the tasks it runs in an `ExecutionMonitor`.

    Forked subtasks are modelled as computed at the point they are forked, and
    their results are joined in the order they were forked; the output is
    therefore a function of the tree (`Convert` and its helpers), and the
    monitor's counters after a run are a function of the tree too (`Tasks`). */
module ForkJoin {
  import opened Values
  import opened TextRules
  import opened Grammar
  import opened Sequential
  import opened Monitor
  import opened ParseTask

  /** Maps with more entries than this are split into one subtask per entry. */
  const MapThreshold: nat := 5

  /** Lists with more elements than this are split into one subtask per element. */
  const ListThreshold: nat := 10

  // ----- What the conversion task writes -----

  /** `toSingular` as the fork/join converter writes it, testing `ies` before
      `es`. */
  function ToSingularIesFirst(plural: string): string
  {
    if plural == [] then "item"
    else
      var p := ToLower(plural);
      if EndsWith(p, "ies") then p[..|p| - 3] + "y"
      else if EndsWith(p, "es") then p[..|p| - 2]
      else if EndsWith(p, "s") then p[..|p| - 1]
      else p
  }

  /** The two orders of the tests give the same singular: a word ending in
      `ies` also ends in `es`, and both converters then drop `ies` for `y`. */
  lemma SingularRulesAgree(plural: string)
    ensures ToSingularIesFirst(plural) == ToSingular(plural)
  {
    if plural != [] {
      var p := ToLower(plural);
      if EndsWith(p, "ies") {
        assert p[|p| - 2..] == p[|p| - 3..][1..];
        assert EndsWith(p, "es");
      }
    }
  }

  /** `compute` of an `XmlConversionTask`: null is empty, a map is its
      entries, a list is its elements under the tag `item`, and a scalar is
      its escaped text. */
  function Convert(v: Value, level: nat): string
    decreases v, 2
  {
    match v
    case Null => ""
    case Object(es) => MapFragments(es, level)
    case Array(xs) => NamedListFragments(xs, level, "item")
    case _ => EscapeXml(ScalarText(v))
  }

  /** `convertMap`: the fragments of the entries, in entry order, whether
      written in place or by forked subtasks. */
  function MapFragments(es: seq<Entry>, level: nat): string
    decreases es, 1
  {
    if es == [] then "" else EntryFragment(es[0], level) + MapFragments(es[1..], level)
  }

  /** What `convertMap` writes for one entry: the element named after the
      sanitised key; a map value converted one level deeper on its own lines,
      a list value's elements on their own lines, and a scalar on the line. */
  function EntryFragment(e: Entry, level: nat): string
    decreases e, 0
  {
    var key := SanitizeTagName(e.key);
    var body :=
      match e.value
      case Object(_) => "\n" + Convert(e.value, level + 1) + Indent(level)
      case Array(xs) => "\n" + NamedListFragments(xs, level, key) + Indent(level)
      case _ => Convert(e.value, level);
    Element(key, body, level)
  }

  /** `convertListWithName`: every element is named after the singular of
      the property name. */
  function NamedListFragments(xs: seq<Value>, level: nat, propertyName: string): string
    decreases xs, 2
  {
    ListFragments(xs, level, ToSingularIesFirst(propertyName))
  }

  function ListFragments(xs: seq<Value>, level: nat, tag: string): string
    decreases xs, 1
  {
    if xs == [] then "" else ItemFragment(xs[0], level, tag) + ListFragments(xs[1..], level, tag)
  }

  /** What `convertListWithName` writes for one element: the element one
      level below the conversion task's own level; a map or list converted two levels
      below it, a scalar on the line. */
  function ItemFragment(x: Value, level: nat, tag: string): string
    decreases x, 3
  {
    var body :=
      if x.Object? || x.Array? then "\n" + Convert(x, level + 2) + Indent(level + 1)
      else Convert(x, level + 1);
    Element(tag, body, level + 1)
  }

  // ----- How many tasks the conversion runs -----

  /** The `XmlConversionTask`s that converting `v` runs: its own, and one for
      every map value, list element and scalar below it. A list that is a map
      value has no task of its own: its elements are written by the map's
      task. The anonymous subtasks a large map or list forks do not touch
      the monitor. */
  function Tasks(v: Value): (n: nat)
    ensures n >= 1
    decreases v, 2
  {
    1 + match v
      case Object(es) => EntriesTasks(es)
      case Array(xs) => ItemsTasks(xs)
      case _ => 0
  }

  function EntriesTasks(es: seq<Entry>): nat
    decreases es, 1
  {
    if es == [] then 0 else EntryTasks(es[0]) + EntriesTasks(es[1..])
  }

  function EntryTasks(e: Entry): nat
    decreases e, 0
  {
    match e.value
    case Array(xs) => ItemsTasks(xs)
    case _ => Tasks(e.value)
  }

  function ItemsTasks(xs: seq<Value>): nat
    decreases xs, 1
  {
    if xs == [] then 0 else Tasks(xs[0]) + ItemsTasks(xs[1..])
  }

  // ----- Order -----

  /** A map's fragments are those of its first entries followed by those of
      the rest: entries come out in entry order. */
  lemma {:induction false} MapFragmentsAppend(a: seq<Entry>, b: seq<Entry>, level: nat)
    ensures MapFragments(a + b, level) == MapFragments(a, level) + MapFragments(b, level)
    ensures EntriesTasks(a + b) == EntriesTasks(a) + EntriesTasks(b)
  {
    if a == [] {
      assert a + b == b;
    } else {
      var ab := a + b;
      assert ab[0] == a[0] && ab[1..] == a[1..] + b;
      assert MapFragments(ab, level) == EntryFragment(a[0], level) + MapFragments(a[1..] + b, level);
      MapFragmentsAppend(a[1..], b, level);
    }
  }

  /** A list's fragments are those of its first elements followed by those
      of the rest: elements come out in list order. */
  lemma {:induction false} ListFragmentsAppend(a: seq<Value>, b: seq<Value>, level: nat, tag: string)
    ensures ListFragments(a + b, level, tag) == ListFragments(a, level, tag) + ListFragments(b, level, tag)
    ensures ItemsTasks(a + b) == ItemsTasks(a) + ItemsTasks(b)
  {
    if a == [] {
      assert a + b == b;
    } else {
      var ab := a + b;
      assert ab[0] == a[0] && ab[1..] == a[1..] + b;
      assert ListFragments(ab, level, tag) == ItemFragment(a[0], level, tag) + ListFragments(a[1..] + b, level, tag);
      ListFragmentsAppend(a[1..], b, level, tag);
    }
  }

  /** One more entry written. */
  lemma MapPrefixStep(es: seq<Entry>, i: nat, level: nat)
    requires i < |es|
    ensures MapFragments(es[..i + 1], level) == MapFragments(es[..i], level) + EntryFragment(es[i], level)
    ensures EntriesTasks(es[..i + 1]) == EntriesTasks(es[..i]) + EntryTasks(es[i])
  {
    assert es[..i + 1] == es[..i] + [es[i]];
    MapFragmentsAppend(es[..i], [es[i]], level);
    assert [es[i]][1..] == [];
  }

  /** One more element written. */
  lemma ListPrefixStep(xs: seq<Value>, i: nat, level: nat, tag: string)
    requires i < |xs|
    ensures ListFragments(xs[..i + 1], level, tag) == ListFragments(xs[..i], level, tag) + ItemFragment(xs[i], level, tag)
    ensures ItemsTasks(xs[..i + 1]) == ItemsTasks(xs[..i]) + Tasks(xs[i])
  {
    assert xs[..i + 1] == xs[..i] + [xs[i]];
    ListFragmentsAppend(xs[..i], [xs[i]], level, tag);
    assert [xs[i]][1..] == [];
  }

  // ----- The conversion task -----

  /** `XmlConversionTask`: converts `value` at indentation `level`. */
  class XmlConversionTask {
    const value: Value
    const tagName: string
    const level: nat
    const monitor: ExecutionMonitor

    constructor(value: Value, tagName: string, level: nat, monitor: ExecutionMonitor)
      ensures this.value == value && this.tagName == tagName && this.level == level && this.monitor == monitor
    {
      this.value := value;
      this.tagName := tagName;
      this.level := level;
      this.monitor := monitor;
    }

    /** `xs` is the conversion task's own list or the list value of one of its map's
        entries: the lists whose elements this task writes. */
    ghost predicate OwnList(xs: seq<Value>)
    {
      value == Array(xs) ||
      (value.Object? && exists k | 0 <= k < |value.entries| :: value.entries[k].value == Array(xs))
    }

    /** `compute`, counted as one task, around the conversion. */
    method Compute() returns (xml: string)
      modifies monitor
      ensures xml == Convert(value, level)
      ensures monitor.RanTasks(Tasks(value))
      decreases value, 6
    {
      monitor.IncrementTasksCreated();
      monitor.IncrementActiveThreads();
      match value {
        case Null =>
          xml := "";
        case Object(es) =>
          xml := ConvertMap(es);
        case Array(xs) =>
          xml := ConvertList(xs);
        case _ =>
          xml := EscapeXml(ScalarText(value));
      }
      monitor.DecrementActiveThreads();
      monitor.IncrementTasksCompleted();
    }

    /** `convertMap`. Above the threshold every entry is written by a forked
        subtask and the results are joined in the order they were forked;
        otherwise the same code runs in place. */
    method ConvertMap(es: seq<Entry>) returns (xml: string)
      requires value == Object(es)
      modifies monitor
      ensures xml == MapFragments(es, level)
      ensures monitor.RanTasks(EntriesTasks(es))
      decreases value, 5
    {
      if |es| > MapThreshold {
        xml := ConvertMapForked(es);
      } else {
        xml := ConvertMapInPlace(es);
      }
    }

    /** The branch of `convertMap` above the threshold: one subtask forked
        per entry, in entry order, then joined in the order forked. */
    method ConvertMapForked(es: seq<Entry>) returns (xml: string)
      requires value == Object(es)
      modifies monitor
      ensures xml == MapFragments(es, level)
      ensures monitor.RanTasks(EntriesTasks(es))
      decreases value, 4
    {
      xml := "";
      ghost var forked := seq(|es|, k requires 0 <= k < |es| => EntryFragment(es[k], level));
      var subtasks: seq<string> := [];
      var i := 0;
      while i < |es|
        invariant i <= |es| && subtasks == forked[..i]
        invariant monitor.RanTasks(EntriesTasks(es[..i]))
      {
        MapPrefixStep(es, i, level);
        var fragment := ConvertEntry(i);
        assert forked[i] == fragment;
        assert forked[..i + 1] == forked[..i] + [forked[i]];
        subtasks := subtasks + [fragment];
        i := i + 1;
      }
      assert es[..|es|] == es && subtasks == forked;
      var j := 0;
      while j < |subtasks|
        invariant j <= |subtasks|
        invariant xml == MapFragments(es[..j], level)
        invariant monitor.RanTasks(EntriesTasks(es))
      {
        MapPrefixStep(es, j, level);
        xml := xml + subtasks[j];
        j := j + 1;
      }
    }

    /** The branch of `convertMap` at or below the threshold: the same work
        for each entry in turn. */
    method ConvertMapInPlace(es: seq<Entry>) returns (xml: string)
      requires value == Object(es)
      modifies monitor
      ensures xml == MapFragments(es, level)
      ensures monitor.RanTasks(EntriesTasks(es))
      decreases value, 4
    {
      xml := "";
      var i := 0;
      while i < |es|
        invariant i <= |es|
        invariant xml == MapFragments(es[..i], level)
        invariant monitor.RanTasks(EntriesTasks(es[..i]))
      {
        MapPrefixStep(es, i, level);
        var fragment := ConvertEntry(i);
        xml := xml + fragment;
        i := i + 1;
      }
      assert es[..|es|] == es;
    }

    /** One iteration of `convertMap`'s loop, which is also the `compute` of
        the subtask it forks for an entry above the threshold. */
    method ConvertEntry(i: nat) returns (fragment: string)
      requires value.Object? && i < |value.entries|
      modifies monitor
      ensures fragment == EntryFragment(value.entries[i], level)
      ensures monitor.RanTasks(EntryTasks(value.entries[i]))
      decreases value, 3
    {
      var key := SanitizeTagName(value.entries[i].key);
      var val := value.entries[i].value;
      var body;
      match val {
        case Object(_) =>
          var subtask := new XmlConversionTask(val, key, level + 1, monitor);
          var inner := subtask.Compute();
          body := "\n" + inner + Indent(level);
        case Array(xs) =>
          var inner := ConvertListWithName(xs, key);
          body := "\n" + inner + Indent(level);
        case _ =>
          var subtask := new XmlConversionTask(val, key, level, monitor);
          body := subtask.Compute();
      }
      fragment := Element(key, body, level);
    }

    /** `convertList`. */
    method ConvertList(xs: seq<Value>) returns (xml: string)
      requires value == Array(xs)
      modifies monitor
      ensures xml == NamedListFragments(xs, level, "item")
      ensures monitor.RanTasks(ItemsTasks(xs))
      decreases value, 5
    {
      xml := ConvertListWithName(xs, "item");
    }

    /** `convertListWithName`. Above the threshold every element is written
        by a forked subtask and the results are joined in the order they were
        forked; otherwise the same code runs in place. */
    method ConvertListWithName(xs: seq<Value>, propertyName: string) returns (xml: string)
      requires OwnList(xs)
      modifies monitor
      ensures xml == NamedListFragments(xs, level, propertyName)
      ensures monitor.RanTasks(ItemsTasks(xs))
      decreases value, 2
    {
      var singularName := ToSingularIesFirst(propertyName);
      if |xs| > ListThreshold {
        xml := ConvertListForked(xs, singularName);
      } else {
        xml := ConvertListInPlace(xs, singularName);
      }
    }

    /** The branch of `convertListWithName` above the threshold: one subtask
        forked per element, in list order, then joined in the order forked. */
    method ConvertListForked(xs: seq<Value>, singularName: string) returns (xml: string)
      requires OwnList(xs)
      modifies monitor
      ensures xml == ListFragments(xs, level, singularName)
      ensures monitor.RanTasks(ItemsTasks(xs))
      decreases value, 1
    {
      xml := "";
      ghost var forked := seq(|xs|, k requires 0 <= k < |xs| => ItemFragment(xs[k], level, singularName));
      var subtasks: seq<string> := [];
      var i := 0;
      while i < |xs|
        invariant i <= |xs| && subtasks == forked[..i]
        invariant monitor.RanTasks(ItemsTasks(xs[..i]))
      {
        ListPrefixStep(xs, i, level, singularName);
        var fragment := ConvertItem(xs, i, singularName);
        assert forked[i] == fragment;
        assert forked[..i + 1] == forked[..i] + [forked[i]];
        subtasks := subtasks + [fragment];
        i := i + 1;
      }
      assert xs[..|xs|] == xs && subtasks == forked;
      var j := 0;
      while j < |subtasks|
        invariant j <= |subtasks|
        invariant xml == ListFragments(xs[..j], level, singularName)
        invariant monitor.RanTasks(ItemsTasks(xs))
      {
        ListPrefixStep(xs, j, level, singularName);
        xml := xml + subtasks[j];
        j := j + 1;
      }
    }

    /** The branch of `convertListWithName` at or below the threshold: the
        same work for each element in turn. */
    method ConvertListInPlace(xs: seq<Value>, singularName: string) returns (xml: string)
      requires OwnList(xs)
      modifies monitor
      ensures xml == ListFragments(xs, level, singularName)
      ensures monitor.RanTasks(ItemsTasks(xs))
      decreases value, 1
    {
      xml := "";
      var i := 0;
      while i < |xs|
        invariant i <= |xs|
        invariant xml == ListFragments(xs[..i], level, singularName)
        invariant monitor.RanTasks(ItemsTasks(xs[..i]))
      {
        ListPrefixStep(xs, i, level, singularName);
        var fragment := ConvertItem(xs, i, singularName);
        xml := xml + fragment;
        i := i + 1;
      }
      assert xs[..|xs|] == xs;
    }

    /** One iteration of `convertListWithName`'s loop, which is also the
        `compute` of the subtask it forks for an element above the
        threshold. */
    method ConvertItem(xs: seq<Value>, i: nat, singularName: string) returns (fragment: string)
      requires OwnList(xs) && i < |xs|
      modifies monitor
      ensures fragment == ItemFragment(xs[i], level, singularName)
      ensures monitor.RanTasks(Tasks(xs[i]))
      decreases value, 0
    {
      var item := xs[i];
      var body;
      if item.Object? || item.Array? {
        var subtask := new XmlConversionTask(item, singularName, level + 2, monitor);
        var inner := subtask.Compute();
        body := "\n" + inner + Indent(level + 1);
      } else {
        var subtask := new XmlConversionTask(item, singularName, level + 1, monitor);
        body := subtask.Compute();
      }
      fragment := Element(singularName, body, level + 1);
    }
  }

  // ----- The converter -----

  /** The document the fork/join `toXML` writes for the tree `v`. */
  function ForkJoinDocument(v: Value): string
  {
    Header + Convert(v, 1) + Footer
  }

  class JsonParserForkJoin {
    const monitor: ExecutionMonitor

    constructor()
      ensures fresh(monitor)
      ensures monitor.tasksCreated == 0 && monitor.tasksCompleted == 0
      ensures monitor.activeThreads == 0 && !monitor.isExecuting
    {
      monitor := new ExecutionMonitor();
    }

    /** `toXML`: reset the monitor, read the trimmed text with a parse task,
        convert the tree with a conversion task at level 1 and wrap it in the
        document. The `finally` block ends the execution on every path, the
        error that ends a stuck read included, and every task counted has
        completed by then. */
    method ToXml(json: string) returns (r: Outcome<string>)
      modifies monitor
      ensures r == match Grammar.Parse(json)
        case Diverges => Loops
        case Parsed(v, _) => Returns(ForkJoinDocument(v))
      ensures r.Returns? ==>
        monitor.tasksCreated == monitor.tasksCompleted == 1 + Tasks(Grammar.Parse(json).value)
      ensures r.Loops? ==> monitor.tasksCreated == monitor.tasksCompleted == 1
      ensures monitor.activeThreads == 0 && !monitor.isExecuting
      ensures monitor.Settled() && monitor.Progress() == 100.0
    {
      monitor.Reset();
      monitor.StartExecution();
      var parseTask := new JsonParseTask(Trim(json), monitor);
      var parsed := parseTask.Compute();
      if parsed.Diverges? {
        monitor.EndExecution();
        return Loops;
      }
      var conversionTask := new XmlConversionTask(parsed.value, "root", 1, monitor);
      var xmlContent := conversionTask.Compute();
      r := Returns(Header + xmlContent + Footer);
      monitor.EndExecution();
    }
  }
}
