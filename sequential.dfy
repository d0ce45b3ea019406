/** `JsonParser`: the sequential converter. An instance holds the trimmed
    input and a cursor `pos` that every `parse*` routine advances; the XML
    writer is a family of functions of the parsed tree.

    Each routine is proved to compute the function of the same name in
    `Grammar` from the cursor it starts at, and to leave the cursor where that
    function says. A call with no normal return in Java (an array loop that
    repeats an iteration without progress, adding an element on every pass
    until `OutOfMemoryError`) returns `Diverges` instead. */
module Sequential {
  import opened Values
  import opened TextRules
  import opened Grammar
  import opened LoopSteps

  /** What `toXML` writes before the converted value. */
  const Header: string := "<?xml version=\"1.0\" encoding=\"UTF-8\"?>\n<root>\n"

  /** What `toXML` writes after the converted value. */
  const Footer: string := "</root>"

  class JsonParser {
    const json: string
    var pos: nat

    ghost predicate Valid()
      reads this
    {
      Trimmed(json) && pos <= |json|
    }

    constructor(text: string)
      ensures json == Trim(text) && pos == 0 && Valid()
    {
      json := Trim(text);
      pos := 0;
    }

    /** `toXML`: the header, the value read from the cursor converted at
        level 1, and the closing root tag. */
    method ToXml() returns (r: Outcome<string>)
      requires Valid()
      modifies this`pos
      ensures Valid()
      ensures r == match Grammar.ParseValue(json, old(pos))
        case Diverges => Loops
        case Parsed(v, _) => Returns(Document(v))
      ensures r.Returns? ==> pos == Grammar.ParseValue(json, old(pos)).pos
    {
      var parsed := ParseValue();
      if parsed.Diverges? {
        return Loops;
      }
      r := Returns(Header + ValueToXml(parsed.value, 1) + Footer);
    }

    /** `parseValue`: skip whitespace, then dispatch on the next character;
        at the end of the text the value is null. */
    method ParseValue() returns (r: Parsed)
      requires Valid()
      modifies this`pos
      ensures Valid()
      ensures r == Grammar.ParseValue(json, old(pos))
      ensures r.Parsed? ==> pos == r.pos
      decreases |json| - pos, 1
    {
      SkipWhitespace();
      if pos >= |json| {
        return Parsed(Null, pos);
      }
      var c := json[pos];
      if c == '{' {
        r := ParseObject();
      } else if c == '[' {
        r := ParseArray();
      } else if c == '"' {
        var str := ParseString();
        r := Parsed(Text(str), pos);
      } else if c == 't' || c == 'f' {
        var b := ParseBoolean();
        r := Parsed(b, pos);
      } else if c == 'n' {
        var x := ParseNull();
        r := Parsed(x, pos);
      } else {
        var n := ParseNumber();
        r := Parsed(n, pos);
      }
    }

    /** `parseObject`, on the `{` at the cursor. The `LinkedHashMap` is the
        sequence `entries` of its entries, filled by `Put`; the ghost `pairs`
        are the pairs read so far, in order. */
    method ParseObject() returns (r: Parsed)
      requires Valid() && pos < |json|
      modifies this`pos
      ensures Valid()
      ensures r == Grammar.ParseObject(json, old(pos))
      ensures r.Parsed? ==> pos == r.pos
      decreases |json| - pos, 0
    {
      var entries: seq<Entry> := [];
      ghost var pairs: seq<Entry> := [];
      pos := pos + 1;
      SkipWhitespace();
      if pos < |json| && json[pos] == '}' {
        pos := pos + 1;
        return Parsed(Object(entries), pos);
      }
      ghost var target := ObjectMembers(json, pos, []);
      ObjectOfLoop(json, old(pos), pos, target);
      while pos < |json|
        invariant Valid() && old(pos) < pos
        invariant forall x | x in pairs :: WellFormed(x.value)
        invariant entries == PutAll(pairs)
        invariant ObjectMembers(json, pos, pairs) == target
        decreases |json| - pos
      {
        ghost var iteration := pos;
        var member := ParseMember();
        match member {
          case Break(_) =>
            assert target == Members(pairs, pos) by {
              MemberEndsLoop(json, iteration, pairs);
            }
            break;
          case MemberDiverges =>
            assert target == MembersDiverge by {
              MemberEndsLoop(json, iteration, pairs);
            }
            return Diverges;
          case KeyValue(key, value, _) =>
            PutAllSnoc(pairs, Entry(key, value));
            entries := Put(entries, key, value);
            var ends := EndOfItem('}');
            ghost var before := pairs;
            pairs := pairs + [Entry(key, value)];
            if ends {
              assert target == Members(pairs, pos) by {
                MemberThenSeparator(json, iteration, before, key, value, member.pos, ends, pos);
              }
              break;
            }
            assert (forall x | x in pairs :: WellFormed(x.value)) && ObjectMembers(json, pos, pairs) == target by {
              MemberThenSeparator(json, iteration, before, key, value, member.pos, ends, pos);
            }
        }
      }
      return Parsed(Object(entries), pos);
    }

    /** The first half of one iteration of the loop of `parseObject`: skip
        whitespace, read a quoted key, skip whitespace, pass the `:`, skip
        whitespace and read the value. A key that is not quoted or a missing
        `:` is where the Java loop breaks, with the cursor left there. */
    method ParseMember() returns (m: Member)
      requires Valid() && pos < |json|
      modifies this`pos
      ensures Valid()
      ensures m == MemberAt(json, old(pos))
      ensures !m.MemberDiverges? ==> pos == m.pos
      decreases |json| - pos, 2
    {
      ghost var p0 := pos;
      SkipWhitespace();
      if json[pos] != '"' {
        return Break(pos);
      }
      var key := ParseString();
      SkipWhitespace();
      if pos >= |json| || json[pos] != ':' {
        assert MemberAt(json, p0) == Break(pos);
        return Break(pos);
      }
      pos := pos + 1;
      SkipWhitespace();
      var value := ParseValue();
      assert MemberAt(json, p0) == if value.Diverges? then MemberDiverges else KeyValue(key, value.value, value.pos);
      if value.Diverges? {
        return MemberDiverges;
      }
      return KeyValue(key, value.value, value.pos);
    }

    /** `parseArray`, on the `[` at the cursor. An iteration that ends where
        it began leaves the cursor where it entered it, so the Java loop
        repeats it, adding the same element on every pass, until
        `OutOfMemoryError`; here that is `Diverges`. */
    method ParseArray() returns (r: Parsed)
      requires Valid() && pos < |json|
      modifies this`pos
      ensures Valid()
      ensures r == Grammar.ParseArray(json, old(pos))
      ensures r.Parsed? ==> pos == r.pos
      decreases |json| - pos, 0
    {
      var list: seq<Value> := [];
      pos := pos + 1;
      SkipWhitespace();
      if pos < |json| && json[pos] == ']' {
        pos := pos + 1;
        return Parsed(Array(list), pos);
      }
      ghost var target := ArrayElements(json, pos, []);
      ArrayOfLoop(json, old(pos), pos);
      while pos < |json|
        invariant Valid() && old(pos) < pos
        invariant WellFormed(Array(list))
        invariant ArrayElements(json, pos, list) == target
        decreases |json| - pos
      {
        var iteration := pos;
        SkipWhitespace();
        var value := ParseValue();
        if value.Diverges? {
          ElementNeverReturns(json, iteration, list);
          return Diverges;
        }
        var ends := EndOfItem(']');
        ghost var before := list;
        list := list + [value.value];
        if ends {
          assert target == Parsed(Array(list), pos) by {
            ElementThenSeparator(json, iteration, before, value.value, value.pos, ends, pos);
          }
          break;
        }
        if pos == iteration {
          assert target == Diverges by {
            ElementThenSeparator(json, iteration, before, value.value, value.pos, ends, pos);
          }
          return Diverges;
        }
        assert WellFormed(Array(list)) && ArrayElements(json, pos, list) == target by {
          ElementThenSeparator(json, iteration, before, value.value, value.pos, ends, pos);
        }
      }
      return Parsed(Array(list), pos);
    }

    /** `parseString`, on the opening quote at the cursor. */
    method ParseString() returns (str: string)
      requires Valid() && pos < |json|
      modifies this`pos
      ensures Valid()
      ensures str == Grammar.ParseString(json, old(pos)).0 && pos == Grammar.ParseString(json, old(pos)).1
    {
      var sb := "";
      pos := pos + 1;
      while pos < |json|
        invariant Valid()
        invariant StringBody(json, pos, sb) == Grammar.ParseString(json, old(pos))
        decreases |json| - pos
      {
        var c := json[pos];
        if c == '"' {
          pos := pos + 1;
          break;
        } else if c == '\\' {
          pos := pos + 1;
          if pos < |json| {
            var escaped := json[pos];
            match escaped {
              case 'n' => sb := sb + ['\n'];
              case 't' => sb := sb + ['\t'];
              case 'r' => sb := sb + ['\r'];
              case '\\' => sb := sb + ['\\'];
              case '"' => sb := sb + ['"'];
              case _ => sb := sb + [escaped];
            }
            pos := pos + 1;
          }
        } else {
          sb := sb + [c];
          pos := pos + 1;
        }
      }
      str := sb;
    }

    /** `parseNumber`: scan `-?digits(.digits)?`, then let the two Java
        number parsers decide what the token is. */
    method ParseNumber() returns (v: Value)
      requires Valid()
      modifies this`pos
      ensures Valid()
      ensures (v, pos) == Grammar.ParseNumber(json, old(pos))
    {
      var start := pos;
      if pos < |json| && json[pos] == '-' {
        pos := pos + 1;
      }
      ghost var digits := pos;
      while pos < |json| && IsDigit(json[pos])
        invariant digits <= pos <= |json|
        invariant DigitsEnd(json, pos) == DigitsEnd(json, digits)
        decreases |json| - pos
      {
        pos := pos + 1;
      }
      assert pos == DigitsEnd(json, digits);
      if pos < |json| && json[pos] == '.' {
        pos := pos + 1;
        ghost var fraction := pos;
        while pos < |json| && IsDigit(json[pos])
          invariant fraction <= pos <= |json|
          invariant DigitsEnd(json, pos) == DigitsEnd(json, fraction)
          decreases |json| - pos
        {
          pos := pos + 1;
        }
      }
      assert pos == NumberEnd(json, start);
      var numStr := json[start..pos];
      v := NumberValue(numStr);
    }

    /** `parseBoolean`. */
    method ParseBoolean() returns (v: Value)
      requires Valid()
      modifies this`pos
      ensures Valid()
      ensures (v, pos) == Grammar.ParseBoolean(json, old(pos))
    {
      if LiteralAt(json, pos, "true") {
        pos := pos + 4;
        return Bool(true);
      } else if LiteralAt(json, pos, "false") {
        pos := pos + 5;
        return Bool(false);
      }
      return Null;
    }

    /** `parseNull`. */
    method ParseNull() returns (v: Value)
      requires Valid()
      modifies this`pos
      ensures Valid()
      ensures (v, pos) == Grammar.ParseNull(json, old(pos))
    {
      if LiteralAt(json, pos, "null") {
        pos := pos + 4;
        return Null;
      }
      return Null;
    }

    /** The end of one iteration of the loops of `parseObject` and
        `parseArray`: skip whitespace; at the end of the text the loop breaks;
        `,` is passed over; `close` is passed over and the loop breaks;
        anything else is left for the next iteration. */
    method EndOfItem(close: char) returns (ends: bool)
      requires Valid()
      modifies this`pos
      ensures Valid()
      ensures (ends, pos) == Separator(json, old(pos), close)
    {
      SkipWhitespace();
      if pos >= |json| {
        return true;
      }
      var next := json[pos];
      if next == ',' {
        pos := pos + 1;
        ends := false;
      } else if next == close {
        pos := pos + 1;
        ends := true;
      } else {
        ends := false;
      }
    }

    /** `skipWhitespace`. */
    method SkipWhitespace()
      requires Valid()
      modifies this`pos
      ensures Valid()
      ensures pos == SkipWs(json, old(pos))
    {
      while pos < |json| && IsWhitespace(json[pos])
        invariant Valid()
        invariant SkipWs(json, pos) == SkipWs(json, old(pos))
        decreases |json| - pos
      {
        pos := pos + 1;
      }
    }
  }

  // ----- The writer -----

  /** The whole document `toXML` writes for the tree `v`. */
  function Document(v: Value): string
  {
    Header + ValueToXml(v, 1) + Footer
  }

  /** What both writers append for one element: the indentation, the opening
      tag, the body and the closing tag, then a line break. */
  function Element(tag: string, body: string, level: nat): string
  {
    Indent(level) + "<" + tag + ">" + body + "</" + tag + ">\n"
  }

  /** `valueToXML`: null is empty, a map is its entries, a list is its
      elements under the tag `item`, and a scalar is its escaped text. */
  function ValueToXml(v: Value, level: nat): string
    decreases v, 2
  {
    match v
    case Null => ""
    case Object(es) => MapToXml(es, level)
    case Array(xs) => ListToXml(xs, level, "item")
    case _ => EscapeXml(ScalarText(v))
  }

  /** `mapToXML`: the entries' elements, in entry order. */
  function MapToXml(es: seq<Entry>, level: nat): string
    decreases es, 1
  {
    if es == [] then "" else EntryXml(es[0], level) + MapToXml(es[1..], level)
  }

  /** One iteration of `mapToXML`: the element named after the sanitised key.
      A map value goes on its own lines one level deeper; a list value's
      elements go one level deeper, named after the key; a scalar stays on
      the line. */
  function EntryXml(e: Entry, level: nat): string
    decreases e, 0
  {
    var key := SanitizeTagName(e.key);
    var body :=
      match e.value
      case Object(_) => "\n" + ValueToXml(e.value, level + 1) + Indent(level)
      case Array(xs) => "\n" + ListToXml(xs, level + 1, key) + Indent(level)
      case _ => ValueToXml(e.value, level);
    Element(key, body, level)
  }

  /** `listToXML`: every element is named after the singular of the property
      name. */
  function ListToXml(xs: seq<Value>, level: nat, propertyName: string): string
    decreases xs, 2
  {
    ListItems(xs, level, ToSingular(propertyName))
  }

  /** The loop of `listToXML` over the elements, with the element tag fixed. */
  function ListItems(xs: seq<Value>, level: nat, tag: string): string
    decreases xs, 1
  {
    if xs == [] then "" else ItemXml(xs[0], level, tag) + ListItems(xs[1..], level, tag)
  }

  /** One iteration of `listToXML`: a map or list element goes on its own
      lines one level deeper, a scalar stays on the line. */
  function ItemXml(x: Value, level: nat, tag: string): string
    decreases x, 3
  {
    var body :=
      if x.Object? || x.Array? then "\n" + ValueToXml(x, level + 1) + Indent(level)
      else ValueToXml(x, level);
    Element(tag, body, level)
  }
}
