/** `JsonParseTask` of `JsonParserForkJoin`: a second copy of the reader,
    with the monitor. Its routines are the same code as `JsonParser`'s and
    are proved against the same functions of `Grammar`, so both converters
    read the same tree and stop at the same place. */
module ParseTask {
  import opened Values
  import opened Grammar
  import opened LoopSteps
  import opened Monitor

  class JsonParseTask {
    const json: string
    const monitor: ExecutionMonitor
    var pos: nat

    ghost predicate Valid()
      reads this
    {
      Trimmed(json) && pos <= |json|
    }

    constructor(json: string, monitor: ExecutionMonitor)
      requires Trimmed(json)
      ensures this.json == json && this.monitor == monitor && pos == 0 && Valid()
    {
      this.json := json;
      this.monitor := monitor;
      pos := 0;
    }

    /** `compute`: the value at the cursor, counted as one task. The `finally`
        block runs on the error that ends a stuck read too, so the task is
        counted completed either way. */
    method Compute() returns (r: Parsed)
      requires Valid()
      modifies this`pos, monitor
      ensures Valid()
      ensures r == Grammar.ParseValue(json, old(pos))
      ensures r.Parsed? ==> pos == r.pos
      ensures monitor.RanTasks(1)
    {
      monitor.IncrementTasksCreated();
      monitor.IncrementActiveThreads();
      r := ParseValue();
      monitor.DecrementActiveThreads();
      monitor.IncrementTasksCompleted();
    }

    /** `parseValue`: skip whitespace, then dispatch on the next character;
        at the end of the text the value is null. */
    method ParseValue() returns (r: Parsed)
      requires Valid()
      modifies this`pos
      ensures Valid()
      ensures r == Grammar.ParseValue(json, old(pos))
      ensures r.Parsed? ==> pos == r.pos
      decreases |json| - pos, 1
    {
      SkipWhitespace();
      if pos >= |json| {
        return Parsed(Null, pos);
      }
      var c := json[pos];
      if c == '{' {
        r := ParseObject();
      } else if c == '[' {
        r := ParseArray();
      } else if c == '"' {
        var str := ParseString();
        r := Parsed(Text(str), pos);
      } else if c == 't' || c == 'f' {
        var b := ParseBoolean();
        r := Parsed(b, pos);
      } else if c == 'n' {
        var x := ParseNull();
        r := Parsed(x, pos);
      } else {
        var n := ParseNumber();
        r := Parsed(n, pos);
      }
    }

    /** `parseObject`, on the `{` at the cursor. The `LinkedHashMap` is the
        sequence `entries` of its entries, filled by `Put`; the ghost `pairs`
        are the pairs read so far, in order. */
    method ParseObject() returns (r: Parsed)
      requires Valid() && pos < |json|
      modifies this`pos
      ensures Valid()
      ensures r == Grammar.ParseObject(json, old(pos))
      ensures r.Parsed? ==> pos == r.pos
      decreases |json| - pos, 0
    {
      var entries: seq<Entry> := [];
      ghost var pairs: seq<Entry> := [];
      pos := pos + 1;
      SkipWhitespace();
      if pos < |json| && json[pos] == '}' {
        pos := pos + 1;
        return Parsed(Object(entries), pos);
      }
      ghost var target := ObjectMembers(json, pos, []);
      ObjectOfLoop(json, old(pos), pos, target);
      while pos < |json|
        invariant Valid() && old(pos) < pos
        invariant forall x | x in pairs :: WellFormed(x.value)
        invariant entries == PutAll(pairs)
        invariant ObjectMembers(json, pos, pairs) == target
        decreases |json| - pos
      {
        ghost var iteration := pos;
        var member := ParseMember();
        match member {
          case Break(_) =>
            assert target == Members(pairs, pos) by {
              MemberEndsLoop(json, iteration, pairs);
            }
            break;
          case MemberDiverges =>
            assert target == MembersDiverge by {
              MemberEndsLoop(json, iteration, pairs);
            }
            return Diverges;
          case KeyValue(key, value, _) =>
            PutAllSnoc(pairs, Entry(key, value));
            entries := Put(entries, key, value);
            var ends := EndOfItem('}');
            ghost var before := pairs;
            pairs := pairs + [Entry(key, value)];
            if ends {
              assert target == Members(pairs, pos) by {
                MemberThenSeparator(json, iteration, before, key, value, member.pos, ends, pos);
              }
              break;
            }
            assert (forall x | x in pairs :: WellFormed(x.value)) && ObjectMembers(json, pos, pairs) == target by {
              MemberThenSeparator(json, iteration, before, key, value, member.pos, ends, pos);
            }
        }
      }
      return Parsed(Object(entries), pos);
    }

    /** The first half of one iteration of the loop of `parseObject`: skip
        whitespace, read a quoted key, skip whitespace, pass the `:`, skip
        whitespace and read the value. A key that is not quoted or a missing
        `:` is where the Java loop breaks, with the cursor left there. */
    method ParseMember() returns (m: Member)
      requires Valid() && pos < |json|
      modifies this`pos
      ensures Valid()
      ensures m == MemberAt(json, old(pos))
      ensures !m.MemberDiverges? ==> pos == m.pos
      decreases |json| - pos, 2
    {
      ghost var p0 := pos;
      SkipWhitespace();
      if json[pos] != '"' {
        return Break(pos);
      }
      var key := ParseString();
      SkipWhitespace();
      if pos >= |json| || json[pos] != ':' {
        assert MemberAt(json, p0) == Break(pos);
        return Break(pos);
      }
      pos := pos + 1;
      SkipWhitespace();
      var value := ParseValue();
      assert MemberAt(json, p0) == if value.Diverges? then MemberDiverges else KeyValue(key, value.value, value.pos);
      if value.Diverges? {
        return MemberDiverges;
      }
      return KeyValue(key, value.value, value.pos);
    }

    /** `parseArray`, on the `[` at the cursor. An iteration that ends where
        it began leaves the cursor where it entered it, so the Java loop
        repeats it, adding the same element on every pass, until
        `OutOfMemoryError`; here that is `Diverges`. */
    method ParseArray() returns (r: Parsed)
      requires Valid() && pos < |json|
      modifies this`pos
      ensures Valid()
      ensures r == Grammar.ParseArray(json, old(pos))
      ensures r.Parsed? ==> pos == r.pos
      decreases |json| - pos, 0
    {
      var list: seq<Value> := [];
      pos := pos + 1;
      SkipWhitespace();
      if pos < |json| && json[pos] == ']' {
        pos := pos + 1;
        return Parsed(Array(list), pos);
      }
      ghost var target := ArrayElements(json, pos, []);
      ArrayOfLoop(json, old(pos), pos);
      while pos < |json|
        invariant Valid() && old(pos) < pos
        invariant WellFormed(Array(list))
        invariant ArrayElements(json, pos, list) == target
        decreases |json| - pos
      {
        var iteration := pos;
        SkipWhitespace();
        var value := ParseValue();
        if value.Diverges? {
          ElementNeverReturns(json, iteration, list);
          return Diverges;
        }
        var ends := EndOfItem(']');
        ghost var before := list;
        list := list + [value.value];
        if ends {
          assert target == Parsed(Array(list), pos) by {
            ElementThenSeparator(json, iteration, before, value.value, value.pos, ends, pos);
          }
          break;
        }
        if pos == iteration {
          assert target == Diverges by {
            ElementThenSeparator(json, iteration, before, value.value, value.pos, ends, pos);
          }
          return Diverges;
        }
        assert WellFormed(Array(list)) && ArrayElements(json, pos, list) == target by {
          ElementThenSeparator(json, iteration, before, value.value, value.pos, ends, pos);
        }
      }
      return Parsed(Array(list), pos);
    }

    /** `parseString`, on the opening quote at the cursor. */
    method ParseString() returns (str: string)
      requires Valid() && pos < |json|
      modifies this`pos
      ensures Valid()
      ensures str == Grammar.ParseString(json, old(pos)).0 && pos == Grammar.ParseString(json, old(pos)).1
    {
      var sb := "";
      pos := pos + 1;
      while pos < |json|
        invariant Valid()
        invariant StringBody(json, pos, sb) == Grammar.ParseString(json, old(pos))
        decreases |json| - pos
      {
        var c := json[pos];
        if c == '"' {
          pos := pos + 1;
          break;
        } else if c == '\\' {
          pos := pos + 1;
          if pos < |json| {
            var escaped := json[pos];
            match escaped {
              case 'n' => sb := sb + ['\n'];
              case 't' => sb := sb + ['\t'];
              case 'r' => sb := sb + ['\r'];
              case '\\' => sb := sb + ['\\'];
              case '"' => sb := sb + ['"'];
              case _ => sb := sb + [escaped];
            }
            pos := pos + 1;
          }
        } else {
          sb := sb + [c];
          pos := pos + 1;
        }
      }
      str := sb;
    }

    /** `parseNumber`: scan `-?digits(.digits)?`, then let the two Java
        number parsers decide what the token is. */
    method ParseNumber() returns (v: Value)
      requires Valid()
      modifies this`pos
      ensures Valid()
      ensures (v, pos) == Grammar.ParseNumber(json, old(pos))
    {
      var start := pos;
      if pos < |json| && json[pos] == '-' {
        pos := pos + 1;
      }
      ghost var digits := pos;
      while pos < |json| && IsDigit(json[pos])
        invariant digits <= pos <= |json|
        invariant DigitsEnd(json, pos) == DigitsEnd(json, digits)
        decreases |json| - pos
      {
        pos := pos + 1;
      }
      assert pos == DigitsEnd(json, digits);
      if pos < |json| && json[pos] == '.' {
        pos := pos + 1;
        ghost var fraction := pos;
        while pos < |json| && IsDigit(json[pos])
          invariant fraction <= pos <= |json|
          invariant DigitsEnd(json, pos) == DigitsEnd(json, fraction)
          decreases |json| - pos
        {
          pos := pos + 1;
        }
      }
      assert pos == NumberEnd(json, start);
      var numStr := json[start..pos];
      v := NumberValue(numStr);
    }

    /** `parseBoolean`. */
    method ParseBoolean() returns (v: Value)
      requires Valid()
      modifies this`pos
      ensures Valid()
      ensures (v, pos) == Grammar.ParseBoolean(json, old(pos))
    {
      if LiteralAt(json, pos, "true") {
        pos := pos + 4;
        return Bool(true);
      } else if LiteralAt(json, pos, "false") {
        pos := pos + 5;
        return Bool(false);
      }
      return Null;
    }

    /** `parseNull`. */
    method ParseNull() returns (v: Value)
      requires Valid()
      modifies this`pos
      ensures Valid()
      ensures (v, pos) == Grammar.ParseNull(json, old(pos))
    {
      if LiteralAt(json, pos, "null") {
        pos := pos + 4;
        return Null;
      }
      return Null;
    }

    /** The end of one iteration of the loops of `parseObject` and
        `parseArray`: skip whitespace; at the end of the text the loop breaks;
        `,` is passed over; `close` is passed over and the loop breaks;
        anything else is left for the next iteration. */
    method EndOfItem(close: char) returns (ends: bool)
      requires Valid()
      modifies this`pos
      ensures Valid()
      ensures (ends, pos) == Separator(json, old(pos), close)
    {
      SkipWhitespace();
      if pos >= |json| {
        return true;
      }
      var next := json[pos];
      if next == ',' {
        pos := pos + 1;
        ends := false;
      } else if next == close {
        pos := pos + 1;
        ends := true;
      } else {
        ends := false;
      }
    }

    /** `skipWhitespace`. */
    method SkipWhitespace()
      requires Valid()
      modifies this`pos
      ensures Valid()
      ensures pos == SkipWs(json, old(pos))
    {
      while pos < |json| && IsWhitespace(json[pos])
        invariant Valid()
        invariant SkipWs(json, pos) == SkipWs(json, old(pos))
        decreases |json| - pos
      {
        pos := pos + 1;
      }
    }
  }
}
