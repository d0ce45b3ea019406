/** Properties of the lenient reader: how objects are assembled, where reading
    stops early, what strings and numbers decode to, the inputs on which the
    array loop has no normal return, and that a value written as JSON text is read back
    unchanged. */
module ReaderFacts {
  import opened Values
  import opened TextRules
  import opened Grammar
  import opened LoopSteps

  // ----- Text at a position -----

  /** `LiteralAt` is an equality of the slice of `s` with the literal. */
  lemma {:induction false} LiteralAtSlice(s: string, p: nat, t: string)
    ensures LiteralAt(s, p, t) <==> p + |t| <= |s| && s[p..p + |t|] == t
    decreases |t|
  {
    if t != [] && p + |t| <= |s| {
      LiteralAtSlice(s, p + 1, t[1..]);
      assert s[p..p + |t|] == [s[p]] + s[p + 1..p + 1 + |t[1..]|];
      assert t == [t[0]] + t[1..];
    }
  }

  lemma {:induction false} LiteralAtChar(s: string, p: nat, t: string, j: nat)
    requires LiteralAt(s, p, t) && j < |t|
    ensures p + j < |s| && s[p + j] == t[j]
    decreases j
  {
    if j > 0 {
      LiteralAtChar(s, p + 1, t[1..], j - 1);
    }
  }

  lemma {:induction false} LiteralAtSplit(s: string, p: nat, a: string, b: string)
    ensures LiteralAt(s, p, a + b) <==> LiteralAt(s, p, a) && LiteralAt(s, p + |a|, b)
    decreases |a|
  {
    if a == [] {
      assert a + b == b;
    } else {
      LiteralAtSplit(s, p + 1, a[1..], b);
      assert (a + b)[1..] == a[1..] + b;
    }
  }

  /** The parts of `a:b` followed by the separator `c` and `rest`, at `p`:
      `a` has length `k` and `rest` starts at `n`. */
  lemma SplitPair(s: string, p: nat, a: string, b: string, c: char, rest: string, k: nat, n: nat)
    requires LiteralAt(s, p, a + (":" + (b + ([c] + rest))))
    requires k == |a| && n == p + k + 1 + |b| + 1
    ensures LiteralAt(s, p, a) && p + k < |s| && s[p + k] == ':'
    ensures LiteralAt(s, p + k + 1, b) && n <= |s| && s[n - 1] == c
    ensures LiteralAt(s, n, rest)
  {
    LiteralAtSplit(s, p, a, ":" + (b + ([c] + rest)));
    assert (":" + (b + ([c] + rest)))[1..] == b + ([c] + rest);
    LiteralAtSplit(s, p + k + 1, b, [c] + rest);
    assert ([c] + rest)[1..] == rest;
  }

  /** The parts of `b` followed by the separator `c` and `rest`, at `p`. */
  lemma SplitAt(s: string, p: nat, b: string, c: char, rest: string)
    requires LiteralAt(s, p, b + ([c] + rest))
    ensures LiteralAt(s, p, b) && p + |b| < |s| && s[p + |b|] == c
    ensures LiteralAt(s, p + |b| + 1, rest)
  {
    LiteralAtSplit(s, p, b, [c] + rest);
    assert ([c] + rest)[1..] == rest;
  }

  /** The parts of `b` followed by the closing `c`, at `p`. */
  lemma SplitLast(s: string, p: nat, b: string, c: char)
    requires LiteralAt(s, p, b + [c])
    ensures LiteralAt(s, p, b) && p + |b| < |s| && s[p + |b|] == c
  {
    LiteralAtSplit(s, p, b, [c]);
  }

  /** Skipping whitespace over a run of whitespace lands after it. */
  lemma {:induction false} SkipWsOver(s: string, p: nat, n: nat)
    requires p + n <= |s|
    requires forall i | p <= i < p + n :: IsWhitespace(s[i])
    ensures SkipWs(s, p) == SkipWs(s, p + n)
    decreases n
  {
    if n > 0 {
      SkipWsOver(s, p + 1, n - 1);
    }
  }

  // ----- Dispatch of parseValue on the first character -----

  /** After whitespace, `{` starts an object. */
  lemma DispatchObject(s: string, p: nat)
    requires Trimmed(s) && p <= |s| && SkipWs(s, p) < |s| && s[SkipWs(s, p)] == '{'
    ensures ParseValue(s, p) == ParseObject(s, SkipWs(s, p))
  {
  }

  /** After whitespace, `[` starts a list. */
  lemma DispatchArray(s: string, p: nat)
    requires Trimmed(s) && p <= |s| && SkipWs(s, p) < |s| && s[SkipWs(s, p)] == '['
    ensures ParseValue(s, p) == ParseArray(s, SkipWs(s, p))
  {
  }

  /** After whitespace, `"` starts a string. */
  lemma DispatchString(s: string, p: nat)
    requires Trimmed(s) && p <= |s| && SkipWs(s, p) < |s| && s[SkipWs(s, p)] == '"'
    ensures ParseValue(s, p)
      == Parsed(Text(ParseString(s, SkipWs(s, p)).0), ParseString(s, SkipWs(s, p)).1)
  {
    var q := SkipWs(s, p);
    assert ParseScalar(s, q) == (Text(ParseString(s, q).0), ParseString(s, q).1);
  }

  /** After whitespace, any character other than `{`, `[`, `"`, `t`, `f` and
      `n` starts a number token, whatever it is. */
  lemma DispatchNumber(s: string, p: nat)
    requires Trimmed(s) && p <= |s| && SkipWs(s, p) < |s|
    requires s[SkipWs(s, p)] !in "{[\"tfn"
    ensures ParseValue(s, p) == Parsed(ParseNumber(s, SkipWs(s, p)).0, ParseNumber(s, SkipWs(s, p)).1)
  {
    var q := SkipWs(s, p);
    assert s[q] != '{' && s[q] != '[' && s[q] != '"' && s[q] != 't' && s[q] != 'f' && s[q] != 'n';
    assert ParseScalar(s, q) == ParseNumber(s, q);
  }

  /** `{` followed by a key reads the members and puts them into a map. */
  lemma ObjectOfMembers(s: string, p: nat, ps: seq<Entry>, q: nat)
    requires Trimmed(s) && p + 1 < |s| && s[p] == '{' && s[p + 1] == '"'
    requires ObjectMembers(s, p + 1, []) == Members(ps, q)
    ensures ParseValue(s, p) == Parsed(Object(PutAll(ps)), q)
  {
    assert SkipWs(s, p) == p;
    assert ParseValue(s, p) == ParseObject(s, p);
    var q0 := SkipWs(s, p + 1);
    assert q0 == p + 1 && s[q0] != '}';
    assert ObjectMembers(s, q0, []) == Members(ps, q);
  }

  /** `[` followed by the start of a value reads the elements. */
  lemma ArrayOfElements(s: string, p: nat)
    requires Trimmed(s) && p + 1 < |s| && s[p] == '['
    requires s[p + 1] != ']' && !IsWhitespace(s[p + 1])
    ensures ParseValue(s, p) == ArrayElements(s, p + 1, [])
  {
    assert SkipWs(s, p) == p;
    DispatchArray(s, p);
    assert SkipWs(s, p + 1) == p + 1;
  }

  /** `[` followed by `]` reads the empty list. */
  lemma EmptyArray(s: string, p: nat)
    requires Trimmed(s) && p + 1 < |s| && s[p] == '[' && s[p + 1] == ']'
    ensures ParseValue(s, p) == Parsed(Array([]), p + 2)
  {
    assert SkipWs(s, p) == p;
    DispatchArray(s, p);
    assert SkipWs(s, p + 1) == p + 1;
  }

  /** Elements read from a `[` make up the list. */
  lemma ArrayOfItems(s: string, p: nat, xs: seq<Value>, n: nat)
    requires Trimmed(s) && p + 1 < |s| && s[p] == '['
    requires s[p + 1] != ']' && !IsWhitespace(s[p + 1])
    requires ArrayElements(s, p + 1, []) == Parsed(Array([] + xs), n)
    ensures ParseValue(s, p) == Parsed(Array(xs), n)
  {
    ArrayOfElements(s, p);
    assert [] + xs == xs;
  }

  /** A number token `t` at `p`, as far as the number loop reads, is read as
      the value of `t`. */
  lemma NumberAt(s: string, p: nat, t: string, n: nat)
    requires Trimmed(s) && p < |s| && (s[p] == '-' || s[p] == '.' || IsDigit(s[p]))
    requires LiteralAt(s, p, t) && n == p + |t| && NumberEnd(s, p) == n
    ensures ParseValue(s, p) == Parsed(NumberValue(t), n)
  {
    assert SkipWs(s, p) == p;
    DispatchNumber(s, p);
    LiteralAtSlice(s, p, t);
    assert ParseNumber(s, p) == (NumberValue(t), n);
  }

  /** `"key":value` at `p` is read as that pair. */
  lemma MemberAtReads(s: string, p: nat, key: string, k: nat, v: Value, q: nat)
    requires Trimmed(s) && p + k + 1 < |s| && s[p] == '"'
    requires ParseString(s, p) == (key, p + k)
    requires s[p + k] == ':' && !IsWhitespace(s[p + k + 1])
    requires ParseValue(s, p + k + 1) == Parsed(v, q)
    ensures MemberAt(s, p) == KeyValue(key, v, q)
  {
    assert SkipWs(s, p) == p;
    assert SkipWs(s, p + k) == p + k;
    assert SkipWs(s, p + k + 1) == p + k + 1;
  }

  /** One iteration of the object loop on a pair followed by `c`, which is
      `,` or `}`, at `q`. */
  lemma MemberStep(s: string, p: nat, acc: seq<Entry>, key: string, v: Value, c: char, q: nat)
    requires Trimmed(s) && p < |s| && MemberAt(s, p) == KeyValue(key, v, q)
    requires forall x | x in acc :: WellFormed(x.value)
    requires q < |s| && s[q] == c && (c == ',' || c == '}')
    ensures forall x | x in acc + [Entry(key, v)] :: WellFormed(x.value)
    ensures c == '}' ==> ObjectMembers(s, p, acc) == Members(acc + [Entry(key, v)], q + 1)
    ensures c == ',' ==> ObjectMembers(s, p, acc) == ObjectMembers(s, q + 1, acc + [Entry(key, v)])
  {
    assert SkipWs(s, q) == q;
    assert Separator(s, q, '}') == (c == '}', q + 1);
    EntriesWellFormedAppend(acc, Entry(key, v));
  }

  /** One iteration of the array loop on a value followed by `c`, which is
      `,` or `]`, at `n - 1`. */
  lemma ItemStep(s: string, p: nat, acc: seq<Value>, v: Value, c: char, n: nat)
    requires Trimmed(s) && p < |s| && !IsWhitespace(s[p]) && WellFormed(Array(acc))
    requires 0 < n <= |s| && ParseValue(s, p) == Parsed(v, n - 1)
    requires s[n - 1] == c && (c == ',' || c == ']')
    ensures WellFormed(Array(acc + [v]))
    ensures c == ']' ==> ArrayElements(s, p, acc) == Parsed(Array(acc + [v]), n)
    ensures c == ',' ==> ArrayElements(s, p, acc) == ArrayElements(s, n, acc + [v])
  {
    assert SkipWs(s, p) == p;
    assert SkipWs(s, n - 1) == n - 1;
    assert Separator(s, n - 1, ']') == (c == ']', n);
    ElementThenSeparator(s, p, acc, v, n - 1, c == ']', n);
  }

  // ----- Objects -----

  /** The key/value pairs `parseObject` reads at `p`, in text order. */
  function ObjectPairs(s: string, p: nat): seq<Entry>
    requires Trimmed(s) && p < |s|
  {
    var q := SkipWs(s, p + 1);
    if q < |s| && s[q] == '}' then []
    else
      match ObjectMembers(s, q, [])
      case Members(ps, _) => ps
      case MembersDiverge => []
  }

  /** The object read lists each key once, in the order of its first occurrence
      in the text, with the value of its last occurrence. */
  lemma ObjectFirstPositionLastValue(s: string, p: nat)
    requires Trimmed(s) && p < |s| && ParseObject(s, p).Parsed?
    ensures Keys(ParseObject(s, p).value.entries) == FirstOccurrences(Keys(ObjectPairs(s, p)))
    ensures forall e | e in ParseObject(s, p).value.entries ::
      LastValue(ObjectPairs(s, p), e.key) == Some(e.value)
  {
    var ps := ObjectPairs(s, p);
    assert ParseObject(s, p).value.entries == PutAll(ps);
    PutAllKeyOrder(ps);
    PutAllLastValueWins(ps);
  }

  /** `{`, whitespace, `}` is an empty object, whatever follows. */
  lemma EmptyObject(s: string, p: nat, n: nat)
    requires Trimmed(s) && p + n + 1 < |s| && s[p] == '{' && s[p + n + 1] == '}'
    requires forall i | p + 1 <= i < p + 1 + n :: IsWhitespace(s[i])
    ensures ParseValue(s, p) == Parsed(Object([]), p + n + 2)
  {
    SkipWsOver(s, p + 1, n);
  }

  /** A key that does not start with a quote ends the object: the pairs read so
      far are kept and the cursor stays on the offending character. */
  lemma UnquotedKeyEndsObject(s: string, p: nat, n: nat, acc: seq<Entry>)
    requires Trimmed(s) && p + n < |s| && s[p + n] != '"' && !IsWhitespace(s[p + n])
    requires forall i | p <= i < p + n :: IsWhitespace(s[i])
    requires forall x | x in acc :: WellFormed(x.value)
    ensures ObjectMembers(s, p, acc) == Members(acc, p + n)
  {
    SkipWsOver(s, p, n);
    assert MemberAt(s, p) == Break(p + n);
  }

  /** A quoted key not followed by `:` ends the object: the pairs read so far
      are kept and the cursor stays after the whitespace that follows the key,
      on the offending character or at the end of the text. Whitespace may
      come before the key and after it. */
  lemma MissingColonEndsObject(s: string, p: nat, m: nat, key: string, n: nat, acc: seq<Entry>)
    requires Trimmed(s) && LiteralAt(s, p + m, Quote(key))
    requires forall i | p <= i < p + m :: IsWhitespace(s[i])
    requires p + m + |Quote(key)| + n <= |s|
    requires forall i | p + m + |Quote(key)| <= i < p + m + |Quote(key)| + n :: IsWhitespace(s[i])
    requires p + m + |Quote(key)| + n == |s|
          || (s[p + m + |Quote(key)| + n] != ':' && !IsWhitespace(s[p + m + |Quote(key)| + n]))
    requires forall x | x in acc :: WellFormed(x.value)
    ensures ObjectMembers(s, p, acc) == Members(acc, p + m + |Quote(key)| + n)
  {
    var q := p + m;
    var e := q + |Quote(key)|;
    SkipWsOver(s, p, m);
    QuoteReadsBack(s, q, key);
    assert SkipWs(s, q) == q;
    SkipWsOver(s, e, n);
    assert SkipWs(s, e + n) == e + n;
    assert MemberAt(s, p) == Break(e + n);
  }

  // ----- Strings -----

  /** The body of a JSON string for `t`: quotes and backslashes are escaped,
      every other character stands for itself. */
  function QuoteBody(t: string): (r: string)
    ensures |r| >= |t|
  {
    if t == [] then []
    else (if t[0] == '"' || t[0] == '\\' then ['\\', t[0]] else [t[0]]) + QuoteBody(t[1..])
  }

  function Quote(t: string): (r: string)
    ensures |r| >= 2 && r[0] == '"' && r[|r| - 1] == '"'
  {
    "\"" + QuoteBody(t) + "\""
  }

  lemma {:induction false} StringBodyReadsQuoted(s: string, p: nat, t: string, acc: string)
    requires LiteralAt(s, p, QuoteBody(t) + "\"")
    ensures StringBody(s, p, acc) == (acc + t, p + |QuoteBody(t)| + 1)
    decreases t
  {
    if t == [] {
      assert QuoteBody(t) + "\"" == "\"";
      assert s[p] == s[p..p + 1][0];
      assert acc + t == acc;
    } else {
      var c := t[0];
      var head := if c == '"' || c == '\\' then ['\\', c] else [c];
      assert QuoteBody(t) + "\"" == head + (QuoteBody(t[1..]) + "\"");
      LiteralAtSplit(s, p, head, QuoteBody(t[1..]) + "\"");
      assert s[p] == head[0];
      if c == '"' || c == '\\' {
        assert s[p + 1] == c;
        StringBodyReadsQuoted(s, p + 2, t[1..], acc + [c]);
      } else {
        StringBodyReadsQuoted(s, p + 1, t[1..], acc + [c]);
      }
      assert acc + [c] + t[1..] == acc + t;
    }
  }

  /** `parseString` reads back every string written by `Quote`, and the cursor
      ends just past the closing quote. */
  lemma QuoteReadsBack(s: string, p: nat, t: string)
    requires LiteralAt(s, p, Quote(t))
    ensures s[p] == '"'
    ensures ParseString(s, p) == (t, p + |Quote(t)|)
  {
    LiteralAtSplit(s, p, "\"", QuoteBody(t) + "\"");
    assert Quote(t) == "\"" + (QuoteBody(t) + "\"");
    assert |Quote(t)| == |QuoteBody(t)| + 2;
    StringBodyReadsQuoted(s, p + 1, t, []);
    assert [] + t == t;
    assert ParseString(s, p) == StringBody(s, p + 1, []);
  }

  /** From `p` on, no quote closes the string: every `"` is the second
      character of an escape pair. */
  predicate NoClosingQuote(s: string, p: nat)
    requires p <= |s|
    decreases |s| - p
  {
    p == |s|
    || (s[p] != '"'
        && if s[p] == '\\' then p + 1 == |s| || NoClosingQuote(s, p + 2) else NoClosingQuote(s, p + 1))
  }

  /** The text of a string body that runs to the end of the text: each escape
      pair stands for one character, and a backslash that is the last
      character is dropped. */
  function DecodedToEnd(s: string, p: nat): string
    requires p <= |s|
    decreases |s| - p
  {
    if p == |s| then ""
    else if s[p] == '\\' then
      if p + 1 < |s| then [Unescape(s[p + 1])] + DecodedToEnd(s, p + 2) else ""
    else [s[p]] + DecodedToEnd(s, p + 1)
  }

  /** A string with no closing quote runs to the end of the text and yields its
      decoded text; a string with one stops just after it. */
  lemma {:induction false} UnterminatedString(s: string, p: nat, acc: string)
    requires p <= |s|
    ensures NoClosingQuote(s, p) ==> StringBody(s, p, acc) == (acc + DecodedToEnd(s, p), |s|)
    ensures !NoClosingQuote(s, p) ==> p < StringBody(s, p, acc).1 && s[StringBody(s, p, acc).1 - 1] == '"'
    decreases |s| - p
  {
    if p == |s| {
      assert acc + DecodedToEnd(s, p) == acc;
    } else if s[p] == '"' {
    } else if s[p] == '\\' {
      if p + 1 < |s| {
        var c := Unescape(s[p + 1]);
        UnterminatedString(s, p + 2, acc + [c]);
        assert acc + [c] + DecodedToEnd(s, p + 2) == acc + DecodedToEnd(s, p);
      } else {
        assert acc + DecodedToEnd(s, p) == acc;
      }
    } else {
      UnterminatedString(s, p + 1, acc + [s[p]]);
      assert acc + [s[p]] + DecodedToEnd(s, p + 1) == acc + DecodedToEnd(s, p);
    }
  }

  /** Without quotes or backslashes nothing closes the string and the text
      decodes to itself. */
  lemma {:induction false} PlainTextToEnd(s: string, p: nat)
    requires p <= |s|
    requires forall i | p <= i < |s| :: s[i] != '"' && s[i] != '\\'
    ensures NoClosingQuote(s, p) && DecodedToEnd(s, p) == s[p..]
    decreases |s| - p
  {
    if p < |s| {
      PlainTextToEnd(s, p + 1);
      assert [s[p]] + s[p + 1..] == s[p..];
    }
  }

  /** A backslash and the character after it are read as one character:
      `\n`, `\t` and `\r` as control characters, any other as itself. */
  lemma EscapeRead(s: string, p: nat, acc: string)
    requires p + 1 < |s| && s[p] == '\\'
    ensures StringBody(s, p, acc) == StringBody(s, p + 2, acc + [Unescape(s[p + 1])])
    ensures s[p + 1] == 'n' ==> Unescape(s[p + 1]) == '\n'
    ensures s[p + 1] == 't' ==> Unescape(s[p + 1]) == '\t'
    ensures s[p + 1] == 'r' ==> Unescape(s[p + 1]) == '\r'
    ensures s[p + 1] !in "ntr" ==> Unescape(s[p + 1]) == s[p + 1]
  {
  }

  lemma TrailingBackslashDropped(s: string, p: nat, acc: string)
    requires p + 1 == |s| && s[p] == '\\'
    ensures StringBody(s, p, acc) == (acc, |s|)
  {
  }

  // ----- Numbers -----

  lemma {:induction false} DecimalValueOfDigits(n: nat)
    ensures AllDigits(NatToString(n))
    ensures DecimalValue(NatToString(n)) == n
  {
    var r := NatToString(n);
    if n >= 10 {
      DecimalValueOfDigits(n / 10);
      assert r[..|r| - 1] == NatToString(n / 10);
    }
  }

  /** `Long.parseLong` reads back `Long.toString` of every `long`. */
  lemma ParseLongOfIntToString(n: int)
    requires MinLong <= n <= MaxLong
    ensures ParseLong(IntToString(n)) == Some(n)
  {
    var m: nat := if n < 0 then -n else n;
    var ds := NatToString(m);
    DecimalValueOfDigits(m);
    assert IsDigit(ds[0]);
    if n < 0 {
      var t := "-" + ds;
      assert IntToString(n) == t;
      assert t[1..] == ds;
      assert ParseLong(t) == Some(0 - DecimalValue(ds) as int);
    } else {
      assert IntToString(n) == ds;
      assert ParseLong(ds) == Some(DecimalValue(ds) as int);
    }
  }

  /** A token without `.` that `Long.parseLong` rejects is returned as text:
      the empty token, a lone `-`, or a value out of range on either side. */
  lemma RejectedNumbersAreText(ds: string)
    requires AllDigits(ds)
    ensures NumberValue("") == Text("")
    ensures NumberValue("-") == Text("-")
    ensures ds != [] && DecimalValue(ds) > MaxLong ==> NumberValue(ds) == Text(ds)
    ensures ds != [] && DecimalValue(ds) > MaxLong + 1 ==> NumberValue("-" + ds) == Text("-" + ds)
  {
    if ds != [] && DecimalValue(ds) > MaxLong {
      assert '.' !in ds by {
        forall i | 0 <= i < |ds| ensures ds[i] != '.' { assert IsDigit(ds[i]); }
      }
      assert ds[0] != '-' && ds[0] != '+' by { assert IsDigit(ds[0]); }
      if DecimalValue(ds) > MaxLong + 1 {
        var t := "-" + ds;
        assert t[1..] == ds;
        assert '.' !in t by {
          forall i | 0 <= i < |t| ensures t[i] != '.' {
            if i > 0 { assert t[i] == ds[i - 1]; }
          }
        }
        assert ParseLong(t) == None;
      }
    }
  }

  lemma {:induction false} DigitsEndOver(s: string, p: nat, n: nat)
    requires p + n <= |s|
    requires forall i | p <= i < p + n :: IsDigit(s[i])
    requires p + n == |s| || !IsDigit(s[p + n])
    ensures DigitsEnd(s, p) == p + n
    decreases n
  {
    if n > 0 {
      DigitsEndOver(s, p + 1, n - 1);
    }
  }

  /** The number at `p` with sign length `i`, `k` digits, a `.` and `m` more
      digits ends after them. */
  lemma NumberEndOver(s: string, p: nat, i: nat, k: nat, m: nat)
    requires i <= 1 && p + i + k < |s| && (i == 1 <==> s[p] == '-')
    requires DigitsEnd(s, p + i) == p + i + k && s[p + i + k] == '.'
    requires DigitsEnd(s, p + i + k + 1) == p + i + k + 1 + m
    ensures NumberEnd(s, p) == p + i + k + 1 + m
  {
  }

  // ----- Non-termination -----

  /** `[x]` has no normal return: the element `x` is read as an empty number token
      that consumes nothing, and `x` is neither `,` nor `]`. */
  lemma ArrayOfBareLetterLoops()
    ensures ParseValue("[x]", 0) == Diverges
  {
    var s := "[x]";
    assert SkipWs(s, 0) == 0;
    assert SkipWs(s, 1) == 1;
    assert NumberEnd(s, 1) == 1 by { assert DigitsEnd(s, 1) == 1; }
    assert ParseValue(s, 1) == Parsed(Text(""), 1);
    assert ArrayElements(s, 1, []) == Diverges;
  }

  /** `[tx]` has no normal return: `t` starts neither `true` nor `false`, so the
      boolean reader yields null without moving. */
  lemma ArrayOfBrokenLiteralLoops()
    ensures ParseValue("[tx]", 0) == Diverges
  {
    var s := "[tx]";
    assert SkipWs(s, 0) == 0;
    assert SkipWs(s, 1) == 1;
    assert !LiteralAt(s, 1, "true") && !LiteralAt(s, 1, "false");
    assert ParseValue(s, 1) == Parsed(Null, 1);
    assert ArrayElements(s, 1, []) == Diverges;
  }

  /** An iteration of the loop of `parseArray` that ends where it started,
      on neither `,` nor `]`, leaves the loop with no normal return: it
      repeats that iteration, adding the same element each time, until the
      JVM runs out of memory. */
  lemma StuckIterationLoops(s: string, p: nat, acc: seq<Value>)
    requires Trimmed(s) && p < |s| && WellFormed(Array(acc))
    requires ParseValue(s, SkipWs(s, p)).Parsed?
    requires SkipWs(s, ParseValue(s, SkipWs(s, p)).pos) == p
    requires s[p] != ',' && s[p] != ']'
    ensures ArrayElements(s, p, acc) == Diverges
  {
  }
}
