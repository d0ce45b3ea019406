/** JSON text for a value tree, and the proof that the lenient reader reads
    back every tree in `JsonValue` from the text written for it. This writer
    is a reference for the reader, not part of the converter. */
module JsonText {
  import opened Values
  import opened TextRules
  import opened Grammar
  import opened ReaderFacts
  import opened FloatTokens

  /** Every double in the tree has a token of that shape. */
  predicate FloatsShaped(v: Value)
  {
    match v
    case Float(tok) => FloatToken(tok)
    case Object(es) => forall e | e in es :: FloatsShaped(e.value)
    case Array(xs) => forall x | x in xs :: FloatsShaped(x)
    case _ => true
  }

  /** The trees that have JSON text the reader reads back: well formed, as
      every tree the reader builds is (`Grammar.ParseValue`), and with every
      double's token of the shape `parseNumber` gives each double it builds
      (`FloatTokens.ReadFloatShaped`). */
  predicate JsonValue(v: Value)
  {
    WellFormed(v) && FloatsShaped(v)
  }

  function ToJson(v: Value): (r: string)
    ensures |r| > 0
  {
    match v
    case Null => "null"
    case Bool(b) => if b then "true" else "false"
    case Int(n) => IntToString(n)
    case Float(tok) => if tok == [] then "0" else tok
    case Text(t) => Quote(t)
    case Object(es) => "{" + ObjectBody(es)
    case Array(xs) => "[" + ArrayBody(xs)
  }

  /** `"key":value` pairs separated by commas, then `}`. */
  function ObjectBody(es: seq<Entry>): (r: string)
    ensures |r| > 0 && r[|r| - 1] == '}'
    ensures es != [] ==> r[0] == '"'
  {
    if es == [] then "}"
    else
      assert es[0] in es;
      Quote(es[0].key) + (":" + (ToJson(es[0].value)
        + (if |es| == 1 then "}" else "," + ObjectBody(es[1..]))))
  }

  /** Values separated by commas, then `]`. */
  function ArrayBody(xs: seq<Value>): (r: string)
    ensures |r| > 0 && r[|r| - 1] == ']'
    ensures xs != [] ==> r[0] == ToJson(xs[0])[0]
  {
    if xs == [] then "]"
    else
      assert xs[0] in xs;
      ToJson(xs[0]) + (if |xs| == 1 then "]" else "," + ArrayBody(xs[1..]))
  }

  /** Where a value may end: the end of the text or a separator. */
  predicate Delimited(s: string, i: nat)
  {
    i == |s| || (i < |s| && (s[i] == ',' || s[i] == '}' || s[i] == ']'))
  }

  // ----- First and last characters -----

  lemma IntToStringEnds(n: int)
    ensures var t := IntToString(n);
      (t[0] == '-' || IsDigit(t[0])) && IsDigit(t[|t| - 1]) && |t| > 0
  {
  }

  /** The text of a value starts and ends with a character that is neither
      whitespace nor removed by `trim`. */
  lemma ToJsonEnds(v: Value)
    requires FloatsShaped(v)
    ensures var t := ToJson(v);
      !IsTrimmable(t[0]) && !IsTrimmable(t[|t| - 1]) && !IsWhitespace(t[0])
      && t[0] != ',' && t[0] != '}' && t[0] != ']'
  {
    match v
    case Int(n) => IntToStringEnds(n);
    case Float(tok) => FloatTokenEnds(tok);
    case _ =>
  }

  // ----- Reading back -----

  lemma ConsAppend<T>(acc: seq<T>, xs: seq<T>)
    requires xs != []
    ensures acc + [xs[0]] + xs[1..] == acc + xs
  {
  }

  /** The last element read completes the array. */
  lemma ItemsLast(r: Parsed, acc: seq<Value>, xs: seq<Value>, n: nat, m: nat)
    requires |xs| == 1 && r == Parsed(Array(acc + [xs[0]]), m) && n == m
    ensures r == Parsed(Array(acc + xs), n)
  {
    assert acc + [xs[0]] == acc + xs;
  }

  /** The first element read, then the rest, completes the array. */
  lemma ItemsJoin(r: Parsed, r': Parsed, acc: seq<Value>, xs: seq<Value>, n: nat, m: nat)
    requires xs != [] && r == r' && r' == Parsed(Array(acc + [xs[0]] + xs[1..]), m) && n == m
    ensures r == Parsed(Array(acc + xs), n)
  {
    ConsAppend(acc, xs);
  }

  lemma MembersLast(r: Members, acc: seq<Entry>, es: seq<Entry>, n: nat, m: nat)
    requires |es| == 1 && r == Members(acc + [es[0]], m) && n == m
    ensures r == Members(acc + es, n)
  {
    assert acc + [es[0]] == acc + es;
  }

  lemma MembersJoin(r: Members, r': Members, acc: seq<Entry>, es: seq<Entry>, n: nat, m: nat)
    requires es != [] && r == r' && r' == Members(acc + [es[0]] + es[1..], m) && n == m
    ensures r == Members(acc + es, n)
  {
    ConsAppend(acc, es);
  }

  lemma ObjectBodyParts(es: seq<Entry>)
    requires es != []
    ensures ObjectBody(es) == Quote(es[0].key) + (":" + (ToJson(es[0].value)
      + (if |es| == 1 then "}" else "," + ObjectBody(es[1..]))))
    ensures |ObjectBody(es)| == |Quote(es[0].key)| + 1 + |ToJson(es[0].value)|
      + (if |es| == 1 then 1 else 1 + |ObjectBody(es[1..])|)
  {
  }

  lemma ArrayBodyParts(xs: seq<Value>)
    requires xs != []
    ensures ArrayBody(xs) == ToJson(xs[0]) + (if |xs| == 1 then "]" else "," + ArrayBody(xs[1..]))
    ensures |ArrayBody(xs)| == |ToJson(xs[0])| + (if |xs| == 1 then 1 else 1 + |ArrayBody(xs[1..])|)
  {
  }

  lemma ReadsBackLiteral(s: string, p: nat, v: Value)
    requires Trimmed(s) && (v.Null? || v.Bool?) && LiteralAt(s, p, ToJson(v))
    ensures ParseValue(s, p) == Parsed(v, p + |ToJson(v)|)
  {
    if v == Bool(false) {
      assert !LiteralAt(s, p, "true") by { assert s[p] == 'f'; }
    }
  }

  /** Digits of `t` stay digits where `t` occurs in `s`. */
  lemma DigitsCarryOver(s: string, p: nat, t: string, i: nat, n: nat)
    requires LiteralAt(s, p, t) && i + n <= |t|
    requires forall j | i <= j < i + n :: IsDigit(t[j])
    ensures forall j | p + i <= j < p + i + n :: IsDigit(s[j])
  {
    forall j | p + i <= j < p + i + n ensures IsDigit(s[j]) {
      LiteralAtChar(s, p, t, j - p);
    }
  }

  lemma NumberEndInt(s: string, p: nat, n: int)
    requires LiteralAt(s, p, IntToString(n)) && Delimited(s, p + |IntToString(n)|)
    ensures NumberEnd(s, p) == p + |IntToString(n)|
    ensures s[p] == '-' || IsDigit(s[p])
  {
    var t := IntToString(n);
    var i := if n < 0 then 1 else 0;
    assert forall j | i <= j < |t| :: IsDigit(t[j]);
    IntToStringEnds(n);
    LiteralAtChar(s, p, t, 0);
    DigitRunAt(s, p, t, i, |t| - i);
  }

  /** The text of a `long` is read as that `long`. */
  lemma NumberValueOfInt(n: int)
    requires MinLong <= n <= MaxLong
    ensures NumberValue(IntToString(n)) == Int(n)
  {
    assert '.' !in IntToString(n) by { IntToStringEnds(n); }
    ParseLongOfIntToString(n);
  }

  lemma ReadsBackInt(s: string, p: nat, n: int)
    requires Trimmed(s) && MinLong <= n <= MaxLong
    requires LiteralAt(s, p, IntToString(n)) && Delimited(s, p + |IntToString(n)|)
    ensures ParseValue(s, p) == Parsed(Int(n), p + |IntToString(n)|)
  {
    var t := IntToString(n);
    NumberEndInt(s, p, n);
    NumberValueOfInt(n);
    NumberAt(s, p, t, p + |t|);
  }

  /** A run of digits of `t` where `t` occurs in `s`, followed by a
      non-digit, is where the digit loop stops. */
  lemma DigitRunAt(s: string, p: nat, t: string, i: nat, n: nat)
    requires LiteralAt(s, p, t) && i + n <= |t|
    requires forall j | i <= j < i + n :: IsDigit(t[j])
    requires p + i + n == |s| || (p + i + n < |s| && !IsDigit(s[p + i + n]))
    ensures DigitsEnd(s, p + i) == p + i + n
  {
    DigitsCarryOver(s, p, t, i, n);
    DigitsEndOver(s, p + i, n);
  }

  lemma NumberEndFloat(s: string, p: nat, tok: string)
    requires FloatToken(tok)
    requires LiteralAt(s, p, tok) && Delimited(s, p + |tok|)
    ensures NumberEnd(s, p) == p + |tok|
    ensures s[p] == '-' || s[p] == '.' || IsDigit(s[p])
  {
    var i, k := FloatTokenParts(tok);
    var m := |tok| - (i + k + 1);
    LiteralAtChar(s, p, tok, 0);
    LiteralAtChar(s, p, tok, i + k);
    assert s[p] == tok[0] && s[p + i + k] == '.' && p + i + k < |s|;
    assert (i == 1) == (s[p] == '-');
    DigitRunAt(s, p, tok, i, k);
    DigitRunAt(s, p, tok, i + k + 1, m);
    NumberEndOver(s, p, i, k, m);
  }

  lemma ReadsBackFloat(s: string, p: nat, tok: string)
    requires Trimmed(s) && FloatToken(tok)
    requires LiteralAt(s, p, tok) && Delimited(s, p + |tok|)
    ensures ParseValue(s, p) == Parsed(Float(tok), p + |tok|)
  {
    NumberEndFloat(s, p, tok);
    NumberValueOfFloat(tok);
    NumberAt(s, p, tok, p + |tok|);
  }

  lemma ReadsBackText(s: string, p: nat, t: string)
    requires Trimmed(s) && LiteralAt(s, p, Quote(t))
    ensures ParseValue(s, p) == Parsed(Text(t), p + |Quote(t)|)
  {
    QuoteReadsBack(s, p, t);
    assert SkipWs(s, p) == p;
    DispatchString(s, p);
  }

  lemma ReadsBackScalar(s: string, p: nat, v: Value)
    requires Trimmed(s) && JsonValue(v) && !v.Object? && !v.Array?
    requires LiteralAt(s, p, ToJson(v)) && Delimited(s, p + |ToJson(v)|)
    ensures ParseValue(s, p) == Parsed(v, p + |ToJson(v)|)
  {
    match v
    case Null => ReadsBackLiteral(s, p, v);
    case Bool(_) => ReadsBackLiteral(s, p, v);
    case Int(n) =>
      assert ToJson(v) == IntToString(n) && MinLong <= n <= MaxLong;
      ReadsBackInt(s, p, n);
    case Float(tok) =>
      assert FloatToken(tok) && tok != [] && ToJson(v) == tok;
      ReadsBackFloat(s, p, tok);
    case Text(t) =>
      assert ToJson(v) == Quote(t);
      ReadsBackText(s, p, t);
  }

  /** The reader reads back the text written for any tree in `JsonValue`,
      when the text is followed by the end or a separator. */
  lemma {:induction false} ReadsBack(s: string, p: nat, v: Value)
    requires Trimmed(s) && JsonValue(v)
    requires LiteralAt(s, p, ToJson(v)) && Delimited(s, p + |ToJson(v)|)
    ensures ParseValue(s, p) == Parsed(v, p + |ToJson(v)|)
    decreases v, 2
  {
    if v.Object? {
      ReadsBackObject(s, p, v.entries);
    } else if v.Array? {
      ReadsBackArray(s, p, v.items);
    } else {
      ReadsBackScalar(s, p, v);
    }
  }

  /** The brace and the body of an object's text. */
  lemma ObjectLayout(s: string, p: nat, es: seq<Entry>, n: nat)
    requires LiteralAt(s, p, ToJson(Object(es))) && n == p + |ToJson(Object(es))|
    ensures p + 1 < |s| && s[p] == '{' && s[p + 1] == (if es == [] then '}' else '"')
    ensures LiteralAt(s, p + 1, ObjectBody(es)) && n == p + 1 + |ObjectBody(es)|
  {
    LiteralAtSplit(s, p, "{", ObjectBody(es));
  }

  /** Members read from a `{`, with no key repeated, make up the object. */
  lemma ObjectOfUniqueMembers(s: string, p: nat, es: seq<Entry>, n: nat)
    requires Trimmed(s) && p + 1 < |s| && s[p] == '{' && s[p + 1] == '"' && UniqueKeys(es)
    requires ObjectMembers(s, p + 1, []) == Members([] + es, n)
    ensures ParseValue(s, p) == Parsed(Object(es), n)
  {
    assert [] + es == es;
    ObjectOfMembers(s, p, es, n);
    PutAllUnique(es);
  }

  lemma {:induction false} ReadsBackObject(s: string, p: nat, es: seq<Entry>)
    requires Trimmed(s) && JsonValue(Object(es))
    requires LiteralAt(s, p, ToJson(Object(es))) && Delimited(s, p + |ToJson(Object(es))|)
    ensures ParseValue(s, p) == Parsed(Object(es), p + |ToJson(Object(es))|)
    decreases es, 2
  {
    var n := p + |ToJson(Object(es))|;
    ObjectLayout(s, p, es, n);
    if es == [] {
      assert ObjectBody(es) == "}";
      EmptyObject(s, p, 0);
    } else {
      ReadsBackPairs(s, p, es, n);
    }
  }

  /** A non-empty object: its pairs are read back and, as no key repeats,
      make up the object. */
  lemma {:induction false} ReadsBackPairs(s: string, p: nat, es: seq<Entry>, n: nat)
    requires Trimmed(s) && JsonValue(Object(es)) && es != []
    requires p + 1 < |s| && s[p] == '{' && s[p + 1] == '"'
    requires LiteralAt(s, p + 1, ObjectBody(es)) && n == p + 1 + |ObjectBody(es)|
    ensures ParseValue(s, p) == Parsed(Object(es), n)
    decreases es, 1
  {
    assert UniqueKeys(es);
    assert forall e | e in es :: JsonValue(e.value);
    ReadsBackMembers(s, p + 1, es, []);
    ObjectOfUniqueMembers(s, p, es, n);
  }

  /** Where the first pair of an object body ends, and what follows it. */
  lemma MembersLayout(s: string, p: nat, es: seq<Entry>, k: nat, n: nat)
    requires es != [] && LiteralAt(s, p, ObjectBody(es))
    requires k == |Quote(es[0].key)| && n == p + k + 1 + |ToJson(es[0].value)| + 1
    ensures LiteralAt(s, p, Quote(es[0].key)) && s[p + k] == ':'
    ensures LiteralAt(s, p + k + 1, ToJson(es[0].value))
    ensures n <= |s| && s[n - 1] == if |es| == 1 then '}' else ','
    ensures |es| > 1 ==> LiteralAt(s, n, ObjectBody(es[1..]))
    ensures |es| == 1 ==> p + |ObjectBody(es)| == n
    ensures |es| > 1 ==> p + |ObjectBody(es)| == n + |ObjectBody(es[1..])|
  {
    var t := ToJson(es[0].value);
    var c := if |es| == 1 then '}' else ',';
    var rest := if |es| == 1 then [] else ObjectBody(es[1..]);
    ObjectBodyParts(es);
    assert ObjectBody(es) == Quote(es[0].key) + (":" + (t + ([c] + rest)));
    SplitPair(s, p, Quote(es[0].key), t, c, rest, k, n);
  }

  /** One pair read back by the object loop, followed by `c`; the loop goes on
      at `n`. */
  lemma {:induction false} MemberReadsBack(s: string, p: nat, acc: seq<Entry>, e: Entry, k: nat, c: char, n: nat)
    requires Trimmed(s) && JsonValue(e.value) && forall x | x in acc :: WellFormed(x.value)
    requires LiteralAt(s, p, Quote(e.key)) && k == |Quote(e.key)| && p + k < |s| && s[p + k] == ':'
    requires LiteralAt(s, p + k + 1, ToJson(e.value))
    requires n == p + k + 1 + |ToJson(e.value)| + 1 && n <= |s| && s[n - 1] == c && (c == ',' || c == '}')
    ensures forall x | x in acc + [e] :: WellFormed(x.value)
    ensures c == '}' ==> ObjectMembers(s, p, acc) == Members(acc + [e], n)
    ensures c == ',' ==> ObjectMembers(s, p, acc) == ObjectMembers(s, n, acc + [e])
    decreases e.value, 4
  {
    ValueBeforeSeparator(s, p + k + 1, e.value, n - 1);
    MemberOfParts(s, p, acc, e, k, c, n);
  }

  /** The pair step of the object loop, once the value is known to read back. */
  lemma MemberOfParts(s: string, p: nat, acc: seq<Entry>, e: Entry, k: nat, c: char, n: nat)
    requires Trimmed(s) && WellFormed(e.value) && forall x | x in acc :: WellFormed(x.value)
    requires LiteralAt(s, p, Quote(e.key)) && k == |Quote(e.key)| && p + k + 1 < |s| && s[p + k] == ':'
    requires 0 < n <= |s| && s[n - 1] == c && (c == ',' || c == '}')
    requires !IsWhitespace(s[p + k + 1]) && ParseValue(s, p + k + 1) == Parsed(e.value, n - 1)
    ensures forall x | x in acc + [e] :: WellFormed(x.value)
    ensures c == '}' ==> ObjectMembers(s, p, acc) == Members(acc + [e], n)
    ensures c == ',' ==> ObjectMembers(s, p, acc) == ObjectMembers(s, n, acc + [e])
  {
    QuoteReadsBack(s, p, e.key);
    MemberAtReads(s, p, e.key, k, e.value, n - 1);
    MemberStep(s, p, acc, e.key, e.value, c, n - 1);
  }

  /** A value written before a `,`, `]` or `}` is read back up to that
      separator. */
  lemma {:induction false} ValueBeforeSeparator(s: string, p: nat, v: Value, q: nat)
    requires Trimmed(s) && JsonValue(v) && LiteralAt(s, p, ToJson(v))
    requires q == p + |ToJson(v)| && q < |s| && (s[q] == ',' || s[q] == ']' || s[q] == '}')
    ensures p < |s| && !IsWhitespace(s[p]) && s[p] == ToJson(v)[0]
    ensures ParseValue(s, p) == Parsed(v, q)
    decreases v, 3
  {
    ToJsonEnds(v);
    LiteralAtChar(s, p, ToJson(v), 0);
    ReadsBack(s, p, v);
  }

  lemma {:induction false} ReadsBackMembers(s: string, p: nat, es: seq<Entry>, acc: seq<Entry>)
    requires Trimmed(s) && es != [] && forall e | e in es :: JsonValue(e.value)
    requires forall x | x in acc :: WellFormed(x.value)
    requires LiteralAt(s, p, ObjectBody(es))
    ensures ObjectMembers(s, p, acc) == Members(acc + es, p + |ObjectBody(es)|)
    decreases es, 0
  {
    var e := es[0];
    assert e in es;
    var k := |Quote(e.key)|;
    var n := p + k + 1 + |ToJson(e.value)| + 1;
    MembersLayout(s, p, es, k, n);
    if |es| == 1 {
      MemberReadsBack(s, p, acc, e, k, '}', n);
      MembersLast(ObjectMembers(s, p, acc), acc, es, p + |ObjectBody(es)|, n);
    } else {
      MemberReadsBack(s, p, acc, e, k, ',', n);
      assert forall x | x in es[1..] :: x in es;
      var r, r' := ObjectMembers(s, p, acc), ObjectMembers(s, n, acc + [e]);
      var m := n + |ObjectBody(es[1..])|;
      assert r' == Members(acc + [e] + es[1..], m) by {
        ReadsBackMembers(s, n, es[1..], acc + [e]);
      }
      MembersJoin(r, r', acc, es, p + |ObjectBody(es)|, m);
    }
  }

  /** The bracket and the body of an array's text. */
  lemma ArrayLayout(s: string, p: nat, xs: seq<Value>, n: nat)
    requires FloatsShaped(Array(xs)) && LiteralAt(s, p, ToJson(Array(xs))) && n == p + |ToJson(Array(xs))|
    ensures p + 1 < |s| && s[p] == '['
    ensures xs == [] ==> s[p + 1] == ']'
    ensures xs != [] ==> s[p + 1] != ']' && !IsWhitespace(s[p + 1])
    ensures LiteralAt(s, p + 1, ArrayBody(xs)) && n == p + 1 + |ArrayBody(xs)|
  {
    LiteralAtSplit(s, p, "[", ArrayBody(xs));
    if xs != [] {
      assert xs[0] in xs;
      ToJsonEnds(xs[0]);
    }
  }

  lemma {:induction false} ReadsBackArray(s: string, p: nat, xs: seq<Value>)
    requires Trimmed(s) && JsonValue(Array(xs))
    requires LiteralAt(s, p, ToJson(Array(xs))) && Delimited(s, p + |ToJson(Array(xs))|)
    ensures ParseValue(s, p) == Parsed(Array(xs), p + |ToJson(Array(xs))|)
    decreases xs, 1
  {
    var n := p + |ToJson(Array(xs))|;
    ArrayLayout(s, p, xs, n);
    if xs == [] {
      EmptyArray(s, p);
    } else {
      ReadsBackItems(s, p + 1, xs, []);
      ArrayOfItems(s, p, xs, n);
    }
  }

  /** Where the first element of an array body ends, and what follows it. */
  lemma ItemsLayout(s: string, p: nat, xs: seq<Value>, n: nat)
    requires xs != [] && LiteralAt(s, p, ArrayBody(xs)) && n == p + |ToJson(xs[0])| + 1
    ensures LiteralAt(s, p, ToJson(xs[0]))
    ensures n <= |s| && s[n - 1] == if |xs| == 1 then ']' else ','
    ensures |xs| > 1 ==> LiteralAt(s, n, ArrayBody(xs[1..]))
    ensures |xs| == 1 ==> p + |ArrayBody(xs)| == n
    ensures |xs| > 1 ==> p + |ArrayBody(xs)| == n + |ArrayBody(xs[1..])|
  {
    ArrayBodyParts(xs);
    if |xs| == 1 {
      SplitLast(s, p, ToJson(xs[0]), ']');
    } else {
      SplitAt(s, p, ToJson(xs[0]), ',', ArrayBody(xs[1..]));
    }
  }

  /** One element read back by the array loop, followed by `c`; the loop goes
      on at `n`. */
  lemma {:induction false} ItemReadsBack(s: string, p: nat, acc: seq<Value>, x: Value, c: char, n: nat)
    requires Trimmed(s) && JsonValue(x) && WellFormed(Array(acc)) && LiteralAt(s, p, ToJson(x))
    requires n == p + |ToJson(x)| + 1 && n <= |s| && s[n - 1] == c && (c == ',' || c == ']')
    ensures WellFormed(Array(acc + [x]))
    ensures c == ']' ==> ArrayElements(s, p, acc) == Parsed(Array(acc + [x]), n)
    ensures c == ',' ==> ArrayElements(s, p, acc) == ArrayElements(s, n, acc + [x])
    decreases x, 4
  {
    ValueBeforeSeparator(s, p, x, n - 1);
    ItemStep(s, p, acc, x, c, n);
  }

  lemma {:induction false} ReadsBackItems(s: string, p: nat, xs: seq<Value>, acc: seq<Value>)
    requires Trimmed(s) && xs != [] && (forall x | x in xs :: JsonValue(x)) && WellFormed(Array(acc))
    requires LiteralAt(s, p, ArrayBody(xs))
    ensures ArrayElements(s, p, acc) == Parsed(Array(acc + xs), p + |ArrayBody(xs)|)
    decreases xs, 0
  {
    var x := xs[0];
    assert x in xs;
    var n := p + |ToJson(x)| + 1;
    ItemsLayout(s, p, xs, n);
    if |xs| == 1 {
      ItemReadsBack(s, p, acc, x, ']', n);
      ItemsLast(ArrayElements(s, p, acc), acc, xs, p + |ArrayBody(xs)|, n);
    } else {
      ItemReadsBack(s, p, acc, x, ',', n);
      assert forall y | y in xs[1..] :: y in xs;
      ReadsBackItems(s, n, xs[1..], acc + [x]);
      ItemsJoin(ArrayElements(s, p, acc), ArrayElements(s, n, acc + [x]), acc, xs,
        p + |ArrayBody(xs)|, n + |ArrayBody(xs[1..])|);
    }
  }

  /** Text with no trimmable character at either end is left alone by `trim`. */
  lemma TrimKeeps(s: string)
    requires s != [] && !IsTrimmable(s[0]) && !IsTrimmable(s[|s| - 1])
    ensures Trim(s) == s
  {
    assert LeadingTrim(s) == 0;
    assert |Trim(s)| == |s|;
  }

  /** Reading the JSON text of any tree in `JsonValue` gives that tree back
      and consumes the whole text. */
  lemma ParseToJson(v: Value)
    requires JsonValue(v)
    ensures Parse(ToJson(v)) == Parsed(v, |ToJson(v)|)
  {
    var t := ToJson(v);
    ToJsonEnds(v);
    TrimKeeps(t);
    assert t[0..|t|] == t;
    LiteralAtSlice(t, 0, t);
    ReadsBack(t, 0, v);
  }
}
