/** What the lenient recursive-descent reader computes, as functions of the input
    text and a cursor. Both Java copies of the reader (`JsonParser` and
    `JsonParserForkJoin.JsonParseTask`) are proved to compute exactly these functions.

    Each function takes the text `s` and the cursor `p` at which the Java
    routine starts, and returns what it returns together with the cursor it
    leaves. With whitespace taken to be ASCII whitespace, the reader never
    fails: malformed structure ends an object or array early. The one way a
    call can have no normal return is `parseArray` repeating an iteration
    that consumed nothing: each pass adds the same element to the list, until
    the JVM runs out of memory. That case yields `Diverges`. */
module Grammar {
  import opened Values
  import opened TextRules

  // ----- Characters -----

  /** `Character.isWhitespace` on ASCII: U+0009 to U+000D, U+001C to U+001F and
      the space. */
  predicate IsWhitespace(c: char)
  {
    (9 <= c as int <= 13) || (28 <= c as int <= 32)
  }

  /** `Character.isDigit` on ASCII. */
  predicate IsDigit(c: char)
  {
    '0' <= c <= '9'
  }

  /** What `String.trim` removes: any character at or below U+0020. */
  predicate IsTrimmable(c: char)
  {
    c <= ' '
  }

  /** `String.trim()` has been applied: nothing to remove at either end. */
  predicate Trimmed(s: string)
  {
    |s| == 0 || (!IsTrimmable(s[0]) && !IsTrimmable(s[|s| - 1]))
  }

  /** The number of trimmable characters at the start of `s`. */
  function LeadingTrim(s: string): (k: nat)
    ensures k <= |s|
    ensures forall i | 0 <= i < k :: IsTrimmable(s[i])
    ensures k < |s| ==> !IsTrimmable(s[k])
  {
    if s != [] && IsTrimmable(s[0]) then 1 + LeadingTrim(s[1..]) else 0
  }

  /** The number of trimmable characters at the end of `s`. */
  function TrailingTrim(s: string): (k: nat)
    ensures k <= |s|
    ensures forall i | |s| - k <= i < |s| :: IsTrimmable(s[i])
    ensures k < |s| ==> !IsTrimmable(s[|s| - k - 1])
  {
    if s != [] && IsTrimmable(s[|s| - 1]) then 1 + TrailingTrim(s[..|s| - 1]) else 0
  }

  /** `String.trim()`: what is left after removing every trimmable character
      from the start and then from the end. */
  function Trim(s: string): (r: string)
    ensures Trimmed(r)
    ensures LeadingTrim(s) + |r| <= |s|
    ensures r == s[LeadingTrim(s)..LeadingTrim(s) + |r|]
    ensures forall i | LeadingTrim(s) + |r| <= i < |s| :: IsTrimmable(s[i])
  {
    var t := s[LeadingTrim(s)..];
    t[..|t| - TrailingTrim(t)]
  }

  // ----- skipWhitespace -----

  /** `skipWhitespace`: the cursor moves to the first non-whitespace character
      at or after `p`, or to the end. */
  function SkipWs(s: string, p: nat): (q: nat)
    requires p <= |s|
    ensures p <= q <= |s|
    ensures q < |s| ==> !IsWhitespace(s[q])
    // On trimmed text, skipping from inside the text stops at a character:
    // why the unguarded `charAt` after `skipWhitespace` in the object loop
    // never reads past the end, as long as every whitespace character is one
    // `trim` also removes, as it is with ASCII whitespace.
    ensures Trimmed(s) && p < |s| ==> q < |s|
    decreases |s| - p
  {
    if p < |s| && IsWhitespace(s[p]) then SkipWs(s, p + 1) else p
  }

  /** Everything `skipWhitespace` passes over is whitespace. */
  lemma {:induction false} SkipWsPassesWhitespace(s: string, p: nat)
    requires p <= |s|
    ensures forall i | p <= i < SkipWs(s, p) :: IsWhitespace(s[i])
    decreases |s| - p
  {
    if p < |s| && IsWhitespace(s[p]) {
      SkipWsPassesWhitespace(s, p + 1);
    }
  }

  // ----- parseString -----

  /** The character an escape `\c` stands for: `n`, `t` and `r` give control
      characters, every other character (the backslash and the quote among
      them) stands for itself. */
  function Unescape(c: char): char
  {
    match c
    case 'n' => '\n'
    case 't' => '\t'
    case 'r' => '\r'
    case _ => c
  }

  /** The loop of `parseString`, from cursor `p` with `acc` read so far. A
      backslash at the end of the text is dropped; text that ends before the
      closing quote yields what was read. */
  function StringBody(s: string, p: nat, acc: string): (r: (string, nat))
    requires p <= |s|
    ensures p <= r.1 <= |s|
    decreases |s| - p
  {
    if p == |s| then (acc, p)
    else if s[p] == '"' then (acc, p + 1)
    else if s[p] == '\\' then
      if p + 1 < |s| then StringBody(s, p + 2, acc + [Unescape(s[p + 1])]) else (acc, p + 1)
    else StringBody(s, p + 1, acc + [s[p]])
  }

  /** `parseString`, called on the opening quote at `p`. */
  function ParseString(s: string, p: nat): (r: (string, nat))
    requires p < |s|
    ensures p < r.1 <= |s|
  {
    StringBody(s, p + 1, [])
  }

  // ----- parseNumber -----

  function DigitsEnd(s: string, p: nat): (q: nat)
    requires p <= |s|
    ensures p <= q <= |s|
    ensures q < |s| ==> !IsDigit(s[q])
    decreases |s| - p
  {
    if p < |s| && IsDigit(s[p]) then DigitsEnd(s, p + 1) else p
  }

  /** Everything the digit loops of `parseNumber` pass over is a digit. */
  lemma {:induction false} DigitsEndPassesDigits(s: string, p: nat)
    requires p <= |s|
    ensures forall i | p <= i < DigitsEnd(s, p) :: IsDigit(s[i])
    decreases |s| - p
  {
    if p < |s| && IsDigit(s[p]) {
      DigitsEndPassesDigits(s, p + 1);
    }
  }

  /** The end of the longest `-?digits(.digits)?` at `p`; the digits may be
      empty. */
  function NumberEnd(s: string, p: nat): (q: nat)
    requires p <= |s|
    ensures p <= q <= |s|
  {
    var q0 := if p < |s| && s[p] == '-' then p + 1 else p;
    var q1 := DigitsEnd(s, q0);
    if q1 < |s| && s[q1] == '.' then DigitsEnd(s, q1 + 1) else q1
  }

  predicate AllDigits(ds: string)
  {
    forall i | 0 <= i < |ds| :: IsDigit(ds[i])
  }

  function DecimalValue(ds: string): nat
    requires AllDigits(ds)
  {
    if ds == [] then 0
    else 10 * DecimalValue(ds[..|ds| - 1]) + (ds[|ds| - 1] as int - '0' as int)
  }

  /** `Long.parseLong`: an optional sign, at least one digit, nothing else, and a
      value in the range of `long`. */
  function ParseLong(tok: string): (r: Option<int>)
    ensures r.Some? ==> MinLong <= r.value <= MaxLong
  {
    var signed := |tok| > 0 && (tok[0] == '-' || tok[0] == '+');
    var ds := if signed then tok[1..] else tok;
    if ds == [] || !AllDigits(ds) then None
    else
      var n: int := if tok[0] == '-' then 0 - DecimalValue(ds) as int else DecimalValue(ds);
      if MinLong <= n <= MaxLong then Some(n) else None
  }

  /** The try/catch of `parseNumber`. A token with a `.` goes to
      `Double.parseDouble`, which on a token of the shape `-?d*.d*` succeeds
      exactly when there is a digit; any other token goes to `Long.parseLong`.
      A token either call rejects comes back as text. */
  function NumberValue(tok: string): (v: Value)
    ensures v.Text? ==> v.s == tok
    ensures v.Float? ==> v.token == tok && '.' in tok
    ensures v.Int? ==> '.' !in tok && ParseLong(tok) == Some(v.n)
    ensures v.Text? || v.Float? || v.Int?
  {
    if '.' in tok then
      if exists i | 0 <= i < |tok| :: IsDigit(tok[i]) then Float(tok) else Text(tok)
    else
      match ParseLong(tok)
      case Some(n) => Int(n)
      case None => Text(tok)
  }

  /** `parseNumber` at `p`. */
  function ParseNumber(s: string, p: nat): (r: (Value, nat))
    requires p <= |s|
    ensures p <= r.1 <= |s|
  {
    var q := NumberEnd(s, p);
    (NumberValue(s[p..q]), q)
  }

  // ----- parseBoolean and parseNull -----

  /** `s.startsWith(lit, p)`, stated one character at a time. */
  predicate LiteralAt(s: string, p: nat, lit: string)
    decreases |lit|
  {
    p + |lit| <= |s| && (lit == [] || (s[p] == lit[0] && LiteralAt(s, p + 1, lit[1..])))
  }

  /** `parseBoolean`: on `true` or `false` the cursor moves past the literal;
      otherwise the result is null and the cursor stays. */
  function ParseBoolean(s: string, p: nat): (r: (Value, nat))
    requires p <= |s|
    ensures r.1 == p + 4 <==> LiteralAt(s, p, "true")
    ensures r.1 == p + 5 <==> !LiteralAt(s, p, "true") && LiteralAt(s, p, "false")
    ensures r.1 == p <==> r.0 == Null
    ensures r.1 == p || r.1 == p + 4 || r.1 == p + 5
    ensures r.0 == Bool(true) <==> LiteralAt(s, p, "true")
    ensures r.1 <= |s|
  {
    if LiteralAt(s, p, "true") then (Bool(true), p + 4)
    else if LiteralAt(s, p, "false") then (Bool(false), p + 5)
    else (Null, p)
  }

  /** `parseNull`: null either way; the cursor moves past `null` only when it
      is there. */
  function ParseNull(s: string, p: nat): (r: (Value, nat))
    requires p <= |s|
    ensures r.0 == Null
    ensures r.1 == (if LiteralAt(s, p, "null") then p + 4 else p)
    ensures r.1 <= |s|
  {
    if LiteralAt(s, p, "null") then (Null, p + 4) else (Null, p)
  }

  // ----- parseValue, parseObject, parseArray -----

  /** The branches of `parseValue` for a character that starts neither an
      object nor an array. */
  function ParseScalar(s: string, q: nat): (r: (Value, nat))
    requires q < |s|
    ensures q <= r.1 <= |s| && WellFormed(r.0)
  {
    if s[q] == '"' then
      var str := ParseString(s, q); (Text(str.0), str.1)
    else if s[q] == 't' || s[q] == 'f' then ParseBoolean(s, q)
    else if s[q] == 'n' then ParseNull(s, q)
    else
      var num := ParseNumber(s, q);
      assert WellFormed(num.0) by {
        if num.0.Int? { assert ParseLong(s[q..num.1]) == Some(num.0.n); }
      }
      num
  }

  /** `parseValue` at `p`: skip whitespace and dispatch on the next character. */
  function ParseValue(s: string, p: nat): (r: Parsed)
    requires Trimmed(s) && p <= |s|
    ensures r.Parsed? ==> p <= r.pos <= |s| && WellFormed(r.value)
    decreases |s| - p, 1
  {
    var q := SkipWs(s, p);
    if q == |s| then Parsed(Null, q)
    else if s[q] == '{' then ParseObject(s, q)
    else if s[q] == '[' then ParseArray(s, q)
    else Parsed(ParseScalar(s, q).0, ParseScalar(s, q).1)
  }

  /** What the loop of `parseObject` yields: the key/value pairs in the order
      they were read and the cursor it stops at, or `MembersDiverge` when a
      value inside has no normal return. */
  datatype Members = Members(pairs: seq<Entry>, pos: nat) | MembersDiverge

  /** `parseObject`, called on the `{` at `p`. The map is what putting the
      pairs one after the other into a `LinkedHashMap` gives. */
  function ParseObject(s: string, p: nat): (r: Parsed)
    requires Trimmed(s) && p < |s|
    ensures r.Parsed? ==> p < r.pos <= |s| && r.value.Object? && WellFormed(r.value)
    decreases |s| - p, 0
  {
    var q := SkipWs(s, p + 1);
    if q < |s| && s[q] == '}' then Parsed(Object([]), q + 1)
    else
      match ObjectMembers(s, q, [])
      case MembersDiverge => Diverges
      case Members(ps, q') =>
        PutAllWellFormed(ps);
        Parsed(Object(PutAll(ps)), q')
  }

  /** What the first half of one iteration of the object loop yields: a
      key/value pair and the cursor after the value, or the cursor where the
      loop breaks because the key is not quoted or `:` is missing. */
  datatype Member = KeyValue(key: string, value: Value, pos: nat) | Break(pos: nat) | MemberDiverges

  /** Reading `"key" : value` at `p`, inside the text. The key consumes at
      least its opening quote. */
  function MemberAt(s: string, p: nat): (r: Member)
    requires Trimmed(s) && p < |s|
    ensures r.KeyValue? ==> p < r.pos <= |s| && WellFormed(r.value)
    ensures r.Break? ==> p <= r.pos <= |s|
    decreases |s| - p, 2
  {
    var q := SkipWs(s, p);
    if s[q] != '"' then Break(q)
    else
      var str := ParseString(s, q);
      var q2 := SkipWs(s, str.1);
      if q2 == |s| || s[q2] != ':' then Break(q2)
      else
        match ParseValue(s, SkipWs(s, q2 + 1))
        case Diverges => MemberDiverges
        case Parsed(v, q3) => KeyValue(str.0, v, q3)
  }

  /** The tail shared by both loops, from the cursor `q` just after a key's
      value or an element: whitespace is skipped; the end of the text and
      `close` end the loop; `,` and `close` are consumed. The result is whether
      the loop ends and where the cursor is left. */
  function Separator(s: string, q: nat, close: char): (r: (bool, nat))
    requires Trimmed(s) && q <= |s|
    ensures q <= r.1 <= |s|
  {
    var q4 := SkipWs(s, q);
    if q4 == |s| then (true, q4)
    else if s[q4] == ',' then (false, q4 + 1)
    else if s[q4] == close then (true, q4 + 1)
    else (false, q4)
  }

  /** The loop of `parseObject` from cursor `p`, with the pairs `acc` read so
      far. A key that is not quoted, a missing `:` or the end of the text ends
      the object with what was read; after a pair, `,` goes on, `}` ends the
      object, and anything else goes on from the same place. */
  function ObjectMembers(s: string, p: nat, acc: seq<Entry>): (r: Members)
    requires Trimmed(s) && p <= |s|
    requires forall x | x in acc :: WellFormed(x.value)
    ensures r.Members? ==> p <= r.pos <= |s|
    ensures r.Members? ==> acc <= r.pairs
    ensures r.Members? ==> forall x | x in r.pairs :: WellFormed(x.value)
    decreases |s| - p, 3
  {
    if p == |s| then Members(acc, p)
    else
      match MemberAt(s, p)
      case MemberDiverges => MembersDiverge
      case Break(q) => Members(acc, q)
      case KeyValue(key, v, q3) =>
        var acc' := acc + [Entry(key, v)];
        var (ends, q) := Separator(s, q3, '}');
        if ends then Members(acc', q) else ObjectMembers(s, q, acc')
  }

  /** `parseArray`, called on the `[` at `p`. */
  function ParseArray(s: string, p: nat): (r: Parsed)
    requires Trimmed(s) && p < |s|
    ensures r.Parsed? ==> p < r.pos <= |s| && r.value.Array? && WellFormed(r.value)
    decreases |s| - p, 0
  {
    var q := SkipWs(s, p + 1);
    if q < |s| && s[q] == ']' then Parsed(Array([]), q + 1)
    else ArrayElements(s, q, [])
  }

  /** The loop of `parseArray` from cursor `p`, with the elements `acc` read so
      far. When an iteration ends where it began (the element consumed nothing
      and the next character is neither `,` nor `]`), the next iteration starts
      from the same state and so does every later one: the Java loop never
      exits. */
  function ArrayElements(s: string, p: nat, acc: seq<Value>): (r: Parsed)
    requires Trimmed(s) && p <= |s| && WellFormed(Array(acc))
    ensures r.Parsed? ==> p <= r.pos <= |s| && r.value.Array? && WellFormed(r.value)
    decreases |s| - p, 2
  {
    if p == |s| then Parsed(Array(acc), p)
    else
      match ParseValue(s, SkipWs(s, p))
      case Diverges => Diverges
      case Parsed(v, q1) =>
        var acc' := acc + [v];
        WellFormedAppend(acc, v);
        var (ends, q) := Separator(s, q1, ']');
        if ends then Parsed(Array(acc'), q)
        else if q == p then Diverges
        else ArrayElements(s, q, acc')
  }

  /** The reader as a whole: trim, then read one value from the start. */
  function Parse(text: string): Parsed
  {
    ParseValue(Trim(text), 0)
  }
}
