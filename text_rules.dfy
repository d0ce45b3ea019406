/** The pure text rules that both converters share: indentation, tag-name
    sanitising, XML escaping, the plural-to-singular heuristic and the text of a
    scalar value. JsonParser.java and JsonParserForkJoin.java each carry a copy;
    `indent`, `sanitizeTagName` and `escapeXML` are identical in the two files
    and are defined once here. The two `toSingular` copies differ in the order
    of their tests; the fork/join one is `ForkJoin.ToSingularIesFirst`. */
module TextRules {
  import opened Values

  /** `"  ".repeat(level)`. */
  function Indent(level: nat): (r: string)
    ensures |r| == 2 * level
    ensures forall i | 0 <= i < |r| :: r[i] == ' '
  {
    if level == 0 then "" else Indent(level - 1) + "  "
  }

  // ----- Tag names -----

  /** A character the pattern `[a-zA-Z0-9_-]` accepts. */
  predicate IsTagChar(c: char)
  {
    ('a' <= c <= 'z') || ('A' <= c <= 'Z') || ('0' <= c <= '9') || c == '_' || c == '-'
  }

  /** Every character is one the sanitiser accepts. This admits the empty name
      and names that start with a digit or `-`, which are not XML names. */
  predicate IsTagName(s: string)
  {
    forall i | 0 <= i < |s| :: IsTagChar(s[i])
  }

  /** `name.replaceAll("[^a-zA-Z0-9_-]", "_")`: the regular expression matches one
      character at a time, so the replacement is a scan over the characters. */
  function SanitizeTagName(name: string): (r: string)
    ensures |r| == |name|
    ensures IsTagName(r)
  {
    if name == [] then []
    else [if IsTagChar(name[0]) then name[0] else '_'] + SanitizeTagName(name[1..])
  }

  /** A name made only of accepted characters is left as it is. */
  lemma {:induction false} SanitizeKeepsTagNames(name: string)
    requires IsTagName(name)
    ensures SanitizeTagName(name) == name
  {
    if name != [] {
      SanitizeKeepsTagNames(name[1..]);
    }
  }

  /** Characters that are accepted stay where they are; every other one becomes `_`. */
  lemma {:induction false} SanitizeAt(name: string, i: nat)
    requires i < |name|
    ensures SanitizeTagName(name)[i] == if IsTagChar(name[i]) then name[i] else '_'
  {
    if i > 0 {
      SanitizeAt(name[1..], i - 1);
    }
  }

  /** Sanitising twice is sanitising once. */
  lemma SanitizeIdempotent(name: string)
    ensures SanitizeTagName(SanitizeTagName(name)) == SanitizeTagName(name)
  {
    SanitizeKeepsTagNames(SanitizeTagName(name));
  }

  // ----- Singular names -----

  /** `String.toLowerCase` on ASCII, as in the root locale. Under a Turkish
      or Azeri default locale Java lowers `I` to the dotless `ı` instead. */
  function ToLowerChar(c: char): char
  {
    if 'A' <= c <= 'Z' then (c as int + 32) as char else c
  }

  function ToLower(s: string): (r: string)
    ensures |r| == |s|
    ensures forall i | 0 <= i < |s| :: r[i] == ToLowerChar(s[i])
  {
    if s == [] then [] else [ToLowerChar(s[0])] + ToLower(s[1..])
  }

  /** No upper-case ASCII letter: `ToLower` leaves the string alone. */
  predicate IsLowerCase(s: string)
  {
    forall i | 0 <= i < |s| :: !('A' <= s[i] <= 'Z')
  }

  predicate EndsWith(s: string, suffix: string)
  {
    |suffix| <= |s| && s[|s| - |suffix|..] == suffix
  }

  /** `toSingular` of JsonParser.java: an empty name gives `item`; otherwise the
      lower-cased name loses `ies` for `y`, or else a final `es`, or else a
      final `s`. */
  function ToSingular(plural: string): string
  {
    if plural == [] then "item"
    else
      var p := ToLower(plural);
      if EndsWith(p, "es") then
        if EndsWith(p, "ies") then p[..|p| - 3] + "y" else p[..|p| - 2]
      else if EndsWith(p, "s") then p[..|p| - 1]
      else p
  }

  lemma LowerCaseFixed(s: string)
    requires IsLowerCase(s)
    ensures ToLower(s) == s
  {
  }

  /** A lower-case word that does not end in `e` comes back from its plural in
      `s`. The word may be empty: the singular of `s` is the empty name. */
  lemma SingularOfPluralS(w: string)
    requires IsLowerCase(w) && (w == [] || w[|w| - 1] != 'e')
    ensures ToSingular(w + "s") == w
  {
    var p := w + "s";
    LowerCaseFixed(p);
    assert p[|p| - 1..] == "s";
    assert !EndsWith(p, "es") by {
      if |p| >= 2 {
        assert p[|p| - 2..][0] == p[|p| - 2] == w[|w| - 1];
      }
    }
    assert p[..|p| - 1] == w;
  }

  /** A lower-case word that does not end in `i` comes back from its plural in
      `es`. The word may be empty: the singular of `es` is the empty name. */
  lemma SingularOfPluralEs(w: string)
    requires IsLowerCase(w) && (w == [] || w[|w| - 1] != 'i')
    ensures ToSingular(w + "es") == w
  {
    var p := w + "es";
    LowerCaseFixed(p);
    assert p[|p| - 2..] == "es";
    assert !EndsWith(p, "ies") by {
      if |p| >= 3 {
        assert p[|p| - 3..][0] == p[|p| - 3] == w[|w| - 1];
      }
    }
    assert p[..|p| - 2] == w;
  }

  /** A lower-case stem comes back with `y` from its plural in `ies`. */
  lemma SingularOfPluralIes(stem: string)
    requires IsLowerCase(stem)
    ensures ToSingular(stem + "ies") == stem + "y"
  {
    LowerCaseFixed(stem + "ies");
    assert EndsWith(stem + "ies", "es");
    assert EndsWith(stem + "ies", "ies");
    assert (stem + "ies")[..|stem|] == stem;
  }

  /** A lower-case name that does not end in `s` is its own singular. */
  lemma SingularKeepsOtherWords(w: string)
    requires w != [] && IsLowerCase(w) && w[|w| - 1] != 's'
    ensures ToSingular(w) == w
  {
    LowerCaseFixed(w);
  }

  /** A prefix of lower-case text, with or without a final `y`, is lower case. */
  lemma LowerCasePrefix(p: string, k: nat)
    requires IsLowerCase(p) && k <= |p|
    ensures IsLowerCase(p[..k]) && IsLowerCase(p[..k] + "y")
  {
    assert forall i | 0 <= i < k :: (p[..k] + "y")[i] == p[i];
  }

  /** The singular is lower case and ignores the case of the plural; an empty
      name gives `item`. */
  lemma SingularIgnoresCase(plural: string)
    ensures IsLowerCase(ToSingular(plural))
    ensures ToSingular(ToLower(plural)) == ToSingular(plural)
    ensures plural == [] ==> ToSingular(plural) == "item"
  {
    if plural != [] {
      var p := ToLower(plural);
      assert IsLowerCase(p);
      LowerCaseFixed(p);
      if EndsWith(p, "es") {
        if EndsWith(p, "ies") {
          LowerCasePrefix(p, |p| - 3);
          assert ToSingular(plural) == p[..|p| - 3] + "y";
        } else {
          LowerCasePrefix(p, |p| - 2);
          assert ToSingular(plural) == p[..|p| - 2];
        }
      } else if EndsWith(p, "s") {
        LowerCasePrefix(p, |p| - 1);
        assert ToSingular(plural) == p[..|p| - 1];
      } else {
        assert ToSingular(plural) == p;
      }
    }
  }

  /** The singular of a name of accepted characters is one too, so every
      element tag the converters write consists of accepted characters, as
      long as lower-casing is the ASCII one. */
  lemma SingularKeepsTagNames(name: string)
    requires IsTagName(name)
    ensures IsTagName(ToSingular(name))
  {
    if name != [] {
      var p := ToLower(name);
      assert IsTagName(p) by {
        forall i | 0 <= i < |p| ensures IsTagChar(p[i]) {
          assert IsTagChar(name[i]);
        }
      }
    }
  }

  // ----- XML escaping -----

  /** `String.replace` with a one-character target: every occurrence, left to right. */
  function ReplaceChar(s: string, target: char, replacement: string): string
  {
    if s == [] then []
    else (if s[0] == target then replacement else [s[0]]) + ReplaceChar(s[1..], target, replacement)
  }

  /** `escapeXML`: five `replace` calls, ampersand first. */
  function EscapeXml(text: string): string
  {
    var t1 := ReplaceChar(text, '&', "&amp;");
    var t2 := ReplaceChar(t1, '<', "&lt;");
    var t3 := ReplaceChar(t2, '>', "&gt;");
    var t4 := ReplaceChar(t3, '"', "&quot;");
    ReplaceChar(t4, '\'', "&apos;")
  }

  /** The entity that replaces one character. */
  function EscapeChar(c: char): string
  {
    match c
    case '&' => "&amp;"
    case '<' => "&lt;"
    case '>' => "&gt;"
    case '"' => "&quot;"
    case '\'' => "&apos;"
    case _ => [c]
  }

  /** Escaping as a single left-to-right pass, one character at a time. */
  function EscapeEach(text: string): string
  {
    if text == [] then [] else EscapeChar(text[0]) + EscapeEach(text[1..])
  }

  lemma {:induction false} ReplaceCharAppend(a: string, b: string, target: char, replacement: string)
    ensures ReplaceChar(a + b, target, replacement) == ReplaceChar(a, target, replacement) + ReplaceChar(b, target, replacement)
  {
    if a == [] {
      assert a + b == b;
    } else {
      assert (a + b)[1..] == a[1..] + b;
      ReplaceCharAppend(a[1..], b, target, replacement);
    }
  }

  lemma {:induction false} ReplaceCharAbsent(s: string, target: char, replacement: string)
    requires target !in s
    ensures ReplaceChar(s, target, replacement) == s
  {
    if s != [] {
      ReplaceCharAbsent(s[1..], target, replacement);
    }
  }

  lemma ReplaceCharSingle(c: char, target: char, replacement: string)
    ensures ReplaceChar([c], target, replacement) == if c == target then replacement else [c]
  {
    assert [c][1..] == [];
  }

  /** One step of the chain on a text that is either the single character `c`
      or holds no occurrence of the step's target. */
  lemma ReplaceStep(t: string, c: char, target: char, replacement: string)
    requires t == [c] || target !in t
    ensures ReplaceChar(t, target, replacement) == if t == [c] && c == target then replacement else t
  {
    if t == [c] {
      ReplaceCharSingle(c, target, replacement);
    } else {
      ReplaceCharAbsent(t, target, replacement);
    }
  }

  lemma EscapeXmlPlain(c: char)
    requires c != '&' && c != '<' && c != '>' && c != '"' && c != '\''
    ensures EscapeXml([c]) == [c]
  {
    ReplaceCharSingle(c, '&', "&amp;");
    ReplaceCharSingle(c, '<', "&lt;");
    ReplaceCharSingle(c, '>', "&gt;");
    ReplaceCharSingle(c, '"', "&quot;");
    ReplaceCharSingle(c, '\'', "&apos;");
  }

  // Each special character turns into its entity at its own step; the later
  // steps find none of their targets in the entity.

  lemma LaterStepsKeep(t: string)
    requires '<' !in t && '>' !in t && '"' !in t && '\'' !in t
    ensures ReplaceChar(ReplaceChar(ReplaceChar(ReplaceChar(t, '<', "&lt;"), '>', "&gt;"), '"', "&quot;"), '\'', "&apos;") == t
  {
    ReplaceCharAbsent(t, '<', "&lt;");
    ReplaceCharAbsent(t, '>', "&gt;");
    ReplaceCharAbsent(t, '"', "&quot;");
    ReplaceCharAbsent(t, '\'', "&apos;");
  }

  lemma EscapeXmlAmp(c: char)
    requires c == '&'
    ensures EscapeXml([c]) == "&amp;"
  {
    ReplaceCharSingle(c, '&', "&amp;");
    LaterStepsKeep("&amp;");
  }

  lemma LastStepsKeep(t: string)
    requires '>' !in t && '"' !in t && '\'' !in t
    ensures ReplaceChar(ReplaceChar(ReplaceChar(t, '>', "&gt;"), '"', "&quot;"), '\'', "&apos;") == t
  {
    ReplaceCharAbsent(t, '>', "&gt;");
    ReplaceCharAbsent(t, '"', "&quot;");
    ReplaceCharAbsent(t, '\'', "&apos;");
  }

  lemma EscapeXmlLt(c: char)
    requires c == '<'
    ensures EscapeXml([c]) == "&lt;"
  {
    ReplaceCharSingle(c, '&', "&amp;");
    ReplaceCharSingle(c, '<', "&lt;");
    LastStepsKeep("&lt;");
  }

  lemma EscapeXmlGt(c: char)
    requires c == '>'
    ensures EscapeXml([c]) == "&gt;"
  {
    ReplaceCharSingle(c, '&', "&amp;");
    var t1 := ReplaceChar([c], '&', "&amp;");
    assert t1 == [c];
    ReplaceCharSingle(c, '<', "&lt;");
    var t2 := ReplaceChar([c], '<', "&lt;");
    assert t2 == [c];
    ReplaceCharSingle(c, '>', "&gt;");
    var t3 := ReplaceChar([c], '>', "&gt;");
    assert t3 == "&gt;";
    ReplaceCharAbsent("&gt;", '"', "&quot;");
    ReplaceCharAbsent("&gt;", '\'', "&apos;");
  }

  lemma EscapeXmlQuot(c: char)
    requires c == '"'
    ensures EscapeXml([c]) == "&quot;"
  {
    ReplaceCharSingle(c, '&', "&amp;");
    var t1 := ReplaceChar([c], '&', "&amp;");
    assert t1 == [c];
    ReplaceCharSingle(c, '<', "&lt;");
    var t2 := ReplaceChar([c], '<', "&lt;");
    assert t2 == [c];
    ReplaceCharSingle(c, '>', "&gt;");
    var t3 := ReplaceChar([c], '>', "&gt;");
    assert t3 == [c];
    ReplaceCharSingle(c, '"', "&quot;");
    var t4 := ReplaceChar([c], '"', "&quot;");
    assert t4 == "&quot;";
    ReplaceCharAbsent("&quot;", '\'', "&apos;");
  }

  lemma EscapeXmlApos(c: char)
    requires c == '\''
    ensures EscapeXml([c]) == "&apos;"
  {
    ReplaceCharSingle(c, '&', "&amp;");
    var t1 := ReplaceChar([c], '&', "&amp;");
    assert t1 == [c];
    ReplaceCharSingle(c, '<', "&lt;");
    var t2 := ReplaceChar([c], '<', "&lt;");
    assert t2 == [c];
    ReplaceCharSingle(c, '>', "&gt;");
    var t3 := ReplaceChar([c], '>', "&gt;");
    assert t3 == [c];
    ReplaceCharSingle(c, '"', "&quot;");
    var t4 := ReplaceChar([c], '"', "&quot;");
    assert t4 == [c];
    ReplaceCharSingle(c, '\'', "&apos;");
    var t5 := ReplaceChar([c], '\'', "&apos;");
    assert t5 == "&apos;";
  }

  /** The five replacements applied to one character give its entity. */
  lemma EscapeXmlChar(c: char)
    ensures EscapeXml([c]) == EscapeChar(c)
  {
    match c
    case '&' => EscapeXmlAmp(c);
    case '<' => EscapeXmlLt(c);
    case '>' => EscapeXmlGt(c);
    case '"' => EscapeXmlQuot(c);
    case '\'' => EscapeXmlApos(c);
    case _ => EscapeXmlPlain(c);
  }

  lemma EscapeXmlAppend(a: string, b: string)
    ensures EscapeXml(a + b) == EscapeXml(a) + EscapeXml(b)
  {
    ReplaceCharAppend(a, b, '&', "&amp;");
    var a1, b1 := ReplaceChar(a, '&', "&amp;"), ReplaceChar(b, '&', "&amp;");
    ReplaceCharAppend(a1, b1, '<', "&lt;");
    var a2, b2 := ReplaceChar(a1, '<', "&lt;"), ReplaceChar(b1, '<', "&lt;");
    ReplaceCharAppend(a2, b2, '>', "&gt;");
    var a3, b3 := ReplaceChar(a2, '>', "&gt;"), ReplaceChar(b2, '>', "&gt;");
    ReplaceCharAppend(a3, b3, '"', "&quot;");
    var a4, b4 := ReplaceChar(a3, '"', "&quot;"), ReplaceChar(b3, '"', "&quot;");
    ReplaceCharAppend(a4, b4, '\'', "&apos;");
  }

  /** Because the ampersand is replaced first, the chain of `replace` calls is
      the same as escaping each character on its own. */
  lemma {:induction false} EscapeXmlIsPerCharacter(text: string)
    ensures EscapeXml(text) == EscapeEach(text)
  {
    if text != [] {
      assert text == [text[0]] + text[1..];
      EscapeXmlAppend([text[0]], text[1..]);
      EscapeXmlChar(text[0]);
      EscapeXmlIsPerCharacter(text[1..]);
    }
  }

  predicate StartsWithAt(s: string, i: nat, lit: string)
  {
    i + |lit| <= |s| && s[i..i + |lit|] == lit
  }

  /** One of the five entities starts at position `i`. */
  predicate EntityAt(s: string, i: nat)
  {
    StartsWithAt(s, i, "&amp;") || StartsWithAt(s, i, "&lt;") || StartsWithAt(s, i, "&gt;")
    || StartsWithAt(s, i, "&quot;") || StartsWithAt(s, i, "&apos;")
  }

  /** Text that markup can hold: no raw `<`, `>`, `"` or `'`, and every `&`
      starts an entity. */
  predicate SafeText(s: string)
  {
    && (forall i | 0 <= i < |s| :: s[i] != '<' && s[i] != '>' && s[i] != '"' && s[i] != '\'')
    && (forall i | 0 <= i < |s| && s[i] == '&' :: EntityAt(s, i))
  }

  lemma StartsWithAtShift(a: string, b: string, i: nat, lit: string)
    requires StartsWithAt(b, i, lit)
    ensures StartsWithAt(a + b, |a| + i, lit)
  {
    assert (a + b)[|a| + i..|a| + i + |lit|] == b[i..i + |lit|];
  }

  lemma StartsWithAtExtend(a: string, b: string, i: nat, lit: string)
    requires StartsWithAt(a, i, lit)
    ensures StartsWithAt(a + b, i, lit)
  {
    assert (a + b)[i..i + |lit|] == a[i..i + |lit|];
  }

  lemma EntityAtShift(a: string, b: string, i: nat)
    requires EntityAt(b, i)
    ensures EntityAt(a + b, |a| + i)
  {
    if StartsWithAt(b, i, "&amp;") { StartsWithAtShift(a, b, i, "&amp;"); }
    else if StartsWithAt(b, i, "&lt;") { StartsWithAtShift(a, b, i, "&lt;"); }
    else if StartsWithAt(b, i, "&gt;") { StartsWithAtShift(a, b, i, "&gt;"); }
    else if StartsWithAt(b, i, "&quot;") { StartsWithAtShift(a, b, i, "&quot;"); }
    else { StartsWithAtShift(a, b, i, "&apos;"); }
  }

  lemma EntityAtExtend(a: string, b: string, i: nat)
    requires EntityAt(a, i)
    ensures EntityAt(a + b, i)
  {
    if StartsWithAt(a, i, "&amp;") { StartsWithAtExtend(a, b, i, "&amp;"); }
    else if StartsWithAt(a, i, "&lt;") { StartsWithAtExtend(a, b, i, "&lt;"); }
    else if StartsWithAt(a, i, "&gt;") { StartsWithAtExtend(a, b, i, "&gt;"); }
    else if StartsWithAt(a, i, "&quot;") { StartsWithAtExtend(a, b, i, "&quot;"); }
    else { StartsWithAtExtend(a, b, i, "&apos;"); }
  }

  lemma SafeTextAppend(a: string, b: string)
    requires SafeText(a) && SafeText(b)
    ensures SafeText(a + b)
  {
    var s := a + b;
    forall i | 0 <= i < |s| && s[i] == '&' ensures EntityAt(s, i) {
      if i < |a| {
        EntityAtExtend(a, b, i);
      } else {
        assert b[i - |a|] == '&';
        EntityAtShift(a, b, i - |a|);
      }
    }
  }

  lemma EscapeCharSafe(c: char)
    ensures SafeText(EscapeChar(c))
  {
    var e := EscapeChar(c);
    if c == '&' || c == '<' || c == '>' || c == '"' || c == '\'' {
      assert e[1..] == e[1..];
      assert StartsWithAt(e, 0, e);
    }
  }

  lemma {:induction false} EscapeEachSafe(text: string)
    ensures SafeText(EscapeEach(text))
  {
    if text != [] {
      EscapeEachSafe(text[1..]);
      EscapeCharSafe(text[0]);
      SafeTextAppend(EscapeChar(text[0]), EscapeEach(text[1..]));
    }
  }

  /** Escaped text never holds raw markup characters, and each of its ampersands
      begins an entity. */
  lemma EscapeXmlSafe(text: string)
    ensures SafeText(EscapeXml(text))
  {
    EscapeXmlIsPerCharacter(text);
    EscapeEachSafe(text);
  }

  /** Reads the five entities back: the inverse of escaping. */
  function UnescapeXml(s: string): string
  {
    if s == [] then []
    else if StartsWithAt(s, 0, "&amp;") then "&" + UnescapeXml(s[5..])
    else if StartsWithAt(s, 0, "&lt;") then "<" + UnescapeXml(s[4..])
    else if StartsWithAt(s, 0, "&gt;") then ">" + UnescapeXml(s[4..])
    else if StartsWithAt(s, 0, "&quot;") then "\"" + UnescapeXml(s[6..])
    else if StartsWithAt(s, 0, "&apos;") then "'" + UnescapeXml(s[6..])
    else [s[0]] + UnescapeXml(s[1..])
  }

  /** Escaping loses nothing: reading the entities back gives the original text. */
  lemma {:induction false} EscapeXmlRoundTrip(text: string)
    ensures UnescapeXml(EscapeXml(text)) == text
  {
    EscapeXmlIsPerCharacter(text);
    EscapeEachRoundTrip(text);
  }

  lemma UnescapeEntity(lit: string, c: char, t: string)
    requires (lit, c) in [("&amp;", '&'), ("&lt;", '<'), ("&gt;", '>'), ("&quot;", '"'), ("&apos;", '\'')]
    ensures UnescapeXml(lit + t) == [c] + UnescapeXml(t)
  {
    var s := lit + t;
    assert s[..|lit|] == lit && s[|lit|..] == t;
    assert StartsWithAt(s, 0, lit);
    assert s[1] == lit[1] && s[2] == lit[2];
  }

  lemma UnescapePlain(c: char, t: string)
    requires c != '&'
    ensures UnescapeXml([c] + t) == [c] + UnescapeXml(t)
  {
    var s := [c] + t;
    assert s[0] == c && s[1..] == t;
    assert !StartsWithAt(s, 0, "&amp;") && !StartsWithAt(s, 0, "&lt;") && !StartsWithAt(s, 0, "&gt;");
    assert !StartsWithAt(s, 0, "&quot;") && !StartsWithAt(s, 0, "&apos;");
  }

  /** Reading back an entity, or a character that needs none, yields the
      escaped character and continues after it. */
  lemma UnescapeHead(c: char, t: string)
    ensures UnescapeXml(EscapeChar(c) + t) == [c] + UnescapeXml(t)
  {
    match c
    case '&' => UnescapeEntity("&amp;", c, t);
    case '<' => UnescapeEntity("&lt;", c, t);
    case '>' => UnescapeEntity("&gt;", c, t);
    case '"' => UnescapeEntity("&quot;", c, t);
    case '\'' => UnescapeEntity("&apos;", c, t);
    case _ => UnescapePlain(c, t);
  }

  lemma {:induction false} EscapeEachRoundTrip(text: string)
    ensures UnescapeXml(EscapeEach(text)) == text
  {
    if text != [] {
      EscapeEachRoundTrip(text[1..]);
      UnescapeHead(text[0], EscapeEach(text[1..]));
      assert text == [text[0]] + text[1..];
    }
  }

  // ----- Text of a scalar -----

  function DigitChar(d: nat): char
    requires d < 10
  {
    ('0' as int + d) as char
  }

  /** The decimal digits of `n`, most significant first, with no leading zero. */
  function NatToString(n: nat): (r: string)
    ensures |r| >= 1
    ensures forall i | 0 <= i < |r| :: '0' <= r[i] <= '9'
    ensures |r| > 1 ==> r[0] != '0'
  {
    if n < 10 then [DigitChar(n)] else NatToString(n / 10) + [DigitChar(n % 10)]
  }

  /** `Long.toString`: canonical decimal with a leading `-` for negatives. */
  function IntToString(n: int): string
  {
    if n < 0 then "-" + NatToString(-n) else NatToString(n)
  }

  /** `String.valueOf` of a scalar. A `Float` shows its source token. */
  function ScalarText(v: Value): string
  {
    match v
    case Bool(b) => if b then "true" else "false"
    case Int(n) => IntToString(n)
    case Float(token) => token
    case Text(s) => s
    case _ => ""
  }
}
