# XML-JSON: a verified model of the JSON-to-XML converters

The repository converts a JSON text into an XML document in two ways.

- `JsonParser` is the plain converter. It trims the text, reads it with a lenient recursive-descent reader that threads one cursor `pos`, and writes the value tree as nested elements. The document is framed by `<?xml version="1.0" encoding="UTF-8"?>\n<root>\n` and `</root>`.
- `JsonParserForkJoin` is the fork/join converter. It reads the text with a duplicate of the same reader (`JsonParseTask`) and converts the tree with `XmlConversionTask`. Above 5 entries (maps) or 10 elements (lists), that task forks one subtask per child and joins them in fork order. An `ExecutionMonitor` counts tasks created, completed and active.

The model is split into these modules:

- `Values`: the parsed tree.
  - `Put` is `LinkedHashMap.put`: an existing key keeps its place and takes the new value.
- `TextRules`: the pure text rules. These are indentation, tag sanitising, the plural-to-singular rule, XML escaping and the decimal form of a `long`.
- `Grammar`: the reader as pure functions of the text and a cursor.
  - A routine with no normal return in Java yields `Diverges`. The one such case is a stuck `parseArray` loop, which adds an element on every pass until the JVM throws `OutOfMemoryError`.
- `Sequential`: the class `JsonParser`, plus the writer `valueToXML`/`mapToXML`/`listToXML` as recursive functions.
  - Its `pos` field is updated in place by methods with loops.
  - Each method is proved to compute exactly the `Grammar` function at the cursor where it starts, and to leave the cursor where that function says.
- `LoopSteps` and `ReaderFacts`: the step lemmas the parser loops use, and the leniency properties of the reader.
  - These cover: repeated keys, early end of an object, escapes, unterminated strings, numbers that degrade to text, and the inputs on which `parseArray` has no normal return.
- `FloatTokens`: the shape of the token of every double the reader builds: `-?digits.digits`, where either run of digits may be empty but not both (`1.`, `.5`, `-.5`).
- `JsonText`: a JSON writer used only as a reference. The reader reads back from that writer's text every well-formed tree whose doubles have that token shape.
- `WriterShape`: what `valueToXML` writes.
  - The output is a sequence of elements with tag names drawn from `[A-Za-z0-9_-]` and safely escaped text.
  - This holds with ASCII lower-casing (see "## Left out" for the locale).
  - Such tag names are not always XML names. An empty key is written as `<></>`, a key may start with a digit (`<1>`), and the elements of a list under the key `s` or `es` get the empty tag.
  - Map entries are written in entry order and list elements in list order.
- `Monitor`: the class `ExecutionMonitor` and its counters.
- `ParseTask`: the class `JsonParseTask`, whose parser methods are proved against the same `Grammar` functions as `JsonParser`'s.
  - Because both parsers are proved against the same functions, both yield the same tree and the same final cursor on every text.
- `ForkJoin`: the class `XmlConversionTask` and `JsonParserForkJoin.ToXml`.
  - Each conversion method is proved to return the pure `Convert` function of its value, whichever side of the threshold it takes. So the forked and the in-place branches write the same string.
  - The monitor is proved to count exactly `Tasks(v)` created and completed tasks for a tree `v`.
- `WriterAgreement`: where the two converters agree, the two trees on which they do not, and a corrected conversion proved equal to `valueToXML` on every tree.

## Where the two converters disagree

The fork/join converter is evidently meant to write the same document as `JsonParser`: its `compute`, `convertMap` and `convertListWithName` repeat the plain writer's statements. On two kinds of tree it does not, and the model follows the code; see "## Findings".

- The two writers agree on every tree with no list directly inside a list, as long as the root is not a list (`WriterAgreement.DocumentsAgree`).
- A list handled as a task's own value writes its elements one level too deep.
- So does a list directly inside a list.

## Model

| member | source | states |
|---|---|---|
| Values.Put | src/main/java/org/ian/JsonParser.java:83 | `map.put`: a key already present keeps its position and takes the new value, and every other entry is unchanged; a new key is appended; unique keys stay unique |
| Values.KeysOfPut | src/main/java/org/ian/JsonParser.java:83 | the key order after a put is unchanged when the key was present, and otherwise gains the key at the end |
| Values.PutAllKeyOrder | src/main/java/org/ian/JsonParser.java:53-83 | the map built by successive puts lists each key once, in the order of its first occurrence |
| Values.PutAllLastValueWins | src/main/java/org/ian/JsonParser.java:53-83 | every entry of that map holds the value of the last pair with its key |
| Values.PutAllUnique | src/main/java/org/ian/JsonParser.java:53-83 | pairs with distinct keys come out exactly as read |
| Values.PutAllWellFormed | src/main/java/org/ian/JsonParser.java:53-83 | an object built from well-formed values has unique keys at every level |
| TextRules.Indent | src/main/java/org/ian/JsonParser.java:338-340 | `indent(n)` is exactly 2n spaces |
| TextRules.SanitizeTagName | src/main/java/org/ian/JsonParser.java:343-345 | the sanitised name has the same length and only characters in `[A-Za-z0-9_-]` |
| TextRules.SanitizeAt | src/main/java/org/ian/JsonParser.java:343-345 | each character is kept when it is accepted and replaced by `_` otherwise |
| TextRules.SanitizeKeepsTagNames | src/main/java/org/ian/JsonParser.java:343-345 | a name made only of accepted characters comes back unchanged |
| TextRules.SanitizeIdempotent | src/main/java/org/ian/JsonParserForkJoin.java:476-478 | sanitising twice is sanitising once |
| TextRules.ToLower | src/main/java/org/ian/JsonParser.java:319 | lower-casing keeps the length and maps each character on its own |
| TextRules.ToSingular | src/main/java/org/ian/JsonParser.java:314-335 | the definition of `toSingular`: an empty name gives `item`; otherwise the lower-cased name loses a final `ies` for `y`, or else a final `es`, or else a final `s`, and is kept when it has none |
| TextRules.SingularIgnoresCase | src/main/java/org/ian/JsonParser.java:314-319 | an empty name gives `item`; the singular is lower case and the same for the name and its lower-cased form |
| TextRules.SingularOfPluralIes | src/main/java/org/ian/JsonParser.java:322-326 | a lower-case word ending in `ies` loses it for `y` |
| TextRules.SingularOfPluralEs | src/main/java/org/ian/JsonParser.java:322-327 | a lower-case word ending in `es` (but not `ies`) loses the `es`, so `es` itself gives the empty name |
| TextRules.SingularOfPluralS | src/main/java/org/ian/JsonParser.java:328-330 | a lower-case word ending in `s` (but not `es`) loses the `s`, so `s` itself gives the empty name |
| TextRules.SingularKeepsOtherWords | src/main/java/org/ian/JsonParser.java:333-334 | a lower-case word not ending in `s` is its own singular |
| TextRules.SingularKeepsTagNames | src/main/java/org/ian/JsonParser.java:314-335 | the singular of a name drawn from `[A-Za-z0-9_-]` is drawn from it too |
| ForkJoin.SingularRulesAgree | src/main/java/org/ian/JsonParserForkJoin.java:489-505 | testing `ies` before `es` gives the same singular as testing `es` first, for every name |
| TextRules.EscapeXml | src/main/java/org/ian/JsonParser.java:348-355 | the definition of `escapeXML`: five whole-text replacements in the order `&`, `<`, `>`, `"`, `'` |
| TextRules.EscapeXmlIsPerCharacter | src/main/java/org/ian/JsonParser.java:348-355 | the chain of five replacements equals one left-to-right mapping of each character, because `&` is replaced first |
| TextRules.EscapeXmlChar | src/main/java/org/ian/JsonParser.java:348-355 | each of `& < > " '` becomes its entity and any other character stays |
| TextRules.EscapeXmlAppend | src/main/java/org/ian/JsonParser.java:348-355 | escaping a concatenation is concatenating the escapes |
| TextRules.EscapeXmlSafe | src/main/java/org/ian/JsonParserForkJoin.java:480-487 | escaped text contains no raw `<`, `>`, `"` or `'`, and every `&` in it starts one of the five entities |
| TextRules.EscapeXmlRoundTrip | src/main/java/org/ian/JsonParserForkJoin.java:480-487 | unescaping the escaped text gives the text back |
| TextRules.NatToString | src/main/java/org/ian/JsonParser.java:256 | the decimal text of a number is non-empty, all digits, with no leading zero |
| Grammar.IsWhitespace | src/main/java/org/ian/JsonParser.java:240 | `Character.isWhitespace` on ASCII: codes 9-13 and 28-32 |
| Grammar.Parse | src/main/java/org/ian/JsonParser.java:9-16 | what `toXML` reads: the value at cursor 0 of the trimmed text |
| Grammar.Trim | src/main/java/org/ian/JsonParser.java:10 | `trim` removes exactly the leading and trailing characters at or below space |
| Grammar.SkipWs | src/main/java/org/ian/JsonParser.java:239-243 | the cursor only moves forward, stays within the text, stops on a non-whitespace character or the end, and stops before the end of trimmed text |
| Grammar.SkipWsPassesWhitespace | src/main/java/org/ian/JsonParser.java:239-243 | every character skipped is whitespace |
| Grammar.Unescape | src/main/java/org/ian/JsonParser.java:154-172 | the character after a backslash: `n`, `t` and `r` give newline, tab and carriage return; any other character stands for itself |
| Grammar.StringBody | src/main/java/org/ian/JsonParser.java:145-180 | the string loop never moves the cursor back or past the end |
| Grammar.ParseString | src/main/java/org/ian/JsonParser.java:141-183 | the cursor ends past the opening quote and within the text |
| Grammar.DigitsEnd | src/main/java/org/ian/JsonParser.java:193-195 | the digit loop stops within the text on a non-digit or the end |
| Grammar.DigitsEndPassesDigits | src/main/java/org/ian/JsonParser.java:193-195 | every character it passes is a digit |
| Grammar.NumberEnd | src/main/java/org/ian/JsonParser.java:186-202 | the number token never ends before it starts or past the text |
| Grammar.ParseLong | src/main/java/org/ian/JsonParser.java:210 | `Long.parseLong` accepts only values in the 64-bit range |
| Grammar.NumberValue | src/main/java/org/ian/JsonParser.java:204-214 | a token with `.` and a digit is a double keeping its token; a token without `.` is a `long` equal to `Long.parseLong` of it; anything either call rejects (such as `-.`) is the token as text |
| Grammar.ParseNumber | src/main/java/org/ian/JsonParser.java:186-215 | the cursor never moves back or past the end |
| Grammar.ParseBoolean | src/main/java/org/ian/JsonParser.java:218-227 | the cursor moves by 4 exactly on `true`, by 5 exactly on `false` (and no `true`), and stays put, yielding null, otherwise |
| Grammar.ParseNull | src/main/java/org/ian/JsonParser.java:230-236 | the result is null; the cursor moves by 4 exactly on `null` and stays put otherwise |
| Grammar.ParseScalar | src/main/java/org/ian/JsonParser.java:40-47 | the branches of `parseValue` for `"`, `t`/`f`, `n` and anything else; the cursor never moves back or past the end and the value is well formed |
| Grammar.ParseValue | src/main/java/org/ian/JsonParser.java:27-49 | a returning read never moves the cursor back or past the end, and builds a tree with unique keys and in-range integers |
| Grammar.ParseObject | src/main/java/org/ian/JsonParser.java:52-102 | a returning object read consumes at least the `{` and yields a well-formed object |
| Grammar.MemberAt | src/main/java/org/ian/JsonParser.java:63-83 | a member read consumes at least the key's quote; an early end never moves the cursor back |
| Grammar.Separator | src/main/java/org/ian/JsonParser.java:85-98 | the separator step never moves the cursor back or past the end |
| Grammar.ObjectMembers | src/main/java/org/ian/JsonParser.java:62-99 | the member loop only extends the pairs read so far, and every value in them is well formed |
| Grammar.ParseArray | src/main/java/org/ian/JsonParser.java:105-138 | a returning array read consumes at least the `[` and yields a well-formed list |
| Grammar.ArrayElements | src/main/java/org/ian/JsonParser.java:115-135 | a returning element loop stays within the text and yields a well-formed list |
| ReaderFacts.ObjectFirstPositionLastValue | src/main/java/org/ian/JsonParser.java:53-83 | the object read lists each key once, at the position of its first occurrence in the text, with the value of its last occurrence |
| ReaderFacts.EmptyObject | src/main/java/org/ian/JsonParser.java:57-60 | `{`, whitespace, `}` is an empty object and the cursor ends after the `}` |
| ReaderFacts.UnquotedKeyEndsObject | src/main/java/org/ian/JsonParser.java:63-68 | a key without a quote ends the object with the pairs read so far, cursor on the offending character |
| ReaderFacts.MissingColonEndsObject | src/main/java/org/ian/JsonParser.java:63-76 | a quoted key, with whitespace before and after it, followed by anything but `:` (or by the end of the text) ends the object with the pairs read so far, the cursor after that whitespace |
| ReaderFacts.QuoteReadsBack | src/main/java/org/ian/JsonParser.java:141-183 | a quoted string reads back as its text, with the cursor just past the closing quote |
| ReaderFacts.StringBodyReadsQuoted | src/main/java/org/ian/JsonParser.java:145-180 | escaped quotes and backslashes decode to themselves, and the closing quote ends the loop |
| ReaderFacts.EscapeRead | src/main/java/org/ian/JsonParser.java:151-175 | a backslash and the next character read as one: `\n`, `\t`, `\r` as control characters, any other as itself |
| ReaderFacts.UnterminatedString | src/main/java/org/ian/JsonParser.java:145-180 | a string with no closing quote (every `"` escaped) runs to the end of the text and yields its text with each escape pair decoded and a trailing backslash dropped; a string with a closing quote stops just after it |
| ReaderFacts.PlainTextToEnd | src/main/java/org/ian/JsonParser.java:145-180 | text without `"` or `\` has no closing quote and decodes to itself |
| ReaderFacts.TrailingBackslashDropped | src/main/java/org/ian/JsonParser.java:151-153 | a backslash as the last character is dropped |
| ReaderFacts.DecimalValueOfDigits | src/main/java/org/ian/JsonParser.java:210 | the decimal text of a number reads back as that number |
| ReaderFacts.ParseLongOfIntToString | src/main/java/org/ian/JsonParser.java:210 | `Long.parseLong` reads back the decimal text of every `long` |
| ReaderFacts.RejectedNumbersAreText | src/main/java/org/ian/JsonParser.java:212-214 | the empty token, a lone `-`, digits above 2^63-1 and `-` with digits below -2^63 come back as text |
| ReaderFacts.DispatchObject | src/main/java/org/ian/JsonParser.java:27-37 | a `{` after whitespace is read as an object starting there |
| ReaderFacts.DispatchArray | src/main/java/org/ian/JsonParser.java:27-39 | a `[` after whitespace is read as a list starting there |
| ReaderFacts.DispatchString | src/main/java/org/ian/JsonParser.java:27-41 | a `"` after whitespace is read as a string starting there |
| ReaderFacts.DispatchNumber | src/main/java/org/ian/JsonParser.java:27-47 | after whitespace, any character other than `{`, `[`, `"`, `t`, `f` and `n` starts a number token |
| ReaderFacts.EmptyArray | src/main/java/org/ian/JsonParser.java:110-113 | `[]` is an empty list and the cursor ends after the `]` |
| ReaderFacts.ArrayOfBareLetterLoops | src/main/java/org/ian/JsonParser.java:115-135 | `[x]` has no normal return |
| ReaderFacts.ArrayOfBrokenLiteralLoops | src/main/java/org/ian/JsonParser.java:115-135 | `[tx]` has no normal return |
| ReaderFacts.StuckIterationLoops | src/main/java/org/ian/JsonParser.java:115-135 | if an iteration ends where it started, on neither `,` nor `]`, the loop has no normal return |
| JsonText.ReadsBack | src/main/java/org/ian/JsonParser.java:27-49 | at any cursor, the reader reads back a tree from its JSON text and stops just after it |
| JsonText.ReadsBackObject | src/main/java/org/ian/JsonParser.java:52-102 | an object's JSON text reads back as that object |
| JsonText.ReadsBackArray | src/main/java/org/ian/JsonParser.java:105-138 | a list's JSON text reads back as that list |
| JsonText.ParseToJson | src/main/java/org/ian/JsonParser.java:9-49 | trimming and reading the JSON text of any well-formed tree whose doubles have the reader's token shape gives the tree back and consumes the whole text |
| FloatTokens.ReadFloatShaped | src/main/java/org/ian/JsonParser.java:186-214 | every double `parseNumber` builds has a token `-?digits.digits` with at least one digit, either run possibly empty |
| FloatTokens.NumberValueOfFloat | src/main/java/org/ian/JsonParser.java:204-208 | a token of that shape is read as a double holding that token |
| Sequential.Document | src/main/java/org/ian/JsonParser.java:14-24 | the document `toXML` returns: the XML declaration, `<root>` on its own line, the tree written at level 1, and `</root>` |
| Sequential.ValueToXml | src/main/java/org/ian/JsonParser.java:246-258 | the definition of `valueToXML`: null writes nothing, a map its entries, a list its elements under the tag `item`, any other value its escaped text |
| Sequential.MapToXml | src/main/java/org/ian/JsonParser.java:261-288 | the definition of `mapToXML`: the entries' elements, in entry order |
| Sequential.EntryXml | src/main/java/org/ian/JsonParser.java:264-284 | one entry of `mapToXML`: the sanitised key as tag; a map value one level deeper on its own lines, a list value's elements one level deeper under the key's singular, each with the close tag indented; any other value on the line |
| Sequential.ListToXml | src/main/java/org/ian/JsonParser.java:291-311 | the definition of `listToXML`: the elements under the singular of the property name |
| Sequential.ListItems | src/main/java/org/ian/JsonParser.java:295-308 | the loop of `listToXML`: one element per list element, in list order, all with the same tag |
| Sequential.ItemXml | src/main/java/org/ian/JsonParser.java:295-307 | one list element: a map or list one level deeper on its own lines with the close tag indented, any other value on the line |
| Sequential.JsonParser.constructor | src/main/java/org/ian/JsonParser.java:9-12 | the parser holds the trimmed text with the cursor at 0 |
| Sequential.JsonParser.ToXml | src/main/java/org/ian/JsonParser.java:14-24 | the result is the document for the tree read at the cursor, or `Loops` when the read has no normal return; a returning call leaves the cursor just after that tree |
| Sequential.JsonParser.ParseValue | src/main/java/org/ian/JsonParser.java:27-49 | the value and new cursor are those of the reader's grammar at the old cursor |
| Sequential.JsonParser.ParseObject | src/main/java/org/ian/JsonParser.java:52-102 | the object and new cursor are those of the grammar, including the early ends |
| Sequential.JsonParser.ParseMember | src/main/java/org/ian/JsonParser.java:63-83 | one key/value step of the object loop, as the grammar reads it |
| Sequential.JsonParser.ParseArray | src/main/java/org/ian/JsonParser.java:105-138 | the list and new cursor are those of the grammar, and the call has no normal return exactly when the grammar says it loops |
| Sequential.JsonParser.ParseString | src/main/java/org/ian/JsonParser.java:141-183 | the text and new cursor are those of the grammar's string loop |
| Sequential.JsonParser.ParseNumber | src/main/java/org/ian/JsonParser.java:186-215 | the value and new cursor are those of the grammar's number token |
| Sequential.JsonParser.ParseBoolean | src/main/java/org/ian/JsonParser.java:218-227 | the value and new cursor are those of the grammar's boolean literal |
| Sequential.JsonParser.ParseNull | src/main/java/org/ian/JsonParser.java:230-236 | the value and new cursor are those of the grammar's null literal |
| Sequential.JsonParser.EndOfItem | src/main/java/org/ian/JsonParser.java:85-98 | the end-of-item step (skip whitespace, then `,`, the closing bracket or anything else) as the grammar reads it |
| Sequential.JsonParser.SkipWhitespace | src/main/java/org/ian/JsonParser.java:239-243 | the new cursor is the first non-whitespace position from the old one |
| WriterShape.ScalarXml | src/main/java/org/ian/JsonParser.java:256 | a scalar's text is safe XML that unescapes to its `String.valueOf` |
| WriterShape.ValueRendersNodes | src/main/java/org/ian/JsonParser.java:246-258 | `valueToXML` of a map or list is the rendering of its elements, and of a scalar its escaped text |
| WriterShape.MapRendersNodes | src/main/java/org/ian/JsonParser.java:261-288 | `mapToXML` renders one element per entry, in entry order |
| WriterShape.EntryRendersNode | src/main/java/org/ian/JsonParser.java:264-284 | an entry opens `<key>` at its level; a container value follows on new lines one level deeper and the close tag is indented; a scalar is inline |
| WriterShape.ListRendersNodes | src/main/java/org/ian/JsonParser.java:291-311 | `listToXML` renders one element per list element, in list order |
| WriterShape.ItemRendersNode | src/main/java/org/ian/JsonParser.java:295-307 | an element is wrapped in the singular tag; a nested list's elements are tagged `item` |
| WriterShape.ItemIsSingular | src/main/java/org/ian/JsonParser.java:254 | `item` is its own singular, so a top-level list's elements are tagged `item` |
| WriterShape.EntryNodesWellFormed | src/main/java/org/ian/JsonParser.java:261-288 | every element a map becomes has a tag drawn from `[A-Za-z0-9_-]` and safe text |
| WriterShape.ItemNodesWellFormed | src/main/java/org/ian/JsonParser.java:291-311 | every element a list becomes has a tag drawn from `[A-Za-z0-9_-]` and safe text |
| WriterShape.EmptyKeyTag | src/main/java/org/ian/JsonParser.java:264-284 | an entry with the empty key is written as the element `<></>` |
| WriterShape.DigitKeyTag | src/main/java/org/ian/JsonParser.java:264-284 | an entry with the key `1` is written as `<1></1>`, a tag that is not an XML name |
| WriterShape.PluralSItemTag | src/main/java/org/ian/JsonParser.java:291-311 | the elements of a list under the key `s` are written as `<></>` |
| WriterShape.DocumentShape | src/main/java/org/ian/JsonParser.java:14-24 | the document is the header, the well-formed elements at level 1 (or the scalar's escaped text), and `</root>` |
| WriterShape.MapToXmlAppend | src/main/java/org/ian/JsonParser.java:264-285 | the text for entries `a + b` is `a`'s text followed by `b`'s |
| WriterShape.ListItemsAppend | src/main/java/org/ian/JsonParser.java:295-308 | the text for elements `a + b` is `a`'s text followed by `b`'s |
| Monitor.ExecutionMonitor.constructor | src/main/java/org/ian/JsonParserForkJoin.java:510-515 | a new monitor has zero counters and is not executing |
| Monitor.ExecutionMonitor.Reset | src/main/java/org/ian/JsonParserForkJoin.java:517-524 | after a reset every counter is zero, nothing runs, and the counter invariant `0 <= completed <= created`, `active == created - completed` holds |
| Monitor.ExecutionMonitor.StartExecution | src/main/java/org/ian/JsonParserForkJoin.java:526-529 | the monitor is executing and the counters are unchanged |
| Monitor.ExecutionMonitor.EndExecution | src/main/java/org/ian/JsonParserForkJoin.java:531-534 | the monitor is no longer executing and the counters are unchanged |
| Monitor.ExecutionMonitor.IncrementTasksCreated | src/main/java/org/ian/JsonParserForkJoin.java:536-538 | tasks created goes up by one, nothing else changes |
| Monitor.ExecutionMonitor.IncrementTasksCompleted | src/main/java/org/ian/JsonParserForkJoin.java:540-542 | tasks completed goes up by one, nothing else changes |
| Monitor.ExecutionMonitor.IncrementActiveThreads | src/main/java/org/ian/JsonParserForkJoin.java:544-546 | active goes up by one, nothing else changes |
| Monitor.ExecutionMonitor.DecrementActiveThreads | src/main/java/org/ian/JsonParserForkJoin.java:548-550 | active goes down by one, nothing else changes |
| Monitor.ExecutionMonitor.Progress | src/main/java/org/ian/JsonParserForkJoin.java:575-579 | progress is 0 with no task created, lies in 0..100 while completed <= created, and is 100 when all created tasks completed |
| ParseTask.JsonParseTask.constructor | src/main/java/org/ian/JsonParserForkJoin.java:86-90 | the parse task holds the (trimmed) text and the monitor with the cursor at 0 |
| ParseTask.JsonParseTask.Compute | src/main/java/org/ian/JsonParserForkJoin.java:93-103 | the parse task reads what the grammar reads and, on both paths (its `finally` runs), counts itself as one created and completed task with active unchanged |
| ParseTask.JsonParseTask.ParseValue | src/main/java/org/ian/JsonParserForkJoin.java:105-127 | same grammar function and cursor as the plain parser's `parseValue` |
| ParseTask.JsonParseTask.ParseObject | src/main/java/org/ian/JsonParserForkJoin.java:129-170 | same grammar function and cursor as the plain parser's `parseObject` |
| ParseTask.JsonParseTask.ParseMember | src/main/java/org/ian/JsonParserForkJoin.java:142-155 | one key/value step of the object loop, as the grammar reads it |
| ParseTask.JsonParseTask.ParseArray | src/main/java/org/ian/JsonParserForkJoin.java:172-200 | same grammar function and cursor as the plain parser's `parseArray`, including the inputs on which it has no normal return |
| ParseTask.JsonParseTask.ParseString | src/main/java/org/ian/JsonParserForkJoin.java:202-233 | same grammar function and cursor as the plain parser's `parseString` |
| ParseTask.JsonParseTask.ParseNumber | src/main/java/org/ian/JsonParserForkJoin.java:235-264 | same grammar function and cursor as the plain parser's `parseNumber` |
| ParseTask.JsonParseTask.ParseBoolean | src/main/java/org/ian/JsonParserForkJoin.java:266-275 | same grammar function and cursor as the plain parser's `parseBoolean` |
| ParseTask.JsonParseTask.ParseNull | src/main/java/org/ian/JsonParserForkJoin.java:277-283 | same grammar function and cursor as the plain parser's `parseNull` |
| ParseTask.JsonParseTask.EndOfItem | src/main/java/org/ian/JsonParserForkJoin.java:187-196 | the end-of-item step as the grammar reads it |
| ParseTask.JsonParseTask.SkipWhitespace | src/main/java/org/ian/JsonParserForkJoin.java:285-289 | the new cursor is the first non-whitespace position from the old one |
| ForkJoin.ToSingularIesFirst | src/main/java/org/ian/JsonParserForkJoin.java:489-505 | the fork/join `toSingular`: as the plain one, but testing `ies` before `es` |
| ForkJoin.Convert | src/main/java/org/ian/JsonParserForkJoin.java:307-327 | what a conversion task returns: null nothing, a map its entry fragments, a list its elements under `item` one level below the task's level, any other value its escaped text |
| ForkJoin.MapFragments | src/main/java/org/ian/JsonParserForkJoin.java:329-404 | what `convertMap` returns: the entry fragments in entry order |
| ForkJoin.EntryFragment | src/main/java/org/ian/JsonParserForkJoin.java:340-365 | one entry: the sanitised key as tag; a map value converted one level deeper on its own lines, a list value's elements one level below the key under its singular, any other value on the line |
| ForkJoin.NamedListFragments | src/main/java/org/ian/JsonParserForkJoin.java:410-470 | what `convertListWithName` returns: the elements under the singular of the property name |
| ForkJoin.ListFragments | src/main/java/org/ian/JsonParserForkJoin.java:414-467 | the elements of a list, one fragment each, in list order |
| ForkJoin.ItemFragment | src/main/java/org/ian/JsonParserForkJoin.java:419-439 | one element one level below the task's level; a map or list converted two levels below it on its own lines, any other value on the line |
| ForkJoin.Tasks | src/main/java/org/ian/JsonParserForkJoin.java:307-327 | the conversion tasks a tree runs, at least one: its own, and one per map value, list element and scalar below it; a list under a map key has none of its own |
| ForkJoin.ForkJoinDocument | src/main/java/org/ian/JsonParserForkJoin.java:32-53 | the document the fork/join `toXML` returns: the same frame as `JsonParser`'s around the conversion at level 1 |
| ForkJoin.MapFragmentsAppend | src/main/java/org/ian/JsonParserForkJoin.java:372-374 | joining in fork order: the fragments of entries `a + b` are `a`'s followed by `b`'s, and so are their task counts |
| ForkJoin.ListFragmentsAppend | src/main/java/org/ian/JsonParserForkJoin.java:446-448 | the same for list elements |
| ForkJoin.XmlConversionTask.constructor | src/main/java/org/ian/JsonParserForkJoin.java:299-304 | the conversion task holds its value, tag, level and monitor |
| ForkJoin.XmlConversionTask.Compute | src/main/java/org/ian/JsonParserForkJoin.java:307-327 | the conversion task writes `Convert` of its value at its level and counts `Tasks(value)` tasks, all completed, with active unchanged |
| ForkJoin.XmlConversionTask.ConvertMap | src/main/java/org/ian/JsonParserForkJoin.java:329-404 | both the forked branch (more than 5 entries) and the in-place branch write the entry fragments concatenated in entry order |
| ForkJoin.XmlConversionTask.ConvertMapForked | src/main/java/org/ian/JsonParserForkJoin.java:332-374 | one subtask per entry, joined in fork order, writes the entry fragments in entry order and runs each entry's tasks |
| ForkJoin.XmlConversionTask.ConvertMapInPlace | src/main/java/org/ian/JsonParserForkJoin.java:375-401 | the in-place loop writes the same entry fragments in entry order and runs the same tasks |
| ForkJoin.XmlConversionTask.ConvertEntry | src/main/java/org/ian/JsonParserForkJoin.java:340-365 | one entry's fragment: a map one level deeper, a list's elements under the key's singular, or a scalar inline |
| ForkJoin.XmlConversionTask.ConvertList | src/main/java/org/ian/JsonParserForkJoin.java:406-408 | a task's own list is written with the element tag `item` |
| ForkJoin.XmlConversionTask.ConvertListWithName | src/main/java/org/ian/JsonParserForkJoin.java:410-470 | both the forked branch (more than 10 elements) and the in-place branch write the element fragments in list order, tagged with the singular of the property name |
| ForkJoin.XmlConversionTask.ConvertListForked | src/main/java/org/ian/JsonParserForkJoin.java:414-448 | one subtask per element, joined in fork order, writes the element fragments in list order under the given tag |
| ForkJoin.XmlConversionTask.ConvertListInPlace | src/main/java/org/ian/JsonParserForkJoin.java:449-467 | the in-place loop writes the same element fragments in list order |
| ForkJoin.XmlConversionTask.ConvertItem | src/main/java/org/ian/JsonParserForkJoin.java:419-439 | one element's fragment at level+1, a container's contents at level+2 |
| ForkJoin.JsonParserForkJoin.constructor | src/main/java/org/ian/JsonParserForkJoin.java:17-29 | every converter owns a monitor of its own, newly created, with zero counters and not executing |
| ForkJoin.JsonParserForkJoin.ToXml | src/main/java/org/ian/JsonParserForkJoin.java:32-53 | the document for the tree read from the trimmed text, or `Loops` when the read has no normal return; on both paths execution has ended, active is 0, created equals completed (1 plus `Tasks` of the tree, or 1 for the parse task alone) and progress is 100 |
| WriterAgreement.ConvertAgrees | src/main/java/org/ian/JsonParserForkJoin.java:307-327 | on a non-list tree with no list directly inside a list, the conversion task writes what `valueToXML` writes |
| WriterAgreement.MapAgrees | src/main/java/org/ian/JsonParserForkJoin.java:329-404 | on such entries `convertMap` writes what `mapToXML` writes |
| WriterAgreement.EntryAgrees | src/main/java/org/ian/JsonParserForkJoin.java:340-365 | one such entry's fragment equals `mapToXML`'s text for it |
| WriterAgreement.ListAgrees | src/main/java/org/ian/JsonParserForkJoin.java:410-470 | elements without a nested list are written as `listToXML` writes them one level deeper |
| WriterAgreement.ItemAgrees | src/main/java/org/ian/JsonParserForkJoin.java:419-439 | one such element equals `listToXML`'s text for it one level deeper |
| WriterAgreement.DocumentsAgree | src/main/java/org/ian/JsonParserForkJoin.java:32-53 | for a non-list root with no list directly inside a list, both converters write the same document |
| WriterAgreement.ListTaskShifted | src/main/java/org/ian/JsonParserForkJoin.java:406-408 | a list converted as a task's own value is `valueToXML` of it one level deeper |
| WriterAgreement.NestedListShifted | src/main/java/org/ian/JsonParserForkJoin.java:426-431 | a list element that is itself a list has its contents written at level+3 where `listToXML` uses level+2 |
| WriterAgreement.RootListDiffers | src/main/java/org/ian/JsonParserForkJoin.java:318-319 | for the text `[null]` the two documents differ |
| WriterAgreement.NestedEntryLonger | src/main/java/org/ian/JsonParserForkJoin.java:426-431 | for `"a":[[null]]` the fork/join fragment is two characters longer |
| WriterAgreement.NestedListDiffers | src/main/java/org/ian/JsonParserForkJoin.java:426-431 | for the text `{"a":[[null]]}` the two documents differ |
| WriterAgreement.FixedConvertAgrees | src/main/java/org/ian/JsonParserForkJoin.java:307-327 | the corrected conversion writes what `valueToXML` writes, for every tree |
| WriterAgreement.FixedConvertKeepsConvert | src/main/java/org/ian/JsonParserForkJoin.java:307-327 | the corrected conversion writes what `compute` writes on every non-list tree with no list directly inside a list |
| WriterAgreement.FixedMapAgrees | src/main/java/org/ian/JsonParserForkJoin.java:329-404 | the corrected map conversion writes what `mapToXML` writes |
| WriterAgreement.FixedEntryAgrees | src/main/java/org/ian/JsonParserForkJoin.java:340-365 | one corrected entry fragment equals `mapToXML`'s text for it |
| WriterAgreement.FixedListAgrees | src/main/java/org/ian/JsonParserForkJoin.java:410-470 | the corrected list conversion writes what `listToXML` writes at the element level |
| WriterAgreement.FixedItemAgrees | src/main/java/org/ian/JsonParserForkJoin.java:419-439 | one corrected element equals `listToXML`'s text for it |
| WriterAgreement.FixedDocumentAgrees | src/main/java/org/ian/JsonParserForkJoin.java:32-53 | with the corrected conversion, both converters write the same document for every tree |

## Left out

- Unicode: `Character.isWhitespace`, `Character.isDigit`, `String.trim` and `toLowerCase` are modelled on ASCII only. Whitespace is codes 9-13 and 28-32, digits are `0`-`9`, and lower-casing maps `A`-`Z`. So the model does not have the `StringIndexOutOfBoundsException` that a non-ASCII whitespace character at the end of the text causes: `trim` keeps it, `skipWhitespace` passes it, and the unguarded `charAt` at JsonParser.java:66 and JsonParserForkJoin.java:143 reads past the end (for `{"a":1,` followed by U+3000).
- Doubles: `Double.parseDouble` and the rendering of a double by `String.valueOf` are not modelled. A double keeps the token it was read from and is written as that token.
- Integers: a `long` is written in canonical decimal. This is `Long.toString` of the parsed value, so `007` is written `7` and `-0` is written `0`.
- Non-termination: a stuck `parseArray` loop is a `Diverges` or `Loops` result, not a loop. In Java it adds an element on every pass and ends in `OutOfMemoryError`; the model does not follow the list's growth.
- Stack depth: both readers and both writers recurse once per level of nesting. On deeply nested input Java ends in `StackOverflowError`, while the model returns normally.
- Concurrency: atomics, `volatile` and concurrent reads of the monitor are left out. The counters are updated one step at a time.
- Scheduling: `ForkJoinPool.invoke`, `fork` and `join` are not modelled. A forked subtask is computed when it is forked, and the results are joined in fork order, which is the order the code joins them in.
- Counter width: `AtomicInteger` wrap-around at 2^31 is not modelled.
- TextRules.SingularKeepsTagNames: `toLowerCase()` uses the JVM's default locale. The model lower-cases ASCII only, as the root locale does. Under a Turkish or Azeri locale `I` lowers to `ı`, so the key `ITEMS` gives the tag `ıtem`, which is outside `[A-Za-z0-9_-]`.
- WriterShape.EntryNodesWellFormed: holds only with that ASCII lower-casing, because the tags of a list's elements under a key go through `toLowerCase()`.
- WriterShape.ItemNodesWellFormed: holds only with that ASCII lower-casing, for the same reason.
- Monitor.ExecutionMonitor.Progress: computed as an exact real, not a double.
- Clocks: `startTime`, `endTime`, `getExecutionTimeMs` and the other monitor getters are left out.
- Thread pool: the pool argument of the `JsonParserForkJoin` constructors, `shutdown` and `PoolStats` concern the thread pool, which is not modelled.
- ForkJoin.XmlConversionTask.constructor: the `tagName` field is held but never read by the code, so no contract mentions it.
- ParseTask.JsonParseTask.ParseObject: the unused local list `subtasks` and the unused `valueStart` are left out.
- Loop structure: `ParseMember` and `EndOfItem` are the bodies of the object and array loops, split out as methods. Their steps are the Java statements in the same order.
- Threshold branches: the forked and the in-place branch of `convertMap` and of `convertListWithName` are split out as methods of their own (`ConvertMapForked`, `ConvertMapInPlace`, `ConvertListForked`, `ConvertListInPlace`). Their statements are the Java branch bodies in the same order.
- Fragment building: `ConvertEntry` and `ConvertItem` build each fragment from its whole body, not by successive `StringBuilder` appends. The resulting string is the same.
- Out of scope:
  - `validateJSON`, which calls the external org.json library;
  - `printProperties` and `printValue`, which are console output;
  - the Swing user interface.

## Findings

| source | as written | input that shows it | evidently intended | confidence | as-written member | corrected member |
|---|---|---|---|---|---|---|
| src/main/java/org/ian/JsonParserForkJoin.java:318-319 | `compute` hands a root list to `convertList`, which writes its elements at `level + 1`, so a root list's elements are at level 2 | `[null]`: fork/join writes `    <item></item>` where `JsonParser` writes `  <item></item>` | output byte-identical to `JsonParser.toXML` | not executed | WriterAgreement.RootListDiffers | WriterAgreement.FixedConvertAgrees |
| src/main/java/org/ian/JsonParserForkJoin.java:426-431 | an element that is a list is converted by a task at `level + 2`, which again writes its elements one level deeper, so the inner elements are at level+3 instead of level+2 | `{"a":[[null]]}`: the inner `<item></item>` is indented two more spaces than `JsonParser` writes it | output byte-identical to `JsonParser.toXML` | not executed | WriterAgreement.NestedListDiffers | WriterAgreement.FixedConvertAgrees |
