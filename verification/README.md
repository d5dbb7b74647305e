# DSP Embedded: a verified model

DSP Embedded is a provider for the Eclipse Dataspace Protocol on a dual-core
microcontroller. This project models its hard core in Dafny and proves what the
parts promise each other:

- the vendored JSON engine (`cJSON.c`): a recursive-descent parser that builds
  doubly linked trees, a printer that writes through a growing buffer, the
  two-pass string reader and writer, UTF-16 to UTF-8 conversion, the list
  operations, duplication and comparison; and on top of it the field helpers,
  the six message builders and the four validators;
- the checksums and codecs: CRC-32 of the sleep image, CRC-8 of the sensor
  frame, base64url and the DER form of signatures;
- the provider protocol as a transition system over the negotiation and
  transfer tables, from the received body or path to the text of the reply, with
  deep sleep as a step;
- the sample ring buffer between the two cores, with its notification queue.

## How to read it

Code that changes state is a class or a method with the same loops and
assignments, proved against a pure function or a sequence; the properties are
lemmas about those. The sizes of both tables, the capacity of the ring buffer and
the capacities of the buffers that callers pass are parameters, so the claims hold
for all of them. The lengths of an id buffer (64) and of a handler's text buffer
(1024) and the nesting limits (1000 for parsing, 10000 for duplication) are the
constants of the code.

| files | content |
|---|---|
| `CText`, `Bytes`, `EspIdf` | characters and C strings, octets, error codes |
| `Utf16`, `JsonString`, `JsonNumber` | strings, escapes, numbers |
| `JsonValue` | JSON values and the pure renderer |
| `JsonList`, `JsonTree`, `JsonNodes` | nodes, child lists, trees of nodes, and the values they hold |
| `JsonParse`, `JsonPrint`, `JsonCompare` | parser, printer, comparison |
| `JsonRoundTrip`, `JsonCycle`, `JsonGrammar`, `JsonWriting`, `JsonAccepted` | round trips; the texts of RFC 8259 as read and as written; what else is accepted |
| `JsonEdit`, `JsonLd`, `DspJson`, `DspBuild`, `DspText`, `DspMsg` | look-up and change of objects, names, helpers, builders, the messages on the wire, validators |
| `BitRegister`, `Crc32`, `Dht20` | checksum registers in general, the two checksums, the sensor frame |
| `Base64Url`, `Der` | the codecs of the token check |
| `RingBuffer` | the buffer between the cores |
| `Slots`, `Negotiation`, `Transfer`, `RtcState` | tables, state machines, sleep image |
| `Requests`, `Protocol`, `Outcomes` | what the handlers read and reply, the handlers and runs of the provider, and what each request leaves behind |

`dafny verify dfyconfig.toml` checks everything.

A few behaviours of the code that a reader may not expect, each stated by a member:

- an escape whose four digits are malformed is read as U+0000, unless fewer than
  six characters are left for it (`Utf16.MalformedDigitsReadAsNul`);
- such an escape can make the second pass of the string reader split the text
  differently from the first (`JsonString.PassesOutOfStep` shows an input,
  `JsonString.EscapeKeepsStep` says exactly when); the second pass still stays in
  its buffer (`JsonString.UnescapeInto`);
- appending an item whose `next` is set, or one that is in the list already, breaks
  a non-empty list (`JsonList.AddItemToArray` states exactly when), and nothing
  checks that an item to be replaced is a child (`JsonList.ReplaceItemViaPointer`);
- storing a string removes only the first member of that name
  (`DspJson.PutShadowed`);
- with a repeated key a tree need not compare equal to its duplicate
  (`JsonCompare.RepeatedNamesBreakComparison` shows an input,
  `JsonCompare.SameAsItself` and `JsonCompare.SameAsItselfIffCoherent` say exactly when it does);
- restoring before the tables are initialised reports success and loads nothing
  (`RtcState.NegRoundTrip`);
- the header comment of `dsp_rtc_state.h` (lines 17-18) promises INVALID_STATE
  for a wrong CRC; the code, which the model follows, returns INVALID_CRC.

The trees of the parser, printer, builders and validators are trees of nodes.
Each such method takes or returns the shape of its tree as a ghost argument, and
`JsonNodes.Represents` says which value the nodes hold.

## Model

| member | source | states |
|---|---|---|
| `JsonRoundTrip.TreeRoundTrip` | components/dsp_json/cjson/cJSON.c:1363-1881 | for every tree of null, booleans, integers in `int` range, NUL-free strings, arrays and objects nested at most 1000 deep, the printed text, formatted or not, with or without a terminator behind it, parses back to exactly that tree (key order and repeated keys included) and is consumed whole |
| `JsonRoundTrip.ValueRoundTrip` | components/dsp_json/cjson/cJSON.c:1363-1881 | the same at any position of a larger text and at any depth, for every kind of value |
| `JsonRoundTrip.ArrayRoundTrip` | components/dsp_json/cjson/cJSON.c:1492-1649 | a rendered array is read back wherever it stands, separators and white space included |
| `JsonRoundTrip.ObjectRoundTrip` | components/dsp_json/cjson/cJSON.c:1652-1881 | a rendered object is read back wherever it stands, keys, separators and indentation included |
| `JsonRoundTrip.ParsedIsClean` | components/dsp_json/cjson/cJSON.c:1142-1219 | whatever the text, a parsed tree holds no string or key with a terminator inside and nests at most 1000 deep |
| `JsonRoundTrip.ParsedPrintsBack` | components/dsp_json/cjson/cJSON.c:1142-1299 | whatever text an all-integer tree was parsed from, printing it, formatted or not, and parsing again gives the same tree |
| `JsonWriting.PrintedIsJson` | components/dsp_json/cjson/cJSON.c:1418-1881 | every rendered tree, formatted or not, is a text of the grammar of RFC 8259, and that text denotes exactly the tree; no word about the parser |
| `JsonWriting.QuoteIsText` | components/dsp_json/cjson/cJSON.c:949-1068 | a quoted string is a text of section 7 of RFC 8259 that denotes the string |
| `JsonWriting.DecimalIsNumber` | components/dsp_json/cjson/cJSON.c:591-625 | a printed integer is a number of section 6 without leading zeros, fraction or exponent, and denotes the integer |
| `JsonGrammar.TextReads` | components/dsp_json/cjson/cJSON.c:1142-1219 | a text of RFC 8259 - any white space, any spelling of characters, any form of numbers - parses exactly when it nests at most 1000 deep and no surrogate among its escapes stands alone, and then to the value it denotes, with or without the demand for a terminator |
| `JsonGrammar.MarkedTextReads` | components/dsp_json/cjson/cJSON.c:1111-1123 | a byte order mark in front of such a text makes no difference |
| `JsonAccepted.AcceptedIsOutline` | components/dsp_json/cjson/cJSON.c:1142-1767 | the other direction, for every text: what is accepted is, behind a byte order mark and blanks, built of words, quoted texts, runs of number characters, single commas, names with colons and matching brackets, and the value has that structure; where the end is demanded, only blanks follow up to a terminator |
| `JsonGrammar.ValueReads` | components/dsp_json/cjson/cJSON.c:1363-1767 | a value of the grammar at any position and depth is read exactly when it nests within the limit and has no lone surrogate, and then to its exact end |
| `JsonGrammar.StringReads` | components/dsp_json/cjson/cJSON.c:819-946 | a quoted text with any mix of raw characters, short escapes and hexadecimal escapes is read exactly when its surrogates are paired, and then as the C string it stands for |
| `JsonGrammar.NumberReads` | components/dsp_json/cjson/cJSON.c:307-408 | every number of the grammar is read whole, as the decimal it denotes, where numbers are reals |
| `JsonGrammar.ScaledIsNumberValue` | components/dsp_json/cjson/cJSON.c:307-408 | the decimal that a number text denotes, digit by digit and place by place, is what the scaled reading of `strtod` gives |
| `JsonGrammar.LettersAgree` | components/dsp_json/cjson/cJSON.c:882-904 | the two-character escapes are those of section 7 of RFC 8259, and no others |
| `JsonCycle.PrintAndParse` | components/dsp_json/cjson/cJSON.c:1142-1299 | printing a tree of nodes and parsing the text yields a well-formed tree of fresh nodes with the same value, exactly when the text is short enough to be printed |
| `JsonCycle.DuplicateAndCompare` | components/dsp_json/cjson/cJSON.c:2769-3180 | a duplicate exists exactly when no node lies too deep; it compares equal to its source exactly when in every object all members are named and each compares equal to the first of its name, which on integers in range means that members of one name agree |
| `JsonParse.ParseWithLengthOpts` | components/dsp_json/cjson/cJSON.c:1142-1219 | succeeds exactly when the text has a value under the grammar the parser follows, with the byte order mark, trailing text and terminator rules; the result is a well-formed linked tree of fresh nodes that holds that value, and the end position is the one behind it |
| `JsonParse.ParseCString` | components/dsp_json/cjson/cJSON.c:1126-1139 | parsing a C string, trailing text allowed |
| `JsonParse.ParseBuffer.ParseValue` | components/dsp_json/cjson/cJSON.c:1363-1415 | the cursor-moving reader agrees with the pure reading function on success, value and end position for every text, restores the depth, and leaves the value in well-formed nodes below the given one |
| `JsonParse.ParseBuffer.ParseArray` | components/dsp_json/cjson/cJSON.c:1492-1587 | the element loop, with nesting limit and list building, reads exactly the array at the cursor; the `next` chain, the `prev` links and the head's link to the last node are right when it ends |
| `JsonParse.ParseBuffer.ParseElement` | components/dsp_json/cjson/cJSON.c:1527-1558 | one round of the element loop: a new node is attached first and filled second, and the list under construction stays linked |
| `JsonParse.ParseBuffer.ParseObject` | components/dsp_json/cjson/cJSON.c:1652-1767 | the member loop reads exactly the object at the cursor into a well-formed child list, names included |
| `JsonParse.ParseBuffer.ParseMember` | components/dsp_json/cjson/cJSON.c:1685-1739 | one round of the member loop: node, name, colon and value |
| `JsonParse.ParseBuffer.ParseKey` | components/dsp_json/cjson/cJSON.c:1713-1733 | a member without key or colon is no member; otherwise the node takes the key for its name |
| `JsonParse.ParseBuffer.SkipWhitespace` | components/dsp_json/cjson/cJSON.c:1085-1108 | the cursor ends at the first character above 32, or on the last character of the text |
| `JsonNodes.TreeOfInjective` | components/dsp_json/cjson/cJSON.c:1363-1767 | a tree of nodes holds at most one value under one name, so nothing is lost in the representation |
| `JsonPrint.Print` | components/dsp_json/cjson/cJSON.c:1234-1299 | the result is exactly the pure rendering, for every tree whose rendering and two more characters fit an `int`, and nothing otherwise |
| `JsonPrint.PrintPreallocated` | components/dsp_json/cjson/cJSON.c:1343-1360 | succeeds exactly when the rendering and two more characters fit the caller's buffer, which then holds the rendering and a terminator |
| `JsonPrint.PrintBuffer.Ensure` | components/dsp_json/cjson/cJSON.c:485-568 | grants the space or fails exactly when the limit is reached; growth preserves the text already written |
| `JsonPrint.PrintBuffer.UpdateOffset` | components/dsp_json/cjson/cJSON.c:571-581 | the deferred update moves the cursor to the end of the text so far, wherever inside it the printing function left the cursor |
| `JsonPrint.PrintBuffer.PrintString` | components/dsp_json/cjson/cJSON.c:949-1068 | the counting pass gives exactly the size of what the writing pass emits; the quoted string is written, terminated, and nothing before it changes; transient terminators behind escapes stay inside the granted space |
| `JsonPrint.PrintBuffer.WriteCharacter` | components/dsp_json/cjson/cJSON.c:1022-1063 | one character is written as its escape needs; the escape of a control character is stored with a terminator behind it, for which there is room |
| `JsonPrint.PrintBuffer.PrintNumber` | components/dsp_json/cjson/cJSON.c:591-658 | integers in range are written in decimal |
| `JsonPrint.PrintBuffer.PrintValue` | components/dsp_json/cjson/cJSON.c:1418-1489 | for a node that holds a value, the buffer ends up holding the text so far followed by the rendering of the value, with the exact condition for success |
| `JsonPrint.PrintBuffer.PrintArray` | components/dsp_json/cjson/cJSON.c:1590-1649 | refines the rendering of arrays |
| `JsonPrint.PrintBuffer.PrintElements` | components/dsp_json/cjson/cJSON.c:1613-1637 | the loop along the `next` links renders the elements in order with separators between them |
| `JsonPrint.PrintBuffer.PrintObject` | components/dsp_json/cjson/cJSON.c:1770-1881 | refines the rendering of objects, indentation included |
| `JsonPrint.PrintBuffer.PrintMembers` | components/dsp_json/cjson/cJSON.c:1797-1861 | the loop along the `next` links renders the members in order |
| `JsonValue.RenderNulFree` | components/dsp_json/cjson/cJSON.c:1418-1881 | rendered text has no terminator inside and is never empty |
| `JsonString.QuoteRoundTrip` | components/dsp_json/cjson/cJSON.c:819-1068 | wherever a quoted NUL-free string stands, reading gives it back and stops just behind the closing quote |
| `JsonString.EscapeTable` | components/dsp_json/cjson/cJSON.c:1028-1062 | the text of every escape, character by character: seven two-character escapes, `\u00` and two lower-case digits for the other control characters, and the character itself otherwise |
| `JsonString.ParseString` | components/dsp_json/cjson/cJSON.c:819-946 | both passes together compute what the quoted text means, for every input; every write is inside the buffer the first pass sized |
| `JsonString.MeasureString` | components/dsp_json/cjson/cJSON.c:832-863 | the first pass finds the closing quote and counts the skipped characters as specified |
| `JsonString.UnescapeInto` | components/dsp_json/cjson/cJSON.c:865-920 | for every content, malformed escapes included, the second pass writes at most as many bytes as the first pass kept, terminates, and writes what the content stands for |
| `JsonString.EscapeFits` | components/dsp_json/cjson/cJSON.c:832-920 | an escape produces no more bytes than the first pass kept for its characters, however the two passes split the text |
| `JsonString.ReadsNoFurther` | components/dsp_json/cjson/cJSON.c:819-946 | the result depends on nothing behind the closing quote |
| `JsonString.EscapeKeepsStep` | components/dsp_json/cjson/cJSON.c:832-920 | a hexadecimal escape that both passes begin together leaves them in step exactly when the run of backslashes that ends its four digit positions is even |
| `JsonString.PassesOutOfStep` | components/dsp_json/cjson/cJSON.c:832-920 | an input on which the two passes split the text differently, and what is read from it |
| `JsonString.EscapeNulFree` | components/dsp_json/cjson/cJSON.c:949-1068 | quoting introduces no terminator |
| `Utf16.ParseHex4` | components/dsp_json/cjson/cJSON.c:661-694 | four digits of either case give their positional value, anything else gives 0; which digit has which value is pinned by the next two members |
| `Utf16.SpelledUnitIsRead` | components/dsp_json/cjson/cJSON.c:661-694 | for every 16-bit number, its digits taken from 0123456789ABCDEF or 0123456789abcdef, in any mix of case, are read back as the number |
| `Utf16.ReadUnitIsSpelled` | components/dsp_json/cjson/cJSON.c:661-694 | and whatever four digits are read as a number spell that number |
| `Utf16.Utf16LiteralToUtf8` | components/dsp_json/cjson/cJSON.c:698-816 | consumes and emits what the escape at the position means, and touches nothing else in the buffer |
| `Utf16.WriteUtf8` | components/dsp_json/cjson/cJSON.c:761-807 | writes the bytes of a code point from the last to the first |
| `Utf16.SpelledIsRead` | components/dsp_json/cjson/cJSON.c:698-759 | every scalar value, spelled as a backslash, `u` and literal digits of its UTF-16 code units in any mix of case, is read back as that value |
| `Utf16.ReadIsSpelled` | components/dsp_json/cjson/cJSON.c:698-816 | complete escapes are rejected exactly for lone or mismatched surrogates, malformed digits behind a high surrogate included; what is accepted is a scalar value whose UTF-16 code units are spelled by the consumed digits, and its bytes decode back to it |
| `Utf16.Utf8RoundTrip` | components/dsp_json/cjson/cJSON.c:761-807 | a standard decoder recovers every scalar value from the emitted bytes |
| `Utf16.Utf8IsOnlyForm` | components/dsp_json/cjson/cJSON.c:761-807 | the emitted bytes are the only, hence shortest, form that decoder accepts |
| `Utf16.KnownCharacters` | components/dsp_json/cjson/cJSON.c:761-807 | known characters of one to four bytes: U+0041, U+00C9, U+20AC, U+1F600 |
| `Utf16.MalformedDigitsReadAsNul` | components/dsp_json/cjson/cJSON.c:661-759 | an escape with malformed digits is rejected exactly when fewer than six characters are left for it in front of the closing quote, and is read as U+0000 otherwise |
| `JsonNumber.IntsPrintAsInt` | components/dsp_json/cjson/cJSON.c:591-625 | every integer in `int` range is printed as an integer |
| `JsonNumber.IntValueMeans` | components/dsp_json/cjson/cJSON.c:387-399 | the integer field is the number truncated toward zero, and saturates at the ends of `int` |
| `JsonNumber.ParseNumber` | components/dsp_json/cjson/cJSON.c:307-408 | the collected characters and the value `strtod` assigns to them, where numbers are reals |
| `JsonNumber.DecimalRoundTrip` | components/dsp_json/cjson/cJSON.c:307-408 | a printed integer is read back exactly wherever it stands, unless a number character follows it |
| `JsonList.AddItemToArray` | components/dsp_json/cjson/cJSON.c:2012-2043 | appends in place; the result is the list with the item at its end exactly when the item was not in the list yet, and the list was empty or the item had no successor |
| `JsonList.DetachItemViaPointer` | components/dsp_json/cjson/cJSON.c:2243-2277 | head, middle, last and only items leave the list of the remaining sequence and lose their links; an item in no list is left alone |
| `JsonList.InsertItemInArray` | components/dsp_json/cjson/cJSON.c:2319-2351 | in front of a child, the result is the list with the item at that position exactly when the item was not in the list yet; behind the last position it appends, under the same condition as appending |
| `JsonList.ReplaceItemViaPointer` | components/dsp_json/cjson/cJSON.c:2353-2400 | the result is the list with the replacement in the same position exactly when the replacement is the item itself or not in the list yet, and the old item loses its links; an item with no siblings that is no child spoils the list, with exact exceptions; refused exactly for a missing argument or an empty list |
| `JsonList.InsertThenDetach` | components/dsp_json/cjson/cJSON.c:2243-2351 | detaching what was inserted, at any position or behind the last one, leaves the list, links and all, as it was |
| `JsonList.DetachThenInsert` | components/dsp_json/cjson/cJSON.c:2243-2351 | inserting what was detached where it was, the first, last or only child included, leaves the list as it was |
| `JsonList.GetArrayItem` | components/dsp_json/cjson/cJSON.c:1907-1924 | the node at that position, or none |
| `JsonList.GetObjectItem` | components/dsp_json/cjson/cJSON.c:1936-1966 | the first node of that name, unless a nameless node comes before it |
| `JsonTree.DuplicateRec` | components/dsp_json/cjson/cJSON.c:2774-2858 | with allocation succeeding, fails exactly when a node lies deeper than the limit; otherwise the copy is a well-formed tree of fresh nodes of the same value, and no existing node changes |
| `JsonTree.CopyChildren` | components/dsp_json/cjson/cJSON.c:2817-2847 | the copying loop builds a complete child list, the head's link to the last node included |
| `JsonTree.Attach` | components/dsp_json/cjson/cJSON.c:2829-2835 | linking one more node keeps a list under construction linked and leaves every finished subtree as it was |
| `JsonTree.CloseList` | components/dsp_json/cjson/cJSON.c:2844-2847 | the missing link from the head to the last node makes the list well formed |
| `JsonCompare.Compare` | components/dsp_json/cjson/cJSON.c:3057-3180 | terminates on any two well-formed trees, overlapping or not, and decides the recursive comparison in which a node equals itself at once |
| `JsonCompare.CompareElements` | components/dsp_json/cjson/cJSON.c:3115-3137 | both lists are walked in step; true exactly for equal lengths and pairwise alike elements |
| `JsonCompare.CompareMembers` | components/dsp_json/cjson/cJSON.c:3139-3157 | true exactly when every member has a partner of the same name that is alike |
| `JsonCompare.AlikeIfApart` | components/dsp_json/cjson/cJSON.c:3057-3180 | on trees that share no node, what the comparison decides is the comparison of their values |
| `JsonCompare.AlikeIfCoherent` | components/dsp_json/cjson/cJSON.c:3081-3085 | and so it is on overlapping trees of integers whose repeated keys agree: the early exit for identical nodes makes no difference |
| `JsonCompare.ShapeIsUnique` | components/dsp_json/cjson/cJSON.c:3057-3180 | the links below a node determine its tree |
| `JsonCompare.SameIffCanonical` | components/dsp_json/cjson/cJSON.c:3057-3180 | against a tree of integers whose repeated keys agree, the comparison is true exactly for trees whose repeated keys agree and that are equal to it up to the order of members |
| `JsonCompare.CoversIffIncludes` | components/dsp_json/cjson/cJSON.c:3139-3172 | the one-sided member loop decides inclusion of members, and rejects objects whose repeated keys disagree |
| `JsonCompare.CloseIntsAreEqual` | components/dsp_json/cjson/cJSON.c:584-588 | for integers in range the relative comparison is equality |
| `JsonCompare.CloseMeans` | components/dsp_json/cjson/cJSON.c:584-588 | for all numbers: alike exactly when 2^52 times the difference stays within the magnitude of one of the two |
| `JsonCompare.SameAsItself` | components/dsp_json/cjson/cJSON.c:3057-3180 | a tree compares equal to a tree of the same value exactly when in every object all members are named and each compares equal to the first of its name; numbers, integer or not, never matter |
| `JsonCompare.SameAsItselfIffCoherent` | components/dsp_json/cjson/cJSON.c:3139-3172 | on integers in range this holds exactly when members of one name are equal up to the order of their own members |
| `JsonCompare.RegularSame` | components/dsp_json/cjson/cJSON.c:3057-3180 | on trees with distinct keys and integers in range, the comparison is true exactly for equality up to the order of members, hence for a duplicate |
| `JsonCompare.RepeatedNamesBreakComparison` | components/dsp_json/cjson/cJSON.c:3139-3157 | an input: with a repeated key whose values disagree a tree does not even equal its own duplicate |
| `JsonEdit.GetMember` | components/dsp_json/cjson/cJSON.c:1936-1966 | on a whole tree, the node of the first member of that name, holding its value; arrays and leaves have none |
| `JsonEdit.LookUpMeans` | components/dsp_json/cjson/cJSON.c:1936-1966 | a look-up yields a value exactly when the first member of that name in an object holds it |
| `JsonEdit.AddItemToObject` | components/dsp_json/cjson/cJSON.c:2067-2107 | the object then holds its members followed by the new one under its new name, whatever name it had; the subtree is moved, not copied; refused exactly for a missing argument or the object itself |
| `JsonEdit.DeleteMember` | components/dsp_json/cjson/cJSON.c:2301-2316 | the object then holds its members without the first one of that name |
| `JsonEdit.AppendKid` | components/dsp_json/cjson/cJSON.c:2012-2043 | appending a finished tree keeps the whole tree well formed |
| `JsonEdit.DetachKid` | components/dsp_json/cjson/cJSON.c:2243-2277 | detaching a child keeps the remaining tree well formed and its values in order |
| `DspJson.AddString` | components/dsp_json/dsp_json.c:88-108 | the object holds its members without the first of that name, followed by the string; refused exactly for a missing argument |
| `DspJson.PutReplaces` | components/dsp_json/dsp_json.c:88-108 | where keys are unique they stay unique, the key yields the new string and every other key what it yielded before |
| `DspJson.PutShadowed` | components/dsp_json/dsp_json.c:88-108 | where a key is repeated, exactly a second occurrence keeps hiding the new string |
| `DspJson.GetString` | components/dsp_json/dsp_json.c:30-54 | on any tree, named or not, copies out exactly the strings that stand under the key and fit with their terminator; otherwise leaves the empty string |
| `DspJson.PrintText` | components/dsp_json/dsp_json.c:114-139 | succeeds exactly when the text is shorter than the capacity (and printable at all), and then delivers it terminated |
| `DspJson.ParseText` | components/dsp_json/dsp_json.c:13-19 | null for null or unparseable text, a tree of fresh nodes otherwise |
| `DspBuild.BuildCatalog` | components/dsp_build/dsp_build.c:41-87 | OK exactly when the text of the catalog fits; then the buffer is a C string that parses to exactly the intended tree, and in it the type, the title and the one data set with its id stand under their names |
| `DspBuild.BuildAgreementMsg` | components/dsp_build/dsp_build.c:93-127 | the same for agreements: type, process id and, in the nested agreement, the agreement id |
| `DspBuild.BuildNegotiationEvent` | components/dsp_build/dsp_build.c:129-150 | the same for negotiation events: type, process id and event type |
| `DspBuild.BuildTransferStart` | components/dsp_build/dsp_build.c:156-189 | the same for transfer starts: type, process id and, in the nested data address, the endpoint address |
| `DspBuild.BuildTransferCompletion` | components/dsp_build/dsp_build.c:191-210 | the same for transfer completions: type and process id |
| `DspBuild.BuildError` | components/dsp_build/dsp_build.c:216-237 | the same for errors: type, code and reason |
| `DspBuild.StampCommon` | components/dsp_build/dsp_build.c:19-24 | a fresh object gets exactly context and type, in that order |
| `DspBuild.Finalise` | components/dsp_build/dsp_build.c:30-35 | the built object is delivered exactly when its text fits |
| `DspBuild.CatalogLooksUp` | components/dsp_build/dsp_build.c:41-87 | by look-up in a catalog message: context, type, title, and an array of one data set with its type and id |
| `DspBuild.AgreementLooksUp` | components/dsp_build/dsp_build.c:93-127 | by look-up in an agreement message: context, type, process id, and an object with type and agreement id |
| `DspBuild.EventLooksUp` | components/dsp_build/dsp_build.c:129-150 | by look-up in an event: context, type, process id and event type, each its own argument |
| `DspBuild.TransferStartLooksUp` | components/dsp_build/dsp_build.c:156-189 | by look-up in a start message: process id at the top, endpoint address in the data address |
| `DspBuild.CompletionLooksUp` | components/dsp_build/dsp_build.c:191-210 | by look-up in a completion message: context, type and process id |
| `DspBuild.ErrorLooksUp` | components/dsp_build/dsp_build.c:216-237 | by look-up in an error message: code and reason, each its own argument |
| `DspText.CatalogText` | components/dsp_build/dsp_build.c:41-87 | the exact text of a catalog on the wire, for all values |
| `DspText.AgreementText` | components/dsp_build/dsp_build.c:93-127 | the exact text of an agreement message |
| `DspText.EventText` | components/dsp_build/dsp_build.c:129-150 | the exact text of a negotiation event |
| `DspText.TransferStartText` | components/dsp_build/dsp_build.c:156-189 | the exact text of a start message |
| `DspText.CompletionText` | components/dsp_build/dsp_build.c:191-210 | the exact text of a completion message |
| `DspText.ErrorText` | components/dsp_build/dsp_build.c:216-237 | the exact text of an error message |
| `DspMsg.CheckCommon` | components/dsp_msg/dsp_msg.c:22-67 | accepts exactly parseable text with a non-empty string context and the expected type; otherwise names the first thing that is wrong |
| `DspMsg.CheckStringField` | components/dsp_msg/dsp_msg.c:70-76 | whether a non-empty string stands under the key |
| `DspMsg.CheckObjectField` | components/dsp_msg/dsp_msg.c:79-83 | whether an object stands under the key |
| `DspMsg.ValidateCatalogRequest` | components/dsp_msg/dsp_msg.c:89-102 | accepts exactly what passes the common checks |
| `DspMsg.ValidateOffer` | components/dsp_msg/dsp_msg.c:104-122 | accepts exactly a parseable text with, by look-up, a non-empty string context, the offer type, a non-empty string process id and an object as offer; MissingField exactly when only the last two fail |
| `DspMsg.ValidateAgreement` | components/dsp_msg/dsp_msg.c:124-142 | the same with the agreement type and an object as agreement |
| `DspMsg.ValidateTransferRequest` | components/dsp_msg/dsp_msg.c:144-162 | the same with the transfer request type and non-empty strings as process id and as data set |
| `DspMsg.CommonMeans` | components/dsp_msg/dsp_msg.c:22-67 | by look-up: the common checks pass exactly for a non-empty string under `@context` and exactly the expected string under `@type` |
| `DspMsg.RejectionMeans` | components/dsp_msg/dsp_msg.c:22-67 | by look-up: which of null input, parse error, missing context and wrong type is reported, in that order |
| `DspMsg.CatalogRequestMeans` | components/dsp_msg/dsp_msg.c:89-102 | by look-up: what a catalog request is |
| `DspMsg.OfferMeans` | components/dsp_msg/dsp_msg.c:104-122 | by look-up: a non-empty string under `dspace:processId` and an object under `dspace:offer` |
| `DspMsg.AgreementMeans` | components/dsp_msg/dsp_msg.c:124-142 | by look-up: a non-empty string under `dspace:processId` and an object under `dspace:agreement` |
| `DspMsg.TransferRequestMeans` | components/dsp_msg/dsp_msg.c:144-162 | by look-up: non-empty strings under `dspace:processId` and `dspace:dataset` |
| `DspMsg.MessageIsStamped` | components/dsp_build/dsp_build.c:19-24 | every built message passes the common checks for its own type, whatever else it holds |
| `DspMsg.BuiltAgreementIsValid` | components/dsp_msg/dsp_msg.c:124-142 | the text of a built agreement passes the agreement checks exactly when the process id is not empty |
| `DspMsg.BuildAndValidateAgreement` | components/dsp_build/dsp_build.c:93-127 | building and then validating an agreement succeeds exactly when the text fits and the process id is not empty |
| `Crc32.Crc32Update` | components/dsp_rtc_state/dsp_rtc_state.c:41-55 | the nested loops feed the bytes into the register one after the other |
| `Crc32.FeedIsRun` | components/dsp_rtc_state/dsp_rtc_state.c:41-55 | the byte-wise loop equals a one-bit register run over the message, least significant bit first |
| `Crc32.FeedConcat` | components/dsp_rtc_state/dsp_rtc_state.c:57-63 | feeding two blocks one after the other equals feeding their concatenation |
| `Crc32.IsLinear` | components/dsp_rtc_state/dsp_rtc_state.c:41-55 | the bit step is linear, and a zero bit maps zero and only zero to zero |
| `Crc32.SeesShortPatterns` | components/dsp_rtc_state/dsp_rtc_state.c:41-55 | no non-zero pattern of at most 32 bits leaves the register at zero |
| `Crc32.BurstDetected` | components/dsp_rtc_state/dsp_rtc_state.c:41-63 | two different blocks of equal length that differ only inside 32 consecutive bits leave different registers |
| `Crc32.CheckValue` | components/dsp_rtc_state/dsp_rtc_state.c:33-55 | the register is that of zlib and Ethernet: the digits 1 to 9 give the published check value |
| `BitRegister.BurstSeen` | components/dsp_rtc_state/dsp_rtc_state.c:41-55 | any linear register that sees all short patterns tells apart messages that differ in a short window |
| `BitRegister.OddErrorSeen` | components/dsp_dht20/dsp_dht20.c:71-82 | any register that tracks parity sees every odd number of flipped bits |
| `BitRegister.FeedAllIsRun` | components/dsp_rtc_state/dsp_rtc_state.c:41-55 | any register that takes in bytes by taking in their bits equals the one-bit register run over the bit stream |
| `BitRegister.BacktrackingSeesPatterns` | components/dsp_rtc_state/dsp_rtc_state.c:41-55 | a register that can be walked back one bit of room at a time sees every pattern of at most its width |
| `Dht20.Crc8` | components/dsp_dht20/dsp_dht20.c:71-82 | the nested loops feed the given number of bytes into the register |
| `Dht20.CheckValue` | components/dsp_dht20/dsp_dht20.c:66-82 | polynomial, start value and bit order are those stated: the digits 1 to 9 give the published check value |
| `Dht20.FeedIsRun` | components/dsp_dht20/dsp_dht20.c:71-82 | the byte-wise loop equals a one-bit register run, most significant bit first |
| `Dht20.ReadFrame` | components/dsp_dht20/dsp_dht20.c:279-302 | a frame is rejected exactly for a wrong checksum byte; otherwise the two raw fields are those of the frame |
| `Dht20.ReadingMeans` | components/dsp_dht20/dsp_dht20.c:287-302 | the two readings of a good frame in positional arithmetic: 20 bits each, most significant octet first, the middle octet shared |
| `Dht20.ResidueIsZero` | components/dsp_dht20/dsp_dht20.c:279-285 | the checksum of all seven bytes is zero exactly when the last one matches |
| `Dht20.BurstRejected` | components/dsp_dht20/dsp_dht20.c:279-285 | every error burst of at most 8 bits in a good frame is rejected |
| `Dht20.OddFlipsRejected` | components/dsp_dht20/dsp_dht20.c:279-285 | every odd number of flipped bits in a good frame is rejected |
| `Dht20.DecodeEncode` | components/dsp_dht20/dsp_dht20.c:287-302 | unpacking inverts packing for all 20-bit fields |
| `Dht20.EncodeDecode` | components/dsp_dht20/dsp_dht20.c:287-302 | packing the unpacked fields of a good frame gives the frame back |
| `Base64Url.Decode` | components/dsp_jwt/dsp_jwt.c:69-113 | succeeds exactly for alphabet characters, a length that leaves no single character, and a result that fits; then the first floor(3n/4) cells hold the decoded octets and the others are untouched |
| `Base64Url.DecodedLength` | components/dsp_jwt/dsp_jwt.c:69-113 | n characters decode to floor(3n/4) octets |
| `Base64Url.DecodeEncode` | components/dsp_jwt/dsp_jwt.c:69-113 | decoding inverts the unpadded encoder on every byte string |
| `Base64Url.DecodeEncoded` | components/dsp_jwt/dsp_jwt.c:69-113 | the code decodes an encoded byte string into exactly as many cells as it has octets; fewer are refused |
| `Base64Url.EncodedLength` | components/dsp_jwt/dsp_jwt.c:69-113 | n octets take 4n/3 characters, rounded up, without padding |
| `Base64Url.EncodeDecode` | components/dsp_jwt/dsp_jwt.c:69-113 | encoding again returns the input exactly when its unused trailing bits are zero |
| `Base64Url.ValOfChar` | components/dsp_jwt/dsp_jwt.c:23-31 | the table is the inverse of the alphabet of section 5 of RFC 4648 |
| `Base64Url.CharOfVal` | components/dsp_jwt/dsp_jwt.c:23-31 | and accepts no character outside that alphabet |
| `Base64Url.Alphabet` | components/dsp_jwt/dsp_jwt.c:23-31 | the alphabet runs from A to Z, a to z, 0 to 9, then minus and underscore |
| `Base64Url.SameBits` | components/dsp_jwt/dsp_jwt.c:90-97 | four characters hold the 24 bits of three octets in order |
| `Base64Url.TestVectors` | components/dsp_jwt/dsp_jwt.c:69-113 | test vectors of section 10 of RFC 4648 |
| `Der.RsToDer` | components/dsp_jwt/dsp_jwt.c:209-236 | writes the DER form with its exact length; the length check never fires |
| `Der.SignatureRead` | components/dsp_jwt/dsp_jwt.c:209-236 | for every R and S, an ASN.1 reader recovers exactly the two non-negative integers, all length octets match, the total is 70 to 72 octets, and each INTEGER is minimal exactly when its value is at least 2^247 |
| `Der.SignatureStarts` | components/dsp_jwt/dsp_jwt.c:209-236 | tag 0x30, the number of octets behind, tag 0x02; the last 32 octets are S |
| `RingBuffer.Ring.Push` | components/dsp_shared/dsp_shared.c:131-160 | refused exactly when the buffer is full; otherwise the queue grows by the sample at its end |
| `RingBuffer.Ring.Pop` | components/dsp_shared/dsp_shared.c:162-181 | refused exactly when the buffer is empty; otherwise the oldest sample is taken |
| `RingBuffer.Ring.Count` | components/dsp_shared/dsp_shared.c:183-192 | the number of samples held |
| `RingBuffer.Ring.Drain` | components/dsp_shared/dsp_shared.c:194-224 | takes the oldest samples, as many as are there and fit, and leaves the rest in order; argument checks included |
| `RingBuffer.HeldPushed` | components/dsp_shared/dsp_shared.c:144-146 | around the end of the array too, storing at the head appends to the queue and keeps head = (tail + count) mod capacity |
| `RingBuffer.HeldPopped` | components/dsp_shared/dsp_shared.c:175-177 | around the end of the array too, advancing the tail removes the oldest sample and keeps head = (tail + count) mod capacity |
| `RingBuffer.DrainIsPops` | components/dsp_shared/dsp_shared.c:194-224 | one drain removes what that many pops remove |
| `RingBuffer.FifoOrder` | components/dsp_shared/dsp_shared.c:131-224 | in every run of producers and consumer, what was accepted equals what was removed followed by the contents |
| `RingBuffer.NoLostWakeUp` | components/dsp_shared/dsp_shared.c:150-157 | in every run with no push between unlock and send, a sample accepted since the last receive means a pending token, and so does any sample left once the consumer has seen the buffer empty |
| `RingBuffer.InvariantHolds` | components/dsp_shared/dsp_shared.c:131-224 | the invariant behind both, for every reachable state |
| `RingBuffer.Shared.PushLocked` | components/dsp_shared/dsp_shared.c:137-148 | the critical section of the code takes the push step of the state machine |
| `RingBuffer.Shared.SendToken` | components/dsp_shared/dsp_shared.c:150-157 | the non-blocking send takes the send step; a full queue of depth one changes nothing |
| `RingBuffer.Shared.PopSample` | components/dsp_shared/dsp_shared.c:162-181 | the code takes the pop step |
| `RingBuffer.Shared.DrainSamples` | components/dsp_shared/dsp_shared.c:194-224 | the code takes the drain step and hands out the removed samples |
| `Negotiation.FewChanges` | components/dsp_neg/dsp_neg.c:39-77 | from REQUESTED a negotiation changes state at most four times over every event sequence; terminal states absorb |
| `Negotiation.FourChangesOccur` | components/dsp_neg/dsp_neg.c:39-77 | and four changes do occur |
| `Negotiation.StateIsOutcome` | components/dsp_neg/dsp_neg.c:39-77 | the state of a created negotiation after any events: TERMINATED if a termination came before it was finalized, otherwise as far as agreement, verification and finalisation occurred in order, otherwise OFFERED if it was offered |
| `Negotiation.FinalizedIff` | components/dsp_neg/dsp_neg.c:39-77 | a created negotiation ends FINALIZED exactly when AGREE, VERIFY and FINALIZE occurred in that order with no TERMINATE before the last of them |
| `Negotiation.TerminatedIff` | components/dsp_neg/dsp_neg.c:39-77 | it ends TERMINATED exactly when some TERMINATE occurred with no AGREE, VERIFY and FINALIZE in order in front of it |
| `Negotiation.SlotRuns` | components/dsp_neg/dsp_neg.c:118-125 | events applied to a slot run its state machine and touch no other slot |
| `Negotiation.FindMeans` | components/dsp_neg/dsp_neg.c:151-163 | look-up finds the lowest active slot that holds exactly the id |
| `Negotiation.Table.Init` | components/dsp_neg/dsp_neg.c:83-90 | clears the table only the first time |
| `Negotiation.Table.Deinit` | components/dsp_neg/dsp_neg.c:92-96 | clears the table and the flag |
| `Negotiation.Table.Create` | components/dsp_neg/dsp_neg.c:98-116 | takes the first free slot, stores both ids truncated and padded, and leaves all others; -1 exactly for a missing argument or a full table |
| `Negotiation.Table.Apply` | components/dsp_neg/dsp_neg.c:118-125 | advances the slot and only it, by the state machine that `StateIsOutcome` describes; a bad index or free slot reads INITIAL |
| `Negotiation.Table.FindByCpid` | components/dsp_neg/dsp_neg.c:151-163 | the loop computes the look-up |
| `Negotiation.Table.CountActive` | components/dsp_neg/dsp_neg.c:165-174 | the loop counts the active slots |
| `Negotiation.Table.LoadSlot` | components/dsp_neg/dsp_neg.c:184-200 | fills exactly that slot; refuses bad arguments first, an uninitialised module second |
| `Slots.StoreIsStored` | components/dsp_neg/dsp_neg.c:108-111 | a bounded copy and a final terminator leave nothing of the old buffer contents behind |
| `Slots.StoredReads` | components/dsp_neg/dsp_neg.c:108-111 | a stored id reads back as its first 63 characters |
| `Slots.SamePid` | components/dsp_neg/dsp_neg.c:157-158 | comparing a stored buffer with an id by strncmp compares the kept characters with the whole id |
| `Slots.CountIsSize` | components/dsp_neg/dsp_neg.c:165-174 | counting a table gives the size of the set of matching positions |
| `Transfer.NotifiedExactlyOnce` | components/dsp_xfer/dsp_xfer.c:119-134 | in every run of creations, events, restores, clearings and registrations, the callback is called at most once for a transfer since its slot was filled, and only if it was filled as INITIAL and has left that state; exactly once for each of those if the callback was registered throughout |
| `Transfer.EndsIff` | components/dsp_xfer/dsp_xfer.c:42-63 | a created transfer ends COMPLETED, or FAILED, exactly when a start occurred and the first end event behind it was a completion, or a failure |
| `Transfer.InitialIff` | components/dsp_xfer/dsp_xfer.c:42-63 | it stays INITIAL exactly as long as no start occurred, and never takes a value outside the four states |
| `Transfer.TerminalAbsorbs` | components/dsp_xfer/dsp_xfer.c:42-63 | COMPLETED and FAILED, and any value that is no state, absorb every sequence of events |
| `Transfer.FindMeans` | components/dsp_xfer/dsp_xfer.c:152-164 | look-up finds the lowest active slot that holds exactly the id |
| `Transfer.Table.Create` | components/dsp_xfer/dsp_xfer.c:102-117 | takes the first free slot and leaves all others; -1 exactly for a missing argument or a full table; a step of the run that the notification result speaks of |
| `Transfer.Table.Apply` | components/dsp_xfer/dsp_xfer.c:119-134 | advances the slot and only it; the callback runs exactly on a transition into TRANSFERRING while registered; a step of that run |
| `Transfer.Table.FindByPid` | components/dsp_xfer/dsp_xfer.c:152-164 | the loop computes the look-up |
| `Transfer.Table.LoadSlot` | components/dsp_xfer/dsp_xfer.c:185-198 | fills exactly that slot, without the callback; refuses bad arguments first, an uninitialised module second; a step of that run |
| `Transfer.Table.Init` | components/dsp_xfer/dsp_xfer.c:69-76 | clears the table only the first time; the callback and its calls are not touched |
| `Transfer.Table.Deinit` | components/dsp_xfer/dsp_xfer.c:78-82 | clears the table and the flag |
| `Transfer.Table.SetNotify` | components/dsp_xfer/dsp_xfer.c:93-96 | changes the registration only |
| `RtcState.NegRoundTrip` | components/dsp_rtc_state/dsp_rtc_state.c:69-149 | restoring a saved table into a cleared one reproduces it exactly if and only if the module was initialised first or no slot was active |
| `RtcState.XferRoundTrip` | components/dsp_rtc_state/dsp_rtc_state.c:69-149 | the same for transfers |
| `RtcState.SleepAndWake` | components/dsp_rtc_state/dsp_rtc_state.c:69-149 | save, loss of memory, initialisation and restore bring both tables back exactly as they were |
| `RtcState.BurstIsFound` | components/dsp_rtc_state/dsp_rtc_state.c:117-125 | after any change confined to 32 consecutive bits of the data section of an intact image, restoring reports a CRC error |
| `RtcState.DataBytesFaithful` | components/dsp_rtc_state/dsp_rtc_state.c:57-63 | records of 136 and 72 bytes; different images of the same size have different data sections |
| `RtcState.Store.Save` | components/dsp_rtc_state/dsp_rtc_state.c:69-115 | the image holds exactly the active slots and passes its own check |
| `RtcState.SavedFields` | components/dsp_rtc_state/dsp_rtc_state.c:78-97 | an active slot is saved with flag, state, consumer id and provider id each in its own field; a free slot as zeros |
| `RtcState.RecordLayout` | components/dsp_rtc_state/include/dsp_rtc_state.h:54-78 | flag at 0, state at 4, ids at 8 and 72 of a record of 136 or 72 octets |
| `RtcState.LittleEndian` | components/dsp_rtc_state/dsp_rtc_state.c:57-63 | a state lies in memory with its least significant octet first |
| `RtcState.Store.Restore` | components/dsp_rtc_state/dsp_rtc_state.c:117-149 | the two checks decide in order; a restore that fails changes neither table, and one that succeeds loads exactly the active records |
| `RtcState.Store.IsValid` | components/dsp_rtc_state/dsp_rtc_state.c:157-163 | true exactly when a restore would succeed |
| `RtcState.Store.Clear` | components/dsp_rtc_state/dsp_rtc_state.c:151-155 | a cleared image is refused |
| `RtcState.Store.ComputeCrc32` | components/dsp_rtc_state/dsp_rtc_state.c:57-63 | feeding the two arrays in turn gives the checksum of the whole data section |
| `Protocol.InvariantHolds` | components/dsp_xfer/dsp_xfer.c:247-349 | in every run of requests and sleeps, active slots form a prefix of each table and every transfer's id resolves to a negotiation that is AGREED or TERMINATED |
| `Protocol.StepKeepsInvariant` | components/dsp_neg/dsp_neg.c:247-388 | every request keeps that invariant |
| `Protocol.AgreementComesFirst` | components/dsp_xfer/dsp_xfer.c:279-294 | in every run, each agreed negotiation and each transfer was preceded by a successful agreement request for its id |
| `Protocol.EachTransferAnnouncedOnce` | components/dsp_xfer/dsp_xfer.c:119-134 | in every run of requests and sleeps of the provider with the callback registered, it has been called exactly once for each transfer in the table and for no other slot, and waking up calls it for none; unregistered, it has never been called |
| `Protocol.StepKeepsAnnounced` | components/dsp_xfer/dsp_xfer.c:247-349 | every request keeps that balance of calls and transfers |
| `Protocol.FindGrows` | components/dsp_neg/dsp_neg.c:98-116 | because free slots come last, a new negotiation never changes what an id resolves to |
| `Protocol.SleepChangesNothing` | components/dsp_rtc_state/dsp_rtc_state.c:69-149 | sleep and wake-up are no step at all for the tables |
| `Protocol.TransferNeedsAgreed` | components/dsp_xfer/dsp_xfer.c:279-294 | a request brings a transfer into being only for the id of an agreed negotiation |
| `Protocol.AgreedByRequest` | components/dsp_neg/dsp_neg.c:359-388 | a negotiation becomes agreed only by an agreement request for its id |
| `Protocol.Provider.OffersPost` | components/dsp_neg/dsp_neg.c:247-300 | from the received body to the reply: a catalog request, an unparseable body and one without a fitting id change nothing; otherwise the offers step, whose effect on the slots is `Outcomes.OfferAccepted`, answered by the text of the event message |
| `Protocol.Provider.TerminatePost` | components/dsp_neg/dsp_neg.c:310-350 | from the received body to the reply: the terminate step for the id in the body, answered by the text of the event message |
| `Protocol.Provider.AgreePost` | components/dsp_neg/dsp_neg.c:359-388 | from the request path to the reply: the agree step for the id in the path, answered by the text of the event message |
| `Protocol.Provider.StartPost` | components/dsp_xfer/dsp_xfer.c:247-304 | from the received body to the reply: anything but a valid transfer request changes nothing; otherwise the start step, with the callback, answered by the text of the start message if that fits |
| `Protocol.Provider.CompletePost` | components/dsp_xfer/dsp_xfer.c:318-349 | from the request path to the reply: the complete step, answered by the text of the completion message |
| `Protocol.Provider.Serve` | components/dsp_neg/dsp_neg.c:247-388 | every request, sleep included, takes its step of the transition system and is answered accordingly |
| `Outcomes.OfferAccepted` | components/dsp_neg/dsp_neg.c:276-300 | the answer is 201; the first free slot is then active and OFFERED, with the id as consumer id and the provider's name, cut to 63 characters, as provider id; no other slot changed; an id that named nothing now names that slot |
| `Outcomes.OfferRefused` | components/dsp_neg/dsp_neg.c:276-290 | without an id 400, with a full table 500, and nothing changes |
| `Outcomes.AgreeOutcome` | components/dsp_neg/dsp_neg.c:359-388 | for a known id: from REQUESTED, OFFERED or AGREED the slot is then AGREED and the answer 200; otherwise 400 and nothing changes |
| `Outcomes.TerminateOutcome` | components/dsp_neg/dsp_neg.c:333-350 | for a known id the answer is 200, and the slot is then TERMINATED if it was REQUESTED, OFFERED, AGREED or VERIFIED; otherwise nothing changes |
| `Outcomes.UnknownNegotiation` | components/dsp_neg/dsp_neg.c:333-388 | for an id that names no slot 404, for none 400, and nothing changes |
| `Outcomes.StartAccepted` | components/dsp_xfer/dsp_xfer.c:279-304 | for an id whose negotiation is AGREED the first free slot is then TRANSFERRING under that id, no other slot changed, and the callback was called for it if registered |
| `Outcomes.StartRefused` | components/dsp_xfer/dsp_xfer.c:279-294 | without an agreed negotiation 400, with a full table 500, and nothing changes |
| `Outcomes.CompleteOutcome` | components/dsp_xfer/dsp_xfer.c:318-349 | for a known id: a transfer under way is then COMPLETED and the answer 200; otherwise 400 and nothing changes |
| `Outcomes.UnknownTransfer` | components/dsp_xfer/dsp_xfer.c:318-349 | for an id that names no transfer 404, and nothing changes |
| `Outcomes.ExchangeSucceeds` | components/dsp_neg/dsp_neg.c:247-388 | from every reachable state with a free slot in both tables, offer, agreement, start and completion of a new id are answered 201, 200, 200, 200 and leave an agreed negotiation and a completed transfer of that id |
| `Outcomes.TerminatedIsFinal` | components/dsp_neg/dsp_neg.c:310-388 | an offer that was terminated is TERMINATED, and an agreement to it is refused |
| `Outcomes.PathCarriesId` | components/dsp_neg/dsp_neg.c:219-237 | an agreement or completion path carries the characters between its prefix and the next slash, cut to 63 |
| `Outcomes.BodyCarriesId` | components/dsp_neg/dsp_neg.c:257-276 | a body carries an id exactly when it parses and the string of at most 63 characters stands under `dspace:processId`; an offer must not be a catalog request, a start must be a transfer request with a data set |
| `Outcomes.ReplyNamesState` | components/dsp_neg/dsp_neg.c:291-299 | by look-up in the parsed reply: event type, the request's id, and OFFERED, AGREED or TERMINATED as the request was |
| `Outcomes.ReplyNamesAddress` | components/dsp_xfer/dsp_xfer.c:298-304 | by look-up in the parsed reply to a start: the id and the provider's address; nothing is sent if it does not fit 1024 octets |
| `Outcomes.ReplyCompletes` | components/dsp_xfer/dsp_xfer.c:342-349 | by look-up in the parsed reply to a completion: its type and the id |
| `Requests.ReadProcessId` | components/dsp_neg/dsp_neg.c:266-274 | the id read from a body, for every text: empty if the text does not parse, has no such string or a longer one than fits |
| `Requests.BodyTextMeans` | components/dsp_neg/dsp_neg.c:249-255 | a body without terminators is seen whole up to 1023 characters, and cut behind them |
| `Requests.ExtractId` | components/dsp_neg/dsp_neg.c:219-237 | the segment of the path behind the prefix, truncated to what fits |
| `Requests.PathsMean` | components/dsp_neg/dsp_neg.c:219-237 | the prefixes are `/negotiations/` and `/transfers/`; a path without its prefix carries no id |
| `Requests.EventFits` | components/dsp_neg/dsp_neg.c:291-293 | the reply of a negotiation handler fits its buffer for every id, escapes included |
| `Requests.CompletionFits` | components/dsp_xfer/dsp_xfer.c:342-343 | so does the reply of the completion handler |

## Left out

- Floating point: numbers are reals, so rounding and overflow of `strtod` are not modelled, and only integers in `int` range are printed (`%d`); the `%g` branch of `print_number` has no model.
- JsonPrint.Print: trees with other numbers than integers in `int` range are excluded, because their text is made by the floating-point formats of `sprintf`; the same holds for the members named in the next nine lines.
- JsonPrint.PrintPreallocated: as JsonPrint.Print.
- JsonPrint.PrintBuffer.PrintNumber: as JsonPrint.Print.
- JsonPrint.PrintBuffer.PrintValue: as JsonPrint.Print.
- JsonPrint.PrintBuffer.PrintArray: as JsonPrint.Print.
- JsonPrint.PrintBuffer.PrintElements: as JsonPrint.Print.
- JsonPrint.PrintBuffer.PrintObject: as JsonPrint.Print.
- JsonPrint.PrintBuffer.PrintMembers: as JsonPrint.Print.
- DspJson.PrintText: as JsonPrint.Print.
- JsonWriting.PrintedIsJson: as JsonPrint.Print.
- JsonGrammar.NumberReads: the value is the exact real number, without the rounding and overflow of `strtod`.
- JsonNumber.ParseNumber: as JsonGrammar.NumberReads.
- JsonAccepted.AcceptedIsOutline: says of an accepted string or number only which characters it may be made of; its value is what `StringReads`, `ReadIsSpelled`, `MalformedDigitsReadAsNul` and `NumberReads` say.
- Allocation failure and hooks: every allocation succeeds, so the branches that handle a null result, and the builders' allocation error, are absent.
- `cJSON_Raw`, reference nodes, constant keys and case-insensitive look-up: they would only complicate ownership.
- `cJSON_Delete`: freed nodes are simply no longer referred to; use after free cannot be expressed.
- `cJSON_Minify`: it loses track of an escaped backslash before a quote, so it has no general correctness claim.
- `cJSON_PrintBuffered`, and the error position after a failed parse.
- JsonPrint.PrintBuffer.WriteString: `strcpy` and `sprintf` are taken as writing their text and one terminator.
- JsonList.DetachItemViaPointer: an item of some other list, which the code would unlink there.
- JsonList.ReplaceItemViaPointer: an item of some other list, whose neighbours the code would relink.
- DspJson.AddString: the target is an object; storing a string in an array would add an element with a name.
- Bitwise operators on disjoint or masked bits are written as sums, quotients and remainders in `Utf16`; the checksums and base64url keep bit vectors, so there are two byte types, `CText.uchar` and `Bytes.byte`.
- `mem_find`, `dsp_jwt_split`, the algorithm and expiry scans, and signature verification: easy members, or a foreign library.
- Slot getters and counts of the tables beyond the ones listed: they restate a field.
- DHT20 command sequence, busy polling and the scaling to physical units: I/O and floating point.
- HTTP, TLS, URI matching, WiFi, NVS, timers and task creation: a request is the body as one receive call delivered it, or the path; of an error response only the status is modelled.
- Memory ordering below the mutex: each critical section of the ring buffer is one step, and the notification queue is a counter of depth one.
- Requests served between saving the image and power-down: sleep is one step, and the application registers the callback again when it wakes up.
