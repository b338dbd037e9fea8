# A Dafny model of uiso's JSON engine, socket monitor, MQTT dispatch and allocation tracer

The project models four parts of uiso and proves what they compute.

- **The JSON engine** (`utils/cJSON`). Printing into a growing or a lent buffer, parsing, string
  decoding, minifying, JSON Pointer, JSON Patch (generate and apply), JSON Merge Patch (generate and
  apply), both comparisons, and the linked child lists with their merge sort and deep copy.
- **The receive-wait monitor** (`src/network.c`). Tasks and the monitor as interleaved steps with a
  clock in seconds.
- **The MQTT client** (`src/mqtt/MQTTClient.c`). Topic filters, the table of message handlers and
  delivery.
- **The allocation tracer** (`src/lwm2m/memtrace.c`). Its two lists and their counters.

JSON has two layers. `Json.Value` is a tree with ordered members; `Unordered.Denote` reads it with
objects as maps. Functions on these values say what each operation computes (`Text`, `Grammar`,
`Literal`, `Pointer`, `Patch`, `Diff`, `MergePatch`, `MergeDiff`, `Compare`, `Sorting`, `Minify`).
Methods and classes with loops, buffers, arrays and nodes are proved against those functions
(`Printer`, `Parser`, `PatchLoops`, `CompareLoops`). Nodes in memory have a layer of their own: `Nodes`
relinks child lists, `Trees` says when nodes form a tree and what it holds, `Graft` what remains of a tree
when a part of it changes, and `Children`, `Duplicate`, `SortList`, `NodePointer`, `NodeCompare`,
`NodeMerge`, `NodePatch` and `DiffOnNodes` prove the operations on nodes against the functions on values.

What the functions compute is compared with definitions that do not use them. `Syntax` relates JSON texts,
white space included, to values; `Characters` reads escapes and UTF-8, `Numerals` the decimal notation.
`ParseText` proves that every such text is parsed to its value and `ParseShape` that nothing else is parsed.
`RoundTrip` gives the printed forms as such texts, `MinifyText` the texts that minifying strips. `Rfc6902`
and the functions `Merged` of `MergePatch` state what the RFCs define; `PatchRfc` takes patches by the bytes
of their fields. `Folding` and `FoldedPatch` reduce the modes that ignore case to the others on lower-case
keys.

Where a promise turned out not to hold of the code, the code is modelled as it is, a lemma gives the
failing input, and the exact condition is proved where there is one:

- `Overrun.OverrunExact`: some texts that end in a comma without a NUL are read past their end, and exactly
  those that one more member and closing brackets would complete.
- `DiffLimits.SurvivesExact`: the in-place path decoder restores a key exactly when it has no `/` and no `~`
  shifts it; `PatchRfc.AddBelowObject`: when an add writes under the right name nevertheless.
- `PatchRfc.RemoveIsRfc`, `PatchRfc.ReplaceIsRfc`: detaching ignores case, so a remove or replace is right
  exactly when the first member that has the name in any case is the one of that very name;
  `PatchRfc.CollisionRemovesTheOther` is the failing input.
- `NodePatch.TestUntiesList`, `NodePatch.TestThenAdd`: a test sorts the document in place, after which an
  add can be lost or cut the child list off;
  `SortList.SortObject`: a sorted child list stays well formed exactly when its ends stay.
- `MergeDiff.MergeRoundTrip`: the merge-patch round trip holds exactly when `NullSafe` does;
  `MergeDiff.UpperCaseBreaks`: without regard to case it can break where the two orders put names
  differently, and with regard to case only inside members that are generated again without it.
- `Minify.MinifyExact`: minifying is harmless exactly when strings that end in a backslash stand
  only where nothing but closing brackets of arrays follow, with no object around them.
- `Pointer.PointerExact`: a pointer built for an item leads back to it exactly when no earlier sibling on the
  way has the same key, up to case where case is ignored.
- `PatchRfc.TokenIndex`: the index decoder departs from RFC 6901 on two families of tokens;
  `PatchRfc.MoveIsRfc` and `PatchRfc.CopyIsRfc`: a move or copy to the root fails with status 9.
- `Monitor.PromiseIsExact`: a wait can be missed exactly when its timeout is 0 or its deadline wraps;
  `Monitor.SignalLost`: a signal given between arming and draining is thrown away.
- `Topic.StandardExact`: the client departs from section 4.7.1 of MQTT 3.1.1 exactly where `#` would stand
  for the parent level or a wildcard for an empty level.

Modules by theme:

| theme | modules |
|---|---|
| values and texts | `Bytes`, `Json`, `Unordered`, `Decimal`, `Text`, `Characters`, `Numerals`, `Syntax` |
| printing and minifying | `Printer`, `Minify`, `MinifyText` |
| parsing | `Literal`, `Grammar`, `Parser`, `ParserSafety`, `Overrun`, `ParseText`, `ParseShape`, `RoundTrip` |
| comparing and sorting | `Sorting`, `Compare`, `CompareLoops`, `Folding` |
| pointers and patches | `Pointer`, `Patch`, `Rfc6902`, `PatchRfc`, `PatchSteps`, `Diff`, `DiffApply`, `DiffLimits`, `PatchLoops`, `MergePatch`, `MergeDiff`, `FoldedPatch` |
| nodes in memory | `Nodes`, `ListRuns`, `Trees`, `Graft`, `Children`, `Duplicate`, `SortList`, `NodePointer`, `NodeCompare`, `NodeMerge`, `NodePatch`, `DiffOnNodes` |
| the rest of uiso | `Monitor`, `Topic`, `Handlers`, `MemTrace` |

## Model

| member | source | states |
|---|---|---|
| `Printer.PrintPreallocated` | utils/cJSON/cJSON.c:1292-1309 | it returns true exactly when the lent length is at least the text length plus 2, for every tree and both formats, and the buffer then holds the allocating printer's text, NUL-terminated |
| `Printer.Print` | utils/cJSON/cJSON.c:1187-1249 | the allocating printer fails only when text plus 2 exceeds INT_MAX; otherwise the result is the text and its NUL, nothing more |
| `Printer.PrintBuffer.Ensure` | utils/cJSON/cJSON.c:439-522 | room is granted exactly when offset, request and one spare byte fit the limit, and what was written survives a move to a larger buffer |
| `Printer.PrintBuffer.PrintValue` | utils/cJSON/cJSON.c:1367-1438 | printing at any offset and depth succeeds exactly when the text and two bytes fit, appends exactly that text and leaves depth unchanged |
| `Printer.PrintBuffer.PrintString` | utils/cJSON/cJSON.c:902-1027 | the counting pass reserves exactly what the escaping pass writes, for the fast and the escaping path |
| `Printer.PrintBuffer.CountEscapes` | utils/cJSON/cJSON.c:926-955 | the extra bytes counted are exactly those escaping adds, and none means the string prints as it is |
| `Printer.PrintBuffer.EscapeInto` | utils/cJSON/cJSON.c:978-1018 | the loop writes the escaped bytes in order behind the opening quote |
| `Printer.PrintBuffer.PrintNumber` | utils/cJSON/cJSON.c:545-612 | an integer number is appended as the text `Dec` gives it, and refused exactly when it and two bytes do not fit; that the text is the number is `Decimal.DecDenotes` |
| `Printer.PrintBuffer.PrintArray` | utils/cJSON/cJSON.c:1539-1598 | the element loop with its separators yields the array text, or fails exactly when the whole text does not fit |
| `Printer.PrintBuffer.PrintObject` | utils/cJSON/cJSON.c:1714-1825 | the member loop with indentation, keys and separators yields the object text, or fails exactly when the whole text does not fit |
| `Decimal.DecDenotes` | utils/cJSON/cJSON.c:564-568 | the printed integer is its digits without leading zeros, behind a minus sign exactly when it is negative, and their decimal value is its magnitude |
| `RoundTrip.StringPrinted` | utils/cJSON/cJSON.c:902-1021 | a printed string is its characters between quotes, each written as section 7 of RFC 8259 allows: raw if it may be, else as a short escape if there is one, else by its code in lower-case digits |
| `RoundTrip.PrintedIsLaid` | utils/cJSON/cJSON.c:1367-1825 | both printed forms, byte by byte: the formatted one has a space after an array comma, a newline and the depth in tabs before each member and before the closing brace, and a tab after the colon; the other has no white space |
| `RoundTrip.ParsePrinted` | utils/cJSON/cJSON.c:1312-1825 | an instance of `ParseText.ParsesText`: parsing either printed form gives back the same value with member order kept when it is nested at most 1000 deep, and fails when it is nested deeper |
| `ParseText.ParsesText` | utils/cJSON/cJSON.c:1038-1172 | every JSON text of a value, with white space by section 2 of RFC 8259 wherever section 2 allows it, behind an optional byte order mark and in front of anything that does not continue a number, is parsed to that value and its end, or refused exactly when nested deeper than 1000; where the terminator is required, only white space may stand before it |
| `ParseText.ValueParsed` | utils/cJSON/cJSON.c:1312-1711 | the same from any offset and depth |
| `ParseText.StringParsed` | utils/cJSON/cJSON.c:773-899 | every string literal of RFC 8259 with paired surrogates is parsed to the UTF-8 of its characters, cut at a NUL |
| `ParseText.NumberParsed` | utils/cJSON/cJSON.c:305-379 | every numeral, fractions and exponents included, that stands for a 32-bit integer is parsed to it, given a strtod that reads such numerals rightly |
| `ParseText.CutExact` | utils/cJSON/cJSON.c:361-372 | what is stored for a number is its integer part, or the nearest bound where that lies outside 32 bits |
| `ParseShape.ParsedIsText` | utils/cJSON/cJSON.c:1095-1172 | conversely, whatever is parsed is a JSON text of the value returned: white space, tokens, separators and brackets as the grammar of RFC 8259 has them, up to bytes below the space counting as white space, control characters standing in strings, a final escape sharing its second byte with the closing quote, and `strtod` deciding on numerals |
| `ParseShape.ValueShape` | utils/cJSON/cJSON.c:1312-1711 | the same from any offset and depth |
| `ParserSafety.ParseSafe` | utils/cJSON/cJSON.c:1079-1172 | on every NUL-terminated input the parser reads no index past the end and builds nothing nested deeper than 1000 |
| `ParserSafety.ValueSafe` | utils/cJSON/cJSON.c:1312-1364 | the same from any offset and depth of an input that does not end in a comma |
| `ParserSafety.FinalCommaOverruns` | utils/cJSON/cJSON.c:1601-1711 | a six-byte input without NUL that ends in a comma makes the member loop read past the end |
| `Overrun.OverrunExact` | utils/cJSON/cJSON.c:1601-1711 | without that premise: the parser reads past the end of an input if and only if the input stops on a comma and the member `"":null` with some run of closing brackets would complete it to a JSON text |
| `Parser.ParseWithLength` | utils/cJSON/cJSON.c:1095-1172 | the buffer-and-offset parser terminates and answers as the grammar does, with the end position, byte order mark and required terminator handled |
| `Parser.Parse` | utils/cJSON/cJSON.c:1079-1092 | on C strings the answer is the grammar's and never deeper than 1000 |
| `Parser.ParseBuffer.ParseValue` | utils/cJSON/cJSON.c:1312-1364 | one value from the current offset: the grammar's answer, the offset moved to its end, strictly further on, the depth restored |
| `Parser.ParseBuffer.ParseArray` | utils/cJSON/cJSON.c:1441-1536 | the element loop with its step-backs in offset ends and answers as `ArrayAt` does; which texts that accepts is `ParseText.ValueParsed` and `ParseShape.ValueShape` |
| `Parser.ParseBuffer.ParseObject` | utils/cJSON/cJSON.c:1601-1711 | the member loop with its step-backs in offset ends and answers as `ObjectAt` does; which texts that accepts is `ParseText.ValueParsed` and `ParseShape.ValueShape` |
| `Parser.ParseBuffer.ParseString` | utils/cJSON/cJSON.c:773-899 | scan and decode passes give the decoded C string or refuse, and the output never outgrows the estimate of the scan; what is decoded is `ParseText.StringParsed` and `Literal.DecodedPieces` |
| `Parser.ParseBuffer.ReadUtf16` | utils/cJSON/cJSON.c:652-770 | a `\u` escape or a surrogate pair is read and written as UTF-8, or refused; that it is the UTF-8 of section 3 of RFC 3629 is `Literal.Utf8Exact` |
| `Parser.ParseBuffer.ParseNumber` | utils/cJSON/cJSON.c:305-379 | the copied span handed to strtod, its saturation to 32 bits, and the advance by what strtod consumed |
| `Literal.DecodeFits` | utils/cJSON/cJSON.c:786-825 | for every literal, also where the passes split backslashes differently, the bytes decoded never exceed the first pass's estimate |
| `Literal.WellFormedLiteral` | utils/cJSON/cJSON.c:652-899 | a literal made of characters, escapes and surrogate pairs as section 7 of RFC 8259 has them: the scan finds the closing quote, and the output is what the pieces stand for, each read back from its bytes |
| `Literal.DecodedPieces` | utils/cJSON/cJSON.c:819-875 | conversely, whatever is decoded consists of such pieces, up to control characters and to `\u` followed by no hexadecimal number, which gives NUL; only the last piece may share its second byte with the closing quote |
| `Literal.Utf8Exact` | utils/cJSON/cJSON.c:718-765 | a byte sequence is read as the code point by section 3 of RFC 3629, in its shortest form, if and only if it is the one written |
| `Literal.Hex4Exact` | utils/cJSON/cJSON.c:615-649 | four hexadecimal digits of either case are read as their positional value, anything else as 0 |
| `Literal.PairedExact` | utils/cJSON/cJSON.c:671-707 | two codes are the surrogates of a code point if and only if they lie in the two ranges and the point computed is that one |
| `Literal.ShortExact` | utils/cJSON/cJSON.c:836-857 | the short escapes are the eight of section 7 of RFC 8259, each with its character |
| `Minify.MinifyExact` | utils/cJSON/cJSON.c:2816-2884 | minifying the formatted text gives the unformatted text if and only if strings that end in a backslash occur only where nothing but closing brackets of arrays follow, with no object around them |
| `Minify.MinifyClean` | utils/cJSON/cJSON.c:2816-2884 | it does so whenever no string and no key ends in a backslash |
| `MinifyText.MinifiesText` | utils/cJSON/cJSON.c:2789-2884 | any JSON text with white space, line comments and block comments between its tokens is minified to the same tokens with nothing between them, if none of its strings is written with two backslashes at its end |
| `Minify.MinifyInPlace` | utils/cJSON/cJSON.c:2838-2884 | the buffer ends up holding the minified text with its NUL; the write cursor never passes the read cursor |
| `Minify.MinifyString` | utils/cJSON/cJSON.c:2816-2836 | a string is copied through its closing quote, or to the end of the text, without overtaking the read cursor |
| `Minify.SkipLine` | utils/cJSON/cJSON.c:2789-2800 | the read cursor lands after the line comment or at the terminator |
| `Minify.SkipBlock` | utils/cJSON/cJSON.c:2802-2814 | the read cursor lands after the block comment or at the terminator |
| `Sorting.SortCorrect` | utils/cJSON/cJSON_Utils.c:484-593 | the merge sort permutes the members and leaves keys in non-decreasing order, in both case modes |
| `Sorting.SortUnique` | utils/cJSON/cJSON_Utils.c:484-602 | with distinct keys the sorted keys strictly increase and the object denotes the same map |
| `Sorting.SortTies` | utils/cJSON/cJSON_Utils.c:536-590 | members with the same key, up to case where case is ignored, come out in reverse order |
| `Bytes.LessExact` | utils/cJSON/cJSON_Utils.c:83-109 | keys are ordered as strings of unsigned bytes: a proper prefix first, otherwise by the first byte that differs |
| `Folding.SortFold` | utils/cJSON/cJSON_Utils.c:484-602 | sorting without regard to case is sorting the same members with lower-case keys |
| `SortList.Sort` | utils/cJSON/cJSON_Utils.c:484-593 | on nodes: terminates, given only interior links; the result is linked both ways inside, is a permutation of the nodes in the sorted order, and its first element's `prev` is the old one if that element stayed first and null otherwise |
| `SortList.SortedCorrect` | utils/cJSON/cJSON_Utils.c:484-593 | the order the relinking follows is a permutation sorted by key |
| `SortList.SortedMembers` | utils/cJSON/cJSON_Utils.c:484-593 | sorting nodes and sorting members agree |
| `SortList.SortObject` | utils/cJSON/cJSON_Utils.c:595-602 | a well-formed child list stays well formed if and only if its first and its last element stay where they are |
| `SortList.SortThenAppend` | utils/cJSON/cJSON_Utils.c:484-602 | what an append after the sort does: it appends if and only if both ends stayed; otherwise the item is dropped or the list is cut off behind the former last element |
| `SortList.FindMiddle` | utils/cJSON/cJSON_Utils.c:508-521 | the two-pointer walk stops at the element after the first half, rounded up |
| `SortList.MergeLists` | utils/cJSON/cJSON_Utils.c:536-590 | two linked lists are relinked into their merge |
| `Compare.CompareJsonExact` | utils/cJSON/cJSON_Utils.c:604-690 | on trees with distinct sibling keys the sort-and-zip comparison is equality of what the trees denote |
| `Compare.LookupCompareExact` | utils/cJSON/cJSON.c:2986-3109 | so is the two-way lookup comparison |
| `Compare.ComparisonsAgree` | utils/cJSON/cJSON_Utils.c:604-690 | hence both comparisons always return the same answer on such trees |
| `Folding.CompareFold` | utils/cJSON/cJSON_Utils.c:604-690 | for all trees, sort-and-zip without regard to case is sort-and-zip on the trees with lower-case keys |
| `Folding.CompareFoldExact` | utils/cJSON/cJSON_Utils.c:604-690 | so where no siblings have keys equal up to case, it is equality of what those denote |
| `Folding.LookupFoldExact` | utils/cJSON/cJSON.c:2986-3109 | and so is the lookup comparison without regard to case |
| `Compare.ComparisonsPartOnRepeatedKeys` | utils/cJSON/cJSON.c:3068-3104 | with a repeated key the lookup comparison says equal where sort-and-zip says different |
| `Compare.CompareSymmetric` | utils/cJSON/cJSON_Utils.c:604-690 | sort-and-zip gives the same answer both ways round, for all trees |
| `Compare.ArrangeKeeps` | utils/cJSON/cJSON_Utils.c:604-690 | what the comparison leaves of a tree with distinct keys denotes the same data and has distinct keys |
| `NodeCompare.CompareNodes` | utils/cJSON/cJSON_Utils.c:604-690 | on nodes: the answer is sort-and-zip on the values, and both trees are left well linked with the same nodes, the objects visited sorted up to the first difference |
| `NodeCompare.ArrangedValue` | utils/cJSON/cJSON_Utils.c:604-690 | the tree of nodes left behind holds the rearranged value |
| `NodeCompare.ArrangedTied` | utils/cJSON/cJSON_Utils.c:604-690 | with distinct keys, every child list is still well formed afterwards if and only if each object that was sorted kept its first and last member |
| `CompareLoops.CompareByLookup` | utils/cJSON/cJSON.c:2986-3109 | the loops with lookups both ways decide the lookup comparison |
| `CompareLoops.GetObjectItem` | utils/cJSON/cJSON.c:1880-1910 | the search returns the first member of that name, or none |
| `Pointer.PointerRoundTrip` | utils/cJSON/cJSON_Utils.c:198-346 | so with distinct sibling keys, `~` and `/` in them included, it always does |
| `Pointer.EncodedMatches` | utils/cJSON/cJSON_Utils.c:120-196 | an encoded key followed by end or `/` matches a name if and only if the name is that key, up to case where case is ignored |
| `Pointer.EncodedReads` | utils/cJSON/cJSON_Utils.c:157-196 | an encoded key has no `/`, and reading it by section 4 of RFC 6901 gives the key |
| `Pointer.PointerExact` | utils/cJSON/cJSON_Utils.c:198-356 | in both case modes, the pointer built for an item resolves to that item if and only if no member on the way has an earlier sibling with the same key |
| `Pointer.DecodeIndexBack` | utils/cJSON/cJSON_Utils.c:274-299 | an array index below 2^32 printed in decimal is decoded to itself |
| `Pointer.ComparePointers` | utils/cJSON/cJSON_Utils.c:120-154 | the cursor loop decides whether a name matches the token |
| `Pointer.EncodeInto` | utils/cJSON/cJSON_Utils.c:173-196 | the loop writes the encoded key and its NUL and touches nothing before it |
| `Pointer.EncodedLength` | utils/cJSON/cJSON_Utils.c:157-170 | the length reserved is the length of the encoding |
| `Pointer.DecodeArrayIndex` | utils/cJSON/cJSON_Utils.c:274-299 | the digit loop with its 32-bit wrap, its leading-zero rule and its test of the token's first byte |
| `Pointer.GetItem` | utils/cJSON/cJSON_Utils.c:301-346 | following the pointer token by token finds the item the recursive resolution names, or none |
| `NodePointer.FindPointer` | utils/cJSON/cJSON_Utils.c:198-259 | on nodes: a pointer is found if and only if the target node is in the tree, and it is the pointer to that node's position |
| `NodePointer.GetNode` | utils/cJSON/cJSON_Utils.c:301-346 | on nodes: the walk returns the node at the position that resolution on values gives, or null |
| `NodePointer.ThereAndBack` | utils/cJSON/cJSON_Utils.c:198-356 | building a pointer to a node and resolving it returns that very node |
| `Children.FindChild` | utils/cJSON/cJSON.c:1880-1910 | the walk over a child list returns the first member of that name, or null |
| `Children.DetachKid` | utils/cJSON/cJSON.c:2187-2221 | a child with its whole subtree is taken off; the rest and the subtree are well-formed trees without a common node |
| `Children.AppendKid` | utils/cJSON/cJSON.c:1956-1987 | a subtree is added as the last child and the whole is a well-formed tree |
| `Children.AppendAny` | utils/cJSON/cJSON.c:1956-1987 | on a child list whose first `prev` is not its last element: nothing changes if it is null, otherwise the list is cut off behind the element it names and ends in the new subtree |
| `Children.InsertKid` | utils/cJSON/cJSON_Utils.c:693-728 | a subtree is put in before the child of that index, or refused past the end, and the whole stays a well-formed tree |
| `Children.AddItemToObject` | utils/cJSON/cJSON.c:2011-2046 | the item takes the name and becomes the last member of a well-formed tree |
| `DiffApply.DiffThenApply` | utils/cJSON/cJSON_Utils.c:807-1309 | applying the generated patches to any document equal to `from`, such as a duplicate of it, gives status 0 at every step and a document equal to `to`, objects read as maps; only a key that ends a generated path must survive the path encoding and, where it is removed or its value replaced, have no sibling that differs from it in case only |
| `DiffOnNodes.DiffThenApply` | utils/cJSON/cJSON_Utils.c:807-1309 | application on nodes of a list that holds those patches: status 0, the patched document has well-formed child lists throughout and denotes `to` |
| `Diff.NothingToPatch` | utils/cJSON/cJSON_Utils.c:1141-1279 | the list of patches is empty if and only if the comparison finds the two trees equal, in both case modes |
| `FoldedPatch.LocateFold` | utils/cJSON/cJSON_Utils.c:301-346 | resolving a pointer without regard to case is resolving it in lower case on the tree with lower-case keys |
| `FoldedPatch.ApplyFold` | utils/cJSON/cJSON_Utils.c:807-1036 | applying a patch without regard to case, up to the case of keys, is applying it with lower-case paths and keys: the same status and the same document |
| `FoldedPatch.ApplyAllFold` | utils/cJSON/cJSON_Utils.c:1038-1094 | the same for a list of patches |
| `FoldedPatch.PatchesFold` | utils/cJSON/cJSON_Utils.c:1141-1294 | the patches generated without regard to case are those generated for the trees with lower-case keys |
| `FoldedPatch.DiffThenApplyFold` | utils/cJSON/cJSON_Utils.c:807-1294 | hence generate and apply without regard to case ends with status 0 and a document equal to `to` up to the case of keys, for siblings that differ in more than case |
| `DiffLimits.SlashDoesNotSurvive` | utils/cJSON/cJSON_Utils.c:359-390 | no key with a `/` survives encoding followed by the in-place decoder |
| `DiffLimits.SurvivesExact` | utils/cJSON/cJSON_Utils.c:359-390 | a key survives if and only if it has no `/` and each of its bytes but `~` stands at the same index in its encoding |
| `DiffLimits.SlashKeyNotRemoved` | utils/cJSON/cJSON_Utils.c:430-481 | so removing such a key by a generated patch fails with status 13 |
| `PatchRfc.TokenIndex` | utils/cJSON/cJSON_Utils.c:274-299 | the index decoder agrees with RFC 6901 on a reference token if and only if the token is not empty and is not one that starts with 1 to 9, has no byte below `/` and is no number below 2^32 |
| `PatchRfc.AddIsRfc` | utils/cJSON/cJSON_Utils.c:838-1022 | a patch whose fields spell `add`, a path and a value does what section 4.1 of RFC 6902 defines on unordered data: status 0 exactly where it is defined, the document then denotes the result and has distinct keys; otherwise it is unchanged and the status is 10 past the end of an array, 11 for a token that is no index and 9 without a parent; the last token must survive the decoding, tokens that meet arrays must be read as RFC 6901 has it |
| `PatchRfc.AddBelowObject` | utils/cJSON/cJSON_Utils.c:838-1018 | below an object, whether or not the last token survives: an add does so if and only if the token survives the decoding, or it and what the decoder makes of it both hold the added value already |
| `PatchRfc.RemoveIsRfc` | utils/cJSON/cJSON_Utils.c:890-903 | a patch that spells `remove` does what section 4.2 defines, in the same sense, if and only if the first member that has the name in any case is the member of that very name; where nothing is there it ends with status 13 and no change |
| `PatchRfc.ReplaceIsRfc` | utils/cJSON/cJSON_Utils.c:850-957 | a patch that spells `replace` does what section 4.3 defines if and only if the same holds or the path is the root; where nothing is there it ends with status 13 and no change |
| `PatchRfc.MoveIsRfc` | utils/cJSON/cJSON_Utils.c:905-1022 | under that condition at its source a patch that spells `move` and `from` does what section 4.4 defines; to the root it is refused with status 9; without a source the status is 5 and nothing changes, without a place to go it is the status of the add, and the source is gone |
| `PatchRfc.CollisionRemovesTheOther` | utils/cJSON/cJSON_Utils.c:430-481 | an instance of that: of any two keys equal up to case a generated removal deletes the wrong one, with status 0 |
| `PatchRfc.CopyIsRfc` | utils/cJSON/cJSON_Utils.c:905-1022 | a patch that spells `copy` and `from` does what section 4.5 defines; to the root it is refused with status 9; without a source the status is 5, without a place to go that of the add, and nothing changes |
| `PatchRfc.TestIsEquality` | utils/cJSON/cJSON_Utils.c:831-836 | for every path, a test succeeds exactly when the path leads to something equal to the value, objects read as maps; it may reorder members, and the document denotes the same data |
| `PatchRfc.TestIsRfc` | utils/cJSON/cJSON_Utils.c:831-836 | a patch that spells `test` answers 0 or 1 as section 4.6 defines and leaves what the document denotes |
| `PatchRfc.Asked` | utils/cJSON/cJSON_Utils.c:730-782 | the six operations are recognised by the bytes of their names in the first field named `op` |
| `PatchRfc.NoPath` | utils/cJSON/cJSON_Utils.c:814-821 | without a first field `path` that is a string the status is 2 and nothing changes, in both case modes |
| `PatchRfc.NoOperationNamed` | utils/cJSON/cJSON_Utils.c:742-830 | with a path and any other `op`, or none, the status is 3 and nothing changes, in both case modes |
| `PatchRfc.FieldMissing` | utils/cJSON/cJSON_Utils.c:905-957 | an add without `value` ends with status 7, a move or copy without `from` with status 4, and nothing changes |
| `PatchRfc.ComposedAsks` | utils/cJSON/cJSON_Utils.c:1096-1134 | a generated patch spells its operation, its path and its value in the fields that application reads |
| `PatchSteps.DetachKey` | utils/cJSON/cJSON_Utils.c:430-481 | a path to a member whose key survives detaches exactly that member |
| `PatchSteps.DetachIndex` | utils/cJSON/cJSON_Utils.c:430-481 | a path to an array element detaches exactly that element |
| `PatchSteps.AddLast` | utils/cJSON/cJSON_Utils.c:962-1010 | adding at `-` appends to the array |
| `PatchSteps.AddKey` | utils/cJSON/cJSON_Utils.c:962-1018 | adding at a member path puts the value under that key |
| `PatchLoops.PatchList.CreatePatches` | utils/cJSON/cJSON_Utils.c:1141-1279 | the recursive loops append exactly the patches the diff defines, after those already there |
| `PatchLoops.PatchList.PatchObject` | utils/cJSON/cJSON_Utils.c:1202-1271 | the walk over both sorted member lists appends removals, additions and nested changes in key order |
| `PatchLoops.PatchList.ComposePatch` | utils/cJSON/cJSON_Utils.c:1096-1134 | one patch object is appended, its path extended by the encoded suffix |
| `PatchLoops.DecodePointerInPlace` | utils/cJSON/cJSON_Utils.c:359-390 | the two-cursor loop on the array leaves the decoder's text, terminated, no longer than before |
| `PatchLoops.SplitPath` | utils/cJSON/cJSON_Utils.c:430-455 | a path is copied, cut at its last slash and its last token decoded in place; without a slash there is no parent |
| `NodePatch.Detach` | utils/cJSON/cJSON_Utils.c:430-481 | on nodes: the item the path leads to is taken out with its subtree, what is left is a well-formed document, and both are what the specification on values says; nothing changes when there is none |
| `NodePatch.AddTo` | utils/cJSON/cJSON_Utils.c:976-1018 | on nodes, at the parent: append, insert or delete-then-add gives the specified parent, or the specified error code and no change |
| `NodePatch.Attach` | utils/cJSON/cJSON_Utils.c:959-1036 | on nodes: the value is put at the path with the specified status and document |
| `NodePatch.Apply` | utils/cJSON/cJSON_Utils.c:807-1036 | on nodes: one patch changes the document in place and returns the status and document of `ApplyPatch`, which the six theorems of `PatchRfc` and its status lemmas determine; well-formed child lists stay so if and only if the patch is no test that moves an end of an object it sorts |
| `NodePatch.ApplyPatches` | utils/cJSON/cJSON_Utils.c:1038-1094 | on nodes: patches are applied in order up to the first non-zero status, a non-array gives status 1, and status and document are the specified ones; only where a later patch relinks a child list must the tests before it have left the lists tied |
| `NodePatch.TestThenAdd` | utils/cJSON/cJSON_Utils.c:831-1018 | a test on an object and an add of a new member to it, both reporting success: if the sort brought another member to the front the item is in no child list, otherwise the list is cut off behind the former last member and ends in the item |
| `NodePatch.TestUntiesList` | utils/cJSON/cJSON_Utils.c:831-1018 | the input {"b":1,"a":2} with a test and an add of "c": both report success, a working add would give three members, and the test does not keep the ends |
| `MergePatch.MergeIsRfc` | utils/cJSON/cJSON_Utils.c:1321-1379 | merging computes the MergePatch function of section 2 of RFC 7396 on objects read as maps, for all targets and patches with distinct keys and, if case is ignored, no two sibling names that differ in case only; keys stay distinct |
| `Folding.MergeFold` | utils/cJSON/cJSON_Utils.c:1321-1379 | for all targets and patches, merging without regard to case is, up to the case of keys, merging the trees with lower-case keys |
| `NodeMerge.Merge` | utils/cJSON/cJSON_Utils.c:1321-1379 | on nodes: the result holds that merge, consists of nodes of the target and new ones, has well-formed child lists at every level, and the patch is untouched |
| `MergeDiff.GenerateExact` | utils/cJSON/cJSON_Utils.c:1391-1471 | the generator returns NULL for two objects exactly when they are equal; otherwise the patch denotes the difference of the two maps; without regard to case both orders must agree on sibling names, with regard to case only inside members that differ and are objects on both sides |
| `MergeDiff.GenerateAfterCompare` | utils/cJSON/cJSON_Utils.c:1440-1464 | that a member has been sorted by its comparison first does not change what its nested patch denotes |
| `MergeDiff.DeltaMerges` | utils/cJSON/cJSON_Utils.c:1391-1471 | merging that difference gives the goal if and only if no differing member of the goal is null |
| `MergeDiff.MergeRoundTrip` | utils/cJSON/cJSON_Utils.c:1321-1481 | hence generate, then merge into a document equal to `from`, such as a duplicate of it, gives `to` if and only if that holds, in every case mode, for distinct keys and under the same condition on the orders; a merge that ignores case after a generation that does not needs no names that differ in case only |
| `DiffOnNodes.GenerateThenMerge` | utils/cJSON/cJSON_Utils.c:1321-1481 | application on nodes of the generated merge patch: the same if and only if, with well-formed child lists in the result |
| `MergeDiff.UpperCaseBreaks` | utils/cJSON/cJSON_Utils.c:1440-1464 | from {"a":0,"B":0} to {"B":0}, whose names the two orders put differently, the case-insensitive round trip empties the object |
| `MergeDiff.GenerateMergePatch` | utils/cJSON/cJSON_Utils.c:1391-1471 | the side-by-side loop over both sorted lists computes the generated patch |
| `Nodes.AddItemToArray` | utils/cJSON/cJSON.c:1956-1987 | the item goes behind the element that the first one's `prev` names: appended when that is the last, cutting the list off when it is another, dropped when it is null; nulls and self are refused |
| `Nodes.AppendItem` | utils/cJSON/cJSON.c:1956-1987 | on a well-formed list an item is appended if and only if it points nowhere or the list is empty |
| `Nodes.GetArrayItem` | utils/cJSON/cJSON.c:1851-1868 | the walk returns the element of that index, or null |
| `Nodes.DetachItemViaPointer` | utils/cJSON/cJSON.c:2187-2221 | the child list is the old one without that element, well linked, and the item points nowhere |
| `Nodes.DetachItemFromArray` | utils/cJSON/cJSON.c:2223-2231 | the same by index; out of range nothing changes |
| `Nodes.InsertItemInArray` | utils/cJSON/cJSON.c:2263-2290 | the item stands before the element of that index, or last if there is none; links and head's prev kept |
| `Nodes.InsertInArray` | utils/cJSON/cJSON_Utils.c:693-728 | the same, but past the end it refuses and changes nothing |
| `Nodes.ReplaceItemViaPointer` | utils/cJSON/cJSON.c:2292-2339 | the child list has the replacement in the item's place, first, middle, last or only element alike |
| `ListRuns.CallAll` | utils/cJSON/cJSON.c:1956-2348 | after any sequence of append, insert, detach and replace calls the child list is well formed and stands for the sequence that the run computes |
| `ListRuns.Conserved` | utils/cJSON/cJSON.c:1956-2348 | over any such run no node is used twice or comes from nowhere |
| `Duplicate.Duplicate` | utils/cJSON/cJSON.c:2706-2787 | the copy consists of new nodes only, every child list in it is well linked with head's prev the tail, and it holds what the original holds |
| `Duplicate.CopyKids` | utils/cJSON/cJSON.c:2747-2773 | the loop copies and links all children and ties the first back to the last |
| `Monitor.ServedBeforeExpiry` | src/network.c:184-322 | in every interleaving a receive wait of at least one second on an open descriptor, whose deadline does not wrap, has been in a select set (or reported) before a scan can drop it, and within 2 s of arming |
| `Monitor.StepKeeps` | src/network.c:102-319 | every step of tasks, monitor and clock keeps the invariant behind this |
| `Monitor.PromiseIsExact` | src/network.c:204-266 | in the run with a busy monitor the wait is missed if and only if its timeout is 0 or its deadline wraps |
| `Monitor.SignalKept` | src/network.c:151-165 | over any run of steps in which the task neither wakes nor drains, a given signal stays |
| `Monitor.SignalTaken` | src/network.c:151-165 | a step takes a given signal away if and only if it is that task's wake or drain |
| `Monitor.SignalLost` | src/network.c:151-165 | a signal given between arming and draining is discarded and leaves the task blocked with no deadline |
| `Monitor.ScanLoop` | src/network.c:210-266 | the receive part of the scan: which deadlines it clears, which descriptors it selects on, and the least remaining time under the cap |
| `Monitor.ReportLoop` | src/network.c:276-289 | the receive part of the report turns the table into `Signalled`; what that does is `Monitor.ReportExact` |
| `Monitor.ReportExact` | src/network.c:276-289 | the signal is given and the deadline cleared for exactly the open sockets whose descriptor is ready, and nothing else changes |
| `Monitor.ReportWakes` | src/network.c:151-289 | over any run after a report, a task that was blocked on a ready open descriptor can wake until it does or gives up; waking takes the signal |
| `Monitor.ScanExact` | src/network.c:210-266 | a scan puts into the select set exactly the open sockets whose deadline has passed by at most a second, clears the later ones and changes nothing else |
| `Monitor.TimeoutLeast` | src/network.c:210-240 | the select timeout is the least of the cap and the remaining times of the watched sockets |
| `Monitor.PendingExact` | src/network.c:151-318 | over any run, a notification is pending exactly when the last one given was not yet taken: none is lost and none taken twice |
| `Monitor.GiveUpExact` | src/network.c:151-165 | in every run a blocked task can give up exactly from two seconds after its timeout on, counted from arming |
| `Topic.MatchedByLevel` | src/mqtt/MQTTClient.c:145-173 | for every topic name and well-formed filter the loop matches level by level, `+` one non-empty level, `#` one or more levels the first of which is not empty |
| `Topic.LevelsExact` | src/mqtt/MQTTClient.c:145-173 | the levels hold no `/` and joined by `/` they are the topic |
| `Topic.StandardExact` | src/mqtt/MQTTClient.c:145-173 | for every name and well-formed filter, the loop matches if and only if section 4.7.1 of MQTT 3.1.1 matches, `#` does not stand for the parent level, and no wildcard stands on an empty level |
| `Topic.StandardUpToParent` | src/mqtt/MQTTClient.c:145-173 | so without empty levels the only difference is that `#` does not match the parent level |
| `Topic.MatchIsStandard` | src/mqtt/MQTTClient.c:145-173 | with empty levels too, whatever it matches the standard matches |
| `Topic.EmptyLevelRefused` | src/mqtt/MQTTClient.c:145-173 | two instances: `+` and `#` refuse an empty level the standard lets them match |
| `Topic.IsTopicMatched` | src/mqtt/MQTTClient.c:148-173 | the cursor loop returns the level-by-level answer on every well-formed filter |
| `Handlers.SetRefines` | src/mqtt/MQTTClient.c:467-506 | one set or remove call is one step of a map bounded by the number of slots, and fails exactly when removing what is absent or adding to a full table |
| `Handlers.RunRefines` | src/mqtt/MQTTClient.c:467-506 | over any run of set, remove and clean calls and any table size the slots stand for that map, at most one slot per filter |
| `Handlers.DeliveredOnce` | src/mqtt/MQTTClient.c:176-198 | every table entry whose filter matches the topic is called exactly once and nothing else is called |
| `Handlers.HitIsMatch` | src/mqtt/MQTTClient.c:184-185 | on well-formed filters the extra test for equality adds nothing to level-by-level matching |
| `Handlers.Client.SetMessageHandler` | src/mqtt/MQTTClient.c:467-506 | the two searches and the update make that step on the slots in place |
| `Handlers.Client.CleanSession` | src/mqtt/MQTTClient.c:236-242 | every slot is freed, leaving the empty map |
| `Handlers.Client.DeliverMessage` | src/mqtt/MQTTClient.c:176-206 | the matching slot handlers run in slot order; the default handler, when set, runs exactly when none did; success means something ran |
| `MemTrace.Tracer.Malloc` | src/lwm2m/memtrace.c:84-101 | a new entry heads the live list; counters, sizes, separation of the lists and the numbering are kept |
| `MemTrace.Tracer.Free` | src/lwm2m/memtrace.c:103-128 | a live block moves to the front of the freed ones, which stay the latest 200 frees newest first; anything else changes nothing and is reported as unknown or as freed before |
| `MemTrace.Tracer.FindPrevious` | src/lwm2m/memtrace.c:39-50 | it returns the entry before the block, or null exactly when the block is not on the list |
| `MemTrace.AddFreeList` | src/lwm2m/memtrace.c:52-73 | the entry is put in front and, at 200 entries, the oldest is cut off; the counter stays the length |
| `MemTrace.Tracer.SelfCheck` | src/lwm2m/memtrace.c:146-164 | neither mismatch report can fire: the walk counts what the head counts and sums what the head sums |

## Left out

- Numbers other than 32-bit integers: `valuedouble`, `%1.15g`, `compare_double` on non-integers; `strtod` is a parameter.
- Printer.PrintBuffer.PrintNumber: only the branch for integers; infinities, NaN and numbers printed with `%g` are outside the model.
- ParseText.ParsesText: numbers whose value is a 32-bit integer and whose numeral has at most 63 bytes, which is all the parser copies; relative to a `strtod` that reads such numerals correctly, since `strtod` is a parameter. Behind a byte order mark at least two bytes must follow, as the code looks for the mark only then.
- ParseText.NumberParsed: the same on numerals.
- ParseShape.ParsedIsText: a numeral is what `strtod` consumes, since `strtod` is a parameter.
- MinifyText.MinifiesText: one way in the condition on strings with two backslashes at the end; for printed texts the exact condition is `Minify.MinifyExact`.
- FoldedPatch.LocateFold: a token that starts with a digit must hold no capital letter, because the index decoder looks at the first byte only: `1A` is read as index 27 and `1a` as index 59.
- FoldedPatch.ApplyFold: requires that of the tokens of both paths.
- FoldedPatch.ApplyAllFold: requires it of all patches.
- FoldedPatch.DiffThenApplyFold: requires it of all keys, though only tokens that meet arrays matter, and the keys at the ends of generated paths must survive as in `DiffApply.DiffThenApply`.
- PatchRfc.FieldMissing: case-sensitive, with a document present; a replace without `value` is a remove followed by the same refusal.
- Parser.ParseBuffer.ParseNumber: keeps the saturated integer; the `valuedouble` beside it is not modelled.
- Parser.ParseWithLength: on failure the end position is bounded by the length, not tied to the offset at which parsing stopped.
- Raw and reference items, allocator hooks, `valuestring` reuse, and the `Create` and `Add` helpers: each only sets the fields of one node or calls a modelled operation.
- Allocation failure: every allocation succeeds; the growing buffer's realloc and copy are modelled.
- Child lists are sequences in printing and parsing, which only read them or build them in order.
- DiffOnNodes.DiffThenApply: the list of patches is given as nodes that hold the generated patches; generation itself runs on values.
- DiffOnNodes.GenerateThenMerge: the merge patch is given as nodes likewise.
- PatchLoops.PatchList.CreatePatches: works on values, so it does not say that both trees are left sorted in place; what that does to a child list is `SortList.SortObject`, which is why the round trip is stated for a document other than the tree the patches came from.
- MergeDiff.GenerateMergePatch: works on values, so it does not say that both trees are left sorted in place; that the sort between comparing a member and generating its nested patch does not matter is `MergeDiff.GenerateAfterCompare`.
- NodePatch.Apply: requires of a patch that is an array that its elements have no names, and of a document whose lists a test has untied that the patch does not relink it; what an append does to such a list is `NodePatch.TestThenAdd`.
- NodePatch.ApplyPatches: requires the same at each patch of the run.
- NodePatch.TestThenAdd: at the root, for an add whose name is new, so that the deletion before it finds nothing.
- CompareLoops.CompareByLookup: the shortcut for comparing an item with itself is not modelled; on trees with distinct keys it does not change the answer, by `Compare.LookupCompareExact`, and on repeated keys it can.
- SortList.Sort: a node without a key is allowed, but the order is stated only when every node has one.
- Nodes.ReplaceItemViaPointer: the deletion of the replaced item is not modelled, as the item is in no list afterwards.
- Topic.StandardExact: the rule of section 4.7.2 for names that start with `$` is not part of the comparison; the code has no such rule.
- Printer.PrintBuffer.Ensure: lengths are unbounded integers; the cap at INT_MAX is modelled, `size_t` overflow below it cannot occur.
- Pointer.DecodeArrayIndex: `size_t` is taken to be 32 bits wide, as on the target.
- PatchRfc.RemoveIsRfc: requires that the last token survives the decoding in place; which tokens do is `DiffLimits.SurvivesExact`.
- PatchRfc.ReplaceIsRfc: requires the same.
- PatchRfc.MoveIsRfc: one way in the condition on the first member of that name, as a move of the wrong member can still end in the right data, such as from `/p/a` to `/p` in {"p":{"A":1,"a":1}}.
- The transmit half of the monitor: it gives the deadline value where the semaphore belongs; its effect on the select timeout is a parameter of the scan step.
- Monitor.ServedBeforeExpiry: steps other than a select take no time, a select returns within its timeout, and runs end before the clock itself wraps.
- MQTT packets, sockets, timers, keep-alive, and the case where a handler changes the table while a message is delivered.
- MemTrace.Tracer.Free: a block's address is its identity, so reuse of an evicted block's address by the allocator is not modelled; counters are unbounded.
- The printing part of `trace_print`, `trace_status` and `lwm2m_trace_strdup`: they only report the lists and counters whose values are proved.
- WiFi, SNTP, sensors, board support, LwM2M objects and DTLS: input and output over libraries that are not part of this model.
