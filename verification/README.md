# Verified model of the JSON engine, the SYN packet builder and the RST timer

The repository detects network compression. Its client, server and standalone program read their configuration with
the bundled JSON engine (`cJSON.c`, version 1.7.15); the standalone program builds raw SYN packets (`headers.c`) and
times the RST answers to two packet trains (`compdetect.c`, `util.c`). This project models these parts in Dafny and
proves what they compute.

## How the model is laid out

**Parser.** `Grammar.dfy` says what the recursive-descent parser computes on a terminated byte buffer: a value and the
index behind it, or the index of the failure. `Parser.dfy` and `Parsing.dfy` hold the parser itself: a class with a
moving offset and a nesting counter that builds linked items on the heap and is proved to compute what the grammar
says, to stay inside the buffer, to terminate, and to leave a fresh, properly linked tree with nothing else allocated,
or, after a failure, nothing at all. What the grammar accepts is
then described as documents: `Layout.dfy` says how a document with all its white space is written, `Reading.dfy`
proves that every document is read to its value, `Accepting.dfy` that everything read is a document, and
`Documents.dfy` joins the two into an if-and-only-if for texts that have to end behind the value. `Prefixes.dfy` does
the same for `cJSON_Parse`, which ignores what follows the value. In a layout a string token is whatever the two passes
over strings take, a number token whatever `strtod` uses to the end; `RawTexts.dfy` and `Numerals.dfy` describe both
without them.

**Strings and numbers.** `Utf.dfy` has the bit-level UTF-8 encoder and the UTF-16 literals, with the decoder of
section 3 of RFC 3629 as its partner; `Bits.dfy` connects bit operations and arithmetic. `Strings.dfy` has the
unescaping step, the escaping and the sizing argument for the two passes. `Numbers.dfy` reads numerals exactly, as
decimal fractions, and saturates them to a C `int`; `Numerals.dfy` describes the accepted numerals part by part, and
`RawTexts.dfy` the accepted string tokens as plain bytes, two-byte escapes and `\u` literals with their UTF-8 forms.

**Printer.** `Rendering.dfy` is the pure text of a value in both modes and the round trip through the parser.
`Printables.dfy` says which values are printed and that parsing gives no others but for their numbers. `Printer.dfy`
walks the linked items and writes into the growable buffer with its lazily updated offset, both growth
branches and the fixed-size mode. `RoundTrip.dfy` prints, minifies and parses on the heap.

**Minifier.** `Minify.dfy` has the in-place algorithm on one array and the pure filter it is proved equal to;
`Minified.dfy` and `MinifyMeaning.dfy` say what the filter does to documents, and `MinifyPrinted.dfy` when it turns
formatted printouts into unformatted ones.

**Trees.** `LinkedTree.dfy` defines the items with their `next`, `prev` and `child` links, the list invariant
(neighbours agree, the last `next` is null, the head's `prev` is the tail) and what a linked tree denotes.
`TreeViews.dfy` says what a walk along the children sees. `ChildLists.dfy` has the list operations on links;
`TreeLists.dfy` and `TreeMaps.dfy` prove what they do to the sequence of values, respectively to the finite map, that a
tree holds. `Lookup.dfy` finds members by name.
`Comparing.dfy` characterises the comparison of values and `ComparingTrees.dfy` is the comparison of linked trees.
`Ownership.dfy` has the allocator's live blocks, deletion and deep copies; items, texts and keys are read only while
their blocks are live. `Families.dfy` says which items are children of which and what the edits do to that, and
`Reach.dfy` what references lead to. `Forest.dfy` puts them together: every sequence of parsing, creating, adding,
referencing, detaching, inserting, replacing, renaming, copying and deleting keeps one owner per item and loses no
block. Copying has a condition, because a reference outlives what it points at: everything that the links lead to from
the item must still be there, and so must the owners of the texts that references show. That holds as long as no
reference dangles, which only deleting and replacing can bring about, exactly when a remaining reference points into
the tree that goes.

**Packets and timing.** `Checksum.dfy` has the Internet checksum with its 32-bit accumulator on hosts of either byte
order, against the definition of RFC 1071; `Packet.dfy` builds the SYN packet of section 3.1 of RFC 791 and section
3.1 of RFC 793. `Receive.dfy` has the four-RST routine over an arbitrary trace of packets and clock readings.

**What the basic definitions compute.** Functions that both the program and the theorems call are pinned down in code
numbers, without the names the model gives them: `Characters.dfy` says which characters the named bytes are and what the
bounds are, and the tables of letters, digits, escapes, header fields, flags and truncations stand beside the functions
they describe.

Conventions: bytes are integers below 256. `hide` at the head of a proof names the definitions it does not use. Text
fields of items are C strings; where a decoded string contains a NUL the model keeps the part in front of it, which is
all the program ever sees.

## Where the code differs from its documentation or from what one might expect

- `cJSON.h:162` advises five bytes more than estimated for a preallocated buffer. The code needs exactly two more than
  the text (`Printer.PrintPreallocated`).
- The minifier does not treat two backslashes as an escape pair. `Minified.FilterString` gives its string rule exactly,
  `MinifyMeaning.MinifyKeepsMeaning` a class of texts that are safe, `MinifyMeaning.MinifySafeExactly` the strings
  that are safe wherever they stand, and `MinifyPrinted.MinifyFormattedExactly` the trees whose printouts are.
- A `\u` whose four bytes are not all hexadecimal digits is accepted and reads as NUL, so the string ends there for every
  reader of the item (`RawTexts.PiecesOfRaw`).
- A number of more than 63 bytes is cut after them, and the rest is left to whatever comes next: an error, unless the
  number is the whole value and `cJSON_Parse` ignores what follows it (`Prefixes.AcceptedPrefix`).
- Comparison is not reflexive on objects that give one key two meanings (`Comparing.Reflexive`), nor transitive on
  numbers that are not integers (`Comparing.TolerantComparisonIsNotTransitive`).
- A reference shares pointers that deleting does not know of. Copying a reference to an array after the array has been
  deleted reads the deleted element (`Forest.FreedChild`), and with a string it reads the deleted text
  (`Forest.FreedText`). `Forest.World.LiveExactly` and `Forest.World.IntactExactly` say when a copy is safe,
  `Forest.World.Delete` and `Forest.World.ReplaceItemViaPointer` when it stays so.
- Replacing by name frees the replacement's key before it copies the name. The name must not be that key, unless the key
  is a constant (`Forest.World.NameOutlives`).
- Appending does not clear the item's `next`. The list survives exactly if it was empty or the item brings none along
  (`ChildLists.AddItemToArray`); in `Forest.World` that follows from the item being a root.
- A member appended under a key that is already taken is never seen by lookups (`TreeMaps.MapAfterAppend`), and a
  failed replacement by name has renamed the replacement all the same (`TreeMaps.ReplaceItemInObject`).
- The checksum agrees with RFC 1071 exactly when its 32-bit sum does not overflow, which no longer holds for all
  buffers from 131075 bytes on; on a big-endian host an odd last byte counts in the wrong half of its word.
- The verdict truncates each stamp to milliseconds: `Receive.DetectionBounds` gives the gaps that are always, and
  never, detected.

## Model

| member | source | states |
|---|---|---|
| Bytes.CString | cJSON.c:188-206 | the bytes in front of the first NUL: NUL-free, a prefix, and everything if there is no NUL |
| Bytes.CStringExactly | cJSON.c:188-206 | the C string of a text is its longest front without a zero byte, and nothing else |
| Characters.NamedBytes | cJSON.c:783-899 | every named byte is the ASCII character of its name |
| Characters.NamedTexts | cJSON.c:1312-1343 | the words are spelled `null`, `false` and `true`, and the byte order mark is the UTF-8 form of U+FEFF |
| Characters.ByteClasses | cJSON.c:318-346 | which codes count as white space for the parser, as blanks for the minifier, as digits and as number bytes |
| Characters.Bounds | cJSON.h:136-138 | the nesting limit, the number buffer and the range of a C `int` in numerals |
| Numerals.NumeralIsRead | cJSON.c:305-379 | a sign, digits with an optional dot and an optional exponent are read completely, to all digits as one integer with its point moved |
| Numerals.NumeralsExactly | cJSON.c:305-379 | a number text is used up completely if and only if it is such a numeral |
| Numbers.DecimalReadsBack | cJSON.c:305-379 | the decimal form of every integer is read back completely and to that integer |
| Numbers.DecimalShort | cJSON.c:545-612 | the decimal form of a C `int` has at most eleven bytes, so it fits the number buffer |
| Numbers.DecimalCanonical | cJSON.c:545-612 | the decimal form has no leading zero, and a minus sign exactly for negative numbers |
| Numbers.Saturates | cJSON.c:361-372 | from 2147483647 up and from -2147483648 down the bound is taken, between them the fraction is cut off toward zero |
| Numbers.IsIntExactly | cJSON.c:545-580 | the numbers modelled for the printer are the integers from -2147483648 to 2147483647 |
| Utf.HexDigits | cJSON.c:615-648 | the digits 0 to 9 stand at code 48, those from 10 to 15 at 65 and at 97 |
| Utf.Hex4Exactly | cJSON.c:615-648 | four digits are read as one number, the first counting most |
| Utf.CombineIs | cJSON.c:677-713 | a surrogate pair is combined bit by bit to the scalar value of section 2.2 of RFC 2781 |
| Utf.EncodeIsTheUtf8Form | cJSON.c:715-764 | for every scalar value the bit-level encoder writes the one byte sequence that decodes to it, both directions |
| Utf.LiteralIsSpelling | cJSON.c:652-713 | a literal of one or two escapes is accepted for a scalar value if and only if it spells its UTF-16 form before the closing quote |
| Strings.UnitsSkipped | cJSON.c:786-817 | wherever the writing pass stands, even out of step after bad digits, the sizing pass counted enough for what is left |
| Strings.ClosingQuoteLocal | cJSON.c:790-808 | whether a quote closes a string depends on the text before it only |
| Strings.SimpleEscapesExactly | cJSON.c:835-858 | the two-byte escapes and the bytes they stand for, by code: 98 gives 8, 102 gives 12, 110 gives 10, 114 gives 13, 116 gives 9, and 34, 92 and 47 give themselves |
| Strings.EscapedBytes | cJSON.c:961-1014 | what is printed for each byte, by code |
| Strings.EscapeJoin | cJSON.c:961-1014 | a text is escaped byte by byte |
| Strings.EscapeReadsBackAt | cJSON.c:902-1021 | unescaping an escaped NUL-free string gives it back |
| Strings.QuotedReadsBack | cJSON.c:773-899 | a printed string parses back to its text and ends at its closing quote |
| Grammar.ParseValue | cJSON.c:1312-1364 | success advances strictly and stays in front of the last byte; a failure is at most one byte behind the buffer, which the entry point clamps |
| Reading.ReadDoc | cJSON.c:1312-1364 | a well-formed document in front of a byte that ends it is read to its value and to its end if its nesting fits, and refused if not |
| Reading.ReadCells | cJSON.c:1441-1536 | the same for the elements of an array with any white space between tokens |
| Reading.ReadFields | cJSON.c:1601-1711 | the same for the members of an object |
| Accepting.FindDoc | cJSON.c:1312-1364 | whatever is read as a value is the text of a well-formed document with that value |
| Accepting.FindCells | cJSON.c:1441-1536 | whatever is read as array elements is the text of well-formed cells |
| Accepting.FindFields | cJSON.c:1601-1711 | whatever is read as object members is the text of well-formed fields |
| Documents.DocumentIsRead | cJSON.c:1095-1172 | layout independence: any byte order mark and any bytes 1 to 32 between tokens give the same tree, consumed to the last token or to the end |
| Documents.AcceptedIsDocument | cJSON.c:1095-1172 | every accepted text is a document, with nesting at most 1000 |
| Documents.AcceptedExactly | cJSON.c:1095-1172 | with the end required, a C string is accepted with a tree if and only if it is a document with that value and at most 1000 nested containers |
| Prefixes.UsesPrefix | cJSON.c:305-379 | what follows a numeral never makes `strtod` use less than the numeral |
| Prefixes.ReadLongest | cJSON.c:305-379 | the longest numeral of at most 63 bytes is what is read, whatever follows it |
| Prefixes.AcceptedPrefix | cJSON.c:1095-1180 | without the end required, as `cJSON_Parse` does it, a tree and an end are returned if and only if the text up to there is a value behind an optional mark and white space, a number being the longest numeral that stands there, with at most 1000 nested containers |
| RawTexts.RawOfPieces | cJSON.c:773-899 | any sequence of plain bytes, two-byte escapes with the bytes that the table of codes gives them, and `\u` literals, of either case and with surrogate pairs, is accepted, and its value is the UTF-8 of the pieces up to the first NUL |
| RawTexts.PiecesOfRaw | cJSON.c:773-899 | every accepted string token is such a sequence up to its end or its first misspelled literal, and that part alone gives its value |
| RawTexts.RawTextsExactly | cJSON.c:773-899 | a text whose `\u` all have four digits is accepted with a value if and only if it is such a sequence with that value |
| Rendering.RenderNulFree | cJSON.c:525-535 | printed text contains no NUL, so `strlen` finds its end |
| Rendering.TreeIs | cJSON.c:1367-1438 | the printed text of a value, in either mode, is a well-formed document of that value |
| Rendering.PrintThenParse | cJSON.c:1367-1438 | parsing a printout succeeds exactly when at most 1000 containers are nested and then gives back the same tree |
| RawTexts.QuoteCloses | cJSON.c:786-808 | the closing quote is the first one behind an even number of backslashes |
| RawTexts.StringTextsExactly | cJSON.c:773-899 | the whole language of string tokens: a text is accepted with a value if and only if the quote behind it closes it and it is a sequence of such pieces and of misspelled literals, which stand for NUL, with that value up to the first NUL |
| Parser.ParseBuffer.constructor | cJSON.c:1097-1112 | a buffer whose last byte is NUL is ready to be parsed |
| Parser.ParseBuffer.SkipWhitespace | cJSON.c:1038-1061 | the offset moves over bytes up to 32 but never past the last byte |
| Parser.ParseBuffer.ParseHex4 | cJSON.c:615-648 | four hexadecimal digits are combined, a bad one gives 0 |
| Parser.ParseBuffer.Utf16LiteralToUtf8 | cJSON.c:652-770 | reads one literal, writes its UTF-8 bytes and nothing else, and stays inside the buffers |
| Parser.ParseBuffer.EncodeUtf8 | cJSON.c:715-764 | writes exactly the bytes of the encoder |
| Parser.ParseBuffer.FindClosingQuote | cJSON.c:786-808 | finds the closing quote if there is one before the end, and counts what is skipped |
| Parser.ParseBuffer.WriteString | cJSON.c:810-877 | the writing pass stays within the allocated length plus one and its read index at most one behind the closing quote, for every input |
| Parser.ParseBuffer.ParseString | cJSON.c:773-899 | the item holds the decoded string and owns its block, or the failure is reported where the grammar says and the output is given back |
| Parser.ParseBuffer.ParseNumber | cJSON.c:305-379 | the item holds the value of the numeral and its saturation to `int` |
| Parser.ParseBuffer.ParseValue | cJSON.c:1312-1364 | the parser computes the grammar's result, restores the depth, and links a fresh tree that holds the value; the blocks allocated are those of the tree, and after a failure none are left |
| Parser.ParseBuffer.ParseElements | cJSON.c:1473-1513 | the element loop builds a sibling list that holds the parsed values in order, and accounts for its blocks when it breaks off |
| Parser.ParseBuffer.ParseArray | cJSON.c:1441-1536 | arrays: the grammar's result as a linked tree, depth restored; a list that was begun is deleted on failure |
| Parser.ParseBuffer.ParseMembers | cJSON.c:1631-1689 | the member loop builds a sibling list that carries the parsed keys and values, and accounts for its blocks when it breaks off |
| Parser.ParseBuffer.ParseObject | cJSON.c:1601-1711 | objects: the grammar's result as a linked tree, depth restored; a list that was begun is deleted on failure |
| Parsing.SkipUtf8Bom | cJSON.c:1064-1076 | a byte order mark is skipped in a buffer of more than four bytes |
| Parsing.ParseWithLengthOpts | cJSON.c:1095-1172 | success is a fresh, properly linked tree of nesting at most 1000 that holds the grammar's value and owns exactly the blocks allocated; failure reports a position inside the buffer and leaves nothing allocated |
| Parsing.NestingBounded | cJSON.c:1441-1450 | no value deeper than the limit is ever accepted |
| Printer.PrintBuffer.constructor | cJSON.c:1187-1199 | an empty buffer shows the empty text |
| Printer.PrintBuffer.Ensure | cJSON.c:439-522 | room is made exactly when text, request and terminator fit, by either growth branch, and the text so far survives |
| Printer.PrintBuffer.UpdateOffset | cJSON.c:525-535 | the offset lands on the terminator of what was written |
| Printer.PrintBuffer.PrintNumber | cJSON.c:545-612 | appends the decimal form; succeeds exactly when two more bytes fit |
| Printer.PrintBuffer.CountEscapes | cJSON.c:929-953 | the sizing pass counts exactly the bytes that escaping adds |
| Printer.PrintBuffer.PrintString | cJSON.c:929-1021 | appends the quoted, escaped string; what is written is what was counted |
| Printer.PrintBuffer.PrintStringPtr | cJSON.c:902-1021 | the same for a string that may be missing, which prints as an empty one |
| Printer.PrintBuffer.PrintValue | cJSON.c:1367-1438 | appends the rendering of the value a linked item holds, one terminator at its end; succeeds exactly when two more bytes fit, and never without a valid item |
| Printer.PrintBuffer.PrintArray | cJSON.c:1539-1598 | arrays: the rendering is appended and the depth restored |
| Printer.PrintBuffer.PrintItems | cJSON.c:1562-1586 | the element loop writes elements and separators and leaves the offset at the end of the text |
| Printer.PrintBuffer.PrintObject | cJSON.c:1714-1825 | objects: the rendering is appended and the depth restored |
| Printer.PrintBuffer.PrintMembers | cJSON.c:1741-1805 | the member loop writes indentation, keys, values and separators |
| Printer.Print | cJSON.c:1187-1260 | the result is a fresh string of exactly the rendering and a terminator |
| Printer.PrintBuffered | cJSON.c:1262-1290 | from any first size the result holds the rendering and a terminator |
| Printer.PrintPreallocated | cJSON.c:1292-1309 | succeeds if and only if the given length is at least the text's plus two, and then holds the rendering |
| Printables.PrintableExactly | cJSON.c:1367-1438 | the values modelled for the printer are those whose numbers are C `int`s and whose texts and keys are C strings |
| Printables.ParsedIsPrintable | cJSON.c:1095-1180 | whatever has been parsed can be printed if and only if its numbers are C `int`s |
| RoundTrip.PrintAndParse | cJSON.c:1175-1260 | printing a linked tree and parsing the printout gives a fresh linked tree that holds the same value, if and only if nesting and size permit |
| RoundTrip.PrintAndMinify | cJSON.c:2838-2884 | minifying a formatted printout in place leaves the unformatted one if and only if no string or key ends in a backslash, except perhaps a string at the very end |
| TreeViews.ElementAt | cJSON.c:1562-1586 | what the loops over an array's children see: the elements of the value in order, and nothing behind them |
| TreeViews.MemberAt | cJSON.c:1741-1805 | the same for an object's members, with their keys |
| Minify.SkipOnelineComment | cJSON.c:2789-2800 | the read index moves behind the line end, or to the terminator |
| Minify.SkipMultilineComment | cJSON.c:2802-2814 | the read index moves behind the comment, or to the terminator |
| Minify.MinifyString | cJSON.c:2816-2836 | copies a string by the minifier's own rule; the write index stays behind the read index |
| Minify.MinifyInPlace | cJSON.c:2838-2884 | for every terminated array the result is the pure filter of its text, and nothing behind the old terminator changes |
| Minify.Idempotent | cJSON.c:2838-2884 | filtering twice is filtering once |
| Minified.FilterString | cJSON.c:2816-2836 | the minifier ends a string where the parser does if and only if its raw text does not end in a backslash |
| Minified.StripKeepsValue | cJSON.c:2851-2857 | a document without its blanks has the same value |
| Minified.FilterDoc | cJSON.c:2838-2884 | the filter turns a document into its stripped form and goes on behind it |
| MinifyMeaning.FilterDocument | cJSON.c:2838-2884 | the same for a whole text with mark and surrounding white space |
| MinifyMeaning.NoTripleExactly | cJSON.c:2828-2833 | the texts in question are those in which the codes 92, 92, 34 stand nowhere in a row |
| MinifyMeaning.MinifyKeepsMeaning | cJSON.c:2816-2884 | a text without two backslashes in front of a quote parses to the same tree before and after |
| MinifyPrinted.MinifyFormattedExactly | cJSON.c:2838-2884 | minifying formatted output gives the unformatted output if and only if no string or key ends in a backslash, except perhaps a string with nothing but closing brackets of arrays behind it |
| MinifyPrinted.OpenFiltered | cJSON.c:2816-2884 | for such trees that is so in front of any text, whatever the depth of indentation |
| MinifyPrinted.Spoiled | cJSON.c:2816-2884 | for all others the filtered text does not even start with the unformatted output |
| MinifyMeaning.MinifySafeExactly | cJSON.c:2816-2836 | a string or key leaves every document its meaning, wherever it stands among others that do not end in a backslash, if and only if its own raw text does not end in one |
| MinifyMeaning.EscapedBackslashIsUnsafe | cJSON.c:2828-2833 | an escaped backslash at the end of a string makes the minifier drop the slash of the next, so the document loses its meaning |
| LinkedTree.Node.constructor | cJSON.c:241-250 | a new item has every field zero |
| LinkedTree.NumberItem | cJSON.c:359-372 | the integer field of a parsed number is its value cut off toward zero, within the bounds of a C `int` |
| LinkedTree.Attach | cJSON.c:1478-1497 | a fresh item is linked behind a growing list without disturbing what the list holds |
| LinkedTree.Close | cJSON.c:1518-1523 | the head's `prev` becomes the tail, which completes the list invariant |
| ChildLists.GetArraySize | cJSON.c:1828-1849 | the number of children |
| ChildLists.GetArrayItem | cJSON.c:1851-1868 | the child at an index, or nothing behind the end |
| ChildLists.SuffixObject | cJSON.c:1928-1932 | makes two items neighbours |
| ChildLists.AddItemToArray | cJSON.c:1956-1987 | appends; the list invariant holds afterwards if and only if the list was empty or the item had no `next` |
| ChildLists.DetachItemViaPointer | cJSON.c:2187-2221 | removes the item from the list, which keeps its invariant; the item points nowhere |
| ChildLists.InsertItemInArray | cJSON.c:2263-2290 | inserts before an index, or appends |
| ChildLists.ReplaceItemViaPointer | cJSON.c:2292-2339 | puts the replacement at the item's place; the item points nowhere |
| TreeLists.SiblingsAreChildren | cJSON.c:1518-1523 | the list invariant of the parser and that of the list operations are the same |
| TreeLists.AddItemToArray | cJSON.c:1956-1992 | a linked list that holds some values holds one more at the end, exactly under the same condition |
| TreeLists.DetachItemViaPointer | cJSON.c:2187-2221 | the list holds the values without one, and the detached tree still holds that one |
| TreeLists.DetachItemFromArray | cJSON.c:2223-2231 | the same by index; nothing happens outside the list |
| TreeLists.InsertItemInArray | cJSON.c:2263-2290 | the list holds the values with one inserted |
| TreeLists.ReplaceItemViaPointer | cJSON.c:2292-2339 | the list holds the values with one updated, and the old tree still holds its value |
| TreeLists.ReplaceItemInArray | cJSON.c:2341-2349 | the same by index; nothing happens outside the list |
| TreeLists.DetachThenInsert | cJSON.c:2187-2290 | detaching an item and inserting it at its index restores the list |
| Lookup.LowerExactly | cJSON.c:145-154 | two bytes match if and only if they are equal or the upper and lower case of one letter, 32 codes apart |
| Lookup.CanonExactly | cJSON.c:130-155 | two keys match, up to their first NUL, if and only if they are equally long and match byte by byte |
| Lookup.CaseInsensitiveStrcmp | cJSON.c:133-155 | zero if and only if both strings exist, are equally long and match byte by byte but for the case of letters |
| Lookup.FirstStopExactly | cJSON.c:1880-1910 | the walk passes over keys that do not match and stops at the first that does, or at an unnamed child in case-sensitive mode |
| Lookup.GetObjectItem | cJSON.c:1880-1910 | the answer is the first child whose key matches byte by byte, with or without regard to case, and there is none if no key does; in case-sensitive mode an unnamed child ends the search |
| TreeMaps.MapAfterAppend | cJSON.c:2011-2046 | appending adds a binding to the map unless the key is taken, then it changes nothing |
| TreeMaps.MapAfterReplace | cJSON.c:2351-2372 | replacing the first match updates the binding |
| TreeMaps.MapAfterRemove | cJSON.c:2238-2250 | removing the first match removes the key exactly if no later member has it, and no other key changes |
| TreeMaps.AddItemToObject | cJSON.c:2011-2057 | the object has one more member, under a copy of the name |
| TreeMaps.DetachItemFromObject | cJSON.c:2238-2250 | the first member that answers to the name comes out whole; without one nothing happens |
| TreeMaps.ReplaceItemInObject | cJSON.c:2351-2382 | the first member that answers to the name is replaced under that name; the replacement is renamed in any case |
| Comparing.ToleranceExactly | cJSON.c:538-542 | two numbers are equal if and only if their difference times two to the power of 52 is no more than the larger magnitude |
| Comparing.IntsCompareExactly | cJSON.c:538-542 | on C `int`s the tolerant comparison is equality |
| Comparing.FindIsLookup | cJSON.c:1880-1910 | the first match is the map's binding |
| Comparing.ComparesMeanings | cJSON.c:2986-3109 | two integer trees compare equal if and only if neither gives a key two meanings and both mean the same, arrays as sequences and objects as finite maps |
| Comparing.Symmetric | cJSON.c:2986-3109 | the comparison is symmetric on all trees, whatever their numbers |
| Comparing.Transitive | cJSON.c:2986-3109 | on integer trees it is transitive |
| Comparing.Reflexive | cJSON.c:2986-3109 | a tree equals its copy if and only if it gives no key two meanings |
| Comparing.DistinctExactly | cJSON.c:3068-3104 | keys are distinct if and only if no two members match and the values have distinct keys themselves |
| Comparing.DistinctIsConsistent | cJSON.c:3068-3104 | trees with distinct keys give no key two meanings |
| Comparing.RepeatedKeyBreaksReflexivity | cJSON.c:3068-3104 | a repeated key with two values makes an object differ from its copy |
| Comparing.TolerantComparisonIsNotTransitive | cJSON.c:538-542 | three doubles of which neighbours compare equal and the outer two do not |
| ComparingTrees.OneValue | cJSON.c:2986-3109 | a linked tree holds only one value |
| ComparingTrees.IdenticalIsSame | cJSON.c:3010-3014 | the shortcut for identical items answers as the full comparison would |
| ComparingTrees.CompareElements | cJSON.c:3044-3066 | the walk along two arrays compares their elements in order and their lengths |
| ComparingTrees.CoverMembers | cJSON.c:3068-3104 | one of the two passes: every member has an equal first match in the other object |
| ComparingTrees.Compare | cJSON.c:2986-3109 | the comparison of two linked trees is that of the values they hold, and invalid items equal nothing |
| Ownership.Delete | cJSON.c:253-274 | gives back every block that an item and its followers own exactly once and touches nothing that is only referenced; items are read through members that require their block to be live |
| Ownership.Duplicate | cJSON.c:2706-2787 | whatever hangs below an item along `child` and `next`, in whatever state, the recursive copy is a fresh, properly linked tree of the same form and contents that owns exactly the blocks allocated; only live blocks are read |
| Ownership.MirrorHolds | cJSON.c:2706-2787 | a copy holds every value that its original holds |
| Ownership.WalkExactly | cJSON.c:2758-2780 | what is copied is the first child, from each child the next one, down to null, and the same below |
| Ownership.LinkedWalk | cJSON.c:2706-2787 | from a properly linked item the copy can be made |
| Ownership.LinkCopy | cJSON.c:2758-2770 | links a copied child behind the others |
| Families.FitsProper | cJSON.c:253-274 | where every item has one owner, the tree below an item never meets itself |
| Families.Pruned | cJSON.c:253-274 | taking a root's whole tree away leaves every other item with one owner, its links and its blocks |
| Reach.SeenExactly | cJSON.c:2706-2757 | the fields, texts and keys of a set of items are all live if and only if the items and the owners of the texts they show are still there |
| Reach.ReachesExactly | cJSON.c:1935-1954 | that is so for what the links lead to from an item if and only if the item is there and every reference on the way points at items that are |
| Reach.AnchoredFewer | cJSON.c:253-274 | taking items away leaves no reference dangling if and only if no remaining one points at them |
| Forest.World.constructor | cJSON.c:178-186 | nothing is live at the start |
| Forest.World.LiveExactly | cJSON.c:2706-2787 | in every state of a run, copying items reads live blocks only if and only if the items are there and the owners of the texts they show are |
| Forest.World.IntactExactly | cJSON.c:2706-2787 | for an item that is there this is so if and only if the references below it point at items that are, and always while no reference dangles |
| Forest.World.Parse | cJSON.c:1095-1172 | parsing adds a root with the parsed tree, or changes nothing |
| Forest.World.Create | cJSON.c:241-250 | a new item is a root of its own, without texts |
| Forest.World.CreateString | cJSON.c:2455-2470 | a new string item is a root of its own and owns a block with a copy of the text |
| Forest.World.AddItemToArray | cJSON.c:1956-1992 | appending a root keeps one owner per item, all lists and all blocks, and makes no reference dangle |
| Forest.World.AddItemToObject | cJSON.c:2011-2057 | the same with a key: the old key's block is given back, the new one's taken |
| Forest.World.CreateReference | cJSON.c:1935-1954 | a reference owns itself only and shows the children and the text of its original, whose owner may be a third item |
| Forest.World.AddItemReferenceToArray | cJSON.c:2059-2067 | a new reference to the item, with its contents, children and text, is appended; the item stays where it is |
| Forest.World.DetachItemViaPointer | cJSON.c:2187-2221 | a detached child is a root again |
| Forest.World.InsertItemInArray | cJSON.c:2263-2290 | inserting a root keeps one owner per item, all lists and all blocks |
| Forest.World.ReplaceItemViaPointer | cJSON.c:2292-2339 | replacing deletes exactly the old child's tree; what can be copied stays so if and only if it avoids that tree, and references dangle afterwards if and only if one of them points into it |
| Forest.World.NameOutlives | cJSON.c:2358-2363 | a name can be read after an item's key has been given back if and only if it is not that key |
| Forest.World.Rename | cJSON.c:2351-2368 | the old key's block is given back, then the name is read and copied |
| Forest.World.ReplaceItemInObject | cJSON.c:2351-2382 | the item is renamed in any case, and takes the place of the first child that answers to the name, which is deleted with its tree |
| Forest.World.Delete | cJSON.c:253-274 | deleting a root takes away exactly its tree and the blocks it owns; what can be copied stays so if and only if it avoids that tree, and references dangle afterwards if and only if one of them points into it |
| Forest.World.Duplicate | cJSON.c:2706-2787 | a copy of all that the links lead to, which must be intact, is a new root whose tree has no item in common with any other |
| Forest.FreedChild | cJSON.c:1935-1954 | a run after which copying a live reference would read a deleted item |
| Forest.FreedText | cJSON.c:1935-1954 | a run after which copying a live reference would read a deleted text |
| Checksum.TwoRoundsAreEnough | headers.c:54-55 | two folds suffice for every 32-bit sum |
| Checksum.FoldCarries | headers.c:54-55 | the folding loop ends within two rounds with the one's complement sum |
| Checksum.ComputeChecksum | headers.c:38-59 | the accumulating loop computes the wrapped word sum of any size from one byte on, odd tail included |
| Checksum.ReferenceIsOnesSum | headers.c:54-58 | end-around-carry addition, word by word, is one's complement of the plain sum |
| Checksum.FoldedRight | headers.c:38-59 | the code has the right one's complement sum if and only if its accumulator did not overflow |
| Checksum.StoredInNetworkOrder | headers.c:43-58 | on a little-endian host, for even and odd lengths, the stored bytes are those of RFC 1071 if and only if the accumulator did not overflow |
| Checksum.StoredOnBigEndianHost | headers.c:48-52 | on a big-endian host that is so, short of overflow, if and only if the length is even or the last byte zero |
| Checksum.NoOverflowBound | headers.c:43-46 | no buffer of a given length overflows if and only if the length is at most 131074 |
| Checksum.StoredChecksumVerifies | headers.c:38-59 | storing the checksum in an aligned zeroed field makes the checksum of the whole zero, for every length |
| Checksum.OnlyTheChecksumVerifies | headers.c:38-59 | no other stored word does, except the second zero of one's complement |
| Packet.Flags | headers.c:113-127 | summing the flag bits gives SYN alone |
| Packet.FillInIpHeader | headers.c:68-95 | the first twenty bytes become the IPv4 header |
| Packet.FillInTcpHeader | headers.c:104-134 | the next twenty become the TCP header |
| Packet.SumTcp | headers.c:165-185 | the TCP checksum over pseudo-header and header is stored in the header, and nothing else changes |
| Packet.SumIp | headers.c:186-186 | the same for the IP header |
| Packet.CreateSynPacket | headers.c:147-191 | the datagram is both headers with their checksums stored, and zeros behind |
| Packet.PacketVerifies | headers.c:147-191 | both layers of every packet verify, by the code's checksum and by that of RFC 1071 |
| Packet.PseudoFields | headers.c:165-170 | the pseudo-header by index: source, destination, zero, six, twenty |
| Packet.ReceiverSum | headers.c:147-191 | what a receiver adds up, both addresses, 6, 20 and the words of the TCP header, is all ones for every packet, and so is the sum of the IP header |
| Packet.NetworkOrder | headers.c:74-133 | numbers are stored with the highest byte first |
| Packet.HostDoesNotMatter | headers.c:147-191 | hosts of either byte order build the same packet |
| Packet.PacketFields | headers.c:68-134 | every field of both headers but the checksums, byte by byte and in numerals |
| Receive.TraceExactly | compdetect.c:95-99 | the runs considered are those over any packets of 1024 bytes, or missing ones, with enough clock readings |
| Receive.RstExactly | compdetect.c:101-104 | behind twenty bytes of IP header a packet counts as an RST if and only if bit 2 of byte 13 of its TCP header is set |
| Receive.SynIsNoRst | compdetect.c:101-104 | the SYN packet that the program builds does not count as one |
| Receive.Differences | util.c:118-138 | both differences truncate the microseconds of each stamp to their unit before they subtract |
| Receive.ReceiveRoutine | compdetect.c:85-154 | every run ends in one described way: a delta only over the four stamps of the first four RSTs, insufficient information only when the time was up before a fourth |
| Receive.EndsOnce | compdetect.c:96-149 | the described endings exclude each other |
| Receive.GapDecides | util.c:118-123 | what the truncated difference says about true gaps |
| Receive.DetectionBounds | compdetect.c:139-148 | exactly from threshold plus 1.999 ms on a true gap is always detected, exactly up to threshold minus 0.999 ms never |
| Receive.SilenceBounds | util.c:133-138 | silence of a second beyond the timeout always times out, silence within the timeout never |
| Receive.StampsOrdered | compdetect.c:110-131 | with a clock that never goes back the stamps are in order |
| Receive.RunDetects | compdetect.c:96-149 | a run's verdict against the true gap of the four timed RSTs: from threshold plus 2 ms detected, up to threshold minus 1 ms not |

## Left out

- Floating-point rounding, `%1.15g`/`%1.17g` output, infinities, NaN and locale decimal points: numerals are read as exact decimal fractions, and only C `int` values are printed.
- Printer.PrintBuffer.PrintNumber: numbers that are no C `int`.
- Printer.PrintBuffer.PrintValue: `cJSON_Raw` is left out, since it prints arbitrary text, and numbers that are no C `int`.
- Printer.Print: likewise.
- Printer.PrintPreallocated: likewise.
- Printer.PrintBuffered: a first size of 0 needs a reallocation function; without one the source copies a byte out of an empty block. `cJSON_Raw` and numbers that are no C `int` as above.
- Parsing.ParseWithLengthOpts: buffers end in NUL, as `cJSON_ParseWithOpts` provides them; a NULL input and lengths without terminator are left out.
- Failing allocations and user hooks: every allocation succeeds, so the branches that clean up after a failure are left out.
- MinifyMeaning.MinifyKeepsMeaning: goes one way; a misread string may by chance leave a text with the same meaning, so for whole texts no condition short of minifying is exact. For one string in any document MinifySafeExactly is, for printouts MinifyPrinted.MinifyFormattedExactly.
- ComparingTrees.Compare: for trees that share items it is stated for values that give no key two meanings; `cJSON_Raw` is left out.
- Ownership.MirrorHolds: the texts and keys in the value are taken to be C strings, as the fields that hold them are.
- Ownership.Duplicate: a finite tree below the item is given; a cycle of links, for which the source does not end, has none.
- Forest.World.Delete: a finite tree below the item is given; appending an item below itself is not refused by the source and makes none.
- Forest.World.AddItemToArray: the receiving item is not a reference; the source does not check that.
- Forest.World.AddItemToObject: likewise.
- Forest.World.AddItemReferenceToArray: likewise.
- Forest.World.DetachItemViaPointer: the parent is not a reference.
- Forest.World.InsertItemInArray: likewise.
- Forest.World.ReplaceItemViaPointer: likewise.
- Forest.World.ReplaceItemInObject: likewise.
- Forest.World.Duplicate: the only operation of a run that follows references; printing and comparing are not among them and would read the same blocks.
- ChildLists.ReplaceItemViaPointer: about links only; the deletion of the replaced item is in Forest.World.ReplaceItemViaPointer.
- TreeLists.ReplaceItemViaPointer: about the values held; the deletion is in Forest.World.ReplaceItemViaPointer.
- TreeLists.ReplaceItemInArray: likewise.
- TreeMaps.AddItemToObject: about the map held; giving back the old key is in Forest.World.AddItemToObject.
- TreeMaps.ReplaceItemInObject: about the map held; the blocks and the name as a pointer are in Forest.World.ReplaceItemInObject.
- RawTexts.PiecesOfRaw: behind a misspelled `\u` it says nothing, since the bytes there do not reach the value; StringTextsExactly says which of them are accepted.
- Packet.CreateSynPacket: the length is at least 40, which the source does not check; the random sequence number is a parameter.
- Receive.RstExactly: the source takes the IP header to have twenty bytes; with options in it byte 33 is another one.
- Receive.ReceiveRoutine: received packets and clock readings are parameters, and milliseconds are integers, which doubles represent exactly at this size. Freeing the receive buffer is left out.
- Sockets, threads, `main`, configuration fields, payload creation, packet output and logging: input and output around the modelled core.
- `cJSON_SetValuestring`, `cJSON_SetNumberHelper`: texts and numbers of existing items do not change in a run.
- `cJSON_Is*`, scalar `cJSON_Create*` and the `cJSON_Add*ToObject` wrappers: one-branch functions.
