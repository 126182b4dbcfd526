# Verified models of SciDB components

A Dafny model of the parts of SciDB 19.3 that carry the most logic of their own, with proofs of what
they promise:

* the JSON reader and writers of `extern/lib_json`: parsing what either writer prints gives the value
  back, for every value; a text the reader accepts means the value it returns, by a grammar that does
  not speak of the reader, and every text of that grammar with commas and whitespace is accepted; styled
  output differs from compact output in whitespace only, and where it breaks and indents its lines is
  proved from the text alone; the reader ends on every input, reports success exactly when it recorded
  no error, and puts its error where the text is at fault;
* the k-d tree of `kdTree_old`: building, nearest point and neighbourhood search with pruning;
* the neighbour joins of `examples/match` and `examples/bestmatch`: the hashed grid index, the exact
  set of matches, the emission of result chunks, their composition, and the busy/wait protocol that
  lets one thread build a result for many: safety over every interleaving, and every call returns in
  every fair run;
* the chunk keys of `include/array`: one order, its reference description and the versioned lookup;
* the batch allocator of `extern/lib_json`: a bump pointer with a free list threaded through its slots;
* the server entries of `utils/scidb_config.py`: instance lists, their text and their updates.

State that the source updates in place is modelled by classes and arrays: the reader's cursor, node
stack and error list, the writers' document and scratch buffer, the sorted array of the k-d tree, the
hash table's chains, the allocator's pointers. Each method is proved against a function or predicate
of the old state. The laws are then proved about those.

| file | models |
|---|---|
| `Basics.dfy`, `Decimal.dfy` | optional values, word sizes; decimal numerals |
| `JsonValue.dfy`, `JsonText.dfy` | value tree, 64-bit integers, member order; token texts, spacing, stripping |
| `JsonGrammar.dfy`, `JsonReader.dfy` | the reader as functions of the text still to be read; the reader with its state |
| `JsonWriter.dfy` | both writers |
| `JsonNumbers.dfy`, `JsonNumberGrammar.dfy`, `JsonUnicode.dfy`, `JsonRoundTrip.dfy`, `JsonShape.dfy`, `JsonLaws.dfy`, `JsonReparse.dfy` | the laws |
| `JsonDenotes.dfy` | what a text means, without the reader |
| `JsonTokenShape.dfy`, `JsonAccepted.dfy`, `JsonComplete.dfy`, `JsonErrors.dfy`, `JsonDetails.dfy` | accepted texts mean the value; texts that mean a value are accepted; errors; escapes, comments, recovery |
| `JsonLayout.dfy`, `JsonIndent.dfy` | a reference printer by lines; indentation |
| `JsonSeparators.dfy`, `JsonSeparatorInputs.dfy` | what passes for a comma |
| `KdTree.dfy` | the k-d tree |
| `MatchHash.dfy`, `MatchCount.dfy`, `MatchChunk.dfy`, `BestMatch.dfy`, `MatchProtocol.dfy`, `MatchLiveness.dfy` | the joins |
| `AddressKeys.dfy`, `BatchAllocator.dfy`, `ServerConfig.dfy` | keys, allocator, server entries |

## Where the code differs from what it says

* `decodeNumber` says that a number beyond the largest integer is decoded as a double. Its guard has a
  gap: `18446744073709551620` is read as the integer 4 (`JsonNumbers.SlipExample`).
  `JsonNumbers.DecodeUnsignedExact` and `DecodeSignedExact` show that the statement holds if and only
  if the digits are outside the gap `Slips`.
* By section 6 of RFC 8259 a number has a digit and no superfluous leading zero. An integer token breaks
  this if and only if it is a lone minus sign or has a zero before another digit
  (`JsonNumberGrammar.IntegerTokenIff`), and the reader refuses none of them
  (`JsonNumberGrammar.NoneRefused`): `-` is read as 0, `01` as 1 and `-01` as -1
  (`JsonNumbers.LoneMinus`, `JsonNumberGrammar.LeadingZeroRead`).
* `readArray` tests for a missing separator with a condition that cannot be true
  (`extern/lib_json/json_reader.cpp:536-537`), so any token but the closing bracket passes for a comma:
  `[1 2 3]` is read without error as `[1, 3]`, and so at any depth
  (`JsonSeparatorInputs.NumberPassesForComma`, `JsonSeparatorInputs.NestedPassesForComma`). `readObject`
  does the same behind a comment: `{"a":1/**/2"b":3}` loses the 2
  (`JsonSeparatorInputs.MemberPassesForComma`). The reader does what a reader with the announced tests
  would if and only if every separator it meets, in every array and object, is a comma
  (`JsonSeparators.StrictIff`, `JsonSeparators.DocumentIff`).
* The reader takes more liberties with RFC 8259, all of them written into `JsonDenotes`: a number may be
  any run of number characters that the C library scans; control characters may stand unescaped; a lone
  low surrogate is taken for a character, and any word behind a high surrogate for a low one; behind a
  member with the empty name a comma may end the object; the text behind the first value is not looked
  at. An accepted text uses no others (`JsonAccepted.ParsedMeans`). On the other side it refuses a comment in
  an empty array and between a name and its colon (`JsonDetails.CommentInEmpty`,
  `JsonDetails.CommentBeforeColon`).
* `findBestMatch` is meant to record a nearest position within the error. Its distances are 64-bit
  words, and with the source's own hash a position far away can win (`BestMatch.FarPositionWins`).
  From an error of 2^32 on the squared error wraps too, and a position within it is lost
  (`BestMatch.LargeErrorLoses`). `BestMatch.BestIsNearestIff` gives the exact condition for every hash
  and every error, and `BestMatch.BestIsNearestBelow` its simpler form below 2^32.
* A build that throws in `findMatch` leaves its object busy. A sleeper can return if and only if its
  object still has a builder (`MatchProtocol.ReturnsIff`), and a throw does strand one
  (`MatchProtocol.ThrowStrands`).
* `KeyMax` is called the maximum possible key. It is above every key of its store that has a dimension,
  and exactly which others it is above is `AddressKeys.MaxAboveAll`.
* The batch allocator stays inside a page if and only if the page holds a whole number of slots
  (`BatchAllocator.InsideIff`, `BatchAllocator.Overrun`). Its constructor does not ask for that, and the
  allocator of array pages, with 8 values a slot (`extern/lib_json/value.h:723`,
  `extern/lib_json/json_internalarray.inl:143`) and the default of 255 objects a page, does not meet it
  (`BatchAllocator.ArrayPagesOverrun`).
* A neighbourhood query tests for a distance of at most the radius, but its pruning may skip points at
  exactly the radius (`KdTree.RadiusLoses`). It returns a point within the radius if and only if the
  point is not masked: on the other side of the splitting plane of some node, in that plane, and exactly
  the radius away on its axis (`KdTree.KDTree.NeighborhoodIndices`). So a point within the radius is
  found if no other point shares a coordinate on which it is exactly the radius away.
* A match is recorded once for each near cell whose hash is that of the pattern item's cell. With the
  source's hash two near cells can hash alike, and the match is recorded twice
  (`MatchCount.RecordedTwice`); it is recorded once if and only if one near cell has the hash
  (`MatchCount.RecordedOnceIff`).
* The documentation of `parseServerInstanceIds` asks for `0<n<m<p<q<s`. The code also takes an `n` of 0
  and ranges of one id (`ServerConfig.ParseServerInstanceIds`).
* A printed server entry is read back if and only if its id is not negative and its host has no comma
  (`ServerConfig.PrintThenRead`).

## Assumptions

* Printing and scanning of `double` (`sprintf`, `sscanf`) are a parameter, `Libc`. Round trips ask of it
  only that each real in the tree is printed as a number token with a fraction or exponent and scanned
  back exactly (`ExactReals`); a tree without reals asks nothing. The laws about the written text alone
  ask only that a real is printed without whitespace and quotes (`PlainReals`), and the indentation law
  that it is printed without brackets too (`TameReals`).
* Characters stand for bytes. The text to be read is that of a `std::string`, so that a NUL stands
  behind its end. Signed overflow is two's complement. Shifts and masks are written as arithmetic.
* Coordinates of the joins are mathematical integers: `pos - error` and `pos + error` do not overflow.
  The error is not zero, because the source divides by it. The hash step is a parameter, so the joins
  are right for every hash; `HashStep` is the source's.
* k-d coordinates are real numbers, without rounding, and points have at least one dimension.
* In the protocol each critical section is one step, a signal wakes every sleeper (`src/util/Event.cpp`
  broadcasts), and sleepers may wake without a signal.
* Python's `int` is a parameter that reads back decimal numerals and refuses the empty string.

## Model

| member | source | states |
|---|---|---|
| `JsonLaws.WriteThenParse` | extern/lib_json/json_writer.cpp:187-253 | Writing any value with the compact writer and parsing the text gives the value back, up to a small unsigned integer coming back signed; the parse succeeds unless a strict root forbids a scalar |
| `JsonLaws.StyleThenParse` | extern/lib_json/json_writer.cpp:266-338 | The same for the styled writer, whose text without whitespace outside strings is the compact text |
| `JsonLaws.FastRoundTrip` | extern/lib_json/json_reader.cpp:121-212 | The grammar reads compact text, with or without the YAML blanks, back to the value, with nothing left over |
| `JsonLaws.StyledRoundTrip` | extern/lib_json/json_reader.cpp:121-212 | The grammar reads styled text back to the value, with nothing left over |
| `JsonLaws.StyledStripsToFast` | extern/lib_json/json_writer.cpp:266-432 | For every tree, whether or not its reals scan back, styled output without the whitespace outside its strings is compact output without its newline |
| `JsonLaws.FastSpaced` | extern/lib_json/json_writer.cpp:197-253 | Compact text is the token sequence of the value with whitespace between tokens only |
| `JsonLaws.FastExact` | extern/lib_json/json_writer.cpp:197-253 | Without YAML compatibility it is the tokens and nothing else |
| `JsonLaws.StyledSpaced` | extern/lib_json/json_writer.cpp:280-391 | Styled text is the same token sequence with whitespace between tokens only, at every indentation and after every document prefix |
| `JsonLaws.TokensKept` | extern/lib_json/json_writer.cpp:101-162 | Every token survives the removal of whitespace outside strings |
| `JsonAccepted.ParsedMeans` | extern/lib_json/json_reader.cpp:121-161 | If a document is parsed without errors, some prefix of it is laid out from the lexemes of a syntax tree of the grammar, with whitespace and comments between, and the value of that tree is the result |
| `JsonAccepted.ParseMeans` | extern/lib_json/json_reader.cpp:121-161 | The same of the reader with its state: when it reports success, a prefix of the text denotes the result |
| `JsonAccepted.ValueSound` | extern/lib_json/json_reader.cpp:164-212 | A value read without errors is that of a tree whose lexemes, laid out, are exactly the text consumed |
| `JsonAccepted.ItemsSound` | extern/lib_json/json_reader.cpp:508-548 | The array loop has read the items of such trees, in order, with some token between |
| `JsonAccepted.FieldsSound` | extern/lib_json/json_reader.cpp:449-505 | The object loop has read the members of such fields, the last one counting where names repeat |
| `JsonTokenShape.TokenRead` | extern/lib_json/json_reader.cpp:243-315 | The text is whitespace, the token's text and the rest; the token's text has the form of its kind: the word, the punctuation mark, a string up to its first free quote, number characters, a whole comment |
| `JsonTokenShape.StringPieces` | extern/lib_json/json_reader.cpp:641-740 | A string token that decodes is made of characters, short escapes, words and pairs, and decodes to what they mean one after the other |
| `JsonTokenShape.NumberRead` | extern/lib_json/json_reader.cpp:551-600 | A number token is read as the integer its digits denote, up to a multiple of 2^64 in the gap, or as the C library scans it |
| `JsonComplete.MeansParsed` | extern/lib_json/json_reader.cpp:121-161 | Every tree of the grammar with commas between its items and members, laid out with any whitespace, is parsed to its value, with nothing left over and no error but that of a strict root |
| `JsonComplete.TreeRead` | extern/lib_json/json_reader.cpp:164-212 | Such a tree is read to its value wherever it stands, and reading stops at the lexemes behind it |
| `JsonComplete.BodyDecodes` | extern/lib_json/json_reader.cpp:641-740 | Every sequence of characters, short escapes, words and pairs decodes to its meaning |
| `JsonComplete.NumberDecodes` | extern/lib_json/json_reader.cpp:551-600 | Every number token that means a value is read as that value |
| `JsonErrors.ErrorsTold` | extern/lib_json/json_reader.cpp:121-161 | A document's value has at most one error, and the text from its place on shows what it says: no value starts there, no string, no colon, neither comma nor brace, or a number or string that does not decode; the error about a strict root comes last, exactly for scalars |
| `JsonErrors.ValueTold` | extern/lib_json/json_reader.cpp:743-797 | The same for every value at every depth |
| `JsonDetails.EscapeMeans` | extern/lib_json/json_writer.cpp:101-162 | What is printed for a character is a piece of a JSON string that means it |
| `JsonDetails.EscapeShortest` | extern/lib_json/json_writer.cpp:101-162 | No piece that means the character is shorter |
| `JsonDetails.CommentSkipped` | extern/lib_json/json_reader.cpp:215-230 | Where comments are allowed, a comment before a value changes nothing |
| `JsonDetails.CommentRefused` | extern/lib_json/json_reader.cpp:215-230 | Where they are not, it is an error |
| `JsonDetails.CommentInEmpty` | extern/lib_json/json_reader.cpp:512-519 | A comment in an empty array is an error |
| `JsonDetails.CommentBeforeColon` | extern/lib_json/json_reader.cpp:471-478 | So is one between a name and its colon, reported as a missing colon |
| `JsonDetails.RecoverStops` | extern/lib_json/json_reader.cpp:757-771 | Recovery stops behind the first token of the awaited kind, or at the end of the text |
| `JsonRoundTrip.ParseSpaced` | extern/lib_json/json_reader.cpp:121-161 | A document that is the tokens of a value with any whitespace between them is parsed to that value |
| `JsonRoundTrip.ReadsBack` | extern/lib_json/json_reader.cpp:164-212 | Reading a value from its spaced tokens gives the value, no errors, and stops at the tokens behind it |
| `JsonRoundTrip.ReadsItems` | extern/lib_json/json_reader.cpp:508-548 | The array loop appends exactly the items and stops behind the closing bracket |
| `JsonRoundTrip.ReadsMembers` | extern/lib_json/json_reader.cpp:449-505 | The object loop adds exactly the members, in key order, and stops behind the closing brace |
| `JsonRoundTrip.ScanQuoted` | extern/lib_json/json_reader.cpp:433-446 | Scanning a quoted string stops exactly at whatever follows its closing quote |
| `JsonRoundTrip.DecodeEscaped` | extern/lib_json/json_reader.cpp:641-685 | Decoding inverts escaping on every string |
| `JsonRoundTrip.ReadQuoted` | extern/lib_json/json_reader.cpp:243-315 | A quoted string is one string token that decodes to the string |
| `JsonNumbers.DecodeAllDigits` | extern/lib_json/json_reader.cpp:577-592 | For every digit string the loop gives its value modulo 2^64 when the value is in range or in the gap, and gives up otherwise |
| `JsonNumbers.DecodeUnsignedExact` | extern/lib_json/json_reader.cpp:551-600 | A token of digits is read exactly or handed to the double scanner, if and only if it is outside the gap; every number in range is read exactly |
| `JsonNumbers.DecodeSignedExact` | extern/lib_json/json_reader.cpp:551-600 | The same for a minus sign and digits, down to -2^63, no digits counting as zero |
| `JsonNumbers.LoneMinus` | extern/lib_json/json_reader.cpp:566-600 | A minus sign alone is read as 0 |
| `JsonNumbers.SlipExample` | extern/lib_json/json_reader.cpp:565-592 | A number beyond the largest integer that is read as 4 |
| `JsonNumbers.DecodeIntText` | extern/lib_json/json_writer.cpp:32-54 | Reading a number inverts printing it on every 64-bit integer, signed or unsigned |
| `JsonNumberGrammar.IntegerTokenIff` | extern/lib_json/json_reader.cpp:553-569 | An integer token is a number by section 6 of RFC 8259 if and only if it is not a lone minus sign and has no leading zero |
| `JsonNumberGrammar.NoneRefused` | extern/lib_json/json_reader.cpp:551-600 | No integer token is refused, whether or not it is such a number; up to 2^63 it is read as the value of its digits |
| `JsonNumberGrammar.LeadingZeroRead` | extern/lib_json/json_reader.cpp:575-600 | Two tokens with a leading zero that are read |
| `JsonSeparators.StrictIff` | extern/lib_json/json_reader.cpp:449-548 | A value is read as by the reader with the announced separator tests in every array and object, if and only if every separator met, at every depth, is a comma |
| `JsonSeparators.DocumentIff` | extern/lib_json/json_reader.cpp:121-161 | The same for a document; otherwise that reader reports an error |
| `JsonSeparators.CommaCompared` | extern/lib_json/json_reader.cpp:485-500 | The test behind a member is right if and only if a comment there is followed by a comma or the closing brace |
| `JsonSeparators.ValueErrors` | extern/lib_json/json_reader.cpp:743-754 | Every error stands in the text that was read |
| `JsonSeparatorInputs.NumberPassesForComma` | extern/lib_json/json_reader.cpp:536-543 | A list without commas is read without error and loses an item; the announced test would report it |
| `JsonSeparatorInputs.NestedPassesForComma` | extern/lib_json/json_reader.cpp:536-543 | The same in an array inside another |
| `JsonSeparatorInputs.MemberPassesForComma` | extern/lib_json/json_reader.cpp:495-500 | An object in which a number behind a comment passes for a comma |
| `JsonReparse.ReparseSame` | extern/lib_json/json_reader.cpp:121-161 | What any text without error parses to, if it holds no reals, is what parsing the output of either writer for it gives |
| `JsonReparse.ReadSettled` | extern/lib_json/json_reader.cpp:593-600 | Every value read holds unsigned integers only beyond the signed range |
| `JsonUnicode.Utf8WellFormed` | extern/lib_json/json_tool.h:18-53 | The bytes written for a Unicode scalar value are well-formed UTF-8 by section 4 of RFC 3629 and denote it |
| `JsonUnicode.Utf8Unique` | extern/lib_json/json_tool.h:18-53 | They are the only well-formed bytes that do |
| `JsonUnicode.DecodeOne` | extern/lib_json/json_reader.cpp:687-740 | One escape, a word or a surrogate pair in either case of digits, decodes to the UTF-8 form of its scalar value |
| `JsonUnicode.DecodeEscapes` | extern/lib_json/json_reader.cpp:641-740 | Any string of such escapes decodes to the UTF-8 form of its scalar values |
| `JsonShape.StoreSorted` | extern/lib_json/json_value.cpp:1004-1025 | Storing a member keeps the keys in strictly increasing order |
| `JsonShape.StoreLookup` | extern/lib_json/json_value.cpp:1004-1025 | A stored key reads back its value and no other key changes |
| `JsonShape.ReadWellFormed` | extern/lib_json/json_reader.cpp:164-212 | Every value the reader builds, also on malformed text, keeps its members in order |
| `JsonValue.KeyLessTotal` | extern/lib_json/json_value.cpp:170-176 | Any two distinct keys are ordered one way |
| `JsonValue.KeyLessTransitive` | extern/lib_json/json_value.cpp:170-176 | The key order is transitive |
| `JsonValue.KeyLessIff` | extern/lib_json/json_value.cpp:170-176 | A key is less if it is a proper prefix or has the smaller character at the first difference, and only then |
| `JsonWriter.UIntToString` | extern/lib_json/json_tool.h:78-89 | The buffer receives the decimal numeral and a NUL, in at most 21 characters, and nothing below is touched |
| `Decimal.NumeralShortest` | extern/lib_json/json_tool.h:78-89 | No digit string that denotes the number is shorter than its numeral |
| `JsonWriter.ValueToStringInt` | extern/lib_json/json_writer.cpp:32-44 | The text of every signed integer is its sign and shortest numeral, the smallest integer included |
| `JsonWriter.ValueToStringUInt` | extern/lib_json/json_writer.cpp:47-54 | The text of every unsigned integer is its shortest numeral |
| `JsonWriter.NeedsEscape` | extern/lib_json/json_writer.cpp:22-30 | Found if and only if some character's escaped form differs from it |
| `JsonWriter.ValueToQuotedString` | extern/lib_json/json_writer.cpp:101-162 | Fast and slow path both give the quotes around the character-wise escapes |
| `JsonWriter.FastWriter.Write` | extern/lib_json/json_writer.cpp:187-194 | Any earlier document is discarded; the result is the compact text and a newline |
| `JsonWriter.FastWriter.WriteValue` | extern/lib_json/json_writer.cpp:197-253 | The document becomes the one the compact-text function gives from the old document |
| `JsonWriter.StyledWriter.Write` | extern/lib_json/json_writer.cpp:266-277 | Whatever state an earlier call left, the result is the styled text and a newline |
| `JsonWriter.StyledWriter.WriteValue` | extern/lib_json/json_writer.cpp:280-338 | Writes the styled text, or, while measuring, pushes one flat text and leaves the document alone; the indentation is restored |
| `JsonWriter.StyledWriter.WriteArrayValue` | extern/lib_json/json_writer.cpp:341-391 | The array's styled text, although nested arrays overwrite the scratch buffer |
| `JsonWriter.StyledWriter.WriteLines` | extern/lib_json/json_writer.cpp:349-374 | One item per line, the same from the scratch buffer as without it |
| `JsonWriter.StyledWriter.IsMultilineArray` | extern/lib_json/json_writer.cpp:394-422 | Exactly when an item is nested, items are too many or the line too long; whenever the scratch buffer is left non-empty it holds one text per item |
| `JsonWriter.StyledWriter.WriteIndent` | extern/lib_json/json_writer.cpp:435-447 | The document with a fresh indented line, except behind a blank |
| `JsonWriter.StyledWriter.PushValue` | extern/lib_json/json_writer.cpp:425-432 | One entry for the scratch buffer or a suffix for the document, never both |
| `JsonLayout.StyledLines` | extern/lib_json/json_writer.cpp:266-391 | The styled text is the lines of the reference printer, each indented by three blanks per level |
| `JsonLayout.NarrowIff` | extern/lib_json/json_writer.cpp:394-422 | An array is broken into lines unless it has at most 24 items, all scalars or empty, and its one line is shorter than 74 characters |
| `JsonLayout.OneLineText` | extern/lib_json/json_writer.cpp:376-389 | Then it is written on one line: its items between brackets, with a comma and a blank between |
| `JsonLayout.MemberOwnLine` | extern/lib_json/json_writer.cpp:300-338 | Every member starts a line of its own, one level deeper, with its name |
| `JsonLayout.ItemOwnLine` | extern/lib_json/json_writer.cpp:349-374 | Every item of an array that holds a non-empty container starts a line of its own, one level deeper |
| `JsonLayout.FastIsCompact` | extern/lib_json/json_writer.cpp:197-253 | Compact text is the items and members between commas, with a blank behind the colon exactly for YAML |
| `JsonIndent.Indentation` | extern/lib_json/json_writer.cpp:435-447 | No line break is inside a string, and behind every one stand exactly three blanks for each bracket open there, not counting one that the next character closes |
| `JsonIndent.WriteIndented` | extern/lib_json/json_writer.cpp:266-277 | The same of what the writer returns, whatever it wrote before |
| `JsonReader.Reader.Parse` | extern/lib_json/json_reader.cpp:121-161 | Ends on every text with the grammar's value, errors and remaining text; the node stack holds the root alone; success if and only if the error list is empty |
| `JsonReader.Reader.ReadValue` | extern/lib_json/json_reader.cpp:164-212 | The top node and error list become the grammar's; the nodes below and the stack's depth are kept on success and on error; true if and only if no error was added |
| `JsonReader.Reader.ReadObject` | extern/lib_json/json_reader.cpp:449-505 | The same for an object, with recovery to its closing brace |
| `JsonReader.Reader.ReadArray` | extern/lib_json/json_reader.cpp:508-548 | The same for an array, with recovery to its closing bracket |
| `JsonReader.Reader.ReadToken` | extern/lib_json/json_reader.cpp:243-315 | The grammar's token at its place; every token but the end of the stream advances the cursor, which stays in the text |
| `JsonReader.Reader.SkipCommentTokens` | extern/lib_json/json_reader.cpp:215-230 | The next token that is no comment when comments are allowed, the next token otherwise |
| `JsonReader.Reader.Match` | extern/lib_json/json_reader.cpp:332-344 | Comparing backwards finds the word exactly when it is next, and only then advances |
| `JsonReader.Reader.ReadComment` | extern/lib_json/json_reader.cpp:347-372 | The extent of a comment of either style, and failure for an unfinished one |
| `JsonReader.Reader.RecoverFromError` | extern/lib_json/json_reader.cpp:757-771 | Stops behind the awaited token or at the end, and the errors met on the way are dropped |
| `JsonReader.Reader.AddErrorAndRecover` | extern/lib_json/json_reader.cpp:774-781 | Adds exactly one error and recovers |
| `JsonReader.Reader.DecodeNumber` | extern/lib_json/json_reader.cpp:551-600 | The top node becomes the number, or one error is added and it is kept |
| `JsonReader.Reader.DecodeInteger` | extern/lib_json/json_reader.cpp:575-592 | The digit loop computes the specified number or gives up |
| `JsonReader.Reader.DecodeString` | extern/lib_json/json_reader.cpp:641-685 | The decoded body, or exactly one error, the first |
| `JsonReader.Reader.DecodeUnicodeCodePoint` | extern/lib_json/json_reader.cpp:687-715 | The code point of one word or a surrogate pair and the place behind it, or one error |
| `JsonReader.Reader.DecodeUnicodeEscapeSequence` | extern/lib_json/json_reader.cpp:717-740 | The value of four hexadecimal digits and the place behind them, or one error |
| `JsonGrammar.ReadToken` | extern/lib_json/json_reader.cpp:243-315 | Every token but the end of the stream consumes text |
| `JsonGrammar.ReadValue` | extern/lib_json/json_reader.cpp:164-212 | Reading never lengthens the text and, without errors, shortens it |
| `KdTree.ComputeDist2` | kdTree_old/kdTree.cpp:68-75 | The loop gives the sum of squared coordinate differences |
| `KdTree.OneCoordinate` | kdTree_old/kdTree.cpp:68-75 | A point is at distance zero from itself, and moving one coordinate changes the squared distance by the difference of the squares on that axis |
| `KdTree.SortOnIdx` | kdTree_old/kdTree.cpp:89-99 | The range is rearranged and sorted on the axis; the rest of the array is kept |
| `KdTree.MakeTree` | kdTree_old/kdTree.cpp:103-143 | In order, the tree's items are the range it leaves; it is ordered on the level's axis at every node in spite of the later sorts, and of height h with 2^(h-1) at most its size |
| `KdTree.Halves` | kdTree_old/kdTree.cpp:114-139 | Sorting the halves again keeps smaller items before and larger items behind the middle |
| `KdTree.KDTree.constructor` | kdTree_old/kdTree.cpp:145-160 | Every point is stored with its index exactly once |
| `KdTree.KDTree.Stored` | kdTree_old/kdTree.cpp:145-160 | A stored item is an input point under its own index, and every input point is stored |
| `KdTree.BeyondPlane` | kdTree_old/kdTree.cpp:194-213 | A point beyond the splitting plane is at least as far away as the plane, so pruning loses nothing |
| `KdTree.NearestBranch` | kdTree_old/kdTree.cpp:162-225 | The better of the best so far and the nearest item of the branch, in spite of pruning |
| `KdTree.KDTree.Nearest` | kdTree_old/kdTree.cpp:228-237 | A stored point with its index, no farther from the query than any point; the empty node for an empty tree |
| `KdTree.NeighborhoodBranch` | kdTree_old/kdTree.cpp:251-297 | Items within the radius that are not straight along an axis at exactly the radius, as often as they are stored; none beyond it; and of all items exactly those visited and within the radius |
| `KdTree.KDTree.NeighborhoodIndices` | kdTree_old/kdTree.cpp:318-328 | An index is returned if and only if its point is within the radius and not masked; so every point strictly closer, every point no other point shadows, none farther, and none twice |
| `KdTree.VisitedIff` | kdTree_old/kdTree.cpp:278-294 | In a tree without repeated items an item within the radius is visited if and only if it is not masked |
| `KdTree.MaskedBy` | kdTree_old/kdTree.cpp:281-291 | A masked point shares with some other point a coordinate on which it is exactly the radius away |
| `KdTree.RadiusLoses` | kdTree_old/kdTree.cpp:289-294 | A tree and a query that miss a point at exactly the radius |
| `MatchHash.TruncDivMonotone` | examples/match/MatchArray.cpp:57-58 | Truncating division is monotone, across zero too |
| `MatchHash.TruncDivExact` | examples/match/MatchArray.cpp:57-58 | The remainder of the division is smaller than the divisor and has the sign of the dividend |
| `MatchHash.CellBetween` | examples/match/MatchArray.cpp:57-58 | The cell of a position within the error lies between the cells of the two ends, for either sign of the error |
| `MatchHash.NeighborCell` | examples/match/MatchArray.cpp:55-71 | A neighbour's cell hash is among the hashes an entry is filed under, for every hash step |
| `MatchHash.GetCatalogHash` | examples/match/MatchArray.cpp:220-227 | The loop computes the hash that filing uses for the position's own cell |
| `MatchHash.IsNeighbor` | examples/match/MatchArray.cpp:229-236 | True if and only if every coordinate differs by at most the error |
| `MatchHash.Table.Add` | examples/match/MatchArray.cpp:67-68 | One record is prepended to the chain of its hash; the other chains are kept |
| `MatchHash.Table.AddCatalogEntry` | examples/match/MatchArray.cpp:55-71 | The entry is added once for every cell near it, under that cell's hash, and under no other |
| `MatchHash.IndexCatalog` | examples/match/MatchArray.cpp:263-269 | The table holds exactly the catalog's positions, each under all its near cells, with their multiplicity |
| `MatchHash.MatchItem` | examples/match/MatchArray.cpp:280-285 | Adds exactly the records of the chain that carry the hash and are neighbours, as often as they occur |
| `MatchHash.FindMatches` | examples/match/MatchArray.cpp:259-288 | The positions under pattern item n are exactly the catalog positions within the error on every coordinate, each as often as it was filed under the hash of the item's cell |
| `MatchCount.RecordedOnceIff` | examples/match/MatchArray.cpp:273-286 | A neighbour the catalog holds once is recorded once if and only if exactly one cell near it has the hash of the item's cell |
| `MatchCount.FiledOnceIff` | examples/match/MatchArray.cpp:55-71 | A position is filed once under a hash if and only if exactly one cell near it has that hash |
| `MatchCount.FilingAllCount` | examples/match/MatchArray.cpp:264-269 | A catalog files a position as often as it holds it, each time under all its near cells |
| `MatchCount.RecordedTwice` | examples/match/MatchArray.cpp:280-285 | With the source's hash, a match that is recorded twice |
| `MatchChunk.Find` | examples/match/MatchArray.cpp:73-81 | The rest of the chain from the item's first record on, which loses none of its records; nothing if it has none |
| `MatchHash.FindMatch` | examples/match/MatchArray.cpp:257-288 | The result is initialized if and only if both arrays have the chunk, and then holds exactly the neighbours, with their multiplicity |
| `MatchChunk.WritePattern` | examples/match/MatchArray.cpp:104-120 | The loop for a pattern attribute writes the cells of all matches, or throws exactly when an item has more than fit |
| `MatchChunk.WriteCatalog` | examples/match/MatchArray.cpp:123-143 | The same for a catalog attribute, which also throws exactly when a match has no catalog cell |
| `MatchChunk.WriteCoordinate` | examples/match/MatchArray.cpp:146-165 | The same for a coordinate of the match |
| `MatchChunk.WriteBitmap` | examples/match/MatchArray.cpp:167-185 | The same for the bitmap |
| `MatchChunk.CellsExact` | examples/match/MatchArray.cpp:100-187 | A cell is written if and only if it is slot j of an item with more than j matches and holds the value for the item's j-th match |
| `MatchChunk.CellAt` | examples/match/MatchArray.cpp:100-187 | The place and the match of the i-th cell do not depend on the attribute |
| `MatchChunk.PlacesOnce` | examples/match/MatchArray.cpp:103-120 | No place is written twice when the pattern's positions are distinct |
| `MatchChunk.GetChunk` | examples/match/MatchArray.cpp:83-190 | For every attribute the chunk holds those cells; the guard on the catalog chunk never fails on an initialized result; it throws if and only if some item has more matches than the collision dimension, and every slot written is inside that dimension |
| `MatchChunk.GetTwoChunks` | examples/match/MatchArray.cpp:100-187 | Any two attributes, each written by its own loop, throw together or write the same places in the same order |
| `MatchChunk.MatchesExact` | examples/match/MatchArray.cpp:73-81 | The matches of an item are exactly the positions recorded under it, although items share chains |
| `MatchChunk.JoinChunk` | examples/match/MatchArray.cpp:83-190 | Search and emission together: for every attribute the chunk shows at each pattern position exactly the values of the catalog positions within the error, in as many slots as the join records each |
| `MatchChunk.GetAll` | examples/match/MatchArray.cpp:83-190 | All attributes throw, or none does, exactly when every item's matches fit |
| `MatchChunk.JoinAll` | examples/match/MatchArray.cpp:83-190 | All attributes together: they throw together, or row i shows in its pattern attributes the values of one pattern item, in its catalog attributes those of one catalog position within the error, and in coordinate d that position's d-th coordinate; every pair within the error has its row |
| `BestMatch.CalculateDistance` | examples/bestmatch/BestMatchArray.cpp:178-184 | The squared distance modulo 2^64 |
| `BestMatch.OneCoordinate` | examples/bestmatch/BestMatchArray.cpp:178-184 | A position is at distance zero from itself, and moving one coordinate changes the squared distance by the difference of the squares on that axis |
| `BestMatch.RadiusIsNear` | examples/bestmatch/BestMatchArray.cpp:228-234 | A position within the error radius lies within the error on every coordinate, so the index finds it |
| `BestMatch.BestInChain` | examples/bestmatch/BestMatchArray.cpp:227-239 | An acceptable record of least computed distance, and none only where none is acceptable |
| `BestMatch.ScanItem` | examples/bestmatch/BestMatchArray.cpp:225-239 | The best of all catalog positions the scan can see and accept |
| `BestMatch.FindBestMatches` | examples/bestmatch/BestMatchArray.cpp:207-246 | Each pattern item has at most one record, a best one, and none only where nothing is eligible |
| `BestMatch.EligibleIff` | examples/bestmatch/BestMatchArray.cpp:228-239 | Eligible are the positions within the radius that pass the test on words, and the intruders from beyond it |
| `BestMatch.BestIsNearestIff` | examples/bestmatch/BestMatchArray.cpp:225-244 | For every hash and every error, the choices are the nearest positions if and only if the nearest pass the test on words and beat everything else that passes it |
| `BestMatch.BestIsNearestBelow` | examples/bestmatch/BestMatchArray.cpp:225-244 | Below an error of 2^32, if and only if every intruder is beaten by a position within the radius |
| `BestMatch.BestIsNearest` | examples/bestmatch/BestMatchArray.cpp:225-244 | In particular when no squared distance reaches 2^64 |
| `BestMatch.FarPositionWins` | examples/bestmatch/BestMatchArray.cpp:178-184 | With the source's hash, a position beyond the radius is chosen |
| `BestMatch.LargeErrorLoses` | examples/bestmatch/BestMatchArray.cpp:228-228 | With an error of 2^32 a position within it is never eligible |
| `MatchProtocol.NextInv` | examples/match/MatchArray.cpp:238-298 | Every step of every thread keeps the invariant, exceptions included |
| `MatchProtocol.NextBuilders` | examples/match/MatchArray.cpp:253-296 | Every step but an exception keeps a builder for each busy object |
| `MatchProtocol.RunSafe` | examples/match/MatchArray.cpp:238-298 | In every state of every run: one live object per position, one builder per object, no unfinished result in a caller's hands, and every sleeper's object busy and marked as awaited |
| `MatchProtocol.DeadStays` | examples/match/MatchArray.cpp:243-254 | No step brings an object back that no thread references |
| `MatchProtocol.RunDead` | examples/match/MatchArray.cpp:243-254 | Nor does any run |
| `MatchProtocol.DropKills` | examples/match/MatchArray.cpp:243-244 | When the last thread that references an object drops it, that object and no other dies |
| `MatchProtocol.EnterExact` | examples/match/MatchArray.cpp:243-255 | A call at a position with a live object gets that object, or waits for it while it is busy; at any other position it builds an object that did not exist before |
| `MatchProtocol.RunAwakens` | examples/match/MatchArray.cpp:245-256 | While no build throws, every sleeper's object has a builder, so no wakeup is lost |
| `MatchProtocol.Unblock` | examples/match/MatchArray.cpp:289-297 | From any reachable state, the builder's remaining steps let the sleeper return with the finished object |
| `MatchProtocol.StrandedForever` | examples/match/MatchArray.cpp:247-250 | A thread waiting for a busy object without a builder waits in every continuation |
| `MatchProtocol.ReturnsIff` | examples/match/MatchArray.cpp:238-298 | A sleeper can return if and only if its object has a builder |
| `MatchProtocol.ThrowStrands` | examples/match/MatchArray.cpp:257-288 | A run in which an exception in the build strands a waiting thread |
| `MatchLiveness.EveryCallReturns` | examples/match/MatchArray.cpp:238-298 | In every endless fair run without exceptions, every thread inside the call, building, asleep or awake, returns with its object, which is then finished |
| `MatchLiveness.ReadyIff` | examples/match/MatchArray.cpp:245-296 | Fairness is asked of exactly the steps that can be taken |
| `MatchLiveness.Finishes` | examples/match/MatchArray.cpp:289-296 | Fairness brings the builder to its last step while its waiters still wait |
| `AddressKeys.KeyLess` | include/array/AddressMeta.h:343-370 | The field by field comparison is the lexicographic order of the chunk's code, newest version first within a chunk |
| `AddressKeys.OrderDecides` | include/array/AddressMeta.h:343-370 | What decides, in order: the namespace, the store, more dimensions, the attribute, the first coordinate that differs, the later version |
| `AddressKeys.StrictTotalOrder` | include/array/AddressMeta.h:343-370 | The order is irreflexive, transitive, asymmetric and total |
| `AddressKeys.KeyEqual` | include/array/AddressMeta.h:375-402 | Equality of chunk and version, or of chunk alone; the former is a tie of the order |
| `AddressKeys.MaxAboveAll` | include/array/AddressMeta.h:457-468 | A key is below its store's sentinel if and only if it has a dimension or is a later version of the sentinel |
| `AddressKeys.OrdersAgree` | include/array/Address.h:197-217 | In one store, when exactly the order agrees with that of persistent addresses; always for equal dimension counts |
| `AddressKeys.LookupFindsLatest` | include/array/AddressMeta.h:296-311 | In sorted keys the first key not less than a probe is the newest version of the chunk not after the probe's, if and only if there is one |
| `BatchAllocator.Allocator.constructor` | extern/lib_json/json_batchallocator.h:35-44 | Nothing is outstanding and the invariant holds |
| `BatchAllocator.Allocator.Allocate` | extern/lib_json/json_batchallocator.h:58-82 | The slot released last, or the one at the bump pointer; it was not outstanding and shares no object with one that is; the peak is the larger of the old peak and the number now outstanding |
| `BatchAllocator.Allocator.AdvanceBatch` | extern/lib_json/json_batchallocator.h:66-78 | Following the links finds no older batch with room, so a new one is put in front of all the others |
| `BatchAllocator.Allocator.AllocateBatch` | extern/lib_json/json_batchallocator.h:72-77 | The list from the head is the new block followed by the old list |
| `BatchAllocator.Allocator.Carve` | extern/lib_json/json_batchallocator.h:79-81 | One new slot is carved, and only when all carved slots are outstanding |
| `BatchAllocator.Allocator.Release` | extern/lib_json/json_batchallocator.h:86-91 | The slot is no longer outstanding; the free list through the slots stays intact |
| `BatchAllocator.Allocator.ClientWrites` | extern/lib_json/json_batchallocator.h:56-57 | Whatever the owner of a slot writes into it, the free list stays intact |
| `BatchAllocator.Allocator.Sound` | extern/lib_json/json_batchallocator.h:58-115 | In every reachable state outstanding slots are pairwise disjoint and inside their batch on a page of whole slots, the list from the head visits every block allocated, and the slots carved are as many as were ever outstanding at once |
| `BatchAllocator.AllocateMany` | extern/lib_json/json_batchallocator.h:58-82 | The slots a new allocator hands out without a release |
| `BatchAllocator.InsideIff` | extern/lib_json/json_batchallocator.h:106-115 | They all lie inside their batch's memory if and only if the page holds a whole number of slots |
| `BatchAllocator.Overrun` | extern/lib_json/json_batchallocator.h:58-82 | For every other page, an allocator that has handed out a slot beyond its batch |
| `BatchAllocator.ArrayPagesOverrun` | extern/lib_json/json_internalarray.inl:143-143 | The same at eight values a slot and 255 objects a page |
| `ServerConfig.ParseServerInstanceIds` | utils/scidb_config.py:195-227 | An accepted list expands to strictly increasing ids, none negative; otherwise the error is that of the first element at fault |
| `ServerConfig.AcceptedIff` | utils/scidb_config.py:195-227 | Some element is at fault if and only if the list does not denote ascending ranges |
| `ServerConfig.ShortForm` | utils/scidb_config.py:209-216 | A lone number n in front is read as 0-n is, whatever follows; alone it gives the ids from 0 to n |
| `ServerConfig.LoneLater` | utils/scidb_config.py:209-216 | A lone number behind an accepted list is refused as an invalid entry |
| `ServerConfig.ParsedUnique` | utils/scidb_config.py:195-227 | The contract of the parse leaves one result for every list |
| `ServerConfig.ExpandIncreasing` | utils/scidb_config.py:220-226 | Ascending ranges expand to strictly increasing ids |
| `ServerConfig.Ranges` | utils/scidb_config.py:249-262 | Ranges that expand to the ids and could not be joined |
| `ServerConfig.ServerEntry.ToConfigOpt` | utils/scidb_config.py:244-270 | The key, and the host followed by those ranges; an error for an entry without instances |
| `ServerConfig.ServerEntry.AddInstances` | utils/scidb_config.py:272-288 | The sorted union, or the first clash with nothing changed |
| `ServerConfig.ServerEntry.RemoveInstances` | utils/scidb_config.py:290-301 | The sorted difference, or the first missing id with nothing changed |
| `ServerConfig.AddThenRemove` | utils/scidb_config.py:272-301 | Adding an entry that shares no id and removing it again succeed and change nothing, also when an entry is added to itself |
| `ServerConfig.ReadConfigOpt` | utils/scidb_config.py:398-409 | The entry the option denotes, or the error of its first fault; a second option for one server is refused |
| `ServerConfig.PrintThenRead` | utils/scidb_config.py:244-270 | Printing a non-empty entry and reading the option restores it if and only if its id is not negative and its host has no comma |

## Left out

- Printing and scanning of doubles: a parameter, because the C library does it.
- Comments in JSON text are skipped by the model as by the code, but not collected, placed or written.
- The text of error messages, and the second location some errors carry.
- The parse of a character range that is not followed by a NUL, and parsing of streams.
- `StyledStreamWriter`, `Path`, the internal map and array variants, sparse arrays and `resize`.
- The limit of 2^32 items of an array, and overflow of the line length in `isMultineArray`.
- `KdTree.SortOnIdx`: an insertion sort stands for `std::sort`, which promises no order among equal items.
- Rounding of k-d distances, points without coordinates, and `neighborhood_points`, which differs in the last line only.
- The two copies of `addCatalogEntry`, `getCatalogHash` and the protocol in `BestMatchArray.cpp` are the same code and modelled once.
- Array and chunk iterators, chunk caching in `getChunk`, the caches' clean-up of expired entries.
- `MemAddressMeta`, `fillKey`, `keyToAddress` and the encoding of attribute ids.
- The comparison of data store keys, which is taken to go by namespace id and then by store id.
- The allocator's destructor.
- The scripts that start processes, copy files or talk to databases, and the array operators and plug-ins, which only forward to code that is not part of this model.
