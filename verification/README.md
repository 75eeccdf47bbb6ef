# Models of the hard parts of Domoticz's bundled libraries

Domoticz carries its own copies of three libraries and one device driver whose
correctness the rest of the program takes for granted. This project models them and
proves what they are for.

* **jsoncpp** (`json/`). The value tree and its order (`JsonValue`), the lexical layer
  (`JsonScanner`), integers and strings as text (`JsonNumber`, `JsonString`), the two
  UTF-8 encoders (`Utf8`), the recursive-descent `Reader` first as functions of a
  document and a cursor (`JsonParse`) and then as the class that moves a cursor, a node
  stack, an error list and a depth counter in place (`JsonReader`), the two writers
  (`JsonWriter`, `JsonStyledWriter`). Against RFC 8259, with tables of their own: the
  spellings of strings (`JsonSpelling`), the texts of values and what they mean
  (`JsonGrammar`), the order of trees (`JsonOrder`), and which texts the writers print
  (`JsonLayout`, `JsonPrinted`). On any document whatever: the grammar that everything
  accepted obeys (`JsonAccepted`), what the errors say (`JsonErrors`), what is passed over
  (`JsonSkipping`), the trees that are left (`JsonParsedTrees`), the offsets
  (`JsonOffsets`), and where the reader accepts more than the standard (`JsonLeniency`).
  Reading back what a writer printed: `JsonNormalForm`, `JsonRegular`, `JsonRoundTrip`.
  `BatchAllocator` is its pool allocator.
* **TinyXPath** (`tinyxpath/`). The backward execution of an action tape against a
  direct evaluation of the expression (`XPathTape`, `XPathProcessor`), what every operator
  of the standard then answers (`XPathMeaning`), the token ring that is rewritten in place
  (`TokenRing`) and the cutting of its tokens (`TokenPieces`), and document order,
  descendant walks and duplicate-free node sets (`NodeSet`).
* **TinyXML** (`tinyxpath/`). The doubly linked child lists of a forest of nodes and the
  cloning of subtrees (`DomShapes`, `DomList`), the attribute ring as an insertion-ordered
  map (`AttributeMap`, `AttributeRing`), writing and reading back one attribute
  (`XmlAttributeText`, `XmlAttributeParser`), and the spellings of its value in the sense
  of XML 1.0 (`XmlSpelling`).
* **AsyncSerial** (`hardware/`). The locked queue, the posted handlers and the single
  outstanding write as a protocol whose steps interleave freely (`AsyncSerialWriter`).

`Options`, `Slices`, `Rings`, `Graphs` and `Numerals` hold an option type and facts about
sequences, circular lists, reachability and place value that several of these need. `dafny verify dfyconfig.toml`
checks everything.

Conventions. Bytes are characters; nothing depends on their being below 256 except
where a member says so. Masks and shifts are written as division and remainder.
Wrap-around, truncation and length fields are written out where the code relies on
them (`SizeDelta`, `MemberKey`, `StringPayload`, `AddWrapped`, the 32-bit line length
of `IsMultilineArray`). Exceptions are values of the result. C library conversions and
floating-point formatting are parameters (`toDouble`, `showReal`, `Library`), so every
statement holds whatever they answer.

## What turned out otherwise

The code is modelled as it is. Where it does not keep what it promises, the condition
under which it does is proved to be exact, and a member shows an input that fails.

* `Value::operator<` truncates the difference of two container sizes to 32 bits. For all
  trees one of less, equal and greater holds; less and greater hold together exactly when,
  at the first difference, two container sizes differ by 2^31 modulo 2^32 (`OrderIff`,
  `HugeArrayBothWays`); and a < b < c gives a < c exactly when three sizes do not go round
  (`TransitiveIff`, `ThreeArraysGoRound`). Below 2^31 entries per container neither
  happens, and the order is strict and total (`OrderTrichotomy`, `OrderTransitive`).
* `StyledWriter` prints member names through a C string. Its tokens are those of
  `FastWriter`, and reading it back gives the normal form, exactly when no member name
  holds a NUL (`LayoutKeepsTokens`, `StyledRoundTrip`; `NulNameDiffers`,
  `CutNamesCollide`).
* The JSON reader accepts some objects outside RFC 8259. After a member it goes on at a
  comma and, after a comment, at any token but the closing brace (`SeparatorIff`,
  `CommentedWitness`); with such a separator behind the last member the object is
  accepted exactly when that member's name is empty (`TrailingSeparatorIff`,
  `TrailingCommaIff`, `EmptyNameWitness`). `ParseSound` gives the whole grammar of what is
  accepted, with any features. A comment is closed by its end mark or by a
  slash at the end of the text (`CommentClosedIff`, `SlashStarSlash`).
* With dropped nulls allowed a document can begin with one, whose range starts before the
  document; offsets nest in every other case (`OffsetsNest`, `CommaStartsBefore`).
* Skip mode of the XPath machine runs unary minus all the same. Skipping consumes what
  running consumes and negates the top of the stack once for each unary minus
  (`SkipConsumesSame`). It leaves the stack alone exactly when there is none or the top is
  a number that the minuses give back (`SkipLeavesStackIff`, `SkippedMinusNegates`).
* `o_get_bool` answers true for the double zero and false for every other one, the
  opposite of its own comment (tinyxpath/xpath_expression.cpp:108-124); it is the boolean
  function of the standard exactly on the other types (`GetBoolIff`).
* One pass of `v_tokenize_expression` settles a list exactly when no two tokens that
  survive it with only spaces between them would merge (`SettledIff`, `SecondPassIff`,
  `SpacedPairMergesLate`). `ltp_last` is still right after the pass exactly when the pass
  does not merge the last two tokens (`TokenizeExpression`, `TwoColonsLoseTheLast`).
* Linking a child that is already on the list, which the assertions of `LinkEndChild`
  admit, always leaves pointers that spell no list (`RelinkBreaks`), and linking a node
  under itself or under a node below it closes a cycle (`LinkEndChild`).
* The attribute iteration takes an attribute with an empty name and value for the
  sentinel; it shows every attribute exactly when none but the first is like that
  (`ShowsAllIff`, `BlankHidesRest`). `Clone` goes by that iteration and copies a tree whole
  exactly when nothing in it is hidden or left out (`CopiedIff`).
* An attribute value containing `&#x` is not escaped. Print and Parse are inverse exactly
  on the values without it (`AttributeRoundTrip`, `ReferenceIsNotKept`);
  `PrintedReference` says what is read back for every value, and a value that ends inside
  such a reference can take in the text behind its closing quote (`UnclosedRunsOn`).
* The page-end test of the batch allocator is an equality. Blocks stay inside their pages
  when the block size divides the page size (`Allocate`), and whenever it does not,
  allocation walks off the page (`Overrun`).

## Model

| member | source | states |
|---|---|---|
| `JsonValue.PutIsMapUpdate` | json/json_value.cpp:977-991 | storing through operator[] keeps the map ordered and free of duplicates, reads back under its key and leaves every other key as it was |
| `JsonValue.GetIffPresent` | json/json_value.cpp:1000-1011 | a sorted map holds an entry exactly when looking its key up finds that value |
| `JsonValue.HasIffPresent` | json/json_value.cpp:977-991 | lower_bound in a sorted map finds exactly the keys that are there and everything behind it is greater |
| `JsonValue.KeyTrichotomy` | json/json_value.cpp:300-324 | of two keys exactly one is less or they are equal |
| `JsonValue.KeyTransitive` | json/json_value.cpp:300-312 | the key order is transitive |
| `JsonValue.OrderTrichotomy` | json/json_value.cpp:542-638 | for all NaN-free trees with containers below 2^31 entries exactly one of less, equal and greater holds |
| `JsonValue.OrderTransitive` | json/json_value.cpp:542-587 | operator< is transitive on nested NaN-free trees with containers below 2^31 entries |
| `JsonValue.LessRespectsEqual` | json/json_value.cpp:542-638 | equal trees compare alike against every third tree |
| `JsonValue.EqualIffErased` | json/json_value.cpp:595-638 | operator== is identity of the trees once source offsets are dropped |
| `JsonValue.OrderIff` | json/json_value.cpp:542-638 | for all NaN-free trees of any size one of less, equal and greater holds, equal excludes the others, and less and greater hold together exactly when container sizes clash at the first difference |
| `JsonValue.TransitiveIff` | json/json_value.cpp:542-587 | for all NaN-free trees of any size a < b < c gives a < c exactly when the truncated size differences at the first difference do not add up to more than 2^31 |
| `JsonValue.SmallNeverClash` | json/json_value.cpp:576-582 | sizes below 2^31 never clash |
| `JsonValue.SmallNeverCircle` | json/json_value.cpp:576-582 | sizes below 2^31 never go round |
| `JsonValue.ThreeArraysGoRound` | json/json_value.cpp:576-582 | arrays of 0, 2^30 and 2^31+1 slots each come before the next, all the way round |
| `JsonValue.HugeArrayBothWays` | json/json_value.cpp:576-582 | an array of 2^31 slots and the empty array are each less than the other |
| `JsonOrder.LexIsTextBefore` | json/json_value.cpp:561-575 | of two texts one is less exactly when at the first place where they differ it has the smaller character, or is over |
| `JsonOrder.LessMeaning` | json/json_value.cpp:542-587 | operator< on all NaN-free trees: types in the order null, int, uint, real, string, bool, array, object; numbers by value, false before true, texts by their first difference; containers by the truncated difference of their sizes, then by their first difference |
| `JsonOrder.ContainerOrder` | json/json_value.cpp:576-582 | below 2^31 entries the container with fewer entries comes first; of two of the same size the first index at which the entries differ decides, keys before values |
| `JsonOrder.MapLessIsBefore` | json/json_value.cpp:576-582 | the comparison of two maps is decided at the first index where their entries differ |
| `JsonOrder.NamesInOrder` | json/json_value.cpp:300-312 | the member names of an object are listed by their first difference |
| `JsonOrder.WellFormedComparable` | json/json_value.cpp:300-312 | the keys of two containers of one type are all slots or all names |
| `JsonScanner.ReadToken` | json/json_reader.cpp:261-330 | every token lies ahead of the cursor and within the document, and is non-empty unless it is the end of stream |
| `JsonScanner.ReadTokenIsHead` | json/json_reader.cpp:261-330 | readToken returns the head of the token stream of the unread text and leaves its tail |
| `JsonScanner.SpacesVanish` | json/json_reader.cpp:332-340 | leading white space does not change the token stream |
| `JsonScanner.TokenInFront` | json/json_reader.cpp:261-330 | a text that lexes as one token in front of a rest contributes exactly that token |
| `JsonScanner.IntegerIsToken` | json/json_reader.cpp:432-452 | an optional minus and digits are one number token before anything that cannot extend a number |
| `JsonScanner.StringRun` | json/json_reader.cpp:454-464 | a string scan that succeeds ends just behind a quote |
| `JsonErrors.TokenForm` | json/json_reader.cpp:261-340 | every token begins at the first character that is no blank, has the text of its kind, and only the end of the document is empty |
| `JsonSkipping.LineComment` | json/json_reader.cpp:416-430 | a comment of two slashes runs to the end of its line, with LF, CR LF or CR as that end, or to the end of the document |
| `JsonSkipping.BlockComment` | json/json_reader.cpp:407-414 | a comment of slash and star runs to the first star and slash |
| `JsonNumber.UintToString` | json/json_tool.h:67-87 | the digits and the terminator are written backwards within 21 characters and nothing else in the buffer changes |
| `JsonNumber.ValueToString` | json/json_writer.cpp:102-124 | every 64-bit integer, the most negative one included, becomes its shortest decimal text within the 25-byte buffer |
| `JsonNumber.TwentyDigits` | json/json_tool.h:67-87 | an unsigned 64-bit integer needs at most twenty digits |
| `JsonNumber.DecodeDigits` | json/json_reader.cpp:570-600 | the digit loop accepts exactly the digit strings whose value is within the limit, and its accumulator never passes it |
| `JsonNumber.ThresholdTest` | json/json_reader.cpp:589-598 | whenever the threshold test gives up the mathematical value is above the limit |
| `JsonNumber.DecodeNumberText` | json/json_reader.cpp:570-610 | decodeNumber stays on the integer path exactly for an optional minus and digits of value in [-2^63, 2^64-1], with the exact value in the reader's normal form |
| `JsonNumber.DecodeInvertsWrite` | json/json_reader.cpp:570-610 | decodeNumber inverts valueToString on [-2^63, 2^64-1] |
| `JsonNumber.SignedDecimalIsToken` | json/json_writer.cpp:102-124 | the text of an integer is one number token wherever a number may end |
| `Utf8.EncoderIsRfc3629` | json/json_tool.h:36-62 | a byte string is a valid RFC 3629 encoding of a scalar value exactly when it is what codePointToUTF8 returns |
| `Utf8.ConvertUTF32ToUTF8` | tinyxpath/tinyxmlparser.cpp:89-127 | TinyXML's encoder writes the same bytes as jsoncpp's for every scalar and touches nothing behind them |
| `Utf8.SplitInvertsEncode` | tinyxpath/tinyxmlparser.cpp:67-86 | cutting an encoded text by the lengths in utf8ByteTable gives back its characters |
| `Utf8.EncodeInjective` | tinyxpath/tinyxmlparser.cpp:67-127 | different scalar sequences have different encodings |
| `JsonString.FindSpecial` | json/json_writer.cpp:243-262 | the search finds a character exactly when one of the string needs escaping |
| `JsonString.ValueToQuotedStringN` | json/json_writer.cpp:257-318 | for every terminated byte string, embedded NULs included, the shortcut and the escaping loop give the same quoted text |
| `JsonString.ValueToQuotedString` | json/json_writer.cpp:180-241 | the C-string variant quotes the text up to the first NUL |
| `JsonString.UnescapeInvertsEscape` | json/json_reader.cpp:645-696 | decodeString inverts the escaping loop on every byte string |
| `JsonString.ScanStopsAtFinalQuote` | json/json_reader.cpp:454-464 | readString runs through an escaped text and stops at precisely its final quote, whatever follows |
| `JsonString.QuotedIsToken` | json/json_reader.cpp:454-464 | a quoted string is one string token with the escaped text between its quotes |
| `JsonString.QuotedInjective` | json/json_writer.cpp:257-318 | different strings have different quoted texts |
| `JsonString.DecodeString` | json/json_reader.cpp:645-696 | the decoding loop computes the recursive meaning of the escapes, with the problem and the cursor where it fails |
| `JsonString.DecodeCodePoint` | json/json_reader.cpp:698-725 | one or two \u escapes make one code point, or the matching problem |
| `JsonString.DecodeHex4` | json/json_reader.cpp:727-754 | four hexadecimal digits of either case make their value, or the problem at the first bad one |
| `JsonString.UnicodeEscapesDecode` | json/json_reader.cpp:645-754 | decoding any \u spelling of a scalar sequence, surrogate pairs above U+FFFF, gives its UTF-8 encoding |
| `JsonSpelling.SpellingsDecode` | json/json_reader.cpp:645-754 | section 7 of RFC 8259 with a table of its own: bare characters, the eight short escapes and \u forms with surrogate pairs, in any order, decode to the characters they spell |
| `JsonSpelling.SpellingsRead` | json/json_reader.cpp:645-754 | the same in front of any rest, whose own decoding follows |
| `JsonSpelling.OtherLettersRefused` | json/json_reader.cpp:688-689 | behind any spellings a backslash is refused exactly in front of a letter that is neither in the table nor a u |
| `JsonSpelling.ScanSpellings` | json/json_reader.cpp:454-464 | the scan for the closing quote runs through any spellings and stops at it |
| `JsonSpelling.ProblemsExplained` | json/json_reader.cpp:645-754 | a string is refused for what is wrong just in front of the place reported: an escape cut off, an unknown letter, digits missing or not hexadecimal, a lead surrogate without its second half |
| `JsonSpelling.EscapesAreSpellings` | json/json_writer.cpp:264-318 | what the writer puts between the quotes spells the string byte by byte and leaves no control character bare |
| `JsonSpelling.EscapeChoice` | json/json_writer.cpp:264-318 | a character from the space on stands for itself unless it is a quote or a backslash; short escapes come before numeric ones, which have upper-case digits; the slash is left alone |
| `JsonParse.ReadValue` | json/json_reader.cpp:167-249 | at every return the cursor is between where it was and the end, at most one error is recorded, the flag says whether there is one, and success restores the depth counter |
| `JsonParse.ReadMembers` | json/json_reader.cpp:466-520 | the same discipline through the member loop and its error recovery |
| `JsonParse.ReadMember` | json/json_reader.cpp:493-517 | a member either ends the object under that discipline or moves the cursor on |
| `JsonParse.ReadElements` | json/json_reader.cpp:522-558 | the same discipline through the element loop |
| `JsonParse.Recover` | json/json_reader.cpp:766-777 | recovery ends at or ahead of its start and within the document |
| `JsonParse.Parse` | json/json_reader.cpp:125-165 | parse returns true exactly when the error list is empty, and unless the root must be a container at most one error is ever recorded |
| `JsonGrammar.ReadsText` | json/json_reader.cpp:167-249 | every text of RFC 8259, with blanks wherever they may stand, is read with any features, at any depth and into any slot as the value it means, each part with the range it was read from, and the cursor ends right behind it; or it throws, exactly when its levels do not fit |
| `JsonGrammar.ParsesText` | json/json_reader.cpp:125-249 | a document that is one such text between blanks parses to its meaning, exactly up to 1000 levels |
| `JsonGrammar.NumberIsToken` | json/json_reader.cpp:432-452 | minus, digits, fraction and exponent are one number token in front of anything that cannot extend it |
| `JsonGrammar.NumberReads` | json/json_reader.cpp:560-632 | a number is kept exactly when it has neither fraction nor exponent and fits 64 bits, signed up to 2^31-1, by the place value of its digits; every other one is what the library makes of it |
| `JsonGrammar.MembersGrow` | json/json_reader.cpp:500-502 | storing the members one by one leaves for each name the last one, in the order of the names |
| `JsonGrammar.TooLong` | json/json_value.cpp:118-127 | a string of more than 2^31-6 bytes is refused by an exception |
| `JsonAccepted.ParseSound` | json/json_reader.cpp:125-249 | with any features, a document that parses begins with the words of a value in the grammar stated there, and the root is what they say |
| `JsonAccepted.ValueSound` | json/json_reader.cpp:167-249 | whatever readValue accepts, anywhere in any document, obeys that grammar: comments where they are allowed, dropped nulls where they are, the separators of an object, and names filed one by one |
| `JsonErrors.ParseExplains` | json/json_reader.cpp:125-249 | every error of every parse names a token of the document, or for the root the whole of it, that is wrong in the way its message says; for a string with the problem and its place |
| `JsonErrors.ValueExplains` | json/json_reader.cpp:167-249 | the same for every value read |
| `JsonSkipping.RecoverIs` | json/json_reader.cpp:766-777 | recovery ends behind the first token of the kind looked for, or behind a NUL in front of it, or at the end of the document |
| `JsonParsedTrees.ParseHolds` | json/json_reader.cpp:125-249 | every parse, failed ones too, leaves a tree whose integers, texts, names and maps are in range and order |
| `JsonParsedTrees.ValueHolds` | json/json_reader.cpp:167-249 | the same for every value read |
| `JsonReader.Reader.NextToken` | json/json_reader.cpp:261-330 | the scanning methods leave the cursor where the specified token ends |
| `JsonReader.Reader.RecoverFromError` | json/json_reader.cpp:766-777 | the token-skipping loop terminates at the specified place |
| `JsonReader.Reader.ReadValue` | json/json_reader.cpp:167-249 | entered only with an empty error list and a depth counter one below the size of the node stack, it leaves cursor, counter, errors and top value as ReadValue says and the stack below untouched |
| `JsonReader.Reader.ReadTokenValue` | json/json_reader.cpp:184-249 | the switch on the token updates the fields as ReadAt says |
| `JsonReader.Reader.DecodeNumberToken` | json/json_reader.cpp:560-632 | a number token fills the current value or records one error |
| `JsonReader.Reader.DecodeStringToken` | json/json_reader.cpp:634-643 | a string token fills the current value, records one error or throws |
| `JsonReader.Reader.ReadObject` | json/json_reader.cpp:466-520 | the member loop with its node stack computes ReadMembers |
| `JsonReader.Reader.ReadName` | json/json_reader.cpp:472-491 | the first half of the loop body computes ReadName and changes no node |
| `JsonReader.Reader.ReadMember` | json/json_reader.cpp:493-517 | pushing, reading, popping and recovering compute ReadMember and restore the stack |
| `JsonReader.Reader.ReadArray` | json/json_reader.cpp:522-558 | readArray computes ReadArray |
| `JsonReader.Reader.ReadElement` | json/json_reader.cpp:534-556 | one turn of the element loop computes ReadElement and restores the stack |
| `JsonReader.Reader.ParseDocument` | json/json_reader.cpp:125-165 | a whole parse of any document ends in the specified outcome with the root alone on the stack, returning true exactly when no error is recorded |
| `JsonWriter.FastWriter.Write` | json/json_writer.cpp:337-343 | the writer returns the layout function of the tree, whatever it wrote before |
| `JsonWriter.FastWriter.WriteValue` | json/json_writer.cpp:345-397 | writing a value appends its layout to the document |
| `JsonWriter.FastTokens` | json/json_writer.cpp:345-397 | FastWriter's text of a real-free tree lexes as the tree's words, in front of any rest that cannot extend a number |
| `JsonWriter.FastDocumentTokens` | json/json_writer.cpp:337-397 | the tokens of a whole document are exactly the words of the tree |
| `JsonLayout.FastDocumentIsCompact` | json/json_writer.cpp:337-397 | for every tree and all options FastWriter prints the text given there: no blanks, but one behind each colon for YAML, and a line feed |
| `JsonLayout.CompactIsJson` | json/json_writer.cpp:337-397 | without doubles and with its nulls that text is one of RFC 8259 |
| `JsonPrinted.FastPrinted` | json/json_writer.cpp:337-397 | what FastWriter printed is read as what its text means, offsets included, exactly up to 1000 levels of the tree |
| `JsonStyledWriter.StyledWriter.Write` | json/json_writer.cpp:405-414 | the styled writer returns its layout function, whatever state it was left in |
| `JsonStyledWriter.StyledWriter.WriteValue` | json/json_writer.cpp:416-473 | while children are being buffered each value adds exactly one string and no text; otherwise its layout is appended |
| `JsonStyledWriter.StyledWriter.IsMultilineArray` | json/json_writer.cpp:518-543 | the answer is the specified layout choice, and the buffer is then empty or holds exactly the texts of this array's children, never another's |
| `JsonStyledWriter.StyledWriter.WriteSingleLine` | json/json_writer.cpp:504-514 | the single-line branch finds one buffered string per child and joins them |
| `JsonStyledWriter.StyledWriter.WriteBlock` | json/json_writer.cpp:446-503 | the multi-line layouts append the specified text and restore the indentation |
| `JsonStyledWriter.StyledTokens` | json/json_writer.cpp:416-573 | for every margin, indent width and place in a document the styled text lexes as the tree's words |
| `JsonStyledWriter.StyledDocumentTokens` | json/json_writer.cpp:405-573 | the tokens of a whole styled document are the words of the tree with names cut at NUL |
| `JsonStyledWriter.CutNamesIff` | json/json_writer.cpp:453-460 | cutting names at NUL keeps the number of words and changes them exactly when some name holds a NUL |
| `JsonStyledWriter.LayoutKeepsTokens` | json/json_writer.cpp:337-573 | both writers produce the same tokens exactly when no member name holds a NUL |
| `JsonStyledWriter.NulNameDiffers` | json/json_writer.cpp:453-460 | an object whose one name holds a NUL is printed with different tokens |
| `JsonLayout.StyledDocumentIsPretty` | json/json_writer.cpp:405-573 | for every tree, margin and indent width StyledWriter prints the text given there without reference to what was printed before: every child on a line of its own, one step further in, and an array of scalars on one line when that is shorter than the margin |
| `JsonLayout.FitsIff` | json/json_writer.cpp:518-543 | isMultineArray answers false exactly when the one-line text of the array is shorter than the margin, with lengths modulo 2^32 |
| `JsonLayout.PrettyIsJson` | json/json_writer.cpp:405-573 | without doubles that text is one of RFC 8259 |
| `JsonPrinted.StyledPrinted` | json/json_writer.cpp:405-573 | what StyledWriter printed is read as what its text means, offsets included, exactly up to 1000 levels of the tree |
| `JsonNormalForm.RereadIff` | json/json_writer.cpp:453-460 | a tree is read back in normal form exactly when its names are printed whole or none of them holds a NUL |
| `JsonNormalForm.CutNamesCollide` | json/json_writer.cpp:453-460 | of two members whose names are the same up to their NULs only the later one is read back |
| `JsonRegular.NormalIff` | json/json_writer.cpp:345-397 | a tree is its own normal form exactly when it has no holes and its integers are signed up to 2^31-1 and unsigned above |
| `JsonRegular.SizeIsBound` | json/json_value.cpp:911-929 | the size of an array is one more than its highest slot |
| `JsonRegular.ChildIsStored` | json/json_value.cpp:977-1011 | the i-th child is what is stored under its number, null in a hole, or the i-th member with its name |
| `JsonRoundTrip.ReadValueBack` | json/json_reader.cpp:167-249 | on any document whose unread tokens begin with the words of a tree, at any depth and into any slot, readValue rebuilds the tree and stops right behind it, or throws exactly when the levels do not fit |
| `JsonRoundTrip.ParseWords` | json/json_reader.cpp:125-249 | parsing any text that spells the words of a tree, names whole or cut, gives the tree as it is read back, or the depth limit exactly above 1000 levels |
| `JsonRoundTrip.FastRoundTrip` | json/json_writer.cpp:337-397 | reading back what FastWriter printed gives an equal tree, holes as null and integers in normal form, exactly up to 1000 levels |
| `JsonRoundTrip.StyledRoundTrip` | json/json_writer.cpp:405-573 | reading back what StyledWriter printed, with any margin and indent width, gives the tree with names cut at NUL and later members overwriting earlier ones of the same name, which equals the normal form exactly when no name holds a NUL |
| `JsonOffsets.ReadValueNests` | json/json_reader.cpp:167-249 | every value read has a range behind the cursor, a dropped null one in front of the token that is read again, with its children's ranges nested and disjoint |
| `JsonOffsets.OffsetsNest` | json/json_reader.cpp:125-249 | after every successful parse with any features all ranges lie in the document and in their parent's and siblings are disjoint, repeated keys included, exactly unless the document starts with a dropped null; and only the depth limit can be thrown |
| `JsonOffsets.CommaStartsBefore` | json/json_reader.cpp:226-234 | with dropped nulls allowed a comma alone is a null whose range starts at -1 |
| `JsonLeniency.CommentClosedIff` | json/json_reader.cpp:407-414 | a comment is closed exactly by its end mark or by a slash at the end of the text |
| `JsonLeniency.SlashStarSlash` | json/json_reader.cpp:407-414 | a slash, a star and a slash are a whole comment at the end of a text |
| `JsonLeniency.BehindComments` | json/json_reader.cpp:513-515 | the first token behind any comments is found, and what is behind it stays |
| `JsonLeniency.SeparatorIff` | json/json_reader.cpp:506-517 | after a member the reader goes on exactly at a comma or, after a comment, at any token but the closing brace, ends the object exactly at the brace, and fails otherwise |
| `JsonLeniency.LinesRead` | json/json_reader.cpp:466-520 | members with any such separators are read one after the other up to the tokens behind them |
| `JsonLeniency.TrailingSeparatorIff` | json/json_reader.cpp:472-480 | members each followed by a separator and then the brace are accepted exactly when the last name is empty |
| `JsonLeniency.SeparatedObject` | json/json_reader.cpp:466-520 | members with any such separators between them are accepted |
| `JsonLeniency.DocumentTrailingIff` | json/json_reader.cpp:125-165 | the same for a whole document that is such an object |
| `JsonLeniency.DocumentSeparated` | json/json_reader.cpp:125-165 | the same for a whole document without the separator too many |
| `JsonLeniency.TrailingCommaIff` | json/json_reader.cpp:472-480 | an object with one member and a comma behind it parses exactly when the member has no name |
| `JsonLeniency.EmptyNameWitness` | json/json_reader.cpp:478-479 | the two texts of that kind for an empty name and for a |
| `JsonLeniency.CommentedWitness` | json/json_reader.cpp:506-517 | an object with a colon for its comma parses when a comment is in front of it |
| `JsonLeniency.CommentedText` | json/json_reader.cpp:506-517 | the text of that object |
| `JsonOffsets.UnescapeShrinks` | json/json_reader.cpp:645-696 | a decoded string is no longer than its spelling |
| `AsyncSerialWriter.StepKeepsInv` | hardware/ASyncSerial.cpp:188-303 | every atomic step keeps: wire, pending bytes and queue make up what was written, one write at most is outstanding, and a filled queue has someone who will look at it |
| `AsyncSerialWriter.RunKeepsInv` | hardware/ASyncSerial.cpp:188-303 | so does every run |
| `AsyncSerialWriter.SerialWritesSafe` | hardware/ASyncSerial.cpp:188-303 | in every interleaving of a session the wire is a prefix of the data of its write calls put one behind the other, also after an error; wire, pending bytes and queue together are all of it; and without an error nothing queued is forgotten |
| `AsyncSerialWriter.WrittenIsInserted` | hardware/ASyncSerial.cpp:188-226 | what is recorded as written is the data of the insertions of the run, in their order, and nothing else |
| `AsyncSerialWriter.ErrorFreezesWire` | hardware/ASyncSerial.cpp:292-302 | after a failed write nothing more reaches the wire |
| `AsyncSerialWriter.InternalStepsWork` | hardware/ASyncSerial.cpp:254-303 | every step of a handler or of the device lessens the work left |
| `AsyncSerialWriter.QuietDelivered` | hardware/ASyncSerial.cpp:254-303 | when nothing but new writes or failures can happen everything written is on the wire |
| `AsyncSerialWriter.WritesAreDelivered` | hardware/ASyncSerial.cpp:254-303 | after any session without an error handlers and device, left to themselves, stop after a bounded number of steps, and when they can go no further the wire has exactly the data of the write calls |
| `AsyncSerialWriter.InternalRunsEnd` | hardware/ASyncSerial.cpp:254-303 | from any reachable state without an error such a run is bounded by the work left, brings no error and keeps the invariant |
| `AsyncSerialWriter.AsyncSerial.WriteInsert` | hardware/ASyncSerial.cpp:188-195 | the insertion is the protocol's step and keeps the invariant |
| `AsyncSerialWriter.AsyncSerial.WritePost` | hardware/ASyncSerial.cpp:188-195 | posting is the protocol's step and keeps the invariant |
| `AsyncSerialWriter.AsyncSerial.DoWriteTestBuffer` | hardware/ASyncSerial.cpp:254-257 | the test of the buffer is the protocol's step and keeps the invariant |
| `AsyncSerialWriter.AsyncSerial.DoWriteTakeQueue` | hardware/ASyncSerial.cpp:258-270 | taking the queue is the protocol's step and keeps the invariant |
| `AsyncSerialWriter.AsyncSerial.WriteEndHandler` | hardware/ASyncSerial.cpp:272-303 | both outcomes of the completion handler are the protocol's steps and keep the invariant |
| `BatchAllocator.Allocator.Allocate` | json/json_batchallocator.h:56-80 | the block returned was not live and overlaps no live block; when the block size divides the page size it lies inside its page |
| `BatchAllocator.Allocator.Release` | json/json_batchallocator.h:84-89 | a live block moves to the head of the free list, and the partition stays |
| `BatchAllocator.Allocator.ClientStore` | json/json_batchallocator.h:54-61 | what a client stores in a live block cannot disturb the allocator |
| `BatchAllocator.Allocator.SelectBatch` | json/json_batchallocator.h:64-76 | the search ends at a page that is not exhausted, an old one or a new one |
| `BatchAllocator.Allocator.AddBatch` | json/json_batchallocator.h:104-113 | a new page is empty, has the memory asked for and goes to the head of the list |
| `BatchAllocator.Allocator.PopFree` | json/json_batchallocator.h:58-63 | the head of the free list becomes live and the list its tail |
| `BatchAllocator.Allocator.BumpBatch` | json/json_batchallocator.h:77-79 | the next unused block of the page becomes live |
| `BatchAllocator.Allocator.Partition` | json/json_batchallocator.h:33-113 | every object slot of every page lies in exactly one live block, in exactly one block of the free list, or in the page's unused tail, and in no two of the three |
| `BatchAllocator.Overrun` | json/json_batchallocator.h:64-79 | for every block size that does not divide the page size some allocation lies outside the memory of its page |
| `XPathTape.ExecIsEval` | tinyxpath/xpath_processor.cpp:275-854 | running the tape of any expression tree backwards consumes exactly its actions and pushes its value, the left operand first, or throws when evaluation fails; the stack below stays |
| `XPathTape.SkipConsumesSame` | tinyxpath/xpath_processor.cpp:275-854 | skip mode consumes the same actions, and its whole effect is one negation of the top for each unary minus |
| `XPathTape.SkipLeavesStack` | tinyxpath/xpath_processor.cpp:275-854 | without unary minus skip mode leaves the stack untouched |
| `XPathTape.SkipLeavesStackIff` | tinyxpath/xpath_processor.cpp:674-687 | skip mode leaves the stack untouched exactly when there is no unary minus or the top is a number that their count gives back |
| `XPathTape.SkippedMinusNegates` | tinyxpath/xpath_processor.cpp:681-687 | skipping -1 with 5 on the stack leaves -5, and with nothing on it fails |
| `XPathTape.GetBoolIff` | tinyxpath/xpath_expression.cpp:108-140 | o_get_bool is the boolean function of XPath 1.0 exactly on values other than doubles |
| `XPathTape.WholeExpression` | tinyxpath/xpath_processor.cpp:252-256 | running the tape of a whole expression uses it up and leaves one result, its value |
| `XPathTape.SubtractionChainsLeft` | tinyxpath/xpath_processor.cpp:580-626 | a - b - c is computed as (a - b) - c |
| `XPathMeaning.RunsAnywhere` | tinyxpath/xpath_processor.cpp:275-854 | every tree yields one value or fails, and does the same wherever its tape stands and whatever is on the stack |
| `XPathMeaning.ShapedIsGrammar` | tinyxpath/xpath_processor.cpp:293-771 | the trees modelled are exactly those of productions 15 and 18 to 27 of XPath 1.0 as far as they lead to numbers, literals, calls and parentheses |
| `XPathMeaning.Relations` | tinyxpath/xpath_processor.cpp:2031-2088 | <, >, <= and >= answer the comparison of the two operands, of doubles when one is a double and else of ints |
| `XPathMeaning.Arithmetic` | tinyxpath/xpath_processor.cpp:1989-2011 | + and - and their chains give sum and difference, of doubles when one is a double and else of ints |
| `XPathMeaning.Product` | tinyxpath/xpath_processor.cpp:2091-2141 | * gives the product in the same way |
| `XPathMeaning.Division` | tinyxpath/xpath_processor.cpp:2099-2113 | div gives the q with q*y = x, always as doubles, and fails within a millionth of zero |
| `XPathMeaning.Remainder` | tinyxpath/xpath_processor.cpp:2091-2141 | mod gives r with x = q*y + r, |r| < |y| and the sign of x, of whole parts for doubles, and fails for zero |
| `XPathMeaning.Equality` | tinyxpath/xpath_processor.cpp:1882-1917 | = by the type cases of section 3.4 of XPath 1.0, and != its negation |
| `XPathMeaning.Junctions` | tinyxpath/xpath_processor.cpp:2013-2029 | or and and of the booleans of the operands |
| `XPathMeaning.Negation` | tinyxpath/xpath_processor.cpp:2145-2160 | unary minus negates a double as a double and everything else as an int |
| `XPathMeaning.Leaves` | tinyxpath/xpath_processor.cpp:753-765 | a literal yields its text, a number with a dot a double and any other number an int |
| `XPathMeaning.PassedOn` | tinyxpath/xpath_processor.cpp:293-295 | a rule without an operator yields what its only part yields |
| `XPathMeaning.Calls` | tinyxpath/xpath_processor.cpp:772-820 | a call applies the function of its qualified name to the values of its arguments in source order |
| `XPathMeaning.FailingOperand` | tinyxpath/xpath_processor.cpp:306-673 | an operator fails when one of its operands does |
| `XPathMeaning.FailingArgument` | tinyxpath/xpath_processor.cpp:772-820 | and a call when one of its arguments does |
| `XPathMeaning.LessRuns` | tinyxpath/xpath_processor.cpp:275-854 | the tape of s < u, action by action, leaves whether the first number is the smaller |
| `XPathTape.Exec` | tinyxpath/xpath_processor.cpp:259-293 | every rule that completes pops at least one action and never runs below the start of the tape |
| `XPathProcessor.Processor.ExecuteOne` | tinyxpath/xpath_processor.cpp:275-854 | the method that moves the tape position and the result stack follows Exec in both modes |
| `XPathProcessor.Processor.ExecuteInfix` | tinyxpath/xpath_processor.cpp:306-673 | the first operand popped goes to slot 1 and the second to slot 0 |
| `XPathProcessor.Processor.ExecuteCall` | tinyxpath/xpath_processor.cpp:772-820 | arguments, name and call happen in the specified order |
| `XPathProcessor.Processor.ExecuteArguments` | tinyxpath/xpath_processor.cpp:778-797 | the argument loop fills its slots from the last to the first, which is source order |
| `XPathProcessor.Processor.FunctionOpposite` | tinyxpath/xpath_processor.cpp:2145-2160 | the top of the stack is negated, whatever the mode |
| `XPathProcessor.ExecuteStack` | tinyxpath/xpath_processor.cpp:252-256 | executing the tape of a whole expression returns the value of the expression or fails with it |
| `TokenRing.RewriteKeepsText` | tinyxpath/tokenlist.cpp:40-109 | merging neither invents nor loses a character of the tokens that are not spaces |
| `TokenRing.SettledIff` | tinyxpath/tokenlist.cpp:40-109 | one pass leaves nothing to merge exactly when no two tokens that survive it with only spaces between them would merge |
| `TokenRing.SecondPassIff` | tinyxpath/tokenlist.cpp:40-109 | a second pass changes nothing exactly under the same condition |
| `TokenRing.FixedIff` | tinyxpath/tokenlist.cpp:40-109 | a pass changes nothing exactly on a settled list |
| `TokenRing.RewriteSettles` | tinyxpath/tokenlist.cpp:40-109 | on a list without spaces one pass leaves nothing to merge and a second changes nothing |
| `TokenRing.SpacedPairMergesLate` | tinyxpath/tokenlist.cpp:101-103 | the two tokens of any mergeable pair merge only in a second pass when a space stands between them |
| `TokenRing.TwoColonsLoseTheLast` | tinyxpath/tokenlist.cpp:47-51 | merging two colons deletes the last token |
| `TokenPieces.PassKeepsPieces` | tinyxpath/tokenlist.cpp:40-109 | however a list is cut into pairs that make an operator of the table and single tokens that make none with the one behind, the pass leaves the operators and the tokens that are not spaces, and the last token |
| `TokenPieces.EveryListHasPieces` | tinyxpath/tokenlist.cpp:40-109 | and every list can be cut that way |
| `TokenPieces.OperatorIsMerge` | tinyxpath/tokenlist.cpp:46-99 | the pairs that merge, and into what, are the six of the table |
| `TokenRing.TokenList.constructor` | tinyxpath/tokenlist.h:57-64 | an empty list is the sentinel linked to itself |
| `TokenRing.TokenList.AddToken` | tinyxpath/tokenlist.h:74-84 | the token is appended and the ring stays circular both ways |
| `TokenRing.TokenList.SetCurrentTop` | tinyxpath/tokenlist.h:87-90 | the current token is the first one, null in an empty list |
| `TokenRing.TokenList.GetNext` | tinyxpath/tokenlist.h:105-110 | the successor of the current token, null at the end or without one |
| `TokenRing.TokenList.IncCurrent` | tinyxpath/tokenlist.h:113-118 | the current token moves on by one, to null behind the last, and stays null |
| `TokenRing.TokenList.ReplaceCurrent` | tinyxpath/tokenlist.h:121-126 | one token changes and the links do not |
| `TokenRing.TokenList.DeleteNext` | tinyxpath/tokenlist.h:142-151 | the successor leaves the list and the ring closes over it |
| `TokenRing.TokenList.DeleteCurrent` | tinyxpath/tokenlist.h:129-139 | the current token leaves the list and its successor, the sentinel behind the last, becomes current |
| `TokenRing.TokenList.TokenizeExpression` | tinyxpath/tokenlist.cpp:40-109 | for every ring the pass terminates with next and prev inverse and the tokens greedily merged from the left, spaces dropped, a final token left alone; the last pointer is not moved, and one that was right still is exactly when the last two tokens did not merge |
| `NodeSet.CompareNodeInTree` | tinyxpath/node_set.cpp:302-344 | for any two nodes, in the tree or not, the answer is that of their first positions in preorder with attributes before children |
| `NodeSet.CompareBelow` | tinyxpath/node_set.cpp:310-343 | the same for the recursive call with its loops over attributes and children |
| `NodeSet.DocumentOrder` | tinyxpath/node_set.cpp:301-344 | for two nodes of a document lower, same and higher mean before, equal and after in document order as defined on paths from the root |
| `NodeSet.OffsetMonotone` | tinyxpath/node_set.cpp:301-344 | preorder lists the nodes of a tree in document order |
| `NodeSet.DescendantsExact` | tinyxpath/node_set.cpp:132-146 | the walk finds exactly the matching elements reached through element children |
| `NodeSet.DescendantsOrdered` | tinyxpath/node_set.cpp:132-146 | it finds them without repetition and in document order |
| `NodeSet.AddAllIsUnion` | tinyxpath/node_set.cpp:181-232 | adding nodes one by one gives a set without duplicates holding what it held and what was added |
| `NodeSet.FreshWalkAppends` | tinyxpath/node_set.cpp:132-146 | a set holding none of the nodes is extended by exactly the walk's nodes in order |
| `NodeSet.NodeSet.Exists` | tinyxpath/node_set.cpp:169-178 | true exactly for the members |
| `NodeSet.NodeSet.AddBase` | tinyxpath/node_set.cpp:181-232 | a new member and its flag go to the end of reallocated arrays, a known one changes nothing, and there are no duplicates |
| `NodeSet.NodeSet.CopySelected` | tinyxpath/node_set.cpp:132-146 | the recursive walk adds the matching descendants as nodes and keeps the set duplicate-free |
| `DomList.XmlNode.LinkEndChild` | tinyxpath/tinyxml.cpp:185-209 | the node is appended to the children unless it is a document; both chains, all parents and every other list of the forest stay right; no cycle is closed exactly when the node is not the parent or above it; a node already on the list leaves pointers that spell no list |
| `DomList.XmlNode.RelinkBreaks` | tinyxpath/tinyxml.cpp:185-209 | after linking a child once more no sequence of children fits the pointers |
| `DomList.XmlNode.InsertEndChild` | tinyxpath/tinyxml.cpp:212-224 | a clone of the node becomes the last child unless it is a document |
| `DomList.XmlNode.Clone` | tinyxpath/tinyxml.cpp:825-869 | the result is a tree of new nodes with the shape that copying makes of the original's, nothing else changes and no cycle arises |
| `DomList.XmlNode.CloneChildren` | tinyxpath/tinyxml.cpp:840-845 | the loop over the children links a clone of each in order |
| `DomList.ShapeExists` | tinyxpath/tinyxml.cpp:136-144 | in a forest without cycles every node is the top of a finite tree, so it can be cloned |
| `DomShapes.CopiedIff` | tinyxpath/tinyxml.cpp:825-846 | the copy of a tree equals it exactly when no attribute is hidden behind a blank one, nothing but elements and documents has children, and no child is a document |
| `DomShapes.CopiedAttributes` | tinyxpath/tinyxml.cpp:830-838 | the copy of an element has the attributes that iteration shows, in their order |
| `DomList.XmlNode.InsertBeforeChild` | tinyxpath/tinyxml.cpp:227-256 | a clone of the node goes in right before the anchor; null and no change for a missing or foreign anchor or a document; the forest and its freedom from cycles are kept |
| `DomList.XmlNode.InsertAfterChild` | tinyxpath/tinyxml.cpp:259-288 | a clone of the node goes in right after the anchor, with the same refusals |
| `DomList.XmlNode.ReplaceChild` | tinyxpath/tinyxml.cpp:291-316 | a clone of the node takes the place of the one replaced, which no list holds any more; null and no change for a foreign one |
| `DomList.XmlNode.RemoveChild` | tinyxpath/tinyxml.cpp:319-339 | the node leaves the children and no list holds it; false and no change for a foreign one; no cycle arises |
| `DomList.XmlNode.FirstChild` | tinyxpath/tinyxml.cpp:341-350 | the forward chain finds the first child with a value, null if there is none |
| `DomList.XmlNode.LastChild` | tinyxpath/tinyxml.cpp:353-362 | the backward chain finds the last one |
| `DomList.Prune` | tinyxpath/tinyxml.cpp:147-158 | a node no list holds can be deleted with everything below it and the rest is still a forest |
| `DomList.Grow` | tinyxpath/tinyxml.cpp:136-144 | a node just constructed joins the forest without parent |
| `AttributeMap.AssignIsUpdate` | tinyxpath/tinyxml.cpp:718-745 | SetAttribute is map update with unique names; a known name keeps its place and a new one goes last |
| `AttributeMap.DropIsDelete` | tinyxpath/tinyxml.cpp:417-430 | RemoveAttribute deletes one name from the map and keeps the order of the others |
| `AttributeMap.ListOfMap` | tinyxpath/tinyxml.cpp:1503-1560 | the map and the order of names determine the list |
| `AttributeMap.ShowsAllIff` | tinyxpath/tinyxml.cpp:1175-1182 | iteration shows every attribute exactly when none but the first has both name and value empty |
| `AttributeMap.BlankHidesRest` | tinyxpath/tinyxml.cpp:1175-1182 | setting an attribute with empty name and value hides the one set after it |
| `AttributeRing.AttributeSet.constructor` | tinyxpath/tinyxml.cpp:1503-1507 | an empty set is the sentinel linked to itself |
| `AttributeRing.AttributeSet.Find` | tinyxpath/tinyxml.cpp:1552-1560 | the attribute with the name, null when there is none |
| `AttributeRing.AttributeSet.Add` | tinyxpath/tinyxml.cpp:1517-1530 | an attribute with a new name goes last and the ring stays circular with unique names |
| `AttributeRing.AttributeSet.Remove` | tinyxpath/tinyxml.cpp:1532-1548 | a linked attribute is taken out and the ring closes over it; an unlinked one changes nothing |
| `AttributeRing.AttributeSet.SetAttribute` | tinyxpath/tinyxml.cpp:718-745 | the pairs afterwards are the overwriting or appending edit of the pairs before |
| `AttributeRing.AttributeSet.RemoveAttribute` | tinyxpath/tinyxml.cpp:417-430 | the pairs afterwards are the pairs before without the name |
| `AttributeRing.AttributeSet.Iterate` | tinyxpath/tinyxml.cpp:783-787 | the loop over First and Next sees the attributes up to the first blank one |
| `XmlAttributeText.AttributeRoundTrip` | tinyxpath/tinyxmlparser.cpp:1390-1465 | for every valid name, every value and every text that follows, parsing what Print wrote returns the name, the value and the place right behind it exactly when the value holds no "&#x" |
| `XmlAttributeText.PrintedReference` | tinyxpath/tinyxml.cpp:60-82 | for every value: parsing what Print wrote gives it with its hexadecimal references resolved to bytes, is refused when one is malformed, and reads on past the quote when the last is not closed |
| `XmlAttributeText.ReferenceIsNotKept` | tinyxpath/tinyxml.cpp:60-82 | the value "&#x41;" comes back as "A" |
| `XmlAttributeText.RunsOn` | tinyxpath/tinyxmlparser.cpp:452-478 | an unclosed reference takes in the text behind the closing quote exactly when that has a number behind an x in front of its first semicolon |
| `XmlAttributeText.UnclosedRunsOn` | tinyxpath/tinyxmlparser.cpp:452-478 | the value "&#x4" in front of the text x41;"b comes back as "A" with b left |
| `XmlAttributeText.NoQuoteInside` | tinyxpath/tinyxml.cpp:1215-1238 | the encoded text of a value without "&#x" holds neither quote, so not the chosen one |
| `XmlAttributeText.ReadBack` | tinyxpath/tinyxmlparser.cpp:575-596 | reading any encoded value up to either quote gives exactly what its resolution says |
| `XmlAttributeText.EntityReads` | tinyxpath/tinyxmlparser.cpp:439-532 | one encoded character reads back as itself whatever follows |
| `XmlAttributeText.ResolveShrinks` | tinyxpath/tinyxml.cpp:60-82 | resolving changes exactly the values that hold "&#x" and makes them shorter |
| `XmlAttributeText.GetEntity` | tinyxpath/tinyxmlparser.cpp:439-532 | an entity that is read uses at least one character and yields at most one |
| `XmlSpelling.PiecesRead` | tinyxpath/tinyxmlparser.cpp:439-638 | sections 4.1 and 4.6 of XML 1.0 with a table of its own: quoted text spelled in any mix of plain characters, the five entities, and decimal and hexadecimal references is read as the characters it spells, low bytes of the numbers |
| `XmlSpelling.SpelledAttribute` | tinyxpath/tinyxmlparser.cpp:1390-1465 | an attribute with such a value in either quote, with white space in front, around the equals sign and anything behind, parses to its name, those characters and the place behind the quote |
| `XmlSpelling.BareAttribute` | tinyxpath/tinyxmlparser.cpp:1448-1462 | a value without quotes runs to white space, a slash or a closing bracket, and a quote inside it refuses the attribute |
| `XmlSpelling.StrayAmpersand` | tinyxpath/tinyxmlparser.cpp:516-531 | an ampersand in front of neither an entity nor a number sign is dropped |
| `XmlSpelling.ReferenceRefused` | tinyxpath/tinyxmlparser.cpp:446-501 | a reference without a semicolon, or with something else than digits behind its last stop, refuses the value |
| `XmlSpelling.EncodeSpells` | tinyxpath/tinyxml.cpp:52-133 | a value without "&#x" is written as a spelling of itself for either quote, without quotes, angle brackets or control characters |
| `XmlSpelling.EntityChoice` | tinyxpath/tinyxml.cpp:84-128 | the entity if there is one, two hexadecimal digits for a control character, and otherwise the character itself |
| `XmlSpelling.PrintSpells` | tinyxpath/tinyxml.cpp:1215-1238 | Print writes the name, an equals sign and a spelling of the value, in single quotes exactly when the value holds a double one |
| `XmlAttributeParser.EncodeString` | tinyxpath/tinyxml.cpp:52-133 | the loop with its pass-through computes the encoding |
| `XmlAttributeParser.PassThrough` | tinyxpath/tinyxml.cpp:75-81 | the inner loop copies up to the next semicolon or all but the last character |
| `XmlAttributeParser.ScanBack` | tinyxpath/tinyxmlparser.cpp:462-501 | the backward digit scan accepts exactly the numbers written after the last stop, and its wrapping 32- and 64-bit sums are exact in the low byte |
| `XmlAttributeParser.ReadEntity` | tinyxpath/tinyxmlparser.cpp:439-532 | the method reads the entity that GetEntity specifies |
| `XmlAttributeParser.ReadQuoted` | tinyxpath/tinyxmlparser.cpp:575-638 | the loop reads the specified text and stops at the specified place, one past the terminator when the quote is missing |
| `XmlAttributeParser.ReadName` | tinyxpath/tinyxmlparser.cpp:402-437 | the longest name at the cursor, null where no name starts |
| `XmlAttributeParser.SkipWhiteSpace` | tinyxpath/tinyxmlparser.cpp:356-363 | the cursor moves past exactly the leading white space |
| `XmlAttributeParser.ReadBare` | tinyxpath/tinyxmlparser.cpp:1448-1462 | a value without quotes runs to white space, slash or angle bracket and is refused at a quote |
| `XmlAttributeParser.ParseAttribute` | tinyxpath/tinyxmlparser.cpp:1390-1465 | the method returns the specified name, value and cursor or refuses |
| `XmlAttributeParser.PrintAttribute` | tinyxpath/tinyxml.cpp:1215-1238 | the text is the encoded name and value with single quotes exactly when the value holds a double one |
| `XmlAttributeParser.PrintThenParse` | tinyxpath/tinyxml.cpp:1215-1238 | printing and then parsing in place returns name, value and the cursor behind the text exactly when the value holds no "&#x" |

## Left out

- Real numbers: their text and their arithmetic depend on the C library and on floating point; `toDouble`, `showReal` and `Library` stand for them, and XPath doubles are exact reals.
- JsonValue.OrderTrichotomy: doubles are real numbers; a NaN in a tree is not modelled, and compares as neither less nor greater nor equal.
- JSON comments: reading skips them as with collectComments off; collecting and placing them, and writing them, are not modelled.
- OurReader, StreamWriterBuilder, StyledStreamWriter and Path: variants of what is modelled, or experimental.
- Value::resize, removeIndex, removeMember, append, conversions and iterators: easy members, or wrong on arrays with holes by their own assertions.
- JsonValue.PutIsMapUpdate: operator[] is modelled on values, with the store through its reference included; references that outlive the call are not modelled.
- Numeric keys: reading one ends in the assertion of asCString, modelled as a thrown fault.
- JsonReader.Reader.ParseDocument: error texts, line numbers and getFormattedErrorMessages are not modelled, only which error at which token.
- JsonParsedTrees.ParseHolds: for documents of fewer than 2^31-1 characters, since the index of an element is an int.
- JsonGrammar.ReadsText: names of 2^30 bytes and more, whose length field truncates, are outside Fits; longer strings are in TooLong.
- JSON arrays with an index of 2^31-1 or more and texts beyond the length fields: outside WellFormed, since the reader's own index is an int.
- FastWriter with null placeholders dropped: its text of an array of nulls is that of a shorter array, so JsonRoundTrip.FastRoundTrip and JsonStyledWriter.LayoutKeepsTokens are for the default.
- Serial reads, port options, close and reopening after an error: one open session is modelled.
- Batch allocator exhaustion: malloc is assumed to succeed and addresses are page and block numbers.
- XPath location paths, steps, predicates, unions, variables and node-set results: outside the tapes modelled; the function table is a parameter.
- XPathTape.Exec: integers do not wrap at 32 bits, nor do doubles that are made integers, taking from an empty result stack counts as an exception, and so does the remainder by zero.
- XPath syntax analysis: well-formed tapes are defined by the rule order its actions are stored in, not derived from the analyser.
- v_document_sort: its comparator passes the same node twice and so never orders anything; the comparison it calls is modelled. The following and preceding axes are left out.
- NodeSet.CompareNodeInTree: trees are values with addresses, and the attributes of an element are those its iteration shows.
- TokenRing.TokenList.AddToken: for lists whose last pointer is right, since the source writes through it; TokenizeExpression says exactly when it stays so.
- DomList.XmlNode.Clone: user data, a text's cdata flag, a declaration's version, encoding and standalone texts and the document's error record are not modelled; an element's attributes are the list its ring holds.
- XmlAttributeText.AttributeRoundTrip: single-byte encoding; UTF-8 reading, streams, white-space condensing, positions and error records are not modelled. A value with both a NUL and "&#x" is printed with a raw NUL, where a C text would end.
- Process start-up, web server, database, plugins and all other hardware drivers of the repository: input and output or foreign code.
