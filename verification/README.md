# Verified models of the libraries carried by FormationOne

FormationOne carries copies of Google Mock and Google Test, of the JSON library Jansson and of the line editor
linenoise. This project models their hardest parts in Dafny and proves what they promise.

- `BipartiteMatching.dfy`: the augmenting-path search behind UnorderedElementsAre, in place on two mutually referring
  vectors. The result is a maximum matching for every graph.
- `HashTable.dfy`: Jansson's hash table, one circular doubly linked list in which every bucket is a contiguous run. Every
  run of operations, rehashes included, behaves as a plain map.
- `Utf8.dfy`, `JsonString.dfy`, `Json.dfy`, `JsonParse.dfy`, `JsonRoundTrip.dfy`: UTF-8, string literals, the text of
  values, the parser as a function, and the law that parsing undoes dumping.
- `JsonGrammar.dfy`, `JsonLiteral.dfy`: the grammar of JSON and of its strings, and that the parser accepts exactly its
  sentences.
- `JsonMeaning.dfy`: the same byte by byte, with the meaning of repeated keys: json_loads returns a value exactly when the
  bytes are a JSON text that means it.
- `JsonLayout.dfy`: the layout of dumped text: indentation, white space and escapes as the flags demand.
- `JsonEqual.dfy`: json_equal as equality of maps.
- `JsonLoaded.dfy`: what a load can return, and that it can be dumped and loaded again.
- `JsonStream.dfy`, `JsonLexer.dfy`: the stream with its one-sequence buffer and push-back, and the mutable lexer and
  parser on top of it, which refine the pure parser.
- `JsonDump.dfy`, `JsonPipeline.dfy`: do_dump on a heap graph with visited marks, and json_dumps followed by json_loads.
- `SimpleRegex.dfy`: the simple regular expressions of Google Test against their languages.
- `Expectations.dfy`: prerequisites, retirement, sequences and whole runs of calls in Google Mock.
- `TestFilter.dfy`, `TestRunner.dfy`, `TestSharding.dfy`, `TestShuffle.dfy`: filters, registration, shuffling, running and
  sharding of tests, and what the shuffle can do.
- `LineHistory.dfy`, `LineEdit.dfy`, `LineKeys.dfy`: the history and the edit buffer of linenoise, refined to a cursor in
  a string, and its keys by their bytes.
- `Bytes.dfy`, `FiniteSets.dfy`, `Division.dfy`: bytes and C strings, set sizes, quotients and remainders.

Code that changes vectors, links, marks or buffers step by step is modelled by classes and methods with loops; their
contracts tie the new state to pure functions, and the laws are lemmas about those functions. What the source gets from
elsewhere is a parameter: the completion callback, the expectations that match the arguments, the seed, the shard, the
flags. Ghost parameters (`facts`, `shape`, `lists`, `dead`) only name the state around a call. Allocation is assumed to
succeed.

Where the code does less than its documentation says, the model follows the code and the exact condition is proved:

- A full match with a pattern that ends in an escaped `$` accepts a prefix (`FullMatchExact`).
- A NUL byte pushed back into the stream is not read again (`NulIsLost`, `Stream.Unget`).
- An object key that is not UTF-8 does not make a dump fail: the result of dump_string on keys is ignored, and the text
  holds what it had written (`DumpString`, `DumpCallback`). A value equal to the one dumped can be loaded from that text
  iff every key that can be reached is UTF-8 (`DumpAndLoad`); `BadKeysComeBackChanged` is an object that loads as another.
- Listeners are shown the cases in registration order even when they run shuffled (`ListenersSeeRunOrder`);
  `TwoCasesShuffled` reaches such a state.
- A line that fills the edit buffer loses its last character when it is recalled (`OlderThenNewer`).
- A completion that does not fit the buffer breaks the buffer invariant (`AcceptCompletion`).
- A session that ends with Enter on a full history, or on one whose last line is empty, costs an entry; one that ends with
  Ctrl-C or with the input leaves an empty line behind (`SessionKeepsHistory`, `SessionsThatChangeHistory`).
- A byte above 127 that ends a choice of completions ends the session (`AdvanceTab`).

## Model

| member | source | states |
|---|---|---|
| BipartiteMatching.MaxBipartiteMatchState.constructor | gmock-1.7.0/src/gmock-matchers.cc:200-204 | both vectors start unused and are mutually referent |
| BipartiteMatching.MaxBipartiteMatchState.TryAugment | gmock-1.7.0/src/gmock-matchers.cc:243-285 | success: the vectors are mutually referent again, exactly `ilhs` became matched, nobody lost a mate, along an augmenting path; failure: nothing changed and the nodes seen form a dead end, so no augmenting path starts at `ilhs`; it terminates because unseen right nodes only decrease |
| BipartiteMatching.MaxBipartiteMatchState.Compute | gmock-1.7.0/src/gmock-matchers.cc:207-238 | although each left node is searched from once, the result lists a matching that no matching of the graph exceeds |
| BipartiteMatching.MaxBipartiteMatchState.MatchedPairs | gmock-1.7.0/src/gmock-matchers.cc:231-237 | the pairs listed are exactly the matched ones, each once |
| BipartiteMatching.DeadEndBlocksPaths | gmock-1.7.0/src/gmock-matchers.cc:243-285 | no augmenting path starts at a node whose neighbours all lie in a dead end: a set of matched right nodes whose mates see nothing outside it |
| BipartiteMatching.DeadEndGivesMaximum | gmock-1.7.0/src/gmock-matchers.cc:210-221 | if every unmatched left node sees only a dead end, the matching is maximum |
| BipartiteMatching.FindMaxBipartiteMatching | gmock-1.7.0/src/gmock-matchers.cc:307-310 | returns the edges of a maximum matching |
| BipartiteMatching.MaximumCoversIffPairing | gmock-1.7.0/src/gmock-matchers.cc:332-333 | a maximum matching has as many edges as there are matchers iff an injective assignment of accepted elements to all matchers exists |
| BipartiteMatching.FindPairing | gmock-1.7.0/src/gmock-matchers.cc:328-357 | true iff some injective assignment gives every matcher an element it accepts |
| BipartiteMatching.VerifyAllElementsAndMatchersAreMatched | gmock-1.7.0/src/gmock-matchers.cc:443-495 | true iff every element has a matcher that accepts it and every matcher accepts some element |
| BipartiteMatching.PairingPassesVerify | gmock-1.7.0/src/gmock-matchers.cc:443-495 | with as many elements as matchers, a matrix with a pairing is never rejected by the check |
| BipartiteMatching.MatchAndExplain | gmock-1.7.0/include/gmock/gmock-matchers.h:3135-3162 | true iff the counts agree and some pairing of all elements with all matchers exists: the cheap check in front of the search changes nothing |
| HashTable.HashStr | jansson-2.5/src/hashtable.c:21-35 | computes the 64-bit hash, with wrap-around and sign-extended bytes |
| HashTable.HashIsDjb2 | jansson-2.5/src/hashtable.c:21-35 | wrapping at every step with sign-extended bytes is 5381 * 33^n plus the signed chars weighted by powers of 33, taken once modulo 2^64 |
| HashTable.ListInsert | jansson-2.5/src/hashtable.c:43-49 | the circular doubly linked list represents the sequence with the node inserted in front of the given one |
| HashTable.ListRemove | jansson-2.5/src/hashtable.c:51-55 | the list represents the sequence without the node |
| HashTable.InsertKeepsBuckets | jansson-2.5/src/hashtable.c:62-75 | after an insertion each bucket is still one contiguous run holding exactly the pairs that hash to it, and every pair is in one run |
| HashTable.RemoveKeepsBuckets | jansson-2.5/src/hashtable.c:129-138 | the same after a removal, with the bucket ends adjusted as the code does |
| HashTable.Hashtable.constructor | jansson-2.5/src/hashtable.c:197-216 | a valid table that represents the empty map |
| HashTable.Hashtable.InsertToBucket | jansson-2.5/src/hashtable.c:62-75 | list, buckets and runs stay consistent and the new pair is added exactly once |
| HashTable.Hashtable.FindPair | jansson-2.5/src/hashtable.c:90-113 | finds the pair of a key iff the key is in the map, with its serial and value |
| HashTable.Hashtable.Relink | jansson-2.5/src/hashtable.c:183-191 | re-inserting the old chain link by link keeps all pairs and rebuilds consistent runs |
| HashTable.Hashtable.Regrow | jansson-2.5/src/hashtable.c:162-194 | the next prime size, consistent runs, the same pairs |
| HashTable.Hashtable.Rehash | jansson-2.5/src/hashtable.c:162-194 | a rehash leaves the represented map unchanged |
| HashTable.Hashtable.AddPair | jansson-2.5/src/hashtable.c:247-265 | adds one pair: the map gains exactly that entry |
| HashTable.Hashtable.ReplaceValue | jansson-2.5/src/hashtable.c:242-246 | replaces the value and keeps the serial |
| HashTable.Hashtable.Set | jansson-2.5/src/hashtable.c:224-267 | map update, with or without a rehash; an existing key keeps its serial |
| HashTable.Hashtable.Get | jansson-2.5/src/hashtable.c:269-283 | map lookup, error case included |
| HashTable.Hashtable.Unlink | jansson-2.5/src/hashtable.c:129-138 | takes one pair out of its run and out of the list, everything else stays |
| HashTable.Hashtable.Del | jansson-2.5/src/hashtable.c:116-146 | map removal; -1 iff the key is absent |
| HashTable.Hashtable.Clear | jansson-2.5/src/hashtable.c:291-305 | the empty map |
| HashTable.Hashtable.IterNext | jansson-2.5/src/hashtable.c:328-334 | the next pair of the list, or null after the last |
| HashTable.Hashtable.Entries | jansson-2.5/src/hashtable.c:307-334 | iteration meets every entry of the map exactly once |
| HashTable.Perform | jansson-2.5/src/hashtable.c:224-305 | one operation updates and answers exactly as the plain map does |
| HashTable.PerformAll | jansson-2.5/src/hashtable.c:224-305 | every sequence of set, get, del and clear, with whatever rehashes it causes, answers as the plain map does; size is the number of keys; the only demand is that a set never meets a map with as many keys as the largest prime |
| Utf8.Utf8CheckFull | jansson-2.5/src/utf.c:83-137 | the byte-by-byte check agrees with the definition of an accepted sequence |
| Utf8.EncodingIsUtf8 | jansson-2.5/src/utf.c:11-45 | length, lead byte and continuation bytes as RFC 3629 lays them out, and the code point they carry |
| Utf8.NextOfEncode | jansson-2.5/src/utf.c:139-163 | decoding the encoding of a scalar value gives it back, whatever follows |
| Utf8.NextIsCanonical | jansson-2.5/src/utf.c:139-163 | whatever is decoded is a scalar value (no surrogate, no overlong form) and its own encoding is what was read |
| Utf8.CheckFullOfEncode | jansson-2.5/src/utf.c:83-137 | the encoding of a scalar value passes the check with that value |
| Utf8.DecodeEncodeAll | jansson-2.5/src/utf.c:139-163 | decode after encode is the identity on sequences of scalar values |
| Utf8.EncodeAllDecode | jansson-2.5/src/utf.c:139-163 | encode after decode is the identity on valid text |
| Utf8.Utf8CheckString | jansson-2.5/src/utf.c:165-190 | accepts exactly the encodings of sequences of scalar values |
| JsonString.DecodeUnicodeEscape | jansson-2.5/src/load.c:283-304 | the value of four hex digits; its assertion never fails on text the first pass accepted |
| JsonString.HexDigits | jansson-2.5/src/load.c:283-304 | the 22 hex digits with their values, the same in both cases; lower case is written |
| JsonString.UEscapeRoundTrip | jansson-2.5/src/load.c:283-304 | a written `\u` escape reads back as its value |
| JsonString.ScanStretch | jansson-2.5/src/dump.c:83-102 | the inner loop stops at the end or at the next character that needs an escape, or reports bad UTF-8 |
| JsonString.DumpString | jansson-2.5/src/dump.c:68-158 | fails exactly on text that is not UTF-8; otherwise appends the literal whose characters are escaped one by one; on failure it has written the opening quote and the characters up to the last escaped one before the bad byte, the stretch behind it being lost |
| JsonString.StringRoundTrip | jansson-2.5/src/dump.c:112-154 | for every flag choice both passes of the lexer read the written characters back, code points above the BMP through surrogate pairs included |
| JsonString.LiteralRoundTrip | jansson-2.5/src/load.c:306-459 | the lexer applied to the output of dump_string gives back the same bytes |
| JsonString.AsciiOnly | jansson-2.5/src/dump.c:97-149 | with ENSURE_ASCII every byte written is below 0x80 |
| JsonString.Unescape | jansson-2.5/src/load.c:361-455 | defined wherever the first pass accepts, so the second pass meets the same escape boundaries; writes no more bytes than the literal holds |
| JsonString.SecondPassRejects | jansson-2.5/src/load.c:391-427 | after an accepting first pass, the second rejects exactly an unpaired surrogate or an escaped NUL |
| JsonString.LiteralEnds | jansson-2.5/src/load.c:306-459 | neither pass depends on what follows the closing quote |
| JsonString.DecodeLiteral | jansson-2.5/src/load.c:361-455 | the decoding loop computes Unescape |
| JsonRoundTrip.OrderedSorts | jansson-2.5/src/dump.c:160-172 | SORT_KEYS orders members strictly by strcmp, PRESERVE_ORDER alone by serial |
| JsonRoundTrip.StrLessMeans | jansson-2.5/src/dump.c:160-163 | strcmp: the first different byte decides, and a prefix comes first |
| JsonRoundTrip.UnsortedStays | jansson-2.5/src/dump.c:360-395 | without the two flags members are written in the order of the hash table |
| Json.Ordered | jansson-2.5/src/dump.c:302-328 | the order of dumping is a permutation of the members |
| JsonRoundTrip.LexInteger | jansson-2.5/src/load.c:473-516 | the text of every 64-bit integer is lexed back to it |
| JsonRoundTrip.ValueReads | jansson-2.5/src/load.c:784-846 | the text of a value, in any delimiting context and at any depth, is parsed back to it |
| JsonRoundTrip.RenumberedEqual | jansson-2.5/src/value.c:864-895 | reordering members and renumbering serials gives a value that json_equal calls equal |
| JsonRoundTrip.RoundTrip | jansson-2.5/src/load.c:848-879 | for every value without reals and every choice of dump and load flags, parsing the dumped text succeeds and gives an equal value, JSON_REJECT_DUPLICATES included |
| JsonRoundTrip.TextValid | jansson-2.5/src/dump.c:174-410 | everything dumped from C strings is NUL-free UTF-8, even where a string or key is not |
| JsonRoundTrip.LoadsWhatWasDumped | jansson-2.5/src/load.c:901-924 | the same law through the stream of json_loads: the text is delivered whole |
| JsonGrammar.ValueIsSentence | jansson-2.5/src/load.c:671-846 | whatever parse_value accepts is a sentence of the JSON grammar spelled by exactly the tokens it consumed, and its result is the value of that sentence |
| JsonGrammar.SentenceIsRead | jansson-2.5/src/load.c:671-846 | every sentence of the grammar is accepted with its value, leaving what follows |
| JsonGrammar.ParserAcceptsExactly | jansson-2.5/src/load.c:848-879 | parse_json returns a value iff the text is that of a sentence with that value: no trailing commas, no missing colons, nothing after it; the value of a sentence is the one JsonMeaning describes |
| JsonGrammar.NumberIsGrammatical | jansson-2.5/src/load.c:473-566 | every number token is spelled by a number of the grammar, an integer iff there is neither fraction nor exponent |
| JsonGrammar.NumberIsLexed | jansson-2.5/src/load.c:473-566 | every number of the grammar is lexed as a whole where nothing continues it; an integer outside 64 bits is rejected |
| JsonMeaning.ObjectMembers | jansson-2.5/src/load.c:716-720 | the members of a parsed object are the first occurrences of the keys, in their order and with their index as serial, and under each key stands the value of the last pair with it |
| JsonMeaning.ValueIsMeant | jansson-2.5/src/load.c:671-846 | the same at every depth: the value returned is one that the sentence means |
| JsonMeaning.MeaningIsUnique | jansson-2.5/src/load.c:671-846 | a sentence means one value only |
| JsonMeaning.NoRepeatsMeans | jansson-2.5/src/load.c:690-697 | JSON_REJECT_DUPLICATES rejects exactly the sentences in which some object has two pairs with one key |
| JsonMeaning.TokensAreSpelled | jansson-2.5/src/load.c:568-636 | a token is read iff the text is blanks (space, tab, newline, carriage return), its spelling and the rest: one of six marks, a string literal, a number that nothing continues, or true, false or null not followed by a letter |
| JsonMeaning.EndIsBlank | jansson-2.5/src/load.c:579-590 | the end of input is seen iff only blanks are left and the stream is not broken |
| JsonMeaning.ParserReadsTexts | jansson-2.5/src/load.c:848-879 | parse_json returns a value iff the bytes spell a JSON sentence that means this value, under all load flags |
| JsonLiteral.ItemsAreRead | jansson-2.5/src/load.c:306-459 | any sequence of raw bytes, two-character escapes and escaped UTF-16 code units before a quote is read as the bytes it denotes, or rejected if it denotes none (a surrogate alone, a NUL) |
| JsonLiteral.LiteralIsSpelled | jansson-2.5/src/load.c:306-359 | whatever the first pass accepts is spelled by such a sequence |
| JsonLiteral.StringsAreExactlyLiterals | jansson-2.5/src/load.c:306-459 | a string token with its value and rest is read iff some such sequence spells the text before the closing quote and denotes that value |
| JsonLoaded.LiteralIsValid | jansson-2.5/src/load.c:306-459 | from NUL-free UTF-8 the string read is NUL-free UTF-8 and so is the rest, raw multi-byte characters and escapes mixed |
| JsonLoaded.TokenIsGood | jansson-2.5/src/load.c:568-636 | every token keeps the input cut at a character boundary; string tokens are NUL-free UTF-8, integers fit 64 bits |
| JsonLoaded.SetIsGood | jansson-2.5/src/load.c:716-720 | setting a member keeps keys and serials distinct, whether the key is new or replaced |
| JsonLoaded.ParsedIsLoaded | jansson-2.5/src/load.c:848-879 | every string and key parse_json returns is NUL-free UTF-8, integers fit 64 bits, keys and serials are distinct, at every depth |
| JsonLoaded.LoadReturnsLoaded | jansson-2.5/src/load.c:901-924 | the same for json_loads on any C string, valid UTF-8 or not |
| JsonLoaded.LoadedCanBeDumped | jansson-2.5/src/load.c:901-924 | the converse round trip: a value without reals that was loaded is dumped under any flags to text that loads to an equal value |
| JsonDump.DumpIndent | jansson-2.5/src/dump.c:46-66 | appends the newline and depth-fold indentation, or the single space |
| JsonDump.DumpScalar | jansson-2.5/src/dump.c:177-218 | appends the text of a scalar; fails exactly on a string that is not UTF-8 |
| JsonDump.RefusedByChild | jansson-2.5/src/dump.c:226-230 | a walk from a child that repeats, meets a container being dumped or ends in a bad string is one from the parent |
| JsonDump.NotRefused | jansson-2.5/src/dump.c:243-262 | if no child is refused below it, a container not on the stack is not refused |
| JsonDump.OrderedSameHeads | jansson-2.5/src/dump.c:302-328 | sorting (key, serial) pairs gives the order of sorting whole members |
| JsonDump.VisitedIsArranged | jansson-2.5/src/dump.c:330-337 | looking the sorted keys up again visits the members in that order |
| JsonDump.EveryEntryVisited | jansson-2.5/src/dump.c:330-337 | whatever the order, every member is visited |
| JsonDump.CollectKeys | jansson-2.5/src/dump.c:313-322 | collects key and serial of every member |
| JsonDump.DumpElems | jansson-2.5/src/dump.c:240-259 | the element loop: succeeds iff no element is refused; writes the elements with separators and indentation |
| JsonDump.DumpArray | jansson-2.5/src/dump.c:220-267 | array case: result, marks and text as for DoDump |
| JsonDump.DumpMembers | jansson-2.5/src/dump.c:302-395 | the member loops: succeeds iff no value is refused; the result of dump_string on keys is ignored as in the code, and the text holds whatever it wrote |
| JsonDump.DumpObject | jansson-2.5/src/dump.c:269-403 | object case: result, marks and text as for DoDump |
| JsonDump.DoDump | jansson-2.5/src/dump.c:174-410 | terminates on every heap graph; fails iff some walk from the node meets a container being dumped, repeats a node or ends in a string that is not UTF-8; on success the marks are restored, on failure no new mark stays; the text is that of the unfolded tree, a key that is not UTF-8 being cut as dump_string cuts it |
| JsonDump.DumpCallback | jansson-2.5/src/dump.c:448-456 | from clear marks: succeeds iff the root may be dumped and no reachable cycle or bad string exists (shared children are fine); all marks are clear afterwards in both cases; on success the text is that of the tree, whatever bytes the keys hold |
| JsonLayout.CharRead | jansson-2.5/src/dump.c:112-149 | a character is written raw unless a flag or JSON forbids it, as a two-character escape if there is one, and otherwise by lower-case code units |
| JsonLayout.ValueLaid | jansson-2.5/src/dump.c:174-410 | at any depth the text of a value puts between two marks exactly the white space the layout wants |
| JsonLayout.DumpIsLaidOut | jansson-2.5/src/dump.c:174-410 | for every value with UTF-8 strings and every choice of flags, each byte of the dumped text is one the layout allows there, and the text ends with all brackets closed |
| JsonLayout.LinesAreIndented | jansson-2.5/src/dump.c:46-60 | each line starts with the indentation times the number of open brackets, a closing bracket counted first; without indentation there are no lines |
| JsonLayout.OneItemPerLine | jansson-2.5/src/dump.c:231-258 | with indentation a comma and an opening bracket end the line, and a closing bracket starts one, unless the container is empty |
| JsonLayout.SpacesAreWanted | jansson-2.5/src/dump.c:276-283 | a colon is followed by one space unless COMPACT; without indentation so is a comma, and there is no other white space outside literals |
| JsonLayout.SlashesAreEscaped | jansson-2.5/src/dump.c:92-94 | a slash in a literal has a backslash before it iff ESCAPE_SLASH is set |
| JsonEqual.EqualIsSameDatum | jansson-2.5/src/value.c:864-895 | json_equal holds iff the two values are identical when objects are taken as maps from keys to values |
| JsonPipeline.ReachedIsProper | jansson-2.5/src/dump.c:174-410 | if no string or key that is not UTF-8 can be reached, the unfolded tree is a value the round-trip law covers |
| JsonPipeline.KeysOfEqual | jansson-2.5/src/value.c:260-277 | a value that json_equal calls equal to a loaded one has only UTF-8 keys |
| JsonPipeline.ReachedKeys | jansson-2.5/src/dump.c:269-403 | every key on a walk from the root is a key of the unfolded tree |
| JsonPipeline.DumpedComesBack | jansson-2.5/src/load.c:901-924 | if the dump succeeded, loading its text gives a value equal to the tree iff every reachable key is UTF-8 and the flags admit the root |
| JsonPipeline.DumpAndLoad | jansson-2.5/src/dump.c:412-427 | json_dumps followed by json_loads on a heap graph with strings and keys of any bytes: a value equal to the tree comes back iff no cycle is reachable, every reachable string and key is UTF-8, and the root is a container or both flags allow any value; whatever is returned is well formed |
| JsonPipeline.BadKeysComeBackChanged | jansson-2.5/src/dump.c:339-380 | an object with the keys 0xFF and 0xFE is dumped to the text of another object and loads as that one |
| JsonStream.Stream.constructor | jansson-2.5/src/load.c:134-146 | line 1, column 0, position 0 |
| JsonStream.Stream.FetchTail | jansson-2.5/src/load.c:177-178 | fills the buffer with the rest of a sequence, 0xFF standing for the end of input |
| JsonStream.Stream.FillSequence | jansson-2.5/src/load.c:166-184 | accepts exactly when the input continues with a whole UTF-8 sequence |
| JsonStream.Stream.Fill | jansson-2.5/src/load.c:155-187 | buffers the next sequence, or sets the state at the end of the deliverable input |
| JsonStream.Stream.Count | jansson-2.5/src/load.c:191-201 | the three counters follow the bytes consumed |
| JsonStream.Stream.Deliver | jansson-2.5/src/load.c:189-203 | hands out the next byte and counts it |
| JsonStream.Stream.Get | jansson-2.5/src/load.c:148-209 | delivers the deliverable bytes in order, then the end or error code for ever; a data byte is never one of the codes; Valid ties position, line and column to the bytes consumed |
| JsonStream.Stream.Uncount | jansson-2.5/src/load.c:216-222 | restores line, column and position |
| JsonStream.Stream.Unget | jansson-2.5/src/load.c:211-227 | for a byte other than NUL, restores all counters and delivers the byte again |
| JsonStream.NulIsLost | jansson-2.5/src/load.c:155-156 | a NUL that is pushed back is not delivered again |
| JsonStream.ColumnCountsCodePoints | jansson-2.5/src/load.c:192-201 | the column is the number of code points since the last newline |
| JsonStream.AllGood | jansson-2.5/src/load.c:166-184 | the whole input is deliverable iff it is valid UTF-8 |
| JsonStream.GoodBytesAreNotCodes | jansson-2.5/src/load.c:24-26 | no deliverable byte can be taken for the EOF or ERROR code |
| JsonLexer.Lexer.Get | jansson-2.5/src/load.c:230-233 | the next byte of the text, or the terminal code |
| JsonLexer.Lexer.Advance | jansson-2.5/src/load.c:240-246 | moves one byte on; the saved text is what was read |
| JsonLexer.Lexer.Retreat | jansson-2.5/src/load.c:253-270 | puts the last byte back into the stream and takes it out of the saved text |
| JsonLexer.Lexer.ScanNumber | jansson-2.5/src/load.c:473-566 | token and remaining input are those of the number grammar; the look-ahead byte is put back |
| JsonLexer.Lexer.FirstPass | jansson-2.5/src/load.c:306-359 | reads exactly up to the closing quote, or fails as ScanBody does |
| JsonLexer.Lexer.ScanString | jansson-2.5/src/load.c:306-459 | both passes together give the token of LexString |
| JsonLexer.Lexer.Scan | jansson-2.5/src/load.c:568-636 | the next token of the text, whatever was buffered |
| JsonLexer.Lexer.ReadValue | jansson-2.5/src/load.c:784-846 | parse_value over the mutable lexer gives the value of the pure parser and stops where it stops |
| JsonLexer.Lexer.ReadArray | jansson-2.5/src/load.c:744-782 | the same for parse_array |
| JsonLexer.Lexer.ReadObject | jansson-2.5/src/load.c:671-742 | the same for parse_object, duplicate keys replaced or rejected |
| JsonLexer.Lexer.ReadJson | jansson-2.5/src/load.c:848-879 | the same for parse_json, with its flags |
| JsonLexer.LoadString | jansson-2.5/src/load.c:901-924 | json_loads returns what the pure parser returns on the deliverable prefix |
| SimpleRegex.Grammar | gmock-1.7.0/fused-src/gmock-gtest-all.cc:8467-8521 | the text grammar is unambiguous: a text parses to an expression iff it is that well-formed expression written out |
| SimpleRegex.AtomsByCode | gmock-1.7.0/fused-src/gmock-gtest-all.cc:8421-8434 | which atoms there are, by character codes |
| SimpleRegex.AtomByCode | gmock-1.7.0/fused-src/gmock-gtest-all.cc:8438-8457 | the characters every atom matches, by their codes: a dot all but newline, digits, blanks, word characters, their complements, the five control escapes, and any other character itself |
| SimpleRegex.ScanMeansRegex | gmock-1.7.0/fused-src/gmock-gtest-all.cc:8478-8518 | the character scan accepts exactly the texts that parse |
| SimpleRegex.ValidateRegex | gmock-1.7.0/fused-src/gmock-gtest-all.cc:8467-8521 | true iff the text is a sentence of the grammar |
| SimpleRegex.MatchRepetitionAndRegexAtHead | gmock-1.7.0/fused-src/gmock-gtest-all.cc:8530-8552 | true iff the repeated atom can take some prefix such that the rest of the expression matches behind it |
| SimpleRegex.MatchRegexAtHead | gmock-1.7.0/fused-src/gmock-gtest-all.cc:8557-8583 | for every valid expression: true iff some prefix is in its language (the whole string under a final $); the mutual recursion terminates |
| SimpleRegex.MatchRegexAnywhere | gmock-1.7.0/fused-src/gmock-gtest-all.cc:8593-8606 | true iff some substring is in the language, placed as the anchors demand |
| SimpleRegex.FullPatternParses | gmock-1.7.0/fused-src/gmock-gtest-all.cc:8640-8657 | the full pattern is the expression anchored at both ends, except that an escaped $ at the end is taken for the anchor |
| SimpleRegex.RE.constructor | gmock-1.7.0/fused-src/gmock-gtest-all.cc:8627-8658 | validity and full pattern of the text |
| SimpleRegex.RE.FullMatch | gmock-1.7.0/fused-src/gmock-gtest-all.cc:8616-8618 | true iff the text is valid and the whole string is in the language; for a pattern that ends in an escaped $, iff a prefix is |
| SimpleRegex.RE.PartialMatch | gmock-1.7.0/fused-src/gmock-gtest-all.cc:8622-8624 | true iff the text is valid and some substring matches |
| SimpleRegex.FullMatchExact | gmock-1.7.0/fused-src/gmock-gtest-all.cc:8654-8655 | FullMatch decides membership of the whole string for every subject iff the pattern does not end in an escaped $ |
| SimpleRegex.EscapedDollarExample | gmock-1.7.0/fused-src/gmock-gtest-all.cc:8654-8655 | the pattern `\$` fully matches `$x`, which its language does not contain |
| Expectations.Expectation.constructor | gmock-1.7.0/src/gmock-cardinalities.cc:52-54 | the bounds are clamped to 0 <= min <= max |
| Expectations.Expectation.RetireAllPreRequisites | gmock-1.7.0/src/gmock-spec-builders.cc:95-111 | retires exactly the transitive prerequisites and keeps the retired set closed |
| Expectations.RetiredAncestors | gmock-1.7.0/src/gmock-spec-builders.cc:97-101 | behind a retired expectation everything is retired: the early return skips nothing |
| Expectations.Expectation.AllPrerequisitesAreSatisfied | gmock-1.7.0/src/gmock-spec-builders.cc:115-126 | true iff every transitive prerequisite has been called at least min and at most max times |
| Expectations.Expectation.FindUnsatisfiedPrerequisites | gmock-1.7.0/src/gmock-spec-builders.cc:129-146 | adds exactly the unsatisfied prerequisites reached through satisfied ones that were never called |
| Expectations.ShortcutLosesNothing | gmock-1.7.0/src/gmock-spec-builders.cc:133-145 | if called satisfied expectations have satisfied prerequisites, the set found is empty iff all transitive prerequisites are satisfied, and it holds only unsatisfied ones |
| Expectations.RunsAreSettled | gmock-1.7.0/src/gmock-spec-builders.cc:133-138 | that hypothesis holds in every reachable state |
| Expectations.Expectation.GetActionForArguments | gmock-1.7.0/include/gmock/gmock-spec-builders.h:1188-1218 | an excessive call is only counted; any other counts, retires the prerequisites and perhaps the expectation |
| Expectations.CallKeepsInv | gmock-1.7.0/include/gmock/gmock-spec-builders.h:1188-1218 | a handled call keeps: acyclic, retired set closed, retired means satisfied, prerequisites of a called expectation retired |
| Expectations.CallKeepsAccounted | gmock-1.7.0/include/gmock/gmock-spec-builders.h:1188-1218 | the log accounts for everything: an expectation is retired iff a successor of it handled a call in time, or it did itself, saturated and retiring on saturation; a call is excessive iff its expectation had had max calls before |
| Expectations.CallKeepsLog | gmock-1.7.0/include/gmock/gmock-spec-builders.h:1188-1218 | no ancestor of an expectation that handled a call in time handles a later call |
| Expectations.PrerequisitesComeFirst | gmock-1.7.0/include/gmock/gmock-spec-builders.h:1092-1102 | in every run, when an expectation handles a call in time all calls of each transitive prerequisite lie before it, and those calls satisfied the prerequisite |
| Expectations.Registry.Expect | gmock-1.7.0/include/gmock/gmock-spec-builders.h:1545-1563 | a new expectation keeps every invariant |
| Expectations.Registry.Require | gmock-1.7.0/src/gmock-spec-builders.cc:786-788 | one more immediate prerequisite of an expectation not called yet keeps the graph acyclic and every invariant |
| Expectations.Registry.After | gmock-1.7.0/include/gmock/gmock-spec-builders.h:964-975 | the immediate prerequisites grow by exactly the set given |
| Expectations.Registry.AddExpectation | gmock-1.7.0/src/gmock-spec-builders.cc:784-792 | the expectation is chained behind the last one of the sequence, unless it is the last one |
| Expectations.SequenceIsOrdered | gmock-1.7.0/src/gmock-spec-builders.cc:784-792 | every member of a sequence has all earlier members as transitive prerequisites |
| Expectations.CallsFollowSequence | gmock-1.7.0/src/gmock-spec-builders.cc:784-792 | once a member of a sequence handles a call in time, no earlier member handles another |
| Expectations.Registry.FindMatchingExpectation | gmock-1.7.0/include/gmock/gmock-spec-builders.h:1658-1672 | the newest active matching expectation whose prerequisites are satisfied, or none |
| Expectations.Registry.Call | gmock-1.7.0/include/gmock/gmock-spec-builders.h:1623-1646 | a call is refused iff no declared expectation matches that the log has not retired and whose transitive prerequisites have all been called between min and max times in the log; otherwise the newest such one handles it, state and log change as specified and every invariant is kept |
| TestFilter.PatternMeaning | gmock-1.7.0/fused-src/gmock-gtest-all.cc:1924-1939 | the recursive matcher agrees with cutting the string into one part per pattern character, up to the first : or the end |
| TestFilter.PatternsSplit | gmock-1.7.0/fused-src/gmock-gtest-all.cc:1941-1960 | the patterns of a filter joined by : give the filter back |
| TestFilter.MatchesFilter | gmock-1.7.0/fused-src/gmock-gtest-all.cc:1941-1960 | true iff some :-separated pattern matches the name |
| TestFilter.FilterMatchesTest | gmock-1.7.0/fused-src/gmock-gtest-all.cc:1964-1990 | accepts iff the full name matches a positive pattern and no negative one; an empty positive part before a dash means everything, an empty negative part excludes nothing |
| TestFilter.DeathTestNames | gmock-1.7.0/fused-src/gmock-gtest-all.cc:1642-1642 | a case is a death-test case iff its name ends in DeathTest or has DeathTest/ in it |
| TestFilter.DisabledNames | gmock-1.7.0/fused-src/gmock-gtest-all.cc:1637-1637 | a test or case is disabled iff its name starts with DISABLED_ or has /DISABLED_ in it |
| TestRunner.Random.Generate | gmock-1.7.0/fused-src/gmock-gtest-all.cc:1775-1789 | the next state of the generator in 32-bit arithmetic and its remainder, below the range |
| TestRunner.ShuffleRange | gmock-1.7.0/fused-src/gmock-gtest-all.cc:711-729 | the result is the Fisher-Yates shuffle for the state of the generator, and it is the vector rearranged by a permutation that moves nothing across the range |
| TestRunner.TestCase.AddTestInfo | gmock-1.7.0/fused-src/gmock-gtest-all.cc:3907-3910 | the test is appended and the indices stay a permutation |
| TestRunner.TestCase.ShuffleTests | gmock-1.7.0/fused-src/gmock-gtest-all.cc:3947-3949 | the indices are shuffled as ShuffleRange does and stay a permutation |
| TestRunner.TestCase.UnshuffleTests | gmock-1.7.0/fused-src/gmock-gtest-all.cc:3952-3956 | the indices are the identity |
| TestRunner.TestCase.Run | gmock-1.7.0/fused-src/gmock-gtest-all.cc:3913-3938 | what runs is the list of indices filtered by should_run, so each such test exactly once and in that order |
| TestRunner.UnitTest.GetTestCase | gmock-1.7.0/fused-src/gmock-gtest-all.cc:5657-5690 | returns the case of that name; a new one is registered, death-test cases staying in front and each kind in order of registration |
| TestRunner.UnitTest.Register | gmock-1.7.0/fused-src/gmock-gtest-all.cc:5673-5688 | the registration step: every layout invariant is kept |
| TestRunner.UnitTest.AddTest | gmock-1.7.0/fused-src/gmock-gtest-all.cc:1055-1075 | the test is appended to the case of its name, new or not; all other cases stay |
| TestRunner.UnitTest.ShuffleTests | gmock-1.7.0/fused-src/gmock-gtest-all.cc:6085-6097 | shuffles death-test cases, other cases and the tests of each case with one generator; the case indices stay a permutation that keeps death-test cases first, and the indices inside every case a permutation |
| TestRunner.ShuffleEach | gmock-1.7.0/fused-src/gmock-gtest-all.cc:6094-6096 | shuffles the tests inside each case, one after the other |
| TestRunner.UnitTest.ShuffleCases | gmock-1.7.0/fused-src/gmock-gtest-all.cc:6086-6091 | shuffles the two kinds of cases apart |
| TestRunner.UnitTest.UnshuffleTests | gmock-1.7.0/fused-src/gmock-gtest-all.cc:6100-6107 | after any shuffles, the order of registration again, in every case too |
| TestRunner.UnitTest.RunAllTests | gmock-1.7.0/fused-src/gmock-gtest-all.cc:5797-5800 | the log is the concatenation, over the case indices in order, of the selected tests of each case in the order of its own indices; so exactly the selected tests, each once, all death tests before all others |
| TestRunner.UnitTest.ListenersSeeRunOrder | gmock-1.7.0/fused-src/gmock-gtest-all.cc:985-997 | the const accessor shows listeners the order in which cases run iff the cases are not shuffled |
| TestRunner.TwoCasesShuffled | gmock-1.7.0/fused-src/gmock-gtest-all.cc:985-997 | two cases registered and shuffled from seed 1: at both positions listeners are shown the other case |
| TestShuffle.GeneratorIsAffine | gmock-1.7.0/fused-src/gmock-gtest-all.cc:1775-1789 | the generator is affine modulo 2^31 and takes 0 and 1 to 12345 and 1103527590, which fixes it everywhere |
| TestShuffle.ShuffleChooses | gmock-1.7.0/fused-src/gmock-gtest-all.cc:711-729 | the k-th exchange uses the k-th draw modulo the width that is left |
| TestShuffle.EveryOrderIsReached | gmock-1.7.0/fused-src/gmock-gtest-all.cc:711-729 | every rearrangement of the range comes from some sequence of choices |
| TestShuffle.EachOrderOnce | gmock-1.7.0/fused-src/gmock-gtest-all.cc:711-729 | and from one only: the shuffle is unbiased if its choices are |
| TestSharding.FilterTest | gmock-1.7.0/fused-src/gmock-gtest-all.cc:5957-5985 | sets the flags of one test: disabled, matching, selected |
| TestSharding.FilterCase | gmock-1.7.0/fused-src/gmock-gtest-all.cc:5952-5987 | one test case: its flags, those of its tests and both counters |
| TestSharding.FilterTests | gmock-1.7.0/fused-src/gmock-gtest-all.cc:5939-5990 | a test is selected iff it is runnable and its number among the runnable ones falls to the shard; returns how many |
| TestSharding.ShardsPartition | gmock-1.7.0/fused-src/gmock-gtest-all.cc:5928-5930 | a runnable test is selected by exactly one shard, any other by none |
| TestSharding.EvenShares | gmock-1.7.0/fused-src/gmock-gtest-all.cc:5928-5930 | shard s gets n / total tests, and one more iff s < n mod total |
| TestSharding.SharesDifferByOne | gmock-1.7.0/fused-src/gmock-gtest-all.cc:5928-5930 | shard sizes differ by at most one |
| TestSharding.SharesSumToAll | gmock-1.7.0/fused-src/gmock-gtest-all.cc:5928-5930 | the counts returned by the shards sum to the number of runnable tests |
| TestSharding.RunIteration | gmock-1.7.0/fused-src/gmock-gtest-all.cc:5741-5832 | one iteration runs exactly the runnable tests of the shard, each once, in the order of registration or in the Fisher-Yates order that the seed gives to cases and tests, death tests first either way, and ends in registration order; unless disabled tests run too, no test runs that is disabled by its name or that of its case, and every other test the filter accepts runs on exactly the shard of its number |
| LineEdit.Editor.constructor | cmdconsole/linenoise.c:710-734 | an empty line, which becomes the last history entry |
| LineEdit.Editor.Move | cmdconsole/linenoise.c:595-595 | memmove within the buffer |
| LineEdit.Editor.EditInsert | cmdconsole/linenoise.c:580-604 | inserts before the cursor unless the buffer is full |
| LineEdit.Editor.EditMoveLeft | cmdconsole/linenoise.c:607-612 | one character moves behind the cursor |
| LineEdit.Editor.EditMoveRight | cmdconsole/linenoise.c:615-620 | one character moves before the cursor |
| LineEdit.Editor.EditMoveHome | cmdconsole/linenoise.c:623-628 | everything behind the cursor |
| LineEdit.Editor.EditMoveEnd | cmdconsole/linenoise.c:631-636 | everything before the cursor |
| LineEdit.Editor.EditHistoryNext | cmdconsole/linenoise.c:642-662 | saves the line into its entry, then shows the neighbouring entry, cut to the buffer |
| LineEdit.Editor.EditDelete | cmdconsole/linenoise.c:666-673 | removes the character behind the cursor |
| LineEdit.Editor.EditBackspace | cmdconsole/linenoise.c:676-684 | removes the character before the cursor |
| LineEdit.Editor.EditTranspose | cmdconsole/linenoise.c:778-786 | exchanges the two characters around the cursor |
| LineEdit.Editor.EditDeletePrevWord | cmdconsole/linenoise.c:688-700 | removes the spaces before the cursor and the word before them |
| LineEdit.Editor.PressKey | cmdconsole/linenoise.c:756-880 | every key acts as its simple edit on (text before, text after) the cursor, the history and the index |
| LineEdit.Editor.EditLine | cmdconsole/linenoise.c:737-880 | over every NUL-free input and with any completion callback, line, history and outcome are those of the string model; the buffer invariant (pos <= len <= buflen, NUL at len, none before) holds unless a completion that does not fit was accepted |
| LineEdit.Editor.AcceptCompletion | cmdconsole/linenoise.c:382-385 | the buffer invariant survives iff the completion is shorter than the buffer; then the line is the completion |
| LineEdit.Editor.CompleteLine | cmdconsole/linenoise.c:338-394 | after t more tabs the completion accepted is number t modulo one more than there are; Escape, end of input and the extra place change nothing; the buffer invariant survives iff what was accepted fits |
| LineEdit.Editor.AdvanceTab | cmdconsole/linenoise.c:746-753 | a Tab with a callback set: end of input and a negative char end the session, no completions means the next byte, otherwise the byte that ended the choice is served next |
| LineEdit.PressKeepsOk | cmdconsole/linenoise.c:756-880 | every key keeps the session within the buffer, NUL-free and with the history index in range |
| LineEdit.OlderThenNewer | cmdconsole/linenoise.c:642-662 | going to the older entry and back shows the line again iff it did not fill the buffer; a full line loses its last character |
| LineHistory.History.Add | cmdconsole/linenoise.c:995-1022 | appends unless it repeats the last line; the oldest line leaves a full history |
| LineHistory.History.SetMaxLen | cmdconsole/linenoise.c:1028-1054 | refuses lengths below 1; keeps the latest lines |
| LineHistory.HistoryIsSuffix | cmdconsole/linenoise.c:995-1054 | under any mix of additions and changes of the maximum, the history is a suffix of the deduplicated log |
| LineHistory.LogHasNoRepeats | cmdconsole/linenoise.c:1007-1008 | a line that repeats the last is not logged, any other is, as the last |
| LineHistory.HistoryLength | cmdconsole/linenoise.c:995-1054 | how many of the last lines are kept: one more for each line that does not repeat the last, up to the maximum, and cut by a new one |
| LineHistory.Perform | cmdconsole/linenoise.c:995-1054 | the operations on the object follow the run of the model |
| LineEdit.EntriesStay | cmdconsole/linenoise.c:737-880 | whatever is typed, completions included, a run that presses neither history key leaves the history alone |
| LineEdit.SessionKeepsHistory | cmdconsole/linenoise.c:732-880 | a whole session without history keys leaves the history as it was iff: ended by Enter or by Ctrl-D on an empty line, there was room for one more line and the last line was not empty; ended by Ctrl-C, end of input or a negative char, the last line was empty |
| LineEdit.SessionsThatChangeHistory | cmdconsole/linenoise.c:756-763 | Enter on the full history [a] of length 1 loses a; Ctrl-C leaves an empty line behind |
| LineEdit.ReadLine | cmdconsole/linenoise.c:710-880 | the same on the heap, from the first line of linenoiseEdit on |
| LineKeys.ByteIsServed | cmdconsole/linenoise.c:756-880 | what every byte does to the text and the cursor position, by its code, whatever follows in the input |
| LineKeys.WordIsCut | cmdconsole/linenoise.c:688-700 | Ctrl-W takes the blanks before the cursor and then one word, up to a blank or the start |
| LineKeys.TypedText | cmdconsole/linenoise.c:580-604 | typed text lands before the cursor |
| LineKeys.TypedBeforeLast | cmdconsole/linenoise.c:787-789 | after typed text and Ctrl-B the next character lands before the last one |
| LineKeys.EscapeIsServed | cmdconsole/linenoise.c:799-853 | arrow, home and end sequences act as their control bytes, other sequences of three bytes do nothing |
| LineKeys.DeleteIsServed | cmdconsole/linenoise.c:808-817 | the delete sequence removes the character at the cursor, any other with a digit does nothing |
| LineKeys.HistoryIsServed | cmdconsole/linenoise.c:642-662 | Ctrl-P saves the line and shows the entry before it, Ctrl-N the one after it, cut to the buffer |
| LineKeys.CompletionIsServed | cmdconsole/linenoise.c:338-394 | a tab shows the first completion, each further one the next, then the line itself, and so round again; a character accepts what is shown |
| LineKeys.EndsAreServed | cmdconsole/linenoise.c:757-776 | Enter, Ctrl-C and Ctrl-D on an empty line end the session with the line as it is |

## Left out

- Reals in Jansson (strtod, snprintf and the locale): a real is known by its lexeme only and is outside the round-trip law;
  JSON_DECODE_INT_AS_REAL is not modelled.
- Allocation failure, reference counts and frees, sinks and sources that fail, error messages.
- json_loadb, json_loadf and the callback loader (other sources for the same stream), and pack_unpack.c.
- jansson-2.5/src/strbuffer.c: the saved text is a sequence with append and pop.
- The array and object API of value.c apart from json_equal and the hash table beneath it.
- A NULL regular expression or subject, and the POSIX variant of RE.
- Formatting of explanations and messages in Google Mock and Google Test, actions, matchers on arguments (a call comes
  with the set of expectations that match it), locks and threads.
- Parameterized and typed tests, environments, repetition of iterations, death-test processes, XML output.
- Terminal input and output, refresh and raw mode in linenoise; reading history from a file; an escape sequence that the
  input cuts short ends the session in the model.
- HashTable.Hashtable.Set: requires that a next prime size exists when the table is full, since the code indexes past its
  list of primes otherwise; `PerformAll` covers every run in which the number of keys stays below the largest prime.
- HashTable.Perform: the same restriction as Hashtable.Set, for one operation.
- HashTable.PerformAll: the same restriction as Hashtable.Set, at every set of the run.
- HashTable.HashStr: `size_t` has 64 bits and `char` is signed, as on x86-64.
- JsonDump.DumpScalar: a real is written as its lexeme, and writing one cannot fail.
- JsonDump.DoDump: what has been written when a dump fails is not stated, since json_dumps discards it.
- JsonLexer.Lexer.ScanNumber: where the stream stands after a malformed number is not stated, since parsing ends there.
- JsonLexer.Lexer.Scan: the same after any invalid token; the bytes that lex_save_cached keeps for the error message are
  not modelled.
- JsonPipeline.DumpAndLoad: requires a graph without reals.
- JsonLayout.DumpIsLaidOut: requires UTF-8 strings and keys, since a literal that breaks off has no layout, and reals whose
  lexeme is made of the bytes of a number.
- JsonDump.DumpMembers: the C library's qsort is replaced by an insertion sort with the same comparison.
- TestRunner.ShuffleRange: works on a sequence that the caller assigns back, in place of a vector passed by pointer.
- TestRunner.UnitTest.ShuffleTests: requires at most 2^31 cases and tests per case, the range of the generator.
- SimpleRegex.MatchRegexAtHead: requires a subject shorter than the largest `size_t`, as the source says.
- Expectations.Registry.Require: prerequisites are added only to an expectation that has handled no call and only from
  older ones, as in an EXPECT_CALL statement; call counts do not overflow.
- Expectations.Registry.After: the same restriction as Registry.Require, for every member of the set.
- Expectations.Registry.AddExpectation: the same restriction as Registry.Require, for the last member of the sequence.
- LineEdit.Editor.EditLine: after a completion that does not fit has been accepted nothing more is modelled, since the
  length then lies beyond the text in the buffer; a NUL byte in the input is not modelled.
