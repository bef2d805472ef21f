# A verified model of jansson and of the Dokan request paths

This project models two parts of the repository in Dafny and proves properties of the models.

**jansson**, the JSON library (`jansson/`): the pushback byte stream, the lexer with its two passes over strings,
the recursive-descent parser, the printer with cycle detection, the UTF-8 codec, the hash table on one circular
list, the growable text buffer, and the reference-counted arrays and objects.

**Dokan**, the file system driver and its user-mode library (`dokanlib/`): the pending-request protocol between
registration, cancellation, reply, notification, release and time-out; the lifetime of file and context control
blocks; the packing and paging of directory listings; the intrusive list under all of them.

Code that changes things step by step is modelled step by step, as methods of classes whose fields are those of the
C structures, and every such method is proved against a function or a protocol step. The theorems are about those
functions and steps, so they carry over to the methods.

## How the modules fit together

| modules | what they hold |
|---|---|
| `Basics`, `Utf8`, `Utf8Grammar`, `Utf8Code` | bytes; UTF-8 by the table of the RFC and by its byte ranges, the theorems of the codec, and the loops of `utf.c` |
| `Table`, `TableRuns`, `TableMap`, `TableOrder` | what the hash table computes, as lists of pairs in list order; it is a finite map, over whole runs; hash, growth and order |
| `Ring`, `List`, `BucketRanges`, `HashTable` | the linked structure: list operations, bucket segments, and `hashtable.c` itself |
| `Json` | values as trees, well-formedness, `json_equal` and what it decides |
| `Grammar` | the grammar of section 2 of RFC 4627 as derivation trees, with its own terminals, independent of lexer and parser |
| `LexSpec`, `ParseSpec` | lexer and parser as functions of the unread bytes |
| `LexGrammar`, `ParseGrammar`, `Accepts` | they accept exactly the grammar, with its meaning |
| `Stream`, `LexText`, `Decoder`, `Lexer`, `Parser` | `load.c` byte by byte, proved against those functions |
| `DumpSpec`, `RoundTrip`, `Reload`, `Canonical` | what is printed, that it parses back, and when two texts are the same |
| `PrintedText` | what a printed text looks like, said of its bytes: key order, escapes, layout |
| `JsonHeap`, `Dumper`, `EqualCode` | values as graphs of shared nodes; `dump.c` and `json_equal` on them |
| `Library` | printing a graph and parsing the text, with the code of both |
| `RefCount`, `RefCountCode`, `CopySpec`, `CopyCode` | reference counts over the whole store, and the routines of `value.c` that move references or copy |
| `StrBuffer`, `ArrayTable` | the growable blocks under text and arrays |
| `PendingIrp`, `PendingIrpCode`, `NotificationThread` | the request protocol as a state machine, the routines that take its steps, and the thread that waits |
| `DeliveryOrder`, `StepEffects` | in which order the protocol delivers events; what registration, reply, time-out and release do to the list |
| `Fcb`, `Directory` | control blocks, and directory listings in pages |

## Where the code does not do what one would expect

Each of these is proved, with the exact condition under which the code meets the expectation.

* A deep copy forgets insertion order. `json_deep_copy` sets the members in the order of the hash list, so under
  `JSON_PRESERVE_ORDER` the copy prints the text of its source exactly if the list of every object in it, however
  deep, happened to hold the members in insertion order (`CopySpec.CopyPrintsSameIff`; `CopySpec.CopyKeepsOrderIff`
  for the keys of one object, `CopySpec.CopyForgetsOrder` for an example). It is always `json_equal`.
* A file name of 0x10000 bytes or more is stored with its length cut to a USHORT. An open of that name never finds
  its control block, so it is listed again and again; an open of the name that is left after the cut can get
  it although it belongs to another file (`Fcb.FoundAgain`, `Fcb.MadeForIt`, `Fcb.LongNameIsListedTwice`,
  `Fcb.OtherFileIsFound`). The names under which control blocks are found stay distinct in every run exactly if no
  such name is opened (`Fcb.StoredNamesApartIff`).
* With `FindFilesWithPattern` the first page of a listing is not checked against the pattern and the later ones
  are, while their indices go on counting from the first. The listing is complete exactly if the first page holds
  all of it, or all entries of the provider match by the library's own check too and a plain listing would be
  complete (`Directory.WithPatternCompleteIff`, `Directory.WithPatternNeedsMatches`; `Directory.MatchIsLost` is a
  list that loses the only entry that matches).
* A page that would end at 2^31 entries or more is refused, because the index comes back as a LONG
  (`Directory.RefusedIff`, `Directory.PagesAreComplete`).
* Events can reach user mode out of order. An event whose waiter is being cancelled, or has too small a buffer, goes
  back to the end of the queue; deliveries and queue stay in the order of posting exactly if that never happens
  while other events are queued (`DeliveryOrder.OrderKeptIff`; `DeliveryOrder.LaterIsDeliveredFirst` is a run that
  overtakes).
* The comment at the head of `notification.c` says the notification thread also serves the lists of the service.
  Its wait covers three of the five events, so it never does (`NotificationThread.ServiceIsNeverServed`).

## Assumptions

* Reals are values of `real`. The two conversions of libc, `jsonp_strtod` and `jsonp_dtostr`, are parameters; the
  round trip asks only that the text printed for a real is a number of the grammar that reads back as that real,
  and asks nothing of values without reals.
* `strtoll`, `snprintf("%lld")` and `qsort` do what the C standard says. `qsort` is the unique sorted order, which
  exists because no two keys and no two serials of an object are equal.
* Allocation succeeds, except where a parameter says otherwise (`StrBuffer`, `Fcb.Vcb.AllocateCcb`). Sinks never fail.
* `IoSetCancelRoutine` swaps atomically, and `IoCancelIrp` runs the routine it took. Each section under a lock is
  one step.

## Model

| member | source | states |
|---|---|---|
| `Utf8.CheckInvertsEncode` | jansson/utf.c:11-45 | Decoding the encoding of any scalar value, whatever bytes follow it, gives back that value and exactly its bytes (sections 3 and 4 of RFC 3629). |
| `Utf8.EncodeInvertsCheck` | jansson/utf.c:83-137 | Whatever the check accepts is the one encoding of the value it reports, and that value is no surrogate. |
| `Utf8.ValidIffEncoded` | jansson/utf.c:165-190 | A string is valid exactly when it is a concatenation of encodings of scalar values. |
| `Utf8.EncodingInjective` | jansson/utf.c:139-163 | No string encodes two different sequences of scalar values, so iterating over it has one possible result. |
| `Utf8.CheckFullByByte` | jansson/utf.c:83-137 | Which two-, three- and four-byte sequences are refused: a byte that is no continuation byte, an overlong form, a surrogate, a value past 0x10FFFF. |
| `Utf8Grammar.CheckedIffChar` | jansson/utf.c:53-137 | What the check accepts at the start of a text is exactly a character of the byte ranges in section 4 of RFC 3629. |
| `Utf8Grammar.CharIsEncoding` | jansson/utf.c:11-45 | Every character of that syntax is the encoding of a scalar value. |
| `Utf8Grammar.OrderIsKept` | jansson/utf.c:11-45 | Encodings are ordered byte by byte as the values are (section 1 of RFC 3629); with the rows above this leaves one encoding. |
| `Utf8Code.Encode` | jansson/utf.c:11-45 | The encoder writes the RFC encoding and nothing behind it for every code point up to 0x10FFFF, and changes nothing when it fails. |
| `Utf8Code.CheckFullAt` | jansson/utf.c:83-137 | The loop of the full check agrees with the table of the RFC at any position of a NUL-terminated text, also when the announced length runs past its end. |
| `Utf8Code.Iterate` | jansson/utf.c:139-163 | One step of the iteration: the next well-formed character and the position after it, or failure. |
| `Utf8Code.CheckString` | jansson/utf.c:165-190 | utf8_check_string returns true on exactly the valid strings. |
| `Stream.Stream.Get` | jansson/load.c:145-206 | In every reachable state: the next byte of the text as a signed char, with position, line and column counting exactly what was consumed; or the code for the end or for ill-formed UTF-8, which no data byte equals. |
| `Stream.Stream.Unget` | jansson/load.c:208-224 | Pushing back the byte just read restores position, line and column, so the next read returns it again; its assertions are never violated. |
| `Stream.Stream.Fill` | jansson/load.c:152-184 | Reading one character into the buffer succeeds exactly when a well-formed character starts there, and then consumes exactly that character. |
| `Stream.Stream.SkipCached` | jansson/load.c:260-268 | lex_save_cached saves and consumes exactly the rest of the current character. |
| `Stream.DataIsNoCode` | jansson/load.c:145-206 | No byte of a well-formed character, read as a signed char, equals the EOF or the error code. |
| `Lexer.Lexer.UngetUnsave` | jansson/load.c:250-258 | The byte that is pushed back is the last one saved: the assertion never fires. |
| `Lexer.Lexer.ScanNumber` | jansson/load.c:461-554 | The number scanner reads the longest number of the grammar, with its value, or reports an invalid token exactly where the grammar has no number or 64 bits do not hold the integer. |
| `Lexer.Lexer.FindQuote` | jansson/load.c:304-347 | The first pass over a string finds the closing quote exactly when every escape before it is well-formed and no control character occurs. |
| `Lexer.Lexer.ScanString` | jansson/load.c:294-447 | Both passes together: the token is the decoded string, or invalid exactly when a pass rejects; the bytes read end at the closing quote. |
| `Lexer.Lexer.Scan` | jansson/load.c:556-624 | lex_scan yields the token the specification finds in the unread bytes, and leaves unread what the specification leaves. |
| `Decoder.DecodeEscape` | jansson/load.c:271-292 | decode_unicode_escape computes the value of four hexadecimal digits; its assertion is never reached. |
| `Decoder.DecodeUnicode` | jansson/load.c:371-418 | A \u escape decodes to a scalar value, surrogate pairs as in sections 2.1 and 2.2 of RFC 2781; it is refused exactly for \u0000 and unpaired surrogates. |
| `LexGrammar.SameTerminals` | jansson/load.c:272-570 | The bytes the lexer takes for white space, digits, exponent letters, hexadecimal digits and escape letters are those of section 2 of RFC 4627, with the same values. |
| `LexGrammar.SameHex` | jansson/load.c:272-293 | Four hexadecimal digits write the same number for the lexer and for the grammar. |
| `LexGrammar.SameSurrogates` | jansson/load.c:375-410 | Surrogates are recognised and paired as in section 2.2 of RFC 2781. |
| `Decoder.DecodeItem` | jansson/load.c:368-440 | One round of the second pass: the write position never passes the read position, so all writes stay inside the buffer sized by the source text. |
| `Decoder.Decode` | jansson/load.c:349-447 | The second pass stops at the closing quote the first pass found, never reaches its assertions, never writes past the buffer, and yields the decoded string. |
| `Decoder.PassesStopAtQuote` | jansson/load.c:294-447 | Both passes look no further than the first closing quote: what follows the string cannot change its value. |
| `LexGrammar.PassesReadItems` | jansson/load.c:294-447 | Any string of the grammar is accepted by the first pass up to its own closing quote, and the second pass gives its meaning. |
| `LexGrammar.PassesImplyItems` | jansson/load.c:304-347 | Conversely, any valid UTF-8 text the first pass accepts is a string of the grammar. |
| `LexGrammar.NumberRead` | jansson/load.c:461-554 | The text of any number of the grammar, followed by nothing that lengthens it, scans to that number and no further. |
| `LexGrammar.NumberSplit` | jansson/load.c:461-554 | Conversely, whatever scans as a number is a number of the grammar with that value. |
| `ParseGrammar.ValueComplete` | jansson/load.c:659-825 | The parser reads every value of the RFC 4627 grammar that has a meaning, in front of any continuation, and builds that meaning. |
| `ParseGrammar.ValueSound` | jansson/load.c:659-825 | Whatever the parser accepts spells a value of the grammar, and the result is its meaning. |
| `Accepts.LoadsExactlyJsonText` | jansson/load.c:827-903 | With default decoding json_loads accepts exactly the JSON texts of section 2 of RFC 4627 that have a meaning: valid UTF-8, no \u0000, no unpaired surrogate, integers of 64 bits, and no duplicate key when those are rejected; the result is that meaning. |
| `Accepts.LiteralsLoad` | jansson/load.c:600-615 | A concrete text: the three literal names load as the values they name. |
| `Basics.NamesAreAscii` | jansson/load.c:568-612 | The bytes that the model names are the characters the code compares with. |
| `Accepts.LoadsExactly` | jansson/load.c:827-858 | The same characterisation for every combination of the decode flags, including JSON_DISABLE_EOF_CHECK and JSON_DECODE_ANY. |
| `Accepts.DuplicateKeys` | jansson/load.c:678-711 | A key bound twice keeps its last value; with the reject flag, the object is refused exactly when some key occurs twice. |
| `Accepts.MeanItemsIsText` | jansson/load.c:704 | A decoded string is always valid NUL-free UTF-8, which is what the unchecked constructors rely on. |
| `Accepts.LoadedIsWf` | jansson/load.c:880-903 | Whatever the input, a loaded value is well-formed: valid strings, 64-bit integers, sound hash tables, serials distinct and below the counter. |
| `ParseSpec.ReadableIsValid` | jansson/load.c:145-206 | The bytes a parse can see are the longest prefix made of whole UTF-8 characters. |
| `Parser.ParseValue` | jansson/load.c:772-825 | parse_value over the real lexer returns what the specification of the parser says and leaves the same bytes unread; the unread bytes bound its recursion. |
| `Parser.ParseArray` | jansson/load.c:732-770 | The loop of parse_array, the same way. |
| `Parser.ParseObject` | jansson/load.c:659-730 | The loop of parse_object, the same way, duplicate keys included. |
| `Parser.JsonLoads` | jansson/load.c:880-903 | json_loads terminates on every NUL-free input and returns exactly what the specification says. |
| `Dumper.Dumper.DumpIndent` | jansson/dump.c:43-63 | The chunked writing of white space puts out exactly the indentation of the given depth. |
| `Dumper.Dumper.Plain` | jansson/dump.c:80-99 | The inner loop of dump_string passes over characters that are printed as they are and stops exactly at the first that needs an escape, or fails on ill-formed text. |
| `Dumper.Dumper.DumpString` | jansson/dump.c:65-155 | dump_string writes the escaped text, and fails exactly on text that is not UTF-8. |
| `Dumper.Dumper.DoDump` | jansson/dump.c:171-404 | On any finite graph do_dump returns; it fails exactly when following references leads back into a container whose dump is open, and otherwise writes the text of the tree the node stands for. The marks are those of the open containers. |
| `Dumper.Dumper.DumpMembers` | jansson/dump.c:296-390 | The loops over an object write its members in the order asked for, although the sorting one looks each value up by key. |
| `Dumper.JsonDumps` | jansson/dump.c:406-421 | json_dumps leaves every visited mark clear, on success and on failure; a container is refused exactly when a cycle can be reached from it; a value that is no container is printed if and only if JSON_ENCODE_ANY is set. |
| `JsonHeap.NoTreeIffCycle` | jansson/dump.c:220-224 | A node stands for no finite tree exactly when some path from it comes back to a node it has been through. |
| `Dumper.KeyFound` | jansson/dump.c:324-331 | The value looked up under a sorted key is the one of the pair the key was taken from. |
| `DumpSpec.SortedIsUnique` | jansson/dump.c:157-169 | Two orders sorted by key, or by serial, with the same members are the same, so qsort has only one possible result. |
| `RoundTrip.PrintedStringMeans` | jansson/dump.c:65-155 | Under every flag the printed form of a NUL-free UTF-8 string is a string of the grammar that means the same string: printing is inverted by the lexer. |
| `RoundTrip.IntRoundTrip` | jansson/dump.c:184-196 | The printed form of every 64-bit integer is an integer of the grammar with that value. |
| `RoundTrip.TreeSpellsText` | jansson/dump.c:171-404 | For every value, flags and depth the printed text is a text of the RFC grammar. |
| `Reload.TreeMeansReload` | jansson/dump.c:171-404 | The grammar tree of a printed text means the reloaded value, whether duplicates are rejected or not. |
| `Reload.ReloadDenotesSame` | jansson/load.c:659-730 | The reloaded value denotes what the printed value denotes, whatever order the keys were printed in. |
| `Reload.RoundTripTheorem` | jansson/dump.c:406-421 | For every well-formed value whose reals, if any, read back, and every combination of flags: the printed text parses, and the result is json_equal to the value. |
| `Reload.PrintParsePrint` | jansson/dump.c:296-358 | With sorted keys or preserved order, printing, parsing and printing again gives the same bytes. |
| `Reload.BuildLists` | jansson/value.c:84-105 | An object built from distinct keys holds each binding once, with serials counting the order in which they were set. |
| `Canonical.EqualIffSameSortedText` | jansson/dump.c:296-350 | With JSON_SORT_KEYS the text is canonical: two values are json_equal exactly when they print the same bytes. |
| `Canonical.SameTextIsEqual` | jansson/dump.c:171-404 | Under any flags, values that print the same bytes are json_equal. |
| `Library.DumpThenLoad` | jansson/dump.c:406-421 | The code of both ends together, from a graph in memory to text and back: fails exactly on a cycle, otherwise gives an equal value, and under sorted or preserved order one that prints the same. |
| `Library.PrintedIsNulFree` | jansson/dump.c:406-421 | Printed text is a C string: it holds no NUL. |
| `DumpSpec.SortSorts` | jansson/dump.c:317-322 | On distinct keys, or distinct serials, the order members are printed in is sorted. |
| `PrintedText.KeyLessIff` | jansson/dump.c:157-161 | The order of keys is that of strcmp: at the first difference the smaller byte, or the end. |
| `PrintedText.PrintedInOrder` | jansson/dump.c:290-352 | Members are printed in the strcmp order of their keys, in the order of setting, or in list order, as the flags say. |
| `PrintedText.TextMembersInOrder` | jansson/dump.c:290-379 | Reading the printed text of an object by the grammar gives its members in that order. |
| `PrintedText.PrintsBareIff` | jansson/dump.c:65-150 | A string prints as itself between quotes if and only if it has no control character, quote or backslash, no slash under JSON_ESCAPE_SLASH, and no byte past ASCII under JSON_ENSURE_ASCII. |
| `PrintedText.EscapeForm` | jansson/dump.c:107-142 | Escaped characters become the two-character escape where there is one, lower-case \u escapes otherwise, in a surrogate pair past 16 bits. |
| `PrintedText.TextIsShielded` | jansson/dump.c:65-150 | For every value: under JSON_ENSURE_ASCII all of the text is ASCII, under JSON_ESCAPE_SLASH each slash follows a backslash, and without JSON_INDENT there is no newline. |
| `PrintedText.TextIsLaidOut` | jansson/dump.c:43-63 | For every value and all flags, read byte by byte: outside strings white space stands exactly where it should. Under JSON_INDENT each element and each closing bracket is on a line of its own, indented by the brackets open around it, but for empty containers; otherwise one space follows a comma, and a colon, unless JSON_COMPACT is set. |
| `Json.EqualIffSameDenotation` | jansson/value.c:258-274 | json_equal, with sizes and one-directional lookup only, decides equality of what the values denote: sequences for arrays, finite maps for objects. |
| `Json.EqualIsEquivalence` | jansson/value.c:854-882 | json_equal is reflexive, symmetric and transitive on well-formed values. |
| `EqualCode.JsonEqual` | jansson/value.c:854-882 | json_equal on the nodes, with its shortcut for identical nodes, decides that equality for acyclic values; a NULL equals nothing. |
| `EqualCode.EqualObjects` | jansson/value.c:258-274 | The loop over one object with lookups in the other decides equality of the trees. |
| `CopySpec.CopyIsEqual` | jansson/value.c:913-940 | A deep copy is json_equal to its source and well-formed. |
| `CopySpec.CopyKeepsOrderIff` | jansson/value.c:293-308 | Under JSON_PRESERVE_ORDER a copied object prints its keys in the order of its source if and only if the source's hash list happens to hold them in insertion order. |
| `CopySpec.CopyPrintsSameIff` | jansson/value.c:913-940 | For every well-formed value whose reals read back, and every flags with JSON_PRESERVE_ORDER and no sorting, a deep copy prints the very text of its source if and only if every object in it, however deep, is held by its hash list in insertion order. |
| `CopySpec.CopyForgetsOrder` | jansson/value.c:293-308 | A concrete object of two keys whose deep copy prints them the other way round. |
| `CopyCode.JsonDeepCopy` | jansson/value.c:913-940 | On the nodes: the copy of an acyclic value is json_equal to it, shares no node with it but true, false and null, is owned by the caller alone, and no count of the source changes. Everything alive stays well-formed. |
| `CopyCode.CopyArray` | jansson/value.c:596-609 | The loop of the array case copies every element once, in order, and keeps every reference count exact. |
| `CopyCode.CopyObject` | jansson/value.c:293-308 | The loop of the object case, the same way; no key displaces another. |
| `CopyCode.JsonCopy` | jansson/value.c:887-911 | A shallow copy is a new container holding the same nodes, in order for an array, each with one reference more; also of a container that holds itself. Everything alive stays well-formed. |
| `CopyCode.RefillLooksUp` | jansson/value.c:276-291 | The table a shallow copy of an object builds finds under every key what the source finds, and holds nothing else. |
| `CopyCode.RefillSerials` | jansson/value.c:277-291 | The serials of a shallow copy count the pairs in the list order of its source. |
| `CopyCode.ShallowIsEqual` | jansson/value.c:276-291 | A shallow copy of an object is json_equal to its source, whatever the shared nodes stand for. |
| `TableMap.MapSet` | jansson/hashtable.c:224-267 | Setting a key does not look at values: it commutes with replacing every value by another. |
| `Table.SetIsMapUpdate` | jansson/hashtable.c:224-267 | Setting a key updates the finite map at that key only, through any rehash; a key that was present keeps its serial. |
| `Table.DelIsMapRemove` | jansson/hashtable.c:285-289 | Deleting removes exactly that key from the map. |
| `Table.GetIsLookup` | jansson/hashtable.c:269-283 | Looking up gives the value of the map at the key, or nothing when it has none. |
| `Table.GrowCorrect` | jansson/hashtable.c:162-194 | A rehash permutes the pairs: none lost, none doubled, each bucket one contiguous segment again. |
| `Table.SetKeepsLoad` | jansson/hashtable.c:232-235 | The number of pairs never exceeds the number of buckets while there are primes left. |
| `TableOrder.HashIsPolynomial` | jansson/hashtable.c:21-35 | The hash is 5381 times 33 to the length plus the signed characters as digits to the base 33, in 32 bits. |
| `TableOrder.GrowsIff` | jansson/hashtable.c:224-236 | A set takes the next bucket count if and only if there are as many pairs as buckets. |
| `TableOrder.PrimesDouble` | jansson/hashtable.c:77-87 | The bucket counts start at 5 and about double. |
| `TableOrder.NewPairAt` | jansson/hashtable.c:62-75 | A new pair goes in front of its bucket, or to the end of the list when the bucket is empty. |
| `TableOrder.OldPairAt` | jansson/hashtable.c:224-267 | A pair that is there keeps its place and its serial. |
| `TableOrder.DelAt` | jansson/hashtable.c:116-146 | Deletion closes the gap in the list. |
| `TableOrder.RehashOrder` | jansson/hashtable.c:162-196 | After a rehash buckets come in the order in which they came up in the list, and the pairs of one bucket in the opposite order. |
| `TableRuns.RunRefinesMap` | jansson/hashtable.c:224-334 | Every sequence of set, get, del and clear below the last prime is the same sequence on a finite map. |
| `BucketRanges.RangesInsert` | jansson/hashtable.c:62-75 | Inserting in front of a segment, or at the end of the list, keeps the segments disjoint, contiguous and covering. |
| `BucketRanges.RangesRemove` | jansson/hashtable.c:116-146 | So does removing a pair. |
| `BucketRanges.EndsRemove` | jansson/hashtable.c:130-139 | The first and last pointers of a bucket, adjusted in the four cases of a deletion, are again the ends of its segment. |
| `HashTable.HashTable.InsertToBucket` | jansson/hashtable.c:62-75 | The pointer updates put the pair where the specification does, and keep the ring and all bucket ends sound. |
| `HashTable.HashTable.FindPair` | jansson/hashtable.c:90-113 | Walking one bucket from first to last finds the key exactly when the table holds it anywhere. |
| `HashTable.HashTable.Rehash` | jansson/hashtable.c:162-194 | Relinking the list while walking it, into new buckets, loses and doubles no pair, reuses the same links, and ends with the specified order. |
| `HashTable.HashTable.Set` | jansson/hashtable.c:224-267 | hashtable_set on the linked structure, rehash included, updates the map the table stands for at one key and nowhere else; a key that was there keeps its serial. |
| `HashTable.HashTable.Get` | jansson/hashtable.c:269-283 | hashtable_get on the linked structure gives the value the map has under the key, or nothing. |
| `HashTable.HashTable.Del` | jansson/hashtable.c:116-146 | hashtable_del on the linked structure takes one key out of the map; it says whether the key was there. |
| `HashTable.HashTable.Clear` | jansson/hashtable.c:291-305 | hashtable_clear leaves an empty table with its buckets. |
| `HashTable.HashTable.IterNext` | jansson/hashtable.c:307-334 | Iterating visits every pair once, in list order. |
| `HashTable.HashTable.IterSet` | jansson/hashtable.c:354-360 | Replacing the value at an iterator is setting its key, without moving anything. |
| `Ring.Insert` | jansson/hashtable.c:43-49 | The four pointer assignments insert the node at one place of the ring and nowhere else. |
| `Ring.Remove` | jansson/hashtable.c:51-55 | The two pointer assignments take the node out; its own pointers still lead back into the ring. |
| `StrBuffer.StrBuffer.AppendBytes` | jansson/strbuffer.c:68-100 | An append concatenates, keeps a NUL behind the text, and fails exactly when sizes or memory run out, changing nothing; no size computation wraps, the capacity stays within max(16, twice the peak length), and all growth together copies fewer bytes than the capacity. |
| `StrBuffer.StrBuffer.Pop` | jansson/strbuffer.c:102-111 | Pop takes the last byte off, or returns NUL on an empty buffer. |
| `StrBuffer.StrBuffer.Clear` | jansson/strbuffer.c:40-44 | Clear empties the text and keeps the capacity. |
| `ArrayTable.ArrayTable.Grow` | jansson/value.c:405-432 | Room for the amount asked for; a new table grows by the larger of that amount and its size, and the elements stay the same. |
| `ArrayTable.ArrayTable.Append` | jansson/value.c:434-457 | Append is appending to the sequence of elements. |
| `ArrayTable.ArrayTable.Insert` | jansson/value.c:459-497 | Insertion at any index, in place or into a grown table, is insertion into the sequence; it fails exactly past the end. |
| `ArrayTable.ArrayTable.Remove` | jansson/value.c:499-519 | Removal from the sequence, failing exactly past the end. |
| `ArrayTable.ArrayTable.Clear` | jansson/value.c:521-535 | No elements are left. |
| `ArrayTable.ArrayTable.Extend` | jansson/value.c:537-557 | Extending is concatenation, also of an array with itself, although growing replaces the table. |
| `ArrayTable.ArrayTable.Set` | jansson/value.c:366-390 | Replacing one element of the sequence, failing exactly past the end. |
| `RefCount.ReleaseConserves` | jansson/value.c:831-849 | Dropping references, with all the deletions it causes, keeps every count equal to owned references plus slots; no node is freed while anything refers to it. |
| `RefCount.SetterConserves` | jansson/value.c:84-105 | Moving references between a caller and the slots of a container, and releasing what is displaced, keeps every count exact. |
| `RefCount.ReleaseKeepsSupported` | jansson/value.c:831-849 | However much is released, nodes that are owned or held by one another stay alive, also those that only hold each other in a circle. |
| `RefCount.ReachedSurvives` | jansson/value.c:84-105 | A container to which a chain of slots leads from an owned reference survives the change of its own slots and everything that change releases. |
| `RefCount.NoGarbage` | jansson/value.c:831-849 | Without cycles, every node that is alive can be reached from a reference some caller owns. |
| `RefCount.AllFreed` | jansson/value.c:831-849 | Without cycles, when the callers own nothing any more, only the singletons are alive. |
| `RefCountCode.SoundIsClosed` | jansson/value.c:37-142 | What printing, comparing and copying ask of a graph holds of the nodes alive as long as counts are exact and each node is as its constructor and setters leave it. |
| `RefCountCode.SetKeepsWf` | jansson/value.c:84-105 | Setting a key that is UTF-8 without NUL keeps the keys of an object valid and distinct, its buckets contiguous, and its serials distinct and below the counter. |
| `RefCountCode.DelKeepsWf` | jansson/value.c:118-127 | So does deleting a key. |
| `RefCountCode.JsonIncref` | jansson/jansson.h:94-100 | Taking a reference, singletons excepted, keeps every count exact. |
| `RefCountCode.JsonDecref` | jansson/jansson.h:105-110 | Giving up a reference; the last one deletes the node and, recursively, what it held. |
| `RefCountCode.JsonDelete` | jansson/value.c:831-849 | Deletion gives up exactly the references of the slots. |
| `RefCountCode.ObjectSetNewNocheck` | jansson/value.c:84-105 | On NULL, on a value that is no object, or on any object that can be reached, owned or borrowed: the reference given is stored, or dropped in every failing case; a displaced value loses one; a serial is used up also when the key was there and keeps its own. A well-formed object stays well-formed, and so does everything alive, when the key is UTF-8 without NUL. |
| `RefCountCode.ObjectSetNew` | jansson/value.c:107-116 | The same with a key checked to be UTF-8; the reference given is dropped on refusal. For a key without NUL, as a C string is, a well-formed object and everything alive stay well-formed. |
| `RefCountCode.ObjectDel` | jansson/value.c:118-127 | The value of a deleted key loses one reference; fails exactly when the key is absent. What is alive stays well-formed. |
| `RefCountCode.ObjectClear` | jansson/value.c:129-142 | Every value loses one reference and the serials start again. What is alive stays well-formed. |
| `RefCountCode.ArraySetNew` | jansson/value.c:366-390 | On NULL, on a value that is no array, or on any array that can be reached, owned or borrowed: the element replaced loses one reference, the given one is stored, or dropped in every failing case. What is alive stays well-formed. |
| `RefCountCode.ArrayAppendNew` | jansson/value.c:434-457 | The reference given is stored, or dropped on failure, which includes appending an array to itself. What is alive stays well-formed. |
| `RefCountCode.ArrayInsertNew` | jansson/value.c:459-497 | The same at an index. What is alive stays well-formed. |
| `RefCountCode.ArrayRemove` | jansson/value.c:499-519 | The element removed loses one reference. What is alive stays well-formed. |
| `RefCountCode.ArrayClear` | jansson/value.c:521-535 | Every element loses one reference. What is alive stays well-formed. |
| `RefCountCode.ArrayExtend` | jansson/value.c:537-557 | Every element of the other array gains one reference for its new slot, also when an array extends itself. What is alive stays well-formed. |
| `PendingIrp.NothingTwice` | dokanlib/sys/event.c:25-188 | In every interleaving of register, cancel, reply, notify, release and time-out: each IRP is completed at most once, no entry is used after it was freed or freed twice, and every listed entry holds a live IRP. |
| `PendingIrp.NoneForgotten` | dokanlib/sys/event.c:258-382 | A registered IRP is never lost: it waits on the list, or exactly one party is bound to complete it, or it was completed. |
| `PendingIrp.CancelRoutineFindsEntry` | dokanlib/sys/event.c:46-60 | The pointer the cancel routine read before taking the lock is never empty and its entry is still alive when the lock is held. |
| `PendingIrp.NoEventLost` | dokanlib/sys/notification.c:226-335 | Whenever events and waiters are both at hand, a NotEmpty event is signalled or a notifier has yet to signal; as a multiset, each event posted is still queued, was discarded with its queue, or lies in one IRP buffer large enough for it. |
| `PendingIrp.NotifyPairsAll` | dokanlib/sys/notification.c:252-311 | The pairing loop terminates, with no waiter or no event left, although an event that fits no buffer goes back to the queue. |
| `DeliveryOrder.OrderKeptIff` | dokanlib/sys/notification.c:252-311 | In every run, deliveries and queue stay in the order of posting through each round of the pairing loop if and only if no round pushes an event back behind others. |
| `DeliveryOrder.DeliversIff` | dokanlib/sys/notification.c:270-309 | A round delivers the first event to the first waiter, and does not push it back, if and only if that waiter is not being cancelled and its buffer holds the event. |
| `DeliveryOrder.RoundKeepsOrderIff` | dokanlib/sys/notification.c:252-311 | One round keeps the order if and only if it does not push an event back behind others. |
| `DeliveryOrder.DeliveredInOrder` | dokanlib/sys/notification.c:252-311 | In a run without such a round, the events delivered are some of those posted, in the order of posting. |
| `DeliveryOrder.LaterIsDeliveredFirst` | dokanlib/sys/notification.c:294-301 | A concrete run in which an event too large for the first waiter is delivered after one posted later. |
| `PendingIrp.NotifierReportsCopied` | dokanlib/sys/notification.c:294-332 | The length a notified IRP is completed with is the number of bytes copied into its buffer. |
| `PendingIrp.ListedHoldsIrp` | dokanlib/sys/event.c:304-321 | An entry on the list always holds its IRP, and its cancel routine is set exactly when no cancellation has begun: the branches for an empty entry are dead. |
| `PendingIrp.StepKeepsInv` | dokanlib/sys/event.c:25-382 | Every step keeps the protocol invariant. |
| `PendingIrp.RunKeepsInv` | dokanlib/sys/event.c:25-382 | So does every run. |
| `PendingIrp.UnlinkKeepsCore` | dokanlib/sys/event.c:53-89 | The cancel routine's section under the lock frees its entry only when it was told to, so at most once. |
| `PendingIrp.CompleteKeepsCore` | dokanlib/sys/notification.c:190-198 | Whoever won an IRP outside the lock still finds it uncompleted and its entry alive. |
| `StepEffects.RegisterEffect` | dokanlib/sys/event.c:133-188 | An IRP goes to the end of the list with its serial number, unless it was cancelled before: then the list is as it was and the IRP is completed. |
| `StepEffects.ReplyEffect` | dokanlib/sys/event.c:287-330 | A reply settles the first listed entry with its serial number, and nothing else changes; if none has it nothing changes at all. |
| `StepEffects.TimeOutEffect` | dokanlib/sys/timeout.c:110-157 | A time-out settles exactly the first entries that are expired, and the rest stays as it was; the signal goes out if and only if the list is emptied by it. |
| `StepEffects.ReleaseEffect` | dokanlib/sys/notification.c:151-199 | A release empties the list, and exactly the entries whose IRP can still be won are to be completed. |
| `StepEffects.CancelledNeverWaits` | dokanlib/sys/event.c:150-176 | In no run does an IRP that was cancelled, before it was registered or after, wait with its cancel routine set. |
| `PendingIrpCode.IrpList.RegisterPendingIrp` | dokanlib/sys/event.c:103-188 | Registration takes the protocol's step: an IRP already cancelled is handed back, its entry freed; any other is queued and the list signalled. |
| `PendingIrpCode.IrpList.ReadEntry` | dokanlib/sys/event.c:46 | Before the lock, the cancel routine reads the pointer to its entry: a step of its own, after which others may run. |
| `PendingIrpCode.IrpList.CancelRoutine` | dokanlib/sys/event.c:25-100 | The cancel routine on the objects takes the protocol's step, also when the entry is on no list any more. |
| `PendingIrpCode.IrpList.CompleteCancelled` | dokanlib/sys/event.c:93-95 | After the lock, the cancel routine completes its IRP: its last step in the protocol. |
| `PendingIrpCode.IrpList.CompleteIrp` | dokanlib/sys/event.c:258-382 | The search by serial number and the swap of the cancel routine take the protocol's reply step; the entry to be completed was listed with that serial number. |
| `PendingIrpCode.IrpList.NotificationLoop` | dokanlib/sys/notification.c:226-335 | The nested draining of both queues takes the protocol's notify step, keeps the invariant, and returns exactly entries whose completion is pending. |
| `PendingIrpCode.IrpList.ReleasePendingIrp` | dokanlib/sys/notification.c:151-199 | Emptying the list takes the protocol's release step. |
| `PendingIrpCode.IrpList.ReleaseTimeoutPendingIrp` | dokanlib/sys/timeout.c:86-172 | Taking the expired entries off the front of the list takes the protocol's time-out step: those behind them stay listed, and what is to be completed is among the expired ones. |
| `PendingIrpCode.IrpList.EventNotification` | dokanlib/sys/notification.c:127-148 | Queueing an event and then signalling it takes the two steps of the protocol. |
| `PendingIrpCode.IrpList.ReleaseNotifyEvent` | dokanlib/sys/notification.c:202-223 | Dropping the queue of events discards each once. |
| `PendingIrpCode.IrpList.Complete` | dokanlib/sys/notification.c:190-198 | The winner frees the entry and completes the IRP: the protocol's completion step. |
| `PendingIrpCode.IrpList.TakeOff` | dokanlib/sys/notification.c:167-185 | What the three routines do alike with an entry: take it off, swap the cancel routine, and either win the IRP or leave the entry to the cancel routine. |
| `NotificationThread.WaitersAreServed` | dokanlib/sys/notification.c:338-376 | When waiters and events of the device are both at hand and every notifier has signalled, the thread does not block; unless told to stop it runs the pairing loop, which uses up waiters or events. |
| `NotificationThread.ServiceIsNeverServed` | dokanlib/sys/notification.c:348-372 | The wait covers three of the five events: whatever is signalled, the branch for the lists of the service is never taken, and the thread blocks exactly when none of the first three is signalled. |
| `List.RemoveEntryList` | dokanlib/dokan/list.h:47-60 | Takes out the given entry and no other, and says whether the list is empty now. |
| `List.RemoveHeadList` | dokanlib/dokan/list.h:62-75 | Takes out the first entry. |
| `List.RemoveTailList` | dokanlib/dokan/list.h:79-92 | Takes out the last entry. |
| `List.InsertTailList` | dokanlib/dokan/list.h:95-108 | Puts the entry at the end of the sequence. |
| `List.InsertHeadList` | dokanlib/dokan/list.h:111-124 | Puts the entry at its start. |
| `List.AppendTailList` | dokanlib/dokan/list.h:126-138 | Concatenates a headless chain to the list. |
| `List.TakeAll` | dokanlib/dokan/directory.c:329-339 | Removing heads until the list is empty visits every entry once, in order. |
| `Directory.Fill` | dokanlib/dokan/directory.c:230-304 | A record is packed whole or not at all, decided by its aligned size; a reader gets back index, data and name, and no byte outside the record changes. |
| `Directory.EntrySizeIsLeast` | dokanlib/dokan/directory.c:262-271 | A record at a 4-byte boundary ends on an 8-byte boundary, with no smaller size that does having room for structure and name. |
| `Directory.RecordsAreAligned` | dokanlib/dokan/directory.c:384-415 | Each record of a page ends, and the next one starts, on an 8-byte boundary. |
| `Directory.LayoutsAreOfFields` | dokanlib/dokan/fileinfo.h:189-279 | Size and offsets of the five structures follow from their fields, one after the other, each at its alignment. |
| `Directory.WalkReads` | dokanlib/dokan/directory.c:384-418 | Following NextEntryOffset from record to record recovers exactly the packed records. |
| `Directory.LittleEndFirst` | dokanlib/dokan/directory.c:36-46 | A ULONG is stored with its least significant byte first. |
| `Directory.MatchFiles` | dokanlib/dokan/directory.c:346-428 | A page holds, in order, as many matching entries from the given index on as there is room for, or one if only one was asked for: one more would not fit. Reading the bytes used gives exactly those entries, each with the index to go on from. The index returned is a LONG, negative also when the page ends at 2^31 entries or more. |
| `Directory.FitsFillsUp` | dokanlib/dokan/directory.c:384-415 | The count of records on a page: they fit, at most one if only one was asked for, and the next one would not fit. |
| `Directory.SelectedJoins` | dokanlib/dokan/directory.c:369-414 | Which entries match: of one entry, it or nothing, and of a list, those of its parts in order. |
| `Directory.RefusedIff` | dokanlib/dokan/directory.c:346-428 | A page is refused exactly when nothing is left, the next entry alone does not fit, or the index the page would end with does not fit a LONG. |
| `Directory.PagesAreInOrder` | dokanlib/dokan/directory.c:475-561 | Whatever the buffers, feeding each index back yields the matching entries in order, each once. |
| `Directory.PagesAreComplete` | dokanlib/dokan/directory.c:475-561 | With requests enough, each buffer holding the entry that comes next, every matching entry is listed if and only if there are fewer than 2^31. |
| `Directory.OpenInfo.Dispatch` | dokanlib/dokan/directory.c:432-570 | The caching logic: with FindFiles every page is a page of the same matching entries; on failure the cache is dropped and the index unchanged. |
| `Directory.ReadAll` | dokanlib/dokan/directory.c:432-570 | Calling the code again and again, each time with the index the last page ended with, and walking each buffer: what is read is the listing of the provider in order, for every sequence of buffers and for both ways a provider can list. |
| `Directory.WithPatternCompleteIff` | dokanlib/dokan/directory.c:480-545 | With FindFilesWithPattern, for any list, pattern and requests: the listing is complete if and only if the list is empty, its first page holds all of it, or every entry the provider returned also matches by the library's own check and a plain listing would be complete. |
| `Directory.WithPatternNeedsMatches` | dokanlib/dokan/directory.c:480-545 | When the requests are enough and each buffer holds what comes next, that means: if and only if the first page holds everything or every entry matches by the library's own check. |
| `Directory.MatchIsLost` | dokanlib/dokan/directory.c:480-545 | A concrete list of two entries, asked for one at a time, from which the one that matches is never listed. |
| `Fcb.FoundAgain` | dokanlib/sys/create.c:96-135 | Whatever else is listed, a second open of a name finds the FCB the first one got if and only if the name's length in bytes fits a USHORT. |
| `Fcb.MadeForIt` | dokanlib/sys/create.c:96-135 | The FCB an open gets was made for that very name if and only if none was found or the one found has a name whose length fits. |
| `Fcb.LongNameIsListedTwice` | dokanlib/sys/create.c:96-135 | Any name too long, opened twice, is listed twice. |
| `Fcb.OtherFileIsFound` | dokanlib/sys/create.c:96-135 | A concrete run: a name of 0x8001 letters is stored as its first letter, and an open of that letter gets the other file's FCB. |
| `Fcb.StoredNamesApartIff` | dokanlib/sys/create.c:80-196 | Over all runs of opens and closes, the names under which the listed FCBs are found stay pairwise distinct if and only if no name that may be opened is too long for a USHORT. |
| `Fcb.Vcb.GetFcb` | dokanlib/sys/create.c:80-147 | The list becomes what the run of opens says: an FCB already listed is returned if and only if the name is short and one is listed under it, otherwise a new one at the end; with one more open in flight. It was made for the name if and only if it is new or its own name is short. |
| `Fcb.Vcb.FreeFcb` | dokanlib/sys/create.c:151-196 | The FCB leaves the list and is freed exactly when the last user goes, and no CCB refers to it then. |
| `Fcb.Vcb.AllocateCcb` | dokanlib/sys/create.c:200-232 | An open in flight becomes a linked CCB, or gives its FCB back when there is no memory. |
| `Fcb.Vcb.FreeCcb` | dokanlib/sys/create.c:236-260 | The CCB is unlinked while its close still counts as a user of the FCB. |
| `Fcb.Vcb.CcbsReferToListed` | dokanlib/sys/create.c:655-658 | In every state between two locked sections, each linked CCB refers to a listed FCB whose count is positive. |

## Left out

- HashTable.HashTable.Set: asks that the table has not run out of primes. Past the last prime the code reads beyond its array, and nothing is claimed there.
- TableRuns.RunRefinesMap: covers runs shorter than the last prime, for the same reason.
- Parser.JsonLoads: takes a C string. `json_loadb` on a buffer with a NUL inside is not modelled, since pushing back a NUL does not restore it. The parser builds values as trees, so the reference counts it drops on its error paths are not part of it, and neither are the messages and positions it reports.
- Lexer.Lexer.Scan: keeps the saved text as a byte sequence; StrBuffer is proved to implement one separately.
- StrBuffer.StrBuffer.AppendBytes: takes `size_t` as 32 bits wide, as in the 32-bit build; the proofs use nothing of the width but that it is fixed.
- Table.SetIsMapUpdate: takes `size_t` in `hash_str` as 32 bits wide.
- RefCountCode.ArraySetNew: releases the displaced element after the slot is overwritten, where the code does so before; so do the setters of objects. The container is reached from a reference somebody owns and stays alive throughout (RefCount.ReachedSurvives), so nothing reads that slot in between. A container nobody's reference leads to, one only kept alive by a cycle or by a count that is wrong, is not covered.
- RefCountCode.JsonIncref: does not model a count that reaches the value reserved for singletons by being incremented.
- RefCountCode.ArrayAppendNew: keeps the slots of a container as a value, a sequence or a table; ArrayTable and HashTable are proved, each by itself, to implement those.
- CopyCode.JsonDeepCopy: asks for a value without cycles, because on a cycle the code does not return. EqualCode.JsonEqual asks the same.
- Dumper.JsonDumps: prints to a sink that never fails, and keys and strings are valid UTF-8, as every constructor but the unchecked ones guarantees.
- PendingIrpCode.IrpList.RegisterPendingIrp: is one step from taking the lock to releasing it. The cancel routine that reads its pointer in the middle of that section is not modelled, nor are the check that the device is mounted and the failure to allocate the entry.
- PendingIrpCode.IrpList.TakeOff: keeps the list of entries as a sequence, and an entry that is linked to itself as one that is not in it; List proves the pointer operations on their own. Fcb.Vcb.Unlink does the same.
- PendingIrp.NothingTwice: says at most one free for an entry, not exactly one: the cancel routine keeps the record of an entry nobody asked it to free. The buffer a cancelled write may hold is not part of it.
- PendingIrpCode.IrpList.CompleteIrp: leaves out unknown major functions, which the code neither completes nor reports, and the per-request completion routines.
- PendingIrpCode.IrpList.ReleaseTimeoutPendingIrp: takes as a parameter how many entries at the front of the list are expired, in place of the tick count.
- Directory.OpenInfo.Dispatch: takes lists of fewer than 2^32 - 1 entries, since the code counts them in a ULONG.
- Directory.MatchFiles: takes buffers of at least four bytes, since the code clears a ULONG at their start even when nothing fits, and keeps the pattern match abstract: `DokanIsNameInExpression` with its DOS wildcards is not modelled.
- Fcb.Vcb.GetFcb: does not model the failure to allocate an FCB, the rename that rewrites an FCB's name, or a FileCount past 32 bits.
- Ring.Insert: is stated for a node that is in no list. The singly linked PushEntryList and PopEntryList of list.h are not modelled; they would only add easy members.
- `DokanEventWrite`: its branch for a write that is already being cancelled links an entry to itself while it is still on the list.
- `json_object_iter_set_new`: its error path does not drop the reference it was given.
- The setters of strings, integers and reals, `json_object_update` and its variants, `json_pack` and `json_unpack`, error texts and memory hooks of jansson: easy or foreign.
- The serial numbers `AllocateEventContext` draws: replies may name any serial here, so the counter and its wrap-around do not matter.
- Mounting, the control utility, the per-request dispatchers and the kernel's caching calls of Dokan, and the comm, gDrive and jansson_test directories: operating system, network, user interface and tests.
