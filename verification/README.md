# Verification of the MDC logging library

A Dafny model of this repository's logging pipeline and of the algorithms in the test framework it
carries with it, with proofs about both. `dafny verify dfyconfig.toml` checks everything.

The **logging library** turns a message into one line of JSON: time, severity, identity, the
thread's MDC pairs and the message. Four layers are modelled as they are written, over buffers, linked
nodes and fields updated in place.

* `Wrappers`, `CStrings`, `Escaping`: optional values, zero-terminated text in arrays, `snprintf`, escaping and de-escaping.
  A pointer into a buffer is the array with an offset; a `char` is a byte; `isprint` is the range 0x20 to 0x7E.
* `LogEntry`, `LogFormat`, `JsonReader`, `LogRoundTrip`, `LogTheorems`: the text of an entry as a function
  of what is logged and of the buffer size, the formatter that writes it, a reader for JSON
  (RFC 8259), and what reading an entry gives back. The message is given after printf expansion.
* `MdcList`: the doubly linked list of one thread and the map it stands for.
* `Mdclog`, `LogRuns`: the API with its configuration and one list for each thread, and what holds after any
  sequence of calls.
* `IdentityLock`: the statements of initialization and logging as steps of threads that interleave, with
  the heap block that holds the identity and the read/write lock around it. `IdentityInForce` adds which identity is read.

The **test framework** algorithms each get a declarative meaning they are proved against.

* `Matching`: maximum bipartite matching behind `UnorderedElementsAre`.
* `SimpleRegex`, `TestFilter`: the regular expression matcher and the glob filter.
* `EditDistance`: the edit script shown for unequal texts, costs as real numbers.
* `Prerequisites`: the graph of expectations that must be satisfied in order.
* `Utf8`: the encoder of code points and the validator.

## Where code and documentation differ

The model follows the code.

* The overview of the library promises all MDC pairs in every entry, and the header says that a long entry is
  truncated (include/mdclog/mdclog.h:86-87). The MDC is cut to a prefix of its pairs without a mark
  (`AllPairsShownIff`, `EntryDropsPair`), and an entry is dropped altogether exactly when the MDC text fills its room
  (`EntryLostIffMdcFull`, `EntryCanBeLost`).
* The header says that adding an MDC fails when the value has illegal characters (include/mdclog/mdclog.h:179).
  The code checks the key, and escapes the value (`MdcAdd`).
* The comment on de-escaping says that it replaces unprintable characters (include/private/json_format.h:79). It copies
  them (`DeescapedPrintableIff`, `DeescapedKeepsTab`).
* The header says that `mdclog_mdc_get` returns the MDC value (include/mdclog/mdclog.h:189). It returns the escaped value,
  which is the one that was added exactly if that has no special characters (`MdcGet`, `GetAfterAdd`).
* The default identity is the escaped program name, but no more than 100 bytes of it are printed. When the cut falls
  inside an escape pair the entry is not JSON (`ProgramNameEntry`).
* The edit script is called optimal (3rdparty/googletest/include/gtest/internal/gtest-internal.h:183). It is a
  cheapest one exactly when some cheapest script passes no entry of the table whose least neighbour is tied
  (`NotAlwaysOptimal`, `OptimalIffCheapestMeetsNoTie`). Ties elsewhere may or may not do harm, even when the script
  found meets none (`TieWithoutHarm`, `TieOffThePath`).
* A full match is meant for the whole string. A pattern that ends in an escaped dollar is matched
  against a prefix only (`FullMatchExactIff`).
* The comment on the UTF-8 encoder says that numbers above 0x10FFFF become a text that names them. Only numbers above
  0x1FFFFF do (`CodePointToUtf8`, `BeyondUnicodeIsEncoded`).

## Model

| member | source | states |
|---|---|---|
| `Escaping.Escape` | src/json_format.c:59-92 | writes the longest prefix of the text whose escaped form fits in `len - 1` bytes, terminated, and no byte outside the buffer; reports truncation iff the escaped text is longer than `len - 1` |
| `Escaping.EscapeStops` | src/json_format.c:66-91 | where the escaping loop can stop: at the end, at a full buffer, or one byte beyond it inside an escape pair; each case yields the longest prefix that fits |
| `Escaping.StepBoundsFit` | src/json_format.c:66-81 | if one more character does not fit then no longer prefix does, so a greedy loop finds the longest one |
| `Escaping.Deescape` | src/json_format.c:94-113 | yields the de-escaped text of at most `len - 1` characters, or 0 and an empty text exactly when a backslash precedes anything but a backslash or quote; stays in the buffer |
| `Escaping.DeescapedEscaped` | src/json_format.c:94-113 | de-escaping an escaped text gives the original with unprintable bytes replaced, cut to the size allowed, and never the error |
| `Escaping.DeescapedIff` | src/json_format.c:94-113 | de-escaping up to n bytes gives a text iff the input starts with that many characters, each a byte other than a backslash or a backslash with a backslash or quote; anything else is the error |
| `Escaping.SanitizedBytes` | src/json_format.c:70-73 | bytes from 0x20 to 0x7E are kept and every other one becomes a space |
| `Escaping.DeescapedPrintableIff` | src/json_format.c:94-113 | de-escaping copies unprintable bytes: its output is printable iff the bytes it read were |
| `Escaping.DeescapedKeepsTab` | src/json_format.c:94-113 | a tab comes out of de-escaping unchanged |
| `Escaping.EscapeThenDeescape` | src/json_format.c:59-113 | escaping into any buffer and de-escaping into any larger one gives exactly the prefix that was escaped, unprintable bytes replaced, even after truncation |
| `Escaping.EscapedSize` | src/json_format.c:115-125 | the escaped length plus the terminator; everything fits in that size and in no smaller one |
| `Escaping.EscapedFixedIffSpecialFree` | src/json_format.c:127-135 | escaping leaves a text alone iff it has no special characters |
| `Escaping.ContainsSpecialCharacters` | src/json_format.c:127-135 | true iff escaping would change the text |
| `MdcList.List.AddToList` | src/mdc.c:60-68 | puts the entry in front; the list stays a proper doubly linked list whose nodes and contents grow by exactly that entry |
| `MdcList.List.MdcDestroy` | src/mdc.c:75-82 | releases an entry that is live; releasing it twice is impossible |
| `MdcList.List.RmFromList` | src/mdc.c:84-94 | takes exactly one node out, frees it, and keeps both link directions inverse of each other |
| `MdcList.List.Empty` | src/mdc.c:96-109 | terminates with an empty list; every node that was in it is freed, each once |
| `MdcList.List.Search` | src/mdc.c:213-229 | the first node with the key, or null when there is none |
| `MdcList.List.Put` | src/mdc.c:182-211 | a present key gets the escaped value in place, a new one goes to the front |
| `MdcList.List.Remove` | src/mdc.c:231-237 | the contents without the entry of that key |
| `MdcList.EscapeAndCopy` | src/mdc.c:168-180 | a copy in a buffer of exactly the size needed, never truncated |
| `MdcList.PutRefinesUpdate` | src/mdc.c:182-211 | putting is a map update and keeps keys unique |
| `MdcList.RemoveRefinesDeletion` | src/mdc.c:231-237 | removing deletes exactly that key from the map and keeps keys unique |
| `LogFormat.FormatTimestamp` | src/json_format.c:137-152 | prints the field, or nothing at all when it does not fit; in bounds, even for a length of 0 |
| `LogFormat.FormatSeverity` | src/json_format.c:154-177 | prints the name of severities 1 to 4, nothing for any other or when it does not fit; in bounds |
| `LogFormat.FormatIdentity` | src/json_format.c:179-190 | prints at most 100 bytes of the identity, or nothing when the field does not fit; in bounds |
| `LogFormat.FindTruncation` | src/json_format.c:235-245 | walking back over whole escape pairs finds the largest prefix that leaves room for the mark; it terminates and never enters the field name |
| `LogFormat.StepBack` | src/json_format.c:237-243 | between two escaped characters, the byte before tells whether the last one is a pair |
| `LogFormat.CutThenEscape` | src/json_format.c:223-233 | cutting the expanded message to the temporary buffer first does not change what gets escaped or whether it counts as truncated |
| `LogFormat.FormatMessage` | src/json_format.c:192-250 | the whole escaped message if it has at most `len - 9` bytes, else the longest prefix with at most `len - 20` and the mark; nothing below 20 bytes; in bounds |
| `LogEntry.FittingPairsLongest` | src/json_format.c:265-274 | the pairs printed are the longest prefix of the list that fits, commas included |
| `LogFormat.FormatPairs` | src/json_format.c:265-274 | the loop over the list prints exactly that prefix and counts it, in bounds |
| `LogFormat.CloseMdc` | src/json_format.c:275-281 | drops the last comma if there is one and writes one brace, also when no pair fits |
| `LogFormat.FormatMdc` | src/json_format.c:252-282 | prints the object of the longest prefix of the list that fits, or nothing below 9 bytes; in bounds |
| `LogEntry.RoomForMessage` | src/json_format.c:297-323 | whatever fields are kept, at least the 19 bytes set aside for the shortest message remain |
| `LogEntry.EntrySize` | src/json_format.c:285-334 | a finished entry and its terminator fit the buffer |
| `LogFormat.FormatHead` | src/json_format.c:285-313 | time, severity and identity are written in order with commas; a field that does not fit is left out |
| `LogFormat.FormatLogEntry` | src/json_format.c:285-334 | the buffer holds exactly the entry text and its length is returned, or -1 and an empty text; in bounds |
| `LogFormat.FormatToJsonStr` | src/json_format.c:336-348 | below 1000 bytes -1 with the buffer untouched; otherwise exactly the entry text, its length at most `len - 1`, or -1 |
| `LogRoundTrip.ReadEscaped` | src/json_format.c:59-92 | a JSON string reader (RFC 8259, section 7) gives back the text with unprintable bytes replaced |
| `LogRoundTrip.MdcReads` | src/json_format.c:252-282 | the MDC field reads as a JSON object of exactly the pairs shown, values de-escaped |
| `LogRoundTrip.MessageReads` | src/json_format.c:192-250 | the message field reads as the message, or as the prefix shown followed by the mark |
| `LogRoundTrip.DocumentReads` | src/json_format.c:285-334 | fields put together read as one JSON object of their members in order |
| `LogTheorems.EntryRoundTrip` | src/json_format.c:285-334 | for every time, severity, accepted identity, MDC list and message, a finished entry is JSON (RFC 8259, section 4) and reads back as the same time in ms, severity and identity, exactly the pairs that fit, and the whole message or exactly the prefix that fits with the mark |
| `LogTheorems.SeverityIsRead` | src/json_format.c:154-177 | a reader recovers the number of the severity from ERROR, WARNING, INFO or DEBUG, and finds none for any other number; entries of different severities differ |
| `LogTheorems.MessageCutOnlyIfNeeded` | src/json_format.c:285-334 | a finished entry has the whole message iff the entry with it fits the buffer; otherwise the message is cut where one more byte of it would make the entry too long |
| `LogTheorems.TimestampIsMilliseconds` | src/json_format.c:137-152 | a normalized time is logged in milliseconds, no wrap-around |
| `LogTheorems.MdcAlwaysFits` | src/json_format.c:285-323 | with 1000 bytes or more the first three fields are always complete and the MDC gets all the room they and the shortest message leave |
| `LogTheorems.AllPairsShownIff` | src/json_format.c:252-282 | an entry shows all pairs iff their text, commas included, stays below the room the other fields leave |
| `LogTheorems.EntryDropsPair` | src/json_format.c:252-282 | for any time, identity, severity and message there is a pair that a finished entry drops |
| `LogTheorems.EntryLostIffMdcFull` | src/json_format.c:313-331 | the call returns -1 iff the MDC text fills its part of the buffer to the last byte |
| `LogTheorems.EntryCanBeLost` | src/json_format.c:313-331 | for any time, identity, severity and message some single MDC pair makes the entry disappear |
| `LogTheorems.EntryPrintable` | src/json_format.c:285-334 | an entry consists of printable bytes only, so it is one line |
| `LogTheorems.AnySizeReads` | src/json_format.c:285-334 | also in buffers from 21 bytes on, where fields are left out, what is written is a JSON object |
| `LogTheorems.HalfPairRunsOn` | src/json_format.c:179-190 | an identity cut inside an escape pair makes the reader run over its closing quote |
| `LogTheorems.SomeNameIsCut` | src/mdclog.c:116-123 | a concrete program name that is cut inside an escape pair |
| `LogTheorems.ProgramNameEntry` | src/mdclog.c:110-126 | with the program name as identity an entry is JSON iff the cut to 100 bytes does not fall inside an escape pair; otherwise a name starts, with the letter m, right behind a string |
| `Mdclog.Attr.SetIdent` | src/mdclog.c:200-210 | accepts exactly identities without special characters of at most 100 bytes; otherwise -1 and no change |
| `Mdclog.Library.InitLibrary` | src/mdclog.c:88-130 | does nothing when done; otherwise takes the identity out of the attribute or uses the escaped program name |
| `Mdclog.Library.Init` | src/mdclog.c:132-140 | always initializes again |
| `Mdclog.Library.GetList` | src/mdc.c:143-166 | the list of the calling thread, created empty when first asked for; nothing else changes |
| `Mdclog.Library.OwnNodes` | src/mdc.c:143-166 | lists of different threads share no node |
| `Mdclog.Library.MdcAdd` | src/mdclog.c:212-221 | -1 without effect for a null or a key with special characters; otherwise puts the escaped value into the list of this thread only |
| `Mdclog.Library.MdcGet` | src/mdclog.c:223-235 | the stored, that is escaped, value or null; no list changes its contents |
| `Mdclog.GetAfterAdd` | src/mdclog.c:212-235 | getting a key after adding it gives the escaped value, which is the value added iff that has no special characters |
| `Mdclog.Library.SetLevel` | src/mdclog.c:169-172 | changes the level and nothing else |
| `Mdclog.Library.MdcRemove` | src/mdclog.c:237-243 | removes that key for this thread only |
| `Mdclog.Library.MdcClean` | src/mdclog.c:245-249 | empties and frees the list of this thread only |
| `Mdclog.Library.Write` | src/mdclog.c:142-167 | nothing above the level; otherwise at most one line, the entry and a newline, for the current state; no MDC list changes its contents |
| `LogRuns.RunIdentity` | src/mdclog.c:88-140 | over any calls, the identity in force is the one the attribute of the last initialization had accepted last, or else the escaped program name; the level is the one set last, at first errors only |
| `LogRuns.UserIdentityStays` | src/mdclog.c:102-106 | an identity without special characters of at most 100 bytes, once set and used to initialize, is in force until the next initialization |
| `LogRuns.DefaultIdentityStays` | src/mdclog.c:107-126 | without an initialization, or after one with nothing to take, the escaped program name is in force |
| `LogRuns.EntryOfGoodState` | src/mdclog.c:142-167 | an entry written in a good state is one line of printable bytes within PIPE_BUF, and it is JSON iff the identity was accepted by an attribute or the program name is not cut inside an escape pair |
| `LogRuns.StepKeepsGood` | src/mdclog.c:132-249 | every call of any thread keeps the invariant |
| `LogRuns.StepWrites` | src/mdclog.c:142-167 | only log calls write, at most one line each, and that line is good for the identity in force |
| `LogRuns.RunGood` | src/mdclog.c:132-249 | after any sequence of calls: keys unique and free of special characters, values escaped, identities acceptable, and every line written so far is one printable line of some log call, JSON iff the identity in force at that call was accepted or the program name is not cut inside an escape pair |
| `LogRuns.LogCallTells` | src/mdclog.c:142-167 | whatever calls came before, a log call adds one line; this is JSON iff the identity in force was accepted or the program name is not cut inside an escape pair, and then it reads back as exactly its time, severity, that identity, the pairs of its thread that fit, and its message as far as it fits; or the call adds nothing, and that iff its severity is above the level or the MDC fills its room |
| `LogRuns.ThreadsAreIsolated` | src/mdc.c:143-237 | what a thread has in its MDC depends on its own calls alone |
| `LogRuns.RunOrdersKeys` | src/mdc.c:182-237 | over every run, the keys of a thread are in order: a new key in front, every other one where it was |
| `LogRuns.RunLookup` | src/mdclog.c:223-235 | over every run, looking up a key finds the escaped value that the calls of the thread left there |
| `LogRuns.RunRefinesMap` | src/mdc.c:182-237 | over every run, each list is the map its thread asked for, with unique keys |
| `IdentityLock.OneStep` | src/mdclog.c:88-140 | every statement a thread can execute keeps memory safe and touches nothing that belongs to others |
| `IdentityLock.OthersUndisturbed` | src/mdclog.c:88-210 | a step of one thread preserves what every other thread relies on |
| `IdentityLock.AlwaysSafe` | src/mdclog.c:88-210 | over every schedule of init, logging and attribute calls: one owner for each live string, lock discipline, no fault |
| `IdentityLock.IdentityIsProtected` | src/mdclog.c:88-210 | in every interleaving no string is freed twice, read after free or changed under a reader, and a formatter always reads an acceptable identity or the escaped program name |
| `IdentityInForce.StepHolds` | src/mdclog.c:88-130 | every statement leaves attributes and configuration with the identities that the calls so far offered and chose |
| `IdentityInForce.ReadsTheChosen` | src/mdclog.c:142-167 | in every interleaving a formatter reads the identity of the initialization that chose last: what its attribute had accepted, or else the escaped program name |
| `Matching.LinkConsistent` | 3rdparty/googlemock/src/gmock-matchers.cc:182-206 | linking along an augmenting path keeps both arrays mutually referent and changes the status of one left node only |
| `Matching.ExhaustedStep` | 3rdparty/googlemock/src/gmock-matchers.cc:182-206 | right nodes seen by a failed search are all matched and their partners lead only to seen nodes |
| `Matching.MaxBipartiteMatchState.TryAugment` | 3rdparty/googlemock/src/gmock-matchers.cc:182-206 | terminates; success gives exactly one more left node a partner and keeps the arrays mutually referent; failure changes neither array and proves the node has no augmenting path |
| `Matching.TriedAfterSuccess` | 3rdparty/googlemock/src/gmock-matchers.cc:137-144 | later successes never open a way for a node that failed before: trying each node once is enough |
| `Matching.NoLargerMatching` | 3rdparty/googlemock/src/gmock-matchers.cc:130-161 | any matching of the graph has at most as many pairs as the search has used left nodes |
| `Matching.MaxBipartiteMatchState.Compute` | 3rdparty/googlemock/src/gmock-matchers.cc:130-161 | a matching made of graph edges, with the most pairs possible, in order of elements; the check that a left node is unused never fires |
| `Matching.FindMaxBipartiteMatching` | 3rdparty/googlemock/src/gmock-matchers.cc:228-230 | a maximum matching of every graph |
| `Matching.VerifyMatchMatrix` | 3rdparty/googlemock/src/gmock-matchers.cc:370-418 | true iff every node of each side the flags demand has an edge |
| `Matching.SaturatesIffLong` | 3rdparty/googlemock/src/gmock-matchers.cc:420-441 | comparing the number of pairs with the size of a side decides whether the side is saturated |
| `Matching.FindPairing` | 3rdparty/googlemock/src/gmock-matchers.cc:420-459 | true iff one matching saturates every side the flags demand |
| `Matching.PairableHasEdges` | 3rdparty/googlemock/src/gmock-matchers.cc:370-418 | the edge check never rejects a matrix that has a pairing |
| `Matching.MatchAndExplain` | 3rdparty/googlemock/include/gmock/gmock-matchers.h:2979-2998 | the verdict for any flags is whether a pairing exists, early exits included |
| `Matching.ExactMatchIsPermutation` | 3rdparty/googlemock/include/gmock/gmock-matchers.h:2885-2890 | under ExactMatch a pairing exists iff some permutation sends every element to a matcher it satisfies |
| `SimpleRegex.EscapeClasses` | 3rdparty/googletest/src/gtest-port.cc:792-807 | the classes of digits, white space and word characters and their complements, by their characters |
| `SimpleRegex.EscapedControls` | 3rdparty/googletest/src/gtest-port.cc:792-807 | the escapes that stand for one control character |
| `SimpleRegex.LiteralCharacters` | 3rdparty/googletest/src/gtest-port.cc:792-812 | escaped punctuation and plain characters stand for themselves, a dot for anything but a newline |
| `SimpleRegex.EscapesAre` | 3rdparty/googletest/src/gtest-port.cc:785-788 | only ASCII punctuation and the letters of the classes can be escaped |
| `SimpleRegex.ParseSound` | 3rdparty/googletest/src/gtest-port.cc:821-872 | what is read from an accepted pattern is well formed and is written as that pattern |
| `SimpleRegex.ParseComplete` | 3rdparty/googletest/src/gtest-port.cc:821-872 | every well-formed pattern, as written, is read back |
| `SimpleRegex.ScanIsParse` | 3rdparty/googletest/src/gtest-port.cc:821-872 | the single-pass check with its repeatable flag agrees with reading the pattern |
| `SimpleRegex.ValidateRegex` | 3rdparty/googletest/src/gtest-port.cc:821-872 | accepts exactly the texts of well-formed patterns |
| `SimpleRegex.MatchesHeadSplit` | 3rdparty/googletest/src/gtest-port.cc:881-934 | an item followed by items matches a prefix iff the item takes some characters and the rest matches behind them |
| `SimpleRegex.MatchRepetitionAndRegexAtHead` | 3rdparty/googletest/src/gtest-port.cc:881-903 | true iff some allowed number of repetitions lets the rest match; terminates without reading past the end |
| `SimpleRegex.MatchRegexAtHead` | 3rdparty/googletest/src/gtest-port.cc:908-934 | true iff some prefix of the string is in the language of the pattern, `$` meaning its end |
| `SimpleRegex.MatchRegexAnywhere` | 3rdparty/googletest/src/gtest-port.cc:944-956 | true iff some suffix has such a prefix, or the string itself for a pattern with `^`; false for null |
| `SimpleRegex.RE.constructor` | 3rdparty/googletest/src/gtest-port.cc:977-1008 | keeps the pattern and prepares the anchored one, for valid patterns only |
| `SimpleRegex.FullPatternReads` | 3rdparty/googletest/src/gtest-port.cc:992-1005 | the anchored pattern reads as the pattern with both anchors, except that no end anchor is added behind an escaped dollar |
| `SimpleRegex.RE.FullMatch` | 3rdparty/googletest/src/gtest-port.cc:966-968 | exactly the language of the pattern for the whole string; only a prefix of it when an escaped dollar comes last |
| `SimpleRegex.RE.PartialMatch` | 3rdparty/googletest/src/gtest-port.cc:972-974 | true iff some part of the string is in the language |
| `SimpleRegex.LiteralDollarAcceptsMore` | 3rdparty/googletest/src/gtest-port.cc:1004-1005 | a full match of `\$` accepts a dollar followed by anything |
| `SimpleRegex.FullMatchExactIff` | 3rdparty/googletest/src/gtest-port.cc:966-1008 | a full match decides the language for all strings iff the pattern does not end in an escaped dollar |
| `TestFilter.StarStep` | 3rdparty/googletest/src/gtest.cc:497-499 | a star takes nothing, or one more character |
| `TestFilter.MatcherDecides` | 3rdparty/googletest/src/gtest.cc:489-504 | the recursive matcher terminates and decides the glob language of the pattern up to the first colon or the end |
| `TestFilter.MatchesFilter` | 3rdparty/googletest/src/gtest.cc:506-525 | true iff the name matches one of the colon-separated pieces |
| `TestFilter.FilterMatchesTest` | 3rdparty/googletest/src/gtest.cc:529-555 | with the filter written as p, a dash and n, p without a dash: true iff the name matches a piece of p, or anything if p is empty, and no piece of n; without a dash, iff it matches a piece of the filter |
| `TestFilter.SplitAtDash` | 3rdparty/googletest/src/gtest.cc:533-549 | the first dash separates the parts, and an empty positive part becomes the universal one |
| `TestFilter.PiecesJoin` | 3rdparty/googletest/src/gtest.cc:506-525 | the pieces have no colon, and joined by colons they are the filter |
| `TestFilter.PiecesUnique` | 3rdparty/googletest/src/gtest.cc:506-525 | no other list of texts without colons joins to the same filter |
| `TestFilter.UniversalMatchesAll` | 3rdparty/googletest/src/gtest.cc:545-548 | the default positive part matches every name |
| `TestFilter.OneSidedFilters` | 3rdparty/googletest/src/gtest.cc:529-555 | without a dash nothing is excluded; with a leading dash everything else is included |
| `EditDistance.LastMove` | 3rdparty/googletest/src/gtest.cc:1094-1101 | what it takes for a script to end in a given move |
| `EditDistance.LeastIsLowerBound` | 3rdparty/googletest/src/gtest.cc:1049-1104 | no script that turns left into right costs less than the least cost |
| `EditDistance.LeastIsReached` | 3rdparty/googletest/src/gtest.cc:1049-1104 | and some script costs just that |
| `EditDistance.MatchIsBest` | 3rdparty/googletest/src/gtest.cc:1069-1074 | matching equal elements is never worse than any other move |
| `EditDistance.TraceIsScript` | 3rdparty/googletest/src/gtest.cc:1094-1103 | following the noted moves back gives a script that turns left into right, matches only equal elements, and costs what the table says |
| `EditDistance.CalculateOptimalEdits` | 3rdparty/googletest/src/gtest.cc:1049-1104 | terminates without index underflow; the result turns left into right at the cost of the final entry, and it is a cheapest script iff some cheapest script meets no tie |
| `EditDistance.OptimalStep` | 3rdparty/googletest/src/gtest.cc:1076-1091 | next to optimal entries an entry is optimal iff there is no tie for its least neighbour |
| `EditDistance.OptimalIffNoTies` | 3rdparty/googletest/src/gtest.cc:1076-1091 | the scripts for all pairs of prefixes are cheapest ones iff no entry with different elements saw a tie for its least neighbour |
| `EditDistance.TieIsNotLeast` | 3rdparty/googletest/src/gtest.cc:1076-1091 | an entry that saw a tie for its least neighbour costs more than the least |
| `EditDistance.NoTieIsCheapest` | 3rdparty/googletest/src/gtest.cc:1076-1091 | an entry that saw none costs no more than any move onto it |
| `EditDistance.OptimalIffCheapestMeetsNoTie` | 3rdparty/googletest/src/gtest.cc:1049-1104 | the script found is cheapest iff some cheapest script matches equal elements and passes no entry with a tie |
| `EditDistance.OptimalTraceMeetsNoTie` | 3rdparty/googletest/src/gtest.cc:1094-1103 | a script found by way of a tie is never a cheapest one |
| `EditDistance.TieWithoutHarm` | 3rdparty/googletest/src/gtest.cc:1049-1104 | two sequences with a tie in the table whose script is still cheapest |
| `EditDistance.TieOffThePath` | 3rdparty/googletest/src/gtest.cc:1049-1104 | two sequences whose script meets no tie and is not cheapest |
| `EditDistance.NotAlwaysOptimal` | 3rdparty/googletest/src/gtest.cc:1076-1091 | two sequences for which the script found costs 3.00003 although 2 is possible |
| `Prerequisites.TransitiveIsLeast` | 3rdparty/googlemock/src/gmock-spec-builders.cc:104-127 | the transitive prerequisites are contained in every closed set around the immediate ones |
| `Prerequisites.TransitiveStep` | 3rdparty/googlemock/src/gmock-spec-builders.cc:133-148 | a transitive prerequisite is an immediate one or one behind an immediate one |
| `Prerequisites.Expectation.RetireAllPreRequisites` | 3rdparty/googlemock/src/gmock-spec-builders.cc:104-127 | terminates on every graph; if the retired set is closed under prerequisites it grows by exactly the transitive prerequisites and stays closed, although retired nodes are skipped |
| `Prerequisites.PrerequisiteWeighsLess` | 3rdparty/googlemock/src/gmock-spec-builders.cc:133-148 | in an acyclic graph a node outweighs all its immediate prerequisites together, which bounds the traversal without a visited set |
| `Prerequisites.Expectation.AllPrerequisitesAreSatisfied` | 3rdparty/googlemock/src/gmock-spec-builders.cc:131-148 | on every acyclic graph it terminates and is true iff all transitive prerequisites are satisfied |
| `Prerequisites.Expectation.ShouldHandleArguments` | 3rdparty/googlemock/include/gmock/gmock-spec-builders.h:1096-1106 | true iff not retired, all transitive prerequisites satisfied, and the arguments match |
| `Prerequisites.PrerequisitesAreLastPredecessors` | 3rdparty/googlemock/src/gmock-spec-builders.cc:852-860 | an immediate prerequisite is exactly the last expectation that entered one of the same sequences before |
| `Prerequisites.SequenceIsInOrder` | 3rdparty/googlemock/src/gmock-spec-builders.cc:852-860 | of two expectations in a sequence the later one has the earlier one among its transitive prerequisites |
| `Prerequisites.SetUpIsAcyclic` | 3rdparty/googlemock/src/gmock-spec-builders.cc:852-860 | starting from nothing, if expectations enter sequences only while they are the newest, every graph built is acyclic and every prerequisite is an earlier expectation |
| `Prerequisites.Expectation.GetActionForArguments` | 3rdparty/googlemock/include/gmock/gmock-spec-builders.h:1190-1218 | counts the call; it is excessive iff the maximum was reached before, and then retires nothing; any other retires all transitive prerequisites and perhaps the expectation; the retired set stays closed |
| `Prerequisites.SatisfiedAndSaturatedIff` | 3rdparty/googlemock/include/gmock/gmock-spec-builders.h:793-804 | in a run from the start, an expectation is satisfied from its minimum to its maximum number of calls and saturated from its maximum on |
| `Prerequisites.RetiredIff` | 3rdparty/googlemock/include/gmock/gmock-spec-builders.h:1190-1218 | in a run from the start, an expectation is retired iff a call that was not excessive went to one that comes after it, or to itself when that reached its maximum and was to retire then |
| `Prerequisites.MayHandleIff` | 3rdparty/googlemock/include/gmock/gmock-spec-builders.h:1096-1106 | in a run from the start, an expectation may take the next call iff all it comes after was called between minimum and maximum times and no call has retired it |
| `Prerequisites.HandledKeepsClosed` | 3rdparty/googlemock/include/gmock/gmock-spec-builders.h:1190-1218 | taking a call keeps the retired set closed and never shrinks it |
| `Prerequisites.RetiredTakesNoCalls` | 3rdparty/googlemock/include/gmock/gmock-spec-builders.h:1096-1106 | over any run, a retired expectation takes no further call |
| `Prerequisites.CallsInOrder` | 3rdparty/googlemock/include/gmock/gmock-spec-builders.h:1096-1218 | over any run, a call is taken only when all it comes after is satisfied, and once it was taken unsaturated nothing it comes after takes another call |
| `Prerequisites.Sequence.AddExpectation` | 3rdparty/googlemock/src/gmock-spec-builders.cc:852-860 | makes the last expectation a prerequisite of the new one unless they are the same, and remembers the new one |
| `Prerequisites.AddKeepsClosedIff` | 3rdparty/googlemock/src/gmock-spec-builders.cc:852-860 | adding a prerequisite keeps the retired set closed iff a retired expectation is not given a live one |
| `Prerequisites.TransitiveAfterAdd` | 3rdparty/googlemock/src/gmock-spec-builders.cc:852-860 | how the transitive prerequisites of every expectation change |
| `Prerequisites.AddKeepsAcyclicIff` | 3rdparty/googlemock/src/gmock-spec-builders.cc:852-860 | adding a prerequisite keeps the graph acyclic iff it is another expectation that does not come after this one already |
| `Utf8.Utf8Step` | 3rdparty/googletest/src/gtest-printers.cc:378-409 | a text has at most one reading as characters of RFC 3629, section 4, and its first byte gives the length of the first |
| `Utf8.IsValidUTF8` | 3rdparty/googletest/src/gtest-printers.cc:376-411 | accepts a byte string iff it is a sequence of characters of RFC 3629, section 4; every read is in bounds |
| `Utf8.CodePointToUtf8` | 3rdparty/googletest/src/gtest.cc:1777-1803 | the text that names the number iff it is above 0x1FFFFF, for 0 the empty text, otherwise the one shortest byte pattern of RFC 3629, section 3, whose payload is the code point; the result is valid UTF-8 iff the number is a scalar value or above 0x1FFFFF |
| `Utf8.BeyondUnicodeIsEncoded` | 3rdparty/googletest/src/gtest.cc:1777-1803 | 0x110000 is encoded to four bytes, which are not valid UTF-8 |
| `Utf8.InvalidTextLooks` | 3rdparty/googletest/src/gtest.cc:1777-1780 | the text for one number, letter by letter |
| `Utf8.HexNamesNumber` | 3rdparty/googletest/src/gtest.cc:1982-1986 | the hexadecimal digits give back the number |
| `Utf8.EncodingIsUnique` | 3rdparty/googletest/src/gtest.cc:1777-1803 | no two byte strings encode the same number |
| `Utf8.CharsAreScalarValues` | 3rdparty/googletest/src/gtest-printers.cc:378-409 | the characters of section 4 are exactly the shortest patterns of section 3 for scalar values, so decoding them and encoding again is the identity |
| `Utf8.ValidIffScalarValue` | 3rdparty/googletest/src/gtest.cc:1777-1803 | for 1 to 0x1FFFFF the encoding is valid UTF-8 iff the number is at most 0x10FFFF and not a surrogate |

## Left out

- EditDistance.CalculateOptimalEdits: costs are exact reals, not `double`; the rounding of 1.00001 is not modelled.
- LogFormat.FormatMessage: takes the expanded text. A negative result of `vsnprintf`, and lengths beyond `INT_MAX`, are not modelled.
- LogFormat.FormatLogEntry: states buffers from 21 bytes on; its only caller has at least 1000.
- MdcList.List.Put: allocation succeeds. When it fails, `mdclog_internal_put_mdc` destroys a node that is still linked.
- MdcList.List.MdcDestroy: keys and values are kept as values, so the release of nodes is tracked and that of the texts in them is not.
- Mdclog.Library.Write: time, the level and the message are inputs, standard output is a list of lines; `write` and its retries are not modelled.
- Mdclog.Attr.SetIdent: the earlier identity is replaced; that its memory is then lost is not stated.
- IdentityLock.IdentityIsProtected: a thread uses only attributes of its own; a second identity for the same attribute leaks the first. No claim that a lazy initialization running at the same time keeps an identity set by the user: `init_done` is not checked again under the lock.
- SimpleRegex.MatchRegexAtHead: strings are shorter than `SIZE_MAX`, which bounds the repetition count.
- Utf8.CodePointToUtf8: masks and shifts are remainders and quotients of numbers.
- LogTheorems.ReadsBack: that a name or string is valid UTF-8 is not part of the JSON reader.
- Prerequisites.Expectation.AllPrerequisitesAreSatisfied: the set of prerequisites is visited in any order. Cardinalities are the built-in interval; user-defined ones, and `After` clauses other than through `Sequence`, are not modelled.
- Prerequisites.CallsInOrder: expectations are all set before the calls of the run.
- Matching.MatchAndExplain: starts from the finished matrix; evaluating the matchers and the explanatory texts are not modelled.
- `mdclog_lib_clean`, thread exit and the destruction of a list with its thread.
- `mdclog_format_initialize`: environment, configuration file, monitoring of the log level.
- Flag parsing, sharding, death tests, result printing and the remaining plumbing of the test framework.
