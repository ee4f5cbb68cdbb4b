# Models and proofs for the `common` layer of the vendored llama.cpp

The files here model the closed logic of `native/llama/common` and of the LoRA converter, and prove
what that logic is for. Each module names the source lines it follows. `dafny verify dfyconfig.toml`
checks everything.

What is modelled, part by part:

- **The line editor** (`Utf8`, `Utf8Text`, `EditorModel`, `LineEditor`, `KeyReader`). The editor keeps
  a line of bytes, a list of widths and two positions. `EditorModel` is a list of code points with a
  cursor and a history; the classes in `LineEditor` follow the loops over bytes and are shown to
  refine it for every sequence of keys, from raw input to the returned line.
- **Streaming chat output** (`CommonStrings`, `ReasoningModel`, `ReasoningSections`, `ChatParser`, `ChatDiff`,
  `ChatServer`, `ChatStream`). The server parses each longer beginning of a model's output, passes over empty
  messages and sends differences. The parser class computes what the recursive description says, and what is
  written as sections of reasoning and content is parsed back, wherever the reasoning is to go;
  parses of growing beginnings only extend, exactly when nothing is withdrawn; and a client that
  applies the differences holds what the server holds, for all ways to cut the output.
- **Grammars** (`Gbnf`, `Decimals`, `IntegerRange`, `IntegerGrammar`, `IntegerHalfLines`,
  `IntegerSentinel`, `IntegerContradiction`, `ExclusionGrammar`, `ExclusionTheorems`, `ArgumentChain`, `ObjectGrammar`,
  `ObjectRule`, `ObjectPromise`, `Repetition`). Compilers emit grammar text; here they build trees with
  a language, and each is shown to accept exactly the strings it is meant to, or exactly when it does.
- **The logger** (`LogRing`, `LogProtocol`). A ring buffer class, and a state machine whose steps are
  what producers, the worker and the controller do under the mutex, in any order.
- **N-gram caches and drafting** (`NgramCache`, `NgramStore`, `NgramPick`, `NgramDraft`, `NgramFollows`).
- **Base64** (`Base64`, `Base64Laws`, `Base64Text`), sections 4 and 5 of RFC 4648, also in place, against the
  tables of characters written out.
- **Longest common run** (`Lcs`).
- **Factored LoRA tensors** (`Tensors`, `Lora`, `LoraJoin`, `LoraBatches`). Operations on the pair (A, B) against the
  same operations on B·A, with exact numbers and row-major indices.
- **XML-style tool calls** (`Utf8Truncate`, `XmlFind`, `XmlModel`, `XmlStops`, `XmlToolCalls`, `XmlRoundTrip`,
  `XmlForms`, `XmlStray`, `XmlStreaming`, `XmlCut`, `XmlCutCalls`, `XmlMissing`, `XmlUndefined`). What the parser
  reads and how it stops, for all forms; that it reads back what the grammars of the formats let a model
  write; that what it has sent of a text that is cut off anywhere is a beginning of what it sends for the
  whole, so that no difference throws; and when it uses a result that is not there.

Every lemma to which Dafny would apply its automatic induction says `{:induction false}`: all induction is
written out.

## Where the code does not do what is said about it

The models follow the code. Each of these is stated with its exact condition.

- Chat output that is not forced open, begins with white space and goes on with the first character
  of the start tag is first shown as content, and its parse is then empty while the tag is incomplete
  (`ReasoningModel.StreamOnlyGrows`). The server passes over the empty message, so the client loses
  nothing and gets nothing twice; only when the output ends there does it keep white space that the
  final message does not have (`ChatStream.EveryChunkingRecovers`).
- The integer grammar negates bounds, so a minimum of the least 64-bit integer plus one turns into
  "no maximum" (`IntegerSentinel.ClosedExactIff`). A minimum above the maximum does not accept nothing,
  unless the two differ in the last digit alone: from 20 to 13 gives "10" to "13"
  (`IntegerContradiction.AnyOrderIff`, `IntegerContradiction.WrongOrderAccepts`). A minimum alone drops leading zeros of its
  remaining digits, so it is exact only while its inner digits are all at least two; with sixteen
  digits it writes a range such as {16,15}, and one bound is still exact
  (`IntegerHalfLines.MinOnlyExactIff`). A negative maximum alone is similar
  (`IntegerHalfLines.MaxOnlyNegativeExactIff`).
- "Accept any strings except those containing any of the forbidden strings" is more than the trie
  gives, since it starts over after a mismatch: "aab" is accepted for the forbidden word "ab"
  (`ExclusionTheorems.ExcludesAllIff`, for any list of words). A single word is kept out exactly when
  all its characters are equal (`ExclusionTheorems.ExcludesIff`).
- A property called "*" takes the place of, or is repeated like, the additional entry of an object,
  and a property that two components of an `allOf` name is demanded twice, or may come twice. A name in
  `required` that is no property is dropped, so an object without it is accepted
  (`ObjectPromise.PromiseIff`, `ObjectPromise.RequiredNotListed`).
- Contradicting limits of a repetition do not accept nothing: the lower one is dropped, or the grammar
  parser takes their unsigned difference (`Repetition.ExactIff`).
- `pause` of the logger puts its end marker in without looking for room. With one free slot the ring
  then looks empty, the worker sleeps and `pause` never comes back (`LogProtocol.PauseReturnsIff`).
- Whether a token is drafted can depend on the order in which a hash map is walked
  (`NgramPick.OrderFreeIff`, `NgramPick.OrderDecides`). The thresholds are looked up by the place in the
  list of n-grams, not by their size; that is the same exactly when the smallest size is one
  (`NgramDraft.PlaceIsSizeIff`).
- `common_lcs` is said to find a subsequence; it computes the longest run of neighbouring tokens, which
  can be shorter, by any number (`Lcs.RunAgainstSubsequence`, `Lcs.RunFallsBehind`).
- An index, a slice and `torch.cat` go to both factors of a pair of more than two dimensions, but
  `reshape` leaves A with a single matrix: a slice that does not start at the first one is then lost,
  and so is a concatenation (`LoraBatches.SliceIff`, `LoraBatches.ItemIff`, `LoraBatches.CatOfOnesLost`).
- The line editor writes nothing for a code point above 0x10FFFF but still counts a character
  (`LineEditor.Editor.InsertCharacter`). `readline` also drops the newline it has just added from the
  returned line, not only from the history (`LineEditor.Editor.Finish`).
- A tool call whose closing literal has an alternative can make the parser use a search result that is
  not there. Whole parses come out so exactly as `XmlToolCalls.ParseXmlToolCalls` says; which forms can
  come to it is settled for complete input (`XmlUndefined.CompleteParsesIff`), for the first call
  (`XmlUndefined.FirstCallIff`) and for any input (`XmlUndefined.AnyParseIff`). Apriel-1.5 is such a
  form, with the input `<tool_calls>[{"name": "}b", "arguments": {b` (`XmlUndefined.AprielMisses`); the
  other six formats are not (`XmlUndefined.OthersNeverMiss`).
- A tool call that gives a key twice has its first value sent by the time the second takes its place, and the
  difference throws (`XmlCutCalls.RepeatedKeyThrows`).

## Model

| member | source | states |
|---|---|---|
| Utf8.EncodeShape | native/llama/common/console.cpp:363-427 | the first byte written for a code point announces exactly how many bytes were written, and what follows are continuation bytes |
| Utf8.DecodeEncode | native/llama/common/console.cpp:363-427 | `decode_utf8` undoes `append_utf8` for every code point up to 0x10FFFF, between any bytes before and after, and advances over just its bytes |
| Utf8.Decode | native/llama/common/console.cpp:363-407 | decoding always advances, and never past the end, whatever the bytes are |
| Utf8.EncodeIsTable | native/llama/common/console.cpp:409-427 | the bytes of a code point are those of its row in the table of section 3 of RFC 3629, and a value above 0x10FFFF has none |
| Utf8.DecodeWellFormed | native/llama/common/console.cpp:363-407 | a first byte with all the bytes that must follow it stands for the number the table gives, also where fewer bytes would have done |
| Utf8.DecodeMalformed | native/llama/common/console.cpp:363-407 | everywhere else one byte is passed over and stands for U+FFFD |
| Utf8Text.NextPos | native/llama/common/console.cpp:439-446 | the next position is behind all continuation bytes and in front of none |
| Utf8Text.PrevPos | native/llama/common/console.cpp:430-437 | the previous position skips continuation bytes only, and stops at a first byte or at zero |
| Utf8Text.NextBoundary | native/llama/common/console.cpp:439-446 | from the offset of code point `k`, the byte search ends at the offset of `k + 1` |
| Utf8Text.PrevBoundary | native/llama/common/console.cpp:430-437 | from the offset of code point `k`, the byte search ends at the offset of `k - 1` |
| Utf8Text.DecodeAtBoundary | native/llama/common/console.cpp:363-407 | decoding at the offset of a code point gives that code point |
| Utf8Text.EncodeTextInjective | native/llama/common/console.cpp:409-427 | different texts have different encodings |
| Utf8Truncate.TruncateSafe | native/llama/common/chat-parser-xml-toolcall.cpp:27-50 | the length kept does not exceed the string, and is decided by the last first byte within the last four bytes |
| Utf8Truncate.TruncateKeepsWholeCharacters | native/llama/common/chat-parser-xml-toolcall.cpp:27-50 | of any beginning of an encoded text, exactly the whole code points are kept, and as many as fit |
| EditorModel.WordLeftStops | native/llama/common/console.cpp:571-607 | control-left goes back over spaces and one whole word, to where that word begins or to the start |
| EditorModel.WordRightStops | native/llama/common/console.cpp:609-654 | control-right goes over spaces, one word and the spaces behind it, to where the next word begins or to the end |
| EditorModel.WordLeftUnique | native/llama/common/console.cpp:571-607 | no other place is like that |
| EditorModel.WordRightUnique | native/llama/common/console.cpp:609-654 | no other place is like that |
| EditorModel.HomeAndEnd | native/llama/common/console.cpp:519-537 | a character typed right after Home comes first, and right after End last |
| EditorModel.HomeAndRights | native/llama/common/console.cpp:519-527 | after Home and `n` rights a character goes in at the place `n`, Delete takes the one that stands there, and Backspace the one before it |
| EditorModel.EndAndLefts | native/llama/common/console.cpp:529-537 | after End and `n` lefts just `n` characters stand behind the one put in |
| EditorModel.InsertThenBackspace | native/llama/common/console.cpp:905-972 | backspace undoes an insertion anywhere |
| EditorModel.DeleteUndoneByInsert | native/llama/common/console.cpp:454-480 | typing the deleted character again and stepping back undoes a delete |
| EditorModel.BackspaceIsLeftDelete | native/llama/common/console.cpp:905-933 | backspace is a step to the left and a delete |
| EditorModel.ManyUps | native/llama/common/console.cpp:704-728 | any number of ups shows the entry so far back, and the oldest one from then on |
| EditorModel.ManyDowns | native/llama/common/console.cpp:717-728 | any number of downs comes forward again, down to the line that was being edited |
| EditorModel.UpsThenDownsRestore | native/llama/common/console.cpp:760-778 | as many downs as ups bring the edited line back, with the cursor at its end |
| EditorModel.SubmitPlain | native/llama/common/console.cpp:980-1019 | a line without a marker is handed back, and more is wanted just in multiline mode |
| EditorModel.SubmitBackslash | native/llama/common/console.cpp:980-1019 | a final backslash comes off and turns the mode around |
| EditorModel.SubmitSlash | native/llama/common/console.cpp:980-1019 | a final slash comes off, with a single space before it, and no more is wanted |
| EditorModel.SubmitIsRemembered | native/llama/common/console.cpp:693-702 | a line that was entered is the newest entry and the first up key shows it |
| EditorModel.SubmitStaysTidy | native/llama/common/console.cpp:693-702 | submitting keeps the history free of empty lines and of neighbours that are equal |
| EditorModel.HistoryStaysTidy | native/llama/common/console.cpp:689-741 | over every run of keys and the submission after it the history stays so, and keys alone never change it |
| LineEditor.History.Add | native/llama/common/console.cpp:693-702 | empty lines and repetitions of the last line are not remembered |
| LineEditor.History.Prev | native/llama/common/console.cpp:704-715 | going back one entry, or staying at the oldest; nothing to show when there are no entries or nothing is viewed |
| LineEditor.History.Next | native/llama/common/console.cpp:717-728 | going forward one entry, and to the backup behind the newest |
| LineEditor.History.BeginViewing | native/llama/common/console.cpp:730-732 | viewing starts behind the newest entry and keeps the edited line as the backup |
| LineEditor.History.EndViewing | native/llama/common/console.cpp:734-736 | viewing ends and the backup is gone |
| LineEditor.Editor.DeleteAtCursor | native/llama/common/console.cpp:454-480 | the byte-level delete is the delete on code points |
| LineEditor.Editor.BackspaceKey | native/llama/common/console.cpp:905-933 | the byte-level backspace is the one on code points |
| LineEditor.Editor.InsertCharacter | native/llama/common/console.cpp:934-972 | inserting is inserting on code points; the widths still describe a text exactly when the code point is at most 0x10FFFF |
| LineEditor.Editor.MoveToStart | native/llama/common/console.cpp:519-527 | the cursor is in front of the text |
| LineEditor.Editor.MoveToEnd | native/llama/common/console.cpp:529-537 | the cursor is behind the text |
| LineEditor.Editor.MoveLeft | native/llama/common/console.cpp:811-819 | one code point to the left, unless at the start |
| LineEditor.Editor.MoveRight | native/llama/common/console.cpp:820-828 | one code point to the right, unless at the end |
| LineEditor.Editor.MoveWordLeft | native/llama/common/console.cpp:571-607 | the loops over bytes and widths move the cursor as the word motion on code points does |
| LineEditor.Editor.MoveWordRight | native/llama/common/console.cpp:609-654 | the loops over bytes and widths move the cursor as the word motion on code points does |
| LineEditor.Editor.SetLineContents | native/llama/common/console.cpp:495-517 | the line, its widths and both positions are those of the new text with the cursor at its end |
| LineEditor.Editor.HistoryPrev | native/llama/common/console.cpp:760-769 | the up key on the whole session, history and line together |
| LineEditor.Editor.HistoryNext | native/llama/common/console.cpp:770-778 | the down key on the whole session; it never starts viewing |
| LineEditor.Editor.HandleKey | native/llama/common/console.cpp:792-977 | one key keeps the byte-level state coherent and does to code points and history what the list editor does |
| LineEditor.Editor.HandleKeys | native/llama/common/console.cpp:757-978 | for every sequence of keys the byte-level editor refines the list of code points with a cursor |
| LineEditor.Editor.CloseLine | native/llama/common/console.cpp:980-1006 | the trailing marker decides the returned line and whether more input is wanted |
| LineEditor.Editor.Finish | native/llama/common/console.cpp:980-1019 | what a finished line returns and what the history then holds; the newline is dropped from both |
| KeyReader.DecimalFive | native/llama/common/console.cpp:539-565 | a number of digits is five exactly when it is a five behind zeros |
| KeyReader.HasCtrlModifier | native/llama/common/console.cpp:539-565 | the ctrl modifier is recognised exactly when some segment of the parameters, the first included, is five |
| KeyReader.ReadDigits | native/llama/common/console.cpp:843-851 | the digits of the first parameter segment |
| KeyReader.ReadParams | native/llama/common/console.cpp:799-807 | parameters are read up to the final byte of the sequence or the end of the input |
| KeyReader.DecodeEscape | native/llama/common/console.cpp:809-862 | which key a sequence with these parameters is |
| KeyReader.ReadsSequence | native/llama/common/console.cpp:796-808 | a sequence with any parameters is read whole, as the key its final character and parameters stand for |
| KeyReader.TerminalSequence | native/llama/common/console.cpp:799-807 | digits and semicolons go on, and the first letter or tilde ends the sequence |
| KeyReader.OnlyLowByte | native/llama/common/console.cpp:799-807 | of a parameter character only the lowest eight bits count |
| KeyReader.PlainKeys | native/llama/common/console.cpp:811-840 | which key each letter without parameters is |
| KeyReader.ControlKeys | native/llama/common/console.cpp:811-828 | with the control modifier, alone or behind another number, the arrows go by words |
| KeyReader.NumberedKeys | native/llama/common/console.cpp:841-862 | which key each number before a tilde is |
| KeyReader.EscapeSwallows | native/llama/common/console.cpp:863-868 | what escape does to the characters behind it when no bracket follows |
| KeyReader.SingleCharacters | native/llama/common/console.cpp:780-795 | which single characters end the line or the input, delete, or are typed |
| KeyReader.ArrowsInALine | native/llama/common/console.cpp:743-1019 | from raw input to the line: a text, arrows to the left, a character and Enter |
| KeyReader.HomeInALine | native/llama/common/console.cpp:743-1019 | from raw input to the line: a text, Home, a character and Enter |
| KeyReader.ReadEvent | native/llama/common/console.cpp:780-870 | one key press is read from the input, with escape sequences resolved, and the position advances within it |
| KeyReader.ReadLine | native/llama/common/console.cpp:743-1019 | a whole line from raw input: the keys up to the first enter or end are run, and the result is what the list editor submits |
| KeyReader.TypingALine | native/llama/common/console.cpp:743-1019 | plain characters and enter give back those characters as the line |
| CommonStrings.StringStrip | native/llama/common/common.cpp:414-424 | the two index loops strip white space at both ends |
| CommonStrings.StripIsMiddle | native/llama/common/common.cpp:414-424 | only white space is dropped, and what is left neither starts nor ends with it |
| CommonStrings.StripMonotone | native/llama/common/common.cpp:414-424 | a longer text strips to something that starts with what the shorter one strips to |
| CommonStrings.SixSpaces | native/llama/common/common.cpp:414-424 | white space is the six characters it is in the C locale |
| CommonStrings.FindPartialStop | native/llama/common/common.cpp:471-485 | the search finds the longest end of the text that begins the stop word |
| CommonStrings.PartialStopMonotone | native/llama/common/common.cpp:471-485 | text shown up to a partial stop is never part of a stop word that later turns up |
| ReasoningModel.HandleMonotone | native/llama/common/chat-parser.cpp:309-327 | what a growing open section adds only extends |
| ReasoningModel.TailMonotone | native/llama/common/chat-parser.cpp:381-430 | from any cursor on, across any number of sections, a longer input only adds |
| ReasoningModel.ParseMonotone | native/llama/common/chat-parser.cpp:287-431 | the parse of an input extends the parse of each of its beginnings, unless white space came first, a tag may follow and nothing is left |
| ReasoningModel.StreamOnlyGrows | native/llama/common/chat-parser.cpp:287-431 | over all pairs of beginnings the messages only extend exactly when nothing is withdrawn: not forced open, white space first, and then the first character of the start tag |
| ReasoningModel.ParseRecovers | native/llama/common/chat-parser.cpp:287-431 | white space, a tagged section and content written out are parsed back into reasoning and content |
| ReasoningModel.ReasoningReturns | native/llama/common/chat-parser.cpp:287-431 | the result says whether there is reasoning: forced open, or a start tag comes or begins to, behind white space |
| ReasoningSections.SectionsRecovered | native/llama/common/chat-parser.cpp:287-431 | white space, any number of tagged sections and what follows the last: each stripped section goes to the reasoning or, with its tags, to the content, in order, and nothing else is lost |
| ReasoningSections.OpenRecovered | native/llama/common/chat-parser.cpp:381-430 | the same for a section that is still open, in a partial and in a final input |
| ReasoningSections.ForcedRecovered | native/llama/common/chat-parser.cpp:349-368 | the same where reasoning is forced open and begins without a tag |
| ReasoningSections.ForcedOpenRecovered | native/llama/common/chat-parser.cpp:349-368 | and for one that is forced open and still is |
| ReasoningSections.NoReasoning | native/llama/common/chat-parser.cpp:287-431 | without a format, or without a tag where one may stand, all of the output is content |
| ChatParser.FindLiteral | native/llama/common/chat-parser.cpp:257-279 | a literal, or its beginning at the very end, is found at or after the position, with the text before it |
| ChatParser.Parser.TryFindLiteral | native/llama/common/chat-parser.cpp:257-279 | the position moves behind what was found and nowhere otherwise |
| ChatParser.Parser.ConsumeSpaces | native/llama/common/chat-parser.cpp:232-240 | the position moves over white space and nothing else |
| ChatParser.Parser.ConsumeRest | native/llama/common/chat-parser.cpp:433-437 | the rest of the input, and the position at its end |
| ChatParser.Parser.HandleReasoning | native/llama/common/chat-parser.cpp:309-327 | one section's text goes to reasoning or, with its tags, to content |
| ChatParser.Parser.TryParseReasoning | native/llama/common/chat-parser.cpp:287-431 | the mutating parser adds what the model says, stops where it says and reports what it says |
| ChatParser.Parser.ParseSections | native/llama/common/chat-parser.cpp:381-430 | the loop over sections does what the recursive description says |
| ChatParser.Parser.ParseContentOnly | native/llama/common/chat-parser.cpp:1398-1401 | reasoning and then the rest as content; nothing is left over |
| ChatDiff.ComputeDiffs | native/llama/common/chat.cpp:89-136 | the loop computes the list of differences, or the error |
| ChatDiff.DiffsThrow | native/llama/common/chat.cpp:89-136 | an error comes exactly when a text is not comparable, a call is gone or its name has changed |
| ChatDiff.GrownDiffs | native/llama/common/chat.cpp:89-136 | for a message that only grew: the new reasoning, the new content, what came of the last known call with its name only if the id is new, and each new call whole, in this order |
| ChatDiff.FoldExact | native/llama/common/chat.cpp:89-136 | applying the differences to the old message gives the new one exactly when the message has grown |
| ChatDiff.StreamRecovers | native/llama/common/chat.cpp:89-136 | along any chain of growing messages nothing is thrown and all differences in order give the last message |
| ChatDiff.SetToolCallIds | native/llama/common/chat.h:48-59 | cached ids are kept, new ones are added from the calls or from the generator, and every call gets its cached id |
| ChatDiff.CachedIdsGrow | native/llama/common/chat.h:48-59 | with ids from the cache, growing calls count as growing although they come without ids |
| ChatServer.TaskState.UpdateChatMsg | native/llama/tools/server/server-task.cpp:709-726 | one result: the output is parsed, an empty message is passed over, and otherwise ids are set, the message is taken over and the differences to the one before are computed |
| ChatServer.RunRecovers | native/llama/tools/server/server-task.cpp:709-726 | over any run, with any ids generated: if the parsed messages that are not empty only grow, ids aside, no difference throws, the client holds what the server holds, that is the last of them, and no id ever changes |
| ChatServer.GivenIdsStay | native/llama/common/chat.h:48-59 | an id that the model gave with a call, when the call was first seen, is the one the client has in the end |
| ChatStream.StreamingRecovers | native/llama/tools/server/server-task.cpp:709-726 | for all ways to cut the output no difference throws and the client holds what the server holds; that is the final parse exactly when it is not so that the output ends inside the start tag and was parsed while it was white space |
| ChatStream.EveryChunkingRecovers | native/llama/tools/server/server-task.cpp:709-726 | the client ends with the final message for all ways to cut the output exactly when that does not end inside the first start tag |
| IntegerRange.FindCommonPrefix | native/llama/common/json-schema-to-grammar.cpp:74-80 | the loop finds the longest common beginning of two numerals |
| IntegerRange.UniformRangeExact | native/llama/common/json-schema-to-grammar.cpp:72-126 | `uniform_range` accepts exactly the digit strings of that length between its two ends |
| IntegerRange.CompileLengths | native/llama/common/json-schema-to-grammar.cpp:143-154 | the loop over lengths builds one alternative for each number of digits |
| IntegerRange.LengthRangesExact | native/llama/common/json-schema-to-grammar.cpp:143-154 | exactly the numerals without leading zero between the two bounds |
| IntegerGrammar.RenderInjective | native/llama/common/json-schema-to-grammar.cpp:128-155 | different integers have different numerals |
| IntegerGrammar.ClosedExact | native/llama/common/json-schema-to-grammar.cpp:128-155 | for bounds that are not negative: exactly the numerals of the interval |
| IntegerGrammar.ClosedIntervalExact | native/llama/common/json-schema-to-grammar.cpp:128-155 | for a closed interval: exactly the numerals of its integers, and "-0" for zero where negative numbers are allowed |
| IntegerSentinel.ClosedExactIff | native/llama/common/json-schema-to-grammar.cpp:128-139 | for bounds in order, of which negating one may give a sentinel: the closed interval is exact exactly when its minimum is not the least 64-bit integer plus one |
| IntegerContradiction.AnyOrderIff | native/llama/common/json-schema-to-grammar.cpp:128-155 | for bounds in any order: exact exactly when that is so and the minimum does not exceed the maximum or differs from it in the last digit alone |
| IntegerContradiction.SomethingIff | native/llama/common/json-schema-to-grammar.cpp:128-155 | a minimum above the maximum: something is accepted exactly when more than the last digit differs |
| IntegerContradiction.WrongOrderAccepts | native/llama/common/json-schema-to-grammar.cpp:72-126 | and with as many digits in both: the numerals that go up from the minimum or down from the maximum within the digits behind the first that differs |
| IntegerContradiction.TwentyToThirteen | native/llama/common/json-schema-to-grammar.cpp:945-960 | a minimum of 20 and a maximum of 13 accept 13 |
| IntegerHalfLines.FromLanguageIsNumbers | native/llama/common/json-schema-to-grammar.cpp:159-207 | the language a minimum stands for: the numerals of the integers from it on, up to sixteen digits |
| IntegerHalfLines.MinOnlyExactIff | native/llama/common/json-schema-to-grammar.cpp:159-206 | a positive minimum of any size: exact exactly when it has at most fifteen digits and its inner ones are all at least two, or is 1111111111111110 |
| IntegerHalfLines.MinOnlySmall | native/llama/common/json-schema-to-grammar.cpp:159-207 | for a minimum of at most 99 the values are exactly the integers from it on, up to sixteen digits |
| IntegerHalfLines.MinOnlyNonPositive | native/llama/common/json-schema-to-grammar.cpp:160-171 | for a minimum of zero or less, exactly the integers from it on, up to sixteen digits |
| IntegerHalfLines.MaxOnlyNonNegative | native/llama/common/json-schema-to-grammar.cpp:209-216 | for a maximum of zero or more, exactly the integers up to it, with sixteen digits below |
| IntegerHalfLines.MaxOnlyNegativeExactIff | native/llama/common/json-schema-to-grammar.cpp:217-223 | a negative maximum of any size: exact exactly when it has two to fifteen digits, the first a one and the inner ones at least two, or is -1111111111111110 |
| IntegerHalfLines.ThrowsIff | native/llama/common/json-schema-to-grammar.cpp:44-46 | there is no grammar exactly when there is no maximum and the minimum is none or the least 64-bit integer plus one |
| ExclusionGrammar.SortSorts | native/llama/common/chat-parser-xml-toolcall.cpp:150-150 | the words come in order, as the trie needs them |
| ExclusionGrammar.ChildrenDistinct | native/llama/common/chat-parser-xml-toolcall.cpp:99-115 | after sorting each first character has one child |
| ExclusionGrammar.ExprExact | native/llama/common/chat-parser-xml-toolcall.cpp:98-148 | the trie expression accepts exactly the strings that follow a word and leave all words at their last character |
| ExclusionTheorems.AcceptedIsPieces | native/llama/common/chat-parser-xml-toolcall.cpp:149-161 | the accepted strings are exactly the concatenations of rounds |
| ExclusionTheorems.FreeIsAccepted | native/llama/common/chat-parser-xml-toolcall.cpp:84-161 | for any list: every string without a forbidden word that is not empty and not ending inside one is accepted |
| ExclusionTheorems.NoWordAtRound | native/llama/common/chat-parser-xml-toolcall.cpp:84-161 | for words of which none begins another, no forbidden word starts where a round starts |
| ExclusionTheorems.BeginsRoundsIff | native/llama/common/chat-parser-xml-toolcall.cpp:149-161 | whether a text begins an accepted string can be read off the trie, character by character |
| ExclusionTheorems.ExcludesAllIff | native/llama/common/chat-parser-xml-toolcall.cpp:82-161 | for any list of words: they are all kept out of every accepted string exactly when no word lies in a round, or starts in one and can be walked on through the trie |
| ExclusionTheorems.ExcludesIff | native/llama/common/chat-parser-xml-toolcall.cpp:82-161 | a single word is kept out exactly when all its characters are equal |
| ArgumentChain.BuildChain | native/llama/common/chat-parser-xml-toolcall.cpp:246-257 | the loop from the last argument back, its unsigned index wrapping past zero, builds the chain of rules |
| ArgumentChain.ChainExact | native/llama/common/chat-parser-xml-toolcall.cpp:246-257 | the chain accepts exactly the in-order selections with all required arguments, `val_end` between neighbours and the closing end last, and the empty string when nothing is chosen |
| ArgumentChain.EmptyIff | native/llama/common/chat-parser-xml-toolcall.cpp:246-257 | nothing need be said exactly when no argument is required, or the closing end is empty, all required arguments may be, and no `val_end` must stand between two of them |
| ArgumentChain.RootExact | native/llama/common/chat-parser-xml-toolcall.cpp:277-285 | the root rule accepts exactly the two scope texts around nothing or around calls with `tool_end` between them and the last end behind |
| ObjectGrammar.FollowsExact | native/llama/common/json-schema-to-grammar.cpp:674-695 | a rest rule accepts exactly the selections of the remaining entries, each behind a comma |
| ObjectGrammar.BeginsExact | native/llama/common/json-schema-to-grammar.cpp:697-702 | one alternative accepts exactly the selections that start with its entry |
| ObjectGrammar.RequiredExact | native/llama/common/json-schema-to-grammar.cpp:656-662 | the required members in order with commas between |
| ObjectGrammar.JoinedInjective | native/llama/common/json-schema-to-grammar.cpp:656-708 | a list of members can be read back from its text |
| ObjectGrammar.ObjectExact | native/llama/common/json-schema-to-grammar.cpp:656-708 | the object rule accepts exactly all required members in order followed by a selection of optional ones in order, the additional entry any number of times, without a missing or stray comma |
| ObjectRule.Converter.AddRule | native/llama/common/json-schema-to-grammar.cpp:320-334 | the rule is filed under a name that was free for it, the first one in order, and no rule filed before changes |
| ObjectRule.EscapeRun | native/llama/common/json-schema-to-grammar.cpp:321-321 | in a rule name a whole run of other characters makes one dash |
| ObjectRule.DenotesGrows | native/llama/common/json-schema-to-grammar.cpp:320-334 | a text keeps its meaning while rules are only added |
| ObjectRule.TakenBound | native/llama/common/json-schema-to-grammar.cpp:326-329 | the numbered names are distinct, so the search for a free one ends |
| ObjectRule.Converter.RecursiveRefs | native/llama/common/json-schema-to-grammar.cpp:674-695 | the text with its references denotes the grammar of the remaining entries |
| ObjectRule.Converter.FileProperties | native/llama/common/json-schema-to-grammar.cpp:626-645 | every property's rule is filed, and names are split into required and optional in order |
| ObjectRule.Converter.FirstsText | native/llama/common/json-schema-to-grammar.cpp:697-702 | one alternative for each optional entry |
| ObjectRule.Converter.BuildObjectRule | native/llama/common/json-schema-to-grammar.cpp:620-711 | the text built over the growing table of rules denotes the object grammar of its members, whatever was filed before |
| ObjectPromise.PromiseIff | native/llama/common/json-schema-to-grammar.cpp:620-711 | the rule accepts exactly the objects that carry each name of `required`, each required property once and each optional one at most once, exactly when every required name is a property, none is listed twice and none is called "*" that is optional or has additional properties beside it |
| ObjectPromise.WantedAre | native/llama/common/json-schema-to-grammar.cpp:626-654 | what is asked for: each required property with its own value, in order, then each other one, then members of any other name |
| ObjectPromise.RequiredNotListed | native/llama/common/json-schema-to-grammar.cpp:845-851 | a schema that requires a name which is no property, and the empty object is accepted |
| Repetition.HandleRepetitions | native/llama/src/llama-grammar.cpp:422-473 | the rewriting of braces accepts the item from the minimum on, so many times more as the unsigned difference says |
| Repetition.BracesAccept | native/llama/src/llama-grammar.cpp:422-473 | braces mean between the limits or, if the upper one is below, up to 2^64 more than it |
| Repetition.ExactIff | native/llama/common/json-schema-to-grammar.cpp:17-42 | the repetition accepts exactly the lists within the limits, exactly when the limits do not contradict each other |
| Repetition.SeparatedExact | native/llama/common/json-schema-to-grammar.cpp:37-41 | with a separator: so many items, each after the first behind a separator |
| LogRing.AddAppends | native/llama/common/log.cpp:172-247 | adding appends, also when the buffer is doubled |
| LogRing.AddGrows | native/llama/common/log.cpp:219-244 | doubling a full buffer keeps what is waiting and its order |
| LogRing.TakeFirst | native/llama/common/log.cpp:262-270 | the worker takes the oldest entry and leaves the rest |
| LogRing.MarkEndAppendsIff | native/llama/common/log.cpp:293-299 | the end marker is appended when two slots are free; with one free slot the ring looks empty |
| LogRing.CommonLog.Add | native/llama/common/log.cpp:172-247 | the method adds to the ring while running and changes nothing while paused |
| LogRing.CommonLog.Expand | native/llama/common/log.cpp:219-244 | the copying loop goes once around the ring |
| LogRing.CommonLog.Take | native/llama/common/log.cpp:262-270 | the copied entry is the oldest one |
| LogRing.CommonLog.Resume | native/llama/common/log.cpp:250-259 | a worker is started exactly when none runs |
| LogRing.CommonLog.MarkEnd | native/llama/common/log.cpp:283-302 | the marker goes in and adding stops; nothing happens while paused |
| LogProtocol.StepKeeps | native/llama/common/log.cpp:172-306 | every step of every thread keeps the invariant |
| LogProtocol.NothingLost | native/llama/common/log.cpp:172-306 | in every interleaving: printed, in hand and waiting are what was accepted, in order; while paused everything is printed once and the ring is empty |
| LogProtocol.PauseReturnsDone | native/llama/common/log.cpp:283-306 | when `pause` comes back everything accepted has been printed and the ring is empty |
| LogProtocol.PauseReturnsIff | native/llama/common/log.cpp:283-306 | `pause` can come back exactly when two slots are free as it is called |
| LogProtocol.DrainRun | native/llama/common/log.cpp:260-279 | under any schedule the worker needs just so many steps, is never blocked before, and then the join is possible |
| LogProtocol.StuckForEver | native/llama/common/log.cpp:283-306 | with one free slot no step of any thread lets `pause` come back |
| LogProtocol.ProducersFill | native/llama/common/log.cpp:172-247 | producers alone bring a ring of any capacity to one free slot |
| NgramCache.MakeNgram | native/llama/common/ngram-cache.h:24-28 | the constructor's loop pads the n-gram to the full buffer |
| NgramCache.SameCountsSame | native/llama/common/ngram-cache.cpp:12-52 | a cache is determined by its counts |
| NgramCache.AppendKeepsCounts | native/llama/common/ngram-cache.cpp:12-52 | counting what was appended on top of right counts makes the counts right |
| NgramCache.SizesApart | native/llama/common/ngram-cache.h:24-37 | without the null token a count is the number of places where just this n-gram comes before just this token |
| NgramCache.CountsPlaces | native/llama/common/ngram-cache.cpp:12-52 | a count is the number of places where the token comes right after just those tokens, for sizes within the limits |
| NgramCache.CountBound | native/llama/common/ngram-cache.cpp:12-52 | no count exceeds the number of tokens times the number of sizes |
| NgramCache.MergeCounts | native/llama/common/ngram-cache.cpp:261-286 | merging gives the sums of the counts |
| NgramCache.MergeTidy | native/llama/common/ngram-cache.cpp:261-286 | merging keeps every count positive and every entry in use |
| NgramCache.MergeCommutes | native/llama/common/ngram-cache.cpp:261-286 | merging two caches in either direction gives the same |
| NgramCache.MergeAssociates | native/llama/common/ngram-cache.cpp:261-286 | merging several caches does not depend on the order |
| NgramCache.MergeOfStreams | native/llama/common/ngram-cache.cpp:261-286 | merged caches of two streams count what there is in both |
| NgramStore.Cache.Increment | native/llama/common/ngram-cache.cpp:26-38 | one more occurrence, whether the n-gram or the token was there or not |
| NgramStore.Cache.Update | native/llama/common/ngram-cache.cpp:12-52 | every count grows by exactly its occurrences among the new tokens |
| NgramStore.Cache.UpdateSize | native/llama/common/ngram-cache.cpp:20-50 | the inner loop does so for one size |
| NgramStore.Cache.MergeFrom | native/llama/common/ngram-cache.cpp:261-286 | the cache becomes the merge of both, also with itself |
| NgramStore.MergeMaps | native/llama/common/ngram-cache.cpp:261-286 | the loop over n-grams, in any order |
| NgramStore.MergeInto | native/llama/common/ngram-cache.cpp:272-284 | the loop over tokens, in any order |
| NgramStore.SeriesCounts | native/llama/common/ngram-cache.cpp:12-52 | after any series of appends and updates every count equals the occurrences in the whole sequence |
| NgramStore.IncrementalIsRebuild | native/llama/common/ngram-cache.cpp:12-52 | the cache that followed along equals the one counted from scratch |
| NgramPick.ScanFirst | native/llama/common/ngram-cache.cpp:114-131 | the scan ends with the first of the entries of greatest weighted count |
| NgramPick.TotalSame | native/llama/common/ngram-cache.cpp:114-131 | the sum of counts does not depend on the order the map is walked |
| NgramPick.PickIsTop | native/llama/common/ngram-cache.cpp:98-144 | a pick has the greatest count times static weight and meets both thresholds, whatever the order |
| NgramPick.NoPick | native/llama/common/ngram-cache.cpp:98-144 | nothing is picked only if nothing is positive or a greatest entry fails a threshold |
| NgramPick.OrderFreeIff | native/llama/common/ngram-cache.cpp:98-144 | the pick is the same in every order exactly when no tie for the first place would pass the thresholds |
| NgramPick.OrderDecides | native/llama/common/ngram-cache.cpp:98-144 | counts for which one order picks a token and another picks none |
| NgramDraft.GetToken | native/llama/common/ngram-cache.cpp:55-57 | the token at a position of the text with the draft behind it |
| NgramDraft.TryDraftStatic | native/llama/common/ngram-cache.cpp:66-95 | the loop picks from the static cache |
| NgramDraft.TryDraftPrimary | native/llama/common/ngram-cache.cpp:98-144 | the loop picks from the longest n-gram that yields a token |
| NgramDraft.PickWeighted | native/llama/common/ngram-cache.cpp:109-140 | one pass over the tokens after an n-gram |
| NgramDraft.SuffixNgram | native/llama/common/ngram-cache.cpp:158-174 | the last tokens as an n-gram, all indices in range |
| NgramDraft.Draft | native/llama/common/ngram-cache.cpp:146-198 | the drafting loop is greedy continuation, and does nothing for fewer than two tokens |
| NgramDraft.DraftIsGreedy | native/llama/common/ngram-cache.cpp:146-198 | each drafted token is the next one for the text before it, at most `n_draft` are added, and drafting stops only when nothing is next |
| NgramFollows.NextFollows | native/llama/common/ngram-cache.cpp:180-192 | the next token, without the functions that pick it: the longest n-gram of the context that yields one by the laxer thresholds, or of the earlier generations by the stricter ones while the context is silent, or the corpus while both are; all thresholds as numbers |
| NgramFollows.NothingFollows | native/llama/common/ngram-cache.cpp:180-192 | and nothing is next exactly when none of them yields a token |
| NgramFollows.DraftFollows | native/llama/common/ngram-cache.cpp:146-198 | every token of a draft follows the text with what was drafted before it, and a draft ends early only if nothing follows |
| NgramDraft.DraftPrefix | native/llama/common/ngram-cache.cpp:146-198 | asking for fewer tokens gives a beginning of what asking for more gives |
| NgramDraft.PrimaryIsTop | native/llama/common/ngram-cache.cpp:98-144 | a primary pick is greatest in its n-gram, meets the thresholds at its place in the list, and no longer n-gram would have given one |
| NgramDraft.PlaceIsSizeIff | native/llama/common/ngram-cache.cpp:59-63 | looking thresholds up by place gives the tokens that looking them up by size gives, for all texts and caches, exactly when the smallest size is one |
| NgramDraft.PlaceMatters | native/llama/common/ngram-cache.cpp:98-144 | a text and a cache for which the two differ, for every smallest size above one |
| Base64.ValueOfAlpha | native/llama/common/base64.hpp:344-392 | a character of an alphabet has the value it was chosen for, also with automatic detection |
| Base64.EncodedSize | native/llama/common/base64.hpp:338-341 | the encoded length is exactly `required_encode_size` |
| Base64.Encode | native/llama/common/base64.hpp:79-144 | the loop writes the encoding, of exactly that length |
| Base64.Decode | native/llama/common/base64.hpp:199-244 | the loops decode, with the bytes written before an error |
| Base64.DecodeInPlace | native/llama/common/base64.hpp:294-313 | in place the bytes and the error are those of a fresh buffer, and nothing behind the written bytes changes |
| Base64Text.EncodedCharacters | native/llama/common/base64.hpp:79-144 | each character written is the one at the value of its six bits in the table of RFC 4648, written out, and the last ones are `=` |
| Base64Text.ReadIsTable | native/llama/common/base64.hpp:344-392 | a character that is read has its place in that table as its value, in either alphabet or with detection |
| Base64Text.DecodedBytes | native/llama/common/base64.hpp:199-244 | each byte that is read is the eight bits the characters carry at its place |
| Base64Text.DecodesText | native/llama/common/base64.hpp:199-244 | which texts decode, by their characters: those of one table in front of the first `=`, and only `=` from there on unless padding is loose |
| Base64Text.ErrorKeepsBytes | native/llama/common/base64.hpp:199-244 | where reading fails, the bytes before are kept |
| Base64Laws.BytesBack | native/llama/common/base64.hpp:79-144 | each byte is put together again from its characters' bits |
| Base64Laws.RoundTrip | native/llama/common/base64.hpp:79-244 | decoding undoes encoding for every byte string, in both alphabets and with detection |
| Base64Laws.EncodedInjective | native/llama/common/base64.hpp:79-144 | different bytes have different texts |
| Base64Laws.DecodesIff | native/llama/common/base64.hpp:199-244 | a text decodes exactly when what is before the padding is in one alphabet, the wanted one if any, and only padding follows unless that is loose |
| Base64Laws.DecodedLength | native/llama/common/base64.hpp:199-244 | one byte for every eight bits the characters carry |
| Base64Laws.DecodedFits | native/llama/common/base64.hpp:324-327 | `max_decode_size` is enough |
| Lcs.CommonLcs | native/llama/common/common.cpp:1467-1514 | the two rolling rows give the length of the longest common run, which is the greatest cell of the full recurrence |
| Lcs.CellIsRun | native/llama/common/common.cpp:1489-1504 | a cell holds the length of the longest common run that ends there |
| Lcs.Symmetric | native/llama/common/common.cpp:1467-1514 | the two sequences can change places |
| Lcs.LongestOfIsLongest | native/llama/common/common.h:736-737 | the usual recurrence gives the length of the longest common subsequence |
| Lcs.RunAgainstSubsequence | native/llama/common/common.h:736-737 | what is computed is at most that length |
| Lcs.RunIsShorter | native/llama/common/common.h:736-737 | two sequences for which it is less |
| Lcs.RunFallsBehind | native/llama/common/common.h:736-737 | there is no bound on the difference: for every number, sequences with runs of one token and a common subsequence of that length |
| Tensors.UnflatInShape | native/llama/convert_lora_to_gguf.py:131-155 | row-major order numbers every list of indices once |
| Tensors.SourceInRange | native/llama/convert_lora_to_gguf.py:163-171 | every element of a permuted tensor comes from inside the source |
| Tensors.LastFixed | native/llama/convert_lora_to_gguf.py:163-169 | with the last dimension fixed whole rows move, as their leading indices do |
| Lora.ReshapeMeans | native/llama/convert_lora_to_gguf.py:131-155 | reshaping the pair is reshaping the product, whenever it comes through |
| Lora.ReshapeWorks | native/llama/convert_lora_to_gguf.py:131-155 | and it comes through whenever the product can be reshaped with the row size kept |
| Lora.ExpandFills | native/llama/convert_lora_to_gguf.py:131-144 | a single -1 is worked out so that the number of elements comes out, and the other dimensions stay |
| Lora.NormalSame | native/llama/convert_lora_to_gguf.py:165-165 | counting dimensions from the end does not change which are meant |
| Lora.PermuteMeans | native/llama/convert_lora_to_gguf.py:163-169 | permuting with the last dimension fixed is permuting the product |
| Lora.TransposeMeans | native/llama/convert_lora_to_gguf.py:170-171 | transposing a matrix pair, with A and B trading places, is transposing the product |
| Lora.TransposedIsProduct | native/llama/convert_lora_to_gguf.py:176-180 | whatever `transpose` gives stands for the transposed product |
| Lora.TransposedIff | native/llama/convert_lora_to_gguf.py:163-180 | it gives something exactly for a single A with the last dimension left alone, or for a matrix |
| LoraJoin.RowsMean | native/llama/convert_lora_to_gguf.py:76-77 | rows cut from a pair of matrices are rows of the product |
| LoraJoin.CatMeans | native/llama/convert_lora_to_gguf.py:216-220 | concatenating matrix pairs with equal A is concatenating products |
| LoraJoin.StackMeans | native/llama/convert_lora_to_gguf.py:199-206 | a stacked pair is a valid pair of batches with the shapes of a stack, and its products are the products of the pairs |
| LoraBatches.SliceIff | native/llama/convert_lora_to_gguf.py:73-75 | a slice of a pair of three dimensions stands for the slice of its product exactly when A has a matrix for each one of B, or the slice starts at the first, or is empty |
| LoraBatches.ItemIff | native/llama/convert_lora_to_gguf.py:68-70 | an item of such a pair is to be had exactly when A has a matrix for each one of B or the first or, from the end, the last is asked for; it then stands for the item of the product |
| LoraBatches.StackItem | native/llama/convert_lora_to_gguf.py:199-206 | of stacked pairs of any number of dimensions each is to be had back, and the shape is that of a stack |
| LoraBatches.CatBatches | native/llama/convert_lora_to_gguf.py:211-215 | pairs of three dimensions with a matrix of A for each one of B: concatenating pairs is concatenating products |
| LoraBatches.CatOfOnesLost | native/llama/convert_lora_to_gguf.py:211-215 | several pairs with a single matrix in A and more in B, as `reshape` leaves them, are concatenated to what stands for nothing |
| XmlFind.TryFindTwo | native/llama/common/chat-parser-xml-toolcall.cpp:60-79 | the first place where the one literal stands and, after white space, the other as far as the input goes; otherwise the position stays |
| XmlFind.FirstOfBoth | native/llama/common/chat-parser-xml-toolcall.cpp:60-79 | in complete input it is the first place from there on where both stand, and it is found if there is one |
| XmlFind.TryFindClose | native/llama/common/chat-parser-xml-toolcall.cpp:345-376 | the nearer of the closing literal and its alternative, with the position behind it |
| XmlFind.FindClose | native/llama/common/chat-parser-xml-toolcall.cpp:345-376 | something is found whenever the closing literal itself occurs |
| XmlModel.MissingNeedsAlternative | native/llama/common/chat-parser-xml-toolcall.cpp:409-425 | a missing result is used only if the closing literal has an alternative |
| XmlMissing.CompleteIff | native/llama/common/chat-parser-xml-toolcall.cpp:399-425 | right behind `tool_start`, and behind any text in front of it, a missing result is never used in a complete input exactly when there is no alternative or a condition on the literals fails |
| XmlMissing.AnyInputIff | native/llama/common/chat-parser-xml-toolcall.cpp:399-425 | the same with partial inputs, where the text in front may run into the literals |
| XmlUndefined.FirstCallIff | native/llama/common/chat-parser-xml-toolcall.cpp:388-425 | no parse uses a missing result for its first call, exactly when there is no alternative or the literals do not allow it behind any text that is read in front of `tool_start` |
| XmlUndefined.CompleteParsesIff | native/llama/common/chat-parser-xml-toolcall.cpp:298-633 | no parse of a complete input uses a missing result, exactly when there is no alternative or it cannot happen with the whole separator |
| XmlUndefined.AnyParseIff | native/llama/common/chat-parser-xml-toolcall.cpp:298-633 | no parse at all uses one, exactly when there is no alternative or the literals do not allow it right behind `tool_start`; for forms whose scope opens with white space or whose literals do not hold `tool_start` |
| XmlUndefined.AnyParse | native/llama/common/chat-parser-xml-toolcall.cpp:298-633 | for every form: what each such parse needs, and what is enough for one |
| XmlUndefined.AprielMisses | native/llama/common/chat-parser.cpp:932-949 | an input of Apriel-1.5 whose parse, from its beginning, uses a missing result |
| XmlUndefined.OthersNeverMiss | native/llama/common/chat-parser.cpp:883-1396 | no input of the six other formats does |
| XmlToolCalls.GenPartial | native/llama/common/chat-parser-xml-toolcall.cpp:332-343 | the rest of the input is used up, and what is sent is the call with its arguments cut at the needle, if any |
| XmlToolCalls.ReturnError | native/llama/common/chat-parser-xml-toolcall.cpp:306-312 | the position goes back while that is possible, and otherwise the error is raised |
| XmlToolCalls.CloseJson | native/llama/common/chat-parser-xml-toolcall.cpp:522-551 | what was read as JSON counts up to its closing literal, or is text, or more is waited for, with just the call sent that the model says |
| XmlToolCalls.ParseValue | native/llama/common/chat-parser-xml-toolcall.cpp:479-583 | for every setting: a value is JSON when JSON is read and closed, and else the plain text up to the closing literal; where it stops, exactly what is sent and raised |
| XmlToolCalls.ParseArguments | native/llama/common/chat-parser-xml-toolcall.cpp:447-584 | exactly the pairs described, or exactly the call that is sent and the error that is raised; going back stays possible exactly while no key has been complete |
| XmlToolCalls.CloseCall | native/llama/common/chat-parser-xml-toolcall.cpp:586-610 | a complete call is added exactly once, and otherwise exactly what is sent and how the parse ends |
| XmlToolCalls.FindName | native/llama/common/chat-parser-xml-toolcall.cpp:409-425 | the name, and exactly when a missing result is used |
| XmlToolCalls.ParseCall | native/llama/common/chat-parser-xml-toolcall.cpp:402-611 | a call is read as described, or exactly what is sent and how the parse ends; a missing result is used exactly when the model says so |
| XmlToolCalls.ParseXmlToolCalls | native/llama/common/chat-parser-xml-toolcall.cpp:298-633 | the whole behaviour: on every path exactly which calls are added, what is returned or thrown, and that the position and the calls are as before whenever it returns false; a missing result is used exactly when the model says so |
| XmlToolCalls.TryConsumeXmlToolCalls | native/llama/common/chat-parser-xml-toolcall.cpp:640-648 | a failed attempt is a no-op on every path, recoverable or not; calls that were there stay; a missing result is used exactly as in the parse |
| XmlRoundTrip.ReadsWritten | native/llama/common/chat-parser-xml-toolcall.cpp:298-633 | calls written in any readable form, with any white space between the parts, are read back exactly, also while the input is partial: names in order, and for each different key, in the order of first occurrence, the last value given, text as text and JSON as JSON, whatever stands around them |
| XmlRoundTrip.DifferentKeys | native/llama/common/chat-parser-xml-toolcall.cpp:530-570 | with different keys the arguments are the pairs as they are written |
| XmlRoundTrip.PutAllIs | native/llama/common/chat-parser-xml-toolcall.cpp:530-570 | assigning values one after the other keeps one entry for each key, at its first place and with its last value |
| XmlRoundTrip.NameIs | native/llama/common/chat-parser-xml-toolcall.cpp:431-438 | for Kimi-K2 `functions.`, a name, a colon and digits give the name; any other name stays |
| XmlStray.StrayBeforeScope | native/llama/common/chat-parser-xml-toolcall.cpp:388-398 | text before the scope: no tool call, and the position stays |
| XmlStray.StrayBeforeValue | native/llama/common/chat-parser-xml-toolcall.cpp:480-488 | text between a key and the second separator: an error, whatever came before |
| XmlStray.StrayBeforeEnd | native/llama/common/chat-parser-xml-toolcall.cpp:586-594 | text before the end of a call: back to the start while nothing complete has come, and an error after that |
| XmlStray.NoName | native/llama/common/chat-parser-xml-toolcall.cpp:596-600 | a complete call without a name: nothing is sent for it |
| XmlStray.StrayBeforeScopeEnd | native/llama/common/chat-parser-xml-toolcall.cpp:612-618 | text before the end of the scope: the same |
| XmlStray.StrayBehindCalls | native/llama/common/chat-parser-xml-toolcall.cpp:612-618 | in the whole parse: it goes back with no calls before, and otherwise they have been sent and the error is raised |
| XmlCutCalls.CutInScope | native/llama/common/chat-parser-xml-toolcall.cpp:388-398 | cut off where the scope opens: no tool call yet, and more is waited for once anything of that is there |
| XmlStray.NoScopeEnd | native/llama/common/chat-parser-xml-toolcall.cpp:619-629 | a scope that needs no end ends at once, and one that needs it waits only while nothing but white space follows |
| XmlStreaming.KnownIsLongest | native/llama/common/chat-parser-xml-toolcall.cpp:314-330 | up to where the text of a value is known, the arguments are the longest text that begins all they can go on to |
| XmlStreaming.CutAtNeedle | native/llama/common/chat-parser-xml-toolcall.cpp:314-330 | the arguments are cut at the needle, and before a quotation mark in front of it, if only closing characters follow, and not at all otherwise |
| XmlStreaming.CutValue | native/llama/common/chat-parser-xml-toolcall.cpp:552-583 | a text value that is cut off: what is sent is that longest beginning, but for a quotation mark at its end |
| XmlStreaming.CutBeforeValue | native/llama/common/chat-parser-xml-toolcall.cpp:494-503 | before a value: what is sent begins the arguments whatever the value will be |
| XmlStreaming.CutKey | native/llama/common/chat-parser-xml-toolcall.cpp:466-477 | a key that is cut off: what is sent begins the arguments whatever the key goes on to |
| XmlStreaming.CutBetween | native/llama/common/chat-parser-xml-toolcall.cpp:456-465 | between arguments: without its closing brace the object is the longest beginning of all that can follow |
| XmlStreaming.CutJson | native/llama/common/chat-parser-xml-toolcall.cpp:524-541 | JSON up to the end of the input is sent as if complete, and begins every object with more arguments |
| XmlStreaming.CutAtMarker | native/llama/common/chat-parser-xml-toolcall.cpp:524-536 | healed JSON is sent up to its last marker, which must be there |
| XmlCut.CutInValue | native/llama/common/chat-parser-xml-toolcall.cpp:505-583 | a value cut off anywhere, in it or in what closes it: the parser stops with a beginning of the text, or with nothing of it |
| XmlCutCalls.CutInPairs | native/llama/common/chat-parser-xml-toolcall.cpp:447-610 | arguments cut off anywhere: one call goes out, with the name and a beginning of the arguments of the whole |
| XmlCutCalls.CutInCall | native/llama/common/chat-parser-xml-toolcall.cpp:402-610 | a call cut off anywhere: nothing is sent up to the end of its name, and from there on it is sent so |
| XmlCutCalls.CutAnywhere | native/llama/common/chat-parser-xml-toolcall.cpp:298-633 | written calls cut off anywhere: exactly as many calls as show their names are sent, all complete but the last, and that one with its name and a beginning of its arguments |
| XmlCutCalls.NeverThrows | native/llama/common/chat.cpp:89-136 | so between any two cuts, the later one second, the difference that the server computes never throws |
| XmlCutCalls.RepeatedKeyThrows | native/llama/common/chat.cpp:89-136 | a key that is given twice, for which it does |
| XmlCutCalls.StreamableForms | native/llama/common/chat-parser.cpp:883-1396 | the forms of MiniMax-M2, Qwen3-Coder, Seed-OSS and GLM-4.5 are ones to which this applies |
| XmlCutCalls.PlainIsReady | native/llama/common/chat-parser.cpp:883-911 | and so are plain calls with different keys |
| XmlForms.AllReadable | native/llama/common/chat-parser.cpp:883-1396 | the forms of all formats are readable ones |
| XmlForms.ShippedPads | native/llama/common/chat.cpp:1782-2158 | the form a grammar is built from and the one the parser reads with differ by white space only |
| XmlForms.GrammarTextIsWritten | native/llama/common/chat-parser-xml-toolcall.cpp:229-291 | the text that the rules of the grammar form render is one the parser's form writes |
| XmlForms.GrammarTextIsRead | native/llama/common/chat-parser-xml-toolcall.cpp:229-633 | what the grammar of a format lets a model write, with clean names and values, its parser reads back, also while the input is partial |
| XmlForms.PlainIsClean | native/llama/common/chat-parser.cpp:883-911 | for MiniMax-M2, Qwen3-Coder and Seed-OSS, calls are clean when their names, keys and texts lack the first characters of the literals that close them |

## Left out

- LineEditor.Editor.InsertCharacter: the measured width of a character is any number that is not negative; terminal output, colours and the cursor on the screen are not modelled.
- KeyReader.ReadLine: characters are code points already; decoding of wide input and the Windows key events are not modelled, nor is the simple mode that reads whole lines.
- KeyReader.DecimalFive: the source adds the digits up in a 32-bit integer, which overflows for numerals such as 4294967301; the model's numbers have no width.
- KeyReader.HasCtrlModifier: for the same reason a long numeral in a segment is not read as the source reads it.
- ChatParser.Parser.ParseContentOnly: the formats that rest on regular expressions or on healed JSON are not modelled.
- ChatDiff.SetToolCallIds: a generated id is any text.
- ChatServer.TaskState.UpdateChatMsg: the parser is any function of the text; a role, content parts and tool names of a message are not modelled.
- ExclusionGrammar.ExprExact: grammars are trees, so the escaping of characters in literals and classes is not modelled, here and in the other grammars.
- ArgumentChain.BuildChain: a rule reference stands for its rule; filing rules under names is modelled in `ObjectRule` only.
- ObjectRule.Converter.BuildObjectRule: value schemas are compiled already and come as rule names; keys are opaque, so `_not_strings` and JSON escaping are not modelled.
- ObjectPromise.PromiseIff: the names of additional members are any that no property has; how `_not_strings` writes that down is the matter of `ExclusionTheorems`.
- IntegerContradiction.AnyOrderIff: a minimum below zero with the least 64-bit integer as the maximum is excluded, for negating it overflows; so are bounds that overflow when an exclusive one is moved by one.
- Repetition.ExactIff: limits are not negative. The grammar parser refuses more than 2000 repetitions with an error, which is not part of the language.
- LogProtocol.PauseReturnsIff: one controller calls `resume` and `pause`; two of them at once would start a thread over one that has not been joined.
- LogProtocol.NothingLost: printing is one step; files, colours and formatting are not modelled.
- NgramStore.Cache.Update: counts have no width; `NgramCache.CountBound` bounds them. Progress output and cache files are not modelled.
- NgramDraft.Draft: an input shorter than the largest n-gram reads before its start in the source and is excluded; the products of counts have no width.
- Base64.Encode: input comes as bytes; iterators and the conversion of wider elements are not modelled, and the two alphabets are given by ranges of characters instead of tables.
- Lora.ReshapeMeans: a rank of zero is excluded, for then any shape fits the empty factors. Data types are not modelled, and a pair whose A has leading dimensions other than one has a product only in `LoraBatches`.
- Lora.Permute: the list of dimensions comes with the permutation it names.
- LoraJoin.RowsMean: this is the slice of a matrix; pairs of more dimensions are in `LoraBatches`. Indexing by tuples, steps and bounds of a slice that count from the end are not modelled.
- LoraJoin.CatMeans: this is the concatenation of matrices; `LoraBatches.CatBatches` has the other branch.
- LoraJoin.StackMeans: the products are stated for stacks of matrices; that each pair is to be had back is `LoraBatches.StackItem`, for any dimensions.
- LoraBatches.SliceIff: pairs of three dimensions; with more of them the product is not modelled.
- XmlUndefined.AnyParseIff: a form whose scope does not open with white space and whose literals hold `tool_start` is left to `XmlUndefined.AnyParse`, for a later call of such a form may stand behind any of the literals. Each of these results takes a character that is not white space and that none of the literals holds.
- XmlToolCalls.ParseXmlToolCalls: JSON is read and written by an oracle, and the truncation of a partial text at a whole character is proved in `Utf8Truncate` on bytes. Every path is stated exactly.
- XmlRoundTrip.ReadsWritten: keys and texts must not hold the literal that closes them; the grammar for string values does not ensure that (`ExclusionTheorems.ExcludesAllIff`).
- XmlStreaming.CutValue: objects are written without spaces, with letters and underscores as they are, and always can be; how other characters and values are written is left open.
- XmlCutCalls.CutAnywhere: the conditions are enough and not all needed: keys differ, no name or key seems to hold what closes it, truncating only shortens, and JSON that is cut off is taken for JSON. Forms with alternative ends are not covered, and for a cut within JSON it is stated that nothing of the value is sent, as the form asks.
- XmlForms.ShippedPads: Seed-OSS has no grammar of this kind.
- Downloads, HTTP, command-line options, templates, speculative decoding outside the caches, regular expressions to grammars and remote references are left out: they are plumbing, long tables or rest on libraries that are not part of this model.
