# ReFIX, modelled and proved

ReFIX reads FIX messages: tag=value fields, each ended by SOH, framed by BeginString, BodyLength and
CheckSum. This project is a Dafny model of the parts of it that decide what was read, with proofs of
what they promise.

- **Framing and stream** (`Framing`, `FramingLaws`, `FrameFormat`, `ScanVerdicts`, `Stream`). The
  scanner finds one frame at the front of a buffer, waits, or says how much to skip. It accepts exactly
  the wire format, and waits or garbles, for each reason, exactly when the bytes are so.
  How bytes are cut into feeds never changes what a stream yields. The proof rests on every verdict
  surviving more bytes, and on resynchronising being confluent: a skip over few bytes, and then more
  skips, lands where one skip over all of them lands.
- **Tokenizer** (`Tokenizer`, `TokenizerLaws`, `Messages`, `Tags`). The field index is the one tiling
  of the frame by runs. Encoding fields and tokenising gives them back, data values with separators in
  them included.
- **Repeating groups** (`Groups`, `GroupLaws`, `GroupRoundTrip`). The single-pass walker is a method
  proved against recursive functions that say where a walk ends and which slots are a table's own.
  What every walk guarantees, that flattened groups walk back to their instances, and that generated
  code re-reading a nested group with fewer known tags agrees with the outer walk, are lemmas about
  those functions.
- **Dictionary resolver and generated tables** (`Dictionary`, `SpecChecks`, `Resolution`, `Resolver`,
  `ResolutionLaws`, `Resolvability`, `Placements`, `ResolvedGroups`, `ResolveErrors`, `Tables`,
  `Dialects`). The memoised, cycle-detecting resolver is a class whose result is that of direct
  inlining. A spec resolves exactly when its definitions are consistent, its components acyclic and its
  lists sound, and every error is true of the spec it refuses. What resolves gives tables that meet
  every rule the walker's theorems need and the length tags its data fields need.
- **Log reader** (`LogStart`, `LogStartLaws`, `LogEnd`, `LogEndLaws`, `LogBodyLength`,
  `LogWalkEnds`, `CaretA`, `LogForms`, `LogReader`, `LogDiagnosis`, `LogWaits`, `LogRuns`,
  `LogWalkLaws`, `LogReaderLaws`, `FeedingExample`, `LogText`, `StrictDiagnosis`). An incremental
  reader over noisy text: start search, end by BodyLength, end by walking fields, size caps, line
  breaks and `^A` for SOH. Where a message starts and ends, what is diagnosed about it and what is
  waited for are said of the bytes and fields alone. Over every run its records account for every
  byte; when the way a log is fed changes what is read is known exactly; and a log written as strict
  frames on lines, with SOH, another byte or `^A`, and other text before them, reads back as written.
- **Values** (`Decimals`, `Dates`, `UtcTimestamps`, `TimestampText`). Decimal equality and text, the
  civil calendar, the split of nanoseconds into date and time of day, and timestamp text.

`Wrappers`, `Bytes`, `Sequences` and `Division` hold what several of these need.

A buffer the program appends to and splits is a `seq` field of a class; the groups' walker, the
resolver, the tokenizer loop, the log's field walk and the decimal loops are methods with loops, each
proved against a function. `usize` is taken as 64 bits wide, and bytes and tags are ranges of `int`,
so every wrap, saturation and checked operation is written out.

Where the program and its documentation differ, or a promise needs a condition:

- The walker's documentation says an instance starts at the delimiter or where a tag repeats
  (`crates/refix-message/src/group.rs:358-362`). In the code a delimiter met for the first time in an
  open instance does not start another; only a repeated tag does. The model follows the code, and
  `GroupLaws.WalkSeparatesInstances` states it.
- A spec without messages resolves even if its header and trailer share a tag
  (`Tables.HeaderAndTrailerCanShareATag`), because only resolving a message compares them. So the
  generated tables are proved valid for dictionaries with a message, and `Tables.EnvelopeNeedsAMessage`
  says exactly when the envelope is valid without one.
- The field walk of the log reader can depend on how a log is fed
  (`FeedingExample.RecordsDependOnFeeding`). After a length field, a run of exactly the declared
  length and without an `=` may hold anything, line breaks too
  (`crates/refix-message/src/log/end.rs:126-131`). While the separator after it has not arrived, it is
  no field yet, and a line break in it ends the message. A declared extent that has not arrived hides a
  line break as well. `LogWalkLaws.EndsEarlyExactlyAtHiddenBreak` and
  `LogReaderLaws.FeedingMattersExactly` say that nothing else does, for each message and cut and for
  each log.
- A frame the strict scanner accepts can be diagnosed by the log reader, when its last value was read
  by a declared length that reaches over CheckSum (`StrictDiagnosis.StrictFrameCanMismatch`).
  `StrictDiagnosis.StrictFramesAreClean` says exactly when.
- Only a field, not a group's count field, is required to have a length tag when it is a data field
  (`crates/refix-dictionary/src/dictionary/resolver.rs:169,193`), so `Dialects.ResolvedLengthsAreKnown`
  speaks of fields.

## Model

| member | source | states |
|---|---|---|
| Bytes.CheckedFoldIsValue | crates/refix-message/src/tokenizer.rs:129-136 | checked decimal folding yields the number written exactly when it fits the type, and nothing otherwise |
| Bytes.ParseU32Is | crates/refix-message/src/tokenizer.rs:126-136 | a tag or length is read from exactly the non-empty digits that write a 32-bit number |
| Bytes.WrappingSumIsSumMod256 | crates/refix-message/src/framing.rs:271-296 | the wrapping byte sum is the CheckSum of FIX 4.2, Appendix B: the sum of the bytes modulo 256 |
| Framing.FindNextBeginString | crates/refix-message/src/framing.rs:126-146 | the resync position is the least later one from which a message could still begin, and always advances |
| Framing.TenDigitsFit | crates/refix-message/src/framing.rs:200-236 | ten digits never overflow a 64-bit length, so parsing the length loses nothing |
| FramingLaws.ScanStable | crates/refix-message/src/framing.rs:90-118 | more bytes never change a frame or a garble's reason; only a structural garble's skip can grow, to the resync of the longer buffer |
| FramingLaws.ScanAdvances | crates/refix-message/src/framing.rs:83-118 | a frame is a non-empty prefix within the cap, and a garble skips at least one byte and never past the buffer |
| FramingLaws.ResyncConfluent | crates/refix-message/src/framing.rs:126-158 | the skip over a longer buffer is the shorter buffer's skip followed, if it goes further, by one more skip for a missing BeginString |
| FramingLaws.ProperPrefixIncomplete | crates/refix-message/src/framing.rs:90-118 | every proper prefix of an accepted frame waits for more bytes |
| FrameFormat.AcceptedFrameIsWellFormed | crates/refix-message/src/framing.rs:169-310 | an accepted frame is a prefix with BeginString, BodyLength, body and CheckSum fields in place, the length and checksum right, and its parts are read off those fields |
| FrameFormat.WellFormedFrameIsAccepted | crates/refix-message/src/framing.rs:90-118 | every whole message within the cap is accepted with its parts, whatever follows it |
| FrameFormat.ScanAcceptsExactlyWellFormedFrames | crates/refix-message/src/framing.rs:90-118 | a frame is found if and only if some prefix within the cap is a whole message |
| FrameFormat.FrameRescans | fuzz/fuzz_targets/scan_invariants.rs:9-21 | scanning an accepted frame's own bytes yields it again |
| FrameFormat.EncodedFrameScansBack | crates/refix-message/src/test_utils.rs:8-21 | a frame encoded around any BeginString and body scans back to both, whatever follows |
| FrameFormat.VersionsAreNamed | crates/refix-message/src/framing.rs:177-186 | a BeginString value is recognised as exactly the version it spells, and kept whole when it spells none |
| ScanVerdicts.VerdictsExactly | crates/refix-message/src/framing.rs:83-310 | the scanner waits, and garbles for each reason, if and only if the bytes are so: which field is in place, wrong, unended or still to come decides; and each garble skips to the resync position or over the whole frame, as its reason says |
| ScanVerdicts.WaitsAreShort | crates/refix-message/src/framing.rs:90-118 | so it never waits with 30 bytes and the largest frame in the buffer |
| Stream.MessageStream.constructor | crates/refix-message/src/stream.rs:15-22 | a new stream's buffer is empty |
| Stream.MessageStream.Feed | crates/refix-message/src/stream.rs:24-26 | the buffer is the old one with the bytes after it |
| Stream.MessageStream.NextMessage | crates/refix-message/src/stream.rs:29-43 | gives what scanning the buffer's front yields and leaves the rest; waiting leaves the buffer as it was |
| Stream.OutcomesExactly | crates/refix-message/src/stream.rs:29-43 | the stream waits, yields garbled bytes for a reason, or yields a message with its index, if and only if the front of its buffer is incomplete, garbled for that reason, or a whole frame |
| Stream.DrainedBufferIsShort | crates/refix-message/src/stream.rs:29-43 | a stream with nothing more to read holds less than one frame of the largest size |
| Stream.DrainBeforeFeeding | crates/refix-message/src/stream.rs:24-43 | reading all there is before a feed changes nothing of what is read after it |
| Stream.ChunkingIsInvisible | fuzz/fuzz_targets/chunking_equivalence.rs:33-46 | for every stream and every cutting of it, from any state, the messages, the joined garbled bytes between them and the buffer left are those of feeding it whole |
| Stream.ChunksReadAsWhole | fuzz/fuzz_targets/chunking_equivalence.rs:33-46 | the same for a fresh stream, with nothing more to read |
| Stream.DrainConservesBytes | crates/refix-message/src/stream.rs:29-43 | frames, garbled bytes and the buffer, in order, are exactly the bytes fed |
| Stream.Drive | fuzz/fuzz_targets/chunking_equivalence.rs:8-31 | a loop that feeds chunks and drains after each returns what reading the whole stream returns |
| Tags.SortDedup | crates/refix-message/src/tokenizer.rs:20-35 | sorting and removing repeats gives a strictly increasing list of the same tags |
| Tags.SortOfDistinctIsSortedSet | crates/refix-codegen/src/groups.rs:47-57 | sorting tags of which none repeats gives a strictly increasing list |
| Tokenizer.NewLengthTags | crates/refix-message/src/tokenizer.rs:20-35 | the length tags are the standard ones and the dialect's, never the malformed tag a dialect gives, in strictly increasing order |
| Tokenizer.TokenizeFields | crates/refix-message/src/tokenizer.rs:46-60 | the loop gives the recursive index of all fields |
| Tokenizer.CheckedFrameFits | crates/refix-message/src/tokenizer.rs:179-199 | what passes the frame check is one whole frame small enough for 32-bit offsets |
| Tokenizer.Tokenize | crates/refix-message/src/tokenizer.rs:38-44 | bytes that are exactly one frame give their index, and any others the error that says why not |
| TokenizerLaws.FrameErrorsExactly | crates/refix-message/src/tokenizer.rs:179-199 | which bytes pass the frame check and which get each error: a shorter whole frame in front is trailing bytes, what the scanner waits on is incomplete, a frame past 32 bits is too large, and every other garble keeps its reason |
| TokenizerLaws.IndexIsTheTiling | crates/refix-message/src/tokenizer.rs:46-124 | an index tiles a message, each run starting one past the last value's end and the last ending it, if and only if it is the tokenizer's |
| TokenizerLaws.AcceptedFrameIsTiled | fuzz/fuzz_targets/tokenize_tiling.rs:7-41 | every accepted frame is covered by its index run by run, each value ends on SOH and the last SOH ends the frame |
| TokenizerLaws.WithoutLengthTagsFieldsAreSplits | crates/refix-message/src/tokenizer.rs:89-124 | with no length tag present, the index is the message split at the separator and each run at its first `=` |
| TokenizerLaws.EncodedEntriesReadBack | crates/refix-message/src/tokenizer.rs:46-177 | encoding fields and tokenising gives the fields back, values holding the separator included when the length field before them is right |
| TokenizerLaws.FramedEntriesReadBack | crates/refix-message/src/tokenizer.rs:38-60 | a frame encoded around any fields, MsgType first, passes the frame check and tokenises to BeginString, BodyLength, those fields and CheckSum |
| TokenizerLaws.EqualsCannotStandForSoh | crates/refix-message/src/tokenizer.rs:62-87 | with `=` for SOH the index differs for every message of one field without an `=`, so that `=` has to be excluded |
| TokenizerLaws.DigitsCannotStandForSoh | crates/refix-message/src/tokenizer.rs:62-136 | nor can a digit: in a message whose value read by its length holds an SOH and is itself a length, the renamed value is one too |
| TokenizerLaws.RenamingKeepsIndex | crates/refix-message/src/tokenizer.rs:46-60 | writing every SOH as a byte that is no digit, no `=` and not in the message leaves the index unchanged |
| Messages.Find | crates/refix-message/src/message.rs:233-239 | the first slot of the scope with the tag, or none if no slot of it has the tag |
| Groups.CheckSortedSet | crates/refix-message/src/group.rs:464-474 | true exactly for strictly increasing tags |
| Groups.CheckContains | crates/refix-message/src/group.rs:476-486 | true exactly when the tag is among the tags |
| Groups.NewGroupTable | crates/refix-message/src/group.rs:34-62 | a table is built exactly when its members are sorted and hold the delimiter and every nested count, and otherwise the first broken rule is reported |
| Groups.CountIs | crates/refix-message/src/group.rs:459-461 | a count is read from exactly the texts that write it: digits, after a plus sign or none, of a number that fits the machine word |
| Groups.DecimalIsCount | crates/refix-message/src/group.rs:459-461 | the decimal text of every such number is its count |
| Groups.FirstCounted | crates/refix-message/src/group.rs:143-145 | a count tag finds the first nested table it counts |
| Groups.WalkFrom | crates/refix-message/src/group.rs:394-456 | the one-pass recursive walk finds the instances, anomalies and end slot of its specification, moves forward and stays in the scope |
| GroupLaws.WalkStops | crates/refix-message/src/group.rs:394-456 | a walk stops only at the scope's end, at CheckSum or at a known tag its table has not |
| GroupLaws.WalkedTags | crates/refix-message/src/group.rs:394-456 | a walk passes over no CheckSum, and only over tags of its table at any depth and unknown ones |
| GroupLaws.WalkSeparatesInstances | crates/refix-message/src/group.rs:394-456 | for every message, table and known tags: instances are contiguous from the first own slot to the walk's end, hold no own tag twice, and each after the first starts at a tag the one before holds |
| GroupLaws.WalkReports | crates/refix-message/src/group.rs:394-456 | the count declared is the number the count field writes, if any; the anomalies are, in order, an invalid count, one missing delimiter for each instance not starting with it, and a count that differs from the instances found |
| GroupLaws.GroupAcceptedExactlyWhenWellFormed | crates/refix-message/src/group.rs:373-389 | a group reads as its instances exactly when its count field writes their number and each starts with the delimiter; it is absent exactly when its count field is, and any other is an error on the count tag |
| GroupLaws.NarrowWalkAgrees | crates/refix-message/src/group.rs:394-456 | a walk of part of a scope, knowing fewer tags, takes the same steps when it knows its table's tags and what stopped the wider walk inside the part |
| GroupLaws.NestedReadAgrees | crates/refix-message/src/group.rs:363-456 | re-reading a nested group from an instance's scope with only the outer group's tags known finds the instances, anomalies and end the outer walk stepped over, and finds none exactly when the outer walk met none |
| GroupRoundTrip.FlattenedGroupReadsBack | crates/refix-message/src/group.rs:373-389 | any well-formed tree of instances, nested groups and unknown fields, each count field writing the number of its instances, flattened and followed by the scope's end, CheckSum or a known foreign tag, reads back as exactly its instances |
| GroupRoundTrip.FlattenedGroupWalks | crates/refix-message/src/group.rs:394-456 | and its walk has no anomaly and ends where the flattened group ends |
| SpecChecks.CanonicalCodesAgree | crates/refix-dictionary/src/spec.rs:266-275 | two codes share a canonical form if and only if they are equal or, on an int-based field, write the same number |
| SpecChecks.ParseI64Is | crates/refix-dictionary/src/spec.rs:266-275 | a code is a number exactly when it is digits, after a sign or none, that write one in 64 bits |
| SpecChecks.IsIntegerExactly | crates/refix-dictionary/src/dictionary/resolver.rs:344-347 | a value is a FIX integer exactly when it writes such a number without a plus sign |
| SpecChecks.CheckIntValues | crates/refix-dictionary/src/dictionary/resolver.rs:256-268 | reports the first value of an int-based field that is no FIX integer, and nothing if all are |
| SpecChecks.CheckUniqueCodes | crates/refix-dictionary/src/dictionary/resolver.rs:270-286 | reports the first two values a field lists under one canonical code |
| SpecChecks.CheckUniqueMsgTypes | crates/refix-dictionary/src/dictionary/resolver.rs:288-301 | reports the first message whose MsgType an earlier one has, with that one |
| SpecChecks.IndexFields | crates/refix-dictionary/src/dictionary/resolver.rs:246-254 | maps each tag to its one field, or reports the first tag that repeats |
| SpecChecks.CheckLengthTags | crates/refix-dictionary/src/dictionary/resolver.rs:303-342 | reports the first length tag on a field that is no data field, undefined, of a field not typed LENGTH, or given by an earlier field |
| SpecChecks.IndexComponents | crates/refix-dictionary/src/dictionary/resolver.rs:349-362 | maps each name to its one component, or reports the first name that repeats |
| SpecChecks.CheckSpec | crates/refix-dictionary/src/dictionary/resolver.rs:42-56 | the first problem in the order of the checks, or both indexes |
| SpecChecks.ChecksPassExactly | crates/refix-dictionary/src/dictionary/resolver.rs:42-56 | the checks pass if and only if int-based values are integers, no field lists a value twice however written, MsgTypes, tags and component names are distinct, and each length tag is a LENGTH field's, given by one data field |
| SpecChecks.FirstBrokenRule | crates/refix-dictionary/src/dictionary/resolver.rs:42-56 | the error reported is of the first rule broken, in the order integers, codes, MsgTypes, tags, length tags, component names |
| Resolver.InsertTags | crates/refix-dictionary/src/dictionary/resolver.rs:391-417 | the map filled in place records every tag at any depth, or the first one already seen is reported with both places |
| Resolver.Resolver.ExpandComponent | crates/refix-dictionary/src/dictionary/resolver.rs:66-92 | a component is expanded once to what direct inlining gives, kept from then on, and refused while it is being expanded |
| Resolver.Resolver.ResolveMembers | crates/refix-dictionary/src/dictionary/resolver.rs:121-161 | resolving a list with kept expansions gives what inlining it directly gives, in every state of the resolver |
| Resolver.Resolver.ResolveMember | crates/refix-dictionary/src/dictionary/resolver.rs:163-216 | the same for one member: a field, a component spliced in with its requiredness, or a group |
| Resolver.ContextFreeOnceFinished | crates/refix-dictionary/src/dictionary/resolver.rs:66-92 | what is being expanded makes no difference to members that refer only to finished components, which is why expansions can be kept |
| Resolver.ResolveMessage | crates/refix-dictionary/src/dictionary/resolver.rs:96-113 | a message resolves to its members, once header, members and trailer share no tag |
| Resolver.ExpandComponents | crates/refix-dictionary/src/dictionary/resolver.rs:59-64 | expands every component or gives the first error of expanding one on its own |
| Resolver.Resolve | crates/refix-dictionary/src/dictionary/resolver.rs:9-29 | resolution, checks first and then memoised expansion, ends on every spec, cyclic ones included, with the dictionary or the error that the checks and direct inlining give |
| Resolvability.ResolvesExactly | crates/refix-dictionary/src/dictionary/resolver.rs:9-216 | a spec resolves if and only if its definitions pass the checks, no chain of components closes, and every list it declares is sound: every tag and component named is defined, data fields have length tags, every group brings a tag, and no list, and no message with header and trailer, brings a tag twice |
| ResolveErrors.ErrorsHold | crates/refix-dictionary/src/dictionary/error.rs:6-69 | whatever error refuses a spec is true of it: the list at the reported place names the undefined tag or component, brings nothing, or has the data field without a length; the repeated tag is the first to repeat, and stands at the two places reported; the component is on a cycle; and the definitions hold the reported fault |
| Placements.RecordingLocates | crates/refix-dictionary/src/dictionary/resolver.rs:391-417 | recording a list's tags tells where each stands, or which is the first to repeat, where it stood and where it stands again |
| ResolvedGroups.ResolvedGroupsAreDeclared | crates/refix-dictionary/src/dictionary/resolver.rs:66-92 | every group of a resolved dictionary, at any depth, reads a group declared in the list the group says it is declared in, with that count field, the declared members' tags in order and the first of them as delimiter, and has a component's name exactly when that component declares nothing else |
| ResolvedGroups.TableReadsDeclaration | crates/refix-codegen/src/groups.rs:18-65 | the table generated for such a group is counted by the declared tag, has the first tag of its members as delimiter and holds exactly their tags |
| ResolutionLaws.ResolvedComponentsAreAcyclic | crates/refix-dictionary/src/dictionary/resolver.rs:59-92 | a spec that resolves has no cycle of components, through groups or not |
| ResolutionLaws.CircularComponentIsOnACycle | crates/refix-dictionary/src/dictionary/resolver.rs:66-92 | a component reported as circular refers to itself through some chain of components |
| ResolutionLaws.FlagsAlongPaths | crates/refix-dictionary/src/dictionary/resolver.rs:369-379 | a member's required flag is the conjunction of the flags along its path through components |
| ResolutionLaws.ListFlags | crates/refix-dictionary/src/dictionary/resolver.rs:121-161 | the flags of a resolved list, at every depth, are those conjunctions, and the first member of each group's instance is required whatever it declares |
| ResolutionLaws.ResolvedFlags | crates/refix-dictionary/src/dictionary/resolver.rs:9-29 | so are all the flags, at every depth, of a resolved dictionary's header, messages and trailer |
| ResolutionLaws.InsertingChecksDistinctness | crates/refix-dictionary/src/dictionary/resolver.rs:391-417 | recording tags succeeds exactly when none repeats at any depth and none was seen before |
| ResolutionLaws.ListTagsAreDistinct | crates/refix-dictionary/src/dictionary/resolver.rs:381-389 | a resolved list uses no tag twice at any depth |
| ResolutionLaws.MessageTagsAreDistinct | crates/refix-dictionary/src/dictionary/resolver.rs:96-113 | a message resolves exactly when its members do and header, message and trailer together use no tag twice |
| Tables.CollectTags | crates/refix-codegen/src/groups.rs:75-85 | adds every tag at any depth, count tags included, in order |
| Tables.KnownTags | crates/refix-codegen/src/groups.rs:60-65 | lists every tag at any depth, sorted |
| Tables.MessageKnownTags | crates/refix-codegen/src/groups.rs:68-73 | lists the envelope's and the message's tags, sorted |
| Tables.TableIsSound | crates/refix-codegen/src/groups.rs:47-65 | a group's table meets every rule at every depth, shares no tag between levels, and can hold exactly the tags listed for the group |
| Tables.GroupsWithinAreSound | crates/refix-codegen/src/groups.rs:18-42 | so does the table of every group at any depth of a list without repeated tags |
| Tables.ResolvedDictionariesGiveSoundTables | crates/refix-codegen/src/groups.rs:47-85 | a resolved dictionary with a message gives known tags that are sorted sets and, for every group at any depth of header, message and trailer, a table the walker's theorems apply to with those known tags |
| Tables.EnvelopeNeedsAMessage | crates/refix-dictionary/src/dictionary/resolver.rs:96-113 | without a message the envelope's tags are a sorted set exactly when header and trailer share none, since only resolving a message compares them |
| Tables.HeaderAndTrailerCanShareATag | crates/refix-dictionary/src/dictionary/resolver.rs:9-29 | a spec without messages that resolves although its header and trailer share a tag, so that its envelope is no sorted set |
| Dialects.ResolvedLengthsAreKnown | crates/refix-codegen/src/dialect.rs:3-12 | a resolved dictionary's length tags are a sorted set although nothing removes repeats, and every data field of its header, messages and trailer, at any depth, gives one of them, a LENGTH field's that no other field gives |
| LogStart.CheckStable | crates/refix-message/src/log/start.rs:62-113 | a start accepted or refused stays so with more bytes |
| LogStart.SearchResumes | crates/refix-message/src/log/start.rs:36-52 | with more bytes, searching from the old offset finds what searching from where the search had got to finds |
| LogStart.FoundStays | crates/refix-message/src/log/start.rs:36-52 | a start found stays the first start |
| LogStart.SearchShifts | crates/refix-message/src/log/start.rs:36-52 | dropping bytes before where the search resumes only shifts what it finds |
| LogStartLaws.StartsExactly | crates/refix-message/src/log/start.rs:62-113 | the start check takes exactly the bytes that open with `8=FIX` and value bytes up to the longest BeginString, the separator given or one it can detect, `^A` included, and one to ten digits before an equals sign |
| LogStartLaws.WaitsExactly | crates/refix-message/src/log/start.rs:62-113 | it waits exactly on bytes that are no start and that some further bytes turn into one, if a separator that is given is no value byte |
| LogStartLaws.FindsExactly | crates/refix-message/src/log/start.rs:36-52 | the search gives the first place in the range, not after a digit, where a message starts or, before the end of the input, may start; before it none does |
| LogEnd.WalkFields | crates/refix-message/src/log/end.rs:105-179 | the loop over fields ends where its recursive specification ends |
| LogEnd.FindMessageEnd | crates/refix-message/src/log/end.rs:19-30 | the end is BodyLength's if it points at a CheckSum field, and the field walk's otherwise |
| LogEnd.EndsAreRight | crates/refix-message/src/log/end.rs:19-217 | every end is of at least one byte and within the bytes, takes nothing, `\n` or `\r\n` after it, and at the end of the input there always is one |
| LogReader.LastCrIsLeft | crates/refix-message/src/log/end.rs:181-192 | a `\r` that ends the input is no part of a message, being a line break cut short |
| LogBodyLength.ClaimsExactly | crates/refix-message/src/log/end.rs:40-82 | BodyLength points at a place for CheckSum exactly when the second field is `9=` and at most ten digits of a 32-bit number, ended by the separator |
| LogBodyLength.EndsExactly | crates/refix-message/src/log/end.rs:40-102 | BodyLength gives an end if and only if a CheckSum field stands where it points; the end is that field's, at its separator, line break or the last byte, and is never called truncated |
| LogBodyLength.WaitsExactly | crates/refix-message/src/log/end.rs:40-102 | and it leaves the end open if and only if its digits reach the last byte, or the CheckSum field it points at, or the line break after that, may still have to come |
| LogWalkEnds.WalkEndsExactly | crates/refix-message/src/log/end.rs:105-217 | the walk ends a message at the first line feed or message start outside data read by length that comes before the end of the first CheckSum field, complete only if it is a line feed in that field; without one, after CheckSum, or cut short at the cap or the end of input; and it waits exactly where a data value, a start, a line break or the rest of a field may still have to come |
| LogEndLaws.ByBodyLengthStable | crates/refix-message/src/log/end.rs:40-102 | what BodyLength says of an accepted start, unless it waits, does not change with more bytes |
| LogEndLaws.StrictFramesEndTheSame | crates/refix-message/src/log/end.rs:40-102 | a frame the strict scanner accepts up to the cap, whatever follows, ends in the log at its last byte, or waits only for its line break |
| LogEndLaws.WalkAgreesWithTokenizer | crates/refix-message/src/log/end.rs:105-179 | when the walk ends a message untruncated, tokenising exactly its bytes gives the fields walked and then CheckSum, the last and only one |
| CaretA.CopyRestored | crates/refix-message/src/log/caret_a.rs:26-41 | the copy is the line with each `^A`, read from the left, made SOH |
| CaretA.OriginalOffset | crates/refix-message/src/log/caret_a.rs:54-64 | the loop gives how many bytes of the line an offset in its copy took |
| CaretA.OriginalOffsetInverts | crates/refix-message/src/log/caret_a.rs:54-64 | restoring the line up to the original offset gives exactly the copy up to the offset |
| CaretA.ShownRestoresExactlyWithoutCaretA | crates/refix-message/src/log/caret_a.rs:26-41 | a message comes back from its `^A` rendering if and only if it holds no literal `^A` |
| CaretA.CopyMessage | crates/refix-message/src/log/caret_a.rs:11-51 | the message on the first line ends where its restored copy ends, in the line's own offsets, and takes the line's break only when it takes the whole line |
| CaretA.CopyWaitsExactly | crates/refix-message/src/log/caret_a.rs:11-51 | it waits exactly for the line feed, up to the cap and the end of input |
| LogForms.ShownFrameIsCopied | crates/refix-message/src/log/caret_a.rs:11-51 | a line that holds a strict frame shown with `^A`, and any text after it, yields exactly the frame: it takes the shown frame's bytes, and the line break only when nothing follows |
| LogForms.ShownEndsAsWithSoh | crates/refix-message/src/log/caret_a.rs:11-51 | a line shown with `^A`, of any text without one of its own, ends its message where that text with SOH would end as the last of a log, and takes the line break only with the whole line |
| LogReader.Diagnose | crates/refix-message/src/log.rs:174-224 | the diagnostics pushed are those of the specification, in order |
| LogDiagnosis.DiagnosisExactly | crates/refix-message/src/log.rs:174-232 | each diagnostic is there, once and in its place, if and only if it holds: the second field is no BodyLength, or writes no 32-bit number, or one that does not end at the last field; the next is no MsgType; the message is truncated; the last value is not three digits, or not the sum modulo 256 of the bytes before it with separators counted as SOH |
| LogDiagnosis.StepIsDiagnosed | crates/refix-message/src/log.rs:117-171 | a record read is of the first message found: its fields are that message's, and its diagnostics are, in one order, those that hold of it as cut short or not as its end says, after a truncated prefix |
| LogReader.CopiesAreRight | crates/refix-message/src/log/caret_a.rs:11-51 | a message logged with `^A` has a right end, and is the bytes it took with SOH restored |
| LogReader.StepConservesBytes | crates/refix-message/src/log.rs:117-160 | what one reading step drops, its record's prefix, logged message and line break, and the buffer left are the buffer before |
| LogReader.StepRecordsFaithfully | crates/refix-message/src/log.rs:117-171 | a record's prefix is within the cap and reports a truncation exactly when bytes before it were dropped, and its message is the logged bytes or those with SOH restored |
| LogWaits.WaitingReaderIsShort | crates/refix-message/src/log.rs:117-171 | a reader with nothing to give holds at most a capped prefix, a message of the largest size and the longest start that is undecided |
| LogReader.LogReader.Feed | crates/refix-message/src/log.rs:100-102 | the buffer and the bytes fed grow by the bytes |
| LogReader.LogReader.CapPrefix | crates/refix-message/src/log.rs:163-171 | exactly the oldest bytes past the cap are dropped, and the loss is noted |
| LogReader.LogReader.Read | crates/refix-message/src/log.rs:117-160 | the whole new state and the record are those of one specified step, the bytes released and buffered stay the bytes fed, and a record shortens the buffer |
| LogReader.LogReader.NextRecord | crates/refix-message/src/log.rs:106-108 | the same before the end of the input |
| LogReader.LogReader.Finish | crates/refix-message/src/log.rs:113-115 | finishing ends, and returns every record still pending, in order |
| LogRuns.RunsConserveBytes | crates/refix-message/src/log.rs:117-171 | over every run of feeds and reads: bytes dropped, each record's prefix, message and line break in order, and the buffer are the bytes fed; a record reports a truncated prefix exactly when bytes were dropped since the record before |
| LogWalkLaws.WalkStays | crates/refix-message/src/log/end.rs:105-179 | an end the field walk gives stays its end with more bytes, unless they make a field after a length field hide a line break before the cut |
| LogWalkLaws.EndsEarlyExactlyAtHiddenBreak | crates/refix-message/src/log/end.rs:19-179 | for every accepted message and cut, the end given at the cut is not the whole's if and only if BodyLength has ruled itself out by the cut and a run without `=` of just the declared length, or an extent that has not arrived, hides a line break before it, past every extent the walk waits for; the early end is then the shorter |
| LogReaderLaws.DrainBeforeFeeding | crates/refix-message/src/log.rs:117-171 | reading records early changes nothing that is read later, if no message of the log hides a line break at a place the log can be cut |
| LogReaderLaws.ChunkingIsInvisible | crates/refix-message/src/log.rs:117-171 | under that condition on the whole log, every cutting of it, from any state, gives the records and the state of feeding it whole |
| LogReaderLaws.FeedingMattersExactly | crates/refix-message/src/log.rs:100-171 | some cutting of a log changes the records read if and only if a message of it hides a line break at such a place |
| LogReaderLaws.FeedingNeverMattersWithoutLengthTags | crates/refix-message/src/log.rs:117-171 | with no length tags no message of any log hides one |
| LogReaderLaws.ReadLog | crates/refix-message/src/log.rs:100-115 | a loop that feeds chunks, drains after each and finishes returns the prefixes, messages and diagnostics of the log fed whole, if no message of the log hides a line break at such a place |
| FeedingExample.EndsDependOnFeeding | crates/refix-message/src/log/end.rs:126-154 | a message without BodyLength ends at the line break in its data value while only part of the value is there, and after the value once all is |
| FeedingExample.RecordsDependOnFeeding | crates/refix-message/src/log.rs:100-115 | the reader takes it for a message, and its records, finishing included, differ between feeding it in two pieces and whole |
| LogForms.LoggedFrameStarts | crates/refix-message/src/log/start.rs:62-113 | the start check takes every strict frame whose BeginString value is letters, digits and points, with SOH, with another byte it can detect or is given, and with `^A`, and tells the separator |
| LogForms.RenamedEnds | crates/refix-message/src/log/end.rs:40-102 | with any byte that can stand for SOH, BodyLength ends a message where it does with SOH |
| LogText.WrittenReadsBack | crates/refix-message/src/log.rs:100-171 | a log of strict frames, each written with SOH, another byte or `^A`, with text without a message start before it and a line break after it, however it is fed, reads back as exactly those prefixes and frames with their fields, and nothing is left |
| LogText.WrittenIsClean | crates/refix-message/src/log.rs:174-224 | with nothing diagnosed about any frame, if no frame's field before its last is a length field |
| LogText.EncodedIsReadable | crates/refix-message/src/test_utils.rs:8-21 | every encoded frame is such a frame, in every form whose separator the start check detects and the frame does not hold |
| LogReaderLaws.RenamingKeepsDiagnostics | crates/refix-message/src/log.rs:174-232 | logging a message with another byte for SOH leaves its fields, its checksum and all its diagnostics unchanged |
| LogReaderLaws.SohChecksumIsStrict | crates/refix-message/src/log.rs:227-232 | with SOH, the log's checksum is the one the strict scanner verifies |
| StrictDiagnosis.StrictFramesAreClean | crates/refix-message/src/log.rs:174-224 | nothing is diagnosed about a frame the strict scanner accepts if and only if its last field is read where BodyLength puts CheckSum, and otherwise a BodyLength mismatch is |
| StrictDiagnosis.StrictFrameCanMismatch | crates/refix-message/src/log.rs:174-224 | a frame the strict scanner accepts whose data value reaches over CheckSum, and that is diagnosed with a BodyLength mismatch |
| StrictDiagnosis.WithoutDataStrictFramesAreClean | crates/refix-message/src/log.rs:174-224 | so nothing is when the field before the last is no length field |
| Decimals.Normalized | crates/refix-message/src/value/decimal.rs:54-64 | the loop gives the normal form: no trailing zero is left while the exponent can grow |
| Decimals.EqualIffSameValue | crates/refix-message/src/value/decimal.rs:54-71 | two decimals are equal by normal form if and only if mantissa times ten to the exponent is the same number |
| Decimals.Parse | crates/refix-message/src/value/decimal.rs:28-51 | parsing gives the digits' value, signed, at the fraction's scale, and fails exactly for no digits, other characters, more than 127 fraction digits or a mantissa past `i64` |
| Decimals.ParsesExactly | crates/refix-message/src/value/decimal.rs:28-51 | a float is read from exactly the texts that write it: after a minus sign or none, digits on either side of a point or without one, at least one and at most 127 after the point, their number within `i64` |
| Decimals.TextReadsBack | crates/refix-message/src/value/decimal.rs:81-95 | what parsing makes of every decimal's text: itself, or its positive exponent written out, or nothing when that does not fit |
| Decimals.TextIsCanonical | crates/refix-message/src/value/decimal.rs:81-95 | a decimal with a scale is displayed with that many digits after the point and no needless zero before it, any other with its digits and zeros |
| Decimals.ParseUndoesText | crates/refix-message/src/value/decimal.rs:28-95 | parsing undoes display if and only if the exponent is from -127 to 0 and the mantissa is not `i64::MIN` |
| Decimals.ReadBackIsEqual | crates/refix-message/src/value/decimal.rs:28-95 | whatever is read back from a decimal's text equals it |
| Dates.DaysSinceEpochIsCalendar | crates/refix-message/src/value/date.rs:54-65 | the day number is the calendar's, counted year by year and month by month from 1970-01-01 |
| Dates.DaysKeepOrder | crates/refix-message/src/value/date.rs:3-9 | dates compare by year, month and day as their day numbers do |
| Dates.FromDaysUndoesDays | crates/refix-message/src/value/date.rs:70-91 | every date of years 0 to 9999 is found again from its day number |
| Dates.DaysUndoesFromDays | crates/refix-message/src/value/date.rs:70-91 | for every `i64`, a date is found if and only if the day is from the first of year 0 to the last of year 9999, and its day number is that day |
| Dates.DaysSpanYears | crates/refix-message/src/value/date.rs:13-24 | those days are 0000-01-01 and 9999-12-31, and the epoch is day 0 |
| UtcTimestamps.PartsRecombine | crates/refix-message/src/value/utc_timestamp.rs:36-45 | every `i64` of nanoseconds has a date, in years 1677 to 2262, and a time of day, so nothing expected is missing, and they recombine to it |
| UtcTimestamps.InstantHasParts | crates/refix-message/src/value/utc_timestamp.rs:48-55 | a date and time of day that make an instant are its date and time of day, except that a leap second is the first second of the next day |
| TimestampText.ParseDateExactly | crates/refix-message/src/value/date.rs:40-49 | a date that exists is read from exactly its eight digits |
| TimestampText.ReadClockIsClock | crates/refix-message/src/value/time.rs:39-72 | a text that reads as a time of day is the text of its hour, minute, second and fraction |
| TimestampText.ClockTextReads | crates/refix-message/src/value/time.rs:39-72 | and the text of every hour, minute, second, leap seconds too, and fraction of up to nine digits reads as them |
| TimestampText.TimesAreClocks | crates/refix-message/src/value/time.rs:14-29 | a number of nanoseconds makes a time of day exactly when some clock shows it, the leap second after 23:59:59 included |
| TimestampText.WrittenReads | crates/refix-message/src/value/utc_timestamp.rs:47-55 | every date and time of day as written reads as its instant, or as nothing if that does not fit |
| TimestampText.TimestampReadsBack | crates/refix-message/src/value/utc_timestamp.rs:36-55 | reading the text of any timestamp's date and time of day gives the timestamp, rounded down to its precision |
| TimestampText.ParsedIsItsText | crates/refix-message/src/value/utc_timestamp.rs:36-55 | a text that reads as a timestamp is the text of its date and time of day, if and only if it writes no leap second |

## Left out

- Resolver.Resolve: data types are told apart only as far as the checks ask; names are compared as given.
- LogReaderLaws.ReadLog: promises equal records after finishing when feeding does not matter, and not only then. A break hidden only by an extent that never arrives changes when its record is read, while the end of the input may still give the same records, or, for a last message of exactly the largest size that ends in `\r`, others.
- Groups.NewGroupTable: models the error of the owned table's constructor; the borrowed table's constructor panics where this reports.
- Groups.WalkFrom: known tags are a set, and membership stands for the binary search in a sorted list.
- Tokenizer.NewLengthTags: the standard length tags are a parameter, and membership in the list stands for the binary search.
- Stream.MessageStream.NextMessage: frames are byte sequences; sharing of buffers and their capacity are not modelled.
- Months with a day or week (`MonthYear`): their text is read as dates' is.
- Message accessors that parse a value (strings, integers, booleans) and UTF-8 validation: they add only easy members.
- Descriptions of values, message categories and versions of dictionaries: nothing is decided by them.
- Which groups are declared and which code is emitted for them: the emitters write Rust and Python text.
- Reading QuickFIX XML, the command line, warnings and error texts, the Python bindings and conversions to other crates' types.
- Padding, width and alignment when a decimal is displayed; hashing.
