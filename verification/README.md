# serissa bitstore: a Dafny model of its INI store and its asynchronous I/O protocol

The project models two parts of the bitstore server and proves what they promise.

**The INI store.** `dictionary.c` keeps string pairs in parallel arrays with holes, a cached
hash per slot and a wrapping insertion probe; `iniparser.c` parses lines with ordered `sscanf`
alternatives, loads a file through a 1024-byte line buffer with backslash continuations, answers
section queries over the slots, and prints a dictionary as text. The model keeps the arrays, the
NUL-terminated buffers and the loops, and proves each method against a function: the store is a
map from key to optional value over any run and every get reads what was written last, a line means what a grammar without scans says, a
load is a fold over logical lines, cut at the first growth that fails, and printing followed by
loading gives the map back exactly when every name and every value prints as it will be read.

**The I/O protocol.** Handlers fill an `aio_context_t`, submit its requests in batches with
exponential backoff and wait on a condition variable; one reaper fetches completions, counts them
per context and signals at the last one. The model has the submission loop, the contexts and the
reaper as imperative code, and the whole protocol as a transition system with any number of
contexts and any interleaving.

## Layout

| file | content |
|---|---|
| `Options`, `CStrings`, `Scanf` | nullable strings; C strings, `strlwc`, `strstrip`; the `sscanf` directives in use |
| `Powers`, `Hash`, `Slots`, `Dictionary`, `DictionaryRuns` | the hash, the slots as values, the class, read after write over whole runs |
| `LineGrammar`, `LineReads`, `LineScans`, `LineParser` | what a line means, how given lines are read, the scans, `iniparser_line` |
| `LoadSpec`, `Loader`, `LoadFacts` | the meaning of a load, `iniparser_load`, consequences |
| `PartialLoad`, `LoadedNames`, `LoadLaws` | loads under failing growths, what loaded names and values look like, laws over the text of a file |
| `Entries`, `EntryRuns`, `Sections`, `Partition` | the query interface and its runs, section queries, how they partition a dictionary |
| `Printer`, `PrintedLines`, `RoundTrip` | `iniparser_dump_ini`, how one printed line reads back, the round trip |
| `DumpRows`, `DumpItems`, `Permutation`, `RoundTripExact` | that the round trip needs its condition: alignment of lines and entries, no line out of place, the equivalence |
| `AioSpec`, `AioSubmit`, `AioContext` | the counters, `aio_queue_submit`, contexts and reaper |
| `AioProtocol`, `AioWakeup`, `AioRefinement` | the transition system, its guarantees, the submission loop as protocol steps |

## Assumptions

- Text is NUL-free ASCII in the "C" locale. `sscanf`, `fgets` and `printf` follow sections
  7.19.6.2, 7.19.7.2 and 7.19.6.1 of ISO C99.
- A growth of the store may fail: a parameter says whether it does. Other allocations succeed.
- A missing file is a null stream.
- The kernel's answers to `io_submit` are an arbitrary function of the call number and the batch
  size that never accepts more than it is offered; it completes accepted requests in any order
  with any result. Condition-variable wait and signal are atomic steps without spurious wakeups.

## Where the code and its documentation differ

- `dictionary.c:245-250` says that a NULL value is the same as no entry. The code finds such an
  entry, and sections are stored that way: `DictionaryStore.Dictionary.Get`, `IniEntries.FindEntry`.
- A header whose second character is `]` keeps the current section name, cut to the length of the
  line minus one: `LineGrammar.Header`, exact condition in `PrintedLines.PrintedHeaderIff`, an
  instance in `LineGrammar.EmptyHeaderKeepsALetter`.
- A last line that ends in a backslash is dropped together with what was pending, and so is a last
  line of one character with nothing pending: `LoadFacts.LastLineIff`, all instances on one line in
  `LoadFacts.ContinuedLastLineIsLost` and `LoadFacts.OneCharacterLastLineIsLost`.
- `iniparser.h:88-93` promises a loadable file from `iniparser_dump_ini`. A printed pair comes back
  as itself exactly under the condition of `PrintedLines.PrintedPairIff`, a whole dictionary
  exactly under that of `RoundTrip.Printable`: `RoundTripExact.DumpThenLoadIff`, with an instance
  on either side in `RoundTripExact.SemicolonIsLost` and `RoundTripExact.EmptySectionComesBack`.
- A later completion overwrites the verdict of an earlier one: `AioSpec.VerdictIff`, an instance in
  `AioSpec.FailureIsMasked`.
- A signal sent before the wait is lost and an empty context is never signalled:
  `AioWakeup.ReleasableIff`, reachable instances in `AioWakeup.EarlySignalIsLost` and
  `AioWakeup.EmptyContextIsLost`.
- The submission loop need not end: `AioSubmit.StopsIff`, an instance in
  `AioSubmit.ZeroAnswersNeverStop`.
- When a growth fails during a load, the load stops and returns what it has, unless a line before
  was erroneous: `PartialLoad.LoadUnderFailure`.

## Model

| member | source | states |
|---|---|---|
| Hash.DictionaryHash | store/bitstore/src/core/dictionary.c:118-137 | the shift-and-xor loop computes the recursive hash in 32-bit wrap-around arithmetic |
| Hash.RoundBijective | store/bitstore/src/core/dictionary.c:128-132 | one round with a fixed character has an explicit two-sided inverse on all 32-bit accumulators |
| Hash.FinishBijective | store/bitstore/src/core/dictionary.c:133-135 | so has the finalisation |
| Hash.HashSeparatesOneCharacter | store/bitstore/src/core/dictionary.c:118-137 | keys of equal length that differ in exactly one character never share a hash, at any length and position |
| Hash.KnownHashes | store/bitstore/src/core/dictionary.c:118-137 | the hashes of the empty string and of one character as numbers |
| Slots.OccupiedIsCardinality | store/bitstore/src/core/dictionary.h:46 | the count of occupied slots, which `n` is kept equal to, is the number of entries of the map |
| Slots.FirstEmptyUnique | store/bitstore/src/core/dictionary.c:289-294 | the first empty slot from `n` to the end and then from 0 is unique, so the probe's contract fixes its result |
| DictionaryStore.Dictionary.constructor | store/bitstore/src/core/dictionary.c:150-166 | a new store is empty, of the given size but at least 128 |
| DictionaryStore.Dictionary.Find | store/bitstore/src/core/dictionary.c:214-225 | the scan with the cached hash finds the slot of a present key and reports absence otherwise |
| DictionaryStore.Dictionary.Get | store/bitstore/src/core/dictionary.c:209-227 | a present key gives its stored value, NULL or not, only an absent key gives the default |
| DictionaryStore.Dictionary.Grow | store/bitstore/src/core/dictionary.c:68-101 | success doubles the size, keeps map and slots and adds empty slots; failure changes nothing |
| DictionaryStore.Dictionary.Probe | store/bitstore/src/core/dictionary.c:289-294 | with n below size the wrapping probe ends at the first empty slot from n on, or else from 0 on |
| DictionaryStore.Dictionary.Add | store/bitstore/src/core/dictionary.c:281-300 | adds a new key, growing when full; just after a growth the slot used is n; a failed growth changes nothing |
| DictionaryStore.Dictionary.Set | store/bitstore/src/core/dictionary.c:255-301 | map update, with exactly the NULL key and the failed growth as errors that change nothing |
| DictionaryStore.Dictionary.Unset | store/bitstore/src/core/dictionary.c:314-349 | map removal; a NULL or absent key changes nothing |
| DictionaryRuns.Run | store/bitstore/src/core/dictionary.c:209-349 | any sequence of set, unset and get with any growth failures shows the same results as a map, ends holding that map and reads what was written |
| DictionaryRuns.RunReadsWrites | store/bitstore/src/core/dictionary.c:209-349 | from operations and return codes alone: a get answers the last successful set of its key, or the default when it was unset since or never set; a set fails only without a key, or without memory for a key that is not there |
| CStrings.StrLwc | store/bitstore/src/core/iniparser.c:45-57 | lower-cases at most len - 1 characters and terminates, also with source and destination the same buffer |
| CStrings.LowerShape | store/bitstore/src/core/iniparser.c:52 | no upper-case letter is left, each becomes the letter at its place in the lower-case alphabet, every other character is kept |
| CStrings.LowerAgreeIff | store/bitstore/src/core/iniparser.c:45-57 | two strings lower-case alike exactly when they agree up to the case of their letters |
| CStrings.StrStrip | store/bitstore/src/core/iniparser.c:91-109 | leaves the trimmed string in the buffer, in place, and returns its length |
| CStrings.StripUnique | store/bitstore/src/core/iniparser.c:84-109 | the trimmed string is the only one without blanks at its ends that leaves only blanks on both sides |
| CStrings.Blanks | store/bitstore/src/core/iniparser.c:91-109 | the six characters that are blanks |
| LineGrammar.StatusIff | store/bitstore/src/core/iniparser.c:643-694 | which lines are empty, comments, headers, pairs and errors, from the stripped text alone |
| LineGrammar.KeyShape | store/bitstore/src/core/iniparser.c:659-690 | a parsed key is non-empty, trimmed, lower-case, free of '=' and shorter than the trimmed line, so `strlwc` cuts nothing |
| LineGrammar.ValueShape | store/bitstore/src/core/iniparser.c:659-690 | a parsed value is everything between a quote and the next one of its kind, or trimmed and free of ';' and '#' |
| LineGrammar.HeaderShape | store/bitstore/src/core/iniparser.c:653-658 | a line between brackets whose second character is not ']' names the trimmed, lower-cased text before the first ']' |
| LineGrammar.EmptyHeaderKeepsALetter | store/bitstore/src/core/iniparser.c:653-658 | `[]` inside section `ab` opens section `a` |
| LineReads.EmptyHeaderReads | store/bitstore/src/core/iniparser.c:653-658 | a header that starts with `[]` leaves the current section, lower-cased and cut to one character for its second and one for each behind it |
| LineReads.PairReads | store/bitstore/src/core/iniparser.c:659-690 | `key = part`, with blanks anywhere around the three, reads as the lower-cased key and the value of the part |
| LineReads.PlainValueReads | store/bitstore/src/core/iniparser.c:666-677 | a plain value ends before the blanks in front of a comment |
| LineReads.QuotedValueReads | store/bitstore/src/core/iniparser.c:659-665 | a quoted value is everything up to the next quote of its kind, whatever follows |
| LineReads.EmptyValueReads | store/bitstore/src/core/iniparser.c:670-690 | empty quotes and nothing at all are the empty value |
| LineScans.ScansMeetGrammar | store/bitstore/src/core/iniparser.c:659-694 | the ordered `sscanf` alternatives with their clean-up agree with the grammar on every line |
| LineParser.ScanAssignment | store/bitstore/src/core/iniparser.c:659-694 | the branches over buffers return the grammar's status, key and value |
| LineParser.ScanHeader | store/bitstore/src/core/iniparser.c:653-658 | the header branch leaves the grammar's section name in the buffer, also when its scan fails |
| LineParser.IniparserLine | store/bitstore/src/core/iniparser.c:633-698 | total; status, section, key and value are the grammar's, the section is kept on every other line, no buffer overflows |
| LoadSpec.PendingFits | store/bitstore/src/core/iniparser.c:749-780 | over any chain of continuations at most 1021 characters are pending, so each read has room for at least two more |
| LoadSpec.LoadIsFold | store/bitstore/src/core/iniparser.c:749-819 | with memory to spare the load is a left fold over the logical lines, or NULL |
| Loader.Fgets | store/bitstore/src/core/iniparser.c:749 | reads the first physical line cut to the room, terminates it behind what is pending, sets end-of-file only on an attempt to read past the end |
| Loader.TrimTail | store/bitstore/src/core/iniparser.c:764-769 | trims trailing blanks in place with the index one before the end |
| Loader.ReadLine | store/bitstore/src/core/iniparser.c:749-780 | one read classifies its line as the specification does and leaves the logical or the pending text in the buffer, within bounds |
| Loader.HandleLine | store/bitstore/src/core/iniparser.c:781-812 | one logical line changes section, store and error count as the specification says; a failed growth leaves the map alone and stops |
| Loader.Load | store/bitstore/src/core/iniparser.c:714-820 | terminates on every NUL-free file; NULL or a valid store holding exactly the map of the specified pass, under every pattern of growth failures; what that pass means is `LoadIsFold` and `LoadUnderFailure` |
| PartialLoad.LinesReadAreLogical | store/bitstore/src/core/iniparser.c:749-780 | the lines the pass completes, numbered by the read, are the logical lines when every line fits |
| PartialLoad.LoadUnderFailure | store/bitstore/src/core/iniparser.c:807-819 | the load is the fold of the lines before the first one that needs a growth it does not get, and the whole load when there is none |
| PartialLoad.FailedKeyIsMissing | store/bitstore/src/core/iniparser.c:807-812 | a failed growth loses the key it was for and leaves a full store |
| PartialLoad.SmallLoadNeedsNoMemory | store/bitstore/src/core/iniparser.c:749-819 | at most 128 logical lines load alike under every pattern of failures |
| LoadFacts.LoadFailsIff | store/bitstore/src/core/iniparser.c:749-819 | a load is NULL exactly when some line does not fit the buffer or some logical line, not blank, comment or header, has no '=' or nothing before it |
| LoadFacts.LastAssignmentWins | store/bitstore/src/core/iniparser.c:781-806 | each key holds the value of the last line that assigns it, and no other key is present |
| LoadFacts.LoadedEntriesReachable | store/bitstore/src/core/iniparser.c:781-793 | no loaded key holds an upper-case letter, and the query interface reaches it exactly when it has at most 1024 characters |
| LoadFacts.LastLineIff | store/bitstore/src/core/iniparser.c:749-780 | the last physical line, with or without newline and behind anything pending, is dropped when it is one character with nothing pending or ends in a backslash, and completes a logical line otherwise |
| LoadFacts.ContinuedLastLineIsLost | store/bitstore/src/core/iniparser.c:773-780 | a file of one line that ends in a backslash loads no line |
| LoadFacts.OneCharacterLastLineIsLost | store/bitstore/src/core/iniparser.c:749-753 | a file of one character loads no line |
| LoadLaws.LineFitsIff | store/bitstore/src/core/iniparser.c:749-763 | a line fits exactly when it has at most 1022 characters |
| LoadLaws.LinesCompose | store/bitstore/src/core/iniparser.c:749-780 | the lines of whole lines followed by more text are those of both, read behind what is pending |
| LoadLaws.BackslashNewlineVanishes | store/bitstore/src/core/iniparser.c:773-780 | a backslash at the end of a line and the newline behind it vanish, anywhere in a file |
| LoadLaws.NotesChangeNothing | store/bitstore/src/core/iniparser.c:783-785 | comment and blank lines change nothing, wherever they stand in a file |
| LoadLaws.ExampleFile | store/bitstore/src/core/iniparser.c:714-820 | a file with a comment, a header in mixed case and a pair with a comment behind it loads to its two entries |
| LoadedNames.SectionsDuringLoad | store/bitstore/src/core/iniparser.c:653-658 | wherever a load is, its section is lower-case, free of ']' and newlines and at most 1021 characters long |
| LoadedNames.LoadedEntriesLike | store/bitstore/src/core/iniparser.c:749-806 | no loaded value contains a newline, and every loaded key without a colon is such a section |
| IniEntries.GetString | store/bitstore/src/core/iniparser.c:413-425 | the value stored under the normal form of the name, or the default; a NULL name gives the default |
| IniEntries.FindEntry | store/bitstore/src/core/iniparser.c:579-586 | true exactly when the normal form is a key, whatever its value |
| IniEntries.SetEntry | store/bitstore/src/core/iniparser.c:601-605 | map update at the normal form, with the store's error cases |
| IniEntries.UnsetEntry | store/bitstore/src/core/iniparser.c:617-621 | map removal at the normal form |
| IniEntries.Interchangeable | store/bitstore/src/core/iniparser.c:413-425 | two names answer alike on every map exactly when their normal forms agree |
| IniEntries.SameNameIff | store/bitstore/src/core/iniparser.c:413-425 | normal forms agree exactly when the names agree up to case in their first 1024 characters |
| IniEntries.ReadBack | store/bitstore/src/core/iniparser.c:601-605 | what is stored under one name is read under every name equal up to case and under no other |
| EntryRuns.RunEntries | store/bitstore/src/core/iniparser.c:413-621 | over any run of set, unset and getstring a query answers what was last written under a name equal to its own up to case |
| IniEntries.ReachableIff | store/bitstore/src/core/iniparser.c:601-605 | a key can be named exactly when it holds no upper-case letter and is at most 1024 characters long |
| Sections.SectionNamesExact | store/bitstore/src/core/iniparser.c:164-215 | the enumerated sections are the colon-free keys, each once, in slot order |
| Sections.SectionKeysExact | store/bitstore/src/core/iniparser.c:330-396 | the listed keys are those that start with the lower-cased name and a colon, each once, in slot order |
| Sections.GetNSec | store/bitstore/src/core/iniparser.c:164-179 | counts the sections over any pattern of holes |
| Sections.GetSecName | store/bitstore/src/core/iniparser.c:195-215 | returns the n-th section and NULL for every other number |
| Sections.GetSecNKeys | store/bitstore/src/core/iniparser.c:330-354 | counts the section's keys, 0 for a name that is no entry |
| Sections.GetSecKeys | store/bitstore/src/core/iniparser.c:372-396 | writes exactly the section's keys in slot order and nothing behind them; NULL for a name that is no entry |
| Partition.SectionsPartition | store/bitstore/src/core/iniparser.c:164-354 | sections plus their keys add up to at most n, and to n exactly when every key with a colon has its section present |
| Printer.DumpSection | store/bitstore/src/core/iniparser.c:296-320 | appends the header and the padded pairs of a section that is an entry, nothing otherwise |
| Printer.PairColumns | store/bitstore/src/core/iniparser.c:312-315 | a printed pair has its '=' in column 31, or one behind a longer key, and nothing for a NULL value |
| Printer.DumpLayout | store/bitstore/src/core/iniparser.c:258-320 | the whole text of a dictionary of one section with one pair |
| Printer.PlainLayout | store/bitstore/src/core/iniparser.c:266-274 | the whole text of a dictionary of one pair without a section |
| Printer.DumpIni | store/bitstore/src/core/iniparser.c:258-282 | appends every section in slot order, or the plain pairs of a dictionary without sections |
| PrintedLines.ValueOfIff | store/bitstore/src/core/iniparser.c:659-690 | a trimmed value reads back unchanged exactly when it is unquoted and free of comment characters, and never gets longer |
| PrintedLines.PrintedPairIff | store/bitstore/src/core/iniparser.c:312-315 | a printed pair is read as itself exactly under a condition on its key and value, both directions |
| PrintedLines.PrintedHeaderIff | store/bitstore/src/core/iniparser.c:306 | a printed header, read in a section without ']' as all are, is its section exactly when the name is trimmed, lower-case, free of ']', and non-empty unless the current section is blank |
| RoundTrip.DumpThenLoad | store/bitstore/src/core/iniparser.c:258-320 | loading the printed text of a printable dictionary, with any holes and slot order, gives its map back |
| RoundTrip.DumpThenLoadPass | store/bitstore/src/core/iniparser.c:714-820 | the same for the loader's own pass over the text |
| DumpRows.Aligned | store/bitstore/src/core/iniparser.c:749-780 | when no printed line is lost, every logical line is the line of its own item, up to a value shortened by trailing backslashes |
| Permutation.HeadAssignsName | store/bitstore/src/core/iniparser.c:653-658 | if n printed lines assign n distinct entries that are the dumped ones, every header is read as the name it prints |
| Permutation.EmptyNameFirst | store/bitstore/src/core/iniparser.c:653-658 | then an empty name can only be the first one printed |
| Permutation.OwnLine | store/bitstore/src/core/iniparser.c:781-806 | then no line is out of place or taken for a header, and every value survives |
| RoundTripExact.DumpThenLoadIff | store/bitstore/src/core/iniparser.c:258-320 | loading the printed text gives the map back if and only if every section has a printable name and no value, an empty name is the first, no entry is orphaned and every value prints |
| RoundTripExact.SemicolonIsLost | store/bitstore/src/core/iniparser.c:312-315 | a dictionary with the value `a;b` does not come back |
| RoundTripExact.EmptySectionComesBack | store/bitstore/src/core/iniparser.c:653-658 | the dictionary with the one section '' does |
| AioSpec.ProcessAllFrom | store/bitstore/src/asyncio/blockdevice.c:62-74 | after any completions from any counters: all counted, rval is the length of the last request or -5, one signal when the count passes n |
| AioSpec.ProcessAllExact | store/bitstore/src/asyncio/blockdevice.c:62-74 | the same from fresh counters: one signal exactly when the count has reached n >= 1 |
| AioSpec.VerdictIff | store/bitstore/src/asyncio/blockdevice.c:62-73 | the final result is the length of the last request, or -5 exactly when that one failed or was short; all good gives a non-negative one |
| AioSpec.FailureIsMasked | store/bitstore/src/asyncio/blockdevice.c:62-73 | an I/O error followed by a good completion leaves a successful result |
| AioSubmit.IoQueue.Submit | store/bitstore/src/asyncio/aio.c:73-97 | accepted iocbs are exactly the first `done`, each once and in order; a count returned is the size, an error leaves a strict prefix; bounded calls and sleep; the calls made are those of `Finished` |
| AioSubmit.LogExact | store/bitstore/src/asyncio/aio.c:79-94 | from the answers alone: each call offers all that is left up to the depth, only -EAGAIN is retried, sixteen times in a row with doubling sleeps, and an error returned is the last answer |
| AioSubmit.NoAgainNoSleep | store/bitstore/src/asyncio/aio.c:82-89 | without -EAGAIN nothing is slept and each call but the last is progress or a zero answer |
| AioSubmit.BackoffBound | store/bitstore/src/asyncio/aio.c:75-94 | delay is 125 * 2^(16 - attempts) at each loop head; no sleep without progress exceeds 125 * (2^16 - 1) us, nor a whole call size times that |
| AioSubmit.GivesUpLate | store/bitstore/src/asyncio/aio.c:82-89 | EAGAIN is returned only after the full 125 * (2^16 - 1) us without progress |
| AioSubmit.StopsIff | store/bitstore/src/asyncio/aio.c:79-94 | the loop returns exactly when the kernel gives it finitely many zero answers |
| AioSubmit.ZeroAnswersNeverStop | store/bitstore/src/asyncio/aio.c:79-94 | a kernel that always answers 0 keeps the loop running for ever |
| AioContexts.AioContext.constructor | store/bitstore/src/asyncio/aiocontext.c:9-31 | a fresh context: 100 places, nothing pending or running, rval -1000 |
| AioContexts.AioContext.Add | store/bitstore/src/asyncio/blockdevice.c:141-176 | appends one request with its descriptor, context, offset and length; a full list is an error that changes nothing |
| AioContexts.AioContext.TryWake | store/bitstore/src/asyncio/aiocontext.c:53-59 | counts one completion and signals exactly at the last one |
| AioContexts.GetEvents | store/bitstore/src/asyncio/aio.c:99-118 | event i becomes request i with its own result; the rest of the array is untouched |
| AioContexts.ReapBatch | store/bitstore/src/asyncio/blockdevice.c:56-75 | after a batch every context is what its own completions make it, its result the length of the last request or -5; no completion touches another context |
| AioContexts.BlockDeviceSubmit | store/bitstore/src/asyncio/blockdevice.c:202-225 | success means every request accepted in order; an error is the kernel's own, so the short-count branch never happens, and leaves a strict prefix |
| AioProtocol.StepConserves | store/bitstore/src/asyncio/aio.c:112-115 | only acceptance adds requests to the system; every other step moves them between kernel, queue, batch and history |
| AioProtocol.StepKeepsInv | store/bitstore/src/asyncio/blockdevice.c:56-75 | every step of every interleaving keeps the invariant of requests and counters |
| AioWakeup.Conservation | store/bitstore/src/asyncio/aiocontext.c:33-59 | in every reachable state accepted = in kernel + fetched + reaped for every context, and num_running is its reaped count |
| AioWakeup.ExactlyOnce | store/bitstore/src/asyncio/aio.c:112-115 | every accepted request is in exactly one place once, and no other request anywhere |
| AioWakeup.SignalExact | store/bitstore/src/asyncio/aiocontext.c:53-59 | at most one signal per context, sent exactly when all n >= 1 requests are accepted and reaped |
| AioWakeup.ReleaseExact | store/bitstore/src/asyncio/aiocontext.c:48-59 | a waiting handler is released exactly by the reaping of its last request, with num_running equal to num_pending |
| AioWakeup.CountersAreOwn | store/bitstore/src/asyncio/blockdevice.c:62-74 | counters and result of a context are made by its own completions alone, in the order reaped |
| AioWakeup.DestroyedIsForgotten | store/bitstore/src/asyncio/aiocontext.c:66-74 | once a handler is released or gone, nothing in the kernel or a batch refers to its context |
| AioWakeup.ReaperNeverStuck | store/bitstore/src/asyncio/blockdevice.c:62-74 | the next fetched event always belongs to a live context and one of its requests |
| AioWakeup.FinalVerdict | store/bitstore/src/asyncio/blockdevice.c:62-73 | the result of a signalled context is the length of the last request reaped, or -5 when it failed or was short |
| AioWakeup.ReleasableIff | store/bitstore/src/core/thread.c:65-91 | a handler past submission can still be released exactly when all its n >= 1 requests were accepted and the signal is yet to come |
| AioWakeup.KeepsGoing | store/bitstore/src/asyncio/blockdevice.c:56-75 | kernel or reaper can take a step unless kernel, queue and batch are empty |
| AioWakeup.BackgroundEnds | store/bitstore/src/asyncio/blockdevice.c:56-75 | any schedule of kernel and reaper steps is at most as long as the work there is |
| AioWakeup.EveryRunReleases | store/bitstore/src/asyncio/aiocontext.c:48-59 | after any run at all, once kernel, queue and batch are empty, a handler that waited for a signal to come has been released |
| AioWakeup.EarlySignalIsLost | store/bitstore/src/asyncio/aiocontext.c:48-59 | a reachable state in which the only request, a good one, was reaped before the wait, which never returns |
| AioWakeup.EmptyContextIsLost | store/bitstore/src/core/thread.c:65-91 | a reachable state in which a handler without requests waits for ever |
| AioRefinement.TurnIsStep | store/bitstore/src/asyncio/aio.c:79-94 | each turn of the submission loop is at most one protocol step and leaves other contexts alone |
| AioRefinement.OthersKeepTracks | store/bitstore/src/asyncio/aio.c:73-97 | no step of the kernel, the reaper or another handler disturbs a submission |
| AioRefinement.SubmissionIsRun | store/bitstore/src/asyncio/aio.c:73-97 | a submission with any steps of kernel, reaper and other handlers between its turns is a run of the protocol, ending with all requests accepted or with a strict prefix and an error |

## Left out

- RoundTripExact.DumpThenLoadIff: is stated for dictionaries with a section whose keys behind the colon print (`PrintedLines.KeySurvives`); what another key does is stated line by line (`PrintedPairIff`).
- AioSubmit.IoQueue.Submit: requires a positive depth and a kernel that never answers 0 to a non-empty batch; without that the loop may not return (`StopsIff`).
- AioContexts.BlockDeviceSubmit: carries the same two conditions.
- AioContexts.GetEvents: takes the filled event array; the retry on EINTR and the time-out are not modelled, and a request completes once.
- Printer.DumpIni: printing a NULL value in a dictionary without sections, and a name too long for `keym`, are undefined in the source and excluded.
- Sections.GetSecKeys: names longer than 1024 characters write outside `keym` in the source and are excluded.
- What the text of a dictionary without sections reads back as: its keys gain a leading colon.
- Characters outside ASCII, NUL inside strings, and a stored value passed back to `dictionary_set`.
- `iniparser_getint`, `iniparser_getlongint`, `iniparser_getdouble`, `iniparser_getboolean`, `config.c`, `dictionary_dump`, `iniparser_dump`, error callbacks: conversions and wrappers.
- Integer limits of `n`, `size` and `lineno`: memory runs out first.
- Freeing memory: `dictionary_del` and `aio_context_destroy` are not modelled as heap operations; that nothing refers to a destroyed context is `DestroyedIsForgotten`.
- `block_device_aio_fsync`: it passes the address of a pointer where a context is meant.
- Data buffers, `O_DIRECT` alignment, opening and sizing the device, `io_setup`, `io_destroy`.
- Reaper start and stop, the thread pool, mutex and condition-variable errors, spurious wakeups, and the memory ordering of counters shared between threads.
- The gRPC service: only the order of a handler's steps is modelled.
- The Go files: no logic.
