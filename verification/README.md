# RiftLift: verified models

Dafny models of the parts of RiftLift where one mistake costs a user's data or a game's correct behaviour, and proofs
about all inputs, all runs or all reachable states. Code that changes things in place is modelled by classes and loops
that are proved against functions; the theorems are about the functions and about the invariants of the classes. What
the functions mean at the edges is stated without them, in octets, characters and numbers: files and frames octet by
octet, JSON by its own serialiser, tokens, safe names, escapes and the CRC by their definitions, accents by Unicode.

| files | what they model |
|---|---|
| `VdfCodec`, `AppId`, `Decimal`, `Fields`, `Shortcuts`, `ShortcutEntries`, `ShortcutSync`, `ShortcutTheorems`, `ShortcutIds`, `ShortcutFile`, `SafeNames`, `SteamLibrary` | Steam's binary KeyValues files and the synchronisation of the shortcuts list |
| `Secrets`, `Redaction`, `LogFile`, `LogCounts`, `LogTimes`, `LogTokens`, `Logger`, `LogRuns` | the logger: token redaction, the buffer in front of the file, repeat counting over time |
| `Utf8`, `ShimJson`, `JsonGrammar`, `JsonText`, `ShimJsonReader`, `ShimQueue` | the Platform shim's JSON reader and its message ring |
| `CommandLine` | Windows command-line quoting against a model of the C runtime's argv parser |
| `PipeFrames`, `PipeRpc`, `PipeRuns` | the credential channel: frames, and many callers and a server in any interleaving |
| `LayerRegistry` | the OpenXR layer's handle maps, with threads between their two locked sections |
| `Search`, `SearchAccents`, `SearchAscii`, `HostNames` | search normalisation and the mapping of file names |
| `Bytes` | octets and result types |

## Where the code does not do what is promised

The names in brackets are those of the inputs or runs on which a promise fails, and of the exact conditions under which
it holds.

- `owned_package` compares a tag's value, which ends in NUL, with `std::string("RiftLift\0", 8)`. "RiftLift" has eight
  letters, so those eight bytes have no NUL and no value equals them: RiftLift never recognises its own entries. The
  functions take the tag as a parameter: `OWNER_MARK` is what the code compares with, `OWNER_VALUE` what it writes. For
  the latter, which nine bytes instead of eight would give, idempotence, agreement with `listed` and stable ids are
  proved in full. For the former:
  - every sync keeps its own entries as foreign and appends all games again; it leaves the file alone if and only if no
    game has a safe package (`SyncOnlyAdds`, `TwoSyncsOneGame`, `SecondSyncChangesFile`);
  - `listed` is true after a sync if and only if no game has a safe package (`SyncedIsListedWithoutGames`, and for both
    tags in one `TagDecides`);
  - a package's newest entry keeps its id if and only if executable and name give the same id (`RenamedGameLosesId`,
    `IdSurvivesExactly`).
- `write` reads the clock before it takes the lock, so clocks can reach the table out of order. Two bounds then fail:
  nothing older than two periods in the table (`LateClock`), and lines with a count a period apart (`LateCopy`). The
  first holds if and only if a warning's or error's clock is at most a period before the last sweep (`TwoPeriods`,
  `TwoPeriodsAfter`), the second if and only if it is not before the last line with a count for it; for a copy that is
  only counted the last sweep may stand in for the clock (`LinkedIsNextSpaced`, `WriteIsApart`, `CountIsApart`,
  `Log.Write`). Clocks in order meet both (`InOrderIsPrompt`, `WriteInOrder`).
- A pending count is due within two periods, but it is the next message that writes it (`DueInTime`, `CountIsReported`,
  `QuietBurst`).
- A count line is taken apart at the first NUL of its key: it names the right message if and only if the tag has no NUL
  (`TwoMessagesOneKey`, `KeyDetermines`).
- "No log line keeps" a token, but tags are not redacted (`TokenInTag`). Lines and table are free of tokens, in tags and
  texts, if and only if every tag logged is (`TokensComeFromTags`, `Log.Write`).
- Info lines are to reach the file within the flush interval or with the next warning or error. A copy that is counted
  returns before the flush, so they go on waiting (`WaitsInBuffer`): a warning or error empties the buffer if and only
  if a line is written, its own or a sweep's count (`Log.Write`).
- `json_get` refuses a string that does not fit, as its comment says, but cuts a number (`IntegerIsCut`). Names are
  compared up to their first NUL (`CutNameIsTaken`), and only names shorter than 64 octets can be found
  (`LongKeyIsMissed`); all else is as it should be (`NamesExactly`).
- The argv parser treats the program name differently from arguments: a name with a quote, or one that is quoted and
  ends in a backslash, does not survive (`DirectoryIsLost`, `CommandLineReadsBack`). Arguments are quoted when they need
  it and, beyond what the comment says, when they have a line feed or a vertical tab, which the parser does not split at
  (`LineFeedIsQuoted`, `QuotesAreNeeded`).
- Search promises that case, accents and punctuation do not matter. Two different letters count as one, wherever they
  stand, if and only if ASCII letter case or the table spells them alike (`OnlySpellingsMatter`, `SpelledAlike`). So
  case matters for letters beyond ASCII that the table lacks, other scripts' among them (`CaseMatters`,
  `CaseDoesNotMatter`). Of the letters from U+00C0 to U+024F that Unicode decomposes, the accents of all but eight do
  not matter (`AccentsDoNotMatter`); outside that range they do (`AccentMatters`), unless they are combining ones
  (`JoinsWords`). Punctuation is no part of a word if and only if `separator` or `apostrophe` lists it (`BeyondAscii`,
  `EndsWords`, `PunctuationMatters`).
- `next` says an invalid octet reads as itself; a continuation octet alone reads as its low six bits, and a broken
  sequence uses up the continuation octets before the break (`InvalidReads`, `StrayReads`, `BrokenReads`). So `words`, a
  normal form of all valid UTF-8, is not one of every text (`NotUtf8NotNormal`).
- The layer erases a handle after the runtime has destroyed it. If the runtime issues the handle again in between, the
  new object is not registered (`CreatedIsHeld`, `ReissuedHandleIsLost`), or not for long (`ReissuedSpaceIsLost`): it
  stays if and only if it was registered and no destruction already in the runtime then succeeds (`CreatedStays`). The
  ownership hierarchy survives even that.

## Model

| member | source | states |
|---|---|---|
| VdfCodec.ReadThenWrite | src/common/steam_library.cpp:233-247 | for every file `read_vdf` accepts, `write_vdf` of the tree returns exactly those bytes, and the tree is well formed and within the depth, field and size limits |
| VdfCodec.WellFormedIsWritten | src/common/steam_library.cpp:84-101 | a well-formed tree is written exactly when it is within the limits, and what is written reads back as the same tree |
| VdfCodec.WriteThenRead | src/common/steam_library.cpp:242-247 | for every tree at all: writing and reading gives it back if and only if it is well formed (NUL-free keys, payload of its wire type, end marker 8 or 11) and within the limits |
| VdfCodec.LimitsExactly | src/common/steam_library.cpp:27-101 | the limits in numbers: 16777216 octets, 200000 fields, objects nested 64 deep |
| VdfCodec.ScalarsExactly | src/common/steam_library.cpp:64-79 | the wire types and their payloads, spelled out: NUL-terminated text, 4 octets, UTF-16 pairs up to the first that is zero, 8 octets, one octet |
| VdfCodec.ParsePayloadSound | src/common/steam_library.cpp:60-79 | a payload the reader accepts is the encoding of the node it returns, followed by what it leaves |
| VdfCodec.ParseFieldSound | src/common/steam_library.cpp:49-80 | an accepted field is well formed, is the encoding of the node returned, and costs the field counter exactly the fields in it |
| VdfCodec.ParseFieldsSound | src/common/steam_library.cpp:44-82 | the same for an object up to its end marker, at any depth |
| VdfCodec.ParsePayloadComplete | src/common/steam_library.cpp:60-79 | the encoding of a well-formed payload, in front of anything, is read as that payload and nothing more |
| VdfCodec.ParseFieldComplete | src/common/steam_library.cpp:49-80 | the encoding of a well-formed field of allowed depth, in front of anything, is read as that field |
| VdfCodec.ParseFieldsComplete | src/common/steam_library.cpp:44-82 | the encoding of a well-formed object, in front of anything, is read as that object if its fields stay within the limit, and refused for their number if not |
| VdfCodec.AppendFieldsIsEncode | src/common/steam_library.cpp:84-101 | appending field by field, with the size looked at in between, yields the encoding, exactly when keys, depth and the running size allow it |
| VdfCodec.Reader.TakeBytes | src/common/steam_library.cpp:31-37 | advances over exactly n bytes or fails as truncated |
| VdfCodec.Reader.ReadString | src/common/steam_library.cpp:38-43 | advances over the next NUL-terminated string, terminator included, or fails as unterminated |
| VdfCodec.Reader.ReadWide | src/common/steam_library.cpp:66-70 | the loop over pairs of bytes reads up to and including the first pair of zeros |
| VdfCodec.Reader.ReadScalar | src/common/steam_library.cpp:64-79 | reads the payload of every scalar wire type, or reports the type as unsupported |
| VdfCodec.Reader.ReadField | src/common/steam_library.cpp:54-80 | the field counter, the position and the node after one field are those of the functional parser; termination from the bytes left |
| VdfCodec.Reader.ReadObject | src/common/steam_library.cpp:44-82 | the loop over fields, with its depth and field limits, refines the functional parser |
| VdfCodec.Read | src/common/steam_library.cpp:233-241 | the size limit, the parse and the test for trailing bytes together are `ReadVdf` |
| VdfCodec.Encode | src/common/steam_library.cpp:84-101 | the recursive loop: the text appended, or the first error in the order the program meets it; the last end marker is not counted |
| VdfCodec.EncodeNode | src/common/steam_library.cpp:87-99 | one field of the loop: the text appended, or its error |
| VdfCodec.Write | src/common/steam_library.cpp:242-247 | encoding followed by the parse of its own output is `WriteVdf`, errors included |
| AppId.AppIdIsCrc32 | src/common/steam_library.cpp:248-257 | the id is the CRC-32 that the sample code of RFC 1952, section 8, computes of the two strings joined, with 0x80000000 or-ed in; so it is never the value that means no id |
| AppId.ShiftIsUpdateCrc | src/common/steam_library.cpp:250-255 | eight conditional shifts per byte over a whole string are the table-driven update of RFC 1952 |
| AppId.RenamedDiffers | src/common/steam_library.cpp:248-257 | a name and another one have different ids, whatever the executable |
| AppId.RoundsAreLinear | src/common/steam_library.cpp:253-254 | eight rounds of the shift register distribute over exclusive or, which is why a table by octet works |
| AppId.ShiftString | src/common/steam_library.cpp:251-255 | the two nested loops compute the register after a string |
| AppId.ComputeAppId | src/common/steam_library.cpp:248-257 | the loop over both strings returns the id |
| Decimal.PrintIsInjective | src/common/steam_library.cpp:553-556 | decimal printing is undone by reading the digits, so different numbers make different keys |
| Decimal.FreshFrom | src/common/steam_library.cpp:553-555 | the key search ends (a finite set blocks finitely many numbers) at the least number from `next` on whose numeral is free |
| Decimal.FindFresh | src/common/steam_library.cpp:553-554 | the loop finds that number |
| Fields.IntegerRoundTrip | src/common/steam_library.cpp:131-144 | `number` reads back what `integer` printed, for every 32-bit value |
| Fields.PutNodeEffect | src/common/steam_library.cpp:119-130 | after `put` the field is held exactly once, no other key is affected, and putting what is there changes nothing |
| Fields.PutAllEffect | src/common/steam_library.cpp:557-565 | a series of puts under different keys leaves every one of them in place and all other keys alone |
| Fields.PutAllAgain | src/common/steam_library.cpp:557-565 | the same series again changes nothing |
| Fields.PutAllKeepsWellFormed | src/common/steam_library.cpp:119-130 | puts keep a tree well formed |
| Fields.FindField | src/common/steam_library.cpp:102-112 | the loop returns the one position of the key, none, or the duplicate error |
| Fields.Put | src/common/steam_library.cpp:119-130 | replaces the node in place or appends it, with the terminator added to strings |
| ShortcutFile.ManagedStartsGame | src/common/steam_library.cpp:549-565 | an entry after the puts has exactly one field each named `appname`, `exe`, `StartDir` and `LaunchOptions` with the game's and launcher's texts, `OpenVR`, `AllowOverlay` and `AllowDesktopConfig` with the octets 1, 0, 0, 0, and `appid` with a number that is not zero |
| ShortcutEntries.ManagedShows | src/common/steam_library.cpp:549-571 | the same in terms of `Settings`, with the id that `IdFor` gives, and the tags: those of the entry before, or the new one |
| ShortcutEntries.ManagedAgain | src/common/steam_library.cpp:549-571 | managing such an entry again under its key changes no byte and no order |
| ShortcutEntries.ManagedIsOwned | src/common/steam_library.cpp:145-157 | with the tag `sync` writes, `owned_package` recognises the entry as its package |
| ShortcutEntries.NewIsOwned | src/common/steam_library.cpp:145-157 | exact condition, for every tag a program could compare with: a new entry is recognised as its package if and only if that is the tag written |
| ShortcutEntries.ManagedIsWellFormed | src/common/steam_library.cpp:549-571 | managed entries can be written and read: NUL-free name, paths and package give well-formed nodes |
| ShortcutEntries.NothingIsOwned | src/common/steam_library.cpp:149-151 | no entry read from a file carries a tag that is not a NUL-terminated string |
| ShortcutEntries.MarkIsNoString | src/common/steam_library.cpp:150 | the eight bytes the code compares with have no terminator: no string payload equals them |
| ShortcutSync.ChosenOncePerPackage | src/common/steam_library.cpp:546-548 | the loop lists every safe package among the games exactly once |
| ShortcutSync.ListsOneMore | src/common/steam_library.cpp:549-594 | a game listed gets a key that no foreign entry and no entry before it has |
| ShortcutSync.AddGamesLists | src/common/steam_library.cpp:546-595 | the loop appends one managed entry per safe package, under keys different from each other and from all reserved ones |
| ShortcutSync.RetainedIsForeign | src/common/steam_library.cpp:527-533 | `retained` is the sublist of foreign entries, in order |
| ShortcutSync.SplitManaged | src/common/steam_library.cpp:525-533 | foreign entries followed by one entry per package are split into just those |
| ShortcutSync.SecondPass | src/common/steam_library.cpp:546-595 | the loop over the games, started from the entries it wrote, writes the same entries |
| ShortcutTheorems.SyncKeepsForeign | src/common/steam_library.cpp:525-596 | every foreign entry is kept unchanged, in order and first; one entry per safe package follows; each new key differs from all others |
| ShortcutTheorems.FileKeepsForeign | src/common/steam_library.cpp:513-617 | the same of the two files: what is written reads back with all foreign entries in place |
| ShortcutTheorems.SyncReadsBack | src/common/steam_library.cpp:596-606 | what a sync writes parses to the document it computed |
| ShortcutTheorems.SyncedDocument | src/common/steam_library.cpp:515-524 | nothing in the document outside the shortcuts list changes |
| ShortcutTheorems.SyncListAgain | src/common/steam_library.cpp:525-596 | with the tag that is written: synchronising the new list again gives the same list and count |
| ShortcutTheorems.SyncIsIdempotent | src/common/steam_library.cpp:497-619 | with the tag that is written: synchronising the written file again gives the same bytes, for NUL-free names and paths |
| ShortcutTheorems.SyncOnlyAdds | src/common/steam_library.cpp:145-157 | with the tag the code compares with: the whole old list is kept, RiftLift entries included, and one more entry per safe package is appended |
| ShortcutTheorems.SecondSyncListsAgain | src/common/steam_library.cpp:525-596 | so a second sync of a list is never refused and appends every game again |
| ShortcutIds.SyncSucceedsExactly | src/common/steam_library.cpp:513-606 | exact condition: a sync computes a file if and only if the old one can be read, its list can be made, and the result is within the limits |
| ShortcutIds.TwoSyncsOneGame | src/common/steam_library.cpp:513-617 | with the tag the code compares with, an instance: no file at first, one game, two syncs under any NUL-free names and launcher paths of up to 100000 octets; both succeed and two entries are in the file |
| ShortcutTheorems.SecondSyncChangesFile | src/common/steam_library.cpp:497-619 | exact condition: a second sync succeeds and leaves the file alone if and only if no game has a safe package |
| ShortcutTheorems.SyncedIsListed | src/common/steam_library.cpp:466-496 | with the tag that is written: `listed` is true of the written file, for the same games and executable |
| ShortcutTheorems.ListedOnlyWithoutGames | src/common/steam_library.cpp:466-496 | with the tag the code compares with: `listed` is true of a file only if no game has a safe package |
| ShortcutTheorems.SyncedIsListedWithoutGames | src/common/steam_library.cpp:466-496 | exact condition: after a sync `listed` is true if and only if no game has a safe package |
| ShortcutFile.GamesAreInFile | src/common/steam_library.cpp:466-617 | after a sync, with whatever tag, the written file is readable and its one list `shortcuts` has such an entry for the first game of every safe package |
| ShortcutFile.FirstSyncWrites | src/common/steam_library.cpp:513-606 | with no file at first, a sync of one game writes exactly these octets: layout, field names, values, tag and end markers, least octet first |
| ShortcutFile.OwnedExactly | src/common/steam_library.cpp:145-157 | exact condition, for every tag: `owned_package` gives an entry to a package if and only if its `tags` hold that string and its `LaunchOptions` are `--launch ` and the package, which is safe |
| ShortcutFile.ListedShows | src/common/steam_library.cpp:466-496 | `listed` is true of a file only if each game has an entry of its own with its name, executable and folder |
| SafeNames.SafeExactly | src/common/paths.cpp:66-91 | exactly which packages are safe: file names that Windows accepts (1 to 220 octets, none it refuses, no final dot or blank, no device name in any case and with any extension) of letters, digits, `.`, `_` and `-`, not led by a dot or dash, without double dots |
| ShortcutTheorems.TagDecides | src/common/steam_library.cpp:497-619 | for both tags: a second sync succeeds and leaves the file alone, and `listed` is true of it, if and only if the tag compared with is the one written or no game has a safe package |
| ShortcutTheorems.SyncKeepsId | src/common/steam_library.cpp:550-557 | with the tag that is written: a sync gives each listed package an id that is not zero, and keeps the one it had |
| ShortcutTheorems.RunKeepsId | src/common/steam_library.cpp:550-557 | with the tag that is written: over any run of syncs that all list the package, with any names and executables, its id stays |
| ShortcutIds.NewEntriesAreMade | src/common/steam_library.cpp:546-595 | with the tag the code compares with: every listed game gets a new entry whose id is computed from executable and name |
| ShortcutIds.NewestIdIsComputed | src/common/steam_library.cpp:550-557 | so after any sync the newest entry of a listed package has that id, whatever the id was before |
| ShortcutIds.IdSurvivesExactly | src/common/steam_library.cpp:550-557 | exact condition: from one sync to the next the id of a package's newest entry stays if and only if executable and name give the same id both times |
| ShortcutIds.RenamedGameLosesId | src/common/steam_library.cpp:550-557 | an instance: a game renamed between two syncs of a new file has another id, for launcher paths of up to 100000 octets |
| ShortcutTheorems.RunOnlyAdds | src/common/steam_library.cpp:497-619 | with the tag the code compares with: over any run of syncs the list only grows, by every safe package every time |
| SteamLibrary.ManageEntry | src/common/steam_library.cpp:549-571 | the eight puts and the tag compute `Managed`, and the entry is one Steam starts the game from, field by field |
| SteamLibrary.FindOwnedPackage | src/common/steam_library.cpp:145-157 | `owned_package`, error of duplicate fields included |
| SteamLibrary.SplitList | src/common/steam_library.cpp:525-533 | the first loop computes the foreign list and the map of prior entries |
| SteamLibrary.ListGames | src/common/steam_library.cpp:534-595 | the second loop, with its set of packages, set of keys and counter |
| SteamLibrary.MatchesGames | src/common/steam_library.cpp:483-492 | the loop of `listed` answers true exactly when every game has its settings and every entry its game |
| SteamLibrary.IsListed | src/common/steam_library.cpp:466-496 | `listed`, every failure answered with false |
| SteamLibrary.ShortcutsFile.SyncedBytes | src/common/steam_library.cpp:515-606 | the bytes and the count a sync would write, or the error it throws first |
| SteamLibrary.ShortcutsFile.Sync | src/common/steam_library.cpp:497-619 | which file and backup one sync leaves and what it reports or throws, for each outcome of the probes and a file changed meanwhile, which a late deferral judges as it then is; nothing is written by a failed or deferred sync |
| Redaction.RedactsExactly | src/common/log.cpp:203-234 | with tokens spelled out (`FRL`, or `OC`, a bar, digits and a bar; then twenty or more of A-Z, a-z, 0-9, `_`, `-`): the output is the message with whole tokens, and nothing else, replaced by `<redacted-token>`, and no slice of it that does not continue a word is a token |
| Redaction.NoTokenExactly | src/common/log.cpp:205-229 | a text is free of tokens by the scan's own tests if and only if it is free of tokens |
| Redaction.RedactionLeavesNoToken | src/common/log.cpp:203-234 | no position of the output starts a token at a boundary, and redacting again changes nothing |
| Redaction.RedactionKeepsTheRest | src/common/log.cpp:208-234 | the output is the message with whole tokens, starting at a boundary and ending where token characters end, replaced by the marker, and all else kept in order |
| Redaction.RedactedHasNoToken | src/common/log.cpp:212-232 | the same invariant at every point of the scan |
| Redaction.NulSeparates | src/common/log.cpp:203-234 | two texts joined by a NUL, as tag and text are in a key, are free of tokens if and only if each is |
| Redaction.ScanHead | src/common/log.cpp:214-221 | the length of the head at this position, spelled out: the literal, or the digits between bars; zero exactly if there is none |
| Redaction.FindToken | src/common/log.cpp:222-229 | whether a token of twenty or more characters starts here, and where it ends |
| Redaction.RedactLoop | src/common/log.cpp:208-234 | the index loop, with the early return for a message without either literal: what `RedactsExactly` says holds of its result |
| LogFile.BufferedFile.WritePending | src/common/log.cpp:70-80 | copies the whole buffer to the file, in chunks, in order |
| LogFile.BufferedFile.FlushFile | src/common/log.cpp:81-86 | the file then holds all emitted lines and the buffer is empty |
| LogFile.BufferedFile.Append | src/common/log.cpp:123-146 | file followed by buffer is always the concatenation of all lines emitted; the buffer never overflows, and what it holds after a line is exact: nothing after a warning or error, or when the last flush is an interval ago, and else what it held and the line, as far as they fit |
| LogFile.BufferedFile.Switch | src/common/log.cpp:311-329 | the old file is complete when it is closed |
| LogCounts.SplitKeyIsKey | src/common/log.cpp:164-167 | the level, tag and text a count line takes apart from its key make that key again |
| LogCounts.KeyDetermines | src/common/log.cpp:348-350 | exact condition: a key gives back its tag and its text if and only if the tag has no NUL |
| LogCounts.TwoMessagesOneKey | src/common/log.cpp:348-350 | a tag with a NUL shares its key with another tag and text |
| LogTokens.LinesAreCalls | src/common/log.cpp:341-369 | the lines have the keys of exactly the messages logged: every message has a line, every line is one |
| LogTokens.TokensComeFromTags | src/common/log.cpp:203-204 | exact condition of "no log line keeps one": no tag and no text of any line or table entry has a token in it if and only if no tag logged has |
| LogTokens.TextsStayFree | src/common/log.cpp:203-204 | whatever tokens tags have, texts have none as long as no tag has a NUL |
| LogCounts.TwoPeriods | src/common/log.cpp:173-194 | exact condition on the table: whenever the next message comes, all it finds was last seen less than two periods ago, if and only if nothing was last seen more than a period before the last sweep |
| LogCounts.TwoPeriodsAfter | src/common/log.cpp:339-367 | exact condition on a message: one below a warning keeps this, a warning or error if and only if its clock is at most a period before the last sweep |
| LogCounts.DueInTime | src/common/log.cpp:173-194 | a count is due within two periods of the last copy; a message that comes before then leaves it, one that comes later writes it, and nothing else does |
| LogCounts.CountIsReported | src/common/log.cpp:341-368 | exact condition: another message makes the count of an entry appear if and only if a sweep is due and the entry a period old, or the table is full and the message new |
| LogCounts.LinkedIsNextSpaced | src/common/log.cpp:173-194 | exact condition on lines and table: the next line with a count is a period after those before it, at whatever clock it comes, if and only if no such line is later than what its entry remembers |
| LogCounts.ReportIsApart | src/common/log.cpp:182-192 | the line of a swept entry keeps that |
| LogCounts.WriteIsApart | src/common/log.cpp:358-367 | a written line keeps it if its entry is known, and otherwise if and only if its clock is not before the last line with a count for it |
| LogCounts.CountIsApart | src/common/log.cpp:351-357 | a counted copy keeps it if and only if its clock, or the last sweep, is not before that line |
| LogCounts.ByTheTable | src/common/log.cpp:351-357 | in terms of the table: not before the last report, if that had a count |
| LogCounts.InOrderIsPrompt | src/common/log.cpp:336-369 | a message whose clock is not earlier than any before it meets both conditions |
| LogTimes.OneMoreTimed | src/common/log.cpp:351-368 | a line keeps the times of the lines, and the table's memory of when each message was last written, if its count is timed from there |
| Logger.Log.TimesTold | src/common/log.cpp:157-194 | over all runs, on the lines alone: a line with a count gives the time since the last line before it with the same key |
| Logger.Log.Emit | src/common/log.cpp:114-155 | one more line, in the file or its buffer |
| Logger.Log.EmitReports | src/common/log.cpp:161-169 | the lines the loop writes are the counts of exactly the entries that have one, and nothing is left counted |
| Logger.Log.FlushRepeats | src/common/log.cpp:157-171 | writes exactly the pending counts and forgets all messages; the invariants hold again |
| Logger.Log.Expire | src/common/log.cpp:181-192 | one entry not seen for a period is dropped, and its count is the line written |
| Logger.Log.SweepRepeats | src/common/log.cpp:179-194 | exactly the entries seen within a period stay, unchanged, and the lines written are the counts of the others |
| Logger.Log.CountOnly | src/common/log.cpp:351-357 | a copy within the period is counted and nothing is written; lines with a count stay apart exactly under the condition above |
| Logger.Log.WriteLine | src/common/log.cpp:358-368 | a line is written and its entry starts anew, with the same exactness |
| Logger.Log.Begin | src/common/log.cpp:339-344 | the table a message finds, the counts a sweep has written before it, and that the sweep keeps lines with a count apart |
| Logger.Log.RecordNew | src/common/log.cpp:362-368 | a message without an entry is always written, after writing out a full table |
| Logger.Log.RecordKnown | src/common/log.cpp:351-361 | a message with an entry is written exactly when its last report is a period old, with the count of the copies before it |
| Logger.Log.Enter | src/common/log.cpp:340-368 | the section under the lock: the line written, or the count, and the whole table afterwards, for each level, known or new message and age of its last report |
| LogRuns.LateClock | src/common/log.cpp:339-344 | a run with one late clock that leaves an entry more than two periods old |
| LogRuns.LateCopy | src/common/log.cpp:339-357 | a run with one late copy in which two lines with a count for one message are half a period apart |
| LogRuns.QuietBurst | src/common/log.cpp:173-194 | a run in which a count appears long after two periods, because nothing was logged |
| LogRuns.TokenInTag | src/common/log.cpp:336-338 | a run that writes a token: it was in the tag |
| LogRuns.WaitsInBuffer | src/common/log.cpp:351-357 | a run in which an info line is still in the buffer, almost four flush intervals old, after a warning: that was a copy, and counted |
| LogRuns.WriteInOrder | src/common/log.cpp:336-369 | the corollary for clocks in order: lines with a count stay a period apart, and after a `write` nothing in the table was last seen two periods before it |
| Logger.Log.Write | src/common/log.cpp:336-369 | every `write` keeps the invariant: occurrences written plus occurrences counted are the occurrences logged, for every message; at most 1024 entries; file and buffer hold all lines; lines and entries are free of access tokens, tags and texts alike, if and only if all tags logged are, and texts are if no tag has a NUL. The new table is exact and a sweep's counts are written. Lines with a count stay a period apart if and only if the message is prompt; nothing is last seen more than a period before the last sweep if and only if this is no warning or error with a clock that old, and then all was last seen less than two periods before the message. Every line with a count gives the time since the last line before it for the same message, and new lines have the clock of the message or of the flush. The buffer is exact; a warning or error empties it if and only if a line is written |
| Logger.Log.TokensTold | src/common/log.cpp:203-204 | the condition on tokens is part of the invariant: it holds of the logger after every run of its operations |
| Logger.Log.Flush | src/common/log.cpp:252-256 | afterwards, for every message, the lines stand for exactly what was logged, and the file holds them all; the condition on tokens and both conditions on time hold |
| Logger.Log.SetFile | src/common/log.cpp:311-329 | the same of the file that is closed; the new one starts without entries |
| Utf8.EncodeIsUtf8 | compat/riftlift-platform-shim.c:193-205 | what `put_utf8` writes for a scalar value is the one sequence of RFC 3629, section 4, that stands for it |
| Utf8.SequenceIsEncoded | compat/riftlift-platform-shim.c:193-205 | and every such sequence is written for the value it stands for |
| JsonGrammar.StringReadsBack | compat/riftlift-platform-shim.c:218-258 | every string of RFC 8259, section 7, reads as the octets it stands for: short escapes, surrogate pairs in one, lone surrogates as they are |
| JsonText.WrittenObjectIsRead | compat/riftlift-platform-shim.c:218-311 | `json_get` reads what any serialiser of RFC 8259 writes, spelled out octet by octet: every text under every way of escaping each character, every integer, any white space around every token; the answer is the first pair's text in UTF-8 or numeral, if it fits |
| JsonText.DigitsRead | compat/riftlift-platform-shim.c:207-217 | the four hexadecimal digits of every code, in either case, are read as that code |
| JsonText.EscapeLetters | compat/riftlift-platform-shim.c:233-239 | the eight letters after a backslash and what they stand for, in numbers; no other is accepted |
| JsonText.LetterDecodes | compat/riftlift-platform-shim.c:218-258 | every way of writing a character decodes to its UTF-8: as itself, by a letter, by one escape or by a surrogate pair |
| JsonGrammar.UnicodeStep | compat/riftlift-platform-shim.c:240-251 | a `\u` escape takes a following one exactly when the two are a surrogate pair |
| JsonGrammar.SkipBrackets | compat/riftlift-platform-shim.c:260-280 | from its first to its last bracket a nested value returns the loop to the depth it had, whatever brackets its strings hold |
| JsonGrammar.SkipValueLands | compat/riftlift-platform-shim.c:260-280 | for every value, `json_skip_value` stops at the comma or brace after it |
| JsonGrammar.IntegerIsCut | compat/riftlift-platform-shim.c:300-303 | an integer is returned whole if it fits, otherwise its beginning |
| JsonGrammar.ValueReadsBack | compat/riftlift-platform-shim.c:299-303 | a string is returned decoded if it fits and refused if not; a number as far as it fits; other values not |
| JsonGrammar.MembersReadBack | compat/riftlift-platform-shim.c:290-310 | the loop over members is the lookup of the first member with the key |
| JsonGrammar.GetReadsBack | compat/riftlift-platform-shim.c:284-311 | `json_get` inverts serialisation: for every object of the grammar, any white space and nesting, it returns the value of the first member with the key, or false |
| JsonGrammar.NamesExactly | compat/riftlift-platform-shim.c:298 | exact condition: the comparison is equality of names, if and only if the name is not one cut at a NUL to the key, and the key, if it is the name, is shorter than 64 octets |
| JsonGrammar.CutNameIsTaken | compat/riftlift-platform-shim.c:298 | for every key of up to 62 octets, an object on which this fails: its only name is the key and an escaped NUL, and its value is returned for the key |
| JsonGrammar.LongKeyIsMissed | compat/riftlift-platform-shim.c:298 | and for every key of 64 octets or more: the only name is the key, and nothing is returned |
| JsonGrammar.GetIsFirstNamed | compat/riftlift-platform-shim.c:284-311 | for NUL-free names and keys shorter than 64 octets `json_get` returns the value of the first member named by the key |
| ShimJsonReader.PutUtf8 | compat/riftlift-platform-shim.c:193-205 | the octets go to the buffer as far as they fit and the length counts them all |
| ShimJsonReader.ReadUnicode | compat/riftlift-platform-shim.c:240-251 | one escape, with its partner if there is one |
| ShimJsonReader.ReadString | compat/riftlift-platform-shim.c:218-258 | the loop decodes the string of the specification, terminates the buffer and returns where the text goes on |
| ShimJsonReader.SkipJsonValue | compat/riftlift-platform-shim.c:260-280 | the do-while loop returns the position of the specification |
| ShimJsonReader.ReadName | compat/riftlift-platform-shim.c:291-298 | name, colon and the comparison with the key |
| ShimJsonReader.ReadValue | compat/riftlift-platform-shim.c:298-304 | string or number, or false |
| ShimJsonReader.JsonGet | compat/riftlift-platform-shim.c:284-311 | the whole search over the buffer it fills |
| ShimQueue.Queue.NewMessage | compat/riftlift-platform-shim.c:154-163 | request ids strictly increase over all threads |
| ShimQueue.Queue.Push | compat/riftlift-platform-shim.c:139-152 | the ring is a queue that keeps the 63 newest: the oldest is freed exactly when 63 are waiting |
| ShimQueue.Queue.DropOldest | compat/riftlift-platform-shim.c:144-148 | the head of a full ring is freed |
| ShimQueue.Queue.Append | compat/riftlift-platform-shim.c:149-150 | the message joins the end of the queue |
| ShimQueue.Queue.Pop | compat/riftlift-platform-shim.c:974-994 | the oldest message is delivered, once, or none if the queue is empty |
| ShimQueue.Queue.Free | compat/riftlift-platform-shim.c:1225-1235 | a delivered message is freed, and anything that is not the shim's is passed on; every message ever issued stays in exactly one of in flight, queued, held, freed |
| ShimQueue.DeliveredInPushOrder | compat/riftlift-platform-shim.c:139-152 | over any run, the messages delivered are those pushed at increasing positions: in push order and each at most once |
| CommandLine.BodyReadsBack | runtime/windows-launcher/CommandLine.h:33-53 | inside quotes, the parser recovers the backslashes and characters of any argument |
| CommandLine.QuotedReadsBack | src/common/process.cpp:4-22 | a quoted argument parses to itself, under both rules runtimes have for two quotes in a row |
| CommandLine.PlainReadsBack | runtime/windows-launcher/CommandLine.h:8-25 | so does every argument that is left unquoted |
| CommandLine.BareReadsBack | runtime/windows-launcher/CommandLine.h:5-25 | exact condition: without quotes an argument parses to itself if and only if it is not empty and has no space, tab or quote |
| CommandLine.QuotesAreNeeded | runtime/windows-launcher/CommandLine.h:5-25 | an argument is quoted exactly when it would otherwise split, vanish or lose a quote, or has a line feed or vertical tab |
| CommandLine.PrintedPlain | runtime/windows-launcher/CommandLine.h:5-25 | in characters: an argument without quotes and backslashes is printed as it is, between quotes if it is empty or has a blank, tab, line feed or vertical tab |
| CommandLine.PrintedQuote | runtime/windows-launcher/CommandLine.h:33-53 | backslashes before a quote are doubled, and one more escapes it |
| CommandLine.PrintedEnd | runtime/windows-launcher/CommandLine.h:33-53 | backslashes at the end are doubled |
| CommandLine.PrintedInside | runtime/windows-launcher/CommandLine.h:33-53 | all others are printed as they are |
| CommandLine.LineFeedIsQuoted | runtime/windows-launcher/CommandLine.h:5-25 | an argument that is quoted though it would read back: a line feed |
| CommandLine.ArgumentsReadBack | runtime/windows-launcher/CommandLine.h:56-66 | every list of arguments after the program name parses to itself |
| CommandLine.ProgramReadsBack | runtime/windows-launcher/CommandLine.h:27-54 | a program name parses to itself exactly when it needs no quotes, or has no quote and does not end in a backslash |
| CommandLine.CommandLineReadsBack | runtime/windows-launcher/CommandLine.h:56-66 | exact condition: the whole line parses to the list if and only if its program name does |
| CommandLine.DirectoryIsLost | runtime/windows-launcher/CommandLine.h:27-66 | for all program names with a space in them and a backslash at the end it does not |
| CommandLine.QuoteArgument | runtime/windows-launcher/CommandLine.h:27-54 | the loop with its backslash counter prints `QuotedIfNeeded` |
| CommandLine.QuoteWindowsArg | src/common/process.cpp:4-22 | the loop prints `Quoted` |
| CommandLine.BuildCommandLine | runtime/windows-launcher/CommandLine.h:56-66 | the loop prints the arguments from the first one on, with single spaces |
| PipeFrames.WantedInFrame | src/common/ipc.cpp:40-48 | in the middle of a frame the receiver asks for exactly the rest of it |
| PipeFrames.FrameOctets | src/common/ipc.cpp:28-35 | a frame in octets: the length, least octet first, and the message; from 1 to 1048576 octets can be sent |
| PipeFrames.FrameIsReceived | src/common/ipc.cpp:24-53 | a frame sent is received whole, whatever follows on the stream |
| PipeFrames.Pipe.Send | src/common/ipc.cpp:24-36 | one frame is written, or, for a message that is empty or too large, nothing at all |
| PipeFrames.Pipe.Receive | src/common/ipc.cpp:37-53 | the frame at the front is taken off the stream, or the exact error is thrown |
| PipeRpc.ReadLeaves | src/common/ipc.cpp:37-53 | a read of any size leaves the rest of the response on the stream, or completes it |
| PipeRpc.StepKeepsInv | src/common/ipc.cpp:24-74 | every step of every caller and of the server keeps the invariant |
| PipeRpc.RunsKeepInv | src/common/ipc.cpp:24-74 | so it holds after every interleaving |
| PipeRpc.RunsAreSafe | src/common/ipc.cpp:54-74 | in every run, a response is the answer to the caller's own request, no two callers share one, and while the server runs both streams are empty between calls |
| PipeRpc.StreamsAreRemainders | src/common/ipc.cpp:24-74 | in every run, also after the server has stopped or a message was refused, each stream holds only octets that stand together in one frame that was to be sent |
| PipeRpc.CallSucceeds | src/common/ipc.cpp:54-74 | and calls do succeed: after any run with a live server and nobody in a call, any request and response that fit can be exchanged |
| PipeRuns.AnswersAreGiven | src/common/ipc.cpp:60-72 | in every run the answers are those the handler gave, in order, and the broker's message where it threw |
| PipeRuns.RequestsAreAsked | src/common/ipc.cpp:54-58 | in every run, what is sent, and what a caller is busy with, is what it was called with |
| PipeRuns.CallsAreNeverStuck | src/common/ipc.cpp:24-74 | in every run, as long as a caller is in a call or waits for one, some step other than a new call or the end of the server can be taken |
| PipeRuns.CallsEnd | src/common/ipc.cpp:24-74 | and there are at most so many such steps, by a bound on the octets still to pass: so every call ends |
| LayerRegistry.ConcludeKeepsOther | runtime/openxr-layer/OpenXRLayer.cpp:68-120 | and takes no object from a call that external synchronisation lets run beside it |
| LayerRegistry.StepKeepsInv | runtime/openxr-layer/OpenXRLayer.cpp:28-176 | every start and end of a call, in any thread, keeps the invariant |
| LayerRegistry.RunsKeepInv | runtime/openxr-layer/OpenXRLayer.cpp:28-176 | so it holds in every reachable state, even if the runtime issues handles again |
| LayerRegistry.ReachableIsSafe | runtime/openxr-layer/OpenXRLayer.cpp:28-176 | from the empty registry on: every space's session and every session's instance is registered, and so is what calls in the runtime use |
| LayerRegistry.HeldAfter | runtime/openxr-layer/OpenXRLayer.cpp:68-159 | a step removes a handle exactly if it is a successful destruction of it or of what it belongs to, registers one exactly if it is a creation, and leaves all else as it was |
| LayerRegistry.RefusedExactly | runtime/openxr-layer/OpenXRLayer.cpp:28-176 | exactly when a call is refused, with -12 or -7; otherwise it enters the runtime |
| LayerRegistry.OnlyFailuresAreNegative | runtime/openxr-layer/OpenXRLayer.cpp:68-141 | a negative result changes nothing; any other removes, or registers, as zero does |
| LayerRegistry.HeldStays | runtime/openxr-layer/OpenXRLayer.cpp:68-176 | over any run that does not destroy it or its owners, a handle keeps its object |
| LayerRegistry.DestroyedStaysInvalid | runtime/openxr-layer/OpenXRLayer.cpp:68-176 | after a successful destruction every call on the handle or a descendant returns XR_ERROR_HANDLE_INVALID, over any run that does not create it again |
| LayerRegistry.CreatedIsHeld | runtime/openxr-layer/OpenXRLayer.cpp:86-141 | exact condition: what was created is registered if and only if its handle was not, or is a space's registered for the same session |
| LayerRegistry.CreatedStays | runtime/openxr-layer/OpenXRLayer.cpp:68-141 | exact condition over runs: what was created stays registered, as long as no destruction of it or its owners is started, if and only if it was registered when it was created and no such destruction in the runtime at that time succeeds |
| LayerRegistry.ReissuedHandleIsLost | runtime/openxr-layer/OpenXRLayer.cpp:72-82 | a run in which a handle issued again before the erase is created, never destroyed, and not registered |
| LayerRegistry.ReissuedSpaceIsLost | runtime/openxr-layer/OpenXRLayer.cpp:148-158 | the same for every registered space |
| LayerRegistry.Layer.EraseInstance | runtime/openxr-layer/OpenXRLayer.cpp:75-81 | the two iterator loops and the erase remove exactly the instance, its sessions and its spaces |
| LayerRegistry.Layer.EraseSession | runtime/openxr-layer/OpenXRLayer.cpp:114-117 | the iterator loop and the erase remove exactly the session and its spaces |
| LayerRegistry.Layer.CreateInstance | runtime/openxr-layer/OpenXRLayer.cpp:206-234 | a successful creation is emplaced, a failed one changes nothing |
| LayerRegistry.Layer.DestroyInstance | runtime/openxr-layer/OpenXRLayer.cpp:68-84 | result and maps of a whole call, error codes included |
| LayerRegistry.Layer.CreateSession | runtime/openxr-layer/OpenXRLayer.cpp:86-104 | the same |
| LayerRegistry.Layer.DestroySession | runtime/openxr-layer/OpenXRLayer.cpp:106-120 | the same |
| LayerRegistry.Layer.CreateSpace | runtime/openxr-layer/OpenXRLayer.cpp:122-141 | the same |
| LayerRegistry.Layer.DestroySpace | runtime/openxr-layer/OpenXRLayer.cpp:148-159 | the same |
| LayerRegistry.Layer.LocateSpace | runtime/openxr-layer/OpenXRLayer.cpp:46-57 | the result, and the time the runtime is asked for: the caller's, unless that is zero, the instance OVRPlugin's and the runtime can convert the clock |
| LayerRegistry.Layer.LocateViews | runtime/openxr-layer/OpenXRLayer.cpp:167-177 | the same, and that a call without information is passed on unchanged |
| Search.OnlySpellingsMatter | src/common/search.cpp:72-91 | exact condition, for all code points, anywhere in a text: another code point in the place of one that belongs to words changes no word if and only if it belongs to words too and has the same plain spelling |
| Search.SpelledAlike | src/common/search.cpp:7-46 | two different code points have the same plain spelling if and only if ASCII letter case or the table spells them alike |
| Search.LettersAlone | src/common/search.cpp:72-91 | so, alone, two different letters are one word if and only if that is so |
| SearchAccents.AccentsDoNotMatter | src/common/search.cpp:7-91 | exact condition, for all 252 canonical decompositions Unicode has for letters from U+00C0 to U+024F: base letter and combining mark in the place of the letter, anywhere in a text, change no word if and only if the letter is not one of eight (accented ae, o with stroke, ezh) |
| SearchAccents.LettersStandFor | src/common/search.cpp:7-46 | the other letters of the table are words like their ASCII letters, anywhere in a text: ae, oe, ij, dz, lj, nj, ss, o and l and d with stroke, long s |
| SearchAccents.TableHas | src/common/search.cpp:7-46 | the table has no others |
| SearchAccents.OthersKeepThemselves | src/common/search.cpp:72-91 | exact condition: a letter of the range is its own word if and only if it is not among them |
| SearchAscii.WordsOfAscii | src/common/search.cpp:72-91 | on ASCII, words are the runs of letters and digits, in small letters, with apostrophes passed over |
| SearchAscii.BeyondAscii | src/common/search.cpp:62-69 | beyond, in numbers: which code points are no part of words; those of all other scripts are words as they are |
| SearchAscii.JoinsWords | src/common/search.cpp:62-63 | the apostrophes and combining marks among them, in numbers, do not end a word |
| SearchAscii.EndsWords | src/common/search.cpp:64-69 | every other one of them stands for a space |
| Search.CaseMatters | src/common/search.cpp:7-46 | letters whose cases are different words: eth; sharp s and its capital U+1E9E; omega |
| Search.AccentMatters | src/common/search.cpp:7-46 | an accented letter that is not the plain one: U+1EBF |
| Search.MarksDoNotMatter | src/common/search.cpp:62-63 | an apostrophe or combining accent, anywhere in a text, changes no word |
| Search.SeparatorsAreOne | src/common/search.cpp:64-69 | one separator in the place of another, anywhere in a text, changes no word |
| Search.NoWordAlone | src/common/search.cpp:62-69 | exact condition: a code point alone is no word if and only if it is one of these |
| Search.PunctuationMatters | src/common/search.cpp:64-69 | punctuation that is a word: the fullwidth colon, the Arabic comma |
| Search.CaseDoesNotMatter | src/common/search.cpp:7-46 | the corollary for the two cases of a letter that are both from U+00C0 to U+024F: case does not matter if and only if the table has the letter |
| Search.NextReadsEncoded | src/common/search.cpp:48-61 | what UTF-8 encodes, `next` decodes, using exactly its octets |
| Search.InvalidReads | src/common/search.cpp:48-61 | exact condition: an invalid octet reads as itself, and as no more, if and only if it is no continuation octet and is cut off, is no first octet, or is followed by no continuation octet |
| Search.StrayReads | src/common/search.cpp:50-60 | a continuation octet alone reads as its low six bits |
| Search.BrokenReads | src/common/search.cpp:53-58 | a broken sequence reads as its first octet and uses up the continuation octets before the break |
| Search.WordsAreWords | src/common/search.cpp:72-91 | no text yields an empty word or a word with a space in it |
| Search.WordsOfUtf8 | src/common/search.cpp:72-91 | on valid UTF-8 the loop over octets computes the words of the scalar values |
| Search.WordsAgain | src/common/search.cpp:72-91 | `words` is a normal form: the words of valid UTF-8, joined by spaces, have the same words |
| Search.SelectionIsRead | src/common/search.cpp:72-91 | so has any selection of them, in any order and with repetitions |
| Search.NotUtf8NotNormal | src/common/search.cpp:49-61 | an input that is not UTF-8 for which this fails |
| Search.OccursInSpaced | src/common/search.cpp:94-97 | a word is found in the joined title exactly if it is part of one of the title's words |
| Search.MatchesByWord | src/common/search.cpp:93-99 | on every input, a query matches exactly if each of its words is part of one of the title's words |
| Search.TitleWordsMatch | src/common/search.cpp:93-99 | a title is found by any of its words in any order |
| Search.QueryOrderIsIrrelevant | src/common/search.cpp:93-99 | permuting a query's words, or writing them as `words` spells them, changes no answer |
| Search.TitleOrderIsIrrelevant | src/common/search.cpp:93-99 | nor does the same in the title |
| Search.ReadNext | src/common/search.cpp:49-61 | the loop over continuation octets, with the position it leaves on failure |
| Search.SplitWords | src/common/search.cpp:72-91 | the loop with its current word computes `Words` |
| Search.MatchQuery | src/common/search.cpp:93-99 | the two loops answer `Matches` |
| HostNames.GuestRoundTrip | src/common/paths.cpp:43-65 | a guest name survives storing and reading back if and only if it has no escape of a forbidden octet in it |
| HostNames.GuestOfHost | src/common/paths.cpp:43-65 | in general, storing and reading back only decodes the escapes the name had |
| HostNames.StoredNamesDiffer | src/common/paths.cpp:43-52 | so two different names without one are never stored under one name |
| HostNames.HostRoundTrip | src/common/paths.cpp:43-65 | a host name survives reading and storing if and only if it has no forbidden octet |
| HostNames.HostNameIsSafe | src/common/paths.cpp:43-52 | a stored name never has a forbidden octet |
| HostNames.StoredInPrivateUse | src/common/paths.cpp:29-52 | in characters: control characters, angle brackets, colon, quotation mark, bar, question mark and asterisk are stored as the code points U+F000 higher in UTF-8, everything else as it is, and a stored name has none of them |
| HostNames.EscapesArePrivateUse | src/common/paths.cpp:53-65 | the names that do not survive are those with such a code point in them |
| HostNames.ToHost | src/common/paths.cpp:43-52 | the loop computes `HostName` |
| HostNames.ToGuest | src/common/paths.cpp:53-65 | the loop with its skipping index computes `GuestName` |

## Left out

- Artwork: absent, so the icon field is never set; the duplicate test of that field is kept. Account selection, the
  text reader for login users, target checks, the lock file and the probes are parameters or missing.
- `ShortcutsFile.Sync`: file reads and writes succeed; the probes of the program are a triple of booleans, the file's
  content when it is looked at again is a parameter.
- ShortcutTheorems.SyncIsIdempotent: for the tag that is written; the program compares with another one, for which
  `SecondSyncChangesFile` says exactly when a second sync changes nothing (`TagDecides` is about both). Artwork that a
  second sync finds new is absent.
- ShortcutTheorems.SyncListAgain: as for `SyncIsIdempotent`, on lists.
- ShortcutTheorems.SyncedIsListed: for the tag that is written; for both see `TagDecides`.
- ShortcutTheorems.SyncKeepsId: for the tag that is written; for the other one see `IdSurvivesExactly`.
- ShortcutTheorems.RunKeepsId: as for `SyncKeepsId`, over runs.
- ShortcutEntries.ManagedIsOwned: for the tag that is written; for any other one see `NewIsOwned`.
- Integer widths: sizes, positions and counters are unbounded except where 32 bits matter (CRC, stored integers).
- Log line formatting is an arbitrary function `render` of level, tag, text, clock and count. The level filter, the
  console, stderr, the terminal handoff and crash mode are not modelled; raw writes reach the file.
- Logger.Log.Write: says nothing of the order in which a sweep or a flush writes its counts, which is the hash table's.
- The period is fixed for a logger; changing it between messages is not modelled.
- Shim: `hex4` accepts what `strtoul` accepts and the reader can look past malformed text; `ShimJson` is exact for four
  hexadecimal digits and says nothing about reads behind a terminator. Text, error and id fields of messages, failing
  allocations and failing threads are not modelled.
- ShimQueue.Queue.Free: a message handed back twice, whose memory is gone, is not modelled.
- PipeFrames.Pipe.Receive: the stream holds all that will come; waiting for more is modelled by the steps of `PipeRpc`.
- Search.NotUtf8NotNormal: an input; which texts that are not UTF-8 have stable words is not characterised. The code
  promises it of UTF-8 only.
- JsonGrammar.GetReadsBack: texts outside the grammar are not covered.
- The JSON library and the handler of the credential channel are arbitrary, except that parsing a dump gives the value
  back. Closing the caller's end, and blocking or dying threads, are not modelled; `Stop` may happen at any time.
- Layer: loader negotiation, `getProc`, `getProperties`, the checks before `createInstance` reaches the runtime, failing
  allocations and the handles given back to applications. An instance's functions do not change.
- HostNames covers Windows hosts; on others both mappings are the identity.
- Everything else in the repository: graphics, OpenVR and OpenXR sessions, haptics, sockets, processes, the registry,
  the user interface, updates, packaging.
