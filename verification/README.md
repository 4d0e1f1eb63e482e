# Verified models of a Redis core

A Dafny model of the parts of the vendored Redis server (`backend/redis-stable/src`) whose correctness is least
visible in the code: the append-only log and its crash recovery, the bit commands, access control rules,
blocked clients, background jobs, the linked list under them, cluster routing and configuration rewriting.

The model follows the C code branch by branch and states what the code is for as independent definitions:
an infinite bit array with mathematical integers for BITFIELD, a count of keys per bit for BITOP, the execution
trace of a fed command sequence for the append-only log, overwritten permission points for ACL rules, a sequence of
nodes for the linked list, and step relations for the rewrite protocol and the background threads. The rewrite protocol
refines a machine without files, the loaders of the log and of the manifest and the splitter of arguments formats without a
reader, and glob matching a meaning without a search.

| module | what it models |
|---|---|
| `CString`, `SdsArgs`, `SdsFormat` | C and sds string helpers: numbers, lines, case, quoting and splitting of arguments, and the lines that split |
| `AofText`, `AofLoad`, `AofFormat`, `AofFeed`, `AofWriter` | the log text, the truncation-tolerant loader, the format without a reader, SELECT insertion, the buffered writer |
| `AofManifest`, `AofManifestText`, `AofManifestExact`, `AofManifestFormat` | the manifest, its file, which manifests survive the file, and which files are manifests |
| `AofProtocol`, `AofRewrite`, `AofRestart`, `AofLosses` | the rewrite protocol with crashes between any two steps, the start after a crash, and the runs that lose a file |
| `AofIdeal`, `AofHistory`, `AofGivenUp` | the same protocol without files, which every run refines, what the steps alone tell, and a run that replays commands twice |
| `Bits`, `BitCount`, `BitRange`, `Bitpos` | bit vocabulary, population count, BITCOUNT, BITPOS |
| `Bitop`, `BitopCommand` | BITOP: byte accumulators, four-word loops, the command |
| `Bitfield`, `BitfieldCommand` | bit fields, overflow checks, the BITFIELD interpreter |
| `AclRules`, `AclText`, `AclReplay`, `AclState`, `Acl` | ACL command rules: meaning, string form, replay, the selector object |
| `BlockedIndex`, `BlockedWorld`, `Blocked` | clients blocked on keys: the index, a round as a function, the server object |
| `Bio` | background job threads as interleaved steps |
| `Adlist` | the doubly linked list |
| `Glob`, `ClusterSlot`, `ClusterRoute` | glob matching, hash slots, request routing |
| `ConfigRewrite` | CONFIG REWRITE |

`dafny verify dfyconfig.toml` checks everything.

## Where the code falls short of a property

Each of these is stated with its exact condition.

- A log cut inside a command that belongs to a transaction is recovered with the transaction still open in the file;
  what is appended next is queued and lost at the next load (`AofLoad.OpenAfterRecovery`, `AofLoad.AppendAfterRecovery`,
  `AofLoad.RecoveryCanLoseAppends`).
- A manifest name with a single quote and no other special character is written unquoted; the manifest then cannot be
  loaded, or comes back with another name (`SdsArgs.QuotedSurvives`, `AofManifestExact.OwnManifestLoads`).
- A rewritten manifest that is renamed into place but reported as failed, because the directory could not be synced, is
  persisted with a BASE that the error path then deletes (`AofRestart.LateErrorLosesTheBase`).
- The same late error when a new INCR file is opened leaves a manifest that lists a file the server does not know. A later
  rewrite can reuse its name and delete it (`AofLosses.TrailingUnlinked`), and a crash that tears the file being written
  makes the next start fail (`AofRestart.RestartLosesOnlyTheBuffer`).
- A start that finds no INCR file in the manifest numbers them from one again and opens the file for appending. If history
  still lists that name the file in use is deleted (`AofLosses.NewFileUnlinked`, `AofRestart.DeletionKeeps`); if a crashed
  rewrite left a file of that name its commands are replayed later (`AofLosses.LeftoverReplayed`,
  `AofRestart.BootAppends`).
- A start of the append-only file that is given up because the fork failed leaves its temporary file open, and an open file
  stands for an enabled log: a rewrite then done with the file off keeps the last old INCR file behind the new BASE, and the
  next load applies its commands a second time (`AofGivenUp.GivenUpReplaysTwice`).
- Commands left in the buffer when a rewrite forks are replayed twice (`AofRestart.RewriteWithResidue`).
- BITFIELD SET under SAT stores the maximum for negative values in unsigned fields and for very small values in signed
  ones (`BitfieldCommand.StoresIdeal`).
- An ACL first argument with a separator or a quote is accepted but cannot be rebuilt from the rules string
  (`AclState.FirstArgReplays`, `AclState.ReplaysExactly`). One with a quote goes when a rule about its command is added
  (`AclState.CommandRuleCleans`); of one with a space the rest stays in the string (`AclText.SpaceLeavesRest`).
- A glob pattern with more than 1000 stars can miss a string that fits it, and no pattern of stars matches the empty string
  (`Glob.LimitIsReached`, `Glob.MatchesExactly`).
- Commands whose id does not fit the bitmap are allowed by the ALLCOMMANDS flag alone (`AclState.FlagDecides`).

## Model

| member | source | states |
|---|---|---|
| `AofText.ParsePrinted` | backend/redis-stable/src/aof.c:1356-1379 | a command printed by the log writer is read back as that command with its exact length, whatever bytes follow and whatever bytes its arguments hold |
| `AofText.ParseCut` | backend/redis-stable/src/aof.c:1573-1623 | a printed command cut at any byte inside is a short read, never a format error |
| `AofLoad.LoadFile` | backend/redis-stable/src/aof.c:1483-1737 | the load loop with its fake client and its two recovery offsets computes the outcome of `Load`, which the rows of `AofFormat` give for every file, and leaves the file cut to the size it reports and untouched if it fails |
| `AofLoad.LoadWholeLog` | backend/redis-stable/src/aof.c:1557-1680 | loading a whole log executes every command and transaction of it; it succeeds exactly when no transaction is left open |
| `AofLoad.LoadPrefix` | backend/redis-stable/src/aof.c:1557-1719 | loading any byte prefix of a log reports no format error, executes exactly the whole commands and whole transactions inside it, and cuts the file back to a command boundary |
| `AofLoad.ReloadAfterRecovery` | backend/redis-stable/src/aof.c:1660-1719 | the recovered file loads to the same execution as the recovery itself |
| `AofLoad.AppendAfterRecovery` | backend/redis-stable/src/aof.c:1660-1719 | what the server appends to the recovered file is replayed as executed, for every continuation, if and only if the recovered file has no open transaction |
| `AofLoad.OpenAfterRecovery` | backend/redis-stable/src/aof.c:1660-1719 | on logs without nested MULTI, recovery leaves a transaction open if and only if the cut falls strictly inside a command that belongs to a transaction |
| `AofLoad.RecoveryCanLoseAppends` | backend/redis-stable/src/aof.c:1660-1719 | a concrete log (MULTI and one byte of the next command) whose recovered file swallows what is appended next |
| `AofLoad.OpenBlockRanNothing` | backend/redis-stable/src/aof.c:1634-1655 | a transaction still open at the end has executed nothing since its MULTI |
| `AofLoad.TransactionRunsAll` | backend/redis-stable/src/aof.c:1637-1652 | a whole transaction does what its commands do one after the other |
| `AofFormat.EntryTaken` | backend/redis-stable/src/aof.c:1573-1623 | every entry of the format, a command with any count and length lines that say what follows or an annotation, is taken off the front with its exact length and value |
| `AofFormat.EntryOf` | backend/redis-stable/src/aof.c:1573-1623 | and nothing else is: what the reader takes for an entry is one |
| `AofFormat.UnfinishedExactly` | backend/redis-stable/src/aof.c:1573-1623 | the reader reports the end of the file inside a command if and only if the bytes end inside a command: fewer arguments than the count line says, or an argument shorter than its length line says |
| `AofFormat.LoadExactly` | backend/redis-stable/src/aof.c:1557-1737 | entries and a rest: loaded if the rest is empty and no transaction is open; cut back to before that transaction if one is, and behind the last command if the rest ends inside a command; failed for any other rest that begins no entry |
| `AofFormat.LoadsExactly` | backend/redis-stable/src/aof.c:1557-1737 | any bytes load if and only if they are entries of known commands without an open transaction, and are cut back if and only if they end inside a command or an open transaction; all others but the empty file fail |
| `AofFormat.OtherByteFails` | backend/redis-stable/src/aof.c:1580-1581 | a printed log followed by a byte that begins neither a command nor an annotation fails, whatever comes after it |
| `AofFormat.LowCountFails` | backend/redis-stable/src/aof.c:1583-1585 | so does one followed by a count line below one |
| `AofFormat.NoDollarFails` | backend/redis-stable/src/aof.c:1594-1604 | so does one followed by a command in which something else stands where an argument should begin |
| `AofFormat.UnknownFails` | backend/redis-stable/src/aof.c:1625-1633 | so does one followed by a whole unknown command |
| `AofFormat.AnnotationsChangeNothing` | backend/redis-stable/src/aof.c:1580-1580 | a file with annotations between its commands loads as the log of its commands alone: same execution, same outcome |
| `CString.NumberExactly` | backend/redis-stable/src/aof.c:1584-1584 | white space and one sign are skipped and digits read as far as they go, as many as there are; without digits the number is zero |
| `AofFeed.SelectTextIsPrinted` | backend/redis-stable/src/aof.c:1408-1447 | the SELECT the writer formats by hand is the printed SELECT command for that database |
| `AofFeed.FeedIsLog` | backend/redis-stable/src/aof.c:1408-1447 | the bytes a sequence of feeds appends are the log of the commands with the SELECTs put in |
| `AofFeed.ReplayOfFeeds` | backend/redis-stable/src/aof.c:1408-1447 | loading the bytes of any sequence of feeds executes the fed commands with their transactions, each in the database it was fed for |
| `AofFeed.FeedsInStep` | backend/redis-stable/src/aof.c:1408-1447 | the loader's client and the writer's selected database stay in step over every sequence of feeds, also across transactions |
| `AofFeed.CutInStep` | backend/redis-stable/src/aof.c:1408-1447 | the same for a log cut at any byte: the commands run are those of the whole feeds, and a cut right behind a SELECT runs nothing of its feed |
| `AofWriter.Writer.constructor` | backend/redis-stable/src/aof.c:1009-1076 | a writer on a new INCR file: nothing fed, nothing buffered, no database selected |
| `AofWriter.Writer.Feed` | backend/redis-stable/src/aof.c:1408-1447 | a feed appends its text to the buffer and nothing else; file and buffer together stay the text of everything fed |
| `AofWriter.Writer.Write` | backend/redis-stable/src/aof.c:1108-1125 | interrupted calls are skipped and short writes retried: it returns the smaller of the buffer's length and the bytes accepted before the first error, -1 if that is an error with none, and the file grows by exactly that prefix of the buffer |
| `AofWriter.Writer.WriteOut` | backend/redis-stable/src/aof.c:1217-1320 | all of the buffer reaches the file if as much is accepted; if not, what was written is cut off again if that works and else kept, the rest stays buffered and the process exits under `always`; no byte is lost, duplicated or reordered |
| `AofWriter.Writer.TryFsync` | backend/redis-stable/src/aof.c:1322-1353 | exactly when an fsync is due (under `always` at every flush, under `everysec` after a second, never while held back), what it covers and what it leaves; under `always` a failed one ends the process |
| `AofWriter.Writer.Flush` | backend/redis-stable/src/aof.c:1146-1354 | a flush writes nothing while an unforced one waits for a running fsync, at most two seconds, and else as `WriteOut` says, forced or not; under `always` all that was written is then synced, and whatever the operating system answers the writer stays valid or the process exits |
| `AofWriter.CrashRecovers` | backend/redis-stable/src/aof.c:1146-1354 | whatever prefix of the fed text a crash leaves in the file, loading it reports no format error and executes exactly the feeds that are whole in it, with their transactions, each in the database it was fed for |
| `SdsArgs.SplitQuoted` | backend/redis-stable/src/sds.c:1054-1162 | an argument written by the quoting rule and followed by a space is read back as that argument |
| `SdsArgs.QuotedSurvives` | backend/redis-stable/src/sds.c:991-1002 | a non-empty byte string survives quoting and splitting if and only if it needs escapes or has no single quote, which the rule that asks for escapes does not look for |
| `SdsArgs.SplitReread` | backend/redis-stable/src/sds.c:1054-1162 | what the splitter makes of any quoted argument in front of others: the argument, the argument with a pair of single quotes lost, or an error for unbalanced quotes |
| `SdsArgs.SplitSpaced` | backend/redis-stable/src/sds.c:1054-1162 | words that survive quoting, written one after the other, are split into the same words |
| `SdsFormat.SplitsExactly` | backend/redis-stable/src/sds.c:1054-1162 | any text splits into arguments if and only if it is a line of words, each a plain part and perhaps a part in double or single quotes that white space or the end follows, and then into the values of those words |
| `SdsFormat.WordRead` | backend/redis-stable/src/sds.c:1064-1140 | one such word is taken off the front with its value: in double quotes escapes and hexadecimal bytes are replaced, in single quotes only the escaped quote |
| `SdsFormat.HexExactly` | backend/redis-stable/src/sds.c:1006-1041 | the hexadecimal digits are the ten digits and six letters in either case, with their values |
| `AofManifest.NamesDiffer` | backend/redis-stable/src/aof.c:439-477 | base and incr file names are different for different sequence numbers and kinds |
| `AofManifest.NewBaseKeeps` | backend/redis-stable/src/aof.c:439-458 | a new BASE keeps the manifest well formed, its name was never issued, and the old BASE becomes history |
| `AofManifest.NewIncrKeeps` | backend/redis-stable/src/aof.c:467-477 | a new INCR keeps the manifest well formed, its name was never issued and it is last |
| `AofManifest.MarkRewrittenIncrAofAsHistory` | backend/redis-stable/src/aof.c:505-535 | the loop from the tail moves every INCR entry except the one being written to history, in its old order, in front of the older history |
| `AofManifest.MarkRewrittenKeeps` | backend/redis-stable/src/aof.c:505-535 | promotion to history neither loses nor duplicates a file and keeps the manifest well formed |
| `AofManifest.DropHistoryKeeps` | backend/redis-stable/src/aof.c:681-705 | the files deleted are all of the history and none that stays listed |
| `AofManifest.EditsAreMarked` | backend/redis-stable/src/aof.c:439-535 | whatever edits the lists leaves the manifest marked to be persisted |
| `AofManifestText.LoadManifestFromFile` | backend/redis-stable/src/aof.c:264-394 | the line loop, with its fatal errors, computes `LoadManifest`, which `AofManifestFormat.LoadsExactly` gives for every file |
| `AofManifestFormat.LoadsExactly` | backend/redis-stable/src/aof.c:264-394 | a manifest file loads if and only if it is not empty, every line is a comment or describes an entry, there is one BASE entry at most and the numbers of the INCR entries are positive and rise; the result lists the entries of each type in order, with the counters of the last ones |
| `AofManifestFormat.LineExactly` | backend/redis-stable/src/aof.c:299-380 | a line that describes an entry files it in the list of its type, or is an error if it does not go with the entries before |
| `AofManifestFormat.LineRead` | backend/redis-stable/src/aof.c:299-380 | no other line but a comment is accepted: six words or more in pairs, a file name that is no path, a number that is not zero, a type that exists |
| `AofManifestFormat.PairsExactly` | backend/redis-stable/src/aof.c:322-341 | of several pairs with the same key, in any case, the last counts; a path anywhere is an error and unknown keys are skipped |
| `AofManifestText.FormatIsWords` | backend/redis-stable/src/aof.c:117-139 | the line of every entry is its quoted words, one space apart |
| `AofManifestText.LoadPrintedLine` | backend/redis-stable/src/aof.c:284-380 | a printed entry is read back as that entry and filed in the list of its type |
| `AofManifestText.ManifestRoundTrip` | backend/redis-stable/src/aof.c:210-228 | the text of every ordered, non-empty manifest whose names the text can carry loads to the same lists with the counters of the last entries |
| `AofManifestExact.RoundTripExactly` | backend/redis-stable/src/aof.c:210-394 | an ordered, non-empty manifest comes back from its text with the same lists if and only if every entry can be stored: no bare single quote and no path separator in the name, a line that fits the buffer, no end offset without a start offset; otherwise the load fails or returns another manifest |
| `AofManifestExact.OwnManifestLoads` | backend/redis-stable/src/aof.c:210-477 | every manifest named by the server's own rules from a configured name of at most 200 bytes comes back from its text if and only if that name has no single quote, or something else that has it quoted |
| `AofRewrite.KeepCommand` | backend/redis-stable/src/aof.c:1408-1447 | executing and logging a command keeps the dataset recoverable |
| `AofRewrite.KeepFlush` | backend/redis-stable/src/aof.c:1146-1354 | moving the front of the buffer to the current INCR file changes no replay |
| `AofRewrite.KeepStartStop` | backend/redis-stable/src/aof.c:1009-1076 | turning the append-only file on or off keeps the invariant |
| `AofRewrite.KeepOpenIncr` | backend/redis-stable/src/aof.c:803-867 | opening the next INCR file, not yet in the manifest, keeps the invariant |
| `AofRewrite.KeepPersistIncr` | backend/redis-stable/src/aof.c:803-867 | persisting the manifest with the new INCR file, failing to, or being told of a failure although the manifest is in place keeps the invariant: the manifest on disk then lists one more, empty file than the server knows |
| `AofRewrite.KeepFork` | backend/redis-stable/src/aof.c:2544-2612 | forking the rewrite child with an empty buffer keeps the invariant |
| `AofRewrite.KeepRenameBase` | backend/redis-stable/src/aof.c:2719-2743 | renaming the child's file to the new BASE name, or failing to, keeps the invariant |
| `AofRewrite.KeepRenameIncr` | backend/redis-stable/src/aof.c:2747-2777 | renaming the temporary INCR file, or failing to, keeps the invariant |
| `AofRewrite.KeepPersistRewrite` | backend/redis-stable/src/aof.c:2779-2801 | the new manifest replays to the dataset at the moment it becomes the persisted one |
| `AofRewrite.KeepPersistFailed` | backend/redis-stable/src/aof.c:2783-2795 | failing to persist it and deleting the new files keeps the old manifest recoverable, unless that manifest lists the INCR name just used |
| `AofRewrite.KeepDeleteOne` | backend/redis-stable/src/aof.c:681-705 | deleting history files touches nothing a recovery needs |
| `AofRestart.KeepRestart` | backend/redis-stable/src/server.c:7042-7052 | a crash at any point and the load of a new process, with the file on or off, keeps the invariant: the load gives the dataset that the manifest on disk stands for |
| `AofRestart.KeepBootBase` | backend/redis-stable/src/aof.c:726-757 | making the BASE file of an empty dataset at a start keeps it |
| `AofRestart.KeepBootIncr` | backend/redis-stable/src/aof.c:759-773 | opening the last INCR file at a start, or making one whose name is new, keeps it |
| `AofRestart.KeepBootPersist` | backend/redis-stable/src/aof.c:775-779 | persisting the manifest at a start, or exiting because that failed, keeps it |
| `AofRestart.CrashLosesOnlyTheBuffer` | backend/redis-stable/src/aof.c:2701-2861 | in every state of every run of commands, flushes, rewrites, crashes and restarts, every file of the persisted manifest is there and with the file on replaying it, then the buffer, gives the dataset |
| `AofRestart.RestartLosesOnlyTheBuffer` | backend/redis-stable/src/aof.c:1740-1850 | from every state of every such run with the file on, the next process starts with all but the buffer; it is refused if and only if the crash tore the end of the file being written while the manifest on disk lists another one after it |
| `AofIdeal.RunIsIdeal` | backend/redis-stable/src/aof.c:2544-2861 | every run ends with the state, dataset, buffer and child that a machine without files, names or manifests computes from the steps, and the manifest on disk is complete and replays to the dataset that machine says a new process loads |
| `AofHistory.OnExactly` | backend/redis-stable/src/aof.c:1009-1076 | in every run the append-only file is on if and only if the last step that switched it turned it on, the start of a process with the file on or the end of the first rewrite after it was asked for, and no start just exited; it waits for a rewrite if and only if it was asked for and neither given up nor made since |
| `AofHistory.ExitsExactly` | backend/redis-stable/src/aof.c:775-779 | a process exits while it starts if and only if the manifest it loaded lists no INCR file and persisting the one it made was reported as failed |
| `AofHistory.DataIsCommands` | backend/redis-stable/src/aof.c:2701-2861 | between restarts the dataset is the old one with exactly the executed commands applied in order, whatever flushes and rewrites happen |
| `AofHistory.BufferIsQueue` | backend/redis-stable/src/aof.c:2701-2861 | while the file is on the buffer is a queue: executed commands join it at the end and only flushes take them out, from the front, until the file is stopped or the process ends |
| `AofHistory.CrashesDropTheBuffer` | backend/redis-stable/src/aof.c:2701-2861 | with the file on from the first start and never stopped, through any crashes, restarts and rewrites: the files replay to exactly the commands flushed, in the order of their execution, and the dataset is those and the ones in the buffer |
| `AofHistory.NeverStuck` | backend/redis-stable/src/aof.c:2544-2861 | no state of a run is a dead end: from every one outside a start some steps without a restart turn the file on, end every rewrite and leave the whole dataset in the files |
| `AofHistory.ServesWhenIdle` | backend/redis-stable/src/aof.c:2701-2861 | between the steps of a rewrite any command can be executed, any front of the buffer written while the file is on, the file stopped unless it is off and asked for if it is |
| `AofHistory.AnswersAreTaken` | backend/redis-stable/src/aof.c:2544-2861 | where a call of the operating system can succeed it can fail, and where the child can finish it can die: the program goes on either way |
| `AofHistory.HistoryAfterFinish` | backend/redis-stable/src/aof.c:681-705 | after the history was deleted the next process finds none if that was stored, and the same history again if not |
| `AofRestart.LateErrorLosesTheBase` | backend/redis-stable/src/aof.c:2783-2795 | when persisting the rewritten manifest ends, every file of the manifest on disk is present if and only if the call did not report an error for a manifest it had already put in place, nor fail while the manifest on disk lists the INCR name the rewrite used |
| `AofRestart.RewriteWithResidue` | backend/redis-stable/src/aof.c:2544-2612 | a rewrite started with commands in the buffer recovers the dataset if and only if executing those commands again changes nothing |
| `AofRestart.BootAppends` | backend/redis-stable/src/aof.c:759-773 | the INCR file made at a start is opened for appending: the files then stand for the dataset if and only if replaying what a file of that name already held changes nothing |
| `AofRestart.NewIncrApart` | backend/redis-stable/src/aof.c:467-495 | the INCR name taken at a start is apart from the history about to be deleted if and only if it is not in it |
| `AofRestart.DeletionKeeps` | backend/redis-stable/src/aof.c:681-705 | deleting the whole history leaves every listed file in place if and only if none of them is history |
| `AofLosses.LeftoverReplayed` | backend/redis-stable/src/aof.c:726-789 | a concrete run: a crash between the renames and the manifest, when the file is enabled for the first time, brings the dead process's commands back into a later load |
| `AofLosses.NewFileUnlinked` | backend/redis-stable/src/aof.c:350-372 | a concrete run: after a rewrite with the file off and a crash before its history is deleted, the next process numbers INCR files from one again and deletes the file it writes |
| `AofLosses.TrailingUnlinked` | backend/redis-stable/src/aof.c:803-867 | a concrete run: a manifest reported as failed but in place lists an INCR name that a later rewrite reuses and deletes |
| `AofGivenUp.GivenUpReplaysTwice` | backend/redis-stable/src/aof.c:505-535 | from every settled state of every run: if the file is stopped, asked for again and that start given up because the fork fails, a rewrite done with the file off leaves files that replay to the dataset with the commands of the last INCR file applied once more |
| `BitCount.RedisPopcount` | backend/redis-stable/src/bitops.c:35-122 | the number of set bits of the buffer, for every start address and with or without POPCNT |
| `BitCount.Step28` | backend/redis-stable/src/bitops.c:82-116 | the 28-byte step with its masks, shifts and multiplication returns the set bits of its 28 bytes |
| `BitCount.CountWords` | backend/redis-stable/src/bitops.c:65-76 | the POPCNT loop counts the bits of the words it consumes |
| `BitRange.CountRange` | backend/redis-stable/src/bitops.c:1265-1282 | whole-byte count less the masked edge bytes is the number of set bits of the bit range |
| `BitRange.CountCommand` | backend/redis-stable/src/bitops.c:1194-1282 | BITCOUNT replies the set bits of the selected range, 0 for a missing key, an empty range or a reversed negative range |
| `Bitpos.RedisBitpos` | backend/redis-stable/src/bitops.c:131-216 | the first bit of the given value, else -1 for set bits and the length in bits for clear ones; the panic at the end is unreachable |
| `Bitpos.ScanWord` | backend/redis-stable/src/bitops.c:197-215 | the bit-by-bit scan of a word that holds the bit returns the first such position |
| `Bitpos.SearchRange` | backend/redis-stable/src/bitops.c:1374-1424 | first byte, middle and last byte searches with their masks give the first such bit of the range |
| `Bitpos.PosCommand` | backend/redis-stable/src/bitops.c:1286-1424 | BITPOS replies the first such bit of the selected range, with the padding rule for clear bits without an end |
| `Bitfield.SetUnsigned` | backend/redis-stable/src/bitops.c:239-257 | every write is inside the buffer; the bits of the field become those of the value and no other bit changes |
| `Bitfield.GetUnsigned` | backend/redis-stable/src/bitops.c:259-271 | the number spelled by the bits of the field, every read inside the buffer |
| `Bitfield.GetSigned` | backend/redis-stable/src/bitops.c:273-295 | the two's complement reading of the field for every width up to 64 |
| `Bitfield.FieldWritten` | backend/redis-stable/src/bitops.c:239-271 | reading a field back gives the written value modulo the width |
| `Bitfield.FieldElsewhere` | backend/redis-stable/src/bitops.c:239-271 | a field that does not overlap the write is unchanged |
| `Bitfield.UnsignedIncr` | backend/redis-stable/src/bitops.c:318-353 | for every stored value and 64-bit increment the checked result is the mathematical one, wrapped, saturated or refused |
| `Bitfield.SignedIncr` | backend/redis-stable/src/bitops.c:355-405 | the same for signed fields of every width, with the wrap-around of the intermediate 64-bit values |
| `Bitfield.UnsignedSet` | backend/redis-stable/src/bitops.c:318-353 | SET stores what it should except that under SAT a negative value saturates to the maximum |
| `Bitfield.SignedSet` | backend/redis-stable/src/bitops.c:355-405 | SET stores what it should except that under SAT a value so small that maximum minus value leaves 64 bits saturates to the maximum |
| `BitfieldCommand.StoresIdeal` | backend/redis-stable/src/bitops.c:1562-1638 | what the overflow check of the field's type, on 64-bit words, makes an operation store is what integer arithmetic demands if and only if the operation is not one of the SETs that saturate to the wrong end, and those store the maximum |
| `BitfieldCommand.RunIsIdeal` | backend/redis-stable/src/bitops.c:1558-1673 | a list without them gives the replies and bits of the mathematical interpreter on the infinite bit array |
| `BitfieldCommand.GetAfterWrite` | backend/redis-stable/src/bitops.c:1558-1673 | what an operation stored is what a GET of the field replies next |
| `BitfieldCommand.GetOp` | backend/redis-stable/src/bitops.c:1639-1673 | GET through the nine-byte copy is the field of the zero-padded value: nine bytes always suffice |
| `BitfieldCommand.Write` | backend/redis-stable/src/bitops.c:1562-1638 | SET and INCRBY do one step of the interpreter on the buffer |
| `BitfieldCommand.RunCommand` | backend/redis-stable/src/bitops.c:1531-1673 | the replies and bits of any list of operations are those of the interpreter; GETs leave the key alone, other lists make room for the highest write |
| `BitfieldCommand.HighestWrite` | backend/redis-stable/src/bitops.c:1507-1511 | the bytes the list needs for its writes |
| `Bitop.ResultByteBits` | backend/redis-stable/src/bitops.c:1080-1170 | the byte accumulators of the eight operations hold exactly the pointwise result bits, stated by how many keys have the bit |
| `Bitop.TailByte` | backend/redis-stable/src/bitops.c:1080-1170 | the byte loop with its early exits computes the same byte |
| `Bitop.SettledFold` | backend/redis-stable/src/bitops.c:1086-1152 | once the early exit applies no further key changes the byte |
| `Bitop.CommonCleared` | backend/redis-stable/src/bitops.c:1049-1070 | clearing the common bits of ONE at every step or once at the end is the same |
| `BitopCommand.WordLane` | backend/redis-stable/src/bitops.c:948-1075 | a word statement acts on each of its eight bytes as the byte operation |
| `BitopCommand.FastInPlace` | backend/redis-stable/src/bitops.c:944-986 | the four-word AND, OR and XOR loops leave the result bytes |
| `BitopCommand.FastNot` | backend/redis-stable/src/bitops.c:987-996 | the four-word NOT loop leaves the result bytes |
| `BitopCommand.FastFirst` | backend/redis-stable/src/bitops.c:997-1046 | the disjunction pass and the first-key pass of DIFF, DIFF1 and ANDOR leave the result bytes |
| `BitopCommand.FastOne` | backend/redis-stable/src/bitops.c:1047-1075 | the four-word ONE loop leaves the result bytes |
| `BitopCommand.Lengths` | backend/redis-stable/src/bitops.c:863-895 | the shortest length never exceeds the length of any key, missing keys included |
| `BitopCommand.Compute` | backend/redis-stable/src/bitops.c:849-1170 | the result is as long as the longest value and its bits are the operation on zero-padded values; wrong key counts are refused; all-empty input deletes |
| `AclRules.AcceptedExactly` | backend/redis-stable/src/acl.c:1127-1209 | a signed operation is accepted if and only if it spells, in any case, the text of a rule of its sign: a command, subcommand, category or, only to allow, a first argument of a command without subcommands; it becomes that rule |
| `CString.LowerCharExactly` | backend/redis-stable/src/acl.c:1052-1060 | folding case takes each of the 26 capitals to its small letter and changes no other byte |
| `CString.SameExactlyVariants` | backend/redis-stable/src/acl.c:1052-1060 | two strings compare as equal without case if and only if they are spelled alike but for the case of letters |
| `AclRules.ParseVariants` | backend/redis-stable/src/acl.c:1035-1209 | operations spelled alike but for the case of letters do the same |
| `AclRules.WholeSetExactly` | backend/redis-stable/src/acl.c:1052-1065 | the whole-set operations are exactly +@all, -@all and their two aliases, in any case |
| `AclRules.ParseRule` | backend/redis-stable/src/acl.c:1035-1208 | the text of a kept rule is an accepted operation that parses to that rule |
| `AclRules.ParseValid` | backend/redis-stable/src/acl.c:1127-1209 | an accepted command operation names an existing command, subcommand, category or a first argument of a command without subcommands |
| `AclReplay.MatchCovers` | backend/redis-stable/src/acl.c:597-608 | a new rule overwrites every permission the rules it replaces could have set |
| `AclReplay.UpdateRebuilds` | backend/redis-stable/src/acl.c:618-627 | replacing matching rules and appending the new one rebuilds the same permissions as applying the rule |
| `AclText.RemoveCommandRule` | backend/redis-stable/src/acl.c:572-614 | the in-place loop over the rules string removes exactly the matching rules, spaces included, and ends on any string |
| `AclText.SpaceLeavesRest` | backend/redis-stable/src/acl.c:572-614 | a rule whose first argument holds a space is two rules to the loop: removing the command's rules leaves what follows the space |
| `AclText.SplitJoin` | backend/redis-stable/src/acl.c:779-787 | the rules string splits into its operations if and only if the last one has no separator and no quote |
| `AclState.StepKeeps` | backend/redis-stable/src/acl.c:1035-1210 | every operation keeps the selector equal to what its rules rebuild, the rules compact, and the ALLCOMMANDS flag true only with every bit set |
| `AclState.ReservedBit` | backend/redis-stable/src/acl.c:549-551 | after every sequence of operations the reserved bit tells whether the last whole-set operation was +@all |
| `AclState.ReplayRebuilds` | backend/redis-stable/src/acl.c:758-811 | whatever operations built a selector, replaying its description on any selector is accepted and gives the same bitmap, first arguments and rules |
| `AclState.DescriptionReplays` | backend/redis-stable/src/acl.c:671-704 | a selector whose first arguments have no separators or quotes is rebuilt from its string |
| `AclState.FirstArgReplays` | backend/redis-stable/src/acl.c:1178-1189 | allowing a first argument keeps the selector rebuildable from its string if and only if the argument has no separator and no quote |
| `AclState.ReplaysExactly` | backend/redis-stable/src/acl.c:671-704 | over every history in which no first argument held a space: the string rebuilds the selector if and only if the first arguments in it now have no separator or quote, provided no category rule has taken back one that has |
| `AclState.CommandRuleCleans` | backend/redis-stable/src/acl.c:572-627 | a rule about a command takes that command's first arguments, if none held a space, out of the string, so a selector that could not be rebuilt because of them can be again |
| `AclState.FlagIsAShortcut` | backend/redis-stable/src/acl.c:1699-1702 | the ALLCOMMANDS shortcut never decides differently from the bitmap |
| `AclState.FlagDecides` | backend/redis-stable/src/acl.c:1699-1715 | for every command id: two selectors with the same permissions and different flags decide alike if and only if the id has a bit or the first argument is allowed; past the bitmap the flag alone allows |
| `Acl.Selector.SetCommandBit` | backend/redis-stable/src/acl.c:558-567 | one bit changes and the flag is dropped with a cleared bit; ids past the bitmap change nothing |
| `Acl.Selector.ChangePerm` | backend/redis-stable/src/acl.c:630-644 | the bits of the command and its subcommands that fit the bitmap are set, and its first arguments are dropped |
| `Acl.Selector.SetCategoryBits` | backend/redis-stable/src/acl.c:652-666 | every command and subcommand of the category is changed, in any order of the dictionary |
| `Acl.Selector.AddFirstArg` | backend/redis-stable/src/acl.c:943-969 | the first argument is allowed, ignoring case, and nothing else changes |
| `Acl.Selector.UpdateCommandRules` | backend/redis-stable/src/acl.c:618-627 | the string stays the rendering of the compacted rules |
| `Acl.Selector.SetSelector` | backend/redis-stable/src/acl.c:1035-1210 | the selector moves as its abstract value does and refuses exactly the refused operations, in whatever case they are spelled |
| `Acl.Selector.Describe` | backend/redis-stable/src/acl.c:758-811 | as long as no first argument held a space, there is a description that rebuilds the selector if and only if the first arguments in the string have no separator or quote, and then it splits into the rules |
| `Acl.Selector.CheckCommand` | backend/redis-stable/src/acl.c:1696-1721 | a command is allowed exactly by its bit or by a first argument spelled alike but for its case, or, past the bitmap, by the flag |
| `Acl.CommandIdTable.GetCommandId` | backend/redis-stable/src/acl.c:1532-1557 | a name keeps its id in every spelling of its case, ids are distinct and the reserved bit is never given out |
| `Blocked.Server.AddClient` | backend/redis-stable/src/blocked.c:61-69 | a new client waits for nothing and changes no count |
| `Blocked.Server.BlockClient` | backend/redis-stable/src/blocked.c:74-86 | the per-type and total counters stay the number of blocked clients |
| `Blocked.Server.BlockForKeys` | backend/redis-stable/src/blocked.c:387-438 | the client joins the end of the queue of each distinct key once; index, no-key counts and counters stay exact |
| `Blocked.Server.ReleaseEntry` | backend/redis-stable/src/blocked.c:535-568 | the client leaves one queue; an empty queue and a zero no-key count disappear; both assertions of the code hold |
| `Blocked.Server.Unblock` | backend/redis-stable/src/blocked.c:173-210 | the client leaves every queue it is in and every other client keeps its place |
| `Blocked.Server.UnblockOnKey` | backend/redis-stable/src/blocked.c:659-673 | releasing one key and then unblocking is unblocking |
| `Blocked.Server.Signal` | backend/redis-stable/src/blocked.c:475-519 | a key is queued as ready at most once, only while clients wait for it, and a dropped signal could have served nobody |
| `Blocked.Server.TakeReady` | backend/redis-stable/src/blocked.c:350-358 | a round takes the ready list whole; dictionary and lists stay the same set |
| `Blocked.Server.NextReady` | backend/redis-stable/src/blocked.c:360-372 | the key taken leaves the dictionary before its clients are served |
| `Blocked.Server.HandleKey` | backend/redis-stable/src/blocked.c:581-615 | of the clients in the queue those are served, in the order they blocked, that are no module clients and wait for a value of just the type found, or asked to be woken without the key; all others are still in the queue, in their order, and those that block again go behind them |
| `Blocked.Server.HandleRound` | backend/redis-stable/src/blocked.c:350-379 | a round handles the keys that were ready in order, each once; for each key those are served that its queue, as the keys before left it, and the types found say; it ends in the state of the round's specification |
| `BlockedWorld.SignaledReady` | backend/redis-stable/src/blocked.c:475-519 | a key is ready after a list of signals if and only if it was, or one of them is heard and it is not about to be handled; no key is there twice |
| `BlockedWorld.VisitedReady` | backend/redis-stable/src/blocked.c:581-615 | visiting a client adds exactly the keys a served one signals with somebody listening |
| `BlockedWorld.RoundReady` | backend/redis-stable/src/blocked.c:350-379 | what is ready after a round was ready or signaled in it, each key once |
| `BlockedIndex.PassPartitions` | backend/redis-stable/src/blocked.c:581-615 | every client of the queue is either served or still waiting, and none twice |
| `BlockedIndex.ServedRightly` | backend/redis-stable/src/blocked.c:606-612 | a client of the queue is served if and only if it is no module client and the value found is of the type it waits for, or it asked to be woken without the key; who is not served stays in the queue |
| `BlockedIndex.ServedInOrder` | backend/redis-stable/src/blocked.c:581-615 | the clients served come in the order of the queue |
| `BlockedIndex.EnqueueKeeps` | backend/redis-stable/src/blocked.c:399-429 | joining a queue keeps the two-way index and the no-key counts |
| `BlockedIndex.DequeueKeeps` | backend/redis-stable/src/blocked.c:535-568 | leaving a queue keeps them, and the entries the code asserts to be there are |
| `Bio.StepKeeps` | backend/redis-stable/src/bio.c:181-390 | every step of a submitter, a worker or the main thread keeps the invariant of queues, counters, responses and sleepers |
| `Bio.FirstComeFirstServed` | backend/redis-stable/src/bio.c:280-367 | in every interleaving the jobs a worker deleted are a prefix of those it executed, which are a prefix of those submitted to it; what is not deleted is its queue |
| `Bio.SubmittedExactly` | backend/redis-stable/src/bio.c:181-199 | in every interleaving the jobs submitted to a worker are those of the submissions of the run with its types, in order |
| `Bio.CompletionComesLast` | backend/redis-stable/src/bio.c:59-67 | a completion request is executed after every earlier job of the type it completes: once it is done so are they, each at its place |
| `Bio.KindsApart` | backend/redis-stable/src/bio.c:59-67 | closing files, the append-only file and freeing memory have workers of their own |
| `Bio.PendingIsExact` | backend/redis-stable/src/bio.c:371-379 | in every interleaving a counter is the number of queued or running jobs of its type |
| `Bio.CallbacksInOrder` | backend/redis-stable/src/bio.c:415-444 | in every interleaving callbacks run at most once each, in submission order, after every job submitted earlier to the same worker |
| `Bio.DrainsEnd` | backend/redis-stable/src/bio.c:382-390 | a drain returns only when every job submitted to the worker by then has been executed, and while it sleeps a step of the worker is possible: no wake-up is lost |
| `Bio.QueueEnds` | backend/redis-stable/src/bio.c:280-367 | from every state of every interleaving a worker can, by its own steps, come to the end of its queue, and has then executed all that was submitted to it |
| `Bio.DrainEnds` | backend/redis-stable/src/bio.c:382-390 | every drain can come to its end, with all that was submitted executed and the main thread free |
| `Bio.CallbacksEnd` | backend/redis-stable/src/bio.c:415-444 | so can the main thread, unless it drains, with the callbacks of the completion jobs done: all of them are then called |
| `Bio.EveryRequestAnswered` | backend/redis-stable/src/bio.c:415-444 | every completion request submitted can be answered, from every state of every interleaving: its callback is called |
| `Bio.OnlyRequestsCalled` | backend/redis-stable/src/bio.c:338-358 | no other job is called back |
| `Bio.DeleteEnabled` | backend/redis-stable/src/bio.c:361-366 | a finished job is still the head of its queue and still counted when the worker takes the lock again |
| `Adlist.List.constructor` | backend/redis-stable/src/adlist.c:22-34 | an empty list |
| `Adlist.List.Empty` | backend/redis-stable/src/adlist.c:37-52 | the walk follows the length and the list ends up empty |
| `Adlist.List.LinkHead` | backend/redis-stable/src/adlist.c:90-101 | the node becomes the first and every pointer stays right |
| `Adlist.List.LinkTail` | backend/redis-stable/src/adlist.c:123-134 | the node becomes the last |
| `Adlist.List.Insert` | backend/redis-stable/src/adlist.c:136-163 | the new node stands right before or after the old one |
| `Adlist.List.Unlink` | backend/redis-stable/src/adlist.c:179-193 | exactly that node is gone and its pointers are null |
| `Adlist.List.RotateTailToHead` | backend/redis-stable/src/adlist.c:348-360 | the last node becomes the first, the others keep their order |
| `Adlist.List.RotateHeadToTail` | backend/redis-stable/src/adlist.c:363-375 | the first node becomes the last |
| `Adlist.List.Join` | backend/redis-stable/src/adlist.c:379-395 | the nodes of the other list follow, and that list is empty and valid |
| `Adlist.List.Index` | backend/redis-stable/src/adlist.c:333-345 | the node at the index from the head, or from the tail for negative ones, null out of range |
| `Adlist.List.Search` | backend/redis-stable/src/adlist.c:308-326 | the first matching node, null exactly when none matches |
| `Adlist.Iter.Rewind` | backend/redis-stable/src/adlist.c:218-226 | the iterator starts at either end |
| `Adlist.Iter.Next` | backend/redis-stable/src/adlist.c:242-253 | the next node in the iterator's direction |
| `Adlist.VisitNext` | backend/redis-stable/src/adlist.c:230-253 | deleting the node just returned leaves the iterator on the node after it |
| `Adlist.DeleteWhileWalking` | backend/redis-stable/src/adlist.c:230-253 | a walk that deletes some of the nodes it is given visits every node once in order and removes exactly those |
| `Adlist.DeleteWhileWalkingBack` | backend/redis-stable/src/adlist.c:223-253 | the same for a walk from the tail |
| `Adlist.Dup` | backend/redis-stable/src/adlist.c:263-297 | a list of its own with the duplicated values in order, or null when one duplication fails |
| `Glob.LiteralPrefix` | backend/redis-stable/src/util.c:65-199 | a string a glob pattern matches starts with the literal text the pattern starts with, and equals it when the whole pattern is literal |
| `Glob.MatchesExactly` | backend/redis-stable/src/util.c:65-199 | a pattern with at most 1000 stars matches a non-empty string if and only if it fits it, a star standing for any characters and any other element for one; the early end of the search loses no match. The empty string is matched by the empty pattern alone |
| `Glob.MatchesSound` | backend/redis-stable/src/util.c:65-199 | whatever the limits of the search, only strings that fit are matched |
| `Glob.LimitIsReached` | backend/redis-stable/src/util.c:65-70 | a concrete pattern with 1001 stars and a string that fits it are not matched |
| `Glob.ClassExactly` | backend/redis-stable/src/util.c:107-158 | a class holds a character if and only if one of its single, escaped or ranged members does, and ends at its bracket |
| `Glob.SpanExactly` | backend/redis-stable/src/util.c:128-147 | a range holds all between its ends within either half of the bytes, and across the halves all from the upper end on and up to the lower one, because bytes compare as signed |
| `Glob.SpecialExactly` | backend/redis-stable/src/cluster.c:34-59 | the characters at which the slot of a pattern gives up are exactly those that do not always stand for themselves |
| `ClusterSlot.KeyHashSlot` | backend/redis-stable/src/cluster.h:57-76 | the slot of the text between the first brace and the first closing brace after it, or of the whole key |
| `ClusterSlot.SlotIsLowBits` | backend/redis-stable/src/cluster.h:64-75 | a slot is the low 14 bits of the hash, bit by bit |
| `ClusterSlot.PatternHashSlot` | backend/redis-stable/src/cluster.c:34-59 | -1 if and only if a special character comes before a closed non-empty tag; otherwise the slot of every key the pattern matches, for any hash function |
| `ClusterSlot.TagDecides` | backend/redis-stable/src/cluster.c:51-54 | a key that starts with the literal text up to a closed tag hashes that tag |
| `ClusterRoute.ScanAll` | backend/redis-stable/src/cluster.c:1139-1228 | after the loops over commands and keys the flags and counts are those of the whole request; a failed scan is an unbound first slot or two slots |
| `ClusterRoute.Route` | backend/redis-stable/src/cluster.c:1098-1312 | which requests are refused, redirected, asked to retry or served here, each as an if-and-only-if over slots, migration state, present keys and cluster health |
| `ConfigRewrite.RewriteState.constructor` | backend/redis-stable/src/config.c:1096-1196 | the old file line by line, each without the blanks around it: comments and blank lines as they are, lines not understood behind a mark, every option mapped to its lines in order |
| `ConfigRewrite.SplitLinesExactly` | backend/redis-stable/src/config.c:1126-1127 | the lines are the parts between the newlines of the text: none holds a newline, and joined with newlines they are the text |
| `CString.TrimExactly` | backend/redis-stable/src/config.c:1133-1133 | trimming takes the slice with only blanks outside it and none at its ends |
| `ConfigRewrite.RewriteState.MarkAsProcessed` | backend/redis-stable/src/config.c:1085-1089 | only the set of processed options changes |
| `ConfigRewrite.RewriteState.RewriteLine` | backend/redis-stable/src/config.c:1219-1253 | the line replaces the option's first unused line, else is appended after the signature when forced, else is dropped |
| `ConfigRewrite.RewriteState.RemoveOrphaned` | backend/redis-stable/src/config.c:1615-1641 | the emitted lines of a processed option stand in its lines in order, its other lines are blank, and every other line is as it was |
| `ConfigRewrite.GetContent` | backend/redis-stable/src/config.c:1589-1606 | the lines glued with clusters of blank lines collapsed |
| `ConfigRewrite.CollapseKeeps` | backend/redis-stable/src/config.c:1589-1606 | collapsing loses no text, keeps its order and leaves no two blank lines together |
| `ConfigRewrite.CollapseBetween` | backend/redis-stable/src/config.c:1589-1606 | between two lines with text any gap becomes one blank line, and none appears where there was none |
| `ConfigRewrite.GlueSplits` | backend/redis-stable/src/config.c:1589-1606 | reading the new content back gives the collapsed lines |
| `ConfigRewrite.Rewrite` | backend/redis-stable/src/config.c:1740-1783 | for any old file and any sequence of calls: what the calls for an option write stands, in order, in the lines of the text that set the option, those left over are blank and the rest is appended in order; a comment, a blank line and the line of an option nobody rewrites stand at their position as they were without the blanks around them, and a line not understood does behind a mark |

## Left out

- RDB preambles, `#TS:` annotations as data, fsync threads and disk errors during loading: the loader is modelled for text
  files with `aof-load-truncated` on; allocation failures are not modelled.
- The upgrade from a single append-only file to the manifest layout.
- `AofProtocol` takes commands, not bytes, as the unit of a log file, and persisting a manifest as one step with three
  outcomes; bytes and partial writes are in `AofWriter` and `AofLoad`. Turning the append-only file on inside a transaction
  while a child of an earlier rewrite runs is not modelled, nor are the end offsets of INCR files.
- AofRestart.CrashLosesOnlyTheBuffer: states the runs that meet `Clean`: a rewrite begins with an empty buffer, ending one
  unlinks no file of the manifest on disk, and a start takes no old file for its new one. Each of these has its exact
  condition (`RewriteWithResidue`, `LateErrorLosesTheBase`, `BootAppends` with `DeletionKeeps`) or a run that fails
  without it.
- AofIdeal.RunIsIdeal: states the same runs, and so do the results of `AofHistory` that rest on it; `OnExactly`,
  `DataIsCommands`, `BufferIsQueue` and `AnswersAreTaken` hold for all runs.
- AofHistory.NeverStuck: says nothing of a process that is just starting, where an old file may have the name of its new one.
- AofManifestExact.OwnManifestLoads: the bound of 200 bytes on the configured name leaves room for any escapes in a line of
  1024 bytes; `RoundTripExactly` has no such bound.
- AofWriter.Writer.Flush: what write, ftruncate and fsync answer, and the clock, are parameters of the call.
- The AVX2 path of BITOP and BITCOUNT, and big-endian machines; POPCNT and the `bitsinbyte` table are their definition, the
  number of set bits.
- Argument parsing of BITFIELD, BITCOUNT and BITPOS (widths, offsets, `OVERFLOW` stickiness, limits on offsets), keyspace
  notifications, dirty counters, and the error reply for values that are not strings.
- Bitfield.UnsignedSet: the 64-bit width does not occur for unsigned fields and is not modelled.
- ACL: key and channel patterns, passwords, users with several selectors and ACL files; the command table is fixed, with
  fewer than 1023 ids, and the bitmap is a set of ids rather than sixteen words. First arguments are compared without case
  and are modelled in lower case; arguments with NUL bytes are not modelled.
- Acl.Selector.Describe: says nothing of a selector that had a first argument with a space since the last whole-set
  operation, whose string no longer separates its rules, nor whether one can be rebuilt after a category rule took back a
  first argument with a quote that stays in the string.
- Acl.Selector.ChangePerm: a command id past the bitmap is taken only while no first arguments are allocated; with them the
  code reads past the end of their table. Acl.Selector.CheckCommand and AclState.FlagDecides cover such ids the same way.
- Blocked clients: timeouts, the lists of clients waiting for replicas or postponed, module callbacks, client flags other than
  the blocking state; the re-executed command is any blocking and any signals of its own client.
- Blocked.Server.HandleRound: one round; the outer loop of `handleClientsBlockedOnKeys` goes on as long as reactions signal
  keys, which need not end.
- Background jobs: what a job does to files and memory, thread creation and killing. One thread drains at a time, as in the
  server, where only the main thread does.
- Linked list: memory is never exhausted, and node values are not reassigned.
- Cluster: gossip, slot assignment and failover; the hash function is a parameter.
- Configuration: the options and their setters, the debug-only switch that forces every line, sentinel mode, reading and writing the file itself. A line of only vertical
  tabs or form feeds, for which the code reads an argument that is not there, is taken as not understood.
- Everything outside `backend/redis-stable`: application code without logic of its own to prove.
