# A verified model of ruri

ruri is a small container runtime written in C. This project models six parts of it that
keep real algorithmic state, and proves what they are for:

- **k2v3**, the configuration format (`src/k2v3.c`): scanner, parser, cache, getters and the
  emitters that have to undo them. Printing and parsing again gives everything back, exactly
  on the values that survive; the parser is total on arbitrary text, and which texts it
  accepts without a warning is an if and only if; the cache is the first-wins map of its lines.
- **k2v**, the older reader of the same text (`src/k2v.c`), a second, independent parser.
  Both readers answer alike on every printed plain document, and on printed arrays exactly
  where no element has a backslash, an opening bracket or a newline. What it takes of files
  written by hand, with blanks around keys, values and elements, is exact as well.
- **The pid-file daemon** (`src/watchdog.c`, read by `src/ps.c`): the record codec, a run of
  the daemon, and the protocol between parent, daemon, writers and a reader as a step system
  with every interleaving: locking, delivery of the packets, and the final record.
- **The build driver** (`build.c`): the poll loop over an array of descriptors that is
  compacted in place, what becomes of the bytes in its pipes, and the parallel scheduler.
- **Capabilities and the runtime state** (`src/caplist.c`, `src/rurienv.c`):
  sentinel-terminated arrays that stand for sets, and the file `.rurienv`.
- **System files** (`src/passwd.c`, `src/mount.c`): the walks over `/etc/passwd`,
  `/etc/group`, `/etc/subuid` and `/proc/filesystems`, and the mount prefixes.

Text is a `string` without its terminating NUL. Where the C code scans and updates in place,
the model is a method or a class of the same shape, proved equal to a specification function;
the properties are lemmas about those functions. System calls are parameters: what poll, read,
write, wait, mount and fork come back with is arbitrary, and the theorems hold for all of it.
Warnings are lenient, as in the parser's default mode: `warned` marks the places where the
strict mode would exit the process.

The files go from the bottom up: `Text`, `Escape`, `Number`; `K2v3`, `K2v3Scan`, `K2v3Parse`, `K2v3Lines`, `K2v3Get`,
`K2v3Typed`, `K2v3Emit`, `K2v3Laws`, `K2v3Arrays`, `K2v3Local`, `K2v3Warns`, `RoundTrip`, `Exact`; `OldK2v`, `OldLint`,
`OldGet`, `PlainText`, `ReadersAgree`, `OldExact`, `OldLines`, `OldArrays`, `OldHand`; `PidRecord`, `PidDaemon`,
`PidStat`, `PidProtocol`, `PidRuns`, `PidDelivery`; `PollLoop`, `OutputPipe`, `Scheduler`; `Caplist`, `RuntimeInfo`,
`RuntimeRead`, `RuntimeRoundTrip`, `RuntimeExact`; `Passwd`, `PasswdFiles`, `PasswdLines`, `Mount`, `MountLines`.

## Where the code does not do what it looks like

Each of these is proved, next to the exact condition under which the code is right.

- The emitters escape nothing. A scalar survives printing and parsing if and only if it is
  canonical (`Exact.ScalarExact`), an array if and only if all its elements are
  (`Exact.ArrayExact`).
- A comment behind an array, empty or not, sends the parser back to the first newline inside
  the array, and does so exactly when there is one (`K2v3Arrays.ArrayEnds`; two inputs are
  `K2v3Arrays.CommentAfterTwoLines` and `K2v3Arrays.CommentAfterEmptyArray`).
- A text whose last line is a bare `key=` without a newline, and no other text, skips the
  unescape pass (`K2v3Lines.BareExactly`). It shows exactly when some kept value has a
  backslash that the pass would remove (`K2v3Laws.SkippedPassShows`; an input is
  `K2v3Laws.LateKeyKeepsBackslash`).
- A line whose array is still open at its end, with nothing in it that refuses the array, takes
  the following lines into its value. Exactly the other lines say the same whatever follows
  (`K2v3Local.LocalExactly`).
- An array that ends in a separator is a warning and an empty value like any other refused one,
  but the parser goes on behind its bracket and not on the next line (`K2v3Warns.ValueExactly`).
- A text that is no number is 0 for `k2v3_get_int` without a warning, and 0 with one for
  `k2v3_get_long` and for an element of an int array (`K2v3Typed.IntExactly`,
  `K2v3Typed.LongValue`, `K2v3Typed.ElementExactly`).
- The older reader loses what the newer one keeps: a printed array comes back from both if and
  only if no element has a backslash, an opening bracket or a newline (`OldExact.OldArrayExact`;
  an input is `OldExact.EscapeInArray`). Over the caller's limit one returns the front of the
  array and the other nothing, so they agree if and only if the array is within the limit or the
  limit is 0 (`ReadersAgree.ReadersAgreeOn`).
- Of an escaped character in an array the older reader keeps the backslash and drops the
  character (`OldArrays.CurrentIs`).
- In a file written by hand the older reader does not find a key of one letter that has blanks
  behind it, and finds every other (`OldHand.HandReads`, `OldHand.OneSetting`). It loses an array
  element that stands behind a comma and a blank, and refuses a line with blanks in front of the
  first of several elements; an array comes back whole exactly if it has one element, or no blank
  in front of any (`OldHand.HandArray`, `OldHand.HandArrayExactly`).
- The record of a failed exec is written as `RURI_PANIC_EXE`, so the reader reports a panic
  of unknown reason, and a pid of 0 is refused (`PidRecord.StatReadsMessage`).
- Before the daemon's OK, a reader that takes the lock between truncate and lock sees an
  empty file and makes the daemon give up (`PidRuns.EarlyReaderSeesNothing`). Whenever the daemon
  does not hold the lock, the file is terminal if and only if the OK was sent, or nothing was
  truncated yet and the record from before the run was terminal (`PidRuns.TerminalExactly`);
  no reader with the lock ever sees this run's INIT record or pid (`PidRuns.WhatReadersSee`).
- When the child hangs up with more than one chunk left in a pipe, the parent reads one chunk
  and drops the rest (`OutputPipe.HangUpDropsTheRest`). No run ever loses a byte if and only
  if the pipe holds at most one chunk (`OutputPipe.LosslessExactly`).
- With `max_processes` below 1 the scheduler never starts anything
  (`Scheduler.ProgressNeedsAWorker`) and never ends unless there is nothing left to compile
  (`Scheduler.EndsWhenAllAreReaped`).
- The end of file that ends the daemon comes only when nobody can send any more, so the last
  well-formed report stands (`PidDelivery.LastReportStands`); a daemon that stops at a read error
  may leave packets unread, which `PidDelivery.Delivery` accounts for.
- The runtime state of a container with more than 64 KiB of environment is stored and then
  refused when it is read (`RuntimeRoundTrip.TooMuchEnvironment`), and a number of variables
  within the reader's limit is no protection (`RuntimeRoundTrip.SomeEnvironmentIsTooMuch`);
  `StoreThenRead` says exactly when the file can be read.
- An empty `/etc/group` takes even the primary group away, which a missing one leaves. The groups
  of a user are the expected ones if and only if the file lists a group
  (`PasswdFiles.GroupsAgree`, `PasswdFiles.GroupsExactly`). So does any line without a gid that the
  walk comes to, and only such a line (`PasswdLines.AnyGroup`).
- In an empty `/etc/passwd` the uid 0 is found, with an empty name, and the empty name is found,
  with the number 0 (`PasswdFiles.LookupsAgree`, `PasswdFiles.GroupsOfNobody`). Every malformed
  line counts as one of uid 0, and one without a colon as one without a name
  (`PasswdLines.AnyPasswd`).
- `mount_device` returns 0 without having mounted anything exactly when the text lists no device
  type (`Mount.ZeroExactly`). A line without a tab makes it try whatever type an earlier nodev line
  has left in the buffer (`MountLines.TriesExactly`).
- Capability names may be written without `cap_`, but only those of more than four letters:
  `kill` is not found without it (`RuntimeInfo.PrefixLeftOut`, `RuntimeInfo.KillNeedsItsPrefix`).
- The comment in `ruri_build_caplist` has `privileged` the wrong way round. The model follows
  `src/caplist.c:179`: an unprivileged container starts from the full list.

## Model

| member | source | states |
|---|---|---|
| Escape.ScanBare | src/k2v3.c:249-303 | the flag-driven scan stops at the first delimiter that is not the second half of a backslash pair |
| Escape.FirstBareLeast | src/k2v3.c:249-303 | every delimiter before that position is escaped |
| Escape.EscapedAppend | src/k2v3.c:249-303 | backslash pairing restarts behind any text whose backslashes are all paired |
| Escape.CorrectBackslash | src/k2v3.c:104-154 | the in-place pass writes what `Unescape` says, and its write index never passes its read index |
| Escape.UnescapeFixed | src/k2v3.c:104-154 | the pass leaves a text as it is if and only if every paired backslash precedes n, t, r or a double quote or stands alone at the end |
| K2v3Scan.GetKey | src/k2v3.c:171-213 | a key is returned exactly when the text starts with one and its `=`; it is that key |
| K2v3.KeyIsSpan | src/k2v3.c:171-213 | a text starts with at most one key |
| K2v3Scan.GetElements | src/k2v3.c:327-483 | the loop over array elements collects the elements in order, or says why the array is refused |
| K2v3Scan.FinishValue | src/k2v3.c:504-539 | spaces and a comment behind a value are skipped; anything else on the line voids the value |
| K2v3Scan.GetValue | src/k2v3.c:214-540 | the scanner returns `ValueOf`, whose step is always positive and never leaves the text |
| K2v3.ValueOf | src/k2v3.c:214-540 | every value step has 0 < jmp <= remaining length |
| K2v3Laws.RawValues | src/k2v3.c:214-540 | every extracted raw text is nonempty, well paired and free of bare quotes; a value is empty or there, so the internal-error exit of the parser is unreachable |
| K2v3Laws.RawEntries | src/k2v3.c:541-604 | the same for all entries of any text, each under a valid key |
| K2v3Laws.ScalarAccepted | src/k2v3.c:249-303 | a scalar is returned if and only if the text starts with it, quoted and alone on its line; the scan then ends exactly at the end of that line |
| K2v3Arrays.ArrayAccepted | src/k2v3.c:304-539 | an array is returned if and only if the text is a bracket, the elements quoted and raw, with blanks and one `,` or `;` between them, the closing bracket, and nothing else on the line |
| K2v3Arrays.ElementsExact | src/k2v3.c:339-483 | the element loop yields exactly the elements that stand between the brackets |
| K2v3Arrays.ArrayEnds | src/k2v3.c:504-517 | for every accepted array, empty ones included: the parser goes on at the end of the line of the closing bracket if and only if it is not the case that a comment follows there and a newline stands before that bracket; then it goes back to that newline |
| K2v3Arrays.CommentAfterTwoLines | src/k2v3.c:509-517 | a two-line array with a comment behind it: the parser comes out inside the array |
| K2v3Arrays.CommentAfterEmptyArray | src/k2v3.c:238-247 | the same for an empty array over two lines |
| K2v3Parse.ReadLine | src/k2v3.c:550-604 | one turn of the parser: blank line, comment, leading space, bad key, bare key or entry |
| K2v3Parse.Parse | src/k2v3.c:541-682 | on arbitrary text the parser ends, offset plus remaining length stays the buffer's length, and the cache and the warnings are those of the lines it reads |
| K2v3Parse.Cache.Append | src/k2v3.c:622-663 | a node is appended unless its key is in the list already |
| K2v3Parse.Cache.UnescapeAll | src/k2v3.c:665-681 | every payload of the list is unescaped in place, nothing else changes |
| K2v3Parse.LookupFirstWins | src/k2v3.c:622-663 | dropping later duplicates changes no lookup |
| K2v3Parse.FirstWinsStep | src/k2v3.c:622-663 | the duplicate warning comes exactly when the keys so far stop being distinct |
| K2v3Laws.CacheIsFirstWins | src/k2v3.c:541-682 | after any parse the keys are pairwise distinct, the nodes are the first occurrences in order, and a lookup finds what the first line with that key said, unescaped unless the text ends in a bare key |
| K2v3Laws.FirstPositionsAre | src/k2v3.c:605-663 | those positions are exactly the ones whose key did not occur before |
| K2v3Laws.DuplicatesChangeNothing | src/k2v3.c:605-663 | lines whose keys are taken leave the cache as it is |
| K2v3Lines.BareExactly | src/k2v3.c:593-596 | the parser returns before the unescape pass if and only if the last line of the text is a key and its `=` with nothing behind it |
| K2v3Laws.SkippedPassShows | src/k2v3.c:593-682 | the cache is the unescaped one if and only if the text does not end that way or every kept value is one the pass leaves alone |
| K2v3Laws.LateKeyKeepsBackslash | src/k2v3.c:593-596 | a text on which a backslash stays that the pass would have removed |
| K2v3Local.ArrayOnLine | src/k2v3.c:304-539 | an array that finds its bracket on its own line is the same value with any text behind the line, and the parser goes on at the end of the line or right behind it |
| K2v3Local.LineByLine | src/k2v3.c:550-604 | unless it leaves an array open, a line says the same with any text behind it and leaves that text alone, however malformed it is |
| K2v3Local.LocalExactly | src/k2v3.c:304-604 | a line is local in front of every text if and only if it does not leave an array open: no closing bracket, and nothing so far that refuses the array |
| K2v3Warns.TrailingExactly | src/k2v3.c:436-462 | the element loop stops for want of an element exactly when a separator with nothing but blanks stands in front of the bracket |
| K2v3Warns.ValueExactly | src/k2v3.c:214-540 | get_value on any text: no warning if and only if the text starts with an empty or quoted scalar or an empty or full array, alone on its line; else an empty scalar, and where the parser goes on |
| K2v3Warns.LineExactly | src/k2v3.c:550-604 | a step of the parser at any place of any text: it is an entry, a bare key or a skipped line by what stands there, and warns if and only if that is none of newline, comment, bare key, or key and good value |
| K2v3Warns.WarnsExactly | src/k2v3.c:541-682 | a text of lines that leave no array open is parsed without a warning if and only if every line is blank, a comment, or a key and a good value, and no two lines have the same key |
| K2v3Get.FindNode | src/k2v3.c:766-812 | the walk along the list returns the first node with the key if its kind is the wanted one |
| K2v3Get.CharArray | src/k2v3.c:933-951 | the caller's array gets the elements, within the limit, and nothing behind them is touched |
| K2v3Get.IntArray | src/k2v3.c:903-932 | the same for ints, where anything that is no int in range is a warning and 0 |
| K2v3Typed.IntExactly | src/k2v3.c:826-864 | a text that is a number in range is that number, one out of range is a warning and 0, any other text is 0 |
| K2v3Typed.LongValue | src/k2v3.c:885-902 | a number comes back cut down to 64 bits; anything else is a warning and 0 |
| K2v3Typed.ElementExactly | src/k2v3.c:903-932 | an element is taken without a warning if and only if it is a number in the range of an int |
| K2v3Typed.TextValue | src/k2v3.c:766-951 | a scalar with a text, for each getter: the kind decides, and a bool is `true`, `false` or a warning |
| K2v3Typed.ListValue | src/k2v3.c:766-951 | an array for each getter: its elements within the limit, a warning over it and for every other kind |
| K2v3Typed.EmptyValue | src/k2v3.c:814-951 | what each getter makes of an empty value: only a bool, or the other kind, is a warning |
| K2v3Typed.MissingKey | src/k2v3.c:766-951 | a key that is not there is a warning and the default of every getter |
| Number.LongExactly | src/k2v3.c:826-902 | white space, perhaps a sign, and digits are read as their number, cut down to 64 bits |
| Number.NoNumber | src/k2v3.c:826-902 | and nothing else is |
| Number.AtoiWraps | src/rurienv.c:393-394 | atoi gives the int that agrees with the number on its last 32 bits |
| K2v3Emit.CharArrayToK2v3 | src/k2v3.c:1133-1176 | the loop with its commas prints the elements joined in brackets |
| K2v3Emit.IntArrayToK2v3 | src/k2v3.c:1177-1212 | the same for ints, printed in decimal |
| Number.ReadBack | src/k2v3.c:826-902 | a printed number is read back whole, whatever non-digit follows |
| RoundTrip.DocumentRoundTrip | src/k2v3.c:541-682 | any sequence of canonically emitted items with distinct keys parses without a warning into exactly its nodes, in order and with their types |
| RoundTrip.ValueRoundTrip | src/k2v3.c:814-951 | and every getter gives back the value that was written, without a warning |
| RoundTrip.ItemReadBack | src/k2v3.c:1012-1212 | an emitted item in front of any text adds its node to what that text says |
| Exact.ScalarExact | src/k2v3.c:1066-1086 | a printed scalar is read back as written if and only if it is canonical |
| Exact.ArrayExact | src/k2v3.c:1133-1176 | a printed array is read back as written if and only if all its elements are canonical |
| OldK2v.RemoveComment | src/k2v.c:443-486 | the lines that are not comments, put together again |
| OldK2v.LinesOfUnlines | src/k2v.c:104-140 | lines put together are found again as the same lines |
| OldLint.CheckBasic | src/k2v.c:597-695 | the checks of key, `=` and value on one line |
| OldLint.CheckArray | src/k2v.c:696-800 | the checks of brackets, quotes, commas and null values of an array line |
| OldLint.CheckScalar | src/k2v.c:801-840 | the checks of the quotes of a scalar line |
| OldLint.GetLeft | src/k2v.c:487-524 | the key of a line |
| OldLint.GetRight | src/k2v.c:525-565 | the value of a line, unescaped |
| OldGet.AutoTidy | src/k2v.c:841-894 | comments and lines that do not lint are dropped, the rest stays in order |
| OldGet.KeyGetLine | src/k2v.c:994-1021 | the first tidy line with the key |
| OldGet.RightIsWrapped | src/k2v.c:1022-1052 | the value of a line that lints has both its quotes or brackets, so taking the inside is in bounds |
| OldGet.KeyGetChar | src/k2v.c:1022-1052 | the inside of the value of the first line with the key |
| OldGet.GetCurrentVal | src/k2v.c:1194-1239 | the copy of one array value with its backslash handling |
| OldGet.GetNextVal | src/k2v.c:1156-1193 | where the next array value starts |
| OldGet.ArrayToStrArray | src/k2v.c:1240-1273 | all values of an array line, in order |
| OldGet.KeyGetCharArray | src/k2v.c:1312-1349 | the caller's array gets them, up to the limit; a missing key clears the first slot, and no other slot is touched |
| OldGet.KeyGetIntArray | src/k2v.c:1274-1311 | the same for ints |
| PlainText.ValsOfJoin | src/k2v.c:1156-1273 | the older reader takes a printed array apart into the elements that were put in |
| PlainText.JoinLints | src/k2v.c:696-800 | the counts that the older lint takes of a printed array |
| ReadersAgree.LineLints | src/k2v.c:597-840 | every printed line with a canonical scalar or a plain array passes the older lint |
| ReadersAgree.DocumentLines | src/k2v.c:841-894 | tidying a printed document leaves exactly its `key=value` lines |
| ReadersAgree.ReadersAgreeOn | src/k2v.c:994-1349 | on every printed document of canonical scalars and plain arrays, duplicate keys included, both readers know the same keys and answer alike for every key asked at its written type: a scalar always, an array if and only if it is within the limit or the limit is 0 |
| ReadersAgree.ReadersAgreeOnMissing | src/k2v.c:994-1407 | and for a key that was never written all getters of both give their defaults |
| OldExact.CurrentExact | src/k2v.c:1194-1239 | the older copy of one printed array element is the element if and only if it has no backslash |
| OldExact.OldArrayExact | src/k2v.c:1240-1349 | a printed array of canonical elements comes back from the older reader as it does from the newer one if and only if no element has a backslash, an opening bracket or a newline |
| OldExact.EscapeInArray | src/k2v.c:1210-1218 | an array of one escape that the newer reader gives back and the older one does not |
| OldLines.CountsBare | src/k2v.c:720-750 | the loops that skip a backslash and the character behind it count exactly the characters that no backslash covers |
| OldLines.NullFreeExactly | src/k2v.c:774-800 | the check for null values passes if and only if no element is empty and nothing stands between the bracket and the first element |
| OldLines.LintExactly | src/k2v.c:597-840 | a line is taken if and only if it is blanks, a key, `=`, blanks and a value: a text whose only bare quotes are the first character and one more, and which ends in a quote, or an array with the right numbers of bare brackets, quotes and commas and no empty element |
| OldLines.LeftIs | src/k2v.c:487-524 | the key is what stands before the `=` without blanks, but a key of one character keeps the blanks behind it |
| OldLines.RightIs | src/k2v.c:525-565 | the value is what stands behind the `=` without blanks, unescaped |
| OldArrays.CurrentIs | src/k2v.c:1194-1239 | the copy of an array value is the value without the characters that a backslash covers |
| OldArrays.BracketExactly | src/k2v.c:1165-1175 | the check for the closing bracket looks at every other place only: it stops the array if and only if all of those up to a bracket are blank |
| OldArrays.ValsOfSpaced | src/k2v.c:1156-1273 | the values found in an array with blanks in it: all but those behind a comma and a blank |
| OldArrays.WholeExactly | src/k2v.c:1156-1273 | they are the elements if and only if no blank follows a comma and nothing is escaped |
| OldHand.HandReads | src/k2v.c:841-1349 | in a file written by hand, with indented comments, blank lines and blanks around keys and values, the first setting of every key is found and its value given back |
| OldHand.OneSetting | src/k2v.c:515-522 | a key finds its setting if and only if it has more than one letter or no blanks behind it |
| OldHand.HandScalar | src/k2v.c:1053-1155 | a text asked for as a bool is true only if it is `true`, and as a number what strtol or atoi makes of it |
| OldHand.HandArray | src/k2v.c:696-1349 | an array with blanks in it: refused with blanks in front of the first of several elements, else without the elements behind a comma and a blank |
| OldHand.HandArrayExactly | src/k2v.c:696-1349 | it comes back whole if and only if it has one element or no blank stands in front of any |
| OldHand.EmptyArrays | src/k2v.c:1240-1250 | an array of nothing or of one empty element has no elements |
| PidRecord.PassesFilter | src/watchdog.c:265-271 | the filter accepts exactly the packets of digits, letters, `_` and newlines |
| PidRecord.MessageAccepted | src/watchdog.c:46-85 | a message passes the filter if and only if it carries no negative argument |
| PidRecord.StatReadsMessage | src/ps.c:286-398 | every message is classified by its kind and its argument comes back; the exec panic has lost its reason |
| PidRecord.TerminalMessages | src/watchdog.c:297-299 | of all messages only the running pid is not terminal |
| PidStat.StatReadsInit | src/ps.c:305-330 | the record of a starting daemon is initializing up to three seconds of age and stale after that, and refused when its time is not positive |
| PidStat.StatOfInit | src/ps.c:305-330 | the same for any text behind the tag |
| PidStat.StatOfPanic | src/ps.c:331-345 | the reason of a panic is told by how it begins |
| PidStat.StatOfExit | src/ps.c:346-379 | exit codes of any size, malformed ones, and the unknown exit |
| PidStat.StatOfSignal | src/ps.c:363-375 | signals likewise |
| PidStat.StatOfPid | src/ps.c:380-397 | a file without a tag is a positive pid and a newline, or invalid |
| PidStat.FilterExactly | src/watchdog.c:265-271 | the characters that pass, by their codes |
| PidStat.StopsExactly | src/watchdog.c:254-310 | the daemon stops at an end of file, an error, or an accepted packet that starts RURI_PANIC_ |
| PidStat.SilentRun | src/watchdog.c:292-349 | a run that ends without an accepted terminal record leaves the unknown exit, and is read as that |
| PidDaemon.Daemon.Loop | src/watchdog.c:254-349 | the daemon's loop does to the file what `Serve` says, and holds the lock until it leaves |
| PidDaemon.ServeIsLastAccepted | src/watchdog.c:254-349 | until the daemon stops the file is exactly the last accepted packet, rejected ones leave no trace; it stops at the first end of file, error or accepted panic, and a panic record is never overwritten |
| PidDaemon.RunEndsTerminal | src/watchdog.c:272-349 | every run that ended left a record that starts RURI_EXIT, RURI_SIGNALED or RURI_PANIC |
| PidProtocol.StepInv | src/watchdog.c:158-349 | the invariant of the protocol is kept by every step of parent, daemon, writers and reader |
| PidRuns.RunInv | src/watchdog.c:158-349 | and so holds in every state of every run |
| PidRuns.LockProtocolSafety | src/watchdog.c:182-310 | in every interleaving, once the parent has its OK the daemon holds the lock or the file is terminal, and a reader that takes the lock after that reads a terminal record |
| PidRuns.TerminalIsNot | src/watchdog.c:237-251 | which is neither empty, nor the INIT record, nor a bare pid |
| PidRuns.ServingFile | src/watchdog.c:254-291 | while the daemon waits, the file is the last accepted packet or the INIT record |
| PidRuns.UnlockedFile | src/watchdog.c:182-349 | whenever the daemon does not hold the lock: after the OK the file is terminal, before it the file is as it was before the run, or empty once truncated |
| PidRuns.TerminalExactly | src/watchdog.c:182-349 | so it is terminal if and only if the OK was sent, or nothing was truncated and it was terminal before |
| PidRuns.WhatReadersSee | src/watchdog.c:182-349 | what a reader reads under the lock, at any time, is terminal, empty, or from before the run |
| PidRuns.EarlyReaderSeesNothing | src/watchdog.c:227-240 | from every state in which a run starts with the lock free, a reader can get in before the OK, see the empty file, and make the daemon give up |
| PidDelivery.Delivery | src/watchdog.c:254-291 | packets read and packets waiting together are always all that were sent, in order |
| PidDelivery.EndIsTheEnd | src/watchdog.c:254-310 | the daemon sees the end of file only when no packet is waiting and no writer is left, and reads nothing after a stop |
| PidDelivery.LastReportStands | src/watchdog.c:254-310 | a daemon that is gone because of the end of file leaves the last of all sent packets that passes the filter, or the unknown exit if that is not terminal |
| PidDelivery.ParentIsToldRight | src/watchdog.c:158-240 | the parent gets an OK only if one was sent, and an end of file only from a daemon that gave up before it |
| PidDelivery.AfterOkMeans | src/watchdog.c:182-240 | the reader's flag is whether the parent had its OK when the lock was last taken |
| PollLoop.ExecLoop.constructor | build.c:1148-1168 | the array starts with the pipes that were asked for |
| PollLoop.ExecLoop.ShiftDown | build.c:1246-1249 | the loop closes the gap and keeps the order |
| PollLoop.ExecLoop.RemoveStdin | build.c:1244-1257 | removing stdin leaves the other indices naming their own pipes |
| PollLoop.ExecLoop.RemoveStdout | build.c:1304-1313 | so does removing stdout, although stdin's index is not touched |
| PollLoop.ExecLoop.Grow | build.c:1296-1299 | after one doubling there is always room for a full chunk |
| PollLoop.ExecLoop.ServeStdin | build.c:1236-1293 | the stdin part of a turn: bytes sent are a prefix of the input, and the pipe closes when it says |
| PollLoop.ExecLoop.ReadStdout | build.c:1294-1328 | the stdout part of a turn: data is appended, end of file and hang-up close the pipe |
| PollLoop.ExecLoop.ReadStderr | build.c:1329-1357 | the same for stderr |
| PollLoop.ExecLoop.Run | build.c:1169-1362 | through every removal order and every poll result the open indices ascend, cover exactly 0..nfds and name their own pipes, and the loop does what a loop without indices does |
| PollLoop.Loop | build.c:1169-1362 | pipes only close, the input only advances and never past its end, captured bytes stay and grow at the end |
| PollLoop.AllInputSent | build.c:1236-1293 | as long as the child goes on reading, stdin closes only when all input is through |
| OutputPipe.TurnReads | build.c:1294-1357 | stdout and stderr in a turn, for any answers of the kernel: what is read is appended, and the pipe closes if and only if it hung up or gave nothing; a turn that found stdin full reads nothing |
| OutputPipe.TurnMoves | build.c:1294-1357 | for either pipe: one turn moves bytes from the pipe to the buffer; it closes only after a hang-up, and then leaves nothing if and only if all that was there fits one chunk |
| OutputPipe.OutputIsConserved | build.c:1294-1357 | in every honest run, captured and still pending bytes of stdout, and of stderr, are exactly what the child wrote there, in order |
| OutputPipe.LosslessExactly | build.c:1294-1357 | no honest run closes stdout, or stderr, with bytes left in the pipe if and only if the pipe holds at most one chunk |
| OutputPipe.HangUpDropsTheRest | build.c:1294-1357 | an honest run of one turn that captures the first chunk, closes, and leaves exactly the rest in the pipe |
| OutputPipe.InputArrives | build.c:1236-1293 | the input arrives exactly as far as the child takes it, and stdin is closed at the end if and only if all of it was sent or the child's end failed |
| Scheduler.Compiler.StartChildren | build.c:581-595 | the inner loop starts files in order until the pool is full or none is left |
| Scheduler.Compiler.Compile | build.c:568-617 | the counters follow the pool, and a normal end has no active process, so the trailing wait loop is dead |
| Scheduler.RunConserves | build.c:580-608 | for any order of completion, started files are exactly the first ones in order, each running or done exactly once, and never more than the limit run |
| Scheduler.AllDoneMeansIdle | build.c:580-616 | active = started - completed at all times, and a normal end means every file was started once and is done |
| Scheduler.ProgressNeedsAWorker | build.c:582-597 | something is running after the inner loop if and only if the limit is at least 1 |
| Scheduler.EndsWhenAllAreReaped | build.c:580-608 | with no failing compilation the main loop ends if and only if nothing is left, or the limit is at least 1 and as many children are reaped as there are files left |
| Scheduler.FailsExactly | build.c:580-608 | for any waits, the build fails if and only if one of the children it still has to reap has failed, stops at the first of those, and ends well if and only if all of them have succeeded |
| Caplist.IsInCaplist | src/caplist.c:119-136 | membership in the list up to its sentinel |
| Caplist.AddToCaplist | src/caplist.c:94-117 | the list stays terminated inside its slots and gets the capability at its end unless it is there, unsupported, or the list is full |
| Caplist.DelFromCaplist | src/caplist.c:138-157 | the first occurrence is shifted out, everything else keeps its order |
| Caplist.AddStep | src/caplist.c:94-117 | on a duplicate-free list of supported capabilities adding is set insertion of a supported capability, and there is always room for it |
| Caplist.WithoutRemoves | src/caplist.c:138-157 | and deleting is set removal |
| Caplist.DistinctCount | src/caplist.c:94-117 | a duplicate-free list of supported capabilities always fits |
| Caplist.BuildCaplist | src/caplist.c:158-214 | the result is duplicate-free, terminated inside its slots, and denotes ((privileged ? {} : all minus the common ones) union supported extra drops) minus the extra keeps |
| Caplist.DropsExactly | src/caplist.c:158-214 | number by number: dropped if and only if not kept, and an extra drop the kernel supports or, without `privileged`, any capability but the eleven common ones |
| RuntimeInfo.CapFromName | src/caplist.c:75-91 | the loop that lowers the name and the prefix it puts in front |
| RuntimeInfo.CaseMakesNoDifference | src/caplist.c:77-81 | names that differ in case only are the same capability |
| RuntimeInfo.PrefixLeftOut | src/caplist.c:82-88 | leaving out `cap_` makes no difference to a name of more than four letters, and a shorter one is not found |
| RuntimeInfo.KillNeedsItsPrefix | src/caplist.c:82-88 | `KILL` is not found where `CAP_KILL` is |
| RuntimeInfo.CapsBack | src/rurienv.c:123-138 | written capabilities, named or numbered, are read back in order |
| RuntimeInfo.SectionBack | src/rurienv.c:112-225 | every stored value is found under its key in the parsed text of all of them |
| RuntimeInfo.SectionsAreFine | src/rurienv.c:112-225 | all 18 keys of the file are distinct and all its lines canonical |
| RuntimeRead.Container.Build | src/rurienv.c:112-225 | the calls that thread the buffer produce the sections of the state, in order |
| RuntimeRead.Container.Read | src/rurienv.c:289-486 | reading overwrites the fields as `ReadInfo` says, or the process exits |
| RuntimeRead.CapNumbers | src/rurienv.c:388-402 | the loop over the texts of drop_caplist; one bad text fails the whole list |
| RuntimeRoundTrip.StoreThenRead | src/rurienv.c:380-486 | reading what was stored restores every stored field but the mountpoints, the rootless flag and what is already set, exactly when the file and its lists are within the reader's limits |
| RuntimeRoundTrip.SecondTimeChangesNothing | src/rurienv.c:380-486 | storing the restored state and reading it again changes nothing, as long as the new file can be read |
| RuntimeRoundTrip.StoreThenReadDead | src/rurienv.c:340-361 | a container whose process is gone is left as it is |
| RuntimeRoundTrip.StoreThenReadRootless | src/rurienv.c:364-379 | a rootless container takes the pid, and the work directory and user that it does not have |
| RuntimeRoundTrip.StoreThenUmount | src/rurienv.c:315-336 | the umount path gets the mountpoints and the rootless flag back, and the pids of a live container |
| RuntimeRoundTrip.TooMuchEnvironment | src/rurienv.c:303 | more than 64 KiB of environment cannot be read back, whatever it is read into |
| RuntimeRoundTrip.SomeEnvironmentIsTooMuch | src/rurienv.c:303 | there is a storable state with no more variables than the reader takes that is over 64 KiB |
| RuntimeExact.MainExactly | src/rurienv.c:380-486 | on any file the main branch ends with certain values if and only if the file says them; if it says none the process exits |
| RuntimeExact.RootlessExactly | src/rurienv.c:364-379 | the same for a rootless container |
| RuntimeExact.UmountExactly | src/rurienv.c:315-336 | and for the umount path, which looks for `container_id` only if the container is alive |
| RuntimeExact.ReadExactly | src/rurienv.c:289-486 | the whole of it: no file, a file that is too long or would be warned about, a dead container, and the two branches |
| RuntimeExact.CapExactly | src/rurienv.c:388-402 | a text is the positive number it begins with, or else a name |
| RuntimeExact.LowerExactly | src/caplist.c:77-81 | the loop over a name lowers the letters A to Z and nothing else |
| Passwd.AccumulateDigits | src/passwd.c:67-100 | the digit loop in 32-bit arithmetic computes the field's value modulo 2^32 |
| Passwd.LineGetUsername | src/passwd.c:42-66 | the name field, cut at 512 characters, empty on a malformed line |
| Passwd.LineGetNumber | src/passwd.c:67-134 | the uid, gid or lower-id field, 0 on a malformed line |
| Passwd.GetUsername | src/passwd.c:135-185 | the walk over the lines of /etc/passwd by uid |
| Passwd.GetUserNumber | src/passwd.c:499-608 | the walk by name, with its error flag |
| Passwd.LineGetGroupGid | src/passwd.c:609-647 | the gid field of a group line, an error when anything but digits is in it |
| Passwd.GroupsLineHaveUser | src/passwd.c:648-688 | whether the user is one of the comma-separated members |
| Passwd.GetGroups | src/passwd.c:689-759 | the caller's array gets the groups, and never more than NGROUPS_MAX |
| Passwd.GetIdMap | src/passwd.c:256-420 | the search of /etc/subuid and /etc/subgid |
| Passwd.SearchFindsLine | src/passwd.c:256-420 | dropping one line and searching again always ends, and finds exactly the first line that begins with the key |
| PasswdFiles.LookupsAgree | src/passwd.c:135-185 | on well-formed files the pointer walks are simple list lookups; on the empty file uid 0 and the empty name are found |
| PasswdFiles.GroupsAgree | src/passwd.c:689-759 | for a uid that is there: the primary gid, then in file order the gids of exactly the groups that list the whole name, at most NGROUPS_MAX - 1 in all; only the primary gid when the file is missing, and none at all when it is empty |
| PasswdFiles.GroupsExactly | src/passwd.c:725-741 | the groups are those if and only if the file lists a group |
| PasswdFiles.GroupsOfNobody | src/passwd.c:689-759 | a uid that is not there has no group, but uid 0 has the group 0 in an empty /etc/passwd |
| PasswdFiles.TokensOfMembers | src/passwd.c:648-688 | the tokens of a member field are its members |
| PasswdFiles.IdMapAgrees | src/passwd.c:186-420 | the range, modulo 2^32, of the first entry with exactly the user's name, never of one whose name only ends in it |
| PasswdLines.SkipLineFields | src/passwd.c:42-134 | skipping fields never leaves the line, and fails exactly where the line has too few colons |
| PasswdLines.NumberOfLine | src/passwd.c:67-134 | on any line the number is that of its field, if a colon ends it, and 0 if not |
| PasswdLines.AccumulateExactly | src/passwd.c:67-100 | on any field the loop computes, modulo 2^32, the distances of its characters from 0 in decimal places |
| PasswdLines.GidOfLine | src/passwd.c:609-647 | a group line has a gid if and only if its third field is all digits and a colon ends it |
| PasswdLines.UserOfLine | src/passwd.c:648-688 | on any line the members are the nonempty pieces between commas behind the third colon |
| PasswdLines.AnyPasswd | src/passwd.c:135-608 | the walks over /etc/passwd on any text, malformed and unterminated lines included |
| PasswdLines.AnyGroup | src/passwd.c:718-759 | the loop over /etc/group on any text: no group at all if and only if it comes to a line without a gid before it has as many as it may return, else the gids of the listing lines |
| PasswdLines.AnyIdMap | src/passwd.c:186-420 | the search of /etc/subuid and /etc/subgid on any text: the first line that starts with the name and a colon |
| Mount.ParseMountFlags | src/mount.c:418-504 | the loop ends with the rest of the source, and the old flags OR-ed with those of the prefixes it took off |
| Mount.SplitIsWhole | src/mount.c:418-504 | prefixes and rest together are the source, and the rest starts with no known prefix |
| Mount.SplitIsUnique | src/mount.c:418-504 | there is no other such split |
| Mount.OnePrefix | src/mount.c:448-498 | a text starts with at most one known prefix, so the order of the branches does not matter |
| Mount.OrderDoesNotMatter | src/mount.c:418-504 | reordering or repeating prefixes changes neither rest nor flags |
| Mount.FlagInTable | src/mount.c:447-498 | the flag of every prefix, by its value in the kernel's interface |
| Mount.FlagsExactly | src/mount.c:447-498 | a flag is set afterwards if and only if it was set before or its prefix was there; no two prefixes share a bit |
| Mount.MountDevice | src/mount.c:102-144 | the character loop is the scanner `OnText`, and stops at the first successful mount |
| Mount.TriesDeviceTypes | src/mount.c:102-144 | on well-formed text exactly the names of the lines not labelled nodev are tried, in file order |
| Mount.TryTypesStops | src/mount.c:122-130 | every type but the last tried one failed, and all are tried when none works |
| Mount.ZeroExactly | src/mount.c:102-144 | 0 is returned if and only if a type was mounted or there is no device type to try |
| MountLines.TriesExactly | src/mount.c:102-144 | on any text, the attempts are those that its lines call for, with what earlier lines have left in the two buffers, up to the first that succeeds |

## Left out

- System calls (fork, mount, setns, fcntl, poll, read, write, wait) and libcap: their results are parameters.
- Memory: malloc failure, free, setjmp, and the internal buffers of the parsers; a linked list is a `seq` field, NULL-terminated arrays are sequences up to their end.
- Floats: `k2v3_get_float`, `float_to_k2v3` and their array forms in both libraries.
- `k2v3_get_long_array`, `long_array_to_k2v3` and the `_to_k2v` emitters of `src/k2v.c`: the same loops once more.
- `__k2v_check_singularity` of `src/k2v.c`: it only warns about duplicate keys.
- K2v3Parse.Parse: stops nowhere, as the lenient mode does; where the strict mode would exit is in `warned` only.
- ReadersAgree.ReadersAgreeOn: is about printed documents; what each reader makes of other texts is in `K2v3Warns`, `OldLines` and `OldHand`. OldExact.OldArrayExact is about a document of one array.
- PidRuns.LockProtocolSafety: a daemon that is killed from outside (SIGKILL drops its lock) and a container without a pid file are not steps of the model; file writes and truncates happen whole.
- PidDaemon.Daemon.Loop: a packet is what read() returned, so longer packets are already cut to 255 bytes; the umount after the unlock is not modelled.
- PidRecord.StatReadsMessage: arguments are within 64 bits; the messages printed for each verdict are not modelled.
- PollLoop.ExecLoop.Run: the branch that drains the pipes after the child was reaped (build.c:1171-1228) is not modelled, it reads before it has a buffer; capture buffers are a sequence and a capacity.
- OutputPipe.LosslessExactly: each pipe by itself; a child that blocks on one pipe while the parent waits for another is not modelled.
- K2v3Warns.WarnsExactly: lines that leave an array open are left out; `K2v3Warns.LineExactly` says what a step does there.
- OldArrays.ValsOfSpaced: elements with commas in them are left out, behind a comma and a blank they are cut at their own commas.
- The copy of the poll loop in `cth_exec_block_with_file_input`: the same shape.
- Scheduler.Compiler.Compile: a failed fork ends the model's run, as the error does the process.
- Caplist.BuildCaplist: the last capability is below 114, as `get_last_cap` makes sure of when it reads it; extra drops are not negative and extra lists are terminated.
- RuntimeRead.Container.Read: cleared fields that are never stored (qemu path, cgroup limits, timens offsets) and the warnings about changed fields are not modelled.
- RuntimeRoundTrip.StoreThenRead: libcap's names are an abstract naming whose two directions belong together and in which capability 0 has a name.
- RuntimeRead.UmountRead: only for a file that is there and could be parsed.
- Passwd.LineGetNumber: the text is as read from the file; a missing or unreadable file and the 32-bit types of the callers are not modelled.
- Mount.MountDevice: the 4096-byte buffers hold the whole text; the file's open and read errors are left out.
- Command-line parsing, the field lists of `src/config.c`, seccomp rules, chroot and unshare sequences, terminal output: wide, without state worth proving.
- `ruri_mkdirs` and `humansize_to_bytes`: easy next to the rest.
