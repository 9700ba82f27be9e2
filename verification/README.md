# libreport: verified algorithms

A Dafny model of the algorithms of libreport that carry invariants of their own, and proofs
of what they are for. One module models one source file, or one concern of it:

- `Fips180`, `Fips180Examples`, `Sha1`: the streaming SHA-1. `Fips180` is the Secure Hash
  Standard (FIPS 180-4) written down as functions, `Fips180Examples` works out the two
  examples published with it; `Sha1` is the C code as a class over arrays and 32-bit vectors,
  proved equal to it for every message and every way of feeding it.
- `DumpDirLock`: the lock of a dump directory, a symbolic link holding a process id. Any
  number of processes open, create, delete and close; every system call is one step and any
  process may crash between two of them.
- `NumberFiles`: integers kept in files, read with `strtoull` and range tests modulo 2^64.
- `ReportText`, `CrashReport`, `ReportRoundTrip`: the text a user edits before reporting.
- `Hyperlinks`, `TagUrl`: finding URLs in a line and turning them into links.
- `ProcEscape`: the readable form of `/proc/PID/cmdline` and `environ`.
- `CopyFd`: plain, limited and sparse copies between descriptors.
- `ConfFile`: saving a configuration by difference, and loading it.
- `OptionStore`, `EventExport`, `OptionSecrets`: event options - merged from XML and
  configuration files, exported to the environment over the import graph, kept as a secret.
- `Base64`: the encoder, against RFC 4648.
- `Basics`: what several modules share.

Code that updates buffers or fields step by step is modelled as methods over arrays or
classes and proved against a specification function; the theorems are lemmas about that
function. `dafny verify dfyconfig.toml` checks everything.

Where the code and the comments or documentation around it disagree, the model follows the
code, and a lemma gives the exact condition or a concrete run:

- Breaking a stale lock reads the link, tests the process and unlinks in three calls, so two
  processes can end up with the lock (`DumpDirLock.StaleRace`). Mutual exclusion is proved
  for runs in which the unlink removes what was read.
- When `dd_delete` gives up on `rmdir`, the handle still counts as owning a lock it has
  already removed (`DumpDirLock.CloseAfterFailedDelete`, `DeleteAfterFailedDelete`).
- `dd_lock` tells from `errno` whether the lock was already held; `dd_create` does not reset
  it first, so that it can leak its lock (`DumpDirLock.CreateOwnsIff`). Mutual exclusion
  does not suffer from it (`FaithfulMutualExclusion`).
- `escape` maps two different line beginnings to the same one (`ReportText.EscapeRoundTrip`),
  and a content line that looks like a separator cuts its field (`ReportRoundTrip.FieldCutIff`).
- The number reader rejects `-0`, misses a minus sign behind a blank - so that signed types
  refuse such a number and unsigned ones may take its complement - and returns errors of
  the owner file as user ids (`NumberFiles.LoadsTextIff`, `OwnerRoundTrip`).
- Separators are not counted in the running length of the escaped text, so a second block
  overwrites the end of the first (`ProcEscape.BlocksKeptIff`). Memory stays safe.
- A sparse copy that stops at its size limit on a hole loses it (`CopyFd.HoleLostIff`).
- A name invented for a nameless option can be one that is taken (`OptionStore.NamelessNewIff`).

The lock theorems ask of callers, where they ask anything, two rules: handles on one
directory are closed in LIFO order, and `dd_delete` is not called again on a handle whose
lock it has already removed. Mutual exclusion over whole runs also needs that such a handle
is not closed; those about the files, that elements are saved and deleted under a lock that
is still there. What `dd_lock` promises on its own is proved for runs of any steps: no
opener after a delete, bounded retries, and no leak by a process that does not itself enter
`dd_create` with EALREADY in `errno`.

## Model

| member | source | states |
|---|---|---|
| `Sha1.DigestOfPieces` | src/lib/hash_sha1.c:132-199 | begin, one hash call per piece for any splitting of any message, end: the result is the FIPS 180-4 digest of the joined pieces, on machines of either byte order |
| `Fips180Examples.KnownDigests` | src/lib/hash_sha1.c:132-226 | the digests this comes to: those published with the standard for "abc" and for the message of 56 letters, which takes a second block, worked out word by word and round by round |
| `Sha1.Context.Begin` | src/lib/hash_sha1.c:132-141 | the context starts as the state of the empty message, with the initial hash value of section 5.3.1 |
| `Sha1.Context.ProcessBlock64` | src/lib/hash_sha1.c:65-130 | one call applies exactly the compression of section 6.1.2 to the buffered block |
| `Sha1.Context.LoadWindow` | src/lib/hash_sha1.c:75-81 | the window holds the first sixteen schedule words twice, byte-swapped on little-endian machines |
| `Sha1.Context.ExpandSlot` | src/lib/hash_sha1.c:109-111 | writing both copies of one slot keeps the doubled-window invariant and yields the next schedule word |
| `Sha1.Context.OneRound` | src/lib/hash_sha1.c:94-121 | a pass of the inner loop is the standard's round t = 20i + 19 - j, whether it loads or expands |
| `Sha1.Context.RunRounds` | src/lib/hash_sha1.c:89-123 | the four groups of twenty passes are the eighty rounds |
| `Sha1.Context.Feed` | src/lib/hash_sha1.c:176-199 | the buffering loop keeps hash = fold over the whole blocks and buffer = the pending tail, however the data is cut |
| `Sha1.Context.Update` | src/lib/hash_sha1.c:143-146 | hashing a piece appends it to the message the context stands for |
| `Sha1.Context.Finish` | src/lib/hash_sha1.c:202-226 | the one- or two-pass end loop hashes exactly the padded message of section 5.1.1, the bit count taken modulo 2^64 |
| `Sha1.Context.End` | src/lib/hash_sha1.c:149-164 | the twenty bytes written are the digest of everything absorbed; bytes behind them are untouched |
| `Sha1.Context.PaddingStep` | src/lib/hash_sha1.c:208-225 | each pass of the end loop contributes the right part of the padding, the second one only when fewer than eight bytes were left |
| `Sha1.RewrittenCh` | src/lib/hash_sha1.c:96-98 | the three-operation form of the first group equals Ch of section 4.1.1 |
| `Sha1.RewrittenMaj` | src/lib/hash_sha1.c:105-106 | the form of the third group equals Maj |
| `Sha1.WindowRead` | src/lib/hash_sha1.c:110 | reading up to fifteen places past the slot without masking finds the right earlier schedule word |
| `Sha1.WindowAdvances` | src/lib/hash_sha1.c:110 | overwriting both copies of slot t mod 16 moves the window invariant to round t + 1 (section 6.1.3) |
| `Sha1.PadsInOneBlock` | src/lib/hash_sha1.c:208-225 | with at most 55 pending bytes the padding ends in the same block |
| `Sha1.PadsInTwoBlocks` | src/lib/hash_sha1.c:208-225 | with 56 or more it takes a second block that starts with zeros |
| `Sha1.LengthMod` | src/lib/hash_sha1.c:180-219 | a 64-bit byte counter shifted by three gives the length field of section 5.1.1 modulo 2^64 |
| `DumpDirLock.StepKeepsInv` | src/lib/dump_dir.c:329-496 | a step of any process - system call, crash, library call, with any errno - keeps the lock invariant unless it removes the link of another live process that holds the lock; asked of the step are only the two rules above: LIFO closing, and no second dd_delete on a handle whose lock is already removed |
| `DumpDirLock.SafeIffNoTheft` | src/lib/dump_dir.c:329-496 | under these two rules a step keeps the invariant if and only if it does not remove the link of another live process that holds the lock |
| `DumpDirLock.WhereTheftsHappen` | src/lib/dump_dir.c:368-384 | under them the only such steps are the unlink of a stale lock and closing a handle whose lock the process's own dd_delete has removed |
| `DumpDirLock.FaithfulBreakIsSafe` | src/lib/dump_dir.c:368-379 | a stale unlink that removes the link it read never hits a live process |
| `DumpDirLock.FaithfulRunIsGood` | src/lib/dump_dir.c:329-496 | four conditions on single steps exclude every theft, in every interleaving with crashes: a stale unlink removes the link that was read, handles are closed in LIFO order, and none is closed or deleted again after its own dd_delete has removed the lock |
| `DumpDirLock.FaithfulMutualExclusion` | src/lib/dump_dir.c:329-387 | under these four conditions alone two live processes never both hold the lock, from taking the link to giving it back, and .lock names the holder - also when dd_create is entered with EALREADY in errno, which therefore can only leak a lock |
| `DumpDirLock.MutualExclusion` | src/lib/dump_dir.c:422-482 | the invariant gives at most one live process that holds the lock, and the link names it |
| `DumpDirLock.RunMutualExclusion` | src/lib/dump_dir.c:422-496 | so it is at the end of every run without theft in which the two rules are kept |
| `DumpDirLock.RunLeavesNoLeak` | src/lib/dump_dir.c:422-496 | dd_lock never leaks: in any run at all - other processes may steal links, crash, enter dd_create with any errno, and handles may be closed in any order - if p itself does not enter dd_create with EALREADY and is back in its own code with the link naming it, one of its handles will still remove the link; so a dd_lock that failed, on any exit, after any number of retries, leaves none behind |
| `DumpDirLock.RunOldestOwns` | src/lib/dump_dir.c:422-496 | in runs that keep the two rules and have no theft the link names such a process iff it has a live handle, and exactly the oldest one will remove the link |
| `DumpDirLock.CloseUnlinksLast` | src/lib/dump_dir.c:484-496 | closed in LIFO order, the nested handles of such a process remove the link exactly when the last one closes |
| `DumpDirLock.CloseOrder` | src/include/dump_dir.h:107-111 | closing a live handle keeps the invariant iff it is not the owner or is on top of the stack: the LIFO order is needed |
| `DumpDirLock.StepKeepsFileInv` | src/lib/dump_dir.c:394-420 | if elements are written and deleted only under a lock that is still there, an opener that has seen the time file still has it when it looks at the type file, and what a deleter has still to remove is all there is, after a step of any process |
| `DumpDirLock.RunKeepsFileInv` | src/lib/dump_dir.c:394-420 | so it is in every run of such steps that keeps the two rules and has no theft |
| `DumpDirLock.HolderUndisturbed` | src/lib/dump_dir.c:456-482 | in such a step of another process neither the files nor the link nor the holder change while a process holds the lock |
| `DumpDirLock.OpenedHandleKeepsFiles` | src/lib/dump_dir.c:394-420 | a handle from dd_opendir is on a directory with acceptable time and type files, which in such runs stay until the holder itself changes them |
| `DumpDirLock.DeleteReachesDeleted` | src/lib/dump_dir.c:1513-1514 | the unlink that ends delete_file_dir leaves an empty directory without lock and without holder, whoever else is waiting |
| `DumpDirLock.NoOpenerAfterDelete` | src/lib/dump_dir.c:456-481 | once a deleter has removed the files no opener gets a locked handle, in any run of any steps of all processes, thefts included, until a new time file is saved |
| `DumpDirLock.OpenerGrantedIff` | src/lib/dump_dir.c:394-420 | an opener is given its handle exactly by the step that finds the type file after the time file |
| `DumpDirLock.DeletedStaysDeleted` | src/lib/dump_dir.c:456-481 | if there is no acceptable time file and no opener has just seen one, none passes the check for one in any run of any steps, until a new one is saved |
| `DumpDirLock.RetriesBounded` | src/lib/dump_dir.c:470-478 | one dd_lock backs off at most ten times, in any run of any steps of the others |
| `DumpDirLock.GivesUpAfterRetries` | src/lib/dump_dir.c:433-479 | a dd_lock that may wait, on a directory that stays, ends - if it ends - with a handle, or after exactly as many failed checks as it had retries left; it never gives up on a live holder, whatever the others do |
| `DumpDirLock.OpenGivesUpAfterTen` | src/lib/dump_dir.c:428-479 | hence a waiting dd_opendir has its handle, or has failed the check ten times |
| `DumpDirLock.CreateWaits` | src/lib/dump_dir.c:433-454 | hence dd_create comes back with a handle only, however long others hold the lock |
| `DumpDirLock.DontWaitGivesUp` | src/lib/dump_dir.c:440-474 | with DD_DONT_WAIT_FOR_LOCK seeing a live holder, or failing the check, ends dd_lock without a handle |
| `DumpDirLock.OpenAlone` | src/lib/dump_dir.c:329-482 | the whole effect of a dd_opendir that nobody disturbs: a handle iff the directory is there, complete and not locked by another live process, owning the link unless it was there before; nothing else is changed and nothing left locked |
| `DumpDirLock.WaitsForHolder` | src/lib/dump_dir.c:433-447 | in the one case left out there, a live holder and no such flag, it goes on waiting as long as the holder keeps its link |
| `DumpDirLock.CreatedIsOpenable` | src/lib/dump_dir.c:451-496 | dd_create, saving time and type, and dd_close leave a directory that every process can open |
| `DumpDirLock.DeleteAlone` | src/lib/dump_dir.c:1454-1592 | a dd_delete that nobody disturbs removes elements, link and directory and takes its handle, also when it is called again after one that gave up |
| `DumpDirLock.RmdirGivesUp` | src/lib/dump_dir.c:1567-1588 | with others interfering it keeps its handle after exactly as many failures of rmdir as it had tries left, or is rid of it before |
| `DumpDirLock.DeleteGivesUpAfterFifty` | src/lib/dump_dir.c:1567-1588 | that is fifty tries |
| `DumpDirLock.DiesIff` | src/lib/xfuncs.c:334-338 | a process ends by itself exactly when the link it has to unlink was taken away by somebody else |
| `DumpDirLock.FailureEnds` | src/lib/dump_dir.c:331-382 | a call that fails gives no handle and leaves link and files alone; in dd_lock it ends the operation, unless it was a check, after which the process backs off |
| `DumpDirLock.StaleRace` | src/lib/dump_dir.c:344-379 | a run of two processes from a stale link to two live locked handles: readlink, liveness test and unlink are three calls |
| `DumpDirLock.CreateOwnsIff` | src/lib/dump_dir.c:451-452 | dd_create owns the link it made, and closing removes it, iff errno was not EALREADY on entry |
| `DumpDirLock.TakenLinkClearsErrno` | src/lib/dump_dir.c:331-354 | a stale errno matters only while no link is in the way: a symlink call that finds one overwrites it, and from there on nothing is leaked |
| `DumpDirLock.CloseAfterFailedDelete` | src/lib/dump_dir.c:1573-1592 | a handle closed after its dd_delete gave up on rmdir removes the link of the next holder |
| `DumpDirLock.DeleteAfterFailedDelete` | src/lib/dump_dir.c:1554-1592 | so does a second dd_delete on it, which the handle still allows |
| `NumberFiles.LoadsTextIff` | src/lib/dump_dir.c:216-308 | exactly when the reader reads right: a text of blanks, a sign and digits, with or without a final newline, loads as its value in each of the four types iff it is short enough, the value is in range, and a minus sign comes first and not before a zero |
| `NumberFiles.LoadsOtherwise` | src/lib/dump_dir.c:242-301 | if not it is rejected - as too long if it is, else as out of range - except that a minus sign hidden by blanks makes the complement to 2^64 load where the type holds it |
| `NumberFiles.LoadedIsNumber` | src/lib/dump_dir.c:268-289 | nothing else loads: the text of a file that does is blanks, a sign and digits |
| `NumberFiles.LoadsIffInRange` | src/lib/dump_dir.c:1826-1872 | hence a canonical decimal text loads iff its value is in range, and then as that value, else as an error of range or length |
| `NumberFiles.TypeRange` | src/lib/dump_dir.c:1826-1872 | the four types have 2^32 or 2^64 values, from zero or around it |
| `NumberFiles.NulEnds` | src/lib/dump_dir.c:256-270 | what follows a NUL in the file does not count |
| `NumberFiles.ValueAppend` | src/lib/dump_dir.c:268-270 | the value of digits is by place: those in front count ten times as much for each one behind |
| `NumberFiles.NoLeadingZero` | src/lib/dump_dir.c:722 | printed numbers start with no zero; with the value being that of the number this fixes every digit |
| `NumberFiles.TenDigits` | src/lib/dump_dir.c:722 | the ten digits in order |
| `NumberFiles.ConvertText` | src/lib/dump_dir.c:259-270 | strtoull of such a text leaves its image modulo 2^64 or overflow, and the sign is seen only in the first place |
| `NumberFiles.JudgeSigned` | src/lib/dump_dir.c:259-301 | with the sign seen, comparing images modulo 2^64 decides as comparing the numbers would, except for minus zero |
| `NumberFiles.JudgeHidden` | src/lib/dump_dir.c:291-299 | with the sign hidden the image itself is taken for the number |
| `NumberFiles.CastImage` | src/lib/dump_dir.c:1826-1872 | the narrowing conversion undoes the widening one for every value in range |
| `NumberFiles.MinusZeroRejected` | src/lib/dump_dir.c:291-299 | "-0" is rejected by all four types |
| `NumberFiles.BlankHidesMinus` | src/lib/dump_dir.c:259-266 | an instance: a blank before the minus sign lets a 64-bit unsigned load accept the image of a negative number |
| `NumberFiles.BlankRejectsNegative` | src/lib/dump_dir.c:291-299 | another: the same blank makes the signed types refuse a negative number in their range |
| `NumberFiles.OwnerRoundTrip` | src/lib/dump_dir.c:714-766 | dd_get_owner after dd_set_owner(o) returns o iff o is at most 2^31-1, or is the one user id that the range error casts to |
| `NumberFiles.DefaultOwnerRoundTrip` | src/lib/dump_dir.c:719-766 | after dd_set_owner(-1) it returns the owner in the file system, under the same condition |
| `ReportText.CountInsertions` | src/cli/cli-report.c:36-51 | the counting pass counts exactly the backslashes the copying pass inserts |
| `ReportText.Escape` | src/cli/cli-report.c:30-75 | the buffer of strlen + 1 + count bytes is filled exactly with the escaped text |
| `ReportText.RemoveCommentsAndUnescape` | src/cli/cli-report.c:81-111 | the in-place pass leaves the stripped text, dest never overtaking src |
| `ReportText.EscapeRoundTrip` | src/cli/cli-report.c:30-111 | stripping the escaped text gives the text back iff none of its lines starts with two backslashes and a hash |
| `ReportText.StripsToSeen` | src/cli/cli-report.c:30-111 | in general it gives the text with one backslash less on each such line |
| `CrashReport.ProblemData.WriteField` | src/cli/cli-report.c:117-137 | one field: separator, description, read-only note, escaped content; nothing if the item is missing |
| `CrashReport.ProblemData.Write` | src/cli/cli-report.c:146-191 | the header and the eleven fixed fields, then the one operating-system field the keys select |
| `CrashReport.ProblemData.Read` | src/cli/cli-report.c:201-246 | sets an editable item to the trimmed field text iff that differs from the trimmed old content, and says so |
| `CrashReport.ProblemData.ReadAll` | src/cli/cli-report.c:256-288 | reads the same fields in the same order; 1 iff some field changed |
| `CrashReport.SampleReport` | src/cli/cli-report.c:117-191 | a report written out in full, with eleven fixed fields in order, read-only notes, escaping, and each of the four choices of operating-system data |
| `CrashReport.TrimIs` | src/lib/strbuf.c:104-125 | trimming takes blanks away at both ends and all of them |
| `ReportRoundTrip.StrippedAppend` | src/cli/cli-report.c:81-111 | whole lines can be stripped one piece at a time |
| `ReportRoundTrip.StripWritten` | src/cli/cli-report.c:117-191 | stripping a written report leaves the separators and the contents as escaping lets them be seen, whatever they are |
| `ReportRoundTrip.ValueInPage` | src/cli/cli-report.c:206-216 | looking for a field of a stripped report finds its own content, up to blanks at the end, whatever the other fields hold |
| `ReportRoundTrip.ReadFieldsEach` | src/cli/cli-report.c:256-288 | reading field after field judges each by the original items |
| `ReportRoundTrip.PrintRead` | src/cli/cli-report.c:117-288 | printing d2, stripping it and reading it into d1 of the same shape sets exactly the editable printed fields whose trimmed contents differ from those of d2 as seen, and returns 1 iff there is one, for all contents without a separator line |
| `ReportRoundTrip.PrintReadRoundTrip` | src/cli/cli-report.c:117-288 | hence from those of d2 itself, if no editable content has a line that starts with two backslashes and a hash |
| `ReportRoundTrip.UneditedReport` | src/cli/cli-report.c:117-288 | a report nobody edited is left unchanged and 0 is returned iff no editable content has such a line |
| `ReportRoundTrip.SeenMarks` | src/cli/cli-report.c:54-71 | what escaping does to a content makes no separator line and takes none away |
| `ReportRoundTrip.FieldCutIff` | src/cli/cli-report.c:206-216 | a field is read back whole iff no line of it but the first starts with the separator mark |
| `Hyperlinks.FindEnd` | src/gtk-helpers/hyperlinks.c:7-20 | the minimum over six searches is the first delimiter of any kind, or the end |
| `Hyperlinks.InsertToken` | src/gtk-helpers/hyperlinks.c:43-88 | inserting an occurrence and cutting its two neighbours gives the tokens of the enlarged set of starts |
| `Hyperlinks.FindUrlTokens` | src/gtk-helpers/hyperlinks.c:32-97 | prefix after prefix, the list ends up as the declarative one: a token for each known-prefix occurrence, in order, ending at the first delimiter or the next token |
| `Hyperlinks.TokensAreGood` | src/gtk-helpers/hyperlinks.c:32-97 | tokens are disjoint, sorted, free of delimiters, and each at least as long as its prefix |
| `Hyperlinks.PrefixesApart` | src/gtk-helpers/hyperlinks.c:34 | no known prefix occurs inside another occurrence, so starts are never skipped |
| `Hyperlinks.StartIff` | src/gtk-helpers/hyperlinks.c:34 | a URL starts where one of the four known prefixes stands |
| `Hyperlinks.DelimiterIff` | src/gtk-helpers/hyperlinks.c:7-20 | it ends at one of six characters and at no other |
| `TagUrl.Tag` | src/gtk-helpers/hyperlinks.c:99-128 | the output is text, link, text, ..., for exactly the tokens of the line |
| `TagUrl.TagOnlyReplaces` | src/gtk-helpers/hyperlinks.c:104-126 | with bare URLs in the place of the links that output is the line itself, for any prefix |
| `TagUrl.TagConservesIff` | src/gtk-helpers/hyperlinks.c:99-128 | taking the links out of the output gives every line back iff no URL can begin in the prefix or be completed by it |
| `TagUrl.TagNewlineConserves` | src/gtk-helpers/hyperlinks.c:99-128 | so it does for the prefix all callers pass, a newline |
| `TagUrl.LineTokensSeparate` | src/gtk-helpers/hyperlinks.c:32-97 | between tokens no URL is left |
| `TagUrl.SampleLine` | src/gtk-helpers/hyperlinks.c:99-128 | a line written out, with the link in full |
| `ProcEscape.AppendEscaped` | src/lib/get_cmdline.c:28-84 | the single pass writes the escaped word: bare if nothing needs escaping, else quoted, in at most 4 len + 3 bytes |
| `ProcEscape.EscapeBlock` | src/lib/get_cmdline.c:109-121 | a block becomes its NUL-separated words, escaped and joined |
| `ProcEscape.GetEscaped` | src/lib/get_cmdline.c:86-136 | every write is inside the buffer allocated for its block, for any number and sizes of blocks; the result is the assembled text |
| `ProcEscape.OneBlockDecodes` | src/lib/get_cmdline.c:109-130 | what arrives in one read is uniquely decodable to its word list, for both separators in use |
| `ProcEscape.DecodeJoined` | src/lib/get_cmdline.c:111-121 | the same for any list of words |
| `ProcEscape.UnquoteEncoded` | src/lib/get_cmdline.c:60-82 | quoting and hex codes are undone, closing quote included |
| `ProcEscape.BlocksKeptIff` | src/lib/get_cmdline.c:115-120 | with several blocks all text is kept iff every block but the last holds a single word, because separators are not counted |
| `ProcEscape.BareIff` | src/lib/get_cmdline.c:38-55 | a word comes out unchanged iff it is not empty and all of it is printable, without blanks, quotes and backslashes |
| `ProcEscape.EveryCode` | src/lib/get_cmdline.c:60-82 | what each kind of byte becomes between quotes |
| `ProcEscape.WordsSplit` | src/lib/get_cmdline.c:111-121 | the words are what the NUL bytes of a block separate: with these between them they are the block again, but for a NUL at its end |
| `ProcEscape.LengthLimited` | src/lib/get_cmdline.c:95 | the running length never gets more than a block beyond the limit of one megabyte |
| `CopyFd.FullFdAction` | src/lib/copyfd.c:31-129 | the loop computes the outcome function, for every way reads, seeks and writes may go, with or without a destination, and for an invalid source |
| `CopyFd.CountIsExact` | src/lib/copyfd.c:94-95 | without a destination the source is counted, and only a read error fails |
| `CopyFd.CopyFdSize` | src/lib/copyfd.c:152-162 | succeeds iff every round up to the limit goes well and a hole at the end of the source can be closed; then it reports the number of wanted bytes, at most the limit, and the file holds exactly these unless the reads end the copy on a hole; a failed copy appends a part of them |
| `CopyFd.CopyFdEof` | src/lib/copyfd.c:175-178 | succeeds under the same condition, and then the file holds the whole source, sparse or not, whichever seeks fail; a failed copy appends a part of it |
| `CopyFd.RunOutcome` | src/lib/copyfd.c:64-121 | from any point of the copy: an error-free end leaves the wanted bytes, or a final hole standing for zeros |
| `CopyFd.CopyIsExact` | src/lib/copyfd.c:31-129 | without error the count exceeds a limit iff the source does, and the bytes are the wanted ones iff the copy did not stop at the limit on a seek; with an error they are a part of them |
| `CopyFd.CopySucceedsIff` | src/lib/copyfd.c:64-121 | the exact condition on the rounds for success: up to the limit there is no read error, whatever is wanted is seeked over or written in full, and if the source ends on a hole the last byte can be written |
| `CopyFd.RunAppends` | src/lib/copyfd.c:64-121 | however a copy ends, what the file held before is still there |
| `CopyFd.HoleLostIff` | src/lib/copyfd.c:85-121 | the exact condition on the reads: a copy without error holds the wanted bytes iff it does not reach its limit, with data left, on a hole that can be seeked over like all before it |
| `CopyFd.NonzeroEndIsKept` | src/lib/copyfd.c:85-121 | nothing is lost when the last wanted byte is not zero |
| `CopyFd.FixupCompletes` | src/lib/copyfd.c:69-77 | going back one byte and writing a zero completes a final hole |
| `CopyFd.HoleIsLost` | src/lib/copyfd.c:89-93 | a limited sparse copy that loses its final hole |
| `ConfFile.Bsearch` | src/lib/configuration_files.c:446 | bisection finds the path in the sorted entries iff it is there |
| `ConfFile.ShiftOut` | src/lib/configuration_files.c:451-454 | shifting in place removes one entry and keeps the others in order |
| `ConfFile.StrikeOff` | src/lib/configuration_files.c:442-457 | the array stays sorted and equal to the old names minus those visited |
| `ConfFile.SetOptions` | src/lib/configuration_files.c:435-470 | every option is set, and the names left are those no setting uses |
| `ConfFile.Save` | src/lib/configuration_files.c:392-498 | succeeds iff no set, removal or save fails, and then tree and file hold exactly the settings; otherwise the file is as before |
| `ConfFile.Settings.Load` | src/lib/configuration_files.c:283-303 | the options up to the first unreadable one are put over the settings |
| `ConfFile.LoadAfterSave` | src/lib/configuration_files.c:283-498 | loading a saved file gives back exactly the settings iff no name has a slash and, when empty ones are skipped, no value is empty |
| `ConfFile.LastMatchWins` | src/lib/configuration_files.c:283-303 | where two matches end in the same option the later one counts |
| `ConfFile.SortSorts` | src/lib/configuration_files.c:382-389 | sorting by strcmp keeps the members and orders them strictly |
| `EventExport.ImportShrinks` | src/lib/event_config.c:316-332 | along an import the set of reachable configurations shrinks, so the recursion ends |
| `EventExport.RecursionEndsIff` | src/lib/event_config.c:310-332 | an event leads to no import cycle iff the calls for its imports nest to a bounded depth; on a cycle they nest to any depth |
| `EventExport.Export` | src/lib/event_config.c:310-356 | the list names each exported variable once and nothing else, and the environment is the old one overridden by them; the process dies iff setenv must refuse a name |
| `EventExport.LastImportDecides` | src/lib/event_config.c:317-352 | a variable that an import sets, no later import does and the event has no option with a value for is set, to the value from that import |
| `EventExport.SetsIff` | src/lib/event_config.c:310-356 | exporting an event sets the names of its own options with a value and those its imports set, and nothing else |
| `EventExport.LinkIsFollowed` | src/lib/event_config.c:297-308 | a symbolic link stands for the event it points to |
| `EventExport.OwnOptionWins` | src/lib/event_config.c:297-352 | an event's own option with a value beats every import, also when the event is looked up through a link |
| `EventExport.Unexport` | src/lib/event_config.c:365-376 | unsets the variables named before the first equals sign of each entry |
| `EventExport.UpToEquals` | src/lib/xfuncs.c:236-248 | that name is the text up to the first equals sign |
| `EventExport.ExportAndUnexport` | src/lib/event_config.c:310-376 | exporting and unexporting leaves every other variable as it was |
| `OptionStore.OptionList.ConsumeCurOption` | src/lib/event_xml_parser.c:127-166 | one parsed option replaces the one of its name but keeps a value that is there, or is appended; a nameless one is called after the length of the list |
| `OptionStore.OptionList.LoadConf` | src/lib/event_config.c:193-213 | the lines of a .conf file are merged one after the other |
| `OptionStore.ApplyKeeps` | src/lib/event_xml_parser.c:146-165 | a change keeps names unique and in place and touches no other option |
| `OptionStore.ApplyValue` | src/lib/event_xml_parser.c:147-159 | an XML default never displaces a value, a .conf line always sets one |
| `OptionStore.RunUnique` | src/lib/event_config.c:193-213 | names are unique after any sequence of XML elements and .conf lines |
| `OptionStore.LastConfWins` | src/lib/event_config.c:193-213 | over every run the last .conf line for an option gives its value, whenever the XML comes |
| `OptionStore.FirstDefaultWins` | src/lib/event_xml_parser.c:147-159 | without one the first default given wins |
| `OptionStore.ApplyKind` | src/lib/event_xml_parser.c:146-165 | an XML element sets the kind of an option, a .conf line keeps the one there is |
| `OptionStore.LastXmlKind` | src/lib/event_config.c:193-213 | over every run the last XML element for an option gives its kind, whatever the .conf lines, so a password stays one |
| `OptionStore.ConfOnlyKind` | src/lib/event_config.c:203-213 | an option the XML does not have is a text option |
| `OptionStore.NamelessAppendsIff` | src/lib/event_xml_parser.c:137-165 | a nameless option becomes a new one iff no option has the name invented for it |
| `OptionStore.NamelessNewIff` | src/lib/event_xml_parser.c:137-165 | in a run every nameless option becomes a new one iff no name given before it is the one invented for it; invented names never meet |
| `OptionStore.NamelessReplaces` | src/lib/event_xml_parser.c:137-165 | an option called 1 is replaced by a nameless one that follows it |
| `OptionStore.RunNames` | src/lib/event_xml_parser.c:144-165 | the names of a run are those its changes are about |
| `OptionSecrets.CreateSecret` | src/gtk-helpers/secrets.c:992-1023 | the bytes are name=value and a zero byte for each option with a value, passwords only on request |
| `OptionSecrets.LoadSecret` | src/gtk-helpers/secrets.c:1323-1357 | the loop puts each known entry into the list, skips entries without delimiter and stops at an unterminated one |
| `OptionSecrets.SecretRoundTrip` | src/gtk-helpers/secrets.c:992-1357 | reading a written secret back restores every stored value and leaves the other options alone, for every list with these names, iff no stored name has an equals sign |
| `OptionSecrets.RunSecretRoundTrip` | src/gtk-helpers/secrets.c:992-1357 | this applies to the list any run of merges builds |
| `OptionSecrets.WhatIsRestored` | src/gtk-helpers/secrets.c:992-1357 | option by option: it takes the stored value back unless it had none, or is a password and passwords were not asked for |
| `OptionSecrets.PasswordsDoNotShow` | src/gtk-helpers/secrets.c:999-1000 | a secret written without passwords does not depend on them |
| `OptionSecrets.LoadedOnlyValues` | src/gtk-helpers/secrets.c:1326-1356 | whatever the data, only values change, and never of an option with an equals sign in its name |
| `Base64.ShiftsAreDigits` | src/lib/encbase64.c:76-79 | the shifted and masked numbers are the four 6-bit digits of the 24-bit group |
| `Base64.Encode64Bit` | src/lib/encbase64.c:57-86 | the buffer holds exactly the RFC 4648 section 4 text and a zero byte, the padding written backwards |
| `Base64.EncodeBase64` | src/lib/encbase64.c:88-93 | the allocated size is exactly the text and its terminator |
| `Base64.Base64RoundTrip` | src/lib/encbase64.c:57-93 | decoding the text gives the bytes back |
| `Base64.Alphabet` | src/lib/encbase64.c:24-34 | the 64 digits of section 4 of RFC 4648 in order |
| `Base64.TestVectors` | src/lib/encbase64.c:57-93 | the first test vectors of section 10 of RFC 4648 |
| `Base64.LongerTestVectors` | src/lib/encbase64.c:57-93 | the others |

## Left out

- DumpDirLock: is a transition system on values, not a set of methods, because its calls interleave with those of other processes and `dd_lock` may wait forever for a live holder; that the waiting ends is therefore not claimed.
- DumpDirLock.FaithfulMutualExclusion: does not hold for the code without its conditions (LIFO closing, no close and no second `dd_delete` of a handle whose lock is removed, a stale unlink removes what was read); `CloseOrder`, `CloseAfterFailedDelete`, `DeleteAfterFailedDelete` and `StaleRace` show what each excludes. Process ids are not reused.
- DumpDirLock.OpenedHandleKeepsFiles: asks that elements are saved and deleted only under a lock that is still there; the code lets them be written through any handle marked locked. A directory removed and created again under its name is one directory here, which only adds runs; the meta-data sub-directory counts as one of the other elements, and `readdir` is one snapshot.
- NumberFiles.ReadNumber: is not stated for an empty file, where the source reads the byte before its buffer.
- NumberFiles.OwnerRoundTrip: user ids are 32 bits and `long` 64 bits wide.
- ReportRoundTrip.PrintRead: asks that no printed content has a line that starts with the separator mark; `FieldCutIff` has the exact condition for one field. Description lines are taken to start with a hash in every translation.
- ProcEscape.OneBlockDecodes: is about one read; for more blocks `BlocksKeptIff` says when nothing is lost.
- ConfFile.Save: the augeas library is a map from paths to values, so nested nodes, comments and values that are absent are not represented; `qsort` is a sorting function; a failing initialisation or match is left out.
- EventExport.Export: the environment and the hash tables are maps; that the listed names share memory with the options is not modelled.
- EventExport.Values: like everything about exporting, is stated for events that lead to no import cycle; by `RecursionEndsIff` the code, which has no cycle check, does not come back from any other.
- OptionStore.OptionList.LoadConf: the order of the lines is any, as a hash table gives it, and XML elements and lines may alternate, while the loader parses all XML files first; labels, notes and other fields of an option that the merge does not look at are dropped. The length of a list is below 2^32.
- OptionSecrets.LoadSecret: reading past the end of data without a terminator is taken as finding none.
- Everything graphical, the conversation with the key ring, logging, translation, ownership and mode bits, allocation failure.
- `str_to_sha1` and the hexadecimal printers, `copyfd_exact_size`, user settings, string list look-ups: they would only add easy members.
- `get_env_variable_ext`, `get_mountinfo_for_mount_point` and `missing_items_in_comma_list`: scanners without a clean specification to prove.
- Archives, uploads and bug-tracker clients: wrappers over libraries that are not part of this model.
