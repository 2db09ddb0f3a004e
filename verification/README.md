# Verification of wstools

A Dafny 4.11 model of the algorithms and protocols inside the `wstools` toolbox, with proofs of what they
keep. `dafny verify dfyconfig.toml` checks everything.

| file | models |
|---|---|
| `Bytes.dfy`, `Readers.dfy` | bytes, newline counting, chunked readers with a reused buffer |
| `Tail.dfy` | the backward block reader of `tail` |
| `Replace.dfy` | literal search and replace, and its slow and quick modes |
| `Base64Wrap.dfy` | base64 (section 4 of RFC 4648) and its line wrapping (section 6.8 of RFC 2045) |
| `Debounce.dfy` | the debounced script runner of `fsnotify` |
| `SshFanIn.dfy` | opening clients, and the count-and-close collectors of batch sending and of one-shot commands |
| `SshBatch.dfy` | the interactive broadcast of commands |
| `Compare.dfy` | comparing two streams chunk by chunk |
| `Paths.dfy` | path strings: cleaning, joining, the strings a walk visits, and the prefix trimmed off them |
| `FileTree.dfy`, `CopyTree.dfy` | file systems as maps, and what comparing and copying trees means on them |
| `FileSystem.dfy` | the comparing and copying of files and trees, on a file system that is updated in place |
| `Units.dfy` | sizes and ages with unit suffixes |

Code that updates state is a class or a method with loops, proved against specification functions about which
the lemmas speak: `TailFile`, `Disk`, `EventHook`, `FileSystem`, `Reader`. The goroutine protocols of
`common/cli/ssh.go` and `command/ssh.go` are transition systems: a state, the atomic steps of every goroutine
(`Enabled`, `Step`), and arbitrary interleavings (`Run`, `Exec`); a remote call returns any result, but for a session
that has run a command already.
`EventHook` performs the steps of the same kind of system for `fsnotify`.

## What the code does not keep

The code is modelled as written. Where it does not do what it promises, the exact condition is proved.

- `TailLine` stops as soon as `l >= line`. If that is reached on a block boundary inside a line it starts in the
  middle of that line. `TailStartIsReference` gives the condition; with `l > line` it is always right (`SeekBack`
  with `strict`), whatever the block size. Asked for the last line of a file that is one line longer than a block,
  it prints the end of that line, for every block size (`LongLastLineIsCut`).
- `RunTail` opens its reader with `size` and `offset` 0, so `-l` prints the whole file. That is the last `line`
  lines exactly when the file has no more line feeds than that. `-i` with a positive index prints nothing, and with
  any other index, negative ones included, it prints from the start (`RunTail`). `TailFile` takes any starting
  offset; an offset equal to the file length is the one that is meant.
- `parseCompany("b")` indexes before the string (`PanicIff`).
- The slow mode of `replace` counts what the quick mode counts, on every file, exactly for patterns that hold no
  LF and do not end in CR (`CountsAgreeIff`); it writes the same bytes exactly when every line ends in CRLF
  (`ModesAgreeIff`); it reads the file's lines exactly when each fits bufio's buffer (`LinesReadIff`), because
  `isPrefix` is ignored. In a text with one match, that match is counted exactly when it lies
  inside one of the lines read (`OneMatchIff`); the end of a full buffer can cut through it (`CutMatchIsLost`).
- `base64Wrap` encodes all 57 bytes of its buffer for a short chunk. Its output is the base64 of its input exactly
  when every read is full (`ShippedIsBase64Iff`): a short last chunk drags the end of the one before along
  (`ShippedStaleLine`). The meant `b[:n]` is proved right for every length.
- A change that arrives while the script runs is dropped, and no later start covers it (`ChangeIsFollowedIff`).
  A path without a script stays in the map for ever after its first change (`UnscriptedStays`). Changes of the files
  in a watched directory carry the files' own names, so the directory's script never runs for them
  (`DirectoryScriptNeverRuns`).
- `SSHBatchCommond` blocks for ever on a host whose session did not open: no run gets stuck, in whatever order
  the hosts are served, exactly when all sessions opened (`NeverStuckIff`). A session refuses to run a second
  command, so only a host's first call can succeed (`OnlyFirstLineSucceeds`). One result object is shared per worker
  and its error is never cleared: a line tells how its own call ended exactly unless that call succeeded and another
  of the same host has failed before the line is printed (`LineTellsOutcomeIff`). So a first success can be printed
  as a failure, when the second call fails before the printer comes to it (`SuccessPrintedAsFailure`).
- `Comparebyte` is right when it says yes; it says yes only if both readers cut the streams up alike, and how they
  are cut up is without effect exactly for streams of at most one byte (`ChunkingMattersIff`, `CompareRechunked`).
- `ComparePath` gives up with an error exactly when a regular file in the target stands where the walk has to go
  on (`ObstructedIff`), for that error is not "does not exist". A regular file as the target itself is such an
  obstruction, even for an empty source, because the target is opened with a separator at its end: the one
  difference is not reported (`FileAsTargetObstructs`).
- `CopyDir` does not clean its source, but the walk cleans what it visits below it. The prefix is trimmed off
  exactly when the source is spelled as the walk spells it and is not just a dot (`TrimmedIff`). Otherwise
  everything lands where the cleaned source leads from the target (`PlaceIs`): for "./name" one directory too deep
  (`DotSlashLandsDeeper`). The copy can succeed all the same (`DotSlashCopy`), but with a file in the source and a
  fresh target the comparison that follows is clean exactly when the source was spelled so or leads back to the
  target (`CleanCopyIff`). `ComparePath` cleans both paths and has no such flaw (`ComparedPlaces`). An empty path
  panics, and a copy that fails leaves behind what it had copied by then (`CopyDir`, `PartlyCopied`).
- `Copy` of a file onto itself empties it, and of a directory leaves an empty file (contract of `Copy`).
- The help of `find` says that an age without a unit counts seconds; the code counts nanoseconds. Its year has
  30 * 365 days, and ten of them overflow 64 bits (`AgeUnit`, `AgeCutOffIff`). An age of exactly n units and one
  nanosecond is matched neither by "nU" nor by "-nU" (`AgeRange`).
- `find` takes magnitudes through a 64-bit float, which keeps exactly the multiples of the floats' spacing
  (`FloatAbsIff`): a bare "-n" or an age without a unit above 2^53 is off unless it is one (`SizeRangeIff`,
  `AgeCutOffIff`).

## Model

| member | source | states |
|---|---|---|
| `Tail.TailFile.ReadBlock` | common/cli/tail.go:64-84 | the block before the offset is read, the offset falls to its start, EOF exactly at offset 0 |
| `Tail.SkipLines` | common/cli/tail.go:175-182 | skipping the surplus newlines of the last block: the lookup never misses, and it ends right after the last one skipped |
| `Tail.TailFile.SeekBack` | common/cli/tail.go:165-186 | the search ends at the reference position, raised to the block boundary where the count was reached; with a strict exit test at the reference for every block size |
| `Tail.TailFile.TailLine` | common/cli/tail.go:157-202 | the output is the file from that position, or its first lines; EOF exactly when fewer complete lines follow than asked for |
| `TailSpec.TailStartCount` | common/cli/tail.go:173-186 | what is printed holds exactly min(line, all) newlines, for every file, count and block size |
| `TailSpec.RefStartUnique` | command/tail.go:22-22 | the reference is the one position with `line` newlines after it that follows a newline, or 0 if there are no more than `line` |
| `TailSpec.TailStartIsReference` | common/cli/tail.go:174-184 | the start is the reference exactly when no non-zero block boundary inside a line has the exact count after it |
| `TailSpec.LongLastLineIsCut` | common/cli/tail.go:173-186 | for every block size: of a file that is one line longer than a block, only the last block is printed as its last line |
| `TailSpec.TailSliceCount` | common/cli/tail.go:189-199 | with a line limit: a slice from the start with min(lines, line, all) newlines that ends in one unless it is empty |
| `Tail.TailFile.CopyLines` | common/cli/tail.go:190-199 | complete lines are copied up to the limit; an unterminated rest ends the copy with EOF and is not written |
| `Tail.TailFile.Read` | common/cli/tail.go:86-111 | a range or some lines from an offset; EOF and no output beyond the recorded size; a negative offset leaves the position alone |
| `Tail.TailFile.CollectBlocks` | common/cli/tail.go:123-143 | the blocks read in reverse join up to the bytes from the last newline before the old offset, which becomes the offset |
| `Tail.Assemble` | common/cli/tail.go:145-153 | the blocks are stitched together last one first, within the buffer |
| `Tail.TailFile.ReadLine` | common/cli/tail.go:114-154 | one call takes the next piece off the tiling of the file, whatever the block size; the offset strictly falls |
| `TailSpec.PiecesTile` | common/cli/tail.go:114-154 | the results of repeated calls in reverse order are the file up to the offset |
| `TailSpec.PiecesAreLines` | common/cli/tail.go:132-137 | no result is empty, and each holds a newline only at its front; all but the last have one there |
| `Tail.RunTail` | common/cli/tail.go:25-55 | the command as shipped, for every line count, index and size: whole file for a line count, right exactly if the file has no more newlines; nothing for a positive index, the start for any other; when it panics |
| `Matching.SplitUnique` | common/cli/replace.go:54-59 | the pieces between matches are the one way to cut the text at leftmost non-overlapping matches |
| `Matching.ReplaceIsSplitJoin` | common/cli/replace.go:62-67 | replacing is splitting on OldB and joining with NewB; one piece more than matches; no piece holds OldB |
| `Matching.ReplaceLength` | common/cli/replace.go:62-67 | the length changes by the same amount for every match |
| `Matching.ReplaceBySelf` | common/cli/replace.go:62-67 | replacing OldB by itself is the identity |
| `Matching.CountZeroIff` | common/cli/replace.go:99-103 | the count is zero exactly when no NewB changes the text |
| `Matching.ReplaceConcat` | common/cli/replace.go:54-67 | counting and replacing distribute over a cut that no occurrence straddles |
| `LineReplace.ReplaceByLine` | common/cli/replace.go:130-141 | whole-file replacement is the lines' replacements under their own terminators, and the counts add up |
| `LineReplace.RawLinesAre` | common/cli/replace.go:130-141 | the lines of a file tile it, each cut after its first LF |
| `LineReplace.TerminatorIs` | common/cli/replace.go:130-141 | a line ends in CRLF exactly if its last two bytes are 13 and 10, in LF if only the last is 10, else in nothing |
| `LineReplace.CountsAgreeIff` | common/cli/replace.go:135-138 | line-wise counting agrees with whole-file counting on every file exactly for patterns without LF that do not end in CR |
| `LineReplace.ModesAgreeIff` | common/cli/replace.go:139-140 | both modes write the same bytes exactly when every line ends in CRLF |
| `LineReplace.LinesReadIff` | common/cli/replace.go:131-134 | with the prefix flag ignored, the lines read are the file's lines exactly when each fits the buffer |
| `LineReplace.ReadLineIs` | common/cli/replace.go:131-138 | a read hands out all it consumes but a terminator, which it recognises exactly; short of one it stops only at the end or at the full buffer, keeping a CR back |
| `LineReplace.ReadsTile` | common/cli/replace.go:126-141 | read after read, the lines and the LF or CRLF left out between them are the whole file, whatever fits the buffer |
| `LineReplace.SlowRefinesQuick` | common/cli/replace.go:92-159 | the slow mode refines the quick one: same count, same replaced lines, each under CRLF instead of its terminator |
| `LineReplace.OneMatchIff` | common/cli/replace.go:131-138 | for every text with one match: the line mode counts it exactly when it lies inside one of the lines read, else it counts none |
| `LineReplace.CutMatchIsLost` | common/cli/replace.go:131-138 | the failing family: if the end of the first read cuts through the one match, the line mode counts none |
| `LineReplace.Disk.QuickRun` | common/cli/replace.go:93-111 | the file is rewritten exactly when something matches; nothing else changes |
| `LineReplace.Disk.RewriteLines` | common/cli/replace.go:126-141 | the temporary file gets every line replaced and ended by CRLF, and the count is that of the lines |
| `LineReplace.Disk.SlowRun` | common/cli/replace.go:112-157 | the temporary file takes the place of the original exactly when something matched, and is gone in every case |
| `LineReplace.Disk.Run` | common/cli/replace.go:15-38 | empty arguments are refused; both modes agree on whether to rewrite; no third file is touched |
| `Base64.RoundTrip` | common/cli/mail.go:297-301 | decoding the encoding gives the input back, padding included, for every length |
| `Base64.SymbolIs` | common/cli/mail.go:297-301 | the characters are those of the standard alphabet, in its order |
| `Base64.EncodingIs` | common/cli/mail.go:297-301 | every group of three bytes, zero-filled, is encoded six bits a character, the highest first, with "=" exactly where there is no byte |
| `Base64.EncodeConcat` | common/cli/mail.go:282-298 | encoding distributes over cuts at multiples of three, as 57 is |
| `Base64Wrap.Wrap` | common/cli/mail.go:281-306 | the loop's output for any chunks, as shipped and as meant, through one reused buffer and a stale input buffer |
| `Base64Wrap.NextLine` | common/cli/mail.go:288-304 | one chunk becomes one line; the output buffer again ends in CRLF |
| `Base64Wrap.WriteLine` | common/cli/mail.go:296-304 | encoding and the aliasing append give the line and CRLF, and leave CRLF at 76 and 77 |
| `Base64Wrap.TrimmedIsBase64` | common/cli/mail.go:281-306 | as meant: without line breaks the output is the base64 of the whole input and decodes to it |
| `Base64Wrap.TrimmedShape` | common/cli/mail.go:282-283 | as meant: every line but the last has 76 characters and no padding, the last at most 76 |
| `Base64Wrap.TrimmedAt` | common/cli/mail.go:281-306 | as meant: at every 78th byte starts a line, the base64 of the next 57 bytes or of what is left, and then 13 and 10 |
| `Base64Wrap.TrimmedLength` | common/cli/mail.go:281-306 | as meant: the length is 4 per started group of three plus 2 per started line |
| `Base64Wrap.ShippedIsBase64Iff` | common/cli/mail.go:299-303 | as shipped: the output is the base64 of the input exactly when every read fills the buffer |
| `Base64Wrap.ShippedOnFileIff` | common/cli/mail.go:299-303 | as shipped, on a regular file: exactly for lengths that are multiples of 57 |
| `Base64Wrap.ShippedStaleLine` | common/cli/mail.go:288-303 | as shipped: a shorter read after full ones is encoded with the end of the one before behind it |
| `Debounce.EventHook.OnEvent` | common/cli/fsnotify.go:134-153 | one change: dropped if the path is in the map, else entered, with a goroutine if it has a script |
| `Debounce.EventHook.StartScript` | common/cli/fsnotify.go:143-144 | after ten seconds the script starts |
| `Debounce.EventHook.EndScript` | common/cli/fsnotify.go:145-150 | when it has ended the path leaves the map |
| `DebounceSpec.OneInFlight` | common/cli/fsnotify.go:133-152 | in every run a scripted path is in the map exactly when one goroutine, and only one, is in flight for it |
| `DebounceSpec.StartsApart` | command/fsnotify.go:21-21 | in every run two starts of one script lie ten seconds or more apart, and the first has ended |
| `DebounceSpec.JobHistory` | common/cli/fsnotify.go:139-150 | in every run a goroutine's times are those of its change, its script's start and its end in the run, and 10,000,000,000 ns or more lie between change and start |
| `DebounceSpec.ScriptCanRun` | common/cli/fsnotify.go:142-150 | from every reachable state a waiting goroutine can run its script as soon as ten seconds have passed, and then its path is free |
| `DebounceSpec.AcceptedAreConserved` | common/cli/fsnotify.go:135-151 | over every run, accepted changes are finished scripts plus the one in flight |
| `DebounceSpec.ChangeIsFollowed` | common/cli/fsnotify.go:135-144 | a change outside the script's run is followed by a start, in every run that goes on until the path is free |
| `DebounceSpec.ChangeIsFollowedIff` | common/cli/fsnotify.go:135-150 | a last change is followed by a start exactly when it did not arrive while the script ran |
| `DebounceSpec.ChangeCanBeLost` | common/cli/fsnotify.go:136-138 | a run in which such a change is lost |
| `DebounceSpec.UnscriptedStays` | common/cli/fsnotify.go:134-141 | in every run a path without a script is in the map exactly when it has ever changed, and nothing is started for it |
| `DebounceSpec.DirectoryScriptNeverRuns` | common/cli/fsnotify.go:109-152 | with a directory and its script given, no run in which only files below it change starts the script |
| `SshClients.InitClients` | common/cli/ssh.go:210-226 | a host is a key exactly when one of its connections opens, its client is the last of them, and there are no more clients than connections |
| `SshFanIn.SafeRuns` | common/cli/ssh.go:86-103 | in every interleaving no send meets the closed channel, unsent + buffered + received = clients, no host is printed twice |
| `SshFanIn.ClosedMeansAllPrinted` | command/ssh.go:133-141 | when the channel is closed each client's one result has been printed |
| `SshFanIn.PrintedAreOutcomes` | command/ssh.go:124-140 | a printed result is the outcome of that host's call, or the error of its session sent by the launcher |
| `SshFanIn.PrintedInOrder` | common/cli/ssh.go:95-102 | in every interleaving the results printed, and then the one in the channel, are those sent, in order |
| `SshFanIn.Progress` | command/ssh.go:119-141 | no reachable unfinished state is a deadlock |
| `SshFanIn.RunsFinish` | common/cli/ssh.go:86-103 | no run is longer than six steps a client and the close; a run that cannot go on has printed, closed and ended every worker |
| `SshBatch.DeliveredInOrder` | common/cli/ssh.go:166-178 | in every run each host has received the broadcast commands in order, all or all but the last |
| `SshBatch.HostsWithinOne` | common/cli/ssh.go:174-177 | no host is more than one command ahead, and one host's commands are a prefix of another's |
| `SshBatch.ResultsConserved` | common/cli/ssh.go:124-136 | received = printed + in the channel + at most one in progress, and the channel stays within its capacity |
| `SshBatch.OrderIsKept` | common/cli/ssh.go:133-178 | in every run lines come out in the order of the reports, those in the channel next; hosts are served in the orders ranged over, command by command; what is broadcast is what was taken |
| `SshBatch.FirstResultsNeverWait` | common/cli/ssh.go:141-142 | as the channel has room for every connection, no worker ever waits with the result of the first command |
| `SshBatch.Progress` | common/cli/ssh.go:142-178 | with all sessions open some call, report or print, or the handoff to the one host whose turn it is, is enabled unless all is quiet |
| `SshBatch.RoundBounded` | common/cli/ssh.go:166-178 | without new commands every run is bounded by the work left |
| `SshBatch.CanFinish` | common/cli/ssh.go:152-178 | with all sessions open the commands taken can be carried through to the last printed result |
| `SshBatch.RoundsEnd` | common/cli/ssh.go:152-178 | with all sessions open every run without new commands is bounded, and it cannot go on exactly when all results are printed |
| `SshBatch.AbsentBlocks` | common/cli/ssh.go:145-147 | with a session missing the dispatcher never finishes handing out its first command |
| `SshBatch.NeverStuckIff` | common/cli/ssh.go:144-178 | every reachable state that only waits for a command has printed all results, exactly when every session opened |
| `SshBatch.FailureSticks` | common/cli/ssh.go:125-134 | after a host's first failed call every line printed for it reports a failure, whatever its own call did |
| `SshBatch.OnlyFirstLineSucceeds` | vendor/golang.org/x/crypto/ssh/session.go:318-325 | in every run only the first line printed for a host can report a success |
| `SshBatch.FailedIff` | common/cli/ssh.go:127-132 | a host is marked as failed exactly when one of its calls failed |
| `SshBatch.LineTellsOutcomeIff` | common/cli/ssh.go:125-136 | in every run the next line printed is its host's k-th and tells the outcome of its k-th call, exactly unless that call succeeded and another of the host has failed by then; such a call is the first |
| `SshBatch.SuccessPrintedAsFailure` | common/cli/ssh.go:125-158 | a run of seven steps after which a successful first command is printed as failed |
| `Compare.CompareChunk` | common/cli/compare.go:89-100 | a round goes on exactly for equal chunks, and both buffers, stale tails included, stay equal |
| `Compare.Comparebyte` | common/cli/compare.go:81-102 | yes exactly when both streams end without an error in the same chunks; then the streams are equal |
| `Compare.EqualLengthsExact` | common/cli/compare.go:97-98 | with equal chunk lengths the answer is yes exactly for equal streams |
| `Compare.ChunkingMattersIff` | common/cli/compare.go:97-100 | all ways to cut a stream into reads of 1 to 512 bytes are the same exactly when it has at most one byte |
| `Compare.CompareRechunked` | common/cli/compare.go:97-100 | any stream of two bytes or more, delivered by full reads and byte by byte, is reported as different from itself |
| `Paths.VisitedIs` | common/file.go:55-59 | every path the walk visits below a root is the cleaned root with the names appended, whatever the root's spelling |
| `Paths.VisitedAbs` | common/file.go:55-66 | and it leads below the root, under those names |
| `Paths.TrimmedIff` | common/file.go:44-59 | the root is trimmed off a visited path exactly when it is clean up to one separator and not just a dot; then the names are left |
| `Paths.PlaceIs` | common/file.go:43-59 | where everything below any source lands, for any source and target strings |
| `Paths.LandsIff` | common/file.go:43-59 | everything lands below the target under its own names exactly when the source is spelled so or leads from the target back to it |
| `Paths.LandsIffDown` | common/file.go:43-59 | for a source without leading steps up: exactly when it is spelled so, or is the root or the working directory |
| `Paths.DotSlashLandsDeeper` | common/file.go:43-59 | for "./name", any name and any target: everything lands below one more directory of that name |
| `Paths.ComparedPlaces` | common/cli/compare.go:19-31 | the comparison finds the place of every path, for any two strings |
| `FileTree.FileSystem.Comparefile` | common/cli/compare.go:46-78 | two existing paths match exactly when both are directories or both are files of the same bytes; else the error of the first that cannot be opened, a file under a trailing separator included |
| `FileTree.FileSystem.CompareOne` | common/cli/compare.go:26-42 | the walk's callback: one report for a missing or different path, none for a match, an error for an obstruction |
| `FileTree.FileSystem.CompareVisited` | common/cli/compare.go:19-42 | the same on the strings of the walk, for the path they lead to and its place in the target |
| `FileTree.FileSystem.ComparePath` | common/cli/compare.go:19-43 | the handler's calls are exactly the reports in walk order up to the first path whose place is obstructed, and the error is that one's; none, with the walk's own error, if the source is no directory; success exactly if nothing obstructs |
| `FileTreeSpec.ReportsExactly` | common/cli/compare.go:30-41 | a path is reported as added exactly if missing, as changed exactly if different, and no path twice |
| `FileTreeSpec.ReportsInOrder` | common/cli/compare.go:26-42 | of two reports the one whose path is walked first comes first |
| `FileTreeSpec.ObstructedIff` | common/cli/compare.go:23-37 | an obstruction is a file above the target, the target itself as a file, or a file facing a non-empty source directory |
| `FileTreeSpec.FileAsTargetObstructs` | common/cli/compare.go:23-37 | an empty source facing a file: the walk fails before its one difference is reported |
| `FileTreeSpec.OverlaidWellFormedIff` | command/compare.go:47-63 | for any source and target: the reported nodes put in place make a file system exactly when the target can be put there and no file takes the place of a non-empty directory |
| `FileTreeSpec.OverlayIsClean` | command/compare.go:47-63 | with them in place, none of them inside the source, the source is walked in the same order, nothing obstructs and nothing is reported |
| `FileTree.FileSystem.OpenForWrite` | common/file.go:24-25 | opening for writing creates or truncates a file, or fails and changes nothing |
| `FileTree.FileSystem.Copy` | common/file.go:12-40 | copying with its one retry: the error, or the tree with the missing directories and the file, in every case |
| `FileTreeSpec.MkdirErrIs` | common/file.go:26-27 | a directory can be made exactly unless a regular file stands there or above |
| `FileTree.FileSystem.CopyOne` | common/file.go:63-66 | one node is copied with the directories it needs, or nothing is changed and the error is that of the file or directory in the way; exactly when a file is met where a directory is needed or the other way round |
| `FileTree.FileSystem.CopyVisited` | common/file.go:55-66 | the same on the strings of the walk, at the place where they lead |
| `FileTree.FileSystem.CopyWalk` | common/file.go:55-67 | the walk ends at the first path that does not fit, with its error and with exactly what came before it copied, or with everything copied |
| `FileTree.FileSystem.CopyDir` | common/file.go:43-68 | for any two strings: when it panics, when exactly it succeeds, the error, and the resulting tree in every case: unchanged, with the target made, or with the walk up to the first misfit grafted where it lands |
| `CopyTree.CopiedAt` | common/file.go:43-68 | a copy has the source's nodes where they land; all else is as before but for new directories on the way |
| `CopyTree.PartlyCopied` | common/file.go:55-67 | a copy that stops half-way has put what had its turn; the source and all other places are as before but for new directories on the way |
| `CopyTree.CopiedIsClean` | common/cli/compare.go:19-43 | after a copy that lands at the target the comparison is not obstructed and reports nothing |
| `CopyTree.MisplacedFile` | common/file.go:59-66 | after a copy that lands anywhere but at its fresh target the comparison of a source with a file reports something |
| `CopyTree.CleanCopyIff` | common/file.go:43-68 | a source with a file, copied to a fresh target, compares clean exactly when it was spelled as the walk spells it or leads back to the target |
| `CopyTree.DotSlashCopy` | common/file.go:43-68 | a successful copy from "./a/", for any names: the file lands one directory deeper, and the comparison reports it as missing |
| `CopyTree.CopyUp` | common/file.go:43-68 | copies from "a/b/" to "a/", which holds the source, for any names: "a/b/x" goes to "a/x", and the comparison is clean |
| `Units.FloatAbsIff` | common/cli/find.go:128-128 | a 64-bit number survives the way through a float exactly when it is a multiple of the floats' spacing; up to 2^53 all do |
| `Units.PrintParses` | common/cli/tail.go:228-231 | parsing a printed number gives it back, for every 64-bit number |
| `Units.ParseIntIs` | common/cli/tail.go:228-228 | every string: a number is accepted exactly if it has a sign or none, then digits, and its decimal value fits 64 bits; else an error |
| `Units.CompanyOfPrinted` | common/cli/tail.go:209-233 | a printed number with any of the suffixes is that many units in 64 bits, and exactly so when the product fits |
| `Units.PanicIff` | common/cli/tail.go:214-220 | the size "b", and no other, indexes out of range |
| `Units.SizeRange` | common/cli/find.go:139-180 | for every n whose product fits: "nU" accepts exactly the sizes from n units on, "-nU" exactly those up to n units, n taken through a float, with or without a unit; when that changes n |
| `Units.SizeRangeIff` | common/cli/find.go:173-177 | the limit of "-nU" is n units exactly when n survives the float; with a unit it always does |
| `Units.AgeRange` | common/cli/find.go:92-130 | for every n whose product fits: "-nU" accepts exactly ages up to n units, "nU" exactly those above n units and a nanosecond, n taken through a float; the one in between is missed; a bare n counts nanoseconds |
| `Units.AgeCutOffIff` | common/cli/find.go:106-129 | for every 64-bit n, of either sign: the cut-off is n units and a nanosecond back exactly when n units fit in 64 bits and n survives the float; nine years do, ten do not |

## Left out

- Command wiring, flags, HTTP, FTP, mail headers and SMTP, ping, Prometheus, TLS and RSA, system information,
  `watchdog`, `deploy`, `compress`: plumbing around libraries that are not part of this model.
- Regular expressions in `replace` and in file names, the walk over many files, permissions, timestamps, symbolic
  links, and write errors.
- Mutexes and the unsynchronised accesses to the shared map of `fsnotify` and to the shared result of an SSH
  worker: each access is one atomic step.
- The channels and goroutines of the SSH code are transition systems on values, not objects: aliasing is modelled
  only for the shared result (`failed`), whose data bytes are left out.
- Runs of `SSHBatchCommond` after cancellation, where a channel is closed that workers may still use.
- `SSHSendFile`, `SSHShellCommond`: their calls return any result. That `SSHSendFile` reports success when it
  cannot open a session is not modelled.
- Readers that return bytes together with EOF, and reads of a regular file that are not full.
- Files that change while they are read.
- The lexical order of `filepath.Walk`: trees are walked in any order that visits every path once and a directory
  before its content; `WalkExists` shows that there is one.
- A comparison without a handler, or with one that fails. The overlay of reported nodes is a function on trees; the
  copy that the command's handler makes is in a package that is not part of this model.
- The name of the temporary file of the slow mode: any name other than the file's own.
- `Base64Wrap.TrimmedIsBase64`: for reads that are full up to the last one, as a regular file gives them.
- Floats out of the range of 64 bits are truncated as an amd64 processor does; the clock of `find` is a parameter.
- `FileTree.FileSystem.CopyDir`: a target inside the source, or a source that has something whose place lies inside
  the source, is excluded, because the walk would meet its own output. So are names a directory cannot list, such as
  "..".
- `FileTreeSpec.OverlayIsClean`: excludes the same targets, for there the overlay changes the source.
- A string leads where its cleaned form leads: there are no symbolic links, and what stands before a ".." exists.
- `Tail.TailFile.CopyLines`: the file position after buffered reading is left open, as bufio reads ahead.
