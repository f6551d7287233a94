# Models of the editor, the boot loader's memory and disk layers, dd and date

This project models the stateful core of several programs and proves what they are relied on for.

* The editor `ed`: its line buffer is a ring of nodes edited in place, with a cached cursor, a scratch file for the
  text, an undo stack that relinks detached segments, marks, and the list of a global command. The modules `EdRing` to
  `EdRuns` carry one object, `EdBuffer.Editor`, through every editing command. Its invariant ties the links of every
  node to a history of buffer states, so that undo, redo, freeing and the cursor follow from one description of what
  happened. `EdSubst` and `EdReplace` are substitution, `EdTurns`, `EdGlobal` and the modules named after it the global command,
  `EdStreams` and `EdCbc` the files that are read and written, plain and encrypted. `EdMeaning` says what each command
  means for a plain list of texts, which whole sessions with global commands and undo refine in `EdSessions`.
* The boot loader's allocator: `FreeList` says what the free list is as a value, `Zalloc` works on the list kept in
  the free memory itself, `PoolRuns` is about whole histories, and `Malloc` adds guarded blocks and growth.
* The boot loader's block cache, in `BCache`: coherence of cached reads with the disk, over time.
* The record conversions of `dd`: `DdRecords` defines them on whole streams and on streams in pieces, `DdOutput` is
  the writing side with short writes, `DdConv` the code over its two buffers. `DdNumbers` is the product parser.
* `date -v`: `Calendar` is the linear Gregorian calendar (section 3.2.1 of ISO 8601:2004), `Vary` the carries.
* Module loading with dependencies, in `Modules`, and reading files through three caches, in `Ufs`.

Code that changes state in place is a class or a method here; its contract is given by a function of the old state,
and the lemmas are about those functions. Linked structures carry a ghost sequence with the nodes in order.

The commands of `ed` follow the `ed` utility page of IEEE Std 1003.1, the conversions those of its `dd` page, and
the chaining mode section 6.2 of NIST SP 800-38A.

Some things the code does that one might not expect, each as the code has it:

* `get_line_node_addr` answers 0, not an error, for a node that is not in an empty buffer.
* `get_addressed_line_node` past the end answers the last node; the second pass of a copy relies on it.
* `bcache_insert` never looks at slot 0, so a block can be in two slots; the copy in slot 0 has expired by then.
* A write larger than half the cache goes past it and can leave it stale (`BCache.StaleAfterBypass`); it does exactly
  when it changes a usable block (`BCache.WritePastCache`, `BCache.StaleAnswers`).
* The block cache goes by unit numbers alone: another device under the same number gets the blocks of the first while
  they are usable (`BCache.WrongIncoherent`).
* A second `Free` of a block panics unless the block was merged onto the end of the last free region, because a list
  node is written over its guard.
* A `malloc` whose bytes with the guards come within a page of 4 GB asks `sbrk` for 0 bytes, and does not end while
  `sbrk` succeeds and the pool has no room for it, unless they round up to 0 (`Malloc.Heap.Obtain`,
  `Malloc.EndlessRequest`).
* A request within 20 bytes of 4 GB gets memory that falls far short of it, or the address -1 (`Malloc.RoomForRequest`).
* A first file that is loaded but whose dependencies fail dereferences NULL, as there is no last file to go back to;
  that happens whenever a format accepts it and the disk has nothing for one of them (`Modules.Loader.LoadKld`, `Modules.FirstLoadCrashes`).
* `fsread` looks up the wrong indirect pointers beyond the first virtual block of them (`Ufs.WindowRead`): in the next
  seven it repeats those of the first (`Ufs.PointersRead`), and after them its sector address is off by one. The bytes
  it returns are wrong then (`Ufs.WrongByteRead`).
* A zero behind an `x` in a number for `dd` divides by zero, unless an overflow is found first (`DdNumbers.GetNum`,
  `DdNumbers.ZeroFactor`).
* A module of version 0 satisfies only a dependency that prefers version 0 (`Modules.VersionZero`).

## Model

| member | source | states |
|---|---|---|
| `EdRing.Reque` | freebsd/bin/ed/ed.h:159-160 | exactly one link in each direction changes; every other link of every node is as before |
| `EdRing.UnlinkSegment` | freebsd/bin/ed/main.c:1209-1214 | relinking around a segment leaves a ring of the other nodes and leaves the links at the ends and inside of the segment as they were, ready to be linked in again |
| `EdRing.RelinkSegment` | freebsd/bin/ed/undo.c:103-106 | linking a detached segment back at its old ends gives the ring with the segment at its old place |
| `EdRing.Transplant` | freebsd/bin/ed/main.c:1137-1150 | the six relinkings of a move, at both ends of the circular list too, give the ring with two adjacent parts exchanged |
| `EdRing.Insque` | freebsd/bin/ed/ed.h:162-167 | the ring afterwards is the old one with the node put in after its predecessor |
| `EdHistory.ReverseLogOk` | freebsd/bin/ed/undo.c:98-122 | reversing the record list and flipping every record type turns a legal history of the buffer into a legal history that runs backwards |
| `EdHistory.ReverseLogTwice` | freebsd/bin/ed/undo.c:98-122 | doing so twice gives the same history |
| `EdHistory.ExtendOk` | freebsd/bin/ed/undo.c:43-77 | one more edit at the end keeps a history legal, and keeps what was deleted at one time out of all later states |
| `EdHistory.GrowOk` | freebsd/bin/ed/main.c:1062-1073 | moving the end of the last record on by one line stands for an addition of one line more |
| `EdHistory.PoppedStack` | freebsd/bin/ed/undo.c:118-122 | the records after reversal and type flips are those of the reversed history, two-record moves included |
| `EdHistory.DeletedStaysOut` | freebsd/bin/ed/undo.c:85-129 | a line deleted in a history is in no later state of it |
| `EdHistory.AddedIsNew` | freebsd/bin/ed/undo.c:85-129 | a line added in a history was in no earlier state of it |
| `EdUndo.RelinkRecord` | freebsd/bin/ed/undo.c:99-117 | undoing the top record puts the buffer back to the state before its edit, keeping the links of every segment detached by earlier edits |
| `EdUndo.PopRecord` | freebsd/bin/ed/undo.c:98-119 | one turn of the loop undoes one record and flips its type |
| `EdUndo.PopRecords` | freebsd/bin/ed/undo.c:98-119 | the loop takes the buffer from the last state of the history to the first |
| `EdUndo.ReverseStack` | freebsd/bin/ed/undo.c:120-122 | the exchange loop reverses the stack |
| `EdBuffer.Editor.PopUndoStack` | freebsd/bin/ed/undo.c:84-129 | the buffer is the one from which the edits started, with the addresses of that time; the history is reversed so that the next undo is a redo |
| `EdBuffer.Editor.ClearUndoStack` | freebsd/bin/ed/undo.c:133-150 | every detached node is freed once, no linked node is freed, and no mark stays on a freed node, whether or not edits have been undone before |
| `EdBuffer.Editor.FreeDetached` | freebsd/bin/ed/undo.c:138-146 | the walk over the records meets each detached node exactly once |
| `EdLog.DeletedOnce` | freebsd/bin/ed/undo.c:138-146 | no node is detached by two records |
| `EdLog.DeletedAll` | freebsd/bin/ed/undo.c:138-146 | the nodes detached by the records are all the nodes that are not in the buffer |
| `EdBuffer.Editor.GetAddressedLineNode` | freebsd/bin/ed/buf.c:155-183 | the result is the n-th node of the buffer wherever the cached cursor stands, and the cursor stays right; past the end it is the last node |
| `EdBuffer.Editor.GetLineNodeAddr` | freebsd/bin/ed/buf.c:138-152 | the address of a node in the buffer; for any other node an error, or 0 if the buffer is empty |
| `EdBuffer.Editor.PushUndoStack` | freebsd/bin/ed/undo.c:39-77 | the record names the nodes at the two addresses |
| `EdBuffer.Editor.AddLineNode` | freebsd/bin/ed/buf.c:125-135 | the new node is the current line, right after the line that was current |
| `EdBuffer.Editor.DeleteLines` | freebsd/bin/ed/main.c:1198-1220 | exactly the lines of the range leave the buffer, the current line is the one before them, undo is prepared, and a global command will not visit them |
| `EdBuffer.Editor.MoveLines` | freebsd/bin/ed/main.c:1118-1159 | the buffer is the one with the range moved behind the destination, the last moved line is current, and the lines leave the list of a global command |
| `EdLog.MovedMeaning` | freebsd/bin/ed/main.c:1118-1159 | after the move the range is found in one piece ending at the new current address, and the other lines are in their old order |
| `EdLog.MovedNowhere` | freebsd/bin/ed/main.c:1125-1131 | a move to right before or right behind the range changes nothing |
| `EdBuffer.Editor.PutSbufLine` | freebsd/bin/ed/buf.c:78-122 | the text up to the next newline is put at the end of the scratch file, and a node that refers to it becomes the current line |
| `EdBuffer.Editor.GetSbufLine` | freebsd/bin/ed/buf.c:44-75 | the text of a node is the text it was made with, whatever was read and written since |
| `EdScratch.ScratchFile.Put` | freebsd/bin/ed/buf.c:99-120 | text goes to the end of the file even if a read has moved its position |
| `EdScratch.ScratchFile.Get` | freebsd/bin/ed/buf.c:55-74 | reads at any address, and leaves the editor knowing the position |
| `EdLog.OwnTextsKept` | freebsd/bin/ed/buf.c:80-122 | what is put into the scratch file changes the text of no node |
| `EdCommands.InputLength` | freebsd/bin/ed/main.c:1041-1059 | input ends at the first line that holds a single period |
| `EdCommands.AppendLines` | freebsd/bin/ed/main.c:1032-1078 | exactly the input lines are in after the addressed line, with their texts, as one addition that undo takes back |
| `EdCommands.DupLineNode` | freebsd/bin/ed/main.c:1292-1306 | a copy refers to the same text |
| `EdCommands.CopyLines` | freebsd/bin/ed/main.c:1162-1195 | copies of exactly the lines of the range, in order, are in after the destination, also when that is inside the range; the last copy is current |
| `EdCommands.CopyRange` | freebsd/bin/ed/main.c:1164-1195 | the one or two passes over the range together copy every line of it once |
| `EdCommands.JoinLines` | freebsd/bin/ed/main.c:1081-1115 | the range is replaced by one line whose text is all their texts in a row |
| `EdActive.ActiveList.SetActiveNode` | freebsd/bin/ed/glbl.c:144-179 | the line comes to the end of the list |
| `EdActive.ActiveList.UnsetActiveNode` | freebsd/bin/ed/glbl.c:182-196 | exactly the entry of that line is taken off, wherever the rotating index stands |
| `EdActive.ActiveList.NextActiveNode` | freebsd/bin/ed/glbl.c:199-206 | the first line still listed, or none |
| `EdActive.VisitedOrder` | freebsd/bin/ed/glbl.c:182-206 | over any run of visits and removals the lines visited are lines of the list in its order, each at most once, and together with the removed and the remaining ones they are all of it |
| `EdActive.RemovedNotVisited` | freebsd/bin/ed/glbl.c:182-206 | a line removed before its turn is not visited later in the run |
| `EdBuffer.Editor.UnsetActiveNodes` | freebsd/bin/ed/glbl.c:182-196 | the walk from one node up to another, across the head too, removes exactly the nodes between them |
| `EdGlobal.BuildActiveList` | freebsd/bin/ed/glbl.c:39-68 | the list holds exactly the lines of the range whose text is selected, in order |
| `EdGlobal.Global` | freebsd/bin/ed/glbl.c:39-135 | the same from the selected lines of a range on, to the end of the list; undo goes back to the buffer before the command |
| `EdGlobal.MarkLine` | freebsd/bin/ed/main.c:1252-1263 | the mark names the addressed line; other marks are unchanged |
| `EdGlobal.GetMarkedNodeAddr` | freebsd/bin/ed/main.c:1266-1275 | a mark follows its line; a mark of a line that has left the buffer is an error |
| `EdMarks.Marks.MarkLineNode` | freebsd/bin/ed/main.c:1252-1263 | the count of marks stays right |
| `EdMarks.Marks.UnmarkLineNode` | freebsd/bin/ed/main.c:1278-1289 | every mark of the line is removed although the loop stops when the count says no marks are left |
| `EdRuns.Perform` | freebsd/bin/ed/main.c:1032-1220 | every editing command, reading a file included, keeps buffer, cursor, history, list and marks consistent and goes on with the same undo history; with legal addresses it succeeds always, but r exactly if the file can be opened, and s exactly if no text of the range has endless matches and one is changed or the command is global; then it has done to texts and current address what it means, and has taken exactly the lines it deletes, changes or moves off the list of a global command |
| `EdRuns.ExecCommand` | freebsd/bin/ed/main.c:466-490 | a, c and d, and i, j, m, t, s and r in the same way: it succeeds exactly if the addresses are legal and the command succeeds; illegal addresses change nothing; otherwise the undo history starts at the buffer before the command |
| `EdMeaning.LegalAddresses` | freebsd/bin/ed/main.c:466-640 | which addresses each command takes |
| `EdMeaning.SubstituteSucceeds` | freebsd/bin/ed/sub.c:111-162 | the answer of s is whether the substitution of the texts, by the matches they have, comes to an end and changes one |
| `EdRuns.VisitNext` | freebsd/bin/ed/glbl.c:95-97 | the next listed line is always found in the buffer |
| `EdRuns.ExecGlobal` | freebsd/bin/ed/glbl.c:71-135 | for all lists of commands with addresses relative to the current and the last line: each visit is to the first entry still on the list, at the address the line has then, the commands run there mean what they mean by themselves, and exactly the lines they delete, change or move leave the list; it succeeds unless a command cannot be performed, and then stops at the first such one |
| `EdTurns.VisitedExactly` | freebsd/bin/ed/glbl.c:95-135 | an entry is visited if and only if it is still on the list at its turn |
| `EdTurns.TurnsAreEvents` | freebsd/bin/ed/glbl.c:95-135 | what a global command does to its list is a run of visits and removals |
| `EdTurns.TurnsInOrder` | freebsd/bin/ed/glbl.c:95-135 | the lines visited are lines of the list in its order, each once, and every other one has been taken off by a command |
| `EdGlobalDelete.GlobalDelete` | freebsd/bin/ed/glbl.c:39-135 | g/re/d leaves exactly the texts of the range that are not selected, and those outside it, in order, although each deletion renumbers what is still to be visited; the current line is the one after the last one deleted, or the last one; undo goes back to before |
| `EdGlobalDelete.SelectedGone` | freebsd/bin/ed/glbl.c:39-68 | taking the listed nodes out of the buffer is taking the selected texts out of the range |
| `EdGlobalMove.GlobalMove` | freebsd/bin/ed/glbl.c:39-135 | g/re/m0 brings the selected texts of the range to the front in reverse order and leaves the others in theirs, and the first line is current; undo goes back to before |
| `EdGlobalMove.MovedWhole` | freebsd/bin/ed/glbl.c:39-135 | on all lines it turns the file round |
| `EdGlobalSubstitute.GlobalSubstitute` | freebsd/bin/ed/glbl.c:39-135 | g/re/s puts the lines of its substitution in the place of each selected text and leaves the others, although replacements move what is still to be visited, and the last line of the last one is current; it fails exactly when the matches of a selected text have no end |
| `EdRuns.GlobalThenUndo` | freebsd/bin/ed/undo.c:84-129 | after a global command and undo the buffer has the same lines with the same links and texts, and the addresses of before |
| `EdRuns.CommandThenUndo` | freebsd/bin/ed/undo.c:84-129 | the same for any single editing command |
| `EdRuns.UndoThenRedo` | freebsd/bin/ed/undo.c:84-129 | undo twice changes nothing: same lines, links, addresses, and the same states and edits in the history |
| `EdSessions.RunSession` | freebsd/bin/ed/main.c:447-786 | any sequence of editing commands, of g/re/d, g/re/m0 and g/re/s, and of u succeeds exactly if each request does on a document that is two plain lists of texts with an address each, and then computes that document: a command computes the one and keeps the other for u, and u exchanges them |
| `EdMeaning.AppendMeant` | freebsd/bin/ed/main.c:1032-1078 | a and i put the typed texts in at their place and leave the others |
| `EdMeaning.ChangeMeant` | freebsd/bin/ed/main.c:472-480 | c replaces the texts of the range by the typed ones |
| `EdMeaning.DeleteMeant` | freebsd/bin/ed/main.c:481-488 | d takes the texts of the range out; the current line is the one after them, or the last one |
| `EdMeaning.JoinMeant` | freebsd/bin/ed/main.c:586-598 | j puts the concatenation in the place of the texts, and leaves a range of one line alone |
| `EdMeaning.MovedTexts` | freebsd/bin/ed/main.c:1118-1159 | m takes the texts out and puts them in behind the destination, wherever that is then |
| `EdMeaning.CopyMeant` | freebsd/bin/ed/main.c:1162-1195 | t puts the texts of the range in behind the destination, also when that is inside the range |
| `EdMeaning.SubstituteMeant` | freebsd/bin/ed/sub.c:111-162 | s replaces each text of the range by the lines of its substitution and makes the last line of the last change current |
| `EdMeaning.ReadMeant` | freebsd/bin/ed/io.c:38-113 | r puts the lines of the file in at their place |
| `EdSubst.ScanLineMeaning` | freebsd/bin/ed/sub.c:165-220 | a scan is that of the line if and only if its pieces and the rest make up the line, each piece is what the matcher finds in what is left of it, replaced exactly if it is the kth or all are to be, another match is wanted after each but the last, and after that none is wanted or there is none |
| `EdSubst.ScanLineSelects` | freebsd/bin/ed/sub.c:165-220 | replaced are the first match, or with g all of them, or with a count that one only; with g no match is left behind, unless it is the error, which occurs exactly when g is given, text is left and the last match ended where it was looked for; without g the scan ends at the match replaced or where none is left |
| `EdSubst.ApplySubstTemplate` | freebsd/bin/ed/sub.c:223-254 | the loop over the template computes its expansion with the matched text and the numbered parts |
| `EdSubst.ExpandTokens` | freebsd/bin/ed/sub.c:223-254 | the expansion is what the tokens of the template stand for: & for the match, an escaped digit for that group if the pattern has it, any other character for itself |
| `EdSubst.TemplateTokens` | freebsd/bin/ed/sub.c:223-254 | every template is made of such tokens, but for a lone backslash at its end |
| `EdSubst.SubstituteMatchingText` | freebsd/bin/ed/sub.c:165-220 | the loop ends for every matcher, empty matches included, and computes the outcome of the scan, or the infinite-loop error |
| `EdSubst.ReplacedText` | freebsd/bin/ed/sub.c:183-217 | the new text by positions: each match is found behind the one before, its expansion or the match itself stands in its place, and everything else is there in its order up to the end of the line |
| `EdSubst.OutcomeMeaning` | freebsd/bin/ed/sub.c:183-219 | a text is replaced, or its substitution is the error, according to the matches it has |
| `EdReplace.ReplaceLine` | freebsd/bin/ed/sub.c:130-152 | a changed line is deleted and its replacement put in its place, one line for each newline |
| `EdReplace.VisitLine` | freebsd/bin/ed/sub.c:127-152 | one line of the range is either left alone or replaced by the lines of its new text |
| `EdReplace.SearchAndReplace` | freebsd/bin/ed/sub.c:111-162 | each line of the range is treated once although earlier replacements move it; the buffer is the concatenation of the results, the current line is the last line of the last change, and without a change nothing moves |
| `EdStreams.TextOfLines` | freebsd/bin/ed/io.c:116-195 | a file split into lines and put together again is the file, with a newline at its end if one is added |
| `EdStreams.Io.GetStreamLine` | freebsd/bin/ed/io.c:116-142 | the next line of the file, its length as counted, and the binary and newline flags |
| `EdStreams.ReadStream` | freebsd/bin/ed/io.c:67-113 | the lines of the file are in after the addressed line, as one addition; the flags and the size are those of the file |
| `EdStreams.WriteStream` | freebsd/bin/ed/io.c:169-195 | the lines of the range each with a newline, but for one that was added to binary text |
| `EdStreams.ReadThenWrite` | freebsd/bin/ed/io.c:67-195 | reading into an empty buffer and writing back is byte-exact, except that one newline is added to unterminated text without NUL |
| `EdCbc.ChainedLast` | freebsd/bin/ed/cbc.c:133-162 | block-by-block output and the flushed last block are the encoding of the whole stream |
| `EdCbc.EncodedAt` | freebsd/bin/ed/cbc.c:329-363 | each block of the ciphertext is that of the plaintext block mixed with the ciphertext block before, the first one with zeros, and the last one is padded |
| `EdCbc.EncodedLength` | freebsd/bin/ed/io.c:190-193 | the ciphertext has len + 8 - len % 8 bytes |
| `EdCbc.Stream.CbcEncode` | freebsd/bin/ed/cbc.c:329-363 | a full buffer is chained on; a shorter one is padded and ends with its count |
| `EdCbc.Stream.CbcDecode` | freebsd/bin/ed/cbc.c:365-405 | any 8 bytes decrypt to a block, or at the end of the file to as many bytes as its last one says, and that is an error if it says more than 7 or if bytes are missing; of an encoded stream these are the next bytes |
| `EdCbc.Stream.PutDesChar` | freebsd/bin/ed/cbc.c:133-146 | one more byte has been put |
| `EdCbc.Stream.FlushDesFile` | freebsd/bin/ed/cbc.c:149-162 | the file is the encoding of all bytes put |
| `EdCbc.Stream.GetDesChar` | freebsd/bin/ed/cbc.c:117-130 | the next byte of the plaintext, or EOF at its end |
| `EdCbc.RoundTrip` | freebsd/bin/ed/cbc.c:117-162 | every byte string comes back, for any invertible block function and any padding |
| `FreeList.NormalUnique` | malloc/zalloc.c:134-230 | two sorted lists of regions with gaps between them that cover the same bytes are the same list |
| `FreeList.ConsecutiveInOne` | malloc/zalloc.c:97-131 | consecutive free bytes lie in one region |
| `FreeList.SumCounts` | malloc/zalloc.c:97 | the sizes add up to the number of free bytes |
| `FreeList.AllocCovers` | malloc/zalloc.c:105-125 | a first fit takes exactly the returned bytes out of the free memory |
| `FreeList.FreeCovers` | malloc/zalloc.c:169-229 | freeing with merging on both sides adds exactly the block to the free memory |
| `FreeList.FreeNormal` | malloc/zalloc.c:169-229 | the list stays sorted and coalesced |
| `FreeList.Overlaps` | malloc/zalloc.c:169-213 | the comparisons with the two neighbours find an overlap with free memory exactly if there is one |
| `Zalloc.RoundUp` | malloc/zalloc.c:87 | whole units; a request that overflows 32 bits becomes 0 |
| `Zalloc.MemPool.Znalloc` | malloc/zalloc.c:79-132 | first fit; NULL exactly when no free region is large enough, so the quick test on the free total rejects nothing that could be met; every cell that is written lay in free memory before, so nothing is written to a block |
| `Zalloc.MemPool.Zfree` | malloc/zalloc.c:138-230 | panics exactly when the block is misaligned, outside the pool or overlaps free memory; otherwise the block joins the free memory |
| `Zalloc.MemPool.ZextendPool` | malloc/zalloc.c:243-266 | the extent becomes the smallest interval around the old one and the region; the list is unchanged and the new bytes count as used |
| `PoolRuns.RunAgrees` | malloc/zalloc.c:79-266 | conservation over every run of the three operations: a byte of the pool is in the list exactly if it has not been handed out |
| `PoolRuns.HistoryIndependent` | malloc/zalloc.c:79-266 | two histories that leave the same extent and the same bytes handed out leave identical pools |
| `PoolRuns.UsedIsHandedOut` | malloc/zalloc.c:79-266 | mp_Used is the number of bytes handed out |
| `PoolRuns.RefusedOnlyWhenFull` | malloc/zalloc.c:97-131 | NULL is returned exactly when there are not so many consecutive bytes that are not handed out |
| `PoolRuns.AllocThenFree` | malloc/zalloc.c:79-230 | freeing at once what was allocated restores the list |
| `PoolRuns.FreesCommute` | malloc/zalloc.c:138-230 | the order of two frees does not matter |
| `PoolRuns.Perform` | malloc/zalloc.c:79-266 | each operation on a pool is a step of such a run |
| `Malloc.Increment` | malloc/zalloc_malloc.c:74 | the extension is whole pages, enough for the request, but 0 for a request within a page of 4 GB |
| `Malloc.Heap.Malloc` | malloc/zalloc_malloc.c:62-94 | for every size: it ends exactly under Ends, with NULL exactly when the pool is too small and sbrk refuses; a new guarded block apart from all others whose bytes stay as they are, or, within 20 bytes of 4 GB, memory that falls short of the request |
| `Malloc.RoomForRequest` | malloc/zalloc_malloc.c:67-73 | what the pool is asked for has room for the request and its guards if and only if the size is no more than 4 GB less 21 bytes; above that the sum rounds up to 0 or has itself wrapped around to 1 to 12 bytes |
| `Malloc.Heap.Obtain` | malloc/zalloc_malloc.c:73-81 | for every byte count and every sequence of answers of sbrk: the retry loop ends if and only if the count rounds up to 0, the pool has room, sbrk refuses, or the count is at most a page below 4 GB |
| `Malloc.Heap.Retry` | malloc/zalloc_malloc.c:73-81 | one turn of the loop gives the memory, except within a page of 4 GB, where it leaves the free list as it was |
| `Malloc.EndlessRequest` | malloc/zalloc_malloc.c:73-81 | a request of 0xFFFFF000 bytes on an empty pool never ends while sbrk succeeds |
| `Malloc.Heap.Free` | malloc/zalloc_malloc.c:96-131 | a block handed out is always released, and the guards and bytes of all other blocks survive, list nodes being written into the same memory |
| `Malloc.Heap.FreeTwice` | malloc/zalloc_malloc.c:107-123 | a second free is reported as a duplicate exactly if the block had become the end of the last free region, and otherwise panics |
| `Malloc.Heap.Realloc` | malloc/zalloc_malloc.c:156-184 | the contents are kept as far as they fit into the new block, and all other blocks keep theirs, through extension, merging and the list nodes written on the way |
| `BCache.InsertShape` | bcache.c:260-289 | although slot 0 is never searched, a block stays in one slot but for an expired copy in slot 0 |
| `BCache.InsertRead` | bcache.c:195-212 | a block that no entry can answer for, read and inserted, keeps the cache coherent |
| `BCache.InsertWritten` | bcache.c:143-148 | inserting the written blocks one by one settles every stale copy |
| `BCache.DropShape` | bcache.c:317-330 | dropping the first entry of a block takes it out of slot 0 |
| `BCache.RunsApart` | bcache.c:181-212 | the transfers are maximal: there is a hit between any two |
| `BCache.RunsMeaning` | bcache.c:181-212 | a block is in a transfer exactly if it is a miss |
| `BCache.WritePastCache` | bcache.c:238-243 | a write past the cache keeps it coherent exactly when no usable entry of a written block differs |
| `BCache.StaleAfterBypass` | bcache.c:238-243 | a cache of two blocks into which one block is read, and a write past the cache after which lookups of that block give its old contents |
| `BCache.StaleAnswers` | bcache.c:238-243 | after a write past the cache some lookup gives what is not on the disk, if and only if the write changed a usable block |
| `BCache.WrongIncoherent` | bcache.c:224-252 | as the cache goes by unit numbers alone: whatever device is behind the number, some lookup gives what is not on it, if and only if the cache is not coherent with it |
| `BCache.Cache.Lookup` | bcache.c:296-312 | a hit is the first entry of the block within the timeout; a miss means there is none |
| `BCache.Cache.Victim` | bcache.c:268-282 | the slot of the block itself unless that is slot 0, or else the slot filled least recently |
| `BCache.Cache.Insert` | bcache.c:260-289 | exactly that slot is replaced |
| `BCache.KeptMore` | bcache.c:260-289 | as long as fewer blocks than there are slots have been put in, none of them is replaced by another |
| `BCache.Cache.Invalidate` | bcache.c:317-330 | exactly the first entry of the block is dropped |
| `BCache.Cache.ReadStrategy` | bcache.c:158-218 | a read fails exactly if the device does; a successful one fills the buffer with what the disk holds, transfers exactly the maximal runs of blocks without a usable entry, and leaves every block transferred in the cache |
| `BCache.Cache.WriteStrategy` | bcache.c:125-151 | the disk changes as requested or, when the device fails, not at all; the cache stays coherent in both cases, and holds all blocks written |
| `BCache.Cache.Strategy` | bcache.c:224-252 | cached reads refine direct reads on every unit, with eviction, timeouts, failures and unit changes, also when another device comes under the same number, as far as the cache is coherent with it; coherence is lost exactly by a large write that changes a usable block |
| `DdRecords.FedConcat` | freebsd/bin/dd/conv.c:105-190 | the result of conv=block does not depend on how reads split the input |
| `DdRecords.FedIsBlocked` | freebsd/bin/dd/conv.c:105-210 | the streaming form, with truncation and leftovers carried over, cuts or pads each newline record, and the rest, to cbsz bytes |
| `DdRecords.TakenConcat` | freebsd/bin/dd/conv.c:219-251 | the result of conv=unblock does not depend on how reads split the input |
| `DdRecords.DrainedIsUnblocked` | freebsd/bin/dd/conv.c:219-272 | the streaming form trims each cbsz bytes, and the rest, and ends them with a newline |
| `DdRecords.UnblockBlock` | freebsd/bin/dd/conv.c:105-272 | unblock undoes block exactly on streams of newline-terminated records of at most cbsz bytes without trailing spaces |
| `DdOutput.Output.DdOut` | freebsd/bin/dd/dd.c:366-460 | it succeeds exactly if no write gives 0 or fails without an interrupt; whatever the short writes and interrupts, what is written and what is left together are what was there; with force nothing is left, otherwise less than a block, and only whole blocks have been written |
| `DdOutput.Output.WriteAll` | freebsd/bin/dd/dd.c:393-451 | n bytes reach the file once each, and are counted, through any short writes and interrupts; it fails exactly at a write that gives 0 or fails otherwise |
| `DdOutput.NoneBad` | freebsd/bin/dd/dd.c:393-451 | a file whose writes are only short or interrupted gives no trouble |
| `DdConv.Converter.Fill` | freebsd/bin/dd/dd.c:267-337 | the bytes read are behind the leftover, inside the buffer |
| `DdConv.Converter.Block` | freebsd/bin/dd/conv.c:105-190 | one call feeds the bytes just read to the record automaton, leftover and truncation state included, with all accesses inside the two buffers |
| `DdConv.Converter.SkipTruncated` | freebsd/bin/dd/conv.c:120-132 | a truncation goes on to the next newline, across reads |
| `DdConv.Converter.TakeRecord` | freebsd/bin/dd/conv.c:139-181 | one record is copied and taken, or found to be incomplete |
| `DdConv.Converter.BlockClose` | freebsd/bin/dd/conv.c:192-210 | the leftover becomes a padded record |
| `DdConv.Converter.Unblock` | freebsd/bin/dd/conv.c:219-251 | one call drains whole records |
| `DdConv.Converter.UnblockClose` | freebsd/bin/dd/conv.c:253-272 | the leftover becomes a trimmed record |
| `DdConv.Converter.BlockStream` | freebsd/bin/dd/dd.c:239-364 | a whole run with conv=block writes exactly the specified stream, for all reads, block sizes and short writes, and fails exactly at a bad write |
| `DdConv.Converter.UnblockStream` | freebsd/bin/dd/dd.c:239-364 | the same with conv=unblock |
| `DdConv.Copier.CopyStream` | freebsd/bin/dd/conv.c:61-96 | without conversion every byte comes out once, in order, unless a write is bad |
| `DdConv.ThereAndBack` | freebsd/bin/dd/conv.c:105-272 | two runs in a row, with independent reads, give the stream back exactly if it is regular |
| `Calendar.YearStartClosed` | freebsd/bin/date/vary.c:109-119 | the day count of years agrees with the rule of every fourth year but not every hundredth but every four hundredth |
| `Calendar.MonthStartClosed` | freebsd/bin/date/vary.c:104-124 | the month lengths are those of the calendar: from March on, 153 days to every five months |
| `Calendar.DayOrder` | freebsd/bin/date/vary.c:104-124 | later dates have larger day numbers |
| `Calendar.DayUnique` | freebsd/bin/date/vary.c:104-124 | no two dates have the same day number |
| `Calendar.WeekdayAnchor` | freebsd/bin/date/vary.c:245-279 | the weekdays are those of the calendar: 1 January 2000 was a Saturday |
| `Vary.Tm.DaysInMonth` | freebsd/bin/date/vary.c:104-124 | the days of the month of that year, leap years included |
| `Vary.Tm.AdjYear` | freebsd/bin/date/vary.c:127-146 | years are added or taken away; a set year is read as 1969 to 2068 or as it stands |
| `Vary.Tm.AdjMon` | freebsd/bin/date/vary.c:148-199 | months are exact on a line of months; a named month is the nearest of that name in the direction given |
| `Vary.Tm.AdjDay` | freebsd/bin/date/vary.c:201-243 | exactly val days later or earlier, through months and years |
| `Vary.Tm.AdjWday` | freebsd/bin/date/vary.c:245-279 | weeks are seven days; a named day is the nearest in the direction given, or that of the same week |
| `Vary.Tm.AdjHour` | freebsd/bin/date/vary.c:281-324 | exactly val hours later or earlier |
| `Vary.Tm.AdjMin` | freebsd/bin/date/vary.c:326-365 | exactly val minutes later or earlier |
| `Vary.Tm.AdjSec` | freebsd/bin/date/vary.c:367-406 | exactly val seconds later or earlier, and a valid date, through all carries and borrows |
| `Vary.Tm.ThereAndBack` | freebsd/bin/date/vary.c:367-406 | val seconds later and back again is the same date and time |
| `Vary.Tm.ThereAndBackMinutes` | freebsd/bin/date/vary.c:326-365 | the same for minutes, hours kept within the day |
| `Vary.Tm.ThereAndBackHours` | freebsd/bin/date/vary.c:281-324 | the same for hours |
| `Vary.Tm.ThereAndBackDays` | freebsd/bin/date/vary.c:201-243 | the same for days, through months and years of any length |
| `Vary.Tm.Domktime` | freebsd/bin/date/vary.c:57-67 | the loop ends for every behaviour of mktime, having moved by whole hours in one direction to the first hour that mktime accepts, or out of the years 1969 to 2037 |
| `Modules.FindInFile` | module.c:499-516 | the preferred version if the file has it, else the highest permitted one; version 0 only as preferred |
| `Modules.VersionZero` | module.c:499-516 | version 0 stands for a dependency only if that prefers version 0 |
| `Modules.Loader.FindModule` | module.c:484-498 | the module of the first file that has a permitted one; none exactly if no file has |
| `Modules.Loader.FindFile` | module.c:467-478 | whether a file of that name is on the list |
| `Modules.Loader.InsertTail` | module.c:824-838 | the file is at the end of the list, the next one goes to where it ends, and each file is where its format put it behind the one before |
| `Modules.Apart` | module.c:441-443 | if no format goes below the address it is given, no two files overlap |
| `Modules.Loader.ModLoad` | module.c:375-405 | all or nothing, for a module already there or found on the search path, also on an empty list, where a failure may instead dereference NULL |
| `Modules.Loader.LoadDependencies` | module.c:258-303 | every dependency is met at a permitted version, or the file and all loaded after it are freed |
| `Modules.Loader.LoadKld` | module.c:411-461 | all or nothing through arbitrary recursive loads, cyclic ones included: success means every new file has its dependencies met, failure leaves the list and the load address as before; it succeeds if the file is one of a set of loadable files that lead to each other for all they depend on, and fails if the disk has nothing for a dependency; with an empty list a file that a format accepts and whose dependencies fail dereferences NULL |
| `Modules.Loader.Complete` | module.c:447-453 | the file stays with all its dependencies, or the list becomes that of before; with nothing before it, a failure dereferences NULL |
| `Modules.Loader.Commit` | module.c:441-453 | a file with a dependency that nothing on the disk provides is never kept |
| `Modules.ClosedNotHopeless` | module.c:258-303 | where all dependencies are met by listed files, the disk provides every one of them |
| `Modules.FirstLoadCrashes` | module.c:447-450 | a disk with one file, which loads but depends on a missing module: loading it first dereferences NULL |
| `Modules.Loader.Truncate` | module.c:449-450 | the list ends with the former last file, and so does the load address |
| `Modules.AccountedFreed` | module.c:296-301 | every file ever loaded is on the list or freed, once |
| `Ufs.Offset` | ufs.c:224-225 | block, virtual block and offset in it fit together for every block size |
| `Ufs.VirtualByte` | ufs.c:249-253 | the address of a virtual block and the offset in it lead to the byte of the block |
| `Ufs.NeedOk` | ufs.c:252-256 | what is read of a virtual block is whole sectors and reaches beyond the offset, at the end of the file too |
| `Ufs.PointersRead` | ufs.c:228-248 | within eight virtual blocks of pointers, the pointer looked up is the right one if and only if the block is in the first of them, or the two pointers happen to be equal |
| `Ufs.WindowRead` | ufs.c:228-248 | the virtual block of pointers that is looked up is the right one only for the first one |
| `Ufs.WrongByte` | ufs.c:228-248 | a file system with 8 KB blocks and a file that can be opened, of which the bytes at the addresses looked up differ from those of the file |
| `Ufs.WrongByteRead` | ufs.c:144-271 | fsread returns a wrong byte of that file |
| `Ufs.Reader.Open` | ufs.c:198-216 | a new inode starts at offset 0 with no block cached; the current one goes on |
| `Ufs.Reader.Bmap` | ufs.c:226-251 | the address of a block, whether or not its pointers are cached |
| `Ufs.Reader.Fetch` | ufs.c:257-261 | the buffer holds the virtual block, whether or not it was cached |
| `Ufs.Reader.Piece` | ufs.c:224-268 | the next bytes of the file, and the offset moves on by as many |
| `Ufs.Reader.FsRead` | ufs.c:144-271 | over any sequence of calls for several inodes, the bytes of the blocks at the addresses looked up, each block being consecutive on the disk, from the offset on, as many as asked for or as there are; up to the end of the first virtual block of pointers these are the bytes of the file; -1 beyond the first indirect block |
| `DdNumbers.WrapFound` | freebsd/bin/dd/args.c:383-390 | dividing the wrapped product again finds overflow exactly |
| `DdNumbers.GetNum` | freebsd/bin/dd/args.c:348-408 | the product of all factors exactly when it fits 64 bits and no factor but the first is zero; it divides by zero exactly when a zero behind an x is reached before any overflow |
| `DdNumbers.ZeroFactor` | freebsd/bin/dd/args.c:396-400 | 2x0 is such an input |
| `DdNumbers.FitsPositive` | freebsd/bin/dd/args.c:336-347 | for positive numbers, as the comment demands them, the intermediate products fit exactly when the whole product does |

## Left out

- Command parsing, regular expressions, DES and its keys, prompts, display, shell commands, signals and the terminal of `ed`; a matcher is any function that keeps what `regexec` promises, the cipher any invertible function on 8 bytes.
- Running out of memory, line length limits and I/O errors in `ed`; `int` overflow of its counters.
- `r` from a shell command, `u` inside a global command, and `e`, `E` and `w` beyond the streams they read and write.
- The translation of NUL to newline in binary text before matching; the selection of a line is a function of its text.
- Multi-line replacement templates are read as given; the input of a command comes as a list of lines.
- EdRuns.ExecCommand: does not model command suffixes, printing and the `modified` warning, because they do not touch the buffer; k is `EdGlobal.MarkLine`, u is `EdSessions.Serve`, g is `EdGlobal.Global`, and w is `EdStreams.WriteStream`.
- EdSessions.RunSession: it ends at the first request that fails; of what a substitution, or a global one, has done until it fails only that the buffer is consistent and undoable is stated.
- EdGlobal.Global: the addresses of its commands depend on the current and the last address, not on patterns and marks; a meaning on whole texts is stated for g/re/d, g/re/m0 and g/re/s, which are the global commands of a session.
- EdStreams.ReadStream: does not model read errors or the encrypted form of the stream, which is `EdCbc`.
- Address arithmetic of the allocator that wraps around at 4 GB, other pointer sizes than 32 bits, and its statistics (`MallocCount`, `zallocstats`); `Calloc` and `Reallocf`.
- Malloc.Heap.Malloc: where the memory falls short of the request, what is then written to it, its guards first, is not followed.
- Malloc.Heap.Obtain: the increment is a signed `int` in the code, so that from 2 GB on `sbrk` is asked for a negative amount; its answers are taken as good for the unsigned one.
- Malloc.Heap.Free: requires that a guard with the right magic number is that of a block handed out, because memory that imitates a guard cannot be told from one.
- BCache.Cache.Strategy: whole blocks at non-negative numbers only; the device fails without changing the disk, and nobody else changes it; a device under the present unit number must hold what is usable in the cache.
- Re-initialisation of the block cache, an inactive cache, its counters and `command_bcache`; the wrap-around of the fill count, which only affects which block is evicted.
- `conv=sparse`, `sync`, `osync`, `swab`, `noerror`, translation tables, `count`, and the statistics of `dd` other than the bytes written; after the writes whose outcome is given all others are taken whole, so that a write is interrupted only finitely often.
- DdOutput.Output.DdOut: a failed write ends the program; nothing is stated about the buffers then.
- Time zones and `mktime`, which accepts a time or fails and leaves it alone; dates that are not valid, such as 31 February after a change of month; leap seconds; parsing of the arguments of `-v`.
- Vary.Tm.AdjSec: `int` overflow in sums and products such as `tm_sec + val` and `val *= 7`, here and in the other fields; the fields are unbounded integers.
- Vary.Tm.AdjYear: a set year below 0 is left as the code leaves it, without a claim.
- The search for files and modules on the path and in `linker.hints`, file formats, metadata other than dependencies, and `file_loadraw`; the searches are arbitrary functions here.
- Modules.Loader.FileLoad: where the formats put a file and whether they take it is a function of its name and the load address; a file that is not on the disk fails.
- boot2, btxld, the remaining loader and the other utilities of the repository.
- Ufs.Reader.FsRead: files of which no address looked up is sector 0, as it is at the beginning of a hole, where the buffer would be taken as it is, and in which an address that occurs twice is needed to the same length both times; sizes and offsets are not cut to 32 bits; disk reads succeed. The superblock search and directory lookup are not part of this model; inodes and pointers are read from a buffer by arbitrary functions.
- DdNumbers.GetNum: the digits of a number are taken as parsed; signed numbers are not modelled.
- The other argument parsing of `dd`.
