# psp2shell: a verified model

psp2shell is a remote shell for the PS Vita: a kernel module that captures printed text, a user module that runs
commands on the device, and a PC client. This project models the parts of it that compute something and proves what
they promise. One Dafny module stands for one component; `dafny verify dfyconfig.toml` checks them all.

## What is modelled

**File trees** (`FileTrees`, `TreeSums`, `FileSystem`, `PathInfo`, `RemovePath`, `CopyTrees`, `CopyPath`,
`MoveTrees`, `MovePath`, `NestedMove`, `Paths`). The `sceIo` calls are the methods of a class that holds the directory tree as a map
from component paths to nodes. A directory stream is fixed when it is opened; its order, and where "." and ".." turn
up in it, are up to the device. Any call may fail although the tree allows it, reads and writes may be short, and the
ghost field `faulted` records that the device misbehaved, so that every method says both what a well-behaved device
leads to and what holds in every outcome. `s_getPathInfo`, `s_removePath`, `s_copyFile`, `s_copyPath` and `s_movePath`
are recursive methods over that state, with the strings, the string guard, the progress counter and the cancel handler
of the original. Their results are tied to functions on trees (`Pruned`, `Copied`, `Moved`, `Grafted`), and the laws
that connect these are lemmas. Exact results are claimed for every pair of paths that is clear: no node of the source
has its destination inside the source. Incomparable paths always are, and a destination that contains the source is
unless one node, which a caller can look up, exists (`ClearExactly`).

**File lists** (`Listing`, `FileList`, `DirectoryListing`). `s_fileListAddEntry` relinks heap nodes through `next` and
`previous`; its five-test scan is proved to decide a strict weak order, and a listing built by repeated insertion is
proved independent of the order of the stream. Nodes come from and go back to an allocator whose live and freed blocks
are tracked.

**Framebuffer terminal** (`Terminal`, `DebugScreen`). A 960 by 544 pixel array is proved to be, at every moment, the
rendering of a grid of 120 by 68 cells. The escape parser runs on 32-bit integers; Dafny's checks of these types are
the proof that it neither overflows nor leaves its parameter array, on any input.

**Kernel message slots** (`KmsgTable`, `KmsgInterleaving`, `KmsgOrder`). Once with each operation as one step, against a bounded
queue; once with every access to a shared field as its own step, in any interleaving of one producer and one consumer, with the exact condition for delivery in order.

**Wire formats and protocols** (`Strtol`, `Decimals`, `Command`, `Message`, `FileTransfer`, `HexDump`). The
quote-delimited commands, the coloured messages and their acknowledgement, file transfer over a stream that fragments
as it likes, and the memory dump with the client's reading of it.

**Client tokenizer and navigation** (`Splitting`, `Navigation`).

## Where the code does not do what it seems meant to do

The model follows the code. For each of these there is a lemma or a clause of a contract.

- `psvDebugScreenPuts` hands the parser the text from index 2 on, not the text behind the sequence it met. A text is
  walked as meant, position by position and with the same effect on every terminal, if and only if every sequence in it
  has the same length and effect read from both places (`WrittenWalkIsMeant`); texts whose only sequence stands at the
  start do (`LeadingSequenceIsAligned`), and `"x\e[31m"` is one that does not and is walked past its end
  (`LaterSequenceMisread`). Printing two parts walks like printing the whole exactly when their sequences read alike
  (`WalkInTwoParts`), and then the screens agree too (`PrintInTwoParts`, `PutsBoth`); screens can agree although the
  steps differ (`ScreensCanAgreeAnyway`). With the sequence read from the right place the split would never matter
  (`MeantWalkInTwoParts`).
- The guard against copying into oneself compares strings. On normalised strings it decides the component-prefix
  relation but for one pair, a source that is the destination with a slash added (`GuardDecides`, `SlashPairSlips`), and
  it is passed on to every recursive call under the same condition (`GuardInherited`). Copying a file onto such a second
  name of itself empties it (`CopyFile`).
- The guard lets a destination pass that contains the source. If a node of the source would land on the source itself,
  no result has all nodes at their destinations and none at the source (`ExactMovePossible`), and bytes can be lost
  without any fault: moving `ux0:/a/b` to `ux0:/a` with files `ux0:/a/b/x` and `ux0:/a/b/b/x` overwrites the first when
  the device yields `b` before `x`, and reports success (`MoveIntoParentLosesBytes`). Otherwise such a move or copy is
  exact like any other (`ClearExactly`, `MovePath`, `CopyPath`).
- Copying an empty directory onto a file succeeds and leaves the file (`EmptyDirectoryOverFileExample`), so a complete
  copy is the overlay of source over destination if and only if no source directory meets a file (`CopyIsOverlay`).
- `s_movePath` returns 1 when the source is missing or the destination has no directory to go into, and changes
  nothing then (`MoveOutcome`). Between removing the file in the way and renaming over it, a device fault loses the
  destination's file; the source's is still at its old place.
- `s_getPathInfo` reports a missing path as one file when no size is asked for (`GetPathInfo`).
- A read error ends a directory walk quietly, with the same return value as the end of the directory
  (`ReadErrorEndsQuietly`, `GetDirectoryEntries`, `MergeEnds`).
- A kernel message of length 0 is copied into a slot and leaves it free, so it vanishes (`Push`, `MessagesConserved`).
- Stop-and-wait survives a step if and only if the step is harmless: a print in an answered colour and with a text, or
  one that the printer is not ready for, and no raw kernel record that looks like a coloured message (`NextKeeps`,
  `RunKeepsExactly`). A print in an unanswered colour, or of an empty text, leaves the printer waiting with nothing in
  flight (`UnansweredPrintHangs`); every raw record of three or more characters that starts with 11 to 14 is answered
  although nothing was printed (`RawAnswered`, `LookalikeIsAnswered`).
- A slot freed while a drain is under way can be refilled behind the consumer, so messages can overtake one another.
  Delivery is in the order of publication if and only if no publication goes to a slot that the consumer reaches before
  an occupied one with another message (`DeliveredInOrder`).
- The text column of the memory dump shows the bytes of each word in the reverse of their order in memory
  (`GutterRunsBackwards`), and up to 15 bytes more than asked for are read (`ReadMemory`).
- A step up shortens the path if and only if there is a slash to cut at, a device's colon with something behind it, or
  more to cut than `root` is long (`UpShortens`): `ux0:` keeps its length and `a` grows (`LastStepHome`).
- From `/`, changing to a directory that is not there leaves the current path empty (`DestinationIs`).

## Model

| member | source | states |
|---|---|---|
| Splitting.JoinAfterSplit | psp2shell_cli/source/utility.c:11-33 | tokens hold no delimiter, there is one more of them than delimiters, and joining them restores the input |
| Splitting.SplitAfterJoin | psp2shell_cli/source/utility.c:11-33 | any non-empty list of delimiter-free tokens survives joining and splitting |
| Splitting.StrSplit | psp2shell_cli/source/utility.c:11-33 | the strsep loop with its doubling array returns exactly the tokens, in an array cut to their number; through every doubling the used count never exceeds the allocation, a power of two below twice the used count |
| Paths.ChildComponents | psp2shell_m/source/file.c:130-133 | the joined string denotes the child, whether or not the directory's string ends in a slash |
| Paths.GuardSound | psp2shell_m/source/file.c:335-344 | on any strings, when the guard fires the destination is the source or lies inside it |
| Paths.GuardDecides | psp2shell_m/source/file.c:335-344 | on normalised strings the guard fires if and only if the source's components are a prefix of the destination's, but for a source that is the destination with a slash added |
| Paths.SlashPairSlips | psp2shell_m/source/file.c:335-344 | the pair the guard misses at its smallest: ux0:/a/ and ux0:/a, both normalised and the same path |
| Paths.GuardTellsCasesApart | psp2shell_m/source/file.c:416-425 | without trailing slashes -1 means the same path and -2 a destination strictly inside |
| Paths.GuardInherited | psp2shell_m/source/file.c:378-394 | a guard passed at the top call is passed at every recursive depth if and only if the source is not the destination with a slash added |
| FileSystems.FileSystem.Dopen | psp2shell_m/source/file.c:117-118 | opening a directory fixes a stream that holds each of its entries once, in any order, with "." and ".." anywhere; it fails only on a fault or where there is no directory |
| FileSystems.FileSystem.Rename | psp2shell_m/source/file.c:427-428 | a rename moves the whole subtree to a free path; an existing destination gives EEXIST; a failure changes nothing |
| FileSystems.FileSystem.Write | psp2shell_m/source/file.c:296-304 | appends a prefix of the data, all of it unless the device faulted |
| TreeSums.SumsAgree | psp2shell_m/source/file.c:306-308 | the nodes of a subtree are its files plus its folders, and the copy progress over it is its size plus its folders |
| TreeSums.WhatCounts | psp2shell_m/source/file.c:135-169 | a file counts as its bytes and one file, a directory as its entries and one folder more |
| PathInfos.GetPathInfo | psp2shell_m/source/file.c:113-173 | on a well-behaved device the counters that are asked for grow by exactly the bytes, folders and files of the subtree; in every outcome none goes down, or up by more than the subtree allows; a missing path is an error only when its size is asked for |
| PathInfos.CountEntry | psp2shell_m/source/file.c:130-147 | one entry, by recursion or with the size the stream reports, counts its subtree exactly, or no more than it after a fault |
| RemovePaths.RemovePath | psp2shell_m/source/file.c:175-263 | in every outcome nodes before equal nodes after plus progress and only nodes of the subtree go; success means the subtree is gone, nothing else changed, and the progress is its files plus folders; 0 only from the cancel handler; success is the value 1 |
| RemovePaths.RemoveEntry | psp2shell_m/source/file.c:192-222 | one entry, by recursion or as a file: the same conservation within its subtree |
| RemovePaths.PrunedCount | psp2shell_m/source/file.c:232-234 | pruning a subtree takes away exactly its files and folders |
| RemovePaths.ClearedAll | psp2shell_m/source/file.c:183-228 | once every entry of the stream is gone the directory is empty, so it can be removed |
| CopyPaths.CopyFile | psp2shell_m/source/file.c:265-329 | the guard's value, or: at most the destination file changes, its bytes are a prefix of the source's unless the device faulted, and on success they are the source's and the progress grew by their number; a second name of the source that the guard passes is emptied; success is the value 1 |
| CopyPaths.CopyContents | psp2shell_m/source/file.c:294-328 | the chunk loop writes exactly what it read, whatever the chunk sizes, and terminates on the unread remainder |
| CopyPaths.CopyPath | psp2shell_m/source/file.c:331-410 | on clear paths: nothing disappears and only destination paths with a counterpart change, in every outcome; success is exactly the copy of the whole subtree with progress size plus folders; failure has a cause: the handler, a fault, or trees that do not allow the copy; success is the value 1 |
| CopyPaths.CopyEntry | psp2shell_m/source/file.c:378-400 | the recursive call on an entry, with the same outcome one level down and never -1 or -2 |
| CopyPaths.EntryPassesGuard | psp2shell_m/source/file.c:335-344 | below a source that does not contain the destination the guard stays silent, so no recursive call returns -1 or -2 |
| CopyPaths.WalkGoesOn | psp2shell_m/source/file.c:369-401 | an entry's outcome extends the walk over the entries before it, or ends it with that outcome for the whole call |
| CopyPaths.ReadErrorEndsQuietly | psp2shell_m/source/file.c:373-408 | a walk that a read error stops after any number of entries returns 1, with nothing lost and only counterparts changed |
| CopyTrees.CopyableEntry | psp2shell_m/source/file.c:348-394 | a directory that can be copied has entries that can be copied at the moment the walk reaches them |
| CopyTrees.CopiedNext | psp2shell_m/source/file.c:369-401 | copying one more entry to what is already copied gives the copy with that entry |
| CopyTrees.CopiedAll | psp2shell_m/source/file.c:369-408 | when all entries of the stream are copied, the subtree is, and it was copyable |
| CopyTrees.EmptyDirectoryOverFile | psp2shell_m/source/file.c:348-352 | an empty directory over a file copies successfully, changes nothing, and is not the overlay |
| CopyTrees.EmptyDirectoryOverFileExample | psp2shell_m/source/file.c:348-352 | a concrete well-formed tree where that happens |
| FileTrees.CopyIsOverlay | psp2shell_m/source/file.c:331-410 | a complete copy is the overlay of the source on the old destination if and only if no source directory meets a file |
| FileTrees.ClearExactly | psp2shell_m/source/file.c:416-425 | for an existing source the paths are clear if and only if they are incomparable, or the destination contains the source and the one node that would land on the source does not exist |
| FileTrees.ExactMovePossible | psp2shell_m/source/file.c:462-503 | into a directory that contains the source, the exact moved tree lacks the source if and only if that node does not exist |
| FileTrees.MoveIsCopyThenRemove | psp2shell_m/source/file.c:412-508 | on clear, type-compatible paths moving a subtree is copying and then pruning it, and is the overlay without the source |
| FileTrees.MovingFreely | psp2shell_m/source/file.c:427 | moving a subtree to a free path under an existing directory keeps every node under directories |
| MovePaths.MovePath | psp2shell_m/source/file.c:412-508 | on clear paths: the guard's value, or in every outcome no source node lost and no destination node without a counterpart changed; with both flags and a well-behaved device the move is complete without a type conflict and returns -3 with one; without the flag for its kind an existing destination stays; success is the value 1 |
| MovePaths.MergeDirectory | psp2shell_m/source/file.c:462-503 | merging directory into directory entry by entry has the outcome of a move of the whole, also when an entry stops it |
| MovePaths.ReplaceFile | psp2shell_m/source/file.c:451-460 | removing the file in the way and renaming again has the outcome of a move; between the two the source is alone and whole |
| MovePaths.MoveLosesNothing | psp2shell_m/source/file.c:443-503 | in every outcome each source file's bytes are at its old place or, if gone from there, at its destination, and every destination node without a counterpart and everything outside is as it was |
| MovePaths.MoveRefinesCopyThenRemove | psp2shell_m/source/file.c:412-508 | a successful move leaves the same tree as a successful copy followed by removing the source: both trees merged, source winning, source gone |
| MovePaths.MergeGoesOn | psp2shell_m/source/file.c:469-497 | an entry's outcome extends the merge, or ends the whole call with the entry's return value |
| NestedMoves.SourceOverwritten | psp2shell_m/source/file.c:469-497 | moving a directory into its parent, entry c walked first: its nodes replace nodes of the source that have not been moved |
| NestedMoves.MoveIntoParentLosesBytes | psp2shell_m/source/file.c:443-506 | a whole such move: every call succeeds without a fault, and of two files of one name the outer one's bytes are nowhere |
| NestedMoves.MoveIntoParentPasses | psp2shell_m/source/file.c:416-425 | the guard passes for any strings of these paths, and they are not clear |
| NestedMoves.PopulatedHolds | psp2shell_m/source/file.c:469-497 | any directory can hold such a source |
| MoveTrees.SafeAndGone | psp2shell_m/source/file.c:412-508 | a safe outcome without a source is exactly the moved tree |
| MoveTrees.FileMadeWay | psp2shell_m/source/file.c:451-457 | once the file in the way is removed the source can be renamed, and it is alone only after a fault |
| MoveTrees.MergeNext | psp2shell_m/source/file.c:473-497 | a safe move of one more entry keeps a merge safe and everything still to come untouched |
| MoveTrees.MergeCompleted | psp2shell_m/source/file.c:502 | removing the emptied source directory completes the merge |
| Listings.StrncmpDecides | psp2shell_m/source/file.c:572-573 | comparing over the shorter length with ties to the shorter string is the lexicographic order |
| Listings.NameComparison | psp2shell_m/source/file.c:566-573 | the comparison that drops a trailing slash is the lexicographic order on the names without it |
| Listings.ScanDecides | psp2shell_m/source/file.c:557-577 | the five tests stop the scan exactly in front of a greater entry |
| Listings.KeyStrictWeakOrder | psp2shell_m/source/file.c:557-577 | the order "..", folders, files, each by stripped name, is irreflexive, transitive, and its ties are equality of rank and stripped name |
| Listings.InsertPosition | psp2shell_m/source/file.c:555-581 | in an ordered list what comes before the new entry is no greater and what comes after is greater, so ties go behind their equals |
| Listings.InsertKeepsOrder | psp2shell_m/source/file.c:551-597 | inserting keeps the list ordered and adds just the new entry |
| Listings.SortedIsUnique | psp2shell_m/source/file.c:551-597 | an ordered list of entries with different keys is determined by which entries it holds |
| FileLists.FileList.Scan | psp2shell_m/source/file.c:552-581 | the loop ends at the first entry the tests stop at, with its predecessor |
| FileLists.FileList.LinkSorted | psp2shell_m/source/file.c:583-597 | new head, new tail or middle: exactly the links around the position change |
| FileLists.FileList.LinkIn | psp2shell_m/source/file.c:544-604 | only node, ordered, or appended: exactly the links around the position change |
| FileLists.FileList.AddEntry | psp2shell_m/source/file.c:543-607 | the list stays doubly linked and acyclic with correct head, tail and length; the entry is inserted at the scan's position, or at the end without an order, and the rest is not reordered |
| FileLists.FileList.Empty | psp2shell_m/source/file.c:609-623 | every node is freed exactly once, in order, no freed node is read, and the list is empty with its counters at zero |
| FileLists.SplicedIsLinked | psp2shell_m/source/file.c:583-597 | changing just these links gives a well-formed list with the new node at the position |
| DirectoryListings.GetDirectoryEntries | psp2shell_m/source/file.c:666-718 | the list becomes what it held with ".." and then the stream's entries inserted one by one, all of them or, after a read error, the ones read before it, with return value 0; the folders counted are the folder entries added, and its length stays files plus folders plus the one ".." |
| DirectoryListings.GetMountPointEntries | psp2shell_m/source/file.c:625-664 | exactly the mount points there are, each once, with the free sizes reported, are added to what the list holds, an ordered list staying ordered; after a fault some may be missing; the folders counted are the entries added |
| DirectoryListings.ListedIsListing | psp2shell_m/source/file.c:683-712 | entries inserted one by one into ".." form an ordered listing that holds each of them once |
| DirectoryListings.ListingIsCanonical | psp2shell_m/source/file.c:666-718 | any two orders of the stream give the same listing: "..", then exactly the directory's entries, each once, in order |
| DirectoryListings.ListingSays | psp2shell_m/source/file.c:692-706 | such a listing says of each entry its name, with a slash for a folder, whether it is one and a file's size, and holds nothing else but ".." |
| DirectoryListings.SnapshotData | psp2shell_m/source/file.c:692-708 | every complete stream of a directory yields the same list data |
| DirectoryListings.EntryKeys | psp2shell_m/source/utility.c:264-274 | different names have different keys, also with the slash folders are given |
| DirectoryListings.GetEntries | psp2shell_m/source/file.c:720-725 | home adds the mount points to what the list holds, any other path its directory, or fails and leaves the list as it was |
| DirectoryListings.Refresh | psp2shell_m/source/cmd.c:212-214 | whatever the list held, its old nodes are freed once each, it becomes the listing of the path with folders and files counted, of part of it after a fault, and no other block is freed or lost |
| Terminals.WrittenWalkIsMeant | psp2shell_loader/include/debugScreen.h:117-150 | the code's walk visits the positions of the meant one and does the same at each to every terminal if and only if every sequence met has the same length and effect at index 2 as behind its own "ESC [" |
| Terminals.MeantWalkStaysInside | psp2shell_loader/include/debugScreen.h:132-135 | on well-formed text, with each sequence read behind its "ESC [", it is consumed exactly and the walk ends at the end of the text |
| Terminals.AlignedPrintsAsMeant | psp2shell_loader/include/debugScreen.h:117-150 | so a well-formed, aligned text is walked to its end and leaves every terminal as meant |
| Terminals.LeadingSequenceIsAligned | psp2shell_loader/include/debugScreen.h:132-135 | a text with no sequence but at its start is aligned |
| Terminals.LaterSequenceMisread | psp2shell_loader/include/debugScreen.h:132-135 | a well-formed text with a later sequence that the code reads from the wrong place and walks past the end of |
| Terminals.WalkInTwoParts | psp2shell_loader/include/debugScreen.h:109-154 | printing a+b visits the positions of printing a and then b and does the same at each to every terminal, if and only if the sequences of each part have the same length and effect at index 2 of the whole as at index 2 of the part; the whole then ends at its end |
| Terminals.PrintInTwoParts | psp2shell_loader/include/debugScreen.h:109-154 | in that case a+b can be printed, and the screen, cursor and colours after it are those after printing a and then b |
| Terminals.ScreensCanAgreeAnyway | psp2shell_loader/include/debugScreen.h:132-135 | two texts whose steps differ in two parts and at once, and that show the same on every terminal all the same |
| Terminals.MeantWalkInTwoParts | psp2shell_loader/include/debugScreen.h:109-154 | with each sequence read behind its "ESC [", splitting anywhere outside a sequence makes no difference |
| Terminals.ScanExtends | psp2shell_loader/include/debugScreen.h:55-82 | a sequence with its letter reads the same whatever follows |
| Terminals.ReadsPosition | psp2shell_loader/include/debugScreen.h:62-65 | "col;rowH" of up to seven characters before the letter places the cursor at that cell |
| Terminals.ReadsColor | psp2shell_loader/include/debugScreen.h:66-78 | "nm" sets exactly the one colour parameter |
| Terminals.ReadsColors | psp2shell_loader/include/debugScreen.h:56-66 | a list "a;b;...m" of up to seven characters before the letter sets exactly its parameters |
| Terminals.ColorSequence | psp2shell_loader/include/debugScreen.h:67-77 | "nm" by its number: 30 to 37 and 40 to 47 a dark foreground and background from the palette, 90 to 97 and 100 to 107 a light one, a single digit the defaults, anything else nothing |
| Terminals.ColorsInTurn | psp2shell_loader/include/debugScreen.h:67-77 | a list does what its parameters do one after the other |
| Terminals.PositionSequence | psp2shell_loader/include/debugScreen.h:62-65 | "col;rowH" puts the cursor at eight times column and row and does nothing else |
| Terminals.ConsumedThroughLetter | psp2shell_loader/include/debugScreen.h:57-81 | a sequence read behind its own "ESC [" is consumed through its first letter and no further |
| Terminals.PlainTextShown | psp2shell_loader/include/debugScreen.h:117-150 | a plain text that fits its line fills as many cells from the cursor on with its characters in the current colours, changes no other, and leaves the cursor behind them |
| Terminals.LineBreaks | psp2shell_loader/include/debugScreen.h:125-131 | a newline goes down and to the left, a carriage return to the left only, and nothing is drawn |
| Terminals.ReadyIsRoomy | psp2shell_loader/include/debugScreen.h:118-124 | a cell that fits stays; past the right edge the next line is taken; without one the screen is blank in the background colour and the cursor home |
| DebugScreens.DebugScreen.Clear | psp2shell_loader/include/debugScreen.h:101-107 | every pixel gets the colour, the grid is blank and the cursor home |
| DebugScreens.DebugScreen.ParseEscape | psp2shell_loader/include/debugScreen.h:55-82 | on any text the parser does what the sequence says, a position in multiples of eight and one colour as the palette has it, keeps the cursor on cell corners and bounded, and returns how far it scanned |
| DebugScreens.ReadParams | psp2shell_loader/include/debugScreen.h:56-66 | on any text the parameter index stays within the array, no 32-bit sum overflows, and a position is below ten million cells |
| DebugScreens.DebugScreen.ApplyColors | psp2shell_loader/include/debugScreen.h:67-77 | the colour parameters take effect one after the other |
| DebugScreens.DebugScreen.DrawGlyph | psp2shell_loader/include/debugScreen.h:137-149 | the nested loops set the pixel in row i and column j of the cell to the foreground just when font byte 8*ch+i has the bit worth 2^(7-j), to the background otherwise, and change no other pixel and no other cell |
| DebugScreens.DebugScreen.MakeRoom | psp2shell_loader/include/debugScreen.h:118-124 | whatever the coordinates, a wrap or a clear makes room for a whole cell on the screen, and where there is room nothing happens |
| DebugScreens.DebugScreen.Puts | psp2shell_loader/include/debugScreen.h:109-154 | the pixels always render the grid, the screen is the cell terminal's after the same walk, and the text's length is returned |
| DebugScreens.PutsBoth | psp2shell_loader/include/debugScreen.h:109-154 | calling Puts on a and then on b leaves the pixels, cursor and colours of one call on a+b, which is then a text Puts can print |
| DebugScreens.GlyphShows | psp2shell_loader/include/debugScreen.h:140-148 | once a cell's 64 pixels are inked, the buffer renders the grid with that cell replaced |
| DebugScreens.CellPixelIs | psp2shell_loader/include/debugScreen.h:139-146 | what a cell of the rendering shows at a pixel, in terms of the font's bytes |
| DebugScreens.InkPixel | psp2shell_loader/include/debugScreen.h:142-146 | the pixel pointer stays in the buffer and its write is that pixel of the cell |
| KmsgTables.KmsgTable.AddMsg | psp2shell_k/main.c:42-52 | unless 64 messages wait or its length is 0, one message is queued behind the others: its length cut to 256, its text up to that length or its terminator, zeros behind; otherwise nothing changes; occupied slots are a prefix |
| KmsgTables.CutCarries | psp2shell_k/main.c:45-48 | the message put into a slot, also under interleaving, carries exactly that text |
| KmsgTables.KmsgTable.WaitBuffer | psp2shell_k/main.c:110-128 | draining returns the whole queue in order and leaves it empty |
| KmsgTables.Serve | psp2shell_k/main.c:42-128 | over any run of additions and drains, everything drained plus what is left is what a bounded queue accepts, in order |
| KmsgTables.AcceptedAppend | psp2shell_k/main.c:42-52 | what a run accepts is what its parts accept, given the messages waiting between them |
| KmsgInterleavings.ProducedInv | psp2shell_k/main.c:42-52 | every access of the producer writes only a free slot and keeps delivered plus pending equal to published |
| KmsgInterleavings.ConsumedInv | psp2shell_k/main.c:110-128 | every access of the consumer copies from an occupied slot that nobody writes, and releases it only when delivered |
| KmsgInterleavings.NextAccounted | psp2shell_k/main.c:42-52 | no access loses track of a message: added are published, dropped, empty or in hand |
| KmsgInterleavings.RunInv | psp2shell_k/main.c:42-128 | both hold in every state of every interleaving |
| KmsgInterleavings.MessagesConserved | psp2shell_k/main.c:42-128 | in every interleaving published messages are the delivered and the pending ones, so each is delivered at most once and whole, and a message is dropped only after all 64 slots were seen occupied |
| KmsgOrders.NextInOrder | psp2shell_k/main.c:42-52 | a step keeps delivery in the order of publication if and only if it publishes no message into a slot the consumer reaches before an occupied one with another message |
| KmsgOrders.DeliveredInOrder | psp2shell_k/main.c:42-128 | over any interleaving, every state is in order if and only if every publication keeps the order |
| Strtols.TwoCharacters | common/p2s_cmd.c:196-202 | two characters parse to at least 10 if and only if they are two digits, the first not 0 |
| Strtols.StrtoulOfDecimal | psp2shell_m/source/cmd.c:437 | a printed size below 2^32 survives parsing with base 0 |
| Commands.DecodeAfterEncode | common/p2s_cmd.c:168-226 | a command of a two-digit kind with three quote-free arguments of at most 511 characters survives, and its encoding fits the buffer |
| Commands.AcceptedExactly | common/p2s_cmd.c:184-205 | a buffer is accepted if and only if its first two characters are a decimal number of at least 10 |
| Commands.ArgumentBetweenQuotes | common/p2s_cmd.c:209-223 | argument i is what stands between quote i and the next |
| Commands.ArgumentMissing | common/p2s_cmd.c:211-220 | without that many quotes it is empty |
| Commands.DecodeEncodeDecode | common/p2s_cmd.c:168-226 | what was decoded from any accepted buffer with short enough fields survives another trip |
| Commands.ShortDecodes | common/p2s_cmd.c:114-166 | each short form of fields the record can hold fits its sender's buffer and decodes to its kind and fields, with the other arguments empty |
| Commands.EncodeIsShort | common/p2s_cmd.c:132-182 | the full form is the short form with three fields |
| Commands.ToBuffer | common/p2s_cmd.c:168-182 | the appending loop produces the encoding |
| Commands.CommandRecord.FromBuffer | common/p2s_cmd.c:184-226 | for fields of at most 511 characters, the pointer-stepping loop fills the record with the fields between consecutive quotes, or refuses and leaves it zeroed or as it was |
| Messages.DecodeAfterEncode | common/p2s_msg.c:81-119 | a non-empty message of a two-digit colour arrives as it was sent, an empty one does not decode |
| Messages.MessageRecord.FromBuffer | common/p2s_msg.c:94-119 | the record after decoding, refusing or ignoring a buffer |
| Messages.MessageRecord.Receive | common/p2s_msg.c:38-58 | a record that begins with a two-digit number of at least 10 and goes on gives the number and the rest up to the terminator; any other record gives no colour and its whole text up to the terminator |
| Messages.PrintedAnswered | psp2shell_cli/source/main.c:213-233 | a printed message is answered if and only if it is non-empty and red, yellow, green or hex |
| Messages.RawAnswered | psp2shell_cli/source/main.c:202-233 | a raw record is answered if and only if it has at least three characters before any terminator and starts with 11 to 14 |
| Messages.NextKeeps | psp2shell_m/source/main.c:72-110 | a step of printer, kernel sender or client keeps exactly one message or answer in flight for a waiting printer, and none for a ready one, if and only if it is allowed or a print the printer is not ready for |
| Messages.RunKeepsExactly | psp2shell_m/source/main.c:72-110 | over any run, every state keeps stop-and-wait if and only if every step that takes effect is allowed |
| Messages.AnyRunKeeps | psp2shell_m/source/main.c:251-273 | from the start and over any interleaving that is so exactly for the harmless runs, and then at most one coloured message is unanswered and answers never outnumber messages |
| Messages.DueFalls | psp2shell_cli/source/main.c:200-233 | while the printer waits, each effective step of the client brings its answer one step closer and kernel records do not delay it |
| Messages.WaitEnds | psp2shell_m/source/main.c:72-88 | under every schedule of the client and the kernel, after as many effective client steps as were due the printer's answer is there, and until then the client has such a step |
| Messages.LookalikeIsAnswered | psp2shell_m/source/main.c:261-263 | every raw record that looks like a message is answered on an idle link though nothing was printed |
| Messages.UnansweredPrintHangs | psp2shell_m/source/main.c:103-109 | on an idle link an empty print, or one in an unanswered colour, leaves the printer waiting with nothing in flight |
| FileTransfers.SendFile | psp2shell_cli/source/cmd.c:20-38 | exactly the file's bytes are sent, whatever the chunks, and the progress is its size |
| FileTransfers.RecvAll | psp2shell_m/source/utility.c:204-222 | exactly the next bytes asked for, for every fragmentation, and the stream is left behind them |
| FileTransfers.RecvFile | psp2shell_m/source/utility.c:224-247 | exactly the announced bytes go to the file and are consumed, with the remaining count as measure; without memory nothing is received |
| FileTransfers.PutRequestSurvives | psp2shell_cli/source/cmd.c:131-132 | a request with names of at most 511 characters fits the sender's buffer, and names and size survive printing, argument splitting and parsing |
| FileTransfers.LoadRequestSurvives | psp2shell_cli/source/cmd.c:178-179 | the same for load |
| FileTransfers.ReloadRequestSurvives | psp2shell_cli/source/cmd.c:201 | the same for reload, whose sender has a buffer of 32 characters |
| FileTransfers.Transfer | psp2shell_m/source/cmd.c:436-461 | the target file is the file the client read, and the next byte to read is the first one sent after it |
| FileTransfers.Put | psp2shell_cli/source/cmd.c:120-141 | the same for put from the request to the file, for names the record can hold |
| HexDumps.StrtoulOfHex | psp2shell_cli/source/main.c:163 | a word printed with eight digits parses back, with or without the newline behind it |
| HexDumps.LineSplits | psp2shell_cli/source/main.c:154-156 | a printed line splits into the address and its four words |
| HexDumps.PrintHex | psp2shell_cli/source/main.c:151-193 | a line of five tokens is shown with its sixteen characters, any other not at all |
| HexDumps.GutterShowsWords | psp2shell_cli/source/main.c:161-182 | the characters beside a printed line are the bytes of its four words, the highest byte of each first |
| HexDumps.GutterRunsBackwards | psp2shell_m/source/cmd.c:337-344 | so within each word they run against the order of the bytes in memory |
| HexDumps.LineTells | psp2shell_m/source/cmd.c:341-344 | the same for a single line, whose numbers are printed with eight upper-case digits |
| HexDumps.ReadMemory | psp2shell_m/source/cmd.c:331-348 | one line for every sixteen bytes begun; read back, each gives its address, in word j the four bytes from address + 4j on, lowest first, and beside it those bytes as characters, a dot for the unprintable |
| Navigations.CurrentPath.ChangeDirectory | psp2shell_m/source/cmd.c:177-210 | an argument that exists by itself becomes the path, else one that exists below the path is entered, and the path stays just when there is neither; ".." cuts behind the last slash, else behind a device's colon, else leads home; the path is not empty unless it was "/" and the argument is not there |
| Navigations.DestinationIs | psp2shell_m/source/cmd.c:183-210 | a cd leads up, to a path that exists or nowhere, and to an empty path exactly from "/" with an argument that is not there |
| Navigations.UpIs | psp2shell_m/source/cmd.c:186-201 | going up keeps everything through the last slash, with no slash everything through a colon with something behind it, and otherwise leads home |
| Navigations.UpDropsLast | psp2shell_m/source/cmd.c:186-189 | cutting at a slash drops exactly the last component |
| Navigations.EnterThenUp | psp2shell_m/source/cmd.c:186-210 | entering a child and going up returns to the same directory, with a slash at the end |
| Navigations.UpShortens | psp2shell_m/source/cmd.c:186-201 | a step up leads home or to a strictly shorter path, and is strictly shorter if and only if there is a slash to cut at, a colon with something behind it, or more than four characters |
| Navigations.UpLeadsHome | psp2shell_m/source/cmd.c:186-201 | from any non-empty path repeated steps up reach "root" and stay there |
| Navigations.LastStepHome | psp2shell_m/source/cmd.c:193-197 | the step from a bare device to "root" keeps the length, the step from "a" adds to it |

## Left out

- CopyPaths.CopyPath: paths that the guard lets through and that are not clear are excluded by its precondition: a node of an existing source would be copied into the source while it is walked, and the shrinking source that shows the walk ends is lost. Wrap-around of the 32 and 64 bit counters and the truncation of joined strings at 256 characters are not modelled.
- MovePaths.MovePath: the same precondition; for a destination that contains the source `FileTrees.ExactMovePossible` shows that no outcome could be the exact one, and `NestedMoves` what is lost. The progress record, which the code only hands down, is not a parameter.
- PathInfos.GetPathInfo: after a fault the counters are only bounded.
- RemovePaths.RemovePath: the progress callback is not modelled; the cancel handler answers arbitrarily.
- DirectoryListings.GetDirectoryEntries: names must be short enough to be given a slash; the entry type and times are not part of the list data.
- DirectoryListings.GetMountPointEntries: the free sizes the devices report are a parameter; the total size is not part of the list data.
- DebugScreens.DebugScreen.Puts: a text whose walk passes its terminator reads foreign memory in the original and is excluded by the precondition; `char` is unsigned, as on the device.
- Commands.CommandRecord.FromBuffer: fields longer than the record's 511 characters, which overflow it in the original, are excluded by its precondition.
- Messages.AnyRunKeeps: the message channel preserves records, texts and records fit their buffers, and the printer, the client's loop and the kernel sender are steps of a state machine rather than threads; the receive timeout of the reply is not modelled.
- FileTransfers.RecvAll: the stream delivers the announced bytes; socket errors and a closed peer are not modelled.
- FileTransfers.Transfer: the device's OK between request and data is taken as given, and the client's size is the number of bytes it reads.
- HexDumps.ReadMemory: addresses do not wrap at the top of the address space.
- Navigations.CurrentPath.ChangeDirectory: the listing that follows, its failure path (psp2shell_m/source/cmd.c:215-218) and the cut at 256 characters are not modelled.
- KmsgInterleavings.MessagesConserved: there are one producer and one consumer with sequentially consistent accesses; several producers are not covered.
- The file system is used by one thread at a time, and "." and ".." in path strings are ordinary components.
- The framebuffer is exactly 960 by 544 pixels; the font is any table of 2048 bytes.
- Overwriting in `p2s_cmd_send_string` and the other fixed-size senders when an argument is too long.
- `s_getFileType`, `p2s_msg_send`, `p2s_cmd_wait_result`, `cmd_memw`, `cmd_find`: each would add only a small function, or concerns foreign memory.
- Hooks, module and thread commands, application launch, mounting, sockets, the readline interface and the loader's main loop: calls into the system with no contract visible in the sources.
