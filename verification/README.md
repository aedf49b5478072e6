# KOS: memory management, terminal and line editor

KOS is a small x86-64 kernel. This project models its three memory managers and its text
console in Dafny and proves what they keep on every run.

| file | models |
|---|---|
| `Machine.dfy` | fixed-width words, bitwise operators, little-endian bytes |
| `Multiboot.dfy` | the Multiboot2 tag list in memory (Multiboot2 specification, sections 3.6.2 and 3.6.8), its encoding and the walk over it |
| `Frames.dfy`, `Pmm.dfy` | the physical memory manager: sets of page frames, and the byte bitmap with its counter |
| `HeapModel.dfy`, `HeapProofs.dfy`, `HeapLayout.dfy`, `KernelHeap.dfy` | the kernel heap: the block list on values, its laws, where blocks lie, and the packed headers in bytes of memory |
| `Boot.dfy` | the kernel as linked: the heap is the only client of the physical memory manager |
| `PageTables.dfy`, `PageTableTree.dfy`, `LowPages.dfy`, `Vmm.dfy` | four-level page tables, the hardware walk (Intel SDM Volume 3A, section 4.5), what mapping does inside 2 MiB pages, and the virtual memory manager |
| `Terminal.dfy`, `Vga.dfy` | an endless terminal, and the scrolling 80x25 screen that is a window on it |
| `Commands.dfy` | what commands print, and pipes: the output of one command captured and printed before the next |
| `LineEditor.dfy`, `CStrings.dfy`, `Shell.dfy` | the command line with history and completion, C strings in fixed buffers, and the shell that runs on them |
| `Witnesses.dfy` | inputs on which the code falls short, one for each property that holds only under a condition |

Code that changes state in the source is a class here (`Pmm`, `Heap`, `Vmm`, `Vga`, `Output`,
`Console`). The contract of each of its methods equates the new abstract state with a function
of the old one, and the theorems are about those functions. `dafny verify dfyconfig.toml` checks
everything.

## What turned out

Some properties one would expect of the code hold only under a condition. Each is proved
together with its exact condition, and shown to fail at an input the kernel can receive.

- `kmalloc` returns for every request except those of 2^64 - 4127 to 2^64 - 32 bytes that no
  block fits: the page count of the expansion wraps to 0 and the recursion repeats itself
  (`HaltsExactly`, `ExpansionIsEmptyIff`). No block of the running kernel is that large, so on
  every run exactly these requests never return (`HaltsOutsideWindow`, `EndlessRequest`).
- A granted block holds the request exactly when the request is at most 2^64 - 8 bytes; above,
  the aligned size wraps to 0, and a fresh heap grants a block of no bytes
  (`GrantCoversRequestIff`, `EmptyGrant`).
- `kfree` merges list neighbours without looking at addresses. Blocks stay disjoint on every
  run even so, but they stay inside the frames the heap has taken on all runs exactly when the
  frames free at the start form one interval (`SoundExactlyForIntervals`). Two available pages
  with a hole between them break it (`HoleBreaksHeap`).
- Freeing a block keeps the used-bytes statistic right exactly when the block was live or empty
  (`ReleaseConserves`); freeing a granted block twice makes it wrong (`DoubleFreeMiscounts`).
- The count of free frames is right after initialisation exactly when no two available entries
  share a frame (`Pmm.Init`, `MarkCountExact`). Two entries that share a page make it one too
  high (`OverlapMiscounts`).
- The free frames that an available entry contributes lie inside it, for all entries, exactly when
  no available entry of a page or more starts inside a page between 2 MiB and the end of managed
  memory (`BootFramesInsideIffAligned`, `MisalignedEntryReachesOut`).
- A frame that an available entry contributes is free after boot exactly when it lies between 2 MiB
  and 1 GiB and below the 64-bit end of some available entry, which an entry that wraps past 2^64
  does not raise (`BootFramesAre`, `BootFramesWithoutWrap`).
- Every memory map of n entries is read back as it was written exactly when its stated entry size
  is 24 or n is at most 1: the source counts by the stated size but steps by 24 bytes
  (`ReadsBackExactly`). Of the maps with more entries in a larger stated size, some are misread.
- A successful `vmm_map_page` maps the page it was asked for, and no other, exactly when the page
  did not lie in a 2 MiB page (`MapsOnlyIffNotLarge`). Inside one it reports success, but writes a
  word into the frame mapped there, and no translation changes unless that frame holds a table
  (`OutsideTablesNothingChanges`).
- After `vmm_init` this concerns every page below 16 MiB. Such a page stays mapped to itself unless
  the word written is an entry of its own walk, and it can be mapped as asked, with some memory
  and some request, exactly then (`LowPageStays`, `MappableExactly`). With the root in the frame at
  2 MiB, a call for the page there overwrites the first entry of the root
  (`FirstPageOverwritesRoot`).
- The screen keeps agreeing with the line buffer exactly when a backspace does not come at the
  left edge and no line of more than 72 characters is replaced (`AgreesExactlyWhenSafe`). At a
  line of 73 characters both go wrong (`LongLineDisagrees`).
- While output is captured for a pipe the screen stays as it is exactly when the command prints
  no number directly (`CaptureIsSilentExactly`). `DATE` before a pipe puts its digits on the
  screen at once, and the pipe carries the date without them (`PipedDateLeaks`).

kernel/pmm.h:19 announces memory statistics in KB; kernel/pmm.cpp:167-173 returns bytes, and the
model follows the code.

## Model

| member | source | states |
|---|---|---|
| Machine.LittleEndian | kernel/pmm.cpp:79-93 | words are read from memory low byte first |
| Machine.BitByBit | kernel/pmm.cpp:93 | the bitwise operators used in the masks act on every bit for itself |
| Multiboot.StrideIsMask | kernel/pmm.cpp:93 | the distance to the next tag is the masked 32-bit sum of the source |
| Multiboot.EntriesBound | kernel/pmm.cpp:79-94 | the walk meets at most one entry for each 24 bytes of boot information behind its first tag |
| Multiboot.WalkReadsEncodedTags | kernel/pmm.cpp:79-94 | over any encoded tag list (entry sizes as in `ReadsBackExactly`), wherever it lies, the walk is defined, stops at the end tag and meets exactly the encoded memory-map entries in order |
| Multiboot.ReadsBackExactly | kernel/pmm.cpp:81-85 | with a stated entry size of at least 24, the walk meets the encoded entries of every memory map of n entries exactly when the size is 24 or n is at most 1 |
| Frames.MaxEndIsMaximum | kernel/pmm.cpp:84-90 | the end of memory is the largest end of an available entry, with 64-bit wrap-around |
| Frames.CoveredIsUnion | kernel/pmm.cpp:116-127 | the frames marked free are the union over the available entries of the frames addr/4096 up to addr/4096 + len/4096, cut at the managed total |
| Frames.MarkCountExact | kernel/pmm.cpp:122-125 | the marks counted are at least the frames marked, and equal them exactly when no two available entries share a frame |
| Frames.MarksArePairs | kernel/pmm.cpp:116-127 | the marks are counted once for every available entry and every managed frame of it |
| Frames.DisjointBytesDisjointFrames | kernel/pmm.cpp:119-122 | entries that share no byte share no frame |
| Frames.FramesInsideIffAligned | kernel/pmm.cpp:116-127 | for every list of entries, managed total and lower bound, all frames marked free from that bound on lie inside their entries exactly when no available entry of a page or more starts inside its first such page |
| Frames.RunConservesFrames | kernel/pmm.cpp:148-165 | on every run of clients that return only what they hold, frames are neither lost nor held twice, and the next allocation is the lowest free frame, held by nobody, between 2 MiB and the end of managed memory |
| PhysicalMemory.Pmm.Serve | kernel/pmm.cpp:148-165 | serving any permitted sequence of calls leaves exactly the free frames of that run, and keeps the counter as right as it was |
| PhysicalMemory.SettingOneBit | kernel/pmm.cpp:47-53 | setting a bit changes no neighbour in its byte |
| PhysicalMemory.ClearingOneBit | kernel/pmm.cpp:55-61 | clearing a bit changes no neighbour in its byte |
| PhysicalMemory.Pmm.BitmapSet | kernel/pmm.cpp:47-53 | after it exactly frame p is used that may not have been before |
| PhysicalMemory.Pmm.BitmapClear | kernel/pmm.cpp:55-61 | after it exactly frame p is free that may not have been before, if the bitmap covers it |
| PhysicalMemory.Pmm.BitmapTest | kernel/pmm.cpp:63-68 | frames outside the bitmap count as used |
| PhysicalMemory.Pmm.ScanMemoryMap | kernel/pmm.cpp:75-94 | the first pass finds the largest end of the available entries of the boot information |
| PhysicalMemory.Pmm.SizeBitmap | kernel/pmm.cpp:96-108 | as many whole frames are managed as fit below the end of memory, at most 262144; none is free, tail bits set |
| PhysicalMemory.Pmm.MarkAvailable | kernel/pmm.cpp:110-130 | the second pass frees exactly the covered frames and counts every mark |
| PhysicalMemory.Pmm.ReserveLow | kernel/pmm.cpp:132-135 | the first 512 frames are taken, and the counter follows |
| PhysicalMemory.Pmm.Init | kernel/pmm.cpp:70-146 | the free frames are the covered ones without the first 512, and the counter equals their number exactly when no two available entries share a frame |
| PhysicalMemory.Pmm.AllocPage | kernel/pmm.cpp:148-157 | the lowest free frame is returned and taken and no other changes; 0 means exhaustion unless frame 0 is free |
| PhysicalMemory.Pmm.FreePage | kernel/pmm.cpp:159-165 | a managed frame in use becomes free, everything else is ignored, and the counter moves exactly when the set does |
| PhysicalMemory.Pmm.GetFreeMemory | kernel/pmm.cpp:171-173 | with a right counter, 4096 bytes for each free frame |
| HeapModel.AlignIsMask | kernel/heap.cpp:53-55 | alignment is the masked 64-bit sum of the source |
| HeapModel.AlignCoversIffNoWrap | kernel/heap.cpp:53-55 | the aligned size covers the request exactly when the sum does not wrap, and aligning twice changes nothing |
| HeapModel.ExpansionIsEmptyIff | kernel/heap.cpp:58-60 | the page count of an expansion is 0 exactly for requests of 2^64 - 4127 to 2^64 - 32 bytes |
| HeapModel.PagesCover | kernel/heap.cpp:58-60 | an expansion asks for the least number of pages that cover the bytes needed, or none where the sum wraps |
| HeapModel.FirstFit | kernel/heap.cpp:88-116 | the index found is the first block in list order that is free and large enough |
| HeapModel.ExpandTakes | kernel/heap.cpp:58-81 | an expansion succeeds exactly when enough frames are free; either way each frame it takes becomes one free block of 4071 bytes at the end of the list, and a failed one takes them all |
| HeapModel.HaltsExactly | kernel/heap.cpp:83-125 | kmalloc returns after finitely many retries exactly for a zero request, a fitting block, or a nonzero page count; the free frames bound the retries |
| HeapProofs.KmallocConserves | kernel/heap.cpp:83-125 | success or failure, used bytes, free bytes, headers and unclaimed frames keep their sum, and the used-bytes statistic stays as right as it was |
| HeapProofs.ReleaseConserves | kernel/heap.cpp:127-147 | freeing conserves bytes, and keeps the statistic right exactly for a live or empty block |
| HeapProofs.GrantIsFirstFitAndTight | kernel/heap.cpp:96-112 | the first free block with as many bytes as the aligned request is granted; it is cut to the request, the rest becoming a free block behind it, exactly when 57 bytes or more are left over |
| HeapProofs.GrantCoversRequestIff | kernel/heap.cpp:83-112 | the granted block holds the request exactly when the request is at most 2^64 - 8 bytes |
| HeapProofs.KmallocNullExactly | kernel/heap.cpp:83-125 | null exactly for a zero request, or when no free block has as many bytes and no frame is left, the aligned request exceeds 4064 bytes, or it wrapped to 0 |
| HeapProofs.LargeRequestDrains | kernel/heap.cpp:118-124 | a request above one frame that no block fits ends in null with every free frame moved to the heap |
| HeapProofs.SmallRequestTakesOneFrame | kernel/heap.cpp:118-124 | a request of at most 4064 bytes takes at most one frame and one retry |
| HeapProofs.MallocThenFree | kernel/heap.cpp:96-144 | freeing the block just granted restores the list if the block was split, and otherwise leaves only a merge with a free successor; used bytes are restored |
| HeapLayout.ReleasePlaced | kernel/heap.cpp:140-144 | a merge keeps all blocks ordered and disjoint even when the merged blocks are not adjacent |
| HeapLayout.EveryRunIsConsistent | kernel/heap.cpp:27-161 | on every run from any free frames the blocks are ordered and disjoint, the reported used bytes are those of the live blocks, and used, free and header bytes add up to the frames taken |
| HeapLayout.HaltsOutsideWindow | kernel/heap.cpp:58-125 | on blocks that lie in memory, the requests from which kmalloc never returns are those of 2^64 - 4127 to 2^64 - 32 bytes, whatever the list |
| HeapLayout.EveryRunTiles | kernel/heap.cpp:58-147 | if the free frames form an interval, then on every run the blocks tile exactly the frames taken |
| HeapLayout.SoundExactlyForIntervals | kernel/heap.cpp:140-144 | the blocks stay inside the frames taken on all runs exactly when the frames free at the start form one interval |
| KernelHeap.DecodeEncode | kernel/heap.cpp:13-18 | a header survives its packed 25-byte layout |
| KernelHeap.HeaderLayout | kernel/heap.cpp:13-20 | size, flag, link and the magic number 0xDEADBEEF lie in bytes 0-7, 8, 9-16 and 17-24, low bytes first |
| KernelHeap.Heap.Init | kernel/heap.cpp:27-50 | the lowest free frame becomes one free block of 4071 bytes, or nothing changes; the free-page counter stays as right as it was |
| KernelHeap.Heap.ExpandHeap | kernel/heap.cpp:58-81 | the list in memory grows as the model does, also when frames run out part-way; live payload bytes stay, and the free-page counter stays as right as it was |
| KernelHeap.Heap.Kmalloc | kernel/heap.cpp:83-125 | result, list, free frames and counters are those of the model, the magic number of a visited block is never wrong, live payload bytes stay, and the free-page counter stays as right as it was |
| KernelHeap.Heap.Kfree | kernel/heap.cpp:127-147 | a block in the list is released as in the model; null pointers and pointers without a header change nothing; a stale header inside a payload leaves the list alone and moves the statistic; live payload bytes stay, but for those under such a header |
| KernelHeap.Heap.ClientWrite | kernel/heap.cpp:91-94 | a client's write into its payload damages no header and no link |
| KernelHeap.Heap.GetUsed | kernel/heap.cpp:149-151 | the wrapping difference of the cumulative counters, which is the number of live bytes exactly when the statistic has no error |
| KernelHeap.Heap.GetFree | kernel/heap.cpp:153-161 | the sum over the free blocks of the list |
| Boot.Start | kernel/kernel.cpp:119-125 | boot information to heap: the heap starts from the frames that initialisation left free, and the free-page counter is right afterwards exactly when no two available entries share a frame |
| Boot.BootFramesAre | kernel/pmm.cpp:75-135 | for every memory map, a frame is free after boot exactly when it lies between 2 MiB and 1 GiB, some available entry contributes it, and some available entry ends above it in 64-bit arithmetic |
| Boot.BootFramesWithoutWrap | kernel/pmm.cpp:75-135 | when no available entry wraps, the free frames are all frames addr/4096 up to addr/4096 + len/4096 of the available entries, between 2 MiB and 1 GiB |
| Boot.KernelHeapIsSoundIff | kernel/kernel.cpp:119-125 | for every memory map the kernel's heap keeps its blocks disjoint and reports the bytes of its live blocks on every run, and it is sound exactly when the frames free after boot form an interval |
| Boot.BootFramesInsideIffAligned | kernel/pmm.cpp:116-135 | the free frames that each entry contributes lie inside it exactly when no available entry of a page or more starts inside a page between 2 MiB and the end of managed memory |
| Boot.OneEntryAboveReserved | kernel/pmm.cpp:116-135 | a memory map in which one available entry alone reaches above 2 MiB leaves an interval |
| PageTables.AddressMask | kernel/vmm.cpp:19-21 | the address field is the masked entry |
| PageTables.PteCreateIsMasks | kernel/vmm.cpp:27-29 | an entry combines the masked address and the low 12 flag bits |
| PageTables.FlagBits | kernel/vmm.cpp:23-25 | the present and page-size bits are the masked bits |
| PageTables.IndicesAreShifts | kernel/vmm.cpp:31-33 | the table indices are the shifted and masked address |
| PageTables.SamePageIffSameIndices | kernel/vmm.cpp:93-96 | two addresses have the same four indices exactly when bits 47 to 12 agree |
| PageTables.PteFields | kernel/vmm.cpp:27-29 | an entry gives back the frame and the flags it was made of |
| PageTableTree.LookupIsTreeLookup | kernel/vmm.cpp:98-123 | the hardware walk follows the tree of tables |
| PageTableTree.MapPageInTree | kernel/vmm.cpp:92-130 | outside 2 MiB pages, success sets the translation of one page and no other, failure changes none and leaves no frame free, and each of the at most three frames taken holds a table of the tree |
| PageTableTree.MapPageTranslates | kernel/vmm.cpp:92-130 | after success outside 2 MiB pages every address of the page is translated into the physical page asked for, or to none without the present flag |
| PageTableTree.MapPageInLargePage | kernel/vmm.cpp:117-125 | inside a 2 MiB page the call writes one word of the frame that page maps and reports success |
| PageTableTree.MapsOnlyIffNotLarge | kernel/vmm.cpp:92-130 | a successful call maps its page and no other exactly when the page did not lie in a 2 MiB page |
| PageTableTree.UniqueParent | kernel/vmm.cpp:98-123 | below the root every table has exactly one entry pointing to it |
| PageTableTree.RunIsLastWriteWins | kernel/vmm.cpp:92-130 | on every run outside 2 MiB pages the walk is a last-write-wins map laid over the start, and every frame taken holds a table of the tree |
| PageTableTree.InitMapsSixteenMegabytes | kernel/vmm.cpp:46-84 | after success the first 16 MiB are mapped by the identity entries and nothing else is; after failure nothing is mapped, and without a free frame there is no root and memory is unchanged |
| PageTableTree.IdentityIsIdentity | kernel/vmm.cpp:80-84 | the identity entries translate every address below 16 MiB to itself |
| LowPages.OutsideTablesNothingChanges | kernel/vmm.cpp:117-127 | inside a 2 MiB page whose frame holds no table, the call reports success, keeps the tree, and changes no translation |
| LowPages.InitTables | kernel/vmm.cpp:46-84 | initialisation succeeds exactly with three free frames; the lowest three become the tables, with one entry, one entry, and the eight entries 2 MiB * i + 0x83 |
| LowPages.LowPageStays | kernel/vmm.cpp:80-130 | after initialisation a call for a page below 16 MiB overwrites one word of the frame it is mapped to and reports success; the page stays mapped to itself unless that word is an entry of its own walk, and nothing at all changes unless the frame holds a table |
| LowPages.MappableExactly | kernel/vmm.cpp:80-130 | a page below 16 MiB can be mapped as asked, for some memory and request, exactly when the call overwrites an entry of the page's own walk |
| LowPages.FirstPageOverwritesRoot | kernel/vmm.cpp:117-125 | with the root at 2 MiB the call for the page there overwrites the first entry of the root |
| VirtualMemory.Vmm.AllocPageTable | kernel/vmm.cpp:35-44 | a zeroed table in the lowest free frame, or null; the free-page counter stays as right as it was |
| VirtualMemory.Vmm.MapPage | kernel/vmm.cpp:92-130 | memory, free frames and result are those of the model; the free-page counter stays as right as it was |
| VirtualMemory.Vmm.Init | kernel/vmm.cpp:46-84 | memory, free frames and root are those of the model, also when a frame is missing; the free-page counter stays as right as it was |
| Terminal.CellHolds | kernel/kernel.cpp:23-27 | a cell holds its character in the low and its colour in the high byte |
| Terminal.NewlineStarts | kernel/kernel.cpp:53 | a line feed keeps every line and starts a new one of spaces |
| Terminal.BackspaceBlanks | kernel/kernel.cpp:54-55 | a backspace moves left by one and leaves a space there, and does nothing at the left edge; every other cell stays |
| Terminal.ClearedIsBlank | kernel/kernel.cpp:40-49 | a cleared terminal is one line of spaces with the cursor at its start |
| Terminal.WindowIsLast24 | kernel/kernel.cpp:29-38 | the screen below the title shows the last 24 lines, or all of them, and the cursor is in the last of these |
| Terminal.FeedKeepsBlankAhead | kernel/kernel.cpp:51-66 | whatever is printed, every cell at or behind the cursor is blank |
| Terminal.FeedLaysOut | kernel/kernel.cpp:51-66 | printed text fills consecutive cells, 80 to a line, and nothing else changes |
| Terminal.TextIsReadable | kernel/kernel.cpp:51-66 | after printing, the characters of the text can be read in order, in its colour, where it landed, and elsewhere what stood there |
| Terminal.BackspaceUndoes | kernel/kernel.cpp:54-55 | a backspace takes back a character exactly when it did not fill its line |
| Terminal.EraseUndoesExactly | kernel/kernel.cpp:54-59 | erasing what was printed restores the terminal exactly when the text did not reach the end of its line |
| TextScreen.Vga.Scroll | kernel/kernel.cpp:29-38 | rows 2 to 24 move up, row 24 is blank, the title row stays |
| TextScreen.Vga.Clear | kernel/kernel.cpp:40-49 | spaces in the default colour below a title row of spaces in colour 0x1F, and a cleared terminal |
| TextScreen.Vga.PutChar | kernel/kernel.cpp:51-61 | rows 1 to 24 stay the window on the last 24 lines of the endless terminal, with the cursor in it, and the title row stays |
| TextScreen.Vga.ScreenShows | kernel/kernel.cpp:29-61 | each cell of rows 1 to 24 is that of the last 24 lines, and the cursor is where the terminal's is |
| TextScreen.Vga.Print | kernel/kernel.cpp:63-66 | the characters of the string in order |
| Commands.CaptureIsPrefix | kernel/shell.cpp:145-155 | a capture holds the first 4095 characters of everything a command prints, however it was cut into strings |
| Commands.CaptureIsSilentExactly | kernel/shell.cpp:78-155 | while output is captured the terminal moves on by what is printed directly, and stays as it is exactly when nothing is |
| Commands.PipePrintsCapture | kernel/shell.cpp:514-521 | a first command that prints no number adds exactly the first 4095 characters of its output to the screen, in the colour it leaves, and the second command runs behind them |
| Commands.UncapturedPrints | kernel/shell.cpp:145-155 | uncaptured output in one colour goes to the screen in one piece |
| Commands.ClearForgets | kernel/shell.cpp:208-215 | a clearing leaves nothing of what was before it on the screen |
| Commands.ColorLeft | kernel/shell.cpp:344-363 | a command leaves the last colour it chose, or the one it found |
| Commands.PlainLineRuns | kernel/shell.cpp:497-498 | a line without a pipe runs as one command: what it prints is on the screen, and its colour stays |
| Commands.ClearingLineRuns | kernel/shell.cpp:497-498 | a line that clears and then prints starts on a clear screen |
| Commands.DateOnScreen | kernel/shell.cpp:318-329 | DATE without a pipe puts the whole date on the screen |
| Commands.PipedDateLeaks | kernel/shell.cpp:318-329 | DATE before a pipe changes the screen during the capture, and its capture lacks the digits |
| Commands.PaddedRoundTrip | kernel/shell.cpp:78-91 | what print_num prints stands for the number, whatever the width |
| Commands.PaddedShape | kernel/shell.cpp:78-91 | it is decimal digits, as many as the width or, if the number needs more, as many as that without a leading zero |
| LineEditor.HistoryIsLastTen | kernel/shell.cpp:398-408 | after every session the history is exactly the last ten non-empty lines submitted |
| LineEditor.UpShowsNthNewest | kernel/shell.cpp:558-566 | Up pressed n times shows the n-th newest line, or the oldest |
| LineEditor.DownUndoesUp | kernel/shell.cpp:567-577 | Down takes back Up, and behind the newest line leaves an empty one |
| LineEditor.TypingAppends | kernel/shell.cpp:579-584 | typing a text on a line with room puts it behind the line and on the terminal, in the current colour |
| LineEditor.FullLineStays | kernel/shell.cpp:579-584 | on a line of 255 characters typing has no effect |
| LineEditor.BackspaceRemoves | kernel/shell.cpp:550-555 | a backspace removes the last character of the line at any length, and has no effect on an empty line |
| LineEditor.BackspaceUndoesTyping | kernel/shell.cpp:550-584 | a backspace takes back a typed character on the line always, and on the terminal exactly left of the last column |
| LineEditor.BackspaceUndoesExactly | kernel/shell.cpp:550-584 | while line and terminal agree, the line's length tells when a backspace takes back a typed character altogether |
| LineEditor.SubmitRuns | kernel/shell.cpp:542-549 | a submitted line without a pipe leaves what its command prints, then the prompt, an empty line, and the command's colour |
| LineEditor.SubmitPipes | kernel/shell.cpp:542-549 | with a pipe, up to 4095 characters of the first command, what the second prints, and the prompt |
| LineEditor.CommandNames | kernel/shell.cpp:29-33 | the twelve names that can be completed |
| LineEditor.UpperFolds | kernel/shell.cpp:39-40 | two characters compare equal exactly when they are the same or the same letter in both cases |
| LineEditor.TabCompletesExactly | kernel/shell.cpp:430-457 | Tab replaces the line exactly when one command alone begins with it, letter case ignored |
| LineEditor.PressOk | kernel/shell.cpp:550-584 | every key keeps the line within 255 characters and the history position in range |
| LineEditor.AgreesExactlyWhenSafe | kernel/shell.cpp:550-584 | after a key the terminal agrees with the line exactly when the key was safe |
| LineEditor.ShortLinesAreSafe | kernel/shell.cpp:550-584 | every key is safe for lines of at most 72 characters |
| LineEditor.SessionAgrees | kernel/shell.cpp:538-587 | on every session, with any command output in between, the terminal agrees with the line after every part exactly when each key was safe where it came |
| LineEditor.AgreementIsVisible | kernel/shell.cpp:537-549 | the cursor's screen row shows the characters of the prompt, then exactly those of the line, each in its colour, then spaces |
| CStrings.StrCopy | kernel/shell.cpp:59-63 | the destination holds the same string, terminated, and the bytes behind it stay |
| CStrings.StrLen | kernel/shell.cpp:65-69 | the number of characters before the NUL |
| CStrings.StrStartsWith | kernel/shell.cpp:47-57 | true exactly for a prefix, letter case ignored |
| CStrings.StrCmp | kernel/shell.cpp:35-45 | zero exactly for strings equal up to letter case, and otherwise the signed difference of the first characters that differ |
| CStrings.SplitAtPipe | kernel/shell.cpp:489-513 | the text before the first pipe and the text behind it without leading spaces, which together give back the line |
| Shell.Output.Print | kernel/shell.cpp:145-155 | while capturing, text goes to the buffer as far as it fits and not to the screen; otherwise to the screen |
| Shell.Output.RunCommand | kernel/shell.cpp:459-487 | a command's output goes where the model says; captured into an empty pipe buffer, the buffer holds its first 4095 characters |
| Shell.Output.ExecuteLine | kernel/shell.cpp:489-523 | screen and colour are those of the model; with a pipe the buffer ends up with the first 4095 characters that the first command printed, without one it stays |
| Shell.Output.ShowDate | kernel/shell.cpp:318-329 | the output of DATE, captured or not, is that of its model |
| Shell.Output.PrintNum | kernel/shell.cpp:78-91 | the padded decimal digits, straight to the screen |
| Shell.Console.ClearLine | kernel/shell.cpp:410-416 | one backspace for each character of the line |
| Shell.Console.LoadHistory | kernel/shell.cpp:418-428 | line and screen are replaced by a remembered line, or nothing happens out of range |
| Shell.Console.AddToHistory | kernel/shell.cpp:398-408 | the ten slots hold the model's history after it |
| Shell.Console.TabComplete | kernel/shell.cpp:430-457 | buffer and screen change as in the model |
| Shell.Console.HandleKey | kernel/shell.cpp:550-584 | buffers, history position and screen change as in the model |
| Shell.Console.HandleEnter | kernel/shell.cpp:542-549 | the line is remembered and executed, with the pipe buffer as for `ExecuteLine`, and a fresh prompt follows |
| Shell.Console.Run | kernel/shell.cpp:534-588 | over any sequence of keys and submitted lines, buffers and screen are those of the session; the screen agrees with the line throughout exactly when its keys are safe |
| Witnesses.HoleBreaksHeap | kernel/heap.cpp:140-144 | two available pages with a hole between them: on some run a block leaves the frames taken |
| Witnesses.OverlapMiscounts | kernel/pmm.cpp:122-125 | two available entries that share a page: four marks for three frames |
| Witnesses.MisalignedEntryReachesOut | kernel/pmm.cpp:116-135 | one available entry that starts inside a page: the only frame free after boot starts before it |
| Witnesses.EndlessRequest | kernel/heap.cpp:118-124 | after every run of the kernel, requests of 2^64 - 4127 to 2^64 - 32 bytes never return |
| Witnesses.EmptyGrant | kernel/heap.cpp:83-112 | a fresh heap answers the largest request with a block of no bytes |
| Witnesses.DoubleFreeMiscounts | kernel/heap.cpp:127-137 | a block granted by a fresh heap and freed leaves the statistic right; freeing the same pointer again makes it 4071 bytes too low |
| Witnesses.BootInformationInBytes | kernel/pmm.cpp:75-135 | given bytes of a boot information are read as one available entry of 255 MiB, and leave the frames from 2 MiB to 256 MiB free |
| Witnesses.TabOnHe | kernel/shell.cpp:430-457 | Tab completes the line "he" to HELP and leaves "c" alone |
| Witnesses.LongLineDisagrees | kernel/shell.cpp:550-578 | after n characters typed at a fresh prompt, a backspace leaves screen and line in disagreement exactly for n = 73, 153 or 233, and a recall exactly from n = 73 on |

## Left out

- Port I/O, interrupt controller, keyboard scancodes, CMOS clock, descriptor tables and assembly: hardware effects.
- TLB invalidation, loading of the root table, and permission bits: only address translation is modelled.
- `vmm_unmap_page` and `vmm_get_physical` are empty in the source.
- Memory-map tags with a stated entry size below 24, which no entry fits: `TagsOk` demands at least 24, sizes that stay inside the boot information, and an end tag.
- Use of the heap before a successful `heap_init`: the source then follows a null pointer; `Kmalloc` demands a nonempty list, except for a zero request.
- KernelHeap.Heap.Kfree: does not model pointers in front of which header bytes lie that are neither a listed header nor inside a payload, or whose link leads out of memory: what happens then depends on bytes the heap does not own.
- KernelHeap.Heap.Kmalloc: has no result for the requests on which the source never returns; `HaltsExactly` says which they are.
- Memory between heap frames that are not adjacent is modelled as RAM; a header that lands there after a merge is read back as written.
- Header fields are written as one 25-byte header, not field by field.
- Page-table memory is a map from frames to tables, separate from the heap's bytes: the two managers are never linked into one kernel.
- The boot banner, `draw_separator` and the title text: they are drawn once, past the scrolling.
- Messages that the memory managers print.
- Command dispatch, the text of the commands except `DATE`, and `format_size`: a command is an arbitrary function from its text, the colour and whether output is captured to a sequence of printed strings, numbers, screen clearings and colour changes. `PAUSE`, `REBOOT` and `SHUTDOWN` wait or do not return.
