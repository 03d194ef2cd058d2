# Verified models of the kernel lab exercises

The repository holds exercises on Linux kernel modules. This project models the five files in it that carry
real algorithmic state and proves what they promise, or, where the code does not keep a promise, exactly when it
does. `dafny verify dfyconfig.toml` checks everything.

**Lists** (`ListSpec`, `Rings`, `Hlists`; `TP_02/EXO-01/list.h`). `Rings` has nodes with `next` and `prev` that
are overwritten in place, as in list.h, and a ghost map from every head to the sequence on its ring. Every
operation is proved to do to the links what `ListSpec` says it does to the sequences, with all other lists left
alone, and every run of operations keeps all rings well formed, disjoint, and without a node lost or doubled.
`Hlists` does the same for the lists whose nodes point back at the slot that points at them.

**Disk image** (`Bytes`, `Mkfs`, `MkfsReader`, `MkfsBitmaps`; `projet_pnl/src/mkfs-pnlfs.c`). The formatter's
layout arithmetic in 32 bits, its writes as bytes appended to an image, and the loops that fill the bitmaps. A
reader that knows only the documented layout finds "foo" in the image if and only if the number of blocks leaves
0 or 128 modulo 256: the code rounds the number of inodes by adding the remainder and not its complement, so
that for other sizes the inode store does not end on a block. The loop that clears the bits of the used blocks
stays within its buffer if and only if there are at most 8,257,920 blocks, or exactly 8,258,048.

**Reference counts** (`TaskMonitor`, `Reports`, `KrefProtocol`; `TP_07/EXO-05/taskmonitor2.c`). `TaskMonitor`
takes every entry point as one step: totals, lists and counts over any run, unloading, and the two files, whose
text is read back by a reader that knows the labels and newlines only. `task_sample_release` looks for the
owning monitor at a fixed distance before the sample, where it is not, and lowers the word 48 bytes after the
sample instead. A constant of the model says whether the owner is found. If it is not, everything is shown of
runs in which that word is not part of a linked sample, a condition on the addresses of the samples that two
neighbours in a slab violate. Under it the shrinker's count is right exactly if nothing was released yet.
`KrefProtocol` takes the steps apart and lets threads interleave, on counts that nothing stops at 0, as struct
kref has them in Linux 4.9. That a freed sample is held by nobody needs that the list's own reference is put
once, which the code does not enforce; without it the holders are what the count and these puts leave, and two
runs show how a freed sample comes to be held.

**CPU statistics** (`Counters`, `Kcpustat`; `TP_05/EXO-05/kcpustat.c`). A list on `Rings` that is differenced in
place from the back, summed and freed once per period. The sums telescope modulo 2^64, and over a whole run the
reports and the gaps between their windows add up to the last sample reported minus the first.

**Patch lines** (`Tabs`, `Sanitise`, `SanitiseMeaning`, `FixLines`, `FixHeaders`; `TP_01/EXO-01/checkpatch.pl`).
`Tabs`: compressing tabs does not change how a text looks; spaces remain before a tab, and an indentation is not
the shortest of its width, exactly if eight spaces in a row are left where only the first loop would convert
them. `Sanitise`: blotting out comments and strings line by line is what a machine that reads one character at a
time does to the whole text; the length of a line is kept except, exactly, when it ends in an escape or when an
`#error` text does not end in a word. `SanitiseMeaning` says position by position what becomes of code,
comments, strings and the lines that are masked, without the machine. `FixLines`: merging edits into a patch
gives the merged text exactly if no deletion is for the first line or a hunk header. `FixHeaders`: a call finds
the hunk header exactly if, by plain addition from the numbers in the input, start and length were never
negative before; a repaired header counts its hunk exactly if the calls after that, and the repeated deletions,
come to nothing.

## Model

| member | source | states |
|---|---|---|
| ListSpec.ApplyWellFormed | TP_02/EXO-01/list.h:44-362 | every operation allowed on disjoint, duplicate-free lists leaves disjoint, duplicate-free lists |
| ListSpec.ApplyOnRing | TP_02/EXO-01/list.h:44-362 | no operation loses a node, except those that drop one by design, and none invents one it was not given |
| ListSpec.RunConserves | TP_02/EXO-01/list.h:44-362 | the same over any run of operations on any number of lists |
| ListSpec.RotateSome | TP_02/EXO-01/list.h:234-242 | k rotations move the first k entries, in order, to the end |
| ListSpec.RotateAll | TP_02/EXO-01/list.h:234-242 | rotating a list once per entry changes nothing |
| ListSpec.RotateIsMove | TP_02/EXO-01/list.h:234-242 | moving the first entry to the tail, as the code does, is rotation |
| ListSpec.AddedAtAnEnd | TP_02/EXO-01/list.h:80-97 | a new node becomes the first or the last entry, and no other list changes |
| ListSpec.MovedToAnEnd | TP_02/EXO-01/list.h:173-189 | an entry at any position of any ring leaves it and becomes the first or last of another or of its own; the rest stays in order |
| ListSpec.CutThenSplice | TP_02/EXO-01/list.h:253-317 | cutting at position k leaves the first k + 1 entries on one list and the others on the other; splicing restores the original, also when the cut emptied the head |
| ListSpec.CutElsewhere | TP_02/EXO-01/list.h:279-291 | with the head as entry the other list becomes empty and this one stays; an empty list, or one whose single entry is another, is left alone |
| ListSpec.ReplaceThenBack | TP_02/EXO-01/list.h:142-156 | replacing a node or a head and replacing it back restores all lists |
| ListSpec.JoinedIsSplice | TP_02/EXO-01/list.h:293-329 | a splice puts the whole list, in order, at the front or the back of the other |
| Rings.Memory.Init | TP_02/EXO-01/list.h:44-48 | makes a head with an empty list, other rings untouched |
| Rings.Memory.Link | TP_02/EXO-01/list.h:57-65 | a node linked between two neighbours stands at that place of that ring |
| Rings.Memory.Add | TP_02/EXO-01/list.h:80-83 | the node becomes the first entry |
| Rings.Memory.AddTail | TP_02/EXO-01/list.h:94-97 | the node becomes the last entry |
| Rings.Memory.Unlink | TP_02/EXO-01/list.h:106-122 | exactly the node leaves its ring, found without its head |
| Rings.Memory.Del | TP_02/EXO-01/list.h:124-129 | the same, and the node's links may not be followed any more |
| Rings.Memory.DelInit | TP_02/EXO-01/list.h:162-166 | the same, and the node is an empty ring of its own |
| Rings.Memory.Replace | TP_02/EXO-01/list.h:142-149 | the new node stands where the old one stood, entry or head, a head alone included |
| Rings.Memory.ReplaceInit | TP_02/EXO-01/list.h:151-156 | the same, and the old one is an empty ring |
| Rings.Memory.Move | TP_02/EXO-01/list.h:173-177 | the entry leaves its ring and becomes the first of another, or of its own |
| Rings.Memory.MoveTail | TP_02/EXO-01/list.h:184-189 | the entry leaves its ring and becomes the last of another, or of its own |
| Rings.Memory.RotateLeft | TP_02/EXO-01/list.h:234-242 | the first entry becomes the last; an empty list stays empty |
| Rings.Memory.CutPosition | TP_02/EXO-01/list.h:253-291 | the entries up to the given one go to the other list; all the cases of an empty list, a single entry and the head as entry |
| Rings.Memory.Splice | TP_02/EXO-01/list.h:293-317 | the list's entries stand in front of the other's; nothing happens if it has none |
| Rings.Memory.SpliceTail | TP_02/EXO-01/list.h:293-329 | the list's entries stand behind the other's |
| Rings.Memory.SpliceInit | TP_02/EXO-01/list.h:338-345 | as splice, and the list is empty afterwards |
| Rings.Memory.SpliceTailInit | TP_02/EXO-01/list.h:355-362 | as splice at the tail, and the list is empty afterwards |
| Rings.Memory.Empty | TP_02/EXO-01/list.h:206-209 | true exactly of an empty list |
| Rings.Memory.EmptyCareful | TP_02/EXO-01/list.h:224-228 | the test of both links agrees with the test of one |
| Rings.Memory.IsSingular | TP_02/EXO-01/list.h:248-251 | true exactly of a list of one entry |
| Rings.Memory.IsLast | TP_02/EXO-01/list.h:196-200 | true exactly of the last entry |
| Rings.Memory.Forwards | TP_02/EXO-01/list.h:427-428 | the loop meets every entry once, in order |
| Rings.Memory.Backwards | TP_02/EXO-01/list.h:435-436 | the backward loop meets every entry once, in reverse |
| Rings.Memory.DeleteWhere | TP_02/EXO-01/list.h:444-446 | the safe loop meets every original entry once while any of them are deleted, and exactly the others remain |
| Rings.Memory.Execute | TP_02/EXO-01/list.h:44-362 | every operation on the links refines its meaning on sequences |
| Rings.Memory.RunAll | TP_02/EXO-01/list.h:44-362 | so does every run |
| Rings.SpliceBetween | TP_02/EXO-01/list.h:293-305 | a ring's entries are linked in between two neighbours of another ring |
| Rings.ReplaceLinks | TP_02/EXO-01/list.h:142-149 | four assignments in this order suffice also when the replaced node is its own neighbour |
| Hlists.SlotLeadsBack | TP_02/EXO-01/list.h:641-648 | the slot that a hashed node points back at holds that node, in every sound state |
| Hlists.Table.Unlink | TP_02/EXO-01/list.h:641-648 | exactly the node leaves its chain, without access to the head |
| Hlists.Table.Del | TP_02/EXO-01/list.h:650-655 | the same, and the node's links are poisoned |
| Hlists.Table.DelInit | TP_02/EXO-01/list.h:657-663 | the same, and the node is unhashed; on an unhashed node nothing happens |
| Hlists.Table.InitNode | TP_02/EXO-01/list.h:625-629 | the node is unhashed |
| Hlists.Table.Unhashed | TP_02/EXO-01/list.h:631-634 | true exactly of a node in no chain |
| Hlists.Table.Empty | TP_02/EXO-01/list.h:636-639 | true exactly of an empty chain |
| Hlists.Table.AddHead | TP_02/EXO-01/list.h:665-673 | the node becomes the first of the chain |
| Hlists.Table.AddBefore | TP_02/EXO-01/list.h:676-683 | the node stands just before the other, in whichever chain that is |
| Hlists.Table.AddBehind | TP_02/EXO-01/list.h:685-694 | the node stands just behind the other |
| Hlists.Table.AddFake | TP_02/EXO-01/list.h:697-700 | the node points back at itself and no chain changes; it can be deleted like a hashed one if nothing follows it |
| Hlists.Table.MoveList | TP_02/EXO-01/list.h:706-713 | the whole chain hangs from the new head, the old head is empty |
| Hlists.DeleteTwice | TP_02/EXO-01/list.h:657-663 | deleting a node twice is deleting it once |
| Hlists.AddThenDelete | TP_02/EXO-01/list.h:641-673 | deleting what was added restores all chains |
| Hlists.AddBesideThenDelete | TP_02/EXO-01/list.h:641-694 | the same for adding before and behind |
| Hlists.MoveThenBack | TP_02/EXO-01/list.h:706-713 | moving a chain to an empty head gives it that chain and no other changes; moving it back restores both |
| Mkfs.IdivCeil | projet_pnl/src/mkfs-pnlfs.c:69-75 | the least multiple count that covers a, within 32 bits |
| Mkfs.LayoutSound | projet_pnl/src/mkfs-pnlfs.c:77-129 | in range nothing wraps or underflows, the bitmaps have room for all blocks and inodes, and the regions add up |
| Mkfs.FitsExactly | projet_pnl/src/mkfs-pnlfs.c:209-233 | the used blocks fit the one cleared bitmap block if and only if there are at most 8,257,920 blocks or exactly 8,258,048 |
| Mkfs.OverrunsAtTwoTo23 | projet_pnl/src/mkfs-pnlfs.c:209-233 | at 2^23 blocks there are 33,284 used blocks, which do not |
| Mkfs.StoreEndsOnABlock | projet_pnl/src/mkfs-pnlfs.c:89-97 | the inode store ends on a block if and only if the number of blocks leaves 0 or 128 modulo 256 |
| Mkfs.WriteSuperblock | projet_pnl/src/mkfs-pnlfs.c:77-129 | appends one block with the layout's fields |
| Mkfs.WriteInodeStore | projet_pnl/src/mkfs-pnlfs.c:131-180 | appends the inodes of the root, of "foo" and of as many unused ones as the loop counts; their bytes are in InodesAre |
| Mkfs.WriteIfreeBlocks | projet_pnl/src/mkfs-pnlfs.c:182-207 | appends a block with two bits clear and blocks of ones |
| Mkfs.ClearWord | projet_pnl/src/mkfs-pnlfs.c:221-233 | the inner loop clears the lowest bits of a word, up to 64 of them, and says how many are left |
| Mkfs.ClearUsed | projet_pnl/src/mkfs-pnlfs.c:221-233 | the nested loop ends, goes past the 512 words if and only if there are more than 32,768 used blocks, and otherwise clears exactly the lowest bits |
| Mkfs.WriteBfreeBlocks | projet_pnl/src/mkfs-pnlfs.c:209-249 | appends a block with the used bits clear and blocks of ones, if and only if the used bits are in one block |
| Mkfs.WriteDataBlocks | projet_pnl/src/mkfs-pnlfs.c:251-283 | appends the directory, the index block and the data of "foo" |
| Mkfs.Format | projet_pnl/src/mkfs-pnlfs.c:285-369 | refuses files of at most 100 blocks, overruns its buffer exactly for the sizes of FitsExactly, and otherwise writes the whole image |
| MkfsReader.SuperblockReadsBack | projet_pnl/src/mkfs-pnlfs.c:99-129 | a reader gets back every field of the superblock |
| MkfsReader.InodesReadBack | projet_pnl/src/mkfs-pnlfs.c:131-165 | a reader gets back the inodes of the root and of "foo" |
| MkfsReader.InodesAre | projet_pnl/src/mkfs-pnlfs.c:100-173 | on the image of every size in range: inode 0 has type 4 and permissions 0775, 4096 bytes and one entry; inode 1 has type 8 and permissions 0666, 4 bytes and one block; all other inodes are zero; and the magic number is 0x434F5746 |
| MkfsReader.SuperblockBytesAre | projet_pnl/src/mkfs-pnlfs.c:99-107 | each field of the superblock by its byte offset; the rest of the block is zero |
| MkfsReader.DataBlocks | projet_pnl/src/mkfs-pnlfs.c:251-283 | the image ends with the three data blocks |
| MkfsReader.DataBytesAre | projet_pnl/src/mkfs-pnlfs.c:251-283 | the last three blocks byte by byte: inode number 1 and "foo"; one block number; "foo" with a newline; and zeros |
| MkfsReader.AlignedStarts | projet_pnl/include/pnlfs.h:14-30 | with an aligned store every region starts at its documented block |
| MkfsReader.PointersNameBlocks | projet_pnl/src/mkfs-pnlfs.c:131-165 | with an aligned store all three block pointers name the blocks written there |
| MkfsReader.AlignedReadsBack | projet_pnl/src/mkfs-pnlfs.c:251-283 | with an aligned store the reader finds "foo" with its four bytes |
| MkfsReader.UnalignedFindsNothing | projet_pnl/src/mkfs-pnlfs.c:150-173 | with any other the directory block it is led to names no such file |
| MkfsReader.FooReadsBack | projet_pnl/src/mkfs-pnlfs.c:77-283 | for every size in range, "foo" is found if and only if the number of blocks leaves 0 or 128 modulo 256 |
| MkfsBitmaps.BfreeBits | projet_pnl/src/mkfs-pnlfs.c:209-249 | bit b of the block bitmap is clear if and only if block b is used |
| MkfsBitmaps.IfreeBits | projet_pnl/src/mkfs-pnlfs.c:182-207 | bit b of the inode bitmap is clear if and only if b is 0 or 1 |
| MkfsBitmaps.CountersAgree | projet_pnl/src/mkfs-pnlfs.c:99-107 | the superblock's counters are the numbers of set bits among the blocks and inodes there are |
| MkfsBitmaps.BitmapsReadBack | projet_pnl/include/pnlfs.h:14-30 | a reader that follows the documented layout of an aligned image meets these bits |
| Kcpustat.Module.AddUp | TP_05/EXO-05/kcpustat.c:27-44 | the loops return the total that TotalsOfOne and TotalsJoin fix |
| Kcpustat.TotalsOfOne | TP_05/EXO-05/kcpustat.c:35-40 | the total of one CPU is its counters |
| Kcpustat.TotalsJoin | TP_05/EXO-05/kcpustat.c:35-40 | in every statistic the total of two groups of CPUs is the sum of their totals modulo 2^64 |
| Kcpustat.Module.SaveStats | TP_05/EXO-05/kcpustat.c:27-44 | a fresh sample is appended; without memory nothing changes and the error is returned |
| Kcpustat.Module.ReversePass | TP_05/EXO-05/kcpustat.c:60-67 | the pass in place, from the back, leaves every sample but the first as its difference to the one before |
| Kcpustat.DifferencesMean | TP_05/EXO-05/kcpustat.c:57-67 | what the pass leaves: the first sample as it was, and for every other what, added to the sample before, gives it modulo 2^64 |
| Kcpustat.SumOfJoin | TP_05/EXO-05/kcpustat.c:71-74 | the sum over a list is, in every statistic, the sum of those over its parts modulo 2^64 |
| Kcpustat.Module.SumAndFree | TP_05/EXO-05/kcpustat.c:71-79 | the loop adds in and frees every sample once, and leaves an empty ring |
| Kcpustat.Module.PrintStats | TP_05/EXO-05/kcpustat.c:49-80 | in every statistic the sum added to the first sample gives the last, modulo 2^64; the list is empty and all samples are freed |
| Counters.MinusIsGained | TP_05/EXO-05/kcpustat.c:60-67 | the difference of two samples is the one vector that, added to the first, gives the second |
| Kcpustat.Telescopes | TP_05/EXO-05/kcpustat.c:57-77 | differences add up to last minus first, modulo 2^64 |
| Kcpustat.Module.OneTick | TP_05/EXO-05/kcpustat.c:86-95 | a turn of the loop saves a sample and reports the list exactly when a period is complete, never an empty one |
| Kcpustat.Module.MyKcpustatFn | TP_05/EXO-05/kcpustat.c:82-98 | however long it runs, the list holds the readings since the last whole window; each report, added to the first reading of its window, gives the last; and the reports and the gaps between the windows make up all that was gained |
| Kcpustat.WholeRun | TP_05/EXO-05/kcpustat.c:82-98 | the same of the rounds that the loop goes through |
| Kcpustat.RoundsMeaning | TP_05/EXO-05/kcpustat.c:82-98 | after k rounds the list holds the last k mod P readings, and the reports are those of the successive windows of P |
| Kcpustat.ReportsAndGaps | TP_05/EXO-05/kcpustat.c:82-98 | the reports and the gaps between their windows add up to the last reported reading minus the first |
| Kcpustat.PeriodMeans | TP_05/EXO-05/kcpustat.c:91 | the ticks of one interval are HZ by the frequency, rounded down; those of several add up modulo 2^32 |
| Kcpustat.PeriodIsPositive | TP_05/EXO-05/kcpustat.c:12-13 | short of 32-bit overflow the period that the code divides by is not 0 exactly if the interval is not and the frequency is at most HZ |
| Kcpustat.PeriodWraps | TP_05/EXO-05/kcpustat.c:12-13 | with overflow it can be 0 in spite of that |
| TaskMonitor.Module.ShrinkCount | TP_07/EXO-05/taskmonitor2.c:94-108 | returns the sum of the monitors' counts and leaves everything, references included, as it was |
| TaskMonitor.TotalsJoin | TP_07/EXO-05/taskmonitor2.c:94-108 | counts and numbers of samples are sums over the monitors |
| TaskMonitor.Module.ShrinkScan | TP_07/EXO-05/taskmonitor2.c:64-92 | refuses without the file system flag; otherwise puts every sample once, returns how many, releases those that nobody else holds, and keeps all monitors |
| TaskMonitor.Module.DropSamples | TP_07/EXO-05/taskmonitor2.c:81-86 | the safe loop over one monitor puts each of its samples once, whatever their counts |
| TaskMonitor.LoweredJoin | TP_07/EXO-05/taskmonitor2.c:81-86 | a round of puts over two lists of samples is that over the one and that over the other |
| TaskMonitor.LoweredOne | TP_07/EXO-05/taskmonitor2.c:81-86 | one sample is released with its last reference, and otherwise stays as it is with one less |
| TaskMonitor.Module.PutSample | TP_07/EXO-05/taskmonitor2.c:172-185 | when its last reference goes, just that sample is unlinked, counted as destroyed and, if the owner is found, taken off its count; otherwise only its references change |
| TaskMonitor.NeighbourIsHit | TP_07/EXO-05/taskmonitor2.c:176-184 | a release that does not find the owner writes into a sample 40 bytes further on, at its `prev` |
| TaskMonitor.Module.SaveSample | TP_07/EXO-05/taskmonitor2.c:148-170 | the monitor's samples are the old ones followed by the new one, held by its list alone; without memory they are the old ones |
| TaskMonitor.Module.MonitorRound | TP_07/EXO-05/taskmonitor2.c:203-210 | every monitor gets one sample, as far as memory allows |
| TaskMonitor.Module.TmAllocator | TP_07/EXO-05/taskmonitor2.c:322-343 | appends an empty monitor, or fails and changes nothing if there is no such process |
| TaskMonitor.Module.MonitorExit | TP_07/EXO-05/taskmonitor2.c:428-440 | puts every sample and every monitor once, and releases those that nobody else holds |
| TaskMonitor.UnloadedJoin | TP_07/EXO-05/taskmonitor2.c:428-440 | unloading treats the monitors one by one, in their order |
| TaskMonitor.UnloadedOne | TP_07/EXO-05/taskmonitor2.c:428-440 | one monitor goes with its last reference, and otherwise stays with one less and its samples put once |
| TaskMonitor.QuietUnloads | TP_07/EXO-05/taskmonitor2.c:428-440 | with one reference each nothing is left |
| TaskMonitor.Module.SysfsShow | TP_07/EXO-05/taskmonitor2.c:230-262 | the page holds the first 4095 characters of a text that, split at newlines and read by the labels `pid:`, `num:`, `usr:` and `sys:`, has for every sample, in its place, the pid modulo 2^16, the number of the line and its two times; the early return is never taken; all references are as before |
| TaskMonitor.Module.DebugfsShow | TP_07/EXO-05/taskmonitor2.c:290-315 | the file holds such a text as a whole, with the labels of debugfs; all references are as before |
| TaskMonitor.SysfsReads | TP_07/EXO-05/taskmonitor2.c:239-260 | the report has one line for every sample, the monitors in order and the samples of each from the last to the first, and each line reads back as pid modulo 2^16, line number, utime and stime |
| TaskMonitor.DebugfsReads | TP_07/EXO-05/taskmonitor2.c:298-313 | the same for debugfs |
| Reports.DecimalReadsBack | TP_07/EXO-05/taskmonitor2.c:250-253 | a number printed in decimal reads back as itself |
| Reports.DecimalIsDigits | TP_07/EXO-05/taskmonitor2.c:250-253 | it is printed in digits only, without zeros in front |
| Reports.SplitOneMore | TP_07/EXO-05/taskmonitor2.c:250-254 | a line added to a text of whole lines is one more when the text is split at newlines |
| TaskMonitor.ReportCount | TP_07/EXO-05/taskmonitor2.c:239-260 | a report has one line for every sample on any list |
| TaskMonitor.Module.LoadRunUnload | TP_07/EXO-05/taskmonitor2.c:411-441 | after loading, any run and unloading, no monitor is left and as many samples were destroyed as created, if releases find the owner or write into no sample |
| TaskMonitor.RunKeeps | TP_07/EXO-05/taskmonitor2.c:148-214 | any run keeps created minus destroyed equal to the samples on all lists, and every count of an idle object at 1, if releases find the owner or write into no sample |
| TaskMonitor.CountPredictsScan | TP_07/EXO-05/taskmonitor2.c:64-108 | after such a run the shrinker's count is what its scan then returns if and only if releases find the owner or there were none |
| TaskMonitor.CountGoesWrong | TP_07/EXO-05/taskmonitor2.c:172-185 | as written: one sample, created and released, is still counted |
| KrefProtocol.StepKeeps | TP_07/EXO-05/taskmonitor2.c:148-185 | every step of any thread keeps the invariant on counts, holders, releasers and totals, also below 0 |
| KrefProtocol.CountsAreReferences | TP_07/EXO-05/taskmonitor2.c:172-185 | in every interleaving without a second put of a list reference: the count is the list's reference plus the holders, it is 0 exactly if the sample is freed or being freed by one thread, and then nobody holds it |
| KrefProtocol.DanglingHolders | TP_07/EXO-05/taskmonitor2.c:82-86 | in every interleaving: the holders are the count and the puts of the list reference less one; the count is not positive exactly if the sample is freed or being freed by one thread |
| KrefProtocol.FirstDropReleases | TP_07/EXO-05/taskmonitor2.c:82-86 | the first put of the list reference begins the release exactly if nobody holds the sample |
| KrefProtocol.GetSucceeds | TP_07/EXO-05/taskmonitor2.c:247-248 | a reader gets a linked sample at every count but 0, and no other reference moves |
| KrefProtocol.GetFailsExactly | TP_07/EXO-05/taskmonitor2.c:247-248 | in every interleaving without a second put of a list reference, a reader is refused exactly if that reference was put and nobody holds the sample |
| KrefProtocol.PutLetsGo | TP_07/EXO-05/taskmonitor2.c:255 | a thread that puts its sample holds it no more, and no other reference moves |
| KrefProtocol.DropIsTheLists | TP_07/EXO-05/taskmonitor2.c:82-86 | a put by the shrinker moves no holder and is one of the list's own reference |
| KrefProtocol.TotalsAreLinked | TP_07/EXO-05/taskmonitor2.c:159-184 | in every interleaving created minus destroyed is the number of linked samples, and each is freed once |
| KrefProtocol.QuietWhenIdle | TP_07/EXO-05/taskmonitor2.c:303-309 | whenever no thread is busy, linked samples have count 1 and their list's reference, and all others were put by it and freed |
| KrefProtocol.TwoScansFreeUnderReader | TP_07/EXO-05/taskmonitor2.c:82-86 | a run in which two scans free a sample that a reader holds |
| KrefProtocol.SecondPutFreesUnderReader | TP_07/EXO-05/taskmonitor2.c:82-86 | a run in which a second put makes the count -1, a reader gets the sample, and the first put frees it |
| Tabs.ExpandTabs | TP_01/EXO-01/checkpatch.pl:864-883 | expands to tab stops of eight columns |
| Tabs.ExpandMeans | TP_01/EXO-01/checkpatch.pl:864-883 | every tab reaches to the next multiple of eight and is blank, every other character keeps its column |
| Tabs.ExpandTwice | TP_01/EXO-01/checkpatch.pl:864-883 | expanding twice is expanding once |
| Tabs.Tabify | TP_01/EXO-01/checkpatch.pl:1836-1849 | for every string the result looks the same when expanded and is no longer, and no one to seven spaces stand between its leading tabs and another tab; both loops end |
| Tabs.WideTurn | TP_01/EXO-01/checkpatch.pl:1843-1844 | eight spaces behind the leading tabs become a tab whatever follows, and the first loop goes on |
| Tabs.WideStops | TP_01/EXO-01/checkpatch.pl:1843-1844 | it stops at fewer than eight |
| Tabs.NarrowTurn | TP_01/EXO-01/checkpatch.pl:1845-1846 | one to seven spaces between the leading tabs and another tab are dropped, and the second loop goes on |
| Tabs.NarrowStops | TP_01/EXO-01/checkpatch.pl:1845-1846 | it stops at no space, at eight or more, and where no tab follows |
| Tabs.SpacesBeforeTabs | TP_01/EXO-01/checkpatch.pl:1843-1846 | no space is left before a tab in the indentation if and only if, once the leading spaces are converted, no eight spaces in a row stand before a tab there |
| Tabs.NormalForm | TP_01/EXO-01/checkpatch.pl:1843-1846 | the indentation is tabs and then at most seven spaces if and only if no eight spaces in a row stand there at all |
| Tabs.EightStay | TP_01/EXO-01/checkpatch.pl:1843-1846 | after two spaces and a tab, eight spaces stay before the next tab |
| Tabs.TabifyShortest | TP_01/EXO-01/checkpatch.pl:1836-1849 | a string of blanks comes out as short as any of its width if and only if that condition holds |
| Tabs.TabifyIndent | TP_01/EXO-01/checkpatch.pl:1836-1849 | tabs followed by spaces become as many tabs as there are eights, and fewer than eight spaces |
| Sanitise.Turn | TP_01/EXO-01/checkpatch.pl:926-981 | each turn of the loop reads one or two characters as the machine does, in every state; what that is, SanitiseMeaning fixes |
| Sanitise.Scan | TP_01/EXO-01/checkpatch.pl:913-985 | the loop blots a line as the machine does, and carries its state, ending line comments |
| Sanitise.LinesAreText | TP_01/EXO-01/checkpatch.pl:913-985 | sanitising line after line is running the machine over the whole text |
| Sanitise.OutputTwice | TP_01/EXO-01/checkpatch.pl:926-981 | sanitising what is sanitised changes nothing |
| Sanitise.ScannedTwice | TP_01/EXO-01/checkpatch.pl:913-985 | the same for a line, with the character that an escape at its end adds |
| Sanitise.EndsEscapedWhen | TP_01/EXO-01/checkpatch.pl:952-958 | the loop adds a character exactly if the last is a backslash and the text before it leaves a string open |
| Sanitise.MaskedLength | TP_01/EXO-01/checkpatch.pl:987-996 | masking keeps the length exactly if the line does not start with a bracket or a message ends in a word, and then changes nothing else |
| Sanitise.SanitiseLine | TP_01/EXO-01/checkpatch.pl:913-999 | the whole function, and exactly when it keeps the length of a line; the side marker is always kept |
| Sanitise.IncludeKeepsLength | TP_01/EXO-01/checkpatch.pl:2000-2004 | on the lines that are sanitised an include always keeps its length, but for an escape at the end |
| Sanitise.MessageLosesItsEnd | TP_01/EXO-01/checkpatch.pl:993-996 | an error text with a full stop loses it |
| SanitiseMeaning.CodeRuns | TP_01/EXO-01/checkpatch.pl:926-981 | code without quotes and comment marks is kept, and what follows is code |
| SanitiseMeaning.BlockComment | TP_01/EXO-01/checkpatch.pl:931-944 | a comment, its marks included, becomes 0x1C at every position but tabs and newlines, for every text without its end, and what follows is code |
| SanitiseMeaning.OpenComment | TP_01/EXO-01/checkpatch.pl:931-936 | a comment that is not closed does so to the end, and what follows is in the comment |
| SanitiseMeaning.LineCommentIs | TP_01/EXO-01/checkpatch.pl:945-950 | of a line comment the mark is kept and every other character but tabs becomes 0x1C |
| SanitiseMeaning.LineCommentEnds | TP_01/EXO-01/checkpatch.pl:945-950 | it ends with its line, and what follows is code |
| SanitiseMeaning.StringIs | TP_01/EXO-01/checkpatch.pl:952-970 | a string keeps its quotes, and all between them becomes X but tabs and newlines that are not escaped; only the same quote after an even number of backslashes ends it, and what follows is code |
| SanitiseMeaning.OpenString | TP_01/EXO-01/checkpatch.pl:952-970 | a string that is not closed does so to the end, and what follows is in the string, escaped after an odd number of backslashes |
| SanitiseMeaning.CodeSplits | TP_01/EXO-01/checkpatch.pl:926-981 | every text is code followed by nothing, a string or a comment, so that these say what becomes of all |
| SanitiseMeaning.LineWithComment | TP_01/EXO-01/checkpatch.pl:923-985 | a line of code with a line comment keeps its side marker and its code, and leaves the next line in code |
| SanitiseMeaning.IncludeIsMasked | TP_01/EXO-01/checkpatch.pl:987-990 | in every line that the include pattern matches, what stands between the bracket and the last closing one becomes X and nothing else changes |
| SanitiseMeaning.IncludeLosesItsStart | TP_01/EXO-01/checkpatch.pl:987-990 | with a bracket as side marker, all up to the include's own bracket is lost |
| SanitiseMeaning.MessageIsMasked | TP_01/EXO-01/checkpatch.pl:993-996 | in every line that the error or warning pattern matches, the text becomes X up to its last word character and ends there |
| SanitiseMeaning.OthersAreKept | TP_01/EXO-01/checkpatch.pl:986-997 | every line that neither pattern matches is left as it is |
| FixLines.DeleteHere | TP_01/EXO-01/checkpatch.pl:1700-1704 | the loop uses up the deletions for the line and lowers the length in force for each |
| FixLines.InsertHere | TP_01/EXO-01/checkpatch.pl:1706-1711 | the loop uses up the insertions for the line, puts them out in order and raises the length in force for each |
| FixLines.FixInsertedDeletedLines | TP_01/EXO-01/checkpatch.pl:1673-1722 | the one-pass merge goes through the states that are defined from the edits of each line, for all inputs |
| FixLines.MergesExactly | TP_01/EXO-01/checkpatch.pl:1690-1721 | up to header numbers the output is, for each line, the insertions for it and then the line unless deleted, if and only if no deletion is for the first line or a header |
| FixLines.SortedEditsAreMade | TP_01/EXO-01/checkpatch.pl:1673-1722 | from sorted lists of edits: the same, with the insertions and deletions that the lists have for each line |
| FixLines.MetWhereMeant | TP_01/EXO-01/checkpatch.pl:1700-1711 | sorted edits are met at the line they are for, and nowhere else |
| FixLines.AllUsed | TP_01/EXO-01/checkpatch.pl:1700-1711 | all edits are used if and only if they are sorted and within the lines |
| FixHeaders.FoundExactly | TP_01/EXO-01/checkpatch.pl:1661-1671 | after some calls a header is still recognised if and only if the sums of start and offsets, and of length and lengths, were never negative; then it holds these sums |
| FixHeaders.MissedIsTail | TP_01/EXO-01/checkpatch.pl:1661-1671 | the calls that miss a header are all those after the first negative sum |
| FixHeaders.HeaderStays | TP_01/EXO-01/checkpatch.pl:1693-1711 | a header is changed by the edits of its own hunk, in order, and by nothing else |
| FixHeaders.DeltaSinceFile | TP_01/EXO-01/checkpatch.pl:1690-1711 | the running offset is the number of insertions less that of deletions since the last file name |
| FixHeaders.OneLineEdited | TP_01/EXO-01/checkpatch.pl:1661-1711 | a hunk of which one line gets n deletions and m insertions comes out with the right length, and its start moved by the offset at the header and again by the offset at every single edit, in closed form |
| FixHeaders.HeadersCount | TP_01/EXO-01/checkpatch.pl:1661-1722 | a header that counted its hunk counts the repaired hunk if and only if the lengths added after the first negative sum and the repeated deletions come to nothing |
| FixHeaders.NothingLost | TP_01/EXO-01/checkpatch.pl:1661-1671 | no call misses a header that starts far enough from the top for the offsets of its hunk |
| FixHeaders.NothingLostByInserting | TP_01/EXO-01/checkpatch.pl:1661-1671 | no call misses its header in a patch to which lines are only added |
| FixHeaders.DeletedHunk | TP_01/EXO-01/checkpatch.pl:1661-1722 | a hunk of n lines, the first edited in its file and all deleted, comes out with length 0 if and only if it started at half of (n - 1)(n - 2) or further down |
| FixHeaders.LostAtTheTop | TP_01/EXO-01/checkpatch.pl:1661-1722 | deleting the four lines of a hunk at line 1 leaves a header that counts some |

## Left out

- Rings.Memory.Splice: the two lists are different, as the callers of list.h must see to; a list spliced onto itself is not modelled, nor is a list cut into itself.
- Rings.Memory.Del: the poison values of a deleted node are modelled as links that cannot be followed.
- Hlists.Table.AddFake: what deleting a fake node does that points on to another node is not modelled.
- Mkfs.ClearUsed: where the code writes past its buffer the model stops and says so; what is overwritten there has no meaning here.
- Mkfs.Format: failures of open, fstat, malloc and write, and their messages; what is on the disk after an overrun.
- Kcpustat.Module.MyKcpustatFn: the round counter does not wrap, and the period is given and not 0; sleeping and being stopped are the end of the list of ticks.
- TaskMonitor.Module.SysfsShow: the page starts zeroed, numbers are not limited to the width of their types except for the pid, and the line number does not wrap.
- TaskMonitor.Module.TmAllocator: kmalloc always succeeds, as the code assumes; the lock around the list is not modelled because each entry point is one step there.
- TaskMonitor.Module.PutSample: where the release does not find the owner, a write into a linked sample is excluded by the precondition on addresses; what such a write, or one into a monitor or into free memory, leads to is not modelled.
- TaskMonitor: the lists are sequences; that the links do what the sequences do is shown in Rings.
- KrefProtocol.StepKeeps: finding a sample on its list and taking the reference is one step; a sample freed between the two is not modelled. Memory of a freed sample is not reused, a put on a freed sample is no step, and counts do not wrap at 32 bits.
- Sanitise.SanitiseLine: lines hold no newline, as they are read; letters and blanks are those of ASCII.
- FixHeaders.HeadersCount: no edit is for the hunk's header line, where the callers put none. The numbers of the old file and the correctness of the start numbers are not part of it: the offset is added again on each edit.
- FixLines: which lines of a patch are context, added, removed, file names or headers is given with the line; a removed line that looks like a file name is one, as for the code.
- The guess whether a hunk starts inside a comment, and everything else in checkpatch.pl: rules made of regular expressions with no specification of their own.
- Threads, sysfs, debugfs and shrinker registration, slab caches and memory pools: calls into the kernel.
- `container_of` and `offsetof`: nodes are typed objects, but for the address that a release of a sample writes to.
- TP_01/EXO-03, TP_03, TP_04, TP_06, TP_08 and the stub of the file system module: weaker versions of the same lists, or thin wrappers around library calls; they would only add easy members.
