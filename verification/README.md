# Verified model of a hobby kernel's library code

A hobby kernel stands on a vendored copy of the gnu-efi library. This project models the parts of
both whose correctness is not obvious from reading one function, and proves what they are for:

* **CRC-32** (`CrcRegister`, `CrcDivision`, `CrcTable`, `Crc`, `CrcDetection`, `TableHeader`).
  The table-driven loop is proved equal to the bit-serial CRC of section 8 of RFC 1952, and the
  bit-serial register to polynomial long division. From linearity and injectivity follow the
  error-detection theorems for EFI table headers.
* **The glob matcher** (`Glob`). Backtracking matcher and hand-written set scanner against a
  declarative language: a string matches when it can be cut into one piece per token.
* **Device paths** (`DevicePathNodes`, `DevicePath`, `DevicePathAppend`, `DevicePathUnpack`,
  `DevicePathMatch`). Byte strings of nodes (section 9.3 of the UEFI 2.4 specification), walked,
  copied, joined, realigned and compared, against sequences of instances of nodes.
* **Intrusive circular lists** (`LinkedList`). The list macros as updates of link words, and the
  order of the list after any run of them; the in-place pointer conversion.
* **The FAT32 allocation table** (`Fat32`, `Fat32Properties`). Reading, read-modify-write and the
  search for a free cluster, on a disk of 512-byte sectors.
* **Printing** (`Print`, `Numbers`). The flush buffer in front of two string workers; number
  printing with the parsers that read the numbers back.
* **Division** (`Division`), **protocol installation** (`Protocols`), **self-relocation**
  (`Relocation`) and the **SMBIOS walker** (`Smbios`): one loop invariant each that is the theorem.

Code that changes memory is imperative here too: methods over arrays, or over objects with the
fields of the original's structures, each proved against a function of the old contents. The
lemmas are then about those functions. `Bytes`, `Text` and `Options` hold what several modules
share. A `ghost` parameter (for instance the nodes of a device path) names the abstract value that
the bytes are assumed to encode; the code never looks at it.

`dafny verify dfyconfig.toml` checks everything.

## Where the code does not do what it says

Each of these comes with the condition under which the code does meet its promise, and with inputs
for which it does not.

* `AppendDevicePath` says that the second path is appended to each instance of the first
  (`gnu-efi/lib/dpath.c:129-132`). It copies the second path's own terminator along, so a reader
  stops after the first instance, and it copies only what the walker enumerates. A single instance
  of at most 513 nodes is what it takes: `DevicePathAppend.AppendReachesEveryInstanceIff`,
  `DevicePathAppend.SecondInstanceIsMissed`.
* The buffer `AppendDevicePath` allocates is computed from a different product than the bytes it
  writes (`gnu-efi/lib/dpath.c:166`), and overflows for longer second paths and several instances:
  `DevicePathAppend.WrittenFits` says exactly when they fit, `DevicePathAppend.BufferIsOverrun` lays
  32 bytes in 28.
* `DevicePathInstance` gives up on an instance after 513 nodes: `DevicePath.EnumeratesInstancesIff`,
  `DevicePath.LongInstanceIsCut`. `LibMatchDevicePaths` can then match a path that no instance
  matches: `DevicePathMatch.UncutAreMatched`, `DevicePathMatch.CutInstanceMatchesAnything`.
* `UnpackDevicePath` stores rounded lengths in 16 bits: `DevicePathUnpack.LengthFieldsLeadOnIff`,
  `DevicePathUnpack.LongNodeLeadsNowhere`.
* `write_fat_entry` transfers one sector of 512 bytes although the entry's sector and offset are
  computed from the volume's own sector size. Entries at higher offsets are lost
  (`Fat32Properties.RoundTripIff`, `Fat32Properties.EntryAt512IsLost`), and two clusters can share
  an entry, so that writing one corrupts the other (`Fat32Properties.EntriesShared`).
  `Fat32Properties.IsMapIff` says exactly when the table keeps its entries apart,
  `Fat32Properties.RunsIncreaseIff` for which disks every run of allocations makes progress.
* The number of clusters is computed from all sectors of the volume, not from those behind the
  tables (`kernel/src/fs/fat32.cpp:48`), so the search for a free cluster can go beyond the volume:
  `Fat32Properties.SearchedWithinVolumeIff`, `Fat32Properties.SearchedBeyondVolume`.
* The root directory sector count lacks the parentheses that rounding up needs
  (`kernel/src/fs/fat32.cpp:36`): `Fat32Properties.RootDirSectorsIff` says that it is right exactly
  when there are no root entries, as on FAT32; `Fat32Properties.RootDirMiscounted`.
* `LibReinstallProtocolInterfaces` undoes its changes first to last. When a protocol is listed
  twice this need not restore the database: `Protocols.UndoIsSafeIff`, `Protocols.UndoMayNotRestore`.
* The same routine hands the services the address of its caller's handle instead of the handle
  (`gnu-efi/lib/hand.c:603` and `:624`). Unless that address happens to be a handle of the database,
  the first change is refused and nothing is done: `Protocols.AddressIsNoHandle`.
* `LibGetSmbiosString` documents string number -1 as skipping to the next structure; with 65535
  strings or more it does not: `Smbios.SkipsToEndIff`, `Smbios.TooManyStringsToSkip`.
* `LibGetSmbiosSystemGuidAndSerialNumber` does not step over a system information structure of the
  older, shorter kind (`gnu-efi/lib/smbios.c:52-57`): a longer one behind it is never found.
  `Smbios.ReportsFirstLongIff`, `Smbios.ShortStructureHidesLong`.
* `SwapListEntries` says it puts Entry2 before Entry1; it destroys a list of two or more entries
  when the two are the same or already stand in that order: `LinkedList.SwapKeepsRingIff`,
  `LinkedList.SwapOfNeighboursLosesList`.
* `MetaMatch` calls an unclosed set a syntax problem, but matches on: the set swallows the pattern's
  terminator, and what lies behind is read as pattern. `Glob.StaysWithinIff` says that the pattern
  is left exactly when a set is not closed; `Glob.UnclosedSetMatches`.
* A string buffer of size 0 means no limit, as documented; so does one of a single byte:
  `Print.NoLimitIff`. One of two or three bytes, room for one character, gets no terminator:
  `Print.ZeroLimitIff` and the contract of `Print.PoolPrint.SPrint`.

## Model

| member | source | states |
|---|---|---|
| CrcTable.TableIsEightShifts | gnu-efi/lib/crc.c:22-66 | every one of the 256 table entries is its index shifted eight times through the bit-serial register |
| Crc.TableStep | gnu-efi/lib/crc.c:212 | one lookup, shift and exclusive-or has the effect of feeding the eight bits of a byte, lowest first |
| Crc.CalculateCrc | gnu-efi/lib/crc.c:201-218 | the table-driven loop over a 64-bit accumulator returns the bit-serial CRC-32 of the first Size bytes, the accumulator never leaving 32 bits |
| Crc.CheckValue | gnu-efi/lib/crc.c:201-218 | the CRC of the nine characters `123456789` is CBF43926, the check value published for this CRC |
| CrcDivision.RegisterIsRemainder | gnu-efi/lib/crc.c:201-218 | what the register holds after a message is the remainder of schoolbook long division by x^32 + x^26 + ... + x + 1, whatever it held before |
| CrcDetection.Crc32IsLongDivision | gnu-efi/lib/crc.c:201-218 | the CRC as a whole, with initial ones and final complement, in terms of long division |
| CrcDetection.SameCrcIffGeneratorDivides | gnu-efi/lib/crc.c:201-218 | two byte sequences of one length have the same CRC if and only if the generator divides their difference |
| CrcDetection.CrcDifference | gnu-efi/lib/crc.c:201-218 | the difference of two CRCs is the remainder of the difference of the messages |
| CrcDetection.BitBurstIsSeen | gnu-efi/lib/crc.c:201-218 | changing any of at most 32 consecutive bits changes the register, whatever stands before and behind |
| CrcDetection.ByteBurstIsSeen | gnu-efi/lib/crc.c:201-218 | changing any of at most four consecutive bytes changes the CRC |
| TableHeader.SetCrcAltSize | gnu-efi/lib/crc.c:93-116 | in place: the CRC field becomes the CRC of the first Size bytes with the field as zero, no other byte changes |
| TableHeader.CheckCrcAltSize | gnu-efi/lib/crc.c:146-198 | the verdict for every Size and MaxSize, and the table bytes as they were although the field was cleared meanwhile |
| TableHeader.SetCrc | gnu-efi/lib/crc.c:70-90 | the same with the size the header names |
| TableHeader.CheckCrc | gnu-efi/lib/crc.c:119-140 | the same with the size the header names |
| TableHeader.HeaderBytes | gnu-efi/lib/crc.c:70-198 | setting and checking on a header given as bytes: size at 12, CRC at 16, both lowest byte first, and the CRC that of the bytes with four zeros in its place |
| TableHeader.SignedIsAccepted | gnu-efi/lib/crc.c:93-198 | what the setter leaves the checker accepts at the same size, and bytes outside the field are untouched |
| TableHeader.SetCrcKeepsHeaderSize | gnu-efi/lib/crc.c:89-116 | setting the CRC leaves the size field alone, so the wrappers agree on the size |
| TableHeader.BurstIsRejected | gnu-efi/lib/crc.c:146-198 | an accepted table changed anywhere within four consecutive covered bytes outside the field is rejected |
| TableHeader.CrcFieldDamageIsRejected | gnu-efi/lib/crc.c:146-198 | an accepted table whose CRC field alone is changed is rejected |
| TableHeader.AlterationMissedIff | gnu-efi/lib/crc.c:146-198 | any alteration of an accepted table, the CRC field included, is missed if and only if the field changes by the remainder of the rest; where the field is kept, if and only if the generator divides the alteration |
| Glob.MetaMatch | gnu-efi/lib/str.c:325-409 | for every pattern in memory, closed sets or not: TRUE if and only if the string can be cut into one piece per token of what is read as pattern, each accepted by its token; it terminates. What each character of the pattern accepts is `Glob.CharacterMeaning` and `Glob.SetTakesOne` |
| Glob.CharacterMeaning | gnu-efi/lib/str.c:335-406 | at any place of a pattern: its end matches the end of the string only, `?` takes any one character, `*` any run, and every other character but `[` exactly itself |
| Glob.SetTakesOne | gnu-efi/lib/str.c:360-398 | at any place of a pattern, `[` and what stands before the next `]` or terminator takes one character of the set; an unclosed set takes any other character too, unless it ends in a dash |
| Glob.WrittenSetTakesOne | gnu-efi/lib/str.c:360-398 | at any place of a pattern, a set written from characters and ranges and closed by `]` takes one character that one of its items covers |
| Glob.MatchAfterStar | gnu-efi/lib/str.c:342-350 | the loop after a star finds a match if and only if the rest of the pattern matches some suffix |
| Glob.ScanSet | gnu-efi/lib/str.c:366-395 | the scanner says yes if and only if the set accepts the character, an unclosed set accepting all but what a final dash refuses, and then stands behind the closing bracket or the swallowed terminator |
| Glob.SetMeaning | gnu-efi/lib/str.c:366-395 | for a set written as characters and ranges, that is membership in one of its items; an upside-down range admits just its two ends |
| Glob.DashAtTheEdge | gnu-efi/lib/str.c:366-395 | a dash at the start of a set admits everything up to the character behind it, one at the end nothing |
| Glob.StarFirst | gnu-efi/lib/str.c:342-350 | a star takes any run of characters: the language of star followed by a rest |
| Glob.OneFirst | gnu-efi/lib/str.c:351-406 | every other token takes exactly one character it accepts |
| Glob.ClosedTokens | gnu-efi/lib/str.c:366-395 | with closed sets the tokens are those of the pattern alone, whatever lies behind its terminator |
| Glob.StaysWithinIff | gnu-efi/lib/str.c:366-395 | reading ends at the pattern's terminator if and only if its sets are closed |
| Glob.UnclosedSetMatches | gnu-efi/lib/str.c:366-395 | the concrete run: an unclosed set matches a character it does not name |
| DevicePathNodes.ReadNode | gnu-efi/inc/efidevp.h:50-57 | the macros read back the type class, subtype, length and next node that were encoded |
| DevicePathNodes.PathIsDetermined | gnu-efi/inc/efidevp.h:50-57 | bytes encode at most one path: where two paths stand at one place they are the same |
| DevicePath.DevicePathInstance | gnu-efi/lib/dpath.c:48-106 | start, byte size and continuation of the first instance, the 513-node cut-off included |
| DevicePath.EnumeratesInstancesIff | gnu-efi/lib/dpath.c:67-84 | repeated calls enumerate the path's instances if and only if none has more than 513 nodes |
| DevicePath.LongInstanceIsCut | gnu-efi/lib/dpath.c:67-84 | the concrete run: one instance of 514 nodes is enumerated as one of 513 and an empty one |
| DevicePath.DevicePathInstanceCount | gnu-efi/lib/dpath.c:108-121 | the number of instances the walker enumerates, 0 for NULL |
| DevicePath.FindPathEnd | gnu-efi/lib/dpath.c:297-300 | the walk ends at the end-entire node, the last four bytes of the path |
| DevicePath.DevicePathSize | gnu-efi/lib/dpath.c:286-305 | the number of bytes of the whole path, terminator included |
| DevicePath.DuplicateDevicePath | gnu-efi/lib/dpath.c:309-333 | a fresh buffer with exactly the path's bytes, or NULL if and only if the pool is empty |
| DevicePath.CopyMem | gnu-efi/lib/runtime/efirtlib.c:65-77 | exactly the bytes asked for are copied and the rest of the destination stays |
| DevicePathAppend.AppendDevicePathInstance | gnu-efi/lib/dpath.c:397-433 | the result is the first path's bytes with its end made an instance end, then the second path's bytes, filling the buffer |
| DevicePathAppend.TurnEnd | gnu-efi/lib/dpath.c:419-430 | the in-place edit of the copied terminator, found by walking the copy |
| DevicePathAppend.JoinedInstances | gnu-efi/lib/dpath.c:397-433 | the instances of that result are those of the first path followed by those of the second |
| DevicePathAppend.AppendDevicePath | gnu-efi/lib/dpath.c:124-190 | the bytes written, for every number and length of instances, whenever they fit the allocation; a single uncut instance fills it exactly |
| DevicePathAppend.LaidDownSize | gnu-efi/lib/dpath.c:169-188 | the copying loop writes the second path once per enumerated instance besides what it keeps of the first |
| DevicePathAppend.KeptAtMost | gnu-efi/lib/dpath.c:169-188 | it keeps no more of the first path than there is, and all of it when no instance is cut |
| DevicePathAppend.WrittenFits | gnu-efi/lib/dpath.c:163-168 | the writes fit the buffer asked for if and only if what is kept of the first path and one second path per instance do; for uncut instances, if and only if there is one or the second path is no longer than the first |
| DevicePathAppend.BufferIsOverrun | gnu-efi/lib/dpath.c:163-188 | the concrete run: 32 bytes are laid down in a buffer of 28 |
| DevicePathAppend.AppendedReadsAs | gnu-efi/lib/dpath.c:124-190 | a reader of the result finds the first instance, as far as the walker goes, followed by the second path, and then its terminator |
| DevicePathAppend.AppendReachesEveryInstanceIff | gnu-efi/lib/dpath.c:129-132 | the documented result, the second path appended to each instance, is what is read if and only if there is a single instance and it has at most 513 nodes |
| DevicePathAppend.SecondInstanceIsMissed | gnu-efi/lib/dpath.c:129-132 | the concrete run: of two empty instances only the first is found extended |
| DevicePathAppend.AppendDevicePathNode | gnu-efi/lib/dpath.c:193-230 | a node, an end node included, is given a terminator of its own and appended as a path |
| DevicePathAppend.SetDevicePathEndNode | gnu-efi/inc/efidevp.h:66-71 | the four bytes of an end-entire node, and no others |
| DevicePathUnpack.SizingPass | gnu-efi/lib/dpath.c:348-360 | the running rounded total is the size of the unpacked bytes |
| DevicePathUnpack.RoundingAgrees | gnu-efi/lib/dpath.c:27-27 | rounding the running total, as the first pass does, and rounding each node, as the second does, agree and keep alignment |
| DevicePathUnpack.UnpackDevicePath | gnu-efi/lib/dpath.c:336-394 | the copying pass fills the allocated buffer exactly with the unpacked nodes, or NULL if and only if the pool is empty |
| DevicePathUnpack.BlocksAreAligned | gnu-efi/lib/dpath.c:336-394 | every node of the result starts on a multiple of the port's alignment |
| DevicePathUnpack.UnpackedIsSameNodes | gnu-efi/lib/dpath.c:336-394 | the result is the same node sequence: same masked type, subtype and payload, with fewer than one alignment unit of zeros added |
| DevicePathUnpack.BlockBytes | gnu-efi/lib/dpath.c:378-383 | each node of the result byte by byte, whether its length fits or not: marked type, subtype, rounded length modulo 2^16, payload, and zeros up to the next multiple of the alignment |
| DevicePathUnpack.LengthFieldsLeadOnIff | gnu-efi/inc/efidevp.h:61-64 | following the stored lengths visits exactly the nodes if and only if every rounded length fits its 16-bit field |
| DevicePathUnpack.LongNodeLeadsNowhere | gnu-efi/inc/efidevp.h:61-64 | the concrete run: behind a node of 0xfffd bytes the stored length is 0 |
| DevicePathMatch.LibMatchDevicePaths | gnu-efi/lib/dpath.c:1209-1229 | TRUE if and only if some enumerated instance of Multi is, node for node, where Single starts; nothing behind Single's terminator is read |
| DevicePathMatch.UncutAreMatched | gnu-efi/lib/dpath.c:1209-1229 | where no instance has more than 513 nodes, that is: some instance |
| DevicePathMatch.CutInstanceMatchesAnything | gnu-efi/lib/dpath.c:1209-1229 | the concrete run: an instance of 514 nodes leaves an empty one, which every path starts with |
| DevicePathMatch.RtCompareMem | gnu-efi/lib/runtime/efirtlib.c:84-101 | zero if and only if the second operand is a prefix of what the first may show, and else the difference of the first two bytes that differ; no byte at or behind the limit is read |
| DevicePathMatch.AgreesWithin | gnu-efi/lib/dpath.c:1209-1229 | as long as an instance agrees byte for byte with a path, the comparison has not left the path, however long the instance is |
| DevicePathMatch.PrefixOfBytesIff | gnu-efi/lib/dpath.c:1222-1224 | an instance's bytes are a prefix of a path's bytes if and only if its nodes are a prefix of its nodes |
| LinkedList.LinkMemory.InitializeListHead | gnu-efi/inc/efilink.h:43-45 | the head alone forms a doubly linked cycle, whatever memory held before |
| LinkedList.LinkMemory.InsertTailList | gnu-efi/inc/efilink.h:91-99 | an entry that is not in the list becomes the last of its cycle, and links of other entries are untouched |
| LinkedList.LinkMemory.InsertHeadList | gnu-efi/inc/efilink.h:109-117 | an entry that is not in the list becomes the first behind the head, and links of other entries are untouched |
| LinkedList.LinkMemory.RemoveEntryList | gnu-efi/inc/efilink.h:64-70 | the other entries form one cycle in their old order, and links outside it are untouched |
| LinkedList.LinkMemory.SwapListEntries | gnu-efi/inc/efilink.h:127-139 | the entries still form one cycle if and only if they may be swapped, and Entry2, not being the head, then stands directly before Entry1 |
| LinkedList.TailInsertedRing | gnu-efi/inc/efilink.h:91-99 | a new entry becomes the last of the cycle; links outside it are untouched |
| LinkedList.HeadInsertedRing | gnu-efi/inc/efilink.h:109-117 | a new entry becomes the first behind the head; links outside the cycle are untouched |
| LinkedList.RemovedRing | gnu-efi/inc/efilink.h:64-70 | the others keep their order in one cycle; links outside it are untouched |
| LinkedList.RunKeepsRings | gnu-efi/inc/efilink.h:43-117 | after any legal run of insertions and removals the list is one doubly linked cycle in the order the steps say, and any other list is as it was |
| LinkedList.RunFromInitialized | gnu-efi/inc/efilink.h:43-117 | the same for runs that start with an initialised head |
| LinkedList.SwappedRing | gnu-efi/inc/efilink.h:127-139 | seen from Entry1, Entry2 leaves its place and becomes the entry before Entry1 |
| LinkedList.SwapMovesBefore | gnu-efi/inc/efilink.h:125-139 | seen from the head, the new order of the whole list: Entry2, not being the head, stands directly before Entry1 |
| LinkedList.SwapKeepsRingIff | gnu-efi/inc/efilink.h:127-139 | the entries still form one list after a swap if and only if they are distinct and Entry2 did not already stand before Entry1, or the head is all there is |
| LinkedList.SwapOfNeighboursLosesList | gnu-efi/inc/efilink.h:127-139 | the concrete run: of three entries one is left leading to itself |
| LinkedList.LinkMemory.RtConvertList | gnu-efi/lib/runtime/vm.c:74-105 | the walk ends, and every link of the list has been converted exactly once from its original value, no other link at all |
| LinkedList.ConvertedIsRing | gnu-efi/lib/runtime/vm.c:74-105 | reached at their new addresses, the entries form the same list |
| Fat32.FAT32.ReadFatEntry | kernel/src/fs/fat32.cpp:244-257 | the entry's value on the disk as a function of the disk, which `Fat32Properties.EntryRead` gives byte by byte |
| Fat32.FAT32.WriteFatEntry | kernel/src/fs/fat32.cpp:268-290 | the disk afterwards as a function of the disk before, which `Fat32Properties.EntryWritten` gives byte by byte |
| Fat32.FAT32.FindFreeCluster | kernel/src/fs/fat32.cpp:259-266 | the search is the first free cluster from 2 on |
| Fat32Properties.EntryRead | kernel/src/fs/fat32.cpp:244-257 | the place of a cluster's entry on the disk and its value: four bytes, the lowest first, without the upper half of the last; 0 outside the range of clusters and after a failed transfer of 32 sectors |
| Fat32Properties.EntryWritten | kernel/src/fs/fat32.cpp:268-290 | the whole disk after a write: the low 28 bits of the value, in four bytes with the lowest first, at the entry's place, if the entry lies in the 512 bytes transferred; otherwise the disk as it was |
| Fat32Properties.RoundTripIff | kernel/src/fs/fat32.cpp:244-290 | whatever is written is read back in its low 28 bits, that is modulo 0x10000000, if and only if the entry's offset lies below 512 |
| Fat32Properties.EntryAt512IsLost | kernel/src/fs/fat32.cpp:268-290 | the concrete run: with sectors of 1024 bytes what is written for cluster 128 is lost |
| Fat32Properties.OnlyItsEntryChanges | kernel/src/fs/fat32.cpp:268-290 | of the whole disk a write changes at most the four bytes of its entry, and nothing when the entry lies beyond the sector transferred |
| Fat32Properties.WriteThenReadAny | kernel/src/fs/fat32.cpp:244-290 | for every sector size: after a write every cluster's entry reads as before, except those that stand at the same place of the disk as the one written |
| Fat32Properties.EntriesShared | kernel/src/fs/fat32.cpp:244-290 | the concrete run: with sectors of 1024 bytes a write for cluster 256 overwrites the entry of cluster 128 |
| Fat32Properties.IsMapIff | kernel/src/fs/fat32.cpp:244-290 | the table acts as a map from clusters 2 to n - 1 to 28-bit values if and only if n is at most 128, or sectors have 512 bytes and n is at most 2^30 + 2 |
| Fat32Properties.RootDirSectorsIff | kernel/src/fs/fat32.cpp:36 | the sector count of the root directory is the rounded-up one if and only if there are no root entries |
| Fat32Properties.RootDirMiscounted | kernel/src/fs/fat32.cpp:36 | the concrete run: 512 entries are counted as 16384 sectors instead of 32 |
| Fat32Properties.ClusterSectors | kernel/src/fs/fat32.cpp:36-92 | the first sector of every cluster: behind the reserved sectors, the tables and 32 sectors for each root entry, modulo 2^32 |
| Fat32Properties.TableBeforeData | kernel/src/fs/fat32.cpp:36-49 | with a table large enough for its entries, every entry's sector comes before every cluster's data |
| Fat32Properties.WriteKeepsClusterData | kernel/src/fs/fat32.cpp:89-92 | writing an entry never changes a byte of the disk from the first sector of any cluster on |
| Fat32Properties.SearchedWithinVolumeIff | kernel/src/fs/fat32.cpp:36-49 | every cluster the search looks at lies within the volume if and only if what precedes the data takes no more than two clusters and the sectors left over |
| Fat32Properties.SearchedBeyondVolume | kernel/src/fs/fat32.cpp:36-49 | the concrete run: cluster 69999 of a volume of 70000 sectors lies beyond its end |
| Fat32Properties.SearchFindsLeastFree | kernel/src/fs/fat32.cpp:259-266 | the search returns the least free cluster, and 0 if and only if none is free |
| Fat32Properties.AllocateOne | kernel/src/fs/fat32.cpp:259-290 | for every sector size: writing a non-free value for the cluster found takes from the free clusters exactly those that share its entry, or none when the write is lost; just itself where entries are apart |
| Fat32Properties.RunsIncreaseIff | kernel/src/fs/fat32.cpp:259-290 | for every sector size: every run of allocations from a disk comes in increasing order if and only if every free cluster of that disk has its entry in the first 512 bytes of a sector |
| Fat32Properties.AllocationsIncreaseIff | kernel/src/fs/fat32.cpp:259-290 | of a single run: the clusters were free, and they come in increasing order if and only if all but the last could be written |
| Fat32Properties.AllocationsAreFresh | kernel/src/fs/fat32.cpp:259-290 | where entries are apart: no cluster comes twice, those handed out are free no longer and the others stay as they were, and as many come as were asked for or were free |
| Print.PoolPrint.SPrint | gnu-efi/lib/print.c:313-352 | as much as fits is appended, and the string is terminated if the limit is not zero; with limit zero the buffer is left as it was |
| Print.PoolPrint.PoolAppend | gnu-efi/lib/print.c:355-397 | all is appended after growing to 200 characters more than needed; a failed allocation leaves the empty string to append to |
| Print.PrintState.Flush | gnu-efi/lib/print.c:845-857 | the buffered characters are handed to the worker and counted as flushed, the worker's string is terminated unless its limit is zero, and the buffer is empty |
| Print.PrintState.PutChar | gnu-efi/lib/print.c:876-896 | a newline adds a return and a newline to what was put so far, any other character itself and nothing else; the buffer is flushed at 199 characters |
| Print.PrintState.Print | gnu-efi/lib/print.c:845-896 | for any text: the worker's string is the expanded text, the text itself if it has no newline, cut off at maxlen for the fixed buffer, with or without a limit, and terminated unless the limit is zero; Len is the length of the expanded text |
| Print.NoLimitIff | gnu-efi/lib/print.c:438-457 | the limit computed from the buffer size is none if and only if the size is below 2; otherwise it is the number of whole characters less one |
| Print.ZeroLimitIff | gnu-efi/lib/print.c:457 | the limit is zero if and only if the buffer has two or three bytes |
| Print.ExpandedIs | gnu-efi/lib/print.c:876-896 | a text without newlines is sent as it is, a newline as a return and a newline, and a text grows by one character for each newline in it |
| Print.NewlinesFollowReturns | gnu-efi/lib/print.c:883-886 | every newline sent stands behind a carriage return |
| Print.ExpansionIsReversible | gnu-efi/lib/print.c:883-886 | taking the returns out of the expansion gives the text back |
| Print.ExpandedJoins | gnu-efi/lib/print.c:876-896 | the expansion of two texts in a row is that of the whole |
| Numbers.ValueToHex | gnu-efi/lib/print.c:1260-1288 | the buffer holds the hexadecimal digits, most significant first, and a NUL; the rest of it is untouched |
| Numbers.HexTextIs | gnu-efi/lib/print.c:1260-1288 | every hexadecimal text character by character: one digit `0` to `9` or `A` to `F` below sixteen, otherwise the text of the sixteens followed by the last digit |
| Numbers.ValueToString | gnu-efi/lib/print.c:1291-1334 | the buffer holds the decimal text, sign and commas included, and a NUL, for every 64-bit signed value, the negation of the least one wrapping; the rest of the buffer is untouched. The text itself is `Numbers.DecimalTextIs` and `Numbers.CommaText` |
| Numbers.DecimalTextIs | gnu-efi/lib/print.c:1291-1334 | every decimal text character by character: one digit below ten, otherwise the text of the tens followed by the last digit, and a minus before the text of a negative number's magnitude, with or without commas |
| Numbers.Xtoi | gnu-efi/lib/str.c:267-296 | the value modulo 2^64 of the digits behind any leading spaces |
| Numbers.Atoi | gnu-efi/lib/str.c:298-323 | the value modulo 2^64 of the digits behind any leading spaces |
| Numbers.ParsedIs | gnu-efi/lib/str.c:267-323 | that value in characters: any number of spaces, then digits, for xtoi in upper or lower case, up to a character that is none; their value modulo 2^64 |
| Numbers.HexRoundTrip | gnu-efi/lib/print.c:1260-1288 | the hexadecimal text of a 64-bit value parses to that value |
| Numbers.DecimalRoundTrip | gnu-efi/lib/print.c:1291-1334 | the decimal text of a value below 2^64 parses to that value |
| Numbers.NegativeRoundTrip | gnu-efi/lib/print.c:1312-1334 | the text of a negative 64-bit value starts with a minus, and what stands behind it parses to the magnitude, 2^63 for the least value included |
| Numbers.CommaText | gnu-efi/lib/print.c:1321-1331 | the text with commas is the plain one grouped by three from the right behind the sign, and deleting the commas gives the plain one back |
| Numbers.CommasGroupByThree | gnu-efi/lib/print.c:1321-1331 | the countdown rule puts commas exactly between groups of three counted from the right |
| Division.DivU64x32 | gnu-efi/lib/ia32/math.c:134-199 | quotient and remainder of exact division for every 64-bit dividend and every divisor from 1 to 2^31 - 1 |
| Division.StepKeepsHalfway | gnu-efi/lib/ia32/math.c:158-191 | one shift, compare and subtract keeps the half-done division, and the remainder stays below 2^32 |
| Division.ExactDivisionIsUnique | gnu-efi/lib/ia32/math.c:134-199 | that equation has one solution, so the result is the quotient and the remainder |
| Protocols.LibInstallProtocolInterfaces | gnu-efi/lib/hand.c:437-517 | all or none: on an error the database and the handle are as at entry, and the status is that of the first pair refused, for its parameters or for lack of memory; otherwise all pairs are on one handle; it succeeds if and only if every pair could go in; the TPL is restored |
| Protocols.InstalledMeans | gnu-efi/lib/hand.c:464-489 | the database after a success: the handle carries what it did and each pair's interface under its protocol, and every other handle is as it was |
| Protocols.RollBack | gnu-efi/lib/hand.c:497-506 | uninstalling the installed pairs first to last restores the database, the handle vanishing again if it was new |
| Protocols.LibReinstallProtocolInterfaces | gnu-efi/lib/hand.c:558-636 | on success each protocol has the last interface it was given and nothing else changed; on an error the status is that of the first change refused, not found or for lack of memory, and with distinct protocols the database is as at entry, otherwise the changes made were undone first to last; it succeeds if and only if every change could be made; the TPL is restored |
| Protocols.RedoAllMeans | gnu-efi/lib/hand.c:578-607 | making changes in turn gives each protocol its last interface |
| Protocols.AfterIsLast | gnu-efi/lib/hand.c:578-607 | the interface a protocol ends up with is that of the last change that names it |
| Protocols.AddressIsNoHandle | gnu-efi/lib/hand.c:603 | given an address that is no handle of the database, no change is made |
| Protocols.UndoRestores | gnu-efi/lib/hand.c:616-628 | for pairwise distinct protocols that undoing restores the database |
| Protocols.UndoIsSafeIff | gnu-efi/lib/hand.c:616-628 | a list of protocols is undone correctly for every database and all interfaces if and only if no protocol is listed twice |
| Protocols.UndoMayNotRestore | gnu-efi/lib/hand.c:616-628 | the concrete run: a protocol listed twice is left at its second interface |
| Relocation.ScanDynamic | gnu-efi/gnuefi/reloc_x86_64.c:52-72 | the scan finds the last entry of each of the three tags, 0 without one |
| Relocation.TableFields | gnu-efi/gnuefi/reloc_x86_64.c:52-72 | the last entries with tags 7, 8 and 9 give the table's place, with the load base added, its size and its stride, the two as signed numbers |
| Relocation.NoneCounts | gnu-efi/gnuefi/reloc_x86_64.c:46-72 | each of the three is 0 without an entry that has its tag |
| Relocation.Relocate | gnu-efi/gnuefi/reloc_x86_64.c:43-98 | the status for every dynamic table, and memory after the loop, addresses modulo 2^64 and tables that are changed on the way included; where the table is clear of its targets, all its entries applied in order as they stood at the start, which `Relocation.RelocatedWord` gives word by word |
| Relocation.RelocatedIsAllEntries | gnu-efi/gnuefi/reloc_x86_64.c:78-96 | on such a table the loop applies the entries as they stood at the start, one after the other |
| Relocation.EachTargetOnce | gnu-efi/gnuefi/reloc_aarch64.c:78-95 | with disjoint targets each target word is relocated exactly once: the load base plus what the word held at the start on x86_64, plus the addend on aarch64, modulo 2^64 |
| Relocation.RelocatedWord | gnu-efi/gnuefi/reloc_aarch64.c:42-97 | the whole routine, from bytes to bytes: the word named by the relative entry k strides into the table ends as the load base plus what it held, or plus the addend found in the table |
| Relocation.EntryFields | gnu-efi/gnuefi/reloc_aarch64.c:78-95 | an entry in bytes: the place to relocate, the type code 8 or 1027 in the low half of the next word, and on aarch64 the addend |
| Relocation.UntargetedUnchanged | gnu-efi/gnuefi/reloc_x86_64.c:79-96 | a place no target covers keeps its bytes |
| Relocation.PortsAgree | gnu-efi/gnuefi/reloc_aarch64.c:78-95 | entry lists with the same targets, x86_64 without addends and aarch64 with them: where each target holds its addend, memory ends the same outside the two tables |
| Relocation.ImagesRelocateAlike | gnu-efi/gnuefi/reloc_aarch64.c:42-97 | what the two ports' routines leave of one image, tables differing in type code, entry size, stride and place: the same memory outside the tables |
| Smbios.LibGetSmbiosString | gnu-efi/lib/smbios.c:84-135 | the string asked for and the pointer left where it was, or no string and the pointer at the end of the structure, with or without strings |
| Smbios.StringIsThere | gnu-efi/lib/smbios.c:84-135 | at the place returned for number k stand the k-th string and its NUL |
| Smbios.SkipsToEndIff | gnu-efi/lib/smbios.c:94-95 | skipping with number -1 again and again leads to the end of the structures if and only if each has fewer than 65535 strings |
| Smbios.TooManyStringsToSkip | gnu-efi/lib/smbios.c:94-95 | the concrete run: with 65535 strings the answer is the last of them and the pointer stays |
| Smbios.NextStructure | gnu-efi/lib/smbios.c:66-69 | where one structure of a table ends the next begins, so the skip leads from structure to structure |
| Smbios.LibGetSmbiosSystemGuidAndSerialNumber | gnu-efi/lib/smbios.c:29-82 | for every stated length: the answer of the first system information structure among those that start within it, if it is long enough and the scan gets there |
| Smbios.SystemStructure | gnu-efi/lib/smbios.c:49-66 | that answer in bytes: of a type 1 structure with a length of 0x19 or more the 16 bytes behind the serial number's string number, and the place of that string, if there is one |
| Smbios.AllReached | gnu-efi/lib/smbios.c:48-49 | where the stated length is that of the structures, all of them start within it |
| Smbios.ReportsFirstLongIff | gnu-efi/lib/smbios.c:49-81 | the first system information structure that is long enough is the one reported if and only if nothing before it stops the scan |
| Smbios.ShortStructureHidesLong | gnu-efi/lib/smbios.c:52-57 | the concrete run: a short one hides the long one behind it |

## Left out

* Firmware calls, the pool's internals and variable argument lists: boot services are a handle
  database with grants, an allocation is a flag that says whether it succeeds, argument lists are
  sequences.
* `ASSERT` and `DEBUG` output: they do nothing outside debug builds. The debug variant of
  `RemoveEntryList`, which also poisons the removed entry's links, is left out with them.
* AHCI registers, DMA, LBA encoding and partitions: a port reads and writes sectors of 512 bytes,
  and a transfer fails if and only if it leaves the disk. `partition_start` is 0, as the
  constructor sets it.
* The kernel's page allocator, page tables and heap are not part of this model.
* The boot sector: its fields are those the FAT specification allows, and the choice between the
  16-bit and the 32-bit sector count has been made.
* FAT mirrors, the reserved top four bits of an entry, directories, long names and path
  resolution: the code writes one FAT and clears the bits; the rest is unfinished.
* The `%` directives of the print library, floating-point and time printing, the text dumpers for
  device paths, GUID and error tables, and the simple string wrappers: easy or finite members.
* `LibDuplicateDevicePathInstance`, `FileDevicePath` and device path lookups through handles.
* Glob.MetaMatch: all that may be read of the pattern lies in memory; behind an unclosed set that
  includes what follows the terminator.
* DevicePath.DevicePathInstance: the path must be well formed. The code trusts the length fields.
* DevicePathAppend.AppendDevicePath: requires that its writes fit the buffer it allocates; with
  both paths absent the code dereferences NULL.
* DevicePathAppend.AppendDevicePathNode: an end node has the form section 9.3 of the UEFI 2.4
  specification gives it.
* DevicePathAppend.AppendDevicePathInstance: with a source path the allocation succeeds; the code
  only asserts it and would write through NULL.
* LinkedList.LinkMemory.RtConvertList: the debug disposition passed for links to the head is not
  modelled; it matters for NULL links only. The firmware's conversion is any function of addresses.
* LinkedList.LinkMemory.RemoveEntryList: memory is one object that maps addresses to links, so
  entries are addresses rather than objects of their own.
* Print.PrintState.Print: for the pool worker allocations succeed; what a failed one loses is
  stated at `Print.PoolPrint.PoolAppend`. A fixed buffer has room for the text that its limit, if
  any, admits. Console output as a worker is left out. Characters are not NUL, which would cut the
  flushed chunk short.
* Numbers.ValueToString: the buffer has room for the text, as the code expects of its callers.
* Division.DivU64x32: divisors below 2^31, as the routine's own note demands.
* Protocols.LibReinstallProtocolInterfaces: undo steps are granted their memory. `h` is whatever
  value the service is given as handle.
* Protocols.RollBack: an uninstall of what was just installed is never refused.
* Protocols.UndoRestores: one direction; with a protocol listed twice restoring depends on the
  interfaces. The condition on the list of protocols alone is `Protocols.UndoIsSafeIff`.
* Relocation.Relocate: what the loop reads and changes lies in memory, and a table that is not
  empty has a positive stride; otherwise the loop leaves memory or does not end. The type codes and
  entry sizes are those of the two ABIs, elf.h being outside the repository.
* Smbios.LibGetSmbiosSystemGuidAndSerialNumber: the lookup of the table among the system's
  configuration tables. There are structures in memory as far as the scan goes; a stated length
  beyond them would make it read whatever follows.
* Memory read by the routines is a byte sequence and addresses are offsets into it; the 256-entry
  CRC table is kept as sixteen rows of sixteen.
