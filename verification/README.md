# KnitOS in Dafny

A model of the parts of KnitOS whose correctness is hard to see, and proofs about it: the limb
arithmetic of its cryptography, the MOS filesystem with its cache, journal and checker, processes
with their address spaces and references, the scheduler, the two heaps, pipes, and the SSH packet
layer of the daemon.

The model has the form of the code. Global state that the kernel updates in place is a class, a
buffer is an array, a loop is a loop, and each method is proved against a specification: an
integer formula, a finite map, a byte sequence, a list of blocks. C integers are subset types of
`int`, so that every assignment carries a proof that the C expression does not overflow; where the
code relies on wrap-around the reduction is written out.

- Cryptography: `Poly1305`, `Ed25519Scalar`, `Field25519`, `X25519`, `ChaCha`, over `Words`,
  `Arith` and `Limbs`. The specifications are those of RFC 8439 (sections 2.3 to 2.5), RFC 7748
  (section 5) and RFC 8032 (section 5.1.6).
- Filesystem: `Disks`, `SectorCache`, `Journal`, `Bitmap`, `Extents`, `Ownership`, `Growth`, `Files`,
  `Dirents`, `Namespace`, `Fsck`, `Repair`. `Ownership.Balanced` is the one global invariant: a sector at or
  above the allocation base has its bit set exactly if one inode owns it, or an operation under
  way holds it. `Namespace.Ns` says that directories are well formed and that every link count is
  the number of records that name the inode.
- Processes: `Procs`, `Paging`, `Sched`. Every operation keeps `Valid`: a stack slot's count is
  the number of tasks that hold it, a pipe end's count is the number of descriptors on it and of
  references that were lost, a pool frame is in use exactly if one user page of one live
  directory is in it, and only the current task is running.
- Heaps: `Blocks` (lists of blocks), `Arena` (the same lists as headers in bytes), `Heap` (both
  allocators over the bytes).
- Streams: `Pipe`, `Ssh`.

What holds over every run is stated as an invariant that the constructor establishes and every
operation keeps, or, where a run is more than a series of calls, as a lemma over all runs:
crashes (`Journal.CommitIsAtomic`), picks (`Sched.BoundedBypass`), writes after a fork
(`Paging.CloneIsolated`), packets (`Ssh.ConnectionRoundTrip`), schedules (`Pipe.Pipe.Read`), calls
and switches of tasks (`Procs.Run`).

## Findings

Where the code does not do what one would say of it, the model keeps the code, a member shows an
input, and another says exactly when the property holds.

- The user library's `malloc` rounds sizes above 2^32 - 16 to 0 and returns a block that is too
  small: `Heap.MallocWraps`. The block is big enough exactly for sizes up to 0xFFFFFFF0:
  `Heap.Heap.UserMalloc`.
- The 16-bit link count wraps: `Namespace.LinkWraps`. The counts stay right exactly if the count
  was below 65535: `Namespace.Link`.
- A record beyond the first 64 KiB of a directory is stored but never found:
  `Dirents.DirectoryFull`. It is found exactly if the directory with it has at most 65536 bytes:
  `Dirents.FoundIffFits`.
- The pipe system call keeps references when a task has fewer than two free descriptors:
  `Procs.LosePipe`. No run of events gives them back, so the pipe slot is in use for good:
  `Procs.Run`. The call succeeds exactly if a pipe and two descriptors are free and the two numbers
  can be copied to the caller; if only the copy fails, both descriptors stay:
  `Procs.Kernel.SysPipe`.
- A file that grows can lose contents: a new run joins the first extent it continues, and the parts
  behind that extent move to other sectors: `Growth.GrowthMoves`. One run leaves every part in its
  sector exactly if the slot that takes it is the last in use: `Growth.JoinKeepsMap`,
  `Files.Fs.GrowOnce`. A file none of whose earlier extents ends before a free sector keeps its bytes
  over every growth: `Files.Fs.GrowSectors`, `Files.Fs.IndexTruncate`, `Files.Fs.IndexWrite`.
- A truncation to a size within 511 bytes of 2^32 empties the file: `Files.TruncateWraps`. The file
  gets the size asked for exactly if it is at most 0xFFFFFE00: `Files.Fs.IndexTruncate`. A write of
  2^32 - 1 bytes reports success and leaves an empty file, every shorter one that reports success
  leaves the data: `Files.Fs.WriteFile`.
- A repair of the volume clears the bits of attribute blocks in use: `Repair.XattrVolume`. The bitmap
  is right afterwards exactly if no inode that is left has one: `Repair.Repair`.
- A repair that clears a directory without a name leaves what it held with wrong counts:
  `Repair.OrphanDirectory`. The next check is clean exactly if no inode that was cleared named another
  than the root: `Repair.RepairThenCheck`.
- The checker passes over a directory for which it gets no memory and may then report a faulty
  volume as clean: `Fsck.MissedRecord`. With repair it then takes the inodes named there for
  orphans. A consistent volume passes exactly if no directory that was passed over names an inode
  other than the root: `Fsck.ConsistentPasses`.
- A packet whose length field exceeds 2000 is sent but refused on receipt: `Ssh.LongPacketStops`. The
  limit on payloads is 1991 bytes in the clear and 1995 under encryption: `Ssh.FitsIsLimit`,
  `Ssh.StreamRoundTrip`.
- A comment in the cache says that eviction prefers clean slots. The code computes such a slot and
  then overwrites the choice with the oldest slot (kernel/fs_cache.cpp:43-58); the model follows
  the code: `SectorCache.Cache.Evict`.

## Model

| member | source | states |
|---|---|---|
| `Poly1305.Authenticate` | kernel/crypto/chacha20poly1305.cpp:149-163 | for every message and key the 16 bytes are ((polynomial of the padded blocks in clamped r, mod 2^130 - 5) + s) mod 2^128, the integer formula of section 2.5 of RFC 8439 |
| `Poly1305.State.constructor` | kernel/crypto/chacha20poly1305.cpp:100-110 | the shifted and masked limbs hold the first half of the key under the clamp mask, and the pad words the second half |
| `Poly1305.State.Blocks` | kernel/crypto/chacha20poly1305.cpp:71-98 | the limb accumulator stays within its bounds, and modulo 2^130 - 5 it is the accumulator after absorbing each whole block |
| `Poly1305.MulCarry` | kernel/crypto/chacha20poly1305.cpp:84-94 | with limbs below 2^27 + 64 no 32- or 64-bit intermediate overflows, the value is multiplied by r modulo 2^130 - 5, and the new limbs are below 2^26, the second below 2^26 + 64 |
| `Poly1305.State.Finish` | kernel/crypto/chacha20poly1305.cpp:112-147 | the tag is the canonical residue of the accumulator plus the pad, modulo 2^128 |
| `Poly1305.FinalCarry` | kernel/crypto/chacha20poly1305.cpp:113-119 | the carries reduce all limbs below 2^26 and change the value by a multiple of 2^130 - 5 |
| `Poly1305.Select` | kernel/crypto/chacha20poly1305.cpp:121-131 | the masked selection yields a value below 2^130 - 5 that is the input or the input minus 2^130 - 5 |
| `Ed25519Scalar.ModL` | kernel/crypto/ed25519.cpp:251-271 | for limbs from 0 up to 2^21 the 32 bytes are the value modulo the group order, in [0, L), with no 64-bit overflow |
| `Ed25519Scalar.Fold` | kernel/crypto/ed25519.cpp:253-262 | one fold clears a high limb, subtracts a multiple of L, and leaves the limbs it rewrote in [-128, 128) |
| `Ed25519Scalar.CarryIsBorrow` | kernel/crypto/ed25519.cpp:263-268 | after subtracting the estimated multiple the carry is 0 or -1 |
| `Ed25519Scalar.Reduce` | kernel/crypto/ed25519.cpp:273-279 | the 64 bytes are replaced by their value modulo L, the upper 32 by zeros |
| `Ed25519Scalar.SignScalar` | kernel/crypto/ed25519.cpp:370-374 | the scalar of a signature is (r + h * d) mod L |
| `Field25519.Car` | kernel/crypto/x25519.cpp:11-20 | one carry pass: each limb gives its carry to the next and the last, with weight 38, to the first; carries fit |
| `Field25519.TwoPasses` | kernel/crypto/x25519.cpp:11-20 | two passes bring any limbs in range into the normal range and change the value by a multiple of 2^255 - 19 |
| `Field25519.ThirdPass` | kernel/crypto/x25519.cpp:35 | a third pass puts every limb in [0, 2^16) |
| `Field25519.Sel` | kernel/crypto/x25519.cpp:22-29 | the branch-free exchange swaps the two elements exactly if the bit is 1 |
| `Field25519.TrialSubtract` | kernel/crypto/x25519.cpp:37-44 | the borrow chain computes t - (2^255 - 19), and its borrow is 1 exactly if t is smaller |
| `Field25519.Pack` | kernel/crypto/x25519.cpp:31-51 | for all limbs in range the bytes are the little-endian encoding of the residue in [0, 2^255 - 19): three passes and two conditional subtractions suffice |
| `Field25519.Unpack` | kernel/crypto/x25519.cpp:53-57 | the limbs are normal and hold the value of the bytes without the top bit |
| `Field25519.Add` | kernel/crypto/x25519.cpp:59 | limb-wise sum without overflow |
| `Field25519.Sub` | kernel/crypto/x25519.cpp:60 | limb-wise difference without overflow |
| `Field25519.Mul` | kernel/crypto/x25519.cpp:62-69 | for limbs within 2^26 the result is normal and is the product minus a multiple of 2^255 - 19; no product or sum overflows |
| `Field25519.Inv` | kernel/crypto/x25519.cpp:73-82 | the result is the power with exponent exactly 2^255 - 21 modulo 2^255 - 19 |
| `Field25519.Pow2523` | kernel/crypto/ed25519.cpp:195-201 | the result is the power with exponent exactly 2^252 - 3 |
| `X25519.LadderStep` | kernel/crypto/x25519.cpp:101-118 | one turn on limbs is the doubling and differential addition of section 5 of RFC 7748 on residues |
| `X25519.LadderLoop` | kernel/crypto/x25519.cpp:97-121 | the 255 turns with their conditional swaps are the ladder of section 5 of RFC 7748 over bits 254 to 0 |
| `X25519.X25519` | kernel/crypto/x25519.cpp:84-132 | for every scalar and u-coordinate the bytes are the canonical encoding of x2 * z2^(p - 2) after the ladder on the clamped scalar |
| `ChaCha.QuarterStep` | kernel/crypto/chacha20poly1305.cpp:7-12 | the four in-place half steps on words a, b, c, d are the quarter round |
| `ChaCha.BlockOf` | kernel/crypto/chacha20poly1305.cpp:14-28 | ten column and diagonal rounds in place, and the input added back, are the block function of section 2.3 of RFC 8439 |
| `ChaCha.XorWith` | kernel/crypto/chacha20poly1305.cpp:49-63 | byte i is xored with byte i mod 64 of key-stream block counter + i / 64, for every length and with a counter that wraps |
| `ChaCha.MaskedTwice` | kernel/crypto/chacha20poly1305.cpp:49-63 | for every key stream the cipher is its own inverse |
| `Journal.CommitIsAtomic` | kernel/fs.cpp:143-191 | a crash after any prefix of the writes of a commit, then any number of recoveries each crashed after any prefix, then one that ends, leaves all home sectors old or all new, the log empty, and every other sector outside the log as it was |
| `Journal.Volume.Commit` | kernel/fs.cpp:172-191 | the writes are a prefix of the commit's writes, all of them exactly on success; a transaction that is empty or too big writes nothing |
| `Journal.Volume.Recover` | kernel/fs.cpp:143-170 | the writes are the replay of the log the header describes, if it is valid, and the clearing of the log |
| `Journal.HeaderRoundTrip` | kernel/fs.cpp:15-25 | the header built for a list of sectors is valid and names them in order |
| `Journal.RecoverPending` | kernel/fs.cpp:143-170 | on a logged commit the replay writes exactly the commit's home sectors and the cleared log mark |
| `Journal.PendingSettles` | kernel/fs.cpp:143-170 | a logged commit is installed by recovery, however often recovery itself crashed before |
| `Journal.LayoutIsOk` | kernel/fs.cpp:850-870 | home sectors outside sector 0 and the log area make a transaction the theorem applies to |
| `SectorCache.Cache.Find` | kernel/fs_cache.cpp:34-38 | the slot of a sector, or -1 exactly if none holds it |
| `SectorCache.Cache.Evict` | kernel/fs_cache.cpp:40-64 | a free slot, or the least recently used one after its data reached the disk; no sector changes its cached state |
| `SectorCache.Cache.ReadSector` | kernel/fs_cache.cpp:77-96 | a read that succeeds returns the last write to the sector, through any evictions |
| `SectorCache.Cache.WriteSector` | kernel/fs_cache.cpp:98-111 | a write that succeeds changes the view of that sector alone; one that fails changes nothing in it |
| `SectorCache.Cache.Sync` | kernel/fs_cache.cpp:66-75 | after success the disk is the cached view |
| `SectorCache.Cache.InvalidateAll` | kernel/fs_cache.cpp:27-32 | the view is the disk again, and the history starts over |
| `SectorCache.TakeKeeps` | kernel/fs_cache.cpp:87-110 | filling a slot that may be taken keeps sectors distinct and the cache a representation of the view |
| `SectorCache.PushedOut` | kernel/fs_cache.cpp:51-62 | when the least recently used sector is evicted, 256 distinct others were accessed after it |
| `SectorCache.StaysResident` | kernel/fs_cache.cpp:40-111 | a sector is still cached while fewer than 256 distinct others were accessed after it |
| `Bitmap.TestSector` | kernel/fs.cpp:92-95 | the masked byte test reads the bit of the sector |
| `Bitmap.SetSector` | kernel/fs.cpp:97-102 | the bit of the sector is set or cleared and no other changes |
| `Extents.MapInjective` | kernel/fs.cpp:280-307 | if no sector is covered twice, different parts of a file map to different sectors |
| `Extents.CoveredIsMapped` | kernel/fs.cpp:280-307 | every sector an extent covers is that of some part |
| `Extents.TotalBound` | kernel/fs.cpp:258-278 | extents without overlap below n count at most n sectors |
| `Extents.CountIsTotal` | kernel/fs.cpp:251-278 | on such extents the guarded count of the code is the plain sum |
| `Extents.MapFromIsMap` | kernel/fs.cpp:280-307 | on such extents the guarded walk of the code finds the plain position, and -1 exactly past the end |
| `Extents.EncodeRoundTrip` | kernel/fs.cpp:342-355 | the indirect block holds the extents written to it |
| `Ownership.SoleOwner` | kernel/fs.cpp:258-433 | on a balanced volume an owned sector is owned once, by one inode, is marked in use, and is not below the base |
| `Ownership.TakeKeeps` | kernel/fs.cpp:114-130 | marking free sectors keeps the volume balanced, with the sectors held by the operation |
| `Ownership.GiveKeeps` | kernel/fs.cpp:132-139 | clearing held sectors keeps the volume balanced |
| `Ownership.InodeKeeps` | kernel/fs.cpp:309-359 | an inode may change when what it gains or loses was held or is held afterwards |
| `Ownership.OtherFile` | kernel/fs.cpp:378-433 | writes to sectors a file does not own leave its extents and its bytes alone |
| `Ownership.WritePart` | kernel/fs.cpp:759-793 | writing the sector of part k changes part k of the file and nothing else of it |
| `Growth.JoinKeepsMap` | kernel/fs.cpp:326-358 | one run of new sectors leaves every part of the file in its sector exactly if no extent in use follows the slot that takes it |
| `Growth.GrowthMoves` | kernel/fs.cpp:335-338 | with extents (10, 1) and (12, 1) and sector 11 free, part 1 of the file moves from sector 12 to sector 11 |
| `Growth.ExtendedStays` | kernel/fs.cpp:360-376 | a file whose earlier extents end before sectors in use keeps its parts and their contents over each further run |
| `Files.Fs.constructor` | kernel/fs.cpp:1004-1043 | a new volume is balanced, with the sectors below the base in use and only the root inode |
| `Files.Fs.FindRun` | kernel/fs.cpp:114-130 | the first run of free sectors of that length at or above the base; failure exactly if there is none |
| `Files.Fs.AllocBlocks` | kernel/fs.cpp:114-130 | the run was free and is now held; failure changes nothing and means no run is that long |
| `Files.Fs.FreeBlocks` | kernel/fs.cpp:132-139 | held sectors are free again and the volume is balanced |
| `Files.Fs.AddExtent` | kernel/fs.cpp:326-358 | the held sectors become the file's, in the slot that fits, directly, merged, or through an indirect block, and its data sectors are not written; failure changes nothing |
| `Files.Fs.ClearExtents` | kernel/fs.cpp:309-325 | all sectors of the file, with the indirect block, are free again |
| `Files.Fs.CountSectors` | kernel/fs.cpp:258-279 | the two loops count over direct and indirect extents in order |
| `Files.Fs.MapSector` | kernel/fs.cpp:280-307 | the two loops find the sector of a part in the same order |
| `Files.Fs.GrowOnce` | kernel/fs.cpp:362-374 | a run that was free joins the file, which keeps every part in its sector exactly if the slot is the last in use; failure changes nothing |
| `Files.Fs.GrowSectors` | kernel/fs.cpp:360-376 | the volume stays balanced on every path, so a failed grow leaks nothing; success gives the file exactly the sectors asked for; a file whose earlier extents end before sectors in use keeps all its parts, on failure too |
| `Files.Fs.ShrinkTo` | kernel/fs.cpp:378-433 | the first parts of the file survive their move to new sectors; every failure keeps the volume balanced |
| `Files.Fs.IndexRead` | kernel/fs.cpp:697-739 | the bytes are the slice of the file from the offset, cut at its end; their number is returned as a 32-bit int, right exactly if it is not negative; -1 for what cannot be read |
| `Files.Fs.IndexTruncate` | kernel/fs.cpp:741-757 | the file has the new size, on shrinking is the prefix of what it was, and on growing keeps its bytes if its earlier extents end before sectors in use; a size that wraps in rounding leaves it empty; every other file is as it was |
| `Files.Fs.IndexWrite` | kernel/fs.cpp:759-793 | inside the file a splice; past its end the file ends with the data, after what it was if its earlier extents end before sectors in use; a sum that wraps fails; every other file is as it was |
| `Files.Fs.WriteFile` | kernel/fs.cpp:1100-1112 | on success the file is the data, but empty for 2^32 - 1 bytes; the inode keeps its links and kind; every other file is as it was |
| `Files.WriteThenRead` | kernel/fs.cpp:1094-1112 | a write and then a read return the data, for every length below 2^32 - 1 |
| `Files.TruncateWraps` | kernel/fs.cpp:746 | truncated to 0xFFFFFE01 bytes, a file has that size and no byte |
| `Files.Fs.Release` | kernel/fs.cpp:1227-1230 | the inode and all its sectors, with the attribute block, are free |
| `Files.Fs.SetXattr` | kernel/fs.cpp:1465-1490 | the attribute block is the inode's own and holds the record; no file changes |
| `Files.Fs.NewInode` | kernel/fs.cpp:795-799 | the first free inode, blank but for its kind; -1 exactly if there is none |
| `Dirents.Round4IsMask` | kernel/fs.cpp:451-465 | rounding by masking is rounding up to a multiple of 4 |
| `Dirents.ParseBlob` | kernel/fs.cpp:451-465 | the records read from the bytes of some records are those records |
| `Dirents.Next` | kernel/fs.cpp:451-465 | each step yields the next record of the bytes and ends exactly where no complete record begins |
| `Dirents.FindIn` | kernel/fs.cpp:467-494 | the inode of the first live record with the name, or -1 if there is none, on any bytes |
| `Dirents.RemoveIn` | kernel/fs.cpp:524-555 | the bytes are those of the records without that one |
| `Dirents.NoneLive` | kernel/fs.cpp:557-580 | true exactly if no record is live |
| `Dirents.LookupIsEntry` | kernel/fs.cpp:467-494 | the scan agrees with the finite map the records stand for |
| `Dirents.EntriesAppend` | kernel/fs.cpp:496-522 | a record for a new name inserts it in the map |
| `Dirents.EntriesWithout` | kernel/fs.cpp:524-555 | removing the record deletes its name and no other |
| `Dirents.FoundIffFits` | kernel/fs.cpp:441-449 | a name added is found afterwards exactly if the directory still has at most 64 KiB |
| `Dirents.DirectoryFull` | kernel/fs.cpp:441-449 | a record after 65536 bytes of others is not found |
| `Namespace.NewVolume` | kernel/fs.cpp:1004-1043 | a new volume satisfies the invariant of the namespace |
| `Namespace.FindName` | kernel/fs.cpp:467-494 | the lookup of the name in the visible part of the directory |
| `Namespace.AddEntry` | kernel/fs.cpp:496-522 | on success the directory has one more record at its end, for a name it did not have; other files are as they were |
| `Namespace.RemoveEntry` | kernel/fs.cpp:524-555 | on success the directory has the same records without that one; other files are as they were |
| `Namespace.Create` | kernel/fs.cpp:824-848 | on success a new empty inode, inserted under the name, with right link counts; every other inode and file is as it was; if the name is taken nothing changes |
| `Namespace.Link` | kernel/fs.cpp:1235-1249 | on success the name is inserted and the 16-bit count goes up; the counts are right exactly if it was not full; for a directory or a name that is taken nothing changes |
| `Namespace.LinkWraps` | kernel/fs.cpp:1246 | at 65535 the count becomes 0 with 65536 records |
| `Namespace.Delete` | kernel/fs.cpp:1210-1233 | on success the name is gone, the inode has lost a link or is free, the counts are right; for a missing name, the root or a directory with entries nothing changes |
| `Namespace.Rename` | kernel/fs.cpp:1251-1268 | on success the new name is inserted and the old one deleted, in one directory or two, and the counts are right; every other file is as it was; if the old name is missing or the new one taken nothing changes |
| `Namespace.WriteNamed` | kernel/fs.cpp:1100-1112 | writing a file of any length keeps every name and count |
| `Namespace.CreateKeeps` | kernel/fs.cpp:824-848 | a fresh inode and its record keep every count right |
| `Namespace.LinkKeeps` | kernel/fs.cpp:1245-1246 | a record and a count keep every count right exactly below 65535 |
| `Namespace.DeleteKeeps` | kernel/fs.cpp:1221-1231 | a record less and a link less, or the inode gone with its last record, keep every count right |
| `Namespace.RenameKeeps` | kernel/fs.cpp:1263-1264 | a record more and one less for the same inode keep every count right |
| `Fsck.Check` | kernel/fs.cpp:872-986 | without repair the result is 0 exactly for a volume that passes, whatever memory there is for directories; with repair nothing is found exactly if it passes and no bit is stale, and the result is then 0 |
| `Fsck.CheckSectors` | kernel/fs.cpp:886-906 | no error exactly if all sectors of the file are on the disk, in use, different, and not marked before |
| `Fsck.CheckDir` | kernel/fs.cpp:911-947 | no error exactly if the size fits the sectors and every live record that was read names an inode in use; the counts are those of the records read |
| `Fsck.CheckLinks` | kernel/fs.cpp:951-969 | no error exactly if every count but the root's is the number of records modulo 2^16, and not 0 |
| `Fsck.PassInRange` | kernel/fs.cpp:886-906 | a pass means that every part of every file is above the metadata, on the disk and in use |
| `Fsck.PassDistinct` | kernel/fs.cpp:897-898 | a pass means that no two parts of any files share a sector |
| `Fsck.PassNames` | kernel/fs.cpp:925-942 | a pass means that every live record of a directory that was read names an inode in use |
| `Fsck.ConsistentPasses` | kernel/fs.cpp:872-986 | a consistent volume passes exactly if no directory passed over for want of memory names an inode but the root |
| `Fsck.ConsistentNoStale` | kernel/fs.cpp:971-978 | a consistent volume has no bit that repair would clear |
| `Fsck.CheckNew` | kernel/fs.cpp:872-986 | a new volume passes, whatever memory there is |
| `Fsck.MissedRecord` | kernel/fs.cpp:922-923 | without memory for it, a directory whose record names a free inode passes |
| `Fsck.SoundInode` | kernel/fs.cpp:884-949 | on a volume that lost sectors or has wrong link counts the first loop finds nothing wrong |
| `Repair.FixLinks` | kernel/fs.cpp:951-969 | every inode but the root has the count of its records, or is cleared with its sectors if there is none; what is then in use without an owner is marked by nobody |
| `Repair.ClearStale` | kernel/fs.cpp:971-977 | from the base on exactly the marked bits stay set, and the result is how many were cleared |
| `Repair.Swept` | kernel/fs.cpp:971-977 | afterwards a bit is set exactly for sectors with one owner, if and only if no inode has an attribute block |
| `Repair.Repair` | kernel/fs.cpp:872-986 | on a volume that lost sectors or has wrong link counts the counts become those of the records, the bitmap is right exactly if no inode left has an attribute block, and the result is 0 exactly if nothing was wrong |
| `Repair.RepairedPasses` | kernel/fs.cpp:951-969 | the repaired volume passes exactly if no inode that was cleared named another than the root |
| `Repair.RepairThenCheck` | kernel/fs.cpp:872-988 | after a repair the volume is balanced; the next check returns 0, and all counts are right, exactly if no inode that was cleared named another than the root |
| `Repair.XattrVolume` | kernel/fs.cpp:907-910 | a sound volume whose root has an attribute block, and has it still after the second loop of a repair |
| `Repair.OrphanDirectory` | kernel/fs.cpp:956-962 | a sound volume with a directory that no record names and that names a file |
| `Blocks.LiveDisjoint` | kernel/heap.cpp:45-74 | two live blocks do not overlap, headers included |
| `Blocks.TakenKeeps` | kernel/heap.cpp:55-68 | a split keeps the arena filled and adds one live block of enough bytes |
| `Blocks.TakenNormal` | kernel/heap.cpp:55-68 | a split leaves no two neighbours both free |
| `Blocks.CoalescedKeeps` | kernel/heap.cpp:31-43 | coalescing keeps the arena filled and the live blocks as they were |
| `Blocks.CoalescedNormal` | kernel/heap.cpp:31-43 | afterwards no two neighbours are both free |
| `Blocks.LocalIsWhole` | user/lib/stdlib.c:47-63 | merging around the freed block gives the same list as coalescing the whole heap |
| `Blocks.AllFree` | kernel/heap.cpp:31-43 | with nothing live and no free neighbours there is one block, the initial one |
| `Arena.ChainReplace` | kernel/heap.cpp:55-68 | new headers for a stretch of the same length keep the header chain a list of blocks |
| `Arena.PayloadsKept` | kernel/heap.cpp:31-43 | writes inside free stretches leave every live payload alone |
| `Heap.Heap.constructor` | kernel/heap.cpp:22-29 | one free block fills the arena |
| `Heap.Heap.FindFit` | kernel/heap.cpp:53-72 | the first free block that is big enough, or none; the step guard never fires |
| `Heap.Heap.KernelMalloc` | kernel/heap.cpp:45-74 | a new live block of at least the size, disjoint from the others, whose payloads are as they were; 0 exactly if the size is 0 or no free block fits |
| `Heap.Heap.UserMalloc` | user/lib/stdlib.c:24-45 | likewise for the size rounded in 32 bits; the block is big enough exactly for sizes up to 0xFFFFFFF0 |
| `Heap.MallocWraps` | user/lib/stdlib.c:24-27 | a request for 2^32 - 1 bytes gets a small block |
| `Heap.Heap.CoalesceAll` | kernel/heap.cpp:31-43 | the loop over headers computes the coalesced list and leaves live payloads alone |
| `Heap.Heap.KernelFree` | kernel/heap.cpp:76-83 | the block is no longer live, no two neighbours are free, other payloads are as they were; pointers outside the arena are ignored |
| `Heap.Heap.UserFree` | user/lib/stdlib.c:47-63 | likewise, with the list the same as after coalescing everything |
| `Heap.Heap.KernelRealloc` | kernel/heap.cpp:94-109 | the block stays, or moves with its contents, or nothing changes; every other payload is as it was |
| `Heap.Heap.Stats` | kernel/heap.cpp:112-125 | the free and used bytes are those of the blocks, and add up to the arena; the step guard never fires |
| `Heap.BytesConserved` | kernel/heap.cpp:112-125 | free and used bytes with their headers fill the arena |
| `Procs.Kernel.constructor` | kernel/sched/task.cpp:575-618 | the boot task alone, with no slot, no descriptor and no lost reference |
| `Procs.Kernel.SlotAlloc` | kernel/sched/task.cpp:166-176 | a slot that no task holds; -1 exactly if every slot is held |
| `Procs.Kernel.ReleaseSlot` | kernel/sched/task.cpp:194-197 | the count goes down with the holder |
| `Procs.SlotCountFits` | kernel/sched/task.cpp:163 | the 8-bit slot counts never wrap |
| `Procs.Kernel.FdAlloc` | kernel/sched/task.cpp:817-828 | the first free descriptor; if there is none the reference is lost |
| `Procs.Kernel.FdClose` | kernel/sched/task.cpp:830-851 | the descriptor and its reference go together |
| `Procs.Kernel.CloseAll` | kernel/sched/task.cpp:853-873 | every descriptor of the task goes with its reference |
| `Procs.Kernel.PipeCreate` | kernel/pipe.cpp:16-28 | the pipe was not in use, so no descriptor names it; -1 exactly if all are in use |
| `Procs.Kernel.SysPipe` | kernel/syscall.cpp:458-470 | two new descriptors on a free pipe; success exactly if there is one, the task has two free descriptors and the copy to the caller works; a reference is lost for each descriptor it did not get, and if only the copy fails both descriptors stay |
| `Procs.LosePipe` | kernel/syscall.cpp:458-463 | with a full table both references are lost and the pipe is in use with no descriptor |
| `Procs.LostStaysUsed` | kernel/pipe.cpp:67-76 | in every valid state a pipe with a lost reference is in use |
| `Procs.Run` | kernel/pipe.cpp:16-82 | over every run of calls and switches of tasks all counts stay right, no lost reference comes back, and a pipe with one is in use at the end |
| `Procs.Kernel.Dup2` | kernel/sched/task.cpp:913-937 | the new descriptor is a copy with a reference of its own, and what was there is closed; exactly for pipe ends and terminals in range |
| `Procs.Kernel.Cleanup` | kernel/sched/task.cpp:109-131 | the task's descriptors and slot are given back, and nothing else changes |
| `Procs.Kernel.SlotClear` | kernel/sched/task.cpp:364-391 | the task is unused; exactly the references of task 0, if it was that, are lost |
| `Procs.Kernel.AllocTask` | kernel/sched/task.cpp:393-401 | the first unused or zombie task, cleared; -1 exactly if all are alive; exactly the references of task 0, if it was that, are lost |
| `Procs.Kernel.Spawn` | kernel/sched/task.cpp:199-272 | the new task has a slot no other task holds, and no descriptor; success exactly if a task is not alive, a slot is free, there is memory and the image loads; every failure keeps all counts right and every living task as it was |
| `Procs.Kernel.Exec` | kernel/sched/task.cpp:328-336 | the task moves to a slot nobody held and keeps all else; failure exactly if every slot is held |
| `Procs.Kernel.Fork` | kernel/sched/task.cpp:464-532 | the child has the parent's slot and descriptors with a reference each; success exactly if there is memory and a task is not alive; no living task changes |
| `Procs.Kernel.Retire` | kernel/sched/task.cpp:1125-1137 | a zombie holds no slot and no descriptor, but for task 0 |
| `Procs.Kernel.KillChildren` | kernel/sched/task.cpp:1081-1096 | exactly descendants retire, and of those that do no child but the current task is left alive |
| `Procs.Kernel.Kill` | kernel/sched/task.cpp:1098-1123 | the task and its descendants retire, never task 0 or an idle task, and nobody else is touched |
| `Procs.Kernel.SetIdle` | kernel/sched/task.cpp:710-720 | the task with the number is idle, or there is none |
| `Procs.RefKeeps` | kernel/pipe.cpp:78-82 | taking a reference for a descriptor to come keeps the counts right |
| `Procs.CloseKeeps` | kernel/pipe.cpp:67-76 | giving back a reference whose descriptor is gone keeps the counts right, and frees the pipe with the last |
| `Procs.CreateKeeps` | kernel/pipe.cpp:16-28 | a pipe that is not in use has no descriptor and may be set up anew |
| `Paging.Exclusive` | kernel/mm/paging.cpp:233-331 | two user pages of live directories are never in the same pool frame |
| `Paging.ReachedByIdentity` | kernel/mm/paging.cpp:271-273 | the address of a user page's frame leads to that frame, so the kernel can copy it |
| `Paging.Spaces.constructor` | kernel/mm/paging.cpp:136-158 | no live directory and the pool free |
| `Paging.Spaces.FrameAlloc` | kernel/mm/paging.cpp:233-243 | a frame that was free; none exactly if all are in use |
| `Paging.Spaces.CreateDir` | kernel/mm/paging.cpp:199-213 | a free directory becomes the identity map without user pages; none exactly if all are live |
| `Paging.Spaces.Privatize` | kernel/mm/paging.cpp:281-298 | the entry gets a frame of its own with the same contents, or already had one, or nothing changes |
| `Paging.Spaces.FreePde` | kernel/mm/paging.cpp:300-312 | the frame goes back to the pool exactly if it was from there |
| `Paging.Spaces.FreeDir` | kernel/mm/paging.cpp:314-331 | the directory dies and exactly its frames are free |
| `Paging.Spaces.CloneDeep` | kernel/mm/paging.cpp:254-277 | each user page is in a frame that was free with the same contents, every live directory and every frame in use is as it was; failure exactly if all directories are live or there are fewer free frames than user pages, and then the pool is as it was |
| `Paging.CloneEqual` | kernel/mm/paging.cpp:254-277 | after the copy both directories show the same bytes at every user address |
| `Paging.CloneIsolated` | kernel/mm/paging.cpp:254-277 | after the copy, for every run of writes through the two in any order, each shows what it would show had nothing been written through the other |
| `Paging.LiveIsolated` | kernel/mm/paging.cpp:233-331 | in every state a write through a user page in a pool frame is seen through no other live directory |
| `Sched.PickCloser` | kernel/sched/task.cpp:939-959 | a pick of another task brings a ready task strictly nearer in cyclic order |
| `Sched.BoundedBypass` | kernel/sched/task.cpp:939-959 | a task that stays ready is passed over in fewer picks than its distance, at most TASK_MAX |
| `Sched.Scheduler.PickNext` | kernel/sched/task.cpp:939-959 | the nearest ready task that is not idle, an idle one only if there is no other, none exactly if nothing is ready |
| `Sched.Scheduler.WakeSleepers` | kernel/sched/task.cpp:561-573 | exactly the sleepers whose time has come are ready, by the signed difference of clocks |
| `Sched.Scheduler.Yield` | kernel/sched/task.cpp:983-995 | the picked task runs and no other, the current one goes on if nothing else is ready |
| `Sched.Scheduler.Block` | kernel/sched/task.cpp:1028-1051 | the task is blocked until another runs or its time comes; at most one task runs |
| `Sched.Scheduler.Exit` | kernel/sched/task.cpp:1125-1158 | the task is a zombie and the picked task runs, or the boot task |
| `Pipe.Pipe.Read` | kernel/pipe.cpp:30-47 | under every schedule the bytes are the next of the stream, unbroken; a read of more than 0 returns 0 only if the ring is empty and no writer is left |
| `Pipe.Pipe.Write` | kernel/pipe.cpp:49-65 | under every schedule the data enters the stream in order and once; -1 only if no reader is left |
| `Pipe.Pipe.Yield` | kernel/pipe.cpp:39 | any number of stretches of any other tasks keep what was delivered a prefix of what was accepted |
| `Ssh.Encrypt` | user/sshd.c:136-159 | the bytes are the hidden length, the hidden body and the tag of both |
| `Ssh.SameTag` | user/sshd.c:174-176 | or-ing all differences is zero exactly for equal tags |
| `Ssh.Decrypt` | user/sshd.c:161-179 | the body comes back exactly if the tag is that of the bytes before it |
| `Ssh.PadLen` | user/sshd.c:183-192 | at least 4 and at most 11 bytes, up to a multiple of 8 |
| `Ssh.PacketShape` | user/sshd.c:181-212 | every packet has at least 4 bytes of padding and is a multiple of 8 long, without length and tag under encryption (section 6 of RFC 4253) |
| `Ssh.FitsIsLimit` | user/sshd.c:229 | the receiver's limit on packets is 1991 bytes of payload in the clear and 1995 under encryption |
| `Ssh.LongPacketStops` | user/sshd.c:229 | a packet of 1992 payload bytes can be sent in the clear and is not received |
| `Ssh.Session.Send` | user/sshd.c:181-212 | the bytes are the packet of the payload under the session's cover; the sequence number counts the packets that went out |
| `Ssh.Session.Recv` | user/sshd.c:214-241 | the payload, exactly if the length is in range, the bytes are there, the tag is right and the padding fits; the sequence number counts the packets that opened |
| `Ssh.StreamRoundTrip` | user/sshd.c:128-241 | for every list of messages and covers the payloads come back unchanged and in order and what follows is left alone, exactly if every payload fits |
| `Ssh.ConnectionRoundTrip` | user/sshd.c:128-241 | the same for the covers of one key from any sequence number, with the switch to encryption after any number of packets |
| `Ssh.Deliver` | user/sshd.c:181-241 | two sessions with matching key and number: what one sends the other reads, exactly if every payload fits |

## Left out

- Hardware and input and output: ports, interrupts, page-table loads, `sched_switch`, drivers. The disk is a map from sector numbers to sectors, and the clock a parameter.
- The shell, the editors, the HTTP and FTP servers, and the kernel's own tests: user interface and plumbing.
- Physical durability of the journal: each `d_write` is one atomic step in order. The write-back cache flushes in slot order, and only the first 30 sectors of the inode table and one of the bitmap are journaled.
- Recovery as a part of `fs_init`, which loads inodes and bitmap before it recovers.
- Disk errors in the filesystem model: `d_read` and `d_write` succeed, except in the cache and the journal, where they may fail. Memory for a directory blob is there, except in the checker and in shrinking.
- Path walking, symbolic links, permissions, modes, times, quotas and the inode counter: operations take the parent directory and the name, as user 0.
- Tree shape: a directory may be renamed into its own subtree.
- What a file that grows has beyond its old bytes: new sectors are not cleared.
- Files.Fs.GrowSectors: which extent the next run continues depends on the free sectors of the volume, so that over many runs the condition on the extents is enough and not always needed; for one run `Growth.JoinKeepsMap` is exact.
- Files.Fs.WriteFile: the file is there; `Namespace.Create` makes it.
- Journal.Volume.Recover: its reads and writes succeed.
- Namespace.Create: says nothing of the names when the parent directory grows beyond 64 KiB; `Dirents.FoundIffFits` says what happens then.
- Namespace.Rename: likewise beyond 64 KiB, and says nothing of a rename that fails after the new record was written.
- Namespace.Link: likewise beyond 64 KiB.
- Namespace.Delete: says nothing of the names when writing the directory or saving the metadata fails.
- Fsck.Check: `Fsck.ConsistentPasses` is for volumes without attribute blocks, which the checker does not mark.
- Repair.Repair: on volumes whose extents and records are sound, so that the repairs of the first loop (bits, directory sizes, records) have nothing to do; the save of the metadata at the end is not part of it.
- Repair.RepairThenCheck: with memory for every directory, and fewer than 65536 records for each inode.
- Files.Fs.Persist: the sectors of metadata it writes are arbitrary ones below the allocation base.
- Files.Fs.SetXattr: the record is given; its layout and the case of a record that is too long are not modelled.
- Shallow `paging_clone_dir`, `paging_free_user_frames`, `paging_clear_user_pde` and the kernel-thread `task_fork` do not keep the ownership invariants and are not modelled; entries of user pages are those below 20.
- A page directory entry has fields instead of bits.
- References to terminals and open files, `vfs_dup`, sockets, and the waiting of a parent for its child.
- `calloc`, the user library's `realloc`, and the alignment of payloads, which the 12-byte header rules out.
- The AEAD construction of section 2.8 of RFC 8439, SHA, the group law of the curves, the primality of 2^255 - 19, and cryptographic strength.
- Ssh.Session.Send: callers keep to the 2048 bytes of its buffer, which it does not check.
- SSH key exchange and authentication: keys and sequence numbers of the two ends are equal by assumption, and both switch to encryption at the same packet.
