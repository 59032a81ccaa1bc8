# Verified model of the VMDK converter

This project models the conversion core of `vmdkconvert`: the writer of
stream-optimized VMDK files and the sparse reader in `vmdk/sparse.c`, and the copy loop
and the descriptor parser in `vmdk/mkdisk.c`.  A disk is cut into grains of 128 sectors;
every grain that is not all zeros is deflated, written to its own run of sectors, and
named by an entry of the grain table; close writes an end marker, directory and tables, a
descriptor, and a header in two forms with a sync between them.

`dafny verify dfyconfig.toml` checks everything.

| file | models |
|---|---|
| `Bytes.dfy`, `Bits.dfy` | little-endian words, `pwrite`/`pread` on a file as a byte sequence, the bit masks of the C code |
| `Header.dfy` | the extent header on disk and the grain-table geometry derived from it |
| `Grain.dfy` | one stored grain: its record on disk, and reading it back |
| `Layout.dfy` | grain extents handed out one behind the other, and the placement they must have when ordered |
| `Journal.dfy` | a file as a log of writes and syncs, and everything a crash can leave of it |
| `Pool.dfy`, `PoolRuns.dfy` | the parallel copy as a state machine, one step per stretch of code between two lock operations |
| `Reorder.dfy`, `Target.dfy` | rewriting the grains in order; creating and closing a target |
| `Writer.dfy`, `Session.dfy` | the buffered sequential writer as a class, and whole sessions of a client of it |
| `Coalesce.dfy`, `Reader.dfy` | the coalescing reader, opening, random-access reads |
| `Format.dfy`, `TargetFile.dfy` | the file format by byte positions and literal values: what may be read, and what is written |
| `Copy.dfy` | enumeration of the data, used space, conversion back to a flat file |
| `Reopen.dfy`, `RoundTrip.dfy` | opening what close has finished; the end-to-end theorems |
| `Descriptor.dfy`, `DescriptorText.dfy` | printer and parser of the descriptor text; what its lines, digits and white space mean |

The loops and objects of the C code are methods and classes proved against a function or
a state that the theorems are then about (`SparsePread` against `ReadRange`,
`SequentialWriter` against the disk `model` that its calls describe, `RewriteGrains`
against `Rewrite`, and so on).  The functions that encode, decode, place and print are tied
in turn to `Format`, `TargetFile` and `DescriptorText`, which use none of them: bytes at
numbered positions, literal constants, and the numbers that digits stand for.

## What is assumed

* zlib is a pair of pure functions, `inflate(deflate(x)) == x` for inputs of up to one
  grain, with output no larger than the reader and the reorderer accept
  (`Grain.Lossless`; `Grain.StoredIsLossless` shows that the assumption can be met).
* The grains of a target can be counted in 32 bits, which a comment of the code asks for
  (`vmdk/sparse.c:300`), and the sectors of those grains that have to be stored can be
  numbered in 32 bits (`RoundTrip.ContentFits`).  The code checks neither.  The second
  depends on the content: it holds for every source of up to 2,000,000,000,000 bytes
  (`RoundTrip.SmallSourceFits`, `Target.TwoTerabytesFit`) and for a source of zeros of any
  size (`RoundTrip.ZeroSourceFits`).  The theorems about status, locks and termination of
  the parallel copy do not need it.
* In the theorems about reopening: the finished file does not happen to look as if it
  ended in a footer (`ReadFooter(f).None?`).  The writer writes none, but compressed bytes
  in the third last sector could look like one.  For that the last stored grain must take
  three sectors or more (`Reopen.FooterNeedsThree`, `RoundTrip.SmallGrainsNoFooter`).
* In the theorems about crashes: the target starts as an empty file, and of the writes
  since the last sync any mixture of bytes may have reached the disk.
* Input/output failures are a number of operations that still succeed (`quota`), with a
  flag that says whether one has failed (`faulted`), an event of a step (`fault`), or a
  failed read; a failing write may leave any part of its data.
  The descriptor's random words and the tools version are parameters.

## Where the code does not do what one would expect

Each case is kept as the code has it, with a theorem that says exactly when it matters.

* A source that is not a whole number of sectors: the last grain is stored short and the
  reader then rejects it, and `isZeroed` does not look at up to seven trailing bytes.  The
  source comes back if and only if its size is a whole number of sectors or its last grain
  is all zeros (`RoundTrip.CopyRoundTrip`); `RoundTrip.EightBytesLost` is a source that does
  not.
* `SparseNextData` at the capacity of a disk whose partial last grain is stored returns an
  empty run for ever (`Copy.EnumerationEndsIff`), so converting such a disk back copies
  everything and then does not end (`Copy.CopyDisk`, `RoundTrip.ConvertBackEnds`).
* A FAILED status written between a worker's status check and its DONE write is
  overwritten, and the copy reports success (`PoolRuns.EscapesIff`, `PoolRuns.LostWindow`,
  `PoolRuns.EscapingRun`).  With check and write in one critical section it cannot happen
  (`PoolRuns.FusedSuccess`).
* `SparsePread` keeps the grain number in 32 bits; a position 2^32 grains further is read
  again instead of being past the end (`Reader.ReadsAskedRangeIff`, `Reader.FarReadWraps`).
* An empty request makes the coalescing reader forget the pending one
  (`Coalesce.EmptyRequestDropsPending`); opening never makes one.
* The descriptor parser doubles its buffer at most once for an entry; an entry that is
  too long for that does not fit (`Descriptor.OverrunIff`, `Descriptor.FitsIff`).  So the
  program cannot parse every descriptor that it prints: it can if and only if the pairs
  take up to 2,047 characters as JSON (`Descriptor.PrintedFitsIff`).  Tools versions of up
  to 1,000 characters are always fine and longer than 2,048 never
  (`Descriptor.ToolsVersionDecides`), although much longer ones fit the sectors of the
  file (`Descriptor.LongVersionOverruns`).

## Model

| member | source | states |
|---|---|---|
| `Bits.MaskIsRemainder` | vmdk/sparse.c:278-295 | for every value that `isPow2` accepts, masking with it less one is the remainder |
| `Bits.RoundUpMask` | vmdk/sparse.c:891-897 | the mask that rounds a length up to sectors is a ceiling |
| `Bits.MaskSector` | vmdk/sparse.c:472-477 | the mask that finds the padding of a record is the remainder |
| `Header.HeaderRoundTrip` | vmdk/sparse.c:144-221 | decoding an encoded header gives back every field exactly for the final form with a supported version and supported flags; the temporary lowercase form is always rejected |
| `Header.FlagMasks` | vmdk/sparse.c:161-178 | the flag tests of the model are the masks of the code |
| `Header.CapacityFacts` | vmdk/sparse.c:294-299 | the grains tile the capacity: full grains plus the last partial one are all of it, and the mask is the remainder |
| `Header.GeometryFacts` | vmdk/sparse.c:298-317 | every grain has an entry inside the tables, every table one inside the directory, a table fills its sectors exactly, and none of the 32-bit counts wraps |
| `Format.DecodeIff` | vmdk/sparse.c:144-190 | for any sector: it is accepted exactly when it has the magic, a version up to 3, flags 16 and 17 not the second alone and none above, and, if flag 0 is set, the bytes 10, 32, 13, 10 at 73; every field is then the little-endian word at its place |
| `Format.HeaderBytes` | vmdk/sparse.c:192-221 | every byte of a header that is written, in both forms |
| `Format.SizesIff` | vmdk/sparse.c:285-293 | geometry is taken exactly for grains of 1, 2, 4 to 128 sectors and tables of a power of two of at least 128 entries |
| `Grain.FetchRecord` | vmdk/sparse.c:432-483 | the reader gets back, at its own address, the data whose record was written there |
| `Grain.Relocate` | vmdk/sparse.c:857-912 | a stored grain means the same wherever its bytes are copied |
| `Format.RecordBytesAre` | vmdk/sparse.c:432-483 | every byte of a record that is written: address, size, data, zeros to the end of the sector |
| `Format.FetchIff` | vmdk/sparse.c:1436-1474 | for files of any origin, with or without addresses: fetching a grain gives the data exactly when its sectors are in the file and not too many, the address matches, and the bytes behind the header inflate to it |
| `Format.LastSectorWraps` | vmdk/sparse.c:1456-1463 | the rest of a grain at sector 2^32 - 1 is read from the start of the file |
| `Layout.ExtentsDisjoint` | vmdk/sparse.c:735-740 | extents taken from the cursor are pairwise disjoint and inside the area from overHead to the cursor |
| `Layout.CompleteExtend` | vmdk/sparse.c:519-529 | one more grain at the cursor keeps a complete image complete |
| `Layout.TopAtMostCanon` | vmdk/sparse.c:735-740 | whichever grains have been given sectors so far, and in whatever order, they take no more sectors than all grains to be stored do |
| `Layout.OrderedIsCanonical` | vmdk/sparse.c:1514-1549 | an image whose table the order check accepts already has every grain directly behind the stored grains before it |
| `Journal.NoHeaderRejected` | vmdk/sparse.c:1692-1697 | before close writes a header no crash leaves a file that passes the magic check |
| `Journal.LostWrites` | vmdk/sparse.c:795-823 | the crash images considered include every way of losing or tearing writes since the last sync |
| `Journal.CommitPoint` | vmdk/sparse.c:795-823 | whatever had been issued of close and whatever part of the unsynced writes had reached the disk, a file that passes the magic check is the finished file byte for byte |
| `Journal.TornCommit` | vmdk/sparse.c:795-823 | the same when a write of close fails and leaves any part of its data: only the final header can be that write |
| `Pool.InvReachable` | vmdk/sparse.c:656-762 | in every state of every run: locks are held by exactly the threads inside them, the read position is a whole number of grains or the end, each grain below it is claimed once, extents tile the area, and each table entry names its own grain's extent |
| `Pool.LocksReachable` | vmdk/sparse.c:671-762 | the part about locks, for every job whatever its size |
| `Pool.ClaimsReachable` | vmdk/sparse.c:681-730 | the part about claims, whatever has to be stored |
| `Pool.FinishedIsComplete` | vmdk/sparse.c:1118-1145 | a pool that ended with everything claimed and nothing lost has stored exactly the non-zero grains of the source |
| `Pool.CursorFits` | vmdk/sparse.c:735-740 | the 32-bit sector cursor does not wrap when the grains to be stored fit, whichever of them have been stored so far |
| `PoolRuns.CleanRunCompletes` | vmdk/sparse.c:1065-1145 | every failure-free interleaving, with any number of threads, reports the size of the source and leaves a complete image of it |
| `PoolRuns.FailureKept` | vmdk/sparse.c:756-759 | unless a DONE write lands on FAILED, a failed worker is still reported at the end |
| `PoolRuns.ReportedSuccess` | vmdk/sparse.c:1118-1130 | a reported success without such an overwrite means that no worker failed and the image is complete |
| `PoolRuns.CreationFailed` | vmdk/sparse.c:1099-1112 | when a thread could not be created the status is FAILED once the others are joined, unless a DONE write landed on it |
| `PoolRuns.FewerWorkers` | vmdk/sparse.c:1124-1127 | without all its workers a copy is never reported as done |
| `PoolRuns.StopsEarly` | vmdk/sparse.c:681-693 | once FAILED is written and not overwritten at most one more grain is claimed, whatever the number of threads |
| `PoolRuns.FusedSuccess` | vmdk/sparse.c:689-705 | with status check and DONE write as one critical section, a reported success always means that |
| `PoolRuns.EscapesIff` | vmdk/sparse.c:689-705 | success is reported despite a failed worker exactly when a DONE write landed on FAILED and no worker failed after it |
| `PoolRuns.LostWindow` | vmdk/sparse.c:695-704 | that takes a worker which passed the status check before FAILED was written and has been between check and write ever since |
| `PoolRuns.EscapingRun` | vmdk/sparse.c:695-704 | for every one-grain source there is such a run with two threads: the whole size is reported, nothing was written |
| `PoolRuns.Progress` | vmdk/sparse.c:681-762 | no deadlock: until the pool has ended some thread can step without a failure |
| `PoolRuns.RunsEnd` | vmdk/sparse.c:681-762 | every run, under any schedule and any failures, ends within ten steps per source byte, eight per thread and three |
| `PoolRuns.RunToEnd` | vmdk/sparse.c:681-762 | every run can be carried on to the end without further failures |
| `PoolRuns.CleanRunExists` | vmdk/sparse.c:1065-1145 | every job has a failure-free run |
| `Reorder.AreGrainsOrdered` | vmdk/sparse.c:1514-1549 | the scan that compares each stored entry with the one before it decides whether all of them are in order |
| `Reorder.RewriteGrains` | vmdk/sparse.c:825-927 | the in-place loop computes the new table, the new file's writes and the cursor of the specification; it fails exactly when that does or a write of the new file fails |
| `Reorder.RewriteIff` | vmdk/sparse.c:845-899 | rewriting gives up exactly when a stored grain cannot be read or is too large |
| `Reorder.RewriteMoves` | vmdk/sparse.c:845-913 | every grain's bytes are in the new file where the new entry says, behind all earlier ones; empty and zero entries are kept; the cursor ends exactly behind the stored records |
| `Reorder.RewritePreserves` | vmdk/sparse.c:825-927 | for any image: every grain read through the new table and file is what the old ones give, and the new entries increase strictly from overHead |
| `Target.TwoTerabytesFit` | vmdk/sparse.c:300 | the sector numbers of a target of up to 2,000,000,000,000 bytes fit 32 bits, even if nothing compresses |
| `Target.CreateOk` | vmdk/sparse.c:1242-1300 | a new target of any size whose grains can be counted in 32 bits has a sound layout: header, descriptor, directory, tables and grain area follow each other |
| `Target.AnyContentFits` | vmdk/sparse.c:300 | where every grain has room uncompressed, whatever is stored fits |
| `Target.PrefillGD` | vmdk/sparse.c:321-332 | the loop fills the directory with the places of the tables and returns the sector behind them |
| `Target.ReorderedWritten` | vmdk/sparse.c:929-1063 | reordering a written image succeeds and gives the canonical table and the same cursor |
| `Target.PlacedCanonical` | vmdk/sparse.c:1197-1204 | with reordering on, an image found ordered and one that had to be rewritten both end in the canonical table; the cursor does not change either way |
| `Target.ClosedHas` | vmdk/sparse.c:765-823 | each of close's own writes survives the later ones |
| `Target.ClosedRegion` | vmdk/sparse.c:773-793 | the sectors between header and directory hold the descriptor and zeros |
| `Target.FinishWritten` | vmdk/sparse.c:1189-1229 | when no write fails close succeeds on any written image, every part of the file is where the header says, and close's operations come last |
| `TargetFile.HeaderIs` | vmdk/sparse.c:1254-1290 | the header of a target, each field as a number: version 3, flags 0x30001, deflate, clean, capacity in sectors, 128 sectors to a grain, 512 entries to a table, descriptor in sectors 1 to 20, directory at 21, no redundant one |
| `TargetFile.FinishedIsTarget` | vmdk/sparse.c:1189-1229 | a finished file, byte for byte: header, descriptor, directory, tables, each stored grain where its entry says, and the end marker |
| `Writer.SequentialWriter.constructor` | vmdk/sparse.c:1242-1300 | a new writer stands for a disk of zeros |
| `Writer.SequentialWriter.FillGrain` | vmdk/sparse.c:393-430 | exactly when it fails, and which bytes of the buffer become zero |
| `Writer.SequentialWriter.WriteGrain` | vmdk/sparse.c:452-483 | the table entry, the record written and its size; -1 without any effect for a grain behind the table |
| `Writer.SequentialWriter.FlushGrain` | vmdk/sparse.c:485-531 | on success everything written so far is in the stored grains; it fails only when the file system does or for a grain behind the disk or already stored |
| `Writer.SequentialWriter.PrepareGrain` | vmdk/sparse.c:533-555 | changing the grain flushes the old one and keeps the disk |
| `Writer.SequentialWriter.Pwrite` | vmdk/sparse.c:557-605 | on success the disk is the old one with the data laid over it, whatever the position; a failure means a failed operation, a grain behind the disk or one already stored; sequential writes inside the disk fail only when an operation does, and with one operation for each grain none does |
| `Writer.SequentialWriter.ReorderGrains` | vmdk/sparse.c:929-1063 | on success table, cursor and file are those of the reordered image; it fails only when creating, writing, closing, renaming or reopening does, or a record cannot be read |
| `Writer.SequentialWriter.WriteEnd` | vmdk/sparse.c:1205-1223 | on success exactly the eight closing operations have been issued, in their order |
| `Writer.SequentialWriter.Close` | vmdk/sparse.c:1189-1229 | when it and all calls before it succeed and the stored grains fit, the file is finished and its grains hold everything written; canonical with reordering on; it fails only when an operation does or the last grain cannot be stored, and a bound on the operations it needs |
| `Writer.IsZeroed` | vmdk/sparse.c:378-391 | the word loop finds out whether all whole 64-bit words are zero |
| `Writer.FillAgrees` | vmdk/sparse.c:412-428 | filling the gaps of the buffered grain with zeros does not change the disk |
| `Writer.DropAgrees` | vmdk/sparse.c:516-530 | dropping a grain that isZeroed accepts does not either: the bytes it does not look at are behind the capacity |
| `Writer.CopyAgrees` | vmdk/sparse.c:588-598 | copying the new bytes in and widening the valid range is the overlay of the disk |
| `Writer.WrittenExtend` | vmdk/sparse.c:519-529 | storing a grain that has no entry keeps the image sound, and the cursor does not wrap |
| `Session.WriteDisk` | vmdk/sparse.c:557-605 | for any sequence of writes, in any order, overlapping or not: if all calls and the close succeed and the stored grains fit, the disk reads back as the writes laid over zeros in order; for writes inside the disk the stored grains are those that the parallel copy stores; sequential writes of a disk that fits succeed unless an operation fails, and 2 operations for each grain and 14 are enough |
| `Session.LastWriteWins` | vmdk/sparse.c:588-598 | a byte of that disk is the one of the last write that covers it |
| `Coalesce.CoalescedIsEager` | vmdk/sparse.c:1302-1343 | queueing any non-empty requests and a final exec gives what performing each at once in order gives, failures included |
| `Coalesce.EmptyRequestDropsPending` | vmdk/sparse.c:1323-1343 | the exception: behind any non-empty requests an empty one discards the pending read, and it matters exactly when that read would have changed memory or failed |
| `Coalesce.CoalescedPreader.Exec` | vmdk/sparse.c:1317-1321 | performs exactly the pending read |
| `Coalesce.CoalescedPreader.Pread` | vmdk/sparse.c:1323-1343 | the new state of queue and memory, or the failure |
| `Reader.TablesLoad` | vmdk/sparse.c:1718-1732 | opening loads every table with a non-empty directory entry from where it says, leaves the others zero, and fails exactly when one is not in the file |
| `Reader.ReadTables` | vmdk/sparse.c:1718-1732 | the directory walk through the coalescing reader does that |
| `Reader.SparseOpen` | vmdk/sparse.c:1678-1737 | the imperative opener is the opening function |
| `Format.OpenIff` | vmdk/sparse.c:1678-1737 | which files open, by their bytes |
| `Format.OpenedHeader` | vmdk/sparse.c:1629-1710 | the header that counts is that of the footer when the third last sector is a footer marker and the one behind it has the magic, and that of the first sector otherwise |
| `Format.OpenedTable` | vmdk/sparse.c:1715-1732 | each entry of the table in memory is the word at its place in the table that the directory in the file names, or zero |
| `Format.OpenedDescriptor` | vmdk/sparse.c:1599-1624 | which bytes are kept as descriptor, and when there is none |
| `Reader.Open` | vmdk/sparse.c:1678-1737 | whatever it accepts has a sound geometry |
| `Reader.PositionInGrain` | vmdk/sparse.c:1392-1410 | every byte below the capacity is in a grain with an entry, within its length |
| `Reader.PartIsLookup` | vmdk/sparse.c:1412-1490 | one iteration of the read loop is the per-byte lookup of its range |
| `Reader.SparsePread` | vmdk/sparse.c:1392-1493 | for compressed and plain extents of any grain size: the bytes of the range clipped at the capacity, from where the 32-bit grain number puts it, or -1 exactly when one of them cannot be read; the rest of the buffer is unchanged |
| `Format.PlainByte` | vmdk/sparse.c:1475-1480 | a byte of an uncompressed grain is the one of the file at its own distance from the start of the sector in the entry, and unreadable exactly when that is behind the end |
| `Format.PlainGrain` | vmdk/sparse.c:1475-1480 | reading an uncompressed grain returns the bytes that lie there |
| `Format.CompressedGrain` | vmdk/sparse.c:1436-1474 | reading a compressed grain of any file returns what its bytes inflate to, and fails when that is short or nothing |
| `Format.EmptyGrain` | vmdk/sparse.c:1428-1433 | entries 0 and 1 read as zeros |
| `Reader.ReadSplit` | vmdk/sparse.c:1392-1493 | reading a + b bytes is reading a bytes and then b bytes behind them, exactly when the grain number does not wrap between the two starts or that does not matter |
| `Reader.WrapIff` | vmdk/sparse.c:1392-1404 | a read starts where it was asked to exactly while the grain number fits 32 bits |
| `Reader.ReadsAskedRangeIff` | vmdk/sparse.c:1392-1493 | a call returns the range that was asked for exactly when it is empty, the grain number fits 32 bits, or the wrapped start is past the capacity too |
| `Reader.InsideIsExact` | vmdk/sparse.c:1392-1404 | every position below the capacity is read where it is |
| `Reader.FarReadWraps` | vmdk/sparse.c:1392-1404 | 2^32 grains further the same bytes are read again |
| `Copy.SparseNextData` | vmdk/sparse.c:1359-1390 | the loop returns the next run of the specification, or ENXIO |
| `Copy.NextRunExact` | vmdk/sparse.c:1359-1390 | below the capacity a call returns the next maximal run of data, and ENXIO exactly when there is none |
| `Copy.NextRunAtCapacity` | vmdk/sparse.c:1366-1386 | at the capacity it returns ENXIO, or the empty run when a partial last grain is stored |
| `Format.DataByte` | vmdk/sparse.c:1366-1380 | data is what has an entry, also 1 |
| `Copy.FarDataWraps` | vmdk/sparse.c:1362-1366 | 2^32 grains further the enumeration finds the same runs again |
| `Copy.EnumerationEndsIff` | vmdk/sparse.c:1359-1390 | the enumeration from 0 ends exactly when the capacity is whole grains or the partial last one is not stored; otherwise it repeats the empty run at the capacity for ever |
| `Copy.RunsAreData` | vmdk/sparse.c:1359-1390 | the runs are ascending, disjoint, non-empty and maximal, and their union is the bytes of the non-empty grains |
| `Copy.UsedSpace` | vmdk/mkdisk.c:416-422 | the number of bytes in non-empty grains, and whether the loop ends |
| `Copy.CopyData` | vmdk/mkdisk.c:43-72 | the chunks are invisible: on success the target has the source's range, and it fails only when the target does or a byte cannot be read |
| `Copy.CopyDisk` | vmdk/mkdisk.c:74-105 | on success the target is the content of the source byte for byte; it fails only when a byte cannot be read or an operation on the target fails, for which one operation for each byte and one more are always enough; and when it does not end |
| `Reopen.LoadAll` | vmdk/sparse.c:1718-1732 | reading the tables that the prefilled directory names puts the single table write back together |
| `Reopen.OpenFinished` | vmdk/sparse.c:1678-1737 | a finished file opens with the header, geometry and table of close |
| `Reopen.FooterNeedsThree` | vmdk/sparse.c:1629-1676 | a finished file can look as if it ended in a footer only when its last grain takes three sectors or more |
| `Reopen.LookupFinished` | vmdk/sparse.c:1420-1490 | every byte of the reopened disk is the stored grain's, or zero, or unreadable where a grain is stored short |
| `Reopen.DescriptorFound` | vmdk/sparse.c:1599-1624 | the reader gets the descriptor back, followed by zeros |
| `RoundTrip.CopyRoundTrip` | vmdk/sparse.c:656-762 | for every source whose stored grains fit, number of threads, failure-free interleaving and reorder setting: copy and close succeed, the file opens, everything before a partial last grain reads back, and all of it if and only if the size is whole sectors or the last grain is zeros |
| `RoundTrip.CopiedFile` | vmdk/sparse.c:1189-1229 | what every failure-free conversion leaves, byte for byte, and the header and table with which it opens |
| `RoundTrip.StoredIff` | vmdk/sparse.c:378-391 | in the reopened file a grain has an entry exactly when one of the whole 64-bit words of the source there is not zero; otherwise all of it reads as zeros, and a stored grain that is not whole sectors cannot be read |
| `RoundTrip.TailStoredIff` | vmdk/sparse.c:723-730 | the same for a partial last grain: a tail of one to seven bytes is never stored |
| `RoundTrip.EightBytesLost` | vmdk/sparse.c:1420-1490 | eight bytes that do not come back, with everything that the round trip assumes shown to hold at once |
| `RoundTrip.SmallSourceFits` | vmdk/sparse.c:300 | a source fits whatever its content when there is room for every grain uncompressed |
| `RoundTrip.ZeroSourceFits` | vmdk/sparse.c:300 | and whatever its size when there is nothing to store |
| `RoundTrip.SmallGrainsNoFooter` | vmdk/sparse.c:1629-1676 | the finished file has no footer when no grain takes three sectors and, if there is no grain at all, the descriptor leaves its last sector free |
| `RoundTrip.RestoredRead` | vmdk/sparse.c:1392-1493 | any call on a restored disk returns source bytes, clipped at the capacity, from where the 32-bit grain number puts it; those of the range asked for exactly when the cut does not matter |
| `RoundTrip.CanonicalOutput` | vmdk/sparse.c:1189-1229 | with reordering on, any two failure-free runs over a source leave the same table, cursor and bytes from the directory through the end marker |
| `RoundTrip.CopyCrash` | vmdk/sparse.c:656-762 | no crash during the copy, failing or not, leaves a file that opens |
| `RoundTrip.CloseCrash` | vmdk/sparse.c:1189-1229 | a file that opens after a crash during close is the finished file |
| `RoundTrip.CloseErrorCrash` | vmdk/sparse.c:1189-1229 | a file that opens after a crash of a close that a write error stopped is the finished file, and the failing write was the final header |
| `RoundTrip.ReorderCrash` | vmdk/sparse.c:929-1063 | no crash while grains are reordered leaves a file that opens, neither the old one nor the new one, the write in progress torn or not |
| `RoundTrip.ConvertBackEnds` | vmdk/mkdisk.c:74-105 | converting the target back comes to an end exactly when its last grain is whole or not stored |
| `RoundTrip.DescriptorRoundTrip` | vmdk/sparse.c:773-793 | the characters of a printed descriptor that fits its sectors stand in the file from byte 512 on; it comes back from the reopened disk as the same text and parses to its pairs |
| `Descriptor.ParseLine` | vmdk/mkdisk.c:181-216 | splitting, trimming and unquoting one line in place |
| `DescriptorText.PaddedLine` | vmdk/mkdisk.c:188-216 | exactly the six characters of isspace are taken away around key and value, and then one pair of quotes |
| `DescriptorText.SilentLine` | vmdk/mkdisk.c:180-219 | comments, lines without an equals sign and lines without a key say nothing |
| `Descriptor.AddPair` | vmdk/mkdisk.c:219-255 | what adding a pair makes of the buffer, and exactly when it does not fit |
| `DescriptorText.JsonText` | vmdk/mkdisk.c:238-253 | the text of an object with none, one or one more pair |
| `DescriptorText.BufferStep` | vmdk/mkdisk.c:155-236 | the first buffer has 1,024 bytes; when it is doubled, and when everything fits |
| `Descriptor.ParseDescriptor` | vmdk/mkdisk.c:147-266 | the pairs of all lines in order, as long as the buffer holds them |
| `Descriptor.OverrunIff` | vmdk/mkdisk.c:220-236 | a pair does not fit exactly when text so far, pair and NUL are longer than twice the buffer |
| `Descriptor.FitsIff` | vmdk/mkdisk.c:220-236 | a list of pairs fits exactly when every pair leaves the text, with its NUL, within twice the buffer that the pairs before it left |
| `Descriptor.SmallEntriesFit` | vmdk/mkdisk.c:220-236 | entries no larger than the buffer they find never exceed it |
| `Descriptor.LongEntryOverruns` | vmdk/mkdisk.c:220-236 | an entry that does exceed it |
| `Descriptor.RenderParsed` | vmdk/mkdisk.c:147-266 | parsing printed lines gives exactly the pairs they state, in order |
| `Descriptor.PrintedParses` | vmdk/sparse.c:223-276 | parsing the printed descriptor yields its key/value pairs in order with quotes stripped, for all inputs |
| `DescriptorText.PrintedText` | vmdk/sparse.c:223-276 | the printed text is the template, line by line, with the numbers in their places |
| `DescriptorText.OneExtent` | vmdk/sparse.c:237-238 | exactly one line describes an extent, and its number reads back as the capacity |
| `DescriptorText.DecimalMeans` | vmdk/sparse.c:269 | decimal digits read from left to right are the number, without a leading zero |
| `DescriptorText.HexMeans` | vmdk/sparse.c:233-243 | eight lower-case digits are the 32-bit word |
| `DescriptorText.SignedDecimalMeans` | vmdk/sparse.c:263-266 | a sector size is printed as the signed number that its 32 bits are |
| `DescriptorText.CylindersMean` | vmdk/sparse.c:255-261 | cylinders are the capacity in units of 255 * 63 sectors, rounded up, and at most 65,535 |
| `Descriptor.SectorSizeIff` | vmdk/sparse.c:263-266 | the sector-size entries are there exactly when a sector size was given |
| `Descriptor.PrintedFitsIff` | vmdk/mkdisk.c:220-236 | a printed descriptor can be parsed in the buffer exactly when its pairs take up to 2,047 characters as JSON |
| `Descriptor.ToolsVersionDecides` | vmdk/mkdisk.c:220-236 | it can for tools versions of up to 1,000 characters and cannot for those of more than 2,048 |
| `Descriptor.LongVersionOverruns` | vmdk/mkdisk.c:220-236 | 2,049 digits, which the command line accepts, fit the sectors of the file and not the parser's buffer |
| `Descriptor.PrintedLength` | vmdk/sparse.c:1276-1279 | a printed descriptor is at most 1,472 characters longer than the tools version, so up to 8,768 of them fit the sectors reserved for it |
| `Descriptor.PrintedIsAscii` | vmdk/sparse.c:223-276 | it is never empty and has no character that the file could not hold or that would end it early |

## Left out

- `Reader.Open`: rejects headers whose grain count or entries per table do not fit 32 bits; the code truncates the counts of such headers.
- `Reader.Open`: offsets are unbounded; a header with sector numbers from 2^55 on would wrap as a byte offset in the code.
- `Pool.InvReachable`: a step is what lies between two lock operations, so memory ordering inside such a stretch is not modelled; the modelled shared fields are only used under their locks, and different threads write different table entries.
- `RoundTrip.ReorderCrash`: the rename of the reordered file over the original is atomic: a crash leaves the target's name on one of the two files.
- `Copy.CopyDisk`: the endless enumeration is an outcome of the method (`Endless`), because a method of the model has to end.
- zlib itself, its initialisation and memory, `malloc`, file descriptors, error messages, abort and finalize.
- The SEEK_DATA enumeration and the other system-call wrappers of `vmdk/flat.c`; a flat target is a byte sequence that is zero when created.
- `vmdk/vmdk-fuse.c`, the command line of `vmdk/mkdisk.c`, and the printing of header details.
- The OVA, OVF and OVF environment tools.
