# XFS userspace tools: verified models

A Dafny model of the parts of a userspace XFS reader and of the xfsprogs tools whose correctness is hardest to see
from one function: the hash-preserving name obfuscation and the stream writer of `metadump`, the block map, directory
and realtime checks of `xfs_db check`, extent lookup in an extent B+tree, file reads and directory listing of the
reader, the threads and the coverage of `xfs_copy`, bit fields, and field expressions.

`dafny verify dfyconfig.toml` checks everything. The modules, by component:

- `NameHash`, `Obfuscate`, `Alternates`, `NameTable`: the directory hash, obfuscated names, alternates, the name table.
- `DumpStream`: the dump stream and its restoration.
- `ClaimLog`, `BlockGet`, `FreeTotals`: the block map of `blockget`. `ClaimLog` reads the calls that claim blocks as a
  history and says what an error-free history means; `BlockGet` is the scan itself.
- `DirHash`, `DirData`, `RtBitmap`: the directory hash, the walk of a directory block, the realtime bitmap.
- `DirLayout`: directory blocks written byte by byte from entries and free space, and what the checker and the listings
  read back from them.
- `Bmap`: extents, trees of extents, and the `bmap` command.
- `ReadFile`; `Cookies`, `ShortDirs`, `MapTable`, `LeafDir`: reading a file, and listing the three kinds of directory.
- `CopyProtocol`, `CopyCoverage`: the threads of `xfs_copy`, and which bytes it copies.
- `BitVal`, `FieldExpr`: bit fields and field expressions.
- `Basics`: what several of them use.

State that the programs update in place is held in classes and arrays. Each method is proved against a function of its
inputs or of the old state, and the promised properties are lemmas about those functions.

Where the code does not do what one would expect, the model follows the code:

- Rows 3, 12 and 13 of the table of bit flips cancel, so for names of six bytes or more different numbers can give the
  same alternate (`Alternates.AlternatesAreSame`); for shorter names they cannot (`Alternates.AsManyNames`).
- The `bmap` command never stops if an extent goes on past the last block asked for (`Bmap.CommandStopsIff`).
- In `xfs_copy` the size of a gap is unsigned: a free extent that starts inside the last I/O unit of the header buffer
  gives size zero by wrapping twice, and one further back a size above 2^62 (`CopyCoverage.SizeToIs`). The copy after
  the last free extent has no guard for the header (`CopyCoverage.HeaderIsRewrittenIff`).
- Where a realtime bitmap file is too short, the block number after the scan is -1, and a run of free extents at the end
  is given minus its own start as length (`RtBitmap.Summary.LengthBeyond`). It is counted in row 63, or in front of
  the table if it starts at the first bit, so outside the table unless that has more than 63 rows
  (`RtBitmap.Summary.CellBeyondIff`, `RtBitmap.CountRunsOut`, `RtBitmap.CountInLastRow`).
- A hole in that file is no error. The scan takes it for bits like the last one before it, so that two runs and the hole
  between them count as one (`RtBitmap.CountOverHole`).
- The checker accepts a directory block whose best-free table gives a wrong length (`DirData.WalkWrongLength`).
- The walk of a free list takes its first and last slot from the disk unchecked. It never ends if the first is in the
  list and the last is not (`BlockGet.WalkStopsIff`), and it reads behind the list if the first is not in it
  (`BlockGet.WalkStaysInsideIff`).
- Copying a file out never ends if it is a device, a FIFO or a socket (`ReadFile.CopyLoopsOnDevice`), or has a block
  that cannot be read behind the first chunk (`ReadFile.CopyStopsIff`): the loop takes the negative number of an error
  for a count and goes back. In front of the file nothing counts as an error: a file with such a block, at least five
  bytes shorter than a chunk, is copied as zeros, five bytes more than it has (`ReadFile.Reader.CopyFile`).
- Listing a multi-block directory needs room for one mapping more than a directory block has blocks
  (`MapTable.RoomForNIsNotEnough`), so a buffer size of at least one byte; with none, n blocks are taken from a count of
  n - 1 (`LeafDir.RequestWithoutBuffer`), or, for n = 1, a hole ends the call with the entries behind it still to come
  (`LeafDir.ListWithoutBuffer`).
- Cookies have 31 bits. A listing is right if and only if every entry lies below 16 GiB (`LeafDir.LeafEachOnceIff`);
  otherwise, after the end, entries are delivered again (`LeafDir.ListFarTwice`).
- `setbitval` of a width other than 16, 32 and 64 at a byte boundary drops the bits of an incomplete last byte
  (`BitVal.Written`).

## Model

| member | source | states |
|---|---|---|
| NameHash.DaHashname | src/xfsprogs/libxfs/xfs_da_btree.c:1478-1504 | the loop unrolled by four computes the one-byte recurrence that metadump relies on |
| NameHash.XorOneByte | src/xfsprogs/db/metadump.c:512 | xor-ing one byte of a name changes its hash by that mask rotated by seven for each byte behind it, whatever the name |
| NameHash.HashIsAllReach | src/xfsprogs/libxfs/xfs_da_btree.c:1478-1504 | the hash of a name is the xor of its bytes, each rotated by seven bits for every byte behind it |
| NameHash.ReachTogether | src/xfsprogs/db/metadump.c:600-637 | two masks that meet at one distance meet at every distance |
| NameHash.FlipPairKeepsHash | src/xfsprogs/db/metadump.c:558-637 | a pair of bit flips whose masks meet leaves the hash of any name as it was |
| Obfuscate.RandomFilenameChar | src/xfsprogs/db/metadump.c:408-419 | the random bytes come from the alphabet |
| Obfuscate.AlphabetIff | src/xfsprogs/db/metadump.c:411-413 | the alphabet is the 64 characters of the program's table, each of them and no other |
| Obfuscate.InvalidAre | src/xfsprogs/db/metadump.c:405 | the bytes that a name must not hold are the slash and NUL |
| Obfuscate.GroupsReachHash | src/xfsprogs/db/metadump.c:515-520 | the five groups of bits computed from the prefix and the target reach the target hash, their overlap included |
| Obfuscate.RandomPrefix | src/xfsprogs/db/metadump.c:500-513 | all but the last five bytes are drawn and their hash is accumulated |
| Obfuscate.SettleKeepsPending | src/xfsprogs/db/metadump.c:521-545 | repairing an invalid byte keeps the debt to the hash with the next byte, or with the first after the last |
| Obfuscate.PendingDone | src/xfsprogs/db/metadump.c:525-552 | once all five bytes are settled, paying the debt to the first byte gives a valid name with the target hash |
| Obfuscate.SettleTail | src/xfsprogs/db/metadump.c:525-545 | the loop over the last five bytes settles each and leaves the others alone |
| Obfuscate.ObfuscateName | src/xfsprogs/db/metadump.c:482-552 | a name of five bytes or more becomes one of the same length with the target hash and without slash or NUL; a shorter one is left alone |
| Alternates.SpotOf | src/xfsprogs/db/metadump.c:640-690 | every usable table row names two bytes of the name whose masks meet |
| Alternates.FlippedKeepsHash | src/xfsprogs/db/metadump.c:638-705 | a flip keeps length and hash |
| Alternates.FindSpot | src/xfsprogs/db/metadump.c:655-690 | the search through the table finds the spot exactly when the row is usable for the length |
| Alternates.FlipUsesRow | src/xfsprogs/db/metadump.c:655-690 | flip b uses row u - 1 - b of the u usable rows: its masks, and its bytes counted from the end of the name |
| Alternates.FlipBit | src/xfsprogs/db/metadump.c:638-705 | in place, the outcome of the flip: out of range, invalid, or the flipped name |
| Alternates.AlternateFromKeepsHash | src/xfsprogs/db/metadump.c:776-803 | every alternate has the length and hash of the name |
| Alternates.AlternateFromRange | src/xfsprogs/db/metadump.c:776-803 | with u usable rows, numbers below 2^u have an alternate and 2^u is out of range |
| Alternates.FindAlternate | src/xfsprogs/db/metadump.c:776-803 | in place, the n-th alternate of a name |
| Alternates.AlternatesAreSame | src/xfsprogs/db/metadump.c:707-803 | two numbers give the same name if and only if they ask for the same flips, but for rows 3, 12 and 13, which together flip nothing |
| Alternates.AsManyNames | src/xfsprogs/db/metadump.c:776-803 | a name of up to five bytes has as many different alternates as there are numbers that give one |
| NameTable.Names.Clear | src/xfsprogs/db/metadump.c:351-367 | the table is emptied |
| NameTable.Names.Find | src/xfsprogs/db/metadump.c:369-384 | a name is found exactly if it was given out since the last clear and the hash is its own |
| NameTable.Names.Add | src/xfsprogs/db/metadump.c:386-403 | a new name is recorded in its own bucket and all records stay distinct and sound |
| NameTable.Names.SearchAlternates | src/xfsprogs/db/metadump.c:827-838 | the search ends within 2^u tries with the first alternate that is valid and not taken, or with none |
| NameTable.Names.HandleDuplicateName | src/xfsprogs/db/metadump.c:815-845 | it fails exactly if the name is taken and all alternates are invalid or taken |
| NameTable.Names.InLostFound | src/xfsprogs/db/metadump.c:441-475 | lost+found and the numbered names inside it are recognised |
| NameTable.DecimalIff | src/xfsprogs/db/metadump.c:467-474 | an inode number's text is the only one that stands for it: digits without a leading zero |
| NameTable.Orphanage | src/xfsprogs/db/metadump.c:418-431 | the name of the orphanage is lost+found |
| NameTable.Names.Replace | src/xfsprogs/db/metadump.c:847-899 | the new name has the old one's hash and length and is valid, and is recorded unless it and all its alternates are taken |
| NameTable.Names.Generate | src/xfsprogs/db/metadump.c:847-899 | a kept name is untouched; otherwise the name is replaced, and between clears the recorded names stay distinct, each with the hash of its original |
| DumpStream.Writer.WriteIndex | src/xfsprogs/db/metadump.c:146-161 | the metablock is written with its count and its index is cleared |
| DumpStream.Writer.WriteBuf | src/xfsprogs/db/metadump.c:163-182 | a buffer's basic blocks are appended with consecutive addresses, and full metablocks are written as they fill |
| DumpStream.Writer.Finish | src/xfsprogs/db/metadump.c:138-161 | after the final index the stream is the dump of all blocks written |
| DumpStream.DumpEnds | src/xfsprogs/db/metadump.c:138-144 | all metablocks but the last are full; the last has a smaller count and a zero final index entry |
| DumpStream.RestoredDump | src/xfsprogs/mdrestore/xfs_mdrestore.c:123-158 | reading the metablocks by their counts gives back every block with its address, in order |
| DumpStream.CutDump | src/xfsprogs/db/metadump.c:138-144 | a stream cut short at any byte is not taken for a complete one |
| DumpStream.RestoreDump | src/xfsprogs/mdrestore/xfs_mdrestore.c:54-158 | a dump that starts with the superblock is restored exactly, and no proper prefix of it is accepted |
| DumpStream.OnlyDumps | src/xfsprogs/mdrestore/xfs_mdrestore.c:54-121 | a dump that does not start with the superblock is refused |
| DumpStream.RestoredImage | src/xfsprogs/mdrestore/xfs_mdrestore.c:123-158 | restoring a dump of buffers read from a disk puts every basic block they cover back in its place on the disk, and writes no other |
| DumpStream.Magics | src/xfsprogs/include/xfs_metadump.h:22 | the magic numbers of the stream and of the superblock |
| ClaimLog.Sticky | src/xfsprogs/db/check.c:1500-1527 | in an error-free history a block keeps the type it was given, but for the step from FREE1 to FREE2 |
| ClaimLog.TwoClaims | src/xfsprogs/db/check.c:1244-1264 | two claims of one block are the two free-space trees |
| ClaimLog.CleanMapIsConsistent | src/xfsprogs/db/check.c:834-838 | if no block is left unknown or FREE1, every block has exactly one owner, or is in exactly one record of each free-space tree |
| ClaimLog.ConsistentIffSettled | src/xfsprogs/db/check.c:834-838 | after claims in order that test is exact: the map is consistent if and only if no block is left unknown or FREE1 |
| ClaimLog.SameCover | src/xfsprogs/db/check.c:4307-4414 | the bno records and the cnt records cover the same blocks |
| ClaimLog.CounterIsCells | src/xfsprogs/db/check.c:4287-4414 | the free block counter is the number of cells tagged FREE2, FREELIST, BTBNO or BTCNT |
| BlockGet.SlotsFromAre | src/xfsprogs/db/check.c:4114-4126 | between slots of the list, the circular walk ends after (last - first) mod size + 1 slots, and which slot is the k-th |
| BlockGet.WalkStopsIff | src/xfsprogs/db/check.c:4112-4126 | whatever the first and last slot on disk, the walk comes to the last one if and only if both are in the list, or neither is and the last is not before the first |
| BlockGet.WalkStaysInsideIff | src/xfsprogs/db/check.c:4112-4126 | the walk reads behind the list if and only if its first slot is not in it |
| BlockGet.TallyStart | src/xfsprogs/db/check.c:3912-3916 | the counters of an AG start afresh while the free block counter goes on |
| BlockGet.Checker.CheckDbmap | src/xfsprogs/db/check.c:1244-1264 | an error is counted exactly if some block of the range has another type |
| BlockGet.Checker.CheckSetDbmap | src/xfsprogs/db/check.c:1500-1527 | the claim is made in the map, and no error is counted exactly if it was in range and every block had the expected type |
| BlockGet.Checker.ScanBnoLeaf | src/xfsprogs/db/check.c:4267-4338 | every record of a bno leaf is claimed as FREE1; a serious error is counted exactly if they are not in rising order above block zero |
| BlockGet.Checker.ScanCntLeaf | src/xfsprogs/db/check.c:4340-4414 | every record of a cnt leaf moves from FREE1 to FREE2, and sum and maximum are kept |
| BlockGet.Checker.ScanSbtree | src/xfsprogs/db/check.c:4169-4192 | a whole tree, at any height, is claimed block by block in the order of the recursion; a serious error is counted exactly if a block that is reached has a wrong magic number, an impossible number of records or bno records out of order, and no error exactly if moreover all blocks can be read and have their level, and the claims are in order |
| BlockGet.Checker.WalkFreelist | src/xfsprogs/db/check.c:4087-4136 | the walk claims the slots from first to last round the end and counts them |
| BlockGet.Checker.ScanFreelist | src/xfsprogs/db/check.c:4087-4136 | the free list block and its blocks are claimed; a serious error is counted exactly if a list that is not empty cannot be read, and no error exactly if the AGF's count is that of the slots and the claims are in order |
| BlockGet.Checker.ScanAg | src/xfsprogs/db/check.c:3912-4085 | an AG counts no error if and only if its headers have the right magic numbers and versions, its trees are sound, the AGF agrees with the counters of the claims, and the claims of headers, free list and trees are in order; a serious error if and only if a header, a free list that is needed or a tree has a serious fault |
| BlockGet.Checker.ScanTrees | src/xfsprogs/db/check.c:4016-4060 | free list, trees and inode side of an AG: the counters are those of the claims, and no error is counted exactly if trees and inode side are sound, the claims in order and the AGF agrees |
| BlockGet.Checker.ChecknotDbmap | src/xfsprogs/db/check.c:1578-1598 | no error is counted if and only if the AG has blocks and none is left unknown or FREE1 |
| BlockGet.Checker.Blockget | src/xfsprogs/db/check.c:788-927 | the exit code is zero if and only if the file system is healthy: headers and trees of every AG sound, all claims in order, the map consistent unless free space is left aside, the AGFs' free space and free list figures in agreement with the claims, and the superblock's count equal to the counted cells less two for each AG; it is two if and only if some AG has a serious fault, and three otherwise |
| BlockGet.Checker.CleanRun | src/xfsprogs/db/check.c:834-880 | what an error-free map and its counter say: settled and consistent are the same |
| FreeTotals.TreeTotals | src/xfsprogs/db/check.c:4360-4400 | over a whole tree, sum and maximum of the claims are those of its records |
| FreeTotals.AgTotals | src/xfsprogs/db/check.c:4016-4044 | the counters of the claims of one AG are the sum and the maximum of its cnt-tree record lengths |
| FreeTotals.RunTotals | src/xfsprogs/db/check.c:4016-4044 | a run that ends without an error has found, in every AG, agffreeblks and agflongest to be the sum and the maximum of the cnt-tree record lengths, and the free list count to be the number of slots from first to last |
| DirHash.SeeInBucket | src/xfsprogs/db/check.c:1682-1700 | looking in one bucket gives the answer of looking through all entries, and marks the same one |
| DirHash.UnseenInBuckets | src/xfsprogs/db/check.c:1638-1657 | going through the buckets counts every unseen entry once |
| DirHash.HiddenStaysUnseen | src/xfsprogs/db/check.c:1682-1700 | an entry behind another of the same key is never marked |
| DirHash.NoErrorsIff | src/xfsprogs/db/check.c:1621-1700 | adding, looking up and checking counts no error if and only if no entry comes twice and the leaf entries are the data entries in some order |
| DirHash.DirHash.Add | src/xfsprogs/db/check.c:1621-1636 | an unseen entry is put at the front of its chain |
| DirHash.DirHash.See | src/xfsprogs/db/check.c:1682-1700 | the answer and the marking of the first entry with the key |
| DirHash.DirHash.Check | src/xfsprogs/db/check.c:1638-1657 | one error for each entry not seen |
| DirHash.DirHash.SeeLeaf | src/xfsprogs/db/check.c:3304-3325 | live leaf entries are looked up, stale ones counted and compared |
| DirHash.LiveCounts | src/xfsprogs/db/check.c:3304-3325 | the live entries are those with an address other than zero, each as often as it occurs |
| DirHash.NoneStaleIn | src/xfsprogs/db/check.c:3304-3325 | leaf blocks whose entries all have an address, and which count none as stale, add no error of their own |
| DirHash.DirHash.CheckDirectory | src/xfsprogs/db/check.c:3078-3132 | over data blocks and then leaf blocks, the directory hash adds no error if and only if the live leaf entries are the data entries, each once, and the stale counts agree |
| DirData.ParseIsTheTiling | src/xfsprogs/db/check.c:2258-2323 | reading region by region to the end finds the tiling of the block, if it has one |
| DirData.TilingCovers | src/xfsprogs/db/check.c:2258-2323 | every byte between header and end is in exactly one region |
| DirData.FreeFindIs | src/xfsprogs/db/check.c:2436-2456 | the slot found names the region; otherwise none does or the region is shorter than the third length |
| DirData.BestFreeIff | src/xfsprogs/db/check.c:2223-2290 | the checks along the walk find no fault if and only if the table is sorted, its slots name distinct free regions and no longer region is left out |
| DirData.LengthsAreNotCompared | src/xfsprogs/db/check.c:2271-2284 | a consistent data block whose first slot gives a wrong length for the region it names |
| DirData.WalkWrongLength | src/xfsprogs/db/check.c:2175-2434 | the checker counts no error for that block |
| DirData.Walk.Start | src/xfsprogs/db/check.c:2223-2241 | the checks of the table before the walk |
| DirData.Walk.VisitFree | src/xfsprogs/db/check.c:2258-2288 | the counters stay those of the regions seen, with one more free region |
| DirData.Walk.Regions | src/xfsprogs/db/check.c:2256-2325 | the walk sees the regions up to the first that is bad; no error means it reached the end and every entry has a name |
| DirData.Walk.LeafEntries | src/xfsprogs/db/check.c:2371-2393 | every live leaf entry is looked up in the directory hash, an error for each that is not there or was seen before; the others are counted, and the count never leads past the block |
| DirData.Walk.ProcessData | src/xfsprogs/db/check.c:2175-2434 | no error is counted if and only if the block is consistent and each of its live leaf entries finds an unseen entry of the hash; then exactly the keys of its entries have been added, and those looked up are marked |
| DirData.KeysDiffer | src/xfsprogs/db/check.c:2312-2322 | no two entries of a consistent block have the same key |
| DirData.Walk.ProcessBlockDir | src/xfsprogs/db/check.c:1959-2011 | for a directory of one block, walk and hash check add no error if and only if the block is consistent and its live leaf entries are the hashes and addresses of its entries, each once, in any order |
| DirData.Walk.ProcessDirectory | src/xfsprogs/db/check.c:3078-3132 | for a directory of many blocks, walk, leaf blocks and hash check add no error if and only if all data blocks are consistent, the stale counts agree, the live leaf entries of all blocks are the hashes and addresses of all entries, each once, and those in a data block are of entries in it or before it |
| DirData.SoundDirectory | src/xfsprogs/db/check.c:3078-3132 | consistent data blocks and leaf blocks with the keys of all their entries, in any order and none stale, are what that method counts no error for |
| DirData.KeysAllDiffer | src/xfsprogs/db/check.c:2312-2322 | no two entries of consistent blocks, in whatever blocks, have the same key |
| DirData.DataFormatOnly | src/xfsprogs/db/check.c:3109-3121 | with data blocks of the data format nothing is looked up before the leaf blocks |
| DirData.ConsistentIff | src/xfsprogs/db/check.c:2175-2434 | consistency is decided by the one tiling the walk finds |
| DirLayout.EntryIsRead | src/xfsutil/xfsutil.c:340-368 | an entry written as inode number, length of the name, name, padding and offset is read as that name and inode number, and has its size and tag |
| DirLayout.ListedAsWritten | src/xfsutil/xfsutil.c:543-584 | a block written from entries and free space is listed as these entries in order, with their names, inode numbers and positions; the checker takes the hashes of the names and the positions |
| DirLayout.ConsistentAsWritten | src/xfsprogs/db/check.c:2175-2434 | such a block is consistent if and only if its entries have names, no two pieces of free space are side by side, the best-free table is right and its tail counts the leaf entries |
| DirLayout.SoundAsWritten | src/xfsprogs/db/check.c:1959-2011 | the checker finds no fault with a block directory if and only if it is consistent in that sense and its live leaf entries are the hashes and positions of the names written, in some order |
| DirLayout.SoundWithoutStale | src/xfsprogs/db/check.c:1959-2011 | with exactly these as its leaf entries, none is taken for stale |
| DirLayout.ListedAsBlock | src/xfsutil/xfsutil.c:392-490 | a directory in its inode lists as the block whose entries, behind the two dots, lie at the offsets that its entries give |
| DirLayout.DirectoryAsWritten | src/xfsutil/xfsutil.c:335-368 | a directory of many blocks lists the entries written into all of them, and nothing else, in the order of their positions |
| RtBitmap.ClearBit | src/xfsprogs/db/check.c:3563-3571 | a clear bit ends the run the scan is in, and no other |
| RtBitmap.CountsRun | src/xfsprogs/db/check.c:3563-3571 | counting a run in the cell of its logarithm and first block makes all counts right, and touches no other cell's |
| RtBitmap.RunFits | src/xfsprogs/db/check.c:3563-3571 | every run of the scanned part of the file has a cell in the table |
| RtBitmap.Summary.GoodRun | src/xfsprogs/db/check.c:3563-3583 | length and cell, computed as ints from block and bit numbers, are those of the run, also across blocks |
| RtBitmap.Summary.ScanBit | src/xfsprogs/db/check.c:3551-3572 | one bit keeps all counts right |
| RtBitmap.Summary.ScanBlock | src/xfsprogs/db/check.c:3548-3573 | one block, up to its end or that of the bitmap |
| RtBitmap.Summary.Process | src/xfsprogs/db/check.c:3506-3584 | each cell grows by the number of maximal free runs that start in its block with its logarithm, in the file with its holes filled by the bit before them, and frextents by the free bits read; when the blocks run out inside a run, the cell that is counted instead, and whether it lies outside the table; errors if a block cannot be read |
| RtBitmap.Summary.LengthBeyond | src/xfsprogs/db/check.c:3577-3579 | where the blocks run out, the length of the last run is the number of bits before it, negated |
| RtBitmap.Summary.CellBeyondIff | src/xfsprogs/db/check.c:3577-3582 | its cell is inside the table if and only if that has more than 63 rows and the run does not start at the first bit |
| RtBitmap.Summary.LongRun | src/xfsprogs/db/check.c:3563-3571 | a run of 2^31 free extents or more has a negative length, and is counted in row 63 |
| RtBitmap.Summary.WithoutHoles | src/xfsprogs/db/check.c:631-656 | without holes what is scanned is the bitmap, and every run has a place, if the bitmap has less than 2^31 bits |
| RtBitmap.CountRunsOut | src/xfsprogs/db/check.c:3577-3583 | a bitmap file that is too short, and a last run whose cell is outside the table |
| RtBitmap.CountInLastRow | src/xfsprogs/db/check.c:3577-3583 | the same file with a table of 64 rows: the run of one is counted in the last row |
| RtBitmap.CountOverHole | src/xfsprogs/db/check.c:3528-3571 | a hole between two blocks makes a run of four out of one of two, without an error |
| Bmap.SelectChild | src/xfsprogs/db/bmap.c:312-332 | the child whose key is the offset or the last before it, or the first child |
| Bmap.FindLeaf | src/xfsprogs/db/bmap.c:84-102 | the descent ends at a leaf before which no record reaches the offset |
| Bmap.ScanFrom | src/xfsprogs/db/bmap.c:234-270 | looking at records one by one from a moving position gives the first extents that meet the range, clipped to it |
| Bmap.ClippedMaps | src/xfsprogs/db/bmap.c:234-270 | the clipped extents map exactly the blocks of the range, as the file does |
| Bmap.Walk | src/xfsprogs/db/bmap.c:103-127 | walking the right siblings from a leaf scans the records from there on |
| Bmap.Bmap | src/xfsprogs/db/bmap.c:42-133 | for any tree, of any height, the answer of the flat scan of all leaf records in order |
| Bmap.BmapAnswer | src/xfsprogs/db/bmap.c:42-133 | that answer is the first nex extents that meet the range, clipped |
| Bmap.CommandStopsIff | src/xfsprogs/db/bmap.c:197-226 | the command stops if and only if no extent goes on past the last block asked for |
| Bmap.CommandLoopsOnOneBlock | src/xfsprogs/db/bmap.c:197-226 | one block in the middle of an extent is enough to keep it from stopping |
| Bmap.BmapCommand | src/xfsprogs/db/bmap.c:197-226 | where it stops, it reports every extent of the range once, in order |
| ReadFile.CopyStep | src/xfsutil/xfsutil.c:665-692 | copying the part of one block that is in the range adds exactly that block's bytes |
| ReadFile.OutOfRange | src/xfsutil/xfsutil.c:655-664 | every byte of the range in an extent is in one of the blocks the program visits |
| ReadFile.OverlapsIff | src/xfsutil/xfsutil.c:698-708 | an extent passes the overlap tests if and only if one of its bytes is in the range |
| ReadFile.OverlapsAt | src/xfsutil/xfsutil.c:698-708 | every byte of the range that lies in the extent makes it pass |
| ReadFile.BeforeFile | src/xfsutil/xfsutil.c:698-708 | the tests are unsigned, so from a negative offset no extent passes them |
| ReadFile.UnsignedIs | src/xfsutil/xfsutil.c:698-708 | an offset taken as unsigned has the same 64 bits |
| ReadFile.Reader.CopyExtent | src/xfsutil/xfsutil.c:643-696 | the bytes of the extent in the range are copied and no others change; an error exactly if one of its blocks cannot be read |
| ReadFile.Reader.ReadExtents | src/xfsutil/xfsutil.c:727-738 | the buffer becomes the flat view of the extents |
| ReadFile.Reader.ReadFile | src/xfsutil/xfsutil.c:710-792 | as many bytes as the file has in the range, equal to its flat view, zeros after them, and every error; from a negative offset zeros and no error |
| ReadFile.Reader.CopyFile | src/cli/rcopy.c:84-97 | wherever the chunked loop stops: with all blocks readable its output is the whole file; zeros if its extents cannot be read, or if a short file has a bad block |
| ReadFile.CopyStopsIff | src/cli/rcopy.c:84-97 | the loop stops if and only if the file is regular, has a known format, its extents, if it is not empty, are read without a negative error, and no block that cannot be read lies as far away as the loop comes after an error: one byte before the end of the first chunk, or five for a chunk of a multiple of five bytes |
| ReadFile.CopyLoopsOnDevice | src/cli/rcopy.c:80-97 | for a device or a pipe every turn of the loop leads to another |
| Cookies.CallAt | src/xfsutil/xfsutil.c:427-489 | a call from the cookie of an entry delivers from that entry on and returns the cookie of the first refused |
| Cookies.EachOnce | src/xfsutil/xfsutil.c:427-489 | any series of calls, each going on from the last cookie, delivers every entry once in order, and nothing after the end |
| ShortDirs.SfGetdents | src/xfsutil/xfsutil.c:392-490 | a shortform listing is one such call on the two dots and the entries |
| ShortDirs.SfAscending | src/xfsutil/xfsutil.c:430-480 | its cookies go up and are below the last one returned |
| ShortDirs.SfEachOnce | src/xfsutil/xfsutil.c:392-490 | any series of calls on a shortform directory delivers each entry once |
| ShortDirs.OfferBlock | src/xfsutil/xfsutil.c:543-584 | the loop over the data part of a block delivers its entries from the cookie on |
| ShortDirs.BlockGetdents | src/xfsutil/xfsutil.c:496-594 | a block listing is one such call on the entries of the block |
| ShortDirs.TilingIsWell | src/xfsutil/xfsutil.c:543-560 | a block that the checker finds consistent can be listed |
| ShortDirs.BlockEachOnce | src/xfsutil/xfsutil.c:496-594 | any series of calls on a block directory delivers each entry once |
| MapTable.BeforeHole | src/xfsutil/xfsutil.c:160-182 | what is mapped before a hole is whole directory blocks |
| MapTable.Enough | src/xfsutil/xfsutil.c:125-182 | one request with room for n + 1 mappings gives a whole directory block of n blocks, however extents and holes are split |
| MapTable.RoomForNIsNotEnough | src/xfsutil/xfsutil.c:125-182 | for every n, room for n mappings is not: a directory for which n of them give n - 1 blocks of the directory block there is |
| MapTable.OneMapping | src/xfsutil/xfsutil.c:125-157 | with room for one mapping a request answers a hole, where the call ends, or an extent before it |
| MapTable.Table.Drop | src/xfsutil/xfsutil.c:90-116 | the blocks of the directory block that was read leave the table, and the count stays that of the table |
| MapTable.Table.Request | src/xfsutil/xfsutil.c:129-183 | the new mappings without their holes are appended, and the count stays that of the table |
| MapTable.Table.Fill | src/xfsutil/xfsutil.c:117-191 | there is room for a request whenever one is made, and after it a whole block or the end |
| LeafDir.SkipBlocks | src/xfsutil/xfsutil.c:77-83 | starting at the block of the cookie loses no entry |
| LeafDir.Skip | src/xfsutil/xfsutil.c:303-321 | within the first block the position goes to the first entry not before the cookie |
| LeafDir.Position | src/xfsutil/xfsutil.c:287-333 | after a block is read, curoff is the byte offset of ptr and nothing is lost |
| LeafDir.NextBlock | src/xfsutil/xfsutil.c:89-215 | the next existing block is read, or there is none before the block where the call ends and nothing is due |
| LeafDir.OneTurn | src/xfsutil/xfsutil.c:335-368 | free space is passed, an entry is handed out with its own cookie, and curoff stays the offset of ptr |
| LeafDir.LeafGetdents | src/xfsutil/xfsutil.c:24-388 | a listing is one call, with cookies of 31 bits, on the live entries of all data blocks, for any split into extents and holes; without a buffer size, on those before the end of the next hole |
| LeafDir.ListedIff | src/xfsutil/xfsutil.c:77-215 | an entry is listed if and only if it is in a block before the leaf blocks |
| LeafDir.LeafEachOnceIff | src/xfsutil/xfsutil.c:24-388 | any series of calls on a multi-block directory delivers each entry once, if and only if every entry lies below 16 GiB |
| LeafDir.EndIsFinalIff | src/xfsutil/xfsutil.c:380-386 | a call from the end cookie delivers nothing if and only if every entry has a smaller cookie |
| LeafDir.ListFarTwice | src/xfsutil/xfsutil.c:355-386 | a directory whose finished listing delivers its entry again |
| LeafDir.RequestWithoutBuffer | src/xfsutil/xfsutil.c:66-183 | the first request with a buffer size of zero leaves n - 1 blocks in the table |
| LeafDir.ListWithoutBuffer | src/xfsutil/xfsutil.c:66-388 | with one block to a directory block that listing delivers nothing and returns the cookie of the end of the hole |
| CopyProtocol.MainKeepsInv | src/xfsprogs/copy/xfs_copy.c:466-484 | every step of the main thread keeps the invariant of the hand-over |
| CopyProtocol.TargetKeepsInv | src/xfsprogs/copy/xfs_copy.c:164-217 | every step of a writer keeps it, successful or not |
| CopyProtocol.Safety | src/xfsprogs/copy/xfs_copy.c:164-217 | in every run nobody reads the buffer while it is filled, active targets have written every round once in order, and the counter counts the writers that are not done |
| CopyProtocol.WhatIsWritten | src/xfsprogs/copy/xfs_copy.c:192-205 | in a run that carries its steps, a target is marked as failed if and only if a write of its own has failed, and has written exactly the buffers of its successful writes |
| CopyProtocol.OnlyFailureStops | src/xfsprogs/copy/xfs_copy.c:164-217 | a target is given up only after a write of its own failed, and then it is; as long as none has, it is active and has written every round that is over |
| CopyProtocol.NoDeadlock | src/xfsprogs/copy/xfs_copy.c:188-217 | a round that began with an active target can always go on |
| CopyProtocol.NoTargetsNoWake | src/xfsprogs/copy/xfs_copy.c:466-484 | a round that began with none waits for ever |
| CopyProtocol.RoundEnds | src/xfsprogs/copy/xfs_copy.c:188-217 | however the threads interleave, a round is over after a bounded number of steps |
| CopyCoverage.SizeToIs | src/xfsprogs/copy/xfs_copy.c:1002-1004 | the rounded size of a gap in 64-bit unsigned arithmetic, for starts before and after the position |
| CopyCoverage.Copier.ReadWbuf | src/xfsprogs/copy/xfs_copy.c:366-420 | a request is widened to whole I/O units, and fails exactly if it then exceeds the buffer |
| CopyCoverage.Copier.CopyChunk | src/xfsprogs/copy/xfs_copy.c:1011-1036 | a chunk of an aligned stretch never reaches the length abort |
| CopyCoverage.Copier.CopyLeaf | src/xfsprogs/copy/xfs_copy.c:977-1043 | the records of one leaf, as part of all the leaves |
| CopyCoverage.Copier.CopyGroup | src/xfsprogs/copy/xfs_copy.c:902-1104 | the ranges written for an AG are its header and those of the gaps between the free extents of all leaves |
| CopyCoverage.GroupIsCopied | src/xfsprogs/copy/xfs_copy.c:960-1104 | every byte past the header that is not free is copied, of free space less than an I/O unit at each end, and less than one behind the group, in aligned chunks that fit the buffer |
| CopyCoverage.HeaderIsRewrittenIff | src/xfsprogs/copy/xfs_copy.c:1066-1104 | the header buffer is written again if and only if the last free extent ends, rounded down, before its end |
| CopyCoverage.HeaderIsRewritten | src/xfsprogs/copy/xfs_copy.c:1066-1104 | an AG for which it is |
| BitVal.BitSet | src/xfsprogs/db/bit.c:42-60 | setting a bit of a byte sets that one and no other |
| BitVal.SetBit | src/xfsprogs/db/bit.c:42-60 | setting a bit of a buffer sets that one and no other |
| BitVal.BitOfNumber | src/xfsprogs/db/bit.c:26-40 | bit k of a byte, from the left, is digit 7 - k of its value in binary |
| BitVal.ByteValue | src/xfsprogs/db/bit.c:26-60 | the eight bits of a byte make its value |
| BitVal.BytesValue | src/xfsprogs/db/bit.c:84-105 | the bits of bytes make the big-endian number of the bytes |
| BitVal.PartialStep | src/xfsprogs/db/bit.c:107-126 | one turn of the bit loop, with its sign extension |
| BitVal.OrIsSum | src/xfsprogs/db/bit.c:113-124 | on integers in two's complement, or-ing a bit in is adding it while it and the lower bits are clear |
| BitVal.PartialIsClear | src/xfsprogs/db/bit.c:109-126 | before each turn of the loop the bits still to come are clear |
| BitVal.GetBitVal | src/xfsprogs/db/bit.c:63-128 | the field as an integer, the same by the aligned paths and by the bit loop with its or |
| BitVal.SetBitVal | src/xfsprogs/db/bit.c:131-184 | the bits of the field become the source's, turned around for integers, and no others change |
| BitVal.FieldOfInteger | src/xfsprogs/db/bit.c:166-183 | the turned bytes read as the integer they came from |
| BitVal.SetThenGet | src/xfsprogs/db/bit.c:63-184 | for 16, 32 and 64 bits at any bit offset and address, what is read back is what was written |
| FieldExpr.FlistSplit | src/xfsprogs/db/flist.c:329-412 | the tokenizer ends and returns the tokens, or fails at a bad character or an open quote |
| FieldExpr.FlistScan | src/xfsprogs/db/flist.c:261-327 | the parser returns the chain of names and indices, or fails for bad syntax |
| FieldExpr.PrintFlist | src/xfsprogs/db/print.c:99-158 | the prefixes printed for the leaves of a list of fields, in order |
| FieldExpr.PrefixesFollowPaths | src/xfsprogs/db/print.c:111-138 | one prefix for each leaf, made of what the nodes above it add |
| FieldExpr.SplitOfJoin | src/xfsprogs/db/flist.c:370-411 | texts printed one after another are split into exactly themselves |
| FieldExpr.QuotedText | src/xfsprogs/db/flist.c:373-383 | a text in quotes is one token, up to the last quote there is |
| FieldExpr.OpenQuote | src/xfsprogs/db/flist.c:373-383 | without a second quote it is an error |
| FieldExpr.PrintedNumber | src/xfsprogs/db/flist.c:293-306 | a number printed in decimal is read back with base zero |
| FieldExpr.BaseOfNumber | src/xfsprogs/db/flist.c:292-307 | digits are read in base sixteen after 0x, eight after another leading zero, and ten otherwise, up to what 64 bits hold; a digit that the base has not makes the number bad |
| FieldExpr.MisplacedX | src/xfsprogs/db/flist.c:292-307 | so does an x anywhere but in second place, between a zero and a digit |
| FieldExpr.IntOf | src/xfsprogs/db/flist.c:292-307 | the cast to int keeps the low 32 bits |
| FieldExpr.Characters | src/xfsprogs/db/flist.c:347-369 | the characters of names and numbers |
| FieldExpr.ScanPath | src/xfsprogs/db/flist.c:280-318 | the tokens of a path scan to its names and indices |
| FieldExpr.ScanPrinted | src/xfsprogs/db/flist.c:261-327 | what is printed for a path scans to the same names and index ranges |
| FieldExpr.ScanPrefixes | src/xfsprogs/db/print.c:99-158 | so does every prefix printed for a tree of fields |

## Left out

- Command lines, printing, progress output, help texts, memory allocation failures and the reading of signals.
- FUSE callbacks, mounting and system calls. libxfs functions that are called are functions of an abstract disk:
  `xfs_bmapi` answers mappings of a directory in which blocks are mapped as a whole, without two holes side by side.
- `fusexfs-trunk/src/xfsutil/xfsutil.c`: a near copy of the modelled file.
- NameTable.Names.Generate: the random bytes are arbitrary characters of the alphabet; `strlen`-terminated callers are not modelled.
- DumpStream.RestoreDump: marking the superblock in progress and the final superblock write of the restore, write errors, and block sizes below eight bytes, where the number of indices wraps.
- BlockGet.Checker.Blockget: the inode side of an AG is a list of claims and a number of errors; lazy counters, quotas, link counts and the realtime checks are a number of errors. Trees have at least one level. A free list that is walked has its first and last slot inside the list; `BlockGet.WalkStopsIff` and `BlockGet.WalkStaysInsideIff` are about the others. Ranges do not wrap 32 bits.
- DirHash.DirHash.CheckDirectory: blocks that cannot be read, and the index of free space (`freetab`) that free blocks are compared with. Data entries come before leaf entries, as the block order gives them.
- DirData.Walk.ProcessData: inode numbers, `.` and `..`, link counts and the table of free blocks. A byte behind the block that the program may look at counts as zero; the block is then faulty anyway.
- DirData.Walk.ProcessDirectory: blocks that cannot be read, the checks of leaf block headers and of the index of free space; the bytes of leaf blocks are a list of entries and a stale count.
- DirData.Walk.ProcessBlockDir: blocks that are missing or cannot be read, and the errors of inode numbers.
- RtBitmap.Summary.Process: the marking of extents in the realtime map. Where the scanned part of the file does not fit the table or an int (holes that push a run out of the table, 2^31 bits or cells and more), only `RtBitmap.Summary.LongRun` says what is counted. Int arithmetic wraps around.
- Bmap.Bmap: keys and pointers of an interior block are sequences; the macros that find them use the layout of a root. At least one block is asked for, and read errors are not modelled.
- Bmap.BmapCommand: the terminating case; the other is `Bmap.CommandStopsIff`.
- ReadFile.Reader.ReadFile: unwritten extents are read like others, as the program does; sizes and offsets do not wrap and `len` is at least one.
- ReadFile.Reader.CopyFile: the files for which `ReadFile.CopyStopsIff` says that the loop does not stop; what is copied of a file longer than a chunk with a block that cannot be read. A write with a negative count fails. A positive error of reading the extents is at most the chunk size, as all error numbers are, and a chunk has at least five bytes.
- ShortDirs.BlockGetdents: a block that cannot be read.
- LeafDir.LeafGetdents: read errors and read-ahead; a buffer size of zero where a directory block has more than one block (`LeafDir.RequestWithoutBuffer`).
- CopyProtocol.Safety: signals, `killall`, and a round without any active target, which only waits. Semaphore-like mutexes are open or closed; the order in which waiting threads are let in is arbitrary.
- CopyCoverage.Copier.CopyGroup: the descent to the leftmost leaf and the checks of the tree; one AG at a time; the buffer size is a multiple of the I/O unit, and free extents are in order, none overlapping, and start after the AG header. The rewriting of the log is not modelled.
- BitVal.GetBitVal: little-endian hosts only.
- FieldExpr.ScanPrefixes: names start with a letter and hold letters, digits and underscores, but for an unnamed root; matching names with the fields of a type (`flist_parse`) is not modelled.
- Out-of-order changes of a block map (`blkmap_set_blk` and its helpers), `xfs_isset`, `xfs_estimate`, `xfs_growfs` and `xfs_fsr`.
