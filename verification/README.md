# FreeMiNT storage stack: a verified model

FreeMiNT keeps files on FAT volumes, behind a write-back cache, over devices that may be encrypted.
This project models that stack and four smaller kernel modules in Dafny, and proves what they promise.

| file | what it models |
|---|---|
| `Machine.dfy` | bytes, kernel error numbers, products and splices used everywhere |
| `FatEncoding.dfy` | entries of a 12, 16 and 32-bit FAT as packed bytes |
| `FatLinks.dfy` | the FAT as a graph: walks, chains, what creating, extending, deleting and truncating does to all files of a volume |
| `FatTable.dfy` | `getcl`, `fixcl`, `newcl`, `ffree`, `nextcl` and `del_chain` on the bytes of all FAT copies |
| `FatData.dfy` | a file's bytes as those of its clusters; transfers over neighbouring clusters |
| `FatFile.dfy` | `__FIO`, `fatfs_lseek`, `__FTRUNCATE` |
| `ShortNames.dfy`, `LongNames.dfy` | 8.3 names, and the directory slots of long names |
| `BlockUnit.dfy` | cached units, the dirty queue, the hash table, the device descriptor |
| `BlockAlloc.dfy` | the chunk map of a cache block |
| `BlockIO.dfy` | the cache: allocation with eviction, reads, writes, write-back, locks, invalidation |
| `CryptIO.dfy` | Blowfish, CBC restarted at every sector, the crypting transfer routine |
| `CryptedCache.dfy` | the cache over a crypted device |
| `BiosRing.dfy` | the serial ring buffers shared with interrupt handlers |
| `SocketQueue.dfy` | the queue of connecting sockets |
| `FileLocks.dfy`, `ShareModes.dfy` | record locks, share modes |

How the parts are stated:

- **FAT.** `DevInfo.Links()` is what the bytes of the active copy mean. Every operation is specified by
  what it does to the links, to the other copies and to the reserved bits; the effect on all files at
  once is proved on values (`Forest`), for every run. A file is `Content`: the first `flen` bytes of its
  chain.
- **Cache.** `Di.view` is the device as its users see it. `Cache.Valid()` says that cached bytes are
  those of the view, that the medium differs from the view only under queued units, and that hash
  table, queue, chunk maps, lock counts and the door of removable media are in order. Every operation
  keeps `Valid()`; whatever its frame does not name, it does not change, so reading, evicting and
  writing back leave every view as it is. `layout` records the one block size in use at each place, so
  units never overlap.
- **Crypting.** `CryptDi.View()` is the decrypted device. A device keeps a log of its transfers with
  their bytes, and its medium is what they make of the first contents (`Di.History`); `CryptedCache`
  sends that log through the crypting layer and shows that the disk then decrypts to what the users of
  the cache see.
- **Rings.** `log + Content()` is everything a ring has passed on, followed by what it holds.
  Interrupts are nondeterministic steps between the statements.
- **Sockets, locks, shares.** The lists are real linked lists; their invariants speak of every pair.

## Model

| member | source | states |
|---|---|---|
| FatEncoding.PutFrame | sys/fatfs.c:2044-2248 | storing an entry stores it and changes no other cluster's entry, although 12-bit neighbours share a byte |
| FatEncoding.Put12Frame | sys/fatfs.c:2044-2126 | the 12-bit case: both half-entries of a shared byte survive, for odd and even clusters |
| FatEncoding.DecodeOfPut | sys/fatfs.c:2044-2248 | storing a link (cluster, free, last, bad) replaces exactly that link in the decoded table |
| FatEncoding.RawFree32Means | sys/fatfs.c:2593-2602 | the test on the unswapped 32-bit value is true exactly for free entries, whatever the reserved bits are |
| FatEncoding.LinkBytes12 | sys/fatfs.c:1719-1733 | what the one and a half bytes of a 12-bit entry mean: free for 0, the next cluster for 2 to MAXCL, bad for ff0 to ff7, the end from ff8 on, illegal else |
| FatEncoding.LinkBytes16 | sys/fatfs.c:1719-1733 | the same for the two bytes of a 16-bit entry, with fff0 and fff8 |
| FatEncoding.LinkBytes32 | sys/fatfs.c:1719-1733 | the same for the four bytes of a 32-bit entry, of which the highest half-byte does not count |
| FatLinks.WalkCompose | sys/fatfs.c:1917-1974 | m + n steps along the links are m steps followed by n steps, errors included |
| FatLinks.ChainAcyclic | sys/fatfs.c:2693-2786 | a chain that ends in CLLAST visits no cluster twice |
| FatLinks.ChainsMeet | sys/fatfs.c:2693-2786 | two chains that share a cluster are the same from there on |
| FatLinks.DeletedChain | sys/fatfs.c:2733-2786 | deleting a chain frees exactly its clusters and succeeds |
| FatLinks.DeletedLoop | sys/fatfs.c:2733-2786 | on a cyclic list deletion frees the clusters once and ends with an error |
| FatLinks.DeletedOnlyFrees | sys/fatfs.c:2733-2786 | on any table, deletion only clears entries |
| FatLinks.ForestStep | sys/fatfs.c:2693-2786 | creating, extending, deleting, truncating keep all chains acyclic, disjoint, ended, and the free counter exact |
| FatLinks.ForestRun | sys/fatfs.c:2693-2786 | the same for every run of these operations |
| FatTable.DevInfo.GetCl12 | sys/fatfs.c:1835-1915 | n steps with reuse of the current three-sector unit are n single steps, with the same errors; the answer of a single step in terms of the bytes of the entry, every end mark from ff8 on included |
| FatTable.DevInfo.GetClWide | sys/fatfs.c:1917-2038 | n steps with reuse of the current sector are n single steps, with the same errors; the answer of a single step in terms of the bytes of the entry, every end mark included |
| FatTable.DevInfo.FixCl12 | sys/fatfs.c:2044-2126 | changes exactly one link; copies that agreed still agree; the bytes of the copy are those with the number put in, fff for the end of a chain |
| FatTable.DevInfo.FixCl16 | sys/fatfs.c:2128-2182 | changes exactly one link; copies that agreed still agree; the bytes of the copy are those with the number put in, ffff for the end of a chain |
| FatTable.DevInfo.FixCl32 | sys/fatfs.c:2184-2248 | changes exactly one link; mirrored copies still agree; the four reserved bits of every entry stay; the bytes of the copy are those with the number put in, fffffff for the end of a chain |
| FatTable.DevInfo.NewCl12 | sys/fatfs.c:2255-2295 | returns the first free cluster of those searched, from the hint to MAXCL and then from 2 on, or EACCES exactly if none of them is free; returns MAXCL exactly if its entry is free, the hint is not 2, and from the hint to MAXCL-1 none is |
| FatTable.DevInfo.NewClWide | sys/fatfs.c:2297-2448 | the first free cluster of those searched, for newcl16 and newcl32, from any hint, around the end of the FAT; EACCES exactly if none of them is free |
| FatTable.DevInfo.FindsOne | sys/fatfs.c:2255-2448 | a table and a hint determine the cluster found |
| FatTable.DevInfo.FindsMaxcl | sys/fatfs.c:2270-2291 | when a 12-bit search ends at MAXCL, as a condition on the table and the hint |
| FatTable.DevInfo.FindsMaxclHere | sys/fatfs.c:2270-2291 | the nine bytes of a FAT with all data clusters in use from which MAXCL is handed out |
| FatTable.DevInfo.FindsNothingHere | sys/fatfs.c:2366-2448 | a table with a free cluster that newcl32 does not find while another copy than the first is active |
| FatTable.DevInfo.FoundBelow | sys/fatfs.c:2270-2291 | on FAT12, with the entry MAXCL free, a search finds a cluster behind the hint as long as there is one in front of MAXCL |
| FatTable.DevInfo.FoundBehind | sys/fatfs.c:2270-2291 | and MAXCL itself when there is none, or nothing from cluster 2, even if there are free clusters in front of the hint |
| FatTable.DevInfo.RoomStep | sys/fatfs.c:2255-2448 | each cluster a growing chain gets leaves room for one less, so that Room is the number it can get |
| FatTable.DevInfo.RoomIsFree | sys/fatfs.c:2255-2448 | that number is the number of free clusters; on FAT12 exactly unless all that are free are the cluster in front of the hint and the one of the hint |
| FatTable.DevInfo.SearchComplete | sys/fatfs.c:2255-2448 | exactly when the search looks at every data cluster: always for FAT16 and the first copy of FAT32; for FAT12 only from cluster 2 |
| FatTable.DevInfo.SearchMisses | sys/fatfs.c:2270-2291 | newcl12 from cluster 3 does not look at cluster 2 |
| FatTable.DevInfo.FFree12 | sys/fatfs.c:2455-2479 | counts the free entries up to MAXCL |
| FatTable.DevInfo.FFreeWide | sys/fatfs.c:2481-2674 | counts exactly the free entries of 2 to MAXCL-1, sector by sector |
| FatTable.DevInfo.FFree32Fast | sys/fatfs.c:2567-2620 | the count on a private copy of the FAT is the same number |
| FatTable.DevInfo.NextCl | sys/fatfs.c:2693-2731 | follows the chain, or appends the cluster that the search finds and counts it; nothing else changes |
| FatTable.DevInfo.DelChain | sys/fatfs.c:2733-2786 | ends on every table, even a cyclic one; frees what the links lead to; the counter follows; mirrors agree |
| FatData.ReadRun | sys/fatfs.c:8066-8116 | one transfer over neighbouring clusters reads what the file has there |
| FatData.WriteRun | sys/fatfs.c:8066-8116 | one transfer into neighbouring clusters replaces that range of the file and nothing else of it |
| FatData.BytesFrame | sys/fatfs.c:8066-8116 | lists of clusters that avoid the run keep all their bytes |
| FatFile.FileSys.RunRead | sys/fatfs.c:8068-8095 | the clusters gathered for one transfer follow each other, on the medium as in the chain |
| FatFile.FileSys.Read | sys/fatfs.c:7978-8183 | reading gives exactly the bytes from the position on, as many as there are; the handle stays in step; an error left by an earlier transfer is reported once |
| FatFile.FileSys.Write | sys/fatfs.c:7978-8183 | on all three FAT types: a write for which there is room, or whose rest begins with a whole cluster (Fits), overlays its bytes, cut off at the last cluster that can be had, sets the length to the maximum and keeps the chain as a prefix; any other puts the bytes that find room in their place and the others over the last cluster (Spoilt), and makes the file longer than its clusters; other files keep their bytes; on a FAT12 volume with a free entry MAXCL, for writes that fit into the clusters found before it; the chain gets no cluster behind the one for the last byte (Snug); an error left by an earlier transfer is reported once |
| FatFile.FileSys.AvailIsFree | sys/fatfs.c:2693-2731 | how many clusters a file can still get: all that are free, with the exact exception of FAT12 |
| FatFile.FileSys.SlackEnds | sys/fatfs.c:2270-2291 | what a file on a FAT12 volume with a free entry MAXCL is given when these are used up: MAXCL, or nothing if its last cluster is 2 |
| FatFile.FileSys.AstrayBegins | sys/fatfs.c:8044-8144 | where the room ends: a whole cluster is refused and the file is in order, or a part of one goes astray |
| FatFile.FileSys.HandlesKept | sys/fatfs.c:8031-8044 | another handle of the file still knows its cluster after a write, exactly unless it was opened on a file without clusters that has some by now |
| FatFile.EmptyFileHandle | sys/fatfs.c:8031-8044 | a handle opened on a new file that does not learn of the first cluster another handle gives it |
| FatFile.FileSys.HandlesCut | sys/fatfs.c:7920-7976 | another handle is in order after a truncation or a deletion of the clusters exactly if the file still has the cluster with its number, or never had one |
| FatFile.StaleHandle | sys/fatfs.c:7920-7976 | a handle at the second cluster of a file that is cut to 100 bytes through another one |
| FatFile.NoGoodEnd | sys/fatfs.c:8044-8144 | 1500 bytes written to a volume with one cluster of 1024: all are taken, and the last 476 are stored over the first ones |
| FatFile.FileSys.LSeek | sys/fatfs.c:8303-8381 | the place is counted from the beginning, the position or the end, computed as a long, and reached from 0 on, a negative one refused; the handle knows the cluster there, for the end of the file and everything behind it the last one with bytes of the file |
| FatFile.FileSys.FTruncate | sys/fatfs.c:7920-7976 | keeps the first newlen bytes and exactly the clusters that hold them, at least one; lengths are compared signed but divided and stored unsigned, so a negative one is refused at the end of the chain, and nothing changes, exactly if the chain has fewer clusters than the unsigned length needs; EROFS on a read-only volume and EBADARG for a longer length, both without effect |
| FatFile.FileSys.NeedsKeeps | sys/fatfs.c:7920-7946 | the number of clusters kept holds the length, and one less does not |
| FatFile.FileSys.NeedsOnly | sys/fatfs.c:7920-7946 | no other number does, and every chain that holds the length has as many clusters |
| FatFile.MinusOne | sys/fatfs.c:7920-7955 | a length of -1 is refused with CLLAST for a file with one cluster, which stays as it is |
| FatFile.MinusTwoGB | sys/fatfs.c:7920-7967 | a file that owns 2 GB of clusters grows by being truncated to -2147483648 |
| FatFile.FileSys.TruncateOpen | sys/fatfs.c:8422-8440 | truncation through a handle leaves its position alone and the handle at a cluster that still exists, whatever the length |
| FatFile.FileSys.Discard | sys/fatfs.c:8222-8246 | opening with O_TRUNC frees the whole chain and no other |
| ShortNames.Dir2Str | sys/fatfs.c:2807-2836 | prints base and extension as Printed says |
| ShortNames.Str2Dir | sys/fatfs.c:2838-2884 | enters a name as Entered says, "." and ".." included |
| ShortNames.PrintedThenEntered | sys/fatfs.c:2807-2884 | an entry survives being printed and entered exactly if its extension does not begin with a character above 0x7f or a control character |
| ShortNames.EnteredThenPrinted | sys/fatfs.c:2807-2884 | a name survives being entered and printed on the same condition |
| ShortNames.ExtensionLost | sys/fatfs.c:2823 | an extension that does not survive |
| ShortNames.DotBetween | sys/fatfs.c:2807-2884 | the two forms of "A.B", byte by byte |
| ShortNames.DotDot | sys/fatfs.c:2838-2884 | the entry for ".." |
| LongNames.PartOf | sys/fatfs.c:4308-4320 | the characters of a slot: the name's, one NUL if it fits, 0xffff behind it |
| LongNames.CopyToVfat | sys/fatfs.c:4293-4328 | a slot holds the part of the name that its number says, and its other fields stay |
| LongNames.TurnMeans | sys/fatfs.c:4485-4493 | one step of the checksum: bit 7 of the sum comes from its bit 0 and every other bit from the one above, then the character is added without the carry |
| LongNames.SumMeans | sys/fatfs.c:4485-4493 | the loop computes the sum that these steps lead to, and there is one |
| LongNames.SumOfReadme | sys/fatfs.c:4485-4493 | "README  TXT" has the checksum 0x73 |
| LongNames.SumOfAB | sys/fatfs.c:4485-4493 | "AB" has 0x91 ... |
| LongNames.SumOfBA | sys/fatfs.c:4485-4493 | ... and "BA" 0x51: the order of the characters counts |
| LongNames.Dir.WriteName | sys/fatfs.c:4480-4538 | the slots are written last part first, numbered down, marked, each with the sum of the short name (SumOf) in its byte 13; the short entry is behind them, all others stay |
| LongNames.Dir.ReadVfat | sys/fatfs.c:3683-3804 | what was written for a name is read back as that name and its slot count, also for multiples of 13; a short buffer gets its beginning and EBADARG; a positive result only for coherent slots whose byte 13 is the sum of the short entry; otherwise nothing is delivered, and the directory stands in front of the first entry that does not fit (Unfit); `outside` exactly if the head announces no slot or more than the 19 there is room for |
| LongNames.Dir.NotNul | sys/fatfs.c:3755-3775 | the terminator found from the end is the end of the name |
| BlockUnit.Di.WbqInsert | sys/block_IO.c:822-872 | the doubly linked queue stays well formed; the unit is at its sorted place |
| BlockUnit.Di.WbqRemove | sys/block_IO.c:880-902 | the queue stays well formed without the unit |
| BlockUnit.Di.WbqGetFirst | sys/block_IO.c:910-929 | the first unit is taken; the rest stays well formed |
| BlockUnit.Di.RwAbsWrite | sys/block_IO.c:451-498 | pieces of 65535 sectors write the same as one transfer; wrong ranges are refused untouched |
| BlockUnit.Di.RwAbsRead | sys/block_IO.c:451-498 | pieces of 65535 sectors read the same as one transfer |
| BlockUnit.Di.HashLookup | sys/block_IO.c:640-660 | finds the unit of a sector exactly if there is one |
| BlockUnit.HashSpreads | sys/block_IO.c:630-638 | sectors of one group of 256 share no bucket |
| BlockUnit.Di.MarkModified | sys/block_IO.c:2331-2342 | the unit is queued in sector order, counted once, the door locked; nobody sees a difference |
| BlockUnit.Di.LockUnit | sys/block_IO.c:2284-2301 | the lock count stays one plus dirty units plus unit locks; the door of removable media is locked |
| BlockUnit.Di.UnlockUnit | sys/block_IO.c:2303-2323 | the same count; the key of a removable device becomes 0 exactly when it drops to one |
| BlockUnit.AgreeWriteBack | sys/block_IO.c:940-950 | writing the view back in a range may forget the units inside it and no others |
| BlockUnit.AgreeMiss | sys/block_IO.c:1979-2005 | where no queued unit lies, the medium is up to date |
| BlockAlloc.UnitsApart | sys/block_IO.c:1070-1114 | units of one block share no chunk |
| BlockAlloc.ChunksHold | sys/block_IO.c:603-607 | a unit takes the least number of chunks of 512 bytes that hold it |
| BlockAlloc.AllocRemove | sys/block_IO.c:1070-1114 | removing a unit frees exactly its chunks; map, positions and counter still agree |
| BlockAlloc.ClaimEvict | sys/block_IO.c:1286-1298 | evicting a unit that straddles the claimed range disturbs no chunk already claimed |
| BlockAlloc.ClaimDone | sys/block_IO.c:1286-1301 | after the claim map, positions and counter agree again |
| BlockIO.Cache.ChooseBlock | sys/block_IO.c:1170-1208 | the first unlocked block with room to spare, else the unlocked one used least recently (BestBlock); exactly when there is none of either kind |
| BlockIO.Cache.CostOf | sys/block_IO.c:1225-1250 | the loop computes the cost of a range in 32-bit arithmetic: comparing with the covered chunk seen last charges a unit exactly where the range first meets it |
| BlockIO.Cache.SeenBefore | sys/block_IO.c:1229-1240 | that comparison holds exactly if the chunk in front is not the same unit's |
| BlockIO.Cache.ChargedOnce | sys/block_IO.c:1225-1250 | each unit that has a chunk in the range is charged for once and only once |
| BlockIO.Cache.CostAlone | sys/block_IO.c:1225-1250 | what a unit alone in its range costs: its size less the time since it was used, twice that if it is dirty |
| BlockIO.Cache.CostFree | sys/block_IO.c:1225-1250 | free chunks cost less than nothing, 512 each |
| BlockIO.Cache.OlderGoes | sys/block_IO.c:1225-1250 | of two such units the one not used for longer costs less |
| BlockIO.Cache.DirtyStays | sys/block_IO.c:1225-1250 | a dirty unit costs more than a clean one used at the same time, exactly unless that was as many ticks ago as they have bytes |
| BlockIO.Cache.ChooseRange | sys/block_IO.c:1219-1257 | the first of the cheapest ranges (BestRange) |
| BlockIO.Cache.Evict | sys/block_IO.c:1120-1128 | a dirty unit reaches the medium before it leaves; all invariants stay |
| BlockIO.Cache.UnitGet | sys/block_IO.c:1134-1310 | a unit for a new block, in the best block and there in the cheapest range, unit and block stamped with the time; ESECTOR exactly for a bad range, ENOMEM exactly if every unlocked block is too full and used too lately; only unlocked units are evicted, no view and no lock changes, one unit a sector |
| BlockIO.Cache.Lookup | sys/block_IO.c:640-660 | the unit of a sector if there is one; it and its block are stamped with the time, and nothing else is |
| BlockIO.Cache.Read1 | sys/block_IO.c:1979-2005 | the unit returned holds what the users of the device see; if the block is in the cache already, nothing but the times changes |
| BlockIO.Cache.PutBlock | sys/block_IO.c:2237-2240 | filling and marking a unit changes the view exactly in its place; the medium is not touched |
| BlockIO.Cache.UnitsAdd | sys/block_IO.c:2028-2068 | adding blocks just read changes no view; nothing is added above the given share of the cache, and all up to the last block below it, unless all blocks of the cache are locked |
| BlockIO.Cache.LRead | sys/block_IO.c:2070-2151 | the caller's buffer gets the view of the range, from units and joint transfers in any mixture; the rest of it stays; if all of it is in the cache, nothing is evicted and the medium is left alone |
| BlockIO.Cache.MissedSame | sys/block_IO.c:2086-2105 | a run of blocks without units can be read from the medium |
| BlockIO.Cache.RegionBlock | sys/block_IO.c:2164-2190 | the units a direct write drops lie wholly inside its range, all others outside |
| BlockIO.Cache.LargeWrite | sys/block_IO.c:2153-2207 | view and medium change exactly in the range, in one transfer; exactly the units in it are dropped, unwritten |
| BlockIO.Cache.SmallWrite | sys/block_IO.c:2209-2246 | the view changes exactly in the range, also when it falls back to a direct write half-way |
| BlockIO.Cache.LWrite | sys/block_IO.c:2248-2262 | the view changes exactly in the range; what is larger than a cache block goes to the medium in one transfer, and what is not, and has all its units already, leaves the medium alone |
| BlockIO.Cache.GatherRun | sys/block_IO.c:1010-1040 | one joint transfer of at most WB_BUFFER bytes, as the device's log records it with its bytes, over all units taken from the queue; the unit behind the last one taken does not follow it or would not fit |
| BlockIO.Cache.WrittenEachAll | sys/block_IO.c:996-1048 | written one by one, the dirty units bring the medium up to date |
| BlockIO.Cache.WbQueue | sys/block_IO.c:996-1048 | ends with an empty queue and no dirty unit; every transfer on the device's log is at most WB_BUFFER long or one queued unit in its place, every queued unit lies in one of them, and there are no others; none could have taken along the unit that the next one begins with (Series); the medium is the view, as after writing each unit by itself |
| BlockIO.Cache.SyncDrv | sys/block_IO.c:2344-2358 | after a sync medium and view agree, and a removable medium without locks is released |
| BlockIO.Cache.Lock | sys/block_IO.c:2284-2301 | unit, block and device are counted together |
| BlockIO.Cache.Unlock | sys/block_IO.c:2303-2323 | the counts go down together, and not at all for an unlocked unit; the key of a removable device is 0 when nothing is held any more, and 1 as long as something is |
| BlockIO.Cache.Invalidate | sys/block_IO.c:2410-2461 | the view becomes the medium; the cache is in order afterwards exactly if nothing was dirty or locked |
| BlockIO.DirtyForgotten | sys/block_IO.c:2410-2461 | a device whose lock count still has a dirty unit that was forgotten |
| CryptIO.Key.Encipher | sys/libkern/blowfish.c:88-118 | the unrolled rounds are the network |
| CryptIO.Key.Decipher | sys/libkern/blowfish.c:120-150 | the unrolled rounds are the network backwards |
| CryptIO.Key.DecOfEnc | sys/libkern/blowfish.c:88-150 | decipherment inverts encipherment, for every key and every S-box function |
| CryptIO.XorMeans | sys/crypt_IO.c:93-127 | mixing two blocks is the exclusive or of their words |
| CryptIO.Key.EncMeans | sys/libkern/blowfish.c:88-118 | encipherment as a row of words, each of which is mixed from the two in front of it and the next word of P |
| CryptIO.Key.DecMeans | sys/libkern/blowfish.c:120-150 | decipherment as such a row, with the words of P from the last to the first |
| CryptIO.ChainUndone | sys/crypt_IO.c:93-127 | CBC decryption inverts CBC encryption |
| CryptIO.ChainAt | sys/crypt_IO.c:93-127 | what is mixed into a block of a chain: the enciphered block in front of it |
| CryptIO.FromAt | sys/crypt_IO.c:159-229 | what is mixed into a block of a range: the enciphered block in front of it in its sector, and the sector's number at the beginning of one; sector 0 is left in clear |
| CryptIO.SectorsUndone | sys/crypt_IO.c:159-229 | the same with the chain restarted at every sector |
| CryptIO.SectorsJoin | sys/crypt_IO.c:159-229 | crypting a range is crypting its sectors one by one, however it is split |
| CryptIO.CryptBlock | sys/crypt_IO.c:159-229 | the loop with the running feedback register crypts in place, sector by sector, and nothing around the range; block by block, each is mixed with the enciphered one in front of it, or with the number of its sector |
| CryptIO.MeaningOfWrite | sys/crypt_IO.c:231-267 | an encrypted transfer changes the decrypted device exactly in its range |
| CryptIO.CryptDi.RwabsCrypto | sys/crypt_IO.c:231-267 | reads and writes act on the decrypted device, sector 0 in clear, and a write leaves its encrypted sectors on the disk; after a successful write the buffer is as before, after a failed one it is encrypted; what is on the disk after a write, and in the buffer after a read, block by block (Ciphered, Deciphered) |
| CryptedCache.BlocksOnly | sys/crypt_IO.c:93-127 | bytes taken as 64-bit blocks can be told apart by these |
| CryptedCache.OctetBits | sys/crypt_IO.c:208-212 | a byte and its bits |
| CryptedCache.BytesPlaced | sys/crypt_IO.c:208-212 | which byte is where in a block: the first four are the left word, the most significant one first |
| CryptedCache.SentOne | sys/crypt_IO.c:231-267 | a transfer sent through the crypting layer does to what the disk means what the transfer does to a plain medium |
| CryptedCache.SentAll | sys/crypt_IO.c:231-267 | after all transfers of a cached device, in every run, the crypted disk means what the cache takes the medium for |
| CryptedCache.Send | sys/crypt_IO.c:231-267 | rwabs_crypto makes each of these steps |
| CryptedCache.Fetch | sys/crypt_IO.c:231-267 | a read through the crypting layer gives what the disk means, which the cache expects from its medium |
| CryptedCache.MeansOne | sys/crypt_IO.c:159-229 | a disk has one meaning, so what is read back is what was written |
| CryptedCache.WriteSecretly | sys/block_IO.c:2248-2358 | what is written through the cache and synced is what the crypted disk decrypts to, whatever other transfers there were |
| BiosRing.IoRec.CopyFew | sys/biosfs.c:1618-1632 | the byte loop stores the bytes behind the tail, around the end of the ring, while bytes are sent |
| BiosRing.IoRec.CopyMany | sys/biosfs.c:1634-1651 | the block copy stores the same, in one or two pieces, while bytes are sent |
| BiosRing.IoRec.Commit | sys/biosfs.c:1653-1679 | the hand-over with an empty ring loses and doubles nothing, whether the driver sends the byte or queues it |
| BiosRing.IoRec.WriteRound | sys/biosfs.c:1529-1651 | a round of a blocking write waits exactly if there are fewer than two places, or too few for the rest and less than half of the ring, and else writes the rest as far as there is room |
| BiosRing.IoRec.IWrite | sys/biosfs.c:1529-1681 | what went out followed by what is in the ring grows by exactly the bytes written, under every interleaving; without blocking these are exactly as many as there is room for at first; with blocking all of them, in rounds of which each writes or waits as WriteRound says (Wrote), or EINTR after exactly one wait more than the caller can sleep |
| BiosRing.IoRec.TakeFew | sys/biosfs.c:1787-1805 | the byte loop takes the oldest bytes, around the end of the ring, while bytes arrive |
| BiosRing.IoRec.TakeMany | sys/biosfs.c:1807-1832 | the block copy takes the same; bytes arrive between its pieces and before the head moves |
| BiosRing.IoRec.IRead | sys/biosfs.c:1770-1858 | returns and removes exactly the oldest bytes, as many as asked for and there; what arrives meanwhile stays in order |
| BiosRing.FollowingMore | sys/biosfs.c:1608-1651 | bytes behind the tail are appended when the tail moves over them |
| SocketQueue.Socket.Enqueue | sys/ipc_socketutil.c:335-361 | the client is linked at the end exactly if the backlog allows |
| SocketQueue.Socket.Unlink | sys/ipc_socketutil.c:254-271 | a client leaves the list wherever it is |
| SocketQueue.Connect | sys/ipc_socketutil.c:322-373 | refusals change nothing; a client waits at the end of the queue; the invariant of all sockets stays |
| SocketQueue.Accept | sys/ipc_socketutil.c:396-435 | the client that came first is connected, both ways; without one, nothing changes |
| SocketQueue.SockPair | sys/ipc_socketutil.c:303-310 | both ends are connected to each other |
| SocketQueue.RefuseAll | sys/ipc_socketutil.c:232-241 | every waiting client is refused and the queue is empty |
| SocketQueue.LeaveQueue | sys/ipc_socketutil.c:244-277 | a waiting client leaves exactly the queue it is in; the others there keep their order |
| SocketQueue.Release | sys/ipc_socketutil.c:210-301 | whatever state the socket was in, it is in no queue and has none, its clients and its peer know; every other queue is what it was without the socket, in the same order, nobody else's state or connection changes, and the invariant of all sockets stays; it is marked as closing |
| SocketQueue.ArrivalOrder | sys/ipc_socketutil.c:210-435 | in every run of arrivals, acceptances and departures, the accepted clients and behind them the waiting ones are in the order of their arrival |
| FileLocks.InTheWayExact | sys/filesys.c:1373-1407 | the comparison of starts and ends is true exactly for locks of different processes, one of them for writing, that share a byte, or of which one covers nothing and starts inside the other |
| FileLocks.RivalsMeans | sys/filesys.c:1373-1407 | locks of different processes, one of them of type 1, the type for writing |
| FileLocks.StopsWhen | sys/filesys.c:1373-1407 | only a negative length that stays above byte 0 makes a lock of nothing; without such locks the comparison finds exactly the conflicts |
| FileLocks.StopsNothing | sys/filesys.c:1373-1407 | a lock of nothing that is refused |
| FileLocks.CoversMeans | sys/filesys.c:1380-1392 | the bytes covered for positive, zero and negative lengths |
| FileLocks.LockList.DenyLock | sys/filesys.c:1373-1407 | finds a lock exactly if the comparison holds for one, and the first one for which it does |
| FileLocks.LockList.SetLk | sys/fatfs.c:8545-8598 | for every length: a lock is entered exactly if the comparison holds for none; no two locks held are ever in conflict |
| FileLocks.LockList.UnLk | sys/fatfs.c:8513-8543 | exactly one lock goes, the first one of the process with the start and the length given, or, for length 0, with a start not below the one given; ENSLOCK exactly if there is none; the locks of other processes stay |
| FileLocks.LockList.OthersWithout | sys/fatfs.c:8513-8543 | taking out a lock of the process leaves the list of the others' locks as it is |
| FileLocks.LockList.CloseLocks | sys/fatfs.c:8660-8687 | exactly the locks of the process go |
| FileLocks.LockList.OthersAre | sys/fatfs.c:8660-8687 | what is left are the locks of other processes, all of them |
| ShareModes.CompatibleMeans | sys/filesys.c:1239-1326 | which modes go together, in the numbers of the fields |
| ShareModes.NeedsOwnerMeans | sys/filesys.c:1290-1315 | when the compatibility mode asks for the same process: for writing, if the file is open in that mode, or is to be and is open for writing |
| ShareModes.Cookie.DenyShare | sys/filesys.c:1239-1326 | denies exactly if an open handle and the new one do what the other denies, or the compatibility mode needs another owner |
| ShareModes.Cookie.Open | sys/fatfs.c:8189-8264 | opened exactly if nothing is denied and the file may be opened; for any two open handles neither does what the other denies; the file counts one more handle |
| ShareModes.Cookie.Close | sys/fatfs.c:8689-8718 | the handle leaves the list with its last link; the others stay compatible |

## Left out

Where the code does not do what it seems to promise, and what is proved instead:

- `newcl12` tries too few clusters: it never looks at the one before the hint. `SearchComplete` states when it sees everything, `RoomIsFree` what that costs a growing file.
- `newcl12` looks at MAXCL, which has no data, and may return it: `NewCl12` and `FindsMaxcl` state exactly when, `FindsMaxclHere` gives a table.
- `newcl32` with mirroring switched off and another active copy than the first takes every sector for the last one and looks at two sectors only; `SearchComplete` has the condition, `Room` counts what a file can get, `FindsNothingHere` gives a table.
- A write that runs out of clusters in the middle of a cluster goes over earlier bytes of the file; `Write` states exactly when (`Fits`) and what is stored then (`Spoilt`), `NoGoodEnd` gives a volume and a file.
- A handle opened on a file without clusters does not learn of the first one when another handle writes it; `HandlesKept` states that this is the only case, `EmptyFileHandle` shows it.
- `__FTRUNCATE` compares lengths as signed numbers, but divides and stores them as unsigned ones. `Truncated` states the outcome for every length: a negative one is refused at the end of the chain (`MinusOne`), unless the file owns clusters for more than 2 GB; then it grows (`MinusTwoGB`).
- `fatfs_lseek` computes its target as a long, so the end of a file of 2 GB cannot be sought; `SeekTargetHeld` states which targets are computed right.
- Other handles of a file are not led back when it is truncated or its clusters are deleted; `HandlesCut` states exactly which of them are in order afterwards, `StaleHandle` shows one that is not.
- The cost that `bio_unit_get` gives a dirty unit is twice that of a clean one, also when it is negative: units not used for long go the sooner for being dirty. `DirtyStays` has the condition.
- `denylock` takes a lock with a negative length, which covers nothing, for a conflict if it starts inside another; `InTheWayExact` and `StopsWhen` have the condition.
- `bio_invalidate` leaves the device's lock count as it was; `Invalidate` states exactly when that does no harm, `DirtyForgotten` gives a cache where it does.
- `dir2str` compares a signed character with a space and drops extensions that begin above 0x7f; the names lemmas state exactly which names are kept.

What the model does not have:

- I/O errors and failing memory allocation; a transfer fails only for a wrong range. Blocking, retries and the waiting for a unit under I/O: between two calls every operation is complete.
- 32-bit wrap-around of file positions, sector numbers and byte counts (the cost search of the cache, the target of `fatfs_lseek` and the lengths in `__FTRUNCATE` have it).
- The cache keeps block data, chunk maps and hash chains as sequences that are reassigned, and a unit's data as a range of its block, not as a pointer into it. The access clock does not run.
- Resident units, changes of the cache size, `bio_write` (marking and writing back at once).
- `FatFile.FileSys.Write`: where the entry MAXCL of a FAT12 volume is free (`slack`), a write that needs more clusters than the search finds before MAXCL is not modelled, because the file would be given a cluster outside the data area; `SlackEnds` states when that happens. Bytes between the old end of the file and a later position are not specified, because the code does not set them.
- The FAT and file operations work on the bytes of a volume as the users of the cache see them; they are not taken apart into calls of the cache.
- The check of open modes in `__FIO`'s callers, symbolic links, time stamps, `write_cookie`, directories as files.
- The long name of a directory entry is limited to 19 slots, which is what the kernel's buffer holds. `make_shortname`, `is_short`, the search for free entries and the conversion tables; the two conversions are assumed to be inverse.
- `LongNames.Dir.ReadVfat`: what happens when it answers `outside`, beyond the kernel's buffer, is not modelled.
- Crypting of buffers at odd addresses, the S boxes and the key schedule of Blowfish. Sizes are whole sectors.
- In the rings: line disconnection, the reading that waits for a minimum of characters, the length of sleeps. `BiosRing.IoRec.IWrite`: a number of naps bounds the waiting; after that a signal ends it.
- Sockets: what happens while `so_connect` and `so_accept` sleep, the protocol's own operations (they do not touch queues), `so_register` and `so_unregister`.
- `FileLocks.LockList.SetLk`: the start is given as the kernel has made it, absolute and clamped to 0. Waiting for a lock (`F_SETLKW`) repeats the test.
- Which handles the current process has open is a parameter of `denyshare`.
- Path lookup, renaming, removal of directories, the cookie cache, labels, media change, device discovery: other parts of the kernel decide them.
