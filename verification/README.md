# dt-utils: a verified model

dt-utils keeps a small set of boot variables (a *state*) in several redundant copies on flash, EEPROM or
block media, and reads them back after a power loss. This project models that storage stack, the
two data formats on top of it, the flattened device tree printer and parser, the hash and checksum code,
the ring that threads all nodes of a device tree, and the base64 decoder, and proves what they promise.
Code that changes things in place is modelled by classes and loops over arrays; each method is proved
to compute a function, and the theorems are about runs of those functions.

- `CircularLog`, `Buckets`, `BucketDrivers`: one copy. A *circular* bucket is a log of records inside one
  eraseblock; a *direct* bucket overwrites a stride. The medium is an array of bytes; the outcome of every
  read, erase and program step (complete, refused, torn with any bytes left) is a parameter. A crash is a torn or
  refused write followed by a mount.
- `Erase`: erases that stop half way.
- `Register`, `StorageDriver`, `Placement`: several copies. A load takes the first copy that verifies and repairs the
  others; a save writes all in order. A *session* is one start of the program.
- `ReadOnly`, `Authenticated`: loads from read-only storage, and of states with a digest.
- `Layout`, `RawFormat`, `StateDriver`, `Persistence`: variables, the raw format, and save and load end to end.
- `StateCreate`, `StateDefects`, `StateTree`, `StateRecreate`, `DtbStorage`: creating a state from its description, why
  that fails, and the dtb format end to end.
- `FdtFormat`, `FdtRoundTrip`, `FdtDriver`: chapter 5 of the Devicetree Specification v0.4, parser and printer.
- `Crc32`; `ByteBits`, `Fips180`, `FipsConstants`, `Sha2`, `Sha2Stream`, `Sha1`, `Hmac`: against RFC 1952, FIPS 180-4 and RFC 2104.
- `NodeTree`, `NodeRing`: nodes in memory, list pointers and phandles.
- `Base64`: against RFC 4648.
- `Bytes`: shared vocabulary.

What the proofs found where the code and its promises part:

- Without a restart a circular bucket reads back its own write only by chance (`CircularLog.ReadBackInSession`).
- A torn record of several pages uncovers the oldest record of the block, and a write that wraps around loses the old
  record before the new one is there (`CircularLog.CrashAtomicIff`, `Persistence.MultiPageTearReturnsOldest`).
- Records of one page are safe from torn programming, but not from an erase that stops half way: when it spares an older
  record and not the newest, the next load returns the older one (`Persistence.InterruptedEraseReturnsOldest`). No
  page-wise stop does harm exactly when no page of the block holds another value that would be accepted
  (`Erase.EraseIsCleanIff`), in particular while the log is one page long (`Erase.OnePageLog`).
- A save reports success after one write; when an earlier bucket refuses the write and keeps its copy, the next load
  returns the old value (`Register.PartialSave`).
- A bucket that cannot be read for once can make the value go back and forth (`Register.UnreadableCopyComesBack`).
- A repair drops the digest of an authenticated state; a load loses the value when every copy of it asked for a rewrite
  (`Persistence.RepairKeepsValidity`, `Authenticated.AuthenticatedLoad`).
- The dtb format imports the tree of the bucket checked last, while the storage repairs with the first one. After an
  interrupted save two loads in a row, with no save between them, import different states, unless the cut was before the
  first bucket or behind the last (`DtbStorage.LoadsAfterInterruptedSave`), or tore in the first or the last
  (`DtbStorage.LoadsAfterTornSave`). Which buffers decide it in general says `DtbStorage.ImportsReturnedIff`.
- src/barebox-state/state.c:603-604 says that a read-only state is not repaired; bucket_refresh does not look at the
  flag. Direct buckets are safe because their file is opened for reading only; flash is written to, exactly when a copy
  differs or reads unclean (`ReadOnly.RewrittenIff`, `ReadOnly.StaleCopyIsRewritten`).
- Two variables whose nodes differ only in the address behind the @ share a dotted name; the second one is neither saved
  nor loaded in the dtb format (`StateCreate.AllRestoredIff`).
- src/barebox-state/backend_storage.c:361 calls a size of 0 infinite; on flash that holds at offset 0 only
  (`Placement.ZeroSizeBehindStart`). With a stride of 2^31 or more the third copy wraps into the first
  (`Placement.StridesDisjoint`).
- Data of 2^16 bytes or more cannot be unpacked (`RawFormat.UnpackRestores`).
- The overlap check rejects no disjoint layout; what it accepts overlaps exactly when an entry other than the last ends
  at or behind 2^32 (`Layout.CheckIsExact`; `Layout.CheckWrapsAround` is such a pair).
- Base64 text without padding loses its last group (`Base64.PaddingIsNeeded`). The decoder can write behind dst_len, by
  up to two bytes, for an encoding only when dst_len is no multiple of three and smaller than the encoded bytes
  (`Base64.WithinIff`, `Base64.EncodedWithinIff`).

Hypotheses that several theorems share: `Disciplined` and `Geometry` say that pages of at least 8 bytes tile the
eraseblock. `Readable`, part of `Admissible`, says that every bucket can be read at every start; flash may ask for a
rewrite. `CleanWrite` says that torn data, unless they are the old or the new copy, fail the check; it is proved for
power cuts between writes, and for one-page records on flash that tear in programming. For those, `HarmlessErase` is
what remains to be assumed: an erase that stops half way spares the newest record, leaves the block blank, or meets no
other value. `Stable` says that a check looks at no byte behind the length it reports; it is proved for the raw format.
`Encodable` bounds a flattened tree by 2^32 bytes, `FitsBuffers` by the printer's first 64 KiB buffers. `Describes`
says that every typed node of a state's description has its variable; `StateCreate.CreatedIsDescribed` proves it for
states created from a description with different dotted names. `TearPoint` names a place where a torn record of several
pages cannot be taken for a complete one, `BlankInside` a record that leaves no trace before its last page, `Broken` a
bucket in which a fresh start finds no tree, and `Telling` a digest that cannot be taken for padding.

## Model

| member | source | states |
|---|---|---|
| `CircularLog.LogEnd` | src/barebox-state/backend_bucket_circular.c:393-414 | the scan from the end finds the unique page boundary behind which everything is erased and before which a page is not |
| `CircularLog.LogEndUnique` | src/barebox-state/backend_bucket_circular.c:393-413 | that boundary is determined by the medium |
| `CircularLog.Mount` | src/barebox-state/backend_bucket_circular.c:375-421 | init depends on the medium alone and always establishes the flash discipline |
| `CircularLog.Read` | src/barebox-state/backend_bucket_circular.c:228-291 | a read keeps the medium and the discipline, also when it resets the write area |
| `CircularLog.Write` | src/barebox-state/backend_bucket_circular.c:293-364 | a write keeps the discipline whatever fails or tears; every program step lands on erased bytes (the precondition of Program) |
| `CircularLog.Run` | src/barebox-state/backend_bucket_circular.c:228-421 | every state of every run of writes, reads and mounts, with any failures, obeys the discipline |
| `CircularLog.RecordInBlock` | src/barebox-state/backend_bucket_circular.c:317-321 | meta word and padded payload of a record are where a mount looks for them |
| `CircularLog.WriteThenMount` | src/barebox-state/backend_bucket_circular.c:293-421 | after a complete write from any reachable state, init recovers exactly the end and length of the record and a read returns the zero-padded payload |
| `CircularLog.RunRefinesCell` | src/barebox-state/backend_bucket_circular.c:228-421 | for every sequence of writes, reads and remounts the block is a one-cell store of the last payload that fitted |
| `CircularLog.ReadBackInSession` | src/barebox-state/backend_bucket_circular.c:349-349 | without a remount a read returns what was just written if and only if the stale length is right: write does not update last_written_length |
| `CircularLog.FirstWriteReadBack` | src/barebox-state/backend_bucket_circular.c:349-349 | so a first write into an empty block is read back without a remount only when its record fills the block |
| `CircularLog.ReadResets` | src/barebox-state/backend_bucket_circular.c:239-258 | after a read that finds no usable length the next write erases the block first; any other read changes nothing |
| `CircularLog.OnePageTear` | src/barebox-state/backend_bucket_circular.c:342-356 | a one-page record whose page programs atomically tears into the old payload, the new one, or an empty block when the write had to erase |
| `CircularLog.TornAfterErase` | src/barebox-state/backend_bucket_circular.c:332-340 | a write that erased and then failed at once leaves an empty block |
| `CircularLog.TornAtPlainPage` | src/barebox-state/backend_bucket_circular.c:243-252 | a record that tears behind a plain page makes the next read start at offset 0, with neither the new payload nor, unless the block was erased, the old one |
| `CircularLog.CrashAtomicIff` | src/barebox-state/backend_bucket_circular.c:323-356 | a write is crash-atomic if and only if, when it erases first, there was nothing to lose, and every log that ends with one of the inner, not blank pages of its record gives the old payload or the new one |
| `CircularLog.CrashAtomicUnlessImitated` | src/barebox-state/backend_bucket_circular.c:323-356 | when the inner pages are blank, or one that is not does not imitate the end of a record, that means: they are blank like erased flash |
| `CircularLog.TornReads` | src/barebox-state/backend_bucket_circular.c:228-291 | what a start reads after a tear between any two pages: the last page that is not blank counts as the end of the log, and its last 8 bytes tell magic and length |
| `CircularLog.StoredIsLogValue` | src/barebox-state/backend_bucket_circular.c:228-413 | the value of a block is a function of the log up to the last page that is not blank: whole log, refused length, or as many bytes as the meta word tells |
| `CircularLog.TearBeforeLastPage` | src/barebox-state/backend_bucket_circular.c:323-356 | a tear before the last page of a record that is blank up to there leaves the stored value, or an empty block when the write erased |
| `CircularLog.OnePageIsBlankInside` | src/barebox-state/backend_bucket_circular.c:301-321 | a record of one page is blank up to its last page |
| `CircularLog.ErasesFrom` | src/barebox-state/backend_bucket_circular.c:323-349 | the number of erases of a series of equal records, from any state |
| `CircularLog.EraseEconomy` | src/barebox-state/backend_bucket_circular.c:323-349 | from an empty block n writes of record length L cause exactly ceil(n / max(1, floor((size - 1) / L))) erases |
| `Buckets.DirectWriteRead` | src/barebox-state/backend_bucket_direct.c:49-153 | what a direct bucket wrote it reads back, length included |
| `Buckets.ReadAfterWrite` | src/barebox-state/backend_storage.c:67-93 | for both kinds of bucket a complete write is read back after a restart: exactly, or with page padding on flash |
| `Buckets.ViewAfterWrite` | src/barebox-state/backend_storage.c:155-171 | a complete write of a packed buffer is what every later start reads and verifies |
| `Buckets.ViewUnchanged` | src/barebox-state/backend_storage.c:155-171 | reads, restarts and refused writes leave that value |
| `Buckets.AcceptedPrefix` | src/barebox-state/backend_format_raw.c:96-175 | a check that looks at no byte behind the length it reports accepts a padded buffer as the buffer |
| `Buckets.ReadErrors` | src/barebox-state/backend_bucket_direct.c:60-108 | why a read fails, and with which error |
| `Buckets.WriteErrors` | src/barebox-state/backend_storage.c:67-93 | why a write fails, and with which error |
| `Buckets.DirectForeignIff` | src/barebox-state/backend_bucket_direct.c:76-83 | every magic word is foreign but the right one, all zeros and all ones |
| `Buckets.CircularForeignIff` | src/barebox-state/backend_bucket_circular.c:396-414 | on flash the last page in use tells; an erased block is not foreign |
| `Buckets.NeverForeign` | src/barebox-state/backend_bucket_circular.c:396-414 | what the program wrote completely never looks foreign, nor do erased or zeroed media |
| `BucketDrivers.CircularBucket.constructor` | src/barebox-state/backend_bucket_circular.c:460-519 | a new bucket is in the mounted state of its medium, with a page of at least 8 bytes |
| `BucketDrivers.CircularBucket.AllFF` | src/barebox-state/backend_bucket_circular.c:395-395 | true exactly for erased areas |
| `BucketDrivers.CircularBucket.Init` | src/barebox-state/backend_bucket_circular.c:375-421 | the scanning loop computes Mount |
| `BucketDrivers.CircularBucket.Read` | src/barebox-state/backend_bucket_circular.c:228-291 | the method computes Read, result and new fields |
| `BucketDrivers.CircularBucket.Write` | src/barebox-state/backend_bucket_circular.c:293-364 | the method computes Write on the flash array, for every outcome of the medium |
| `BucketDrivers.CircularBucket.Append` | src/barebox-state/backend_bucket_circular.c:342-351 | programming at the write area, which moves before the result is known |
| `BucketDrivers.CircularBucket.ProgramFlash` | src/barebox-state/backend_bucket_circular.c:188-219 | programming requires erased bytes |
| `BucketDrivers.CircularBucket.EraseFlash` | src/barebox-state/backend_bucket_circular.c:221-225 | an erase that completes, is refused, or stops half way |
| `BucketDrivers.DirectBucket.Read` | src/barebox-state/backend_bucket_direct.c:49-108 | the method computes DirectRead and sets wrong_magic exactly for foreign magic words |
| `BucketDrivers.DirectBucket.Write` | src/barebox-state/backend_bucket_direct.c:110-153 | the method computes DirectWrite on the medium array, for every outcome |
| `Register.LoadUses` | src/barebox-state/backend_storage.c:142-185 | the load uses the first bucket whose medium verifies; none of the earlier ones does |
| `Register.LoadKeepsValue` | src/barebox-state/backend_storage.c:142-212 | a load returns the register's value, and the value survives a power loss at any point of the repair pass; a completed pass makes all buckets agree |
| `Register.LoadFindsNothing` | src/barebox-state/backend_storage.c:175-179 | without a valid copy the load fails with ENOENT and changes no copy |
| `Register.LoadRestoresConsistency` | src/barebox-state/backend_storage.c:187-202 | whatever was unreadable: after a successful load whose rewrites succeed every bucket verifies and holds the payload returned, also those refresh skipped |
| `Register.SkippedHoldsPayload` | src/barebox-state/backend_storage.c:95-109 | a bucket that refresh skips already holds the payload |
| `Register.RefreshOutcome` | src/barebox-state/backend_storage.c:95-124 | what refresh leaves in a bucket when its write completes, is refused or tears |
| `Register.RewriteIsAskedFor` | src/barebox-state/backend_storage.c:95-124 | a bucket goes on asking for a rewrite until its medium takes one |
| `Register.SaveIsAtomic` | src/barebox-state/backend_storage.c:67-93 | a save that loses power at any point leaves the old or the new value; a completed one leaves the new value everywhere |
| `Register.PartialSave` | src/barebox-state/backend_storage.c:86-88 | when writes fail without a crash, a reported success is seen by the next load if and only if no earlier bucket kept its old copy |
| `Register.WriteSucceedsIff` | src/barebox-state/backend_bucket_circular.c:293-364 | a bucket reports success if and only if the payload fits and its medium took it, or never had to erase |
| `Register.SaveSucceedsIff` | src/barebox-state/backend_storage.c:86-93 | a save fails, with EIO, if and only if no bucket took the write |
| `Register.SingleBucketIsNotAtomic` | src/barebox-state/backend_storage.c:67-93 | with one bucket that is overwritten, a save torn at its first byte leaves neither the old value nor the new, for every check |
| `Register.SessionIsAtomic` | src/barebox-state/backend_storage.c:67-212 | one start with load and save, against the register |
| `Register.StorageIsAtomicRegister` | src/barebox-state/backend_storage.c:67-212 | over every run of sessions, with power lost anywhere in repair passes and saves, the loads and saves form a trace of an atomic register |
| `Register.CutIsAdmissible` | src/barebox-state/backend_storage.c:67-212 | power cuts between two writes of a repair pass or of a save need no assumption about torn data |
| `Register.CutRunIsAdmissible` | src/barebox-state/backend_storage.c:67-212 | any number of such power cuts in a run keeps the storage within the theorem on atomic registers |
| `Register.UnreadableCopyComesBack` | src/barebox-state/backend_storage.c:142-212 | after an interrupted save, a load that can neither read nor rewrite the first bucket returns the old value and the next one the new value |
| `StorageDriver.BucketEntry.Examine` | src/barebox-state/backend_storage.c:156-171 | reading and verifying one bucket: flag, buffer, length in use |
| `StorageDriver.BucketEntry.Refresh` | src/barebox-state/backend_storage.c:95-124 | comparing and rewriting one bucket |
| `StorageDriver.Storage.Write` | src/barebox-state/backend_storage.c:67-93 | the loop over the buckets computes Save, result and media, and writes to the buckets in the order of the list; it fails if and only if no medium took the write; a read-only storage is not written to |
| `StorageDriver.Storage.Read` | src/barebox-state/backend_storage.c:142-212 | the two loops compute Load and write to the buckets of RepairWrites, in that order, whether the storage is read-only or not |
| `StorageDriver.Storage.RepairAll` | src/barebox-state/backend_storage.c:183-202 | every bucket gets its refresh, and the writes are the out-of-date ones of RepairOrder: all others in list order, then the bucket in use |
| `Register.RepairOrderIsRank` | src/barebox-state/backend_storage.c:187-202 | the repair order goes over every bucket once, in the order that the crash theorems count in |
| `Register.RepairWritesInOrder` | src/barebox-state/backend_storage.c:183-202 | a load writes to exactly the out-of-date buckets, in that order |
| `ReadOnly.RewrittenIff` | src/barebox-state/backend_storage.c:95-124 | a load writes to a bucket if and only if its copy is not the value returned or the medium asked for a rewrite; the flag does not matter |
| `ReadOnly.NothingRewrittenIff` | src/barebox-state/backend_storage.c:183-202 | a load from read-only storage writes nothing if and only if all copies agree and read clean |
| `ReadOnly.ReadOnlyLoadMedium` | src/barebox-state/backend_storage.c:95-124 | what a load from read-only storage does to each medium: direct ones stay, differing copies on flash are changed |
| `ReadOnly.StaleCopyIsRewritten` | src/barebox-state/state.c:603-604 | on any block, a load from read-only storage overwrites an older second copy on flash |
| `StorageDriver.Storage.AnyWrongMagic` | src/barebox-state/state.c:62-66 | whether some bucket holds foreign content |
| `Placement.FileBuckets` | src/barebox-state/backend_storage.c:307-354 | which strides are used, and exactly when the call fails |
| `Placement.StridesDisjoint` | src/barebox-state/backend_storage.c:326-330 | three copies do not overlap if and only if twice the stride fits 32 bits |
| `Placement.StridesInside` | src/barebox-state/backend_storage.c:321-330 | while the 32-bit product does not wrap, the size check keeps every copy inside the device |
| `Placement.StridesInsideIff` | src/barebox-state/backend_storage.c:321-330 | three copies lie inside the device if and only if it holds three strides, or two when the third wraps around |
| `Placement.MtdBuckets` | src/barebox-state/backend_storage.c:245-297 | the first usable eraseblocks inside the device and inside the size are used, and exactly when the call fails |
| `Placement.BlocksApart` | src/barebox-state/backend_storage.c:268-287 | the buckets are at most three, on aligned usable eraseblocks of their own inside the range |
| `Placement.BlocksComplete` | src/barebox-state/backend_storage.c:268-297 | with fewer than three buckets no usable eraseblock of the range was passed over |
| `Placement.BlocksAreFirst` | src/barebox-state/backend_storage.c:268-287 | a usable eraseblock of the range is taken unless enough lie in front of it |
| `Placement.ZeroSizeBehindStart` | src/barebox-state/backend_storage.c:249-255 | a size of 0 gives no bucket at all when the offset is not 0 |
| `Layout.AddSorted` | src/barebox-state/state_variables.c:47-58 | insertion keeps the list sorted and loses or adds nothing else |
| `Layout.CheckOverlap` | src/barebox-state/state.c:401-426 | the loop accepts exactly the lists in which every entry follows its neighbour |
| `Layout.NeighboursSuffice` | src/barebox-state/state.c:409-425 | as long as no entry but the last wraps around, neighbours alone imply that all pairs are disjoint and that the last entry ends last |
| `Layout.CheckIsExact` | src/barebox-state/state.c:401-426 | for sorted non-empty ranges that start below 2^32: all pairs are disjoint if and only if the check accepts and no entry but the last ends at or behind 2^32 |
| `Layout.CheckWrapsAround` | src/barebox-state/state.c:414-414 | a pair that wraps around and fools the check |
| `RawFormat.PlacedHolds` | src/barebox-state/backend_format_raw.c:226-230 | every variable stands at its place in the packed data; later copies do not disturb it |
| `RawFormat.PlacedZero` | src/barebox-state/backend_format_raw.c:221-230 | bytes of no variable are zero |
| `RawFormat.PackedVerifies` | src/barebox-state/backend_format_raw.c:96-266 | a packed buffer of fewer than 2^16 data bytes verifies behind any padding, with and without a digest |
| `RawFormat.VerifyPrefix` | src/barebox-state/backend_format_raw.c:96-175 | without a digest the check depends on no byte behind the length it reports |
| `RawFormat.ReportedPartVerifies` | src/barebox-state/backend_format_raw.c:137-175 | the part that verify reports verifies on its own if and only if there is no digest |
| `RawFormat.DamageRefused` | src/barebox-state/backend_format_raw.c:96-175 | a valid buffer in which at most four consecutive bytes changed is refused when they touch header or data, whatever the header now says |
| `RawFormat.DamageRefusedIff` | src/barebox-state/backend_format_raw.c:96-175 | without a digest it is refused if and only if they do, and otherwise nothing changes |
| `RawFormat.OtherMagicRefused` | src/barebox-state/backend_format_raw.c:123-129 | a buffer is valid for its own magic number and for 0, and for no other |
| `RawFormat.OtherDigestRefused` | src/barebox-state/backend_format_raw.c:153-170 | another digest behind the same header and data is refused |
| `RawFormat.UnpackRestores` | src/barebox-state/backend_format_raw.c:177-266 | unpacking restores every variable when the data are fewer than 2^16 bytes and reports ENOSPC otherwise |
| `RawFormat.PackedData` | src/barebox-state/backend_format_raw.c:203-266 | the length in the header is the data size modulo 2^16 |
| `Persistence.RawIsStable` | src/barebox-state/backend_format_raw.c:96-175 | the raw check without a digest looks at no byte behind the length it reports |
| `Persistence.RawStorageIsAtomicRegister` | src/barebox-state/backend_storage.c:67-212 | raw-format storage without a digest is an atomic register over every run |
| `Persistence.SavedThenLoaded` | src/barebox-state/state.c:43-122 | pack, save, restart, load, unpack: every variable is back, on direct and circular buckets, with and without a digest |
| `Persistence.RepairKeepsValidity` | src/barebox-state/backend_format_raw.c:137-175 | a repaired direct copy is valid if and only if the state has no digest, because refresh loses it |
| `Persistence.DamagedCopyIsSkipped` | src/barebox-state/backend_storage.c:155-171 | a copy damaged in at most four consecutive bytes is skipped by a load if and only if they belong to header or data |
| `Erase.InterruptedErase` | src/barebox-state/backend_bucket_circular.c:323-340 | an erase that stopped between pages of a block of one-page records leaves nothing or the last record it spared |
| `Erase.EraseIsCleanIff` | src/barebox-state/backend_bucket_circular.c:323-340 | every erase that stops between pages leaves the old value, the new one or nothing if and only if no page of the block would be accepted with another value |
| `Erase.OnePageLog` | src/barebox-state/backend_bucket_circular.c:323-340 | a block whose log is one page long has no such page |
| `Erase.HarmlessEraseIsClean` | src/barebox-state/backend_bucket_circular.c:323-340 | an erase that spares the newest record or leaves the block blank does no harm, nor does one that goes page by page where no page has another value |
| `Erase.PagedLogKept` | src/barebox-state/backend_bucket_circular.c:293-364 | writes of one-page records, failing between pages or not, keep every page of a block erased or a record of its own |
| `Persistence.OnePageWriteIsClean` | src/barebox-state/backend_bucket_circular.c:323-356 | writes of one-page records on flash, whose page programs completely or not at all, leave the old value, the new one or nothing, if their erase does no harm when it stops half way |
| `Persistence.FlashIsAtomicRegister` | src/barebox-state/backend_storage.c:67-212 | flash with one-page records and atomic page programming is an atomic register over every run in which erases, when they stop half way, do no harm (HarmlessErase); torn programming needs no assumption |
| `Persistence.MultiPageTearReturnsOldest` | src/barebox-state/backend_bucket_circular.c:243-252 | on a block with two records, a torn record of several pages makes the next load return the older one: neither the value before the save nor the interrupted one |
| `Persistence.InterruptedEraseReturns` | src/barebox-state/backend_bucket_circular.c:323-340 | an erase that spares one page only makes the next load return the record there, however old |
| `Persistence.InterruptedEraseReturnsOldest` | src/barebox-state/backend_bucket_circular.c:323-340 | on a full block with two records, an erase that spares the first page alone makes the next load return the older one: neither the value before the save nor the interrupted one |
| `Authenticated.BareFails` | src/barebox-state/backend_format_raw.c:137-175 | header and data without their digest do not verify, padded or not |
| `Authenticated.RepairOutcome` | src/barebox-state/backend_storage.c:95-124 | a repair leaves a valid copy only where it did not write |
| `Authenticated.AuthenticatedLoad` | src/barebox-state/backend_storage.c:142-212 | after a load of an authenticated state exactly those copies verify that had the value and read clean; the value is lost if and only if there was none |
| `Persistence.HmacAlgoOk` | src/crypto/hmac.c:121-148 | the digest of a raw state has the length its header arithmetic relies on |
| `StateDriver.State.AddVariable` | src/barebox-state/state_variables.c:55-58 | the state's list stays sorted and gains the variable |
| `StateDriver.State.Pack` | src/barebox-state/backend_format_raw.c:203-266 | the copies into the buffer produce PackedBytes |
| `StateDriver.State.UnpackInto` | src/barebox-state/backend_format_raw.c:177-201 | the loop over the variables computes Unpack, error included |
| `StateDriver.State.Save` | src/barebox-state/state.c:43-84 | clean, foreign content, read-only or saved: result, dirty flag and media in each case; the state stays dirty exactly when no medium took the write |
| `StateDriver.State.Load` | src/barebox-state/state.c:96-122 | storage read and unpack; the dirty flag tells failure; a failed read leaves the variables |
| `StateDriver.LoadedIsComplete` | src/barebox-state/backend_format_raw.c:96-201 | what a load returns holds all the data its header announces |
| `StateTree.ImportExported` | src/barebox-state/state_variables.c:60-307 | import undoes export for uint8, uint32, enum32 and mac; a zero default is not written |
| `StateTree.ShortNameParts` | src/barebox-state/state.c:226-230 | a short name is the node name up to its first @ |
| `StateTree.FullNameInjective` | src/barebox-state/state.c:232-235 | when short names hold no dot, a dotted name tells the node's short name and the dotted name of its parent |
| `StateTree.PropertyNames` | src/barebox-state/state_variables.c:60-110 | the names of the properties |
| `StateTree.TypeNames` | src/barebox-state/state_variables.c:455-497 | the names of the types |
| `StateTree.OtherMagicRefused` | src/barebox-state/state.c:375-388 | a tree without a magic number or with another one is refused and imports nothing; 0 accepts every tree |
| `StateTree.SavedMagicRefused` | src/barebox-state/state.c:375-388 | the tree of a state with another magic number is refused |
| `StateTree.NodeRestores` | src/barebox-state/state.c:210-340 | the tree made from a described state restores exactly the variables the description reaches, at any depth |
| `StateTree.StateNodeIsPlain` | src/barebox-state/state.c:342-368 | a state's tree survives flattening unchanged, apart from the root name |
| `StateTree.StateRoundTrip` | src/barebox-state/state.c:342-399 | to a tree, flatten, unflatten, import: the reached variables get the saved values, no other changes |
| `StateTree.RestoredIffReached` | src/barebox-state/state.c:300-332 | a variable has its saved value after the round trip into any state if and only if a typed node of the description finds it |
| `StateCreate.InsertTags` | src/barebox-state/state_variables.c:55-58 | adding a variable keeps all others and their names and types |
| `StateCreate.InsertPlace` | src/barebox-state/state_variables.c:47-58 | a variable goes behind all that start below it and in front of all others |
| `StateCreate.ForestAscends` | src/barebox-state/state_variables.c:47-58 | creation keeps the variables in ascending order of their start |
| `StateCreate.CreateStateIff` | src/barebox-state/state.c:390-428 | the places of the created variables are disjoint if and only if the state is accepted and no end but the last wraps around; variables come in the order of their places |
| `StateCreate.NewVarIsDescribed` | src/barebox-state/state.c:272-299 | place, default and value of a new variable are those of its node; without a value it starts with its default, without a default with zero |
| `StateCreate.ValueLengths` | src/barebox-state/state_variables.c:60-307 | how many bytes a value takes in a tree and in the data |
| `StateCreate.StartsWithDefaults` | src/barebox-state/state_variables.c:79-90 | a state created from a description without values starts with all its defaults |
| `StateDefects.ForestFails` | src/barebox-state/state.c:210-340 | creation succeeds if and only if no node has a defect, and otherwise fails with the first one, children before their parent |
| `StateDefects.CreateFails` | src/barebox-state/state.c:370-428 | what a new state is refused for |
| `StateDefects.ToForestFails` | src/barebox-state/state.c:210-340 | a tree is made if and only if the types of the description are in order, and otherwise the first defect is reported |
| `StateDefects.FromForestFails` | src/barebox-state/state.c:210-340 | an import succeeds if and only if no type and no enum32 value it would use is wrong, and otherwise the first defect is reported |
| `StateCreate.ForestCreates` | src/barebox-state/state.c:272-299 | creation adds one well-formed variable for every typed node, with its dotted name and type |
| `StateCreate.CreatedIsOk` | src/barebox-state/state.c:370-399 | a new state is one of the states created from its description |
| `StateCreate.CreatedIsDescribed` | src/barebox-state/state.c:210-340 | a description with different dotted names describes every state created from it |
| `StateCreate.ReachesAllIff` | src/barebox-state/state_variables.c:499-509 | the description reaches all variables it created if and only if its dotted names differ |
| `StateCreate.AllRestoredIff` | src/barebox-state/state.c:342-399 | saving and loading a created state restores every variable if and only if no two typed nodes have the same dotted name |
| `StateCreate.SiblingsDifferIsEnough` | src/barebox-state/state.c:226-235 | siblings with different short names, not empty and without dots, give different dotted names |
| `StateRecreate.SplitNameList` | src/barebox-state/state_variables.c:185-250 | value names written as a list are read back as they were |
| `StateRecreate.RecreatedFromOwnTree` | src/barebox-state/state.c:300-368 | with different dotted names, the tree of a state describes just that state: created from it, the state has the same places, order, types, value names, defaults and values |
| `StateRecreate.RecreatedFromFlat` | src/barebox-state/state.c:300-399 | so the stored tree alone is enough to build the state anew |
| `DtbStorage.ImportsReturnedIff` | src/barebox-state/backend_format_dtb.c:51-92 | whatever the buckets hold, the tree imported is that of the buffer the storage returns if and only if the last buffer long enough for its header gives the same tree or none |
| `DtbStorage.DtbLoadFails` | src/barebox-state/backend_storage.c:175-179 | when no copy verifies, nothing is imported and the error is ENOENT |
| `DtbStorage.FlatVerifies` | src/barebox-state/backend_format_dtb.c:42-75 | a stored tree verifies behind any padding, with its own length |
| `DtbStorage.DtbSavedThenLoaded` | src/barebox-state/backend_format_dtb.c:42-125 | saved to all buckets, restarted, loaded: every reached variable is back |
| `DtbStorage.LoadRepairsFirstImportsLast` | src/barebox-state/backend_format_dtb.c:58-92 | the storage repairs all buckets with the first valid copy, yet the variables come from the tree of the bucket checked last |
| `DtbStorage.CreatedSavedThenLoaded` | src/barebox-state/backend_format_dtb.c:42-125 | for a state created from a description with different dotted names: saved, restarted, loaded, every variable is back |
| `DtbStorage.LoadsAfterInterruptedSave` | src/barebox-state/backend_format_dtb.c:77-93 | after a save cut off behind k buckets, the next two loads import the same state if and only if the cut was before the first or behind the last bucket, or the states do not differ |
| `DtbStorage.LoadOfTorn` | src/barebox-state/backend_format_dtb.c:58-92 | with one torn bucket the load repairs all buckets to the first whole tree and imports the last whole one |
| `DtbStorage.LoadsAfterTornSave` | src/barebox-state/backend_format_dtb.c:58-93 | after a save that tore in a bucket, the next load imports the new state exactly when that bucket is the last; it agrees with the load after it if and only if the bucket is the first or the last, or the states do not differ |
| `FdtFormat.Step` | src/fdt.c:114-191 | every step of the parser moves forward and stays inside the structure block, or ends |
| `FdtRoundTrip.ReadsProperty` | src/fdt.c:153-171 | the parser reads a written property back through its string offset |
| `FdtRoundTrip.ReadsChild` | src/fdt.c:118-151 | from start tag to end tag the parser builds the node and hangs it below the current one |
| `FdtRoundTrip.RoundTrip` | src/fdt.c:64-387 | unflattening a flattened tree, with anything behind it, gives the tree: names, values, order of properties and children; phandles are those of the properties; the root is unnamed |
| `FdtRoundTrip.ExactRoundTrip` | src/fdt.c:64-387 | a tree in step with its phandle properties and with an unnamed root comes back exactly |
| `FdtRoundTrip.SyncedIsInSync` | src/fdt.c:164-166 | what was parsed is such a tree |
| `FdtRoundTrip.FlatIsInjective` | src/fdt.c:326-387 | two trees with the same bytes are the same up to root name and cached phandles |
| `FdtRoundTrip.HeaderIsComplete` | src/fdt.c:326-380 | all ten header words of section 5.2, a reservation block whose first entry ends it, and the two blocks behind it |
| `FdtRoundTrip.SmallTree` | src/fdt.c:268-324 | the bytes of a tree with one property, as section 5.4 lays them out |
| `FdtRoundTrip.NopsSkipped` | src/fdt.c:173-176 | NOP words in front of any tag do not change the tree |
| `FdtRoundTrip.BadTagRefused` | src/fdt.c:181-184 | a word that is no tag, and an end tag without an open node, are refused with EINVAL |
| `FdtRoundTrip.HeaderRefused` | src/fdt.c:81-107 | what a header is refused for, and with which error |
| `FdtRoundTrip.EarlyEnd` | src/fdt.c:178-179 | an END tag while nodes are open gives the tree in which each of them is the last child of the one before |
| `FdtRoundTrip.OverrunRefused` | src/fdt.c:38-62 | a property that leaves the structure block, or whose name lies behind the strings, is refused with ESPIPE |
| `FdtRoundTrip.BadEndRefused` | src/fdt.c:64-191 | a written tree whose last word was replaced by a word that may not stand there is refused |
| `FdtDriver.Fdt.EnsureSpace` | src/fdt.c:228-250 | which buffer is doubled, once, and that its content stays |
| `FdtDriver.Fdt.LstrCpy` | src/fdt.c:212-226 | copies without terminator; fails from 1024 characters on |
| `FdtDriver.Fdt.AddString` | src/fdt.c:252-269 | appends the name and its zero to the strings and returns its offset |
| `FdtDriver.Fdt.PutProperty` | src/fdt.c:287-301 | appends the property's bytes, relying on zeroed padding |
| `FdtDriver.Fdt.FlattenNode` | src/fdt.c:271-318 | the recursive printer appends exactly the node's structure bytes and its strings |
| `FdtDriver.Fdt.AppendStrings` | src/fdt.c:366-372 | the strings block follows, in a buffer enlarged if needed |
| `FdtDriver.OfFlattenDtb` | src/fdt.c:326-387 | header, reservation block, structure and strings as chapter 5 of the Devicetree Specification lays them out |
| `FdtDriver.OfUnflattenDtb` | src/fdt.c:64-196 | checks and loop compute Unflatten, errors included |
| `FdtDriver.ReadStruct` | src/fdt.c:107-191 | the loop ends, and computes the parser's run |
| `FdtDriver.PropertiesPrefix` | src/fdt.c:252-269 | string offsets already given out stay valid while names are appended |
| `Crc32.LookupIsBits` | src/crc32.c:17-70 | every table entry is the bitwise division of its index |
| `Crc32.BitsLinear` | src/crc32.c:73-73 | the division of a byte is linear over xor |
| `Crc32.Crc32` | src/crc32.c:79-94 | the unrolled table loop equals the bitwise polynomial of RFC 1952, section 8 |
| `Crc32.Crc32NoComp` | src/crc32.c:99-113 | the same without complement |
| `Crc32.Do8` | src/crc32.c:73-76 | eight unrolled steps are eight bytes of the division |
| `Crc32.CrcChains` | src/crc32.c:79-94 | crc32(crc32(c, a), b) == crc32(c, a + b) |
| `Crc32.BitsInjective` | src/crc32.c:73-73 | a step of the division loses nothing |
| `Crc32.BurstDetected` | src/crc32.c:79-94 | buffers of one length that differ only inside four consecutive bytes have different checksums |
| `Crc32.ResidueIff` | src/crc32.c:79-94 | four bytes are the checksum of the data in front of them if and only if the division of all of it leaves a fixed residue |
| `Crc32.LeadingZeroDetected` | src/crc32.c:79-94 | a zero byte in front always changes the checksum |
| `Crc32.CheckValue` | src/crc32.c:79-94 | the checksum of 123456789 is 0xcbf43926 |
| `Sha2.ChIsFips` | src/crypto/sha2.c:32-35 | the rewritten Ch is that of FIPS 180-4 |
| `Sha2.MajIsFips` | src/crypto/sha2.c:37-40 | the rewritten Maj is that of FIPS 180-4 |
| `Sha2.SigmasAreFips` | src/crypto/sha2.c:42-45 | the four macros are the functions of section 4.1.2 |
| `Sha2.Expand` | src/crypto/sha2.c:63-69 | the loops load and expand the message schedule |
| `Sha2.EightRounds` | src/crypto/sha2.c:76-91 | eight unrolled rounds with renamed registers are eight rounds of section 6.2.2 |
| `Sha2.Transform` | src/crypto/sha2.c:57-218 | the unrolled transform is the compression function of section 6.2.2 |
| `Fips180.Length64IsBig` | src/crypto/sha2.c:293-304 | the eight bytes of the length are the number, big-endian |
| `Fips180.WordBytesAreBig` | src/crypto/sha2.c:305-306 | the bytes of a digest word are big-endian |
| `Fips180.WordAtIsBig` | src/crypto/sha2.c:47-50 | so are the words of a block |
| `Fips180.StateBytesAt` | src/crypto/sha2.c:305-306 | a digest is the words of the state in order |
| `FipsConstants.Iv256IsRoots` | src/crypto/sha2.c:238-245 | the initial values are the first 32 fractional bits of the square roots of the first eight primes |
| `FipsConstants.Iv224IsRoots` | src/crypto/sha2.c:223-230 | those of SHA-224 are the second 32 bits for the next eight primes |
| `FipsConstants.KIsCubeRoots` | src/crypto/sha2.c:76-208 | the 64 round constants are the first 32 fractional bits of the cube roots of the first 64 primes |
| `Sha2Stream.BlocksAppend` | src/crypto/sha2.c:252-282 | hashing blocks in two parts |
| `Sha2Stream.Context.Init` | src/crypto/sha2.c:220-250 | an empty message and the initial state |
| `Sha2Stream.Context.Update` | src/crypto/sha2.c:252-282 | from every fill of the buffer, an update appends its bytes to the message hashed, including the step where done is -partial in 32 bits |
| `Sha2Stream.Context.Final` | src/crypto/sha2.c:284-324 | the digest is SHA-256 or SHA-224 of the concatenation of all updates |
| `Hmac.PadIsOneBlock` | src/crypto/hmac.c:99-110 | the padded key is one block of the hash |
| `Hmac.HmacContext.SetKey` | src/crypto/hmac.c:63-89 | a key of at most one block is kept as it is |
| `Hmac.HmacContext.Init` | src/crypto/hmac.c:91-111 | pads from the key; the inner hash starts with K xor ipad |
| `Hmac.HmacContext.Update` | src/crypto/hmac.c:113-119 | appends to the text |
| `Hmac.HmacContext.Final` | src/crypto/hmac.c:121-148 | H(K xor opad, H(K xor ipad, text)) of section 2 of RFC 2104, for any split of the text |
| `Sha1.MajFormIsFips` | src/crypto/sha1.c:96-96 | Maj written as an addition is the Maj of FIPS 180-4 |
| `Sha1.FnIsFips` | src/crypto/sha1.c:93-97 | the function of every round is that of section 4.1.1 |
| `Sha1.RollingStep` | src/crypto/sha1.c:79-91 | the sixteen words keep the last sixteen of the schedule |
| `Sha1.Input` | src/crypto/sha1.c:85-86 | the word of every round is that of the eighty-word schedule |
| `Sha1.ShaRound` | src/crypto/sha1.c:88-91 | a round that changes two registers, under rotated names, is a round of section 6.1.2 |
| `Sha1.Transform` | src/crypto/sha1.c:115-220 | the whole transform is the compression function of section 6.1.2 |
| `FipsConstants.KtIsRoots` | src/crypto/sha1.c:93-97 | the SHA-1 round constants are the square roots of 2, 3, 5 and 10 in 30 fractional bits |
| `NodeTree.OrderAddChild` | src/libdt.c:1755-1781 | a node inserted behind its parent is where the newest child belongs in the order |
| `NodeTree.AfterAddChild` | src/libdt.c:1755-1781 | a new node changes the order in one place and one node's children |
| `NodeTree.RemovedBlock` | src/libdt.c:1906-1931 | a node and everything below it, a subtree of the tree, form one block of the order, and deletion takes out just that block |
| `NodeTree.UniqueParent` | src/libdt.c:1906-1931 | a node has one parent |
| `NodeRing.PhandleIsRead` | src/libdt.c:1826-1843 | a phandle property that was set is the phandle a parser caches |
| `NodeRing.SetTakesOutFirst` | src/libdt.c:1826-1843 | setting a property takes out the first one of that name, appends the new one, and keeps all others in order |
| `NodeRing.OthersKept` | src/libdt.c:1826-1843 | all properties of other names stay, in their order |
| `NodeRing.ListAdd` | src/dt/list.h:45-72 | four pointer writes insert the entry behind its head in the ring |
| `NodeRing.ListDel` | src/dt/list.h:98-116 | two pointer writes take the entry out of the ring |
| `NodeRing.DeviceTree.OfNewNode` | src/libdt.c:1755-1781 | the ring stays the preorder of the tree with later children first; all links agree |
| `NodeRing.DeviceTree.OfDeleteNode` | src/libdt.c:1906-1931 | the recursion removes the whole subtree from tree and ring, and nothing else |
| `NodeRing.DeviceTree.OfNextNode` | src/libdt.c:188-195 | the next node of the order, or none before the root |
| `NodeRing.DeviceTree.VisitAll` | src/libdt.c:197-198 | the iteration visits every node but the root once and stops |
| `NodeRing.DeviceTree.OfFindNodeByPhandle` | src/libdt.c:415-424 | finds the node with that phandle, which is the only one when phandles are distinct; none means there is none |
| `NodeRing.DeviceTree.OfGetTreeMaxPhandle` | src/libdt.c:431-450 | the largest phandle, root included |
| `NodeRing.DeviceTree.OfFindRootNode` | src/dt/dt.h:375-381 | climbing ends at the root |
| `NodeRing.DeviceTree.OfNodeCreatePhandle` | src/libdt.c:459-478 | keeps all nonzero phandles distinct and in step with the phandle property, and all other properties; the new one is 0 if and only if 2^32 - 1 was taken |
| `Base64.CodeOf` | src/base64.c:14-25 | the table is that of section 4 of RFC 4648, and looking a character up inverts it |
| `Base64.ValueOfIff` | src/base64.c:55-62 | a character has a value if and only if it is in the table |
| `Base64.NextValue` | src/base64.c:52-62 | skips everything outside the table up to the terminator |
| `Base64.FetchGroup` | src/base64.c:41-70 | up to four values, ended early by padding or the end of the text |
| `Base64.DecodeBase64` | src/base64.c:31-102 | the loops end although dst_len can grow, and write Decoded |
| `Base64.DecodedLength` | src/keystore-blob.c:61-63 | there are never more bytes than characters, so a buffer as long as the text is enough |
| `Base64.WithinIff` | src/base64.c:82-96 | the output stays within dst_len if and only if all bytes fit, or groups that do not start with padding end right there |
| `Base64.EncodedWithinIff` | src/base64.c:82-96 | for an encoding: if and only if the bytes fit or dst_len is a whole number of groups |
| `Base64.DecodesEncoded` | src/base64.c:31-102 | for every size the decoder gives the longest prefix in whole groups |
| `Base64.RoundTrip` | src/base64.c:31-102 | any text that spells an encoding, with other characters in between, decodes to the bytes if and only if the size in whole groups suffices |
| `Base64.PaddingIsNeeded` | src/base64.c:52-66 | without padding characters the text decodes if and only if it has whole groups |
| `Bytes.RoundUpByDivision` | src/fdt.c:207-210 | rounding up is what the division in the ALIGN and roundup macros computes |

## Left out

- FdtDriver.OfFlattenDtb: for trees that fit the first buffers and names of at most 1023 bytes, because a grown buffer is not cleared and the printer writes no terminators; what a longer name does to the offsets is not modelled.
- FdtFormat.Unflatten: for blobs that hold what their header announces; offsets that wrap around 32 bits, signed lengths, and reads behind the end of memory count as errors.
- Buckets.DirectRead: a length that reaches into the last 8 bytes of the stride counts as an error, since those bytes belong to the next copy; CONFIG_STATE_BACKWARD_COMPATIBLE is off.
- BucketDrivers.DirectBucket.Write: strides of fewer than 8 bytes, where the room for the payload would wrap around, are not modelled.
- CircularLog.RecordLength: lengths of 2^32 and more are not truncated.
- CircularLog.Mount: a block that cannot be read at start has no bucket.
- StorageDriver.Storage.Read: starts without buffers from an earlier failed load; the tool loads once a process.
- DtbStorage.DtbLoad: a fresh process, so no tree is kept from an earlier pack or load; a failed import does not say which variables it had already changed; a typed node whose variable has another type is excluded by `Describes`.
- StateTree.Import: string variables, whose import fills only the raw buffer while the export writes another field.
- RawFormat.Verify: when only the digest is wrong the source has already shortened the length it reports; the model keeps the length of the buffer. Loading without authentication is the case without a digest.
- Hmac.HmacContext.SetKey: keys longer than a block, whose branch hashes a freed key.
- Sha2Stream.Context.Update: updates of fewer than 2^32 - 64 bytes, as in the source's 32-bit arithmetic.
- Hmac.HmacContext.Update: the same bound.
- NodeRing.DeviceTree.OfNewNode: full_name, names given by copy, and freeing.
- RawFormat.Header: a little-endian host; structures in memory have their little-endian layout.
- Crc32.Lookup: the 256 constants are written as sixteen rows.
- Persistence.FlashIsAtomicRegister: erases that spare an older record with another value and not the newest one, with which the claim is false (`Persistence.InterruptedEraseReturnsOldest`).
- Register.StorageIsAtomicRegister: runs in which a bucket cannot be read, with which the claim is false (`Register.UnreadableCopyComesBack`).
- Authenticated.AuthenticatedLoad: digests that are all zeros, which padding could stand in for.
- StateCreate.CreateState: string variables, device parameters, and value names without a terminator at the end of their property.
- SHA-1 update and final: the same buffering as SHA-2, which is modelled.
- The old on-flash format, bad-block handling, torture and ECC branches of barebox; an ECC report that asks for a rewrite is modelled as a readable but unclean block.
- The FIXUP conversion and of_state_fixup, the keystore, the command line, locking, printing, dtblint and udev.
- of_create_node, of_find_node_by_path_from, of_parse_phandle_with_args and the aliases.
- Allocation failure, pointers into freed memory, and C string aliasing.
