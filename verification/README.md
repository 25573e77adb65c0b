# Formats and protocols of the bundled PostgreSQL 9.1, in Dafny

The repository is an iPad front end for PostgreSQL that carries the complete
PostgreSQL 9.1.1 server beside it. What in it can be wrong in interesting ways is
the server's storage formats and small protocols: macros that pack bits and align
offsets, loops that write what another loop must read, counters that wrap around,
and checks that readers make instead of taking locks. This project models these
parts and proves what their comments and callers rely on.

`dafny verify dfyconfig.toml` checks the whole project.

## What is modelled

* **Tuples.** `Alignment`, `Varlena` and `TupleLayout` are the byte level: alignment
  masks, one- and four-byte headers in both byte orders, values by reference and by
  value, and the rule by which a reader tells a pad byte from a datum. `TupleForm`,
  `HeapTuple` and `IndexTuple` build tuples in memory as heap_fill_tuple,
  heap_form_tuple and index_form_tuple do; `TupleDesc` reads them back through a
  descriptor that caches offsets, on every path of fastgetattr, nocachegetattr and
  heap_deform_tuple. A plain walk over the data area, without any cache, is the
  reference for all of them. `KeyTest` applies scan keys to such tuples.
* **Write-ahead log.** `WalAddress` relates the two-part 32-bit pointers to one linear
  address. `WalPages` specifies the page format as functions on the log, the sequence
  of all bytes inserted: a writer, a reader, and the theorem that recovery returns
  exactly the records that lie wholly within the pages that have reached the disk.
  `WalRecord` is what a record consists of: data, backup blocks without their holes, and
  a checksum. `WalInsert` is XLogInsert's work on the buffer page, `WalAssemble` its work
  on the rdata chain before that, and `WalRead` is ReadRecord with its pointers; all are
  proved to do what `WalPages` and `WalRecord` say.
  `WalFileName` covers the names of the segment files.
* **Hash index files.** `HashFile` is the placement of buckets and overflow pages by
  the `spares` counts, with the file itself as the record of where everything was
  put; `HashOverflow` the bitmaps of free overflow pages.
* **Protocols.** `BackendStatus` is the st_changecount protocol as a state machine of
  one writer and any number of readers. `UpdateChain` is the t_ctid link check, with
  slots that are freed and reused between reading a link and following it, and
  `LinkCheck` what may be concluded when the check fails. `Slru` is
  the wrapping use counter and the choice of a victim.
* **Buffers and counters.** `RelOptions` packs string options behind a struct,
  `MemSet` is the family of memset macros, `TransactionIds` the ring of transaction
  numbers, and `PageCapacity` the limits on what fits on a page.

`Bits` and `Bytes` hold the bit operators, the 32-bit wrap-around and the machine
integers that the other modules share. Pointers are numbers, memory is a sequence or
an array of bytes, and C's unsigned wrap-around is written out wherever it can occur.
Sizes are those of the default build: 8 kB blocks, 16 MB segments, 8-byte `long` and
maximum alignment.

## Where code and comments differ

The models follow the code. Each of these has a lemma that names the exact condition.

* The check of blkno_to_bitno does not catch every block that is not an overflow page
  (`HashFile.BucketBlockBit`, `HashFile.BucketTakenForOverflow`). Its one caller has
  looked at the page's own flags before.
* The comment on update chains says that after a failed check one may assume that there
  is no live descendant. For a reader whose snapshot does not have the updater as
  committed, that holds when the tuple still carries the number that was read
  (`LinkCheck.FailedCheckExcludesDescendants`); without looking at the tuple again it
  holds in all continuations exactly if the updater had committed, or was the inserter,
  when the tuple was read (`LinkCheck.MisleadsExactly`). For a snapshot that has the
  updater as committed, and a target that is live when the tuple is read, it holds in all
  continuations exactly if a transaction up to the updater was running for the snapshot
  (`LinkCheck.LiveTargetMisleadsExactly`): else the target may be frozen, or vacuumed
  when it has been replaced (`LinkCheck.FrozenTarget`, `LinkCheck.VacuumedTarget`, and
  the runs beside them).
* All fields of a backend's entry are said to be under the change-count protocol, but
  the waiting flag is written without it, and the host name is written after the
  modification has been closed and read after the copy has been accepted. The flag does
  no harm, being the only such cell in the copy (`BackendStatus.AcceptedCopyIsComplete`);
  the host name belongs to the copy exactly as long as none may be written between the
  beginning of the read and its end (`BackendStatus.HostNameExactly`).
* RecordIsValid copies the header of a backup block before it has compared anything with
  the length of the record, so that it can read behind a damaged one. The verdict does
  not depend on what it finds there; when its reads stay inside the record is part of
  `WalRecord.CheckRecord` and `WalRecord.ShortRecordIsOverread`.
* Two transaction numbers that are opposite on the ring precede each other
  (`TransactionIds.PrecedesEitherWay`).

## Model

| member | source | states |
|---|---|---|
| `Alignment.TypeAlignIsLeast` | pqtouch/include/postgresql/server/c.h:525-534 | for every power of two, the TYPEALIGN mask yields the least multiple at or above the length |
| `Alignment.TypeAlignDownIsGreatest` | pqtouch/include/postgresql/server/c.h:544-545 | for every power of two, TYPEALIGN_DOWN yields the greatest multiple at or below |
| `Alignment.MaskNeedsPowerOfTwo` | pqtouch/include/postgresql/server/c.h:528-534 | the documented restriction is exact: the mask form yields the least multiple for every length exactly if the alignment is a power of two, and the length 1 tells |
| `Varlena.ClassesPartition` | pqtouch/include/postgresql/server/postgres.h:112-158 | of the header classes exactly one holds for any first byte, and a byte is a pad byte only if it could start an aligned four-byte header |
| `Varlena.Header4BRoundTrip` | pqtouch/include/postgresql/server/postgres.h:160-202 | a four-byte header reads back as uncompressed, and with its length exactly for lengths below 2^30, in both byte orders |
| `Varlena.Header4BCRoundTrip` | pqtouch/include/postgresql/server/postgres.h:160-202 | the same for the compressed form |
| `Varlena.Header1BRoundTrip` | pqtouch/include/postgresql/server/postgres.h:162-204 | a one-byte header is never zero nor the external marker and reads back exactly for lengths 1 to 127 |
| `Varlena.Header1BERoundTrip` | pqtouch/include/postgresql/server/postgres.h:164-206 | an external header is recognized and keeps its length exactly when that fits a byte |
| `Varlena.ShortConversion` | pqtouch/include/postgresql/server/postgres.h:211-217 | VARATT_CAN_MAKE_SHORT conversion keeps the payload and the size without header, and converting back restores the long form |
| `Varlena.PayloadSize` | pqtouch/include/postgresql/server/postgres.h:249-279 | VARSIZE_ANY_EXHDR and VARDATA_ANY by the first byte: the payload is everything behind a header of one or four bytes; with a TOAST pointer, which has two, the data macro is a byte off |
| `Varlena.LongHeaderIsCanonical` | pqtouch/include/postgresql/server/postgres.h:167-172 | a well-formed uncompressed four-byte datum has the header that SET_VARSIZE would give it |
| `TupleLayout.StoreFetchPartialInverse` | pqtouch/include/postgresql/server/access/tupmacs.h:44-94 | fetch_att after store_att_byval gives back the low bytes of the datum, so the datum exactly when it fits the column; the supported widths are 1, 2, 4 and, where a Datum has it, 8 |
| `TupleLayout.AlignNominalIsLeast` | pqtouch/include/postgresql/server/access/tupmacs.h:144-151 | att_align_nominal yields the least multiple of 4 for i, of 8 for d and of 2 for s, and the offset itself for c |
| `TupleLayout.AlignNominalLaws` | pqtouch/include/postgresql/server/access/tupmacs.h:144-151 | it is idempotent, and aligning an address is aligning the offset from a maximally aligned start |
| `TupleLayout.ColumnPlacement` | pqtouch/postgresql/versions/postgresql-9.1.1/src/backend/access/common/heaptuple.c:134-256 | every column in memory, byte by byte: behind the column before; a varlena unaligned exactly when it has a one-byte header or is given one, which a short uncompressed one of a storage other than plain is; any other value at the least offset with the alignment 4, 8, 2 or 1 of its type, behind zeros; its bytes those of the value or of its low bytes |
| `TupleLayout.PeekFindsStart` | pqtouch/include/postgresql/server/access/tupmacs.h:101-135 | the reader that looks at one byte and the writer that looks at the datum agree on where a value starts, zero padding and an aligned header with a zero first byte included |
| `TupleLayout.WalkVisitsWriterOffsets` | pqtouch/include/postgresql/server/access/tupmacs.h:101-187 | walking the data area with att_align_pointer and att_addlength_pointer visits exactly the offsets that the writer used |
| `TupleLayout.TupleRoundTrip` | pqtouch/include/postgresql/server/access/tupmacs.h:101-187 | for every row, by-value, by-reference, varlena, cstring and null columns, each walked column has the stored value and null flag |
| `TupleLayout.StoredValueMeaning` | pqtouch/include/postgresql/server/access/tupmacs.h:44-94 | the value read is the value written, up to a short header and up to what the column's width keeps |
| `TupleLayout.StoredFormStable` | pqtouch/postgresql/versions/postgresql-9.1.1/src/backend/access/common/heaptuple.c:134-256 | storing a value that has been read back stores the same bytes |
| `TupleLayout.RefillIsIdentical` | pqtouch/postgresql/versions/postgresql-9.1.1/src/backend/access/common/heaptuple.c:134-256 | a row that was read back and stored again gives a byte-identical data area |
| `TupleLayout.PadMustBeZero` | pqtouch/include/postgresql/server/access/tupmacs.h:107-135 | the reader finds a varlena where the writer has put it exactly when there is no pad or the first pad byte is zero |
| `TupleForm.BitmapReads` | pqtouch/include/postgresql/server/access/tupmacs.h:21 | att_isnull reads from the bitmap exactly the null flags it was built for |
| `TupleForm.NullIsZeroDigit` | pqtouch/include/postgresql/server/access/tupmacs.h:21 | null is a zero in bit i % 8, counted from the lowest, of byte i / 8 |
| `TupleForm.BitmapUnique` | pqtouch/include/postgresql/server/access/htup.h:382 | there is one bitmap of BITMAPLEN bytes for a list of null flags with zero spare bits |
| `TupleForm.ComputeDataSize` | pqtouch/postgresql/versions/postgresql-9.1.1/src/backend/access/common/heaptuple.c:85-122 | the size loop yields exactly the length of the data area that the fill loop writes |
| `TupleForm.PutValue` | pqtouch/postgresql/versions/postgresql-9.1.1/src/backend/access/common/heaptuple.c:190-248 | one non-null column: where it goes, its bytes, the rest of memory unchanged, and the flags it sets |
| `TupleForm.PutNullBit` | pqtouch/postgresql/versions/postgresql-9.1.1/src/backend/access/common/heaptuple.c:165-185 | the moving bit mask writes the next bit of the bitmap |
| `TupleForm.FillTuple` | pqtouch/postgresql/versions/postgresql-9.1.1/src/backend/access/common/heaptuple.c:134-256 | heap_fill_tuple writes the data area, whose columns are where TupleLayout.ColumnPlacement says, a bitmap with a one in bit i % 8 of byte i / 8 for each column i that is present, the flag word that belongs to the row, and nothing else |
| `TupleForm.MaskMeaning` | pqtouch/postgresql/versions/postgresql-9.1.1/src/backend/access/common/heaptuple.c:134-256 | the flags: bit 0 exactly when there is a null, bit 1 a value of variable width, bit 2 a varlena whose first byte is that of a TOAST pointer; the other bits stay |
| `TupleForm.NullBitsIsBitmap` | pqtouch/postgresql/versions/postgresql-9.1.1/src/backend/access/common/heaptuple.c:146-183 | bits set one after the other make the bitmap of the row |
| `HeapTuple.NattsRoundTrip` | pqtouch/include/postgresql/server/access/htup.h:369-375 | the column count is the low 11 bits, reads back exactly when it fits them, and the other bits stay |
| `HeapTuple.HoffFitsByte` | pqtouch/include/postgresql/server/access/htup.h:22-32 | t_hoff fits its byte exactly for up to 1768 columns, so for every allowed number |
| `HeapTuple.ScanNulls` | pqtouch/postgresql/versions/postgresql-9.1.1/src/backend/access/common/heaptuple.c:660-664 | the scan over the null flags |
| `HeapTuple.FormTuple` | pqtouch/postgresql/versions/postgresql-9.1.1/src/backend/access/common/heaptuple.c:629-726 | heap_form_tuple: the error exactly for too many columns, else a tuple whose header, Datum fields, bitmap and data are those of the row, with zeros for the padding and for an OID that is not set yet |
| `HeapTuple.FormedFlags` | pqtouch/postgresql/versions/postgresql-9.1.1/src/backend/access/common/heaptuple.c:711-723 | the two flag words of a formed tuple: the column count, and a bit each for null, variable width, TOAST pointer and OID |
| `HeapTuple.FormedImage` | pqtouch/postgresql/versions/postgresql-9.1.1/src/backend/access/common/heaptuple.c:640-726 | its image: t_hoff the least multiple of 8 behind the 23 bytes of the header, a bitmap only when there is a null, and 4 bytes for an OID; the bitmap with a one for each column that is present, zeros, and the data area |
| `HeapTuple.DatumFieldsReadBack` | pqtouch/include/postgresql/server/access/htup.h:277-300 | the Datum fields read back: type and type modifier always, and the length, which makes the tuple a varlena, exactly below 2^30 |
| `HeapTuple.OidRoundTrip` | pqtouch/include/postgresql/server/access/htup.h:303-316 | an OID that is set is the last four bytes before the data and changes no others, reads back, and the tuple is still the formed tuple of the same row |
| `HeapTuple.NoOid` | pqtouch/include/postgresql/server/access/htup.h:303-308 | a tuple without an OID answers InvalidOid |
| `TupleDesc.HeapTupleRoundTrip` | pqtouch/include/postgresql/server/access/htup.h:780-847 | for every row and every descriptor that begins with the row's columns and may have more: the columns of the formed tuple read back as the row, and all others as null |
| `TupleDesc.FormedViewReads` | pqtouch/postgresql/versions/postgresql-9.1.1/src/backend/access/common/heaptuple.c:886-973 | any data area with its bitmap and flags reads as the row it was filled from |
| `TupleDesc.CachedOffsetAgrees` | pqtouch/include/postgresql/server/access/htup.h:780-815 | where attcacheoff may be used, the cached offset is the offset that the full walk reaches, in every tuple |
| `TupleDesc.FixedWalk` | pqtouch/postgresql/versions/postgresql-9.1.1/src/backend/access/common/heaptuple.c:411-445 | behind fixed-width columns without nulls the walk is at the nominal offset |
| `TupleDesc.CacheIsPrefix` | pqtouch/postgresql/versions/postgresql-9.1.1/src/backend/access/common/heaptuple.c:425-429 | cached offsets always form a prefix of the columns |
| `TupleDesc.Descriptor.Deform` | pqtouch/postgresql/versions/postgresql-9.1.1/src/backend/access/common/heaptuple.c:886-973 | heap_deform_tuple returns the row that the tuple was formed from, and null for each column that the descriptor has got since; whatever is cached, and with a correct cache left behind |
| `TupleDesc.Descriptor.GetAttr` | pqtouch/include/postgresql/server/access/htup.h:780-815 | fastgetattr returns the walked column by cache, null bit or slow path, and leaves a correct cache |
| `TupleDesc.Descriptor.HeapGetAttr` | pqtouch/include/postgresql/server/access/htup.h:830-847 | heap_getattr: of a tuple formed from n columns, the row's value up to n and null beyond, in the descriptor or not; of any tuple, the walked column, null beyond natts, and system attributes below 1 |
| `TupleDesc.Descriptor.NoCacheGetAttr` | pqtouch/postgresql/versions/postgresql-9.1.1/src/backend/access/common/heaptuple.c:324-512 | nocachegetattr agrees with the walk on each of its paths |
| `TupleDesc.Descriptor.AnyNullBefore` | pqtouch/postgresql/versions/postgresql-9.1.1/src/backend/access/common/heaptuple.c:346-371 | the byte-wise test finds a null before the column exactly when there is one |
| `TupleDesc.Descriptor.CacheFixedPrefix` | pqtouch/postgresql/versions/postgresql-9.1.1/src/backend/access/common/heaptuple.c:411-446 | the fill of attcacheoff keeps every cached offset correct and reaches the column |
| `TupleDesc.Descriptor.CarefulWalk` | pqtouch/postgresql/versions/postgresql-9.1.1/src/backend/access/common/heaptuple.c:448-509 | the slow walk arrives at the column and caches only offsets that are valid in every tuple |
| `TupleDesc.Descriptor.FindStart` | pqtouch/postgresql/versions/postgresql-9.1.1/src/backend/access/common/heaptuple.c:927-954 | one alignment step, from cache or computed, arrives where the plain walk does |
| `IndexTuple.InfoRoundTrip` | pqtouch/include/postgresql/server/access/itup.h:65-84 | size and the two flags share t_info without touching one another |
| `IndexTuple.SizeFits` | pqtouch/include/postgresql/server/access/itup.h:65-70 | the size field holds exactly the sizes up to 8191 |
| `IndexTuple.FormTuple` | pqtouch/postgresql/versions/postgresql-9.1.1/src/backend/access/common/indextuple.c:34-179 | index_form_tuple: each of the two errors exactly when it applies, else the tuple of the row |
| `IndexTuple.FormedSizeIsLeast` | pqtouch/postgresql/versions/postgresql-9.1.1/src/backend/access/common/indextuple.c:117-128 | its size is the least multiple of 8 that has room for a header of 8 bytes, or 16 with a bitmap, and the data |
| `IndexTuple.FormedIndexImage` | pqtouch/postgresql/versions/postgresql-9.1.1/src/backend/access/common/indextuple.c:104-179 | the tuple, spelled out: t_info the size plus 0x8000 for nulls and 0x4000 for variable width, a bitmap behind 8 bytes only when there is a null, and the data area, padded with zeros |
| `IndexTuple.IndexTupleRoundTrip` | pqtouch/include/postgresql/server/access/itup.h:100-128 | every column of a formed index tuple reads back as the row's |
| `IndexTuple.Deform` | pqtouch/postgresql/versions/postgresql-9.1.1/src/backend/access/common/indextuple.c:409-421 | index_deform_tuple returns all columns through index_getattr |
| `KeyTest.HeapKeyTest` | pqtouch/include/postgresql/server/access/valid.h:22-67 | true exactly when every key has a non-null argument, an attribute that is not null, and a comparison that yields a Datum with a nonzero low byte; so, of a formed tuple, when the row meets every key |
| `WalAddress.Sizes` | pqtouch/include/postgresql/server/access/xlog_internal.h:115-123 | the sizes used throughout are those that XLogSegsPerFile and XLogFileSize compute for 16 MB segments |
| `WalAddress.LinearRoundTrip` | pqtouch/include/postgresql/server/access/xlogdefs.h:14-37 | record pointers and linear addresses correspond one to one |
| `WalAddress.ComparisonIsLinear` | pqtouch/include/postgresql/server/access/xlogdefs.h:47-57 | XLByteLT, LE and EQ are the linear order; the end of a file counts as before the start of the next |
| `WalAddress.AdvanceExact` | pqtouch/include/postgresql/server/access/xlogdefs.h:62-71 | XLByteAdvance adds to the linear address exactly when the 32-bit sum does not overflow |
| `WalAddress.AdvanceWithinSegment` | pqtouch/include/postgresql/server/access/xlogdefs.h:62-71 | so for all steps up to a segment, and such advances compose |
| `WalAddress.NextLogPageIsLeast` | pqtouch/include/postgresql/server/access/xlog_internal.h:155-166 | NextLogPage yields the nearest page boundary at or after the pointer, on the ring of all files, and is idempotent |
| `WalAddress.NextLogSegIsLinear` | pqtouch/include/postgresql/server/access/xlog_internal.h:131-140 | NextLogSeg adds one on the ring of segments |
| `WalAddress.PrevLogSegIsLinear` | pqtouch/include/postgresql/server/access/xlog_internal.h:143-152 | PrevLogSeg subtracts one on the ring of segments |
| `WalAddress.SegStepsInvert` | pqtouch/include/postgresql/server/access/xlog_internal.h:131-152 | the two undo each other |
| `WalAddress.NextLogSegsAdds` | pqtouch/include/postgresql/server/access/xlog_internal.h:131-140 | n steps add n, modulo the number of segments |
| `WalAddress.ByteToSegIsDivision` | pqtouch/include/postgresql/server/access/xlog_internal.h:176-193 | XLByteToSeg is division of the linear address, and the membership tests agree with the lookups |
| `WalAddress.ByteToPrevSegIsDivision` | pqtouch/include/postgresql/server/access/xlog_internal.h:180-197 | the boundary form is the segment of the byte before, exactly for nonzero offsets |
| `WalAddress.Pointer.Advance` | pqtouch/include/postgresql/server/access/xlogdefs.h:62-71 | the macro adds to the linear address of its argument exactly when the 32-bit sum does not overflow, and then leaves a pointer to a byte |
| `WalAddress.Pointer.AlignToPage` | pqtouch/include/postgresql/server/access/xlog_internal.h:155-166 | the macro moves its argument by the distance to the nearest page boundary, on the ring of all files |
| `WalPages.PageHeaderFields` | pqtouch/postgresql/versions/postgresql-9.1.1/src/backend/access/transam/xlog.c:1594-1618 | the fields of a page header, by offset: magic number, flags, timeline, address, and on the first page of a segment file system identifier, segment size and page size |
| `WalPages.HeaderIsValid` | pqtouch/postgresql/versions/postgresql-9.1.1/src/backend/access/transam/xlog.c:4032-4140 | a page with the header written for its address passes every check of ValidXLOGHeader, and its flags say what was written |
| `WalPages.PageAcceptedExactly` | pqtouch/postgresql/versions/postgresql-9.1.1/src/backend/access/transam/xlog.c:4032-4140 | a page passes these checks exactly when each field, by offset, is right: magic number, no unknown flag, timeline, address, and system, segment size and page size where they must be |
| `WalPages.StalePageIsRejected` | pqtouch/postgresql/versions/postgresql-9.1.1/src/backend/access/transam/xlog.c:4095-4103 | a page written for another address is never accepted, so recycled segments do no harm |
| `WalPages.RecordStartsAreValid` | pqtouch/include/postgresql/server/access/xlog_internal.h:200-202 | every record start satisfies XRecOffIsValid, so no record header crosses a page |
| `WalPages.InsertReadBack` | pqtouch/postgresql/versions/postgresql-9.1.1/src/backend/access/transam/xlog.c:3702-4023 | a record that was inserted is read back byte for byte, at the start that was computed, and the reader goes on where the next record goes |
| `WalPages.ContinueReadBack` | pqtouch/postgresql/versions/postgresql-9.1.1/src/backend/access/transam/xlog.c:3911-3977 | data spread over any number of continuation pages is put together again by the reassembly loop |
| `WalPages.ContinueTruncated` | pqtouch/postgresql/versions/postgresql-9.1.1/src/backend/access/transam/xlog.c:3925-3937 | when a continuation page is missing the record is not returned |
| `WalPages.InsertKeepsLogOk` | pqtouch/postgresql/versions/postgresql-9.1.1/src/backend/access/transam/xlog.c:988-1131 | inserting leaves a log that can be inserted into again, and never changes what was there |
| `WalPages.ReadStops` | pqtouch/postgresql/versions/postgresql-9.1.1/src/backend/access/transam/xlog.c:3825-3831 | behind the last record the reader finds nothing |
| `WalPages.Recovery` | pqtouch/postgresql/versions/postgresql-9.1.1/src/backend/access/transam/xlog.c:3702-4023 | for every run of insertions and every number of pages that reached the disk: reading page by page returns exactly the records wholly within them, in order, byte for byte, with their addresses |
| `WalPages.TornRecovery` | pqtouch/postgresql/versions/postgresql-9.1.1/src/backend/access/transam/xlog.c:3702-4023 | for every number of bytes that reached the disk, within a page or a record, and arbitrary bytes behind them: no record that is wholly there is lost, and what is read after those is what the bytes behind the last of them amount to |
| `WalPages.HeaderAcceptedExactly` | pqtouch/postgresql/versions/postgresql-9.1.1/src/backend/access/transam/xlog.c:3815-3887 | which record headers are accepted: exactly those written behind the record that has been read before, with data and with no more behind it than three backup blocks, of an existing resource manager, and of no switch record |
| `WalPages.NoRecordStarts` | pqtouch/postgresql/versions/postgresql-9.1.1/src/backend/access/transam/xlog.c:3776-3887 | a record is returned only from a readable page, from behind its header, not from directly behind the header of a page that continues a record, and only when its own header is accepted |
| `WalPages.NothingContinues` | pqtouch/postgresql/versions/postgresql-9.1.1/src/backend/access/transam/xlog.c:3929-3960 | and only when each following page is readable and marked as a continuation, with a count of remaining bytes that is not zero and adds up to the total |
| `WalPages.ReaderSkipsTail` | pqtouch/postgresql/versions/postgresql-9.1.1/src/backend/access/transam/xlog.c:3730-3736 | less than 32 bytes at the end of a page are skipped |
| `WalPages.RecordHeaderFields` | pqtouch/include/postgresql/server/access/xlog.h:42-58 | the fields of a record header, by offset |
| `WalPages.RecordPlace` | pqtouch/postgresql/versions/postgresql-9.1.1/src/backend/access/transam/xlog.c:984-997 | a record goes to the end of the log when 32 bytes are left on the page, and else behind the header of the next page, with zeros before that |
| `WalPages.InsertedHeader` | pqtouch/postgresql/versions/postgresql-9.1.1/src/backend/access/transam/xlog.c:1041-1055 | in the log, at that place: the link to the record before at 4 and 8, the transaction at 12, the lengths at 16 and 20, flags and resource manager at 24 and 25; what was in the log before stays |
| `WalPages.InsertedPieces` | pqtouch/postgresql/versions/postgresql-9.1.1/src/backend/access/transam/xlog.c:1083-1131 | behind it as much of the data as fits on the page, the rest continued, then zeros up to the next multiple of 8 |
| `WalPages.ContinuedPage` | pqtouch/postgresql/versions/postgresql-9.1.1/src/backend/access/transam/xlog.c:1106-1120 | a page that continues a record: its header with the flag, the number of bytes that are left, as many of them as fit, and the rest on the next page in the same way |
| `WalPages.RecoveredRecord` | pqtouch/postgresql/versions/postgresql-9.1.1/src/backend/access/transam/xlog.c:3702-4023 | field by field, what recovery returns for a record: its checksum, transaction, lengths, flags, resource manager and data, and a link to the record that was returned before |
| `WalPages.RecoveredCount` | pqtouch/postgresql/versions/postgresql-9.1.1/src/backend/access/transam/xlog.c:3702-4023 | at least k records are returned exactly when the log of the first k ends within the bytes on disk |
| `WalPages.AllSurvive` | pqtouch/postgresql/versions/postgresql-9.1.1/src/backend/access/transam/xlog.c:684-1131 | with all pages on disk every record comes back with its data |
| `WalPages.FewerPagesFewerRecords` | pqtouch/postgresql/versions/postgresql-9.1.1/src/backend/access/transam/xlog.c:3702-4023 | losing more pages only shortens the list of recovered records |
| `WalPages.RecordAccepted` | pqtouch/postgresql/versions/postgresql-9.1.1/src/backend/access/transam/xlog.c:3825-3887 | the header that XLogInsert writes passes the header checks of ReadRecord |
| `WalInsert.Inserter.constructor` | pqtouch/postgresql/versions/postgresql-9.1.1/src/backend/access/transam/xlog.c:6741-6780 | startup puts the insertion point behind the last record of the existing log |
| `WalInsert.Inserter.AdvanceBuffer` | pqtouch/postgresql/versions/postgresql-9.1.1/src/backend/access/transam/xlog.c:1484-1621 | AdvanceXLInsertBuffer: the finished page joins the log, and the new page is zero but for the header of its address |
| `WalInsert.Inserter.StartContPage` | pqtouch/postgresql/versions/postgresql-9.1.1/src/backend/access/transam/xlog.c:1110-1120 | a continuation page: flag, remaining length, insertion point |
| `WalInsert.Inserter.AppendChain` | pqtouch/postgresql/versions/postgresql-9.1.1/src/backend/access/transam/xlog.c:1083-1120 | the copy loop over the rdata chain, items without data and page ends in any combination, appends exactly the chain's data with its continuation headers |
| `WalInsert.Inserter.Insert` | pqtouch/postgresql/versions/postgresql-9.1.1/src/backend/access/transam/xlog.c:988-1131 | the second half of XLogInsert turns the log into the specified one, sets PrevRecord, and returns the pointers to the record and to its end |
| `WalInsert.Inserter.FindStart` | pqtouch/postgresql/versions/postgresql-9.1.1/src/backend/access/transam/xlog.c:988-997 | a record header goes to the next page unless it fits whole |
| `WalInsert.InsertPointerIsLinear` | pqtouch/postgresql/versions/postgresql-9.1.1/src/backend/access/transam/xlog.c:472-478 | INSERT_RECPTR is the linear insertion position, as a pointer to an end |
| `WalInsert.NextPageEndEnds` | pqtouch/postgresql/versions/postgresql-9.1.1/src/backend/access/transam/xlog.c:1563-1583 | the page-end pointer that is stepped by one page stays that of the page |
| `WalInsert.EndPointerMoves` | pqtouch/postgresql/versions/postgresql-9.1.1/src/backend/access/transam/xlog.c:3738-3743 | the end pointer differs from the start of the next byte only at the end of a file, where ReadRecord moves on |
| `WalRead.Reader.Next` | pqtouch/postgresql/versions/postgresql-9.1.1/src/backend/access/transam/xlog.c:3702-4023 | ReadRecord, in 32-bit pointer steps and with RecordIsValid, reads what the specification reads and moves its two pointers accordingly, or changes nothing |
| `WalRead.Reader.Assemble` | pqtouch/postgresql/versions/postgresql-9.1.1/src/backend/access/transam/xlog.c:3911-3977 | the reassembly loop with its page pointer computes the specified reassembly |
| `WalRead.Reader.FindHeader` | pqtouch/postgresql/versions/postgresql-9.1.1/src/backend/access/transam/xlog.c:3780-3887 | page header skipping and all header checks, before any data is read |
| `WalRead.Reader.ReadToEnd` | pqtouch/postgresql/versions/postgresql-9.1.1/src/backend/access/transam/xlog.c:6509-6616 | the redo loop returns the bytes of all records up to the first that is not there or does not pass the check |
| `WalRecord.AssembledIsValid` | pqtouch/postgresql/versions/postgresql-9.1.1/src/backend/access/transam/xlog.c:3630-3687 | every record that XLogInsert makes, with any backup blocks, passes RecordIsValid |
| `WalRecord.BackupRoundTrip` | pqtouch/postgresql/versions/postgresql-9.1.1/src/backend/access/transam/xlog.c:3569-3620 | restoring the backup blocks of a record writes back every page that was backed up, for the same block and with its bytes, the hole zeroed |
| `WalRecord.ZeroFilledIsPage` | pqtouch/include/postgresql/server/access/xlog_internal.h:29-35 | so the page is exactly what it was if and only if the hole was zero |
| `WalRecord.CheckBufferExactly` | pqtouch/postgresql/versions/postgresql-9.1.1/src/backend/access/transam/xlog.c:1251-1268 | XLogCheckBuffer: a page is backed up exactly when page writes are on and the LSN in its first eight bytes is not past the redo pointer |
| `WalRecord.HoleExactly` | pqtouch/postgresql/versions/postgresql-9.1.1/src/backend/access/transam/xlog.c:1269-1300 | the hole, by the values stored at 12 and 14 of the page: from the lower to the upper one exactly when the page is declared standard and 24 <= lower < upper <= 8192, else none |
| `WalRecord.PageRestoredExactly` | pqtouch/postgresql/versions/postgresql-9.1.1/src/backend/access/transam/xlog.c:1251-1305 | for a page with given values at 12 and 14: it comes back for its block, with every byte below the lower and from the upper value on, and zeros between them; as it was exactly when it has no hole or only zeros there |
| `WalRecord.AssembledFields` | pqtouch/postgresql/versions/postgresql-9.1.1/src/backend/access/transam/xlog.c:915-972 | the record of a request, in terms of the request: transaction, resource manager, length of the data and the data, and in the flags the upper four bits, bits 3, 2 and 1 for the three blocks, and bit 0 when these may be removed |
| `WalRecord.BlockInRecord` | pqtouch/postgresql/versions/postgresql-9.1.1/src/backend/access/transam/xlog.c:927-970 | where each backup block is in the record, behind the data and the blocks before it: 24 bytes of fields, by offset, and then the page without its hole |
| `WalRecord.RecoveredRequest` | pqtouch/postgresql/versions/postgresql-9.1.1/src/backend/access/transam/xlog.c:684-1131 | what recovery returns for a request: its transaction at 12, resource manager at 25, upper flags at 24, data at 32, and a link to the record that was returned before |
| `WalRecord.FinalInfoFits` | pqtouch/include/postgresql/server/access/xlog.h:67-86 | the bits for the backup blocks are set exactly for the blocks that are there and leave the resource manager's bits alone |
| `WalRecord.CheckRecord` | pqtouch/postgresql/versions/postgresql-9.1.1/src/backend/access/transam/xlog.c:3630-3687 | the loop over the backup blocks accepts exactly the records whose blocks end where the record does and whose checksum is right, whatever lies behind the record in memory; its reads stay inside the record exactly when every block that is announced does, up to the first with a senseless hole |
| `WalRecord.ShortRecordIsOverread` | pqtouch/postgresql/versions/postgresql-9.1.1/src/backend/access/transam/xlog.c:3643-3672 | in a record with no room for a block header they do so exactly when no block is announced; else it is rejected |
| `WalRecord.RestoreBkpBlocks` | pqtouch/postgresql/versions/postgresql-9.1.1/src/backend/access/transam/xlog.c:3569-3620 | the loop writes back the specified pages |
| `WalRecord.ReadAllValidIsPrefix` | pqtouch/postgresql/versions/postgresql-9.1.1/src/backend/access/transam/xlog.c:3968-3984 | the check stops recovery in front of the first damaged record, and changes nothing otherwise |
| `WalRecord.CheckedRecovery` | pqtouch/postgresql/versions/postgresql-9.1.1/src/backend/access/transam/xlog.c:684-1131 | for every list of requests and every number of whole pages that reached the disk: recovery with checksums returns exactly the records wholly within them |
| `WalRecord.CheckedTornRecovery` | pqtouch/postgresql/versions/postgresql-9.1.1/src/backend/access/transam/xlog.c:3968-3984 | for every number of bytes that reached the disk and arbitrary bytes behind them: it loses no record that is wholly there, and adds none exactly when none is accepted behind the last of them |
| `WalRecord.DamagePassesExactly` | pqtouch/postgresql/versions/postgresql-9.1.1/src/backend/access/transam/xlog.c:3630-3687 | a record with an intact header and another body is accepted exactly when its blocks end where it does and the checksums of the two bodies agree |
| `WalAssemble.Scan` | pqtouch/postgresql/versions/postgresql-9.1.1/src/backend/access/transam/xlog.c:748-817 | the scan of the rdata chain finds the different buffers in order of appearance, fails exactly at a fourth one, and leaves out exactly the data of buffers that are backed up |
| `WalAssemble.KeptByItem` | pqtouch/postgresql/versions/postgresql-9.1.1/src/backend/access/transam/xlog.c:748-817 | item by item: its data is in the record, behind that of the items before, exactly when it has no buffer or its buffer is not backed up |
| `WalAssemble.BuffersComplete` | pqtouch/postgresql/versions/postgresql-9.1.1/src/backend/access/transam/xlog.c:748-817 | the buffers found are exactly those that occur in the chain |
| `WalAssemble.BuffersInOrder` | pqtouch/postgresql/versions/postgresql-9.1.1/src/backend/access/transam/xlog.c:748-817 | they are listed in the order in which they appear first |
| `WalAssemble.VerdictExactly` | pqtouch/postgresql/versions/postgresql-9.1.1/src/backend/access/transam/xlog.c:1251-1268 | a buffer is backed up exactly when page writes are on and the LSN that its page starts with is not past the redo pointer |
| `WalAssemble.BackupItemsData` | pqtouch/postgresql/versions/postgresql-9.1.1/src/backend/access/transam/xlog.c:915-972 | the additional chain entries contain the backup blocks without their holes |
| `WalAssemble.NeedsBackup` | pqtouch/postgresql/versions/postgresql-9.1.1/src/backend/access/transam/xlog.c:881-899 | the test whether a buffer that was not backed up would be by the present redo pointer |
| `WalAssemble.Prepare` | pqtouch/postgresql/versions/postgresql-9.1.1/src/backend/access/transam/xlog.c:749-915 | the scan, started over when the redo pointer or forced page writes call for it, ends with the data and full-page images that the present redo pointer calls for |
| `WalAssemble.XLogInsert` | pqtouch/postgresql/versions/postgresql-9.1.1/src/backend/access/transam/xlog.c:684-1131 | XLogInsert: an error exactly for reserved info bits, a fourth buffer or no data, a made-up pointer in bootstrap mode, both with no change; else the log is extended by the record of the request, and at the pointer returned has the previous record's start at 4 and 8, the transaction at 12, the length of the kept data at 20, info in the upper bits at 24, and rmid at 25 |
| `WalRead.NextStartIsReaderPos` | pqtouch/postgresql/versions/postgresql-9.1.1/src/backend/access/transam/xlog.c:3730-3743 | skipping a short page tail and the end of a file arrives where the writer put the next record |
| `WalFileName.FileNameRoundTrip` | pqtouch/include/postgresql/server/access/xlog_internal.h:216-220 | XLogFromFileName inverts XLogFileName for all 32-bit triples |
| `WalFileName.FileNameDigits` | pqtouch/include/postgresql/server/access/xlog_internal.h:216-217 | the name, character by character: eight hexadecimal digits with capital letters for each of timeline, log file and segment, the most significant first |
| `WalFileName.ScanFails` | pqtouch/include/postgresql/server/access/xlog_internal.h:219-220 | a conversion fails exactly where there is no hexadecimal digit |
| `WalFileName.FileNameOrder` | pqtouch/include/postgresql/server/access/xlog_internal.h:216-217 | names compare as (timeline, log, segment) does |
| `WalFileName.SegmentNamesScan` | pqtouch/postgresql/versions/postgresql-9.1.1/src/backend/access/transam/xlog.c:3360-3361 | every name of 24 upper-case hexadecimal digits is the name of exactly the segment it scans to |
| `WalFileName.OldSegmentTest` | pqtouch/postgresql/versions/postgresql-9.1.1/src/backend/access/transam/xlog.c:3360-3362 | the strcmp behind the timeline decides whether a segment is at or before the limit in the log |
| `HashFile.HashLog2` | pqtouch/postgresql/versions/postgresql-9.1.1/src/backend/access/hash/hashutil.c:138-148 | the shift loop computes the ceiling of the binary logarithm |
| `HashFile.InitialIndexValid` | pqtouch/postgresql/versions/postgresql-9.1.1/src/backend/access/hash/hashpage.c:426-477 | the initial index of 2^n buckets has every bucket and the first bitmap page where the macros look |
| `HashFile.DoKeeps` | pqtouch/include/postgresql/server/access/hash.h:120-140 | adding an overflow page or splitting keeps the whole placement invariant, and no used block changes its use |
| `HashFile.MacroFindsBucket` | pqtouch/include/postgresql/server/access/hash.h:34-35 | in every reachable index BUCKET_TO_BLKNO yields, without 32-bit overflow, the one block of the bucket, never the metapage |
| `HashFile.BucketsNeverMove` | pqtouch/include/postgresql/server/access/hash.h:120-140 | over every run of operations the macro yields the same block for the same bucket |
| `HashFile.BlocksIncrease` | pqtouch/include/postgresql/server/access/hash.h:34-35 | bucket blocks strictly increase with the bucket number |
| `HashFile.GapBeforeBatch` | pqtouch/include/postgresql/server/access/hash.h:120-140 | before bucket 2^k lie exactly spares[k] - spares[k-1] blocks, the overflow pages allocated there |
| `HashFile.NextOverflowIsAtEnd` | pqtouch/postgresql/versions/postgresql-9.1.1/src/backend/access/hash/hashovfl.c:274-286 | a new overflow page is at the end of the file |
| `HashFile.AddOverflowFails` | pqtouch/postgresql/versions/postgresql-9.1.1/src/backend/access/hash/hashovfl.c:274-286 | extension fails exactly at the greatest file size |
| `HashFile.ExpandFails` | pqtouch/postgresql/versions/postgresql-9.1.1/src/backend/access/hash/hashpage.c:558-615 | a split fails exactly at the greatest bucket number or when the batch would run past the greatest block number |
| `HashFile.BitsAndBlocks` | pqtouch/postgresql/versions/postgresql-9.1.1/src/backend/access/hash/hashovfl.c:34-77 | bitno_to_blkno and blkno_to_bitno invert each other on all overflow pages |
| `HashFile.BucketBlockBit` | pqtouch/postgresql/versions/postgresql-9.1.1/src/backend/access/hash/hashovfl.c:59-77 | of the blocks that are no overflow pages, used or not, blkno_to_bitno detects the metapage, and that of a bucket exactly when it lies at or below the batch size; else it gives the bit of another page |
| `HashFile.BucketTakenForOverflow` | pqtouch/postgresql/versions/postgresql-9.1.1/src/backend/access/hash/hashovfl.c:59-77 | an index reached by one overflow page and one split in which that happens |
| `HashFile.SplitMovesKeys` | pqtouch/postgresql/versions/postgresql-9.1.1/src/backend/access/hash/hashutil.c:123-133 | every key has a bucket in the table, and a split moves keys from the split bucket to the new one and nowhere else |
| `HashFile.HashMeta.constructor` | pqtouch/postgresql/versions/postgresql-9.1.1/src/backend/access/hash/hashpage.c:426-453 | _hash_metapinit leaves the initial index |
| `HashFile.HashMeta.BlockOfBit` | pqtouch/postgresql/versions/postgresql-9.1.1/src/backend/access/hash/hashovfl.c:34-53 | the search loop of bitno_to_blkno |
| `HashFile.HashMeta.BitOfBlock` | pqtouch/postgresql/versions/postgresql-9.1.1/src/backend/access/hash/hashovfl.c:59-77 | the search loop of blkno_to_bitno, error included |
| `HashFile.HashMeta.ExtendForOverflow` | pqtouch/postgresql/versions/postgresql-9.1.1/src/backend/access/hash/hashovfl.c:274-292 | one page more at the end of the file, or an error and no change |
| `HashFile.HashMeta.ExpandTable` | pqtouch/postgresql/versions/postgresql-9.1.1/src/backend/access/hash/hashpage.c:558-650 | _hash_expandtable changes metapage and file as specified, or nothing at all |
| `HashFile.HashMeta.UpdateMapping` | pqtouch/postgresql/versions/postgresql-9.1.1/src/backend/access/hash/hashpage.c:631-650 | the critical section turns the metapage into that of one more bucket |
| `HashOverflow.WithBitChanges` | pqtouch/include/postgresql/server/access/hash.h:214-216 | SETBIT and CLRBIT change the bit that ISSET tests and no other |
| `HashOverflow.FirstFreeBit` | pqtouch/postgresql/versions/postgresql-9.1.1/src/backend/access/hash/hashovfl.c:343-359 | the mask loop finds the lowest clear bit |
| `HashOverflow.FreeMap.constructor` | pqtouch/postgresql/versions/postgresql-9.1.1/src/backend/access/hash/hashpage.c:426-477 | the first bitmap page covers itself and has no free page |
| `HashOverflow.FreeMap.FindFree` | pqtouch/postgresql/versions/postgresql-9.1.1/src/backend/access/hash/hashovfl.c:192-245 | the search from firstfree, page by page and word by word, finds the lowest free page of all, or none exactly when there is none |
| `HashOverflow.FreeMap.GetPage` | pqtouch/postgresql/versions/postgresql-9.1.1/src/backend/access/hash/hashovfl.c:169-335 | never a page in use; the lowest free page if there is one, else a new one; nothing else changes; fails exactly when 128 full bitmaps cover no more |
| `HashOverflow.FreeMap.ReleasePage` | pqtouch/postgresql/versions/postgresql-9.1.1/src/backend/access/hash/hashovfl.c:455-489 | _hash_freeovflpage frees exactly the page and keeps the start of the search below every free page |
| `HashOverflow.FreeMap.Extend` | pqtouch/postgresql/versions/postgresql-9.1.1/src/backend/access/hash/hashovfl.c:251-292 | a bitmap page is added exactly when the next page would not be covered |
| `BackendStatus.AcceptedCopyIsComplete` | pqtouch/include/postgresql/server/pgstat.h:604-615 | under every interleaving, a copy that passed the check is one complete state of the entry: what it was at an instant of the read with the even count that the reader noted, unless the counter has gone round |
| `BackendStatus.HostNameBelongs` | pqtouch/postgresql/versions/postgresql-9.1.1/src/backend/utils/adt/pgstatfuncs.c:696-697 | the host name, which is read later and without a check, completes that state as long as no host name has been written since the read began |
| `BackendStatus.HostNameOfSuccessor` | pqtouch/postgresql/versions/postgresql-9.1.1/src/backend/utils/adt/pgstatfuncs.c:696-697 | else it may be another process's: from every state, a backend's end and the start of its successor lead to a copy and a host name that never were in the entry together |
| `BackendStatus.HostNameExactly` | pqtouch/postgresql/versions/postgresql-9.1.1/src/backend/utils/adt/pgstatfuncs.c:696-697 | so every host name that can be read belongs to the copy if and only if none may be written between the beginning of the read and its end |
| `BackendStatus.CounterEqual` | pqtouch/postgresql/versions/postgresql-9.1.1/src/backend/postmaster/pgstat.c:2633-2658 | the comparison detects exactly increments that are not a multiple of 2^32 |
| `BackendStatus.ApplyKeeps` | pqtouch/include/postgresql/server/pgstat.h:604-615 | every step of writer and readers keeps the protocol invariant |
| `BackendStatus.UndisturbedRead` | pqtouch/postgresql/versions/postgresql-9.1.1/src/backend/postmaster/pgstat.c:2633-2658 | a read that nobody disturbs succeeds exactly when no modification is under way, and yields the entry |
| `BackendStatus.Backend.constructor` | pqtouch/postgresql/versions/postgresql-9.1.1/src/backend/postmaster/pgstat.c:2263-2287 | the entry in newly created shared memory is zero, and no modification is under way |
| `BackendStatus.Backend.OpenModification` | pqtouch/postgresql/versions/postgresql-9.1.1/src/backend/postmaster/pgstat.c:2395-2398 | the do-while loop leaves the counter odd, with two increments only if it was odd before |
| `BackendStatus.Backend.BeStart` | pqtouch/postgresql/versions/postgresql-9.1.1/src/backend/postmaster/pgstat.c:2358-2425 | pgstat_bestart sets every field, the host name truncated and outside the protocol, the application name in a modification of its own, and is a legal sequence of protocol steps |
| `BackendStatus.Backend.ReportActivity` | pqtouch/postgresql/versions/postgresql-9.1.1/src/backend/postmaster/pgstat.c:2472-2505 | pgstat_report_activity changes time and command only, as a legal sequence of protocol steps |
| `BackendStatus.Backend.ReportAppname` | pqtouch/postgresql/versions/postgresql-9.1.1/src/backend/postmaster/pgstat.c:2514-2537 | pgstat_report_appname changes the name only, as a legal sequence of protocol steps |
| `BackendStatus.Backend.ReportWaiting` | pqtouch/postgresql/versions/postgresql-9.1.1/src/backend/postmaster/pgstat.c:2572-2585 | pgstat_report_waiting is one step outside the protocol |
| `UpdateChain.ApplyKeeps` | pqtouch/include/postgresql/server/access/htup.h:83-96 | insert, update in one or two steps, delete, lock, hint, vacuum, freeze, commit and abort keep the chain invariant |
| `UpdateChain.AcceptedTargetIsSuccessor` | pqtouch/include/postgresql/server/access/htup.h:83-96 | whatever happens between reading a tuple and looking at its link's target: if xmin equals the xmax read, the target is the version that replaced the tuple, of the same row |
| `UpdateChain.RejectedTargetWasAborted` | pqtouch/include/postgresql/server/access/htup.h:91-96 | for a reader whose snapshot does not have the updater as committed, a failed test means that the updater aborted |
| `UpdateChain.RunningXmaxStays` | pqtouch/postgresql/versions/postgresql-9.1.1/src/backend/utils/time/tqual.c:555-600 | what a running transaction has set on a tuple, lock, deletion or link, no step but its own changes: nobody else updates, deletes or locks the tuple, clears its xmax or removes it |
| `UpdateChain.LiveTupleStays` | pqtouch/postgresql/versions/postgresql-9.1.1/src/backend/utils/time/tqual.c:1056-1075 | a tuple is removed only if its inserter has aborted, or a committed transaction that no running one is older than has deleted or replaced it; only freezing changes its xmin, below the horizon |
| `UpdateChain.UpdateExactly` | pqtouch/postgresql/versions/postgresql-9.1.1/src/backend/access/heap/heapam.c:2663-2831 | when a running transaction can update a tuple, and all that changes then: the new version at the free slot, the old one with the updater's number and the link |
| `UpdateChain.DeleteAndLockExactly` | pqtouch/postgresql/versions/postgresql-9.1.1/src/backend/access/heap/heapam.c:2266-2276 | deleting and locking are possible in the same cases and change that tuple only; an update that marks the tuple first and links it later comes to the same as one in one step |
| `UpdateChain.GetLatestTid` | pqtouch/postgresql/versions/postgresql-9.1.1/src/backend/access/heap/heapam.c:1674-1781 | however the table changes between its steps, the loop ends, and returns the place of the last visible one of the versions found by following links, or the one it was given when none is visible |
| `UpdateChain.WalkTakesEveryLink` | pqtouch/postgresql/versions/postgresql-9.1.1/src/backend/access/heap/heapam.c:1705-1777 | these versions are found by following every link whose target is accepted: each is what its slot holds when it is looked at, and behind the last one there is no link, or an empty slot, or a version of another inserter |
| `UpdateChain.WalkIsOneRow` | pqtouch/postgresql/versions/postgresql-9.1.1/src/backend/access/heap/heapam.c:1748-1777 | each of these versions is the one that replaced the version before it, so all belong to one row |
| `LinkCheck.ApplyKeepsHistory` | pqtouch/include/postgresql/server/access/htup.h:83-96 | every step keeps the history of versions: a replaced tuple carries the number of its last update that has not aborted |
| `LinkCheck.FailedCheckExcludesDescendants` | pqtouch/include/postgresql/server/access/htup.h:91-96 | for a reader whose snapshot does not have the updater as committed and who finds the tuple unchanged: after a failed check every descendant was made by an aborted transaction |
| `LinkCheck.MisleadsExactly` | pqtouch/include/postgresql/server/access/htup.h:95-96 | for a reader with such a snapshot, some continuation leads to a failed check beside a live descendant if and only if the updater has not committed when the tuple is read and is not the inserter |
| `LinkCheck.LiveTargetMisleadsExactly` | pqtouch/include/postgresql/server/access/htup.h:95-96 | for a snapshot that has the updater as committed and a target that is live when the tuple is read, some continuation does so if and only if no transaction up to the updater was running for the snapshot |
| `LinkCheck.FrozenTarget` | pqtouch/include/postgresql/server/access/htup.h:95-96 | in every state in which the horizon has passed the updater, freezing a live target makes the check fail beside a live descendant |
| `LinkCheck.VacuumedTarget` | pqtouch/include/postgresql/server/access/htup.h:90-96 | so does vacuuming a target that has been replaced by a live version |
| `LinkCheck.FrozenTargetHappens` | pqtouch/include/postgresql/server/access/htup.h:95-96 | a run with a snapshot that has the updater as committed and in which the first happens |
| `LinkCheck.VacuumedTargetHappens` | pqtouch/include/postgresql/server/access/htup.h:95-96 | and one in which the second does |
| `Slru.DeltaIsAge` | pqtouch/include/postgresql/server/access/slru.h:85-94 | the wrapped difference is the true age exactly up to INT_MAX |
| `Slru.VictimIsLeastRecentlyUsed` | pqtouch/include/postgresql/server/access/slru.h:85-94 | over every run, as long as no age exceeds INT_MAX, the chosen slot is the one used the longest time ago among those without the latest page |
| `Slru.OlderThanIntMaxIsMissed` | pqtouch/postgresql/versions/postgresql-9.1.1/src/backend/access/transam/slru.c:953-964 | one count more and the oldest page appears to be the newest |
| `Slru.ScanFindsOldest` | pqtouch/postgresql/versions/postgresql-9.1.1/src/backend/access/transam/slru.c:942-976 | the loop finds the greatest apparent age among the slots without the latest page |
| `Slru.VictimIsNotLatest` | pqtouch/postgresql/versions/postgresql-9.1.1/src/backend/access/transam/slru.c:930-931 | with two slots or more and no page in two of them, the slot with the latest page is never chosen |
| `Slru.ScanBreaksTies` | pqtouch/postgresql/versions/postgresql-9.1.1/src/backend/access/transam/slru.c:967-975 | among equal ages it chooses the page furthest back, in any order of the pages in question |
| `Slru.ClogPagesOrdered` | pqtouch/postgresql/versions/postgresql-9.1.1/src/backend/access/transam/clog.c:630-642 | CLOGPagePrecedes is such an order on all pages within half the ring |
| `Slru.Shared.RecentlyUsed` | pqtouch/postgresql/versions/postgresql-9.1.1/src/backend/access/transam/slru.c:102-109 | SlruRecentlyUsed keeps the wrapped counts in step with the true ones |
| `Slru.Shared.constructor` | pqtouch/postgresql/versions/postgresql-9.1.1/src/backend/access/transam/slru.c:161-222 | SimpleLruInit: no slot holds a page, and the counts are those of the initial state of a run |
| `Slru.Shared.SelectPage` | pqtouch/postgresql/versions/postgresql-9.1.1/src/backend/access/transam/slru.c:899-975 | one pass of SlruSelectLRUPage: page present, empty slot or victim, never that of the latest page; counter and set-back counts included; in a state that a run has led to it is a step of that run, and the victim is the page not used for longest |
| `Slru.Shared.MarkForRead` | pqtouch/postgresql/versions/postgresql-9.1.1/src/backend/access/transam/slru.c:389-397 | putting a page that is in no slot into the chosen one leaves every page in one slot only |
| `RelOptions.Allocate` | pqtouch/postgresql/versions/postgresql-9.1.1/src/backend/access/common/reloptions.c:1009-1019 | the struct has exactly the computed size, zeroed, or is refused |
| `RelOptions.StringsFit` | pqtouch/include/postgresql/server/access/reloptions.h:190-228 | the allocation has room for every string and its terminator |
| `RelOptions.AllRoomUsed` | pqtouch/postgresql/versions/postgresql-9.1.1/src/backend/access/common/reloptions.c:1009-1019 | all of it is used exactly when every string option has a table row and a string |
| `RelOptions.FillOneKeeps` | pqtouch/include/postgresql/server/access/reloptions.h:201-220 | handling one option does not disturb what was stored for another |
| `RelOptions.Fill` | pqtouch/postgresql/versions/postgresql-9.1.1/src/backend/access/common/reloptions.c:1033-1103 | every option reads back as what was set, or else its default, strings as themselves or NULL; the length word is the end of the strings, no write leaves the struct; the error exactly for an unknown option when validating |
| `RelOptions.SizesAdd` | pqtouch/postgresql/versions/postgresql-9.1.1/src/backend/access/common/reloptions.c:1009-1019 | each string option adds its string or default with the terminator to the allocation, and the same, but nothing for a NULL, to what is filled in |
| `RelOptions.SameNameFolds` | pqtouch/postgresql/versions/postgresql-9.1.1/src/backend/access/common/reloptions.c:1048 | an option goes to the table row whose name has the same letters, capital or not |
| `RelOptions.HoldsReadsBack` | pqtouch/include/postgresql/server/access/reloptions.h:235-237 | GET_STRING_RELOPTION returns the string that was set, or else the default, NULL exactly for a null default |
| `MemSet.MemSet` | pqtouch/include/postgresql/server/c.h:618-642 | MemSet is memset for every start, value and length, on both branches; words are stored only at aligned addresses |
| `MemSet.MemSetAligned` | pqtouch/include/postgresql/server/c.h:651-668 | so is MemSetAligned, for a start that is aligned |
| `MemSet.Loop` | pqtouch/include/postgresql/server/c.h:686-693 | MemSetLoop zeroes whole words from the start on and touches nothing else |
| `MemSet.LoopIsMemset` | pqtouch/include/postgresql/server/c.h:680-693 | MemSetLoop agrees with memset under MemSetTest, and otherwise exactly for whole words and a value that is zero as a byte |
| `MemSet.StrNCpy` | pqtouch/include/postgresql/server/c.h:591-602 | StrNCpy writes the truncated or padded string and nothing else |
| `MemSet.TruncatedIsTerminated` | pqtouch/include/postgresql/server/c.h:573-578 | the result is always terminated and keeps as much of the string as fits |
| `TransactionIds.Variable.Advance` | pqtouch/include/postgresql/server/access/transam.h:47-52 | TransactionIdAdvance yields the next normal number |
| `TransactionIds.Variable.Retreat` | pqtouch/include/postgresql/server/access/transam.h:55-58 | the do-while loop ends, across the wrap too, at the previous normal number |
| `TransactionIds.StepsInvert` | pqtouch/include/postgresql/server/access/transam.h:47-58 | advance and retreat never yield a reserved number and undo each other exactly on normal numbers |
| `TransactionIds.AdvancesAdd` | pqtouch/include/postgresql/server/access/transam.h:47-52 | k advances add k modulo 2^32 - 3 |
| `TransactionIds.RingCloses` | pqtouch/include/postgresql/server/access/transam.h:47-52 | the ring closes after 2^32 - 3 advances and multiples of it only |
| `TransactionIds.PrecedesWindow` | pqtouch/postgresql/versions/postgresql-9.1.1/src/backend/access/transam/transam.c:304-317 | a number precedes exactly those up to 2^31 values ahead of it |
| `TransactionIds.PrecedesEitherWay` | pqtouch/postgresql/versions/postgresql-9.1.1/src/backend/access/transam/transam.c:304-317 | of two normal numbers exactly one precedes the other, unless they are opposite on the ring |
| `TransactionIds.PrecedesWithinWindow` | pqtouch/postgresql/versions/postgresql-9.1.1/src/backend/access/transam/transam.c:304-317 | within reach of a number the order is the order of age |
| `PageCapacity.Page.Add` | pqtouch/postgresql/versions/postgresql-9.1.1/src/backend/storage/page/bufpage.c:219-250 | PageAddItem takes the item exactly when all line pointers and aligned sizes fit beside header and special space, and leaves the rest as free space |
| `PageCapacity.FitsIsSum` | pqtouch/postgresql/versions/postgresql-9.1.1/src/backend/storage/page/bufpage.c:219-250 | a list of items fits exactly when line pointers and aligned sizes do |
| `PageCapacity.MaximumBytesPerTupleIsLargest` | pqtouch/include/postgresql/server/access/tuptoaster.h:30-33 | it is the largest size of which n tuples fit, and n smaller tuples of any sizes fit too |
| `PageCapacity.MaxHeapTupleSizeIsLargest` | pqtouch/include/postgresql/server/access/htup.h:385-395 | it is the largest tuple that an empty heap page takes |
| `PageCapacity.ThreeItemsFit` | pqtouch/include/postgresql/server/access/nbtree.h:111-120 | any three items up to BTMaxItemSize fit on a B-tree page, and no larger limit would do |
| `PageCapacity.HashMaxItemSizeIsLargest` | pqtouch/include/postgresql/server/access/hash.h:171-175 | it is the largest item that an empty hash page takes |
| `PageCapacity.ToastChunkIsLargest` | pqtouch/include/postgresql/server/access/tuptoaster.h:78-98 | it is the largest chunk of which four toast tuples fit on a page |
| `PageCapacity.PerPageConstants` | pqtouch/include/postgresql/server/access/htup.h:408-410 | the constants are what the macros compute |
| `PageCapacity.HeapTuplesPerPage` | pqtouch/include/postgresql/server/access/htup.h:398-410 | no page holds more tuples, and a page of that many is possible |
| `PageCapacity.IndexTuplesPerPage` | pqtouch/include/postgresql/server/access/itup.h:130-138 | no index page holds more tuples |

## Left out

- WalPages.Recovery: XLOG_SWITCH records, which the reader of the model does not accept; torn pages are the subject of `WalPages.TornRecovery`, the checksum is added by `WalRecord.CheckedRecovery`.
- WalRecord.CheckedRecovery: the checksum is any function of the bytes, so how likely it is to miss damage is not part of the model.
- WalRecord.RestoreBkpBlocks: the LSN and timeline that are stamped on a page that has been written back.
- WalAssemble.XLogInsert: switch records, and a redo pointer or forced page writes that change once more while the scan starts over.
- WalPages.HeaderIsValid: timelines are those of one history, so the checks of expectedTLIs and of a timeline that goes backwards reduce to equality.
- WalInsert.Inserter.Insert: the flush of a switch record.
- WalInsert.Inserter.AdvanceBuffer: the jump to a new segment behind a switch record, and writing pages out when all buffers are full; there is one buffer page, and finished ones are part of the log.
- WalRead.Reader.Next: reading at a given pointer, the check of a segment's first page when the reader enters it, retries from the archive and standby mode; a log is limited to 2^32 - 1 files, within which file numbers do not wrap.
- WalFileName.FileNameRoundTrip: what a scan conversion does with blanks, signs and a 0x prefix, which do not occur in these names.
- HeapTuple.FormTuple: flattening of toasted values in embedded composite columns; the transaction fields, which share their place with the Datum fields and are filled in later.
- IndexTuple.FormTuple: fetching external values and compressing long ones first; the values given are those that are stored.
- TupleDesc.Descriptor.HeapGetAttr: the values of system attributes, which it returns by number only.
- TupleLayout.TupleRoundTrip: floating-point columns are their bytes; the build in which 8-byte values are not passed by value is covered by the platform parameter, other pointer sizes are not.
- HashFile.DoKeeps: locks, the decision that a split is due, moving the tuples of a split bucket, and a failed write that leaves the file longer than the metapage says.
- HashOverflow.FreeMap.GetPage: other backends between the release and the return of the metapage lock, and the chain of a bucket's overflow pages.
- BackendStatus.AcceptedCopyIsComplete: reordering of memory operations by the hardware or the compiler; steps take effect in one order.
- UpdateChain.AcceptedTargetIsSuccessor: multixacts, subtransactions, combo command ids and the reuse of transaction numbers after a wrap; numbers are unique.
- UpdateChain.GetLatestTid: a table that changes for ever; the changes during the loop are any finite number, between its steps.
- LinkCheck.LiveTargetMisleadsExactly: a target that is gone or dead already when the tuple is read; whether a version behind it is live is then a matter of the row's whole history (`LinkCheck.VacuumedTargetHappens`).
- Slru.Shared.SelectPage: waiting for I/O and going round again, and SlruRecentlyUsed run by several processes at once, which may lose counts.
- RelOptions.Fill: parsing the options, and the value checks before they are stored; bool, int and real members are the bytes they consist of.
- MemSet.Loop: a start that is not aligned to a word, which the caller must rule out.
- PageCapacity.Page.Add: inserting between line pointers, reuse of free ones, and copying the item.
- The iPad application, PGSQLKit, libpq and the embedded SQL library: interface declarations without bodies, and network client code.
- Catalog tables, configuration macros, the planner and executor, and the other access methods.
