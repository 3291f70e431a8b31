# TablesOS storage engine: a verified model

A Dafny model of the crash-safe relational engine in the `tablestore` crate, together with three smaller algorithms the
same system relies on: DEFLATE expansion and PNG unfiltering in `pngdec`, the xHCI transfer ring, and the browser's row
cache. `dafny verify dfyconfig.toml` checks all of it.

**The engine, from the medium up.**

- `Block` is the device: sectors, a flush barrier, and a power cut that keeps any subset of the unflushed sector writes.
- `JournalFormat`, `JournalProtocol`, `Journal` and `JournalRuns` are the write-ahead journal. The protocol is a sequence
  of write batches, each ended by a flush. `CommitAtomic` and `RecoverAtomic` speak of every point of it and every subset
  of lost writes; `RunsAreDurable` of any interleaving of commits, cuts and mounts. The checksum is an arbitrary function
  throughout: nothing rests on it detecting anything.
- `Pager` adds the superblock, the free list kept in the freed pages, the staged transaction and the clean-page cache.
- `ChainModel`, `Chains` and `ChainStore` are blob and index chains. A ghost layout gives every page below the high-water
  mark exactly one owner: the free list, or one chain. Every method keeps that, so no page leaks, is shared or is freed
  twice.
- `Bignum`, `TextParts`, `Value`, `Codec` and `Schema` are the values, their texts, their orders and the encodings.
- `Relational` states what every operation does to a database and when it refuses. `RowIntegrity`, `SchemaEdits` and
  `Engine` prove that relational integrity holds in every state of every run, and that schema edits keep data by column
  name.
- `Effects` says of every operation's result which rows and schemas there are, and exactly when it is refused; `Exact`
  that row operations are refused exactly when integrity demands it.
- `Meaning` says what a text denotes as a value of each type, how values are shown, and what their order is.
- `StoreModel`, `StoreSteps`, `Store`, `StoreSchema` and `StoreQueries` tie the two together: the page-level store refines
  the relational one. Each mutating method ensures `Tried`, which leaves three endings: the operation took effect as
  `Relational` says, is durable, and the generation grew by one; it was refused, or ran out of room, and memory, medium
  and generation are as before; or power went, and every medium the device may then be left with, whichever unflushed
  writes it kept (`MayLeave`), holds the old database or the new one. `Open` then finds exactly that database, and
  `StoreVolume` proves that a medium holds at most one. `StoreLife.LifeIsRun` chains these over any life of a store:
  operations, cuts, and mounts that complete or are themselves cut off. `StoreFits` shows that what a store holds always
  fits its encodings, so that only an operation that brings in new text owes that fact.

**The rest.** `BitStream`, `Huffman` and `Inflate` are the decoder; `DeflateTables` and `Deflated` say what a compressor
may write, without the decoder's tables, and prove that inflating it returns the LZ77 expansion; `InflateSound` proves
that nothing else inflates. `Unfilter` reverses the scanline filters. `XhciRing` lets a producer and a
consumer interleave at single-field accesses. `RowCache` is the filtered, sorted list and its cache.

**How to read it.** A loop of the source is a method, proved against the function that specifies it; what the source
promises is then proved about the function. Where a method takes ghost parameters, they name the state its contract
speaks of and the code does not look at them. `hide` statements keep definitions a proof does not need out of the
solver's sight.

**Assumptions.**

- A device error ends the session, as a power cut does: after a commit that fails once its writes have begun, nothing is
  promised until the volume is mounted again. `OutOfSpace` writes nothing and the session goes on.
- Reads of sectors that exist succeed, and so do writes while there is power: only a barrier can fail.
- A `RowId` given to an operation names a page of that table's index (`Belongs`); the code does not check it.
- Rows, names and columns that are newly brought in have lengths that fit 64-bit counters (`StorableRow`, `EncodableDB`),
  and the generation does not reach its maximum.
- Text is its UTF-8 bytes. Error values carry names but not the wording of messages.

**Where code and documentation differ.** The header of `tablestore/src/store.rs` calls a table's rows an unordered
multiset; the code keeps them in insertion order, and that is what `Scan` and `StoreModel.EntriesAppended` state.

## Model

| member | source | states |
|---|---|---|
| Block.BlockDevice.FromSnapshot | tablestore/src/block.rs:58-67 | a device over an image starts powered, with nothing unflushed |
| Block.BlockDevice.ReadSector | tablestore/src/block.rs:75-82 | the sector as written last, or an error beyond the end |
| Block.BlockDevice.WriteSector | tablestore/src/block.rs:84-98 | the write is pending until a flush; after the power-cut count it is lost without an error |
| Block.BlockDevice.Flush | tablestore/src/block.rs:23-26 | a flush makes every pending write durable, or fails and makes none |
| Block.SurvivesIffBetween | tablestore/src/block.rs:23-26 | a power cut keeping any subset of the unflushed writes is the same as each sector holding its flushed content or that of some unflushed write |
| Block.BlockDevice.LeavesData | tablestore/src/block.rs:23-26 | what the device shows is one of the media a cut can leave, and the only one when everything is flushed |
| JournalFormat.RenderParse | tablestore/src/journal.rs:93-162 | a rendered control block reads back as its state, number and entries, for any checksum function |
| JournalFormat.RenderDiffersInHeader | tablestore/src/journal.rs:93-118 | two renderings that differ in state or transaction number differ in the header sector alone |
| JournalFormat.CtrlAccepts | tablestore/src/journal.rs:126-162 | a block is read exactly when it has the magic number, the checksum of its transaction number, count and entries, and no more entries than fit |
| JournalFormat.RenderCtrl | tablestore/src/journal.rs:96-118 | the four control pages are rendered as specified |
| JournalFormat.CtrlOfFrom | tablestore/src/journal.rs:126-133 | the control pages read back as the bytes put there |
| JournalProtocol.CommitAtomic | tablestore/src/journal.rs:202-234 | crash atomicity: from any disk without a transaction in flight, for any write-set of at most JCAP distinct home pages, any barrier reached and any subset of the unflushed writes, the disk recovers to all old or all new; old before the first barrier, new from the second on, and after the fourth the journal is quiet and the pages are installed |
| JournalProtocol.RecoverAtomic | tablestore/src/journal.rs:179-200 | a power cut anywhere in a recovery leaves a disk that recovers to the same home pages, and a completed one leaves the journal quiet |
| JournalProtocol.AfterStaging | tablestore/src/journal.rs:213-218 | after the first batch the images and entries are staged, the state is EMPTY and home is untouched |
| JournalProtocol.CommittedRedo | tablestore/src/journal.rs:220-222 | a COMMITTED header over staged images is exactly a pending redo of them |
| JournalProtocol.CrashWhileStaging | tablestore/src/journal.rs:213-218 | a cut while staging recovers to the old pages |
| JournalProtocol.CrashAtCommitPoint | tablestore/src/journal.rs:220-222 | a cut at the commit point leaves one of the two header sectors, hence old or new |
| JournalProtocol.CrashWhileInstalling | tablestore/src/journal.rs:224-228 | a cut while installing recovers to the new pages |
| JournalProtocol.CrashWhileReleasing | tablestore/src/journal.rs:230-232 | a cut while the journal is released recovers to the new pages |
| JournalProtocol.RedoOverTorn | tablestore/src/journal.rs:190-194 | redoing over a partly installed write-set installs it: the redo is idempotent |
| JournalProtocol.CrashWhileRedoing | tablestore/src/journal.rs:190-194 | a cut in the redo leaves the redo pending |
| JournalProtocol.CrashWhileClearing | tablestore/src/journal.rs:195-197 | a cut while recovery rewrites the control pages, which changes the checksum, leaves old and new headers that both show the same home |
| JournalProtocol.CutRecover | tablestore/src/journal.rs:179-200 | a recovery cut off anywhere leaves a sound disk with the same logical home pages |
| JournalRuns.StepEffect | tablestore/src/journal.rs:179-234 | every event of a volume's life changes the logical home pages by one whole write-set or not at all |
| JournalRuns.RunsAreDurable | tablestore/src/journal.rs:179-234 | over any run of commits, cut commits, power-offs, cut recoveries and mounts, the home pages are the acknowledged write-sets in order plus some of the interrupted ones, each whole |
| JournalRuns.MountAfterCuts | tablestore/src/journal.rs:179-200 | a mount after any number of interrupted mounts shows what the first would have shown |
| Journal.ReadPage | tablestore/src/journal.rs:43-53 | the page as the device holds it |
| Journal.WritePage | tablestore/src/journal.rs:55-64 | eight sector writes, in order |
| Journal.WriteCtrl | tablestore/src/journal.rs:164-170 | the control pages in order |
| Journal.ReadCtrl | tablestore/src/journal.rs:126-162 | the parsed control block, or none |
| Journal.Init | tablestore/src/journal.rs:172-177 | an empty journal over whatever was there, durable |
| Journal.Commit | tablestore/src/journal.rs:202-234 | on every return, any subset of the writes no barrier has covered may be lost and what is left is a crash image of the four phases; success means powered, installed and quiet; a write-set over JCAP is refused and nothing is written |
| Journal.Recover | tablestore/src/journal.rs:179-200 | redoes a pending transaction and says whether there was one; on every return, whatever a power cut leaves is a crash image of the recovery |
| Pager.SbRoundTrip | tablestore/src/pager.rs:34-71 | a superblock decodes to what was encoded, for any checksum function |
| Pager.SbAccepts | tablestore/src/pager.rs:53-70 | a page is taken for a superblock exactly when it bears the magic number, the fields and their checksum |
| Pager.BatchShows | tablestore/src/pager.rs:189-200 | installing superblock and staged pages shows exactly the staged pages over the old ones |
| Pager.CutShows | tablestore/src/pager.rs:189-215 | an interrupted commit recovers to the old superblock and pages or to the new ones, never a mixture |
| Pager.Pager.Format | tablestore/src/pager.rs:89-111 | a fresh volume with the stated superblock, or OutOfSpace with the medium untouched |
| Pager.Pager.Mount | tablestore/src/pager.rs:113-126 | mounting shows the recovered superblock and pages; a bad superblock is refused; whatever a cut leaves is sound and recovers to the same home pages |
| Pager.Pager.ReadPage | tablestore/src/pager.rs:130-151 | cache transparency: a read returns the staged image, else what the medium holds, whatever the cache does; an out-of-range page is refused |
| Pager.Pager.WritePage | tablestore/src/pager.rs:153-156 | that page reads as the image and no other changes |
| Pager.Pager.AllocPage | tablestore/src/pager.rs:158-178 | the head of the free list, else the first never-used page, zeroed; OutOfSpace exactly when there is neither |
| Pager.Pager.FreePage | tablestore/src/pager.rs:179-185 | the page heads the free list and links to the old head |
| Pager.Pager.SortedKeys | tablestore/src/pager.rs:192-199 | the staged page numbers, ascending, each once |
| Pager.Pager.Commit | tablestore/src/pager.rs:187-215 | all staged pages and the superblock land and the generation grows by one; or OutOfSpace exactly for a write-set over JCAP, nothing changed; or power is gone and the medium, whichever unflushed writes it kept, recovers to the old volume or the new one; nothing staged writes nothing |
| Pager.Pager.FoldIntoCache | tablestore/src/pager.rs:202-211 | the committed images become the content the cache mirrors |
| Pager.Pager.Rollback | tablestore/src/pager.rs:217-225 | the allocator and every page read as the last commit left them, the generation too |
| ChainModel.TakeFreeOwned | tablestore/src/pager.rs:161-172 | taking the head of the free list keeps every page owned exactly once and every chain intact |
| ChainModel.TakeNewOwned | tablestore/src/pager.rs:169-172 | so does taking a never-used page |
| ChainModel.GiveOwned | tablestore/src/pager.rs:180-185 | so does freeing a page |
| ChainModel.WriteFrame | tablestore/src/store.rs:105-127 | writing a page leaves the chains of every other owner as they were |
| ChainModel.AdoptBlob | tablestore/src/store.rs:105-127 | pages in hand, linked and filled, become a blob chain of their own under a head nobody had |
| ChainModel.ReleaseOwned | tablestore/src/store.rs:129-138 | a chain taken apart hands over all its pages and touches no other chain |
| Chains.LaidHolds | tablestore/src/store.rs:105-127 | the chunks written to a list of pages form a chain that holds exactly the bytes |
| Chains.PushImageReads | tablestore/src/store.rs:226-234 | appending a slot to an index page adds that slot and keeps the others and the link |
| Chains.SetImageReads | tablestore/src/store.rs:250-259 | overwriting a slot changes that slot alone |
| Chains.FirstImageReads | tablestore/src/store.rs:237-241 | a fresh index page has the one slot and no successor |
| Chains.RewriteIndexPage | tablestore/src/store.rs:250-259 | rewriting one page of an index keeps the ownership of every page and every other chain |
| Chains.ExtendOwned | tablestore/src/store.rs:236-245 | linking a fresh page behind a full one extends the index and keeps every other chain |
| ChainStore.ChainHeap.AllocInHand | tablestore/src/pager.rs:158-178 | one page changes from free or never used to in hand; OutOfSpace only when no page is left |
| ChainStore.ChainHeap.ReadChain | tablestore/src/store.rs:89-103 | the bytes of the chain; no corrupt length is met |
| ChainStore.ChainHeap.WriteChain | tablestore/src/store.rs:105-127 | a new chain with exactly these bytes, every other blob and index unchanged, no page in hand left over |
| ChainStore.ChainHeap.FreeChain | tablestore/src/store.rs:129-138 | that chain goes and nothing else changes; every page of it is on the free list |
| ChainStore.ChainHeap.NewIndex | tablestore/src/store.rs:463-465 | a blob of no bytes is an index without rows |
| ChainStore.ChainHeap.IndexCollect | tablestore/src/store.rs:192-214 | every live slot with its handle, in order |
| ChainStore.ChainHeap.IndexAppend | tablestore/src/store.rs:216-248 | the row's slot comes last, on a further page when the last one is full |
| ChainStore.ChainHeap.IndexSet | tablestore/src/store.rs:250-259 | that slot changes; one the page does not have is no row |
| ChainStore.ChainHeap.RowHeadAt | tablestore/src/store.rs:261-272 | the chain behind a live slot; a missing slot or tombstone is no row |
| ChainStore.EmptyIndex | tablestore/src/store.rs:463-465 | the page of an empty blob reads as an index page without slots |
| Bignum.ParseUint | tablestore/src/bignum.rs:34-50 | only digit runs parse, and only to canonical numbers |
| Bignum.Normalize | tablestore/src/bignum.rs:68-73 | the result is canonical and denotes the same number |
| Bignum.UintRoundTrip | tablestore/src/bignum.rs:34-86 | every canonical number reads back from its text |
| Bignum.UintOrder | tablestore/src/bignum.rs:157-165 | cmp is the order of the denoted numbers and ties exactly on equal values |
| Bignum.ParseUintLoop | tablestore/src/bignum.rs:34-50 | the loop parses as specified |
| Bignum.NormalizeLoop | tablestore/src/bignum.rs:68-73 | the loop drops exactly the leading zeros |
| Bignum.RemU32 | tablestore/src/bignum.rs:86-97 | the remainder of the denoted number |
| Bignum.Carry | tablestore/src/bignum.rs:106-149 | a carry over trailing nines, or a borrow over trailing zeros, is worth one |
| Bignum.Succ | tablestore/src/bignum.rs:103-126 | canonical, and one more |
| Bignum.Pred | tablestore/src/bignum.rs:128-149 | canonical, and one less, saturating at zero |
| Bignum.FromParts | tablestore/src/bignum.rs:182-186 | a canonical signed number: zero is never negative |
| Bignum.ParseInt | tablestore/src/bignum.rs:200-210 | only signed digit runs parse, to canonical numbers |
| Bignum.IntRoundTrip | tablestore/src/bignum.rs:200-223 | every canonical signed number reads back from its text |
| Bignum.IntOrder | tablestore/src/bignum.rs:240-249 | cmp is the order of the denoted integers and ties exactly on equal values |
| Bignum.IntSucc | tablestore/src/bignum.rs:225-232 | one more, across the sign change |
| TextParts.TrimKeepsValue | tablestore/src/value.rs:30-40 | dropping trailing zeros keeps the fraction |
| TextParts.FracOrder | tablestore/src/value.rs:114-127 | cmp_frac is the order of the denoted fractions |
| TextParts.FracInjective | tablestore/src/value.rs:114-127 | canonical fractions that denote the same number are the same |
| TextParts.CompareFracLoop | tablestore/src/value.rs:114-127 | the loop compares as specified |
| TextParts.TrimFracLoop | tablestore/src/value.rs:30-40 | the loop drops exactly the trailing zeros |
| TextParts.ParseFixedLoop | tablestore/src/value.rs:320-329 | exactly `width` digits parse, to their value |
| TextParts.Push2RoundTrip | tablestore/src/value.rs:331-336 | two-digit fields read back |
| Value.MakeDecimal | tablestore/src/value.rs:30-40 | decimals are canonical: no trailing zeros, no negative zero |
| Value.DecimalRoundTrip | tablestore/src/value.rs:42-88 | every canonical decimal reads back from its text |
| Value.DecimalOrder | tablestore/src/value.rs:90-106 | cmp is the order of the denoted reals, and canonical decimals of one value are equal |
| Value.IsLeapLoop | tablestore/src/value.rs:137-140 | the Gregorian rule on unbounded years, from three remainders |
| Value.DateRoundTrip | tablestore/src/value.rs:157-199 | every valid date reads back, signed and padded years included |
| Value.TimeRoundTrip | tablestore/src/value.rs:222-271 | every valid time reads back, fraction included |
| Value.OffsetRoundTrip | tablestore/src/value.rs:287-318 | every offset reads back from its suffix |
| Value.DateTzRoundTrip | tablestore/src/value.rs:441-462 | a date's text and its offset suffix are told apart |
| Value.DateTimeRoundTrip | tablestore/src/value.rs:464-466 | a date-time is cut at its T |
| Value.DateTimeTzRoundTrip | tablestore/src/value.rs:441-466 | a zoned date-time reads back |
| Value.ParseValue | tablestore/src/value.rs:368-402 | only canonical values of the asked type come out; `Meaning.ParseMeans` says which |
| Value.ValueRoundTrip | tablestore/src/value.rs:351-433 | parse(type_of(v), display(v)) is v for every canonical value of all nine types |
| Value.DateOrder | tablestore/src/value.rs:201-207 | dates are totally ordered and tie only on equal ones |
| Value.TimeOrder | tablestore/src/value.rs:273-278 | times are totally ordered and tie only on equal ones |
| Value.ValueOrder | tablestore/src/value.rs:468-489 | cmp is a total order on canonical values that ties exactly on equal ones |
| Meaning.ParseMeans | tablestore/src/value.rs:368-402 | a text is read as a value exactly when it denotes it, and so refused exactly when it denotes none: signs, leading zeros, `.5` and `5.`, calendar dates, times with a fraction, `Z`, `+HH:MM`, a `T` or a space |
| Meaning.IntMeans | tablestore/src/bignum.rs:202-210 | an integer text is an optional sign and digits, and denotes their number |
| Meaning.DecimalMeans | tablestore/src/value.rs:42-72 | a decimal text is an optional sign and digits around an optional point, and denotes their number |
| Meaning.DateMeans | tablestore/src/value.rs:158-180 | a date text is an optional minus, a year, and a month and day that the calendar has |
| Meaning.MonthsAgree | tablestore/src/value.rs:137-155 | months have 31 and 30 days by turns from January and again from August; February has one more day exactly in the years that every fourth but not every hundredth and again every four-hundredth year counts |
| Meaning.TimeMeans | tablestore/src/value.rs:223-254 | a time text is two digits each of hours, minutes and seconds, and denotes 3600, 60 and 1 times them and the fraction of the digits behind the point |
| Meaning.OffsetMeans | tablestore/src/value.rs:287-305 | a zone is Z for none, or a sign, hours and minutes |
| Meaning.DateTimeMeans | tablestore/src/value.rs:464-466 | a date-time is a date and a time with a T or a space between |
| Meaning.DateTimeTzMeans | tablestore/src/value.rs:441-466 | a zoned date-time is a date-time and whatever suffix denotes a zone |
| Meaning.ShownPlain | tablestore/src/value.rs:404-433 | a value is shown by a text that denotes it, without needless signs or zeros, years of four digits or more, a T before the time and the zone in hours and minutes |
| Meaning.LessMeans | tablestore/src/value.rs:469-489 | cmp says Less exactly for the smaller number, the text that is first byte by byte, the earlier date or time; zoned values by what they show, then by the zone |
| Codec.UvarintRoundTrip | tablestore/src/codec.rs:15-46 | a varint reads back and the reader stops exactly behind it |
| Codec.UvarintMeans | tablestore/src/codec.rs:15-27 | the bytes are LEB128: seven bits each, low bits first, the top bit on all but the last, none spent on a zero |
| Codec.PutUvarintLoop | tablestore/src/codec.rs:15-28 | the loop writes the varint as specified |
| Codec.GetUvarintLoop | tablestore/src/codec.rs:30-46 | the loop reads as specified, overflow and end of input included |
| Codec.StrRoundTrip | tablestore/src/codec.rs:48-74 | a text reads back and the reader stops exactly behind it |
| Codec.ManyRoundTrip | tablestore/src/codec.rs:102-119 | a list of self-delimiting items reads back |
| Codec.CellRoundTrip | tablestore/src/codec.rs:76-100 | a cell, NULL or any value, reads back and the reader stops exactly behind it |
| Codec.RowRoundTrip | tablestore/src/codec.rs:102-119 | every row of canonical values decodes to itself |
| Codec.EncodeRowLoop | tablestore/src/codec.rs:102-109 | the loop encodes as specified |
| Codec.DecodeRowLoop | tablestore/src/codec.rs:111-119 | the loop decodes as specified, every error included |
| Schema.ColumnIndex | tablestore/src/schema.rs:58-60 | the first column of that name, none exactly when there is none |
| Schema.LabelColumnsExist | tablestore/src/schema.rs:78-101 | every label column exists, and a table with columns has a label |
| Schema.LabelColumnsMean | tablestore/src/schema.rs:78-101 | the label is the configured columns in their order, as far as they exist; else the UNIQUE ones in column order; else the first |
| Schema.TableRoundTrip | tablestore/src/schema.rs:120-222 | every schema decodes to itself, widths included |
| Schema.OldImage | tablestore/src/schema.rs:161-222 | an image cut after the foreign keys decodes with no label columns and no widths |
| Schema.WidthlessImage | tablestore/src/schema.rs:161-222 | an image cut after the label columns decodes with no widths |
| Relational.FindTable | tablestore/src/store.rs:180-184 | the first table of that name, none exactly when there is none |
| Relational.TargetFound | tablestore/src/store.rs:919-923 | with integrity the columns of every foreign key are found: the unwraps cannot fail |
| RowIntegrity.ValidateMeans | tablestore/src/store.rs:362-449 | a row is accepted exactly when it fits the schema, repeats no UNIQUE value and every reference finds its row, the pending cells standing in for the row updated |
| RowIntegrity.RestrictMeans | tablestore/src/store.rs:910-939 | a change is refused exactly when some other row still needs a value it takes away |
| RowIntegrity.InsertKeeps | tablestore/src/store.rs:883-895 | insert keeps relational integrity |
| RowIntegrity.UpdateKeeps | tablestore/src/store.rs:897-945 | update keeps relational integrity, self references included |
| RowIntegrity.DeleteKeeps | tablestore/src/store.rs:947-984 | delete keeps relational integrity |
| RowIntegrity.FollowFindsOne | tablestore/src/store.rs:989-1024 | a non-NULL reference of a live row matches exactly one row |
| SchemaEdits.FkTransfer | tablestore/src/store.rs:538-715 | a foreign key survives edits of both ends that keep its columns |
| SchemaEdits.AddColumnKeepsData | tablestore/src/store.rs:538-565 | on the database add_column returns, every old column has the values it had and the other tables are as they were |
| SchemaEdits.AddColumnKeeps | tablestore/src/store.rs:538-565 | add_column keeps relational integrity |
| SchemaEdits.DropColumnKeepsData | tablestore/src/store.rs:567-608 | on the database drop_column returns, every other column has the values it had |
| SchemaEdits.DropColumnKeeps | tablestore/src/store.rs:567-608 | drop_column keeps relational integrity |
| SchemaEdits.MoveColumnKeepsData | tablestore/src/store.rs:610-652 | on the database move_column returns, every column has the values it had, whatever the two places |
| SchemaEdits.MoveColumnKeeps | tablestore/src/store.rs:610-652 | move_column keeps relational integrity |
| SchemaEdits.RenameKeepsData | tablestore/src/store.rs:654-715 | in every table of the database rename_column returns, every column has the values it had, the renamed one under its new name |
| SchemaEdits.RenameKey | tablestore/src/store.rs:654-715 | every foreign key still joins the same two columns, whatever they are called now |
| SchemaEdits.RenameColumnKeeps | tablestore/src/store.rs:654-715 | rename_column keeps relational integrity |
| SchemaEdits.SetUniqueKeeps | tablestore/src/store.rs:717-761 | set_unique keeps relational integrity |
| SchemaEdits.SetDisplayWidthKeeps | tablestore/src/store.rs:863-879 | set_display_width keeps relational integrity |
| SchemaEdits.FkNameFree | tablestore/src/store.rs:799-805 | the search for a key name ends at one no other key has |
| SchemaEdits.AddFkKeeps | tablestore/src/store.rs:763-820 | add_fk keeps relational integrity and the key names distinct |
| SchemaEdits.DropNamedMeans | tablestore/src/store.rs:822-836 | exactly the keys of that name go |
| SchemaEdits.DropNamedShrinks | tablestore/src/store.rs:822-836 | drop_fk fails exactly when no key has the name |
| SchemaEdits.DropFkKeeps | tablestore/src/store.rs:822-836 | drop_fk keeps relational integrity |
| SchemaEdits.SetReferenceColumnsAccepts | tablestore/src/store.rs:838-861 | exactly distinct existing names are accepted |
| SchemaEdits.SetReferenceColumnsKeeps | tablestore/src/store.rs:838-861 | set_reference_columns keeps relational integrity |
| SchemaEdits.CreateTableKeeps | tablestore/src/store.rs:453-474 | create_table keeps relational integrity |
| SchemaEdits.DropTableKeeps | tablestore/src/store.rs:476-509 | drop_table keeps relational integrity |
| Effects.InsertMeans | tablestore/src/store.rs:883-895 | insert puts the row at the end of its table and changes nothing else, and is accepted exactly when the cells fit, repeat no UNIQUE value and refer to rows that exist |
| Effects.UpdateMeans | tablestore/src/store.rs:897-945 | update gives the row with the handle the new cells and changes no other row; accepted exactly when they are acceptable and no other row needs a value given up |
| Effects.DeleteMeans | tablestore/src/store.rs:947-984 | delete takes exactly the row with the handle away and leaves all others as they were, in their order; accepted exactly when no other row needs one of its values |
| Effects.ValidateRefuses | tablestore/src/store.rs:362-449 | a refused row is refused for the number of cells, else the first cell that does not fit, else the first UNIQUE column whose value is there, else the first reference that finds nothing, and the error names that column or key |
| Effects.RestrictNames | tablestore/src/store.rs:910-939 | a blocked change names the first key, by table and then by key, under which another row still needs the old value |
| Effects.UpdateRefuses | tablestore/src/store.rs:897-945 | a refused update: the new cells are refused, else there is no such row, else the first key that needs an old value is named |
| Effects.DeleteRefuses | tablestore/src/store.rs:947-984 | a refused delete of a row that exists names the first key that needs it |
| Effects.CreateTableMeans | tablestore/src/store.rs:453-474 | create_table adds an empty table at the end; accepted exactly for a new, non-empty name |
| Effects.DropTableMeans | tablestore/src/store.rs:476-509 | drop_table takes that table alone away; accepted exactly when no other table has a key into it |
| Effects.AddColumnMeans | tablestore/src/store.rs:538-565 | add_column puts the column last with a NULL in every row; accepted exactly for a new name, nullable unless there are no rows |
| Effects.DropColumnMeans | tablestore/src/store.rs:567-608 | drop_column takes the column, its cells and its place in the label away; accepted exactly when no key starts or ends in it |
| Effects.MoveColumnMeans | tablestore/src/store.rs:610-652 | move_column puts the column at the place asked for, the others and all cells following in order; accepted exactly for a place there is |
| Effects.RenameColumnMeans | tablestore/src/store.rs:654-715 | rename_column changes the name wherever it stands for the column and nothing else; accepted exactly for an old column and a new, non-empty name |
| Effects.SetUniqueMeans | tablestore/src/store.rs:717-761 | set_unique sets that flag alone; refused exactly when values repeat or a key needs the flag |
| Effects.SetDisplayWidthMeans | tablestore/src/store.rs:863-879 | set_display_width sets that width alone; refused exactly when there is no such column |
| Effects.SetReferenceColumnsMeans | tablestore/src/store.rs:842-862 | set_reference_columns makes the names the label and changes nothing else |
| Effects.AddFkMeans | tablestore/src/store.rs:763-820 | add_fk adds exactly one key, between those columns and under the first free name; accepted exactly when the target is UNIQUE and of the same type and every value is found in it |
| Effects.CandidateText | tablestore/src/store.rs:797-805 | key names are the column, `_fk` and a decimal counter from 2 |
| Effects.DropFkMeans | tablestore/src/store.rs:822-836 | drop_fk takes the key of that name alone away; accepted exactly when there is one |
| Effects.RefusalMeans | tablestore/src/store.rs:453-984 | NotFound means something named is missing, Duplicate that a new name is taken, and the other errors only come from the operations they belong to |
| Effects.NoTableRefused | tablestore/src/store.rs:180-184 | in a table that does not exist nothing is found |
| Exact.UpdateExact | tablestore/src/store.rs:897-945 | an update of a row that exists is refused exactly when the database it would make lacks integrity |
| Exact.DeleteExact | tablestore/src/store.rs:947-984 | a delete of a row that exists is refused exactly when the database it would make lacks integrity |
| Exact.InsertExact | tablestore/src/store.rs:883-895 | an insert is refused exactly when the database it would make lacks integrity or a reference finds only the new row itself |
| Exact.OwnParentRefused | tablestore/src/store.rs:402-449 | a row that is its own parent is refused although the database with it would have integrity |
| Engine.OutcomeKeeps | tablestore/src/store.rs:453-984 | every operation that succeeds keeps relational integrity |
| Engine.ReachableIntact | tablestore/src/store.rs:1-5 | relational integrity holds in every state of every run of operations, refusals, stops for lack of room and power cuts from the empty store |
| Engine.ReachableFollows | tablestore/src/store.rs:989-1024 | in every state of every run, following a foreign key from a live row finds exactly one row |
| StoreModel.CatRoundTrip | tablestore/src/store.rs:142-178 | the catalog reads back as it was stored |
| StoreModel.EntriesAppended | tablestore/src/store.rs:216-248 | appending a slot appends exactly one live row, so a scan is in insertion order |
| StoreModel.EntriesSet | tablestore/src/store.rs:250-259 | overwriting a live slot changes exactly its row; a tombstone takes it out; every other handle keeps its row |
| StoreModel.NoEntry | tablestore/src/store.rs:261-272 | a slot that is missing or a tombstone is no live row |
| StoreModel.AppendedIsNew | tablestore/src/store.rs:216-248 | the handle of a new row is no live row's |
| StoreModel.ReplaceTable | tablestore/src/store.rs:142-178 | replacing one table's chains replaces that table and no other, and keeps every chain used once |
| StoreSteps.AddRow | tablestore/src/store.rs:883-895 | a row's chain and slot add the row and nothing else |
| StoreSteps.SetRow | tablestore/src/store.rs:940-942 | another chain behind a slot replaces that row and nothing else, even when it reuses the old chain's pages |
| StoreSteps.DropRow | tablestore/src/store.rs:978-981 | a tombstone and a freed chain take that row out and nothing else |
| StoreSteps.SetSchema | tablestore/src/store.rs:531-534 | another schema chain replaces that schema and nothing else |
| StoreSteps.AddTable | tablestore/src/store.rs:462-472 | a schema chain and an empty index make a table without rows |
| StoreSteps.RemoveTable | tablestore/src/store.rs:493-507 | a table goes with all its chains and no other's |
| StoreSteps.RowsCounted | tablestore/src/store.rs:890-892 | there are fewer rows than page numbers, so the row counter never overflows |
| StoreSteps.CatFits | tablestore/src/store.rs:162-178 | the catalog of any store can be written |
| Store.Store.Format | tablestore/src/store.rs:81-86 | a fresh store with no tables |
| Store.Store.Open | tablestore/src/store.rs:72-78 | a medium that holds a database opens to exactly that database; a medium without a superblock is refused; every medium that a cut in the open can leave is sound and holds what the old one held |
| Store.Store.Abort | tablestore/src/store.rs:286-302 | after a rollback the allocator, the layout and every page read as before the transaction |
| Store.Store.Finish | tablestore/src/store.rs:286-302 | a transaction ends durable; or over JCAP with memory and medium as before; or cut off, and every medium the cut can leave holds the old or the new database |
| Store.Store.LoadCatalog | tablestore/src/store.rs:142-160 | the stored catalog |
| Store.Store.StoreCatalog | tablestore/src/store.rs:162-178 | the new catalog is stored and the old chain freed |
| Store.Store.SchemaOf | tablestore/src/store.rs:186-188 | the table's schema |
| Store.Store.RowsOf | tablestore/src/store.rs:351-357 | the table's rows in index order |
| Store.Store.ValidateRow | tablestore/src/store.rs:362-449 | validation over the pages decides as it does on the database, in the same order of errors |
| Store.Store.RowAt | tablestore/src/store.rs:261-280 | the row a handle names, fitted to the schema; NotFound exactly when no live row has it |
| Store.Store.RestrictLoop | tablestore/src/store.rs:910-939 | the first foreign key that blocks the change, as on the database |
| Store.Store.InsertRow | tablestore/src/store.rs:883-895 | insert appends one row under a handle no row of the table has, or is refused as specified with nothing changed, or is cut off |
| Store.Store.UpdateRow | tablestore/src/store.rs:897-945 | update changes that row alone, or is refused with nothing changed, or is cut off |
| Store.Store.DeleteRow | tablestore/src/store.rs:947-984 | delete removes that row alone, or is refused with nothing changed, or is cut off |
| Store.Store.NewTable | tablestore/src/store.rs:453-474 | create_table as specified, as one transaction |
| Store.Store.RemoveTableNamed | tablestore/src/store.rs:476-509 | drop_table as specified, as one transaction; every page of the table is freed |
| Store.Store.RewriteRows | tablestore/src/store.rs:521-530 | each row is rewritten in place while chains are freed and reused, no page lost or shared |
| Store.Store.PutSchema | tablestore/src/store.rs:512-536 | schema and rows change together in one transaction |
| StoreSchema.AddNewColumn | tablestore/src/store.rs:538-565 | add_column as specified, as one transaction |
| StoreSchema.DropColumnNamed | tablestore/src/store.rs:567-608 | drop_column as specified, as one transaction |
| StoreSchema.MoveColumnTo | tablestore/src/store.rs:610-652 | move_column as specified; asking for the column's own place does nothing |
| StoreSchema.Repeats | tablestore/src/store.rs:740-751 | duplicates are found exactly when there are some |
| StoreSchema.SetUniqueFlag | tablestore/src/store.rs:717-761 | set_unique as specified, as one transaction |
| StoreSchema.SetWidth | tablestore/src/store.rs:863-879 | set_display_width as specified, as one transaction |
| StoreSchema.SetLabel | tablestore/src/store.rs:838-861 | set_reference_columns as specified, as one transaction |
| StoreSchema.FreeFkName | tablestore/src/store.rs:799-805 | the loop ends, at a name no other key has |
| StoreSchema.AddForeignKey | tablestore/src/store.rs:763-820 | add_fk as specified, as one transaction |
| StoreSchema.DropFkNamed | tablestore/src/store.rs:822-836 | drop_fk as specified, as one transaction |
| StoreSchema.RenameColumnTo | tablestore/src/store.rs:654-715 | rename_column as specified over all schemas, as one transaction; the column's own name does nothing |
| StoreQueries.ListTables | tablestore/src/store.rs:306-318 | names, column counts, and row counts equal to the numbers of live rows |
| StoreQueries.GetTable | tablestore/src/store.rs:320-324 | the table's schema |
| StoreQueries.Scan | tablestore/src/store.rs:327-339 | every live row with its handle, in insertion order |
| StoreQueries.GetRow | tablestore/src/store.rs:341-347 | the row of a handle |
| StoreQueries.FollowFk | tablestore/src/store.rs:989-1024 | follow_fk returns the matching rows, and fails only for an unknown table, key or row |
| StoreQueries.FollowedOne | tablestore/src/store.rs:989-1024 | a reference leads to exactly one row, NULL to none |
| StoreQueries.OneMatch | tablestore/src/store.rs:1013-1021 | a UNIQUE value is matched by one row when present and by none otherwise |
| StoreVolume.SameContents | tablestore/src/store.rs:89-103 | the pages alone determine what each chain holds |
| StoreVolume.ReturnIsStep | tablestore/src/store.rs:286-302 | every operation that returns without a device error is a step of the engine, so integrity carries over to the page-level store |
| StoreVolume.CutIsStep | tablestore/src/store.rs:286-302 | after a device error every medium the cut can leave holds exactly one database, the old one or the operation's, which the next mount opens |
| StoreVolume.OneDatabase | tablestore/src/store.rs:72-78 | no medium holds two databases, so a mount after a crash finds exactly one of the two |
| StoreLife.ValidHolds | tablestore/src/store.rs:72-78 | the medium under an open store holds the store's database, and a cut between operations loses nothing |
| StoreLife.TriedEnds | tablestore/src/store.rs:286-302 | every ending an operation's contract allows, with any subset of the unflushed writes lost, leaves a medium with the operation's database, with one of the two, or untouched |
| StoreLife.OperationHappens | tablestore/src/store.rs:286-302 | what an operation's contract allows, with any medium the device may be left with, is a happening of a life |
| StoreLife.PowerOffHappens | tablestore/src/store.rs:72-78 | so is power going between operations |
| StoreLife.OpeningHappens | tablestore/src/store.rs:72-78 | so is a mount, completed or cut off, with any medium it may leave |
| StoreLife.OperationStep | tablestore/src/store.rs:286-302 | an operation on a medium that holds exactly one database leaves one that holds exactly one, an engine step later |
| StoreLife.LifeIsRun | tablestore/src/store.rs:72-103 | over any interleaving of operations, acknowledged, refused or cut off, power cuts, and mounts, completed or cut off any number of times, every medium holds exactly one database; these form an engine run from the empty store in which whatever was acknowledged has taken effect and whatever was refused has not |
| StoreFits.StoredFits | tablestore/src/store.rs:89-103 | whatever a store holds fits the encodings, since it was decoded from them |
| StoreFits.DropColumnFits | tablestore/src/store.rs:567-608 | dropping a column stays within them |
| StoreFits.MoveColumnFits | tablestore/src/store.rs:610-652 | so does moving one |
| StoreFits.LabelFits | tablestore/src/store.rs:838-861 | so does choosing distinct label columns: they are no more than the columns |
| StoreFits.RenameFits | tablestore/src/store.rs:654-715 | so does a rename to a name that fits |
| BitStream.BitReader.NextBit | pngdec/src/lib.rs:67-80 | the next bit of the stream, or the end |
| BitStream.BitReader.Bits | pngdec/src/lib.rs:82-89 | the number of the next bits, low bit first |
| BitStream.BitReader.Align | pngdec/src/lib.rs:91-94 | the next byte boundary |
| BitStream.LsbRoundTrip | pngdec/src/lib.rs:82-89 | numbers written low bit first read back |
| BitStream.ByteRead | pngdec/src/lib.rs:68-89 | eight bits from a byte boundary are the byte, its lowest bit first |
| Huffman.CodeFits | pngdec/src/lib.rs:128-146 | under the Kraft inequality every canonical code fits its length |
| Huffman.CodesFollow | pngdec/src/lib.rs:106-126 | codes of one length go up by one from symbol to symbol |
| Huffman.ShorterBelow | pngdec/src/lib.rs:128-146 | a shorter code, filled up with ones, is below every longer one |
| Huffman.PrefixFree | pngdec/src/lib.rs:128-146 | no code is the front of another |
| Huffman.DecodesCanonical | pngdec/src/lib.rs:128-146 | each symbol is decoded from its canonical code, which is consumed exactly |
| Huffman.DecodedStood | pngdec/src/lib.rs:128-146 | a symbol comes out only where its canonical code stands, whatever the lengths |
| Huffman.PlacesDiffer | pngdec/src/lib.rs:117-124 | the counting sort puts no two symbols in one place |
| Huffman.Build | pngdec/src/lib.rs:106-126 | the table holds the symbols by length, then by number |
| Huffman.Decode | pngdec/src/lib.rs:128-146 | the decoder agrees with the codes, and its symbol index is in range even for over-subscribed lengths |
| Inflate.CopyRepeats | pngdec/src/lib.rs:270-274 | a copy repeats the last `distance` bytes, overlapping or not |
| Inflate.CopyLoop | pngdec/src/lib.rs:270-274 | the copy loop copies byte by byte |
| DeflateTables.LengthTable | pngdec/src/lib.rs:148-154 | the first length and the extra bits of every symbol, by the arithmetic of section 3.2.5 of RFC 1951, each range starting where the one before ends, 258 last |
| DeflateTables.DistanceTable | pngdec/src/lib.rs:155-162 | the same for distances, ending at 32768 |
| DeflateTables.LengthSpelt | pngdec/src/lib.rs:249-256 | the table gives every length from 3 to 258 back from its symbol and extra bits |
| DeflateTables.DistanceSpelt | pngdec/src/lib.rs:257-266 | and every distance from 1 to 32768 |
| DeflateTables.OrderTable | pngdec/src/lib.rs:185-189 | the code length code's lengths come as 16, 17, 18, 0, then from 8 outwards by turns |
| Inflate.ReadToken | pngdec/src/lib.rs:249-269 | one symbol with its extra bits, or the error |
| Inflate.InflateBlock | pngdec/src/lib.rs:243-277 | tokens are expanded up to the end-of-block code |
| Inflate.ReadLengths | pngdec/src/lib.rs:191-237 | the run-length coded lengths, exactly as many as announced |
| Inflate.ReadDynamic | pngdec/src/lib.rs:181-241 | the tables of a dynamic block |
| Inflate.InflateData | pngdec/src/lib.rs:279-311 | inflating agrees with the stream's expansion and terminates on any input, every block consuming bits |
| Deflated.PieceRead | pngdec/src/lib.rs:249-269 | a literal, or a length from 3 to 258 and a distance from 1 to 32768, is read back from its codes and extra bits |
| Deflated.BlockRead | pngdec/src/lib.rs:243-277 | the pieces of a block expand to their LZ77 expansion and the reader stops behind the block |
| Deflated.ItemsRead | pngdec/src/lib.rs:191-237 | code lengths are read back from any sequence of items that spells them |
| Deflated.DynamicRead | pngdec/src/lib.rs:181-241 | a dynamic header is read back |
| Deflated.FixedLitUsable | pngdec/src/lib.rs:164-175 | the fixed literal code fills the code space exactly |
| Deflated.FixedDistUsable | pngdec/src/lib.rs:177-179 | so does the fixed distance code |
| Deflated.FixedCodes | pngdec/src/lib.rs:164-175 | the fixed codes are those section 3.2.6 of RFC 1951 lists: 48 to 191, 400 to 511, 0 to 23 and 192 to 199, of 8, 9, 7 and 8 bits |
| Deflated.FixedDistances | pngdec/src/lib.rs:177-179 | the fixed distance codes are the symbols in five bits |
| Deflated.InflateCorrect | pngdec/src/lib.rs:279-311 | for every sequence of stored, fixed and dynamic blocks of literals and of matches given as lengths and distances, laid out as in section 3.2 of RFC 1951 with codes that are not over-subscribed, inflating returns exactly the LZ77 expansion |
| InflateSound.InflateStood | pngdec/src/lib.rs:279-311 | and nothing else inflates: whatever is accepted is blocks laid out so, one behind the other up to the final one, and the result is their expansion |
| InflateSound.TokenStood | pngdec/src/lib.rs:249-269 | whatever token is read, its codes and extra bits stand there |
| InflateSound.DynamicStood | pngdec/src/lib.rs:181-241 | whatever header is read, the code lengths stand there as announced |
| Unfilter.PaethNearest | pngdec/src/lib.rs:320-331 | the nearest of the three neighbours, ties in the order left, above, above left |
| Unfilter.Places | pngdec/src/lib.rs:408-433 | a row is its filter type and then its bytes; the image is the bytes alone |
| Unfilter.UnfilterRows | pngdec/src/lib.rs:408-433 | the loop refuses an unknown filter and otherwise yields the image that filters to the data, each byte being its filtered byte plus nothing, the left, the upper, half the sum of both rounded down, or the nearest neighbour |
| Unfilter.SameImageTo | pngdec/src/lib.rs:413-432 | two images that filter to the same data agree byte by byte |
| Unfilter.UnfilterInverse | pngdec/src/lib.rs:408-433 | the result is the original image, whatever filter each row used |
| Unfilter.RoundTrip | pngdec/src/lib.rs:408-433 | for any image and any choice of the five filters per row, unfiltering the filtered scanlines gives the image |
| XhciRing.TransferRing.constructor | kernel/src/usb/xhci.rs:618-634 | zeroed memory, the Link TRB in the last slot, cycle state 1 |
| XhciRing.TransferRing.Post | kernel/src/usb/xhci.rs:1422-1435 | the stores of one post in program order, the control word with the cycle bit last, then the Link TRB on a wrap; the indices move on |
| XhciRing.TransferRing.PostNormal | kernel/src/usb/xhci.rs:2499-2533 | a Normal TRB posted so |
| XhciRing.NormalFields | kernel/src/usb/xhci.rs:2509-2520 | the buffer, the length, type 1, interrupt on short packet and on completion, and nothing else set |
| XhciRing.PutOk | kernel/src/usb/xhci.rs:2510-2530 | storing a field of the post in progress disturbs no unconsumed TRB |
| XhciRing.ConsumeOk | kernel/src/usb/xhci.rs:1422-1435 | a consumer's step keeps the ring's invariant |
| XhciRing.OwnedIsPosted | kernel/src/usb/xhci.rs:2514-2521 | a TRB whose cycle bit matches is the next one posted, whole |
| XhciRing.FirstInFirstOut | kernel/src/usb/xhci.rs:1665-1677 | with any bound up to 255 on the TRBs outstanding and any interleaving of single-field accesses, the consumer has received a prefix of what was posted, in order, through any number of wraps |
| XhciRing.NotStuck | kernel/src/usb/xhci.rs:1665-1677 | with at most 254 outstanding, and whatever the producer is doing, the consumer gets the next complete TRB within four of its own steps |
| XhciRing.NothingStale | kernel/src/usb/xhci.rs:1665-1677 | with no complete TRB outstanding it takes none, stale or half-written |
| XhciRing.OneMoreStalls | kernel/src/usb/xhci.rs:1665-1677 | 254 is tight: a run with bound 255, exhibited from the first store on, ends with 255 TRBs outstanding in a state where no step of producer or consumer changes anything |
| RowCache.CellOrder | kernel/src/ui.rs:2326-2339 | the list's comparison is a total preorder with NULLs last in which only equal cells tie |
| RowCache.SortIsStable | kernel/src/ui.rs:2322-2340 | the sorted list is ordered and keeps the rows of each value in their old order |
| RowCache.ListedIsSorted | kernel/src/ui.rs:2312-2342 | the list of any store is its filter's rows, ordered and stable |
| RowCache.ListedAscends | kernel/src/ui.rs:2322-2340 | NULLs come last in either direction, and the values ascend, or descend, by the order of values |
| RowCache.ListedFilters | kernel/src/ui.rs:2312-2321 | the list is the table's rows that have the filter's value, each once and in their order |
| RowCache.CacheKept | tablestore/src/store.rs:1071-1076 | no operation makes the cached list lie: one that took effect outdates it, any other changed nothing |
| RowCache.Browser.Rows | kernel/src/ui.rs:2312-2342 | a fresh list |
| RowCache.Browser.CachedRows | kernel/src/ui.rs:2285-2310 | the cached list is always what a fresh look at the store would list |
| RowCache.Browser.Insert | kernel/src/ui.rs:2256-2259 | an insert from the editor has the endings of the store's, and the cached list stays truthful in each that leaves the store open |
| RowCache.Browser.Update | kernel/src/ui.rs:2256-2259 | so for an update |
| RowCache.Browser.Delete | kernel/src/ui.rs:1793-1796 | so for a delete |

## Left out

- UTF-8 validation and case folding: text is a sequence of bytes with equality and byte order, so `get_str` cannot fail on
  its content.
- `crc32` itself: any function from bytes to 32 bits; its detection strength is not used.
- Heap allocation and the cost of `CACHE_MAX`: the cache is cleared when full, as in the code, but memory is not counted.
- Crashes during `format`, and continued use of a store after a device error in a commit: the code promises nothing there.
- Row handles of another table: outside what the code guarantees.
- `referencing_rows`, `reference_label` and `sync`: the same scans and look-ups as `follow_fk`, `Schema.LabelColumnsExist`
  and `Block.BlockDevice.Flush`.
- Store.Store.InsertRow: on `OutOfSpace` the contract says that nothing changed, not how many pages were missing;
  `Pager.Pager.AllocPage` and `Pager.Pager.Commit` say exactly when they return it.
- Store.Store.UpdateRow: `OutOfSpace` as for `InsertRow`.
- Store.Store.DeleteRow: `OutOfSpace` as for `InsertRow`.
- Store.Store.NewTable: `OutOfSpace` as for `InsertRow`.
- Store.Store.RemoveTableNamed: `OutOfSpace` as for `InsertRow`.
- Store.Store.PutSchema: `OutOfSpace` as for `InsertRow`.
- Store.Store.RewriteRows: `OutOfSpace` as for `InsertRow`.
- StoreSchema.AddNewColumn: `OutOfSpace` as for `InsertRow`.
- StoreSchema.DropColumnNamed: `OutOfSpace` as for `InsertRow`.
- StoreSchema.MoveColumnTo: `OutOfSpace` as for `InsertRow`.
- StoreSchema.SetUniqueFlag: `OutOfSpace` as for `InsertRow`.
- StoreSchema.SetWidth: `OutOfSpace` as for `InsertRow`.
- StoreSchema.SetLabel: `OutOfSpace` as for `InsertRow`.
- StoreSchema.AddForeignKey: `OutOfSpace` as for `InsertRow`.
- StoreSchema.DropFkNamed: `OutOfSpace` as for `InsertRow`.
- StoreSchema.RenameColumnTo: `OutOfSpace` as for `InsertRow`.
- Journal.WritePage: does not model a write that fails while there is power (the code hands its error on), because the
  model's device fails at barriers only.
- Journal.WriteCtrl: likewise.
- Store.Store.Open: a medium that is neither a store nor without a superblock (one with a superblock over foreign pages)
  is mounted by the code too; nothing is said about what it then reads.
- `sort_by` of the standard library: modelled by an insertion sort with the ordering, stability and content the library
  promises.
- Schema images are encoded and decoded by functions rather than by loops over a cursor.
- Sequences stand for `Vec`s: in-place growth and aliasing of buffers are not captured, except in the device, the ring and
  the unfilter loop.
- PNG chunk parsing, palette expansion and the zlib header: well-formed headers are assumed, and chunk and Adler checksums
  are not checked by the code.
- The complement field of a stored block: read past, as in the code.
- What over-subscribed code lengths decode to: `InflateCorrect` leaves them out, though `InflateStood` still finds each
  symbol's canonical code where it was read.
- What damaged catalog, schema and row images decode to: encoded ones read back, and every layer above reads only those.
- Machine-integer overflow for absurd image dimensions: sizes are mathematical integers.
- The event ring and `set_tr_dequeue_raw`: the controller is the producer there, and its side is firmware.
- The rest of `xhci.rs`, the drivers, the boot code, the screens and the input handling: device plumbing and user
  interface.
