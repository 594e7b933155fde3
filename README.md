# Slotted-page heap storage and SQL executor helpers, in Dafny

This project models the record store of a small relational engine and proves
properties of it.

- **SlottedPage** (`slotted_page.dfy`, module `SlottedPages`): a class over a
  `BLOCK_SZ`-byte array.
  - A directory of 4-byte entries grows forward from byte 0. Entry 0 holds
    `num_records` and `end_free`. Entry `id` holds the size and offset of
    record `id`.
  - The class keeps the directory decoded, in the field `headers`, beside
    the byte array `block`. The directory takes its byte form only in the
    block image `Image()`, so the first 4*(num_records+1) bytes of `block`
    are not kept in step with it.
  - Record bytes grow backward from the end of the block.
  - The class invariant `Layout` says that:
    - entry 0 matches the fields;
    - the directory ends before the records;
    - every live record lies in `(end_free, BLOCK_SZ)`;
    - no two live records overlap.
  - `Records()` is the map from id to bytes that the page holds.
  - Every operation is proved against `Records()`: add, get, put, del, ids
    and slide. has_room states its capacity test over num_records and
    end_free; it is tied to `Records()` through `Add` and `AddLayout`.
  - The directory is encoded into the block image the way `put_header`
    writes it, and the encoding is proved to round-trip.
- **HeapFile** (`heap_file.dfy`, module `HeapFiles`): the file's blocks
  `1..last` are a map from block id to the stored block image. Its operations
  are `get_new`, `get`, `put`, `block_ids` and `get_last_block_id`.
- **HeapTable** (`heap_table.dfy`, module `HeapTables`):
  - `select` walks every block, then every live id. It is proved to return
    exactly the handles of the records the file holds, in block order and
    then id order.
  - `marshal` fills a block-sized buffer column by column. It is proved
    equal to a recursive encoding. An independent decoder reads that
    encoding back as the stored row.
- **SQLExec helpers** (`sql_exec.dfy`, module `SQLExec`):
  - `get_where_conjunction` is a function over the parse tree. It is proved
    equal to a reference reading in which the leftmost equality wins.
  - `column_definition`.
  - The eligibility check and value binding of `insert`, as a method with
    loops.
  - The schema-table guard of `drop_table`.
  - The `_indices` rows that `create_index` builds, as a method with a
    counter.

Shared values, the error kinds and the `Result`/`Outcome` wrappers that stand
for exceptions are in `common.dfy` (module `Values`).

Some of the code does not compile as written, or leaves out what it
evidently means to do. In those places the evident meaning is modelled:
- `put` uses `data->` on a reference (`heap_storage.cpp:51`, `56`);
- `put` misses a parenthesis (`heap_storage.cpp:54`);
- `ids` lacks its class qualifier, and assigns `new RecordIDs()` to a
  `RecordIDs` value (`heap_storage.cpp:85-86`);
- `get_new` misses a `;` (`heap_storage.cpp:201`);
- `HeapFile::get` returns a page by value (`heap_storage.cpp:220`);
- `block_ids` increments `i` instead of `block` (`heap_storage.cpp:233`);
- the `HeapTable` constructor (`heap_storage.cpp:257-259`) has an empty
  body and initializes neither the schema fields nor `file`. The model keeps
  the schema and gives the table a file named after it.

`has_room`'s code leaves out the new directory entry that its comment
(`heap_storage.cpp:114-116`) says to count (Findings, first row):
- add uses the comment's test (`RoomFor`);
- put, which adds no entry, uses the code's formula without the u16 wrap
  (`RoomToGrow`).

Where the code leaves something undone, the model follows the code:
- `select` ignores its `where` argument.
- `unmarshal` has an empty body, so the round trip is proved against an
  independent decoder, `DecodeFields`, instead.

## Model

| member | source | states |
|---|---|---|
| SlottedPages.SlottedPage.Fresh | heap_storage.cpp:6-10 | A new page has no records, `num_records` = 0 and `end_free` = BLOCK_SZ - 1, and it satisfies the page invariant. |
| SlottedPages.SlottedPage.Load | heap_storage.cpp:11-13 | A page read from a well-formed block has that block's bytes and decoded directory, and holds the records the block holds. |
| SlottedPages.SlottedPage.Image | heap_storage.cpp:105-112 | The written image is a well-formed block: decoding its directory gives the page's headers and entry 0 = (num_records, end_free), and it holds the same records. |
| SlottedPages.SlottedPage.HasRoom | heap_storage.cpp:114-120 | There is room for `size` exactly when the record and one more directory entry both fit before `end_free`, so an add cannot overlap the directory (corrected; see Findings). |
| SlottedPages.RoomForKeepsDirectoryClear | heap_storage.cpp:114-120 | When the corrected capacity test admits a record, the grown directory stays below the record's first byte. |
| SlottedPages.SlottedPage.Add | heap_storage.cpp:17-28 | Without room the result is DbBlockNoRoomError("not enough room for new record") and the page is unchanged. Otherwise the new id is old num_records + 1, `end_free` drops by the size, the record map gains exactly `id -> data`, and the invariant holds. The record's entry is (size, new end_free + 1), and its bytes fill `[new end_free + 1, old end_free + 1)`. |
| SlottedPages.AddLayout | heap_storage.cpp:20-25 | The directory after add (entry 0 advanced, new entry just below the old end_free) keeps the page invariant. |
| SlottedPages.AddRecords | heap_storage.cpp:20-26 | After add's directory update and memcpy, the records are the old records plus the new id mapped to `data`. |
| SlottedPages.SlottedPage.WriteBytes | heap_storage.cpp:26 | memcpy into the block: the block becomes the old bytes with `data` written at `loc`. |
| SlottedPages.WriteInside | heap_storage.cpp:26 | After a memcpy, the target range holds the copied data. |
| SlottedPages.WriteOutside | heap_storage.cpp:26 | A memcpy leaves every range outside its target unchanged. |
| SlottedPages.SlottedPage.Get | heap_storage.cpp:33-41 | Returns bytes exactly when the id is a live record, and then returns that record's bytes. A deleted entry (offset 0) gives nothing. |
| SlottedPages.SlottedPage.Ids | heap_storage.cpp:85-95 | Returns strictly increasing ids: exactly the ids 1..num_records whose entry is live. The loop is proved against `LiveIds`. |
| SlottedPages.LiveIdsSpec | heap_storage.cpp:85-95 | The listed ids are strictly increasing, and an id is listed iff its entry is live. |
| SlottedPages.SlottedPage.Slide | heap_storage.cpp:126-144 | `start == end` changes nothing. Otherwise the bytes `[end_free+1, start)` move by `end - start`, the records lying in them move their offsets by the same amount (sizes untouched), `end_free` moves by the shift, and the invariant holds. |
| SlottedPages.SlottedPage.MoveBytes | heap_storage.cpp:131 | The data move of slide, corrected to a memmove of the occupied region (see Findings). |
| SlottedPages.MoveEntries | heap_storage.cpp:135-141 | The header loop over the live ids yields the slid directory: moved records shifted, all other entries unchanged. |
| SlottedPages.SlideLayout | heap_storage.cpp:126-144 | A slide that cuts through no record keeps the page invariant, with end_free moved by the shift. |
| SlottedPages.SlideRecord | heap_storage.cpp:126-144 | Each record keeps its liveness, its size and its bytes across a slide, wherever the slide puts it. |
| SlottedPages.SlideRecords | heap_storage.cpp:126-144 | A slide leaves the record map unchanged. |
| SlottedPages.SlottedPage.Del | heap_storage.cpp:72-78 | The entry becomes (0, 0), num_records is unchanged (the id is never reissued), end_free grows by the record's size, the record map loses exactly that id, and the invariant holds. |
| SlottedPages.KillLayout | heap_storage.cpp:75 | Clearing an entry to (0, 0) keeps the page invariant. |
| SlottedPages.KillKeeps | heap_storage.cpp:75 | Clearing an entry removes exactly that record from the record map. |
| SlottedPages.DelSafe | heap_storage.cpp:75-76 | The slide del makes over the cleared record's bytes is safe. |
| SlottedPages.DelRecords | heap_storage.cpp:72-78 | The records after del's clear and slide are the old ones minus that id. |
| SlottedPages.SlottedPage.Put | heap_storage.cpp:48-68 | A growth by `extra` bytes fails exactly when has_room(extra) does, i.e. when `extra` exceeds end_free - 4*(num_records+1) (`RoomToGrow`). The error is DbBlockNoRoomError("Block is full!"), and the page is unchanged. Otherwise, growing or shrinking, the record map maps `id` to `data` with every other record kept, end_free moves by the size change, and the invariant holds. |
| SlottedPages.SlottedPage.Grow | heap_storage.cpp:52-57 | Growing a record within has_room's room keeps the invariant, maps `id` to `data`, keeps every other record, and lowers end_free by the growth. |
| SlottedPages.SlottedPage.Shrink | heap_storage.cpp:62-65 | Rewriting a record that does not grow keeps the invariant, maps `id` to `data`, keeps every other record, and raises end_free by the shrinkage. |
| SlottedPages.GrowSafe | heap_storage.cpp:52-57 | For a record growing by `extra` within has_room(extra): the slide down by `extra` is safe, and the record's new place overlaps no other record. |
| SlottedPages.GrowKeeps | heap_storage.cpp:52-57 | Growing (slide down, then memcpy at the new place) keeps the invariant and maps `id` to `data`, keeping the other records. |
| SlottedPages.ShrinkSafe | heap_storage.cpp:62-65 | For a record rewritten in place to a smaller size, the slide up that closes the gap is safe. |
| SlottedPages.ShrinkKeeps | heap_storage.cpp:62-65 | Shrinking (memcpy in place, then slide up) keeps the invariant and maps `id` to `data`, keeping the other records. |
| SlottedPages.ReplaceKeeps | heap_storage.cpp:66-67 | Giving a record a new place clear of the others and writing `data` there keeps the invariant and changes only that record. |
| SlottedPages.ReplaceLayout | heap_storage.cpp:66-67 | Writing a record's entry with a new place clear of the others keeps the page invariant. |
| SlottedPages.U16RoundTrip | heap_storage.cpp:149-156 | `get_n` reads back the 2-byte value `put_n` stored. |
| SlottedPages.HeaderRoundTrip | heap_storage.cpp:105-112 | A directory entry read back at put_header's field positions gives the header that was written. |
| SlottedPages.LayoutFits | heap_storage.cpp:110-111 | Every entry of a well-formed directory fits the u16 fields it is stored in. |
| SlottedPages.ImageSlot | heap_storage.cpp:110-111 | Entry `i` of a written image holds the bytes of header `i`, and reads back as that header. |
| SlottedPages.ImageRoundTrip | heap_storage.cpp:98-112 | Writing a page out and reading it back gives the same directory, entry 0 and records. |
| SlottedPages.ImageRecords | heap_storage.cpp:110-111 | Writing the directory into the block leaves every record's bytes as they were. |
| SlottedPages.DirectoryRoundTrip | heap_storage.cpp:98-112 | Reading a well-formed block and writing it out again reproduces the block byte for byte. |
| SlottedPages.U16BytesOf | heap_storage.cpp:149-156 | Storing the value read from two bytes reproduces those two bytes. |
| SlottedPages.HasRoomAsWrittenNoWrap | heap_storage.cpp:117-120 | Without u16 wrap-around, has_room as written holds exactly when size <= end_free - 4*(num_records+1). |
| SlottedPages.HasRoomAsWrittenOverfills | heap_storage.cpp:117-120 | has_room as written admits a record that overlaps the new directory entry, then wraps and claims room for 4000 more bytes. The corrected test refuses it. |
| SlottedPages.IdsAsWrittenDropsNewest | heap_storage.cpp:87 | The loop bound `i < num_records` omits the newest live record, which the corrected listing includes. |
| SlottedPages.HeaderFieldOrderSwaps | heap_storage.cpp:98-101 | get_header as written returns (loc, size) for the entry put_header wrote as (size, loc). It differs from the original whenever size != loc. |
| SlottedPages.PutEntryAsWrittenKeepsOldSize | heap_storage.cpp:66-67 | put as written (with get_header corrected) writes back the old size: shrinking a 5-byte record to 3 leaves its entry at 5. |
| SlottedPages.GrowSlideArgsAsWritten | heap_storage.cpp:55 | The slide arguments as written go "up" exactly when the record does not grow. |
| SlottedPages.GrowSlideAsWrittenUnsafe | heap_storage.cpp:55 | A reachable page where the grow path's slide as written cuts through a neighbouring record, while the corrected slide is safe. |
| SlottedPages.SlideBytesAsWritten | heap_storage.cpp:131 | The data move as written leaves every byte from end_free+1+shift on untouched. |
| SlottedPages.SlideBytesAsWrittenLosesRecord | heap_storage.cpp:131 | After a del, the move as written leaves the moved record's new offset pointing at the deleted record's bytes. The corrected move carries the record along. |
| SlottedPages.MovedAsWrittenDiffers | heap_storage.cpp:137 | The written test `loc <= start` and the corrected one differ exactly for a nonempty record straddling `start`. |
| SlottedPages.MovedAsWrittenOverlaps | heap_storage.cpp:137 | After add 3 bytes, add 0 bytes and grow record 2 to 5, the written test moves record 1 onto the grown record's bytes. The corrected test keeps it apart. |
| HeapFiles.HeapFile.constructor | heap_storage.cpp:172-174 | A new file has no blocks, last = 0, and is stored under name + ".db". |
| HeapFiles.HeapFile.GetNew | heap_storage.cpp:200-213 | The id is `++last`. A fresh empty page for it is returned, and its image is stored under that id: a directory of entry 0 alone, (0, BLOCK_SZ - 1), and no records. No other block changes. |
| HeapFiles.HeapFile.Create | heap_storage.cpp:177-180 | Creating the file adds block 1 and only block 1, holding the empty page get_new writes: directory [(0, BLOCK_SZ - 1)], no records. |
| HeapFiles.HeapFile.Get | heap_storage.cpp:215-221 | The page read for a block has the stored image, its directory and its records. |
| HeapFiles.HeapFile.Put | heap_storage.cpp:223-228 | The page's image replaces the block stored under its id, and last is unchanged. |
| HeapFiles.StoreKeepsValid | heap_storage.cpp:223-228 | Storing a well-formed image under an id in 1..last keeps the file's blocks exactly 1..last, each well-formed. |
| HeapFiles.PutGet | heap_storage.cpp:215-228 | Writing a page and reading it back gives the same directory and records. |
| HeapFiles.HeapFile.BlockIds | heap_storage.cpp:231-237 | The ids are 1..last in order: exactly the stored blocks. |
| HeapFiles.HeapFile.LastBlockId | heap_storage.cpp:239-241 | The result is the largest block id, and 0 exactly when there are no blocks. |
| HeapTables.HeapTable.constructor | heap_storage.cpp:257-259 | Keeps the schema, and the table's file is a new empty file named after the table. |
| HeapTables.HeapTable.Create | heap_storage.cpp:261-263 | Creating the table gives its file block 1, an empty page: directory [(0, BLOCK_SZ - 1)], no records. |
| HeapTables.EmptyFileHandles | heap_storage.cpp:287-300 | select on a file whose one block holds no records, as create leaves it, returns no handles. |
| HeapTables.HeapTable.Select | heap_storage.cpp:287-300 | The handles are exactly the (block, id) pairs of records the file holds, ordered by block and then id. The nested loops are proved against `Handles`. |
| HeapTables.AppendHandles | heap_storage.cpp:293-294 | The inner loop appends one handle per record id of the block, in order. |
| HeapTables.BlockHandlesSpec | heap_storage.cpp:293-294 | One block's handles are exactly that block paired with each listed id, ordered. |
| HeapTables.OrderedConcat | heap_storage.cpp:290-297 | The handles of earlier blocks, followed by those of a later block, stay ordered. |
| HeapTables.HandlesSpec | heap_storage.cpp:287-300 | The handles of blocks 1..n are exactly the pairs of such a block with an id listed for it, ordered. |
| HeapTables.StoredIdsElement | heap_storage.cpp:291-292 | Block b's entry in the stored-ids list is the live-id list of block b's image. |
| HeapTables.StoredIdsAt | heap_storage.cpp:291-292 | The ids listed for block b are the live ids of the directory `get` reads from it. |
| HeapTables.ImageIdsIncreasing | heap_storage.cpp:292 | The ids listed for any block image are strictly increasing. |
| HeapTables.ImageIdsAreRecords | heap_storage.cpp:292 | In a well-formed block, the listed ids are increasing and are exactly the ids of the records it holds. |
| HeapTables.LiveIdsAreRecords | heap_storage.cpp:85-95 | On a well-formed page, the live ids are exactly the ids of the records it holds. |
| HeapTables.HandlesAreHeld | heap_storage.cpp:287-300 | When each block's list holds exactly its held ids, the handles are exactly the held (block, id) pairs, ordered. |
| HeapTables.StoredHandles | heap_storage.cpp:287-300 | When each block lists exactly the ids of its records, the file's handles name exactly those records, ordered. |
| HeapTables.FileHandlesAreRecords | heap_storage.cpp:287-300 | In a file of well-formed blocks, select's handles name exactly the records the blocks hold, ordered by block and then id. |
| HeapTables.HeapTable.Marshal | heap_storage.cpp:311-337 | The buffer-and-offset loop yields exactly `Encoding` of the row's values in schema order. A BOOLEAN column gives DbRelationError("Only know how to marshal INT and TEXT"). |
| HeapTables.StoreField | heap_storage.cpp:319-327 | One column stored at `offset`: the buffer prefix grows by the column's bytes, and the new offset is past them. |
| HeapTables.Store | heap_storage.cpp:324-326 | A memcpy into the buffer: what lies before `offset` stays, and `data` follows it. |
| HeapTables.FieldBytes | heap_storage.cpp:319-330 | A column has bytes exactly when its type is INT or TEXT. |
| HeapTables.Encoding | heap_storage.cpp:311-337 | A failed row fails with the marshal error. A successful row's length is the sum of the columns' sizes (4 per INT, 2 + length per TEXT). |
| HeapTables.EncodingFails | heap_storage.cpp:328-330 | Marshal fails exactly when some column's type is neither INT nor TEXT. |
| HeapTables.EncodingSnoc | heap_storage.cpp:315-331 | Each loop step appends the next column's bytes to the encoding of the columns before it. |
| HeapTables.MarshalStep | heap_storage.cpp:315-331 | On a row that fits, each column's bytes fit in the buffer, and the encoded prefix grows by them. |
| HeapTables.MarshalStops | heap_storage.cpp:328-330 | A column that cannot be marshalled makes the whole row fail with the marshal error. |
| HeapTables.Int32RoundTrip | heap_storage.cpp:320 | The four bytes stored for an int32 read back as the same int32. |
| HeapTables.TextRoundTrip | heap_storage.cpp:326 | A text of one-byte characters reads back from its stored bytes. |
| HeapTables.DecodeInt | heap_storage.cpp:319-321 | An INT column decodes to its value, followed by the rest of the row. |
| HeapTables.DecodeText | heap_storage.cpp:322-327 | A TEXT column (length prefix, then bytes) decodes to its string, followed by the rest of the row. |
| HeapTables.DecodeFront | heap_storage.cpp:319-327 | The first column decodes to its stored value, followed by the rest of the row. |
| HeapTables.DecodeEncoding | heap_storage.cpp:311-337 | A marshalled row whose texts fit decodes back to the row as stored: INT columns give their n, TEXT columns their s. |
| Values.ToInt32 | SQLExec.cpp:223 | Narrowing the parser's int64 to Value's int32 keeps the low 32 bits, and keeps every value already in range. |
| SQLExec.LiteralValue | SQLExec.cpp:218-227 | A node is a literal exactly when it is a string or int literal. A string becomes a TEXT value of its name; an int becomes an INT value congruent to ival mod 2^32. |
| SQLExec.InsertBoth | SQLExec.cpp:211-213 | Merging two dictionaries by `insert` keeps every key of both, and the first dictionary's value where both have a key. |
| SQLExec.GetWhereConjunction | SQLExec.cpp:206-238 | Errors are only the three DbRelationErrors. A non-operator node gives "Unsupport type!". An operator other than AND or a simple op gives "Unsupport opType!". A simple op whose right operand is no string or int literal gives "Unrecognized value!". |
| SQLExec.FirstWinsSpec | SQLExec.cpp:209-213 | The reference dictionary has exactly the listed columns, each with its earliest value. |
| SQLExec.FirstWinsAppend | SQLExec.cpp:209-213 | The reference dictionary of two lists joined is the merge of theirs, the first list winning. |
| SQLExec.WhereConjunctionIsFirstWins | SQLExec.cpp:206-238 | get_where_conjunction succeeds exactly when the tree is an AND of `column = literal` terms. Each column then maps to the literal of its leftmost term. |
| SQLExec.ColumnDefinitionOf | SQLExec.cpp:277-291 | Succeeds exactly for INT and TEXT, with the column's name and the matching attribute type. Otherwise the result is SQLExecError("unrecognized data type"). |
| SQLExec.ColumnDefinitionRoundTrip | SQLExec.cpp:277-291 | Every INT or TEXT attribute comes back from the column type that declares it. |
| SQLExec.BuildInsertRow | SQLExec.cpp:121-151 | DbRelationError exactly when the statement is ineligible (count mismatch, no table columns, or an unknown named column). Otherwise a non-literal value gives SQLExecError("Unrecognized column type"), and all-literal values are bound by position to the table columns. |
| SQLExec.BoundKeys | SQLExec.cpp:133-147 | The bound row has exactly the table's columns. |
| SQLExec.BoundValues | SQLExec.cpp:133-147 | With distinct column names, the i-th table column holds the i-th literal. |
| SQLExec.DropTableGuard | SQLExec.cpp:439-441 | Fails exactly for `_tables` and `_columns`, with SQLExecError("cannot drop a schema table"). |
| SQLExec.CreateIndexRows | SQLExec.cpp:382-413 | Fails exactly when an index column is not a table column, naming the first such column. On success there is one row per index column, in order, with the six catalog fields. `is_unique` is true exactly for BTREE, and `seq_in_index` counts 1..n. |

## Left out

- Berkeley DB I/O is not modelled. This covers the RecNo file behind HeapFile (`db_open`, `open`, `close`, `drop`, `db.get`/`db.put`); blocks are a map from block id to image instead. The inverted `closed` check in `db_open` (heap_storage.cpp:245), which makes it never open the file, is therefore not modelled.
- HeapTable `insert`, `update`, `del`, `project`, `validate`, `append` and `unmarshal` have empty bodies (heap_storage.cpp:282-284, 302-306, 340-342), so nothing is stated about them. Likewise `create_if_not_exists`, `drop`, `open` and `close` only forward to the file's I/O.
- HeapTables.HeapTable.Select: the `where` argument is accepted and ignored, as in the source.
- BLOCK_SZ is 4096; storage_engine.h, which defines it, is not part of this model. The schema table names `_tables` and `_columns` are taken the same way, because schema_tables is not part of this model.
- SlottedPages.SlottedPage.Add: the u16 truncation of a size of 65536 or more is not modelled. Such a record never fits a 4096-byte block, and the model refuses it as having no room.
- SlottedPages.SlottedPage.Get, SlottedPages.SlottedPage.Del: ids outside 1..num_records are excluded. The source reads directory entries past the directory for them.
- SlottedPages.SlottedPage.Put: the record must be live. For a deleted id the source slides with offset 0 and writes over the directory.
- SlottedPages.SlottedPage.Slide: callers must pass a slide that cuts through no record (`SlideSafe`). del and the corrected put only make such slides. The `u16` shift of the source is modelled as a signed integer.
- SlottedPages.SlottedPage.HasRoom: the contract states the corrected capacity test, not the formula as written (see Findings).
- SlottedPages.SlottedPage.Put: the growth test `RoomToGrow` is has_room's formula without the u16 wrap. When the directory reaches end_free exactly, the source's free count wraps to 65535 and admits any growth; the model refuses it (Findings, first row). The u16 truncation of `new_size` (heap_storage.cpp:51) is not modelled either: records are at most a block long.
- HeapFiles.HeapFile.Get: requires a block id in 1..last. Berkeley DB's behaviour for a missing key is not modelled.
- HeapFiles.HeapFile.Create: requires a file with no blocks yet, the state `DB_CREATE|DB_EXCL` opens.
- HeapFiles.HeapFile.Put: requires the page's block id to be in 1..last. Storing a page under a new key past `last`, which Berkeley DB would accept, is not modelled.
- HeapTables.HeapTable.Marshal: it requires every schema column in the row and at least as many attributes as names; the source dereferences `find`'s end iterator otherwise. It also requires that the row fit one block (`RowFits`), which the source insists on without checking.
- HeapTables.TextBytes: each character is taken as one byte (its low 8 bits), as the `memcpy` of `c_str()` does for ASCII. Multi-byte encodings are not modelled, and the round trip is stated for texts of one-byte characters under 65536 long.
- HeapTables.Int32Bytes: the `int32_t` store is modelled little-endian.
- SQLExec.GetWhereConjunction: requires `WellFormed`, i.e. that AND and simple-operator nodes have both operands, as the parser produces them. The operator character of a simple op is not consulted, so any `SIMPLE_OP` is read as equality, as in the source.
- The catch blocks that turn the storage layer's errors into SQLExecError("DbRelationError: ...") are not modelled; the errors are returned as raised. They are in `execute` (SQLExec.cpp:102-104), around insert among others, in `del` (SQLExec.cpp:201-203) and in `select` (SQLExec.cpp:269-271), which calls get_where_conjunction.
- SQLExec.BuildInsertRow: the row is returned rather than given to `table.insert`. Inserting it into the table's indices (SQLExec.cpp:148, 152-158) is not modelled.
- SQLExec.CreateIndexRows: requires fewer than 2^31 index columns, so that the `int` counter does not overflow. The rows are returned rather than inserted into `_indices`. The catalog lookups (`get_columns`, `get_index`, `index.create()`) are external and not modelled.
- SQLExec.DropTableGuard: only the guard is modelled. The catalog and index removal that follows is external.
- The int literal of the parser is an `int64_t`, and `Value` stores an `int32_t`. The narrowing (Values.ToInt32) follows the source's `Value(int32_t)` constructor, which is not part of this model.
- Raw-pointer ownership (`new`/`delete` of the returned collections) is not modelled. Results are returned as values.

## Findings

| source | as written | input that shows it | evidently intended | confidence | as-written member | corrected member |
|---|---|---|---|---|---|---|
| heap_storage.cpp:117-120 | `free = end_free - (num_records+1)*4` in u16, compared with `size` | fresh page, add of 4091 bytes: accepted, overlaps directory entry 1, then 4 - 8 wraps to 65532 | the record and the new entry must fit: `4*(num_records+2) + size <= end_free + 1` | not executed | SlottedPages.HasRoomAsWrittenOverfills | SlottedPages.SlottedPage.HasRoom |
| heap_storage.cpp:87 | loop `i < num_records` | two records, the newest live: id 2 is not listed | ids 1 to num_records | not executed | SlottedPages.IdsAsWrittenDropsNewest | SlottedPages.SlottedPage.Ids |
| heap_storage.cpp:98-101 | get_header reads loc from `4*id` and size from `4*id+2` | any entry with size != loc, e.g. entry 0 of a fresh page | read the fields where put_header writes them | not executed | SlottedPages.HeaderFieldOrderSwaps | SlottedPages.HeaderRoundTrip |
| heap_storage.cpp:66-67 | the entry is re-read and written back, keeping the old size (with get_header corrected; through the swapped get_header of lines 98-101, the write-back exchanges size and offset instead) | shrink a 5-byte record to 3 bytes: its entry still says 5 | write the new size (and new offset) | not executed | SlottedPages.PutEntryAsWrittenKeepsOldSize | SlottedPages.SlottedPage.Put |
| heap_storage.cpp:55 | grow path calls `slide(loc + new_size, loc + size)` | records (3 bytes at 4093), (2 bytes at 4091), end_free 4090; grow record 2 to 4: slide(4095, 4093) cuts through record 1 | `slide(loc, loc - extra)`, then write at `loc - extra` | not executed | SlottedPages.GrowSlideAsWrittenUnsafe | SlottedPages.GrowKeeps |
| heap_storage.cpp:131 | `memcpy(end_free+1, end_free+1+shift, shift)` | records (2 bytes at 4094), (2 bytes at 4092), end_free 4091; del(1): record 2's moved entry points at record 1's old bytes | memmove of `[end_free+1, start)` by `shift` | not executed | SlottedPages.SlideBytesAsWrittenLosesRecord | SlottedPages.SlottedPage.MoveBytes |
| heap_storage.cpp:137 | a record moves when `loc <= start` | add 3 bytes, add 0 bytes, grow record 2 to 5: record 1 at 4093 is moved onto record 2's new bytes | move a record when `loc + size <= start` | not executed | SlottedPages.MovedAsWrittenOverlaps | SlottedPages.MoveEntries |
