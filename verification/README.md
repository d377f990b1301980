# History tools, verified

A Dafny model of the parts of the EOSIO history tools where correctness is hardest to see, with proofs about all their
inputs and runs.

- **The block-history store.** The filler keeps rows and index entries in an ordered key-value store, writes them in
  batches, goes back when the chain switches forks, and trims old history. `Bytes`, `KeyCodec`, `RowValues` and
  `Store` are keys, row values, scans and batches. `Tables` ties rows to index entries. `History` is a session of the
  filler as the sequence of images its batches leave; `Recovery`, `Runs`, `Crashes`, `ForkWindows`, `Trimming` and
  `TrimRuns` prove what every run keeps and exactly after which stops between two batches a restart repairs the
  database. `Images`, `Batches`, `Messages`, `Scans`, `TrimScan` and `Filler` are the imperative session over the
  bytes of the store, each method proved to take the step of `History`; `BlockRows` says what a message leaves in it
  in terms of the message alone. `Answers` and `Query` are the snapshot queries.
- **The PostgreSQL filler.** `PgHistory`, `PgRuns`, `PgChains` and `PgFiller` do the same for a database whose tables
  are written through streams that commit apart from the status.
- **SQL literals.** `SqlText` prints nested values and reads them back; `SqlColumns` merges the alternatives of a
  variant into columns and prints one alternative under them; `SqlVariants` reads that back.
- **Printing doubles.** `Powers`, `DigitGeneration`, `Grisu` and `DecimalText` are the Grisu2 printer with exact
  fixed-width arithmetic, from the cached powers to the text.
- **The message tree.** `Talk` is the contract that grows a forest of messages and the server that pages through it.

Run `dafny verify dfyconfig.toml`.

## Assumptions

- A batch of the key-value store and a PostgreSQL transaction take effect as a whole. A stop keeps some prefix of what
  was written: the store's images, in order.
- Keys have fields of fixed width. A configuration (`Tables.Config`) has indexes that contain their table's key fields
  and no flag of an optional field, as the repository's own has; delta tables have a trim index. `KeyCodec` says what
  happens with flags among the sort keys.
- A block's id says its number and its predecessor (`Runs.Faithful`); a block has each row once (`Runs.Once`); no block
  already reported irreversible is taken back, and the reported irreversible block does not go down (`Crashes.Allowed`).
  Block numbers are below 2^32 - 1. On the PostgreSQL side restarts need only that a block's rows carry its number, and
  the chain only that ids say numbers and predecessors; forks may go back as far as they like.
- Message ids stay below 2^64 - 1.

## Where the code and its own words differ

- `fpconv.h` promises at most 24 characters; 25 are possible (`DecimalText.DocumentedLengthFails`), exactly for a
  negative number with 17 digits that are printed with seven zeros after them (`DecimalText.EmitLength`).
- Grisu2's last digit can be zero (`Grisu.LastDigitCanBeZero`); `Grisu.Grisu2` says exactly when.
- `extract_pk_from_index` loses rows when a sort key follows the flag of an optional field that the row does not have
  (`KeyCodec.FlagInIndexLosesRow`). A row's entries at all blocks lead back to it exactly when no sort key but another
  flag follows such a flag, and each key field is among the sort keys at a place that does not
  (`KeyCodec.EntriesLeadExactly`). An index of key fields and flags alone never leads anywhere wrong
  (`KeyCodec.KeysAndFlagsLead`); with other fields an entry that is read astray can even lead to the right row, for one
  block (`KeyCodec.AstrayCanLead`).
- A stop inside a switch of forks is not repaired, as the source's own remark at
  `src/fill_rocksdb_plugin.cpp:404` suspects. After the fork's entries are erased and before its rows are, a restart
  keeps its head with rows that no query finds (`ForkWindows.ForkWindowLosesEntries`); after its rows are erased and
  before the status is written, it forgets its head (`ForkWindows.ForkWindowLosesHead`). These three images are all:
  `ForkWindows.StopAnywhereExactly` is the restart result for all runs, and `ForkWindows.RestartExactly` for any image.
- The PostgreSQL filler commits the status of a fork's block while its rows are still in open streams; a stop before
  they are closed loses rows, and a stop at any other time does not (`PgRuns.StopAnywhereExactly`,
  `PgRuns.AddBlockExactly`).
- A PostgreSQL trim can remove the received block of the stored head, which makes a restart forget its head, if blocks
  without any row have passed that head (`PgRuns.TrimLosesHead`). Blocks whose headers are stored have a row each.
- A PostgreSQL trim does not write the status, so after a stop the stored first block may be one that is gone. The
  received blocks are still a chain up to the head, which starts at the stored first block exactly if that is there
  (`PgChains.RestartFindsChain`).
- That the alternatives of a variant agree, two by two, on the order of the fields they share is not enough for the
  merged columns to suit them all (`SqlColumns.AgreementIsNotEnough`); what is needed is that each has its shared fields
  in the order of the columns so far (`SqlColumns.PlacedExactlyInOrder`).

## Model

| member | source | states |
|---|---|---|
| Store.Seek | src/state_history_rocksdb.hpp:153-162 | finds the first key at or after a bound, or that there is none |
| Store.ForEach | src/state_history_rocksdb.hpp:153-162 | visits in order exactly the keys from the lower bound that are not past the upper one, where bounds may be prefixes |
| Store.IncKey | src/state_history_kv.hpp:12-16 | adds one to the key as a big-endian number, and gives zero on overflow |
| Store.NextPrefix | src/state_history_kv.hpp:12-16 | unless all bytes are 255 the result is the next prefix: nothing of that length lies between |
| Store.ForEachSubkey | src/state_history_rocksdb.hpp:176-194 | for an upper bound that is not of bytes 255 alone, visits each prefix in the range once, in order, with the least whole key that has it, until the limit; fails only for bounds of different sizes or a key shorter than the prefix |
| Store.PastStays | src/state_history_rocksdb.hpp:156-157 | once a key is past the upper bound all later keys are, so stopping there loses nothing |
| KeyCodec.NativeToKey | src/state_history_kv.hpp:18-39 | reversing the serialized bytes appends the number most significant byte first |
| KeyCodec.KeyToNative | src/state_history_kv.hpp:41-56 | reads the number back and fails exactly when the key ends too early |
| KeyCodec.FillPositions | src/state_history_kv.hpp:428-478 | the loop finds the same field offsets, and fails on the same bytes, as the scan field by field with its optional parts |
| KeyCodec.ExtractKeys | src/state_history_kv.hpp:487-496 | appends the key form of each field, or fails for one that is missing or cannot be a key |
| KeyCodec.ExtractPkFromIndex | src/state_history_kv.hpp:498-533 | computes the row key of an index entry, with every way it can fail |
| KeyCodec.EntryLeadsToRow | src/state_history_kv.hpp:487-533 | from the entry that a row has in an index with its key fields, extract_pk_from_index returns exactly the row's key |
| KeyCodec.EntriesLeadExactly | src/state_history_kv.hpp:424-533 | for a row with whatever flags, its entries in an index at all blocks lead back to it if and only if no sort key but a flag follows a zero flag and every key field is a sort key at a place that does not follow one |
| KeyCodec.KeysAndFlagsLead | src/state_history_kv.hpp:498-533 | in an index of key fields and flags alone an entry leads exactly to its row under that condition, and otherwise extract_pk_from_index fails |
| KeyCodec.FlagInIndexLosesRow | src/state_history_kv.hpp:428-452 | a concrete row and index where it fails, because a key field follows the zero flag of an optional field |
| KeyCodec.AstrayCanLead | src/state_history_kv.hpp:428-452 | a concrete entry that is read astray and still leads to its row, so the condition for a single block is not about flags alone |
| KeyCodec.ReadRowPrefix | src/state_history_kv.hpp:343-347 | block, table and presence read back from a row key are those it was made of |
| KeyCodec.ReadSuffix | src/state_history_kv.hpp:349-364 | block and presence read back from an index suffix are those it was made of |
| KeyCodec.KeyOrder | src/state_history_kv.hpp:18-39 | keys of any number of fields are in byte order exactly as the tuples of their numbers are |
| KeyCodec.ExtractEncodes | src/state_history_kv.hpp:487-496 | a key is the numbers of its fields one after the other, each most significant byte first in the width of its field |
| RowValues.FieldsAreFound | src/state_history_kv.hpp:428-470 | in a value laid out as its table says, with optional parts, fill_positions finds exactly the fields that are there, up to one of unknown size, each where it starts |
| RowValues.RowKeyExactly | src/fill_rocksdb_plugin.cpp:532-543 | a row has a key exactly if all its key fields are found, and it is block, table, presence and the bytes of the key fields, last byte first |
| RowValues.EntriesExactly | src/fill_rocksdb_plugin.cpp:545-551 | a row has entries exactly if all indexed fields are found, and they are one for each index, made of its fields |
| KeyCodec.EntryOrder | src/state_history_kv.hpp:349-354 | among entries with equal keys later blocks come first, and of one block the present row |
| KeyCodec.RowOrder | src/state_history_kv.hpp:291-321 | row keys are ordered by block, table, presence and then key fields |
| Tables.EntryFindsRow | src/fill_rocksdb_plugin.cpp:532-552 | every entry that add_row makes leads back to its own row, so no two rows share an entry |
| Tables.EntriesMinus | src/fill_rocksdb_plugin.cpp:554-584 | removing rows removes exactly their entries, and no entry of a row that stays |
| Recovery.RestartRestores | src/fill_rocksdb_plugin.cpp:329-361 | from any recoverable image a restart ends with exactly the rows up to the stored head and all their entries, and every batch of the restart leaves an image that restarts to the same |
| Runs.EndWriteSettles | src/fill_rocksdb_plugin.cpp:413-420 | until its second batch a restart goes where it went before; after it, the image is exactly what its status says |
| Runs.StepsKeep | src/fill_rocksdb_plugin.cpp:618-647 | while a block's rows are added, with partial writes of long deltas, each image restarts to the state before the block and the batches hold new rows with all their entries |
| Runs.ForkKeeps | src/fill_rocksdb_plugin.cpp:451-456 | switching forks ends at the block before, with clean indexes, every image having a row for each entry |
| Runs.AdvanceKeeps | src/fill_rocksdb_plugin.cpp:463-482 | the received blocks stay a chain from first to head, linked by previous id |
| Runs.TrimKeeps | src/fill_rocksdb_plugin.cpp:742-810 | a trim is one batch after which rows, entries, status and the chain of received blocks agree again |
| Crashes.BlockKeeps | src/fill_rocksdb_plugin.cpp:422-496 | every block, with or without a fork and a trim, keeps the session's invariant and leaves only images with a row for each entry; without a fork each image restarts to the one before or to itself |
| Crashes.RunKeeps | src/fill_rocksdb_plugin.cpp:422-496 | the same for whole runs: clean indexes, a contiguous chain of received blocks ending at the head, a stored irreversible block not after it |
| Crashes.StopAnywhere | src/fill_rocksdb_plugin.cpp:329-420 | in a run without forks, a stop after any batch, even of the restart after it, followed by a restart gives exactly the image of the last status written, and a session that can go on |
| ForkWindows.RestartExactly | src/fill_rocksdb_plugin.cpp:329-411 | from any image with a row for each entry and a well-formed status, a restart gives the image of that status if and only if the block of its head is there and the rows up to it have all their entries |
| ForkWindows.RestartHead | src/fill_rocksdb_plugin.cpp:394-401 | a restart keeps its head if and only if the stored head's received block is there, and otherwise forgets it |
| ForkWindows.ForkWindowLosesEntries | src/fill_rocksdb_plugin.cpp:404-408 | in every fork switch, a stop between erasing the entries and erasing the rows makes the restart keep head and rows without the entries from the fork on; that is the right image exactly if there were none |
| ForkWindows.ForkWindowLosesHead | src/fill_rocksdb_plugin.cpp:404-420 | in every fork switch, a stop after erasing the rows and before the status is rewritten makes the restart forget its head while the rows before the fork remain |
| ForkWindows.StopAnywhereExactly | src/fill_rocksdb_plugin.cpp:329-496 | in every run with forks and trims, a stop after any batch followed by a restart gives exactly the image of the last status written, and a session that can go on, if and only if the stop is not in the window of a fork switch |
| Crashes.CheckFindsNothing | src/fill_rocksdb_plugin.cpp:114-180 | what check looks for holds after every restart: received blocks exactly from first to head, and a row for each entry |
| Crashes.PositionsAreThere | src/fill_rocksdb_plugin.cpp:363-372 | get_positions finds all its blocks if and only if first is not after the irreversible block |
| Trimming.TrimLeavesOne | src/fill_rocksdb_plugin.cpp:754-807 | a trim to a block leaves each key of a delta table at most one row up to that block |
| Trimming.SkippingFirstIsSound | src/fill_rocksdb_plugin.cpp:765-772 | leaving out the rows of the first block when choosing keys changes nothing: a row goes exactly when a newer one of its key is not after the end |
| Trimming.TrimIsExact | src/fill_rocksdb_plugin.cpp:756-804 | a trim leaves a row of a table without a trim index exactly if its block is not in the range, and any other row exactly if none of its key is newer up to the end |
| TrimRuns.BlockKeepsOne | src/fill_rocksdb_plugin.cpp:422-496 | every block, fork and trim keeps at most one row per key up to the first block, once the first block has one |
| TrimRuns.RunKeepsOne | src/fill_rocksdb_plugin.cpp:422-496 | so does every run, in the session and in every image that it leaves |
| TrimRuns.StopKeepsOne | src/fill_rocksdb_plugin.cpp:329-496 | and every restart from any of these images, those inside a fork switch included |
| TrimScan.SupersededByPrevious | src/fill_rocksdb_plugin.cpp:788-803 | in the scan of a key's entries a row is superseded exactly when the block of the entry before it is not after the end |
| TrimScan.LoopsFindTrimmed | src/fill_rocksdb_plugin.cpp:756-804 | the two loops of trim find exactly the rows that are to go |
| TrimScan.FillTrimBatch | src/fill_rocksdb_plugin.cpp:747-804 | the batch removes exactly those rows and their entries |
| Images.StatusRoundTrip | src/state_history.hpp:12-25 | the stored fill status is head, id, irreversible, id and first, little-endian, and is read back as it was written |
| Images.ReceivedLayout | src/fill_rocksdb_plugin.cpp:480-482 | a received_block row is the number and the id of the block |
| Images.ImageIsAll | src/state_history_kv.hpp:226-249 | rows, entries and status are all that the database holds |
| Batches.RemoveRows | src/fill_rocksdb_plugin.cpp:384-392 | the rows to remove and all their entries, and no others, go into the two batches |
| Filler.FlmSession.EndWrite | src/fill_rocksdb_plugin.cpp:374-420 | the two writes take the database through exactly the two images of the step |
| Filler.FlmSession.Truncate | src/fill_rocksdb_plugin.cpp:384-411 | erases the entries and then the rows from a block on, and steps the head back, as the step says |
| Filler.FlmSession.AddRow | src/fill_rocksdb_plugin.cpp:532-552 | puts the row and its entries into the batches, or closes the session when a key field is missing |
| Filler.FlmSession.ReceiveRows | src/fill_rocksdb_plugin.cpp:629-645 | adds a delta's rows, writing a long one in parts of 10000 |
| Filler.FlmSession.Trim | src/fill_rocksdb_plugin.cpp:742-810 | one batch makes exactly the image of a trim |
| Filler.FlmSession.ReceivedAbi | src/fill_rocksdb_plugin.cpp:329-337 | the restart of the byte-level session is the restart of the model |
| Filler.FlmSession.Received | src/fill_rocksdb_plugin.cpp:422-496 | the session goes on if and only if the block is not the one to stop before, connects to the block before it, and all rows of the message can be stored; then it has every row that the message brings under its key with its value, the received_block row, the rows that stay, and no others, stands at the block, and has written everything where the source does; its invariant is kept |
| BlockRows.ReceivedExactly | src/fill_rocksdb_plugin.cpp:422-496 | the same of the model's step: which rows are there after a message, the status, what a trim takes, and what is written, said in the message's block, deltas and traces |
| BlockRows.PartialWrites | src/fill_rocksdb_plugin.cpp:629-637 | while rows are added the batches are written twice for each part of 10000 rows of a longer delta, and not otherwise |
| Filler.FlmSession.GetPositions | src/fill_rocksdb_plugin.cpp:363-372 | lists the received blocks from the irreversible one to the head, or fails exactly when one is missing |
| Query.FirstIsAnswer | src/wasm_ql_rocksdb_plugin.cpp:108-115 | the first entry from the snapshot on is that of the group's newest row not after it, and if there is none the group has no such row |
| Query.QueryDatabase | src/wasm_ql_rocksdb_plugin.cpp:75-153 | the request fails exactly if it is too short or the index has fields that cannot be keys; otherwise the result is the values of the newest rows as of the lesser of the asked snapshot and the head, for the distinct index keys from the first list of numbers to the second, in order, up to the lesser of the asked count and the query's limit, but at least one |
| Query.QueryKeysExactly | src/wasm_ql_rocksdb_plugin.cpp:96-101 | arguments are read exactly if there are enough bytes for fields that can be keys, and become the key of their numbers |
| Query.QueryOrder | src/wasm_ql_rocksdb_plugin.cpp:93-101 | a row is in the queried range exactly when the numbers of its sort keys are, as tuples |
| Query.PageUnique | src/wasm_ql_rocksdb_plugin.cpp:107-147 | the page that a query asks for is determined by the rows alone |
| Query.TrimKeepsQueries | src/fill_rocksdb_plugin.cpp:742-810 | a trim changes no page and no answer at a snapshot from its end on, for indexes over exactly the key fields |
| Answers.TrimKeepsAnswers | src/fill_rocksdb_plugin.cpp:788-803 | a row is the newest of its group as of such a snapshot after a trim if and only if it was before |
| PgHistory.OpenRestores | src/fill_pg_plugin.cpp:209-220 | loading the status and truncating after its head leaves exactly the rows and received blocks up to it |
| PgRuns.CloseFollows | src/fill_pg_plugin.cpp:553-574 | the streams are committed one by one and only then the status that vouches for their rows; each image in between has exactly the due rows but those still in streams |
| PgRuns.BlockConnects | src/fill_pg_plugin.cpp:449-474 | a session goes on if and only if the block is not the one to stop before and connects to the block before it |
| PgRuns.BlockCommits | src/fill_pg_plugin.cpp:434-502 | the session's status after a block, and what is committed: all near the irreversible block but a fork's rows, nothing but received blocks long before it except at every 200th block, all for very large blocks |
| PgRuns.StopCommits | src/fill_pg_plugin.cpp:449-453 | a stop commits all rows and then the status |
| PgRuns.AfterBlock | src/fill_pg_plugin.cpp:434-502 | a block's rows are due with it, a fork makes those from its block on no longer due, a trim those it removes; owed are the rows of a fork, until the streams are closed |
| PgRuns.StopAnywhereExactly | src/fill_pg_plugin.cpp:408-502 | in every run with forks and trims, a stop between any two commits followed by a restart leaves exactly the due rows of all blocks up to the committed head, and goes on from there, if and only if the head's received block is there and no row of a switched fork is still in a stream |
| PgRuns.StopAnywhere | src/fill_pg_plugin.cpp:408-502 | without forks, and without trims or with a row in every block, a stop anywhere is repaired |
| PgRuns.StopBetweenBlocks | src/fill_pg_plugin.cpp:434-502 | between blocks the image is repaired if and only if the head's block is there and the last switched block had no rows or its streams have been closed since |
| PgRuns.AddBlockExactly | src/fill_pg_plugin.cpp:463-498 | after a block's transaction, bulk or not, a restart leaves all its rows if and only if the block switches no forks or has no rows |
| PgRuns.TrimLosesHead | src/fill_pg_plugin.cpp:648-661 | a trim removes the received block of the stored head if and only if it ends after that head |
| PgRuns.RunHeads | src/fill_pg_plugin.cpp:434-502 | without trims, or with a row in every block, the stored head's received block is in every image of every run |
| PgChains.ProcessKeepsChain | src/fill_pg_plugin.cpp:397-502 | every block, with forks and trims, keeps the received blocks a chain linked by previous id that ends at the head, exactly from first on in an uninterrupted session, and commits no irreversible block after the head |
| PgChains.RunKeepsChain | src/fill_pg_plugin.cpp:397-502 | so does every run, and each of its images has such a chain for a restart |
| PgChains.RestartFindsChain | src/fill_pg_plugin.cpp:209-220 | a restart goes on from that chain, which starts at the stored first block if and only if that block is still there |
| PgHistory.TrimIsExact | src/fill_pg_plugin.cpp:292-370 | a trim leaves a row of a keyed table exactly if no row of its key changed later in the range, and a row of a simple table exactly if its block is not in the range |
| PgHistory.TrimLeavesOne | src/fill_pg_plugin.cpp:308-332 | if each key has rows of one block up to the trim's start, it has rows of one block up to its end |
| PgHistory.TrimsCompose | src/fill_pg_plugin.cpp:281-370 | trimming in two steps with later rows added between is one trim after adding them |
| PgHistory.TrimKeepsNewest | src/fill_pg_plugin.cpp:308-332 | each key's newest row at every block from the trim's end on stays the newest, and no other becomes it |
| PgFiller.TrimHistoryLoops | src/fill_pg_plugin.cpp:292-370 | the generated function's loops leave no row of a keyed table with a later row of its key in the range, no row of a simple table in the range, and every other row |
| PgFiller.FpgSession.FlushStreams | src/fill_pg_plugin.cpp:553-559 | commits the streams one after the other in the order of their names |
| PgFiller.FpgSession.ProcessBlocksResult | src/fill_pg_plugin.cpp:434-502 | handling a result takes the session and the committed images through the model's step |
| PgFiller.FpgSession.ReceivedStatus | src/fill_pg_plugin.cpp:209-220 | the restart of the session is the restart of the model |
| SqlText.EscapeTableField | src/abieos_sql_converter.cpp:16-42 | escapes character by character as the reader expects |
| SqlText.UnescapeEscape | src/abieos_sql_converter.cpp:16-42 | COPY's unescaping gives back every text that was escaped |
| SqlText.EscapedIsOneField | src/abieos_sql_converter.cpp:16-42 | an escaped text has no tab or line end and is never the null marker |
| SqlText.PlainStays | src/abieos_sql_converter.cpp:16-42 | printable text without backslashes is not changed by escaping |
| SqlText.EscapeCompositeField | src/abieos_sql_converter.cpp:44-57 | quotes a text, with a backslash before each quote and backslash |
| SqlText.PlainIsQuoted | src/abieos_sql_converter.cpp:44-57 | text without quotes and backslashes is only put in quotes |
| SqlText.ReadJoined | src/abieos_sql_converter.cpp:253-268 | a printed list of items is read back item by item, in composites and in arrays |
| SqlText.ReadPrinted | src/abieos_sql_converter.cpp:238-295 | a reader directed by the type recovers the value printed inside a composite, nested to any depth |
| SqlText.SqlValue | src/abieos_sql_converter.cpp:238-295 | the printer gives the text that these results are about |
| SqlText.FieldRoundTrip | src/abieos_sql_converter.cpp:238-295 | what COPY and the type-directed reader make of a table field is exactly the value printed |
| SqlColumns.UnionFields | src/abieos_sql_converter.cpp:111-144 | the loops insert and rename columns as the merge says |
| SqlColumns.AlternativesArePlaced | src/abieos_sql_converter.cpp:111-144 | after the merge of any number of alternatives each finds its fields, in order, at the first columns for them and with their types, renamed ones included |
| SqlColumns.ToSqlValues | src/abieos_sql_converter.cpp:303-328 | gives one value for each column; an alternative that has its places is read exactly, each field printed at its place and fillers elsewhere |
| SqlColumns.ConvertedReads | src/abieos_sql_converter.cpp:303-328 | the fields of an alternative are read from the input part by part, in order and none left out |
| SqlColumns.FieldsUnderTheirTypes | src/abieos_sql_converter.cpp:303-328 | in a well-formed variant every field is printed under a column of its SQL type |
| SqlColumns.PlacedExactlyInOrder | src/abieos_sql_converter.cpp:117-139 | where names keep their types, all alternatives have their places if and only if each had its shared fields in the order of the columns so far |
| SqlColumns.AgreementIsNotEnough | src/abieos_sql_converter.cpp:117-139 | three alternatives that agree two by two and still leave one without places |
| SqlVariants.SqlVariant | src/abieos_sql_converter.cpp:253-258 | prints a variant as the composite whose columns have the alternative's fields at their places and nothing elsewhere |
| SqlVariants.VariantRoundTrip | src/abieos_sql_converter.cpp:253-328 | in a well-formed variant, reading back the printed text gives every alternative's values in their columns and nothing in the others |
| SqlVariants.FillerInTable | src/abieos_sql_converter.cpp:317-326 | in a table the filler of an array is read back as an empty array, that of a type in the schema as null, and any other is empty text |
| Powers.TableIsRounded | libraries/eosiolib/wasmql/eosio/powers.h:22-64 | every cached power is within half a unit of the exact power of ten |
| Powers.FindCachedPow10 | libraries/eosiolib/wasmql/eosio/powers.h:66-93 | the search ends inside the table at a power that scales the exponent into [-60, -32] |
| Grisu.IsBinary64 | libraries/eosiolib/wasmql/eosio/fpconv.c:40-57 | fraction and exponent are those of IEEE 754 binary64 |
| Grisu.Normalize | libraries/eosiolib/wasmql/eosio/fpconv.c:59-69 | shifts out the leading zeros and nothing else |
| Grisu.GetNormalizedBoundaries | libraries/eosiolib/wasmql/eosio/fpconv.c:71-95 | the boundaries, on one scale and without wrap-around, as far from the fraction as half its last bit, or a quarter below a power of two |
| Grisu.UpperMidpoint | libraries/eosiolib/wasmql/eosio/fpconv.c:71-84 | the upper boundary is exactly the midpoint to the next double |
| Grisu.LowerMidpoint | libraries/eosiolib/wasmql/eosio/fpconv.c:87-94 | the lower boundary is not below the midpoint to the double before |
| Grisu.Multiply | libraries/eosiolib/wasmql/eosio/fpconv.c:97-116 | the product is exactly rounded, with no wrap-around |
| Grisu.MultiplyError | libraries/eosiolib/wasmql/eosio/fpconv.c:97-116 | with a cached power the result is less than one unit off the exact product |
| Grisu.ScaledInterval | libraries/eosiolib/wasmql/eosio/fpconv.c:201-206 | after scaling and narrowing, the interval is still in order and wide enough for digits to be found |
| DigitGeneration.RoundDigit | libraries/eosiolib/wasmql/eosio/fpconv.c:118-126 | lowers the last digit exactly to the best candidate in the interval |
| DigitGeneration.GenerateDigits | libraries/eosiolib/wasmql/eosio/fpconv.c:128-187 | gives the shortest digits in the interval, closest to the value, at most 17, with no wrap-around |
| Grisu.BetweenMidpoints | libraries/eosiolib/wasmql/eosio/fpconv.c:71-95 | a number strictly between the midpoints around a double reads back as that double and no other |
| Grisu.GeneratedReadsBack | libraries/eosiolib/wasmql/eosio/fpconv.c:189-211 | digits found in the narrowed interval lie strictly between the midpoints |
| Grisu.Grisu2 | libraries/eosiolib/wasmql/eosio/fpconv.c:189-211 | for every positive finite double the digits and exponent read back as the double, at most 17 digits, the first not zero, the last zero exactly when a digit is dropped |
| Grisu.DropsIff | libraries/eosiolib/wasmql/eosio/fpconv.c:118-187 | the last digit is zero if and only if the boundary lies on a coarser grid and the value is close to it |
| Grisu.LastDigitCanBeZero | libraries/eosiolib/wasmql/eosio/fpconv.c:118-187 | a concrete double whose last digit is zero |
| DecimalText.EmitDenotes | libraries/eosiolib/wasmql/eosio/fpconv.c:213-284 | the text is a number as RFC 8259 has them, without leading zeros, and denotes exactly the digits times the power of ten, in every format |
| DecimalText.EmitLayout | libraries/eosiolib/wasmql/eosio/fpconv.c:213-284 | which layout digits and exponent get: digits alone, a point and no exponent, or one digit before the point and an exponent; each of its exact length |
| DecimalText.EmitDigits | libraries/eosiolib/wasmql/eosio/fpconv.c:213-284 | writes that text, a well-formed number of the value and in the layout; the clamp on the number of digits never cuts one off |
| DecimalText.EmitLength | libraries/eosiolib/wasmql/eosio/fpconv.c:213-284 | at most 24 characters without the sign, and 24 exactly for 17 digits and seven zeros |
| DecimalText.FpconvDtoa | libraries/eosiolib/wasmql/eosio/fpconv.c:311-336 | for every double the text is zero, infinity or no number by name, or else a well-formed number that reads back as the double, of at most 17 digits and an exponent, in the layout that these have; it has 25 characters if and only if there is a sign, 17 digits and seven zeros |
| DecimalText.DocumentedLengthFails | libraries/eosiolib/wasmql/eosio/fpconv.h:13-14 | a concrete double that takes 25 characters |
| Talk.PostStores | demo-talk/src/talk.cpp:14-36 | a post stores exactly one new message with the request's parent, user and text, under the id asked for or else one that is greater than all others and not below a thousand million, or is refused exactly for the named reason and changes nothing |
| Talk.PostKeepsForest | demo-talk/src/talk.cpp:14-36 | every post, accepted or refused, keeps the messages a finite forest |
| Talk.RunIsForest | demo-talk/src/talk.cpp:14-36 | so after any sequence of posts they are one |
| Talk.Contract.Post | demo-talk/src/talk.cpp:14-36 | the same of the contract's action, which also keeps the forest |
| Talk.PreorderLists | demo-talk/src/talk-server.cpp:44-83 | the preorder has each message below a parent exactly once, and no other |
| Talk.ForestListed | demo-talk/src/talk-server.cpp:44-83 | the whole preorder has every message once, parents before children |
| Talk.GetMessage | demo-talk/src/talk-server.cpp:7-42 | finds the first child with an id from the given one on |
| Talk.Process | demo-talk/src/talk-server.cpp:44-83 | a page is the next messages of the traversal that the position stands for, as many as asked for but no more than 20, there is more exactly if it is full, and its resume point stands for the rest |
| Talk.CrawlListsForest | demo-talk/src/talk-server.cpp:44-83 | after any posts, following the resume points from the empty position with any page sizes but zero ends, and the pages together are the preorder |

## Left out

- Fields of varying width in keys (varuint32 sort keys, such as the action ordinal of action traces): the serializer
  that reads them is not part of the repository.
- Query.QueryDatabase: is for queries without joins; a missing join fills in every field of the joined table while a
  found one adds only the selected fields.
- Names of queries, and of tables in messages, as strings: members take the configured table, index and limits.
- Copying a row's fields from the message into its value, transaction filters and the walk over failed transactions:
  rows enter as values. A result without a block, which changes nothing, is not modelled.
- The loops of `check`: `Crashes.CheckFindsNothing` says that what they look for is always found in order.
- Flushes of the key-value store: a stop is allowed to lose any suffix of the batches, flushed or not.
- Tags and log output, sockets, retries, timers, options, the query server and its front ends.
- The order in which `trim` goes through its keys, and RocksDB's and PostgreSQL's own workings: a batch and a commit are
  one step, and the trim's batch is the same in every order.
- Filler.FlmSession.Received: takes the node's promises as a precondition, because without them a row could be
  overwritten and leave entries behind.
- Store.ForEachSubkey: promises only that it stops at the limit if the upper bound is of bytes 255 alone or of none,
  because `inc_key` can then wrap and the scan start over; all key tags are below 255.
- Crashes.StopAnywhere: is for runs without forks, where it also covers stops during restarts;
  `ForkWindows.StopAnywhereExactly` is for all runs.
- Filler.FlmSession.ReceivedAbi: a stored head of 2^32 - 1, after which the source would truncate from block 0 on and
  take the fill status for a row.
- SqlText.SqlValue: its input is the value tree with types already flattened, not the serialized bytes; byte strings,
  plain strings at the top of a table and structures of one field there are not covered, because they bypass or double
  the escaping.
- SqlColumns.PlacedExactlyInOrder: is for names that keep their types; with fields that change type
  `SqlColumns.AlternativesArePlaced` has a sufficient condition only, since whether the printed text is right can then
  depend on later alternatives that bring a type back.
- Variants with alternatives that are not structures: the code that prints a variant takes every alternative's fields.
- The outer scan of a query is over before its rows are looked up, which comes to the same since the database does not
  change meanwhile.
- SqlColumns.ToSqlValues: a field's own printing is a parameter, since only how much input it takes matters here;
  `SqlVariants` is about fields printed as `SqlText` says. A field left empty at the top of a table is not read back:
  for columns that are not texts PostgreSQL decides what an empty field means.
- The text of SQL statements and the creation of types and tables.
- DecimalText.FpconvDtoa: the destination buffer is a growing sequence, so overruns of a caller's 24 characters show
  only as a length.
- Talk.Contract.AvailablePrimaryKey: the multi-index table it belongs to is not part of the repository; it is modelled
  as one more than the greatest id.
- Public keys, signatures and floating-point numbers inside SQL values: their printing is not part of the repository.
