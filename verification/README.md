# PipeSQL core algorithms, modelled and proved

This project models the self-contained algorithms of the PipeSQL engine and proves what
they promise: the two checksums, the shared memory account, CSV import down to native
columns, JSON Lines export, columnar batches, column sets, the bounded directory cursor,
the poisoning mutex, argument capture, and the two answer checkers. Every statement is for
all inputs, all writer and reader behaviours, or all interleavings.

`dafny verify dfyconfig.toml` checks the whole project.

| files | what they hold |
|---|---|
| Words, Crc, Bursts, Hardware, Mirrors, Crc32c, Ieee | CRC32C (section 12.1 of RFC 3720) and CRC-32 (section 8 of RFC 1952): tables, slice-by-8, CPU instructions, the forward recurrence, burst detection |
| Sums, Resources, Accounts | the memory account: one call, one handle, and every interleaving |
| Numerals, Dates, Values, Jsonl, JsonlReader | typed JSON Lines (strings: section 7 of RFC 8259), the printer and a reader that undoes it |
| Cancellation | the token a running operation checks |
| Export, ExportRun | the 1,024-byte encoder over an arbitrary writer, and whole exports |
| Input, Csv, Bitmaps, Partition, ImportColumns, Import | decoded batches, CSV batch packing, the greedy cut into native units, transposition, and the whole import loop |
| WordBits, Utf8, ColumnSet, Batch | bits of 64-bit words, character boundaries, sets of column identities, columnar batches |
| Distinct, QueryRuns, NumericJoin, JoinTables, RowOrder, SetOracle | the join checker with its generated tables, and the set-operation oracle with its checker |
| Arguments, Directory, Mutex | argument capture, directory reading, the mutex |

How the code's environment appears: a cancellation token is a script of what its checks
find, arbitrary and used up check by check; a writer is a script of replies, short, zero,
failing or larger than what it was offered; reads are lists of blocks or chunks that may fail;
a query run is a list of steps; other threads are arbitrary interference on the shared total,
or explicit steps of a state machine. Atomics are sequentially consistent, and a weak exchange
may fail spuriously. DOUBLE is its 64 bits, text is its bytes, and the CRC instructions are
specified as bit-serial updates. The native column bound, the row and byte limits and the
largest column identity are parameters; every other size is the code's own.

Four places where a first reading of the promise is too strong, and what holds instead:

- A lending of a value array that is refused (INT64 or text) has already marked the column
  present (src/batch.rs:408-413), and reading a row then slices the text by whatever span the
  row has. `Batches.LendingDecides` says exactly when no read can panic, by what was written:
  the column is not text, or where each row's last text went is, in the text written since the
  batch was last emptied, a stretch of whole characters. `Batches.StaleSpanExposed` gives a
  column with a span past the end, `Batches.CharacterCut` one whose span cuts a character, and
  `Batches.UnsafeHistories` the writes that lead there.
- An export that stops before its final flush without an output error has sent exactly the
  whole blocks if and only if no cancellation was found inside a write loop
  (`ExportRun.ExportJsonl`): neither before the first write of a block nor between two short
  ones. `Export.TornBlock` runs the encoder into each.
- A panic under a held guard ends all later grants exactly when the thread is still panicking
  as the guard is dropped (`Mutexes.PanicIsFinalExactly`, from `Mutexes.DropDecides`).
  `Mutexes.CaughtPanicLeavesNoPoison` is a run from the start in which it is not.
- A reservation can be refused for contention although the bytes would fit: undisturbed but
  for spurious failures it is granted exactly when fewer than 64 exchanges fail
  (`Accounts.SpuriousReserve`), and `Accounts.ContentionWithRoom` is such a refusal from an empty
  account. Every other refusal rests on a total the account really held.

## Model

| member | source | states |
|---|---|---|
| Crc.StepLinear | checksum/src/lib.rs:102-109 | One clock of the register is linear over XOR. |
| Crc.FoldConcat | checksum/src/lib.rs:26-50 | Checksumming a concatenation is continuing from the state after its first part. |
| Crc.FoldFlatten | checksum/src/lib.rs:26-50 | Any split of an input into slices gives the state of the whole. |
| Crc.AdvanceByte | checksum/src/lib.rs:94-122 | The table recurrence advances a state through one zero byte. |
| Crc.TableByte | checksum/src/lib.rs:73-76 | The one-table tail step is the bit-at-a-time byte step. |
| Crc.FourBytes | checksum/src/lib.rs:57-66 | Four bytes can be XORed into the state as one little-endian word and clocked together. |
| Crc.SliceByEight | checksum/src/lib.rs:53-72 | The eight-table formula is the bit-at-a-time fold of its eight bytes, for every state. |
| Crc.NextEntry | checksum/src/lib.rs:113-122 | An entry of a later table is the byte carried through one more zero byte. |
| Crc.FillNext | checksum/src/lib.rs:113-122 | The builder's outer loop makes the next table right and leaves the earlier ones alone. |
| Crc.GroupStep | checksum/src/lib.rs:56-72 | One group over the built tables gives the reference state. |
| Crc.TailStep | checksum/src/lib.rs:73-76 | One tail byte over table 0 gives the reference state. |
| Castagnoli.ClockIndex | checksum/src/lib.rs:100-110 | The inner loop clocks an index through eight bits. |
| Castagnoli.MakeTables | checksum/src/lib.rs:96-124 | The loop-built tables hold every byte carried through one to eight bytes. |
| Castagnoli.Crc32c.UpdatePortable | checksum/src/lib.rs:52-77 | For every state and length the portable loop equals the bit-at-a-time recurrence. |
| Castagnoli.Crc32c.Update | checksum/src/lib.rs:38-50 | Either path gives that same state. |
| Castagnoli.Crc32c.UpdateAll | checksum/src/lib.rs:26-50 | Slices fed through the two paths in any mixture give the state of their concatenation. |
| Castagnoli.Compute | checksum/src/lib.rs:20-24 | The one-shot call is the inverted recurrence over the whole input. |
| Castagnoli.ForwardChecksum | checksum/src/lib.rs:18-24 | The checksum is the forward recurrence of generator 0x1edc6f41 on bit-reversed bytes. |
| Castagnoli.BurstsDetected | checksum/src/lib.rs:52-83 | Equal-length inputs whose differing bits lie in one window of 32 bits never share a CRC32C. |
| Castagnoli.WindowsDetected | checksum/src/lib.rs:52-83 | Inputs that differ only inside four consecutive bytes never share a CRC32C. |
| Castagnoli.OneContinuation | checksum/src/lib.rs:52-83 | From any message exactly one four-byte continuation reaches a given CRC32C. |
| Bursts.FeedBytes | checksum/src/tests.rs:4-16 | The byte recurrence is the register fed its bits one by one. |
| Bursts.FeedLinear | checksum/src/lib.rs:52-77 | The XOR of two runs is the run of the XORed inputs from the XORed states. |
| Bursts.BurstDetected | checksum/src/lib.rs:52-77 | For any polynomial with its top bit set, a nonzero difference of at most 32 bits always shows. |
| Hardware.InstructionFolds | checksum/src/aarch64.rs:98-118 | A CRC instruction on 1, 2, 4 or 8 bytes read little-endian folds those bytes. |
| Hardware.Accelerated | checksum/src/aarch64.rs:76-118 | The 8/4/2/1 decomposition of both accelerated routines equals the recurrence. |
| Mirrors.Mirror | checksum/src/ieee.rs:97-112 | A reflected fold is the forward recurrence on reversed bytes and reversed state. |
| Ieee.MaskedStep | checksum/src/ieee.rs:73-76 | The branch-free clock with a wrapped negation is the branching one. |
| Ieee.MakeTables | checksum/src/ieee.rs:67-91 | The loop-built IEEE tables hold every byte carried through one to eight bytes. |
| Ieee.Crc32.UpdatePortable | checksum/src/ieee.rs:33-50 | The table loop equals the reflected recurrence, for every state and input. |
| Ieee.Crc32.Update | checksum/src/ieee.rs:19-31 | Every update appends its bytes, and its state is the forward 0x04c11db7 recurrence on reversed bytes and state. |
| Ieee.Crc32.Finish | checksum/src/ieee.rs:52-56 | The result is the CRC-32 of all bytes appended: the inverted mirror of the forward recurrence over them. |
| Ieee.Compute | checksum/src/ieee.rs:7-57 | Any split of an input gives the CRC-32 of the whole. |
| Ieee.ForwardChecksum | checksum/src/ieee.rs:7-57 | The checksum is the forward recurrence of generator 0x04c11db7 on bit-reversed bytes. |
| Resources.CapacityIsLeast | src/resources.rs:24-39 | Capacities above 16 KiB are the least that cover the request and end 32 bytes below a 16-KiB multiple; overflow is refused exactly when rounding overflows. |
| Resources.MemoryAuthority.Reserve | src/resources.rs:89-124 | Under arbitrary interference at most 64 exchanges are tried; a grant wins exactly one, which adds its bytes to the total it found within the limit; a refusal wins none and names a total really read. |
| Resources.MemoryAuthority.Release | src/resources.rs:128-132 | The assertion holds exactly when the bytes were reserved, which is exactly when the total falls by them; otherwise the total has wrapped. |
| Resources.Reservation.Split | src/resources.rs:217-227 | It succeeds exactly when the amount is no more than the handle has; the part has the amount and the handle the rest; otherwise nothing changes. |
| Resources.Reservation.TransferTo | src/resources.rs:231-245 | It succeeds exactly within one account, for no more than the source has and without overflow; then the amount moves; otherwise neither handle changes. |
| Resources.Reservation.ShrinkTo | src/resources.rs:249-257 | Exactly the unused bytes return to the account. |
| Resources.Reservation.Drop | src/resources.rs:260-265 | Exactly the handle's bytes return to the account. |
| Accounts.StepInv | src/resources.rs:89-265 | Every atomic step of every thread keeps the account equal to what handles and granted calls stand for. |
| Accounts.Conservation | src/resources.rs:89-265 | Under every schedule the total is within the limit, equals the charges, and no release ever underflows. |
| Accounts.QuiescentTotal | src/resources.rs:195-265 | With no call in progress the total is the sum of the live reservations. |
| Accounts.RefusalsJustified | src/resources.rs:94-123 | Every resource refusal rests on a total the account held during the call, and every contention on 64 failed exchanges. |
| Accounts.TransferNeverOverflows | src/resources.rs:238-241 | Within one account the checked addition of a transfer cannot overflow. |
| Accounts.SplitShape | src/resources.rs:217-227 | A split under any schedule gives the part the bytes asked for and leaves the rest. |
| Accounts.SendShape | src/resources.rs:195-205 | A handle that moves to another thread keeps its bytes. |
| Accounts.SoloShrink | src/resources.rs:249-257 | An undisturbed shrink leaves the handle its target and gives back exactly the excess. |
| Accounts.OwnerMay | src/resources.rs:195-265 | Which calls an idle thread may make on the handles it owns. |
| Accounts.SoloReserve | src/resources.rs:94-119 | A call that meets no interference is granted exactly when its bytes fit; otherwise its outcome is the refusal that names the total it needed, and nothing else changes. |
| Accounts.SpuriousReserve | src/resources.rs:89-124 | A call whose bytes fit and which meets only spurious failures is granted exactly when fewer than 64 exchanges fail, and is otherwise refused for contention. |
| Accounts.ContentionWithRoom | src/resources.rs:89-124 | A run from an empty account that ends in such a refusal with room for the bytes. |
| Accounts.ContentionNeedsChanges | src/resources.rs:89-124 | Without spurious failures a call is refused for contention only after 64 changes of the total while it runs. |
| Dates.ComponentsOfDays | src/value/date.rs:63-100 | Decoding the day number of a valid date gives the date. |
| Dates.DaysOfComponents | src/value/date.rs:63-100 | Every supported day number decodes to a valid date with that number. |
| Dates.CivilAccepts | src/value/date.rs:63-82 | A date is accepted exactly when it is a Gregorian date of years 1 to 9999. |
| Dates.NextDayCounts | src/value/date.rs:63-82 | Consecutive calendar days have consecutive numbers. |
| Dates.CountedFromEpoch | src/value/date.rs:63-100 | Day n is the date reached by counting n calendar days from 1970-01-01, and decodes to it. |
| Dates.ParsePrint | src/value/date.rs:47-61 | Parsing a printed date gives it back. |
| Dates.ParseExactly | src/value/date.rs:47-61 | Parsing accepts exactly the printed forms of supported dates. |
| Dates.Example | src/value/date.rs:47-61 | Day 0 is printed 1970-01-01. |
| Numerals.ReadDecimalOfDecimal | src/jsonl.rs:223 | A decimal string, sign included, reads back as its integer. |
| Numerals.ReadHexOfHex | src/jsonl.rs:224 | Sixteen hexadecimal digits read back as the same 64 bits. |
| Jsonl.Escape | src/jsonl.rs:161-190 | Escaped text holds no control byte, so no line break. |
| Jsonl.RowLine | src/jsonl.rs:77-88 | A row record holds no line break, whatever its text values. |
| JsonlReader.ReadCharsOf | src/jsonl.rs:161-190 | An escaped string reads back exactly and ends at its own quote, whatever follows it. |
| JsonlReader.CellRoundTrip | src/jsonl.rs:220-228 | Every value of a column's type reads back exactly, NULL and DOUBLE bits included. |
| JsonlReader.RowRoundTrip | src/jsonl.rs:77-88 | Every typed row reads back from its line. |
| JsonlReader.ColumnRoundTrip | src/jsonl.rs:198-216 | A column's name (or its absence), type and nullability read back. |
| JsonlReader.SchemaRoundTrip | src/jsonl.rs:192-218 | The schema line reads back as the same columns in order. |
| JsonlReader.LinesOfTerminated | docs/formats.md:145-178 | Splitting at LF recovers every record and the unterminated tail. |
| JsonlReader.Tokens | docs/formats.md:151-153 | The punctuation, names and literals printed are, byte by byte, those of the documented format. |
| JsonlReader.SchemaToken | docs/formats.md:151-153 | So is the head of the schema record. |
| JsonlReader.DocumentRoundTrip | src/jsonl.rs:161-228 | Printing any schema and typed rows, splitting at LF and parsing returns exactly them. |
| JsonlReader.CompletedMeansWhole | src/jsonl.rs:94-96 | Whatever the text values, a prefix of a document shows a completion record exactly when it is the whole document. |
| Cancellation.Token.Check | src/cancellation.rs:37-50 | A check reports a request exactly when one has been made, remembers having found it, and a cancelled token stays cancelled. |
| Export.Drain | src/export_io.rs:14-31 | The write loop never takes more than it was given, and succeeds only with everything taken. |
| Export.DrainSucceeds | src/export_io.rs:14-31 | Whatever short writes a writer makes, if it never fails, misreports or stalls and nobody cancels, everything is taken. |
| Export.DrainUsesShortWrites | src/export_io.rs:14-31 | Success means that every reply used was a short write, with no failure and no zero count among them. |
| Export.DrainCauses | src/export_io.rs:14-31 | The loop fails only for a failing reply, and stops for cancellation only when a check finds one, always before the last byte. |
| Export.CancelledInBlock | src/export_io.rs:19-21 | A cancellation before the first write of a block, or between two short writes, leaves less than the block. |
| Export.PourFacts | src/jsonl.rs:117-143 | Pouring buffered bytes sends whole blocks until a write loop stops early, which happens only for a cause and below the block count. |
| Export.TornBlock | src/jsonl.rs:117-149 | Two runs of the encoder in which a full block is admitted and a cancellation leaves the writer with none of it, or with one byte. |
| Export.Sink.WriteAll | src/export_io.rs:14-31 | The loop hands the writer exactly what the replies say was taken, uses up replies and checks accordingly, and records an early stop. |
| Export.ScalarFits | src/jsonl.rs:151-159 | No INT64, DOUBLE or DATE exceeds the formatting buffer. |
| Export.CountFits | src/jsonl.rs:95-95 | No 64-bit row count exceeds it either. |
| Export.EscapeConcat | src/jsonl.rs:161-190 | Escaping in runs is escaping the whole. |
| Export.Encoder.Put | src/jsonl.rs:117-143 | Bytes are admitted all or not at all; what the checks find, the limit and the writer's replies decide the outcome and what is sent; whole blocks are sent, except exactly when a write loop stopped early. |
| Export.Encoder.FlushBuffer | src/jsonl.rs:145-149 | The writer gains a prefix of the buffer, and all of it on success. |
| Export.Encoder.Formatted | src/jsonl.rs:151-159 | A scalar is refused exactly when it exceeds the formatting buffer. |
| Export.Encoder.String | src/jsonl.rs:161-190 | The canonical string is printed, and no failure ever admits part of an escape. |
| Export.Encoder.Schema | src/jsonl.rs:192-218 | The canonical schema record is printed, or a prefix of it. |
| Export.Encoder.Cell | src/jsonl.rs:220-228 | The canonical cell is printed, or a prefix of it. |
| Export.Encoder.Row | src/jsonl.rs:77-88 | The canonical row record is printed, or a prefix of it. |
| Export.Encoder.Complete | src/jsonl.rs:94-96 | The canonical completion record is printed, or a prefix of it. |
| ExportRun.ExportBatch | src/jsonl.rs:65-91 | Rows are printed in order, and a row-limit refusal comes after exactly the permitted rows. |
| ExportRun.ExportSteps | src/jsonl.rs:58-93 | The admitted bytes are always a prefix of the document of the rows produced. |
| ExportRun.ExportDocument | src/jsonl.rs:42-97 | Up to the final flush: the whole document is admitted, or the stop is reported with the exact bytes sent. |
| ExportRun.ExportJsonl | src/jsonl.rs:35-102 | For every run, limits, writer and token: the writer holds a prefix of the one canonical document within the byte limit; before the final flush and without an output error it holds exactly the whole blocks if and only if no write loop stopped early; completion bytes need Finished; success means the whole document, the exact row count, a successful flush and no request found by any check; a found request is always answered with cancellation; every refusal and output error has its cause. |
| ExportRun.LastChecks | src/jsonl.rs:98-100 | After the last block: a request made before the flush, then a failing flush, then a request found after it decide the outcome, in this order. |
| ExportRun.SuccessIsCertain | src/jsonl.rs:35-102 | Without cancellation or output error an export succeeds exactly when the query finishes and both limits cover its document. |
| ExportRun.CompletionOnlyAfterFinished | src/jsonl.rs:58-96 | A completion record in the output means the query finished and the document is whole. |
| ExportRun.SuccessReadsBack | src/jsonl.rs:25-34 | A successful export parses to the schema and exactly the rows the query produced. |
| Input.TextBytesIsLength | src/batch/input.rs:41-66 | The byte count of a cell is the length of the text it reads as. |
| Input.MadeReads | src/batch/input.rs:17-66 | A cell made of a value reads as that value, wherever its text lies. |
| Csv.RowsOfConcat | src/csv.rs:219-273 | Consecutive ranges of rows concatenate. |
| Csv.PushCell | src/csv.rs:256-268 | Moving a cell's text to the batch arena keeps its value and every earlier one. |
| Csv.CsvDecoder.ReadRow | src/csv.rs:235-245 | A record is read, or refused: unreadable, at the row limit or untyped, in that order of checks and about the record it stops at. |
| Csv.CsvDecoder.AppendRow | src/csv.rs:256-270 | The batch gains exactly the held row's values. |
| Csv.CsvDecoder.FillBatch | src/csv.rs:219-273 | A batch is exactly the next rows, within both limits, ended by the limit, the end of input, or a row that does not fit. |
| Csv.CsvDecoder.NextBatch | src/csv.rs:200-217 | Batches are exactly the next rows, never empty before the end; each error is explained by the row it stops at, the header or a found cancellation request, and is permanent; there is a check for each record read, one before and one after. |
| Partition.FitsWithin | src/import_columns.rs:104-131 | Rows that fit a unit still fit when cut on either side. |
| Partition.AddRow | src/import_columns.rs:113-128 | One more row is taken exactly when every STRING column still fits with it. |
| Partition.NextEnd | src/import_columns.rs:104-131 | Each call takes as many rows as fit and at least one, refuses a row that fits no unit, or stops exactly when a check finds a cancellation request; every row looked at has its check. |
| Partition.GreedyStaysAhead | src/import_columns.rs:104-131 | Greedy pieces are never more than those of any valid cutting. |
| Partition.PiecesHoldEachRow | src/import_columns.rs:104-131 | A valid cutting exists only if each row fits alone. |
| Partition.CutBatch | src/csv/import.rs:98-103 | Unless a cancellation request is found, repeated calls cover the batch with the fewest valid pieces, or refuse a batch that has no valid cutting. |
| ImportColumns.PackedChunk | src/import_columns.rs:152-159 | A column's slots lie at its recorded start in its type's vector. |
| ImportColumns.MarkNext | src/import_columns.rs:160-164 | Setting a row's bit changes that bit of that column only. |
| ImportColumns.LentIsFaithful | src/import_columns.rs:184-196 | Slots and bits of a lent column read back as the batch's cells, NULL slots are zero or empty, and trailing bits are clear; bit k of a byte is the k-th of its binary numeral. |
| Bitmaps.MaskIsPower | src/import_columns.rs:163 | The mask of bit k is 2 to the k. |
| Bitmaps.TestMask | src/storage/unit.rs:112-114 | Testing with the mask reads the k-th binary digit of the byte. |
| ImportColumns.Columns.Push | src/import_columns.rs:165-177 | A cell goes to its type's vector, NULL as the type's zero; another type is refused. |
| ImportColumns.Columns.PackColumn | src/import_columns.rs:160-178 | One column is packed exactly, or refused for a cell of another type. |
| ImportColumns.Columns.Write | src/import_columns.rs:133-198 | Any range of rows is lent losslessly, refused because a cell differs from its schema, or stopped exactly when a check finds a cancellation request; on every exit no vector exceeds its charged capacity. |
| Import.RowsBackAreRows | src/import_columns.rs:180-197 | A lent unit reads back row by row as the batch's rows. |
| Import.LentWithinBound | src/import_columns.rs:113-128 | Every STRING column really lent takes at most the native bound. |
| Import.ImportBatch | src/csv/import.rs:97-104 | A batch is stored whole, in order, in the fewest units that respect the bound, when each row fits; otherwise it is refused. |
| Import.FilledFits | src/csv/import.rs:97-104 | A row of a batch fits a unit exactly when the record it came from does. |
| Import.ImportCsv | src/csv/import.rs:89-113 | Exactly a cancellation request found by a check cancels an import, and one made before it begins always does; otherwise it succeeds exactly when the input is importable and every record fits a unit, and then exactly the typed rows have been lent, in order. |
| WordBits.HasInsert | src/batch.rs:470 | Setting a bit sets that bit only. |
| WordBits.HasRemove | src/batch.rs:450 | Clearing a bit clears that bit only. |
| WordBits.LowCovered | src/batch.rs:131-133 | A word covers the low mask exactly when all those bits are set. |
| WordBits.AllSet | src/batch.rs:130 | A word is all ones exactly when every bit is set. |
| WordBits.ClearLowest | src/query/column_set.rs:31-34 | Clearing with w and w minus one removes exactly the least member. |
| ColumnSets.ColumnSet.Insert | src/query/column_set.rs:40-42 | Insertion adds exactly that identity. |
| ColumnSets.ColumnSet.Contains | src/query/column_set.rs:44-47 | Membership is membership, for every identity in or out of range. |
| ColumnSets.ColumnSet.OrAssign | src/query/column_set.rs:59-65 | Word-wise OR is union. |
| ColumnSets.ColumnSet.Intersect | src/query/column_set.rs:67-76 | Word-wise AND is intersection. |
| ColumnSets.ColumnSet.Len | src/query/column_set.rs:21-23 | The summed bit counts are the cardinality. |
| ColumnSets.ColumnSet.Iterate | src/query/column_set.rs:25-38 | Iteration yields each member once, in increasing order, one cleared bit per member. |
| Batches.StoredReads | src/batch.rs:440-472 | An accepted write changes the cell it names and no other, replaced and out-of-order text included. |
| Batches.ClearedReads | src/batch.rs:328-336 | An emptied column is all NULL and safe to read. |
| Batches.LendingDecides | src/batch.rs:399-416 | By what was written: a marking leaves every row readable exactly when the column is not text or each row's last text went where whole characters of the text since the last emptying now are. |
| Batches.MarkedChanges | src/batch.rs:399-416 | A safe marking leaves every cell as it read exactly when the column had no NULL. |
| Batches.StaleSpanExposed | src/batch.rs:399-416 | A written and emptied text column is one where a marked row's span lies outside the text. |
| Batches.CharacterCut | src/batch.rs:107-110 | A column whose stale span is inside the refilled text and cuts a character of it. |
| Batches.UnsafeHistories | src/batch.rs:399-416 | The writes that lead to either. |
| Utf8.BoundaryMeans | src/batch.rs:107-110 | The boundaries of a text are exactly the places between its characters. |
| Batches.PrefilledReads | src/batch.rs:397-413 | Filling the first rows of a lent array changes those cells to the values filled in, and no other. |
| Batches.RequireNonnull | src/batch.rs:127-137 | The word-level NULL check agrees with looking at every row. |
| Batches.StoreCell | src/batch.rs:448-471 | A write is refused for exactly the stated reasons and otherwise stored. |
| Batches.RefusesExactly | src/batch.rs:448-471 | Which values each kind of column accepts, and how it refuses the others. |
| Batches.HeldType | src/batch.rs:380-385 | The type reported for a column is the type of the values it holds. |
| Batches.Batch.Set | src/batch.rs:440-472 | Every cell still reads as last written; a refused write changes nothing. |
| Batches.Batch.Clear | src/batch.rs:328-336 | Every cell is NULL again and the batch is consistent, whatever a refused lending had exposed before. |
| Batches.Batch.Publish | src/batch.rs:340-343 | Only the visible row count changes. |
| Batches.Batch.Get | src/batch.rs:345-360 | A published cell is the last value written to it; nothing exists past the published rows. |
| Batches.Batch.Validity | src/batch.rs:370-395 | Lent bits say which cells are NULL; a wrong type or a NULL in a required column is refused. |
| Batches.Batch.Strings | src/batch.rs:431-438 | Lent keys are exactly the published values of a key column without NULL. |
| Batches.Batch.NonnullColumn | src/batch.rs:399-416 | Its exact effect, refused or not: the array's old contents become the column's cells, and the batch stays consistent exactly when the index or count is out of range or the writes so far let the column be marked. |
| Batches.Batch.EndLending | src/batch.rs:397-413 | The values left in the lent slice are the cells of its rows, and the batch stays consistent. |
| Batches.Batch.FillColumn | src/execution/scan.rs:306-318 | A producer that borrows and fills a column leaves a consistent batch whose first rows read as filled, with every other column as it was. |
| Distinct.Pigeonhole | examples/numeric_join.rs:303-304 | Distinct members of a duplicate-free sequence, as many as it has, are a permutation of it. |
| NumericJoin.PartnersOfFact | examples/numeric_join.rs:106-150 | Which dimensions meet a fact's key, in order. |
| NumericJoin.JoinIsExpected | examples/numeric_join.rs:56-72 | The expected rows are, as a multiset, the SQL inner or left join of the generated tables. |
| NumericJoin.ExpectedDistinct | examples/numeric_join.rs:273-275 | No expected row occurs twice. |
| NumericJoin.IdentifiedOrStranger | examples/numeric_join.rs:236-272 | A row passes the local checks exactly when it is an expected row. |
| NumericJoin.RecordNext | examples/numeric_join.rs:273-275 | A slot's flag is set exactly when its row was already accepted. |
| NumericJoin.ExpectedRows | examples/numeric_join.rs:62-72 | The count is the number of rows of the true join. |
| NumericJoin.CheckBatch | examples/numeric_join.rs:235-277 | Accepted rows are distinct expected rows; a rejection points at a stranger or a repeat. |
| NumericJoin.Execute | examples/numeric_join.rs:185-304 | For all positive keys and matches, the checker accepts exactly when the run finishes with four columns and its rows are a permutation of the true join. |
| JoinTables.WriteBatch | examples/numeric_join.rs:103-167 | A written batch reads back through its bitmaps, least significant bit first, as its rows of the table; its key and value bitmaps have clear trailing bits, its identity bitmap exactly when its size is a multiple of eight. |
| JoinTables.WriteTable | examples/numeric_join.rs:75-173 | The written batches are exactly the table the join is defined on, and storage accepts their bitmaps exactly when the table has a multiple of eight rows. |
| QueryRuns.ReachNext | examples/numeric_join.rs:228-299 | How one step extends the rows seen and decides completion. |
| RowOrder.Trichotomy | examples/set_cost.rs:73-77 | The row order is total: below, equal or above, and equal only to itself. |
| RowOrder.Transitive | examples/set_cost.rs:73-77 | The row order is transitive, NULL first. |
| RowOrder.RowsOrder | examples/set_cost.rs:73-77 | Keys decide before texts, NULL is below every value, and texts are ordered by their first differing byte with proper prefixes first. |
| SetOracle.Count | examples/set_cost.rs:99-105 | The sorted counts are the input's multiset. |
| SetOracle.CombineMeans | examples/set_cost.rs:107-119 | Combined counts are the set or multiset difference or intersection. |
| SetOracle.DifferenceAndIntersection | examples/set_cost.rs:111-116 | The oracle's EXCEPT and INTERSECT answers add up to the left input, ALL and DISTINCT alike, and its intersections do not depend on the order of the inputs. |
| SetOracle.ExpectedRows | examples/set_cost.rs:98-122 | The oracle is the operation's meaning on the two input multisets. |
| SetOracle.Search | examples/set_cost.rs:253-258 | Binary search by key then text finds a row exactly when it is expected. |
| SetOracle.TallyDone | examples/set_cost.rs:281-288 | The final comparison holds exactly when the answer is complete. |
| SetOracle.DecodeInverts | examples/set_cost.rs:238-248 | A result row is decoded to an expected row exactly when it is the INT64 or NULL and the STRING or NULL that stand for it. |
| SetOracle.AnswersEncoded | examples/set_cost.rs:238-248 | An answer is exactly the multiset of the result rows that stand for the expectation. |
| SetOracle.Execute | examples/set_cost.rs:201-289 | A run is accepted exactly when it finishes with two columns and its rows are, as a multiset, the result rows of the expectation. |
| Directories.DecodeInverts | filesystem/src/lib.rs:407-435 | Decoding recovers name, length and vacancy of any entry the kernel can lay out, whatever follows. |
| Directories.DecodeExactly | filesystem/src/lib.rs:407-435 | A record is decoded exactly when it is well formed, and every malformed one is refused. |
| Directories.LaidReads | filesystem/src/lib.rs:303-337 | A block of laid-out entries is read as exactly those entries, and the live ones are those with an inode number and a name other than the two dots. |
| Directories.Directory.Refill | filesystem/src/lib.rs:307-313 | A refill keeps the entries still to come, or finds the end or a failure. |
| Directories.Directory.Examine | filesystem/src/lib.rs:314-331 | One record is consumed within the buffer, or found malformed. |
| Directories.Directory.Advance | filesystem/src/lib.rs:303-337 | One call examines at most 65 records and does at most 65 reads, and answers the first live name, the end, or a refusal. |
| Directories.AnswersExclude | filesystem/src/lib.rs:303-337 | The answers exclude each other, so each is given exactly when its condition holds. |
| Directories.Directory.NextName | filesystem/src/lib.rs:287-301 | The end and every error are final. |
| Directories.Directory.List | filesystem/src/lib.rs:239-301 | Repeated calls yield each live name once, in order: all of them exactly when the directory ends, the total limit covers its entries and no 65 in a row are to be skipped; otherwise a prefix. |
| Mutexes.StepInv | filesystem/src/mutex.rs:116-228 | Every step keeps guards and native lock in agreement. |
| Mutexes.AtMostOneGuard | filesystem/src/mutex.rs:116-152 | In every interleaving at most one guard exists and it holds the lock. |
| Mutexes.AttemptDecides | filesystem/src/mutex.rs:116-137 | An attempt finds the mutex busy exactly when a guard exists, and acquires it otherwise. |
| Mutexes.OnlyCheckReturns | filesystem/src/mutex.rs:139-151 | A guard reaches its caller only through its own poison check and only when that finds no poison; otherwise the check refuses it. |
| Mutexes.PoisonIsFinal | filesystem/src/mutex.rs:139-151 | Once poisoned, no acquisition ever returns a guard. |
| Mutexes.PoisonedHandsOutNothing | filesystem/src/mutex.rs:139-151 | In any run from a poisoned state no guard comes into a caller's hands. |
| Mutexes.HeldRun | filesystem/src/mutex.rs:116-152 | While a guard is held nothing is granted and nothing poisons, whatever the other threads do. |
| Mutexes.NextAcquisition | filesystem/src/mutex.rs:139-189 | The acquisition after a drop is granted exactly when the drop left no poison. |
| Mutexes.DropDecides | filesystem/src/mutex.rs:180-189 | A drop ends all later grants exactly when its thread is panicking then and was not at acquisition. |
| Mutexes.PoisonedExactly | filesystem/src/mutex.rs:139-189 | From acquisition to drop: the drop poisons exactly when the acquiring thread is panicking at the drop and was not at the acquisition. |
| Mutexes.GrantNeedsCalmDrop | filesystem/src/mutex.rs:8-11 | After an acquisition by a thread that was not panicking, a run grants again only if the guard is dropped while its thread is not panicking. |
| Mutexes.PanicIsFinalExactly | filesystem/src/mutex.rs:8-11 | A panic begun under a held guard ends all grants exactly when the thread is still panicking at the drop. |
| Mutexes.CaughtPanicLeavesNoPoison | filesystem/src/mutex.rs:180-189 | A run from the start in which a panic is caught under a guard and the next acquisition is granted. |
| Mutexes.HolderBlocks | filesystem/src/mutex.rs:116-152 | Whoever has the native lock, a refused guard included, keeps every acquisition out until its own unlock, in any run. |
| Mutexes.RefusedIsReleased | filesystem/src/mutex.rs:139-189 | A refused guard stays refused until its drop, and its unlock frees the lock without changing the poison. |
| Mutexes.RefusalReleases | filesystem/src/mutex.rs:139-151 | A refused acquisition never reaches its caller and gives the native lock back. |
| Mutexes.ForgottenIsNeverDestroyed | filesystem/src/mutex.rs:192-228 | A forgotten guard keeps the lock held and the storage undestroyed for ever. |
| Mutexes.ReleaseDecides | filesystem/src/mutex.rs:205-227 | Storage is leaked exactly when a guard was forgotten, and destroyed only unlocked. |
| Arguments.SplitRejoins | src/cli/arguments.rs:140-158 | Splitting at NUL loses nothing. |
| Arguments.SplitInverts | src/cli/arguments.rs:140-158 | Splitting inverts NUL-joining for any argument bytes. |
| Arguments.DoomedStays | src/cli/arguments.rs:136-155 | Once a bound is exceeded no later bytes can make the stream acceptable. |
| Arguments.ReadArguments | src/cli/arguments.rs:118-164 | Capture depends on the bytes and not on how reads are chunked, and equals the bounded split of the stream. |
| Arguments.CopyNative | src/cli/arguments.rs:76-108 | Pointer capture equals the argument list, or refuses for a null, a count or a length. |
| Arguments.CopyString | src/cli/arguments.rs:91-105 | A string is copied through its NUL, or refused when longer than 4,096 bytes. |
| Arguments.PointersRead | src/cli/arguments.rs:71-76 | A NUL-terminated vector stands for the arguments it was made from. |
| Arguments.CapturesAgree | src/cli/arguments.rs:118-164 | Both captures agree on every argument list within the 4 MiB stream bound. |

## Left out

- Storage publication, recovery, snapshots and the catalog, query parsing, binding and operators, and Parquet codecs.
- CSV record splitting and field typing (src/csv/record.rs, src/csv/typed.rs): records arrive as typed rows, untyped rows or read errors, and error offsets are not modelled.
- The nullability of CSV columns, which field typing decides.
- UTF-8 validity: text is any sequence of bytes, and escaping treats bytes above 127 as they are.
- Batches.Batch.Set: of the validity of a text it is only assumed that it begins with a whole character, as every `str` does.
- DATE shifting by months and years, and INTERVAL arithmetic.
- TemporaryAuthority, which runs the same exchange loop without handles, and direct releases that bypass a handle.
- buffer_charge and the byte charges of the import and batch buffers; what is proved is that no vector outgrows its charged element count.
- Allocation failures, and the bound on the usize sums of text lengths.
- The CPU capability probe: an update is told whether the instructions are available.
- An export of a batch with a missing cell, and the reservation and execution errors before an export begins.
- ExportRun.ExportJsonl: a query run is a finite list of steps, and one that breaks off without a terminal step counts as failed.
- NumericJoin.Execute: a run is the steps within the checker's bound of 20 million; sampling of memory, time and scratch is not modelled.
- SetOracle.Execute: the same, and the standard library's ordered map and binary search are modelled by sorted sequences and a textbook search.
- The input generator of examples/set_cost.rs: the oracle and checker are proved for any two inputs.
- Batches.Batch: columns are values that the batch reassigns, as they are owned by it; construction and its limits on text capacity are not modelled.
- ImportColumns.Columns.Write: the STRING descriptors are a field that each write empties, instead of a vector allocated per write.
- Directory entries of macOS, path opening and the native reads behind a block.
- Directories.Directory.constructor: opening refuses a zero record limit; here that is a precondition.
- Directories.Directory.Advance: record lengths are read little-endian.
- Arguments.ReadArguments: which of several refusals is reported may depend on chunking, as it does in the code.
- Native mutex errors other than busy, waiting, fairness and the protected value itself.
- Fixed operating-system, container, supervisor, timing and measurement code.
