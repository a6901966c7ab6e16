# Verification of the compartarenta services and database worker

This project models, in Dafny, the parts of the repository where state and arithmetic are hardest to get right, and proves what they promise.

- **Big integers of the database worker** (`DigitArithmetic`, `DigitRoutines`, `BigDivision`, `BigIntegers`, `BigIntRuntime`, `DecimalText`, `NumberText`): numbers as arrays of 16-bit digits changed in place. Long division with a digit estimate and at most two corrections is exact; the memo shared by quotient and remainder never gives a stale answer; printing and parsing are inverse.
- **Write-behind file system of the worker** (`BlockStore`, `WriteBehind`, `PendingGrowth`, `IndexedDbFiles`): files in memory, a queue that merges and drops items as they come in, 4096-byte blocks in the browser's database. For each name an invariant ties the stored file, the changes still queued and the visible contents; when the queue has drained, a reload shows the visible files.
- **UTF-8 codec of the worker** (`Utf8`, `Utf8Codec`): the decoder's automaton accepts exactly the byte strings of RFC 3629, and encoder and decoder invert each other exactly where they can.
- **Message codec of the worker** (`DriftCodec`): which requests, responses and errors arrive as they were sent.
- **Reminder scheduler of the relay** (`FireTimes`, `QaReminderDates`, `ReminderBooks`, `ReminderTables`, `ReminderStore`, `ReminderRuns`, `ReminderLaws`, `ReminderCron`, `TimeOrder`): rows by id stand for a book of outcomes by (target, instant); each transaction is proved to have its meaning on the book, and the book's laws hold over every run of the store's calls.
- **Mailbox of the relay** (`ByteStrings`, `MailboxRules`, `MailboxRuns`, `Mailbox`): routing pairs, idempotent submission, expiry and totals. Each call is a step on the tables; conservation of envelopes, spacing of acceptances and refusal after a disconnect hold over every run of calls, and the answer to each submission and the contents of each inbox follow from the calls before.
- **Rate limiter of the relay** (`TokenBucket`): what is let through in any stretch of time is bounded from above, and a request is refused only where that bound leaves no room.
- **Housing entitlement** (`HousingRules`, `HousingMigration`, `HousingRuns`, `HousingLaws`, `HousingService`): five plan states, trials used once, migration of identities. The laws hold over every run of the service's calls.

Code that the source writes as objects changed by their methods is a class here; each method is proved against a function of the old state, and the laws are proved about that function.

Some results were not what the source suggests, and are stated exactly:

- Reconciling a target again with the same terms, or recomputing again for the same zone, at any later moment withdraws every pending reminder of it, because an instant that has a row is never scheduled again (`ReconcileAgainSilences`, `RecomputeAgainSilences`).
- A truncation that grows a file, and a write beyond its end, can bring back old bytes in the stored file (`GrowingTruncatePending`, `SparseWritePending`).
- In a time zone that skips a midnight the overdue reminder can coincide with the due-day one (`OverdueFollowsExactly`), and the due-day reminder can come a day early (`FiresOnDateExactly`, `SkippedMidnightComesEarly`); the script for expected dates then disagrees with the relay (`SkippedMidnightNotMirrored`).
- Migrating an installation to itself deletes its record and forgets its used trial, so that it can start another (`ApplyFits`, `SelfMigrationAllowsTwoTrials`).
- The limiter's eviction is visible for rates below one token per ten minutes (`EvictionInvisibleExactly`).
- A string that starts with a byte order mark loses it when decoded (`RoundTripExactly`).

`dafny verify dfyconfig.toml` checks the project.

## Model

| member | source | states |
|---|---|---|
| DigitRoutines.Normalize | mobile/web/drift_worker.dart.js:2371-2371 | Drops leading zero digits without changing the number; the digit left on top is not zero. |
| DigitRoutines.CloneDigits | mobile/web/drift_worker.dart.js:2372-2374 | Copies a range of digits, zero-filled to the asked length. |
| DigitRoutines.ShiftDigitsLeft | mobile/web/drift_worker.dart.js:2423-2429 | Moving digits up by n positions multiplies the number by 65536^n. |
| DigitRoutines.ShiftBitsLeft | mobile/web/drift_worker.dart.js:2430-2436 | Shifting by less than a digit multiplies by 2^m exactly, the carried-out bits landing in the digit above. |
| DigitRoutines.ShiftLeft | mobile/web/drift_worker.dart.js:2430-2443 | A left shift by any number of bits multiplies by that power of two. |
| DigitRoutines.ShiftRight | mobile/web/drift_worker.dart.js:2444-2450 | The digits shifted are 2^(n mod 16) times the result plus the bits that fall out. |
| DigitRoutines.Compare | mobile/web/drift_worker.dart.js:2451-2453 | The sign of the result is the order of the two numbers, for digit strings without leading zeros of any two lengths. |
| DigitRoutines.Add | mobile/web/drift_worker.dart.js:2454-2462 | The digits written, one more than the longer operand has, are the sum of the two numbers. |
| DigitRoutines.Sub | mobile/web/drift_worker.dart.js:2463-2470 | The digits written are the difference, plus 65536^n when the first number is the smaller; the result may overwrite the first operand. |
| DigitRoutines.MulAdd | mobile/web/drift_worker.dart.js:2471-2482 | Adds a digit times a number into a window of an array: the window grows by exactly the product, and nothing outside it changes. |
| DigitRoutines.PropagateCarry | mobile/web/drift_worker.dart.js:2478-2482 | The carry left after the last column dies out inside the window when the sum fits. |
| DigitRoutines.PartialSumFits | mobile/web/drift_worker.dart.js:2473-2477 | Every partial sum digit*digit+digit+carry stays within 2^32-1 and its carry within a digit. |
| DigitRoutines.EstimateQuotientDigit | mobile/web/drift_worker.dart.js:2483-2487 | The estimate is the two top digits over the divisor's top digit, capped at 65535. |
| BigDivision.EstimateIsClose | mobile/web/drift_worker.dart.js:2483-2487 | For a normalized divisor the estimated digit is never too small and at most two too large. |
| BigDivision.GuessIsClose | mobile/web/drift_worker.dart.js:7731-7735 | The same bound for the digits actually inspected in the window of the running remainder. |
| BigDivision.TakeBack | mobile/web/drift_worker.dart.js:7733-7735 | Adding the divisor back corrects one unit of overestimate without touching digits outside the window. |
| BigDivision.DivideStep | mobile/web/drift_worker.dart.js:7731-7735 | One round finds the exact quotient digit with at most two corrections: the window afterwards holds the remainder of the window, below the divisor. |
| BigDivision.LongDivision | mobile/web/drift_worker.dart.js:7718-7735 | In place, the low digits end as the remainder and the high digits as the quotient of the number that was there. |
| BigIntegers.TruncatedDivisionLaw | mobile/web/drift_worker.dart.js:7691-7706 | Quotient truncated toward zero and remainder with the dividend's sign are the only pair with x = q*d + r and a remainder smaller than the divisor in magnitude. |
| BigIntegers.Make | mobile/web/drift_worker.dart.js:2371-2371 | Wrapping digits drops leading zeros and the sign of zero. |
| BigIntegers.Negate | mobile/web/drift_worker.dart.js:7590-7595 | Negation negates the value. |
| BigIntegers.FromInt | mobile/web/drift_worker.dart.js:2382-2398 | Every machine integer, negative ones and the smallest included, is represented by its value. |
| BigIntegers.AddMagnitudes | mobile/web/drift_worker.dart.js:7649-7657 | Sum of magnitudes with the given sign. |
| BigIntegers.SubMagnitudes | mobile/web/drift_worker.dart.js:7658-7665 | Difference of magnitudes, the first at least the second, with the given sign. |
| BigIntegers.Plus | mobile/web/drift_worker.dart.js:7666-7673 | Exact sum for every combination of signs and lengths. |
| BigIntegers.Minus | mobile/web/drift_worker.dart.js:7674-7681 | Exact difference for every combination of signs and lengths. |
| BigIntegers.Multiply | mobile/web/drift_worker.dart.js:7682-7690 | Exact product for all lengths and signs. |
| BigIntRuntimes.BigIntRuntime.Divide | mobile/web/drift_worker.dart.js:7707-7742 | The quotient and shifted remainder are in the memo afterwards, whether recomputed or kept from the same operands. |
| BigIntRuntimes.BigIntRuntime.Recompute | mobile/web/drift_worker.dart.js:7709-7742 | Normalizes, divides in place and stores what belongs to these operands. |
| BigIntRuntimes.BigIntRuntime.NormalizeOperands | mobile/web/drift_worker.dart.js:7709-7721 | Both numbers are multiplied by one power of two below 2^16 so that the divisor's top bit is set; the dividend is copied. |
| BigIntRuntimes.BigIntRuntime.MemoizedQuotient | mobile/web/drift_worker.dart.js:7695-7698 | The quotient read from the memo is the quotient a fresh division would give. |
| BigIntRuntimes.BigIntRuntime.MemoizedRemainder | mobile/web/drift_worker.dart.js:7702-7706 | The remainder read from the memo, shifted back, is the remainder a fresh division would give. |
| BigIntRuntimes.BigIntRuntime.Quotient | mobile/web/drift_worker.dart.js:7691-7698 | Truncated quotient for every dividend and nonzero divisor. |
| BigIntRuntimes.BigIntRuntime.Remainder | mobile/web/drift_worker.dart.js:7699-7706 | Remainder with the dividend's sign for every dividend and nonzero divisor. |
| BigIntRuntimes.BigIntRuntime.ToText | mobile/web/drift_worker.dart.js:7750-7766 | The printed text is the canonical decimal text: no superfluous zero, inner chunks padded to four digits. |
| BigIntRuntimes.BigIntRuntime.ParseDigits | mobile/web/drift_worker.dart.js:2338-2344 | Reading four characters at a time gives the number the digits stand for, negated on demand. |
| BigIntRuntimes.BigIntRuntime.ParseHex | mobile/web/drift_worker.dart.js:2347-2359 | Packing four hexadecimal characters to a digit gives the number they stand for. |
| BigIntRuntimes.BigIntRuntime.Parse | mobile/web/drift_worker.dart.js:2360-2370 | Succeeds exactly on optional space, sign and decimal or 0x digits, with the number they stand for. |
| BigIntRuntimes.BigIntRuntime.PrintThenParse | mobile/web/drift_worker.dart.js:7750-7766 | Printing and reading back returns the same integer for every value. |
| NumberText.PrintedTextReadsBack | mobile/web/drift_worker.dart.js:2360-2370 | The decimal text of any integer reads as that integer and has no leading zero. |
| NumberText.HexFour | mobile/web/drift_worker.dart.js:2347-2359 | Four more hexadecimal characters multiply the number by 65536 and add their own value. |
| DecimalText.DecimalRoundTrip | mobile/web/drift_worker.dart.js:2338-2344 | The digits of a number have that number as value. |
| DecimalText.ChunkOff | mobile/web/drift_worker.dart.js:7753-7765 | A number's text is the text of its quotient by 10000 followed by the remainder padded to four digits. |
| BlockStore.BlockWriter.Touch | mobile/web/drift_worker.dart.js:11946-11959 | Touching a block starts from the bytes of the base view, zero behind its end, and lays the piece in. |
| BlockStore.BlockWriter.AddWrite | mobile/web/drift_worker.dart.js:11947-11955 | Cutting a write at block boundaries lays exactly its bytes over the blocks and extends the length to its end. |
| BlockStore.LastCoveringWriteDecides | mobile/web/drift_worker.dart.js:11947-11955 | A byte laid over by any list of writes is the one of the last write covering it, wherever that stands in the list. |
| BlockStore.UncoveredByte | mobile/web/drift_worker.dart.js:11947-11955 | A byte that no write of the list covers is the base's, zero behind its end. |
| WriteBehind.DrainedAgrees | mobile/web/drift_worker.dart.js:12006-12031 | With nothing pending, what is stored under a name is what is visible under it. |
| WriteBehind.CarryOutKeeps | mobile/web/drift_worker.dart.js:11967-11971 | Carrying out the oldest pending change keeps store, pending changes and visible contents in step. |
| WriteBehind.CreateKeeps | mobile/web/drift_worker.dart.js:12125-12136 | Queueing a creation keeps them in step. |
| WriteBehind.DeleteKeeps | mobile/web/drift_worker.dart.js:12100-12112 | Queueing a deletion keeps them in step. |
| WriteBehind.CutBackKeeps | mobile/web/drift_worker.dart.js:12106-12111 | Dropping a queued creation together with its deletion keeps them in step. |
| WriteBehind.DropWritesKeeps | mobile/web/drift_worker.dart.js:12105-12108 | Dropping queued writes of a file about to be deleted keeps them in step. |
| WriteBehind.TruncateKeeps | mobile/web/drift_worker.dart.js:12060-12063 | Queueing a truncation that does not grow the file keeps them in step. |
| WriteBehind.WriteKeeps | mobile/web/drift_worker.dart.js:12066-12079 | Queueing a write at or before the end keeps them in step although its base is a live view of a changing buffer. |
| WriteBehind.MergedWriteKeeps | mobile/web/drift_worker.dart.js:12138-12140 | Merging a write into a queued write of the same file keeps them in step. |
| WriteBehind.GrowingTruncateExact | mobile/web/drift_worker.dart.js:11858-11879 | With nothing pending, lengthening by truncation is faithful if and only if no old byte is left behind the end in the last block. |
| WriteBehind.SparseWriteExact | mobile/web/drift_worker.dart.js:11833-11857 | With nothing pending, a write starting beyond the end is faithful if and only if the gap holds no old byte outside the blocks it touches. |
| WriteBehind.TruncatedByteComesBack | mobile/web/drift_worker.dart.js:11858-11879 | A concrete run from a new file: one byte written, cut to nothing, lengthened again; the store shows the old byte where memory shows zero. |
| WriteBehind.SparseByteComesBack | mobile/web/drift_worker.dart.js:11833-11857 | The same cut file written beyond its end, in another block: the store shows the old byte. |
| WriteBehind.WriteToMissingIsLost | mobile/web/drift_worker.dart.js:11983-12005 | Whatever is stored and queued for a name that is not visible, once it and a later write are carried out nothing is stored, and no contents agree with it. |
| PendingGrowth.BytesCarriedThrough | mobile/web/drift_worker.dart.js:11967-11971 | What is stored at each position, inside the file or behind its end, after any list of changes has been carried out. |
| PendingGrowth.GrowingTruncatePending | mobile/web/drift_worker.dart.js:12060-12063 | Behind any pending changes, lengthening by truncation is faithful once all is carried out if and only if these leave no old byte behind the end in the last block. |
| PendingGrowth.SparseWritePending | mobile/web/drift_worker.dart.js:12066-12079 | Behind any pending changes, a write beyond the end queued on its own is faithful if and only if these leave no old byte in the gap outside the blocks it touches. |
| PendingGrowth.MergedSparseWrite | mobile/web/drift_worker.dart.js:12138-12140 | Merged into the file's last pending write, it is faithful if and only if the changes before that write leave no old byte in the gap outside the blocks either touches. |
| IndexedDbFiles.IndexedDbFileSystem.DrainedStoreMatches | mobile/web/drift_worker.dart.js:11962-11971 | Once the queue has drained the store holds exactly the files that are not temporary, with their contents. |
| IndexedDbFiles.IndexedDbFileSystem.Submit | mobile/web/drift_worker.dart.js:11963-11971 | The item joins its file's pending changes in one of the ways above; what is visible and stored, and every other file, is unchanged. |
| IndexedDbFiles.IndexedDbFileSystem.MergeWrite | mobile/web/drift_worker.dart.js:12138-12144 | The file's pending changes gain exactly this write, at their end or merged into their last write; other files' are unchanged. |
| IndexedDbFiles.IndexedDbFileSystem.MergeDelete | mobile/web/drift_worker.dart.js:12101-12112 | The file's pending changes are cut back to a prefix followed by the deletion, or to one where a creation was cut off or a deletion is last already; other files' are unchanged. |
| IndexedDbFiles.IndexedDbFileSystem.Resize | mobile/web/drift_worker.dart.js:12546-12556 | Shrinking zeroes what is given up; growing keeps the contents and zero-fills, in a new array when capacity is short. |
| IndexedDbFiles.IndexedDbFileSystem.Splice | mobile/web/drift_worker.dart.js:10832-10833 | Bytes laid into a buffer overwrite exactly their range, the buffer growing with zeros when needed. |
| IndexedDbFiles.IndexedDbFileSystem.Put | mobile/web/drift_worker.dart.js:10829-10833 | Memory after a write is the old contents overwritten; every other file's memory is unchanged. |
| IndexedDbFiles.IndexedDbFileSystem.WriteTo | mobile/web/drift_worker.dart.js:12066-12079 | The visible contents become the overwritten ones, all other files are untouched, and agreement is kept for writes at or before the end. |
| IndexedDbFiles.IndexedDbFileSystem.TruncateTo | mobile/web/drift_worker.dart.js:12060-12063 | The visible contents are cut or zero-extended, and agreement is kept when the file does not grow. |
| IndexedDbFiles.IndexedDbFileSystem.OpenFile | mobile/web/drift_worker.dart.js:12037-12044 | A missing file is created on demand, temporary if asked for; contents never change; agreement is kept. |
| IndexedDbFiles.IndexedDbFileSystem.CreateFile | mobile/web/drift_worker.dart.js:12037-12044 | The created file is empty, and its creation is queued unless it is temporary. |
| IndexedDbFiles.IndexedDbFileSystem.DeleteFile | mobile/web/drift_worker.dart.js:12033-12035 | The file is gone at once, other files are untouched, and agreement is kept. |
| IndexedDbFiles.IndexedDbFileSystem.Prepare | mobile/web/drift_worker.dart.js:12148-12150 | Fixing the view of the write in progress changes no pending change and nothing visible. |
| IndexedDbFiles.IndexedDbFileSystem.Lookup | mobile/web/drift_worker.dart.js:11983-12005 | A remembered id is the indexed one. |
| IndexedDbFiles.IndexedDbFileSystem.StoreCreate | mobile/web/drift_worker.dart.js:11789-11799 | A new empty row under a fresh id. |
| IndexedDbFiles.IndexedDbFileSystem.StoreDelete | mobile/web/drift_worker.dart.js:11880-11891 | The row and its blocks are gone. |
| IndexedDbFiles.IndexedDbFileSystem.StoreTruncate | mobile/web/drift_worker.dart.js:11858-11879 | Blocks after the one holding the new end are deleted and the length is set; the last block keeps its bytes. |
| IndexedDbFiles.IndexedDbFileSystem.StoreWrite | mobile/web/drift_worker.dart.js:11833-11857 | The blocks built from the writes replace the stored ones and the length is updated. |
| IndexedDbFiles.IndexedDbFileSystem.BuildBlocks | mobile/web/drift_worker.dart.js:12145-12150 | The blocks are those that laying all writes over the view gives. |
| IndexedDbFiles.IndexedDbFileSystem.Finish | mobile/web/drift_worker.dart.js:12046-12049 | Completing the item in progress performs its effect on the store and keeps agreement for every file. |
| IndexedDbFiles.IndexedDbFileSystem.ReadFile | mobile/web/drift_worker.dart.js:11801-11832 | The bytes read from a row are its blocks cut to its length, zero where there is no block. |
| IndexedDbFiles.IndexedDbFileSystem.Reload | mobile/web/drift_worker.dart.js:12006-12031 | A fresh start from a drained store shows exactly the visible files that are not temporary. |
| Utf8.DecodeSplit | mobile/web/drift_worker.dart.js:7548-7552 | Decoding in two parts with the state carried over is decoding at once. |
| Utf8.ReadCharacter | mobile/web/drift_worker.dart.js:7553-7588 | From a state between characters the automaton reads one whole character of RFC 3629 and emits its code point. |
| Utf8.BadCharacter | mobile/web/drift_worker.dart.js:7553-7588 | Where no whole character starts, the automaton reports an error or stops inside a character. |
| Utf8.DecodeAccepts | mobile/web/drift_worker.dart.js:7553-7588 | The automaton accepts exactly the byte strings of the syntax in section 4 of RFC 3629. |
| Utf8.DecodeAllAccepts | mobile/web/drift_worker.dart.js:7533-7547 | A whole string decodes if and only if it is well formed. |
| Utf8.RoundTrip | mobile/web/drift_worker.dart.js:7475-7588 | Decoding an encoded string gives it back with lone surrogates replaced by U+FFFD and a leading byte order mark dropped. |
| Utf8.RoundTripExactly | mobile/web/drift_worker.dart.js:7475-7588 | It comes back unchanged if and only if every surrogate is paired and it does not start with a byte order mark. |
| Utf8.ScrubExactly | mobile/web/drift_worker.dart.js:7490-7520 | Replacing lone surrogates changes nothing exactly when there are none, and never changes the length. |
| Utf8.DecodeAllEncodes | mobile/web/drift_worker.dart.js:7475-7588 | Encoding what was decoded gives back the bytes, so no two byte strings decode alike apart from the mark. |
| Utf8.WriteCharacter | mobile/web/drift_worker.dart.js:7490-7531 | Encoding a decoded character gives its own bytes. |
| Utf8Codec.Utf8Encoder.WriteReplacementCharacter | mobile/web/drift_worker.dart.js:7483-7489 | Appends EF BF BD. |
| Utf8Codec.Utf8Encoder.WriteSurrogate | mobile/web/drift_worker.dart.js:7490-7504 | A high surrogate followed by a low one becomes the four bytes of their code point, else the replacement character. |
| Utf8Codec.Utf8Encoder.EncodeCharacter | mobile/web/drift_worker.dart.js:7507-7531 | One character is written with room to spare: the three-bytes-a-unit buffer never runs out. |
| Utf8Codec.Utf8Encoder.FillBuffer | mobile/web/drift_worker.dart.js:7505-7531 | Everything is encoded except a high surrogate at the end, in at most three bytes a unit. |
| Utf8Codec.Convert | mobile/web/drift_worker.dart.js:7475-7482 | The bytes of a whole string, a lone high surrogate at the end replaced. |
| Utf8Codec.Scan | mobile/web/drift_worker.dart.js:7553-7588 | The loop over bytes with its short cut for one-byte characters agrees with the automaton, errors and offsets included. |
| Utf8Codec.CopyOneOctets | mobile/web/drift_worker.dart.js:7573-7582 | The short cut copies what the automaton would emit. |
| Utf8Codec.Utf8Decoder.DecodeGeneral | mobile/web/drift_worker.dart.js:7553-7588 | One chunk: the automaton's text, state and error, and an error when flushed inside a character. |
| Utf8Codec.Utf8Decoder.DecodeRecursive | mobile/web/drift_worker.dart.js:7548-7552 | Decoding long input in halves with carried state agrees with one pass. |
| Utf8Codec.Utf8Decoder.Convert | mobile/web/drift_worker.dart.js:7533-7547 | A whole string: its text, or the error code with its offset. |
| DriftCodec.ValueRoundTrip | mobile/web/drift_worker.dart.js:9014-9034 | Every database value survives: integral and fractional numbers, big integers as text, booleans, text, blobs, null. |
| DriftCodec.PushValues | mobile/web/drift_worker.dart.js:8910-8913 | The argument loop appends the encoding of each value in order. |
| DriftCodec.PayloadToJs | mobile/web/drift_worker.dart.js:8905-8945 | The request encoder's loops build the array of each kind of request. |
| DriftCodec.PayloadRoundTrip | mobile/web/drift_worker.dart.js:8905-8976 | Every request payload survives, optional fields included. |
| DriftCodec.BatchRoundTrip | mobile/web/drift_worker.dart.js:9071-9095 | Batched statements with their runs survive, whatever the number of either. |
| DriftCodec.TableToJs | mobile/web/drift_worker.dart.js:8984-8990 | The table encoder heads with the first row's columns and gives each row's values in its own order. |
| DriftCodec.TableFromJs | mobile/web/drift_worker.dart.js:8991-9013 | The table decoder's loops name each value by the column at its position, and leave a value behind the last column without a name. |
| DriftCodec.TableRoundTripExactly | mobile/web/drift_worker.dart.js:8984-9013 | A result table is never refused, and survives if and only if every row's columns are the first columns of the first row in that order. |
| DriftCodec.ResponseRoundTripExactly | mobile/web/drift_worker.dart.js:8977-9013 | Responses survive under exactly that condition. |
| DriftCodec.ExceptionRoundTrip | mobile/web/drift_worker.dart.js:9039-9059 | A database exception arrives with every field but its position. |
| DriftCodec.MessageRoundTripExactly | mobile/web/drift_worker.dart.js:8845-9059 | A message arrives as it was sent if and only if it is no such table, and no exception with a position or for an older client. |
| DriftCodec.ArrivesExactly | mobile/web/drift_worker.dart.js:9014-9034 | What an arriving value may look like: only a pair tagged 14 with a number's text is a big integer, any other pair with a number is that number, all else stands for itself. |
| DriftCodec.RequestNumbers | mobile/web/drift_worker.dart.js:8945-8976 | The number that announces each kind of request, and those of the four ways to run a statement and the five controls. |
| DriftCodec.MessageNumbers | mobile/web/drift_worker.dart.js:8845-8904 | The number that announces each kind of message. |
| DriftCodec.MethodOfNumber | mobile/web/drift_worker.dart.js:8952-8952 | The four ways to run a statement have the numbers 0 to 3; every other number is none. |
| DriftCodec.ControlOfNumber | mobile/web/drift_worker.dart.js:8962-8962 | The five controls have the numbers 0 to 4; every other number is none. |
| DriftCodec.KindOfNumber | mobile/web/drift_worker.dart.js:9102-9102 | The three kinds of update have the numbers 0 to 2; every other number is none. |
| DriftCodec.DialectOfName | mobile/web/drift_worker.dart.js:8968-8968 | The five dialects are read from their names; every other name is refused. |
| FireTimes.BeforeDateDayOffsets | relay/internal/scheduling/firetimes.go:10-19 | The day offsets always include the due day and are at least two days apart. |
| FireTimes.HousingBeforeDateFires | relay/internal/scheduling/firetimes.go:36-55 | The loop yields the instants for the offsets that lie after the cut-off, in order; none without a zone. |
| FireTimes.BeforeDateFiresOrdered | relay/internal/scheduling/firetimes.go:36-55 | In any lawful zone the instants are exactly those after the cut-off, and strictly increase if and only if the four-day and the two-day reminder do not collide. |
| FireTimes.NoCollisionFromMidnight | relay/internal/scheduling/firetimes.go:36-55 | They never collide where the due date has its midnight. |
| FireTimes.WildZoneCollides | relay/internal/scheduling/firetimes.go:36-55 | A lawful zone in which they do. |
| FireTimes.OverdueFollowsExactly | relay/internal/scheduling/firetimes.go:58-72 | The overdue instant never precedes a reminder, and follows all of them exactly when adding a day to the due date reaches the next date. |
| FireTimes.OverdueFollows | relay/internal/scheduling/firetimes.go:58-72 | Where the due date and the next one have their midnights it is there and follows all of them. |
| FireTimes.FiresOnDateExactly | relay/internal/scheduling/firetimes.go:22-33 | In any lawful zone the reminder counted by a number of days falls at 14:00 of that calendar day if and only if adding the days to the due date reaches it. |
| FireTimes.FiresOnCalendarDays | relay/internal/scheduling/firetimes.go:22-33 | It does where the two midnights concerned are not skipped. |
| FireTimes.SkippedMidnightCollides | relay/internal/scheduling/firetimes.go:58-72 | A zone with a skipped midnight in which the overdue and the due-day reminder fall on one instant. |
| FireTimes.SkippedMidnightComesEarly | relay/internal/scheduling/firetimes.go:36-72 | In the same zone a payment due on the day of the skipped midnight has its due-day reminder the day before and its overdue reminder on the due date. |
| QaReminderDates.MonthlyDueAtLocal | tool/qa_housing_payment_reminder_dates.py:21-37 | The due date is the first recurrence day after the anchor: later than it, with none in between. |
| QaReminderDates.BeforeDueFiresLocal | tool/qa_housing_payment_reminder_dates.py:40-60 | The loop yields the wall clock readings after the cut-off, in order. |
| QaReminderDates.ScheduleForAnchor | tool/qa_housing_payment_reminder_dates.py:76-111 | The list is never empty, so the error is never raised; it ends with the due day and everything precedes the overdue reading. |
| QaReminderDates.MirrorsAtExactly | tool/qa_housing_payment_reminder_dates.py:40-73 | For one day count, the condition under which the script's reading stands for the relay's instant, or both are cut off: if and only if. |
| QaReminderDates.MirrorsOnPlainDays | tool/qa_housing_payment_reminder_dates.py:40-73 | It holds where the two midnights concerned are there and the cut-off is on one side of 14:00 by both clocks. |
| QaReminderDates.MirrorsRelay | tool/qa_housing_payment_reminder_dates.py:40-73 | The script's list names exactly the relay's instants if and only if that holds for each day count of the period; likewise for the overdue reading. |
| QaReminderDates.SkippedMidnightNotMirrored | tool/qa_housing_payment_reminder_dates.py:40-73 | A zone and a due date in which the two lists differ for every period, and the relay's overdue reminder is a day before the script's. |
| ReminderBooks.ScheduleAllPending | relay/internal/store/scheduled_notifications.go:133-241 | The last entry for a target decides its pending set: its instants without those that had a row or were listed earlier. |
| ReminderBooks.ReconcilePending | relay/internal/store/scheduled_notifications.go:70-131 | After a reconcile a listed target's pending fires are exactly its computed instants that had no row before. |
| ReminderBooks.ReconcileOthers | relay/internal/store/scheduled_notifications.go:96-121 | A target not listed is cancelled with nothing pending if it is an active one of the plan from an older generation, else untouched. |
| ReminderBooks.ReconcileAgainSilences | relay/internal/store/scheduled_notifications.go:189-239 | Listing a target again with the same terms and zone, at any later moment, in any plan, list and generation and whatever came between, withdraws every reminder of it. |
| ReminderBooks.RecomputePending | relay/internal/store/scheduled_notifications.go:346-391 | After a recompute each active housing target of the recipient has pending exactly the new instants that had no row. |
| ReminderBooks.RecomputeAgainSilences | relay/internal/store/scheduled_notifications.go:353-389 | Recomputing again for the same zone, at any later moment and whatever came between, withdraws every reminder of a target that kept its terms. |
| ReminderBooks.ReconcileKeepsCoherent | relay/internal/store/scheduled_notifications.go:70-131 | A reconcile keeps: pending fires belong to targets that are not cancelled, and nothing fired early. |
| ReminderBooks.ReconcileProgress | relay/internal/store/scheduled_notifications.go:70-131 | A reconcile only withdraws pending fires and adds new ones. |
| ReminderBooks.ClaimProgress | relay/internal/store/scheduled_notifications.go:394-454 | Claiming only moves pending fires to fired. |
| ReminderBooks.AcknowledgeProgress | relay/internal/store/scheduled_notifications.go:499-517 | Acknowledging only sets the acknowledgement of a fired one. |
| ReminderBooks.FiredAndAckedOnce | relay/internal/store/scheduled_notifications.go:394-517 | Over every run a (target, instant) fires in at most one step, is acknowledged in at most one, and is never pending again. |
| ReminderBooks.SharedScopes | relay/internal/store/scheduled_notifications.go:96-107 | Two plans share a scope key if and only if they are equal or one followed by the byte 1F starts the other. |
| ReminderBooks.OtherPlansSafe | relay/internal/store/scheduled_notifications.go:96-107 | Plan ids free of the byte 1F never cancel each other's targets. |
| ReminderRuns.CallKeeps | relay/internal/store/scheduled_notifications.go:41-686 | Every call of the store keeps a sound book and moves outcomes only forward. |
| ReminderRuns.FiredStep | relay/internal/store/scheduled_notifications.go:41-686 | A slot fires only by a claim that finds it pending and due, at that moment; it is acknowledged only by its own acknowledgement; no other call touches what has fired. |
| ReminderRuns.StoreRunProgress | relay/internal/store/scheduled_notifications.go:41-686 | A run of the store's calls is a run of books in which outcomes only move forward. |
| ReminderRuns.ClaimedOnce | relay/internal/store/scheduled_notifications.go:394-454 | Over every run of calls no (target, instant) is claimed twice. |
| ReminderRuns.AckedOnce | relay/internal/store/scheduled_notifications.go:499-517 | Over every run of calls no fire is acknowledged with success twice. |
| ReminderRuns.ListedExactly | relay/internal/store/scheduled_notifications.go:394-517 | Over every run of calls a claimed fire is listed for its recipient if and only if that recipient has not acknowledged it since. |
| ReminderTables.CancelTargetsMeaning | relay/internal/store/scheduled_notifications.go:96-107 | The cancelling update marks exactly the selected active targets. |
| ReminderTables.CancelFiresMeaning | relay/internal/store/scheduled_notifications.go:113-120 | The withdrawing update cancels exactly the pending fires of the selected targets. |
| ReminderTables.InsertFireMeaning | relay/internal/store/scheduled_notifications.go:230-237 | The insert adds a pending row unless the target has a row at that instant, keeping one row for each. |
| ReminderTables.PutTargetMeaning | relay/internal/store/scheduled_notifications.go:150-171 | The upsert writes one target row and keeps natural keys unique. |
| ReminderTables.PutFireMeaning | relay/internal/store/scheduled_notifications.go:434-448 | The update of one fire row changes that slot's outcome and nothing else. |
| ReminderTables.FindTarget | relay/internal/store/scheduled_notifications.go:174-183 | The lookup finds the row of a natural key exactly when there is one. |
| ReminderTables.InsertFires | relay/internal/store/scheduled_notifications.go:225-239 | The insert loop adds exactly the instants that had no row. |
| ReminderStores.ReplanTarget | relay/internal/store/scheduled_notifications.go:189-239 | Withdrawing and inserting replans one target: old pending fires cancelled, new instants pending, earlier rows kept. |
| ReminderStores.PlanInstants | relay/internal/store/scheduled_notifications.go:202-223 | The instants of a target by kind, bounded for overdue ones, none for an unknown kind or zone. |
| ReminderStores.MarkScopes | relay/internal/store/scheduled_notifications.go:270-283 | One update for each scope key cancels the targets of all of them. |
| ReminderStores.WithdrawCancelled | relay/internal/store/scheduled_notifications.go:284-296 | Withdrawing for all cancelled targets touches only those just cancelled. |
| ReminderStores.DueAfterClaim | relay/internal/store/scheduled_notifications.go:394-421 | A claim leaves due exactly what it did not take. |
| ReminderStores.ClaimsDrain | relay/internal/store/scheduled_notifications.go:394-454 | At one moment repeated claims empty the due fires in exactly the due count over the limit, rounded up. |
| ReminderStores.ReminderStore.UpsertRecipientTimezone | relay/internal/store/scheduled_notifications.go:41-49 | Sets one recipient's zone and nothing else. |
| ReminderStores.ReminderStore.UpsertHousingTargetAndFires | relay/internal/store/scheduled_notifications.go:133-241 | One listed target is written, uncancelled and replanned with the instants of the recipient's zone. |
| ReminderStores.ReminderStore.ReconcileHousingPaymentPlan | relay/internal/store/scheduled_notifications.go:70-131 | The tables become those of a reconcile, and the plan's generation the larger of the two. |
| ReminderStores.ReminderStore.CancelHousingPaymentTargets | relay/internal/store/scheduled_notifications.go:259-298 | Exactly the active targets of the scope keys, kind and period are cancelled, with their pending fires. |
| ReminderStores.ReminderStore.RecomputePendingHousingFiresForRecipient | relay/internal/store/scheduled_notifications.go:302-391 | Every active housing target of the recipient is replanned for the zone; nothing happens without a known zone. |
| ReminderStores.ReminderStore.UpsertClientTarget | relay/internal/store/scheduled_notifications.go:566-641 | One client target is written and its pending fires replaced by the listed instants still to come. |
| ReminderStores.ReminderStore.UpsertClientScheduledFires | relay/internal/store/scheduled_notifications.go:544-643 | All listed targets are applied in order, or none when one is refused; the refusal is the first one's. |
| ReminderStores.ReminderStore.CancelClientScheduledByScope | relay/internal/store/scheduled_notifications.go:646-686 | The active targets of the scope keys in a client domain are cancelled with their pending fires; other domains are refused. |
| ReminderStores.ReminderStore.ClaimDueReminderFires | relay/internal/store/scheduled_notifications.go:394-454 | Claims the earliest due fires, at most the limit, in order, each once, marking exactly these as fired now. |
| ReminderStores.ReminderStore.ListUndeliveredReminderFires | relay/internal/store/scheduled_notifications.go:457-496 | Lists the earliest fired and unacknowledged of a recipient, at most the limit. |
| ReminderStores.ReminderStore.AckReminderFireDelivery | relay/internal/store/scheduled_notifications.go:499-517 | Succeeds exactly for a fired and unacknowledged fire of that recipient. |
| TimeOrder.Earliest | relay/internal/store/scheduled_notifications.go:394-421 | Ordering by time with a limit gives the first rows, each once, none left out earlier than one taken. |
| ReminderCron.Run | relay/internal/remindercron/remindercron.go:35-73 | Claims at most 64 of the earliest due fires and wakes exactly their recipients, each once; nothing when disabled. |
| ReminderCron.WakeOnce | relay/internal/remindercron/remindercron.go:48-60 | The loop with its seen set wakes each recipient of the batch once. |
| ReminderCron.ListedUntilAcked | relay/internal/store/scheduled_notifications.go:457-517 | A claimed fire is listed for its recipient and stays so through every later step until acknowledged. |
| HousingRules.SetRosterFits | entitlement/internal/domain/housing.go:65-82 | Setting a roster keeps plans coherent and moves no plan. |
| HousingRules.ActiveUseFits | entitlement/internal/domain/housing.go:84-124 | Recording active use keeps plans coherent, only advances them and forgets no trial. |
| HousingRules.RefreshFits | entitlement/internal/domain/housing.go:253-289 | A refresh keeps plans coherent and only advances them. |
| HousingRules.RefreshedStates | entitlement/internal/domain/housing.go:253-289 | After a refresh with a roster: paid exactly if everyone has paid or it was so before, and no trial or grace end in the past. |
| HousingRules.ReprojectPlanFits | entitlement/internal/domain/housing.go:222-246 | Reprojecting keeps plans coherent and only advances them. |
| HousingRules.ReprojectOneMore | entitlement/internal/domain/housing.go:222-246 | Plans are reprojected independently of each other and of their order. |
| HousingRules.RevocationStops | entitlement/internal/domain/housing.go:226-239 | An immediate revocation makes each plan in use read-only, and the next request that mutates it is refused. |
| HousingRules.IntrospectFits | entitlement/internal/domain/housing.go:291-316 | An introspection keeps plans coherent and only advances them. |
| HousingRules.EnteredOnce | entitlement/internal/domain/housing.go:84-289 | Over any run a plan enters the trial in at most one step and the grace period in at most one. |
| HousingRules.ActiveUseWrittenOnce | entitlement/internal/domain/housing.go:84-124 | Once active use has begun, its date and the trial dates never change. |
| HousingRules.TrialStarts | entitlement/internal/domain/housing.go:84-124 | A trial starts exactly when use has not started, two members are on the roster and no registered one has used a trial; otherwise grace; every registered member is marked. |
| HousingRules.TrialStartsRecorded | entitlement/internal/domain/housing.go:84-124 | A step that starts a trial respects and records the roster's flags. |
| HousingRules.IntrospectionStartsTrial | entitlement/internal/domain/housing.go:291-308 | An introspection starts a trial only through its own plan's active use. |
| HousingRules.OthersStartNoTrial | entitlement/internal/domain/housing.go:65-82 | Rosters, refreshes and reprojections never start a trial. |
| HousingRules.MutationAllowedExactly | entitlement/internal/domain/housing.go:291-366 | A mutating request passes if and only if it negotiates before active use, or a roster member sends it to a plan not left read-only. |
| HousingRules.ReadonlyUntilPaid | entitlement/internal/domain/housing.go:253-366 | A request on a read-only plan is refused every mutation unless its refresh finds the whole roster paid. |
| HousingRules.GraceEndsMutations | entitlement/internal/domain/housing.go:291-366 | A mutation allowed in grace comes no later than the grace end. |
| HousingRules.TrialExpiredExactly | entitlement/internal/domain/housing.go:343-347 | The trial-expired answer is given exactly to non-mutating requests for a finished trial with an empty roster. |
| HousingRules.RefreshIdempotent | entitlement/internal/domain/housing.go:253-289 | A second refresh at the same moment changes nothing. |
| HousingRuns.ApplyFits | entitlement/internal/domain/housing.go:57-308 | Every call of the service keeps plans coherent and only advances them; a used trial is kept under the identity handed over if and only if the call does not migrate its installation to itself. |
| HousingRuns.ApplyStartsTrial | entitlement/internal/domain/housing.go:84-124 | A plan enters its trial only through recorded active use, with no used trial on its roster, and then the whole roster is recorded. |
| HousingRuns.EnteredOnceInService | entitlement/internal/domain/housing.go:57-308 | Over every run of calls a plan enters the trial in at most one call and the grace period in at most one. |
| HousingRuns.OneTrialInService | entitlement/internal/domain/housing.go:57-308 | Over every run of calls no installation registered at one trial start is on the roster of a later one, under whatever identity it then has, unless it was migrated to itself in between. |
| HousingRuns.ReadonlyStepExactly | entitlement/internal/domain/housing.go:253-289 | One call on a read-only plan leaves it read-only, or paid if and only if the call refreshes the plan and finds its whole roster paid. |
| HousingRuns.ReadonlyStaysInService | entitlement/internal/domain/housing.go:253-289 | Over every run a plan stays read-only until such a call. |
| HousingRuns.ReadonlyRefusesInService | entitlement/internal/domain/housing.go:253-366 | Over every run each mutating request for it until then is refused as read-only. |
| HousingRuns.RevocationHolds | entitlement/internal/domain/housing.go:226-366 | After an immediate revocation each mutating request for a plan in use is refused, over every run, until a refresh finds everyone paid. |
| HousingRuns.SelfMigrationAllowsTwoTrials | entitlement/internal/store/store.go:557-633 | A run in which two installations use their trial, are migrated to themselves, and start a second one. |
| HousingMigration.UnknownMigrates | entitlement/internal/store/store.go:557-568 | An id the plan does not know can always take over. |
| HousingMigration.RenamedRoster | entitlement/internal/store/store.go:574-580 | The roster exchanges the old id for the new one and keeps its size. |
| HousingMigration.MigrationKeeps | entitlement/internal/store/store.go:557-633 | Migration keeps roster size, all-paid verdict, lifecycles and other rosters, carries the used trial, and repeating it changes nothing. |
| HousingMigration.MigrationStep | entitlement/internal/store/store.go:557-633 | Migration moves no plan; used trials follow the new id exactly when the ids differ or there was none to lose. |
| HousingService.EntitlementStore.RegisterInstallation | entitlement/internal/store/store.go:104-110 | Registers an unknown installation and leaves a known one alone. |
| HousingService.EntitlementStore.UpsertPlayReceipt | entitlement/internal/store/store.go:463-493 | Writes the receipt under its token; one without a token is a row of its own. |
| HousingService.EntitlementStore.UpsertInstallationPushToken | entitlement/internal/store/store.go:112-127 | Writes the push address, registering an unknown installation. |
| HousingService.EntitlementStore.RecordExpenseDecision | entitlement/internal/store/store.go:412-422 | Writes one participant's decision on one expense. |
| HousingService.EntitlementStore.SetFreeLicense | entitlement/internal/store/store.go:129-212 | A registered installation gets a free licence unless it has one or a receipt stands in the way; nothing else changes. |
| HousingService.EntitlementStore.ClearFreeLicense | entitlement/internal/store/store.go:245-261 | A registered installation loses its free licence; nothing else changes. |
| HousingService.EntitlementStore.MarkTrialConsumed | entitlement/internal/store/store.go:294-306 | Marks exactly the registered ones of a list, keeping the first date. |
| HousingService.EntitlementStore.AnyTrialConsumed | entitlement/internal/store/store.go:308-317 | Whether a registered one of a list has used a trial. |
| HousingService.EntitlementStore.SetActiveRoster | entitlement/internal/store/store.go:353-380 | Adds the participants to the revision and makes it the active one. |
| HousingService.EntitlementStore.ActiveRoster | entitlement/internal/store/store.go:382-410 | The members of the active revision, each once. |
| HousingService.EntitlementStore.MigrateInstallation | entitlement/internal/store/store.go:557-633 | The outcome, and the tables after it: renamed, or unchanged when done before, unknown or clashing. |
| HousingService.Housing.RegisterInstallation | entitlement/internal/domain/housing.go:57-59 | Registers the installation and moves no plan. |
| HousingService.Housing.RecordExpenseDecision | entitlement/internal/domain/housing.go:249-251 | Records one decision and moves no plan. |
| HousingService.Housing.ApplyPlayResult | entitlement/internal/domain/housing.go:130-163 | Registers the installation, stores the receipt and reprojects its plans, keeping plans coherent and only advancing them. |
| HousingService.Housing.SetActiveRoster | entitlement/internal/domain/housing.go:65-82 | Sets the roster and creates the plan when there is none. |
| HousingService.Housing.RecordActiveUse | entitlement/internal/domain/housing.go:84-124 | Starts use with a trial or grace as the roster allows. |
| HousingService.Housing.ReportLicense | entitlement/internal/domain/housing.go:126-128 | Writes one licence and moves no plan. |
| HousingService.Housing.AllParticipantsPaid | entitlement/internal/domain/housing.go:368-386 | Whether the roster is nonempty and everyone on it is reported paid. |
| HousingService.Housing.RefreshPlanLifecycle | entitlement/internal/domain/housing.go:253-289 | Advances the plan by payment, trial end or grace end. |
| HousingService.Housing.HousingPaid | entitlement/internal/domain/housing.go:177-213 | Whether a valid receipt or a free licence grants housing now. |
| HousingService.Housing.ReprojectInstallationHousing | entitlement/internal/domain/housing.go:177-247 | Every plan with the installation on its active roster gets its licence and is revoked or refreshed. |
| HousingService.Housing.Answer | entitlement/internal/domain/housing.go:317-366 | The answer read off the refreshed plan. |
| HousingService.Housing.Introspect | entitlement/internal/domain/housing.go:291-366 | Verdict and tables of a whole introspection. |
| HousingService.Housing.MigrateInstallation | entitlement/internal/domain/housing.go:61-63 | The migration, keeping plans coherent. |
| ByteStrings.BeforeTotal | relay/internal/store/store.go:447-473 | The order on byte strings is total. |
| ByteStrings.BeforeTransitive | relay/internal/store/store.go:447-473 | It is transitive. |
| ByteStrings.BeforeStrict | relay/internal/store/store.go:447-473 | It is irreflexive. |
| ByteStrings.CompareBytes | relay/internal/store/store.go:447-473 | The sign of the comparison is that order, and zero exactly for equal strings. |
| ByteStrings.CanonicalPair | relay/internal/store/store.go:440-445 | The pair in order. |
| ByteStrings.CanonicalUnordered | relay/internal/store/store.go:440-445 | The canonical pair depends on the two peers and not on who is named first, and tells different pairs apart. |
| MailboxRules.AcceptKeepsSpacing | relay/internal/store/store.go:235-277 | Accepting when no live row stands in the way keeps acceptances under a key a lifetime apart. |
| MailboxRules.SweepKeepsMemory | relay/internal/store/store.go:281-289 | Deleting expired idempotency rows forgets nothing that matters. |
| MailboxRules.OnlyEstablishActivates | relay/internal/store/store.go:154-224 | No call but establishing a pair makes it active. |
| MailboxRules.DisconnectedRefused | relay/internal/store/store.go:154-224 | Over every run each submission between two peers after their disconnect, in either direction, is refused and changes nothing until they are established again. |
| MailboxRules.FreshIdFindsRoom | relay/internal/store/store.go:298-308 | An id that no acceptance has had before collides with no queued envelope. |
| MailboxRules.RetentionBounds | relay/internal/api/api.go:821-834 | The cutoff lies after now and within the cap, is the requested one when it fits, and is refused exactly when it has passed. |
| MailboxRules.EnvelopesConserved | relay/internal/api/api.go:378-423 | Over every run with fresh ids the envelopes stored are those queued, acknowledged and expired, and nothing else. |
| MailboxRules.RetentionBounded | relay/internal/api/api.go:821-834 | Over every run each queued envelope expires after it came, by the cap at most. |
| MailboxRules.AcceptancesSpaced | relay/internal/api/api.go:378-423 | Over every run two submissions stored under one sender and key are an idempotency lifetime apart. |
| MailboxRules.StepKeepsSound | relay/internal/api/api.go:364-423 | Every call keeps the balance of envelopes, the memory of acceptances, bounded retention and ordered pairs. |
| MailboxRules.SweepLeavesNothingExpired | relay/internal/sweeper/sweeper.go:42-94 | After a pass nothing expired is left in any table, and each total has grown by exactly the rows deleted. |
| Mailbox.RelayStore.EstablishRouting | relay/internal/store/store.go:154-165 | Adds or reactivates exactly the canonical pair; refused for a peer with itself. |
| Mailbox.RelayStore.HasRouting | relay/internal/store/store.go:168-182 | Whether the unordered pair is active. |
| Mailbox.RelayStore.MarkDisconnecting | relay/internal/store/store.go:185-196 | An active pair is no longer active; succeeds exactly when it was. |
| Mailbox.RelayStore.TouchRouting | relay/internal/store/store.go:216-224 | Refreshes an active pair and activates none. |
| Mailbox.RelayStore.PruneExpiredRouting | relay/internal/store/store.go:201-213 | Removes exactly the rows whose grace or inactivity, in whole seconds, has run out. |
| Mailbox.RelayStore.LookupOrReserveIdempotency | relay/internal/store/store.go:235-277 | A live row is replayed; an absent or expired one is replaced by a reservation. |
| Mailbox.RelayStore.StoreEnvelope | relay/internal/store/store.go:298-308 | Adds the row unless its key exists. |
| Mailbox.RelayStore.FetchInbox | relay/internal/store/store.go:314-338 | The earliest unexpired envelopes of a recipient, at most the limit. |
| Mailbox.RelayStore.AckEnvelope | relay/internal/store/store.go:345-354 | Deletes exactly that row and counts it. |
| Mailbox.RelayStore.SweepEnvelopes | relay/internal/store/store.go:357-365 | Deletes exactly the expired rows. |
| Mailbox.RelayStore.SweepIdempotency | relay/internal/store/store.go:281-289 | Deletes exactly the expired rows. |
| Mailbox.RelayStore.RecordCheckpoint | relay/internal/store/store.go:391-404 | Adds the counts to the totals. |
| Mailbox.RelayStore.UpsertRoutingPushToken | relay/internal/store/routing_push_tokens.go:31-51 | Writes one token row with its expiry. |
| Mailbox.RelayStore.PurgeExpiredRoutingPushTokens | relay/internal/store/routing_push_tokens.go:136-146 | Deletes exactly the expired rows. |
| Mailbox.RelayStore.MergeDayMetrics | relay/internal/store/routing_push_tokens.go:158-172 | Adds the purged rows to the day's count. |
| Mailbox.RelayStore.ReserveAndStore | relay/internal/api/api.go:388-415 | The two writes of a submission: a replay changes nothing, an acceptance reserves and stores. |
| Mailbox.RelayStore.HandleEnvelopes | relay/internal/api/api.go:364-423 | The exact answer and effect of a submission, in the order of its checks. |
| Mailbox.RelayStore.SubmitEnvelope | relay/internal/api/api.go:364-423 | The same as one call of the run, recorded in the history; with a fresh id no collision is counted. |
| Mailbox.RelayStore.DeleteExpired | relay/internal/sweeper/sweeper.go:42-94 | The four deletions of a pass and the totals they add to. |
| Mailbox.RelayStore.SweepAll | relay/internal/sweeper/sweeper.go:42-94 | A whole pass, push tokens and their daily count included, as one call of the run. |
| TokenBucket.Limiter.constructor | relay/internal/ratelimit/ratelimit.go:32-43 | Burst of four seconds' worth but at least one, ten minutes of idleness. |
| TokenBucket.Limiter.Allow | relay/internal/ratelimit/ratelimit.go:55-82 | The answer and the buckets after one request, eviction included. |
| TokenBucket.Limiter.EvictIdle | relay/internal/ratelimit/ratelimit.go:90-96 | Deletes exactly the buckets idle for longer. |
| TokenBucket.SameAnswer | relay/internal/ratelimit/ratelimit.go:55-96 | A limiter with eviction answers one request like one without, and stays matched to it. |
| TokenBucket.EvictionInvisible | relay/internal/ratelimit/ratelimit.go:55-96 | If a bucket fills within the idle time, eviction changes no answer on any sequence of requests. |
| TokenBucket.EvictionInvisibleExactly | relay/internal/ratelimit/ratelimit.go:32-96 | With the constructor's settings eviction is invisible if and only if the rate is at least one token per ten minutes. |
| TokenBucket.SlowRefill | relay/internal/ratelimit/ratelimit.go:32-96 | For every lower rate, a sequence of three requests on which it shows. |
| TokenBucket.CreditBoundsAdmitted | relay/internal/ratelimit/ratelimit.go:55-82 | What is admitted is bounded by the credit at the start and the refill since. |
| TokenBucket.WindowBound | relay/internal/ratelimit/ratelimit.go:55-96 | In any window a scope is admitted at most the burst plus the rate times the window's length. |
| NumberText.ReadsExactly | mobile/web/drift_worker.dart.js:2360-2370 | A text is read as a number exactly if it is decimal digits, or hexadecimal ones after 0x, with a sign or none in front and white space around, and as that number. |
| NumberText.HexLetters | mobile/web/drift_worker.dart.js:2345-2346 | Each hexadecimal digit has its character in either case, and no other character is a digit. |
| TokenBucket.RefusedExactly | relay/internal/ratelimit/ratelimit.go:55-82 | A request is refused if and only if, letting it through would exceed the burst plus the refill over some stretch of requests that ends with it: no limiter that keeps that bound lets through more. |
| TokenBucket.RefusedForAReason | relay/internal/ratelimit/ratelimit.go:55-96 | At any rate, with eviction or without, a refusal has such a stretch. |
| TokenBucket.BurstExactly | relay/internal/ratelimit/ratelimit.go:32-82 | Of the requests of a new scope at one moment exactly the first floor(burst) are let through, with the constructor's burst of four seconds' worth. |
| TokenBucket.DroppedExactly | relay/internal/ratelimit/ratelimit.go:79-96 | A bucket is dropped exactly when a request is let through more than ten minutes after it was last filled up. |
| TokenBucket.SpacedNeverRefused | relay/internal/ratelimit/ratelimit.go:55-96 | A scope whose requests come at least one token's refill apart is never refused, whatever other scopes do. |
| MailboxRuns.AnswerExactly | relay/internal/api/api.go:364-423 | Over every run: the first check that fails is answered; a submission is answered as a replay, with the id first stored, if and only if a stored one with the same sender and key came less than the idempotency lifetime before; every other one is stored under the id just drawn; only storing changes anything. |
| MailboxRuns.KeptExactly | relay/internal/store/store.go:298-366 | A stored envelope is in the table, as it was sent, exactly until it is acknowledged or swept after its time. |
| MailboxRuns.EnvelopeFrom | relay/internal/store/store.go:298-312 | Every envelope in the table was put there by a stored submission under its id and recipient. |
| MailboxRuns.InboxExactly | relay/internal/store/store.go:314-338 | An inbox shows exactly that recipient's stored submissions that nobody has acknowledged and whose time is not over. |
| MailboxRuns.RouteStep | relay/internal/store/store.go:154-226 | A pair is active after a call exactly if the call establishes it, or it was active and is neither disconnected nor pruned for want of use; it counts as used exactly when established, touched or submitted through. |
| MailboxRuns.OnlyProperPairs | relay/internal/store/store.go:154-166 | Over every run only two different peers with keys of 8 to 64 bytes are active. |
| MailboxRuns.GraceStep | relay/internal/store/store.go:185-213 | A disconnected pair keeps its row exactly until a pruning after the grace period. |
| MailboxRuns.NearestSeconds | relay/internal/store/store.go:475-477 | Durations in statements are the nearest whole seconds, between two the even one. |
| ReminderLaws.OffsetsExactly | relay/internal/scheduling/firetimes.go:10-19 | The days before the due date: 0 and 2 always, 4 for periods of 20 to 40 days, 6 for longer ones, and no others. |
| ReminderLaws.InstantsExactly | relay/internal/scheduling/firetimes.go:22-72 | By kind, an instant is computed for a target if and only if it lies after the cut-off and is that of one of these days before the due date, or of the day after it and not behind the bound; none for another kind or without a zone. |
| ReminderLaws.FiresAtTwo | relay/internal/scheduling/firetimes.go:22-34 | With clocks on UTC the instants are 14:00 of the days counted from the due date. |
| ReminderLaws.ReconciledPending | relay/internal/store/scheduled_notifications.go:70-242 | After a reconcile a listed target has pending exactly the instants, by kind, that its entries of the list expect in the recipient's zone, that lie ahead and had no row. |
| ReminderLaws.ReconciledOthers | relay/internal/store/scheduled_notifications.go:70-131 | A target not listed is cancelled exactly if it is an active housing target under a scope key of the plan and from an older generation, and then nothing of it is pending; every other one is as it was. |
| ReminderLaws.GenerationsGrow | relay/internal/store/scheduled_notifications.go:70-84 | The newest generation of a plan is the largest it was reconciled with, and of other plans stays. |
| ReminderLaws.RecomputedPending | relay/internal/store/scheduled_notifications.go:302-391 | After a recompute each active housing target of the recipient has pending exactly the instants, by kind, of the zone it now has that lie ahead and had no row; every other target has what it had. |
| ReminderLaws.TimezoneKept | relay/internal/store/scheduled_notifications.go:41-51 | The zone kept for a recipient is the one last sent, and no other recipient's changes. |
| ReminderLaws.CancelledExactly | relay/internal/store/scheduled_notifications.go:259-298 | A cancelling call marks exactly the active targets it names, withdraws what they had pending, and changes nothing else. |
| ReminderLaws.RefusedExactly | relay/internal/store/scheduled_notifications.go:531-564 | A client list is refused exactly if some entry is for a domain or a kind that clients may not use, or lacks its scope or recipient. |
| ReminderLaws.ClientPending | relay/internal/store/scheduled_notifications.go:544-644 | After an accepted client list a listed target has its terms and has pending exactly the listed instants that lie ahead and had no row; after a refused one nothing has changed. |
| ReminderLaws.ClaimTakes | relay/internal/store/scheduled_notifications.go:394-455 | A claim takes only pending fires whose time has come, the earliest, no more than it may; one that comes back with fewer leaves nothing due. |
| ReminderLaws.ListingShows | relay/internal/store/scheduled_notifications.go:457-497 | A list shows fired and unacknowledged fires of its recipient, the earliest, each once; one that comes back with fewer leaves none out. |
| HousingLaws.OperationsExactly | entitlement/internal/domain/housing.go:397-440 | Which requests start use, negotiate or change anything, by the operation's name or, without one, the envelope's kind. |
| HousingLaws.VerdictExactly | entitlement/internal/domain/housing.go:291-366 | The answer to every request: refused for another module or without plan or participant; by the plan's state, the roster and the request's operation or kind otherwise. |
| HousingLaws.ReadonlyRefuses | entitlement/internal/domain/housing.go:328-330 | On a read-only plan, every request that proposes, settles or negotiates is refused as read-only until everyone has paid. |
| HousingLaws.IntrospectionWrites | entitlement/internal/domain/housing.go:303-326 | An accepted request records its decision if it carries one, starts use exactly if it proposes for a plan with two members or more that is not in use, and moves no other plan. |
| HousingLaws.UseDates | entitlement/internal/domain/housing.go:84-124 | Use starts in a trial of the full length, unless a registered member has used one before, then in a grace period of the full length. |
| HousingLaws.RefreshMoves | entitlement/internal/domain/housing.go:253-289 | Where a refresh takes a plan with anyone on its roster, by who has paid and the time since its use began or its grace ends. |
| HousingLaws.GraceLength | entitlement/internal/domain/housing.go:84-289 | Whichever call takes a plan into its grace period, it ends the full length after that call. |
| HousingLaws.ReportedExactly | entitlement/internal/domain/housing.go:177-233 | A reprojection reports the installation, on every plan with it on the active roster, as paid exactly while a free licence or a valid receipt for housing with a token runs, and reports nothing else. |
| HousingLaws.ReprojectedPlansExactly | entitlement/internal/domain/housing.go:218-246 | Each of these plans goes where a refresh with the licence reported takes it, or to read-only when an unpaid licence is revoked while it is in use; other plans stay. |
| HousingLaws.PurchaseExactly | entitlement/internal/domain/housing.go:130-163 | A purchase registers the installation, puts its receipt under its token or as a row of its own, and reprojects. |
| HousingLaws.RosterExactly | entitlement/internal/domain/housing.go:65-82 | A roster has whoever was ever listed for its revision; a plan not there yet is created, linked and not active; other plans stay. |
| HousingLaws.FreeLicenceExactly | entitlement/internal/store/store.go:129-212 | A free licence is given exactly to a registered installation that has none, unless a receipt of its own has neither run out nor been cancelled or expired. |
| HousingLaws.FreeClearedExactly | entitlement/internal/store/store.go:245-261 | Clearing takes away that installation's free licence and nothing else. |
| HousingLaws.OutcomeExactly | entitlement/internal/store/store.go:557-570 | A migration is answered as done before or not found by the roster, and as a conflict exactly if two rows of one table would end up under one key. |
| HousingLaws.MigratedRows | entitlement/internal/store/store.go:580-601 | Every decision and licence of the plan is found under its new key, and there is none that was not there before. |
| HousingLaws.MigratedRecords | entitlement/internal/store/store.go:602-633 | Every receipt is handed over, other installations stay, and the new one has what either had, its own dates and free licence first. |

## Left out

- Concurrency and failure inside a call: each transaction, handler, cron pass and sweep is one step, and its table writes all succeed; the housing service's read-modify-write calls run one at a time.
- Random ids: row ids of the reminder tables are numbers not issued before; envelope ids are parameters, and the conservation law is stated for ids drawn once.
- Clocks are parameters. The relay's routing rows use the database's own clock, which is a parameter of its own; spacing of acceptances is stated for clock readings that never go back.
- Time zone tables and the standard library's resolution of wall clocks: a zone is any pair of functions with the three laws of `Zone.Lawful`, under which a skipped reading is resolved to one less than a day away.
- HTTP parsing, JSON, rate limiting inside the handlers, logging, metrics, push delivery and operator actions.
- Columns that no decision reads: update and creation times, wake dispatch ids, licence expiry dates, receipts' raw contents and platforms, the name on a free licence, the tokens' own texts and the dispatch counters of a day.
- ReminderBooks.HousingInput: a period key is always present, as the request handler demands; the store would also take a missing one, which its unique index does not compare.
- ReminderStores.ReminderStore.ClaimDueReminderFires: rows locked by another transaction are not skipped, because there is no other transaction.
- Mailbox.RelayStore.SubmitEnvelope: the entitlement check is a parameter, and a submission that reserves its key but fails to store the envelope is not modelled.
- Mailbox.RelayStore.UpsertRoutingPushToken: the deletion of single tokens, by their owner or after a failed push, is not modelled.
- HousingRules.State: the five lifecycle states are the only ones written, so the answer for an unknown state is not modelled.
- HousingMigration.Migrate: the old id keeps no record, so another plan that still lists it no longer sees its used trial.
- TokenBucket.Limiter.Allow: floating point is modelled by real numbers, without rounding.
- FireTimes.HousingOverdueFire: the source's documentation places the overdue reminder on the day after the due date; in a zone that skips a midnight it can fall on the due-day reminder or on the due date, as `SkippedMidnightCollides` and `SkippedMidnightComesEarly` show.
- BigIntegers.FromInt: the conversion of doubles is not modelled.
- DigitRoutines.ShiftRight: shifts that are not a multiple of sixteen bits, as the remainder uses it; the general right shift with its flooring of negative numbers is not modelled.
- BigIntRuntimes.BigIntRuntime.Parse: the radix argument, which every caller leaves out.
- IndexedDbFiles.IndexedDbFileSystem: the linked list of queued items is a sequence, and buffers are numbered so that a queued view keeps showing a buffer that changes; closing the file system and failures of the browser's database are not modelled.
- IndexedDbFiles.IndexedDbFileSystem.WriteTo: agreement with the store is claimed for writes at or before the end of the file or to temporary files; `SparseWriteExact`, `SparseWritePending` and `MergedSparseWrite` say exactly when the others agree.
- IndexedDbFiles.IndexedDbFileSystem.TruncateTo: agreement is claimed for truncations that do not grow the file; `GrowingTruncateExact` and `GrowingTruncatePending` say exactly when the others agree.
- Utf8Codec.Utf8Decoder.Convert: the strict decoder, the only one ever built; the browser's own decoder, tried first on longer input, and the tolerant mode are not modelled.
- Utf8Codec.Scan: strict decoding only; the tolerant mode, which writes U+FFFD for what it cannot read, is built nowhere.
- Utf8Codec.Utf8Decoder.DecodeGeneral: strict decoding only, as for `Scan`.
- Utf8.Class: the class and transition tables are given by their ranges.
- DriftCodec.ValueRoundTrip: numbers are real numbers, so the infinities, the value that is not a number and negative zero have no counterpart; stack traces are text.
- DriftCodec.DecodePayload: an enumeration number out of range gives no value, as the source's unchecked look-up does; an unknown kind of request or message is a failure, for the exception the source throws.
- DriftCodec.TableFromJs: a value behind the last column has no name, for the undefined key that the source stores it under; only the last such value of a row is kept, as there.
- The request and response handshake over shared memory, streams, zones and the rest of the worker's runtime.
