# Motorcycle parts crawler: ingestion core in Dafny

This project models the part of the crawler that turns scraped listings into records, and
the part of the database handler that writes those records and groups them again.

**Text to records** (`cmd/crawler/main.go`)
- `standardizeSpaces` collapses white space.
- `parsePrice` finds the leftmost numeral of a price text.
- `extractYear` takes the leftmost four-digit run.
- `extractBrand` looks up the leading word, then the leading two words, in a brand index. The index ignores case, spaces and hyphens.
- `extractModel` returns the text between the brand and the year.
- `generateHash` is 32-bit FNV-1a over the concatenated arguments, written in decimal.
- `processRawVehicle` and `convertRawVehiclesToVehicles` build the normalised vehicle and its parts.

**Records to the store** (`internal/database/database.go`)
- `hasDuplicateVehicleIDs` is the duplicate check.
- `InsertVehicles` and `InsertParts` act on an abstract store. Each relation is a map from its unique column (`vehicle_id`, `part_id`) to the row. Each statement is `INSERT … ON CONFLICT DO NOTHING`.
- What the database does inside a transaction is a parameter (`Persistence.Driver`): which steps fail, and whether a commit issued after a failed statement keeps earlier rows.
- The row-grouping loop of `GetPartsForModel` is a fold over the rows of the join.

Modules, one per file:
- `Results`: Option and Result.
- `Text`: character classes, trimming, `strings.Index`, digits and `Itoa`.
- `Spaces`, `Price`, `Hash`, `Extract` and `Convert` model the crawler functions.
- `Models` holds the records.
- `Table` is a relation with ON CONFLICT DO NOTHING and the statement loop.
- `Persistence` holds the inserts and the two-phase transfer.
- `Grouping` holds the `GetPartsForModel` fold.
- `ExtractExamples` and `ConvertExamples` restate the repository's unit-test cases for `extractYear`, `extractBrand` and `extractModel` as lemmas. The `extractVehicleIdentifier` test is outside the model.

Strings are sequences of Unicode scalar values. The regular-expression classes `\d`, `\w` and `\s` are RE2's ASCII classes. `strings.Fields` and `strings.TrimSpace` use `unicode.IsSpace`. The brand lexicon (`data.Brands`) is a parameter. The `Vehicle` record carries the `identifier` field that the code reads and writes.

A failed statement does not roll the transaction back: the deferred handler commits (see Findings).

## Model

| member | source | states |
|---|---|---|
| Spaces.StandardizeSpaces | cmd/crawler/main.go:243-245 | the result has no leading, trailing or doubled white space, every white-space character in it is a plain space, it keeps every non-white-space character of the input in order, and `strings.Fields` splits it into the same fields as the input |
| Spaces.FieldsOfJoin | cmd/crawler/main.go:243-245 | `strings.Fields` gives back the fields joined with single spaces |
| Spaces.StandardizeIdempotent | cmd/crawler/main.go:243-245 | standardizing twice is the same as standardizing once |
| Spaces.StandardizeFixpoint | cmd/crawler/main.go:243-245 | the strings standardizeSpaces leaves unchanged are exactly those of the standardized shape |
| Text.TrimSpace | cmd/crawler/main.go:285 | the trimmed text is a slice of the input and does not start or end with white space |
| Text.TrimSpaceSplit | cmd/crawler/main.go:285 | only white space is cut off: the input is white space, then the trimmed text, then white space |
| Text.TrimSpacePadded | cmd/crawler/main.go:285 | trimming white-space padding around a core that has no white space at its ends gives back exactly that core |
| Text.PaddedUnique | cmd/crawler/main.go:285 | so any text that, padded with white space, makes up the input and has no white space at its ends is the trimmed text |
| Text.TrimSpaceIdempotent | cmd/crawler/main.go:319-322 | trimming a trimmed name again changes nothing, so `extractModel`'s second trim does not disturb `extractBrand`'s |
| Text.IndexOf | cmd/crawler/main.go:331 | `strings.Index` finds the first occurrence, or reports none when there is no occurrence anywhere |
| Text.Itoa | cmd/crawler/main.go:335 | `strconv.Itoa` writes digits with no leading zero, and they read back as the number |
| Text.ItoaOfDigits | cmd/crawler/main.go:274 | reading a digit string without a leading zero and writing it again gives it back |
| Price.ParsePrice | cmd/crawler/main.go:247-254 | the price fails exactly when the text has no ASCII digit; otherwise the match is the numeral starting at the first digit, with its fraction only when a dot and a digit follow |
| Price.NumeralAtUnique | cmd/crawler/main.go:249 | at a given position at most one numeral matches, so the leftmost match is well defined |
| Price.PriceOrZero | cmd/crawler/main.go:223-232 | a part's price is the matched numeral's exact value, and 0 when the text has no digit |
| Price.ParseDottedPrice | cmd/crawler/main.go:249-256 | "€ 123.45 incl. VAT" matches 123.45 |
| Price.ParseCommaPrice | cmd/crawler/main.go:249-256 | "45,00 €" matches 45: a comma does not start a fraction |
| Price.ParseNoPrice | cmd/crawler/main.go:252-253 | a text without digits gives the "no price found" error and the price 0 |
| Extract.ExtractYear | cmd/crawler/main.go:265-280 | the year is the value of the leftmost four-digit run, is at most 9999, and is 0 when there is no such run |
| Extract.YearTextOccurs | cmd/crawler/main.go:333-335 | a non-zero year, written again, occurs in the text, so the model extractor's index lookup succeeds |
| Extract.WindowMatch | cmd/crawler/main.go:286-287 | the one-word window is the leading run of `[\w-]`; a window is always a prefix of the trimmed name |
| Extract.BrandKey | cmd/crawler/main.go:294-299 | the lookup key has no hyphen, no space and no upper-case ASCII letter |
| Extract.PlainKey | cmd/crawler/main.go:294-299 | a spelling without hyphens or spaces keys as its lower-case form |
| Extract.BrandIndex | cmd/crawler/main.go:297-301 | every key of the index maps to a lexicon entry with that key, and every lexicon entry's key is in the index |
| Extract.BrandIndexLastWins | cmd/crawler/main.go:298-300 | among entries sharing a key, the index keeps the last |
| Extract.BrandKeySeparators | cmd/crawler/main.go:294 | a hyphen or a space between two words does not change the lookup key |
| Extract.SearchBrand | cmd/crawler/main.go:283-314 | one lookup of the given window, and from the one-word window at most one retry with the two-word window |
| Extract.ExtractBrand | cmd/crawler/main.go:283-314 | the brand is "" or a lexicon entry; a one-word hit is returned without the retry; otherwise a two-word hit; otherwise "" |
| Extract.ModelStart | cmd/crawler/main.go:331-337 | the model starts right after the first occurrence of the brand in the name, both lower-cased |
| Extract.ModelStop | cmd/crawler/main.go:333-340 | the model runs to the end of the name when the year is 0 |
| Extract.ModelStopAtYear | cmd/crawler/main.go:334-337 | with a year, the model ends at the first occurrence of the year's decimal spelling |
| Extract.ModelBetween | cmd/crawler/main.go:336-340 | the slice between brand and year is white space, then the result, then white space, and the result has no white space at its ends |
| Extract.ModelBetweenUnique | cmd/crawler/main.go:336-340 | any text with those two properties is the result |
| Extract.ExtractModel | cmd/crawler/main.go:317-342 | no brand gives ""; otherwise the slice between the end of the first case-insensitive brand occurrence and the year is the result padded with white space, and the result has no white space at its ends |
| Extract.ExtractModelExactly | cmd/crawler/main.go:317-342 | with a brand found, a text is the model exactly when it has those two properties |
| Extract.NameRoundTrip | cmd/crawler/main.go:265-342 | for a name "brand model year" followed by any text, whose model has no four-digit run, the extractors give back the brand, the year and the model |
| Extract.ShortNameRoundTrip | cmd/crawler/main.go:265-342 | for a name "brand model" without a year, the extractors give back the brand, the year 0 and the model |
| Extract.OneWordBrand | cmd/crawler/main.go:304-306 | a one-word window whose key only entry `b` has gives brand `b` |
| Extract.TwoWordBrand | cmd/crawler/main.go:308-311 | a one-word miss and a two-word hit whose key only `b` has gives brand `b` |
| Extract.NoBrand | cmd/crawler/main.go:289-313 | two misses give "" |
| ExtractExamples.BrandPlain | cmd/crawler/main_test.go:37 | "Suzuki" gives Suzuki |
| ExtractExamples.BrandWithText | cmd/crawler/main_test.go:38 | "Suzuki RX" gives Suzuki |
| ExtractExamples.BrandWithNumbers | cmd/crawler/main_test.go:39 | "Suzuki RX 203" gives Suzuki |
| ExtractExamples.BrandWithYear | cmd/crawler/main_test.go:40 | "Suzuki RX 203 2019" gives Suzuki |
| ExtractExamples.BrandTwoBrandsInName | cmd/crawler/main_test.go:41 | "Suzuki RX 203 2019 or Kawasaki XP" gives Suzuki |
| ExtractExamples.BrandSpaceSeparated | cmd/crawler/main_test.go:42 | "Harley Davidson RX203 2020" gives Harley Davidson through the two-word retry |
| ExtractExamples.BrandHyphenSeparated | cmd/crawler/main_test.go:43 | "Harley-Davidson RX203 2020" gives Harley Davidson from the one-word window |
| ExtractExamples.BrandUnknown | cmd/crawler/main.go:313 | a name starting with no lexicon entry has no brand |
| ExtractExamples.YearPlain | cmd/crawler/main_test.go:14 | "2019" gives 2019 |
| ExtractExamples.YearWithText | cmd/crawler/main_test.go:15 | "Suzuki 2019" gives 2019 |
| ExtractExamples.YearWithTextAndSpaces | cmd/crawler/main_test.go:16 | "Suzuki RX 2019" gives 2019 |
| ExtractExamples.YearWithOtherNumbers | cmd/crawler/main_test.go:17 | "Suzuki RX 203 2019" gives 2019 |
| ExtractExamples.ModelWithBrand | cmd/crawler/main_test.go:63 | "Suzuki RX" gives RX |
| ExtractExamples.ModelWithBrandAndYear | cmd/crawler/main_test.go:64 | "Suzuki RX 2019" gives RX |
| ExtractExamples.ModelWithSpaces | cmd/crawler/main_test.go:65 | "Suzuki RX 3 2019" gives "RX 3" |
| ExtractExamples.ModelWithOtherNumbers | cmd/crawler/main_test.go:66 | "Suzuki RX 3 2019 203" gives "RX 3" |
| ExtractExamples.ModelWithHyphen | cmd/crawler/main_test.go:67 | "Suzuki RX-3 2019" gives "RX-3" |
| Hash.GenerateHash | cmd/crawler/main.go:346-352 | the identifier is the decimal form, without leading zeros, of the 32-bit FNV-1a hash of the UTF-8 bytes of the concatenated arguments; it has 1 to 10 digits and its value is below 2^32 |
| Hash.WriteAllConcat | cmd/crawler/main.go:347-350 | writing the arguments one after the other into one hash state is hashing their concatenation |
| Hash.Fnv1aAppend | cmd/crawler/main.go:347-350 | hashing two byte strings one after the other is hashing their concatenation |
| Hash.GenerateHashConcat | cmd/crawler/main.go:346-352 | generateHash(a, b) equals generateHash(a + b): the arguments are not delimited |
| Hash.Fnv1aVectors | cmd/crawler/main.go:347 | the FNV-1a-32 test vectors for "", "a" and "foobar" from draft-eastlake-fnv |
| Hash.GenerateHashExample | cmd/crawler/main.go:351 | generateHash("a") is "3826002220" |
| Convert.ProcessRawPart | cmd/crawler/main.go:228-235 | the image links are copied unchanged |
| Convert.ProcessedPart | cmd/crawler/main.go:221-237 | a part's name and description are the raw ones standardized, so they keep their fields and their non-space characters; its identifier is the hash of the raw part identifier followed by the vehicle name; its price is the numeral's value, or 0 without digits |
| Convert.ProcessRawParts | cmd/crawler/main.go:221-239 | one part per raw part, in the same order |
| Convert.ProcessRawVehicle | cmd/crawler/main.go:208-241 | the name is the standardized raw name, the link is copied, the type is the category, and the parts are the raw parts processed in order under that name |
| Convert.ProcessedVehicle | cmd/crawler/main.go:213-219 | the name has the raw name's fields; year, brand and model are those extracted from the standardized name; the identifier is the hash of the link followed by that name |
| Convert.ConvertRawVehiclesToVehicles | cmd/crawler/main.go:198-205 | one vehicle per raw vehicle, in the same order |
| Convert.RawFieldsIgnored | cmd/crawler/main.go:208-241 | the scraped brand, model and year of a listing play no part in the vehicle |
| ConvertExamples.ProcessListing | cmd/crawler/main.go:208-241 | the listing "Suzuki RX 2019" with a part priced "45,00 €" becomes a Suzuki RX of 2019 with one part of price 45 |
| Table.InsertIgnore | internal/database/database.go:76 | one ON CONFLICT DO NOTHING insert: a taken key changes nothing, a new key gets the row, no other row changes |
| Table.InsertAll | internal/database/database.go:82-88 | after the loop the keys are the old keys plus the batch keys; old rows are kept; a new key holds the row of its first statement |
| Table.InsertAllPresent | internal/database/database.go:76 | a batch whose keys are all taken leaves the table unchanged |
| Table.InsertAllIdempotent | internal/database/database.go:76-88 | inserting the same batch twice gives the table of inserting it once |
| Table.InsertAllAppend | internal/database/database.go:125-134 | inserting two batches in turn is inserting their concatenation |
| Table.InsertAllNewRows | internal/database/database.go:82-88 | every added row is the row of one of the statements, under its key |
| Table.Execute | internal/database/database.go:82-88 | statements run in order and the first failing one ends the loop |
| Table.ExecuteTable | internal/database/database.go:82-88 | the table then holds every statement when none fails, and otherwise exactly the statements before the failing one |
| Table.ExecuteFaultFree | internal/database/database.go:82-88 | with no failing statement every statement is inserted |
| Table.ExecuteStopsAtFailure | internal/database/database.go:84-86 | statements after the failing one are never attempted |
| Persistence.HasDuplicateVehicleIds | internal/database/database.go:34-51 | true exactly when two vehicles at different positions share an identifier |
| Persistence.DuplicateScan | internal/database/database.go:36-47 | the scan with a seen set finds an identifier seen before or repeated later |
| Persistence.VehicleEntries | internal/database/database.go:82-83 | one statement per vehicle, in batch order, keyed by its identifier |
| Persistence.PartEntries | internal/database/database.go:125-134 | the nested loops execute as many statements as the batch has parts |
| Persistence.PartEntriesContents | internal/database/database.go:125-131 | one statement per part of the batch; each is a part's row with its owner's identifier as `vehicle_id`; every part has its statement |
| Persistence.ProgressTotal | internal/database/database.go:118-123 | the progress total is the sum of the part counts, which is the number of part statements |
| Persistence.TransactAsWritten | internal/database/database.go:58-89 | as written: the only errors returned are those of Begin, Prepare and a statement; a failed Begin or Prepare leaves the table unchanged; a failed statement is reported, but what stays depends on the database; a failed commit is reported as success with nothing stored |
| Persistence.Transact | internal/database/database.go:58-89 | as intended: all or nothing, with success exactly when no step fails |
| Persistence.CommitErrorSwallowed | internal/database/database.go:69-72 | a commit failure on the success path returns no error though nothing is stored |
| Persistence.PartialCommitAfterFailedExec | internal/database/database.go:83-85 | after a failed statement the handler commits; on a database that keeps earlier rows, the batch is half written while an error is returned |
| Persistence.AsWrittenAgreesOnPostgres | internal/database/database.go:62-74 | when the database drops a transaction after a failed statement and the commit succeeds, the code as written behaves as intended |
| Persistence.AsWrittenAgreesAfterFailedExec | internal/database/database.go:62-88 | when the database drops a transaction after a failed statement and a statement of the batch fails, the code as written behaves as intended, whatever the commit reports |
| Persistence.InsertVehiclesAsWritten | internal/database/database.go:53-90 | as written: a duplicate identifier returns an error with the store unchanged, parts are not touched, and a run reported successful whose commit succeeds stores the batch |
| Persistence.InsertVehicles | internal/database/database.go:53-90 | a duplicate identifier is refused before any transaction; otherwise the vehicles are inserted all or nothing; parts are not touched (as intended, corrected; the code as written is Persistence.InsertVehiclesAsWritten) |
| Persistence.InsertPartsAsWritten | internal/database/database.go:93-136 | as written: vehicles are not touched, and a successful run with a successful commit stores every part row |
| Persistence.InsertParts | internal/database/database.go:93-136 | every part row is inserted, or, on an error, none is; vehicles are not touched (as intended, corrected; the code as written is Persistence.InsertPartsAsWritten) |
| Persistence.TransactFaultFree | internal/database/database.go:58-89 | when no step fails, the transaction as written and as intended both insert every statement and report success |
| Persistence.InsertsAgreeWhenFaultFree | internal/database/database.go:53-136 | when no step fails, both insert functions as written equal the intended ones |
| Persistence.InsertVehiclesIdempotent | internal/database/database.go:76-89 | re-inserting a batch, with no step failing, changes nothing (intended version) |
| Persistence.InsertPartsIdempotent | internal/database/database.go:113-135 | re-inserting the parts of a batch, with no step failing, changes nothing (intended version) |
| Persistence.InsertsAsWrittenIdempotent | internal/database/database.go:53-136 | the same two facts for the insert functions as written |
| Persistence.InsertVehiclesPresent | internal/database/database.go:76 | a batch whose vehicles are all stored leaves the store unchanged, whatever fails (intended version) |
| Persistence.InsertVehiclesAsWrittenPresent | internal/database/database.go:53-90 | the same for the vehicle insert as written |
| Persistence.TransactAsWrittenRows | internal/database/database.go:82-88 | whatever fails, a transaction as written adds only rows of its statements |
| Persistence.InsertPartsAsWrittenReferences | internal/database/database.go:125-131 | every part row added is a part of the batch and references its owning vehicle's identifier |
| Persistence.InsertPartsReferences | internal/database/database.go:125-131 | the same for the all-or-nothing insert (intended version) |
| Persistence.TransferAsWritten | cmd/crawler/main.go:363-371 | a batch with a duplicate identifier leaves the store unchanged; a reported vehicle error ends the transfer with that error and the parts untouched, so parts change only after the vehicle insert reported success |
| Persistence.Transfer | cmd/crawler/main.go:363-371 | the parts are written only after the vehicles succeed: a failed vehicle phase leaves the store unchanged and is reported, any failure leaves either the old store or the old store plus the batch's vehicles, and on success both relations hold the batch (as intended, corrected; the code as written is Persistence.TransferAsWritten) |
| Persistence.TransferFaultFree | cmd/crawler/main.go:363-371 | with no failing step and no repeated identifier, the transfer reports success and both relations hold the batch (intended version) |
| Persistence.TransferIdempotent | cmd/crawler/main.go:363-371 | transferring a valid batch twice, with no step failing, gives the store of transferring it once (intended version) |
| Persistence.TransferAgreesWhenFaultFree | cmd/crawler/main.go:363-371 | when no step fails the transfer as written equals the intended one, and so is idempotent on a valid batch |
| Persistence.TransferKeepsReferences | cmd/crawler/main.go:363-371 | if every stored part references a stored vehicle before a transfer, the same holds after it, whatever fails (as intended, corrected; the code as written is Persistence.TransferAsWritten, which breaks it (Persistence.DanglingPartAfterSwallowedCommit)) |
| Persistence.DanglingPartAfterSwallowedCommit | internal/database/database.go:69-72 | as written, a failed vehicle commit lets the part phase run; on a store that does not enforce the key from `Parts.vehicle_id` to `Vehicles`, the parts are stored without their vehicle |
| Persistence.SwallowedCommitWithForeignKey | cmd/crawler/main.go:368-371 | on PostgreSQL with that key enforced, the part statement fails instead: the transfer reports the error and nothing is stored |
| Grouping.AddRow | internal/database/database.go:315-329 | a row's part is appended to its group, and a new group is created from the row; no other group changes |
| Grouping.GroupRows | internal/database/database.go:294-331 | one group per identifier; a group holds exactly the parts of the rows with its identifier, in row order; year, model and brand come from its first row; the other columns stay empty |
| Grouping.PartsOfGroups | internal/database/database.go:294-331 | every row lands in the group of its own identifier, and no group is empty |
| Grouping.SplitCount | internal/database/database.go:316-329 | the rows of one identifier and the rest account for all rows |
| Grouping.CountAllParts | internal/database/database.go:294-331 | counting the parts group by group over a list naming every identifier once counts each row once |
| Grouping.ToSlice | internal/database/database.go:334-337 | the slice holds the groups in the map's iteration order, which is a parameter |
| Grouping.GroupedPartsTotal | internal/database/database.go:294-339 | whatever the iteration order, the returned vehicles hold as many parts as there were rows |
| Grouping.ScanRows | internal/database/database.go:295-313 | the rows as scanned, or the position of the first row that cannot be read |
| Grouping.GetPartsForModel | internal/database/database.go:294-339 | a scan failure fails the call; otherwise the groups of all rows |

## Left out

- Crawling with colly, the JSON snapshot, file handling, the `main` function and opening or pinging the database: I/O. Of `transferVehiclesToDatabase` only the order of the two inserts is modelled.
- The SQL query functions and the HTTP API: pass-throughs to PostgreSQL and routing. Only the grouping fold of `GetPartsForModel` is modelled. Its query is replaced by the sequence of scanned rows, which is a parameter.
- `strconv.ParseFloat`: a price is the exact decimal value of the matched numeral, not a float64, so rounding is not modelled. Neither is the overflow path (cmd/crawler/main.go:256-259): a numeral of more than about 309 digits makes ParseFloat fail, and the price is then 0, where the model keeps the exact value.
- `strings.ToLower`: the model lowers ASCII letters only and keeps the length. Go lowers every Unicode letter, and the byte length can change, which would shift the brand index in `extractModel`.
- Extract.ExtractModel: requires that the brand occurs in the name (ignoring case) and ends no later than the year. When the brand does not occur, `strings.Index` gives -1 and the slice starts at `len(brand) - 1`: Go returns the wrong text or, when that start lies past the year or the end of the name, panics. One case is a hyphenated spelling such as "Harley-Davidson RX203 2020", whose entry "Harley Davidson" does not occur, so Go returns "n RX203". These cases are excluded rather than modelled.
- Convert.ProcessRawVehicle and Convert.ConvertRawVehiclesToVehicles: inherit that precondition for the standardized name.
- The brand lexicon (`data.Brands`) is not part of this model. It is the parameter `lexicon`.
- Logging, the progress bar's display and the panic/recover branch of the deferred handlers are left out. A panic cannot happen in the modelled insert functions.
- The foreign key from `Parts.vehicle_id` to `Vehicles` is not enforced by the model's store. Persistence.PartsReferenceVehicles states it as an invariant instead. A violation is modelled only as a failing statement of the driver (Persistence.SwallowedCommitWithForeignKey).
- Vehicles are keyed by `vehicle_id`, the unique column the insert writes. Other unique constraints on `Vehicles` are not modelled.
- Persistence.InsertVehiclesIdempotent, Persistence.InsertPartsIdempotent and Persistence.TransferIdempotent: stated for the intended versions and for drivers where no step fails. Persistence.InsertsAsWrittenIdempotent and Persistence.TransferAgreesWhenFaultFree carry them over to the code as written. With failing steps, re-running can store more than the first run did, so no idempotence is promised there.
- Go's 64-bit `int` for the year and the progress total: unbounded, since the year is at most 9999 and a batch cannot hold 2^63 parts.
- `Test_extractVehicleIdentifier` tests a function that is not part of this model.

## Findings

| source | as written | input that shows it | evidently intended | confidence | as-written member | corrected member |
|---|---|---|---|---|---|---|
| internal/database/database.go:69-72 (and 106-109) | the commit error is assigned to `err`, but the function's result is not named, so `nil` is returned | a one-row batch whose commit fails: the insert reports success, nothing is stored, and the crawler goes on to the parts; on a store that does not enforce the key from `Parts.vehicle_id` to `Vehicles` they are written without their vehicle (with the key, the part insert fails and the crawler stops) | the commit error is returned to the caller | not executed; high | Persistence.TransactAsWritten (shown by Persistence.CommitErrorSwallowed, Persistence.DanglingPartAfterSwallowedCommit and Persistence.SwallowedCommitWithForeignKey) | Persistence.Transact |
| internal/database/database.go:83 (and 128) | `_, err := stmt.Exec(...)` declares a new `err` in the loop; the deferred handler reads the outer one, sees no error and commits | two rows where the second statement fails, on a database that keeps the rows before a failed statement: the first row is committed and an error is returned | the deferred handler rolls back, so nothing of the batch is stored | not executed; medium (PostgreSQL turns the commit of a failed transaction into a rollback, so there the effect does not show; Persistence.AsWrittenAgreesOnPostgres and Persistence.AsWrittenAgreesAfterFailedExec) | Persistence.TransactAsWritten (shown by Persistence.PartialCommitAfterFailedExec) | Persistence.Transact |
