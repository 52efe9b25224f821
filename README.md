# farside flows: normaliser and change-aware upsert

This project models the two pieces of sequential logic in the farside flows pipeline and proves their properties in Dafny.

The first piece is the day normaliser `enrichFarsideJson` together with the storage coercion `cleanFlow`. The normaliser:

- drops the days whose `Date` is not a valid date;
- walks each remaining day's columns in order;
- registers ticker names in a registry shared by the whole batch;
- reads the values of tickers that are already registered, so `-` is 0 and a figure in parentheses is an outflow;
- replaces the day's `Total` with the sum of the values it read.

The second piece is the upsert of normalised days into the flows table, keyed by a row id derived from the formatted day:

- The seeding script upserts every day of the BTC table with no change tracking.
- The scheduled ETH job upserts only the last five days. Before writing each day it reads the existing row, and it records one change per day: is the day new, the previous total, the new total and the figures pushed.

A consequence worth knowing: a name's first appearance in a batch is only registered, and its value is not read (src/app/seed.ts:29). So when a batch's first day holds the only `IBIT` inflow, that day's total is 0. If the same day is then restated as an outflow, the change records a previous total of 0, not the inflow. The model follows the code here; `EthScrape.RestatedDayExample` proves this outcome for a concrete pair of days.

Files, one module each:

- `wrappers.dfy`: `Option`.
- `cells.dfy`: a day record as an ordered list of column/value pairs, property read `Get` and property assignment `SetField`, and the date library as a `Calendar` value.
- `numerals.dfy`: the `numeral` library's reading of a figure and JavaScript's `Number`, modelled as small grammars over exact reals.
- `flows.dfy`: the cell parser of the normaliser (sentinel, parentheses, sign) and `cleanFlow`.
- `identity.dfy`: `toLowerCase`, `replaceAll` and the row id.
- `registry.dfy`: the shared `tickers` array.
- `normalize.dfy`: the loop over one day's columns, as a method with its invariant, and the functions that specify it.
- `enrich.dfy`: the date filter and the `.map` over the days.
- `store.dfy`: the table. It is a class whose field is a map from id to row, with `findFirst` and `upsert` as methods, plus the state after a sequence of upserts.
- `eth_scrape.dfy`: the ETH job from the scraped table onwards, and a worked restatement example.
- `seed.dfy`: the seeding script's `main` from the parsed file onwards.

## Model

| member | source | states |
|---|---|---|
| Cells.Get | src/app/seed.ts:68-79 | Reading a property gives nothing exactly when no column has that name. Otherwise it gives the value of a column with that name. |
| Cells.SetField | src/app/seed.ts:39 | An assignment removes no column and adds at most one. |
| Cells.SetFieldGet | src/app/seed.ts:39 | After `dup.Total = Total`, `Total` reads the new value and every other property reads as before. |
| Cells.SetFieldKeys | src/app/seed.ts:39 | Assigning an existing property keeps the column order. Assigning a new one appends it at the end. |
| Cells.SetFieldAt | src/app/seed.ts:39 | Position by position, assignment changes only the first column under the key. |
| Numerals.Fraction | src/app/seed.ts:33 | The digits after a point denote a value of at least 0 and below 1. |
| Numerals.ParseUnsigned | src/app/seed.ts:33 | An unsigned figure never reads as a negative amount. |
| Numerals.NumeralValue | src/app/seed.ts:33-34 | `numeral` reads no number from the empty string. |
| Numerals.NumberValue | src/app/seed.ts:57 | `Number("")` is 0, unlike `numeral`, which reads nothing from it. |
| Numerals.ReadGroupedNumeral | src/app/seed.ts:33 | `numeral` reads any comma-grouped natural number back as that number. |
| Numerals.ReadGroupedDecimal | src/app/seed.ts:33 | A comma-grouped natural number followed by `.` and any digits reads as that number plus the fraction the digits denote. |
| Numerals.UngroupThousands | src/app/seed.ts:33 | Removing the separators of a grouped numeral leaves exactly the digits of the number. |
| Numerals.Strip | src/app/seed.ts:33 | `replaceAll(c, '')` leaves no occurrence of `c`. |
| Numerals.StripFacts | src/app/seed.ts:33 | Removing a character introduces no new character, and text without that character is left unchanged. |
| Numerals.StripAppend | src/app/seed.ts:33 | `replaceAll(c, '')` distributes over concatenation. |
| Numerals.ReadPlainNumeral | src/app/seed.ts:33-57 | A plain digit string reads as its number through both `numeral` and `Number`. |
| Numerals.NumberAgreesWithNumeral | src/app/seed.ts:33-57 | On comma-free text, whatever `numeral` reads, `Number` reads the same. |
| Numerals.CommasIrrelevant | src/app/seed.ts:33-57 | On comma-free text, allowing thousands separators changes nothing. |
| Numerals.NumeralSign | src/app/seed.ts:33 | `numeral` reads a negative amount only from text that opens with `-`, and never a positive one from such text. |
| Numerals.NumberSign | src/app/seed.ts:57 | `Number` reads a negative amount only from text that opens with `-`, never a positive one from such text, and never a negative one from text that opens with `+`. |
| Numerals.NumberRejectsStray | src/app/seed.ts:57 | `Number` is NaN on any text containing a character that is not a digit, a sign or the point, such as `1,234` or `(5)`. |
| Numerals.NumberRejectsDash | src/app/seed.ts:57 | `Number("-")` is NaN. |
| Numerals.ReadDecimalExample | src/app/seed.ts:33 | `1,234.5` reads as 1234.5. |
| Numerals.ReadSmallDecimalExample | src/app/seed.ts:33 | `1.5` reads as 1.5. |
| Flows.HasParen | src/app/seed.ts:32 | Text holding a parenthesis is never empty and is never the sentinel `-`. |
| Flows.StripParens | src/app/seed.ts:33 | The two `replaceAll` calls leave no parenthesis in the text. |
| Flows.Scale | src/app/seed.ts:33 | `.multiply(sign).value()` fails exactly when the read failed. |
| Flows.ScaleBySign | src/app/seed.ts:32-33 | The sign 1 leaves a reading unchanged, and the sign -1 negates it. |
| Flows.ReadSentinel | src/app/seed.ts:30 | The sentinel `-` reads as 0. |
| Flows.ParseFlow | src/app/seed.ts:30-34 | A numeric cell reads as itself and the sentinel `-` as 0. Any other text without parentheses reads exactly as `numeral` reads it. |
| Flows.ReadInflow | src/app/seed.ts:32-33 | A grouped figure without parentheses reads as the positive amount. |
| Flows.ReadOutflow | src/app/seed.ts:32-33 | A grouped figure in parentheses reads as the negated amount once both parentheses are removed. |
| Flows.ReadInflowDecimal | src/app/seed.ts:32-33 | A grouped figure with a fraction and without parentheses, such as `1,234.5`, reads as its positive amount. |
| Flows.ReadOutflowDecimal | src/app/seed.ts:32-33 | The same figure in parentheses, such as `(1,234.5)`, reads as the negated amount. |
| Flows.ReadNegated | src/app/seed.ts:32-33 | A parenthesis-free figure of value v, wrapped in parentheses, reads as -v. |
| Flows.ReadOutflowExample | src/app/seed.ts:32-33 | `(1.5)` reads as -1.5. |
| Flows.ReadWrapped | src/app/seed.ts:32-33 | Text holding either parenthesis anywhere, such as `(5)`, `50)` or `5(0`, reads as the negation of what `numeral` reads from it once every parenthesis is gone. |
| Flows.ReadTrailingParenExample | src/app/seed.ts:32-33 | A lone closing parenthesis, as in `50)`, is enough to mark an outflow: it reads as -50. |
| Flows.Unwrap | src/app/seed.ts:33 | Both `replaceAll` calls turn `(body)` back into `body`. |
| Flows.StripParensNoop | src/app/seed.ts:33 | Text without parentheses is left as it is. |
| Flows.JsNumber | src/app/seed.ts:57 | `Number(undefined)` is NaN, a number is itself and `Number("")` is 0. |
| Flows.CleanFlow | src/app/seed.ts:57 | `cleanFlow` stores the number `Number` gives, or 0 when `Number` gives NaN. |
| Flows.CleanFlowOfNumber | src/app/seed.ts:57 | A numeric cell is stored as that number. |
| Flows.CleanFlowIdempotent | src/app/seed.ts:57 | `cleanFlow` of the number `cleanFlow` returned is that same number. |
| Flows.CleanFlowAgreesOnPlainFigures | src/app/seed.ts:33-57 | On a plain figure (no comma, no parenthesis, not the sentinel), `cleanFlow` stores what the cell parser reads. |
| Flows.CleanFlowZeroes | src/app/seed.ts:57 | `cleanFlow` stores 0 for a grouped figure, a figure in parentheses, the sentinel and an absent property. |
| DayIdentity.Lower | src/app/seed.ts:60 | A lower-cased character is never upper-case. An upper-case letter moves to its lower-case partner, and any other character is kept. |
| DayIdentity.ToLower | src/app/seed.ts:60 | `toLowerCase` keeps the length and lower-cases each character in place. |
| DayIdentity.ReplaceAll | src/app/seed.ts:60 | `replaceAll(' ', '-')` keeps the length, puts `-` at each position that held a space and keeps every other character. |
| DayIdentity.XataId | src/app/seed.ts:60 | The id is as long as the formatted day and holds no space and no upper-case letter. Each character is the day's character lower-cased, with a space turned into `-`. |
| DayIdentity.XataIdInjectiveUpToCase | src/inngest/scrap-farside-eth-and-store-it.function.ts:71-72 | Two formatted days get the same id exactly when they agree up to letter case and space versus hyphen. |
| TickerRegistry.RegisterFacts | src/app/seed.ts:17-29 | Registering only grows the registry and adds exactly the new names. A registry without duplicates stays without duplicates. |
| TickerRegistry.Register | src/app/seed.ts:29 | The registry keeps what it held as a prefix and grows by at most one name per key. |
| TickerRegistry.RegisterStep | src/app/seed.ts:29 | One more key is appended exactly when it is not listed yet. |
| TickerRegistry.RegisterAppend | src/app/seed.ts:17-29 | Registering two runs of keys in turn is the same as registering them together. |
| TickerRegistry.RegistryOrder | src/app/seed.ts:29 | The registry lists each name once, in the order the names were first met. |
| TickerRegistry.IndexOf | src/app/seed.ts:29 | The position found holds the name, and no earlier position does. |
| Normalizer.Skipped | src/app/seed.ts:27-28 | `Date` and `Total` are always skipped, whatever the calendar. |
| Normalizer.VisitColumn | src/app/seed.ts:25-37 | One turn of the column loop. A skipped column changes nothing. A new name is only registered. For a registered name, `-` writes 0 and a readable cell is written and added to the total. An unreadable cell is neither written nor added. |
| Normalizer.NormalizeDay | src/app/seed.ts:20-41 | The `.map` callback returns the normalised day and extends the registry by the day's ticker candidates. |
| Normalizer.LoopStep | src/app/seed.ts:24-38 | A turn of the loop, as `VisitColumn` states it, keeps the loop invariant. |
| Normalizer.LoopDone | src/app/seed.ts:24-39 | At the end the invariant gives the normalised cells, the day's registry and the parsed total. |
| Normalizer.StepFacts | src/app/seed.ts:27-36 | Case by case: what the registry, the cell and the running total become at one column. |
| Normalizer.ColumnOutcome | src/app/seed.ts:27-36 | What the column at a position contributes to the total, and what it then holds. |
| Normalizer.TickerKeysFacts | src/app/seed.ts:27-29 | The candidates are exactly the day's column names that are not `Date`, `Total` or date-like. |
| Normalizer.NormalizedDayFacts | src/app/seed.ts:21-39 | The normalised day keeps the columns in order, adding `Total` at the end when missing. `Total` holds the sum of the values read, and each other column holds the loop's value. Skipped columns are unchanged. |
| Normalizer.NormalizedDay | src/app/seed.ts:21-39 | The normalised day loses no column and gains at most one, and its `Total` is the sum of the values read. |
| Normalizer.FreshColumnsOnlyRegister | src/app/seed.ts:29 | A day whose columns are all new to the registry keeps every cell and gets total 0. |
| Normalizer.KnownIsRegistered | src/app/seed.ts:29 | A column counts as known exactly when the registry held at that point lists it. |
| Enrichment.EnrichFarsideJson | src/app/seed.ts:16-43 | The result is the registry of the valid days and each valid day normalised against the registry left by the days before it. |
| Enrichment.DateDecidesValidity | src/app/seed.ts:19 | Whether a day passes the date filter depends on its `Date` property alone. |
| Enrichment.ValidDays | src/app/seed.ts:18-19 | The filter keeps only days from the input whose date is valid. |
| Enrichment.ValidDaysCount | src/app/seed.ts:18-19 | N rows of which K have an invalid date leave exactly N - K days. |
| Enrichment.ValidDaysAppend | src/app/seed.ts:18-19 | The filter works row by row and keeps the order. |
| Enrichment.ValidDaysSingle | src/app/seed.ts:19 | A single row is kept exactly when its date is valid. |
| Enrichment.NormalizedBatch | src/app/seed.ts:20 | One output day per valid day. |
| Enrichment.NormalizedBatchAt | src/app/seed.ts:20-41 | The j-th output is the j-th day normalised against the registry of the days before it. |
| Enrichment.BatchStep | src/app/seed.ts:20-41 | One more day extends the registry by its candidates and the output by its normalised form. |
| Enrichment.BatchKeysFacts | src/app/seed.ts:27-29 | The batch's candidates are exactly its column names that are not skipped. |
| Enrichment.BatchRegistryFacts | src/app/seed.ts:17-29 | The registry has no duplicates, never lists `Date`, `Total` or a date-like name, lists exactly the batch's ticker columns, and lists them in first-seen order. |
| Enrichment.BatchRegistryGrows | src/app/seed.ts:17-29 | Later days only append to the registry the earlier days left. |
| Enrichment.BatchKeysSplit | src/app/seed.ts:20-41 | The candidates of a batch are those of its two halves, one after the other. |
| Enrichment.FirstDayOfBatch | src/app/seed.ts:29-39 | The first day only registers its tickers: its cells are kept and its `Total` becomes 0. |
| FlowStore.DayId | src/app/seed.ts:59-60 | A row id is as long as the formatted day and holds no space. |
| FlowStore.DateDecidesDay | src/inngest/scrap-farside-eth-and-store-it.function.ts:71-72 | The formatted day and the row id depend on the `Date` property alone, so two records with the same date share a row whatever their figures. |
| FlowStore.DayIdShape | src/app/seed.ts:59-60 | A row id holds no space and no upper-case letter. Two days with the same formatted day get the same id. |
| FlowStore.CleanedFlows | src/inngest/scrap-farside-eth-and-store-it.function.ts:82-92 | `dataToPush` has exactly the table's ticker columns, each holding `cleanFlow` of the day's property. |
| FlowStore.DayFields | src/inngest/scrap-farside-eth-and-store-it.function.ts:95-106 | The row's day gives back the row id, the raw column is the day itself, and the figures cover exactly the table's ticker columns. |
| FlowStore.AfterDayFacts | src/inngest/scrap-farside-eth-and-store-it.function.ts:95-106 | After one upsert the day's row sits under its id, holding the same fields on either branch. The table gains at most that id, and other rows are unchanged. |
| FlowStore.AfterDay | src/inngest/scrap-farside-eth-and-store-it.function.ts:95-106 | One upsert adds at most the day's id to the table, and the row under that id holds the day's fields. |
| FlowStore.AfterDays | src/app/seed.ts:58-101 | A run of upserts never removes a row, and the last day of the run leaves its own fields under its id. |
| FlowStore.FlowTable.FindFirst | src/inngest/scrap-farside-eth-and-store-it.function.ts:79 | `findFirst` finds nothing exactly when the id is absent. Otherwise it returns the row stored under the id. |
| FlowStore.FlowTable.Upsert | src/inngest/scrap-farside-eth-and-store-it.function.ts:95-106 | The row under the id becomes the update fields when the id existed and the create fields otherwise. Other rows are unchanged, and every row stays under its own id. |
| FlowStore.FlowTable.constructor | src/app/seed.ts:10 | A client over a well-keyed table. |
| FlowStore.AfterDayIdempotent | src/inngest/scrap-farside-eth-and-store-it.function.ts:95-106 | Upserting the same day twice leaves the table as one upsert does. |
| FlowStore.AfterDaysOverrides | src/app/seed.ts:58-101 | Upserting a run of days overrides the table with the rows the days write. |
| FlowStore.WritesFacts | src/app/seed.ts:58-101 | Each written row sits under its own id, and the ids written are exactly those of the run's days. |
| FlowStore.InWindowStep | src/app/seed.ts:58 | An id belongs to a run of days exactly when it belongs to all but the last day or is the last day's id. |
| FlowStore.AfterDaysFacts | src/app/seed.ts:58-101 | A run of upserts keeps every row under its id and leaves a row for every day. Rows under other ids are as they were. |
| FlowStore.AfterDaysIdempotent | src/inngest/scrap-farside-eth-and-store-it.function.ts:69-120 | Running the same window twice leaves the table as running it once. |
| EthScrape.LatestDays | src/inngest/scrap-farside-eth-and-store-it.function.ts:66 | `slice(-5)` gives the last five days, or all of them when there are fewer, in order. |
| EthScrape.ScrapFarsideEthAndStoreIt | src/inngest/scrap-farside-eth-and-store-it.function.ts:55-120 | The job reports empty data exactly when normalisation leaves no day, and then leaves the table untouched. Otherwise the table is the old one after upserting the last five days in order, and the change list is the change of each of those days. |
| EthScrape.UpsertWindow | src/inngest/scrap-farside-eth-and-store-it.function.ts:68-120 | One upsert and one change per day of the window, in order. |
| EthScrape.UpsertDay | src/inngest/scrap-farside-eth-and-store-it.function.ts:70-116 | One day derives its id and reads the existing row, then upserts the cleaned fields. The change it records is computed from the table as it was before the write. |
| EthScrape.ChangeFor | src/inngest/scrap-farside-eth-and-store-it.function.ts:109-115 | A change names the day's id. The day is new exactly when the table has no row under it, and only then is the previous total null. |
| EthScrape.ChangeForFacts | src/inngest/scrap-farside-eth-and-store-it.function.ts:109-115 | A change names the day's id. `dayIsNew` holds exactly when no row existed. `prevTotal` is the previous row's total, or null when there was none. `newTotal` and `dataToPush` are what the upsert wrote. |
| EthScrape.ChangesFor | src/inngest/scrap-farside-eth-and-store-it.function.ts:68-119 | One change per processed day, in order. The k-th is the k-th day's change against the table the first k days left. |
| EthScrape.ChangesForFacts | src/inngest/scrap-farside-eth-and-store-it.function.ts:68-119 | The k-th change names the k-th day's id and is that day's change against the table left by the days before it. It is new exactly when neither the table nor an earlier day of the window had the id. |
| EthScrape.SeenBefore | src/inngest/scrap-farside-eth-and-store-it.function.ts:79-111 | After a run of days, a row exists under an id exactly when it existed before or a day of the run has that id. |
| EthScrape.RepeatedDay | src/inngest/scrap-farside-eth-and-store-it.function.ts:79-115 | Processing a day again leaves the table unchanged. The second change is not new, and its previous total is the first change's new total. |
| EthScrape.Restatement | src/inngest/scrap-farside-eth-and-store-it.function.ts:79-115 | A later day with an earlier day's id is recorded as not new. Its previous total is the earlier day's total and its new total is its own. |
| EthScrape.RestatedDayExample | src/inngest/scrap-farside-eth-and-store-it.function.ts:55-119 | A day first scraped with an `IBIT` inflow of 100.5 and then restated as `(50)`, upserted into an empty table, records first a new day with total 0, then a day that is not new with previous total 0 and new total -50. |
| EthScrape.TwoDays | src/inngest/scrap-farside-eth-and-store-it.function.ts:69-119 | Two days with the same id and numeric totals, upserted into an empty table, record a new day and then a restatement carrying the first total. |
| Seed.SeedFlows | src/app/seed.ts:49-101 | Seeding leaves the table as upserting every normalised valid day in order would. |
| Seed.UpsertAll | src/app/seed.ts:58-101 | The loop upserts each normalised day in order, with the same fields on both branches. |
| Seed.SeedOutcome | src/app/seed.ts:58-101 | After seeding, the table is the old one overridden by the rows the days write, and stays well keyed. Seeding the same file again changes nothing. |

## Left out

- The scrape itself: the HTTP fetch through the proxy and the HTML-to-JSON extraction. The ETH job's model starts from the extracted table `json`.
- `enrichEthFarsideJson` and the `cleanFlow` the ETH job imports: their definitions are not part of this model. The ETH job uses the `seed.ts` definitions of `enrichFarsideJson` and `cleanFlow` in their place. This is an assumption, not a claim that they are identical.
- The Inngest wrapper: `step.run` memoisation and retries, the cron trigger, the environment-variable checks and the returned `event`/`body` object. The result is reduced to the `emptyData` flag and `dbChanges`.
- The Telegram notification block: it is commented out and never runs.
- Console logging, the debug switch and the timestamp strings.
- dayjs: date validity, the `ddd DD MMM YYYY` format and 17:00 in local time or in UTC are the four functions of a `Calendar` value, taken as given. Which one is used is fixed per table: UTC for the seed, local time for the ETH job.
- Floating point: amounts are exact reals, so rounding in `numeral`, `Number` and the running total is not modelled.
- The `numeral` grammar is simplified to a leading `-`, decimal digits with comma separators and an optional fraction. The `Number` grammar is simplified to a leading `-` or `+`, decimal digits and an optional fraction. A number cell reads as itself.
- `numeral` reads forms the model rejects. It first tries the unformat rules of its registered formats, none of which the model has: `%` scales the value by 0.01 (`-76%` reads as -0.76), `:` reads a time in seconds (`2:23:57` reads as 8637), `e+` and `e-` read an exponent, and byte units such as `KB`, and `BPS`, scale the value. It also reads abbreviations such as `k` and `m` and currency symbols. Apart from those formats and abbreviations, it keeps the digits and the points, takes the sign from whether the text holds an odd number of `-`, and ignores the other characters. So `+5` reads as 5, `5-` as -5, `--5` as 5 and `12.5*` as 12.5, while the model reads none of them.
- `Number` also accepts forms the model rejects: exponents, surrounding white space, hexadecimal, binary (`0b101` is 5) and octal (`0o17` is 15) literals, and `Infinity`.
- In `numeral` 2.x, `.multiply` may call `toString` on the null that a digit-free text such as `""` or `()` reads as, and so throw before the `=== null` test on the following line. The model treats such text as a failed read, which skips the column.
- `toLowerCase` is modelled on the Latin alphabet only.
- Object property order: a record is the list of its columns in insertion order. JavaScript's rule that integer-like keys come first is not modelled.
- `JSON.stringify(dataToPush)`: the change keeps the map itself.
- Prisma: the row columns are one map of ticker figures plus `day`, the close hour as a number, `total` and `raw`. Database timestamps, schema defaults and transport errors are not modelled.
- Concurrency: the job's runs and the seed are modelled one at a time, against a table nobody else writes.
- Main's file reading and `JSON.parse`, and `$disconnect`.
- Cells.Get: it does not say which column with the name is read (the first), only that one with that name exists, because JavaScript objects never hold a name twice.
