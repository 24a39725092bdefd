# Country refresh pipeline, modelled in Dafny

This project models `refreshAll` of the Currency-Converter-API service
(`src/services/refreshService.js`). One refresh does four things:

1. It fetches the countries catalog and the exchange-rate feed. A failed fetch
   becomes an `EXTERNAL_FAIL` error that names the failing source.
2. It derives one country record per catalog entry, all in memory. A record
   holds the currency code, the exchange rate, and a GDP estimate. The estimate
   is `population * m / rate`, where `m` is a random multiplier in 1000..2000.
3. It reconciles the records with the `countries` table in one transaction. A
   record whose case-folded name matches an existing row updates that row and
   keeps its id. Every other record is bulk-inserted. The `last_refreshed_at`
   metadata entry is set to the refresh time. Either all writes commit, or the
   transaction rolls back and none of them survive.
4. It renders a summary: the record count, plus at most five records with the
   largest non-zero estimate, in descending order. It then returns the count
   and the refresh time.

Modules, one per file:

- `Wrappers`: `Option` and `Result`.
- `Text`: ASCII lower-casing and substring search.
- `Records`: raw countries, records, the multiplier and derivation.
- `Gateway`: fetch outcomes and the classification of a failed fetch.
- `Reconcile`: the name index, the insert/update split, and the table after a
  reconciliation, all as functions.
- `Store`: the `CountryStore` class with its `rows` and `meta` maps. Its
  `Reconcile` method runs the transaction with loops, and is proved against
  the `Reconcile` functions.
- `Summary`: the top-five list.
- `Refresh`: the orchestrator `RefreshAll`.

Anything the code gets from outside is passed in as a parameter:

- `fetch`: what the two HTTP requests delivered.
- `draws`: one slot per raw country, read only when that country is priced
  (only then is `Math.random` called).
- `now`: the refresh time, as its ISO string.
- `listing`: the order in which `findAll` returns the rows; it lists every
  row of the table.
- `newIds`: the ids the bulk insert hands out.
- `fault`: the position of the first database call that throws. The calls are
  numbered in order:
  - the read;
  - the bulk insert, when there is something to insert;
  - one update per matched record;
  - the metadata upsert;
  - the commit.
- `render`: whether writing the summary image succeeds.

Two behaviours of the code are worth stating on their own, since a reader
might expect otherwise:

- A failure to write the summary image is fatal. The image step at line 147
  is awaited with no handler, so its error reaches the caller even though the
  transaction has already committed. `RefreshAll` returns `RenderFail` with
  the committed write in place.
- The table keeps one row per case-folded name only when the records it
  inserts (those whose folded name matches no existing row) have distinct
  folded names. The name index is built once, before the loop of lines
  107-114, and is not extended inside it. So two new records whose names
  differ only in case (`Chad` and `CHAD`) are both inserted, and the table
  then holds two rows with one folded name. Records that match an existing
  row cause no such duplicate, however many of them share its folded name:
  they all update that row, the last one winning.
  `ReconcileKeepsOneRowPerName` states this condition in both directions,
  `CaseDuplicatesBothInserted` shows the two rows for a duplicated new name,
  and `CaseDuplicatesOfExistingRow` shows a duplicated matched name leaving
  one row.

## Model

| member | source | states |
|---|---|---|
| Text.Lower | src/services/refreshService.js:100-102 | the result has the same length as the input, folds each `A`-`Z` to its lower-case letter, keeps every other character, and contains no upper-case ASCII letter |
| Text.LowerIdempotent | src/services/refreshService.js:107-108 | folding a folded name changes nothing |
| Text.LowerIgnoresCase | src/services/refreshService.js:107-108 | two names whose characters pairwise agree up to the case of an ASCII letter fold to the same key |
| Text.Contains | src/services/refreshService.js:34-36 | `includes` holds exactly when the substring occurs at some position |
| Gateway.SourceName | src/services/refreshService.js:32-38 | the reported name is `Countries API`, `Exchange rates API`, `external API`, or the failing URL itself |
| Gateway.FetchFailure | src/services/refreshService.js:39-45 | the error carries code `EXTERNAL_FAIL`, message `External data source unavailable`, and details `Could not fetch data from <name>` |
| Gateway.CountriesEndpointFailure | src/services/refreshService.js:32-37 | a failed catalog request is reported as `Countries API` |
| Gateway.RatesEndpointFailure | src/services/refreshService.js:32-37 | a failed rate-feed request is reported as `Exchange rates API` |
| Gateway.CatalogHostTakesPrecedence | src/services/refreshService.js:34-35 | any URL containing `restcountries` is reported as `Countries API`, whatever else it contains |
| Gateway.RatesHostFailure | src/services/refreshService.js:36-37 | a URL containing `open.er-api` but not `restcountries` is reported as `Exchange rates API` |
| Gateway.OtherUrlFailure | src/services/refreshService.js:38 | a non-empty URL naming neither host is reported as itself |
| Gateway.UnknownOriginFailure | src/services/refreshService.js:32-33 | an error without a truthy URL is reported as `external API` |
| Records.RandMultiplier | src/services/refreshService.js:13-15 | every draw in [0, 1) gives a multiplier in 1000..2000 |
| Records.MultiplierInterval | src/services/refreshService.js:13-15 | multiplier `m` comes from exactly the draws in [(m-1000)/1001, (m-999)/1001) |
| Records.RatesTable | src/services/refreshService.js:49-50 | a missing `rates` member gives the empty table; a present one is used as it is |
| Records.OrNull | src/services/refreshService.js:80-81 | `x \|\| null` keeps a present, non-empty string and otherwise gives null |
| Records.CurrencyCode | src/services/refreshService.js:55-58 | the code is null exactly when the currency list is absent, is empty, or has a falsy first code; otherwise it is that first code |
| Records.DeriveRecord | src/services/refreshService.js:54-89 | keeps the raw name and `now`; for no currency, the rate is null and the GDP is exactly 0; for a priced code, the rate is the table's and the GDP is population*m/rate for some m in 1000..2000; for an unpriced code, both are null; population is the raw population, or 0 when that is falsy; capital, region and flag pass through `OrNull` |
| Records.DeriveRecords | src/services/refreshService.js:54 | one record per raw country, position `i` derived from country `i` with draw `i` |
| Records.DeriveKeepsOrderAndTimestamp | src/services/refreshService.js:53-87 | as many records as raw countries, in input order, all stamped with the one `now` |
| Records.PricingCases | src/services/refreshService.js:60-76 | the three pricing cases for any position of the batch, each with the record's population taken from the raw one and the GDP computed from it |
| Records.MissingRatesPayload | src/services/refreshService.js:48-76 | without a rates payload, no record has a rate, and only the currency-less ones have a GDP |
| Records.RecordDefaults | src/services/refreshService.js:78-88 | population becomes 0, and capital, region and flag become null, exactly when the raw value is falsy; a present population is copied, and so is a present, non-empty capital, region or flag |
| Records.GdpZeroExactly | src/services/refreshService.js:62-71 | the estimate is exactly 0 iff the country has no currency, or is priced with a population of 0 |
| Records.GdpDependsOnDraw | src/services/refreshService.js:69-71 | for a priced, populated country, draws giving different multipliers give different estimates |
| Reconcile.NameIndex | src/services/refreshService.js:100-102 | every key maps to a row of the table whose folded name is that key, and every listed row's folded name is a key |
| Reconcile.NameIndexLastWins | src/services/refreshService.js:100-102 | among listed rows sharing a folded name, the key maps to the last one |
| Reconcile.NameIndexMatchesExisting | src/services/refreshService.js:108 | a name matches iff some existing row has the same folded name |
| Reconcile.NameIndexInjective | src/services/refreshService.js:100-102 | no id is the target of two keys |
| Reconcile.ToInsert | src/services/refreshService.js:104-114 | `toInsert` holds only records of the batch whose folded name is unmatched |
| Reconcile.ToUpdate | src/services/refreshService.js:104-114 | `toUpdate` holds only matched records of the batch, each paired with the id of its folded name (`rec.id`) |
| Reconcile.PartitionSizes | src/services/refreshService.js:107-114 | the two lists together are exactly as long as the batch |
| Reconcile.PartitionPlaces | src/services/refreshService.js:107-113 | a matched record is in `toUpdate` with its row's id; an unmatched one is in `toInsert` |
| Reconcile.ToInsertAppend | src/services/refreshService.js:107-114 | `toInsert` keeps batch order: the list for `a + b` is the list for `a` followed by that for `b` |
| Reconcile.ToUpdateAppend | src/services/refreshService.js:107-114 | the same order-keeping law for `toUpdate` |
| Reconcile.UnmatchedAllInserted | src/services/refreshService.js:107-114 | the index is not extended inside the loop: with no batch name indexed, every record is inserted, including case-insensitive duplicates within the batch |
| Reconcile.ReconcileKeepsOneRowPerName | src/services/refreshService.js:100-124 | for a table with one row per folded name, the reconciled table has one row per folded name if and only if the records sent to `toInsert` have distinct folded names |
| Reconcile.DistinctBatchKeepsOneRowPerName | src/services/refreshService.js:100-124 | in particular, a batch with distinct folded names keeps a table at one row per folded name |
| Reconcile.CaseDuplicatesOfExistingRow | src/services/refreshService.js:100-124 | two records whose names differ only in case, both matching the one existing row, insert nothing and leave that row, under its id, holding the second record, so the table keeps one row per folded name |
| Reconcile.CaseDuplicatesBothInserted | src/services/refreshService.js:107-119 | two records whose names differ only in case, reconciled into an empty table, become two rows under two new ids, so the table no longer has one row per folded name |
| Reconcile.InsertAll | src/services/refreshService.js:117-119 | the bulk insert adds exactly `\|toInsert\|` rows, keeps every old row, stores record `j` under new id `j`, and uses no other new id |
| Reconcile.ApplyUpdates | src/services/refreshService.js:122-124 | the updates keep the set of ids, and leave alone every row no update targets |
| Reconcile.Reconciled | src/services/refreshService.js:95-124 | after a reconciliation no row is missing, and the row count has grown by exactly `\|toInsert\|` |
| Reconcile.ReconcileUpdatesMatched | src/services/refreshService.js:107-124 | a matched row keeps its id and takes the fields of the last batch record with its folded name |
| Reconcile.ReconcileKeepsUnbatched | src/services/refreshService.js:92-136 | a row whose folded name no batch record carries is unchanged (refresh never deletes) |
| Reconcile.ReconcileInsertsNew | src/services/refreshService.js:117-119 | record `j` of `toInsert` becomes a new row under an id absent before |
| Store.TransactionCalls | src/services/refreshService.js:95-132 | a transaction issues between 3 and `\|records\|`+4 database calls, and exactly `\|records\|`+3 when nothing is inserted |
| Store.BuildNameIndex | src/services/refreshService.js:100-102 | the loop builds exactly `NameIndex` |
| Store.Partition | src/services/refreshService.js:104-114 | the loop fills exactly `ToUpdate` and `ToInsert` |
| Store.UpdateEach | src/services/refreshService.js:122-124 | the update loop either throws at one of its own calls or yields exactly `ApplyUpdates` |
| Store.CountryStore.Reconcile | src/services/refreshService.js:92-136 | given a listing of every row, commits iff none of the transaction's calls throws; on a throw, rows and metadata are as before; on commit, rows are `Reconciled` and `last_refreshed_at` is `now`, with the other metadata kept |
| Summary.Rank | src/services/refreshService.js:145 | the projection keeps the name and the estimate |
| Summary.Candidates | src/services/refreshService.js:141-142 | every kept entry has a non-zero estimate and comes from a record with a non-null, non-zero estimate, and every such record is kept |
| Summary.CandidatesSingle | src/services/refreshService.js:141-142 | a single record is kept, projected, exactly when its estimate is non-null and non-zero |
| Summary.CandidatesAppend | src/services/refreshService.js:141-142 | the filter keeps every passing record, repeats included, in batch order: filtering `a + b` gives the filtered `a` followed by the filtered `b` |
| Summary.InsertKeepsDescending | src/services/refreshService.js:143 | inserting into a descending list keeps it descending |
| Summary.SortDesc | src/services/refreshService.js:143 | the sorted list is a permutation of its input, in non-increasing estimate order |
| Summary.Top | src/services/refreshService.js:143-144 | keeps min(5, n) entries, non-increasing, drawn from the candidates |
| Summary.PrefixDominates | src/services/refreshService.js:143-144 | in a descending list, whatever lies beyond the first `n` places is no larger than any of them |
| Summary.TopDominates | src/services/refreshService.js:143-144 | no candidate left out of the top list is larger than any entry in it |
| Summary.FewCandidatesAllListed | src/services/refreshService.js:144 | with five candidates or fewer, all of them are listed |
| Summary.MakeSummary | src/services/refreshService.js:140-147 | `total` is the record count and the timestamp is `now`; exactly min(5, number of candidates) entries, non-increasing, none zero, and each entry no more often than among the candidates |
| Summary.SummaryEntriesFromBatch | src/services/refreshService.js:141-145 | each listed name/estimate pair is that of a batch record passing the filter |
| Summary.SummaryOmitsOnlySmaller | src/services/refreshService.js:141-145 | a filtered-in record that is not listed has an estimate no larger than any listed one |
| Summary.NothingRankedEmptyTop | src/services/refreshService.js:141-142 | a batch with no non-null, non-zero estimate lists nobody |
| Refresh.RefreshAll | src/services/refreshService.js:26-150 | given a listing of every row, a failed fetch gives the `EXTERNAL_FAIL` error and writes nothing; a throwing database call gives a database error and writes nothing; otherwise the table is `Reconciled`, `last_refreshed_at` is `now`, and the result is `{ total, last_refreshed_at }` if the image is written, else a render error with the write kept |

## Left out

- HTTP requests: the two axios requests, their 15-second timeouts and `Promise.all` (lines 17-24) are not modelled. Their outcome is the `fetch` parameter: both payloads, or a failure with an optional URL.
- Non-array payloads: a catalog payload that is not an array would make `countriesRaw.map` throw; `countries` is always a sequence here.
- Null currencies: a `null` entry in `currencies` would make `currencyArr[0].code` throw at line 57; entries are always objects here.
- Missing names: a raw country without a `name`, or a row without one, would make `toLowerCase` throw; names are always strings here.
- Numbers: IEEE doubles become `real`, so NaN, Infinity and rounding are not modelled. Rates must be non-zero numbers. In the code, a zero or `null` rate would yield Infinity or NaN at line 71.
- The rates object: its prototype keys (`ratesObj["constructor"]`) are not modelled; the table is a plain map.
- Records.DeriveRecord: requires every rate to be non-zero, because the code's division by a zero rate yields Infinity, which reals cannot represent.
- Text.Lower: folds ASCII letters only; `toLowerCase` applies full Unicode case mapping.
- Timestamps: `now` is an ISO string supplied by the caller; `new Date()` and `toISOString` are not modelled.
- Error text: the error message is kept as its fields; its `JSON.stringify` rendering is not modelled.
- Database errors: the database's own error object is reduced to `DatabaseFail`.
- Opening the transaction (line 92): if this throws, nothing is written, which is the same outcome as a throw from the read.
- Rollback failures (line 134) are not modelled.
- Database constraints: schema constraints such as the 10-character `currency_code` column and the unsigned population are not modelled.
- Row columns: a row is a whole `Record`, with the columns of `src/models/country.js:6-49`; its `id` is held apart as the map key.
- Summary.SortDesc: inserts ties after the entries before them, as the stable built-in sort keeps them, but no contract states stability.
- Image rendering: `generateSummaryImage` (canvas drawing, number formatting, the file write) is the `render` capability.
- Other files: `src/controllers/countries.js`, `app.js` and the configuration files are not part of this model.
