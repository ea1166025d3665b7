# Trade/confirm reconciliation core, modelled in Dafny

This project models the core of a post-trade reconciliation service. Trades and
broker confirmations arrive as events. A single consumer keeps the latest trade
and confirm per trade id, runs the break rules on every relevant event, stores
and broadcasts the resulting breaks, and keeps running statistics. Around that
loop sit four more pieces of the system:

- the CSV replay loader that feeds it;
- the SQL-backed confirm matcher behind the "missing confirms" report;
- the rule constants and records;
- the dashboard's row colouring, CSV export, KPI counters and MissingConfirm filter.

Files (one Dafny module each):

- `wrappers.dfy` (`Wrappers`): the `Option` type that stands for Python's `None` and JavaScript's `null`.
- `models.dfy` (`Models`): the `Trade`, `Confirm` and `Break` records, the break categories and severities.
- `rules.dfy` (`Rules`): the rule evaluator.
  - `Evaluate` is imperative: it builds the list rule by rule, then runs the latency post-pass loop.
  - It is proved equal to the functional specification `Breaks`.
  - Each rule's if-and-only-if condition, severity, order and fields are proved as lemmas about `Breaks`.
- `reconciler.dfy` (`Reconcile`): the class `Reconciler`.
  - Its fields are the trade, confirm and break dictionaries, the order in which break keys were inserted, and the counters.
  - `Step` is one iteration of the consumer loop. `RecentBreaks` is the newest-first listing.
- `matching.dfy` (`Matching`): the exact-then-tolerant confirm match over query result rows, and the loop that builds the missing-confirm report.
- `dashboard.dfy` (`Dashboard`): `rowClass`, `toCSV`, the counting part of `kpiSummary` and the `hideMissing` filter.
- `ingestion.dfy` (`Ingestion`): the copy-and-convert row converters, the confirm index, and the event list the loader builds and enqueues.

Conventions:

- Timestamps are whole seconds (`int`). Prices, quantities in the report tables, notionals and latencies are `real`.
- Inputs the code reads from the outside world are parameters: the clock, the measured latencies, formatted text, parsers and query results.
- The model follows the code on the following points. Each is a behaviour one might expect of a reconciler that the code does not have, or has in another form:
  - One might expect the running latency average to use the incremental form `avg + (dt-avg)/k`. The code computes `(avg*(k-1)+dt)/k` instead. Over the reals the two agree (`Reconcile.MeanStep`).
  - One might expect `detected_breaks` to count distinct breaks. It grows by the number of breaks an event produced, including breaks whose id was already stored.
  - One might expect the final break set not to depend on arrival order. It does, and no such property is claimed. A MissingConfirm break raised when a trade arrives alone is never removed when its confirm arrives later, and neither is a mismatch break after a corrected confirm.

## Model

| member | source | states |
|---|---|---|
| Models.BreakTypeName | backend/app/models.py:36 | every break category has a non-empty name |
| Models.BreakTypeNameInjective | backend/app/models.py:36 | distinct categories have distinct names, so the `break_type` string identifies the category |
| Models.SeverityName | backend/app/models.py:37 | every severity has a non-empty name |
| Models.BreakDefaultDrag | backend/app/models.py:42 | a break built without a turnover drag carries 0.5 bp |
| Rules.Suffix | backend/app/rules.py:22-90 | each category's id suffix is non-empty and contains no dash |
| Rules.PriceDivisor | backend/app/rules.py:47 | the price-deviation divisor is at least 1e-9 and at least the trade price, so it is never zero |
| Rules.Evaluate | backend/app/rules.py:10-104 | the break list built rule by rule, after the post-pass, equals the specification `Breaks` |
| Rules.CompareRules | backend/app/rules.py:33-98 | the five confirm rules, appended one after another, give exactly the breaks of the rules that fire, in rule order |
| Rules.EscalateSlow | backend/app/rules.py:100-102 | the post-pass loop raises every break slower than 250 ms to High and changes nothing else |
| Rules.CollectFacts | backend/app/rules.py:33-98 | every collected break is its rule's break and its rule fired; every rule that fired contributes a break |
| Rules.CollectInRuleOrder | backend/app/rules.py:33-98 | collected breaks appear in strictly increasing rule order, so each category at most once |
| Rules.MakerKeepsCategory | backend/app/rules.py:21-98 | the break a rule raises carries that rule's category |
| Rules.ConfirmRulesCover | backend/app/rules.py:33-98 | the confirm rules are exactly the categories other than MissingConfirm |
| Rules.PostPassKeepsCategories | backend/app/rules.py:100-102 | the post-pass keeps the length, the category at every position and the set of categories |
| Rules.ConfirmedRule | backend/app/rules.py:33-102 | with a confirm, a category other than MissingConfirm is present iff its rule applies, and its break is that rule's break after escalation |
| Rules.ConfirmedPresence | backend/app/rules.py:33-102 | presence half of `ConfirmedRule` over the collected list |
| Rules.ConfirmedShape | backend/app/rules.py:33-102 | shape half of `ConfirmedRule` over the collected list |
| Rules.MissingConfirmRule | backend/app/rules.py:17-31 | with no confirm: nothing under 180 minutes of age; at 180 or more exactly one High MissingConfirm break with id `BRK-<id>-MISSING` |
| Rules.ConfirmedInRuleOrder | backend/app/rules.py:33-98 | with a confirm, the breaks are in rule order, each category at most once, and MissingConfirm never appears |
| Rules.QuantityRule | backend/app/rules.py:34-44 | QuantityMismatch is present iff the quantities differ, and it is High |
| Rules.PriceRule | backend/app/rules.py:47-58 | PriceMismatch is present iff abs(tp-cp)/max(tp,1e-9) > 0.005; it is Medium below a 0.02 deviation, otherwise High, and High when escalated |
| Rules.SettleDateRule | backend/app/rules.py:61-71 | SettleDateMismatch is present iff the settle dates differ; it is Medium unless escalated |
| Rules.AccountRule | backend/app/rules.py:74-84 | AccountMismatch is present iff the accounts differ, and it is High |
| Rules.LateConfirmRule | backend/app/rules.py:87-98 | LateConfirm is present iff the confirm came more than 180 minutes after execution; it is Low under 270 minutes, otherwise Medium, and High when escalated |
| Rules.FiredAreRaised | backend/app/rules.py:21-98 | every break a rule appends is the break that rule builds for its category |
| Rules.LatencyEscalation | backend/app/rules.py:100-102 | every returned break slower than 250 ms is High; every other break keeps its rule's severity |
| Rules.PostPassSeverity | backend/app/rules.py:100-102 | the post-pass severity law, for any list of rule-built breaks |
| Rules.BreakFields | backend/app/rules.py:21-98 | every break carries the trade's id and notional, the evaluation time, the 0.5 bp default, its own latency and the id `BRK-<trade id>-<category>`; ids within one result are pairwise distinct |
| Rules.BreakId | backend/app/rules.py:22-90 | every id starts `BRK-`, then the trade id, then a dash, then a non-empty suffix; that the id determines trade id and category is `Rules.BreakIdInjective` |
| Rules.BreakIdInjective | backend/app/rules.py:22-90 | equal break ids come from the same trade id and category |
| Rules.DashFreeTail | backend/app/rules.py:22-90 | a dash-free suffix of an id contains no dash at any of its positions |
| Rules.CleanPairNoBreaks | backend/app/rules.py:33-98 | a confirm agreeing on quantity, price, settle date and account, within 180 minutes, yields no break |
| Reconcile.Lookup | backend/app/reconciler.py:26 | dictionary `get`: present iff the key is stored, and then the stored value |
| Reconcile.ProducedNothing | backend/app/reconciler.py:23-34 | an unknown topic, or a confirm with no stored trade, produces no breaks; a confirm with a stored trade is evaluated against it; a trade with no stored confirm is evaluated alone |
| Reconcile.ProducedForEventTrade | backend/app/reconciler.py:23-32 | every produced break belongs to the event's trade id |
| Reconcile.StoreAllMerge | backend/app/reconciler.py:36-37 | storing breaks overwrites by id on top of the existing dictionary |
| Reconcile.StoreAllIdempotent | backend/app/reconciler.py:36-37 | storing the same breaks twice leaves the dictionary as storing them once |
| Reconcile.StoreAllKeys | backend/app/reconciler.py:36-37 | the key set grows by exactly the new ids and no entry is removed; untouched entries are unchanged; every entry stays keyed by its own id |
| Reconcile.StoreAllLatest | backend/app/reconciler.py:36-37 | the stored entry for an id is the last break carrying it |
| Reconcile.KeyOrderFacts | backend/app/reconciler.py:36-37 | the key insertion order stays duplicate-free, lists exactly the stored keys, and keeps existing keys in place |
| Reconcile.MeanStep | backend/app/reconciler.py:44-45 | the update `(avg*(k-1)+dt)/k` turns the mean of k-1 samples into the mean of k |
| Reconcile.Values | backend/app/reconciler.py:48 | `values()` lists the stored breaks in key insertion order |
| Reconcile.InsertByTimePerm | backend/app/reconciler.py:48 | inserting into the sorted list adds exactly that break |
| Reconcile.InsertByTimeSorted | backend/app/reconciler.py:48 | inserting keeps the list newest first |
| Reconcile.ConsNonIncreasing | backend/app/reconciler.py:48 | a break no older than every later element can head a newest-first list |
| Reconcile.NewestFirstSorted | backend/app/reconciler.py:48 | the reverse sort by `created_at` is newest first |
| Reconcile.NewestFirstFacts | backend/app/reconciler.py:48 | the reverse sort by `created_at` is newest first and a permutation of its input |
| Reconcile.AtTimeAppend | backend/app/reconciler.py:48 | taking the breaks of one `created_at` value works piece by piece over concatenation |
| Reconcile.InsertByTimeAtTime | backend/app/reconciler.py:48 | inserting a break puts it after every break with the same `created_at` and moves no other break relative to its equals |
| Reconcile.NewestFirstStable | backend/app/reconciler.py:48 | the sort is stable: for every `created_at` value, the breaks carrying it keep their input order, as Python's `sorted(..., reverse=True)` does |
| Reconcile.SlicePrefixStable | backend/app/reconciler.py:48 | a prefix of the sort takes each input break at most once, and for every `created_at` value a prefix of the input's breaks with that value |
| Reconcile.SliceLen | backend/app/reconciler.py:48 | Python's `[:limit]` keeps `min(limit, n)` elements for `limit >= 0`, and all but the last `-limit` for a negative limit |
| Reconcile.DistinctCard | backend/app/reconciler.py:48 | a duplicate-free key order has as many keys as elements |
| Reconcile.Reconciler.constructor | backend/app/reconciler.py:11-17 | all three dictionaries are empty and every counter is zero |
| Reconcile.Reconciler.Step | backend/app/reconciler.py:21-45 | one event (an `OtherEvent` being a topic other than `trade` and `confirm`, as `WellFormed` requires): the new state in full, i.e. the updated trades or confirms, breaks stored by id, the broadcast log extended by exactly the produced breaks in order, processed +1, detected breaks + their number, and the average equal to the mean of all durations |
| Reconcile.Reconciler.Consume | backend/app/reconciler.py:23-34 | a trade event sets `trades[id]` and a confirm event sets `confirms[id]` (last write wins); the other dictionary is unchanged; the breaks are those the rules produce for the stored pair |
| Reconcile.Reconciler.Record | backend/app/reconciler.py:36-45 | storing, broadcasting and counting the produced breaks, keeping the invariants |
| Reconcile.Reconciler.StoreAndBroadcast | backend/app/reconciler.py:36-38 | each break is stored under its id and broadcast once, in the order produced |
| Reconcile.Reconciler.Count | backend/app/reconciler.py:40-45 | processed +1, detected breaks +n, and the running average stays the mean of all durations |
| Reconcile.Reconciler.RecentBreaks | backend/app/reconciler.py:47-48 | `get_breaks(limit)`, with `limit` defaulting to 200: `SliceLen(limit, n)` elements, each a stored break and each stored break at most once (a sub-multiset of the values), newest first, no stored break left out is newer than one returned, and among breaks with equal `created_at` the result takes a prefix of them in store order (the stable sort's tie order) |
| Reconcile.RecentBreaksSpec | backend/app/reconciler.py:47-48 | the slice of the stable newest-first sort of the store's values has all the properties `RecentBreaks` promises |
| Reconcile.SliceKeepsNewest | backend/app/reconciler.py:48 | a prefix of a newest-first list is no older than anything after it |
| Reconcile.RecentBreaksFacts | backend/app/reconciler.py:47-48 | the sorted values are exactly the stored breaks, each once, and their prefix omits nothing newer |
| Matching.Tolerance | backend/app/main.py:78 | the quantity tolerance is `max(1e-9, 0.0001*abs(qty))`: positive, and at least both bounds |
| Matching.FirstIndex | backend/app/main.py:76-79 | the first position satisfying a test, or none at all |
| Matching.Candidates | backend/app/main.py:71-74 | the composite query returns exactly the rows whose account and symbol are NULL or equal to the trade's |
| Matching.FindMatch | backend/app/main.py:63-80 | the search loop with early returns computes `Match`: first the exact trade-id row, else the first candidate within tolerance |
| Matching.FirstOfCandidates | backend/app/main.py:71-79 | the first candidate within tolerance is the first table row that is both eligible and within tolerance |
| Matching.ExactMatchWins | backend/app/main.py:65-69 | a row with the trade's id wins, and the first such row's confirm time is returned |
| Matching.NoQtyNoMatch | backend/app/main.py:75 | with no exact row and no trade quantity there is no match |
| Matching.TolerantMatch | backend/app/main.py:70-80 | with no exact row: no acceptable row means no match; otherwise the first acceptable row's confirm time |
| Matching.NullParameterMatchesOnlyNull | backend/app/main.py:72-73 | under SQL's NULL rules a NULL trade account or symbol matches only NULL columns, and a given value matches NULL or equal |
| Matching.SqlLimit | backend/app/main.py:106-108 | `LIMIT` keeps a prefix of `min(limit, n)` rows; a negative limit keeps all |
| Matching.Missing | backend/app/main.py:100-113 | the report loop equals `Unmatched` over the limited rows |
| Matching.UnmatchedMembers | backend/app/main.py:109-112 | the report lists exactly the fetched trades with no match, each as its report row |
| Matching.MissingBounded | backend/app/main.py:106-112 | the report never has more rows than a non-negative limit |
| Dashboard.LowerChar | backend/app/static/main.js:16 | upper-case ASCII letters map to lower case; everything else is unchanged |
| Dashboard.Lower | backend/app/static/main.js:16 | lower-casing keeps the length and lower-cases each character |
| Dashboard.RowClass | backend/app/static/main.js:15-20 | the class is one of `high`, `medium`, `low`, and `low` for a missing severity; the exact cases are `Dashboard.RowClassCases` |
| Dashboard.RowClassCases | backend/app/static/main.js:15-20 | the class is `high` or `medium` iff the lower-cased severity is that word, `low` otherwise, and `low` for a missing or empty severity |
| Dashboard.RowClassOfSeverity | backend/app/static/main.js:15-20 | each model severity name gets its own class |
| Dashboard.RowClassIgnoresCase | backend/app/static/main.js:16 | the class does not depend on letter case |
| Dashboard.DoubleQuotes | backend/app/static/main.js:70 | doubling quotes never shortens the text |
| Dashboard.ItemRecords | backend/app/static/main.js:64-75 | one line per item, in item order |
| Dashboard.Records | backend/app/static/main.js:62-75 | the header line, then one line per item in order |
| Dashboard.ToCsv | backend/app/static/main.js:61-77 | the loop's output is the header and item lines joined by newlines |
| Dashboard.HeaderLine | backend/app/static/main.js:62-63 | the header line is the seven column names joined by commas |
| Dashboard.UndoubleDoubleQuotes | backend/app/static/main.js:70 | undoubling the quote-doubled text gives the text back |
| Dashboard.DetailRoundTrip | backend/app/static/main.js:70 | reading the quoted detail cell gives back the detail, or empty for a missing one |
| Dashboard.IndexOf | backend/app/static/main.js:76 | the first position of a character |
| Dashboard.IndexOfFirst | backend/app/static/main.js:76 | a position with no earlier occurrence is the first one |
| Dashboard.SplitCons | backend/app/static/main.js:76 | splitting a line, a separator and a rest gives the line, then the rest's pieces |
| Dashboard.SplitJoin | backend/app/static/main.js:76 | splitting a newline join of newline-free lines gives the lines back |
| Dashboard.CsvLines | backend/app/static/main.js:61-77 | an export of newline-free cells splits back into the header and one line per item |
| Dashboard.Kpis | backend/app/static/main.js:22-28 | counting from zero, `total` is the number of items; the other counters are `Dashboard.KpiFacts` |
| Dashboard.KpiSummary | backend/app/static/main.js:22-28 | the counting loop computes `Kpis` |
| Dashboard.MapSumRemove | backend/app/static/main.js:27 | the total over a dictionary splits off one entry |
| Dashboard.MapSumUpdate | backend/app/static/main.js:27 | updating one entry changes the total by the difference |
| Dashboard.KpiFacts | backend/app/static/main.js:22-28 | `total` is the item count, `nar` is the sum of notionals with a missing notional counting 0, each type's count is its number of items and only present types are keys, and the counts sum to the total |
| Dashboard.HideMissing | backend/app/static/main.js:85 | the filter never lengthens the list and keeps no MissingConfirm item; both directions of membership are `Dashboard.HideMissingMembers` |
| Dashboard.HideMissingMembers | backend/app/static/main.js:85 | the filter keeps exactly the items whose type is not MissingConfirm, and never adds one |
| Dashboard.HideMissingAppend | backend/app/static/main.js:85 | filtering distributes over concatenation, so it keeps order |
| Dashboard.HideMissingIdempotent | backend/app/static/main.js:85 | filtering twice is filtering once |
| Dashboard.HideMissingByCategory | backend/app/static/main.js:85 | the filtered name is MissingConfirm's and no other category's |
| Ingestion.Parse | backend/app/ingestion.py:9-20 | a conversion succeeds iff its parser does, and never yields text |
| Ingestion.Copy | backend/app/ingestion.py:8 | the copy has the same keys and the same text |
| Ingestion.ConvertSucceeds | backend/app/ingestion.py:7-21 | a conversion succeeds iff every listed column is present and parses |
| Ingestion.ConvertKeeps | backend/app/ingestion.py:7-21 | a conversion keeps every column, rewrites the listed ones with their parsers and leaves every other column's text as it was |
| Ingestion.ConvertFour | backend/app/ingestion.py:8-12 | converting four columns is copying the row and then rewriting the four columns one after another |
| Ingestion.CopyAndConvert | backend/app/ingestion.py:7-21 | the straight-line copy-and-rewrite equals the specification `Convert` |
| Ingestion.ToTradeDict | backend/app/ingestion.py:7-13 | `to_trade_dict` converts qty, price, notional and exec_time |
| Ingestion.ToConfirmDict | backend/app/ingestion.py:15-21 | `to_confirm_dict` converts qty, price, notional and confirm_time |
| Ingestion.ConfirmById | backend/app/ingestion.py:30 | when the comprehension succeeds, every entry's `trade_id` cell is its key; success, coverage and last-wins are `ConfirmByIdDefined`, `ConfirmByIdKeys` and `ConfirmByIdLastWins` |
| Ingestion.ConfirmByIdDefined | backend/app/ingestion.py:30 | the index is built iff every confirm row has a trade id |
| Ingestion.ConfirmByIdKeys | backend/app/ingestion.py:30 | every row's trade id is a key, and each entry is keyed by its own trade id |
| Ingestion.ConfirmByIdLastWins | backend/app/ingestion.py:30 | each entry is the last row in the file with that trade id |
| Ingestion.Head | backend/app/ingestion.py:31 | `trades[:1000]` is a prefix of `min(1000, n)` rows |
| Ingestion.TradeIdKept | backend/app/ingestion.py:7-13 | converting a trade keeps its trade id as text |
| Ingestion.BlockShape | backend/app/ingestion.py:32-35 | one trade contributes its own event and then, iff it has a confirm, that confirm's event |
| Ingestion.BlockHead | backend/app/ingestion.py:32-35 | a trade's first event is its converted row |
| Ingestion.EventsCount | backend/app/ingestion.py:29-35 | one event per trade plus one per trade with a confirm |
| Ingestion.PayloadsAppend | backend/app/ingestion.py:29-35 | filtering events by topic distributes over concatenation |
| Ingestion.TradePayloadsStep | backend/app/ingestion.py:32-35 | one trade's events add exactly its payload to the trade events |
| Ingestion.EventsSnoc | backend/app/ingestion.py:31-35 | a successful event list is the list for the earlier trades followed by the last trade's events |
| Ingestion.TradeListStep | backend/app/ingestion.py:31-32 | one more trade adds its converted row at the end of the trade payloads |
| Ingestion.TradeEventsInOrder | backend/app/ingestion.py:31-32 | the trade events are the converted trades, one each, in file order |
| Ingestion.AdjacentStep | backend/app/ingestion.py:32-35 | appending a trade's events keeps every trade paired with its confirm |
| Ingestion.ConfirmsFollowStep | backend/app/ingestion.py:32-35 | appending a trade's events keeps every confirm right after its trade |
| Ingestion.EventsPairing | backend/app/ingestion.py:31-35 | a trade event is followed by a confirm event iff its trade has a confirm, and every confirm event follows its own trade's event |
| Ingestion.EventsFailureSticks | backend/app/ingestion.py:29-35 | a conversion that raises for one trade aborts the whole list |
| Ingestion.AppendBlock | backend/app/ingestion.py:32-35 | one loop pass appends that trade's events, or reports that it raised |
| Ingestion.BuildEvents | backend/app/ingestion.py:29-35 | the event-building loop computes `Events`, failing iff a conversion raises |
| Ingestion.Enqueue | backend/app/ingestion.py:37-38 | the events are enqueued in exactly list order |
| Ingestion.LoadCsvs | backend/app/ingestion.py:23-39 | the queue receives exactly the built event list, or nothing when the loader raises |
| Ingestion.LoadedCount | backend/app/ingestion.py:29-35 | the loader succeeds only if every confirm has a trade id; the queue holds one event per trade among the first 1000 plus one per such trade with a confirm, with the trade events in file order |
| Ingestion.LoadedPairing | backend/app/ingestion.py:30-35 | a trade event is followed by a confirm iff some confirm row has its trade id; every confirm event follows its trade's event and is the last confirm row with that id, so confirms without a loaded trade are never enqueued |

## Left out

- The asynchronous plumbing is left out: the `asyncio` queue, the endless consumer loop and task creation. `Reconciler.Step` is one dequeued event. `Ingestion.Enqueue` is the enqueue loop, modelled as appending to a sequence.
- The break broadcaster (`BreakStream`) is not part of this model. Each broadcast is recorded in the ghost `broadcastLog`.
- Wall-clock reads are inputs rather than clock calls:
  - the evaluation time and each rule's measured latency come from `Rules.Env`;
  - the per-event duration is `Step`'s `dtMs`;
  - the `/missing` cutoff is applied by the caller, which passes the rows at or before it.
- Floating point is modelled as exact `real` arithmetic, with no IEEE rounding.
- Formatted text is an input:
  - the f-string `detail` texts of the rules (`Rules.Env.detail`) and of the report (`Matching.Missing`'s `detail`);
  - the dashboard's number rendering (`show` in `Dashboard.ToCsv`).
- Dashboard.Lower and Dashboard.LowerChar: model JavaScript's `toLowerCase` on ASCII letters only. Other Unicode case mappings are not modelled. The gap does not reach `Dashboard.RowClass`. Only two non-ASCII characters have a lower case containing an ASCII letter: the Kelvin sign (to `k`) and `İ` (to `i` followed by a combining dot). Neither can make a severity lower-case to exactly `high` or `medium`, so the class agrees with `rowClass` on every input.
- Dashboard.KpiFacts: `byType` is a map from type names to counts. In JavaScript it is a plain object, so a `break_type` naming an `Object.prototype` member behaves differently: `constructor` or `toString` starts from the inherited function, and the count becomes a string; `__proto__` adds no key. The model's counts hold for every other name, which includes the six category names the server sends.
- Reconcile.Reconciler.Step: always succeeds. In the source, an exception inside the consumer loop ends the consumer task for good, because `start` has no `try`:
  - a payload that record validation rejects raises at `Trade(**payload)` or `Confirm(**payload)`;
  - the rules subtract timestamps from a naive `datetime.utcnow()`, so a trade with a time-zone-aware `exec_time` and no stored confirm raises a TypeError. The live feed produces such trades: it stamps `exec_time` with an offset-aware UTC time and enqueues each trade before its confirm.
  After such an event the source processes nothing more, while the model keeps stepping. Timestamps here carry no time-zone awareness.
- Parsing and validation are not modelled:
  - pydantic record validation (`Trade(**payload)`);
  - `int()`, `float()` and `isoparse(...).isoformat()`, which are the parameters `Ingestion.Parsers`.
- Timestamps are whole seconds. Datetime parsing and ISO formatting are not modelled.
- Storage and HTTP are not modelled: the SQLite schema and inserts, FastAPI routes, WebSocket handling and templates. Query results are sequences of rows in the order the database returns them.
- The dashboard's DOM rendering, fetches, timers, the Blob download and the KPI text line are not modelled. Only the counters are.
- CSV file reading is not modelled. A row is a map from column name to text. Missing cells that the reader fills with `None` are not represented.
- The loader's throttling sleep is not modelled.
- An exception is modelled as `None`: the loader then enqueues nothing, because the list is complete before the first enqueue.
- Random demo data generation and the live Binance feed are not part of this model.
- Order independence of the final break set is not modelled. The code does not provide it (see above).
