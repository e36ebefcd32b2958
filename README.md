# ChargePoint fleet-map updater, modelled in Dafny

The updater `cp_updater_fleetmap_github_only.py` builds the CSV that a fleet map reads, in these steps:

1. It pages through the ChargePoint SOAP `getStations` call, 500 records per request. Stopping at the first empty page, it flattens every `stationData` element into one row per port. A station with no `Port` child gives one row.
2. It reduces the rows to one catalog row per station: the first present value of each field, a charger type classified from the model name, and a legend label.
3. It asks `getStationStatus` for every station and keeps, per station, the latest status.
4. It left-merges the statuses into the catalog. It keeps only stations that have both coordinates, stamps every row with the load time, and projects to a fixed column list.

The model covers each step, in modules that follow the script's structure:

- `Xml` is the element tree. It also holds `strip_tag`, the pre-order walk that `iter()` performs, and the `find`/`findtext` lookups.
- `Parse` holds `parse_stations` and `parse_status`. Each is an imperative method whose loops are proved against a reference function.
- `Soap` holds the retry and fault logic of `post_soap`, over a function from attempt number to that attempt's outcome. At most `HTTP_RETRIES` (3) attempts are read.
- `Catalog` holds the pagination loop of `fetch_stations_full_per_station`. The loop runs over a page oracle, which maps a start offset to the page that request returns. One request, `post_soap` followed by `parse_stations`, is its own method, and `PagesOf` builds the oracle from it. The module also holds `first_non_null`, the sorted `groupby`, `classify`/`legend` (from the `Classify` module), `drop_duplicates` and the empty-frame case.
- `Status` holds `fetch_status_for_station` and `fetch_all_statuses`. The threads become a sequential fold over the station ids. The sort is a stable sort on (station id, parsed time) with unparseable times last, followed by `groupby(...).agg("last")`.
- `Output` holds the left merge, `slim_output` and `main`.
- `Text`, `Records`, `Seqs` and `Wrappers` hold Python string semantics (`strip`, `upper`, `in`, `<`), row values and sequence helpers.

Foreign code is passed in as function parameters:

- the network, as one outcome per POST attempt;
- `ET.fromstring`, as `parseXml`;
- `pd.to_datetime`, as `parseTs`;
- `strftime`, as `format`;
- `datetime.now().isoformat()`, as the `loadedAt` text.

Line 280 sorts with pandas' default `na_position="last"`, so unparseable time stamps (NaT) sort after every parseable instant. A station's status strings therefore come from its last NaT record when it has one. Its `StatusTimestamp` is still the latest parseable instant.

## Model

| member | source | states |
|---|---|---|
| Xml.StripTagSpec | cp_updater_fleetmap_github_only.py:104-105 | the result has no "}"; without "}" the tag is returned unchanged; otherwise the result is the suffix that follows the last "}" |
| Xml.StripTagIdempotent | cp_updater_fleetmap_github_only.py:104-105 | stripping a stripped tag changes nothing |
| Xml.StripTag | cp_updater_fleetmap_github_only.py:104-105 | `strip_tag`: the text after the last "}", or the tag itself; its properties are given by StripTagSpec and StripTagIdempotent |
| Xml.AfterLastSpec | cp_updater_fleetmap_github_only.py:105 | `split(c)[-1]` is the suffix that follows the last `c`, holds no `c`, and is the whole text when `c` is absent |
| Xml.PreOrder | cp_updater_fleetmap_github_only.py:113 | `iter()` visits the element itself first |
| Xml.FirstTaggedSpec | cp_updater_fleetmap_github_only.py:109 | `find(".//Body")` gives nothing exactly when no node in pre-order has the Body tag, and otherwise the first such node |
| Xml.TaggedMembers | cp_updater_fleetmap_github_only.py:145 | `findall("./Port")` keeps exactly the children whose raw tag is `Port` |
| Text.StripSpec | cp_updater_fleetmap_github_only.py:120 | `strip()` leaves no white space at either end and leaves already stripped text unchanged |
| Text.TrimStartSpec | cp_updater_fleetmap_github_only.py:120 | the leading part removed is all white space and the rest is a suffix that starts with non-space |
| Text.TrimEndSpec | cp_updater_fleetmap_github_only.py:120 | the trailing part removed is all white space and the rest is a prefix that ends with non-space |
| Text.UpperOfLower | cp_updater_fleetmap_github_only.py:217 | upper-casing ignores how the letters were cased before |
| Text.LessIrreflexive | cp_updater_fleetmap_github_only.py:203 | the string order used to sort group keys is irreflexive |
| Text.LessTransitive | cp_updater_fleetmap_github_only.py:203 | the string order is transitive |
| Text.LessTotal | cp_updater_fleetmap_github_only.py:203 | any two distinct strings are ordered one way or the other |
| Parse.Coordinate | cp_updater_fleetmap_github_only.py:128-129 | a coordinate is missing exactly when its text is absent or empty |
| Parse.Ports | cp_updater_fleetmap_github_only.py:121 | the ports are exactly the children whose stripped tag is `Port` |
| Parse.PortRowSpec | cp_updater_fleetmap_github_only.py:124-129 | a port row is the station record plus `portNumber`, `Lat` and `Long` taken from that port; every other key keeps the station's value |
| Parse.ParseStations | cp_updater_fleetmap_github_only.py:107-133 | the loop over `body.iter()` returns the reference rows for the tree: none without a Body, otherwise the rows of every `stationData` node in document order |
| Parse.StationsIn | cp_updater_fleetmap_github_only.py:113-132 | the walk over the nodes concatenates each node's rows in order |
| Parse.ParseStationData | cp_updater_fleetmap_github_only.py:114-132 | one `stationData` element yields its record once when it has no port, and otherwise one row per port |
| Parse.BuildRec | cp_updater_fleetmap_github_only.py:115-120 | the record loop builds the reference record of the non-`Port` children |
| Parse.CollectPorts | cp_updater_fleetmap_github_only.py:121 | the comprehension collects the reference port list |
| Parse.CopiesPerPort | cp_updater_fleetmap_github_only.py:122-130 | one copy of the record per port, in port order |
| Parse.CopyWithPort | cp_updater_fleetmap_github_only.py:124-130 | one copy of the record with that port's fields |
| Parse.RecKeys | cp_updater_fleetmap_github_only.py:115-120 | the record has a key exactly for each stripped child tag other than `Port` |
| Parse.RecLastWins | cp_updater_fleetmap_github_only.py:116-120 | each key holds the stripped text of the last child with that name |
| Parse.PortRowsAt | cp_updater_fleetmap_github_only.py:122-130 | the i-th port row is the record completed with the i-th port |
| Parse.StationRowsShape | cp_updater_fleetmap_github_only.py:121-132 | a station yields max(1, number of ports) rows: the bare record alone, or one port row per port in order |
| Parse.RowsOfAppend | cp_updater_fleetmap_github_only.py:113-132 | the rows of consecutive node runs concatenate in document order |
| Parse.ParseStatus | cp_updater_fleetmap_github_only.py:135-155 | the loop returns the reference status records for the tree: none without a Body, otherwise one per port of every `stationData` |
| Parse.StatusesIn | cp_updater_fleetmap_github_only.py:141-154 | the walk concatenates each node's status records in order |
| Parse.ParseStationStatus | cp_updater_fleetmap_github_only.py:142-154 | one `stationData` element yields the reference records of its `Port` children |
| Parse.RecordsPerPort | cp_updater_fleetmap_github_only.py:145-154 | one status record per port, in order |
| Parse.PortStatusesAt | cp_updater_fleetmap_github_only.py:145-154 | the i-th status record is built from the i-th port |
| Parse.StationStatusesShape | cp_updater_fleetmap_github_only.py:142-154 | each record carries the station's id and network status, and the port's number, status, fault reason and time stamp, all stripped |
| Classify.AnyInSpec | cp_updater_fleetmap_github_only.py:220 | `any(x in m for x in kws)` holds exactly when some keyword occurs in `m` |
| Classify.ClassifyLabels | cp_updater_fleetmap_github_only.py:216-226 | the result is one of the four labels |
| Classify.ClassifyGateway | cp_updater_fleetmap_github_only.py:220-221 | "GW" with no keyword of either list gives Gateway, whatever else the model says, "FAST" included |
| Classify.ClassifyGatewayOnly | cp_updater_fleetmap_github_only.py:220-221 | Gateway only when "GW" occurs and no keyword of either list does |
| Classify.ClassifyLevel3BeatsLevel2 | cp_updater_fleetmap_github_only.py:222-223 | an L3 keyword gives Level 3 even when an L2 keyword occurs too |
| Classify.ClassifyFast | cp_updater_fleetmap_github_only.py:222-223 | "FAST" without "GW" gives Level 3 |
| Classify.ClassifyLevel2 | cp_updater_fleetmap_github_only.py:216-226 | Level 2 exactly when no Level 3 marker occurs, an L2 marker occurs, and the model is no gateway |
| Classify.ClassifyGatewayIff | cp_updater_fleetmap_github_only.py:216-221 | Gateway exactly when "GW" occurs and no keyword of either list does |
| Classify.ClassifyLevel3 | cp_updater_fleetmap_github_only.py:216-223 | Level 3 exactly when the model is no gateway and an L3 keyword, "LEVEL 3", "DC FAST" or "FAST" occurs |
| Classify.ClassifyUnknown | cp_updater_fleetmap_github_only.py:216-226 | Unknown exactly when the model is no gateway and no Level 3 or Level 2 signal occurs |
| Classify.Classify | cp_updater_fleetmap_github_only.py:216-226 | `classify`: the ordered keyword tests; the four iff lemmas above (Gateway, Level 3, Level 2, Unknown) characterise every result |
| Classify.ClassifyIgnoresCase | cp_updater_fleetmap_github_only.py:217 | lower- or upper-casing the model does not change its class |
| Classify.ClassifyMissing | cp_updater_fleetmap_github_only.py:217 | no model gives Unknown |
| Classify.SearchFromSpec | cp_updater_fleetmap_github_only.py:232-233 | the scan from position i finds a word-bounded, case-insensitive occurrence exactly when one starts at i or later |
| Classify.MatchesSpec | cp_updater_fleetmap_github_only.py:232-233 | `re.search(r"\bP\b", s, re.IGNORECASE)` holds exactly when a word-bounded case-insensitive occurrence exists |
| Classify.Matches | cp_updater_fleetmap_github_only.py:232-233 | the word-bounded case-insensitive search; MatchesSpec states when it holds |
| Classify.LegendSpec | cp_updater_fleetmap_github_only.py:230-241 | no label exactly when the base starts with "Gateway"; otherwise exactly base, then " - Public Stations" exactly when "Public Stations" matches, then " - Solar" exactly when "Solar Stations" matches |
| Classify.Legend | cp_updater_fleetmap_github_only.py:230-241 | `legend`: None for gateways, else the type and its earned suffixes; LegendSpec gives the exact label |
| Classify.SuffixesSpec | cp_updater_fleetmap_github_only.py:237-240 | the public suffix comes first exactly when it was earned, the solar one ends the text exactly when it was earned, and each of the four combinations gives its own exact text |
| Classify.LegendOfCharger | cp_updater_fleetmap_github_only.py:235-241 | every class but Gateway, Unknown included, gets a label |
| Soap.PostSoap | cp_updater_fleetmap_github_only.py:87-102 | the loop returns what the retry reference gives, and the number of tries it made |
| Soap.RetrySpec | cp_updater_fleetmap_github_only.py:90-102 | at most three tries; every try left behind was rejected; success exactly when the last try was accepted, with its content; otherwise the error of the third try |
| Soap.PostedSpec | cp_updater_fleetmap_github_only.py:87-102 | success exactly when some try is accepted; the content is that of the first accepted try; a failure raises the last error |
| Soap.EmptyReplyAccepted | cp_updater_fleetmap_github_only.py:95 | an empty body is accepted without looking for fault markers |
| Soap.FaultNeverReturned | cp_updater_fleetmap_github_only.py:95-96 | a body with `<Fault` on every try ends in the SOAP-fault error |
| Catalog.FetchPage | cp_updater_fleetmap_github_only.py:176-177 | one request returns the oracle's page for its start offset: the POST's error, `Malformed` when the reply does not parse, and otherwise the parsed station rows |
| Catalog.FetchPages | cp_updater_fleetmap_github_only.py:159-181 | the k-th request starts at k*500; the loop ends at the first page that raises or is empty; it returns that page's error, or the in-order concatenation of the pages before it |
| Catalog.FirstStopUnique | cp_updater_fleetmap_github_only.py:161-179 | the request that ends the loop is unique |
| Catalog.FourPages | cp_updater_fleetmap_github_only.py:161-181 | pages of 500, 500, 137 and 0 rows: four requests, 1137 rows, in order |
| Catalog.InsertIdSpec | cp_updater_fleetmap_github_only.py:203 | adding a key keeps the keys sorted and distinct, and adds exactly that key |
| Catalog.KeysSpec | cp_updater_fleetmap_github_only.py:203 | the group keys are sorted, distinct, and exactly the ids that occur |
| Catalog.GroupSpec | cp_updater_fleetmap_github_only.py:203 | a group holds exactly the rows with that id, and is non-empty exactly when some row has it |
| Catalog.GroupFirst | cp_updater_fleetmap_github_only.py:197-214 | a station's aggregated field is the value of its first row, in input order, whose field is present, and missing when none has one |
| Catalog.NoIdColumn | cp_updater_fleetmap_github_only.py:188-189 | without a `stationID` column all rows form the one station "" |
| Catalog.IdOf | cp_updater_fleetmap_github_only.py:188-190 | the station id of a row: "" without the column, "nan" for a missing cell, else the text; NoIdColumn and KeysSpec state what the grouping makes of it |
| Catalog.FirstNonNullSpec | cp_updater_fleetmap_github_only.py:197-201 | missing exactly when no value is present; otherwise the first value that is neither missing nor "" |
| Catalog.FirstNonNull | cp_updater_fleetmap_github_only.py:197-201 | `first_non_null`; FirstNonNullSpec and GroupFirst state its result |
| Catalog.FirstNonNullAppend | cp_updater_fleetmap_github_only.py:197-201 | over two runs of values, the first present value is the first run's when it has one |
| Catalog.LegendCellSpec | cp_updater_fleetmap_github_only.py:230-245 | the legend cell is missing exactly for gateways |
| Catalog.StationRowSpec | cp_updater_fleetmap_github_only.py:203-245 | a catalog row has exactly the catalog columns: the id, the first present value of each aggregated field, the class of the first present model, and a legend that is missing exactly for gateways |
| Catalog.AggregateSpec | cp_updater_fleetmap_github_only.py:197-214 | one row per distinct id, in sorted id order, each built from that station's rows alone |
| Catalog.Aggregate | cp_updater_fleetmap_github_only.py:203-214 | the sorted `groupby` with its aggregations; AggregateSpec, AggregateRows and AggregateUnique state its result |
| Catalog.DropDuplicatesSpec | cp_updater_fleetmap_github_only.py:247 | the result has distinct ids, holds only input rows, and has exactly the ids of the input |
| Catalog.DropDuplicatesFirst | cp_updater_fleetmap_github_only.py:247 | `keep="first"`: a row survives exactly when no earlier row has its id |
| Catalog.DropDuplicatesPrefix | cp_updater_fleetmap_github_only.py:247 | the survivors keep the input order: the result for a prefix is a prefix of the result |
| Catalog.DropDuplicates | cp_updater_fleetmap_github_only.py:247 | `drop_duplicates`; the DropDuplicates lemmas state its result |
| Catalog.DropDuplicatesIds | cp_updater_fleetmap_github_only.py:247 | an id occurs after dropping duplicates exactly when it occurred before |
| Catalog.DropDuplicatesUniqueIds | cp_updater_fleetmap_github_only.py:247 | no two surviving rows share an id |
| Catalog.DropDuplicatesKeeps | cp_updater_fleetmap_github_only.py:247 | only rows of the input survive |
| Catalog.DropDuplicatesUnique | cp_updater_fleetmap_github_only.py:247 | with distinct ids nothing is dropped |
| Catalog.AggregateUnique | cp_updater_fleetmap_github_only.py:203-247 | the aggregated ids are distinct, so `drop_duplicates` keeps every row |
| Catalog.AggregateRows | cp_updater_fleetmap_github_only.py:192-245 | every aggregated row has exactly the catalog's columns and a text id |
| Catalog.CatalogEmpty | cp_updater_fleetmap_github_only.py:183-186 | the catalog is empty exactly when the collected rows give an empty frame |
| Catalog.CatalogRows | cp_updater_fleetmap_github_only.py:183-248 | every catalog row has exactly the catalog's columns and a text id, and no two rows share an id |
| Catalog.FetchStationsFullPerStation | cp_updater_fleetmap_github_only.py:157-248 | for the first request that ends the loop: its exception, or the catalog of the pages before it |
| Status.FetchStatusForStation | cp_updater_fleetmap_github_only.py:250-263 | the reply's status records, or none when the POSTs fail or the reply does not parse |
| Status.KeyLeTotal | cp_updater_fleetmap_github_only.py:280 | the sort key orders any two records |
| Status.KeyLeTransitive | cp_updater_fleetmap_github_only.py:280 | the sort key is transitive |
| Status.InsertMultiset | cp_updater_fleetmap_github_only.py:280 | inserting adds exactly that record |
| Status.InsertSorted | cp_updater_fleetmap_github_only.py:280 | inserting keeps the order sorted |
| Status.SortSpec | cp_updater_fleetmap_github_only.py:280 | the sort is ordered by (id, time, NaT last) and is a permutation |
| Status.Sort | cp_updater_fleetmap_github_only.py:280 | the stable sort; SortSpec and OfStationSort state its result |
| Status.OfStationSort | cp_updater_fleetmap_github_only.py:280-282 | sorting all records and then taking one station's equals sorting that station's records |
| Status.GroupLastAt | cp_updater_fleetmap_github_only.py:282-287 | a station has a summary exactly when it has records, and the summary is what "last" makes of its group |
| Status.GroupLast | cp_updater_fleetmap_github_only.py:282-287 | `groupby("stationID").agg("last")`; GroupLastAt and the Group lemmas state its result |
| Status.LastAtSorted | cp_updater_fleetmap_github_only.py:283 | in a sorted group the last non-NaT time stamp is missing exactly when all are NaT, and is otherwise the maximum |
| Status.SortLast | cp_updater_fleetmap_github_only.py:280-287 | the last record of the sorted group is the latest one, the last of equals |
| Status.LastMaxSpec | cp_updater_fleetmap_github_only.py:280 | that record is a maximum of the key, and no later record ties it |
| Status.FetchAllStatuses | cp_updater_fleetmap_github_only.py:265-293 | the fold over the ids returns the reduction of all replies, concatenated, and the empty frame when there are none |
| Status.ReduceAt | cp_updater_fleetmap_github_only.py:275-293 | a station's summary is what its own records, sorted, reduce to |
| Status.ReduceLocal | cp_updater_fleetmap_github_only.py:279-287 | a station's summary depends only on its own records |
| Status.SummaryKeys | cp_updater_fleetmap_github_only.py:282-287 | exactly one summary per id that has at least one record |
| Status.GroupInstant | cp_updater_fleetmap_github_only.py:279-292 | a group's time stamp is the maximum parseable one, and is missing exactly when none parses |
| Status.GroupStrings | cp_updater_fleetmap_github_only.py:280-287 | a group's strings come from one record whose time is the latest, the last of equals |
| Status.SummaryInstant | cp_updater_fleetmap_github_only.py:279-292 | `StatusTimestamp` is the latest parseable time stamp of the station's records, or missing when none parses |
| Status.SummaryStrings | cp_updater_fleetmap_github_only.py:280-287 | the network status, port status and fault reason come from the station's latest record, the last of equals |
| Status.GatheredRecordsOf | cp_updater_fleetmap_github_only.py:268-273 | when each reply holds only its own station, a station's gathered records are its own reply, or none if it was not asked |
| Status.CompletionOrder | cp_updater_fleetmap_github_only.py:268-273 | the summaries do not depend on the order in which the replies complete |
| Status.SummaryPresent | cp_updater_fleetmap_github_only.py:258-287 | when no station is asked twice and each reply holds only its own station's records: a station has a summary exactly when it was asked and its reply held a port |
| Status.FailedStationAbsent | cp_updater_fleetmap_github_only.py:258-263 | under the same two hypotheses, a station whose POSTs all fail has no summary |
| Output.MergeSpec | cp_updater_fleetmap_github_only.py:334 | the left merge keeps every station row and its cells; an unmatched station gets missing status cells; a matched one gets its summary's, with the time stamp formatted |
| Output.Merge | cp_updater_fleetmap_github_only.py:334 | the left merge on `stationID`; MergeSpec and MergeRow state its result |
| Output.MergeRow | cp_updater_fleetmap_github_only.py:334 | a merged row has the station's cells and the four status cells: missing without a summary, the summary's values with one |
| Output.MergedSpec | cp_updater_fleetmap_github_only.py:334 | with or without the merge, every station row stays, keeps its cells, and has missing status cells when unmatched |
| Output.SlimOutput | cp_updater_fleetmap_github_only.py:309-320 | the loop over the final columns returns the reference output frame |
| Output.WithColumnsSpec | cp_updater_fleetmap_github_only.py:313-315 | adding the missing columns keeps every row and every existing cell, and leaves all requested columns present |
| Output.KeepLocatedSpec | cp_updater_fleetmap_github_only.py:317-318 | the filter keeps exactly the rows with both coordinates |
| Output.SlimColumns | cp_updater_fleetmap_github_only.py:320 | the output columns are exactly the final columns, in order, in every row |
| Output.SlimLocated | cp_updater_fleetmap_github_only.py:317-318 | every output row has `Lat` and `Long` |
| Output.SlimStamp | cp_updater_fleetmap_github_only.py:311 | all output rows share one `_loaded_at_utc` |
| Output.SlimRows | cp_updater_fleetmap_github_only.py:309-320 | the output rows are the located input rows, in input order, with their values |
| Output.Slim | cp_updater_fleetmap_github_only.py:309-320 | `slim_output`; the Slim lemmas state its result |
| Output.CatalogOutput | cp_updater_fleetmap_github_only.py:329-336 | the map file's rows are the located rows of the merged catalog, in catalog order |
| Output.StationIdsSpec | cp_updater_fleetmap_github_only.py:331 | `dropna().unique()` gives distinct ids, exactly the present ones |
| Output.StationIds | cp_updater_fleetmap_github_only.py:331 | `dropna().unique()`; StationIdsSpec states its result |
| Output.Run | cp_updater_fleetmap_github_only.py:322-337 | `main` crashes, aborts or writes exactly as the reference outcome for the first request that ends the catalog loop |
| Output.AbortExactlyOnEmptyCatalog | cp_updater_fleetmap_github_only.py:324-327 | the run crashes exactly when the last page raised; it aborts before any write exactly when the collected rows form an empty frame; a written cache is never empty |
| Output.WrittenSpec | cp_updater_fleetmap_github_only.py:324-331 | a written cache is the non-empty catalog of the collected pages, with distinct ids and the catalog's columns |

## Left out

- The HTTP session, `raise_for_status`, the timeout and the `2 ** i` sleep in `post_soap` are I/O. Each POST attempt is a given outcome: delivered content or a raised reason.
- `build_envelope` and the request bodies are plain text templates that splice in credentials and the start offset. They are not modelled.
- The credential check from the environment, the log file and `print` are environment and output. They are not modelled.
- `atomic_write_csv` is file-system work, so the temporary file and the move are not modelled. A run that writes is the outcome `Written`, carrying both frames.
- `ET.fromstring` is the foreign parser `parseXml`. A parse error while fetching stations propagates as the error `Malformed`. In `fetch_status_for_station` it gives no records.
- `float()` on coordinates is not modelled: a coordinate keeps its text, so a non-numeric coordinate does not raise here.
- `pd.to_datetime` is the parameter `parseTs`, over integer instants. `strftime` is the parameter `format`.
- `datetime.now(timezone.utc).isoformat()` is the clock, given as the `loadedAt` text.
- `ThreadPoolExecutor`/`as_completed` concurrency is modelled as a fold in the order of the ids. `Status.CompletionOrder` shows that the order does not matter under its hypothesis.
- Status.CompletionOrder: stated only when each station's reply holds records of that station alone. If a reply names other stations, records with equal keys can tie in the stable sort, and then "last" depends on completion order.
- Status.SummaryPresent: stated only when no station is asked twice and each reply holds records of its own station alone. A reply that names another station's id (lines 143, 272, 282) gives that station records, so it can have a summary it did not fetch.
- Status.FailedStationAbsent: stated under the same two hypotheses. In the source a station whose POSTs all fail still gets a summary if another station's reply names its id.
- `float()` on a coordinate is not evaluated. A text that `float()` reads as NaN, such as "nan", gives a missing value that `pd.notnull` (lines 199, 318) skips. The model keeps such a coordinate as present, so it counts as a first value and as located.
- `parseTs` parses each time stamp on its own. `pd.to_datetime` in pandas 2.x infers one format from the first non-empty element of the whole gathered column, so with mixed formats its results, and hence Status.ReduceLocal and Status.CompletionOrder, can depend on completion order. That inference is not modelled.
- The `StatusTimestamp_dt_latest` column of the status frame is not modelled, because it never reaches the output columns.
- Catalog.FetchPages: it requires that some page eventually ends the loop. Against a service that never returns an empty page, the source loops forever.
- Classify.Classify: `str.upper()` is modelled on ASCII letters only. Other characters are left as they are, so Unicode case mappings are not modelled.
- Classify.Matches: `re.IGNORECASE` and `\b` are modelled with ASCII letters, digits and `_` as word characters. Python's `\w` also counts other Unicode letters and digits.
- The column alignment of `pd.DataFrame` is modelled only as far as the updater relies on it: a row without a key reads as missing. Column order of the intermediate frames is not modelled except where it reaches the output.
- `pd.merge` column clashes and suffixes are not modelled, because the catalog and the status frame share only `stationID`.
