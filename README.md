# Snapshot lifecycle of the global news feed

This project models, in Dafny, the snapshot logic of `news_api_handler.py`.
The application keeps a directory of CSV snapshots named `news_data_<stamp>.csv`.
The model covers four parts of it:

- **Fetch** (`fetch_news_data`). The freshness gate skips the fetch when the API key is missing or the newest snapshot is younger than the threshold. Otherwise the fetch asks the New York Times service about seven sections and concatenates their `results`. It cuts the list to `max_articles`, keeps the items that are articles with a location, and writes them as seven-column rows to a new snapshot.
- **Newest snapshot** (`get_newest_csv_file`). Among the file names with the snapshot prefix and suffix, it picks one with the latest modification time.
- **Cull** (`cull_old_csv_files`). It walks the snapshots from oldest to newest and deletes those older than a day. While the list it walks is longer than `max_files`, it deletes the ones inside the day too.
- **Enrichment** (`augment_news_data`). It reads the newest snapshot. It stops if the snapshot already has `latitude` and `longitude` columns. Otherwise it asks a language model about the rows, strips code fences from the answer, and left-joins the parsed records to the rows on `uri`. The joined table is written back over the snapshot.

The model replaces the outside world with values:

- The directory listing is a sequence of (name, modification time) entries.
- Time is whole seconds.
- Each section's answer comes from a function of the section name.
- The timestamp in the new file's name is a string.
- The CSV file's content is a function from file name to table.
- The model's answer is an optional string. `None` means the call raised.
- The JSON parser is a function.
- The effect of each operation is its result: what was requested, what was written, what was deleted.

Modules:

- `Snapshots` (snapshots.dfy): matching names, the newest snapshot, and the stable sort by modification time.
- `Culling` (culling.dfy): the cull loop and the walk it performs.
- `CullFinding` (cull_finding.dfy): two inputs where the cull does not rotate as intended, and the corrected rotation.
- `Fetcher` (fetcher.dfy): the fetch.
- `Fences` (fences.dfy): `str.replace` and the fence stripping.
- `Enricher` (enricher.dfy): the left join and the enrichment step.
- `Optional` (optional.dfy): the `Option` type.

Choices the code makes that a reader might not expect:

- Ties in modification time go to the entry listed first, because Python's `sorted(..., reverse=True)` is stable.
- Articles are not deduplicated by `uri`; the same story listed in two sections gives two rows.
- The cull does not always leave at most `max_files` snapshots. See "## Findings".

## Model

| member | source | states |
|---|---|---|
| `Snapshots.SnapshotName` | news_api_handler.py:60-61 | The name a fetch writes always passes the snapshot-name filter, so the new file is seen by the newest-file lookup and the cull. |
| `Snapshots.Matching` | news_api_handler.py:187 | An entry is kept iff it is in the listing and its name starts with `news_data_` and ends with `.csv`. |
| `Snapshots.FirstNewest` | news_api_handler.py:186-194 | None iff there are no candidates. Otherwise the result is a candidate whose mtime is at least every candidate's, and no candidate listed before it has the same mtime (stable descending sort, then the head). |
| `Snapshots.Newest` | news_api_handler.py:184-197 | None iff no entry has a snapshot name. Otherwise the result is a listed snapshot whose mtime is at least that of every other snapshot, and no snapshot listed before it is as new. |
| `Snapshots.NewestListedFirst` | news_api_handler.py:186-192 | Among snapshots of the same, latest age, the one listed first is chosen. |
| `Snapshots.MatchingAppend` | news_api_handler.py:187 | The name filter keeps the listing's order: filtering `a + b` is filtering `a`, then `b`. |
| `Snapshots.SortByMtime` | news_api_handler.py:202-205 | The result is a permutation of the input (same multiset), sorted by ascending mtime. |
| `Snapshots.SortIsStable` | news_api_handler.py:202-205 | The sort is stable: for every age, the entries of that age appear in the same order as in the listing. |
| `Culling.RemoveFirst` | news_api_handler.py:216 | `list.remove` leaves a list without the name unchanged. Otherwise it removes the first entry with that name, and the entries after it move down one place in order. |
| `Culling.WalkDeletesTracked` | news_api_handler.py:207-216 | The loop deletes only files from the list it walks. |
| `Culling.WalkFreshBound` | news_api_handler.py:213-216 | The files deleted within the day are at most the excess of the tracked length over `max_files`. So these removals never take the tracked list below `max_files`. |
| `Culling.WalkCoversExpired` | news_api_handler.py:207-212 | On a list sorted by age, every expired file from the iterator's position on is deleted, even though removals make the iterator skip files. |
| `Culling.CullPlanProperties` | news_api_handler.py:199-216 | The cull deletes only snapshot files. It deletes every snapshot older than 24 hours. Its deletions within the day are at most the snapshot count's excess over `max_files`. |
| `Culling.CullKeepsSmallFreshDirectory` | news_api_handler.py:207-216 | With no expired snapshot and at most `max_files` snapshots, nothing is deleted. |
| `Culling.CullOldSnapshots` | news_api_handler.py:199-216 | The index-based loop over the mutable sorted list makes exactly the deletions of the walk, and has the three properties above. |
| `CullFinding.CullLeavesExcess` | news_api_handler.py:207-216 | Four fresh snapshots with `max_files` 1: the 1st and 3rd are deleted and two survive. |
| `CullFinding.CullOverDeletes` | news_api_handler.py:210-216 | One expired and two fresh snapshots with `max_files` 2: a fresh snapshot is deleted too, leaving one. |
| `CullFinding.IntendedCull` | news_api_handler.py:199-216 | The corrected rotation splits the snapshots into deleted and kept. Every expired one is deleted. The kept ones are within the day and number min(fresh count, `max_files`). Every deleted one is no newer than every kept one. |
| `Fetcher.Truncate` | news_api_handler.py:57 | `s[:m]` is a prefix of `s` with `min(m, len(s))` elements for `m >= 0`. |
| `Fetcher.ShapeRow` | news_api_handler.py:77-107 | A row has `geolocation` equal to the first `geo_facet` entry (never empty) and `source` "New York Times". `uri`, title, description, `url` and `published_date` are the article's strings, or "" when missing or null. |
| `Fetcher.Shape` | news_api_handler.py:72-109 | No more rows than items. |
| `Fetcher.ShapeAppend` | news_api_handler.py:72-109 | The rows of `a + b` are the rows of `a` followed by those of `b`, so item order is kept. |
| `Fetcher.ShapeMembers` | news_api_handler.py:74-107 | A row is written iff it is the shaped row of some dictionary item that has `item_type` "Article" and a non-empty first `geo_facet`. |
| `Fetcher.ShapeKeepsEveryArticle` | news_api_handler.py:72-107 | When every item qualifies, there is one row per item. |
| `Fetcher.TruncateBeforeFilter` | news_api_handler.py:56-57 | The rows of the first `m` items are a prefix of the rows of all items, and there are at most `m` of them. |
| `Fetcher.RequestSections` | news_api_handler.py:40-54 | One request per section, in order. Unless a request raises, the results are the concatenated `results` of all seven sections; a section without `results` adds nothing. If one raises, the requests stop at that section. |
| `Fetcher.WriteRows` | news_api_handler.py:72-109 | The loop writes exactly the shaped rows, in order. Every row has source "New York Times" and a non-empty location. |
| `Fetcher.FetchNewsData` | news_api_handler.py:22-111 | A missing key, or a newest snapshot younger than the threshold, means no request and no file. Otherwise every section is requested. A new file `news_data_<stamp>.csv` is written with the rows of the first `max_articles` items (at most `max_articles` rows for non-negative `max_articles`), unless a request raised. |
| `Fetcher.RecentAfterWrite` | news_api_handler.py:29-36 | Once a snapshot younger than the threshold is listed, the freshness gate closes. |
| `Fences.RemoveAll` | news_api_handler.py:175 | Removing a pattern never lengthens the string. |
| `Fences.StripFences` | news_api_handler.py:175 | Stripping fences never lengthens the answer. |
| `Fences.RemoveAllAbsent` | news_api_handler.py:175 | Removing a pattern that does not occur leaves the string unchanged. |
| `Fences.StripUnfenced` | news_api_handler.py:175 | An answer containing neither "```json\n" nor "\n```" is parsed as it came. |
| `Fences.StripFencedBlock` | news_api_handler.py:174-175 | An answer wrapped as a JSON code block strips back to its body, when the body has no backquote. |
| `Enricher.MatchesOf` | news_api_handler.py:180 | The answer records joined to a row are exactly those whose non-null `uri` equals the row's, each as many times as the answer repeats it. |
| `Enricher.MatchesOfAppend` | news_api_handler.py:180 | A row's matches come in answer order: the matches in `a + b` are those in `a`, then those in `b`. |
| `Enricher.Attach` | news_api_handler.py:180 | A joined row keeps every field of the original row and carries the record's city, country, latitude and longitude. |
| `Enricher.JoinRow` | news_api_handler.py:180 | Every row survives at least once with its original fields. A row with no match gets null city, country, latitude and longitude. A row with matches gives one row per matching record, in answer order, each carrying that record's four fields. |
| `Enricher.Join` | news_api_handler.py:180 | The left join has at least as many rows as the table. |
| `Enricher.JoinAppend` | news_api_handler.py:180 | The join keeps the table's row order. |
| `Enricher.JoinRowwise` | news_api_handler.py:177-181 | With unique answer keys, the join is row for row: row k is the table's row k plus its matching record's fields, or nulls. |
| `Enricher.Augment` | news_api_handler.py:113-181 | With `latitude` and `longitude` present, the model is not asked and nothing is written. Without them, a missing prompt column stops the step before the call. Otherwise the model is asked. A call that raises writes nothing, and so does an answer that does not parse once stripped. An answer that parses is always written. The written header is the table's columns followed by `city`, `country`, `latitude` and `longitude`, each suffixed `_right` when the table already has it. The written table has both coordinate columns and holds the join of the rows with the parsed stripped answer. |
| `Enricher.AugmentOnce` | news_api_handler.py:128-131 | After the joined table is written over the newest snapshot, the next call asks nothing and writes nothing, whatever the cells read back as, as long as the columns read back are the ones written. |
| `Enricher.FetchedSnapshotIsEnriched` | news_api_handler.py:66 | A snapshot with the fetch's header has the prompt columns and lacks coordinates, so it is enriched. |

## Findings

| source | as written | input that shows it | evidently intended | confidence | as-written member | corrected member |
|---|---|---|---|---|---|---|
| news_api_handler.py:207-216 | `csv_files.remove(file)` inside `for file in csv_files` shifts the next file under the iterator, which then skips it | four snapshots within the day, `max_files` 1: the 1st and 3rd are deleted and two remain | at most `max_files` snapshots remain | medium; not executed | `CullFinding.CullLeavesExcess` | `CullFinding.IntendedCull` |
| news_api_handler.py:210-216 | expired files are deleted but stay in `csv_files`, so they still count toward `len(csv_files)` | one expired and two fresh snapshots, `max_files` 2: a fresh one is deleted too and one remains | only snapshots beyond the newest `max_files` within the day are deleted | medium; not executed | `CullFinding.CullOverDeletes` | `CullFinding.IntendedCull` |

Neither news_api_handler.py nor app.py calls `cull_old_csv_files`, so `IntendedCull` stands beside the as-written `Culling.CullOldSnapshots` rather than replacing it.

## Left out

- HTTP requests to the news service and the chat call to the language model. They are foreign I/O; their answers are parameters.
- The prompt text and the JSON payload sent with it (`write_json`). Only the decision to ask is modelled.
- CSV writing and reading, and JSON parsing. A snapshot is a table value given by a function. How polars reads empty CSV cells is not modelled.
- A `None` written by the CSV writer becomes an empty cell, so the model writes `""` for missing or null `uri`, `url` and `published_date`.
- Article values that are neither strings nor null, and a `geo_facet` that is a string rather than a list. Fields are absent, null or text, and `geo_facet` is a list of strings.
- `results` that is not a list, and answers that are not dictionaries. An answer has results, has none, or raised.
- Latitude and longitude arithmetic. They are opaque cells.
- Sub-second modification times and `datetime`. Time is integer seconds.
- Logging, `load_dotenv` and the `os.makedirs` at import.
- Failures of `open`, `os.remove` and `write_csv`, and overwriting a snapshot written twice in the same second.
- The change of modification time when the enriched table is written back. `Enricher.AugmentOnce` takes the listing after the write as a parameter.
- `Enricher.JoinAppend`: assumes the left join keeps the table's row order, with a row's matches in answer order. The call passes no `maintain_order`, and polars does not promise this order by default.
- `Snapshots.Newest`: returns the entry (name and mtime) instead of the path joined to the directory name.
- `Enricher.Attach`: when the table already has a column named like `city_right`, polars raises a duplicate-column error. The model keeps the table's value instead.
- `Fetcher.ShapeMembers`: states which rows appear. Their order is stated by `Fetcher.ShapeAppend`.
- app.py (a web route and table rendering), static/js/main.js (browser globe), and the row-attribute annotation of the rendered table. None of these is part of this model.
