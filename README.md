# Language detection service: a Dafny model

This project models the core of the Flask service in `app.py`, which
detects the language of a text and keeps a detection history.

- `sanitize_text` strips the text and replaces every run of whitespace by one space.
- `POST /api/detect` sanitises the text and rejects it when it is shorter than 10 characters.
  - It asks the classifier for the language and rejects the text when none is found.
  - It ranks the classifier's confidence values, highest first, and keeps the top five.
  - The main confidence is the detected language's value among those five, or 0 when the language is not there.
  - When the store is reachable, it writes three things: a history record (with a 100-character preview), one confidence row per ranked entry, and an upsert of the language's statistics document.
- `GET /api/history` filters the history by a case-insensitive search of the preview or the language, sorts it newest first and returns one page.
- `GET /api/history/<id>` returns one record with its confidence rows, or "not found".
- `GET /api/stats` returns the ten most detected languages.
- `DELETE /api/history` empties the three collections.

The modules follow the program's structure:

- `Common`: the Option and Result datatypes, and the service's error kinds.
- `Text`: `sanitize_text` and the preview.
- `Sorting`: a stable descending sort, and its top-n prefix.
- `Ranking`: the top-five ranking and the main confidence.
- `Detection`: the validation and classification steps of `detect_language`.
- `Records`: the stored documents, the upsert, and the invariant the three collections keep.
- `Queries`: history search and paging, the detail lookup, the statistics listing.
- `Service`: a `Store` class whose fields are the three collections. Five of its methods are the five endpoints; the sixth, `Commit`, is the locked block of writes inside `detect_language`.

The classifier is passed in as two functions:

- `detect` plays `detect_language_of`;
- `values` plays `compute_language_confidence_values`.

The store's reachability (the `ping` in `check_db_connection`) is passed in as a `reachable` flag.

## Model

| member | source | states |
|---|---|---|
| Text.TrimStart | app.py:59 | `str.strip`, leading half: the result is a suffix of the input, starts with no whitespace, and only whitespace was dropped |
| Text.TrimEnd | app.py:59 | `str.strip`, trailing half: the result is a prefix of the input, ends with no whitespace, and only whitespace was dropped |
| Text.Collapse | app.py:59 | `re.sub(r'\s+', ' ', …)`: only plain spaces remain as whitespace, no two whitespace characters are adjacent, the result starts with whitespace iff the input does, and it is empty iff the input is |
| Text.CollapseShortens | app.py:59 | collapsing never lengthens the text |
| Text.CollapseLastChar | app.py:59 | the collapsed text ends with whitespace iff the input does |
| Text.CollapseKeepsWords | app.py:59 | collapsing keeps the non-whitespace characters, in order |
| Text.Sanitize | app.py:57-59 | sanitised text is clean: no whitespace at either end, single plain spaces inside, the same non-whitespace characters, and no longer than the input |
| Text.SanitizeKeepsCleanText | app.py:57-59 | clean text is left unchanged by sanitising |
| Text.SanitizeIdempotent | app.py:57-59 | sanitising twice equals sanitising once |
| Text.SanitizeFixedPoints | app.py:57-59 | `Sanitize(t) == t` holds exactly when `t` is clean |
| Text.SanitizeJoinsWords | app.py:57-59 | two words separated by any non-empty whitespace run come out separated by exactly one space |
| Text.SanitizeSplitsAtRun | app.py:57-59 | wherever a non-empty whitespace run lies between two non-whitespace characters, sanitising splits there: the result is the sanitised left part, one space, and the sanitised right part |
| Text.SanitizeKeepsWord | app.py:57-59 | a text with no whitespace is its own sanitised form |
| Text.CollapseAppend | app.py:59 | no whitespace run straddles a boundary after a non-whitespace character, so the two sides collapse independently |
| Text.CollapseRunBefore | app.py:59 | a whitespace run followed by a non-whitespace character becomes exactly one space |
| Text.CollapseKeepsBlankText | app.py:59 | text with only single plain spaces passes through the whitespace collapse unchanged |
| Text.Preview | app.py:83 | the preview is the text itself up to 100 characters; otherwise its first 100 characters followed by "..." (103 characters) |
| Sorting.SortDesc | app.py:75 | `sorted(…, reverse=True)` returns a permutation of its input |
| Sorting.SortDescIsStableSort | app.py:75 | the sorted sequence is non-increasing in the key, and entries with equal keys keep their input order |
| Sorting.Top | app.py:75 | `sorted(…)[:n]`: min(n, length) entries in non-increasing order, drawn from the input, ties in input order, and every dropped entry ranks no higher than every kept one |
| Ranking.Rank | app.py:74-75 | the top five confidence values: at most five, highest first, a sub-multiset of the classifier's values, and none left out is larger than one kept |
| Ranking.MainConfidence | app.py:77 | the value of the first ranked entry for the detected language, and 0 when the language is not among the five |
| Detection.Classify | app.py:62-77 | "too short" exactly when the sanitised text has fewer than 10 characters; "not detected" exactly when it is long enough and the classifier finds no language; success exactly when it is long enough and a language is found, and then the sanitised text, the detected language, the top-five ranking and the main confidence |
| Detection.ClassifyAsWritten | app.py:74-117 | the detect path as written: a rejection is the same as `Classify`'s, and success is possible only with an empty ranking and an unreachable store |
| Detection.AcceptedTextFailsAsWritten | app.py:74-117 | every accepted text with at least one confidence value is classified by `Classify` but answered with an internal error as written |
| Records.NewRecord | app.py:81-89 | the history document carries the new id and the current time, and for a well-formed classification it agrees with the rows written beside it: preview of the text, clean text of at least 10 characters, and the main confidence of its ranking |
| Records.RowsOf | app.py:93-100 | one confidence row per ranked entry, each tagged with the new record's id, reading back as the ranking |
| Records.RowsFor | app.py:176-179 | `find({'history_id': id})`: exactly the rows carrying that id |
| Records.RowsForAppend | app.py:100 | rows found for an id after `insert_many` are the old ones followed by the new ones |
| Records.FindStat | app.py:103-104 | the stats lookup by language finds nothing exactly when no document has that language |
| Records.Upsert | app.py:103-107 | after the upsert, the language's document has count + 1 (1 when it was new) and the new `last_detected`; other languages are unchanged; a document is added only for a new language |
| Records.UpsertCounts | app.py:103-107 | the upsert adds one to the detected language's count and leaves every other count as it was |
| Records.UpsertKeepsUnique | app.py:103-107 | the upsert never creates a second document for a language |
| Records.UpsertKeepsPositive | app.py:103-107 | every stored count stays at least 1 |
| Records.CommitKeepsRowsAgree | app.py:90-100 | after a commit, every confidence row still belongs to a record, and each record's rows are its top-five ranking with its confidence as the main value |
| Records.CommitKeepsStatsAgree | app.py:102-107 | after a commit, each language's stats count still equals its number of history records |
| Records.CommitKeepsConsistent | app.py:79-107 | a commit keeps the whole invariant: ids and timestamps increase; rows agree with their records; stats count the records |
| Queries.ContainsIffOccurrence | app.py:134-138 | the substring test holds exactly when the search text occurs at some position |
| Queries.Matching | app.py:133-140 | the filtered history holds exactly the records whose preview or language contains the search text, ignoring case |
| Queries.EmptySearchMatchesAll | app.py:133-134 | an empty search applies no filter |
| Queries.MatchingAppend | app.py:133-140 | the filter distributes over concatenation, so every stored record appears in the result once if it matches and not at all otherwise, and `total` counts the matching records |
| Queries.MatchingOne | app.py:133-140 | filtering one record keeps it exactly when it matches |
| Queries.PageCount | app.py:155 | `(total + per_page - 1) // per_page` is the ceiling of total / per_page |
| Queries.Window | app.py:145-146 | `skip((page-1)*per_page).limit(per_page)`: at most per_page items, the consecutive items from that offset, and empty exactly when the offset is past the end |
| Queries.PageInRange | app.py:145-155 | a page's offset lies inside the results exactly when the page number is at most `pages` |
| Queries.NewestFirst | app.py:144 | `sort('timestamp', -1)`: a permutation of the records with timestamps non-increasing |
| Queries.ListHistory | app.py:133-155 | the `get_history` response: `total` is the number of matches, `page` is echoed, and at most `per_page` items; the rest of its contract is `ListHistoryPaging` and `ListHistoryOrder` |
| Queries.ListHistoryPaging | app.py:140-155 | `total` counts the matches, `pages` is the ceiling of total / per_page, a page has at most per_page items, a page up to `pages` has exactly min(per_page, total − offset) items, and a page is empty exactly when its number exceeds `pages` |
| Queries.ListHistoryOrder | app.py:141-149 | a page lists summaries of the matching records newest first, starting at offset (page-1)·per_page |
| Queries.ListedItemsMatch | app.py:133-149 | every listed item summarises a stored record that matches the search |
| Queries.TwentyThreeRecordsExample | app.py:140-155 | 23 records at 20 per page: 2 pages holding 20 and 3 items; page 3 is empty |
| Queries.FindRecord | app.py:168-173 | the lookup by id finds nothing exactly when no record has that id |
| Queries.Detail | app.py:168-184 | "not found" exactly when no record has the id; otherwise the record's timestamp, full text, language and confidence, with exactly that record's confidence rows |
| Queries.DetailShowsRanking | app.py:168-184 | between requests on a database this code filled from empty, a record's detail has at most five rows, values non-increasing, and the record's confidence is its language's value among them |
| Queries.DetailAfterCommit | app.py:90-100 | looking up the record a commit has just written returns the classification's text, language, confidence and ranking in order |
| Queries.FindAppended | app.py:90-91 | a record inserted with a fresh id is found by that id |
| Queries.TopLanguages | app.py:196-199 | `sort('count', -1).limit(10)`: at most ten documents, counts non-increasing, drawn from the stored ones, and no document left out has a larger count than one returned |
| Queries.TopLanguagesCountHistory | app.py:196-199 | between requests on a database this code filled from empty, each listed count equals the number of history records in that language |
| Queries.UniqueFindStat | app.py:103-104 | when languages are unique, the lookup by a stored document's language returns that document |
| Service.Store.constructor | app.py:26-29 | a store started with three empty collections satisfies the invariant |
| Service.Store.Commit | app.py:79-107 | appends the record and its rows, upserts the statistics, advances the id and the clock, and keeps the invariant |
| Service.Store.DetectLanguage | app.py:61-117 | returns the classification; a rejected request changes nothing; an accepted one is committed exactly when the store is reachable |
| Service.Store.History | app.py:123-156 | an unreachable store gives the error; otherwise the listed page of the current history |
| Service.Store.HistoryDetail | app.py:162-184 | an unreachable store gives the error; otherwise the detail lookup, "not found" included |
| Service.Store.Stats | app.py:190-204 | an unreachable store gives the error; otherwise the top ten languages |
| Service.Store.Clear | app.py:210-221 | a reachable store ends with all three collections empty; an unreachable one changes nothing |

## Left out

- HTTP, Flask routing, JSON encoding, CORS, logging and the frontend are not modelled. A request body that is not JSON fails in `request.get_json()` and the handler answers with the generic error 500. The model starts from the body's `text` string.
- The MongoDB client is not modelled. The `ping` in `check_db_connection` is the `reachable` parameter. A failure in the middle of a commit is not modelled: an operation either commits all its writes or fails before the first.
- ObjectId parsing is not modelled. Ids are natural numbers handed out in increasing order, so a malformed id string (a 500 in the source) has no counterpart.
- The `lingua` detector is not modelled. Both of its calls are function parameters.
- `Detection.Classify` and `Service.Store.DetectLanguage` follow the evident intent of `detect_language`, reading each confidence entry as a (language, value) pair. As written, app.py:75 reads `x.value` on the entry itself, while app.py:77, 97 and 112 unpack it as `lang, conf` and read `conf.value`. Both reads cannot succeed on the same entry. The handler then answers 500, possibly after the history record was written (see "## Findings"). The model does not capture that failure path or the record it leaves without its rows and statistics.
- The detector's confidence values are floating point in the source. They are real numbers here, and `float(…)` is the identity.
- `datetime.utcnow()` is an abstract clock that advances by one per commit. One instant stands for both `utcnow()` calls in a commit. The ISO formatting of timestamps and the response's `processing_time` are not modelled.
- `db_lock` is not modelled. The model is sequential, which is what the lock gives the two writing endpoints.
- The reads take no lock: `get_history`, `get_history_detail` and `get_stats` can run between `insert_one` and `insert_many`/`update_one` and see a record without its rows or a count one short. The model's reads see only the states between whole requests, so `Queries.DetailShowsRanking` and `Queries.TopLanguagesCountHistory` hold between requests, not during a commit.
- The collections persist in a database that `app.py` opens but does not create. The invariant `Valid` holds for a database that this code filled from empty with no failed commit; a database written by other code, or left by a commit that failed part-way (such as the `insert_many([])` case below), is not captured, and the two lemmas above say nothing about it.
- `Queries.Matching`: the search string is used as a `$regex` pattern in the source. The model treats it as a literal substring and folds case for ASCII letters only. Searches that contain regex metacharacters, or that rely on Unicode case folding, are not captured.
- The order of records with equal timestamps, and of stats documents with equal counts, is unspecified in MongoDB. The model breaks such ties by insertion order.
- `Service.Store.History`: the source also accepts `per_page` ≤ 0 and `page` ≤ 0. For example, `per_page` = 0 divides by zero and answers 500. The model requires `page` ≥ 1 and `per_page` ≥ 1, and leaves those inputs out.
- `Service.Store.Commit`: the source writes the confidence rows with `insert_many`, which raises on an empty list. A classifier that returns no values therefore gives a 500 after the record was written. The model commits an empty ranking without error.
- The response's `confidences` field is a list of `[name, value]` pairs. The model returns the ranking as `Candidate` values, which carry the same data.
- No rank is stored with the confidence rows. The model assumes that `find` returns a record's rows in insertion order, which for one record is the ranked order; MongoDB does not promise that order.

## Findings

| source | as written | input that shows it | evidently intended | confidence | as-written member | corrected member |
|---|---|---|---|---|---|---|
| app.py:75-112 | the sort key reads `x.value` on each confidence entry, but the later reads unpack it as `lang, conf` and read `conf.value` on the number | "Bonjour tout le monde" with FRENCH detected and values [(FRENCH, 0.9), (ENGLISH, 0.1)]: 500 at line 77; with a reachable store and the detected language outside the top five, 500 at line 97 after `insert_one` | the classification is answered and the record, its rows and the stats update are written | not executed; depends on the shape of the detector library's confidence entries, which is outside this model | Detection.ClassifyAsWritten, Detection.AcceptedTextFailsAsWritten | Detection.Classify |
