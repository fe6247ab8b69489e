# news_pipeline — a verified model of the ingestion core

`news_pipeline.py` does the following in each run:

1. It scrapes the Skift homepage and the PhocusWire "Latest News" page.
2. It normalises every usable listing item into an article record (`url`, `title`, `published_at`, `source`).
3. It concatenates the two lists, Skift first.
4. It stores them in the SQLite table `articles`. The url column is unique and each record goes in with `INSERT OR IGNORE`, so the first write of a url wins, across runs and within a batch.
5. It rewrites `articles.csv` with the batch.
6. It reports the five rows with the latest `published_at`.

This project models that core in Dafny:

- `articles.dfy`: the record, its source, a fetched page, and `Option`.
- `text.dfy`: Python's `str.strip`, `str.split`/`join` on one character, `[-1]` of a split, and the one-character `str.replace` that the scrapers use, each with its properties.
- `extraction.dfy`: the per-item loops of `scrape_skift` and `get_phocuswire_articles`. Each loop is a method proved equal to a filter-map over the items. Lemmas cover:
  - which items are kept and where they land;
  - order preservation;
  - skipping;
  - the "now" fallback;
  - URL prefixing;
  - the `|`-date rule.
- `store.dfy`: the `articles` table as a class `Database` over the rows in insertion order, with `INSERT OR IGNORE` and the `store_articles_to_db` loop. The loop is proved against `AfterStore`. Lemmas about `AfterStore` cover:
  - uniqueness;
  - growth only;
  - the url set;
  - first write wins;
  - the `inserted` counter;
  - idempotent reruns.
- `ranking.dfy`: `get_latest_articles` (`ORDER BY datetime(published_at) DESC LIMIT 5`) as a sort on the stored rows and the first five of it. It is proved to be a top-5 selection.
- `csv_export.dfy`: `store_articles_to_csv` as a class `CsvFile` (whether the file exists, and its lines). Lemmas cover the header rule and the round trip of the rows.
- `pipeline.dfy`: `run_pipeline`, and lemmas about the concatenation order, a failed source, and reruns.

The world outside the program is passed in as parameters:

- each fetched page, as a `Page` of items with optional fields for what the HTML selectors found, or `FetchFailed`;
- each date parser, which includes the `strftime` formatting, as a partial function;
- the clock readings;
- the positions whose INSERT raises;
- whether `articles.csv` can be opened.

A `published_at` value is the `'%Y-%m-%d %H:%M:%S'` text. For these fixed-width texts, SQLite's `datetime()` is the identity, so the ranking compares them as text, character by character.

Where a reader might expect otherwise, the model follows the code:

- The code does not reject empty titles. A Skift heading, or a PhocusWire anchor text, that strips to `""` is kept.
- Skift urls are the raw `href` of the block's link and are never made absolute, unlike PhocusWire urls, which get the site base in front.
- Time zones are not normalised to UTC. `strftime` drops the offset of a Skift timestamp, and PhocusWire falls back to naive local time. So the model has two separate clock inputs and claims nothing about UTC.
- The query has no secondary sort key. The top-5 is specified only up to the order among equal `published_at` values.
- `articles.csv` is always truncated (mode `'w'`), but the header row is written only if the file did not exist before the call. So after the first export, the file has data rows and no header. The log line still says "Appended".

## Model

| member | source | states |
|---|---|---|
| Text.StripSpec | news_pipeline.py:116 | `strip()` result is the infix of the input left after removing whitespace at both ends: everything before and after it is whitespace, and its first and last characters are not |
| Text.JoinSplit | news_pipeline.py:119 | joining the pieces of `split('|')` with `'|'` gives back the text |
| Text.SplitJoin | news_pipeline.py:119 | splitting the `'|'`-join of `'|'`-free pieces gives back those pieces |
| Text.Split | news_pipeline.py:119 | `split('|')` yields at least one piece and no piece contains `'|'` |
| Text.LastPieceIsSuffix | news_pipeline.py:119 | the last piece of `split('|')` is a `'|'`-free suffix; it is the whole text exactly when there is a single piece, and otherwise a `'|'` precedes it |
| Text.LastPieceSpec | news_pipeline.py:119 | the piece after the last `'|'` is a `'|'`-free suffix, preceded by `'|'` or equal to the whole text |
| Text.LastPieceOfSplit | news_pipeline.py:119 | `split('|')[-1]` equals the piece after the last `'|'` |
| Text.Strip | news_pipeline.py:116 | `strip()` never lengthens the text (its full characterisation is `StripSpec`) |
| Text.ReplaceChar | news_pipeline.py:68 | after `replace("Z", "+00:00")` no `Z` remains, and a text without `Z` is unchanged |
| Text.ReplaceCharAppend | news_pipeline.py:68 | the replacement of a concatenation is the concatenation of the replacements |
| Text.ReplaceCharAt | news_pipeline.py:68 | at any position, a `Z` becomes `+00:00` and any other character is kept, with the text on either side replaced independently |
| Extraction.FilterMap | news_pipeline.py:74-79 | what the append-unless-skipped accumulation builds: at most one record per item |
| Extraction.FilterMapSameUrls | news_pipeline.py:54-82 | two normalisations that keep the same items with the same urls give records with the same urls, position by position |
| Extraction.FilterMapKeepsOrder | news_pipeline.py:54-82 | kept items appear in the output in the same relative order as on the page |
| Extraction.FilterMapAt | news_pipeline.py:54-82 | an accepted item's record lies in the output at the count of records accepted before it |
| Extraction.FilterMapOrigin | news_pipeline.py:54-82 | every output record comes from an item that the normalisation accepts, at that item's position |
| Extraction.FilterMapSkips | news_pipeline.py:59-60 | removing an item that the normalisation rejects does not change the output |
| Extraction.FilterMapAppend | news_pipeline.py:74 | the records of two consecutive runs of items are those of the first followed by those of the second |
| Extraction.IsoText | news_pipeline.py:66-68 | the text handed to `fromisoformat` exists exactly when the block has a `<time>` tag with a `datetime` attribute, and contains no `Z` |
| Extraction.SkiftPublishedAt | news_pipeline.py:64-72 | the timestamp is the parse of the `Z`-replaced `datetime` attribute when there is one and it parses, and the current UTC time otherwise |
| Extraction.SkiftItem | news_pipeline.py:56-79 | a block yields a record exactly when it has a link and a heading, and the record carries that link, that heading and source Skift |
| Extraction.SkiftArticles | news_pipeline.py:48-85 | what `scrape_skift` returns: nothing when the fetch fails, otherwise at most one record per block |
| Extraction.ScrapeSkift | news_pipeline.py:48-85 | the Skift loop appends exactly the records of the well-formed blocks, in order; a failed fetch gives no records and otherwise there are at most as many records as blocks |
| Extraction.SkiftArticleAt | news_pipeline.py:56-79 | a block with a link and a heading yields the record with that url, title and source Skift, stamped with its parsed `datetime`, or with the current UTC time when the tag or attribute is missing or does not parse |
| Extraction.SkiftArticlesFromWellFormedBlocks | news_pipeline.py:56-79 | every Skift record has source Skift and comes from a block having that link and that heading |
| Extraction.MalformedSkiftBlockSkipped | news_pipeline.py:59-60 | a block without a link or without an `h2`/`h3` contributes nothing |
| Extraction.RawDate | news_pipeline.py:118-119 | the date text is "Unknown" without an `.author` element, and otherwise no longer than that element's text |
| Extraction.PhocusPublishedAt | news_pipeline.py:121-124 | the timestamp is the parse of the date text when it parses, and the current local time otherwise |
| Extraction.PhocusItemArticle | news_pipeline.py:114-131 | an item yields a record exactly when it has an `a.title` anchor with an `href`, and the record has the base-prefixed url and source PhocusWire |
| Extraction.PhocusWireArticles | news_pipeline.py:106-138 | what `get_phocuswire_articles` returns: nothing when the fetch fails, otherwise at most one record per item |
| Extraction.GetPhocusWireArticles | news_pipeline.py:106-138 | the PhocusWire loop appends exactly the records of the items that have an `a.title` anchor with an `href`, in order; a failed fetch gives no records and otherwise there are at most as many records as items |
| Extraction.PhocusWireUrlsAreAbsolute | news_pipeline.py:114-115 | every PhocusWire record has source PhocusWire and url `https://www.phocuswire.com` followed by the href of one of the items |
| Extraction.RawDateIsSplitLast | news_pipeline.py:119 | the date text of an item with an `.author` element is `text.split('|')[-1].strip()` |
| Extraction.RawDateIsLastPiece | news_pipeline.py:118-119 | that date text is `'|'`-free, neither starts nor ends with whitespace, and lies in the part of the text after its last `'|'` with only whitespace before and after it there |
| Extraction.PhocusWireArticleAt | news_pipeline.py:114-131 | an item with an anchor and an href yields the base-prefixed url and the stripped anchor text, stamped with the parsed date, or with the current local time when there is no `.author` (the date text is then "Unknown") or the date does not parse |
| Extraction.MalformedPhocusItemSkipped | news_pipeline.py:114-115 | an item without an `a.title` anchor or without an `href` raises inside the loop and contributes nothing |
| DedupStore.Lookup | news_pipeline.py:162 | the row stored under a url exists exactly when the url is in the table, and it carries that url |
| DedupStore.AfterInsertOrIgnore | news_pipeline.py:171-174 | `INSERT OR IGNORE` keeps every old row in place; the url set gains the new url; uniqueness is kept; the table is unchanged exactly when the url was present, and otherwise gains exactly the article as its last row |
| DedupStore.RowCount | news_pipeline.py:176 | `cursor.rowcount` is the number of rows the INSERT added to the table |
| DedupStore.AfterStore | news_pipeline.py:169-176 | the table after the loop keeps the old rows as a prefix and grows by at most the batch size |
| DedupStore.InsertedCount | news_pipeline.py:169-176 | the final `inserted` is at most the batch size |
| DedupStore.StoreKeepsUrlsUnique | news_pipeline.py:159-176 | after storing a batch the table still holds at most one row per url |
| DedupStore.StoreOnlyAppends | news_pipeline.py:169-176 | the old rows are a prefix of the new table, the table grows by exactly `inserted` rows, and `inserted` is at most the batch size |
| DedupStore.StoredUrls | news_pipeline.py:170-179 | the stored urls afterwards are the old urls plus those of the batch articles whose INSERT did not raise |
| DedupStore.StoredRowsComeFromInput | news_pipeline.py:170-176 | every row afterwards is an old row or one of the batch articles |
| DedupStore.StoredRowUnchanged | news_pipeline.py:171-174 | a url already in the table keeps its row: title, published_at and source are not overwritten |
| DedupStore.FirstInBatchWins | news_pipeline.py:170-176 | a new url's row is its first successfully inserted occurrence in the batch |
| DedupStore.StoreOfKnownUrlsIsNoOp | news_pipeline.py:170-176 | a batch whose urls are all stored changes nothing and reports 0 inserted |
| DedupStore.RerunAddsNothing | news_pipeline.py:169-182 | storing the same batch again, after a run with no failed INSERT, leaves the table unchanged and reports 0 inserted |
| DedupStore.Database.constructor | news_pipeline.py:159-167 | a newly created table is empty |
| DedupStore.Database.InsertOrIgnore | news_pipeline.py:171-176 | one INSERT changes the table as `AfterInsertOrIgnore` and reports `rowcount` 1 for a new url and 0 otherwise |
| DedupStore.Database.StoreArticlesToDb | news_pipeline.py:147-182 | the loop leaves the table as `AfterStore` and `inserted` as the number of new urls inserted, keeping urls unique |
| Ranking.TextLe | news_pipeline.py:227 | the comparison behind `ORDER BY published_at`: character by character, with a prefix sorting first, so every text sorts at or before itself |
| Ranking.TextLeTotal | news_pipeline.py:227 | any two `published_at` texts are comparable |
| Ranking.TextLeTransitive | news_pipeline.py:227 | the `published_at` order is transitive |
| Ranking.SortNewestFirst | news_pipeline.py:227 | one order the engine may produce keeps every row: it has as many rows as the table |
| Ranking.SortNewestFirstSpec | news_pipeline.py:227 | sorting puts the rows in non-increasing `published_at` order and is a permutation of them |
| Ranking.TopOfSorted | news_pipeline.py:228 | the first `k` rows of a newest-first sequence are a top-`k` selection |
| Ranking.LatestArticles | news_pipeline.py:224-230 | the result has min(5, rows) rows taken from the table, newest first, and no omitted row is newer than a returned one |
| CsvExport.Records | news_pipeline.py:203-204 | one data line per article, carrying its four fields, in order |
| CsvExport.CsvContents | news_pipeline.py:197-204 | the file has one line per article plus one header line exactly when it did not exist before |
| CsvExport.CsvHoldsExactlyTheArticles | news_pipeline.py:194-204 | the file afterwards holds exactly the given articles in order, and nothing from before the call |
| CsvExport.CsvHeaderRule | news_pipeline.py:194-201 | the file has a header line exactly when it did not exist before the call, and then only as its first line |
| CsvExport.CsvFile.StoreArticlesToCsv | news_pipeline.py:184-208 | after a call that opens the file, it exists and holds the header (only if it did not exist) followed by the batch; when `open` raises, the file is left as it was |
| Pipeline.AllArticles | news_pipeline.py:247 | when one site's fetch fails, the batch is exactly the other site's records |
| Pipeline.SkiftBeforePhocusWire | news_pipeline.py:247 | the batch is the Skift records followed by the PhocusWire records: a record is from Skift exactly when it lies before the PhocusWire part |
| Pipeline.SkiftDownLeavesPhocusWireOnly | news_pipeline.py:84-85 | when the Skift fetch fails, the batch is the PhocusWire records, and a run on an empty table stores only PhocusWire rows, and every possible top-five answer holds only PhocusWire rows |
| Pipeline.SamePagesSameUrls | news_pipeline.py:247 | two runs on the same pages give batches of the same length with the same urls at each position, whatever their clock readings and date parsers |
| Pipeline.RerunChangesNothing | news_pipeline.py:244-251 | a second run on the same pages, after a run with no failed INSERT, inserts nothing and leaves the table, and so every top-five answer, as it was, even when its clock readings and parsers differ |
| Pipeline.RunPipeline | news_pipeline.py:244-251 | one run stores `skift + phocuswire` through `AfterStore`, writes the same batch to the CSV file, and returns a top-five selection (`IsTop`) of the resulting table, whatever order the engine gives equal timestamps |

## Left out

- HTTP fetching (`requests.get`, `raise_for_status`, timeouts) is network I/O. A page arrives already fetched, or as `FetchFailed`, which is how the scrapers' outer `except` treats it.
- BeautifulSoup selection and `get_text` are a foreign library. A Skift block is given as its first `href`, its heading text as `get_text(strip=True)` returns it, and its first `<time>` tag. A PhocusWire item is given as its `a.title` anchor (href and text) and the text of its `.author` element.
- `datetime.fromisoformat`, `strptime` and `strftime` are passed in as one partial function per source, from the text to the formatted `published_at`. The model does not describe which texts they accept.
- The clock is a parameter. Each scrape call reads it once, so all fallbacks within one call share one value, whereas the source reads it once per item.
- Time zones are not modelled. The code keeps no offset and uses local time for PhocusWire.
- The SQLite engine is abstract: connecting, `CREATE TABLE IF NOT EXISTS` on an existing file, commit and close. The AUTOINCREMENT `id` is the row's position. Which INSERTs raise is an input.
- Errors from `connect`, `CREATE TABLE` or `commit` propagate out of `store_articles_to_db` and end the run. The model has no such failure.
- Ranking.LatestArticles: it is specified up to the order among rows with equal `published_at`, because the SQL query has no tie-break. It returns whole rows instead of the `(title, source, published_at, url)` tuples.
- Ranking.LatestArticles: the order is text order on `published_at`. It agrees with `datetime()` on the fixed-width texts the scrapers produce. Other texts, for which `datetime()` yields NULL, are not modelled.
- CsvExport.CsvFile.StoreArticlesToCsv: CSV quoting, encoding and newline handling are not modelled, and a line is kept as its fields. A failure in the middle of writing (after truncation) is not modelled. Only `open` failing is.
- Logging and the `tabulate` rendering of the top five are presentation only. They are left out.
