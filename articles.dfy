/** The canonical article record shared by both scrapers, the SQLite table,
    the CSV mirror and the top-5 query. */
module Articles {

  datatype Option<+T> = None | Some(value: T)

  /** The `source` column: the scraper that produced the record. */
  datatype Source = Skift | PhocusWire

  /** A `published_at` value: the text that `strftime('%Y-%m-%d %H:%M:%S')`
      produced. Being fixed-width and most-significant-field first, these
      strings order chronologically when compared character by character. */
  type Stamp = string

  /** One dictionary built by a scraper, and one row of the `articles` table
      (the AUTOINCREMENT `id` is represented by the row's position). */
  datatype Article = Article(url: string, title: string, publishedAt: Stamp, source: Source)

  /** The outcome of fetching one listing page: the repeated item structures
      the HTML parser selected, or a failure (network error, timeout,
      non-2xx status, unparsable document). */
  datatype Page<T> = Fetched(items: seq<T>) | FetchFailed

  function Min(a: int, b: int): int
  {
    if a <= b then a else b
  }
}
