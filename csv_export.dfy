/** `store_articles_to_csv`: the file is opened with mode `'w'`, so whatever it
    held is discarded, and the header row is written only when the file did
    not exist before the call. A line is kept as the fields it carries; CSV
    quoting and encoding are not modelled. */
module CsvExport {
  import opened Articles

  /** One line of `articles.csv`, with the `DictWriter` fields
      `url, title, published_at, source`. */
  datatype CsvLine = Header | Record(url: string, title: string, publishedAt: Stamp, source: Source)

  function RecordOf(a: Article): CsvLine
  {
    Record(a.url, a.title, a.publishedAt, a.source)
  }

  function Records(articles: seq<Article>): (lines: seq<CsvLine>)
    ensures |lines| == |articles|
    ensures forall k :: 0 <= k < |articles| ==> lines[k] == RecordOf(articles[k])
  {
    if articles == [] then [] else Records(articles[..|articles| - 1]) + [RecordOf(articles[|articles| - 1])]
  }

  /** The file's lines after a successful call. */
  function CsvContents(existedBefore: bool, articles: seq<Article>): (lines: seq<CsvLine>)
    ensures |lines| == |articles| + (if existedBefore then 0 else 1)
  {
    (if existedBefore then [] else [Header]) + Records(articles)
  }

  /** Reading the data lines back, skipping header lines. */
  function ArticlesOf(lines: seq<CsvLine>): seq<Article>
  {
    if lines == [] then []
    else
      var prev := ArticlesOf(lines[..|lines| - 1]);
      match lines[|lines| - 1]
      case Header => prev
      case Record(url, title, publishedAt, source) => prev + [Article(url, title, publishedAt, source)]
  }

  lemma {:induction false} ArticlesOfAppend(xs: seq<CsvLine>, ys: seq<CsvLine>)
    ensures ArticlesOf(xs + ys) == ArticlesOf(xs) + ArticlesOf(ys)
    decreases |ys|
  {
    if ys == [] {
      assert xs + ys == xs;
    } else {
      var n := |ys| - 1;
      assert (xs + ys)[..|xs + ys| - 1] == xs + ys[..n];
      ArticlesOfAppend(xs, ys[..n]);
    }
  }

  lemma {:induction false} RecordsRoundTrip(articles: seq<Article>)
    ensures ArticlesOf(Records(articles)) == articles
    decreases |articles|
  {
    if articles != [] {
      var n := |articles| - 1;
      RecordsRoundTrip(articles[..n]);
      var lines := Records(articles);
      assert lines[..n] == Records(articles[..n]);
      assert articles == articles[..n] + [articles[n]];
    }
  }

  /** The file afterwards holds exactly the given articles, in order, and
      nothing from before the call. */
  lemma CsvHoldsExactlyTheArticles(existedBefore: bool, articles: seq<Article>)
    ensures ArticlesOf(CsvContents(existedBefore, articles)) == articles
  {
    RecordsRoundTrip(articles);
    ArticlesOfAppend(if existedBefore then [] else [Header], Records(articles));
    assert ArticlesOf([Header]) == [] by {
      assert [Header][..0] == [];
    }
  }

  /** A header line is present exactly when the file did not exist before,
      and then only as the first line. */
  lemma CsvHeaderRule(existedBefore: bool, articles: seq<Article>)
    ensures var lines := CsvContents(existedBefore, articles);
      && (Header in lines <==> !existedBefore)
      && (forall k :: 0 < k < |lines| ==> lines[k] != Header)
      && (!existedBefore ==> lines[0] == Header)
  {
    var lines := CsvContents(existedBefore, articles);
    var recs := Records(articles);
    if existedBefore {
      assert lines == recs;
      assert Header !in recs by {
        forall k | 0 <= k < |recs| ensures recs[k] != Header {
          assert recs[k] == RecordOf(articles[k]);
        }
      }
    } else {
      assert lines == [Header] + recs;
      forall k | 0 < k < |lines| ensures lines[k] != Header {
        assert lines[k] == recs[k - 1] == RecordOf(articles[k - 1]);
      }
    }
  }

  /** `articles.csv` on disk. */
  class CsvFile {
    var onDisk: bool
    var lines: seq<CsvLine>

    /** A file system without `articles.csv`. */
    constructor ()
      ensures !onDisk && lines == []
    {
      onDisk := false;
      lines := [];
    }

    /** `store_articles_to_csv`. `openFails` stands for `open` raising (for
        instance a permission error), which is logged and leaves the file as
        it was. */
    method StoreArticlesToCsv(articles: seq<Article>, openFails: bool)
      modifies this
      ensures openFails ==> onDisk == old(onDisk) && lines == old(lines)
      ensures !openFails ==> onDisk && lines == CsvContents(old(onDisk), articles)
    {
      var fileExists := onDisk;
      if openFails {
        return;
      }
      onDisk, lines := true, [];
      if !fileExists {
        lines := lines + [Header];
      }
      var i := 0;
      while i < |articles|
        invariant 0 <= i <= |articles|
        invariant onDisk
        invariant lines == (if fileExists then [] else [Header]) + Records(articles[..i])
      {
        assert articles[..i + 1][..i] == articles[..i];
        lines := lines + [RecordOf(articles[i])];
        i := i + 1;
      }
      assert articles[..i] == articles;
    }
  }
}
