/** `run_pipeline`: scrape both sites, concatenate (Skift first), store the
    batch in the database and in the CSV file, and read back the latest five
    rows. What the run sees of the outside world (the two pages as fetched,
    the date parsers, the clock readings, which INSERTs raise, whether the CSV
    file can be opened) is passed in. */
module Pipeline {
  import opened Articles
  import opened Extraction
  import opened DedupStore
  import opened Ranking
  import opened CsvExport

  /** The inputs of one run: each site's page, the parser of its date format,
      and the clock reading used when a date is missing or does not parse. */
  datatype Inputs = Inputs(
    skiftPage: Page<SkiftBlock>, parseIso: string -> Option<Stamp>, nowUtc: Stamp,
    phocusPage: Page<PhocusItem>, parseDate: string -> Option<Stamp>, nowLocal: Stamp)

  function SkiftOf(w: Inputs): seq<Article>
  {
    SkiftArticles(w.skiftPage, w.parseIso, w.nowUtc)
  }

  function PhocusWireOf(w: Inputs): seq<Article>
  {
    PhocusWireArticles(w.phocusPage, w.parseDate, w.nowLocal)
  }

  /** `all_articles = skift_articles + phocuswire_articles`. */
  function AllArticles(w: Inputs): (r: seq<Article>)
    ensures w.skiftPage.FetchFailed? ==> r == PhocusWireOf(w)
    ensures w.phocusPage.FetchFailed? ==> r == SkiftOf(w)
  {
    SkiftOf(w) + PhocusWireOf(w)
  }

  lemma SkiftSources(w: Inputs)
    ensures forall k :: 0 <= k < |SkiftOf(w)| ==> SkiftOf(w)[k].source == Skift
  {
    if w.skiftPage.Fetched? {
      SkiftArticlesFromWellFormedBlocks(w.skiftPage.items, w.parseIso, w.nowUtc);
    }
  }

  lemma PhocusWireSources(w: Inputs)
    ensures forall k :: 0 <= k < |PhocusWireOf(w)| ==> PhocusWireOf(w)[k].source == PhocusWire
  {
    if w.phocusPage.Fetched? {
      PhocusWireUrlsAreAbsolute(w.phocusPage.items, w.parseDate, w.nowLocal);
    }
  }

  /** The batch is the Skift articles followed by the PhocusWire articles: a
      record is a Skift one exactly when it lies before the first PhocusWire
      one. */
  lemma SkiftBeforePhocusWire(w: Inputs)
    ensures var all := AllArticles(w);
      && all[..|SkiftOf(w)|] == SkiftOf(w)
      && all[|SkiftOf(w)|..] == PhocusWireOf(w)
      && forall i :: 0 <= i < |all| ==> (all[i].source == Skift <==> i < |SkiftOf(w)|)
  {
    var all := AllArticles(w);
    SkiftSources(w);
    PhocusWireSources(w);
    assert all[..|SkiftOf(w)|] == SkiftOf(w);
    assert all[|SkiftOf(w)|..] == PhocusWireOf(w);
    forall i | 0 <= i < |all| ensures all[i].source == Skift <==> i < |SkiftOf(w)| {
      if i < |SkiftOf(w)| {
        assert all[i] == SkiftOf(w)[i];
      } else {
        assert all[i] == PhocusWireOf(w)[i - |SkiftOf(w)|];
      }
    }
  }

  /** When the Skift fetch fails, a run on an empty table stores only
      PhocusWire rows, and the latest list holds only PhocusWire rows. */
  lemma SkiftDownLeavesPhocusWireOnly(w: Inputs, failed: set<nat>)
    requires w.skiftPage.FetchFailed?
    ensures AllArticles(w) == PhocusWireOf(w)
    ensures forall x :: x in AfterStore([], AllArticles(w), failed) ==> x.source == PhocusWire
    ensures forall latest: seq<Article>, x: Article :: IsTop(AfterStore([], AllArticles(w), failed), Limit, latest) && x in latest
                             ==> x.source == PhocusWire
  {
    var all := AllArticles(w);
    assert all == PhocusWireOf(w);
    var table := AfterStore([], all, failed);
    StoredRowsComeFromInput([], all, failed);
    PhocusWireSources(w);
    forall x | x in table ensures x.source == PhocusWire {
      var k :| 0 <= k < |all| && all[k] == x;
    }
    forall latest: seq<Article>, x: Article | IsTop(table, Limit, latest) && x in latest ensures x.source == PhocusWire {
      assert x in multiset(latest);
      assert x in multiset(table);
    }
  }

  /** Two runs that fetch the same pages produce batches with the same urls
      in the same order, whatever their clock readings and date parsers: which
      items are kept and their urls depend on the pages alone. */
  lemma SamePagesSameUrls(w: Inputs, w2: Inputs)
    requires w2.skiftPage == w.skiftPage && w2.phocusPage == w.phocusPage
    ensures |AllArticles(w2)| == |AllArticles(w)|
    ensures forall k :: 0 <= k < |AllArticles(w)| ==> AllArticles(w2)[k].url == AllArticles(w)[k].url
  {
    var s, s2 := SkiftOf(w), SkiftOf(w2);
    var p, p2 := PhocusWireOf(w), PhocusWireOf(w2);
    SkiftSameUrls(w, w2);
    PhocusWireSameUrls(w, w2);
    forall k | 0 <= k < |AllArticles(w)| ensures AllArticles(w2)[k].url == AllArticles(w)[k].url {
      if k < |s| {
        assert AllArticles(w2)[k] == s2[k] && AllArticles(w)[k] == s[k];
      } else {
        assert AllArticles(w2)[k] == p2[k - |s|] && AllArticles(w)[k] == p[k - |s|];
      }
    }
  }

  lemma SkiftSameUrls(w: Inputs, w2: Inputs)
    requires w2.skiftPage == w.skiftPage
    ensures |SkiftOf(w2)| == |SkiftOf(w)|
    ensures forall k :: 0 <= k < |SkiftOf(w)| ==> SkiftOf(w2)[k].url == SkiftOf(w)[k].url
  {
    if w.skiftPage.Fetched? {
      var f, g := SkiftItemOf(w.parseIso, w.nowUtc), SkiftItemOf(w2.parseIso, w2.nowUtc);
      assert forall b :: f(b) == SkiftItem(b, w.parseIso, w.nowUtc) && g(b) == SkiftItem(b, w2.parseIso, w2.nowUtc);
      FilterMapSameUrls(w.skiftPage.items, g, f);
    }
  }

  lemma PhocusWireSameUrls(w: Inputs, w2: Inputs)
    requires w2.phocusPage == w.phocusPage
    ensures |PhocusWireOf(w2)| == |PhocusWireOf(w)|
    ensures forall k :: 0 <= k < |PhocusWireOf(w)| ==> PhocusWireOf(w2)[k].url == PhocusWireOf(w)[k].url
  {
    if w.phocusPage.Fetched? {
      var f, g := PhocusItemOf(w.parseDate, w.nowLocal), PhocusItemOf(w2.parseDate, w2.nowLocal);
      assert forall i :: f(i) == PhocusItemArticle(i, w.parseDate, w.nowLocal)
                      && g(i) == PhocusItemArticle(i, w2.parseDate, w2.nowLocal);
      FilterMapSameUrls(w.phocusPage.items, g, f);
    }
  }

  /** Running again on the same pages, after a run in which no INSERT raised,
      inserts nothing and leaves the table as it was, so the latest-five query
      has the same answers. The second run may read a later clock and so stamp
      its fallback records differently: the url alone decides, and the first
      write stays. */
  lemma RerunChangesNothing(rows: seq<Article>, w: Inputs, w2: Inputs, failed: set<nat>)
    requires w2.skiftPage == w.skiftPage && w2.phocusPage == w.phocusPage
    ensures var once := AfterStore(rows, AllArticles(w), {});
      && AfterStore(once, AllArticles(w2), failed) == once
      && InsertedCount(once, AllArticles(w2), failed) == 0
      && forall latest :: IsTop(AfterStore(once, AllArticles(w2), failed), Limit, latest) <==> IsTop(once, Limit, latest)
  {
    var all, all2 := AllArticles(w), AllArticles(w2);
    var once := AfterStore(rows, all, {});
    SamePagesSameUrls(w, w2);
    StoredUrls(rows, all, {});
    forall k | 0 <= k < |all2| ensures all2[k].url in Urls(once) {
      assert all2[k].url == all[k].url;
      assert all[k].url in AcceptedUrls(all, {});
    }
    StoreOfKnownUrlsIsNoOp(once, all2, failed);
  }

  /** `run_pipeline` on a database and a CSV file. */
  method RunPipeline(db: Database, csv: CsvFile, w: Inputs, failed: set<nat>, csvOpenFails: bool)
    returns (latest: seq<Article>)
    requires db.Valid()
    modifies db, csv
    ensures db.Valid()
    ensures db.rows == AfterStore(old(db.rows), AllArticles(w), failed)
    ensures csvOpenFails ==> csv.onDisk == old(csv.onDisk) && csv.lines == old(csv.lines)
    ensures !csvOpenFails ==> csv.onDisk && csv.lines == CsvContents(old(csv.onDisk), AllArticles(w))
    ensures IsTop(db.rows, Limit, latest)
  {
    var skift := ScrapeSkift(w.skiftPage, w.parseIso, w.nowUtc);
    var phocusWire := GetPhocusWireArticles(w.phocusPage, w.parseDate, w.nowLocal);
    var all := skift + phocusWire;
    var inserted := db.StoreArticlesToDb(all, failed);
    csv.StoreArticlesToCsv(all, csvOpenFails);
    latest := LatestArticles(db.rows);
  }
}
