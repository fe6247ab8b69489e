/** The `articles` table and `store_articles_to_db`: every article goes in with
    `INSERT OR IGNORE` against `url TEXT UNIQUE`, so the first row stored for a
    url is kept and later ones are dropped; the counter `inserted` adds up each
    statement's `rowcount`. The table is a sequence of rows in insertion order
    (the AUTOINCREMENT `id` order); the SQL engine itself is not modelled. */
module DedupStore {
  import opened Articles

  /** The `UNIQUE` constraint on `url`. */
  ghost predicate UniqueUrls(rows: seq<Article>)
  {
    forall i, j :: 0 <= i < j < |rows| ==> rows[i].url != rows[j].url
  }

  function Urls(rows: seq<Article>): set<string>
  {
    set k | 0 <= k < |rows| :: rows[k].url
  }

  /** The stored row with key `url`, if any (the first one, should there be
      several). */
  function Lookup(rows: seq<Article>, url: string): (r: Option<Article>)
    ensures r.Some? <==> url in Urls(rows)
    ensures r.Some? ==> r.value in rows && r.value.url == url
  {
    if rows == [] then None
    else if rows[0].url == url then Some(rows[0])
    else
      var r := Lookup(rows[1..], url);
      assert Urls(rows) == {rows[0].url} + Urls(rows[1..]) by {
        forall u | u in Urls(rows) ensures u in {rows[0].url} + Urls(rows[1..]) {
          var k :| 0 <= k < |rows| && rows[k].url == u;
          if k > 0 { assert rows[1..][k - 1] == rows[k]; }
        }
        forall u | u in Urls(rows[1..]) ensures u in Urls(rows) {
          var k :| 0 <= k < |rows[1..]| && rows[1..][k].url == u;
          assert rows[k + 1] == rows[1..][k];
        }
      }
      r
  }

  /** The table after one `INSERT OR IGNORE` of `a`: unchanged when its url is
      already stored, otherwise with `a` added at the end. */
  function AfterInsertOrIgnore(rows: seq<Article>, a: Article): (r: seq<Article>)
    ensures rows <= r && |r| <= |rows| + 1
    ensures Urls(r) == Urls(rows) + {a.url}
    ensures UniqueUrls(rows) ==> UniqueUrls(r)
    ensures a.url in Urls(rows) <==> r == rows
    ensures a.url !in Urls(rows) ==> r == rows + [a]
  {
    if a.url in Urls(rows) then rows
    else
      var r := rows + [a];
      assert Urls(r) == Urls(rows) + {a.url} by {
        forall u | u in Urls(r) ensures u in Urls(rows) + {a.url} {
          var k :| 0 <= k < |r| && r[k].url == u;
          if k < |rows| { assert r[k] == rows[k]; }
        }
        forall u | u in Urls(rows) ensures u in Urls(r) {
          var k :| 0 <= k < |rows| && rows[k].url == u;
          assert r[k] == rows[k];
        }
        assert r[|rows|].url == a.url;
      }
      assert a.url !in Urls(rows);
      assert forall k :: 0 <= k < |rows| ==> rows[k].url in Urls(rows);
      r
  }

  /** The `rowcount` of that statement: 1 when a row was added, 0 when ignored. */
  function RowCount(rows: seq<Article>, a: Article): (r: nat)
    ensures |AfterInsertOrIgnore(rows, a)| == |rows| + r
  {
    if a.url in Urls(rows) then 0 else 1
  }

  /** The table after `store_articles_to_db(articles)`, where `failed` holds
      the positions whose INSERT raised (those are logged and skipped). */
  function AfterStore(rows: seq<Article>, articles: seq<Article>, failed: set<nat>): (r: seq<Article>)
    ensures rows <= r && |r| <= |rows| + |articles|
    decreases |articles|
  {
    if articles == [] then rows
    else
      var n := |articles| - 1;
      var prev := AfterStore(rows, articles[..n], failed);
      if n in failed then prev else AfterInsertOrIgnore(prev, articles[n])
  }

  /** The final value of the counter `inserted`. */
  function InsertedCount(rows: seq<Article>, articles: seq<Article>, failed: set<nat>): (r: nat)
    ensures r <= |articles|
    decreases |articles|
  {
    if articles == [] then 0
    else
      var n := |articles| - 1;
      var prev := AfterStore(rows, articles[..n], failed);
      InsertedCount(rows, articles[..n], failed) + (if n in failed then 0 else RowCount(prev, articles[n]))
  }

  /** The urls of the articles whose INSERT did not raise. */
  function AcceptedUrls(articles: seq<Article>, failed: set<nat>): set<string>
  {
    set i | 0 <= i < |articles| && i !in failed :: articles[i].url
  }

  // ---------- Properties of a store call ----------

  /** At most one row per url, whatever is stored. */
  lemma {:induction false} StoreKeepsUrlsUnique(rows: seq<Article>, articles: seq<Article>, failed: set<nat>)
    requires UniqueUrls(rows)
    ensures UniqueUrls(AfterStore(rows, articles, failed))
    decreases |articles|
  {
    if articles != [] {
      StoreKeepsUrlsUnique(rows, articles[..|articles| - 1], failed);
    }
  }

  /** The store only grows: the old table is a prefix of the new one, so no
      row is deleted, modified or reordered, and the table grows by exactly
      the counter `inserted`, which is at most the number of articles. */
  lemma {:induction false} StoreOnlyAppends(rows: seq<Article>, articles: seq<Article>, failed: set<nat>)
    ensures rows <= AfterStore(rows, articles, failed)
    ensures |AfterStore(rows, articles, failed)| == |rows| + InsertedCount(rows, articles, failed)
    ensures InsertedCount(rows, articles, failed) <= |articles|
    decreases |articles|
  {
    if articles != [] {
      StoreOnlyAppends(rows, articles[..|articles| - 1], failed);
    }
  }

  /** The stored urls afterwards are the old ones plus those of the articles
      whose INSERT did not raise. */
  lemma {:induction false} StoredUrls(rows: seq<Article>, articles: seq<Article>, failed: set<nat>)
    ensures Urls(AfterStore(rows, articles, failed)) == Urls(rows) + AcceptedUrls(articles, failed)
    decreases |articles|
  {
    if articles != [] {
      var n := |articles| - 1;
      StoredUrls(rows, articles[..n], failed);
      assert AcceptedUrls(articles, failed)
          == AcceptedUrls(articles[..n], failed) + (if n in failed then {} else {articles[n].url}) by {
        forall u | u in AcceptedUrls(articles, failed)
          ensures u in AcceptedUrls(articles[..n], failed) + (if n in failed then {} else {articles[n].url})
        {
          var i :| 0 <= i < |articles| && i !in failed && articles[i].url == u;
          if i < n { assert articles[..n][i] == articles[i]; }
        }
        forall u | u in AcceptedUrls(articles[..n], failed) ensures u in AcceptedUrls(articles, failed) {
          var i :| 0 <= i < n && i !in failed && articles[..n][i].url == u;
          assert articles[i] == articles[..n][i];
        }
      }
    } else {
      assert AcceptedUrls(articles, failed) == {};
    }
  }

  /** Every stored row was already there or is one of the articles. */
  lemma {:induction false} StoredRowsComeFromInput(rows: seq<Article>, articles: seq<Article>, failed: set<nat>)
    ensures forall x :: x in AfterStore(rows, articles, failed) ==> x in rows || x in articles
    decreases |articles|
  {
    if articles != [] {
      var n := |articles| - 1;
      StoredRowsComeFromInput(rows, articles[..n], failed);
      forall x | x in AfterStore(rows, articles, failed) ensures x in rows || x in articles {
        if x in AfterStore(rows, articles[..n], failed) {
          if x in articles[..n] {
            var k :| 0 <= k < n && articles[..n][k] == x;
            assert articles[k] == x;
          }
        } else {
          assert x == articles[n];
        }
      }
    }
  }

  lemma LookupInPrefix(rows: seq<Article>, rows': seq<Article>, url: string)
    requires rows <= rows' && url in Urls(rows)
    ensures Lookup(rows', url) == Lookup(rows, url)
  {
    if rows[0].url != url {
      assert url in Urls(rows[1..]) by {
        var k :| 0 <= k < |rows| && rows[k].url == url;
        assert rows[1..][k - 1] == rows[k];
      }
      LookupInPrefix(rows[1..], rows'[1..], url);
    }
  }

  lemma LookupAppended(rows: seq<Article>, a: Article)
    requires a.url !in Urls(rows)
    ensures Lookup(rows + [a], a.url) == Some(a)
  {
    if rows != [] {
      assert rows[0].url in Urls(rows);
      assert (rows + [a])[1..] == rows[1..] + [a];
      assert a.url !in Urls(rows[1..]);
      LookupAppended(rows[1..], a);
    }
  }

  /** First write wins across runs: a url stored before the call keeps its
      row, whatever the articles carry for it. */
  lemma StoredRowUnchanged(rows: seq<Article>, articles: seq<Article>, failed: set<nat>, url: string)
    requires url in Urls(rows)
    ensures Lookup(AfterStore(rows, articles, failed), url) == Lookup(rows, url)
  {
    StoreOnlyAppends(rows, articles, failed);
    LookupInPrefix(rows, AfterStore(rows, articles, failed), url);
  }

  /** First write wins within a batch: for a url not stored before, the row
      stored is the first article with that url whose INSERT did not raise. */
  lemma {:induction false} FirstInBatchWins(rows: seq<Article>, articles: seq<Article>, failed: set<nat>, i: nat)
    requires i < |articles| && i !in failed && articles[i].url !in Urls(rows)
    requires forall j :: 0 <= j < i && j !in failed ==> articles[j].url != articles[i].url
    ensures Lookup(AfterStore(rows, articles, failed), articles[i].url) == Some(articles[i])
    decreases |articles|
  {
    var n := |articles| - 1;
    var prev := AfterStore(rows, articles[..n], failed);
    var url := articles[i].url;
    if i < n {
      FirstInBatchWins(rows, articles[..n], failed, i);
      if n !in failed {
        LookupInPrefix(prev, AfterInsertOrIgnore(prev, articles[n]), url);
      }
    } else {
      assert url !in Urls(prev) by {
        StoredUrls(rows, articles[..n], failed);
        assert url !in AcceptedUrls(articles[..n], failed);
      }
      LookupAppended(prev, articles[n]);
    }
  }

  /** Storing articles whose urls are all already stored changes nothing and
      counts nothing. */
  lemma {:induction false} StoreOfKnownUrlsIsNoOp(rows: seq<Article>, articles: seq<Article>, failed: set<nat>)
    requires forall k :: 0 <= k < |articles| ==> articles[k].url in Urls(rows)
    ensures AfterStore(rows, articles, failed) == rows
    ensures InsertedCount(rows, articles, failed) == 0
    decreases |articles|
  {
    if articles != [] {
      var n := |articles| - 1;
      StoreOfKnownUrlsIsNoOp(rows, articles[..n], failed);
      assert articles[n].url in Urls(rows);
    }
  }

  /** Re-running the same batch, after a run in which no INSERT raised, leaves
      the table as it was and reports 0 inserted. */
  lemma RerunAddsNothing(rows: seq<Article>, articles: seq<Article>, failed: set<nat>)
    ensures var once := AfterStore(rows, articles, {});
      && AfterStore(once, articles, failed) == once
      && InsertedCount(once, articles, failed) == 0
  {
    var once := AfterStore(rows, articles, {});
    StoredUrls(rows, articles, {});
    forall k | 0 <= k < |articles| ensures articles[k].url in Urls(once) {
      assert articles[k].url in AcceptedUrls(articles, {});
    }
    StoreOfKnownUrlsIsNoOp(once, articles, failed);
  }

  // ---------- The table as the source updates it ----------

  class Database {
    /** The rows of `articles`, in insertion order. */
    var rows: seq<Article>

    ghost predicate Valid()
      reads this
    {
      UniqueUrls(rows)
    }

    /** `CREATE TABLE IF NOT EXISTS` on a new database file. */
    constructor ()
      ensures Valid() && rows == []
    {
      rows := [];
    }

    /** One `INSERT OR IGNORE INTO articles ...` and its `rowcount`. */
    method InsertOrIgnore(a: Article) returns (rowcount: nat)
      requires Valid()
      modifies this
      ensures Valid()
      ensures rows == AfterInsertOrIgnore(old(rows), a)
      ensures rowcount == RowCount(old(rows), a)
    {
      if a.url in Urls(rows) {
        rowcount := 0;
      } else {
        rows := rows + [a];
        rowcount := 1;
      }
    }

    /** `store_articles_to_db`: the loop over the articles. `failed` holds the
        positions whose INSERT raises; `inserted` is the logged counter. */
    method StoreArticlesToDb(articles: seq<Article>, failed: set<nat>) returns (inserted: nat)
      requires Valid()
      modifies this
      ensures Valid()
      ensures rows == AfterStore(old(rows), articles, failed)
      ensures inserted == InsertedCount(old(rows), articles, failed)
    {
      inserted := 0;
      var i := 0;
      while i < |articles|
        invariant 0 <= i <= |articles|
        invariant Valid()
        invariant rows == AfterStore(old(rows), articles[..i], failed)
        invariant inserted == InsertedCount(old(rows), articles[..i], failed)
      {
        assert articles[..i + 1][..i] == articles[..i];
        if i !in failed {
          var rowcount := InsertOrIgnore(articles[i]);
          inserted := inserted + rowcount;
        }
        i := i + 1;
      }
      assert articles[..i] == articles;
    }
  }
}
