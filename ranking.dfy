/** `get_latest_articles`: `SELECT ... FROM articles ORDER BY datetime(published_at)
    DESC LIMIT 5`. For the fixed-width `'%Y-%m-%d %H:%M:%S'` strings the
    scrapers store, `datetime()` returns its argument, so the order is SQLite's
    binary text order, character by character. The engine's order among equal
    timestamps is unspecified, and nothing below depends on it. */
module Ranking {
  import opened Articles

  /** The number of rows the query keeps. */
  const Limit: nat := 5

  /** Text order: `a` sorts at or before `b`. A prefix sorts first, so in
      particular every text sorts at or before itself. */
  predicate TextLe(a: string, b: string)
    ensures a <= b ==> TextLe(a, b)
  {
    a == [] || (b != [] && (a[0] < b[0] || (a[0] == b[0] && TextLe(a[1..], b[1..]))))
  }

  lemma {:induction false} TextLeTotal(a: string, b: string)
    ensures TextLe(a, b) || TextLe(b, a)
  {
    if a != [] && b != [] && a[0] == b[0] {
      TextLeTotal(a[1..], b[1..]);
    }
  }

  lemma {:induction false} TextLeTransitive(a: string, b: string, c: string)
    requires TextLe(a, b) && TextLe(b, c)
    ensures TextLe(a, c)
  {
    if a != [] && b != [] && c != [] && a[0] == b[0] == c[0] {
      TextLeTransitive(a[1..], b[1..], c[1..]);
    }
  }

  /** Rows in non-increasing `published_at` order. */
  ghost predicate NewestFirst(s: seq<Article>)
  {
    forall i, j :: 0 <= i < j < |s| ==> TextLe(s[j].publishedAt, s[i].publishedAt)
  }

  /** What the query promises about its result `r` over the table `rows`:
      `min(n, |rows|)` of the table's rows, newest first, and no row left out
      is newer than a row returned. */
  ghost predicate IsTop(rows: seq<Article>, n: nat, r: seq<Article>)
  {
    && |r| == Min(n, |rows|)
    && multiset(r) <= multiset(rows)
    && NewestFirst(r)
    && forall x, y :: x in multiset(rows) - multiset(r) && y in r ==> TextLe(x.publishedAt, y.publishedAt)
  }

  function InsertNewestFirst(x: Article, s: seq<Article>): (r: seq<Article>)
    ensures |r| == |s| + 1
  {
    if s == [] || TextLe(s[0].publishedAt, x.publishedAt) then [x] + s
    else [s[0]] + InsertNewestFirst(x, s[1..])
  }

  /** One order the engine may produce for `ORDER BY ... DESC`. */
  function SortNewestFirst(s: seq<Article>): (r: seq<Article>)
    ensures |r| == |s|
  {
    if s == [] then [] else InsertNewestFirst(s[0], SortNewestFirst(s[1..]))
  }

  lemma {:induction false} InsertNewestFirstSorted(x: Article, s: seq<Article>)
    requires NewestFirst(s)
    ensures NewestFirst(InsertNewestFirst(x, s))
    ensures multiset(InsertNewestFirst(x, s)) == multiset(s) + multiset{x}
  {
    InsertNewestFirstPermutes(x, s);
    if s == [] {
    } else if TextLe(s[0].publishedAt, x.publishedAt) {
      forall k | 0 <= k < |s| ensures TextLe(s[k].publishedAt, x.publishedAt) {
        if k > 0 {
          TextLeTransitive(s[k].publishedAt, s[0].publishedAt, x.publishedAt);
        }
      }
      ConsNewestFirst(x, s);
    } else {
      InsertNewestFirstSorted(x, s[1..]);
      TextLeTotal(s[0].publishedAt, x.publishedAt);
      assert forall k :: 0 <= k < |s[1..]| ==> TextLe(s[1..][k].publishedAt, s[0].publishedAt);
      InsertNewestFirstBounded(x, s[1..], s[0].publishedAt);
      ConsNewestFirst(s[0], InsertNewestFirst(x, s[1..]));
    }
  }

  /** A row no older than every row of a newest-first sequence can lead it. */
  lemma ConsNewestFirst(y: Article, t: seq<Article>)
    requires NewestFirst(t)
    requires forall k :: 0 <= k < |t| ==> TextLe(t[k].publishedAt, y.publishedAt)
    ensures NewestFirst([y] + t)
  {
    var r := [y] + t;
    forall i, j | 0 <= i < j < |r| ensures TextLe(r[j].publishedAt, r[i].publishedAt) {
      assert r[j] == t[j - 1];
      if i > 0 {
        assert r[i] == t[i - 1];
      }
    }
  }

  lemma {:induction false} InsertNewestFirstPermutes(x: Article, s: seq<Article>)
    ensures multiset(InsertNewestFirst(x, s)) == multiset(s) + multiset{x}
  {
    if s != [] && !TextLe(s[0].publishedAt, x.publishedAt) {
      InsertNewestFirstPermutes(x, s[1..]);
      assert s == [s[0]] + s[1..];
    }
  }

  /** Inserting a row no newer than `b` among rows no newer than `b` keeps
      every row no newer than `b`. */
  lemma {:induction false} InsertNewestFirstBounded(x: Article, s: seq<Article>, b: Stamp)
    requires TextLe(x.publishedAt, b)
    requires forall k :: 0 <= k < |s| ==> TextLe(s[k].publishedAt, b)
    ensures forall k :: 0 <= k < |s| + 1 ==> TextLe(InsertNewestFirst(x, s)[k].publishedAt, b)
  {
    if s != [] && !TextLe(s[0].publishedAt, x.publishedAt) {
      InsertNewestFirstBounded(x, s[1..], b);
      var t := InsertNewestFirst(x, s[1..]);
      assert InsertNewestFirst(x, s) == [s[0]] + t;
    }
  }

  lemma {:induction false} SortNewestFirstSpec(s: seq<Article>)
    ensures NewestFirst(SortNewestFirst(s))
    ensures multiset(SortNewestFirst(s)) == multiset(s)
  {
    if s != [] {
      SortNewestFirstSpec(s[1..]);
      InsertNewestFirstSorted(s[0], SortNewestFirst(s[1..]));
      assert s == [s[0]] + s[1..];
    }
  }

  /** `get_latest_articles` over the table `rows`. */
  function LatestArticles(rows: seq<Article>): (r: seq<Article>)
    ensures IsTop(rows, Limit, r)
  {
    var sorted := SortNewestFirst(rows);
    SortNewestFirstSpec(rows);
    TopOfSorted(sorted, Min(Limit, |rows|));
    sorted[..Min(Limit, |rows|)]
  }

  /** The first `k` rows of a newest-first permutation of the table satisfy
      `IsTop`. */
  lemma TopOfSorted(sorted: seq<Article>, k: nat)
    requires NewestFirst(sorted) && k <= |sorted|
    ensures var r := sorted[..k];
      && multiset(r) <= multiset(sorted) && NewestFirst(r)
      && forall x, y :: x in multiset(sorted) - multiset(r) && y in r ==> TextLe(x.publishedAt, y.publishedAt)
  {
    var r := sorted[..k];
    var rest := sorted[k..];
    assert multiset(sorted) - multiset(r) == multiset(rest) by {
      assert sorted == r + rest;
    }
    TailNotNewer(sorted, k);
  }

  /** In a newest-first sequence, nothing after position `k` is newer than
      anything before it. */
  lemma TailNotNewer(sorted: seq<Article>, k: nat)
    requires NewestFirst(sorted) && k <= |sorted|
    ensures forall x, y :: x in sorted[k..] && y in sorted[..k] ==> TextLe(x.publishedAt, y.publishedAt)
  {
    forall x, y | x in sorted[k..] && y in sorted[..k] ensures TextLe(x.publishedAt, y.publishedAt) {
      var i :| 0 <= i < |sorted| - k && sorted[k..][i] == x;
      var j :| 0 <= j < k && sorted[..k][j] == y;
      assert sorted[k + i] == x && sorted[j] == y;
    }
  }
}
