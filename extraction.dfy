/** The two scrapers' per-item loops (`scrape_skift`, `get_phocuswire_articles`):
    each walks the items the HTML parser selected, skips the malformed ones,
    normalises the rest into an `Article` and appends it. HTTP and HTML parsing
    are outside the model: a page arrives as a `Page` of items whose optional
    fields stand for what the selectors found. */
module Extraction {
  import opened Articles
  import opened Text

  // ---------- Keeping the well-formed items, in order ----------

  /** The articles of the items that `f` accepts, in item order; this is what a
      loop that appends `f(item)` unless it is `None` builds. */
  function FilterMap<T, U>(xs: seq<T>, f: T -> Option<U>): (r: seq<U>)
    ensures |r| <= |xs|
  {
    if xs == [] then []
    else
      var prev := FilterMap(xs[..|xs| - 1], f);
      match f(xs[|xs| - 1])
      case None => prev
      case Some(u) => prev + [u]
  }

  lemma {:induction false} FilterMapAppend<T, U>(xs: seq<T>, ys: seq<T>, f: T -> Option<U>)
    ensures FilterMap(xs + ys, f) == FilterMap(xs, f) + FilterMap(ys, f)
    decreases |ys|
  {
    if ys == [] {
      assert xs + ys == xs;
    } else {
      var n := |ys| - 1;
      assert (xs + ys)[..|xs + ys| - 1] == xs + ys[..n];
      assert (xs + ys)[|xs + ys| - 1] == ys[n];
      FilterMapAppend(xs, ys[..n], f);
    }
  }

  /** The output built from a prefix of the items is a prefix of the output. */
  lemma {:induction false} FilterMapPrefix<T, U>(xs: seq<T>, i: nat, f: T -> Option<U>)
    requires i <= |xs|
    ensures FilterMap(xs[..i], f) <= FilterMap(xs, f)
  {
    assert xs == xs[..i] + xs[i..];
    FilterMapAppend(xs[..i], xs[i..], f);
  }

  /** Two normalisations that keep the same items and give them the same urls
      yield records with the same urls, position by position. */
  lemma {:induction false} FilterMapSameUrls<T>(xs: seq<T>, f: T -> Option<Article>, g: T -> Option<Article>)
    requires forall x :: f(x).Some? <==> g(x).Some?
    requires forall x :: f(x).Some? && g(x).Some? ==> f(x).value.url == g(x).value.url
    ensures |FilterMap(xs, f)| == |FilterMap(xs, g)|
    ensures forall k :: 0 <= k < |FilterMap(xs, f)| ==> FilterMap(xs, f)[k].url == FilterMap(xs, g)[k].url
    decreases |xs|
  {
    if xs != [] {
      FilterMapSameUrls(xs[..|xs| - 1], f, g);
    }
  }

  /** Position at which item `i` lands if it is kept: the number of kept items
      before it. */
  function Position<T, U>(xs: seq<T>, i: nat, f: T -> Option<U>): nat
    requires i <= |xs|
  {
    |FilterMap(xs[..i], f)|
  }

  /** A kept item appears in the output, at its position. */
  lemma {:induction false} FilterMapAt<T, U>(xs: seq<T>, i: nat, f: T -> Option<U>)
    requires i < |xs| && f(xs[i]).Some?
    ensures Position(xs, i, f) < |FilterMap(xs, f)|
    ensures FilterMap(xs, f)[Position(xs, i, f)] == f(xs[i]).value
  {
    FilterMapPrefix(xs, i + 1, f);
    assert xs[..i + 1][..i] == xs[..i];
  }

  /** Kept items keep their relative order. */
  lemma {:induction false} FilterMapKeepsOrder<T, U>(xs: seq<T>, i: nat, j: nat, f: T -> Option<U>)
    requires i < j < |xs| && f(xs[i]).Some?
    ensures Position(xs, i, f) < Position(xs, j, f)
  {
    FilterMapPrefix(xs[..j], i + 1, f);
    assert xs[..j][..i + 1] == xs[..i + 1];
    assert xs[..i + 1][..i] == xs[..i];
  }

  /** Every output element comes from an item that `f` accepts, at that item's
      position. */
  lemma {:induction false} FilterMapOrigin<T, U>(xs: seq<T>, k: nat, f: T -> Option<U>)
    requires k < |FilterMap(xs, f)|
    ensures exists i :: 0 <= i < |xs| && f(xs[i]) == Some(FilterMap(xs, f)[k]) && Position(xs, i, f) == k
  {
    var n := |xs| - 1;
    var prev := FilterMap(xs[..n], f);
    if k < |prev| {
      FilterMapOrigin(xs[..n], k, f);
      var i :| 0 <= i < n && f(xs[..n][i]) == Some(prev[k]) && Position(xs[..n], i, f) == k;
      assert xs[..n][..i] == xs[..i];
      assert xs[..n][i] == xs[i];
      assert FilterMap(xs, f)[k] == prev[k];
    } else {
      assert f(xs[n]) == Some(FilterMap(xs, f)[k]) && Position(xs, n, f) == k;
    }
  }

  /** An item that `f` rejects contributes nothing: the output is the same
      as if the item were not on the page. */
  lemma {:induction false} FilterMapSkips<T, U>(xs: seq<T>, i: nat, f: T -> Option<U>)
    requires i < |xs| && f(xs[i]).None?
    ensures FilterMap(xs[..i] + xs[i + 1..], f) == FilterMap(xs, f)
  {
    assert xs == xs[..i] + ([xs[i]] + xs[i + 1..]);
    FilterMapAppend(xs[..i], [xs[i]] + xs[i + 1..], f);
    FilterMapAppend([xs[i]], xs[i + 1..], f);
    assert FilterMap([xs[i]], f) == [] by {
      assert [xs[i]][..0] == [];
    }
    FilterMapAppend(xs[..i], xs[i + 1..], f);
  }

  // ---------- Skift ----------

  /** The first `<time>` tag of a block; `datetime` is its attribute, if any. */
  datatype TimeTag = TimeTag(datetime: Option<string>)

  /** One `<article>` block of the Skift homepage: the `href` of its first `<a>`
      that has one, the stripped text of its first `<h2>`/`<h3>`, and its first
      `<time>` tag. */
  datatype SkiftBlock = SkiftBlock(link: Option<string>, heading: Option<string>, time: Option<TimeTag>)

  /** The `datetime` attribute with `Z` replaced by `+00:00`, as handed to
      `datetime.fromisoformat`, when the block has one. */
  function IsoText(time: Option<TimeTag>): (r: Option<string>)
    ensures r.Some? <==> time.Some? && time.value.datetime.Some?
    ensures r.Some? ==> 'Z' !in r.value
  {
    match time
    case Some(TimeTag(Some(dt))) => Some(ReplaceChar(dt, 'Z', "+00:00"))
    case _ => None
  }

  /** `published_at` of a Skift block. `parseIso` is `datetime.fromisoformat`
      followed by `strftime('%Y-%m-%d %H:%M:%S')` (None where it raises);
      `nowUtc` is the formatted `datetime.now(timezone.utc)`. */
  function SkiftPublishedAt(time: Option<TimeTag>, parseIso: string -> Option<Stamp>, nowUtc: Stamp): (r: Stamp)
    ensures r == nowUtc || (IsoText(time).Some? && parseIso(IsoText(time).value) == Some(r))
    ensures IsoText(time).None? || parseIso(IsoText(time).value).None? ==> r == nowUtc
    ensures IsoText(time).Some? && parseIso(IsoText(time).value).Some? ==> r == parseIso(IsoText(time).value).value
  {
    match IsoText(time)
    case None => nowUtc
    case Some(iso) => (match parseIso(iso) case Some(t) => t case None => nowUtc)
  }

  /** The record a Skift block yields, or None when it is skipped. */
  function SkiftItem(b: SkiftBlock, parseIso: string -> Option<Stamp>, nowUtc: Stamp): (r: Option<Article>)
    ensures r.Some? <==> b.link.Some? && b.heading.Some?
    ensures r.Some? ==> r.value.url == b.link.value && r.value.title == b.heading.value && r.value.source == Skift
  {
    if b.link.None? || b.heading.None? then None
    else Some(Article(b.link.value, b.heading.value, SkiftPublishedAt(b.time, parseIso, nowUtc), Skift))
  }

  function SkiftItemOf(parseIso: string -> Option<Stamp>, nowUtc: Stamp): SkiftBlock -> Option<Article>
  {
    b => SkiftItem(b, parseIso, nowUtc)
  }

  /** What `scrape_skift` returns: nothing when the fetch failed. */
  function SkiftArticles(page: Page<SkiftBlock>, parseIso: string -> Option<Stamp>, nowUtc: Stamp): (r: seq<Article>)
    ensures page.FetchFailed? ==> r == []
    ensures page.Fetched? ==> |r| <= |page.items|
  {
    match page
    case FetchFailed => []
    case Fetched(blocks) => FilterMap(blocks, SkiftItemOf(parseIso, nowUtc))
  }

  /** The loop of `scrape_skift`. */
  method ScrapeSkift(page: Page<SkiftBlock>, parseIso: string -> Option<Stamp>, nowUtc: Stamp)
    returns (articles: seq<Article>)
    ensures articles == SkiftArticles(page, parseIso, nowUtc)
    ensures page.FetchFailed? ==> articles == []
    ensures page.Fetched? ==> |articles| <= |page.items|
  {
    articles := [];
    if page.Fetched? {
      var blocks := page.items;
      var i := 0;
      while i < |blocks|
        invariant 0 <= i <= |blocks|
        invariant articles == FilterMap(blocks[..i], SkiftItemOf(parseIso, nowUtc))
      {
        var item := blocks[i];
        if item.link.Some? && item.heading.Some? {
          var publishedAt := nowUtc;
          if item.time.Some? && item.time.value.datetime.Some? {
            var parsed := parseIso(ReplaceChar(item.time.value.datetime.value, 'Z', "+00:00"));
            if parsed.Some? {
              publishedAt := parsed.value;
            }
          }
          assert publishedAt == SkiftPublishedAt(item.time, parseIso, nowUtc);
          articles := articles + [Article(item.link.value, item.heading.value, publishedAt, Skift)];
        }
        assert SkiftItemOf(parseIso, nowUtc)(item) == SkiftItem(item, parseIso, nowUtc);
        assert blocks[..i + 1][..i] == blocks[..i];
        i := i + 1;
      }
      assert blocks[..i] == blocks;
    }
  }

  /** A Skift block with a link and a heading yields, at its position, the
      record made of them, stamped with its parsed `datetime`, or with the
      current time when the tag or attribute is missing or does not parse. */
  lemma SkiftArticleAt(blocks: seq<SkiftBlock>, i: nat, parseIso: string -> Option<Stamp>, nowUtc: Stamp)
    requires i < |blocks| && blocks[i].link.Some? && blocks[i].heading.Some?
    ensures var out := SkiftArticles(Fetched(blocks), parseIso, nowUtc);
            var p := Position(blocks, i, SkiftItemOf(parseIso, nowUtc));
      && p < |out|
      && out[p].url == blocks[i].link.value
      && out[p].title == blocks[i].heading.value
      && out[p].source == Skift
      && (IsoText(blocks[i].time).None? ==> out[p].publishedAt == nowUtc)
      && (IsoText(blocks[i].time).Some? && parseIso(IsoText(blocks[i].time).value).None? ==> out[p].publishedAt == nowUtc)
      && (IsoText(blocks[i].time).Some? && parseIso(IsoText(blocks[i].time).value).Some? ==>
            out[p].publishedAt == parseIso(IsoText(blocks[i].time).value).value)
  {
    FilterMapAt(blocks, i, SkiftItemOf(parseIso, nowUtc));
  }

  /** Every Skift record comes from a block that has both a link and a heading,
      and carries them as its url and title. */
  lemma SkiftArticlesFromWellFormedBlocks(blocks: seq<SkiftBlock>, parseIso: string -> Option<Stamp>, nowUtc: Stamp)
    ensures forall a :: a in SkiftArticles(Fetched(blocks), parseIso, nowUtc) ==>
      a.source == Skift &&
      exists i :: 0 <= i < |blocks| && blocks[i].link == Some(a.url) && blocks[i].heading == Some(a.title)
  {
    var f := SkiftItemOf(parseIso, nowUtc);
    var out := FilterMap(blocks, f);
    forall a | a in out
      ensures a.source == Skift
      ensures exists i :: 0 <= i < |blocks| && blocks[i].link == Some(a.url) && blocks[i].heading == Some(a.title)
    {
      var k :| 0 <= k < |out| && out[k] == a;
      FilterMapOrigin(blocks, k, f);
    }
  }

  /** A block without a link or without a heading contributes nothing:
      removing it leaves the result unchanged. */
  lemma MalformedSkiftBlockSkipped(blocks: seq<SkiftBlock>, i: nat, parseIso: string -> Option<Stamp>, nowUtc: Stamp)
    requires i < |blocks| && (blocks[i].link.None? || blocks[i].heading.None?)
    ensures SkiftArticles(Fetched(blocks[..i] + blocks[i + 1..]), parseIso, nowUtc)
         == SkiftArticles(Fetched(blocks), parseIso, nowUtc)
  {
    FilterMapSkips(blocks, i, SkiftItemOf(parseIso, nowUtc));
  }

  // ---------- PhocusWire ----------

  const PhocusWireBase: string := "https://www.phocuswire.com"

  /** The `a.title` anchor of a listing item: its `href` attribute, if any, and
      its text. */
  datatype TitleLink = TitleLink(href: Option<string>, text: string)

  /** One `.list-view .item` of the PhocusWire Latest News page: its `a.title`
      anchor and the text of its `.author` element, when present. */
  datatype PhocusItem = PhocusItem(titleLink: Option<TitleLink>, author: Option<string>)

  /** The date text handed to `strptime`: the stripped last `|`-separated piece
      of the `.author` text (`LastPieceOfSplit`), or "Unknown" when there is no
      `.author`. */
  function RawDate(author: Option<string>): (r: string)
    ensures author.None? ==> r == "Unknown"
    ensures author.Some? ==> |r| <= |author.value|
  {
    match author
    case None => "Unknown"
    case Some(text) =>
      Strip(LastPiece(text, '|'))
  }

  /** `parseDate` is `datetime.strptime(_, "%B %d, %Y")` followed by `strftime`
      (None where it raises ValueError); `nowLocal` is the formatted naive
      `datetime.now()`. */
  function PhocusPublishedAt(author: Option<string>, parseDate: string -> Option<Stamp>, nowLocal: Stamp): (r: Stamp)
    ensures r == nowLocal || parseDate(RawDate(author)) == Some(r)
    ensures parseDate(RawDate(author)).None? ==> r == nowLocal
    ensures parseDate(RawDate(author)).Some? ==> r == parseDate(RawDate(author)).value
  {
    match parseDate(RawDate(author))
    case Some(t) => t
    case None => nowLocal
  }

  /** The record a PhocusWire item yields, or None when building it raises:
      no `a.title` (attribute access on None) or no `href` (str + None). */
  function PhocusItemArticle(item: PhocusItem, parseDate: string -> Option<Stamp>, nowLocal: Stamp): (r: Option<Article>)
    ensures r.Some? <==> item.titleLink.Some? && item.titleLink.value.href.Some?
    ensures r.Some? ==> r.value.url == PhocusWireBase + item.titleLink.value.href.value && r.value.source == PhocusWire
  {
    match item.titleLink
    case None => None
    case Some(anchor) =>
      match anchor.href
      case None => None
      case Some(href) =>
        Some(Article(PhocusWireBase + href, Strip(anchor.text),
                     PhocusPublishedAt(item.author, parseDate, nowLocal), PhocusWire))
  }

  function PhocusItemOf(parseDate: string -> Option<Stamp>, nowLocal: Stamp): PhocusItem -> Option<Article>
  {
    item => PhocusItemArticle(item, parseDate, nowLocal)
  }

  /** What `get_phocuswire_articles` returns: nothing when the fetch failed. */
  function PhocusWireArticles(page: Page<PhocusItem>, parseDate: string -> Option<Stamp>, nowLocal: Stamp): (r: seq<Article>)
    ensures page.FetchFailed? ==> r == []
    ensures page.Fetched? ==> |r| <= |page.items|
  {
    match page
    case FetchFailed => []
    case Fetched(items) => FilterMap(items, PhocusItemOf(parseDate, nowLocal))
  }

  /** The loop of `get_phocuswire_articles`. */
  method GetPhocusWireArticles(page: Page<PhocusItem>, parseDate: string -> Option<Stamp>, nowLocal: Stamp)
    returns (articles: seq<Article>)
    ensures articles == PhocusWireArticles(page, parseDate, nowLocal)
    ensures page.FetchFailed? ==> articles == []
    ensures page.Fetched? ==> |articles| <= |page.items|
  {
    articles := [];
    if page.Fetched? {
      var items := page.items;
      var i := 0;
      while i < |items|
        invariant 0 <= i <= |items|
        invariant articles == FilterMap(items[..i], PhocusItemOf(parseDate, nowLocal))
      {
        var item := items[i];
        if item.titleLink.Some? && item.titleLink.value.href.Some? {
          var link := PhocusWireBase + item.titleLink.value.href.value;
          var title := Strip(item.titleLink.value.text);
          var rawDate := "Unknown";
          if item.author.Some? {
            rawDate := Strip(LastPiece(item.author.value, '|'));
          }
          var publishedAt := nowLocal;
          var parsed := parseDate(rawDate);
          if parsed.Some? {
            publishedAt := parsed.value;
          }
          assert rawDate == RawDate(item.author);
          assert PhocusItemArticle(item, parseDate, nowLocal) == Some(Article(link, title, publishedAt, PhocusWire));
          articles := articles + [Article(link, title, publishedAt, PhocusWire)];
        }
        assert PhocusItemOf(parseDate, nowLocal)(item) == PhocusItemArticle(item, parseDate, nowLocal);
        assert items[..i + 1][..i] == items[..i];
        i := i + 1;
      }
      assert items[..i] == items;
    }
  }

  /** Every PhocusWire record's url is the site base followed by the href of an
      item that has an `a.title` anchor with an `href`. */
  lemma PhocusWireUrlsAreAbsolute(items: seq<PhocusItem>, parseDate: string -> Option<Stamp>, nowLocal: Stamp)
    ensures forall a :: a in PhocusWireArticles(Fetched(items), parseDate, nowLocal) ==>
      && a.source == PhocusWire
      && |PhocusWireBase| <= |a.url| && a.url[..|PhocusWireBase|] == PhocusWireBase
      && exists i :: 0 <= i < |items| && items[i].titleLink.Some?
                     && items[i].titleLink.value.href == Some(a.url[|PhocusWireBase|..])
  {
    var f := PhocusItemOf(parseDate, nowLocal);
    var out := FilterMap(items, f);
    forall a | a in out
      ensures a.source == PhocusWire
      ensures |PhocusWireBase| <= |a.url| && a.url[..|PhocusWireBase|] == PhocusWireBase
      ensures exists i :: 0 <= i < |items| && items[i].titleLink.Some?
                          && items[i].titleLink.value.href == Some(a.url[|PhocusWireBase|..])
    {
      var k :| 0 <= k < |out| && out[k] == a;
      FilterMapOrigin(items, k, f);
      var i :| 0 <= i < |items| && f(items[i]) == Some(out[k]) && Position(items, i, f) == k;
      var href := items[i].titleLink.value.href.value;
      assert a.url == PhocusWireBase + href;
      assert a.url[|PhocusWireBase|..] == href;
    }
  }

  /** The date text of an item with an `.author` element is
      `text.split('|')[-1].strip()`. */
  lemma RawDateIsSplitLast(text: string)
    ensures var parts := Split(text, '|'); RawDate(Some(text)) == Strip(parts[|parts| - 1])
  {
    LastPieceOfSplit(text, '|');
  }

  /** That date text is a piece of the text after its last `|` (all of it
      when there is none), with only whitespace around it in that part, and
      neither starting nor ending with whitespace. */
  lemma RawDateIsLastPiece(text: string)
    ensures var d := RawDate(Some(text));
      && '|' !in d
      && (d == [] || (!IsSpace(d[0]) && !IsSpace(d[|d| - 1])))
      && StrippedAfterLast(text, '|', d)
  {
    StrippedLastPiece(text, '|');
    StrippedLastPieceIsAfterLast(text, '|');
  }

  /** A PhocusWire item with an anchor and an href yields, at its position, the
      base-prefixed url, the stripped anchor text, and the parsed date, or the
      current local time when there is no `.author` or its date does not
      parse. `RejectsUnknown` is the fact that "Unknown" never matches
      "%B %d, %Y". */
  lemma PhocusWireArticleAt(items: seq<PhocusItem>, i: nat, parseDate: string -> Option<Stamp>, nowLocal: Stamp)
    requires i < |items| && items[i].titleLink.Some? && items[i].titleLink.value.href.Some?
    requires RejectsUnknown(parseDate)
    ensures var out := PhocusWireArticles(Fetched(items), parseDate, nowLocal);
            var p := Position(items, i, PhocusItemOf(parseDate, nowLocal));
            var anchor := items[i].titleLink.value;
      && p < |out|
      && out[p].url == PhocusWireBase + anchor.href.value
      && out[p].title == Strip(anchor.text)
      && out[p].source == PhocusWire
      && (items[i].author.None? ==> out[p].publishedAt == nowLocal)
      && (items[i].author.Some? && parseDate(RawDate(items[i].author)).None? ==> out[p].publishedAt == nowLocal)
      && (items[i].author.Some? && parseDate(RawDate(items[i].author)).Some? ==>
            out[p].publishedAt == parseDate(RawDate(items[i].author)).value)
  {
    FilterMapAt(items, i, PhocusItemOf(parseDate, nowLocal));
  }

  /** An item without an `a.title` anchor, or whose anchor has no `href`,
      raises inside the loop and is skipped: removing it leaves the result
      unchanged. */
  lemma MalformedPhocusItemSkipped(items: seq<PhocusItem>, i: nat, parseDate: string -> Option<Stamp>, nowLocal: Stamp)
    requires i < |items| && (items[i].titleLink.None? || items[i].titleLink.value.href.None?)
    ensures PhocusWireArticles(Fetched(items[..i] + items[i + 1..]), parseDate, nowLocal)
         == PhocusWireArticles(Fetched(items), parseDate, nowLocal)
  {
    FilterMapSkips(items, i, PhocusItemOf(parseDate, nowLocal));
  }

  predicate RejectsUnknown(parseDate: string -> Option<Stamp>)
  {
    parseDate("Unknown").None?
  }
}
