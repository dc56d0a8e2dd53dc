/**
 * The news collector: four RSS scrapers tried in a fixed priority order, each
 * turning the first items of its feed into article records, an aggregation
 * loop that stops once enough articles are collected, and the save step that
 * numbers the articles and projects them onto the saved columns.
 *
 * Fetching and parsing a feed is the parameter `fetch`, which gives either the
 * feed's items in document order or `Failed` (any network, HTTP or XML error);
 * the HTML-to-text stripper is the parameter `stripHtml`; the clock reading that
 * stamps `scraped_date` is the parameter `now`.
 */
module Collector {
  import opened Wrappers
  import opened Text
  import opened Seqs

  /** A child element of a feed item: absent, or present with text that may be missing. */
  datatype Element = Absent | Present(text: Option<string>)

  datatype FeedItem = FeedItem(title: Element, description: Element, link: Element, pubDate: Element, source: Element)

  /** The outcome of fetching and parsing one feed. */
  datatype Feed = Failed | Parsed(items: seq<FeedItem>)

  datatype Source = GoogleNews | Guardian | Reuters | FinancialTimes

  /** One collected article; `content` can be missing only for a Google News item (see `Normalize`). */
  datatype Scraped = Scraped(
    title: string,
    description: string,
    content: Option<string>,
    link: string,
    date: string,
    source: string,
    scrapedDate: string)

  /** The order in which the sources are tried. */
  const Priority: seq<Source> := [GoogleNews, Guardian, Reuters, FinancialTimes]

  /** Collection stops once this many articles are gathered. */
  const Threshold: nat := 30

  const DescriptionLimit: nat := 300

  /** How many leading feed items a source looks at. */
  function Cap(src: Source): nat {
    if src == GoogleNews then 20 else 15
  }

  /** The fixed `source` value of a scraper; Google News only falls back to it. */
  function SourceName(src: Source): string {
    match src
    case GoogleNews => "Google News"
    case Guardian => "The Guardian"
    case Reuters => "Reuters"
    case FinancialTimes => "Financial Times"
  }

  /** The element exists and its text is a non-empty string (Python truthiness). */
  predicate HasText(e: Element) {
    e.Present? && e.text.Some? && e.text.value != ""
  }

  function TextOr(e: Element, default: string): string {
    if HasText(e) then e.text.value else default
  }

  /** Whether a scraper turns an item into an article at all. */
  predicate Keeps(src: Source, item: FeedItem) {
    item.title.Present? && (src == Guardian ==> item.description.Present?)
  }

  /** The Guardian's description with markup removed, or "" when it has no text. */
  function CleanDescription(item: FeedItem, stripHtml: string -> string): string {
    if HasText(item.description) then stripHtml(item.description.text.value) else ""
  }

  /** The article record one scraper builds from one feed item. */
  function Normalize(src: Source, item: FeedItem, stripHtml: string -> string, now: string): (a: Scraped)
    ensures |a.description| <= DescriptionLimit
    ensures a.source != ""
  {
    var title := TextOr(item.title, "");
    var link := TextOr(item.link, "");
    var date := TextOr(item.pubDate, "");
    match src
    case Guardian =>
      var clean := CleanDescription(item, stripHtml);
      Scraped(title, Take(clean, DescriptionLimit), Some(clean), link, date, SourceName(src), now)
    case GoogleNews =>
      var content := if HasText(item.description) then Some(item.description.text.value)
                     else if item.title.Present? then item.title.text else None;
      Scraped(title, Take(TextOr(item.description, ""), DescriptionLimit), content,
              link, date, TextOr(item.source, SourceName(src)), now)
    case _ =>
      var text := TextOr(item.description, "");
      Scraped(title, Take(text, DescriptionLimit), Some(text), link, date, SourceName(src), now)
  }

  /**
   * The fields of a built record: the description is the first 300 characters
   * of the content (for Google News without description text, it is empty and
   * the content falls back to the title's text); title, link and date are empty
   * exactly when their element has no text; the source is never empty.
   * The record is the parameter `a`, bound to `Normalize(...)` by the
   * precondition, so that the solver unfolds `Normalize` once rather than at
   * every clause; any caller instantiates it with `Normalize(...)` itself.
   */
  lemma NormalizeFields(src: Source, item: FeedItem, stripHtml: string -> string, now: string, a: Scraped)
    requires a == Normalize(src, item, stripHtml, now)
    ensures |a.description| <= DescriptionLimit
    ensures a.content.Some? ==> a.description <= a.content.value
    ensures a.content.None? ==> a.description == ""
    ensures src != GoogleNews || HasText(item.description) ==>
              a.content.Some? && a.description == Take(a.content.value, DescriptionLimit)
    ensures src == GoogleNews && !HasText(item.description) ==>
              a.description == "" && a.content == (if item.title.Present? then item.title.text else None)
    ensures a.title == "" <==> !HasText(item.title)
    ensures a.link == "" <==> !HasText(item.link)
    ensures a.date == "" <==> !HasText(item.pubDate)
    ensures HasText(item.title) ==> a.title == item.title.text.value
    ensures HasText(item.link) ==> a.link == item.link.text.value
    ensures HasText(item.pubDate) ==> a.date == item.pubDate.text.value
    ensures src == Guardian ==> a.content == Some(CleanDescription(item, stripHtml))
    ensures src != Guardian && HasText(item.description) ==> a.content == Some(item.description.text.value)
    ensures (src == Reuters || src == FinancialTimes) && !HasText(item.description) ==> a.content == Some("")
    ensures src == GoogleNews && HasText(item.source) ==> a.source == item.source.text.value
    ensures src != GoogleNews ==> a.source == SourceName(src)
    ensures src == GoogleNews && !HasText(item.source) ==> a.source == SourceName(GoogleNews)
    ensures a.scrapedDate == now
  {
  }

  /** The articles a scraper's loop builds from `items`, in item order. */
  function Kept(src: Source, items: seq<FeedItem>, stripHtml: string -> string, now: string): (kept: seq<Scraped>)
    ensures |kept| <= |items|
  {
    if items == [] then []
    else
      var last := items[|items| - 1];
      Kept(src, items[..|items| - 1], stripHtml, now) +
      (if Keeps(src, last) then [Normalize(src, last, stripHtml, now)] else [])
  }

  /** Every item normalized, whether kept or not. */
  function NormalizeAll(src: Source, items: seq<FeedItem>, stripHtml: string -> string, now: string): seq<Scraped> {
    seq(|items|, i requires 0 <= i < |items| => Normalize(src, items[i], stripHtml, now))
  }

  /** What one scraper returns: nothing on failure, otherwise its kept leading items. */
  function Scrape(src: Source, feed: Feed, stripHtml: string -> string, now: string): (articles: seq<Scraped>)
    ensures |articles| <= Cap(src)
    ensures feed.Failed? ==> articles == []
  {
    match feed
    case Failed => []
    case Parsed(items) => Kept(src, Take(items, Cap(src)), stripHtml, now)
  }

  /** The kept articles are normalized items, taken in feed order. */
  lemma {:induction false} KeptInFeedOrder(src: Source, items: seq<FeedItem>, stripHtml: string -> string, now: string)
    ensures IsSubsequence(Kept(src, items, stripHtml, now), NormalizeAll(src, items, stripHtml, now))
    ensures |Kept(src, items, stripHtml, now)| <= |items|
    decreases |items|
  {
    if items != [] {
      var init, last := items[..|items| - 1], items[|items| - 1];
      var k, n := Kept(src, init, stripHtml, now), Normalize(src, last, stripHtml, now);
      KeptInFeedOrder(src, init, stripHtml, now);
      NormalizeAllStep(src, items, stripHtml, now);
      if Keeps(src, last) {
        assert Kept(src, items, stripHtml, now) == k + [n];
        SubsequenceAppendBoth(k, NormalizeAll(src, init, stripHtml, now), n);
      } else {
        assert Kept(src, items, stripHtml, now) == k;
        SubsequenceAppendRight(k, NormalizeAll(src, init, stripHtml, now), n);
      }
    }
  }

  /** The keep rule of a scraper as a selection over items. */
  function Qualifies(src: Source): FeedItem -> bool {
    item => Keeps(src, item)
  }

  /** Normalizing one more item adds its record at the end. */
  lemma NormalizeAllAppend(src: Source, items: seq<FeedItem>, item: FeedItem, stripHtml: string -> string, now: string)
    ensures NormalizeAll(src, items + [item], stripHtml, now) ==
            NormalizeAll(src, items, stripHtml, now) + [Normalize(src, item, stripHtml, now)]
  {
    var all := NormalizeAll(src, items + [item], stripHtml, now);
    assert all[..|items|] == NormalizeAll(src, items, stripHtml, now);
  }

  lemma NormalizeAllStep(src: Source, items: seq<FeedItem>, stripHtml: string -> string, now: string)
    requires items != []
    ensures NormalizeAll(src, items, stripHtml, now) ==
            NormalizeAll(src, items[..|items| - 1], stripHtml, now) + [Normalize(src, items[|items| - 1], stripHtml, now)]
  {
    assert items == items[..|items| - 1] + [items[|items| - 1]];
    NormalizeAllAppend(src, items[..|items| - 1], items[|items| - 1], stripHtml, now);
  }

  /** A scraper keeps exactly the qualifying items, in feed order, and builds one record from each. */
  lemma {:induction false} KeptIsQualifyingNormalized(src: Source, items: seq<FeedItem>, stripHtml: string -> string, now: string)
    ensures Kept(src, items, stripHtml, now) == NormalizeAll(src, Filter(Qualifies(src), items), stripHtml, now)
    decreases |items|
  {
    if items != [] {
      var init, last := items[..|items| - 1], items[|items| - 1];
      KeptIsQualifyingNormalized(src, init, stripHtml, now);
      if Keeps(src, last) {
        NormalizeAllAppend(src, Filter(Qualifies(src), init), last, stripHtml, now);
      }
    }
  }

  /** Each qualifying item adds exactly one article. */
  lemma KeptLengthStep(src: Source, items: seq<FeedItem>, stripHtml: string -> string, now: string)
    requires items != []
    ensures |Kept(src, items, stripHtml, now)| ==
            |Kept(src, items[..|items| - 1], stripHtml, now)| + (if Keeps(src, items[|items| - 1]) then 1 else 0)
  {
  }

  predicate AllQualify(src: Source, items: seq<FeedItem>) {
    forall i :: 0 <= i < |items| ==> Keeps(src, items[i])
  }

  predicate NoneQualify(src: Source, items: seq<FeedItem>) {
    forall i :: 0 <= i < |items| ==> !Keeps(src, items[i])
  }

  lemma QualifyStep(src: Source, items: seq<FeedItem>)
    requires items != []
    ensures AllQualify(src, items) <==> AllQualify(src, items[..|items| - 1]) && Keeps(src, items[|items| - 1])
    ensures NoneQualify(src, items) <==> NoneQualify(src, items[..|items| - 1]) && !Keeps(src, items[|items| - 1])
  {
    var init := items[..|items| - 1];
    assert forall i :: 0 <= i < |init| ==> init[i] == items[i];
  }

  /** Every item is kept exactly when it qualifies; no item is kept exactly when none qualifies. */
  lemma {:induction false} KeptExactlyQualifying(src: Source, items: seq<FeedItem>, stripHtml: string -> string, now: string)
    ensures |Kept(src, items, stripHtml, now)| == |items| <==> AllQualify(src, items)
    ensures Kept(src, items, stripHtml, now) == [] <==> NoneQualify(src, items)
    decreases |items|
  {
    if items != [] {
      var init := items[..|items| - 1];
      KeptLengthStep(src, items, stripHtml, now);
      KeptInFeedOrder(src, init, stripHtml, now);
      KeptExactlyQualifying(src, init, stripHtml, now);
      QualifyStep(src, items);
    }
  }

  /** A scraper yields at most its cap, drawn in order from the first items of its feed. */
  lemma ScrapeFromHeadOfFeed(src: Source, feed: Feed, stripHtml: string -> string, now: string)
    ensures |Scrape(src, feed, stripHtml, now)| <= Cap(src)
    ensures feed.Parsed? ==>
              IsSubsequence(Scrape(src, feed, stripHtml, now),
                            NormalizeAll(src, Take(feed.items, Cap(src)), stripHtml, now))
    ensures feed.Failed? ==> Scrape(src, feed, stripHtml, now) == []
  {
    if feed.Parsed? {
      KeptInFeedOrder(src, Take(feed.items, Cap(src)), stripHtml, now);
    }
  }

  /** One scraper: walk the first `Cap(src)` items and append an article for each kept one. */
  method ScrapeSource(src: Source, feed: Feed, stripHtml: string -> string, now: string)
    returns (articles: seq<Scraped>)
    ensures articles == Scrape(src, feed, stripHtml, now)
    ensures |articles| <= Cap(src)
  {
    articles := [];
    if feed.Failed? {
      return;
    }
    var batch := Take(feed.items, Cap(src));
    for i := 0 to |batch|
      invariant articles == Kept(src, batch[..i], stripHtml, now)
    {
      assert batch[..i + 1][..i] == batch[..i];
      if Keeps(src, batch[i]) {
        articles := articles + [Normalize(src, batch[i], stripHtml, now)];
      }
    }
    assert batch[..|batch|] == batch;
    ScrapeFromHeadOfFeed(src, feed, stripHtml, now);
  }

  /** What each source would contribute, in priority order. */
  function Outputs(fetch: Source -> Feed, stripHtml: string -> string, now: string): (outs: seq<seq<Scraped>>)
    ensures |outs| == |Priority|
    ensures forall i :: 0 <= i < |outs| ==> |outs[i]| <= Cap(Priority[i])
  {
    var outs := seq(|Priority|, i requires 0 <= i < |Priority| => Scrape(Priority[i], fetch(Priority[i]), stripHtml, now));
    assert forall i :: 0 <= i < |outs| ==> |outs[i]| <= Cap(Priority[i]) by {
      forall i | 0 <= i < |outs| {
        ScrapeFromHeadOfFeed(Priority[i], fetch(Priority[i]), stripHtml, now);
      }
    }
    outs
  }

  /** Output `k` is what the `k`-th source in priority order returns. */
  lemma OutputOf(fetch: Source -> Feed, stripHtml: string -> string, now: string, k: nat)
    requires k < |Priority|
    ensures Outputs(fetch, stripHtml, now)[k] == Scrape(Priority[k], fetch(Priority[k]), stripHtml, now)
  {
  }

  /**
   * Try the sources in priority order, appending each one's articles, and stop
   * after the first source that brings the total to the threshold. `tried` is
   * the number of sources queried. Since Google News yields at most 20 < 30
   * articles, at least two sources are always queried, and because every later
   * source yields at most 15, the total stays below 30 + 15.
   */
  method CollectAll(fetch: Source -> Feed, stripHtml: string -> string, now: string)
    returns (all: seq<Scraped>, tried: nat)
    ensures 2 <= tried <= |Priority|
    ensures all == Concat(Outputs(fetch, stripHtml, now)[..tried])
    ensures forall j :: 0 < j < tried ==> |Concat(Outputs(fetch, stripHtml, now)[..j])| < Threshold
    ensures tried < |Priority| ==> |all| >= Threshold
    ensures |all| < Threshold ==> tried == |Priority|
    ensures |all| < Threshold + Cap(Reuters)
  {
    ghost var outs := Outputs(fetch, stripHtml, now);
    all, tried := [], 0;
    // The stop test follows each extension; `all` starts empty, so testing it
    // in the guard stops at the same point.
    while tried < |Priority| && |all| < Threshold
      invariant tried <= |Priority|
      invariant all == Concat(outs[..tried])
      invariant forall j :: 0 < j <= tried ==> |Concat(outs[..j])| < Threshold || j == tried
    {
      var src := Priority[tried];
      var articles := ScrapeSource(src, fetch(src), stripHtml, now);
      OutputOf(fetch, stripHtml, now, tried);
      ConcatStep(outs, tried);
      all := all + articles;
      tried := tried + 1;
    }
    CollectedBounds(outs, tried);
  }

  /**
   * Where the collection loop can stop: not after Google News alone, whose cap
   * is below the threshold, and never more than one later source's cap past it.
   */
  lemma CollectedBounds(outs: seq<seq<Scraped>>, tried: nat)
    requires |outs| == |Priority|
    requires forall i :: 0 <= i < |outs| ==> |outs[i]| <= Cap(Priority[i])
    requires 0 < tried <= |outs|
    requires |Concat(outs[..tried - 1])| < Threshold
    requires tried == |outs| || |Concat(outs[..tried])| >= Threshold
    ensures tried >= 2
    ensures |Concat(outs[..tried])| < Threshold + Cap(Reuters)
  {
    ConcatStep(outs, tried - 1);
    if tried > 1 {
      assert |outs[tried - 1]| <= Cap(Reuters);
    }
  }

  /** The row `save_articles` writes: the article numbered and projected onto the saved columns, in column order. */
  datatype SavedRow = SavedRow(
    id: string,
    title: string,
    description: string,
    content: Option<string>,
    source: string,
    date: string,
    link: string,
    scrapedDate: string)

  predicate IsDigit(c: char) {
    '0' <= c <= '9'
  }

  function DigitChar(d: nat): char
    requires d < 10
  {
    ('0' as int + d) as char
  }

  function DigitValue(c: char): nat {
    if IsDigit(c) then c as int - '0' as int else 0
  }

  /** Python's `str(n)` for a natural number. */
  function Decimal(n: nat): (s: string)
    ensures |s| >= 1
    ensures forall i :: 0 <= i < |s| ==> IsDigit(s[i])
  {
    if n < 10 then [DigitChar(n)] else Decimal(n / 10) + [DigitChar(n % 10)]
  }

  /** The number a string of digits denotes; leading zeros add nothing. */
  function DigitsValue(s: string): nat {
    if s == [] then 0 else DigitsValue(s[..|s| - 1]) * 10 + DigitValue(s[|s| - 1])
  }

  /** Python's `s.zfill(width)` on a string of digits. */
  function ZeroFill(s: string, width: nat): (r: string)
    ensures |r| == if |s| < width then width else |s|
    ensures forall i :: 0 <= i < |r| - |s| ==> r[i] == '0'
    ensures r[|r| - |s|..] == s
  {
    if |s| < width then seq(width - |s|, _ => '0') + s else s
  }

  /** The id of row `i`: "R" followed by `i + 1` padded with zeros to three digits. */
  function IdFor(i: nat): (id: string)
    ensures |id| >= 4 && id[0] == 'R'
    ensures forall k :: 1 <= k < |id| ==> IsDigit(id[k])
  {
    "R" + ZeroFill(Decimal(i + 1), 3)
  }

  /** The number an id carries after its letter. */
  function IdNumber(id: string): nat
    requires |id| >= 1
  {
    DigitsValue(id[1..])
  }

  lemma {:induction false} DecimalValue(n: nat)
    ensures DigitsValue(Decimal(n)) == n
  {
    if n >= 10 {
      var d := Decimal(n / 10);
      DecimalValue(n / 10);
      assert (d + [DigitChar(n % 10)])[..|d|] == d;
    }
  }

  lemma {:induction false} LeadingZerosValue(z: string, s: string)
    requires forall i :: 0 <= i < |z| ==> z[i] == '0'
    ensures DigitsValue(z + s) == DigitsValue(s)
    decreases |s|, |z|
  {
    if s == [] {
      assert z + s == z;
      if z != [] {
        LeadingZerosValue(z[..|z| - 1], []);
        assert z[..|z| - 1] + [] == z[..|z| - 1];
      }
    } else {
      LeadingZerosValue(z, s[..|s| - 1]);
      assert (z + s)[..|z + s| - 1] == z + s[..|s| - 1];
    }
  }

  /** The id of row `i` carries the number `i + 1`. */
  lemma IdNumbered(i: nat)
    ensures IdNumber(IdFor(i)) == i + 1
  {
    var d := Decimal(i + 1);
    var padded := ZeroFill(d, 3);
    assert IdFor(i)[1..] == padded;
    assert padded == padded[..|padded| - |d|] + d;
    LeadingZerosValue(padded[..|padded| - |d|], d);
    DecimalValue(i + 1);
  }

  /** `save_articles`: nothing for an empty list, otherwise one row per article, numbered in order. */
  function Save(articles: seq<Scraped>): (saved: Option<seq<SavedRow>>)
    ensures saved.None? <==> articles == []
    ensures saved.Some? ==> |saved.value| == |articles|
    ensures saved.Some? ==> forall i :: 0 <= i < |articles| ==>
              var row, a := saved.value[i], articles[i];
              row.id == IdFor(i) && |row.id| >= 4 && IdNumber(row.id) == i + 1 &&
              row.title == a.title && row.description == a.description && row.content == a.content &&
              row.source == a.source && row.date == a.date && row.link == a.link &&
              row.scrapedDate == a.scrapedDate
  {
    if articles == [] then None
    else
      assert forall i :: 0 <= i < |articles| ==> IdNumber(IdFor(i)) == i + 1 by {
        forall i | 0 <= i < |articles| { IdNumbered(i); }
      }
      Some(seq(|articles|, i requires 0 <= i < |articles| =>
        var a := articles[i];
        SavedRow(IdFor(i), a.title, a.description, a.content, a.source, a.date, a.link, a.scrapedDate)))
  }

  lemma {:induction false} DecimalWidth(n: nat)
    requires n < 1000
    ensures |Decimal(n)| <= 3
  {
    if n >= 10 {
      DecimalWidth(n / 10);
      if n / 10 >= 10 {
        assert |Decimal(n / 10)| == |Decimal(n / 100)| + 1;
      }
    }
  }

  /** The first 999 ids are "R" and exactly three digits. */
  lemma IdWidth(i: nat)
    requires i < 999
    ensures |IdFor(i)| == 4
  {
    DecimalWidth(i + 1);
  }

  lemma IdExamples()
    ensures IdFor(0) == "R001"
    ensures IdFor(41) == "R042"
    ensures IdFor(999) == "R1000"
  {
    assert Decimal(42) == Decimal(4) + [DigitChar(2)];
    assert Decimal(1000) == Decimal(100) + ['0'];
    assert Decimal(100) == Decimal(10) + ['0'];
    assert Decimal(10) == Decimal(1) + ['0'];
  }

  /** Saved ids are pairwise distinct and increase with the row index. */
  lemma SavedIdsIncrease(articles: seq<Scraped>)
    requires articles != []
    ensures forall i, j :: 0 <= i < j < |articles| ==>
              Save(articles).value[i].id != Save(articles).value[j].id &&
              IdNumber(Save(articles).value[i].id) < IdNumber(Save(articles).value[j].id)
  {
  }
}
