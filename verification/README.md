# Economic news LLM analyzer — a Dafny model

The analyzer is a three-stage pipeline over economic news articles.

1. **Collection.** Four RSS scrapers run in a fixed priority order: Google News, The Guardian, Reuters and the Financial Times. Each scraper looks at the first 20 items of its feed (Google News) or the first 15 (the others) and turns every qualifying item into an article record. Google News needs only a title; The Guardian needs a title and a description; the other two need only a title. A description is cut to 300 characters. Any failure of a feed gives that source no articles. Collection stops after the first source that brings the total to 30 articles. The articles are then numbered `R001`, `R002`, … and saved with a fixed column order. An empty collection is not saved.
2. **Categorization.** Each saved article is sent to a language model with its title and its description, or its title again when the description is missing. A successful reply is stripped and lower-cased. If the result is one of ten labels it is kept; otherwise it becomes `general_economics`. A failed call gives the sentinel `error`. The labels become the `llm_category` column. Before any request is made, the entered API key must start with `sk-` once surrounding whitespace is stripped.
3. **Viewing.** The viewer filters the table by two multi-selects, one for categories and one for sources. Each offers the sorted distinct values of its column and selects all of them by default. It shows three counters: articles, distinct categories and distinct sources. It also shows the per-category counts and the ten largest per-source counts, both largest first. Finally it lists the articles whose title or description contains a search term, ignoring case.

The modules follow the three scripts:

- `collector.dfy`: `scripts/scrape_real_news.py`. Scrapers are functions over a parsed feed. The scraper loop and the collection loop are methods proved against those functions.
- `categorizer.dfy`: `scripts/categorize_real_articles.py`. Reply normalisation is a function. The per-row loop is a method proved against `RowCategories`.
- `dashboard.dfy`: `dashboard.py`. Filter, options, counters, value counts and search are functions over the table.
- `dataset.dfy` holds the saved table as the later stages read it back: text cells may be missing.
- `text.dfy`, `seqs.dfy` and `wrappers.dfy` hold the helpers: stripping, lower-casing, substring search, filter, subsequence and distinct-in-order.

Things outside the program become parameters:

- **`fetch`** fetches and parses a feed. It gives the feed's items, or `Failed` for any network, HTTP or XML error.
- **`stripHtml`** is the HTML stripper used for Guardian descriptions.
- **`now`** is the timestamp written into `scraped_date`.
- **`oracle`** stands for the language model. It answers a (title, description) pair with a reply text or `CallFailed`.

## Model

| member | source | states |
|---|---|---|
| Collector.Normalize | scripts/scrape_real_news.py:44-179 | The record built from one item has a description of at most 300 characters and a non-empty source. |
| Collector.NormalizeFields | scripts/scrape_real_news.py:44-179 | Title, link and date are the element's text when it has some, and empty exactly when it has none. Content: for The Guardian, the HTML-stripped description text, or "" when there is none. For the others, the description text when there is some. Without it, Reuters and the Financial Times store "" and Google falls back to the title's text. The description is the 300-character cut of the content, except for that Google fallback, where it is empty. Source: fixed per outlet; Google takes the item's own source text, or else "Google News". `scraped_date` is the given timestamp. |
| Collector.Kept | scripts/scrape_real_news.py:13-188 | A scraper builds at most one article per item it looks at. |
| Collector.KeptIsQualifyingNormalized | scripts/scrape_real_news.py:13-188 | The articles are exactly the qualifying items, in feed order, each normalised. Qualifying means a title element, plus a description element for The Guardian. |
| Collector.Scrape | scripts/scrape_real_news.py:13-188 | A scraper returns at most its cap, and nothing when its feed fails. |
| Collector.KeptInFeedOrder | scripts/scrape_real_news.py:13-188 | The articles a scraper builds are a subsequence, in feed order, of the normalised items. There are never more of them than items. |
| Collector.KeptExactlyQualifying | scripts/scrape_real_news.py:13-188 | Every item yields an article iff every item qualifies. No article results iff no item qualifies. |
| Collector.ScrapeFromHeadOfFeed | scripts/scrape_real_news.py:13-188 | A scraper yields at most its cap (20 for Google, 15 otherwise). Its articles are drawn in order from the first cap items. A failed feed yields nothing. |
| Collector.ScrapeSource | scripts/scrape_real_news.py:13-188 | The scraper loop builds exactly `Scrape` of its feed, so at most the source's cap. |
| Collector.Outputs | scripts/scrape_real_news.py:202-207 | There is one output per source, in priority order, each within its source's cap. |
| Collector.CollectAll | scripts/scrape_real_news.py:209-216 | The result is the concatenation of the first `tried` outputs. No earlier prefix reached 30. Stopping early means at least 30 were collected; fewer than 30 means all four were tried. At least two sources are always tried, since Google alone caps at 20. The total stays below 45. |
| Collector.CollectedBounds | scripts/scrape_real_news.py:202-216 | Wherever the loop stops, it has tried at least two sources and collected fewer than 45 articles, given the per-source caps. |
| Collector.IdFor | scripts/scrape_real_news.py:243 | An id is `R` followed by at least three digits. |
| Collector.IdNumbered | scripts/scrape_real_news.py:243 | The id of row `i` reads back as the number `i + 1`. |
| Collector.IdWidth | scripts/scrape_real_news.py:243 | The first 999 ids are `R` and three digits. |
| Collector.IdExamples | scripts/scrape_real_news.py:243 | Row 0 gets `R001` and row 41 gets `R042`. Row 999 gets `R1000`, because zero-filling never truncates. |
| Collector.Save | scripts/scrape_real_news.py:236-244 | Nothing is saved iff there are no articles. Otherwise there is one row per article, in order. Row `i`'s id is `IdFor(i)`, so it reads back as `i + 1`. Its other columns are the article's. |
| Categorizer.CategorySet | scripts/categorize_real_articles.py:11-22 | There are ten labels. The catch-all `general_economics` is one of them and the sentinel `error` is not. Every label is lower-case letters and underscores. |
| Categorizer.CategoriesDistinct | scripts/categorize_real_articles.py:11-22 | No label is listed twice. |
| Categorizer.NormalizeReply | scripts/categorize_real_articles.py:64-69 | The result is always one of the ten labels. Any label other than the catch-all is the stripped, lower-cased reply. |
| Categorizer.RecognisesPaddedLabel | scripts/categorize_real_articles.py:64-67 | A reply spelling a label in any letter case, with any surrounding whitespace, maps to that label. |
| Categorizer.NormalizeKeepsLabels | scripts/categorize_real_articles.py:11-22 | Normalising a label gives it back, so normalisation is idempotent on its results. |
| Categorizer.UnknownReplyFallsBack | scripts/categorize_real_articles.py:68-69 | The reply "foobar" becomes `general_economics`. |
| Categorizer.PaddedUnknownReplyFallsBack | scripts/categorize_real_articles.py:64-69 | The reply " Foobar\n" becomes `general_economics`. |
| Categorizer.CategorizeArticle | scripts/categorize_real_articles.py:28-73 | The result is a label from the set or `error`. It is `error` iff the call failed, and `error` is not a label. |
| Categorizer.PromptDescription | scripts/categorize_real_articles.py:102 | The description sent is the row's own when present, otherwise its title. It is missing only when both are. |
| Categorizer.RowCategories | scripts/categorize_real_articles.py:97-105 | There is one label per row (see `RowCategoriesAt` for which label). |
| Categorizer.RowCategoriesAt | scripts/categorize_real_articles.py:99-105 | Row `i`'s label is the model's answer for row `i`'s title together with its description, or its title when the description is missing. |
| Categorizer.CategorizeAll | scripts/categorize_real_articles.py:97-112 | The table keeps every row and column. Row `i` gets row `i`'s label as `llm_category`. This is the corrected form of the loop (see Findings). |
| Categorizer.CategorizeAllAsWritten | scripts/categorize_real_articles.py:99-107 | The run produces no labels iff some row's title is missing (not `AllTitled`). Otherwise the result is as for `CategorizeAll`. |
| Categorizer.KeyAccepted | scripts/categorize_real_articles.py:137-141 | A key is accepted iff `sk-` follows its leading whitespace. Trailing whitespace never matters. |
| Categorizer.PaddedKey | scripts/categorize_real_articles.py:137-141 | A key with any whitespace around it is accepted iff the key itself starts with `sk-`. |
| Categorizer.KeyExamples | scripts/categorize_real_articles.py:137-141 | " sk-abc\n" is accepted. "SK-abc" is rejected. |
| Dashboard.Selected | dashboard.py:72-75 | A row passes the filter iff its category is among the selected categories and its source among the selected sources. |
| Dashboard.FilterArticles | dashboard.py:72-75 | The filtered table keeps the table's order. A row is kept, with all its copies, iff its category and its source are both selected. |
| Dashboard.Options | dashboard.py:59-69 | The options are sorted, without repeats, and are exactly the column's values. |
| Dashboard.DefaultSelectionShowsAll | dashboard.py:59-75 | With the default selections the filtered table is the whole table. |
| Dashboard.EmptySelectionShowsNothing | dashboard.py:72-75 | Clearing either selection empties the table. |
| Dashboard.DistinctCount | dashboard.py:84-87 | The number of distinct values is at most the number of rows, and zero iff the column is empty. |
| Dashboard.Summary | dashboard.py:80-87 | The article counter is the row count. Both distinct counters are bounded by it and are zero iff it is. |
| Dashboard.Tally | dashboard.py:100 | Values appear in first-seen order, each once, each with its number of occurrences. The counts sum to the row count. |
| Dashboard.SortByCountStable | dashboard.py:100 | Sorting by count keeps entries of equal count in their first-seen order. |
| Dashboard.SortByCountOrdered | dashboard.py:100 | Sorting by count gives non-increasing counts and keeps values unique. |
| Dashboard.ValueCounts | dashboard.py:100 | Each value of the column appears once, with its exact, positive count, and nothing else appears. Counts are non-increasing and sum to the row count. Ties follow first-seen order. |
| Dashboard.CategoryCounts | dashboard.py:137-138 | Each category of a filtered row appears exactly once, with its exact, positive count, and nothing else appears. The counts sum to the filtered row count and are largest first. Ties follow first-seen order. |
| Dashboard.TopSources | dashboard.py:115 | The chart shows the first ten entries of the full source counts, or all of them when there are at most ten. They are largest first. No omitted source outnumbers the last one shown. |
| Dashboard.Matches | dashboard.py:169-170 | A row matches iff its title or its description contains the term, ignoring case. A missing field never matches. |
| Dashboard.MatchesIgnoresTermCase | dashboard.py:169-170 | The letter case of the term does not matter. |
| Dashboard.Search | dashboard.py:164-173 | An empty term shows the filtered table unchanged. A non-empty term keeps, in order and with all copies, exactly the rows whose title or description contains it, ignoring case. A row with neither field never matches. |
| Dashboard.DisplayedWithinTable | dashboard.py:72-173 | Every listed article comes, in order, from the whole table and passes both filters. |
| Dashboard.SearchExample | dashboard.py:167-171 | Searching "interest" over "Fed Raises Interest Rates" and "Oil Prices Surge" lists only the first. |
| Text.StripRemovesPadding | scripts/categorize_real_articles.py:64 | Stripping removes exactly the surrounding whitespace of a text that has none of its own at either end. |
| Text.Strip | scripts/categorize_real_articles.py:64 | The result starts and ends with a non-space and is no longer than the input. |
| Text.Lower | scripts/categorize_real_articles.py:64 | Lower-casing keeps the length, leaves no upper-case letter and changes nothing else. |
| Seqs.Take | scripts/scrape_real_news.py:163 | A slice `[:n]` is a prefix of its input: all of it when it has at most `n` elements, otherwise exactly `n`. The scrapers use it for the feed's leading items and for the 300-character description. |
| Seqs.FilterIsSubsequence | dashboard.py:72-75 | A filter keeps the order of what it keeps. |
| Seqs.Distinct | dashboard.py:61 | The distinct values have no repeats and are exactly the input's members. |
| Seqs.DistinctFirstSeenOrder | dashboard.py:61 | The distinct values come in the order of their first occurrence. |

## Left out

- Fetching, HTTP status checks and XML parsing are folded into `fetch`: a feed is either its items in document order or `Failed`. The Financial Times, Reuters and Google scrapers keep an item when it has a title. The Guardian scraper also needs a description element. The 10-second timeout is part of `fetch`.
- HTML stripping (BeautifulSoup's `get_text`) is the parameter `stripHtml`. It applies only to Guardian descriptions; the model does not say what it removes.
- The clock is the parameter `now`. The model gives every article of one collection the same `scraped_date`; the real scrapers read the clock once per item.
- Waits (`time.sleep`), console output and the empty-collection warning are left out. Apart from the categorizer's progress line, none of them changes a result. That line (scripts/categorize_real_articles.py:107) slices the title; a missing title makes it raise and end the run before the labels are saved. This failure is modelled by `Categorizer.CategorizeAllAsWritten` (see Findings).
- Writing and reading CSV files is left out. The saved table and the table the categorizer reads are separate types (`Collector.SavedRow`, `Dataset.Article`). The conversion between them, where pandas reads an empty cell back as NaN (`None` here), is not modelled as a function.
- The language-model request, its prompt text and its parameters are the parameter `oracle`. A reply whose content is missing counts as a failed call, as it raises inside the same `try`.
- The viewer's page layout, charts, colours, caching and the missing-file stop are left out. So is the per-article expander list; only which articles it lists is modelled.
- Dashboard.CategoryCounts: the percentage column of the breakdown table, rounded to one decimal, is not modelled (floating point).
- Dashboard.Search: `str.contains` treats the term as a regular expression. The model treats it as literal text, which agrees only for terms without regex metacharacters.
- Text.Lower and Text.Strip: case folding is ASCII only, and whitespace is the ASCII whitespace set plus the four separator characters Python also strips. Unicode case mapping and Unicode spaces are not modelled.
- Dashboard.FilterArticles: the category and source cells are taken to be always present. A column that mixes NaN with strings makes `sorted(df[...].unique())` raise a TypeError (dashboard.py:61 and :67). That page failure is not modelled.
- Dashboard.Search: when every title, or every description, is missing, pandas reads that column as float64. `.str.contains` then raises an AttributeError for a non-empty term (dashboard.py:169-170). The model treats those missing cells as never matching instead of failing.
- Dashboard.ValueCounts: pandas does not document the order of equal counts in `value_counts`. First-seen order (a stable sort by count) is an assumption of the model.
- Collector.Save: the ids are proved to read back as 1, 2, 3, … (`Collector.IdNumbered`). As strings they sort in row order only for the first 999 rows (`Collector.IdWidth`).

## Findings

| source | as written | input that shows it | evidently intended | confidence | as-written member | corrected member |
|---|---|---|---|---|---|---|
| scripts/categorize_real_articles.py:107 | The progress line slices `title[:50]` after each request. A title cell read back from CSV as NaN is a float, so slicing raises, ends the loop and saves no labels. | A collected item whose `<title>` element has no text: it is saved with an empty title, which pandas reads back as NaN. | Every row is labelled; the progress line is only output. | medium; not executed | Categorizer.CategorizeAllAsWritten | Categorizer.CategorizeAll |
