/**
 * The viewer's computations under its page rendering: the conjunctive
 * category/source filter, the filter options, the summary counters, the
 * per-value counts behind the charts and the breakdown table, and the
 * case-insensitive search that narrows the article list.
 */
module Dashboard {
  import opened Wrappers
  import opened Text
  import opened Seqs
  import opened Dataset

  // ---------------------------------------------------------------- filter

  /** A row passes both multi-select filters. */
  predicate Selected(r: LabelledArticle, categories: seq<string>, sources: seq<string>) {
    r.llmCategory in categories && r.article.source in sources
  }

  function Selection(categories: seq<string>, sources: seq<string>): LabelledArticle -> bool {
    r => Selected(r, categories, sources)
  }

  /**
   * The filtered table: exactly the rows whose category and source are both
   * selected, each as often as in the table, unmodified and in table order.
   */
  function FilterArticles(rows: seq<LabelledArticle>, categories: seq<string>, sources: seq<string>)
    : (shown: seq<LabelledArticle>)
    ensures IsSubsequence(shown, rows)
    ensures forall r :: multiset(shown)[r] == if Selected(r, categories, sources) then multiset(rows)[r] else 0
    ensures forall r :: r in shown <==> r in rows && Selected(r, categories, sources)
  {
    FilterIsSubsequence(Selection(categories, sources), rows);
    FilterMultiplicities(Selection(categories, sources), rows);
    Filter(Selection(categories, sources), rows)
  }

  function CategoryColumn(rows: seq<LabelledArticle>): (column: seq<string>)
    ensures |column| == |rows|
  {
    seq(|rows|, i requires 0 <= i < |rows| => rows[i].llmCategory)
  }

  function SourceColumn(rows: seq<LabelledArticle>): (column: seq<string>)
    ensures |column| == |rows|
  {
    seq(|rows|, i requires 0 <= i < |rows| => rows[i].article.source)
  }

  // --------------------------------------------------------------- options

  predicate SortedStrings(s: seq<string>) {
    forall i, j :: 0 <= i < j < |s| ==> LexLe(s[i], s[j])
  }

  function InsertString(x: string, s: seq<string>): (r: seq<string>)
    ensures multiset(r) == multiset(s) + multiset{x}
  {
    if s == [] || LexLe(x, s[0]) then [x] + s
    else
      assert s == [s[0]] + s[1..];
      [s[0]] + InsertString(x, s[1..])
  }

  /** The inserted list holds `x` and the old elements, nothing else. */
  lemma InsertStringMembers(x: string, s: seq<string>)
    ensures forall y :: y in InsertString(x, s) <==> y == x || y in s
  {
    forall y ensures y in InsertString(x, s) <==> y == x || y in s {
      assert y in InsertString(x, s) <==> multiset(InsertString(x, s))[y] > 0;
    }
  }

  /** Inserting into a sorted list keeps it sorted. */
  lemma {:induction false} InsertStringSorted(x: string, s: seq<string>)
    requires SortedStrings(s)
    ensures SortedStrings(InsertString(x, s))
  {
    if s == [] || LexLe(x, s[0]) {
      forall j | 0 < j < |s| ensures LexLe(x, s[j]) {
        LexLeTransitive(x, s[0], s[j]);
      }
    } else {
      LexLeTotal(x, s[0]);
      var rest := InsertString(x, s[1..]);
      InsertStringSorted(x, s[1..]);
      InsertStringMembers(x, s[1..]);
      var r := [s[0]] + rest;
      assert InsertString(x, s) == r;
      forall i, j | 0 <= i < j < |r| ensures LexLe(r[i], r[j]) {
        if i == 0 {
          assert r[j] == rest[j - 1] && rest[j - 1] in rest;
        }
      }
    }
  }

  /** Inserting a new element into a list without duplicates leaves none. */
  lemma {:induction false} InsertStringNew(x: string, s: seq<string>)
    requires NoDuplicates(s) && x !in s
    ensures NoDuplicates(InsertString(x, s))
  {
    if s != [] && !LexLe(x, s[0]) {
      var rest := InsertString(x, s[1..]);
      InsertStringNew(x, s[1..]);
      InsertStringMembers(x, s[1..]);
      var r := [s[0]] + rest;
      assert InsertString(x, s) == r;
      assert s[0] !in rest;
      forall i, j | 0 <= i < j < |r| ensures r[i] != r[j] {
        if i == 0 { assert r[j] == rest[j - 1]; }
      }
    }
  }

  /** Python's `sorted` on strings. */
  function SortStrings(s: seq<string>): (r: seq<string>)
    ensures SortedStrings(r)
    ensures multiset(r) == multiset(s)
    ensures NoDuplicates(s) ==> NoDuplicates(r)
  {
    if s == [] then []
    else
      assert s == [s[0]] + s[1..];
      assert s[0] !in s[1..] ==> s[0] !in multiset(SortStrings(s[1..]));
      InsertStringSorted(s[0], SortStrings(s[1..]));
      assert NoDuplicates(s) ==> NoDuplicates(InsertString(s[0], SortStrings(s[1..]))) by {
        if NoDuplicates(s) {
          assert NoDuplicates(s[1..]);
          assert s[0] !in multiset(SortStrings(s[1..]));
          InsertStringNew(s[0], SortStrings(s[1..]));
        }
      }
      InsertString(s[0], SortStrings(s[1..]))
  }

  /** The options of a filter: each value of the column once, sorted (`sorted(column.unique())`). */
  function Options(column: seq<string>): (options: seq<string>)
    ensures SortedStrings(options)
    ensures NoDuplicates(options)
    ensures forall v :: v in options <==> v in column
  {
    var d := Distinct(column);
    assert forall v :: v in SortStrings(d) <==> v in multiset(d);
    SortStrings(d)
  }

  function CategoryOptions(rows: seq<LabelledArticle>): seq<string> {
    Options(CategoryColumn(rows))
  }

  function SourceOptions(rows: seq<LabelledArticle>): seq<string> {
    Options(SourceColumn(rows))
  }

  /** With the default selections, every category and every source, the filter keeps the whole table. */
  lemma DefaultSelectionShowsAll(rows: seq<LabelledArticle>)
    ensures FilterArticles(rows, CategoryOptions(rows), SourceOptions(rows)) == rows
  {
    var categories, sources := CategoryOptions(rows), SourceOptions(rows);
    forall i | 0 <= i < |rows|
      ensures Selection(categories, sources)(rows[i])
    {
      assert CategoryColumn(rows)[i] == rows[i].llmCategory;
      assert SourceColumn(rows)[i] == rows[i].article.source;
    }
    FilterKeepsAll(Selection(categories, sources), rows);
  }

  /** Clearing either filter empties the table. */
  lemma EmptySelectionShowsNothing(rows: seq<LabelledArticle>, categories: seq<string>, sources: seq<string>)
    requires categories == [] || sources == []
    ensures FilterArticles(rows, categories, sources) == []
  {
    FilterKeepsNone(Selection(categories, sources), rows);
  }

  // --------------------------------------------------------------- metrics

  /** pandas `nunique` of a column. */
  function DistinctCount(column: seq<string>): (n: nat)
    ensures n <= |column|
    ensures n == 0 <==> column == []
  {
    if column != [] then assert column[0] in Distinct(column); |Distinct(column)| else |Distinct(column)|
  }

  datatype Metrics = Metrics(articles: nat, categories: nat, sources: nat)

  /** The three counters over the filtered table. */
  function Summary(shown: seq<LabelledArticle>): (m: Metrics)
    ensures m.articles == |shown|
    ensures m.categories <= m.articles && m.sources <= m.articles
    ensures m.categories == 0 <==> m.articles == 0
    ensures m.sources == 0 <==> m.articles == 0
  {
    Metrics(|shown|, DistinctCount(CategoryColumn(shown)), DistinctCount(SourceColumn(shown)))
  }

  // ---------------------------------------------------------- value counts

  /** One entry of `value_counts()`: a value and how many rows carry it. */
  datatype Count = Count(value: string, count: nat)

  function Values(counts: seq<Count>): (values: seq<string>)
    ensures |values| == |counts|
  {
    seq(|counts|, i requires 0 <= i < |counts| => counts[i].value)
  }

  /** The sum of the counts. */
  function Total(counts: seq<Count>): nat {
    if counts == [] then 0 else counts[0].count + Total(counts[1..])
  }

  /** How many times `v` occurs in `column`. */
  function Occurrences(column: seq<string>, v: string): nat {
    if column == [] then 0
    else Occurrences(column[..|column| - 1], v) + (if column[|column| - 1] == v then 1 else 0)
  }

  /** The count recorded for `v`, or 0 when it has no entry. */
  function CountOf(counts: seq<Count>, v: string): nat {
    if counts == [] then 0 else if counts[0].value == v then counts[0].count else CountOf(counts[1..], v)
  }

  predicate UniqueValues(counts: seq<Count>) {
    forall i, j :: 0 <= i < j < |counts| ==> counts[i].value != counts[j].value
  }

  predicate Positive(counts: seq<Count>) {
    forall i :: 0 <= i < |counts| ==> counts[i].count >= 1
  }

  /** Record one more occurrence of `v`: increment its entry, or append a new one. */
  function Bump(counts: seq<Count>, v: string): seq<Count> {
    if counts == [] then [Count(v, 1)]
    else if counts[0].value == v then [Count(v, counts[0].count + 1)] + counts[1..]
    else [counts[0]] + Bump(counts[1..], v)
  }

  lemma {:induction false} BumpCounts(counts: seq<Count>, v: string)
    ensures Total(Bump(counts, v)) == Total(counts) + 1
    ensures forall w :: CountOf(Bump(counts, v), w) == CountOf(counts, w) + (if w == v then 1 else 0)
    ensures Positive(counts) ==> Positive(Bump(counts, v))
  {
    if counts != [] && counts[0].value != v {
      BumpCounts(counts[1..], v);
    }
  }

  /** Bumping keeps the list of values, or appends `v` when it is new. */
  lemma {:induction false} BumpValues(counts: seq<Count>, v: string)
    ensures Values(Bump(counts, v)) == if v in Values(counts) then Values(counts) else Values(counts) + [v]
  {
    if counts == [] {
    } else if counts[0].value == v {
      var r := Bump(counts, v);
      assert forall i :: 0 <= i < |r| ==> r[i].value == counts[i].value;
      assert Values(r) == Values(counts);
      assert Values(counts)[0] == v;
    } else {
      var rest := Bump(counts[1..], v);
      BumpValues(counts[1..], v);
      assert Values(counts) == [counts[0].value] + Values(counts[1..]);
      assert Values(Bump(counts, v)) == [counts[0].value] + Values(rest);
      assert v in Values(counts) <==> v in Values(counts[1..]);
    }
  }

  /** Bumping never creates a second entry for a value. */
  lemma BumpUnique(counts: seq<Count>, v: string)
    requires UniqueValues(counts)
    ensures UniqueValues(Bump(counts, v))
  {
    var r := Bump(counts, v);
    BumpValues(counts, v);
    assert |Values(r)| == |r|;
    if v !in Values(counts) {
      forall i | 0 <= i < |counts| ensures r[i].value == counts[i].value && counts[i].value != v {
        assert Values(r)[i] == Values(counts)[i];
      }
      assert r[|r| - 1].value == Values(r)[|r| - 1];
    } else {
      forall i | 0 <= i < |r| ensures r[i].value == counts[i].value {
        assert Values(r)[i] == Values(counts)[i];
      }
    }
  }

  /** The per-value counts in first-seen order. */
  function Tally(column: seq<string>): (counts: seq<Count>)
    ensures Values(counts) == Distinct(column)
    ensures forall w :: CountOf(counts, w) == Occurrences(column, w)
    ensures Total(counts) == |column|
    ensures UniqueValues(counts) && Positive(counts)
  {
    if column == [] then []
    else
      var init, last := column[..|column| - 1], column[|column| - 1];
      BumpCounts(Tally(init), last);
      BumpValues(Tally(init), last);
      BumpUnique(Tally(init), last);
      Bump(Tally(init), last)
  }

  /** Entries with a larger count first; an entry goes before the first one whose count it reaches. */
  function InsertByCount(c: Count, counts: seq<Count>): seq<Count> {
    if counts == [] || counts[0].count <= c.count then [c] + counts
    else [counts[0]] + InsertByCount(c, counts[1..])
  }

  /** Stable sort by decreasing count (insertion sort). */
  function SortByCount(counts: seq<Count>): seq<Count> {
    if counts == [] then [] else InsertByCount(counts[0], SortByCount(counts[1..]))
  }

  lemma {:induction false} InsertByCountKeeps(c: Count, counts: seq<Count>)
    ensures multiset(InsertByCount(c, counts)) == multiset(counts) + multiset{c}
    ensures Total(InsertByCount(c, counts)) == Total(counts) + c.count
  {
    if counts != [] && counts[0].count > c.count {
      InsertByCountKeeps(c, counts[1..]);
      assert counts == [counts[0]] + counts[1..];
    }
  }

  /** Sorting permutes the entries and so keeps their total. */
  lemma {:induction false} SortByCountKeeps(counts: seq<Count>)
    ensures multiset(SortByCount(counts)) == multiset(counts)
    ensures Total(SortByCount(counts)) == Total(counts)
  {
    if counts != [] {
      SortByCountKeeps(counts[1..]);
      InsertByCountKeeps(counts[0], SortByCount(counts[1..]));
      assert counts == [counts[0]] + counts[1..];
    }
  }

  predicate NonIncreasing(counts: seq<Count>) {
    forall i, j :: 0 <= i < j < |counts| ==> counts[i].count >= counts[j].count
  }

  /** The entries with count `k`, in their order. */
  function WithCount(counts: seq<Count>, k: nat): seq<Count> {
    if counts == [] then []
    else (if counts[0].count == k then [counts[0]] else []) + WithCount(counts[1..], k)
  }

  lemma InsertByCountMembers(c: Count, counts: seq<Count>)
    ensures forall x :: x in InsertByCount(c, counts) <==> x == c || x in counts
  {
    InsertByCountKeeps(c, counts);
    forall x ensures x in InsertByCount(c, counts) <==> x == c || x in counts {
      assert x in InsertByCount(c, counts) <==> multiset(InsertByCount(c, counts))[x] > 0;
    }
  }

  lemma {:induction false} InsertByCountOrdered(c: Count, counts: seq<Count>)
    requires NonIncreasing(counts)
    ensures NonIncreasing(InsertByCount(c, counts))
  {
    if counts != [] && counts[0].count > c.count {
      var rest := InsertByCount(c, counts[1..]);
      InsertByCountOrdered(c, counts[1..]);
      InsertByCountMembers(c, counts[1..]);
      var r := [counts[0]] + rest;
      forall i, j | 0 <= i < j < |r| ensures r[i].count >= r[j].count {
        if i == 0 { assert r[j] == rest[j - 1] && rest[j - 1] in rest; }
      }
    }
  }

  lemma {:induction false} InsertByCountUnique(c: Count, counts: seq<Count>)
    requires UniqueValues(counts)
    requires forall i :: 0 <= i < |counts| ==> counts[i].value != c.value
    ensures UniqueValues(InsertByCount(c, counts))
  {
    if counts != [] && counts[0].count > c.count {
      var rest := InsertByCount(c, counts[1..]);
      InsertByCountUnique(c, counts[1..]);
      InsertByCountMembers(c, counts[1..]);
      var r := [counts[0]] + rest;
      forall j | 0 <= j < |rest| ensures rest[j].value != counts[0].value {
        assert rest[j] in rest;
      }
      forall i, j | 0 <= i < j < |r| ensures r[i].value != r[j].value {
        if i == 0 { assert r[j] == rest[j - 1]; }
      }
    }
  }

  lemma WithCountCons(x: Count, rest: seq<Count>, k: nat)
    ensures WithCount([x] + rest, k) == (if x.count == k then [x] else []) + WithCount(rest, k)
  {
    assert ([x] + rest)[0] == x && ([x] + rest)[1..] == rest;
  }

  /** Inserting `c` puts it before every entry of equal count, so it leads the entries with its count. */
  lemma {:induction false} InsertByCountTies(c: Count, counts: seq<Count>, k: nat)
    ensures WithCount(InsertByCount(c, counts), k) ==
            (if c.count == k then [c] else []) + WithCount(counts, k)
  {
    if counts == [] || counts[0].count <= c.count {
      assert InsertByCount(c, counts) == [c] + counts;
      WithCountCons(c, counts, k);
    } else {
      var rest := InsertByCount(c, counts[1..]);
      InsertByCountTies(c, counts[1..], k);
      assert InsertByCount(c, counts) == [counts[0]] + rest;
      WithCountCons(counts[0], rest, k);
      WithCountCons(counts[0], counts[1..], k);
      assert [counts[0]] + counts[1..] == counts;
    }
  }

  /** Sorting keeps the relative order of entries with equal counts. */
  lemma {:induction false} SortByCountStable(counts: seq<Count>, k: nat)
    ensures WithCount(SortByCount(counts), k) == WithCount(counts, k)
  {
    if counts != [] {
      SortByCountStable(counts[1..], k);
      InsertByCountTies(counts[0], SortByCount(counts[1..]), k);
    }
  }

  lemma {:induction false} SortByCountOrdered(counts: seq<Count>)
    ensures NonIncreasing(SortByCount(counts))
    ensures UniqueValues(counts) ==> UniqueValues(SortByCount(counts))
  {
    if counts != [] {
      var rest := SortByCount(counts[1..]);
      SortByCountOrdered(counts[1..]);
      SortByCountKeeps(counts[1..]);
      InsertByCountOrdered(counts[0], rest);
      if UniqueValues(counts) {
        assert UniqueValues(counts[1..]);
        forall i | 0 <= i < |rest| ensures rest[i].value != counts[0].value {
          assert rest[i] in multiset(counts[1..]);
          var j :| 0 <= j < |counts[1..]| && counts[1..][j] == rest[i];
          assert counts[j + 1] == rest[i];
        }
        InsertByCountUnique(counts[0], rest);
      }
    }
  }

  /** The count an entry of unique values carries is the one `CountOf` finds. */
  lemma {:induction false} CountOfEntry(counts: seq<Count>, i: nat)
    requires UniqueValues(counts) && i < |counts|
    ensures CountOf(counts, counts[i].value) == counts[i].count
  {
    if i > 0 {
      assert counts[0].value != counts[i].value;
      CountOfEntry(counts[1..], i - 1);
    }
  }

  /** Every entry of the sorted tally counts the occurrences of its value. */
  lemma SortedTallyCounts(column: seq<string>)
    ensures forall i :: 0 <= i < |SortByCount(Tally(column))| ==>
              SortByCount(Tally(column))[i].count == Occurrences(column, SortByCount(Tally(column))[i].value) &&
              SortByCount(Tally(column))[i].count >= 1
  {
    var tally := Tally(column);
    var sorted := SortByCount(tally);
    SortByCountKeeps(tally);
    forall i | 0 <= i < |sorted|
      ensures sorted[i].count == Occurrences(column, sorted[i].value) && sorted[i].count >= 1
    {
      assert sorted[i] in multiset(tally);
      var j :| 0 <= j < |tally| && tally[j] == sorted[i];
      CountOfEntry(tally, j);
    }
  }

  /** Entries that are a permutation of each other carry the same values. */
  lemma PermutedValues(a: seq<Count>, b: seq<Count>)
    requires multiset(a) == multiset(b)
    ensures forall v :: v in Values(a) ==> v in Values(b)
  {
    forall v | v in Values(a) ensures v in Values(b) {
      var j :| 0 <= j < |a| && Values(a)[j] == v;
      assert a[j] in multiset(b);
      var i :| 0 <= i < |b| && b[i] == a[j];
      assert Values(b)[i] == v;
    }
  }

  /** The sorted tally has an entry for exactly the values of the column. */
  lemma SortedTallyValues(column: seq<string>)
    ensures forall v :: v in column <==> v in Values(SortByCount(Tally(column)))
  {
    var tally := Tally(column);
    SortByCountKeeps(tally);
    PermutedValues(tally, SortByCount(tally));
    PermutedValues(SortByCount(tally), tally);
    assert forall v :: v in column <==> v in Values(tally);
  }

  /** pandas `value_counts()`: per-value counts, largest first, ties in first-seen order. */
  function ValueCounts(column: seq<string>): (counts: seq<Count>)
    ensures UniqueValues(counts)
    ensures forall i :: 0 <= i < |counts| ==>
              counts[i].count == Occurrences(column, counts[i].value) && counts[i].count >= 1
    ensures forall v :: v in column <==> v in Values(counts)
    ensures NonIncreasing(counts)
    ensures Total(counts) == |column|
    ensures forall k :: WithCount(counts, k) == WithCount(Tally(column), k)
  {
    var tally := Tally(column);
    SortByCountOrdered(tally);
    SortByCountKeeps(tally);
    SortedTallyCounts(column);
    SortedTallyValues(column);
    assert forall k :: WithCount(SortByCount(tally), k) == WithCount(tally, k) by {
      forall k ensures WithCount(SortByCount(tally), k) == WithCount(tally, k) {
        SortByCountStable(tally, k);
      }
    }
    SortByCount(tally)
  }

  /** The category breakdown: each filtered category once, largest first, adding up to the filtered count. */
  function CategoryCounts(shown: seq<LabelledArticle>): (counts: seq<Count>)
    ensures Total(counts) == |shown|
    ensures NonIncreasing(counts) && UniqueValues(counts)
    ensures forall c :: c in Values(counts) <==> exists r :: r in shown && r.llmCategory == c
    ensures forall i :: 0 <= i < |counts| ==>
              counts[i].count == Occurrences(CategoryColumn(shown), counts[i].value) && counts[i].count >= 1
    ensures forall k :: WithCount(counts, k) == WithCount(Tally(CategoryColumn(shown)), k)
  {
    var column := CategoryColumn(shown);
    forall c ensures c in column <==> exists r :: r in shown && r.llmCategory == c {
      if c in column {
        var i :| 0 <= i < |column| && column[i] == c;
        assert shown[i] in shown;
      }
      if exists r :: r in shown && r.llmCategory == c {
        var r :| r in shown && r.llmCategory == c;
        var i :| 0 <= i < |shown| && shown[i] == r;
        assert column[i] == c;
      }
    }
    ValueCounts(column)
  }

  const TopLimit: nat := 10

  /** The source chart: the first ten entries of the source counts. */
  function TopSources(shown: seq<LabelledArticle>): (top: seq<Count>)
    ensures |top| == if |ValueCounts(SourceColumn(shown))| <= TopLimit then |ValueCounts(SourceColumn(shown))| else TopLimit
    ensures top <= ValueCounts(SourceColumn(shown))
    ensures NonIncreasing(top)
    ensures forall t :: t in ValueCounts(SourceColumn(shown))[|top|..] ==> top != [] && t.count <= top[|top| - 1].count
  {
    var counts := ValueCounts(SourceColumn(shown));
    var top := if |counts| <= TopLimit then counts else counts[..TopLimit];
    forall t | t in counts[|top|..] ensures top != [] && t.count <= top[|top| - 1].count {
      var j :| 0 <= j < |counts[|top|..]| && counts[|top|..][j] == t;
      assert counts[|top| + j] == t;
    }
    top
  }

  // ---------------------------------------------------------------- search

  /** The title or the description contains the term, ignoring case; a missing field never matches. */
  predicate Matches(r: LabelledArticle, term: string) {
    (r.article.title.Some? && ContainsIgnoringCase(r.article.title.value, term)) ||
    (r.article.description.Some? && ContainsIgnoringCase(r.article.description.value, term))
  }

  /** Only the term's letters matter, not their case: "INTEREST" finds what "interest" finds. */
  lemma MatchesIgnoresTermCase(r: LabelledArticle, term: string)
    ensures Matches(r, term) <==> Matches(r, Lower(term))
  {
    LowerTwice(term);
  }

  function Matching(term: string): LabelledArticle -> bool {
    r => Matches(r, term)
  }

  /** The article list: the filtered table, narrowed by a non-empty search term. */
  function Search(shown: seq<LabelledArticle>, term: string): (displayed: seq<LabelledArticle>)
    ensures term == "" ==> displayed == shown
    ensures IsSubsequence(displayed, shown)
    ensures term != "" ==>
              forall r :: multiset(displayed)[r] == if Matches(r, term) then multiset(shown)[r] else 0
    ensures term != "" ==>
              forall r :: r in displayed ==> r.article.title.Some? || r.article.description.Some?
  {
    if term == "" then
      SubsequenceReflexive(shown);
      shown
    else
      FilterIsSubsequence(Matching(term), shown);
      FilterMultiplicities(Matching(term), shown);
      FilterMembership(Matching(term), shown);
      Filter(Matching(term), shown)
  }

  /** What the list shows is drawn, in order, from the filtered table and so from the whole table. */
  lemma DisplayedWithinTable(rows: seq<LabelledArticle>, categories: seq<string>, sources: seq<string>, term: string)
    ensures IsSubsequence(Search(FilterArticles(rows, categories, sources), term), rows)
    ensures forall r :: r in Search(FilterArticles(rows, categories, sources), term) ==> Selected(r, categories, sources)
  {
    var shown := FilterArticles(rows, categories, sources);
    var displayed := Search(shown, term);
    SubsequenceTransitive(displayed, shown, rows);
    forall r | r in displayed ensures Selected(r, categories, sources) {
      assert multiset(displayed)[r] > 0;
    }
  }

  lemma InterestInFedTitle()
    ensures ContainsIgnoringCase("Fed Raises Interest Rates", "interest")
  {
    var term := "interest";
    InterestIsLowerCase();
    var title := Lower("Fed Raises Interest Rates");
    assert title[11..19] == term;
    SubstringAt(term, title, 11);
  }

  lemma InterestNotInOilTitle()
    ensures !ContainsIgnoringCase("Oil Prices Surge", "interest")
  {
    var term := "interest";
    var oil := "Oil Prices Surge";
    InterestIsLowerCase();
    NoLetterNInOilTitle();
    if IsSubstring(term, Lower(oil)) {
      SubstringCharacters(term, Lower(oil));
      assert term[1] == 'n';
      LowerCharacters(oil, 'n');
      assert false;
    }
  }

  lemma InterestIsLowerCase()
    ensures Lower("interest") == "interest"
  {
    var term := "interest";
    assert forall i :: 0 <= i < |term| ==> !IsUpper(term[i]);
  }

  lemma NoLetterNInOilTitle()
    ensures 'n' !in "Oil Prices Surge" && 'N' !in "Oil Prices Surge"
  {
    var oil := "Oil Prices Surge";
    assert forall i :: 0 <= i < |oil| ==> oil[i] != 'n' && oil[i] != 'N';
  }


  /** Searching "interest" over "Fed Raises Interest Rates" and "Oil Prices Surge" lists only the first. */
  lemma SearchExample(fed: LabelledArticle, oil: LabelledArticle)
    requires fed.article.title == Some("Fed Raises Interest Rates") && fed.article.description.None?
    requires oil.article.title == Some("Oil Prices Surge") && oil.article.description.None?
    ensures Search([fed, oil], "interest") == [fed]
  {
    var p := Matching("interest");
    InterestInFedTitle();
    InterestNotInOilTitle();
    assert p(fed) && !p(oil);
    assert [fed, oil][..1] == [fed];
    assert [fed][..0] == [];
    assert Filter(p, [fed]) == [fed];
    assert Filter(p, [fed, oil]) == [fed];
  }
}
