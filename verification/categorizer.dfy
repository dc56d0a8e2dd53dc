/**
 * The categorizer: one language-model request per article, with the reply
 * normalised into a fixed set of ten labels. The model is the parameter
 * `oracle`, which answers a (title, description) pair with its raw reply or
 * with `CallFailed` for any error of the call (network, API, a reply without
 * text).
 */
module Categorizer {
  import opened Wrappers
  import opened Text
  import opened Dataset
  import opened Seqs

  /** The closed label set, in the order the prompt lists it. */
  const Categories: seq<string> := [
    "inflation",
    "monetary_policy",
    "gdp_growth",
    "employment",
    "trade",
    "housing",
    "commodities",
    "financial_markets",
    "productivity",
    "general_economics"
  ]

  /** The catch-all label for replies outside the set. */
  const Fallback: string := "general_economics"

  /** The sentinel for a request that failed; kept apart from every label. */
  const ErrorLabel: string := "error"

  /** The prefix an API key must carry. */
  const KeyPrefix: string := "sk-"

  datatype Reply = Answered(text: string) | CallFailed

  /** A label is lower-case letters and underscores only. */
  predicate IsLabelWord(s: string) {
    s != [] && forall i :: 0 <= i < |s| ==> 'a' <= s[i] <= 'z' || s[i] == '_'
  }

  /** The set holds the catch-all, not the sentinel, and only label words. */
  lemma CategorySet()
    ensures |Categories| == 10
    ensures Fallback in Categories && ErrorLabel !in Categories
    ensures forall c :: c in Categories ==> IsLabelWord(c)
  {
    assert Categories[9] == Fallback;
    LabelWords();
  }

  lemma LabelWords()
    ensures forall k :: 0 <= k < |Categories| ==> IsLabelWord(Categories[k])
  {
    forall k | 0 <= k < |Categories|
      ensures IsLabelWord(Categories[k])
    {
      var c := Categories[k];
      assert forall i :: 0 <= i < |c| ==> 'a' <= c[i] <= 'z' || c[i] == '_';
    }
  }

  /** The ten labels are pairwise different: no two share their first two letters. */
  lemma CategoriesDistinct()
    ensures NoDuplicates(Categories)
  {
    forall i, j | 0 <= i < j < |Categories|
      ensures Categories[i] != Categories[j]
    {
      assert Categories[i][0] != Categories[j][0] || Categories[i][1] != Categories[j][1];
    }
  }

  /** The label a successful reply turns into: its stripped, lower-cased text if that is a label, else the catch-all. */
  function NormalizeReply(text: string): (category: string)
    ensures category in Categories
    ensures category != Fallback ==> category == Lower(Strip(text))
  {
    var answer := Lower(Strip(text));
    if answer in Categories then answer else Fallback
  }

  /** A lower-case word is its own lower-case form. */
  lemma LowerOfLabel(c: string)
    requires IsLabelWord(c)
    ensures Lower(c) == c
  {
  }

  /**
   * A reply that spells a label, in any letter case and with any surrounding
   * whitespace, is recognised as that label.
   */
  lemma RecognisesPaddedLabel(w1: string, s: string, w2: string, c: string)
    requires c in Categories
    requires AllSpace(w1) && AllSpace(w2)
    requires Lower(s) == c
    ensures NormalizeReply(w1 + s + w2) == c
  {
    CategorySet();
    assert IsLabelWord(c);
    assert !IsSpace(c[0]) && !IsSpace(c[|c| - 1]);
    assert LowerChar(s[0]) == c[0] && LowerChar(s[|s| - 1]) == c[|c| - 1];
    StripRemovesPadding(w1, s, w2);
  }

  /** Normalising a label gives it back unchanged. */
  lemma NormalizeKeepsLabels(c: string)
    requires c in Categories
    ensures NormalizeReply(c) == c
  {
    CategorySet();
    LowerOfLabel(c);
    assert [] + c + [] == c;
    RecognisesPaddedLabel([], c, [], c);
  }

  /** "foobar" is none of the labels. */
  lemma FoobarNotLabel()
    ensures "foobar" !in Categories
  {
    forall k | 0 <= k < |Categories|
      ensures Categories[k] != "foobar"
    {
      assert |Categories[k]| != 6;
    }
  }

  /** An unknown answer such as "foobar" falls back to the catch-all label. */
  lemma UnknownReplyFallsBack()
    ensures NormalizeReply("foobar") == Fallback
  {
    FoobarNotLabel();
    StripRemovesPadding([], "foobar", []);
    assert [] + "foobar" + [] == "foobar";
    LowerOfLabel("foobar");
  }

  lemma LowerFoobar()
    ensures Lower("Foobar") == "foobar"
  {
    var lowered := Lower("Foobar");
    assert lowered[0] == 'f';
    assert lowered[1..] == "oobar";
  }

  /** The same holds whatever the reply's letter case and padding. */
  lemma PaddedUnknownReplyFallsBack()
    ensures NormalizeReply(" Foobar\n") == Fallback
  {
    assert " " + "Foobar" + "\n" == " Foobar\n";
    StripRemovesPadding(" ", "Foobar", "\n");
    LowerFoobar();
    FoobarNotLabel();
  }

  /** `categorize_article`: a label from the set on success, the error sentinel on failure. */
  function CategorizeArticle(oracle: (Cell, Cell) -> Reply, title: Cell, description: Cell): (category: string)
    ensures category in Categories || category == ErrorLabel
    ensures category == ErrorLabel <==> oracle(title, description).CallFailed?
  {
    CategorySet();
    match oracle(title, description)
    case Answered(text) => NormalizeReply(text)
    case CallFailed => ErrorLabel
  }

  /** The description sent for an article: its own when present, its title otherwise. */
  function PromptDescription(a: Article): (d: Cell)
    ensures d.None? <==> a.description.None? && a.title.None?
    ensures d.Some? ==> d == a.description || d == a.title
    ensures a.description.Some? ==> d == a.description
  {
    if a.description.Some? then a.description else a.title
  }

  /** Attach the collected labels, in row order, as the `llm_category` column. */
  function WithCategories(rows: seq<Article>, categories: seq<string>): seq<LabelledArticle>
    requires |categories| == |rows|
  {
    seq(|rows|, i requires 0 <= i < |rows| => LabelledArticle(rows[i], categories[i]))
  }

  /** The label one row receives: its title, and its description or else its title, sent to the model. */
  function RowCategory(oracle: (Cell, Cell) -> Reply, a: Article): string {
    CategorizeArticle(oracle, a.title, PromptDescription(a))
  }

  /** The labels of `rows`, one per row, in row order. */
  function RowCategories(oracle: (Cell, Cell) -> Reply, rows: seq<Article>): (categories: seq<string>)
    ensures |categories| == |rows|
  {
    if rows == [] then [] else RowCategories(oracle, rows[..|rows| - 1]) + [RowCategory(oracle, rows[|rows| - 1])]
  }

  /** Row `i`'s label is the answer for row `i`, and it is a label of the set or the sentinel. */
  lemma {:induction false} RowCategoriesAt(oracle: (Cell, Cell) -> Reply, rows: seq<Article>, i: nat)
    requires i < |rows|
    ensures RowCategories(oracle, rows)[i] == RowCategory(oracle, rows[i])
    ensures RowCategories(oracle, rows)[i] in Categories || RowCategories(oracle, rows)[i] == ErrorLabel
    decreases |rows|
  {
    if i < |rows| - 1 {
      RowCategoriesAt(oracle, rows[..|rows| - 1], i);
    }
  }

  /**
   * `categorize_scraped_articles` as intended: one request per row, in row
   * order, then the labels become the `llm_category` column; every row keeps
   * its columns. Unlike `CategorizeAllAsWritten`, a row without a title is
   * labelled like any other.
   */
  method CategorizeAll(oracle: (Cell, Cell) -> Reply, rows: seq<Article>) returns (labelled: seq<LabelledArticle>)
    ensures |labelled| == |rows|
    ensures forall i :: 0 <= i < |rows| ==> labelled[i].article == rows[i]
    ensures forall i :: 0 <= i < |rows| ==> labelled[i].llmCategory == RowCategories(oracle, rows)[i]
  {
    var categories: seq<string> := [];
    for i := 0 to |rows|
      invariant categories == RowCategories(oracle, rows[..i])
    {
      assert rows[..i + 1][..i] == rows[..i];
      var category := CategorizeArticle(oracle, rows[i].title, PromptDescription(rows[i]));
      categories := categories + [category];
    }
    assert rows[..|rows|] == rows;
    labelled := WithCategories(rows, categories);
  }

  /** Every row carries a title. */
  predicate AllTitled(rows: seq<Article>) {
    forall i :: 0 <= i < |rows| ==> rows[i].title.Some?
  }

  lemma AllTitledStep(rows: seq<Article>, i: nat)
    requires i < |rows| && AllTitled(rows[..i]) && rows[i].title.Some?
    ensures AllTitled(rows[..i + 1])
  {
    var done := rows[..i + 1];
    forall j | 0 <= j < |done|
      ensures done[j].title.Some?
    {
      if j < i {
        assert done[j] == rows[..i][j];
      }
    }
  }

  /**
   * The loop exactly as written: after each request the progress line slices
   * the row's title, which raises when the title cell is NaN, so the run
   * stops there and no label is saved (`None`).
   */
  method CategorizeAllAsWritten(oracle: (Cell, Cell) -> Reply, rows: seq<Article>)
    returns (labelled: Option<seq<LabelledArticle>>)
    ensures labelled.None? <==> !AllTitled(rows)
    ensures labelled.Some? ==> |labelled.value| == |rows|
    ensures labelled.Some? ==> forall i :: 0 <= i < |rows| ==>
      labelled.value[i].article == rows[i] && labelled.value[i].llmCategory == RowCategories(oracle, rows)[i]
  {
    var categories: seq<string> := [];
    for i := 0 to |rows|
      invariant categories == RowCategories(oracle, rows[..i])
      invariant AllTitled(rows[..i])
    {
      assert rows[..i + 1][..i] == rows[..i];
      var category := CategorizeArticle(oracle, rows[i].title, PromptDescription(rows[i]));
      categories := categories + [category];
      if rows[i].title.None? {
        assert rows[i] in rows;
        return None;
      }
      AllTitledStep(rows, i);
    }
    assert rows[..|rows|] == rows;
    var all := WithCategories(rows, categories);
    assert forall j :: 0 <= j < |rows| ==> all[j].article == rows[j] && all[j].llmCategory == categories[j];
    labelled := Some(all);
  }


  /**
   * The key check before any request: the entered key, stripped, must start
   * with "sk-". Trailing whitespace never matters: the key is accepted exactly
   * when "sk-" follows its leading whitespace.
   */
  function KeyAccepted(entered: string): (ok: bool)
    ensures ok <==> KeyPrefix <= StripLeft(entered)
  {
    assert KeyPrefix[2] == '-';
    StripRightPrefix(StripLeft(entered), KeyPrefix);
    KeyPrefix <= Strip(entered)
  }

  /** A key with any surrounding whitespace is accepted exactly when the key itself starts with "sk-". */
  lemma PaddedKey(w1: string, key: string, w2: string)
    requires AllSpace(w1) && AllSpace(w2) && Trimmed(key)
    ensures KeyAccepted(w1 + key + w2) <==> KeyPrefix <= key
  {
    StripRemovesPadding(w1, key, w2);
  }

  lemma KeyExamples()
    ensures KeyAccepted(" sk-abc\n")
    ensures !KeyAccepted("SK-abc")
  {
    PaddedKeyAccepted();
    UpperKeyRejected();
  }

  lemma PaddedKeyAccepted()
    ensures KeyAccepted(" sk-abc\n")
  {
    assert " " + "sk-abc" + "\n" == " sk-abc\n";
    PaddedKey(" ", "sk-abc", "\n");
  }

  lemma UpperKeyRejected()
    ensures !KeyAccepted("SK-abc")
  {
    assert [] + "SK-abc" + [] == "SK-abc";
    PaddedKey([], "SK-abc", []);
    assert "SK-abc"[0] != KeyPrefix[0];
  }

}
