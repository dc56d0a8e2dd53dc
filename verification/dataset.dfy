/**
 * The article table as the categorizer and the viewer read it back from CSV:
 * the saved columns, with text cells that may be missing (pandas reads an
 * empty cell as NaN), and, after categorization, the `llm_category` column.
 */
module Dataset {
  import opened Wrappers

  /** A text cell; `None` is NaN. */
  type Cell = Option<string>

  datatype Article = Article(
    id: string,
    title: Cell,
    description: Cell,
    content: Cell,
    source: string,
    date: Cell,
    link: Cell,
    scrapedDate: string)

  /** An article with the label the categorizer assigned to it. */
  datatype LabelledArticle = LabelledArticle(article: Article, llmCategory: string)
}
