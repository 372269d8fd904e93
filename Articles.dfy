/** The article record of the analyser (`ArticleObject`). Its identity is
    its metadata link alone: two records with the same `metaLink` are equal
    for `contains` and `indexOf`, whatever their other fields. */
module Articles {
  import opened Wrappers

  datatype Article = Article(
    metaLink: string,
    ressorts: seq<string>,   // a growable list: merging appends, repeats stay
    subRessort: string,
    contentType: string,
    superTitle: string,
    title: string,
    genre: Option<string>,
    authors: seq<string>)

  /** `ArticleObject.equals`: two records are the same article exactly when
      their links agree. The identity shortcut only fires for a record
      compared with itself, whose link trivially agrees, and the class test
      always passes between two records. */
  predicate SameArticle(a: Article, b: Article) {
    a.metaLink == b.metaLink
  }
}
