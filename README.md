# ZeitAnalyser in Dafny

ZeitAnalyser reads the index pages of two issues of DIE ZEIT. It turns every
article container of every titled section into an article record. It merges
records that share a metadata link into one record, whose section labels
grow. It then finds the authors named at least twice among all stored
records. Finally it prints a JSON report: one object per repeated author,
listing that author's articles.

This project models that pipeline on values.

- An issue is given as the regions of its index page, already parsed. Each
  region has its attributes, its child count and its containers. Each
  container has its blocks, and each block has its attribute map and its
  `supertitle` and `title` texts.
- The report is a JSON tree (`Report.Json`), not printed text.
- A run that ZeitAnalyser ends with an exception ends here with a typed
  error (`Extraction.ExtractError`). The three errors are a container
  without a block, a first block without a supertitle, and a first block
  without a title.

Modules, one per file:

- `Wrappers`: `Option` and `Result`.
- `Strings`:
  - `indexOf`/`replaceFirst` as Kotlin defines them on strings;
  - `split` on one delimiter, which keeps empty segments, and its inverse `Join`.
- `Articles`: the `ArticleObject` record, and equality on the metadata link.
- `Extraction`:
  - `fetchArticles` over already-parsed regions;
  - the first block of each container only;
  - `split(";")` of the author attribute.
- `Store`: the merge loop of `main`. A record with a new link is appended. A
  record with a known link has its section labels appended to the stored
  record's labels.
- `Authors`: the single-pass scan that fills `authors` and `authorsTwice`.
- `Report`:
  - the link rewrite;
  - the article, author and root objects;
  - the report loop.
- `Pipeline`: `main` end to end: every issue, the merge, the scan and the report.

Each loop of `main` and `fetchArticles` is a method with loop invariants. Each method is
proved equal to a recursive specification function:

| method | specification function |
|---|---|
| `Extraction.ExtractArticles` | `ParseIssue` |
| `Store.MergeArticles` | `MergeInto` |
| `Authors.ScanAuthors` | `Seen` and `Repeated` |
| `Report.BuildReport` | `ReportJson` |
| `Pipeline.CollectArticles` | `Collected` |
| `Pipeline.Analyse` | `Analysis` |

Lemmas then relate each specification function to an independent
description:

- `Store.MergeAllIsMerged`: one record per distinct link, in first-seen
  order, holding the first record's fields and every label ever seen for
  that link.
- `Authors.ScanMembers`: the names that occur at least twice.
- `Report.ArticlesByMembers`: a filter.
- `Report.ReportedAuthors`: the names reported.

Where a reader might expect set-like or per-article behaviour, the model
follows what `main` does:

- Section labels are a list. A label that arrives twice for the same link is
  kept twice (`Store.RepeatedLabelIsKept`); they are not merged as a set
  union.
- The repeated-author test counts occurrences of a name, not articles. An
  author field `A;A` makes `A` repeated by itself
  (`Authors.SameNameTwiceInOneArticle`).

## Model

| member | source | states |
|---|---|---|
| Strings.IndexOf | src/Main.kt:51 | the first position at or after `from` where the pattern occurs, none before it; `None` when it occurs nowhere after `from` |
| Strings.ReplaceFirstSpec | src/Main.kt:51 | `replaceFirst` returns the string unchanged when the pattern does not occur, and otherwise replaces only the first occurrence, keeping everything after it |
| Strings.Split | src/Main.kt:102 | `split` never returns an empty list, not even for an empty author field |
| Strings.SplitCount | src/Main.kt:102 | `split` returns one part more than there are delimiters, so empty segments are kept |
| Strings.SplitParts | src/Main.kt:102 | no part holds the delimiter |
| Strings.SplitThenJoin | src/Main.kt:102 | joining the parts with the delimiter gives the input back |
| Strings.SplitJoin | src/Main.kt:102 | splitting the join of delimiter-free parts gives those parts back (the other half of the round trip) |
| Extraction.ArticleOf | src/Main.kt:87-104 | reading a container fails with "no block" exactly when it has no block; it succeeds exactly when the first block has a supertitle and a title |
| Extraction.ArticleOfFields | src/Main.kt:93-103 | the record takes link, sub-section and content type from the first block's attributes and the section name as its only label; it takes supertitle and title from the first elements; it has a genre, the attribute's value, exactly when the attribute is present; its authors are the `;`-split of the author attribute: never empty, one more than the `;` count, no name holding `;`, joining back to the attribute |
| Extraction.NoAuthorAttribute | src/Main.kt:102 | a record has the single empty author name exactly when its first block has no author attribute or an empty one |
| Extraction.Collect | src/Main.kt:84-107 | a successful run yields one record per container |
| Extraction.CollectPositions | src/Main.kt:84-107 | on success the k-th record is the one read from the k-th container of the titled sections, in document order |
| Extraction.CollectFailsAtFirst | src/Main.kt:90-100 | the issue fails exactly when some container fails, and the error is the one of the first failing container, all earlier ones being readable |
| Extraction.CollectAppend | src/Main.kt:84-86 | reading two runs of containers one after the other is reading each and concatenating, the first error winning |
| Extraction.ParseIssueReadsFirstBlockOnly | src/Main.kt:88-102 | dropping every block after the first of each container changes nothing in the outcome: only `blocks[0]` is read, extra blocks are not an error |
| Extraction.ExtractArticles | src/Main.kt:77-108 | the loop over titled non-empty regions and their containers returns exactly `ParseIssue`: all records in order, or the first container's error |
| Extraction.ExtractSection | src/Main.kt:84-105 | the inner loop over one section's containers extends the records read so far by that section's records, or returns the error the whole issue ends with |
| Extraction.FailureIsFinal | src/Main.kt:90-95 | once a container cannot be read, the issue's outcome is that container's error, whatever follows |
| Store.IndexOfLink | src/Main.kt:18-19 | `contains`/`indexOf` under link equality: the first position holding the link, or none when no record has it |
| Store.UpsertSpec | src/Main.kt:18-22 | a record that `equals` (`SameArticle`, src/Main.kt:131-136) no stored record is appended at the end; otherwise the store keeps its length, the first stored record it `equals` gets the incoming labels appended, and every other record is unchanged |
| Store.MergeArticles | src/Main.kt:16-24 | the merge loop computes `MergeInto` and keeps links unique |
| Store.UpsertKeepsUnique | src/Main.kt:18-22 | one merge step keeps the stored links pairwise different |
| Store.MergeKeepsUnique | src/Main.kt:15-24 | merging any sequence into a store with unique links keeps them unique |
| Store.MergeLinks | src/Main.kt:15-24 | after merging, a link is stored exactly when it was stored before or came in |
| Store.MergeKeepsPlaces | src/Main.kt:18-21 | earlier records never move and change only by labels appended after their own |
| Store.MergeIntoAppend | src/Main.kt:16-17 | merging issue by issue is merging all their records at once |
| Store.MergeAllIsMerged | src/Main.kt:15-24 | the store built from nothing has one record per distinct incoming link, in first-seen order; each record is the first record with that link, carrying every label that came in for it, in arrival order |
| Store.MergeAllLinks | src/Main.kt:15-24 | the store's links are unique and are the incoming links in first-seen order |
| Store.RepeatedLabelIsKept | src/Main.kt:19 | the same record merged twice keeps its labels twice: `addAll` appends and does not form a union |
| Authors.ScanMembers | src/Main.kt:28-38 | a name is on `authors` exactly when it occurs at all and on `authorsTwice` exactly when it occurs at least twice; together the lists hold as many entries as there are occurrences |
| Authors.RepeatedNoDuplicates | src/Main.kt:32-33 | `authorsTwice` holds no name twice |
| Authors.RepeatedOrder | src/Main.kt:30-37 | `authorsTwice` is ordered by second occurrence: in any prefix where a later entry already occurred twice, every earlier entry did too |
| Authors.ScanStep | src/Main.kt:32-36 | one scan step puts a name on `authorsTwice` exactly when it is on `authors` and not yet on `authorsTwice`, and on `authors` otherwise |
| Authors.ScanNames | src/Main.kt:31-37 | the inner loop over one record's authors continues the scan: starting from `Seen`/`Repeated` of the names before, it ends with `Seen`/`Repeated` of those names followed by the record's |
| Authors.ScanAuthors | src/Main.kt:28-38 | the scan loop yields `Seen` and `Repeated` of all stored authors; `authorsTwice` is exactly the names occurring at least twice, without duplicates |
| Authors.SameNameTwiceInOneArticle | src/Main.kt:31-33 | one record naming the same author twice makes that author repeated |
| Report.LookupMissing | src/Main.kt:48-63 | reading a key of an object finds nothing exactly when no member has that key |
| Report.LookupAt | src/Main.kt:48-63 | reading the key of a member whose key no earlier member has gives that member's value |
| Report.PublicLinkOfMetaLink | src/Main.kt:51 | `http://xml.<rest>` becomes `https://<rest>` for every `rest`, e.g. `http://xml.zeit.de/2019/49/a` becomes `https://zeit.de/2019/49/a` |
| Report.DropHost | src/Main.kt:51 | in `http://xml.<rest>` the first `xml.` is the one after the scheme, so removing it gives `http://<rest>` |
| Report.UpgradeScheme | src/Main.kt:51 | in `http://<rest>` the first `http://` is the scheme, so the rewrite gives `https://<rest>` |
| Report.PublicLinkUnchanged | src/Main.kt:51 | a link holding neither `xml.` nor `http://` is published unchanged |
| Report.ArticleJsonKeys | src/Main.kt:48-63 | every article object has the keys link, ressorts, subRessort, contentType, superTitle, title in that order, then genre exactly when the record has one, with no key twice |
| Report.ArticleJsonFields | src/Main.kt:49-61 | the six fixed keys read back the rewritten link, the labels as a string array in order, and the record's sub-section, content type, supertitle and title |
| Report.ArticleJsonGenre | src/Main.kt:62-63 | the genre key reads back the genre when there is one and is absent otherwise (never null or empty) |
| Report.ArticlesByMembers | src/Main.kt:45 | the filter keeps exactly the stored records whose authors contain the name |
| Report.ArticlesByAppend | src/Main.kt:45 | the filter keeps store order |
| Report.ArticlesByNonEmpty | src/Main.kt:44-45 | a name among the stored authors has at least one article |
| Report.BuildArticleObject | src/Main.kt:48-64 | the article-object loop builds `ArticleJson` of the record |
| Report.BuildAuthorObject | src/Main.kt:45-70 | one round of the report loop builds `AuthorJson`: the name and the article objects of the filtered records, in store order |
| Report.BuildReport | src/Main.kt:42-72 | the report loop builds `ReportJson` of `authorsTwice` and the store |
| Report.ReportEntries | src/Main.kt:44-70 | the i-th author object names the i-th repeated author and lists, as article objects and in store order, exactly the filtered records, never an empty list |
| Report.ReportedAuthors | src/Main.kt:28-72 | a name has an author object in the report exactly when it occurs at least twice among the stored authors |
| Pipeline.CollectArticles | src/Main.kt:15-24 | the fetch-and-merge loop over the issues yields the merge of all records of all issues, with unique links, or the first issue's error |
| Pipeline.FetchAllFailureIsFinal | src/Main.kt:16-17 | once an issue cannot be read, later issues do not change the outcome |
| Pipeline.Analyse | src/Main.kt:13-75 | `main` yields `Analysis`: the report tree of the merged store, or the error that ends the run |
| Pipeline.FetchAllIsCollect | src/Main.kt:15-17 | reading the issues one after another gives the same outcome as reading all their containers (`AllJobs`) in a row |
| Pipeline.AnalysisFailsAtFirst | src/Main.kt:13-75 | there is a report exactly when every container of every issue can be read; otherwise the error is the one of the first container, across all issues in reading order, that cannot be read, all containers before it being readable |
| Pipeline.AnalysisReportsRepeatedAuthors | src/Main.kt:13-72 | a name is reported exactly when it occurs at least twice among the authors of the merged store |
| Pipeline.TwoIssueScenario | src/Main.kt:15-72 | two issues where author a writes one article in each and author b writes one article: the report holds one author object, for a, listing both articles in order, and b is absent |
| Pipeline.ScenarioStore | src/Main.kt:15-24 | three records with different links are stored as they come |
| Pipeline.ScenarioAuthors | src/Main.kt:28-45 | in that scenario only a is repeated, and a's articles are the first and the third |
| Pipeline.ScenarioRepeated | src/Main.kt:28-38 | in the author sequence a, b, a only a is repeated |

## Left out

- The HTTP download, URL building and ISO-8859-1 decoding (src/Main.kt:79, 110-114) are left out. Each issue's parsed regions are an input instead.
- Jsoup's HTML parsing, `getElementsByTag`, `hasAttr`, `childrenSize` and `text()` (src/Main.kt:82-87, 99-100) are left out. Regions come with their attributes, child count and containers; blocks come with their supertitle and title texts already extracted. Whitespace normalisation by `text()` is not modelled.
- Gson's JSON text and pretty-printing (src/Main.kt:11, 74) are left out. The report is the `Json` tree that would be printed. Gson replaces a value when a key is added twice; this never happens here (`Report.ArticleJsonKeys` shows all keys are different), so `Report.Lookup` reads the first member with a key.
- The `println` diagnostics (src/Main.kt:25, 39, 89, 91) are left out. This includes the warning for a container with several blocks, which has no effect on the result.
- The hard-coded issue list (src/Main.kt:8) is left out. The issues are a parameter.
- `hashCode` (src/Main.kt:127-129) is left out; only equality on the link is used. `equals` (src/Main.kt:131-136) is only ever called by `indexOf` between two non-null records. There its identity shortcut fires only for a record compared with itself, whose link trivially agrees, and its class test always passes. So `Articles.SameArticle` is link equality.
- The exception that ends a ZeitAnalyser run becomes a `Failure` value. It carries the section name and the container's position within the section, which the Kotlin program does not report.
- `ressorts` is a `MutableList` shared by reference, and `addAll` changes the stored record in place. The model replaces the stored record by one whose label list is longer. No other reference to the incoming record is kept, so no aliasing effect is lost.
- Report.PublicLinkOfMetaLink: a link such as `http://xml.zeit.de/2019/49/some-article` is covered by this lemma for every suffix, not stated as a lemma about that literal string.
