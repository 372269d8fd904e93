/** `main` as a whole: every issue is read and merged into the store in
    turn, the repeated authors are found, and the report is assembled. The
    downloaded and parsed issue documents are an input here: each issue is
    given as the regions its index page holds. */
module Pipeline {
  import opened Wrappers
  import opened Strings
  import opened Articles
  import opened Extraction
  import opened Store
  import opened Authors
  import opened Report

  /** The records of all issues in reading order, or the first error. */
  function FetchAll(issues: seq<seq<Region>>): Result<seq<Article>, ExtractError>
    decreases |issues|
  {
    if issues == [] then Success([])
    else Concat(FetchAll(issues[..|issues| - 1]), ParseIssue(issues[|issues| - 1]))
  }

  /** Every container of every issue, in the order `main` reads them. */
  function AllJobs(issues: seq<seq<Region>>): seq<Job>
    decreases |issues|
  {
    if issues == [] then []
    else AllJobs(issues[..|issues| - 1]) + Jobs(issues[|issues| - 1])
  }

  /** Reading the issues one by one is reading all their containers in a
      row: the first error, else all records in reading order. */
  lemma {:induction false} FetchAllIsCollect(issues: seq<seq<Region>>)
    ensures FetchAll(issues) == Collect(AllJobs(issues))
    decreases |issues|
  {
    if issues != [] {
      var front := issues[..|issues| - 1];
      FetchAllIsCollect(front);
      CollectAppend(AllJobs(front), Jobs(issues[|issues| - 1]));
    }
  }

  /** The store `main` holds after the fetch loop, or the error it dies of. */
  function Collected(issues: seq<seq<Region>>): Result<seq<Article>, ExtractError> {
    match FetchAll(issues)
    case Failure(e) => Failure(e)
    case Success(incoming) => Success(MergeAll(incoming))
  }

  /** What `main` prints, as a tree, or the error that ends the run before
      anything is printed. */
  function Analysis(issues: seq<seq<Region>>): Result<Json, ExtractError> {
    match Collected(issues)
    case Failure(e) => Failure(e)
    case Success(store) => Success(ReportJson(Repeated(Flatten(store)), store))
  }

  /** The fetch loop of `main`: each issue's records are merged into the
      store as soon as the issue is read; an issue that cannot be read ends
      the run. */
  method CollectArticles(issues: seq<seq<Region>>) returns (r: Result<seq<Article>, ExtractError>)
    ensures r == Collected(issues)
    ensures r.Success? ==> UniqueLinks(r.value)
  {
    var articles: seq<Article> := [];
    ghost var fetched: seq<Article> := [];
    var i := 0;
    while i < |issues|
      invariant 0 <= i <= |issues|
      invariant FetchAll(issues[..i]) == Success(fetched)
      invariant articles == MergeAll(fetched)
      invariant UniqueLinks(articles)
    {
      FetchAllStep(issues, i);
      var res := ExtractArticles(issues[i]);
      if res.Failure? {
        FetchAllFailureIsFinal(issues, i + 1);
        return Failure(res.error);
      }
      MergeIntoAppend([], fetched, res.value);
      articles := MergeArticles(articles, res.value);
      fetched := fetched + res.value;
      i := i + 1;
    }
    assert issues[..i] == issues;
    r := Success(articles);
  }

  /** Reading one more issue. */
  lemma FetchAllStep(issues: seq<seq<Region>>, i: nat)
    requires i < |issues|
    ensures FetchAll(issues[..i + 1]) == Concat(FetchAll(issues[..i]), ParseIssue(issues[i]))
  {
    assert issues[..i + 1][..i] == issues[..i];
    assert issues[..i + 1][i] == issues[i];
  }

  /** Once an issue cannot be read, later issues change nothing: the run
      ends with that error. */
  lemma {:induction false} FetchAllFailureIsFinal(issues: seq<seq<Region>>, n: nat)
    requires n <= |issues|
    requires FetchAll(issues[..n]).Failure?
    ensures FetchAll(issues) == FetchAll(issues[..n])
    decreases |issues| - n
  {
    if n < |issues| {
      FetchAllStep(issues, n);
      FetchAllFailureIsFinal(issues, n + 1);
    } else {
      assert issues[..n] == issues;
    }
  }

  /** `main`: collect, scan the authors, assemble the report. */
  method Analyse(issues: seq<seq<Region>>) returns (r: Result<Json, ExtractError>)
    ensures r == Analysis(issues)
  {
    var collected := CollectArticles(issues);
    if collected.Failure? {
      return Failure(collected.error);
    }
    var articles := collected.value;
    var authors, authorsTwice := ScanAuthors(articles);
    var root := BuildReport(authorsTwice, articles);
    r := Success(root);
  }

  /** The report exists exactly when every container of every issue can
      be read; otherwise the error is the one of the first container, across
      all issues in reading order, that cannot be read. */
  lemma AnalysisFailsAtFirst(issues: seq<seq<Region>>)
    ensures var jobs := AllJobs(issues);
      Analysis(issues).Failure? <==> exists k :: 0 <= k < |jobs| && ArticleOf(jobs[k]).Failure?
    ensures var jobs := AllJobs(issues);
      Analysis(issues).Failure? ==>
        exists k :: 0 <= k < |jobs| && ArticleOf(jobs[k]) == Failure(Analysis(issues).error) &&
          forall j :: 0 <= j < k ==> ArticleOf(jobs[j]).Success?
  {
    FetchAllIsCollect(issues);
    CollectFailsAtFirst(AllJobs(issues));
  }

  /** An author is listed in the report exactly when the name occurs at
      least twice among the authors of the merged store. */
  lemma AnalysisReportsRepeatedAuthors(issues: seq<seq<Region>>, name: string)
    requires FetchAll(issues).Success?
    ensures var store := MergeAll(FetchAll(issues).value);
      var items := Analysis(issues).value.members[0].1.items;
      (exists i :: 0 <= i < |items| && items[i].members[0] == ("name", JString(name)))
        <==> Count(Flatten(store), name) >= 2
  {
    var store := MergeAll(FetchAll(issues).value);
    assert Analysis(issues) == Success(ReportJson(Repeated(Flatten(store)), store));
    ReportedAuthors(store, name);
  }

  /** Two issues in which one author writes one article each (under
      different links) and another author writes a single article: the
      report has exactly one entry, for the first author, listing both
      articles in reading order; the other author is absent. */
  lemma TwoIssueScenario(x: Article, y: Article, z: Article, a: string, b: string)
    requires a != b
    requires x.authors == [a] && y.authors == [b] && z.authors == [a]
    requires x.metaLink != y.metaLink && x.metaLink != z.metaLink && y.metaLink != z.metaLink
    ensures var store := MergeAll([x, y] + [z]);
      && store == [x, y, z]
      && ReportJson(Repeated(Flatten(store)), store) ==
           JObject([("authors", JArray([
             JObject([("name", JString(a)), ("articles", JArray([ArticleJson(x), ArticleJson(z)]))])]))])
  {
    ScenarioStore(x, y, z);
    ScenarioAuthors(x, y, z, a, b);
    var store := [x, y, z];
    var author := AuthorJson(a, store);
    var items := author.members[1].1.items;
    assert |items| == 2 && items[0] == ArticleJson(x) && items[1] == ArticleJson(z);
    assert items == [ArticleJson(x), ArticleJson(z)];
    var entries := ReportJson(Repeated(Flatten(store)), store).members[0].1.items;
    assert |entries| == 1 && entries[0] == author;
    assert entries == [author];
  }

  /** Three records with different links are stored as they come. */
  lemma ScenarioStore(x: Article, y: Article, z: Article)
    requires x.metaLink != y.metaLink && x.metaLink != z.metaLink && y.metaLink != z.metaLink
    ensures MergeAll([x, y] + [z]) == [x, y, z]
  {
    var xs, xy, xyz := [x], [x, y], [x, y, z];
    assert [x, y] + [z] == xyz;
    assert xyz[..2] == xy && xy[..1] == xs && xs[..0] == [];
    assert MergeInto([], xs) == xs by {
      assert Upsert([], x) == [] + [x];
    }
    assert MergeInto([], xy) == xy;
  }

  /** In that store only the first author is repeated, and the records
      listing that author are the first and the third. */
  lemma ScenarioAuthors(x: Article, y: Article, z: Article, a: string, b: string)
    requires a != b
    requires x.authors == [a] && y.authors == [b] && z.authors == [a]
    ensures Repeated(Flatten([x, y, z])) == [a]
    ensures ArticlesBy([x, y, z], a) == [x, z]
  {
    ScenarioFlatten(x, y, z);
    assert [a] + [b] + [a] == [a, b, a];
    ScenarioRepeated(a, b);
    ScenarioArticlesBy(x, y, z, a);
  }

  lemma ScenarioFlatten(x: Article, y: Article, z: Article)
    ensures Flatten([x, y, z]) == x.authors + y.authors + z.authors
  {
    assert [] + [x] == [x] && [x] + [y] == [x, y] && [x, y] + [z] == [x, y, z];
    FlattenSnoc([], x);
    FlattenSnoc([x], y);
    FlattenSnoc([x, y], z);
  }

  lemma ScenarioArticlesBy(x: Article, y: Article, z: Article, a: string)
    requires a in x.authors && a !in y.authors && a in z.authors
    ensures ArticlesBy([x, y, z], a) == [x, z]
  {
    assert [] + [x] == [x] && [x] + [y] == [x, y] && [x, y] + [z] == [x, y, z];
    ArticlesBySnoc([], x, a);
    ArticlesBySnoc([x], y, a);
    ArticlesBySnoc([x, y], z, a);
  }

  /** In `a, b, a` only `a` occurs twice. */
  lemma ScenarioRepeated(a: string, b: string)
    requires a != b
    ensures Repeated([a, b, a]) == [a]
  {
    var ab, aba := [a, b], [a, b, a];
    assert aba[..2] == ab && ab[..1] == [a] && [a][..0] == [];
    assert Count([a], b) == 0 && Count(ab, a) == 1;
    assert Repeated([a]) == [] by {
      assert Repeated([]) == [];
    }
    assert Repeated(ab) == [];
  }
}
