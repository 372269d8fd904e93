/** `fetchArticles` without the network and without the HTML parser: an
    issue's index document is given as the list of its `region` elements,
    each with its attributes, its number of child elements and its
    `container` elements; a container holds its `block` elements, and a
    block its attributes and the texts of its `supertitle` and `title`
    descendants, all in document order. */
module Extraction {
  import opened Wrappers
  import opened Strings
  import opened Articles

  datatype Block = Block(attrs: map<string, string>, supertitles: seq<string>, titles: seq<string>)

  datatype Container = Container(blocks: seq<Block>)

  datatype Region = Region(attrs: map<string, string>, childCount: nat, containers: seq<Container>)

  /** Where ZeitAnalyser crashes, naming the section and the container's
      position in it: no block at all, or a first block without a
      `supertitle` or without a `title`. */
  datatype ExtractError =
    | NoBlock(ressort: string, container: nat)
    | NoSuperTitle(ressort: string, container: nat)
    | NoTitle(ressort: string, container: nat)

  /** One container to turn into an article, with the label of its section. */
  datatype Job = Job(ressort: string, container: Container, index: nat)

  /** Jsoup's `attr`: the value, or the empty string when it is absent. */
  function Attr(attrs: map<string, string>, key: string): (v: string)
    ensures key !in attrs ==> v == ""
    ensures key in attrs ==> v == attrs[key]
  {
    if key in attrs then attrs[key] else ""
  }

  /** A region counts as a section when it has a `title` and a child. */
  predicate IsSection(r: Region) {
    "title" in r.attrs && r.childCount > 0
  }

  /** The article of one container, read from its first block only. */
  function ArticleOf(job: Job): (r: Result<Article, ExtractError>)
    ensures job.container.blocks == [] <==> r == Failure(NoBlock(job.ressort, job.index))
    ensures r.Success? <==>
      job.container.blocks != [] &&
      job.container.blocks[0].supertitles != [] && job.container.blocks[0].titles != []
  {
    var blocks := job.container.blocks;
    if blocks == [] then Failure(NoBlock(job.ressort, job.index))
    else
      var b := blocks[0];
      if b.supertitles == [] then Failure(NoSuperTitle(job.ressort, job.index))
      else if b.titles == [] then Failure(NoTitle(job.ressort, job.index))
      else Success(Article(
        Attr(b.attrs, "href"),
        [job.ressort],
        Attr(b.attrs, "ressort"),
        Attr(b.attrs, "contenttype"),
        b.supertitles[0],
        b.titles[0],
        if "genre" in b.attrs then Some(b.attrs["genre"]) else None,
        Split(Attr(b.attrs, "author"), ';')))
  }

  /** A record read from a block carries the block's link, sub-section
      and content type, its section as the only label, a genre exactly
      when the block has one, and the author field split into one name per
      `;`-separated segment. */
  lemma ArticleOfFields(job: Job)
    requires ArticleOf(job).Success?
    ensures var b := job.container.blocks[0];
      var a := ArticleOf(job).value;
      && a.metaLink == Attr(b.attrs, "href")
      && a.ressorts == [job.ressort]
      && a.subRessort == Attr(b.attrs, "ressort")
      && a.contentType == Attr(b.attrs, "contenttype")
      && (a.genre.Some? <==> "genre" in b.attrs)
      && (a.genre.Some? ==> a.genre.value == b.attrs["genre"])
      && a.superTitle == b.supertitles[0] && a.title == b.titles[0]
      && a.authors != []
      && Join(a.authors, ';') == Attr(b.attrs, "author")
      && |a.authors| == Count(Attr(b.attrs, "author"), ';') + 1
      && forall k :: 0 <= k < |a.authors| ==> ';' !in a.authors[k]
  {
    var field := Attr(job.container.blocks[0].attrs, "author");
    SplitCount(field, ';');
    SplitParts(field, ';');
    SplitThenJoin(field, ';');
  }

  /** A block without an author attribute, or with an empty one, still
      yields one author: the empty name. That is the only way a record gets
      the author list `[""]`. */
  lemma NoAuthorAttribute(job: Job)
    requires ArticleOf(job).Success?
    ensures ArticleOf(job).value.authors == [""] <==> Attr(job.container.blocks[0].attrs, "author") == ""
  {
    ArticleOfFields(job);
    var a := ArticleOf(job).value;
    if a.authors == [""] {
      assert Join(a.authors, ';') == "";
    }
  }

  /** The containers of one region, labelled with its title. */
  function RegionJobs(r: Region): seq<Job>
    requires IsSection(r)
  {
    seq(|r.containers|, i requires 0 <= i < |r.containers| => Job(r.attrs["title"], r.containers[i], i))
  }

  /** All containers of an issue in the order `fetchArticles` visits them:
      sections in document order, each section's containers in order. */
  function Jobs(regions: seq<Region>): seq<Job>
    decreases |regions|
  {
    if regions == [] then []
    else
      var last := regions[|regions| - 1];
      Jobs(regions[..|regions| - 1]) + (if IsSection(last) then RegionJobs(last) else [])
  }

  /** Two extraction outcomes in sequence: the first error, if any, else
      the two article lists one after the other. */
  function Concat(r1: Result<seq<Article>, ExtractError>, r2: Result<seq<Article>, ExtractError>): (r: Result<seq<Article>, ExtractError>)
    ensures r.Success? <==> r1.Success? && r2.Success?
    ensures r1.Failure? ==> r == r1
    ensures r1.Success? && r2.Failure? ==> r == r2
    ensures r.Success? ==> r.value == r1.value + r2.value
  {
    match r1
    case Failure(e) => Failure(e)
    case Success(front) =>
      match r2
      case Failure(e) => Failure(e)
      case Success(back) => Success(front + back)
  }

  /** The outcome of a single job, as a list of at most one article. */
  function One(job: Job): Result<seq<Article>, ExtractError> {
    match ArticleOf(job)
    case Failure(e) => Failure(e)
    case Success(a) => Success([a])
  }

  /** The articles of a list of jobs, or the error of the first one that fails. */
  function Collect(jobs: seq<Job>): (r: Result<seq<Article>, ExtractError>)
    ensures r.Success? ==> |r.value| == |jobs|
  {
    if jobs == [] then Success([]) else Concat(One(jobs[0]), Collect(jobs[1..]))
  }

  /** On success, the k-th article is the one read from the k-th container. */
  lemma {:induction false} CollectPositions(jobs: seq<Job>)
    requires Collect(jobs).Success?
    ensures forall k :: 0 <= k < |jobs| ==> ArticleOf(jobs[k]) == Success(Collect(jobs).value[k])
  {
    if jobs != [] {
      CollectPositions(jobs[1..]);
      forall k | 0 < k < |jobs| ensures ArticleOf(jobs[k]) == Success(Collect(jobs).value[k]) {
        assert jobs[k] == jobs[1..][k - 1];
      }
    }
  }

  /** What `fetchArticles` returns for an issue, or the error it dies of. */
  function ParseIssue(regions: seq<Region>): Result<seq<Article>, ExtractError> {
    Collect(Jobs(regions))
  }

  lemma ConcatAssociative(r1: Result<seq<Article>, ExtractError>, r2: Result<seq<Article>, ExtractError>, r3: Result<seq<Article>, ExtractError>)
    ensures Concat(Concat(r1, r2), r3) == Concat(r1, Concat(r2, r3))
  {
    if r1.Success? && r2.Success? && r3.Success? {
      assert (r1.value + r2.value) + r3.value == r1.value + (r2.value + r3.value);
    }
  }

  /** Collecting a concatenation: the first part's error, else the second
      part's error, else both article lists one after the other. */
  lemma {:induction false} CollectAppend(xs: seq<Job>, ys: seq<Job>)
    ensures Collect(xs + ys) == Concat(Collect(xs), Collect(ys))
  {
    if xs == [] {
      assert xs + ys == ys;
      assert Concat(Success([]), Collect(ys)) == Collect(ys) by {
        if Collect(ys).Success? { assert [] + Collect(ys).value == Collect(ys).value; }
      }
    } else {
      assert (xs + ys)[1..] == xs[1..] + ys;
      assert (xs + ys)[0] == xs[0];
      CollectAppend(xs[1..], ys);
      ConcatAssociative(One(xs[0]), Collect(xs[1..]), Collect(ys));
    }
  }

  /** The first failing container decides the error: every job before it
      succeeds. Extraction fails exactly when some container fails. */
  lemma {:induction false} CollectFailsAtFirst(jobs: seq<Job>)
    ensures Collect(jobs).Failure? <==> exists k :: 0 <= k < |jobs| && ArticleOf(jobs[k]).Failure?
    ensures Collect(jobs).Failure? ==>
      exists k :: 0 <= k < |jobs| && ArticleOf(jobs[k]) == Failure(Collect(jobs).error) &&
        forall j :: 0 <= j < k ==> ArticleOf(jobs[j]).Success?
  {
    if jobs != [] {
      CollectFailsAtFirst(jobs[1..]);
      if ArticleOf(jobs[0]).Success? && Collect(jobs[1..]).Failure? {
        var k :| 0 <= k < |jobs[1..]| && ArticleOf(jobs[1..][k]) == Failure(Collect(jobs[1..]).error) &&
          forall j :: 0 <= j < k ==> ArticleOf(jobs[1..][j]).Success?;
        assert ArticleOf(jobs[k + 1]) == Failure(Collect(jobs).error);
        forall j | 0 <= j < k + 1 ensures ArticleOf(jobs[j]).Success? {
          if j > 0 { assert jobs[j] == jobs[1..][j - 1]; }
        }
      }
      if ArticleOf(jobs[0]).Success? && Collect(jobs[1..]).Success? {
        forall k | 0 <= k < |jobs| ensures ArticleOf(jobs[k]).Success? {
          if k > 0 { assert jobs[k] == jobs[1..][k - 1]; }
        }
      }
    }
  }

  /** Only a container's first block is read: dropping the others changes
      nothing in the outcome. */
  function FirstBlockOnly(r: Region): Region {
    r.(containers := seq(|r.containers|, i requires 0 <= i < |r.containers| =>
      Container(r.containers[i].blocks[..if r.containers[i].blocks == [] then 0 else 1])))
  }

  lemma {:induction false} ParseIssueReadsFirstBlockOnly(regions: seq<Region>)
    ensures ParseIssue(regions) == ParseIssue(seq(|regions|, i requires 0 <= i < |regions| => FirstBlockOnly(regions[i])))
  {
    var trimmed := seq(|regions|, i requires 0 <= i < |regions| => FirstBlockOnly(regions[i]));
    JobsFirstBlockOnly(regions);
    CollectFirstBlockOnly(Jobs(regions), Jobs(trimmed));
  }

  lemma {:induction false} JobsFirstBlockOnly(regions: seq<Region>)
    ensures var trimmed := seq(|regions|, i requires 0 <= i < |regions| => FirstBlockOnly(regions[i]));
      |Jobs(trimmed)| == |Jobs(regions)| &&
      forall k :: 0 <= k < |Jobs(regions)| ==> SameFirstBlock(Jobs(regions)[k], Jobs(trimmed)[k])
    decreases |regions|
  {
    var trimmed := seq(|regions|, i requires 0 <= i < |regions| => FirstBlockOnly(regions[i]));
    if regions != [] {
      var init := regions[..|regions| - 1];
      var last := regions[|regions| - 1];
      JobsFirstBlockOnly(init);
      assert trimmed[..|trimmed| - 1] == seq(|init|, i requires 0 <= i < |init| => FirstBlockOnly(init[i]));
      assert trimmed[|trimmed| - 1] == FirstBlockOnly(last);
    }
  }

  /** Two jobs that agree on everything the extraction reads. */
  predicate SameFirstBlock(x: Job, y: Job) {
    x.ressort == y.ressort && x.index == y.index &&
    (x.container.blocks == [] <==> y.container.blocks == []) &&
    (x.container.blocks != [] ==> x.container.blocks[0] == y.container.blocks[0])
  }

  lemma {:induction false} CollectFirstBlockOnly(xs: seq<Job>, ys: seq<Job>)
    requires |xs| == |ys|
    requires forall k :: 0 <= k < |xs| ==> SameFirstBlock(xs[k], ys[k])
    ensures Collect(xs) == Collect(ys)
  {
    if xs != [] {
      assert ArticleOf(xs[0]) == ArticleOf(ys[0]);
      CollectFirstBlockOnly(xs[1..], ys[1..]);
    }
  }

  /** `fetchArticles`' outer loop: the sections in document order, every
      other region skipped; the first container that cannot be read ends
      the run. */
  method ExtractArticles(regions: seq<Region>) returns (r: Result<seq<Article>, ExtractError>)
    ensures r == ParseIssue(regions)
  {
    var articles: seq<Article> := [];
    var i := 0;
    while i < |regions|
      invariant 0 <= i <= |regions|
      invariant Collect(Jobs(regions[..i])) == Success(articles)
    {
      JobsStep(regions, i);
      if IsSection(regions[i]) {
        var res := ExtractSection(regions, i, articles);
        if res.Failure? {
          return res;
        }
        articles := res.value;
      } else {
        assert Jobs(regions[..i]) + [] == Jobs(regions[..i]);
      }
      i := i + 1;
    }
    assert regions[..i] == regions;
    return Success(articles);
  }

  /** `fetchArticles`' inner loop over the containers of the section
      `regions[i]`, adding one article per container to `articles`, the
      articles of the earlier sections. */
  method ExtractSection(regions: seq<Region>, i: nat, articles: seq<Article>) returns (r: Result<seq<Article>, ExtractError>)
    requires i < |regions| && IsSection(regions[i])
    requires Collect(Jobs(regions[..i])) == Success(articles)
    ensures r.Failure? ==> r == ParseIssue(regions)
    ensures r.Success? ==> r == Collect(Jobs(regions[..i]) + RegionJobs(regions[i]))
  {
    var region := regions[i];
    var ressortName := region.attrs["title"];
    ghost var done := Jobs(regions[..i]);
    ghost var jobs := RegionJobs(region);
    var added := articles;
    var j := 0;
    assert done + jobs[..j] == done;
    while j < |region.containers|
      invariant 0 <= j <= |region.containers|
      invariant Collect(done + jobs[..j]) == Success(added)
    {
      var job := Job(ressortName, region.containers[j], j);
      assert job == jobs[j];
      var article := ArticleOf(job);
      if article.Failure? {
        FailureIsFinal(regions, i, j);
        return Failure(article.error);
      }
      CollectStep(done + jobs[..j], job);
      TakeOneMore(done, jobs, j);
      added := added + [article.value];
      j := j + 1;
    }
    assert jobs[..j] == jobs;
    return Success(added);
  }

  /** One more successful job adds its article at the end. */
  lemma CollectStep(jobs: seq<Job>, job: Job)
    requires Collect(jobs).Success? && ArticleOf(job).Success?
    ensures Collect(jobs + [job]) == Success(Collect(jobs).value + [ArticleOf(job).value])
  {
    CollectAppend(jobs, [job]);
    assert [job][0] == job && [job][1..] == [];
    assert Collect([job]) == Concat(One(job), Collect([]));
    assert [ArticleOf(job).value] + [] == [ArticleOf(job).value];
  }

  /** The jobs of one more region are those of the region appended. */
  lemma JobsStep(regions: seq<Region>, i: nat)
    requires i < |regions|
    ensures Jobs(regions[..i + 1]) == Jobs(regions[..i]) + (if IsSection(regions[i]) then RegionJobs(regions[i]) else [])
  {
    assert regions[..i + 1][..i] == regions[..i];
    assert regions[..i + 1][i] == regions[i];
  }

  /** A container that fails while the ones before it succeeded decides
      the outcome of the whole issue. */
  lemma FailureIsFinal(regions: seq<Region>, i: nat, j: nat)
    requires i < |regions| && IsSection(regions[i]) && j < |regions[i].containers|
    requires Collect(Jobs(regions[..i]) + RegionJobs(regions[i])[..j]).Success?
    requires ArticleOf(RegionJobs(regions[i])[j]).Failure?
    ensures ParseIssue(regions) == Failure(ArticleOf(RegionJobs(regions[i])[j]).error)
  {
    var jobs := RegionJobs(regions[i]);
    var front := Jobs(regions[..i]) + jobs[..j];
    var tail := JobsAfter(regions, i, j);
    CollectFailsAt(front, jobs[j], tail);
  }

  /** The jobs of an issue split around the `j`-th container of region `i`:
      what comes before it, the container itself, and what follows. */
  lemma JobsAfter(regions: seq<Region>, i: nat, j: nat) returns (tail: seq<Job>)
    requires i < |regions| && IsSection(regions[i]) && j < |regions[i].containers|
    ensures Jobs(regions) ==
      (Jobs(regions[..i]) + RegionJobs(regions[i])[..j]) + ([RegionJobs(regions[i])[j]] + tail)
  {
    var pre := Jobs(regions[..i]);
    var jobs := RegionJobs(regions[i]);
    JobsStep(regions, i);
    JobsPrefix(regions, i + 1);
    var all := Jobs(regions);
    var rest := all[|pre + jobs|..];
    assert all == (pre + jobs) + rest;
    tail := jobs[j + 1..] + rest;
    assert jobs == jobs[..j] + ([jobs[j]] + jobs[j + 1..]);
  }

  /** A failing job after successful ones ends the run with its error. */
  lemma CollectFailsAt(front: seq<Job>, job: Job, tail: seq<Job>)
    requires Collect(front).Success?
    requires ArticleOf(job).Failure?
    ensures Collect(front + ([job] + tail)) == Failure(ArticleOf(job).error)
  {
    CollectAppend(front, [job] + tail);
    assert ([job] + tail)[0] == job && ([job] + tail)[1..] == tail;
  }

  /** The jobs of a prefix of the regions are a prefix of all the jobs. */
  lemma {:induction false} JobsPrefix(regions: seq<Region>, n: nat)
    requires n <= |regions|
    ensures |Jobs(regions[..n])| <= |Jobs(regions)|
    ensures Jobs(regions)[..|Jobs(regions[..n])|] == Jobs(regions[..n])
    decreases |regions|
  {
    if n < |regions| {
      var init := regions[..|regions| - 1];
      assert init[..n] == regions[..n];
      JobsPrefix(init, n);
    } else {
      assert regions[..n] == regions;
    }
  }
}
