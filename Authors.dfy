/** The author comparison of `main`: one pass over every author of every
    stored record, keeping a list of names seen and a list of names seen
    twice. Occurrences are counted, not articles: a record whose author
    field names the same person twice puts that person on the second list
    by itself. */
module Authors {
  import opened Strings
  import opened Articles

  /** The authors of all records, record by record, each record's in order. */
  function Flatten(store: seq<Article>): (names: seq<string>)
    decreases |store|
  {
    if store == [] then []
    else Flatten(store[..|store| - 1]) + store[|store| - 1].authors
  }

  /** The names in the order of their second occurrence in `names`, each once. */
  function Repeated(names: seq<string>): seq<string>
    decreases |names|
  {
    if names == [] then []
    else
      var init := names[..|names| - 1];
      var x := names[|names| - 1];
      Repeated(init) + (if Count(init, x) == 1 then [x] else [])
  }

  /** The `authors` list of the scan: every occurrence but the second ones. */
  function Seen(names: seq<string>): seq<string>
    decreases |names|
  {
    if names == [] then []
    else
      var init := names[..|names| - 1];
      var x := names[|names| - 1];
      Seen(init) + (if Count(init, x) == 1 then [] else [x])
  }

  predicate NoDuplicates(s: seq<string>) {
    forall i, j :: 0 <= i < j < |s| ==> s[i] != s[j]
  }

  /** Counting over one more name. */
  lemma CountSnoc(s: seq<string>, x: string, y: string)
    ensures Count(s + [x], y) == Count(s, y) + (if x == y then 1 else 0)
  {
    CountAppend(s, [x], y);
    assert [x][1..] == [];
  }

  /** A name is on the seen list exactly when it occurs at all, and on the
      repeated list exactly when it occurs at least twice; every occurrence
      goes to exactly one of the two lists. */
  lemma {:induction false} ScanMembers(names: seq<string>)
    ensures forall y :: y in Seen(names) <==> Count(names, y) >= 1
    ensures forall y :: y in Repeated(names) <==> Count(names, y) >= 2
    ensures |Seen(names)| + |Repeated(names)| == |names|
    decreases |names|
  {
    if names != [] {
      var init := names[..|names| - 1];
      var x := names[|names| - 1];
      ScanMembers(init);
      assert names == init + [x];
      forall y ensures Count(names, y) == Count(init, y) + (if x == y then 1 else 0) {
        CountSnoc(init, x, y);
      }
    }
  }

  /** No name is reported twice. */
  lemma {:induction false} RepeatedNoDuplicates(names: seq<string>)
    ensures NoDuplicates(Repeated(names))
    decreases |names|
  {
    if names != [] {
      var init := names[..|names| - 1];
      var x := names[|names| - 1];
      RepeatedNoDuplicates(init);
      ScanMembers(init);
    }
  }

  /** Names are reported in the order in which they reach their second
      occurrence: whenever a later-reported name has occurred twice in a
      prefix, so has every name reported before it. */
  lemma {:induction false} RepeatedOrder(names: seq<string>)
    ensures forall i, j, k ::
      (0 <= i < j < |Repeated(names)| && 0 <= k <= |names| && Count(names[..k], Repeated(names)[j]) >= 2) ==>
        Count(names[..k], Repeated(names)[i]) >= 2
    decreases |names|
  {
    forall i, j, k | 0 <= i < j < |Repeated(names)| && 0 <= k <= |names| && Count(names[..k], Repeated(names)[j]) >= 2
      ensures Count(names[..k], Repeated(names)[i]) >= 2
    {
      RepeatedOrderAt(names, i, j, k);
    }
  }

  /** `RepeatedOrder` for one pair of positions and one prefix. */
  lemma {:induction false} RepeatedOrderAt(names: seq<string>, i: nat, j: nat, k: nat)
    requires i < j < |Repeated(names)| && k <= |names|
    requires Count(names[..k], Repeated(names)[j]) >= 2
    ensures Count(names[..k], Repeated(names)[i]) >= 2
    decreases |names|
  {
    var n := |names|;
    var init := names[..n - 1];
    var x := names[n - 1];
    var r := Repeated(names);
    assert r[i] == Repeated(init)[i];
    if k == n {
      assert names[..k] == names;
      ScanMembers(names);
      assert r[i] in r;
    } else {
      assert names[..k] == init[..k];
      if j < |Repeated(init)| {
        RepeatedOrderAt(init, i, j, k);
      } else {
        CountPrefix(init, k, x);
      }
    }
  }

  /** A prefix holds no more occurrences than the whole. */
  lemma {:induction false} CountPrefix(s: seq<string>, k: nat, y: string)
    requires k <= |s|
    ensures Count(s[..k], y) <= Count(s, y)
  {
    assert s == s[..k] + s[k..];
    CountAppend(s[..k], s[k..], y);
  }

  /** The authors of one more record come after the others. */
  lemma FlattenSnoc(store: seq<Article>, a: Article)
    ensures Flatten(store + [a]) == Flatten(store) + a.authors
  {
    assert (store + [a])[..|store|] == store;
  }

  /** One more name: the test the loop makes on its two lists is the test
      for a second occurrence. */
  lemma ScanStep(p: seq<string>, x: string)
    ensures Repeated(p + [x]) == Repeated(p) + (if x in Seen(p) && x !in Repeated(p) then [x] else [])
    ensures Seen(p + [x]) == Seen(p) + (if x in Seen(p) && x !in Repeated(p) then [] else [x])
  {
    ScanMembers(p);
    assert (p + [x])[..|p|] == p;
  }

  /** The author comparison loop of `main`, over every stored record in
      order. */
  method ScanAuthors(articles: seq<Article>) returns (authors: seq<string>, authorsTwice: seq<string>)
    ensures authors == Seen(Flatten(articles))
    ensures authorsTwice == Repeated(Flatten(articles))
    ensures forall y :: y in authorsTwice <==> Count(Flatten(articles), y) >= 2
    ensures NoDuplicates(authorsTwice)
  {
    authors, authorsTwice := [], [];
    var i := 0;
    while i < |articles|
      invariant 0 <= i <= |articles|
      invariant authors == Seen(Flatten(articles[..i]))
      invariant authorsTwice == Repeated(Flatten(articles[..i]))
    {
      assert articles[..i + 1] == articles[..i] + [articles[i]];
      FlattenSnoc(articles[..i], articles[i]);
      authors, authorsTwice := ScanNames(authors, authorsTwice, articles[i].authors, Flatten(articles[..i]));
      i := i + 1;
    }
    assert articles[..i] == articles;
    ScanMembers(Flatten(articles));
    RepeatedNoDuplicates(Flatten(articles));
  }

  /** The inner loop over one record's authors: a name goes on
      `authorsTwice` when it is on `authors` and not yet on `authorsTwice`,
      and on `authors` otherwise. `done` stands for the names scanned
      before. */
  method ScanNames(authors0: seq<string>, twice0: seq<string>, names: seq<string>, ghost done: seq<string>)
    returns (authors: seq<string>, authorsTwice: seq<string>)
    requires authors0 == Seen(done) && twice0 == Repeated(done)
    ensures authors == Seen(done + names) && authorsTwice == Repeated(done + names)
  {
    authors, authorsTwice := authors0, twice0;
    ghost var p := done;
    var j := 0;
    assert done + names[..j] == done;
    while j < |names|
      invariant 0 <= j <= |names|
      invariant p == done + names[..j]
      invariant authors == Seen(p) && authorsTwice == Repeated(p)
    {
      var author := names[j];
      ScanStep(p, author);
      TakeOneMore(done, names, j);
      if author in authors && author !in authorsTwice {
        authorsTwice := authorsTwice + [author];
      } else {
        authors := authors + [author];
      }
      p := p + [author];
      j := j + 1;
    }
    assert names[..j] == names;
  }

  /** Counting occurrences rather than articles: a single record listing
      the same name twice makes that name a repeated author. */
  lemma SameNameTwiceInOneArticle(a: Article, name: string)
    requires a.authors == [name, name]
    ensures Repeated(Flatten([a])) == [name]
  {
    assert [a][..0] == [];
    assert Flatten([a]) == [name, name];
    assert [name, name][..1] == [name];
    assert [name][..0] == [];
    assert Repeated([name]) == [];
    assert Count([name], name) == 1;
  }
}
