/** The article store of `main`: records are appended unless one with the
    same link is already stored, in which case the incoming section labels
    are appended to the stored record's list. */
module Store {
  import opened Wrappers
  import opened Articles

  /** The links of the stored records, in store order. */
  function Links(store: seq<Article>): seq<string> {
    seq(|store|, i requires 0 <= i < |store| => store[i].metaLink)
  }

  /** No two stored records are the same article. */
  predicate UniqueLinks(store: seq<Article>) {
    forall i, j :: 0 <= i < j < |store| ==> store[i].metaLink != store[j].metaLink
  }

  /** `articles.indexOf(article)` under `ArticleObject.equals`: the first
      position holding a record with the given link. */
  function IndexOfLink(store: seq<Article>, link: string): (r: Option<nat>)
    ensures r.Some? ==> r.value < |store| && store[r.value].metaLink == link
    ensures r.Some? ==> forall j :: 0 <= j < r.value ==> store[j].metaLink != link
    ensures r.None? ==> forall j :: 0 <= j < |store| ==> store[j].metaLink != link
  {
    if store == [] then None
    else if store[0].metaLink == link then Some(0)
    else match IndexOfLink(store[1..], link)
      case None => None
      case Some(i) => Some(i + 1)
  }

  /** One step of the merge loop. */
  function Upsert(store: seq<Article>, a: Article): seq<Article> {
    match IndexOfLink(store, a.metaLink)
    case None => store + [a]
    case Some(i) => store[i := store[i].(ressorts := store[i].ressorts + a.ressorts)]
  }

  /** A record that `equals` no stored record is appended; otherwise the
      first stored record it `equals` gets the incoming labels appended to
      its own, and nothing else changes. */
  lemma UpsertSpec(store: seq<Article>, a: Article)
    ensures (forall j :: 0 <= j < |store| ==> !SameArticle(store[j], a)) ==> Upsert(store, a) == store + [a]
    ensures forall i ::
      (0 <= i < |store| && SameArticle(store[i], a) &&
       forall j :: 0 <= j < i ==> !SameArticle(store[j], a)) ==>
        var r := Upsert(store, a);
        |r| == |store| &&
        r[i] == store[i].(ressorts := store[i].ressorts + a.ressorts) &&
        forall j :: 0 <= j < |store| && j != i ==> r[j] == store[j]
  {
  }

  /** The store after feeding it `incoming`, one record at a time. */
  function MergeInto(store: seq<Article>, incoming: seq<Article>): seq<Article>
    decreases |incoming|
  {
    if incoming == [] then store
    else Upsert(MergeInto(store, incoming[..|incoming| - 1]), incoming[|incoming| - 1])
  }

  /** The store built from nothing. */
  function MergeAll(incoming: seq<Article>): seq<Article> {
    MergeInto([], incoming)
  }

  /** The merge loop of `main` for one issue's records: `contains`/`indexOf`
      find the stored record with the same link, whose labels then grow by
      `addAll`; otherwise the record is added at the end. */
  method MergeArticles(store: seq<Article>, incoming: seq<Article>) returns (articles: seq<Article>)
    ensures articles == MergeInto(store, incoming)
    ensures UniqueLinks(store) ==> UniqueLinks(articles)
  {
    articles := store;
    var k := 0;
    while k < |incoming|
      invariant 0 <= k <= |incoming|
      invariant articles == MergeInto(store, incoming[..k])
    {
      var article := incoming[k];
      MergeIntoStep(store, incoming, k);
      match IndexOfLink(articles, article.metaLink) {
        case Some(i) =>
          articles := articles[i := articles[i].(ressorts := articles[i].ressorts + article.ressorts)];
        case None =>
          articles := articles + [article];
      }
      k := k + 1;
    }
    assert incoming[..k] == incoming;
    if UniqueLinks(store) {
      MergeKeepsUnique(store, incoming);
    }
  }

  /** The loop's view of `MergeInto`: one more incoming record is one
      more step. */
  lemma MergeIntoStep(store: seq<Article>, incoming: seq<Article>, k: nat)
    requires k < |incoming|
    ensures MergeInto(store, incoming[..k + 1]) == Upsert(MergeInto(store, incoming[..k]), incoming[k])
  {
    assert incoming[..k + 1][..k] == incoming[..k];
  }

  // ---------------------------------------------------------------------
  // Invariants kept by merging

  lemma UpsertKeepsUnique(store: seq<Article>, a: Article)
    requires UniqueLinks(store)
    ensures UniqueLinks(Upsert(store, a))
  {
    UpsertSpec(store, a);
  }

  /** Merging never creates a second record for a link. */
  lemma {:induction false} MergeKeepsUnique(store: seq<Article>, incoming: seq<Article>)
    requires UniqueLinks(store)
    ensures UniqueLinks(MergeInto(store, incoming))
    decreases |incoming|
  {
    if incoming != [] {
      MergeKeepsUnique(store, incoming[..|incoming| - 1]);
      UpsertKeepsUnique(MergeInto(store, incoming[..|incoming| - 1]), incoming[|incoming| - 1]);
    }
  }

  /** The stored links: the old ones and every incoming one, and nothing
      else. */
  lemma {:induction false} MergeLinks(store: seq<Article>, incoming: seq<Article>, l: string)
    ensures l in Links(MergeInto(store, incoming)) <==> l in Links(store) || l in Links(incoming)
    decreases |incoming|
  {
    if incoming != [] {
      var init := incoming[..|incoming| - 1];
      var a := incoming[|incoming| - 1];
      var before := MergeInto(store, init);
      MergeLinks(store, init, l);
      assert Links(incoming) == Links(init) + [a.metaLink];
      match IndexOfLink(before, a.metaLink) {
        case None =>
          assert Links(before + [a]) == Links(before) + [a.metaLink];
        case Some(i) =>
          var after := Upsert(before, a);
          assert after == before[i := before[i].(ressorts := before[i].ressorts + a.ressorts)];
          assert Links(after) == Links(before);
          assert Links(before)[i] == a.metaLink;
      }
    }
  }

  /** Earlier records never move: every record already stored keeps its
      place and all its fields, except that its labels may grow at the end. */
  lemma {:induction false} MergeKeepsPlaces(store: seq<Article>, incoming: seq<Article>)
    ensures |store| <= |MergeInto(store, incoming)|
    ensures forall i :: 0 <= i < |store| ==>
      var r := MergeInto(store, incoming)[i];
      r == store[i].(ressorts := r.ressorts) &&
      |store[i].ressorts| <= |r.ressorts| && r.ressorts[..|store[i].ressorts|] == store[i].ressorts
    decreases |incoming|
  {
    if incoming != [] {
      var init := incoming[..|incoming| - 1];
      MergeKeepsPlaces(store, init);
      var before := MergeInto(store, init);
      var after := MergeInto(store, incoming);
      forall i | 0 <= i < |store|
        ensures after[i] == store[i].(ressorts := after[i].ressorts)
        ensures |store[i].ressorts| <= |after[i].ressorts| && after[i].ressorts[..|store[i].ressorts|] == store[i].ressorts
      {
        var n := |store[i].ressorts|;
        assert before[i].ressorts[..n] == store[i].ressorts;
        if after[i] != before[i] {
          assert after[i].ressorts == before[i].ressorts + incoming[|incoming| - 1].ressorts;
          assert after[i].ressorts[..n] == before[i].ressorts[..n];
        }
      }
    }
  }

  /** Merging in two steps is merging everything at once. */
  lemma {:induction false} MergeIntoAppend(store: seq<Article>, xs: seq<Article>, ys: seq<Article>)
    ensures MergeInto(MergeInto(store, xs), ys) == MergeInto(store, xs + ys)
    decreases |ys|
  {
    if ys == [] {
      assert xs + ys == xs;
    } else {
      var init := ys[..|ys| - 1];
      MergeIntoAppend(store, xs, init);
      assert (xs + ys)[..|xs + ys| - 1] == xs + init;
      assert (xs + ys)[|xs + ys| - 1] == ys[|ys| - 1];
    }
  }

  // ---------------------------------------------------------------------
  // The merged store, described without the loop

  /** The links in order of first appearance, each once. */
  function Distinct(links: seq<string>): (d: seq<string>)
    decreases |links|
  {
    if links == [] then []
    else
      var init := links[..|links| - 1];
      Distinct(init) + (if links[|links| - 1] in init then [] else [links[|links| - 1]])
  }

  /** All labels that records with the given link bring, in arrival order,
      repeats included. */
  function AllRessorts(incoming: seq<Article>, link: string): seq<string>
    decreases |incoming|
  {
    if incoming == [] then []
    else
      var a := incoming[|incoming| - 1];
      AllRessorts(incoming[..|incoming| - 1], link) + (if a.metaLink == link then a.ressorts else [])
  }

  /** The record the store ends up with for a link: the first record that
      arrived with it, carrying every label that arrived with that link. */
  function Merged(incoming: seq<Article>, link: string): Article
    requires link in Links(incoming)
  {
    var i := IndexOfLink(incoming, link);
    assert i.Some? by {
      var k :| 0 <= k < |Links(incoming)| && Links(incoming)[k] == link;
    }
    incoming[i.value].(ressorts := AllRessorts(incoming, link))
  }

  lemma DistinctMembers(links: seq<string>)
    ensures forall l :: l in Distinct(links) <==> l in links
    decreases |links|
  {
    if links != [] {
      var init := links[..|links| - 1];
      DistinctMembers(init);
      assert links == init + [links[|links| - 1]];
    }
  }

  /** The records stored after merging `incoming` into an empty store: one
      per distinct link, in order of first arrival; each is the first
      record that arrived with its link, its labels every label that
      arrived with that link, in arrival order and with repeats kept. */
  lemma {:induction false} MergeAllIsMerged(incoming: seq<Article>)
    ensures |MergeAll(incoming)| == |Distinct(Links(incoming))|
    ensures forall i :: 0 <= i < |MergeAll(incoming)| ==>
      Distinct(Links(incoming))[i] in Links(incoming) &&
      MergeAll(incoming)[i] == Merged(incoming, Distinct(Links(incoming))[i])
    decreases |incoming|
  {
    if incoming != [] {
      var init := incoming[..|incoming| - 1];
      var a := incoming[|incoming| - 1];
      MergeAllIsMerged(init);
      assert incoming == init + [a];
      assert Links(incoming) == Links(init) + [a.metaLink];
      if a.metaLink in Links(init) {
        MergeAllStepOld(init, a);
      } else {
        MergeAllStepNew(init, a);
      }
    }
  }

  /** Induction step of MergeAllIsMerged for a record whose link is stored. */
  lemma MergeAllStepOld(init: seq<Article>, a: Article)
    requires a.metaLink in Links(init)
    requires |MergeAll(init)| == |Distinct(Links(init))|
    requires forall i :: 0 <= i < |MergeAll(init)| ==>
      Distinct(Links(init))[i] in Links(init) &&
      MergeAll(init)[i] == Merged(init, Distinct(Links(init))[i])
    ensures Distinct(Links(init + [a])) == Distinct(Links(init))
    ensures |MergeAll(init + [a])| == |MergeAll(init)|
    ensures forall i :: 0 <= i < |MergeAll(init)| ==>
      Distinct(Links(init))[i] in Links(init + [a]) &&
      MergeAll(init + [a])[i] == Merged(init + [a], Distinct(Links(init))[i])
  {
    var xs := init + [a];
    var before := MergeAll(init);
    var d := Distinct(Links(init));
    assert xs[..|xs| - 1] == init;
    assert Links(xs) == Links(init) + [a.metaLink];
    assert Links(xs)[..|Links(xs)| - 1] == Links(init);
    DistinctMembers(Links(init));
    var k :| 0 <= k < |d| && d[k] == a.metaLink;
    MergedLink(init, d[k]);
    var i := IndexOfLink(before, a.metaLink);
    assert i.Some?;
    var at := i.value;
    assert MergeAll(xs) == Upsert(before, a);
    assert MergeAll(xs) == before[at := before[at].(ressorts := before[at].ressorts + a.ressorts)];
    MergeKeepsUnique([], init);
    LinksSnoc(init, a);
    forall j | 0 <= j < |before|
      ensures d[j] in Links(xs) && MergeAll(xs)[j] == Merged(xs, d[j])
    {
      MergedLink(init, d[j]);
      MergedExtend(init, a, d[j]);
      if j != at {
        assert before[j].metaLink != before[at].metaLink;
      }
    }
  }

  /** Induction step of MergeAllIsMerged for a record with a new link. */
  lemma MergeAllStepNew(init: seq<Article>, a: Article)
    requires a.metaLink !in Links(init)
    requires |MergeAll(init)| == |Distinct(Links(init))|
    requires forall i :: 0 <= i < |MergeAll(init)| ==>
      Distinct(Links(init))[i] in Links(init) &&
      MergeAll(init)[i] == Merged(init, Distinct(Links(init))[i])
    ensures Distinct(Links(init + [a])) == Distinct(Links(init)) + [a.metaLink]
    ensures MergeAll(init + [a]) == MergeAll(init) + [a]
    ensures a.metaLink in Links(init + [a]) && Merged(init + [a], a.metaLink) == a
    ensures forall i :: 0 <= i < |MergeAll(init)| ==>
      Distinct(Links(init))[i] in Links(init + [a]) &&
      MergeAll(init + [a])[i] == Merged(init + [a], Distinct(Links(init))[i])
  {
    var xs := init + [a];
    var before := MergeAll(init);
    var d := Distinct(Links(init));
    assert xs[..|xs| - 1] == init;
    assert Links(xs) == Links(init) + [a.metaLink];
    assert Links(xs)[..|Links(xs)| - 1] == Links(init);
    forall k | 0 <= k < |before| ensures before[k].metaLink != a.metaLink {
      assert d[k] in Links(init);
    }
    MergedExtend(init, a, a.metaLink);
    forall j | 0 <= j < |before|
      ensures MergeAll(xs)[j] == Merged(xs, d[j])
    {
      MergedExtend(init, a, d[j]);
    }
  }

  /** The merged record of a link has that link. */
  lemma MergedLink(incoming: seq<Article>, link: string)
    requires link in Links(incoming)
    ensures Merged(incoming, link).metaLink == link
  {
  }

  lemma LinksSnoc(xs: seq<Article>, a: Article)
    ensures Links(xs + [a]) == Links(xs) + [a.metaLink]
  {
  }

  /** How one more arriving record changes the merged record of a link. */
  lemma MergedExtend(init: seq<Article>, a: Article, l: string)
    requires l in Links(init + [a])
    ensures l in Links(init) && l != a.metaLink ==> Merged(init + [a], l) == Merged(init, l)
    ensures l in Links(init) && l == a.metaLink ==>
      Merged(init + [a], l) == Merged(init, l).(ressorts := Merged(init, l).ressorts + a.ressorts)
    ensures l !in Links(init) && l == a.metaLink ==> Merged(init + [a], l) == a
  {
    var xs := init + [a];
    assert xs[..|xs| - 1] == init;
    assert Links(xs) == Links(init) + [a.metaLink];
    IndexOfLinkExtend(init, a, l);
    if l !in Links(init) && l == a.metaLink {
      AllRessortsAbsent(init, l);
      assert AllRessorts(xs, l) == a.ressorts;
    }
  }

  /** A link that never arrived brings no labels. */
  lemma {:induction false} AllRessortsAbsent(incoming: seq<Article>, link: string)
    requires link !in Links(incoming)
    ensures AllRessorts(incoming, link) == []
    decreases |incoming|
  {
    if incoming != [] {
      var init := incoming[..|incoming| - 1];
      assert Links(incoming) == Links(init) + [incoming[|incoming| - 1].metaLink];
      AllRessortsAbsent(init, link);
    }
  }

  /** Appending a record does not change where a link is first found. */
  lemma IndexOfLinkExtend(xs: seq<Article>, a: Article, link: string)
    ensures link in Links(xs) ==> IndexOfLink(xs + [a], link) == IndexOfLink(xs, link)
    ensures link !in Links(xs) && a.metaLink == link ==> IndexOfLink(xs + [a], link) == Some(|xs|)
  {
    var r := IndexOfLink(xs + [a], link);
    if link in Links(xs) {
      var k :| 0 <= k < |Links(xs)| && Links(xs)[k] == link;
      assert (xs + [a])[k].metaLink == link;
      var q := IndexOfLink(xs, link);
      assert q.Some?;
      assert (xs + [a])[q.value] == xs[q.value];
    } else if a.metaLink == link {
      forall j | 0 <= j < |xs| ensures xs[j].metaLink != link {
        assert Links(xs)[j] == xs[j].metaLink;
      }
      assert (xs + [a])[|xs|].metaLink == link;
      if r.None? {
        assert false;
      }
    }
  }

  /** The store keeps no link twice and loses none that arrived. */
  lemma MergeAllLinks(incoming: seq<Article>)
    ensures UniqueLinks(MergeAll(incoming))
    ensures Links(MergeAll(incoming)) == Distinct(Links(incoming))
  {
    MergeKeepsUnique([], incoming);
    MergeAllIsMerged(incoming);
  }

  /** Labels are a list, not a set: the same article filed twice under the
      same section carries that section twice. */
  lemma RepeatedLabelIsKept(a: Article)
    ensures MergeAll([a, a]) == [a.(ressorts := a.ressorts + a.ressorts)]
  {
    assert [a, a][..1] == [a];
    assert [a][..0] == [];
    assert MergeInto([], [a]) == [a];
    assert IndexOfLink([a], a.metaLink) == Some(0);
  }
}
