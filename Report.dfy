/** The JSON report of `main`, as the tree Gson builds before printing it:
    one object per repeated author, holding that author's stored articles. */
module Report {
  import opened Wrappers
  import opened Strings
  import opened Articles
  import opened Authors

  /** The part of Gson's tree the report uses: strings, arrays, and objects
      whose members keep the order in which they were added. */
  datatype Json = JString(str: string) | JArray(items: seq<Json>) | JObject(members: seq<(string, Json)>)

  /** The keys of an object's members, in order. */
  function Keys(members: seq<(string, Json)>): seq<string> {
    seq(|members|, i requires 0 <= i < |members| => members[i].0)
  }

  /** `JsonObject.get`: the value of the first member with the key. */
  function Lookup(members: seq<(string, Json)>, key: string): Option<Json> {
    if members == [] then None
    else if members[0].0 == key then Some(members[0].1)
    else Lookup(members[1..], key)
  }

  /** A key reads back nothing exactly when no member has it. */
  lemma {:induction false} LookupMissing(members: seq<(string, Json)>, key: string)
    ensures Lookup(members, key).None? <==> forall i :: 0 <= i < |members| ==> members[i].0 != key
  {
    if members != [] {
      LookupMissing(members[1..], key);
      if members[0].0 != key {
        assert forall i :: 1 <= i < |members| ==> members[i] == members[1..][i - 1];
      }
    }
  }

  /** A key met for the first time at position `i` reads back the value
      stored there. */
  lemma {:induction false} LookupAt(members: seq<(string, Json)>, i: nat)
    requires i < |members|
    requires forall j :: 0 <= j < i ==> members[j].0 != members[i].0
    ensures Lookup(members, members[i].0) == Some(members[i].1)
  {
    if i > 0 {
      LookupAt(members[1..], i - 1);
    }
  }

  /** The public address of an article: the first `xml.` is removed, then
      the first `http://` becomes `https://`. */
  function PublicLink(link: string): string {
    ReplaceFirst(ReplaceFirst(link, "xml.", ""), "http://", "https://")
  }

  /** A metadata address `http://xml.<rest>` becomes the public page
      `https://<rest>`, whatever follows the host prefix (so
      `http://xml.zeit.de/2019/49/a` becomes `https://zeit.de/2019/49/a`),
      even when `rest` itself holds `xml.` or `http://` again. */
  lemma PublicLinkOfMetaLink(rest: string)
    ensures PublicLink("http://xml." + rest) == "https://" + rest
  {
    DropHost(rest);
    UpgradeScheme(rest);
  }

  /** The first `xml.` of a metadata address sits right after the scheme. */
  lemma DropHost(rest: string)
    ensures ReplaceFirst("http://xml." + rest, "xml.", "") == "http://" + rest
  {
    var s := "http://xml." + rest;
    assert s[7..11] == "xml.";
    forall j: nat | j < 7 ensures !OccursAt(s, "xml.", j) {
      assert s[j] == "http://"[j];
    }
    assert s[..7] == "http://" && s[11..] == rest;
    ReplaceFirstSpec(s, "xml.", "");
  }

  /** The scheme at the front is the first `http://`. */
  lemma UpgradeScheme(rest: string)
    ensures ReplaceFirst("http://" + rest, "http://", "https://") == "https://" + rest
  {
    var t := "http://" + rest;
    assert t[0..7] == "http://" && t[7..] == rest;
    ReplaceFirstSpec(t, "http://", "https://");
  }

  /** A link holding neither pattern is published as it is. */
  lemma PublicLinkUnchanged(link: string)
    requires forall j: nat :: !OccursAt(link, "xml.", j) && !OccursAt(link, "http://", j)
    ensures PublicLink(link) == link
  {
    ReplaceFirstSpec(link, "xml.", "");
    ReplaceFirstSpec(link, "http://", "https://");
  }

  /** A JSON array of strings, in order. */
  function StringArray(ss: seq<string>): Json {
    JArray(seq(|ss|, k requires 0 <= k < |ss| => JString(ss[k])))
  }

  /** The article object: link, labels, sub-section, content type,
      supertitle and title always, the genre only when the record has one. */
  function ArticleJson(a: Article): Json {
    JObject(
      [ ("link", JString(PublicLink(a.metaLink))),
        ("ressorts", StringArray(a.ressorts)),
        ("subRessort", JString(a.subRessort)),
        ("contentType", JString(a.contentType)),
        ("superTitle", JString(a.superTitle)),
        ("title", JString(a.title)) ]
      + (if a.genre.Some? then [("genre", JString(a.genre.value))] else []))
  }

  /** Every article object carries the six fixed keys in order, followed
      by `genre` exactly when the record has a genre. */
  lemma ArticleJsonKeys(a: Article)
    ensures ArticleJson(a).JObject?
    ensures Keys(ArticleJson(a).members) ==
      ["link", "ressorts", "subRessort", "contentType", "superTitle", "title"] +
      (if a.genre.Some? then ["genre"] else [])
    ensures NoDuplicates(Keys(ArticleJson(a).members))
  {
    var v := [JString(PublicLink(a.metaLink)), StringArray(a.ressorts), JString(a.subRessort),
              JString(a.contentType), JString(a.superTitle), JString(a.title)];
    var extra := if a.genre.Some? then [("genre", JString(a.genre.value))] else [];
    assert ArticleJson(a).members == ArticleShape(v, extra);
    ArticleShapeKeys(v, extra);
  }

  /** The members of an article object with the values left open. */
  function ArticleShape(v: seq<Json>, extra: seq<(string, Json)>): seq<(string, Json)>
    requires |v| == 6
  {
    [("link", v[0]), ("ressorts", v[1]), ("subRessort", v[2]),
     ("contentType", v[3]), ("superTitle", v[4]), ("title", v[5])] + extra
  }

  lemma ArticleShapeKeys(v: seq<Json>, extra: seq<(string, Json)>)
    requires |v| == 6
    requires extra == [] || (|extra| == 1 && extra[0].0 == "genre")
    ensures Keys(ArticleShape(v, extra)) ==
      ["link", "ressorts", "subRessort", "contentType", "superTitle", "title"] +
      (if extra != [] then ["genre"] else [])
    ensures NoDuplicates(Keys(ArticleShape(v, extra)))
  {
    var m := ArticleShape(v, extra);
    var all := ArticleKeys();
    ArticleKeysDistinct();
    assert Keys(m) == all[..|m|];
  }

  /** The six fixed keys read back the record's fields, the link in its
      public form. */
  lemma ArticleJsonFields(a: Article)
    ensures Lookup(ArticleJson(a).members, "link") == Some(JString(PublicLink(a.metaLink)))
    ensures Lookup(ArticleJson(a).members, "ressorts") == Some(StringArray(a.ressorts))
    ensures Lookup(ArticleJson(a).members, "subRessort") == Some(JString(a.subRessort))
    ensures Lookup(ArticleJson(a).members, "contentType") == Some(JString(a.contentType))
    ensures Lookup(ArticleJson(a).members, "superTitle") == Some(JString(a.superTitle))
    ensures Lookup(ArticleJson(a).members, "title") == Some(JString(a.title))
  {
    var m := ArticleJson(a).members;
    ArticleJsonKeys(a);
    LookupDistinct(m, 0);
    LookupDistinct(m, 1);
    LookupDistinct(m, 2);
    LookupDistinct(m, 3);
    LookupDistinct(m, 4);
    LookupDistinct(m, 5);
  }

  /** The `genre` key is there exactly when the record has a genre, and
      then holds it; an absent genre is never written as null or "". */
  lemma ArticleJsonGenre(a: Article)
    ensures Lookup(ArticleJson(a).members, "genre") == if a.genre.Some? then Some(JString(a.genre.value)) else None
  {
    var m := ArticleJson(a).members;
    ArticleJsonKeys(a);
    if a.genre.Some? {
      LookupDistinct(m, 6);
    } else {
      var all := ArticleKeys();
      ArticleKeysDistinct();
      forall i | 0 <= i < |m| ensures m[i].0 != "genre" {
        assert Keys(m)[i] == all[i] && all[i] != all[6];
      }
      LookupMissing(m, "genre");
    }
  }

  /** Every key an article object can carry, in the order they are added. */
  function ArticleKeys(): seq<string> {
    ["link", "ressorts", "subRessort", "contentType", "superTitle", "title", "genre"]
  }

  lemma ArticleKeysDistinct()
    ensures NoDuplicates(ArticleKeys())
  {
  }

  /** In an object whose keys are all different, every key reads back its
      own value. */
  lemma LookupDistinct(members: seq<(string, Json)>, i: nat)
    requires i < |members|
    requires NoDuplicates(Keys(members))
    ensures Lookup(members, members[i].0) == Some(members[i].1)
  {
    forall j | 0 <= j < i ensures members[j].0 != members[i].0 {
      assert Keys(members)[j] != Keys(members)[i];
    }
    LookupAt(members, i);
  }

  /** `articles.filter { it.authors.contains(author) }`. */
  function ArticlesBy(store: seq<Article>, name: string): (r: seq<Article>)
    decreases |store|
  {
    if store == [] then []
    else
      var last := store[|store| - 1];
      ArticlesBy(store[..|store| - 1], name) + (if name in last.authors then [last] else [])
  }

  /** The filter keeps exactly the records listing the name. */
  lemma {:induction false} ArticlesByMembers(store: seq<Article>, name: string)
    ensures forall a :: a in ArticlesBy(store, name) <==> a in store && name in a.authors
    decreases |store|
  {
    if store != [] {
      var init := store[..|store| - 1];
      ArticlesByMembers(init, name);
      assert store == init + [store[|store| - 1]];
    }
  }

  /** The filter keeps store order: filtering a concatenation is
      concatenating the filtered parts. */
  lemma {:induction false} ArticlesByAppend(s: seq<Article>, t: seq<Article>, name: string)
    ensures ArticlesBy(s + t, name) == ArticlesBy(s, name) + ArticlesBy(t, name)
    decreases |t|
  {
    if t == [] {
      assert s + t == s;
    } else {
      var init := t[..|t| - 1];
      ArticlesByAppend(s, init, name);
      assert (s + t)[..|s + t| - 1] == s + init;
      assert (s + t)[|s + t| - 1] == t[|t| - 1];
    }
  }

  /** The filter over one more record. */
  lemma ArticlesBySnoc(store: seq<Article>, a: Article, name: string)
    ensures ArticlesBy(store + [a], name) == ArticlesBy(store, name) + (if name in a.authors then [a] else [])
  {
    assert (store + [a])[..|store|] == store;
  }

  /** A name that occurs among the stored authors has at least one article. */
  lemma {:induction false} ArticlesByNonEmpty(store: seq<Article>, name: string)
    requires name in Flatten(store)
    ensures ArticlesBy(store, name) != []
    decreases |store|
  {
    var init := store[..|store| - 1];
    var last := store[|store| - 1];
    if name !in last.authors {
      ArticlesByNonEmpty(init, name);
    }
  }

  /** The author object: the name and the array of its article objects. */
  function AuthorJson(name: string, store: seq<Article>): Json {
    JObject([("name", JString(name)), ("articles", JArray(ArticleArray(ArticlesBy(store, name))))])
  }

  /** The article objects of some records, in order. */
  function ArticleArray(arts: seq<Article>): seq<Json> {
    seq(|arts|, k requires 0 <= k < |arts| => ArticleJson(arts[k]))
  }

  lemma ArticleArrayStep(arts: seq<Article>, k: nat)
    requires k < |arts|
    ensures ArticleArray(arts[..k + 1]) == ArticleArray(arts[..k]) + [ArticleJson(arts[k])]
  {
    var front, longer := arts[..k], arts[..k + 1];
    assert longer == front + [arts[k]];
    var l, r := ArticleArray(longer), ArticleArray(front) + [ArticleJson(arts[k])];
    forall q | 0 <= q < |l| ensures l[q] == r[q] {
      if q < k {
        assert longer[q] == front[q];
      }
    }
  }

  /** The whole report: `{"authors": [...]}`, one author object per name. */
  function ReportJson(authorsTwice: seq<string>, store: seq<Article>): Json {
    JObject([ ("authors", JArray(seq(|authorsTwice|, i requires 0 <= i < |authorsTwice| => AuthorJson(authorsTwice[i], store)))) ])
  }

  /** The article-object part of the report loop: the labels are copied one
      by one into an array, then the members are added in order, the genre
      only when present. */
  method BuildArticleObject(article: Article) returns (obj: Json)
    ensures obj == ArticleJson(article)
  {
    var ressortsArray: seq<Json> := [];
    var k := 0;
    while k < |article.ressorts|
      invariant 0 <= k <= |article.ressorts|
      invariant |ressortsArray| == k
      invariant forall q :: 0 <= q < k ==> ressortsArray[q] == JString(article.ressorts[q])
    {
      ressortsArray := ressortsArray + [JString(article.ressorts[k])];
      k := k + 1;
    }
    assert JArray(ressortsArray) == StringArray(article.ressorts);
    var members := [
      ("link", JString(PublicLink(article.metaLink))),
      ("ressorts", JArray(ressortsArray)),
      ("subRessort", JString(article.subRessort)),
      ("contentType", JString(article.contentType)),
      ("superTitle", JString(article.superTitle)),
      ("title", JString(article.title)) ];
    if article.genre.Some? {
      members := members + [("genre", JString(article.genre.value))];
    }
    obj := JObject(members);
  }

  /** The report loop of `main`: one author object per repeated author,
      in order. */
  method BuildReport(authorsTwice: seq<string>, articles: seq<Article>) returns (root: Json)
    ensures root == ReportJson(authorsTwice, articles)
  {
    var jAuthors: seq<Json> := [];
    var i := 0;
    while i < |authorsTwice|
      invariant 0 <= i <= |authorsTwice|
      invariant |jAuthors| == i
      invariant forall q :: 0 <= q < i ==> jAuthors[q] == AuthorJson(authorsTwice[q], articles)
    {
      var authorObject := BuildAuthorObject(authorsTwice[i], articles);
      jAuthors := jAuthors + [authorObject];
      i := i + 1;
    }
    assert jAuthors == seq(|authorsTwice|, q requires 0 <= q < |authorsTwice| => AuthorJson(authorsTwice[q], articles));
    root := JObject([("authors", JArray(jAuthors))]);
  }

  /** One round of the report loop: the stored records listing the author,
      in store order, become the article objects of the author object. */
  method BuildAuthorObject(author: string, articles: seq<Article>) returns (authorObject: Json)
    ensures authorObject == AuthorJson(author, articles)
  {
    var authorsArticles := ArticlesBy(articles, author);
    var articlesObject: seq<Json> := [];
    var k := 0;
    while k < |authorsArticles|
      invariant 0 <= k <= |authorsArticles|
      invariant articlesObject == ArticleArray(authorsArticles[..k])
    {
      var articleObject := BuildArticleObject(authorsArticles[k]);
      ArticleArrayStep(authorsArticles, k);
      articlesObject := articlesObject + [articleObject];
      k := k + 1;
    }
    assert authorsArticles[..k] == authorsArticles;
    authorObject := JObject([("name", JString(author)), ("articles", JArray(articlesObject))]);
  }

  /** The report for the repeated authors of a store has one author object
      per repeated name, in order; each names its author and lists, as
      article objects, exactly that author's stored records in store order,
      and never an empty list. */
  lemma ReportEntries(store: seq<Article>, i: nat)
    requires i < |Repeated(Flatten(store))|
    ensures var twice := Repeated(Flatten(store));
      var entry := ReportJson(twice, store).members[0].1.items[i];
      && entry.members[0] == ("name", JString(twice[i]))
      && entry.members[1].0 == "articles"
      && |entry.members[1].1.items| == |ArticlesBy(store, twice[i])| > 0
      && forall k :: 0 <= k < |ArticlesBy(store, twice[i])| ==>
           entry.members[1].1.items[k] == ArticleJson(ArticlesBy(store, twice[i])[k])
  {
    var twice := Repeated(Flatten(store));
    ScanMembers(Flatten(store));
    assert twice[i] in twice;
    ArticlesByNonEmpty(store, twice[i]);
  }

  /** An author is reported exactly when the name occurs at least twice
      among all stored authors; names are never reported twice. */
  lemma ReportedAuthors(store: seq<Article>, name: string)
    ensures var items := ReportJson(Repeated(Flatten(store)), store).members[0].1.items;
      (exists i :: 0 <= i < |items| && items[i].members[0] == ("name", JString(name)))
        <==> Count(Flatten(store), name) >= 2
  {
    var twice := Repeated(Flatten(store));
    var items := ReportJson(twice, store).members[0].1.items;
    ScanMembers(Flatten(store));
    if Count(Flatten(store), name) >= 2 {
      var i :| 0 <= i < |twice| && twice[i] == name;
      assert items[i].members[0] == ("name", JString(name));
    }
  }
}
