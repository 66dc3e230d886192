/** The three tables behind the request handlers (articles, tags and the
    article_tags pairs), the lookups the handlers run on them, the
    uniqueness the schema's constraints maintain, and the row changes each
    mutating statement makes. Timestamps are clock values (`nat`). */
module Tables {
  import opened Envelope
  import Rows

  datatype Article = Article(
    id: nat,
    uuid: string,
    title: string,
    content: string,
    viewCount: nat,
    createdAt: nat,
    updatedAt: nat)

  datatype Tag = Tag(id: nat, name: string, createdAt: nat)

  /** A row of article_tags. */
  datatype Link = Link(articleId: nat, tagId: nat)

  function ArticleIds(articles: seq<Article>): set<nat> {
    set a | a in articles :: a.id
  }

  function Uuids(articles: seq<Article>): set<string> {
    set a | a in articles :: a.uuid
  }

  function TagIds(tags: seq<Tag>): set<nat> {
    set t | t in tags :: t.id
  }

  /** Primary key `id` and UNIQUE `uuid`. */
  ghost predicate UniqueArticles(articles: seq<Article>) {
    && Rows.Distinct(articles)
    && forall a, b :: a in articles && b in articles && a != b ==> a.id != b.id && a.uuid != b.uuid
  }

  /** Primary key `id` and UNIQUE `name`. */
  ghost predicate UniqueTags(tags: seq<Tag>) {
    && Rows.Distinct(tags)
    && forall a, b :: a in tags && b in tags && a != b ==> a.id != b.id && a.name != b.name
  }

  /** Every pair names an existing tag. Pairs may name deleted articles:
      deleting an article leaves its pairs behind. */
  ghost predicate LinksKnownTags(tags: seq<Tag>, links: set<Link>) {
    forall l :: l in links ==> l.tagId in TagIds(tags)
  }

  ghost predicate WellFormed(articles: seq<Article>, tags: seq<Tag>, links: set<Link>) {
    UniqueArticles(articles) && UniqueTags(tags) && LinksKnownTags(tags, links)
  }

  /** The uuid lookup: the first article row carrying that uuid. */
  function FindArticle(articles: seq<Article>, uuid: string): (r: Option<Article>)
    ensures r.Some? ==> r.value in articles && r.value.uuid == uuid
    ensures r.None? <==> uuid !in Uuids(articles)
  {
    if articles == [] then None
    else if articles[0].uuid == uuid then Some(articles[0])
    else FindArticle(articles[1..], uuid)
  }

  /** The name lookup: the first tag row with exactly that name. */
  function FindTag(tags: seq<Tag>, name: string): (r: Option<Tag>)
    ensures r.Some? ==> r.value in tags && r.value.name == name
    ensures r.None? <==> forall t :: t in tags ==> t.name != name
  {
    if tags == [] then None
    else if tags[0].name == name then Some(tags[0])
    else FindTag(tags[1..], name)
  }

  /** Under UNIQUE(uuid) the lookup finds the one row carrying the uuid. */
  lemma FindArticleUnique(articles: seq<Article>, i: nat)
    requires UniqueArticles(articles) && i < |articles|
    ensures FindArticle(articles, articles[i].uuid) == Some(articles[i])
  {
  }

  /** The row `articles:create` inserts from uuid, title and content: viewCount
      and both timestamps take their column defaults. */
  function NewArticle(id: nat, uuid: string, title: string, content: string, now: nat): (r: Article)
    ensures r.id == id && r.uuid == uuid && r.title == title && r.content == content
    ensures r.viewCount == 0 && r.createdAt == now && r.updatedAt == now
  {
    Article(id, uuid, title, content, 0, now, now)
  }

  /** The view bump: every row with the uuid gets one more view. */
  function Viewed(articles: seq<Article>, uuid: string): (r: seq<Article>)
    ensures |r| == |articles|
    ensures forall i :: 0 <= i < |r| ==>
      r[i].id == articles[i].id && r[i].uuid == articles[i].uuid && r[i].viewCount >= articles[i].viewCount
  {
    seq(|articles|, i requires 0 <= i < |articles| =>
      if articles[i].uuid == uuid then articles[i].(viewCount := articles[i].viewCount + 1)
      else articles[i])
  }

  /** The edit: every row with the uuid gets the new title and content and
      an updatedAt of `now`. */
  function Edited(articles: seq<Article>, uuid: string, title: string, content: string, now: nat): (r: seq<Article>)
    ensures |r| == |articles|
    ensures forall i :: 0 <= i < |r| ==>
      r[i].id == articles[i].id && r[i].uuid == articles[i].uuid &&
      r[i].viewCount == articles[i].viewCount && r[i].createdAt == articles[i].createdAt
  {
    seq(|articles|, i requires 0 <= i < |articles| =>
      if articles[i].uuid == uuid then articles[i].(title := title, content := content, updatedAt := now)
      else articles[i])
  }

  /** The deletion: every row with the uuid is dropped. */
  function Without(articles: seq<Article>, uuid: string): (r: seq<Article>)
    ensures |r| <= |articles|
    ensures forall a :: a in r <==> a in articles && a.uuid != uuid
  {
    Rows.Filter(articles, (a: Article) => a.uuid != uuid)
  }

  /** The id the tag lookup of `articles:addTag` settles on: the existing
      tag's, or the id the engine assigns to the row it inserts. */
  function TagIdFor(tags: seq<Tag>, name: string, freshId: nat): (r: nat)
    ensures (forall t :: t in tags ==> t.name != name) ==> r == freshId
    ensures (exists t :: t in tags && t.name == name) ==> exists t :: t in tags && t.name == name && t.id == r
  {
    match FindTag(tags, name)
    case Some(t) => t.id
    case None => freshId
  }

  /** The tags table after the find-or-create step of `articles:addTag`. */
  function EnsureTag(tags: seq<Tag>, name: string, freshId: nat, now: nat): (r: seq<Tag>)
    ensures tags <= r
    ensures |r| == |tags| <==> exists t :: t in tags && t.name == name
    ensures |r| != |tags| ==> r == tags + [Tag(freshId, name, now)]
  {
    if FindTag(tags, name).Some? then tags else tags + [Tag(freshId, name, now)]
  }

  /** Rows rewritten one for one with their id and uuid kept keep both
      keys unique. */
  lemma SameKeysUnique(articles: seq<Article>, r: seq<Article>)
    requires UniqueArticles(articles) && |r| == |articles|
    requires forall i :: 0 <= i < |r| ==> r[i].id == articles[i].id && r[i].uuid == articles[i].uuid
    ensures UniqueArticles(r)
  {
    forall i, j | 0 <= i < j < |r| ensures r[i].id != r[j].id && r[i].uuid != r[j].uuid {
      assert articles[i] != articles[j];
    }
    forall a, b | a in r && b in r && a != b ensures a.id != b.id && a.uuid != b.uuid {
      var i :| 0 <= i < |r| && r[i] == a;
      var j :| 0 <= j < |r| && r[j] == b;
      assert i != j;
    }
  }

  /** The view bump touches only the row found by the lookup: its viewCount
      rises by exactly one and nothing else changes; an unknown uuid changes
      nothing. */
  lemma ViewedBumpsFoundRow(articles: seq<Article>, uuid: string)
    requires UniqueArticles(articles)
    ensures |Viewed(articles, uuid)| == |articles|
    ensures FindArticle(articles, uuid).None? ==> Viewed(articles, uuid) == articles
    ensures forall i :: 0 <= i < |articles| && articles[i].uuid != uuid ==> Viewed(articles, uuid)[i] == articles[i]
    ensures forall i :: 0 <= i < |articles| && articles[i].uuid == uuid ==>
      FindArticle(articles, uuid) == Some(articles[i]) &&
      Viewed(articles, uuid)[i] == articles[i].(viewCount := articles[i].viewCount + 1)
    ensures UniqueArticles(Viewed(articles, uuid))
  {
    forall i | 0 <= i < |articles| && articles[i].uuid == uuid
      ensures FindArticle(articles, uuid) == Some(articles[i])
    {
      FindArticleUnique(articles, i);
    }
    SameKeysUnique(articles, Viewed(articles, uuid));
    if FindArticle(articles, uuid).None? {
      forall i | 0 <= i < |articles| ensures articles[i].uuid != uuid {
        assert articles[i].uuid in Uuids(articles);
      }
    }
  }

  /** An update rewrites title, content and updatedAt of the matching row,
      keeps its id, uuid, viewCount and createdAt, and leaves every other row
      alone; an unknown uuid changes nothing (zero rows affected). */
  lemma EditedChangesFoundRow(articles: seq<Article>, uuid: string, title: string, content: string, now: nat)
    requires UniqueArticles(articles)
    ensures |Edited(articles, uuid, title, content, now)| == |articles|
    ensures FindArticle(articles, uuid).None? ==> Edited(articles, uuid, title, content, now) == articles
    ensures forall i :: 0 <= i < |articles| && articles[i].uuid != uuid ==>
      Edited(articles, uuid, title, content, now)[i] == articles[i]
    ensures forall i :: 0 <= i < |articles| && articles[i].uuid == uuid ==>
      var e := Edited(articles, uuid, title, content, now)[i];
      e.id == articles[i].id && e.uuid == uuid && e.viewCount == articles[i].viewCount &&
      e.createdAt == articles[i].createdAt &&
      e.title == title && e.content == content && e.updatedAt == now
    ensures UniqueArticles(Edited(articles, uuid, title, content, now))
  {
    SameKeysUnique(articles, Edited(articles, uuid, title, content, now));
    if FindArticle(articles, uuid).None? {
      forall i | 0 <= i < |articles| ensures articles[i].uuid != uuid {
        assert articles[i].uuid in Uuids(articles);
      }
    }
  }

  /** Deleting by uuid removes exactly the rows with that uuid and keeps
      every other row. */
  lemma WithoutRemovesOnlyMatch(articles: seq<Article>, uuid: string)
    requires UniqueArticles(articles)
    ensures forall a :: a in Without(articles, uuid) <==> a in articles && a.uuid != uuid
    ensures FindArticle(Without(articles, uuid), uuid).None?
    ensures FindArticle(articles, uuid).Some? ==> |Without(articles, uuid)| == |articles| - 1
    ensures FindArticle(articles, uuid).None? ==> Without(articles, uuid) == articles
    ensures UniqueArticles(Without(articles, uuid))
  {
    WithoutShape(articles, uuid);
  }

  lemma WithoutShape(articles: seq<Article>, uuid: string)
    requires UniqueArticles(articles)
    ensures FindArticle(articles, uuid).Some? ==> |Without(articles, uuid)| == |articles| - 1
    ensures FindArticle(articles, uuid).None? ==> Without(articles, uuid) == articles
  {
    var keep := (a: Article) => a.uuid != uuid;
    if FindArticle(articles, uuid).Some? {
      var found := FindArticle(articles, uuid).value;
      var k :| 0 <= k < |articles| && articles[k] == found;
      forall i | 0 <= i < |articles| && i != k ensures keep(articles[i]) {
        assert articles[i] != articles[k];
      }
      Rows.FilterDropsOne(articles, keep, k);
    } else {
      forall a | a in articles ensures keep(a) {
        assert a.uuid in Uuids(articles);
      }
      Rows.FilterAll(articles, keep);
    }
  }

  /** A new row with an unused id and uuid keeps both keys unique. */
  lemma AppendFresh(articles: seq<Article>, a: Article)
    requires UniqueArticles(articles)
    requires a.id !in ArticleIds(articles) && a.uuid !in Uuids(articles)
    ensures UniqueArticles(articles + [a])
    ensures FindArticle(articles + [a], a.uuid) == Some(a)
  {
  }

  /** Find-or-create: when no tag has the name exactly one row is added,
      carrying the fresh id; otherwise the table is unchanged. Either way the
      lookup afterwards finds a tag of that name with the id `TagIdFor`
      reports, and the table's invariants hold. */
  lemma EnsureTagFinds(tags: seq<Tag>, links: set<Link>, name: string, freshId: nat, now: nat)
    requires UniqueTags(tags) && LinksKnownTags(tags, links) && freshId !in TagIds(tags)
    ensures FindTag(tags, name).None? ==> EnsureTag(tags, name, freshId, now) == tags + [Tag(freshId, name, now)]
    ensures FindTag(tags, name).Some? ==> EnsureTag(tags, name, freshId, now) == tags
    ensures var t := FindTag(EnsureTag(tags, name, freshId, now), name);
      t.Some? && t.value.id == TagIdFor(tags, name, freshId)
    ensures UniqueTags(EnsureTag(tags, name, freshId, now))
    ensures LinksKnownTags(EnsureTag(tags, name, freshId, now), links)
    ensures TagIdFor(tags, name, freshId) in TagIds(EnsureTag(tags, name, freshId, now))
  {
  }
}
