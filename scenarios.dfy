/** Properties that span several handler calls: create then read, update
    then read, tagging twice, deleting an article that carries tags, and
    paging through the list. */
module Scenarios {
  import opened Envelope
  import opened Tables
  import opened Queries
  import opened Store
  import Rows

  /** A created article reads back with its title and content and a view
      count of 0, and that very read leaves the stored count at 1. */
  lemma CreateThenView(articles: seq<Article>, id: nat, uuid: string, title: string, content: string, now: nat)
    requires UniqueArticles(articles)
    requires id !in ArticleIds(articles) && uuid !in Uuids(articles)
    ensures var created := articles + [NewArticle(id, uuid, title, content, now)];
      && FindArticle(created, uuid) == Some(Article(id, uuid, title, content, 0, now, now))
      && FindArticle(Viewed(created, uuid), uuid) == Some(Article(id, uuid, title, content, 1, now, now))
  {
    var row := NewArticle(id, uuid, title, content, now);
    var created := articles + [row];
    AppendFresh(articles, row);
    ViewedBumpsFoundRow(created, uuid);
    FindArticleUnique(Viewed(created, uuid), |articles|);
  }

  /** After an update of a stored article, reading it gives the new title
      and content, the new updatedAt, and the old id, view count and
      createdAt. */
  lemma UpdateThenRead(articles: seq<Article>, uuid: string, title: string, content: string, now: nat)
    requires UniqueArticles(articles)
    requires FindArticle(articles, uuid).Some?
    ensures var a := FindArticle(articles, uuid).value;
      FindArticle(Edited(articles, uuid, title, content, now), uuid) ==
        Some(a.(title := title, content := content, updatedAt := now))
  {
    var a := FindArticle(articles, uuid).value;
    var k :| 0 <= k < |articles| && articles[k] == a;
    EditedChangesFoundRow(articles, uuid, title, content, now);
    FindArticleUnique(Edited(articles, uuid, title, content, now), k);
  }

  /** Tagging an article twice with the same name: the second call creates
      no tag, reports the same id, and inserts no second pair. */
  lemma AddTagTwice(tags: seq<Tag>, links: set<Link>, articleId: nat, name: string,
                    freshId1: nat, now1: nat, freshId2: nat, now2: nat)
    requires UniqueTags(tags) && LinksKnownTags(tags, links) && freshId1 !in TagIds(tags)
    ensures var tags1 := EnsureTag(tags, name, freshId1, now1);
      var id := TagIdFor(tags, name, freshId1);
      var links1 := links + {Link(articleId, id)};
      && EnsureTag(tags1, name, freshId2, now2) == tags1
      && TagIdFor(tags1, name, freshId2) == id
      && links1 + {Link(articleId, TagIdFor(tags1, name, freshId2))} == links1
  {
  }

  /** Deleting an article leaves its pairs in article_tags: `getTags` on its
      uuid now fails, and no tag search can return it, yet every pair it had
      is still stored. */
  lemma DeleteLeavesPairs(articles: seq<Article>, tags: seq<Tag>, links: set<Link>, uuid: string, q: TagSearch)
    requires WellFormed(articles, tags, links)
    ensures GetTags(Without(articles, uuid), tags, links, uuid) == Err(ArticleNotFound)
    ensures var r := SearchByTag(Without(articles, uuid), tags, links, q);
      r.Ok? ==> forall a :: a in r.data ==> a.uuid != uuid
  {
    WithoutRemovesOnlyMatch(articles, uuid);
    GetTagsMeaning(Without(articles, uuid), tags, links, uuid);
    SearchByTagMeaning(Without(articles, uuid), tags, links, q);
  }

  /** Because deletion keeps the pairs, an article created later under the
      id of a deleted one (an engine that reuses row ids) starts out carrying
      the deleted article's tags. */
  lemma ReusedIdInheritsTags(articles: seq<Article>, tags: seq<Tag>, links: set<Link>, i: nat,
                             t: Tag, uuid: string, title: string, content: string, now: nat)
    requires WellFormed(articles, tags, links)
    requires i < |articles| && t in tags && Link(articles[i].id, t.id) in links
    requires uuid !in Uuids(articles)
    ensures var later := Without(articles, articles[i].uuid) + [NewArticle(articles[i].id, uuid, title, content, now)];
      var r := GetTags(later, tags, links, uuid);
      r.Ok? && TagRef(t.id, t.name) in r.data
  {
  }

  /** Five articles, pages of two: the page at offset 2 holds exactly two
      articles, none of them on the page at offset 0. This holds because the
      model breaks ties the same way on both calls. */
  lemma ListPagination(articles: seq<Article>, sortBy: Option<string>, order: Option<string>)
    requires UniqueArticles(articles) && |articles| == 5
    ensures var first := List(articles, ListOptions(sortBy, order, Some(2), Some(0))).data;
      var second := List(articles, ListOptions(sortBy, order, Some(2), Some(2))).data;
      && |second| == 2
      && forall a :: a in first ==> a !in second
  {
    var le := OrderBy(SortColumn(sortBy), SortDirection(order));
    var o := Rows.Sort(articles, le);
    Rows.PermutationDistinct(o, articles);
    assert |o| == 5 by {
      assert |multiset(o)| == |multiset(articles)|;
    }
    Rows.PagesDisjoint(o, 2, 0, 2, 2);
  }

  /** The same paging for any engine: when no two articles tie on the sort
      key, whatever ordering each of the two calls gets, the page at offset 2
      holds two articles, none on the page at offset 0. */
  lemma ListPaginationAnyEngine(articles: seq<Article>, sortBy: Option<string>, order: Option<string>)
    requires UniqueArticles(articles) && |articles| == 5
    requires Rows.NoTies(articles, OrderBy(SortColumn(sortBy), SortDirection(order)))
    ensures var le := OrderBy(SortColumn(sortBy), SortDirection(order));
      forall o1, o2 :: Rows.IsOrdering(o1, articles, le) && Rows.IsOrdering(o2, articles, le) ==>
        && |Rows.Page(o2, 2, 2)| == 2
        && forall a :: a in Rows.Page(o1, 2, 0) ==> a !in Rows.Page(o2, 2, 2)
  {
    var le := OrderBy(SortColumn(sortBy), SortDirection(order));
    forall o1, o2 | Rows.IsOrdering(o1, articles, le) && Rows.IsOrdering(o2, articles, le)
      ensures |Rows.Page(o2, 2, 2)| == 2
      ensures forall a :: a in Rows.Page(o1, 2, 0) ==> a !in Rows.Page(o2, 2, 2)
    {
      Rows.OrderingUnique(o1, o2, articles, le);
      Rows.PermutationDistinct(o1, articles);
      assert |o1| == |multiset(articles)|;
      Rows.PagesDisjoint(o1, 2, 0, 2, 2);
    }
  }

  /** Create "Doc A", tag it "ops" twice, search by the tag, delete it and
      search again, on an empty store. */
  method TaggedDocumentLifecycle(id: nat, uuid: string, tagId: nat, spareTagId: nat, now: nat)
    requires tagId != spareTagId
  {
    var s := new ArticleStore([], [], {});
    var created := s.Create(id, uuid, "Doc A", "# A", now);
    var doc := NewArticle(id, uuid, "Doc A", "# A", now);
    assert s.articles == [doc];
    var first := s.AddTag(uuid, "ops", tagId, now);
    assert first == Ok(AddedTag(tagId, "ops"));
    var second := s.AddTag(uuid, "ops", spareTagId, now);
    assert second == Ok(AddedTag(tagId, "ops"));
    assert s.tags == [Tag(tagId, "ops", now)] && s.links == {Link(id, tagId)};
    var q := TagSearch("ops", None, None);
    assert Tagged(doc, s.tags, s.links, "ops") by {
      assert Tag(tagId, "ops", now) in s.tags;
    }
    var found := SearchByTag(s.articles, s.tags, s.links, q);
    assert found == Ok([doc]);
    var deleted := s.Delete(uuid);
    assert s.articles == [];
    assert SearchByTag(s.articles, s.tags, s.links, q) == Ok([]);
    assert GetTags(s.articles, s.tags, s.links, uuid) == Err(ArticleNotFound);
    assert s.links == {Link(id, tagId)};
  }
}
