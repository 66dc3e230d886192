/** The request handlers that change the tables: `articles:getByUuid`,
    `articles:create`, `articles:update`, `articles:delete`,
    `articles:addTag` and `articles:removeTag`, as methods of the store that
    holds the three tables. Inputs the handlers cannot compute themselves are
    parameters: the uuid `uuidv4()` generates, the row id the engine assigns
    to an INSERT, and the clock reading behind CURRENT_TIMESTAMP. */
module Store {
  import opened Envelope
  import opened Tables
  import Queries

  /** `{id, uuid, title, content}` answered by `articles:create`. */
  datatype CreatedArticle = CreatedArticle(id: nat, uuid: string, title: string, content: string)

  /** `{uuid, title, content}` answered by `articles:update`. */
  datatype EditedArticle = EditedArticle(uuid: string, title: string, content: string)

  /** `{tagId, tagName}` answered by `articles:addTag`. */
  datatype AddedTag = AddedTag(tagId: nat, tagName: string)

  class ArticleStore {
    var articles: seq<Article>
    var tags: seq<Tag>
    var links: set<Link>

    ghost predicate Valid()
      reads this
    {
      WellFormed(articles, tags, links)
    }

    /** Opens a store over tables already on disk. */
    constructor (articles0: seq<Article>, tags0: seq<Tag>, links0: set<Link>)
      requires WellFormed(articles0, tags0, links0)
      ensures Valid()
      ensures articles == articles0 && tags == tags0 && links == links0
    {
      articles, tags, links := articles0, tags0, links0;
    }

    /** `articles:getByUuid`: reads the row, then bumps its view counter.
        The answer is the row as read, before the bump; an unknown uuid
        answers success with no data and changes nothing. */
    method GetByUuid(uuid: string) returns (r: Result<Option<Article>>)
      requires Valid()
      modifies this
      ensures Valid()
      ensures r == Ok(FindArticle(old(articles), uuid))
      ensures articles == Viewed(old(articles), uuid)
      ensures FindArticle(old(articles), uuid).None? ==> articles == old(articles)
      ensures tags == old(tags) && links == old(links)
    {
      var article := FindArticle(articles, uuid);
      ViewedBumpsFoundRow(articles, uuid);
      if article.Some? {
        articles := Viewed(articles, uuid);
      }
      r := Ok(article);
    }

    /** `articles:create`: inserts one row with the generated uuid; the
        other rows stay as they were. */
    method Create(freshId: nat, freshUuid: string, title: string, content: string, now: nat)
      returns (r: Result<CreatedArticle>)
      requires Valid()
      requires freshId !in ArticleIds(articles) && freshUuid !in Uuids(articles)
      modifies this
      ensures Valid()
      ensures articles == old(articles) + [NewArticle(freshId, freshUuid, title, content, now)]
      ensures tags == old(tags) && links == old(links)
      ensures r == Ok(CreatedArticle(freshId, freshUuid, title, content))
    {
      var row := NewArticle(freshId, freshUuid, title, content, now);
      AppendFresh(articles, row);
      articles := articles + [row];
      r := Ok(CreatedArticle(freshId, freshUuid, title, content));
    }

    /** `articles:update`: rewrites title, content and updatedAt of the row
        with that uuid. The answer echoes the inputs and is a success even
        when no row matched. */
    method Update(uuid: string, title: string, content: string, now: nat)
      returns (r: Result<EditedArticle>)
      requires Valid()
      modifies this
      ensures Valid()
      ensures articles == Edited(old(articles), uuid, title, content, now)
      ensures FindArticle(old(articles), uuid).None? ==> articles == old(articles)
      ensures tags == old(tags) && links == old(links)
      ensures r == Ok(EditedArticle(uuid, title, content))
    {
      EditedChangesFoundRow(articles, uuid, title, content, now);
      articles := Edited(articles, uuid, title, content, now);
      r := Ok(EditedArticle(uuid, title, content));
    }

    /** `articles:delete`: removes the row with that uuid and touches no
        pair of article_tags. */
    method Delete(uuid: string) returns (r: Result<Ack>)
      requires Valid()
      modifies this
      ensures Valid()
      ensures articles == Without(old(articles), uuid)
      ensures tags == old(tags) && links == old(links)
      ensures r == Ok(Ack)
    {
      WithoutRemovesOnlyMatch(articles, uuid);
      articles := Without(articles, uuid);
      r := Ok(Ack);
    }

    /** `articles:addTag`: finds or creates the tag by name, and only then
        looks the article up. An unknown article answers "Article not found"
        with no new pair, but keeps the tag just created. Otherwise the pair
        is inserted unless already present (INSERT OR IGNORE). */
    method AddTag(uuid: string, tagName: string, freshTagId: nat, now: nat)
      returns (r: Result<AddedTag>)
      requires Valid()
      requires freshTagId !in TagIds(tags)
      modifies this
      ensures Valid()
      ensures articles == old(articles)
      ensures tags == EnsureTag(old(tags), tagName, freshTagId, now)
      ensures match FindArticle(old(articles), uuid)
        case None =>
          r == Err(Queries.ArticleNotFound) && links == old(links)
        case Some(a) =>
          var tagId := TagIdFor(old(tags), tagName, freshTagId);
          r == Ok(AddedTag(tagId, tagName)) && links == old(links) + {Link(a.id, tagId)}
    {
      EnsureTagFinds(tags, links, tagName, freshTagId, now);
      var tag := FindTag(tags, tagName);
      var tagId: nat;
      if tag.None? {
        tags := tags + [Tag(freshTagId, tagName, now)];
        tagId := freshTagId;
      } else {
        tagId := tag.value.id;
      }
      var article := FindArticle(articles, uuid);
      if article.None? {
        return Err(Queries.ArticleNotFound);
      }
      links := links + {Link(article.value.id, tagId)};
      r := Ok(AddedTag(tagId, tagName));
    }

    /** `articles:removeTag`: an unknown article answers "Article not found"
        and changes nothing; otherwise the one pair is deleted, and the
        answer is a success whether or not the pair existed. */
    method RemoveTag(uuid: string, tagId: nat) returns (r: Result<Ack>)
      requires Valid()
      modifies this
      ensures Valid()
      ensures articles == old(articles) && tags == old(tags)
      ensures match FindArticle(old(articles), uuid)
        case None => r == Err(Queries.ArticleNotFound) && links == old(links)
        case Some(a) => r == Ok(Ack) && links == old(links) - {Link(a.id, tagId)}
    {
      var article := FindArticle(articles, uuid);
      if article.None? {
        return Err(Queries.ArticleNotFound);
      }
      links := links - {Link(article.value.id, tagId)};
      r := Ok(Ack);
    }
  }
}
