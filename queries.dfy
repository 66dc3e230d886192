/** The read-only request handlers: `articles:list`, `tags:list`,
    `articles:getTags`, `articles:searchByTag` and `articles:search`, each a
    function of the tables it reads. */
module Queries {
  import opened Envelope
  import opened Tables
  import Rows
  import Like

  // ----- ORDER BY keys -----

  /** The sortable columns. */
  datatype Column = CreatedAt | UpdatedAt | ViewCount | Title

  datatype Direction = Asc | Desc

  function ColumnName(c: Column): string {
    match c
    case CreatedAt => "createdAt"
    case UpdatedAt => "updatedAt"
    case ViewCount => "viewCount"
    case Title => "title"
  }

  /** The allow-list `validSortColumns`: the column of that exact name, if any. */
  function ColumnNamed(s: string): (r: Option<Column>)
    ensures r.Some? ==> ColumnName(r.value) == s
  {
    if s == "createdAt" then Some(CreatedAt)
    else if s == "updatedAt" then Some(UpdatedAt)
    else if s == "viewCount" then Some(ViewCount)
    else if s == "title" then Some(Title)
    else None
  }

  function DirectionNamed(s: string): (r: Option<Direction>)
    ensures r == Some(Asc) <==> s == "ASC"
    ensures r == Some(Desc) <==> s == "DESC"
  {
    if s == "ASC" then Some(Asc) else if s == "DESC" then Some(Desc) else None
  }

  /** The allow-list recognises exactly the four column names. */
  lemma ColumnNamesRoundTrip(c: Column)
    ensures ColumnNamed(ColumnName(c)) == Some(c)
  {
  }

  /** `sortColumn` of `articles:list`: an absent `sortBy` defaults to
      updatedAt, and a value outside the allow-list falls back to it. */
  function SortColumn(sortBy: Option<string>): (c: Column)
    ensures sortBy.Some? && ColumnNamed(sortBy.value).Some? ==> ColumnName(c) == sortBy.value
    ensures (sortBy.None? || ColumnNamed(sortBy.value).None?) ==> c == UpdatedAt
  {
    match ColumnNamed(sortBy.GetOr("updatedAt"))
    case Some(c) => c
    case None => UpdatedAt
  }

  /** `validOrder` of `articles:list`: ASC or DESC, otherwise DESC. */
  function SortDirection(order: Option<string>): (d: Direction)
    ensures d == Asc <==> order == Some("ASC")
  {
    match DirectionNamed(order.GetOr("DESC"))
    case Some(d) => d
    case None => Desc
  }

  /** Lexicographic order on strings (SQLite's BINARY collation compares the
      UTF-8 bytes, which orders code points the same way). */
  predicate TextLe(a: string, b: string)
    decreases |a|
  {
    a == [] || (b != [] && (a[0] < b[0] || (a[0] == b[0] && TextLe(a[1..], b[1..]))))
  }

  lemma {:induction false} TextLeTotal(a: string, b: string)
    ensures TextLe(a, b) || TextLe(b, a)
  {
    if a != [] && b != [] && a[0] == b[0] {
      TextLeTotal(a[1..], b[1..]);
    }
  }

  lemma {:induction false} TextLeTransitive(a: string, b: string, c: string)
    requires TextLe(a, b) && TextLe(b, c)
    ensures TextLe(a, c)
  {
    if a != [] && b != [] && c != [] && a[0] == b[0] && b[0] == c[0] {
      TextLeTransitive(a[1..], b[1..], c[1..]);
    }
  }

  predicate KeyLe(a: Article, b: Article, c: Column) {
    match c
    case CreatedAt => a.createdAt <= b.createdAt
    case UpdatedAt => a.updatedAt <= b.updatedAt
    case ViewCount => a.viewCount <= b.viewCount
    case Title => TextLe(a.title, b.title)
  }

  /** `ORDER BY c d` as a comparison: may `a` come before `b`? */
  function OrderBy(c: Column, d: Direction): (Article, Article) -> bool {
    (a: Article, b: Article) => if d == Asc then KeyLe(a, b, c) else KeyLe(b, a, c)
  }

  /** Every ORDER BY key is a total preorder. */
  lemma OrderByPreorder(c: Column, d: Direction)
    ensures Rows.Preorder(OrderBy(c, d))
  {
    var le := OrderBy(c, d);
    forall a, b ensures le(a, b) || le(b, a) {
      TextLeTotal(a.title, b.title);
    }
    forall a, b, x | le(a, b) && le(b, x) ensures le(a, x) {
      if c == Title {
        if d == Asc { TextLeTransitive(a.title, b.title, x.title); }
        else { TextLeTransitive(x.title, b.title, a.title); }
      }
    }
  }

  function NameLe(): (Tag, Tag) -> bool {
    (a: Tag, b: Tag) => TextLe(a.name, b.name)
  }

  lemma NameLePreorder()
    ensures Rows.Preorder(NameLe())
  {
    var le := NameLe();
    forall a, b ensures le(a, b) || le(b, a) {
      TextLeTotal(a.name, b.name);
    }
    forall a, b, x | le(a, b) && le(b, x) ensures le(a, x) {
      TextLeTransitive(a.name, b.name, x.name);
    }
  }

  // ----- articles:list -----

  /** The payload of `articles:list`; an absent field takes its default. */
  datatype ListOptions = ListOptions(
    sortBy: Option<string>, order: Option<string>, limit: Option<int>, offset: Option<int>)

  const DefaultLimit := 100
  const DefaultOffset := 0

  /** Every article, ordered by the sanitised column and direction, then cut
      to the requested window. */
  function List(articles: seq<Article>, opts: ListOptions): (r: Result<seq<Article>>)
    ensures r.Ok?
    ensures |r.data| <= |articles|
    ensures opts.limit.GetOr(DefaultLimit) >= 0 ==> |r.data| <= opts.limit.GetOr(DefaultLimit)
  {
    var le := OrderBy(SortColumn(opts.sortBy), SortDirection(opts.order));
    Ok(Rows.Page(Rows.Sort(articles, le), opts.limit.GetOr(DefaultLimit), opts.offset.GetOr(DefaultOffset)))
  }

  /** `articles:list` never fails: its answer is a window [offset,
      offset + limit) of an ordering of the whole table by the sanitised key,
      holding at most `limit` rows (100 by default), every one of them a
      stored article, no article twice. */
  lemma ListMeaning(articles: seq<Article>, opts: ListOptions)
    requires UniqueArticles(articles)
    ensures var r := List(articles, opts);
      var le := OrderBy(SortColumn(opts.sortBy), SortDirection(opts.order));
      var limit := opts.limit.GetOr(DefaultLimit);
      && r.Ok?
      && (exists o :: Rows.IsOrdering(o, articles, le) && r.data == Rows.Page(o, limit, opts.offset.GetOr(DefaultOffset)))
      && (limit >= 0 ==> |r.data| <= limit)
      && Rows.Sorted(r.data, le)
      && Rows.Distinct(r.data)
      && (forall a :: a in r.data ==> a in articles)
  {
    var le := OrderBy(SortColumn(opts.sortBy), SortDirection(opts.order));
    var o := Rows.Sort(articles, le);
    OrderByPreorder(SortColumn(opts.sortBy), SortDirection(opts.order));
    Rows.SortIsOrdering(articles, le);
    Rows.PermutationDistinct(o, articles);
    Rows.PageKeeps(o, opts.limit.GetOr(DefaultLimit), opts.offset.GetOr(DefaultOffset), le);
    forall a | a in o ensures a in articles {
      assert a in multiset(o);
    }
  }

  /** A `sortBy` outside the allow-list behaves exactly as an absent one,
      and an `order` other than ASC/DESC exactly as DESC: bad sort input is
      never an error. */
  lemma ListSanitisesSort(articles: seq<Article>, opts: ListOptions, badSort: string, badOrder: string)
    requires ColumnNamed(badSort).None? && DirectionNamed(badOrder).None?
    ensures List(articles, opts.(sortBy := Some(badSort))) == List(articles, opts.(sortBy := None))
    ensures List(articles, opts.(order := Some(badOrder))) == List(articles, opts.(order := Some("DESC")))
    ensures List(articles, opts.(sortBy := Some(badSort), order := Some(badOrder))).Ok?
  {
  }

  // ----- tags:list -----

  /** Every tag, ordered by name. */
  function ListTags(tags: seq<Tag>): (r: Result<seq<Tag>>)
    ensures r.Ok?
    ensures multiset(r.data) == multiset(tags)
  {
    Ok(Rows.Sort(tags, NameLe()))
  }

  /** `tags:list` returns every tag once, in ascending name order. */
  lemma ListTagsMeaning(tags: seq<Tag>)
    requires UniqueTags(tags)
    ensures ListTags(tags).Ok?
    ensures Rows.IsOrdering(ListTags(tags).data, tags, NameLe())
    ensures Rows.Distinct(ListTags(tags).data)
    ensures forall t :: t in ListTags(tags).data <==> t in tags
  {
    NameLePreorder();
    Rows.SortIsOrdering(tags, NameLe());
    Rows.PermutationDistinct(ListTags(tags).data, tags);
    forall t ensures t in ListTags(tags).data <==> t in tags {
      assert t in ListTags(tags).data <==> t in multiset(ListTags(tags).data);
    }
  }

  // ----- articles:getTags -----

  /** The `t.id, t.name` columns of a tag row. */
  datatype TagRef = TagRef(id: nat, name: string)

  /** The id and name of each tag paired with the article, in the order of
      the tags table (the join's order is the engine's choice). */
  function TagsOf(tags: seq<Tag>, links: set<Link>, articleId: nat): (r: seq<TagRef>)
    ensures forall t :: t in tags && Link(articleId, t.id) in links ==> TagRef(t.id, t.name) in r
    ensures forall x :: x in r ==> exists t :: t in tags && Link(articleId, t.id) in links && x == TagRef(t.id, t.name)
    ensures UniqueTags(tags) ==> Rows.Distinct(r)
  {
    if tags == [] then []
    else
      var rest := TagsOf(tags[1..], links, articleId);
      var head := TagRef(tags[0].id, tags[0].name);
      UniqueTagsTail(tags);
      assert UniqueTags(tags) ==> head !in rest;
      Rows.DistinctCons(head, rest);
      if Link(articleId, tags[0].id) in links then [head] + rest else rest
  }

  /** The rest of a table with unique keys has unique keys, and none of its
      rows shares the first row's id. */
  lemma UniqueTagsTail(tags: seq<Tag>)
    requires tags != []
    ensures UniqueTags(tags) ==> UniqueTags(tags[1..])
    ensures UniqueTags(tags) ==> forall t :: t in tags[1..] ==> t.id != tags[0].id
  {
    if UniqueTags(tags) {
      var rest := tags[1..];
      forall i, j | 0 <= i < j < |rest| ensures rest[i] != rest[j] {
        assert rest[i] == tags[i + 1] && rest[j] == tags[j + 1];
      }
      forall t | t in rest ensures t.id != tags[0].id {
        var k :| 0 <= k < |rest| && rest[k] == t;
        assert tags[k + 1] == t && tags[0] != t;
      }
    }
  }

  const ArticleNotFound := "Article not found"

  function GetTags(articles: seq<Article>, tags: seq<Tag>, links: set<Link>, uuid: string): (r: Result<seq<TagRef>>)
    ensures r.Err? <==> uuid !in Uuids(articles)
    ensures r.Err? ==> r.error == ArticleNotFound
  {
    match FindArticle(articles, uuid)
    case None => Err(ArticleNotFound)
    case Some(a) => Ok(TagsOf(tags, links, a.id))
  }

  /** `articles:getTags` fails with "Article not found" exactly when no
      article has the uuid; otherwise it lists exactly the tags paired with
      that article. */
  lemma GetTagsMeaning(articles: seq<Article>, tags: seq<Tag>, links: set<Link>, uuid: string)
    ensures var r := GetTags(articles, tags, links, uuid);
      && (r == Err(ArticleNotFound) <==> uuid !in Uuids(articles))
      && (r.Ok? ==> forall t :: t in tags ==>
            (TagRef(t.id, t.name) in r.data <==> Link(FindArticle(articles, uuid).value.id, t.id) in links))
      && (UniqueTags(tags) ==> (r.Ok? ==> Rows.Distinct(r.data)))
  {
  }

  // ----- the spliced ORDER BY of articles:search and articles:searchByTag -----

  /** Both search handlers paste `sortBy` (default updatedAt) and `order`
      (default DESC) into the statement text unchecked. The model reads the
      clause only when it names an allow-listed column and ASC or DESC;
      anything else (which the engine may run, for instance `id` or `asc`,
      or reject) gets no reading, and the handlers answer an `Err` that
      stands for an outcome the model does not specify. */
  function SplicedOrder(sortBy: Option<string>, order: Option<string>): (r: Option<(Column, Direction)>)
    ensures r.Some? ==> ColumnName(r.value.0) == sortBy.GetOr("updatedAt")
    ensures r.Some? ==> (r.value.1 == Asc <==> order.GetOr("DESC") == "ASC")
    ensures r.Some? ==> r.value == (SortColumn(sortBy), SortDirection(order))
    ensures r.None? <==> ColumnNamed(sortBy.GetOr("updatedAt")).None? || DirectionNamed(order.GetOr("DESC")).None?
  {
    match (ColumnNamed(sortBy.GetOr("updatedAt")), DirectionNamed(order.GetOr("DESC")))
    case (Some(c), Some(d)) => Some((c, d))
    case _ => None
  }

  const UncheckedOrderBy := "ORDER BY clause outside the allow-list"

  // ----- articles:searchByTag -----

  datatype TagSearch = TagSearch(tagName: string, sortBy: Option<string>, order: Option<string>)

  /** Does some tag named `name` pair with `a`? */
  predicate Tagged(a: Article, tags: seq<Tag>, links: set<Link>, name: string) {
    exists t :: t in tags && t.name == name && Link(a.id, t.id) in links
  }

  /** The articles paired with a tag of that name, each row once, ordered by
      the spliced sort clause. */
  function SearchByTag(articles: seq<Article>, tags: seq<Tag>, links: set<Link>, q: TagSearch): (r: Result<seq<Article>>)
    ensures r.Err? <==> SplicedOrder(q.sortBy, q.order).None?
    ensures r.Err? ==> r.error == UncheckedOrderBy
    ensures r.Ok? ==> |r.data| <= |articles|
  {
    match SplicedOrder(q.sortBy, q.order)
    case None => Err(UncheckedOrderBy)
    case Some((c, d)) =>
      Ok(Rows.Sort(Rows.Filter(articles, (a: Article) => Tagged(a, tags, links, q.tagName)), OrderBy(c, d)))
  }

  /** With an allow-listed sort, `articles:searchByTag` returns each article
      carrying a tag of exactly that name once and nothing else, ordered by
      the key. Any other spliced sort clause gets the answer `Err`, which
      stands for an outcome the model does not specify. */
  lemma SearchByTagMeaning(articles: seq<Article>, tags: seq<Tag>, links: set<Link>, q: TagSearch)
    requires UniqueArticles(articles)
    ensures var r := SearchByTag(articles, tags, links, q);
      && (r.Ok? <==> SplicedOrder(q.sortBy, q.order).Some?)
      && (r.Ok? ==>
            && Rows.Distinct(r.data)
            && Rows.Sorted(r.data, OrderBy(SplicedOrder(q.sortBy, q.order).value.0, SplicedOrder(q.sortBy, q.order).value.1))
            && forall a :: a in r.data <==> a in articles && Tagged(a, tags, links, q.tagName))
  {
    var r := SearchByTag(articles, tags, links, q);
    if r.Ok? {
      var (c, d) := SplicedOrder(q.sortBy, q.order).value;
      var rows := Rows.Filter(articles, (a: Article) => Tagged(a, tags, links, q.tagName));
      OrderByPreorder(c, d);
      Rows.SortIsOrdering(rows, OrderBy(c, d));
      Rows.PermutationDistinct(r.data, rows);
      forall a ensures a in r.data <==> a in rows {
        assert a in r.data <==> a in multiset(r.data);
      }
    }
  }

  // ----- articles:search -----

  datatype TextSearch = TextSearch(keyword: string, sortBy: Option<string>, order: Option<string>)

  /** The title or the content matches the LIKE pattern. */
  predicate MatchesPattern(a: Article, pattern: string) {
    Like.Like(pattern, a.title) || Like.Like(pattern, a.content)
  }

  /** The articles whose title or content matches `%keyword%`, ordered by
      the spliced sort clause. */
  function Search(articles: seq<Article>, q: TextSearch): (r: Result<seq<Article>>)
    ensures r.Err? <==> SplicedOrder(q.sortBy, q.order).None?
    ensures r.Err? ==> r.error == UncheckedOrderBy
    ensures r.Ok? ==> |r.data| <= |articles|
  {
    var pattern := "%" + q.keyword + "%";
    match SplicedOrder(q.sortBy, q.order)
    case None => Err(UncheckedOrderBy)
    case Some((c, d)) =>
      Ok(Rows.Sort(Rows.Filter(articles, (a: Article) => MatchesPattern(a, pattern)), OrderBy(c, d)))
  }

  /** With an allow-listed sort, `articles:search` returns exactly the
      articles whose title or content matches `%keyword%`, each once, ordered
      by the key; for a keyword without wildcards that means the title or
      content contains the keyword, ASCII case aside, and the empty keyword
      returns every article. Any other spliced sort clause gets the answer
      `Err`, an outcome the model does not specify. */
  lemma SearchMeaning(articles: seq<Article>, q: TextSearch)
    requires UniqueArticles(articles)
    ensures var r := Search(articles, q);
      && (r.Ok? <==> SplicedOrder(q.sortBy, q.order).Some?)
      && (r.Ok? ==>
            && Rows.Distinct(r.data)
            && Rows.Sorted(r.data, OrderBy(SplicedOrder(q.sortBy, q.order).value.0, SplicedOrder(q.sortBy, q.order).value.1))
            && (forall a :: a in r.data <==> a in articles && MatchesPattern(a, "%" + q.keyword + "%"))
            && (Like.PlainKeyword(q.keyword) ==> forall a :: a in r.data <==>
                  a in articles &&
                  (Like.Infix(Like.FoldAll(q.keyword), Like.FoldAll(a.title)) ||
                   Like.Infix(Like.FoldAll(q.keyword), Like.FoldAll(a.content))))
            && (q.keyword == [] ==> multiset(r.data) == multiset(articles)))
  {
    var r := Search(articles, q);
    if r.Ok? {
      var (c, d) := SplicedOrder(q.sortBy, q.order).value;
      var pattern := "%" + q.keyword + "%";
      var rows := Rows.Filter(articles, (a: Article) => MatchesPattern(a, pattern));
      OrderByPreorder(c, d);
      Rows.SortIsOrdering(rows, OrderBy(c, d));
      Rows.PermutationDistinct(r.data, rows);
      forall a ensures a in r.data <==> a in rows {
        assert a in r.data <==> a in multiset(r.data);
      }
      if Like.PlainKeyword(q.keyword) {
        forall a ensures MatchesPattern(a, pattern) <==>
          (Like.Infix(Like.FoldAll(q.keyword), Like.FoldAll(a.title)) ||
           Like.Infix(Like.FoldAll(q.keyword), Like.FoldAll(a.content)))
        {
          Like.InfixPattern(q.keyword, a.title);
          Like.InfixPattern(q.keyword, a.content);
        }
      }
      if q.keyword == [] {
        forall a | a in articles ensures MatchesPattern(a, pattern) {
          Like.EmptyKeywordMatchesAll(a.title);
        }
        Rows.FilterAll(articles, (a: Article) => MatchesPattern(a, pattern));
      }
    }
  }

  /** Only `articles:list` sanitises its sort input: the unknown `sortBy`
      that the list handler replaces with updatedAt reaches both search
      statements unreplaced, where the model answers `Err`, an outcome it
      does not specify. */
  lemma OnlyListSanitises(articles: seq<Article>, tags: seq<Tag>, links: set<Link>, opts: ListOptions, keyword: string, tagName: string, badSort: string)
    requires ColumnNamed(badSort).None?
    ensures List(articles, opts.(sortBy := Some(badSort))).Ok?
    ensures Search(articles, TextSearch(keyword, Some(badSort), opts.order)).Err?
    ensures SearchByTag(articles, tags, links, TagSearch(tagName, Some(badSort), opts.order)).Err?
  {
  }
}
