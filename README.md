# lonely-wiki data layer, modelled in Dafny

lonely-wiki is a single-user desktop note-taking application. Its main
process answers eleven named requests from the user interface
(`articles:list`, `articles:getByUuid`, `articles:create`,
`articles:update`, `articles:delete`, `tags:list`, `articles:addTag`,
`articles:removeTag`, `articles:getTags`, `articles:searchByTag`,
`articles:search`). It answers them from a local SQLite file holding three
tables: articles, tags, and the `article_tags` pairs that link them. Every
answer is an envelope, either `{success: true, data}` or
`{success: false, error}`. One module-level handle (`dbInstance`) holds the
database for the process.

This project models that layer over an in-memory picture of the three
tables:

- `envelope.dfy` (`Envelope`): the `Result` envelope, and an `Option` for
  payload fields left `undefined`.
- `tables.dfy` (`Tables`): article, tag and pair rows. It also holds the
  uuid and name lookups the handlers run, the uniqueness the schema's
  constraints keep (`WellFormed`), and the row changes made by the
  UPDATE, INSERT and DELETE statements. Lemmas say exactly what each
  change touches.
- `rows.dfy` (`Rows`): WHERE as a filter, ORDER BY as a sort under a total
  preorder, and LIMIT/OFFSET as SQLite reads them. A negative LIMIT means no
  bound, and a negative OFFSET counts as zero. `IsOrdering` says what any
  correct engine may answer to an ORDER BY. The model's stable sort is one
  such answer.
- `like.dfy` (`Like`): SQLite's LIKE with no ESCAPE clause. `%` matches
  any run of characters, `_` matches one character, and ASCII letters match
  regardless of case. A lemma shows what the search pattern `%keyword%`
  means.
- `queries.dfy` (`Queries`): the five read-only handlers as functions of
  the tables. It also has the sort allow-list of `articles:list` and the
  ORDER BY that the two search handlers splice in unchecked.
- `store.dfy` (`Store`): class `ArticleStore`, whose fields are the three
  tables. Its methods are the six handlers that change them, and each says
  what the new tables are.
- `database.dfy` (`DatabaseHandle`): class `Handle`, modelling
  `dbInstance`, `initializeDatabase` and `getDatabase`. Two client methods
  use it. `InitializeTwice` shows that `getDatabase` hands out the store
  `initializeDatabase` holds, and that a second initialisation keeps it.
  `ServeAfterInit` shows that this store meets the handlers'
  precondition and serves a request.
- `scenarios.dfy` (`Scenarios`): properties that span several calls. These
  are create then read, update then read, tagging twice, deleting a tagged
  article, reusing a deleted article's id, paging, and a client method
  that runs the create / tag / tag / search / delete / search sequence.

Some inputs are values the code cannot compute itself, so they become
parameters:

- the uuid from `uuidv4()`, required to be unused;
- the row id SQLite gives an INSERT, required to be unused by any current
  row;
- the clock reading behind `CURRENT_TIMESTAMP` and the column defaults
  (`now: nat`);
- whether the `init()` of a new database succeeds.

Some behaviours of the code are worth knowing before reading the
contracts:

- `articles:delete` deletes only the article row; its pairs stay in
  article_tags. `Scenarios.DeleteLeavesPairs` and
  `Scenarios.ReusedIdInheritsTags` show what follows from this.
- Only `articles:list` checks its sort input against an allow-list. The
  two search handlers paste `sortBy` and `order` into the statement text
  (src/ipc-handlers.js:185 and :203; `Queries.OnlyListSanitises`).
- `articles:addTag` finds or creates the tag before it looks the article
  up. An unknown article therefore still leaves a new tag behind.
- `articles:update` reports success even when no row has the uuid.
- `articles:search` ignores case only for ASCII letters, which is SQLite's
  default LIKE behaviour.

## Model

| member | source | states |
|---|---|---|
| `Tables.FindArticle` | src/ipc-handlers.js:29 | the uuid lookup finds a stored row carrying that uuid, and finds nothing exactly when no row carries it |
| `Tables.FindTag` | src/ipc-handlers.js:105 | the name lookup finds a stored tag of exactly that name, and nothing exactly when none has it |
| `Tables.FindArticleUnique` | src/ipc-handlers.js:112 | under UNIQUE(uuid) the lookup returns the one row with the uuid |
| `Tables.ViewedBumpsFoundRow` | src/ipc-handlers.js:32 | the view-count UPDATE raises the found row's viewCount by exactly 1, changes no other field or row, changes nothing for an unknown uuid, and keeps keys unique |
| `Tables.EditedChangesFoundRow` | src/ipc-handlers.js:63-66 | the UPDATE sets title, content and updatedAt := now on the row with the uuid, keeps its id, uuid, viewCount and createdAt, leaves other rows alone, and changes nothing for an unknown uuid |
| `Tables.WithoutRemovesOnlyMatch` | src/ipc-handlers.js:79 | the DELETE removes exactly the row with the uuid (one row fewer if it existed, none otherwise), keeps every other row, and the uuid no longer resolves |
| `Tables.AppendFresh` | src/ipc-handlers.js:47-50 | inserting a row with an unused id and uuid keeps both keys unique, and the new uuid then resolves to that row |
| `Tables.EnsureTagFinds` | src/ipc-handlers.js:104-109 | find-or-create adds exactly one tag row (with the fresh id) when the name is unknown and none otherwise; afterwards the name resolves to the id the handler reports |
| `Tables.NewArticle` | src/ipc-handlers.js:47-50 | the inserted row carries the given id, uuid, title and content, viewCount 0 and both timestamps `now` (the column defaults); what inserting it keeps is `Tables.AppendFresh` and `Scenarios.CreateThenView` |
| `Tables.Viewed` | src/ipc-handlers.js:32 | the view bump rewrites the table row for row, keeping every id and uuid and never lowering a count; its exact effect is `Tables.ViewedBumpsFoundRow` |
| `Tables.Edited` | src/ipc-handlers.js:63-66 | the edit rewrites the table row for row, keeping every id, uuid, viewCount and createdAt; its exact effect is `Tables.EditedChangesFoundRow` |
| `Tables.Without` | src/ipc-handlers.js:79 | the DELETE keeps exactly the rows without that uuid and never adds one; its exact effect is `Tables.WithoutRemovesOnlyMatch` |
| `Tables.TagIdFor` | src/ipc-handlers.js:104-109 | the id reported is that of a tag with the name when one exists, and the engine-assigned fresh id otherwise; `Tables.EnsureTagFinds` shows the name then resolves to it |
| `Tables.EnsureTag` | src/ipc-handlers.js:104-109 | find-or-create only appends: the table grows by exactly the row `(freshId, name, now)` when no tag has the name, and stays the same when one does; `Tables.EnsureTagFinds` keeps the invariants |
| `Rows.Filter` | src/ipc-handlers.js:202 | a WHERE keeps exactly the rows satisfying the condition and keeps distinct rows distinct |
| `Rows.SortIsOrdering` | src/ipc-handlers.js:16 | the model's ORDER BY returns a permutation of the rows sorted by the key, one of the answers the engine may give |
| `Rows.OrderingUnique` | src/ipc-handlers.js:16 | when no two rows tie on the key, ORDER BY has only one correct answer |
| `Rows.Page` | src/ipc-handlers.js:16-17 | LIMIT/OFFSET returns the rows from the offset on, consecutively; there are exactly `limit` of them when that many remain after the offset, and otherwise (or with a negative limit) all the rows that remain; a negative offset counts as zero |
| `Rows.PagesDisjoint` | src/ipc-handlers.js:16-17 | pages with non-overlapping windows over distinct rows share no row |
| `Like.InfixPattern` | src/ipc-handlers.js:198-202 | for a keyword without `%` or `_`, `text LIKE '%keyword%'` holds exactly when the text contains the keyword, ASCII case aside |
| `Like.EmptyKeywordMatchesAll` | src/ipc-handlers.js:198 | the pattern built from an empty keyword matches every text |
| `Queries.ColumnNamed` | src/ipc-handlers.js:11-12 | the allow-list recognises a column only under its exact name |
| `Queries.ColumnNamesRoundTrip` | src/ipc-handlers.js:11 | each of the four sortable columns is recognised by its own name |
| `Queries.DirectionNamed` | src/ipc-handlers.js:13 | the order allow-list recognises exactly "ASC" and "DESC" |
| `Queries.SortColumn` | src/ipc-handlers.js:9-12 | an allow-listed `sortBy` picks that column; an absent or unknown one gives updatedAt |
| `Queries.SortDirection` | src/ipc-handlers.js:9-13 | the direction is ascending exactly when `order` is "ASC"; anything else, absent included, gives DESC |
| `Queries.OrderByPreorder` | src/ipc-handlers.js:16 | each column and direction orders articles by a total preorder, titles by code point |
| `Queries.List` | src/ipc-handlers.js:7-18 | `articles:list` always succeeds, with no more rows than the table and at most `limit` (100 by default); its full meaning is `Queries.ListMeaning` |
| `Queries.ListMeaning` | src/ipc-handlers.js:7-18 | `articles:list` always succeeds; its data is the [offset, offset+limit) window of an ordering of all articles by the sanitised key; it holds at most `limit` rows (100 by default), each a stored article, none twice |
| `Queries.ListSanitisesSort` | src/ipc-handlers.js:11-13 | a `sortBy` outside the allow-list gives the same answer as an absent one, and a bad `order` the same as DESC; neither is an error |
| `Queries.ListTags` | src/ipc-handlers.js:88-97 | `tags:list` always succeeds and returns a permutation of the tags table; `Queries.ListTagsMeaning` adds the name order |
| `Queries.ListTagsMeaning` | src/ipc-handlers.js:91-92 | `tags:list` returns every tag exactly once, sorted by name |
| `Queries.TagsOf` | src/ipc-handlers.js:162-167 | the join returns a tag's id and name exactly when the tag is paired with the article, and under unique tag keys lists no tag twice |
| `Queries.GetTags` | src/ipc-handlers.js:153-174 | `articles:getTags` fails, with "Article not found", exactly when no article has the uuid; what it lists is `Queries.GetTagsMeaning` |
| `Queries.GetTagsMeaning` | src/ipc-handlers.js:157-169 | `articles:getTags` fails with "Article not found" exactly when the uuid is unknown, and otherwise lists exactly the tags paired with that article, each once when tag keys are unique |
| `Queries.SplicedOrder` | src/ipc-handlers.js:185 | the clause spliced into both searches (also at src/ipc-handlers.js:203) is read only when it names an allow-listed column and ASC or DESC, and then means the same column and direction `articles:list` would pick for that input |
| `Queries.SearchByTag` | src/ipc-handlers.js:177-193 | `articles:searchByTag` answers `Err` (an outcome the model does not specify) exactly when the spliced sort clause is outside the allow-list, and otherwise returns no more rows than the table; its full meaning is `Queries.SearchByTagMeaning` |
| `Queries.SearchByTagMeaning` | src/ipc-handlers.js:181-188 | with an allow-listed sort, `articles:searchByTag` returns each article paired with a tag of exactly that name once and nothing else, sorted by the key; a sort clause outside the allow-list gets `Err`, an outcome the model does not specify |
| `Queries.Search` | src/ipc-handlers.js:196-211 | `articles:search` answers `Err` (an outcome the model does not specify) exactly when the spliced sort clause is outside the allow-list, and otherwise returns no more rows than the table; its full meaning is `Queries.SearchMeaning` |
| `Queries.SearchMeaning` | src/ipc-handlers.js:198-206 | with an allow-listed sort, `articles:search` returns exactly the articles whose title or content matches `%keyword%`, each once, sorted; a plain keyword means containment ignoring ASCII case; an empty keyword returns every article; another sort clause gets `Err`, an outcome the model does not specify |
| `Queries.OnlyListSanitises` | src/ipc-handlers.js:201-203 | the unknown `sortBy` that `articles:list` replaces with updatedAt reaches both search statements unreplaced; the model answers `Err` there, an outcome it does not specify |
| `Store.ArticleStore.constructor` | src/db/database.js:7 | a store opened over well-formed tables holds exactly those tables |
| `Store.ArticleStore.GetByUuid` | src/ipc-handlers.js:26-39 | answers success with the row as read before the bump (absent for an unknown uuid); the stored tables become the view-bumped ones; an unknown uuid changes nothing |
| `Store.ArticleStore.Create` | src/ipc-handlers.js:42-56 | appends exactly one row (fresh id and uuid, the given title and content, viewCount 0, both timestamps now), touches nothing else, and echoes `{id, uuid, title, content}` |
| `Store.ArticleStore.Update` | src/ipc-handlers.js:59-72 | the articles become the edited ones; an unknown uuid changes nothing yet still answers success echoing `{uuid, title, content}` |
| `Store.ArticleStore.Delete` | src/ipc-handlers.js:75-85 | removes the row with the uuid, leaves tags and all pairs untouched, and answers success |
| `Store.ArticleStore.AddTag` | src/ipc-handlers.js:100-128 | the tag is found or created first; an unknown article then answers "Article not found" with no new pair, keeping any new tag; otherwise the pair is added as a set member (re-adding is a no-op), answering `{tagId, tagName}` |
| `Store.ArticleStore.RemoveTag` | src/ipc-handlers.js:131-150 | an unknown uuid answers "Article not found" and changes nothing; otherwise exactly the one pair is removed, and the answer is success whether or not it existed |
| `DatabaseHandle.Handle.constructor` | src/db/database.js:3 | the handle starts out holding nothing, which satisfies its invariant (`Handle.Valid`: a held store keeps the tables' invariants) |
| `DatabaseHandle.Handle.InitializeDatabase` | src/db/database.js:5-11 | with nothing held, constructs and holds a new valid store before its init runs, so a failed init still leaves it held; with a store held, constructs nothing and returns the held store; the handle stays valid |
| `DatabaseHandle.Handle.GetDatabase` | src/db/database.js:13-18 | fails with "Database not initialized. Call initializeDatabase() first." exactly when nothing is held, and otherwise returns the held store, which is valid |
| `Scenarios.CreateThenView` | src/ipc-handlers.js:29-51 | a created article reads back with its title and content and viewCount 0, and that read leaves the stored count at 1 |
| `Scenarios.UpdateThenRead` | src/ipc-handlers.js:29-67 | after an update, reading the article gives the new title, content and updatedAt and the old id, viewCount and createdAt |
| `Scenarios.AddTagTwice` | src/ipc-handlers.js:104-121 | a second addTag with the same name creates no tag, reports the same tag id and adds no second pair |
| `Scenarios.DeleteLeavesPairs` | src/ipc-handlers.js:79 | after deletion `articles:getTags` for the uuid fails and no tag search returns the article, although its pairs remain stored |
| `Scenarios.ReusedIdInheritsTags` | src/ipc-handlers.js:79 | an article created later under a deleted article's id starts out carrying the deleted article's tags |
| `Scenarios.ListPagination` | src/ipc-handlers.js:16-17 | with five articles, the page of two at offset 2 holds exactly two articles, none on the page at offset 0, when both calls break ties the model's way |
| `Scenarios.ListPaginationAnyEngine` | src/ipc-handlers.js:16-17 | when no two of the five articles tie on the sort key, the same holds for any orderings the engine gives the two calls |

## Left out

- The SQLite engine itself is not modelled: statement parsing, the
  sqlite3 callbacks, `lastID`/`changes`, the file location and the schema
  text. `src/db/schema.sql` and `src/db/init.js` are not part of this
  model. The uniqueness of `uuid`, of `tags.name` and of
  `(articleId, tagId)` is carried as the invariant `WellFormed` and is not
  derived from a schema. Foreign keys are treated as not enforced.
- Row ids are parameters that must be unused by any current row. This
  covers both engines that never reuse ids and engines that reuse a
  deleted row's id. `Scenarios.ReusedIdInheritsTags` shows what reuse
  means.
- Integers are unbounded `nat`s. In the source, row ids from `lastID`
  (src/db/init.js:55) and the `viewCount + 1` bump (src/ipc-handlers.js:32)
  are 64-bit SQLite integers and JavaScript numbers. Their bounds are not
  modelled, since no single-user table comes near them.
- Timestamps are clock values (`nat`), not SQLite's text format. The
  clock is a parameter.
- Any input not shown here is left out: SQL NULLs or a non-string
  `title`/`content`/`keyword`, and a non-integer `limit` or `offset`. The
  model takes strings and integers.
- Queries.SplicedOrder: the search handlers paste `sortBy` and `order` into
  the statement text. The model answers only the exact allow-listed column
  names with "ASC" or "DESC". Every other clause gives an `Err`, including
  some SQLite would accept (lower-case "desc", other columns) and injected
  SQL. What such input really does cannot be modelled.
- Engine I/O failures are not modelled: a locked or unreadable file, or a
  store whose init failed, which the application quits on at
  src/main.js:88-93. That is, the `catch` clauses returning
  `{success: false, error: err.message}` are not modelled, except for the
  rejected sort clause above. All such errors are opaque text.
- The model fixes a stable order among rows with equal sort keys. The
  handler lemmas (`Queries.ListMeaning`, `Queries.SearchMeaning`,
  `Queries.SearchByTagMeaning`, `Queries.ListTagsMeaning`) state their
  results through `Rows.IsOrdering`, so they hold for any tie order an
  engine picks. `Scenarios.ListPagination` is the exception.
- Scenarios.ListPagination: the two pages are disjoint only when both
  calls break ties the same way, as the model's sort does. With equal keys
  (such as updatedAt values from the same second of `CURRENT_TIMESTAMP`),
  the engine may order the two calls differently and the pages may
  overlap. `Scenarios.ListPaginationAnyEngine` states the disjointness
  that holds for every engine, which needs no ties.
- Like.Like: case folding covers ASCII letters only. That is SQLite's
  default; `PRAGMA case_sensitive_like` and ICU collation are not modelled.
- The dispatch by `ipcMain.handle` is outside the model: how handlers are
  registered, and how a `getDatabase()` failure reaches the caller as a
  rejected promise rather than an envelope. The handlers are methods of a
  store obtained from `DatabaseHandle.Handle.GetDatabase`.
- Asynchronous scheduling is not modelled. Each handler is treated as
  atomic, since the application has a single user.
- Platform glue and the user interface are not modelled: window and log
  setup, the IPC bridge, auto-update, renderer components, markdown
  rendering, and the test and build scripts.
