/** The process-wide database handle: `dbInstance` starts out null,
    `initializeDatabase` fills it once, and `getDatabase` hands it out or
    fails when it was never filled. */
module DatabaseHandle {
  import opened Envelope
  import opened Tables
  import opened Store

  const NotInitialized := "Database not initialized. Call initializeDatabase() first."

  /** The message of a rejected `init()`; its text is the engine's. */
  const InitFailed := "database initialisation failed"

  class Handle {
    var instance: Option<ArticleStore>

    /** A held store keeps the tables' invariants. */
    ghost predicate Valid()
      reads this, if instance.Some? then {instance.value} else {}
    {
      instance.Some? ==> instance.value.Valid()
    }

    /** At module load the handle is empty. */
    constructor ()
      ensures Valid()
      ensures instance == None
    {
      instance := None;
    }

    /** `initializeDatabase()`. Only while nothing is held does it construct
        a store (over the tables on disk) and run its initialisation, whose
        outcome `initSucceeds` is. The store is held before initialisation
        runs, so a failed one is still held and no later call retries; every
        later call returns the held store without constructing anything. */
    method InitializeDatabase(articles: seq<Article>, tags: seq<Tag>, links: set<Link>, initSucceeds: bool)
      returns (r: Result<ArticleStore>)
      requires Valid()
      requires WellFormed(articles, tags, links)
      modifies this
      ensures Valid()
      ensures old(instance).Some? ==> instance == old(instance) && r == Ok(old(instance).value)
      ensures old(instance).None? ==>
        && instance.Some? && fresh(instance.value)
        && instance.value.Valid()
        && instance.value.articles == articles && instance.value.tags == tags && instance.value.links == links
        && r == (if initSucceeds then Ok(instance.value) else Err(InitFailed))
    {
      if instance.None? {
        var db := new ArticleStore(articles, tags, links);
        instance := Some(db);
        if !initSucceeds {
          return Err(InitFailed);
        }
      }
      r := Ok(instance.value);
    }

    /** `getDatabase()`: the held store, or the "not initialized" failure.
        The handlers call it before entering their `try`, so this failure
        escapes them as a rejection rather than an `{success: false}` reply. */
    method GetDatabase() returns (r: Result<ArticleStore>)
      requires Valid()
      ensures r.Ok? ==> r.data.Valid()
      ensures instance.None? <==> r == Err(NotInitialized)
      ensures instance.Some? ==> r == Ok(instance.value)
    {
      if instance.None? {
        return Err(NotInitialized);
      }
      r := Ok(instance.value);
    }
  }

  /** A call to `initializeDatabase` followed by `getDatabase` hands out the
      very store the first call returned, and a second initialisation keeps
      it: nothing new is constructed. */
  method InitializeTwice(articles: seq<Article>, tags: seq<Tag>, links: set<Link>, firstOk: bool, secondOk: bool)
    requires WellFormed(articles, tags, links)
  {
    var h := new Handle();
    var before := h.GetDatabase();
    assert before == Err(NotInitialized);
    var first := h.InitializeDatabase(articles, tags, links, firstOk);
    var held := h.instance.value;
    var got := h.GetDatabase();
    assert got == Ok(held);
    assert firstOk ==> first == Ok(held);
    var second := h.InitializeDatabase([], [], {}, secondOk);
    assert second == Ok(held) && h.instance == Some(held);
    assert held.articles == articles;
  }

  /** The store `getDatabase` hands out after a successful initialisation
      is valid, so it can serve a request over the tables it was opened on. */
  method ServeAfterInit(articles: seq<Article>, tags: seq<Tag>, links: set<Link>, uuid: string)
    requires WellFormed(articles, tags, links)
  {
    var h := new Handle();
    var init := h.InitializeDatabase(articles, tags, links, true);
    var got := h.GetDatabase();
    assert got == init;
    var served := got.data.GetByUuid(uuid);
    assert served == Ok(FindArticle(articles, uuid));
  }
}
