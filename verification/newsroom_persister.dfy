/**
 * The newsroom store: create, update, attach an article, list, look up by
 * id, and the three queries over a newsroom's articles.
 */
module NewsroomPersister {
  import opened Wrappers
  import opened Errors
  import opened Json
  import opened Eth
  import opened ArticleTypes
  import opened NewsroomTypes
  import opened Encoding
  import opened ArticleMapper
  import opened Db
  import opened ArticlePersister

  /** The address of the newsroom stored under `id`. */
  function AddressOf(s: Store, id: nat): (address: string)
    requires id in s.newsrooms
  {
    s.newsrooms[id].address
  }

  /**
   * Inserts a row with the newsroom's name, address and encoded meta, and
   * returns the newsroom with the generated id. A refused meta value is
   * reported before the insert is tried; an address already in the table is
   * refused by the unique index. Either failure leaves the store as it was.
   */
  function CreateNewsroom(c: Codec, s: Store, n: Newsroom): (r: (Store, Result<Newsroom, Error>))
    requires Valid(s)
    ensures Valid(r.0)
    ensures !c.metaOk(n.meta) ==> r == (s, Err(MarshalFailed))
    ensures c.metaOk(n.meta) && Holders(s, n.address) != {} ==> r == (s, Err(UniqueViolation))
    ensures r.1.Ok? <==> c.metaOk(n.meta) && Holders(s, n.address) == {}
    ensures r.1.Ok? ==>
      var id := r.1.value.id;
      && id != 0 && id !in s.newsrooms
      && r.1.value == n.(id := id)
      && r.0.articles == s.articles
      && r.0.newsrooms.Keys == s.newsrooms.Keys + {id}
      && (forall k | k in s.newsrooms :: r.0.newsrooms[k] == s.newsrooms[k])
      && r.0.newsrooms[id].name == n.name
      && r.0.newsrooms[id].address == n.address
      && Decode(r.0.newsrooms[id].meta) == Some(n.meta)
  {
    match Encode(n.meta, c.metaOk)
    case None => (s, Err(MarshalFailed))
    case Some(bys) =>
      match InsertNewsroom(s, NewsroomRow(0, n.name, n.address, bys))
      case Err(e) => (s, Err(e))
      case Ok((s', id)) => (s', Ok(n.(id := id)))
  }

  /**
   * Loads the row with the newsroom's id, overwrites its name, address and
   * meta, and saves it. Checked in this order: the id must exist, the meta
   * must encode, and the new address must not belong to another newsroom.
   * Articles keep their newsroom address, so a changed address detaches them.
   */
  function UpdateNewsroom(c: Codec, s: Store, n: Newsroom): (r: (Store, Option<Error>))
    requires Valid(s)
    ensures Valid(r.0)
    ensures n.id !in s.newsrooms ==> r == (s, Some(RecordNotFound))
    ensures n.id in s.newsrooms && !c.metaOk(n.meta) ==> r == (s, Some(MarshalFailed))
    ensures n.id in s.newsrooms && c.metaOk(n.meta) && Holders(s, n.address) - {n.id} != {} ==>
      r == (s, Some(UniqueViolation))
    ensures r.1.None? <==> n.id in s.newsrooms && c.metaOk(n.meta) && Holders(s, n.address) - {n.id} == {}
    ensures r.1.None? ==>
      && r.0.articles == s.articles
      && r.0.newsrooms.Keys == s.newsrooms.Keys
      && (forall k | k in s.newsrooms && k != n.id :: r.0.newsrooms[k] == s.newsrooms[k])
      && r.0.newsrooms[n.id].name == n.name
      && r.0.newsrooms[n.id].address == n.address
      && Decode(r.0.newsrooms[n.id].meta) == Some(n.meta)
  {
    if n.id !in s.newsrooms then
      (s, Some(RecordNotFound))
    else
      var row := s.newsrooms[n.id].(name := n.name, address := n.address);
      match Encode(n.meta, c.metaOk)
      case None => (s, Some(MarshalFailed))
      case Some(bys) =>
        match UpdateNewsroomRow(s, row.(meta := bys))
        case Err(e) => (s, Some(e))
        case Ok(s') => (s', None)
  }

  /**
   * Attaches an article to the newsroom with id `newsroomId`: the article is
   * mapped first (a refused value is reported even when the newsroom does not
   * exist), then the newsroom is looked up, then the article row is saved with
   * the newsroom's address as its newsroom address.
   */
  function AddArticle(c: Codec, s: Store, newsroomId: nat, a: Article): (r: (Store, Option<Error>))
    requires Valid(s)
    ensures Valid(r.0)
    ensures !(c.metadataOk(a.metadata) && (HasTx(a.blockData) ==> c.receiptOk(a.blockData))) ==>
      r == (s, Some(MarshalFailed))
    ensures c.metadataOk(a.metadata) && (HasTx(a.blockData) ==> c.receiptOk(a.blockData)) && newsroomId !in s.newsrooms ==>
      r == (s, Some(RecordNotFound))
    ensures r.1.None? <==>
      c.metadataOk(a.metadata) && (HasTx(a.blockData) ==> c.receiptOk(a.blockData)) && newsroomId in s.newsrooms
    ensures r.1.None? ==> r.0.newsrooms == s.newsrooms
    ensures r.1.None? && a.id != 0 ==>
      && r.0.articles.Keys == s.articles.Keys + {a.id}
      && (forall k | k in s.articles && k != a.id :: r.0.articles[k] == s.articles[k])
      && ArticleByID(r.0, a.id) == Ok(Expected(a).(newsroomAddress := AddressOf(s, newsroomId)))
    ensures r.1.None? && a.id == 0 ==>
      && |r.0.articles| == |s.articles| + 1
      && (forall k | k in s.articles :: k in r.0.articles && r.0.articles[k] == s.articles[k])
  {
    var (row, err) := PopulateFromArticle(c, EmptyRow, a);
    if err.Some? then
      (s, err)
    else if newsroomId !in s.newsrooms then
      (s, Some(RecordNotFound))
    else
      var (s', id) := SaveArticle(s, row.(newsroomAddress := AddressOf(s, newsroomId)));
      (s', None)
  }

  /**
   * Looks a newsroom up by primary key. Unlike the listing, a meta column
   * that does not decode fails the whole call.
   */
  function NewsroomByID(s: Store, id: nat): (r: Result<Newsroom, Error>)
    requires Valid(s)
    ensures id !in s.newsrooms ==> r == Err(RecordNotFound)
    ensures id in s.newsrooms && !s.newsrooms[id].meta.Doc? ==> r == Err(MetaUnmarshalFailed)
    ensures r.Ok? <==> id in s.newsrooms && s.newsrooms[id].meta.Doc?
    ensures r.Ok? ==>
      && r.value.id == id
      && r.value.name == s.newsrooms[id].name
      && r.value.address == s.newsrooms[id].address
      && r.value.meta == s.newsrooms[id].meta.value
  {
    if id !in s.newsrooms then
      Err(RecordNotFound)
    else
      var row := s.newsrooms[id];
      match Decode(row.meta)
      case None => Err(MetaUnmarshalFailed)
      case Some(meta) => Ok(Newsroom(row.id, row.name, row.address, meta))
  }

  /**
   * The conversion loop of the listing: slot `i` stays empty when row `i`'s
   * meta does not decode, and otherwise carries that row's newsroom.
   */
  method ConvertNewsrooms(rows: seq<NewsroomRow>) returns (newsrooms: seq<Option<Newsroom>>)
    ensures |newsrooms| == |rows|
    ensures forall i | 0 <= i < |rows| :: newsrooms[i].None? <==> !rows[i].meta.Doc?
    ensures forall i | 0 <= i < |rows| && newsrooms[i].Some? ::
      newsrooms[i].value == Newsroom(rows[i].id, rows[i].name, rows[i].address, rows[i].meta.value)
  {
    newsrooms := seq(|rows|, i => None);
    var ind := 0;
    while ind < |rows|
      invariant 0 <= ind <= |rows|
      invariant |newsrooms| == |rows|
      invariant forall i | ind <= i < |rows| :: newsrooms[i].None?
      invariant forall i | 0 <= i < ind :: newsrooms[i].None? <==> !rows[i].meta.Doc?
      invariant forall i | 0 <= i < ind && newsrooms[i].Some? ::
        newsrooms[i].value == Newsroom(rows[i].id, rows[i].name, rows[i].address, rows[i].meta.value)
    {
      var nr := rows[ind];
      match Decode(nr.meta) {
        case None =>
          // the Go code logs the error and leaves the slot nil
        case Some(meta) =>
          newsrooms := newsrooms[ind := Some(Newsroom(nr.id, nr.name, nr.address, meta))];
      }
      ind := ind + 1;
    }
  }

  /**
   * All newsrooms, one slot per row, in the order the database returns them.
   * A row whose meta does not decode leaves its slot empty instead of failing
   * the listing; every other slot holds what NewsroomByID returns for it.
   */
  method Newsrooms(s: Store) returns (newsrooms: seq<Option<Newsroom>>)
    requires Valid(s)
    ensures |newsrooms| == |s.newsrooms|
    ensures forall i | 0 <= i < |newsrooms| && newsrooms[i].Some? ::
      NewsroomByID(s, newsrooms[i].value.id) == Ok(newsrooms[i].value)
    ensures forall i, j | 0 <= i < j < |newsrooms| && newsrooms[i].Some? && newsrooms[j].Some? ::
      newsrooms[i].value.id != newsrooms[j].value.id
    ensures forall k | k in s.newsrooms && NewsroomByID(s, k).Ok? :: Some(NewsroomByID(s, k).value) in newsrooms
  {
    var rows := SelectNewsrooms(s);
    newsrooms := ConvertNewsrooms(rows);
    forall k | k in s.newsrooms && NewsroomByID(s, k).Ok? ensures Some(NewsroomByID(s, k).value) in newsrooms {
      var i :| 0 <= i < |rows| && rows[i] == s.newsrooms[k];
      assert newsrooms[i] == Some(NewsroomByID(s, k).value);
    }
  }

  /**
   * `articles` lists the articles stored under `keys`, each exactly once and
   * as ArticleByID returns it, in some order.
   */
  ghost predicate ListsExactly(s: Store, articles: seq<Article>, keys: set<nat>)
    requires Valid(s)
  {
    && |articles| == |keys|
    && (forall i | 0 <= i < |articles| :: articles[i].id in keys && ArticleByID(s, articles[i].id) == Ok(articles[i]))
    && (forall i, j | 0 <= i < j < |articles| :: articles[i].id != articles[j].id)
    && (forall k | k in keys :: exists i :: 0 <= i < |articles| && articles[i].id == k)
  }

  /**
   * Converts the rows one by one, keeping length and order; any conversion
   * error would abort the whole list, but ConvertToArticle never fails.
   */
  method ConvertedArticles(rows: seq<ArticleRow>) returns (r: Result<seq<Article>, Error>)
    ensures r.Ok?
    ensures |r.value| == |rows|
    ensures forall i | 0 <= i < |rows| :: Ok(r.value[i]) == ConvertToArticle(rows[i])
  {
    var articles := seq(|rows|, i => ZeroArticle);
    var i := 0;
    while i < |rows|
      invariant 0 <= i <= |rows|
      invariant |articles| == |rows|
      invariant forall j | 0 <= j < i :: Ok(articles[j]) == ConvertToArticle(rows[j])
    {
      match ConvertToArticle(rows[i]) {
        case Ok(converted) =>
          articles := articles[i := converted];
      }
      i := i + 1;
    }
    r := Ok(articles);
  }

  /** Converts the rows stored under `keys`, which the caller has selected. */
  method ConvertSelection(s: Store, keys: set<nat>) returns (articles: seq<Article>)
    requires Valid(s)
    requires keys <= s.articles.Keys
    ensures ListsExactly(s, articles, keys)
  {
    var rows := SelectArticles(s, keys);
    var converted := ConvertedArticles(rows);
    articles := converted.value;
    forall k | k in keys ensures exists i :: 0 <= i < |articles| && articles[i].id == k {
      var i :| 0 <= i < |rows| && rows[i] == s.articles[k];
      assert articles[i].id == k;
    }
  }

  /** The newsroom's articles, as stored when the call is made, in unspecified order. */
  method GetArticlesForNewsroom(s: Store, newsroomId: nat) returns (r: Result<seq<Article>, Error>)
    requires Valid(s)
    ensures r.Err? <==> newsroomId !in s.newsrooms
    ensures r.Err? ==> r.error == RecordNotFound
    ensures r.Ok? ==> ListsExactly(s, r.value, Associated(s, AddressOf(s, newsroomId)))
  {
    if newsroomId !in s.newsrooms {
      return Err(RecordNotFound);
    }
    var articles := ConvertSelection(s, Associated(s, AddressOf(s, newsroomId)));
    r := Ok(articles);
  }

  /** The ids of the newsroom's articles indexed at or after `date`. */
  function AssociatedSince(s: Store, address: string, date: Time): (keys: set<nat>)
    ensures keys <= Associated(s, address)
    ensures forall k | k in Associated(s, address) :: k in keys <==> s.articles[k].indexedTimestamp >= date
  {
    set k | k in Associated(s, address) && s.articles[k].indexedTimestamp >= date
  }

  /** The newsroom's articles whose indexed timestamp is at or after `date`. */
  method GetArticlesForNewsroomIndexedSinceDate(s: Store, newsroomId: nat, date: Time) returns (r: Result<seq<Article>, Error>)
    requires Valid(s)
    ensures r.Err? <==> newsroomId !in s.newsrooms
    ensures r.Err? ==> r.error == RecordNotFound
    ensures r.Ok? ==> ListsExactly(s, r.value, AssociatedSince(s, AddressOf(s, newsroomId), date))
    ensures r.Ok? ==> forall i | 0 <= i < |r.value| :: r.value[i].indexedTimestamp >= date
  {
    if newsroomId !in s.newsrooms {
      return Err(RecordNotFound);
    }
    var articles := ConvertSelection(s, AssociatedSince(s, AddressOf(s, newsroomId), date));
    r := Ok(articles);
  }

  /** The revision date an article row has once read back; zero when its metadata does not decode. */
  function RevisionDateOf(row: ArticleRow): (t: Time) {
    ConvertToArticle(row).value.metadata.revisionDate
  }

  /**
   * The newsroom's article with the greatest revision date (any one of them
   * on a tie). A missing newsroom is reported before an empty one, and an
   * empty one with ErrNoArticles rather than an empty success.
   */
  method GetLatestArticleForNewsroom(s: Store, newsroomId: nat) returns (r: Result<Article, Error>)
    requires Valid(s)
    ensures newsroomId !in s.newsrooms ==> r == Err(RecordNotFound)
    ensures newsroomId in s.newsrooms && Associated(s, AddressOf(s, newsroomId)) == {} ==> r == Err(NoArticles)
    ensures r.Ok? <==> newsroomId in s.newsrooms && Associated(s, AddressOf(s, newsroomId)) != {}
    ensures r.Ok? ==>
      && r.value.id in Associated(s, AddressOf(s, newsroomId))
      && ArticleByID(s, r.value.id) == r
      && forall k | k in Associated(s, AddressOf(s, newsroomId)) :: RevisionDateOf(s.articles[k]) <= r.value.metadata.revisionDate
  {
    if newsroomId !in s.newsrooms {
      return Err(RecordNotFound);
    }
    var keys := Associated(s, AddressOf(s, newsroomId));
    var rows := SelectArticles(s, keys);
    if |rows| == 0 {
      return Err(NoArticles);
    }
    var best := 0;
    var i := 1;
    while i < |rows|
      invariant 0 <= best < |rows|
      invariant 1 <= i <= |rows|
      invariant forall j | 0 <= j < i :: RevisionDateOf(rows[j]) <= RevisionDateOf(rows[best])
    {
      if RevisionDateOf(rows[i]) > RevisionDateOf(rows[best]) {
        best := i;
      }
      i := i + 1;
    }
    match ConvertToArticle(rows[best])
    case Ok(converted) =>
      forall k | k in keys ensures RevisionDateOf(s.articles[k]) <= converted.metadata.revisionDate {
        var j :| 0 <= j < |rows| && rows[j] == s.articles[k];
      }
      r := Ok(converted);
  }

  /** CreateNewsroom followed by NewsroomByID on the new id returns the newsroom as created. */
  lemma CreateThenFind(c: Codec, s: Store, n: Newsroom)
    requires Valid(s)
    requires c.metaOk(n.meta)
    requires Holders(s, n.address) == {}
    ensures
      var (s', r) := CreateNewsroom(c, s, n);
      && r.Ok?
      && NewsroomByID(s', r.value.id) == Ok(n.(id := r.value.id))
  {
  }

  /** UpdateNewsroom followed by NewsroomByID on the same id returns the newsroom as given. */
  lemma UpdateThenFind(c: Codec, s: Store, n: Newsroom)
    requires Valid(s)
    requires n.id in s.newsrooms
    requires c.metaOk(n.meta)
    requires Holders(s, n.address) - {n.id} == {}
    ensures
      var (s', err) := UpdateNewsroom(c, s, n);
      && err.None?
      && NewsroomByID(s', n.id) == Ok(n)
  {
  }

  /**
   * Creating a second newsroom with an address already created fails with the
   * unique-index error, and the store still holds exactly one newsroom with
   * that address.
   */
  lemma DuplicateAddressRejected(c: Codec, s: Store, first: Newsroom, second: Newsroom)
    requires Valid(s)
    requires c.metaOk(first.meta) && c.metaOk(second.meta)
    requires CreateNewsroom(c, s, first).1.Ok?
    requires second.address == first.address
    ensures
      var s1 := CreateNewsroom(c, s, first).0;
      && CreateNewsroom(c, s1, second) == (s1, Err(UniqueViolation))
      && |Holders(s1, first.address)| == 1
  {
    var (s1, r) := CreateNewsroom(c, s, first);
    HoldersAtMostOne(s1, first.address, r.value.id);
  }

  /**
   * Attaching a new article (id 0) to a newsroom adds exactly one article to
   * that newsroom's association, read back as Expected(a) with the newsroom's
   * address, and leaves every other newsroom's articles as they were.
   */
  lemma AddArticleGrowsAssociation(c: Codec, s: Store, newsroomId: nat, a: Article)
    requires Valid(s)
    requires a.id == 0
    requires newsroomId in s.newsrooms
    requires c.metadataOk(a.metadata) && (HasTx(a.blockData) ==> c.receiptOk(a.blockData))
    ensures
      var s' := AddArticle(c, s, newsroomId, a).0;
      var address := AddressOf(s, newsroomId);
      && Associated(s, address) <= Associated(s', address)
      && |Associated(s', address)| == |Associated(s, address)| + 1
      && (forall k | k in Associated(s', address) - Associated(s, address) ::
            k !in s.articles && ArticleByID(s', k) == Ok(Expected(a).(id := k, newsroomAddress := address)))
      && forall other | other != address :: Associated(s', other) == Associated(s, other)
  {
    var address := AddressOf(s, newsroomId);
    var row := PopulateFromArticle(c, EmptyRow, a).0.(newsroomAddress := address);
    RoundTrip(c, a);
    var (s', k) := SaveArticle(s, row);
    assert AddArticle(c, s, newsroomId, a).0 == s';
    InsertGrowsAssociation(s, row);
  }

  /**
   * Under the Go encoder the newsroom flags always encode, so creating a
   * newsroom fails exactly on a duplicate address and updating one never
   * fails with the marshal error.
   */
  lemma GoNewsroomWritesNeverFailToMarshal(s: Store, n: Newsroom)
    requires Valid(s)
    ensures CreateNewsroom(GoCodec, s, n).1.Err? <==> Holders(s, n.address) != {}
    ensures CreateNewsroom(GoCodec, s, n).1 != Err(MarshalFailed)
    ensures UpdateNewsroom(GoCodec, s, n).1 != Some(MarshalFailed)
  {
  }
}
