/** The article store: create, look up by id, and update. */
module ArticlePersister {
  import opened Wrappers
  import opened Errors
  import opened Json
  import opened Eth
  import opened ArticleTypes
  import opened Encoding
  import opened ArticleMapper
  import opened Db

  /** Looks an article up by primary key and converts its row. */
  function ArticleByID(s: Store, id: nat): (r: Result<Article, Error>)
    requires Valid(s)
    ensures r.Err? <==> id !in s.articles
    ensures r.Err? ==> r.error == RecordNotFound
    ensures r.Ok? ==> r.value.id == id && r == ConvertToArticle(s.articles[id])
  {
    if id !in s.articles then Err(RecordNotFound) else ConvertToArticle(s.articles[id])
  }

  /**
   * Inserts a new row holding only the article's newsroom address, encoded
   * metadata and raw JSON, and returns the article with the generated id.
   * A refused metadata value aborts before anything is inserted.
   */
  function CreateArticle(c: Codec, s: Store, a: Article): (r: (Store, Result<Article, Error>))
    requires Valid(s)
    ensures Valid(r.0)
    ensures r.1.Err? <==> !c.metadataOk(a.metadata)
    ensures r.1.Err? ==> r.1.error == MarshalFailed && r.0 == s
    ensures r.1.Ok? ==>
      var id := r.1.value.id;
      && id != 0 && id !in s.articles
      && r.1.value == a.(id := id)
      && r.0.newsrooms == s.newsrooms
      && r.0.articles.Keys == s.articles.Keys + {id}
      && (forall k | k in s.articles :: r.0.articles[k] == s.articles[k])
      && r.0.articles[id].blockData == Empty
      && r.0.articles[id].indexedTimestamp == ZeroTime
      && Decode(r.0.articles[id].metadata) == Some(a.metadata)
      && r.0.articles[id].newsroomAddress == a.newsroomAddress
      && r.0.articles[id].rawJson == a.rawJson
  {
    match Encode(a.metadata, c.metadataOk)
    case None => (s, Err(MarshalFailed))
    case Some(metaJson) =>
      var row := EmptyRow.(newsroomAddress := a.newsroomAddress, metadata := metaJson, rawJson := a.rawJson);
      var (s', id) := SaveArticle(s, row);
      (s', Ok(a.(id := id)))
  }

  /**
   * Maps the article onto a fresh row and saves it under the article's id,
   * replacing every column of whatever row was there. No existence check is
   * made: an unknown id is written as a new row, and id 0 is inserted under a
   * generated id that is not handed back.
   */
  function UpdateArticle(c: Codec, s: Store, a: Article): (r: (Store, Option<Error>))
    requires Valid(s)
    ensures Valid(r.0)
    ensures r.1.Some? <==> !(c.metadataOk(a.metadata) && (HasTx(a.blockData) ==> c.receiptOk(a.blockData)))
    ensures r.1.Some? ==> r.1.value == MarshalFailed && r.0 == s
    ensures r.1.None? ==> r.0.newsrooms == s.newsrooms
    ensures r.1.None? && a.id != 0 ==>
      && r.0.articles.Keys == s.articles.Keys + {a.id}
      && (forall k | k in s.articles && k != a.id :: r.0.articles[k] == s.articles[k])
    ensures r.1.None? && a.id == 0 ==>
      && |r.0.articles| == |s.articles| + 1
      && (forall k | k in s.articles :: k in r.0.articles && r.0.articles[k] == s.articles[k])
    ensures r.1.None? ==>
      forall k | k in r.0.articles && (k !in s.articles || k == a.id) ::
        ArticleByID(r.0, k) == Ok(Expected(a).(id := k))
  {
    var (row, err) := PopulateFromArticle(c, EmptyRow, a);
    if err.Some? then
      (s, err)
    else
      var (s', id) := SaveArticle(s, row);
      (s', None)
  }

  /** CreateArticle followed by ArticleByID: the article comes back without receipt or indexed time. */
  lemma CreateThenRead(c: Codec, s: Store, a: Article)
    requires Valid(s)
    requires c.metadataOk(a.metadata)
    ensures
      var (s', r) := CreateArticle(c, s, a);
      && r.Ok?
      && ArticleByID(s', r.value.id) == Ok(a.(id := r.value.id, blockData := ZeroReceipt, indexedTimestamp := ZeroTime))
  {
  }

  /**
   * UpdateArticle followed by ArticleByID on the same non-zero id: the article
   * comes back as given, except a receipt without a transaction comes back
   * zero; in particular a receipt with a transaction is visible afterwards.
   */
  lemma UpdateThenRead(c: Codec, s: Store, a: Article)
    requires Valid(s)
    requires a.id != 0
    requires c.metadataOk(a.metadata)
    requires HasTx(a.blockData) ==> c.receiptOk(a.blockData)
    ensures
      var (s', err) := UpdateArticle(c, s, a);
      && err.None?
      && ArticleByID(s', a.id) == Ok(Expected(a))
      && (HasTx(a.blockData) ==> HasTx(ArticleByID(s', a.id).value.blockData))
  {
  }
}
