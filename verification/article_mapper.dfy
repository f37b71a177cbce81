/**
 * The articles table row and the two conversions between it and the domain
 * article: a tolerant decoder and an encoder that can fail only on metadata
 * or receipts the JSON encoder refuses.
 */
module ArticleMapper {
  import opened Wrappers
  import opened Errors
  import opened Json
  import opened Eth
  import opened ArticleTypes
  import opened Encoding

  /** A row of the articles table; the two blobs are jsonb columns. */
  datatype ArticleRow = ArticleRow(
    id: nat,
    blockData: Blob<Receipt>,
    metadata: Blob<Metadata>,
    newsroomAddress: string,
    indexedTimestamp: Time,
    rawJson: seq<byte>)

  /** Go's zero `Gorm{}`: a row not yet filled in. */
  const EmptyRow := ArticleRow(0, Empty, Empty, "", ZeroTime, [])

  const TableName := "articles"

  /** The name of the GIN index over the raw_json column of the articles table. */
  function RawJsonIndexName(): (name: string)
    ensures name == "idx_articles_raw_json"
  {
    "idx_" + TableName + "_raw_json"
  }

  /**
   * Reads a row back as an article. A blob that does not decode leaves its
   * field at the zero value; nothing makes the conversion fail.
   */
  function ConvertToArticle(row: ArticleRow): (r: Result<Article, Error>)
    ensures r.Ok?
    ensures row.blockData.Doc? ==> r.value.blockData == row.blockData.value
    ensures !row.blockData.Doc? ==> r.value.blockData == ZeroReceipt
    ensures row.metadata.Doc? ==> r.value.metadata == row.metadata.value
    ensures !row.metadata.Doc? ==> r.value.metadata == ZeroMetadata
    ensures r.value.id == row.id
    ensures r.value.newsroomAddress == row.newsroomAddress
    ensures r.value.indexedTimestamp == row.indexedTimestamp
    ensures r.value.rawJson == row.rawJson
  {
    var article := ZeroArticle;
    var article := match Decode(row.blockData)
      case Some(blockData) => article.(blockData := blockData)
      case None => article;
    var article := match Decode(row.metadata)
      case Some(metadata) => article.(metadata := metadata)
      case None => article;
    Ok(article.(
      rawJson := row.rawJson,
      id := row.id,
      newsroomAddress := row.newsroomAddress,
      indexedTimestamp := row.indexedTimestamp))
  }

  /**
   * Maps an article onto `row`. The metadata is always encoded; the receipt
   * only when it carries a transaction, otherwise the row keeps the receipt
   * blob it had. A refused metadata value leaves the row untouched; a refused
   * receipt comes after the metadata has already been written into the row.
   */
  function PopulateFromArticle(c: Codec, row: ArticleRow, a: Article): (r: (ArticleRow, Option<Error>))
    ensures !c.metadataOk(a.metadata) ==> r == (row, Some(MarshalFailed))
    ensures c.metadataOk(a.metadata) && HasTx(a.blockData) && !c.receiptOk(a.blockData) ==>
      r == (row.(metadata := Doc(a.metadata)), Some(MarshalFailed))
    ensures r.1.None? <==> c.metadataOk(a.metadata) && (HasTx(a.blockData) ==> c.receiptOk(a.blockData))
    ensures r.1.None? ==> Decode(r.0.metadata) == Some(a.metadata)
    ensures r.1.None? && HasTx(a.blockData) ==> Decode(r.0.blockData) == Some(a.blockData)
    ensures r.1.None? && !HasTx(a.blockData) ==> r.0.blockData == row.blockData
    ensures r.1.None? ==>
      && r.0.newsroomAddress == a.newsroomAddress
      && r.0.indexedTimestamp == a.indexedTimestamp
      && r.0.rawJson == a.rawJson
      && r.0.id == a.id
  {
    match Encode(a.metadata, c.metadataOk)
    case None => (row, Some(MarshalFailed))
    case Some(metaJson) =>
      var row := row.(metadata := metaJson);
      if !HasTx(a.blockData) then
        (CopyScalars(row, a), None)
      else
        match Encode(a.blockData, c.receiptOk)
        case None => (row, Some(MarshalFailed))
        case Some(blockJson) => (CopyScalars(row.(blockData := blockJson), a), None)
  }

  /** The four fields PopulateFromArticle copies verbatim. */
  function CopyScalars(row: ArticleRow, a: Article): (r: ArticleRow) {
    row.(
      newsroomAddress := a.newsroomAddress,
      indexedTimestamp := a.indexedTimestamp,
      rawJson := a.rawJson,
      id := a.id)
  }

  /** The article `ConvertToArticle(PopulateFromArticle(a))` yields: `a`, minus a receipt without a transaction. */
  function Expected(a: Article): (e: Article) {
    if HasTx(a.blockData) then a else a.(blockData := ZeroReceipt)
  }

  /**
   * Round trip through a fresh row: an article whose metadata, and whose
   * receipt if it has a transaction, the encoder accepts comes back as
   * itself, except that a receipt without a transaction comes back zero.
   */
  lemma RoundTrip(c: Codec, a: Article)
    requires c.metadataOk(a.metadata)
    requires HasTx(a.blockData) ==> c.receiptOk(a.blockData)
    ensures PopulateFromArticle(c, EmptyRow, a).1.None?
    ensures ConvertToArticle(PopulateFromArticle(c, EmptyRow, a).0) == Ok(Expected(a))
    ensures HasTx(a.blockData) || a.blockData == ZeroReceipt ==>
      ConvertToArticle(PopulateFromArticle(c, EmptyRow, a).0) == Ok(a)
  {
  }

  /**
   * The round trip is not exact for every encodable article: a receipt whose
   * hash is zero but whose other fields are set is dropped on the way in.
   */
  lemma RoundTripDropsReceiptWithoutTx(c: Codec, a: Article)
    requires c.metadataOk(a.metadata)
    requires !HasTx(a.blockData) && a.blockData != ZeroReceipt
    ensures ConvertToArticle(PopulateFromArticle(c, EmptyRow, a).0) != Ok(a)
  {
  }

  /**
   * Under the Go encoder, populating a row fails exactly when the revision
   * date or the original publish date lies outside years 0-9999; receipts
   * never make it fail.
   */
  lemma GoPopulateFailsOnlyOnTimeRange(row: ArticleRow, a: Article)
    ensures PopulateFromArticle(GoCodec, row, a).1.Some? <==>
      !TimeMarshalable(a.metadata.revisionDate) || !TimeMarshalable(a.metadata.originalPublishDate)
    ensures PopulateFromArticle(GoCodec, row, a).1.Some? ==>
      PopulateFromArticle(GoCodec, row, a) == (row, Some(MarshalFailed))
  {
  }
}
