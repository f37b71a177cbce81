/** The domain shape of an article, free of persistence concerns. */
module ArticleTypes {
  import opened Eth

  /** An instant in UTC, in nanoseconds since 0001-01-01T00:00:00Z, so Go's zero time.Time is 0. */
  type Time = int

  const ZeroTime: Time := 0

  /** Someone who took part in writing an article. */
  datatype Contributor = Contributor(role: string, name: string)

  /** An image of the article, with an optional content hash for verification. */
  datatype Image = Image(url: string, hash: string, h: int, w: int)

  /** What is indexed about an article. */
  datatype Metadata = Metadata(
    title: string,
    revisionContentHash: string,
    revisionContentUrl: string,
    canonicalUrl: string,
    slug: string,
    description: string,
    contributors: seq<Contributor>,
    images: seq<Image>,
    tags: seq<string>,
    primaryTag: string,
    revisionDate: Time,
    originalPublishDate: Time,
    opinion: bool,
    civilSchemaVersion: string)

  /** Go's zero `Metadata{}`. */
  const ZeroMetadata := Metadata("", "", "", "", "", "", [], [], [], "", ZeroTime, ZeroTime, false, "")

  /**
   * An article. `id` 0 means not yet persisted; `rawJson` is the payload the
   * article was parsed from, kept verbatim.
   */
  datatype Article = Article(
    id: nat,
    blockData: Receipt,
    metadata: Metadata,
    newsroomAddress: string,
    indexedTimestamp: Time,
    rawJson: seq<byte>)

  /** Go's zero `Article{}`. */
  const ZeroArticle := Article(0, ZeroReceipt, ZeroMetadata, "", ZeroTime, [])
}
