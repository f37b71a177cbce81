# Article and newsroom persisters, modelled in Dafny

This project models the data-access layer that stores two related entities in
Postgres through gorm: **articles** and **newsrooms**. A newsroom owns its
articles by address. An article row's `newsroom_address` must equal the
newsroom's `address`. There is no numeric foreign key.

The model has two parts.

1. **The article row mapper** (`article_mapper.dfy`). `PopulateFromArticle` maps
   a domain article onto a row. `ConvertToArticle` reads a row back. The row's
   `BlockData` (an Ethereum transaction receipt) and `ArticleMetadata` are jsonb
   blobs. Encoding the metadata can fail, and that failure is fatal. The receipt
   is encoded only when its transaction hash is non-zero. Decoding never fails:
   a blob that does not decode leaves its field at Go's zero value.
2. **The persisters over an abstract store** (`db.dfy`, `article_persister.dfy`,
   `newsroom_persister.dfy`). The database is two maps from primary key to row,
   plus a next-id counter per table. The counter is a modelling device that
   hands out fresh ids; it is not Postgres's sequence (see "## Left out").
   `Db.Valid` is the model's invariant over this store:
   - every row sits under its own id;
   - ids are positive and below the table's next-id counter;
   - no two newsrooms share an address (the unique index).

   Every operation requires `Valid` of its input store and re-establishes it.
   `Db.EmptyStore` satisfies it.

Modelling choices:

- **JSON codec.** `Json.Blob<T>` is a jsonb column meant to hold a `T`. It is
  `Empty` (SQL NULL), `Malformed`, or `Doc(v)`. `Json.Decode` fails on the first
  two. Whether `json.Marshal` accepts a value is library code outside the model,
  so every operation takes an `Encoding.Codec`: one acceptance predicate per type
  (metadata, receipt, newsroom meta). `Json.Encode` fails exactly when the
  predicate says no. When it succeeds, the result decodes back to the value.
- **The Go encoder.** `Encoding.GoCodec` is its concrete instance.
  `time.Time.MarshalJSON` refuses years outside 0–9999, so metadata fails when
  either of its two times is out of that range. Receipts and newsroom flags
  always encode.
- **Times.** A time is an integer count of nanoseconds since
  0001-01-01T00:00:00Z, so Go's zero `time.Time` is 0.
- **Transaction hashes and addresses.** `Eth.Hash` is 32 bytes and
  `Eth.Address` is 20 bytes. `Eth.ZeroHash` stands for `ethCommon.Hash{}`, and
  `Eth.ZeroReceipt` carries the zero address, as Go's zero receipt does.
- **Saving a row.** gorm's `Save` inserts a row with id 0 under a fresh id. Any
  other id overwrites, or creates, the row under that id. `Create` always
  inserts.
- **Unordered queries.** `Find` and `Preload` have no `ORDER BY`, so their row
  order is unspecified. They are methods (`Db.SelectNewsrooms`,
  `Db.SelectArticles`) that enumerate rows in an order of their own choosing.
  The operations built on them state their results up to that order.
- **Mutated inputs.** The Go code writes the generated id back into its input
  (`CreateArticle`, `CreateNewsroom`). The model returns the updated value
  instead.

Three behaviours of the code are easy to miss:

- `UpdateArticle` makes no existence check
  (`pkg/models/article/articlegormpgpersister.go:159-171`). It maps the article
  onto a fresh row and saves it under the article's id. An id that is not in the
  table therefore becomes a new row, and the call never fails with not-found.
- `PopulateFromArticle` writes the receipt only when its transaction hash is
  non-zero (`pkg/models/article/articlegormpgpersister.go:69`). A receipt whose
  hash is zero is dropped even when its other fields are set, so it reads back
  as the zero receipt (`ArticleMapper.RoundTripDropsReceiptWithoutTx`).
- `Newsrooms()` allocates one slot per row
  (`pkg/models/newsroom/newsroomgormpgpersister.go:144`). A row whose meta does
  not decode is logged and skipped with `continue`
  (`pkg/models/newsroom/newsroomgormpgpersister.go:155-160`), so its slot stays
  nil and the list keeps its length (`NewsroomPersister.ConvertNewsrooms`).

## Model

| member | source | states |
|---|---|---|
| ArticleMapper.ConvertToArticle | pkg/models/article/articlegormpgpersister.go:38-59 | Never fails. A blob that is not a well-formed document leaves the receipt or metadata at its zero value. RawJSON, ID, NewsroomAddress and IndexedTimestamp are copied verbatim. |
| ArticleMapper.PopulateFromArticle | pkg/models/article/articlegormpgpersister.go:61-83 | A refused metadata value returns the error with the row untouched. A refused receipt returns the error after the metadata is already in the row. It succeeds iff the metadata encodes and, when there is a transaction, the receipt encodes. The receipt blob is written only when TxHash is non-zero; otherwise the row keeps its prior blob. The four scalar fields are copied verbatim. |
| ArticleMapper.RoundTrip | pkg/models/article/articlegormpgpersister.go:39-83 | For a fresh row, ConvertToArticle(PopulateFromArticle(a)) returns a, with the receipt zeroed when it has no transaction. The result is exactly a when the receipt has a transaction or is entirely zero. |
| ArticleMapper.RoundTripDropsReceiptWithoutTx | pkg/models/article/articlegormpgpersister.go:69-75 | A receipt with a zero hash but other fields set does not survive the round trip. |
| ArticleMapper.GoPopulateFailsOnlyOnTimeRange | pkg/models/article/articlegormpgpersister.go:63-72 | With Go's encoder, mapping fails exactly when RevisionDate or OriginalPublishDate lies outside years 0-9999, and then the row is untouched. The receipt never causes the failure. |
| ArticleMapper.RawJsonIndexName | pkg/models/article/articlegormpgpersister.go:117-118 | The GIN index over raw_json is named idx_articles_raw_json. |
| Db.SaveArticle | pkg/models/article/articlegormpgpersister.go:166-168 | Saving a row with id 0 inserts it under an id not yet in the table. Any other row is written under its own id. The newsrooms table is unchanged and the store stays valid. |
| Db.InsertNewsroom | pkg/models/newsroom/newsroomgormpgpersister.go:34 | The insert fails with the unique-index error iff some newsroom already has the address. Otherwise the row is stored under a fresh non-zero id and nothing else changes. |
| Db.UpdateNewsroomRow | pkg/models/newsroom/newsroomgormpgpersister.go:112-113 | Saving an existing newsroom row fails iff another newsroom holds its address. Otherwise only that row changes. |
| Db.HoldersAtMostOne | pkg/models/newsroom/newsroomgormpgpersister.go:34 | In a valid store, a newsroom with a given address is the only one with that address. |
| Db.InsertGrowsAssociation | pkg/models/newsroom/newsroomgormpgpersister.go:36 | Inserting an article row adds its new id to the association of its own newsroom address, and to no other address. |
| Db.SelectNewsrooms | pkg/models/newsroom/newsroomgormpgpersister.go:140 | Find returns every newsroom row exactly once, in some order. |
| Db.SelectArticles | pkg/models/newsroom/newsroomgormpgpersister.go:193 | A preload returns every selected article row exactly once, in some order. |
| ArticlePersister.ArticleByID | pkg/models/article/articlegormpgpersister.go:127-135 | Fails with not-found iff the id is absent. Otherwise it returns the stored row converted, carrying that id. |
| ArticlePersister.CreateArticle | pkg/models/article/articlegormpgpersister.go:137-156 | A refused metadata value aborts before any insert. On success, one new row holds only NewsroomAddress, the encoded metadata and RawJSON, with no BlockData and a zero IndexedTimestamp. The input comes back with the new non-zero id, and every other row is unchanged. |
| ArticlePersister.UpdateArticle | pkg/models/article/articlegormpgpersister.go:158-171 | Fails iff mapping fails, and then the store is unchanged. There is no existence check: the row under the article's id is replaced or created, and id 0 inserts a new row. The written row reads back as Expected(a) under its id (a receipt with a zero TxHash comes back as the zero receipt). Every other article row and the newsrooms are unchanged. |
| ArticlePersister.CreateThenRead | pkg/models/article/articlegormpgpersister_test.go:97-108 | ArticleByID after CreateArticle returns the article with its metadata (title included), address and raw JSON. It has the new id, a zero receipt and a zero indexed time. |
| ArticlePersister.UpdateThenRead | pkg/models/article/articlegormpgpersister_test.go:141-153 | ArticleByID after UpdateArticle on a non-zero id returns Expected(a): the article as given, except that a receipt with a zero TxHash comes back as the zero receipt. A receipt with a transaction hash is therefore visible afterwards. |
| NewsroomPersister.CreateNewsroom | pkg/models/newsroom/newsroomgormpgpersister.go:73-93 | A refused meta value fails first, then a taken address fails with the unique-index error; either way the store is unchanged. On success the new row holds exactly Name, Address and the encoded Meta. The newsroom comes back with the fresh id. |
| NewsroomPersister.DuplicateAddressRejected | pkg/models/newsroom/newsroomgormpgpersister_test.go:34-58 | A second create with an address already created fails with the unique-index error. The store still holds exactly one newsroom with that address. |
| NewsroomPersister.CreateThenFind | pkg/models/newsroom/newsroomgormpgpersister_test.go:152-174 | NewsroomByID on the id CreateNewsroom assigned returns the newsroom as created, same id and address. |
| NewsroomPersister.UpdateNewsroom | pkg/models/newsroom/newsroomgormpgpersister.go:95-114 | Checks in order: a missing id fails with not-found, then a refused meta value, then an address held by another newsroom. Otherwise only Name, Address and Meta of that row change, and every other row is unchanged. |
| NewsroomPersister.UpdateThenFind | pkg/models/newsroom/newsroomgormpgpersister.go:96-113 | NewsroomByID after a successful UpdateNewsroom returns the newsroom as given. |
| NewsroomPersister.AddArticle | pkg/models/newsroom/newsroomgormpgpersister.go:116-134 | A mapping error is reported first, even when the newsroom is missing; a missing newsroom fails next. On success the article row is saved with the newsroom's address and newsrooms are unchanged. A non-zero id reads back as Expected(a) with that address, i.e. a receipt with a zero TxHash comes back as the zero receipt; id 0 adds one row. |
| NewsroomPersister.AddArticleGrowsAssociation | pkg/models/newsroom/newsroomgormpgpersister_test.go:121-134 | Adding a new article adds exactly one article to that newsroom's association, read back as Expected(a) with the newsroom's address. Every other address's association is unchanged. |
| NewsroomPersister.GoNewsroomWritesNeverFailToMarshal | pkg/models/newsroom/newsroomgormpgpersister.go:73-114 | With Go's encoder, CreateNewsroom fails exactly when the address is taken, and neither CreateNewsroom nor UpdateNewsroom fails with the marshal error. |
| NewsroomPersister.NewsroomByID | pkg/models/newsroom/newsroomgormpgpersister.go:166-187 | A missing id fails with not-found, and a meta blob that does not decode fails the call. Otherwise it returns the row's ID, Name, Address and decoded Meta. |
| NewsroomPersister.ConvertNewsrooms | pkg/models/newsroom/newsroomgormpgpersister.go:144-161 | The list has the rows' length. Slot i is nil iff row i's Meta does not decode; otherwise it carries row i's ID, Name, Address and Meta. |
| NewsroomPersister.Newsrooms | pkg/models/newsroom/newsroomgormpgpersister.go:136-164 | One slot per stored newsroom. Every filled slot is what NewsroomByID returns for its id, and no id appears twice. Every newsroom NewsroomByID can return appears in the list. |
| NewsroomPersister.ConvertedArticles | pkg/models/newsroom/newsroomgormpgpersister.go:235-246 | Never fails. It preserves length and order: entry i is row i converted. |
| NewsroomPersister.GetArticlesForNewsroom | pkg/models/newsroom/newsroomgormpgpersister.go:189-198 | Fails with not-found iff the newsroom is missing. Otherwise it lists exactly the articles whose NewsroomAddress is the newsroom's Address, each once and as ArticleByID returns it. |
| NewsroomPersister.GetArticlesForNewsroomIndexedSinceDate | pkg/models/newsroom/newsroomgormpgpersister.go:200-208 | Fails with not-found iff the newsroom is missing. Otherwise it lists exactly the associated articles with IndexedTimestamp at or after the date, each once. |
| NewsroomPersister.GetLatestArticleForNewsroom | pkg/models/newsroom/newsroomgormpgpersister.go:210-233 | A missing newsroom fails with not-found, and a newsroom with no articles fails with ErrNoArticles. Otherwise it returns an associated article, as ArticleByID reads it, whose RevisionDate is at least every associated article's. |

## Left out

- Connection setup, pool limits and the gorm connection helper: configuration with no logic of its own.
- The test harness, the credential loader and the migration helper. The stale schema revisions (`newsroom.go`, `article.go`, `newsroom/persisttypes.go`) are not part of this model.
- Errors from the database or the network other than record-not-found and the unique index. They would only be passed back to the caller.
- Concurrency and transactions: the store is a single-threaded value.
- Soft-delete and the `CreatedAt`/`UpdatedAt` bookkeeping columns.
- ArticleMapper.RawJsonIndexName: only the index name is modelled. The `CREATE INDEX` statement it goes into is executed by the database.
- ArticleMapper.ConvertToArticle: returns its result as an always-successful `Result`. So the early error returns that follow it in `convertedArticles` and `GetLatestArticleForNewsroom` cannot be taken, and the model omits them.
- NewsroomPersister.GetLatestArticleForNewsroom: the database sorts by the text of `article_metadata->>'RevisionDate'`, and SQL NULLs come first in descending order. The model takes the maximum decoded RevisionDate instead, with undecodable metadata counting as the zero time.
- NewsroomPersister.Newsrooms: the log line written for a meta blob that does not decode is not modelled.
- Encoding.GoCodec: receipts and newsroom flags always encode. So under it, the receipt-encoding error path of PopulateFromArticle and the meta-encoding error paths of CreateNewsroom and UpdateNewsroom are never taken. They are reachable under other codecs.
- Postgres behaviour around the stored values is not modelled:
  - the jsonb column validates and normalises RawJSON, which the model stores verbatim;
  - timestamps have microsecond precision;
  - times are UTC instants with no location, so the year that `time.Time.MarshalJSON` checks is the UTC year (a Go time in another zone can be accepted although its UTC year is 10000, or refused although its UTC year is 9999);
  - a time keeps no location or monotonic reading after the round trip.
- ArticleMapper.GoPopulateFailsOnlyOnTimeRange: holds for UTC times only. Go checks the year in the time's own location, which the model does not carry.
- ArticlePersister.CreateArticle: in Postgres an insert draws its id from the sequence, which an explicit id does not advance. Once UpdateArticle or AddArticle has written an id explicitly, a later insert can draw that id and fail with a primary-key error. The model never produces this error, because its counter always moves past every id written.
- Db.SaveArticle: the next-id counter moves past every id written, unlike Postgres's sequence. A failed insert in Postgres still consumes a sequence value, and an explicit id does not advance the sequence. The model only promises that new ids are fresh and positive.
- ArticleMapper.RoundTrip: exact only for strings that are valid UTF-8. `json.Marshal` replaces invalid UTF-8 bytes with U+FFFD, and the model's strings are sequences of characters that cannot hold such bytes.
- ID width: Go's `uint` ids are unbounded naturals in the model.
- Receipt logs and bloom filter: the receipt keeps only its scalar fields and transaction hash. In Go, a receipt whose logs are nil is written with `"logs": null`, which go-ethereum's receipt decoder rejects, so it does not decode and reads back as the zero receipt. The model's receipt always decodes, so UpdateThenRead's visible receipt holds in Go only for receipts with non-nil logs.
