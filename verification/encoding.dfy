/** Which values the JSON encoder accepts, per type. */
module Encoding {
  import opened Wrappers
  import opened Eth
  import opened ArticleTypes
  import opened NewsroomTypes

  /**
   * The encoder's verdict on each type it is given. json.Marshal itself is
   * outside the model; an operation takes a `Codec` and fails where it says no.
   */
  datatype Codec = Codec(
    metadataOk: Metadata -> bool,
    receiptOk: Receipt -> bool,
    metaOk: Option<Meta> -> bool)

  const NanosPerDay: int := 86400000000000

  /** The first instant of year 0 (a leap year of 366 days before year 1). */
  const FirstMarshalableTime: Time := -366 * NanosPerDay

  /** The first instant of year 10000: 3652059 days after 0001-01-01. */
  const EndMarshalableTime: Time := 3652059 * NanosPerDay

  /** time.Time.MarshalJSON accepts only years 0 through 9999. */
  predicate TimeMarshalable(t: Time) {
    FirstMarshalableTime <= t < EndMarshalableTime
  }

  /**
   * The Go encoder: metadata fails exactly when one of its two times lies
   * outside years 0-9999; receipts and newsroom flags always encode.
   */
  const GoCodec: Codec := Codec(GoMetadataOk, GoReceiptOk, GoMetaOk)

  predicate GoMetadataOk(m: Metadata) {
    TimeMarshalable(m.revisionDate) && TimeMarshalable(m.originalPublishDate)
  }

  predicate GoReceiptOk(r: Receipt) {
    true
  }

  predicate GoMetaOk(m: Option<Meta>) {
    true
  }
}
