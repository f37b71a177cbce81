/**
 * The value of a jsonb column, and the encoder and decoder that move a typed
 * value into and out of it. The encoder is abstract: whether it accepts a
 * value is a predicate supplied by the caller (see module Encoding).
 */
module Json {
  import opened Wrappers

  /**
   * A jsonb column holding a document meant to be a `T`:
   * `Empty` is an empty raw message (stored as SQL NULL), `Malformed` is text
   * that does not decode as a `T`, and `Doc(v)` is the encoding of `v`.
   */
  datatype Blob<T> = Empty | Malformed(text: string) | Doc(value: T)

  /** json.Unmarshal: succeeds exactly on a well-formed document. */
  function Decode<T>(b: Blob<T>): (r: Option<T>)
    ensures r.Some? <==> b.Doc?
    ensures b.Doc? ==> r.value == b.value
  {
    match b
    case Doc(v) => Some(v)
    case _ => None
  }

  /**
   * json.Marshal: fails exactly when `marshalable` rejects `x`; otherwise the
   * blob it produces is never empty and decodes back to `x`.
   */
  function Encode<T>(x: T, marshalable: T -> bool): (r: Option<Blob<T>>)
    ensures r.Some? <==> marshalable(x)
    ensures r.Some? ==> r.value != Empty && Decode(r.value) == Some(x)
  {
    if marshalable(x) then Some(Doc(x)) else None
  }
}
