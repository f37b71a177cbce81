/** The failures the persisters hand back to their callers. */
module Errors {

  datatype Error =
    /** json.Marshal refused a value; always fatal to the operation. */
    | MarshalFailed
    /** gorm's record-not-found, from a lookup by primary key. */
    | RecordNotFound
    /** The database rejected a row because of the unique index on newsrooms.address. */
    | UniqueViolation
    /** ErrNoArticles: the newsroom exists but has no articles. */
    | NoArticles
    /** json.Unmarshal failed on a newsroom's meta column during a single lookup. */
    | MetaUnmarshalFailed
}
