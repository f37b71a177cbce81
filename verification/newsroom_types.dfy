/** The domain shape of a newsroom and its storage row. */
module NewsroomTypes {
  import opened Wrappers
  import opened Json

  /** The flags controlling downstream indexing and claim behaviour. */
  datatype Meta = Meta(index: bool, claim: bool)

  /** A newsroom as callers see it; `meta` is None for Go's nil `*Meta`. */
  datatype Newsroom = Newsroom(id: nat, name: string, address: string, meta: Option<Meta>)

  /**
   * A row of the newsrooms table. Its articles are not a column: they are the
   * article rows whose newsroom address equals `address`.
   */
  datatype NewsroomRow = NewsroomRow(id: nat, name: string, address: string, meta: Blob<Option<Meta>>)
}
