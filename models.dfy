/**
 * The records the core passes around (server/src/models.rs) and the shape of a
 * database reply. The timestamps of the rows are not modelled.
 */
module Models {
  import opened Wrappers

  /** A row of the `links` table. */
  datatype Link = Link(
    id: int,
    shortCode: string,
    originalUrl: string,
    title: Option<string>,
    description: Option<string>,
    isActive: bool)

  /** The columns of one new row of the `clicks` table, as `db::log_click` takes them. */
  datatype NewClick = NewClick(
    linkId: int,
    ipAddress: Option<string>,
    userAgent: Option<string>,
    referer: Option<string>,
    browser: Option<string>,
    os: Option<string>,
    deviceType: Option<string>,
    country: Option<string>,
    region: Option<string>,
    city: Option<string>)

  /** What a query against the database gives back: a value or an `sqlx::Error`. */
  datatype DbResult<+T> = Found(value: T) | DbError

  /** The reply of `db::get_link_by_code` for each short code. */
  type CodeLookup = string -> DbResult<Option<Link>>

  /**
   * `db::get_link_by_code` selects `WHERE short_code = ?1 AND is_active = 1`
   * (server/src/db.rs:64-66): a link it returns carries the code asked for and
   * is active.
   */
  ghost predicate SelectsActiveByCode(lookup: CodeLookup) {
    forall code :: lookup(code).Found? && lookup(code).value.Some? ==>
      lookup(code).value.value.shortCode == code && lookup(code).value.value.isActive
  }
}
