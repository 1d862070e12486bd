/**
 * The world happenings shard as the scripts ask for it: a time window sent as
 * decimal strings and a filter name.  What the API answers is an oracle from
 * the query to the happenings, supplied by the caller.
 */
module World {
  import opened Outcomes
  import opened Strings
  import opened Patterns

  /** Happening texts enclose nation names in `@@` and region names in `%%`. */
  const NationMarks := Literal("@@")
  const RegionMarks := Literal("%%")

  /** The `sincetime`, `beforetime` and `filter` arguments, as sent. */
  datatype Query = Query(since: string, before: string, filter: string)

  /** `sincetime=str(since), beforetime=str(before)`: both times read back as the ints sent. */
  function TimeQuery(since: int, before: int, filter: string): (q: Query)
    ensures ParseInt(q.since) == Ok(since) && ParseInt(q.before) == Ok(before)
    ensures q.filter == filter
  {
    ParseIntToString(since);
    ParseIntToString(before);
    Query(IntToString(since), IntToString(before), filter)
  }
}
