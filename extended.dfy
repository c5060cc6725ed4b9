/** The remote per-part lookup of bricks/extended.go, reduced to what the resolver uses. */
module Extended {

  /** ExtendedBiobrick: the name the remote reports, and the rest of the record. */
  datatype ExtendedBiobrick = ExtendedBiobrick(name: string, details: seq<string>)

  /** QueryExtendedBiobricks: an error, or the parts the remote returned for a name. */
  datatype QueryResult = QueryFailed | Found(parts: seq<ExtendedBiobrick>)
}
