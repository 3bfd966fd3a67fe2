/** Optional values, results, and the errors the zone maintainer can end in. */
module Types {

  /** An optional value: Python's `None` or a value. */
  datatype Option<+T> = None | Some(value: T)

  /** The outcome of an operation: a value, or the error where `dns_record.py` raises. */
  datatype Result<+T, +E> = Ok(value: T) | Err(error: E)

  /** Why one zone-file line could not be decoded. */
  datatype ParseReason =
    /** fewer than the four mandatory columns: name, ttl, class, type */
    | MissingColumns(found: nat)
    /** the trailing columns do not fit the declared type */
    | WrongDataColumns(rtype: string, found: nat)

  datatype ZoneError =
    /** neither a local name nor an origin is given, so there is no full name */
    | InvalidRecord
    /** line `line` (counted from 1) of the zone file is malformed */
    | ParseError(line: nat, reason: ParseReason)
}
