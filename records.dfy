/**
 * Resource records. A record keeps the optional local name and the origin it was built with,
 * the full name resolved from them when it is constructed, and the remaining columns as
 * the text that is written to the zone file: ttl, class, type, value, and the priority,
 * weight and port that only MX and SRV records use.
 */
module Records {
  import opened Types
  import opened Names

  /** The keyword arguments a record is constructed from. */
  datatype Request = Request(
    name: Option<string>,
    origin: string,
    ttl: string,
    rrClass: string,
    rtype: string,
    value: string,
    priority: Option<string>,
    weight: Option<string>,
    port: Option<string>)

  datatype Record = Record(
    name: Option<string>,
    origin: string,
    fullName: string,
    ttl: string,
    rrClass: string,
    rtype: string,
    value: string,
    priority: Option<string>,
    weight: Option<string>,
    port: Option<string>)

  /** NS, MX and SRV records may share a name and type as long as their values differ. */
  predicate IsMultiValue(rtype: string) {
    rtype == "MX" || rtype == "SRV" || rtype == "NS"
  }

  /**
   * Constructing a record: the full name is resolved from the name and origin, and every
   * argument is kept as given. Without a name or origin there is no record.
   */
  function MakeRecord(q: Request): (r: Result<Record, ZoneError>)
    ensures r.Err? <==> !Given(q.name) && q.origin == ""
    ensures r.Err? ==> r.error == InvalidRecord
    ensures r.Ok? ==> Resolve(q.name, q.origin) == Ok(r.value.fullName)
    ensures r.Ok? ==>
      && r.value.name == q.name && r.value.origin == q.origin
      && r.value.ttl == q.ttl && r.value.rrClass == q.rrClass && r.value.rtype == q.rtype
      && r.value.value == q.value && r.value.priority == q.priority
      && r.value.weight == q.weight && r.value.port == q.port
  {
    match Resolve(q.name, q.origin)
    case Err(e) => Err(e)
    case Ok(full) =>
      Ok(Record(q.name, q.origin, full, q.ttl, q.rrClass, q.rtype, q.value,
                q.priority, q.weight, q.port))
  }

  /** A record's local name can be read back from its full name, and resolves to it again. */
  predicate Canonical(r: Record) {
    LocalName(r.fullName, r.origin) == r.name && Resolve(r.name, r.origin) == Ok(r.fullName)
  }

  /** A record built from an absent or non-empty name is canonical. */
  lemma MadeRecordIsCanonical(q: Request)
    requires Proper(q.name)
    requires MakeRecord(q).Ok?
    ensures Canonical(MakeRecord(q).value)
  {
    LocalNameInvertsResolve(q.name, q.origin);
  }
}
