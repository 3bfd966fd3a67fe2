/**
 * The maintainer's one read-modify-write pass (`main`): load the zone file, construct the
 * requested record, reconcile it into the zone, and write the whole zone back. The file is
 * passed in as its contents (`None` when it does not exist) and the pass returns the new
 * contents; an error stops the pass before anything is written.
 */
module ZoneStore {
  import opened Types
  import opened PyText
  import opened Names
  import opened Records
  import opened Codec
  import opened Reconcile

  /** The zone file's contents after ensuring that `req` is present, or the error that stops the pass. */
  function Ensure(file: Option<string>, req: Request): Result<string, ZoneError> {
    match DecodeZone(file, req.origin)
    case Err(e) => Err(e)
    case Ok(rrs) =>
      match MakeRecord(req)
      case Err(e) => Err(e)
      case Ok(rr) => Ok(EncodeZone(Reconciled(rrs, rr)))
  }

  /** The pass itself: load, construct, reconcile, write. */
  method EnsurePresent(file: Option<string>, req: Request) returns (written: Result<string, ZoneError>)
    ensures written == Ensure(file, req)
    ensures written.Err? <==>
      DecodeZone(file, req.origin).Err? || (!Given(req.name) && req.origin == "")
    ensures written.Ok? ==>
      && MakeRecord(req).Ok?
      && written.value == EncodeZone(Reconciled(DecodeZone(file, req.origin).value, MakeRecord(req).value))
  {
    var loaded := LoadZone(file, req.origin);
    if loaded.Err? {
      return Err(loaded.error);
    }
    var made := MakeRecord(req);
    if made.Err? {
      return Err(made.error);
    }
    var rrs := Apply(loaded.value, made.value);
    var text := WriteZone(rrs);
    return Ok(text);
  }

  /** Every stored name in the file lies within the origin (a missing file has none). */
  predicate NamesWithinOrigin(file: Option<string>, origin: string) {
    file.Some? ==>
      forall i :: 0 <= i < |Lines(file.value)| ==>
        |Tokens(Lines(file.value)[i])| > 0 && WithinOrigin(Tokens(Lines(file.value)[i])[0], origin)
  }

  /** The request names its record by an absent or non-empty local name, and every column it writes is one token. */
  predicate TidyRequest(req: Request) {
    && Proper(req.name)
    && MakeRecord(req).Ok?
    && TokenColumns(MakeRecord(req).value)
  }

  /** Everything decoded from a file whose stored names lie within the origin is tidy. */
  lemma DecodedZoneIsTidy(file: Option<string>, origin: string)
    requires NamesWithinOrigin(file, origin)
    requires DecodeZone(file, origin).Ok?
    ensures forall i :: 0 <= i < |DecodeZone(file, origin).value| ==>
      Tidy(DecodeZone(file, origin).value[i], origin)
  {
    if file.Some? {
      var lines := Lines(file.value);
      var rs := DecodeZone(file, origin).value;
      DecodeLinesOk(lines, origin, rs);
      forall i | 0 <= i < |rs| ensures Tidy(rs[i], origin) {
        DecodedLineIsTidy(lines[i], origin, i + 1);
      }
    }
  }

  /** A tidy record refreshed from a tidy request of its own key stays tidy. */
  lemma RefreshedIsTidy(a: Record, rr: Record, origin: string)
    requires Tidy(a, origin) && Tidy(rr, origin)
    ensures Tidy(Refreshed(a, rr), origin)
  {
    if SameKey(a, rr) {
      var b := Refreshed(a, rr);
      assert Canonical(b) by {
        assert b.name == a.name && b.origin == a.origin && b.fullName == a.fullName;
      }
      var ca, cr, cb := Columns(a), Columns(rr), Columns(b);
      assert |ca| == |cr| == |cb|;
      forall k | 0 <= k < |cb| ensures IsToken(cb[k]) {
        if k == 1 {
          assert cb[k] == cr[k];
        } else if k == |cb| - 1 {
          assert cb[k] == cr[k];
        } else {
          assert cb[k] == ca[k];
        }
      }
    }
  }

  /**
   * Writing back what was read is lossless: the zone written from a file whose stored names
   * lie within the origin decodes to exactly the records the file decoded to.
   */
  lemma DecodeEncodeDecode(file: Option<string>, origin: string)
    requires NamesWithinOrigin(file, origin)
    requires DecodeZone(file, origin).Ok?
    ensures DecodeZone(Some(EncodeZone(DecodeZone(file, origin).value)), origin) == DecodeZone(file, origin)
  {
    var rs := DecodeZone(file, origin).value;
    DecodedZoneIsTidy(file, origin);
    EncodeThenDecode(rs, origin);
    if file.Some? {
      RereadDecodedLines(Lines(file.value), origin);
    } else {
      assert RereadAll(rs) == rs;
    }
  }

  /** Reconciling a tidy request into a tidy zone leaves a tidy zone. */
  lemma ReconciledIsTidy(rrs: seq<Record>, rr: Record, origin: string)
    requires forall i :: 0 <= i < |rrs| ==> Tidy(rrs[i], origin)
    requires Tidy(rr, origin)
    ensures forall i :: 0 <= i < |Reconciled(rrs, rr)| ==> Tidy(Reconciled(rrs, rr)[i], origin)
  {
    var out := Reconciled(rrs, rr);
    forall i | 0 <= i < |out| ensures Tidy(out[i], origin) {
      if i < |rrs| {
        RefreshedIsTidy(rrs[i], rr, origin);
        assert out[i] == rrs[i] || out[i] == Refreshed(rrs[i], rr);
      }
    }
  }

  lemma HoldsAfterReread(rrs: seq<Record>, rr: Record)
    requires Holds(rrs, rr)
    ensures Holds(RereadAll(rrs), rr)
  {
    var k :| 0 <= k < |rrs| && SameEntry(rrs[k], rr);
    assert SameEntry(RereadAll(rrs)[k], rr);
  }

  /**
   * Running the pass a second time with the same request, on the file the first run wrote,
   * writes that file again unchanged, for a zone whose stored names lie within the origin and
   * a request whose columns are single tokens.
   */
  lemma EnsureIdempotent(file: Option<string>, req: Request)
    requires DecodeZone(file, req.origin).Ok?
    requires NamesWithinOrigin(file, req.origin)
    requires TidyRequest(req)
    ensures Ensure(file, req).Ok?
    ensures Ensure(Some(Ensure(file, req).value), req) == Ensure(file, req)
  {
    var o := req.origin;
    var rrs := DecodeZone(file, o).value;
    var rr := MakeRecord(req).value;
    MadeRecordIsCanonical(req);
    assert Tidy(rr, o);
    DecodedZoneIsTidy(file, o);
    var out := Reconciled(rrs, rr);
    ReconciledIsTidy(rrs, rr, o);
    EncodeThenDecode(out, o);
    ReconciledHolds(rrs, rr);
    HoldsAfterReread(out, rr);
    HoldsIsFixpoint(RereadAll(out), rr);
    EncodeZoneReread(out);
  }

  /** A missing or empty zone file gets exactly the requested record's one line. */
  lemma EmptyZoneGetsOneLine(file: Option<string>, req: Request)
    requires file == None || file == Some("")
    requires MakeRecord(req).Ok?
    ensures Ensure(file, req) == Ok(EncodeLine(MakeRecord(req).value))
  {
    var rr := MakeRecord(req).value;
    assert Lines("") == [];
    assert DecodeZone(file, req.origin) == Ok([]);
    assert Reconciled([], rr) == [rr];
    assert EncodeZone([rr]) == EncodeLine(rr) + EncodeZone([]);
    assert EncodeLine(rr) + [] == EncodeLine(rr);
    assert Ensure(file, req) == Ok(EncodeZone(Reconciled([], rr)));
  }
}
