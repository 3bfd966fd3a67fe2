/**
 * The zone-file format: decoding the file's lines into records (`load_zone_file`) and
 * encoding records back into tab-separated lines (the write loop at the end of `main`).
 */
module Codec {
  import opened Types
  import opened PyText
  import opened Names
  import opened Records

  // ---------------------------------------------------------------- decoding

  /** The trailing columns fit the type: exactly two for MX, four for SRV, at least one otherwise. */
  predicate DataColumnsFit(rtype: string, n: nat) {
    if rtype == "MX" then n == 2 else if rtype == "SRV" then n == 4 else n >= 1
  }

  /**
   * One line of the zone file, read against the caller's origin. The first four columns are
   * the stored name, ttl, class and type; MX takes priority and value from the rest, SRV
   * priority, weight, port and value, any other type its value from the first of the rest.
   * The local name is recovered from the stored name. `lineNo` is the line's position.
   */
  function DecodeLine(line: string, origin: string, lineNo: nat): (r: Result<Record, ZoneError>)
    ensures r.Err? ==> r.error.ParseError? && r.error.line == lineNo
  {
    var toks := Tokens(line);
    if |toks| < 4 then Err(ParseError(lineNo, MissingColumns(|toks|)))
    else
      var rtype := toks[3];
      var data := toks[4..];
      if !DataColumnsFit(rtype, |data|) then
        Err(ParseError(lineNo, WrongDataColumns(rtype, |data|)))
      else
        var name := LocalName(toks[0], origin);
        assert Given(name) || origin != "" by {
          if origin == "" { assert toks[0] != ""; }
        }
        var priority := if rtype == "MX" || rtype == "SRV" then Some(data[0]) else None;
        var weight := if rtype == "SRV" then Some(data[1]) else None;
        var port := if rtype == "SRV" then Some(data[2]) else None;
        var value := if rtype == "MX" then data[1] else if rtype == "SRV" then data[3] else data[0];
        MakeRecord(Request(name, origin, toks[1], toks[2], rtype, value, priority, weight, port))
  }

  /**
   * A line decodes exactly when it has the four leading columns and the trailing columns fit
   * its type; the record then carries the caller's origin, the local name recovered from the
   * stored name, and the columns in the places its type gives them.
   */
  lemma DecodeLineFields(line: string, origin: string, lineNo: nat)
    ensures var toks, r := Tokens(line), DecodeLine(line, origin, lineNo);
      r.Ok? <==> |toks| >= 4 && DataColumnsFit(toks[3], |toks| - 4)
    ensures var toks, r := Tokens(line), DecodeLine(line, origin, lineNo);
      r.Ok? ==> var rec := r.value;
      && rec.origin == origin
      && rec.name == LocalName(toks[0], origin)
      && Resolve(rec.name, origin) == Ok(rec.fullName)
      && rec.ttl == toks[1] && rec.rrClass == toks[2] && rec.rtype == toks[3]
      && (rec.rtype == "MX" ==>
            rec.priority == Some(toks[4]) && rec.value == toks[5]
            && rec.weight == None && rec.port == None)
      && (rec.rtype == "SRV" ==>
            rec.priority == Some(toks[4]) && rec.weight == Some(toks[5])
            && rec.port == Some(toks[6]) && rec.value == toks[7])
      && (rec.rtype != "MX" && rec.rtype != "SRV" ==>
            rec.value == toks[4] && rec.priority == None && rec.weight == None && rec.port == None)
  {
  }

  /** The lines decoded in order, stopping at the first line that does not decode. */
  function DecodeLines(lines: seq<string>, origin: string): Result<seq<Record>, ZoneError>
    decreases |lines|
  {
    if lines == [] then Ok([])
    else
      match DecodeLines(lines[..|lines| - 1], origin)
      case Err(e) => Err(e)
      case Ok(rs) =>
        match DecodeLine(lines[|lines| - 1], origin, |lines|)
        case Err(e) => Err(e)
        case Ok(r) => Ok(rs + [r])
  }

  /** A zone file's records: a missing file holds none; otherwise its lines are decoded. */
  function DecodeZone(file: Option<string>, origin: string): Result<seq<Record>, ZoneError> {
    if file.None? then Ok([]) else DecodeLines(Lines(file.value), origin)
  }

  /** Loading the zone file, absent or empty, or line by line. */
  method LoadZone(file: Option<string>, origin: string) returns (zone: Result<seq<Record>, ZoneError>)
    ensures zone == DecodeZone(file, origin)
    ensures file.None? || file == Some("") ==> zone == Ok([])
  {
    if file.None? {
      return Ok([]);
    }
    if |file.value| == 0 {
      return Ok([]);
    }
    var lines := Lines(file.value);
    var rs: seq<Record> := [];
    for i := 0 to |lines|
      invariant DecodeLines(lines[..i], origin) == Ok(rs)
    {
      var r := DecodeLine(lines[i], origin, i + 1);
      DecodeNextLine(lines, origin, i, rs);
      if r.Err? {
        DecodeErrorPersists(lines, origin, i + 1);
        return Err(r.error);
      }
      rs := rs + [r.value];
    }
    assert lines[..|lines|] == lines;
    return Ok(rs);
  }

  /** Decoding one more line extends a successful decode, or fails with that line's error. */
  lemma DecodeNextLine(lines: seq<string>, origin: string, i: nat, rs: seq<Record>)
    requires i < |lines|
    requires DecodeLines(lines[..i], origin) == Ok(rs)
    ensures DecodeLine(lines[i], origin, i + 1).Err? ==>
      DecodeLines(lines[..i + 1], origin) == Err(DecodeLine(lines[i], origin, i + 1).error)
    ensures DecodeLine(lines[i], origin, i + 1).Ok? ==>
      DecodeLines(lines[..i + 1], origin) == Ok(rs + [DecodeLine(lines[i], origin, i + 1).value])
  {
    assert lines[..i + 1][..i] == lines[..i];
    assert lines[..i + 1][i] == lines[i];
  }

  /** A successful decode has one record per line, each the decoding of its line. */
  lemma {:induction false} DecodedLines(lines: seq<string>, origin: string, rs: seq<Record>)
    requires DecodeLines(lines, origin) == Ok(rs)
    ensures |rs| == |lines|
    ensures forall i :: 0 <= i < |lines| ==> DecodeLine(lines[i], origin, i + 1) == Ok(rs[i])
    decreases |lines|
  {
    if lines != [] {
      var n := |lines| - 1;
      var init := lines[..n];
      match DecodeLines(init, origin)
      case Ok(rs0) =>
        assert rs == rs0 + [DecodeLine(lines[n], origin, n + 1).value];
        DecodedLines(init, origin, rs0);
        forall i | 0 <= i < n ensures DecodeLine(lines[i], origin, i + 1) == Ok(rs[i]) {
          assert init[i] == lines[i] && rs0[i] == rs[i];
        }
      case Err(_) =>
    }
  }

  /** When every line decodes, decoding succeeds with their records, in order. */
  lemma DecodeEveryLine(lines: seq<string>, origin: string, rs: seq<Record>)
    requires |rs| == |lines|
    requires forall i :: 0 <= i < |lines| ==> DecodeLine(lines[i], origin, i + 1) == Ok(rs[i])
    ensures DecodeLines(lines, origin) == Ok(rs)
  {
    DecodeEveryLineUpTo(lines, origin, rs, |lines|);
    assert lines[..|lines|] == lines && rs[..|rs|] == rs;
  }

  /** Concatenation regroups freely. */
  lemma ConcatAssoc<T>(a: seq<T>, b: seq<T>, c: seq<T>)
    ensures (a + b) + c == a + (b + c)
  {
  }

  /** A prefix one longer is the prefix and the next element. */
  lemma PrefixStep<T>(s: seq<T>, j: nat)
    requires j < |s|
    ensures s[..j] + [s[j]] == s[..j + 1]
  {
  }

  /** The first `k` lines decode to the first `k` records. */
  lemma {:induction false} DecodeEveryLineUpTo(lines: seq<string>, origin: string, rs: seq<Record>, k: nat)
    requires |rs| == |lines| && k <= |lines|
    requires forall i :: 0 <= i < |lines| ==> DecodeLine(lines[i], origin, i + 1) == Ok(rs[i])
    ensures DecodeLines(lines[..k], origin) == Ok(rs[..k])
  {
    if k == 0 {
      assert lines[..0] == [] && rs[..0] == [];
    } else {
      var j := k - 1;
      DecodeEveryLineUpTo(lines, origin, rs, j);
      DecodeNextLine(lines, origin, j, rs[..j]);
      assert DecodeLine(lines[j], origin, j + 1) == Ok(rs[j]);
      PrefixStep(rs, j);
    }
  }

  /** Decoding succeeds exactly when every line decodes, giving one record per line, in order. */
  lemma DecodeLinesOk(lines: seq<string>, origin: string, rs: seq<Record>)
    ensures DecodeLines(lines, origin) == Ok(rs) <==>
      |rs| == |lines| &&
      forall i :: 0 <= i < |lines| ==> DecodeLine(lines[i], origin, i + 1) == Ok(rs[i])
  {
    if DecodeLines(lines, origin) == Ok(rs) {
      DecodedLines(lines, origin, rs);
    }
    if |rs| == |lines| &&
      forall i :: 0 <= i < |lines| ==> DecodeLine(lines[i], origin, i + 1) == Ok(rs[i])
    {
      DecodeEveryLine(lines, origin, rs);
    }
  }

  /** Once some leading lines fail to decode, the whole file fails with the same error. */
  lemma {:induction false} DecodeErrorPersists(lines: seq<string>, origin: string, n: nat)
    requires n <= |lines|
    requires DecodeLines(lines[..n], origin).Err?
    ensures DecodeLines(lines, origin) == DecodeLines(lines[..n], origin)
    decreases |lines| - n
  {
    if n < |lines| {
      var m := |lines| - 1;
      assert lines[..m][..n] == lines[..n];
      if n < m {
        DecodeErrorPersists(lines[..m], origin, n);
      }
      assert lines[..m] == lines[..n] || n < m;
    } else {
      assert lines[..n] == lines;
    }
  }

  /**
   * Decoding fails with the error of the first line that does not decode; every line before
   * it decodes.
   */
  lemma {:induction false} DecodeLinesFirstError(lines: seq<string>, origin: string)
    requires DecodeLines(lines, origin).Err?
    ensures exists k ::
              && 0 <= k < |lines|
              && DecodeLine(lines[k], origin, k + 1) == Err(DecodeLines(lines, origin).error)
              && (forall j :: 0 <= j < k ==> DecodeLine(lines[j], origin, j + 1).Ok?)
    decreases |lines|
  {
    var n := |lines| - 1;
    var init := lines[..n];
    assert forall i :: 0 <= i < n ==> init[i] == lines[i];
    match DecodeLines(init, origin)
    case Err(e) =>
      DecodeLinesFirstError(init, origin);
      var k :| 0 <= k < n && DecodeLine(init[k], origin, k + 1) == Err(e) &&
        (forall j :: 0 <= j < k ==> DecodeLine(init[j], origin, j + 1).Ok?);
      assert DecodeLine(lines[k], origin, k + 1) == Err(e);
    case Ok(rs) =>
      DecodeLinesOk(init, origin, rs);
      assert DecodeLine(lines[n], origin, n + 1) == Err(DecodeLines(lines, origin).error);
  }

  // ---------------------------------------------------------------- encoding

  /** Python's `'%s' % x` for an optional column: `None` prints as the word None. */
  function Show(o: Option<string>): string {
    if o.None? then "None" else o.value
  }

  /**
   * The columns a record is written with: full name, ttl, class and type, then priority
   * for MX, priority, weight and port for SRV, and the value last.
   */
  function Columns(r: Record): seq<string> {
    var head := [r.fullName, r.ttl, r.rrClass, r.rtype];
    if r.rtype == "MX" then head + [Show(r.priority), r.value]
    else if r.rtype == "SRV" then head + [Show(r.priority), Show(r.weight), Show(r.port), r.value]
    else head + [r.value]
  }

  /** One record's line: its columns separated by tabs and ended by a newline. */
  function EncodeLine(r: Record): string {
    JoinTab(Columns(r)) + "\n"
  }

  /** The whole file: one line per record, in order. */
  function EncodeZone(rs: seq<Record>): string
    decreases |rs|
  {
    if rs == [] then "" else EncodeLine(rs[0]) + EncodeZone(rs[1..])
  }

  /** Writing the records to the zone file, one line per record. */
  method WriteZone(rs: seq<Record>) returns (text: string)
    ensures text == EncodeZone(rs)
  {
    text := "";
    for i := 0 to |rs|
      invariant text + EncodeZone(rs[i..]) == EncodeZone(rs)
    {
      assert rs[i..][1..] == rs[i + 1..];
      assert EncodeZone(rs[i..]) == EncodeLine(rs[i]) + EncodeZone(rs[i + 1..]);
      ConcatAssoc(text, EncodeLine(rs[i]), EncodeZone(rs[i + 1..]));
      text := text + EncodeLine(rs[i]);
    }
  }

  /** No column of the record holds a tab or a newline. */
  predicate PlainColumns(r: Record) {
    forall k :: 0 <= k < |Columns(r)| ==> '\t' !in Columns(r)[k] && '\n' !in Columns(r)[k]
  }

  /**
   * The line of a record with plain columns ends in its only newline and splits on tabs into
   * exactly 5 columns (6 for MX, 8 for SRV): full name, ttl, class, type, then the priority
   * (MX, SRV), weight and port (SRV), and the value.
   */
  lemma EncodeLineLayout(r: Record)
    requires PlainColumns(r)
    ensures var line := EncodeLine(r); var body := line[..|line| - 1];
      && |line| > 0 && line[|line| - 1] == '\n' && '\n' !in body
      && var cols := SplitTab(body);
      && |cols| == (if r.rtype == "MX" then 6 else if r.rtype == "SRV" then 8 else 5)
      && cols[..4] == [r.fullName, r.ttl, r.rrClass, r.rtype]
      && cols[|cols| - 1] == r.value
      && (r.rtype == "MX" ==> cols[4] == Show(r.priority))
      && (r.rtype == "SRV" ==> cols[4..7] == [Show(r.priority), Show(r.weight), Show(r.port)])
  {
    var line, cols := EncodeLine(r), Columns(r);
    assert line[..|line| - 1] == JoinTab(cols);
    SplitTabJoinTab(cols);
    JoinTabNoNewline(cols);
    ColumnsLayout(r);
  }

  /** The columns of a record, as the write loop lays them out. */
  lemma ColumnsLayout(r: Record)
    ensures var cols := Columns(r);
      && |cols| == (if r.rtype == "MX" then 6 else if r.rtype == "SRV" then 8 else 5)
      && cols[..4] == [r.fullName, r.ttl, r.rrClass, r.rtype]
      && cols[|cols| - 1] == r.value
      && (r.rtype == "MX" ==> cols[4] == Show(r.priority))
      && (r.rtype == "SRV" ==> cols[4..7] == [Show(r.priority), Show(r.weight), Show(r.port)])
  {
    var head := [r.fullName, r.ttl, r.rrClass, r.rtype];
    if r.rtype == "SRV" {
      assert Columns(r)[4..7] == [Show(r.priority), Show(r.weight), Show(r.port)];
    }
    assert Columns(r)[..4] == head;
  }

  /** Reading back an encoded zone gives one line per record, in record order. */
  lemma {:induction false} LinesOfEncodeZone(rs: seq<Record>)
    requires forall i :: 0 <= i < |rs| ==> PlainColumns(rs[i])
    ensures Lines(EncodeZone(rs)) == seq(|rs|, i requires 0 <= i < |rs| => JoinTab(Columns(rs[i])))
    decreases |rs|
  {
    if rs != [] {
      JoinTabNoNewline(Columns(rs[0]));
      assert EncodeZone(rs) == JoinTab(Columns(rs[0])) + "\n" + EncodeZone(rs[1..]);
      LinesOfLineThen(JoinTab(Columns(rs[0])), EncodeZone(rs[1..]));
      LinesOfEncodeZone(rs[1..]);
    }
  }

  // ---------------------------------------------------------------- round trip

  /**
   * A record as the decoder rebuilds it from its own line: the priority, weight and port that
   * its type writes come back as the text written, those it does not write come back absent.
   */
  function Reread(r: Record): Record {
    r.(priority := if r.rtype == "MX" || r.rtype == "SRV" then Some(Show(r.priority)) else None,
       weight := if r.rtype == "SRV" then Some(Show(r.weight)) else None,
       port := if r.rtype == "SRV" then Some(Show(r.port)) else None)
  }

  function RereadAll(rs: seq<Record>): (out: seq<Record>)
    ensures |out| == |rs|
  {
    seq(|rs|, i requires 0 <= i < |rs| => Reread(rs[i]))
  }

  /**
   * A record that survives a round trip through the file: it belongs to the origin, its local
   * and full names determine each other, and every column it writes is a single token.
   */
  predicate Tidy(r: Record, origin: string) {
    && r.origin == origin
    && Canonical(r)
    && TokenColumns(r)
  }

  /** Every column the record writes is a single token. */
  predicate TokenColumns(r: Record) {
    forall k :: 0 <= k < |Columns(r)| ==> IsToken(Columns(r)[k])
  }

  lemma TidyIsPlain(r: Record, origin: string)
    requires Tidy(r, origin)
    ensures PlainColumns(r)
  {
    forall k | 0 <= k < |Columns(r)|
      ensures '\t' !in Columns(r)[k] && '\n' !in Columns(r)[k]
    {
      var c := Columns(r)[k];
      assert IsToken(c);
      forall j | 0 <= j < |c| ensures c[j] != '\t' && c[j] != '\n' {
        assert !IsSpace(c[j]);
      }
    }
  }

  /** Rereading changes nothing that is written. */
  lemma {:induction false} EncodeZoneReread(rs: seq<Record>)
    ensures EncodeZone(RereadAll(rs)) == EncodeZone(rs)
    decreases |rs|
  {
    if rs != [] {
      assert Columns(Reread(rs[0])) == Columns(rs[0]);
      assert RereadAll(rs)[1..] == RereadAll(rs[1..]);
      EncodeZoneReread(rs[1..]);
    }
  }

  /** A tidy record's line decodes to the record as reread. */
  lemma DecodeEncodeLine(r: Record, origin: string, lineNo: nat)
    requires Tidy(r, origin)
    ensures DecodeLine(JoinTab(Columns(r)), origin, lineNo) == Ok(Reread(r))
  {
    TokensOfJoinTab(Columns(r));
    DecodeRecordTokens(JoinTab(Columns(r)), r, origin, lineNo);
  }

  /** A line whose tokens are a canonical record's columns decodes to the record as reread. */
  lemma DecodeRecordTokens(line: string, r: Record, origin: string, lineNo: nat)
    requires r.origin == origin && Canonical(r)
    requires Tokens(line) == Columns(r)
    ensures DecodeLine(line, origin, lineNo) == Ok(Reread(r))
  {
    var toks := Tokens(line);
    var n := if r.rtype == "MX" then 6 else if r.rtype == "SRV" then 8 else 5;
    assert |toks| == n && toks[3] == r.rtype;
    DecodeLineFields(line, origin, lineNo);
    var d := DecodeLine(line, origin, lineNo).value;
    assert d.name == r.name by {
      assert toks[0] == r.fullName;
    }
    assert d.fullName == r.fullName;
    assert d.ttl == r.ttl && d.rrClass == r.rrClass && d.value == r.value by {
      assert toks[1] == r.ttl && toks[2] == r.rrClass && toks[n - 1] == r.value;
    }
    if r.rtype == "MX" {
      assert toks[4] == Show(r.priority);
    } else if r.rtype == "SRV" {
      assert toks[4] == Show(r.priority) && toks[5] == Show(r.weight) && toks[6] == Show(r.port);
    }
  }

  /** When each record's line decodes to the record as reread, so does the whole encoding. */
  lemma DecodeEncodedLines(rs: seq<Record>, origin: string)
    requires forall i :: 0 <= i < |rs| ==> PlainColumns(rs[i])
    requires forall i :: 0 <= i < |rs| ==>
      DecodeLine(JoinTab(Columns(rs[i])), origin, i + 1) == Ok(Reread(rs[i]))
    ensures DecodeZone(Some(EncodeZone(rs)), origin) == Ok(RereadAll(rs))
  {
    LinesOfEncodeZone(rs);
    var lines := Lines(EncodeZone(rs));
    var back := RereadAll(rs);
    forall i | 0 <= i < |lines| ensures DecodeLine(lines[i], origin, i + 1) == Ok(back[i]) {
      assert lines[i] == JoinTab(Columns(rs[i]));
    }
    DecodeEveryLine(lines, origin, back);
  }

  /** Decoding an encoded zone of tidy records gives the records back, as reread. */
  lemma EncodeThenDecode(rs: seq<Record>, origin: string)
    requires forall i :: 0 <= i < |rs| ==> Tidy(rs[i], origin)
    ensures DecodeZone(Some(EncodeZone(rs)), origin) == Ok(RereadAll(rs))
  {
    AllTidyArePlain(rs, origin);
    AllTidyLinesDecode(rs, origin);
    DecodeEncodedLines(rs, origin);
  }

  /** No column of a tidy record holds a tab or a newline. */
  lemma AllTidyArePlain(rs: seq<Record>, origin: string)
    requires forall i :: 0 <= i < |rs| ==> Tidy(rs[i], origin)
    ensures forall i :: 0 <= i < |rs| ==> PlainColumns(rs[i])
  {
    forall i | 0 <= i < |rs| ensures PlainColumns(rs[i]) {
      TidyIsPlain(rs[i], origin);
    }
  }

  /** Each tidy record's line decodes, at its own position, to the record as reread. */
  lemma AllTidyLinesDecode(rs: seq<Record>, origin: string)
    requires forall i :: 0 <= i < |rs| ==> Tidy(rs[i], origin)
    ensures forall i :: 0 <= i < |rs| ==>
      DecodeLine(JoinTab(Columns(rs[i])), origin, i + 1) == Ok(Reread(rs[i]))
  {
    forall i | 0 <= i < |rs|
      ensures DecodeLine(JoinTab(Columns(rs[i])), origin, i + 1) == Ok(Reread(rs[i]))
    {
      DecodeEncodeLine(rs[i], origin, i + 1);
    }
  }

  /** A record decoded from a line whose stored name lies within the origin is tidy. */
  lemma DecodedLineIsTidy(line: string, origin: string, lineNo: nat)
    requires DecodeLine(line, origin, lineNo).Ok?
    requires WithinOrigin(Tokens(line)[0], origin)
    ensures DecodeLine(line, origin, lineNo).value.fullName == Tokens(line)[0]
    ensures Tidy(DecodeLine(line, origin, lineNo).value, origin)
  {
    var toks := Tokens(line);
    var r := DecodeLine(line, origin, lineNo).value;
    DecodeLineFields(line, origin, lineNo);
    ResolveInvertsLocalName(toks[0], origin);
    assert r.fullName == toks[0];
    DecodedColumnsAreTokens(line, origin, lineNo);
  }

  /** A decoded record that keeps its stored name writes back the tokens it was decoded from. */
  lemma DecodedColumnsAreTokens(line: string, origin: string, lineNo: nat)
    requires DecodeLine(line, origin, lineNo).Ok?
    requires DecodeLine(line, origin, lineNo).value.fullName == Tokens(line)[0]
    ensures TokenColumns(DecodeLine(line, origin, lineNo).value)
  {
    var toks := Tokens(line);
    var r := DecodeLine(line, origin, lineNo).value;
    DecodeLineFields(line, origin, lineNo);
    assert IsToken(toks[0]) && IsToken(toks[1]) && IsToken(toks[2]) && IsToken(toks[3]);
    assert IsToken(toks[4]);
    if r.rtype == "MX" {
      assert IsToken(toks[5]);
    } else if r.rtype == "SRV" {
      assert IsToken(toks[5]) && IsToken(toks[6]) && IsToken(toks[7]);
    }
    TokenFieldsColumns(r);
  }

  /** A record whose written fields are each a single token writes only tokens. */
  lemma TokenFieldsColumns(r: Record)
    requires IsToken(r.fullName) && IsToken(r.ttl) && IsToken(r.rrClass) && IsToken(r.rtype)
    requires IsToken(r.value)
    requires r.rtype == "MX" || r.rtype == "SRV" ==> IsToken(Show(r.priority))
    requires r.rtype == "SRV" ==> IsToken(Show(r.weight)) && IsToken(Show(r.port))
    ensures TokenColumns(r)
  {
    var cols := Columns(r);
    forall k | 0 <= k < |cols| ensures IsToken(cols[k]) {
      if r.rtype == "MX" {
        assert cols == [r.fullName, r.ttl, r.rrClass, r.rtype, Show(r.priority), r.value];
      } else if r.rtype == "SRV" {
        assert cols == [r.fullName, r.ttl, r.rrClass, r.rtype,
                        Show(r.priority), Show(r.weight), Show(r.port), r.value];
      } else {
        assert cols == [r.fullName, r.ttl, r.rrClass, r.rtype, r.value];
      }
    }
  }

  /** The decoder's own records are unchanged by rereading: they already hold what their type writes. */
  lemma RereadDecoded(line: string, origin: string, lineNo: nat)
    requires DecodeLine(line, origin, lineNo).Ok?
    ensures Reread(DecodeLine(line, origin, lineNo).value) == DecodeLine(line, origin, lineNo).value
  {
    DecodeLineFields(line, origin, lineNo);
  }

  /** Every record of a successful decode is unchanged by rereading. */
  lemma RereadDecodedLines(lines: seq<string>, origin: string)
    requires DecodeLines(lines, origin).Ok?
    ensures RereadAll(DecodeLines(lines, origin).value) == DecodeLines(lines, origin).value
  {
    var rs := DecodeLines(lines, origin).value;
    DecodeLinesOk(lines, origin, rs);
    forall i | 0 <= i < |rs| ensures Reread(rs[i]) == rs[i] {
      RereadDecoded(lines[i], origin, i + 1);
    }
  }
}
