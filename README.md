# DNS zone-file maintainer, modelled in Dafny

This project models the core of `network/dns_record.py`, an Ansible module that keeps a DNS zone
file and makes sure one resource record is present in it. One run of the module is one
read-modify-write pass with three parts:

- **Name resolution** (`ResourceRecord.__init__`). A record's full name comes from its optional
  local name and the zone origin. The origin alone names the apex. A name alone is used as it is.
  With both, the root origin `.` is appended directly and any other origin follows a dot. With
  neither, there is no full name.
- **Decoding the zone file** (`load_zone_file`). A missing or empty file holds no records.
  Otherwise each line is split on whitespace. The first four columns are name, ttl, class and
  type. MX takes priority and value from the rest, SRV takes priority, weight, port and value,
  and every other type takes its value from the first remaining column. The local name is
  recovered from the stored full name.
- **Reconciling and re-encoding** (the end of `main`). A singleton type (anything but NS, MX and
  SRV) is matched on full name and type: every match takes the request's ttl and value, and
  with no match the request is appended. A multi-value type (NS, MX, SRV) is matched on full
  name, type and value: with no match the request is appended, otherwise nothing changes. The
  whole zone is then written back as tab-separated lines, 5 columns per record, 6 for MX and
  8 for SRV.

Files, one module each:

- `types.dfy` (`Types`): `Option`, `Result` and the error kinds.
- `pytext.dfy` (`PyText`): the Python string operations the code uses. These are `str.split()`,
  reading a file line by line with the newline stripped, `str.find`, the slice `s[:k]` with
  negative indices, and tab joining and splitting.
- `names.dfy` (`Names`): `Resolve`, the inverse `LocalName`, and the source's own computation,
  `LocalNameAsWritten`.
- `records.dfy` (`Records`): the `Record` datatype and its construction from the keyword
  arguments.
- `codec.dfy` (`Codec`): decoding lines into records (`LoadZone` and the `DecodeLines` function
  that specifies it) and encoding records into lines (`WriteZone`, specified by `EncodeZone`).
- `reconcile.dfy` (`Reconcile`): the `Apply` method with its in-place update loop, specified by
  `Reconciled`.
- `zonestore.dfy` (`ZoneStore`): the whole pass (`EnsurePresent`, specified by `Ensure`).

Modelling choices:

- The file is its contents: `None` when it does not exist, otherwise a string. The pass returns
  the new contents, or the error that stops it before anything is written.
- Records are values and the zone is a `seq<Record>`. The source updates the `ttl` and `value`
  attributes of matching record objects in place. Every object in the list is a distinct object
  built by the decoder, so this is modelled as replacing the element at the same position.
- ttl, priority, weight and port are kept as the text that is written. Python's `'%s'` prints
  an absent optional column as `None`, and `Show` does the same.
- Python truthiness is kept: a local name of `None` or `""` counts as not given, and so does an
  empty origin.
- Whitespace is that of Python 2's `str.split()` on byte strings: space, tab, newline, carriage
  return, vertical tab and form feed. Lines are split at `\n`.

Behaviour as the code has it:

- A type other than MX and SRV takes its value from the first trailing column and ignores any
  further columns. A line with no trailing column is an error.
- A singleton request updates every record that matches, not only the first one. In a zone
  without duplicate keys this is exactly one record (`Reconcile.UniqueUpdatesOne`).
- A blank line, a line with fewer than four columns, or an MX or SRV line with the wrong
  number of trailing columns stops the pass. The whole pass aborts, and nothing is written.

## Model

| member | source | states |
|---|---|---|
| `Names.Resolve` | network/dns_record.py:27-38 | Fails with `InvalidRecord` exactly when neither name nor origin is given. Otherwise the full name ends in the origin and starts with the name. The origin alone gives the origin, and the name alone gives the name. With both given, the two are joined directly for origin `.` and with a dot otherwise. |
| `Names.LocalNameAsWritten` | network/dns_record.py:74-77 | The source's recovery of the local name: absent exactly when the stored name is the origin, and otherwise a prefix of the stored name. |
| `Names.LocalName` | network/dns_record.py:74-77 | The corrected recovery of the local name, which the decoder uses in place of the source's computation: absent exactly when the stored name is the origin, otherwise a prefix of the stored name. `Names.LocalNameInvertsResolve` and `Names.ResolveInvertsLocalName` specify it as the inverse of `Resolve`. |
| `Names.LocalNameInvertsResolve` | network/dns_record.py:74-77 | Resolve-then-decode recovers the local name. For every absent or non-empty name and every origin with a full name, `LocalName` of the full name gives the name back, and the full name lies within the origin. |
| `Names.ResolveInvertsLocalName` | network/dns_record.py:74-77 | Decode-then-resolve gives the stored name back. Every stored name within the origin is the full name of the local name recovered from it. |
| `Names.AsWrittenRecoversName` | network/dns_record.py:74-77 | When the origin (not `.` and not empty) does not occur in `name + "." + origin` before the separator, the source's computation returns `name`, the same as `LocalName`. |
| `Names.RootOriginTruncatesLabel` | network/dns_record.py:77 | Under origin `.`, for every stored name whose first label is non-empty and dot-free, the source's computation keeps only that first label minus its last character (`www.example.com.` gives `ww`), which is then written back shorter. `LocalName` gives the whole name. |
| `Names.RootOriginTruncatesName` | network/dns_record.py:77 | Under origin `.`, the stored `ns1.` decodes to `ns` and is re-resolved to `ns.`; `LocalName` gives `ns1`. |
| `Names.EmptyOriginTruncatesAny` | network/dns_record.py:77 | Under the empty origin, the source's computation drops the last character of every non-empty stored name. `LocalName` gives the name back. |
| `Names.EmptyOriginTruncatesName` | network/dns_record.py:77 | Under the empty origin, the stored `www` decodes to `ww`; `LocalName` gives `www`. |
| `Names.EarlierOriginOccurs` | network/dns_record.py:77 | For an origin other than `.` and the empty one, every local name that begins with the origin is recovered by the source as the whole stored name minus its last character, which differs from the name. `LocalName` gives the name back. |
| `Names.EarlierOriginOccurrence` | network/dns_record.py:77 | Under origin `b.`, the name `b.c` resolves to `b.c.b.` and decodes back to `b.c.b`; `LocalName` gives `b.c`. |
| `Records.MakeRecord` | network/dns_record.py:25-51 | Construction keeps every argument and resolves the full name. It fails exactly when neither name nor origin is given, and never yields a record without a usable full name. |
| `Records.MadeRecordIsCanonical` | network/dns_record.py:27-40 | A record built from an absent or non-empty name has a local name and full name that determine each other. |
| `PyText.Tokens` | network/dns_record.py:69 | Whitespace splitting yields only non-empty tokens without whitespace. |
| `PyText.Lines` | network/dns_record.py:68-69 | Reading the file line by line yields lines without newlines. |
| `PyText.Find` | network/dns_record.py:77 | `str.find`: the result is -1 exactly when the substring never occurs, and is otherwise its first occurrence. |
| `PyText.Prefix` | network/dns_record.py:77 | The slice `s[:k]` is a prefix of `s`, with Python's lengths for a negative, in-range or too-large `k`. |
| `PyText.TokensOfJoinTab` | network/dns_record.py:69 | Tab-joined tokens split on whitespace give the same tokens back. |
| `PyText.SplitTabJoinTab` | network/dns_record.py:161-165 | Tab-joined columns without tabs split on tabs give the same columns back. |
| `Codec.DecodeLine` | network/dns_record.py:69-103 | Every failure to decode a line is a parse error that names that line. |
| `Codec.DecodeLineFields` | network/dns_record.py:69-103 | A line decodes exactly when it has four mandatory columns and the trailing count fits the type: exactly 2 for MX, exactly 4 for SRV, at least 1 otherwise. The columns map to ttl, class and type, and by type to priority, weight, port and value. Fields the type does not set stay absent. The record carries the caller's origin and the recovered local name. |
| `Codec.LoadZone` | network/dns_record.py:54-105 | Loading returns the decoding of the file. A missing or zero-size file gives the empty zone, not an error. |
| `Codec.DecodeLinesOk` | network/dns_record.py:68-105 | Decoding succeeds exactly when every line decodes. It then gives one record per line, in file order. |
| `Codec.DecodeLinesFirstError` | network/dns_record.py:68-103 | A failed decode reports the error of the first line that fails; all earlier lines decode. |
| `Codec.WriteZone` | network/dns_record.py:158-165 | Writing produces `EncodeZone` of the records: each record's line, in list order. |
| `Codec.ColumnsLayout` | network/dns_record.py:160-165 | A record writes 5 columns, 6 for MX and 8 for SRV: full name, ttl, class, type, then priority (MX, SRV), weight and port (SRV), and value last. |
| `Codec.EncodeLineLayout` | network/dns_record.py:160-165 | A record's line ends in its only newline. It splits on tabs into exactly 5 columns (6 for MX, 8 for SRV), in the order full name, ttl, class, type, then priority (MX, SRV), weight and port (SRV), and value. NS uses the 5-column layout. |
| `Codec.LinesOfEncodeZone` | network/dns_record.py:159-165 | The written file reads back as exactly one line per record, in record order. |
| `Codec.DecodeEncodeLine` | network/dns_record.py:69-103 | The line of a tidy record decodes to that record as the decoder rebuilds it. |
| `Codec.DecodeEncodedLines` | network/dns_record.py:68-103 | When each record's line decodes to the record as reread, the whole written zone decodes to the reread records, in order. |
| `Codec.EncodeThenDecode` | network/dns_record.py:68-103 | Decoding the encoding of tidy records gives the same records back. The only change is to priority, weight and port: those the type writes come back as written, the others come back absent. |
| `Codec.DecodedLineIsTidy` | network/dns_record.py:74-77 | A record decoded from a line whose stored name lies within the origin keeps that stored name as its full name and survives a round trip. |
| `Codec.RereadDecoded` | network/dns_record.py:84-103 | A decoded record already holds exactly the priority, weight and port its type writes, so a round trip does not change it. |
| `Codec.RereadDecodedLines` | network/dns_record.py:68-103 | The same holds for every record of a successful decode. |
| `Reconcile.Apply` | network/dns_record.py:145-155 | The matching and update loop computes exactly `Reconciled`. |
| `Reconcile.SingletonReconcile` | network/dns_record.py:145-152 | Singleton type, no record with the same full name and type: the request is appended at the tail. Otherwise the length and order stay the same, and every match takes the request's ttl and value. Each match keeps its name, class, priority, weight and port. Non-matching records are unchanged. |
| `Reconcile.MultiValueReconcile` | network/dns_record.py:153-155 | Multi-value type: the zone is unchanged exactly when a record with the same full name, type and value exists. Otherwise the request is appended at the tail. |
| `Reconcile.UpdateInPlaceOrAppend` | network/dns_record.py:145-155 | Records are only updated in place (ttl and value) or the request is appended. Nothing is reordered, dropped or rekeyed. |
| `Reconcile.ReconciledHolds` | network/dns_record.py:145-155 | Afterwards the zone holds a record with the request's full name, type and value. For a singleton type, every record with its name and type has the request's ttl and value. |
| `Reconcile.HoldsIsFixpoint` | network/dns_record.py:145-155 | A zone that already holds the request is left unchanged by it. |
| `Reconcile.ReconcileIdempotent` | network/dns_record.py:145-155 | Applying the same request twice gives the same zone as applying it once. |
| `Reconcile.ReconcileKeepsUnique` | network/dns_record.py:145-155 | If no two records share a singleton key or a multi-value entry, this still holds afterwards. |
| `Reconcile.UniqueUpdatesOne` | network/dns_record.py:149-152 | In a zone without such duplicates, a matching singleton request updates exactly one record. |
| `Reconcile.MultiValueKeepsBoth` | network/dns_record.py:153-155 | Two multi-value requests at the same name and type with different values leave two distinct records. |
| `ZoneStore.EnsurePresent` | network/dns_record.py:130-165 | The pass fails exactly when the file does not decode, or when neither name nor origin is given. Otherwise it writes the encoding of the reconciled zone. |
| `ZoneStore.DecodedZoneIsTidy` | network/dns_record.py:68-103 | Every record decoded from a file whose stored names lie within the origin survives a round trip. |
| `ZoneStore.DecodeEncodeDecode` | network/dns_record.py:54-105 | Writing back what was read loses nothing: for a file whose stored names lie within the origin, the zone written from the decoded records decodes to exactly those records. |
| `ZoneStore.ReconciledIsTidy` | network/dns_record.py:145-155 | Reconciling a tidy request into a tidy zone leaves a tidy zone. |
| `ZoneStore.EnsureIdempotent` | network/dns_record.py:130-165 | Take a file whose stored names lie within the origin and a request whose columns are single tokens. A second pass with the same request, on the file the first pass wrote, writes that file again unchanged. |
| `ZoneStore.EmptyZoneGetsOneLine` | network/dns_record.py:57-65 | A missing or empty zone file gets exactly the requested record's line. |

## Left out

- File I/O (`os.path.exists`, `os.stat`, `open`) is modelled as the file's contents going in
  and coming out. Partial writes are not modelled, nor is the creation of an empty file.
- Universal-newline translation and Unicode whitespace (Python 3 text mode) are not modelled;
  the model follows Python 2 byte-string reading and splitting.
- `Records.MakeRecord`: stops with an error when neither name nor origin is given, because the
  source only leaves the object without a `full_name` attribute. The source then crashes later,
  when that attribute is read. When the zone was empty, that crash comes in the write loop,
  after the file has been truncated; the model writes nothing.
- `Types.ZoneError`: the error carries the line number and a reason. The source raises a bare
  `ValueError` or `IndexError`.
- Numeric conversion is not modelled. The ttl, priority, weight and port of a request are
  integers in the source; here they are their decimal text.
- The argument parsing of `AnsibleModule` (defaults, choices, types) is not modelled: the
  request is taken as given. The result report (`exit_json`, `changed=True`, the record's
  fields) is not modelled either.
- The `absent` state is declared but has no implementation, so there is nothing to model.
- `network/openssl_cert.py` is not part of this model: it wraps pyOpenSSL, the shell and the
  filesystem.
- Concurrent runs and atomic replacement are not modelled; the code has neither.
- `Codec.DecodeLine`, `Codec.DecodeLineFields`, `Codec.LoadZone` and `ZoneStore.EnsurePresent`
  use the corrected `Names.LocalName` instead of the source's computation at line 77 (see
  Findings). For a stored name that does not lie within the origin,
  `LocalName` falls back to the source's computation.
- `ZoneStore.EnsureIdempotent`: idempotence at the file level is proved only for zones whose
  stored names lie within the origin and for requests whose columns are single tokens. Outside
  these, even the corrected decoder renames records or splits columns.

## Findings

| source | as written | input that shows it | evidently intended | confidence | as-written member | corrected member |
|---|---|---|---|---|---|---|
| network/dns_record.py:77 | The local name is the stored name cut one character before the first occurrence of the origin. Under the root origin `.`, that occurrence is the first dot. | origin `.`, stored name `ns1.` (written for name `ns1`); `www.example.com.` gives `ww` | decodes to `ns1`, so the line is rewritten as `ns1.` | high, not executed | `Names.RootOriginTruncatesLabel` | `Names.LocalNameInvertsResolve` |
| network/dns_record.py:77 | The empty origin is found at position 0, so the slice `[:-1]` drops the last character. | origin empty, stored name `www` (written for name `www`) | decodes to `www` | medium, not executed | `Names.EmptyOriginTruncatesAny` | `Names.LocalNameInvertsResolve` |
| network/dns_record.py:77 | The first occurrence of the origin can lie inside the local name, not only at the end of the stored name. | origin `b.`, stored name `b.c.b.` (written for name `b.c`) | decodes to `b.c` | medium, not executed | `Names.EarlierOriginOccurs` | `Names.LocalNameInvertsResolve` |
