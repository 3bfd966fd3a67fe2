/**
 * Name resolution: the full name a record is written under, computed from its optional local
 * name and the zone's origin (`ResourceRecord.__init__`), and the way back from a stored full
 * name to the local name (`load_zone_file`).
 */
module Names {
  import opened Types
  import opened PyText

  /** Python truthiness of an optional string: neither `None` nor the empty string. */
  predicate Given(s: Option<string>) {
    s.Some? && s.value != ""
  }

  /** The local name as the source can hold it: absent, or a non-empty string. */
  predicate Proper(name: Option<string>) {
    name.None? || name.value != ""
  }

  /**
   * The full name of a record. The origin alone names the apex; a name alone is taken as is;
   * with both, the root origin "." is appended directly and any other origin after a dot.
   * With neither there is no full name, an error.
   */
  function Resolve(name: Option<string>, origin: string): (r: Result<string, ZoneError>)
    ensures r.Err? <==> !Given(name) && origin == ""
    ensures r.Err? ==> r.error == InvalidRecord
    ensures r.Ok? ==> IsSuffix(origin, r.value)
    ensures Given(name) ==> r.Ok? && name.value <= r.value
    ensures !Given(name) && r.Ok? ==> r.value == origin
    ensures Given(name) && origin == "" ==> r.value == name.value
    ensures Given(name) && origin != "" ==>
      r.value == name.value + (if origin == "." then "" else ".") + origin
  {
    if !Given(name) && origin == "" then Err(InvalidRecord)
    else if !Given(name) then Ok(origin)
    else if origin == "" then Ok(name.value)
    else if origin == "." then Ok(name.value + origin)
    else Ok(name.value + "." + origin)
  }

  /**
   * The local name recovered from a stored full name exactly as the source computes it: no name
   * when the stored name is the origin, else the stored name cut one character before the first
   * occurrence of the origin, with Python's slice rules when there is none.
   */
  function LocalNameAsWritten(stored: string, origin: string): (n: Option<string>)
    ensures n.None? <==> stored == origin
    ensures n.Some? ==> n.value <= stored
  {
    if stored == origin then None
    else Some(Prefix(stored, Find(stored, origin) - 1))
  }

  /** The stored name lies within the origin: it is one that `Resolve` can produce for it. */
  predicate WithinOrigin(stored: string, origin: string) {
    || (stored == origin && origin != "")
    || (origin == "" && stored != "")
    || (origin == "." && |stored| > 1 && stored[|stored| - 1] == '.')
    || (origin != "." && origin != "" && |stored| > |origin| + 1
        && IsSuffix("." + origin, stored))
  }

  /**
   * The local name recovered from a stored full name: the inverse of `Resolve` on names within
   * the origin (the apex gives no name; otherwise the separator and origin that `Resolve`
   * appended are removed), and the source's own computation on any other name.
   */
  function LocalName(stored: string, origin: string): (n: Option<string>)
    ensures n.None? <==> stored == origin
    ensures n.Some? ==> n.value <= stored
  {
    if stored == origin then None
    else if origin == "" then Some(stored)
    else if origin == "." && |stored| > 1 && stored[|stored| - 1] == '.' then
      Some(stored[..|stored| - 1])
    else if origin != "." && |stored| > |origin| + 1 && IsSuffix("." + origin, stored) then
      Some(stored[..|stored| - |origin| - 1])
    else LocalNameAsWritten(stored, origin)
  }

  /** Resolving a name and recovering it from the full name gives the name back. */
  lemma LocalNameInvertsResolve(name: Option<string>, origin: string)
    requires Proper(name)
    requires Resolve(name, origin).Ok?
    ensures WithinOrigin(Resolve(name, origin).value, origin)
    ensures LocalName(Resolve(name, origin).value, origin) == name
  {
    var full := Resolve(name, origin).value;
    if name.Some? && origin == "." {
      assert full[..|full| - 1] == name.value;
    } else if name.Some? && origin != "" {
      assert full == name.value + ("." + origin);
      assert full[..|full| - |origin| - 1] == name.value;
    }
  }

  /** A stored name within the origin is exactly the full name of the local name recovered from it. */
  lemma ResolveInvertsLocalName(stored: string, origin: string)
    requires WithinOrigin(stored, origin)
    ensures Proper(LocalName(stored, origin))
    ensures Resolve(LocalName(stored, origin), origin) == Ok(stored)
  {
    if stored != origin && origin == "." {
      assert stored == stored[..|stored| - 1] + ".";
    } else if stored != origin && origin != "" {
      var n := stored[..|stored| - |origin| - 1];
      assert stored == n + ("." + origin);
      assert stored == n + "." + origin;
    }
  }

  /**
   * Where the origin first occurs just after the local name and its separator, the source's
   * computation recovers the name, and agrees with `LocalName`.
   */
  lemma AsWrittenRecoversName(name: string, origin: string)
    requires name != "" && origin != "" && origin != "."
    requires forall j: nat :: j <= |name| ==> !OccursAt(name + "." + origin, origin, j)
    ensures LocalNameAsWritten(Resolve(Some(name), origin).value, origin) == Some(name)
    ensures LocalName(Resolve(Some(name), origin).value, origin) == Some(name)
  {
    var full := name + "." + origin;
    assert OccursAt(full, origin, |name| + 1) by {
      assert full[|name| + 1..|name| + 1 + |origin|] == origin;
    }
    assert Find(full, origin) == |name| + 1;
    assert full[..|name|] == name;
    LocalNameInvertsResolve(Some(name), origin);
  }

  // ---------------------------------------------------------------- where the source goes wrong

  /**
   * With the root origin, the first occurrence of "." in a stored name is the dot after its
   * first label, so the source keeps only that label minus its last character: `ns1.` comes
   * back as `ns`, and `www.example.com.` as `ww`.
   */
  lemma RootOriginTruncatesLabel(first: string, tail: string)
    requires first != "" && '.' !in first
    requires tail == "" || tail[0] == '.'
    ensures Resolve(Some(first + tail), ".") == Ok(first + tail + ".")
    ensures LocalNameAsWritten(first + tail + ".", ".") == Some(first[..|first| - 1])
    ensures |first| > 1 ==>
      Resolve(LocalNameAsWritten(first + tail + ".", "."), ".") == Ok(first[..|first| - 1] + ".")
    ensures LocalName(first + tail + ".", ".") == Some(first + tail)
  {
    FirstDot(first, tail);
    var stored := first + tail + ".";
    assert stored[..|first| - 1] == first[..|first| - 1];
    LocalNameInvertsResolve(Some(first + tail), ".");
  }

  /** The first dot of `first + tail + "."` is the one right after the dot-free label `first`. */
  lemma FirstDot(first: string, tail: string)
    requires '.' !in first
    requires tail == "" || tail[0] == '.'
    ensures Find(first + tail + ".", ".") == |first|
  {
    var stored := first + tail + ".";
    var rest := tail + ".";
    assert stored == first + rest;
    assert rest[0] == '.';
    forall j | 0 <= j < |first| ensures !OccursAt(stored, ".", j) {
      assert stored[j..j + 1][0] == first[j];
    }
    assert OccursAt(stored, ".", |first|) by {
      assert stored[|first|] == rest[0];
      assert stored[|first|..|first| + 1] == ".";
    }
  }

  /** The stored name `ns1.` under the root origin comes back as `ns`, which is written `ns.`. */
  lemma RootOriginTruncatesName()
    ensures Resolve(Some("ns1"), ".") == Ok("ns1.")
    ensures LocalNameAsWritten("ns1.", ".") == Some("ns")
    ensures Resolve(LocalNameAsWritten("ns1.", "."), ".") == Ok("ns.")
    ensures LocalName("ns1.", ".") == Some("ns1")
  {
    assert '.' !in "ns1";
    RootOriginTruncatesLabel("ns1", "");
    assert "ns1" + "" == "ns1";
    assert "ns1" + "." == "ns1." by {
      assert forall j | 0 <= j < 4 :: ("ns1" + ".")[j] == "ns1."[j];
    }
    assert "ns1"[..2] == "ns";
    assert "ns" + "." == "ns." by {
      assert forall j | 0 <= j < 3 :: ("ns" + ".")[j] == "ns."[j];
    }
  }

  /** With an empty origin, the empty string is found at position 0 and the slice drops the last character. */
  lemma EmptyOriginTruncatesAny(name: string)
    requires name != ""
    ensures Resolve(Some(name), "") == Ok(name)
    ensures LocalNameAsWritten(name, "") == Some(name[..|name| - 1])
    ensures LocalName(name, "") == Some(name)
  {
    assert OccursAt(name, "", 0);
    assert Find(name, "") == 0;
  }

  /** The stored name `www` under the empty origin comes back as `ww`. */
  lemma EmptyOriginTruncatesName()
    ensures Resolve(Some("www"), "") == Ok("www")
    ensures LocalNameAsWritten("www", "") == Some("ww")
    ensures LocalName("www", "") == Some("www")
  {
    EmptyOriginTruncatesAny("www");
    assert "www"[..2] == "ww";
  }

  /**
   * When the local name itself begins with the origin, the origin is found at position 0 and
   * the source keeps the whole stored name but its last character.
   */
  lemma EarlierOriginOccurs(name: string, origin: string)
    requires origin != "" && origin != "." && origin <= name
    ensures Resolve(Some(name), origin) == Ok(name + "." + origin)
    ensures LocalNameAsWritten(name + "." + origin, origin) ==
      Some((name + "." + origin)[..|name| + |origin|])
    ensures LocalNameAsWritten(name + "." + origin, origin) != Some(name)
    ensures LocalName(name + "." + origin, origin) == Some(name)
  {
    var stored := name + "." + origin;
    assert OccursAt(stored, origin, 0) by {
      assert stored[..|origin|] == name[..|origin|];
    }
    assert Find(stored, origin) == 0;
    LocalNameInvertsResolve(Some(name), origin);
  }

  /** The name `b.c` under the origin `b.` is stored as `b.c.b.` and comes back as `b.c.b`. */
  lemma EarlierOriginOccurrence()
    ensures Resolve(Some("b.c"), "b.") == Ok("b.c.b.")
    ensures LocalNameAsWritten("b.c.b.", "b.") == Some("b.c.b")
    ensures LocalName("b.c.b.", "b.") == Some("b.c")
  {
    assert "b." <= "b.c" by {
      assert "b.c"[..2] == "b.";
    }
    EarlierOriginOccurs("b.c", "b.");
    assert "b.c" + "." + "b." == "b.c.b." by {
      assert forall j | 0 <= j < 6 :: ("b.c" + "." + "b.")[j] == "b.c.b."[j];
    }
    assert "b.c.b."[..5] == "b.c.b";
  }
}
