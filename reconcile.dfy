/**
 * Reconciliation (the middle of `main`): one requested record against the records already in
 * the zone. A singleton type (anything but NS, MX and SRV) is matched on full name and type,
 * and every match takes the request's ttl and value; a multi-value type is matched on full name,
 * type and value, and a match leaves the zone as it is. Without a match the request is appended.
 */
module Reconcile {
  import opened Records

  /** Same full name and type: how singleton records are matched. */
  predicate SameKey(a: Record, b: Record) {
    a.fullName == b.fullName && a.rtype == b.rtype
  }

  /** Same full name, type and value: how multi-value records are matched. */
  predicate SameEntry(a: Record, b: Record) {
    SameKey(a, b) && a.value == b.value
  }

  predicate HasKey(rrs: seq<Record>, rr: Record) {
    exists i :: 0 <= i < |rrs| && SameKey(rrs[i], rr)
  }

  predicate HasEntry(rrs: seq<Record>, rr: Record) {
    exists i :: 0 <= i < |rrs| && SameEntry(rrs[i], rr)
  }

  /** A record as a singleton request leaves it: a match takes the request's ttl and value. */
  function Refreshed(a: Record, rr: Record): Record {
    if SameKey(a, rr) then a.(ttl := rr.ttl, value := rr.value) else a
  }

  /** The zone after reconciling the request `rr` into `rrs`. */
  function Reconciled(rrs: seq<Record>, rr: Record): seq<Record> {
    if !IsMultiValue(rr.rtype) then
      if !HasKey(rrs, rr) then rrs + [rr]
      else seq(|rrs|, i requires 0 <= i < |rrs| => Refreshed(rrs[i], rr))
    else if !HasEntry(rrs, rr) then rrs + [rr]
    else rrs
  }

  /**
   * The reconciliation step: look for a match, then either append the request or, for a
   * singleton type, update the ttl and value of every match in place.
   */
  method Apply(existing: seq<Record>, rr: Record) returns (rrs: seq<Record>)
    ensures rrs == Reconciled(existing, rr)
  {
    rrs := existing;
    if !IsMultiValue(rr.rtype) {
      if !(exists i | 0 <= i < |rrs| :: SameKey(rrs[i], rr)) {
        rrs := rrs + [rr];
      } else {
        for i := 0 to |rrs|
          invariant |rrs| == |existing|
          invariant forall j :: 0 <= j < i ==> rrs[j] == Refreshed(existing[j], rr)
          invariant forall j :: i <= j < |rrs| ==> rrs[j] == existing[j]
        {
          if rrs[i].fullName == rr.fullName && rrs[i].rtype == rr.rtype {
            rrs := rrs[i := rrs[i].(ttl := rr.ttl, value := rr.value)];
          }
        }
      }
    } else if !(exists i | 0 <= i < |rrs| :: SameEntry(rrs[i], rr)) {
      rrs := rrs + [rr];
    }
  }

  /** The two records agree on everything but ttl and value. */
  predicate Kept(a: Record, b: Record) {
    && a.name == b.name && a.origin == b.origin && a.fullName == b.fullName
    && a.rrClass == b.rrClass && a.rtype == b.rtype
    && a.priority == b.priority && a.weight == b.weight && a.port == b.port
  }

  /**
   * A singleton request with no match is appended at the tail; otherwise the zone keeps its
   * length and order, the matches take the request's ttl and value and keep every other field,
   * and all other records are untouched.
   */
  lemma SingletonReconcile(rrs: seq<Record>, rr: Record)
    requires !IsMultiValue(rr.rtype)
    ensures !HasKey(rrs, rr) ==> Reconciled(rrs, rr) == rrs + [rr]
    ensures HasKey(rrs, rr) ==> var out := Reconciled(rrs, rr);
      && |out| == |rrs|
      && forall i :: 0 <= i < |rrs| ==>
           && Kept(out[i], rrs[i])
           && (SameKey(rrs[i], rr) ==> out[i].ttl == rr.ttl && out[i].value == rr.value)
           && (!SameKey(rrs[i], rr) ==> out[i] == rrs[i])
  {
  }

  /**
   * A multi-value request leaves the zone unchanged exactly when a record with the same full
   * name, type and value exists; otherwise it is appended at the tail.
   */
  lemma MultiValueReconcile(rrs: seq<Record>, rr: Record)
    requires IsMultiValue(rr.rtype)
    ensures Reconciled(rrs, rr) == rrs <==> HasEntry(rrs, rr)
    ensures !HasEntry(rrs, rr) ==> Reconciled(rrs, rr) == rrs + [rr]
  {
    if !HasEntry(rrs, rr) {
      assert |Reconciled(rrs, rr)| == |rrs| + 1;
    }
  }

  /**
   * Reconciliation never reorders, drops or rekeys a record: either every record stays in its
   * place with only ttl and value possibly changed, or the request is appended at the tail.
   */
  lemma UpdateInPlaceOrAppend(rrs: seq<Record>, rr: Record)
    ensures var out := Reconciled(rrs, rr);
      || (|out| == |rrs| && forall i :: 0 <= i < |rrs| ==> Kept(out[i], rrs[i]))
      || out == rrs + [rr]
  {
  }

  /** After reconciling, the zone holds the requested record. */
  predicate Holds(rrs: seq<Record>, rr: Record) {
    && HasEntry(rrs, rr)
    && (!IsMultiValue(rr.rtype) ==>
          forall i :: 0 <= i < |rrs| && SameKey(rrs[i], rr) ==>
            rrs[i].ttl == rr.ttl && rrs[i].value == rr.value)
  }

  lemma ReconciledHolds(rrs: seq<Record>, rr: Record)
    ensures Holds(Reconciled(rrs, rr), rr)
  {
    var out := Reconciled(rrs, rr);
    if !IsMultiValue(rr.rtype) && HasKey(rrs, rr) {
      var k :| 0 <= k < |rrs| && SameKey(rrs[k], rr);
      assert SameEntry(out[k], rr);
    } else if out == rrs + [rr] {
      assert SameEntry(out[|rrs|], rr);
    }
  }

  /** A zone that already holds the request is left as it is by it. */
  lemma HoldsIsFixpoint(rrs: seq<Record>, rr: Record)
    requires Holds(rrs, rr)
    ensures Reconciled(rrs, rr) == rrs
  {
    if !IsMultiValue(rr.rtype) {
      var out := Reconciled(rrs, rr);
      assert HasKey(rrs, rr) by {
        var k :| 0 <= k < |rrs| && SameEntry(rrs[k], rr);
      }
      assert forall i :: 0 <= i < |rrs| ==> out[i] == rrs[i];
    }
  }

  /** Repeating a request changes nothing: reconciling is idempotent. */
  lemma ReconcileIdempotent(rrs: seq<Record>, rr: Record)
    ensures Reconciled(Reconciled(rrs, rr), rr) == Reconciled(rrs, rr)
  {
    ReconciledHolds(rrs, rr);
    HoldsIsFixpoint(Reconciled(rrs, rr), rr);
  }

  /**
   * Two records the zone keeps apart: for a singleton type any two with the same full name
   * and type, for a multi-value type any two that also share their value.
   */
  predicate Clash(a: Record, b: Record) {
    SameKey(a, b) && (!IsMultiValue(a.rtype) || a.value == b.value)
  }

  /** No two records of the zone clash. */
  predicate Unique(rrs: seq<Record>) {
    forall i, j :: 0 <= i < j < |rrs| ==> !Clash(rrs[i], rrs[j])
  }

  /** Reconciliation keeps singleton keys and multi-value entries unique. */
  lemma ReconcileKeepsUnique(rrs: seq<Record>, rr: Record)
    requires Unique(rrs)
    ensures Unique(Reconciled(rrs, rr))
  {
    var out := Reconciled(rrs, rr);
    if out == rrs + [rr] {
      forall i, j | 0 <= i < j < |out| ensures !Clash(out[i], out[j]) {
        if j == |rrs| {
          assert out[i] == rrs[i] && out[j] == rr;
          assert !SameKey(rrs[i], rr) || (IsMultiValue(rr.rtype) && !SameEntry(rrs[i], rr));
        }
      }
    }
  }

  /** In a zone without clashes a singleton request updates exactly the one record it matches. */
  lemma UniqueUpdatesOne(rrs: seq<Record>, rr: Record)
    requires Unique(rrs) && !IsMultiValue(rr.rtype) && HasKey(rrs, rr)
    ensures exists k ::
              && 0 <= k < |rrs| && SameKey(rrs[k], rr)
              && Reconciled(rrs, rr) == rrs[k := rrs[k].(ttl := rr.ttl, value := rr.value)]
  {
    var k :| 0 <= k < |rrs| && SameKey(rrs[k], rr);
    forall i | 0 <= i < |rrs| && i != k ensures !SameKey(rrs[i], rr) {
      if i < k { assert !Clash(rrs[i], rrs[k]); } else { assert !Clash(rrs[k], rrs[i]); }
    }
    assert Reconciled(rrs, rr) == rrs[k := rrs[k].(ttl := rr.ttl, value := rr.value)];
  }

  /** Two multi-value requests at one name and type with different values both stay in the zone. */
  lemma MultiValueKeepsBoth(rrs: seq<Record>, r1: Record, r2: Record)
    requires IsMultiValue(r1.rtype) && SameKey(r1, r2) && r1.value != r2.value
    ensures var out := Reconciled(Reconciled(rrs, r1), r2);
      HasEntry(out, r1) && HasEntry(out, r2)
  {
    var mid := Reconciled(rrs, r1);
    ReconciledHolds(rrs, r1);
    ReconciledHolds(mid, r2);
    var out := Reconciled(mid, r2);
    assert out == mid || out == mid + [r2];
    var k :| 0 <= k < |mid| && SameEntry(mid[k], r1);
    assert out[k] == mid[k];
  }
}
