/**
 * The ingestion loop of reportHandler: every decoded key that is not one of
 * the device's bookkeeping parameters and whose first value reads as a
 * number becomes the station's value in that key's gauge.
 *
 * The specification is order-free: Ingested says what the registry holds
 * after one report, whatever order Go's map iteration picks.
 */
module Ingest {
  import opened Wrappers
  import opened Text
  import opened Numbers
  import opened UrlQuery
  import opened Registry
  import opened StringOrder

  /** ignoredKeys: parameters that never become metrics. */
  const IgnoredKeys: seq<string> := ["PASSKEY", "MAC", "STATIONTYPE", "SOFTWARETYPE", "DATEUTC", "TZ"]

  /** slices.Contains(ignoredKeys, strings.ToUpper(k)) */
  predicate IsIgnored(k: string) {
    ToUpper(k) in IgnoredKeys
  }

  /** The value key k contributes: its first value read as a number, unless the key is ignored. */
  function Reading(vals: Values, k: string): Option<real>
    requires NonEmptyLists(vals) && k in vals
  {
    if IsIgnored(k) then None else ParseNumber(vals[k][0])
  }

  /** The keys of a report that are written to the registry. */
  function Accepted(vals: Values): (a: set<string>)
    requires NonEmptyLists(vals)
    ensures a <= vals.Keys
  {
    set k | k in vals && Reading(vals, k).Some?
  }

  /** The row of field f in a snapshot, empty when the field has no gauge yet. */
  function Row(snap: map<string, map<string, real>>, f: string): map<string, real> {
    if f in snap then snap[f] else map[]
  }

  /** The numeric readings among the keys ks of a report: field to value. */
  function Readings(vals: Values, ks: set<string>): (w: map<string, real>)
    requires NonEmptyLists(vals)
    ensures w.Keys == Accepted(vals) * ks
  {
    map k | k in Accepted(vals) * ks :: Reading(vals, k).value
  }

  /** The snapshot with the readings w written for station. */
  function Overlay(snap: map<string, map<string, real>>, station: string, w: map<string, real>): map<string, map<string, real>> {
    map f | f in snap.Keys + w.Keys :: if f in w then Row(snap, f)[station := w[f]] else snap[f]
  }

  /** The snapshot after the keys ks of a report from station have been processed, in any order. */
  function IngestKeys(snap: map<string, map<string, real>>, station: string, vals: Values, ks: set<string>): map<string, map<string, real>>
    requires NonEmptyLists(vals)
  {
    Overlay(snap, station, Readings(vals, ks))
  }

  /** The snapshot after a whole report from station. */
  function Ingested(snap: map<string, map<string, real>>, station: string, vals: Values): map<string, map<string, real>>
    requires NonEmptyLists(vals)
  {
    IngestKeys(snap, station, vals, vals.Keys)
  }

  /** One iteration of the loop body, for key k. */
  function IngestOne(snap: map<string, map<string, real>>, station: string, vals: Values, k: string): map<string, map<string, real>>
    requires NonEmptyLists(vals) && k in vals
  {
    match Reading(vals, k)
    case None => snap
    case Some(x) => snap[k := Row(snap, k)[station := x]]
  }

  /** Taking one more key into account adds its reading, if it has one. */
  lemma ReadingsStep(vals: Values, ks: set<string>, k: string)
    requires NonEmptyLists(vals) && k in vals
    ensures Reading(vals, k).None? ==> Readings(vals, ks + {k}) == Readings(vals, ks)
    ensures Reading(vals, k).Some? ==> Readings(vals, ks + {k}) == Readings(vals, ks)[k := Reading(vals, k).value]
  {
  }

  /** Writing one more reading on top of an overlay is one more update of its row. */
  lemma OverlayStep(snap: map<string, map<string, real>>, station: string, w: map<string, real>, k: string, x: real)
    requires k !in w
    ensures Overlay(snap, station, w[k := x]) == Overlay(snap, station, w)[k := Row(Overlay(snap, station, w), k)[station := x]]
  {
    assert Row(Overlay(snap, station, w), k) == Row(snap, k);
  }

  /** Processing one more key extends the processed set by that key. */
  lemma IngestKeysStep(snap: map<string, map<string, real>>, station: string, vals: Values, ks: set<string>, k: string)
    requires NonEmptyLists(vals) && k in vals && k !in ks
    ensures IngestKeys(snap, station, vals, ks + {k}) == IngestOne(IngestKeys(snap, station, vals, ks), station, vals, k)
  {
    ReadingsStep(vals, ks, k);
    if Reading(vals, k).Some? {
      OverlayStep(snap, station, Readings(vals, ks), k, Reading(vals, k).value);
    }
  }

  /** A report adds exactly its accepted keys to the registry, and removes none. */
  lemma IngestedDomain(snap: map<string, map<string, real>>, station: string, vals: Values)
    requires NonEmptyLists(vals)
    ensures Ingested(snap, station, vals).Keys == snap.Keys + Accepted(vals)
  {
  }

  /** Nothing processed, nothing changed. */
  lemma IngestKeysNone(snap: map<string, map<string, real>>, station: string, vals: Values)
    requires NonEmptyLists(vals)
    ensures IngestKeys(snap, station, vals, {}) == snap
  {
  }

  /** Two different keys can be processed in either order. */
  lemma IngestOneCommutes(snap: map<string, map<string, real>>, station: string, vals: Values, k1: string, k2: string)
    requires NonEmptyLists(vals) && k1 in vals && k2 in vals && k1 != k2
    ensures IngestOne(IngestOne(snap, station, vals, k1), station, vals, k2)
         == IngestOne(IngestOne(snap, station, vals, k2), station, vals, k1)
  {
  }

  /** The loop run over the keys in the order ks. */
  function IngestSeq(snap: map<string, map<string, real>>, station: string, vals: Values, ks: seq<string>): map<string, map<string, real>>
    requires NonEmptyLists(vals) && forall i :: 0 <= i < |ks| ==> ks[i] in vals
  {
    if ks == [] then snap
    else IngestOne(IngestSeq(snap, station, vals, ks[..|ks| - 1]), station, vals, ks[|ks| - 1])
  }

  /** ks lists every key of s exactly once, in some order. */
  predicate Enumerates(ks: seq<string>, s: set<string>) {
    && Distinct(ks)
    && (forall i :: 0 <= i < |ks| ==> ks[i] in s)
    && (forall k :: k in s ==> k in ks)
  }

  /** Every finite set of keys can be listed in some order. */
  lemma {:induction false} EnumerationExists(s: set<string>)
    ensures exists ks :: Enumerates(ks, s)
    decreases |s|
  {
    if s == {} {
      assert Enumerates([], s);
    } else {
      var k :| k in s;
      EnumerationExists(s - {k});
      var ks :| Enumerates(ks, s - {k});
      assert (ks + [k])[..|ks|] == ks;
      assert Enumerates(ks + [k], s);
    }
  }

  /**
   * Iteration order does not matter: running the loop over ANY ordering of
   * the report's keys, each key once, ends in Ingested.
   */
  lemma AnyOrder(snap: map<string, map<string, real>>, station: string, vals: Values, ks: seq<string>)
    requires NonEmptyLists(vals) && Enumerates(ks, vals.Keys)
    ensures IngestSeq(snap, station, vals, ks) == Ingested(snap, station, vals)
  {
    PrefixIngest(snap, station, vals, ks);
    assert KeySet(ks) == vals.Keys;
  }

  /** The set of keys listed in ks. */
  function KeySet(ks: seq<string>): set<string> {
    set i | 0 <= i < |ks| :: ks[i]
  }

  /** The keys of a longer list are those of its prefix and its last key, which is new when keys are distinct. */
  lemma KeySetSnoc(ks: seq<string>)
    requires ks != [] && Distinct(ks)
    ensures KeySet(ks) == KeySet(ks[..|ks| - 1]) + {ks[|ks| - 1]}
    ensures ks[|ks| - 1] !in KeySet(ks[..|ks| - 1])
  {
    var n := |ks| - 1;
    forall x | x in KeySet(ks[..n]) ensures x in KeySet(ks) {
      var i :| 0 <= i < n && ks[..n][i] == x;
      assert ks[i] == x;
    }
    forall x | x in KeySet(ks[..n]) ensures x in ks[..n] {
      var i :| 0 <= i < n && ks[..n][i] == x;
    }
  }

  /** The loop over a list of distinct keys processes exactly the set of those keys. */
  lemma {:induction false} PrefixIngest(snap: map<string, map<string, real>>, station: string, vals: Values, ks: seq<string>)
    requires NonEmptyLists(vals) && forall i :: 0 <= i < |ks| ==> ks[i] in vals
    requires Distinct(ks)
    ensures IngestSeq(snap, station, vals, ks) == IngestKeys(snap, station, vals, KeySet(ks))
  {
    if ks == [] {
      IngestKeysNone(snap, station, vals);
    } else {
      var n := |ks| - 1;
      PrefixIngest(snap, station, vals, ks[..n]);
      KeySetSnoc(ks);
      IngestKeysStep(snap, station, vals, KeySet(ks[..n]), ks[n]);
    }
  }

  /**
   * One pass of the loop body for key k: an ignored key, or one whose first
   * value is not a number, changes nothing; otherwise the key's gauge is
   * fetched or created and the station's value set.
   */
  method IngestKey(reg: GaugeMap, station: string, vals: Values, k: string)
    requires reg.Valid() && NonEmptyLists(vals) && k in vals
    modifies reg, reg.m.Values
    ensures reg.Valid()
    ensures reg.Snapshot() == IngestOne(old(reg.Snapshot()), station, vals, k)
    ensures forall f :: f in old(reg.m) ==> f in reg.m && reg.m[f] == old(reg.m)[f]
    ensures forall f :: f in reg.m && f !in old(reg.m) ==> fresh(reg.m[f])
    ensures old(reg.registered) <= reg.registered
  {
    if IsIgnored(k) {
      return;
    }
    var r := ParseNumber(vals[k][0]);
    if r.Some? {
      ghost var s0 := reg.Snapshot();
      assert s0.Keys == reg.m.Keys;
      var g := reg.GetGauge(k);
      ghost var s1 := reg.Snapshot();
      label beforeSet:
      g.Set(station, r.value);
      reg.SnapshotAfterSet@beforeSet(Write(k, station, r.value));
      SetAfterGet(s0, s1, k, station, r.value);
    }
  }

  /** getGauge (which adds an empty row when k is new) followed by Set writes one cell of the row of k. */
  lemma SetAfterGet(s0: map<string, map<string, real>>, s1: map<string, map<string, real>>, k: string, station: string, x: real)
    requires s1 == if k in s0 then s0 else s0[k := map[]]
    ensures s1[k := s1[k][station := x]] == s0[k := Row(s0, k)[station := x]]
  {
  }

  /**
   * The loop over a whole report. Go visits the keys in an unspecified
   * order; here the order is any listing of the keys, each once.
   */
  method IngestReport(reg: GaugeMap, station: string, vals: Values)
    requires reg.Valid() && NonEmptyLists(vals)
    modifies reg, reg.m.Values
    ensures reg.Valid()
    ensures reg.Snapshot() == Ingested(old(reg.Snapshot()), station, vals)
    ensures reg.m.Keys == old(reg.m).Keys + Accepted(vals)
    ensures forall f :: f in old(reg.m) ==> f in reg.m && reg.m[f] == old(reg.m)[f]
    ensures old(reg.registered) <= reg.registered
  {
    EnumerationExists(vals.Keys);
    var order :| Enumerates(order, vals.Keys);
    ghost var before := reg.Snapshot();
    assert before.Keys == reg.m.Keys;
    for i := 0 to |order|
      invariant reg.Valid()
      invariant reg.Snapshot() == IngestSeq(before, station, vals, order[..i])
      invariant forall f :: f in old(reg.m) ==> f in reg.m && reg.m[f] == old(reg.m)[f]
      invariant forall f :: f in reg.m && f !in old(reg.m) ==> fresh(reg.m[f])
      invariant old(reg.registered) <= reg.registered
    {
      assert order[..i + 1][..i] == order[..i];
      IngestKey(reg, station, vals, order[i]);
    }
    assert order[..|order|] == order;
    AnyOrder(before, station, vals, order);
    assert reg.m.Keys == reg.Snapshot().Keys;
    IngestedDomain(before, station, vals);
  }

  /** The value of one cell of a snapshot: field f, station s. */
  function Cell(snap: map<string, map<string, real>>, f: string, s: string): Option<real> {
    if f in snap && s in snap[f] then Some(snap[f][s]) else None
  }

  /**
   * What one turn of the loop does to each cell: the cell of key k for the
   * reporting station takes k's reading when it has one; every other cell
   * keeps its value. A gauge is added for k exactly when k has a reading.
   */
  lemma IngestOneCell(snap: map<string, map<string, real>>, station: string, vals: Values, k: string, f: string, s: string)
    requires NonEmptyLists(vals) && k in vals
    ensures Cell(IngestOne(snap, station, vals, k), f, s) ==
      if f == k && s == station && Reading(vals, k).Some? then Reading(vals, k) else Cell(snap, f, s)
    ensures IngestOne(snap, station, vals, k).Keys == snap.Keys + (if Reading(vals, k).Some? then {k} else {})
  {
  }

  /**
   * What one report does to each cell: an accepted key's reading becomes
   * the value of its cell for the reporting station, overwriting any earlier
   * value; every other cell (other fields, other stations, ignored keys,
   * values that do not read as numbers) keeps its value.
   */
  lemma IngestedCell(snap: map<string, map<string, real>>, station: string, vals: Values, f: string, s: string)
    requires NonEmptyLists(vals)
    ensures Cell(Ingested(snap, station, vals), f, s) ==
      if f in Accepted(vals) && s == station then Some(Reading(vals, f).value) else Cell(snap, f, s)
  {
    var w := Readings(vals, vals.Keys);
    assert w.Keys == Accepted(vals);
    if f in w {
      assert Ingested(snap, station, vals)[f] == Row(snap, f)[station := w[f]];
    }
  }

  /** An ignored key, in any casing, never gets a gauge of its own and no write. */
  lemma IgnoredNeverStored(snap: map<string, map<string, real>>, station: string, vals: Values, k: string)
    requires NonEmptyLists(vals) && IsIgnored(k)
    ensures k in Ingested(snap, station, vals) <==> k in snap
    ensures k in snap ==> Ingested(snap, station, vals)[k] == snap[k]
  {
    IngestedDomain(snap, station, vals);
    assert k !in Accepted(vals);
  }

  /** Of two reports from the same station, the later one's reading of a field wins. */
  lemma LaterReportWins(snap: map<string, map<string, real>>, station: string, v1: Values, v2: Values, f: string)
    requires NonEmptyLists(v1) && NonEmptyLists(v2) && f in Accepted(v2)
    ensures Cell(Ingested(Ingested(snap, station, v1), station, v2), f, station) == Some(Reading(v2, f).value)
  {
    IngestedCell(Ingested(snap, station, v1), station, v2, f, station);
  }

  /** Two readings of the same key never coexist: only the first value of a key is read. */
  lemma OnlyFirstValue(snap: map<string, map<string, real>>, station: string, vals: Values, k: string, rest: seq<string>)
    requires NonEmptyLists(vals) && k in vals
    ensures NonEmptyLists(vals[k := [vals[k][0]] + rest])
    ensures Ingested(snap, station, vals[k := [vals[k][0]] + rest]) == Ingested(snap, station, vals)
  {
    var u := vals[k := [vals[k][0]] + rest];
    assert forall j :: j in u ==> Reading(u, j) == Reading(vals, j);
    assert Accepted(u) == Accepted(vals);
    assert Readings(u, u.Keys) == Readings(vals, vals.Keys);
  }

  /** Ignoring is case-insensitive: a key is ignored exactly when its upper-cased form is. */
  lemma IgnoredAnyCase(k: string)
    ensures IsIgnored(k) <==> IsIgnored(ToUpper(k))
  {
    ToUpperIdempotent(k);
  }

  /** Any spelling that upper-cases, letter by letter, to an ignored name is ignored. */
  lemma SpellingIgnored(k: string, i: nat)
    requires i < |IgnoredKeys| && |k| == |IgnoredKeys[i]|
    requires forall j :: 0 <= j < |k| ==> UpperChar(k[j]) == IgnoredKeys[i][j]
    ensures IsIgnored(k)
  {
    ToUpperOf(k, IgnoredKeys[i]);
  }

  /** "passkey" is ignored like "PASSKEY". */
  lemma LowerCasePasskeyIgnored()
    ensures IsIgnored("passkey")
  {
    SpellingIgnored("passkey", 0);
  }

  /** "UV" and "uv" are sensor keys, not bookkeeping parameters. */
  lemma UvKept()
    ensures !IsIgnored("UV") && !IsIgnored("uv")
  {
    ToUpperOf("uv", "UV");
    ToUpperOf("UV", "UV");
  }

  /** Sensor keys are stored under their own casing: "UV" and "uv" are two fields. */
  lemma CaseKept(snap: map<string, map<string, real>>, station: string, x: string, y: string)
    requires ParseNumber(x).Some? && ParseNumber(y).Some?
    ensures NonEmptyLists(map["UV" := [x], "uv" := [y]])
    ensures var after := Ingested(snap, station, map["UV" := [x], "uv" := [y]]);
      Cell(after, "UV", station) == ParseNumber(x) && Cell(after, "uv", station) == ParseNumber(y)
  {
    var vals: Values := map["UV" := [x], "uv" := [y]];
    UvKept();
    assert Reading(vals, "UV") == ParseNumber(x) && Reading(vals, "uv") == ParseNumber(y);
    IngestedCell(snap, station, vals, "UV", station);
    IngestedCell(snap, station, vals, "uv", station);
  }
}
