/**
 * The dynamic gauge registry of main.go: a map from the raw sensor field
 * name to its GaugeVec (one gauge per station label), filled by getGauge's
 * get-or-create step. Registering a new GaugeVec with the exposition
 * registry is recorded as the metric name it hands over.
 *
 * getGauge runs under a mutex in the source; here each call is one atomic
 * step.
 */
module Registry {
  import opened StringOrder

  const MetricPrefix: string := "awp_"

  /** fmt.Sprintf("awp_%s", field) */
  function MetricName(field: string): (n: string)
    ensures |n| == |MetricPrefix| + |field|
    ensures n[..|MetricPrefix|] == MetricPrefix && n[|MetricPrefix|..] == field
  {
    MetricPrefix + field
  }

  /** Distinct fields get distinct metric names. */
  lemma MetricNameInjective(f: string, g: string)
    ensures MetricName(f) == MetricName(g) ==> f == g
  {
    assert f == MetricName(f)[|MetricPrefix|..];
  }

  /** fmt.Sprintf("AWP sensor value for %s", field) */
  function HelpText(field: string): string {
    "AWP sensor value for " + field
  }

  /** The metric names of the fields fs, in the same order. */
  function Names(fs: seq<string>): (r: seq<string>)
    ensures |r| == |fs|
    ensures forall i :: 0 <= i < |fs| ==> r[i] == MetricName(fs[i])
  {
    if fs == [] then [] else Names(fs[..|fs| - 1]) + [MetricName(fs[|fs| - 1])]
  }


  /** A name not among the metric names of fs is not that of any field of fs. */
  lemma NameNotListed(fs: seq<string>, f: string)
    requires f !in fs
    ensures MetricName(f) !in Names(fs)
  {
    var r := Names(fs);
    forall i | 0 <= i < |r| ensures r[i] != MetricName(f) {
      MetricNameInjective(fs[i], f);
    }
  }

  /** The names of distinct fields are distinct. */
  lemma {:induction false} NamesDistinct(fs: seq<string>)
    requires Distinct(fs)
    ensures Distinct(Names(fs))
  {
    if fs != [] {
      var n := |fs| - 1;
      NamesDistinct(fs[..n]);
      NameNotListed(fs[..n], fs[n]);
      assert Names(fs)[..n] == Names(fs[..n]);
    }
  }

  /**
   * The registry invariant, on plain values: the map, the creation order of
   * its fields and the registered names are what a sequence of inserts of new
   * fields builds, one getGauge miss at a time. The last field created is in
   * the map, with a GaugeVec created for it, its name was registered last,
   * and removing it leaves a consistent registry.
   */
  ghost predicate Consistent(m: map<string, GaugeVec>, fields: seq<string>, registered: seq<string>)
    decreases |fields|
  {
    if fields == [] then m == map[] && registered == []
    else
      var n := |fields| - 1;
      && fields[n] in m && m[fields[n]].field == fields[n]
      && |registered| == |fields| && registered[n] == MetricName(fields[n])
      && Consistent(m - {fields[n]}, fields[..n], registered[..n])
  }

  /**
   * What the invariant means pointwise: the map holds exactly the created
   * fields, each with its own GaugeVec, every field was created once, and
   * the registered names are theirs, in creation order.
   */
  lemma {:induction false} ConsistentFacts(m: map<string, GaugeVec>, fields: seq<string>, registered: seq<string>)
    requires Consistent(m, fields, registered)
    ensures forall f :: f in m <==> f in fields
    ensures forall f :: f in m ==> m[f].field == f
    ensures Distinct(fields)
    ensures registered == Names(fields)
    decreases |fields|
  {
    if fields != [] {
      var n := |fields| - 1;
      ConsistentFacts(m - {fields[n]}, fields[..n], registered[..n]);
      assert fields == fields[..n] + [fields[n]];
      assert registered == registered[..n] + [registered[n]];
      forall f | f in m ensures f in fields {
        if f != fields[n] { assert f in m - {fields[n]}; }
      }
    }
  }

  /** Inserting a new GaugeVec for a new field, and registering its name, keeps the invariant. */
  lemma InsertKeepsConsistent(m: map<string, GaugeVec>, fields: seq<string>, registered: seq<string>, g: GaugeVec)
    requires Consistent(m, fields, registered)
    requires g.field !in m
    ensures MetricName(g.field) !in registered
    ensures Consistent(m[g.field := g], fields + [g.field], registered + [MetricName(g.field)])
  {
    ConsistentFacts(m, fields, registered);
    NameNotListed(fields, g.field);
    assert (fields + [g.field])[..|fields|] == fields;
    assert (registered + [MetricName(g.field)])[..|fields|] == registered;
    assert m[g.field := g] - {g.field} == m;
  }

  /** One gauge write: the value of field for station. */
  datatype Write = Write(field: string, station: string, value: real)

  /**
   * A GaugeVec with the single label "station", as created for one sensor
   * field: its name and help text follow from the field, and it holds the
   * current value per station.
   */
  class GaugeVec {
    const field: string
    const name: string := MetricName(field)
    const help: string := HelpText(field)
    const labels: seq<string> := ["station"]
    var values: map<string, real>

    /** prometheus.NewGaugeVec for a field: named and described after it, no values yet. */
    constructor (field: string)
      ensures this.field == field && values == map[]
    {
      this.field := field;
      values := map[];
    }

    /** WithLabelValues(station).Set(x): the station's value becomes x, overwriting any earlier one. */
    method Set(station: string, x: real)
      modifies this
      ensures values == old(values)[station := x]
    {
      values := values[station := x];
    }
  }

  /** gaugeMap: field name to GaugeVec, and the names registered so far. */
  class GaugeMap {
    var m: map<string, GaugeVec>
    var registered: seq<string>
    /** The fields in the order their gauges were created. */
    ghost var fields: seq<string>

    /** The registry invariant, on the current map and registrations. */
    ghost predicate Valid()
      reads this
    {
      Consistent(m, fields, registered)
    }

    /** The values the exposition endpoint would list: field, then station, to value. */
    ghost function Snapshot(): map<string, map<string, real>>
      reads this, m.Values
    {
      map f | f in m :: m[f].values
    }

    /**
     * Every entry is named "awp_" + its field and described after it, its
     * name is registered, and no name is ever registered twice.
     */
    lemma NamesRegisteredOnce()
      requires Valid()
      ensures forall f :: f in m ==> m[f].name == MetricName(f) && m[f].help == HelpText(f)
      ensures forall f :: f in m ==> MetricName(f) in registered
      ensures forall i, j :: 0 <= i < j < |registered| ==> registered[i] != registered[j]
    {
      ConsistentFacts(m, fields, registered);
      NamesDistinct(fields);
      DistinctPairwise(registered);
      forall f | f in m ensures MetricName(f) in registered {
        var i :| 0 <= i < |fields| && fields[i] == f;
        assert registered[i] == MetricName(f);
      }
    }

    /** No two fields share a GaugeVec. */
    lemma EntriesDistinct(f: string, h: string)
      requires Valid() && f in m && h in m && f != h
      ensures m[f] != m[h]
    {
      ConsistentFacts(m, fields, registered);
    }

    /** Adding one empty entry, with every old GaugeVec untouched, adds one empty row to the snapshot. */
    twostate lemma SnapshotAfterInsert(field: string)
      requires field !in old(m) && field in m && m == old(m)[field := m[field]]
      requires m[field].values == map[]
      requires forall f :: f in old(m) ==> unchanged(old(m)[f])
      ensures Snapshot() == old(Snapshot())[field := map[]]
    {
      assert Snapshot().Keys == old(Snapshot()).Keys + {field};
    }

    /**
     * Setting one station's value in one entry, with every other GaugeVec
     * untouched, changes that one cell of the snapshot and nothing else.
     */
    twostate lemma SnapshotAfterSet(w: Write)
      requires Valid() && unchanged(this) && w.field in m
      requires m[w.field].values == old(m[w.field].values)[w.station := w.value]
      requires forall o :: o in m.Values && o != m[w.field] ==> unchanged(o)
      ensures Snapshot() == old(Snapshot())[w.field := old(Snapshot())[w.field][w.station := w.value]]
    {
      ConsistentFacts(m, fields, registered);
      forall f | f in m && f != w.field ensures m[f].values == old(m[f].values) {
        assert m[f] in m.Values && m[f].field != m[w.field].field;
      }
    }

    /** The empty registry of a freshly started process. */
    constructor ()
      ensures Valid() && m == map[] && registered == []
    {
      m := map[];
      registered := [];
      fields := [];
    }

    /**
     * getGauge: return the entry for field, creating, registering and
     * inserting it when it is missing. An existing entry is returned as it is
     * and nothing changes; otherwise exactly one entry is added, named
     * "awp_" + field, whose name had not been registered before. Other
     * entries are untouched and the map never loses a field.
     */
    method GetGauge(field: string) returns (g: GaugeVec)
      requires Valid()
      modifies this
      ensures Valid()
      ensures field in m && g == m[field] && g.name == MetricName(field)
      ensures field in old(m) ==> g == old(m)[field] && m == old(m) && registered == old(registered)
      ensures field !in old(m) ==>
        && fresh(g) && g.values == map[]
        && m == old(m)[field := g]
        && MetricName(field) !in old(registered)
        && registered == old(registered) + [MetricName(field)]
      ensures Snapshot() == if field in old(m) then old(Snapshot()) else old(Snapshot())[field := map[]]
    {
      if field in m {
        ConsistentFacts(m, fields, registered);
        g := m[field];
        return;
      }
      g := new GaugeVec(field);
      InsertKeepsConsistent(m, fields, registered, g);
      registered := registered + [MetricName(field)];
      fields := fields + [field];
      m := m[field := g];
      SnapshotAfterInsert(field);
    }
  }
}
