/**
 * reportHandler as a whole: acknowledge with 204, decode the report, hand
 * the decoded values to the mirror, and ingest them into the registry.
 *
 * The mirror runs in its own goroutine in the source and its outcome never
 * reaches the device; here the handler returns the request the mirror
 * would send (or none), and the sending is left to the caller.
 */
module Handler {
  import opened Wrappers
  import opened UrlQuery
  import opened Registry
  import opened Ingest
  import opened Report
  import opened Mirror

  /** http.StatusNoContent */
  const NoContent: int := 204

  /**
   * One report: the status is always 204, whatever the request holds; the
   * mirror target is built from the decoded values; and the registry ends
   * as Ingested says for the decoded station and fields.
   */
  method HandleReport(reg: GaugeMap, cfg: MirrorConfig, r: Request) returns (status: int, mirror: Option<OutboundRequest>)
    requires reg.Valid()
    modifies reg, reg.m.Values
    ensures status == NoContent
    ensures mirror == MirrorTarget(cfg, DecodeReport(r).fields, DecodeReport(r).station)
    ensures reg.Valid()
    ensures reg.Snapshot() == Ingested(old(reg.Snapshot()), DecodeReport(r).station, DecodeReport(r).fields)
    ensures reg.m.Keys == old(reg.m).Keys + Accepted(DecodeReport(r).fields)
    ensures forall f :: f in old(reg.m) ==> f in reg.m && reg.m[f] == old(reg.m)[f]
  {
    status := NoContent;
    var rep := DecodeReport(r);
    mirror := MirrorTarget(cfg, rep.fields, rep.station);
    IngestReport(reg, rep.station, rep.fields);
  }

  /**
   * What the mirror receives is what the handler decoded: for a request of
   * byte text and a configured mirror host, parsing the mirrored query gives
   * back the decoded fields, ignored keys included.
   */
  lemma MirrorCarriesReport(cfg: MirrorConfig, r: Request)
    requires cfg.host != "" && ByteString(r.path) && ByteString(r.rawQuery)
    ensures ParseQuery(MirrorTarget(cfg, DecodeReport(r).fields, DecodeReport(r).station).value.url.rawQuery)
      == QueryResult(DecodeReport(r).fields, None)
  {
    DecodedWellFormed(r);
    TargetQueryRoundTrip(cfg, DecodeReport(r).fields, DecodeReport(r).station);
  }

  /**
   * A key the handler ignores for the registry still reaches the mirror:
   * each decoded key, ignored or not, is in the mirrored query with all its
   * values.
   */
  lemma IgnoredKeysMirrored(cfg: MirrorConfig, r: Request, k: string)
    requires cfg.host != "" && ByteString(r.path) && ByteString(r.rawQuery)
    requires k in DecodeReport(r).fields && IsIgnored(k)
    ensures var q := ParseQuery(MirrorTarget(cfg, DecodeReport(r).fields, DecodeReport(r).station).value.url.rawQuery);
      k in q.values && q.values[k] == DecodeReport(r).fields[k]
    ensures k !in Accepted(DecodeReport(r).fields)
  {
    MirrorCarriesReport(cfg, r);
  }
}
