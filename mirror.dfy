/**
 * The target of mirrorRequest: the outbound GET that copies a decoded
 * report to the configured mirror, built from the mirror flags and the
 * decoded values. Sending it (and its 10-second timeout, the response
 * status and the logging) is network I/O and not modelled.
 */
module Mirror {
  import opened Wrappers
  import opened Text
  import opened Numbers
  import opened UrlQuery

  /** The -mirror-host, -mirror-port, -mirror-path and -mirror-https flags. */
  datatype MirrorConfig = MirrorConfig(host: string, port: int, path: string, https: bool)

  /** The fields of the url.URL that mirrorRequest fills in. */
  datatype Url = Url(scheme: string, host: string, path: string, rawQuery: string)

  /** The outbound request: its method (verb), target and User-Agent header. */
  datatype OutboundRequest = OutboundRequest(verb: string, url: Url, userAgent: string)

  const UserAgent: string := "awp-exporter-mirror/1.0"

  /** The configured flags' defaults: no host, port 8000, path "/data/report", plain HTTP. */
  const DefaultConfig: MirrorConfig := MirrorConfig("", 8000, "/data/report", false)

  function Scheme(cfg: MirrorConfig): (s: string)
    ensures s == "https" || s == "http"
    ensures s == "https" <==> cfg.https
  {
    if cfg.https then "https" else "http"
  }

  /**
   * The port of the target: under HTTPS a configured port of exactly 80
   * becomes 443; every other port, and every port under plain HTTP, is kept.
   */
  function TargetPort(cfg: MirrorConfig): (p: int)
    ensures p != cfg.port ==> cfg.https && cfg.port == 80 && p == 443
    ensures cfg.https && cfg.port == 80 ==> p == 443
  {
    if cfg.https && cfg.port == 80 then 443 else cfg.port
  }

  /** fmt.Sprintf("%s:%d", host, port) */
  function HostPort(host: string, port: int): string {
    host + ":" + DecimalString(port)
  }

  /**
   * mirrorRequest's target: nothing when no mirror host is configured;
   * otherwise a GET to scheme://host:port with the configured path less one
   * trailing slash, the decoded values re-encoded as the query, and the
   * exporter's User-Agent. The station is only logged: it is not part of
   * the target.
   */
  function MirrorTarget(cfg: MirrorConfig, vals: Values, station: string): (r: Option<OutboundRequest>)
    ensures r.None? <==> cfg.host == ""
  {
    if cfg.host == "" then None
    else
      var url := Url(Scheme(cfg), HostPort(cfg.host, TargetPort(cfg)), TrimSlashSuffix(cfg.path), Encode(vals));
      Some(OutboundRequest("GET", url, UserAgent))
  }

  /** Every target is a GET carrying the exporter's User-Agent, https exactly when the flag says so. */
  lemma TargetShape(cfg: MirrorConfig, vals: Values, station: string)
    requires cfg.host != ""
    ensures MirrorTarget(cfg, vals, station).value.verb == "GET"
    ensures MirrorTarget(cfg, vals, station).value.userAgent == "awp-exporter-mirror/1.0"
    ensures MirrorTarget(cfg, vals, station).value.url.scheme == "https" <==> cfg.https
    ensures MirrorTarget(cfg, vals, station).value.url.scheme == "http" <==> !cfg.https
  {
  }

  /**
   * The host of the target is the configured host, a colon and the port in
   * decimal; when the host has no colon of its own, cutting at the first
   * colon gives the host back, and the rest reads as the port.
   */
  lemma TargetHost(cfg: MirrorConfig, vals: Values, station: string)
    requires cfg.host != "" && ':' !in cfg.host
    ensures var h := MirrorTarget(cfg, vals, station).value.url.host;
      && Cut(h, ':').before == cfg.host
      && ParseNumber(Cut(h, ':').after) == Some(TargetPort(cfg) as real)
  {
    var h := HostPort(cfg.host, TargetPort(cfg));
    assert h == cfg.host + [':'] + DecimalString(TargetPort(cfg));
    CutAtFirst(cfg.host, ':', DecimalString(TargetPort(cfg)));
    DecimalStringParses(TargetPort(cfg));
  }

  /**
   * The path of the target is the configured path with one trailing slash
   * removed: appending a slash gives the configured path back when it ended
   * in one, and otherwise it is the configured path itself. No station
   * element is appended.
   */
  lemma TargetPath(cfg: MirrorConfig, vals: Values, station: string)
    requires cfg.host != ""
    ensures var p := MirrorTarget(cfg, vals, station).value.url.path;
      && (HasSuffix(cfg.path, "/") ==> p + "/" == cfg.path)
      && (!HasSuffix(cfg.path, "/") ==> p == cfg.path)
  {
  }

  /** The target is the same for every station. */
  lemma StationNotInTarget(cfg: MirrorConfig, vals: Values, s1: string, s2: string)
    ensures MirrorTarget(cfg, vals, s1) == MirrorTarget(cfg, vals, s2)
  {
  }

  /**
   * The mirror receives every decoded pair: parsing the target's query gives
   * back exactly the values it was built from, ignored keys included, and
   * no error.
   */
  lemma TargetQueryRoundTrip(cfg: MirrorConfig, vals: Values, station: string)
    requires cfg.host != "" && WellFormedValues(vals)
    ensures ParseQuery(MirrorTarget(cfg, vals, station).value.url.rawQuery) == QueryResult(vals, None)
  {
    EncodeRoundTrip(vals);
  }

  /**
   * With the default port 8000 and HTTPS on, the port stays 8000: only an
   * explicit port 80 is switched to 443.
   */
  lemma HttpsKeepsDefaultPort()
    ensures TargetPort(DefaultConfig.(https := true)) == 8000
    ensures TargetPort(DefaultConfig.(port := 80, https := true)) == 443
    ensures TargetPort(DefaultConfig.(port := 80)) == 80
  {
  }

  /** The default flags with a host: plain HTTP to host:8000 at "/data/report". */
  lemma DefaultTarget(host: string, vals: Values, station: string)
    requires host != ""
    ensures var url := MirrorTarget(DefaultConfig.(host := host), vals, station).value.url;
      url.scheme == "http" && url.host == host + ":8000" && url.path == "/data/report"
  {
    assert DecimalString(8000) == "8000" by {
      assert NatString(8000) == NatString(800) + ['0'];
      assert NatString(800) == NatString(80) + ['0'];
      assert NatString(80) == NatString(8) + ['0'];
    }
  }
}
