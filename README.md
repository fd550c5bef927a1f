# awp-exporter request ingestion, in Dafny

awp-exporter receives weather-station reports over HTTP. It turns each
numeric sensor field into a Prometheus gauge labelled by station. It can also
forward the report to a second collector, the mirror. This project models
the core of `main.go` and proves properties of that model:

- **Report decoding** (`reportHandler`, main.go:91-106). A request's path and
  raw query become a station name and a multimap of fields. Some devices write
  `&` where the `?` belongs; then the fields are what follows the first `&` of
  the path. Parsing is `url.ParseQuery`, and it is tolerant: a bad pair is
  dropped and parsing goes on. The error kept for the log is the last
  semicolon error, if there is one; otherwise it is the first escape error.
  The model puts no limit on the number of parameters (see "Left out").
- **The gauge registry** (`getGauge`, main.go:63-85). This is a get-or-create
  step on a map from field name to GaugeVec. It is modelled as a class
  (`Registry.GaugeMap`) whose method updates the map in place. A new
  GaugeVec is named `awp_<field>` and its name is registered exactly once.
- **The ingestion loop** (main.go:117-127). Keys whose upper-cased form is in
  `ignoredKeys` are skipped. For every other key, the first value is parsed
  as a number; on success the key's gauge is set for the station. This is an
  imperative method over the registry. It is proved to end in a state given
  by a pure specification, `Ingest.Ingested`, whatever order Go's map
  iteration picks.
- **The mirror target** (`mirrorRequest`, main.go:131-152). It has no target
  when no mirror host is configured. Otherwise:
  - the scheme is `https` exactly when the flag is set;
  - port 80 becomes 443 under HTTPS;
  - the host is `host:port`;
  - the path is the configured path with one trailing slash removed;
  - the query is `url.Values.Encode` of every decoded pair, ignored keys
    included.
  
  These are pure functions.
- **The handler** as a whole. It always answers 204. It builds the mirror
  target from the decoded values and ingests them.

The parts of Go's standard library that these steps depend on are modelled
too, as far as the exporter uses them:

- on strings: `strings.Cut`, `strings.TrimSuffix`, `strings.ToUpper` (ASCII)
  and `path.Base`;
- on queries: `url.ParseQuery`, `url.QueryUnescape`, `url.QueryEscape` and
  `url.Values.Encode`, including the sorted key order;
- on numbers: the decimal part of `strconv.ParseFloat`, and `%d`.

Characters stand for bytes throughout.

Where the code and the expectations stated next to it disagree, the model
follows the code:

- The mirror path is the configured path with one trailing `/` removed;
  nothing is appended to it (main.go:150). The handler test's failure
  message expects the path to end in `/TEST_STATION`. Its check only asks
  that the path end in the configured mirror path (main_test.go:107-108).
- The HTTPS port switch fires only when the configured port is exactly 80
  (main.go:141). The flag's default is 8000 (main.go:27), not 80. With HTTPS
  and the default port, the target port stays 8000.
  `Mirror.HttpsKeepsDefaultPort` states this.

Files:

| file | contents |
|---|---|
| `wrappers.dfy` | `Option`, `Result` |
| `text.dfy` | `Cut`, `TrimSuffix`, `HasSuffix`, `path.Base`, ASCII `ToUpper` |
| `order.dfy` | Go's string order and the sorted key list of `Encode` |
| `numbers.dfy` | decimal number text (`ParseFloat` on decimal input) and `%d` |
| `urlquery.dfy` | `ParseQuery`, escaping, `Encode`, and the round trip between them |
| `registry.dfy` | `GaugeVec`, the `GaugeMap` class and `GetGauge` |
| `ingest.dfy` | the ingestion loop and its order-free specification |
| `report.dfy` | the decoding branch of `reportHandler` |
| `mirror.dfy` | the target of `mirrorRequest` |
| `handler.dfy` | `reportHandler` as one step |

## Model

| member | source | states |
|---|---|---|
| Text.Cut | main.go:103 | When the separator is found, the input is the part before, the separator and the part after; otherwise the part before is the whole input and the part after is empty. |
| Text.CutFound | main.go:103 | The separator is found exactly when it occurs, and the part before holds no separator, so the cut is at the first occurrence. |
| Text.CutAtFirst | main.go:103 | Cutting `a + sep + b`, when `a` has no separator, gives exactly `a` and `b`, found. |
| Text.TrimSlashSuffix | main.go:150 | Exactly one trailing slash is removed: the result plus "/" is the input when it ended in a slash; otherwise the result is the input. |
| Text.TrimTrailingSlashes | main.go:99 | The result is a prefix of the input, does not end in a slash, and only slashes were removed. |
| Text.LastSegment | main.go:99 | The result has no slash, is a suffix of the input, and is preceded by a slash when it is not the whole input. |
| Text.Base | main.go:104 | `path.Base` is never empty, and contains a slash only when it is "/". |
| Text.BaseOfLastElement | main.go:104 | The base of `dir + "/" + name`, and of `name` alone, is `name` for every non-empty slash-free name. |
| Text.BaseOfSlashes | main.go:99 | A path made only of slashes has base "/". |
| Text.ToUpper | main.go:119 | `strings.ToUpper` on ASCII; the length is kept. `ToUpperChars`, `ToUpperOf` and `ToUpperIdempotent` state its meaning. |
| Text.UpperChar | main.go:119 | A lower-case ASCII letter moves to upper case; every other character is kept; no result is lower case. |
| Text.ToUpperChars | main.go:119 | `ToUpper` maps every character to its upper-case form, position by position. |
| Text.ToUpperOf | main.go:119 | `ToUpper(s)` is `u` whenever `u` upper-cases `s` position by position. |
| Text.ToUpperIdempotent | main.go:119 | Upper-casing twice is the same as upper-casing once. |
| StringOrder.LessEqTotal | main.go:151 | Any two strings are comparable in Go's byte-wise order. |
| StringOrder.LessEqTransitive | main.go:151 | Go's string order is transitive. |
| StringOrder.LessEqAntisymmetric | main.go:151 | Go's string order is antisymmetric. |
| StringOrder.LeastExists | main.go:151 | Every non-empty finite set of keys has a least key. |
| StringOrder.SortedKeys | main.go:151 | The key list `Encode` walks holds every key of the map exactly once and nothing else, strictly increasing. |
| Numbers.MantissaLengthLongest | main.go:124 | The mantissa is the longest prefix of digits and points. |
| Numbers.DigitsParse | main.go:124 | A string of digits reads as its decimal value. |
| Numbers.DecimalParse | main.go:124 | Digits, a point and digits, with at least one digit on either side, read as the integer part plus the fraction; ".5" is included. |
| Numbers.ExponentParse | main.go:124 | A mantissa followed by an exponent suffix, "e" or "E", reads as the mantissa scaled by ten to the exponent. |
| Numbers.ExponentOfDigits | main.go:124 | "e" or "e-" followed by digits is that exponent, positive or negative. |
| Numbers.NegativeParse | main.go:124 | A leading minus negates the value of the rest. |
| Numbers.ParseNumber | main.go:124 | The decimal subset of `strconv.ParseFloat` as an exact value, and `None` for its error. It has no contract of its own; `DigitsParse`, `DecimalParse`, `ExponentParse`, `NegativeParse` and `NonNumericExamples` state what it accepts and the value it gives. |
| Numbers.FractionOnlyExample | main.go:124 | ".5" reads as 0.5: the integer part may be empty. |
| Numbers.DecimalReadingExample | main.go:124 | "72.5" reads as 72.5. |
| Numbers.IntegerReadingExample | main.go:124 | "45" reads as 45. |
| Numbers.NonNumericExamples | main.go:124 | "N/A", "" and "." are not numbers, so such a field is skipped. |
| Numbers.DecimalString | main.go:149 | The `%d` text of the port. `DecimalStringParses` states that it reads back as the number. |
| Numbers.NatStringValue | main.go:149 | The `%d` digits of a natural number have that value. |
| Numbers.DecimalStringParses | main.go:149 | The `%d` text of every int reads back as that int. |
| UrlQuery.Unescape | main.go:98 | Unescaping byte text gives byte text. |
| UrlQuery.Escape | main.go:151 | `url.QueryEscape`, byte by byte. `EscapeSafe`, `EscapeUnreserved` and `UnescapeEscape` state its meaning. |
| UrlQuery.EscapeSafe | main.go:151 | Escaped text holds no '&', ';' or '=', so it can sit inside one query pair. |
| UrlQuery.EscapeUnreserved | main.go:151 | Text of unreserved bytes is its own escape. |
| UrlQuery.UnescapeEscape | main.go:151 | `QueryUnescape` undoes `QueryEscape` on every byte string. |
| UrlQuery.ParseQuery | main.go:98 | `url.ParseQuery`. It has no contract of its own. `ErrorIffMalformed`, `ValuesOfConcat`, `MalformedSegmentDropped`, `ParseQueryWellFormed` and `EncodeRoundTrip` state what it returns. |
| UrlQuery.SegmentsHaveNoSeparator | main.go:98 | No segment `ParseQuery` visits holds '&'. |
| UrlQuery.SegmentsOfBytes | main.go:98 | The segments of byte text are byte text. |
| UrlQuery.Append | main.go:98 | `m[key] = append(m[key], value)`: the key gets the value appended, other keys keep theirs. |
| UrlQuery.Collect | main.go:98 | Every key `ParseQuery` returns has at least one value. |
| UrlQuery.ParseQueryNonEmptyLists | main.go:124 | Every key of a parsed query has a first value, so the handler's `vv[0]` is defined. |
| UrlQuery.ParseQueryWellFormed | main.go:98 | Byte text parses to byte keys and byte values with no empty list. |
| UrlQuery.ValuesOfConcat | main.go:98 | Parsing two runs of segments merges what each run alone yields. |
| UrlQuery.ErrorIffMalformed | main.go:98 | `ParseQuery` reports an error exactly when some segment is malformed. |
| UrlQuery.MalformedSegmentDropped | main.go:98 | A malformed segment anywhere removes only itself; the error is reported. |
| UrlQuery.MalformedPairDropped | main.go:109-112 | A malformed pair between two parts of a query leaves the values of both parts, and the error is reported; parsing never aborts. |
| UrlQuery.SegmentsOfJoin | main.go:151 | Splitting joined non-empty '&'-free segments gives them back. |
| UrlQuery.ClassifyPairText | main.go:151 | An encoded pair of byte strings parses as that same pair. |
| UrlQuery.ParseKeySegments | main.go:151 | The encoded pairs of one key parse back to that key with all its values in order. |
| UrlQuery.CollectEncodedPairs | main.go:151 | The pairs of distinct keys parse to exactly those keys' values, without error. |
| UrlQuery.ParseEncodedInAnyOrder | main.go:151 | The pairs of all keys, in any order of the keys, parse back to the same values. |
| UrlQuery.Encode | main.go:151 | `url.Values.Encode`: every key's pairs in sorted key order, joined by '&'. `EncodeRoundTrip` states that `ParseQuery` undoes it. |
| UrlQuery.EncodeRoundTrip | main.go:151 | `ParseQuery(Encode(v))` gives back `v`, every key with all its values in order, and no error. |
| UrlQuery.ParseTwoPairs | main.go:105 | `k1=x1&k2=x2` with distinct plain keys parses to those two keys with one value each. |
| Registry.MetricName | main.go:75 | The metric name is "awp_" followed by the field. |
| Registry.MetricNameInjective | main.go:75 | Distinct fields get distinct metric names. |
| Registry.NamesDistinct | main.go:80 | The metric names of distinct fields are distinct. |
| Registry.InsertKeepsConsistent | main.go:73-81 | Creating and registering a GaugeVec for a missing field keeps the registry invariant; its name was not registered before. |
| Registry.ConsistentFacts | main.go:67-81 | Under the registry invariant, the map holds exactly the created fields, each with its own GaugeVec; no field was created twice; the registered names are theirs in creation order. |
| Registry.GaugeVec.Set | main.go:125 | `WithLabelValues(station).Set(x)` overwrites the station's value and nothing else. |
| Registry.GaugeVec.constructor | main.go:73-79 | A new GaugeVec for a field has no values; its name, help text and label follow from the field. |
| Registry.GaugeMap.constructor | main.go:32-35 | The registry starts empty, with nothing registered. |
| Registry.GaugeMap.Valid | main.go:32-35 | The registry invariant: the gauges map and the registered names agree. `ConsistentFacts` spells out what it implies. |
| Registry.GaugeMap.Snapshot | main.go:125 | Each field's values by station, which is what `/metrics` exposes. `GetGauge`, `IngestKey` and `IngestReport` state their effect on it. |
| Registry.GaugeMap.NamesRegisteredOnce | main.go:73-81 | Every entry is named "awp_" + its field, its name is registered, and no name is registered twice. |
| Registry.GaugeMap.EntriesDistinct | main.go:81 | No two fields share a GaugeVec. |
| Registry.GaugeMap.GetGauge | main.go:63-85 | An existing entry is returned with nothing changed. Otherwise exactly one entry named "awp_" + field is added, its name registered once, other entries untouched, no field lost. The registry invariant is kept. |
| Ingest.Accepted | main.go:117-127 | Only keys of the report are ever written. |
| Ingest.IsIgnored | main.go:119 | `slices.Contains(ignoredKeys, strings.ToUpper(k))` over the six names of main.go:39-46. A predicate without a contract; `IgnoredAnyCase`, `SpellingIgnored`, `LowerCasePasskeyIgnored` and `UvKept` state what it accepts. |
| Ingest.Ingested | main.go:117-127 | The order-free closed form of one report's effect. Its meaning is stated by `IngestedDomain`, `IngestedCell` and `AnyOrder`: it equals the loop over every key order. |
| Ingest.IngestOneCell | main.go:119-126 | One turn of the loop, cell by cell. The cell (k, station) takes k's reading when k has one; every other cell keeps its value. A gauge is added for k exactly when k has a reading. |
| Ingest.IngestKey | main.go:117-127 | The loop body on the registry: the new snapshot is `IngestOne` of the old one. The invariant is kept, old entries are untouched, new ones are fresh, and registrations only grow. |
| Ingest.IngestReport | main.go:117-127 | The whole loop, over any order of the keys: the snapshot becomes `Ingested` of the old one. The map gains exactly the accepted keys, no entry is lost or replaced, and registrations only grow. |
| Ingest.AnyOrder | main.go:117 | Running the loop body over any listing of the keys, each once, ends in `Ingested`: iteration order does not matter. |
| Ingest.IngestOneCommutes | main.go:117 | Two different keys can be processed in either order. |
| Ingest.PrefixIngest | main.go:117-127 | The loop over distinct keys processes exactly the set of those keys. |
| Ingest.IngestedDomain | main.go:125 | After a report the registry holds the old fields plus the accepted keys, and nothing else. |
| Ingest.IngestedCell | main.go:117-127 | After a report, each accepted key's cell for the station holds its reading; every other cell keeps its value. |
| Ingest.IgnoredNeverStored | main.go:119-121 | An ignored key gets no new entry and no write. |
| Ingest.LaterReportWins | main.go:125 | Of two reports from the same station, the later one's reading of a field is the one kept. |
| Ingest.OnlyFirstValue | main.go:124 | Only the first value of a key matters: replacing all its later values changes nothing. |
| Ingest.IgnoredAnyCase | main.go:119 | A key is ignored exactly when its upper-cased form is. |
| Ingest.SpellingIgnored | main.go:39-46 | Any spelling that upper-cases letter by letter to a name in `ignoredKeys` is ignored. |
| Ingest.LowerCasePasskeyIgnored | main.go:39-46 | "passkey" is ignored like "PASSKEY". |
| Ingest.UvKept | main.go:119 | "UV" and "uv" are not ignored. |
| Ingest.CaseKept | main.go:125 | Keys are stored under their own casing: "UV" and "uv" become two fields with their own readings. |
| Report.DecodeReport | main.go:91-106 | The station is never empty, and every decoded key has a first value. |
| Report.StandardQuery | main.go:96-99 | With a raw query, the fields and error are its parse and the station is the path's last element. |
| Report.AmpersandQuery | main.go:100-106 | Without a raw query, the station is the last element of the path before the first '&'; the fields are the parse of what follows. |
| Report.NoQuery | main.go:103-105 | No raw query and no '&' in the path: no fields, no error, and the station is the path's base. |
| Report.ExampleQuery | main.go:105 | "tempf=72.5&humidity=45" parses to tempf ["72.5"] and humidity ["45"]. |
| Report.AmpersandExample | main.go:100-106 | The path "/data/report/STATION&tempf=72.5&humidity=45" decodes to station "STATION" with those two fields. |
| Report.MalformedPairHarmless | main.go:109-112 | A malformed pair in the query removes only that pair: the station and the other fields are unchanged, and the error is kept. |
| Report.DecodedWellFormed | main.go:91-106 | A request of byte text decodes to byte keys and values, with no empty list. |
| Mirror.Scheme | main.go:136-139 | The scheme is "https" exactly when the HTTPS flag is set, and "http" otherwise. |
| Mirror.TargetPort | main.go:137-144 | The port changes only from 80 to 443, and only under HTTPS. |
| Mirror.HostPort | main.go:149 | `fmt.Sprintf("%s:%d", host, port)`. `TargetHost` states that the host and the port can be read back from it. |
| Mirror.MirrorTarget | main.go:132-134 | There is no target exactly when the mirror host is empty. |
| Mirror.TargetShape | main.go:155-165 | Every target is a GET with User-Agent "awp-exporter-mirror/1.0", and https exactly when the flag says so. |
| Mirror.TargetHost | main.go:149 | The target host is the configured host, ':' and the port; cutting at the first ':' gives back the host and a number equal to the port. |
| Mirror.TargetPath | main.go:150 | The target path is the configured path with one trailing slash removed; nothing is appended. |
| Mirror.StationNotInTarget | main.go:131-152 | The target is the same for every station. |
| Mirror.TargetQueryRoundTrip | main.go:151 | Parsing the target's query gives back exactly the values it was built from, with no error. |
| Mirror.HttpsKeepsDefaultPort | main.go:141 | With HTTPS on, the default port 8000 stays 8000; only 80 becomes 443. |
| Mirror.DefaultTarget | main.go:24-29 | With the default flags and a host, the target is plain HTTP to host:8000 at "/data/report". |
| Handler.HandleReport | main.go:87-128 | The status is always 204, the mirror target is built from the decoded values, and the registry ends as `Ingested` says for the decoded station and fields. |
| Handler.MirrorCarriesReport | main.go:115 | For a request of byte text, parsing the mirrored query gives back exactly the decoded fields. |
| Handler.IgnoredKeysMirrored | main.go:115-121 | A decoded key that is ignored for the registry still reaches the mirror with all its values. |

## Left out

- The Go HTTP server, route registration, flag parsing, logger setup and the
  `init` collector unregistration are left out. They are process plumbing.
  The flags become the `Mirror.MirrorConfig` parameter, and the request
  becomes `Report.Request`.
- The `sync.RWMutex` of the registry and the `go mirrorRequest(...)`
  goroutine are left out. `GetGauge` is one atomic step, and the handler
  returns the mirror request instead of sending it concurrently.
- Sending the mirror request is left out: `http.NewRequest` and its error
  branch, `mirrorClient.Do`, the 10-second timeout and the response-status
  logging. This is network I/O. Building `mirrorURL.String()` and re-parsing
  it is not modelled; the target is the `url.URL` fields themselves.
- Prometheus internals are left out. `prometheus.MustRegister` is modelled as
  appending the metric name to `registered`. Its panic on an invalid or
  duplicate name is not modelled; the model proves that no name is
  registered twice. The `/metrics` exposition is `GaugeMap.Snapshot`.
- Handler.HandleReport and Ingest.IngestReport: the panic of
  `WithLabelValues` (main.go:125) is not modelled. It panics when the station
  is not valid UTF-8, and net/http decodes `%FF` in the path into such a
  byte. The panic ends the loop after `getGauge` has registered the field, so
  the remaining keys are not written and the 204 may not be sent. The model
  writes every accepted key for every station.
- `slog` logging is left out. It has no effect on state.
- Numbers.ParseNumber: models `strconv.ParseFloat` on decimal text only, as an
  exact real value. It does not model:
  - float64 rounding;
  - range errors: Go rejects "1e400" with `ErrRange`, so main.go:124 skips
    that field, while the model reads it as 10^400 and writes the gauge;
  - hexadecimal floats, underscores, and "inf", "infinity" and "nan": Go
    accepts these and writes the gauge, while the model rejects them and
    skips the field.
- Text.ToUpper: ASCII upper-casing only. Go's `strings.ToUpper` also maps
  non-ASCII letters, and some of them to ASCII: U+017F 'ſ' becomes 'S' and
  U+0131 'ı' becomes 'I'. So Go ignores keys such as "paſſkey" and
  "statıontype" at main.go:119. `Ingest.IsIgnored` does not ignore them, and
  the model stores their numeric readings as gauges.
- UrlQuery.ParseQuery: the model has no limit on the number of query
  parameters. Newer Go releases of `net/url` cap their number: 10000 by
  default, set with the GODEBUG setting `urlmaxqueryparams`. Over the cap,
  `ParseQuery` (main.go:98, main.go:105) returns an error and no pairs, so
  the handler ingests nothing and mirrors an empty query. The model parses
  every pair, however many there are. The sources do not fix the Go version.
- UrlQuery.Unescape: one character stands for one byte. net/http's earlier
  decoding of `r.URL.Path`, and UTF-8, are not modelled.
- Handler.HandleReport: the 204 is returned as a value. The ordering of
  writing the header before the decoding is not modelled.
