/**
 * The decoding branch of reportHandler: from the request's path and raw
 * query to the reporting station and the multimap of reported fields.
 *
 * A device that sends its query the standard way ("...?k=v&...") has a
 * non-empty raw query; some devices write '&' where the '?' belongs, and
 * then the fields are whatever follows the first '&' of the path.
 */
module Report {
  import opened Wrappers
  import opened Text
  import opened UrlQuery

  /** The two parts of the request URL the handler reads (r.URL.Path, r.URL.RawQuery). */
  datatype Request = Request(path: string, rawQuery: string)

  /** What the handler decodes: the station label, the fields, and the parse error it logs. */
  datatype Report = Report(station: string, fields: Values, err: Option<QueryError>)

  /**
   * With a raw query, parse it and take the station from the path; without
   * one, cut the path at its first '&': the station comes from the part
   * before and the fields from the part after (none when there is no '&').
   * A parse error does not stop the request: the fields parsed are kept.
   */
  function DecodeReport(r: Request): (rep: Report)
    ensures rep.station != ""
    ensures NonEmptyLists(rep.fields)
  {
    if r.rawQuery != "" then
      var q := ParseQuery(r.rawQuery);
      Report(Base(r.path), q.values, q.err)
    else
      var c := Cut(r.path, '&');
      var q := ParseQuery(c.after);
      Report(Base(c.before), q.values, q.err)
  }

  /** A standard query: the fields are its parse, the station the last path element. */
  lemma StandardQuery(dir: string, station: string, q: string)
    requires q != "" && station != "" && '/' !in station
    ensures DecodeReport(Request(dir + "/" + station, q)) == Report(station, ParseQuery(q).values, ParseQuery(q).err)
  {
    BaseOfLastElement(dir, station);
  }

  /**
   * A device that writes '&' instead of '?': the station is the last element
   * of the path before the first '&', and the fields are the parse of what
   * follows it.
   */
  lemma AmpersandQuery(dir: string, station: string, q: string)
    requires station != "" && '/' !in station && '&' !in dir && '&' !in station
    ensures DecodeReport(Request(dir + "/" + station + "&" + q, "")) == Report(station, ParseQuery(q).values, ParseQuery(q).err)
  {
    var p := dir + "/" + station;
    assert '&' !in p by {
      assert forall i :: 0 <= i < |p| ==> p[i] == (if i < |dir| then dir[i] else if i == |dir| then '/' else station[i - |dir| - 1]);
    }
    CutAtFirst(p, '&', q);
    BaseOfLastElement(dir, station);
  }

  /** The empty query has no fields and no error. */
  lemma ParseEmptyQuery()
    ensures ParseQuery("") == QueryResult(map[], None)
  {
  }

  /** No query and no '&' in the path: no fields, and the station is the path's base. */
  lemma NoQuery(path: string)
    requires '&' !in path
    ensures DecodeReport(Request(path, "")) == Report(Base(path), map[], None)
  {
    CutFound(path, '&');
    ParseEmptyQuery();
  }

  /** The query of the report below: two plain pairs. */
  lemma ExampleQuery(q: string)
    requires q == "tempf=72.5&humidity=45"
    ensures ParseQuery(q) == QueryResult(map["tempf" := ["72.5"], "humidity" := ["45"]], None)
  {
    assert q == ("tempf" + "=" + "72.5") + "&" + ("humidity" + "=" + "45");
    ParseTwoPairs("tempf", "72.5", "humidity", "45");
  }

  /**
   * A report as such devices send it: the path
   * "/data/report/STATION&tempf=72.5&humidity=45" comes from station
   * "STATION" with tempf 72.5 and humidity 45.
   */
  lemma AmpersandExample(dir: string, station: string, q: string)
    requires dir == "/data/report" && station == "STATION" && q == "tempf=72.5&humidity=45"
    ensures DecodeReport(Request(dir + "/" + station + "&" + q, "")) ==
      Report("STATION", map["tempf" := ["72.5"], "humidity" := ["45"]], None)
  {
    AmpersandQuery(dir, station, q);
    ExampleQuery(q);
  }

  /**
   * A malformed pair in the query costs only that pair: the station and the
   * other fields are decoded as if it were absent, and the error is kept
   * for the log.
   */
  lemma MalformedPairHarmless(path: string, a: string, bad: string, b: string)
    requires '&' !in bad && Malformed(bad)
    ensures DecodeReport(Request(path, a + "&" + bad + "&" + b)).fields == DecodeReport(Request(path, a + "&" + b)).fields
    ensures DecodeReport(Request(path, a + "&" + bad + "&" + b)).station == DecodeReport(Request(path, a + "&" + b)).station
    ensures DecodeReport(Request(path, a + "&" + bad + "&" + b)).err.Some?
  {
    MalformedPairDropped(a, bad, b);
  }

  /** The part of s after a separator is byte text when s is. */
  lemma AfterCutBytes(s: string, sep: char)
    requires ByteString(s)
    ensures ByteString(Cut(s, sep).after)
  {
    var c := Cut(s, sep);
    if c.found {
      assert forall i :: 0 <= i < |c.after| ==> c.after[i] == s[|c.before| + 1 + i];
    }
  }

  /** A request of byte text decodes to well-formed fields: byte keys and values, no empty list. */
  lemma DecodedWellFormed(r: Request)
    requires ByteString(r.path) && ByteString(r.rawQuery)
    ensures WellFormedValues(DecodeReport(r).fields)
  {
    if r.rawQuery != "" {
      ParseQueryWellFormed(r.rawQuery);
    } else {
      AfterCutBytes(r.path, '&');
      ParseQueryWellFormed(Cut(r.path, '&').after);
    }
  }
}
