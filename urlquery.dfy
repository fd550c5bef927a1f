/**
 * The application/x-www-form-urlencoded query handling of Go's net/url that
 * the exporter calls: url.ParseQuery (tolerant: a bad pair is dropped, the
 * error is recorded and parsing goes on), QueryUnescape, QueryEscape and
 * Values.Encode.
 *
 * Characters stand for bytes; a percent escape decodes to one byte.
 */
module UrlQuery {
  import opened Wrappers
  import opened Text
  import opened StringOrder

  /** url.Values: each key with its values in order of appearance. */
  type Values = map<string, seq<string>>

  /** The two kinds of error ParseQuery reports. */
  datatype QueryError =
    | SemicolonSeparator          // a segment contained ';'
    | InvalidEscape(text: string) // a '%' not followed by two hex digits (up to three bytes from the '%')

  /** The values ParseQuery returns together with its error, if any. */
  datatype QueryResult = QueryResult(values: Values, err: Option<QueryError>)

  predicate IsByte(c: char) { c as int < 256 }

  predicate ByteString(s: string) { forall i :: 0 <= i < |s| ==> IsByte(s[i]) }

  /** Every key and value is byte text and every key has at least one value. */
  /** Every key carries at least one value. */
  predicate NonEmptyLists(vals: Values) {
    forall k :: k in vals ==> vals[k] != []
  }

  predicate WellFormedValues(v: Values) {
    forall k :: k in v ==>
      ByteString(k) && |v[k]| > 0 && forall j :: 0 <= j < |v[k]| ==> ByteString(v[k][j])
  }

  // ---------------------------------------------------------------- escapes

  predicate IsHex(c: char) { '0' <= c <= '9' || 'a' <= c <= 'f' || 'A' <= c <= 'F' }

  function HexValue(c: char): (n: nat)
    requires IsHex(c)
    ensures n < 16
  {
    if '0' <= c <= '9' then c as int - '0' as int
    else if 'a' <= c <= 'f' then c as int - 'a' as int + 10
    else c as int - 'A' as int + 10
  }

  /** The upper-case hex digit for 0..15, as QueryEscape writes it. */
  function HexDigit(n: nat): (c: char)
    requires n < 16
    ensures IsHex(c) && HexValue(c) == n
    ensures '0' <= c <= '9' || 'A' <= c <= 'F'
  {
    if n < 10 then ('0' as int + n) as char else ('A' as int + n - 10) as char
  }

  /**
   * QueryUnescape: "+" becomes a space and "%XY" the byte 0xXY; any other
   * byte stands for itself. A '%' without two hex digits after it is an
   * error carrying the text from that '%' (at most three bytes).
   */
  function Unescape(s: string): (r: Result<string, string>)
    ensures ByteString(s) && r.Ok? ==> ByteString(r.value)
  {
    if s == [] then Ok([])
    else if s[0] == '%' then
      if |s| >= 3 && IsHex(s[1]) && IsHex(s[2]) then
        match Unescape(s[3..])
        case Ok(t) => Ok([(16 * HexValue(s[1]) + HexValue(s[2])) as char] + t)
        case Err(e) => Err(e)
      else Err(s[..if |s| < 3 then |s| else 3])
    else
      match Unescape(s[1..])
      case Ok(t) => Ok([if s[0] == '+' then ' ' else s[0]] + t)
      case Err(e) => Err(e)
  }

  /** Bytes QueryEscape leaves alone: letters, digits and - _ . ~ */
  predicate IsUnreserved(c: char) {
    'a' <= c <= 'z' || 'A' <= c <= 'Z' || '0' <= c <= '9' || c == '-' || c == '_' || c == '.' || c == '~'
  }

  /** QueryEscape of one byte. */
  function EscapeChar(c: char): string {
    if IsUnreserved(c) then [c]
    else if c == ' ' then "+"
    else ['%', HexDigit((c as int / 16) % 16), HexDigit(c as int % 16)]
  }

  /**
   * QueryEscape: every byte except the unreserved ones is written as %XY, a
   * space as '+'.
   */
  function Escape(s: string): string {
    if s == [] then [] else EscapeChar(s[0]) + Escape(s[1..])
  }

  /** Escaped text holds no '&', ';' or '=' and so can sit inside a query segment. */
  lemma {:induction false} EscapeSafe(s: string)
    ensures '&' !in Escape(s) && ';' !in Escape(s) && '=' !in Escape(s)
  {
    if s != [] {
      EscapeSafe(s[1..]);
      var c := s[0];
      assert '&' !in EscapeChar(c) && ';' !in EscapeChar(c) && '=' !in EscapeChar(c);
    }
  }

  /** Text made of unreserved bytes is its own escape. */
  lemma {:induction false} EscapeUnreserved(s: string)
    requires forall i :: 0 <= i < |s| ==> IsUnreserved(s[i])
    ensures Escape(s) == s
  {
    if s != [] {
      EscapeUnreserved(s[1..]);
      assert [s[0]] + s[1..] == s;
    }
  }

  /** Unescaping an escaped byte followed by more text decodes the byte first. */
  lemma UnescapeEscapeChar(c: char, rest: string)
    requires IsByte(c)
    ensures Unescape(EscapeChar(c) + rest) ==
      match Unescape(rest) case Ok(t) => Ok([c] + t) case Err(e) => Err(e)
  {
    var s := EscapeChar(c) + rest;
    if IsUnreserved(c) {
      assert s[1..] == rest;
    } else if c == ' ' {
      assert s[1..] == rest;
    } else {
      assert s[3..] == rest;
      var hi, lo := (c as int / 16) % 16, c as int % 16;
      assert HexValue(s[1]) == hi && HexValue(s[2]) == lo;
      assert 16 * hi + lo == c as int;
    }
  }

  /** QueryUnescape undoes QueryEscape on every byte string. */
  lemma {:induction false} UnescapeEscape(s: string)
    requires ByteString(s)
    ensures Unescape(Escape(s)) == Ok(s)
  {
    if s != [] {
      UnescapeEscape(s[1..]);
      UnescapeEscapeChar(s[0], Escape(s[1..]));
      assert s == [s[0]] + s[1..];
    }
  }

  // -------------------------------------------------------------- ParseQuery

  /**
   * The segments ParseQuery visits: the query is cut at each '&' in turn, and
   * the walk stops when nothing is left, so a trailing '&' adds no segment.
   */
  function Segments(q: string): seq<string>
    decreases |q|
  {
    if q == "" then []
    else
      var c := Cut(q, '&');
      [c.before] + Segments(c.after)
  }

  /** Segments(q) is the first segment followed by the segments of the rest. */
  lemma SegmentsAt(q: string)
    requires q != ""
    ensures forall i :: 0 < i < |Segments(q)| ==> Segments(q)[i] == Segments(Cut(q, '&').after)[i - 1]
  {
  }

  /** No segment holds '&'. */
  lemma {:induction false} SegmentsHaveNoSeparator(q: string)
    ensures forall i :: 0 <= i < |Segments(q)| ==> '&' !in Segments(q)[i]
    decreases |q|
  {
    if q != "" {
      CutFound(q, '&');
      SegmentsHaveNoSeparator(Cut(q, '&').after);
      SegmentsAt(q);
    }
  }

  /** The segments of byte text are byte text. */
  lemma {:induction false} SegmentsOfBytes(q: string)
    requires ByteString(q)
    ensures forall i :: 0 <= i < |Segments(q)| ==> ByteString(Segments(q)[i])
    decreases |q|
  {
    if q != "" {
      var c := Cut(q, '&');
      if c.found {
        assert forall i :: 0 <= i < |c.before| ==> c.before[i] == q[i];
        assert forall i :: 0 <= i < |c.after| ==> c.after[i] == q[|c.before| + 1 + i];
      }
      SegmentsOfBytes(c.after);
      SegmentsAt(q);
    }
  }

  /** What one segment contributes. */
  datatype Segment =
    | Blank                           // an empty segment: skipped silently
    | Semicolon                       // contains ';': skipped with an error
    | BadEscape(text: string)         // key or value fails to unescape: skipped with an error
    | Pair(key: string, value: string)

  /**
   * One segment: a ';' anywhere rejects it; an empty one is skipped;
   * otherwise it is cut at its first '=' (no '=' means an empty value) and
   * both halves are unescaped, the key first.
   */
  function Classify(seg: string): Segment {
    if ';' in seg then Semicolon
    else if seg == "" then Blank
    else
      var c := Cut(seg, '=');
      match Unescape(c.before)
      case Err(e) => BadEscape(e)
      case Ok(k) =>
        match Unescape(c.after)
        case Err(e) => BadEscape(e)
        case Ok(x) => Pair(k, x)
  }

  /** A segment that ParseQuery drops and reports. */
  predicate Bad(c: Segment) {
    c.Semicolon? || c.BadEscape?
  }

  predicate Malformed(seg: string) {
    Bad(Classify(seg))
  }

  function Lookup(v: Values, k: string): seq<string> {
    if k in v then v[k] else []
  }

  /** m[key] = append(m[key], value) */
  function Append(v: Values, k: string, x: string): (r: Values)
    ensures r.Keys == v.Keys + {k}
    ensures r[k] == Lookup(v, k) + [x]
    ensures forall j :: j in v && j != k ==> r[j] == v[j]
  {
    v[k := Lookup(v, k) + [x]]
  }

  /**
   * One turn of ParseQuery's loop, on the classified segment. A semicolon
   * error replaces any earlier error; an escape error is kept only when no
   * error is recorded yet.
   */
  function Step(acc: QueryResult, c: Segment): QueryResult {
    match c
    case Blank => acc
    case Semicolon => QueryResult(acc.values, Some(SemicolonSeparator))
    case BadEscape(e) => QueryResult(acc.values, if acc.err.None? then Some(InvalidEscape(e)) else acc.err)
    case Pair(k, x) => QueryResult(Append(acc.values, k, x), acc.err)
  }

  /**
   * ParseQuery's loop over classified segments, left to right. Every key it
   * returns has at least one value.
   */
  function Collect(cs: seq<Segment>): (r: QueryResult)
    ensures NonEmptyLists(r.values)
    decreases |cs|
  {
    if cs == [] then QueryResult(map[], None)
    else Step(Collect(cs[..|cs| - 1]), cs[|cs| - 1])
  }

  /** Every segment classified, in order. */
  function Classified(segs: seq<string>): (r: seq<Segment>)
    ensures |r| == |segs|
  {
    if segs == [] then [] else Classified(segs[..|segs| - 1]) + [Classify(segs[|segs| - 1])]
  }

  lemma {:induction false} ClassifiedAt(segs: seq<string>)
    ensures forall j :: 0 <= j < |segs| ==> Classified(segs)[j] == Classify(segs[j])
  {
    if segs != [] {
      ClassifiedAt(segs[..|segs| - 1]);
    }
  }

  lemma {:induction false} ClassifiedConcat(s1: seq<string>, s2: seq<string>)
    ensures Classified(s1 + s2) == Classified(s1) + Classified(s2)
    decreases |s2|
  {
    if s2 == [] {
      assert s1 + s2 == s1;
    } else {
      var n := |s2| - 1;
      var s := s1 + s2;
      var last := Classify(s2[n]);
      assert s[..|s| - 1] == s1 + s2[..n] && s[|s| - 1] == s2[n];
      assert Classified(s) == Classified(s1 + s2[..n]) + [last];
      ClassifiedConcat(s1, s2[..n]);
      assert Classified(s2) == Classified(s2[..n]) + [last];
      assert Classified(s1) + Classified(s2[..n]) + [last] == Classified(s1) + (Classified(s2[..n]) + [last]);
    }
  }

  /** ParseQuery's loop over a list of segments. */
  function ParseSegments(segs: seq<string>): QueryResult {
    Collect(Classified(segs))
  }

  /** url.ParseQuery */
  function ParseQuery(q: string): QueryResult {
    ParseSegments(Segments(q))
  }

  /** The key and value of a byte segment are byte strings. */
  lemma PairOfBytes(seg: string)
    requires ByteString(seg) && Classify(seg).Pair?
    ensures ByteString(Classify(seg).key) && ByteString(Classify(seg).value)
  {
    var c := Cut(seg, '=');
    if c.found {
      assert forall i :: 0 <= i < |c.before| ==> c.before[i] == seg[i];
      assert forall i :: 0 <= i < |c.after| ==> c.after[i] == seg[|c.before| + 1 + i];
    }
  }

  /** Every pair among cs has a byte key and a byte value. */
  predicate BytePairs(cs: seq<Segment>) {
    forall i :: 0 <= i < |cs| && cs[i].Pair? ==> ByteString(cs[i].key) && ByteString(cs[i].value)
  }

  /** Byte pairs give well-formed values. */
  lemma {:induction false} CollectWellFormed(cs: seq<Segment>)
    requires BytePairs(cs)
    ensures WellFormedValues(Collect(cs).values)
    decreases |cs|
  {
    if cs != [] {
      var n := |cs| - 1;
      assert BytePairs(cs[..n]) by {
        assert forall i :: 0 <= i < n ==> cs[..n][i] == cs[i];
      }
      CollectWellFormed(cs[..n]);
    }
  }

  /** ParseQuery returns no value list that is empty (the handler reads vv[0]). */
  lemma ParseQueryNonEmptyLists(q: string)
    ensures NonEmptyLists(ParseQuery(q).values)
  {
  }

  /** Byte text in, well-formed values out. */
  lemma ParseQueryWellFormed(q: string)
    requires ByteString(q)
    ensures WellFormedValues(ParseQuery(q).values)
  {
    var segs := Segments(q);
    var cs := Classified(segs);
    SegmentsOfBytes(q);
    ClassifiedAt(segs);
    forall i | 0 <= i < |cs| && cs[i].Pair? ensures ByteString(cs[i].key) && ByteString(cs[i].value) {
      PairOfBytes(segs[i]);
    }
    CollectWellFormed(cs);
  }

  // ------------------------------------------------------ tolerant parsing

  /** The values of two parses laid end to end: per key, the first list then the second. */
  function Merge(a: Values, b: Values): (r: Values)
    ensures r.Keys == a.Keys + b.Keys
    ensures forall k :: k in r ==> r[k] == Lookup(a, k) + Lookup(b, k)
  {
    map k | k in a.Keys + b.Keys :: Lookup(a, k) + Lookup(b, k)
  }

  lemma MergeEmpty(a: Values)
    ensures Merge(a, map[]) == a
  {
    assert forall k :: k in a ==> Lookup(a, k) + [] == a[k];
  }

  lemma AppendMerge(a: Values, b: Values, k: string, x: string)
    ensures Append(Merge(a, b), k, x) == Merge(a, Append(b, k, x))
  {
    var l, r := Append(Merge(a, b), k, x), Merge(a, Append(b, k, x));
    assert l.Keys == r.Keys;
    forall j | j in l ensures l[j] == r[j] {
      AppendMergeAt(a, b, k, x, j);
    }
  }

  /** AppendMerge at one key. */
  lemma AppendMergeAt(a: Values, b: Values, k: string, x: string, j: string)
    requires j in a || j in b || j == k
    ensures Append(Merge(a, b), k, x)[j] == Merge(a, Append(b, k, x))[j]
  {
    if j == k {
      var p, q := Lookup(a, k), Lookup(b, k);
      assert p + q + [x] == p + (q + [x]);
    }
  }

  /** Collecting two runs of segments merges what each run alone yields. */
  lemma {:induction false} CollectConcat(c1: seq<Segment>, c2: seq<Segment>)
    ensures Collect(c1 + c2).values == Merge(Collect(c1).values, Collect(c2).values)
    decreases |c2|
  {
    if c2 == [] {
      assert c1 + c2 == c1;
      MergeEmpty(Collect(c1).values);
    } else {
      var n := |c2| - 1;
      var whole := c1 + c2;
      assert whole[..|whole| - 1] == c1 + c2[..n] && whole[|whole| - 1] == c2[n];
      CollectConcat(c1, c2[..n]);
      match c2[n]
      case Pair(k, x) => AppendMerge(Collect(c1).values, Collect(c2[..n]).values, k, x);
      case _ =>
    }
  }

  /** The loop records an error exactly when some segment is bad. */
  lemma {:induction false} CollectErrorIff(cs: seq<Segment>)
    ensures Collect(cs).err.None? <==> forall i :: 0 <= i < |cs| ==> !Bad(cs[i])
    decreases |cs|
  {
    if cs != [] {
      var n := |cs| - 1;
      CollectErrorIff(cs[..n]);
      assert forall i :: 0 <= i < n ==> cs[..n][i] == cs[i];
    }
  }

  /** Parsing two runs of segments merges what each run alone yields. */
  lemma ValuesOfConcat(s1: seq<string>, s2: seq<string>)
    ensures ParseSegments(s1 + s2).values == Merge(ParseSegments(s1).values, ParseSegments(s2).values)
  {
    ClassifiedConcat(s1, s2);
    CollectConcat(Classified(s1), Classified(s2));
  }

  /** ParseQuery reports an error exactly when some segment is malformed. */
  lemma ErrorIffMalformed(segs: seq<string>)
    ensures ParseSegments(segs).err.None? <==> forall i :: 0 <= i < |segs| ==> !Malformed(segs[i])
  {
    ClassifiedAt(segs);
    CollectErrorIff(Classified(segs));
  }

  /**
   * A malformed segment removes only itself: wherever it sits, the values
   * are those of the other segments, and the error is reported.
   */
  lemma MalformedSegmentDropped(s1: seq<string>, bad: string, s2: seq<string>)
    requires Malformed(bad)
    ensures ParseSegments(s1 + [bad] + s2).values == ParseSegments(s1 + s2).values
    ensures ParseSegments(s1 + [bad] + s2).err.Some?
  {
    ValuesOfConcat(s1 + [bad], s2);
    ValuesOfConcat(s1, [bad]);
    assert Classified([bad]) == [Classify(bad)] by {
      assert [bad][..0] == [];
    }
    assert [Classify(bad)][..0] == [];
    MergeEmpty(ParseSegments(s1).values);
    ValuesOfConcat(s1, s2);
    ErrorIffMalformed(s1 + [bad] + s2);
    assert (s1 + [bad] + s2)[|s1|] == bad;
  }

  /** The pieces strings.Split(a, "&") would give: always at least one. */
  function SplitAll(a: string): (r: seq<string>)
    decreases |a|
  {
    var c := Cut(a, '&');
    if c.found then [c.before] + SplitAll(c.after) else [a]
  }

  lemma {:induction false} SegmentsAfterSeparator(a: string, b: string)
    ensures Segments(a + "&" + b) == SplitAll(a) + Segments(b)
    decreases |a|
  {
    var c := Cut(a, '&');
    CutFound(a, '&');
    if c.found {
      assert a + "&" + b == c.before + "&" + (c.after + "&" + b);
      CutAtFirst(c.before, '&', c.after + "&" + b);
      SegmentsAfterSeparator(c.after, b);
    } else {
      CutAtFirst(a, '&', b);
    }
  }

  /** The segments of a query with one '&'-free segment between two others. */
  lemma SegmentsAround(a: string, bad: string, b: string)
    requires '&' !in bad
    ensures Segments(a + "&" + bad + "&" + b) == SplitAll(a) + [bad] + Segments(b)
  {
    assert a + "&" + bad + "&" + b == a + "&" + (bad + "&" + b);
    SegmentsAfterSeparator(a, bad + "&" + b);
    SegmentsAfterSeparator(bad, b);
    SplitAllSingle(bad);
    assert SplitAll(a) + ([bad] + Segments(b)) == SplitAll(a) + [bad] + Segments(b);
  }

  lemma SplitAllSingle(s: string)
    requires '&' !in s
    ensures SplitAll(s) == [s]
  {
    CutFound(s, '&');
  }

  /**
   * A malformed pair in a query only removes that pair: the sibling pairs
   * before and after it are still returned, and the error is reported.
   */
  lemma MalformedPairDropped(a: string, bad: string, b: string)
    requires '&' !in bad && Malformed(bad)
    ensures ParseQuery(a + "&" + bad + "&" + b).values == ParseQuery(a + "&" + b).values
    ensures ParseQuery(a + "&" + bad + "&" + b).err.Some?
  {
    SegmentsAround(a, bad, b);
    SegmentsAfterSeparator(a, b);
    MalformedSegmentDropped(SplitAll(a), bad, Segments(b));
  }

  // ------------------------------------------------------------------ Encode

  /** One encoded pair: QueryEscape(key) + "=" + QueryEscape(value). */
  function PairText(k: string, x: string): string {
    Escape(k) + "=" + Escape(x)
  }

  /** The pairs for one key, one per value, in the key's value order. */
  function KeySegments(k: string, xs: seq<string>): (r: seq<string>)
    ensures |r| == |xs|
  {
    if xs == [] then [] else KeySegments(k, xs[..|xs| - 1]) + [PairText(k, xs[|xs| - 1])]
  }

  lemma {:induction false} KeySegmentsAt(k: string, xs: seq<string>)
    ensures forall j :: 0 <= j < |xs| ==> KeySegments(k, xs)[j] == PairText(k, xs[j])
  {
    if xs != [] {
      KeySegmentsAt(k, xs[..|xs| - 1]);
    }
  }

  /** The pairs for the given keys, key after key. */
  function EncodeSegments(keys: seq<string>, v: Values): seq<string>
    requires forall i :: 0 <= i < |keys| ==> keys[i] in v
  {
    if keys == [] then [] else KeySegments(keys[0], v[keys[0]]) + EncodeSegments(keys[1..], v)
  }

  /** strings.Join(segs, "&") */
  function Join(segs: seq<string>): string {
    if segs == [] then "" else if |segs| == 1 then segs[0] else segs[0] + "&" + Join(segs[1..])
  }

  /** Values.Encode: every pair, keys in sorted order, joined by '&'. */
  function Encode(v: Values): string {
    Join(EncodeSegments(SortedKeys(v.Keys), v))
  }

  /** Splitting joined segments gives them back when none is empty or holds '&'. */
  lemma {:induction false} SegmentsOfJoin(segs: seq<string>)
    requires forall i :: 0 <= i < |segs| ==> segs[i] != "" && '&' !in segs[i]
    ensures Segments(Join(segs)) == segs
  {
    if |segs| == 1 {
      CutFound(segs[0], '&');
    } else if |segs| > 1 {
      CutAtFirst(segs[0], '&', Join(segs[1..]));
      SegmentsOfJoin(segs[1..]);
      assert Join(segs[1..]) != "" by { assert segs[1] != ""; JoinStartsWith(segs[1..]); }
    }
  }

  lemma JoinStartsWith(segs: seq<string>)
    requires |segs| > 0
    ensures |Join(segs)| >= |segs[0]| && Join(segs)[..|segs[0]|] == segs[0]
  {
  }

  /** An encoded pair of byte strings parses as that very pair. */
  lemma ClassifyPairText(k: string, x: string)
    requires ByteString(k) && ByteString(x)
    ensures Classify(PairText(k, x)) == Pair(k, x)
  {
    var s := PairText(k, x);
    assert s == Escape(k) + ['='] + Escape(x);
    assert s[|Escape(k)|] == '=';
    EscapeSafe(k);
    EscapeSafe(x);
    CutAtFirst(Escape(k), '=', Escape(x));
    UnescapeEscape(k);
    UnescapeEscape(x);
  }

  /** The classified pairs of one key: Pair(k, x) for each of its values x. */
  function KeyPairs(k: string, xs: seq<string>): (r: seq<Segment>)
    ensures |r| == |xs|
  {
    if xs == [] then [] else KeyPairs(k, xs[..|xs| - 1]) + [Pair(k, xs[|xs| - 1])]
  }

  lemma {:induction false} ClassifiedKeySegments(k: string, xs: seq<string>)
    requires ByteString(k) && forall j :: 0 <= j < |xs| ==> ByteString(xs[j])
    ensures Classified(KeySegments(k, xs)) == KeyPairs(k, xs)
  {
    if xs != [] {
      var n := |xs| - 1;
      ClassifiedKeySegments(k, xs[..n]);
      ClassifyPairText(k, xs[n]);
      assert KeySegments(k, xs)[..n] == KeySegments(k, xs[..n]);
    }
  }

  lemma {:induction false} CollectKeyPairs(k: string, xs: seq<string>)
    ensures Collect(KeyPairs(k, xs)) == QueryResult(if xs == [] then map[] else map[k := xs], None)
  {
    if xs != [] {
      var n := |xs| - 1;
      CollectKeyPairsStep(k, xs);
      CollectKeyPairs(k, xs[..n]);
      SingletonAppend(k, xs[..n], xs[n]);
      LastSplit(xs);
    }
  }

  /** The last pair of a key is the last step of the loop over its pairs. */
  lemma CollectKeyPairsStep(k: string, xs: seq<string>)
    requires xs != []
    ensures Collect(KeyPairs(k, xs)) == Step(Collect(KeyPairs(k, xs[..|xs| - 1])), Pair(k, xs[|xs| - 1]))
  {
    var n := |xs| - 1;
    var ps := KeyPairs(k, xs);
    assert ps[..n] == KeyPairs(k, xs[..n]) && ps[n] == Pair(k, xs[n]);
  }

  /** Appending to the one-key map of k, or to the empty map, gives the one-key map of k. */
  lemma SingletonAppend(k: string, xs: seq<string>, x: string)
    ensures Append(if xs == [] then map[] else map[k := xs], k, x) == map[k := xs + [x]]
  {
    var v: Values := if xs == [] then map[] else map[k := xs];
    assert Lookup(v, k) == xs;
    assert Append(v, k, x).Keys == {k};
  }

  /** The pairs of one key parse back to that key with its values, without error. */
  lemma ParseKeySegments(k: string, xs: seq<string>)
    requires ByteString(k) && forall j :: 0 <= j < |xs| ==> ByteString(xs[j])
    ensures ParseSegments(KeySegments(k, xs)) == QueryResult(if xs == [] then map[] else map[k := xs], None)
  {
    ClassifiedKeySegments(k, xs);
    CollectKeyPairs(k, xs);
  }

  /** A segment that survives Join and Segments unchanged. */
  predicate Clean(seg: string) {
    seg != "" && '&' !in seg
  }

  lemma PairTextClean(k: string, x: string)
    ensures Clean(PairText(k, x))
  {
    EscapeSafe(k);
    EscapeSafe(x);
    assert PairText(k, x)[|Escape(k)|] == '=';
  }

  /** Every encoded segment is non-empty and '&'-free. */
  lemma {:induction false} EncodedSegmentsClean(keys: seq<string>, v: Values)
    requires forall i :: 0 <= i < |keys| ==> keys[i] in v
    ensures forall i :: 0 <= i < |EncodeSegments(keys, v)| ==> Clean(EncodeSegments(keys, v)[i])
  {
    if keys != [] {
      EncodedSegmentsClean(keys[1..], v);
      var k := keys[0];
      var ks := KeySegments(k, v[k]);
      KeySegmentsAt(k, v[k]);
      forall j | 0 <= j < |ks| ensures Clean(ks[j]) {
        PairTextClean(k, v[k][j]);
      }
      var rest := EncodeSegments(keys[1..], v);
      assert EncodeSegments(keys, v) == ks + rest;
      forall i | 0 <= i < |ks + rest| ensures Clean((ks + rest)[i]) {
        if i >= |ks| { assert (ks + rest)[i] == rest[i - |ks|]; }
      }
    }
  }

  /** The values of the given keys. */
  function Restrict(keys: seq<string>, v: Values): (r: Values)
    requires forall i :: 0 <= i < |keys| ==> keys[i] in v
    ensures forall k :: k in r <==> k in keys
    ensures forall k :: k in r ==> r[k] == v[k]
  {
    map k | k in keys :: v[k]
  }

  lemma MergeSingleton(k: string, xs: seq<string>, b: Values)
    requires k !in b
    ensures Merge(map[k := xs], b) == b[k := xs]
  {
    var m := Merge(map[k := xs], b);
    assert m.Keys == b.Keys + {k};
    forall j | j in m ensures m[j] == b[k := xs][j] {
      if j == k { assert Lookup(b, j) == []; } else { assert Lookup(map[k := xs], j) == []; }
    }
  }

  /** A strictly sorted key list has no key twice. */
  lemma SortedDistinct(keys: seq<string>)
    requires StrictlySorted(keys)
    ensures Distinct(keys)
  {
    PairwiseDistinct(keys);
  }

  lemma RestrictCons(keys: seq<string>, v: Values)
    requires keys != [] && forall i :: 0 <= i < |keys| ==> keys[i] in v
    ensures Restrict(keys, v) == Restrict(keys[1..], v)[keys[0] := v[keys[0]]]
  {
    assert forall k :: k in keys <==> k == keys[0] || k in keys[1..];
  }

  /** The classified segments of the given keys: each key's pairs, key after key. */
  function EncodedPairs(keys: seq<string>, v: Values): seq<Segment>
    requires forall i :: 0 <= i < |keys| ==> keys[i] in v
  {
    if keys == [] then [] else KeyPairs(keys[0], v[keys[0]]) + EncodedPairs(keys[1..], v)
  }

  lemma {:induction false} ClassifiedEncode(keys: seq<string>, v: Values)
    requires forall i :: 0 <= i < |keys| ==> keys[i] in v
    requires WellFormedValues(v)
    ensures Classified(EncodeSegments(keys, v)) == EncodedPairs(keys, v)
  {
    if keys != [] {
      var k := keys[0];
      assert ByteString(k) && forall j :: 0 <= j < |v[k]| ==> ByteString(v[k][j]);
      ClassifiedConcat(KeySegments(k, v[k]), EncodeSegments(keys[1..], v));
      ClassifiedKeySegments(k, v[k]);
      ClassifiedEncode(keys[1..], v);
    }
  }

  /** The loop over two runs records an error exactly when one of them does. */
  lemma CollectErrorConcat(c1: seq<Segment>, c2: seq<Segment>)
    ensures Collect(c1 + c2).err.None? <==> Collect(c1).err.None? && Collect(c2).err.None?
  {
    CollectErrorIff(c1);
    CollectErrorIff(c2);
    CollectErrorIff(c1 + c2);
    var c := c1 + c2;
    if Collect(c1).err.None? && Collect(c2).err.None? {
      forall i | 0 <= i < |c| ensures !Bad(c[i]) {
        if i < |c1| { assert c[i] == c1[i]; } else { assert c[i] == c2[i - |c1|]; }
      }
    } else if Collect(c1).err.Some? {
      var i :| 0 <= i < |c1| && Bad(c1[i]);
      assert c[i] == c1[i];
    } else {
      var i :| 0 <= i < |c2| && Bad(c2[i]);
      assert c[|c1| + i] == c2[i];
    }
  }

  /** The pairs of distinct keys collect to exactly those keys' values, without error. */
  lemma {:induction false} CollectEncodedPairs(keys: seq<string>, v: Values)
    requires forall i :: 0 <= i < |keys| ==> keys[i] in v
    requires Distinct(keys)
    requires WellFormedValues(v)
    ensures Collect(EncodedPairs(keys, v)) == QueryResult(Restrict(keys, v), None)
  {
    if keys != [] {
      var k, tail := keys[0], keys[1..];
      DistinctTail(keys);
      var c1, c2 := KeyPairs(k, v[k]), EncodedPairs(tail, v);
      CollectKeyPairs(k, v[k]);
      CollectEncodedPairs(tail, v);
      CollectConcat(c1, c2);
      CollectErrorConcat(c1, c2);
      MergeSingleton(k, v[k], Restrict(tail, v));
      RestrictCons(keys, v);
    }
  }

  /** Joining and re-parsing the pairs of distinct keys gives those keys' values, without error. */
  lemma ParseJoinedPairs(keys: seq<string>, v: Values)
    requires forall i :: 0 <= i < |keys| ==> keys[i] in v
    requires Distinct(keys)
    requires WellFormedValues(v)
    ensures ParseSegments(Segments(Join(EncodeSegments(keys, v)))) == QueryResult(Restrict(keys, v), None)
  {
    EncodedSegmentsClean(keys, v);
    SegmentsOfJoin(EncodeSegments(keys, v));
    ClassifiedEncode(keys, v);
    CollectEncodedPairs(keys, v);
  }

  /**
   * Decoding what Values.Encode produces gives back the same values, every
   * key with all its values in order, and no error.
   */
  lemma EncodeRoundTrip(v: Values)
    requires WellFormedValues(v)
    ensures ParseQuery(Encode(v)) == QueryResult(v, None)
  {
    var keys := SortedKeys(v.Keys);
    SortedDistinct(keys);
    ParseJoinedPairs(keys, v);
    RestrictAll(keys, v);
  }

  lemma RestrictAll(keys: seq<string>, v: Values)
    requires forall i :: 0 <= i < |keys| ==> keys[i] in v
    requires forall k :: k in v ==> k in keys
    ensures Restrict(keys, v) == v
  {
  }

  /** Unreserved text is byte text. */
  lemma UnreservedBytes(s: string)
    requires forall i :: 0 <= i < |s| ==> IsUnreserved(s[i])
    ensures ByteString(s)
  {
  }

  lemma JoinTwo(a: string, b: string)
    ensures Join([a, b]) == a + "&" + b
  {
    assert [a, b][1..] == [b];
  }

  /** The segments Encode writes for two keys with one value each, in the order given. */
  lemma EncodeTwoSegments(k1: string, x1: string, k2: string, x2: string)
    requires k1 != k2
    ensures EncodeSegments([k1, k2], map[k1 := [x1], k2 := [x2]]) == [PairText(k1, x1), PairText(k2, x2)]
  {
    var v := map[k1 := [x1], k2 := [x2]];
    assert v[k1] == [x1] && v[k2] == [x2];
    assert [k1, k2][1..] == [k2] && [k2][1..] == [];
    assert KeySegments(k2, [x2]) == [PairText(k2, x2)];
    assert KeySegments(k1, [x1]) == [PairText(k1, x1)];
    assert EncodeSegments([k2], v) == [PairText(k2, x2)] + EncodeSegments([], v);
  }

  /**
   * The pairs of every key, written in ANY order of the keys (each once),
   * parse back to the same values: Encode's sorting is not needed for the
   * round trip.
   */
  lemma ParseEncodedInAnyOrder(keys: seq<string>, v: Values)
    requires forall i :: 0 <= i < |keys| ==> keys[i] in v
    requires forall k :: k in v ==> k in keys
    requires Distinct(keys) && WellFormedValues(v)
    ensures ParseQuery(Join(EncodeSegments(keys, v))) == QueryResult(v, None)
  {
    ParseJoinedPairs(keys, v);
    RestrictAll(keys, v);
  }

  /** Two keys with one value each, all unreserved text. */
  lemma TwoKeyValues(k1: string, x1: string, k2: string, x2: string)
    requires ByteString(k1) && ByteString(x1) && ByteString(k2) && ByteString(x2)
    requires k1 != k2
    ensures forall i :: 0 <= i < |[k1, k2]| ==> [k1, k2][i] in map[k1 := [x1], k2 := [x2]]
    ensures forall k :: k in map[k1 := [x1], k2 := [x2]] ==> k in [k1, k2]
    ensures Distinct([k1, k2]) && WellFormedValues(map[k1 := [x1], k2 := [x2]])
  {
    assert [k1, k2][1..] == [k2];
  }

  /**
   * A query of two plain pairs with different keys, in either order, parses
   * to those two keys with one value each, and no error.
   */
  lemma ParseTwoPairs(k1: string, x1: string, k2: string, x2: string)
    requires forall i :: 0 <= i < |k1| ==> IsUnreserved(k1[i])
    requires forall i :: 0 <= i < |x1| ==> IsUnreserved(x1[i])
    requires forall i :: 0 <= i < |k2| ==> IsUnreserved(k2[i])
    requires forall i :: 0 <= i < |x2| ==> IsUnreserved(x2[i])
    requires k1 != k2
    ensures ParseQuery((k1 + "=" + x1) + "&" + (k2 + "=" + x2)) == QueryResult(map[k1 := [x1], k2 := [x2]], None)
  {
    UnreservedBytes(k1); UnreservedBytes(x1); UnreservedBytes(k2); UnreservedBytes(x2);
    EscapeUnreserved(k1); EscapeUnreserved(x1); EscapeUnreserved(k2); EscapeUnreserved(x2);
    TwoKeyValues(k1, x1, k2, x2);
    EncodeTwoSegments(k1, x1, k2, x2);
    JoinTwo(PairText(k1, x1), PairText(k2, x2));
    ParseEncodedInAnyOrder([k1, k2], map[k1 := [x1], k2 := [x2]]);
  }
}
