/**
 * The handful of Go standard-library string and path operations that the
 * exporter's request handling relies on: strings.Cut, strings.TrimSuffix,
 * strings.HasSuffix, strings.ToUpper and path.Base.
 *
 * A Go string is a sequence of bytes; here a string is a seq<char> whose
 * characters each stand for one byte.
 */
module Text {

  /** A non-empty sequence is its prefix followed by its last element. */
  lemma LastSplit<T>(s: seq<T>)
    requires s != []
    ensures s[..|s| - 1] + [s[|s| - 1]] == s
  {
  }

  /** The three results of strings.Cut(s, sep) for a one-byte separator. */
  datatype CutResult = CutResult(before: string, after: string, found: bool)

  /**
   * strings.Cut(s, [sep]): split around the FIRST occurrence of sep.
   * When sep is absent, before is the whole string and after is empty.
   */
  function Cut(s: string, sep: char): (r: CutResult)
    ensures r.found ==> s == r.before + [sep] + r.after
    ensures !r.found ==> r.before == s && r.after == ""
  {
    if s == [] then CutResult("", "", false)
    else if s[0] == sep then CutResult("", s[1..], true)
    else
      var rest := Cut(s[1..], sep);
      assert s == [s[0]] + s[1..];
      CutResult([s[0]] + rest.before, rest.after, rest.found)
  }

  /** Cut finds the separator exactly when it occurs, and cuts at its first occurrence. */
  lemma {:induction false} CutFound(s: string, sep: char)
    ensures Cut(s, sep).found <==> sep in s
    ensures sep !in Cut(s, sep).before
  {
    if s != [] && s[0] != sep {
      CutFound(s[1..], sep);
      assert s == [s[0]] + s[1..];
    }
  }

  /** Cutting a string built around a first separator gives back its two parts. */
  lemma {:induction false} CutAtFirst(a: string, sep: char, b: string)
    requires sep !in a
    ensures Cut(a + [sep] + b, sep) == CutResult(a, b, true)
  {
    if a == [] {
      assert a + [sep] + b == [sep] + b;
    } else {
      assert (a + [sep] + b)[1..] == a[1..] + [sep] + b;
      CutAtFirst(a[1..], sep, b);
      assert a == [a[0]] + a[1..];
    }
  }

  /** strings.HasSuffix(s, suffix). */
  predicate HasSuffix(s: string, suffix: string) {
    |suffix| <= |s| && s[|s| - |suffix|..] == suffix
  }

  /**
   * strings.TrimSuffix(s, "/"): drop exactly one trailing slash, if there is
   * one, and otherwise return s unchanged.
   */
  function TrimSlashSuffix(s: string): (r: string)
    ensures HasSuffix(s, "/") ==> r + "/" == s
    ensures !HasSuffix(s, "/") ==> r == s
  {
    if |s| > 0 && s[|s| - 1] == '/' then
      assert s == s[..|s| - 1] + "/";
      s[..|s| - 1]
    else s
  }

  /** Removes every trailing slash (the first step of path.Base). */
  function TrimTrailingSlashes(s: string): (r: string)
    ensures |r| <= |s| && r == s[..|r|]
    ensures r == [] || r[|r| - 1] != '/'
    ensures forall i :: |r| <= i < |s| ==> s[i] == '/'
  {
    if |s| > 0 && s[|s| - 1] == '/' then TrimTrailingSlashes(s[..|s| - 1]) else s
  }

  /** The text after the last slash of s (all of s when it has no slash). */
  function LastSegment(s: string): (r: string)
    ensures '/' !in r
    ensures HasSuffix(s, r)
    ensures |r| < |s| ==> s[|s| - |r| - 1] == '/'
  {
    if s == [] || s[|s| - 1] == '/' then []
    else LastSegment(s[..|s| - 1]) + [s[|s| - 1]]
  }

  /**
   * path.Base: the last element of a slash-separated path. Trailing slashes
   * are removed first; an empty path gives "." and a path made only of
   * slashes gives "/".
   */
  function Base(p: string): (r: string)
    ensures r != ""
    ensures '/' in r ==> r == "/"
  {
    if p == "" then "."
    else
      var name := LastSegment(TrimTrailingSlashes(p));
      if name == "" then "/" else name
  }

  /** Appending a slash-free name to a string makes that name its last segment. */
  lemma {:induction false} LastSegmentAfterSlash(dir: string, name: string)
    requires '/' !in name
    ensures LastSegment(dir + "/" + name) == name
  {
    if name == [] {
      assert dir + "/" + name == dir + "/";
    } else {
      var n := |name|;
      assert dir + "/" + name == (dir + "/" + name[..n - 1]) + [name[n - 1]];
      LastSegmentAfterSlash(dir, name[..n - 1]);
      assert name == name[..n - 1] + [name[n - 1]];
    }
  }

  /** A slash-free name is its own last segment. */
  lemma {:induction false} LastSegmentOfName(name: string)
    requires '/' !in name
    ensures LastSegment(name) == name
  {
    if name != [] {
      var n := |name|;
      LastSegmentOfName(name[..n - 1]);
      assert name == name[..n - 1] + [name[n - 1]];
    }
  }

  /**
   * The station is the last path element: path.Base(dir + "/" + name) is name
   * for every non-empty, slash-free name, and so is path.Base(name).
   */
  lemma BaseOfLastElement(dir: string, name: string)
    requires name != "" && '/' !in name
    ensures Base(dir + "/" + name) == name
    ensures Base(name) == name
  {
    var p := dir + "/" + name;
    assert p[|p| - 1] == name[|name| - 1];
    assert TrimTrailingSlashes(p) == p;
    LastSegmentAfterSlash(dir, name);
    assert TrimTrailingSlashes(name) == name;
    LastSegmentOfName(name);
  }

  /** A path made only of slashes has base "/". */
  lemma BaseOfSlashes(p: string)
    requires p != "" && forall i :: 0 <= i < |p| ==> p[i] == '/'
    ensures Base(p) == "/"
  {
  }

  /** ASCII upper-casing of one byte. */
  function UpperChar(c: char): (u: char)
    ensures 'a' <= c <= 'z' ==> u as int == c as int - 32
    ensures !('a' <= c <= 'z') ==> u == c
    ensures !('a' <= u <= 'z')
  {
    if 'a' <= c <= 'z' then (c as int - 32) as char else c
  }

  /** strings.ToUpper on ASCII text: every lower-case letter is upper-cased. */
  function ToUpper(s: string): (r: string)
    ensures |r| == |s|
  {
    if s == [] then [] else [UpperChar(s[0])] + ToUpper(s[1..])
  }

  /** ToUpper works character by character. */
  lemma {:induction false} ToUpperChars(s: string)
    ensures forall i :: 0 <= i < |s| ==> ToUpper(s)[i] == UpperChar(s[i])
  {
    if s != [] {
      ToUpperChars(s[1..]);
      assert forall i :: 1 <= i < |s| ==> ToUpper(s)[i] == ToUpper(s[1..])[i - 1];
    }
  }

  /** ToUpper(s) is u when u upper-cases s character by character. */
  lemma ToUpperOf(s: string, u: string)
    requires |s| == |u| && forall i :: 0 <= i < |s| ==> UpperChar(s[i]) == u[i]
    ensures ToUpper(s) == u
  {
    ToUpperChars(s);
  }

  /** Upper-casing twice is the same as upper-casing once. */
  lemma ToUpperIdempotent(s: string)
    ensures ToUpper(ToUpper(s)) == ToUpper(s)
  {
    var u := ToUpper(s);
    ToUpperChars(s);
    ToUpperChars(u);
    assert forall i :: 0 <= i < |u| ==> ToUpper(u)[i] == u[i];
  }
}
