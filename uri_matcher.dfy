/**
 * Android's `UriMatcher`, for patterns without `#` or `*` wildcards: each
 * `addURI(authority, path, code)` registers a pattern, and `match(uri)`
 * gives the code of the pattern whose authority and path segments equal the
 * URI's, or `NO_MATCH` when none does. The app creates its matcher as
 * `UriMatcher(NO_MATCH)`, the no-match code the model keeps in `noMatch`.
 */
module UriMatching {
  import opened KotlinText

  /** A content URI, reduced to what matching reads: its authority and its path segments. */
  datatype Uri = Uri(authority: string, segments: seq<string>)

  /** `UriMatcher.NO_MATCH`. */
  const NO_MATCH: int := -1

  datatype Pattern = Pattern(authority: string, path: seq<string>, code: int)

  /** A matcher: the code for "no pattern applies" and the patterns in registration order. */
  datatype Matcher = Matcher(noMatch: int, patterns: seq<Pattern>)

  /** `UriMatcher(code)`; the app passes `NO_MATCH`. */
  function NewMatcher(code: int): (m: Matcher)
    ensures forall u :: Match(m, u) == code
  {
    Matcher(code, [])
  }

  /**
   * `addURI(authority, path, code)`: one more pattern after the registered
   * ones, whose segments are the pieces of the path between `/`s.
   */
  function AddUri(m: Matcher, authority: string, path: string, code: int): (r: Matcher)
    ensures r.noMatch == m.noMatch
    ensures |r.patterns| == |m.patterns| + 1 && r.patterns[..|m.patterns|] == m.patterns
    ensures var p := r.patterns[|m.patterns|];
      p.authority == authority && p.code == code && |p.path| >= 1 &&
      Join(p.path, '/') == path && forall i :: 0 <= i < |p.path| ==> '/' !in p.path[i]
  {
    var r := m.(patterns := m.patterns + [Pattern(authority, Split(path, '/'), code)]);
    assert r.patterns[..|m.patterns|] == m.patterns;
    JoinSplit(path, '/');
    r
  }

  predicate Fits(p: Pattern, u: Uri) {
    p.authority == u.authority && p.path == u.segments
  }

  /** `match(uri)`. */
  function Match(m: Matcher, u: Uri): (code: int)
    ensures (forall i :: 0 <= i < |m.patterns| ==> !Fits(m.patterns[i], u)) ==> code == m.noMatch
    ensures (exists i :: 0 <= i < |m.patterns| && Fits(m.patterns[i], u)) ==>
      exists j :: 0 <= j < |m.patterns| && Fits(m.patterns[j], u) && code == m.patterns[j].code &&
        forall k :: j < k < |m.patterns| ==> !Fits(m.patterns[k], u)
  {
    MatchIn(m.patterns, u, m.noMatch)
  }

  /**
   * The code of the last registered pattern that fits the URI (registering
   * one path twice overwrites its code), or `noMatch` when none fits.
   */
  function MatchIn(patterns: seq<Pattern>, u: Uri, noMatch: int): (code: int)
    ensures (forall i :: 0 <= i < |patterns| ==> !Fits(patterns[i], u)) ==> code == noMatch
    ensures (exists i :: 0 <= i < |patterns| && Fits(patterns[i], u)) ==>
      exists j :: 0 <= j < |patterns| && Fits(patterns[j], u) && code == patterns[j].code &&
        forall k :: j < k < |patterns| ==> !Fits(patterns[k], u)
  {
    if |patterns| == 0 then noMatch
    else
      var last := patterns[|patterns| - 1];
      var prefix := patterns[..|patterns| - 1];
      if Fits(last, u) then last.code
      else
        var code := MatchIn(prefix, u, noMatch);
        assert forall i :: 0 <= i < |prefix| ==> prefix[i] == patterns[i];
        code
  }
}
