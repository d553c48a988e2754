/**
 * The route matcher that `lib/http.js` obtains from the `path-match` package
 * (`pattern(route)(link)`), modelled as segment-wise matching:
 *  - both strings are cut at every '/'; the pattern drops one trailing '/'
 *    and the path may carry one extra '/' at its end (the library's
 *    non-strict mode makes a trailing slash optional);
 *  - a pattern segment ':name' (name made of word characters) binds the
 *    corresponding path segment, which must be non-empty;
 *  - every other pattern segment must equal the path segment, ignoring the
 *    case of ASCII letters (the library matches case-insensitively);
 *  - the whole path must be consumed, segment for segment.
 * The result is the map of bound parameters, or `None` where the library
 * returns `false`.
 */
module PathMatch {
  import opened Wrappers

  type Params = map<string, string>

  /** Cuts `s` at every '/'; "" gives [""], "/a" gives ["", "a"]. */
  function Split(s: string): (parts: seq<string>)
    ensures |parts| >= 1
    ensures forall i :: 0 <= i < |parts| ==> '/' !in parts[i]
  {
    if s == [] then [""]
    else
      var rest := Split(s[1..]);
      if s[0] == '/' then [""] + rest
      else [[s[0]] + rest[0]] + rest[1..]
  }

  /** Glues segments back together with '/'; the inverse of Split. */
  function Join(parts: seq<string>): string
    requires |parts| >= 1
  {
    if |parts| == 1 then parts[0] else parts[0] + "/" + Join(parts[1..])
  }

  lemma {:induction false} SplitJoin(s: string)
    ensures Join(Split(s)) == s
  {
    if s != [] {
      SplitJoin(s[1..]);
      var rest := Split(s[1..]);
      if s[0] != '/' && |rest| > 1 {
        assert Join(rest) == rest[0] + "/" + Join(rest[1..]);
      }
    }
  }

  /** A '/' splits a string into the segments on its left followed by those on its right. */
  lemma {:induction false} SplitAppend(a: string, b: string)
    ensures Split(a + "/" + b) == Split(a) + Split(b)
  {
    var s := a + "/" + b;
    if a == [] {
      assert s[0] == '/' && s[1..] == b;
    } else {
      var tail := a[1..] + "/" + b;
      assert s[0] == a[0] && s[1..] == tail;
      SplitAppend(a[1..], b);
      var left := Split(a[1..]);
      var rest := Split(tail);
      if a[0] == '/' {
        assert Split(s) == [""] + rest && Split(a) == [""] + left;
        AppendAssociative([""], left, Split(b));
      } else {
        assert rest[0] == left[0] && rest[1..] == left[1..] + Split(b);
        assert Split(s) == [[a[0]] + left[0]] + (left[1..] + Split(b));
        assert Split(a) == [[a[0]] + left[0]] + left[1..];
        AppendAssociative([[a[0]] + left[0]], left[1..], Split(b));
      }
    }
  }

  /** Concatenation of segment lists is associative. */
  lemma AppendAssociative(x: seq<string>, y: seq<string>, z: seq<string>)
    ensures x + (y + z) == (x + y) + z
  {
  }

  lemma {:induction false} SplitNoSlash(s: string)
    requires '/' !in s
    ensures Split(s) == [s]
  {
    if s != [] {
      assert '/' !in s[1..] by {
        forall i | 0 <= i < |s[1..]| ensures s[1..][i] != '/' {
          assert s[1..][i] == s[i + 1];
        }
      }
      SplitNoSlash(s[1..]);
      assert s[0] != '/';
      assert [s[0]] + s[1..] == s;
    }
  }

  /** A rooted path with one slash-free name splits into the empty root segment and the name. */
  lemma RootedName(name: string)
    requires '/' !in name
    ensures Split("/" + name) == ["", name]
  {
    assert "/" + name == "" + "/" + name;
    SplitAppend("", name);
    SplitNoSlash(name);
  }

  lemma {:induction false} JoinSplit(parts: seq<string>)
    requires |parts| >= 1
    requires forall i :: 0 <= i < |parts| ==> '/' !in parts[i]
    ensures Split(Join(parts)) == parts
  {
    SplitNoSlash(parts[0]);
    if |parts| > 1 {
      JoinSplit(parts[1..]);
      SplitAppend(parts[0], Join(parts[1..]));
    }
  }

  /** Drops one trailing '/'. */
  function Trim(s: string): string {
    if |s| > 0 && s[|s| - 1] == '/' then s[..|s| - 1] else s
  }

  /**
   * `Trim` removes exactly one final '/', and only when there is one. (Kept
   * out of `Trim`'s own contract: the disjunction would be case-split at
   * every use of `Match`.)
   */
  lemma TrimDropsSlash(s: string)
    ensures Trim(s) == s || s == Trim(s) + "/"
    ensures Trim(s) != s <==> |s| > 0 && s[|s| - 1] == '/'
  {
  }

  /** The segments the matcher compares. */
  function Segments(s: string): (segs: seq<string>)
    ensures |segs| >= 1
  {
    Split(Trim(s))
  }

  predicate IsWordChar(c: char) {
    ('a' <= c <= 'z') || ('A' <= c <= 'Z') || ('0' <= c <= '9') || c == '_'
  }

  /** A whole-segment parameter ':name'. */
  predicate IsParam(seg: string) {
    |seg| >= 2 && seg[0] == ':' && forall i :: 1 <= i < |seg| ==> IsWordChar(seg[i])
  }

  function ParamName(seg: string): string
    requires IsParam(seg)
  {
    seg[1..]
  }

  function Fold(c: char): char {
    if 'A' <= c <= 'Z' then (c as int + 32) as char else c
  }

  function Lower(s: string): (r: string)
    ensures |r| == |s|
  {
    seq(|s|, i requires 0 <= i < |s| => Fold(s[i]))
  }

  /** Literal segments compare equal up to the case of ASCII letters. */
  predicate SameText(a: string, b: string) {
    Lower(a) == Lower(b)
  }

  /** One pattern segment accepts one path segment. */
  predicate Fits(pat: string, seg: string) {
    if IsParam(pat) then seg != "" else SameText(pat, seg)
  }

  /** Reference definition of a successful match, independent of the binding. */
  predicate Conforms(pattern: seq<string>, path: seq<string>) {
    |pattern| == |path| && forall i :: 0 <= i < |pattern| ==> Fits(pattern[i], path[i])
  }

  /**
   * Segment-wise matching. A name bound twice keeps the later value, as the
   * library assigns its parameters from left to right.
   */
  function MatchSegments(pattern: seq<string>, path: seq<string>): (r: Option<Params>)
    ensures r.Some? ==> |pattern| == |path|
    ensures r.Some? ==> forall n :: n in r.value ==> r.value[n] != ""
    decreases |pattern|
  {
    if |pattern| != |path| then None
    else if |pattern| == 0 then Some(map[])
    else
      var rest := MatchSegments(pattern[1..], path[1..]);
      if rest.None? || !Fits(pattern[0], path[0]) then None
      else if IsParam(pattern[0]) then Some(map[ParamName(pattern[0]) := path[0]] + rest.value)
      else rest
  }

  /** A string ending in '/' splits into the parts of the rest and a final empty part. */
  lemma TrailingSlashSplit(s: string)
    requires Trim(s) != s
    ensures Split(s) == Segments(s) + [""]
  {
    assert s == Trim(s) + "/" + "";
    SplitAppend(Trim(s), "");
  }

  /** The last part of a split is empty only for the empty string or one ending in '/'. */
  lemma {:induction false} SplitLast(s: string)
    ensures Split(s)[|Split(s)| - 1] == "" ==> s == "" || s[|s| - 1] == '/'
  {
    if s != [] {
      var rest := Split(s[1..]);
      SplitLast(s[1..]);
      if s[0] != '/' && |rest| == 1 {
        assert Split(s) == [[s[0]] + rest[0]];
      }
    }
  }

  /**
   * The path segments that the segments of a pattern are compared with. The
   * matcher drops one trailing '/' from the pattern and then allows one
   * optional '/' at the end of the path: the whole path is compared when its
   * segment count fits, otherwise the path without its trailing '/'.
   */
  function PathSegments(pattern: seq<string>, link: string): seq<string> {
    if |Split(link)| == |pattern| then Split(link) else Segments(link)
  }

  /**
   * The segments compared are those of the whole path or those of the path
   * without its trailing '/'. (Kept out of `PathSegments`' own contract: a
   * disjunction there is case-split at every use of `Match`.)
   */
  lemma PathSegmentsChoice(pattern: seq<string>, link: string)
    ensures PathSegments(pattern, link) == Split(link) || PathSegments(pattern, link) == Segments(link)
  {
  }

  /** A path is compared with its own segments as a pattern: whole, or without its trailing '/'. */
  lemma SelfSegments(s: string)
    ensures PathSegments(Segments(s), s) == Segments(s)
  {
    if Trim(s) != s {
      TrailingSlashSplit(s);
    }
  }

  /** `pattern(route)(link)`: the parameter map, or None for no match. */
  function Match(route: string, link: string): Option<Params> {
    var pattern := Segments(route);
    MatchSegments(pattern, PathSegments(pattern, link))
  }

  /**
   * Reference meaning of a match: the path as it stands, or the path without
   * one trailing '/', conforms to the pattern without its trailing '/'.
   */
  lemma MatchAccepts(route: string, link: string)
    ensures Match(route, link).Some?
            <==> Conforms(Segments(route), Split(link)) || Conforms(Segments(route), Segments(link))
  {
    var pattern := Segments(route);
    MatchIffConforms(pattern, PathSegments(pattern, link));
    if Trim(link) != link {
      TrailingSlashSplit(link);
    }
  }

  /** A matching pattern has at least as many segments as the path without its trailing '/'. */
  lemma MatchLength(route: string, link: string)
    requires Match(route, link).Some?
    ensures |Segments(route)| >= |Segments(link)|
  {
    if Trim(link) != link {
      TrailingSlashSplit(link);
    }
  }

  /** A pattern ending in a parameter is compared with the path without its trailing '/'. */
  lemma ParamLastSegment(route: string, link: string)
    requires Match(route, link).Some?
    requires IsParam(Segments(route)[|Segments(route)| - 1])
    ensures |Segments(route)| == |Segments(link)|
  {
    var pattern := Segments(route);
    var path := PathSegments(pattern, link);
    if |pattern| != |Segments(link)| {
      assert Trim(link) != link;
      TrailingSlashSplit(link);
      MatchIffConforms(pattern, path);
    }
  }

  /**
   * Of two patterns, one ending in a parameter and having more segments than
   * the other, at most one matches any path.
   */
  lemma LongerParamExcludes(longer: string, shorter: string, link: string)
    requires |Segments(longer)| > |Segments(shorter)|
    requires IsParam(Segments(longer)[|Segments(longer)| - 1])
    ensures Match(longer, link).None? || Match(shorter, link).None?
  {
    if Match(longer, link).Some? && Match(shorter, link).Some? {
      ParamLastSegment(longer, link);
      MatchLength(shorter, link);
    }
  }

  /**
   * Non-strict matching: for a pattern that does not end in '/' once its own
   * trailing '/' is dropped, one '/' appended to a path changes nothing.
   */
  lemma TrailingSlashOptional(route: string, link: string)
    requires Trim(Trim(route)) == Trim(route)
    requires Trim(link) == link
    ensures Match(route, link + "/") == Match(route, link)
  {
    var pattern := Segments(route);
    var longer := link + "/";
    assert Trim(longer) == link;
    TrailingSlashSplit(longer);
    if |Split(longer)| == |pattern| && Match(route, longer).Some? {
      var last := |pattern| - 1;
      MatchIffConforms(pattern, Split(longer));
      assert Fits(pattern[last], Split(longer)[last]);
      TrimmedLastSegment(route);
    }
  }

  /**
   * A pattern that does not end in '/' once its trailing '/' is dropped has
   * a last segment that no empty path segment fits, or is a single segment.
   */
  lemma TrimmedLastSegment(route: string)
    requires Trim(Trim(route)) == Trim(route)
    ensures |Segments(route)| == 1 || !Fits(Segments(route)[|Segments(route)| - 1], "")
  {
    var pattern := Segments(route);
    SplitLast(Trim(route));
    if |pattern| > 1 {
      assert |Lower(pattern[|pattern| - 1])| > 0;
    }
  }

  lemma {:induction false} MatchIffConforms(pattern: seq<string>, path: seq<string>)
    ensures MatchSegments(pattern, path).Some? <==> Conforms(pattern, path)
    decreases |pattern|
  {
    if |pattern| == |path| && |pattern| > 0 {
      MatchIffConforms(pattern[1..], path[1..]);
      if Conforms(pattern, path) {
        assert Conforms(pattern[1..], path[1..]) by {
          forall i | 0 <= i < |pattern| - 1 ensures Fits(pattern[1..][i], path[1..][i]) {
            assert Fits(pattern[i + 1], path[i + 1]);
          }
        }
      }
      if MatchSegments(pattern, path).Some? {
        forall i | 0 <= i < |pattern| ensures Fits(pattern[i], path[i]) {
          if i > 0 {
            assert pattern[1..][i - 1] == pattern[i] && path[1..][i - 1] == path[i];
          }
        }
      }
    }
  }

  /** Every bound name comes from a parameter segment at the same position. */
  lemma {:induction false} MatchBindsOnlyParams(pattern: seq<string>, path: seq<string>, n: string)
    requires MatchSegments(pattern, path).Some?
    requires n in MatchSegments(pattern, path).value
    ensures exists i :: 0 <= i < |pattern| && IsParam(pattern[i]) && ParamName(pattern[i]) == n &&
                        MatchSegments(pattern, path).value[n] == path[i]
    decreases |pattern|
  {
    var rest := MatchSegments(pattern[1..], path[1..]);
    if n in rest.value {
      MatchBindsOnlyParams(pattern[1..], path[1..], n);
      var i :| 0 <= i < |pattern[1..]| && IsParam(pattern[1..][i]) && ParamName(pattern[1..][i]) == n &&
               rest.value[n] == path[1..][i];
      assert IsParam(pattern[i + 1]) && ParamName(pattern[i + 1]) == n;
    } else {
      assert IsParam(pattern[0]) && ParamName(pattern[0]) == n;
    }
  }

  /** A name that no parameter segment carries is not bound. */
  lemma {:induction false} NameNotBound(pattern: seq<string>, path: seq<string>, n: string)
    requires forall j :: 0 <= j < |pattern| && IsParam(pattern[j]) ==> ParamName(pattern[j]) != n
    ensures MatchSegments(pattern, path).Some? ==> n !in MatchSegments(pattern, path).value
    decreases |pattern|
  {
    if |pattern| == |path| && |pattern| > 0 {
      forall j | 0 <= j < |pattern[1..]| && IsParam(pattern[1..][j]) ensures ParamName(pattern[1..][j]) != n {
        assert pattern[1..][j] == pattern[j + 1];
      }
      NameNotBound(pattern[1..], path[1..], n);
    }
  }

  /** A parameter segment whose name does not occur later binds its path segment. */
  lemma {:induction false} MatchBindsParam(pattern: seq<string>, path: seq<string>, i: nat)
    requires MatchSegments(pattern, path).Some?
    requires i < |pattern| && IsParam(pattern[i])
    requires forall j :: i < j < |pattern| && IsParam(pattern[j]) ==> ParamName(pattern[j]) != ParamName(pattern[i])
    ensures ParamName(pattern[i]) in MatchSegments(pattern, path).value
    ensures MatchSegments(pattern, path).value[ParamName(pattern[i])] == path[i]
    decreases |pattern|
  {
    var rest := MatchSegments(pattern[1..], path[1..]);
    var n := ParamName(pattern[i]);
    if i == 0 {
      forall j | 0 <= j < |pattern[1..]| && IsParam(pattern[1..][j]) ensures ParamName(pattern[1..][j]) != n {
        assert pattern[1..][j] == pattern[j + 1];
      }
      NameNotBound(pattern[1..], path[1..], n);
    } else {
      assert pattern[1..][i - 1] == pattern[i];
      MatchBindsParam(pattern[1..], path[1..], i - 1);
    }
  }

  /** Segments without parameters match themselves and bind nothing. */
  predicate Literal(segs: seq<string>) {
    forall i :: 0 <= i < |segs| ==> !IsParam(segs[i])
  }

  lemma {:induction false} LiteralMatchesItself(segs: seq<string>)
    requires Literal(segs)
    ensures MatchSegments(segs, segs) == Some(map[])
    decreases |segs|
  {
    if |segs| > 0 {
      LiteralMatchesItself(segs[1..]);
    }
  }

  /** A literal prefix matching itself leaves the outcome to the segments after it. */
  lemma {:induction false} LiteralPrefix(segs: seq<string>, pattern: seq<string>, path: seq<string>)
    requires Literal(segs)
    ensures MatchSegments(segs + pattern, segs + path) == MatchSegments(pattern, path)
    decreases |segs|
  {
    if |segs| > 0 {
      assert (segs + pattern)[0] == segs[0] && (segs + path)[0] == segs[0];
      assert Fits(segs[0], segs[0]);
      assert (segs + pattern)[1..] == segs[1..] + pattern;
      assert (segs + path)[1..] == segs[1..] + path;
      LiteralPrefix(segs[1..], pattern, path);
    } else {
      assert segs + pattern == pattern && segs + path == path;
    }
  }

  /** A pattern that does not begin with '/' never matches a path that does. */
  lemma RelativeNeverMatches(route: string, link: string)
    requires |route| > 0 && route[0] != '/'
    requires |link| > 0 && link[0] == '/'
    ensures Match(route, link).None?
  {
    var r := Trim(route);
    assert |r| > 0 && r[0] == route[0];
    var first := Segments(route)[0];
    assert |first| > 0;
    assert Split(link)[0] == "" && Segments(link)[0] == "";
    assert !Fits(first, "") by {
      assert |Lower(first)| != |Lower("")|;
    }
    var path := PathSegments(Segments(route), link);
    var rest := MatchSegments(Segments(route)[1..], path[1..]);
  }
}
