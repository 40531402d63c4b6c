/**
  * The router for one HTTP method: path validation and splitting, the exact table, and the trie
  * for patterns.
  */
module HttpRouters {
  import opened Prelude
  import opened RoutePatterns
  import opened RouteTries

  // ----- splitting a path into its non-empty segments -----

  /** The pieces between slashes, empty ones dropped; `pending` is the piece read so far. */
  function SplitFrom(path: string, pending: string): seq<string> {
    if path == "" then if pending == "" then [] else [pending]
    else if path[0] == '/' then (if pending == "" then [] else [pending]) + SplitFrom(path[1..], "")
    else SplitFrom(path[1..], pending + [path[0]])
  }

  function Split(path: string): seq<string> {
    SplitFrom(path, "")
  }

  function Join(segments: seq<string>): string {
    if segments == [] then "" else "/" + segments[0] + Join(segments[1..])
  }

  predicate IsSegment(s: string) {
    s != "" && '/' !in s
  }

  lemma {:induction false} SplitTakesWord(word: string, rest: string, pending: string)
    requires '/' !in word
    ensures SplitFrom(word + rest, pending) == SplitFrom(rest, pending + word)
  {
    if word == "" {
      assert word + rest == rest && pending + word == pending;
    } else {
      assert (word + rest)[1..] == word[1..] + rest;
      SplitTakesWord(word[1..], rest, pending + [word[0]]);
      assert pending + [word[0]] + word[1..] == pending + word;
    }
  }

  lemma SplitAtSlash(path: string, word: string)
    requires word != "" && (path == "" || path[0] == '/')
    ensures SplitFrom(path, word) == [word] + SplitFrom(path, "")
  {
    if path != "" {
      assert SplitFrom(path, "") == [] + SplitFrom(path[1..], "");
    }
  }

  lemma JoinStartsWithSlash(segments: seq<string>)
    ensures Join(segments) == "" || Join(segments)[0] == '/'
  {
  }

  /** Splitting undoes joining. */
  lemma {:induction false} SplitOfJoin(segments: seq<string>)
    requires forall i :: 0 <= i < |segments| ==> IsSegment(segments[i])
    ensures Split(Join(segments)) == segments
  {
    if segments != [] {
      var s, rest := segments[0], segments[1..];
      var tail := Join(rest);
      assert Join(segments) == ['/'] + (s + tail);
      assert Join(segments)[1..] == s + tail;
      assert Split(Join(segments)) == [] + SplitFrom(s + tail, "");
      SplitTakesWord(s, tail, "");
      assert "" + s == s;
      JoinStartsWithSlash(rest);
      SplitAtSlash(tail, s);
      SplitOfJoin(rest);
      assert segments == [s] + rest;
    }
  }

  lemma SplitOfWord(word: string)
    requires '/' !in word
    ensures Split(word) == if word == "" then [] else [word]
  {
    SplitTakesWord(word, "", "");
    assert word + "" == word && "" + word == word;
  }

  lemma {:induction false} SplitAtFirstSlash(a: string, b: string, pending: string)
    ensures SplitFrom(a + "/" + b, pending) == SplitFrom(a, pending) + Split(b)
    decreases a
  {
    var path := a + "/" + b;
    if a == "" {
      assert path[0] == '/' && path[1..] == b;
    } else {
      assert path[0] == a[0] && path[1..] == a[1..] + "/" + b;
      if a[0] == '/' {
        SplitAtFirstSlash(a[1..], b, "");
        Assoc(if pending == "" then [] else [pending], SplitFrom(a[1..], ""), Split(b));
      } else {
        SplitAtFirstSlash(a[1..], b, pending + [a[0]]);
      }
    }
  }

  /**
    * Any path, doubled and trailing slashes included: a slash separates what stands before it from
    * what stands after, and an empty piece yields nothing. With SplitOfWord this determines every split.
    */
  lemma SplitOfParts(a: string, b: string)
    ensures Split(a + "/" + b) == Split(a) + Split(b)
    ensures Split(a + "/") == Split(a) && Split("/" + b) == Split(b) && Split(a + "//" + b) == Split(a + "/" + b)
  {
    SplitAtFirstSlash(a, b, "");
    SplitAtFirstSlash(a, "", "");
    SplitAtFirstSlash("", b, "");
    SplitAtFirstSlash(a + "/", b, "");
    assert a + "/" + "" == a + "/" && "" + "/" + b == "/" + b && a + "/" + "/" + b == a + "//" + b;
    assert [] + Split(b) == Split(b) && Split(a) + [] == Split(a);
  }

  lemma {:induction false} SplitYieldsSegments(path: string, pending: string)
    requires '/' !in pending
    ensures forall i :: 0 <= i < |SplitFrom(path, pending)| ==> IsSegment(SplitFrom(path, pending)[i])
    decreases path
  {
    if path != "" {
      if path[0] == '/' {
        SplitYieldsSegments(path[1..], "");
      } else {
        SplitYieldsSegments(path[1..], pending + [path[0]]);
      }
    }
  }

  /** Reads up to each slash and keeps what is not empty. */
  method SplitPath(path: string) returns (segments: seq<string>)
    ensures segments == Split(path)
  {
    segments := [];
    var segment := "";
    assert path[0..] == path;
    for i := 0 to |path|
      invariant Split(path) == segments + SplitFrom(path[i..], segment)
    {
      assert path[i..][1..] == path[i + 1..];
      if path[i] == '/' {
        if segment != "" {
          segments := segments + [segment];
        }
        segment := "";
      } else {
        segment := segment + [path[i]];
      }
    }
    if segment != "" {
      segments := segments + [segment];
    }
  }

  // ----- which paths may be registered -----

  predicate IsAlpha(c: char) {
    'a' <= c <= 'z' || 'A' <= c <= 'Z'
  }

  predicate IsAlnum(c: char) {
    IsAlpha(c) || '0' <= c <= '9'
  }

  predicate IsWildcard(segment: string) {
    segment == STAR || segment == GREEDY
  }

  predicate NameChar(c: char) {
    IsAlnum(c) || c == '_'
  }

  predicate LiteralChar(c: char) {
    IsAlnum(c) || c == '-' || c == '_' || c == '.' || c == '~'
  }

  ghost predicate GoodParam(segment: string) {
    && |segment| > 1
    && (IsAlpha(segment[1]) || segment[1] == '_')
    && forall i :: 1 <= i < |segment| ==> NameChar(segment[i])
  }

  ghost predicate GoodSegment(segments: seq<string>, i: nat)
    requires i < |segments|
  {
    var segment := segments[i];
    if IsParam(segment) then GoodParam(segment) && forall j :: 0 <= j < i ==> segments[j] != segment
    else if IsWildcard(segment) then i == |segments| - 1
    else forall k :: 0 <= k < |segment| ==> LiteralChar(segment[k])
  }

  /** The rules for a registered path, without the order in which they are checked. */
  ghost predicate ValidPath(path: string) {
    && path != "" && path[0] == '/' && |path| <= 2048
    && (Split(path) == [] ==> path == "/")
    && forall i :: 0 <= i < |Split(path)| ==> GoodSegment(Split(path), i)
  }

  method AllNameChars(s: string) returns (ok: bool)
    ensures ok <==> forall i :: 0 <= i < |s| ==> NameChar(s[i])
  {
    for k := 0 to |s|
      invariant forall i :: 0 <= i < k ==> NameChar(s[i])
    {
      if !IsAlnum(s[k]) && s[k] != '_' {
        return false;
      }
    }
    return true;
  }

  method AllLiteralChars(s: string) returns (ok: bool)
    ensures ok <==> forall i :: 0 <= i < |s| ==> LiteralChar(s[i])
  {
    for k := 0 to |s|
      invariant forall i :: 0 <= i < k ==> LiteralChar(s[i])
    {
      var c := s[k];
      if !IsAlnum(c) && c != '-' && c != '_' && c != '.' && c != '~' {
        return false;
      }
    }
    return true;
  }

  /** The checks in order, the first failing one deciding. */
  method ValidatePath(path: string) returns (ok: bool)
    ensures ok <==> ValidPath(path)
  {
    if path == "" {
      return false;
    }
    if path[0] != '/' {
      return false;
    }
    if |path| > 2048 {
      return false;
    }
    var segments := SplitPath(path);
    if segments == [] && path != "/" {
      return false;
    }
    SplitYieldsSegments(path, "");
    var paramNames: set<string> := {};
    var hasWildcard := false;
    for i := 0 to |segments|
      invariant forall j :: 0 <= j < i ==> GoodSegment(segments, j)
      invariant forall n :: n in paramNames <==> exists j :: 0 <= j < i && segments[j] == [':'] + n
      invariant hasWildcard ==> i == |segments|
    {
      var segment := segments[i];
      assert IsSegment(segment);
      if segment[0] == ':' {
        if |segment| == 1 {
          assert !GoodSegment(segments, i);
          return false;
        }
        var name := segment[1..];
        assert segment == [':'] + name;
        if !IsAlpha(name[0]) && name[0] != '_' {
          assert !GoodSegment(segments, i);
          return false;
        }
        var wellSpelled := AllNameChars(name);
        assert forall k :: 1 <= k < |segment| ==> segment[k] == name[k - 1];
        if !wellSpelled {
          assert !GoodSegment(segments, i) by {
            var k :| 0 <= k < |name| && !NameChar(name[k]);
            assert !NameChar(segment[k + 1]);
          }
          return false;
        }
        if name in paramNames {
          assert !GoodSegment(segments, i);
          return false;
        }
        paramNames := paramNames + {name};
      } else if segment == STAR || segment == GREEDY {
        if hasWildcard {
          // Never taken: an earlier wildcard would not have been last.
          assert false;
        }
        if i != |segments| - 1 {
          assert !GoodSegment(segments, i);
          return false;
        }
        hasWildcard := true;
      } else {
        var wellSpelled := AllLiteralChars(segment);
        if !wellSpelled {
          assert !GoodSegment(segments, i);
          return false;
        }
      }
    }
    return true;
  }

  lemma ValidPathGivesGoodRoute(path: string, handler: Handler)
    requires ValidPath(path)
    ensures GreedyIsLast(RouteFor(Split(path), handler).keys)
    ensures DistinctNames(Split(path))
  {
    var segments := Split(path);
    forall i | 0 <= i < |segments| - 1 ensures Keys(segments)[i] != GREEDY {
      KeyAt(segments, i);
      assert GoodSegment(segments, i);
    }
    forall i, j | 0 <= i < j < |segments| && IsParam(segments[i]) && IsParam(segments[j])
      ensures segments[i] != segments[j]
    {
      assert GoodSegment(segments, j);
    }
  }

  predicate IsFuzzyPattern(path: string) {
    ':' in path || '*' in path
  }

  ghost predicate Spelled(segments: seq<string>, c: char) {
    exists i :: 0 <= i < |segments| && c in segments[i]
  }

  lemma SpelledInEither(a: seq<string>, b: seq<string>, c: char)
    ensures Spelled(a + b, c) <==> Spelled(a, c) || Spelled(b, c)
  {
    if i :| 0 <= i < |a| && c in a[i] {
      assert (a + b)[i] == a[i];
    }
    if i :| 0 <= i < |b| && c in b[i] {
      assert (a + b)[|a| + i] == b[i];
    }
  }

  lemma SpelledInOne(word: string, c: char)
    ensures Spelled(if word == "" then [] else [word], c) <==> c in word
  {
    if c in word {
      assert [word][0] == word;
    }
  }

  lemma {:induction false} CharsAreInSegments(path: string, pending: string, c: char)
    requires c != '/'
    ensures Spelled(SplitFrom(path, pending), c) <==> c in pending || c in path
    decreases path
  {
    SpelledInOne(pending, c);
    if path != "" {
      assert c in path <==> c == path[0] || c in path[1..];
      if path[0] == '/' {
        CharsAreInSegments(path[1..], "", c);
        SpelledInEither(if pending == "" then [] else [pending], SplitFrom(path[1..], ""), c);
      } else {
        CharsAreInSegments(path[1..], pending + [path[0]], c);
      }
    }
  }

  /** For a valid path the test by characters decides whether a segment is a parameter or a wildcard. */
  lemma FuzzyIff(path: string)
    requires ValidPath(path)
    ensures IsFuzzyPattern(path) <==>
      exists i :: 0 <= i < |Split(path)| && (IsParam(Split(path)[i]) || IsWildcard(Split(path)[i]))
  {
    var segments := Split(path);
    CharsAreInSegments(path, "", ':');
    CharsAreInSegments(path, "", '*');
    SplitYieldsSegments(path, "");
    hide Split;
    forall i | 0 <= i < |segments|
      ensures ':' in segments[i] || '*' in segments[i] <==> IsParam(segments[i]) || IsWildcard(segments[i])
    {
      assert GoodSegment(segments, i) && IsSegment(segments[i]);
    }
  }

  /** What a lookup is defined to return: the exact table first, then the registered patterns. */
  function LookUp(exact: map<string, Handler>, patterns: seq<Route>, path: string): Option<Hit> {
    if path in exact then Some(Hit(exact[path], map[])) else ScanResult(patterns, Split(path))
  }

  /** Every pattern is the route of a valid path. */
  ghost predicate FromPaths(patterns: seq<Route>, paths: seq<string>) {
    && |patterns| == |paths|
    && forall i :: 0 <= i < |paths| ==>
         ValidPath(paths[i]) && patterns[i] == RouteFor(Split(paths[i]), patterns[i].target.handler)
  }

  /** Pattern path serves request path: its parameters are bound exactly unless a reserved segment stands at one. */
  ghost predicate Serves(pattern: string, path: string, params: map<string, string>) {
    var keys, segments := Keys(Split(pattern)), Split(path);
    && Matches(keys, segments)
    && if EndsGreedily(keys, segments) then params == map[]
       else BindsExactly(params, Split(pattern), segments) <==> ParamsAreOrdinary(Split(pattern), segments)
  }

  ghost predicate PathMatches(pattern: string, path: string) {
    Matches(Keys(Split(pattern)), Split(path))
  }

  /** Of the patterns that match a path, number i ranks first, and is the last one registered of its shape. */
  ghost predicate IsFirst(paths: seq<string>, i: nat, path: string)
    requires i < |paths|
  {
    forall j :: 0 <= j < |paths| && PathMatches(paths[j], path) ==>
      if Keys(Split(paths[j])) == Keys(Split(paths[i])) then j <= i
      else Before(Keys(Split(paths[i])), Keys(Split(paths[j])), Split(path))
  }

  /** Nothing is scanned iff no registered path matches. */
  lemma ScanFindsIff(patterns: seq<Route>, paths: seq<string>, path: string)
    requires FromPaths(patterns, paths)
    ensures ScanResult(patterns, Split(path)).Some? <==> exists i :: 0 <= i < |paths| && PathMatches(paths[i], path)
  {
    hide ValidPath, Split, Keys, Names, Outcome, Matches;
    ScanIsFirstMatch(patterns, Split(path));
    assert forall i :: 0 <= i < |paths| ==> patterns[i] in patterns && patterns[i].keys == Keys(Split(paths[i]));
  }

  lemma FromPathsSnoc(patterns: seq<Route>, paths: seq<string>, path: string, handler: Handler)
    requires FromPaths(patterns, paths) && ValidPath(path)
    ensures FromPaths(patterns + [RouteFor(Split(path), handler)], paths + [path])
  {
  }

  /** What the scan returns for registered paths is served by the first of them, with its handler. */
  lemma ScanServes(patterns: seq<Route>, paths: seq<string>, path: string) returns (i: nat)
    requires FromPaths(patterns, paths) && ScanResult(patterns, Split(path)).Some?
    ensures i < |paths| && patterns[i].target.handler == ScanResult(patterns, Split(path)).value.handler
    ensures Serves(paths[i], path, ScanResult(patterns, Split(path)).value.params) && IsFirst(paths, i, path)
  {
    hide Serves, ValidPath, Split, Keys, Names, Outcome, Matches, Before;
    var segments := Split(path);
    ScanIsFirstMatch(patterns, segments);
    i := ScanPlace(patterns, segments);
    var best := Scan(patterns, segments).value;
    ValidPathGivesGoodRoute(paths[i], best.target.handler);
    ParamsAreTheSegments(Split(paths[i]), best.target.handler, segments);
    ServesUnfolds(paths[i], best.target.handler, path);
    assert forall j :: 0 <= j < |paths| ==> patterns[j] in patterns && patterns[j].keys == Keys(Split(paths[j]));
  }

  lemma ServesUnfolds(pattern: string, handler: Handler, path: string)
    requires Matches(Keys(Split(pattern)), Split(path)) && DistinctNames(Split(pattern))
    ensures var r := RouteFor(Split(pattern), handler);
      var hit := Outcome(r.keys, r.target, Split(path), []);
      Serves(pattern, path, hit.params) && hit.handler == handler
  {
    hide Split;
    ParamsAreTheSegments(Split(pattern), handler, Split(path));
  }

  class HttpRouter {
    var exactRoutes: map<string, Handler>
    var fuzzyRoutes: RouteTrie?
    var routeCount: int
    ghost var patterns: seq<Route>  // every accepted pattern, in order of registration
    ghost var paths: seq<string>    // the paths they were registered with
    ghost var repr: set<object>

    ghost predicate Valid()
      reads this, repr
    {
      && this in repr
      && GreedyRoutesAreLast(patterns) && FromPaths(patterns, paths)
      && (fuzzyRoutes == null ==> patterns == [])
      && (fuzzyRoutes != null ==>
            && fuzzyRoutes in repr && fuzzyRoutes.repr <= repr
            && fuzzyRoutes.Valid() && fuzzyRoutes.Abs() == Build(patterns))
    }

    constructor ()
      ensures Valid() && fresh(repr)
      ensures exactRoutes == map[] && patterns == [] && paths == [] && routeCount == 0
    {
      exactRoutes, fuzzyRoutes, routeCount := map[], null, 0;
      patterns, paths, repr := [], [], {this};
    }

    /** An invalid path changes nothing; otherwise patterns go to the trie and the rest to the table. */
    method AddHandler(path: string, handler: Handler)
      requires Valid()
      modifies repr
      ensures Valid() && fresh(repr - old(repr))
      ensures exactRoutes ==
        if ValidPath(path) && !IsFuzzyPattern(path) then old(exactRoutes)[path := handler] else old(exactRoutes)
      ensures patterns ==
        if ValidPath(path) && IsFuzzyPattern(path) then old(patterns) + [RouteFor(Split(path), handler)]
        else old(patterns)
      ensures paths == if ValidPath(path) && IsFuzzyPattern(path) then old(paths) + [path] else old(paths)
      ensures routeCount == old(routeCount) +
        if ValidPath(path) && (IsFuzzyPattern(path) || path !in old(exactRoutes)) then 1 else 0
    {
      hide RouteTrie.Valid, RouteTrie.Abs, Build, ValidPath, RouteFor, Split, GreedyIsLast;
      var valid := ValidatePath(path);
      if !valid {
        return;
      }
      if IsFuzzyPattern(path) {
        AddPattern(path, handler);
      } else {
        var isNewRoute := path !in exactRoutes;
        exactRoutes := exactRoutes[path := handler];
        if isNewRoute {
          routeCount := routeCount + 1;
        }
      }
    }

    /** The trie is created by the first pattern. */
    method EnsureTrie() returns (trie: RouteTrie)
      requires Valid()
      modifies this
      ensures Valid() && fresh(repr - old(repr)) && fuzzyRoutes == trie
      ensures exactRoutes == old(exactRoutes) && routeCount == old(routeCount)
      ensures patterns == old(patterns) && paths == old(paths)
    {
      hide RouteTrie.Valid, RouteTrie.Abs, Build;
      if fuzzyRoutes == null {
        fuzzyRoutes := new RouteTrie();
        repr := {this, fuzzyRoutes} + fuzzyRoutes.repr;
      }
      trie := fuzzyRoutes;
    }

    method AddPattern(path: string, handler: Handler)
      requires Valid() && ValidPath(path)
      modifies repr
      ensures Valid() && fresh(repr - old(repr))
      ensures exactRoutes == old(exactRoutes) && routeCount == old(routeCount) + 1
      ensures patterns == old(patterns) + [RouteFor(Split(path), handler)] && paths == old(paths) + [path]
    {
      hide RouteTrie.Valid, RouteTrie.Abs, Build, Insert, ValidPath, Split, RouteFor, GreedyIsLast, FromPaths;
      FromPathsSnoc(patterns, paths, path, handler);
      ValidPathGivesGoodRoute(path, handler);
      var trie := EnsureTrie();
      var segments := SplitPath(path);
      ghost var r := RouteFor(segments, handler);
      BuildSnoc(patterns, r);
      trie.InsertRoute(segments, handler);
      repr := repr + trie.repr;
      patterns, paths := patterns + [r], paths + [path];
      routeCount := routeCount + 1;
    }

    /** Exact table first, then the trie: always the scan over the registered patterns. */
    method FindHandler(path: string) returns (handler: Option<Handler>, params: map<string, string>)
      requires Valid()
      ensures match LookUp(exactRoutes, patterns, path)
        case None => handler == None && params == map[]
        case Some(hit) => handler == Some(hit.handler) && params == hit.params
      ensures path in exactRoutes ==> handler == Some(exactRoutes[path]) && params == map[]
      ensures handler == None <==>
        path !in exactRoutes && forall i :: 0 <= i < |paths| ==> !PathMatches(paths[i], path)
      ensures path !in exactRoutes && handler.Some? ==>
        exists i :: 0 <= i < |paths| && patterns[i].target.handler == handler.value &&
                    Serves(paths[i], path, params) && IsFirst(paths, i, path)
    {
      hide FromPaths, Serves, IsFirst, PathMatches, RouteTrie.Abs, Build;
      if path in exactRoutes {
        return Some(exactRoutes[path]), map[];
      }
      ScanFindsIff(patterns, paths, path);
      if ScanResult(patterns, Split(path)).Some? {
        ghost var i := ScanServes(patterns, paths, path);
      }
      SearchRefinesScan(patterns, Split(path));
      if fuzzyRoutes != null {
        var segments := SplitPath(path);
        ghost var entered;
        handler, params, entered := fuzzyRoutes.SearchRoute(segments);
      } else {
        handler, params := None, map[];
      }
    }

    /** Only exact routes can be removed. */
    method DelHandler(path: string) returns (removed: bool)
      requires Valid()
      modifies this
      ensures Valid() && repr == old(repr) && patterns == old(patterns) && paths == old(paths)
      ensures removed <==> path in old(exactRoutes)
      ensures exactRoutes == old(exactRoutes) - {path}
      ensures routeCount == old(routeCount) - if removed then 1 else 0
    {
      if path in exactRoutes {
        exactRoutes := exactRoutes - {path};
        routeCount := routeCount - 1;
        return true;
      }
      assert exactRoutes - {path} == exactRoutes;
      return false;
    }
  }

  lemma BuildSnoc(routes: seq<Route>, r: Route)
    ensures Build(routes + [r]) == Insert(Build(routes), r)
  {
    assert (routes + [r])[..|routes|] == routes;
  }
}
