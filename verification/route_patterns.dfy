/**
  * Route patterns, what they match, which match wins, and the trie of patterns as a value.
  * The trie search is proved to be a prioritised linear scan over the registered patterns.
  */
module RoutePatterns {
  import opened Prelude

  /** Handlers are opaque to routing; a number names one. */
  type Handler = nat

  /** A trie edge: a literal segment or one of the reserved keys. */
  type Key = string

  const PARAM: Key := ":param"
  const STAR: Key := "*"
  const GREEDY: Key := "**"

  predicate IsParam(segment: string) {
    segment != "" && segment[0] == ':'
  }

  /** All parameter segments share one key. */
  function KeyOf(segment: string): Key {
    if IsParam(segment) then PARAM else segment
  }

  function Keys(segments: seq<string>): (r: seq<Key>)
    ensures |r| == |segments|
  {
    if segments == [] then [] else Keys(segments[..|segments| - 1]) + [KeyOf(segments[|segments| - 1])]
  }

  /** Parameter names, colon dropped, in order of appearance. */
  function Names(segments: seq<string>): seq<string> {
    if segments == [] then []
    else
      var last := segments[|segments| - 1];
      Names(segments[..|segments| - 1]) + if IsParam(last) then [last[1..]] else []
  }

  datatype Target = Target(handler: Handler, names: seq<string>)

  datatype Route = Route(keys: seq<Key>, target: Target)

  function RouteFor(segments: seq<string>, handler: Handler): Route {
    Route(Keys(segments), Target(handler, Names(segments)))
  }

  // ----- matching a request -----

  /** A greedy wildcard takes one or more remaining segments and only ever ends a pattern. */
  predicate Matches(keys: seq<Key>, request: seq<string>)
    decreases request
  {
    if request == [] then keys == []
    else if keys == [] then false
    else if keys == [GREEDY] then true
    else
      && keys[0] != GREEDY
      && (keys[0] == request[0] || keys[0] == PARAM || keys[0] == STAR)
      && Matches(keys[1..], request[1..])
  }

  /** Equality comes first, then parameters, then `*`, then `**`. */
  function Rank(key: Key, request: seq<string>): nat
    requires request != []
  {
    if key == request[0] && (key == GREEDY ==> |request| == 1) then 0
    else if key == PARAM then 1
    else if key == STAR then 2
    else if key == GREEDY then 3
    else 4
  }

  /** Lexicographic priority of two patterns for one request. */
  predicate Before(a: seq<Key>, b: seq<Key>, request: seq<string>)
    decreases request
  {
    && request != [] && a != [] && b != []
    && if a[0] == b[0] then Before(a[1..], b[1..], request[1..]) else Rank(a[0], request) < Rank(b[0], request)
  }

  /** A request segment spelled like the reserved key takes the equality edge and is not captured. */
  function Captured(keys: seq<Key>, request: seq<string>): seq<string>
    decreases request
  {
    if keys == [] || request == [] then []
    else (if keys[0] == PARAM && request[0] != PARAM then [request[0]] else []) + Captured(keys[1..], request[1..])
  }

  /** Later names overwrite earlier ones; surplus names or values are dropped. */
  function Bind(names: seq<string>, values: seq<string>): map<string, string> {
    if names == [] || values == [] then map[]
    else
      var n := Min(|names|, |values|) - 1;
      Bind(names[..n], values[..n])[names[n] := values[n]]
  }

  datatype Hit = Hit(handler: Handler, params: map<string, string>)

  /** Whether the last key swallowed the rest of the request instead of standing for one equal segment. */
  predicate EndsGreedily(keys: seq<Key>, request: seq<string>) {
    && keys != [] && keys[|keys| - 1] == GREEDY
    && !(|keys| == |request| && request[|request| - 1] == GREEDY)
  }

  function Outcome(keys: seq<Key>, target: Target, request: seq<string>, values: seq<string>): Hit {
    Hit(target.handler,
        if EndsGreedily(keys, request) then map[] else Bind(target.names, values + Captured(keys, request)))
  }

  /** The reference: scan all routes; the best match wins and of equal patterns the last one. */
  function Scan(routes: seq<Route>, request: seq<string>): Option<Route> {
    if routes == [] then None
    else
      var best, r := Scan(routes[..|routes| - 1], request), routes[|routes| - 1];
      if Matches(r.keys, request) && (best.Some? ==> !Before(best.value.keys, r.keys, request)) then Some(r) else best
  }

  function ScanResult(routes: seq<Route>, request: seq<string>): Option<Hit> {
    match Scan(routes, request)
    case None => None
    case Some(r) => Some(Outcome(r.keys, r.target, request, []))
  }

  // ----- priority is a strict total order on the patterns that match -----

  lemma {:induction false} MatchesAreComparable(a: seq<Key>, b: seq<Key>, request: seq<string>)
    requires Matches(a, request) && Matches(b, request)
    ensures a == b || Before(a, b, request) || Before(b, a, request)
    ensures !(Before(a, b, request) && Before(b, a, request))
    ensures a == b ==> !Before(a, b, request)
    decreases request
  {
    if request != [] && a[0] == b[0] {
      assert a == [a[0]] + a[1..] && b == [b[0]] + b[1..];
      if a[0] != GREEDY {
        MatchesAreComparable(a[1..], b[1..], request[1..]);
      }
    }
  }

  lemma {:induction false} BeforeIsTransitive(a: seq<Key>, b: seq<Key>, c: seq<Key>, request: seq<string>)
    requires Before(a, b, request) && Before(b, c, request)
    ensures Before(a, c, request)
    decreases request
  {
    if a[0] == b[0] && b[0] == c[0] {
      BeforeIsTransitive(a[1..], b[1..], c[1..], request[1..]);
    }
  }

  /** The scan finds a first match, and nothing only when nothing matches. */
  lemma {:induction false} ScanIsFirstMatch(routes: seq<Route>, request: seq<string>)
    ensures match Scan(routes, request)
      case None => forall r :: r in routes ==> !Matches(r.keys, request)
      case Some(best) =>
        && best in routes && Matches(best.keys, request)
        && (forall r :: r in routes && Matches(r.keys, request) ==>
              r.keys == best.keys || Before(best.keys, r.keys, request))
  {
    if routes != [] {
      var init, last := routes[..|routes| - 1], routes[|routes| - 1];
      assert routes == init + [last];
      ScanIsFirstMatch(init, request);
      var best := Scan(init, request);
      if best.Some? && Matches(last.keys, request) {
        MatchesAreComparable(best.value.keys, last.keys, request);
        forall r | r in init && Matches(r.keys, request) && Before(last.keys, best.value.keys, request)
          ensures r.keys == last.keys || Before(last.keys, r.keys, request)
        {
          if r.keys != best.value.keys {
            BeforeIsTransitive(last.keys, best.value.keys, r.keys, request);
          }
        }
      }
    }
  }

  /** A segment stands where a key allows it: spelled alike, or under a parameter or single wildcard. */
  predicate Allows(key: Key, segment: string) {
    key == segment || key == ":param" || key == "*"
  }

  /**
    * Matching without recursion: key by key over the whole request, or up to a final `**` that takes
    * at least one segment.
    */
  lemma {:induction false} MatchesIff(keys: seq<Key>, request: seq<string>)
    requires forall i :: 0 <= i < |keys| - 1 ==> keys[i] != "**"
    ensures var n := |keys|;
      Matches(keys, request) <==>
        if n > 0 && keys[n - 1] == "**" then
          n <= |request| && forall i :: 0 <= i < n - 1 ==> Allows(keys[i], request[i])
        else n == |request| && forall i :: 0 <= i < n ==> Allows(keys[i], request[i])
    decreases request
  {
    if request != [] && keys != [] && keys != [GREEDY] {
      var ks, rs := keys[1..], request[1..];
      assert forall i :: 0 <= i < |ks| ==> ks[i] == keys[i + 1];
      assert forall i :: 0 <= i < |rs| ==> rs[i] == request[i + 1];
      MatchesIff(ks, rs);
      if Matches(ks, rs) && Matches(keys, request) {
        assert forall i :: 0 < i < |keys| ==> keys[i] == ks[i - 1];
        assert forall i :: 0 < i < |request| ==> request[i] == rs[i - 1];
      }
    }
  }

  /** The scan returns the last route registered of its shape. */
  lemma {:induction false} ScanPlace(routes: seq<Route>, request: seq<string>) returns (i: nat)
    requires Scan(routes, request).Some?
    ensures i < |routes| && routes[i] == Scan(routes, request).value
    ensures forall j :: i < j < |routes| ==> routes[j].keys != routes[i].keys
  {
    var n := |routes| - 1;
    var init := routes[..n];
    ScanIsFirstMatch(routes, request);
    if Scan(routes, request) == Some(routes[n]) {
      i := n;
    } else {
      i := ScanPlace(init, request);
      MatchesAreComparable(init[i].keys, init[i].keys, request);
    }
  }

  /**
    * Priority without ranks: where two matching patterns first differ, the segment spelled out wins,
    * then a parameter, then the single wildcard.
    */
  lemma {:induction false} FirstDifferenceDecides(a: seq<Key>, b: seq<Key>, request: seq<string>, i: nat)
    requires Matches(a, request) && Matches(b, request)
    requires i < |a| && i < |b| && a[..i] == b[..i] && a[i] != b[i] && i < |request|
    ensures Before(a, b, request) <==>
      if a[i] == "**" then |request| == i + 1 && request[i] == "**"
      else if a[i] == request[i] then true
      else if b[i] == "**" then !(|request| == i + 1 && request[i] == "**")
      else b[i] != request[i] && a[i] == ":param"
    decreases i
  {
    if i > 0 {
      assert a[0] == a[..i][0] == b[..i][0] == b[0];
      assert a[1..][..i - 1] == a[..i][1..] && b[1..][..i - 1] == b[..i][1..];
      FirstDifferenceDecides(a[1..], b[1..], request[1..], i - 1);
    }
  }

  // ----- the trie as a value -----

  type Trie = map<seq<Key>, Option<Target>>

  function AddPath(t: Trie, keys: seq<Key>): Trie {
    var t' := if keys == [] then t else AddPath(t, keys[..|keys| - 1]);
    if keys in t' then t' else t'[keys := None]
  }

  function Insert(t: Trie, r: Route): Trie {
    AddPath(t, r.keys)[r.keys := Some(r.target)]
  }

  function Build(routes: seq<Route>): Trie {
    if routes == [] then map[[] := None] else Insert(Build(routes[..|routes| - 1]), routes[|routes| - 1])
  }

  /** The backtracking search, in the order the edges are tried. */
  function Search(t: Trie, path: seq<Key>, request: seq<string>, values: seq<string>): Option<Hit>
    requires path in t
    decreases request, 0
  {
    if request == [] then
      match t[path]
      case None => None
      case Some(target) => Some(Hit(target.handler, Bind(target.names, values)))
    else
      var viaExact := Follow(t, path, request[0], request[1..], values);
      if viaExact.Some? then viaExact else
      var viaParam := Follow(t, path, PARAM, request[1..], values + [request[0]]);
      if viaParam.Some? then viaParam else
      var viaStar := Follow(t, path, STAR, request[1..], values);
      if viaStar.Some? then viaStar else
      if path + [GREEDY] in t && t[path + [GREEDY]].Some? then Some(Hit(t[path + [GREEDY]].value.handler, map[]))
      else None
  }

  function Follow(t: Trie, path: seq<Key>, key: Key, rest: seq<string>, values: seq<string>): Option<Hit>
    decreases rest, 1
  {
    if path + [key] in t then Search(t, path + [key], rest, values) else None
  }

  ghost predicate EndsAt(t: Trie, path: seq<Key>) {
    path in t && t[path].Some?
  }

  function Parent(path: seq<Key>): seq<Key> {
    if path == [] then [] else path[..|path| - 1]
  }

  ghost predicate PrefixClosed(t: Trie) {
    [] in t && forall p {:trigger Parent(p)} :: p in t ==> Parent(p) in t
  }

  /** Nothing hangs below a greedy wildcard. */
  ghost predicate GreedyIsLast(keys: seq<Key>) {
    forall i :: 0 <= i < |keys| - 1 ==> keys[i] != GREEDY
  }

  ghost predicate GreedyNodesAreLeaves(t: Trie) {
    forall p :: p in t ==> GreedyIsLast(p)
  }

  lemma {:induction false} AncestorIn(t: Trie, path: seq<Key>, below: seq<Key>)
    requires PrefixClosed(t) && path + below in t
    ensures path in t
    decreases |below|
  {
    if below == [] {
      assert path + below == path;
    } else {
      assert Parent(path + below) == path + below[..|below| - 1];
      AncestorIn(t, path, below[..|below| - 1]);
    }
  }

  /** What the search promises about everything below a node. */
  ghost predicate FirstMatchBelow(t: Trie, path: seq<Key>, request: seq<string>, values: seq<string>,
                                  found: Option<Hit>, k: seq<Key>)
  {
    match found
    case None => forall k2 :: EndsAt(t, path + k2) ==> !Matches(k2, request)
    case Some(hit) =>
      && EndsAt(t, path + k) && Matches(k, request)
      && hit == Outcome(k, t[path + k].value, request, values)
      && forall k2 :: EndsAt(t, path + k2) && Matches(k2, request) ==> k2 == k || Before(k, k2, request)
  }

  /** The same, restricted to the patterns that leave the node along one edge. */
  ghost predicate FirstMatchVia(t: Trie, path: seq<Key>, edge: Key, request: seq<string>, values: seq<string>,
                                found: Option<Hit>, k: seq<Key>)
    requires request != []
  {
    match found
    case None =>
      forall k2 :: ViaEdge(t, path, edge, request, k2) ==> !Matches(k2, request)
    case Some(hit) =>
      && ViaEdge(t, path, edge, request, k) && Matches(k, request)
      && hit == Outcome(k, t[path + k].value, request, values)
      && forall k2 :: ViaEdge(t, path, edge, request, k2) && Matches(k2, request) ==> k2 == k || Before(k, k2, request)
  }

  /** Registered patterns through an edge; `**` taken greedily is not an edge step. */
  ghost predicate ViaEdge(t: Trie, path: seq<Key>, edge: Key, request: seq<string>, k: seq<Key>) {
    k != [] && k[0] == edge && EndsAt(t, path + k) && !(edge == GREEDY && |request| > 1)
  }

  /** The values an edge passes on. */
  function Pass(edge: Key, segment: string, values: seq<string>): seq<string> {
    if edge == PARAM && segment != PARAM then values + [segment] else values
  }

  lemma LiftOutcome(edge: Key, k: seq<Key>, target: Target, request: seq<string>, values: seq<string>)
    requires request != [] && Matches(k, request[1..])
    requires edge == GREEDY ==> |request| == 1 && request[0] == GREEDY
    ensures Outcome(k, target, request[1..], Pass(edge, request[0], values)) ==
            Outcome([edge] + k, target, request, values)
  {
    var whole, rest := [edge] + k, request[1..];
    assert whole[1..] == k;
    assert Captured(whole, request) ==
           (if edge == PARAM && request[0] != PARAM then [request[0]] else []) + Captured(k, rest);
    assert Pass(edge, request[0], values) + Captured(k, rest) == values + Captured(whole, request);
    if k != [] {
      assert whole[|whole| - 1] == k[|k| - 1];
      assert rest != [] && request[|request| - 1] == rest[|rest| - 1];
    } else {
      assert rest == [];
    }
  }

  lemma LiftMatch(edge: Key, k: seq<Key>, request: seq<string>)
    requires request != [] && (edge == request[0] || edge == PARAM || edge == STAR)
    requires edge == GREEDY ==> k == [] && |request| == 1
    ensures Matches([edge] + k, request) <==> Matches(k, request[1..])
  {
    assert ([edge] + k)[1..] == k;
    if edge == GREEDY {
      assert [edge] + k == [GREEDY];
    } else {
      assert ([edge] + k)[0] != GREEDY;
    }
  }

  /** From the child's point of view to the parent's. */
  lemma LiftEdge(t: Trie, path: seq<Key>, edge: Key, request: seq<string>, values: seq<string>,
                 found: Option<Hit>, k: seq<Key>) returns (whole: seq<Key>)
    requires GreedyNodesAreLeaves(t) && request != []
    requires edge == request[0] || edge == PARAM || edge == STAR
    requires FirstMatchBelow(t, path + [edge], request[1..], Pass(edge, request[0], values), found, k)
    ensures FirstMatchVia(t, path, edge, request, values, found, whole)
  {
    whole := [edge] + k;
    var rest := request[1..];
    forall k2 | ViaEdge(t, path, edge, request, k2) && Matches(k2, request)
      ensures k2 == [edge] + k2[1..] && EndsAt(t, path + [edge] + k2[1..]) && Matches(k2[1..], rest)
    {
      assert k2 == [edge] + k2[1..];
      assert path + k2 == path + [edge] + k2[1..];
      if edge == GREEDY {
        GreedyEndsHere(t, path, k2);
      }
      LiftMatch(edge, k2[1..], request);
    }
    if found.Some? {
      assert path + whole == path + [edge] + k;
      if edge == GREEDY {
        GreedyEndsHere(t, path, whole);
      }
      assert |request| == 1 + |rest|;
      LiftMatch(edge, k, request);
      LiftOutcome(edge, k, t[path + whole].value, request, values);
      forall k2 | ViaEdge(t, path, edge, request, k2) && Matches(k2, request) && k2 != whole
        ensures Before(whole, k2, request)
      {
        assert k2[1..] != k;
        assert whole[1..] == k;
      }
    }
  }

  lemma GreedyEndsHere(t: Trie, path: seq<Key>, k: seq<Key>)
    requires GreedyNodesAreLeaves(t) && path + k in t && k != [] && k[0] == GREEDY
    ensures k == [GREEDY]
  {
    var p := path + k;
    assert p[|path|] == GREEDY;
    assert GreedyIsLast(p);
  }

  lemma {:induction false} FollowIsFirstMatch(t: Trie, path: seq<Key>, edge: Key,
                                              request: seq<string>, values: seq<string>)
    returns (k: seq<Key>)
    requires PrefixClosed(t) && GreedyNodesAreLeaves(t) && path in t && request != []
    requires edge == request[0] || edge == PARAM || edge == STAR
    ensures var found := Follow(t, path, edge, request[1..], Pass(edge, request[0], values));
      FirstMatchVia(t, path, edge, request, values, found, k)
    decreases request, 0
  {
    if path + [edge] in t {
      var k' := SearchIsFirstMatch(t, path + [edge], request[1..], Pass(edge, request[0], values));
      var found := Follow(t, path, edge, request[1..], Pass(edge, request[0], values));
      k := LiftEdge(t, path, edge, request, values, found, k');
    } else {
      k := [];
      forall k2 | ViaEdge(t, path, edge, request, k2) ensures false {
        assert path + k2 == path + [edge] + k2[1..];
        AncestorIn(t, path + [edge], k2[1..]);
      }
    }
  }

  lemma {:induction false} SearchIsFirstMatch(t: Trie, path: seq<Key>, request: seq<string>, values: seq<string>)
    returns (k: seq<Key>)
    requires PrefixClosed(t) && GreedyNodesAreLeaves(t) && path in t
    ensures FirstMatchBelow(t, path, request, values, Search(t, path, request, values), k)
    decreases request, 1
  {
    if request == [] {
      k := [];
      assert path + [] == path;
      assert values + [] == values;
    } else {
      var r0, rest := request[0], request[1..];
      var exact := Follow(t, path, r0, rest, values);
      var kExact := FollowIsFirstMatch(t, path, r0, request, values);
      if exact.Some? {
        return kExact;
      }
      var param := Follow(t, path, PARAM, rest, values + [r0]);
      var kParam := FollowIsFirstMatch(t, path, PARAM, request, values);
      if r0 == PARAM {
        ValuesDoNotDecide(t, path, PARAM, rest, values, values + [r0]);
      }
      if param.Some? {
        return kParam;
      }
      var star := Follow(t, path, STAR, rest, values);
      var kStar := FollowIsFirstMatch(t, path, STAR, request, values);
      if star.Some? {
        return kStar;
      }
      k := [GREEDY];
      if EndsAt(t, path + k) {
        assert ViaEdge(t, path, GREEDY, request, k) || |request| > 1;
        assert EndsGreedily(k, request);
      }
    }
  }

  /** Captured values never decide whether a search succeeds. */
  lemma {:induction false} ValuesDoNotDecide(t: Trie, path: seq<Key>, edge: Key, rest: seq<string>,
                                             v: seq<string>, w: seq<string>)
    ensures Follow(t, path, edge, rest, v).Some? <==> Follow(t, path, edge, rest, w).Some?
    decreases rest
  {
    if path + [edge] in t && rest != [] {
      var p := path + [edge];
      ValuesDoNotDecide(t, p, rest[0], rest[1..], v, w);
      ValuesDoNotDecide(t, p, PARAM, rest[1..], v + [rest[0]], w + [rest[0]]);
      ValuesDoNotDecide(t, p, STAR, rest[1..], v, w);
    }
  }

  // ----- the built trie holds exactly the last target of every registered pattern -----

  function LastTarget(routes: seq<Route>, keys: seq<Key>): Option<Target> {
    if routes == [] then None
    else if routes[|routes| - 1].keys == keys then Some(routes[|routes| - 1].target)
    else LastTarget(routes[..|routes| - 1], keys)
  }

  ghost predicate GreedyRoutesAreLast(routes: seq<Route>) {
    forall r :: r in routes ==> GreedyIsLast(r.keys)
  }

  lemma {:induction false} AddPathKeeps(t: Trie, keys: seq<Key>)
    requires PrefixClosed(t) && GreedyNodesAreLeaves(t) && GreedyIsLast(keys)
    ensures PrefixClosed(AddPath(t, keys)) && GreedyNodesAreLeaves(AddPath(t, keys))
    ensures keys in AddPath(t, keys)
    ensures forall k :: k in t ==> k in AddPath(t, keys) && AddPath(t, keys)[k] == t[k]
    ensures forall k :: k in AddPath(t, keys) && k !in t ==> AddPath(t, keys)[k] == None
  {
    if keys != [] {
      var init := keys[..|keys| - 1];
      AddPathKeeps(t, init);
      assert Parent(keys) == init;
    }
  }

  lemma {:induction false} BuildHolds(routes: seq<Route>)
    requires GreedyRoutesAreLast(routes)
    ensures PrefixClosed(Build(routes)) && GreedyNodesAreLeaves(Build(routes))
    ensures forall k :: k in Build(routes) ==> Build(routes)[k] == LastTarget(routes, k)
    ensures forall r :: r in routes ==> EndsAt(Build(routes), r.keys)
  {
    if routes != [] {
      var init, last := routes[..|routes| - 1], routes[|routes| - 1];
      assert routes == init + [last];
      BuildHolds(init);
      AddPathKeeps(Build(init), last.keys);
      forall k | k in Build(routes) && k !in Build(init) && k != last.keys ensures LastTarget(init, k) == None {
        LastTargetComesFromARoute(init, k);
      }
    }
  }

  lemma {:induction false} LastTargetComesFromARoute(routes: seq<Route>, keys: seq<Key>)
    ensures LastTarget(routes, keys).Some? ==>
      exists r :: r in routes && r.keys == keys && Some(r.target) == LastTarget(routes, keys)
  {
    if routes != [] {
      var init, last := routes[..|routes| - 1], routes[|routes| - 1];
      assert routes == init + [last];
      LastTargetComesFromARoute(init, keys);
    }
  }

  /** Of the routes sharing the best pattern, the scan returns the last one. */
  lemma {:induction false} ScanReturnsLastTarget(routes: seq<Route>, request: seq<string>)
    ensures match Scan(routes, request)
      case None => true
      case Some(r) => LastTarget(routes, r.keys) == Some(r.target)
  {
    if routes != [] {
      var init, last := routes[..|routes| - 1], routes[|routes| - 1];
      ScanReturnsLastTarget(init, request);
      ScanIsFirstMatch(init, request);
      var best := Scan(init, request);
      if best.Some? && best.value.keys == last.keys {
        MatchesAreComparable(best.value.keys, last.keys, request);
      }
    }
  }

  /**
    * The trie refines the scan: for every sequence of registrations and every request, with no
    * exception for segments spelled like reserved keys.
    */
  lemma SearchRefinesScan(routes: seq<Route>, request: seq<string>)
    requires GreedyRoutesAreLast(routes)
    ensures [] in Build(routes)
    ensures Search(Build(routes), [], request, []) == ScanResult(routes, request)
  {
    var t := Build(routes);
    BuildHolds(routes);
    var k := SearchIsFirstMatch(t, [], request, []);
    ScanIsFirstMatch(routes, request);
    ScanReturnsLastTarget(routes, request);
    var scan, found := Scan(routes, request), Search(t, [], request, []);
    if scan.Some? {
      assert EndsAt(t, [] + scan.value.keys) by {
        assert [] + scan.value.keys == scan.value.keys;
      }
    }
    if found.Some? {
      assert [] + k == k;
      LastTargetComesFromARoute(routes, k);
      MatchesAreComparable(k, scan.value.keys, request);
    }
  }

  // ----- captured parameters -----

  lemma {:induction false} FullMatchLength(keys: seq<Key>, request: seq<string>)
    requires Matches(keys, request) && !EndsGreedily(keys, request)
    ensures |keys| == |request|
    decreases request
  {
    if request != [] && keys != [GREEDY] {
      if keys[1..] != [] {
        assert keys[1..][|keys[1..]| - 1] == keys[|keys| - 1];
        assert request[1..] != [] && request[1..][|request| - 2] == request[|request| - 1];
      }
      FullMatchLength(keys[1..], request[1..]);
    }
  }

  lemma {:induction false} CapturedSnoc(keys: seq<Key>, key: Key, request: seq<string>, segment: string)
    requires |keys| == |request|
    ensures Captured(keys + [key], request + [segment]) ==
            Captured(keys, request) + if key == PARAM && segment != PARAM then [segment] else []
    decreases keys
  {
    if keys == [] {
      assert [] + [key] == [key] && [] + [segment] == [segment];
    } else {
      assert (keys + [key])[1..] == keys[1..] + [key];
      assert (request + [segment])[1..] == request[1..] + [segment];
      CapturedSnoc(keys[1..], key, request[1..], segment);
    }
  }

  ghost predicate DistinctNames(segments: seq<string>) {
    forall i, j :: 0 <= i < j < |segments| && IsParam(segments[i]) && IsParam(segments[j]) ==>
      segments[i] != segments[j]
  }

  /** Every parameter is bound to the segment at its own place, and nothing else is bound. */
  ghost predicate BindsExactly(m: map<string, string>, pattern: seq<string>, request: seq<string>) {
    && |pattern| == |request|
    && m.Keys == (set n | n in Names(pattern))
    && forall i :: 0 <= i < |pattern| && IsParam(pattern[i]) ==> BindsAt(m, pattern[i][1..], request[i])
  }

  ghost predicate BindsAt(m: map<string, string>, name: string, value: string) {
    name in m && m[name] == value
  }

  lemma BindOneMore(m: map<string, string>, init: seq<string>, param: string, request: seq<string>, value: string)
    requires BindsExactly(m, init, request) && IsParam(param)
    requires forall i :: 0 <= i < |init| && IsParam(init[i]) ==> init[i] != param
    ensures BindsExactly(m[param[1..] := value], init + [param], request + [value])
  {
    var m' := m[param[1..] := value];
    assert (init + [param])[..|init|] == init;
    forall i | 0 <= i <= |init| && IsParam((init + [param])[i])
      ensures BindsAt(m', (init + [param])[i][1..], (request + [value])[i])
    {
      if i < |init| {
        assert BindsAt(m, init[i][1..], request[i]);
        assert init[i] == [':'] + init[i][1..] && param == [':'] + param[1..];
      }
    }
  }

  lemma BindSnoc(names: seq<string>, values: seq<string>, name: string, value: string)
    requires |names| == |values|
    ensures Bind(names + [name], values + [value]) == Bind(names, values)[name := value]
  {
    assert (names + [name])[..|names|] == names && (values + [value])[..|names|] == values;
  }

  /** No parameter stands opposite a segment spelled like the reserved key. */
  predicate ParamsAreOrdinary(pattern: seq<string>, request: seq<string>) {
    && |pattern| == |request|
    && forall i :: 0 <= i < |pattern| && IsParam(pattern[i]) ==> request[i] != PARAM
  }

  /** One value is captured per parameter exactly when none stands opposite the reserved key. */
  lemma {:induction false} CapturedCount(pattern: seq<string>, request: seq<string>)
    requires |pattern| == |request|
    ensures |Captured(Keys(pattern), request)| <= |Names(pattern)|
    ensures |Captured(Keys(pattern), request)| == |Names(pattern)| <==> ParamsAreOrdinary(pattern, request)
  {
    if pattern != [] {
      var n := |pattern| - 1;
      var init, front := pattern[..n], request[..n];
      assert request == front + [request[n]] && pattern == init + [pattern[n]];
      CapturedCount(init, front);
      CapturedSnoc(Keys(init), KeyOf(pattern[n]), front, request[n]);
      assert forall i :: 0 <= i < n ==> init[i] == pattern[i] && front[i] == request[i];
    }
  }

  /** One value per parameter, and no two parameters share a name: the binding is exact. */
  lemma {:induction false} BindIsExact(pattern: seq<string>, request: seq<string>)
    requires DistinctNames(pattern) && ParamsAreOrdinary(pattern, request)
    ensures |Names(pattern)| == |Captured(Keys(pattern), request)|
    ensures BindsExactly(Bind(Names(pattern), Captured(Keys(pattern), request)), pattern, request)
  {
    if pattern != [] {
      var n := |pattern| - 1;
      var init, last, front := pattern[..n], pattern[n], request[..n];
      assert request == front + [request[n]] && pattern == init + [last];
      BindIsExact(init, front);
      CapturedSnoc(Keys(init), KeyOf(last), front, request[n]);
      var names, values := Names(init), Captured(Keys(init), front);
      if IsParam(last) {
        BindSnoc(names, values, last[1..], request[n]);
        BindOneMore(Bind(names, values), init, last, front, request[n]);
      } else {
        assert Names(pattern) == names;
        assert Captured(Keys(pattern), request) == values by {
          assert values + [] == values;
        }
      }
    }
  }

  /** Only as many names are bound as there are values. */
  lemma {:induction false} BoundNames(names: seq<string>, values: seq<string>, name: string)
    requires name in Bind(names, values)
    ensures exists i :: 0 <= i < |values| && i < |names| && names[i] == name
    decreases |names|
  {
    var n := Min(|names|, |values|) - 1;
    if name != names[n] {
      BoundNames(names[..n], values[..n], name);
    }
  }

  lemma {:induction false} NamesAreDistinct(pattern: seq<string>)
    requires DistinctNames(pattern)
    ensures forall i, j :: 0 <= i < j < |Names(pattern)| ==> Names(pattern)[i] != Names(pattern)[j]
  {
    if pattern != [] {
      var n := |pattern| - 1;
      NamesAreDistinct(pattern[..n]);
      if IsParam(pattern[n]) {
        forall i | 0 <= i < |Names(pattern[..n])| ensures Names(pattern[..n])[i] != pattern[n][1..] {
          var k := NameComesFrom(pattern[..n], i);
          assert pattern[k] == [':'] + pattern[k][1..] && pattern[n] == [':'] + pattern[n][1..];
        }
      }
    }
  }

  lemma {:induction false} NameComesFrom(pattern: seq<string>, i: nat) returns (k: nat)
    requires i < |Names(pattern)|
    ensures k < |pattern| && IsParam(pattern[k]) && pattern[k][1..] == Names(pattern)[i]
  {
    var n := |pattern| - 1;
    if i < |Names(pattern[..n])| {
      k := NameComesFrom(pattern[..n], i);
    } else {
      k := n;
    }
  }

  /** With fewer values than names some parameter stays unbound. */
  lemma TooFewValues(pattern: seq<string>, request: seq<string>, values: seq<string>)
    requires DistinctNames(pattern) && |values| < |Names(pattern)|
    ensures !BindsExactly(Bind(Names(pattern), values), pattern, request)
  {
    var names := Names(pattern);
    NamesAreDistinct(pattern);
    if names[|values|] in Bind(names, values) {
      BoundNames(names, values, names[|values|]);
    }
  }

  /**
    * What a handler sees. A pattern matched segment by segment binds exactly its parameters, each to
    * the request segment at its place, iff none of those segments is spelled `:param`; a greedy
    * match binds nothing.
    */
  lemma ParamsAreTheSegments(pattern: seq<string>, handler: Handler, request: seq<string>)
    requires DistinctNames(pattern) && Matches(Keys(pattern), request)
    ensures var r := RouteFor(pattern, handler);
      var m := Outcome(r.keys, r.target, request, []).params;
      if EndsGreedily(r.keys, request) then m == map[]
      else BindsExactly(m, pattern, request) <==> ParamsAreOrdinary(pattern, request)
  {
    var r := RouteFor(pattern, handler);
    if !EndsGreedily(r.keys, request) {
      FullMatchLength(r.keys, request);
      assert [] + Captured(r.keys, request) == Captured(r.keys, request);
      CapturedCount(pattern, request);
      if ParamsAreOrdinary(pattern, request) {
        BindIsExact(pattern, request);
      } else {
        TooFewValues(pattern, request, Captured(r.keys, request));
      }
    }
  }

  lemma {:induction false} ParamTakesAnySegment(keys: seq<Key>, request: seq<string>, i: nat, segment: string)
    requires Matches(keys, request) && |keys| == |request| && i < |keys| && keys[i] == PARAM
    ensures Matches(keys, request[i := segment])
    decreases request
  {
    var changed := request[i := segment];
    if i > 0 {
      ParamTakesAnySegment(keys[1..], request[1..], i - 1, segment);
      assert changed[1..] == request[1..][i - 1 := segment];
    } else {
      assert changed[1..] == request[1..];
    }
  }

  /** Every parameter of every pattern can be missed: spell its segment `:param` and the pattern still matches. */
  lemma EveryParameterCanBeMissed(pattern: seq<string>, handler: Handler, request: seq<string>, i: nat)
    requires DistinctNames(pattern) && Matches(Keys(pattern), request) && !EndsGreedily(Keys(pattern), request)
    requires i < |pattern| && IsParam(pattern[i])
    ensures |request| == |pattern|
    ensures var r := RouteFor(pattern, handler);
      var missed := request[i := PARAM];
      Matches(r.keys, missed) && !BindsExactly(Outcome(r.keys, r.target, missed, []).params, pattern, missed)
  {
    FullMatchLength(Keys(pattern), request);
    KeyAt(pattern, i);
    ParamTakesAnySegment(Keys(pattern), request, i, PARAM);
    var missed := request[i := PARAM];
    var n := |pattern| - 1;
    KeyAt(pattern, n);
    assert Keys(pattern)[n] == GREEDY ==> n != i && missed[n] == request[n];
    ParamsAreTheSegments(pattern, handler, missed);
  }

  lemma {:induction false} KeyAt(segments: seq<string>, i: nat)
    requires i < |segments|
    ensures Keys(segments)[i] == KeyOf(segments[i])
  {
    if i < |segments| - 1 {
      KeyAt(segments[..|segments| - 1], i);
    }
  }
}
