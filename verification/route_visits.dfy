/** How much of the trie a search looks at: at most every node once, unless the request spells reserved keys. */
module RouteVisits {
  import opened Prelude
  import opened RoutePatterns

  /** The nodes a search enters from a node on, counted as often as they are entered. */
  function Visits(t: Trie, path: seq<Key>, request: seq<string>): nat
    requires path in t
    decreases request, 0
  {
    if request == [] then 1
    else
      var rest := request[1..];
      var exact := VisitsVia(t, path, request[0], rest);
      if Follow(t, path, request[0], rest, []).Some? then 1 + exact else
      var param := VisitsVia(t, path, PARAM, rest);
      if Follow(t, path, PARAM, rest, []).Some? then 1 + exact + param else
      1 + exact + param + VisitsVia(t, path, STAR, rest)
  }

  function VisitsVia(t: Trie, path: seq<Key>, key: Key, rest: seq<string>): nat
    decreases rest, 1
  {
    if path + [key] in t then Visits(t, path + [key], rest) else 0
  }

  /** The count in the order the edges are tried; captured values play no part. */
  lemma VisitsInOrder(t: Trie, path: seq<Key>, request: seq<string>, values: seq<string>)
    requires path in t && request != []
    ensures var r0, rest := request[0], request[1..];
      var exact := 1 + VisitsVia(t, path, r0, rest);
      var param := exact + VisitsVia(t, path, PARAM, rest);
      Visits(t, path, request) ==
        if Follow(t, path, r0, rest, values).Some? then exact
        else if Follow(t, path, PARAM, rest, values + [r0]).Some? then param
        else param + VisitsVia(t, path, STAR, rest)
  {
    ValuesDoNotDecide(t, path, request[0], request[1..], values, []);
    ValuesDoNotDecide(t, path, PARAM, request[1..], values + [request[0]], []);
  }

  lemma VisitsEnd(t: Trie, path: seq<Key>)
    requires path in t
    ensures Visits(t, path, []) == 1
  {
  }

  // ----- at most every node once -----

  predicate SpellsNoEdge(request: seq<string>) {
    PARAM !in request && STAR !in request
  }

  /** The nodes at or below a position. */
  function Below(t: Trie, path: seq<Key>): set<seq<Key>> {
    set q | q in t && path <= q
  }

  lemma {:induction false} SubsetCount<T>(a: set<T>, b: set<T>)
    requires a <= b
    ensures |a| <= |b|
  {
    if a != {} {
      var x :| x in a;
      SubsetCount(a - {x}, b - {x});
    }
  }

  lemma BranchesAreApart(t: Trie, path: seq<Key>, a: Key, b: Key)
    requires a != b
    ensures Below(t, path + [a]) !! Below(t, path + [b])
  {
    assert (path + [b])[|path|] == b;
    forall q | q in Below(t, path + [a]) ensures q !in Below(t, path + [b]) {
      assert q[|path|] == (path + [a])[|path|] == a;
    }
  }

  /** A node and three different branches below it. */
  lemma BranchesFit(t: Trie, path: seq<Key>, a: Key, b: Key, c: Key)
    requires path in t && a != b && a != c && b != c
    ensures 1 + |Below(t, path + [a])| + |Below(t, path + [b])| + |Below(t, path + [c])| <= |Below(t, path)|
  {
    BranchesAreApart(t, path, a, b);
    BranchesAreApart(t, path, a, c);
    BranchesAreApart(t, path, b, c);
    var x, y, z := Below(t, path + [a]), Below(t, path + [b]), Below(t, path + [c]);
    BranchInside(t, path, a);
    BranchInside(t, path, b);
    BranchInside(t, path, c);
    hide Below;
    SubsetCount({path} + x + y + z, Below(t, path));
    assert |{path} + x + y + z| == 1 + |x| + |y| + |z|;
  }

  lemma BranchInside(t: Trie, path: seq<Key>, a: Key)
    requires path in t
    ensures path in Below(t, path) && Below(t, path + [a]) <= Below(t, path) - {path}
  {
    forall q | q in Below(t, path + [a]) ensures q in Below(t, path) && q != path {
      assert path == (path + [a])[..|path|] == q[..|path|];
    }
  }

  lemma {:induction false} VisitsFitBelow(t: Trie, path: seq<Key>, request: seq<string>)
    requires path in t && SpellsNoEdge(request)
    ensures Visits(t, path, request) <= |Below(t, path)|
    decreases request
  {
    if request == [] {
      SubsetCount({path}, Below(t, path));
    } else {
      var r0, rest := request[0], request[1..];
      assert r0 in request && forall s :: s in rest ==> s in request;
      BranchesFit(t, path, r0, PARAM, STAR);
      hide Below, Follow;
      forall key | path + [key] in t ensures Visits(t, path + [key], rest) <= |Below(t, path + [key])| {
        VisitsFitBelow(t, path + [key], rest);
      }
      assert VisitsVia(t, path, r0, rest) <= |Below(t, path + [r0])|;
      assert VisitsVia(t, path, PARAM, rest) <= |Below(t, path + [PARAM])|;
      assert VisitsVia(t, path, STAR, rest) <= |Below(t, path + [STAR])|;
    }
  }

  /** A request that spells neither `:param` nor `*` enters no node twice. */
  lemma EveryNodeAtMostOnce(t: Trie, request: seq<string>)
    requires [] in t && SpellsNoEdge(request)
    ensures Visits(t, [], request) <= |t|
  {
    VisitsFitBelow(t, [], request);
    SubsetCount(Below(t, []), t.Keys);
  }

  // ----- doubling -----

  function Params(k: nat): seq<Key> {
    seq(k, _ => PARAM)
  }

  /** Where the request spells `:param` along parameter edges and nothing is found, every level doubles the work. */
  lemma {:induction false} DoubledVisits(t: Trie, path: seq<Key>, k: nat)
    requires PrefixClosed(t) && path in t && path + Params(k) in t
    requires Search(t, path, Params(k), []).None?
    ensures Visits(t, path, Params(k)) >= Pow2(k)
    decreases k
  {
    if k > 0 {
      var child := path + [PARAM];
      assert Params(k)[0] == PARAM && Params(k)[1..] == Params(k - 1);
      assert child + Params(k - 1) == path + Params(k);
      AncestorIn(t, child, Params(k - 1));
      ValuesDoNotDecide(t, path, PARAM, Params(k - 1), [], [PARAM]);
      assert [] + [PARAM] == [PARAM];
      DoubledVisits(t, child, k - 1);
    }
  }

  lemma {:induction false} PathNodes(keys: seq<Key>)
    ensures |AddPath(map[[] := None], keys)| == |keys| + 1
    ensures keys in AddPath(map[[] := None], keys)
    ensures forall p :: p in AddPath(map[[] := None], keys) ==> |p| <= |keys|
  {
    if keys != [] {
      var t' := AddPath(map[[] := None], keys[..|keys| - 1]);
      PathNodes(keys[..|keys| - 1]);
      OneMoreNode(t', keys, None);
    }
  }

  lemma OneMoreNode(t: Trie, keys: seq<Key>, target: Option<Target>)
    ensures |t[keys := target]| == |t| + if keys in t then 0 else 1
  {
    assert |t[keys := target].Keys| == |t[keys := target]| && |t.Keys| == |t|;
    assert t[keys := target].Keys == t.Keys + {keys};
  }

  lemma {:induction false} KeysOfParams(pattern: seq<string>, k: nat)
    requires |pattern| == k + 1 && forall i :: 0 <= i < k ==> IsParam(pattern[i])
    ensures Keys(pattern)[..k] == Params(k)
  {
    forall i | 0 <= i < k ensures Keys(pattern)[i] == PARAM {
      KeyAt(pattern, i);
    }
  }

  /**
    * One pattern of k parameters and a last segment makes a trie of k + 2 nodes, and the request
    * that spells `:param` k times enters nodes at least 2 to the k times.
    */
  lemma ReservedRequestDoubles(pattern: seq<string>, handler: Handler, k: nat)
    requires |pattern| == k + 1 && forall i :: 0 <= i < k ==> IsParam(pattern[i])
    ensures var t := Build([RouteFor(pattern, handler)]);
      [] in t && |t| == k + 2 && Visits(t, [], Params(k)) >= Pow2(k)
  {
    var r := RouteFor(pattern, handler);
    var routes := [r];
    KeysOfParams(pattern, k);
    hide RouteFor, Keys, Visits;
    assert GreedyIsLast(r.keys) by {
      assert forall i :: 0 <= i < k ==> r.keys[i] == r.keys[..k][i] == PARAM;
    }
    OneRoute(r);
    BuildHolds(routes);
    SearchRefinesScan(routes, Params(k));
    assert Scan(routes, Params(k)).None? by {
      assert routes[..0] == [];
      NoMatch(r.keys, Params(k));
    }
    assert r in routes;
    hide Build, Search, ScanResult;
    ChainDoubles(Build(routes), r.keys, k);
  }

  lemma ChainDoubles(t: Trie, keys: seq<Key>, k: nat)
    requires PrefixClosed(t) && keys in t && k <= |keys| && keys[..k] == Params(k)
    requires Search(t, [], Params(k), []).None?
    ensures Visits(t, [], Params(k)) >= Pow2(k)
  {
    hide Search, Visits;
    assert [] + Params(k) == keys[..k] && keys[..k] + keys[k..] == keys;
    AncestorIn(t, keys[..k], keys[k..]);
    DoubledVisits(t, [], k);
  }

  lemma OneRoute(r: Route)
    ensures |Build([r])| == |r.keys| + 1
  {
    assert [r][..0] == [];
    PathNodes(r.keys);
    OneMoreNode(AddPath(map[[] := None], r.keys), r.keys, Some(r.target));
  }

  /** A pattern longer than the request does not match it. */
  lemma {:induction false} NoMatch(keys: seq<Key>, request: seq<string>)
    requires |keys| > |request|
    ensures !Matches(keys, request)
    decreases request
  {
    if request != [] && keys != [GREEDY] {
      NoMatch(keys[1..], request[1..]);
    }
  }
}
