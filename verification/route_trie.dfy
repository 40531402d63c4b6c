/** The linked route trie: insertion in place and the backtracking search over shared state. */
module RouteTries {
  import opened Prelude
  import opened RoutePatterns
  import opened RouteVisits

  class RouteTrieNode {
    var children: map<Key, RouteTrieNode>
    var handler: Handler
    var isEnd: bool
    var isParam: bool
    var isWildcard: bool
    var paramNames: seq<string>

    constructor ()
      ensures children == map[] && !isEnd && !isParam && !isWildcard && paramNames == []
    {
      children, handler, isEnd, isParam, isWildcard, paramNames := map[], 0, false, false, false, [];
    }

    ghost function Target(): Option<Target>
      reads this
    {
      if isEnd then Some(RoutePatterns.Target.Target(handler, paramNames)) else None
    }
  }

  class RouteTrie {
    const root: RouteTrieNode
    ghost var nodes: map<seq<Key>, RouteTrieNode>  // every node, by the keys that lead to it
    ghost var repr: set<RouteTrieNode>

    ghost predicate Linked(p: seq<Key>, key: Key)
      requires p in nodes && nodes[p] in repr
      reads this, repr
    {
      if p + [key] in nodes then key in nodes[p].children && nodes[p].children[key] == nodes[p + [key]]
      else key !in nodes[p].children
    }

    ghost predicate Valid()
      reads this, repr
    {
      && [] in nodes && nodes[[]] == root
      && (forall p :: p in nodes ==> nodes[p] in repr)
      && (forall p {:trigger Parent(p)} :: p in nodes ==> Parent(p) in nodes)
      && (forall p, q :: p in nodes && q in nodes && nodes[p] == nodes[q] ==> p == q)
      && (forall p, key :: p in nodes ==> Linked(p, key))
    }

    /** The trie as a value. */
    ghost function Abs(): Trie
      requires Valid()
      reads this, repr
    {
      map p | p in nodes :: nodes[p].Target()
    }

    constructor ()
      ensures Valid() && fresh(repr)
      ensures Abs() == Build([])
    {
      var n := new RouteTrieNode();
      root := n;
      nodes := map[[] := n];
      repr := {n};
    }

    method AddChild(node: RouteTrieNode, key: Key, ghost p: seq<Key>) returns (child: RouteTrieNode)
      requires Valid() && p in nodes && nodes[p] == node && key !in node.children
      modifies this, node
      ensures Valid() && p + [key] in nodes && nodes[p + [key]] == child
      ensures fresh(child) && fresh(repr - old(repr)) && old(repr) <= repr
      ensures Abs() == old(Abs())[p + [key] := None]
    {
      ghost var q := p + [key];
      assert Linked(p, key);
      assert Parent(q) == p;
      child := new RouteTrieNode();
      node.children := node.children[key := child];
      nodes := nodes[q := child];
      repr := repr + {child};
      forall r, k | r in nodes ensures Linked(r, k) {
        var rk := r + [k];
        assert Parent(rk) == r;
        if r != q {
          assert old(Linked(r, k));
        }
      }
    }

    /** One step down; a created child is flagged by the kind of segment it stands for. */
    method Descend(node: RouteTrieNode, segment: string, ghost p: seq<Key>) returns (child: RouteTrieNode)
      requires Valid() && p in nodes && nodes[p] == node
      modifies this, node
      ensures Valid() && p + [KeyOf(segment)] in nodes && nodes[p + [KeyOf(segment)]] == child
      ensures fresh(repr - old(repr)) && old(repr) <= repr
      ensures var q := p + [KeyOf(segment)];
        Abs() == if q in old(Abs()) then old(Abs()) else old(Abs())[q := None]
    {
      var key := KeyOf(segment);
      assert Linked(p, key);
      if key in node.children {
        child := node.children[key];
      } else {
        child := AddChild(node, key, p);
        label Flagging:
        child.isWildcard := segment == STAR || segment == GREEDY;
        child.isParam := IsParam(segment);
        forall r, k | r in nodes ensures Linked(r, k) {
          assert old@Flagging(Linked(r, k));
        }
      }
    }

    method Mark(node: RouteTrieNode, handler: Handler, names: seq<string>, ghost p: seq<Key>)
      requires Valid() && p in nodes && nodes[p] == node
      modifies node
      ensures Valid()
      ensures Abs() == old(Abs())[p := Some(RoutePatterns.Target.Target(handler, names))]
    {
      node.isEnd, node.handler, node.paramNames := true, handler, names;
      forall r, k | r in nodes ensures Linked(r, k) {
        assert old(Linked(r, k));
      }
    }

    /** Walk the segments, creating nodes and collecting parameter names, then mark the end. */
    method InsertRoute(segments: seq<string>, handler: Handler)
      requires Valid()
      modifies this, repr
      ensures Valid() && fresh(repr - old(repr)) && old(repr) <= repr
      ensures Abs() == Insert(old(Abs()), RouteFor(segments, handler))
    {
      hide RouteTrie.Abs, Insert, AddPath, Keys, Names, KeyOf;
      NodeAt([]);
      InsertUnfolds(Abs(), segments, handler);
      var node := root;
      var paramNames := [];
      ghost var before := Abs();
      for i := 0 to |segments|
        invariant Valid() && fresh(repr - old(repr)) && old(repr) <= repr
        invariant Keys(segments[..i]) in nodes && nodes[Keys(segments[..i])] == node
        invariant Abs() == AddPath(before, Keys(segments[..i]))
        invariant paramNames == Names(segments[..i])
      {
        var segment := segments[i];
        ghost var done := Keys(segments[..i]);
        AddPathSnoc(before, done, KeyOf(segment));
        KeysAndNamesSnoc(segments, i);
        if IsParam(segment) {
          paramNames := paramNames + [segment[1..]];
        }
        node := Descend(node, segment, done);
      }
      assert segments[..|segments|] == segments;
      Mark(node, handler, paramNames, Keys(segments));
    }

    lemma NodeAt(p: seq<Key>)
      requires Valid() && p in nodes
      ensures p in Abs() && Abs()[p] == nodes[p].Target()
    {
    }

    /** Search with an empty parameter map; `entered` counts the nodes looked at. */
    method SearchRoute(segments: seq<string>)
      returns (handler: Option<Handler>, params: map<string, string>, ghost entered: nat)
      requires Valid()
      ensures entered == Visits(Abs(), [], segments)
      ensures match Search(Abs(), [], segments, [])
        case None => handler == None && params == map[]
        case Some(hit) => handler == Some(hit.handler) && params == hit.params
    {
      var search := new RouteSearch(this, segments);
      assert segments[0..] == segments;
      handler := search.Dfs(root, 0, []);
      params, entered := search.params, search.entered;
    }
  }

  lemma InsertUnfolds(t: Trie, segments: seq<string>, handler: Handler)
    requires [] in t
    ensures Keys([]) == [] && Names([]) == [] && AddPath(t, []) == t
    ensures Insert(t, RouteFor(segments, handler)) ==
      AddPath(t, Keys(segments))[Keys(segments) := Some(RoutePatterns.Target.Target(handler, Names(segments)))]
  {
  }

  lemma KeysAndNamesSnoc(segments: seq<string>, i: nat)
    requires i < |segments|
    ensures Keys(segments[..i + 1]) == Keys(segments[..i]) + [KeyOf(segments[i])]
    ensures Names(segments[..i + 1]) == Names(segments[..i]) + if IsParam(segments[i]) then [segments[i][1..]] else []
  {
    assert segments[..i + 1][..i] == segments[..i];
  }

  lemma AddPathSnoc(t: Trie, p: seq<Key>, key: Key)
    ensures AddPath(t, p + [key]) ==
      if p + [key] in AddPath(t, p) then AddPath(t, p) else AddPath(t, p)[p + [key] := None]
  {
    assert (p + [key])[..|p|] == p;
  }

  /** The state the recursive search closes over. */
  class RouteSearch {
    const trie: RouteTrie
    const segments: seq<string>
    var paramValues: seq<string>
    var params: map<string, string>
    ghost var entered: nat  // how often the search has entered a node

    constructor (trie: RouteTrie, segments: seq<string>)
      ensures this.trie == trie && this.segments == segments && paramValues == [] && params == map[] && entered == 0
    {
      this.trie, this.segments := trie, segments;
      paramValues, params, entered := [], map[], 0;
    }

    /** Names and values are paired off until one of them runs out. */
    method BindParams(names: seq<string>)
      requires params == map[]
      modifies this`params
      ensures params == Bind(names, paramValues)
    {
      var i := 0;
      while i < |names| && i < |paramValues|
        invariant i <= |names| && i <= |paramValues|
        invariant params == Bind(names[..i], paramValues[..i])
      {
        BindSnoc(names[..i], paramValues[..i], names[i], paramValues[i]);
        assert names[..i + 1] == names[..i] + [names[i]];
        assert paramValues[..i + 1] == paramValues[..i] + [paramValues[i]];
        params := params[names[i] := paramValues[i]];
        i := i + 1;
      }
      BindTruncates(names, paramValues);
    }

    /**
      * Depth first: equality, parameter, `*`, `**`. A branch that fails leaves the shared values
      * as it found them.
      */
    method Dfs(node: RouteTrieNode, depth: nat, ghost path: seq<Key>) returns (r: Option<Handler>)
      requires trie.Valid() && path in trie.nodes && trie.nodes[path] == node
      requires depth <= |segments| && params == map[]
      modifies this
      ensures match Search(trie.Abs(), path, segments[depth..], old(paramValues))
        case None => r == None && params == map[] && paramValues == old(paramValues)
        case Some(hit) => r == Some(hit.handler) && params == hit.params
      ensures entered == old(entered) + Visits(trie.Abs(), path, segments[depth..])
      decreases |segments| - depth, 1
    {
      hide Search, Follow, Visits, VisitsVia, Bind, GreedyHandler, RouteTrie.Valid, RouteTrie.Abs;
      trie.NodeAt(path);
      entered := entered + 1;
      ghost var t, values := trie.Abs(), paramValues;
      if depth == |segments| {
        assert segments[depth..] == [];
        SearchEnds(t, path, values);
        VisitsEnd(t, path);
        if node.isEnd {
          BindParams(node.paramNames);
          return Some(node.handler);
        }
        return None;
      }
      var segment := segments[depth];
      ghost var request, rest := segments[depth..], segments[depth + 1..];
      assert request[0] == segment && request[1..] == rest;
      SearchTriesInOrder(t, path, request, values);
      VisitsInOrder(t, path, request, values);

      r := Try(node, segment, depth, path);
      if r.Some? {
        return;
      }
      r := TryParam(node, depth, path);
      if r.Some? {
        return;
      }
      r := Try(node, STAR, depth, path);
      if r.Some? {
        return;
      }
      r := TryGreedy(node, path);
    }

    /** The parameter edge: the segment is pushed before the descent and popped when it fails. */
    method TryParam(node: RouteTrieNode, depth: nat, ghost path: seq<Key>) returns (r: Option<Handler>)
      requires trie.Valid() && path in trie.nodes && trie.nodes[path] == node
      requires depth < |segments| && params == map[]
      modifies this
      ensures match Follow(trie.Abs(), path, PARAM, segments[depth + 1..], old(paramValues) + [segments[depth]])
        case None => r == None && params == map[] && paramValues == old(paramValues)
        case Some(hit) => r == Some(hit.handler) && params == hit.params
      ensures entered == old(entered) + VisitsVia(trie.Abs(), path, PARAM, segments[depth + 1..])
      decreases |segments| - depth, 0
    {
      r := None;
      assert trie.Linked(path, PARAM);
      if PARAM in node.children {
        paramValues := paramValues + [segments[depth]];
        r := Dfs(node.children[PARAM], depth + 1, path + [PARAM]);
        if r.None? {
          paramValues := paramValues[..|paramValues| - 1];
          assert paramValues == old(paramValues);
        }
      }
    }

    /** The greedy wildcard takes all that is left, without parameters. */
    method TryGreedy(node: RouteTrieNode, ghost path: seq<Key>) returns (r: Option<Handler>)
      requires trie.Valid() && path in trie.nodes && trie.nodes[path] == node
      ensures r == GreedyHandler(trie.Abs(), path)
    {
      assert trie.Linked(path, GREEDY);
      if GREEDY in node.children {
        var greedyNode := node.children[GREEDY];
        if greedyNode.isEnd {
          return Some(greedyNode.handler);
        }
      }
      return None;
    }

    /** One edge of the search, taken if the node has it. */
    method Try(node: RouteTrieNode, key: Key, depth: nat, ghost path: seq<Key>) returns (r: Option<Handler>)
      requires trie.Valid() && path in trie.nodes && trie.nodes[path] == node
      requires depth < |segments| && params == map[]
      modifies this
      ensures match Follow(trie.Abs(), path, key, segments[depth + 1..], old(paramValues))
        case None => r == None && params == map[] && paramValues == old(paramValues)
        case Some(hit) => r == Some(hit.handler) && params == hit.params
      ensures entered == old(entered) + VisitsVia(trie.Abs(), path, key, segments[depth + 1..])
      decreases |segments| - depth, 0
    {
      assert trie.Linked(path, key);
      if key in node.children {
        r := Dfs(node.children[key], depth + 1, path + [key]);
      } else {
        r := None;
      }
    }
  }

  function GreedyHandler(t: Trie, path: seq<Key>): Option<Handler> {
    if path + [GREEDY] in t && t[path + [GREEDY]].Some? then Some(t[path + [GREEDY]].value.handler) else None
  }

  lemma SearchEnds(t: Trie, path: seq<Key>, values: seq<string>)
    requires path in t
    ensures Search(t, path, [], values) ==
      if t[path].Some? then Some(Hit(t[path].value.handler, Bind(t[path].value.names, values))) else None
  {
  }

  lemma SearchTriesInOrder(t: Trie, path: seq<Key>, request: seq<string>, values: seq<string>)
    requires path in t && request != []
    ensures var rest := request[1..];
      var exact := Follow(t, path, request[0], rest, values);
      var param := Follow(t, path, PARAM, rest, values + [request[0]]);
      var star := Follow(t, path, STAR, rest, values);
      Search(t, path, request, values) ==
        if exact.Some? then exact else if param.Some? then param else if star.Some? then star
        else if GreedyHandler(t, path).Some? then Some(Hit(GreedyHandler(t, path).value, map[])) else None
  {
  }

  lemma BindTruncates(names: seq<string>, values: seq<string>)
    ensures var n := Min(|names|, |values|); Bind(names, values) == Bind(names[..n], values[..n])
  {
    var n := Min(|names|, |values|);
    hide Bind;
    BindUnfolds(names, values);
    BindUnfolds(names[..n], values[..n]);
    if n > 0 {
      assert names[..n][..n - 1] == names[..n - 1] && values[..n][..n - 1] == values[..n - 1];
    }
  }

  lemma BindUnfolds(names: seq<string>, values: seq<string>)
    ensures var n := Min(|names|, |values|);
      Bind(names, values) ==
        if n == 0 then map[] else Bind(names[..n - 1], values[..n - 1])[names[n - 1] := values[n - 1]]
  {
  }
}
