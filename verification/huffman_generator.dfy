/**
  * The generator script's own algorithms: building the linked trie in place, and compiling it
  * breadth-first into the nibble table.
  */
module HuffmanGenerator {
  import opened Prelude
  import opened HuffmanCode
  import opened HuffmanNibbles

  class TrieNode {
    var zero: TrieNode?
    var one: TrieNode?
    var symbol: Option<nat>
    var isEos: bool

    constructor ()
      ensures zero == null && one == null && symbol == None && !isEos
    {
      zero, one, symbol, isEos := null, null, None, false;
    }

    function Child(b: bool): TrieNode?
      reads this
    {
      if b then one else zero
    }
  }

  class HuffmanTrie {
    const root: TrieNode
    ghost var nodes: map<Bits, TrieNode>  // every node, by the path that leads to it
    ghost var repr: set<TrieNode>

    ghost predicate Linked(p: Bits, b: bool)
      requires p in nodes && nodes[p] in repr
      reads this, repr
    {
      nodes[p].Child(b) == if p + [b] in nodes then nodes[p + [b]] else null
    }

    ghost predicate Valid()
      reads this, repr
    {
      && [] in nodes && nodes[[]] == root
      && (forall p :: p in nodes ==> nodes[p] in repr)
      && (forall p {:trigger Parent(p)} :: p in nodes ==> Parent(p) in nodes)
      && (forall p, q :: p in nodes && q in nodes && nodes[p] == nodes[q] ==> p == q)
      && (forall p, b :: p in nodes ==> Linked(p, b))
    }

    /** The trie as a value. */
    ghost function Abs(): Trie
      requires Valid()
      reads this, repr
    {
      map p | p in nodes :: Node(nodes[p].symbol, nodes[p].isEos)
    }

    constructor ()
      ensures Valid() && fresh(repr)
      ensures Abs() == map[[] := FRESH]
    {
      var n := new TrieNode();
      root := n;
      nodes := map[[] := n];
      repr := {n};
    }

    /** A missing child is created and linked. */
    method AddChild(node: TrieNode, bit: bool, ghost p: Bits) returns (child: TrieNode)
      requires Valid() && p in nodes && nodes[p] == node && node.Child(bit) == null
      modifies this, node
      ensures Valid() && p + [bit] in nodes && nodes[p + [bit]] == child
      ensures fresh(repr - old(repr)) && old(repr) <= repr
      ensures Abs() == old(Abs())[p + [bit] := FRESH]
    {
      ghost var q := p + [bit];
      assert Linked(p, bit);
      assert Parent(q) == p;
      child := new TrieNode();
      if bit {
        node.one := child;
      } else {
        node.zero := child;
      }
      nodes := nodes[q := child];
      repr := repr + {child};
      forall r, b | r in nodes ensures Linked(r, b) {
        var rb := r + [b];
        assert Parent(rb) == r;
        if r != q {
          assert old(Linked(r, b));
        }
      }
    }

    /** One step down, creating the child when it is missing. */
    method Descend(node: TrieNode, bit: bool, ghost p: Bits) returns (child: TrieNode)
      requires Valid() && p in nodes && nodes[p] == node
      modifies this, node
      ensures Valid() && p + [bit] in nodes && nodes[p + [bit]] == child
      ensures fresh(repr - old(repr)) && old(repr) <= repr
      ensures Abs() == if p + [bit] in old(Abs()) then old(Abs()) else old(Abs())[p + [bit] := FRESH]
    {
      assert Linked(p, bit);
      if node.Child(bit) == null {
        child := AddChild(node, bit, p);
      } else {
        child := if bit then node.one else node.zero;
      }
    }

    method Mark(node: TrieNode, row: Row, ghost p: Bits)
      requires Valid() && p in nodes && nodes[p] == node
      modifies node
      ensures Valid()
      ensures Abs() == old(Abs())[p := if row.symbol == EOS then old(Abs())[p].(isEos := true)
                                       else old(Abs())[p].(symbol := Some(row.symbol))]
    {
      if row.symbol == EOS {
        node.isEos := true;
      } else {
        node.symbol := Some(row.symbol);
      }
      forall q, b | q in nodes ensures Linked(q, b) {
        assert old(Linked(q, b));
      }
    }

    /** Walk, creating nodes on the way, and mark the end of the path. */
    method Insert(row: Row)
      requires Valid()
      modifies this, repr
      ensures Valid() && fresh(repr - old(repr)) && old(repr) <= repr
      ensures Abs() == AddRow(old(Abs()), row)
    {
      var node := root;
      var i := row.bits;
      ghost var path := Path(row);
      ghost var done := [];
      ghost var before := Abs();
      assert path[..0] == done;
      while i > 0
        invariant 0 <= i <= row.bits && done == path[..row.bits - i]
        invariant Valid() && fresh(repr - old(repr)) && old(repr) <= repr
        invariant done in nodes && nodes[done] == node
        invariant Abs() == AddPath(before, done)
      {
        i := i - 1;
        var bit := row.code / Pow2(i) % 2 == 1;
        BitOfCode(row.code, row.bits, i);
        AddPathSnoc(before, done, bit);
        node := Descend(node, bit, done);
        done := done + [bit];
      }
      assert done == path;
      Mark(node, row, done);
    }
  }

  lemma AddPathSnoc(t: Trie, p: Bits, b: bool)
    ensures AddPath(t, p + [b]) == if p + [b] in AddPath(t, p) then AddPath(t, p) else AddPath(t, p)[p + [b] := FRESH]
  {
    assert (p + [b])[..|p|] == p;
  }

  lemma {:induction false} BitOfCode(code: nat, bits: nat, i: nat)
    requires i < bits
    ensures CodeBits(code, bits)[bits - 1 - i] == (code / Pow2(i) % 2 == 1)
  {
    if i > 0 {
      BitOfCode(code / 2, bits - 1, i - 1);
      HalvedQuotient(code, Pow2(i - 1));
    }
  }

  lemma HalvedQuotient(x: nat, d: nat)
    requires d > 0
    ensures x / 2 / d == x / (2 * d)
  {
    var q, r := x / (2 * d), x % (2 * d);
    assert x == 2 * (q * d) + r;
    assert x / 2 == q * d + r / 2;
    assert r / 2 < d;
    QuotientUnique(x / 2, d, q, r / 2);
  }

  lemma MulStrict(a: nat, b: nat, d: nat)
    ensures a < b ==> a * d + d <= b * d
  {
    if a < b {
      var e: nat := b - a - 1;
      assert e * d >= 0;
      assert b * d == (a + 1 + e) * d == a * d + d + e * d;
    }
  }

  lemma QuotientUnique(x: nat, d: nat, q: nat, r: nat)
    requires d > 0 && x == q * d + r && r < d
    ensures x / d == q
  {
    assert x == x / d * d + x % d;
    MulStrict(q, x / d, d);
    MulStrict(x / d, q, d);
  }

  /** One trie for a whole table. */
  method BuildLinkedTrie(rows: seq<Row>) returns (trie: HuffmanTrie)
    ensures trie.Valid() && fresh(trie) && fresh(trie.repr)
    ensures trie.Abs() == BuildTrie(rows)
  {
    trie := new HuffmanTrie();
    for k := 0 to |rows|
      invariant trie.Valid() && fresh(trie) && fresh(trie.repr)
      invariant trie.Abs() == BuildTrie(rows[..k])
    {
      trie.Insert(rows[k]);
      assert rows[..k + 1][..k] == rows[..k];
    }
    assert rows[..|rows|] == rows;
  }

  // ----- compiling the trie into the nibble table -----

  const EMPTY_ROW: seq<Option<Entry>> :=
    [None, None, None, None, None, None, None, None, None, None, None, None, None, None, None, None]

  /** State s stands for trie position p, linked node n. */
  ghost predicate StateOk(nodes: map<Bits, TrieNode>, t: Trie, nodeToState: map<TrieNode, nat>,
                          s: nat, p: Bits, n: TrieNode, ok: bool, row: seq<Option<Entry>>)
  {
    && p in nodes && nodes[p] == n
    && p in t && t[p] == FRESH
    && n in nodeToState && nodeToState[n] == s
    && ok == Accepting(t, p)
    && |row| == 16
  }

  ghost predicate StatesOk(nodes: map<Bits, TrieNode>, t: Trie, nodeToState: map<TrieNode, nat>,
                           paths: seq<Bits>, stateToNode: seq<TrieNode>, accepting: seq<bool>, table: Table)
  {
    && |paths| == |stateToNode| == |table| == |accepting|
    && (forall s :: 0 <= s < |paths| ==>
          StateOk(nodes, t, nodeToState, s, paths[s], stateToNode[s], accepting[s], table[s]))
    && (forall n :: n in nodeToState ==> nodeToState[n] < |stateToNode| && stateToNode[nodeToState[n]] == n)
  }

  lemma StatesExtend(nodes: map<Bits, TrieNode>, t: Trie, nodeToState: map<TrieNode, nat>,
                     paths: seq<Bits>, stateToNode: seq<TrieNode>, accepting: seq<bool>, table: Table,
                     p: Bits, n: TrieNode, ok: bool)
    requires StatesOk(nodes, t, nodeToState, paths, stateToNode, accepting, table)
    requires n !in nodeToState && p in nodes && nodes[p] == n && p in t && t[p] == FRESH && ok == Accepting(t, p)
    ensures |stateToNode| == |paths|
    ensures StatesOk(nodes, t, nodeToState[n := |paths|],
                     paths + [p], stateToNode + [n], accepting + [ok], table + [EMPTY_ROW])
  {
  }

  /** Filling an entry leaves everything about the states alone. */
  lemma RowStays(nodes: map<Bits, TrieNode>, t: Trie, nodeToState: map<TrieNode, nat>,
                 paths: seq<Bits>, stateToNode: seq<TrieNode>, accepting: seq<bool>, table: Table,
                 state: nat, n: nibble, entry: Entry)
    requires StatesOk(nodes, t, nodeToState, paths, stateToNode, accepting, table) && state < |table|
    ensures |table[state]| == 16
    ensures StatesOk(nodes, t, nodeToState, paths, stateToNode, accepting,
                     table[state := table[state][n := Some(entry)]])
  {
    hide Accepting;
    assert StateOk(nodes, t, nodeToState, state, paths[state], stateToNode[state], accepting[state], table[state]);
  }

  class TableBuilder {
    const trie: HuffmanTrie
    var nodeToState: map<TrieNode, nat>
    var stateToNode: seq<TrieNode>
    var table: Table
    var accepting: seq<bool>
    ghost var paths: seq<Bits>  // the trie position each state stands for

    constructor (trie: HuffmanTrie)
      requires trie.Valid()
      ensures this.trie == trie && Valid() && paths == []
    {
      this.trie := trie;
      nodeToState, stateToNode, table, accepting, paths := map[], [], [], [], [];
    }

    ghost predicate Valid()
      reads this, trie, trie.repr
    {
      trie.Valid() && StatesOk(trie.nodes, trie.Abs(), nodeToState, paths, stateToNode, accepting, table)
    }

    lemma PathsAreDistinct()
      requires Valid()
      ensures forall i, j :: 0 <= i < j < |paths| ==> paths[i] != paths[j]
    {
    }

    lemma Finished(t: Trie, done: set<nat>)
      requires Valid() && t == trie.Abs() && paths != [] && paths[0] == []
      requires RowsDone(t, paths, table, done) && forall s :: 0 <= s < |paths| ==> s in done
      ensures TableFor(t, table, accepting, paths)
    {
      PathsAreDistinct();
      forall s | 0 <= s < |paths| ensures RowMeans(t, paths, paths[s], table[s]) {
        assert RowUpTo(t, paths, paths[s], table[s], 16);
      }
    }

    /** At most thirty steps along ones. */
    method IsAccepting(node: TrieNode, ghost p: Bits) returns (ok: bool)
      requires trie.Valid() && p in trie.nodes && trie.nodes[p] == node
      ensures ok == Accepting(trie.Abs(), p)
    {
      if node == trie.root {
        return true;
      }
      var cur := node;
      ghost var at := p;
      for k := 0 to 30
        invariant at in trie.nodes && trie.nodes[at] == cur
        invariant OnesReachEos(trie.Abs(), p, EOS_BITS) == OnesReachEos(trie.Abs(), at, EOS_BITS - k)
      {
        assert trie.Linked(at, true);
        if cur.one == null {
          return false;
        }
        cur, at := cur.one, at + [true];
        if cur.symbol.Some? {
          return false;
        }
        if cur.isEos {
          return true;
        }
      }
      return false;
    }

    method NewState(node: TrieNode, ghost p: Bits) returns (s: nat)
      requires Valid() && p in trie.nodes && trie.nodes[p] == node && trie.Abs()[p] == FRESH
      requires node !in nodeToState
      modifies this
      ensures Valid() && s == |old(paths)|
      ensures paths == old(paths) + [p] && table == old(table) + [EMPTY_ROW]
    {
      hide StatesOk, Accepting, HuffmanTrie.Valid;
      var ok := IsAccepting(node, p);
      StatesExtend(trie.nodes, trie.Abs(), nodeToState, paths, stateToNode, accepting, table, p, node, ok);
      s := |stateToNode|;
      nodeToState := nodeToState[node := s];
      stateToNode := stateToNode + [node];
      table := table + [EMPTY_ROW];
      accepting := accepting + [ok];
      paths := paths + [p];
    }

    /** The state of a node, allocated on first sight. */
    method GetState(node: TrieNode, ghost p: Bits) returns (s: nat)
      requires Valid() && p in trie.nodes && trie.nodes[p] == node && trie.Abs()[p] == FRESH
      modifies this
      ensures Valid() && s < |paths| && paths[s] == p
      ensures old(paths) <= paths <= old(paths) + [p]
      ensures table == if paths == old(paths) then old(table) else old(table) + [EMPTY_ROW]
      ensures paths != old(paths) ==> p !in old(paths)
    {
      if node !in nodeToState {
        assert forall k :: 0 <= k < |paths| ==> paths[k] != p;
        s := NewState(node, p);
      } else {
        s := nodeToState[node];
      }
    }

    /** Four steps down from a node, restarting at the root after each completed symbol. */
    method RunFrom(node: TrieNode, nibble: nibble, ghost p: Bits)
      returns (cur: TrieNode, emit: Option<nat>, failed: bool, ghost at: Bits)
      requires trie.Valid() && p in trie.nodes && trie.nodes[p] == node
      requires trie.Abs()[p] == FRESH && trie.Abs()[[]] == FRESH
      ensures RunNibble(trie.Abs(), p, CodeBits(nibble, 4), None) == if failed then Failed else Landed(at, emit)
      ensures !failed ==> at in trie.nodes && trie.nodes[at] == cur && trie.Abs()[at] == FRESH
    {
      cur, emit, failed, at := node, None, false, p;
      ghost var t := trie.Abs();
      ghost var bits := CodeBits(nibble, 4);
      ghost var whole := RunNibble(t, p, bits, None);
      assert bits[0..] == bits;
      var left := 4;
      while left > 0
        invariant 0 <= left <= 4
        invariant at in trie.nodes && trie.nodes[at] == cur && t[at] == FRESH
        invariant whole == RunNibble(t, at, bits[4 - left..], emit)
      {
        left := left - 1;
        var bit := nibble / Pow2(left) % 2 == 1;
        BitOfCode(nibble, 4, left);
        assert bits[3 - left..][0] == bit;
        assert bits[3 - left..][1..] == bits[4 - left..];
        assert trie.Linked(at, bit);
        if cur.Child(bit) == null {
          failed := true;
          return;
        }
        cur, at := if bit then cur.one else cur.zero, at + [bit];
        if cur.symbol.Some? {
          emit, cur, at := Some(cur.symbol.value), trie.root, [];
        } else if cur.isEos {
          failed := true;
          return;
        }
      }
    }

    method SetEntry(state: nat, nibble: nibble, entry: Entry)
      requires Valid() && state < |table|
      modifies this`table
      ensures Valid() && |table| == |old(table)|
      ensures table == old(table)[state := old(table)[state][nibble := Some(entry)]]
    {
      hide StatesOk, HuffmanTrie.Valid;
      RowStays(trie.nodes, trie.Abs(), nodeToState, paths, stateToNode, accepting, table, state, nibble, entry);
      table := table[state := table[state][nibble := Some(entry)]];
    }

    lemma StateAt(state: nat)
      requires Valid() && state < |paths|
      ensures |paths| == |table| == |stateToNode|
      ensures paths[state] in trie.nodes && trie.nodes[paths[state]] == stateToNode[state]
      ensures trie.Abs()[paths[state]] == FRESH
    {
    }

    /** Compile one entry, allocating the state it leads to. */
    method CompileEntry(state: nat, nibble: nibble, ghost t: Trie) returns (entry: Entry, next: Option<nat>)
      requires Valid() && t == trie.Abs() && t[[]] == FRESH && state < |paths|
      modifies this
      ensures Valid() && state < |paths|
      ensures EntryMeans(t, paths, old(paths)[state], nibble, Some(entry))
      ensures Grown(old(paths), paths, next)
      ensures table[..|old(table)|] == old(table)
    {
      hide HuffmanTrie.Valid, RunNibble;
      StateAt(state);
      hide StatesOk;
      var cur, emit, failed, at := RunFrom(stateToNode[state], nibble, paths[state]);
      entry, next := Entry(0, FAIL, 0), None;
      if !failed {
        var target := GetState(cur, at);
        next := Some(target);
        entry := if emit.Some? then Entry(target, EMIT, emit.value) else Entry(target, 0, 0);
        assert old(table) == (old(table) + [EMPTY_ROW])[..|old(table)|];
      }
    }

    /** Fill one entry; the state it leads to, if any, is the result. */
    method FillEntry(state: nat, nibble: nibble, ghost t: Trie, ghost done: set<nat>) returns (next: Option<nat>)
      requires Valid() && t == trie.Abs() && t[[]] == FRESH
      requires state < |paths| && state !in done
      requires RowsDone(t, paths, table, done)
      requires RowUpTo(t, paths, paths[state], table[state], nibble)
      modifies this
      ensures Valid() && state < |paths|
      ensures RowsDone(t, paths, table, done)
      ensures RowUpTo(t, paths, paths[state], table[state], nibble + 1)
      ensures Grown(old(paths), paths, next)
    {
      hide RowUpTo, Covered, EntryMeans, HuffmanTrie.Valid, StateOk;
      var entry;
      entry, next := CompileEntry(state, nibble, t);
      TableKept(old(table), table, done, state);
      SetEntry(state, nibble, entry);
      EntryStored(t, old(paths), old(table), paths, table, state, nibble, entry, done);
    }

    /** All sixteen entries of a state; states met on the way join the queue. */
    method FillRow(state: nat, processed: set<nat>, queue: seq<nat>, ghost t: Trie, ghost todo: set<Bits>)
      returns (queue': seq<nat>)
      requires Valid() && t == trie.Abs() && t[[]] == FRESH
      requires state < |paths| && state in processed
      requires RowsDone(t, paths, table, processed - {state})
      requires Covered(t, paths, processed, queue, todo)
      modifies this
      ensures Valid() && old(paths) <= paths
      ensures RowsDone(t, paths, table, processed)
      ensures Covered(t, paths, processed, queue', todo)
    {
      hide EntryMeans, HuffmanTrie.Valid;
      queue' := queue;
      ghost var done := processed - {state};
      for nibble := 0 to 16
        invariant Valid() && old(paths) <= paths
        invariant RowsDone(t, paths, table, done)
        invariant RowUpTo(t, paths, paths[state], table[state], nibble)
        invariant Covered(t, paths, processed, queue', todo)
      {
        ghost var before, waiting := paths, queue';
        var next := FillEntry(state, nibble, t, done);
        if next.Some? && next.value !in processed {
          queue' := queue' + [next.value];
        }
        assert forall s :: 0 <= s < |paths| ==> paths[s] in t;
        CoveredGrows(t, before, paths, processed, waiting, queue', todo, next);
      }
      assert processed == done + {state};
    }

    /** The invariant of the breadth-first loop. */
    ghost predicate Searching(t: Trie, processed: set<nat>, queue: seq<nat>, todo: set<Bits>)
      reads this, trie, trie.repr
    {
      && Valid() && t == trie.Abs() && t[[]] == FRESH
      && paths != [] && paths[0] == []
      && RowsDone(t, paths, table, processed)
      && Covered(t, paths, processed, queue, todo)
    }

    method Start(ghost t: Trie) returns (queue: seq<nat>)
      requires Valid() && paths == [] && t == trie.Abs() && t[[]] == FRESH
      modifies this
      ensures Searching(t, {}, queue, t.Keys)
    {
      var start := GetState(trie.root, []);
      queue := [start];
      CoveredStart(t, paths);
    }

    /**
      * Take a state off the queue; unless it was processed before, take its position off the
      * to-do list and fill its row.
      */
    method Step(processed: set<nat>, queue: seq<nat>, ghost t: Trie, ghost todo: set<Bits>)
      returns (processed': set<nat>, queue': seq<nat>, ghost todo': set<Bits>)
      requires queue != [] && Searching(t, processed, queue, todo)
      modifies this
      ensures Searching(t, processed', queue', todo')
      ensures todo' < todo || (todo' == todo && |queue'| < |queue|)
    {
      hide RowUpTo, Grown, HuffmanTrie.Valid, StateOk;
      var state := queue[0];
      processed', queue', todo' := processed, queue[1..], todo;
      if state in processed {
        CoveredSkip(t, paths, processed, queue, todo);
        return;
      }
      PathsAreDistinct();
      CoveredTake(t, paths, processed, queue, todo);
      processed' := processed + {state};
      todo' := todo - {paths[state]};
      assert processed' - {state} == processed;
      queue' := FillRow(state, processed', queue', t, todo');
    }
  }

  /**
    * Breadth-first from the root. Termination: every pass either takes a trie position off the
    * to-do list or shortens the queue.
    */
  method GenerateDecodeTable(trie: HuffmanTrie)
    returns (table: Table, states: nat, accepting: seq<bool>, ghost paths: seq<Bits>)
    requires trie.Valid() && trie.Abs()[[]] == FRESH
    ensures TableFor(trie.Abs(), table, accepting, paths)
    ensures states == |table|
  {
    ghost var t := trie.Abs();
    var b := new TableBuilder(trie);
    var queue := b.Start(t);
    var processed: set<nat> := {};
    ghost var todo := t.Keys;
    while queue != []
      invariant b.Searching(t, processed, queue, todo)
      decreases todo, |queue|
    {
      processed, queue, todo := b.Step(processed, queue, t, todo);
    }
    b.Finished(t, processed);
    table, states, accepting, paths := b.table, |b.stateToNode|, b.accepting, b.paths;
  }

  // ----- what the loops keep, on values -----

  ghost predicate RowUpTo(t: Trie, paths: seq<Bits>, from: Bits, row: seq<Option<Entry>>, k: nat) {
    |row| == 16 && forall n: nibble :: n < k ==> EntryMeans(t, paths, from, n, row[n])
  }

  /** Every state in `done` has its whole row filled. */
  ghost predicate RowsDone(t: Trie, paths: seq<Bits>, table: Table, done: set<nat>) {
    |table| == |paths| && forall s :: s in done ==> s < |paths| && RowUpTo(t, paths, paths[s], table[s], 16)
  }

  /** At most one state was added, and then it is the one returned. */
  ghost predicate Grown(before: seq<Bits>, after: seq<Bits>, next: Option<nat>) {
    && (next.Some? ==> next.value < |after|)
    && (after == before ||
        (next == Some(|before|) && |after| == |before| + 1 && before <= after && after[|before|] !in before))
  }

  /**
    * Nothing is lost: a state is processed or still queued, and the trie positions still to do
    * are those without a processed state.
    */
  ghost predicate Covered(t: Trie, paths: seq<Bits>, processed: set<nat>, queue: seq<nat>, todo: set<Bits>) {
    && (forall s :: 0 <= s < |paths| ==> s in processed || s in queue)
    && (forall s :: s in queue ==> s < |paths|)
    && (forall s :: s in processed ==> s < |paths| && paths[s] !in todo)
    && (forall p :: p in t ==> p in todo || exists s :: s in processed && s < |paths| && paths[s] == p)
    && (forall s :: 0 <= s < |paths| && s !in processed ==> paths[s] in todo)
  }

  lemma TableKept(table: Table, table': Table, done: set<nat>, state: nat)
    requires |table| <= |table'| && table'[..|table|] == table && state < |table|
    requires forall s :: s in done ==> s < |table|
    ensures table'[state] == table[state] && forall s :: s in done ==> table'[s] == table[s]
  {
    assert forall s :: 0 <= s < |table| ==> table'[..|table|][s] == table'[s];
  }

  lemma EntryStored(t: Trie, paths: seq<Bits>, table: Table, paths': seq<Bits>, table': Table,
                    state: nat, nibble: nibble, entry: Entry, done: set<nat>)
    requires RowsDone(t, paths, table, done) && state < |paths| && state !in done
    requires RowUpTo(t, paths, paths[state], table[state], nibble)
    requires paths <= paths' && |table'| == |paths'|
    requires table'[state] == table[state][nibble := Some(entry)]
    requires forall s :: s in done ==> table'[s] == table[s]
    requires EntryMeans(t, paths', paths[state], nibble, Some(entry))
    ensures RowsDone(t, paths', table', done)
    ensures RowUpTo(t, paths', paths'[state], table'[state], nibble + 1)
  {
    forall s | s in done ensures RowUpTo(t, paths', paths'[s], table'[s], 16) {
      RowStable(t, paths, paths', paths[s], table[s], 16);
    }
    RowStable(t, paths, paths', paths[state], table[state], nibble);
  }

  lemma RowStable(t: Trie, paths: seq<Bits>, paths': seq<Bits>, from: Bits, row: seq<Option<Entry>>, k: nat)
    requires paths <= paths' && RowUpTo(t, paths, from, row, k)
    ensures RowUpTo(t, paths', from, row, k)
  {
    forall n: nibble | n < k ensures EntryMeans(t, paths', from, n, row[n]) {
      assert EntryMeans(t, paths, from, n, row[n]);
    }
  }

  lemma CoveredGrows(t: Trie, paths: seq<Bits>, paths': seq<Bits>, processed: set<nat>,
                     queue: seq<nat>, queue': seq<nat>, todo: set<Bits>, next: Option<nat>)
    requires Covered(t, paths, processed, queue, todo) && Grown(paths, paths', next)
    requires queue' == if next.Some? && next.value !in processed then queue + [next.value] else queue
    requires forall s :: 0 <= s < |paths'| ==> paths'[s] in t
    ensures Covered(t, paths', processed, queue', todo)
  {
    if paths' != paths {
      var p := paths'[|paths|];
      assert p in todo by {
        assert forall s :: 0 <= s < |paths| ==> paths[s] != p;
      }
    }
    forall p | p in t && p !in todo ensures exists s :: s in processed && s < |paths'| && paths'[s] == p {
      var s :| s in processed && s < |paths| && paths[s] == p;
      assert paths'[s] == p;
    }
  }

  lemma CoveredStart(t: Trie, paths: seq<Bits>)
    requires |paths| == 1 && paths[0] in t
    ensures Covered(t, paths, {}, [0], t.Keys)
  {
  }

  lemma QueueTail(queue: seq<nat>)
    requires queue != []
    ensures forall s :: s in queue <==> s == queue[0] || s in queue[1..]
  {
    assert queue == [queue[0]] + queue[1..];
  }

  lemma CoveredSkip(t: Trie, paths: seq<Bits>, processed: set<nat>, queue: seq<nat>, todo: set<Bits>)
    requires queue != [] && queue[0] in processed && Covered(t, paths, processed, queue, todo)
    ensures Covered(t, paths, processed, queue[1..], todo)
  {
    QueueTail(queue);
  }

  lemma CoveredTake(t: Trie, paths: seq<Bits>, processed: set<nat>, queue: seq<nat>, todo: set<Bits>)
    requires queue != [] && queue[0] !in processed && Covered(t, paths, processed, queue, todo)
    requires forall i, j :: 0 <= i < j < |paths| ==> paths[i] != paths[j]
    ensures queue[0] < |paths| && paths[queue[0]] in todo
    ensures Covered(t, paths, processed + {queue[0]}, queue[1..], todo - {paths[queue[0]]})
  {
    var state := queue[0];
    QueueTail(queue);
    assert state in queue;
    forall p | p in t && p !in todo - {paths[state]}
      ensures exists s :: s in processed + {state} && s < |paths| && paths[s] == p
    {
      if p == paths[state] {
        assert state in processed + {state};
      } else {
        var s :| s in processed && s < |paths| && paths[s] == p;
        assert s in processed + {state};
      }
    }
  }
}
