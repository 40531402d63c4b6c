/**
  * The prefix code behind HPACK strings (Appendix B of RFC 7541), the binary trie the
  * generator script compiles it into, and the bit-by-bit walk over that trie that every
  * faster decoder has to agree with.
  */
module HuffmanCode {
  import opened Prelude

  type Bits = seq<bool>

  /** One row of the code table: the low `bits` bits of `code`, most significant first. */
  datatype Row = Row(symbol: nat, code: nat, bits: nat)

  const EOS: nat := 256
  const EOS_BITS: nat := 30

  function CodeBits(code: nat, bits: nat): (r: Bits)
    ensures |r| == bits
  {
    if bits == 0 then [] else CodeBits(code / 2, bits - 1) + [code % 2 == 1]
  }

  function Ones(n: nat): (r: Bits)
    ensures |r| == n
    ensures forall i :: 0 <= i < n ==> r[i]
  {
    seq(n, i => true)
  }

  function Path(row: Row): (r: Bits)
    ensures |r| == row.bits
  {
    CodeBits(row.code, row.bits)
  }

  // ----- the trie as a value: every node is named by the path that leads to it -----

  datatype Node = Node(symbol: Option<nat>, isEos: bool)

  const FRESH := Node(None, false)

  type Trie = map<Bits, Node>

  function AddPath(t: Trie, path: Bits): Trie {
    var t' := if path == [] then t else AddPath(t, path[..|path| - 1]);
    if path in t' then t' else t'[path := FRESH]
  }

  function AddRow(t: Trie, row: Row): Trie {
    var t' := AddPath(t, Path(row));
    AddPathAt(t, Path(row), Path(row));
    t'[Path(row) := if row.symbol == EOS
                    then t'[Path(row)].(isEos := true)
                    else t'[Path(row)].(symbol := Some(row.symbol))]
  }

  function BuildTrie(rows: seq<Row>): Trie {
    if rows == [] then map[[] := FRESH] else AddRow(BuildTrie(rows[..|rows| - 1]), rows[|rows| - 1])
  }

  lemma {:induction false} AddPathAt(t: Trie, path: Bits, p: Bits)
    ensures p in AddPath(t, path) <==> p in t || p <= path
    ensures p in AddPath(t, path) ==> AddPath(t, path)[p] == if p in t then t[p] else FRESH
  {
    if path != [] {
      var init := path[..|path| - 1];
      AddPathAt(t, init, p);
      AddPathAt(t, init, path);
      assert p <= path <==> p <= init || p == path;
    }
  }

  /** The facts about a table that the decoder compiler relies on. */
  ghost predicate PrefixFree(rows: seq<Row>) {
    forall i, j :: 0 <= i < |rows| && 0 <= j < |rows| && i != j ==> !(Path(rows[i]) <= Path(rows[j]))
  }

  ghost predicate ValidCode(rows: seq<Row>) {
    && PrefixFree(rows)
    && (forall i :: 0 <= i < |rows| ==> 5 <= rows[i].bits && rows[i].code < Pow2(rows[i].bits))
    && (exists i :: 0 <= i < |rows| && rows[i].symbol == EOS)
    && (forall i :: 0 <= i < |rows| && rows[i].symbol == EOS ==> Path(rows[i]) == Ones(EOS_BITS))
  }

  ghost predicate OnSomePath(rows: seq<Row>, p: Bits) {
    p == [] || exists i :: 0 <= i < |rows| && p <= Path(rows[i])
  }

  /** Nodes of a built trie are exactly the prefixes of the code words. */
  lemma {:induction false} TrieNodes(rows: seq<Row>, p: Bits)
    ensures p in BuildTrie(rows) <==> OnSomePath(rows, p)
  {
    if rows != [] {
      var init, last := rows[..|rows| - 1], rows[|rows| - 1];
      TrieNodes(init, p);
      AddPathAt(BuildTrie(init), Path(last), p);
      assert forall i :: 0 <= i < |init| ==> init[i] == rows[i];
      if OnSomePath(rows, p) && p != [] {
        var i :| 0 <= i < |rows| && p <= Path(rows[i]);
        assert i < |init| ==> p <= Path(init[i]);
      }
      if p in BuildTrie(init) && p != [] {
        var i :| 0 <= i < |init| && p <= Path(init[i]);
        assert p <= Path(rows[i]);
      }
    }
  }

  /** A node carries a symbol, or the EOS mark, only because some row ends there. */
  lemma {:induction false} TrieMarks(rows: seq<Row>, p: Bits)
    requires p in BuildTrie(rows)
    ensures var n := BuildTrie(rows)[p];
      && (n.symbol.Some? ==>
            exists i :: 0 <= i < |rows| && Path(rows[i]) == p && rows[i].symbol == n.symbol.value != EOS)
      && (n.isEos ==> exists i :: 0 <= i < |rows| && Path(rows[i]) == p && rows[i].symbol == EOS)
    ensures forall i :: 0 <= i < |rows| && Path(rows[i]) == p ==>
      if rows[i].symbol == EOS then BuildTrie(rows)[p].isEos else BuildTrie(rows)[p].symbol.Some?
  {
    if rows != [] {
      var init, last := rows[..|rows| - 1], rows[|rows| - 1];
      AddPathAt(BuildTrie(init), Path(last), p);
      assert forall i :: 0 <= i < |init| ==> init[i] == rows[i];
      if p in BuildTrie(init) {
        TrieMarks(init, p);
      } else {
        forall i | 0 <= i < |init| ensures Path(init[i]) != p {
          TrieNodes(init, p);
        }
      }
    }
  }

  // ----- what a trie built from a valid code looks like, however it was built -----

  function Parent(p: Bits): Bits {
    if p == [] then [] else p[..|p| - 1]
  }

  ghost predicate PrefixClosed(t: Trie) {
    [] in t && forall p {:trigger Parent(p)} :: p in t ==> Parent(p) in t
  }

  ghost predicate SymbolsComeFromRows(t: Trie, rows: seq<Row>) {
    forall p :: p in t && t[p].symbol.Some? ==>
      exists i :: 0 <= i < |rows| && Path(rows[i]) == p && rows[i].symbol == t[p].symbol.value != EOS
  }

  ghost predicate EosOnlyAtOnes(t: Trie) {
    forall p :: p in t && t[p].isEos ==> p == Ones(EOS_BITS)
  }

  function MarkFor(row: Row): Node {
    if row.symbol == EOS then Node(None, true) else Node(Some(row.symbol), false)
  }

  ghost predicate RowsAreMarked(t: Trie, rows: seq<Row>) {
    forall i :: 0 <= i < |rows| ==> Path(rows[i]) in t && t[Path(rows[i])] == MarkFor(rows[i])
  }

  /** Marked nodes are leaves. */
  ghost predicate InnerNodesAreFresh(t: Trie) {
    forall p, b :: p in t && p + [b] in t ==> t[p] == FRESH
  }

  ghost predicate Represents(t: Trie, rows: seq<Row>) {
    && PrefixClosed(t)
    && t[[]] == FRESH
    && SymbolsComeFromRows(t, rows)
    && EosOnlyAtOnes(t)
    && RowsAreMarked(t, rows)
    && InnerNodesAreFresh(t)
  }

  lemma BuildRepresents(rows: seq<Row>)
    requires ValidCode(rows)
    ensures Represents(BuildTrie(rows), rows)
  {
    var t := BuildTrie(rows);
    BuildPrefixClosed(rows);
    assert SymbolsComeFromRows(t, rows) by {
      forall p | p in t && t[p].symbol.Some?
        ensures exists i :: 0 <= i < |rows| && Path(rows[i]) == p && rows[i].symbol == t[p].symbol.value != EOS
      {
        TrieMarks(rows, p);
      }
    }
    assert EosOnlyAtOnes(t) by {
      forall p | p in t && t[p].isEos ensures p == Ones(EOS_BITS) {
        TrieMarks(rows, p);
      }
    }
    assert RowsAreMarked(t, rows) by {
      forall i | 0 <= i < |rows| ensures Path(rows[i]) in t && t[Path(rows[i])] == MarkFor(rows[i]) {
        MarkOfRow(rows, i);
      }
    }
    assert InnerNodesAreFresh(t) by {
      forall p, b | p in t && p + [b] in t ensures t[p] == FRESH {
        InnerNodeIsFresh(rows, p, b);
      }
    }
    TrieMarks(rows, []);
  }

  lemma BuildPrefixClosed(rows: seq<Row>)
    ensures PrefixClosed(BuildTrie(rows))
  {
    TrieNodes(rows, []);
    forall p | p in BuildTrie(rows) ensures Parent(p) in BuildTrie(rows) {
      TrieNodes(rows, p);
      TrieNodes(rows, Parent(p));
      if p != [] {
        var i :| 0 <= i < |rows| && p <= Path(rows[i]);
        assert Parent(p) <= Path(rows[i]);
      }
    }
  }

  lemma MarkOfRow(rows: seq<Row>, i: nat)
    requires ValidCode(rows) && i < |rows|
    ensures Path(rows[i]) in BuildTrie(rows)
    ensures BuildTrie(rows)[Path(rows[i])] == MarkFor(rows[i])
  {
    var p := Path(rows[i]);
    assert p <= Path(rows[i]);
    TrieNodes(rows, p);
    TrieMarks(rows, p);
    forall k | 0 <= k < |rows| && Path(rows[k]) == p ensures k == i {
      assert Path(rows[k]) <= Path(rows[i]);
    }
  }

  lemma InnerNodeIsFresh(rows: seq<Row>, p: Bits, b: bool)
    requires ValidCode(rows)
    requires p in BuildTrie(rows) && p + [b] in BuildTrie(rows)
    ensures BuildTrie(rows)[p] == FRESH
  {
    TrieMarks(rows, p);
    TrieNodes(rows, p + [b]);
    var j :| 0 <= j < |rows| && p + [b] <= Path(rows[j]);
    assert p <= Path(rows[j]);
    assert !exists i :: 0 <= i < |rows| && Path(rows[i]) == p;
  }

  // ----- the reference decoder: one bit at a time -----

  datatype Walk = Dead | At(node: Bits, out: seq<nat>)

  function StepBit(t: Trie, p: Bits, b: bool): Walk {
    var q := p + [b];
    if q !in t then Dead
    else if t[q].symbol.Some? then At([], [t[q].symbol.value])
    else if t[q].isEos then Dead
    else At(q, [])
  }

  function WalkBits(t: Trie, p: Bits, bits: Bits): Walk
    decreases bits
  {
    if bits == [] then At(p, [])
    else match StepBit(t, p, bits[0])
      case Dead => Dead
      case At(q, out) =>
        match WalkBits(t, q, bits[1..])
        case Dead => Dead
        case At(r, more) => At(r, out + more)
  }

  /** Whether padding may stop at node p: the root, or a node from which ones alone reach EOS. */
  predicate Accepting(t: Trie, p: Bits) {
    p == [] || OnesReachEos(t, p, EOS_BITS)
  }

  predicate OnesReachEos(t: Trie, p: Bits, fuel: nat)
    decreases fuel
  {
    var q := p + [true];
    && fuel > 0
    && q in t
    && t[q].symbol.None?
    && (t[q].isEos || OnesReachEos(t, q, fuel - 1))
  }

  function ByteBits(bytes: seq<byte>): Bits {
    if bytes == [] then [] else CodeBits(bytes[0], 8) + ByteBits(bytes[1..])
  }

  function BitDecode(t: Trie, bytes: seq<byte>): Option<seq<nat>> {
    match WalkBits(t, [], ByteBits(bytes))
    case Dead => None
    case At(p, out) => if Accepting(t, p) then Some(out) else None
  }

  lemma {:induction false} WalkConcat(t: Trie, p: Bits, a: Bits, b: Bits)
    ensures WalkBits(t, p, a + b) ==
      match WalkBits(t, p, a)
      case Dead => Dead
      case At(q, out) =>
        match WalkBits(t, q, b)
        case Dead => Dead
        case At(r, more) => At(r, out + more)
    decreases a
  {
    if a == [] {
      assert a + b == b;
    } else {
      assert (a + b)[1..] == a[1..] + b;
      match StepBit(t, p, a[0])
      case Dead =>
      case At(q, out) =>
        WalkConcat(t, q, a[1..], b);
        assert forall x, y: seq<nat> :: out + (x + y) == (out + x) + y;
    }
  }

  /** Every node the walk can stand on is an unmarked trie node. */
  lemma {:induction false} WalkStaysInside(t: Trie, p: Bits, bits: Bits)
    requires [] in t && t[[]] == FRESH && p in t && t[p] == FRESH
    ensures WalkBits(t, p, bits).At? ==> WalkBits(t, p, bits).node in t && t[WalkBits(t, p, bits).node] == FRESH
    decreases bits
  {
    if bits != [] && StepBit(t, p, bits[0]).At? {
      WalkStaysInside(t, StepBit(t, p, bits[0]).node, bits[1..]);
    }
  }

  lemma OnesSnoc(p: Bits)
    ensures p + [true] == Ones(|p| + 1) <==> p == Ones(|p|)
  {
    assert (p + [true])[..|p|] == p;
    assert Ones(|p| + 1)[..|p|] == Ones(|p|);
    assert Ones(|p| + 1) == Ones(|p|) + [true];
  }

  lemma {:induction false} OnesReachEosOnly(t: Trie, p: Bits, fuel: nat)
    requires EosOnlyAtOnes(t)
    requires OnesReachEos(t, p, fuel) && fuel <= EOS_BITS
    ensures p == Ones(|p|) && EOS_BITS - fuel <= |p| < EOS_BITS
    decreases fuel
  {
    var q := p + [true];
    OnesSnoc(p);
    if !t[q].isEos {
      OnesReachEosOnly(t, q, fuel - 1);
    }
  }

  ghost predicate EosIsALeaf(t: Trie) {
    && PrefixClosed(t)
    && InnerNodesAreFresh(t)
    && Ones(EOS_BITS) in t
    && t[Ones(EOS_BITS)] == Node(None, true)
  }

  lemma EosPath(t: Trie, rows: seq<Row>)
    requires ValidCode(rows) && Represents(t, rows)
    ensures EosIsALeaf(t)
  {
    var i :| 0 <= i < |rows| && rows[i].symbol == EOS;
    assert Path(rows[i]) == Ones(EOS_BITS);
  }

  lemma {:induction false} OnesInside(t: Trie, k: nat)
    requires EosIsALeaf(t) && k <= EOS_BITS
    ensures Ones(k) in t && (k < EOS_BITS ==> t[Ones(k)] == FRESH)
    decreases EOS_BITS - k
  {
    if k < EOS_BITS {
      OnesInside(t, k + 1);
      assert Parent(Ones(k + 1)) == Ones(k);
      assert Ones(k) + [true] == Ones(k + 1);
    }
  }

  lemma {:induction false} OnesDoReachEos(t: Trie, k: nat, fuel: nat)
    requires EosIsALeaf(t)
    requires EOS_BITS - fuel <= k < EOS_BITS
    ensures OnesReachEos(t, Ones(k), fuel)
    decreases fuel
  {
    OnesInside(t, k + 1);
    OnesSnoc(Ones(k));
    if k + 1 < EOS_BITS {
      OnesDoReachEos(t, k + 1, fuel - 1);
    }
  }

  /**
    * A state is a valid end of input iff it is the root or lies strictly inside the all-ones
    * path of EOS.
    */
  lemma AcceptingIff(t: Trie, rows: seq<Row>, p: Bits)
    requires ValidCode(rows) && Represents(t, rows)
    ensures Accepting(t, p) <==> p == Ones(|p|) && |p| < EOS_BITS
  {
    if p == Ones(|p|) && |p| < EOS_BITS {
      EosPath(t, rows);
      OnesDoReachEos(t, |p|, EOS_BITS);
    } else if OnesReachEos(t, p, EOS_BITS) {
      OnesReachEosOnly(t, p, EOS_BITS);
    }
  }
}
