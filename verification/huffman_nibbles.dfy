/**
  * The 4-bit state machine: what one table entry must hold, decoding with a table, and the
  * agreement of every correctly filled table with the bit-by-bit walk of the trie.
  */
module HuffmanNibbles {
  import opened Prelude
  import opened HuffmanCode

  type nibble = n: nat | n < 16

  const EMIT: nat := 1
  const FAIL: nat := 4

  datatype Entry = Entry(next: nat, flags: nat, symbol: nat)

  /** Rows start out unfilled, as the generator creates them. */
  type Table = seq<seq<Option<Entry>>>

  datatype NibbleRun = Failed | Landed(node: Bits, emit: Option<nat>)

  /** The generator's inner loop: it keeps one symbol slot, overwritten by each completed symbol. */
  function RunNibble(t: Trie, p: Bits, bits: Bits, emit: Option<nat>): NibbleRun
    decreases bits
  {
    if bits == [] then Landed(p, emit)
    else match StepBit(t, p, bits[0])
      case Dead => Failed
      case At(q, out) => RunNibble(t, q, bits[1..], if out == [] then emit else Some(out[0]))
  }

  ghost predicate EntryMeans(t: Trie, paths: seq<Bits>, from: Bits, n: nibble, slot: Option<Entry>) {
    && slot.Some?
    && match RunNibble(t, from, CodeBits(n, 4), None)
       case Failed => slot.value == Entry(0, FAIL, 0)
       case Landed(q, emit) =>
         && slot.value.next < |paths|
         && paths[slot.value.next] == q
         && slot.value.flags == (if emit.Some? then EMIT else 0)
         && slot.value.symbol == (if emit.Some? then emit.value else 0)
  }

  ghost predicate RowMeans(t: Trie, paths: seq<Bits>, from: Bits, row: seq<Option<Entry>>) {
    |row| == 16 && forall n: nibble :: EntryMeans(t, paths, from, n, row[n])
  }

  /** The table, its accepting flags and the trie nodes its states stand for belong together. */
  ghost predicate TableFor(t: Trie, table: Table, accepting: seq<bool>, paths: seq<Bits>) {
    && |table| == |accepting| == |paths| > 0
    && paths[0] == []
    && (forall i, j :: 0 <= i < j < |paths| ==> paths[i] != paths[j])
    && (forall s :: 0 <= s < |paths| ==> paths[s] in t && t[paths[s]] == FRESH)
    && (forall s :: 0 <= s < |paths| ==> RowMeans(t, paths, paths[s], table[s]))
    && (forall s :: 0 <= s < |paths| ==> accepting[s] == Accepting(t, paths[s]))
  }

  /** All that decoding needs in order not to fall off the table. */
  predicate WellShaped(table: Table, accepting: seq<bool>) {
    && |table| == |accepting| > 0
    && forall s :: 0 <= s < |table| ==> FilledRow(table[s], |table|)
  }

  predicate FilledRow(row: seq<Option<Entry>>, states: nat) {
    |row| == 16 && forall n :: 0 <= n < 16 ==> row[n].Some? && row[n].value.next < states
  }

  lemma TableForIsWellShaped(t: Trie, table: Table, accepting: seq<bool>, paths: seq<Bits>)
    requires TableFor(t, table, accepting, paths)
    ensures WellShaped(table, accepting)
  {
    forall s | 0 <= s < |table| ensures FilledRow(table[s], |table|) {
      assert RowMeans(t, paths, paths[s], table[s]);
      forall n: nibble ensures table[s][n].Some? && table[s][n].value.next < |table| {
        assert EntryMeans(t, paths, paths[s], n, table[s][n]);
      }
      forall n | 0 <= n < 16 ensures table[s][n].Some? && table[s][n].value.next < |table| {
        var m: nibble := n;
      }
    }
  }

  // ----- decoding with a table -----

  function Nibbles(bytes: seq<byte>): seq<nibble> {
    if bytes == [] then [] else [bytes[0] / 16, bytes[0] % 16] + Nibbles(bytes[1..])
  }

  function NibbleBits(nibbles: seq<nibble>): Bits {
    if nibbles == [] then [] else CodeBits(nibbles[0], 4) + NibbleBits(nibbles[1..])
  }

  datatype TableWalk = Stuck | InState(state: nat, out: seq<nat>)

  function WalkTable(table: Table, accepting: seq<bool>, state: nat, nibbles: seq<nibble>): (w: TableWalk)
    requires WellShaped(table, accepting) && state < |table|
    ensures w.InState? ==> w.state < |table|
    decreases nibbles
  {
    if nibbles == [] then InState(state, [])
    else
      assert FilledRow(table[state], |table|);
      var entry := table[state][nibbles[0]].value;
      if entry.flags / FAIL % 2 == 1 then Stuck
      else
        match WalkTable(table, accepting, entry.next, nibbles[1..])
        case Stuck => Stuck
        case InState(s, out) => InState(s, (if entry.flags % 2 == EMIT then [entry.symbol] else []) + out)
  }

  function TableDecode(table: Table, accepting: seq<bool>, bytes: seq<byte>): Option<seq<nat>>
    requires WellShaped(table, accepting)
  {
    match WalkTable(table, accepting, 0, Nibbles(bytes))
    case Stuck => None
    case InState(s, out) => if accepting[s] then Some(out) else None
  }

  // ----- one symbol slot per nibble is enough -----

  /** The slot holds the last symbol completed; for any trie, short codes or not. */
  lemma {:induction false} SlotHoldsLastSymbol(t: Trie, p: Bits, bits: Bits, emit: Option<nat>)
    ensures match WalkBits(t, p, bits)
      case Dead => RunNibble(t, p, bits, emit) == Failed
      case At(q, out) => RunNibble(t, p, bits, emit) == Landed(q, if out == [] then emit else Some(out[|out| - 1]))
    decreases bits
  {
    if bits != [] {
      match StepBit(t, p, bits[0])
      case Dead =>
      case At(q, out) =>
        SlotHoldsLastSymbol(t, q, bits[1..], if out == [] then emit else Some(out[0]));
    }
  }

  ghost predicate SymbolsAreDeep(t: Trie) {
    forall p :: p in t && t[p].symbol.Some? ==> |p| >= 5
  }

  lemma {:induction false} QuietNearRoot(t: Trie, p: Bits, bits: Bits)
    requires SymbolsAreDeep(t) && |p| + |bits| < 5
    ensures WalkBits(t, p, bits).At? ==> WalkBits(t, p, bits).out == []
    decreases bits
  {
    if bits != [] && StepBit(t, p, bits[0]).At? {
      QuietNearRoot(t, StepBit(t, p, bits[0]).node, bits[1..]);
    }
  }

  /** No nibble completes two symbols, so the single slot never loses output. */
  lemma {:induction false} OneSymbolPerNibble(t: Trie, p: Bits, bits: Bits)
    requires SymbolsAreDeep(t) && |bits| <= 5
    ensures WalkBits(t, p, bits).At? ==> |WalkBits(t, p, bits).out| <= 1
    decreases bits
  {
    if bits != [] && StepBit(t, p, bits[0]).At? {
      var At(q, out) := StepBit(t, p, bits[0]);
      if out == [] {
        OneSymbolPerNibble(t, q, bits[1..]);
      } else {
        QuietNearRoot(t, [], bits[1..]);
      }
    }
  }

  // ----- table decoding is bit decoding -----

  /** Shifting by `n` and or-ing in a value below 2^n appends its bits. */
  lemma {:induction false} CodeBitsJoin(high: nat, m: nat, low: nat, n: nat)
    requires low < Pow2(n)
    ensures CodeBits(high * Pow2(n) + low, m + n) == CodeBits(high, m) + CodeBits(low, n)
  {
    if n == 0 {
      assert high * Pow2(0) + low == high;
    } else {
      assert high * Pow2(n) + low == 2 * (high * Pow2(n - 1)) + low;
      assert (high * Pow2(n) + low) / 2 == high * Pow2(n - 1) + low / 2;
      CodeBitsJoin(high, m, low / 2, n - 1);
    }
  }

  lemma CodeBitsSplit(x: nat, high: nat, m: nat, low: nat, n: nat)
    requires low < Pow2(n) && x == high * Pow2(n) + low
    ensures CodeBits(x, m + n) == CodeBits(high, m) + CodeBits(x, n)
  {
    CodeBitsJoin(high, m, low, n);
    CodeBitsJoin(high, 0, low, n);
    assert CodeBits(high, 0) == [];
    assert 0 + n == n;
  }

  /** A byte is its high nibble followed by its low one. */
  lemma ByteIsTwoNibbles(b: byte)
    ensures CodeBits(b, 8) == CodeBits(b / 16, 4) + CodeBits(b % 16, 4)
  {
    var high, low := b / 16, b % 16;
    assert Pow2(4) == 16;
    CodeBitsJoin(high, 4, low, 4);
  }

  lemma NibbleBitsFront(n: nibble, rest: seq<nibble>)
    ensures NibbleBits([n] + rest) == CodeBits(n, 4) + NibbleBits(rest)
  {
    assert ([n] + rest)[1..] == rest;
  }

  lemma {:induction false} NibblesOfBytes(bytes: seq<byte>)
    ensures NibbleBits(Nibbles(bytes)) == ByteBits(bytes)
  {
    hide CodeBits;
    if bytes != [] {
      var high: nibble, low: nibble, rest := bytes[0] / 16, bytes[0] % 16, bytes[1..];
      NibblesOfBytes(rest);
      ByteIsTwoNibbles(bytes[0]);
      assert Nibbles(bytes) == [high] + ([low] + Nibbles(rest));
      hide Nibbles, NibbleBits;
      NibbleBitsFront(high, [low] + Nibbles(rest));
      NibbleBitsFront(low, Nibbles(rest));
      Assoc(CodeBits(high, 4), CodeBits(low, 4), NibbleBits(Nibbles(rest)));
    }
  }

  lemma NibbleRunIsBitWalk(t: Trie, p: Bits, bits: Bits)
    requires SymbolsAreDeep(t) && |bits| <= 5
    ensures match RunNibble(t, p, bits, None)
      case Failed => WalkBits(t, p, bits) == Dead
      case Landed(q, emit) => WalkBits(t, p, bits) == At(q, if emit.Some? then [emit.value] else [])
  {
    SlotHoldsLastSymbol(t, p, bits, None);
    OneSymbolPerNibble(t, p, bits);
  }

  lemma EntryIsBitWalk(t: Trie, paths: seq<Bits>, from: Bits, n: nibble, slot: Option<Entry>)
    requires SymbolsAreDeep(t) && EntryMeans(t, paths, from, n, slot)
    ensures var e := slot.value;
      if e.flags / FAIL % 2 == 1
      then WalkBits(t, from, CodeBits(n, 4)) == Dead
      else e.next < |paths| && WalkBits(t, from, CodeBits(n, 4)) ==
                                 At(paths[e.next], if e.flags % 2 == EMIT then [e.symbol] else [])
  {
    hide WalkBits, RunNibble, CodeBits, SymbolsAreDeep;
    NibbleRunIsBitWalk(t, from, CodeBits(n, 4));
  }

  lemma {:induction false} TableWalkIsBitWalk(t: Trie, table: Table, accepting: seq<bool>, paths: seq<Bits>,
                                              state: nat, nibbles: seq<nibble>)
    requires SymbolsAreDeep(t) && TableFor(t, table, accepting, paths) && state < |table|
    requires WellShaped(table, accepting)
    ensures match WalkTable(table, accepting, state, nibbles)
      case Stuck => WalkBits(t, paths[state], NibbleBits(nibbles)) == Dead
      case InState(s, out) => WalkBits(t, paths[state], NibbleBits(nibbles)) == At(paths[s], out)
    decreases nibbles
  {
    if nibbles != [] {
      assert RowMeans(t, paths, paths[state], table[state]);
      EntryIsBitWalk(t, paths, paths[state], nibbles[0], table[state][nibbles[0]]);
      WalkConcat(t, paths[state], CodeBits(nibbles[0], 4), NibbleBits(nibbles[1..]));
      var entry := table[state][nibbles[0]].value;
      if entry.flags / FAIL % 2 != 1 {
        TableWalkIsBitWalk(t, table, accepting, paths, entry.next, nibbles[1..]);
      }
    }
  }

  /** For every byte string the table accepts, rejects and outputs exactly as the trie walk does. */
  lemma TableDecodeIsBitDecode(t: Trie, table: Table, accepting: seq<bool>, paths: seq<Bits>, bytes: seq<byte>)
    requires SymbolsAreDeep(t) && TableFor(t, table, accepting, paths)
    ensures WellShaped(table, accepting)
    ensures TableDecode(table, accepting, bytes) == BitDecode(t, bytes)
  {
    TableForIsWellShaped(t, table, accepting, paths);
    NibblesOfBytes(bytes);
    TableWalkIsBitWalk(t, table, accepting, paths, 0, Nibbles(bytes));
  }
}
