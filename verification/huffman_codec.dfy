/**
  * The encoder and the table-driven decoder of the generator script, and their round trip for
  * every valid code.
  */
module HuffmanCodec {
  import opened Prelude
  import opened HuffmanCode
  import opened HuffmanNibbles

  /** The first row for a symbol, as the encoder's linear scan finds it. */
  function Lookup(rows: seq<Row>, symbol: nat): (r: Option<Row>)
    ensures r.Some? ==> r.value in rows && r.value.symbol == symbol
    ensures r.None? ==> forall i :: 0 <= i < |rows| ==> rows[i].symbol != symbol
  {
    if rows == [] then None
    else if rows[0].symbol == symbol then Some(rows[0])
    else Lookup(rows[1..], symbol)
  }

  /** Symbols without a row contribute nothing. */
  function SymbolBits(rows: seq<Row>, symbol: nat): Bits {
    match Lookup(rows, symbol)
    case None => []
    case Some(row) => Path(row)
  }

  function TextBits(rows: seq<Row>, text: seq<nat>): Bits {
    if text == [] then [] else TextBits(rows, text[..|text| - 1]) + SymbolBits(rows, text[|text| - 1])
  }

  function PadLength(bits: nat): (r: nat)
    ensures r < 8 && (bits + r) % 8 == 0
  {
    (8 - bits % 8) % 8
  }

  /** The codes of the text in order, filled up with ones to a whole byte. */
  ghost predicate IsEncoding(rows: seq<Row>, text: seq<nat>, bytes: seq<byte>) {
    ByteBits(bytes) == TextBits(rows, text) + Ones(PadLength(|TextBits(rows, text)|))
  }

  ghost predicate CodesFit(rows: seq<Row>) {
    forall i :: 0 <= i < |rows| ==> rows[i].code < Pow2(rows[i].bits)
  }

  lemma {:induction false} ByteBitsSnoc(bytes: seq<byte>, b: byte)
    ensures ByteBits(bytes + [b]) == ByteBits(bytes) + CodeBits(b, 8)
  {
    if bytes == [] {
      assert bytes + [b] == [b];
    } else {
      ByteBitsSnoc(bytes[1..], b);
      assert (bytes + [b])[1..] == bytes[1..] + [b];
    }
  }

  lemma LowByte(x: nat)
    ensures CodeBits(x % 256, 8) == CodeBits(x, 8)
  {
    assert Pow2(8) == 256;
    CodeBitsSplit(x, x / 256, 0, x % 256, 8);
    CodeBitsJoin(x / 256, 0, x % 256, 8);
  }

  /** Moving the oldest eight of `n + 8` buffered bits into the result. */
  lemma EmitByte(bytes: seq<byte>, buffer: nat, n: nat, high: nat, low: nat)
    requires low < Pow2(n) && buffer == high * Pow2(n) + low
    ensures ByteBits(bytes + [high % 256]) + CodeBits(buffer, n) == ByteBits(bytes) + CodeBits(buffer, n + 8)
  {
    ghost var sent := ByteBits(bytes + [high % 256]);
    assert sent == ByteBits(bytes) + CodeBits(high, 8) by {
      LowByte(high);
      ByteBitsSnoc(bytes, high % 256);
    }
    assert CodeBits(buffer, n + 8) == CodeBits(high, 8) + CodeBits(buffer, n) by {
      CodeBitsSplit(buffer, high, 8, low, n);
      assert n + 8 == 8 + n;
    }
  }

  lemma {:induction false} OnesAsCode(n: nat)
    ensures CodeBits(Pow2(n) - 1, n) == Ones(n)
  {
    if n > 0 {
      OnesAsCode(n - 1);
      assert (Pow2(n) - 1) / 2 == Pow2(n - 1) - 1;
      assert Ones(n) == Ones(n - 1) + [true];
    }
  }

  lemma {:induction false} ByteBitsLength(bytes: seq<byte>)
    ensures |ByteBits(bytes)| == 8 * |bytes|
  {
    if bytes != [] {
      ByteBitsLength(bytes[1..]);
    }
  }

  /** Filling the last, partial byte with ones. */
  lemma EmitPadding(bytes: seq<byte>, buffer: nat, nbits: nat, last: nat)
    requires 0 < nbits < 8 && last == buffer * Pow2(8 - nbits) + (Pow2(8 - nbits) - 1)
    ensures ByteBits(bytes + [last % 256]) == ByteBits(bytes) + CodeBits(buffer, nbits) + Ones(8 - nbits)
  {
    OnesAsCode(8 - nbits);
    CodeBitsJoin(buffer, nbits, Pow2(8 - nbits) - 1, 8 - nbits);
    LowByte(last);
    ByteBitsSnoc(bytes, last % 256);
  }

  lemma TextBitsSnoc(rows: seq<Row>, text: seq<nat>, k: nat)
    requires k < |text|
    ensures TextBits(rows, text[..k + 1]) == TextBits(rows, text[..k]) + SymbolBits(rows, text[k])
  {
    assert text[..k + 1][..k] == text[..k];
  }

  /** The inner scan of the encoder. */
  method FindRow(rows: seq<Row>, symbol: nat) returns (found: Option<Row>)
    ensures found == Lookup(rows, symbol)
  {
    for i := 0 to |rows|
      invariant Lookup(rows, symbol) == Lookup(rows[i..], symbol)
    {
      if rows[i].symbol == symbol {
        return Some(rows[i]);
      }
      assert rows[i..][1..] == rows[i + 1..];
    }
    return None;
  }

  lemma PushCode(bytes: seq<byte>, buffer: nat, nbits: nat, row: Row)
    requires row.code < Pow2(row.bits)
    ensures ByteBits(bytes) + CodeBits(buffer * Pow2(row.bits) + row.code, nbits + row.bits) ==
            ByteBits(bytes) + CodeBits(buffer, nbits) + Path(row)
  {
    CodeBitsJoin(buffer, nbits, row.code, row.bits);
  }

  /** How many bits are left over once all whole bytes are out. */
  lemma Leftover(bytes: seq<byte>, buffer: nat, nbits: nat, sent: Bits)
    requires nbits < 8 && ByteBits(bytes) + CodeBits(buffer, nbits) == sent
    ensures |sent| % 8 == nbits && PadLength(|sent|) == if nbits == 0 then 0 else 8 - nbits
  {
    ByteBitsLength(bytes);
    hide ByteBits, CodeBits;
    PadAfterBytes(|bytes|, nbits);
  }

  lemma PadAfterBytes(n: nat, nbits: nat)
    requires nbits < 8
    ensures (8 * n + nbits) % 8 == nbits && PadLength(8 * n + nbits) == if nbits == 0 then 0 else 8 - nbits
  {
  }

  /** Shift the code of one symbol into the buffer; unknown symbols leave it alone. */
  method ShiftIn(rows: seq<Row>, symbol: nat, buffer: nat, nbits: nat, ghost bytes: seq<byte>)
    returns (buffer': nat, nbits': nat)
    requires CodesFit(rows)
    ensures ByteBits(bytes) + CodeBits(buffer', nbits') ==
            ByteBits(bytes) + CodeBits(buffer, nbits) + SymbolBits(rows, symbol)
  {
    buffer', nbits' := buffer, nbits;
    var found := FindRow(rows, symbol);
    if found.Some? {
      var row := found.value;
      PushCode(bytes, buffer, nbits, row);
      buffer', nbits' := buffer * Pow2(row.bits) + row.code, nbits + row.bits;
    }
  }

  /** The encoder's inner loop: whole bytes leave the buffer, oldest first. */
  method FlushBytes(bytes: seq<byte>, buffer: nat, bits: nat) returns (result: seq<byte>, nbits: nat)
    ensures nbits < 8
    ensures ByteBits(result) + CodeBits(buffer, nbits) == ByteBits(bytes) + CodeBits(buffer, bits)
  {
    result, nbits := bytes, bits;
    while nbits >= 8
      invariant ByteBits(result) + CodeBits(buffer, nbits) == ByteBits(bytes) + CodeBits(buffer, bits)
    {
      nbits := nbits - 8;
      var unit := Pow2(nbits);
      var high := buffer / unit;
      EmitByte(result, buffer, nbits, high, buffer % unit);
      result := result + [high % 256];
    }
  }

  /**
    * Bits are shifted into an unbounded integer whose low `nbits` bits are still to be sent;
    * or-ing into freshly shifted-in zeros is addition.
    */
  method Encode(rows: seq<Row>, text: seq<nat>) returns (result: seq<byte>)
    requires CodesFit(rows)
    ensures IsEncoding(rows, text, result)
  {
    var buffer: nat, nbits: nat := 0, 0;
    result := [];
    for k := 0 to |text|
      invariant nbits < 8
      invariant ByteBits(result) + CodeBits(buffer, nbits) == TextBits(rows, text[..k])
    {
      TextBitsSnoc(rows, text, k);
      buffer, nbits := ShiftIn(rows, text[k], buffer, nbits, result);
      result, nbits := FlushBytes(result, buffer, nbits);
    }
    assert text[..|text|] == text;
    Leftover(result, buffer, nbits, TextBits(rows, text));
    if nbits > 0 {
      var last := buffer * Pow2(8 - nbits) + (Pow2(8 - nbits) - 1);
      EmitPadding(result, buffer, nbits, last);
      result := result + [last % 256];
    }
  }

  /** A walk continued after `out` has already been produced. */
  ghost function Resume(out: seq<nat>, w: TableWalk): TableWalk {
    match w
    case Stuck => Stuck
    case InState(s, more) => InState(s, out + more)
  }

  lemma WalkTableStep(table: Table, accepting: seq<bool>, state: nat, n: nibble, rest: seq<nibble>, out: seq<nat>)
    requires WellShaped(table, accepting) && state < |table|
    ensures FilledRow(table[state], |table|)
    ensures var e := table[state][n].value;
      Resume(out, WalkTable(table, accepting, state, [n] + rest)) ==
      if e.flags / FAIL % 2 == 1 then Stuck
      else Resume(if e.flags % 2 == EMIT then out + [e.symbol] else out, WalkTable(table, accepting, e.next, rest))
  {
    assert ([n] + rest)[1..] == rest;
  }

  lemma NibblesStep(bytes: seq<byte>, k: nat)
    requires k < |bytes|
    ensures Nibbles(bytes[k..]) == [bytes[k] / 16] + ([bytes[k] % 16] + Nibbles(bytes[k + 1..]))
  {
    assert bytes[k..][1..] == bytes[k + 1..];
  }

  /** The decoder of the script: two table steps per byte, then the accepting flag. */
  method Decode(table: Table, accepting: seq<bool>, bytes: seq<byte>) returns (decoded: seq<nat>, ok: bool)
    requires WellShaped(table, accepting)
    ensures (if ok then Some(decoded) else None) == TableDecode(table, accepting, bytes)
    ensures !ok ==> decoded == []
  {
    var state: nat := 0;
    decoded := [];
    ghost var whole := WalkTable(table, accepting, 0, Nibbles(bytes));
    assert bytes[0..] == bytes;
    for k := 0 to |bytes|
      invariant state < |table|
      invariant whole == Resume(decoded, WalkTable(table, accepting, state, Nibbles(bytes[k..])))
    {
      var hi: nibble, lo: nibble := bytes[k] / 16, bytes[k] % 16;
      NibblesStep(bytes, k);

      WalkTableStep(table, accepting, state, hi, [lo] + Nibbles(bytes[k + 1..]), decoded);
      var entry := table[state][hi].value;
      if entry.flags / FAIL % 2 == 1 {
        return [], false;
      }
      if entry.flags % 2 == EMIT {
        decoded := decoded + [entry.symbol];
      }
      state := entry.next;

      WalkTableStep(table, accepting, state, lo, Nibbles(bytes[k + 1..]), decoded);
      entry := table[state][lo].value;
      if entry.flags / FAIL % 2 == 1 {
        return [], false;
      }
      if entry.flags % 2 == EMIT {
        decoded := decoded + [entry.symbol];
      }
      state := entry.next;
    }
    assert bytes[|bytes|..] == [] && decoded + [] == decoded;
    if !accepting[state] {
      return [], false;
    }
    return decoded, true;
  }

  // ----- decoding inverts encoding -----

  lemma WalkOneBit(t: Trie, p: Bits, b: bool)
    ensures WalkBits(t, p, [b]) == StepBit(t, p, b)
  {
    if StepBit(t, p, b).At? {
      var At(q, out) := StepBit(t, p, b);
      assert WalkBits(t, q, [b][1..]) == At(q, []);
      assert out + [] == out;
    }
  }

  lemma InnerStep(t: Trie, p: Bits, b: bool, c: bool)
    requires InnerNodesAreFresh(t) && p + [b] in t && p + [b] + [c] in t
    ensures StepBit(t, p, b) == At(p + [b], [])
  {
  }

  /** Every proper prefix of a path in the trie is walked silently. */
  lemma {:induction false} WalkAlongPath(t: Trie, path: Bits, j: nat)
    requires PrefixClosed(t) && InnerNodesAreFresh(t) && path in t && j < |path|
    ensures WalkBits(t, [], path[..j]) == At(path[..j], [])
  {
    if j == 0 {
      assert path[..0] == [];
    } else {
      WalkAlongPath(t, path, j - 1);
      var p, q, b := path[..j - 1], path[..j], path[j - 1];
      assert q == p + [b];
      assert q + [path[j]] == path[..j + 1];
      AncestorsInside(t, path, j);
      AncestorsInside(t, path, j + 1);
      InnerStep(t, p, b, path[j]);
      assert StepBit(t, p, b) == At(q, []);
      WalkConcat(t, [], p, [b]);
      WalkOneBit(t, p, b);
    }
  }

  lemma {:induction false} AncestorsInside(t: Trie, path: Bits, j: nat)
    requires PrefixClosed(t) && path in t && j <= |path|
    ensures path[..j] in t
    decreases |path| - j
  {
    if j == |path| {
      assert path[..j] == path;
    } else {
      AncestorsInside(t, path, j + 1);
      assert Parent(path[..j + 1]) == path[..j];
    }
  }

  lemma LastStep(t: Trie, rows: seq<Row>, row: Row, p: Bits, b: bool)
    requires RowsAreMarked(t, rows) && row in rows && Path(row) == p + [b]
    ensures StepBit(t, p, b) == if row.symbol == EOS then Dead else At([], [row.symbol])
  {
    var i :| 0 <= i < |rows| && rows[i] == row;
    assert t[Path(rows[i])] == MarkFor(rows[i]);
  }

  lemma WalkCodeWord(t: Trie, rows: seq<Row>, row: Row)
    requires PrefixClosed(t) && InnerNodesAreFresh(t) && RowsAreMarked(t, rows)
    requires row in rows && row.bits > 0
    ensures WalkBits(t, [], Path(row)) == if row.symbol == EOS then Dead else At([], [row.symbol])
  {
    var path := Path(row);
    var n := |path| - 1;
    var p, b := path[..n], path[n];
    assert path == p + [b];
    LastStep(t, rows, row, p, b);
    assert path in t;
    WalkAlongPath(t, path, n);
    WalkConcat(t, [], p, [b]);
    WalkOneBit(t, p, b);
  }

  /** What survives of a text: symbols without a row are skipped by the encoder. */
  function Known(rows: seq<Row>, text: seq<nat>): (r: seq<nat>)
    ensures |r| <= |text|
    ensures r == text <==> forall i :: 0 <= i < |text| ==> Lookup(rows, text[i]).Some?
  {
    if text == [] then []
    else
      var n := |text| - 1;
      var r := Known(rows, text[..n]);
      assert text == text[..n] + [text[n]];
      assert forall i :: 0 <= i < n ==> text[..n][i] == text[i];
      assert (r + [text[n]])[..|r|] == r;
      if Lookup(rows, text[n]).Some? then r + [text[n]] else r
  }

  lemma {:induction false} WalkText(t: Trie, rows: seq<Row>, text: seq<nat>)
    requires ValidCode(rows) && Represents(t, rows)
    ensures WalkBits(t, [], TextBits(rows, text)) == if EOS in text then Dead else At([], Known(rows, text))
  {
    if text != [] {
      var init, last := text[..|text| - 1], text[|text| - 1];
      assert text == init + [last];
      WalkText(t, rows, init);
      WalkConcat(t, [], TextBits(rows, init), SymbolBits(rows, last));
      if Lookup(rows, last).Some? {
        WalkCodeWord(t, rows, Lookup(rows, last).value);
      } else {
        assert last != EOS;
        assert EOS in text <==> EOS in init;
      }
    }
  }

  lemma SymbolDepth(t: Trie, rows: seq<Row>)
    requires ValidCode(rows) && Represents(t, rows)
    ensures SymbolsAreDeep(t)
  {
  }

  /** Ones alone lead along the EOS code and die at its end. */
  lemma WalkOnes(t: Trie, n: nat)
    requires EosIsALeaf(t)
    ensures WalkBits(t, [], Ones(n)) == if n < EOS_BITS then At(Ones(n), []) else Dead
  {
    hide WalkBits, StepBit;
    var inside := if n < EOS_BITS then n else EOS_BITS - 1;
    WalkAlongPath(t, Ones(EOS_BITS), inside);
    assert Ones(EOS_BITS)[..inside] == Ones(inside);
    if n >= EOS_BITS {
      assert Ones(n) == Ones(inside) + Ones(n - inside);
      WalkConcat(t, [], Ones(inside), Ones(n - inside));
      DeadAtEos(t, Ones(n - inside));
    }
  }

  lemma DeadAtEos(t: Trie, bits: Bits)
    requires EosIsALeaf(t) && bits != [] && bits[0]
    ensures WalkBits(t, Ones(EOS_BITS - 1), bits) == Dead
  {
    OnesSnoc(Ones(EOS_BITS - 1));
  }

  /**
    * Any text followed by any number of ones: the text comes back as long as the ones do not
    * complete EOS, however many there are.
    */
  lemma DecodeOfPadded(rows: seq<Row>, table: Table, accepting: seq<bool>, paths: seq<Bits>,
                       text: seq<nat>, n: nat, bytes: seq<byte>)
    requires ValidCode(rows) && TableFor(BuildTrie(rows), table, accepting, paths)
    requires ByteBits(bytes) == TextBits(rows, text) + Ones(n)
    ensures WellShaped(table, accepting)
    ensures TableDecode(table, accepting, bytes) ==
      if EOS in text || n >= EOS_BITS then None else Some(Known(rows, text))
  {
    hide WalkBits, TableDecode, TableFor, Represents, BuildTrie, Accepting, ByteBits, ValidCode, EosIsALeaf, WellShaped;
    hide TextBits, Known;
    var t := BuildTrie(rows);
    BuildRepresents(rows);
    SymbolDepth(t, rows);
    TableDecodeIsBitDecode(t, table, accepting, paths, bytes);
    WalkText(t, rows, text);
    WalkConcat(t, [], TextBits(rows, text), Ones(n));
    EosPath(t, rows);
    WalkOnes(t, n);
    AcceptingIff(t, rows, Ones(n));
    assert Known(rows, text) + [] == Known(rows, text);
  }

  /** Decoding any encoded text, EOS and unknown symbols included. */
  lemma DecodeOfEncoded(rows: seq<Row>, table: Table, accepting: seq<bool>, paths: seq<Bits>,
                        text: seq<nat>, bytes: seq<byte>)
    requires ValidCode(rows) && TableFor(BuildTrie(rows), table, accepting, paths)
    requires IsEncoding(rows, text, bytes)
    ensures WellShaped(table, accepting)
    ensures TableDecode(table, accepting, bytes) == if EOS in text then None else Some(Known(rows, text))
  {
    DecodeOfPadded(rows, table, accepting, paths, text, PadLength(|TextBits(rows, text)|), bytes);
  }

  /** The round trip succeeds exactly on texts of coded symbols that avoid EOS. */
  lemma RoundTripIff(rows: seq<Row>, table: Table, accepting: seq<bool>, paths: seq<Bits>,
                     text: seq<nat>, bytes: seq<byte>)
    requires ValidCode(rows) && TableFor(BuildTrie(rows), table, accepting, paths)
    requires IsEncoding(rows, text, bytes)
    ensures WellShaped(table, accepting)
    ensures TableDecode(table, accepting, bytes) == Some(text) <==>
      forall i :: 0 <= i < |text| ==> text[i] != EOS && Lookup(rows, text[i]).Some?
  {
    DecodeOfEncoded(rows, table, accepting, paths, text, bytes);
  }

  function AllOnesBytes(k: nat): seq<byte> {
    if k == 0 then [] else [255] + AllOnesBytes(k - 1)
  }

  lemma {:induction false} AllOnesBits(k: nat)
    ensures ByteBits(AllOnesBytes(k)) == Ones(8 * k)
  {
    if k > 0 {
      AllOnesBits(k - 1);
      OnesAsCode(8);
      assert Pow2(8) == 256;
      assert AllOnesBytes(k)[1..] == AllOnesBytes(k - 1);
      assert Ones(8 * k) == Ones(8) + Ones(8 * (k - 1));
    }
  }

  /**
    * Padding is not limited to seven bits: up to three whole bytes of ones decode to the empty
    * text. A fourth byte runs into EOS.
    */
  lemma LongPadding(rows: seq<Row>, table: Table, accepting: seq<bool>, paths: seq<Bits>, k: nat)
    requires ValidCode(rows) && TableFor(BuildTrie(rows), table, accepting, paths)
    ensures WellShaped(table, accepting)
    ensures TableDecode(table, accepting, AllOnesBytes(k)) == if k <= 3 then Some([]) else None
  {
    hide TableDecode, TableFor, BuildTrie, ValidCode, WellShaped, ByteBits;
    AllOnesBits(k);
    assert TextBits(rows, []) + Ones(8 * k) == Ones(8 * k);
    DecodeOfPadded(rows, table, accepting, paths, [], 8 * k, AllOnesBytes(k));
  }

  // ----- against section 5.2 of RFC 7541 -----

  /** The padding the RFC allows: fewer than eight ones after the last symbol. */
  predicate LegalPadding(p: Bits) {
    p == Ones(|p|) && |p| < 8
  }

  /** Decoding as the RFC has it: anything else left at the end is an error. */
  function StrictDecode(t: Trie, bytes: seq<byte>): Option<seq<nat>> {
    match WalkBits(t, [], ByteBits(bytes))
    case Dead => None
    case At(p, out) => if LegalPadding(p) then Some(out) else None
  }

  /** The bits end eight or more ones past the last symbol, short of EOS. */
  predicate EndsInLongPadding(t: Trie, bytes: seq<byte>) {
    match WalkBits(t, [], ByteBits(bytes))
    case Dead => false
    case At(p, _) => p == Ones(|p|) && 8 <= |p| < EOS_BITS
  }

  /** For every byte string the decoder does what the RFC says iff the string does not end in long padding. */
  lemma DecoderIsStrictIff(rows: seq<Row>, table: Table, accepting: seq<bool>, paths: seq<Bits>, bytes: seq<byte>)
    requires ValidCode(rows) && TableFor(BuildTrie(rows), table, accepting, paths)
    ensures WellShaped(table, accepting)
    ensures TableDecode(table, accepting, bytes) == StrictDecode(BuildTrie(rows), bytes) <==>
      !EndsInLongPadding(BuildTrie(rows), bytes)
  {
    hide TableDecode, TableFor, Represents, BuildTrie, Accepting, ByteBits, ValidCode, WellShaped, WalkBits;
    var t := BuildTrie(rows);
    BuildRepresents(rows);
    SymbolDepth(t, rows);
    TableDecodeIsBitDecode(t, table, accepting, paths, bytes);
    var w := WalkBits(t, [], ByteBits(bytes));
    if w.At? {
      AcceptingIff(t, rows, w.node);
    }
  }
}
