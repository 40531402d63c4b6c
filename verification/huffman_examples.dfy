/** The strings worked out in Appendix C.4 of RFC 7541 encode as printed there. */
module HuffmanExamples {
  import opened Prelude
  import opened HuffmanCode
  import opened HuffmanNibbles
  import opened HuffmanCodec
  import opened HuffmanRfc7541
  import opened FrameHeader

  function Codes(text: string): (r: seq<nat>)
    ensures |r| == |text|
  {
    seq(|text|, i requires 0 <= i < |text| => text[i] as nat)
  }

  /** The codes of the first k characters one after another, as one number of so many bits. */
  function Packed(text: string, k: nat): nat
    requires k <= |text|
  {
    if k == 0 then 0 else PushRow(Packed(text, k - 1), RowAt(text[k - 1] as nat))
  }

  function PackedBits(text: string, k: nat): nat
    requires k <= |text|
  {
    if k == 0 then 0 else PackedBits(text, k - 1) + RowAt(text[k - 1] as nat).bits
  }

  function PushRow(n: nat, r: Row): nat {
    n * Pow2(r.bits) + r.code
  }

  predicate IsByteText(text: string) {
    forall i :: 0 <= i < |text| ==> text[i] as nat < 256
  }

  /** The encoder's bits of a text are its codes packed. */
  lemma {:induction false} PackedIsText(text: string, k: nat)
    requires k <= |text| && IsByteText(text)
    ensures TextBits(HUFFMAN_TABLE, Codes(text)[..k]) == CodeBits(Packed(text, k), PackedBits(text, k))
  {
    hide RowAt, Lookup, Path, CodeBits, Pow2, SymbolBits;
    if k == 0 {
      assert CodeBits(0, 0) == [];
      assert Codes(text)[..0] == [];
    } else {
      PackedIsText(text, k - 1);
      var s := text[k - 1] as nat;
      TextBitsSnoc(HUFFMAN_TABLE, Codes(text), k - 1);
      BitsOfSymbol(s);
      CodeBitsJoin(Packed(text, k - 1), PackedBits(text, k - 1), RowAt(s).code, RowAt(s).bits);
    }
  }

  /** The scan of the table finds the row of the symbol. */
  lemma BitsOfSymbol(s: nat)
    requires s < 257
    ensures SymbolBits(HUFFMAN_TABLE, s) == CodeBits(RowAt(s).code, RowAt(s).bits)
    ensures RowAt(s).code < Pow2(RowAt(s).bits)
  {
    hide RowAt, Lookup, First, Count, SymbolAt, Pow2, CodeBits;
    Alphabet(s);
    TableIsValid();
    var r := Lookup(HUFFMAN_TABLE, s).value;
    var i :| 0 <= i < 257 && HUFFMAN_TABLE[i] == r;
    AllListed(i);
  }

  ghost predicate IsPacked(rows: seq<Row>, text: string, n: nat, bits: nat) {
    TextBits(rows, Codes(text)) == CodeBits(n, bits)
  }

  lemma Word(text: string, n: nat, bits: nat)
    requires IsByteText(text) && Packed(text, |text|) == n && PackedBits(text, |text|) == bits
    ensures IsPacked(HUFFMAN_TABLE, text, n, bits)
  {
    PackedIsText(text, |text|);
    assert Codes(text)[..|text|] == Codes(text);
  }

  lemma {:induction false} BitsOfParts(rows: seq<Row>, a: seq<nat>, b: seq<nat>)
    ensures TextBits(rows, a + b) == TextBits(rows, a) + TextBits(rows, b)
  {
    hide SymbolBits;
    if b == [] {
      assert a + b == a;
    } else {
      var n := |b| - 1;
      BitsOfParts(rows, a, b[..n]);
      assert (a + b)[..|a + b| - 1] == a + b[..n] && (a + b)[|a + b| - 1] == b[n];
      Assoc(TextBits(rows, a), TextBits(rows, b[..n]), SymbolBits(rows, b[n]));
    }
  }

  lemma Join(rows: seq<Row>, a: string, m: nat, high: nat, b: string, n: nat, low: nat)
    requires IsPacked(rows, a, high, m) && IsPacked(rows, b, low, n) && low < Pow2(n)
    ensures IsPacked(rows, a + b, high * Pow2(n) + low, m + n)
  {
    hide TextBits, CodeBits, Pow2;
    BitsOfParts(rows, Codes(a), Codes(b));
    assert Codes(a + b) == Codes(a) + Codes(b);
    CodeBitsJoin(high, m, low, n);
  }

  lemma EightBits()
    ensures Pow2(8) == 0x100
  {
  }

  lemma {:induction false} BitsOfOctets(n: nat, k: nat)
    ensures ByteBits(Octets(n, k)) == CodeBits(n, 8 * k)
    decreases k
  {
    if k == 0 {
      assert CodeBits(n, 0) == [];
    } else {
      hide CodeBits, Pow2, ByteBits;
      var high, low := n / 0x100, n % 0x100;
      assert Octets(n, k) == Octets(high, k - 1) + [low];
      hide Octets;
      BitsOfOctets(high, k - 1);
      ByteBitsSnoc(Octets(high, k - 1), low);
      JoinByte(n, high, 8 * (k - 1), low);
    }
  }

  lemma JoinByte(n: nat, high: nat, m: nat, low: byte)
    requires n == high * 0x100 + low
    ensures CodeBits(n, m + 8) == CodeBits(high, m) + CodeBits(low, 8)
  {
    hide CodeBits, Pow2;
    EightBits();
    CodeBitsJoin(high, m, low, 8);
  }

  lemma {:induction false} ByteBitsInjective(a: Bytes, b: Bytes)
    requires ByteBits(a) == ByteBits(b)
    ensures a == b
  {
    ByteBitsLength(a);
    ByteBitsLength(b);
    if a != [] {
      hide CodeBits, Pow2;
      assert CodeBits(a[0], 8) == ByteBits(a)[..8] == ByteBits(b)[..8] == CodeBits(b[0], 8);
      assert ByteBits(a[1..]) == ByteBits(a)[8..] == ByteBits(b)[8..] == ByteBits(b[1..]);
      EightBits();
      CodeBitsInjective(a[0], b[0], 8);
      ByteBitsInjective(a[1..], b[1..]);
      assert a == [a[0]] + a[1..] && b == [b[0]] + b[1..];
    }
  }

  /** The only encoding of a text, from its packed codes and their number of bits. */
  lemma EncodingIs(text: string, packed: nat, bits: nat, pad: nat, n: nat, bytes: Bytes)
    requires IsPacked(HUFFMAN_TABLE, text, packed, bits) && pad == PadLength(bits)
    requires 8 * |bytes| == bits + pad && bytes == Octets(n, |bytes|)
    requires n == packed * Pow2(pad) + (Pow2(pad) - 1)
    ensures forall b :: IsEncoding(HUFFMAN_TABLE, Codes(text), b) <==> b == bytes
  {
    hide CodeBits, ByteBits, TextBits, Octets, Pow2, PadLength, Codes;
    OnesAsCode(pad);
    CodeBitsJoin(packed, bits, Pow2(pad) - 1, pad);
    BitsOfOctets(n, |bytes|);
    OnlyEncoding(TextBits(HUFFMAN_TABLE, Codes(text)), HUFFMAN_TABLE, Codes(text), bytes);
  }

  lemma OnlyEncoding(bits: Bits, rows: seq<Row>, text: seq<nat>, bytes: Bytes)
    requires bits == TextBits(rows, text) && ByteBits(bytes) == bits + Ones(PadLength(|bits|))
    ensures forall b :: IsEncoding(rows, text, b) <==> b == bytes
  {
    hide ByteBits, TextBits, PadLength;
    forall b ensures IsEncoding(rows, text, b) <==> b == bytes {
      if IsEncoding(rows, text, b) {
        ByteBitsInjective(b, bytes);
      }
    }
  }

  /** The rows of the letters used below. */
  lemma LettersA()
    ensures RowAt('-' as nat) == Row(45, 0x16, 6)
    ensures RowAt('.' as nat) == Row(46, 0x17, 6)
    ensures RowAt('a' as nat) == Row(97, 0x3, 5)
    ensures RowAt('c' as nat) == Row(99, 0x4, 5)
    ensures RowAt('e' as nat) == Row(101, 0x5, 5)
    ensures RowAt('h' as nat) == Row(104, 0x27, 6)
  {
  }

  lemma LettersB()
    ensures RowAt('l' as nat) == Row(108, 0x28, 6)
    ensures RowAt('m' as nat) == Row(109, 0x29, 6)
    ensures RowAt('n' as nat) == Row(110, 0x2a, 6)
    ensures RowAt('o' as nat) == Row(111, 0x7, 5)
    ensures RowAt('p' as nat) == Row(112, 0x2b, 6)
    ensures RowAt('w' as nat) == Row(119, 0x78, 7)
    ensures RowAt('x' as nat) == Row(120, 0x79, 7)
  {
  }

  /** Shifting by the lengths that occur. */
  lemma PushCases()
    ensures forall n: nat, r: Row :: r.bits == 5 ==> PushRow(n, r) == n * 32 + r.code
    ensures forall n: nat, r: Row :: r.bits == 6 ==> PushRow(n, r) == n * 64 + r.code
    ensures forall n: nat, r: Row :: r.bits == 7 ==> PushRow(n, r) == n * 128 + r.code
    ensures Pow2(5) == 32 && Pow2(7) == 128
  {
    assert Pow2(6) == 64;
  }

  lemma {:induction false} OctetsJoin(high: nat, a: nat, low: nat, b: nat)
    requires low < Pow256(b)
    ensures Octets(high * Pow256(b) + low, a + b) == Octets(high, a) + Octets(low, b)
  {
    if b == 0 {
      assert high * Pow256(0) + low == high;
    } else {
      assert high * Pow256(b) + low == 0x100 * (high * Pow256(b - 1)) + low;
      assert (high * Pow256(b) + low) / 0x100 == high * Pow256(b - 1) + low / 0x100;
      assert (high * Pow256(b) + low) % 0x100 == low % 0x100;
      OctetsJoin(high, a, low / 0x100, b - 1);
    }
  }

  lemma OctetsOfFour(a: byte, b: byte, c: byte, d: byte)
    ensures Octets(Read32(a, b, c, d), 4) == [a, b, c, d]
  {
    NumberOfFour([a, b, c, d]);
    OctetsOfNumber([a, b, c, d]);
  }

  lemma JoinFour(high: nat, a: nat, low: nat)
    requires low < 0x1_0000_0000
    ensures Octets(high * 0x1_0000_0000 + low, a + 4) == Octets(high, a) + Octets(low, 4)
  {
    Pow256Values();
    OctetsJoin(high, a, low, 4);
  }

  lemma Powers()
    ensures Pow2(5) == 0x20 && Pow2(7) == 0x80
    ensures Pow2(21) == 0x20_0000 && Pow2(27) == 0x800_0000 && Pow2(35) == 0x8_0000_0000
  {
    assert Pow2(14) == 0x4000 && Pow2(24) == 0x100_0000;
  }

  lemma WordWww()
    ensures IsPacked(HUFFMAN_TABLE, "www.", 0x78f1e17, 27)
  {
    LettersA();
    LettersB();
    PushCases();
    hide RowAt, Pow2, PushRow, IsPacked;
    assert Packed("www.", 4) == 0x78f1e17 && PackedBits("www.", 4) == 27;
    hide Packed, PackedBits;
    Word("www.", 0x78f1e17, 27);
  }

  lemma WordExampl()
    ensures IsPacked(HUFFMAN_TABLE, "exampl", 0x17c8e9ae8, 35)
  {
    LettersA();
    LettersB();
    PushCases();
    hide RowAt, Pow2, PushRow, IsPacked;
    assert Packed("exampl", 6) == 0x17c8e9ae8 && PackedBits("exampl", 6) == 35;
    hide Packed, PackedBits;
    Word("exampl", 0x17c8e9ae8, 35);
  }

  lemma WordECom()
    ensures IsPacked(HUFFMAN_TABLE, "e.com", 0x15721e9, 27)
  {
    LettersA();
    LettersB();
    PushCases();
    hide RowAt, Pow2, PushRow, IsPacked;
    assert Packed("e.com", 5) == 0x15721e9 && PackedBits("e.com", 5) == 27;
    hide Packed, PackedBits;
    Word("e.com", 0x15721e9, 27);
  }

  lemma WordNoC()
    ensures IsPacked(HUFFMAN_TABLE, "no-c", 0x2a3ac4, 22)
  {
    LettersA();
    LettersB();
    PushCases();
    hide RowAt, Pow2, PushRow, IsPacked;
    assert Packed("no-c", 4) == 0x2a3ac4 && PackedBits("no-c", 4) == 22;
    hide Packed, PackedBits;
    Word("no-c", 0x2a3ac4, 22);
  }

  lemma WordAche()
    ensures IsPacked(HUFFMAN_TABLE, "ache", 0x324e5, 21)
  {
    LettersA();
    LettersB();
    PushCases();
    hide RowAt, Pow2, PushRow, IsPacked;
    assert Packed("ache", 4) == 0x324e5 && PackedBits("ache", 4) == 21;
    hide Packed, PackedBits;
    Word("ache", 0x324e5, 21);
  }

  lemma WwwExampleComPacked()
    ensures IsPacked(HUFFMAN_TABLE, "www.example.com", 0x1e3c785cbe474d7415721e9, 89)
  {
    Powers();
    hide IsPacked, TextBits, Codes, Pow2;
    WordWww();
    WordExampl();
    WordECom();
    Join(HUFFMAN_TABLE, "www.", 27, 0x78f1e17, "exampl", 35, 0x17c8e9ae8);
    assert "www." + "exampl" == "www.exampl";
    Join(HUFFMAN_TABLE, "www.exampl", 62, 0x3c78f0b97c8e9ae8, "e.com", 27, 0x15721e9);
    assert "www.exampl" + "e.com" == "www.example.com";
  }

  lemma WwwExampleComOctets()
    ensures Octets(0xf1e3c2e5f23a6ba0ab90f4ff, 12) ==
      [0xf1, 0xe3, 0xc2, 0xe5, 0xf2, 0x3a, 0x6b, 0xa0, 0xab, 0x90, 0xf4, 0xff]
  {
    OctetsOfFour(0xf1, 0xe3, 0xc2, 0xe5);
    OctetsOfFour(0xf2, 0x3a, 0x6b, 0xa0);
    OctetsOfFour(0xab, 0x90, 0xf4, 0xff);
    hide Octets;
    JoinFour(0xf1e3c2e5, 4, 0xf23a6ba0);
    JoinFour(0xf1e3c2e5f23a6ba0, 8, 0xab90f4ff);
  }

  lemma WwwExampleCom()
    ensures forall b :: IsEncoding(HUFFMAN_TABLE, Codes("www.example.com"), b) <==>
      b == [0xf1, 0xe3, 0xc2, 0xe5, 0xf2, 0x3a, 0x6b, 0xa0, 0xab, 0x90, 0xf4, 0xff]
  {
    WwwExampleComPacked();
    WwwExampleComOctets();
    Powers();
    hide IsPacked, TextBits, Codes, Pow2, Octets;
    var bytes: Bytes := [0xf1, 0xe3, 0xc2, 0xe5, 0xf2, 0x3a, 0x6b, 0xa0, 0xab, 0x90, 0xf4, 0xff];
    EncodingIs("www.example.com", 0x1e3c785cbe474d7415721e9, 89, 7, 0xf1e3c2e5f23a6ba0ab90f4ff, bytes);
  }

  lemma NoCachePacked()
    ensures IsPacked(HUFFMAN_TABLE, "no-cache", 0x547588324e5, 43)
  {
    Powers();
    hide IsPacked, TextBits, Codes, Pow2;
    WordNoC();
    WordAche();
    Join(HUFFMAN_TABLE, "no-c", 22, 0x2a3ac4, "ache", 21, 0x324e5);
    assert "no-c" + "ache" == "no-cache";
  }

  lemma NoCacheOctets()
    ensures Octets(0xa8eb10649cbf, 6) ==
      [0xa8, 0xeb, 0x10, 0x64, 0x9c, 0xbf]
  {
    assert Octets(0xa8eb, 2) == [0xa8, 0xeb];
    OctetsOfFour(0x10, 0x64, 0x9c, 0xbf);
    hide Octets;
    JoinFour(0xa8eb, 2, 0x10649cbf);
  }

  lemma NoCache()
    ensures forall b :: IsEncoding(HUFFMAN_TABLE, Codes("no-cache"), b) <==>
      b == [0xa8, 0xeb, 0x10, 0x64, 0x9c, 0xbf]
  {
    NoCachePacked();
    NoCacheOctets();
    Powers();
    hide IsPacked, TextBits, Codes, Pow2, Octets;
    var bytes: Bytes := [0xa8, 0xeb, 0x10, 0x64, 0x9c, 0xbf];
    EncodingIs("no-cache", 0x547588324e5, 43, 5, 0xa8eb10649cbf, bytes);
  }
}
