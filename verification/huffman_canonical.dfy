/** Which code each symbol has: the 257 rows are the canonical code of their lengths (Appendix B of RFC 7541). */
module HuffmanCanonical {
  import opened Prelude
  import opened HuffmanCode
  import opened HuffmanRfc7541

  // ----- the canonical code of a list of lengths -----

  /** The code lengths of sixteen symbols at a time. */
  function LengthRow(block: nat): (r: seq<nat>)
    ensures |r| == 16
  {
    match block
    case 0 => [13, 23, 28, 28, 28, 28, 28, 28, 28, 24, 30, 28, 28, 30, 28, 28]
    case 1 => [28, 28, 28, 28, 28, 28, 30, 28, 28, 28, 28, 28, 28, 28, 28, 28]
    case 2 => [6, 10, 10, 12, 13, 6, 8, 11, 10, 10, 8, 11, 8, 6, 6, 6]
    case 3 => [5, 5, 5, 6, 6, 6, 6, 6, 6, 6, 7, 8, 15, 6, 12, 10]
    case 4 => [13, 6, 7, 7, 7, 7, 7, 7, 7, 7, 7, 7, 7, 7, 7, 7]
    case 5 => [7, 7, 7, 7, 7, 7, 7, 7, 8, 7, 8, 13, 19, 13, 14, 6]
    case 6 => [15, 5, 6, 5, 6, 5, 6, 6, 6, 5, 7, 7, 6, 6, 6, 5]
    case 7 => [6, 7, 6, 5, 5, 6, 7, 7, 7, 7, 7, 15, 11, 14, 13, 28]
    case 8 => [20, 22, 20, 20, 22, 22, 22, 23, 22, 23, 23, 23, 23, 23, 24, 23]
    case 9 => [24, 24, 22, 23, 24, 23, 23, 23, 23, 21, 22, 23, 22, 23, 23, 24]
    case 10 => [22, 21, 20, 22, 22, 23, 23, 21, 23, 22, 22, 24, 21, 22, 23, 23]
    case 11 => [21, 21, 22, 21, 23, 22, 23, 23, 20, 22, 22, 22, 23, 22, 22, 23]
    case 12 => [26, 26, 20, 19, 22, 23, 22, 25, 26, 26, 26, 27, 27, 26, 24, 25]
    case 13 => [19, 21, 26, 27, 27, 26, 27, 24, 21, 21, 26, 26, 28, 27, 27, 27]
    case 14 => [20, 24, 20, 21, 22, 21, 21, 23, 22, 22, 25, 25, 24, 24, 26, 23]
    case _ => [26, 27, 26, 26, 27, 27, 27, 27, 27, 28, 27, 27, 27, 27, 27, 26]
  }

  function Length(symbol: nat): nat {
    if symbol < 16 then LengthRow(0)[symbol]
    else if symbol < 32 then LengthRow(1)[symbol - 16]
    else if symbol < 48 then LengthRow(2)[symbol - 32]
    else if symbol < 64 then LengthRow(3)[symbol - 48]
    else if symbol < 80 then LengthRow(4)[symbol - 64]
    else if symbol < 96 then LengthRow(5)[symbol - 80]
    else if symbol < 112 then LengthRow(6)[symbol - 96]
    else if symbol < 128 then LengthRow(7)[symbol - 112]
    else if symbol < 144 then LengthRow(8)[symbol - 128]
    else if symbol < 160 then LengthRow(9)[symbol - 144]
    else if symbol < 176 then LengthRow(10)[symbol - 160]
    else if symbol < 192 then LengthRow(11)[symbol - 176]
    else if symbol < 208 then LengthRow(12)[symbol - 192]
    else if symbol < 224 then LengthRow(13)[symbol - 208]
    else if symbol < 240 then LengthRow(14)[symbol - 224]
    else if symbol < 256 then LengthRow(15)[symbol - 240]
    else 30
  }

  /** How many of the first `symbols` symbols have a length. */
  function Rank(bits: nat, symbols: nat): nat {
    if symbols == 0 then 0
    else Rank(bits, symbols - 1) + if Length(symbols - 1) == bits then 1 else 0
  }

  /** The first code of a length: all shorter codes are used up, and one bit is added at each step. */
  function FirstCode(bits: nat): nat {
    if bits == 0 then 0 else 2 * (FirstCode(bits - 1) + Rank(bits - 1, 257))
  }

  /** Codes of one length are given out in the order of the symbols. */
  function CanonicalRow(symbol: nat): Row {
    Row(symbol, FirstCode(Length(symbol)) + Rank(Length(symbol), symbol), Length(symbol))
  }

  lemma Lengths0(s: nat)
    requires 0 <= s < 16
    ensures RowAt(s).bits == Length(s)
  {
  }

  lemma Lengths1(s: nat)
    requires 16 <= s < 32
    ensures RowAt(s).bits == Length(s)
  {
  }

  lemma Lengths2(s: nat)
    requires 32 <= s < 48
    ensures RowAt(s).bits == Length(s)
  {
  }

  lemma Lengths3(s: nat)
    requires 48 <= s < 64
    ensures RowAt(s).bits == Length(s)
  {
  }

  lemma Lengths4(s: nat)
    requires 64 <= s < 80
    ensures RowAt(s).bits == Length(s)
  {
  }

  lemma Lengths5(s: nat)
    requires 80 <= s < 96
    ensures RowAt(s).bits == Length(s)
  {
  }

  lemma Lengths6(s: nat)
    requires 96 <= s < 112
    ensures RowAt(s).bits == Length(s)
  {
  }

  lemma Lengths7(s: nat)
    requires 112 <= s < 128
    ensures RowAt(s).bits == Length(s)
  {
  }

  lemma Lengths8(s: nat)
    requires 128 <= s < 144
    ensures RowAt(s).bits == Length(s)
  {
  }

  lemma Lengths9(s: nat)
    requires 144 <= s < 160
    ensures RowAt(s).bits == Length(s)
  {
  }

  lemma Lengths10(s: nat)
    requires 160 <= s < 176
    ensures RowAt(s).bits == Length(s)
  {
  }

  lemma Lengths11(s: nat)
    requires 176 <= s < 192
    ensures RowAt(s).bits == Length(s)
  {
  }

  lemma Lengths12(s: nat)
    requires 192 <= s < 208
    ensures RowAt(s).bits == Length(s)
  {
  }

  lemma Lengths13(s: nat)
    requires 208 <= s < 224
    ensures RowAt(s).bits == Length(s)
  {
  }

  lemma Lengths14(s: nat)
    requires 224 <= s < 240
    ensures RowAt(s).bits == Length(s)
  {
  }

  lemma Lengths15(s: nat)
    requires 240 <= s < 256
    ensures RowAt(s).bits == Length(s)
  {
  }

  lemma LengthOfRow(s: nat)
    requires s < 257
    ensures RowAt(s).bits == Length(s)
  {
    hide RowAt, LengthRow;
    if s < 16 {
      Lengths0(s);
    } else if s < 32 {
      Lengths1(s);
    } else if s < 48 {
      Lengths2(s);
    } else if s < 64 {
      Lengths3(s);
    } else if s < 80 {
      Lengths4(s);
    } else if s < 96 {
      Lengths5(s);
    } else if s < 112 {
      Lengths6(s);
    } else if s < 128 {
      Lengths7(s);
    } else if s < 144 {
      Lengths8(s);
    } else if s < 160 {
      Lengths9(s);
    } else if s < 176 {
      Lengths10(s);
    } else if s < 192 {
      Lengths11(s);
    } else if s < 208 {
      Lengths12(s);
    } else if s < 224 {
      Lengths13(s);
    } else if s < 240 {
      Lengths14(s);
    } else if s < 256 {
      Lengths15(s);
    } else {
      EosLength();
    }
  }

  lemma EosLength()
    ensures RowAt(EOS).bits == Length(EOS)
  {
  }

  // ----- the rows are that code -----

  /** Place k in the list of the symbols of one length: its row has that length, and the next symbol is larger. */
  ghost predicate InOrder(bits: nat, k: nat) {
    && HasBits(SymbolAt(bits, k), bits)
    && (k + 1 < Count(bits) ==> SymbolAt(bits, k) < SymbolAt(bits, k + 1))
  }

  ghost predicate HasBits(symbol: nat, bits: nat) {
    symbol < 257 && RowAt(symbol).bits == bits
  }

  lemma InOrder5(k: nat)
    requires k < 10
    ensures InOrder(5, k)
  {
  }

  lemma InOrder6(k: nat)
    requires k < 26
    ensures InOrder(6, k)
  {
  }

  lemma InOrder7(k: nat)
    requires k < 32
    ensures InOrder(7, k)
  {
  }

  lemma InOrder8(k: nat)
    requires k < 6
    ensures InOrder(8, k)
  {
  }

  lemma InOrder10(k: nat)
    requires k < 5
    ensures InOrder(10, k)
  {
  }

  lemma InOrder11(k: nat)
    requires k < 3
    ensures InOrder(11, k)
  {
  }

  lemma InOrder12(k: nat)
    requires k < 2
    ensures InOrder(12, k)
  {
  }

  lemma InOrder13(k: nat)
    requires k < 6
    ensures InOrder(13, k)
  {
  }

  lemma InOrder14(k: nat)
    requires k < 2
    ensures InOrder(14, k)
  {
  }

  lemma InOrder15(k: nat)
    requires k < 3
    ensures InOrder(15, k)
  {
  }

  lemma InOrder19(k: nat)
    requires k < 3
    ensures InOrder(19, k)
  {
  }

  lemma InOrder20(k: nat)
    requires k < 8
    ensures InOrder(20, k)
  {
  }

  lemma InOrder21(k: nat)
    requires k < 13
    ensures InOrder(21, k)
  {
  }

  lemma InOrder22(k: nat)
    requires k < 26
    ensures InOrder(22, k)
  {
  }

  lemma InOrder23(k: nat)
    requires k < 29
    ensures InOrder(23, k)
  {
  }

  lemma InOrder24(k: nat)
    requires k < 12
    ensures InOrder(24, k)
  {
  }

  lemma InOrder25(k: nat)
    requires k < 4
    ensures InOrder(25, k)
  {
  }

  lemma InOrder26(k: nat)
    requires k < 15
    ensures InOrder(26, k)
  {
  }

  lemma InOrder27(k: nat)
    requires k < 19
    ensures InOrder(27, k)
  {
  }

  lemma InOrder28(k: nat)
    requires k < 29
    ensures InOrder(28, k)
  {
  }

  lemma InOrder30(k: nat)
    requires k < 4
    ensures InOrder(30, k)
  {
  }

  lemma ListsAreInOrder(bits: nat, k: nat)
    requires k < Count(bits)
    ensures InOrder(bits, k)
  {
    hide InOrder;
    match bits
    case 5 => InOrder5(k);
    case 6 => InOrder6(k);
    case 7 => InOrder7(k);
    case 8 => InOrder8(k);
    case 10 => InOrder10(k);
    case 11 => InOrder11(k);
    case 12 => InOrder12(k);
    case 13 => InOrder13(k);
    case 14 => InOrder14(k);
    case 15 => InOrder15(k);
    case 19 => InOrder19(k);
    case 20 => InOrder20(k);
    case 21 => InOrder21(k);
    case 22 => InOrder22(k);
    case 23 => InOrder23(k);
    case 24 => InOrder24(k);
    case 25 => InOrder25(k);
    case 26 => InOrder26(k);
    case 27 => InOrder27(k);
    case 28 => InOrder28(k);
    case 30 => InOrder30(k);
    case _ =>
  }

  lemma {:induction false} Increasing(bits: nat, j: nat, k: nat)
    requires j < k < Count(bits)
    ensures SymbolAt(bits, j) < SymbolAt(bits, k)
  {
    hide SymbolAt, Count, Length;
    ListsAreInOrder(bits, k - 1);
    if j < k - 1 {
      Increasing(bits, j, k - 1);
    }
  }

  /** The symbols of a length below s are the first ones of its list, as many as their rank. */
  lemma {:induction false} RankIsPlace(bits: nat, s: nat)
    requires s <= 257
    ensures Rank(bits, s) <= Count(bits)
    ensures forall k: nat | k < Count(bits) :: SymbolAt(bits, k) < s <==> k < Rank(bits, s)
  {
    hide SymbolAt, Count, Length, First, RowAt;
    if s > 0 {
      RankIsPlace(bits, s - 1);
      LengthOfRow(s - 1);
      AllListed(s - 1);
      if Length(s - 1) == bits {
        PlaceOf(bits, s - 1);
      } else {
        forall k: nat | k < Count(bits) ensures SymbolAt(bits, k) != s - 1 {
          ListsAreInOrder(bits, k);
        }
      }
    }
  }

  /** A symbol of the length stands at its rank. */
  lemma PlaceOf(bits: nat, s: nat)
    requires s < 257 && Length(s) == bits && Rank(bits, s) <= Count(bits)
    requires forall k: nat | k < Count(bits) :: SymbolAt(bits, k) < s <==> k < Rank(bits, s)
    ensures RowAt(s).code == First(bits) + Rank(bits, s) && Rank(bits, s) < Count(bits)
    ensures forall k: nat | k < Count(bits) :: SymbolAt(bits, k) <= s <==> k <= Rank(bits, s)
  {
    hide SymbolAt, Count, Length, First, RowAt, Rank;
    LengthOfRow(s);
    AllListed(s);
    var k: nat := RowAt(s).code - First(bits);
    assert SymbolAt(bits, k) == s;
    var r := Rank(bits, s);
    if r < k {
      Increasing(bits, r, k);
    }
    forall j: nat | j < Count(bits) ensures SymbolAt(bits, j) <= s <==> j <= r {
      if j > k {
        Increasing(bits, k, j);
      }
    }
  }

  lemma RankOfAll(bits: nat)
    ensures Rank(bits, 257) == Count(bits)
  {
    hide SymbolAt, Count, Length, Rank;
    RankIsPlace(bits, 257);
    if Rank(bits, 257) < Count(bits) {
      ListsAreInOrder(bits, Rank(bits, 257));
    }
  }

  lemma {:induction false} FirstIsFirst(bits: nat)
    requires bits <= 30
    ensures FirstCode(bits) == First(bits)
  {
    if bits > 0 {
      FirstIsFirst(bits - 1);
      RankOfAll(bits - 1);
      if bits > 5 {
        Canonical(bits - 1);
      }
    }
  }

  /** Every row of the table is the row its length and its place among the symbols give. */
  lemma RowsAreCanonical(s: nat)
    requires s < 257
    ensures RowAt(s) == CanonicalRow(s)
  {
    hide SymbolAt, Count, Length, First, RowAt, Rank, FirstCode;
    LengthOfRow(s);
    AllListed(s);
    RankIsPlace(Length(s), s);
    PlaceOf(Length(s), s);
    FirstIsFirst(Length(s));
  }

  /** Among codes of one length a larger symbol has the larger code. */
  lemma CodesFollowSymbols(a: nat, b: nat)
    requires a < b < 257 && Length(a) == Length(b)
    ensures RowAt(a).code < RowAt(b).code
  {
    hide SymbolAt, Count, Length, First, RowAt, Rank, FirstCode;
    RowsAreCanonical(a);
    RowsAreCanonical(b);
    RankGrows(Length(a), a, b);
  }

  lemma {:induction false} RankGrows(bits: nat, a: nat, b: nat)
    requires a < b && Length(a) == bits
    ensures Rank(bits, a) < Rank(bits, b)
  {
    hide Length;
    if a < b - 1 {
      RankGrows(bits, a, b - 1);
    }
  }
}
