/** Range header parsing in wrapping 64-bit arithmetic. */
module ByteRanges {
  import opened Prelude

  const U64: nat := 0x1_0000_0000_0000_0000

  type uint64 = n: nat | n < 0x1_0000_0000_0000_0000

  function Wrap(n: int): uint64 {
    n % U64
  }

  datatype HttpRange = HttpRange(start: uint64, end: uint64, length: uint64) {
    predicate IsValid() {
      start <= end && length > 0
    }
  }

  function MakeRange(start: uint64, end: uint64): HttpRange {
    HttpRange(start, end, Wrap(end - start + 1))
  }

  const NO_RANGE := HttpRange(0, 0, 0)

  predicate IsSpace(c: char) {
    c == ' ' || '\t' <= c <= '\r'
  }

  predicate IsDigit(c: char) {
    '0' <= c <= '9'
  }

  // ----- the library's number reader: optional sign, digits, trailing junk ignored -----

  function Digits(s: string): string {
    if s == "" || !IsDigit(s[0]) then "" else [s[0]] + Digits(s[1..])
  }

  function DigitValue(c: char): nat
    requires IsDigit(c)
  {
    c as int - '0' as int
  }

  function Number(digits: string): nat
    requires forall i :: 0 <= i < |digits| ==> IsDigit(digits[i])
  {
    if digits == "" then 0
    else Number(digits[..|digits| - 1]) * 10 + DigitValue(digits[|digits| - 1])
  }

  lemma DigitsAreDigits(s: string)
    ensures forall i :: 0 <= i < |Digits(s)| ==> IsDigit(Digits(s)[i])
  {
  }

  function SkipSpaces(s: string): string {
    if s != "" && IsSpace(s[0]) then SkipSpaces(s[1..]) else s
  }

  /** None stands for the exceptions: no digits, or a magnitude beyond 64 bits. A minus sign negates modulo 2^64. */
  function Stoull(s: string): Option<uint64> {
    var t := SkipSpaces(s);
    var negative := t != "" && t[0] == '-';
    var digits := Digits(if t != "" && (t[0] == '-' || t[0] == '+') then t[1..] else t);
    DigitsAreDigits(if t != "" && (t[0] == '-' || t[0] == '+') then t[1..] else t);
    if digits == "" || Number(digits) >= U64 then None
    else Some(if negative then Wrap(0 - Number(digits) as int) else Number(digits))
  }

  // ----- one range -----

  function FindDash(s: string): (r: nat)
    ensures r <= |s| && (r < |s| ==> s[r] == '-')
    ensures forall i :: 0 <= i < r ==> s[i] != '-'
  {
    if s == "" || s[0] == '-' then 0 else 1 + FindDash(s[1..])
  }

  datatype Request =
    | Closed(first: uint64, last: uint64)
    | From(first: uint64)
    | Suffix(count: uint64)
    | Malformed

  /** What a range specifier asks for, before the file is looked at. */
  function Read(s: string): Request {
    var dash := FindDash(s);
    if dash == |s| then Malformed
    else
      var a, b := s[..dash], s[dash + 1..];
      if a != "" && b != "" then
        (if Stoull(a).Some? && Stoull(b).Some? then Closed(Stoull(a).value, Stoull(b).value) else Malformed)
      else if a != "" then (if Stoull(a).Some? then From(Stoull(a).value) else Malformed)
      else if b != "" then (if Stoull(b).Some? then Suffix(Stoull(b).value) else Malformed)
      else Malformed
  }

  function RangeFor(r: Request, fileSize: uint64): HttpRange {
    match r
    case Malformed => NO_RANGE
    case Closed(first, last) =>
      if first > last || first >= fileSize then NO_RANGE
      else MakeRange(first, if last >= fileSize then Wrap(fileSize - 1) else last)
    case From(first) =>
      if first >= fileSize then NO_RANGE else MakeRange(first, Wrap(fileSize - 1))
    case Suffix(count) =>
      var n := if count == 0 || count > fileSize then fileSize else count;
      MakeRange(Wrap(fileSize - n), Wrap(fileSize - 1))
  }

  function ParseSingleRange(s: string, fileSize: uint64): HttpRange {
    RangeFor(Read(s), fileSize)
  }

  /** Whether byte k of a file is asked for by a specifier once read: a suffix asks for the last `count` bytes. */
  predicate Wanted(r: Request, fileSize: uint64, k: nat) {
    && k < fileSize
    && match r
       case Closed(first, last) => first <= k <= last
       case From(first) => first <= k
       case Suffix(count) => fileSize - k <= count
       case Malformed => false
  }

  ghost predicate Sound(r: HttpRange, fileSize: uint64) {
    r.start <= r.end < fileSize && r.length == r.end - r.start + 1
  }

  /** A valid result is exactly the wanted bytes; an invalid one means that none are wanted. */
  ghost predicate Covers(r: HttpRange, request: Request, fileSize: uint64) {
    if r.IsValid() then forall k: nat :: r.start <= k <= r.end <==> Wanted(request, fileSize, k)
    else forall k: nat :: !Wanted(request, fileSize, k)
  }

  /** The one request that is misread: no bytes from the end of a file that has some. */
  predicate IsEmptySuffix(r: Request, fileSize: uint64) {
    r == Suffix(0) && fileSize > 0
  }

  lemma ClosedCovers(first: uint64, last: uint64, fileSize: uint64)
    ensures var r := RangeFor(Closed(first, last), fileSize);
      Covers(r, Closed(first, last), fileSize) && (r.IsValid() ==> Sound(r, fileSize))
  {
    if first <= last && first < fileSize {
      LengthDoesNotWrap(first, Min(last, fileSize - 1), fileSize);
    }
  }

  lemma FromCovers(first: uint64, fileSize: uint64)
    ensures var r := RangeFor(From(first), fileSize);
      Covers(r, From(first), fileSize) && (r.IsValid() ==> Sound(r, fileSize))
  {
    if first < fileSize {
      LengthDoesNotWrap(first, fileSize - 1, fileSize);
    }
  }

  lemma SuffixCovers(count: uint64, fileSize: uint64)
    ensures var r := RangeFor(Suffix(count), fileSize);
      && (Covers(r, Suffix(count), fileSize) <==> !IsEmptySuffix(Suffix(count), fileSize))
      && (r.IsValid() <==> fileSize > 0)
      && (r.IsValid() ==> Sound(r, fileSize))
  {
    if fileSize == 0 {
      EmptyFile(count);
    } else {
      SuffixRange(count, fileSize);
      hide RangeFor;
      assert !Wanted(Suffix(0), fileSize, RangeFor(Suffix(count), fileSize).start);
    }
  }

  lemma SuffixRange(count: uint64, fileSize: uint64)
    requires fileSize > 0
    ensures var n := if count == 0 || count > fileSize then fileSize else count;
      RangeFor(Suffix(count), fileSize) == HttpRange(fileSize - n, fileSize - 1, n)
  {
    var n := if count == 0 || count > fileSize then fileSize else count;
    InRange(fileSize - n);
    InRange(fileSize - 1);
    InRange(n);
    hide Wrap;
    assert MakeRange(fileSize - n, fileSize - 1) == HttpRange(fileSize - n, fileSize - 1, n);
  }

  lemma InRange(n: uint64)
    ensures Wrap(n) == n
  {
  }

  lemma EmptyFile(count: uint64)
    ensures RangeFor(Suffix(count), 0) == HttpRange(0, U64 - 1, 0)
  {
    assert Wrap(0 - 1) == U64 - 1;
    assert Wrap(U64 - 1 - 0 + 1) == 0;
  }

  /**
    * Every valid range is in bounds with its true length, for every text and file size. It is exactly
    * what the code read, unless that was an empty suffix of a non-empty file.
    */
  lemma RangeCoversWanted(s: string, fileSize: uint64)
    ensures var r := ParseSingleRange(s, fileSize);
      && (r.IsValid() ==> Sound(r, fileSize))
      && (Covers(r, Read(s), fileSize) <==> !IsEmptySuffix(Read(s), fileSize))
  {
    hide RangeFor, Sound, Covers, Read;
    match Read(s)
    case Malformed => NoRangeCovers(fileSize);
    case Closed(first, last) => ClosedCovers(first, last, fileSize);
    case From(first) => FromCovers(first, fileSize);
    case Suffix(count) => SuffixCovers(count, fileSize);
  }

  lemma NoRangeCovers(fileSize: uint64)
    ensures !RangeFor(Malformed, fileSize).IsValid() && Covers(RangeFor(Malformed, fileSize), Malformed, fileSize)
  {
  }

  /** `-0` asks for no byte and gets the whole file. */
  lemma EmptySuffixIsWholeFile(fileSize: uint64)
    requires fileSize > 0
    ensures Read("-0") == Suffix(0) && forall k: nat :: !Wanted(Read("-0"), fileSize, k)
    ensures ParseSingleRange("-0", fileSize) == HttpRange(0, fileSize - 1, fileSize)
  {
    assert "-0"[..0] == "" && "-0"[1..] == "0" && "0"[1..] == "" && ['0'] + "" == "0";
    assert Digits("0") == "0" && "0"[..0] == "" && Number("0") == 0;
    assert Stoull("0") == Some(0);
  }

  lemma LengthDoesNotWrap(start: uint64, end: uint64, fileSize: uint64)
    requires start <= end < fileSize
    ensures MakeRange(start, end).IsValid() && Sound(MakeRange(start, end), fileSize)
  {
  }

  /** On an empty file the suffix form wraps both the end and the length, and is rejected for its length. */
  lemma EmptyFileSuffix(s: string)
    ensures !ParseSingleRange(s, 0).IsValid()
    ensures Read(s).Suffix? ==> ParseSingleRange(s, 0) == HttpRange(0, U64 - 1, 0)
  {
    hide Read;
    if Read(s).Suffix? {
      EmptyFile(Read(s).count);
    }
  }

  // ----- the list of ranges -----

  /** Cut at commas, drop white space and empty pieces; `current` is the piece read so far. */
  function SplitFrom(s: string, current: string): seq<string> {
    if s == "" then Kept(current)
    else if s[0] == ',' then Kept(current) + SplitFrom(s[1..], "")
    else SplitFrom(s[1..], if IsSpace(s[0]) then current else current + [s[0]])
  }

  function Kept(piece: string): seq<string> {
    if piece == "" then [] else [piece]
  }

  method SplitRanges(s: string) returns (ranges: seq<string>)
    ensures ranges == SplitFrom(s, "")
  {
    ranges := [];
    var current, inRange := "", false;
    assert s[0..] == s;
    for i := 0 to |s|
      invariant inRange <==> current != ""
      invariant SplitFrom(s, "") == ranges + SplitFrom(s[i..], current)
    {
      assert s[i..][1..] == s[i + 1..];
      var c := s[i];
      if c == ',' {
        if inRange {
          ranges := ranges + [current];
          current, inRange := "", false;
        }
      } else if !IsSpace(c) {
        current, inRange := current + [c], true;
      }
    }
    if inRange && current != "" {
      ranges := ranges + [current];
    }
  }

  predicate IsToken(s: string) {
    s != "" && forall i :: 0 <= i < |s| ==> s[i] != ',' && !IsSpace(s[i])
  }

  function JoinTokens(tokens: seq<string>): string {
    if tokens == [] then "" else tokens[0] + "," + JoinTokens(tokens[1..])
  }

  lemma {:induction false} SplitTakesToken(word: string, rest: string, current: string)
    requires forall i :: 0 <= i < |word| ==> word[i] != ',' && !IsSpace(word[i])
    ensures SplitFrom(word + rest, current) == SplitFrom(rest, current + word)
  {
    if word == "" {
      assert word + rest == rest && current + word == current;
    } else {
      assert (word + rest)[1..] == word[1..] + rest;
      SplitTakesToken(word[1..], rest, current + [word[0]]);
      assert current + [word[0]] + word[1..] == current + word;
    }
  }

  /** Splitting undoes joining with commas. */
  lemma {:induction false} SplitOfJoinTokens(tokens: seq<string>)
    requires forall i :: 0 <= i < |tokens| ==> IsToken(tokens[i])
    ensures SplitFrom(JoinTokens(tokens), "") == tokens
  {
    if tokens != [] {
      var t, rest := tokens[0], tokens[1..];
      var tail := "," + JoinTokens(rest);
      assert JoinTokens(tokens) == t + tail;
      SplitTakesToken(t, tail, "");
      assert "" + t == t;
      assert tail[1..] == JoinTokens(rest);
      assert SplitFrom(tail, t) == [t] + SplitFrom(JoinTokens(rest), "");
      SplitOfJoinTokens(rest);
      assert tokens == [t] + rest;
    }
  }

  // ----- the whole header -----

  datatype RangeType = SingleRange | MultipleRanges | Invalid

  datatype RangeParseResult = RangeParseResult(kind: RangeType, ranges: seq<HttpRange>, boundary: string)

  const BYTES_PREFIX: string := "bytes="

  /** The valid ranges among the specifiers, in order. */
  function ValidRanges(specs: seq<string>, fileSize: uint64): seq<HttpRange> {
    if specs == [] then []
    else
      var r := ParseSingleRange(specs[|specs| - 1], fileSize);
      ValidRanges(specs[..|specs| - 1], fileSize) + if r.IsValid() then [r] else []
  }

  function ParseResult(header: string, fileSize: uint64, boundary: string): RangeParseResult {
    if !(BYTES_PREFIX <= header) then RangeParseResult(Invalid, [], "")
    else
      var specs := SplitFrom(header[|BYTES_PREFIX|..], "");
      var ranges := ValidRanges(specs, fileSize);
      if specs == [] then RangeParseResult(Invalid, [], "")
      else if |specs| == 1 then RangeParseResult(if ranges == [] then Invalid else SingleRange, ranges, "")
      else RangeParseResult(if ranges == [] then Invalid else MultipleRanges, ranges, boundary)
  }

  /** The boundary of a multipart answer is generated from a counter and the clock; here it is given. */
  method Parse(header: string, fileSize: uint64, boundary: string) returns (result: RangeParseResult)
    ensures result == ParseResult(header, fileSize, boundary)
  {
    result := RangeParseResult(Invalid, [], "");
    if header == "" || header[..Min(|BYTES_PREFIX|, |header|)] != BYTES_PREFIX {
      return;
    }
    var rangesStr := header[|BYTES_PREFIX|..];
    if rangesStr == "" {
      return;
    }
    var specs := SplitRanges(rangesStr);
    if specs == [] {
      return;
    }
    if |specs| == 1 {
      var range := ParseSingleRange(specs[0], fileSize);
      assert specs[..0] == [] && ValidRanges([], fileSize) == [];
      if range.IsValid() {
        result := RangeParseResult(SingleRange, [range], "");
      }
    } else {
      result := RangeParseResult(MultipleRanges, [], boundary);
      for i := 0 to |specs|
        invariant result == RangeParseResult(MultipleRanges, ValidRanges(specs[..i], fileSize), boundary)
      {
        assert specs[..i + 1][..i] == specs[..i];
        var range := ParseSingleRange(specs[i], fileSize);
        if range.IsValid() {
          result := result.(ranges := result.ranges + [range]);
        }
      }
      assert specs[..|specs|] == specs;
      if result.ranges == [] {
        result := result.(kind := Invalid);
      }
    }
  }

  lemma {:induction false} ValidRangesAreSound(specs: seq<string>, fileSize: uint64)
    ensures forall i :: 0 <= i < |ValidRanges(specs, fileSize)| ==> Sound(ValidRanges(specs, fileSize)[i], fileSize)
  {
    hide ParseSingleRange, Wanted, Sound, Covers;
    if specs != [] {
      ValidRangesAreSound(specs[..|specs| - 1], fileSize);
      RangeCoversWanted(specs[|specs| - 1], fileSize);
    }
  }

  /** Whether a specifier yields a valid range: it asks for some byte, or is the misread empty suffix. */
  ghost predicate Yields(s: string, fileSize: uint64) {
    (exists k: nat :: Wanted(Read(s), fileSize, k)) || IsEmptySuffix(Read(s), fileSize)
  }

  lemma ValidIffYields(s: string, fileSize: uint64)
    ensures ParseSingleRange(s, fileSize).IsValid() <==> Yields(s, fileSize)
  {
    hide RangeFor, Read, Wanted;
    RangeCoversWanted(s, fileSize);
    var r := ParseSingleRange(s, fileSize);
    if IsEmptySuffix(Read(s), fileSize) {
      SuffixCovers(0, fileSize);
    } else if r.IsValid() {
      assert Wanted(Read(s), fileSize, r.start);
    }
  }

  /** No range is kept iff no specifier asks for a byte of the file and none is the misread empty suffix. */
  lemma {:induction false} NothingKeptIff(specs: seq<string>, fileSize: uint64)
    ensures ValidRanges(specs, fileSize) == [] <==> forall i :: 0 <= i < |specs| ==> !Yields(specs[i], fileSize)
  {
    hide ParseSingleRange, Yields;
    if specs != [] {
      var n := |specs| - 1;
      NothingKeptIff(specs[..n], fileSize);
      ValidIffYields(specs[n], fileSize);
      assert forall i :: 0 <= i < n ==> specs[..n][i] == specs[i];
    }
  }

  // ----- against the text of a specifier (section 14.1.2 of RFC 9110) -----

  predicate AllDigits(s: string) {
    forall i :: 0 <= i < |s| ==> IsDigit(s[i])
  }

  /** What stands before the first dash, and after it. */
  function FirstPart(s: string): string {
    s[..FindDash(s)]
  }

  function LastPart(s: string): string {
    if FindDash(s) < |s| then s[FindDash(s) + 1..] else ""
  }

  /** Digits, a dash and perhaps digits; or a dash and digits. */
  predicate InGrammar(s: string) {
    && FindDash(s) < |s|
    && AllDigits(FirstPart(s)) && AllDigits(LastPart(s))
    && (FirstPart(s) != "" || LastPart(s) != "")
  }

  /** Whether the text asks for byte k, its numbers taken as they stand, however large. */
  predicate AskedFor(s: string, fileSize: uint64, k: nat) {
    && InGrammar(s) && k < fileSize
    && if FirstPart(s) == "" then fileSize - k <= Number(LastPart(s))
       else Number(FirstPart(s)) <= k && (LastPart(s) == "" || k <= Number(LastPart(s)))
  }

  ghost predicate CoversText(r: HttpRange, s: string, fileSize: uint64) {
    if r.IsValid() then forall k: nat :: r.start <= k <= r.end <==> AskedFor(s, fileSize, k)
    else forall k: nat :: !AskedFor(s, fileSize, k)
  }

  /** A suffix of 1 to 2^64 - 1; a last position below 2^64, unless the first is outside the file anyway. */
  predicate NumbersFit(s: string, fileSize: uint64)
    requires InGrammar(s)
  {
    if FirstPart(s) == "" then 0 < Number(LastPart(s)) < U64
    else LastPart(s) == "" || Number(LastPart(s)) < U64 || Number(FirstPart(s)) >= fileSize
  }

  lemma {:induction false} DigitsOfDigits(s: string)
    requires AllDigits(s)
    ensures Digits(s) == s
  {
    if s != "" {
      DigitsOfDigits(s[1..]);
      assert [s[0]] + s[1..] == s;
    }
  }

  /** Digits are read as their number as long as it fits. */
  lemma StoullOfDigits(s: string)
    requires AllDigits(s) && s != ""
    ensures Stoull(s) == if Number(s) < U64 then Some(Number(s)) else None
  {
    DigitsOfDigits(s);
    assert IsDigit(s[0]);
  }

  /** What the code reads in a text of the grammar. */
  lemma ReadOfGrammar(s: string)
    requires InGrammar(s)
    ensures var a, b := FirstPart(s), LastPart(s);
      Read(s) ==
        if a == "" then (if Number(b) < U64 then Suffix(Number(b)) else Malformed)
        else if Number(a) >= U64 then Malformed
        else if b == "" then From(Number(a))
        else if Number(b) < U64 then Closed(Number(a), Number(b)) else Malformed
  {
    var a, b := FirstPart(s), LastPart(s);
    if a != "" {
      StoullOfDigits(a);
    }
    if b != "" {
      StoullOfDigits(b);
    }
    hide Stoull, Number;
  }

  /** A text of the grammar is covered iff its numbers fit or the file is empty. */
  lemma GrammarIsCoveredIff(s: string, fileSize: uint64)
    requires InGrammar(s)
    ensures CoversText(ParseSingleRange(s, fileSize), s, fileSize) <==> fileSize == 0 || NumbersFit(s, fileSize)
  {
    ReadOfGrammar(s);
    RangeCoversWanted(s, fileSize);
    hide Read, RangeFor, InGrammar, FirstPart, LastPart, Number;
    if Read(s).Malformed? {
      MalformedYieldsNothing(s, fileSize);
      if fileSize > 0 && !NumbersFit(s, fileSize) {
        assert InGrammar(s) && AskedFor(s, fileSize, fileSize - 1);
      }
    } else if IsEmptySuffix(Read(s), fileSize) {
      SuffixCovers(0, fileSize);
      assert !AskedFor(s, fileSize, ParseSingleRange(s, fileSize).start);
    } else {
      assert forall k: nat :: AskedFor(s, fileSize, k) <==> Wanted(Read(s), fileSize, k);
    }
  }

  lemma MalformedYieldsNothing(s: string, fileSize: uint64)
    requires Read(s).Malformed?
    ensures !ParseSingleRange(s, fileSize).IsValid()
  {
    hide Read;
  }

  /** Exactly the texts the code takes as they are meant. */
  ghost predicate ReadAsMeant(s: string, fileSize: uint64) {
    if InGrammar(s) then fileSize == 0 || NumbersFit(s, fileSize) else !Yields(s, fileSize)
  }

  /**
    * For every text and file size: the result is exactly the bytes the text asks for iff the text is
    * in the grammar with numbers that fit (or the file is empty), or is outside it and yields nothing.
    */
  lemma TextIsCoveredIff(s: string, fileSize: uint64)
    ensures CoversText(ParseSingleRange(s, fileSize), s, fileSize) <==> ReadAsMeant(s, fileSize)
  {
    if InGrammar(s) {
      GrammarIsCoveredIff(s, fileSize);
    } else {
      ValidIffYields(s, fileSize);
      hide ParseSingleRange, Yields, InGrammar;
      assert !AskedFor(s, fileSize, ParseSingleRange(s, fileSize).start);
    }
  }

  /** A last position of 2^64 asks for a whole non-empty file and gets nothing. */
  lemma HugeLastPosition(fileSize: uint64)
    requires fileSize > 0
    ensures var s := "0-18446744073709551616";
      && InGrammar(s) && (forall k: nat :: k < fileSize ==> AskedFor(s, fileSize, k))
      && !ParseSingleRange(s, fileSize).IsValid()
  {
    var s := "0-18446744073709551616";
    var b := "18446744073709551616";
    assert FindDash(s) == 1 by {
      assert s[1..][0] == '-';
    }
    assert FirstPart(s) == "0" && LastPart(s) == b;
    assert "0"[..0] == "";
    assert Number("0") == 0;
    HugeNumber();
    ReadOfGrammar(s);
    MalformedYieldsNothing(s, fileSize);
  }

  lemma FirstTen(b: string)
    requires |b| >= 10 && b[..10] == "1844674407" && AllDigits(b)
    ensures Folded(b, 10) == 1844674407
  {
    assert forall i :: 0 <= i < 10 ==> b[i] == b[..10][i];
    assert Folded(b, 1) == 1 && Folded(b, 2) == 18;
    assert Folded(b, 3) == 184 && Folded(b, 4) == 1844;
    assert Folded(b, 5) == 18446 && Folded(b, 6) == 184467;
    assert Folded(b, 7) == 1844674 && Folded(b, 8) == 18446744;
    assert Folded(b, 9) == 184467440 && Folded(b, 10) == 1844674407;
  }

  lemma FirstFifteen(b: string)
    requires |b| >= 15 && b[..15] == "184467440737095" && AllDigits(b)
    ensures Folded(b, 15) == 184467440737095
  {
    assert b[..10] == b[..15][..10] == "1844674407";
    FirstTen(b);
    assert forall i :: 10 <= i < 15 ==> b[i] == b[..15][i];
    assert Folded(b, 11) == 18446744073 && Folded(b, 12) == 184467440737;
    assert Folded(b, 13) == 1844674407370 && Folded(b, 14) == 18446744073709;
  }

  lemma TwentyDigits(b: string)
    requires |b| == 20 && AllDigits(b) && b[..15] == "184467440737095" && b[15..] == "51616"
    ensures Number(b) == U64
  {
    FirstFifteen(b);
    assert forall i :: 0 <= i < 5 ==> b[15 + i] == b[15..][i];
    assert Folded(b, 16) == 1844674407370955 && Folded(b, 17) == 18446744073709551;
    assert Folded(b, 18) == 184467440737095516 && Folded(b, 19) == 1844674407370955161;
    assert Folded(b, 20) == U64;
    NumberOf(b, 20, U64);
    assert b[..20] == b;
  }

  lemma HugeNumber()
    ensures AllDigits("18446744073709551616") && Number("18446744073709551616") == U64
  {
    hide Number;
    var b := "18446744073709551616";
    assert b[..15] == "184467440737095" && b[15..] == "51616";
    TwentyDigits(b);
  }

  /** The number of the first n digits, one digit after another. */
  lemma NumberOf(b: string, n: nat, value: nat)
    requires AllDigits(b) && n <= |b| && value == Folded(b, n)
    ensures Number(b[..n]) == value
  {
    if n > 0 {
      NumberOf(b, n - 1, Folded(b, n - 1));
      assert b[..n][..n - 1] == b[..n - 1];
    }
  }

  function Folded(b: string, n: nat): nat
    requires AllDigits(b) && n <= |b|
  {
    if n == 0 then 0 else Folded(b, n - 1) * 10 + DigitValue(b[n - 1])
  }

  /** Two dashes and a one are outside the grammar and get the whole file. */
  lemma NegativeSuffix(fileSize: uint64)
    requires fileSize > 0
    ensures !InGrammar("--1") && ParseSingleRange("--1", fileSize) == HttpRange(0, fileSize - 1, fileSize)
  {
    var s := "--1";
    assert s[..0] == "" && s[1..] == "-1" && "-1"[0] == '-' && "-1"[1..] == "1" && "1"[1..] == "" && ['1'] + "" == "1";
    assert LastPart(s) == "-1" && !IsDigit('-');
    assert Digits("1") == "1" && "1"[..0] == "" && Number("") == 0 && Number("1") == 1;
    assert Wrap(0 - 1) == U64 - 1;
    assert Stoull("-1") == Some(U64 - 1);
    assert Read(s) == Suffix(U64 - 1);
    SuffixRange(U64 - 1, fileSize);
  }

  ghost predicate Serves(ranges: seq<HttpRange>, k: nat) {
    exists i :: 0 <= i < |ranges| && ranges[i].start <= k <= ranges[i].end
  }

  /** When every specifier is read as meant, the ranges kept hold a byte iff some specifier asks for it. */
  lemma {:induction false} KeptIsAskedFor(specs: seq<string>, fileSize: uint64, k: nat)
    requires forall i :: 0 <= i < |specs| ==> ReadAsMeant(specs[i], fileSize)
    ensures Serves(ValidRanges(specs, fileSize), k) <==> exists i :: 0 <= i < |specs| && AskedFor(specs[i], fileSize, k)
  {
    hide ParseSingleRange, AskedFor, ReadAsMeant;
    if specs != [] {
      var n := |specs| - 1;
      var init, r := specs[..n], ParseSingleRange(specs[n], fileSize);
      assert forall i :: 0 <= i < n ==> init[i] == specs[i];
      KeptIsAskedFor(init, fileSize, k);
      TextIsCoveredIff(specs[n], fileSize);
      ServesOneMore(ValidRanges(init, fileSize), r, k);
      assert ValidRanges(init, fileSize) + [] == ValidRanges(init, fileSize);
      assert (exists i :: 0 <= i < |specs| && AskedFor(specs[i], fileSize, k)) <==>
             (exists i :: 0 <= i < n && AskedFor(init[i], fileSize, k)) || AskedFor(specs[n], fileSize, k);
    }
  }

  lemma ServesOneMore(ranges: seq<HttpRange>, r: HttpRange, k: nat)
    ensures Serves(ranges + [r], k) <==> Serves(ranges, k) || r.start <= k <= r.end
  {
    var more := ranges + [r];
    assert forall i :: 0 <= i < |ranges| ==> more[i] == ranges[i];
    assert more[|ranges|] == r;
  }

  /** White space anywhere in a header is dropped before anything is read. */
  function WithoutSpaces(s: string): string {
    if s == "" then "" else (if IsSpace(s[0]) then "" else [s[0]]) + WithoutSpaces(s[1..])
  }

  lemma {:induction false} SplitIgnoresSpaces(s: string, current: string)
    ensures SplitFrom(WithoutSpaces(s), current) == SplitFrom(s, current)
  {
    if s != "" {
      var rest := WithoutSpaces(s[1..]);
      if IsSpace(s[0]) {
        assert "" + rest == rest;
        SplitIgnoresSpaces(s[1..], current);
      } else {
        assert ([s[0]] + rest)[1..] == rest;
        SplitIgnoresSpaces(s[1..], if s[0] == ',' then "" else current + [s[0]]);
      }
    }
  }

  /** A list without comma is one piece, or none if nothing but white space. */
  lemma {:induction false} SplitOfText(s: string, current: string)
    requires ',' !in s
    ensures SplitFrom(s, current) == Kept(current + WithoutSpaces(s))
  {
    if s == "" {
      assert current + "" == current;
    } else {
      var c := if IsSpace(s[0]) then "" else [s[0]];
      SplitOfText(s[1..], current + c);
      assert current + "" == current;
      Assoc(current, c, WithoutSpaces(s[1..]));
    }
  }

  /** A comma separates what stands before it from what stands after. With SplitOfText this determines every split. */
  lemma {:induction false} SplitAtComma(a: string, b: string, current: string)
    ensures SplitFrom(a + "," + b, current) == SplitFrom(a, current) + SplitFrom(b, "")
    decreases a
  {
    var s := a + "," + b;
    if a == "" {
      assert s[0] == ',' && s[1..] == b;
    } else {
      assert s[0] == a[0] && s[1..] == a[1..] + "," + b;
      if a[0] == ',' {
        SplitAtComma(a[1..], b, "");
        Assoc(Kept(current), SplitFrom(a[1..], ""), SplitFrom(b, ""));
      } else {
        SplitAtComma(a[1..], b, if IsSpace(a[0]) then current else current + [a[0]]);
      }
    }
  }

  /** The specifiers of a header. */
  function Specs(header: string): seq<string> {
    if BYTES_PREFIX <= header then SplitFrom(header[|BYTES_PREFIX|..], "") else []
  }

  /** For every header and file size: what is returned is sound, and Invalid means that no specifier yields a range. */
  lemma ParseIsSound(header: string, fileSize: uint64, boundary: string)
    ensures var p := ParseResult(header, fileSize, boundary);
      && (forall i :: 0 <= i < |p.ranges| ==> Sound(p.ranges[i], fileSize))
      && (p.kind == Invalid <==> p.ranges == [])
      && (p.kind == SingleRange ==> |p.ranges| == 1)
    ensures ParseResult(header, fileSize, boundary).kind == Invalid <==>
      forall i :: 0 <= i < |Specs(header)| ==> !Yields(Specs(header)[i], fileSize)
  {
    hide ParseSingleRange, Sound, Yields, SplitFrom;
    var specs := Specs(header);
    ValidRangesAreSound(specs, fileSize);
    NothingKeptIff(specs, fileSize);
    if |specs| == 1 {
      assert specs[..0] == [] && ValidRanges([], fileSize) == [];
    }
  }

  // ----- kind, order and boundary of a result -----

  /** The places of the specifiers that yield a range, in order. */
  ghost function YieldingPlaces(specs: seq<string>, fileSize: uint64, n: nat): seq<nat>
    requires n <= |specs|
  {
    if n == 0 then []
    else YieldingPlaces(specs, fileSize, n - 1) + if Yields(specs[n - 1], fileSize) then [n - 1] else []
  }

  lemma {:induction false} PlacesAreInOrder(specs: seq<string>, fileSize: uint64, n: nat)
    requires n <= |specs|
    ensures var at := YieldingPlaces(specs, fileSize, n);
      && (forall j :: 0 <= j < |at| ==> at[j] < n)
      && (forall j, k :: 0 <= j < k < |at| ==> at[j] < at[k])
      && forall i :: 0 <= i < n ==> (i in at <==> Yields(specs[i], fileSize))
  {
    hide Yields;
    if n > 0 {
      PlacesAreInOrder(specs, fileSize, n - 1);
    }
  }

  /** The ranges kept are those of the specifiers that yield one, in the order of the header. */
  lemma {:induction false} RangesFollowSpecs(specs: seq<string>, fileSize: uint64)
    ensures var at, ranges := YieldingPlaces(specs, fileSize, |specs|), ValidRanges(specs, fileSize);
      |ranges| == |at| &&
      forall j :: 0 <= j < |at| ==> at[j] < |specs| && ranges[j] == ParseSingleRange(specs[at[j]], fileSize)
  {
    hide Yields, ParseSingleRange;
    PlacesAreInOrder(specs, fileSize, |specs|);
    if specs != [] {
      var n := |specs| - 1;
      RangesFollowSpecs(specs[..n], fileSize);
      SamePlaces(specs, fileSize, n);
      PlacesAreInOrder(specs[..n], fileSize, n);
      ValidIffYields(specs[n], fileSize);
    }
  }

  lemma {:induction false} SamePlaces(specs: seq<string>, fileSize: uint64, n: nat)
    requires n < |specs|
    ensures forall m :: 0 <= m <= n ==> YieldingPlaces(specs[..n], fileSize, m) == YieldingPlaces(specs, fileSize, m)
  {
    hide Yields;
    forall m | 0 <= m <= n ensures YieldingPlaces(specs[..n], fileSize, m) == YieldingPlaces(specs, fileSize, m) {
      SamePlacesUpTo(specs, fileSize, n, m);
    }
  }

  lemma {:induction false} SamePlacesUpTo(specs: seq<string>, fileSize: uint64, n: nat, m: nat)
    requires m <= n < |specs|
    ensures YieldingPlaces(specs[..n], fileSize, m) == YieldingPlaces(specs, fileSize, m)
  {
    hide Yields;
    if m > 0 {
      SamePlacesUpTo(specs, fileSize, n, m - 1);
    }
  }

  /**
    * Only a header that starts with `bytes=` is read. One specifier makes a single range, several make
    * a multiple one with the boundary, even if one range is left; none left makes it invalid.
    */
  lemma KindIff(header: string, fileSize: uint64, boundary: string)
    ensures var p, n := ParseResult(header, fileSize, boundary), |Specs(header)|;
      && Specs(header) == (if |header| >= 6 && header[..6] == "bytes=" then SplitFrom(header[6..], "") else [])
      && p.ranges == ValidRanges(Specs(header), fileSize)
      && (p.kind == SingleRange <==> n == 1 && Yields(Specs(header)[0], fileSize))
      && (p.kind == MultipleRanges <==> n >= 2 && exists i :: 0 <= i < n && Yields(Specs(header)[i], fileSize))
      && p.boundary == if n >= 2 then boundary else ""
  {
    hide ParseSingleRange, Yields;
    NothingKeptIff(Specs(header), fileSize);
  }
}
