/** Reading a multipart answer back: the parts are the ranges, in order, with their bytes of the file. */
module MultipartReader {
  import opened Prelude
  import opened ByteRanges
  import opened Multipart

  datatype Part = Part(mime: string, first: nat, last: nat, size: nat, content: string)

  // ----- a reader of its own -----

  function After(prefix: string, s: string): Option<string> {
    if prefix <= s then Some(s[|prefix|..]) else None
  }

  /** The text before the first line end, and what follows it. */
  function ReadLine(s: string): (r: Option<(string, string)>)
    ensures r.Some? ==> |r.value.1| < |s|
  {
    if |s| < 2 then None
    else if s[0] == '\r' && s[1] == '\n' then Some(("", s[2..]))
    else match ReadLine(s[1..])
      case None => None
      case Some((line, rest)) => Some(([s[0]] + line, rest))
  }

  function ReadNumber(s: string): Option<(nat, string)> {
    DigitsAreDigits(s);
    DigitsBegin(s);
    var d := Digits(s);
    if d == "" then None else Some((Number(d), s[|d|..]))
  }

  lemma DigitsBegin(s: string)
    ensures Digits(s) <= s
  {
  }

  function ReadContentRange(line: string): Option<(nat, nat, nat)> {
    match After("Content-Range: bytes ", line)
    case None => None
    case Some(s) => ReadTriple(s)
  }

  /** First byte, last byte and size of the whole file. */
  function ReadTriple(s: string): Option<(nat, nat, nat)> {
    match ReadNumber(s)
    case None => None
    case Some((first, s1)) =>
      if s1 == "" || s1[0] != '-' then None
      else match ReadNumber(s1[1..])
        case None => None
        case Some((last, s2)) =>
          if s2 == "" || s2[0] != '/' then None
          else match ReadNumber(s2[1..])
            case None => None
            case Some((size, s3)) => if s3 == "" then Some((first, last, size)) else None
  }

  /** The two header lines and the empty one; then as many bytes as the range says, and a line end. */
  function ReadPart(s: string): (r: Option<(Part, string)>)
    ensures r.Some? ==> |r.value.1| < |s|
  {
    match ReadLine(s)
    case None => None
    case Some((line1, s1)) =>
      match ReadLine(s1)
      case None => None
      case Some((line2, s2)) =>
        match ReadLine(s2)
        case None => None
        case Some((line3, s3)) =>
          match (After("Content-Type: ", line1), ReadContentRange(line2))
          case (Some(mime), Some((first, last, size))) =>
            var n := last as int - first as int + 1;
            if line3 != "" || n <= 0 || |s3| < n + 2 || s3[n..n + 2] != CRLF then None
            else Some((Part(mime, first, last, size, s3[..n]), s3[n + 2..]))
          case _ => None
  }

  function ReadParts(s: string, boundary: string): Option<seq<Part>>
    decreases |s|
  {
    match ReadLine(s)
    case None => None
    case Some((line, rest)) =>
      if line == "--" + boundary + "--" then if rest == "" then Some([]) else None
      else if line != "--" + boundary then None
      else match ReadPart(rest)
        case None => None
        case Some((part, more)) =>
          match ReadParts(more, boundary)
          case None => None
          case Some(parts) => Some([part] + parts)
  }

  // ----- what it makes of the answer -----

  lemma {:induction false} ReadLineOf(line: string, rest: string)
    requires '\r' !in line
    ensures ReadLine(line + CRLF + rest) == Some((line, rest))
  {
    var s := line + CRLF + rest;
    if line == "" {
      assert s[2..] == rest;
    } else {
      assert s[1..] == line[1..] + CRLF + rest;
      ReadLineOf(line[1..], rest);
      assert [line[0]] + line[1..] == line;
    }
  }

  lemma {:induction false} DecimalDigits(n: nat)
    ensures Decimal(n) != "" && AllDigits(Decimal(n)) && Number(Decimal(n)) == n
  {
    if n >= 10 {
      DecimalDigits(n / 10);
      var d := Decimal(n);
      assert d[..|d| - 1] == Decimal(n / 10);
    } else {
      assert Decimal(n)[..0] == "";
    }
  }

  lemma {:induction false} DigitsStop(digits: string, rest: string)
    requires AllDigits(digits) && (rest == "" || !IsDigit(rest[0]))
    ensures Digits(digits + rest) == digits
  {
    var s := digits + rest;
    if digits == "" {
      assert s == rest;
    } else {
      assert s[1..] == digits[1..] + rest;
      DigitsStop(digits[1..], rest);
      assert [digits[0]] + digits[1..] == digits;
    }
  }

  lemma ReadDecimal(n: nat, rest: string)
    requires rest == "" || !IsDigit(rest[0])
    ensures ReadNumber(Decimal(n) + rest) == Some((n, rest))
  {
    DecimalDigits(n);
    DigitsStop(Decimal(n), rest);
    hide Number, Decimal;
    assert (Decimal(n) + rest)[|Decimal(n)|..] == rest;
  }

  lemma ReadTripleOf(first: nat, last: nat, size: nat)
    ensures ReadTriple(Decimal(first) + "-" + Decimal(last) + "/" + Decimal(size)) == Some((first, last, size))
  {
    hide ReadNumber, Decimal, ReadTriple;
    var c := Decimal(size) + "";
    var b := Decimal(last) + ("/" + c);
    ReadDecimal(size, "");
    ReadDecimal(last, "/" + c);
    ReadDecimal(first, "-" + b);
    ThreeNumbers(Decimal(first) + ("-" + b), first, b, last, c, size);
    assert Decimal(first) + ("-" + b) == Decimal(first) + "-" + Decimal(last) + "/" + Decimal(size);
  }

  lemma ThreeNumbers(a: string, first: nat, b: string, last: nat, c: string, size: nat)
    requires ReadNumber(a) == Some((first, "-" + b)) && ReadNumber(b) == Some((last, "/" + c))
    requires ReadNumber(c) == Some((size, ""))
    ensures ReadTriple(a) == Some((first, last, size))
  {
    hide ReadNumber;
    assert ("-" + b)[1..] == b && ("/" + c)[1..] == c;
  }

  lemma AfterPrefix(prefix: string, rest: string)
    ensures After(prefix, prefix + rest) == Some(rest)
  {
  }

  /** The Content-Range text says start, end and size, in this order. */
  lemma ContentRangeReadsBack(r: HttpRange, fileSize: uint64)
    ensures ReadContentRange("Content-Range: " + ContentRange(r, fileSize)) == Some((r.start, r.end, fileSize))
  {
    ReadTripleOf(r.start, r.end, fileSize);
    hide ReadTriple, Decimal, After;
    var numbers := Decimal(r.start) + "-" + Decimal(r.end) + "/" + Decimal(fileSize);
    AfterPrefix("Content-Range: bytes ", numbers);
    PrefixesJoin(numbers);
    assert ContentRange(r, fileSize) == "bytes " + numbers;
  }

  lemma PrefixesJoin(s: string)
    ensures "Content-Range: bytes " + s == "Content-Range: " + ("bytes " + s)
  {
    assert "Content-Range: bytes " == "Content-Range: " + "bytes ";
  }

  lemma NoLineEndInside(r: HttpRange, fileSize: uint64)
    ensures '\r' !in ContentRange(r, fileSize)
  {
    DecimalDigits(fileSize);
    DecimalDigits(r.start);
    DecimalDigits(r.end);
    hide Decimal, Number;
  }

  /** A part of the answer, as the ranges and the file have it. */
  function PartFor(file: string, r: HttpRange, fileSize: uint64, mime: string): Part
    requires Whole(file, r)
  {
    Part(mime, r.start, r.end, fileSize, file[r.start..r.end + 1])
  }

  ghost predicate Whole(file: string, r: HttpRange) {
    r.start <= r.end < |file| && r.length == r.end - r.start + 1
  }

  /** What stands in the answer between the line of a boundary and the next one. */
  function AfterBoundary(file: string, r: HttpRange, fileSize: uint64, mime: string): string {
    "Content-Type: " + mime + CRLF + "Content-Range: " + ContentRange(r, fileSize) + CRLF + CRLF
      + FileSlice(file, r) + CRLF
  }

  lemma LinesOfPart(file: string, r: HttpRange, fileSize: uint64, mime: string, rest: string)
    ensures AfterBoundary(file, r, fileSize, mime) + rest ==
      ("Content-Type: " + mime) + CRLF + (("Content-Range: " + ContentRange(r, fileSize)) + CRLF +
        ("" + CRLF + (FileSlice(file, r) + CRLF + rest)))
  {
    hide ContentRange, FileSlice;
  }

  lemma PartReadsBack(file: string, r: HttpRange, fileSize: uint64, mime: string, rest: string)
    requires Whole(file, r) && '\r' !in mime
    ensures ReadPart(AfterBoundary(file, r, fileSize, mime) + rest) == Some((PartFor(file, r, fileSize, mime), rest))
  {
    var s3 := FileSlice(file, r) + CRLF + rest;
    var line2 := "Content-Range: " + ContentRange(r, fileSize);
    var line1 := "Content-Type: " + mime;
    NoLineEndInside(r, fileSize);
    ContentRangeReadsBack(r, fileSize);
    LinesOfPart(file, r, fileSize, mime, rest);
    hide ContentRange, ReadContentRange, ReadLine, After, AfterBoundary;
    ReadLineOf("", s3);
    ReadLineOf(line2, "" + CRLF + s3);
    ReadLineOf(line1, line2 + CRLF + ("" + CRLF + s3));
    AfterPrefix("Content-Type: ", mime);
    var n := r.end - r.start + 1;
    assert |FileSlice(file, r)| == n && s3[n..n + 2] == CRLF && s3[..n] == FileSlice(file, r) && s3[n + 2..] == rest;
  }

  function OnePart(file: string, r: HttpRange, fileSize: uint64, boundary: string, mime: string): string {
    "--" + boundary + CRLF + AfterBoundary(file, r, fileSize, mime)
  }

  lemma OnePartIs(file: string, r: HttpRange, fileSize: uint64, boundary: string, mime: string)
    ensures PartHead(r, fileSize, boundary, mime) + FileSlice(file, r) + CRLF ==
            OnePart(file, r, fileSize, boundary, mime)
  {
    hide ContentRange, FileSlice;
  }

  lemma {:induction false} PartsFront(file: string, ranges: seq<HttpRange>, fileSize: uint64,
                                      boundary: string, mime: string)
    requires ranges != []
    ensures Parts(file, ranges, fileSize, boundary, mime) ==
      OnePart(file, ranges[0], fileSize, boundary, mime) + Parts(file, ranges[1..], fileSize, boundary, mime)
  {
    hide OnePart, PartHead, FileSlice;
    var n := |ranges| - 1;
    OnePartIs(file, ranges[n], fileSize, boundary, mime);
    if n > 0 {
      PartsFront(file, ranges[..n], fileSize, boundary, mime);
      assert ranges[..n][1..] == ranges[1..][..n - 1];
      Assoc(OnePart(file, ranges[0], fileSize, boundary, mime),
            Parts(file, ranges[1..][..n - 1], fileSize, boundary, mime),
            OnePart(file, ranges[n], fileSize, boundary, mime));
    }
  }

  lemma ReadOnePart(file: string, r: HttpRange, fileSize: uint64, boundary: string, mime: string, rest: string)
    requires Whole(file, r) && '\r' !in mime && '\r' !in boundary
    ensures ReadParts(OnePart(file, r, fileSize, boundary, mime) + rest, boundary) ==
      match ReadParts(rest, boundary)
      case None => None
      case Some(parts) => Some([PartFor(file, r, fileSize, mime)] + parts)
  {
    var more := AfterBoundary(file, r, fileSize, mime) + rest;
    PartReadsBack(file, r, fileSize, mime, rest);
    ReadLineOf("--" + boundary, more);
    hide AfterBoundary, ReadPart, ReadLine, Whole, PartFor;
    assert OnePart(file, r, fileSize, boundary, mime) + rest == "--" + boundary + CRLF + more;
    assert |"--" + boundary + "--"| != |"--" + boundary|;
  }

  lemma ReadEnd(boundary: string)
    requires '\r' !in boundary
    ensures ReadParts("--" + boundary + "--" + CRLF, boundary) == Some([])
  {
    ReadLineOf("--" + boundary + "--", "");
    hide ReadLine;
    assert "--" + boundary + "--" + CRLF + "" == "--" + boundary + "--" + CRLF;
  }

  /** The parts of an answer, one for each range, each with its bytes of the file. */
  function PartsFor(file: string, ranges: seq<HttpRange>, fileSize: uint64, mime: string): seq<Part>
    requires forall i :: 0 <= i < |ranges| ==> Whole(file, ranges[i])
  {
    seq(|ranges|, i requires 0 <= i < |ranges| => PartFor(file, ranges[i], fileSize, mime))
  }

  lemma BodyFront(file: string, ranges: seq<HttpRange>, fileSize: uint64, boundary: string, mime: string)
    ensures var end := "--" + boundary + "--" + CRLF;
      Body(file, ranges, fileSize, boundary, mime) ==
        if ranges == [] then end
        else OnePart(file, ranges[0], fileSize, boundary, mime) + Body(file, ranges[1..], fileSize, boundary, mime)
  {
    var end := "--" + boundary + "--" + CRLF;
    if ranges == [] {
      assert "" + end == end;
    } else {
      PartsFront(file, ranges, fileSize, boundary, mime);
      hide Parts, OnePart;
      Assoc(OnePart(file, ranges[0], fileSize, boundary, mime),
            Parts(file, ranges[1..], fileSize, boundary, mime), end);
    }
  }

  /** A reader that takes each length from the Content-Range line gets the ranges back, in order, and nothing else. */
  lemma {:induction false} BodyReadsBack(file: string, ranges: seq<HttpRange>, fileSize: uint64,
                                         boundary: string, mime: string)
    requires '\r' !in mime && '\r' !in boundary
    requires forall i :: 0 <= i < |ranges| ==> Whole(file, ranges[i])
    ensures ReadParts(Body(file, ranges, fileSize, boundary, mime), boundary) ==
      Some(PartsFor(file, ranges, fileSize, mime))
  {
    hide Parts, Body, ReadParts, OnePart, Whole, PartFor;
    BodyFront(file, ranges, fileSize, boundary, mime);
    if ranges == [] {
      ReadEnd(boundary);
      assert PartsFor(file, ranges, fileSize, mime) == [];
    } else {
      var rest := ranges[1..];
      BodyReadsBack(file, rest, fileSize, boundary, mime);
      ReadOnePart(file, ranges[0], fileSize, boundary, mime, Body(file, rest, fileSize, boundary, mime));
      assert PartsFor(file, ranges, fileSize, mime) ==
             [PartFor(file, ranges[0], fileSize, mime)] + PartsFor(file, rest, fileSize, mime);
    }
  }

  /** So it does for whatever the range parser returns for a file of the right size. */
  lemma ParsedAnswerReadsBack(header: string, file: string, boundary: string, mime: string)
    requires |file| < U64 && '\r' !in mime && '\r' !in boundary
    ensures var ranges := ParseResult(header, |file|, boundary).ranges;
      && (forall i :: 0 <= i < |ranges| ==> Whole(file, ranges[i]))
      && ReadParts(Body(file, ranges, |file|, boundary, mime), boundary) == Some(PartsFor(file, ranges, |file|, mime))
  {
    ParseIsSound(header, |file|, boundary);
    var ranges := ParseResult(header, |file|, boundary).ranges;
    hide ParseResult, Body, ReadParts, PartsFor;
    forall i | 0 <= i < |ranges| ensures Whole(file, ranges[i]) {
      assert Sound(ranges[i], |file|);
    }
    BodyReadsBack(file, ranges, |file|, boundary, mime);
  }
}
