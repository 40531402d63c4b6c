/** The multipart/byteranges answer: the length announced up front against the bytes then sent. */
module Multipart {
  import opened Prelude
  import opened ByteRanges

  const CRLF: string := "\r\n"

  function Decimal(n: nat): string {
    if n < 10 then [('0' as int + n) as char] else Decimal(n / 10) + [('0' as int + n % 10) as char]
  }

  function ContentRange(r: HttpRange, fileSize: uint64): string {
    "bytes " + Decimal(r.start) + "-" + Decimal(r.end) + "/" + Decimal(fileSize)
  }

  // ----- the announced length -----

  /** Bytes counted for the literal of the Content-Range line. */
  const CONTENT_RANGE_LABEL: nat := 16

  function DeclaredPart(literal: nat, r: HttpRange, fileSize: uint64, boundary: string, mime: string): nat {
    2 + |boundary| + 2 + 14 + |mime| + 2 + literal + |ContentRange(r, fileSize)| + 2 + 2 + r.length + 2
  }

  /** With the literal length left open; arithmetic is in 64 bits. */
  function Declared(literal: nat, ranges: seq<HttpRange>, fileSize: uint64, boundary: string, mime: string): uint64 {
    Wrap(DeclaredParts(literal, ranges, fileSize, boundary, mime) + 2 + |boundary| + 4)
  }

  function DeclaredParts(literal: nat, ranges: seq<HttpRange>, fileSize: uint64, boundary: string, mime: string): nat {
    if ranges == [] then 0
    else
      var last := |ranges| - 1;
      DeclaredParts(literal, ranges[..last], fileSize, boundary, mime)
        + DeclaredPart(literal, ranges[last], fileSize, boundary, mime)
  }

  method ContentLength(ranges: seq<HttpRange>, fileSize: uint64, boundary: string, mime: string) returns (total: uint64)
    ensures total == Declared(CONTENT_RANGE_LABEL, ranges, fileSize, boundary, mime)
  {
    total := 0;
    for i := 0 to |ranges|
      invariant total == Wrap(DeclaredParts(CONTENT_RANGE_LABEL, ranges[..i], fileSize, boundary, mime))
    {
      assert ranges[..i + 1][..i] == ranges[..i];
      ghost var before := DeclaredParts(CONTENT_RANGE_LABEL, ranges[..i], fileSize, boundary, mime);
      total := AddTo(total, 2 + |boundary| + 2, before);
      total := AddTo(total, 14 + |mime| + 2, before + (2 + |boundary| + 2));
      var contentRange := ContentRange(ranges[i], fileSize);
      total := AddTo(total, 16 + |contentRange| + 2, before + (2 + |boundary| + 2) + (14 + |mime| + 2));
      total := AddTo(total, 2 + ranges[i].length + 2,
                     before + (2 + |boundary| + 2) + (14 + |mime| + 2) + (16 + |contentRange| + 2));
    }
    assert ranges[..|ranges|] == ranges;
    total := AddTo(total, 2 + |boundary| + 4, DeclaredParts(CONTENT_RANGE_LABEL, ranges, fileSize, boundary, mime));
  }

  /** One wrapping addition; `sum` is the running total without wrap. */
  function AddTo(total: uint64, n: nat, ghost sum: nat): (r: uint64)
    requires total == Wrap(sum)
    ensures r == Wrap(sum + n)
  {
    assert (sum % U64 + n) % U64 == (sum + n) % U64;
    Wrap(total + n)
  }

  // ----- the bytes sent -----

  function PartHead(r: HttpRange, fileSize: uint64, boundary: string, mime: string): string {
    "--" + boundary + CRLF + "Content-Type: " + mime + CRLF +
    "Content-Range: " + ContentRange(r, fileSize) + CRLF + CRLF
  }

  function FileSlice(file: string, r: HttpRange): string {
    var lo, hi := Min(r.start, |file|), Min(r.start + r.length, |file|);
    file[lo..hi]
  }

  function Parts(file: string, ranges: seq<HttpRange>, fileSize: uint64, boundary: string, mime: string): string {
    if ranges == [] then ""
    else
      var r := ranges[|ranges| - 1];
      Parts(file, ranges[..|ranges| - 1], fileSize, boundary, mime)
        + (PartHead(r, fileSize, boundary, mime) + FileSlice(file, r) + CRLF)
  }

  function Body(file: string, ranges: seq<HttpRange>, fileSize: uint64, boundary: string, mime: string): string {
    Parts(file, ranges, fileSize, boundary, mime) + ("--" + boundary + "--" + CRLF)
  }

  /** A file read: nothing at the end of the file, otherwise at least one byte and never more than asked. */
  method ReadFile(file: string, offset: nat, toRead: nat) returns (data: string)
    ensures data <= file[Min(offset, |file|)..] && |data| <= toRead
    ensures data == "" <==> toRead == 0 || offset >= |file|
  {
    var rest := file[Min(offset, |file|)..];
    if toRead == 0 || rest == "" {
      return "";
    }
    assert 1 <= toRead && 1 <= |rest|;
    var n :| 1 <= n && n <= toRead && n <= |rest|;
    return rest[..n];
  }

  /** The content of one range, however the reads come out. */
  method SendContent(file: string, r: HttpRange, chunkSize: nat) returns (sent: string)
    requires chunkSize > 0
    ensures sent == FileSlice(file, r)
  {
    sent := "";
    var remaining := r.length;
    var offset: nat := r.start;
    while remaining > 0
      invariant 0 <= remaining <= r.length && offset == r.start + (r.length - remaining)
      invariant |sent| == r.length - remaining
      invariant sent <= file[Min(r.start, |file|)..]
    {
      var data := ReadFile(file, offset, Min(remaining, chunkSize));
      if data == "" {
        break;
      }
      ghost var tail := file[Min(r.start, |file|)..];
      assert tail[|sent|..] == file[offset..];
      sent := sent + data;
      offset, remaining := offset + |data|, remaining - |data|;
    }
  }

  /** Header lines, content and line end of one range. */
  method SendPart(file: string, r: HttpRange, fileSize: uint64, boundary: string, mime: string, chunkSize: nat)
    returns (sent: string)
    requires chunkSize > 0
    ensures sent == PartHead(r, fileSize, boundary, mime) + FileSlice(file, r) + CRLF
  {
    sent := "--" + boundary + CRLF;
    sent := sent + ("Content-Type: " + mime + CRLF);
    sent := sent + ("Content-Range: " + ContentRange(r, fileSize) + CRLF);
    sent := sent + CRLF;
    assert sent == PartHead(r, fileSize, boundary, mime);
    var content := SendContent(file, r, chunkSize);
    sent := sent + content;
    sent := sent + CRLF;
  }

  /** The parts in order, then the closing boundary. */
  method SendMultipleRanges(file: string, ranges: seq<HttpRange>, fileSize: uint64, boundary: string, mime: string,
                            chunkSize: nat) returns (contentLength: uint64, sent: string)
    requires chunkSize > 0
    ensures contentLength == Declared(CONTENT_RANGE_LABEL, ranges, fileSize, boundary, mime)
    ensures sent == Body(file, ranges, fileSize, boundary, mime)
  {
    hide PartHead, FileSlice;
    contentLength := ContentLength(ranges, fileSize, boundary, mime);
    sent := "";
    for i := 0 to |ranges|
      invariant sent == Parts(file, ranges[..i], fileSize, boundary, mime)
    {
      assert ranges[..i + 1][..i] == ranges[..i];
      var part := SendPart(file, ranges[i], fileSize, boundary, mime, chunkSize);
      sent := sent + part;
    }
    assert ranges[..|ranges|] == ranges;
    sent := sent + ("--" + boundary + "--" + CRLF);
  }

  // ----- announced against sent -----

  ghost predicate FullyRead(file: string, r: HttpRange) {
    r.start + r.length <= |file|
  }

  lemma {:induction false} PartsLength(file: string, ranges: seq<HttpRange>, fileSize: uint64,
                                       boundary: string, mime: string)
    requires forall i :: 0 <= i < |ranges| ==> FullyRead(file, ranges[i])
    ensures |Parts(file, ranges, fileSize, boundary, mime)| == DeclaredParts(15, ranges, fileSize, boundary, mime)
  {
    if ranges != [] {
      var init, r := ranges[..|ranges| - 1], ranges[|ranges| - 1];
      assert forall i :: 0 <= i < |init| ==> init[i] == ranges[i];
      PartsLength(file, init, fileSize, boundary, mime);
      assert FullyRead(file, ranges[|ranges| - 1]);
      assert |FileSlice(file, r)| == r.length;
    }
  }

  lemma {:induction false} OneMorePerRange(ranges: seq<HttpRange>, fileSize: uint64, boundary: string, mime: string)
    ensures DeclaredParts(16, ranges, fileSize, boundary, mime) ==
            DeclaredParts(15, ranges, fileSize, boundary, mime) + |ranges|
  {
    if ranges != [] {
      OneMorePerRange(ranges[..|ranges| - 1], fileSize, boundary, mime);
    }
  }

  /** Counting 15 for the 15-byte literal would be exact. */
  lemma FifteenIsExact(file: string, ranges: seq<HttpRange>, fileSize: uint64, boundary: string, mime: string)
    requires forall i :: 0 <= i < |ranges| ==> FullyRead(file, ranges[i])
    ensures Declared(15, ranges, fileSize, boundary, mime) == Wrap(|Body(file, ranges, fileSize, boundary, mime)|)
  {
    PartsLength(file, ranges, fileSize, boundary, mime);
  }

  /** The code counts 16, so it announces one byte too many per range. */
  lemma DeclaredExceedsSent(file: string, ranges: seq<HttpRange>, fileSize: uint64, boundary: string, mime: string)
    requires forall i :: 0 <= i < |ranges| ==> FullyRead(file, ranges[i])
    ensures Declared(CONTENT_RANGE_LABEL, ranges, fileSize, boundary, mime) ==
            Wrap(|Body(file, ranges, fileSize, boundary, mime)| + |ranges|)
  {
    PartsLength(file, ranges, fileSize, boundary, mime);
    OneMorePerRange(ranges, fileSize, boundary, mime);
  }

  /** Hence, up to 2^64 ranges, the announced length is right only for an answer without ranges. */
  lemma LengthIsRightIff(file: string, ranges: seq<HttpRange>, fileSize: uint64, boundary: string, mime: string)
    requires forall i :: 0 <= i < |ranges| ==> FullyRead(file, ranges[i])
    ensures var declared := Declared(CONTENT_RANGE_LABEL, ranges, fileSize, boundary, mime);
      declared == Wrap(|Body(file, ranges, fileSize, boundary, mime)|) <==> |ranges| % U64 == 0
  {
    DeclaredExceedsSent(file, ranges, fileSize, boundary, mime);
    SumWrapsBackIff(|Body(file, ranges, fileSize, boundary, mime)|, |ranges|);
  }

  lemma SumWrapsBackIff(n: nat, k: nat)
    ensures Wrap(n + k) == Wrap(n) <==> k % U64 == 0
  {
    assert (n + k) % U64 == (n % U64 + k % U64) % U64;
  }

  /** Ranges the parser returns for a file of the right size are always fully read. */
  lemma ParsedRangesAreFullyRead(header: string, file: string, boundary: string)
    requires |file| < U64
    ensures var p := ParseResult(header, |file|, boundary);
      forall i :: 0 <= i < |p.ranges| ==> FullyRead(file, p.ranges[i])
  {
    ParseIsSound(header, |file|, boundary);
    var p := ParseResult(header, |file|, boundary);
    forall i | 0 <= i < |p.ranges| ensures FullyRead(file, p.ranges[i]) {
      assert Sound(p.ranges[i], |file|);
    }
  }
}
