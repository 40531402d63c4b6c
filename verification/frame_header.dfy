/** The 9-byte frame header (section 4.1 of RFC 9113) and whole frames built from it. */
module FrameHeader {
  import opened Prelude

  const HEADER_LENGTH: nat := 9

  const DATA: byte := 0
  const HEADERS: byte := 1
  const RST_STREAM: byte := 3
  const SETTINGS: byte := 4

  const END_STREAM: byte := 1
  const ACK: byte := 1
  const END_HEADERS: byte := 4

  datatype Header = Header(length: nat, kind: byte, flags: byte, streamId: nat)

  /** The low octets of a number, most significant first. */
  function Octets(n: nat, count: nat): (r: seq<byte>)
    ensures |r| == count
    decreases count
  {
    if count == 0 then [] else Octets(n / 0x100, count - 1) + [n % 0x100]
  }

  /** The number a big-endian list of octets stands for. */
  function Number(octets: seq<byte>): nat {
    if octets == [] then 0 else Number(octets[..|octets| - 1]) * 0x100 + octets[|octets| - 1]
  }

  /** Three octets and four octets, most significant first. */
  function Read24(a: byte, b: byte, c: byte): nat {
    a * 0x1_0000 + b * 0x100 + c
  }

  function Read32(a: byte, b: byte, c: byte, d: byte): nat {
    a * 0x100_0000 + b * 0x1_0000 + c * 0x100 + d
  }

  lemma NumberOfThree(b: seq<byte>)
    requires |b| == 3
    ensures Number(b) == Read24(b[0], b[1], b[2])
  {
    assert Number(b[..2]) == Number(b[..2][..1]) * 0x100 + b[1];
    assert Number(b[..2][..1]) == b[0];
  }

  lemma NumberOfFour(b: seq<byte>)
    requires |b| == 4
    ensures Number(b) == Read32(b[0], b[1], b[2], b[3])
  {
    NumberOfThree(b[..3]);
  }

  /** Lengths keep 24 bits and stream identifiers 31. */
  function Serialize(h: Header): (r: seq<byte>)
    ensures |r| == HEADER_LENGTH
  {
    Octets(h.length, 3) + [h.kind, h.flags] + Octets(h.streamId % 0x8000_0000, 4)
  }

  function Deserialize(b: seq<byte>): Header
    requires |b| >= HEADER_LENGTH
  {
    Header(Number(b[..3]), b[3], b[4], Number(b[5..9]) % 0x8000_0000)
  }

  function Pow256(k: nat): nat {
    if k == 0 then 1 else 0x100 * Pow256(k - 1)
  }

  /** Reading back k octets gives the number up to a multiple of 256 to the k. */
  lemma {:induction false} NumberOfOctets(n: nat, k: nat) returns (q: nat)
    ensures n == q * Pow256(k) + Number(Octets(n, k)) && Number(Octets(n, k)) < Pow256(k)
    decreases k
  {
    if k == 0 {
      q := n;
    } else {
      q := NumberOfOctets(n / 0x100, k - 1);
      var high := Octets(n / 0x100, k - 1);
      assert (high + [n % 0x100])[..k - 1] == high;
      Regroup(n, q, Pow256(k - 1), Number(high), n % 0x100);
    }
  }

  /** Every list of octets is the octets of its number. */
  lemma {:induction false} OctetsOfNumber(b: seq<byte>)
    ensures Octets(Number(b), |b|) == b
  {
    if b != [] {
      var n := |b| - 1;
      OctetsOfNumber(b[..n]);
      assert Number(b) / 0x100 == Number(b[..n]) && Number(b) % 0x100 == b[n];
      assert b == b[..n] + [b[n]];
    }
  }

  lemma Regroup(n: nat, q: nat, unit: nat, m: nat, low: nat)
    requires n / 0x100 == q * unit + m && low == n % 0x100
    ensures n == q * (0x100 * unit) + (m * 0x100 + low)
  {
    assert q * (0x100 * unit) == 0x100 * (q * unit);
  }

  lemma LengthOctets(n: nat)
    ensures Number(Octets(n, 3)) == n % 0x100_0000
  {
    hide Octets, Number, Pow256;
    var q := NumberOfOctets(n, 3);
    Pow256Values();
    OnlyRemainder(n, q, Number(Octets(n, 3)));
  }

  lemma OnlyRemainder(n: nat, q: nat, r: nat)
    requires n == q * 0x100_0000 + r && r < 0x100_0000
    ensures n % 0x100_0000 == r
  {
  }

  lemma StreamIdOctets(n: nat)
    requires n < 0x8000_0000
    ensures Number(Octets(n, 4)) == n
  {
    var q := NumberOfOctets(n, 4);
    Pow256Values();
    hide *;
    assert n == q * 0x1_0000_0000 + Number(Octets(n, 4));
  }

  lemma Pow256Values()
    ensures Pow256(3) == 0x100_0000 && Pow256(4) == 0x1_0000_0000
  {
    assert Pow256(2) == 0x1_0000;
  }

  /** Only the first nine octets matter. */
  lemma DeserializePrefix(a: seq<byte>, b: seq<byte>)
    requires |a| >= HEADER_LENGTH && a[..HEADER_LENGTH] <= b
    ensures Deserialize(a) == Deserialize(b)
  {
    assert forall i :: 0 <= i < HEADER_LENGTH ==> a[..HEADER_LENGTH][i] == b[i] == a[i];
    assert a[..3] == b[..3] && a[5..9] == b[5..9];
  }

  /** What the wire keeps of a header: 24 bits of length, 31 bits of stream identifier, all the rest. */
  lemma HeaderOnTheWire(h: Header)
    ensures Deserialize(Serialize(h)) == Header(h.length % 0x100_0000, h.kind, h.flags, h.streamId % 0x8000_0000)
  {
    hide Octets, Number;
    LengthOctets(h.length);
    StreamIdOctets(h.streamId % 0x8000_0000);
    var b := Serialize(h);
    assert b[..3] == Octets(h.length, 3) && b[5..9] == Octets(h.streamId % 0x8000_0000, 4);
  }

  /** A header survives the wire iff its length fits 24 bits and its stream identifier 31. */
  lemma HeaderRoundTripIff(h: Header)
    ensures Deserialize(Serialize(h)) == h <==> h.length < 0x100_0000 && h.streamId < 0x8000_0000
  {
    hide Serialize, Deserialize;
    HeaderOnTheWire(h);
  }

  function FrameBytes(kind: byte, flags: byte, streamId: nat, payload: seq<byte>): seq<byte> {
    Serialize(Header(|payload|, kind, flags, streamId)) + payload
  }

  function DataFlags(endStream: bool): byte {
    if endStream then END_STREAM else 0
  }

  function HeadersFlags(endStream: bool, endHeaders: bool): byte {
    (if endStream then END_STREAM else 0) + (if endHeaders then END_HEADERS else 0)
  }
}
