/** Datatypes and sequence helpers shared by the other modules. */
module Prelude {
  datatype Option<+T> = None | Some(value: T)

  datatype Result<+T, +E> = Ok(value: T) | Err(error: E)

  /** One octet. */
  type byte = n: nat | n < 256

  type Bytes = seq<byte>

  const TWO31: int := 0x8000_0000
  const TWO32: int := 0x1_0000_0000

  type uint32 = n: nat | n < TWO32
  type int32 = n: int | -TWO31 <= n < TWO31

  /** Casts to 32 bits wrap around. */
  function ToU32(n: int): uint32 {
    n % TWO32
  }

  function ToI32(n: int): int32 {
    if n % TWO32 < TWO31 then n % TWO32 else n % TWO32 - TWO32
  }

  /** The HTTP/2 window of a new connection or stream. */
  const DEFAULT_INITIAL_WINDOW: nat := 65535

  function Min(a: int, b: int): int {
    if a <= b then a else b
  }

  function Max(a: int, b: int): int {
    if a >= b then a else b
  }

  function Pow2(n: nat): (r: nat)
    ensures r > 0
  {
    if n == 0 then 1 else 2 * Pow2(n - 1)
  }

  /** The concatenation of a list of segments. */
  function Flatten<T>(segments: seq<seq<T>>): seq<T> {
    if segments == [] then [] else segments[0] + Flatten(segments[1..])
  }

  lemma {:induction false} FlattenConcat<T>(a: seq<seq<T>>, b: seq<seq<T>>)
    ensures Flatten(a + b) == Flatten(a) + Flatten(b)
  {
    if a == [] {
      assert a + b == b;
    } else {
      FlattenConcat(a[1..], b);
      assert (a + b)[0] == a[0] && (a + b)[1..] == a[1..] + b;
      assert a[0] + (Flatten(a[1..]) + Flatten(b)) == (a[0] + Flatten(a[1..])) + Flatten(b);
    }
  }

  lemma FlattenAppend<T>(a: seq<seq<T>>, x: seq<T>)
    ensures Flatten(a + [x]) == Flatten(a) + x
  {
    FlattenConcat(a, [x]);
  }

  lemma Assoc<T>(a: seq<T>, b: seq<T>, c: seq<T>)
    ensures (a + b) + c == a + (b + c)
  {
  }
}
