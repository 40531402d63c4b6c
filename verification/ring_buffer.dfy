/**
  * The receive buffer as its users see it: a bounded byte sequence whose readable and writable
  * parts are exposed as at most two segments, cut anywhere.
  */
module RingBuffers {
  import opened Prelude
  import opened IoVec

  class RingBuffer {
    const capacity: nat
    var contents: Bytes

    ghost predicate Valid()
      reads this
    {
      |contents| <= capacity
    }

    constructor (capacity: nat)
      ensures Valid() && contents == [] && this.capacity == capacity
    {
      this.capacity, contents := capacity, [];
    }

    function Readable(): nat
      reads this
    {
      |contents|
    }

    /** Where the wrap falls is not known to the reader. */
    method GetReadIovecs() returns (segments: seq<Bytes>)
      ensures |segments| <= 2 && Flatten(segments) == contents
    {
      if contents == [] {
        return [];
      }
      var cut :| 0 <= cut <= |contents|;
      segments := [contents[..cut], contents[cut..]];
      FlattenFirst(segments);
      assert segments[1..] == [contents[cut..]];
      FlattenFirst([contents[cut..]]);
    }

    /** The free room, as segment lengths; some may be zero. */
    method GetWriteIovecs() returns (room: seq<nat>)
      requires Valid()
      ensures |room| == 2 && room[0] + room[1] == capacity - |contents|
    {
      var first :| 0 <= first <= capacity - |contents|;
      room := [first, capacity - |contents| - first];
    }

    method Produce(bytes: Bytes)
      requires Valid() && |contents| + |bytes| <= capacity
      modifies this
      ensures Valid() && contents == old(contents) + bytes
    {
      contents := contents + bytes;
    }

    method Consume(n: nat)
      requires Valid() && n <= |contents|
      modifies this
      ensures Valid() && contents == old(contents)[n..]
    {
      contents := contents[n..];
    }
  }
}
