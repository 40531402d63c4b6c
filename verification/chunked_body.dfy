/**
  * The small-buffer chunk list: a single slot for the first chunk and a vector from the second
  * one on, refined to a plain list of non-empty chunks.
  */
module ChunkedBody {
  import opened Prelude

  class Http2ChunkedBody {
    var singleChunk: Bytes
    var chunks: seq<Bytes>
    var totalBytes: nat
    var chunkCount: nat
    var singleViewCache: seq<Bytes>

    /** The list the object stands for. */
    function List(): seq<Bytes>
      reads this
    {
      if chunkCount == 0 then [] else if chunks != [] then chunks else [singleChunk]
    }

    ghost predicate Valid()
      reads this
    {
      && chunkCount == |List()|
      && totalBytes == |Flatten(List())|
      && (chunkCount == 0 ==> chunks == [])
      && forall i :: 0 <= i < |List()| ==> List()[i] != []
    }

    constructor ()
      ensures Valid() && List() == []
    {
      singleChunk, chunks, totalBytes, chunkCount, singleViewCache := [], [], 0, 0, [];
    }

    method Clear()
      modifies this
      ensures Valid() && List() == []
    {
      singleChunk, chunks, totalBytes, chunkCount, singleViewCache := [], [], 0, 0, [];
    }

    method Set(data: Bytes)
      modifies this
      ensures Valid() && List() == Nonempty(data)
    {
      Clear();
      Append(data);
      assert [] + Nonempty(data) == Nonempty(data);
    }

    /** Empty data leaves no chunk behind. */
    method Append(data: Bytes)
      requires Valid()
      modifies this
      ensures Valid() && List() == old(List()) + Nonempty(data)
    {
      if data == [] {
        return;
      }
      FlattenAppend(List(), data);
      totalBytes := totalBytes + |data|;
      if chunkCount == 0 {
        singleChunk, chunkCount, singleViewCache := data, 1, [];
        assert List() == [data];
        return;
      }
      EnsureChunkVector();
      chunks := chunks + [data];
      chunkCount := chunkCount + 1;
      singleViewCache := [];
    }

    /** The first chunk moves into the vector; the moved-from slot keeps an unspecified value. */
    method EnsureChunkVector()
      requires chunkCount == |List()| > 0
      modifies this`chunks, this`singleChunk
      ensures chunks == old(List()) && List() == old(List())
    {
      if chunkCount == 1 && chunks == [] {
        chunks := [singleChunk];
        singleChunk := *;
      }
    }

    method View() returns (r: seq<Bytes>)
      requires Valid()
      modifies this`singleViewCache
      ensures Valid() && List() == old(List()) && r == List()
    {
      if chunkCount == 0 || chunks != [] {
        return chunks;
      }
      singleViewCache := [singleChunk];
      return singleViewCache;
    }

    method TakeChunks() returns (r: seq<Bytes>)
      requires Valid()
      modifies this
      ensures Valid() && List() == [] && r == old(List())
    {
      if chunkCount == 0 {
        return [];
      }
      singleViewCache, totalBytes, chunkCount := [], 0, 0;
      if chunks != [] {
        singleChunk := [];
        r, chunks := chunks, [];
        return;
      }
      r := [singleChunk];
      singleChunk := [];
    }

    method Coalesce() returns (r: Bytes)
      requires Valid()
      ensures r == Flatten(List())
    {
      if chunkCount == 0 {
        return [];
      }
      if chunks == [] {
        assert Flatten([singleChunk]) == singleChunk + Flatten([]);
        return singleChunk;
      }
      r := [];
      for i := 0 to |chunks|
        invariant r == Flatten(chunks[..i])
      {
        assert chunks[..i + 1] == chunks[..i] + [chunks[i]];
        FlattenAppend(chunks[..i], chunks[i]);
        r := r + chunks[i];
      }
      assert chunks[..|chunks|] == chunks;
    }

    method TakeCoalesced() returns (r: Bytes)
      requires Valid()
      modifies this
      ensures Valid() && List() == [] && r == Flatten(old(List()))
    {
      if chunkCount == 0 {
        return [];
      }
      if chunks == [] {
        assert Flatten([singleChunk]) == singleChunk + Flatten([]);
        totalBytes, chunkCount, singleViewCache := 0, 0, [];
        r, singleChunk := singleChunk, [];
        return;
      }
      r := Coalesce();
      Clear();
    }

    method TakeSingleChunk() returns (r: Bytes)
      requires Valid()
      modifies this
      ensures Valid() && List() == [] && r == Flatten(old(List()))
    {
      if chunkCount == 1 && chunks == [] {
        assert Flatten([singleChunk]) == singleChunk + Flatten([]);
        totalBytes, chunkCount, singleViewCache := 0, 0, [];
        r, singleChunk := singleChunk, [];
        return;
      }
      r := TakeCoalesced();
    }
  }

  function Nonempty(data: Bytes): seq<Bytes> {
    if data == [] then [] else [data]
  }

  // ----- any interleaving of operations -----

  datatype Op =
    | OpAppend(data: Bytes) | OpSet(data: Bytes) | OpClear
    | OpView | OpTakeChunks | OpTakeCoalesced | OpTakeSingleChunk

  /** What an operation shows its caller. */
  datatype Seen = Nothing | Chunks(chunks: seq<Bytes>) | Joined(bytes: Bytes)

  function ListAfter(list: seq<Bytes>, op: Op): seq<Bytes> {
    match op
    case OpAppend(data) => list + Nonempty(data)
    case OpSet(data) => Nonempty(data)
    case OpView => list
    case _ => []
  }

  function SeenFrom(list: seq<Bytes>, op: Op): Seen {
    match op
    case OpView => Chunks(list)
    case OpTakeChunks => Chunks(list)
    case OpTakeCoalesced => Joined(Flatten(list))
    case OpTakeSingleChunk => Joined(Flatten(list))
    case _ => Nothing
  }

  function ListAfterAll(list: seq<Bytes>, ops: seq<Op>): seq<Bytes> {
    if ops == [] then list else ListAfter(ListAfterAll(list, ops[..|ops| - 1]), ops[|ops| - 1])
  }

  function AllSeen(list: seq<Bytes>, ops: seq<Op>): seq<Seen> {
    if ops == [] then []
    else AllSeen(list, ops[..|ops| - 1]) + [SeenFrom(ListAfterAll(list, ops[..|ops| - 1]), ops[|ops| - 1])]
  }

  method Perform(body: Http2ChunkedBody, op: Op) returns (seen: Seen)
    requires body.Valid()
    modifies body
    ensures body.Valid() && body.List() == ListAfter(old(body.List()), op)
    ensures seen == SeenFrom(old(body.List()), op)
  {
    seen := Nothing;
    match op
    case OpAppend(data) => body.Append(data);
    case OpSet(data) => body.Set(data);
    case OpClear => body.Clear();
    case OpView =>
      var chunks := body.View();
      seen := Chunks(chunks);
    case OpTakeChunks =>
      var chunks := body.TakeChunks();
      seen := Chunks(chunks);
    case OpTakeCoalesced =>
      var bytes := body.TakeCoalesced();
      seen := Joined(bytes);
    case OpTakeSingleChunk =>
      var bytes := body.TakeSingleChunk();
      seen := Joined(bytes);
  }

  /** Every run of the object shows exactly what the plain list shows, and counts exactly. */
  method PerformAll(body: Http2ChunkedBody, ops: seq<Op>) returns (seen: seq<Seen>)
    requires body.Valid()
    modifies body
    ensures body.Valid() && body.List() == ListAfterAll(old(body.List()), ops)
    ensures seen == AllSeen(old(body.List()), ops)
    ensures body.totalBytes == |Flatten(body.List())| && body.chunkCount == |body.List()|
  {
    seen := [];
    ghost var start := body.List();
    for i := 0 to |ops|
      invariant body.Valid() && body.List() == ListAfterAll(start, ops[..i])
      invariant seen == AllSeen(start, ops[..i])
    {
      assert ops[..i + 1][..i] == ops[..i];
      var s := Perform(body, ops[i]);
      seen := seen + [s];
    }
    assert ops[..|ops|] == ops;
  }

  /** Bytes are conserved: what is taken out, joined, is what was appended since the last emptying. */
  lemma {:induction false} AppendsComeOutInOrder(list: seq<Bytes>, data: seq<Bytes>)
    ensures Flatten(ListAfterAll(list, Appends(data))) == Flatten(list) + Flatten(data)
  {
    if data == [] {
      assert Flatten(list) + [] == Flatten(list);
    } else {
      var n := |data| - 1;
      var init, last := data[..n], data[n];
      AppendsComeOutInOrder(list, init);
      assert Appends(data)[..n] == Appends(init);
      var before := ListAfterAll(list, Appends(init));
      FlattenConcat(before, Nonempty(last));
      assert Flatten(Nonempty(last)) == last by {
        assert Flatten([last]) == last + Flatten([]);
      }
      assert data == init + [last];
      FlattenAppend(init, last);
      Assoc(Flatten(list), Flatten(init), last);
    }
  }

  function Appends(data: seq<Bytes>): (r: seq<Op>)
    ensures |r| == |data|
    ensures forall i :: 0 <= i < |r| ==> r[i] == OpAppend(data[i])
  {
    seq(|data|, i requires 0 <= i < |data| => OpAppend(data[i]))
  }
}
