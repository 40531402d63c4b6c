/** Scatter/gather helpers: compaction, prefix copy, and the cursor that tracks partial writes. */
module IoVec {
  import opened Prelude

  /** The segments that still hold bytes, in order. */
  function NonEmpties(segments: seq<Bytes>): seq<Bytes> {
    if segments == [] then []
    else
      var last := segments[|segments| - 1];
      NonEmpties(segments[..|segments| - 1]) + if last == [] then [] else [last]
  }

  predicate NoneEmpty(segments: seq<Bytes>) {
    forall i :: 0 <= i < |segments| ==> segments[i] != []
  }

  /** Dropping empty segments keeps the bytes. */
  lemma {:induction false} NonEmptiesFlatten(segments: seq<Bytes>)
    ensures Flatten(NonEmpties(segments)) == Flatten(segments)
    ensures NoneEmpty(NonEmpties(segments)) && |NonEmpties(segments)| <= |segments|
    ensures NonEmpties(segments) == [] <==> Flatten(segments) == []
  {
    if segments != [] {
      var n := |segments| - 1;
      var init, last := segments[..n], segments[n];
      NonEmptiesFlatten(init);
      assert segments == init + [last];
      FlattenAppend(init, last);
      FlattenAppend(NonEmpties(init), last);
      assert NonEmpties(init) + [] == NonEmpties(init) && Flatten(init) + [] == Flatten(init);
    }
  }

  lemma FlattenFirst(segments: seq<Bytes>)
    requires segments != []
    ensures Flatten(segments) == segments[0] + Flatten(segments[1..])
  {
  }

  lemma FlattenNothing()
    ensures Flatten<byte>([]) == []
  {
  }

  lemma FlattenFrom(segments: seq<Bytes>, i: nat)
    requires i < |segments|
    ensures Flatten(segments[i..]) == segments[i] + Flatten(segments[i + 1..])
  {
    assert segments[i..][0] == segments[i] && segments[i..][1..] == segments[i + 1..];
  }

  /** In place; the result is the new count. */
  method CompactIovecs(iovecs: array<Bytes>, count: nat) returns (kept: nat)
    modifies iovecs
    ensures kept <= iovecs.Length
    ensures iovecs[..kept] == NonEmpties(old(iovecs[..Min(count, iovecs.Length)]))
  {
    var bounded := Min(count, iovecs.Length);
    kept := 0;
    for readIndex := 0 to bounded
      invariant kept <= readIndex
      invariant iovecs[..kept] == NonEmpties(old(iovecs[..readIndex]))
      invariant iovecs[readIndex..] == old(iovecs[readIndex..])
    {
      assert old(iovecs[..readIndex + 1])[..readIndex] == old(iovecs[..readIndex]);
      assert iovecs[readIndex] == iovecs[readIndex..][0] == old(iovecs[readIndex]);
      assert iovecs[readIndex + 1..] == iovecs[readIndex..][1..];
      assert old(iovecs[readIndex + 1..]) == old(iovecs[readIndex..])[1..];
      if iovecs[readIndex] == [] {
        continue;
      }
      ghost var front := iovecs[..kept];
      if kept != readIndex {
        iovecs[kept] := iovecs[readIndex];
      }
      assert iovecs[..kept + 1] == front + [old(iovecs[readIndex])];
      kept := kept + 1;
    }
  }

  method FirstNonEmpty(source: seq<Bytes>) returns (r: Option<Bytes>)
    ensures r == if NonEmpties(source) == [] then None else Some(NonEmpties(source)[0])
    ensures r.Some? ==> r.value != [] && r.value <= Flatten(source)
  {
    for i := 0 to |source|
      invariant NonEmpties(source[..i]) == []
    {
      assert source[..i + 1][..i] == source[..i];
      if source[i] != [] {
        assert NonEmpties(source[..i + 1]) == [source[i]];
        PrefixOfNonEmpties(source, i + 1);
        NonEmptiesFlatten(source);
        FlattenFirst(NonEmpties(source));
        return Some(source[i]);
      }
    }
    assert source[..|source|] == source;
    return None;
  }

  lemma {:induction false} PrefixOfNonEmpties(source: seq<Bytes>, i: nat)
    requires i <= |source|
    ensures NonEmpties(source[..i]) <= NonEmpties(source)
  {
    if i < |source| {
      var n := |source| - 1;
      PrefixOfNonEmpties(source[..n], i);
      assert source[..n][..i] == source[..i];
    } else {
      assert source[..i] == source;
    }
  }

  /** Bytes from the front of the segments, as many as asked for and available. */
  method CopyPrefix(source: seq<Bytes>, destination: array<byte>, requested: nat) returns (copied: nat)
    requires requested <= destination.Length
    modifies destination
    ensures copied == Min(requested, |Flatten(source)|)
    ensures destination[..copied] == Flatten(source)[..copied]
    ensures destination[copied..] == old(destination[copied..])
  {
    hide Flatten;
    copied := 0;
    var i := 0;
    assert source[0..] == source;
    ghost var all, before := Flatten(source), destination[..];
    while i < |source| && copied < requested
      invariant i <= |source| && copied <= requested && copied <= |all|
      invariant copied < requested ==> all[copied..] == Flatten(source[i..])
      invariant destination[..copied] == all[..copied]
      invariant destination[copied..] == before[copied..]
    {
      FlattenFrom(source, i);
      var bytes := Min(|source[i]|, requested - copied);
      CopyInto(destination, copied, source[i][..bytes]);
      NextPiece(all, copied, source[i], Flatten(source[i + 1..]), bytes);
      assert destination[copied + bytes..] == before[copied..][bytes..] == before[copied + bytes..];
      copied := copied + bytes;
      i := i + 1;
    }
    if copied < requested {
      assert source[i..] == [];
      assert Flatten(source[i..]) == [] by { FlattenNothing(); }
    }
    assert before[copied..] == old(destination[copied..]);
  }

  lemma NextPiece(all: Bytes, copied: nat, piece: Bytes, rest: Bytes, bytes: nat)
    requires copied <= |all| && all[copied..] == piece + rest && bytes <= |piece|
    ensures copied + bytes <= |all| && all[..copied + bytes] == all[..copied] + piece[..bytes]
    ensures bytes == |piece| ==> all[copied + bytes..] == rest
  {
    assert all == all[..copied] + (piece + rest);
  }

  /** A block copy. */
  method CopyInto(destination: array<byte>, at: nat, bytes: Bytes)
    requires at + |bytes| <= destination.Length
    modifies destination
    ensures destination[..at + |bytes|] == old(destination[..at]) + bytes
    ensures destination[at + |bytes|..] == old(destination[at + |bytes|..])
  {
    forall k | 0 <= k < |bytes| {
      destination[at + k] := bytes[k];
    }
  }

  // ----- the cursor -----

  class IoVecCursor {
    var iovecs: seq<Bytes>
    var index: nat
    var remainingBytes: nat

    /** The segments still to be written. */
    function Window(): seq<Bytes>
      requires index <= |iovecs|
      reads this
    {
      iovecs[index..]
    }

    /** The bytes still to be written. */
    function Pending(): Bytes
      requires index <= |iovecs|
      reads this
    {
      Flatten(iovecs[index..])
    }

    ghost predicate Valid()
      reads this
    {
      && index <= |iovecs|
      && remainingBytes == |Pending()|
      && NoneEmpty(Window())
      && (index == |iovecs| ==> index == 0)
    }

    constructor ()
      ensures Valid() && Pending() == []
    {
      iovecs, index, remainingBytes := [], 0, 0;
    }

    method Reset(segments: seq<Bytes>)
      modifies this
      ensures Valid() && Pending() == Flatten(segments) && Window() == NonEmpties(segments)
    {
      iovecs := segments;
      Normalize();
    }

    /** Drop empty segments and recount. */
    method Normalize()
      modifies this
      ensures Valid() && iovecs == NonEmpties(old(iovecs)) && index == 0
      ensures Pending() == Flatten(old(iovecs))
    {
      var writeIndex := 0;
      remainingBytes := 0;
      ghost var given := iovecs;
      for readIndex := 0 to |iovecs|
        invariant writeIndex <= readIndex && |iovecs| == |given|
        invariant iovecs[..writeIndex] == NonEmpties(given[..readIndex])
        invariant iovecs[readIndex..] == given[readIndex..]
        invariant remainingBytes == |Flatten(iovecs[..writeIndex])|
      {
        var seg := iovecs[readIndex];
        assert seg == iovecs[readIndex..][0] == given[readIndex];
        assert given[..readIndex + 1][..readIndex] == given[..readIndex];
        assert iovecs[readIndex + 1..] == iovecs[readIndex..][1..] == given[readIndex + 1..];
        if seg == [] {
          continue;
        }
        ghost var front := iovecs[..writeIndex];
        if writeIndex != readIndex {
          iovecs := iovecs[writeIndex := seg];
        }
        assert iovecs[..writeIndex + 1] == front + [seg];
        FlattenAppend(front, seg);
        remainingBytes := remainingBytes + |seg|;
        writeIndex := writeIndex + 1;
      }
      assert given[..|given|] == given;
      iovecs, index := iovecs[..writeIndex], 0;
      NonEmptiesFlatten(given);
      assert iovecs[0..] == iovecs;
    }

    method Clear()
      modifies this
      ensures Valid() && Pending() == []
    {
      iovecs, index, remainingBytes := [], 0, 0;
    }

    method Append(segment: Bytes)
      requires Valid()
      modifies this
      ensures Valid() && Pending() == old(Pending()) + segment
    {
      if segment == [] {
        return;
      }
      if index >= |iovecs| {
        iovecs, index := [], 0;
      }
      ghost var window := iovecs[index..];
      FlattenAppend(window, segment);
      iovecs := iovecs + [segment];
      assert iovecs[index..] == window + [segment];
      remainingBytes := remainingBytes + |segment|;
    }

    /** Exactly the written bytes leave the front, wherever they end inside a segment. */
    method Advance(bytes: nat) returns (advanced: nat)
      requires Valid()
      modifies this
      ensures Valid() && advanced == Min(bytes, |old(Pending())|)
      ensures Pending() == old(Pending())[advanced..]
    {
      if bytes == 0 || index >= |iovecs| {
        return 0;
      }
      var toAdvance := Min(bytes, remainingBytes);
      var remaining := toAdvance;
      ghost var all := Pending();
      assert all[0..] == all;
      while remaining > 0 && index < |iovecs|
        invariant 0 <= remaining <= toAdvance <= |all| && index <= |iovecs|
        invariant Flatten(iovecs[index..]) == all[toAdvance - remaining..]
        invariant NoneEmpty(iovecs[index..]) && remainingBytes == |all|
        decreases remaining
      {
        var seg := iovecs[index];
        SegmentInside(iovecs, index, all, toAdvance - remaining);
        if remaining < |seg| {
          CutSegment(iovecs, index, remaining);
          iovecs := iovecs[index := seg[remaining..]];
          remaining := 0;
          break;
        }
        DropSegment(iovecs, index);
        remaining := remaining - |seg|;
        iovecs := iovecs[index := []];
        index := index + 1;
      }
      advanced := toAdvance - remaining;
      remainingBytes := remainingBytes - advanced;
      ghost var before := index;
      SkipLeadingEmpty();
      LaterNoneEmpty(iovecs, before, index);
      if index >= |iovecs| {
        assert iovecs[index..] == [];
        iovecs, index := [], 0;
      }
    }

    method SkipLeadingEmpty()
      requires index <= |iovecs|
      modifies this`index
      ensures old(index) <= index <= |iovecs| && (index < |iovecs| ==> iovecs[index] != [])
      ensures Flatten(iovecs[index..]) == old(Flatten(iovecs[index..]))
    {
      while index < |iovecs| && iovecs[index] == []
        invariant old(index) <= index <= |iovecs|
        invariant Flatten(iovecs[index..]) == old(Flatten(iovecs[index..]))
      {
        FlattenFrom(iovecs, index);
        index := index + 1;
      }
    }
  }

  lemma LaterNoneEmpty(iovecs: seq<Bytes>, i: nat, j: nat)
    requires i <= j <= |iovecs| && NoneEmpty(iovecs[i..])
    ensures NoneEmpty(iovecs[j..])
  {
    assert iovecs[j..] == iovecs[i..][j - i..];
  }

  /** The first pending segment is a stretch of the bytes that are pending. */
  lemma SegmentInside(iovecs: seq<Bytes>, index: nat, all: Bytes, from: nat)
    requires index < |iovecs| && from <= |all| && Flatten(iovecs[index..]) == all[from..]
    requires NoneEmpty(iovecs[index..])
    ensures iovecs[index] != [] && from + |iovecs[index]| <= |all|
    ensures all[from..][|iovecs[index]|..] == all[from + |iovecs[index]|..] == Flatten(iovecs[index + 1..])
  {
    FlattenFrom(iovecs, index);
    assert iovecs[index..][0] == iovecs[index];
  }

  lemma DropSegment(iovecs: seq<Bytes>, index: nat)
    requires index < |iovecs| && NoneEmpty(iovecs[index..])
    ensures iovecs[index := []][index + 1..] == iovecs[index + 1..]
    ensures NoneEmpty(iovecs[index + 1..])
  {
    assert iovecs[index + 1..] == iovecs[index..][1..];
  }

  lemma CutSegment(iovecs: seq<Bytes>, index: nat, n: nat)
    requires index < |iovecs| && n < |iovecs[index]| && NoneEmpty(iovecs[index..])
    ensures var cut := iovecs[index := iovecs[index][n..]];
      Flatten(cut[index..]) == Flatten(iovecs[index..])[n..] && NoneEmpty(cut[index..])
  {
    var cut := iovecs[index := iovecs[index][n..]];
    FlattenFrom(iovecs, index);
    FlattenFrom(cut, index);
    assert cut[index + 1..] == iovecs[index + 1..];
    forall i | 0 <= i < |cut[index..]| ensures cut[index..][i] != [] {
      assert i > 0 ==> cut[index..][i] == iovecs[index..][i];
    }
  }
}
