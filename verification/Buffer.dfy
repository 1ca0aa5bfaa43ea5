/**
  tinystl::buffer: a growing array whose operations move elements in place, and whose insertion may
  read its elements from the very buffer it inserts into.

  Element types are those that are copied byte for byte.
 */
module Buffer {
  import opened Words

  // ----- what the operations make of the contents

  /** The range [first, last) of the buffer reaches across the insertion point. */
  predicate Straddles(first: nat, last: nat, where: nat) { first < where < last }

  /**
    Element k of what is inserted at where when the range [first, last) of the buffer itself is:
    across the insertion point, the copy runs into its own output.
   */
  function InsertedAt<T>(s: seq<T>, first: nat, last: nat, where: nat, k: nat): T
    requires first + k < last <= |s|
    decreases k
  {
    if Straddles(first, last, where) && k >= where - first then InsertedAt(s, first, last, where, k - (where - first))
    else s[first + k]
  }

  function Inserted<T>(s: seq<T>, first: nat, last: nat, where: nat): (r: seq<T>)
    requires first <= last <= |s|
    ensures |r| == last - first
  {
    seq(last - first, k requires 0 <= k < last - first => InsertedAt(s, first, last, where, k))
  }

  /** The range repeats itself with the given period. */
  predicate Periodic<T(==)>(s: seq<T>, period: nat)
  {
    forall k :: period <= k < |s| ==> s[k] == s[k - period]
  }

  /**
    Inserting from itself inserts the range as it was exactly if the range does not straddle the
    insertion point, or repeats what is in front of it.
   */
  lemma SelfInsertExactly<T>(s: seq<T>, first: nat, last: nat, where: nat)
    requires first <= last <= |s|
    ensures Inserted(s, first, last, where) == s[first..last] <==>
            (Straddles(first, last, where) ==> Periodic(s[first..last], where - first))
  {
    var w, r := Inserted(s, first, last, where), s[first..last];
    forall k | 0 <= k < last - first
      ensures w[k] == InsertedAt(s, first, last, where, k) && r[k] == s[first + k]
    {
    }
    if Straddles(first, last, where) {
      var p := where - first;
      if Periodic(r, p) {
        forall k | 0 <= k < last - first
          ensures w[k] == r[k]
        {
          RepeatsTo(s, first, last, where, k);
        }
      }
      if w == r {
        forall k | p <= k < |r|
          ensures r[k] == r[k - p]
        {
          assert w[k] == w[k - p];
        }
      }
    } else {
      assert w == r;
    }
  }

  lemma {:induction false} RepeatsTo<T>(s: seq<T>, first: nat, last: nat, where: nat, k: nat)
    requires first + k < last <= |s| && Straddles(first, last, where) && Periodic(s[first..last], where - first)
    ensures InsertedAt(s, first, last, where, k) == s[first + k]
    decreases k
  {
    var p := where - first;
    if k >= p {
      RepeatsTo(s, first, last, where, k - p);
      assert s[first..last][k] == s[first..last][k - p];
    }
  }

  /** What erase_unordered leaves: the hole is filled from the end. */
  function ErasedUnordered<T>(s: seq<T>, first: nat, last: nat): seq<T>
    requires first <= last <= |s|
  {
    var count, tail := last - first, |s| - last;
    if count < tail then s[..first] + s[|s| - count..] + s[last..|s| - count]
    else s[..first] + s[last..]
  }

  /** It keeps exactly the elements outside the erased range, and the order of those before it. */
  lemma ErasedKeepsRest<T>(s: seq<T>, first: nat, last: nat)
    requires first <= last <= |s|
    ensures multiset(ErasedUnordered(s, first, last)) + multiset(s[first..last]) == multiset(s)
    ensures |ErasedUnordered(s, first, last)| == |s| - (last - first)
    ensures s[..first] <= ErasedUnordered(s, first, last)
  {
    hide ErasedUnordered;
    var end := ErasedPieces(s, first, last);
    Reordered(s[..first], s[first..last], s[last..end], s[end..]);
  }

  lemma ErasedPieces<T>(s: seq<T>, first: nat, last: nat) returns (end: nat)
    requires first <= last <= |s|
    ensures last <= end <= |s|
    ensures s[..first] + s[first..last] + s[last..end] + s[end..] == s
    ensures ErasedUnordered(s, first, last) == s[..first] + s[end..] + s[last..end]
  {
    var count, tail := last - first, |s| - last;
    end := if count < tail then |s| - count else last;
  }

  lemma Reordered<T>(a: seq<T>, r: seq<T>, m: seq<T>, t: seq<T>)
    ensures multiset(a + t + m) + multiset(r) == multiset(a + r + m + t)
  {
  }

  // ----- the buffer

  /** The elements w in place of those at index at. */
  function Spliced<T>(d: seq<T>, at: nat, w: seq<T>): (r: seq<T>)
    requires at + |w| <= |d|
    ensures |r| == |d|
  {
    d[..at] + w + d[at + |w|..]
  }

  lemma SpliceNone<T>(d: seq<T>, at: nat)
    requires at <= |d|
    ensures Spliced(d, at, []) == d
  {
  }

  lemma SpliceOne<T>(d: seq<T>, at: nat, w: seq<T>, x: T)
    requires at + |w| < |d|
    ensures Spliced(d, at, w)[at + |w| := x] == Spliced(d, at, w + [x])
    ensures forall k :: at + |w| <= k < |d| ==> Spliced(d, at, w)[k] == d[k]
  {
  }

  class Buffer<T(0)> {
    /** from first to capacity */
    var data: array<T>
    /** last - first */
    var size: nat

    constructor ()
      ensures Valid() && Contents() == [] && fresh(data)
    {
      data, size := new T[0], 0;
    }

    ghost predicate Valid()
      reads this
    {
      size <= data.Length
    }

    ghost function Contents(): seq<T>
      requires Valid()
      reads this, data
    {
      data[..size]
    }

    /** buffer_reserve */
    method Reserve(capacity: nat)
      requires Valid()
      modifies this
      ensures Valid() && Contents() == old(Contents()) && capacity <= data.Length
      ensures if capacity <= old(data).Length then data == old(data) else fresh(data)
    {
      if capacity <= data.Length {
        return;
      }
      var newData := new T[capacity];
      for i := 0 to size
        invariant size == old(size) && data == old(data)
        invariant newData[..i] == data[..i] && data[..] == old(data[..])
      {
        newData[i] := data[i];
      }
      data := newData;
    }

    /** buffer_bmove_urange: the elements of [from, size) move up by count, the last first. */
    method MoveUp(from: nat, count: nat)
      requires Valid() && from <= size && size + count <= data.Length
      modifies data
      ensures data[..from] == old(data[..from])
      ensures data[from + count..size + count] == old(data[from..size])
    {
      var it := size;
      while it != from
        invariant from <= it <= size
        invariant forall k :: 0 <= k < it ==> data[k] == old(data[k])
        invariant forall k :: it + count <= k < size + count ==> data[k] == old(data[k - count])
        decreases it
      {
        data[it - 1 + count] := data[it - 1];
        it := it - 1;
      }
    }

    /** buffer_insert_common: room for count elements at where, and what was there behind it. */
    method InsertCommon(where: nat, count: nat)
      requires Valid() && where <= size
      modifies this, data
      ensures Valid() && size == old(size) + count && (data == old(data) || fresh(data))
      ensures data[..where] == old(Contents()[..where])
      ensures data[where + count..size] == old(Contents()[where..])
    {
      var newSize := size + count;
      ghost var s := Contents();
      if newSize > data.Length {
        Reserve(newSize * 3 / 2);
      }
      assert data[..size] == s;
      assert data[..where] == s[..where] && data[where..size] == s[where..];
      if where != size {
        MoveUp(where, count);
      }
      size := newSize;
    }

    /** The elements src[first..last], of another array, are put at index at. */
    method CopyIn(at: nat, src: array<T>, first: nat, last: nat)
      requires src != data && first <= last <= src.Length && at + (last - first) <= data.Length
      modifies data
      ensures data[..] == Spliced(old(data[..]), at, src[first..last])
    {
      hide Spliced;
      SpliceNone(data[..], at);
      assert src[first..first] == [];
      for k := 0 to last - first
        invariant data[..] == Spliced(old(data[..]), at, src[first..first + k])
      {
        SpliceOne(old(data[..]), at, src[first..first + k], src[first + k]);
        assert src[first..first + k] + [src[first + k]] == src[first..first + k + 1];
        data[at + k] := src[first + k];
      }
    }

    /** buffer_insert, for a range of another array */
    method Insert(where: nat, src: array<T>, first: nat, last: nat)
      requires Valid() && where <= size && src != data && first <= last <= src.Length
      modifies this, data
      ensures Valid() && Contents() == old(Contents()[..where] + src[first..last] + Contents()[where..])
    {
      ghost var s, w := Contents(), src[first..last];
      InsertCommon(where, last - first);
      FilledIn(data[..], size, s, where, w);
      CopyIn(where, src, first, last);
    }

    /** buffer_insert, for a range of the buffer itself: the offset of the range is moved along with its elements. */
    method InsertFromSelf(where: nat, first: nat, last: nat)
      requires Valid() && where <= size && first <= last <= size
      modifies this, data
      ensures Valid()
      ensures Contents() == old(Contents()[..where] + Inserted(Contents(), first, last, where) + Contents()[where..])
    {
      ghost var s := Contents();
      var count := last - first;
      var offset := first;
      if where <= first {
        offset := offset + count;
      }
      InsertCommon(where, count);
      FilledIn(data[..], size, s, where, Inserted(s, first, last, where));
      CopyWithin(where, offset, count, s, first, last);
    }

    /** The insertion loop, with source and destination in the same array. */
    method CopyWithin(where: nat, offset: nat, count: nat, ghost s: seq<T>, ghost first: nat, ghost last: nat)
      requires first <= last <= |s| && where <= |s| && count == last - first && |s| + count <= data.Length
      requires offset == if where <= first then first + count else first
      requires data[..where] == s[..where] && data[where + count..|s| + count] == s[where..]
      modifies data
      ensures data[..] == Spliced(old(data[..]), where, Inserted(s, first, last, where))
    {
      hide Spliced, Inserted;
      ghost var d, w := data[..], Inserted(s, first, last, where);
      SpliceNone(d, where);
      assert w[..0] == [];
      for k := 0 to count
        invariant data[..] == Spliced(d, where, w[..k])
      {
        SpliceOne(d, where, w[..k], w[k]);
        assert w[..k] + [w[k]] == w[..k + 1];
        SourceOf(d, s, first, last, where, k);
        assert data[offset + k] == data[..][offset + k];
        data[where + k] := data[offset + k];
      }
      assert w[..count] == w;
    }

    /** buffer_append, for an element of another array */
    method Append(src: array<T>, at: nat)
      requires Valid() && src != data && at < src.Length
      modifies this, data
      ensures Valid() && Contents() == old(Contents() + [src[at]])
    {
      if data.Length != size {
        data[size] := src[at];
        size := size + 1;
        assert data[..size] == data[..size - 1] + [data[size - 1]];
      } else {
        Insert(size, src, at, at + 1);
      }
    }

    /** buffer_append, for an element of the buffer itself */
    method AppendFromSelf(at: nat)
      requires Valid() && at < size
      modifies this, data
      ensures Valid() && Contents() == old(Contents() + [Contents()[at]])
    {
      ghost var s := Contents();
      if data.Length != size {
        data[size] := data[at];
        size := size + 1;
        assert data[..size] == data[..size - 1] + [data[size - 1]];
      } else {
        InsertFromSelf(size, at, at + 1);
        SelfInsertExactly(s, at, at + 1, |s|);
        assert s[..|s|] == s && s[at..at + 1] == [s[at]];
      }
    }

    /** buffer_erase */
    method Erase(first: nat, last: nat)
      requires Valid() && first <= last <= size
      modifies this, data
      ensures Valid() && Contents() == old(Contents()[..first] + Contents()[last..])
    {
      MoveDown(first, last, size);
      size := size - (last - first);
      assert data[..size] == data[..first] + data[first..size];
    }

    /** The elements of [from, to) move down to dest. */
    method MoveDown(dest: nat, from: nat, to: nat)
      requires Valid() && dest <= from <= to <= size
      modifies data
      ensures data[..] == Spliced(old(data[..]), dest, old(data[from..to]))
    {
      hide Spliced;
      ghost var d := data[..];
      SpliceNone(d, dest);
      assert d[from..from] == [];
      for i := 0 to to - from
        invariant data[..] == Spliced(d, dest, d[from..from + i])
      {
        SpliceOne(d, dest, d[from..from + i], d[from + i]);
        assert d[from..from + i] + [d[from + i]] == d[from..from + i + 1];
        assert data[from + i] == data[..][from + i];
        data[dest + i] := data[from + i];
      }
    }

    /** buffer_erase_unordered */
    method EraseUnordered(first: nat, last: nat)
      requires Valid() && first <= last <= size
      modifies this, data
      ensures Valid() && Contents() == ErasedUnordered(old(Contents()), first, last)
    {
      hide Spliced, ErasedUnordered;
      ghost var s := Contents();
      var count, tail := last - first, size - last;
      var it := size - if count < tail then count else tail;
      FilledHole(data[..], s, first, last);
      MoveDown(first, it, size);
      size := size - count;
    }
  }

  /** Moving the end, or all behind the erased range, into the hole. */
  lemma FilledHole<T>(d: seq<T>, s: seq<T>, first: nat, last: nat)
    requires first <= last <= |s| <= |d| && d[..|s|] == s
    ensures var count, tail := last - first, |s| - last;
            var it := |s| - if count < tail then count else tail;
            it >= last && d[it..|s|] == s[it..]
                && Spliced(d, first, d[it..|s|])[..|s| - count] == ErasedUnordered(s, first, last)
  {
    var count, tail := last - first, |s| - last;
    var it := |s| - if count < tail then count else tail;
    var r := Spliced(d, first, d[it..|s|])[..|s| - count];
    if count < tail {
      assert r == d[..first] + d[it..|s|] + d[last..it];
      assert d[..first] == d[..|s|][..first];
      SubSlice(d, 0, |s|, last, it);
    } else {
      assert r == d[..first] + d[last..|s|];
      assert d[..first] == d[..|s|][..first];
    }
  }

  /** Filling the room made at where completes the insertion. */
  lemma FilledIn<T>(d: seq<T>, size: nat, s: seq<T>, where: nat, w: seq<T>)
    requires where <= |s| && size == |s| + |w| <= |d|
    requires d[..where] == s[..where] && d[where + |w|..size] == s[where..]
    ensures Spliced(d, where, w)[..size] == s[..where] + w + s[where..]
  {
  }

  /** Where the insertion loop finds its element k, with k elements written. */
  lemma SourceOf<T>(d: seq<T>, s: seq<T>, first: nat, last: nat, where: nat, k: nat)
    requires first + k < last <= |s| && where <= |s| && |s| + (last - first) <= |d|
    requires d[..where] == s[..where] && d[where + (last - first)..|s| + (last - first)] == s[where..]
    ensures var w := Inserted(s, first, last, where);
            var offset := if where <= first then first + (last - first) else first;
            Spliced(d, where, w[..k])[offset + k] == w[k]
  {
    var count := last - first;
    var w := Inserted(s, first, last, where);
    var now := Spliced(d, where, w[..k]);
    if where <= first {
      assert now[first + count + k] == d[where + count..|s| + count][first - where + k]
             == s[where..][first - where + k];
    } else if first + k < where {
      assert now[first + k] == d[..where][first + k] == s[..where][first + k];
    } else {
      assert now[first + k] == w[..k][k - (where - first)];
    }
  }
}
