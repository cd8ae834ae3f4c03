/**
 * The columnar buffer of sequences (module `vector` of src/lib.rs): every
 * element goes into a nested buffer, and `idx[i]` records the nested length
 * once sequence `i` was copied in. Reading sequence `i` back yields a lazy
 * iterator over its range of the nested buffer.
 *
 * The generic `VecBuf<T>` is instantiated twice: `VecBuf` is `VecBuf<u64>`
 * over a `Region<u64>`, and `NestedVecBuf` is `VecBuf<Vec<u64>>` over a
 * `VecBuf`, whose iterator yields the inner iterators.
 */
module VecBufs {
  import opened Base
  import opened OffsetIndex
  import opened Regions
  import PrimitiveBuf

  /** `IdxIter<u64>`: walks `buf` from `current` up to `end`. */
  class IdxIter {
    const end: nat
    var current: nat
    const buf: Region<u64>

    ghost predicate Valid()
      reads this, buf
    {
      current <= end <= buf.Len()
    }

    /** The values the iterator has yet to yield, in order. */
    ghost function Remaining(): seq<u64>
      reads this, buf
      requires Valid()
    {
      buf.Contents()[current..end]
    }

    constructor (buf: Region<u64>, start: nat, end: nat)
      requires start <= end <= buf.Len()
      ensures Valid() && this.buf == buf && current == start && this.end == end
      ensures Remaining() == buf.Contents()[start..end]
    {
      this.end, this.current, this.buf := end, start, buf;
    }

    /** Yields `buf.idx(current)` and steps forward, or `None` once `current == end`. */
    method Next() returns (r: Option<u64>)
      requires Valid()
      modifies this`current
      ensures Valid()
      ensures r == None <==> old(current) == end
      ensures r == None ==> current == old(current)
      ensures r != None ==> current == old(current) + 1 && r == Some(buf.Contents()[old(current)])
      ensures r == (if old(Remaining()) == [] then None else Some(old(Remaining())[0]))
      ensures Remaining() == if r == None then old(Remaining()) else old(Remaining())[1..]
      ensures SizeHint().0 == if r == None then old(SizeHint().0) else old(SizeHint().0) - 1
    {
      if current == end {
        r := None;
      } else {
        var ret := PrimitiveBuf.Idx(buf, current);
        current := current + 1;
        r := Some(ret);
      }
    }

    /** The exact number of values left, as both bounds. */
    function SizeHint(): (hint: (nat, Option<nat>))
      reads this, buf
      requires Valid()
      ensures hint.0 == |Remaining()| && hint.1 == Some(hint.0)
    {
      var len := end - current;
      (len, Some(len))
    }
  }

  /** Draining an iterator (as `collect` does) gives exactly what remained. */
  method Drain(it: IdxIter) returns (s: seq<u64>)
    requires it.Valid()
    modifies it
    ensures it.Valid() && it.current == it.end
    ensures s == old(it.Remaining())
  {
    s := [];
    var r := it.Next();
    while r != None
      invariant it.Valid()
      invariant r != None ==> s + [r.value] + it.Remaining() == old(it.Remaining())
      invariant r == None ==> s == old(it.Remaining()) && it.current == it.end
      decreases it.end - it.current, r != None
    {
      s := s + [r.value];
      r := it.Next();
    }
  }

  /** `VecBuf<u64>`: sequences of `u64` over a `Region<u64>`. */
  class VecBuf {
    /** `idx[i]` is the nested length once sequence `i` was copied in. */
    var idx: seq<nat>
    const buf: Region<u64>
    /** The sequences copied in so far. */
    ghost var Contents: seq<seq<u64>>

    ghost predicate Valid()
      reads this, buf
    {
      buf.Valid() && Encodes(Contents, idx, buf.Contents())
    }

    /** Room for `s` sequences, and `8 * s` elements in the nested buffer. */
    constructor WithCapacity(s: nat)
      ensures Valid() && fresh(buf)
      ensures Contents == [] && idx == []
      ensures buf.limit == PrimitiveBuf.LIMIT && buf.capacity == s * 8
    {
      var nested := PrimitiveBuf.WithCapacity(s * 8);
      idx := [];
      buf := nested;
      Contents := [];
    }

    /** Copies each element of `c` into the nested buffer, then records its length. */
    method Copy(c: seq<u64>)
      requires Valid()
      modifies this, buf
      ensures Valid()
      ensures Contents == old(Contents) + [c]
      ensures idx == old(idx) + [old(buf.Len()) + |c|]
    {
      ghost var start := buf.Contents();
      assert |start| == old(buf.Len());
      var k := 0;
      while k < |c|
        invariant 0 <= k <= |c|
        invariant buf.Valid()
        invariant buf.Contents() == start + c[..k]
        modifies buf
      {
        PrimitiveBuf.Copy(buf, c[k]);
        assert c[..k + 1] == c[..k] + [c[k]];
        k := k + 1;
      }
      assert c[..k] == c;
      var len := PrimitiveBuf.Len(buf);
      assert len == |start| + |c|;
      idx := idx + [len];
      PushRun(Contents, c, old(idx), idx, start, buf.Contents());
      Contents := Contents + [c];
    }

    /** A fresh iterator over the elements of sequence `i`. */
    method Idx(i: nat) returns (it: IdxIter)
      requires Valid() && i < |Contents|
      ensures fresh(it) && it.Valid() && it.buf == buf
      ensures it.current == Start(idx, i) && it.end == idx[i]
      ensures it.Remaining() == Contents[i]
    {
      var start := if i == 0 then 0 else idx[i - 1];
      var end := idx[i];
      DecodeEncode(Contents, i);
      it := new IdxIter(buf, start, end);
    }

    /** The number of sequences copied in. */
    function Len(): (n: nat)
      reads this, buf
      requires Valid()
      ensures n == |Contents|
    {
      |idx|
    }
  }

  /** `IdxIter<Vec<u64>>`: yields a fresh inner iterator for each stored sequence. */
  class NestedIdxIter {
    const end: nat
    var current: nat
    const buf: VecBuf

    ghost predicate Valid()
      reads this, buf, buf.buf
    {
      buf.Valid() && current <= end <= |buf.Contents|
    }

    /** The sequences the iterator has yet to yield, in order. */
    ghost function Remaining(): seq<seq<u64>>
      reads this, buf, buf.buf
      requires Valid()
    {
      buf.Contents[current..end]
    }

    constructor (buf: VecBuf, start: nat, end: nat)
      requires buf.Valid() && start <= end <= |buf.Contents|
      ensures Valid() && this.buf == buf && current == start && this.end == end
      ensures Remaining() == buf.Contents[start..end]
    {
      this.end, this.current, this.buf := end, start, buf;
    }

    /** Yields `buf.idx(current)` (an inner iterator) and steps forward, or `None` at `end`. */
    method Next() returns (r: Option<IdxIter>)
      requires Valid()
      modifies this`current
      ensures Valid()
      ensures r == None <==> old(current) == end
      ensures r == None ==> current == old(current) && Remaining() == old(Remaining())
      ensures r != None ==>
                current == old(current) + 1 && fresh(r.value) && r.value.Valid() && r.value.buf == buf.buf &&
                r.value.Remaining() == old(Remaining())[0] && Remaining() == old(Remaining())[1..]
      ensures SizeHint().0 == if r == None then old(SizeHint().0) else old(SizeHint().0) - 1
    {
      if current == end {
        r := None;
      } else {
        var ret := buf.Idx(current);
        current := current + 1;
        r := Some(ret);
      }
    }

    /** The exact number of sequences left, as both bounds. */
    function SizeHint(): (hint: (nat, Option<nat>))
      reads this, buf, buf.buf
      requires Valid()
      ensures hint.0 == |Remaining()| && hint.1 == Some(hint.0)
    {
      var len := end - current;
      (len, Some(len))
    }
  }

  /** `VecBuf<Vec<u64>>`: sequences of sequences over a nested `VecBuf`. */
  class NestedVecBuf {
    var idx: seq<nat>
    const buf: VecBuf
    ghost var Contents: seq<seq<seq<u64>>>

    ghost predicate Valid()
      reads this, buf, buf.buf
    {
      buf.Valid() && Encodes(Contents, idx, buf.Contents)
    }

    /** Room for `s` outer sequences, and `8 * s` inner ones in the nested buffer. */
    constructor WithCapacity(s: nat)
      ensures Valid() && fresh(buf) && fresh(buf.buf)
      ensures Contents == [] && idx == []
      ensures buf.idx == [] && buf.buf.capacity == s * 8 * 8
    {
      idx := [];
      buf := new VecBuf.WithCapacity(s * 8);
      Contents := [];
    }

    /** Copies each inner sequence of `c` into the nested buffer, then records its length. */
    method Copy(c: seq<seq<u64>>)
      requires Valid()
      modifies this, buf, buf.buf
      ensures Valid()
      ensures Contents == old(Contents) + [c]
      ensures idx == old(idx) + [old(buf.Len()) + |c|]
    {
      ghost var start := buf.Contents;
      assert |start| == old(buf.Len());
      var k := 0;
      while k < |c|
        invariant 0 <= k <= |c|
        invariant buf.Valid()
        invariant buf.Contents == start + c[..k]
        modifies buf, buf.buf
      {
        buf.Copy(c[k]);
        assert c[..k + 1] == c[..k] + [c[k]];
        k := k + 1;
      }
      assert c[..k] == c;
      var len := buf.Len();
      assert len == |start| + |c|;
      idx := idx + [len];
      PushRun(Contents, c, old(idx), idx, start, buf.Contents);
      Contents := Contents + [c];
    }

    /** A fresh iterator over the inner sequences of sequence `i`. */
    method Idx(i: nat) returns (it: NestedIdxIter)
      requires Valid() && i < |Contents|
      ensures fresh(it) && it.Valid() && it.buf == buf
      ensures it.current == Start(idx, i) && it.end == idx[i]
      ensures it.Remaining() == Contents[i]
    {
      var start := if i == 0 then 0 else idx[i - 1];
      var end := idx[i];
      DecodeEncode(Contents, i);
      it := new NestedIdxIter(buf, start, end);
    }

    /** The number of sequences copied in. */
    function Len(): (n: nat)
      reads this, buf, buf.buf
      requires Valid()
      ensures n == |Contents|
    {
      |idx|
    }
  }
}
