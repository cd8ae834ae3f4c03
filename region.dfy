/**
 * The region allocator of `src/region.rs`: items once copied in are never
 * moved. The active segment `local` is a growable vector with an explicit
 * capacity; when it cannot take the next run of items it is retired onto
 * `stash` intact (or dropped, if it is empty) and a fresh, larger segment
 * takes its place. Address
 * stability becomes content stability: a stashed segment is never changed again.
 */
module Regions {
  import opened OffsetIndex

  /** Rust `usize::next_power_of_two`: the smallest power of two that is at least `n`. */
  function NextPowerOfTwo(n: nat): (r: nat)
    ensures IsPowerOfTwo(r) && n <= r
    ensures n >= 1 ==> r < 2 * n
    decreases n
  {
    if n <= 1 then 1 else 2 * NextPowerOfTwo((n + 1) / 2)
  }

  ghost predicate IsPowerOfTwo(p: nat)
    decreases p
  {
    p == 1 || (p >= 2 && p % 2 == 0 && IsPowerOfTwo(p / 2))
  }

  /**
   * The capacity of the segment that replaces one of capacity `capacity` when
   * `count` items do not fit: doubling, capped at `limit`, but never too small
   * for the `count` items asked for.
   */
  function GrownCapacity(capacity: nat, limit: nat, count: nat): (r: nat)
    ensures count <= r
    ensures r <= count || r <= limit
    ensures count <= limit ==> r <= limit
    ensures capacity < limit ==> capacity < r
    ensures r <= count || r <= 2 * capacity + 1
  {
    var next := NextPowerOfTwo(capacity + 1);
    var capped := if next < limit then next else limit;
    if count < capped then capped else count
  }

  /** Segment range `[start, end)` lies wholly inside one segment of `segs`. */
  ghost predicate WithinOneSegment<X>(segs: seq<seq<X>>, start: nat, end: nat)
  {
    exists k :: InSegment(segs, k, start, end)
  }

  /** Range `[start, end)` lies inside segment `k` of `segs`. */
  ghost predicate InSegment<X>(segs: seq<seq<X>>, k: int, start: nat, end: nat)
  {
    0 <= k < |segs| && TotalLen(segs[..k]) <= start <= end <= TotalLen(segs[..k]) + |segs[k]|
  }

  /**
   * `segs'` is a later state of the segment list `segs` (stash then active
   * segment): every stashed segment is unchanged, and the active segment has
   * only been appended to (or, if it was empty, replaced), possibly followed
   * by newer segments.
   */
  ghost predicate Grows<X>(segs: seq<seq<X>>, segs': seq<seq<X>>)
  {
    0 < |segs| <= |segs'| &&
    segs[..|segs| - 1] == segs'[..|segs| - 1] &&
    segs[|segs| - 1] <= segs'[|segs| - 1]
  }

  /** Growth is transitive. */
  lemma GrowsTransitive<X>(a: seq<seq<X>>, b: seq<seq<X>>, c: seq<seq<X>>)
    requires Grows(a, b) && Grows(b, c)
    ensures Grows(a, c)
  {
    var n := |a| - 1;
    assert a[..n] == b[..|b| - 1][..n];
    assert c[..|b| - 1][..n] == c[..n];
    if n < |b| - 1 {
      assert a[n] <= b[n] == b[..|b| - 1][n] == c[n];
    }
  }

  /** Growth never changes earlier elements: the old contents prefix the new. */
  lemma GrowsKeepsContents<X>(segs: seq<seq<X>>, segs': seq<seq<X>>)
    requires Grows(segs, segs')
    ensures Concat(segs) <= Concat(segs')
  {
    var n := |segs| - 1;
    assert segs == segs[..n] + [segs[n]];
    assert segs' == segs'[..n + 1] + segs'[n + 1..];
    assert segs'[..n + 1] == segs[..n] + [segs'[n]];
    ConcatSnoc(segs[..n], segs[n]);
    ConcatSnoc(segs[..n], segs'[n]);
    ConcatAppend(segs'[..n + 1], segs'[n + 1..]);
  }

  /** A range that lay in one segment still does after growth. */
  lemma GrowsKeepsSpans<X>(segs: seq<seq<X>>, segs': seq<seq<X>>, start: nat, end: nat)
    requires Grows(segs, segs') && WithinOneSegment(segs, start, end)
    ensures WithinOneSegment(segs', start, end)
  {
    var n := |segs| - 1;
    var k :| InSegment(segs, k, start, end);
    assert segs'[..k] == segs[..n][..k] == segs[..k];
    if k < n {
      assert segs'[k] == segs'[..n][k] == segs[k];
    }
    assert |segs[k]| <= |segs'[k]|;
    assert InSegment(segs', k, start, end);
  }

  /** Appending to the active segment is growth. */
  lemma AppendGrows<X>(stash: seq<seq<X>>, local: seq<X>, items: seq<X>)
    ensures Grows(stash + [local], stash + [local + items])
  {
    assert (stash + [local])[..|stash|] == stash == (stash + [local + items])[..|stash|];
  }

  /** The items just appended to the active segment form a range inside it. */
  lemma FreshRunInActive<X>(stash: seq<seq<X>>, local: seq<X>, items: seq<X>)
    ensures WithinOneSegment(stash + [local + items], |Concat(stash) + local|, |Concat(stash) + local| + |items|)
  {
    var segs := stash + [local + items];
    assert segs[..|stash|] == stash;
    assert segs[|stash|] == local + items;
    assert InSegment(segs, |stash|, |Concat(stash) + local|, |Concat(stash) + local| + |items|);
  }

  /**
   * The scan of `idx` and `slice` stops at the first segment `j` that ends
   * after `start` (or at the last one); that segment also holds `end`.
   */
  lemma ScanFindsSegment<X>(segs: seq<seq<X>>, j: nat, start: nat, end: nat)
    requires WithinOneSegment(segs, start, end)
    requires j < |segs| && TotalLen(segs[..j]) <= start
    requires j == |segs| - 1 || start < TotalLen(segs[..j]) + |segs[j]|
    ensures end <= TotalLen(segs[..j]) + |segs[j]|
  {
    var k :| InSegment(segs, k, start, end);
    PrefixLenSnoc(segs, j);
    PrefixLenSnoc(segs, k);
    if k > j {
      PrefixLenMonotone(segs, j + 1, k);
    } else if k < j {
      PrefixLenMonotone(segs, k + 1, j);
    }
  }

  /** A range inside segment `j` reads the same from the segment as from the contents. */
  lemma SliceOfSegment<X>(segs: seq<seq<X>>, j: nat, start: nat, end: nat)
    requires j < |segs|
    requires TotalLen(segs[..j]) <= start <= end <= TotalLen(segs[..j]) + |segs[j]|
    ensures end <= |Concat(segs)|
    ensures Concat(segs)[start..end] == segs[j][start - TotalLen(segs[..j])..end - TotalLen(segs[..j])]
  {
    var l := TotalLen(segs[..j]);
    var all := Concat(segs);
    SegmentAt(segs, j);
    var seg := all[l..l + |segs[j]|];
    assert seg == segs[j];
    assert all[start..end] == seg[start - l..end - l] by {
      forall p | 0 <= p < end - start
        ensures all[start..end][p] == seg[start - l..end - l][p]
      {
        assert all[start..end][p] == all[start + p];
        assert seg[start - l..end - l][p] == seg[start - l + p] == all[l + (start - l + p)];
      }
    }
  }

  class Region<T> {
    /** The active allocation into which items are written, and its capacity. */
    var local: seq<T>
    var capacity: nat
    /** All previously active allocations, in the order they were retired. */
    var stash: seq<seq<T>>
    /** The maximum allocation size. */
    const limit: nat

    /** The active segment never outgrows its allocation; stashed segments are non-empty. */
    ghost predicate Valid()
      reads this
    {
      |local| <= capacity &&
      forall j :: 0 <= j < |stash| ==> stash[j] != []
    }

    /** The stashed segments followed by the active one. */
    ghost function Segments(): seq<seq<T>>
      reads this
    {
      stash + [local]
    }

    /** The logical contents: `stash[0] ++ ... ++ stash[k-1] ++ local`. */
    ghost function Contents(): seq<T>
      reads this
    {
      Concat(stash) + local
    }

    lemma ContentsIsConcat()
      ensures Contents() == Concat(Segments())
    {
      ConcatSnoc(stash, local);
    }

    constructor WithLimit(limit: nat)
      ensures Valid() && this.limit == limit
      ensures local == [] && capacity == 0 && stash == []
      ensures Contents() == []
    {
      this.limit := limit;
      local, capacity, stash := [], 0, [];
    }

    /** An empty region that can take `count` items without a new allocation. */
    constructor WithLimitAndCapacity(limit: nat, count: nat)
      ensures Valid() && this.limit == limit
      ensures local == [] && stash == []
      ensures capacity == (if count > 0 then GrownCapacity(0, limit, count) else 0)
      ensures capacity >= count
      ensures Contents() == []
    {
      this.limit := limit;
      local, capacity, stash := [], 0, [];
      new;
      Reserve(count);
    }

    /** The number of items held: the active length plus the stashed lengths. */
    function Len(): (n: nat)
      reads this
      ensures n == |Contents()|
    {
      |local| + TotalLen(stash)
    }

    /** Element `i` of the logical contents, found by scanning the stash. */
    method Idx(i: nat) returns (r: T)
      requires i < Len()
      ensures r == Contents()[i]
    {
      var l := 0;
      var j := 0;
      while j < |stash|
        invariant 0 <= j <= |stash|
        invariant l == TotalLen(stash[..j]) && l <= i
      {
        var s := stash[j];
        if |s| + l > i {
          SegmentAt(stash, j);
          assert Concat(stash)[l..l + |s|] == s;
          return s[i - l];
        }
        assert stash[..j + 1][..j] == stash[..j];
        l := l + |s|;
        j := j + 1;
      }
      assert stash[..j] == stash;
      r := local[i - l];
    }

    /** Elements `[start, end)`, which the caller guarantees lie in one segment. */
    method Slice(start: nat, end: nat) returns (r: seq<T>)
      requires start <= end <= Len()
      requires WithinOneSegment(Segments(), start, end)
      ensures r == Contents()[start..end]
    {
      ghost var segs := Segments();
      ContentsIsConcat();
      var l := 0;
      var j := 0;
      while j < |stash|
        invariant 0 <= j <= |stash|
        invariant l == TotalLen(stash[..j]) && l <= start
      {
        var s := stash[j];
        if |s| + l > start {
          assert segs[..j] == stash[..j] && segs[j] == s;
          ScanFindsSegment(segs, j, start, end);
          SliceOfSegment(segs, j, start, end);
          return s[start - l..end - l];
        }
        PrefixLenSnoc(stash, j);
        l := l + |s|;
        j := j + 1;
      }
      assert segs[..j] == stash[..j] == stash;
      ScanFindsSegment(segs, j, start, end);
      SliceOfSegment(segs, j, start, end);
      r := local[start - l..end - l];
    }

    /** Discards every segment; the active allocation keeps its capacity. */
    method Clear()
      requires Valid()
      modifies this
      ensures Valid()
      ensures local == [] && stash == [] && capacity == old(capacity)
      ensures Contents() == [] && Len() == 0
    {
      local := [];
      stash := [];
    }

    /** Appends one item. */
    method Copy(t: T)
      requires Valid()
      modifies this
      ensures Valid()
      ensures Contents() == old(Contents()) + [t]
      ensures Grows(old(Segments()), Segments())
      ensures old(1 <= capacity - |local|) ==>
                local == old(local) + [t] && capacity == old(capacity) && stash == old(stash)
      ensures old(1 > capacity - |local|) ==>
                local == [t] && capacity == GrownCapacity(old(capacity), limit, 1) &&
                stash == (if old(local) == [] then old(stash) else old(stash) + [old(local)])
    {
      Reserve(1);
      ghost var mid := Segments();
      AppendGrows(stash, local, [t]);
      local := local + [t];
      GrowsTransitive(old(Segments()), mid, Segments());
    }

    /** Appends a run of items; the whole run lands in the active segment. */
    method CopySlice(items: seq<T>)
      requires Valid()
      modifies this
      ensures Valid()
      ensures Contents() == old(Contents()) + items
      ensures Grows(old(Segments()), Segments())
      ensures WithinOneSegment(Segments(), old(Len()), old(Len()) + |items|)
      ensures old(|items| <= capacity - |local|) ==>
                local == old(local) + items && capacity == old(capacity) && stash == old(stash)
      ensures old(|items| > capacity - |local|) ==>
                local == items && capacity == GrownCapacity(old(capacity), limit, |items|) &&
                stash == (if old(local) == [] then old(stash) else old(stash) + [old(local)])
    {
      Reserve(|items|);
      ghost var mid := Segments();
      ghost var active := local;
      AppendGrows(stash, active, items);
      FreshRunInActive(stash, active, items);
      local := local + items;
      assert Segments() == stash + [active + items];
      assert old(Len()) == |Concat(stash) + active|;
      GrowsTransitive(old(Segments()), mid, Segments());
    }

    /** Makes room in the active segment for at least `count` more items. */
    method Reserve(count: nat)
      requires Valid()
      modifies this
      ensures Valid()
      ensures capacity - |local| >= count
      ensures Contents() == old(Contents())
      ensures Grows(old(Segments()), Segments())
      ensures old(count <= capacity - |local|) ==>
                local == old(local) && capacity == old(capacity) && stash == old(stash)
      ensures old(count > capacity - |local|) ==>
                local == [] && capacity == GrownCapacity(old(capacity), limit, count) &&
                stash == (if old(local) == [] then old(stash) else old(stash) + [old(local)])
    {
      if count > capacity - |local| {
        var nextLen := GrownCapacity(capacity, limit, count);
        if local == [] {
          local, capacity := [], nextLen;
        } else {
          ConcatSnoc(stash, local);
          stash := stash + [local];
          local, capacity := [], nextLen;
        }
      }
    }
  }

  /**
   * A region made for `count` items accepts that many copies without a new
   * segment, as `with_limit_and_capacity` promises.
   */
  method CapacityIsHonoured()
  {
    var r := new Region<int>.WithLimitAndCapacity(10, 3);
    r.Copy(1);
    r.Copy(2);
    r.Copy(3);
    assert r.stash == [] && r.local == [1, 2, 3];
  }
}
