/**
 * The columnar buffer of strings (module `string` of src/lib.rs): the bytes of
 * all strings in one byte region, plus the cumulative end offset of each string.
 * Strings are byte sequences here, so reading one back is the identity on bytes.
 */
module StringBufs {
  import opened Base
  import opened OffsetIndex
  import opened Regions

  /** The segment-size limit of the byte region: 16 times the `u64` one. */
  const LIMIT: nat := 1_000_000 * 16

  /** Every stored string, as given by its offsets, lies in one segment. */
  ghost predicate AllWithinOneSegment(segs: seq<seq<u8>>, idx: seq<nat>)
  {
    forall i :: 0 <= i < |idx| ==> WithinOneSegment(segs, Start(idx, i), idx[i])
  }

  /**
   * Copying one more string keeps the layout: the offsets and bytes are those
   * of the longer list of strings, every old string still lies in one segment
   * because the region only grew, and the new one does because `copy_slice`
   * placed the whole run in the active segment.
   */
  lemma CopyKeepsLayout(ss: seq<seq<u8>>, c: seq<u8>,
                        idx: seq<nat>, idx': seq<nat>, bytes: seq<u8>, bytes': seq<u8>,
                        segs: seq<seq<u8>>, segs': seq<seq<u8>>)
    requires Encodes(ss, idx, bytes) && AllWithinOneSegment(segs, idx)
    requires bytes' == bytes + c && idx' == idx + [|bytes'|]
    requires Grows(segs, segs') && WithinOneSegment(segs', |bytes|, |bytes| + |c|)
    ensures Encodes(ss + [c], idx', bytes')
    ensures AllWithinOneSegment(segs', idx')
  {
    PushRun(ss, c, idx, idx', bytes, bytes');
    forall i | 0 <= i < |idx'|
      ensures WithinOneSegment(segs', Start(idx', i), idx'[i])
    {
      if i < |idx| {
        assert Start(idx', i) == Start(idx, i) && idx'[i] == idx[i];
        GrowsKeepsSpans(segs, segs', Start(idx, i), idx[i]);
      } else if i > 0 {
        assert Start(idx', i) == idx[i - 1] == |bytes|;
      }
    }
  }

  class StringBuf {
    /** `idx[i]` is the number of bytes stored once string `i` was copied in. */
    var idx: seq<nat>
    /** The bytes of all strings, in order. */
    const data: Region<u8>
    /** The strings copied in so far. */
    ghost var Contents: seq<seq<u8>>

    /**
     * The offset-index layout of `Contents`, and every stored string lies in
     * one segment of `data` (which is what lets `Idx` slice it).
     */
    ghost predicate Valid()
      reads this, data
    {
      data.Valid() &&
      Encodes(Contents, idx, data.Contents()) &&
      AllWithinOneSegment(data.Segments(), idx)
    }

    constructor WithCapacity(s: nat)
      ensures Valid() && fresh(data)
      ensures Contents == [] && idx == []
      ensures data.limit == LIMIT && data.capacity == s && data.stash == []
    {
      idx := [];
      data := new Region<u8>.WithLimitAndCapacity(LIMIT, s);
      Contents := [];
    }

    /** Appends the bytes of `c` and records the new total byte count. */
    method Copy(c: seq<u8>)
      requires Valid()
      modifies this, data
      ensures Valid()
      ensures Contents == old(Contents) + [c]
      ensures idx == old(idx) + [old(data.Len()) + |c|]
      ensures Grows(old(data.Segments()), data.Segments())
    {
      ghost var segs, bytes, idx0 := data.Segments(), data.Contents(), idx;
      data.CopySlice(c);
      ghost var bytes', segs' := data.Contents(), data.Segments();
      assert bytes' == bytes + c && |bytes'| == |bytes| + |c|;
      assert Grows(segs, segs') && WithinOneSegment(segs', |bytes|, |bytes| + |c|);
      idx := idx + [data.Len()];
      CopyKeepsLayout(Contents, c, idx0, idx, bytes, bytes', segs, segs');
      Contents := Contents + [c];
    }

    /** The bytes of the `i`-th string copied in. */
    method Idx(i: nat) returns (r: seq<u8>)
      requires Valid() && i < |Contents|
      ensures r == Contents[i]
    {
      var start := if i == 0 then 0 else idx[i - 1];
      var end := idx[i];
      DecodeEncode(Contents, i);
      r := data.Slice(start, end);
    }

    /** The number of strings copied in. */
    function Len(): (n: nat)
      reads this, data
      requires Valid()
      ensures n == |Contents|
    {
      |idx|
    }
  }

  /** The unit test of src/lib.rs: three strings read back in order. */
  method StringBufRoundTrip()
  {
    var b := new StringBuf.WithCapacity(1);
    b.Copy([97, 98, 99]);   // "abc"
    b.Copy([120, 120]);     // "xx"
    b.Copy([120, 120, 50]); // "xx2"
    assert b.Len() == 3;
    var s0 := b.Idx(0);
    var s1 := b.Idx(1);
    var s2 := b.Idx(2);
    assert s0 == [97, 98, 99] && s1 == [120, 120] && s2 == [120, 120, 50];
  }
}
