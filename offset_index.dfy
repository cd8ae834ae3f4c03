/**
 * The offset-index layout shared by the whole crate.
 *
 * A list of runs `ss` is stored as one flat sequence `Concat(ss)` plus the
 * cumulative end offsets `Ends(ss)`; run `i` is the half-open range
 * `[Start(Ends(ss), i), Ends(ss)[i])` of the flat sequence. The arena uses the
 * same layout for its segments (`stash[0] ++ ... ++ local`), and the string and
 * sequence buffers use it for the items they store.
 */
module OffsetIndex {

  /** The runs laid end to end, first run first. */
  function Concat<X>(ss: seq<seq<X>>): seq<X>
  {
    if ss == [] then [] else Concat(ss[..|ss| - 1]) + ss[|ss| - 1]
  }

  /** The sum of the run lengths: the length of the flat sequence. */
  function TotalLen<X>(ss: seq<seq<X>>): (n: nat)
    ensures n == |Concat(ss)|
  {
    if ss == [] then 0 else TotalLen(ss[..|ss| - 1]) + |ss[|ss| - 1]|
  }

  /** The cumulative end offset of every run; the last one is the total length. */
  function Ends<X>(ss: seq<seq<X>>): (e: seq<nat>)
    ensures |e| == |ss|
    ensures |ss| > 0 ==> e[|ss| - 1] == |Concat(ss)|
  {
    if ss == [] then [] else Ends(ss[..|ss| - 1]) + [TotalLen(ss)]
  }

  /** `ends` and `data` are the offset-index layout of the runs `ss`. */
  ghost predicate Encodes<X>(ss: seq<seq<X>>, ends: seq<nat>, data: seq<X>)
  {
    ends == Ends(ss) && data == Concat(ss)
  }

  /** Where run `i` starts: 0 for the first run, else where the previous one ended. */
  function Start(ends: seq<nat>, i: nat): nat
    requires i < |ends|
  {
    if i == 0 then 0 else ends[i - 1]
  }

  /** Reads run `i` back out of a flat sequence through its offsets. */
  function Item<X>(ends: seq<nat>, data: seq<X>, i: nat): seq<X>
    requires i < |ends| && Start(ends, i) <= ends[i] <= |data|
  {
    data[Start(ends, i)..ends[i]]
  }

  /** Appending a run appends its elements to the flat sequence. */
  lemma ConcatSnoc<X>(ss: seq<seq<X>>, x: seq<X>)
    ensures Concat(ss + [x]) == Concat(ss) + x
  {
    assert (ss + [x])[..|ss|] == ss;
  }

  /** Appending a run appends exactly one offset: the new total length. */
  lemma EndsSnoc<X>(ss: seq<seq<X>>, x: seq<X>)
    ensures Ends(ss + [x]) == Ends(ss) + [|Concat(ss)| + |x|]
  {
    assert (ss + [x])[..|ss|] == ss;
    ConcatSnoc(ss, x);
  }

  /**
   * The step every buffer's `copy` takes: with `x` appended to the flat
   * sequence and its new length pushed onto the offsets, the layout is that
   * of `ss + [x]`.
   */
  lemma PushRun<X>(ss: seq<seq<X>>, x: seq<X>, ends: seq<nat>, ends': seq<nat>, data: seq<X>, data': seq<X>)
    requires Encodes(ss, ends, data)
    requires data' == data + x && ends' == ends + [|data'|]
    ensures Encodes(ss + [x], ends', data')
  {
    EndsSnoc(ss, x);
    ConcatSnoc(ss, x);
  }

  /** Concatenation distributes over appending lists of runs. */
  lemma {:induction false} ConcatAppend<X>(a: seq<seq<X>>, b: seq<seq<X>>)
    ensures Concat(a + b) == Concat(a) + Concat(b)
  {
    if b == [] {
      assert a + b == a;
    } else {
      var b' := b[..|b| - 1];
      assert a + b == (a + b') + [b[|b| - 1]];
      assert b == b' + [b[|b| - 1]];
      ConcatSnoc(a + b', b[|b| - 1]);
      ConcatSnoc(b', b[|b| - 1]);
      ConcatAppend(a, b');
    }
  }

  /** Extending a prefix by one run adds that run's length. */
  lemma PrefixLenSnoc<X>(ss: seq<seq<X>>, j: nat)
    requires j < |ss|
    ensures TotalLen(ss[..j + 1]) == TotalLen(ss[..j]) + |ss[j]|
  {
    assert ss[..j + 1][..j] == ss[..j];
  }

  /** The total length of a prefix of the runs grows with the prefix. */
  lemma {:induction false} PrefixLenMonotone<X>(ss: seq<seq<X>>, a: nat, b: nat)
    requires a <= b <= |ss|
    ensures TotalLen(ss[..a]) <= TotalLen(ss[..b])
  {
    if a < b {
      assert ss[..b][..b - 1] == ss[..b - 1];
      PrefixLenMonotone(ss, a, b - 1);
    }
  }

  /** Run `j` sits in the flat sequence right after the runs before it. */
  lemma SegmentAt<X>(ss: seq<seq<X>>, j: nat)
    requires j < |ss|
    ensures TotalLen(ss[..j]) + |ss[j]| <= |Concat(ss)|
    ensures Concat(ss)[TotalLen(ss[..j])..TotalLen(ss[..j]) + |ss[j]|] == ss[j]
  {
    assert ss == ss[..j + 1] + ss[j + 1..];
    assert ss[..j + 1] == ss[..j] + [ss[j]];
    ConcatAppend(ss[..j + 1], ss[j + 1..]);
    ConcatSnoc(ss[..j], ss[j]);
  }

  /** Offset `k` is the total length of the runs up to and including run `k`. */
  lemma {:induction false} EndsAt<X>(ss: seq<seq<X>>, k: nat)
    requires k < |ss|
    ensures Ends(ss)[k] == TotalLen(ss[..k + 1])
  {
    if k < |ss| - 1 {
      assert ss[..|ss| - 1][..k + 1] == ss[..k + 1];
      EndsAt(ss[..|ss| - 1], k);
    } else {
      assert ss[..k + 1] == ss;
    }
  }

  /** Run `i` starts where the runs before it end. */
  lemma StartAt<X>(ss: seq<seq<X>>, i: nat)
    requires i < |ss|
    ensures Start(Ends(ss), i) == TotalLen(ss[..i])
  {
    if i > 0 {
      EndsAt(ss, i - 1);
    }
  }

  /** The offsets never decrease. */
  lemma EndsMonotone<X>(ss: seq<seq<X>>, a: nat, b: nat)
    requires a <= b < |ss|
    ensures Ends(ss)[a] <= Ends(ss)[b]
  {
    EndsAt(ss, a);
    EndsAt(ss, b);
    PrefixLenMonotone(ss, a + 1, b + 1);
  }

  /** Round trip: reading run `i` through the offsets gives back exactly run `i`. */
  lemma DecodeEncode<X>(ss: seq<seq<X>>, i: nat)
    requires i < |ss|
    ensures Start(Ends(ss), i) <= Ends(ss)[i] <= |Concat(ss)|
    ensures Item(Ends(ss), Concat(ss), i) == ss[i]
  {
    var lo := TotalLen(ss[..i]);
    StartAt(ss, i);
    EndsAt(ss, i);
    assert ss[..i + 1][..i] == ss[..i];
    assert TotalLen(ss[..i + 1]) == lo + |ss[i]|;
    SegmentAt(ss, i);
  }
}
