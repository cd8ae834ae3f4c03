/**
 * `Region<u64>` used directly as the columnar buffer of `u64` (src/lib.rs):
 * copying appends the value, reading returns the stored value itself.
 */
module PrimitiveBuf {
  import opened Base
  import opened Regions

  /** The segment-size limit of a `u64` buffer. */
  const LIMIT: nat := 1_000_000

  /** An empty buffer whose first segment holds `s` values. */
  method WithCapacity(s: nat) returns (b: Region<u64>)
    ensures fresh(b) && b.Valid()
    ensures b.Contents() == [] && b.limit == LIMIT && b.capacity == s && b.stash == []
  {
    b := new Region<u64>.WithLimitAndCapacity(LIMIT, s);
  }

  /** Copies one value in. */
  method Copy(b: Region<u64>, c: u64)
    requires b.Valid()
    modifies b
    ensures b.Valid()
    ensures b.Contents() == old(b.Contents()) + [c]
  {
    b.Copy(c);
  }

  /** The `i`-th value copied in, returned by value. */
  method Idx(b: Region<u64>, i: nat) returns (v: u64)
    requires i < b.Len()
    ensures v == b.Contents()[i]
  {
    v := b.Idx(i);
  }

  /** The number of values copied in. */
  function Len(b: Region<u64>): (n: nat)
    reads b
    ensures n == |b.Contents()|
  {
    b.Len()
  }
}
