# Columnar buffers over a stable-address region, in Dafny

This project models the core of the `columnar` crate. The crate has two layers.

- **`Region<T>`** (`src/region.rs`) is an arena. It has one growable active segment (`local`), a list of retired segments (`stash`) and a segment-size cap (`limit`). Its logical contents are `stash[0] ++ … ++ stash[k-1] ++ local`. When a run of items does not fit in `local`, `reserve` allocates a new segment. A non-empty `local` is retired onto `stash` intact, and an empty one is dropped. The new segment's capacity is `max(count, min(limit, next_power_of_two(capacity + 1)))`. Items already copied in therefore never move. The model states this as content stability: a stashed segment is never changed again.
- **The columnar buffers** (`src/lib.rs`) sit on top of the arena:
  - `Region<u64>` serves directly as the buffer of `u64`.
  - `StringBuf` keeps all string bytes in one `Region<u8>`, plus the cumulative end offset of each string.
  - `VecBuf<T>` keeps the elements of every stored sequence in a nested buffer, plus cumulative offsets. Its read views are the lazy iterator `IdxIter`.

## How the code is organised

- `offset_index.dfy` (module `OffsetIndex`) holds the offset-index layout, defined once and used by both layers:
  - `Concat`, `TotalLen` and `Ends` give the flat sequence, its length and the end offsets.
  - `Start` is the `if i == 0 { 0 } else { idx[i - 1] }` start computation.
  - `Item` reads run `i` back out.
  - The lemmas prove the round trip and that the offsets never decrease.

  The arena's segment scan and the string and sequence buffers all use this layout.
- `region.dfy` (module `Regions`) holds `class Region<T>`. It has fields `local: seq<T>`, an explicit `capacity`, `stash: seq<seq<T>>` and `limit`.
  - `Idx` and `Slice` are loops that scan the stash while accumulating an offset.
  - `Reserve`, `Copy`, `CopySlice` and `Clear` change the fields in place.
  - Two predicates between states support the proofs:
    - `Grows`: every stashed segment is unchanged, and the active segment was only appended to or, if empty, replaced.
    - `WithinOneSegment`: a range lies in a single segment. This is `slice`'s precondition.
- `primitive_buf.dfy` (module `PrimitiveBuf`) is `Region<u64>` used as a columnar buffer.
- `string_buf.dfy` (module `StringBufs`) holds `class StringBuf`.
  - Its invariant ties `idx` and the byte region to the ghost list of stored strings.
  - It also records that every stored string lies in one segment, which is what makes `Idx`'s call to `Slice` legal.
  - `StringBufRoundTrip` follows the crate's unit test (`src/lib.rs:167-178`): it copies "abc", "xx" and "xx2" and reads them back.
- `vec_buf.dfy` (module `VecBufs`) instantiates the generic `VecBuf<T>` twice:
  - `VecBuf` is `VecBuf<u64>` over a `Region<u64>`, read through `IdxIter`.
  - `NestedVecBuf` is `VecBuf<Vec<u64>>` over a `VecBuf`, read through `NestedIdxIter`, which yields fresh inner `IdxIter`s.
  - `Drain` stands for a caller's `collect` on an iterator.
- `base.dfy` (module `Base`) holds the `u8` and `u64` newtypes and `Option`.

Strings are byte sequences (`seq<u8>`), so the unchecked UTF-8 reinterpretation in `StringBuf::idx` is the identity.

## Model

| member | source | states |
|---|---|---|
| OffsetIndex.TotalLen | src/region.rs:106-108 | The sum of the segment lengths equals the length of their concatenation. |
| OffsetIndex.Ends | src/lib.rs:61-64 | There is one cumulative offset per stored run, and the last offset is the total number of units stored. |
| OffsetIndex.EndsAt | src/lib.rs:61-64 | Offset `k` equals the total length of runs `0..=k`: each pushed offset is the cumulative count. |
| OffsetIndex.EndsMonotone | src/lib.rs:61-64 | The offsets never decrease. |
| OffsetIndex.StartAt | src/lib.rs:67 | The start `0` or `idx[i-1]` is the total length of the runs before run `i`. |
| OffsetIndex.PushRun | src/lib.rs:99-105 | Appending a run's units and then pushing the new total length gives exactly the layout of the longer list of runs. |
| OffsetIndex.DecodeEncode | src/lib.rs:66-70 | Round trip: the range `[Start(i), idx[i])` is in bounds, and reading it back yields exactly run `i`. |
| OffsetIndex.SegmentAt | src/region.rs:40-43 | Segment `j` occupies the logical positions that start at the summed lengths of the segments before it. |
| OffsetIndex.ConcatAppend | src/region.rs:40-44 | Helper for the segment scan: concatenating two lists of segments concatenates their contents. |
| OffsetIndex.PrefixLenMonotone | src/region.rs:44 | The accumulated offset `l` never decreases as the scan advances. |
| Regions.NextPowerOfTwo | src/region.rs:92 | The result is a power of two, at least `n`, and (for `n >= 1`) less than `2n`: the smallest such power. |
| Regions.GrownCapacity | src/region.rs:92-94 | The new capacity fits `count` items. It is at most `limit` unless `count` alone exceeds it. It is strictly larger than the old capacity while below `limit`. Unless `count` is larger, it is at most `2 * capacity + 1`. |
| Regions.GrowsTransitive | src/region.rs:71-81 | Successive growth steps compose into one growth step. |
| Regions.GrowsKeepsContents | src/region.rs:96-101 | Growth never changes earlier elements: the old contents are a prefix of the new. |
| Regions.GrowsKeepsSpans | src/region.rs:96-101 | A range that lay inside one segment still does after growth, because stashed segments are never modified. |
| Regions.AppendGrows | src/region.rs:80 | Extending the active segment is growth. |
| Regions.FreshRunInActive | src/region.rs:78-81 | The run just appended to the active segment lies inside that one segment. |
| Regions.ScanFindsSegment | src/region.rs:49-62 | The segment where `slice`'s scan stops, the first one ending after `start` or else `local`, also contains `end` whenever the range lies in some single segment. |
| Regions.SliceOfSegment | src/region.rs:53-55 | Slicing the owning segment at the offsets shifted by `l` gives the same elements as slicing the logical contents. |
| Regions.Region.WithLimit | src/region.rs:23-29 | The region is empty: no stash, an empty `local` of capacity 0, and the given limit. |
| Regions.Region.WithLimitAndCapacity | src/region.rs:32-36 | The region is empty, and its first segment has capacity `GrownCapacity(0, limit, count)` (0 when `count` is 0), so at least `count`. |
| Regions.Region.Len | src/region.rs:106-108 | `local.len()` plus the summed stash lengths equals the length of the logical contents. |
| Regions.Region.Idx | src/region.rs:38-47 | For `i < len()`, the scan returns element `i` of `stash[0] ++ … ++ local`. |
| Regions.Region.Slice | src/region.rs:49-62 | For a range inside one segment, the scan returns exactly elements `[start, end)` of the logical contents. |
| Regions.Region.Clear | src/region.rs:66-69 | The contents become empty (`len() == 0`). The invariant holds, and `local` keeps its capacity. |
| Regions.Region.Copy | src/region.rs:71-74 | The contents become the old contents plus `t`, and the region only grows. If `t` fits in the spare capacity it is pushed onto `local`, with `stash` and `capacity` unchanged. Otherwise `local` becomes `[t]` in a new segment of the grown capacity, and the old `local` is stashed unless it was empty. |
| Regions.Region.CopySlice | src/region.rs:78-81 | The contents become the old contents plus `items`, the region only grows, and `[old len, old len + |items|)` lies in one segment. If `items` fit in the spare capacity they extend `local`, with `stash` and `capacity` unchanged. Otherwise `local` becomes `items` in a new segment of the grown capacity, and the old `local` is stashed unless it was empty. |
| Regions.Region.Reserve | src/region.rs:85-103 | Afterwards there is spare capacity for `count` items, and the contents are unchanged. With no growth, nothing changes. With growth, the new capacity follows the source's formula, and the old `local` is either dropped (when empty) or pushed intact onto the stash. |
| PrimitiveBuf.WithCapacity | src/lib.rs:40-42 | The buffer is empty, with limit 1_000_000 and a first segment of capacity `s`. |
| PrimitiveBuf.Copy | src/lib.rs:28-30 | The value is appended to the buffer's contents. |
| PrimitiveBuf.Idx | src/lib.rs:32-34 | Returns by value the `i`-th `u64` copied in. |
| PrimitiveBuf.Len | src/lib.rs:36-38 | The number of values copied in. |
| StringBufs.CopyKeepsLayout | src/lib.rs:61-64 | After one more `copy`, the offsets and bytes are the layout of the longer list of strings. Every stored string still lies in one segment of the byte region. |
| StringBufs.StringBuf.WithCapacity | src/lib.rs:76-80 | The buffer is empty, and its byte region has limit 16_000_000 and capacity `s`. |
| StringBufs.StringBuf.Copy | src/lib.rs:61-64 | The string is appended to the stored list, and the byte count after it is pushed onto `idx`. The offset-layout and one-segment invariant is kept, and the byte region only grows. |
| StringBufs.StringBuf.Idx | src/lib.rs:66-70 | Returns exactly the bytes of the `i`-th string copied in. |
| StringBufs.StringBuf.Len | src/lib.rs:72-74 | Equals the number of strings copied in. |
| VecBufs.IdxIter.constructor | src/lib.rs:110-114 | The iterator starts at `current = start` and will yield buffer positions `[start, end)`. |
| VecBufs.IdxIter.Next | src/lib.rs:145-153 | Returns `None` iff `current == end`. Otherwise it returns `buf.idx(current)`, the first remaining value, and advances `current` by exactly 1. The size hint drops by 1, and `buf` is untouched. |
| VecBufs.IdxIter.SizeHint | src/lib.rs:155-158 | Both bounds equal the number of values still to be yielded. |
| VecBufs.Drain | src/lib.rs:145-153 | Calling `next` until `None` yields exactly the values that remained, in order. |
| VecBufs.VecBuf.WithCapacity | src/lib.rs:121-125 | The buffer is empty, and its nested `u64` buffer has capacity `8 * s`. |
| VecBufs.VecBuf.Copy | src/lib.rs:99-105 | Every element is copied, in order, into the nested buffer. The sequence is appended to the stored list, and the nested length (old length plus `|c|`) is pushed onto `idx`. |
| VecBufs.VecBuf.Idx | src/lib.rs:107-115 | Returns a fresh iterator over `[Start(i), idx[i])`. What remains to yield is exactly the `i`-th stored sequence, which is empty for an empty one. |
| VecBufs.VecBuf.Len | src/lib.rs:117-119 | Equals the number of sequences copied in. |
| VecBufs.NestedIdxIter.constructor | src/lib.rs:110-114 | The iterator starts at `start` and will yield the nested buffer's items `[start, end)`. |
| VecBufs.NestedIdxIter.Next | src/lib.rs:145-153 | Returns `None` iff `current == end`. Otherwise it returns a fresh inner iterator over the first remaining inner sequence and advances by 1. |
| VecBufs.NestedIdxIter.SizeHint | src/lib.rs:155-158 | Both bounds equal the number of inner sequences still to be yielded. |
| VecBufs.NestedVecBuf.WithCapacity | src/lib.rs:121-125 | The buffer is empty. The fan-out heuristic compounds, so the innermost region has capacity `64 * s`. |
| VecBufs.NestedVecBuf.Copy | src/lib.rs:99-105 | Every inner sequence is copied, in order, into the nested `VecBuf`. The outer sequence is appended, and the nested length is pushed onto `idx`. |
| VecBufs.NestedVecBuf.Idx | src/lib.rs:107-115 | Returns a fresh iterator whose remaining inner sequences are exactly the `i`-th stored sequence of sequences. |
| VecBufs.NestedVecBuf.Len | src/lib.rs:117-119 | Equals the number of outer sequences copied in. |

Two behaviours of the code that are easy to miss:
- `reserve` does not always retire the active segment. When `local` is empty it is replaced, not pushed, so no stashed segment is ever empty (`src/region.rs:96-97`).
- `clear` empties `local` but keeps its capacity, as `Vec::clear` does. A cleared region therefore has the same contents as a fresh one but not necessarily the same first-segment capacity (`src/region.rs:67`).

## Left out

- `Region::heap_size` (`src/region.rs:110-125`) is left out. It only reports memory use to a callback, depends on `mem::size_of`, and never affects behaviour.
- The `Columnar` and `ColumnarBuf` traits (`src/lib.rs:7-19`) are not Dafny traits. Each buffer class follows the same contract shape instead: `WithCapacity`, `Copy`, `Idx`, `Len`, a ghost `Contents` list and a `Valid` invariant. The generic `VecBuf<T>` is instantiated for `T = u64` and `T = Vec<u64>`. `VecBuf<String>` and deeper nestings are not modelled.
- The `Borrow` adapter (`src/borrow.rs`) is not part of this model. `e.borrow()` is taken to be the element itself.
- UTF-8 validity and `from_utf8_unchecked` are not modelled. Strings are byte sequences.
- Memory addresses, lifetimes and the `ReadItem<'a>` borrow are not modelled. Address stability is stated through `Grows`: stashed segments are never changed. An iterator changes only its own `current` field. Nothing in the model stops a caller from copying into a buffer while an iterator over it is alive; the Rust borrow checker forbids this.
- `usize` overflow, including `next_power_of_two` overflow and `capacity + 1`, is not modelled, and neither is allocation failure. All counts are unbounded `nat`s.
- Rust's `Vec::with_capacity(n)` promises a capacity of at least `n`. The model takes it to be exactly `n`.
- The capacity hints are not modelled: `Vec::with_capacity(s)` for the `idx` vectors, and the `s * 8` fan-out only as far as the nested buffer's first segment capacity. No proof depends on them.
- Regions.Region.Idx and Regions.Region.Slice require an in-range index or range, and `Slice` also requires a range inside one segment. The source does not handle these cases; it panics. An out-of-range index fails in `Region::idx` (`src/region.rs:46`). A range straddling two segments makes the scan stop at the segment holding `start`, and the slice `&s[start - l..end - l]` then runs past that segment's end (`src/region.rs:55`, `src/region.rs:61`). Its only callers derive ranges from their own offsets, and `StringBuf`'s invariant proves the precondition for them.
- PrimitiveBuf.Idx requires `i < len()`. The source panics otherwise, in `Region::idx` (`src/region.rs:46`).
- StringBufs.StringBuf.Idx requires an in-range `i`. The source panics otherwise, at `self.idx[i]` (`src/lib.rs:68`).
- VecBufs.VecBuf.Idx and VecBufs.NestedVecBuf.Idx require an in-range `i`. The source panics otherwise, at `self.idx[i]` (`src/lib.rs:109`).
- VecBufs.VecBuf.Copy does not state that the nested region only grows (`Grows`). Its contents-level postcondition already implies that earlier elements are unchanged.
- PrimitiveBuf.Copy does not pass on the `Grows` postcondition of `Regions.Region.Copy`, for the same reason.
