/** The arena invariant and the facts that derive from it.

    `tiles` is a witness listing the start offsets of all blocks, free and
    allocated, in address order; the allocator itself keeps no such list,
    which is why every lemma takes it as a parameter. */
module SmmInvariant {
  import opened Outcomes
  import opened Align
  import opened Smm

  function Last(s: seq<nat>): nat
    requires |s| > 0
  {
    s[|s| - 1]
  }

  /** Every block listed in `tiles` has a header, is aligned and is at least
      one header long. */
  ghost predicate Cells(a: Arena, tiles: seq<nat>)
  {
    forall k :: 0 <= k < |tiles| ==>
      && tiles[k] in a.heap
      && a.heap[tiles[k]].size >= BlockHeadSize(a.mask)
      && tiles[k] % (a.mask + 1) == 0
  }

  /** Each block listed in `tiles` ends where the next one starts. */
  ghost predicate Chain(a: Arena, tiles: seq<nat>)
  {
    forall k :: 0 <= k < |tiles| - 1 ==> tiles[k] in a.heap && tiles[k] + a.heap[tiles[k]].size == tiles[k + 1]
  }

  /** The blocks listed in `tiles` partition `[HeadSize, size)`, every one is
      aligned and at least one header long. */
  ghost predicate Tiled(a: Arena, size: nat, tiles: seq<nat>)
  {
    && |tiles| > 0
    && tiles[0] == HeadSize(a.mask)
    && Cells(a, tiles)
    && Chain(a, tiles)
    && Last(tiles) + a.heap[Last(tiles)].size == size
  }

  /** The starts of the blocks in `s` that are tagged free, in the order of `s`. */
  function FreeStarts(heap: map<nat, Header>, s: seq<nat>): (r: seq<nat>)
    ensures |r| <= |s|
  {
    if s == [] then []
    else (if TaggedFree(heap, s[0]) then [s[0]] else []) + FreeStarts(heap, s[1..])
  }

  /** No two neighbouring blocks are both free: coalescing is eager. */
  ghost predicate Coalesced(heap: map<nat, Header>, tiles: seq<nat>)
  {
    forall k :: 0 <= k < |tiles| - 1 ==> !(TaggedFree(heap, tiles[k]) && TaggedFree(heap, tiles[k + 1]))
  }

  /** The arena is initialised, the blocks partition the region, the free list
      is exactly the free blocks in address order, and no two free blocks
      touch. */
  ghost predicate Inv(a: Arena, size: nat, tiles: seq<nat>)
  {
    && a.valid
    && IsLowMask(a.mask)
    && Tiled(a, size, tiles)
    && a.free == FreeStarts(a.heap, tiles)
    && Coalesced(a.heap, tiles)
  }

  /** `c` starts a block that is currently handed out. */
  ghost predicate LiveBlock(a: Arena, tiles: seq<nat>, c: nat)
  {
    c in tiles && c in a.heap && a.heap[c].tag == Allocated
  }

  // ------------------------------------------------------------ sequences

  /** A sequence is the part before position `k`, the element there, and the
      part after it. */
  lemma SplitAt(s: seq<nat>, k: nat)
    requires k < |s|
    ensures s[..k] + [s[k]] + s[k + 1..] == s
    ensures s[k..k + 1] == [s[k]]
  {
  }

  // ------------------------------------------------------------ free starts

  lemma {:induction false} FreeStartsAppend(heap: map<nat, Header>, s: seq<nat>, t: seq<nat>)
    ensures FreeStarts(heap, s + t) == FreeStarts(heap, s) + FreeStarts(heap, t)
  {
    if s == [] {
      assert s + t == t;
    } else {
      assert (s + t)[1..] == s[1..] + t;
      FreeStartsAppend(heap, s[1..], t);
    }
  }

  lemma {:induction false} FreeStartsFrame(h1: map<nat, Header>, h2: map<nat, Header>, s: seq<nat>)
    requires forall j :: 0 <= j < |s| ==> (TaggedFree(h1, s[j]) <==> TaggedFree(h2, s[j]))
    ensures FreeStarts(h1, s) == FreeStarts(h2, s)
  {
    if s != [] {
      FreeStartsFrame(h1, h2, s[1..]);
    }
  }

  lemma {:induction false} FreeStartsMember(heap: map<nat, Header>, s: seq<nat>, x: nat)
    ensures x in FreeStarts(heap, s) <==> x in s && TaggedFree(heap, x)
  {
    if s != [] {
      FreeStartsMember(heap, s[1..], x);
      assert s == [s[0]] + s[1..];
    }
  }

  /** `FreeStarts` over `s` split around position `k`. */
  lemma {:induction false} FreeStartsSplit(heap: map<nat, Header>, s: seq<nat>, k: nat)
    requires k < |s|
    ensures FreeStarts(heap, s) == FreeStarts(heap, s[..k]) + FreeStarts(heap, [s[k]]) + FreeStarts(heap, s[k + 1..])
  {
    assert s == s[..k] + [s[k]] + s[k + 1..];
    FreeStartsAppend(heap, s[..k] + [s[k]], s[k + 1..]);
    FreeStartsAppend(heap, s[..k], [s[k]]);
  }

  /** Every element of `s` lies below `c`. */
  predicate Below(s: seq<nat>, c: nat)
  {
    forall j :: 0 <= j < |s| ==> s[j] < c
  }

  /** Every element of `s` lies at or above `c`. */
  predicate AtLeast(s: seq<nat>, c: nat)
  {
    forall j :: 0 <= j < |s| ==> s[j] >= c
  }

  lemma {:induction false} FreeStartsBelow(heap: map<nat, Header>, s: seq<nat>, c: nat)
    requires Below(s, c)
    ensures Below(FreeStarts(heap, s), c)
  {
    forall j | 0 <= j < |FreeStarts(heap, s)|
      ensures FreeStarts(heap, s)[j] < c
    {
      FreeStartsMember(heap, s, FreeStarts(heap, s)[j]);
    }
  }

  lemma {:induction false} FreeStartsAtLeast(heap: map<nat, Header>, s: seq<nat>, c: nat)
    requires AtLeast(s, c)
    ensures AtLeast(FreeStarts(heap, s), c)
  {
    forall j | 0 <= j < |FreeStarts(heap, s)|
      ensures FreeStarts(heap, s)[j] >= c
    {
      FreeStartsMember(heap, s, FreeStarts(heap, s)[j]);
    }
  }

  /** Filtering a strictly ascending sequence keeps it strictly ascending. */
  lemma {:induction false} FreeStartsAscending(heap: map<nat, Header>, s: seq<nat>)
    requires forall i, j :: 0 <= i < j < |s| ==> s[i] < s[j]
    ensures forall i, j :: 0 <= i < j < |FreeStarts(heap, s)| ==> FreeStarts(heap, s)[i] < FreeStarts(heap, s)[j]
  {
    if s != [] {
      FreeStartsAscending(heap, s[1..]);
      FreeStartsAtLeast(heap, s[1..], s[0] + 1);
    }
  }

  // ------------------------------------------------------------ ordering

  lemma {:induction false} HeaderSizes(m: nat)
    requires IsLowMask(m)
    ensures BlockHeadSize(m) >= BS0 && BlockHeadSize(m) % (m + 1) == 0
    ensures HeadSize(m) >= HS0 && HeadSize(m) % (m + 1) == 0
  {
  }

  lemma {:induction false} TileGap(a: Arena, size: nat, tiles: seq<nat>, i: nat, j: nat)
    requires IsLowMask(a.mask) && Tiled(a, size, tiles) && i < j < |tiles|
    ensures tiles[i] + a.heap[tiles[i]].size <= tiles[j]
    decreases j - i
  {
    HeaderSizes(a.mask);
    if i + 1 < j {
      TileGap(a, size, tiles, i, j - 1);
    }
  }

  /** Blocks follow each other without overlap, all inside the region. */
  lemma Ordered(a: Arena, size: nat, tiles: seq<nat>)
    requires IsLowMask(a.mask) && Tiled(a, size, tiles)
    ensures forall i, j :: 0 <= i < j < |tiles| ==> tiles[i] + a.heap[tiles[i]].size <= tiles[j]
    ensures forall i, j :: 0 <= i < j < |tiles| ==> tiles[i] < tiles[j]
    ensures forall k :: 0 <= k < |tiles| ==> tiles[k] + a.heap[tiles[k]].size <= size
  {
    HeaderSizes(a.mask);
    forall i, j | 0 <= i < j < |tiles|
      ensures tiles[i] + a.heap[tiles[i]].size <= tiles[j]
    {
      TileGap(a, size, tiles, i, j);
    }
  }

  /** The blocks below block `k` end at or before it, the blocks above it
      start at or after its end, and the region ends after it. */
  lemma AroundTile(a: Arena, size: nat, tiles: seq<nat>, k: nat)
    requires IsLowMask(a.mask) && Tiled(a, size, tiles) && k < |tiles|
    ensures Below(tiles[..k], tiles[k])
    ensures AtLeast(tiles[k + 1..], tiles[k] + a.heap[tiles[k]].size)
    ensures tiles[k] + a.heap[tiles[k]].size <= size
    ensures k + 1 < |tiles| <==> tiles[k] + a.heap[tiles[k]].size < size
  {
    Ordered(a, size, tiles);
    HeaderSizes(a.mask);
    assert forall j :: 0 <= j < k ==> tiles[..k][j] == tiles[j];
  }

  /** Every other block lies wholly below block `k` or starts at or after its end. */
  lemma Apart(a: Arena, size: nat, tiles: seq<nat>, k: nat)
    requires IsLowMask(a.mask) && Tiled(a, size, tiles) && k < |tiles|
    ensures forall j :: 0 <= j < |tiles| && j != k ==>
              tiles[j] < tiles[k] || tiles[j] >= tiles[k] + a.heap[tiles[k]].size
  {
    Ordered(a, size, tiles);
  }

  /** A header written inside block `k`, at least a header's length before
      its end, shares no bytes with the header of any other block. */
  lemma Clear(a: Arena, size: nat, tiles: seq<nat>, k: nat, x: nat)
    requires IsLowMask(a.mask) && Tiled(a, size, tiles) && k < |tiles|
    requires tiles[k] <= x && x + BS0 <= tiles[k] + a.heap[tiles[k]].size
    ensures forall j :: 0 <= j < |tiles| && j != k ==> tiles[j] != x && !Overlap(x, tiles[j])
  {
    Ordered(a, size, tiles);
    HeaderSizes(a.mask);
  }

  /** A block start occurs at one position of `tiles` only. */
  lemma TileIndex(a: Arena, size: nat, tiles: seq<nat>, i: nat, j: nat)
    requires IsLowMask(a.mask) && Tiled(a, size, tiles) && i < |tiles| && j < |tiles|
    requires tiles[i] == tiles[j]
    ensures i == j
  {
    HeaderSizes(a.mask);
    if i < j { TileGap(a, size, tiles, i, j); }
    if j < i { TileGap(a, size, tiles, j, i); }
  }

  /** The free list split around block `k`: the free starts below it, the
      block itself when it is free, and the free starts above it. */
  lemma {:induction false} FreeAround(a: Arena, size: nat, tiles: seq<nat>, k: nat)
    requires IsLowMask(a.mask) && Tiled(a, size, tiles) && a.free == FreeStarts(a.heap, tiles)
    requires k < |tiles|
    ensures a.free == FreeStarts(a.heap, tiles[..k]) + FreeStarts(a.heap, [tiles[k]]) + FreeStarts(a.heap, tiles[k + 1..])
    ensures Below(FreeStarts(a.heap, tiles[..k]), tiles[k])
    ensures AtLeast(FreeStarts(a.heap, tiles[k + 1..]), tiles[k] + a.heap[tiles[k]].size)
  {
    FreeStartsSplit(a.heap, tiles, k);
    AroundTile(a, size, tiles, k);
    FreeStartsBelow(a.heap, tiles[..k], tiles[k]);
    FreeStartsAtLeast(a.heap, tiles[k + 1..], tiles[k] + a.heap[tiles[k]].size);
  }

  /** In `s == lo + [b] + hi` with everything in `lo` below `b` and
      everything in `hi` above it, `b` sits at position `|lo|` only. */
  lemma Locate(s: seq<nat>, lo: seq<nat>, b: nat, hi: seq<nat>, i: nat)
    requires s == lo + [b] + hi && i < |s| && s[i] == b
    requires Below(lo, b) && AtLeast(hi, b + 1)
    ensures i == |lo| && s[..i] == lo && s[i + 1..] == hi
  {
  }

  /** In `s == lo + hi` with `lo` below `c` and `hi` above it, the first
      position at which `s` rises above `c` is `|lo|`. */
  lemma LocateGap(s: seq<nat>, lo: seq<nat>, hi: seq<nat>, c: nat, i: nat)
    requires s == lo + hi && i <= |s|
    requires Below(lo, c) && AtLeast(hi, c + 1)
    requires forall j :: 0 <= j < i ==> s[j] <= c
    requires i < |s| ==> s[i] > c
    ensures i == |lo| && s[..i] == lo && s[i..] == hi
  {
  }

  /** The free list ascends strictly, holds blocks tagged free only, and no
      two neighbours in it touch. */
  lemma FreeListShape(a: Arena, size: nat, tiles: seq<nat>)
    requires Inv(a, size, tiles)
    ensures forall i, j :: 0 <= i < j < |a.free| ==> a.free[i] < a.free[j]
    ensures forall j :: 0 <= j < |a.free| ==> TaggedFree(a.heap, a.free[j]) && a.free[j] in tiles
    ensures forall j :: 0 <= j < |a.free| - 1 ==> a.free[j] + a.heap[a.free[j]].size != a.free[j + 1]
  {
    Ordered(a, size, tiles);
    FreeStartsAscending(a.heap, tiles);
    forall j | 0 <= j < |a.free|
      ensures TaggedFree(a.heap, a.free[j]) && a.free[j] in tiles
    {
      FreeStartsMember(a.heap, tiles, a.free[j]);
    }
    forall j | 0 <= j < |a.free| - 1
      ensures a.free[j] + a.heap[a.free[j]].size != a.free[j + 1]
    {
      FreeNotAdjacent(a, size, tiles, a.free[j], a.free[j + 1]);
    }
  }

  lemma FreeNotAdjacent(a: Arena, size: nat, tiles: seq<nat>, x: nat, y: nat)
    requires Inv(a, size, tiles) && x in a.free && y in a.free
    ensures x in a.heap && x + a.heap[x].size != y
  {
    FreeStartsMember(a.heap, tiles, x);
    FreeStartsMember(a.heap, tiles, y);
    var k :| 0 <= k < |tiles| && tiles[k] == x;
    if k + 1 < |tiles| {
      assert !TaggedFree(a.heap, tiles[k + 1]);
    } else {
      var l :| 0 <= l < |tiles| && tiles[l] == y;
      AroundTile(a, size, tiles, l);
      HeaderSizes(a.mask);
    }
  }

  /** Under the invariant no two free blocks overlap: each ends at or before
      the start of every later node. */
  lemma FreeDisjoint(a: Arena, size: nat, tiles: seq<nat>, i: nat, j: nat)
    requires Inv(a, size, tiles) && i < j < |a.free|
    ensures a.free[i] in a.heap && a.free[i] + a.heap[a.free[i]].size <= a.free[j]
  {
    FreeListShape(a, size, tiles);
    Ordered(a, size, tiles);
    var p :| 0 <= p < |tiles| && tiles[p] == a.free[i];
    var q :| 0 <= q < |tiles| && tiles[q] == a.free[j];
  }

  // ------------------------------------------------------------ byte sums

  lemma {:induction false} BytesAppend(heap: map<nat, Header>, s: seq<nat>, t: seq<nat>)
    ensures Bytes(heap, s + t) == Bytes(heap, s) + Bytes(heap, t)
  {
    if s == [] {
      assert s + t == t;
    } else {
      assert (s + t)[1..] == s[1..] + t;
      BytesAppend(heap, s[1..], t);
    }
  }

  lemma {:induction false} BytesFrame(h1: map<nat, Header>, h2: map<nat, Header>, s: seq<nat>)
    requires forall j :: 0 <= j < |s| ==> SizeAt(h1, s[j]) == SizeAt(h2, s[j])
    ensures Bytes(h1, s) == Bytes(h2, s)
  {
    if s != [] {
      BytesFrame(h1, h2, s[1..]);
    }
  }

  lemma {:induction false} TilesFromSum(a: Arena, size: nat, tiles: seq<nat>, k: nat)
    requires Tiled(a, size, tiles) && k < |tiles|
    ensures Bytes(a.heap, tiles[k..]) == size - tiles[k]
    decreases |tiles| - k
  {
    if k + 1 < |tiles| {
      TilesFromSum(a, size, tiles, k + 1);
      assert tiles[k..][1..] == tiles[k + 1..];
    }
  }

  /** Partition: the sizes of all blocks, free and allocated, add up to the
      usable part of the region. */
  lemma {:induction false} PartitionSum(a: Arena, size: nat, tiles: seq<nat>)
    requires Inv(a, size, tiles)
    ensures Bytes(a.heap, tiles) == size - HeadSize(a.mask)
    ensures HeadSize(a.mask) < size
  {
    TilesFromSum(a, size, tiles, 0);
    assert tiles[0..] == tiles;
    AroundTile(a, size, tiles, 0);
    HeaderSizes(a.mask);
  }

  // ------------------------------------------------------------ observers

  /** Under the invariant the counting walk never faults. */
  lemma CountUnderInv(a: Arena, size: nat, tiles: seq<nat>)
    requires Inv(a, size, tiles)
    ensures FreeBlockNum(a) == Ok(|a.free|)
  {
    FreeListShape(a, size, tiles);
  }
}
