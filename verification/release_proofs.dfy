/** Release: what `Release` does under the invariant, case by case. The walk
    stops before the first free block above the released one, after the free
    block that ends where it starts, or past the end of the list; in each
    case the result is one window rewrite of the tiling. */
module ReleaseProofs {
  import opened Outcomes
  import opened Align
  import opened Smm
  import opened SmmInvariant
  import opened Retile
  import opened AllocProofs

  // ------------------------------------------------------------ result shapes

  /** Free-list node `j` of `a` is a block that contains offset `c`. */
  predicate Covers(a: Arena, j: nat, c: nat)
  {
    j < |a.free| && a.free[j] <= c < a.free[j] + SizeAt(a.heap, a.free[j])
  }

  /** How many of the blocks next to block `k` are free. */
  function FreeNeighbours(heap: map<nat, Header>, tiles: seq<nat>, k: nat): nat
    requires k < |tiles|
  {
    (if k > 0 && TaggedFree(heap, tiles[k - 1]) then 1 else 0)
    + (if k + 1 < |tiles| && TaggedFree(heap, tiles[k + 1]) then 1 else 0)
  }

  // ------------------------------------------------------------ the walk

  // Release of a live block under a well-tagged free list, by where the walk stops.

  /** Into an empty free list the released block becomes the only node,
      retagged free with its size kept; a header more than a header's width
      away is untouched. */
  lemma ReleaseIntoEmpty(a: Arena, c: nat, v: Variant)
    requires a.valid && c in a.heap && a.heap[c].tag == Allocated && a.free == []
    ensures Release(a, c + BlockHeadSize(a.mask), v) == Ok(Inserted(a, c, 0))
    ensures var r := Release(a, c + BlockHeadSize(a.mask), v);
            && r.Ok? && r.value.free == [c] && c in r.value.heap && r.value.heap[c] == Header(Free, a.heap[c].size)
            && forall y :: y in a.heap && y != c && !Overlap(c, y) ==> y in r.value.heap && r.value.heap[y] == a.heap[y]
  {
    assert Inserted(a, c, 0).free == [c];
  }

  /** Past the checks, a release into a non-empty free list is the walk
      followed by linking at the spot it found. */
  lemma ReleaseLinks(a: Arena, c: nat, v: Variant, at: Spot)
    requires a.valid && c in a.heap && a.heap[c].tag == Allocated && a.free != []
    requires InsertionPoint(a.heap, a.free, 0, c) == Ok(at)
    ensures Release(a, c + BlockHeadSize(a.mask), v) == Link(a, c, at, v)
  {
    assert c + BlockHeadSize(a.mask) - BlockHeadSize(a.mask) == c;
  }

  lemma ReleaseBefore(a: Arena, c: nat, v: Variant, i: nat)
    requires a.valid && c in a.heap && a.heap[c].tag == Allocated && a.free != []
    requires InsertionPoint(a.heap, a.free, 0, c) == Ok(Before(i))
    ensures i < |a.free|
    ensures Release(a, c + BlockHeadSize(a.mask), v)
              == Ok(if c + a.heap[c].size == a.free[i] then Absorbed(a, c, i) else Inserted(a, c, i))
  {
    ReleaseLinks(a, c, v, Before(i));
    LinkBefore(a, c, v, i);
  }

  lemma LinkBefore(a: Arena, c: nat, v: Variant, i: nat)
    requires c in a.heap && i < |a.free|
    ensures Link(a, c, Before(i), v)
              == Ok(if c + a.heap[c].size == a.free[i] then Absorbed(a, c, i) else Inserted(a, c, i))
  {
  }

  lemma ReleaseAfter(a: Arena, c: nat, v: Variant, i: nat)
    requires a.valid && c in a.heap && a.heap[c].tag == Allocated && a.free != []
    requires InsertionPoint(a.heap, a.free, 0, c) == Ok(After(i))
    ensures i < |a.free| && a.free[i] + SizeAt(a.heap, a.free[i]) == c
    ensures Release(a, c + BlockHeadSize(a.mask), v)
              == Ok(if i + 1 < |a.free| && c + a.heap[c].size == a.free[i + 1] then Bridged(a, c, i, v) else Grown(a, c, i, v))
  {
    ReleaseLinks(a, c, v, After(i));
    LinkAfter(a, c, v, i);
  }

  lemma LinkAfter(a: Arena, c: nat, v: Variant, i: nat)
    requires c in a.heap && i < |a.free| && a.free[i] + SizeAt(a.heap, a.free[i]) == c
    ensures Link(a, c, After(i), v)
              == Ok(if i + 1 < |a.free| && c + a.heap[c].size == a.free[i + 1] then Bridged(a, c, i, v) else Grown(a, c, i, v))
  {
  }

  lemma ReleasePastEnd(a: Arena, c: nat, v: Variant)
    requires a.valid && c in a.heap && a.heap[c].tag == Allocated && a.free != []
    requires InsertionPoint(a.heap, a.free, 0, c) == Ok(PastEnd)
    ensures Release(a, c + BlockHeadSize(a.mask), v)
              == if v == AsWritten then Fatal(NoInsertionPoint) else Ok(Inserted(a, c, |a.free|))
  {
    ReleaseLinks(a, c, v, PastEnd);
    assert a.free[..|a.free|] + [c] + a.free[|a.free|..] == a.free + [c];
  }

  // ------------------------------------------------------------ insert

  lemma AtLeastLower(s: seq<nat>, x: nat, y: nat)
    requires AtLeast(s, x) && y <= x
    ensures AtLeast(s, y)
  {
  }

  /** When the walk inserts block `k` at position `i`, the free list splits
      there into the free blocks below it and those above it. */
  lemma InsertWalk(a: Arena, size: nat, tiles: seq<nat>, k: nat, i: nat)
    requires IsLowMask(a.mask) && Tiled(a, size, tiles) && a.free == FreeStarts(a.heap, tiles)
    requires k < |tiles| && a.heap[tiles[k]].tag == Allocated
    requires i <= |a.free| && Passed(a.heap, a.free, 0, i, tiles[k])
    requires i < |a.free| ==> tiles[k] < a.free[i]
    ensures a.free[..i] == FreeStarts(a.heap, tiles[..k])
    ensures a.free[i..] == FreeStarts(a.heap, tiles[k + 1..])
  {
    var c := tiles[k];
    FreeAround(a, size, tiles, k);
    HeaderSizes(a.mask);
    AtLeastLower(FreeStarts(a.heap, tiles[k + 1..]), c + a.heap[c].size, c + 1);
    assert FreeStarts(a.heap, [c]) == [];
    GapSplit(a.heap, a.free, FreeStarts(a.heap, tiles[..k]), FreeStarts(a.heap, [c]), FreeStarts(a.heap, tiles[k + 1..]), c, i);
  }

  /** The walk passes exactly the nodes below `c` when nothing lies between
      the free blocks below `c` and those above it. */
  lemma GapSplit(heap: map<nat, Header>, free: seq<nat>, lo: seq<nat>, mid: seq<nat>, hi: seq<nat>, c: nat, i: nat)
    requires free == lo + mid + hi && mid == []
    requires Below(lo, c) && AtLeast(hi, c + 1)
    requires i <= |free| && Passed(heap, free, 0, i, c)
    requires i < |free| ==> c < free[i]
    ensures free[..i] == lo && free[i..] == hi
  {
    assert free == lo + hi;
    LocateGap(free, lo, hi, c, i);
  }

  /** The block before `k` is not free when the walk passed every free
      block below `k` without finding one that ends at it. */
  lemma LeftNotFree(a: Arena, size: nat, tiles: seq<nat>, k: nat, i: nat)
    requires Tiled(a, size, tiles) && k < |tiles| && i <= |a.free|
    requires a.free[..i] == FreeStarts(a.heap, tiles[..k])
    requires Passed(a.heap, a.free, 0, i, tiles[k])
    ensures k > 0 ==> !TaggedFree(a.heap, tiles[k - 1])
  {
    if k > 0 {
      var x := tiles[k - 1];
      assert tiles[..k][k - 1] == x;
      FreeStartsMember(a.heap, tiles[..k], x);
      assert forall y :: y in a.free[..i] ==> y in a.heap && y + a.heap[y].size != tiles[k];
    }
  }

  /** The block after `k` is not free when the free blocks above `k` start
      at position `i` and the node there does not start where `k` ends. */
  lemma RightNotFree(a: Arena, size: nat, tiles: seq<nat>, k: nat, i: nat)
    requires Tiled(a, size, tiles) && k < |tiles| && i <= |a.free|
    requires a.free[i..] == FreeStarts(a.heap, tiles[k + 1..])
    requires i < |a.free| ==> tiles[k] + a.heap[tiles[k]].size != a.free[i]
    ensures k + 1 < |tiles| ==> !TaggedFree(a.heap, tiles[k + 1])
  {
    if k + 1 < |tiles| {
      assert tiles[k + 1..][1..] == tiles[k + 2..];
    }
  }

  /** Inserting block `k` touches no other block's header. */
  lemma InsertOutside(a: Arena, size: nat, tiles: seq<nat>, k: nat, i: nat)
    requires IsLowMask(a.mask) && Tiled(a, size, tiles) && k < |tiles| && i <= |a.free|
    ensures SameOutside(a.heap, Inserted(a, tiles[k], i).heap, tiles, k, k + 1)
  {
    HeaderSizes(a.mask);
    Clear(a, size, tiles, k, tiles[k]);
  }

  /** Inserting block `k` rewrites it alone, now tagged free. */
  lemma InsertShape(a: Arena, size: nat, tiles: seq<nat>, k: nat, i: nat)
    requires IsLowMask(a.mask) && Tiled(a, size, tiles) && k < |tiles| && i <= |a.free|
    ensures var c, h' := tiles[k], Inserted(a, tiles[k], i).heap;
            && SameOutside(a.heap, h', tiles, k, k + 1)
            && Spans(a, h', tiles, k, k + 1, [c])
            && Coalesced(h', [c])
            && a.heap[c].size > 0
  {
    var c, h' := tiles[k], Inserted(a, tiles[k], i).heap;
    HeaderSizes(a.mask);
    Clear(a, size, tiles, k, c);
    SpansOne(a, h', tiles, k, k + 1, c);
  }

  /** The free list after inserting block `k` at `i`, and the bytes of the window. */
  lemma InsertFree(a: Arena, tiles: seq<nat>, k: nat, i: nat)
    requires k < |tiles| && tiles[k] in a.heap && a.heap[tiles[k]].tag == Allocated && i <= |a.free|
    requires a.free[..i] == FreeStarts(a.heap, tiles[..k])
    requires a.free[i..] == FreeStarts(a.heap, tiles[k + 1..])
    requires a.heap[tiles[k]].size > 0
    ensures var c, a' := tiles[k], Inserted(a, tiles[k], i);
            && a'.free == FreeStarts(a.heap, tiles[..k]) + FreeStarts(a'.heap, [c]) + FreeStarts(a.heap, tiles[k + 1..])
            && Bytes(a.heap, FreeStarts(a.heap, tiles[k..k + 1])) == 0
            && Bytes(a'.heap, FreeStarts(a'.heap, [c])) == a.heap[c].size
            && Covers(a', i, c)
  {
    var c, a' := tiles[k], Inserted(a, tiles[k], i);
    assert FreeStarts(a'.heap, [c]) == [c];
    SplitAt(tiles, k);
    assert FreeStarts(a.heap, [c]) == [];
  }

  /** Inserting block `k` unmerged keeps the invariant and adds its bytes
      to the free bytes. */
  lemma InsertKeeps(a: Arena, size: nat, tiles: seq<nat>, k: nat, i: nat) returns (t: seq<nat>)
    requires Inv(a, size, tiles) && k < |tiles| && a.heap[tiles[k]].tag == Allocated
    requires i <= |a.free| && Passed(a.heap, a.free, 0, i, tiles[k])
    requires i < |a.free| ==> tiles[k] < a.free[i] && tiles[k] + a.heap[tiles[k]].size != a.free[i]
    ensures t == tiles[..k] + [tiles[k]] + tiles[k + 1..] && Inv(Inserted(a, tiles[k], i), size, t)
    ensures Bytes(Inserted(a, tiles[k], i).heap, Inserted(a, tiles[k], i).free) == Bytes(a.heap, a.free) + a.heap[tiles[k]].size
    ensures Covers(Inserted(a, tiles[k], i), i, tiles[k])
    ensures |Inserted(a, tiles[k], i).free| + FreeNeighbours(a.heap, tiles, k) == |a.free| + 1
  {
    var c := tiles[k];
    InsertWalk(a, size, tiles, k, i);
    LeftNotFree(a, size, tiles, k, i);
    RightNotFree(a, size, tiles, k, i);
    InsertShape(a, size, tiles, k, i);
    InsertFree(a, tiles, k, i);
    Rewrite(a, Inserted(a, c, i), size, tiles, k, k + 1, [c]);
    t := tiles[..k] + [c] + tiles[k + 1..];
  }

  // ------------------------------------------------------------ forward merge

  /** A node of the free list that is the next block is the head of the
      free blocks from there on. */
  lemma HeadNode(heap: map<nat, Header>, free: seq<nat>, i: nat, x: nat, rest: seq<nat>)
    requires i < |free| && free[i] == x
    requires free[i..] == (if TaggedFree(heap, x) then [x] else []) + rest
    requires AtLeast(rest, x + 1)
    ensures TaggedFree(heap, x) && free[i + 1..] == rest
  {
    assert free[i + 1..] == free[i..][1..];
  }

  /** When the walk stops before node `i` and block `k` ends where that
      node starts, the node is the block after `k`, and the free list splits
      around the two. */
  lemma AbsorbWalk(a: Arena, size: nat, tiles: seq<nat>, k: nat, i: nat)
    requires IsLowMask(a.mask) && Tiled(a, size, tiles) && a.free == FreeStarts(a.heap, tiles)
    requires k < |tiles| && a.heap[tiles[k]].tag == Allocated
    requires i < |a.free| && Passed(a.heap, a.free, 0, i, tiles[k])
    requires tiles[k] < a.free[i] && tiles[k] + a.heap[tiles[k]].size == a.free[i]
    ensures k + 1 < |tiles| && tiles[k + 1] == a.free[i] && TaggedFree(a.heap, tiles[k + 1])
    ensures a.free[..i] == FreeStarts(a.heap, tiles[..k])
    ensures a.free[i + 1..] == FreeStarts(a.heap, tiles[k + 2..])
  {
    InsertWalk(a, size, tiles, k, i);
    assert k + 1 < |tiles|;
    var x := tiles[k + 1];
    AroundTile(a, size, tiles, k + 1);
    HeaderSizes(a.mask);
    FreeStartsAtLeast(a.heap, tiles[k + 2..], x + a.heap[x].size);
    AtLeastLower(FreeStarts(a.heap, tiles[k + 2..]), x + a.heap[x].size, x + 1);
    assert tiles[k + 1..][1..] == tiles[k + 2..];
    HeadNode(a.heap, a.free, i, x, FreeStarts(a.heap, tiles[k + 2..]));
  }

  /** Absorbing block `k + 1` touches no header outside blocks `k` and `k + 1`. */
  lemma AbsorbOutside(a: Arena, size: nat, tiles: seq<nat>, k: nat, i: nat)
    requires IsLowMask(a.mask) && Tiled(a, size, tiles) && k + 1 < |tiles| && i < |a.free|
    ensures SameOutside(a.heap, Absorbed(a, tiles[k], i).heap, tiles, k, k + 2)
  {
    HeaderSizes(a.mask);
    Clear(a, size, tiles, k, tiles[k]);
  }

  /** Absorbing block `k + 1` rewrites blocks `k` and `k + 1` as one block. */
  lemma AbsorbSpans(a: Arena, size: nat, tiles: seq<nat>, k: nat, i: nat)
    requires IsLowMask(a.mask) && Tiled(a, size, tiles) && k + 1 < |tiles| && i < |a.free|
    requires tiles[k + 1] == a.free[i]
    ensures Spans(a, Absorbed(a, tiles[k], i).heap, tiles, k, k + 2, [tiles[k]])
    ensures a.heap[tiles[k]].size > 0
  {
    var c, h' := tiles[k], Absorbed(a, tiles[k], i).heap;
    HeaderSizes(a.mask);
    assert c + a.heap[c].size == tiles[k + 1];
    SpansOne(a, h', tiles, k, k + 2, c);
  }

  /** The free list after absorbing, and the bytes of the window. */
  lemma AbsorbFree(a: Arena, tiles: seq<nat>, k: nat, i: nat)
    requires k + 1 < |tiles| && tiles[k] in a.heap && a.heap[tiles[k]].tag == Allocated
    requires i < |a.free| && tiles[k + 1] == a.free[i] && TaggedFree(a.heap, tiles[k + 1])
    requires a.free[..i] == FreeStarts(a.heap, tiles[..k])
    requires a.free[i + 1..] == FreeStarts(a.heap, tiles[k + 2..])
    requires a.heap[tiles[k]].size > 0
    ensures var c, a' := tiles[k], Absorbed(a, tiles[k], i);
            && a'.free == FreeStarts(a.heap, tiles[..k]) + FreeStarts(a'.heap, [c]) + FreeStarts(a.heap, tiles[k + 2..])
            && Bytes(a.heap, FreeStarts(a.heap, tiles[k..k + 2])) == a.heap[tiles[k + 1]].size
            && Bytes(a'.heap, FreeStarts(a'.heap, [c])) == a.heap[c].size + a.heap[tiles[k + 1]].size
            && Covers(a', i, c)
  {
    var c, x, a' := tiles[k], tiles[k + 1], Absorbed(a, tiles[k], i);
    assert FreeStarts(a'.heap, [c]) == [c];
    assert tiles[k..k + 2] == [c, x];
    assert [c, x][1..] == [x];
    assert FreeStarts(a.heap, [x]) == [x];
    assert FreeStarts(a.heap, [c, x]) == [x];
  }

  /** Releasing block `k` into the free block right after it keeps the
      invariant and adds its bytes to the free bytes. */
  lemma AbsorbKeeps(a: Arena, size: nat, tiles: seq<nat>, k: nat, i: nat) returns (t: seq<nat>)
    requires Inv(a, size, tiles) && k < |tiles| && a.heap[tiles[k]].tag == Allocated
    requires i < |a.free| && Passed(a.heap, a.free, 0, i, tiles[k])
    requires tiles[k] < a.free[i] && tiles[k] + a.heap[tiles[k]].size == a.free[i]
    ensures k + 1 < |tiles| && t == tiles[..k] + [tiles[k]] + tiles[k + 2..] && Inv(Absorbed(a, tiles[k], i), size, t)
    ensures Bytes(Absorbed(a, tiles[k], i).heap, Absorbed(a, tiles[k], i).free) == Bytes(a.heap, a.free) + a.heap[tiles[k]].size
    ensures Covers(Absorbed(a, tiles[k], i), i, tiles[k])
    ensures |Absorbed(a, tiles[k], i).free| + FreeNeighbours(a.heap, tiles, k) == |a.free| + 1
  {
    var c := tiles[k];
    AbsorbWalk(a, size, tiles, k, i);
    LeftNotFree(a, size, tiles, k, i);
    AbsorbOutside(a, size, tiles, k, i);
    AbsorbSpans(a, size, tiles, k, i);
    AbsorbFree(a, tiles, k, i);
    Rewrite(a, Absorbed(a, c, i), size, tiles, k, k + 2, [c]);
    t := tiles[..k] + [c] + tiles[k + 2..];
  }

  // ------------------------------------------------------------ backward merge

  /** When the walk stops at node `i` because it ends where block `k`
      starts, the node is the block before `k`, and the free list splits
      around the two. */
  lemma AfterWalk(a: Arena, size: nat, tiles: seq<nat>, k: nat, i: nat)
    requires Inv(a, size, tiles) && k < |tiles| && a.heap[tiles[k]].tag == Allocated
    requires i < |a.free| && a.free[i] + SizeAt(a.heap, a.free[i]) == tiles[k]
    ensures 0 < k && tiles[k - 1] == a.free[i] && TaggedFree(a.heap, tiles[k - 1])
    ensures a.free[..i] == FreeStarts(a.heap, tiles[..k - 1])
    ensures a.free[i + 1..] == FreeStarts(a.heap, tiles[k + 1..])
  {
    var j := FreeNode(a, size, tiles, i);
    AroundTile(a, size, tiles, j);
    AroundTile(a, size, tiles, k);
    HeaderSizes(a.mask);
    TileIndex(a, size, tiles, j + 1, k);
    assert tiles[k..][1..] == tiles[k + 1..];
  }

  /** Growing node `i` over block `k` touches no header outside blocks `k - 1` and `k`. */
  lemma GrowOutside(a: Arena, size: nat, tiles: seq<nat>, k: nat, i: nat, v: Variant)
    requires IsLowMask(a.mask) && Tiled(a, size, tiles) && 0 < k < |tiles|
    requires i < |a.free| && tiles[k - 1] == a.free[i]
    ensures SameOutside(a.heap, Grown(a, tiles[k], i, v).heap, tiles, k - 1, k + 1)
  {
    HeaderSizes(a.mask);
    Clear(a, size, tiles, k, tiles[k]);
    Clear(a, size, tiles, k - 1, tiles[k - 1]);
  }

  /** Growing node `i` over block `k` rewrites blocks `k - 1` and `k` as one block. */
  lemma GrowSpans(a: Arena, size: nat, tiles: seq<nat>, k: nat, i: nat, v: Variant)
    requires IsLowMask(a.mask) && Tiled(a, size, tiles) && 0 < k < |tiles|
    requires i < |a.free| && tiles[k - 1] == a.free[i]
    ensures Spans(a, Grown(a, tiles[k], i, v).heap, tiles, k - 1, k + 1, [tiles[k - 1]])
  {
    var f, h' := tiles[k - 1], Grown(a, tiles[k], i, v).heap;
    HeaderSizes(a.mask);
    assert f + a.heap[f].size == tiles[k];
    SpansOne(a, h', tiles, k - 1, k + 1, f);
  }

  /** The free list keeps its shape when node `i` grows, and the bytes of the window. */
  lemma GrowFree(a: Arena, tiles: seq<nat>, k: nat, i: nat, v: Variant)
    requires 0 < k < |tiles| && tiles[k] in a.heap && a.heap[tiles[k]].tag == Allocated
    requires i < |a.free| && tiles[k - 1] == a.free[i] && TaggedFree(a.heap, tiles[k - 1])
    requires a.free[..i] == FreeStarts(a.heap, tiles[..k - 1])
    requires a.free[i + 1..] == FreeStarts(a.heap, tiles[k + 1..])
    requires tiles[k - 1] + a.heap[tiles[k - 1]].size == tiles[k] && a.heap[tiles[k]].size > 0
    ensures var f, a' := tiles[k - 1], Grown(a, tiles[k], i, v);
            && a'.free == FreeStarts(a.heap, tiles[..k - 1]) + FreeStarts(a'.heap, [f]) + FreeStarts(a.heap, tiles[k + 1..])
            && Bytes(a.heap, FreeStarts(a.heap, tiles[k - 1..k + 1])) == a.heap[f].size
            && Bytes(a'.heap, FreeStarts(a'.heap, [f])) == a.heap[f].size + a.heap[tiles[k]].size
            && Covers(a', i, tiles[k])
  {
    var c, f, a' := tiles[k], tiles[k - 1], Grown(a, tiles[k], i, v);
    assert FreeStarts(a'.heap, [f]) == [f];
    assert tiles[k - 1..k + 1] == [f, c];
    assert [f, c][1..] == [c];
    assert FreeStarts(a.heap, [c]) == [];
    assert FreeStarts(a.heap, [f, c]) == [f];
    SplitAt(a.free, i);
  }

  /** Releasing block `k` into the free block right before it, which does
      not touch the next free block, keeps the invariant and adds its bytes
      to the free bytes, in either variant. */
  lemma GrowKeeps(a: Arena, size: nat, tiles: seq<nat>, k: nat, i: nat, v: Variant) returns (t: seq<nat>)
    requires Inv(a, size, tiles) && k < |tiles| && a.heap[tiles[k]].tag == Allocated
    requires i < |a.free| && a.free[i] + SizeAt(a.heap, a.free[i]) == tiles[k]
    requires !(i + 1 < |a.free| && tiles[k] + a.heap[tiles[k]].size == a.free[i + 1])
    ensures 0 < k && t == tiles[..k - 1] + [tiles[k - 1]] + tiles[k + 1..] && Inv(Grown(a, tiles[k], i, v), size, t)
    ensures Bytes(Grown(a, tiles[k], i, v).heap, Grown(a, tiles[k], i, v).free) == Bytes(a.heap, a.free) + a.heap[tiles[k]].size
    ensures Covers(Grown(a, tiles[k], i, v), i, tiles[k])
    ensures |Grown(a, tiles[k], i, v).free| + FreeNeighbours(a.heap, tiles, k) == |a.free| + 1
  {
    var c := tiles[k];
    AfterWalk(a, size, tiles, k, i);
    var f := tiles[k - 1];
    RightNotFree(a, size, tiles, k, i + 1);
    OneNeighbour(a.heap, tiles, k);
    HeaderSizes(a.mask);
    GrowOutside(a, size, tiles, k, i, v);
    GrowSpans(a, size, tiles, k, i, v);
    GrowFree(a, tiles, k, i, v);
    Rewrite(a, Grown(a, c, i, v), size, tiles, k - 1, k + 1, [f]);
    t := tiles[..k - 1] + [f] + tiles[k + 1..];
  }

  lemma OneNeighbour(heap: map<nat, Header>, tiles: seq<nat>, k: nat)
    requires 0 < k < |tiles| && TaggedFree(heap, tiles[k - 1])
    requires k + 1 < |tiles| ==> !TaggedFree(heap, tiles[k + 1])
    ensures FreeNeighbours(heap, tiles, k) == 1
  {
  }

  /** When node `i` ends where block `k` starts and node `i + 1` starts
      where it ends, the two nodes are the blocks on either side of `k`. */
  lemma BridgeWalk(a: Arena, size: nat, tiles: seq<nat>, k: nat, i: nat)
    requires Inv(a, size, tiles) && k < |tiles| && a.heap[tiles[k]].tag == Allocated
    requires i + 1 < |a.free| && a.free[i] + SizeAt(a.heap, a.free[i]) == tiles[k]
    requires tiles[k] + a.heap[tiles[k]].size == a.free[i + 1]
    ensures 0 < k && tiles[k - 1] == a.free[i] && TaggedFree(a.heap, tiles[k - 1])
    ensures k + 1 < |tiles| && tiles[k + 1] == a.free[i + 1] && TaggedFree(a.heap, tiles[k + 1])
    ensures a.free[..i] == FreeStarts(a.heap, tiles[..k - 1])
    ensures a.free[i + 2..] == FreeStarts(a.heap, tiles[k + 2..])
  {
    AfterWalk(a, size, tiles, k, i);
    assert k + 1 < |tiles|;
    var x := tiles[k + 1];
    AroundTile(a, size, tiles, k + 1);
    HeaderSizes(a.mask);
    FreeStartsAtLeast(a.heap, tiles[k + 2..], x + a.heap[x].size);
    AtLeastLower(FreeStarts(a.heap, tiles[k + 2..]), x + a.heap[x].size, x + 1);
    assert tiles[k + 1..][1..] == tiles[k + 2..];
    HeadNode(a.heap, a.free, i + 1, x, FreeStarts(a.heap, tiles[k + 2..]));
  }

  /** Bridging touches no header outside blocks `k - 1` to `k + 1`. */
  lemma BridgeOutside(a: Arena, size: nat, tiles: seq<nat>, k: nat, i: nat, v: Variant)
    requires IsLowMask(a.mask) && Tiled(a, size, tiles) && 0 < k && k + 1 < |tiles|
    requires i + 1 < |a.free| && tiles[k - 1] == a.free[i]
    ensures SameOutside(a.heap, Bridged(a, tiles[k], i, v).heap, tiles, k - 1, k + 2)
  {
    HeaderSizes(a.mask);
    Clear(a, size, tiles, k, tiles[k]);
    Clear(a, size, tiles, k - 1, tiles[k - 1]);
  }

  /** Bridging rewrites blocks `k - 1` to `k + 1` as one block. */
  lemma BridgeSpans(a: Arena, size: nat, tiles: seq<nat>, k: nat, i: nat, v: Variant)
    requires IsLowMask(a.mask) && Tiled(a, size, tiles) && 0 < k && k + 1 < |tiles|
    requires i + 1 < |a.free| && tiles[k - 1] == a.free[i] && tiles[k + 1] == a.free[i + 1]
    ensures Spans(a, Bridged(a, tiles[k], i, v).heap, tiles, k - 1, k + 2, [tiles[k - 1]])
  {
    var f, h' := tiles[k - 1], Bridged(a, tiles[k], i, v).heap;
    HeaderSizes(a.mask);
    assert f + a.heap[f].size == tiles[k] && tiles[k] + a.heap[tiles[k]].size == tiles[k + 1];
    SpansOne(a, h', tiles, k - 1, k + 2, f);
  }

  /** The free list after bridging, and the bytes of the window. */
  lemma BridgeFree(a: Arena, tiles: seq<nat>, k: nat, i: nat, v: Variant)
    requires 0 < k && k + 1 < |tiles| && tiles[k] in a.heap && a.heap[tiles[k]].tag == Allocated
    requires i + 1 < |a.free| && tiles[k - 1] == a.free[i] && TaggedFree(a.heap, tiles[k - 1])
    requires tiles[k + 1] == a.free[i + 1] && TaggedFree(a.heap, tiles[k + 1])
    requires a.free[..i] == FreeStarts(a.heap, tiles[..k - 1])
    requires a.free[i + 2..] == FreeStarts(a.heap, tiles[k + 2..])
    requires tiles[k - 1] + a.heap[tiles[k - 1]].size == tiles[k] && a.heap[tiles[k]].size > 0
    ensures var f, g, a' := tiles[k - 1], tiles[k + 1], Bridged(a, tiles[k], i, v);
            && a'.free == FreeStarts(a.heap, tiles[..k - 1]) + FreeStarts(a'.heap, [f]) + FreeStarts(a.heap, tiles[k + 2..])
            && Bytes(a.heap, FreeStarts(a.heap, tiles[k - 1..k + 2])) == a.heap[f].size + a.heap[g].size
            && Bytes(a'.heap, FreeStarts(a'.heap, [f])) == a.heap[f].size + a.heap[tiles[k]].size + a.heap[g].size
            && Covers(a', i, tiles[k])
  {
    var c, f, g, a' := tiles[k], tiles[k - 1], tiles[k + 1], Bridged(a, tiles[k], i, v);
    assert FreeStarts(a'.heap, [f]) == [f];
    assert tiles[k - 1..k + 2] == [f, c, g];
    assert [f, c, g][1..] == [c, g] && [c, g][1..] == [g];
    assert FreeStarts(a.heap, [g]) == [g];
    assert FreeStarts(a.heap, [c, g]) == [g];
    assert FreeStarts(a.heap, [f, c, g]) == [f, g];
    assert [f, g][1..] == [g];
    assert Bytes(a.heap, [g]) == a.heap[g].size;
    assert a.free[..i + 1] == a.free[..i] + [f];
  }

  /** Releasing block `k` between two free blocks merges all three, keeps
      the invariant and adds its bytes to the free bytes, in either variant. */
  lemma BridgeKeeps(a: Arena, size: nat, tiles: seq<nat>, k: nat, i: nat, v: Variant) returns (t: seq<nat>)
    requires Inv(a, size, tiles) && k < |tiles| && a.heap[tiles[k]].tag == Allocated
    requires i + 1 < |a.free| && a.free[i] + SizeAt(a.heap, a.free[i]) == tiles[k]
    requires tiles[k] + a.heap[tiles[k]].size == a.free[i + 1]
    ensures 0 < k && k + 1 < |tiles| && t == tiles[..k - 1] + [tiles[k - 1]] + tiles[k + 2..] && Inv(Bridged(a, tiles[k], i, v), size, t)
    ensures Bytes(Bridged(a, tiles[k], i, v).heap, Bridged(a, tiles[k], i, v).free) == Bytes(a.heap, a.free) + a.heap[tiles[k]].size
    ensures Covers(Bridged(a, tiles[k], i, v), i, tiles[k])
    ensures |Bridged(a, tiles[k], i, v).free| + FreeNeighbours(a.heap, tiles, k) == |a.free| + 1
  {
    var c := tiles[k];
    BridgeWalk(a, size, tiles, k, i);
    var f := tiles[k - 1];
    HeaderSizes(a.mask);
    BridgeOutside(a, size, tiles, k, i, v);
    BridgeSpans(a, size, tiles, k, i, v);
    BridgeFree(a, tiles, k, i, v);
    Rewrite(a, Bridged(a, c, i, v), size, tiles, k - 1, k + 2, [f]);
    t := tiles[..k - 1] + [f] + tiles[k + 2..];
  }

  // ------------------------------------------------------------ release

  /** From `a` under `tiles` to `a'` under `t`, block `c` is the one block
      that is no longer live: every other block live before is live
      afterwards with the same header, and no block has become live. */
  ghost predicate Returned(a: Arena, tiles: seq<nat>, a': Arena, t: seq<nat>, c: nat)
  {
    && (forall y :: LiveBlock(a', t, y) <==> LiveBlock(a, tiles, y) && y != c)
    && (forall y :: LiveBlock(a, tiles, y) && y != c ==> y in a'.heap && a'.heap[y] == a.heap[y])
  }

  /** A rewrite of the window `[p, q)` in which `x` is the only block that
      may be live before, and which leaves `x` not live, returns `x`. */
  lemma ReturnedByRewrite(a: Arena, a': Arena, tiles: seq<nat>, p: nat, q: nat, w: seq<nat>, m: nat, x: nat)
    requires p <= m < q <= |tiles| && tiles[m] == x
    requires forall i, j :: 0 <= i < j < |tiles| ==> tiles[i] < tiles[j]
    requires SameOutside(a.heap, a'.heap, tiles, p, q)
    requires forall j :: p <= j < q && tiles[j] != x ==> !AllocatedAt(a.heap, tiles[j])
    requires forall j :: 0 <= j < |w| && w[j] != x ==> !AllocatedAt(a'.heap, w[j])
    requires !(x in w && AllocatedAt(a'.heap, x))
    ensures Returned(a, tiles, a', tiles[..p] + w + tiles[q..], x)
  {
    RewriteLive(a, a', tiles, p, q, w, m, x);
  }

  /** Linking block `k` in unmerged returns it: its header is now free. */
  lemma InsertReturned(a: Arena, size: nat, tiles: seq<nat>, k: nat, i: nat)
    requires IsLowMask(a.mask) && Tiled(a, size, tiles) && k < |tiles| && i <= |a.free|
    ensures Returned(a, tiles, Inserted(a, tiles[k], i), tiles[..k] + [tiles[k]] + tiles[k + 1..], tiles[k])
  {
    InsertOutside(a, size, tiles, k, i);
    Ordered(a, size, tiles);
    ReturnedByRewrite(a, Inserted(a, tiles[k], i), tiles, k, k + 1, [tiles[k]], k, tiles[k]);
  }

  /** Absorbing the free block `k + 1` returns block `k`. */
  lemma AbsorbReturned(a: Arena, size: nat, tiles: seq<nat>, k: nat, i: nat)
    requires IsLowMask(a.mask) && Tiled(a, size, tiles) && k + 1 < |tiles| && i < |a.free|
    requires TaggedFree(a.heap, tiles[k + 1])
    ensures Returned(a, tiles, Absorbed(a, tiles[k], i), tiles[..k] + [tiles[k]] + tiles[k + 2..], tiles[k])
  {
    AbsorbOutside(a, size, tiles, k, i);
    Ordered(a, size, tiles);
    ReturnedByRewrite(a, Absorbed(a, tiles[k], i), tiles, k, k + 2, [tiles[k]], k, tiles[k]);
  }

  /** The free block `k - 1` growing over block `k` returns it, in either
      variant: the block is no longer a tile, whatever its old header says. */
  lemma GrowReturned(a: Arena, size: nat, tiles: seq<nat>, k: nat, i: nat, v: Variant)
    requires IsLowMask(a.mask) && Tiled(a, size, tiles) && 0 < k < |tiles|
    requires i < |a.free| && tiles[k - 1] == a.free[i] && TaggedFree(a.heap, tiles[k - 1])
    ensures Returned(a, tiles, Grown(a, tiles[k], i, v), tiles[..k - 1] + [tiles[k - 1]] + tiles[k + 1..], tiles[k])
  {
    GrowOutside(a, size, tiles, k, i, v);
    Ordered(a, size, tiles);
    ReturnedByRewrite(a, Grown(a, tiles[k], i, v), tiles, k - 1, k + 1, [tiles[k - 1]], k, tiles[k]);
  }

  /** The free block `k - 1` growing over block `k` and the free block
      `k + 1` returns block `k`, in either variant. */
  lemma BridgeReturned(a: Arena, size: nat, tiles: seq<nat>, k: nat, i: nat, v: Variant)
    requires IsLowMask(a.mask) && Tiled(a, size, tiles) && 0 < k && k + 1 < |tiles|
    requires i + 1 < |a.free| && tiles[k - 1] == a.free[i] && TaggedFree(a.heap, tiles[k - 1])
    requires TaggedFree(a.heap, tiles[k + 1])
    ensures Returned(a, tiles, Bridged(a, tiles[k], i, v), tiles[..k - 1] + [tiles[k - 1]] + tiles[k + 2..], tiles[k])
  {
    BridgeOutside(a, size, tiles, k, i, v);
    Ordered(a, size, tiles);
    ReturnedByRewrite(a, Bridged(a, tiles[k], i, v), tiles, k - 1, k + 2, [tiles[k - 1]], k, tiles[k]);
  }

  /** What a sound release leaves behind, going from `a` under `tiles` to
      `a'` under `t`: free bytes grown by the released block's size, a free
      block containing the released one, and the released block the one
      block that is no longer live, every other live block keeping its
      header. */
  ghost predicate Reclaimed(a: Arena, tiles: seq<nat>, a': Arena, t: seq<nat>, c: nat)
  {
    && Bytes(a'.heap, a'.free) == Bytes(a.heap, a.free) + SizeAt(a.heap, c)
    && (exists j :: Covers(a', j, c))
    && Returned(a, tiles, a', t, c)
  }

  lemma ReclaimedFrom(a: Arena, tiles: seq<nat>, a': Arena, t: seq<nat>, c: nat, j: nat)
    requires c in a.heap && Returned(a, tiles, a', t, c)
    requires Bytes(a'.heap, a'.free) == Bytes(a.heap, a.free) + a.heap[c].size
    requires Covers(a', j, c)
    ensures Reclaimed(a, tiles, a', t, c)
  {
  }

  /** Linking block `k` in unmerged at node `i` is a sound release. */
  lemma InsertReclaims(a: Arena, size: nat, tiles: seq<nat>, k: nat, i: nat, a': Arena) returns (t: seq<nat>)
    requires Inv(a, size, tiles) && k < |tiles| && a.heap[tiles[k]].tag == Allocated
    requires i <= |a.free| && Passed(a.heap, a.free, 0, i, tiles[k])
    requires i < |a.free| ==> tiles[k] < a.free[i] && tiles[k] + a.heap[tiles[k]].size != a.free[i]
    requires a' == Inserted(a, tiles[k], i)
    ensures Inv(a', size, t) && Reclaimed(a, tiles, a', t, tiles[k])
    ensures |a'.free| + FreeNeighbours(a.heap, tiles, k) == |a.free| + 1
  {
    t := InsertKeeps(a, size, tiles, k, i);
    InsertReturned(a, size, tiles, k, i);
    ReclaimedFrom(a, tiles, a', t, tiles[k], i);
  }

  /** Block `k` absorbing node `i` right after it is a sound release. */
  lemma AbsorbReclaims(a: Arena, size: nat, tiles: seq<nat>, k: nat, i: nat, a': Arena) returns (t: seq<nat>)
    requires Inv(a, size, tiles) && k < |tiles| && a.heap[tiles[k]].tag == Allocated
    requires i < |a.free| && Passed(a.heap, a.free, 0, i, tiles[k])
    requires tiles[k] < a.free[i] && tiles[k] + a.heap[tiles[k]].size == a.free[i]
    requires a' == Absorbed(a, tiles[k], i)
    ensures Inv(a', size, t) && Reclaimed(a, tiles, a', t, tiles[k])
    ensures |a'.free| + FreeNeighbours(a.heap, tiles, k) == |a.free| + 1
  {
    t := AbsorbKeeps(a, size, tiles, k, i);
    AbsorbWalk(a, size, tiles, k, i);
    AbsorbReturned(a, size, tiles, k, i);
    ReclaimedFrom(a, tiles, a', t, tiles[k], i);
  }

  /** Node `i` growing over block `k` is a sound release. */
  lemma GrowReclaims(a: Arena, size: nat, tiles: seq<nat>, k: nat, i: nat, v: Variant, a': Arena) returns (t: seq<nat>)
    requires Inv(a, size, tiles) && k < |tiles| && a.heap[tiles[k]].tag == Allocated
    requires i < |a.free| && a.free[i] + SizeAt(a.heap, a.free[i]) == tiles[k]
    requires !(i + 1 < |a.free| && tiles[k] + a.heap[tiles[k]].size == a.free[i + 1])
    requires a' == Grown(a, tiles[k], i, v)
    ensures Inv(a', size, t) && Reclaimed(a, tiles, a', t, tiles[k])
    ensures |a'.free| + FreeNeighbours(a.heap, tiles, k) == |a.free| + 1
  {
    t := GrowKeeps(a, size, tiles, k, i, v);
    AfterWalk(a, size, tiles, k, i);
    GrowReturned(a, size, tiles, k, i, v);
    ReclaimedFrom(a, tiles, a', t, tiles[k], i);
  }

  /** Node `i` growing over block `k` and node `i + 1` is a sound release. */
  lemma BridgeReclaims(a: Arena, size: nat, tiles: seq<nat>, k: nat, i: nat, v: Variant, a': Arena) returns (t: seq<nat>)
    requires Inv(a, size, tiles) && k < |tiles| && a.heap[tiles[k]].tag == Allocated
    requires i + 1 < |a.free| && a.free[i] + SizeAt(a.heap, a.free[i]) == tiles[k]
    requires tiles[k] + a.heap[tiles[k]].size == a.free[i + 1]
    requires a' == Bridged(a, tiles[k], i, v)
    ensures Inv(a', size, t) && Reclaimed(a, tiles, a', t, tiles[k])
    ensures |a'.free| + FreeNeighbours(a.heap, tiles, k) == |a.free| + 1
  {
    t := BridgeKeeps(a, size, tiles, k, i, v);
    BridgeWalk(a, size, tiles, k, i);
    BridgeReturned(a, size, tiles, k, i, v);
    ReclaimedFrom(a, tiles, a', t, tiles[k], i);
  }

  /** The free list was empty: the block becomes its only node. */
  lemma EmptyReclaims(a: Arena, size: nat, tiles: seq<nat>, k: nat, v: Variant) returns (t: seq<nat>)
    requires Inv(a, size, tiles) && k < |tiles| && a.heap[tiles[k]].tag == Allocated && a.free == []
    ensures var r := Release(a, tiles[k] + BlockHeadSize(a.mask), v);
            && r.Ok? && Inv(r.value, size, t) && Reclaimed(a, tiles, r.value, t, tiles[k])
            && |r.value.free| + FreeNeighbours(a.heap, tiles, k) == |a.free| + 1
  {
    ReleaseIntoEmpty(a, tiles[k], v);
    t := InsertReclaims(a, size, tiles, k, 0, Release(a, tiles[k] + BlockHeadSize(a.mask), v).value);
  }

  /** The walk stopped before node `i`, which starts where the block ends:
      the block absorbs it. */
  lemma BeforeAbsorbs(a: Arena, size: nat, tiles: seq<nat>, k: nat, v: Variant, i: nat) returns (t: seq<nat>)
    requires Inv(a, size, tiles) && k < |tiles| && a.heap[tiles[k]].tag == Allocated && a.free != []
    requires InsertionPoint(a.heap, a.free, 0, tiles[k]) == Ok(Before(i))
    requires i < |a.free| && tiles[k] + a.heap[tiles[k]].size == a.free[i]
    ensures var r := Release(a, tiles[k] + BlockHeadSize(a.mask), v);
            && r.Ok? && Inv(r.value, size, t) && Reclaimed(a, tiles, r.value, t, tiles[k])
            && |r.value.free| + FreeNeighbours(a.heap, tiles, k) == |a.free| + 1
  {
    ReleaseBefore(a, tiles[k], v, i);
    t := AbsorbReclaims(a, size, tiles, k, i, Release(a, tiles[k] + BlockHeadSize(a.mask), v).value);
  }

  /** The walk stopped before node `i`, which does not touch the block: the
      block is linked in before it. */
  lemma BeforeInserts(a: Arena, size: nat, tiles: seq<nat>, k: nat, v: Variant, i: nat) returns (t: seq<nat>)
    requires Inv(a, size, tiles) && k < |tiles| && a.heap[tiles[k]].tag == Allocated && a.free != []
    requires InsertionPoint(a.heap, a.free, 0, tiles[k]) == Ok(Before(i))
    requires i < |a.free| && tiles[k] + a.heap[tiles[k]].size != a.free[i]
    ensures var r := Release(a, tiles[k] + BlockHeadSize(a.mask), v);
            && r.Ok? && Inv(r.value, size, t) && Reclaimed(a, tiles, r.value, t, tiles[k])
            && |r.value.free| + FreeNeighbours(a.heap, tiles, k) == |a.free| + 1
  {
    ReleaseBefore(a, tiles[k], v, i);
    t := InsertReclaims(a, size, tiles, k, i, Release(a, tiles[k] + BlockHeadSize(a.mask), v).value);
  }

  /** The walk stopped at node `i`, which ends where the block starts, and
      the next node starts where the block ends: node `i` grows over both. */
  lemma AfterBridges(a: Arena, size: nat, tiles: seq<nat>, k: nat, v: Variant, i: nat) returns (t: seq<nat>)
    requires Inv(a, size, tiles) && k < |tiles| && a.heap[tiles[k]].tag == Allocated && a.free != []
    requires InsertionPoint(a.heap, a.free, 0, tiles[k]) == Ok(After(i))
    requires i + 1 < |a.free| && tiles[k] + a.heap[tiles[k]].size == a.free[i + 1]
    ensures var r := Release(a, tiles[k] + BlockHeadSize(a.mask), v);
            && r.Ok? && Inv(r.value, size, t) && Reclaimed(a, tiles, r.value, t, tiles[k])
            && |r.value.free| + FreeNeighbours(a.heap, tiles, k) == |a.free| + 1
  {
    ReleaseAfter(a, tiles[k], v, i);
    t := BridgeReclaims(a, size, tiles, k, i, v, Release(a, tiles[k] + BlockHeadSize(a.mask), v).value);
  }

  /** The walk stopped at node `i`, which ends where the block starts, and
      no next node touches the block: node `i` grows over it. */
  lemma AfterGrows(a: Arena, size: nat, tiles: seq<nat>, k: nat, v: Variant, i: nat) returns (t: seq<nat>)
    requires Inv(a, size, tiles) && k < |tiles| && a.heap[tiles[k]].tag == Allocated && a.free != []
    requires InsertionPoint(a.heap, a.free, 0, tiles[k]) == Ok(After(i))
    requires !(i + 1 < |a.free| && tiles[k] + a.heap[tiles[k]].size == a.free[i + 1])
    ensures var r := Release(a, tiles[k] + BlockHeadSize(a.mask), v);
            && r.Ok? && Inv(r.value, size, t) && Reclaimed(a, tiles, r.value, t, tiles[k])
            && |r.value.free| + FreeNeighbours(a.heap, tiles, k) == |a.free| + 1
  {
    ReleaseAfter(a, tiles[k], v, i);
    t := GrowReclaims(a, size, tiles, k, i, v, Release(a, tiles[k] + BlockHeadSize(a.mask), v).value);
  }

  /** Corrected, a walk that runs off the end of the list appends the block
      at the tail. */
  lemma PastEndAppends(a: Arena, size: nat, tiles: seq<nat>, k: nat) returns (t: seq<nat>)
    requires Inv(a, size, tiles) && k < |tiles| && a.heap[tiles[k]].tag == Allocated && a.free != []
    requires InsertionPoint(a.heap, a.free, 0, tiles[k]) == Ok(PastEnd)
    ensures var r := Release(a, tiles[k] + BlockHeadSize(a.mask), Corrected);
            && r.Ok? && Inv(r.value, size, t) && Reclaimed(a, tiles, r.value, t, tiles[k])
            && |r.value.free| + FreeNeighbours(a.heap, tiles, k) == |a.free| + 1
  {
    ReleasePastEnd(a, tiles[k], Corrected);
    t := InsertReclaims(a, size, tiles, k, |a.free|, Release(a, tiles[k] + BlockHeadSize(a.mask), Corrected).value);
  }

  /** Releasing live block `k` either succeeds or, as written only, stops on
      the missing insertion point; the corrected variant never faults on a
      live block. On success it returns the tiling of the new arena, which
      again satisfies the invariant, and the release is sound. The free list
      gains one node, less one for each free neighbour the block merges
      with. */
  lemma ReleaseKeepsInv(a: Arena, size: nat, tiles: seq<nat>, k: nat, v: Variant) returns (t: seq<nat>)
    requires Inv(a, size, tiles) && k < |tiles| && a.heap[tiles[k]].tag == Allocated
    ensures var r := Release(a, tiles[k] + BlockHeadSize(a.mask), v);
            && (r.Ok? || (v == AsWritten && r == Fatal(NoInsertionPoint)))
            && (r.Ok? ==> Inv(r.value, size, t) && Reclaimed(a, tiles, r.value, t, tiles[k]))
            && (r.Ok? ==> |r.value.free| + FreeNeighbours(a.heap, tiles, k) == |a.free| + 1)
  {
    FreeListShape(a, size, tiles);
    if a.free == [] {
      t := EmptyReclaims(a, size, tiles, k, v);
    } else {
      var pt := InsertionPoint(a.heap, a.free, 0, tiles[k]);
      assert pt.Ok?;
      match pt.value
      case Before(i) =>
        ReleaseBefore(a, tiles[k], v, i);
        if tiles[k] + a.heap[tiles[k]].size == a.free[i] {
          t := BeforeAbsorbs(a, size, tiles, k, v, i);
        } else {
          t := BeforeInserts(a, size, tiles, k, v, i);
        }
      case After(i) =>
        if i + 1 < |a.free| && tiles[k] + a.heap[tiles[k]].size == a.free[i + 1] {
          t := AfterBridges(a, size, tiles, k, v, i);
        } else {
          t := AfterGrows(a, size, tiles, k, v, i);
        }
      case PastEnd =>
        if v == Corrected {
          t := PastEndAppends(a, size, tiles, k);
        } else {
          ReleasePastEnd(a, tiles[k], v);
          t := tiles;
        }
    }
  }

  /** Under the invariant no free block starts at a live block, and a free
      block that starts below it ends at or before it. */
  lemma FreeBelowLive(a: Arena, size: nat, tiles: seq<nat>, k: nat, c: nat)
    requires Inv(a, size, tiles) && k < |tiles| && tiles[k] == c && a.heap[c].tag == Allocated
    ensures forall j :: 0 <= j < |a.free| ==> a.free[j] != c
    ensures forall j :: 0 <= j < |a.free| && a.free[j] < c ==> a.free[j] + SizeAt(a.heap, a.free[j]) <= c
  {
    FreeListShape(a, size, tiles);
    Ordered(a, size, tiles);
    forall j | 0 <= j < |a.free| && a.free[j] < c
      ensures a.free[j] + SizeAt(a.heap, a.free[j]) <= c
    {
      var m :| 0 <= m < |tiles| && tiles[m] == a.free[j];
      if m < k {
        TileGap(a, size, tiles, m, k);
      }
    }
  }

  /** As written, releasing a live block faults exactly when the free list
      is not empty and every free block ends strictly below the released one. */
  lemma ReleaseStrandedIff(a: Arena, size: nat, tiles: seq<nat>, k: nat, c: nat)
    requires Inv(a, size, tiles) && k < |tiles| && tiles[k] == c && a.heap[c].tag == Allocated
    ensures Release(a, c + BlockHeadSize(a.mask), AsWritten) == Fatal(NoInsertionPoint) <==>
              a.free != [] && forall j :: 0 <= j < |a.free| ==> a.free[j] + SizeAt(a.heap, a.free[j]) < c
  {
    FreeListShape(a, size, tiles);
    FreeBelowLive(a, size, tiles, k, c);
    if a.free == [] {
      ReleaseIntoEmpty(a, c, AsWritten);
    } else {
      var pt := InsertionPoint(a.heap, a.free, 0, c);
      assert pt.Ok?;
      if pt.value.Before? {
        ReleaseBefore(a, c, AsWritten, pt.value.i);
      } else if pt.value.After? {
        ReleaseAfter(a, c, AsWritten, pt.value.i);
      } else {
        ReleasePastEnd(a, c, AsWritten);
      }
    }
  }

  // ------------------------------------------------------------ double release

  /** Corrected, a successful release leaves the released header tagged
      free, so releasing the same pointer again is rejected. */
  lemma CorrectedRejectsSecondRelease(a: Arena, p: nat, v: Variant)
    requires Release(a, p, Corrected).Ok?
    ensures Release(Release(a, p, Corrected).value, p, v) == Fatal(NotAllocated)
  {
    var c := p - BlockHeadSize(a.mask);
    if a.free != [] {
      var at := InsertionPoint(a.heap, a.free, 0, c);
      ReleaseLinks(a, c, Corrected, at.value);
      LinkRetags(a, c, at.value);
    }
  }

  /** Corrected, linking leaves no allocated header at the released block
      in any case: the header is retagged free, and a later write that
      overlaps it can only erase it. */
  lemma LinkRetags(a: Arena, c: nat, at: Spot)
    requires c in a.heap && ((at.Before? || at.After?) ==> at.i < |a.free|)
    ensures var r := Link(a, c, at, Corrected);
            r.Ok? && (c in r.value.heap ==> r.value.heap[c].tag == Free)
  {
  }

  /** As written, a release that merges into the preceding free block
      leaves the released header tagged allocated, so releasing the same
      pointer again passes the allocation check. The preceding block is at
      least a header long, as every block is under the invariant, so its
      growing header does not reach the released one. */
  lemma AsWrittenMergeKeepsTag(a: Arena, c: nat, i: nat, v: Variant)
    requires a.valid && c in a.heap && a.heap[c].tag == Allocated && a.free != []
    requires InsertionPoint(a.heap, a.free, 0, c) == Ok(After(i))
    requires i < |a.free| && SizeAt(a.heap, a.free[i]) >= BS0
    ensures var r := Release(a, c + BlockHeadSize(a.mask), AsWritten);
            && r.Ok? && c in r.value.heap && r.value.heap[c].tag == Allocated
            && Release(r.value, c + BlockHeadSize(a.mask), v) != Fatal(NotAllocated)
  {
    MergeKeepsHeader(a, c, i);
    ReleaseAcceptsLive(Release(a, c + BlockHeadSize(a.mask), AsWritten).value, c, c + BlockHeadSize(a.mask), v);
  }

  /** As written, the backward merge leaves the released header as it was. */
  lemma MergeKeepsHeader(a: Arena, c: nat, i: nat)
    requires a.valid && c in a.heap && a.heap[c].tag == Allocated && a.free != []
    requires InsertionPoint(a.heap, a.free, 0, c) == Ok(After(i))
    requires i < |a.free| && SizeAt(a.heap, a.free[i]) >= BS0
    ensures var r := Release(a, c + BlockHeadSize(a.mask), AsWritten);
            && r.Ok? && r.value.valid && r.value.mask == a.mask && c in r.value.heap && r.value.heap[c] == a.heap[c]
  {
    ReleaseAfter(a, c, AsWritten, i);
    if i + 1 < |a.free| && c + a.heap[c].size == a.free[i + 1] {
      BridgedKeepsHeader(a, c, i);
    } else {
      GrownKeepsHeader(a, c, i);
    }
  }

  /** A pointer whose header is tagged allocated passes the allocation check. */
  lemma ReleaseAcceptsLive(a: Arena, c: nat, p: nat, v: Variant)
    requires a.valid && c in a.heap && a.heap[c].tag == Allocated && p == c + BlockHeadSize(a.mask)
    ensures Release(a, p, v) != Fatal(NotAllocated)
  {
  }

  /** As written, node `i` growing over block `c` rewrites only its own
      header, which is at least a header long and ends where `c` starts, so
      the header of `c` stays as it was. */
  lemma GrownKeepsHeader(a: Arena, c: nat, i: nat)
    requires c in a.heap && i < |a.free| && SizeAt(a.heap, a.free[i]) >= BS0
    requires a.free[i] + SizeAt(a.heap, a.free[i]) == c
    ensures c in Grown(a, c, i, AsWritten).heap && Grown(a, c, i, AsWritten).heap[c] == a.heap[c]
  {
  }

  /** The same when node `i` grows over block `c` and node `i + 1`. */
  lemma BridgedKeepsHeader(a: Arena, c: nat, i: nat)
    requires c in a.heap && i + 1 < |a.free| && SizeAt(a.heap, a.free[i]) >= BS0
    requires a.free[i] + SizeAt(a.heap, a.free[i]) == c
    ensures c in Bridged(a, c, i, AsWritten).heap && Bridged(a, c, i, AsWritten).heap[c] == a.heap[c]
  {
  }
}
