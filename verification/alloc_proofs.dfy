/** Initialisation and allocation: what `Init` establishes and what `Alloc`
    preserves. */
module AllocProofs {
  import opened Outcomes
  import opened Align
  import opened Smm
  import opened SmmInvariant
  import opened Retile

  // ------------------------------------------------------------ init

  /** Initialisation rejects a misaligned base and a region too small for the
      descriptor and one block header, writing nothing in either case. */
  lemma {:induction false} InitCodes(mem: Arena, base: nat, size: nat, mask: nat)
    requires IsLowMask(mask)
    ensures var (code, a) := Init(mem, base, size, mask);
            && (code == -EINVAL <==> base % (mask + 1) != 0)
            && (code == -ENOMEM <==> base % (mask + 1) == 0 && size < HeadSize(mask) + BlockHeadSize(mask))
            && (code != 0 ==> a == mem)
            && (code == 0 <==> base % (mask + 1) == 0 && size >= HeadSize(mask) + BlockHeadSize(mask))
  {
    BitMaskArith(base, mask);
  }

  /** On success the whole usable region is one free block, the only node of
      the free list, and the invariant holds. */
  lemma {:induction false} InitEstablishes(mem: Arena, base: nat, size: nat, mask: nat)
    requires IsLowMask(mask)
    requires Init(mem, base, size, mask).0 == 0
    ensures var a := Init(mem, base, size, mask).1;
            && Inv(a, size, [HeadSize(mask)])
            && a.free == [HeadSize(mask)]
            && a.heap[HeadSize(mask)] == Header(Free, size - HeadSize(mask))
            && FreeBlockNum(a) == Ok(1)
  {
    var a := Init(mem, base, size, mask).1;
    var hs := HeadSize(mask);
    HeaderSizes(mask);
    assert Tiled(a, size, [hs]);
    assert FreeStarts(a.heap, [hs]) == [hs];
  }

  // ------------------------------------------------------------ first fit

  /** Index `i` is the first free-list node with at least `sz` bytes. */
  ghost predicate IsFirstFit(a: Arena, sz: nat, i: nat)
  {
    && i < |a.free|
    && SizeAt(a.heap, a.free[i]) >= sz
    && forall k :: 0 <= k < i ==> SizeAt(a.heap, a.free[k]) < sz
  }

  /** The allocation walk stops at the first fit, when there is one. */
  lemma {:induction false} FirstFitFound(a: Arena, sz: nat, i: nat)
    requires forall k :: 0 <= k < |a.free| ==> TaggedFree(a.heap, a.free[k])
    requires IsFirstFit(a, sz, i)
    ensures FirstFit(a.heap, a.free, 0, sz) == Ok(Some(i))
  {
    var r := FirstFit(a.heap, a.free, 0, sz);
    if r.Ok? && r.value.Some? {
      var j := r.value.value;
      assert !(j < i) && !(i < j);
    }
  }

  /** Allocation returns NULL, leaving the arena alone, exactly when no free
      block is large enough for the request. */
  lemma AllocNullIff(a: Arena, n: nat)
    requires a.valid
    requires forall k :: 0 <= k < |a.free| ==> TaggedFree(a.heap, a.free[k])
    ensures Alloc(a, n).Ok?
    ensures Alloc(a, n).value.1.None? <==>
              forall k :: 0 <= k < |a.free| ==> SizeAt(a.heap, a.free[k]) < Need(n, a.mask)
  {
  }

  /** Allocation is first fit: it hands out the first block large enough,
      whole when the remainder could not hold a header, and otherwise split,
      with the free remainder taking the block's place in the list. */
  lemma AllocTakesFirstFit(a: Arena, n: nat, i: nat)
    requires a.valid
    requires forall k :: 0 <= k < |a.free| ==> TaggedFree(a.heap, a.free[k])
    requires IsLowMask(a.mask) && IsFirstFit(a, Need(n, a.mask), i)
    ensures Alloc(a, n).Ok?
    ensures var b, sz, bs := a.free[i], Need(n, a.mask), BlockHeadSize(a.mask);
            var (a', p) := Alloc(a, n).value;
            && p == Some(b + bs)
            && b in a'.heap && a'.heap[b].tag == Allocated
            && (a.heap[b].size < sz + bs ==>
                  a'.heap[b].size == a.heap[b].size && a'.free == a.free[..i] + a.free[i + 1..])
            && (a.heap[b].size >= sz + bs ==>
                  && a'.heap[b].size == sz
                  && b + sz in a'.heap && a'.heap[b + sz] == Header(Free, a.heap[b].size - sz)
                  && a'.free == a.free[..i] + [b + sz] + a.free[i + 1..])
  {
    FirstFitFound(a, Need(n, a.mask), i);
    AllocResult(a, n, i);
  }

  // ------------------------------------------------------------ alloc

  /** Free-list node `i` is block `k`, and the free list splits around it. */
  lemma FreeNode(a: Arena, size: nat, tiles: seq<nat>, i: nat) returns (k: nat)
    requires Inv(a, size, tiles) && i < |a.free|
    ensures k < |tiles| && tiles[k] == a.free[i] && TaggedFree(a.heap, a.free[i])
    ensures a.free[..i] == FreeStarts(a.heap, tiles[..k])
    ensures a.free[i + 1..] == FreeStarts(a.heap, tiles[k + 1..])
    ensures AtLeast(a.free[i + 1..], a.free[i] + a.heap[a.free[i]].size)
  {
    FreeListShape(a, size, tiles);
    var b := a.free[i];
    k :| 0 <= k < |tiles| && tiles[k] == b;
    FreeAround(a, size, tiles, k);
    HeaderSizes(a.mask);
    assert FreeStarts(a.heap, [b]) == [b];
    Locate(a.free, FreeStarts(a.heap, tiles[..k]), b, FreeStarts(a.heap, tiles[k + 1..]), i);
  }

  /** Handing out block `k` whole touches no other block's header. */
  lemma HandOutOutside(a: Arena, size: nat, tiles: seq<nat>, k: nat, i: nat)
    requires IsLowMask(a.mask) && Tiled(a, size, tiles) && k < |tiles|
    requires i < |a.free| && tiles[k] == a.free[i]
    ensures SameOutside(a.heap, HandOutArena(a, i).heap, tiles, k, k + 1)
  {
    HeaderSizes(a.mask);
    Clear(a, size, tiles, k, tiles[k]);
  }

  /** The seams of handing out block `k` whole: only its tag changes, and it
      is no longer free. */
  lemma HandOutSeams(a: Arena, size: nat, tiles: seq<nat>, k: nat, i: nat)
    requires IsLowMask(a.mask) && Tiled(a, size, tiles) && k < |tiles|
    requires i < |a.free| && tiles[k] == a.free[i]
    ensures var b, h' := tiles[k], HandOutArena(a, i).heap;
            && SameOutside(a.heap, h', tiles, k, k + 1)
            && Spans(a, h', tiles, k, k + 1, [b])
            && FreeStarts(h', [b]) == []
            && Coalesced(h', [b])
            && !TaggedFree(h', b)
  {
    HeaderSizes(a.mask);
    Clear(a, size, tiles, k, tiles[k]);
  }

  /** The free list after handing out node `i` is the old one without it,
      and the free bytes drop by the block's size. */
  lemma HandOutFree(a: Arena, tiles: seq<nat>, k: nat, i: nat)
    requires k < |tiles| && i < |a.free| && tiles[k] == a.free[i] && TaggedFree(a.heap, tiles[k])
    requires a.free[..i] == FreeStarts(a.heap, tiles[..k])
    requires a.free[i + 1..] == FreeStarts(a.heap, tiles[k + 1..])
    ensures var b, a' := tiles[k], HandOutArena(a, i);
            && a'.free == FreeStarts(a.heap, tiles[..k]) + FreeStarts(a'.heap, [b]) + FreeStarts(a.heap, tiles[k + 1..])
            && Bytes(a.heap, FreeStarts(a.heap, tiles[k..k + 1])) == a.heap[b].size
            && Bytes(a'.heap, FreeStarts(a'.heap, [b])) == 0
            && tiles[..k] + [b] + tiles[k + 1..] == tiles
  {
    var b := tiles[k];
    assert FreeStarts(HandOutArena(a, i).heap, [b]) == [];
    SplitAt(tiles, k);
    assert FreeStarts(a.heap, [b]) == [b];
  }

  /** From `a` under `tiles` to `a'` under `t`, block `b` is the one block
      that has become live: every block live before is live afterwards with
      the same header, and no other block has become live. */
  ghost predicate Handed(a: Arena, tiles: seq<nat>, a': Arena, t: seq<nat>, b: nat)
  {
    && (forall y :: LiveBlock(a', t, y) <==> LiveBlock(a, tiles, y) || y == b)
    && (forall y :: LiveBlock(a, tiles, y) ==> y in a'.heap && a'.heap[y] == a.heap[y])
  }

  /** Handing out free block `free[i]` whole keeps the invariant under the
      same tiling, and the free bytes drop by the block's size. */
  lemma HandOutWhole(a: Arena, size: nat, tiles: seq<nat>, i: nat)
    requires Inv(a, size, tiles) && i < |a.free|
    ensures Inv(HandOutArena(a, i), size, tiles)
    ensures Bytes(HandOutArena(a, i).heap, HandOutArena(a, i).free) + HandOutArena(a, i).heap[a.free[i]].size == Bytes(a.heap, a.free)
  {
    var k := FreeNode(a, size, tiles, i);
    var b := a.free[i];
    HandOutSeams(a, size, tiles, k, i);
    HandOutFree(a, tiles, k, i);
    Rewrite(a, HandOutArena(a, i), size, tiles, k, k + 1, [b]);
  }

  /** A rewrite of the window `[p, q)` in which `x` is the only block that
      may be live, before or after, and is live afterwards, hands out `x`. */
  lemma HandedByRewrite(a: Arena, a': Arena, tiles: seq<nat>, p: nat, q: nat, w: seq<nat>, m: nat, x: nat)
    requires p <= m < q <= |tiles| && tiles[m] == x
    requires forall i, j :: 0 <= i < j < |tiles| ==> tiles[i] < tiles[j]
    requires SameOutside(a.heap, a'.heap, tiles, p, q)
    requires forall j :: p <= j < q && tiles[j] != x ==> !AllocatedAt(a.heap, tiles[j])
    requires forall j :: 0 <= j < |w| && w[j] != x ==> !AllocatedAt(a'.heap, w[j])
    requires x in w && AllocatedAt(a'.heap, x) && !AllocatedAt(a.heap, x)
    ensures Handed(a, tiles, a', tiles[..p] + w + tiles[q..], x)
  {
    RewriteLive(a, a', tiles, p, q, w, m, x);
  }

  /** The live blocks after handing out block `k` whole: the old ones and
      the block itself. */
  lemma HandOutHanded(a: Arena, size: nat, tiles: seq<nat>, k: nat, i: nat)
    requires IsLowMask(a.mask) && Tiled(a, size, tiles) && k < |tiles|
    requires i < |a.free| && tiles[k] == a.free[i] && TaggedFree(a.heap, tiles[k])
    ensures Handed(a, tiles, HandOutArena(a, i), tiles, a.free[i])
  {
    HandOutOutside(a, size, tiles, k, i);
    Ordered(a, size, tiles);
    SplitAt(tiles, k);
    HandedByRewrite(a, HandOutArena(a, i), tiles, k, k + 1, [tiles[k]], k, a.free[i]);
  }

  /** Splitting block `k` touches no other block's header. */
  lemma SplitOutside(a: Arena, size: nat, tiles: seq<nat>, k: nat, i: nat, sz: nat)
    requires IsLowMask(a.mask) && Tiled(a, size, tiles)
    requires k < |tiles| && i < |a.free| && tiles[k] == a.free[i]
    requires sz + BS0 <= a.heap[tiles[k]].size
    ensures SameOutside(a.heap, SplitArena(a, i, sz).heap, tiles, k, k + 1)
  {
    HeaderSizes(a.mask);
    Clear(a, size, tiles, k, tiles[k]);
    Clear(a, size, tiles, k, tiles[k] + sz);
  }

  /** Splitting block `k` at `sz` bytes gives a live block followed by a
      free remainder, covering the same bytes. */
  lemma SplitSpans(a: Arena, size: nat, tiles: seq<nat>, k: nat, i: nat, sz: nat)
    requires IsLowMask(a.mask) && Tiled(a, size, tiles)
    requires k < |tiles| && i < |a.free| && tiles[k] == a.free[i]
    requires sz >= BlockHeadSize(a.mask) && sz % (a.mask + 1) == 0
    requires a.heap[tiles[k]].size >= sz + BlockHeadSize(a.mask)
    ensures Spans(a, SplitArena(a, i, sz).heap, tiles, k, k + 1, [tiles[k], tiles[k] + sz])
  {
    HeaderSizes(a.mask);
    SumOfMultiples(tiles[k], sz, a.mask + 1);
    SpansTwo(a, SplitArena(a, i, sz).heap, tiles, k, k + 1, a.free[i], a.free[i] + sz);
  }

  /** The seams of the split: the live block is not free, and the free
      remainder cannot touch a free successor because block `k` had none. */
  lemma SplitSeams(a: Arena, size: nat, tiles: seq<nat>, k: nat, i: nat, sz: nat)
    requires IsLowMask(a.mask) && Tiled(a, size, tiles) && Coalesced(a.heap, tiles)
    requires k < |tiles| && i < |a.free| && tiles[k] == a.free[i] && TaggedFree(a.heap, tiles[k])
    requires 0 < sz < a.heap[tiles[k]].size
    ensures var b, h' := tiles[k], SplitArena(a, i, sz).heap;
            && Coalesced(h', [b, b + sz])
            && !TaggedFree(h', b)
            && (k + 1 < |tiles| ==> !TaggedFree(h', tiles[k + 1]))
  {
    Apart(a, size, tiles, k);
  }

  /** The free list after the split is the old one with the remainder in
      place of the split block, and the free bytes drop by `sz`. */
  lemma SplitFree(a: Arena, tiles: seq<nat>, k: nat, i: nat, sz: nat)
    requires k < |tiles| && i < |a.free| && tiles[k] == a.free[i] && TaggedFree(a.heap, tiles[k])
    requires a.free[..i] == FreeStarts(a.heap, tiles[..k])
    requires a.free[i + 1..] == FreeStarts(a.heap, tiles[k + 1..])
    requires BS0 <= sz <= a.heap[tiles[k]].size
    ensures var b, a' := tiles[k], SplitArena(a, i, sz);
            && a'.free == FreeStarts(a.heap, tiles[..k]) + FreeStarts(a'.heap, [b, b + sz]) + FreeStarts(a.heap, tiles[k + 1..])
            && Bytes(a.heap, FreeStarts(a.heap, tiles[k..k + 1])) == a.heap[b].size
            && Bytes(a'.heap, FreeStarts(a'.heap, [b, b + sz])) == a.heap[b].size - sz
  {
    var b := tiles[k];
    var x := b + sz;
    var h' := SplitArena(a, i, sz).heap;
    assert [b, x][1..] == [x];
    assert [x][1..] == [];
    assert FreeStarts(h', [b, x]) == [x];
    SplitAt(tiles, k);
    assert FreeStarts(a.heap, [b]) == [b];
  }

  /** The tiling after splitting tile `k` at `sz` bytes. */
  function SplitTiles(tiles: seq<nat>, k: nat, sz: nat): seq<nat>
    requires k < |tiles|
  {
    tiles[..k] + [tiles[k], tiles[k] + sz] + tiles[k + 1..]
  }

  /** Splitting free block `free[i]` into a live block of `sz` bytes and a
      free remainder in its place keeps the invariant under the tiling with
      the remainder inserted after the block's tile `k`, and the free bytes
      drop by `sz`. */
  lemma SplitBlock(a: Arena, size: nat, tiles: seq<nat>, i: nat, sz: nat) returns (k: nat, t: seq<nat>)
    requires Inv(a, size, tiles) && i < |a.free|
    requires sz >= BlockHeadSize(a.mask) && sz % (a.mask + 1) == 0
    requires SizeAt(a.heap, a.free[i]) >= sz + BlockHeadSize(a.mask)
    ensures k < |tiles| && tiles[k] == a.free[i] && TaggedFree(a.heap, a.free[i])
    ensures t == SplitTiles(tiles, k, sz)
    ensures Inv(SplitArena(a, i, sz), size, t)
    ensures Bytes(SplitArena(a, i, sz).heap, SplitArena(a, i, sz).free) + sz == Bytes(a.heap, a.free)
  {
    k := FreeNode(a, size, tiles, i);
    HeaderSizes(a.mask);
    SplitOutside(a, size, tiles, k, i, sz);
    SplitSpans(a, size, tiles, k, i, sz);
    SplitSeams(a, size, tiles, k, i, sz);
    SplitFree(a, tiles, k, i, sz);
    Rewrite(a, SplitArena(a, i, sz), size, tiles, k, k + 1, [tiles[k], tiles[k] + sz]);
    t := SplitTiles(tiles, k, sz);
  }

  /** The live blocks after the split: the old ones and the front block. */
  lemma SplitHanded(a: Arena, size: nat, tiles: seq<nat>, k: nat, i: nat, sz: nat)
    requires IsLowMask(a.mask) && Tiled(a, size, tiles) && k < |tiles|
    requires i < |a.free| && tiles[k] == a.free[i] && TaggedFree(a.heap, tiles[k])
    requires BS0 <= sz && sz + BS0 <= a.heap[tiles[k]].size
    ensures Handed(a, tiles, SplitArena(a, i, sz), SplitTiles(tiles, k, sz), a.free[i])
  {
    SplitOutside(a, size, tiles, k, i, sz);
    Ordered(a, size, tiles);
    HandedByRewrite(a, SplitArena(a, i, sz), tiles, k, k + 1, [tiles[k], tiles[k] + sz], k, a.free[i]);
  }

  /** Once the walk has chosen node `i`, allocation hands it out whole or
      splits it. */
  lemma AllocResult(a: Arena, n: nat, i: nat)
    requires a.valid
    requires FirstFit(a.heap, a.free, 0, Need(n, a.mask)) == Ok(Some(i))
    ensures i < |a.free| && SizeAt(a.heap, a.free[i]) >= Need(n, a.mask)
    ensures var sz, bs := Need(n, a.mask), BlockHeadSize(a.mask);
            Alloc(a, n) == Ok((if SizeAt(a.heap, a.free[i]) < sz + bs then HandOutArena(a, i) else SplitArena(a, i, sz),
                               Some(a.free[i] + bs)))
  {
    if SizeAt(a.heap, a.free[i]) < Need(n, a.mask) + BlockHeadSize(a.mask) {
      assert Alloc(a, n) == Ok((HandOutArena(a, i), Some(a.free[i] + BlockHeadSize(a.mask))));
    } else {
      assert Alloc(a, n) == Ok((SplitArena(a, i, Need(n, a.mask)), Some(a.free[i] + BlockHeadSize(a.mask))));
    }
  }

  /** What a sound allocation leaves behind, going from `a` under `tiles` to
      `a'` under `t`: on NULL the arena and its tiling unchanged; otherwise an
      aligned payload offset whose block is large enough for `n` bytes, whose
      size is taken off the free bytes, and which is the one block that has
      become live, every other live block keeping its header. */
  ghost predicate Granted(a: Arena, tiles: seq<nat>, a': Arena, t: seq<nat>, p: Option<nat>, n: nat)
  {
    && (p.None? ==> a' == a && t == tiles)
    && (p.Some? ==>
          var b := p.value - BlockHeadSize(a.mask);
          && p.value >= BlockHeadSize(a.mask)
          && p.value % (a.mask + 1) == 0
          && b in a'.heap
          && p.value + n <= b + a'.heap[b].size
          && Bytes(a'.heap, a'.free) + a'.heap[b].size == Bytes(a.heap, a.free)
          && Handed(a, tiles, a', t, b))
  }

  /** A block that has become live, large enough and with its size taken off
      the free bytes, is a sound grant. */
  lemma GrantedFrom(a: Arena, tiles: seq<nat>, a': Arena, t: seq<nat>, b: nat, n: nat)
    requires IsLowMask(a.mask) && b in a'.heap && Handed(a, tiles, a', t, b)
    requires (b + BlockHeadSize(a.mask)) % (a.mask + 1) == 0
    requires a'.heap[b].size >= Need(n, a.mask) >= n + BlockHeadSize(a.mask)
    requires Bytes(a'.heap, a'.free) + a'.heap[b].size == Bytes(a.heap, a.free)
    ensures Granted(a, tiles, a', t, Some(b + BlockHeadSize(a.mask)), n)
  {
  }

  /** Handing out tile `k` whole is a sound grant. */
  lemma WholeGranted(a: Arena, size: nat, tiles: seq<nat>, n: nat, k: nat, i: nat)
    requires IsLowMask(a.mask) && Tiled(a, size, tiles) && k < |tiles|
    requires i < |a.free| && tiles[k] == a.free[i] && TaggedFree(a.heap, tiles[k])
    requires SizeAt(a.heap, a.free[i]) >= Need(n, a.mask)
    requires Bytes(HandOutArena(a, i).heap, HandOutArena(a, i).free) + a.heap[a.free[i]].size == Bytes(a.heap, a.free)
    ensures Granted(a, tiles, HandOutArena(a, i), tiles, Some(a.free[i] + BlockHeadSize(a.mask)), n)
  {
    AllocSizes(a, size, tiles, k, i, n);
    HandOutHanded(a, size, tiles, k, i);
    GrantedFrom(a, tiles, HandOutArena(a, i), tiles, a.free[i], n);
  }

  /** Splitting free-list node `i` at `sz`, the needed size, is a sound
      grant of its front once the front is the one block that has become
      live under `t`. */
  lemma SplitGranted(a: Arena, tiles: seq<nat>, t: seq<nat>, n: nat, i: nat, sz: nat)
    requires IsLowMask(a.mask) && i < |a.free| && (a.free[i] + BlockHeadSize(a.mask)) % (a.mask + 1) == 0
    requires sz == Need(n, a.mask) && SizeAt(a.heap, a.free[i]) >= sz + BlockHeadSize(a.mask)
    requires Bytes(SplitArena(a, i, sz).heap, SplitArena(a, i, sz).free) + sz == Bytes(a.heap, a.free)
    requires Handed(a, tiles, SplitArena(a, i, sz), t, a.free[i])
    ensures Granted(a, tiles, SplitArena(a, i, sz), t, Some(a.free[i] + BlockHeadSize(a.mask)), n)
  {
    NeedSizes(a.mask, n);
    assert SplitArena(a, i, sz).heap[a.free[i]].size == sz;
    GrantedFrom(a, tiles, SplitArena(a, i, sz), t, a.free[i], n);
  }

  /** Handing out node `i` whole keeps the invariant and is a sound grant. */
  lemma WholeCase(a: Arena, size: nat, tiles: seq<nat>, n: nat, i: nat)
    requires Inv(a, size, tiles) && i < |a.free| && SizeAt(a.heap, a.free[i]) >= Need(n, a.mask)
    ensures Inv(HandOutArena(a, i), size, tiles)
    ensures Granted(a, tiles, HandOutArena(a, i), tiles, Some(a.free[i] + BlockHeadSize(a.mask)), n)
  {
    var k := FreeNode(a, size, tiles, i);
    HandOutWhole(a, size, tiles, i);
    WholeGranted(a, size, tiles, n, k, i);
  }

  /** Splitting node `i` at `sz`, the needed size, keeps the invariant under
      the returned tiling and is a sound grant. */
  lemma SplitCase(a: Arena, size: nat, tiles: seq<nat>, n: nat, i: nat, sz: nat) returns (t: seq<nat>)
    requires Inv(a, size, tiles) && i < |a.free|
    requires sz == Need(n, a.mask) && SizeAt(a.heap, a.free[i]) >= sz + BlockHeadSize(a.mask)
    ensures Inv(SplitArena(a, i, sz), size, t)
    ensures Granted(a, tiles, SplitArena(a, i, sz), t, Some(a.free[i] + BlockHeadSize(a.mask)), n)
  {
    NeedSizes(a.mask, n);
    var k;
    k, t := SplitBlock(a, size, tiles, i, sz);
    HeaderSizes(a.mask);
    SplitHanded(a, size, tiles, k, i, sz);
    AllocSizes(a, size, tiles, k, i, n);
    SplitGranted(a, tiles, t, n, i, sz);
  }

  /** Under the invariant allocation never faults; it returns the tiling of
      the new arena, which again satisfies the invariant, and what it hands
      out is a sound grant. */
  lemma AllocKeepsInv(a: Arena, size: nat, tiles: seq<nat>, n: nat) returns (t: seq<nat>)
    requires Inv(a, size, tiles)
    ensures Alloc(a, n).Ok?
    ensures Inv(Alloc(a, n).value.0, size, t)
    ensures Granted(a, tiles, Alloc(a, n).value.0, t, Alloc(a, n).value.1, n)
  {
    FreeListShape(a, size, tiles);
    var sz := Need(n, a.mask);
    var r := FirstFit(a.heap, a.free, 0, sz);
    t := tiles;
    if r.Ok? && r.value.Some? {
      var i := r.value.value;
      AllocResult(a, n, i);
      if SizeAt(a.heap, a.free[i]) < sz + BlockHeadSize(a.mask) {
        WholeCase(a, size, tiles, n, i);
      } else {
        t := SplitCase(a, size, tiles, n, i, sz);
      }
    }
  }

  /** The needed size is aligned, at least a header, and leaves room for
      the `n` bytes asked for after the header. */
  lemma NeedSizes(m: nat, n: nat)
    requires IsLowMask(m)
    ensures Need(n, m) >= BlockHeadSize(m) && Need(n, m) % (m + 1) == 0
    ensures Need(n, m) >= n + BlockHeadSize(m)
  {
    HeaderSizes(m);
    SumOfMultiples(AlignedSize(n, m), BlockHeadSize(m), m + 1);
  }

  /** The arithmetic behind a grant: the needed size as above, and the
      payload of an aligned block is aligned. */
  lemma AllocSizes(a: Arena, size: nat, tiles: seq<nat>, k: nat, i: nat, n: nat)
    requires IsLowMask(a.mask) && Tiled(a, size, tiles) && k < |tiles|
    requires i < |a.free| && tiles[k] == a.free[i]
    ensures Need(n, a.mask) >= BlockHeadSize(a.mask) && Need(n, a.mask) % (a.mask + 1) == 0
    ensures Need(n, a.mask) >= n + BlockHeadSize(a.mask)
    ensures (a.free[i] + BlockHeadSize(a.mask)) % (a.mask + 1) == 0
  {
    NeedSizes(a.mask, n);
    HeaderSizes(a.mask);
    assert a.free[i] % (a.mask + 1) == 0;
    SumOfMultiples(a.free[i], BlockHeadSize(a.mask), a.mask + 1);
  }
}
