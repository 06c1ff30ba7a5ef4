/** Rewriting a window of neighbouring blocks. Handing out, splitting,
    releasing and coalescing all replace the blocks `tiles[p..q]` by a new
    run of blocks `w` covering the same bytes; the lemmas here show once that
    such a rewrite keeps the invariant when the seams are sound. */
module Retile {
  import opened Outcomes
  import opened Align
  import opened Smm
  import opened SmmInvariant

  /** Outside the window `[p, q)` of `tiles`, `h'` holds the same headers as `heap`. */
  ghost predicate SameOutside(heap: map<nat, Header>, h': map<nat, Header>, tiles: seq<nat>, p: nat, q: nat)
  {
    forall j :: 0 <= j < |tiles| && (j < p || q <= j) ==>
      tiles[j] in heap && tiles[j] in h' && h'[tiles[j]] == heap[tiles[j]]
  }

  /** Under the headers of `h'`, the run `w` covers exactly the bytes the
      window `[p, q)` of `tiles` covers in `a`, in aligned blocks of at least
      a header each. */
  ghost predicate Spans(a: Arena, h': map<nat, Header>, tiles: seq<nat>, p: nat, q: nat, w: seq<nat>)
    requires p < q <= |tiles| && tiles[q - 1] in a.heap
  {
    && |w| > 0
    && w[0] == tiles[p]
    && (forall j :: 0 <= j < |w| ==>
          && w[j] in h'
          && h'[w[j]].size >= BlockHeadSize(a.mask)
          && w[j] % (a.mask + 1) == 0)
    && (forall j :: 0 <= j < |w| - 1 ==> w[j] + h'[w[j]].size == w[j + 1])
    && Last(w) + h'[Last(w)].size == tiles[q - 1] + a.heap[tiles[q - 1]].size
  }

  /** A one-block run spans the window when it starts and ends where the window does. */
  lemma SpansOne(a: Arena, h': map<nat, Header>, tiles: seq<nat>, p: nat, q: nat, x: nat)
    requires p < q <= |tiles| && tiles[q - 1] in a.heap
    requires x == tiles[p] && x in h' && h'[x].size >= BlockHeadSize(a.mask) && x % (a.mask + 1) == 0
    requires x + h'[x].size == tiles[q - 1] + a.heap[tiles[q - 1]].size
    ensures Spans(a, h', tiles, p, q, [x])
  {
  }

  /** A two-block run spans the window when its blocks meet and it starts
      and ends where the window does. */
  lemma SpansTwo(a: Arena, h': map<nat, Header>, tiles: seq<nat>, p: nat, q: nat, x: nat, y: nat)
    requires p < q <= |tiles| && tiles[q - 1] in a.heap
    requires x == tiles[p] && x in h' && h'[x].size >= BlockHeadSize(a.mask) && x % (a.mask + 1) == 0
    requires y in h' && h'[y].size >= BlockHeadSize(a.mask) && y % (a.mask + 1) == 0
    requires x + h'[x].size == y
    requires y + h'[y].size == tiles[q - 1] + a.heap[tiles[q - 1]].size
    ensures Spans(a, h', tiles, p, q, [x, y])
  {
  }

  /** Where the elements of the rewritten sequence come from. */
  lemma Positions(tiles: seq<nat>, p: nat, q: nat, w: seq<nat>)
    requires p < q <= |tiles|
    ensures var t' := tiles[..p] + w + tiles[q..];
            && |t'| == |tiles| - (q - p) + |w|
            && (forall j :: 0 <= j < p ==> t'[j] == tiles[j])
            && (forall j :: 0 <= j < |w| ==> t'[p + j] == w[j])
            && (forall j :: q <= j < |tiles| ==> t'[j - q + p + |w|] == tiles[j])
  {
  }

  /** Every block of the rewritten sequence is present, aligned and at least
      a header long. */
  lemma RetileCells(a: Arena, a': Arena, size: nat, tiles: seq<nat>, p: nat, q: nat, w: seq<nat>)
    requires Tiled(a, size, tiles) && p < q <= |tiles|
    requires a'.mask == a.mask
    requires SameOutside(a.heap, a'.heap, tiles, p, q)
    requires Spans(a, a'.heap, tiles, p, q, w)
    ensures Cells(a', tiles[..p] + w + tiles[q..])
  {
    var t': seq<nat> := tiles[..p] + w + tiles[q..];
    Positions(tiles, p, q, w);
    forall j | 0 <= j < |t'|
      ensures t'[j] in a'.heap && a'.heap[t'[j]].size >= BlockHeadSize(a'.mask) && t'[j] % (a'.mask + 1) == 0
    {
      if p <= j < p + |w| {
        assert t'[j] == w[j - p];
      } else if p + |w| <= j {
        assert t'[j] == tiles[j - p - |w| + q];
      }
    }
  }

  /** Each block of the rewritten sequence ends where the next one starts. */
  lemma RetileChain(a: Arena, a': Arena, size: nat, tiles: seq<nat>, p: nat, q: nat, w: seq<nat>)
    requires Tiled(a, size, tiles) && p < q <= |tiles|
    requires SameOutside(a.heap, a'.heap, tiles, p, q)
    requires Spans(a, a'.heap, tiles, p, q, w)
    ensures Chain(a', tiles[..p] + w + tiles[q..])
  {
    var t': seq<nat> := tiles[..p] + w + tiles[q..];
    Positions(tiles, p, q, w);
    forall j | 0 <= j < |t'| - 1
      ensures t'[j] in a'.heap && t'[j] + a'.heap[t'[j]].size == t'[j + 1]
    {
      if j < p - 1 {
        assert t'[j] == tiles[j] && t'[j + 1] == tiles[j + 1];
      } else if j == p - 1 {
        assert t'[j] == tiles[j] && t'[j + 1] == w[0];
      } else if j < p + |w| - 1 {
        assert t'[j] == w[j - p] && t'[j + 1] == w[j - p + 1];
      } else if j == p + |w| - 1 {
        assert t'[j] == Last(w) && t'[j + 1] == tiles[q];
      } else {
        assert t'[j] == tiles[j - p - |w| + q] && t'[j + 1] == tiles[j - p - |w| + q + 1];
      }
    }
  }

  /** The rewritten sequence still starts at the first block and ends at the
      end of the region. */
  lemma RetileEnds(a: Arena, a': Arena, size: nat, tiles: seq<nat>, p: nat, q: nat, w: seq<nat>)
    requires Tiled(a, size, tiles) && p < q <= |tiles|
    requires a'.mask == a.mask
    requires SameOutside(a.heap, a'.heap, tiles, p, q)
    requires Spans(a, a'.heap, tiles, p, q, w)
    ensures var t' := tiles[..p] + w + tiles[q..];
            && |t'| > 0 && t'[0] == HeadSize(a'.mask)
            && Last(t') in a'.heap && Last(t') + a'.heap[Last(t')].size == size
  {
    var t': seq<nat> := tiles[..p] + w + tiles[q..];
    if q == |tiles| {
      assert Last(t') == Last(w);
    } else {
      assert Last(t') == Last(tiles);
    }
    if p == 0 {
      assert t'[0] == w[0];
    } else {
      assert t'[0] == tiles[0];
    }
  }

  lemma RetileTiled(a: Arena, a': Arena, size: nat, tiles: seq<nat>, p: nat, q: nat, w: seq<nat>)
    requires Tiled(a, size, tiles) && p < q <= |tiles|
    requires a'.mask == a.mask
    requires SameOutside(a.heap, a'.heap, tiles, p, q)
    requires Spans(a, a'.heap, tiles, p, q, w)
    ensures Tiled(a', size, tiles[..p] + w + tiles[q..])
  {
    RetileCells(a, a', size, tiles, p, q, w);
    RetileChain(a, a', size, tiles, p, q, w);
    RetileEnds(a, a', size, tiles, p, q, w);
  }

  /** `h1` and `h2` hold the same header for every block in `s`. */
  ghost predicate SameOn(h1: map<nat, Header>, h2: map<nat, Header>, s: seq<nat>)
  {
    forall j :: 0 <= j < |s| ==> s[j] in h1 && s[j] in h2 && h2[s[j]] == h1[s[j]]
  }

  lemma OutsideParts(heap: map<nat, Header>, h': map<nat, Header>, tiles: seq<nat>, p: nat, q: nat)
    requires p < q <= |tiles| && SameOutside(heap, h', tiles, p, q)
    ensures SameOn(heap, h', tiles[..p]) && SameOn(heap, h', tiles[q..])
  {
    assert forall j :: 0 <= j < |tiles| - q ==> tiles[q..][j] == tiles[q + j];
  }

  /** Free starts, and the bytes they hold, depend only on the headers of the
      blocks considered. */
  lemma {:induction false} FreeBytesFrame(h1: map<nat, Header>, h2: map<nat, Header>, s: seq<nat>)
    requires SameOn(h1, h2, s)
    ensures FreeStarts(h1, s) == FreeStarts(h2, s)
    ensures Bytes(h1, FreeStarts(h1, s)) == Bytes(h2, FreeStarts(h2, s))
  {
    if s != [] {
      FreeBytesFrame(h1, h2, s[1..]);
      var head := if TaggedFree(h1, s[0]) then [s[0]] else [];
      BytesAppend(h1, head, FreeStarts(h1, s[1..]));
      BytesAppend(h2, head, FreeStarts(h2, s[1..]));
    }
  }

  lemma RetileCoalesced(heap: map<nat, Header>, h': map<nat, Header>, tiles: seq<nat>, p: nat, q: nat, w: seq<nat>)
    requires Coalesced(heap, tiles) && p < q <= |tiles| && |w| > 0
    requires SameOutside(heap, h', tiles, p, q)
    requires Coalesced(h', w)
    requires p > 0 ==> !(TaggedFree(h', tiles[p - 1]) && TaggedFree(h', w[0]))
    requires q < |tiles| ==> !(TaggedFree(h', Last(w)) && TaggedFree(h', tiles[q]))
    ensures Coalesced(h', tiles[..p] + w + tiles[q..])
  {
    var t': seq<nat> := tiles[..p] + w + tiles[q..];
    Positions(tiles, p, q, w);
    forall j | 0 <= j < |t'| - 1
      ensures !(TaggedFree(h', t'[j]) && TaggedFree(h', t'[j + 1]))
    {
      if j < p - 1 {
        assert t'[j] == tiles[j] && t'[j + 1] == tiles[j + 1];
      } else if j == p - 1 {
        assert t'[j] == tiles[j] && t'[j + 1] == w[0];
      } else if j < p + |w| - 1 {
        assert t'[j] == w[j - p] && t'[j + 1] == w[j - p + 1];
      } else if j == p + |w| - 1 {
        assert t'[j] == Last(w) && t'[j + 1] == tiles[q];
      } else {
        assert t'[j] == tiles[j - p - |w| + q] && t'[j + 1] == tiles[j - p - |w| + q + 1];
      }
    }
  }

  /** The free starts of the rewritten sequence, and of the old one, split at
      the window. */
  lemma {:induction false} RetileFree(heap: map<nat, Header>, h': map<nat, Header>, tiles: seq<nat>, p: nat, q: nat, w: seq<nat>)
    requires p < q <= |tiles| && SameOutside(heap, h', tiles, p, q)
    ensures FreeStarts(h', tiles[..p] + w + tiles[q..])
              == FreeStarts(heap, tiles[..p]) + FreeStarts(h', w) + FreeStarts(heap, tiles[q..])
    ensures FreeStarts(heap, tiles)
              == FreeStarts(heap, tiles[..p]) + FreeStarts(heap, tiles[p..q]) + FreeStarts(heap, tiles[q..])
  {
    OutsideParts(heap, h', tiles, p, q);
    FreeBytesFrame(heap, h', tiles[..p]);
    FreeBytesFrame(heap, h', tiles[q..]);
    FreeStartsAppend(h', tiles[..p] + w, tiles[q..]);
    FreeStartsAppend(h', tiles[..p], w);
    assert tiles == tiles[..p] + tiles[p..q] + tiles[q..];
    FreeStartsAppend(heap, tiles[..p] + tiles[p..q], tiles[q..]);
    FreeStartsAppend(heap, tiles[..p], tiles[p..q]);
  }

  /** Rewriting a window changes the free bytes by what the window's free
      blocks held before and after. */
  lemma {:induction false} RetileBytes(heap: map<nat, Header>, h': map<nat, Header>, tiles: seq<nat>, p: nat, q: nat, w: seq<nat>)
    requires p < q <= |tiles| && SameOutside(heap, h', tiles, p, q)
    ensures Bytes(h', FreeStarts(h', tiles[..p] + w + tiles[q..])) + Bytes(heap, FreeStarts(heap, tiles[p..q]))
              == Bytes(heap, FreeStarts(heap, tiles)) + Bytes(h', FreeStarts(h', w))
  {
    RetileFree(heap, h', tiles, p, q, w);
    OutsideParts(heap, h', tiles, p, q);
    FreeBytesFrame(heap, h', tiles[..p]);
    FreeBytesFrame(heap, h', tiles[q..]);
    var lo, hi := FreeStarts(heap, tiles[..p]), FreeStarts(heap, tiles[q..]);
    BytesAppend(h', lo + FreeStarts(h', w), hi);
    BytesAppend(h', lo, FreeStarts(h', w));
    BytesAppend(heap, lo + FreeStarts(heap, tiles[p..q]), hi);
    BytesAppend(heap, lo, FreeStarts(heap, tiles[p..q]));
  }

  /** Block `y` holds a header tagged allocated in `heap`. */
  ghost predicate AllocatedAt(heap: map<nat, Header>, y: nat)
  {
    y in heap && heap[y].tag == Allocated
  }

  /** Liveness across a rewrite of the window `[p, q)` by the run `w`, when
      `x`, block `m` of the window, is the only block of the window that may
      have been live and the only block of the run that may be live: every
      other block is live afterwards exactly when it was live before, and
      keeps its header; `x` is live afterwards exactly when it belongs to the
      run and is tagged allocated. */
  lemma RewriteLive(a: Arena, a': Arena, tiles: seq<nat>, p: nat, q: nat, w: seq<nat>, m: nat, x: nat)
    requires p <= m < q <= |tiles| && tiles[m] == x
    requires forall i, j :: 0 <= i < j < |tiles| ==> tiles[i] < tiles[j]
    requires SameOutside(a.heap, a'.heap, tiles, p, q)
    requires forall j :: p <= j < q && tiles[j] != x ==> !AllocatedAt(a.heap, tiles[j])
    requires forall j :: 0 <= j < |w| && w[j] != x ==> !AllocatedAt(a'.heap, w[j])
    ensures forall y :: y != x ==> (LiveBlock(a', tiles[..p] + w + tiles[q..], y) <==> LiveBlock(a, tiles, y))
    ensures forall y :: y != x && LiveBlock(a, tiles, y) ==> y in a'.heap && a'.heap[y] == a.heap[y]
    ensures LiveBlock(a', tiles[..p] + w + tiles[q..], x) <==> x in w && AllocatedAt(a'.heap, x)
  {
    var t': seq<nat> := tiles[..p] + w + tiles[q..];
    Positions(tiles, p, q, w);
    forall y | y != x && LiveBlock(a, tiles, y)
      ensures LiveBlock(a', t', y) && a'.heap[y] == a.heap[y]
    {
      var j :| 0 <= j < |tiles| && tiles[j] == y;
      if j < p {
        assert t'[j] == y;
      } else {
        assert q <= j && t'[j - q + p + |w|] == y;
      }
    }
    forall y | LiveBlock(a', t', y)
      ensures y == x || LiveBlock(a, tiles, y)
      ensures y == x ==> x in w
    {
      var j :| 0 <= j < |t'| && t'[j] == y;
      Origin(tiles, p, q, w, j);
    }
    if x in w {
      var j :| 0 <= j < |w| && w[j] == x;
      assert t'[p + j] == x;
    }
  }

  /** Each element of the rewritten sequence comes from below the window,
      from the run, or from above the window. */
  lemma Origin(tiles: seq<nat>, p: nat, q: nat, w: seq<nat>, j: nat)
    requires p < q <= |tiles| && j < |tiles[..p] + w + tiles[q..]|
    ensures var t' := tiles[..p] + w + tiles[q..];
            || (j < p && t'[j] == tiles[j])
            || (p <= j < p + |w| && t'[j] == w[j - p])
            || (p + |w| <= j && q <= j - p - |w| + q < |tiles| && t'[j] == tiles[j - p - |w| + q])
  {
  }

  /** Replacing the window `[p, q)` by a run `w` that spans the same bytes
      keeps the invariant, provided no free block of `w` touches a free block
      at either seam and the free list becomes the free starts below the
      window, those of `w`, and those above; the free bytes change by what
      the window's free blocks held before and after. */
  lemma {:induction false} Rewrite(a: Arena, a': Arena, size: nat, tiles: seq<nat>, p: nat, q: nat, w: seq<nat>)
    requires Inv(a, size, tiles) && p < q <= |tiles|
    requires a'.valid && a'.mask == a.mask
    requires SameOutside(a.heap, a'.heap, tiles, p, q)
    requires Spans(a, a'.heap, tiles, p, q, w)
    requires Coalesced(a'.heap, w)
    requires p > 0 ==> !(TaggedFree(a'.heap, tiles[p - 1]) && TaggedFree(a'.heap, w[0]))
    requires q < |tiles| ==> !(TaggedFree(a'.heap, Last(w)) && TaggedFree(a'.heap, tiles[q]))
    requires a'.free == FreeStarts(a.heap, tiles[..p]) + FreeStarts(a'.heap, w) + FreeStarts(a.heap, tiles[q..])
    ensures Inv(a', size, tiles[..p] + w + tiles[q..])
    ensures Bytes(a'.heap, a'.free) + Bytes(a.heap, FreeStarts(a.heap, tiles[p..q]))
              == Bytes(a.heap, a.free) + Bytes(a'.heap, FreeStarts(a'.heap, w))
  {
    RetileTiled(a, a', size, tiles, p, q, w);
    RetileCoalesced(a.heap, a'.heap, tiles, p, q, w);
    RetileFree(a.heap, a'.heap, tiles, p, q, w);
    RetileBytes(a.heap, a'.heap, tiles, p, q, w);
  }
}
