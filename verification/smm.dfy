/** The first-fit placement allocator over one caller-supplied region.

    Every position is a byte offset from the region's base. The region's
    contents are modelled as the arena descriptor (`Arena.valid`, `mask`,
    `free`) plus a map from offsets to the block headers written there.
    A header that stops being the start of a block stays in the map with
    whatever tag it last had, as it stays in memory, until a later write
    overwrites its tag or its size (`Put`). The intrusive `next` links of the free list
    are the order of the sequence `free`. */
module Smm {
  import opened Outcomes
  import opened Align

  /** Sizes of the descriptor and of a block header before rounding (LP64). */
  const HS0: nat := 16
  const BS0: nat := 24

  const EINVAL: int := 22
  const ENOMEM: int := 12

  datatype Tag = Free | Allocated

  /** A block header; `size` counts the header itself. */
  datatype Header = Header(tag: Tag, size: nat)

  datatype Arena = Arena(valid: bool, mask: nat, free: seq<nat>, heap: map<nat, Header>)

  /** Aligned size of the descriptor: the first block starts here. */
  function HeadSize(m: nat): nat
  {
    AlignedSize(HS0, m)
  }

  /** Aligned size of a block header: the payload starts this far into a block. */
  function BlockHeadSize(m: nat): nat
  {
    AlignedSize(BS0, m)
  }

  /** Block size needed for a payload of `n` bytes. */
  function Need(n: nat, m: nat): nat
  {
    AlignedSize(n, m) + BlockHeadSize(m)
  }

  predicate TaggedFree(heap: map<nat, Header>, o: nat)
  {
    o in heap && heap[o].tag == Free
  }

  /** Size recorded at `o`; memory holding no header reads as zero. */
  function SizeAt(heap: map<nat, Header>, o: nat): nat
  {
    if o in heap then heap[o].size else 0
  }

  /** The 24-byte header windows at `x` and at `y` intersect. */
  predicate Overlap(x: nat, y: nat)
  {
    x != y && x < y + BS0 && y < x + BS0
  }

  /** Which fields of a header one site of the source writes. Under LP64 the
      `int` tag takes bytes 0..4 of a header, the `size` bytes 8..16 and the
      `next` link bytes 16..24; bytes 4..8 are padding. */
  datatype Fields = Fields(tag: bool, size: bool, next: bool)

  const TagOnly := Fields(true, false, false)
  const SizeOnly := Fields(false, true, false)
  const TagSize := Fields(true, true, false)
  const TagNext := Fields(true, false, true)
  const SizeNext := Fields(false, true, true)
  const AllFields := Fields(true, true, true)

  /** Bytes `[lo, lo + n)` meet the tag or the size of a header at `y`, the
      two fields a release reads from the header in front of its pointer. */
  predicate Meets(lo: nat, n: nat, y: nat)
  {
    (lo < y + 4 && y < lo + n) || (lo < y + 16 && y + 8 < lo + n)
  }

  /** Writing fields `w` of the header at `x` overwrites part of the tag or
      the size of another header at `y`. */
  predicate Clobbers(x: nat, w: Fields, y: nat)
  {
    && x != y
    && ((w.tag && Meets(x, 4, y)) || (w.size && Meets(x + 8, 8, y)) || (w.next && Meets(x + 16, 8, y)))
  }

  /** Memory after writing fields `w` of header `h` at `x`: every other
      header whose tag or size the write overwrites is gone, and all the rest
      stay as they were. */
  function Put(heap: map<nat, Header>, x: nat, w: Fields, h: Header): (r: map<nat, Header>)
    ensures x in r && r[x] == h
    ensures forall y {:trigger y in r} :: y in r <==> y == x || (y in heap && !Clobbers(x, w, y))
    ensures forall y {:trigger r[y]} :: y in r && y != x ==> r[y] == heap[y]
  {
    (map y | y in heap && !Clobbers(x, w, y) :: heap[y])[x := h]
  }

  /** Memory after writing the descriptor at the region's base: the headers
      it overlaps are gone. */
  function PutDescriptor(heap: map<nat, Header>): (r: map<nat, Header>)
    ensures forall y :: y in r <==> y in heap && HS0 <= y
    ensures forall y :: y in r ==> r[y] == heap[y]
  {
    map y | y in heap && HS0 <= y :: heap[y]
  }

  /** Total size of the blocks listed in `s`. */
  function Bytes(heap: map<nat, Header>, s: seq<nat>): nat
  {
    if s == [] then 0 else SizeAt(heap, s[0]) + Bytes(heap, s[1..])
  }

  // ---------------------------------------------------------------- init

  /** `smm_init`: result code and the region's contents afterwards. */
  function Init(mem: Arena, base: nat, size: nat, mask: nat): (r: (int, Arena))
    ensures r.0 == -EINVAL <==> BitAnd(base, mask) != 0
    ensures r.0 == -ENOMEM <==> BitAnd(base, mask) == 0 && size < HeadSize(mask) + BlockHeadSize(mask)
    ensures r.0 != 0 ==> r.1 == mem
    ensures r.0 == 0 || r.0 == -EINVAL || r.0 == -ENOMEM
    ensures r.0 == 0 ==> r.1.valid && r.1.mask == mask && |r.1.free| == 1
  {
    var hs := HeadSize(mask);
    if BitAnd(base, mask) != 0 then (-EINVAL, mem)
    else if size < hs + BlockHeadSize(mask) then (-ENOMEM, mem)
    else (0, Arena(true, mask, [hs], Put(PutDescriptor(mem.heap), hs, AllFields, Header(Free, size - hs))))
  }

  // ---------------------------------------------------------------- alloc

  /** The allocation walk from node `i` on: the index of the first node big
      enough for `sz`, none, or a fault on a node not tagged free. */
  function FirstFit(heap: map<nat, Header>, free: seq<nat>, i: nat, sz: nat): (r: Outcome<Option<nat>>)
    requires i <= |free|
    ensures r.Ok? && r.value.Some? ==>
              var j := r.value.value;
              && i <= j < |free| && TaggedFree(heap, free[j]) && heap[free[j]].size >= sz
              && forall k :: i <= k < j ==> TaggedFree(heap, free[k]) && heap[free[k]].size < sz
    ensures r == Ok(None) ==>
              forall k :: i <= k < |free| ==> TaggedFree(heap, free[k]) && heap[free[k]].size < sz
    ensures r.Fatal? ==> r.fault == BadFreeTag && exists k :: i <= k < |free| && !TaggedFree(heap, free[k])
    decreases |free| - i
  {
    if i == |free| then Ok(None)
    else if !TaggedFree(heap, free[i]) then Fatal(BadFreeTag)
    else if heap[free[i]].size >= sz then Ok(Some(i))
    else FirstFit(heap, free, i + 1, sz)
  }

  /** The arena after handing out free-list node `i` whole. */
  function HandOutArena(a: Arena, i: nat): (r: Arena)
    requires i < |a.free|
    ensures a.free[i] in r.heap && r.heap[a.free[i]] == Header(Allocated, SizeAt(a.heap, a.free[i]))
    ensures |r.free| == |a.free| - 1
  {
    var b := a.free[i];
    a.(heap := Put(a.heap, b, TagOnly, Header(Allocated, SizeAt(a.heap, b))), free := a.free[..i] + a.free[i + 1..])
  }

  /** The arena after splitting free-list node `i` into a live block of `sz`
      bytes and a free remainder that takes its place in the list. */
  function SplitArena(a: Arena, i: nat, sz: nat): (r: Arena)
    requires i < |a.free| && SizeAt(a.heap, a.free[i]) >= sz
    ensures a.free[i] in r.heap && r.heap[a.free[i]] == Header(Allocated, sz)
    ensures sz >= BS0 ==> a.free[i] + sz in r.heap && r.heap[a.free[i] + sz] == Header(Free, SizeAt(a.heap, a.free[i]) - sz)
    ensures |r.free| == |a.free|
  {
    var b := a.free[i];
    a.(heap := Put(Put(a.heap, b + sz, AllFields, Header(Free, SizeAt(a.heap, b) - sz)), b, TagSize, Header(Allocated, sz)),
       free := a.free[..i] + [b + sz] + a.free[i + 1..])
  }

  /** `smm_alloc`: the arena afterwards and the payload offset, or `None`
      (the source's NULL) when no free block is large enough. */
  function Alloc(a: Arena, n: nat): (r: Outcome<(Arena, Option<nat>)>)
    ensures !a.valid <==> r == Fatal(BadArenaTag)
    ensures r.Fatal? && a.valid ==>
              r == Fatal(BadFreeTag) && exists k :: 0 <= k < |a.free| && !TaggedFree(a.heap, a.free[k])
    ensures r.Ok? && r.value.1.None? ==> r.value.0 == a
    ensures r.Ok? && r.value.1.Some? ==>
              var p := r.value.1.value;
              var b := p - BlockHeadSize(a.mask);
              && p >= BlockHeadSize(a.mask) && b in a.free
              && b in r.value.0.heap && r.value.0.heap[b].tag == Allocated
              && r.value.0.heap[b].size >= Need(n, a.mask)
              && |a.free| - 1 <= |r.value.0.free| <= |a.free|
  {
    var bs := BlockHeadSize(a.mask);
    var sz := Need(n, a.mask);
    if !a.valid then Fatal(BadArenaTag)
    else match FirstFit(a.heap, a.free, 0, sz)
      case Fatal(f) => Fatal(f)
      case Ok(None) => Ok((a, None))
      case Ok(Some(i)) =>
        if SizeAt(a.heap, a.free[i]) < sz + bs then
          // the remainder could not hold a header: hand out the whole block
          Ok((HandOutArena(a, i), Some(a.free[i] + bs)))
        else
          // split: the free remainder takes the block's place in the list
          Ok((SplitArena(a, i, sz), Some(a.free[i] + bs)))
  }

  // ---------------------------------------------------------------- free

  /** Where the release walk stopped: at the first node above the released
      header, at a node that ends exactly where it starts, or past the end. */
  datatype Spot = Before(i: nat) | After(i: nat) | PastEnd

  /** Every node in `free[i..j]` is tagged free, lies at or below `c` and
      does not end at `c`: the walk goes on past all of them. */
  predicate Passed(heap: map<nat, Header>, free: seq<nat>, i: nat, j: nat, c: nat)
    requires i <= j <= |free|
  {
    forall k :: i <= k < j ==> TaggedFree(heap, free[k]) && free[k] <= c && free[k] + heap[free[k]].size != c
  }

  /** The release walk from node `i` on, for the header at `c`. */
  function InsertionPoint(heap: map<nat, Header>, free: seq<nat>, i: nat, c: nat): (r: Outcome<Spot>)
    requires i <= |free|
    ensures r.Ok? && r.value.Before? ==>
              var j := r.value.i;
              i <= j < |free| && TaggedFree(heap, free[j]) && c < free[j] && Passed(heap, free, i, j, c)
    ensures r.Ok? && r.value.After? ==>
              var j := r.value.i;
              && i <= j < |free| && TaggedFree(heap, free[j]) && free[j] <= c
              && free[j] + heap[free[j]].size == c && Passed(heap, free, i, j, c)
    ensures r == Ok(PastEnd) ==> Passed(heap, free, i, |free|, c)
    ensures r.Fatal? ==> r.fault == BadFreeTag && exists k :: i <= k < |free| && !TaggedFree(heap, free[k])
    decreases |free| - i
  {
    if i == |free| then Ok(PastEnd)
    else if !TaggedFree(heap, free[i]) then Fatal(BadFreeTag)
    else if c < free[i] then Ok(Before(i))
    else if free[i] + heap[free[i]].size == c then Ok(After(i))
    else InsertionPoint(heap, free, i + 1, c)
  }

  /** `AsWritten` is the release routine as the source has it; `Corrected`
      differs in two places: a header merged into its predecessor is retagged
      free, and a block above every free block is appended at the tail. */
  datatype Variant = AsWritten | Corrected

  /** Block `c` linked in unmerged at position `i` of the free list. */
  function Inserted(a: Arena, c: nat, i: nat): Arena
    requires i <= |a.free|
  {
    a.(free := a.free[..i] + [c] + a.free[i..], heap := Put(a.heap, c, TagNext, Header(Free, SizeAt(a.heap, c))))
  }

  /** Block `c` absorbing node `i`, its successor, and taking its place. */
  function Absorbed(a: Arena, c: nat, i: nat): Arena
    requires i < |a.free|
  {
    a.(free := a.free[..i] + [c] + a.free[i + 1..],
       heap := Put(a.heap, c, AllFields, Header(Free, SizeAt(a.heap, c) + SizeAt(a.heap, a.free[i]))))
  }

  /** The headers before the predecessor grows over block `c`: as written the
      header of `c` keeps its allocated tag; corrected it is tagged free. */
  function Retagged(a: Arena, c: nat, v: Variant): map<nat, Header>
  {
    if v == Corrected then Put(a.heap, c, TagOnly, Header(Free, SizeAt(a.heap, c))) else a.heap
  }

  /** Node `i` growing over block `c`. */
  function Grown(a: Arena, c: nat, i: nat, v: Variant): Arena
    requires i < |a.free|
  {
    var f := a.free[i];
    a.(heap := Put(Retagged(a, c, v), f, SizeOnly, Header(Free, SizeAt(a.heap, f) + SizeAt(a.heap, c))))
  }

  /** Node `i` growing over block `c` and node `i + 1` behind it. */
  function Bridged(a: Arena, c: nat, i: nat, v: Variant): Arena
    requires i + 1 < |a.free|
  {
    var f, g := a.free[i], a.free[i + 1];
    a.(free := a.free[..i + 1] + a.free[i + 2..],
       heap := Put(Retagged(a, c, v), f, SizeNext, Header(Free, SizeAt(a.heap, f) + SizeAt(a.heap, c) + SizeAt(a.heap, g))))
  }

  /** `smm_free`: release the block whose payload starts at `p`. */
  function Release(a: Arena, p: nat, v: Variant): (r: Outcome<Arena>)
    ensures !a.valid ==> r == Fatal(BadArenaTag)
    ensures a.valid ==>
              (r == Fatal(NotAllocated) <==>
                 var c := p - BlockHeadSize(a.mask);
                 p < BlockHeadSize(a.mask) || c !in a.heap || a.heap[c].tag != Allocated)
    ensures r.Ok? ==> r.value.valid == a.valid && r.value.mask == a.mask
    ensures r.Ok? ==> |a.free| - 1 <= |r.value.free| <= |a.free| + 1
    ensures r.Ok? && a.free == [] ==> r.value.free == [p - BlockHeadSize(a.mask)]
  {
    var bs := BlockHeadSize(a.mask);
    if !a.valid then Fatal(BadArenaTag)
    else if p < bs || p - bs !in a.heap || a.heap[p - bs].tag != Allocated then Fatal(NotAllocated)
    else
      var c := p - bs;
      if a.free == [] then
        Ok(Inserted(a, c, 0))
      else match InsertionPoint(a.heap, a.free, 0, c)
        case Fatal(f) => Fatal(f)
        case Ok(at) => Link(a, c, at, v)
  }

  /** The second half of `smm_free`: link the released block `c` into the
      non-empty free list at the spot the walk stopped. */
  function Link(a: Arena, c: nat, at: Spot, v: Variant): (r: Outcome<Arena>)
    requires c in a.heap
    requires (at.Before? || at.After?) ==> at.i < |a.free|
    ensures r.Ok? || (v == AsWritten && at.PastEnd? && r == Fatal(NoInsertionPoint))
    ensures r.Ok? ==> r.value.valid == a.valid && r.value.mask == a.mask
    ensures r.Ok? ==> |a.free| - 1 <= |r.value.free| <= |a.free| + 1
  {
    match at
      case Before(i) =>
        if c + a.heap[c].size == a.free[i] then
          // forward merge: the released block absorbs its successor
          Ok(Absorbed(a, c, i))
        else
          Ok(Inserted(a, c, i))
      case After(i) =>
        // backward merge: the predecessor absorbs the released block, and
        // the node after it too when that starts where the merged block ends
        var f := a.free[i];
        var grown := SizeAt(a.heap, f) + a.heap[c].size;
        if i + 1 < |a.free| && f + grown == a.free[i + 1] then Ok(Bridged(a, c, i, v))
        else Ok(Grown(a, c, i, v))
      case PastEnd =>
        if v == AsWritten then Fatal(NoInsertionPoint)
        else Ok(Inserted(a, c, |a.free|))
  }

  /** `smm_realloc`: never supported. */
  function Realloc(a: Arena, p: nat, n: nat): (r: Outcome<(Arena, Option<nat>)>)
    ensures r.Fatal? && r.fault == ReallocUnsupported
  {
    Fatal(ReallocUnsupported)
  }

  // ---------------------------------------------------------------- count

  /** The counting walk from node `i` on. */
  function CountFree(heap: map<nat, Header>, free: seq<nat>, i: nat): (r: Outcome<nat>)
    requires i <= |free|
    ensures r.Ok? <==> forall k :: i <= k < |free| ==> TaggedFree(heap, free[k])
    ensures r.Ok? ==> r.value == |free| - i
    ensures r.Fatal? ==> r.fault == BadFreeTag
    decreases |free| - i
  {
    if i == |free| then Ok(0)
    else if !TaggedFree(heap, free[i]) then Fatal(BadFreeTag)
    else match CountFree(heap, free, i + 1)
      case Ok(k) => Ok(k + 1)
      case Fatal(f) => Fatal(f)
  }

  /** `smm_get_freeblock_num`: the length of the free list. */
  function FreeBlockNum(a: Arena): (r: Outcome<nat>)
    ensures r.Ok? <==> a.valid && forall k :: 0 <= k < |a.free| ==> TaggedFree(a.heap, a.free[k])
    ensures r.Ok? ==> r.value == |a.free|
  {
    if !a.valid then Fatal(BadArenaTag) else CountFree(a.heap, a.free, 0)
  }
}
