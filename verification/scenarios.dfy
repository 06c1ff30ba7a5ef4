/** Concrete runs of the allocator: the round trip of the bundled test
    program, and the two release defects on a 256-byte region aligned to 16
    bytes (descriptor 16 bytes, block header 32 bytes), together with a run
    in which a later header write erases the stale tag the first defect
    leaves behind. */
module Scenarios {
  import opened Outcomes
  import opened Align
  import opened Smm
  import opened SmmInvariant
  import opened AllocProofs
  import opened ReleaseProofs

  /** Sizes for a 16-byte alignment. */
  lemma Mask15Sizes()
    ensures IsLowMask(15)
    ensures HeadSize(15) == 16 && BlockHeadSize(15) == 32
    ensures Need(0, 15) == 32 && Need(10, 15) == 48 && Need(16, 15) == 48 && Need(100, 15) == 144
  {
    AlignedSizeRoundsUp(0, 15);
    AlignedSizeRoundsUp(16, 15);
    AlignedSizeRoundsUp(24, 15);
    AlignedSizeRoundsUp(10, 15);
    AlignedSizeRoundsUp(16, 15);
    AlignedSizeRoundsUp(100, 15);
  }

  /** A free list of one block `b` big enough for `n` bytes. */
  ghost predicate OneFreeBlock(a: Arena, b: nat, n: nat)
  {
    && a.valid && IsLowMask(a.mask) && a.free == [b]
    && b in a.heap && a.heap[b].tag == Free && a.heap[b].size >= Need(n, a.mask)
  }

  /** From one free block too small to split, the block is handed out whole
      and released into the then empty free list. */
  lemma WholeTrip(a: Arena, b: nat, n: nat, v: Variant)
    requires OneFreeBlock(a, b, n) && a.heap[b].size < Need(n, a.mask) + BlockHeadSize(a.mask)
    ensures Alloc(a, n) == Ok((HandOutArena(a, 0), Some(b + BlockHeadSize(a.mask))))
    ensures Release(HandOutArena(a, 0), b + BlockHeadSize(a.mask), v) == Ok(Inserted(HandOutArena(a, 0), b, 0))
    ensures Inserted(HandOutArena(a, 0), b, 0).free == [b]
    ensures b in Inserted(HandOutArena(a, 0), b, 0).heap
    ensures Inserted(HandOutArena(a, 0), b, 0).heap[b] == a.heap[b]
  {
    assert FirstFit(a.heap, a.free, 0, Need(n, a.mask)) == Ok(Some(0));
    AllocResult(a, n, 0);
    var a1 := HandOutArena(a, 0);
    assert a1.free == [];
    ReleaseIntoEmpty(a1, b, v);
  }

  /** Releasing block `b` in front of its split-off remainder, the only
      free node, absorbs the remainder. */
  lemma SplitBack(a: Arena, b: nat, sz: nat, v: Variant)
    requires a.valid && a.free == [b + sz] && sz > 0
    requires b in a.heap && a.heap[b] == Header(Allocated, sz) && TaggedFree(a.heap, b + sz)
    ensures Release(a, b + BlockHeadSize(a.mask), v) == Ok(Absorbed(a, b, 0))
    ensures Absorbed(a, b, 0).free == [b]
    ensures b in Absorbed(a, b, 0).heap && Absorbed(a, b, 0).heap[b] == Header(Free, sz + a.heap[b + sz].size)
  {
    assert InsertionPoint(a.heap, a.free, 0, b) == Ok(Before(0));
    ReleaseBefore(a, b, v, 0);
  }

  /** From one free block large enough to split, the front is handed out
      and, released, absorbs the remainder again. */
  lemma SplitTrip(a: Arena, b: nat, n: nat, v: Variant, sz: nat)
    requires OneFreeBlock(a, b, n) && sz == Need(n, a.mask) && sz >= BS0
    requires a.heap[b].size >= sz + BlockHeadSize(a.mask)
    ensures Alloc(a, n) == Ok((SplitArena(a, 0, sz), Some(b + BlockHeadSize(a.mask))))
    ensures Release(SplitArena(a, 0, sz), b + BlockHeadSize(a.mask), v) == Ok(Absorbed(SplitArena(a, 0, sz), b, 0))
    ensures Absorbed(SplitArena(a, 0, sz), b, 0).free == [b]
    ensures b in Absorbed(SplitArena(a, 0, sz), b, 0).heap
    ensures Absorbed(SplitArena(a, 0, sz), b, 0).heap[b] == a.heap[b]
  {
    SplitAlloc(a, b, n, sz);
    SplitBack(SplitArena(a, 0, sz), b, sz, v);
  }

  /** The allocation half of `SplitTrip`. */
  lemma SplitAlloc(a: Arena, b: nat, n: nat, sz: nat)
    requires OneFreeBlock(a, b, n) && sz == Need(n, a.mask) && sz >= BS0
    requires a.heap[b].size >= sz + BlockHeadSize(a.mask)
    ensures Alloc(a, n) == Ok((SplitArena(a, 0, sz), Some(b + BlockHeadSize(a.mask))))
    ensures var a1 := SplitArena(a, 0, sz);
            && a1.valid && a1.mask == a.mask && a1.free == [b + sz]
            && b in a1.heap && a1.heap[b] == Header(Allocated, sz) && TaggedFree(a1.heap, b + sz)
            && a1.heap[b + sz].size == a.heap[b].size - sz
  {
    assert FirstFit(a.heap, a.free, 0, sz) == Ok(Some(0));
    AllocResult(a, n, 0);
    SplitOne(a, b, sz);
  }

  lemma SplitOne(a: Arena, b: nat, sz: nat)
    requires a.free == [b] && b in a.heap && BS0 <= sz <= a.heap[b].size
    ensures var a1 := SplitArena(a, 0, sz);
            && a1.valid == a.valid && a1.mask == a.mask && a1.free == [b + sz]
            && b in a1.heap && a1.heap[b] == Header(Allocated, sz) && b + sz in a1.heap
            && a1.heap[b + sz] == Header(Free, a.heap[b].size - sz)
  {
    assert SplitArena(a, 0, sz).free == [b + sz];
  }

  /** From one free block large enough for `n` bytes, allocating and
      releasing the block restores the free list and the block's header. */
  lemma OneBlockTrip(a: Arena, b: nat, n: nat, v: Variant, m: nat, h: Header)
    requires OneFreeBlock(a, b, n) && a.mask == m && a.heap[b] == h
    ensures var r := Alloc(a, n);
            && r.Ok? && r.value.1 == Some(b + BlockHeadSize(m))
            && var f := Release(r.value.0, b + BlockHeadSize(m), v);
               && f.Ok? && f.value.free == [b] && b in f.value.heap && f.value.heap[b] == h
               && FreeBlockNum(f.value) == Ok(1)
  {
    HeaderSizes(a.mask);
    if a.heap[b].size < Need(n, a.mask) + BlockHeadSize(a.mask) {
      WholeTrip(a, b, n, v);
    } else {
      SplitTrip(a, b, n, v, Need(n, a.mask));
    }
  }

  /** Initialisation leaves one free block spanning the usable region. */
  lemma InitOneBlock(mem: Arena, base: nat, size: nat, mask: nat, n: nat)
    requires IsLowMask(mask) && base % (mask + 1) == 0
    requires size >= HeadSize(mask) + Need(n, mask)
    ensures var (code, a) := Init(mem, base, size, mask);
            && code == 0 && OneFreeBlock(a, HeadSize(mask), n) && a.mask == mask
            && a.heap[HeadSize(mask)] == Header(Free, size - HeadSize(mask))
  {
    InitCodes(mem, base, size, mask);
  }

  /** Allocating one block that fits in the single free block initialisation
      leaves, and releasing it again, restores the arena's free list and the
      block's header: one free block spanning the whole usable region. */
  lemma RoundTrip(a: Arena, size: nat, mask: nat, n: nat, v: Variant)
    requires OneFreeBlock(a, HeadSize(mask), n) && a.mask == mask && size >= HeadSize(mask)
    requires a.heap[HeadSize(mask)] == Header(Free, size - HeadSize(mask))
    ensures var r := Alloc(a, n);
            && r.Ok? && r.value.1 == Some(HeadSize(mask) + BlockHeadSize(mask))
            && var f := Release(r.value.0, HeadSize(mask) + BlockHeadSize(mask), v);
               && f.Ok? && f.value.free == [HeadSize(mask)] && HeadSize(mask) in f.value.heap
               && f.value.heap[HeadSize(mask)] == Header(Free, size - HeadSize(mask))
               && FreeBlockNum(f.value) == Ok(1)
  {
    OneBlockTrip(a, HeadSize(mask), n, v, mask, Header(Free, size - HeadSize(mask)));
  }

  /** The bundled test program's initialisation: a 40960-byte region at an
      offset aligned to 16 bytes becomes one free block of 40944 bytes at
      offset 16, large enough for a 10-byte allocation. */
  lemma TestProgramInit(mem: Arena)
    ensures var (code, a) := Init(mem, 0, 40960, 15);
            && code == 0 && OneFreeBlock(a, 16, 10) && a.mask == 15
            && a.heap[16] == Header(Free, 40944)
  {
    Mask15Sizes();
    InitOneBlock(mem, 0, 40960, 15, 10);
  }

  /** The rest of the bundled test program: one 10-byte allocation at
      payload offset 48, released again. */
  lemma TestProgram(a: Arena, v: Variant)
    requires OneFreeBlock(a, 16, 10) && a.mask == 15 && a.heap[16] == Header(Free, 40944)
    ensures var r := Alloc(a, 10);
            && r.Ok? && r.value.1 == Some(48)
            && var f := Release(r.value.0, 48, v);
               && f.Ok? && f.value.free == [16] && 16 in f.value.heap
               && f.value.heap[16] == Header(Free, 40944)
               && FreeBlockNum(f.value) == Ok(1)
  {
    Mask15Sizes();
    RoundTrip(a, 40960, 15, 10, v);
  }

  // ------------------------------------------------ a 256-byte region

  /** Memory that holds no header inside the region: everything the runs
      below write lies too far below any header of `m` to touch it. */
  ghost predicate Untouched(m: map<nat, Header>)
  {
    forall y :: y in m ==> y >= 256
  }

  /** A header write that overwrites the tag and the size of no other
      header is a plain update. */
  lemma PutFar(heap: map<nat, Header>, x: nat, w: Fields, h: Header)
    requires forall y :: y in heap ==> !Clobbers(x, w, y)
    ensures Put(heap, x, w, h) == heap[x := h]
  {
  }

  /** The region's contents after each step, on top of the memory `m` held
      before initialisation. Offsets are from the region's base; blocks are
      48 bytes for a 16-byte request and 144 bytes for a 100-byte one. */
  function Fresh(m: map<nat, Header>): Arena
  {
    Arena(true, 15, [16], m[16 := Header(Free, 240)])
  }

  /** After three 16-byte allocations: blocks 16, 64 and 112 live, 160 free. */
  function ThreeOut(m: map<nat, Header>): Arena
  {
    Arena(true, 15, [160], m[16 := Header(Allocated, 48)][64 := Header(Allocated, 48)]
                            [112 := Header(Allocated, 48)][160 := Header(Free, 96)])
  }

  /** After releasing the block at 16 again. */
  function FirstBack(m: map<nat, Header>): Arena
  {
    Arena(true, 15, [16, 160], m[16 := Header(Free, 48)][64 := Header(Allocated, 48)]
                                [112 := Header(Allocated, 48)][160 := Header(Free, 96)])
  }

  /** After releasing the block at 64 as well: the node at 16 grew over it.
      As written, the header at 64 keeps its allocated tag. */
  function SecondBack(m: map<nat, Header>, v: Variant): Arena
  {
    Arena(true, 15, [16, 160], m[16 := Header(Free, 96)]
                                [64 := Header(if v == AsWritten then Allocated else Free, 48)]
                                [112 := Header(Allocated, 48)][160 := Header(Free, 96)])
  }

  /** As written, after releasing the block at 64 a second time: it is in
      the free list again, inside the free block at 16. */
  function Doubled(m: map<nat, Header>): Arena
  {
    Arena(true, 15, [16, 64, 160], m[16 := Header(Free, 96)][64 := Header(Free, 48)]
                                    [112 := Header(Allocated, 48)][160 := Header(Free, 96)])
  }

  lemma InitFresh(mem: Arena)
    requires Untouched(mem.heap)
    ensures Init(mem, 0, 256, 15) == (0, Fresh(mem.heap))
  {
    Mask15Sizes();
    InitCodes(mem, 0, 256, 15);
    assert PutDescriptor(mem.heap) == mem.heap;
    PutFar(mem.heap, 16, AllFields, Header(Free, 240));
  }

  /** One 16-byte allocation splits the free block at `b`, of size `s`,
      leaving its remainder free at `b + 48`. */
  lemma AllocFront(a: Arena, b: nat, s: nat)
    requires a.valid && a.mask == 15 && a.free == [b] && b in a.heap && a.heap[b] == Header(Free, s)
    requires s >= 80
    requires forall y :: y in a.heap && y != b ==> y + BS0 <= b || b + 48 + BS0 <= y
    ensures Alloc(a, 16) == Ok((a.(free := [b + 48], heap := a.heap[b + 48 := Header(Free, s - 48)][b := Header(Allocated, 48)]),
                                Some(b + 32)))
  {
    Mask15Sizes();
    assert FirstFit(a.heap, a.free, 0, 48) == Ok(Some(0));
    AllocResult(a, 16, 0);
    assert SplitArena(a, 0, 48).free == [b + 48];
    PutFar(a.heap, b + 48, AllFields, Header(Free, s - 48));
    PutFar(a.heap[b + 48 := Header(Free, s - 48)], b, TagSize, Header(Allocated, 48));
  }

  /** After one 16-byte allocation: block 16 live, 64 free. */
  function OneOut(m: map<nat, Header>): Arena
  {
    Arena(true, 15, [64], m[16 := Header(Allocated, 48)][64 := Header(Free, 192)])
  }

  /** After two 16-byte allocations: blocks 16 and 64 live, 112 free. */
  function TwoOut(m: map<nat, Header>): Arena
  {
    Arena(true, 15, [112], m[16 := Header(Allocated, 48)][64 := Header(Allocated, 48)][112 := Header(Free, 144)])
  }

  /** A header written twice keeps only the second value. */
  lemma Overwritten(m: map<nat, Header>, x: nat, y: nat, h1: Header, h2: Header, h3: Header)
    requires x != y
    ensures m[x := h1][y := h2][x := h3] == m[x := h3][y := h2]
  {
  }

  /** Three 16-byte allocations from the fresh region are placed at payload
      offsets 48, 96 and 144. */
  lemma FirstAlloc(m: map<nat, Header>)
    requires Untouched(m)
    ensures Alloc(Fresh(m), 16) == Ok((OneOut(m), Some(48)))
  {
    AllocFront(Fresh(m), 16, 240);
    Overwritten(m, 16, 64, Header(Free, 240), Header(Free, 192), Header(Allocated, 48));
  }

  lemma SecondAlloc(m: map<nat, Header>)
    requires Untouched(m)
    ensures Alloc(OneOut(m), 16) == Ok((TwoOut(m), Some(96)))
  {
    AllocFront(OneOut(m), 64, 192);
    Overwritten(m[16 := Header(Allocated, 48)], 64, 112, Header(Free, 192), Header(Free, 144), Header(Allocated, 48));
  }

  lemma ThirdAlloc(m: map<nat, Header>)
    requires Untouched(m)
    ensures Alloc(TwoOut(m), 16) == Ok((ThreeOut(m), Some(144)))
  {
    AllocFront(TwoOut(m), 112, 144);
    Overwritten(m[16 := Header(Allocated, 48)][64 := Header(Allocated, 48)], 112, 160,
                Header(Free, 144), Header(Free, 96), Header(Allocated, 48));
  }

  /** Releasing payload 48 puts block 16 at the head of the free list; it
      does not touch the free block at 160. */
  lemma FirstRelease(m: map<nat, Header>, v: Variant)
    requires Untouched(m)
    ensures Release(ThreeOut(m), 48, v) == Ok(FirstBack(m))
  {
    Mask15Sizes();
    var a := ThreeOut(m);
    assert InsertionPoint(a.heap, a.free, 0, 16) == Ok(Before(0));
    ReleaseBefore(a, 16, v, 0);
    assert Inserted(a, 16, 0).free == [16, 160];
    assert Inserted(a, 16, 0).heap == FirstBack(m).heap;
  }

  /** Releasing payload 96: block 64 starts where the free block at 16 ends,
      so that node grows over it. */
  lemma SecondRelease(m: map<nat, Header>, v: Variant)
    requires Untouched(m)
    ensures Release(FirstBack(m), 96, v) == Ok(SecondBack(m, v))
  {
    Mask15Sizes();
    var a := FirstBack(m);
    assert InsertionPoint(a.heap, a.free, 0, 64) == Ok(After(0));
    ReleaseAfter(a, 64, v, 0);
    assert Grown(a, 64, 0, v).heap == SecondBack(m, v).heap;
  }

  /** As written, releasing payload 96 a second time succeeds: the stale
      allocated tag lets block 64 into the free list a second time. */
  lemma DoubleRelease(m: map<nat, Header>)
    requires Untouched(m)
    ensures Release(SecondBack(m, AsWritten), 96, AsWritten) == Ok(Doubled(m))
  {
    Mask15Sizes();
    var a := SecondBack(m, AsWritten);
    assert InsertionPoint(a.heap, a.free, 0, 64) == Ok(Before(1));
    ReleaseBefore(a, 64, AsWritten, 1);
    assert Inserted(a, 64, 1).free == [16, 64, 160];
    assert Inserted(a, 64, 1).heap == Doubled(m).heap;
  }

  /** The doubly released arena lists two overlapping free blocks, so no
      tiling of the region satisfies the invariant. */
  lemma DoubledBroken(m: map<nat, Header>)
    ensures Doubled(m).free[0] + Doubled(m).heap[16].size > Doubled(m).free[1]
    ensures forall t :: !Inv(Doubled(m), 256, t)
  {
    forall t | Inv(Doubled(m), 256, t)
      ensures false
    {
      FreeDisjoint(Doubled(m), 256, t, 0, 1);
    }
  }

  /** Corrected, the merged header is retagged free and the second release
      of payload 96 is refused. */
  lemma CorrectedDoubleRelease(m: map<nat, Header>)
    ensures Release(SecondBack(m, Corrected), 96, Corrected) == Fatal(NotAllocated)
  {
    Mask15Sizes();
  }

  /** As written, after a 0-byte allocation from the arena the first
      release left: it needs 32 bytes, so it splits the free block at 16.
      The remainder's header at 48 reaches over offset 64, where the stale
      header was; only blocks 16 (live), 48 (free), 112 (live) and 160
      (free) remain. */
  function Reused(m: map<nat, Header>): Arena
  {
    Arena(true, 15, [48, 160], m[16 := Header(Allocated, 32)][48 := Header(Free, 64)]
                                [112 := Header(Allocated, 48)][160 := Header(Free, 96)])
  }

  /** The walk stops at the head of the free list when that node fits. */
  lemma FitsFirst(heap: map<nat, Header>, free: seq<nat>, sz: nat)
    requires |free| > 0 && TaggedFree(heap, free[0]) && heap[free[0]].size >= sz
    ensures FirstFit(heap, free, 0, sz) == Ok(Some(0))
  {
  }

  /** The remainder's header at 48 overwrites the tag of the stale header
      at 64 and nothing else. */
  lemma ReusedRemainder(m: map<nat, Header>)
    requires Untouched(m)
    ensures Put(SecondBack(m, AsWritten).heap, 48, AllFields, Header(Free, 64))
            == m[16 := Header(Free, 96)][112 := Header(Allocated, 48)][160 := Header(Free, 96)][48 := Header(Free, 64)]
  {
    UntouchedFar(m, 48, AllFields);
    assert Clobbers(48, AllFields, 64);
  }

  /** The tag and the size written at 16 clobber no other header. */
  lemma ReusedFront(m: map<nat, Header>)
    requires Untouched(m)
    ensures var h1 := m[16 := Header(Free, 96)][112 := Header(Allocated, 48)][160 := Header(Free, 96)][48 := Header(Free, 64)];
            Put(h1, 16, TagSize, Header(Allocated, 32)) == h1[16 := Header(Allocated, 32)]
  {
    UntouchedFar(m, 16, TagSize);
    PutFar(m[16 := Header(Free, 96)][112 := Header(Allocated, 48)][160 := Header(Free, 96)][48 := Header(Free, 64)],
           16, TagSize, Header(Allocated, 32));
  }

  lemma ReusedSplit(m: map<nat, Header>)
    requires Untouched(m)
    ensures SplitArena(SecondBack(m, AsWritten), 0, 32) == Reused(m)
  {
    ReusedRemainder(m);
    ReusedFront(m);
    assert m[16 := Header(Free, 96)][112 := Header(Allocated, 48)][160 := Header(Free, 96)][48 := Header(Free, 64)]
             [16 := Header(Allocated, 32)] == Reused(m).heap;
    assert SplitArena(SecondBack(m, AsWritten), 0, 32).free == [48, 160];
  }

  lemma ZeroAlloc(m: map<nat, Header>)
    requires Untouched(m)
    ensures Alloc(SecondBack(m, AsWritten), 0) == Ok((Reused(m), Some(48)))
  {
    Mask15Sizes();
    var a := SecondBack(m, AsWritten);
    FitsFirst(a.heap, a.free, 32);
    AllocResult(a, 0, 0);
    ReusedSplit(m);
  }

  /** Releasing payload 96 now fails the allocation check, in either
      variant: the header at 64 has been overwritten, so the stale tag no
      longer lets the block back in. */
  lemma StaleTagErased(m: map<nat, Header>, v: Variant)
    requires Untouched(m)
    ensures 64 !in Reused(m).heap
    ensures Release(Reused(m), 96, v) == Fatal(NotAllocated)
  {
    Mask15Sizes();
  }

  /** The free starts among three blocks, read off their tags. */
  lemma FreeStartsOf(heap: map<nat, Header>, x: nat, y: nat, z: nat)
    ensures FreeStarts(heap, [x, y, z])
              == (if TaggedFree(heap, x) then [x] else []) + (if TaggedFree(heap, y) then [y] else [])
                 + (if TaggedFree(heap, z) then [z] else [])
  {
    assert [x, y, z][1..] == [y, z] && [y, z][1..] == [z] && [z][1..] == [];
    assert FreeStarts(heap, [z]) == (if TaggedFree(heap, z) then [z] else []);
    assert FreeStarts(heap, [y, z]) == (if TaggedFree(heap, y) then [y] else []) + FreeStarts(heap, [z]);
  }

  /** Before the second release the arena is consistent: blocks 16 (96
      bytes, free), 112 (live) and 160 (free) tile the region. The header
      left at 64 is no longer the start of a block. */
  lemma SecondBackConsistent(m: map<nat, Header>)
    ensures Inv(SecondBack(m, AsWritten), 256, [16, 112, 160])
  {
    Mask15Sizes();
    var t: seq<nat> := [16, 112, 160];
    FreeStartsOf(SecondBack(m, AsWritten).heap, 16, 112, 160);
    assert t[1..] == [112, 160] && t[2..] == [160];
  }

  // ------------------------------------------------ the stranded release

  /** After a 100-byte allocation takes the last free block whole: the free
      list is empty. */
  function Full(m: map<nat, Header>): Arena
  {
    Arena(true, 15, [], m[16 := Header(Allocated, 48)][64 := Header(Allocated, 48)][112 := Header(Allocated, 144)])
  }

  /** After releasing block 16 again: it is the only free node. */
  function FrontFree(m: map<nat, Header>): Arena
  {
    Arena(true, 15, [16], m[16 := Header(Free, 48)][64 := Header(Allocated, 48)][112 := Header(Allocated, 144)])
  }

  /** Corrected, after releasing block 112 too: it is appended at the tail. */
  function Appended(m: map<nat, Header>): Arena
  {
    Arena(true, 15, [16, 112], m[16 := Header(Free, 48)][64 := Header(Allocated, 48)][112 := Header(Free, 144)])
  }

  /** A 100-byte allocation needs 144 bytes: exactly the free block at 112,
      whose remainder could not hold a header, so it is handed out whole. */
  lemma BigAlloc(m: map<nat, Header>)
    requires Untouched(m)
    ensures Alloc(TwoOut(m), 100) == Ok((Full(m), Some(144)))
  {
    Mask15Sizes();
    var a := TwoOut(m);
    assert FirstFit(a.heap, a.free, 0, 144) == Ok(Some(0));
    AllocResult(a, 100, 0);
    assert HandOutArena(a, 0).free == [];
    assert HandOutArena(a, 0).heap == Full(m).heap;
  }

  lemma FrontRelease(m: map<nat, Header>, v: Variant)
    requires Untouched(m)
    ensures Release(Full(m), 48, v) == Ok(FrontFree(m))
  {
    Mask15Sizes();
    ReleaseIntoEmpty(Full(m), 16, v);
    assert Inserted(Full(m), 16, 0).heap == FrontFree(m).heap;
  }

  /** The arena before the last release is consistent: blocks 16 (free), 64
      and 112 (live) tile the region. */
  lemma FrontFreeConsistent(m: map<nat, Header>)
    ensures Inv(FrontFree(m), 256, [16, 64, 112])
  {
    Mask15Sizes();
    var t: seq<nat> := [16, 64, 112];
    FreeStartsOf(FrontFree(m).heap, 16, 64, 112);
    assert t[1..] == [64, 112] && t[2..] == [112];
  }

  /** As written, releasing payload 144, which lies above the only free
      block and does not touch it, walks off the free list and fails. */
  lemma StrandedRelease(m: map<nat, Header>)
    ensures Release(FrontFree(m), 144, AsWritten) == Fatal(NoInsertionPoint)
  {
    Mask15Sizes();
    var a := FrontFree(m);
    assert InsertionPoint(a.heap, a.free, 0, 112) == Ok(PastEnd);
    ReleasePastEnd(a, 112, AsWritten);
  }

  /** Corrected, the block is appended at the tail of the free list. */
  lemma AppendedRelease(m: map<nat, Header>)
    requires Untouched(m)
    ensures Release(FrontFree(m), 144, Corrected) == Ok(Appended(m))
  {
    Mask15Sizes();
    var a := FrontFree(m);
    assert InsertionPoint(a.heap, a.free, 0, 112) == Ok(PastEnd);
    ReleasePastEnd(a, 112, Corrected);
    assert Inserted(a, 112, 1).free == [16, 112];
    assert Inserted(a, 112, 1).heap == Appended(m).heap;
  }

  /** Corrected, releasing the last live block bridges the two free nodes:
      the whole usable region is one free block again. */
  lemma DrainRelease(m: map<nat, Header>)
    requires Untouched(m)
    ensures var r := Release(Appended(m), 96, Corrected);
            && r.Ok? && r.value.free == [16] && 16 in r.value.heap
            && r.value.heap[16] == Header(Free, 240)
  {
    Mask15Sizes();
    var a := Appended(m);
    assert InsertionPoint(a.heap, a.free, 0, 64) == Ok(After(0));
    ReleaseAfter(a, 64, Corrected, 0);
    assert Bridged(a, 64, 0, Corrected).free == [16];
  }

  /** As written, after a 32-byte allocation from the arena the first
      release left: it needs 64 bytes, so it splits the free block at 16
      with the remainder's header at 80. That header starts past the end of
      the tag and the size of the stale header at 64, so the stale header is
      still there, inside the live block at 16. */
  function Carved(m: map<nat, Header>): Arena
  {
    Arena(true, 15, [80, 160], m[16 := Header(Allocated, 64)][64 := Header(Allocated, 48)]
                                [80 := Header(Free, 32)][112 := Header(Allocated, 48)][160 := Header(Free, 96)])
  }

  /** A header write that ends below offset 256 touches nothing in `m`. */
  lemma UntouchedFar(m: map<nat, Header>, x: nat, w: Fields)
    requires Untouched(m) && x + BS0 <= 256
    ensures forall y :: y in m ==> !Clobbers(x, w, y)
  {
  }

  /** The remainder's header at 80 clobbers neither the stale header at 64
      nor any other. */
  lemma CarvedRemainder(m: map<nat, Header>)
    requires Untouched(m)
    ensures Put(SecondBack(m, AsWritten).heap, 80, AllFields, Header(Free, 32))
            == SecondBack(m, AsWritten).heap[80 := Header(Free, 32)]
  {
    UntouchedFar(m, 80, AllFields);
    PutFar(SecondBack(m, AsWritten).heap, 80, AllFields, Header(Free, 32));
  }

  /** The tag and the size written at 16 clobber no other header. */
  lemma CarvedFront(m: map<nat, Header>)
    requires Untouched(m)
    ensures var h1 := SecondBack(m, AsWritten).heap[80 := Header(Free, 32)];
            Put(h1, 16, TagSize, Header(Allocated, 64)) == h1[16 := Header(Allocated, 64)]
  {
    UntouchedFar(m, 16, TagSize);
    PutFar(SecondBack(m, AsWritten).heap[80 := Header(Free, 32)], 16, TagSize, Header(Allocated, 64));
  }

  /** The two header writes of the split of the free block at 16. */
  lemma CarvedHeap(m: map<nat, Header>)
    requires Untouched(m)
    ensures Put(Put(SecondBack(m, AsWritten).heap, 80, AllFields, Header(Free, 32)), 16, TagSize, Header(Allocated, 64))
            == Carved(m).heap
  {
    CarvedRemainder(m);
    CarvedFront(m);
    assert SecondBack(m, AsWritten).heap[80 := Header(Free, 32)][16 := Header(Allocated, 64)] == Carved(m).heap;
  }

  lemma CarvedSplit(m: map<nat, Header>)
    requires Untouched(m)
    ensures SplitArena(SecondBack(m, AsWritten), 0, 64) == Carved(m)
  {
    CarvedHeap(m);
    assert SplitArena(SecondBack(m, AsWritten), 0, 64).free == [80, 160];
  }

  lemma CarvedAlloc(m: map<nat, Header>)
    requires Untouched(m)
    ensures Alloc(SecondBack(m, AsWritten), 32) == Ok((Carved(m), Some(48)))
  {
    Mask15Sizes();
    AlignedSizeRoundsUp(32, 15);
    assert Need(32, 15) == 64;
    var a := SecondBack(m, AsWritten);
    FitsFirst(a.heap, a.free, 64);
    AllocResult(a, 32, 0);
    CarvedSplit(m);
  }

  /** Releasing payload 96 once more is accepted: the stale tag survived
      the split. The release then writes the `next` link of the header at 64
      over the tag of the free header at 80, so the free list names a block
      whose header is gone. */
  lemma StaleTagSurvives(m: map<nat, Header>)
    requires Untouched(m)
    ensures 64 in Carved(m).heap && Carved(m).heap[64].tag == Allocated
    ensures var r := Release(Carved(m), 96, AsWritten);
            r.Ok? && r.value.free == [64, 80, 160] && 80 !in r.value.heap
  {
    Mask15Sizes();
    var a := Carved(m);
    assert InsertionPoint(a.heap, a.free, 0, 64) == Ok(Before(0));
    ReleaseBefore(a, 64, AsWritten, 0);
    assert Inserted(a, 64, 0).free == [64, 80, 160];
  }
}
