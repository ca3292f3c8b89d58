/**
 The newlib heap and the DMA buffers over one page map.  Both take frames from the same allocator and
 tables from the same tree; neither disturbs what the other one holds.
 */
module SharedMap {
  import opened Machine
  import opened Frames
  import opened PageTables
  import opened Mmu
  import H = NewlibHeap
  import D = Dma
  import W = DmaWindow

  /** A buffer that was handed out: its first page, its number of pages and its first frame. */
  datatype Live = Live(v: nat, n: nat, phys: nat) {
    ghost function Frames(): set<int> {
      Run(phys, n)
    }
  }

  predicate Disjoint(a: Live, b: Live) {
    a.v + a.n <= b.v || b.v + b.n <= a.v
  }

  /** Every live buffer is in place; no two of them share a page or a frame, nor any of them a frame with the heap. */
  ghost predicate Held(root: int, m: Memory, foreign: set<int>, hi: nat, live: set<Live>) {
    && (forall b | b in live :: Placed(root, m, foreign, hi, b))
    && (forall a, b | a in live && b in live && a != b :: Disjoint(a, b) && a.Frames() !! b.Frames())
  }

  ghost predicate Placed(root: int, m: Memory, foreign: set<int>, hi: nat, b: Live) {
    && b.n > 0 && D.FIRST <= b.v && b.v + b.n <= D.LIMIT && D.Buffer(root, m, foreign, b.v, b.n, b.phys)
    && b.Frames() !! H.FramesOf(root, m, H.FIRST, hi)
  }

  lemma Windows()
    ensures D.FIRST < D.LIMIT < H.FIRST < H.LIMIT < PAGES
  {
  }

  /** A buffer stays where its pages, its frames and the frames it has to avoid do. */
  lemma StillPlaced(root: int, m0: Memory, m1: Memory, foreign0: set<int>, foreign1: set<int>, hi0: nat, hi1: nat,
                    b: Live)
    requires Placed(root, m0, foreign0, hi0, b)
    requires forall w: nat | D.FIRST <= w < D.LIMIT && b.v <= w < b.v + b.n :: Pte(root, m1, w) == Pte(root, m0, w)
    requires b.Frames() <= foreign1 && b.Frames() !! H.FramesOf(root, m1, H.FIRST, hi1)
    ensures Placed(root, m1, foreign1, hi1, b)
  {
    hide Pte, Target, H.FramesOf, Run;
  }

  lemma SameFramesOf(root: int, m0: Memory, m1: Memory, lo: nat, hi: nat)
    requires forall w: nat | lo <= w < hi :: Pte(root, m1, w) == Pte(root, m0, w)
    ensures H.FramesOf(root, m1, lo, hi) == H.FramesOf(root, m0, lo, hi)
  {
    hide Pte, Target;
    assert forall w: nat | lo <= w < hi :: H.FrameOf(root, m1, w) == H.FrameOf(root, m0, w);
  }

  lemma FramesOfParts(root: int, m: Memory, lo: nat, mid: nat, hi: nat)
    requires lo <= mid <= hi
    ensures H.FramesOf(root, m, lo, hi) == H.FramesOf(root, m, lo, mid) + H.FramesOf(root, m, mid, hi)
  {
    hide Pte, Target, H.FrameOf;
  }

  /** The frames of the heap's pages are in use. */
  lemma HeapFrames(root: int, m: Memory, end: nat, foreign: set<int>)
    requires H.Laid(root, m, end, foreign)
    ensures H.FramesOf(root, m, H.FIRST, Page(end)) <= foreign
  {
    hide Pte, Target, H.FrameOf;
  }

  /** The heap has grown. */
  lemma HeldByGrowth(root: int, m0: Memory, m1: Memory, p: nat, q: nat, foreign0: set<int>, foreign1: set<int>,
                     live: set<Live>)
    requires H.Grown(root, m0, m1, p, q, foreign0, foreign1) && H.FIRST <= p && q <= H.LIMIT
    requires Held(root, m0, foreign0, p, live)
    ensures Held(root, m1, foreign1, q, live)
  {
    hide Pte, Target, H.FrameOf, H.FramesOf, Run;
    Windows();
    SameFramesOf(root, m0, m1, H.FIRST, p);
    FramesOfParts(root, m1, H.FIRST, p, q);
    forall b | b in live ensures Placed(root, m1, foreign1, q, b) {
      StillPlaced(root, m0, m1, foreign0, foreign1, p, q, b);
    }
  }

  /** The heap has shrunk. */
  lemma HeldByShrinking(root: int, m0: Memory, m1: Memory, p: nat, q: nat, foreign0: set<int>, foreign1: set<int>,
                        live: set<Live>)
    requires H.Shrunk(root, m0, m1, p, q, foreign0, foreign1) && H.FIRST <= p && q <= H.LIMIT
    requires Held(root, m0, foreign0, q, live)
    ensures Held(root, m1, foreign1, p, live)
  {
    hide Pte, Target, H.FrameOf, H.FramesOf, Run;
    Windows();
    SameFramesOf(root, m0, m1, H.FIRST, p);
    FramesOfParts(root, m0, H.FIRST, p, q);
    forall b | b in live ensures Placed(root, m1, foreign1, p, b) {
      StillPlaced(root, m0, m1, foreign0, foreign1, q, p, b);
    }
  }

  /** Whatever happens to pages of the heap, the DMA window is as open as before. */
  lemma OpenBeside(root: int, m0: Memory, m1: Memory, bump: nat)
    requires D.Open(root, m0, bump)
    requires forall w: nat | w < H.FIRST :: Pte(root, m1, w) == Pte(root, m0, w)
    ensures D.Open(root, m1, bump)
  {
    hide Pte;
    Windows();
  }

  /** Whatever happens to pages of the DMA window and to frames that the heap does not hold, the heap is as before. */
  lemma LaidBeside(root: int, m0: Memory, m1: Memory, end: nat, foreign0: set<int>, foreign1: set<int>)
    requires H.Laid(root, m0, end, foreign0)
    requires forall w: nat | H.FIRST <= w < H.LIMIT :: Pte(root, m1, w) == Pte(root, m0, w)
    requires H.FramesOf(root, m0, H.FIRST, Page(end)) <= foreign1
    ensures H.Laid(root, m1, end, foreign1)
  {
    hide Pte, Target;
    var hi := Page(end);
    forall v: nat | H.FIRST <= v < hi ensures Pte(root, m1, v) != 0 && H.FrameOf(root, m1, v) in foreign1 {
      assert H.FrameOf(root, m0, v) in H.FramesOf(root, m0, H.FIRST, hi);
    }
    forall v: nat, w: nat | H.FIRST <= v < w < hi ensures H.FrameOf(root, m1, v) != H.FrameOf(root, m1, w) {
      assert H.FrameOf(root, m0, v) != H.FrameOf(root, m0, w);
    }
  }

  /** A buffer was added. */
  lemma HeldWithOneMore(root: int, m0: Memory, m1: Memory, foreign0: set<int>, foreign1: set<int>, end: nat, b: Live,
                        live: set<Live>)
    requires H.Laid(root, m0, end, foreign0) && Held(root, m0, foreign0, Page(end), live)
    requires b.n > 0 && D.FIRST <= b.v && b.v + b.n <= D.LIMIT && IsUnmapped(root, m0, b.v, b.n)
    requires D.Elsewhere(root, m0, m1, b.v, b.n) && D.Buffer(root, m1, foreign1, b.v, b.n, b.phys)
    requires b.Frames() !! foreign0 && foreign1 == foreign0 + b.Frames()
    ensures H.Laid(root, m1, end, foreign1) && Held(root, m1, foreign1, Page(end), live + {b})
  {
    hide Pte, Target, H.FrameOf, H.FramesOf, H.Laid, Run;
    Windows();
    HeapFrames(root, m0, end, foreign0);
    HeapEnd(root, m0, end, foreign0);
    LaidBeside(root, m0, m1, end, foreign0, foreign1);
    SameFramesOf(root, m0, m1, H.FIRST, Page(end));
    forall a | a in live
      ensures Placed(root, m1, foreign1, Page(end), a) && Disjoint(a, b) && a.Frames() !! b.Frames()
    {
      MappedApart(root, m0, foreign0, a, b.v, b.n);
      StillPlaced(root, m0, m1, foreign0, foreign1, Page(end), Page(end), a);
    }
  }

  lemma HeapEnd(root: int, m: Memory, end: nat, foreign: set<int>)
    requires H.Laid(root, m, end, foreign)
    ensures H.FIRST <= Page(end) <= H.LIMIT
  {
    H.PageBelow(end);
  }

  /** A buffer's pages are mapped, so they meet no range that is not. */
  lemma MappedApart(root: int, m: Memory, foreign: set<int>, a: Live, v: nat, n: nat)
    requires D.Buffer(root, m, foreign, a.v, a.n, a.phys) && IsUnmapped(root, m, v, n) && n > 0 && a.n > 0
    ensures a.v + a.n <= v || v + n <= a.v
  {
    hide Pte, Target, Run;
    var w := if a.v <= v then v else a.v;
    assert a.v <= w < a.v + a.n ==> Pte(root, m, w) != 0;
    assert v <= w < v + n ==> Pte(root, m, w) == 0;
  }

  /** A buffer was freed. */
  lemma HeldWithOneLess(root: int, m0: Memory, m1: Memory, foreign0: set<int>, foreign1: set<int>, end: nat, b: Live,
                        live: set<Live>)
    requires H.Laid(root, m0, end, foreign0) && Held(root, m0, foreign0, Page(end), live) && b in live
    requires Cleared(root, m0, m1, b.v, b.n) && foreign1 == foreign0 - b.Frames()
    ensures H.Laid(root, m1, end, foreign1) && Held(root, m1, foreign1, Page(end), live - {b})
  {
    hide Pte, Target, H.FrameOf, H.FramesOf, H.Laid, Run;
    Windows();
    HeapFrames(root, m0, end, foreign0);
    HeapEnd(root, m0, end, foreign0);
    assert Placed(root, m0, foreign0, Page(end), b);
    LaidBeside(root, m0, m1, end, foreign0, foreign1);
    SameFramesOf(root, m0, m1, H.FIRST, Page(end));
    forall a | a in live - {b} ensures Placed(root, m1, foreign1, Page(end), a) {
      StillPlaced(root, m0, m1, foreign0, foreign1, Page(end), Page(end), a);
    }
  }

  /** No translation differs. */
  lemma HeldAsBefore(root: int, m0: Memory, m1: Memory, foreign: set<int>, end: nat, live: set<Live>)
    requires H.Laid(root, m0, end, foreign) && Held(root, m0, foreign, Page(end), live) && SamePtes(root, m0, m1)
    ensures H.Laid(root, m1, end, foreign) && Held(root, m1, foreign, Page(end), live)
  {
    hide Pte, Target, H.FrameOf, H.FramesOf, H.Laid, Run;
    Windows();
    HeapFrames(root, m0, end, foreign);
    HeapEnd(root, m0, end, foreign);
    LaidBeside(root, m0, m1, end, foreign, foreign);
    SameFramesOf(root, m0, m1, H.FIRST, Page(end));
    forall a | a in live ensures Placed(root, m1, foreign, Page(end), a) {
      StillPlaced(root, m0, m1, foreign, foreign, Page(end), Page(end), a);
    }
  }

  /** Both users of the page map are as they should be, and no buffer is disturbed. */
  ghost predicate Together(heap: H.Heap, buffers: D.Buffers, live: set<Live>)
    reads heap, heap.mmu.pmm.bitmap, heap.mmu`mem, heap.mmu`owner, heap.mmu`foreign
    reads buffers, buffers.mmu.pmm.bitmap, buffers.mmu`mem, buffers.mmu`owner, buffers.mmu`foreign
  {
    && heap.mmu == buffers.mmu && heap.Valid() && buffers.Valid()
    && Held(heap.mmu.l1Table, heap.mmu.mem, heap.mmu.foreign, Page(heap.end), live)
  }

  lemma TogetherParts(heap: H.Heap, buffers: D.Buffers, live: set<Live>)
    requires Together(heap, buffers, live)
    ensures heap.mmu == buffers.mmu && heap.Valid() && buffers.Valid() && heap.mmu.Valid()
    ensures H.Laid(heap.mmu.l1Table, heap.mmu.mem, heap.end, heap.mmu.foreign) && H.BASE <= heap.brk <= heap.end
    ensures Held(heap.mmu.l1Table, heap.mmu.mem, heap.mmu.foreign, Page(heap.end), live)
    ensures D.Open(heap.mmu.l1Table, heap.mmu.mem, buffers.bump)
    ensures H.FIRST <= Page(heap.end) <= H.LIMIT
  {
    H.PageBelow(heap.end);
  }

  lemma TogetherWhole(heap: H.Heap, buffers: D.Buffers, live: set<Live>)
    requires heap.mmu == buffers.mmu && heap.mmu.Valid() && H.BASE <= heap.brk <= heap.end
    requires H.Laid(heap.mmu.l1Table, heap.mmu.mem, heap.end, heap.mmu.foreign)
    requires D.Open(heap.mmu.l1Table, heap.mmu.mem, buffers.bump)
    requires Held(heap.mmu.l1Table, heap.mmu.mem, heap.mmu.foreign, Page(heap.end), live)
    ensures Together(heap, buffers, live)
  {
  }

  lemma HeapHere(heap: H.Heap)
    requires heap.Valid()
    ensures heap.mmu.Valid() && H.BASE <= heap.brk <= heap.end && H.FIRST <= Page(heap.end) <= H.LIMIT
    ensures H.Laid(heap.mmu.l1Table, heap.mmu.mem, heap.end, heap.mmu.foreign)
  {
    H.PageBelow(heap.end);
  }

  lemma BuffersHere(buffers: D.Buffers)
    requires buffers.Valid()
    ensures buffers.mmu.Valid() && D.Open(buffers.mmu.l1Table, buffers.mmu.mem, buffers.bump)
  {
  }

  lemma LowPages(root: int, m0: Memory, m1: Memory, p: nat, q: nat, foreign0: set<int>, foreign1: set<int>)
    requires H.FIRST <= p
    requires H.Grown(root, m0, m1, p, q, foreign0, foreign1) || H.Shrunk(root, m0, m1, p, q, foreign0, foreign1)
    ensures forall w: nat | w < H.FIRST :: Pte(root, m1, w) == Pte(root, m0, w)
  {
    hide Pte, H.FramesOf;
    Windows();
  }

  /** `_sbrk` while buffers are live; below the negated break it takes them away (see `NewlibHeap.Heap.FreeSbrk`). */
  method SbrkBeside(heap: H.Heap, buffers: D.Buffers, ghost live: set<Live>, incr: int) returns (r: nat)
    requires Together(heap, buffers, live) && -0x8000_0000_0000_0000 <= incr < 0x8000_0000_0000_0000
    modifies heap, heap.mmu.pmm.bitmap, heap.mmu`mem, heap.mmu`owner, heap.mmu`foreign
    ensures -(old(heap.brk) as int) <= incr ==> Together(heap, buffers, live)
  {
    hide *;
    TogetherParts(heap, buffers, live);
    ghost var root, m0, foreign0 := heap.mmu.l1Table, heap.mmu.mem, heap.mmu.foreign;
    ghost var p, brk, bump := Page(heap.end), heap.brk, buffers.bump;
    r := heap.Sbrk(incr);
    if -(brk as int) <= incr {
      HeapHere(heap);
      ghost var q := Page(heap.end);
      if incr > 0 {
        HeldByGrowth(root, m0, heap.mmu.mem, p, q, foreign0, heap.mmu.foreign, live);
        LowPages(root, m0, heap.mmu.mem, p, q, foreign0, heap.mmu.foreign);
        OpenBeside(root, m0, heap.mmu.mem, bump);
      } else if H.BASE - brk <= incr < 0 {
        HeldByShrinking(root, m0, heap.mmu.mem, q, p, foreign0, heap.mmu.foreign, live);
        LowPages(root, m0, heap.mmu.mem, q, p, foreign0, heap.mmu.foreign);
        OpenBeside(root, m0, heap.mmu.mem, bump);
      }
      TogetherWhole(heap, buffers, live);
    }
  }

  /** `dma_alloc` beside the heap. */
  method AllocBeside(heap: H.Heap, buffers: D.Buffers, ghost live: set<Live>, size: nat)
    returns (va: nat, ghost phys: nat)
    requires Together(heap, buffers, live) && size < POW64
    modifies buffers, buffers.mmu.pmm.bitmap, buffers.mmu`mem, buffers.mmu`owner, buffers.mmu`foreign
    ensures va == 0 ==> Together(heap, buffers, live)
    ensures va != 0 ==> Together(heap, buffers, live + {Live(Page(va), W.PageCount(size), phys)})
  {
    hide *;
    TogetherParts(heap, buffers, live);
    ghost var root, m0, foreign0, bump := heap.mmu.l1Table, heap.mmu.mem, heap.mmu.foreign, buffers.bump;
    heap.mmu.Parts();
    NotNone(heap.mmu.pmm.Bits(), W.PageCount(size));
    va, phys := buffers.Alloc(size);
    BuffersHere(buffers);
    if va == 0 {
      HeldAsBefore(root, m0, heap.mmu.mem, foreign0, heap.end, live);
      TogetherWhole(heap, buffers, live);
    } else {
      ghost var b := Live(Page(va), W.PageCount(size), phys);
      NewPages(root, m0, heap.mmu.mem, bump, buffers.bump, size);
      FramesAre(b);
      HeldWithOneMore(root, m0, heap.mmu.mem, foreign0, heap.mmu.foreign, heap.end, b, live);
      TogetherWhole(heap, buffers, live + {b});
    }
  }

  lemma NotNone(bits: seq<bool>, n: nat)
    ensures !NoRun(bits, n) ==> n > 0
  {
  }

  lemma FramesAre(b: Live)
    ensures b.Frames() == Run(b.phys, b.n)
  {
  }

  lemma NewPages(root: int, m0: Memory, m1: Memory, bump: nat, bump1: nat, size: nat)
    requires D.Open(root, m0, bump) && D.Open(root, m1, bump1) && bump1 == bump + W.AlignedSize(size)
    ensures Page(bump) + W.PageCount(size) <= D.LIMIT && D.FIRST <= Page(bump)
    ensures IsUnmapped(root, m0, Page(bump), W.PageCount(size))
  {
    D.SizeInPages(bump, size);
    hide Pte;
  }

  /** `dma_free` of a live buffer beside the heap. */
  method FreeBeside(heap: H.Heap, buffers: D.Buffers, ghost live: set<Live>, va: nat, size: nat, ghost b: Live)
    requires Together(heap, buffers, live) && size < POW64 && b in live
    requires IsAligned(va) && b.v == Page(va) && b.n == W.PageCount(size)
    modifies buffers.mmu.pmm.bitmap, buffers.mmu`mem, buffers.mmu`owner, buffers.mmu`foreign
    ensures Together(heap, buffers, live - {b})
  {
    hide *;
    TogetherParts(heap, buffers, live);
    ghost var root, m0, foreign0 := heap.mmu.l1Table, heap.mmu.mem, heap.mmu.foreign;
    LiveBuffer(root, m0, foreign0, Page(heap.end), live, b);
    FramesAre(b);
    buffers.Free(va, size, b.phys);
    BuffersHere(buffers);
    HeldWithOneLess(root, m0, heap.mmu.mem, foreign0, heap.mmu.foreign, heap.end, b, live);
    TogetherWhole(heap, buffers, live - {b});
  }

  lemma LiveBuffer(root: int, m: Memory, foreign: set<int>, hi: nat, live: set<Live>, b: Live)
    requires Held(root, m, foreign, hi, live) && b in live
    ensures D.Buffer(root, m, foreign, b.v, b.n, b.phys) && Pte(root, m, b.v) != 0
  {
    assert Placed(root, m, foreign, hi, b);
  }
}
