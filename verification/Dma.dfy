/** `dma_alloc` and `dma_free`: a contiguous run of frames mapped at a reserved range. */
module Dma {
  import opened Machine
  import opened Frames
  import opened PageTables
  import opened Mmu
  import W = DmaWindow

  const PTE_NORMAL_NC_RW: nat := 0x60B
  /** The pages of the window. */
  const FIRST: nat := Page(W.DMA_BASE)
  const LIMIT: nat := Page(W.DMA_BASE + W.DMA_MAX_SIZE)

  /** The window as `dma_alloc` finds it: no page from the bump pointer on is mapped. */
  ghost predicate Open(root: int, m: Memory, bump: nat) {
    && W.DMA_BASE <= bump <= W.DMA_BASE + W.DMA_MAX_SIZE && IsAligned(bump) && Page(bump) <= LIMIT
    && IsUnmapped(root, m, Page(bump), LIMIT - Page(bump))
  }

  /** A live buffer: its pages lead to a run of frames that are in use, with the flags of uncached memory. */
  ghost predicate Buffer(root: int, m: Memory, foreign: set<int>, v: nat, n: nat, phys: nat) {
    && IsAligned(phys) && phys + n * 4096 <= PHYS_LIMIT && v + n <= PAGES && Run(phys, n) <= foreign
    && (forall w: nat | v <= w < v + n :: Pte(root, m, w) != 0 && Target(Pte(root, m, w)) == FrameAt(phys, w - v))
    && (forall w: nat | v <= w < v + n :: Pte(root, m, w) % 4096 == 0x60B)
  }

  /** Every byte of a buffer is found at its distance from the first frame. */
  lemma BufferTranslates(root: int, m: Memory, foreign: set<int>, va: nat, n: nat, phys: nat, size: nat)
    requires Buffer(root, m, foreign, Page(va), n, phys) && IsAligned(va) && size <= n * 4096
    ensures forall a: nat | va <= a < va + size :: Translation(root, m, a) == phys + (a - va)
  {
    hide Pte, Target;
    forall a: nat | va <= a < va + size ensures Translation(root, m, a) == phys + (a - va) {
      var w := Page(a);
      assert Page(va) <= w < Page(va) + n && a % 4096 == a - va - (w - Page(va)) * 4096;
      assert FrameAt(phys, w - Page(va)) == phys + (w - Page(va)) * 4096;
      TranslationIs(root, m, a);
    }
  }

  /** The pages of a size that some frames were found for are as many as it needs. */
  lemma PagesHold(size: nat)
    requires size < POW64 && W.PageCount(size) > 0
    ensures size <= W.PageCount(size) * 4096 < size + 4096
  {
  }

  lemma WindowIs(bump: nat, size: nat)
    requires bump + W.AlignedSize(size) < POW64
    ensures W.DMA_BASE == 0x1_4000_0000
    ensures W.Fits(bump, W.AlignedSize(size)) <==> bump + W.AlignedSize(size) <= 0x1_4010_0000
  {
  }

  lemma BufferIsUncached(root: int, m: Memory, foreign: set<int>, v: nat, n: nat, phys: nat)
    requires Buffer(root, m, foreign, v, n, phys)
    ensures OfKind(root, m, v, n, 2)
  {
    KindOf(root, m, v, n, 0x60B);
  }

  lemma SizeInPages(bump: nat, size: nat)
    requires bump + W.AlignedSize(size) < POW64
    ensures W.BumpAfterReserve(bump, W.AlignedSize(size)) == bump + W.AlignedSize(size)
    ensures W.AlignedSize(size) == W.PageCount(size) * 4096 && Page(W.AlignedSize(size)) == W.PageCount(size)
    ensures IsAligned(bump) ==> IsAligned(bump + W.AlignedSize(size))
    ensures IsAligned(bump) ==> Page(bump + W.AlignedSize(size)) == Page(bump) + W.PageCount(size)
  {
    var n := W.PageCount(size);
    assert n * 4096 < POW64;
    PageOf(bump, n);
    PageOf(0, n);
  }

  /** A size that memory has frames for does not wrap. */
  lemma RunFits(bump: nat, size: nat, phys: nat)
    requires bump <= W.DMA_BASE + W.DMA_MAX_SIZE && phys + W.PageCount(size) * 4096 <= PHYS_LIMIT
    ensures bump + W.AlignedSize(size) < POW64
  {
  }

  lemma OpenRoom(root: int, m: Memory, bump: nat, size: nat)
    requires Open(root, m, bump) && bump + W.AlignedSize(size) < POW64
    requires W.Fits(bump, W.AlignedSize(size))
    ensures Page(bump) + Page(W.AlignedSize(size)) <= LIMIT < PAGES
    ensures bump + W.AlignedSize(size) <= W.DMA_BASE + W.DMA_MAX_SIZE
    ensures IsUnmapped(root, m, Page(bump), Page(W.AlignedSize(size)))
    ensures PTE_NORMAL_NC_RW < 4096 && bump > 0
  {
    SizeInPages(bump, size);
    var end := bump + W.AlignedSize(size);
    assert Page(end) <= LIMIT;
  }

  /** A mapped run of frames is a buffer, and the rest of the window stays open. */
  lemma BuiltBuffer(root: int, m0: Memory, owner0: Owners, m1: Memory, owner1: Owners, foreign: set<int>,
                    bump: nat, size: nat, phys: nat)
    requires Open(root, m0, bump) && bump + W.AlignedSize(size) < POW64 && W.Fits(bump, W.AlignedSize(size))
    requires IsAligned(phys) && phys + W.PageCount(size) * 4096 <= PHYS_LIMIT
    requires Run(phys, W.PageCount(size)) <= foreign
    requires Built(root, m0, owner0, m1, owner1, Page(bump), Page(W.AlignedSize(size)), phys, PTE_NORMAL_NC_RW)
    ensures Buffer(root, m1, foreign, Page(bump), W.PageCount(size), phys)
    ensures Open(root, m1, bump + W.AlignedSize(size))
  {
    SizeInPages(bump, size);
    OpenRoom(root, m0, bump, size);
    var v, n := Page(bump), W.PageCount(size);
    forall w: nat | v <= w < v + n
      ensures Pte(root, m1, w) != 0 && Target(Pte(root, m1, w)) == FrameAt(phys, w - v)
      ensures Pte(root, m1, w) % 4096 == 0x60B
    {
      assert Pte(root, m1, w) == PageDescriptor(FrameAt(phys, w - v), PTE_NORMAL_NC_RW);
      DescriptorFields(FrameAt(phys, w - v), PTE_NORMAL_NC_RW);
    }
    OpenAfter(root, m0, m1, v, n);
  }

  lemma OpenAfter(root: int, m0: Memory, m1: Memory, v: nat, n: nat)
    requires v + n <= LIMIT && IsUnmapped(root, m0, v, LIMIT - v)
    requires forall w: nat | w < PAGES && !(v <= w < v + n) :: Pte(root, m1, w) == Pte(root, m0, w)
    ensures IsUnmapped(root, m1, v + n, LIMIT - (v + n))
  {
    hide Pte;
  }

  lemma BufferPages(root: int, m: Memory, foreign: set<int>, v: nat, n: nat, phys: nat)
    requires Buffer(root, m, foreign, v, n, phys)
    ensures IsMapped(root, m, v, n)
    ensures forall i: nat | i < n :: phys + i * 4096 in foreign
  {
    forall i: nat | i < n ensures phys + i * 4096 in foreign {
      InRun(phys, n, i);
    }
  }

  lemma RunOneMore(phys: nat, i: nat)
    ensures Run(phys, i + 1) == Run(phys, i) + {phys + i * 4096}
    ensures phys + i * 4096 !in Run(phys, i)
    ensures Run(phys, 0) == {}
  {
    InRun(phys, i + 1, i);
  }

  lemma NotYet(phys: nat, i: nat, n: nat, foreign: set<int>)
    requires Run(phys, n) <= foreign && i < n
    ensures phys + i * 4096 in foreign - Run(phys, i)
  {
    InRun(phys, n, i);
    InRun(phys, i, i);
  }

  lemma OpenBump(root: int, m: Memory, bump: nat)
    requires Open(root, m, bump)
    ensures W.DMA_BASE <= bump <= W.DMA_BASE + W.DMA_MAX_SIZE && IsAligned(bump) && bump % 4096 == 0
  {
  }

  lemma PagesFit(va: nat, size: nat)
    requires Page(va) + W.PageCount(size) <= PAGES
    ensures va + W.AlignedSize(size) < POW64
  {
  }

  lemma RunInside(foreign: set<int>, phys: nat, n: nat)
    requires Run(phys, n) !! foreign
    ensures Run(phys, n) <= foreign + Run(phys, n) && foreign + Run(phys, n) - Run(phys, n) == foreign
    ensures foreign <= foreign + Run(phys, n)
  {
    hide Run;
  }

  lemma ReclaimUndoes(va: nat, size: nat)
    ensures W.BumpAfterReclaim(W.BumpAfterReserve(va, W.AlignedSize(size)), va, W.AlignedSize(size)) == va
  {
  }

  lemma OpenAsBefore(root: int, m0: Memory, m1: Memory, bump: nat)
    requires Open(root, m0, bump) && SamePtes(root, m0, m1)
    ensures Open(root, m1, bump)
  {
    hide Pte;
  }

  /** No page outside a range is translated differently. */
  ghost predicate Elsewhere(root: int, m0: Memory, m1: Memory, v: nat, n: nat) {
    forall w: nat | w < PAGES && !(v <= w < v + n) :: Pte(root, m1, w) == Pte(root, m0, w)
  }

  lemma NothingElsewhere(root: int, m: Memory, foreign: set<int>)
    ensures SamePtes(root, m, m) && SameFrames(foreign, m, m)
  {
  }

  lemma BuiltElsewhere(root: int, m0: Memory, owner0: Owners, m1: Memory, owner1: Owners,
                       va: nat, size: nat, phys: nat)
    requires IsAligned(phys) && va + W.AlignedSize(size) < POW64
    requires Built(root, m0, owner0, m1, owner1, Page(va), Page(W.AlignedSize(size)), phys, PTE_NORMAL_NC_RW)
    ensures Elsewhere(root, m0, m1, Page(va), W.PageCount(size))
  {
    SizeInPages(va, size);
    hide Pte;
  }

  /** A buffer that is freed again leaves every translation and the set of frames in use as they were. */
  lemma AllocThenFree(root: int, m0: Memory, m1: Memory, m2: Memory, v: nat, n: nat,
                      foreign0: set<int>, foreign1: set<int>, foreign2: set<int>, phys: nat)
    requires v + n <= PAGES && IsUnmapped(root, m0, v, n)
    requires Elsewhere(root, m0, m1, v, n) && Run(phys, n) !! foreign0 && foreign1 == foreign0 + Run(phys, n)
    requires Cleared(root, m1, m2, v, n) && foreign2 == foreign1 - Run(phys, n)
    ensures SamePtes(root, m0, m2) && foreign2 == foreign0
  {
    hide Pte, Run;
    RunInside(foreign0, phys, n);
    forall w: nat | w < PAGES ensures Pte(root, m2, w) == Pte(root, m0, w) {
      assert Pte(root, m2, w) == if v <= w < v + n then 0 else Pte(root, m1, w);
    }
  }

  lemma OpenAfterClear(root: int, m0: Memory, m1: Memory, bump: nat, v: nat, n: nat)
    requires Open(root, m0, bump) && Cleared(root, m0, m1, v, n)
    ensures Open(root, m1, bump)
  {
    hide Pte;
  }

  lemma FirstFrame(root: int, m: Memory, foreign: set<int>, va: nat, n: nat, phys: nat)
    requires Buffer(root, m, foreign, Page(va), n, phys) && IsAligned(va)
    ensures n > 0 ==> Translation(root, m, va) == phys
    ensures Run(phys, n) <= foreign && IsMapped(root, m, Page(va), n) && Page(va) + n <= PAGES
  {
    BufferPages(root, m, foreign, Page(va), n, phys);
    if n > 0 {
      assert FrameAt(phys, 0) == phys;
      assert Target(Pte(root, m, Page(va))) == phys;
    }
  }

  /** The sentinel is no physical address. */
  lemma TranslatesOrNot(root: int, m: Memory, va: nat)
    ensures Pte(root, m, Page(va)) == 0 <==> Translation(root, m, va) == NO_TRANSLATION
  {
    hide Pte;
  }

  class Buffers {
    const mmu: PageMap
    var bump: nat

    ghost predicate Valid()
      reads this, mmu.pmm.bitmap, mmu`mem, mmu`owner, mmu`foreign
    {
      mmu.Valid() && Open(mmu.l1Table, mmu.mem, bump)
    }

    lemma Parts()
      requires Valid()
      ensures mmu.Valid() && Open(mmu.l1Table, mmu.mem, bump) && mmu.pmm.Layout()
    {
    }

    lemma Whole()
      requires mmu.Valid() && Open(mmu.l1Table, mmu.mem, bump)
      ensures Valid()
    {
    }

    constructor (mmu: PageMap)
      requires mmu.Valid() && IsUnmapped(mmu.l1Table, mmu.mem, FIRST, LIMIT - FIRST)
      ensures Valid() && this.mmu == mmu && bump == 0x1_4000_0000
    {
      this.mmu, bump := mmu, W.DMA_BASE;
    }

    /** The section of `dma_alloc` under `dma_lock`; `ok` is false when the window is used up. */
    method Reserve(size: nat) returns (ok: bool, va: nat)
      requires size < POW64
      modifies this`bump
      ensures ok == W.Fits(old(bump), W.AlignedSize(size))
      ensures va == old(bump) && bump == if ok then W.BumpAfterReserve(va, W.AlignedSize(size)) else va
    {
      va := bump;
      var alignedSize := W.AlignedSize(size);
      if (bump + alignedSize) % POW64 > W.DMA_BASE + W.DMA_MAX_SIZE {
        return false, va;
      }
      bump := (bump + alignedSize) % POW64;
      ok := true;
    }

    /** `_dma_reclaim_va`. */
    method Reclaim(va: nat, size: nat)
      modifies this`bump
      ensures bump == W.BumpAfterReclaim(old(bump), va, W.AlignedSize(size))
    {
      if bump == (va + W.AlignedSize(size)) % POW64 {
        bump := va;
      }
    }

    /** A call of `dma_alloc` would leave a table with nothing in it. */
    ghost predicate LosesFrame(size: nat)
      requires mmu.pmm.Layout()
      reads this`bump, mmu.pmm.bitmap, mmu`mem
    {
      var n := W.PageCount(size);
      && W.Fits(bump, W.AlignedSize(size)) && !NoRun(mmu.pmm.Bits(), n)
      && TableStays(mmu.l1Table, mmu.mem, Page(bump), n, mmu.FreeCount() - n)
    }

    lemma LosesFrameIs(size: nat)
      requires mmu.pmm.Layout()
      ensures var n := W.PageCount(size);
              LosesFrame(size) <==>
                && W.Fits(bump, W.AlignedSize(size)) && !NoRun(mmu.pmm.Bits(), n)
                && TableStays(mmu.l1Table, mmu.mem, Page(bump), n, mmu.FreeCount() - n)
    {
    }

    /** The loops that free a run of frames. */
    method FreeRun(phys: nat, n: nat)
      requires mmu.Valid() && Run(phys, n) <= mmu.foreign
      modifies mmu.pmm.bitmap, mmu`foreign
      ensures mmu.Valid() && mmu.foreign == old(mmu.foreign) - Run(phys, n)
    {
      hide *;
      ghost var foreign := mmu.foreign;
      RunOneMore(phys, 0);
      for i := 0 to n
        invariant mmu.Valid() && mmu.foreign == foreign - Run(phys, i)
      {
        NotYet(phys, i, n, foreign);
        RunOneMore(phys, i);
        mmu.Parts();
        mmu.GiveFrame(phys + i * 4096);
      }
    }

    /**
      * `dma_alloc`: a buffer of frames that nobody held, mapped at the reserved range, or nothing at all:
      * a failed call loses no address, keeps no frame for the buffer and changes no translation. It fails exactly when
      * the window has no room, memory has no run of that many free frames, or too few are left for the tables; it loses
      * one frame, to an empty table, exactly when `map` does.
      */
    method Alloc(size: nat) returns (va: nat, ghost phys: nat)
      requires Valid() && size < POW64
      modifies this, mmu.pmm.bitmap, mmu`mem, mmu`owner, mmu`foreign
      ensures Valid() && SameFrames(old(mmu.foreign), old(mmu.mem), mmu.mem)
      ensures var n := W.PageCount(size);
              va != 0 <==>
                && W.Fits(old(bump), W.AlignedSize(size)) && !NoRun(old(mmu.pmm.Bits()), n)
                && n + TablesMissing(mmu.l1Table, old(mmu.mem), Page(old(bump)), n) <= old(mmu.FreeCount())
      ensures va == 0 ==> bump == old(bump) && mmu.foreign == old(mmu.foreign)
      ensures va == 0 ==> SamePtes(mmu.l1Table, old(mmu.mem), mmu.mem)
      ensures va == 0 ==> Left(mmu.l1Table, old(mmu.mem), old(mmu.owner), mmu.mem, mmu.owner, old(LosesFrame(size)))
      ensures va == 0 && old(Empties(mmu.l1Table, mmu.mem, mmu.owner)) == {} ==>
                mmu.AsBeforeUnless(old(mmu.owner), old(mmu.pmm.Bits()), old(LosesFrame(size)))
      ensures va != 0 ==> va == old(bump) && bump == va + W.AlignedSize(size)
      ensures va != 0 ==> Buffer(mmu.l1Table, mmu.mem, mmu.foreign, Page(va), W.PageCount(size), phys)
      ensures va != 0 ==> size <= W.PageCount(size) * 4096 < size + 4096
      ensures va != 0 ==> 0x1_4000_0000 <= va && va % 4096 == 0 && va + W.PageCount(size) * 4096 <= 0x1_4010_0000
      ensures va != 0 ==> forall a: nat | va <= a < va + size :: Translation(mmu.l1Table, mmu.mem, a) == phys + (a - va)
      ensures va != 0 ==> OfKind(mmu.l1Table, mmu.mem, Page(va), W.PageCount(size), 2)
      ensures va != 0 ==>
                && Run(phys, W.PageCount(size)) !! old(mmu.foreign)
                && mmu.foreign == old(mmu.foreign) + Run(phys, W.PageCount(size))
      ensures va != 0 ==>
                Elsewhere(mmu.l1Table, old(mmu.mem), mmu.mem, Page(va), W.PageCount(size))
    {
      hide *;
      Parts();
      ghost var m0, foreign0 := mmu.mem, mmu.foreign;
      var pageCount, alignedSize := W.PageCount(size), W.AlignedSize(size);
      ghost var owner0, bits0, loses := mmu.owner, mmu.pmm.Bits(), LosesFrame(size);
      mmu.Parts();
      mmu.IsTree();
      LosesFrameIs(size);
      NoTableLeft(mmu.l1Table, m0, owner0);
      NothingElsewhere(mmu.l1Table, m0, foreign0);
      var fits, reserved := Reserve(size);
      phys := 0;
      if !fits {
        mmu.AsBeforeIs(owner0, bits0, loses);
        Whole();
        return 0, 0;
      }
      ReclaimUndoes(reserved, size);
      var run := mmu.TakeFrames(pageCount);
      if run == 0 {
        Reclaim(reserved, size);
        mmu.AsBeforeIs(owner0, bits0, loses);
        Whole();
        return 0, 0;
      }
      OpenBump(mmu.l1Table, m0, reserved);
      RunFits(reserved, size, run);
      SizeInPages(reserved, size);
      OpenRoom(mmu.l1Table, m0, reserved, size);
      ghost var foreign1 := mmu.foreign;
      var mapped := mmu.Map(reserved, run, alignedSize, PTE_NORMAL_NC_RW);
      RunInside(foreign0, run, pageCount);
      SameFramesLess(foreign0, foreign1, m0, mmu.mem);
      if mapped {
        BuiltBuffer(mmu.l1Table, m0, owner0, mmu.mem, mmu.owner, mmu.foreign, reserved, size, run);
        PagesHold(size);
        WindowIs(reserved, size);
        OpenBump(mmu.l1Table, m0, reserved);
        BufferTranslates(mmu.l1Table, mmu.mem, mmu.foreign, reserved, pageCount, run, size);
        BufferIsUncached(mmu.l1Table, mmu.mem, mmu.foreign, Page(reserved), pageCount, run);
        BuiltElsewhere(mmu.l1Table, m0, owner0, mmu.mem, mmu.owner, reserved, size, run);
        Whole();
        return reserved, run;
      }
      UndoneUnmapped(mmu.l1Table, m0, owner0, mmu.mem, mmu.owner, Page(reserved), Page(alignedSize), loses);
      UndoneParts(mmu.l1Table, m0, owner0, mmu.mem, mmu.owner, Page(reserved), Page(alignedSize), loses);
      FreeRun(run, pageCount);
      if Empties(mmu.l1Table, m0, owner0) == {} {
        TablesAfterUndone(mmu.l1Table, m0, owner0, mmu.mem, mmu.owner, Page(reserved), Page(alignedSize), loses);
        mmu.AsBeforeIs(owner0, bits0, loses);
      }
      Reclaim(reserved, size);
      OpenAsBefore(mmu.l1Table, m0, mmu.mem, reserved);
      Whole();
      return 0, 0;
    }

    /** `dma_free`: nothing for an address that is not mapped; else the pages are unmapped and the frames freed. */
    method Free(va: nat, size: nat, ghost phys: nat)
      requires Valid() && size < POW64
      requires Pte(mmu.l1Table, mmu.mem, Page(va)) == 0 ||
               (IsAligned(va) && Buffer(mmu.l1Table, mmu.mem, mmu.foreign, Page(va), W.PageCount(size), phys))
      modifies mmu.pmm.bitmap, mmu`mem, mmu`owner, mmu`foreign
      ensures Valid() && SameFrames(old(mmu.foreign), old(mmu.mem), mmu.mem)
      ensures Pte(mmu.l1Table, old(mmu.mem), Page(va)) == 0 ==>
                mmu.mem == old(mmu.mem) && mmu.foreign == old(mmu.foreign)
      ensures Pte(mmu.l1Table, old(mmu.mem), Page(va)) != 0 ==>
                && Cleared(mmu.l1Table, old(mmu.mem), mmu.mem, Page(va), W.PageCount(size))
                && mmu.foreign == old(mmu.foreign) - Run(phys, W.PageCount(size))
    {
      hide *;
      Parts();
      ghost var m0 := mmu.mem;
      var pageCount, alignedSize := W.PageCount(size), W.AlignedSize(size);
      TranslatesOrNot(mmu.l1Table, m0, va);
      mmu.Parts();
      NothingElsewhere(mmu.l1Table, m0, mmu.foreign);
      var pa := mmu.Translate(va);
      if pa == NO_TRANSLATION {
        return;
      }
      FirstFrame(mmu.l1Table, m0, mmu.foreign, va, pageCount, phys);
      PagesFit(va, size);
      SizeInPages(va, size);
      RunOneMore(pa, 0);
      RunOneMore(phys, 0);
      mmu.Unmap(va, alignedSize);
      OpenAfterClear(mmu.l1Table, m0, mmu.mem, bump, Page(va), pageCount);
      FreeRun(pa, pageCount);
      Whole();
    }
  }
}
