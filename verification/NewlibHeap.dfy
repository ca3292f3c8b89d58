/** The newlib break (`_sbrk`): pages of one virtual range, each with a frame of its own. */
module NewlibHeap {
  import opened Machine
  import opened Frames
  import opened PageTables
  import opened Mmu

  const BASE: nat := 0x1_8000_0000
  const MAX_SIZE: nat := 0x3800_0000
  const PTE_NORMAL_RW: nat := 0x703
  /** `(void*)-1`. */
  const FAILED: nat := 0xFFFF_FFFF_FFFF_FFFF
  /** The pages of the range. */
  const FIRST: nat := Page(BASE)
  const LIMIT: nat := Page(BASE + MAX_SIZE)

  /** The frame that page `v` leads to. */
  function FrameOf(root: int, m: Memory, v: nat): nat {
    Target(Pte(root, m, v))
  }

  /** The frames behind the pages `lo` to `hi`. */
  ghost function FramesOf(root: int, m: Memory, lo: nat, hi: nat): set<int> {
    set v: nat | lo <= v < hi :: FrameOf(root, m, v)
  }

  /** Every page from `lo` to `hi` has a frame of its own in `others`, with the flags of normal memory. */
  ghost predicate Backed(root: int, m: Memory, lo: nat, hi: nat, others: set<int>) {
    && (forall v: nat | lo <= v < hi :: Pte(root, m, v) != 0 && FrameOf(root, m, v) in others)
    && (forall v: nat, w: nat | lo <= v < w < hi :: FrameOf(root, m, v) != FrameOf(root, m, w))
    && (forall v: nat | lo <= v < hi :: Pte(root, m, v) % 4096 == 0x703)
  }

  lemma BackedIsCached(root: int, m: Memory, lo: nat, hi: nat, others: set<int>)
    requires lo <= hi && Backed(root, m, lo, hi, others)
    ensures OfKind(root, m, lo, hi - lo, 0)
  {
    KindOf(root, m, lo, hi - lo, 0x703);
  }

  lemma OneMorePage(root: int, m0: Memory, owner0: Owners, m1: Memory, owner1: Owners,
                    lo: nat, hi: nat, others: set<int>, pa: nat)
    requires lo <= hi < LIMIT && Backed(root, m0, lo, hi, others) && IsUnmapped(root, m0, hi, LIMIT - hi)
    requires IsAligned(pa) && pa < PHYS_LIMIT && pa !in others
    requires Built(root, m0, owner0, m1, owner1, hi, 1, pa, PTE_NORMAL_RW)
    ensures Backed(root, m1, lo, hi + 1, others + {pa}) && IsUnmapped(root, m1, hi + 1, LIMIT - (hi + 1))
    ensures OnlyAdded(root, m0, m1, hi, hi + 1) && FrameOf(root, m1, hi) == pa
  {
    assert FrameAt(pa, 0) == pa;
    assert forall w: nat | w < PAGES ::
        Pte(root, m1, w) ==
            if hi <= w < hi + 1 then PageDescriptor(FrameAt(pa, w - hi), PTE_NORMAL_RW) else Pte(root, m0, w);
    DescriptorFields(pa, PTE_NORMAL_RW);
    hide PageDescriptor, FrameAt, Pte, Target;
    assert Pte(root, m1, hi) == PageDescriptor(pa, PTE_NORMAL_RW);
    assert Pte(root, m1, hi) % 4096 == 0x703;
  }

  /** Pages were added from `lo` to `hi`; nothing else is translated differently. */
  ghost predicate OnlyAdded(root: int, m0: Memory, m1: Memory, lo: nat, hi: nat) {
    forall w: nat | w < PAGES && !(lo <= w < hi) :: Pte(root, m1, w) == Pte(root, m0, w)
  }

  lemma OnePageLess(root: int, m0: Memory, m1: Memory, lo: nat, hi: nat, others: set<int>)
    requires lo < hi <= LIMIT < PAGES && Backed(root, m0, lo, hi, others) && IsUnmapped(root, m0, hi, LIMIT - hi)
    requires Cleared(root, m0, m1, hi - 1, 1)
    ensures Backed(root, m1, lo, hi - 1, others - {FrameOf(root, m0, hi - 1)})
    ensures IsUnmapped(root, m1, hi - 1, LIMIT - (hi - 1))
  {
    hide Pte, Target;
  }

  /** The sum that `_sbrk` and `_free_sbrk` form, in 64 bit arithmetic. */
  function RequiredEnd(brk: int, incr: int): nat {
    (brk + incr) % POW64
  }

  /**
    * A negative increment passes the check of `_free_sbrk` either as it should or because the sum wrapped, and it wraps
    * exactly for an increment below the negated break. The 4095 largest of these round up to 0, so that the guard of
    * the loop holds even when no page of the heap is left; for all others it fails at once.
    */
  lemma ShrinkCheck(brk: int, incr: int)
    requires BASE <= brk <= BASE + MAX_SIZE && -0x8000_0000_0000_0000 <= incr < 0
    ensures RequiredEnd(brk, incr) >= BASE <==> BASE <= brk + incr || incr < -brk
    ensures incr < -brk ==> RequiredEnd(brk, incr) > BASE + MAX_SIZE
    ensures incr >= -brk ==> RequiredEnd(brk, incr) == brk + incr
    ensures -brk - 4095 <= incr < -brk <==> RequiredEnd(brk, incr) >= BASE && RoundUp(RequiredEnd(brk, incr)) == 0
    ensures incr < -brk - 4095 ==> RoundUp(RequiredEnd(brk, incr)) > BASE + MAX_SIZE
  {
    if incr < -brk {
      assert RequiredEnd(brk, incr) == brk + incr + POW64;
    }
  }

  lemma RoundedUp(end: nat, brk: nat)
    requires brk <= BASE + MAX_SIZE && IsAligned(end)
    ensures brk <= RoundUp(brk) < brk + 4096 && IsAligned(RoundUp(brk))
    ensures end < brk <==> end < RoundUp(brk)
    ensures brk <= end <==> RoundUp(brk) <= end
    ensures brk >= BASE ==> RoundUp(brk) >= BASE
    ensures RoundUp(brk) <= BASE + MAX_SIZE
  {
    assert brk + 4095 < POW64;
    var q := (brk + 4095) / 4096;
    assert RoundUp(brk) == q * 4096;
    assert end == end / 4096 * 4096;
  }

  lemma PageBelow(end: nat)
    requires IsAligned(end)
    ensures end >= 4096 ==> IsAligned(end - 4096) && Page(end - 4096) == Page(end) - 1
    ensures IsAligned(end + 4096) && Page(end + 4096) == Page(end) + 1 && Page(4096) == 1
    ensures BASE <= end <==> FIRST <= Page(end)
    ensures BASE < end <==> FIRST < Page(end)
    ensures end <= BASE + MAX_SIZE <==> Page(end) <= LIMIT
    ensures end < BASE + MAX_SIZE <==> Page(end) < LIMIT
    ensures end == Page(end) * 4096
  {
  }

  /** Each page below the end has a frame of its own in `others`, and no page above the end is mapped. */
  ghost predicate Laid(root: int, m: Memory, end: nat, others: set<int>) {
    && IsAligned(end) && BASE <= end <= BASE + MAX_SIZE && Page(end) <= LIMIT
    && Backed(root, m, FIRST, Page(end), others) && IsUnmapped(root, m, Page(end), LIMIT - Page(end))
  }

  /** Every page of the heap is normal cacheable memory. */
  lemma LaidIsCached(root: int, m: Memory, end: nat, others: set<int>)
    requires Laid(root, m, end, others)
    ensures FIRST <= Page(end) && OfKind(root, m, FIRST, Page(end) - FIRST, 0)
  {
    BackedIsCached(root, m, FIRST, Page(end), others);
  }

  lemma LaidTranslates(root: int, m: Memory, end: nat, others: set<int>)
    requires Laid(root, m, end, others)
    ensures forall a: nat | BASE <= a < end :: Translation(root, m, a) != NO_TRANSLATION
  {
    hide Pte;
    forall a: nat | BASE <= a < end ensures Translation(root, m, a) != NO_TRANSLATION {
      assert FIRST <= Page(a) < Page(end);
      TranslationIs(root, m, a);
    }
  }

  lemma InsideLimits(root: int, m: Memory, end: nat, others: set<int>)
    requires Laid(root, m, end, others)
    ensures Page(end) + Page(4096) <= PAGES && FIRST <= Page(end) && Page(4096) == 1 && PTE_NORMAL_RW < 4096
  {
    PageBelow(end);
  }

  lemma LaidOneMore(root: int, m0: Memory, owner0: Owners, m1: Memory, owner1: Owners, end: nat, next: nat,
                    others: set<int>, pa: nat)
    requires Laid(root, m0, end, others) && end < BASE + MAX_SIZE && next == end + 4096
    requires IsAligned(pa) && pa < PHYS_LIMIT && pa !in others
    requires Built(root, m0, owner0, m1, owner1, Page(end), Page(4096), pa, PTE_NORMAL_RW)
    ensures Laid(root, m1, next, others + {pa}) && FrameOf(root, m1, Page(end)) == pa
    ensures OnlyAdded(root, m0, m1, Page(end), Page(next)) && Page(next) == Page(end) + 1
  {
    PageBelow(end);
    PageBelow(next);
    OneMorePage(root, m0, owner0, m1, owner1, FIRST, Page(end), others, pa);
  }

  lemma SameAdded(root: int, m: Memory, end: nat)
    ensures OnlyAdded(root, m, m, Page(end), Page(end))
  {
  }

  /** A page that could not be added. */
  lemma LaidAsBefore(root: int, m0: Memory, owner0: Owners, m1: Memory, owner1: Owners, end: nat, others: set<int>,
                     stays: bool)
    requires Laid(root, m0, end, others) && end < BASE + MAX_SIZE
    requires Undone(root, m0, owner0, m1, owner1, Page(end), Page(4096), stays)
    ensures Laid(root, m1, end, others) && OnlyAdded(root, m0, m1, Page(end), Page(end))
    ensures Left(root, m0, owner0, m1, owner1, stays)
    ensures Empties(root, m0, owner0) == {} ==> SameTablesUnless(owner0, owner1, stays)
  {
    PageBelow(end);
    hide Pte, Target, Page, Empties, Left, SameTablesUnless;
    assert IsUnmapped(root, m0, Page(end), 1);
    UndoneUnmapped(root, m0, owner0, m1, owner1, Page(end), 1, stays);
    UndoneParts(root, m0, owner0, m1, owner1, Page(end), 1, stays);
    if Empties(root, m0, owner0) == {} {
      TablesAfterUndone(root, m0, owner0, m1, owner1, Page(end), 1, stays);
    }
  }

  lemma LastPage(root: int, m: Memory, end: nat, va: nat, others: set<int>)
    requires Laid(root, m, end, others) && BASE <= va && end == va + 4096
    ensures Page(va) + 1 == Page(end) <= LIMIT && Page(4096) == 1 && Page(va) + Page(4096) <= PAGES && Page(va) < PAGES
    ensures Translation(root, m, va) == FrameOf(root, m, Page(va))
    ensures FrameOf(root, m, Page(va)) in others && IsMapped(root, m, Page(va), 1)
  {
    PageBelow(end);
    hide Pte, Target;
  }

  lemma OnePage()
    ensures Page(4096) == 1 && LIMIT < PAGES
  {
  }

  lemma ClearedOnePage(root: int, m0: Memory, m1: Memory, v: nat)
    requires ClearedUpTo(root, m0, m1, v, 1)
    ensures Cleared(root, m0, m1, v, 1)
  {
    hide Pte, TablesLeft, StopsAt;
    var k: nat :| ClearedTo(root, m0, m1, v, 1, k);
    if k == 0 {
      StopsUnmapped(root, m0, v, 0);
    }
  }

  lemma ClearedDown(root: int, m0: Memory, m1: Memory, m2: Memory, p: nat, q: nat, end0: nat)
    requires q == p + 1 <= end0 && Cleared(root, m0, m1, q, end0 - q) && Cleared(root, m1, m2, p, 1)
    ensures Cleared(root, m0, m2, p, end0 - p)
  {
    hide Pte;
    forall w: nat | w < PAGES ensures Pte(root, m2, w) == if p <= w < p + (end0 - p) then 0 else Pte(root, m0, w) {
      assert Pte(root, m1, w) == if q <= w < q + (end0 - q) then 0 else Pte(root, m0, w);
    }
  }

  /** The frames that the pages `p` to `q` lead to, where they are mapped. */
  ghost function Landed(root: int, m: Memory, p: nat, q: nat): set<int> {
    set v: nat | p <= v < q && Pte(root, m, v) != 0 :: FrameOf(root, m, v)
  }

  /** Tables were dropped, and every frame of the pool that the pages `p` to `q` lead to was freed, whoever holds it. */
  ghost predicate Freed(root: int, m: Memory, p: nat, q: nat, all: set<int>, u0: Split, u1: Split) {
    && u1.tables <= u0.tables && u1.foreign == u0.foreign - Landed(root, m, p, q)
    && u1.free == u0.free + Landed(root, m, p, q) * all + (u0.tables - u1.tables)
  }

  lemma NothingFreed(root: int, m: Memory, p: nat, all: set<int>, u: Split)
    ensures Freed(root, m, p, p, all, u, u)
  {
    assert Landed(root, m, p, p) == {};
  }

  lemma OnePageFreed(root: int, m: Memory, va: nat, pa: nat, all: set<int>, u0: Split, u1: Split, u2: Split)
    requires IsAligned(va) && pa == Translation(root, m, va) && Dropped(all, u0, u1) && u0.tables <= all
    requires NO_TRANSLATION !in u0.foreign && NO_TRANSLATION !in all
    requires u2 == Split(u1.free + {pa} * all, u1.tables, u1.foreign - {pa})
    ensures Freed(root, m, Page(va), Page(va) + 1, all, u0, u2)
  {
    hide Pte, Target;
    assert Landed(root, m, Page(va), Page(va) + 1) ==
           if Pte(root, m, Page(va)) != 0 then {FrameOf(root, m, Page(va))} else {} by {
      assert Pte(root, m, Page(va)) != 0 ==> FrameOf(root, m, Page(va)) in Landed(root, m, Page(va), Page(va) + 1);
    }
  }

  lemma OneMoreFreed(root: int, m0: Memory, m1: Memory, p: nat, q: nat, end0: nat, all: set<int>,
                     u0: Split, u1: Split, u2: Split)
    requires q == p + 1 <= end0 && p < PAGES && Cleared(root, m0, m1, q, end0 - q)
    requires Freed(root, m0, q, end0, all, u0, u1) && Freed(root, m1, p, q, all, u1, u2)
    ensures Freed(root, m0, p, end0, all, u0, u2)
  {
    hide Pte, Target;
    assert Pte(root, m1, p) == Pte(root, m0, p);
    assert Landed(root, m1, p, q) == Landed(root, m0, p, q);
    assert Landed(root, m0, p, end0) == Landed(root, m0, p, q) + Landed(root, m0, q, end0);
  }

  /** Whatever is freed: the frames are split up rightly afterwards if and only if no table was among them. */
  lemma SharedAfterFreeing(root: int, m: Memory, p: nat, q: nat, all: set<int>, u0: Split, u1: Split)
    requires Shared(all, u0.free, u0.tables, u0.foreign) && Freed(root, m, p, q, all, u0, u1)
    ensures Shared(all, u1.free, u1.tables, u1.foreign) <==> Landed(root, m, p, q) !! u1.tables
  {
    hide Landed;
    if x :| x in Landed(root, m, p, q) && x in u1.tables {
      assert x in u1.free;
    }
  }

  lemma KeptAll(owner: Owners)
    ensures Keeps(owner, owner)
  {
  }

  lemma PageZero()
    ensures Page(0) == 0 && IsAligned(0)
  {
  }

  lemma AlignedApart(end: nat, low: nat)
    requires IsAligned(end) && IsAligned(low) && end > low
    ensures end >= low + 4096
  {
  }

  lemma BaseIsAligned()
    ensures IsAligned(BASE)
  {
  }

  lemma LaidOneLess(root: int, m0: Memory, m1: Memory, end: nat, va: nat, others: set<int>)
    requires Laid(root, m0, end, others) && BASE <= va && end == va + 4096 && Cleared(root, m0, m1, Page(va), 1)
    ensures Laid(root, m1, va, others - {FrameOf(root, m0, Page(va))})
  {
    PageBelow(end);
    OnePageLess(root, m0, m1, FIRST, Page(end), others);
  }

  /** The pages from `p` on, up to the old end, were unmapped and their frames freed. */
  ghost predicate Shrunk(root: int, m0: Memory, m1: Memory, p: nat, end0: nat, foreign0: set<int>, foreign1: set<int>) {
    p <= end0 && Cleared(root, m0, m1, p, end0 - p) && foreign1 == foreign0 - FramesOf(root, m0, p, end0)
  }

  lemma ShrunkNothing(root: int, m: Memory, p: nat, foreign: set<int>)
    ensures Shrunk(root, m, m, p, p, foreign, foreign)
  {
  }

  lemma ShrunkOneMore(root: int, m0: Memory, m1: Memory, m2: Memory, p: nat, q: nat, end0: nat,
                      foreign0: set<int>, foreign1: set<int>, foreign2: set<int>)
    requires Shrunk(root, m0, m1, q, end0, foreign0, foreign1) && q == p + 1 <= LIMIT
    requires Cleared(root, m1, m2, p, 1) && foreign2 == foreign1 - {FrameOf(root, m1, p)}
    ensures Shrunk(root, m0, m2, p, end0, foreign0, foreign2)
  {
    hide Pte, Target;
    forall w: nat | w < PAGES ensures Pte(root, m2, w) == if p <= w < p + (end0 - p) then 0 else Pte(root, m0, w) {
      assert Pte(root, m1, w) == if q <= w < q + (end0 - q) then 0 else Pte(root, m0, w);
    }
    assert FrameOf(root, m1, p) == FrameOf(root, m0, p);
    assert FramesOf(root, m0, p, end0) == FramesOf(root, m0, q, end0) + {FrameOf(root, m0, p)};
  }

  /** The pages from the old end up to `p` were mapped, each to a frame that was not in use. */
  ghost predicate Grown(root: int, m0: Memory, m1: Memory, end0: nat, p: nat, foreign0: set<int>, foreign1: set<int>) {
    && end0 <= p && OnlyAdded(root, m0, m1, end0, p)
    && foreign1 == foreign0 + FramesOf(root, m1, end0, p) && FramesOf(root, m1, end0, p) !! foreign0
  }

  lemma GrownNothing(root: int, m: Memory, p: nat, foreign: set<int>)
    ensures Grown(root, m, m, p, p, foreign, foreign)
  {
  }

  lemma GrownNoMore(root: int, m0: Memory, m1: Memory, m2: Memory, end0: nat, p: nat,
                    foreign0: set<int>, foreign1: set<int>)
    requires Grown(root, m0, m1, end0, p, foreign0, foreign1) && p <= LIMIT && OnlyAdded(root, m1, m2, p, p)
    ensures Grown(root, m0, m2, end0, p, foreign0, foreign1)
  {
    hide Pte, Target;
    forall w: nat | end0 <= w < p ensures FrameOf(root, m2, w) == FrameOf(root, m1, w) {
    }
    assert FramesOf(root, m2, end0, p) == FramesOf(root, m1, end0, p);
  }

  lemma GrownOneMore(root: int, m0: Memory, m1: Memory, m2: Memory, end0: nat, p: nat, q: nat,
                     foreign0: set<int>, foreign1: set<int>, foreign2: set<int>)
    requires Grown(root, m0, m1, end0, p, foreign0, foreign1) && q == p + 1 <= LIMIT
    requires OnlyAdded(root, m1, m2, p, q)
    requires FrameOf(root, m2, p) !in foreign1 && foreign2 == foreign1 + {FrameOf(root, m2, p)}
    ensures Grown(root, m0, m2, end0, q, foreign0, foreign2)
  {
    hide Pte, Target;
    forall w: nat | end0 <= w < p ensures FrameOf(root, m2, w) == FrameOf(root, m1, w) {
    }
    forall a | a in FramesOf(root, m1, end0, p) ensures a in FramesOf(root, m2, end0, q) {
      var w: nat :| end0 <= w < p && a == FrameOf(root, m1, w);
      assert a == FrameOf(root, m2, w);
    }
    forall a | a in FramesOf(root, m2, end0, q) ensures a in FramesOf(root, m1, end0, p) + {FrameOf(root, m2, p)} {
      var w: nat :| end0 <= w < q && a == FrameOf(root, m2, w);
    }
    assert FramesOf(root, m2, end0, q) == FramesOf(root, m1, end0, p) + {FrameOf(root, m2, p)};
  }

  lemma NoWrap(brk: nat, incr: nat)
    requires brk <= BASE + MAX_SIZE && incr < 0x8000_0000_0000_0000
    ensures RequiredEnd(brk, incr) == brk + incr
  {
  }

  /** Below a required end there is room for one more page. */
  lemma RoomAbove(root: int, m: Memory, end: nat, others: set<int>, requiredEnd: nat)
    requires Laid(root, m, end, others) && end < requiredEnd <= BASE + MAX_SIZE
    ensures end < BASE + MAX_SIZE && Page(end) + 1 <= LIMIT
    ensures end + 4096 <= RoundUp(requiredEnd) && end < RoundUp(requiredEnd)
              && Page(end) + 1 <= Page(RoundUp(requiredEnd))
  {
    PageBelow(end);
    RoundedUp(end, requiredEnd);
    PageBelow(RoundUp(requiredEnd));
  }

  lemma RoundedUpEnd(root: int, m: Memory, end: nat, others: set<int>, requiredEnd: nat)
    requires Laid(root, m, end, others)
    ensures requiredEnd <= end ==> RoundUp(requiredEnd) <= end
    ensures end < requiredEnd <= BASE + MAX_SIZE ==> end <= RoundUp(requiredEnd)
  {
    if requiredEnd <= BASE + MAX_SIZE {
      RoundedUp(end, requiredEnd);
    }
  }

  class Heap {
    const mmu: PageMap
    var brk: nat
    var end: nat

    /** The frames of the heap are neither free nor tables. */
    ghost predicate Valid()
      reads this, mmu.pmm.bitmap, mmu`mem, mmu`owner, mmu`foreign
    {
      mmu.Valid() && Laid(mmu.l1Table, mmu.mem, end, mmu.foreign) && BASE <= brk <= end
    }

    lemma HeapParts()
      requires Valid()
      ensures mmu.Valid() && Laid(mmu.l1Table, mmu.mem, end, mmu.foreign) && BASE <= brk <= end <= BASE + MAX_SIZE
      ensures IsAligned(end) && brk < FAILED && mmu.pmm.Layout() && mmu.Walkable()
      ensures mmu.owner.Keys !! mmu.foreign
    {
    }

    /** The heap lies in its range, and every byte below its end translates to normal memory. */
    lemma InRange()
      requires Valid()
      ensures 0x1_8000_0000 <= brk <= end <= 0x1_B800_0000 && end % 4096 == 0
      ensures OfKind(mmu.l1Table, mmu.mem, 0x18_0000, (end - 0x1_8000_0000) / 4096, 0)
      ensures forall a: nat | 0x1_8000_0000 <= a < end :: Translation(mmu.l1Table, mmu.mem, a) != NO_TRANSLATION
    {
      LaidIsCached(mmu.l1Table, mmu.mem, end, mmu.foreign);
      LaidTranslates(mmu.l1Table, mmu.mem, end, mmu.foreign);
    }

    /** The range in figures. */
    lemma RangeIs()
      ensures BASE == 0x1_8000_0000 && BASE + MAX_SIZE == 0x1_B800_0000
    {
    }

    lemma HeapWhole()
      requires mmu.Valid() && Laid(mmu.l1Table, mmu.mem, end, mmu.foreign) && BASE <= brk <= end
      ensures Valid()
    {
    }

    /** The frames that growing to `requiredEnd` takes: one for each new page, and those for the tables. */
    ghost function FramesNeeded(requiredEnd: nat): nat
      reads this`end, mmu`mem
    {
      if requiredEnd <= end then 0 else
      var n: nat := if Page(end) <= Page(RoundUp(requiredEnd)) then Page(RoundUp(requiredEnd)) - Page(end) else 0;
      n + TablesMissing(mmu.l1Table, mmu.mem, Page(end), n)
    }

    lemma FramesNeededIs(requiredEnd: nat)
      requires Laid(mmu.l1Table, mmu.mem, end, mmu.foreign) && requiredEnd <= BASE + MAX_SIZE
      ensures FramesNeeded(requiredEnd) ==
              if requiredEnd <= end then 0 else
              Page(RoundUp(requiredEnd)) - Page(end)
              + TablesMissing(mmu.l1Table, mmu.mem, Page(end), Page(RoundUp(requiredEnd)) - Page(end))
    {
      if end < requiredEnd {
        RoomAbove(mmu.l1Table, mmu.mem, end, mmu.foreign, requiredEnd);
      }
    }

    constructor (mmu: PageMap)
      requires mmu.Valid() && IsUnmapped(mmu.l1Table, mmu.mem, FIRST, LIMIT - FIRST)
      ensures Valid() && this.mmu == mmu && brk == end == 0x1_8000_0000
    {
      this.mmu, brk, end := mmu, BASE, BASE;
    }

    /** The page at the end gets the frame `pa`, or the frame is freed again. */
    method BackPage(pa: nat, ghost others: set<int>, ghost next: nat) returns (ok: bool)
      requires mmu.Valid() && mmu.foreign == others + {pa} && pa !in others && IsAligned(pa) && pa < PHYS_LIMIT
      requires Laid(mmu.l1Table, mmu.mem, end, others) && end < BASE + MAX_SIZE && next == end + 4096
      modifies mmu.pmm.bitmap, mmu`mem, mmu`owner, mmu`foreign
      ensures mmu.Valid() && mmu.foreign == if ok then others + {pa} else others
      ensures SameFrames(others, old(mmu.mem), mmu.mem)
      ensures Laid(mmu.l1Table, mmu.mem, if ok then next else end, mmu.foreign)
      ensures OnlyAdded(mmu.l1Table, old(mmu.mem), mmu.mem, Page(end), if ok then Page(next) else Page(end))
      ensures ok ==> FrameOf(mmu.l1Table, mmu.mem, Page(end)) == pa && Page(next) == Page(end) + 1
      ensures ok ==> TablesMade(mmu.l1Table, old(mmu.mem), mmu.mem, Page(end), 1)
      ensures ok ==> mmu.FreeCount() == old(mmu.FreeCount()) - TablesMissing(mmu.l1Table, old(mmu.mem), Page(end), 1)
      ensures !ok ==> old(mmu.FreeCount()) < TablesMissing(mmu.l1Table, old(mmu.mem), Page(end), 1)
      ensures var stays := TableStays(mmu.l1Table, old(mmu.mem), Page(end), 1, old(mmu.FreeCount()));
              !ok ==>
                && Left(mmu.l1Table, old(mmu.mem), old(mmu.owner), mmu.mem, mmu.owner, stays)
                && (old(Empties(mmu.l1Table, mmu.mem, mmu.owner)) == {} ==>
                      SameTablesUnless(old(mmu.owner), mmu.owner, stays))
    {
      hide *;
      ghost var m0, owner0 := mmu.mem, mmu.owner;
      mmu.Parts();
      OnePage();
      ghost var stays := TableStays(mmu.l1Table, m0, Page(end), 1, mmu.FreeCount());
      InsideLimits(mmu.l1Table, m0, end, others);
      ok := mmu.Map(end, pa, 4096, PTE_NORMAL_RW);
      SameFramesLess(others, others + {pa}, m0, mmu.mem);
      if ok {
        LaidOneMore(mmu.l1Table, m0, owner0, mmu.mem, mmu.owner, end, next, others, pa);
      } else {
        LaidAsBefore(mmu.l1Table, m0, owner0, mmu.mem, mmu.owner, end, others, stays);
        mmu.Parts();
        mmu.GiveFrame(pa);
        assert mmu.foreign == others;
      }
    }

    /**
      * One pass of the loop of `_sbrk`: `ok` is false when no frame is free or the page cannot be mapped. Then the heap
      * is as before; one frame is lost to an empty table exactly when `map` loses one.
      */
    method AddPage() returns (ok: bool)
      requires mmu.Valid() && Laid(mmu.l1Table, mmu.mem, end, mmu.foreign) && end < BASE + MAX_SIZE
      modifies this`end, mmu.pmm.bitmap, mmu`mem, mmu`owner, mmu`foreign
      ensures mmu.Valid() && Laid(mmu.l1Table, mmu.mem, end, mmu.foreign)
      ensures SameFrames(old(mmu.foreign), old(mmu.mem), mmu.mem)
      ensures end == if ok then old(end) + 4096 else old(end)
      ensures OnlyAdded(mmu.l1Table, old(mmu.mem), mmu.mem, Page(old(end)), Page(end))
      ensures FIRST <= Page(end) && OfKind(mmu.l1Table, mmu.mem, FIRST, Page(end) - FIRST, 0)
      ensures !ok ==> mmu.foreign == old(mmu.foreign)
      ensures !ok ==> old(mmu.FreeCount()) < 1 + TablesMissing(mmu.l1Table, old(mmu.mem), Page(old(end)), 1)
      ensures ok ==>
                var pa := FrameOf(mmu.l1Table, mmu.mem, Page(old(end)));
                pa !in old(mmu.foreign) && mmu.foreign == old(mmu.foreign) + {pa} && Page(end) == Page(old(end)) + 1
      ensures ok ==> TablesMade(mmu.l1Table, old(mmu.mem), mmu.mem, Page(old(end)), 1)
      ensures ok ==>
                mmu.FreeCount() ==
                    old(mmu.FreeCount()) - 1 - TablesMissing(mmu.l1Table, old(mmu.mem), Page(old(end)), 1)
      ensures var stays := TableStays(mmu.l1Table, old(mmu.mem), Page(old(end)), 1, old(mmu.FreeCount()) - 1);
              !ok ==>
                && Left(mmu.l1Table, old(mmu.mem), old(mmu.owner), mmu.mem, mmu.owner, stays)
                && (old(Empties(mmu.l1Table, mmu.mem, mmu.owner)) == {} ==>
                      mmu.AsBeforeUnless(old(mmu.owner), old(mmu.pmm.Bits()), stays))
    {
      hide *;
      ghost var others := mmu.foreign;
      mmu.Parts();
      mmu.IsTree();
      ghost var owner0, bits0, free := mmu.owner, mmu.pmm.Bits(), mmu.FreeCount() - 1;
      ghost var stays := TableStays(mmu.l1Table, mmu.mem, Page(end), 1, free);
      NoTableLeft(mmu.l1Table, mmu.mem, owner0);
      if free <= 0 {
        NoFrameNoTable(mmu.l1Table, mmu.mem, Page(end), 1, free);
      }
      ghost var clean := Empties(mmu.l1Table, mmu.mem, owner0) == {};
      SameAdded(mmu.l1Table, mmu.mem, end);
      SameFramesAsBefore(others, mmu.mem);
      var pa := mmu.TakeFrame();
      if pa == 0 {
        mmu.AsBeforeIs(owner0, bits0, stays);
        LaidIsCached(mmu.l1Table, mmu.mem, end, mmu.foreign);
        return false;
      }
      var next := end + 4096;
      ok := BackPage(pa, others, next);
      if ok {
        end := next;
      } else if clean {
        mmu.AsBeforeIs(owner0, bits0, stays);
      }
      LaidIsCached(mmu.l1Table, mmu.mem, end, mmu.foreign);
    }

    /** One pass of the loop of `_free_sbrk`, which asks neither whose page it is nor whether it is mapped. */
    method DropPage()
      requires mmu.Walkable() && IsAligned(end) && 0 < end <= BASE + MAX_SIZE
      modifies this`end, mmu.pmm.bitmap, mmu`mem, mmu`owner, mmu`foreign
      ensures mmu.Walkable() && IsAligned(end)
      ensures Keeps(mmu.owner, old(mmu.owner)) && OnlyTables(old(mmu.owner), old(mmu.mem), mmu.mem)
      ensures end == old(end) - 4096 && Page(end) + 1 == Page(old(end)) <= LIMIT
      ensures Cleared(mmu.l1Table, old(mmu.mem), mmu.mem, Page(end), 1)
      ensures old(mmu.Valid() && Laid(mmu.l1Table, mmu.mem, end, mmu.foreign) && end > BASE) ==>
                && mmu.Valid() && Laid(mmu.l1Table, mmu.mem, end, mmu.foreign)
                && mmu.foreign == old(mmu.foreign) - {FrameOf(mmu.l1Table, old(mmu.mem), Page(end))}
      ensures old(mmu.Pooled()) ==>
                && mmu.Pooled()
                && Freed(mmu.l1Table, old(mmu.mem), Page(end), Page(old(end)), mmu.pmm.All(), old(mmu.Uses()),
                         mmu.Uses())
    {
      hide *;
      mmu.WalkableParts();
      ghost var pooled, u0 := mmu.Pooled(), mmu.Uses();
      ghost var m0, others := mmu.mem, mmu.foreign;
      ghost var own := mmu.Valid() && Laid(mmu.l1Table, m0, end, others) && end > BASE;
      PageBelow(end);
      OnePage();
      var va: nat := end - 4096;
      var pa := mmu.Translate(va);
      if pooled {
        mmu.PooledParts();
        mmu.SentinelIsNoFrame();
      }
      if own {
        BaseIsAligned();
        AlignedApart(end, BASE);
        LastPage(mmu.l1Table, m0, end, va, others);
      }
      mmu.Unmap(va, 4096);
      ClearedOnePage(mmu.l1Table, m0, mmu.mem, Page(va));
      if own {
        LaidOneLess(mmu.l1Table, m0, mmu.mem, end, va, others);
      }
      mmu.WalkableParts();
      ghost var u1 := mmu.Uses();
      mmu.UsesAre();
      mmu.GiveFrame(pa);
      mmu.WalkableParts();
      mmu.UsesAre();
      if pooled {
        OnePageFreed(mmu.l1Table, m0, va, pa, mmu.pmm.All(), u0, u1, mmu.Uses());
        mmu.StillPooled(u0, u1, pa);
      }
      end := va;
    }

    /**
      * `_free_sbrk`: lowers the break, unless it would fall below the base; whole pages above it are given back.
      * The heap stays valid exactly for an increment that is not below the negated break. Below it the break ends above
      * the range, and either no page is given back or every page of the address space below the end is: then every
      * frame they lead to is freed, those of buffers and tables included, and the ownership of frames is right
      * afterwards exactly if no table still in use was among them.
      */
    method FreeSbrk(incr: int) returns (ok: bool)
      requires Valid() && -0x8000_0000_0000_0000 <= incr < 0
      modifies this, mmu.pmm.bitmap, mmu`mem, mmu`owner, mmu`foreign
      ensures mmu.Walkable() && (Valid() <==> -(old(brk) as int) <= incr)
      ensures SameFrames(old(mmu.foreign), old(mmu.mem), mmu.mem)
      ensures !ok <==> -(old(brk) as int) <= incr < BASE - old(brk)
      ensures !ok ==> brk == old(brk) && end == old(end) && mmu.mem == old(mmu.mem) && mmu.foreign == old(mmu.foreign)
      ensures ok ==> brk == RequiredEnd(old(brk), incr)
      ensures BASE - old(brk) <= incr ==>
                && brk == old(brk) + incr && end == RoundUp(brk)
                && Shrunk(mmu.l1Table, old(mmu.mem), mmu.mem, Page(end), Page(old(end)), old(mmu.foreign), mmu.foreign)
      ensures incr < -(old(brk) as int) ==> brk > BASE + MAX_SIZE
      ensures incr < -(old(brk) as int) - 4095 ==>
                end == old(end) && mmu.mem == old(mmu.mem) && mmu.foreign == old(mmu.foreign)
      ensures -(old(brk) as int) - 4095 <= incr < -(old(brk) as int) ==>
                && end == 0 && Cleared(mmu.l1Table, old(mmu.mem), mmu.mem, 0, Page(old(end)))
                && Freed(mmu.l1Table, old(mmu.mem), 0, Page(old(end)), mmu.pmm.All(), old(mmu.Uses()), mmu.Uses())
                && (mmu.Valid() <==> Landed(mmu.l1Table, old(mmu.mem), 0, Page(old(end))) !! mmu.owner.Keys)
    {
      hide *;
      HeapParts();
      mmu.ValidIsShared();
      ShrinkCheck(brk, incr);
      var requiredEnd := RequiredEnd(brk, incr);
      SameFramesAsBefore(mmu.foreign, mmu.mem);
      if requiredEnd < BASE {
        return false;
      }
      ghost var right := -(brk as int) <= incr;
      ghost var m0, owner0, foreign0, end0 := mmu.mem, mmu.owner, mmu.foreign, end;
      NoneWritten(owner0, m0);
      KeptAll(owner0);
      mmu.Parts();
      ghost var all, u0 := mmu.pmm.All(), mmu.Uses();
      NothingFreed(mmu.l1Table, m0, Page(end), all, u0);
      if right {
        RoundedUp(end, requiredEnd);
      }
      PageZero();
      ShrunkNothing(mmu.l1Table, m0, Page(end), foreign0);
      while end > RoundUp(requiredEnd)
        invariant mmu.Walkable() && IsAligned(end) && end <= end0 && Page(end) <= Page(end0)
        invariant end >= RoundUp(requiredEnd) || end == end0
        invariant end == end0 ==> mmu.mem == m0 && mmu.foreign == foreign0
        invariant Keeps(mmu.owner, owner0) && OnlyTables(owner0, m0, mmu.mem)
        invariant Cleared(mmu.l1Table, m0, mmu.mem, Page(end), Page(end0) - Page(end))
        invariant mmu.pmm.Layout() && mmu.Pooled()
        invariant Freed(mmu.l1Table, m0, Page(end), Page(end0), all, u0, mmu.Uses())
        invariant right ==>
                    && mmu.Valid() && Laid(mmu.l1Table, mmu.mem, end, mmu.foreign)
                    && Shrunk(mmu.l1Table, m0, mmu.mem, Page(end), Page(end0), foreign0, mmu.foreign)
        decreases end
      {
        ghost var m1, owner1, foreign1, p1, u1 := mmu.mem, mmu.owner, mmu.foreign, Page(end), mmu.Uses();
        AlignedApart(end, RoundUp(requiredEnd));
        OnePage();
        DropPage();
        mmu.WalkableParts();
        OneMoreFreed(mmu.l1Table, m0, m1, Page(end), p1, Page(end0), all, u0, u1, mmu.Uses());
        OnlyTablesOn(owner0, owner1, m0, m1, mmu.mem);
        KeepsOn(mmu.owner, owner1, owner0);
        ClearedDown(mmu.l1Table, m0, m1, mmu.mem, Page(end), p1, Page(end0));
        if right {
          ShrunkOneMore(mmu.l1Table, m0, m1, mmu.mem, Page(end), p1, Page(end0), foreign0, foreign1, mmu.foreign);
        }
      }
      brk := requiredEnd;
      BesideTables(owner0, foreign0, m0, mmu.mem);
      if right {
        HeapWhole();
      } else {
        TooHigh();
        mmu.ValidIsShared();
        mmu.UsesAre();
        SharedAfterFreeing(mmu.l1Table, m0, Page(end), Page(end0), all, u0, mmu.Uses());
      }
      return true;
    }

    /** No heap has its break above the range. */
    lemma TooHigh()
      requires brk > BASE + MAX_SIZE
      ensures !Valid()
    {
    }

    /** `_sbrk` with a positive increment; when frames run out, the pages that could be added stay. */
    method Extend(incr: nat) returns (r: nat)
      requires Valid() && 0 < incr < 0x8000_0000_0000_0000
      modifies this, mmu.pmm.bitmap, mmu`mem, mmu`owner, mmu`foreign
      ensures Valid() && SameFrames(old(mmu.foreign), old(mmu.mem), mmu.mem)
      ensures (r == old(brk) || r == FAILED) && brk == if r == FAILED then old(brk) else old(brk) + incr
      ensures old(brk) + incr > BASE + MAX_SIZE ==>
                r == FAILED && end == old(end) && mmu.mem == old(mmu.mem) && mmu.foreign == old(mmu.foreign)
      ensures Grown(mmu.l1Table, old(mmu.mem), mmu.mem, Page(old(end)), Page(end), old(mmu.foreign), mmu.foreign)
      ensures r != FAILED ==> end == if old(end) < brk then RoundUp(brk) else old(end)
      ensures r == FAILED && old(brk) + incr <= BASE + MAX_SIZE ==> old(end) <= end < RoundUp(old(brk) + incr)
      ensures r == FAILED && old(brk) + incr <= BASE + MAX_SIZE ==>
                && Page(old(end)) <= Page(end)
                && var n := Page(end) - Page(old(end));
                   && n + TablesMissing(mmu.l1Table, old(mmu.mem), Page(old(end)), n) <= old(mmu.FreeCount())
                   && old(mmu.FreeCount()) < n + 1 + TablesMissing(mmu.l1Table, old(mmu.mem), Page(old(end)), n + 1)
      ensures r == FAILED <==>
                || old(brk) + incr > BASE + MAX_SIZE
                || old(mmu.FreeCount()) < old(FramesNeeded(brk + incr))
      ensures r != FAILED ==> mmu.FreeCount() == old(mmu.FreeCount()) - old(FramesNeeded(brk + incr))
    {
      hide *;
      HeapParts();
      NoWrap(brk, incr);
      var requiredEnd := RequiredEnd(brk, incr);
      ghost var m0, foreign0, end0, count0 := mmu.mem, mmu.foreign, end, mmu.FreeCount();
      GrownNothing(mmu.l1Table, m0, Page(end), foreign0);
      SameFramesAsBefore(foreign0, m0);
      NoTablesMade(mmu.l1Table, m0, Page(end));
      RoundedUpEnd(mmu.l1Table, m0, end, foreign0, requiredEnd);
      if requiredEnd > BASE + MAX_SIZE {
        return FAILED;
      }
      FramesNeededIs(requiredEnd);
      while end < requiredEnd
        invariant mmu.Valid() && Laid(mmu.l1Table, mmu.mem, end, mmu.foreign) && end0 <= end
        invariant brk == old(brk) && foreign0 <= mmu.foreign && SameFrames(foreign0, m0, mmu.mem)
        invariant end0 < requiredEnd ==> end <= RoundUp(requiredEnd)
        invariant end0 >= requiredEnd ==> end == end0
        invariant Grown(mmu.l1Table, m0, mmu.mem, Page(end0), Page(end), foreign0, mmu.foreign)
        invariant Page(end0) <= Page(end) && TablesMade(mmu.l1Table, m0, mmu.mem, Page(end0), Page(end) - Page(end0))
        invariant mmu.FreeCount() ==
                  count0 - (Page(end) - Page(end0)) - TablesMissing(mmu.l1Table, m0, Page(end0), Page(end) - Page(end0))
        decreases requiredEnd - end
      {
        ghost var m1, foreign1, p1 := mmu.mem, mmu.foreign, Page(end);
        RoomAbove(mmu.l1Table, m1, end, foreign1, requiredEnd);
        ghost var k := p1 - Page(end0);
        OnePage();
        OneMoreMissing(mmu.l1Table, m0, m1, Page(end0), k);
        MorePagesMissMore(mmu.l1Table, m0, Page(end0), k + 1, Page(RoundUp(requiredEnd)) - Page(end0));
        var added := AddPage();
        SameFramesLess(foreign0, foreign1, m1, mmu.mem);
        SameFramesOn(foreign0, m0, m1, mmu.mem);
        if !added {
          GrownNoMore(mmu.l1Table, m0, m1, mmu.mem, Page(end0), Page(end), foreign0, foreign1);
          HeapWhole();
          return FAILED;
        }
        GrownOneMore(mmu.l1Table, m0, m1, mmu.mem, Page(end0), p1, Page(end), foreign0, foreign1, mmu.foreign);
        OneMoreMade(mmu.l1Table, m0, m1, mmu.mem, Page(end0), k);
      }
      RoundedUpEnd(mmu.l1Table, mmu.mem, end, mmu.foreign, requiredEnd);
      r := brk;
      brk := brk + incr;
      HeapWhole();
    }

    /**
      * `_sbrk`: the old break, or `FAILED`. The heap stays valid exactly for an increment that is not below the negated
      * break; what happens below it is said by `FreeSbrk`.
      */
    method Sbrk(incr: int) returns (r: nat)
      requires Valid() && -0x8000_0000_0000_0000 <= incr < 0x8000_0000_0000_0000
      modifies this, mmu.pmm.bitmap, mmu`mem, mmu`owner, mmu`foreign
      ensures mmu.Walkable() && (Valid() <==> -(old(brk) as int) <= incr)
      ensures SameFrames(old(mmu.foreign), old(mmu.mem), mmu.mem)
      ensures r == old(brk) || r == FAILED
      ensures brk == if r == FAILED then old(brk) else RequiredEnd(old(brk), incr)
      ensures r != FAILED && -(old(brk) as int) <= incr ==> brk == old(brk) + incr
      ensures incr <= 0 ==> (r == FAILED <==> -(old(brk) as int) <= incr < BASE - old(brk))
      ensures BASE - old(brk) <= incr < 0 ==>
                && end == RoundUp(brk)
                && Shrunk(mmu.l1Table, old(mmu.mem), mmu.mem, Page(end), Page(old(end)), old(mmu.foreign), mmu.foreign)
      ensures incr < -(old(brk) as int) ==> brk > BASE + MAX_SIZE
      ensures -(old(brk) as int) - 4095 <= incr < -(old(brk) as int) ==>
                && end == 0 && Cleared(mmu.l1Table, old(mmu.mem), mmu.mem, 0, Page(old(end)))
                && Freed(mmu.l1Table, old(mmu.mem), 0, Page(old(end)), mmu.pmm.All(), old(mmu.Uses()), mmu.Uses())
      ensures incr == 0 || (incr < 0 && r == FAILED) || incr < -(old(brk) as int) - 4095
              || old(brk) + incr > BASE + MAX_SIZE ==>
                end == old(end) && mmu.mem == old(mmu.mem) && mmu.foreign == old(mmu.foreign)
      ensures old(brk) + incr > BASE + MAX_SIZE ==> r == FAILED
      ensures incr > 0 ==>
                Grown(mmu.l1Table, old(mmu.mem), mmu.mem, Page(old(end)), Page(end), old(mmu.foreign), mmu.foreign)
      ensures incr > 0 && r != FAILED ==> end == if old(end) < brk then RoundUp(brk) else old(end)
      ensures incr > 0 && r == FAILED && old(brk) + incr <= BASE + MAX_SIZE ==>
                && old(end) <= end < RoundUp(old(brk) + incr) && Page(old(end)) <= Page(end)
                && var n := Page(end) - Page(old(end));
                   && n + TablesMissing(mmu.l1Table, old(mmu.mem), Page(old(end)), n) <= old(mmu.FreeCount())
                   && old(mmu.FreeCount()) < n + 1 + TablesMissing(mmu.l1Table, old(mmu.mem), Page(old(end)), n + 1)
      ensures incr > 0 ==>
                (r == FAILED <==>
                   || old(brk) + incr > 0x1_B800_0000
                   || old(mmu.FreeCount()) < old(FramesNeeded(brk + incr)))
    {
      hide *;
      RangeIs();
      HeapParts();
      NoWrap(brk, 0);
      SameFramesAsBefore(mmu.foreign, mmu.mem);
      if incr == 0 {
        return brk;
      }
      if incr < 0 {
        var prevBrk := brk;
        var ok := FreeSbrk(incr);
        if !ok {
          HeapParts();
          brk := prevBrk;
          HeapWhole();
          return FAILED;
        }
        return prevBrk;
      }
      NoWrap(brk, incr);
      r := Extend(incr);
      HeapParts();
    }
  }
}
