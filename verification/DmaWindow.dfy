/** Virtual address reservations in the DMA window, by several cores. */
module DmaWindow {
  import opened Machine

  const DMA_BASE: nat := 0x1_4000_0000
  const DMA_MAX_SIZE: nat := 0x10_0000

  /** `page_count * PAGE_SIZE`, in 64 bit arithmetic. */
  function AlignedSize(size: nat): nat {
    PageCount(size) * 4096 % POW64
  }

  function PageCount(size: nat): nat {
    (size + 4095) % POW64 / 4096
  }

  /** A reserved range. */
  datatype Range = Range(va: nat, len: nat) {
    predicate Meets(other: Range) {
      va < other.va + other.len && other.va < va + len && len > 0 && other.len > 0
    }
  }

  /** The bump pointer, and every range that some core holds: in flight, or handed out and not freed. */
  datatype State = State(bump: nat, live: map<nat, Range>)

  /** One section under `dma_lock`, or a `dma_free`; `id` names the reservation. */
  datatype Step =
    | Reserve(id: nat, size: nat)
    | Reclaim(id: nat)
    | Release(id: nat)

  predicate Enabled(s: State, step: Step) {
    match step
    case Reserve(id, size) => id !in s.live && size < POW64
    case Reclaim(id) => id in s.live
    case Release(id) => id in s.live
  }

  function BumpAfterReserve(bump: nat, len: nat): nat {
    (bump + len) % POW64
  }

  /** The check at the head of `dma_alloc`. */
  predicate Fits(bump: nat, len: nat) {
    BumpAfterReserve(bump, len) <= DMA_BASE + DMA_MAX_SIZE
  }

  /** `_dma_reclaim_va`. */
  function BumpAfterReclaim(bump: nat, va: nat, len: nat): nat {
    if bump == (va + len) % POW64 then va else bump
  }

  function Apply(s: State, step: Step): State
    requires Enabled(s, step)
  {
    match step
    case Reserve(id, size) =>
      var len := AlignedSize(size);
      if Fits(s.bump, len) then State(BumpAfterReserve(s.bump, len), s.live[id := Range(s.bump, len)]) else s
    case Reclaim(id) =>
      State(BumpAfterReclaim(s.bump, s.live[id].va, s.live[id].len), s.live - {id})
    case Release(id) =>
      State(s.bump, s.live - {id})
  }

  const INITIAL: State := State(DMA_BASE, map[])

  /** The live ranges that are not empty lie below the bump pointer and do not meet. */
  ghost predicate Safe(s: State) {
    && DMA_BASE <= s.bump <= DMA_BASE + DMA_MAX_SIZE
    && (forall i | i in s.live :: DMA_BASE <= s.live[i].va <= DMA_BASE + DMA_MAX_SIZE)
    && (forall i | i in s.live && s.live[i].len > 0 :: s.live[i].va + s.live[i].len <= s.bump)
    && (forall i, j | i in s.live && j in s.live && i != j :: !s.live[i].Meets(s.live[j]))
  }

  /** A size whose range does not wrap; a caller can check it before the call. */
  predicate NoWrap(s: State, step: Step) {
    step.Reserve? ==> s.bump + AlignedSize(step.size) < POW64
  }

  lemma SafeAfterReserve(s: State, id: nat, size: nat)
    requires Safe(s) && Enabled(s, Reserve(id, size)) && NoWrap(s, Reserve(id, size))
    ensures Safe(Apply(s, Reserve(id, size)))
  {
  }

  /** A roll-back moves the pointer down only over the range that is given up. */
  lemma SafeAfterReclaim(s: State, id: nat)
    requires Safe(s) && Enabled(s, Reclaim(id))
    ensures Safe(Apply(s, Reclaim(id)))
  {
    var r, s1 := s.live[id], Apply(s, Reclaim(id));
    forall i | i in s1.live && s1.live[i].len > 0 ensures s1.live[i].va + s1.live[i].len <= s1.bump {
      assert !s.live[i].Meets(s.live[id]);
    }
  }

  lemma SafeAfterStep(s: State, step: Step)
    requires Safe(s) && Enabled(s, step) && NoWrap(s, step)
    ensures Safe(Apply(s, step))
  {
    match step
    case Reserve(id, size) => SafeAfterReserve(s, id, size);
    case Reclaim(id) => SafeAfterReclaim(s, id);
    case Release(id) =>
  }

  /** A run: each step enabled where it is taken, and no reservation wrapping. */
  ghost predicate IsRun(s: State, steps: seq<Step>)
    decreases |steps|
  {
    steps == [] || (Enabled(s, steps[0]) && NoWrap(s, steps[0]) && IsRun(Apply(s, steps[0]), steps[1..]))
  }

  ghost function After(s: State, steps: seq<Step>): State
    requires IsRun(s, steps)
    decreases |steps|
  {
    if steps == [] then s else After(Apply(s, steps[0]), steps[1..])
  }

  /** Whatever the order in which cores reserve, roll back and free. */
  lemma {:induction false} EveryRunIsSafe(s: State, steps: seq<Step>)
    requires Safe(s) && IsRun(s, steps)
    ensures Safe(After(s, steps))
    decreases |steps|
  {
    if steps != [] {
      SafeAfterStep(s, steps[0]);
      EveryRunIsSafe(Apply(s, steps[0]), steps[1..]);
    }
  }

  /** After any run from the start, what a core is given next meets nothing that another core holds. */
  lemma NewRangeIsOwn(steps: seq<Step>, id: nat, size: nat, other: nat)
    requires IsRun(INITIAL, steps) && Enabled(After(INITIAL, steps), Reserve(id, size))
    requires NoWrap(After(INITIAL, steps), Reserve(id, size)) && other in After(INITIAL, steps).live
    ensures var s := After(INITIAL, steps);
            var s1 := Apply(s, Reserve(id, size));
            id in s1.live ==> other in s1.live && !s1.live[id].Meets(s1.live[other])
  {
    EveryRunIsSafe(INITIAL, steps);
    SafeAfterReserve(After(INITIAL, steps), id, size);
  }

  /**
    * The condition is exact: in a safe state, reserving keeps the state safe if and only if
    * the bump pointer plus the rounded size stays below 2^64.
    */
  lemma ReserveIsSafeExactly(s: State, id: nat, size: nat)
    requires Safe(s) && Enabled(s, Reserve(id, size))
    ensures Safe(Apply(s, Reserve(id, size))) <==> s.bump + AlignedSize(size) < POW64
  {
    if s.bump + AlignedSize(size) < POW64 {
      SafeAfterReserve(s, id, size);
    } else {
      var s1 := Apply(s, Reserve(id, size));
      assert s1.bump == s.bump + AlignedSize(size) - POW64;
      assert s1.live[id].len > 0 && s1.live[id].va + s1.live[id].len > s1.bump;
    }
  }

  /** The sizes that round without wrapping to what the window can hold are all within the condition. */
  lemma WindowSizesDoNotWrap(s: State, id: nat, size: nat)
    requires Safe(s) && size <= 0xFFFF_FFFE_0000_0000
    ensures NoWrap(s, Reserve(id, size)) && size <= AlignedSize(size) < size + 4096
  {
  }

  /** A size for which the check passes and the pointer falls below the base. */
  lemma WrapIsReachable()
    ensures var size := 0xFFFF_FFFF_FFFF_F000;
            && Enabled(INITIAL, Reserve(0, size)) && !NoWrap(INITIAL, Reserve(0, size))
            && Apply(INITIAL, Reserve(0, size)).bump == DMA_BASE - 4096
  {
    assert PageCount(0xFFFF_FFFF_FFFF_F000) == 0xF_FFFF_FFFF_FFFF;
  }

  /** Three cores, one of them with such a size: two of the ranges they hold meet. */
  lemma TwoRangesMeet()
    ensures var step0, step1, step2 := Reserve(0, 4096), Reserve(1, 0xFFFF_FFFF_FFFF_E000), Reserve(2, 8192);
            && Enabled(INITIAL, step0)
            && var s1 := Apply(INITIAL, step0);
               && Enabled(s1, step1)
               && var s2 := Apply(s1, step1);
                  && Enabled(s2, step2)
                  && var s3 := Apply(s2, step2);
                     0 in s3.live && 2 in s3.live && s3.live[0].Meets(s3.live[2])
  {
    assert AlignedSize(4096) == 4096 && AlignedSize(8192) == 8192;
    assert AlignedSize(0xFFFF_FFFF_FFFF_E000) == 0xFFFF_FFFF_FFFF_E000;
    hide AlignedSize;
    var s1 := Apply(INITIAL, Reserve(0, 4096));
    assert s1 == State(DMA_BASE + 4096, map[0 := Range(DMA_BASE, 4096)]);
    var s2 := Apply(s1, Reserve(1, 0xFFFF_FFFF_FFFF_E000));
    assert s2 == State(DMA_BASE - 4096, s1.live[1 := Range(DMA_BASE + 4096, 0xFFFF_FFFF_FFFF_E000)]);
    var s3 := Apply(s2, Reserve(2, 8192));
    assert s3.live[2] == Range(DMA_BASE - 4096, 8192);
  }
}
