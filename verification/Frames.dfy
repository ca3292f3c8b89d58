/** The physical frame allocator: one bit per 4 KiB frame, in 64 bit words. */
module Frames {
  import opened Machine

  const PAGE_SIZE: int := 4096
  const PHYS_MEM_END: int := 0x3F80_0000

  /** A 64 bit word by its bits, the least significant one first. */
  type Word = w: seq<bool> | |w| == 64 witness seq(64, _ => false)

  /** `round_up` to a multiple of the page size, in 64 bit arithmetic. */
  function RoundUp(v: nat): (r: nat)
    ensures v + PAGE_SIZE <= POW64 ==> v <= r < v + PAGE_SIZE
    ensures r % PAGE_SIZE == 0
  {
    (v + PAGE_SIZE - 1) % POW64 / PAGE_SIZE * PAGE_SIZE
  }

  /** `__builtin_ctzll(~w)`: the position of the lowest 0 bit. */
  function LowestZero(w: Word, from: nat): (b: nat)
    requires from < 64 && exists j :: from <= j < 64 && !w[j]
    ensures from <= b < 64 && !w[b]
    ensures forall j | from <= j < b :: w[j]
    decreases 64 - from
  {
    if !w[from] then from else LowestZero(w, from + 1)
  }

  /** `n` consecutive free frames starting at frame `s`. */
  ghost predicate IsRun(bits: seq<bool>, n: nat, s: nat) {
    s + n <= |bits| && forall i | s <= i < s + n :: !bits[i]
  }

  ghost predicate LowestRun(bits: seq<bool>, n: nat, s: nat) {
    IsRun(bits, n, s) && forall t | 0 <= t < s :: !IsRun(bits, n, t)
  }

  /** A request for `n` frames that cannot be met. */
  ghost predicate NoRun(bits: seq<bool>, n: nat) {
    n == 0 || forall s :: !IsRun(bits, n, s)
  }

  /** `bits` with a run marked as used. */
  function Marked(bits: seq<bool>, n: nat, s: nat): (r: seq<bool>)
    ensures |r| == |bits|
  {
    seq(|bits|, i requires 0 <= i < |bits| => s <= i < s + n || bits[i])
  }

  /** There is at most one lowest run, and there is one exactly when there is any run. */
  lemma LowestRunIsTotal(bits: seq<bool>, n: nat)
    ensures (exists s :: LowestRun(bits, n, s)) <==> exists s :: IsRun(bits, n, s)
    ensures forall s, t | LowestRun(bits, n, s) && LowestRun(bits, n, t) :: s == t
  {
    if s :| IsRun(bits, n, s) {
      var t := LowestBelow(bits, n, s);
    }
  }

  lemma {:induction false} LowestBelow(bits: seq<bool>, n: nat, s: nat) returns (t: nat)
    requires IsRun(bits, n, s)
    ensures LowestRun(bits, n, t)
    decreases s
  {
    if r :| 0 <= r < s && IsRun(bits, n, r) {
      t := LowestBelow(bits, n, r);
    } else {
      t := s;
    }
  }

  /** A run of one frame is the lowest free frame. */
  lemma LowestRunOfOne(bits: seq<bool>, s: nat)
    ensures LowestRun(bits, 1, s) <==> s < |bits| && !bits[s] && forall i | 0 <= i < s :: bits[i]
  {
    if s < |bits| {
      assert IsRun(bits, 1, s) <==> !bits[s];
    }
    if LowestRun(bits, 1, s) {
      forall i | 0 <= i < s ensures bits[i] {
        assert !IsRun(bits, 1, i);
      }
    } else if s < |bits| && forall i | 0 <= i < s :: bits[i] {
      forall t | 0 <= t < s ensures !IsRun(bits, 1, t) {
        assert bits[t];
      }
    }
  }

  /** Two searches of the same bitmap for one frame, by whatever route, find the same frame. */
  lemma SameFrame(bits: seq<bool>, s: nat, t: nat)
    requires LowestRun(bits, 1, s)
    ensures LowestRun(bits, 1, t) <==> s == t
  {
    LowestRunIsTotal(bits, 1);
  }

  /** Bit `i` of a bitmap. */
  function BitOf(words: seq<Word>, i: nat): bool
    requires i < 64 * |words|
  {
    words[i / 64][i % 64]
  }

  /** The first `n` bits of a bitmap. */
  function BitsOf(words: seq<Word>, n: nat): (b: seq<bool>)
    requires n <= 64 * |words|
    ensures |b| == n
  {
    seq(n, i requires 0 <= i < n => BitOf(words, i))
  }

  /** The bits of the last word in use that stand for no frame are set. */
  ghost predicate Padded(words: seq<Word>, n: nat)
    requires n <= 64 * |words|
  {
    forall i | n <= i < (n + 63) / 64 * 64 :: BitOf(words, i)
  }

  lemma WordsInUse(n: nat, words: nat)
    requires n <= 64 * words
    ensures (n + 63) / 64 <= words && n <= (n + 63) / 64 * 64 <= 64 * words
  {
  }

  /** Setting or clearing one bit. */
  lemma BitAfterUpdate(words: seq<Word>, k: nat, v: bool, i: nat)
    requires k < 64 * |words| && i < 64 * |words|
    ensures BitOf(words[k / 64 := words[k / 64][k % 64 := v]], i) == if i == k then v else BitOf(words, i)
  {
    assert i / 64 == k / 64 && i % 64 == k % 64 ==> i == k;
  }

  lemma BitsAfterUpdate(words: seq<Word>, n: nat, k: nat, v: bool)
    requires n <= 64 * |words| && k < n && Padded(words, n)
    ensures var w := words[k / 64 := words[k / 64][k % 64 := v]];
            BitsOf(w, n) == BitsOf(words, n)[k := v] && Padded(w, n)
  {
    var w := words[k / 64 := words[k / 64][k % 64 := v]];
    WordsInUse(n, |words|);
    forall i | 0 <= i < (n + 63) / 64 * 64 ensures BitOf(w, i) == if i == k then v else BitOf(words, i) {
      BitAfterUpdate(words, k, v, i);
    }
  }

  /** The addresses of `n` consecutive frames. */
  ghost function Run(addr: int, n: nat): set<int> {
    set i | 0 <= i < n :: addr + i * PAGE_SIZE
  }

  /** The addresses of the free frames, frame 0 being at `start`. */
  ghost function FreeOf(bits: seq<bool>, start: int): set<int> {
    set i | 0 <= i < |bits| && !bits[i] :: start + i * PAGE_SIZE
  }

  lemma InRun(addr: int, n: nat, i: nat)
    ensures addr + i * PAGE_SIZE in Run(addr, n) <==> i < n
  {
  }

  lemma InFreeOf(bits: seq<bool>, start: int, i: nat)
    ensures start + i * PAGE_SIZE in FreeOf(bits, start) <==> i < |bits| && !bits[i]
  {
  }

  /** The set of free addresses says everything about the bitmap. */
  lemma FreeDeterminesBits(b0: seq<bool>, b1: seq<bool>, start: int)
    requires |b0| == |b1| && FreeOf(b0, start) == FreeOf(b1, start)
    ensures b0 == b1
  {
    forall i | 0 <= i < |b0| ensures b0[i] == b1[i] {
      InFreeOf(b0, start, i);
      InFreeOf(b1, start, i);
    }
  }

  lemma FreeAfterMark(bits: seq<bool>, start: int, n: nat, s: nat)
    requires IsRun(bits, n, s)
    ensures Run(start + s * PAGE_SIZE, n) <= FreeOf(bits, start)
    ensures FreeOf(Marked(bits, n, s), start) == FreeOf(bits, start) - Run(start + s * PAGE_SIZE, n)
  {
    var run, before, after := Run(start + s * PAGE_SIZE, n), FreeOf(bits, start), FreeOf(Marked(bits, n, s), start);
    forall a | a in run ensures a in before {
      var i :| 0 <= i < n && a == start + s * PAGE_SIZE + i * PAGE_SIZE;
      InFreeOf(bits, start, s + i);
    }
    forall a | a in before - run ensures a in after {
      var i :| 0 <= i < |bits| && !bits[i] && a == start + i * PAGE_SIZE;
      if s <= i {
        InRun(start + s * PAGE_SIZE, n, i - s);
      }
      InFreeOf(Marked(bits, n, s), start, i);
    }
    forall a | a in after ensures a in before && a !in run {
      var i :| 0 <= i < |bits| && !Marked(bits, n, s)[i] && a == start + i * PAGE_SIZE;
      InFreeOf(bits, start, i);
    }
  }

  lemma FreeAfterClear(bits: seq<bool>, start: int, s: nat)
    requires s < |bits|
    ensures FreeOf(bits[s := false], start) == FreeOf(bits, start) + {start + s * PAGE_SIZE}
  {
    var before, after := FreeOf(bits, start), FreeOf(bits[s := false], start);
    InFreeOf(bits[s := false], start, s);
    forall a | a in before ensures a in after {
      var i :| 0 <= i < |bits| && !bits[i] && a == start + i * PAGE_SIZE;
      InFreeOf(bits[s := false], start, i);
    }
    forall a | a in after && a != start + s * PAGE_SIZE ensures a in before {
      var i :| 0 <= i < |bits| && !bits[s := false][i] && a == start + i * PAGE_SIZE;
      InFreeOf(bits, start, i);
    }
  }

  lemma RunOfOne(addr: int)
    ensures Run(addr, 1) == {addr}
  {
    InRun(addr, 1, 0);
  }

  lemma {:induction false} RunSize(addr: int, n: nat)
    ensures |Run(addr, n)| == n
  {
    if n > 0 {
      RunSize(addr, n - 1);
      InRun(addr, n - 1, n - 1);
      assert Run(addr, n) == Run(addr, n - 1) + {addr + (n - 1) * PAGE_SIZE};
    }
  }

  lemma NoneFree(bits: seq<bool>, start: int)
    ensures FreeOf(bits, start) == {} <==> forall s: nat :: !IsRun(bits, 1, s)
  {
    if s: nat :| IsRun(bits, 1, s) {
      InFreeOf(bits, start, s);
    }
    forall i | 0 <= i < |bits| && !bits[i] ensures IsRun(bits, 1, i) {
    }
  }

  /**
    * What the padding is for: with no frame free, the scan of whole words for a 0 bit finds nothing
    * if and only if the padding bits are set.
    */
  lemma PaddingDecides(words: seq<Word>, n: nat)
    requires n <= 64 * |words| && forall i | 0 <= i < n :: BitOf(words, i)
    ensures Padded(words, n) <==> forall i | 0 <= i < (n + 63) / 64 :: words[i] == seq(64, _ => true)
  {
    WordsInUse(n, |words|);
    if Padded(words, n) {
      forall i | 0 <= i < (n + 63) / 64 ensures words[i] == seq(64, _ => true) {
        forall j | 0 <= j < 64 ensures words[i][j] {
          assert BitOf(words, 64 * i + j);
        }
      }
    } else {
      var k :| n <= k < (n + 63) / 64 * 64 && !BitOf(words, k);
      assert !words[k / 64][k % 64];
    }
  }

  class Pmm {
    const bitmap: array<Word>
    /** The address at which the bitmap lies. */
    const bitmapAddr: nat
    const physMemStart: nat
    const totalFrames: nat

    /** What holds of the constants that `pmm_init` computes. */
    ghost predicate Layout() {
      && 0 < physMemStart && physMemStart % PAGE_SIZE == 0 && bitmapAddr + 8 * bitmap.Length <= physMemStart
      && physMemStart + totalFrames * PAGE_SIZE <= PHYS_MEM_END
      && totalFrames <= 64 * bitmap.Length
    }

    ghost predicate Valid()
      reads bitmap
    {
      Layout() && Padded(bitmap[..], totalFrames)
    }

    /** One boolean per frame: whether it is in use. */
    ghost function Bits(): (b: seq<bool>)
      requires Layout()
      reads bitmap
      ensures |b| == totalFrames
    {
      BitsOf(bitmap[..], totalFrames)
    }

    /**
      * `pmm_init`: the bitmap of 8 byte words begins less than one page above the kernel image, the frames less than
      * one page above the bitmap. They are all free, meet neither of the two, and leave less than a page unused.
      */
    constructor (kernelEnd: nat)
      requires kernelEnd <= PHYS_MEM_END
      ensures Valid() && fresh(bitmap)
      ensures Bits() == seq(totalFrames, _ => false)
      ensures kernelEnd <= bitmapAddr < kernelEnd + 4096
      ensures bitmapAddr + 8 * bitmap.Length <= physMemStart < bitmapAddr + 8 * bitmap.Length + 4096
      ensures 0x3F80_0000 - 4096 < physMemStart + totalFrames * 4096 <= 0x3F80_0000
      ensures Free() == All() && |All()| == totalFrames
      ensures forall a | a in All() :: kernelEnd <= bitmapAddr + 8 * bitmap.Length <= a && a + 4096 <= 0x3F80_0000
      ensures forall a | a in All() :: a % 4096 == 0
    {
      hide FreeOf, Run, BitsOf, Padded;
      var mapAddr := RoundUp(kernelEnd);
      var managedBytes := PHYS_MEM_END - mapAddr;
      var maxFrames := managedBytes / PAGE_SIZE;
      var words := (maxFrames + 63) / 64;
      var start := RoundUp(mapAddr + words * 8);
      var total := (PHYS_MEM_END - start) / PAGE_SIZE;
      InitSizes(mapAddr, maxFrames, words, start, total);
      bitmapAddr, physMemStart, totalFrames := mapAddr, start, total;
      bitmap := new Word[words](_ => seq(64, _ => false));
      new;
      SetPadding();
      Emptied();
    }

    /** With no frame in use all frames are free, and they lie end to end. */
    lemma Emptied()
      requires Layout() && Bits() == seq(totalFrames, _ => false)
      ensures Free() == All() && |All()| == totalFrames
      ensures forall a | a in All() ::
                physMemStart <= a && a + PAGE_SIZE <= physMemStart + totalFrames * PAGE_SIZE && a % PAGE_SIZE == 0
    {
      RunSize(physMemStart, totalFrames);
      forall a | a in All() ensures a in Free() {
        var i :| 0 <= i < totalFrames && a == physMemStart + i * PAGE_SIZE;
        InFreeOf(Bits(), physMemStart, i);
      }
    }

    /** The padding bits of the last word are marked as used. */
    method SetPadding()
      requires Layout() && forall k | 0 <= k < bitmap.Length :: bitmap[k] == seq(64, _ => false)
      modifies bitmap
      ensures Valid() && Bits() == seq(totalFrames, _ => false)
    {
      var lastWord, validBits := totalFrames / 64, totalFrames % 64;
      if validBits != 0 {
        var w := bitmap[lastWord];
        bitmap[lastWord] := seq(64, b requires 0 <= b < 64 => b >= validBits || w[b]);
      }
    }

    static lemma InitSizes(bitmapAddr: nat, maxFrames: nat, words: nat, start: nat, total: int)
      requires bitmapAddr % PAGE_SIZE == 0 && bitmapAddr <= PHYS_MEM_END
      requires maxFrames == (PHYS_MEM_END - bitmapAddr) / PAGE_SIZE
      requires words == (maxFrames + 63) / 64 && start == RoundUp(bitmapAddr + words * 8)
      requires total == (PHYS_MEM_END - start) / PAGE_SIZE
      ensures 0 < start <= PHYS_MEM_END && 0 <= total <= maxFrames <= 64 * words
      ensures bitmapAddr + 8 * words <= start < bitmapAddr + 8 * words + PAGE_SIZE
      ensures PHYS_MEM_END - PAGE_SIZE < start + total * PAGE_SIZE <= PHYS_MEM_END
    {
    }

    function Address(idx: nat): int {
      physMemStart + idx * PAGE_SIZE
    }

    /** The physical addresses of the free frames. */
    ghost function Free(): (f: set<int>)
      requires Layout()
      reads bitmap
      ensures f <= All()
    {
      FreeOf(Bits(), physMemStart)
    }

    /** The physical addresses of all frames. */
    ghost function All(): (f: set<int>) {
      Run(physMemStart, totalFrames)
    }

    lemma ValidLayout()
      requires Valid()
      ensures Layout()
    {
    }

    lemma AddressesAreFrames()
      requires Layout()
      ensures forall a | a in All() :: 0 < a < PHYS_MEM_END && a % PAGE_SIZE == 0
      ensures forall a | a in All() :: bitmapAddr + 8 * bitmap.Length <= a
    {
    }

    method AllocFrame() returns (addr: int)
      requires Valid()
      modifies bitmap
      ensures Valid()
      ensures addr == 0 ==> Bits() == old(Bits()) && forall s: nat :: !IsRun(old(Bits()), 1, s)
      ensures addr != 0 ==>
                exists s :: LowestRun(old(Bits()), 1, s) && addr == Address(s) && Bits() == Marked(old(Bits()), 1, s)
      ensures addr == 0 <==> old(Free()) == {}
      ensures addr == 0 ==> Free() == {}
      ensures addr != 0 ==> addr in old(Free()) && Free() == old(Free()) - {addr}
    {
      ghost var b := Bits();
      NoneFree(b, physMemStart);
      WordsInUse(totalFrames, bitmap.Length);
      var i := 0;
      while i < (totalFrames + 63) / 64
        invariant 0 <= i <= (totalFrames + 63) / 64
        invariant forall k | 0 <= k < 64 * i :: BitOf(bitmap[..], k)
      {
        var w := bitmap[i];
        if w != seq(64, _ => true) {
          var bitIndex := LowestZero(w, 0);
          var idx := i * 64 + bitIndex;
          FirstZeroFound(bitmap[..], totalFrames, i, bitIndex);
          BitsAfterUpdate(bitmap[..], totalFrames, idx, true);
          ghost var was := bitmap[..];
          bitmap[i] := w[bitIndex := true];
          assert bitmap[..] == was[i := was[i][bitIndex := true]];
          assert Bits() == Marked(b, 1, idx);
          FreeAfterMark(b, physMemStart, 1, idx);
          RunOfOne(Address(idx));
          return Address(idx);
        }
        forall k | 0 <= k < 64 * (i + 1) ensures BitOf(bitmap[..], k) {
        }
        i := i + 1;
      }
      forall s: nat ensures !IsRun(b, 1, s) {
        if s < |b| {
          assert b[s] == BitOf(bitmap[..], s);
          assert s <= s < s + 1;
        }
      }
      addr := 0;
    }

    /** The first 0 bit of the first word that is not full is a frame, by the padding, and the lowest free one. */
    lemma FirstZeroFound(words: seq<Word>, n: nat, i: nat, bit: nat)
      requires n <= 64 * |words| && i < (n + 63) / 64 <= |words| && bit < 64 && Padded(words, n)
      requires forall k | 0 <= k < 64 * i :: BitOf(words, k)
      requires !words[i][bit] && forall j | 0 <= j < bit :: words[i][j]
      ensures i * 64 + bit < n && LowestRun(BitsOf(words, n), 1, i * 64 + bit)
      ensures (i * 64 + bit) / 64 == i && (i * 64 + bit) % 64 == bit
    {
      var idx := i * 64 + bit;
      assert !BitOf(words, idx);
      forall k | 0 <= k < idx ensures BitOf(words, k) {
        assert k >= 64 * i ==> k / 64 == i && k % 64 == k - 64 * i;
      }
      LowestRunOfOne(BitsOf(words, n), idx);
    }

    method AllocFrames(count: nat) returns (addr: int)
      requires Valid()
      modifies bitmap
      ensures Valid()
      ensures addr == 0 <==> NoRun(old(Bits()), count)
      ensures addr == 0 ==> Bits() == old(Bits())
      ensures addr != 0 ==>
                && count > 0
                && exists s :: LowestRun(old(Bits()), count, s) && addr == Address(s)
                    && Bits() == Marked(old(Bits()), count, s)
      ensures addr == 0 ==> Free() == old(Free())
      ensures addr != 0 ==> Run(addr, count) <= old(Free()) && Free() == old(Free()) - Run(addr, count)
    {
      if count == 0 {
        return 0;
      }
      ghost var b := Bits();
      var runStart, runLen := 0, 0;
      var idx := 0;
      while idx < totalFrames
        invariant 0 <= idx <= totalFrames && 0 <= runLen < count && runLen <= idx
        invariant runLen > 0 ==> runStart == idx - runLen
        invariant forall i | idx - runLen <= i < idx :: !b[i]
        invariant idx - runLen > 0 ==> b[idx - runLen - 1]
        invariant forall s | 0 <= s && s + count <= idx :: !IsRun(b, count, s)
      {
        var used := BitOf(bitmap[..], idx);
        assert b[idx] == used;
        if used {
          forall s | 0 <= s && s + count <= idx + 1 ensures !IsRun(b, count, s) {
            assert s + count == idx + 1 ==> s <= idx < s + count;
          }
          runLen := 0;
          idx := idx + 1;
          continue;
        }
        if runLen == 0 {
          runStart := idx;
        }
        runLen := runLen + 1;
        if runLen == count {
          assert LowestRun(b, count, runStart);
          MarkRun(runStart, count);
          FreeAfterMark(b, physMemStart, count, runStart);
          return Address(runStart);
        }
        forall s | 0 <= s && s + count <= idx + 1 ensures !IsRun(b, count, s) {
          assert s + count == idx + 1 ==> s <= idx - runLen < s + count;
        }
        idx := idx + 1;
      }
      addr := 0;
    }

    method MarkRun(s: nat, n: nat)
      requires Valid() && s + n <= totalFrames
      modifies bitmap
      ensures Valid() && Bits() == Marked(old(Bits()), n, s)
    {
      ghost var b := Bits();
      WordsInUse(totalFrames, bitmap.Length);
      for i := s to s + n
        invariant Valid() && Bits() == Marked(b, i - s, s)
      {
        BitsAfterUpdate(bitmap[..], totalFrames, i, true);
        ghost var w := bitmap[..];
        bitmap[i / 64] := bitmap[i / 64][i % 64 := true];
        assert bitmap[..] == w[i / 64 := w[i / 64][i % 64 := true]];
        assert Marked(b, i - s, s)[i := true] == Marked(b, i + 1 - s, s);
      }
      assert s + n - s == n;
    }

    /** Addresses that are not those of a managed frame are ignored. */
    method FreeFrame(addr: nat)
      requires Valid()
      modifies bitmap
      ensures Valid()
      ensures addr !in All() ==> Bits() == old(Bits())
      ensures forall s | 0 <= s < totalFrames && addr == Address(s) :: Bits() == old(Bits())[s := false]
      ensures Free() == if addr in All() then old(Free()) + {addr} else old(Free())
    {
      if addr < physMemStart || addr >= PHYS_MEM_END {
        return;
      }
      if addr % PAGE_SIZE != 0 {
        return;
      }
      var frameIndex := (addr - physMemStart) / PAGE_SIZE;
      if frameIndex >= totalFrames {
        return;
      }
      var wordIndex, bitIndex := frameIndex / 64, frameIndex % 64;
      WordsInUse(totalFrames, bitmap.Length);
      BitsAfterUpdate(bitmap[..], totalFrames, frameIndex, false);
      ghost var w := bitmap[..];
      if bitmap[wordIndex][bitIndex] {
        bitmap[wordIndex] := bitmap[wordIndex][bitIndex := false];
        assert bitmap[..] == w[wordIndex := w[wordIndex][bitIndex := false]];
      }
      assert addr == Address(frameIndex) && addr in All();
      FreeAfterClear(old(Bits()), physMemStart, frameIndex);
    }
  }
}
