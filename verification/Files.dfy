/**
 An open file: read/write pointer, current cluster and a private sector buffer that is
 written back late.  The operations refine those of a flat byte sequence.
 */
module Files {
  import opened Machine
  import opened FatEntries
  import opened Storage
  import opened FatChains
  import opened Volumes
  import opened Allocator
  import opened FileLayout
  import opened DataArea
  import opened FlatFile

  /** The chain of a file, which is empty exactly when the file has no start cluster. */
  ghost predicate ChainOk(g: Geometry, t: FatTable, chain: seq<nat>, sclust: nat) {
    && Clusters(g, chain)
    && if sclust == 0 then chain == [] else IsChain(t, chain) && chain[0] == sclust
  }

  /** The buffer shows sector `sect`: dirty, as sector `at` of the file, or equal to the card. */
  ghost predicate BufferOk(g: Geometry, chain: seq<nat>, l: seq<Sector>, dirty: bool, sect: int, at: nat, b: Sector)
    requires g.Valid() && |l| == g.total
  {
    if sect == 0 then !dirty
    else
      && InData(g, sect)
      && if dirty then Quot(at, g.csize) < |chain| && sect == FileSector(g, chain, at) else b == l[sect]
  }

  /** An access to the FAT changes neither the file's bytes nor what the buffer shows. */
  lemma FatAccessKeepsFile(g: Geometry, chain: seq<nat>, l: seq<Sector>, l': seq<Sector>,
                           dirty: bool, sect: int, at: nat, b: Sector, size: nat)
    requires Clusters(g, chain) && |l| == g.total && size <= SS * Sectors(g, chain)
    requires SameOutsideFats(g, l, l') && BufferOk(g, chain, l, dirty, sect, at, b)
    ensures BufferOk(g, chain, l', dirty, sect, at, b)
    ensures FileBytes(g, chain, Overlay(l', dirty, sect, b), size) ==
              FileBytes(g, chain, Overlay(l, dirty, sect, b), size)
    ensures SameOutsideFile(g, chain, l, l')
  {
    if dirty {
      FileSectorInData(g, chain, at);
    }
    forall i: nat | i < Sectors(g, chain)
      ensures Quot(i, g.csize) < |chain| && 0 <= FileSector(g, chain, i) < g.total
      ensures Overlay(l', dirty, sect, b)[FileSector(g, chain, i)] ==
                Overlay(l, dirty, sect, b)[FileSector(g, chain, i)]
    {
      LinkOf(g, chain, i);
      FileSectorInData(g, chain, i);
    }
    SameFileBytes(g, chain, Overlay(l, dirty, sect, b), Overlay(l', dirty, sect, b), size);
  }

  /** The cluster of a position on a cluster boundary follows the cluster of the byte before it. */
  lemma BoundaryLink(g: Geometry, p: nat)
    requires g.csize > 0 && p > 0 && p % SS == 0 && Rem(p / SS, g.csize) == 0
    ensures Quot(p / SS, g.csize) > 0 && Quot((p - 1) / SS, g.csize) == Quot(p / SS, g.csize) - 1
  {
    assert (p - 1) / SS == p / SS - 1;
    LinkBefore(g, p / SS);
    LinkOf(g, [], p / SS - 1);
  }

  /** Elsewhere it is that very cluster. */
  lemma InnerLink(g: Geometry, p: nat)
    requires g.csize > 0 && p > 0 && (p % SS != 0 || Rem(p / SS, g.csize) != 0)
    ensures Quot((p - 1) / SS, g.csize) == Quot(p / SS, g.csize)
  {
    if p % SS == 0 {
      assert (p - 1) / SS == p / SS - 1;
      LinkBefore(g, p / SS);
    } else {
      assert (p - 1) / SS == p / SS;
    }
  }

  /** Positions below the capacity of a chain have a cluster. */
  lemma PositionHasLink(g: Geometry, chain: seq<nat>, p: nat)
    requires g.csize > 0
    ensures p < SS * Sectors(g, chain) <==> Quot(p / SS, g.csize) < |chain|
  {
    LinkOf(g, chain, p / SS);
  }

  /** Laying a sector over the card image changes its part of a span. */
  lemma SpanOfOverlay(l: seq<Sector>, dirty: bool, sect: int, b: Sector, s: nat, m: nat)
    requires (dirty ==> 0 <= sect < |l|) && s + m <= |l|
    ensures !(dirty && s <= sect < s + m) ==> Span(Overlay(l, dirty, sect, b), s, m) == Span(l, s, m)
    ensures dirty && s <= sect < s + m ==>
              var d := SS * (sect - s);
              Span(Overlay(l, dirty, sect, b), s, m) == Span(l, s, m)[..d] + b + Span(l, s, m)[d + SS..]
  {
    if dirty && s <= sect < s + m {
      var d := SS * (sect - s);
      var x, y := Span(Overlay(l, dirty, sect, b), s, m), Span(l, s, m)[..d] + b + Span(l, s, m)[d + SS..];
      forall k | 0 <= k < SS * m ensures x[k] == y[k] {
        if d <= k < d + SS {
          QuotRem(k, SS, sect - s, k - d);
        } else {
          assert k / SS != sect - s;
        }
      }
    }
  }

  /** A sector `b` stored `d` bytes into the stretch `[at, at + n)` of a buffer. */
  lemma Patched(x: seq<byte>, y: seq<byte>, at: nat, n: nat, d: nat, b: Sector)
    requires |x| == |y| && at + n <= |x| && d + SS <= n
    requires forall k | 0 <= k < |y| :: y[k] == if at + d <= k < at + d + SS then b[k - at - d] else x[k]
    ensures y[..at] == x[..at] && y[at + n..] == x[at + n..]
    ensures y[at..at + n] == x[at..at + n][..d] + b + x[at..at + n][d + SS..]
  {
  }

  /** Bytes of one sector of the file. */
  lemma PartOfSector(g: Geometry, chain: seq<nat>, l: seq<Sector>, size: nat, p: nat, n: nat)
    requires Clusters(g, chain) && |l| == g.total && size <= SS * Sectors(g, chain)
    requires p + n <= size && p % SS + n <= SS && Quot(p / SS, g.csize) < |chain|
    ensures var s := FileSector(g, chain, p / SS);
            0 <= s < g.total && FileBytes(g, chain, l, size)[p..p + n] == l[s][p % SS..p % SS + n]
  {
    FileSectorInData(g, chain, p / SS);
    var s := FileSector(g, chain, p / SS);
    forall k | p <= k < p + n ensures FileBytes(g, chain, l, size)[k] == l[s][p % SS + (k - p)] {
      QuotRem(k, SS, p / SS, p % SS + (k - p));
    }
  }

  /** Moving on inside one sector. */
  lemma AdvanceInSector(p: nat, n: nat)
    requires 1 <= n && p % SS + n <= SS
    ensures (p + n - 1) / SS == p / SS
    ensures (p + n) % SS != 0 ==> (p + n) / SS == p / SS
  {
    QuotRem(p + n - 1, SS, p / SS, p % SS + n - 1);
    if p % SS + n < SS {
      QuotRem(p + n, SS, p / SS, p % SS + n);
    } else {
      QuotRem(p + n, SS, p / SS + 1, 0);
    }
  }

  /** Moving on by whole sectors inside one cluster. */
  lemma AdvanceSectors(g: Geometry, chain: seq<nat>, p: nat, m: nat)
    requires g.csize > 0 && p % SS == 0 && 1 <= m && Rem(p / SS, g.csize) + m <= g.csize
              && Quot(p / SS, g.csize) < |chain|
    ensures (p + SS * m) % SS == 0 && Quot((p + SS * m - 1) / SS, g.csize) == Quot(p / SS, g.csize)
  {
    QuotRem(p + SS * m, SS, p / SS + m, 0);
    QuotRem(p + SS * m - 1, SS, p / SS + m - 1, SS - 1);
    FileSectorRun(g, chain, p / SS, m - 1);
  }

  /** The first `br` bytes of the destination hold the bytes of `c` from `p` on, the others are those of `was`. */
  ghost predicate Delivered(was: seq<byte>, y: seq<byte>, br: nat, c: seq<byte>, p: nat) {
    |y| == |was| && br <= |y| && p + br <= |c| && y[..br] == c[p..p + br] && y[br..] == was[br..]
  }

  lemma NothingDelivered(was: seq<byte>, c: seq<byte>, p: nat)
    requires p <= |c|
    ensures Delivered(was, was, 0, c, p)
  {
  }

  lemma AllDelivered(was: seq<byte>, y: seq<byte>, n: nat, c: seq<byte>, p: nat)
    requires Delivered(was, y, n, c, p)
    ensures p + n <= |c| && n <= |y| == |was| && y[..n] == c[p..p + n] && y[n..] == was[n..]
  {
  }

  /** One more piece of a transfer into a buffer. */
  lemma MoreDelivered(was: seq<byte>, x: seq<byte>, y: seq<byte>, br: nat, n: nat, c: seq<byte>, p: nat)
    requires Delivered(was, x, br, c, p) && |y| == |x| && br + n <= |x| && p + br + n <= |c|
    requires y[..br] == x[..br] && y[br..br + n] == c[p + br..p + br + n] && y[br + n..] == x[br + n..]
    ensures Delivered(was, y, br + n, c, p)
  {
    assert y[..br + n] == y[..br] + y[br..br + n];
    assert c[p..p + br + n] == c[p..p + br] + c[p + br..p + br + n];
    forall k | br + n <= k < |y| ensures y[k] == was[k] {
      assert y[k] == y[br + n..][k - br - n] == x[br + n..][k - br - n] == x[br..][k - br];
    }
  }

  /** No entry holds the reserved value 1, which every search reports as an internal error. */
  ghost predicate NoOnes(t: FatTable) {
    forall c | 2 <= c < |t| :: t[c] != 1
  }

  /** The FAT has changed on clusters of `chain` only, and nothing it stands for was lost. */
  ghost predicate FatKept(t: FatTable, t': FatTable, free: nat, free': nat, chain: seq<nat>) {
    && |t'| == |t|
    && (forall c | 2 <= c < |t| && c !in chain :: t'[c] == t[c])
    && (NoOnes(t) ==> NoOnes(t'))
    && (CountRight(t, free) ==> CountRight(t', free'))
  }

  /** What the result of `create_chain` on link `q - 1` of a file means for the file. */
  lemma FollowOrStretch(g: Geometry, t: FatTable, chain: seq<nat>, sclust: nat, q: nat,
                        last: nat, free: nat, r: nat, t': FatTable, free': nat)
    requires ChainOk(g, t, chain, sclust) && |t| == g.nFatent
    requires q <= |chain| && (q == 0 ==> chain == [])
    requires Created(t, if q == 0 then 0 else chain[q - 1], last, free, Eoc(g), r, t')
    requires CountRight(t, free) ==> CountRight(t', free')
    ensures q < |chain| ==> t' == t && r == chain[q] && FatKept(t, t', free, free', chain)
    ensures q == |chain| && r < 2 ==> t' == t && FatKept(t, t', free, free', chain)
    ensures q == |chain| && r == 0 ==> CountRight(t, free) ==> Full(t)
    ensures q == |chain| && r == 1 ==> !NoOnes(t)
    ensures q == |chain| && r >= 2 ==>
              && ChainOk(g, t', chain + [r], if q == 0 then r else sclust)
              && FatKept(t, t', free, free', chain + [r]) && 2 <= r < |t| && t[r] == 0
  {
    CountBounds(t);
    if q < |chain| {
      assert t[chain[q - 1]] == chain[q];
    } else if r >= 2 {
      if q > 0 {
        LinkedChain(t, chain, r, Eoc(g));
        FreeIsOnNoChain(t, chain, r);
        assert chain[q - 1] in chain + [r];
        assert (chain + [r])[0] == chain[0];
      }
      assert r in chain + [r];
    }
  }

  /** A longer chain holds the same bytes. */
  lemma GrownChain(g: Geometry, chain: seq<nat>, c: nat, l: seq<Sector>, size: nat, dirty: bool, sect: int, at: nat,
                   b: Sector)
    requires Clusters(g, chain) && Clusters(g, chain + [c]) && |l| == g.total && size <= SS * Sectors(g, chain)
    requires BufferOk(g, chain, l, dirty, sect, at, b)
    ensures size <= SS * Sectors(g, chain + [c])
    ensures BufferOk(g, chain + [c], l, dirty, sect, at, b)
    ensures FileBytes(g, chain + [c], Overlay(l, dirty, sect, b), size) ==
              FileBytes(g, chain, Overlay(l, dirty, sect, b), size)
  {
    Distance(g.csize, |chain|, |chain| + 1);
    var e := Overlay(l, dirty, sect, b);
    var x, y := FileBytes(g, chain + [c], e, size), FileBytes(g, chain, e, size);
    forall k | 0 <= k < size ensures x[k] == y[k] {
      LinkOf(g, chain, k / SS);
    }
  }

  /** The image `b` is `a` with `src` written over the `m` sectors from `s`. */
  ghost predicate RunWritten(a: seq<Sector>, b: seq<Sector>, s: int, m: nat, src: seq<byte>)
    requires |src| == SS * m
  {
    && |a| == |b| && 0 <= s && s + m <= |a|
    && (forall t | 0 <= t < |a| && !(s <= t < s + m) :: b[t] == a[t])
    && (forall t | s <= t < s + m :: b[t] == src[SS * (t - s)..SS * (t - s) + SS])
  }

  /** Overwriting a run of whole sectors splices their bytes into the file. */
  lemma RunSpliced(g: Geometry, chain: seq<nat>, a: seq<Sector>, b: seq<Sector>, i: nat, m: nat, src: seq<byte>,
                   size: nat)
    requires Clusters(g, chain) && |a| == |b| == g.total && |src| == SS * m
    requires Quot(i, g.csize) < |chain| && Rem(i, g.csize) + m <= g.csize
    requires SS * i <= size <= SS * Sectors(g, chain)
    requires RunWritten(a, b, FileSector(g, chain, i), m, src)
    ensures Max(size, SS * (i + m)) <= SS * Sectors(g, chain)
    ensures FileBytes(g, chain, b, Max(size, SS * (i + m))) == Splice(FileBytes(g, chain, a, size), SS * i, src)
  {
    RunFits(g, chain, i, m);
    var n := Max(size, SS * (i + m));
    var x, y := FileBytes(g, chain, b, n), Splice(FileBytes(g, chain, a, size), SS * i, src);
    forall k | 0 <= k < n ensures x[k] == y[k] {
      ByteAfterRun(g, chain, a, b, i, m, k);
      SpliceAt(FileBytes(g, chain, a, size), SS * i, src, k);
      if SS * i <= k < SS * (i + m) {
        var j := k / SS - i;
        assert 0 <= j < m && k - SS * i == SS * j + k % SS;
      }
    }
  }

  /** The chain has room for a run in one of its clusters. */
  lemma RunFits(g: Geometry, chain: seq<nat>, i: nat, m: nat)
    requires g.csize > 0 && Quot(i, g.csize) < |chain| && Rem(i, g.csize) + m <= g.csize
    ensures i + m <= Sectors(g, chain)
  {
    QuotLaw(i, g.csize);
    var q := Quot(i, g.csize);
    assert g.csize * (q + 1) == g.csize * q + g.csize;
    if q + 1 < |chain| {
      Distance(g.csize, q + 1, |chain|);
    }
  }

  /**
   Changing part of one sector splices it into the file.  On the growing edge the rest
   of the sector may hold anything.
   */
  lemma PartSpliced(g: Geometry, chain: seq<nat>, a: seq<Sector>, b: seq<Sector>, p: nat, data: seq<byte>, size: nat)
    requires Clusters(g, chain) && |a| == |b| == g.total && p <= size <= SS * Sectors(g, chain)
    requires Quot(p / SS, g.csize) < |chain| && 0 < |data| && p % SS + |data| <= SS
    requires var s := FileSector(g, chain, p / SS);
             && 0 <= s < g.total
             && (forall t | 0 <= t < |a| && t != s :: b[t] == a[t])
             && (forall r | 0 <= r < SS && (p % SS <= r < p % SS + |data| || p % SS != 0 || p < size) ::
                   b[s][r] == if p % SS <= r < p % SS + |data| then data[r - p % SS] else a[s][r])
    ensures Max(size, p + |data|) <= SS * Sectors(g, chain)
    ensures FileBytes(g, chain, b, Max(size, p + |data|)) == Splice(FileBytes(g, chain, a, size), p, data)
  {
    RunFits(g, chain, p / SS, 1);
    var n := Max(size, p + |data|);
    var x, y := FileBytes(g, chain, b, n), Splice(FileBytes(g, chain, a, size), p, data);
    forall k | 0 <= k < n ensures x[k] == y[k] {
      ByteAfterRun(g, chain, a, b, p / SS, 1, k);
      SpliceAt(FileBytes(g, chain, a, size), p, data, k);
      if p <= k < p + |data| {
        QuotRem(k, SS, p / SS, p % SS + (k - p));
      } else if k / SS == p / SS {
        assert k - p == k % SS - p % SS;
      }
    }
  }

  /** A patched buffer, laid over the card as a dirty one, splices the data into the file. */
  lemma Filled(g: Geometry, chain: seq<nat>, l: seq<Sector>, image: seq<Sector>, sect: int, was: Sector, b: Sector,
               p: nat, data: seq<byte>, size: nat)
    requires Clusters(g, chain) && |l| == |image| == g.total && p <= size <= SS * Sectors(g, chain)
    requires Quot(p / SS, g.csize) < |chain| && 0 < |data| && p % SS + |data| <= SS
    requires sect == FileSector(g, chain, p / SS) && InData(g, sect)
    requires forall t | 0 <= t < |image| && t != sect :: image[t] == l[t]
    requires (image[sect] == was || (p % SS == 0 && p == size)) && b == Splice(was, p % SS, data)
    ensures Max(size, p + |data|) <= SS * Sectors(g, chain)
    ensures BufferOk(g, chain, l, true, sect, p / SS, b)
    ensures FileBytes(g, chain, Overlay(l, true, sect, b), Max(size, p + |data|)) ==
            Splice(FileBytes(g, chain, image, size), p, data)
  {
    hide FileBytes, FileSector, Quot, Sectors, Splice;
    var e := Overlay(l, true, sect, b);
    assert sect != 0 by { DataIsNotZero(g, sect); }
    forall r | 0 <= r < SS && (p % SS <= r < p % SS + |data| || p % SS != 0 || p < size)
      ensures e[sect][r] == if p % SS <= r < p % SS + |data| then data[r - p % SS] else image[sect][r]
    {
      SpliceAt(was, p % SS, data, r);
    }
    PartSpliced(g, chain, image, e, p, data, size);
  }

  lemma DataIsNotZero(g: Geometry, s: int)
    requires g.Valid() && InData(g, s)
    ensures s > 0
  {
  }

  lemma RunOwn(g: Geometry, chain: seq<nat>, i: nat, m: nat)
    requires Clusters(g, chain) && Quot(i, g.csize) < |chain| && Rem(i, g.csize) + m <= g.csize
    ensures var s := FileSector(g, chain, i); forall t | s <= t < s + m :: !Foreign(g, chain, t)
  {
    var s := FileSector(g, chain, i);
    forall t | s <= t < s + m ensures !Foreign(g, chain, t) {
      RunIsOwn(g, chain, i, m, t);
    }
  }

  /** How much of a write of `n` bytes at `p` fits below 4 GiB. */
  function WriteLimit(p: u32, n: u32): (r: u32)
    ensures r == if p + n < 0x1_0000_0000 then n else 0xFFFF_FFFF - p
  {
    if (p + n) % POW32 < p then 0xFFFF_FFFF - p else n
  }

  /** The most bytes that a file of `links` clusters can have on a volume with `free` free ones. */
  ghost function MostBytes(g: Geometry, links: nat, free: nat): nat {
    512 * (g.csize * (links + free))
  }

  /** A position that the file reaches, or where it stops because nothing is free, lies within its capacity. */
  lemma WithinRoom(g: Geometry, links: nat, free: nat, p: nat)
    requires p <= LinkStart(g, links)
    ensures p <= MostBytes(g, links, free)
    ensures free == 0 && p == LinkStart(g, links) ==> p == MostBytes(g, links, free)
  {
    ClusterStart(g, links);
    assert g.csize * (links + free) == g.csize * links + g.csize * free;
  }

  /**
    * What an operation on a file with chain `chain` may touch: clusters that join the chain were free, the card changes
    * in FATs and sectors of the new chain only, and the window shows no other data sector than before.
    */
  ghost predicate Touched(g: Geometry, t: FatTable, chain: seq<nat>, chain': seq<nat>, l: seq<Sector>, l': seq<Sector>,
                          w: int, w': int)
    requires g.csize > 0
  {
    && chain <= chain' && (forall c | c in chain' && c !in chain :: 2 <= c < |t| && t[c] == 0)
    && SameOutsideFile(g, chain', l, l') && WindowStep(g, w, w')
  }

  /** What an operation on one file can change, apart from the file's own bytes and position. */
  datatype Snap = Snap(chain: seq<nat>, fat: FatTable, card: seq<Sector>, winsect: int, freeClst: nat, faults: nat,
                       sect: int)

  /** The sector in the buffer is none, or one of the file. */
  ghost predicate OwnSector(g: Geometry, chain: seq<nat>, sect: int) {
    sect == 0 || (g.csize > 0 && InData(g, sect) && ClusterOf(g, sect) in chain)
  }

  lemma FileSectorIsOwn(g: Geometry, chain: seq<nat>, i: nat)
    requires Clusters(g, chain) && Quot(i, g.csize) < |chain|
    ensures OwnSector(g, chain, FileSector(g, chain, i))
  {
    hide Quot, Rem;
    RunIsOwn(g, chain, i, 1, FileSector(g, chain, i));
  }

  lemma OwnGrows(g: Geometry, chain: seq<nat>, chain': seq<nat>, sect: int)
    requires OwnSector(g, chain, sect) && chain <= chain'
    ensures OwnSector(g, chain', sect)
  {
  }

  /**
    * One step on the way of `f_read`, `f_write` or `f_lseek`, which ended with `res`: it touched nothing beside the
    * file, kept the FAT right, failed for a reason, and left the buffer at a sector of the file if it found it there.
    */
  ghost predicate Stepped(g: Geometry, a: Snap, b: Snap, res: FResult) {
    && g.csize > 0 && Touched(g, a.fat, a.chain, b.chain, a.card, b.card, a.winsect, b.winsect)
    && a.faults <= b.faults && (b.faults == a.faults && NoOnes(a.fat) ==> res == Ok)
    && (res == Ok ==> FatKept(a.fat, b.fat, a.freeClst, b.freeClst, b.chain))
    && (res == Ok && OwnSector(g, a.chain, a.sect) ==> OwnSector(g, b.chain, b.sect))
  }

  lemma SteppedParts(g: Geometry, a: Snap, b: Snap, res: FResult)
    requires Stepped(g, a, b, res)
    ensures g.csize > 0 && Touched(g, a.fat, a.chain, b.chain, a.card, b.card, a.winsect, b.winsect)
    ensures a.chain <= b.chain && a.faults <= b.faults && (b.faults == a.faults && NoOnes(a.fat) ==> res == Ok)
    ensures res == Ok ==> FatKept(a.fat, b.fat, a.freeClst, b.freeClst, b.chain)
    ensures res == Ok && OwnSector(g, a.chain, a.sect) ==> OwnSector(g, b.chain, b.sect)
    ensures res == Ok && NoOnes(a.fat) ==> NoOnes(b.fat)
    ensures res == Ok && CountRight(a.fat, a.freeClst) ==> CountRight(b.fat, b.freeClst)
  {
  }

  lemma SteppedWhole(g: Geometry, a: Snap, b: Snap, res: FResult)
    requires g.csize > 0 && Touched(g, a.fat, a.chain, b.chain, a.card, b.card, a.winsect, b.winsect)
    requires a.faults <= b.faults && (b.faults == a.faults && NoOnes(a.fat) ==> res == Ok)
    requires res == Ok ==> FatKept(a.fat, b.fat, a.freeClst, b.freeClst, b.chain)
    requires a.sect == b.sect
    ensures Stepped(g, a, b, res)
  {
    if OwnSector(g, a.chain, a.sect) {
      OwnGrows(g, a.chain, b.chain, a.sect);
    }
  }

  lemma NotStepped(g: Geometry, a: Snap)
    requires g.csize > 0
    ensures Stepped(g, a, a, Ok)
  {
  }

  /** Step by step. */
  lemma SteppedOn(g: Geometry, a: Snap, b: Snap, c: Snap, res: FResult)
    requires Stepped(g, a, b, Ok) && Stepped(g, b, c, res)
    ensures Stepped(g, a, c, res)
  {
    TouchedGrows(g, a.fat, b.fat, a.freeClst, b.freeClst, a.chain, b.chain, c.chain, a.card, b.card, c.card,
                 a.winsect, b.winsect, c.winsect);
    if res == Ok {
      FatKeptGrows(a.fat, b.fat, c.fat, a.freeClst, b.freeClst, c.freeClst, b.chain, c.chain);
    }
  }

  /** A transfer of the file's own sectors is a step. */
  lemma TransferStepped(g: Geometry, a: Snap, b: Snap, res: FResult)
    requires g.csize > 0 && SameOutsideFile(g, a.chain, a.card, b.card)
    requires b == a.(card := b.card, faults := b.faults, sect := b.sect)
    requires a.faults <= b.faults && (b.faults == a.faults ==> res == Ok)
    requires res == Ok && OwnSector(g, a.chain, a.sect) ==> OwnSector(g, b.chain, b.sect)
    ensures Stepped(g, a, b, res)
  {
  }

  lemma TouchedGrows(g: Geometry, t: FatTable, t': FatTable, f: nat, f': nat,
                     chain: seq<nat>, chain': seq<nat>, chain'': seq<nat>,
                     l: seq<Sector>, l': seq<Sector>, l'': seq<Sector>, w: int, w': int, w'': int)
    requires g.csize > 0
    requires Touched(g, t, chain, chain', l, l', w, w') && FatKept(t, t', f, f', chain')
    requires Touched(g, t', chain', chain'', l', l'', w', w'')
    ensures Touched(g, t, chain, chain'', l, l'', w, w'')
  {
    SameOutsideGrows(g, chain', chain'', l, l', l'');
  }

  lemma NothingOutside(g: Geometry, chain: seq<nat>, l: seq<Sector>)
    requires g.csize > 0
    ensures SameOutsideFile(g, chain, l, l)
  {
  }

  lemma SameOutsideTwice(g: Geometry, chain: seq<nat>, a: seq<Sector>, b: seq<Sector>, c: seq<Sector>)
    requires g.csize > 0 && SameOutsideFile(g, chain, a, b) && SameOutsideFile(g, chain, b, c)
    ensures SameOutsideFile(g, chain, a, c)
  {
  }

  /** An access to the FAT touches nothing else. */
  lemma TouchedFats(g: Geometry, t: FatTable, chain: seq<nat>, l: seq<Sector>, l': seq<Sector>, w: int, w': int)
    requires g.Valid() && SameOutsideFats(g, l, l') && WindowStep(g, w, w')
    ensures Touched(g, t, chain, chain, l, l', w, w')
  {
  }

  /** The chain may grow by a cluster that was free. */
  lemma TouchedLonger(g: Geometry, t: FatTable, chain: seq<nat>, chain': seq<nat>, c: nat,
                      l: seq<Sector>, l': seq<Sector>, w: int, w': int)
    requires g.csize > 0 && Touched(g, t, chain, chain, l, l', w, w')
    requires chain' == chain || (chain' == chain + [c] && 2 <= c < |t| && t[c] == 0)
    ensures Touched(g, t, chain, chain', l, l', w, w')
  {
    SameOutsideGrows(g, chain, chain', l, l', l');
  }

  lemma WindowStaysAside(g: Geometry, t: FatTable, chain: seq<nat>, w: int, w': int)
    requires g.Valid() && |t| == g.nFatent && WindowAside(g, t, chain, w) && WindowStep(g, w, w')
    ensures WindowAside(g, t, chain, w')
  {
    if g.InFat(w') {
      FatIsAside(g, t, chain, w');
    }
  }

  lemma SameOutsideGrows(g: Geometry, chain: seq<nat>, chain': seq<nat>, a: seq<Sector>, b: seq<Sector>, c: seq<Sector>)
    requires g.csize > 0 && chain <= chain'
    requires SameOutsideFile(g, chain, a, b) && SameOutsideFile(g, chain', b, c)
    ensures SameOutsideFile(g, chain', a, c)
  {
    forall s | Foreign(g, chain', s) ensures Foreign(g, chain, s) {
    }
  }

  lemma FatKeptAsBefore(t: FatTable, f: nat, chain: seq<nat>)
    ensures FatKept(t, t, f, f, chain)
  {
  }

  lemma FatKeptCounts(t: FatTable, t': FatTable, f: nat, f': nat, chain: seq<nat>)
    requires FatKept(t, t', f, f', chain)
    ensures CountRight(t, f) ==> CountRight(t', f')
  {
  }

  lemma FatKeptGrows(t: FatTable, t': FatTable, t'': FatTable, f: nat, f': nat, f'': nat, chain: seq<nat>,
                     chain': seq<nat>)
    requires chain <= chain' && FatKept(t, t', f, f', chain) && FatKept(t', t'', f', f'', chain')
    ensures FatKept(t, t'', f, f'', chain')
  {
  }

  /** Dividing by the cluster size in bytes is dividing by the sector size and then by the sectors per cluster. */
  lemma ClusterIndex(g: Geometry, p: nat)
    requires g.csize > 0
    ensures Quot(p, g.csize * SS) == Quot(p / SS, g.csize)
  {
    var q, r := Quot(p / SS, g.csize), Rem(p / SS, g.csize);
    QuotLaw(p / SS, g.csize);
    assert p == SS * (g.csize * q + r) + p % SS;
    assert SS * (g.csize * q + r) == LinkStart(g, q) + SS * r;
    QuotIs(p, g.csize * SS, q, SS * r + p % SS);
  }

  /** Where link `q` starts in the file. */
  function LinkStart(g: Geometry, q: nat): int {
    g.csize * SS * q
  }

  lemma ClusterStart(g: Geometry, q: nat)
    ensures LinkStart(g, q) == SS * (g.csize * q)
    ensures LinkStart(g, q + 1) == LinkStart(g, q) + g.csize * SS
    ensures LinkStart(g, 0) == 0
  {
  }

  /** A cluster boundary is where its link starts. */
  lemma BoundaryStart(g: Geometry, p: nat)
    requires g.csize > 0 && p % SS == 0 && Rem(p / SS, g.csize) == 0
    ensures LinkStart(g, Quot(p / SS, g.csize)) == p
  {
    QuotLaw(p / SS, g.csize);
    ClusterStart(g, Quot(p / SS, g.csize));
  }

  lemma LinksInChain(g: Geometry, chain: seq<nat>)
    ensures SS * Sectors(g, chain) == LinkStart(g, |chain|)
  {
    ClusterStart(g, |chain|);
  }

  /** The cluster and, off sector boundaries, the sector of a position `m` bytes past the start of link `q`. */
  lemma SeekPosition(g: Geometry, chain: seq<nat>, q: nat, m: nat, p: nat)
    requires g.csize > 0 && q < |chain| && 0 < m <= g.csize * SS && p == LinkStart(g, q) + m
    ensures 0 < p <= SS * Sectors(g, chain)
    ensures Quot((p - 1) / SS, g.csize) == q
    ensures p % SS == m % SS
    ensures p % SS != 0 ==> Quot(p / SS, g.csize) == q && FileSector(g, chain, p / SS) == Lba(g, chain[q], 0) + m / SS
  {
    ClusterStart(g, q);
    SeekInLink(g, chain, q, m, g.csize * q);
  }

  lemma SeekInLink(g: Geometry, chain: seq<nat>, q: nat, m: nat, k: nat)
    requires g.csize > 0 && q < |chain| && 0 < m <= g.csize * SS && k == g.csize * q
    ensures var p := SS * k + m;
            && 0 < p <= SS * Sectors(g, chain)
            && Quot((p - 1) / SS, g.csize) == q
            && p % SS == m % SS
            && (p % SS != 0 ==>
                  Quot(p / SS, g.csize) == q && FileSector(g, chain, p / SS) == Lba(g, chain[q], 0) + m / SS)
  {
    QuotIs(k, g.csize, q, 0);
    RunFits(g, chain, k, g.csize);
    hide Sectors;
    ByteBefore(g, q, k, m);
    QuotRem(SS * k + m, SS, k + m / SS, m % SS);
    if m % SS != 0 {
      QuotIs(k + m / SS, g.csize, q, m / SS);
    }
  }

  lemma ByteBefore(g: Geometry, q: nat, k: nat, m: nat)
    requires g.csize > 0 && k == g.csize * q && 0 < m <= g.csize * SS
    ensures Quot((SS * k + m - 1) / SS, g.csize) == q
  {
    QuotRem(SS * k + m - 1, SS, k + (m - 1) / SS, (m - 1) % SS);
    QuotIs(k + (m - 1) / SS, g.csize, q, (m - 1) / SS);
  }

  /** Clusters before the capacity of the chain have successors. */
  lemma MoreClusters(g: Geometry, chain: seq<nat>, q: nat, p: nat)
    requires g.csize > 0 && LinkStart(g, q) + g.csize * SS < p <= SS * Sectors(g, chain)
    ensures q + 1 < |chain|
  {
    assert g.csize * (q + 1) == g.csize * q + g.csize;
    ClusterStart(g, q);
    if |chain| < q + 1 {
      Distance(g.csize, |chain|, q + 1);
    }
  }

  /** Without a cluster there is no room for a byte. */
  lemma EmptyChain(g: Geometry, chain: seq<nat>)
    ensures chain == [] ==> SS * Sectors(g, chain) == 0
  {
  }

  /** The end of the last cluster of the chain. */
  lemma ChainEnd(g: Geometry, chain: seq<nat>, q: nat)
    requires g.csize > 0 && q + 1 == |chain|
    ensures LinkStart(g, q) + g.csize * SS == SS * Sectors(g, chain)
  {
    assert g.csize * (q + 1) == g.csize * q + g.csize;
    ClusterStart(g, q);
  }

  /** A bigger size adds bytes at the end only. */
  lemma LongerFile(g: Geometry, chain: seq<nat>, l: seq<Sector>, size: nat, size': nat)
    requires Clusters(g, chain) && |l| == g.total && size <= size' <= SS * Sectors(g, chain)
    ensures FileBytes(g, chain, l, size')[..size] == FileBytes(g, chain, l, size)
  {
  }

  /** Seeking forward can start from the cluster that holds the byte before the file pointer. */
  lemma SeekBase(g: Geometry, target: nat, ifptr: nat)
    requires g.csize > 0 && target > 0 && ifptr > 0
    requires Quot(target - 1, g.csize * SS) >= Quot(ifptr - 1, g.csize * SS)
    ensures var q := Quot(ifptr - 1, g.csize * SS);
            Quot((ifptr - 1) / SS, g.csize) == q && 0 <= RoundDown(ifptr - 1, g.csize * SS) == LinkStart(g, q) < target
  {
    var bcs := g.csize * SS;
    var q, e := Quot(ifptr - 1, bcs), Quot(target - 1, bcs);
    ClusterIndex(g, ifptr - 1);
    QuotLaw(target - 1, bcs);
    if q < e {
      Distance(bcs, q, e);
    }
  }

  /** The table after a chain has been cut to its first `k` clusters and the others have been freed. */
  function Cut(t: FatTable, ch: seq<nat>, k: nat, eoc: nat): (r: FatTable)
    requires k <= |ch| && (0 < k < |ch| ==> ch[k - 1] < |t|)
  {
    if k == |ch| then t else if k == 0 then Zeroed(t, ch) else Zeroed(t[ch[k - 1] := eoc], ch[k..])
  }

  /** The clusters that are given up are free again. */
  lemma CutCount(g: Geometry, t: FatTable, ch: seq<nat>, sclust: nat, k: nat)
    requires ChainOk(g, t, ch, sclust) && |t| == g.nFatent && k <= |ch|
    ensures FreeCount(Cut(t, ch, k, Eoc(g))) + k == FreeCount(t) + |ch|
  {
    hide Cut, IsChain, FreeCount;
    ChainIsUsed(t, ch);
    assert ch == ch[..k] + ch[k..];
    CutFrees(t, ch, k, Eoc(g));
    CountTaken(Cut(t, ch, k, Eoc(g)), t, ch[k..]);
  }

  lemma CutFrees(t: FatTable, ch: seq<nat>, k: nat, eoc: nat)
    requires (forall c | c in ch :: 2 <= c < |t| && t[c] != 0) && k <= |ch| && (0 < k < |ch| ==> ch[k - 1] < |t|)
    requires eoc > 0 && forall i, j | 0 <= i < j < |ch| :: ch[i] != ch[j]
    ensures var t' := Cut(t, ch, k, eoc);
            && |t'| == |t| && (forall c | c in ch && c in ch[k..] :: t'[c] == 0)
            && (forall c | 2 <= c < |t| && c !in ch[k..] :: t'[c] == 0 <==> t[c] == 0)
  {
    if 0 < k < |ch| {
      assert ch[k - 1] in ch;
    } else if k == 0 {
      assert ch[k..] == ch;
    }
  }

  /** As many clusters as bytes need, and no more: the last one begins before byte `p` and ends behind it. */
  lemma ClustersHold(g: Geometry, p: nat, k: nat)
    requires g.csize > 0 && k == if p == 0 then 0 else Quot((p - 1) / SS, g.csize) + 1
    ensures p <= LinkStart(g, k) && (k > 0 ==> LinkStart(g, k - 1) < p)
  {
    ClusterStart(g, k);
    if p > 0 {
      ClusterIndex(g, p - 1);
      QuotLaw(p - 1, g.csize * SS);
      ClusterStart(g, k - 1);
    }
  }

  /** The loop of `remove_chain`, started at link `k` of a file, cuts its chain there. */
  lemma CutChain(g: Geometry, t: FatTable, ch: seq<nat>, sclust: nat, k: nat)
    requires ChainOk(g, t, ch, sclust) && |t| == g.nFatent && k <= |ch|
    ensures ChainOk(g, Cut(t, ch, k, Eoc(g)), ch[..k], if k == 0 then 0 else sclust)
    ensures k < |ch| ==>
              var pclst := if k == 0 then 0 else ch[k - 1];
              RemoveFrom(CutAt(t, pclst, Eoc(g)), ch[k]) == Removal(Cut(t, ch, k, Eoc(g)), true)
  {
    assert ch[..|ch|] == ch;
    if k == |ch| {
    } else if k == 0 {
      RemoveFreesChain(t, ch);
    } else {
      CutFreesTail(t, ch, k, Eoc(g));
      CutKeepsHead(t, ch, k, Eoc(g));
    }
  }

  /** What `f_truncate` finds at link `k` of the chain is what it may pass to `remove_chain`. */
  lemma RemovableAt(g: Geometry, t: FatTable, ch: seq<nat>, sclust: nat, k: nat)
    requires ChainOk(g, t, ch, sclust) && |t| == g.nFatent && k <= |ch| && ch != []
    ensures sclust == ch[0] && (forall i | 0 <= i < |ch| :: 2 <= ch[i] < g.nFatent && t[ch[i]] >= 2)
    ensures 0 < k < |ch| ==> t[ch[k - 1]] == ch[k] && RemoveArgs(g.nFatent, ch[k], ch[k - 1])
    ensures 0 < k == |ch| ==> t[ch[k - 1]] >= g.nFatent && Cut(t, ch, k, Eoc(g)) == t && ch[..k] == ch
    ensures RemoveArgs(g.nFatent, sclust, 0)
  {
    forall i | 0 <= i < |ch| ensures 2 <= ch[i] < g.nFatent && t[ch[i]] >= 2 {
      EntryOnChain(t, ch, ch[i]);
    }
  }

  lemma ErrorCodes()
    ensures INT_ERROR == 1 && DISK_ERROR == 0xFFFF_FFFF
  {
  }

  lemma OutsideFatsTwice(g: Geometry, l: seq<Sector>, l': seq<Sector>, l'': seq<Sector>, w: int, w': int, w'': int)
    requires SameOutsideFats(g, l, l') && SameOutsideFats(g, l', l'') && WindowStep(g, w, w') && WindowStep(g, w', w'')
    ensures SameOutsideFats(g, l, l'') && WindowStep(g, w, w'')
  {
  }

  /** A shorter chain holds a prefix of the bytes. */
  lemma ShorterFile(g: Geometry, chain: seq<nat>, k: nat, a: seq<Sector>, b: seq<Sector>, size: nat, p: nat)
    requires Clusters(g, chain) && k <= |chain| && |a| == |b| == g.total
    requires p <= size <= SS * Sectors(g, chain) && p <= SS * Sectors(g, chain[..k])
    requires SameOutsideFats(g, a, b)
    ensures Clusters(g, chain[..k])
    ensures FileBytes(g, chain[..k], b, p) == FileBytes(g, chain, a, size)[..p]
  {
    var x, y := FileBytes(g, chain[..k], b, p), FileBytes(g, chain, a, size)[..p];
    forall i | 0 <= i < p ensures x[i] == y[i] {
      LinkOf(g, chain[..k], i / SS);
      FileSectorInData(g, chain, i / SS);
    }
  }

  /** The set of the chain `ch`, if it is one. */
  function AtMost(ch: seq<nat>): set<seq<nat>> {
    if ch == [] then {} else {ch}
  }

  /** The chains of a volume after one of them, perhaps empty, has become `ch'`. */
  function Swapped(chains: set<seq<nat>>, ch: seq<nat>, ch': seq<nat>): set<seq<nat>> {
    chains - AtMost(ch) + AtMost(ch')
  }

  /** Whatever the other chains of the volume are, they are still its other chains. */
  ghost predicate ChainsKept(t: FatTable, t': FatTable, ch: seq<nat>, ch': seq<nat>) {
    forall chains: set<seq<nat>> | Partition(t, chains) && (ch == [] || ch in chains) ::
      Partition(t', Swapped(chains, ch, ch'))
  }

  /** A chain that grows by free clusters. */
  lemma GrownKeepsChains(g: Geometry, t: FatTable, t': FatTable, f: nat, f': nat, ch: seq<nat>, ch': seq<nat>,
                         l: seq<Sector>, l': seq<Sector>, w: int, w': int, sclust': nat)
    requires ChainOk(g, t', ch', sclust') && FatKept(t, t', f, f', ch') && Touched(g, t, ch, ch', l, l', w, w')
    ensures ChainsKept(t, t', ch, ch')
  {
    forall chains: set<seq<nat>> | Partition(t, chains) && (ch == [] || ch in chains)
      ensures Partition(t', Swapped(chains, ch, ch'))
    {
      GrownInSet(t, t', ch, ch', chains);
    }
  }

  lemma GrownCount(g: Geometry, t: FatTable, t': FatTable, f: nat, f': nat, ch: seq<nat>, ch': seq<nat>,
                   l: seq<Sector>, l': seq<Sector>, w: int, w': int, sclust: nat, sclust': nat)
    requires ChainOk(g, t, ch, sclust) && ChainOk(g, t', ch', sclust') && g.csize > 0
    requires FatKept(t, t', f, f', ch') && Touched(g, t, ch, ch', l, l', w, w')
    ensures FreeCount(t') + |ch'| == FreeCount(t) + |ch|
    ensures MostBytes(g, |ch'|, FreeCount(t')) == MostBytes(g, |ch|, FreeCount(t))
  {
    CountAfterGrowth(t, t', ch, ch');
  }

  lemma GrownInSet(t: FatTable, t': FatTable, ch: seq<nat>, ch': seq<nat>, chains: set<seq<nat>>)
    requires Partition(t, chains) && (ch == [] || ch in chains) && |t'| == |t|
    requires ch <= ch' && (forall c | c in ch' && c !in ch :: 2 <= c < |t| && t[c] == 0)
    requires (ch' == [] || IsChain(t', ch')) && forall c | 2 <= c < |t| && c !in ch' :: t'[c] == t[c]
    ensures Partition(t', Swapped(chains, ch, ch'))
  {
    hide Partition, IsChain, On, Disjoint, AtMost;
    var del, add := AtMost(ch), AtMost(ch');
    OnOne(ch);
    OnOne(ch');
    forall a, c | a in add && c in a && c < |t| ensures t[c] == 0 || On(del, c) {
      assert a == ch';
    }
    forall c | 2 <= c < |t| && !On(add, c) ensures t'[c] == if On(del, c) then 0 else t[c] {
      assert c !in ch' && c !in ch;
    }
    Replace(t, t', chains, del, add);
  }

  lemma OnOne(ch: seq<nat>)
    ensures forall c :: On(AtMost(ch), c) <==> c in ch
    ensures Disjoint(AtMost(ch)) && forall a | a in AtMost(ch) :: a == ch != []
    ensures ch != [] ==> ch in AtMost(ch)
  {
    forall c | c in ch ensures On(AtMost(ch), c) {
      assert ch in AtMost(ch);
    }
  }

  /** A chain that is cut to its first `k` clusters. */
  lemma CutKeepsChains(g: Geometry, t: FatTable, ch: seq<nat>, sclust: nat, k: nat)
    requires ChainOk(g, t, ch, sclust) && |t| == g.nFatent && k <= |ch|
    ensures ChainsKept(t, Cut(t, ch, k, Eoc(g)), ch, ch[..k])
  {
    forall chains: set<seq<nat>> | Partition(t, chains) && (ch == [] || ch in chains)
      ensures Partition(Cut(t, ch, k, Eoc(g)), Swapped(chains, ch, ch[..k]))
    {
      if k == |ch| {
        assert ch[..k] == ch;
        assert Swapped(chains, ch, ch) == chains;
      } else if k == 0 {
        RemoveFreesChain(t, ch);
        RemoveWholeChain(t, chains, ch);
        assert Swapped(chains, ch, []) == chains - {ch};
      } else {
        CutKeepsPartition(t, chains, ch, k, Eoc(g));
      }
    }
  }

  /** Only entries in `reach` differ, and only clusters of `ch` have become free. */
  ghost predicate SameReach(t: FatTable, t': FatTable, ch: seq<nat>, reach: seq<nat>) {
    && |t'| == |t| && (forall c | 2 <= c < |t| && c !in reach :: t'[c] == t[c])
    && (forall c | 2 <= c < |t| && t'[c] == 0 :: t[c] == 0 || c in ch)
  }

  lemma ReachParts(t: FatTable, t': FatTable, ch: seq<nat>, reach: seq<nat>)
    requires SameReach(t, t', ch, reach)
    ensures |t'| == |t| && (forall c | 2 <= c < |t| && c !in reach :: t'[c] == t[c])
    ensures forall c | 2 <= c < |t| && t'[c] == 0 :: t[c] == 0 || c in ch
  {
  }

  lemma GrowthReaches(g: Geometry, t: FatTable, t': FatTable, f: nat, f': nat, ch: seq<nat>, ch': seq<nat>,
                      l: seq<Sector>, l': seq<Sector>, w: int, w': int)
    requires g.csize > 0 && FatKept(t, t', f, f', ch') && Touched(g, t, ch, ch', l, l', w, w')
    ensures SameReach(t, t', ch, ch') && SameOutsideFile(g, ch', l, l') && WindowStep(g, w, w')
  {
  }

  lemma CutIndex(g: Geometry, t: FatTable, ch: seq<nat>, k: nat)
    requires k <= |ch| && Clusters(g, ch) && |t| == g.nFatent
    ensures 0 < k < |ch| ==> ch[k - 1] < |t|
  {
  }

  /** A cut changes the entries of its chain only. */
  lemma CutReaches(g: Geometry, t: FatTable, ch: seq<nat>, k: nat)
    requires k <= |ch| && (0 < k < |ch| ==> ch[k - 1] < |t|)
    ensures SameReach(t, Cut(t, ch, k, Eoc(g)), ch, ch)
  {
  }

  /** A chain that meets none of the clusters of another one does not after the other one has grown. */
  lemma StaysApart(g: Geometry, t: FatTable, ch: seq<nat>, ch': seq<nat>,
                   l: seq<Sector>, l': seq<Sector>, w: int, w': int,
                   other: seq<nat>, sclust: nat)
    requires ChainOk(g, t, other, sclust) && |t| == g.nFatent && Touched(g, t, ch, ch', l, l', w, w')
    requires forall c | c in other :: c !in ch
    ensures forall c | c in other :: c !in ch'
  {
    forall c | c in other ensures c !in ch' {
      EntryOnChain(t, other, c);
    }
  }

  /**
    * A file whose chain avoids `reach`, while another file is changed that reaches those clusters only: its chain and
    * its bytes stay, and its clean buffer is right exactly if the sector it shows was not written.
    */
  lemma BystanderKept(g: Geometry, t: FatTable, t': FatTable, ch: seq<nat>, reach: seq<nat>,
                      l: seq<Sector>, l': seq<Sector>, w: int, w': int, other: seq<nat>, sclust: nat,
                      dirty: bool, sect: int, at: nat, b: Sector, size: nat)
    requires ChainOk(g, t, other, sclust) && |t| == |t'| == g.nFatent && |l| == |l'| == g.total
    requires size <= SS * Sectors(g, other) && BufferOk(g, other, l, dirty, sect, at, b)
    requires WindowAside(g, t, other, w) && WindowAside(g, t, ch, w) && WindowStep(g, w, w')
    requires forall c | c in other :: c !in reach
    requires forall c | 2 <= c < |t| && c !in reach :: t'[c] == t[c]
    requires forall c | 2 <= c < |t| && t'[c] == 0 :: t[c] == 0 || c in ch
    requires SameOutsideFile(g, reach, l, l')
    ensures ChainOk(g, t', other, sclust) && WindowAside(g, t', other, w')
    ensures BufferOk(g, other, l', dirty, sect, at, b) <==> dirty || sect == 0 || l'[sect] == l[sect]
    ensures OwnSector(g, other, sect) ==> BufferOk(g, other, l', dirty, sect, at, b)
    ensures FileBytes(g, other, Overlay(l', dirty, sect, b), size) ==
              FileBytes(g, other, Overlay(l, dirty, sect, b), size)
  {
    if other != [] {
      ChainFrame(t, t', other);
    }
    BystanderWindow(g, t, t', ch, other, w, w');
    if dirty {
      FileSectorInData(g, other, at);
    }
    forall i: nat | i < Sectors(g, other)
      ensures Quot(i, g.csize) < |other| && 0 <= FileSector(g, other, i) < g.total
      ensures Overlay(l', dirty, sect, b)[FileSector(g, other, i)] ==
                Overlay(l, dirty, sect, b)[FileSector(g, other, i)]
    {
      LinkOf(g, other, i);
      FileSectorInData(g, other, i);
    }
    SameFileBytes(g, other, Overlay(l, dirty, sect, b), Overlay(l', dirty, sect, b), size);
  }

  lemma BystanderWindow(g: Geometry, t: FatTable, t': FatTable, ch: seq<nat>, other: seq<nat>, w: int, w': int)
    requires g.Valid() && |t| == |t'| == g.nFatent
    requires WindowAside(g, t, other, w) && WindowAside(g, t, ch, w) && WindowStep(g, w, w')
    requires forall c | 2 <= c < |t| && t'[c] == 0 :: t[c] == 0 || c in ch
    ensures WindowAside(g, t', other, w')
  {
    if g.InFat(w') {
      FatIsAside(g, t', other, w');
    }
  }

  /**
    * A file with a clean buffer, while clusters that are not its own are rewritten: the buffer stays right whatever is
    * done to them, if and only if it shows no sector or one of the file's own.
    */
  lemma BufferIsSafeExactly(g: Geometry, other: seq<nat>, l: seq<Sector>, sect: int, at: nat, b: Sector)
    requires g.Valid() && |l| == g.total && BufferOk(g, other, l, false, sect, at, b)
    ensures OwnSector(g, other, sect) <==>
            forall reach: seq<nat>, l': seq<Sector> | (forall c | c in other :: c !in reach)
                                                      && SameOutsideFile(g, reach, l, l') ::
              BufferOk(g, other, l', false, sect, at, b)
  {
    hide ClusterOf;
    if OwnSector(g, other, sect) {
      forall reach: seq<nat>, l': seq<Sector> | (forall c | c in other :: c !in reach)
                                                && SameOutsideFile(g, reach, l, l')
        ensures BufferOk(g, other, l', false, sect, at, b)
      {
        assert sect != 0 ==> Foreign(g, reach, sect);
      }
    } else {
      ClusterIsNat(g, sect);
      var reach: seq<nat>, l' := [ClusterOf(g, sect)], l[sect := b[0 := if b[0] == 0 then 1 else 0]];
      assert l'[sect][0] != b[0];
      assert SameOutsideFile(g, reach, l, l') && !BufferOk(g, other, l', false, sect, at, b);
    }
  }

  lemma ClusterIsNat(g: Geometry, s: int)
    requires g.csize > 0 && s >= g.database
    ensures ClusterOf(g, s) >= 2
  {
  }

  /** Of the sectors of a file, those in its first `k` clusters are sectors of the file cut to these clusters. */
  lemma OwnAfterCut(g: Geometry, chain: seq<nat>, k: nat, i: nat)
    requires Clusters(g, chain) && k <= |chain| && Quot(i, g.csize) < |chain|
    ensures OwnSector(g, chain[..k], FileSector(g, chain, i)) <==> Quot(i, g.csize) < k
  {
    hide Quot, ClusterOf, FileSector;
    FileSectorInData(g, chain, i);
    var q := Quot(i, g.csize);
    assert q < k ==> chain[..k][q] == chain[q];
  }

  /** The smallest card with room for two clusters of one sector. */
  const TWO_CLUSTERS: Geometry := Geometry(Fat16, 1, 1, 4, 1, 1, 2, 4)

  lemma TwoClusters()
    ensures Clusters(TWO_CLUSTERS, [2, 3]) && TWO_CLUSTERS.csize == 1
  {
    assert MaxClusters(Fat16) >= 2;
    assert forall c | 2 <= c < 4 :: TWO_CLUSTERS.ClusterInside(c);
  }

  /** A file of two clusters that is cut at their border, while the buffer shows the second one. */
  lemma CutLeavesBuffer()
    ensures var g, chain: seq<nat> := TWO_CLUSTERS, [2, 3];
            && Clusters(g, chain) && OwnSector(g, chain, FileSector(g, chain, 1))
            && !OwnSector(g, chain[..1], FileSector(g, chain, 1))
  {
    hide FileSector, OwnSector, Clusters;
    TwoClusters();
    QuotIs(1, 1, 1, 0);
    FileSectorIsOwn(TWO_CLUSTERS, [2, 3], 1);
    OwnAfterCut(TWO_CLUSTERS, [2, 3], 1, 1);
  }

  /** The clusters up to the one before position `p` have room for `p` bytes. */
  lemma RoomBefore(g: Geometry, chain: seq<nat>, p: nat)
    requires g.csize > 0 && p > 0 && Quot((p - 1) / SS, g.csize) < |chain|
    ensures p <= SS * Sectors(g, chain[..Quot((p - 1) / SS, g.csize) + 1])
  {
    PositionHasLink(g, chain[..Quot((p - 1) / SS, g.csize) + 1], p - 1);
  }

  lemma ShorterSector(g: Geometry, chain: seq<nat>, k: nat, i: nat)
    requires g.csize > 0 && Quot(i, g.csize) < k <= |chain|
    ensures FileSector(g, chain[..k], i) == FileSector(g, chain, i)
  {
  }

  class File {
    const fs: Volume
    const buf: array<byte>
    const readable: bool
    const writable: bool
    var sclust: u32
    var objsize: u32
    var dirty: bool
    var modified: bool
    var err: FResult
    var fptr: u32
    var clust: u32
    var sect: int
    ghost var chain: seq<nat>
    /** Which sector of the file the dirty buffer holds. */
    ghost var bufAt: nat

    /** Opening an existing file, once its start cluster and size have been read from the directory. */
    constructor Open(v: Volume, first: u32, size: u32, read: bool, write: bool, ghost ch: seq<nat>)
      requires v.Valid() && ChainOk(v.geo, v.Fat(), ch, first)
      requires size <= SS * Sectors(v.geo, ch) && WindowAside(v.geo, v.Fat(), ch, v.winsect)
      ensures fs == v && fresh(buf) && readable == read && writable == write && err == Ok
      ensures Valid() && fptr == 0 && objsize == size && chain == ch && ShowsOwn()
      ensures Content() == FileBytes(v.geo, ch, v.Logical(), size)
    {
      fs, readable, writable := v, read, write;
      sclust, objsize, chain := first, size, ch;
      dirty, modified, err := false, false, Ok;
      sect, fptr := 0, 0;
      buf := new byte[SS](_ => 0);
    }

    ghost predicate Shape()
      reads fs`winsect, fs`wflag, fs`stale, fs.disk, fs.win
    {
      fs.Valid() && buf.Length == SS && buf != fs.win
    }

    /** Everything but the buffer and the cursor. */
    ghost predicate Base()
      reads this`sclust, this`objsize, this`chain, fs`winsect, fs`wflag, fs`stale, fs.disk, fs.win
    {
      && Shape()
      && ChainOk(fs.geo, fs.Fat(), chain, sclust)
      && objsize <= SS * Sectors(fs.geo, chain)
      && WindowAside(fs.geo, fs.Fat(), chain, fs.winsect)
    }

    ghost predicate Core()
      reads this`sclust, this`objsize, this`chain, this`dirty, this`sect, this`bufAt, buf
      reads fs`winsect, fs`wflag, fs`stale, fs.disk, fs.win
    {
      Base() && BufferOk(fs.geo, chain, fs.Logical(), dirty, sect, bufAt, buf[..])
    }

    /** What holds of the current cluster and the buffer when the file pointer is `p`. */
    ghost predicate Cursor(p: nat)
      reads this`objsize, this`chain, this`sect, this`clust
    {
      && fs.geo.Valid()
      && p <= objsize
      && (p > 0 ==> Quot((p - 1) / SS, fs.geo.csize) < |chain| && clust == chain[Quot((p - 1) / SS, fs.geo.csize)])
      && (p % SS != 0 ==> Quot(p / SS, fs.geo.csize) < |chain| && sect == FileSector(fs.geo, chain, p / SS))
    }

    ghost predicate Valid()
      reads this, buf, fs`winsect, fs`wflag, fs`stale, fs.disk, fs.win
    {
      Shape() && (err == Ok ==> Core() && Cursor(fptr))
    }

    /** The buffer shows a sector of this file, or none. */
    ghost predicate ShowsOwn()
      reads this`chain, this`sect
    {
      OwnSector(fs.geo, chain, sect)
    }

    lemma ShowsOwnIs()
      ensures ShowsOwn() <==> OwnSector(fs.geo, chain, sect)
    {
    }

    /** A dirty buffer always does. */
    lemma DirtyIsOwn()
      requires Core() && dirty
      ensures ShowsOwn()
    {
      FileSectorIsOwn(fs.geo, chain, bufAt);
    }

    /** `f_truncate` here would not take away the cluster of the sector in the buffer. */
    ghost predicate CutSparesBuffer()
      requires Core() && Cursor(fptr)
      reads this, buf, fs`winsect, fs`wflag, fs`stale, fs.disk, fs.win
    {
      if fptr < objsize then
        ClustersBefore(fptr) <= |chain| && OwnSector(fs.geo, chain[..ClustersBefore(fptr)], sect)
      else
        ShowsOwn()
    }

    ghost function Now(): (s: Snap)
      requires fs.Valid()
      reads this`chain, this`sect, fs`winsect, fs`wflag, fs`stale, fs`freeClst, fs.disk, fs.win
    {
      Snap(chain, fs.Fat(), fs.Logical(), fs.winsect, fs.freeClst, fs.disk.faults, sect)
    }

    /** A transfer between the card and the file's own sectors. */
    twostate lemma Transferred(res: FResult)
      requires old(fs.Valid()) && fs.Valid() && fs.Bytes() == old(fs.Bytes()) && fs.geo.csize > 0
      requires chain == old(chain) && fs.winsect == old(fs.winsect) && fs.freeClst == old(fs.freeClst)
      requires SameOutsideFile(fs.geo, chain, old(fs.Logical()), fs.Logical())
      requires old(fs.disk.faults) <= fs.disk.faults && (fs.disk.faults == old(fs.disk.faults) ==> res == Ok)
      requires res == Ok && OwnSector(fs.geo, chain, old(sect)) ==> OwnSector(fs.geo, chain, sect)
      ensures Stepped(fs.geo, old(Now()), Now(), res)
    {
      SameBytesSameFat();
      TransferStepped(fs.geo, old(Now()), Now(), res);
    }

    lemma NowIs()
      requires fs.Valid()
      ensures Now() == Snap(chain, fs.Fat(), fs.Logical(), fs.winsect, fs.freeClst, fs.disk.faults, sect)
    {
    }

    /** The card with the window and the file's buffer laid over it. */
    ghost function Eff(): (l: seq<Sector>)
      requires Core()
      reads this`sclust, this`objsize, this`chain, this`dirty, this`sect, this`bufAt, buf
      reads fs`winsect, fs`wflag, fs`stale, fs.disk, fs.win
      ensures |l| == fs.geo.total
    {
      Overlay(fs.Logical(), dirty, sect, buf[..])
    }

    /** The bytes of the file. */
    ghost function Content(): (c: seq<byte>)
      requires Core()
      reads this`sclust, this`objsize, this`chain, this`dirty, this`sect, this`bufAt, buf
      reads fs`winsect, fs`wflag, fs`stale, fs.disk, fs.win
      ensures |c| == objsize
    {
      FileBytes(fs.geo, chain, Eff(), objsize)
    }

    lemma BaseParts()
      requires Base()
      ensures Shape() && fs.Valid() && fs.geo.Valid() && fs.geo.csize > 0 && buf.Length == SS && buf != fs.win
      ensures ChainOk(fs.geo, fs.Fat(), chain, sclust) && Clusters(fs.geo, chain)
      ensures objsize <= SS * Sectors(fs.geo, chain) && WindowAside(fs.geo, fs.Fat(), chain, fs.winsect)
    {
    }

    lemma CoreParts()
      requires Core()
      ensures Base() && BufferOk(fs.geo, chain, fs.Logical(), dirty, sect, bufAt, buf[..])
      ensures Content() == FileBytes(fs.geo, chain, Overlay(fs.Logical(), dirty, sect, buf[..]), objsize)
      ensures Eff() == Overlay(fs.Logical(), dirty, sect, buf[..])
    {
    }

    lemma CoreWhole()
      requires Shape() && ChainOk(fs.geo, fs.Fat(), chain, sclust) && objsize <= SS * Sectors(fs.geo, chain)
      requires WindowAside(fs.geo, fs.Fat(), chain, fs.winsect)
      requires BufferOk(fs.geo, chain, fs.Logical(), dirty, sect, bufAt, buf[..])
      ensures Core()
      ensures Content() == FileBytes(fs.geo, chain, Overlay(fs.Logical(), dirty, sect, buf[..]), objsize)
    {
    }

    lemma ShapeKept()
      requires fs.Valid() && buf.Length == SS && buf != fs.win
      ensures Shape()
    {
    }

    /** The same bytes are the same table. */
    twostate lemma SameBytesSameFat()
      requires old(fs.Valid()) && fs.Valid() && fs.Bytes() == old(fs.Bytes())
      ensures fs.Fat() == old(fs.Fat())
    {
    }

    lemma BaseOfCore()
      requires Core()
      ensures Shape() && fs.Valid() && fs.geo.csize > 0
    {
    }

    /** `disk_write` of the buffer if it is dirty. */
    method FlushBuffer() returns (ok: bool)
      requires Core()
      modifies this`dirty, fs.disk
      ensures Base() && fs.Bytes() == old(fs.Bytes())
      ensures ok ==> Core() && !dirty && Eff() == old(Eff())
      ensures SameOutsideFile(fs.geo, chain, old(fs.Logical()), fs.Logical())
      ensures old(fs.disk.faults) <= fs.disk.faults && (ok <==> fs.disk.faults == old(fs.disk.faults))
    {
      hide Table, FatBytes, Volume.Logical, Lba, ClusterOf, IsChain, Clusters, WindowAside;
      ok := true;
      if dirty {
        ghost var l := fs.Logical();
        RunAvoidsWindow(fs.geo, fs.Fat(), chain, fs.winsect, bufAt, 1);
        RunIsOwn(fs.geo, chain, bufAt, 1, sect);
        ok := TransferOut(fs, buf[..], sect, 1);
        if ok {
          dirty := false;
          assert fs.Logical() == l[sect := buf[..]] by {
            assert buf[..][SS * (sect - sect)..SS * (sect - sect) + SS] == buf[..];
          }
        }
      }
    }

    /** `disk_read` of sector `i` of the file into the clean buffer. */
    method LoadBuffer(ghost i: nat, s: int) returns (ok: bool)
      requires Core() && !dirty && Quot(i, fs.geo.csize) < |chain| && s == FileSector(fs.geo, chain, i)
      modifies this`sect, fs.disk`faults, buf
      ensures Base() && fs.Bytes() == old(fs.Bytes()) && fs.Logical() == old(fs.Logical())
      ensures ok ==> Core() && sect == s && Eff() == old(Eff())
      ensures old(fs.disk.faults) <= fs.disk.faults && (ok <==> fs.disk.faults == old(fs.disk.faults))
    {
      hide Table, FatBytes, Volume.Logical, Lba, ClusterOf, IsChain, Clusters, WindowAside;
      RunAvoidsWindow(fs.geo, fs.Fat(), chain, fs.winsect, i, 1);
      FileSectorInData(fs.geo, chain, i);
      ok := TransferIn(fs, buf, 0, s, 1);
      if ok {
        SpanOfOne(fs.Logical(), s);
        assert buf[..] == buf[0..0 + SS * 1];
        sect := s;
      }
    }

    /** On a cluster boundary: the next cluster `q` of the chain is found from the current one. */
    method EnterClusterToRead(ghost q: nat) returns (res: FResult)
      requires Core() && q < |chain|
      requires if fptr == 0 then q == 0 else q > 0 && clust == chain[q - 1]
      modifies this`clust, fs`winsect, fs`wflag, fs`stale, fs.disk, fs.win
      ensures Shape() && fs.Bytes() == old(fs.Bytes())
      ensures res == Ok || res == DiskErr
      ensures res == Ok ==>
                && Core() && Content() == old(Content())
                && clust == chain[q]
      ensures Stepped(fs.geo, old(Now()), Now(), res)
      ensures fs.disk.faults == old(fs.disk.faults) ==> res == Ok
    {
      hide Table, FatBytes, Volume.Logical, Lba, ClusterOf, WindowAside;
      var clst := sclust;
      if fptr != 0 {
        assert fs.Fat()[chain[q - 1]] == chain[q];
        ghost var l := fs.Logical();
        clst := fs.GetFat(clust);
        FatAccessKeepsFile(fs.geo, chain, l, fs.Logical(), dirty, sect, bufAt, buf[..], objsize);
      }
      if clst < 2 {
        return IntErr;
      }
      if clst == DISK_ERROR {
        return DiskErr;
      }
      if fptr != 0 {
        FatIsAside(fs.geo, fs.Fat(), chain, fs.winsect);
      }
      clust := clst;
      res := Ok;
    }

    /** Whole sectors go directly into the caller's buffer, except for the one that is dirty in the file's buffer. */
    method ReadDirect(buff: array<byte>, at: nat, ghost i: nat, s: int, cc: nat) returns (ok: bool)
      requires Core() && buff != buf && buff != fs.win
      requires Quot(i, fs.geo.csize) < |chain| && s == FileSector(fs.geo, chain, i)
                && Rem(i, fs.geo.csize) + cc <= fs.geo.csize
      requires at + SS * cc <= buff.Length && SS * (i + cc) <= objsize
      modifies fs.disk`faults, buff
      ensures Core() && fs.Bytes() == old(fs.Bytes()) && fs.Logical() == old(fs.Logical())
      ensures Content() == old(Content())
      ensures buff[..at] == old(buff[..at]) && buff[at + SS * cc..] == old(buff[at + SS * cc..])
      ensures ok ==> buff[at..at + SS * cc] == Content()[SS * i..SS * (i + cc)]
      ensures old(fs.disk.faults) <= fs.disk.faults && (ok <==> fs.disk.faults == old(fs.disk.faults))
    {
      hide Table, FatBytes, Volume.Logical, Lba, ClusterOf, WindowAside, Clusters, IsChain, FatBytes, FileBytes, Span;
      RunAvoidsWindow(fs.geo, fs.Fat(), chain, fs.winsect, i, cc);
      ok := TransferIn(fs, buff, at, s, cc);
      SpanOfRun(fs.geo, chain, Eff(), i, cc, objsize);
      if ok {
        OverlayDirty(buff, at, s, cc);
      }
    }

    lemma SectorOnCard()
      requires Core()
      ensures 0 <= sect < fs.geo.total
    {
      if dirty {
        FileSectorInData(fs.geo, chain, bufAt);
      }
    }

    method PutBuffer(buff: array<byte>, at: nat)
      requires buf.Length == SS && buff != buf && at + SS <= buff.Length
      modifies buff
      ensures forall k | 0 <= k < buff.Length :: buff[..][k] ==
                if at <= k < at + SS then buf[..][k - at] else old(buff[..])[k]
    {
      forall k | 0 <= k < SS {
        buff[at + k] := buf[k];
      }
    }

    /** Replace the sector that is newer in the file's buffer. */
    method OverlayDirty(buff: array<byte>, at: nat, s: nat, cc: nat)
      requires Core() && buff != buf && buff != fs.win
      requires s + cc <= fs.geo.total && at + SS * cc <= buff.Length
      requires buff[at..at + SS * cc] == Span(fs.Logical(), s, cc)
      modifies buff
      ensures buff[..at] == old(buff[..at]) && buff[at + SS * cc..] == old(buff[at + SS * cc..])
      ensures buff[at..at + SS * cc] == Span(Eff(), s, cc)
    {
      hide Core, Base, Shape, Content, Eff, BufferOk, ChainOk, Clusters, WindowAside, FileBytes, Overlay, Span, Sub32,
           Volume.Valid, Volume.Logical, Volume.Fat;
      CoreParts();
      BaseParts();
      SectorOnCard();
      SpanOfOverlay(fs.Logical(), dirty, sect, buf[..], s, cc);
      Sub32InRange(sect, s, cc);
      if dirty && Sub32(sect, s) < cc {
        var d := SS * (sect - s);
        ghost var x := buff[..];
        PutBuffer(buff, at + d);
        Patched(x, buff[..], at, SS * cc, d, buf[..]);
      }
    }

    /** Make the buffer show sector `i` of the file. */
    method ShowSector(ghost i: nat, s: int) returns (ok: bool)
      requires Core() && Quot(i, fs.geo.csize) < |chain| && s == FileSector(fs.geo, chain, i)
      modifies this`dirty, this`sect, fs.disk, buf
      ensures Shape() && fs.Bytes() == old(fs.Bytes())
      ensures ok ==> Core() && sect == s && Content() == old(Content())
      ensures SameOutsideFile(fs.geo, chain, old(fs.Logical()), fs.Logical())
      ensures old(fs.disk.faults) <= fs.disk.faults && (ok <==> fs.disk.faults == old(fs.disk.faults))
    {
      hide Table, FatBytes, Volume.Logical, Lba, ClusterOf, WindowAside, Clusters, IsChain, FileBytes, BufferOk;
      ok := true;
      if sect != s {
        ok := FlushBuffer();
        if ok {
          ok := LoadBuffer(i, s);
        }
      }
    }

    /** The part of the current sector that is wanted. */
    method ReadPart(buff: array<byte>, at: nat, btr: nat) returns (rcnt: nat)
      requires Core() && buff != buf && buff != fs.win && at + btr <= buff.Length && 0 < btr <= objsize - fptr
      requires Quot(fptr / SS, fs.geo.csize) < |chain| && clust == chain[Quot(fptr / SS, fs.geo.csize)]
      requires sect == FileSector(fs.geo, chain, fptr / SS)
      modifies this`fptr, buff
      ensures Core() && Content() == old(Content())
      ensures 1 <= rcnt <= btr && fptr == old(fptr) + rcnt && Cursor(fptr)
      ensures buff[..at] == old(buff[..at]) && buff[at + rcnt..] == old(buff[at + rcnt..])
      ensures buff[at..at + rcnt] == Content()[old(fptr)..fptr]
    {
      hide Shape, Base, Core, Content, Eff, Cursor, ChainOk, Clusters, BufferOk, WindowAside, FileSector, FileBytes,
           Overlay, Sectors, Quot, Volume.Valid, Volume.Logical, Volume.Fat;
      rcnt := SS - fptr % SS;
      if rcnt > btr {
        rcnt := btr;
      }
      CoreParts();
      BaseParts();
      PartOfSector(fs.geo, chain, Eff(), objsize, fptr, rcnt);
      BufferShows(fptr / SS);
      CopyOut(buff, at, fptr % SS, rcnt);
      CursorInSector(fptr, rcnt);
      fptr := fptr + rcnt;
    }

    /** The copy out of the buffer. */
    method CopyOut(buff: array<byte>, at: nat, from: nat, n: nat)
      requires buff != buf && at + n <= buff.Length && from + n <= buf.Length
      modifies buff
      ensures buff[..at] == old(buff[..at]) && buff[at + n..] == old(buff[at + n..])
      ensures buff[at..at + n] == buf[from..from + n]
    {
      forall k | 0 <= k < n {
        buff[at + k] := buf[from + k];
      }
    }

    lemma BufferShows(i: nat)
      requires Core() && Quot(i, fs.geo.csize) < |chain| && sect == FileSector(fs.geo, chain, i)
      ensures 0 <= sect < fs.geo.total && Eff()[sect] == buf[..]
    {
      FileSectorInData(fs.geo, chain, i);
    }

    /** On a sector boundary: the place on the card of the sector at `fptr`. */
    method LocateToRead() returns (res: FResult, s: int)
      requires Core() && Cursor(fptr) && fptr < objsize && fptr % SS == 0
      modifies this`clust, fs`winsect, fs`wflag, fs`stale, fs.disk, fs.win
      ensures Shape() && fs.Bytes() == old(fs.Bytes())
      ensures res == Ok || res == DiskErr
      ensures res == Ok ==>
                && Core() && Content() == old(Content())
                && Quot(fptr / SS, fs.geo.csize) < |chain| && clust == chain[Quot(fptr / SS, fs.geo.csize)]
                && s == FileSector(fs.geo, chain, fptr / SS)
      ensures Stepped(fs.geo, old(Now()), Now(), res)
      ensures fs.disk.faults == old(fs.disk.faults) ==> res == Ok
    {
      hide Table, FatBytes, Volume.Logical, ClusterOf, WindowAside, IsChain, FileBytes, BufferOk, Content, Eff;
      res, s := Ok, 0;
      PositionHasLink(fs.geo, chain, fptr);
      var csect := Rem(fptr / SS, fs.geo.csize);
      if csect == 0 {
        if fptr > 0 {
          BoundaryLink(fs.geo, fptr);
        } else {
          LinkOf(fs.geo, chain, 0);
        }
        res := EnterClusterToRead(Quot(fptr / SS, fs.geo.csize));
        if res != Ok {
          return;
        }
      } else {
        InnerLink(fs.geo, fptr);
      }
      s := ClusterToSector(fs.geo, clust);
      ClusterSector(fs.geo, clust, 0);
      if s == 0 {
        return IntErr, 0;
      }
      s := s + csect;
    }

    /** As many whole sectors as are wanted and contiguous. */
    method ReadRun(buff: array<byte>, at: nat, btr: nat, s: int) returns (res: FResult, rcnt: nat)
      requires Core() && fptr % SS == 0
      requires buff != buf && buff != fs.win && at + btr <= buff.Length && SS <= btr <= objsize - fptr
      requires Quot(fptr / SS, fs.geo.csize) < |chain| && clust == chain[Quot(fptr / SS, fs.geo.csize)]
      requires s == FileSector(fs.geo, chain, fptr / SS)
      modifies this`fptr, fs.disk`faults, buff
      ensures Shape() && fs.Bytes() == old(fs.Bytes()) && fs.Logical() == old(fs.Logical())
      ensures res == Ok || res == DiskErr
      ensures res == Ok ==>
                && Core() && Content() == old(Content())
                && 1 <= rcnt <= btr && fptr == old(fptr) + rcnt && Cursor(fptr)
                && buff[at..at + rcnt] == Content()[old(fptr)..fptr]
                && buff[..at] == old(buff[..at]) && buff[at + rcnt..] == old(buff[at + rcnt..])
      ensures old(fs.disk.faults) <= fs.disk.faults && (fs.disk.faults == old(fs.disk.faults) ==> res == Ok)
    {
      hide Table, FatBytes, Volume.Logical, Lba, ClusterOf, WindowAside, FileSector, ClusterToSector, IsChain,
           FileBytes, BufferOk, Content, Eff, Quot, Rem, ChainOk;
      var csect := Rem(fptr / SS, fs.geo.csize);
      var cc := btr / SS;
      if csect + cc > fs.geo.csize {
        cc := fs.geo.csize - csect;
      }
      AdvanceSectors(fs.geo, chain, fptr, cc);
      var ok := ReadDirect(buff, at, fptr / SS, s, cc);
      res := if ok then Ok else DiskErr;
      rcnt := SS * cc;
      fptr := fptr + rcnt;
    }

    /** One round of the loop of `f_read`: at most one cluster, one run of sectors or one partial sector. */
    method ReadStep(buff: array<byte>, at: nat, btr: nat) returns (res: FResult, rcnt: nat)
      requires Core() && Cursor(fptr)
      requires buff != buf && buff != fs.win && at + btr <= buff.Length && 0 < btr <= objsize - fptr
      modifies this`clust, this`dirty, this`sect, this`fptr, fs`winsect, fs`wflag, fs`stale, fs.disk, fs.win, buf, buff
      ensures Shape() && fs.Bytes() == old(fs.Bytes())
      ensures res == Ok || res == DiskErr
      ensures res == Ok ==>
                && Core() && Content() == old(Content())
                && 1 <= rcnt <= btr && fptr == old(fptr) + rcnt && Cursor(fptr)
                && buff[at..at + rcnt] == Content()[old(fptr)..fptr]
                && buff[..at] == old(buff[..at]) && buff[at + rcnt..] == old(buff[at + rcnt..])
      ensures Stepped(fs.geo, old(Now()), Now(), res)
      ensures fs.disk.faults == old(fs.disk.faults) ==> res == Ok
    {
      hide Shape, Base, Core, Content, Eff, Cursor, ChainOk, Clusters, Stepped, BufferOk, WindowAside, Now,
           FileSector, FileBytes, Sectors, Quot, Rem, Volume.Valid, Volume.Logical, Volume.Fat, Volume.Bytes;
      if fptr % SS == 0 {
        res, rcnt := ReadAtBoundary(buff, at, btr);
      } else {
        CoreParts();
        BaseParts();
        NotStepped(fs.geo, Now());
        InnerLink(fs.geo, fptr);
        CursorSector();
        rcnt := ReadPart(buff, at, btr);
        res := Ok;
      }
    }

    /** The round on a sector boundary. */
    method ReadAtBoundary(buff: array<byte>, at: nat, btr: nat) returns (res: FResult, rcnt: nat)
      requires Core() && Cursor(fptr) && fptr % SS == 0
      requires buff != buf && buff != fs.win && at + btr <= buff.Length && 0 < btr <= objsize - fptr
      modifies this`clust, this`dirty, this`sect, this`fptr, fs`winsect, fs`wflag, fs`stale, fs.disk, fs.win, buf, buff
      ensures Shape() && fs.Bytes() == old(fs.Bytes())
      ensures res == Ok || res == DiskErr
      ensures res == Ok ==>
                && Core() && Content() == old(Content())
                && 1 <= rcnt <= btr && fptr == old(fptr) + rcnt && Cursor(fptr)
                && buff[at..at + rcnt] == Content()[old(fptr)..fptr]
                && buff[..at] == old(buff[..at]) && buff[at + rcnt..] == old(buff[at + rcnt..])
      ensures Stepped(fs.geo, old(Now()), Now(), res)
      ensures fs.disk.faults == old(fs.disk.faults) ==> res == Ok
    {
      hide *;
      rcnt := 0;
      CoreParts();
      BaseParts();
      CursorEnd();
      ghost var start := Now();
      NowIs();
      var s: int;
      res, s := LocateToRead();
      if res != Ok {
        return;
      }
      BaseOfShape();
      ghost var found := Now();
      NowIs();
      SteppedParts(fs.geo, start, found, Ok);
      label Found:
      res, rcnt := ReadHere(buff, at, btr, s);
      BaseOfShape();
      Transferred@Found(res);
      SteppedOn(fs.geo, start, found, Now(), res);
    }

    /** A run of sectors, or part of the sector `s` at the file pointer. */
    method ReadHere(buff: array<byte>, at: nat, btr: nat, s: int) returns (res: FResult, rcnt: nat)
      requires Core() && fptr % SS == 0
      requires buff != buf && buff != fs.win && at + btr <= buff.Length && 0 < btr <= objsize - fptr
      requires Quot(fptr / SS, fs.geo.csize) < |chain| && clust == chain[Quot(fptr / SS, fs.geo.csize)]
      requires s == FileSector(fs.geo, chain, fptr / SS)
      modifies this`dirty, this`sect, this`fptr, fs.disk, buf, buff
      ensures Shape() && fs.Bytes() == old(fs.Bytes())
      ensures res == Ok || res == DiskErr
      ensures res == Ok ==>
                && Core() && Content() == old(Content())
                && 1 <= rcnt <= btr && fptr == old(fptr) + rcnt && Cursor(fptr)
                && buff[at..at + rcnt] == Content()[old(fptr)..fptr]
                && buff[..at] == old(buff[..at]) && buff[at + rcnt..] == old(buff[at + rcnt..])
                && (OwnSector(fs.geo, chain, old(sect)) ==> OwnSector(fs.geo, chain, sect))
      ensures SameOutsideFile(fs.geo, chain, old(fs.Logical()), fs.Logical())
      ensures old(fs.disk.faults) <= fs.disk.faults && (fs.disk.faults == old(fs.disk.faults) ==> res == Ok)
    {
      hide Shape, Base, Core, Content, Eff, Cursor, ChainOk, Clusters, OwnSector, SameOutsideFile, BufferOk,
           WindowAside, FileSector, FileBytes, Sectors, Quot, Rem,
           Volume.Valid, Volume.Logical, Volume.Fat, Volume.Bytes;
      rcnt := 0;
      CoreParts();
      BaseParts();
      NothingOutside(fs.geo, chain, fs.Logical());
      FileSectorIsOwn(fs.geo, chain, fptr / SS);
      if btr / SS > 0 {
        res, rcnt := ReadRun(buff, at, btr, s);
        return;
      }
      var ok := ShowSector(fptr / SS, s);
      if !ok {
        return DiskErr, 0;
      }
      rcnt := ReadPart(buff, at, btr);
      res := Ok;
    }

    lemma BaseOfShape()
      requires Shape()
      ensures fs.Valid() && fs.geo.csize > 0
    {
    }

    /** In the middle of a sector the buffer shows that sector. */
    lemma CursorSector()
      requires Core() && Cursor(fptr) && fptr % SS != 0
      ensures Quot(fptr / SS, fs.geo.csize) < |chain| && sect == FileSector(fs.geo, chain, fptr / SS)
      ensures Quot((fptr - 1) / SS, fs.geo.csize) < |chain| && clust == chain[Quot((fptr - 1) / SS, fs.geo.csize)]
    {
    }

    /** The flat file that the open file stands for. */
    ghost function View(): (v: Flat)
      requires Core() && Cursor(fptr)
      reads this, buf, fs`winsect, fs`wflag, fs`stale, fs.disk, fs.win
      ensures v.Valid()
    {
      Flat(Content(), fptr)
    }

    lemma ValidParts()
      requires Valid() && err == Ok
      ensures Core() && Cursor(fptr) && View().Valid()
    {
    }

    /** `f_read`: delivers the bytes at the file pointer, all that are wanted or all that are left. */
    method Read(buff: array<byte>, btr0: u32) returns (res: FResult, br: nat)
      requires Valid() && buff != buf && buff != fs.win && btr0 <= buff.Length
      modifies this`clust, this`dirty, this`sect, this`fptr, this`err
      modifies fs`winsect, fs`wflag, fs`stale, fs.disk, fs.win, buf, buff
      ensures Valid() && fs.Bytes() == old(fs.Bytes()) && old(fs.disk.faults) <= fs.disk.faults
      ensures old(err) != Ok ==> res == err == old(err) && br == 0 && buff[..] == old(buff[..])
      ensures old(err) == Ok && !readable ==>
                res == Denied && err == Ok && br == 0 && buff[..] == old(buff[..]) && View() == old(View())
      ensures old(err) == Ok && readable ==>
                && (res == Ok || res == DiskErr) && err == res
                && (fs.disk.faults == old(fs.disk.faults) ==> res == Ok)
      ensures old(err) == Ok && readable && res == Ok ==>
                && br <= btr0 && (buff[..br], View()) == old(View()).Read(btr0)
                && buff[br..] == old(buff[br..])
                && (old(ShowsOwn()) ==> ShowsOwn())
      ensures old(err) == Ok && readable && res == Ok ==>
                && br == (if btr0 <= old(objsize) - old(fptr) then btr0 else old(objsize) - old(fptr))
                && fptr == old(fptr) + br && objsize == old(objsize) && Content() == old(Content())
                && buff[..br] == Content()[old(fptr)..fptr]
      ensures chain == old(chain)
      ensures Touched(fs.geo, old(fs.Fat()), old(chain), chain, old(fs.Logical()), fs.Logical(),
                      old(fs.winsect), fs.winsect)
    {
      hide Table, FatBytes, Volume.Logical, Lba, ClusterOf, WindowAside, FileSector, IsChain, FileBytes, BufferOk,
           Content, Eff, Quot, Rem, ChainOk;
      br, res := 0, err;
      if res != Ok {
        return;
      }
      if !readable {
        return Denied, 0;
      }
      var remain := objsize - fptr;
      var btr := btr0;
      if btr > remain {
        btr := remain;
      }
      ghost var start := Now();
      NowIs();
      res, br := ReadLoop(buff, btr);
      NowIs();
      SteppedParts(fs.geo, start, Now(), res);
    }

    /** The loop of `f_read`. */
    method ReadLoop(buff: array<byte>, n: nat) returns (res: FResult, br: nat)
      requires Core() && Cursor(fptr) && err == Ok
      requires buff != buf && buff != fs.win && n <= buff.Length && n <= objsize - fptr
      modifies this`clust, this`dirty, this`sect, this`fptr, this`err
      modifies fs`winsect, fs`wflag, fs`stale, fs.disk, fs.win, buf, buff
      ensures Shape() && fs.Bytes() == old(fs.Bytes())
      ensures res == Ok || res == DiskErr
      ensures err == res
      ensures res == Ok ==>
                && Core() && Cursor(fptr) && Content() == old(Content())
                && br == n && fptr == old(fptr) + n
                && buff[..n] == Content()[old(fptr)..fptr] && buff[n..] == old(buff[n..])
      ensures Stepped(fs.geo, old(Now()), Now(), res)
      ensures fs.disk.faults == old(fs.disk.faults) ==> res == Ok
    {
      hide *;
      BaseOfCore();
      ghost var start := Now();
      NotStepped(fs.geo, start);
      br, res := 0, Ok;
      var btr := n;
      ghost var c, p, was := Content(), fptr, buff[..];
      NothingDelivered(was, c, p);
      while btr > 0
        invariant res == Ok && err == Ok && Core() && Cursor(fptr) && Content() == c
        invariant Shape() && fs.Valid() && fs.Bytes() == old(fs.Bytes())
        invariant br + btr == n && fptr == p + br && p + n <= objsize
        invariant Delivered(was, buff[..], br, c, p)
        invariant Stepped(fs.geo, start, Now(), Ok) && old(fs.disk.faults) <= fs.disk.faults
      {
        ghost var x, mid := buff[..], Now();
        NowIs();
        var rcnt;
        res, rcnt := ReadStep(buff, br, btr);
        BaseOfShape();
        NowIs();
        SteppedParts(fs.geo, mid, Now(), res);
        SteppedOn(fs.geo, start, mid, Now(), res);
        if res != Ok {
          err := res;
          return res, br;
        }
        MoreDelivered(was, x, buff[..], br, rcnt, c, p);
        btr, br := btr - rcnt, br + rcnt;
        BaseOfCore();
      }
      AllDelivered(was, buff[..], n, c, p);
    }

    /** `create_chain` for the cluster after link `q - 1`, with the file's chain kept up to date. */
    method TakeCluster(ghost q: nat, clst0: u32) returns (res: FResult, clst: u32)
      requires Core() && q <= |chain| && (q == 0 ==> sclust == 0)
      requires clst0 == if q == 0 then 0 else chain[q - 1]
      modifies this`sclust, this`chain, fs, fs.disk, fs.win
      ensures Shape() && old(chain) <= chain
      ensures res == Ok ==>
                && Core() && Content() == old(Content()) && (|chain| == old(|chain|) || |chain| == q + 1)
                && if clst == 0 then q == |chain| && (CountRight(old(fs.Fat()), old(fs.freeClst)) ==> Full(fs.Fat()))
                   else q < |chain| && clst == chain[q]
      ensures Stepped(fs.geo, old(Now()), Now(), res)
    {
      hide *;
      CoreParts();
      BaseParts();
      ErrorCodes();
      ghost var l, t, g := fs.Logical(), fs.Fat(), fs.geo;
      ghost var last, free, ch, start := fs.lastClst, fs.freeClst, chain, Now();
      NowIs();
      clst := CreateChain(fs, clst0);
      fs.FatStepParts();
      ShapeKept();
      NowIs();
      FatAccessKeepsFile(g, ch, l, fs.Logical(), dirty, sect, bufAt, buf[..], objsize);
      TouchedFats(g, t, ch, l, fs.Logical(), old(fs.winsect), fs.winsect);
      if clst == DISK_ERROR {
        SteppedWhole(g, start, Now(), DiskErr);
        return DiskErr, clst;
      }
      FollowOrStretch(g, t, ch, sclust, q, last, free, clst, fs.Fat(), fs.freeClst);
      if clst == INT_ERROR {
        SteppedWhole(g, start, Now(), IntErr);
        return IntErr, clst;
      }
      res := Ok;
      if clst >= 2 {
        Stretched(clst, q);
        TouchedLonger(g, t, ch, chain, clst, l, fs.Logical(), old(fs.winsect), fs.winsect);
      } else {
        WindowStaysAside(g, t, ch, old(fs.winsect), fs.winsect);
        CoreWhole();
      }
      NowIs();
      SteppedWhole(g, start, Now(), Ok);
    }

    /** The ghost chain follows the FAT; a first cluster becomes the file's start cluster. */
    method Stretched(clst: u32, ghost q: nat)
      requires Shape() && objsize <= SS * Sectors(fs.geo, chain) && 2 <= clst && q <= |chain| && Clusters(fs.geo, chain)
      requires BufferOk(fs.geo, chain, fs.Logical(), dirty, sect, bufAt, buf[..])
      requires fs.geo.InFat(fs.winsect)
      requires if q < |chain| then clst == chain[q] && ChainOk(fs.geo, fs.Fat(), chain, sclust)
               else ChainOk(fs.geo, fs.Fat(), chain + [clst], if q == 0 then clst else sclust)
      requires q == 0 ==> sclust == 0
      modifies this`sclust, this`chain
      ensures Core() && chain == if q < old(|chain|) then old(chain) else old(chain) + [clst]
      ensures Content() == FileBytes(fs.geo, old(chain), Overlay(fs.Logical(), dirty, sect, buf[..]), objsize)
    {
      hide Table, FatBytes, Volume.Logical, Lba, ClusterOf, WindowAside, FileBytes, IsChain, Overlay;
      FatIsAside(fs.geo, fs.Fat(), chain, fs.winsect);
      FatIsAside(fs.geo, fs.Fat(), chain + [clst], fs.winsect);
      ghost var longer := q == |chain|;
      if sclust == 0 {
        sclust := clst;
      }
      if longer {
        GrownChain(fs.geo, chain, clst, fs.Logical(), objsize, dirty, sect, bufAt, buf[..]);
        chain := chain + [clst];
      }
    }

    /** On a cluster boundary: as `EnterClusterToRead`, but a missing cluster is allocated; `full` if there is none. */
    method EnterClusterToWrite(ghost q: nat) returns (res: FResult, full: bool)
      requires Core() && q <= |chain|
      requires if fptr == 0 then q == 0 else q > 0 && clust == chain[q - 1]
      modifies this`clust, this`sclust, this`chain, fs, fs.disk, fs.win
      ensures Shape() && old(chain) <= chain
      ensures res == Ok ==>
                && Core() && Content() == old(Content()) && (|chain| == old(|chain|) || |chain| == q + 1)
                && if full then q == |chain| && clust == old(clust)
                      && (CountRight(old(fs.Fat()), old(fs.freeClst)) ==> Full(fs.Fat()))
                   else q < |chain| && clust == chain[q]
      ensures Stepped(fs.geo, old(Now()), Now(), res)
    {
      hide *;
      CoreParts();
      BaseParts();
      HeadOrNone();
      NotStepped(fs.geo, Now());
      res, full := Ok, false;
      var clst := sclust;
      if fptr != 0 {
        res, clst := TakeCluster(q, clust);
      } else if clst == 0 {
        res, clst := TakeCluster(q, 0);
      }
      if res != Ok {
        return;
      }
      if clst == 0 {
        full := true;
      } else {
        clust := clst;
      }
    }

    lemma HeadOrNone()
      requires Core()
      ensures if sclust == 0 then chain == [] else 0 < |chain| && chain[0] == sclust
    {
    }

    /** On a sector boundary: the place on the card of the sector at `fptr`, which may be the first of a new cluster. */
    method LocateToWrite() returns (res: FResult, full: bool, s: int)
      requires Core() && Cursor(fptr) && fptr % SS == 0
      modifies this`clust, this`sclust, this`chain, fs, fs.disk, fs.win
      ensures Shape() && old(chain) <= chain
      ensures res == Ok ==>
                && Core() && Content() == old(Content())
                && if full then clust == old(clust) && chain == old(chain) && fptr == LinkStart(fs.geo, |chain|)
                      && (CountRight(old(fs.Fat()), old(fs.freeClst)) ==> Full(fs.Fat()))
                   else
                     && Quot(fptr / SS, fs.geo.csize) < |chain| && clust == chain[Quot(fptr / SS, fs.geo.csize)]
                     && s == FileSector(fs.geo, chain, fptr / SS)
                     && (|chain| == old(|chain|) || LinkStart(fs.geo, |chain| - 1) == fptr)
      ensures Stepped(fs.geo, old(Now()), Now(), res)
    {
      hide Table, FatBytes, Volume.Logical, ClusterOf, WindowAside, IsChain, FileBytes, BufferOk, Content, Eff, FreeSet,
           LinkStart;
      res, full, s := Ok, false, 0;
      PositionHasLink(fs.geo, chain, fptr);
      var csect := Rem(fptr / SS, fs.geo.csize);
      ghost var q := Quot(fptr / SS, fs.geo.csize);
      if csect == 0 {
        if fptr > 0 {
          BoundaryLink(fs.geo, fptr);
        }
        BoundaryStart(fs.geo, fptr);
        res, full := EnterClusterToWrite(q);
        if res != Ok || full {
          return;
        }
      } else {
        InnerLink(fs.geo, fptr);
      }
      s := ClusterToSector(fs.geo, clust);
      ClusterSector(fs.geo, clust, 0);
      if s == 0 {
        return IntErr, false, 0;
      }
      s := s + csect;
    }

    /** Write as many whole sectors as are at hand and contiguous, keeping the buffer in step. */
    method WriteRun(data: seq<byte>, s: int) returns (res: FResult, wcnt: nat)
      requires Core() && !dirty && fptr % SS == 0 && fptr <= objsize && |data| >= SS && fptr + |data| < POW32
      requires Quot(fptr / SS, fs.geo.csize) < |chain| && clust == chain[Quot(fptr / SS, fs.geo.csize)]
      requires s == FileSector(fs.geo, chain, fptr / SS)
      modifies this`fptr, this`objsize, fs.disk, buf
      ensures Shape() && fs.Bytes() == old(fs.Bytes())
      ensures res == Ok || res == DiskErr
      ensures res == Ok ==>
                && Core() && 1 <= wcnt <= |data| && fptr == old(fptr) + wcnt && Cursor(fptr)
                && Content() == Splice(old(Content()), old(fptr), data[..wcnt])
      ensures SameOutsideFile(fs.geo, chain, old(fs.Logical()), fs.Logical())
      ensures old(fs.disk.faults) <= fs.disk.faults && (fs.disk.faults == old(fs.disk.faults) ==> res == Ok)
    {
      hide Table, FatBytes, Volume.Logical, Lba, ClusterOf, WindowAside, IsChain, FatBytes, FileBytes, FileSector,
           Quot, Rem, Splice;
      var csect := Rem(fptr / SS, fs.geo.csize);
      var cc := |data| / SS;
      if csect + cc > fs.geo.csize {
        cc := fs.geo.csize - csect;
      }
      wcnt := SS * cc;
      AdvanceSectors(fs.geo, chain, fptr, cc);
      ghost var l := fs.Logical();
      res := WriteDirect(data[..wcnt], fptr / SS, s, cc);
      if res != Ok {
        return;
      }
      RunSpliced(fs.geo, chain, l, fs.Logical(), fptr / SS, cc, data[..wcnt], objsize);
      fptr := fptr + wcnt;
      if fptr > objsize {
        objsize := fptr;
      }
    }

    method TakeSector(src: seq<byte>, d: nat)
      requires buf.Length == SS && d + SS <= |src|
      modifies buf
      ensures buf[..] == src[d..d + SS]
    {
      forall k | 0 <= k < SS {
        buf[k] := src[d + k];
      }
    }

    /** `disk_write` of the caller's sectors; the clean buffer is refilled if it shows one of them. */
    method WriteDirect(src: seq<byte>, ghost i: nat, s: int, cc: nat) returns (res: FResult)
      requires Core() && !dirty && |src| == SS * cc
      requires Quot(i, fs.geo.csize) < |chain| && Rem(i, fs.geo.csize) + cc <= fs.geo.csize
      requires s == FileSector(fs.geo, chain, i)
      modifies fs.disk, buf
      ensures Base() && fs.Bytes() == old(fs.Bytes())
      ensures res == Ok || res == DiskErr
      ensures res == Ok ==> Core() && RunWritten(old(fs.Logical()), fs.Logical(), s, cc, src)
      ensures SameOutsideFile(fs.geo, chain, old(fs.Logical()), fs.Logical())
      ensures old(fs.disk.faults) <= fs.disk.faults && (fs.disk.faults == old(fs.disk.faults) ==> res == Ok)
    {
      hide Table, FatBytes, Volume.Logical, Lba, ClusterOf, WindowAside, IsChain, FatBytes, FileBytes, FileSector,
           Quot, Rem, Foreign, Sub32;
      RunAvoidsWindow(fs.geo, fs.Fat(), chain, fs.winsect, i, cc);
      RunOwn(fs.geo, chain, i, cc);
      Sub32InRange(sect, s, cc);
      var ok := TransferOut(fs, src, s, cc);
      res := if ok then Ok else DiskErr;
      if ok && Sub32(sect, s) < cc {
        var d := SS * (sect - s);
        TakeSector(src, d);
      }
    }

    /** The copy of `data` into the buffer. */
    method Patch(at: nat, data: seq<byte>)
      requires buf.Length == SS && at + |data| <= SS
      modifies buf
      ensures buf[..] == Splice(old(buf[..]), at, data)
    {
      forall k | 0 <= k < |data| {
        buf[at + k] := data[k];
      }
    }

    /** Put `data` into the buffer, which shows the sector at `fptr` or, on the growing edge, nothing of value. */
    method Fill(data: seq<byte>, ghost image: seq<Sector>)
      requires Base() && fptr <= objsize && 0 < |data| && fptr % SS + |data| <= SS && fptr + |data| < POW32
      requires Quot(fptr / SS, fs.geo.csize) < |chain| && clust == chain[Quot(fptr / SS, fs.geo.csize)]
      requires sect == FileSector(fs.geo, chain, fptr / SS)
      requires |image| == fs.geo.total && InData(fs.geo, sect)
      requires forall t | 0 <= t < |image| && t != sect :: image[t] == fs.Logical()[t]
      requires image[sect] == buf[..] || (fptr % SS == 0 && fptr == objsize)
      modifies this`fptr, this`objsize, this`dirty, this`bufAt, buf
      ensures Core() && fptr == old(fptr) + |data| && Cursor(fptr)
      ensures Content() == Splice(FileBytes(fs.geo, chain, image, old(objsize)), old(fptr), data)
    {
      hide Shape, Base, Core, Content, Eff, Cursor, BufferOk, ChainOk, WindowAside, Clusters, Sectors, FileSector,
           FileBytes, Overlay, Splice, Quot, InData, Volume.Valid, Volume.Logical, Volume.Fat, Geometry.Valid;
      BaseParts();
      ghost var p, size, was := fptr, objsize, buf[..];
      Patch(fptr % SS, data);
      dirty, bufAt := true, fptr / SS;
      Filled(fs.geo, chain, fs.Logical(), image, sect, was, buf[..], p, data, size);
      fptr := fptr + |data|;
      if fptr > objsize {
        objsize := fptr;
      }
      CoreWhole();
      CursorInSector(p, |data|);
    }

    /** The cursor after moving on inside the sector that the buffer shows. */
    lemma CursorInSector(p: nat, n: nat)
      requires fs.geo.Valid() && 1 <= n && p % SS + n <= SS && p + n <= objsize
      requires Quot(p / SS, fs.geo.csize) < |chain| && clust == chain[Quot(p / SS, fs.geo.csize)]
      requires sect == FileSector(fs.geo, chain, p / SS)
      ensures Cursor(p + n)
    {
      hide Quot, FileSector;
      AdvanceInSector(p, n);
    }

    /** Part of a sector from its beginning: the buffer is loaded first unless the sector lies on the growing edge. */
    method WriteSectorStart(data: seq<byte>, s: int) returns (res: FResult)
      requires Core() && !dirty && fptr <= objsize && fptr % SS == 0 && 0 < |data| <= SS && fptr + |data| < POW32
      requires Quot(fptr / SS, fs.geo.csize) < |chain| && clust == chain[Quot(fptr / SS, fs.geo.csize)]
      requires s == FileSector(fs.geo, chain, fptr / SS)
      modifies this`fptr, this`objsize, this`sect, this`dirty, this`bufAt, fs.disk`faults, buf
      ensures Shape() && fs.Bytes() == old(fs.Bytes()) && fs.Logical() == old(fs.Logical())
      ensures res == Ok || res == DiskErr
      ensures res == Ok ==>
                && Core() && fptr == old(fptr) + |data| && Cursor(fptr) && sect == s
                && Content() == Splice(old(Content()), old(fptr), data)
      ensures old(fs.disk.faults) <= fs.disk.faults && (fs.disk.faults == old(fs.disk.faults) ==> res == Ok)
    {
      hide Table, FatBytes, Volume.Logical, Lba, ClusterOf, WindowAside, IsChain, FatBytes, FileBytes, FileSector,
           Quot, Rem, Splice;
      ghost var image := Eff();
      FileSectorInData(fs.geo, chain, fptr / SS);
      res := Ok;
      if sect != s && fptr < objsize {
        var ok := LoadBuffer(fptr / SS, s);
        if !ok {
          return DiskErr;
        }
      }
      sect := s;
      Fill(data, image);
    }

    /** Part of the sector that the file pointer is in the middle of. */
    method WriteSectorRest(data: seq<byte>)
      requires Core() && Cursor(fptr) && fptr % SS != 0 && 0 < |data| && fptr % SS + |data| <= SS
                && fptr + |data| < POW32
      modifies this`fptr, this`objsize, this`dirty, this`bufAt, buf
      ensures Core() && fptr == old(fptr) + |data| && Cursor(fptr)
      ensures Content() == Splice(old(Content()), old(fptr), data)
    {
      hide Table, FatBytes, Volume.Logical, Lba, ClusterOf, WindowAside, IsChain, FatBytes, FileBytes, FileSector,
           Quot, Rem, Splice;
      InnerLink(fs.geo, fptr);
      FileSectorInData(fs.geo, chain, fptr / SS);
      Fill(data, Eff());
    }

    /** One round of the loop of `f_write`. */
    method WriteStep(data: seq<byte>) returns (res: FResult, full: bool, wcnt: nat)
      requires Core() && Cursor(fptr) && 0 < |data| && fptr + |data| < POW32
      modifies this`clust, this`sclust, this`chain, this`objsize, this`fptr, this`sect, this`dirty, this`bufAt
      modifies fs, fs.disk, fs.win, buf
      ensures Shape() && old(chain) <= chain
      ensures res == Ok ==>
                && Core() && Cursor(fptr) && fptr == old(fptr) + wcnt && wcnt <= |data|
                && Content() == Splice(old(Content()), old(fptr), data[..wcnt])
                && (|chain| == old(|chain|) || LinkStart(fs.geo, |chain| - 1) < fptr)
                && if full then wcnt == 0 && fptr == LinkStart(fs.geo, |chain|)
                      && (CountRight(old(fs.Fat()), old(fs.freeClst)) ==> Full(fs.Fat())) else wcnt > 0
      ensures Stepped(fs.geo, old(Now()), Now(), res)
    {
      hide Base, Core, Content, Eff, Cursor, ChainOk, Clusters, BufferOk, WindowAside, FileBytes, FileSector, Sectors,
           SameOutsideFile, Stepped, OwnSector, CountRight, Full, NoOnes, Quot, Rem, Splice, Now, LinkStart,
           Volume.Valid, Volume.Logical, Volume.Bytes, Volume.Fat;
      res, full, wcnt := Ok, false, 0;
      CoreParts();
      BaseParts();
      CursorEnd();
      ghost var start := Now();
      NotStepped(fs.geo, start);
      if fptr % SS == 0 {
        var s;
        res, full, s := LocateToWrite();
        if res != Ok {
          return;
        }
        if full {
          SpliceNothing(Content(), fptr);
          return;
        }
        CoreParts();
        BaseParts();
        ghost var found := Now();
        label Found:
        res, wcnt := WriteAtBoundary(data, s);
        BaseOfShape();
        Transferred@Found(res);
        SteppedOn(fs.geo, start, found, Now(), res);
      } else {
        wcnt := SS - fptr % SS;
        if wcnt > |data| {
          wcnt := |data|;
        }
        WriteSectorRest(data[..wcnt]);
      }
    }

    lemma CursorEnd()
      requires Cursor(fptr)
      ensures fptr <= objsize
    {
    }

    /** The round of `f_write` on a sector boundary, once the sector is known. */
    method WriteAtBoundary(data: seq<byte>, s: int) returns (res: FResult, wcnt: nat)
      requires Core() && fptr <= objsize && fptr % SS == 0 && 0 < |data| && fptr + |data| < POW32
      requires Quot(fptr / SS, fs.geo.csize) < |chain| && clust == chain[Quot(fptr / SS, fs.geo.csize)]
      requires s == FileSector(fs.geo, chain, fptr / SS)
      modifies this`fptr, this`objsize, this`sect, this`dirty, this`bufAt, fs.disk, buf
      ensures Shape() && fs.Bytes() == old(fs.Bytes())
      ensures res == Ok || res == DiskErr
      ensures res == Ok ==>
                && Core() && 1 <= wcnt <= |data| && fptr == old(fptr) + wcnt && Cursor(fptr)
                && Content() == Splice(old(Content()), old(fptr), data[..wcnt])
                && (OwnSector(fs.geo, chain, old(sect)) ==> OwnSector(fs.geo, chain, sect))
      ensures SameOutsideFile(fs.geo, chain, old(fs.Logical()), fs.Logical())
      ensures old(fs.disk.faults) <= fs.disk.faults && (fs.disk.faults == old(fs.disk.faults) ==> res == Ok)
    {
      hide Table, FatBytes, Volume.Logical, Lba, ClusterOf, WindowAside, IsChain, FileBytes, FileSector, Quot, Rem,
           BufferOk, Eff, ChainOk, Foreign, Splice, Cursor;
      wcnt := 0;
      CoreParts();
      BaseParts();
      FileSectorIsOwn(fs.geo, chain, fptr / SS);
      var ok := FlushBuffer();
      if !ok {
        return DiskErr, 0;
      }
      if |data| / SS > 0 {
        res, wcnt := WriteRun(data, s);
      } else {
        wcnt := |data|;
        assert data[..wcnt] == data;
        res := WriteSectorStart(data, s);
      }
    }

    /** The loop of `f_write`. */
    method WriteLoop(data: seq<byte>) returns (res: FResult, bw: nat)
      requires Core() && Cursor(fptr) && err == Ok && fptr + |data| < POW32
      modifies this`clust, this`sclust, this`chain, this`objsize, this`fptr, this`sect, this`dirty, this`bufAt, this`err
      modifies fs, fs.disk, fs.win, buf
      ensures Shape() && old(chain) <= chain && err == res && bw <= |data|
      ensures res == Ok ==>
                && Core() && Cursor(fptr) && fptr == old(fptr) + bw && bw <= |data|
                && Content() == Splice(old(Content()), old(fptr), data[..bw])
                && (|chain| == old(|chain|) || LinkStart(fs.geo, |chain| - 1) < fptr)
                && (bw < |data| ==> fptr == LinkStart(fs.geo, |chain|))
                && (bw < |data| ==> CountRight(old(fs.Fat()), old(fs.freeClst)) ==> Full(fs.Fat()))
      ensures Stepped(fs.geo, old(Now()), Now(), res)
    {
      hide *;
      bw, res := 0, Ok;
      CoreParts();
      BaseParts();
      ghost var start := Now();
      NowIs();
      NotStepped(fs.geo, start);
      ghost var c, p := Content(), fptr;
      CursorEnd();
      SpliceNothing(c, p);
      var full := false;
      while bw < |data| && !full
        invariant res == Ok && err == Ok && Shape() && fs.Valid() && Core() && Cursor(fptr)
        invariant bw <= |data| && fptr == p + bw && p <= |c|
        invariant Content() == Splice(c, p, data[..bw])
        invariant full ==> fptr == LinkStart(fs.geo, |chain|)
        invariant full ==> CountRight(old(fs.Fat()), old(fs.freeClst)) ==> Full(fs.Fat())
        invariant old(chain) <= chain && (|chain| == old(|chain|) || LinkStart(fs.geo, |chain| - 1) < fptr)
        invariant Stepped(fs.geo, start, Now(), Ok)
        decreases |data| - bw, !full
      {
        ghost var mid := Now();
        NowIs();
        SteppedParts(fs.geo, start, mid, Ok);
        var wcnt;
        res, full, wcnt := WriteStep(data[bw..]);
        BaseOfShape();
        SteppedOn(fs.geo, start, mid, Now(), res);
        NowIs();
        SteppedParts(fs.geo, start, Now(), res);
        if res != Ok {
          err := res;
          return;
        }
        SpliceSplice(c, p, data[..bw], data[bw..][..wcnt]);
        assert data[..bw] + data[bw..][..wcnt] == data[..bw + wcnt];
        bw := bw + wcnt;
        CursorEnd();
      }
      NowIs();
      SteppedParts(fs.geo, start, Now(), Ok);
    }

    /** `f_write` once it is known how much of the input fits below 4 GiB. */
    method WriteClipped(data: seq<byte>) returns (res: FResult, bw: nat)
      requires Core() && Cursor(fptr) && err == Ok && fptr + |data| < POW32
      modifies this`clust, this`sclust, this`chain, this`objsize, this`fptr, this`sect, this`dirty, this`bufAt, this`err
      modifies fs, fs.disk, fs.win, buf
      ensures Shape() && old(chain) <= chain && err == res && bw <= |data|
      ensures res == Ok ==>
                && Core() && Cursor(fptr) && Content() == Splice(old(Content()), old(fptr), data[..bw])
                && fptr == old(fptr) + bw && objsize == (if fptr <= old(objsize) then old(objsize) else fptr)
                && Content()[old(fptr)..fptr] == data[..bw] && Content()[..old(fptr)] == old(Content())[..old(fptr)]
                && Content()[fptr..] == (if fptr <= old(objsize) then old(Content())[fptr..] else [])
                && ChainsKept(old(fs.Fat()), fs.Fat(), old(chain), chain)
      ensures res == Ok ==>
                && (bw < |data| ==> fptr == LinkStart(fs.geo, |chain|))
                && (CountRight(old(fs.Fat()), old(fs.freeClst)) ==>
                      && (bw < |data| ==> Full(fs.Fat()))
                      && fptr == if old(fptr) + |data| <= old(Room()) then old(fptr) + |data| else old(Room()))
                && (|chain| == old(|chain|) || LinkStart(fs.geo, |chain| - 1) < fptr)
                && FreeCount(fs.Fat()) + |chain| == old(FreeCount(fs.Fat()) + |chain|)
      ensures Stepped(fs.geo, old(Now()), Now(), res)
    {
      hide *;
      BaseOfCore();
      CursorEnd();
      ghost var c, p, start := Content(), fptr, Now();
      NowIs();
      res, bw := WriteLoop(data);
      BaseOfShape();
      NowIs();
      SteppedParts(fs.geo, start, Now(), res);
      if res == Ok {
        ChainsKeptHere();
        CountKept();
        Reached(bw < |data| && CountRight(old(fs.Fat()), old(fs.freeClst)));
        SplicedParts(c, p, data[..bw]);
        CursorEnd();
      }
    }

    /**
      * `f_write`: writes all of `data`, or what of it fits below 4 GiB, or fills the last free cluster: with a right or
      * invalid free count, exactly as much as there is room for. The chain gets no cluster that the bytes do not need.
      */
    method Write(data: seq<byte>) returns (res: FResult, bw: nat)
      requires Valid() && |data| < POW32
      modifies this`clust, this`sclust, this`chain, this`objsize, this`fptr, this`sect, this`dirty, this`bufAt, this`err
      modifies this`modified, fs, fs.disk, fs.win, buf
      ensures Valid() && old(chain) <= chain
      ensures old(err) != Ok ==> res == err == old(err) && bw == 0
      ensures old(err) == Ok && !writable ==> res == Denied && err == Ok && bw == 0 && View() == old(View())
      ensures old(err) == Ok && writable ==>
                && err == res && bw <= (if old(fptr) + |data| < 0x1_0000_0000 then |data| else 0xFFFF_FFFF - old(fptr))
                && (fs.disk.faults == old(fs.disk.faults) && NoOnes(old(fs.Fat())) ==> res == Ok)
      ensures old(err) == Ok && writable && res == Ok ==>
                && View() == old(View()).Write(data[..bw]) && modified
                && FatKept(old(fs.Fat()), fs.Fat(), old(fs.freeClst), fs.freeClst, chain)
                && ChainsKept(old(fs.Fat()), fs.Fat(), old(chain), chain) && (old(ShowsOwn()) ==> ShowsOwn())
      ensures old(err) == Ok && writable && res == Ok ==>
                && fptr == old(fptr) + bw && objsize == (if fptr <= old(objsize) then old(objsize) else fptr)
                && Content()[old(fptr)..fptr] == data[..bw] && Content()[..old(fptr)] == old(Content())[..old(fptr)]
                && Content()[fptr..] == (if fptr <= old(objsize) then old(Content())[fptr..] else [])
      ensures old(err) == Ok && writable && res == Ok ==>
                var n := if old(fptr) + |data| < 0x1_0000_0000 then |data| else 0xFFFF_FFFF - old(fptr);
                && (bw < n ==> fptr == LinkStart(fs.geo, |chain|))
                && (CountRight(old(fs.Fat()), old(fs.freeClst)) ==>
                      && (bw < n ==> Full(fs.Fat()))
                      && fptr == if old(fptr) + n <= old(Room()) then old(fptr) + n else old(Room()))
                && (|chain| == old(|chain|) || LinkStart(fs.geo, |chain| - 1) < fptr)
                && FreeCount(fs.Fat()) + |chain| == old(FreeCount(fs.Fat()) + |chain|)
      ensures Touched(fs.geo, old(fs.Fat()), old(chain), chain, old(fs.Logical()), fs.Logical(),
                      old(fs.winsect), fs.winsect)
    {
      hide Table, FatBytes, Volume.Logical, Lba, ClusterOf, WindowAside, IsChain, FileBytes, FileSector, Quot, Rem,
           BufferOk, Content, Eff, ChainOk, FreeSet, FreeCount, NoOnes, Full, CountRight, Foreign, Splice, LinkStart,
           MostBytes, ChainsKept, FatKept, Stepped, OwnSector, Base, Core, Cursor, Clusters, Now;
      bw, res := 0, err;
      if res != Ok {
        return;
      }
      if !writable {
        return Denied, 0;
      }
      var btw := WriteLimit(fptr, |data|);
      BaseOfCore();
      ghost var start := Now();
      NowIs();
      res, bw := WriteClipped(data[..btw]);
      BaseOfShape();
      NowIs();
      SteppedParts(fs.geo, start, Now(), res);
      if res == Ok {
        assert data[..btw][..bw] == data[..bw];
        modified := true;
      }
    }

    /** The most bytes that the file can have. */
    ghost function Room(): nat
      requires fs.Valid()
      reads this`chain, fs`winsect, fs`wflag, fs`stale, fs.disk, fs.win
    {
      MostBytes(fs.geo, |chain|, FreeCount(fs.Fat()))
    }

    /** What joins the chain is no longer free, so the room for the file stays the same. */
    twostate lemma CountKept()
      requires old(Core()) && Core()
      requires FatKept(old(fs.Fat()), fs.Fat(), old(fs.freeClst), fs.freeClst, chain)
      requires Touched(fs.geo, old(fs.Fat()), old(chain), chain, old(fs.Logical()), fs.Logical(),
                       old(fs.winsect), fs.winsect)
      ensures FreeCount(fs.Fat()) + |chain| == old(FreeCount(fs.Fat()) + |chain|)
      ensures Room() == old(Room())
    {
      hide Core, Base, Cursor, Content, Eff, ChainOk, Clusters, BufferOk, WindowAside, Touched, FatKept, FreeCount,
           Volume.Valid, Volume.Logical, Volume.Fat;
      OldCoreParts();
      CoreParts();
      BaseParts();
      GrownCount(fs.geo, old(fs.Fat()), fs.Fat(), old(fs.freeClst), fs.freeClst, old(chain), chain,
                 old(fs.Logical()), fs.Logical(), old(fs.winsect), fs.winsect, old(sclust), sclust);
    }

    /** The pointer is within the room, and at its end if the chain ends there and nothing is free. */
    lemma Reached(full: bool)
      requires Core() && Cursor(fptr) && (full ==> Full(fs.Fat()) && fptr == LinkStart(fs.geo, |chain|))
      ensures fptr <= Room() && (full ==> fptr == Room())
    {
      LinksInChain(fs.geo, chain);
      CountBounds(fs.Fat());
      WithinRoom(fs.geo, |chain|, FreeCount(fs.Fat()), fptr);
    }

    /** The other chains of the volume, after this file's chain has at most grown. */
    twostate lemma ChainsKeptHere()
      requires old(Core()) && Core()
      requires FatKept(old(fs.Fat()), fs.Fat(), old(fs.freeClst), fs.freeClst, chain)
      requires Touched(fs.geo, old(fs.Fat()), old(chain), chain, old(fs.Logical()), fs.Logical(),
                       old(fs.winsect), fs.winsect)
      ensures ChainsKept(old(fs.Fat()), fs.Fat(), old(chain), chain)
    {
      GrownKeepsChains(fs.geo, old(fs.Fat()), fs.Fat(), old(fs.freeClst), fs.freeClst, old(chain), chain,
                       old(fs.Logical()), fs.Logical(), old(fs.winsect), fs.winsect, sclust);
    }

    /**
      * Another open file of the volume, with a chain that does not meet this one's, after a read, a write or a seek of
      * this file that had no disk error: its bytes and its position are unchanged, and it is valid if its buffer showed
      * a sector of its own before the call, which is exactly what keeps a clean buffer right whatever is done to other
      * clusters (see `BufferIsSafeExactly`). A buffer that does not is still right if its sector was not written.
      */
    twostate lemma OtherKeptByGrowth(other: File)
      requires old(Core()) && Core() && other.fs == fs && old(other.Core() && other.Cursor(other.fptr))
      requires forall c | c in old(other.chain) :: c !in old(chain)
      requires FatKept(old(fs.Fat()), fs.Fat(), old(fs.freeClst), fs.freeClst, chain)
      requires Touched(fs.geo, old(fs.Fat()), old(chain), chain, old(fs.Logical()), fs.Logical(),
                       old(fs.winsect), fs.winsect)
      requires other.Untouched()
      ensures other.Core() <==>
                other.dirty || other.sect == 0 || fs.Logical()[other.sect] == old(fs.Logical())[other.sect]
      ensures other.ShowsOwn() ==> other.Core()
      ensures other.Core() ==> other.Cursor(other.fptr) && other.View() == old(other.View())
      ensures forall c | c in other.chain :: c !in chain
    {
      hide *;
      OldCoreParts();
      other.OldCoreParts();
      other.UntouchedParts();
      BaseOfCore();
      StaysApart(fs.geo, old(fs.Fat()), old(chain), chain, old(fs.Logical()), fs.Logical(), old(fs.winsect), fs.winsect,
                 other.chain, other.sclust);
      GrowthReaches(fs.geo, old(fs.Fat()), fs.Fat(), old(fs.freeClst), fs.freeClst, old(chain), chain,
                    old(fs.Logical()), fs.Logical(), old(fs.winsect), fs.winsect);
      ReachParts(old(fs.Fat()), fs.Fat(), old(chain), chain);
      BystanderKept(fs.geo, old(fs.Fat()), fs.Fat(), old(chain), chain, old(fs.Logical()), fs.Logical(),
                    old(fs.winsect), fs.winsect, other.chain, other.sclust,
                    other.dirty, other.sect, other.bufAt, other.buf[..], other.objsize);
      other.CoreExactly();
      other.OldView();
      other.ShowsOwnIs();
    }

    /** The same after this file has been truncated. */
    twostate lemma OtherKeptByCut(other: File)
      requires old(Core()) && Core() && other.fs == fs && old(other.Core() && other.Cursor(other.fptr))
      requires forall c | c in old(other.chain) :: c !in old(chain)
      requires chain <= old(chain) && fs.Fat() == Cut(old(fs.Fat()), old(chain), |chain|, Eoc(fs.geo))
      requires SameOutsideFile(fs.geo, old(chain), old(fs.Logical()), fs.Logical())
      requires WindowStep(fs.geo, old(fs.winsect), fs.winsect)
      requires other.Untouched()
      ensures other.Core() <==>
                other.dirty || other.sect == 0 || fs.Logical()[other.sect] == old(fs.Logical())[other.sect]
      ensures other.ShowsOwn() ==> other.Core()
      ensures other.Core() ==> other.Cursor(other.fptr) && other.View() == old(other.View())
      ensures forall c | c in other.chain :: c !in chain
    {
      hide *;
      OldCoreParts();
      other.OldCoreParts();
      other.UntouchedParts();
      BaseOfCore();
      CutIndex(fs.geo, old(fs.Fat()), old(chain), |chain|);
      CutReaches(fs.geo, old(fs.Fat()), old(chain), |chain|);
      ReachParts(old(fs.Fat()), fs.Fat(), old(chain), old(chain));
      BystanderKept(fs.geo, old(fs.Fat()), fs.Fat(), old(chain), old(chain), old(fs.Logical()), fs.Logical(),
                    old(fs.winsect), fs.winsect, other.chain, other.sclust,
                    other.dirty, other.sect, other.bufAt, other.buf[..], other.objsize);
      other.CoreExactly();
      other.OldView();
      other.ShowsOwnIs();
    }

    /** The file object itself, and its buffer, are as they were. */
    twostate predicate Untouched()
      reads this, buf
    {
      && sclust == old(sclust) && objsize == old(objsize) && chain == old(chain) && err == old(err)
      && fptr == old(fptr) && clust == old(clust) && modified == old(modified)
      && dirty == old(dirty) && sect == old(sect) && bufAt == old(bufAt) && buf[..] == old(buf[..])
    }

    twostate lemma UntouchedParts()
      requires Untouched()
      ensures sclust == old(sclust) && objsize == old(objsize) && chain == old(chain)
      ensures dirty == old(dirty) && sect == old(sect) && bufAt == old(bufAt) && buf[..] == old(buf[..])
    {
    }

    twostate lemma OldCoreParts()
      requires old(Core())
      ensures old(fs.Valid()) && buf != fs.win && buf.Length == SS && fs.geo.csize > 0
      ensures old(ChainOk(fs.geo, fs.Fat(), chain, sclust) && Clusters(fs.geo, chain)
                  && objsize <= SS * Sectors(fs.geo, chain))
      ensures old(WindowAside(fs.geo, fs.Fat(), chain, fs.winsect))
      ensures old(BufferOk(fs.geo, chain, fs.Logical(), dirty, sect, bufAt, buf[..]))
      ensures old(Content() == FileBytes(fs.geo, chain, Overlay(fs.Logical(), dirty, sect, buf[..]), objsize))
      ensures old(dirty) ==> 0 <= old(sect) < fs.geo.total
      ensures 0 <= old(sect) < fs.geo.total
    {
      if old(dirty) {
        FileSectorInData(fs.geo, old(chain), old(bufAt));
      }
    }

    lemma CoreExactly()
      requires fs.Valid() && buf.Length == SS && buf != fs.win
      requires ChainOk(fs.geo, fs.Fat(), chain, sclust) && objsize <= SS * Sectors(fs.geo, chain)
      requires WindowAside(fs.geo, fs.Fat(), chain, fs.winsect)
      requires dirty ==> 0 <= sect < fs.geo.total
      ensures Core() <==> BufferOk(fs.geo, chain, fs.Logical(), dirty, sect, bufAt, buf[..])
      ensures Core() ==> Content() == FileBytes(fs.geo, chain, Overlay(fs.Logical(), dirty, sect, buf[..]), objsize)
    {
    }

    /** The same bytes at the same position are the same view. */
    twostate lemma OldView()
      requires old(Core() && Cursor(fptr)) && Untouched()
      ensures Cursor(fptr)
      ensures Core() && Content() == old(Content()) ==> View() == old(View())
    {
    }

    /** What seeking has established once the cluster is known; the buffer may still show another sector. */
    ghost predicate Placed(p: nat, nsect: int)
      reads this`chain, this`clust
    {
      && fs.geo.Valid()
      && p <= SS * Sectors(fs.geo, chain)
      && (p > 0 ==> Quot((p - 1) / SS, fs.geo.csize) < |chain| && clust == chain[Quot((p - 1) / SS, fs.geo.csize)])
      && (p % SS != 0 ==> Quot(p / SS, fs.geo.csize) < |chain| && nsect == FileSector(fs.geo, chain, p / SS))
    }

    /** The first cluster, which is allocated for an empty chain; 0 when the volume is full. */
    method SeekFromHead(target: u32) returns (res: FResult, clst: u32)
      requires Core() && fptr == 0 < target && (writable || target <= objsize)
      modifies this`clust, this`sclust, this`chain, fs, fs.disk, fs.win
      ensures Shape() && old(chain) <= chain
      ensures res == Ok ==>
                && Core() && Content() == old(Content())
                && clust == clst && (|chain| == old(|chain|) || |chain| == 1)
                && if clst == 0
                   then chain == [] && writable && (CountRight(old(fs.Fat()), old(fs.freeClst)) ==> Full(fs.Fat()))
                   else 0 < |chain| && clst == chain[0]
      ensures Stepped(fs.geo, old(Now()), Now(), res)
    {
      hide *;
      CoreParts();
      BaseParts();
      EmptyChain(fs.geo, chain);
      var full;
      res, full := EnterClusterToWrite(0);
      if res == Ok && !full {
        LinkIsCluster(0);
      }
      clst := if full then 0 else clust;
      clust := clst;
    }

    /** The cluster from which the chain is followed: the current one, or the first one when seeking back. */
    method SeekStart(target: u32, ifptr: u32) returns (res: FResult, clst: u32, ghost q: nat)
      requires Core() && Cursor(ifptr) && 0 < target && (writable || target <= objsize)
      modifies this`fptr, this`clust, this`sclust, this`chain, fs, fs.disk, fs.win
      ensures Shape() && old(chain) <= chain
      ensures res == Ok ==>
                && Core() && Content() == old(Content())
                && clust == clst
                && (clst == 0 || |chain| == old(|chain|) || |chain| == q + 1)
                && if clst == 0 then chain == [] && fptr == 0 && writable
                      && (CountRight(old(fs.Fat()), old(fs.freeClst)) ==> Full(fs.Fat()))
                   else q < |chain| && clst == chain[q] && fptr == LinkStart(fs.geo, q) < target
      ensures Stepped(fs.geo, old(Now()), Now(), res)
    {
      hide Shape, Base, Core, Content, Eff, Cursor, ChainOk, Clusters, Touched, FatKept, CountRight, Full, NoOnes,
           RoundDown, LinkStart, Sectors, Quot, Volume.Valid, Volume.Logical, Volume.Fat;
      res, q := Ok, 0;
      CoreParts();
      BaseParts();
      var bcs := fs.geo.csize * SS;
      fptr := 0;
      if ifptr > 0 && Quot(target - 1, bcs) >= Quot(ifptr - 1, bcs) {
        NotStepped(fs.geo, Now());
        CursorCluster(ifptr);
        q := Quot(ifptr - 1, bcs);
        SeekBase(fs.geo, target, ifptr);
        fptr := RoundDown(ifptr - 1, bcs);
        clst := clust;
      } else {
        ClusterStart(fs.geo, 0);
        res, clst := SeekFromHead(target);
      }
    }

    lemma LinkIsCluster(q: nat)
      requires Core() && q < |chain|
      ensures 2 <= chain[q] < fs.geo.nFatent
    {
    }

    /** The current cluster is the one of the byte before the pointer. */
    lemma CursorCluster(p: nat)
      requires Core() && Cursor(p) && p > 0
      ensures var q := Quot((p - 1) / SS, fs.geo.csize); q < |chain| && clust == chain[q] != 0
    {
    }

    /** One step of the cluster following loop: allocate while writing is allowed, else read the FAT. */
    method NextLink(ghost q: nat, clst0: u32) returns (res: FResult, clst: u32)
      requires Core() && q + 1 <= |chain| && clst0 == chain[q] && (writable || q + 1 < |chain|)
      modifies this`sclust, this`chain, fs, fs.disk, fs.win
      ensures Shape() && old(chain) <= chain
      ensures res == Ok ==>
                && Core() && Content() == old(Content()) && (|chain| == old(|chain|) || |chain| == q + 2)
                && if clst == 0 then writable && q + 1 == |chain|
                      && (CountRight(old(fs.Fat()), old(fs.freeClst)) ==> Full(fs.Fat()))
                   else q + 1 < |chain| && clst == chain[q + 1]
      ensures Stepped(fs.geo, old(Now()), Now(), res)
    {
      hide Table, FatBytes, Volume.Logical, Lba, ClusterOf, WindowAside, FileBytes, FreeSet, NoOnes, Full, Overlay;
      if writable {
        res, clst := TakeCluster(q + 1, clst0);
      } else {
        ghost var l := fs.Logical();
        assert fs.Fat()[chain[q]] == chain[q + 1];
        clst := fs.GetFat(clst0);
        FatAccessKeepsFile(fs.geo, chain, l, fs.Logical(), dirty, sect, bufAt, buf[..], objsize);
        if clst == DISK_ERROR {
          return DiskErr, clst;
        }
        FatIsAside(fs.geo, fs.Fat(), chain, fs.winsect);
        res := Ok;
      }
    }

    /** One pass of the loop below; `clst` is 0 when the volume is full. */
    method FollowStep(target: u32, clst0: u32, ofs0: nat, ghost q0: nat)
      returns (res: FResult, clst: u32, ofs: nat, ghost q: nat)
      requires Core() && q0 < |chain| && clst0 == clust == chain[q0] && clst0 != 0
      requires fptr == LinkStart(fs.geo, q0) && fptr + ofs0 == target && (writable || target <= objsize)
      requires ofs0 > fs.geo.csize * SS
      modifies this`fptr, this`clust, this`sclust, this`chain, fs, fs.disk, fs.win
      ensures Shape() && old(chain) <= chain
      ensures res == Ok ==>
                && Core() && Content() == old(Content()) && q < |chain| && clust == chain[q]
                && (|chain| == old(|chain|) || |chain| == q + 1) && q == (if clst == 0 then q0 else q0 + 1)
                && if clst == 0
                   then ofs == 0 && writable && fptr == LinkStart(fs.geo, q) + fs.geo.csize * SS < target
                        && q + 1 == |chain| && (CountRight(old(fs.Fat()), old(fs.freeClst)) ==> Full(fs.Fat()))
                   else clst == clust && fptr == LinkStart(fs.geo, q) && 0 < ofs < ofs0 && fptr + ofs == target
      ensures Stepped(fs.geo, old(Now()), Now(), res)
    {
      hide LinkStart, Sectors, Core, Base, Content, Eff, Cursor, ChainOk, Clusters, Touched, FatKept, CountRight, Full,
           NoOnes, Quot, Rem, Volume.Valid, Volume.Logical, Volume.Fat;
      CoreParts();
      BaseParts();
      var bcs := fs.geo.csize * SS;
      if !writable {
        MoreClusters(fs.geo, chain, q0, target);
      }
      ClusterStart(fs.geo, q0);
      ofs, q := ofs0 - bcs, q0;
      fptr := fptr + bcs;
      res, clst := NextLink(q, clst0);
      if res != Ok {
        return;
      }
      if clst == 0 {
        ofs := 0;
      } else {
        clust := clst;
        q := q + 1;
      }
    }

    /**
     The cluster following loop of `f_lseek`: on return `ofs` bytes are left in the current
     cluster, none if the volume became full, which leaves the pointer at the end of the chain.
     */
    method FollowLoop(target: u32, clst0: u32, ghost q0: nat) returns (res: FResult, clst: u32, ofs: nat, ghost q: nat)
      requires Core() && q0 < |chain| && clst0 == clust == chain[q0] && clst0 != 0
      requires fptr == LinkStart(fs.geo, q0) < target && (writable || target <= objsize)
      modifies this`fptr, this`clust, this`sclust, this`chain, fs, fs.disk, fs.win
      ensures Shape() && old(chain) <= chain
      ensures res == Ok ==>
                && Core() && Content() == old(Content()) && q < |chain| && clust == chain[q]
                && (|chain| == old(|chain|) || |chain| == q + 1)
                && if clst == 0
                   then ofs == 0 && writable && fptr == LinkStart(fs.geo, q) + fs.geo.csize * SS < target
                        && q + 1 == |chain| && (CountRight(old(fs.Fat()), old(fs.freeClst)) ==> Full(fs.Fat()))
                   else clst == clust && fptr == LinkStart(fs.geo, q) && 0 < ofs <= fs.geo.csize * SS
                        && fptr + ofs == target
      ensures Stepped(fs.geo, old(Now()), Now(), res)
    {
      hide LinkStart, Base, Core, Content, Eff, ChainOk, Clusters, BufferOk, WindowAside, Stepped, CountRight, Full,
           NoOnes, Now, Volume.Valid, Volume.Logical, Volume.Fat;
      CoreParts();
      BaseParts();
      var bcs := fs.geo.csize * SS;
      clst, ofs, q := clst0, target - fptr, q0;
      res := Ok;
      ghost var c, start := Content(), Now();
      NowIs();
      NotStepped(fs.geo, start);
      while ofs > bcs && clst != 0
        invariant Shape() && Core() && Content() == c && res == Ok
        invariant q < |chain| && clust == chain[q] && (|chain| == old(|chain|) || |chain| == q + 1)
        invariant if clst == 0
          then ofs == 0 && writable && fptr == LinkStart(fs.geo, q) + bcs < target && q + 1 == |chain|
               && (CountRight(old(fs.Fat()), old(fs.freeClst)) ==> Full(fs.Fat()))
          else clst == clust && fptr == LinkStart(fs.geo, q) && 0 < ofs && fptr + ofs == target
        invariant Stepped(fs.geo, start, Now(), Ok)
        decreases ofs
      {
        ghost var mid := Now();
        NowIs();
        SteppedParts(fs.geo, start, mid, Ok);
        res, clst, ofs, q := FollowStep(target, clst, ofs, q);
        SteppedOn(fs.geo, start, mid, Now(), res);
        if res != Ok {
          NowIs();
          SteppedParts(fs.geo, start, Now(), res);
          return;
        }
      }
      NowIs();
      SteppedParts(fs.geo, start, Now(), Ok);
    }

    /** Following the chain to `target` and locating the sector of the position that is reached. */
    method FollowTo(target: u32, clst0: u32, ghost q0: nat) returns (res: FResult, nsect: int)
      requires Core() && q0 < |chain| && clst0 == clust == chain[q0] && clst0 != 0
      requires fptr == LinkStart(fs.geo, q0) < target && (writable || target <= objsize)
      modifies this`fptr, this`clust, this`sclust, this`chain, fs, fs.disk, fs.win
      ensures Shape() && old(chain) <= chain
      ensures res == Ok ==>
                && Core() && Content() == old(Content()) && Placed(fptr, nsect)
                && (|chain| == old(|chain|) || LinkStart(fs.geo, |chain| - 1) < fptr)
                && (fptr == target || (fptr < target && writable && fptr == SS * Sectors(fs.geo, chain)
                                       && (CountRight(old(fs.Fat()), old(fs.freeClst)) ==> Full(fs.Fat()))))
      ensures Stepped(fs.geo, old(Now()), Now(), res)
    {
      hide LinkStart, Sectors, Table, FatBytes, Volume.Logical, Lba, ClusterOf, WindowAside, FileBytes, Content, Eff,
           BufferOk, FreeSet, NoOnes, Full, Quot, Rem, IsChain, ChainOk, CountRight, Foreign, FileSector;
      var clst, ofs;
      ghost var q;
      res, clst, ofs, q := FollowLoop(target, clst0, q0);
      nsect := 0;
      if res != Ok {
        return;
      }
      if clst == 0 {
        SeekPosition(fs.geo, chain, q, fs.geo.csize * SS, fptr);
        ChainEnd(fs.geo, chain, q);
        return;
      }
      res, nsect := Land(q, clst, ofs);
    }

    /** Inside the cluster that was reached: the final position and, off sector boundaries, its sector. */
    method Land(ghost q: nat, clst: u32, ofs: nat) returns (res: FResult, nsect: int)
      requires Core() && q < |chain| && clst == clust == chain[q]
      requires fptr == LinkStart(fs.geo, q) && 0 < ofs <= fs.geo.csize * SS && fptr + ofs < POW32
      modifies this`fptr
      ensures res == Ok && fptr == old(fptr) + ofs && Placed(fptr, nsect)
    {
      hide LinkStart, Sectors, Table, FatBytes, Volume.Logical, Lba, FileSector, Quot, IsChain;
      res, nsect := Ok, 0;
      fptr := fptr + ofs;
      SeekPosition(fs.geo, chain, q, ofs, fptr);
      if ofs % SS != 0 {
        nsect := ClusterToSector(fs.geo, clst);
        ClusterSector(fs.geo, clst, 0);
        if nsect == 0 {
          return IntErr, 0;
        }
        nsect := nsect + ofs / SS;
      }
    }

    /** `f_lseek` up to the point where the position and its sector are known. */
    method SeekTo(target: u32) returns (res: FResult, nsect: int)
      requires Core() && Cursor(fptr) && (writable || target <= objsize)
      modifies this`fptr, this`clust, this`sclust, this`chain, fs, fs.disk, fs.win
      ensures Shape() && old(chain) <= chain
      ensures res == Ok ==>
                && Core() && Content() == old(Content()) && Placed(fptr, nsect)
                && (|chain| == old(|chain|) || LinkStart(fs.geo, |chain| - 1) < fptr)
                && (fptr == target || (fptr < target && writable && fptr == SS * Sectors(fs.geo, chain)
                                       && (CountRight(old(fs.Fat()), old(fs.freeClst)) ==> Full(fs.Fat()))))
      ensures Stepped(fs.geo, old(Now()), Now(), res)
    {
      hide Base, Core, Content, Eff, Cursor, ChainOk, Clusters, BufferOk, WindowAside, Stepped, CountRight, Full,
           NoOnes, LinkStart, FileSector, Sectors, Quot, Now, Volume.Valid, Volume.Logical, Volume.Fat;
      CoreParts();
      BaseParts();
      ghost var start := Now();
      NowIs();
      NotStepped(fs.geo, start);
      var ifptr := fptr;
      res, nsect := Ok, 0;
      fptr := 0;
      if target > 0 {
        var clst;
        ghost var q;
        res, clst, q := SeekStart(target, ifptr);
        if res != Ok || clst == 0 {
          EmptyChain(fs.geo, chain);
          return;
        }
        ghost var mid := Now();
        NowIs();
        SteppedParts(fs.geo, start, mid, Ok);
        res, nsect := FollowTo(target, clst, q);
        SteppedOn(fs.geo, start, mid, Now(), res);
        LinksInChain(fs.geo, chain);
        ClusterStart(fs.geo, q);
      }
    }

    /**
     `f_lseek`: moves the pointer, stretching a writable file up to the new position or, on a
     full volume, up to the end of its last cluster.  The bytes the file had stay as they were.
     */
    method Seek(ofs: u32) returns (res: FResult)
      requires Valid()
      modifies this`clust, this`sclust, this`chain, this`objsize, this`fptr, this`sect, this`dirty, this`err
      modifies this`modified, fs, fs.disk, fs.win, buf
      ensures Valid() && old(chain) <= chain
      ensures old(err) != Ok ==> res == err == old(err)
      ensures old(err) == Ok ==>
                && err == res
                && (fs.disk.faults == old(fs.disk.faults) && NoOnes(old(fs.Fat())) ==> res == Ok)
      ensures old(err) == Ok && res == Ok ==>
                && objsize == Max(old(objsize), fptr) && Content()[..old(objsize)] == old(Content())
                && (modified <==> old(modified) || objsize > old(objsize))
                && FatKept(old(fs.Fat()), fs.Fat(), old(fs.freeClst), fs.freeClst, chain)
                && ChainsKept(old(fs.Fat()), fs.Fat(), old(chain), chain) && (old(ShowsOwn()) ==> ShowsOwn())
                && var target := if writable then ofs else Min(ofs, old(objsize));
                   && fptr <= target
                   && (fptr < target ==> writable && fptr == SS * Sectors(fs.geo, chain)
                                         && (CountRight(old(fs.Fat()), old(fs.freeClst)) ==> Full(fs.Fat())))
                   && (CountRight(old(fs.Fat()), old(fs.freeClst)) ==>
                         fptr == if target <= old(Room()) then target else old(Room()))
      ensures old(err) == Ok && res == Ok ==>
                && (|chain| == old(|chain|) || LinkStart(fs.geo, |chain| - 1) < fptr)
                && FreeCount(fs.Fat()) + |chain| == old(FreeCount(fs.Fat()) + |chain|)
      ensures Touched(fs.geo, old(fs.Fat()), old(chain), chain, old(fs.Logical()), fs.Logical(),
                      old(fs.winsect), fs.winsect)
    {
      hide Table, FatBytes, Volume.Logical, Lba, ClusterOf, WindowAside, FileBytes, BufferOk, FreeSet, NoOnes, Full,
           Quot, Rem, IsChain, ChainOk, CountRight, Foreign, FileSector, Content, Eff, Placed;
      res := err;
      if res != Ok {
        return;
      }
      var target := ofs;
      if target > objsize && !writable {
        target := objsize;
      }
      ghost var start := Now();
      NowIs();
      res := SeekAndSettle(target);
      NowIs();
      SteppedParts(fs.geo, start, Now(), res);
      if res == Ok {
        ChainsKeptHere();
        CountKept();
        LinksInChain(fs.geo, chain);
        Reached(fptr < target && CountRight(old(fs.Fat()), old(fs.freeClst)));
      }
    }

    /** `f_lseek` once the target is clipped. */
    method SeekAndSettle(target: u32) returns (res: FResult)
      requires Core() && Cursor(fptr) && err == Ok && (writable || target <= objsize)
      modifies this`clust, this`sclust, this`chain, this`objsize, this`fptr, this`sect, this`dirty, this`err
      modifies this`modified, fs, fs.disk, fs.win, buf
      ensures Shape() && err == res && old(chain) <= chain
      ensures res == Ok ==>
                && Core() && Cursor(fptr)
                && objsize == Max(old(objsize), fptr) && Content()[..old(objsize)] == old(Content())
                && (modified <==> old(modified) || objsize > old(objsize))
                && fptr <= target
                && (|chain| == old(|chain|) || LinkStart(fs.geo, |chain| - 1) < fptr)
                && (fptr < target ==> writable && fptr == SS * Sectors(fs.geo, chain)
                                      && (CountRight(old(fs.Fat()), old(fs.freeClst)) ==> Full(fs.Fat())))
      ensures Stepped(fs.geo, old(Now()), Now(), res)
    {
      hide Base, Core, Content, Eff, Cursor, ChainOk, Clusters, BufferOk, WindowAside, Stepped, OwnSector,
           SameOutsideFile, CountRight, Full, Placed, Sectors, Quot, Now,
           Volume.Valid, Volume.Logical, Volume.Bytes, Volume.Fat;
      CoreParts();
      BaseParts();
      ghost var start := Now();
      NowIs();
      var nsect;
      res, nsect := SeekTo(target);
      if res != Ok {
        err := res;
        return;
      }
      BaseOfShape();
      ghost var found := Now();
      label Found:
      res := Settle(nsect);
      BaseOfShape();
      SameBytesSameFat@Found();
      Transferred@Found(res);
      SteppedOn(fs.geo, start, found, Now(), res);
    }

    /** The end of `f_lseek`: the size follows the pointer and the buffer shows the sector in its middle. */
    method Settle(nsect: int) returns (res: FResult)
      requires Core() && Placed(fptr, nsect) && err == Ok
      modifies this`objsize, this`sect, this`dirty, this`err, this`modified, fs.disk, buf
      ensures Shape() && fs.Bytes() == old(fs.Bytes())
      ensures err == res && (res == Ok || res == DiskErr)
      ensures res == Ok ==>
                && Core() && Cursor(fptr) && objsize == Max(old(objsize), fptr)
                && Content()[..old(objsize)] == old(Content())
                && (modified <==> old(modified) || objsize > old(objsize))
                && (OwnSector(fs.geo, chain, old(sect)) ==> OwnSector(fs.geo, chain, sect))
      ensures SameOutsideFile(fs.geo, chain, old(fs.Logical()), fs.Logical())
      ensures old(fs.disk.faults) <= fs.disk.faults && (fs.disk.faults == old(fs.disk.faults) ==> res == Ok)
    {
      hide Table, FatBytes, Volume.Logical, Lba, ClusterOf, WindowAside, FileBytes, BufferOk, Quot, Rem, IsChain,
           FileSector, Overlay;
      res := Ok;
      if fptr % SS != 0 {
        FileSectorIsOwn(fs.geo, chain, fptr / SS);
      }
      LongerFile(fs.geo, chain, Eff(), objsize, Max(objsize, fptr));
      if fptr > objsize {
        objsize := fptr;
        modified := true;
      }
      if fptr % SS != 0 {
        var ok := ShowSector(fptr / SS, nsect);
        if !ok {
          res, err := DiskErr, DiskErr;
        }
      }
    }

    /** Number of clusters that the bytes before position `p` occupy. */
    function ClustersBefore(p: nat): (k: nat)
      requires fs.geo.csize > 0
    {
      if p == 0 then 0 else Quot((p - 1) / SS, fs.geo.csize) + 1
    }

    /** The part of `f_truncate` that removes the clusters behind the file pointer. */
    method ReleaseTail() returns (res: FResult)
      requires Core() && Cursor(fptr) && fptr < objsize
      modifies this`sclust, this`chain, fs, fs.disk, fs.win
      ensures Shape()
      ensures res == Ok ==>
                && ClustersBefore(fptr) <= |old(chain)| && chain == old(chain)[..ClustersBefore(fptr)]
                && ChainOk(fs.geo, fs.Fat(), chain, sclust)
                && fs.Fat() == Cut(old(fs.Fat()), old(chain), |chain|, Eoc(fs.geo))
                && (CountRight(old(fs.Fat()), old(fs.freeClst)) ==> CountRight(fs.Fat(), fs.freeClst))
                && fs.geo.InFat(fs.winsect)
      ensures SameOutsideFats(fs.geo, old(fs.Logical()), fs.Logical())
      ensures WindowStep(fs.geo, old(fs.winsect), fs.winsect)
      ensures res == Ok || res == DiskErr
      ensures old(fs.disk.faults) <= fs.disk.faults && (fs.disk.faults == old(fs.disk.faults) ==> res == Ok)
    {
      hide Shape, Base, Core, ChainOk, Clusters, Quot, Sectors, Cut, CountRight, SameOutsideFats, WindowStep,
           Volume.Valid, Volume.Logical, Volume.Fat;
      CoreParts();
      BaseParts();
      PositionHasLink(fs.geo, chain, fptr);
      if fptr == 0 {
        res := ReleaseAll();
      } else {
        res := ReleaseBehind(ClustersBefore(fptr));
      }
    }

    /** The removal of the whole chain. */
    method ReleaseAll() returns (res: FResult)
      requires Core() && chain != []
      modifies this`sclust, this`chain, fs, fs.disk, fs.win
      ensures Shape()
      ensures res == Ok ==>
                && chain == [] && ChainOk(fs.geo, fs.Fat(), [], sclust)
                && fs.Fat() == Cut(old(fs.Fat()), old(chain), 0, Eoc(fs.geo))
                && (CountRight(old(fs.Fat()), old(fs.freeClst)) ==> CountRight(fs.Fat(), fs.freeClst))
                && fs.geo.InFat(fs.winsect)
      ensures SameOutsideFats(fs.geo, old(fs.Logical()), fs.Logical())
      ensures WindowStep(fs.geo, old(fs.winsect), fs.winsect)
      ensures res == Ok || res == DiskErr
      ensures old(fs.disk.faults) <= fs.disk.faults && (fs.disk.faults == old(fs.disk.faults) ==> res == Ok)
    {
      hide *;
      CoreParts();
      BaseParts();
      CutChain(fs.geo, fs.Fat(), chain, sclust, 0);
      RemovableAt(fs.geo, fs.Fat(), chain, sclust, 0);
      ghost var ch := chain;
      res := RemoveChain(fs, sclust, 0);
      fs.FatStepParts();
      ShapeKept();
      assert ch[..0] == [];
      sclust, chain := 0, [];
    }

    /** The removal of the clusters behind the current one, which is link `k - 1`. */
    method ReleaseBehind(ghost k: nat) returns (res: FResult)
      requires Core() && 1 <= k <= |chain| && clust == chain[k - 1]
      modifies this`chain, fs, fs.disk, fs.win
      ensures Shape()
      ensures res == Ok ==>
                && chain == old(chain)[..k] && ChainOk(fs.geo, fs.Fat(), chain, sclust)
                && fs.Fat() == Cut(old(fs.Fat()), old(chain), k, Eoc(fs.geo))
                && (CountRight(old(fs.Fat()), old(fs.freeClst)) ==> CountRight(fs.Fat(), fs.freeClst))
                && fs.geo.InFat(fs.winsect)
      ensures SameOutsideFats(fs.geo, old(fs.Logical()), fs.Logical())
      ensures WindowStep(fs.geo, old(fs.winsect), fs.winsect)
      ensures res == Ok || res == DiskErr
      ensures old(fs.disk.faults) <= fs.disk.faults && (fs.disk.faults == old(fs.disk.faults) ==> res == Ok)
    {
      hide *;
      CoreParts();
      BaseParts();
      ghost var t, ch, free := fs.Fat(), chain, fs.freeClst;
      CutChain(fs.geo, t, ch, sclust, k);
      RemovableAt(fs.geo, t, ch, sclust, k);
      ErrorCodes();
      var ncl := fs.GetFat(clust);
      SameBytesSameFat();
      fs.FatStepParts();
      ShapeKept();
      res := Ok;
      if ncl == DISK_ERROR {
        res := DiskErr;
      }
      if ncl == INT_ERROR {
        res := IntErr;
      }
      if res == Ok && ncl < fs.geo.nFatent {
        ghost var l0, w0 := fs.Logical(), fs.winsect;
        label Before:
        res := RemoveChain(fs, ncl, clust);
        fs.FatStepParts@Before();
        ShapeKept();
        OutsideFatsTwice(fs.geo, old(fs.Logical()), l0, fs.Logical(), old(fs.winsect), w0, fs.winsect);
      }
      chain := chain[..k];
    }

    /**
      * `f_truncate`: cuts the file at the file pointer and frees the clusters behind it. The buffer stays as it is, so
      * it can show a cluster that was freed.
      */
    method Truncate() returns (res: FResult)
      requires Valid()
      modifies this`sclust, this`chain, this`objsize, this`dirty, this`err, this`modified, fs, fs.disk, fs.win
      ensures Valid()
      ensures old(err) != Ok ==> res == err == old(err)
      ensures old(err) == Ok && !writable ==> res == Denied && err == Ok && View() == old(View())
      ensures old(err) == Ok && writable ==>
                err == res && (fs.disk.faults == old(fs.disk.faults) ==> res == Ok)
      ensures old(err) == Ok && writable && res == Ok ==>
                && View() == old(View()).Truncate()
                && (modified <==> old(modified) || fptr < old(objsize))
                && chain <= old(chain) && (fptr < old(objsize) ==> |chain| == ClustersBefore(fptr))
                && (ShowsOwn() <==> old(CutSparesBuffer()))
                && fs.Fat() == Cut(old(fs.Fat()), old(chain), |chain|, Eoc(fs.geo))
                && ChainsKept(old(fs.Fat()), fs.Fat(), old(chain), chain)
                && (CountRight(old(fs.Fat()), old(fs.freeClst)) ==> CountRight(fs.Fat(), fs.freeClst))
      ensures old(err) == Ok && writable && res == Ok ==>
                && fptr == old(fptr) == objsize && Content() == old(Content())[..fptr]
                && (if fptr == old(objsize) then chain == old(chain)
                    else fptr <= LinkStart(fs.geo, |chain|) && (chain != [] ==> LinkStart(fs.geo, |chain| - 1) < fptr))
                && FreeCount(fs.Fat()) + |chain| == old(FreeCount(fs.Fat()) + |chain|)
      ensures old(err) == Ok ==> SameOutsideFile(fs.geo, old(chain), old(fs.Logical()), fs.Logical())
      ensures WindowStep(fs.geo, old(fs.winsect), fs.winsect)
    {
      hide Table, FatBytes, Volume.Logical, Lba, ClusterOf, WindowAside, FileBytes, Quot, Rem, FreeSet, BufferOk,
           IsChain, Eff, Foreign, FreeCount, LinkStart, ChainsKept, CountRight, Base, Core, Clusters, ChainOk;
      res := err;
      if res != Ok {
        return;
      }
      if !writable {
        return Denied;
      }
      if fptr < objsize {
        CoreIsChain();
        CutKeepsChains(fs.geo, fs.Fat(), chain, sclust, ClustersBefore(fptr));
        CutCount(fs.geo, fs.Fat(), chain, sclust, ClustersBefore(fptr));
        ClustersHold(fs.geo, fptr, ClustersBefore(fptr));
        res := CutAtPointer();
        err := res;
      } else {
        CoreIsChain();
        CutKeepsChains(fs.geo, fs.Fat(), chain, sclust, |chain|);
        assert chain[..|chain|] == chain;
      }
    }

    lemma CoreIsChain()
      requires Core() && Cursor(fptr)
      ensures ChainOk(fs.geo, fs.Fat(), chain, sclust)
      ensures fptr < objsize ==> ClustersBefore(fptr) <= |chain|
    {
      if fptr < objsize {
        CutRoom();
      }
    }

    method CutAtPointer() returns (res: FResult)
      requires Core() && Cursor(fptr) && fptr < objsize
      modifies this`sclust, this`chain, this`objsize, this`dirty, this`modified, fs, fs.disk, fs.win
      ensures Shape()
      ensures res == Ok || res == DiskErr
      ensures res == Ok ==>
                && Core() && Cursor(fptr) && objsize == fptr && modified
                && Content() == old(Content())[..fptr]
                && ClustersBefore(fptr) <= |old(chain)| && chain == old(chain)[..ClustersBefore(fptr)]
                && fs.Fat() == Cut(old(fs.Fat()), old(chain), |chain|, Eoc(fs.geo))
                && (CountRight(old(fs.Fat()), old(fs.freeClst)) ==> CountRight(fs.Fat(), fs.freeClst))
      ensures SameOutsideFile(fs.geo, old(chain), old(fs.Logical()), fs.Logical())
      ensures WindowStep(fs.geo, old(fs.winsect), fs.winsect)
      ensures old(fs.disk.faults) <= fs.disk.faults && (fs.disk.faults == old(fs.disk.faults) ==> res == Ok)
    {
      hide Shape, Base, Core, Content, Eff, Cursor, ChainOk, Clusters, BufferOk, WindowAside, SameOutsideFile,
           SameOutsideFats, WindowStep, Cut, CountRight, FileSector, FileBytes, Overlay, Sectors, Quot, ClustersBefore,
           Volume.Valid, Volume.Logical, Volume.Fat, Volume.Bytes;
      CoreParts();
      BaseParts();
      ghost var ch, k, l := chain, ClustersBefore(fptr), fs.Logical();
      CutRoom();
      res := ReleaseTail();
      BaseOfShape();
      FatAccessKeepsFile(fs.geo, ch, l, fs.Logical(), dirty, sect, bufAt, buf[..], objsize);
      if res == Ok {
        ghost var l1 := fs.Logical();
        PrefixOfChain(ch, k);
        label Released:
        res := SetEnd(ch);
        BaseOfShape();
        SameBytesSameFat@Released();
        SameOutsideTwice(fs.geo, ch, l, l1, fs.Logical());
        if res == Ok {
          CursorAfterCut(ch, k);
        }
      }
    }

    /** The clusters that stay have room for the bytes that stay, and hold the sector in the buffer. */
    lemma CutRoom()
      requires Core() && Cursor(fptr) && fptr < objsize
      ensures ClustersBefore(fptr) <= |chain| && fptr <= SS * Sectors(fs.geo, chain[..ClustersBefore(fptr)])
      ensures fptr > 0 ==> ClustersBefore(fptr) > 0 && clust == chain[ClustersBefore(fptr) - 1]
      ensures ClustersBefore(fptr) == if fptr == 0 then 0 else Quot((fptr - 1) / SS, fs.geo.csize) + 1
      ensures fptr % SS != 0 ==>
                && Quot(fptr / SS, fs.geo.csize) < ClustersBefore(fptr)
                && sect == FileSector(fs.geo, chain[..ClustersBefore(fptr)], fptr / SS)
    {
      if fptr > 0 {
        RoomBefore(fs.geo, chain, fptr);
      }
      if fptr % SS != 0 {
        InnerLink(fs.geo, fptr);
        ShorterSector(fs.geo, chain, ClustersBefore(fptr), fptr / SS);
      }
    }

    /** A test of the file object alone that rules out a cut which takes the buffer's cluster away. */
    predicate SparesForSure()
      reads this
    {
      || fptr >= objsize || fptr % SS != 0 || sect == 0
      || (fptr > 0 && fs.geo.csize > 0 && sect >= fs.geo.database && ClusterOf(fs.geo, sect) == clust)
    }

    lemma SureIsSpared()
      requires Core() && Cursor(fptr) && ShowsOwn() && SparesForSure()
      ensures CutSparesBuffer()
    {
      if fptr < objsize && fptr % SS != 0 {
        MiddleIsSpared();
      } else if fptr < objsize && sect != 0 {
        hide Core, Base, ChainOk, Clusters, BufferOk, FileSector, ClusterOf, Quot, Sectors, ClustersBefore;
        CutRoom();
        var k := ClustersBefore(fptr);
        assert chain[..k][k - 1] == chain[k - 1] == ClusterOf(fs.geo, sect);
      } else if fptr < objsize {
        CutRoom();
      }
    }

    /** In the middle of a sector the buffer shows a sector that stays. */
    lemma MiddleIsSpared()
      requires Core() && Cursor(fptr) && fptr % SS != 0
      ensures CutSparesBuffer()
    {
      hide Core, Base, Cursor, ChainOk, Clusters, BufferOk, FileSector, OwnSector, Quot, Sectors, ClustersBefore;
      CoreParts();
      BaseParts();
      CursorSector();
      FileSectorIsOwn(fs.geo, chain, fptr / SS);
      if fptr < objsize {
        CutRoom();
        OwnAfterCut(fs.geo, chain, ClustersBefore(fptr), fptr / SS);
      }
    }

    lemma PrefixOfChain(ch: seq<nat>, k: nat)
      requires k <= |ch|
      ensures ch[..k] <= ch && |ch[..k]| == k
    {
    }

    /** The pointer at the new end. */
    lemma CursorAfterCut(ch: seq<nat>, k: nat)
      requires fs.geo.Valid() && k <= |ch| && chain == ch[..k] && objsize == fptr
      requires fptr > 0 ==> k == Quot((fptr - 1) / SS, fs.geo.csize) + 1 && clust == ch[k - 1]
      requires fptr % SS != 0 ==> Quot(fptr / SS, fs.geo.csize) < k && sect == FileSector(fs.geo, ch[..k], fptr / SS)
      ensures Cursor(fptr)
    {
      hide FileSector, Quot;
    }

    /** The new size, and the write-back of the buffer. */
    method SetEnd(ghost ch: seq<nat>) returns (res: FResult)
      requires Shape() && fs.geo.InFat(fs.winsect) && ChainOk(fs.geo, fs.Fat(), chain, sclust)
      requires Clusters(fs.geo, ch) && chain <= ch && fptr <= objsize
      requires objsize <= SS * Sectors(fs.geo, ch) && fptr <= SS * Sectors(fs.geo, chain)
      requires BufferOk(fs.geo, ch, fs.Logical(), dirty, sect, bufAt, buf[..])
      modifies this`objsize, this`dirty, this`modified, fs.disk
      ensures Shape() && fs.Bytes() == old(fs.Bytes()) && objsize == fptr && modified
      ensures res == Ok || res == DiskErr
      ensures res == Ok ==>
                && Core()
                && Content() ==
                    FileBytes(fs.geo, ch, old(Overlay(fs.Logical(), dirty, sect, buf[..])), old(objsize))[..fptr]
      ensures SameOutsideFile(fs.geo, ch, old(fs.Logical()), fs.Logical())
      ensures old(fs.disk.faults) <= fs.disk.faults && (fs.disk.faults == old(fs.disk.faults) ==> res == Ok)
    {
      hide Sectors, Table, FatBytes, Volume.Logical, Lba, ClusterOf, WindowAside, FileBytes, Quot, Rem, FreeSet,
           IsChain;
      FatIsAside(fs.geo, fs.Fat(), chain, fs.winsect);
      ghost var size, e := objsize, Overlay(fs.Logical(), dirty, sect, buf[..]);
      objsize := fptr;
      modified := true;
      res := FlushAfterCut(ch);
      if res == Ok {
        assert chain == ch[..|chain|];
        ShorterFile(fs.geo, ch, |chain|, e, e, size, fptr);
      }
    }

    /** The dirty buffer is written back even if its sector has just been freed. */
    method FlushAfterCut(ghost ch: seq<nat>) returns (res: FResult)
      requires Shape() && fs.geo.InFat(fs.winsect) && Clusters(fs.geo, ch)
      requires BufferOk(fs.geo, ch, fs.Logical(), dirty, sect, bufAt, buf[..])
      modifies this`dirty, fs.disk
      ensures Shape() && fs.Bytes() == old(fs.Bytes())
      ensures res == Ok || res == DiskErr
      ensures res == Ok ==>
                && !dirty && fs.Logical() == Overlay(old(fs.Logical()), old(dirty), sect, buf[..])
                && BufferOk(fs.geo, ch, fs.Logical(), false, sect, bufAt, buf[..])
      ensures SameOutsideFile(fs.geo, ch, old(fs.Logical()), fs.Logical())
      ensures old(fs.disk.faults) <= fs.disk.faults && (fs.disk.faults == old(fs.disk.faults) ==> res == Ok)
    {
      hide Table, FatBytes, Volume.Logical, Lba, ClusterOf, Clusters, FileSector, Quot;
      res := Ok;
      if dirty {
        ghost var l := fs.Logical();
        FileSectorInData(fs.geo, ch, bufAt);
        var ok := TransferOut(fs, buf[..], sect, 1);
        if ok {
          dirty := false;
          assert fs.Logical() == l[sect := buf[..]] by {
            assert buf[..][SS * (sect - sect)..SS * (sect - sect) + SS] == buf[..];
          }
        } else {
          res := DiskErr;
        }
      }
    }
  }
}
