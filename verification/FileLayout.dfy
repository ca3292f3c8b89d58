/** Where the bytes of a file lie on the card: sector `i` of the file belongs to link `i / csize` of its chain. */
module FileLayout {
  import opened Machine
  import opened Storage
  import opened FatChains
  import opened Volumes

  /** Sector `r` of cluster `c`. */
  function Lba(g: Geometry, c: int, r: int): int {
    g.database + g.csize * (c - 2) + r
  }

  /** The cluster that a sector of the data area belongs to. */
  function ClusterOf(g: Geometry, s: int): int
    requires g.csize > 0 && s >= g.database
  {
    Quot(s - g.database, g.csize) + 2
  }

  predicate InData(g: Geometry, s: int) {
    g.database <= s < g.total
  }

  lemma ClusterSector(g: Geometry, c: int, r: int)
    requires g.Valid() && 2 <= c < g.nFatent && 0 <= r < g.csize
    ensures InData(g, Lba(g, c, r))
    ensures ClusterOf(g, Lba(g, c, r)) == c
    ensures Rem(Lba(g, c, r) - g.database, g.csize) == r
  {
    assert g.ClusterInside(c);
    QuotIs(Lba(g, c, r) - g.database, g.csize, c - 2, r);
  }

  /** The number of sectors that the chain provides. */
  function Sectors(g: Geometry, chain: seq<nat>): nat {
    g.csize * |chain|
  }

  lemma LinkOf(g: Geometry, chain: seq<nat>, i: nat)
    requires g.csize > 0
    ensures i < Sectors(g, chain) <==> Quot(i, g.csize) < |chain|
    ensures i == g.csize * (Quot(i, g.csize)) + Rem(i, g.csize)
  {
    QuotLaw(i, g.csize);
    var q := Quot(i, g.csize);
    if q < |chain| {
      if q + 1 < |chain| {
        Distance(g.csize, q + 1, |chain|);
      }
      assert g.csize * (q + 1) == g.csize * q + g.csize;
    } else if q > |chain| {
      Distance(g.csize, |chain|, q);
    }
  }

  /** Sector `i` of a file. */
  function FileSector(g: Geometry, chain: seq<nat>, i: nat): int
    requires g.csize > 0 && Quot(i, g.csize) < |chain|
  {
    Lba(g, chain[Quot(i, g.csize)], Rem(i, g.csize))
  }

  ghost predicate Clusters(g: Geometry, chain: seq<nat>) {
    && g.Valid()
    && (forall q | 0 <= q < |chain| :: 2 <= chain[q] < g.nFatent)
    && (forall p, q | 0 <= p < q < |chain| :: chain[p] != chain[q])
  }

  lemma FileSectorInData(g: Geometry, chain: seq<nat>, i: nat)
    requires Clusters(g, chain) && Quot(i, g.csize) < |chain|
    ensures InData(g, FileSector(g, chain, i))
    ensures ClusterOf(g, FileSector(g, chain, i)) == chain[Quot(i, g.csize)]
  {
    LinkOf(g, chain, i);
    ClusterSector(g, chain[Quot(i, g.csize)], Rem(i, g.csize));
  }

  /** Different sectors of a file lie in different sectors of the card. */
  lemma FileSectorsDiffer(g: Geometry, chain: seq<nat>, i: nat, j: nat)
    requires Clusters(g, chain) && Quot(i, g.csize) < |chain| && Quot(j, g.csize) < |chain|
    ensures FileSector(g, chain, i) == FileSector(g, chain, j) ==> i == j
  {
    hide Lba, ClusterOf;
    LinkOf(g, chain, i);
    LinkOf(g, chain, j);
    ClusterSector(g, chain[Quot(i, g.csize)], Rem(i, g.csize));
    ClusterSector(g, chain[Quot(j, g.csize)], Rem(j, g.csize));
  }

  /** Sectors in one cluster are contiguous on the card. */
  lemma FileSectorRun(g: Geometry, chain: seq<nat>, i: nat, m: nat)
    requires g.csize > 0 && Quot(i, g.csize) < |chain| && Rem(i, g.csize) + m < g.csize
    ensures Quot(i + m, g.csize) == Quot(i, g.csize)
    ensures FileSector(g, chain, i + m) == FileSector(g, chain, i) + m
  {
    LinkOf(g, chain, i);
    QuotIs(i + m, g.csize, Quot(i, g.csize), Rem(i, g.csize) + m);
  }

  /** The link before a sector: the previous one exactly on a cluster boundary. */
  lemma LinkBefore(g: Geometry, i: nat)
    requires g.csize > 0 && i > 0
    ensures Quot(i - 1, g.csize) == if Rem(i, g.csize) == 0 then Quot(i, g.csize) - 1 else Quot(i, g.csize)
  {
    var q, r := Quot(i, g.csize), Rem(i, g.csize);
    QuotLaw(i, g.csize);
    if r == 0 {
      assert g.csize * q == g.csize * (q - 1) + g.csize;
      QuotIs(i - 1, g.csize, q - 1, g.csize - 1);
    } else {
      QuotIs(i - 1, g.csize, q, r - 1);
    }
  }

  /** The first `size` bytes of the file with the given chain on the card image `l`. */
  ghost function FileBytes(g: Geometry, chain: seq<nat>, l: seq<Sector>, size: nat): (r: seq<byte>)
    requires Clusters(g, chain) && |l| == g.total && size <= SS * Sectors(g, chain)
    ensures |r| == size
  {
    seq(size, k requires 0 <= k < size => ByteAt(g, chain, l, k))
  }

  ghost function ByteAt(g: Geometry, chain: seq<nat>, l: seq<Sector>, k: nat): byte
    requires Clusters(g, chain) && |l| == g.total && k < SS * Sectors(g, chain)
  {
    LinkOf(g, chain, k / SS);
    FileSectorInData(g, chain, k / SS);
    l[FileSector(g, chain, k / SS)][k % SS]
  }

  /** Where byte `k` of a file lies: clusters are counted from 2 on, and hold `csize` sectors of 512 bytes. */
  lemma ByteOnDisk(g: Geometry, chain: seq<nat>, l: seq<Sector>, k: nat)
    requires Clusters(g, chain) && |l| == g.total && k < 512 * (g.csize * |chain|)
    ensures var size := 512 * g.csize;
            var q, r := k / size, k % size;
            && 0 <= q < |chain|
            && 0 <= g.database + g.csize * (chain[q] - 2) + r / 512 < |l|
            && ByteAt(g, chain, l, k) == l[g.database + g.csize * (chain[q] - 2) + r / 512][r % 512]
  {
    var i := k / SS;
    LinkOf(g, chain, i);
    FileSectorInData(g, chain, i);
    InCluster512(g.csize, Quot(i, g.csize), Rem(i, g.csize), k % SS, k);
  }

  lemma InCluster512(csize: nat, q: nat, r: nat, m: nat, k: nat)
    requires csize > 0 && k == 512 * (csize * q + r) + m && r < csize && m < 512
    ensures var size := 512 * csize; k / size == q && k % size / 512 == r && k % size % 512 == m
  {
    var size, x := 512 * csize, csize * q;
    assert size * q == 512 * x;
    QuotRem(k, size, q, 512 * r + m);
    QuotRem(512 * r + m, 512, r, m);
  }

  /** Two images that agree on the sectors of the file hold the same file. */
  ghost predicate SameOnFile(g: Geometry, chain: seq<nat>, a: seq<Sector>, b: seq<Sector>) {
    && Clusters(g, chain) && |a| == |b| == g.total
    && forall i | 0 <= i < Sectors(g, chain) ::
         LinkOf(g, chain, i); FileSectorInData(g, chain, i);
         a[FileSector(g, chain, i)] == b[FileSector(g, chain, i)]
  }

  lemma SameFileBytes(g: Geometry, chain: seq<nat>, a: seq<Sector>, b: seq<Sector>, size: nat)
    requires SameOnFile(g, chain, a, b) && size <= SS * Sectors(g, chain)
    ensures FileBytes(g, chain, a, size) == FileBytes(g, chain, b, size)
  {
  }

  /** Whether sector `s` of the card belongs to cluster `c`. */
  predicate InCluster(g: Geometry, c: int, s: int) {
    Lba(g, c, 0) <= s < Lba(g, c, 0) + g.csize
  }

  /** A file sector outside a run of `m` sectors from file sector `i` lies outside the run's place on the card. */
  lemma OutsideRun(g: Geometry, chain: seq<nat>, i: nat, m: nat, j: nat)
    requires Clusters(g, chain) && Quot(i, g.csize) < |chain| && Quot(j, g.csize) < |chain|
    requires Rem(i, g.csize) + m <= g.csize && !(i <= j < i + m)
    ensures var s := FileSector(g, chain, i); !(s <= FileSector(g, chain, j) < s + m)
  {
    var d := FileSector(g, chain, j) - FileSector(g, chain, i);
    if 0 <= d < m {
      FileSectorRun(g, chain, i, d);
      FileSectorsDiffer(g, chain, i + d, j);
    }
  }

  /** Changing a run of sectors in one cluster changes exactly the bytes of that run. */
  lemma ByteAfterRun(g: Geometry, chain: seq<nat>, a: seq<Sector>, b: seq<Sector>, i: nat, m: nat, k: nat)
    requires Clusters(g, chain) && |a| == |b| == g.total && k < SS * Sectors(g, chain)
    requires Quot(i, g.csize) < |chain| && Rem(i, g.csize) + m <= g.csize
    requires var s := FileSector(g, chain, i); forall t | 0 <= t < |a| && !(s <= t < s + m) :: b[t] == a[t]
    ensures k / SS < i || i + m <= k / SS ==> ByteAt(g, chain, b, k) == ByteAt(g, chain, a, k)
    ensures i <= k / SS < i + m ==>
              var t := FileSector(g, chain, i) + (k / SS - i);
              0 <= t < |b| && ByteAt(g, chain, b, k) == b[t][k % SS]
  {
    var j := k / SS;
    LinkOf(g, chain, j);
    FileSectorInData(g, chain, j);
    if i <= j < i + m {
      FileSectorRun(g, chain, i, j - i);
    } else {
      OutsideRun(g, chain, i, m, j);
    }
  }

  /** Reading whole sectors of one cluster yields the bytes of the file at that place. */
  lemma SpanOfRun(g: Geometry, chain: seq<nat>, l: seq<Sector>, i: nat, m: nat, size: nat)
    requires Clusters(g, chain) && |l| == g.total && size <= SS * Sectors(g, chain)
    requires Quot(i, g.csize) < |chain| && Rem(i, g.csize) + m <= g.csize && SS * (i + m) <= size
    ensures 0 <= FileSector(g, chain, i) && FileSector(g, chain, i) + m <= g.total
    ensures FileBytes(g, chain, l, size)[SS * i..SS * (i + m)] == Span(l, FileSector(g, chain, i), m)
  {
    RunInside(g, chain, i, m);
    var f, s := FileBytes(g, chain, l, size), FileSector(g, chain, i);
    forall k | 0 <= k < SS * m ensures f[SS * i + k] == l[s + k / SS][k % SS] {
      ByteAfterRun(g, chain, l, l, i, m, SS * i + k);
      QuotRem(SS * i + k, SS, i + k / SS, k % SS);
    }
  }

  lemma RunInside(g: Geometry, chain: seq<nat>, i: nat, m: nat)
    requires Clusters(g, chain) && Quot(i, g.csize) < |chain| && Rem(i, g.csize) + m <= g.csize
    ensures g.database <= FileSector(g, chain, i) && FileSector(g, chain, i) + m <= g.total
  {
    LinkOf(g, chain, i);
    ClusterSector(g, chain[Quot(i, g.csize)], Rem(i, g.csize));
    ClusterSector(g, chain[Quot(i, g.csize)], g.csize - 1);
  }

  /** Sectors of the data area outside the clusters of a file. */
  predicate Foreign(g: Geometry, chain: seq<nat>, s: int)
    requires g.csize > 0
  {
    !g.InFats(s) && !(InData(g, s) && ClusterOf(g, s) in chain)
  }

  /** Neither sectors of other clusters nor sectors outside FATs and data area differ. */
  ghost predicate SameOutsideFile(g: Geometry, chain: seq<nat>, a: seq<Sector>, b: seq<Sector>)
    requires g.csize > 0
  {
    |a| == |b| && forall s | 0 <= s < |a| && Foreign(g, chain, s) :: a[s] == b[s]
  }

  /** The sectors of a run in a file's cluster are not foreign to the file. */
  lemma RunIsOwn(g: Geometry, chain: seq<nat>, i: nat, m: nat, s: int)
    requires Clusters(g, chain) && Quot(i, g.csize) < |chain| && Rem(i, g.csize) + m <= g.csize
    requires FileSector(g, chain, i) <= s < FileSector(g, chain, i) + m
    ensures !Foreign(g, chain, s)
  {
    var d := s - FileSector(g, chain, i);
    FileSectorRun(g, chain, i, d);
    FileSectorInData(g, chain, i + d);
    assert chain[Quot(i, g.csize)] in chain;
  }

  /** The card image with a sector buffer laid over it. */
  function Overlay(l: seq<Sector>, dirty: bool, sect: int, b: Sector): (r: seq<Sector>)
    requires dirty ==> 0 <= sect < |l|
    ensures |r| == |l|
  {
    if dirty then l[sect := b] else l
  }
}
