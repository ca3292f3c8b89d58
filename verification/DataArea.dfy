/** Transfers of file data, which go to the card directly and not through the volume's window. */
module DataArea {
  import opened Machine
  import opened Storage
  import opened FatChains
  import opened Volumes
  import opened FileLayout

  /** `clst2sect`: the first sector of a cluster, 0 for an invalid cluster number. */
  function ClusterToSector(g: Geometry, clst: u32): (s: int)
    requires g.Valid()
    ensures 2 <= clst < g.nFatent ==> s == Lba(g, clst, 0)
  {
    if (clst - 2) % POW32 >= g.nFatent - 2 then 0 else g.database + g.csize * ((clst - 2) % POW32)
  }

  /** The window does not show a sector of the file, nor one of a free cluster. */
  ghost predicate WindowAside(g: Geometry, t: FatTable, chain: seq<nat>, w: int)
    requires |t| == g.nFatent
  {
    w == NO_SECTOR || forall c | 2 <= c < g.nFatent && (c in chain || t[c] == 0) :: !InCluster(g, c, w)
  }

  lemma FatIsAside(g: Geometry, t: FatTable, chain: seq<nat>, w: int)
    requires g.Valid() && |t| == g.nFatent && g.InFat(w)
    ensures WindowAside(g, t, chain, w)
  {
    forall c | 2 <= c < g.nFatent ensures !InCluster(g, c, w) {
      ClusterSector(g, c, 0);
    }
  }

  /** The sectors `[s, s + m)` of a file avoid the window. */
  lemma RunAvoidsWindow(g: Geometry, t: FatTable, chain: seq<nat>, w: int, i: nat, m: nat)
    requires Clusters(g, chain) && |t| == g.nFatent && WindowAside(g, t, chain, w)
    requires Quot(i, g.csize) < |chain| && Rem(i, g.csize) + m <= g.csize
    ensures var s := FileSector(g, chain, i); g.database <= s && s + m <= g.total && !(s <= w < s + m)
  {
    var c := chain[Quot(i, g.csize)];
    LinkOf(g, chain, i);
    ClusterSector(g, c, 0);
    ClusterSector(g, c, g.csize - 1);
    assert c in chain;
  }

  method TransferIn(fs: Volume, dst: array<byte>, at: nat, sect: nat, count: nat) returns (ok: bool)
    requires fs.Valid() && dst != fs.win
    requires sect + count <= fs.geo.total && at + SS * count <= dst.Length
    requires !(sect <= fs.winsect < sect + count)
    modifies fs.disk`faults, dst
    ensures fs.Valid() && fs.Logical() == old(fs.Logical()) && fs.Bytes() == old(fs.Bytes())
    ensures old(fs.disk.faults) <= fs.disk.faults && (ok <==> fs.disk.faults == old(fs.disk.faults))
    ensures dst[..at] == old(dst[..at]) && dst[at + SS * count..] == old(dst[at + SS * count..])
    ensures ok ==> dst[at..at + SS * count] == Span(fs.Logical(), sect, count)
  {
    hide FatBytes;
    ok := fs.disk.Read(dst, at, sect, count);
  }

  method TransferOut(fs: Volume, src: seq<byte>, sect: nat, count: nat) returns (ok: bool)
    requires fs.Valid() && |src| == SS * count
    requires fs.geo.database <= sect && sect + count <= fs.geo.total
    requires !(sect <= fs.winsect < sect + count)
    modifies fs.disk
    ensures fs.Valid() && fs.Bytes() == old(fs.Bytes())
    ensures old(fs.disk.faults) <= fs.disk.faults && (ok <==> fs.disk.faults == old(fs.disk.faults))
    ensures forall s | 0 <= s < fs.geo.total && !(sect <= s < sect + count) :: fs.Logical()[s] == old(fs.Logical())[s]
    ensures ok ==> forall s | sect <= s < sect + count ::
                     fs.Logical()[s] == src[SS * (s - sect)..SS * (s - sect) + SS]
  {
    hide FatBytes;
    ok := fs.disk.Write(src, sect, count);
    FatBytesDependOnFirstFat(fs.geo, old(fs.Logical()), fs.Logical());
  }
}
