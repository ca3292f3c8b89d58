/** Cluster allocation: `remove_chain` and `create_chain` on top of the FAT entries of a volume. */
module Allocator {
  import opened Machine
  import opened FatEntries
  import opened FatChains
  import opened Volumes

  /** What 0xFFFFFFFF becomes when it is stored in an entry. */
  function Eoc(g: Geometry): (e: nat)
    ensures g.Valid() ==> e >= g.nFatent
  {
    0xFFFF_FFFF % Capacity(g.fatType)
  }

  /** The mark that ends a chain has all bits of an entry set. */
  lemma EndMark(g: Geometry)
    ensures Eoc(g) == match g.fatType case Fat12 => 0xFFF case Fat16 => 0xFFFF case Fat32 => 0xFFF_FFFF
  {
    match g.fatType
    case Fat12 => QuotRem(0xFFFF_FFFF, 0x1000, 0xF_FFFF, 0xFFF);
    case Fat16 => QuotRem(0xFFFF_FFFF, 0x1_0000, 0xFFFF, 0xFFFF);
    case Fat32 => QuotRem(0xFFFF_FFFF, 0x1000_0000, 0xF, 0xFFF_FFFF);
  }

  lemma CutKeepsLink(g: Geometry, v: u32)
    requires g.Valid() && (v < g.nFatent || v == 0xFFFF_FFFF)
    ensures v % Capacity(g.fatType) == if v < g.nFatent then v else Eoc(g)
  {
  }

  /** `put_fat` of a cluster number, 0 or the end mark, none of which is changed by the cut to the entry's width. */
  method PutLink(fs: Volume, c: u32, v: u32) returns (res: FResult)
    requires fs.Valid() && 2 <= c < fs.geo.nFatent
    requires v < fs.geo.nFatent || v == 0xFFFF_FFFF
    modifies fs`winsect, fs`wflag, fs`stale, fs.disk, fs.win
    ensures fs.Valid() && fs.FatStep()
    ensures res == Ok || res == DiskErr
    ensures fs.disk.faults == old(fs.disk.faults) ==> res == Ok
    ensures res == Ok ==>
              && fs.Fat() == old(fs.Fat())[c := if v < fs.geo.nFatent then v else Eoc(fs.geo)]
              && fs.geo.InFat(fs.winsect)
  {
    CutKeepsLink(fs.geo, v);
    hide Table, FatBytes, Capacity, Volume.Logical;
    res := fs.PutFat(c, v);
  }

  // ---------- remove_chain ----------

  ghost predicate RemoveArgs(n: nat, clst: nat, pclst: nat) {
    2 <= clst < n && (pclst == 0 || 2 <= pclst < n)
  }

  /** The table that the removal loop starts from: the chain has been ended at `pclst`, if there is one. */
  function CutAt(t: FatTable, pclst: nat, eoc: nat): (r: FatTable)
    requires pclst == 0 || pclst < |t|
    ensures |r| == |t|
  {
    if pclst == 0 then t else t[pclst := eoc]
  }

  method RemoveChain(fs: Volume, clst: u32, pclst: u32) returns (res: FResult)
    requires fs.Valid()
    modifies fs, fs.disk, fs.win
    ensures fs.Valid() && fs.FatStep()
    ensures res == Ok || res == IntErr || res == DiskErr
    ensures fs.disk.faults == old(fs.disk.faults) ==> res != DiskErr
    ensures !RemoveArgs(fs.geo.nFatent, clst, pclst) ==> res == IntErr && fs.Bytes() == old(fs.Bytes())
    ensures RemoveArgs(fs.geo.nFatent, clst, pclst) && res != DiskErr ==>
              && RemoveFrom(CutAt(old(fs.Fat()), pclst, Eoc(fs.geo)), clst) == Removal(fs.Fat(), res == Ok)
              && ((pclst == 0 || old(fs.Fat())[pclst] != 0) && CountRight(old(fs.Fat()), old(fs.freeClst)) ==>
                    CountRight(fs.Fat(), fs.freeClst))
    ensures old(fs.freeClst) > fs.geo.nFatent - 2 ==> fs.freeClst == old(fs.freeClst)
    ensures fs.lastClst == old(fs.lastClst)
    ensures res == Ok ==> fs.geo.InFat(fs.winsect)
  {
    var n := fs.geo.nFatent;
    if clst < 2 || clst >= n {
      return IntErr;
    }
    ghost var t1 := fs.Fat();
    if pclst != 0 {
      res := fs.PutFat(pclst, 0xFFFF_FFFF);
      if res != Ok {
        return;
      }
      t1 := t1[pclst := Eoc(fs.geo)];
      CountAfterUpdate(old(fs.Fat()), pclst, Eoc(fs.geo));
    }
    res := RemoveLoop(fs, clst);
  }

  /** The loop of `remove_chain`. */
  method RemoveLoop(fs: Volume, clst: u32) returns (res: FResult)
    requires fs.Valid() && 2 <= clst < fs.geo.nFatent
    modifies fs, fs.disk, fs.win
    ensures fs.Valid() && fs.FatStep()
    ensures res == Ok || res == IntErr || res == DiskErr
    ensures fs.disk.faults == old(fs.disk.faults) ==> res != DiskErr
    ensures res != DiskErr ==> RemoveFrom(old(fs.Fat()), clst) == Removal(fs.Fat(), res == Ok)
    ensures res != DiskErr && CountRight(old(fs.Fat()), old(fs.freeClst)) ==> CountRight(fs.Fat(), fs.freeClst)
    ensures old(fs.freeClst) > fs.geo.nFatent - 2 ==> fs.freeClst == old(fs.freeClst)
    ensures fs.lastClst == old(fs.lastClst)
    ensures res == Ok ==> fs.geo.InFat(fs.winsect)
  {
    hide Table, FatBytes, FreeSet, UsedSet, Volume.Logical;
    var n := fs.geo.nFatent;
    ghost var result := RemoveFrom(fs.Fat(), clst);
    var c := clst;
    while c < n
      invariant fs.Valid() && fs.FatStep() && 2 <= c
      invariant result == if c < n then RemoveFrom(fs.Fat(), c) else Removal(fs.Fat(), true)
      invariant CountRight(old(fs.Fat()), old(fs.freeClst)) ==> CountRight(fs.Fat(), fs.freeClst)
      invariant old(fs.freeClst) > n - 2 ==> fs.freeClst == old(fs.freeClst)
      invariant fs.lastClst == old(fs.lastClst)
      invariant c >= n ==> fs.geo.InFat(fs.winsect)
      decreases c < n, UsedSet(fs.Fat())
    {
      var nxt := fs.GetFat(c);
      if nxt == 0 {
        break;
      }
      if nxt == INT_ERROR {
        return IntErr;
      }
      if nxt == DISK_ERROR {
        return DiskErr;
      }
      res := FreeCluster(fs, c);
      if res != Ok {
        return;
      }
      c := nxt;
    }
    res := Ok;
  }

  /** One pass of the loop: the entry becomes 0 and the free cluster counter, if valid, goes up. */
  method FreeCluster(fs: Volume, c: u32) returns (res: FResult)
    requires fs.Valid() && 2 <= c < fs.geo.nFatent && fs.Fat()[c] != 0
    modifies fs, fs.disk, fs.win
    ensures fs.Valid() && fs.FatStep()
    ensures res == Ok || res == DiskErr
    ensures fs.disk.faults == old(fs.disk.faults) ==> res == Ok
    ensures res == Ok ==>
              && fs.Fat() == old(fs.Fat())[c := 0]
              && UsedSet(fs.Fat()) < UsedSet(old(fs.Fat()))
              && (CountRight(old(fs.Fat()), old(fs.freeClst)) ==> CountRight(fs.Fat(), fs.freeClst))
              && fs.geo.InFat(fs.winsect)
    ensures old(fs.freeClst) > fs.geo.nFatent - 2 ==> fs.freeClst == old(fs.freeClst)
    ensures fs.lastClst == old(fs.lastClst)
  {
    hide Table, FatBytes, FreeSet, UsedSet, Volume.Logical;
    CountAfterUpdate(fs.Fat(), c, 0);
    CountBounds(fs.Fat());
    res := PutLink(fs, c, 0);
    if res != Ok {
      return;
    }
    if fs.freeClst < fs.geo.nFatent - 2 {
      fs.freeClst := fs.freeClst + 1;
      fs.fsiDirty := true;
    }
  }

  // ---------- create_chain ----------

  /** Where the scan for a free cluster starts when no neighbour is taken. */
  function ScanStart(n: nat, clst: nat, last: nat): nat {
    if clst == 0 then (if last == 0 || last >= n then 1 else last)
    else if 2 <= last < n then last else clst
  }

  function Neighbour(n: nat, clst: nat): nat {
    if clst + 1 >= n then 2 else clst + 1
  }

  /** The cluster chosen to follow `clst`: its neighbour if that is free, else the first free one of the scan. */
  ghost predicate Chosen(t: FatTable, clst: nat, last: nat, r: nat)
    requires 3 <= |t|
  {
    if clst != 0 && t[Neighbour(|t|, clst)] == 0 then r == Neighbour(|t|, clst)
    else NextFree(t, ScanStart(|t|, clst, last), r)
  }

  /** Whether `clst` names no chain or the end of one, so that a cluster has to be found. */
  predicate AtEnd(t: FatTable, clst: nat) {
    clst == 0 || (2 <= clst < |t| && t[clst] >= |t|)
  }

  /** What `create_chain` returns and does to the table `t`, disk errors apart. */
  ghost predicate Created(t: FatTable, clst: nat, last: nat, free: nat, eoc: nat, r: nat, t': FatTable)
    requires 3 <= |t|
  {
    if !AtEnd(t, clst) then
      && t' == t
      && r == if 2 <= clst < |t| && t[clst] >= 2 then t[clst] else INT_ERROR
    else if r == 0 then
      t' == t && (free == 0 || Full(t))
    else if r == INT_ERROR then
      t' == t && exists c :: 2 <= c < |t| && t[c] == 1
    else
      && 2 <= r < |t| && t[r] == 0 && free != 0
      && Chosen(t, clst, last, r)
      && t' == Linked(t, clst, r, eoc)
  }

  /** How many clusters the wrap-around scan looks at from `s` until it reaches `c`. */
  ghost function ScanSteps(n: nat, s: nat, c: nat): int {
    if c > s then c - s else c - s + n
  }

  /**
    * Where a new cluster comes from: a chain goes on in the next cluster, which for the last cluster of the volume is
    * cluster 2, if that is free. Else, and for a new chain, it is the free cluster that comes first after the one
    * allocated last, or, if none is known, after the end of the chain or from cluster 2 on.
    */
  lemma NearestFree(t: FatTable, clst: nat, last: nat, free: nat, eoc: nat, r: nat, t': FatTable)
    requires 3 <= |t| && AtEnd(t, clst) && Created(t, clst, last, free, eoc, r, t') && r >= 2
    ensures 2 <= r < |t| && t[r] == 0
    ensures clst != 0 && clst + 1 < |t| && t[clst + 1] == 0 ==> r == clst + 1
    ensures clst + 1 == |t| && t[2] == 0 ==> r == 2
    ensures clst == 0 || t[if clst + 1 < |t| then clst + 1 else 2] != 0 ==>
              var s := if 2 <= last < |t| then last else if clst == 0 then 1 else clst;
              forall c | 2 <= c < |t| && t[c] == 0 :: ScanSteps(|t|, s, r) <= ScanSteps(|t|, s, c)
  {
  }

  /** On a well-formed table with a right count, 0 means that the volume is full, and nothing else does. */
  lemma ZeroExactlyWhenFull(t: FatTable, chains: set<seq<nat>>, clst: nat, last: nat, free: nat, eoc: nat, r: nat,
                            t': FatTable)
    requires 3 <= |t| && Partition(t, chains) && CountRight(t, free) && AtEnd(t, clst)
    requires Created(t, clst, last, free, eoc, r, t')
    ensures r == 0 <==> Full(t)
    ensures r != INT_ERROR
  {
    CountBounds(t);
    forall c | 2 <= c < |t| ensures t[c] != 1 {
      NoEntryIsOne(t, chains, c);
    }
  }

  /** The table stays a set of disjoint chains: one new chain, or one chain longer by a cluster. */
  lemma CreatedKeepsPartition(t: FatTable, chains: set<seq<nat>>, ch: seq<nat>, last: nat, free: nat, eoc: nat, r: nat,
                              t': FatTable)
    requires 3 <= |t| && Partition(t, chains) && eoc >= |t|
    requires ch == [] || ch in chains
    requires var clst := if ch == [] then 0 else ch[|ch| - 1]; Created(t, clst, last, free, eoc, r, t')
    ensures r < 2 ==> t' == t
    ensures r >= 2 ==> Partition(t', chains - {ch} + {ch + [r]})
  {
    if ch == [] {
      assert ch !in chains;
      if r >= 2 {
        NewChainKeepsPartition(t, chains, r, eoc);
        assert chains - {ch} == chains && ch + [r] == [r];
      }
    } else if r >= 2 {
      StretchKeepsPartition(t, chains, ch, r, eoc);
    }
  }

  /** The wrap-around search of `create_chain`. */
  method FindFree(fs: Volume, scl: u32) returns (ncl: u32)
    requires fs.Valid() && 1 <= scl < fs.geo.nFatent
    modifies fs`winsect, fs`wflag, fs`stale, fs.disk, fs.win
    ensures fs.Valid() && fs.FatStep() && fs.Bytes() == old(fs.Bytes())
    ensures fs.disk.faults == old(fs.disk.faults) ==> ncl != DISK_ERROR
    ensures ncl == 0 ==> Full(fs.Fat())
    ensures ncl == INT_ERROR ==> exists c :: 2 <= c < fs.geo.nFatent && fs.Fat()[c] == 1
    ensures ncl > 1 && ncl != DISK_ERROR ==> NextFree(fs.Fat(), scl, ncl)
    ensures ncl != DISK_ERROR ==> fs.geo.InFat(fs.winsect) || fs.winsect == old(fs.winsect)
  {
    hide Table, FatBytes, FreeSet, UsedSet, Volume.Logical;
    ghost var t := fs.Fat();
    var n := fs.geo.nFatent;
    ncl := scl;
    while true
      invariant fs.Valid() && fs.FatStep() && fs.Bytes() == old(fs.Bytes())
      invariant 1 <= ncl < n
      invariant fs.geo.InFat(fs.winsect) || fs.winsect == old(fs.winsect)
      invariant ncl >= scl ==> forall c | scl < c <= ncl :: t[c] != 0
      invariant ncl < scl ==> forall c | 2 <= c < n && (scl < c || c <= ncl) :: t[c] != 0
      decreases if ncl >= scl then 2 * n - ncl else scl - ncl
    {
      ncl := ncl + 1;
      if ncl >= n {
        ncl := 2;
        if ncl > scl {
          return 0;
        }
      }
      var cs := fs.GetFat(ncl);
      if cs == 0 {
        return;
      }
      if cs == INT_ERROR || cs == DISK_ERROR {
        assert cs == INT_ERROR ==> fs.Fat()[ncl] == 1;
        return cs;
      }
      if ncl == scl {
        return 0;
      }
    }
  }

  method CreateChain(fs: Volume, clst: u32) returns (r: u32)
    requires fs.Valid()
    modifies fs, fs.disk, fs.win
    ensures fs.Valid() && fs.FatStep()
    ensures fs.disk.faults == old(fs.disk.faults) ==> r != DISK_ERROR
    ensures r != DISK_ERROR ==>
              && Created(old(fs.Fat()), clst, old(fs.lastClst), old(fs.freeClst), Eoc(fs.geo), r, fs.Fat())
              && (CountRight(old(fs.Fat()), old(fs.freeClst)) ==> CountRight(fs.Fat(), fs.freeClst))
              && (r >= 2 ==> fs.geo.InFat(fs.winsect))
              && (r != INT_ERROR ==> fs.geo.InFat(fs.winsect) || fs.winsect == old(fs.winsect))
              && fs.lastClst == if fs.Fat() == old(fs.Fat()) then old(fs.lastClst) else r
    ensures old(fs.freeClst) > fs.geo.nFatent - 2 ==> fs.freeClst == old(fs.freeClst)
  {
    hide Table, FatBytes, FreeSet, UsedSet, Volume.Logical;
    var n := fs.geo.nFatent;
    var cs: u32;
    var scl: u32;
    if clst == 0 {
      scl := fs.lastClst;
      if scl == 0 || scl >= n {
        scl := 1;
      }
    } else {
      cs := fs.GetFat(clst);
      if cs < 2 {
        return 1;
      }
      if cs == DISK_ERROR {
        return cs;
      }
      if cs < n {
        return cs;
      }
      scl := clst;
    }
    if fs.freeClst == 0 {
      return 0;
    }
    r := FindAndLink(fs, clst, scl);
  }

  /** `create_chain` once it is clear that a cluster is needed: try the neighbour, then scan. */
  method FindAndLink(fs: Volume, clst: u32, start: u32) returns (r: u32)
    requires fs.Valid() && AtEnd(fs.Fat(), clst) && fs.freeClst != 0
    requires start == if clst == 0 then ScanStart(fs.geo.nFatent, 0, fs.lastClst) else clst
    modifies fs, fs.disk, fs.win
    ensures fs.Valid() && fs.FatStep()
    ensures fs.disk.faults == old(fs.disk.faults) ==> r != DISK_ERROR
    ensures r != DISK_ERROR ==>
              && Created(old(fs.Fat()), clst, old(fs.lastClst), old(fs.freeClst), Eoc(fs.geo), r, fs.Fat())
              && (CountRight(old(fs.Fat()), old(fs.freeClst)) ==> CountRight(fs.Fat(), fs.freeClst))
              && (r >= 2 ==> fs.geo.InFat(fs.winsect))
              && (r != INT_ERROR ==> fs.geo.InFat(fs.winsect) || fs.winsect == old(fs.winsect))
              && fs.lastClst == if r < 2 then old(fs.lastClst) else r
    ensures old(fs.freeClst) > fs.geo.nFatent - 2 ==> fs.freeClst == old(fs.freeClst)
  {
    hide Table, FatBytes, FreeSet, UsedSet, Volume.Logical, Linked;
    var n := fs.geo.nFatent;
    var scl, ncl: u32 := start, 0;
    var cs: u32;
    if scl == clst {
      ncl := if scl + 1 >= n then 2 else scl + 1;
      cs := fs.GetFat(ncl);
      if cs == 1 || cs == DISK_ERROR {
        return cs;
      }
      if cs != 0 {
        cs := fs.lastClst;
        if cs >= 2 && cs < n {
          scl := cs;
        }
        ncl := 0;
      }
    }
    if ncl == 0 {
      ncl := FindFree(fs, scl);
      if ncl == 0 || ncl == INT_ERROR || ncl == DISK_ERROR {
        return ncl;
      }
    }
    r := LinkNew(fs, clst, ncl);
  }

  /** The end of `create_chain`: mark the new cluster, link it and update the allocation information. */
  method LinkNew(fs: Volume, clst: u32, ncl: u32) returns (r: u32)
    requires fs.Valid() && 2 <= ncl < fs.geo.nFatent && fs.Fat()[ncl] == 0
    requires clst == 0 || (2 <= clst < fs.geo.nFatent && fs.Fat()[clst] != 0)
    requires fs.freeClst != 0
    modifies fs, fs.disk, fs.win
    ensures fs.Valid() && fs.FatStep()
    ensures fs.disk.faults == old(fs.disk.faults) ==> r != DISK_ERROR
    ensures r == ncl || r == DISK_ERROR
    ensures r == ncl ==>
              && fs.Fat() == Linked(old(fs.Fat()), clst, ncl, Eoc(fs.geo))
              && (CountRight(old(fs.Fat()), old(fs.freeClst)) ==> CountRight(fs.Fat(), fs.freeClst))
              && fs.geo.InFat(fs.winsect) && fs.lastClst == ncl
    ensures old(fs.freeClst) > fs.geo.nFatent - 2 ==> fs.freeClst == old(fs.freeClst)
  {
    hide Table, FatBytes, FreeSet, UsedSet, Volume.Logical;
    ghost var t := fs.Fat();
    CountAfterUpdate(t, ncl, Eoc(fs.geo));
    if clst != 0 {
      CountAfterUpdate(t[ncl := Eoc(fs.geo)], clst, ncl);
    }
    var res := PutLink(fs, ncl, 0xFFFF_FFFF);
    if res == Ok && clst != 0 {
      res := PutLink(fs, clst, ncl);
    }
    if res == Ok {
      fs.lastClst := ncl;
      if fs.freeClst > 0 && fs.freeClst <= fs.geo.nFatent - 2 {
        fs.freeClst := fs.freeClst - 1;
        fs.fsiDirty := true;
      }
      r := ncl;
    } else {
      r := DISK_ERROR;  // both clusters are in range, so `put_fat` reports no internal error
    }
  }
}
