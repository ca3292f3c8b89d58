/**
 A mounted volume: its one-sector write-back window over the card, the mirrored
 second FAT, and the FAT entries read and written through that window.
 */
module Volumes {
  import opened Machine
  import opened Storage
  import opened FatEntries

  /** Window position that stands for "no valid sector". */
  const NO_SECTOR: int := 0xFFFF_FFFF

  /** Results of `get_fat` and `create_chain` that are not cluster numbers. */
  const DISK_ERROR: int := 0xFFFF_FFFF
  const INT_ERROR: int := 1

  datatype FResult = Ok | DiskErr | IntErr | Denied

  datatype Geometry = Geometry(
    fatType: FatType,
    nFats: nat,      // number of FATs, 1 or 2
    csize: nat,      // sectors per cluster
    nFatent: nat,    // number of FAT entries: clusters + 2
    fsize: nat,      // sectors per FAT
    fatbase: nat,    // first sector of the first FAT
    database: nat,   // first sector of cluster 2
    total: nat       // sectors of the card
  ) {
    /** What mounting a volume has checked, and that the card is as large as the volume says it is. */
    ghost predicate Valid() {
      && (nFats == 1 || nFats == 2)
      && 1 <= csize
      && 3 <= nFatent <= MaxClusters(fatType) + 2
      && BytesFor(fatType, nFatent) <= SS * fsize
      && 1 <= fatbase
      && fatbase + (if nFats == 2 then 2 * fsize else fsize) <= database
      && database < total < NO_SECTOR
      && forall c | 2 <= c < nFatent :: ClusterInside(c)
    }

    /** The sectors of cluster `c` exist on the card. */
    predicate ClusterInside(c: int) {
      0 <= csize * (c - 2) && database + csize * (c - 2) + csize <= total
    }

    predicate InFat(s: int) {
      fatbase <= s < fatbase + fsize
    }

    predicate InMirror(s: int) {
      nFats == 2 && fatbase + fsize <= s < fatbase + 2 * fsize
    }

    predicate InFats(s: int) {
      InFat(s) || InMirror(s)
    }
  }

  /** Two card images that agree except, perhaps, in the second FAT. */
  ghost predicate SameOutsideMirror(g: Geometry, a: seq<Sector>, b: seq<Sector>) {
    |a| == |b| && forall s | 0 <= s < |a| && !g.InMirror(s) :: a[s] == b[s]
  }

  /** Two card images that agree except, perhaps, in the FATs. */
  ghost predicate SameOutsideFats(g: Geometry, a: seq<Sector>, b: seq<Sector>) {
    |a| == |b| && forall s | 0 <= s < |a| && !g.InFats(s) :: a[s] == b[s]
  }

  /** The window stays where it is, or shows a FAT sector or nothing. */
  predicate WindowStep(g: Geometry, w: int, w': int) {
    w' == w || w' == NO_SECTOR || g.InFat(w')
  }

  /** The bytes of the first FAT in the card image `l`. */
  ghost function FatBytes(g: Geometry, l: seq<Sector>): (r: seq<byte>)
    requires g.Valid() && |l| == g.total
    ensures |r| == SS * g.fsize
  {
    Span(l, g.fatbase, g.fsize)
  }

  lemma FatBytesDependOnFirstFat(g: Geometry, a: seq<Sector>, b: seq<Sector>)
    requires g.Valid() && |a| == |b| == g.total && forall s | g.InFat(s) :: a[s] == b[s]
    ensures FatBytes(g, a) == FatBytes(g, b)
  {
  }

  /** With two FATs, every sector of the first one that is neither stale nor dirty equals its mirror. */
  ghost predicate Mirrored(g: Geometry, d: seq<Sector>, stale: set<int>, dirty: int)
    requires g.Valid() && |d| == g.total
  {
    g.nFats == 2 ==> forall s | g.InFat(s) && s !in stale && s != dirty :: d[s] == d[s + g.fsize]
  }

  /** When no sector is dirty or stale, the second FAT holds exactly the bytes of the first. */
  lemma MirrorIsExact(g: Geometry, d: seq<Sector>)
    requires g.Valid() && |d| == g.total && g.nFats == 2
    requires Mirrored(g, d, {}, NO_SECTOR)
    ensures Span(d, g.fatbase + g.fsize, g.fsize) == FatBytes(g, d)
  {
    forall k | 0 <= k < SS * g.fsize
      ensures d[g.fatbase + g.fsize + k / SS] == d[g.fatbase + k / SS]
    {
      assert g.InFat(g.fatbase + k / SS);
    }
  }

  /** Writing back a sector, and then its mirror if it has one, keeps the FATs mirrored. */
  lemma WriteBackMirrored(g: Geometry, d: seq<Sector>, stale: set<int>, s: nat, w: Sector)
    requires g.Valid() && |d| == g.total && s < g.total && !g.InMirror(s)
    requires Mirrored(g, d, stale, s)
    ensures !g.InFat(s) || g.nFats == 1 ==> Mirrored(g, d[s := w], stale, NO_SECTOR)
    ensures Mirrored(g, d[s := w], stale + {s}, NO_SECTOR)
    ensures g.InFat(s) && g.nFats == 2 ==>
              && s + g.fsize < g.total && g.InMirror(s + g.fsize)
              && Mirrored(g, d[s := w][s + g.fsize := w], stale - {s}, NO_SECTOR)
  {
  }

  lemma MirrorRoom(g: Geometry, s: int)
    requires g.Valid() && g.nFats == 2 && g.InFat(s)
    ensures 0 <= s < s + g.fsize < g.total && g.InMirror(s + g.fsize)
  {
  }

  /** Writing the mirror of a sector that is written already; a failed write leaves anything in the mirror. */
  lemma MirrorWritten(g: Geometry, d: seq<Sector>, d': seq<Sector>, stale: set<int>, s: int, ok: bool)
    requires g.Valid() && |d| == |d'| == g.total && g.nFats == 2 && g.InFat(s) && Mirrored(g, d, stale, s)
    requires 0 <= s < s + g.fsize < g.total && g.InMirror(s + g.fsize)
    requires forall k | 0 <= k < |d| && k != s + g.fsize :: d'[k] == d[k]
    requires ok ==> d'[s + g.fsize] == d[s]
    ensures SameOutsideMirror(g, d, d')
    ensures Mirrored(g, d', if ok then stale - {s} else stale + {s}, NO_SECTOR)
  {
    hide Geometry.ClusterInside;
    forall k | g.InFat(k) && k !in (if ok then stale - {s} else stale + {s}) ensures d'[k] == d'[k + g.fsize] {
      MirrorRoom(g, k);
      assert k != s ==> k !in stale && d[k] == d[k + g.fsize];
    }
  }

  /** Changing one byte of a FAT sector changes that byte of the FAT only. */
  lemma PokeFat(g: Geometry, l: seq<Sector>, k: nat, b: byte)
    requires g.Valid() && |l| == g.total && k < SS * g.fsize
    ensures g.InFat(g.fatbase + k / SS) && g.fatbase + k / SS < g.total
    ensures var s := g.fatbase + k / SS;
            FatBytes(g, l[s := l[s][k % SS := b]]) == FatBytes(g, l)[k := b]
  {
    var s := g.fatbase + k / SS;
    var a, f := FatBytes(g, l[s := l[s][k % SS := b]]), FatBytes(g, l)[k := b];
    forall i | 0 <= i < |a| ensures a[i] == f[i] {
      assert i / SS == k / SS && i % SS == k % SS ==> i == k;
    }
  }

  /** 16 and 32 bit entries never straddle two sectors. */
  lemma OneSector16(c: nat)
    ensures (c * 2 + 1) / SS == c * 2 / SS
  {
  }

  lemma OneSector32(c: nat)
    ensures (c * 4 + 1) / SS == (c * 4 + 2) / SS == (c * 4 + 3) / SS == c * 4 / SS
  {
  }

  class Volume {
    const geo: Geometry
    const disk: Disk
    const win: array<byte>
    var winsect: int
    var wflag: bool
    var lastClst: u32
    var freeClst: u32
    var fsiDirty: bool
    /** Sectors of the first FAT that differed from their mirror at mount, or whose latest mirror write failed. */
    ghost var stale: set<int>

    /** The state in which mounting leaves the volume object. */
    constructor (g: Geometry, d: Disk)
      requires g.Valid() && |d.data| == g.total
      ensures Valid() && geo == g && disk == d && fresh(win)
      ensures Logical() == d.data && freeClst == lastClst == 0xFFFF_FFFF
      ensures forall s | s in stale :: g.InFat(s) && g.nFats == 2 && 0 <= s < s + g.fsize < g.total
                && d.data[s] != d.data[s + g.fsize]
    {
      geo, disk := g, d;
      win := new byte[SS];
      winsect, wflag := NO_SECTOR, false;
      lastClst, freeClst, fsiDirty := 0xFFFF_FFFF, 0xFFFF_FFFF, false;
      stale := set s | 0 <= s < g.total && g.InFat(s) && g.nFats == 2 && d.data[s] != d.data[s + g.fsize];
    }

    ghost predicate Valid()
      reads this`winsect, this`wflag, this`stale, disk, win
    {
      && geo.Valid()
      && |disk.data| == geo.total
      && win.Length == SS
      && (if winsect == NO_SECTOR then !wflag else 0 <= winsect < geo.total)
      && (winsect != NO_SECTOR && !wflag ==> win[..] == disk.data[winsect])
      && (wflag ==> !geo.InMirror(winsect))
      && Mirrored(geo, disk.data, stale, if wflag then winsect else NO_SECTOR)
    }

    /** The card with the dirty window laid over it. */
    ghost function Logical(): (l: seq<Sector>)
      requires Valid()
      reads this`winsect, this`wflag, this`stale, disk, win
      ensures |l| == geo.total
    {
      if wflag then disk.data[winsect := win[..]] else disk.data
    }

    ghost function Bytes(): (f: seq<byte>)
      requires Valid()
      reads this`winsect, this`wflag, this`stale, disk, win
      ensures |f| == SS * geo.fsize
    {
      FatBytes(geo, Logical())
    }

    /** The FAT as a table from cluster number to entry value. */
    ghost function Fat(): (t: seq<nat>)
      requires Valid()
      reads this`winsect, this`wflag, this`stale, disk, win
      ensures |t| == geo.nFatent
    {
      Table(geo.fatType, Bytes(), geo.nFatent)
    }

    method SyncWindow() returns (res: FResult)
      requires Valid()
      modifies this`wflag, this`stale, disk
      ensures Valid()
      ensures res == Ok || res == DiskErr
      ensures old(disk.faults) <= disk.faults
      ensures disk.faults == old(disk.faults) ==> res == Ok && stale <= old(stale)
      ensures wflag == (res != Ok)
      ensures SameOutsideMirror(geo, old(Logical()), Logical())
    {
      hide FatBytes, Sub32;
      res := Ok;
      if wflag {
        WriteBackMirrored(geo, disk.data, stale, winsect, win[..]);
        var ok := disk.WriteSector(win[..], winsect);
        if ok {
          wflag := false;
          Sub32InRange(winsect, geo.fatbase, geo.fsize);
          if Sub32(winsect, geo.fatbase) < geo.fsize {
            assert geo.InFat(winsect);
            if geo.nFats == 2 {
              ReflectToMirror();
            }
          }
        } else {
          res := DiskErr;
        }
      }
    }

    /** The second half of `sync_window`: a failed mirror write is not reported. */
    method ReflectToMirror()
      requires geo.Valid() && |disk.data| == geo.total && win.Length == SS
      requires geo.nFats == 2 && geo.InFat(winsect) && win[..] == disk.data[winsect]
      requires Mirrored(geo, disk.data, stale, winsect)
      modifies this`stale, disk
      ensures |disk.data| == geo.total && Mirrored(geo, disk.data, stale, NO_SECTOR)
      ensures SameOutsideMirror(geo, old(disk.data), disk.data)
      ensures old(disk.faults) <= disk.faults
      ensures disk.faults == old(disk.faults) ==> stale <= old(stale)
    {
      hide *;
      ghost var d := disk.data;
      MirrorRoom(geo, winsect);
      var sect := winsect + geo.fsize;
      var ok := disk.WriteSector(win[..], sect);
      stale := if ok then stale - {winsect} else stale + {winsect};
      MirrorWritten(geo, d, disk.data, old(stale), winsect, ok);
    }

    method MoveWindow(sect: nat) returns (res: FResult)
      requires Valid() && sect < geo.total
      modifies this`winsect, this`wflag, this`stale, disk, win
      ensures Valid()
      ensures res == Ok || res == DiskErr
      ensures old(disk.faults) <= disk.faults
      ensures disk.faults == old(disk.faults) ==> res == Ok && stale <= old(stale)
      ensures res == Ok ==> winsect == sect && win[..] == Logical()[sect]
      ensures res != Ok ==> winsect == old(winsect) || winsect == NO_SECTOR
      ensures SameOutsideMirror(geo, old(Logical()), Logical())
    {
      hide FatBytes;
      res := Ok;
      if sect != winsect {
        res := SyncWindow();
        if res == Ok {
          var ok := disk.ReadSector(win, sect);
          if ok {
            winsect := sect;
          } else {
            winsect := NO_SECTOR;
            res := DiskErr;
          }
        }
      }
    }

    /** The window shows the FAT sector that holds byte `k` of the FAT. */
    ghost predicate ShowsFat(k: nat)
      requires Valid()
      reads this`winsect, this`wflag, this`stale, disk, win
    {
      && k < SS * geo.fsize
      && winsect == geo.fatbase + k / SS
      && win[..] == Logical()[winsect]
    }

    /** What the access functions rely on after every window move and change. */
    twostate predicate FatStep()
      requires Valid() && old(Valid())
      reads this`winsect, this`wflag, this`stale, disk, win
    {
      && WindowStep(geo, old(winsect), winsect)
      && SameOutsideFats(geo, old(Logical()), Logical())
      && old(disk.faults) <= disk.faults
      && (disk.faults == old(disk.faults) ==> stale <= old(stale))
    }

    twostate lemma FatStepParts()
      requires Valid() && old(Valid()) && FatStep()
      ensures WindowStep(geo, old(winsect), winsect) && SameOutsideFats(geo, old(Logical()), Logical())
      ensures old(disk.faults) <= disk.faults
    {
    }

    method MoveToFat(k: nat) returns (res: FResult)
      requires Valid() && k < SS * geo.fsize
      modifies this`winsect, this`wflag, this`stale, disk, win
      ensures Valid()
      ensures res == Ok || res == DiskErr
      ensures disk.faults == old(disk.faults) ==> res == Ok
      ensures res == Ok ==> ShowsFat(k)
      ensures Bytes() == old(Bytes()) && FatStep()
    {
      res := MoveWindow(geo.fatbase + k / SS);
      FatBytesDependOnFirstFat(geo, old(Logical()), Logical());
    }

    /** The byte `k` of the FAT as it appears in the window. */
    function WinByte(k: nat): (b: byte)
      requires Valid() && ShowsFat(k)
      reads this`winsect, this`wflag, this`stale, disk, win
      ensures b == Bytes()[k]
    {
      win[k % SS]
    }

    /** `ld_32` from the window. */
    function WinWord32(k: nat): (w: u32)
      requires Valid() && ShowsFat(k) && ShowsFat(k + 1) && ShowsFat(k + 2) && ShowsFat(k + 3)
      reads this`winsect, this`wflag, this`stale, disk, win
      ensures w == Load32(Bytes()[k], Bytes()[k + 1], Bytes()[k + 2], Bytes()[k + 3])
    {
      Load32(WinByte(k), WinByte(k + 1), WinByte(k + 2), WinByte(k + 3))
    }

    method Poke(k: nat, b: byte)
      requires Valid() && ShowsFat(k)
      modifies this`wflag, win
      ensures Valid() && ShowsFat(k)
      ensures Bytes() == old(Bytes())[k := b] && FatStep()
    {
      PokeFat(geo, Logical(), k, b);
      ghost var l := Logical();
      win[k % SS] := b;
      wflag := true;
      assert Logical() == l[winsect := l[winsect][k % SS := b]];
    }

    /** `st_16` into the window. */
    method PokeWord16(k: nat, w: u32)
      requires Valid() && ShowsFat(k) && ShowsFat(k + 1)
      modifies this`wflag, win
      ensures Valid() && geo.InFat(winsect)
      ensures Bytes() == Store16(old(Bytes()), k, w) && FatStep()
    {
      hide FatBytes, Volume.Logical;
      Poke(k, w % 0x100);
      Poke(k + 1, w / 0x100 % 0x100);
    }

    /** `st_32` into the window. */
    method PokeWord32(k: nat, w: u32)
      requires Valid() && ShowsFat(k) && ShowsFat(k + 1) && ShowsFat(k + 2) && ShowsFat(k + 3)
      modifies this`wflag, win
      ensures Valid() && geo.InFat(winsect)
      ensures Bytes() == Store32(old(Bytes()), k, w) && FatStep()
    {
      hide FatBytes, Volume.Logical;
      Poke(k, w % 0x100);
      Poke(k + 1, w / 0x100 % 0x100);
      Poke(k + 2, w / 0x1_0000 % 0x100);
      Poke(k + 3, w / 0x100_0000);
    }

    method GetFat(clst: u32) returns (val: u32)
      requires Valid()
      modifies this`winsect, this`wflag, this`stale, disk, win
      ensures Valid()
      ensures disk.faults == old(disk.faults) ==> val != DISK_ERROR
      ensures val != DISK_ERROR ==> val == if 2 <= clst < geo.nFatent then old(Fat())[clst] else INT_ERROR
      ensures val != DISK_ERROR && 2 <= clst < geo.nFatent ==> geo.InFat(winsect)
      ensures Bytes() == old(Bytes()) && FatStep()
    {
      hide FatBytes, Volume.Logical, GetEntry;
      if clst < 2 || clst >= geo.nFatent {
        return INT_ERROR;
      }
      EntryFits(geo.fatType, geo.nFatent, clst);
      match geo.fatType
      case Fat12 => val := GetFat12(clst);
      case Fat16 => val := GetFat16(clst);
      case Fat32 => val := GetFat32(clst);
    }

    method GetFat12(clst: nat) returns (val: u32)
      requires Valid() && geo.fatType == Fat12 && Offset(Fat12, clst) + 2 <= SS * geo.fsize
      modifies this`winsect, this`wflag, this`stale, disk, win
      ensures Valid()
      ensures disk.faults == old(disk.faults) ==> val != DISK_ERROR
      ensures val != DISK_ERROR ==> geo.InFat(winsect) && val == GetEntry(Fat12, Bytes(), clst)
      ensures Bytes() == old(Bytes()) && FatStep()
    {
      hide Pick12, Load16, FatBytes, Volume.Logical;
      val := DISK_ERROR;
      var bc := clst + clst / 2;
      var res := MoveToFat(bc);
      if res == Ok {
        var wc := WinByte(bc);
        bc := bc + 1;
        res := MoveToFat(bc);
        if res == Ok {
          val := Pick12(clst, Load16(wc, WinByte(bc)));
        }
      }
    }

    method GetFat16(clst: nat) returns (val: u32)
      requires Valid() && geo.fatType == Fat16 && Offset(Fat16, clst) + 2 <= SS * geo.fsize
      modifies this`winsect, this`wflag, this`stale, disk, win
      ensures Valid()
      ensures disk.faults == old(disk.faults) ==> val != DISK_ERROR
      ensures val != DISK_ERROR ==> geo.InFat(winsect) && val == GetEntry(Fat16, Bytes(), clst)
      ensures Bytes() == old(Bytes()) && FatStep()
    {
      hide Load16, FatBytes, Volume.Logical;
      val := DISK_ERROR;
      var k := clst * 2;
      OneSector16(clst);
      var res := MoveToFat(k);
      if res == Ok {
        val := Load16(WinByte(k), WinByte(k + 1));
      }
    }

    method GetFat32(clst: nat) returns (val: u32)
      requires Valid() && geo.fatType == Fat32 && Offset(Fat32, clst) + 4 <= SS * geo.fsize
      modifies this`winsect, this`wflag, this`stale, disk, win
      ensures Valid()
      ensures disk.faults == old(disk.faults) ==> val != DISK_ERROR
      ensures val != DISK_ERROR ==> geo.InFat(winsect) && val == GetEntry(Fat32, Bytes(), clst)
      ensures Bytes() == old(Bytes()) && FatStep()
    {
      hide Pick28, Load32, FatBytes, Volume.Logical;
      val := DISK_ERROR;
      var k := clst * 4;
      OneSector32(clst);
      var res := MoveToFat(k);
      if res == Ok {
        val := Pick28(WinWord32(k));
      }
    }

    method PutFat(clst: u32, val: u32) returns (res: FResult)
      requires Valid()
      modifies this`winsect, this`wflag, this`stale, disk, win
      ensures Valid()
      ensures res == IntErr <==> !(2 <= clst < geo.nFatent)
      ensures res == Ok || res == DiskErr || res == IntErr
      ensures disk.faults == old(disk.faults) ==> res != DiskErr
      ensures res == IntErr ==> Bytes() == old(Bytes())
      ensures res == Ok ==>
                && Offset(geo.fatType, clst) + Size(geo.fatType) <= |old(Bytes())|
                && Bytes() == PutEntry(geo.fatType, old(Bytes()), clst, val)
                && Fat() == old(Fat())[clst := val % Capacity(geo.fatType)]
                && geo.InFat(winsect)
      ensures FatStep()
    {
      hide FatBytes, Volume.Logical, GetEntry, PutEntry, Table;
      res := IntErr;
      if clst >= 2 && clst < geo.nFatent {
        EntryFits(geo.fatType, geo.nFatent, clst);
        TablePut(geo.fatType, Bytes(), geo.nFatent, clst, val);
        match geo.fatType
        case Fat12 => res := PutFat12(clst, val);
        case Fat16 => res := PutFat16(clst, val);
        case Fat32 => res := PutFat32(clst, val);
      }
    }

    method PutFat12(clst: nat, val: u32) returns (res: FResult)
      requires Valid() && geo.fatType == Fat12 && Offset(Fat12, clst) + 2 <= SS * geo.fsize
      modifies this`winsect, this`wflag, this`stale, disk, win
      ensures Valid()
      ensures res == Ok || res == DiskErr
      ensures disk.faults == old(disk.faults) ==> res == Ok
      ensures res == Ok ==> geo.InFat(winsect) && Bytes() == PutEntry(Fat12, old(Bytes()), clst, val)
      ensures FatStep()
    {
      hide Low12, High12, FatBytes, Volume.Logical;
      var bc := clst + clst / 2;
      res := PutLow12(bc, clst, val);
      if res == Ok {
        res := PutHigh12(bc + 1, clst, val);
      }
    }

    method PutLow12(k: nat, clst: nat, val: u32) returns (res: FResult)
      requires Valid() && k < SS * geo.fsize
      modifies this`winsect, this`wflag, this`stale, disk, win
      ensures Valid()
      ensures res == Ok || res == DiskErr
      ensures disk.faults == old(disk.faults) ==> res == Ok
      ensures res == Ok ==> geo.InFat(winsect) && Bytes() == old(Bytes())[k := Low12(clst, val, old(Bytes())[k])]
      ensures FatStep()
    {
      hide Low12, High12, FatBytes, Volume.Logical;
      res := MoveToFat(k);
      if res == Ok {
        Poke(k, Low12(clst, val, WinByte(k)));
      }
    }

    method PutHigh12(k: nat, clst: nat, val: u32) returns (res: FResult)
      requires Valid() && k < SS * geo.fsize
      modifies this`winsect, this`wflag, this`stale, disk, win
      ensures Valid()
      ensures res == Ok || res == DiskErr
      ensures disk.faults == old(disk.faults) ==> res == Ok
      ensures res == Ok ==> geo.InFat(winsect) && Bytes() == old(Bytes())[k := High12(clst, val, old(Bytes())[k])]
      ensures FatStep()
    {
      hide Low12, High12, FatBytes, Volume.Logical;
      res := MoveToFat(k);
      if res == Ok {
        Poke(k, High12(clst, val, WinByte(k)));
      }
    }

    method PutFat16(clst: nat, val: u32) returns (res: FResult)
      requires Valid() && geo.fatType == Fat16 && Offset(Fat16, clst) + 2 <= SS * geo.fsize
      modifies this`winsect, this`wflag, this`stale, disk, win
      ensures Valid()
      ensures res == Ok || res == DiskErr
      ensures disk.faults == old(disk.faults) ==> res == Ok
      ensures res == Ok ==> geo.InFat(winsect) && Bytes() == PutEntry(Fat16, old(Bytes()), clst, val)
      ensures FatStep()
    {
      hide Store16, FatBytes, Volume.Logical;
      var k := clst * 2;
      OneSector16(clst);
      res := MoveToFat(k);
      if res == Ok {
        PokeWord16(k, val);
      }
    }

    method PutFat32(clst: nat, val: u32) returns (res: FResult)
      requires Valid() && geo.fatType == Fat32 && Offset(Fat32, clst) + 4 <= SS * geo.fsize
      modifies this`winsect, this`wflag, this`stale, disk, win
      ensures Valid()
      ensures res == Ok || res == DiskErr
      ensures disk.faults == old(disk.faults) ==> res == Ok
      ensures res == Ok ==> geo.InFat(winsect) && Bytes() == PutEntry(Fat32, old(Bytes()), clst, val)
      ensures FatStep()
    {
      hide Merge28, Load32, Store32, FatBytes, Volume.Logical;
      var k := clst * 4;
      OneSector32(clst);
      res := MoveToFat(k);
      if res == Ok {
        var v := Merge28(val, WinWord32(k));
        PokeWord32(k, v);
      }
    }
  }
}
