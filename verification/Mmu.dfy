/** `map`, `translate` and `unmap`: page tables that take their own frames from the frame allocator. */
module Mmu {
  import opened Frames
  import opened PageTables

  /** Every frame is free, or holds one table, or is in use elsewhere. */
  ghost predicate Shared(all: set<int>, free: set<int>, tables: set<int>, foreign: set<int>) {
    tables <= all && foreign <= all && tables !! foreign && free == all - foreign - tables
  }

  /** Which frames are free, which hold tables and which are in use elsewhere. */
  datatype Split = Split(free: set<int>, tables: set<int>, foreign: set<int>)

  /** Tables were dropped, and their frames are free. */
  ghost predicate Dropped(all: set<int>, u0: Split, u1: Split) {
    && u1.tables <= u0.tables && u1.foreign == u0.foreign
    && (u0.tables <= all ==> u1.free == u0.free + (u0.tables - u1.tables))
  }

  /** One table was dropped. */
  lemma TableDropped(all: set<int>, owner: Owners, a: int, u0: Split, u1: Split)
    requires a in owner && u0.tables == owner.Keys && u1.tables == (owner - {a}).Keys && u1.foreign == u0.foreign
    requires u1.free == if a in all then u0.free + {a} else u0.free
    ensures Dropped(all, u0, u1)
    ensures Shared(all, u0.free, u0.tables, u0.foreign) ==> Shared(all, u1.free, u1.tables, u1.foreign)
  {
    assert u1.tables == u0.tables - {a};
    assert u0.tables <= all ==> u1.free == u0.free + (u0.tables - u1.tables);
  }

  lemma NoneDropped(all: set<int>, u: Split)
    ensures Dropped(all, u, u)
  {
  }

  lemma DroppedOn(all: set<int>, u0: Split, u1: Split, u2: Split)
    requires Dropped(all, u0, u1) && Dropped(all, u1, u2)
    ensures Dropped(all, u0, u2)
  {
  }

  /** A free frame becomes a table, or goes to someone else. */
  lemma FrameTaken(all: set<int>, free: set<int>, tables: set<int>, foreign: set<int>, a: int)
    requires Shared(all, free, tables, foreign) && a in free
    ensures Shared(all, free - {a}, tables + {a}, foreign) && Shared(all, free - {a}, tables, foreign + {a})
    ensures a in all && a !in tables && a !in foreign && Count(free) == Count(free - {a}) + 1
  {
  }

  lemma TableIsUsed(all: set<int>, free: set<int>, tables: set<int>, foreign: set<int>, a: int)
    requires Shared(all, free, tables, foreign) && a in tables
    ensures a in all && a !in free && a !in foreign
  {
  }

  /** Free frames go to someone else. */
  lemma FramesTaken(all: set<int>, free: set<int>, tables: set<int>, foreign: set<int>, r: set<int>)
    requires Shared(all, free, tables, foreign) && r <= free
    ensures Shared(all, free - r, tables, foreign + r) && r !! foreign && r <= all
  {
  }

  lemma CountTaken(free: set<int>, a: int, n: nat)
    requires Run(a, n) <= free
    ensures Count(free) == Count(free - Run(a, n)) + n
  {
    hide Run;
    RunSize(a, n);
    assert free == free - Run(a, n) + Run(a, n);
  }

  /** A frame that is in use is freed. */
  lemma FrameGiven(all: set<int>, free: set<int>, tables: set<int>, foreign: set<int>, a: int)
    requires Shared(all, free, tables, foreign)
    ensures a in tables ==> Shared(all, free + {a}, tables - {a}, foreign) && a in all
    ensures a in foreign ==> Shared(all, free + {a}, tables, foreign - {a}) && a in all
  {
  }

  /** The same tables leave the same frames free, one table more leaves one frame less. */
  lemma FreeUnless(all: set<int>, foreign: set<int>, owner0: Owners, owner1: Owners, free0: set<int>, free1: set<int>,
                   stays: bool)
    requires free0 == all - foreign - owner0.Keys && free1 == all - foreign - owner1.Keys
    requires owner1.Keys <= all && owner1.Keys !! foreign && SameTablesUnless(owner0, owner1, stays)
    ensures owner1 == owner0 <==> !stays
    ensures stays ==>
              && free1 != free0
              && exists c :: c !in owner0 && owner1.Keys == owner0.Keys + {c} && c in free0 && free1 == free0 - {c}
    ensures !stays ==> free1 == free0
  {
    if stays {
      var c :| c !in owner0 && owner1.Keys == owner0.Keys + {c};
      assert c in owner1.Keys;
      assert free1 == free0 - {c};
    }
  }

  class PageMap {
    const pmm: Pmm
    /** The address of the first-level table. */
    const l1Table: int
    /** Physical memory. */
    var mem: Memory
    /** Where each table hangs. */
    ghost var owner: Owners

    /** The frames in use that hold no table: those handed out to everyone else. */
    ghost var foreign: set<int>

    /** The tables form a tree, whatever the frame allocator thinks of their frames. */
    ghost predicate Walkable()
      reads pmm.bitmap, this`mem, this`owner
    {
      pmm.Valid() && pmm.All() <= mem.Keys && Tree(l1Table, mem, owner)
    }

    /** Every frame is free, or holds one table of the tree, or is in use elsewhere. */
    ghost predicate Valid()
      reads pmm.bitmap, this`mem, this`owner, this`foreign
    {
      Walkable() && Shared(pmm.All(), pmm.Free(), owner.Keys, foreign)
    }

    ghost function FreeCount(): nat
      requires pmm.Layout()
      reads pmm.bitmap
    {
      Count(pmm.Free())
    }

    ghost function Uses(): Split
      requires pmm.Layout()
      reads pmm.bitmap, this`owner, this`foreign
    {
      Split(pmm.Free(), owner.Keys, foreign)
    }

    /** Tables and other users hold frames of the pool, though perhaps frames that the allocator takes for free. */
    ghost predicate Pooled()
      reads this`owner, this`foreign
    {
      owner.Keys <= pmm.All() && foreign <= pmm.All()
    }

    lemma UsesAre()
      requires pmm.Layout()
      ensures Uses() == Split(pmm.Free(), owner.Keys, foreign)
    {
    }

    lemma PooledParts()
      requires Pooled() && pmm.Layout()
      ensures Uses().tables <= pmm.All() && Uses().foreign <= pmm.All()
    {
    }

    /** The sentinel of `translate` is no frame. */
    lemma SentinelIsNoFrame()
      requires Pooled() && Walkable()
      ensures NO_TRANSLATION !in pmm.All() && NO_TRANSLATION !in foreign
    {
      hide Tree;
      pmm.AddressesAreFrames();
    }

    /** `free_frame` after `unmap`, both of whatever they are given. */
    lemma StillPooled(u0: Split, u1: Split, pa: int)
      requires pmm.Layout() && u0.tables <= pmm.All() && u0.foreign <= pmm.All() && Dropped(pmm.All(), u0, u1)
      requires Uses() == Split(u1.free + {pa} * pmm.All(), u1.tables, u1.foreign - {pa})
      ensures Pooled()
    {
    }

    lemma ValidIsShared()
      requires Walkable()
      ensures Valid() <==> Shared(pmm.All(), Uses().free, Uses().tables, Uses().foreign)
      ensures Valid() ==> Pooled()
    {
    }

    lemma Parts()
      requires Valid()
      ensures pmm.Layout() && pmm.Valid() && pmm.All() <= mem.Keys && owner.Keys <= pmm.All()
      ensures Tree(l1Table, mem, owner) && Shared(pmm.All(), pmm.Free(), owner.Keys, foreign)
      ensures FreeCount() == Count(pmm.Free()) && Walkable() && owner.Keys !! foreign
    {
    }

    lemma WalkableParts()
      requires Walkable()
      ensures pmm.Layout() && pmm.Valid() && pmm.All() <= mem.Keys && Tree(l1Table, mem, owner)
    {
    }

    lemma Whole()
      requires pmm.Valid() && pmm.All() <= mem.Keys
      requires Tree(l1Table, mem, owner) && Shared(pmm.All(), pmm.Free(), owner.Keys, foreign)
      ensures Valid() && FreeCount() == Count(pmm.Free())
    {
    }

    /** `mmu_init`, up to where the first table is installed. */
    constructor (pmm: Pmm, ram: Memory)
      requires pmm.Valid() && pmm.All() <= ram.Keys && pmm.Free() != {}
      modifies pmm.bitmap
      ensures Valid() && this.pmm == pmm && foreign == pmm.All() - old(pmm.Free())
      ensures Empties(l1Table, mem, owner) == {}
      ensures forall v: nat :: Pte(l1Table, mem, v) == 0
    {
      var table := pmm.AllocFrame();
      this.pmm, l1Table, mem, owner := pmm, table, ram, map[table := Root];
      foreign := pmm.All() - old(pmm.Free());
      new;
      pmm.AddressesAreFrames();
      ZeroTable(table);
    }

    /** The loops that zero a new table. */
    method ZeroTable(a: int)
      requires a in mem
      modifies this`mem
      ensures mem == old(mem)[a := EmptyTable()]
    {
      ghost var m := mem;
      for i := 0 to ENTRIES
        invariant a in mem && mem == m[a := mem[a]]
        invariant forall k | 0 <= k < i :: mem[a][k] == 0
      {
        mem := mem[a := mem[a][i := 0]];
      }
      assert mem[a] == EmptyTable();
    }

    method TableIsEmpty(a: int) returns (r: bool)
      requires a in mem
      ensures r == IsEmpty(mem[a])
    {
      for i := 0 to ENTRIES
        invariant forall k | 0 <= k < i :: mem[a][k] == 0
      {
        if mem[a][i] != 0 {
          return false;
        }
      }
      return true;
    }

    /** The address of the table below an entry, 0 when a new one is needed and no frame is free. */
    method GetOrAllocTable(table: int, index: nat) returns (child: int)
      requires Valid() && table in owner && owner[table].Level() < 2 && index < ENTRIES
      modifies pmm.bitmap, this`mem, this`owner
      ensures Valid() && Keeps(old(owner), owner)
      ensures SameWalks(l1Table, old(mem), mem)
      ensures child == 0 ==> mem == old(mem) && owner == old(owner) && FreeCount() == old(FreeCount()) == 0
      ensures child != 0 ==> child == Next(mem, table, index) && owner.Keys == old(owner.Keys) + {child}
      ensures child != 0 ==> owner[child].Level() == old(owner[table].Level()) + 1
      ensures child != 0 ==>
                Empties(l1Table, mem, owner) <= old(Empties(l1Table, mem, owner)) - {table} + {child}
      ensures forall a | a in old(owner) && a != table :: mem[a] == old(mem)[a]
      ensures SameFrames(foreign, old(mem), mem)
      ensures if old(Next(mem, table, index)) != 0 then
                child != 0 && mem == old(mem) && owner == old(owner) && FreeCount() == old(FreeCount())
              else if child != 0 then
                && Hung(old(mem), old(owner), mem, table, index, child) && FreeCount() + 1 == old(FreeCount())
                && child !in old(owner)
                && owner == old(owner)[child := Child(old(owner[table].Level()) + 1, table, index)]
              else
                mem == old(mem) && FreeCount() == old(FreeCount()) == 0
    {
      hide *;
      Parts();
      TablesInMemory();
      var entry := mem[table][index];
      ValidBit(l1Table, mem, owner, table, index);
      SameWalksAsBefore(l1Table, mem, owner);
      SameFramesAsBefore(foreign, mem);
      if entry % 2 == 1 {
        HasEntry(l1Table, mem, owner, table, index);
        return Target(entry);
      }
      child := HangTable(table, index);
    }

    /** `alloc_frame`, by its effect on the set of free frames. */
    method NewFrame() returns (a: nat)
      requires pmm.Valid()
      modifies pmm.bitmap
      ensures pmm.Valid()
      ensures a == 0 <==> Count(old(pmm.Free())) == 0
      ensures a == 0 ==> pmm.Free() == old(pmm.Free())
      ensures a != 0 ==> a in old(pmm.Free()) && pmm.Free() == old(pmm.Free()) - {a}
      ensures a != 0 ==> IsFrameAddress(a) && IsAligned(a) && a < PHYS_LIMIT
    {
      hide Pmm.Valid, Pmm.Free, Pmm.Bits, Pmm.All, LowestRun, IsRun;
      pmm.ValidLayout();
      pmm.AddressesAreFrames();
      var addr := pmm.AllocFrame();
      assert addr != 0 ==> addr in pmm.All();
      return addr;
    }

    /** A new table below an entry that is zero. */
    method HangTable(table: int, index: nat) returns (child: int)
      requires Valid() && table in owner && owner[table].Level() < 2 && index < ENTRIES && mem[table][index] == 0
      modifies pmm.bitmap, this`mem, this`owner
      ensures Valid() && Keeps(old(owner), owner)
      ensures SameWalks(l1Table, old(mem), mem)
      ensures child == 0 ==> mem == old(mem) && owner == old(owner) && FreeCount() == old(FreeCount()) == 0
      ensures child != 0 ==> child == Next(mem, table, index) && owner.Keys == old(owner.Keys) + {child}
      ensures child != 0 ==> owner[child].Level() == old(owner[table].Level()) + 1
      ensures child != 0 ==>
                Empties(l1Table, mem, owner) <= old(Empties(l1Table, mem, owner)) - {table} + {child}
      ensures forall a | a in old(owner) && a != table :: mem[a] == old(mem)[a]
      ensures SameFrames(foreign, old(mem), mem)
      ensures child != 0 ==> Hung(old(mem), old(owner), mem, table, index, child) && FreeCount() + 1 == old(FreeCount())
      ensures child != 0 ==>
                child !in old(owner) && owner == old(owner)[child := Child(old(owner[table].Level()) + 1, table, index)]
    {
      hide *;
      Parts();
      ghost var m, own, free := mem, owner, pmm.Free();
      child := NewFrame();
      if child == 0 {
        SameWalksAsBefore(l1Table, m, own);
        SameFramesAsBefore(foreign, m);
        Whole();
        return;
      }
      FrameTaken(pmm.All(), free, owner.Keys, foreign, child);
      TableIsUsed(pmm.All(), free, owner.Keys, foreign, table);
      AddTable(l1Table, m, own, table, index, child);
      BesideTwo(foreign, m, table, m[table][index := child + 3], child, EmptyTable());
      ZeroTable(child);
      mem := mem[table := mem[table][index := child + 3]];
      owner := owner[child := Child(owner[table].Level() + 1, table, index)];
      assert owner.Keys == own.Keys + {child};
      Whole();
    }

    /**
      * The third-level table for page `v`, 0 when a table is needed and no frame is free. Just the tables are made that
      * were missing for this page; when it gets stuck, the last free frame has gone into a table that nothing hangs in.
      */
    method ReachTable(v: nat) returns (l3: int)
      requires Valid() && v < PAGES
      modifies pmm.bitmap, this`mem, this`owner
      ensures Valid() && Keeps(old(owner), owner)
      ensures SameWalks(l1Table, old(mem), mem) && SameFrames(foreign, old(mem), mem)
      ensures l3 != 0 ==> var l2 := Next(mem, l1Table, Index1(v)); l2 != 0 && l3 == Next(mem, l2, Index2(v))
      ensures l3 != 0 ==> Empties(l1Table, mem, owner) <= old(Empties(l1Table, mem, owner)) + {l3}
      ensures l3 != 0 ==> TablesMade(l1Table, old(mem), mem, v, 1)
      ensures l3 != 0 ==> FreeCount() == old(FreeCount()) - TablesMissing(l1Table, old(mem), v, 1)
      ensures l3 == 0 ==> old(FreeCount()) < TablesMissing(l1Table, old(mem), v, 1) && FreeCount() == 0
      ensures l3 == 0 ==> PageFailed(l1Table, old(mem), old(owner), mem, owner, v, old(FreeCount()) == 1)
    {
      hide *;
      ghost var m0, owner0 := mem, owner;
      Parts();
      TablesInMemory();
      OnePageMisses(l1Table, m0, v);
      NothingToMake(l1Table, m0, v);
      LastTableIs(v);
      NothingMade(l1Table, m0, owner0, v);
      var l2 := GetOrAllocTable(l1Table, Index1(v));
      if l2 == 0 {
        return 0;
      }
      ghost var m1, owner1 := mem, owner;
      if Next(m0, l1Table, Index1(v)) == 0 {
        HungMakes2(l1Table, m0, owner0, m1, v, l2);
      }
      Parts();
      TablesInMemory();
      LastTableIs(v);
      NothingToMake(l1Table, m1, v);
      l3 := GetOrAllocTable(l2, Index2(v));
      if Next(m1, l2, Index2(v)) == 0 && l3 != 0 {
        HungMakes3(l1Table, m1, owner1, mem, v, l2, l3);
      }
      Parts();
      TablesInMemory();
      NextAsBefore(m1, mem, l1Table, Index1(v));
      KeepsOn(owner0, owner1, owner);
      SameWalksOn(l1Table, m0, m1, mem);
      SameFramesOn(foreign, m0, m1, mem);
      Made2Keeps(l1Table, m0, m1, v);
      if l3 != 0 {
        BothMade(l1Table, m0, m1, mem, v);
      } else if Next(m0, l1Table, Index1(v)) == 0 {
        OneMadeInVain(l1Table, m0, owner0, mem, owner, v, l2);
      }
    }

    lemma LastTableIs(v: nat)
      ensures var l2 := Next(mem, l1Table, Index1(v));
              LastTable(l1Table, mem, v) == if l2 == 0 then 0 else Next(mem, l2, Index2(v))
    {
    }

    lemma TablesInMemory()
      requires Walkable()
      ensures l1Table in owner && owner[l1Table].Level() == 0
      ensures l1Table !in Empties(l1Table, mem, owner)
      ensures forall a | a in owner :: a in mem && IsFrameAddress(a)
    {
      RootOfTree(l1Table, mem, owner);
    }

    /** One pass of the first loop of `map`: `ok` is false when a table is needed and no frame is free. */
    method MapPage(v: nat, phys: nat, flags: nat) returns (ok: bool)
      requires Valid() && v < PAGES && IsAligned(phys) && flags < 4096
      modifies pmm.bitmap, this`mem, this`owner
      ensures Valid() && Keeps(old(owner), owner) && SameFrames(foreign, old(mem), mem)
      ensures ok ==> Written(l1Table, old(mem), mem, v, PageDescriptor(phys, flags))
      ensures ok ==> Empties(l1Table, mem, owner) <= old(Empties(l1Table, mem, owner))
      ensures ok ==> TablesMade(l1Table, old(mem), mem, v, 1)
      ensures ok ==> FreeCount() == old(FreeCount()) - TablesMissing(l1Table, old(mem), v, 1)
      ensures !ok ==> SameWalks(l1Table, old(mem), mem) && FreeCount() == 0
      ensures !ok ==> old(FreeCount()) < TablesMissing(l1Table, old(mem), v, 1)
      ensures !ok ==> PageFailed(l1Table, old(mem), old(owner), mem, owner, v, old(FreeCount()) == 1)
    {
      hide *;
      ghost var m0 := mem;
      var l3 := ReachTable(v);
      if l3 == 0 {
        return false;
      }
      ghost var m1 := mem;
      Parts();
      WritePte(v, l3, PageDescriptor(phys, flags));
      WrittenAfterSame(l1Table, m0, m1, mem, v, PageDescriptor(phys, flags));
      BesideTables(owner, foreign, m1, mem);
      SameFramesOn(foreign, m0, m1, mem);
      MadeThenWritten(l1Table, m0, m1, owner, mem, v);
      return true;
    }

    /** `l3_table[L3_INDEX] = desc`. */
    method WritePte(v: nat, l3: int, desc: nat)
      requires Walkable() && v < PAGES && (desc == 0 || IsLive(desc))
      requires var l2 := Next(mem, l1Table, Index1(v)); l2 != 0 && l3 == Next(mem, l2, Index2(v)) != 0
      modifies this`mem
      ensures Walkable() && (old(Valid()) ==> Valid())
      ensures Written(l1Table, old(mem), mem, v, desc) && SameSteps(old(mem), owner, mem)
      ensures Empties(l1Table, mem, owner) <= old(Empties(l1Table, mem, owner)) + {l3}
      ensures desc != 0 ==> l3 !in Empties(l1Table, mem, owner)
      ensures OnlyTables(owner, old(mem), mem)
    {
      hide Tree, Next, Empties, Written, Index1, Index2, SameSteps;
      WriteOnePage(l1Table, mem, owner, v, desc);
      TablesInMemory();
      mem := mem[l3 := mem[l3][Index3(v) := desc]];
    }

    /** An empty table is taken off its parent and its frame is freed. */
    method ReleaseIfEmpty(parent: int, index: nat, table: int)
      requires Walkable() && table in owner && owner[table].Child?
      requires owner[table].parent == parent && owner[table].index == index
      modifies pmm.bitmap, this`mem, this`owner
      ensures Walkable() && (old(Valid()) ==> Valid()) && SameWalks(l1Table, old(mem), mem)
      ensures Dropped(pmm.All(), old(Uses()), Uses())
      ensures owner == old(owner) || owner == old(owner) - {table}
      ensures Released(old(mem), mem, parent, index, table)
      ensures Empties(l1Table, mem, owner) <= old(Empties(l1Table, mem, owner)) - {table} + {parent}
      ensures OnlyTables(old(owner), old(mem), mem)
    {
      hide *;
      WalkableParts();
      TablesInMemory();
      PlaceOf(l1Table, mem, owner, table);
      SameWalksAsBefore(l1Table, mem, owner);
      NoneWritten(owner, mem);
      NoneDropped(pmm.All(), Uses());
      var empty := TableIsEmpty(table);
      if empty {
        ghost var m, own, u0 := mem, owner, Uses();
        UsesAre();
        ValidIsShared();
        DropTable(l1Table, mem, owner, table);
        DropWrites(own, m, parent, index);
        mem := mem[parent := mem[parent][index := 0]];
        ReleasedIs(m, mem, parent, index, table);
        owner := owner - {table};
        pmm.FreeFrame(table);
        WholeTree();
        UsesAre();
        ValidIsShared();
        TableDropped(pmm.All(), own, table, u0, Uses());
      } else {
        ReleasedIs(mem, mem, parent, index, table);
        NotEmpty(l1Table, mem, owner, table);
      }
    }

    lemma WholeTree()
      requires pmm.Valid() && pmm.All() <= mem.Keys && Tree(l1Table, mem, owner)
      ensures Walkable() && pmm.Layout()
    {
    }

    /** One pass of the loop of `_unmap_locked`: `found` is false where the loop ends early. */
    method UnmapPage(v: nat) returns (found: bool)
      requires Walkable() && v < PAGES
      modifies pmm.bitmap, this`mem, this`owner
      ensures Walkable() && (old(Valid()) ==> Valid())
      ensures Keeps(owner, old(owner)) && OnlyTables(old(owner), old(mem), mem)
      ensures Empties(l1Table, mem, owner) <= old(Empties(l1Table, mem, owner))
      ensures Spares(old(owner), owner, v, 1) && Dropped(pmm.All(), old(Uses()), Uses())
      ensures found ==> Written(l1Table, old(mem), mem, v, 0)
      ensures !found ==> mem == old(mem) && owner == old(owner) && Pte(l1Table, mem, v) == 0
      ensures found <==> LastTable(l1Table, old(mem), v) != 0
      ensures found ==> TablesLeft(l1Table, old(mem), mem, v, 1)
    {
      hide *;
      SameWalksAsBefore(l1Table, mem, owner);
      NotReached(l1Table, mem, v);
      LastTableIs(v);
      TablesInMemory();
      StepDownHere(l1Table, Index1(v));
      NoneWritten(owner, mem);
      SparesAll(owner, v);
      SparesMore(owner, owner, v, 0, 1);
      WalkableParts();
      NoneDropped(pmm.All(), Uses());
      var l1Desc := mem[l1Table][Index1(v)];
      if !IsLive(l1Desc) {
        return false;
      }
      var l2 := Target(l1Desc);
      StepDownHere(l2, Index2(v));
      var l2Desc := mem[l2][Index2(v)];
      if !IsLive(l2Desc) {
        return false;
      }
      var l3 := Target(l2Desc);
      ghost var m0, owner0 := mem, owner;
      WritePte(v, l3, 0);
      ghost var m1 := mem;
      WalkableParts();
      ghost var u0 := Uses();
      ReleaseIfEmpty(l2, Index2(v), l3);
      WalkableParts();
      ghost var m2, owner2, u2 := mem, owner, Uses();
      ReleaseIfEmpty(l1Table, Index1(v), l2);
      WalkableParts();
      DroppedOn(pmm.All(), u0, u2, Uses());
      TablesInMemory();
      SameWalksOn(l1Table, m1, m2, mem);
      SameAfterWritten(l1Table, m0, m1, mem, v, 0);
      KeepsAfterDrop(owner0, owner2, l2, l3);
      KeepsAfterDrop(owner0, owner, l2, l3);
      SparesAfterDrop(owner0, owner, v, l2, l3);
      OnlyTablesOn(owner0, owner0, m0, m1, m2);
      OnlyTablesOn(owner0, owner2, m0, m2, mem);
      PageTablesLeft(l1Table, m0, owner0, m1, m2, owner2, mem, v, l2, l3);
      return true;
    }

    lemma LastStepHere(v: nat, l2: int, l3: int)
      requires Walkable() && l2 == Next(mem, l1Table, Index1(v)) != 0 && l3 == Next(mem, l2, Index2(v)) != 0
      ensures l3 in mem && Pte(l1Table, mem, v) == mem[l3][Index3(v)]
      ensures Pte(l1Table, mem, v) == 0 <==> !IsLive(mem[l3][Index3(v)])
    {
      LastStep(l1Table, mem, owner, v, l2, l3);
    }

    lemma StepDownHere(a: int, k: nat)
      requires Walkable() && a in owner && owner[a].Level() < 2 && k < ENTRIES
      ensures a in mem
      ensures if IsLive(mem[a][k]) then
                var c := Target(mem[a][k]);
                && c == Next(mem, a, k) && c != 0 && c in owner && c in mem
                && owner[c] == Child(owner[a].Level() + 1, a, k) && owner[c].Level() == owner[a].Level() + 1
              else Next(mem, a, k) == 0
    {
      TablesInMemory();
      StepDown(l1Table, mem, owner, a, k);
    }

    /**
      * `_unmap_locked`: the pages are cleared up to the first one that has no table any more, which is told by what was
      * mapped before (`StopsAt`), in particular all of them when all of them were mapped. Just the third-level tables
      * are freed in which no page is mapped any more.
      */
    method UnmapLocked(va: nat, size: nat)
      requires Walkable() && Page(va) + Page(size) <= PAGES
      modifies pmm.bitmap, this`mem, this`owner
      ensures Walkable() && (old(Valid()) ==> Valid())
      ensures Keeps(owner, old(owner)) && OnlyTables(old(owner), old(mem), mem)
      ensures Spares(old(owner), owner, Page(va), Page(size)) && Dropped(pmm.All(), old(Uses()), Uses())
      ensures Empties(l1Table, mem, owner) <= old(Empties(l1Table, mem, owner))
      ensures ClearedUpTo(l1Table, old(mem), mem, Page(va), Page(size))
      ensures IsMapped(l1Table, old(mem), Page(va), Page(size)) ==>
                Cleared(l1Table, old(mem), mem, Page(va), Page(size))
    {
      hide *;
      WalkableParts();
      ghost var m0, owner0 := mem, owner;
      ghost var v := Page(va);
      var numPages := Page(size);
      ClearedNothing(l1Table, mem, v);
      SameWalksAsBefore(l1Table, mem, owner);
      NoneWritten(owner, mem);
      SparesAll(owner, v);
      NoTableLess(l1Table, mem, v);
      ghost var u0 := Uses();
      NoneDropped(pmm.All(), u0);
      for i := 0 to numPages
        invariant Walkable() && (old(Valid()) ==> Valid())
        invariant Keeps(owner, owner0) && OnlyTables(owner0, m0, mem) && Spares(owner0, owner, v, i)
        invariant pmm.Layout() && Dropped(pmm.All(), u0, Uses())
        invariant Empties(l1Table, mem, owner) <= Empties(l1Table, m0, owner0)
        invariant Cleared(l1Table, m0, mem, v, i) && TablesLeft(l1Table, m0, mem, v, i)
        invariant forall j: nat | j < i :: !StopsAt(l1Table, m0, v, j)
      {
        PageOf(va, i);
        ghost var m1, owner1, u1 := mem, owner, Uses();
        var found := UnmapPage(Page(va + i * 4096));
        WalkableParts();
        DroppedOn(pmm.All(), u0, u1, Uses());
        if !found {
          assert mem == m1;
          StoppedAt(l1Table, m0, mem, v, numPages, i);
          SparesMore(owner0, owner, v, i, numPages);
          return;
        }
        SparesOn(owner0, owner1, owner, v, i);
        KeepsOn(owner, owner1, owner0);
        OnlyTablesOn(owner0, owner1, m0, m1, mem);
        OneTableLess(l1Table, m0, m1, mem, v, i);
        ClearedOneMore(l1Table, m0, m1, mem, v, i);
      }
      ClearedAll(l1Table, m0, mem, v, numPages);
    }

    /** `unmap`: it writes tables of the tree only, so what other frames hold stays. */
    method Unmap(va: nat, size: nat)
      requires Walkable() && Page(va) + Page(size) <= PAGES
      modifies pmm.bitmap, this`mem, this`owner
      ensures Walkable() && Keeps(owner, old(owner)) && OnlyTables(old(owner), old(mem), mem)
      ensures Dropped(pmm.All(), old(Uses()), Uses())
      ensures old(Valid()) ==> Valid() && SameFrames(foreign, old(mem), mem)
      ensures Empties(l1Table, mem, owner) <= old(Empties(l1Table, mem, owner))
      ensures ClearedUpTo(l1Table, old(mem), mem, Page(va), Page(size))
      ensures IsMapped(l1Table, old(mem), Page(va), Page(size)) ==>
                Cleared(l1Table, old(mem), mem, Page(va), Page(size))
    {
      hide *;
      ghost var m0, owner0, valid := mem, owner, Valid();
      if valid {
        Parts();
      }
      WalkableParts();
      UnmapLocked(va, size);
      if valid {
        BesideTables(owner0, foreign, m0, mem);
      }
    }

    /** The failing exits of `map`: the `i` pages mapped so far are cleared again. */
    method UndoMap(ghost m0: Memory, ghost owner0: Owners, ghost m1: Memory, ghost owner1: Owners,
                   va: nat, i: nat, n: nat, phys: nat, flags: nat, ghost made: bool)
      requires Valid() && Page(va) + n <= PAGES && i < n && IsAligned(phys) && flags < 4096
      requires Tree(l1Table, m0, owner0) && TablesMade(l1Table, m0, m1, Page(va), i)
      requires Built(l1Table, m0, owner0, m1, owner1, Page(va), i, phys, flags) && SameWalks(l1Table, m1, mem)
      requires PageFailed(l1Table, m1, owner1, mem, owner, Page(va) + i, made) && SameFrames(foreign, m0, mem)
      modifies pmm.bitmap, this`mem, this`owner
      ensures Valid() && SameFrames(foreign, m0, mem)
      ensures Undone(l1Table, m0, owner0, mem, owner, Page(va), n, made)
    {
      hide *;
      Parts();
      ghost var m2, owner2 := mem, owner;
      PageOf(va, i);
      BuiltIsMapped(l1Table, m0, owner0, m1, owner1, Page(va), i, phys, flags);
      MappedThenCleared(l1Table, m0, m1, mem, mem, Page(va), i, phys, flags);
      UnmapLocked(va, i * 4096);
      MappedThenCleared(l1Table, m0, m1, m2, mem, Page(va), i, phys, flags);
      Parts();
      LeftAfterUndo(l1Table, m0, owner0, m1, owner1, m2, owner2, mem, owner, Page(va), i, made);
      BesideTables(owner2, foreign, m2, mem);
      SameFramesOn(foreign, m0, m2, mem);
      UndoneIs(l1Table, m0, owner0, mem, owner, Page(va), n, i, made);
    }

    /** Page `i` of a call of `map`. */
    method MapOrUndo(ghost m0: Memory, ghost owner0: Owners, va: nat, i: nat, n: nat, phys: nat, flags: nat)
      returns (ok: bool)
      requires Valid() && Page(va) + n <= PAGES && i < n && IsAligned(phys) && flags < 4096
      requires Tree(l1Table, m0, owner0) && TablesMade(l1Table, m0, mem, Page(va), i)
      requires Built(l1Table, m0, owner0, mem, owner, Page(va), i, phys, flags) && SameFrames(foreign, m0, mem)
      modifies pmm.bitmap, this`mem, this`owner
      ensures Valid() && SameFrames(foreign, m0, mem)
      ensures ok ==> Built(l1Table, m0, owner0, mem, owner, Page(va), i + 1, phys, flags)
      ensures ok ==> TablesMade(l1Table, old(mem), mem, Page(va) + i, 1)
      ensures ok ==> FreeCount() == old(FreeCount()) - TablesMissing(l1Table, old(mem), Page(va) + i, 1)
      ensures !ok ==> Undone(l1Table, m0, owner0, mem, owner, Page(va), n, old(FreeCount()) == 1)
      ensures !ok ==> old(FreeCount()) < TablesMissing(l1Table, old(mem), Page(va) + i, 1)
    {
      hide *;
      Parts();
      PageOf(va, i);
      ghost var m1, owner1, free1 := mem, owner, FreeCount();
      ok := MapPage(Page(va + i * 4096), FrameAt(phys, i), flags);
      SameFramesOn(foreign, m0, m1, mem);
      if !ok {
        UndoMap(m0, owner0, m1, owner1, va, i, n, phys, flags, free1 == 1);
        return;
      }
      BuiltOneMore(l1Table, m0, owner0, m1, owner1, mem, owner, Page(va), i, phys, flags);
    }

    /**
      * `map`: all pages or none. It succeeds exactly when the tables that are missing for the pages are at most as many
      * as the free frames, of which it takes just these; two for each page are always enough. Each page then has a
      * descriptor of its frame's address, the flags and the two low bits (`Described`). A failed call leaves one new
      * table, with nothing in it, exactly when it got stuck with one frame left at a page that misses both tables;
      * pages that were mapped before the call may be gone.
      */
    method Map(va: nat, phys: nat, size: nat, flags: nat) returns (ok: bool)
      requires Valid() && Page(va) + Page(size) <= PAGES && IsAligned(phys) && flags < 4096
      modifies pmm.bitmap, this`mem, this`owner
      ensures Valid() && SameFrames(foreign, old(mem), mem)
      ensures ok <==> TablesMissing(l1Table, old(mem), Page(va), Page(size)) <= old(FreeCount())
      ensures ok ==> Built(l1Table, old(mem), old(owner), mem, owner, Page(va), Page(size), phys, flags)
      ensures ok ==> Described(l1Table, mem, Page(va), Page(size), phys, flags)
      ensures ok ==> FreeCount() == old(FreeCount()) - TablesMissing(l1Table, old(mem), Page(va), Page(size))
      ensures ok ==> TablesMade(l1Table, old(mem), mem, Page(va), Page(size))
      ensures TablesMissing(l1Table, old(mem), Page(va), Page(size)) <= 2 * Page(size)
      ensures !ok ==>
                Undone(l1Table, old(mem), old(owner), mem, owner, Page(va), Page(size),
                       TableStays(l1Table, old(mem), Page(va), Page(size), old(FreeCount())))
    {
      hide *;
      Parts();
      ghost var m0, owner0 := mem, owner;
      var numPages := Page(size);
      BuiltNothing(l1Table, mem, owner, Page(va), phys, flags);
      SameFramesAsBefore(foreign, mem);
      NoTablesMade(l1Table, mem, Page(va));
      MissingAtMost(l1Table, mem, Page(va), numPages);
      for i := 0 to numPages
        invariant Valid() && Built(l1Table, m0, owner0, mem, owner, Page(va), i, phys, flags)
        invariant SameFrames(foreign, m0, mem)
        invariant TablesMade(l1Table, m0, mem, Page(va), i)
        invariant FreeCount() == old(FreeCount()) - TablesMissing(l1Table, m0, Page(va), i)
      {
        ghost var m1 := mem;
        OneMoreMissing(l1Table, m0, m1, Page(va), i);
        MorePagesMissMore(l1Table, m0, Page(va), i + 1, numPages);
        var mapped := MapOrUndo(m0, owner0, va, i, numPages, phys, flags);
        if !mapped {
          MissingAtMost(l1Table, m1, Page(va) + i, 1);
          StaysWhereStopped(l1Table, m0, Page(va), numPages, i, old(FreeCount()));
          return false;
        }
        OneMoreMade(l1Table, m0, m1, mem, Page(va), i);
      }
      BuiltIsMapped(l1Table, m0, owner0, mem, owner, Page(va), numPages, phys, flags);
      MappedDescribed(l1Table, m0, mem, Page(va), numPages, phys, flags);
      return true;
    }

    /** `translate`, which looks at the index bits of the address only. */
    method Translate(virt: nat) returns (pa: nat)
      requires Walkable()
      ensures pa == Translation(l1Table, mem, virt)
    {
      hide *;
      var v := Page(virt);
      NotReached(l1Table, mem, v);
      TablesInMemory();
      StepDownHere(l1Table, Index1(v));
      var l1Desc := mem[l1Table][Index1(v)];
      if !IsLive(l1Desc) {
        TranslationIs(l1Table, mem, virt);
        return NO_TRANSLATION;
      }
      var l2 := Target(l1Desc);
      StepDownHere(l2, Index2(v));
      var l2Desc := mem[l2][Index2(v)];
      if !IsLive(l2Desc) {
        TranslationIs(l1Table, mem, virt);
        return NO_TRANSLATION;
      }
      var l3 := Target(l2Desc);
      LastStepHere(v, l2, l3);
      var l3Desc := mem[l3][Index3(v)];
      TranslationIs(l1Table, mem, virt);
      if !IsLive(l3Desc) {
        return NO_TRANSLATION;
      }
      return Target(l3Desc) + virt % 4096;
    }

    /**
      * `map` and `unmap` of a range that was not mapped, on a tree without empty tables:
      * every translation, every table and the exact bitmap of the frame allocator come back. They do after a failed
      * `map` as well, if and only if no table stays; else just that table and its frame are lost.
      */
    method MapAndUnmap(va: nat, phys: nat, size: nat, flags: nat) returns (ok: bool)
      requires Valid() && Page(va) + Page(size) <= PAGES && IsAligned(phys) && flags < 4096
      requires IsUnmapped(l1Table, mem, Page(va), Page(size)) && Empties(l1Table, mem, owner) == {}
      modifies pmm.bitmap, this`mem, this`owner
      ensures Valid() && SamePtes(l1Table, old(mem), mem)
      ensures ok ==> owner == old(owner) && pmm.Bits() == old(pmm.Bits())
      ensures !ok ==> AsBeforeUnless(old(owner), old(pmm.Bits()),
                                     TableStays(l1Table, old(mem), Page(va), Page(size), old(FreeCount())))
    {
      hide *;
      Parts();
      ghost var m0, owner0, bits0 := mem, owner, pmm.Bits();
      IsTree();
      ghost var stays := TableStays(l1Table, m0, Page(va), Page(size), FreeCount());
      ok := Map(va, phys, size, flags);
      if !ok {
        UndoneUnmapped(l1Table, m0, owner0, mem, owner, Page(va), Page(size), stays);
        TablesAfterUndone(l1Table, m0, owner0, mem, owner, Page(va), Page(size), stays);
        AsBeforeIs(owner0, bits0, stays);
        return;
      }
      ghost var m1, owner1 := mem, owner;
      IsTree();
      Parts();
      BuiltIsMapped(l1Table, m0, owner0, mem, owner, Page(va), Page(size), phys, flags);
      Unmap(va, size);
      IsTree();
      MapThenUnmap(l1Table, m0, owner0, m1, owner1, mem, owner, Page(va), Page(size), phys, flags);
      FreeDeterminesBits(bits0, pmm.Bits(), pmm.physMemStart);
    }

    /**
      * No upper-level descriptor dangles: the table it leads to is a frame that is in use, that nobody else holds,
      * and that no other descriptor leads to.
      */
    lemma NoDanglingDescriptor(a: int, k: nat, b: int, l: nat)
      requires Valid() && a in owner && owner[a].Level() < 2 && k < ENTRIES && Next(mem, a, k) != 0
      requires b in owner && owner[b].Level() < 2 && l < ENTRIES
      ensures var c := Next(mem, a, k); c in owner && c in pmm.All() && c !in pmm.Free() && c !in foreign
      ensures Next(mem, b, l) == Next(mem, a, k) ==> b == a && l == k
    {
      hide *;
      Parts();
      OneDescriptorEach(l1Table, mem, owner, a, k, b, l);
      TableIsUsed(pmm.All(), pmm.Free(), owner.Keys, foreign, Next(mem, a, k));
    }

    /** The tables and the free frames are as before, unless `stays`: then one table more holds one frame more. */
    ghost predicate AsBeforeUnless(owner0: Owners, bits0: seq<bool>, stays: bool)
      requires pmm.Layout()
      reads pmm.bitmap, this`owner
    {
      && (owner == owner0 <==> !stays) && (pmm.Bits() == bits0 <==> !stays)
      && (stays ==> exists c :: c !in owner0 && owner.Keys == owner0.Keys + {c}
                                && c in FreeOf(bits0, pmm.physMemStart)
                                && pmm.Free() == FreeOf(bits0, pmm.physMemStart) - {c})
    }

    lemma AsBeforeIs(owner0: Owners, bits0: seq<bool>, stays: bool)
      requires Valid() && |bits0| == pmm.totalFrames && owner0.Keys <= pmm.All() && owner0.Keys !! foreign
      requires FreeOf(bits0, pmm.physMemStart) == pmm.All() - foreign - owner0.Keys
      requires SameTablesUnless(owner0, owner, stays)
      ensures AsBeforeUnless(owner0, bits0, stays)
    {
      hide *;
      Parts();
      IsTree();
      FreeUnless(pmm.All(), foreign, owner0, owner, FreeOf(bits0, pmm.physMemStart), pmm.Free(), stays);
      if !stays {
        FreeDeterminesBits(bits0, pmm.Bits(), pmm.physMemStart);
      }
      AsBeforeWhole(owner0, bits0, stays);
    }

    lemma AsBeforeWhole(owner0: Owners, bits0: seq<bool>, stays: bool)
      requires pmm.Layout() && (owner == owner0 <==> !stays) && (!stays ==> pmm.Bits() == bits0)
      requires FreeOf(pmm.Bits(), pmm.physMemStart) == pmm.Free()
      requires stays ==> pmm.Free() != FreeOf(bits0, pmm.physMemStart)
      requires stays ==> exists c :: c !in owner0 && owner.Keys == owner0.Keys + {c}
                                     && c in FreeOf(bits0, pmm.physMemStart)
                                     && pmm.Free() == FreeOf(bits0, pmm.physMemStart) - {c}
      ensures AsBeforeUnless(owner0, bits0, stays)
    {
    }

    /** The tree, and the free frames as those of the pool that hold no table. */
    lemma IsTree()
      requires Valid()
      ensures Tree(l1Table, mem, owner)
      ensures FreeOf(pmm.Bits(), pmm.physMemStart) == pmm.Free() == pmm.All() - foreign - owner.Keys
      ensures |pmm.Bits()| == pmm.totalFrames
    {
    }

    /** `alloc_frame` as its other callers see it. */
    method TakeFrame() returns (pa: nat)
      requires Valid()
      modifies pmm.bitmap, this`foreign
      ensures Valid() && (pa == 0 <==> old(FreeCount()) == 0)
      ensures pa == 0 ==> foreign == old(foreign)
      ensures pa != 0 ==> IsAligned(pa) && pa < PHYS_LIMIT && pa !in old(foreign) && foreign == old(foreign) + {pa}
      ensures FreeCount() == if pa == 0 then 0 else old(FreeCount()) - 1
    {
      hide *;
      Parts();
      ghost var free := pmm.Free();
      pa := NewFrame();
      if pa != 0 {
        FrameTaken(pmm.All(), free, owner.Keys, foreign, pa);
        foreign := foreign + {pa};
      }
      Whole();
    }

    /** `alloc_frames` by its effect on the set of free frames. */
    method NewFrames(count: nat) returns (a: nat)
      requires pmm.Valid()
      modifies pmm.bitmap
      ensures pmm.Valid()
      ensures a == 0 <==> NoRun(old(pmm.Bits()), count)
      ensures a == 0 ==> pmm.Free() == old(pmm.Free())
      ensures a != 0 ==> Run(a, count) <= old(pmm.Free()) && pmm.Free() == old(pmm.Free()) - Run(a, count)
      ensures a != 0 ==> count > 0 && IsAligned(a) && a + count * 4096 <= PHYS_LIMIT
    {
      hide Pmm.Valid, Pmm.Bits, Pmm.All, Pmm.Free, LowestRun, IsRun, NoRun, Run;
      pmm.ValidLayout();
      pmm.AddressesAreFrames();
      var addr := pmm.AllocFrames(count);
      if addr == 0 {
        return 0;
      }
      InRun(addr, count, 0);
      InRun(addr, count, count - 1);
      return addr;
    }

    /** `alloc_frames` as its callers see it. */
    method TakeFrames(count: nat) returns (pa: nat)
      requires Valid()
      modifies pmm.bitmap, this`foreign
      ensures Valid()
      ensures pa == 0 <==> NoRun(old(pmm.Bits()), count)
      ensures pa == 0 ==> foreign == old(foreign) && FreeCount() == old(FreeCount())
      ensures pa != 0 ==> FreeCount() == old(FreeCount()) - count
      ensures pa != 0 ==> Run(pa, count) !! old(foreign) && foreign == old(foreign) + Run(pa, count)
      ensures pa != 0 ==> count > 0 && IsAligned(pa) && pa + count * 4096 <= PHYS_LIMIT
    {
      hide *;
      Parts();
      ghost var free := pmm.Free();
      pa := NewFrames(count);
      if pa != 0 {
        FramesTaken(pmm.All(), free, owner.Keys, foreign, Run(pa, count));
        CountTaken(free, pa, count);
        foreign := foreign + Run(pa, count);
      }
      Whole();
    }

    /** `free_frame`; it is right for a frame that is in use elsewhere. */
    method GiveFrame(pa: nat)
      requires Walkable()
      modifies pmm.bitmap, this`foreign
      ensures Walkable() && foreign == old(foreign) - {pa} && pmm.Free() == old(pmm.Free()) + {pa} * pmm.All()
      ensures old(Valid()) && pa in old(foreign) ==> Valid()
    {
      hide Tree, Shared, Pmm.Free;
      if Shared(pmm.All(), pmm.Free(), owner.Keys, foreign) {
        FrameGiven(pmm.All(), pmm.Free(), owner.Keys, foreign, pa);
      }
      pmm.FreeFrame(pa);
      foreign := foreign - {pa};
    }
  }
}
