/** Three levels of translation tables as values: what one descriptor write does to the tree and to translation. */
module PageTables {
  const ENTRIES: nat := 512
  const PHYS_LIMIT: nat := 0x1_0000_0000_0000
  const PAGES: nat := 0x800_0000

  /** A table is a frame of 512 descriptors. */
  type Table = t: seq<nat> | |t| == ENTRIES witness seq(ENTRIES, _ => 0)

  /** Physical memory, frame by frame. */
  type Memory = map<int, Table>

  function EmptyTable(): (t: Table)
    ensures IsEmpty(t)
  {
    seq(ENTRIES, _ => 0)
  }

  /** The page that an address lies in, and the number of pages in a size. */
  function Page(a: nat): nat {
    a / 4096
  }

  predicate IsAligned(a: nat) {
    a % 4096 == 0
  }

  predicate IsEmpty(t: Table) {
    forall k | 0 <= k < ENTRIES :: t[k] == 0
  }

  predicate IsFrameAddress(a: int) {
    0 < a < PHYS_LIMIT && a % 4096 == 0
  }

  /** The address field of a descriptor, bits 12 to 47. */
  function Target(desc: nat): nat {
    desc % PHYS_LIMIT / 4096 * 4096
  }

  lemma LiveIsOdd(desc: nat)
    ensures IsLive(desc) ==> desc % 2 == 1
    ensures !IsLive(0)
  {
    assert desc == 2 * (2 * (desc / 4)) + desc % 4;
  }

  /** Both the valid bit and the type bit are set. */
  predicate IsLive(desc: nat) {
    desc % 4 == 3
  }

  /** Where a table hangs: its level and the descriptor that points to it. */
  datatype Place = Root | Child(depth: nat, parent: int, index: nat) {
    function Level(): nat {
      if Root? then 0 else depth
    }
  }

  type Owners = map<int, Place>

  /** The table that a table descriptor was made for. */
  function Linked(desc: nat): int {
    desc - 3
  }

  ghost predicate HangsAt(m: Memory, owner: Owners, a: int)
    requires a in owner
  {
    match owner[a]
    case Root => true
    case Child(l, p, k) =>
      && 1 <= l <= 2 && k < ENTRIES && p in owner && owner[p].Level() == l - 1
      && p in m && m[p][k] == a + 3
  }

  ghost predicate PointsWell(m: Memory, owner: Owners, a: int, k: nat)
    requires a in owner && a in m && k < ENTRIES
  {
    m[a][k] != 0 ==>
      if owner[a].Level() < 2 then
        Linked(m[a][k]) in owner && owner[Linked(m[a][k])] == Child(owner[a].Level() + 1, a, k)
      else
        IsLive(m[a][k])
  }

  /**
    * The tables in `owner` form a tree: each but the root hangs at exactly one descriptor,
    * and each descriptor in the upper two levels that is not zero points to such a table.
    */
  ghost predicate Tree(root: int, m: Memory, owner: Owners) {
    && root in owner && (forall a | a in owner :: owner[a] == Root <==> a == root)
    && (forall a | a in owner :: a in m && IsFrameAddress(a) && HangsAt(m, owner, a))
    && (forall a, k: nat | a in owner && k < ENTRIES :: PointsWell(m, owner, a, k))
  }

  /** One step of the walk: the next table, or 0. */
  function Next(m: Memory, a: int, k: nat): nat
    requires k < ENTRIES
  {
    if a in m && IsLive(m[a][k]) then Target(m[a][k]) else 0
  }

  /** The page descriptor that the walk reaches, 0 if there is none. */
  function Walk(root: int, m: Memory, i: nat, j: nat, k: nat): nat
    requires i < ENTRIES && j < ENTRIES && k < ENTRIES
  {
    var l2 := Next(m, root, i);
    if l2 == 0 then 0 else
    var l3 := Next(m, l2, j);
    if l3 == 0 || l3 !in m then 0 else m[l3][k]
  }

  function Index1(v: nat): (i: nat)
    ensures i < ENTRIES
  {
    v / 0x4_0000 % ENTRIES
  }

  function Index2(v: nat): (i: nat)
    ensures i < ENTRIES
  {
    v / 0x200 % ENTRIES
  }

  function Index3(v: nat): (i: nat)
    ensures i < ENTRIES
  {
    v % ENTRIES
  }

  /** The descriptor of page number `v`, 0 if the page is not mapped. */
  function Pte(root: int, m: Memory, v: nat): nat {
    Walk(root, m, Index1(v), Index2(v), Index3(v))
  }

  lemma IndicesOf(v: nat)
    requires v < PAGES
    ensures v == Index1(v) * 0x4_0000 + Index2(v) * 0x200 + Index3(v)
  {
    var q, r := v / 0x200, v % 0x200;
    var a, b := q / 0x200, q % 0x200;
    assert v == 0x4_0000 * a + (0x200 * b + r) && 0 <= 0x200 * b + r < 0x4_0000;
    assert v / 0x4_0000 == a && a < 0x200;
  }

  /** A page number is determined by its three indices. */
  lemma IndicesDetermine(v: nat, w: nat)
    requires v < PAGES && w < PAGES
    requires Index1(v) == Index1(w) && Index2(v) == Index2(w) && Index3(v) == Index3(w)
    ensures v == w
  {
    hide Index1, Index2, Index3;
    IndicesOf(v);
    IndicesOf(w);
  }

  /** A table descriptor leads to the table it was made for. */
  lemma TargetOfTable(a: int)
    requires IsFrameAddress(a)
    ensures IsLive(a + 3) && Target(a + 3) == a
  {
    assert (a + 3) / 4096 == a / 4096;
  }

  /** Every upper-level step of the walk stays on the tree. */
  lemma NextInTree(root: int, m: Memory, owner: Owners, a: int, k: nat)
    requires Tree(root, m, owner) && a in owner && owner[a].Level() < 2 && k < ENTRIES
    ensures var c := Next(m, a, k);
            if m[a][k] == 0 then c == 0
            else IsLive(m[a][k]) && c == m[a][k] - 3 && c in owner && owner[c] == Child(owner[a].Level() + 1, a, k)
  {
    assert !IsLive(0);
    hide Target, IsLive;
    assert PointsWell(m, owner, a, k);
    if m[a][k] != 0 {
      TargetOfTable(Linked(m[a][k]));
    }
  }

  /** The valid bit alone tells whether an upper-level descriptor is in use. */
  lemma ValidBit(root: int, m: Memory, owner: Owners, a: int, k: nat)
    requires Tree(root, m, owner) && a in owner && owner[a].Level() < 2 && k < ENTRIES && a in m
    ensures m[a][k] % 2 == 1 <==> m[a][k] != 0
    ensures m[a][k] == 0 ==> Next(m, a, k) == 0
    ensures m[a][k] != 0 ==>
              && Next(m, a, k) == Target(m[a][k]) != 0 && Next(m, a, k) in owner
              && owner[Next(m, a, k)].Level() == owner[a].Level() + 1
  {
    LiveIsOdd(m[a][k]);
    assert IsLive(m[a][k]) ==> Next(m, a, k) == Target(m[a][k]);
    hide Target, IsLive, Next, Tree;
    NextInTree(root, m, owner, a, k);
  }

  /** What the two low bits of an upper-level descriptor say. */
  lemma StepDown(root: int, m: Memory, owner: Owners, a: int, k: nat)
    requires Tree(root, m, owner) && a in owner && owner[a].Level() < 2 && k < ENTRIES && a in m
    ensures if IsLive(m[a][k]) then
              var c := Target(m[a][k]);
              c == Next(m, a, k) && c != 0 && c in owner && owner[c] == Child(owner[a].Level() + 1, a, k)
            else Next(m, a, k) == 0
  {
    NextInTree(root, m, owner, a, k);
  }

  lemma NotReached(root: int, m: Memory, v: nat)
    ensures Next(m, root, Index1(v)) == 0 ==> Pte(root, m, v) == 0
    ensures Next(m, Next(m, root, Index1(v)), Index2(v)) == 0 ==> Pte(root, m, v) == 0
  {
  }

  ghost predicate SameWalks(root: int, m0: Memory, m1: Memory) {
    forall i: nat, j: nat, k: nat | i < ENTRIES && j < ENTRIES && k < ENTRIES ::
      Walk(root, m1, i, j, k) == Walk(root, m0, i, j, k)
  }

  /** The tables below the root that have no descriptor in them. */
  ghost function Empties(root: int, m: Memory, owner: Owners): set<int> {
    set a | a in owner && a in m && a != root && IsEmpty(m[a])
  }

  /** Tables are at most added: each old one hangs where it did. */
  ghost predicate Keeps(owner0: Owners, owner1: Owners) {
    forall a | a in owner0 :: a in owner1 && owner1[a] == owner0[a]
  }

  lemma SameWalksAsBefore(root: int, m: Memory, owner: Owners)
    ensures SameWalks(root, m, m) && Keeps(owner, owner)
  {
  }

  lemma KeepsOn(owner0: Owners, owner1: Owners, owner2: Owners)
    requires Keeps(owner0, owner1) && Keeps(owner1, owner2)
    ensures Keeps(owner0, owner2)
  {
  }

  /** Only frames that hold a table were written. */
  ghost predicate OnlyTables(owner: Owners, m0: Memory, m1: Memory) {
    forall a | a in m0 && a !in owner :: a in m1 && m1[a] == m0[a]
  }

  lemma NoneWritten(owner: Owners, m: Memory)
    ensures OnlyTables(owner, m, m)
  {
  }

  lemma DropWrites(owner: Owners, m: Memory, a: int, k: nat)
    requires a in owner && a in m && k < ENTRIES
    ensures OnlyTables(owner, m, m[a := m[a][k := 0]]) && m.Keys == m[a := m[a][k := 0]].Keys
  {
    assert m.Keys == m[a := m[a][k := 0]].Keys;
  }

  /** A table hangs at a table. */
  lemma PlaceOf(root: int, m: Memory, owner: Owners, c: int)
    requires Tree(root, m, owner) && c in owner && owner[c].Child?
    ensures owner[c].parent in owner && owner[c].parent in m && owner[c].index < ENTRIES && c in m && c > 0
  {
    assert HangsAt(m, owner, c);
  }

  lemma OnlyTablesOn(owner0: Owners, owner1: Owners, m0: Memory, m1: Memory, m2: Memory)
    requires OnlyTables(owner0, m0, m1) && OnlyTables(owner1, m1, m2) && Keeps(owner1, owner0)
    ensures OnlyTables(owner0, m0, m2)
  {
  }

  /** The frames in `s` hold what they held. */
  ghost predicate SameFrames(s: set<int>, m0: Memory, m1: Memory) {
    forall a | a in s && a in m0 :: a in m1 && m1[a] == m0[a]
  }

  lemma SameFramesAsBefore(s: set<int>, m: Memory)
    ensures SameFrames(s, m, m)
  {
  }

  lemma BesideTwo(s: set<int>, m: Memory, a: int, t: Table, c: int, u: Table)
    requires a !in s && c !in s
    ensures SameFrames(s, m, m[c := u][a := t])
  {
  }

  lemma SameFramesOn(s: set<int>, m0: Memory, m1: Memory, m2: Memory)
    requires SameFrames(s, m0, m1) && SameFrames(s, m1, m2)
    ensures SameFrames(s, m0, m2)
  {
  }

  lemma SameFramesLess(s: set<int>, t: set<int>, m0: Memory, m1: Memory)
    requires SameFrames(t, m0, m1) && s <= t
    ensures SameFrames(s, m0, m1)
  {
  }

  lemma BesideTables(owner: Owners, s: set<int>, m0: Memory, m1: Memory)
    requires owner.Keys !! s && OnlyTables(owner, m0, m1)
    ensures SameFrames(s, m0, m1)
  {
  }

  /** A table that hangs now where there was none; every other step of a walk is as before. */
  ghost predicate Hung(m0: Memory, owner0: Owners, m1: Memory, a: int, k: nat, c: int)
    requires k < ENTRIES
  {
    && Next(m0, a, k) == 0 && Next(m1, a, k) == c != 0 && (forall x: nat | x < ENTRIES :: Next(m1, c, x) == 0)
    && (forall b, x: nat | b in owner0 && x < ENTRIES && (b != a || x != k) :: Next(m1, b, x) == Next(m0, b, x))
  }

  /** No step of a walk differs. */
  ghost predicate SameSteps(m0: Memory, owner0: Owners, m1: Memory) {
    forall b, x: nat | b in owner0 && owner0[b].Level() < 2 && x < ENTRIES :: Next(m1, b, x) == Next(m0, b, x)
  }

  lemma RootOfTree(root: int, m: Memory, owner: Owners)
    requires Tree(root, m, owner)
    ensures root in owner && owner[root].Level() == 0 && root !in Empties(root, m, owner)
    ensures forall a | a in owner :: a in m && IsFrameAddress(a)
  {
  }

  lemma KeepsAfterDrop(owner0: Owners, owner1: Owners, a: int, b: int)
    requires owner1 == owner0 || owner1 == owner0 - {a} || owner1 == owner0 - {b} || owner1 == owner0 - {b} - {a}
    ensures Keeps(owner1, owner0)
  {
  }

  lemma HasEntry(root: int, m: Memory, owner: Owners, a: int, k: nat)
    requires a in m && k < ENTRIES && m[a][k] != 0
    ensures a !in Empties(root, m, owner)
  {
  }

  lemma NotEmpty(root: int, m: Memory, owner: Owners, a: int)
    requires a in m && !IsEmpty(m[a])
    ensures a !in Empties(root, m, owner)
  {
  }

  lemma NextAsBefore(m0: Memory, m1: Memory, a: int, k: nat)
    requires k < ENTRIES && a in m0 && a in m1 && m0[a] == m1[a]
    ensures Next(m0, a, k) == Next(m1, a, k)
  {
  }

  lemma StepsAfterHanging(root: int, m: Memory, owner: Owners, m1: Memory, a: int, k: nat, c: int)
    requires Tree(root, m, owner) && a in owner && k < ENTRIES && m[a][k] == 0
    requires c !in owner && IsFrameAddress(c) && m1 == m[c := EmptyTable()][a := m[a][k := c + 3]]
    ensures Hung(m, owner, m1, a, k, c)
  {
    TargetOfTable(c);
    hide Target, IsLive;
    assert !IsLive(0) by {
      LiveIsOdd(0);
    }
    forall b | b in owner ensures b in m && b in m1 {
      assert HangsAt(m, owner, b);
    }
  }

  lemma WalksAfterHanging(root: int, m: Memory, owner: Owners, m1: Memory, a: int, k: nat, c: int)
    requires Tree(root, m, owner) && a in owner && owner[a].Level() < 2 && k < ENTRIES
    requires Hung(m, owner, m1, a, k, c) && c in m1 && IsEmpty(m1[c])
    requires forall b | b in owner && b != a :: b in m1 && m1[b] == m[b]
    ensures SameWalks(root, m, m1)
  {
    forall i: nat, j: nat, x: nat | i < ENTRIES && j < ENTRIES && x < ENTRIES
      ensures Walk(root, m1, i, j, x) == Walk(root, m, i, j, x)
    {
      NextInTree(root, m, owner, root, i);
      var l2 := Next(m, root, i);
      if l2 != 0 {
        NextInTree(root, m, owner, l2, j);
      }
    }
  }

  /** Hanging a new empty table under a zero descriptor keeps the tree and every translation. */
  lemma AddTable(root: int, m: Memory, owner: Owners, a: int, k: nat, c: int)
    requires Tree(root, m, owner) && a in owner && owner[a].Level() < 2 && k < ENTRIES && m[a][k] == 0
    requires c !in owner && IsFrameAddress(c)
    ensures var m1 := m[c := EmptyTable()][a := m[a][k := c + 3]];
            var owner1 := owner[c := Child(owner[a].Level() + 1, a, k)];
            && Tree(root, m1, owner1) && SameWalks(root, m, m1) && Keeps(owner, owner1) && Next(m1, a, k) == c
            && Empties(root, m1, owner1) <= Empties(root, m, owner) - {a} + {c}
            && owner1[c].Level() == owner[a].Level() + 1 && Hung(m, owner, m1, a, k, c)
  {
    TargetOfTable(c);
    hide Target, IsLive;
    var m1: Memory := m[c := EmptyTable()][a := m[a][k := c + 3]];
    var owner1 := owner[c := Child(owner[a].Level() + 1, a, k)];
    forall b, x: nat | b in owner1 && x < ENTRIES ensures PointsWell(m1, owner1, b, x) {
      if b != c {
        assert PointsWell(m, owner, b, x);
      }
    }
    StepsAfterHanging(root, m, owner, m1, a, k, c);
    WalksAfterHanging(root, m, owner, m1, a, k, c);
  }

  /** Writing a page descriptor changes one translation. */
  lemma WritePage(root: int, m: Memory, owner: Owners, i: nat, j: nat, k: nat, d: nat)
    requires Tree(root, m, owner) && i < ENTRIES && j < ENTRIES && k < ENTRIES && (d == 0 || IsLive(d))
    requires var l2 := Next(m, root, i); l2 != 0 && Next(m, l2, j) != 0
    ensures var l3 := Next(m, Next(m, root, i), j);
            && l3 in owner && owner[l3].Level() == 2
            && var m1: Memory := m[l3 := m[l3][k := d]];
               && Tree(root, m1, owner) && SameSteps(m, owner, m1)
               && Empties(root, m1, owner) <= Empties(root, m, owner) + {l3}
               && forall i1: nat, j1: nat, k1: nat | i1 < ENTRIES && j1 < ENTRIES && k1 < ENTRIES ::
                    Walk(root, m1, i1, j1, k1) ==
                    if i1 == i && j1 == j && k1 == k then d else Walk(root, m, i1, j1, k1)
  {
    NextInTree(root, m, owner, root, i);
    NextInTree(root, m, owner, Next(m, root, i), j);
    var l3 := Next(m, Next(m, root, i), j);
    var m1: Memory := m[l3 := m[l3][k := d]];
    forall b, x: nat | b in owner && x < ENTRIES ensures PointsWell(m1, owner, b, x) {
      assert PointsWell(m, owner, b, x);
    }
    assert Tree(root, m1, owner);
    forall i1: nat, j1: nat, k1: nat | i1 < ENTRIES && j1 < ENTRIES && k1 < ENTRIES
      ensures Walk(root, m1, i1, j1, k1) ==
              if i1 == i && j1 == j && k1 == k then d else Walk(root, m, i1, j1, k1)
    {
      NextInTree(root, m, owner, root, i1);
      NextInTree(root, m1, owner, root, i1);
      var l2 := Next(m, root, i1);
      if l2 != 0 {
        NextInTree(root, m, owner, l2, j1);
        NextInTree(root, m1, owner, l2, j1);
      }
    }
  }

  /** Clearing the descriptor of an empty table takes the table off the tree and keeps every translation. */
  lemma DropTable(root: int, m: Memory, owner: Owners, c: int)
    requires Tree(root, m, owner) && c in owner && owner[c].Child? && IsEmpty(m[c])
    ensures var p, k := owner[c].parent, owner[c].index;
            && HangsAt(m, owner, c)
            && var m1: Memory := m[p := m[p][k := 0]];
               && Tree(root, m1, owner - {c}) && SameWalks(root, m, m1)
               && Empties(root, m1, owner - {c}) <= Empties(root, m, owner) - {c} + {p}
  {
    assert HangsAt(m, owner, c);
    var p, k := owner[c].parent, owner[c].index;
    var m1: Memory := m[p := m[p][k := 0]];
    var owner1 := owner - {c};
    forall b | b in owner1 ensures HangsAt(m1, owner1, b) {
      assert HangsAt(m, owner, b);
    }
    forall b, x: nat | b in owner1 && x < ENTRIES ensures PointsWell(m1, owner1, b, x) {
      assert PointsWell(m, owner, b, x);
    }
    assert Tree(root, m1, owner1);
    forall i: nat, j: nat, x: nat | i < ENTRIES && j < ENTRIES && x < ENTRIES
      ensures Walk(root, m1, i, j, x) == Walk(root, m, i, j, x)
    {
      NextInTree(root, m, owner, root, i);
      NextInTree(root, m1, owner1, root, i);
      var l2 := Next(m, root, i);
      if l2 != 0 {
        NextInTree(root, m, owner, l2, j);
        if l2 != c {
          NextInTree(root, m1, owner1, l2, j);
        }
      }
    }
  }

  /** No table is reached by two descriptors, and no descriptor leads back to the root. */
  lemma OneDescriptorEach(root: int, m: Memory, owner: Owners, a: int, k: nat, b: int, l: nat)
    requires Tree(root, m, owner) && a in owner && b in owner && owner[a].Level() < 2 && owner[b].Level() < 2
    requires k < ENTRIES && l < ENTRIES && Next(m, a, k) != 0
    ensures Next(m, a, k) == Next(m, b, l) ==> a == b && k == l
    ensures Next(m, a, k) != root && Next(m, a, k) in owner
  {
    NextInTree(root, m, owner, a, k);
    NextInTree(root, m, owner, b, l);
  }

  /** On a tree without empty tables every table is on the walk to some mapped page. */
  lemma EveryTableIsUsed(root: int, m: Memory, owner: Owners, c: int) returns (i: nat, j: nat, k: nat)
    requires Tree(root, m, owner) && Empties(root, m, owner) == {} && c in owner && c != root
    ensures i < ENTRIES && j < ENTRIES && k < ENTRIES && Walk(root, m, i, j, k) != 0
    ensures if owner[c].Level() == 1 then c == Next(m, root, i) else c == Next(m, Next(m, root, i), j)
  {
    assert HangsAt(m, owner, c);
    var p := owner[c].parent;
    assert HangsAt(m, owner, p);
    assert c !in Empties(root, m, owner);
    var x: nat :| x < ENTRIES && m[c][x] != 0;
    NextInTree(root, m, owner, p, owner[c].index);
    if owner[c].Level() == 1 {
      i, j := owner[c].index, x;
      NextInTree(root, m, owner, c, j);
      var b := Next(m, c, j);
      assert b !in Empties(root, m, owner);
      k :| k < ENTRIES && m[b][k] != 0;
    } else {
      i, j, k := owner[p].index, owner[c].index, x;
      NextInTree(root, m, owner, root, i);
    }
  }

  lemma KeepsBothWays(owner0: Owners, owner1: Owners)
    requires Keeps(owner0, owner1) && Keeps(owner1, owner0)
    ensures owner0 == owner1
  {
    forall a: int ensures a in owner0.Keys <==> a in owner1.Keys {
      if a in owner0 {
        assert a in owner1;
      }
    }
    assert owner0.Keys == owner1.Keys;
    assert forall a | a in owner0.Keys :: owner0[a] == owner1[a];
  }

  /**
    * Tables that were added and then dropped again: when neither end has an empty table and both have
    * the same translations, both have the same tables at the same places.
    */
  lemma SameTranslationsSameTables(root: int, m0: Memory, owner0: Owners, m1: Memory, owner1: Owners,
                                   m2: Memory, owner2: Owners)
    requires Tree(root, m0, owner0) && Tree(root, m1, owner1) && Tree(root, m2, owner2)
    requires Keeps(owner0, owner1) && Keeps(owner2, owner1) && SameWalks(root, m0, m2)
    requires Empties(root, m0, owner0) == {} && Empties(root, m2, owner2) == {}
    ensures owner0 == owner2
  {
    TablesAreKept(root, m0, owner0, m1, owner1, m2, owner2);
    assert SameWalks(root, m2, m0);
    TablesAreKept(root, m2, owner2, m1, owner1, m0, owner0);
    KeepsBothWays(owner0, owner2);
  }

  lemma TablesAreKept(root: int, m0: Memory, owner0: Owners, m1: Memory, owner1: Owners, m2: Memory, owner2: Owners)
    requires Tree(root, m0, owner0) && Tree(root, m1, owner1) && Tree(root, m2, owner2)
    requires Keeps(owner0, owner1) && Keeps(owner2, owner1)
    requires SameWalks(root, m0, m2)
    requires Empties(root, m0, owner0) == {}
    ensures Keeps(owner0, owner2)
  {
    forall c | c in owner0 ensures c in owner2 && owner2[c] == owner0[c] {
      if c != root {
        var i, j, k := EveryTableIsUsed(root, m0, owner0, c);
        assert Walk(root, m2, i, j, k) != 0;
        SamePlace(root, m0, owner0, m1, owner1, root, i);
        SamePlace(root, m2, owner2, m1, owner1, root, i);
        var l2 := Next(m0, root, i);
        assert l2 == Next(m2, root, i);
        if owner0[c].Level() == 2 {
          SamePlace(root, m0, owner0, m1, owner1, l2, j);
          SamePlace(root, m2, owner2, m1, owner1, l2, j);
        }
      }
    }
  }

  /** A descriptor of a smaller tree points where it does in the larger one. */
  lemma SamePlace(root: int, m0: Memory, owner0: Owners, m1: Memory, owner1: Owners, a: int, k: nat)
    requires Tree(root, m0, owner0) && Tree(root, m1, owner1) && Keeps(owner0, owner1)
    requires a in owner0 && owner0[a].Level() < 2 && k < ENTRIES && Next(m0, a, k) != 0
    ensures Next(m0, a, k) == Next(m1, a, k) && Next(m0, a, k) in owner0
    ensures owner0[Next(m0, a, k)] == Child(owner0[a].Level() + 1, a, k)
  {
    NextInTree(root, m0, owner0, a, k);
    NextInTree(root, m1, owner1, a, k);
    assert HangsAt(m1, owner1, Next(m0, a, k));
  }

  lemma PageOf(va: nat, i: nat)
    ensures Page(va + i * 4096) == Page(va) + i && Page(i * 4096) == i && IsAligned(va + i * 4096) == IsAligned(va)
  {
    assert va + i * 4096 == 4096 * (va / 4096 + i) + va % 4096;
  }

  /** The `i`th frame from `phys` on. */
  function FrameAt(phys: nat, i: nat): (a: nat)
    requires IsAligned(phys)
    ensures IsAligned(a)
  {
    PageOf(phys, i);
    phys + i * 4096
  }

  /** The page descriptor that `map` writes. */
  function PageDescriptor(phys: nat, flags: nat): (d: nat)
    requires IsAligned(phys) && flags < 4096
    ensures IsLive(d) && d != 0
    ensures phys < PHYS_LIMIT ==> Target(d) == phys
  {
    DescriptorIs(phys / 4096, flags / 4);
    phys + flags - flags % 4 + 3
  }

  /** The fields of a descriptor made of a frame's number and the flags above the two low bits. */
  lemma DescriptorIs(frame: nat, high: nat)
    requires high < 0x400
    ensures var d := 4096 * frame + 4 * high + 3;
            IsLive(d) && d / 4096 == frame && d % 4096 / 4 == high && (d < PHYS_LIMIT ==> Target(d) == 4096 * frame)
  {
    var d := 4096 * frame + 4 * high + 3;
    DivisionEquation(d, 4, 1024 * frame + high, 3);
    DivisionEquation(d, 4096, frame, 4 * high + 3);
    DivisionEquation(4 * high + 3, 4, high, 3);
  }

  lemma DescriptorFields(phys: nat, flags: nat)
    requires IsAligned(phys) && flags < 4096
    ensures var d := PageDescriptor(phys, flags); d % 4 == 3 && d % 4096 / 4 == flags / 4 && d / 4096 * 4096 == phys
  {
    DescriptorIs(phys / 4096, flags / 4);
    assert PageDescriptor(phys, flags) == 4096 * (phys / 4096) + 4 * (flags / 4) + 3;
  }

  /** Each of the pages `v` to `v + n` has the address of its frame and `flags` with the two low bits set. */
  ghost predicate Described(root: int, m: Memory, v: nat, n: nat, phys: nat, flags: nat) {
    forall w: nat | v <= w < v + n ::
      var d := Pte(root, m, w);
      d % 4 == 3 && d % 4096 / 4 == flags / 4 && d / 4096 * 4096 == phys + (w - v) * 4096
  }

  /** The pages `v` to `v + n` have the memory attribute index `kind` (bits 2 to 4) and the access flag (bit 10). */
  ghost predicate OfKind(root: int, m: Memory, v: nat, n: nat, kind: nat) {
    forall w: nat | v <= w < v + n :: var d := Pte(root, m, w); d / 4 % 8 == kind && d / 0x400 % 2 == 1
  }

  lemma DivisionEquation(x: nat, d: nat, q: nat, r: nat)
    requires d == 2 || d == 4 || d == 8 || d == 0x400 || d == 4096
    requires x == d * q + r && r < d
    ensures x / d == q && x % d == r
  {
  }

  /** Frames added to the low bits change neither of these fields. */
  lemma LowFields(q: nat, r: nat)
    requires r < 4096
    ensures (4096 * q + r) / 4 % 8 == r / 4 % 8 && (4096 * q + r) / 0x400 % 2 == r / 0x400 % 2
  {
    var x, s, t := 4096 * q + r, r / 4, r / 0x400;
    DivisionEquation(x, 4, 1024 * q + s, r % 4);
    DivisionEquation(1024 * q + s, 8, 128 * q + s / 8, s % 8);
    DivisionEquation(x, 0x400, 4 * q + t, r % 0x400);
    DivisionEquation(4 * q + t, 2, 2 * q + t / 2, t % 2);
  }

  /** The twelve low bits decide. */
  lemma KindOf(root: int, m: Memory, v: nat, n: nat, low: nat)
    requires low / 0x400 % 2 == 1 && forall w: nat | v <= w < v + n :: Pte(root, m, w) % 4096 == low
    ensures OfKind(root, m, v, n, low / 4 % 8)
  {
    hide Pte;
    forall w: nat | v <= w < v + n
      ensures var d := Pte(root, m, w); d / 4 % 8 == low / 4 % 8 && d / 0x400 % 2 == 1
    {
      LowFields(Pte(root, m, w) / 4096, low);
    }
  }

  lemma MappedDescribed(root: int, m0: Memory, m1: Memory, v: nat, n: nat, phys: nat, flags: nat)
    requires IsAligned(phys) && flags < 4096 && v + n <= PAGES && Mapped(root, m0, m1, v, n, phys, flags)
    ensures Described(root, m1, v, n, phys, flags)
  {
    forall w: nat | v <= w < v + n
      ensures var d := Pte(root, m1, w);
              d % 4 == 3 && d % 4096 / 4 == flags / 4 && d / 4096 * 4096 == phys + (w - v) * 4096
    {
      assert Pte(root, m1, w) == PageDescriptor(FrameAt(phys, w - v), flags);
      DescriptorFields(FrameAt(phys, w - v), flags);
    }
  }

  /** The pages `v` to `v + n` lead to the frames from `phys` on; no other translation differs. */
  ghost predicate Mapped(root: int, m0: Memory, m1: Memory, v: nat, n: nat, phys: nat, flags: nat)
    requires IsAligned(phys) && flags < 4096
  {
    forall w: nat | w < PAGES ::
      Pte(root, m1, w) == if v <= w < v + n then PageDescriptor(FrameAt(phys, w - v), flags) else Pte(root, m0, w)
  }

  /** The pages `v` to `v + n` are no longer mapped; no other translation differs. */
  ghost predicate Cleared(root: int, m0: Memory, m1: Memory, v: nat, n: nat) {
    forall w: nat | w < PAGES :: Pte(root, m1, w) == if v <= w < v + n then 0 else Pte(root, m0, w)
  }

  ghost predicate IsMapped(root: int, m: Memory, v: nat, n: nat) {
    forall w: nat | v <= w < v + n :: Pte(root, m, w) != 0
  }

  ghost predicate IsUnmapped(root: int, m: Memory, v: nat, n: nat) {
    forall w: nat | v <= w < v + n :: Pte(root, m, w) == 0
  }

  /** Page `v` has the descriptor `d`; no other translation differs. */
  ghost predicate Written(root: int, m0: Memory, m1: Memory, v: nat, d: nat) {
    forall w: nat | w < PAGES :: Pte(root, m1, w) == if w == v then d else Pte(root, m0, w)
  }

  lemma WrittenAfterSame(root: int, m0: Memory, m1: Memory, m2: Memory, v: nat, d: nat)
    requires SameWalks(root, m0, m1) && Written(root, m1, m2, v, d)
    ensures Written(root, m0, m2, v, d)
  {
    forall w: nat | w < PAGES ensures Pte(root, m2, w) == if w == v then d else Pte(root, m0, w) {
      assert Pte(root, m1, w) == Pte(root, m0, w);
    }
  }

  lemma SameAfterWritten(root: int, m0: Memory, m1: Memory, m2: Memory, v: nat, d: nat)
    requires Written(root, m0, m1, v, d) && SameWalks(root, m1, m2)
    ensures Written(root, m0, m2, v, d)
  {
    forall w: nat | w < PAGES ensures Pte(root, m2, w) == if w == v then d else Pte(root, m0, w) {
      assert Pte(root, m2, w) == Pte(root, m1, w);
    }
  }

  lemma SameWalksOn(root: int, m0: Memory, m1: Memory, m2: Memory)
    requires SameWalks(root, m0, m1) && SameWalks(root, m1, m2)
    ensures SameWalks(root, m0, m2)
  {
  }

  lemma WriteOnePage(root: int, m: Memory, owner: Owners, v: nat, d: nat)
    requires Tree(root, m, owner) && v < PAGES && (d == 0 || IsLive(d))
    requires var l2 := Next(m, root, Index1(v)); l2 != 0 && Next(m, l2, Index2(v)) != 0
    ensures var l3 := Next(m, Next(m, root, Index1(v)), Index2(v));
            && l3 in owner && owner[l3].Level() == 2
            && var m1: Memory := m[l3 := m[l3][Index3(v) := d]];
               && Tree(root, m1, owner) && Written(root, m, m1, v, d) && SameSteps(m, owner, m1)
               && Empties(root, m1, owner) <= Empties(root, m, owner) + {l3}
               && (d != 0 ==> l3 !in Empties(root, m1, owner))
  {
    WritePage(root, m, owner, Index1(v), Index2(v), Index3(v), d);
    var l3 := Next(m, Next(m, root, Index1(v)), Index2(v));
    var m1: Memory := m[l3 := m[l3][Index3(v) := d]];
    assert m1[l3][Index3(v)] == d;
    forall w: nat | w < PAGES ensures Pte(root, m1, w) == if w == v then d else Pte(root, m, w) {
      hide Index1, Index2, Index3;
      if w != v && Index1(w) == Index1(v) && Index2(w) == Index2(v) && Index3(w) == Index3(v) {
        IndicesDetermine(v, w);
      }
    }
  }

  lemma ClearedNothing(root: int, m: Memory, v: nat)
    ensures Cleared(root, m, m, v, 0)
  {
  }

  lemma ClearedOneMore(root: int, m0: Memory, m1: Memory, m2: Memory, v: nat, n: nat)
    requires Cleared(root, m0, m1, v, n) && Written(root, m1, m2, v + n, 0)
    ensures Cleared(root, m0, m2, v, n + 1)
  {
    forall w: nat | w < PAGES ensures Pte(root, m2, w) == if v <= w < v + n + 1 then 0 else Pte(root, m0, w) {
      assert Pte(root, m1, w) == if v <= w < v + n then 0 else Pte(root, m0, w);
    }
  }

  lemma MappedOneMore(root: int, m0: Memory, m1: Memory, m2: Memory, v: nat, n: nat, phys: nat, flags: nat)
    requires IsAligned(phys) && flags < 4096
    requires Mapped(root, m0, m1, v, n, phys, flags)
    requires Written(root, m1, m2, v + n, PageDescriptor(FrameAt(phys, n), flags))
    ensures Mapped(root, m0, m2, v, n + 1, phys, flags)
  {
    forall w: nat | w < PAGES
      ensures Pte(root, m2, w) ==
              if v <= w < v + n + 1 then PageDescriptor(FrameAt(phys, w - v), flags) else Pte(root, m0, w)
    {
      assert Pte(root, m1, w) ==
          if v <= w < v + n then PageDescriptor(FrameAt(phys, w - v), flags) else Pte(root, m0, w);
    }
  }

  /** What a successful `map` does: the pages are mapped, tables are only added, and each new one has a descriptor. */
  ghost predicate Built(root: int, m0: Memory, owner0: Owners, m1: Memory, owner1: Owners,
                        v: nat, n: nat, phys: nat, flags: nat)
    requires IsAligned(phys) && flags < 4096
  {
    && Mapped(root, m0, m1, v, n, phys, flags)
    && Keeps(owner0, owner1) && Empties(root, m1, owner1) <= Empties(root, m0, owner0)
  }

  lemma BuiltNothing(root: int, m: Memory, owner: Owners, v: nat, phys: nat, flags: nat)
    requires IsAligned(phys) && flags < 4096
    ensures Built(root, m, owner, m, owner, v, 0, phys, flags)
  {
  }

  lemma BuiltIsMapped(root: int, m0: Memory, owner0: Owners, m1: Memory, owner1: Owners,
                      v: nat, n: nat, phys: nat, flags: nat)
    requires IsAligned(phys) && flags < 4096 && v + n <= PAGES
    requires Built(root, m0, owner0, m1, owner1, v, n, phys, flags)
    ensures Mapped(root, m0, m1, v, n, phys, flags) && IsMapped(root, m1, v, n)
    ensures Keeps(owner0, owner1) && Empties(root, m1, owner1) <= Empties(root, m0, owner0)
  {
    forall w: nat | v <= w < v + n ensures Pte(root, m1, w) != 0 {
      assert Pte(root, m1, w) == PageDescriptor(FrameAt(phys, w - v), flags);
    }
  }

  lemma BuiltOneMore(root: int, m0: Memory, owner0: Owners, m1: Memory, owner1: Owners, m2: Memory, owner2: Owners,
                     v: nat, n: nat, phys: nat, flags: nat)
    requires IsAligned(phys) && flags < 4096
    requires Built(root, m0, owner0, m1, owner1, v, n, phys, flags)
    requires Written(root, m1, m2, v + n, PageDescriptor(FrameAt(phys, n), flags))
    requires Keeps(owner1, owner2) && Empties(root, m2, owner2) <= Empties(root, m1, owner1)
    ensures Built(root, m0, owner0, m2, owner2, v, n + 1, phys, flags)
  {
    MappedOneMore(root, m0, m1, m2, v, n, phys, flags);
    KeepsOn(owner0, owner1, owner2);
  }

  /** Of the second-level tables, those that hang beside the pages `v` to `v + n` are kept. */
  ghost predicate Spares(owner0: Owners, owner1: Owners, v: nat, n: nat) {
    forall a | a in owner0 && owner0[a].Level() == 1 && owner0[a].index !in Parts2(v, n) :: a in owner1
  }

  lemma SparesAll(owner: Owners, v: nat)
    ensures Spares(owner, owner, v, 0)
  {
  }

  lemma SparesAfterDrop(owner0: Owners, owner1: Owners, v: nat, a: int, b: int)
    requires a in owner0 && b in owner0
    requires owner0[a].Level() == 1 && owner0[a].index == Index1(v) && owner0[b].Level() == 2
    requires owner1 == owner0 || owner1 == owner0 - {a} || owner1 == owner0 - {b} || owner1 == owner0 - {b} - {a}
    ensures Spares(owner0, owner1, v, 1)
  {
    hide Index1;
    OnePart(v);
  }

  lemma SparesOn(owner0: Owners, owner1: Owners, owner2: Owners, v: nat, n: nat)
    requires Spares(owner0, owner1, v, n) && Keeps(owner1, owner0) && Spares(owner1, owner2, v + n, 1)
    ensures Spares(owner0, owner2, v, n + 1)
  {
    hide Parts2, Index1;
    OneMorePart(v, n);
    OnePart(v + n);
  }

  lemma SparesMore(owner0: Owners, owner1: Owners, v: nat, k: nat, n: nat)
    requires Spares(owner0, owner1, v, k) && k <= n
    ensures Spares(owner0, owner1, v, n)
  {
    hide Index1;
  }

  /** Mapping page `v` failed; if one frame was free it went into a second-level table that has nothing in it. */
  ghost predicate PageFailed(root: int, m0: Memory, owner0: Owners, m1: Memory, owner1: Owners, v: nat, made: bool) {
    if made then exists c :: MadeInVain(root, m0, owner0, m1, owner1, v, c) else m1 == m0 && owner1 == owner0
  }

  ghost predicate MadeInVain(root: int, m0: Memory, owner0: Owners, m1: Memory, owner1: Owners, v: nat, c: int) {
    && Next(m0, root, Index1(v)) == 0 && c !in owner0 && owner1 == owner0[c := Child(1, root, Index1(v))]
    && Empties(root, m1, owner1) <= Empties(root, m0, owner0) + {c}
  }

  lemma NothingMade(root: int, m: Memory, owner: Owners, v: nat)
    ensures PageFailed(root, m, owner, m, owner, v, false)
  {
  }

  lemma OneMadeInVain(root: int, m0: Memory, owner0: Owners, m1: Memory, owner1: Owners, v: nat, c: int)
    requires Next(m0, root, Index1(v)) == 0 && c !in owner0 && owner1 == owner0[c := Child(1, root, Index1(v))]
    requires Empties(root, m1, owner1) <= Empties(root, m0, owner0) + {c}
    ensures PageFailed(root, m0, owner0, m1, owner1, v, true)
  {
    assert MadeInVain(root, m0, owner0, m1, owner1, v, c);
  }

  /** The new table `c` below the root, with nothing in it, is the only table that was not there before. */
  ghost predicate OneTableMore(root: int, m0: Memory, owner0: Owners, m1: Memory, owner1: Owners, c: int) {
    && c !in owner0 && c in owner1 && owner1[c].Level() == 1 && c in Empties(root, m1, owner1)
    && Keeps(owner1 - {c}, owner0) && Empties(root, m1, owner1) <= Empties(root, m0, owner0) + {c}
  }

  /** The tables that a failed `map` leaves: no new one, or one. */
  ghost predicate Left(root: int, m0: Memory, owner0: Owners, m1: Memory, owner1: Owners, stays: bool) {
    if stays then exists c :: OneTableMore(root, m0, owner0, m1, owner1, c)
    else Keeps(owner1, owner0) && Empties(root, m1, owner1) <= Empties(root, m0, owner0)
  }

  /**
    * With `free` free frames, mapping the pages from `v` on gets stuck at a page that misses both its tables
    * with one frame left.
    */
  ghost predicate TableStays(root: int, m: Memory, v: nat, n: nat, free: int) {
    exists k: nat ::
      k < n && TablesMissing(root, m, v, k) + 1 == free && TablesMissing(root, m, v, k + 1) == free + 1
  }

  lemma NoFrameNoTable(root: int, m: Memory, v: nat, n: nat, free: int)
    requires free <= 0
    ensures !TableStays(root, m, v, n, free)
  {
    hide TablesMissing;
  }

  /** Where `map` stops, it is decided whether a table stays. */
  lemma StaysWhereStopped(root: int, m: Memory, v: nat, n: nat, i: nat, free: nat)
    requires i < n && v + n <= PAGES
    requires TablesMissing(root, m, v, i) <= free < TablesMissing(root, m, v, i + 1) <= TablesMissing(root, m, v, i) + 2
    ensures TableStays(root, m, v, n, free) <==> free == TablesMissing(root, m, v, i) + 1
  {
    hide TablesMissing;
    if TableStays(root, m, v, n, free) {
      var k: nat :|
        k < n && TablesMissing(root, m, v, k) + 1 == free && TablesMissing(root, m, v, k + 1) == free + 1;
      if k < i {
        MorePagesMissMore(root, m, v, k + 1, i);
      } else if i < k {
        MorePagesMissMore(root, m, v, i + 1, k);
      }
    }
  }

  /** A third-level table that is not empty was there before, if all that is mapped was mapped before. */
  lemma OldLastTable(root: int, m0: Memory, owner0: Owners, m2: Memory, owner2: Owners, m3: Memory, owner3: Owners,
                     a: int)
    requires Tree(root, m0, owner0) && Tree(root, m2, owner2) && Tree(root, m3, owner3)
    requires Keeps(owner0, owner2) && Keeps(owner3, owner2) && NothingNew(root, m0, m3)
    requires a in owner3 && owner3[a].Level() == 2 && !IsEmpty(m3[a])
    ensures a in owner0
  {
    hide Tree, NothingNew, Keeps, HangsAt;
    RootOfTree(root, m0, owner0);
    RootOfTree(root, m3, owner3);
    var k: nat :| k < ENTRIES && m3[a][k] != 0;
    var i, j, p := WalkTo(root, m3, owner3, a, k);
    assert Walk(root, m0, i, j, k) != 0 by {
      WasMapped(root, m0, m3, i, j, k);
    }
    SamePlace(root, m0, owner0, m2, owner2, root, i);
    SamePlace(root, m3, owner3, m2, owner2, root, i);
    SamePlace(root, m0, owner0, m2, owner2, p, j);
    SamePlace(root, m3, owner3, m2, owner2, p, j);
  }

  lemma WasMapped(root: int, m0: Memory, m1: Memory, i: nat, j: nat, k: nat)
    requires NothingNew(root, m0, m1) && i < ENTRIES && j < ENTRIES && k < ENTRIES && Walk(root, m1, i, j, k) != 0
    ensures Walk(root, m0, i, j, k) != 0
  {
  }

  /** The walk that ends at entry `k` of a third-level table. */
  lemma WalkTo(root: int, m: Memory, owner: Owners, a: int, k: nat) returns (i: nat, j: nat, p: int)
    requires Tree(root, m, owner) && a in owner && owner[a].Level() == 2 && k < ENTRIES && a in m
    ensures i < ENTRIES && j < ENTRIES && Walk(root, m, i, j, k) == m[a][k]
    ensures p != 0 && p == Next(m, root, i) && p in owner && owner[p].Level() == 1 && a == Next(m, p, j) != 0
  {
    assert HangsAt(m, owner, a);
    p := owner[a].parent;
    assert HangsAt(m, owner, p);
    i, j := owner[p].index, owner[a].index;
    NextInTree(root, m, owner, root, i);
    NextInTree(root, m, owner, p, j);
  }

  /** Every mapped page was mapped before. */
  ghost predicate NothingNew(root: int, m0: Memory, m1: Memory) {
    forall i: nat, j: nat, k: nat | i < ENTRIES && j < ENTRIES && k < ENTRIES ::
      Walk(root, m1, i, j, k) != 0 ==> Walk(root, m0, i, j, k) != 0
  }

  lemma ClearedIsNotNew(root: int, m0: Memory, m1: Memory, v: nat, n: nat)
    requires Cleared(root, m0, m1, v, n)
    ensures NothingNew(root, m0, m1)
  {
    forall i: nat, j: nat, k: nat | i < ENTRIES && j < ENTRIES && k < ENTRIES && Walk(root, m1, i, j, k) != 0
      ensures Walk(root, m0, i, j, k) != 0
    {
      hide Walk, Index1, Index2, Index3;
      var w := PageWith(i, j, k);
      assert Pte(root, m1, w) == if v <= w < v + n then 0 else Pte(root, m0, w);
    }
  }

  lemma OldTables(root: int, m0: Memory, owner0: Owners, m2: Memory, owner2: Owners, m3: Memory, owner3: Owners,
                  e: set<int>)
    requires Tree(root, m0, owner0) && Tree(root, m2, owner2) && Tree(root, m3, owner3)
    requires Keeps(owner0, owner2) && Keeps(owner3, owner2) && NothingNew(root, m0, m3)
    requires Empties(root, m3, owner3) <= Empties(root, m0, owner0) + e
    requires forall x | x in e && x in owner3 :: owner3[x].Level() == 1
    ensures Keeps(owner3 - e, owner0)
    ensures forall x | x in e && x in owner3 && x !in owner0 :: x in Empties(root, m3, owner3)
  {
    forall a | a in owner3 && a !in e && owner3[a].Level() == 2 ensures a in owner0 {
      assert HangsAt(m3, owner3, a);
      if IsEmpty(m3[a]) {
        assert a in Empties(root, m3, owner3);
      } else {
        OldLastTable(root, m0, owner0, m2, owner2, m3, owner3, a);
      }
    }
    forall a | a in owner3 && owner3[a].Level() == 1 && !IsEmpty(m3[a]) ensures a in owner0 {
      ParentIsOld(root, m0, owner0, m2, owner2, m3, owner3, a);
    }
    forall a | a in owner3 - e ensures a in owner0 && owner0[a] == owner3[a] {
      assert HangsAt(m3, owner3, a);
      if a != root && owner3[a].Level() == 1 && IsEmpty(m3[a]) {
        assert a in Empties(root, m3, owner3);
      }
      assert owner2[a] == owner3[a];
    }
  }

  lemma ParentIsOld(root: int, m0: Memory, owner0: Owners, m2: Memory, owner2: Owners, m3: Memory, owner3: Owners,
                    a: int)
    requires Tree(root, m0, owner0) && Tree(root, m3, owner3) && Keeps(owner0, owner2) && Keeps(owner3, owner2)
    requires forall b | b in owner3 && owner3[b].Level() == 2 :: b in owner0
    requires a in owner3 && owner3[a].Level() == 1 && !IsEmpty(m3[a])
    ensures a in owner0
  {
    var j: nat :| j < ENTRIES && m3[a][j] != 0;
    NextInTree(root, m3, owner3, a, j);
    var b := Next(m3, a, j);
    assert owner0[b] == owner2[b] == owner3[b];
    assert HangsAt(m0, owner0, b);
  }

  /** A table for page `v + i` that was missing after the pages before it were mapped hangs beside them. */
  lemma PartIsFar(root: int, m0: Memory, m1: Memory, v: nat, i: nat)
    requires v + i < PAGES && TablesMade(root, m0, m1, v, i) && Next(m1, root, Index1(v + i)) == 0
    ensures Index1(v + i) !in Parts2(v, i)
  {
    hide Next, Index1;
  }

  /** The tables after a failed `map` has been undone. */
  lemma LeftAfterUndo(root: int, m0: Memory, owner0: Owners, m1: Memory, owner1: Owners, m2: Memory, owner2: Owners,
                      m3: Memory, owner3: Owners, v: nat, i: nat, made: bool)
    requires Tree(root, m0, owner0) && Tree(root, m2, owner2) && Tree(root, m3, owner3) && v + i < PAGES
    requires Keeps(owner0, owner1) && Empties(root, m1, owner1) <= Empties(root, m0, owner0)
    requires TablesMade(root, m0, m1, v, i) && PageFailed(root, m1, owner1, m2, owner2, v + i, made)
    requires Keeps(owner3, owner2) && Empties(root, m3, owner3) <= Empties(root, m2, owner2)
    requires Spares(owner2, owner3, v, i) && Cleared(root, m0, m3, v, i)
    ensures Left(root, m0, owner0, m3, owner3, made)
    ensures SamePtes(root, m0, m3) && Empties(root, m0, owner0) == {} ==> Keeps(owner0, owner3)
  {
    hide Tree, Next, Index1, Empties, Cleared, TablesMade, Parts2, SamePtes, NothingNew;
    ClearedIsNotNew(root, m0, m3, v, i);
    if made {
      var c :| MadeInVain(root, m1, owner1, m2, owner2, v + i, c);
      PartIsFar(root, m0, m1, v, i);
      assert c in owner3 && owner3[c] == Child(1, root, Index1(v + i));
      OldTables(root, m0, owner0, m2, owner2, m3, owner3, {c});
      assert OneTableMore(root, m0, owner0, m3, owner3, c);
    } else {
      OldTables(root, m0, owner0, m2, owner2, m3, owner3, {});
      assert owner3 - {} == owner3;
    }
    if SamePtes(root, m0, m3) && Empties(root, m0, owner0) == {} {
      PtesDecideWalks(root, m0, m3);
      TablesAreKept(root, m0, owner0, m2, owner2, m3, owner3);
    }
  }

  /**
    * What a failed `map` of `n` pages does: some of the first pages are cleared, no table is new but one, if `stays`,
    * and no table is lost when the pages were not mapped and no table was empty.
    */
  ghost predicate Undone(root: int, m0: Memory, owner0: Owners, m1: Memory, owner1: Owners, v: nat, n: nat,
                         stays: bool) {
    && ClearedBelow(root, m0, m1, v, n) && Left(root, m0, owner0, m1, owner1, stays)
    && (IsUnmapped(root, m0, v, n) && Empties(root, m0, owner0) == {} ==> Keeps(owner0, owner1))
  }

  lemma UndoneIs(root: int, m0: Memory, owner0: Owners, m1: Memory, owner1: Owners, v: nat, n: nat, k: nat, stays: bool)
    requires k < n && Cleared(root, m0, m1, v, k) && Left(root, m0, owner0, m1, owner1, stays)
    requires SamePtes(root, m0, m1) && Empties(root, m0, owner0) == {} ==> Keeps(owner0, owner1)
    ensures Undone(root, m0, owner0, m1, owner1, v, n, stays)
  {
    hide Pte, Left, Keeps, Empties;
    ClearedSome(root, m0, m1, v, n, k);
    ClearedUnmapped(root, m0, m1, v, n, k);
  }

  /** Every table hangs where it did and there is no other, unless `stays`: then there is one more. */
  ghost predicate SameTablesUnless(owner0: Owners, owner1: Owners, stays: bool) {
    && (owner1 == owner0 <==> !stays) && (owner1.Keys == owner0.Keys <==> !stays)
    && (stays ==> exists c :: c !in owner0 && owner1.Keys == owner0.Keys + {c})
  }

  lemma NoTableLeft(root: int, m: Memory, owner: Owners)
    ensures Left(root, m, owner, m, owner, false) && SameTablesUnless(owner, owner, false)
  {
  }

  lemma UndoneParts(root: int, m0: Memory, owner0: Owners, m1: Memory, owner1: Owners, v: nat, n: nat, stays: bool)
    requires Undone(root, m0, owner0, m1, owner1, v, n, stays)
    ensures Left(root, m0, owner0, m1, owner1, stays)
  {
  }

  /** Without empty tables, on pages that were not mapped, the tables are as before if and only if none stays. */
  lemma TablesAfterUndone(root: int, m0: Memory, owner0: Owners, m1: Memory, owner1: Owners, v: nat, n: nat,
                          stays: bool)
    requires Undone(root, m0, owner0, m1, owner1, v, n, stays)
    requires IsUnmapped(root, m0, v, n) && Empties(root, m0, owner0) == {}
    ensures SameTablesUnless(owner0, owner1, stays)
    ensures stays ==> exists c :: c !in owner0 && Empties(root, m1, owner1) == {c}
  {
    hide Empties, IsUnmapped, ClearedBelow;
    if stays {
      var c :| OneTableMore(root, m0, owner0, m1, owner1, c);
      assert owner1.Keys == owner0.Keys + {c} by {
        forall a: int ensures a in owner1.Keys <==> a in owner0.Keys || a == c {
          assert a in owner1 && a != c ==> a in owner1 - {c};
          assert a in owner0 ==> a in owner1;
        }
      }
      assert Empties(root, m1, owner1) == {c};
    } else {
      KeepsBothWays(owner0, owner1);
    }
  }

  /** With one free frame and nothing but the root, a `map` of any page fails and leaves a table. */
  lemma LastFrameStays(root: int, v: nat)
    requires IsFrameAddress(root) && v < PAGES
    ensures var m: Memory, owner: Owners := map[root := EmptyTable()], map[root := Root];
            && Tree(root, m, owner) && Empties(root, m, owner) == {} && IsUnmapped(root, m, v, 1)
            && TablesMissing(root, m, v, 1) == 2 && TableStays(root, m, v, 1, 1)
  {
    var m: Memory, owner: Owners := map[root := EmptyTable()], map[root := Root];
    assert forall k: nat | k < ENTRIES :: PointsWell(m, owner, root, k);
    assert forall k: nat | k < ENTRIES :: !IsLive(m[root][k]);
    OnePageMisses(root, m, v);
    NoTablesMade(root, m, v);
    assert TablesMissing(root, m, v, 0) + 1 == 1 && TablesMissing(root, m, v, 0 + 1) == 2;
  }

  /** A failed `map` of pages that were not mapped changes no translation. */
  lemma UndoneUnmapped(root: int, m0: Memory, owner0: Owners, m1: Memory, owner1: Owners, v: nat, n: nat, stays: bool)
    requires Undone(root, m0, owner0, m1, owner1, v, n, stays) && IsUnmapped(root, m0, v, n)
    ensures SamePtes(root, m0, m1)
  {
    var k: nat :| k < n && Cleared(root, m0, m1, v, k);
    ClearedUnmapped(root, m0, m1, v, n, k);
  }

  /** The pages that a failing `map` had mapped are cleared again. */
  lemma MappedThenCleared(root: int, m0: Memory, m1: Memory, m2: Memory, m3: Memory, v: nat, n: nat, phys: nat,
                          flags: nat)
    requires IsAligned(phys) && flags < 4096 && v + n <= PAGES
    requires Mapped(root, m0, m1, v, n, phys, flags) && SameWalks(root, m1, m2)
    ensures IsMapped(root, m2, v, n)
    ensures Cleared(root, m2, m3, v, n) ==> Cleared(root, m0, m3, v, n)
  {
    forall w: nat | w < PAGES ensures v <= w < v + n ==> Pte(root, m2, w) != 0 {
      assert Pte(root, m1, w) ==
          if v <= w < v + n then PageDescriptor(FrameAt(phys, w - v), flags) else Pte(root, m0, w);
      assert Pte(root, m2, w) == Pte(root, m1, w);
    }
    if Cleared(root, m2, m3, v, n) {
      forall w: nat | w < PAGES ensures Pte(root, m3, w) == if v <= w < v + n then 0 else Pte(root, m0, w) {
        assert Pte(root, m1, w) ==
            if v <= w < v + n then PageDescriptor(FrameAt(phys, w - v), flags) else Pte(root, m0, w);
        assert Pte(root, m2, w) == Pte(root, m1, w);
      }
    }
  }

  /** Some of the first pages of a range were cleared. */
  ghost predicate ClearedBelow(root: int, m0: Memory, m1: Memory, v: nat, n: nat) {
    exists k: nat :: k < n && Cleared(root, m0, m1, v, k)
  }

  lemma StoppedAt(root: int, m0: Memory, m1: Memory, v: nat, n: nat, k: nat)
    requires k < n && v + n <= PAGES && Cleared(root, m0, m1, v, k) && TablesLeft(root, m0, m1, v, k)
    requires LastTable(root, m1, v + k) == 0 && forall i: nat | i < k :: !StopsAt(root, m0, v, i)
    ensures ClearedUpTo(root, m0, m1, v, n) && !IsMapped(root, m0, v, n)
  {
    hide LastTable, Pte;
    assert StopsAt(root, m0, v, k);
    StopsUnmapped(root, m0, v, k);
    assert ClearedTo(root, m0, m1, v, n, k);
  }

  lemma ClearedAll(root: int, m0: Memory, m1: Memory, v: nat, n: nat)
    requires Cleared(root, m0, m1, v, n) && TablesLeft(root, m0, m1, v, n)
    requires forall i: nat | i < n :: !StopsAt(root, m0, v, i)
    ensures ClearedUpTo(root, m0, m1, v, n)
  {
    assert ClearedTo(root, m0, m1, v, n, n);
  }

  lemma ClearedSome(root: int, m0: Memory, m1: Memory, v: nat, n: nat, k: nat)
    requires k < n && Cleared(root, m0, m1, v, k)
    ensures ClearedBelow(root, m0, m1, v, n)
  {
  }

  /** Clearing pages that were not mapped changes nothing. */
  lemma ClearedUnmapped(root: int, m0: Memory, m1: Memory, v: nat, n: nat, k: nat)
    requires k <= n && Cleared(root, m0, m1, v, k)
    ensures IsUnmapped(root, m0, v, n) ==> SamePtes(root, m0, m1)
  {
  }

  /** Every page is translated as before. */
  ghost predicate SamePtes(root: int, m0: Memory, m1: Memory) {
    forall w: nat | w < PAGES :: Pte(root, m1, w) == Pte(root, m0, w)
  }

  /** The table that holds the descriptor of page `v`, 0 if there is none. */
  function LastTable(root: int, m: Memory, v: nat): nat {
    var l2 := Next(m, root, Index1(v));
    if l2 == 0 then 0 else Next(m, l2, Index2(v))
  }

  /** Where second-level and third-level tables are missing for the pages `v` to `v + n`. */
  ghost function Without2(root: int, m: Memory, v: nat, n: nat): set<int> {
    set w: nat | v <= w < v + n && Next(m, root, Index1(w)) == 0 :: Index1(w)
  }

  ghost function Without3(root: int, m: Memory, v: nat, n: nat): set<int> {
    set w: nat | v <= w < v + n && LastTable(root, m, w) == 0 :: w / 0x200
  }

  function Count(s: set<int>): nat {
    |s|
  }

  /** How many tables have to be made before the pages can be mapped. */
  ghost function TablesMissing(root: int, m: Memory, v: nat, n: nat): nat {
    Count(Without2(root, m, v, n)) + Count(Without3(root, m, v, n))
  }

  /** The places where the tables of the pages `v` to `v + n` hang. */
  ghost function Parts2(v: nat, n: nat): set<int> {
    set w: nat | v <= w < v + n :: Index1(w)
  }

  ghost function Parts3(v: nat, n: nat): set<int> {
    set w: nat | v <= w < v + n :: w / 0x200
  }

  /** Of the tables that were missing, exactly those for the pages `v` to `v + n` were made. */
  ghost predicate TablesMade(root: int, m0: Memory, m1: Memory, v: nat, n: nat) {
    && (forall w: nat | w < PAGES ::
          Next(m1, root, Index1(w)) == 0 <==> Next(m0, root, Index1(w)) == 0 && Index1(w) !in Parts2(v, n))
    && (forall w: nat | w < PAGES ::
          LastTable(root, m1, w) == 0 <==> LastTable(root, m0, w) == 0 && w / 0x200 !in Parts3(v, n))
  }

  /** The part of one page. */
  lemma OnePart(v: nat)
    ensures Parts2(v, 0) == {} && Parts3(v, 0) == {}
    ensures Parts2(v, 1) == {Index1(v)} && Parts3(v, 1) == {v / 0x200}
  {
    hide Index1;
    assert Index1(v) in Parts2(v, 1) && v / 0x200 in Parts3(v, 1);
  }

  lemma OneMorePart(v: nat, n: nat)
    ensures Parts2(v, n + 1) == Parts2(v, n) + {Index1(v + n)}
    ensures Parts3(v, n + 1) == Parts3(v, n) + {(v + n) / 0x200}
  {
    hide Index1;
    assert Index1(v + n) in Parts2(v, n + 1) && (v + n) / 0x200 in Parts3(v, n + 1);
  }

  lemma NoTablesMade(root: int, m: Memory, v: nat)
    ensures TablesMade(root, m, m, v, 0) && TablesMissing(root, m, v, 0) == 0
  {
    hide Next, Index1, LastTable;
    OnePart(v);
    assert Without2(root, m, v, 0) == {} && Without3(root, m, v, 0) == {};
  }

  /** No page is mapped that shares its third-level table with page `w`, but perhaps some of `v` to `v + n`. */
  ghost predicate OthersUnmapped(root: int, m: Memory, v: nat, n: nat, w: nat) {
    forall x: nat | x / 0x200 == w / 0x200 && !(v <= x < v + n) :: Pte(root, m, x) == 0
  }

  /** Of the third-level tables, just those were freed in which only pages from `v` to `v + n` were mapped. */
  ghost predicate TablesLeft(root: int, m0: Memory, m1: Memory, v: nat, n: nat) {
    forall w: nat | w < PAGES ::
      LastTable(root, m1, w) == 0 <==>
        LastTable(root, m0, w) == 0 || (w / 0x200 in Parts3(v, n) && OthersUnmapped(root, m0, v, n, w))
  }

  /**
    * Where `unmap` finds no table for page `v + i`: there was none, or the only pages mapped in it were some that have
    * been cleared before.
    */
  ghost predicate StopsAt(root: int, m: Memory, v: nat, i: nat) {
    LastTable(root, m, v + i) == 0 || ((v + i) / 0x200 in Parts3(v, i) && OthersUnmapped(root, m, v, i, v + i))
  }

  /** The first `k` pages of a range were cleared: those before the first one at which `unmap` stops. */
  ghost predicate ClearedTo(root: int, m0: Memory, m1: Memory, v: nat, n: nat, k: nat) {
    && k <= n && Cleared(root, m0, m1, v, k) && TablesLeft(root, m0, m1, v, k)
    && (forall i: nat | i < k :: !StopsAt(root, m0, v, i)) && (k < n ==> StopsAt(root, m0, v, k))
  }

  ghost predicate ClearedUpTo(root: int, m0: Memory, m1: Memory, v: nat, n: nat) {
    exists k: nat :: ClearedTo(root, m0, m1, v, n, k)
  }

  /** An empty table was taken off its parent, any other one stays. */
  ghost predicate Released(m0: Memory, m1: Memory, parent: int, index: nat, table: int)
    requires index < ENTRIES
  {
    && table in m0 && parent in m0
    && m1 == if IsEmpty(m0[table]) then m0[parent := m0[parent][index := 0]] else m0
  }

  lemma ReleasedIs(m0: Memory, m1: Memory, parent: int, index: nat, table: int)
    requires index < ENTRIES && table in m0 && parent in m0
    requires m1 == if IsEmpty(m0[table]) then m0[parent := m0[parent][index := 0]] else m0
    ensures Released(m0, m1, parent, index, table)
  {
  }

  /** A third-level table goes exactly if no page in it is mapped. */
  lemma ReleasedLast(root: int, m0: Memory, owner0: Owners, m1: Memory, v: nat, l2: int, l3: int)
    requires Tree(root, m0, owner0) && v < PAGES
    requires l2 == Next(m0, root, Index1(v)) != 0 && l3 == Next(m0, l2, Index2(v)) != 0
    requires Released(m0, m1, l2, Index2(v), l3)
    ensures forall w: nat | w < PAGES ::
              LastTable(root, m1, w) == 0 <==>
                LastTable(root, m0, w) == 0 || (w / 0x200 == v / 0x200 && OthersUnmapped(root, m0, v, 0, w))
  {
    NextInTree(root, m0, owner0, root, Index1(v));
    NextInTree(root, m0, owner0, l2, Index2(v));
    EmptyExactly(root, m0, owner0, v, l2, l3);
    forall w: nat | w < PAGES
      ensures LastTable(root, m1, w) == 0 <==>
              LastTable(root, m0, w) == 0 || (w / 0x200 == v / 0x200 && IsEmpty(m0[l3]))
    {
      SamePart(v, w);
      NextInTree(root, m0, owner0, root, Index1(w));
    }
  }

  lemma EmptyExactly(root: int, m: Memory, owner: Owners, v: nat, l2: int, l3: int)
    requires Tree(root, m, owner) && v < PAGES
    requires l2 == Next(m, root, Index1(v)) != 0 && l3 == Next(m, l2, Index2(v)) != 0
    ensures l3 in m
    ensures forall w: nat | w < PAGES && w / 0x200 == v / 0x200 ::
              OthersUnmapped(root, m, v, 0, w) <==> IsEmpty(m[l3])
  {
    NextInTree(root, m, owner, root, Index1(v));
    NextInTree(root, m, owner, l2, Index2(v));
    forall x: nat | x / 0x200 == v / 0x200 ensures x < PAGES && Pte(root, m, x) == m[l3][Index3(x)] {
      SamePart(v, x);
    }
    if !IsEmpty(m[l3]) {
      var k: nat :| k < ENTRIES && m[l3][k] != 0;
      var x := PageWith(Index1(v), Index2(v), k);
      SamePart(v, x);
      assert Pte(root, m, x) != 0;
    }
  }

  /** Dropping an empty second-level table takes no third-level table away. */
  lemma ReleasedMiddle(root: int, m0: Memory, owner0: Owners, m1: Memory, v: nat, l2: int)
    requires Tree(root, m0, owner0) && v < PAGES && l2 == Next(m0, root, Index1(v)) != 0
    requires Released(m0, m1, root, Index1(v), l2)
    ensures forall w: nat | w < PAGES :: LastTable(root, m1, w) == 0 <==> LastTable(root, m0, w) == 0
  {
    NextInTree(root, m0, owner0, root, Index1(v));
    LiveIsOdd(0);
    forall w: nat | w < PAGES ensures LastTable(root, m1, w) == 0 <==> LastTable(root, m0, w) == 0 {
      NextInTree(root, m0, owner0, root, Index1(w));
    }
  }

  /** All of one pass of `unmap`: the descriptor, the table that it was in, and the one above. */
  lemma PageTablesLeft(root: int, m0: Memory, owner0: Owners, m1: Memory, m2: Memory, owner2: Owners, m3: Memory,
                       v: nat, l2: int, l3: int)
    requires Tree(root, m0, owner0) && Tree(root, m1, owner0) && Tree(root, m2, owner2) && v < PAGES
    requires l2 == Next(m0, root, Index1(v)) != 0 && l3 == Next(m0, l2, Index2(v)) != 0
    requires Written(root, m0, m1, v, 0) && SameSteps(m0, owner0, m1)
    requires Released(m1, m2, l2, Index2(v), l3) && Released(m2, m3, root, Index1(v), l2)
    ensures TablesLeft(root, m0, m3, v, 1)
  {
    hide Pte, IsEmpty, Target, Parts3;
    NextInTree(root, m0, owner0, root, Index1(v));
    ReleasedLast(root, m1, owner0, m2, v, l2, l3);
    assert Next(m2, root, Index1(v)) == l2;
    ReleasedMiddle(root, m2, owner2, m3, v, l2);
    OnePart(v);
    forall w: nat | w < PAGES
      ensures LastTable(root, m1, w) == LastTable(root, m0, w)
      ensures w / 0x200 == v / 0x200 ==> (OthersUnmapped(root, m1, v, 0, w) <==> OthersUnmapped(root, m0, v, 1, w))
    {
      NextInTree(root, m0, owner0, root, Index1(w));
      forall x: nat | x / 0x200 == w / 0x200 ensures x < PAGES {
      }
    }
  }

  lemma NoTableLess(root: int, m: Memory, v: nat)
    ensures TablesLeft(root, m, m, v, 0)
  {
    hide LastTable;
    OnePart(v);
  }

  lemma StopsUnmapped(root: int, m: Memory, v: nat, i: nat)
    requires StopsAt(root, m, v, i)
    ensures Pte(root, m, v + i) == 0
  {
    hide Parts3;
  }

  /** One more page. */
  lemma OneTableLess(root: int, m0: Memory, m1: Memory, m2: Memory, v: nat, n: nat)
    requires v + n < PAGES && Cleared(root, m0, m1, v, n)
    requires TablesLeft(root, m0, m1, v, n) && TablesLeft(root, m1, m2, v + n, 1)
    ensures TablesLeft(root, m0, m2, v, n + 1)
    ensures StopsAt(root, m0, v, n) <==> LastTable(root, m1, v + n) == 0
  {
    hide LastTable, Parts3, Pte, Index1;
    OneMorePart(v, n);
    OnePart(v + n);
    forall w: nat | w < PAGES
      ensures LastTable(root, m2, w) == 0 <==>
              LastTable(root, m0, w) == 0 || (w / 0x200 in Parts3(v, n + 1) && OthersUnmapped(root, m0, v, n + 1, w))
    {
      if w / 0x200 == (v + n) / 0x200 {
        OthersAfterClear(root, m0, m1, v, n, w);
      }
    }
  }

  lemma OthersAfterClear(root: int, m0: Memory, m1: Memory, v: nat, n: nat, w: nat)
    requires v + n < PAGES && w < PAGES && Cleared(root, m0, m1, v, n)
    ensures OthersUnmapped(root, m1, v + n, 1, w) <==> OthersUnmapped(root, m0, v, n + 1, w)
    ensures OthersUnmapped(root, m0, v, n, w) ==> OthersUnmapped(root, m0, v, n + 1, w)
  {
    hide Pte;
    forall x: nat | x / 0x200 == w / 0x200 ensures x < PAGES {
    }
  }

  /** Page by page. */
  lemma OneMoreMade(root: int, m0: Memory, m1: Memory, m2: Memory, v: nat, n: nat)
    requires v + n < PAGES && TablesMade(root, m0, m1, v, n) && TablesMade(root, m1, m2, v + n, 1)
    ensures TablesMade(root, m0, m2, v, n + 1)
  {
    hide Next, Index1, LastTable, Parts2, Parts3;
    OneMorePart(v, n);
    OnePart(v + n);
  }

  lemma GrowsBy2(root: int, m: Memory, v: nat, n: nat)
    ensures Without2(root, m, v, n + 1) ==
            Without2(root, m, v, n) + if Next(m, root, Index1(v + n)) == 0 then {Index1(v + n)} else {}
    ensures Index1(v + n) in Without2(root, m, v, n) <==>
            Next(m, root, Index1(v + n)) == 0 && Index1(v + n) in Parts2(v, n)
  {
    hide Next, Index1;
    if Next(m, root, Index1(v + n)) == 0 {
      assert Index1(v + n) in Without2(root, m, v, n + 1);
    }
  }

  lemma GrowsBy3(root: int, m: Memory, v: nat, n: nat)
    requires v + n < PAGES
    ensures Without3(root, m, v, n + 1) ==
            Without3(root, m, v, n) + if LastTable(root, m, v + n) == 0 then {(v + n) / 0x200} else {}
    ensures (v + n) / 0x200 in Without3(root, m, v, n) <==>
            LastTable(root, m, v + n) == 0 && (v + n) / 0x200 in Parts3(v, n)
  {
    forall w: nat | w < PAGES && w / 0x200 == (v + n) / 0x200
      ensures LastTable(root, m, w) == LastTable(root, m, v + n)
    {
      SamePart(v + n, w);
    }
    hide LastTable;
    if (v + n) / 0x200 in Parts3(v, n) {
      var w: nat :| v <= w < v + n && w / 0x200 == (v + n) / 0x200;
      assert LastTable(root, m, w) == LastTable(root, m, v + n);
    }
    if LastTable(root, m, v + n) == 0 {
      assert (v + n) / 0x200 in Without3(root, m, v, n + 1);
    }
  }

  lemma CountMore(s: set<int>, x: int)
    ensures Count(s + {x}) == Count(s) + if x in s then 0 else 1
  {
    if x in s {
      assert s + {x} == s;
    }
  }

  lemma OneMoreMissing(root: int, m0: Memory, m1: Memory, v: nat, n: nat)
    requires v + n < PAGES && TablesMade(root, m0, m1, v, n)
    ensures TablesMissing(root, m0, v, n + 1) == TablesMissing(root, m0, v, n) + TablesMissing(root, m1, v + n, 1)
  {
    hide Next, Index1, LastTable, Without2, Without3, Parts2, Parts3, Count;
    GrowsBy2(root, m0, v, n);
    GrowsBy3(root, m0, v, n);
    CountMore(Without2(root, m0, v, n), Index1(v + n));
    CountMore(Without3(root, m0, v, n), (v + n) / 0x200);
    OnePageMisses(root, m1, v + n);
    assert Without2(root, m0, v, n) + {} == Without2(root, m0, v, n);
    assert Without3(root, m0, v, n) + {} == Without3(root, m0, v, n);
  }

  lemma SubsetCount(s: set<int>, t: set<int>)
    requires s <= t
    ensures Count(s) <= Count(t)
  {
    assert t == s + (t - s);
  }

  lemma MorePagesMissMore(root: int, m: Memory, v: nat, k: nat, n: nat)
    requires k <= n
    ensures TablesMissing(root, m, v, k) <= TablesMissing(root, m, v, n)
  {
    hide Next, Index1, LastTable;
    SubsetCount(Without2(root, m, v, k), Without2(root, m, v, n));
    SubsetCount(Without3(root, m, v, k), Without3(root, m, v, n));
  }

  /** The tables that are missing for one page. */
  lemma OnePageMisses(root: int, m: Memory, v: nat)
    ensures TablesMissing(root, m, v, 1) ==
            (if Next(m, root, Index1(v)) == 0 then 1 else 0) + if LastTable(root, m, v) == 0 then 1 else 0
  {
    hide Next, Index1, LastTable;
    assert Without2(root, m, v, 1) == if Next(m, root, Index1(v)) == 0 then {Index1(v)} else {};
    assert Without3(root, m, v, 1) == if LastTable(root, m, v) == 0 then {v / 0x200} else {};
  }

  /** At most two tables are missing for each page. */
  lemma {:induction false} MissingAtMost(root: int, m: Memory, v: nat, n: nat)
    requires v + n <= PAGES
    ensures TablesMissing(root, m, v, n) <= 2 * n
  {
    hide Next, Index1, LastTable, Without2, Without3, Parts2, Parts3, Count;
    if n == 0 {
      NoTablesMade(root, m, v);
    } else {
      MissingAtMost(root, m, v, n - 1);
      GrowsBy2(root, m, v, n - 1);
      GrowsBy3(root, m, v, n - 1);
      CountMore(Without2(root, m, v, n - 1), Index1(v + n - 1));
      CountMore(Without3(root, m, v, n - 1), (v + n - 1) / 0x200);
      assert Without2(root, m, v, n - 1) + {} == Without2(root, m, v, n - 1);
      assert Without3(root, m, v, n - 1) + {} == Without3(root, m, v, n - 1);
    }
  }

  lemma SamePart(v: nat, w: nat)
    requires v < PAGES && w < PAGES
    ensures v / 0x200 == w / 0x200 <==> Index1(v) == Index1(w) && Index2(v) == Index2(w)
  {
    IndicesOf(v);
    IndicesOf(w);
  }

  /** The second-level table for page `v` was made, if it was missing; no other one was. */
  ghost predicate Made2(root: int, m0: Memory, m1: Memory, v: nat) {
    && (forall w: nat | w < PAGES ::
          Next(m1, root, Index1(w)) == 0 <==> Next(m0, root, Index1(w)) == 0 && Index1(w) != Index1(v))
    && (forall w: nat | w < PAGES :: LastTable(root, m1, w) == 0 <==> LastTable(root, m0, w) == 0)
  }

  /** The same for the third-level table. */
  ghost predicate Made3(root: int, m0: Memory, m1: Memory, v: nat) {
    && (forall w: nat | w < PAGES :: Next(m1, root, Index1(w)) == 0 <==> Next(m0, root, Index1(w)) == 0)
    && (forall w: nat | w < PAGES ::
          LastTable(root, m1, w) == 0 <==> LastTable(root, m0, w) == 0 && w / 0x200 != v / 0x200)
  }

  lemma Made2Keeps(root: int, m0: Memory, m1: Memory, v: nat)
    requires v < PAGES && Made2(root, m0, m1, v)
    ensures LastTable(root, m1, v) == 0 <==> LastTable(root, m0, v) == 0
  {
  }

  lemma HungMakes2(root: int, m0: Memory, owner0: Owners, m1: Memory, v: nat, c: int)
    requires Tree(root, m0, owner0) && Hung(m0, owner0, m1, root, Index1(v), c)
    ensures Made2(root, m0, m1, v)
  {
    forall w: nat
      ensures Next(m1, root, Index1(w)) == 0 <==> Next(m0, root, Index1(w)) == 0 && Index1(w) != Index1(v)
      ensures LastTable(root, m1, w) == LastTable(root, m0, w)
    {
      NextInTree(root, m0, owner0, root, Index1(w));
    }
  }

  lemma HungMakes3(root: int, m0: Memory, owner0: Owners, m1: Memory, v: nat, l2: int, c: int)
    requires Tree(root, m0, owner0) && v < PAGES && l2 == Next(m0, root, Index1(v)) != 0
    requires Hung(m0, owner0, m1, l2, Index2(v), c)
    ensures Made3(root, m0, m1, v)
  {
    NextInTree(root, m0, owner0, root, Index1(v));
    forall w: nat | w < PAGES
      ensures Next(m1, root, Index1(w)) == Next(m0, root, Index1(w))
      ensures LastTable(root, m1, w) == 0 <==> LastTable(root, m0, w) == 0 && w / 0x200 != v / 0x200
    {
      SamePart(v, w);
      NextInTree(root, m0, owner0, root, Index1(w));
    }
  }

  lemma NothingToMake(root: int, m: Memory, v: nat)
    requires v < PAGES
    ensures Next(m, root, Index1(v)) != 0 ==> Made2(root, m, m, v)
    ensures LastTable(root, m, v) != 0 ==> Made3(root, m, m, v)
  {
    if LastTable(root, m, v) != 0 {
      forall w: nat | w < PAGES && w / 0x200 == v / 0x200 ensures LastTable(root, m, w) != 0 {
        SamePart(v, w);
      }
    }
  }

  /** Making both tables of a page, and then writing page descriptors. */
  lemma BothMade(root: int, m0: Memory, m1: Memory, m2: Memory, v: nat)
    requires v < PAGES && Made2(root, m0, m1, v) && Made3(root, m1, m2, v)
    ensures TablesMade(root, m0, m2, v, 1)
  {
    hide Next, Index1, LastTable, Parts2, Parts3;
    OnePart(v);
  }

  lemma MadeThenWritten(root: int, m0: Memory, m1: Memory, owner1: Owners, m2: Memory, v: nat)
    requires TablesMade(root, m0, m1, v, 1) && Tree(root, m1, owner1) && SameSteps(m1, owner1, m2)
    ensures TablesMade(root, m0, m2, v, 1)
  {
    forall w: nat
      ensures Next(m2, root, Index1(w)) == Next(m1, root, Index1(w)) && LastTable(root, m2, w) == LastTable(root, m1, w)
    {
      NextInTree(root, m1, owner1, root, Index1(w));
    }
  }

  const NO_TRANSLATION: nat := 0xFFFF_FFFF_FFFF_FFFF

  /** The physical address of a virtual one. */
  function Translation(root: int, m: Memory, virt: nat): nat {
    var d := Pte(root, m, Page(virt));
    if d == 0 then NO_TRANSLATION else Target(d) + virt % 4096
  }

  lemma TranslationIs(root: int, m: Memory, virt: nat)
    ensures Translation(root, m, virt) ==
            var d := Pte(root, m, Page(virt));
            if d == 0 then NO_TRANSLATION else Target(d) + virt % 4096
  {
  }

  lemma LastStep(root: int, m: Memory, owner: Owners, v: nat, l2: int, l3: int)
    requires Tree(root, m, owner) && l2 == Next(m, root, Index1(v)) != 0 && l3 == Next(m, l2, Index2(v)) != 0
    ensures l3 in m && Pte(root, m, v) == m[l3][Index3(v)]
    ensures Pte(root, m, v) == 0 <==> !IsLive(m[l3][Index3(v)])
  {
    NextInTree(root, m, owner, root, Index1(v));
    NextInTree(root, m, owner, l2, Index2(v));
    assert PointsWell(m, owner, l3, Index3(v));
  }

  /** After `map` every byte of the range is found at its distance from `phys`, every other byte where it was. */
  lemma MappedTranslates(root: int, m0: Memory, m1: Memory, va: nat, phys: nat, size: nat, flags: nat, virt: nat)
    requires IsAligned(va) && IsAligned(phys) && IsAligned(size) && flags < 4096
    requires Page(virt) < PAGES && phys + size <= PHYS_LIMIT
    requires Mapped(root, m0, m1, Page(va), Page(size), phys, flags)
    ensures Translation(root, m1, virt) ==
            if va <= virt < va + size then phys + (virt - va) else Translation(root, m0, virt)
  {
    var w := Page(virt);
    if va <= virt < va + size {
      assert Pte(root, m1, w) == PageDescriptor(FrameAt(phys, w - Page(va)), flags);
    } else {
      assert Pte(root, m1, w) == Pte(root, m0, w);
    }
  }

  /** The page number with three given indices. */
  lemma PageWith(i: nat, j: nat, k: nat) returns (w: nat)
    requires i < ENTRIES && j < ENTRIES && k < ENTRIES
    ensures w < PAGES && Index1(w) == i && Index2(w) == j && Index3(w) == k
  {
    w := (i * 0x200 + j) * 0x200 + k;
    assert w / 0x200 == i * 0x200 + j;
    assert w / 0x4_0000 == i;
  }

  /** What `translate` says about every page decides every walk. */
  lemma PtesDecideWalks(root: int, m0: Memory, m1: Memory)
    requires SamePtes(root, m0, m1)
    ensures SameWalks(root, m0, m1)
  {
    forall i: nat, j: nat, k: nat | i < ENTRIES && j < ENTRIES && k < ENTRIES
      ensures Walk(root, m1, i, j, k) == Walk(root, m0, i, j, k)
    {
      hide Walk, Index1, Index2, Index3;
      var w := PageWith(i, j, k);
      assert Pte(root, m0, w) == Pte(root, m1, w);
    }
  }

  /** `map` on pages that were not mapped, then `unmap` of them: every translation and every table is as before. */
  lemma MapThenUnmap(root: int, m0: Memory, owner0: Owners, m1: Memory, owner1: Owners, m2: Memory, owner2: Owners,
                     v: nat, n: nat, phys: nat, flags: nat)
    requires Tree(root, m0, owner0) && Tree(root, m1, owner1) && Tree(root, m2, owner2)
    requires IsAligned(phys) && flags < 4096 && v + n <= PAGES && IsUnmapped(root, m0, v, n)
    requires Mapped(root, m0, m1, v, n, phys, flags) && Keeps(owner0, owner1)
    requires Cleared(root, m1, m2, v, n) && Keeps(owner2, owner1)
    requires Empties(root, m0, owner0) == {} && Empties(root, m2, owner2) == {}
    ensures SamePtes(root, m0, m2)
    ensures owner2 == owner0
  {
    forall w: nat | w < PAGES ensures Pte(root, m2, w) == Pte(root, m0, w) {
      assert Pte(root, m1, w) == Pte(root, m1, w);
    }
    PtesDecideWalks(root, m0, m2);
    SameTranslationsSameTables(root, m0, owner0, m1, owner1, m2, owner2);
  }
}
