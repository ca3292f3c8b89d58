/**
 Long file names in directory entries (section 7 of the Microsoft FAT Specification):
 13 units of the name in each 32 byte entry, the last entry of the name first on the card.
 */
module LongNames {
  import opened Machine
  import opened FatEntries

  /** Offsets of the 13 units in an entry. */
  const LFN_OFS: seq<nat> := [1, 3, 5, 7, 9, 14, 16, 18, 20, 22, 24, 28, 30]

  const MAX_LFN: nat := 255
  const LLEF: nat := 0x40
  const AM_LFN: nat := 0x0F

  const LDIR_ORD: nat := 0
  const LDIR_ATTR: nat := 11
  const LDIR_TYPE: nat := 12
  const LDIR_CHKSUM: nat := 13
  const LDIR_FSTCLUSLO: nat := 26

  type Entry = e: seq<byte> | |e| == 32 witness seq(32, _ => 0)

  /** Unit `di` of an entry. */
  function UnitOf(e: Entry, di: nat): (u: u16)
    requires di < 13
  {
    Load16(e[LFN_OFS[di]], e[LFN_OFS[di] + 1])
  }

  predicate IsLast(e: Entry) {
    e[LDIR_ORD] / LLEF % 2 == 1
  }

  function FstClus(e: Entry): u16 {
    Load16(e[LDIR_FSTCLUSLO], e[LDIR_FSTCLUSLO + 1])
  }

  /** A name as the entries can hold it: neither the terminator 0 nor the filler 0xFFFF occurs in it. */
  predicate IsName(name: seq<u16>) {
    |name| <= MAX_LFN && forall i | 0 <= i < |name| :: name[i] != 0 && name[i] != 0xFFFF
  }

  /** Unit `i` of a name, its terminator and the filler after it. */
  function Padded(name: seq<u16>, i: nat): u16 {
    if i < |name| then name[i] else if i == |name| then 0 else 0xFFFF
  }

  /** The number of entries a name takes. */
  function EntryCount(name: seq<u16>): nat {
    (|name| + 12) / 13
  }

  /** `e` is entry number `ord` of `name`. */
  predicate IsEntryOf(e: Entry, name: seq<u16>, ord: nat, sum: byte) {
    && 1 <= ord <= 20
    && e[LDIR_ORD] == (if |name| <= ord * 13 then ord + LLEF else ord)
    && e[LDIR_ATTR] == AM_LFN && e[LDIR_TYPE] == 0 && e[LDIR_CHKSUM] == sum && FstClus(e) == 0
    && forall di | 0 <= di < 13 :: UnitOf(e, di) == Padded(name, (ord - 1) * 13 + di)
  }

  /** The buffer holds a terminated name. */
  predicate Holds(lfn: seq<u16>, name: seq<u16>) {
    |lfn| == MAX_LFN + 1 && |name| <= MAX_LFN && lfn[..|name|] == name && lfn[|name|] == 0
  }

  /** The bytes of the units and of the other fields do not overlap. */
  lemma Offsets(i: nat, j: nat)
    requires i < 13 && j < 13
    ensures i < j ==> LFN_OFS[i] + 2 <= LFN_OFS[j]
    ensures 1 <= LFN_OFS[i] && LFN_OFS[i] + 2 <= 32
    ensures LFN_OFS[i] + 2 <= LDIR_ATTR || LDIR_CHKSUM < LFN_OFS[i]
    ensures LFN_OFS[i] + 2 <= LDIR_FSTCLUSLO || LDIR_FSTCLUSLO + 2 <= LFN_OFS[i]
  {
  }

  /** The two bytes at `at` hold unit `i` of the name, or the 0 behind it, or the filler 0xFFFF behind that. */
  ghost predicate HasUnit(e: Entry, at: nat, name: seq<u16>, i: nat)
    requires at + 1 < 32
  {
    e[at] as int + 0x100 * e[at + 1] as int ==
      if i < |name| then name[i] as int else if i == |name| then 0 else 0xFFFF
  }

  /** Where unit `di` lies. */
  lemma UnitOnDisk(e: Entry, name: seq<u16>, i: nat, di: nat)
    requires di < 13
    ensures var at := if di < 5 then 1 + 2 * di else if di < 11 then 14 + 2 * (di - 5) else 28 + 2 * (di - 11);
            LFN_OFS[di] == at && (UnitOf(e, di) == Padded(name, i) <==> HasUnit(e, at, name, i))
  {
  }

  /**
    * An entry of a name byte by byte: the order, with bit 6 on the last part; 5 units from byte 1, 6 from byte 14 and 2
    * from byte 28 on; the attribute 0x0F, the type 0, the check sum and no cluster between them.
    */
  lemma EntryOnDisk(e: Entry, name: seq<u16>, ord: nat, sum: byte)
    ensures IsEntryOf(e, name, ord, sum) <==>
              && 1 <= ord <= 20
              && e[0] as int == (if |name| <= 13 * ord then ord + 0x40 else ord)
              && e[11] == 0x0F && e[12] == 0 && e[13] == sum && e[26] == 0 && e[27] == 0
              && (forall j | 0 <= j < 5 :: HasUnit(e, 1 + 2 * j, name, (ord - 1) * 13 + j))
              && (forall j | 0 <= j < 6 :: HasUnit(e, 14 + 2 * j, name, (ord - 1) * 13 + 5 + j))
              && (forall j | 0 <= j < 2 :: HasUnit(e, 28 + 2 * j, name, (ord - 1) * 13 + 11 + j))
  {
    hide UnitOf, Padded, HasUnit, FstClus;
    FstClusOnDisk(e);
    if 1 <= ord <= 20 {
      UnitsOnDisk(e, name, (ord - 1) * 13);
    }
  }

  lemma FstClusOnDisk(e: Entry)
    ensures FstClus(e) == 0 <==> e[26] == 0 && e[27] == 0
  {
  }

  lemma UnitsOnDisk(e: Entry, name: seq<u16>, i: nat)
    ensures (forall di | 0 <= di < 13 :: UnitOf(e, di) == Padded(name, i + di)) <==>
              && (forall j | 0 <= j < 5 :: HasUnit(e, 1 + 2 * j, name, i + j))
              && (forall j | 0 <= j < 6 :: HasUnit(e, 14 + 2 * j, name, i + 5 + j))
              && (forall j | 0 <= j < 2 :: HasUnit(e, 28 + 2 * j, name, i + 11 + j))
  {
    hide UnitOf, Padded, HasUnit;
    if forall di | 0 <= di < 13 :: UnitOf(e, di) == Padded(name, i + di) {
      forall j | 0 <= j < 5 ensures HasUnit(e, 1 + 2 * j, name, i + j) {
        UnitOnDisk(e, name, i + j, j);
      }
      forall j | 0 <= j < 6 ensures HasUnit(e, 14 + 2 * j, name, i + 5 + j) {
        UnitOnDisk(e, name, i + (5 + j), 5 + j);
      }
      forall j | 0 <= j < 2 ensures HasUnit(e, 28 + 2 * j, name, i + 11 + j) {
        UnitOnDisk(e, name, i + (11 + j), 11 + j);
      }
    } else {
      var di :| 0 <= di < 13 && UnitOf(e, di) != Padded(name, i + di);
      UnitOnDisk(e, name, i + di, di);
      if di >= 11 {
        assert !HasUnit(e, 28 + 2 * (di - 11), name, i + 11 + (di - 11));
      } else if di >= 5 {
        assert !HasUnit(e, 14 + 2 * (di - 5), name, i + 5 + (di - 5));
      }
    }
  }

  /** `st_16` into an entry. */
  method StoreUnit(dir: array<byte>, at: nat, u: u16)
    requires at + 2 <= dir.Length
    modifies dir
    ensures Load16(dir[at], dir[at + 1]) == u
    ensures forall k | 0 <= k < dir.Length && k != at && k != at + 1 :: dir[k] == old(dir[k])
  {
    dir[at] := u % 0x100;
    dir[at + 1] := u / 0x100;
  }

  /** Unit `di` of an entry; the other units and fields stay. */
  method PutUnit(dir: array<byte>, di: nat, u: u16)
    requires dir.Length == 32 && di < 13
    modifies dir
    ensures UnitOf(dir[..], di) == u && forall j | 0 <= j < di :: UnitOf(dir[..], j) == UnitOf(old(dir[..]), j)
    ensures dir[LDIR_CHKSUM] == old(dir[LDIR_CHKSUM]) && dir[LDIR_ATTR] == old(dir[LDIR_ATTR])
    ensures dir[LDIR_TYPE] == old(dir[LDIR_TYPE]) && FstClus(dir[..]) == FstClus(old(dir[..]))
  {
    Offsets(di, di);
    ghost var before := dir[..];
    StoreUnit(dir, LFN_OFS[di], u);
    forall j | 0 <= j < di ensures UnitOf(dir[..], j) == UnitOf(before, j) {
      Offsets(j, di);
    }
  }

  method PutLfn(lfn: seq<u16>, dir: array<byte>, ord: byte, sum: byte, ghost name: seq<u16>)
    requires Holds(lfn, name) && IsName(name) && dir.Length == 32
    requires 1 <= ord <= 20 && (ord - 1) * 13 <= |name|
    modifies dir
    ensures IsEntryOf(dir[..], name, ord, sum)
  {
    hide UnitOf, Load16;
    dir[LDIR_CHKSUM] := sum;
    dir[LDIR_ATTR] := AM_LFN;
    dir[LDIR_TYPE] := 0;
    StoreUnit(dir, LDIR_FSTCLUSLO, 0);
    var ni := (ord - 1) * 13;
    var di, chr: u16 := 0, 0;
    while di < 13
      invariant 0 <= di <= 13
      invariant dir[LDIR_CHKSUM] == sum && dir[LDIR_ATTR] == AM_LFN && dir[LDIR_TYPE] == 0 && FstClus(dir[..]) == 0
      invariant forall j | 0 <= j < di :: UnitOf(dir[..], j) == Padded(name, (ord - 1) * 13 + j)
      invariant chr == 0xFFFF <==> (ord - 1) * 13 + di > |name|
      invariant chr != 0xFFFF ==> ni == (ord - 1) * 13 + di
    {
      if chr != 0xFFFF {
        assert ni < |name| ==> lfn[ni] == lfn[..|name|][ni];
        chr := lfn[ni];
        ni := ni + 1;
      }
      PutUnit(dir, di, chr);
      if chr == 0 {
        chr := 0xFFFF;
      }
      di := di + 1;
    }
    var last := chr == 0xFFFF;
    if !last {
      assert ni < |name| ==> lfn[ni] == lfn[..|name|][ni];
      last := lfn[ni] == 0;
    }
    ghost var before := dir[..];
    dir[LDIR_ORD] := if last then ord + LLEF else ord;
    OrderBeside(before, dir[..]);
  }

  /** The order byte is no part of a unit. */
  lemma OrderBeside(e: Entry, e': Entry)
    requires forall k | 0 <= k < 32 && k != LDIR_ORD :: e'[k] == e[k]
    ensures forall j | 0 <= j < 13 :: UnitOf(e', j) == UnitOf(e, j)
    ensures FstClus(e') == FstClus(e)
  {
    forall j | 0 <= j < 13 ensures UnitOf(e', j) == UnitOf(e, j) {
      Offsets(j, j);
    }
  }

  // ---------- Reading entries ----------

  /** Index of the first unit from `di` on that is 0, or 13. */
  function FirstZero(e: Entry, di: nat): (z: nat)
    requires di <= 13
    ensures di <= z <= 13 && (z < 13 ==> UnitOf(e, z) == 0)
    ensures forall j | di <= j < z :: UnitOf(e, j) != 0
    decreases 13 - di
  {
    if di == 13 || UnitOf(e, di) == 0 then di else FirstZero(e, di + 1)
  }

  /** Number of units that belong to the name, its terminator included. */
  function NameUnits(e: Entry): (n: nat)
    ensures 1 <= n <= 13
  {
    if FirstZero(e, 0) < 13 then FirstZero(e, 0) + 1 else 13
  }

  /** Only filler follows the terminator. */
  predicate FillerOk(e: Entry) {
    forall j | NameUnits(e) <= j < 13 :: UnitOf(e, j) == 0xFFFF
  }

  /** Place in the name of the first unit of entry number `k`, in unsigned arithmetic. */
  function Start(k: nat): (ni: nat)
    ensures k > 0 && k < 0x100 ==> ni == (k - 1) * 13
    ensures k == 0 ==> ni == POW32 - 13
  {
    ((k - 1) * 13) % POW32
  }

  function PickOrd(e: Entry): nat {
    if IsLast(e) then e[LDIR_ORD] - LLEF else e[LDIR_ORD]
  }

  /** The last entry has no room for the terminator. */
  predicate EndsFull(e: Entry) {
    IsLast(e) && FirstZero(e, 0) == 13
  }

  /** Exactly the entries that `pick_lfn` accepts. */
  predicate Pickable(e: Entry) {
    && FstClus(e) == 0 && FillerOk(e)
    && Start(PickOrd(e)) + NameUnits(e) <= MAX_LFN + 1
    && (EndsFull(e) ==> Start(PickOrd(e)) + 13 <= MAX_LFN)
  }

  /** What `pick_lfn` makes of unit `i` of the name buffer. */
  function PickedUnit(old_: seq<u16>, e: Entry, i: nat): u16
    requires i < |old_|
  {
    var ni := Start(PickOrd(e));
    if ni <= i < ni + NameUnits(e) then UnitOf(e, i - ni)
    else if EndsFull(e) && i == ni + 13 then 0
    else old_[i]
  }

  method PickLfn(lfnbuf: array<u16>, dir: Entry) returns (ok: bool)
    requires lfnbuf.Length == MAX_LFN + 1
    modifies lfnbuf
    ensures ok <==> Pickable(dir)
    ensures ok ==> forall i | 0 <= i <= MAX_LFN :: lfnbuf[i] == PickedUnit(old(lfnbuf[..]), dir, i)
  {
    hide UnitOf, FstClus, IsLast, FirstZero, Start;
    if FstClus(dir) != 0 {
      return false;
    }
    var ni := Start(PickOrd(dir));
    ghost var start := ni;
    var di, pchr: u16 := 0, 1;
    while di < 13
      invariant 0 <= di <= 13
      invariant if di < NameUnits(dir) then pchr != 0 && ni == start + di
                else ni == start + NameUnits(dir) && (pchr == 0 <==> FirstZero(dir, 0) < 13)
      invariant di > 0 ==> start + (if di < NameUnits(dir) then di else NameUnits(dir)) <= MAX_LFN + 1
      invariant forall j | NameUnits(dir) <= j < di :: UnitOf(dir, j) == 0xFFFF
      invariant forall i | 0 <= i <= MAX_LFN ::
                  lfnbuf[i] == if start <= i < start + di && i < start + NameUnits(dir) then UnitOf(dir, i - start)
                               else old(lfnbuf[i])
    {
      var chr := UnitOf(dir, di);
      if pchr != 0 {
        if ni >= MAX_LFN + 1 {
          return false;
        }
        pchr := chr;
        lfnbuf[ni] := pchr;
        ni := ni + 1;
      } else {
        if chr != 0xFFFF {
          return false;
        }
      }
      di := di + 1;
    }
    if IsLast(dir) && pchr != 0 {
      if ni >= MAX_LFN + 1 {
        return false;
      }
      lfnbuf[ni] := 0;
    }
    ok := true;
  }

  /** Exactly the entries that `cmp_lfn` accepts for the name in `lfnbuf`. */
  predicate Matches(up: u16 -> u16, lfnbuf: seq<u16>, e: Entry)
    requires |lfnbuf| == MAX_LFN + 1
  {
    var ni := Start(e[LDIR_ORD] % LLEF);
    && FstClus(e) == 0 && FillerOk(e)
    && ni + NameUnits(e) <= MAX_LFN + 1
    && (forall j | 0 <= j < NameUnits(e) :: up(UnitOf(e, j)) == up(lfnbuf[ni + j]))
    && (EndsFull(e) ==> ni + 13 <= MAX_LFN && lfnbuf[ni + 13] == 0)
  }

  /** An entry starts at a multiple of 13, so a full one that fits ends before the buffer does. */
  lemma StartFits(k: nat)
    ensures k < 0x100 && Start(k) + 13 <= MAX_LFN + 1 ==> Start(k) + 13 <= MAX_LFN
  {
  }

  method CmpLfn(up: u16 -> u16, lfnbuf: seq<u16>, dir: Entry) returns (b: bool)
    requires |lfnbuf| == MAX_LFN + 1
    ensures b <==> Matches(up, lfnbuf, dir)
  {
    hide UnitOf, FstClus, IsLast, FirstZero, Start;
    if FstClus(dir) != 0 {
      return false;
    }
    var ni := Start(dir[LDIR_ORD] % LLEF);
    ghost var start := ni;
    var di, pchr: u16 := 0, 1;
    while di < 13
      invariant 0 <= di <= 13
      invariant if di < NameUnits(dir) then pchr != 0 && ni == start + di
                else ni == start + NameUnits(dir) && (pchr == 0 <==> FirstZero(dir, 0) < 13)
      invariant di > 0 ==> start + (if di < NameUnits(dir) then di else NameUnits(dir)) <= MAX_LFN + 1
      invariant forall j | NameUnits(dir) <= j < di :: UnitOf(dir, j) == 0xFFFF
      invariant forall j | 0 <= j < di && j < NameUnits(dir) :: up(UnitOf(dir, j)) == up(lfnbuf[start + j])
    {
      var chr := UnitOf(dir, di);
      if pchr != 0 {
        if ni >= MAX_LFN + 1 {
          return false;
        }
        ni := ni + 1;
        if up(chr) != up(lfnbuf[ni - 1]) {
          return false;
        }
        pchr := chr;
      } else {
        if chr != 0xFFFF {
          return false;
        }
      }
      di := di + 1;
    }
    StartFits(dir[LDIR_ORD] % LLEF);
    if IsLast(dir) && pchr != 0 && lfnbuf[ni] != 0 {
      return false;
    }
    b := true;
  }

  // ---------- Whole names ----------

  /** The entries of a name in the order of the directory, the last part of the name first. */
  ghost predicate IsNameSet(es: seq<Entry>, name: seq<u16>, sum: byte) {
    && |es| == EntryCount(name)
    && forall k | 0 <= k < |es| :: IsEntryOf(es[k], name, |es| - k, sum)
  }

  /** What the reading functions derive from an entry that `put_lfn` made. */
  lemma EntryShape(e: Entry, name: seq<u16>, ord: nat, sum: byte)
    requires IsName(name) && IsEntryOf(e, name, ord, sum) && (ord - 1) * 13 < |name|
    ensures IsLast(e) == (|name| <= ord * 13) && PickOrd(e) == e[LDIR_ORD] % LLEF == ord
    ensures e[LDIR_CHKSUM] == sum && 1 <= ord <= 20 && e[LDIR_ORD] == (if IsLast(e) then ord + LLEF else ord)
    ensures Start(ord) == (ord - 1) * 13
    ensures NameUnits(e) == if |name| < ord * 13 then |name| + 1 - (ord - 1) * 13 else 13
    ensures EndsFull(e) == (|name| == ord * 13)
    ensures FillerOk(e)
  {
    hide UnitOf, FstClus;
    var z := FirstZero(e, 0);
    if |name| < ord * 13 {
      var d := |name| - (ord - 1) * 13;
      assert UnitOf(e, d) == Padded(name, (ord - 1) * 13 + d) == 0;
      assert z == d;
    } else {
      forall j | 0 <= j < 13 ensures UnitOf(e, j) != 0 {
        assert UnitOf(e, j) == Padded(name, (ord - 1) * 13 + j);
      }
    }
  }

  /** Storing a name, from its last entry to its first, as `dir_register` does. */
  method StoreName(lfn: seq<u16>, sum: byte, ghost name: seq<u16>) returns (es: seq<Entry>)
    requires Holds(lfn, name) && IsName(name)
    ensures IsNameSet(es, name, sum)
  {
    var len := 0;
    assert forall i | 0 <= i < |name| :: lfn[i] == lfn[..|name|][i];
    while lfn[len] != 0
      invariant 0 <= len <= |name|
      decreases |name| - len
    {
      len := len + 1;
    }
    es := [];
    var nEnt := (len + 12) / 13;
    while nEnt > 0
      invariant len == |name| && 0 <= nEnt <= EntryCount(name) && |es| == EntryCount(name) - nEnt
      invariant forall k | 0 <= k < |es| :: IsEntryOf(es[k], name, EntryCount(name) - k, sum)
    {
      hide IsEntryOf;
      var dir := new byte[32];
      PutLfn(lfn, dir, nEnt, sum, name);
      es := es + [dir[..]];
      nEnt := nEnt - 1;
    }
  }

  /**
    * The entries `es[i..k]` are parts of one name, from the last one, which is marked, down to part `o + 1`, all with
    * the same check sum.
    */
  ghost predicate Parts(es: seq<Entry>, i: nat, k: nat, o: nat) {
    && i < k <= |es|
    && forall j | i <= j < k ::
         IsLast(es[j]) == (j == i) && PickOrd(es[j]) == o + (k - j) && es[j][LDIR_CHKSUM] == es[i][LDIR_CHKSUM]
  }

  lemma OneMorePart(es: seq<Entry>, i: nat, k: nat, o: nat)
    requires k < |es|
    ensures i == k ==> (Parts(es, i, k + 1, o) <==> IsLast(es[k]) && PickOrd(es[k]) == o + 1)
    ensures i < k ==>
              (Parts(es, i, k + 1, o) <==>
                 && Parts(es, i, k, o + 1)
                 && !IsLast(es[k]) && PickOrd(es[k]) == o + 1 && es[k][LDIR_CHKSUM] == es[i][LDIR_CHKSUM])
    ensures Parts(es, i, k + 1, o) ==> i <= k
  {
    hide IsLast, PickOrd;
    if i < k && Parts(es, i, k + 1, o) {
      assert forall j | i <= j < k :: PickOrd(es[j]) == (o + 1) + (k - j);
    }
  }

  /** All of the entries `i` to `k` were accepted. */
  ghost predicate Accepted(acc: seq<bool>, i: nat, k: nat) {
    k <= |acc| && forall j | i <= j < k :: acc[j]
  }

  /** `ord` counts the parts that are still to come, 0xFF if the entries so far do not end in parts of one name. */
  ghost predicate Tracks(es: seq<Entry>, k: nat, acc: seq<bool>, ord: byte, sum: byte) {
    && |acc| == k <= |es|
    && (forall i: nat, o: nat | i < |es| && Parts(es, i, k, o) && Accepted(acc, i, k) ::
          o == ord && es[i][LDIR_CHKSUM] == sum)
    && (ord != 0xFF ==> exists i: nat :: Parts(es, i, k, ord) && Accepted(acc, i, k))
  }

  lemma AcceptedOn(acc: seq<bool>, ok: bool, i: nat, k: nat)
    requires |acc| == k
    ensures i <= k ==> (Accepted(acc + [ok], i, k + 1) <==> ok && (i == k || Accepted(acc, i, k)))
  {
    if i <= k && ok && (i == k || Accepted(acc, i, k)) {
      assert forall j | i <= j < k :: (acc + [ok])[j] == acc[j];
    }
    if i <= k && Accepted(acc + [ok], i, k + 1) {
      assert (acc + [ok])[k] == ok;
      assert forall j | i <= j < k :: (acc + [ok])[j] == acc[j];
    }
  }

  /** One more entry: the marked one starts afresh, any other one has to be the next part. */
  lemma TracksOn(es: seq<Entry>, k: nat, acc: seq<bool>, ord: byte, sum: byte, ok: bool, ord': byte, sum': byte)
    requires k < |es| && Tracks(es, k, acc, ord, sum) && (ok ==> PickOrd(es[k]) > 0)
    requires sum' == if IsLast(es[k]) then es[k][LDIR_CHKSUM] else sum
    requires var want := if IsLast(es[k]) then PickOrd(es[k]) else ord as int;
             ord' == if ok && PickOrd(es[k]) == want && es[k][LDIR_CHKSUM] == sum' then want - 1 else 0xFF
    ensures Tracks(es, k + 1, acc + [ok], ord', sum')
  {
    hide IsLast, PickOrd, Parts, Accepted;
    OrderOf(es[k]);
    var k', acc' := k + 1, acc + [ok];
    forall i: nat, o: nat | i < |es| && Parts(es, i, k', o) && Accepted(acc', i, k')
      ensures o == ord' && es[i][LDIR_CHKSUM] == sum'
    {
      OneMorePart(es, i, k, o);
      AcceptedOn(acc, ok, i, k);
      if i < k {
        assert Parts(es, i, k, o + 1) && Accepted(acc, i, k);
      }
    }
    if ord' != 0xFF {
      if IsLast(es[k]) {
        OneMorePart(es, k, k, ord');
        AcceptedOn(acc, ok, k, k);
      } else {
        var i: nat :| Parts(es, i, k, ord) && Accepted(acc, i, k);
        PartsBelow(es, i, k, ord);
        OneMorePart(es, i, k, ord');
        AcceptedOn(acc, ok, i, k);
      }
    }
  }

  lemma PartsBelow(es: seq<Entry>, i: nat, k: nat, o: nat)
    requires Parts(es, i, k, o)
    ensures i < k <= |es|
  {
  }

  /** All of `es[i..k]` are accepted by `pick_lfn`. */
  ghost predicate AllPicked(es: seq<Entry>, i: nat, k: nat) {
    forall j | i <= j < k && j < |es| :: Pickable(es[j])
  }

  /** All of `es[i..k]` are accepted by `cmp_lfn`. */
  ghost predicate AllMatched(up: u16 -> u16, lfnbuf: seq<u16>, es: seq<Entry>, i: nat, k: nat)
    requires |lfnbuf| == MAX_LFN + 1
  {
    forall j | i <= j < k && j < |es| :: Matches(up, lfnbuf, es[j])
  }

  lemma NothingTracked(es: seq<Entry>)
    ensures Tracks(es, 0, [], 0xFF, 0xFF)
  {
  }

  lemma AllTracked(es: seq<Entry>, acc: seq<bool>, ord: byte, sum: byte)
    requires Tracks(es, |es|, acc, ord, sum)
    ensures ord == 0 <==> exists i: nat :: Parts(es, i, |es|, 0) && Accepted(acc, i, |es|)
  {
  }

  lemma PickedIs(es: seq<Entry>, acc: seq<bool>, i: nat)
    requires |acc| == |es| && forall j | 0 <= j < |es| :: acc[j] == Pickable(es[j])
    ensures Accepted(acc, i, |es|) <==> AllPicked(es, i, |es|)
  {
    hide Pickable;
  }

  lemma MatchedIs(up: u16 -> u16, lfnbuf: seq<u16>, es: seq<Entry>, acc: seq<bool>, i: nat)
    requires |lfnbuf| == MAX_LFN + 1
    requires |acc| == |es| && forall j | 0 <= j < |es| :: acc[j] == Matches(up, lfnbuf, es[j])
    ensures Accepted(acc, i, |es|) <==> AllMatched(up, lfnbuf, es, i, |es|)
  {
    hide Matches;
  }

  /** The order stored in an entry and the mark of the last part, and what of them an accepted entry can have. */
  lemma OrderOf(e: Entry)
    ensures !IsLast(e) ==> PickOrd(e) == e[LDIR_ORD]
    ensures e[LDIR_ORD] == 0xFF ==> IsLast(e)
    ensures 0 <= PickOrd(e) < 0xFF
    ensures Pickable(e) ==> PickOrd(e) > 0
  {
  }

  lemma MatchedOrder(up: u16 -> u16, lfnbuf: seq<u16>, e: Entry)
    requires |lfnbuf| == MAX_LFN + 1 && Matches(up, lfnbuf, e)
    ensures PickOrd(e) > 0
  {
  }

  /** Picking up a name from consecutive entries, as `dir_read` does; the result 0 means that the name is complete. */
  method CollectName(lfnbuf: array<u16>, es: seq<Entry>, ghost name: seq<u16>, ghost chksum: byte) returns (ord: byte)
    requires lfnbuf.Length == MAX_LFN + 1
    modifies lfnbuf
    ensures IsName(name) && name != [] && IsNameSet(es, name, chksum) ==> ord == 0 && Holds(lfnbuf[..], name)
    ensures ord == 0 <==> exists i: nat :: Parts(es, i, |es|, 0) && AllPicked(es, i, |es|)
  {
    hide UnitOf, FstClus, IsLast, EndsFull, NameUnits, Start, PickedUnit, Pickable, Padded, IsEntryOf, Holds, PickOrd,
         Parts, AllPicked, Accepted, Tracks;
    ghost var good := IsName(name) && name != [] && IsNameSet(es, name, chksum);
    var sum: byte := 0xFF;
    ord := 0xFF;
    ghost var acc: seq<bool> := [];
    NothingTracked(es);
    for k := 0 to |es|
      invariant |acc| == k && Tracks(es, k, acc, ord, sum) && forall j | 0 <= j < k :: acc[j] == Pickable(es[j])
      invariant good && k > 0 ==> ord == |es| - k && sum == chksum
      invariant good && k > 0 ==> forall i | (|es| - k) * 13 <= i <= |name| :: lfnbuf[i] == Padded(name, i)
    {
      var dir := es[k];
      if good {
        EntryShape(dir, name, |es| - k, chksum);
        PickedPart(lfnbuf[..], dir, name, |es| - k, chksum);
      }
      ghost var ord0, sum0 := ord, sum;
      OrderOf(dir);
      var et: byte := dir[LDIR_ORD];
      if IsLast(dir) {
        sum := dir[LDIR_CHKSUM];
        et := PickOrd(dir);
        ord := et;
      }
      if et == ord && sum == dir[LDIR_CHKSUM] {
        var ok := PickLfn(lfnbuf, dir);
        ord := if ok && ord > 0 then ord - 1 else 0xFF;
      } else {
        ord := 0xFF;
      }
      TracksOn(es, k, acc, ord0, sum0, Pickable(dir), ord, sum);
      acc := acc + [Pickable(dir)];
    }
    if good {
      PaddedName(lfnbuf[..], name);
    }
    forall i: nat ensures Accepted(acc, i, |es|) <==> AllPicked(es, i, |es|) {
      PickedIs(es, acc, i);
    }
    AllTracked(es, acc, ord, sum);
  }

  lemma PaddedName(buf: seq<u16>, name: seq<u16>)
    requires IsName(name) && |buf| == MAX_LFN + 1 && forall i | 0 <= i <= |name| :: buf[i] == Padded(name, i)
    ensures Holds(buf, name)
  {
    assert buf[..|name|] == name;
  }

  /** An entry of the name is accepted and puts its part of the name in place. */
  lemma PickedPart(buf: seq<u16>, e: Entry, name: seq<u16>, ord: nat, sum: byte)
    requires |buf| == MAX_LFN + 1 && IsName(name) && IsEntryOf(e, name, ord, sum) && (ord - 1) * 13 < |name|
    ensures Pickable(e)
    ensures forall i | 0 <= i <= |name| && i <= MAX_LFN ::
              PickedUnit(buf, e, i) ==
              if (ord - 1) * 13 <= i < ord * 13 || i == |name| == ord * 13 then Padded(name, i) else buf[i]
  {
    hide UnitOf, FstClus, IsLast, PickOrd, EndsFull, NameUnits, Start, FillerOk;
    EntryShape(e, name, ord, sum);
    forall i | 0 <= i <= |name| && (ord - 1) * 13 <= i < ord * 13
      ensures UnitOf(e, i - (ord - 1) * 13) == Padded(name, i)
    {
      assert UnitOf(e, i - (ord - 1) * 13) == Padded(name, (ord - 1) * 13 + (i - (ord - 1) * 13));
    }
  }

  /** The units of the name from `lo` on, its terminator included, equal those in the buffer up to case. */
  ghost predicate Agree(up: u16 -> u16, lfnbuf: seq<u16>, name: seq<u16>, lo: int)
    requires |lfnbuf| == MAX_LFN + 1 && |name| <= MAX_LFN
  {
    forall i | 0 <= i && lo <= i <= |name| :: up(Padded(name, i)) == up(lfnbuf[i])
  }

  /** `up` maps the terminator, and only it, to 0. */
  ghost predicate KeepsZero(up: u16 -> u16) {
    forall c: u16 :: up(c) == 0 <==> c == 0
  }

  lemma EntryMatches(up: u16 -> u16, lfnbuf: seq<u16>, e: Entry, name: seq<u16>, ord: nat, sum: byte)
    requires |lfnbuf| == MAX_LFN + 1 && KeepsZero(up)
    requires IsName(name) && IsEntryOf(e, name, ord, sum) && (ord - 1) * 13 < |name|
    requires Agree(up, lfnbuf, name, ord * 13) || |name| == ord * 13
    ensures Matches(up, lfnbuf, e) <==> Agree(up, lfnbuf, name, (ord - 1) * 13)
  {
    hide *;
    NameFits(name);
    if Matches(up, lfnbuf, e) {
      MatchingAgrees(up, lfnbuf, e, name, ord, sum);
    }
    if Agree(up, lfnbuf, name, (ord - 1) * 13) {
      AgreeingMatches(up, lfnbuf, e, name, ord, sum);
    }
  }

  lemma MatchingAgrees(up: u16 -> u16, lfnbuf: seq<u16>, e: Entry, name: seq<u16>, ord: nat, sum: byte)
    requires |lfnbuf| == MAX_LFN + 1 && KeepsZero(up)
    requires IsName(name) && IsEntryOf(e, name, ord, sum) && (ord - 1) * 13 < |name|
    requires Agree(up, lfnbuf, name, ord * 13) || |name| == ord * 13
    requires Matches(up, lfnbuf, e)
    ensures Agree(up, lfnbuf, name, (ord - 1) * 13)
  {
    hide IsName, UnitOf, FstClus, IsLast, PickOrd, EndsFull, NameUnits, Start, FirstZero, FillerOk;
    EntryShape(e, name, ord, sum);
    NameFits(name);
    var ni := (ord - 1) * 13;
    forall i | ni <= i <= |name| ensures up(Padded(name, i)) == up(lfnbuf[i]) {
      if i < ni + NameUnits(e) {
        assert UnitOf(e, i - ni) == Padded(name, ni + (i - ni));
        assert up(UnitOf(e, i - ni)) == up(lfnbuf[ni + (i - ni)]);
      }
    }
  }

  lemma AgreeingMatches(up: u16 -> u16, lfnbuf: seq<u16>, e: Entry, name: seq<u16>, ord: nat, sum: byte)
    requires |lfnbuf| == MAX_LFN + 1 && KeepsZero(up)
    requires IsName(name) && IsEntryOf(e, name, ord, sum) && (ord - 1) * 13 < |name|
    requires Agree(up, lfnbuf, name, (ord - 1) * 13)
    ensures Matches(up, lfnbuf, e)
  {
    hide IsName, UnitOf, FstClus, IsLast, PickOrd, EndsFull, NameUnits, Start, FirstZero, FillerOk;
    EntryShape(e, name, ord, sum);
    NameFits(name);
    var ni := (ord - 1) * 13;
    forall j | 0 <= j < NameUnits(e) ensures up(UnitOf(e, j)) == up(lfnbuf[ni + j]) {
      assert UnitOf(e, j) == Padded(name, ni + j);
    }
    if |name| == ord * 13 {
      assert up(Padded(name, |name|)) == up(lfnbuf[|name|]);
    }
  }

  lemma NameFits(name: seq<u16>)
    requires IsName(name)
    ensures |name| <= MAX_LFN
  {
  }

  /** Comparing consecutive entries with the name in the buffer, as `dir_find` does; 0 means a match. */
  method MatchName(up: u16 -> u16, lfnbuf: seq<u16>, es: seq<Entry>, ghost name: seq<u16>, ghost chksum: byte)
    returns (ord: byte)
    requires |lfnbuf| == MAX_LFN + 1
    ensures IsName(name) && name != [] && IsNameSet(es, name, chksum) && KeepsZero(up) ==>
              (ord == 0 <==> Agree(up, lfnbuf, name, 0))
    ensures ord == 0 <==> exists i: nat :: Parts(es, i, |es|, 0) && AllMatched(up, lfnbuf, es, i, |es|)
  {
    hide IsName, UnitOf, FstClus, IsLast, PickOrd, EndsFull, NameUnits, Start, Matches, KeepsZero, Parts, AllMatched,
         Accepted, Tracks, Padded;
    ghost var good := IsName(name) && name != [] && IsNameSet(es, name, chksum) && KeepsZero(up);
    var sum: byte := 0xFF;
    ord := 0xFF;
    ghost var acc: seq<bool> := [];
    NothingTracked(es);
    if good {
      NameFits(name);
    }
    for k := 0 to |es|
      invariant |acc| == k && Tracks(es, k, acc, ord, sum)
      invariant forall j | 0 <= j < k :: acc[j] == Matches(up, lfnbuf, es[j])
      invariant good && k > 0 ==> sum == chksum
      invariant good && k > 0 ==> ord == if Agree(up, lfnbuf, name, (|es| - k) * 13) then |es| - k else 0xFF
    {
      var dir := es[k];
      ghost var ord0, sum0, ok := ord, sum, Matches(up, lfnbuf, dir);
      OrderOf(dir);
      if ok {
        MatchedOrder(up, lfnbuf, dir);
      }
      if good {
        EntryShape(dir, name, |es| - k, chksum);
        if k == 0 || Agree(up, lfnbuf, name, (|es| - k) * 13) {
          EntryMatches(up, lfnbuf, dir, name, |es| - k, chksum);
        }
      }
      var et: byte := dir[LDIR_ORD];
      if IsLast(dir) {
        sum := dir[LDIR_CHKSUM];
        et := PickOrd(dir);
        ord := et;
      }
      if et == ord && sum == dir[LDIR_CHKSUM] {
        var b := CmpLfn(up, lfnbuf, dir);
        ord := if b && ord > 0 then ord - 1 else 0xFF;
      } else {
        ord := 0xFF;
      }
      TracksOn(es, k, acc, ord0, sum0, ok, ord, sum);
      acc := acc + [ok];
    }
    forall i: nat ensures Accepted(acc, i, |es|) <==> AllMatched(up, lfnbuf, es, i, |es|) {
      MatchedIs(up, lfnbuf, es, acc, i);
    }
    AllTracked(es, acc, ord, sum);
  }

  /** For a terminated target name, agreement means equal length and equality up to case. */
  lemma AgreeIsEquality(up: u16 -> u16, lfnbuf: seq<u16>, name: seq<u16>, target: seq<u16>)
    requires KeepsZero(up) && IsName(name) && IsName(target) && Holds(lfnbuf, target)
    ensures Agree(up, lfnbuf, name, 0) <==>
              |name| == |target| && forall i | 0 <= i < |name| :: up(name[i]) == up(target[i])
  {
    forall i | 0 <= i < |target| ensures lfnbuf[i] == target[i] {
      assert lfnbuf[i] == lfnbuf[..|target|][i];
    }
    if Agree(up, lfnbuf, name, 0) {
      var m := if |target| <= |name| then |target| else |name|;
      assert up(Padded(name, m)) == up(lfnbuf[m]);
      forall i | 0 <= i < |name| ensures up(name[i]) == up(target[i]) {
        assert up(Padded(name, i)) == up(lfnbuf[i]);
      }
    }
  }
}
