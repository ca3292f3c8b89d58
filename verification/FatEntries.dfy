/**
 The bytes of one FAT and the 12, 16 or 32 bit entries packed in them
 (section 4 of the Microsoft FAT Specification).  Reading and writing an
 entry touches one byte at a time, as `get_fat` and `put_fat` do.
 */
module FatEntries {
  import opened Machine

  datatype FatType = Fat12 | Fat16 | Fat32

  /** The number of values an entry can hold. */
  function Capacity(t: FatType): nat {
    match t
    case Fat12 => 0x1000
    case Fat16 => 0x1_0000
    case Fat32 => 0x1000_0000
  }

  /** The largest number of clusters a volume of each type may have. */
  function MaxClusters(t: FatType): nat {
    match t
    case Fat12 => 0xFF5
    case Fat16 => 0xFFF5
    case Fat32 => 0x0FFF_FFF5
  }

  /** Bytes needed for `n` entries, as computed when the volume is mounted. */
  function BytesFor(t: FatType, n: nat): nat {
    match t
    case Fat12 => n * 3 / 2 + n % 2
    case Fat16 => n * 2
    case Fat32 => n * 4
  }

  function Offset(t: FatType, c: nat): nat {
    match t
    case Fat12 => c + c / 2
    case Fat16 => c * 2
    case Fat32 => c * 4
  }

  function Size(t: FatType): nat {
    match t
    case Fat12 => 2
    case Fat16 => 2
    case Fat32 => 4
  }

  function Load16(lo: byte, hi: byte): (w: u16) {
    lo + 0x100 * hi
  }

  function Load32(b0: byte, b1: byte, b2: byte, b3: byte): (w: u32) {
    b0 + 0x100 * b1 + 0x1_0000 * b2 + 0x100_0000 * b3
  }

  /** The 12 bit entry `c` in the word that holds it. */
  function Pick12(c: nat, w: u16): (v: u16)
    ensures v < 0x1000
  {
    if c % 2 == 1 then w / 0x10 else w % 0x1000
  }

  /** A 32 bit entry without its reserved top four bits. */
  function Pick28(w: u32): (v: u32)
    ensures v < 0x1000_0000
  {
    w % 0x1000_0000
  }

  /** The value of entry `c` of the FAT with the bytes `f`. */
  function GetEntry(t: FatType, f: seq<byte>, c: nat): (v: nat)
    requires Offset(t, c) + Size(t) <= |f|
    ensures v < Capacity(t)
  {
    var k := Offset(t, c);
    match t
    case Fat12 => Pick12(c, Load16(f[k], f[k + 1]))
    case Fat16 => Load16(f[k], f[k + 1])
    case Fat32 => Pick28(Load32(f[k], f[k + 1], f[k + 2], f[k + 3]))
  }

  /** First byte of a 12 bit entry after `v` is stored over the byte `b`. */
  function Low12(c: nat, v: u32, b: byte): byte {
    if c % 2 == 1 then b % 0x10 + (v % 0x10) * 0x10 else v % 0x100
  }

  /** Second byte of a 12 bit entry after `v` is stored over the byte `b`. */
  function High12(c: nat, v: u32, b: byte): byte {
    if c % 2 == 1 then v / 0x10 % 0x100 else b / 0x10 * 0x10 + v / 0x100 % 0x10
  }

  /** A 28 bit value merged with the reserved top four bits of the old entry. */
  function Merge28(v: u32, old32: u32): u32 {
    v % 0x1000_0000 + old32 / 0x1000_0000 * 0x1000_0000
  }

  function Store16(f: seq<byte>, k: nat, w: u32): (r: seq<byte>)
    requires k + 2 <= |f|
  {
    f[k := w % 0x100][k + 1 := w / 0x100 % 0x100]
  }

  function Store32(f: seq<byte>, k: nat, w: u32): (r: seq<byte>)
    requires k + 4 <= |f|
  {
    f[k := w % 0x100][k + 1 := w / 0x100 % 0x100][k + 2 := w / 0x1_0000 % 0x100][k + 3 := w / 0x100_0000]
  }

  /** The bytes of the FAT after `v` is stored in entry `c`. */
  function PutEntry(t: FatType, f: seq<byte>, c: nat, v: u32): (r: seq<byte>)
    requires Offset(t, c) + Size(t) <= |f|
    ensures |r| == |f|
  {
    var k := Offset(t, c);
    match t
    case Fat12 => f[k := Low12(c, v, f[k])][k + 1 := High12(c, v, f[k + 1])]
    case Fat16 => Store16(f, k, v)
    case Fat32 => Store32(f, k, Merge28(v, Load32(f[k], f[k + 1], f[k + 2], f[k + 3])))
  }

  /** The entries where the FAT specification puts them: two 12 bit entries in three bytes, low bits first. */
  lemma EntryOnDisk(t: FatType, f: seq<byte>, c: nat)
    requires Offset(t, c) + Size(t) <= |f|
    ensures t == Fat12 && c % 2 == 0 ==>
              var k := 3 * (c / 2); k + 1 < |f| && GetEntry(t, f, c) == f[k] as int + 0x100 * (f[k + 1] as int % 0x10)
    ensures t == Fat12 && c % 2 == 1 ==>
              var k := 3 * (c / 2); k + 2 < |f| && GetEntry(t, f, c) == f[k + 1] as int / 0x10 + 0x10 * f[k + 2] as int
    ensures t == Fat16 ==>
              var k := 2 * c; k + 1 < |f| && GetEntry(t, f, c) == f[k] as int + 0x100 * f[k + 1] as int
    ensures t == Fat32 ==>
              var k := 4 * c;
              && k + 3 < |f|
              && GetEntry(t, f, c) ==
                  f[k] as int + 0x100 * f[k + 1] as int + 0x1_0000 * f[k + 2] as int
                  + 0x100_0000 * (f[k + 3] as int % 0x10)
  {
    var k := Offset(t, c);
    match t
    case Fat12 =>
      assert k == if c % 2 == 0 then 3 * (c / 2) else 3 * (c / 2) + 1;
      Decode12(f[k], f[k + 1]);
    case Fat16 =>
    case Fat32 =>
      var top: int := f[k + 3];
      var low: int := f[k] as int + 0x100 * f[k + 1] as int + 0x1_0000 * f[k + 2] as int;
      QuotRem(low + 0x100_0000 * top, 0x1000_0000, top / 0x10, low + 0x100_0000 * (top % 0x10));
  }

  /** An entry that is among the `n` entries of a big enough FAT lies inside it. */
  lemma EntryFits(t: FatType, n: nat, c: nat)
    requires c < n
    ensures Offset(t, c) + Size(t) <= BytesFor(t, n)
  {
  }

  /** Writing one entry sets it to the value cut to the entry's width and changes no other one. */
  lemma GetPut(t: FatType, f: seq<byte>, c: nat, v: u32, d: nat)
    requires Offset(t, c) + Size(t) <= |f| && Offset(t, d) + Size(t) <= |f|
    ensures GetEntry(t, PutEntry(t, f, c, v), d) == if d == c then v % Capacity(t) else GetEntry(t, f, d)
  {
    match t
    case Fat12 =>
      if d == c {
        GetPutSame12(f, c, v);
      } else {
        GetPutOther12(f, c, v, d);
      }
    case Fat16 =>
      SplitJoin16(v);
    case Fat32 =>
      if d == c {
        GetPutSame32(f, c, v);
      } else {
        assert Offset(t, c) + 4 <= Offset(t, d) || Offset(t, d) + 4 <= Offset(t, c);
      }
  }

  /** The four nibbles of the two bytes that hold 12 bit entry `c`. */
  lemma Decode12(lo: byte, hi: byte)
    ensures Load16(lo, hi) / 0x10 == lo / 0x10 + hi * 0x10
    ensures Load16(lo, hi) % 0x1000 == lo + hi % 0x10 * 0x100
  {
    QuotRem(Load16(lo, hi), 0x10, lo / 0x10 + hi * 0x10, lo % 0x10);
    QuotRem(Load16(lo, hi), 0x1000, hi / 0x10, lo + hi % 0x10 * 0x100);
  }

  lemma GetPutSame12(f: seq<byte>, c: nat, v: u32)
    requires Offset(Fat12, c) + 2 <= |f|
    ensures GetEntry(Fat12, PutEntry(Fat12, f, c, v), c) == v % 0x1000
  {
    var k := Offset(Fat12, c);
    var g := PutEntry(Fat12, f, c, v);
    assert g[k] == Low12(c, v, f[k]) && g[k + 1] == High12(c, v, f[k + 1]);
    Decode12(g[k], g[k + 1]);
    Written12(c, v, f[k], f[k + 1]);
  }

  lemma Written12(c: nat, v: u32, lo: byte, hi: byte)
    ensures c % 2 == 1 ==> Low12(c, v, lo) / 0x10 + High12(c, v, hi) * 0x10 == v % 0x1000
    ensures c % 2 == 0 ==> Low12(c, v, lo) + High12(c, v, hi) % 0x10 * 0x100 == v % 0x1000
  {
    if c % 2 == 1 {
      OddNibbles(v);
      assert Low12(c, v, lo) / 0x10 == v % 0x10;
    } else {
      EvenNibbles(v);
      assert High12(c, v, hi) % 0x10 == v / 0x100 % 0x10;
    }
  }

  lemma OddNibbles(v: u32)
    ensures v % 0x1000 == v % 0x10 + v / 0x10 % 0x100 * 0x10
  {
    QuotRem(v, 0x1000, v / 0x10 / 0x100, v % 0x10 + v / 0x10 % 0x100 * 0x10);
  }

  lemma EvenNibbles(v: u32)
    ensures v % 0x1000 == v % 0x100 + v / 0x100 % 0x10 * 0x100
  {
    QuotRem(v, 0x1000, v / 0x100 / 0x10, v % 0x100 + v / 0x100 % 0x10 * 0x100);
  }

  lemma GetPutOther12(f: seq<byte>, c: nat, v: u32, d: nat)
    requires Offset(Fat12, c) + 2 <= |f| && Offset(Fat12, d) + 2 <= |f|
    requires c != d
    ensures GetEntry(Fat12, PutEntry(Fat12, f, c, v), d) == GetEntry(Fat12, f, d)
  {
    var k, j := Offset(Fat12, c), Offset(Fat12, d);
    var g := PutEntry(Fat12, f, c, v);
    Decode12(f[j], f[j + 1]);
    Decode12(g[j], g[j + 1]);
    if d == c + 1 && c % 2 == 0 {
      assert j == k + 1 && g[j + 1] == f[j + 1];
      assert g[j] / 0x10 == High12(c, v, f[j]) / 0x10 == f[j] / 0x10;
    } else if c == d + 1 && d % 2 == 0 {
      assert k == j + 1 && g[j] == f[j];
      assert g[k] % 0x10 == Low12(c, v, f[k]) % 0x10 == f[k] % 0x10;
    } else {
      Apart12(c, d);
    }
  }

  lemma Apart12(c: nat, d: nat)
    requires c != d && !(d == c + 1 && c % 2 == 0) && !(c == d + 1 && d % 2 == 0)
    ensures Offset(Fat12, c) + 2 <= Offset(Fat12, d) || Offset(Fat12, d) + 2 <= Offset(Fat12, c)
  {
  }

  lemma GetPutSame32(f: seq<byte>, c: nat, v: u32)
    requires Offset(Fat32, c) + 4 <= |f|
    ensures GetEntry(Fat32, PutEntry(Fat32, f, c, v), c) == v % 0x1000_0000
  {
    var k := Offset(Fat32, c);
    var old32 := Load32(f[k], f[k + 1], f[k + 2], f[k + 3]);
    Merged28(v, old32);
    StoreLoad32(f, k, Merge28(v, old32));
  }

  lemma Merged28(v: u32, old32: u32)
    ensures Merge28(v, old32) % 0x1000_0000 == v % 0x1000_0000
    ensures Merge28(v, old32) / 0x1000_0000 == old32 / 0x1000_0000
  {
    QuotRem(Merge28(v, old32), 0x1000_0000, old32 / 0x1000_0000, v % 0x1000_0000);
  }

  lemma StoreLoad32(f: seq<byte>, k: nat, w: u32)
    requires k + 4 <= |f|
    ensures var g := Store32(f, k, w); Load32(g[k], g[k + 1], g[k + 2], g[k + 3]) == w
  {
    SplitJoin32(w);
  }

  lemma SplitJoin16(w: u32)
    ensures Load16(w % 0x100, w / 0x100 % 0x100) == w % 0x1_0000
  {
    QuotRem(w, 0x1_0000, w / 0x100 / 0x100, w % 0x100 + 0x100 * (w / 0x100 % 0x100));
  }

  lemma SplitJoin32(w: u32)
    ensures Load32(w % 0x100, w / 0x100 % 0x100, w / 0x1_0000 % 0x100, w / 0x100_0000) == w
  {
    var q1, q2, q3 := w / 0x100, w / 0x1_0000, w / 0x100_0000;
    assert w == 0x100 * q1 + w % 0x100;
    assert q2 == q1 / 0x100 && q1 == 0x100 * q2 + q1 % 0x100;
    assert q3 == q2 / 0x100 && q2 == 0x100 * q3 + q2 % 0x100;
  }

  /** A 32 bit entry keeps its reserved top four bits, and no byte outside the entry changes. */
  lemma PutKeepsRest(t: FatType, f: seq<byte>, c: nat, v: u32, i: nat)
    requires Offset(t, c) + Size(t) <= |f| && i < |f|
    ensures i < Offset(t, c) || Offset(t, c) + Size(t) <= i ==> PutEntry(t, f, c, v)[i] == f[i]
    ensures t == Fat32 && i == Offset(t, c) + 3 ==> PutEntry(t, f, c, v)[i] / 0x10 == f[i] / 0x10
  {
    if t == Fat32 && i == Offset(t, c) + 3 {
      var k := Offset(t, c);
      var w := Merge28(v, Load32(f[k], f[k + 1], f[k + 2], f[k + 3]));
      assert w / 0x1000_0000 == f[i] / 0x10;
      assert w / 0x100_0000 / 0x10 == w / 0x1000_0000;
    }
  }

  /** All entries of a FAT, by cluster number. */
  function Table(t: FatType, f: seq<byte>, n: nat): (r: seq<nat>)
    requires BytesFor(t, n) <= |f|
    ensures |r| == n
  {
    seq(n, c requires 0 <= c < n => EntryFits(t, n, c); GetEntry(t, f, c))
  }

  /** On the level of whole tables, `put_fat` is an update of one element. */
  lemma TablePut(t: FatType, f: seq<byte>, n: nat, c: nat, v: u32)
    requires BytesFor(t, n) <= |f| && c < n
    ensures Offset(t, c) + Size(t) <= |f|
    ensures Table(t, PutEntry(t, f, c, v), n) == Table(t, f, n)[c := v % Capacity(t)]
  {
    EntryFits(t, n, c);
    forall d | 0 <= d < n
      ensures Table(t, PutEntry(t, f, c, v), n)[d] == Table(t, f, n)[c := v % Capacity(t)][d]
    {
      EntryFits(t, n, d);
      GetPut(t, f, c, v, d);
    }
  }
}
