/** The card as FatFs sees it: an array of 512 byte sectors whose transfers may fail. */
module Storage {
  import opened Machine

  /** Sector size; the configuration fixes it to 512 bytes. */
  const SS: int := 512

  type Sector = s: seq<byte> | |s| == SS witness seq(SS, _ => 0)

  /** The bytes of `count` consecutive sectors. */
  function Span(data: seq<Sector>, sect: nat, count: nat): (r: seq<byte>)
    requires sect + count <= |data|
  {
    seq(SS * count, k requires 0 <= k < SS * count => data[sect + k / SS][k % SS])
  }

  lemma SpanOfOne(data: seq<Sector>, sect: nat)
    requires sect < |data|
    ensures Span(data, sect, 1) == data[sect]
  {
  }

  class Disk {
    var data: seq<Sector>
    /** How many transfers have failed so far. */
    ghost var faults: nat

    /** `disk_read`: a failed call leaves anything in the destination. */
    method Read(dst: array<byte>, at: nat, sect: nat, count: nat) returns (ok: bool)
      requires sect + count <= |data| && at + SS * count <= dst.Length
      modifies this`faults, dst
      ensures old(faults) <= faults && (ok <==> faults == old(faults))
      ensures dst[..at] == old(dst[..at]) && dst[at + SS * count..] == old(dst[at + SS * count..])
      ensures ok ==> dst[at..at + SS * count] == Span(data, sect, count)
    {
      ok := *;
      if !ok {
        faults := faults + 1;
      }
      var n := SS * count;
      for i := 0 to n
        invariant faults == if ok then old(faults) else old(faults) + 1
        invariant dst[..at] == old(dst[..at]) && dst[at + n..] == old(dst[at + n..])
        invariant ok ==> forall k | 0 <= k < i :: dst[at + k] == data[sect + k / SS][k % SS]
      {
        var b := data[sect + i / SS][i % SS];
        if !ok {
          b :| 0 <= b < 0x100;
        }
        dst[at + i] := b;
      }
    }

    /** One sector into a buffer of exactly that size. */
    method ReadSector(dst: array<byte>, sect: nat) returns (ok: bool)
      requires sect < |data| && dst.Length == SS
      modifies this`faults, dst
      ensures old(faults) <= faults && (ok <==> faults == old(faults))
      ensures ok ==> dst[..] == data[sect]
    {
      ok := Read(dst, 0, sect, 1);
      SpanOfOne(data, sect);
      assert dst[..] == dst[0..0 + SS * 1];
    }

    /** `disk_write`: a failed call leaves anything in the addressed sectors. */
    method Write(src: seq<byte>, sect: nat, count: nat) returns (ok: bool)
      requires sect + count <= |data| && |src| == SS * count
      modifies this
      ensures old(faults) <= faults && (ok <==> faults == old(faults))
      ensures |data| == old(|data|)
      ensures forall s | 0 <= s < |data| && !(sect <= s < sect + count) :: data[s] == old(data[s])
      ensures ok ==> forall s | sect <= s < sect + count :: data[s] == src[SS * (s - sect)..SS * (s - sect) + SS]
    {
      ok := *;
      if !ok {
        faults := faults + 1;
      }
      for i := 0 to count
        invariant |data| == old(|data|)
        invariant faults == if ok then old(faults) else old(faults) + 1
        invariant forall s | 0 <= s < |data| && !(sect <= s < sect + count) :: data[s] == old(data[s])
        invariant ok ==> forall s | sect <= s < sect + i :: data[s] == src[SS * (s - sect)..SS * (s - sect) + SS]
      {
        var s: Sector := src[SS * i..SS * i + SS];
        if !ok {
          s :| |s| == SS;
        }
        data := data[sect + i := s];
      }
    }

    method WriteSector(src: Sector, sect: nat) returns (ok: bool)
      requires sect < |data|
      modifies this
      ensures old(faults) <= faults && (ok <==> faults == old(faults))
      ensures |data| == old(|data|)
      ensures forall s | 0 <= s < |data| && s != sect :: data[s] == old(data[s])
      ensures ok ==> data == old(data)[sect := src]
    {
      ok := Write(src, sect, 1);
      if ok {
        assert src[SS * (sect - sect)..SS * (sect - sect) + SS] == src;
      }
    }
  }
}
