/** The simple object that an open file stands for: a byte sequence and a position in it. */
module FlatFile {
  import opened Machine

  function Min(a: nat, b: nat): nat { if a <= b then a else b }

  function Max(a: nat, b: nat): nat { if a <= b then b else a }

  /** `b` with the bytes from `p` on replaced by `data`, growing at the end if need be. */
  function Splice(b: seq<byte>, p: nat, data: seq<byte>): (r: seq<byte>)
    requires p <= |b|
    ensures |r| == Max(|b|, p + |data|)
  {
    b[..p] + data + (if p + |data| <= |b| then b[p + |data|..] else [])
  }

  lemma SpliceAt(b: seq<byte>, p: nat, data: seq<byte>, k: nat)
    requires p <= |b| && k < |Splice(b, p, data)|
    ensures Splice(b, p, data)[k] == if p <= k < p + |data| then data[k - p] else b[k]
  {
  }

  /** Two adjacent writes are one write. */
  lemma SpliceSplice(b: seq<byte>, p: nat, x: seq<byte>, y: seq<byte>)
    requires p <= |b|
    ensures p + |x| <= |Splice(b, p, x)|
    ensures Splice(Splice(b, p, x), p + |x|, y) == Splice(b, p, x + y)
  {
    var l, r := Splice(Splice(b, p, x), p + |x|, y), Splice(b, p, x + y);
    assert |l| == |r|;
    forall k | 0 <= k < |l| ensures l[k] == r[k] {
      SpliceAt(b, p, x + y, k);
      SpliceAt(Splice(b, p, x), p + |x|, y, k);
      if k < |Splice(b, p, x)| {
        SpliceAt(b, p, x, k);
      }
    }
  }

  /** What a splice consists of. */
  lemma SplicedParts(b: seq<byte>, p: nat, data: seq<byte>)
    requires p <= |b|
    ensures var r, e := Splice(b, p, data), p + |data|;
            && |r| == (if e <= |b| then |b| else e) && e <= |r|
            && r[..p] == b[..p] && r[p..e] == data && r[e..] == (if e <= |b| then b[e..] else [])
  {
  }

  lemma SpliceNothing(b: seq<byte>, p: nat)
    requires p <= |b|
    ensures Splice(b, p, []) == b
  {
  }

  datatype Flat = Flat(bytes: seq<byte>, pos: nat) {
    predicate Valid() {
      pos <= |bytes|
    }

    function Seek(to: nat): Flat {
      Flat(bytes, to)
    }

    /** Reading up to `n` bytes: what is read and where the position ends up. */
    function Read(n: nat): (r: (seq<byte>, Flat))
      requires Valid()
    {
      var m := Min(n, |bytes| - pos);
      (bytes[pos..pos + m], Flat(bytes, pos + m))
    }

    function Write(data: seq<byte>): (r: Flat)
      requires Valid()
      ensures r.Valid()
    {
      Flat(Splice(bytes, pos, data), pos + |data|)
    }

    function Truncate(): (r: Flat)
      requires Valid()
      ensures r.Valid()
    {
      Flat(bytes[..pos], pos)
    }
  }

  /** A read delivers all that is wanted or all that is left, and moves the position behind it. */
  lemma ReadDelivers(f: Flat, n: nat)
    requires f.Valid()
    ensures n <= |f.bytes| - f.pos ==> f.Read(n) == (f.bytes[f.pos..f.pos + n], Flat(f.bytes, f.pos + n))
    ensures n > |f.bytes| - f.pos ==> f.Read(n) == (f.bytes[f.pos..], Flat(f.bytes, |f.bytes|))
  {
    assert f.bytes[f.pos..|f.bytes|] == f.bytes[f.pos..];
  }

  /** What reads of `n` bytes deliver, one after the other until one delivers nothing. */
  ghost function ReadOut(f: Flat, n: nat): seq<byte>
    requires f.Valid() && n > 0
    decreases |f.bytes| - f.pos
  {
    var (part, rest) := f.Read(n);
    ReadDelivers(f, n);
    if part == [] then [] else part + ReadOut(rest, n)
  }

  /** Whatever the size of the reads, they deliver the rest of the file. */
  lemma {:induction false} ReadsDeliverAll(f: Flat, n: nat)
    requires f.Valid() && n > 0
    ensures ReadOut(f, n) == f.bytes[f.pos..]
    decreases |f.bytes| - f.pos
  {
    var (part, rest) := f.Read(n);
    ReadDelivers(f, n);
    if part != [] {
      ReadsDeliverAll(rest, n);
    }
  }

  /** What was written is read back from the same place, and the bytes around it are the old ones. */
  lemma WriteThenRead(f: Flat, data: seq<byte>)
    requires f.Valid()
    ensures f.Write(data).Seek(f.pos).Valid()
    ensures f.Write(data).Seek(f.pos).Read(|data|) == (data, f.Write(data))
    ensures forall k | 0 <= k < |f.bytes| && !(f.pos <= k < f.pos + |data|) :: f.Write(data).bytes[k] == f.bytes[k]
  {
    forall k | 0 <= k < |f.Write(data).bytes|
      ensures f.Write(data).bytes[k] == if f.pos <= k < f.pos + |data| then data[k - f.pos] else f.bytes[k]
    {
      SpliceAt(f.bytes, f.pos, data, k);
    }
    assert f.Write(data).bytes[f.pos..f.pos + |data|] == data;
  }
}
