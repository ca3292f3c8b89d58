/** The shell's `cat`, which reads a file piece by piece. */
module Shell {
  import opened Machine
  import opened Storage
  import opened Volumes
  import opened FlatFile
  import opened Files

  /**
    * The loop of `cat`: whatever the size of the pieces, what comes out is the rest of the file, and after an error a
    * part of it from its beginning on.
    */
  method Cat(f: File, buff: array<byte>, n: u32) returns (res: FResult, out: seq<byte>)
    requires f.Valid() && f.err == Ok && f.readable && 0 < n <= buff.Length && buff != f.buf && buff != f.fs.win
    modifies f`clust, f`dirty, f`sect, f`fptr, f`err
    modifies f.fs`winsect, f.fs`wflag, f.fs`stale, f.fs.disk, f.fs.win, f.buf, buff
    ensures f.Valid() && out <= old(f.Content()[f.fptr..])
    ensures res == Ok ==>
              && out == old(f.Content()[f.fptr..])
              && f.err == Ok && f.fptr == f.objsize && f.Content() == old(f.Content())
    ensures f.fs.disk.faults == old(f.fs.disk.faults) ==> res == Ok
  {
    hide *;
    f.ValidParts();
    ghost var c, p := f.Content(), f.fptr;
    InFile(f);
    out := [];
    var br := 1;
    res := Ok;
    while br > 0
      invariant f.Valid() && f.err == Ok && res == Ok && f.Core() && f.Cursor(f.fptr) && f.Content() == c
      invariant p <= f.fptr <= f.objsize == |c| && out == c[p..f.fptr] && (br == 0 ==> f.fptr == f.objsize)
      invariant old(f.fs.disk.faults) <= f.fs.disk.faults
      decreases f.objsize - f.fptr, br
    {
      ghost var q := f.fptr;
      res, br := f.Read(buff, n);
      if res != Ok {
        return;
      }
      f.ValidParts();
      InFile(f);
      assert c[p..q] + c[q..f.fptr] == c[p..f.fptr];
      out := out + buff[..br];
    }
  }

  lemma InFile(f: File)
    requires f.Core() && f.Cursor(f.fptr)
    ensures f.fptr <= f.objsize == |f.Content()|
  {
  }
}
