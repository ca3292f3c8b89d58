/**
 Two files open on one volume.  Their chains do not meet, so what is done to one of them leaves the
 other one's bytes and position alone, although both go through the same window and the same FAT.
 */
module TwoFiles {
  import opened Machine
  import opened Storage
  import opened FatChains
  import opened Volumes
  import opened FlatFile
  import opened Files

  /** The files share no cluster, and the buffer of each shows nothing or a sector of its own. */
  ghost predicate Beside(f: File, other: File)
    reads f, f.buf, f.fs`winsect, f.fs`wflag, f.fs`stale, f.fs.disk, f.fs.win
    reads other, other.buf, other.fs`winsect, other.fs`wflag, other.fs`stale, other.fs.disk, other.fs.win
  {
    && f != other && f.fs == other.fs && f.buf != other.buf
    && f.Valid() && f.err == Ok && other.Valid() && other.err == Ok
    && (forall c | c in other.chain :: c !in f.chain)
    && f.ShowsOwn() && other.ShowsOwn()
  }

  lemma BesideEachOther(f: File, other: File)
    requires Beside(f, other)
    ensures Beside(other, f)
  {
  }

  /** An open file as a flat file, and the number of clusters it has. */
  datatype Held = Held(file: Flat, links: nat)

  /** Two open files, and the number of clusters that are free. */
  datatype Pair = Pair(first: Held, second: Held, free: nat) {
    function Swap(): Pair {
      Pair(second, first, free)
    }
  }

  ghost function PairOf(f: File, other: File): (p: Pair)
    requires f.fs == other.fs && f.Core() && f.Cursor(f.fptr) && other.Core() && other.Cursor(other.fptr)
    reads f, f.buf, f.fs`winsect, f.fs`wflag, f.fs`stale, f.fs.disk, f.fs.win
    reads other, other.buf, other.fs`winsect, other.fs`wflag, other.fs`stale, other.fs.disk, other.fs.win
    ensures p.first.file.Valid() && p.second.file.Valid()
  {
    Pair(Held(f.View(), |f.chain|), Held(other.View(), |other.chain|), FreeCount(f.fs.Fat()))
  }

  /** The volume's count of free clusters is right, or invalid. */
  ghost predicate Counted(f: File)
    requires f.fs.Valid()
    reads f.fs`winsect, f.fs`wflag, f.fs`stale, f.fs`freeClst, f.fs.disk, f.fs.win
  {
    CountRight(f.fs.Fat(), f.fs.freeClst)
  }

  datatype Op = DoRead(n: u32) | DoWrite(data: seq<byte>) | DoSeek(ofs: u32) | DoTruncate

  /** What became of an operation. */
  datatype Event = DidRead(n: nat, bytes: seq<byte>) | DidWrite(data: seq<byte>) | DidSeek(after: Flat) | DidTruncate

  /**
    * What becomes of `op` on the flat file `v`, which can have `room` bytes: without errors, and with a free count that
    * is `right` or invalid, all that there is room for is written, and a seek stops short only where the room ends.
    */
  predicate Outcome(op: Op, v: Flat, room: nat, right: bool, e: Event) {
    match op
    case DoRead(n) => e.DidRead? && e.n == n
    case DoWrite(data) =>
      && e.DidWrite? && e.data <= data
      && var n := if v.pos + |data| < 0x1_0000_0000 then |data| else 0xFFFF_FFFF - v.pos;
         |e.data| <= n && (right ==> v.pos + |e.data| == if v.pos + n <= room then v.pos + n else room)
    case DoSeek(ofs) =>
      e.DidSeek? && e.after.pos <= ofs && (right ==> e.after.pos == if ofs <= room then ofs else room)
    case DoTruncate => e.DidTruncate?
  }

  /** What `f_lseek` to `ofs` may do to a flat file: the bytes stay, and it grows at most up to the new position. */
  predicate Sought(v: Flat, ofs: nat, v': Flat) {
    v.bytes <= v'.bytes && v'.pos <= ofs && |v'.bytes| == Max(|v.bytes|, v'.pos)
  }

  /** The event is one of the flat file `v`. */
  predicate Happens(v: Flat, e: Event)
    requires v.Valid()
  {
    match e
    case DidRead(n, bytes) => bytes == if n <= |v.bytes| - v.pos then v.bytes[v.pos..v.pos + n] else v.bytes[v.pos..]
    case DidSeek(after) => after.Valid() && Sought(v, after.pos, after)
    case _ => true
  }

  function After(v: Flat, e: Event): (v': Flat)
    requires v.Valid() && Happens(v, e)
    ensures v'.Valid()
  {
    match e
    case DidRead(n, _) => v.Read(n).1
    case DidWrite(data) => v.Write(data)
    case DidSeek(after) => after
    case DidTruncate => v.Truncate()
  }

  /** `e` is what `op` did to `v`, which became `v'`. */
  predicate Did(op: Op, v: Flat, room: nat, right: bool, e: Event, v': Flat) {
    Outcome(op, v, room, right, e) && v.Valid() && v'.Valid() && Happens(v, e) && After(v, e) == v'
  }

  /**
    * Clusters that a file gains were free, those that it gives up are free afterwards; it has room for its bytes, and
    * it gains and, when it is cut, keeps no cluster that its bytes do not need.
    */
  ghost predicate Settled(g: Geometry, op: Op, h: Held, free: nat, h': Held, free': nat) {
    && h'.links + free' == h.links + free && |h'.file.bytes| <= LinkStart(g, h'.links)
    && if op == DoTruncate && h.file.pos < |h.file.bytes| then
         h'.links > 0 ==> LinkStart(g, h'.links - 1) < h'.file.pos
       else
         h'.links == h.links || (h'.links > h.links && LinkStart(g, h'.links - 1) < h'.file.pos)
  }

  /** One operation on the first of two files, which share the free clusters. */
  ghost predicate Turned(g: Geometry, right: bool, op: Op, e: Event, p: Pair, p': Pair) {
    && p'.second == p.second
    && Did(op, p.first.file, MostBytes(g, p.first.links, p.free), right, e, p'.first.file)
    && Settled(g, op, p.first, p.free, p'.first, p'.free)
  }

  /**
    * With a right free count nothing is left open: the same operation on the same pair has one outcome, but for the
    * bytes that a seek beyond the end brings in.
    */
  lemma TurnIsDetermined(g: Geometry, op: Op, e: Event, p: Pair, p': Pair, d: Event, q': Pair)
    requires g.csize > 0 && Turned(g, true, op, e, p, p') && Turned(g, true, op, d, p, q')
    ensures p'.first.links == q'.first.links && p'.free == q'.free && p'.second == q'.second
    ensures p'.first.file.pos == q'.first.file.pos && |p'.first.file.bytes| == |q'.first.file.bytes|
    ensures !op.DoSeek? ==> e == d && p' == q'
    ensures op.DoSeek? ==> p.first.file.bytes <= p'.first.file.bytes && p.first.file.bytes <= q'.first.file.bytes
  {
    hide LinkStart, MostBytes;
    FewestLinks(g, p'.first.links, q'.first.links, |p'.first.file.bytes|);
    FewestLinks(g, q'.first.links, p'.first.links, |p'.first.file.bytes|);
  }

  /** Fewer clusters than another number do not hold bytes for which that number is needed. */
  lemma FewestLinks(g: Geometry, k: nat, m: nat, size: nat)
    requires g.csize > 0 && size <= LinkStart(g, k)
    ensures k < m ==> size <= LinkStart(g, m - 1)
  {
    if k < m - 1 {
      Distance(g.csize * SS, k, m - 1);
    }
  }

  /** The sizes that go with a pair of files. */
  lemma PairIs(f: File, other: File)
    requires f.fs == other.fs && f.Core() && f.Cursor(f.fptr) && other.Core() && other.Cursor(other.fptr)
    ensures PairOf(f, other) ==
            Pair(Held(f.View(), |f.chain|), Held(other.View(), |other.chain|), FreeCount(f.fs.Fat()))
    ensures f.View() == Flat(f.Content(), f.fptr)
    ensures f.Room() == MostBytes(f.fs.geo, |f.chain|, FreeCount(f.fs.Fat()))
    ensures f.fptr <= |f.Content()| == f.objsize <= LinkStart(f.fs.geo, |f.chain|)
  {
    LinksInChain(f.fs.geo, f.chain);
  }

  lemma ReadTurned(g: Geometry, right: bool, n: u32, bytes: seq<byte>, p: Pair, p': Pair)
    requires p.first.file.Valid() && p'.second == p.second && p'.free == p.free && p'.first.links == p.first.links
    requires (bytes, p'.first.file) == p.first.file.Read(n) && |p'.first.file.bytes| <= LinkStart(g, p'.first.links)
    ensures Turned(g, right, DoRead(n), DidRead(n, bytes), p, p')
  {
    ReadDelivers(p.first.file, n);
  }

  lemma WriteTurned(g: Geometry, right: bool, data: seq<byte>, bw: nat, p: Pair, p': Pair)
    requires p.first.file.Valid() && p'.second == p.second && p'.first.links + p'.free == p.first.links + p.free
    requires var v := p.first.file;
             var n := if v.pos + |data| < 0x1_0000_0000 then |data| else 0xFFFF_FFFF - v.pos;
             var room := MostBytes(g, p.first.links, p.free);
             bw <= n && bw <= |data| && (right ==> v.pos + bw == if v.pos + n <= room then v.pos + n else room)
    requires p'.first.file == p.first.file.Write(data[..bw])
    requires |p'.first.file.bytes| <= LinkStart(g, p'.first.links)
    requires p'.first.links == p.first.links ||
             (p'.first.links > p.first.links && LinkStart(g, p'.first.links - 1) < p'.first.file.pos)
    ensures Turned(g, right, DoWrite(data), DidWrite(data[..bw]), p, p')
  {
  }

  lemma SeekTurned(g: Geometry, right: bool, ofs: u32, p: Pair, p': Pair)
    requires p.first.file.Valid() && p'.second == p.second && p'.first.links + p'.free == p.first.links + p.free
    requires p'.first.file.Valid() && Sought(p.first.file, ofs, p'.first.file)
    requires var room := MostBytes(g, p.first.links, p.free);
             right ==> p'.first.file.pos == if ofs <= room then ofs else room
    requires |p'.first.file.bytes| <= LinkStart(g, p'.first.links)
    requires p'.first.links == p.first.links ||
             (p'.first.links > p.first.links && LinkStart(g, p'.first.links - 1) < p'.first.file.pos)
    ensures Turned(g, right, DoSeek(ofs), DidSeek(p'.first.file), p, p')
  {
  }

  lemma TruncateTurned(g: Geometry, right: bool, p: Pair, p': Pair)
    requires p.first.file.Valid() && p'.second == p.second && p'.first.links + p'.free == p.first.links + p.free
    requires p'.first.file == p.first.file.Truncate() && |p'.first.file.bytes| <= LinkStart(g, p'.first.links)
    requires if p.first.file.pos == |p.first.file.bytes| then p'.first.links == p.first.links
             else p'.first.links > 0 ==> LinkStart(g, p'.first.links - 1) < p'.first.file.pos
    ensures Turned(g, right, DoTruncate, DidTruncate, p, p')
  {
  }

  method ReadBeside(f: File, other: File, buff: array<byte>, btr: u32) returns (res: FResult, br: nat)
    requires Beside(f, other) && f.readable && btr <= buff.Length
    requires buff != f.buf && buff != other.buf && buff != f.fs.win
    modifies f, f.fs, f.fs.disk, f.fs.win, f.buf, buff
    ensures res == Ok ==>
              && Beside(f, other) && other.View() == old(other.View())
              && br <= btr && (buff[..br], f.View()) == old(f.View()).Read(btr) && (old(Counted(f)) ==> Counted(f))
              && Turned(f.fs.geo, old(Counted(f)), DoRead(btr), DidRead(btr, buff[..br]), old(PairOf(f, other)),
                        PairOf(f, other))
  {
    hide FreeCount, CountRight, LinkStart, MostBytes, Turned, Touched, FatKept, File.Content, File.View, File.Core,
         File.Cursor, Volume.Valid, Volume.Fat, Volume.Logical, PairOf;
    BesideParts(f, other);
    PairIs(f, other);
    ghost var p := PairOf(f, other);
    res, br := f.Read(buff, btr);
    if res == Ok {
      f.SameBytesSameFat();
      FatKeptAsBefore(f.fs.Fat(), f.fs.freeClst, f.chain);
      f.OtherKeptByGrowth(other);
      BesideParts(f, other);
      PairIs(f, other);
      ReadTurned(f.fs.geo, old(Counted(f)), btr, buff[..br], p, PairOf(f, other));
    }
  }

  method WriteBeside(f: File, other: File, data: seq<byte>) returns (res: FResult, bw: nat)
    requires Beside(f, other) && f.writable && |data| < POW32
    modifies f, f.fs, f.fs.disk, f.fs.win, f.buf
    ensures res == Ok ==>
              && Beside(f, other) && other.View() == old(other.View())
              && bw <= |data| && f.View() == old(f.View()).Write(data[..bw]) && (old(Counted(f)) ==> Counted(f))
              && Turned(f.fs.geo, old(Counted(f)), DoWrite(data), DidWrite(data[..bw]), old(PairOf(f, other)),
                        PairOf(f, other))
  {
    hide FreeCount, CountRight, LinkStart, MostBytes, Turned, Touched, FatKept, File.Content, File.View, File.Core,
         File.Cursor, Volume.Valid, Volume.Fat, Volume.Logical, PairOf;
    BesideParts(f, other);
    PairIs(f, other);
    ghost var p := PairOf(f, other);
    res, bw := f.Write(data);
    if res == Ok {
      f.OtherKeptByGrowth(other);
      FatKeptCounts(old(f.fs.Fat()), f.fs.Fat(), old(f.fs.freeClst), f.fs.freeClst, f.chain);
      BesideParts(f, other);
      PairIs(f, other);
      WriteTurned(f.fs.geo, old(Counted(f)), data, bw, p, PairOf(f, other));
    }
  }

  method SeekBeside(f: File, other: File, ofs: u32) returns (res: FResult)
    requires Beside(f, other)
    modifies f, f.fs, f.fs.disk, f.fs.win, f.buf
    ensures res == Ok ==>
              && Beside(f, other) && other.View() == old(other.View())
              && Sought(old(f.View()), ofs, f.View()) && (old(Counted(f)) ==> Counted(f))
              && (f.writable ==>
                    Turned(f.fs.geo, old(Counted(f)), DoSeek(ofs), DidSeek(f.View()), old(PairOf(f, other)),
                           PairOf(f, other)))
  {
    hide FreeCount, CountRight, LinkStart, MostBytes, Turned, Touched, FatKept, File.Content, File.View, File.Core,
         File.Cursor, Volume.Valid, Volume.Fat, Volume.Logical, PairOf;
    BesideParts(f, other);
    PairIs(f, other);
    ghost var p, was := PairOf(f, other), f.View();
    res := f.Seek(ofs);
    if res == Ok {
      f.OtherKeptByGrowth(other);
      FatKeptCounts(old(f.fs.Fat()), f.fs.Fat(), old(f.fs.freeClst), f.fs.freeClst, f.chain);
      BesideParts(f, other);
      assert was.bytes == f.Content()[..|was.bytes|];
      PairIs(f, other);
      if f.writable {
        SeekTurned(f.fs.geo, old(Counted(f)), ofs, p, PairOf(f, other));
      }
    }
  }

  /** The two files stay beside each other exactly if the cut spares the sector in the buffer. */
  method TruncateBeside(f: File, other: File) returns (res: FResult)
    requires Beside(f, other) && f.writable
    modifies f, f.fs, f.fs.disk, f.fs.win, f.buf
    ensures res == Ok ==>
              && f.Valid() && f.err == Ok && f.View() == old(f.View()).Truncate()
              && other.Valid() && other.View() == old(other.View())
              && (Beside(f, other) <==> old(f.CutSparesBuffer())) && (old(Counted(f)) ==> Counted(f))
              && Turned(f.fs.geo, old(Counted(f)), DoTruncate, DidTruncate, old(PairOf(f, other)), PairOf(f, other))
  {
    hide FreeCount, CountRight, LinkStart, MostBytes, Turned, File.Content, File.Core, Volume.Logical,
         Volume.Fat, PairOf;
    BesideParts(f, other);
    PairIs(f, other);
    ghost var p := PairOf(f, other);
    res := f.Truncate();
    if res == Ok {
      f.OtherKeptByCut(other);
      PairIs(f, other);
      TruncateTurned(f.fs.geo, old(Counted(f)), p, PairOf(f, other));
    }
  }

  /** The flat file `v` goes through `events` and ends as `v'`. */
  ghost predicate Explains(v: Flat, events: seq<Event>, v': Flat)
    requires v.Valid()
    decreases |events|
  {
    if events == [] then v' == v else
      var last := |events| - 1;
      exists m: Flat ::
        m.Valid() && Explains(v, events[..last], m) && Happens(m, events[last]) && After(m, events[last]) == v'
  }

  lemma OneMoreEvent(v: Flat, events: seq<Event>, m: Flat, e: Event)
    requires v.Valid() && m.Valid() && Explains(v, events, m) && Happens(m, e)
    ensures Explains(v, events + [e], After(m, e))
  {
    assert (events + [e])[..|events|] == events;
  }

  /** An operation on one of the files. */
  datatype Turn = Turn(first: bool, op: Op)

  /** Which file, and what happened to it. */
  datatype Entry = Entry(first: bool, event: Event)

  /** The part of the log that is about one file. */
  function Own(log: seq<Entry>, first: bool): seq<Event>
    decreases |log|
  {
    if log == [] then [] else
      var rest := Own(log[..|log| - 1], first);
      var last := log[|log| - 1];
      if last.first == first then rest + [last.event] else rest
  }

  lemma OwnMore(log: seq<Entry>, e: Entry, first: bool)
    ensures Own(log + [e], first) == if e.first == first then Own(log, first) + [e.event] else Own(log, first)
  {
    assert (log + [e])[..|log|] == log;
  }

  /** What the callers of `f_read` and `f_write` see to. */
  predicate Fits(op: Op, room: nat) {
    match op
    case DoRead(n) => n <= room
    case DoWrite(data) => |data| < POW32
    case _ => true
  }

  /** One operation on `f`, with `other` open beside it. */
  method Perform(f: File, other: File, op: Op, buff: array<byte>) returns (res: FResult, ghost e: Event)
    requires Beside(f, other) && f.readable && f.writable
    requires buff != f.buf && buff != other.buf && buff != f.fs.win && Fits(op, buff.Length)
    modifies f, f.fs, f.fs.disk, f.fs.win, f.buf, buff
    ensures res == Ok ==>
              && f.Valid() && f.err == Ok && other.Valid() && other.err == Ok && other.View() == old(other.View())
              && Turned(f.fs.geo, old(Counted(f)), op, e, old(PairOf(f, other)), PairOf(f, other))
              && (old(Counted(f)) ==> Counted(f))
              && (Beside(f, other) <==> (op == DoTruncate ==> old(f.CutSparesBuffer())))
  {
    hide *;
    BesideParts(f, other);
    e := DidTruncate;
    match op {
      case DoRead(n) =>
        FitsRead(n, buff.Length);
        var br;
        res, br := ReadBeside(f, other, buff, n);
        if res == Ok {
          BesideParts(f, other);
          e := DidRead(n, buff[..br]);
        }
      case DoWrite(data) =>
        FitsWrite(data, buff.Length);
        var bw;
        res, bw := WriteBeside(f, other, data);
        if res == Ok {
          BesideParts(f, other);
          e := DidWrite(data[..bw]);
        }
      case DoSeek(ofs) =>
        res := SeekBeside(f, other, ofs);
        if res == Ok {
          BesideParts(f, other);
          e := DidSeek(f.View());
        }
      case DoTruncate =>
        res := TruncateBeside(f, other);
        if res == Ok {
          f.ValidParts();
          other.ValidParts();
        }
    }
  }

  lemma FitsRead(n: u32, room: nat)
    requires Fits(DoRead(n), room)
    ensures n <= room
  {
  }

  lemma FitsWrite(data: seq<byte>, room: nat)
    requires Fits(DoWrite(data), room)
    ensures |data| < POW32
  {
  }

  lemma BesideParts(f: File, other: File)
    requires Beside(f, other)
    ensures f != other && f.fs == other.fs && f.buf != other.buf && f.fs.Valid()
    ensures f.Valid() && f.err == Ok && f.Core() && f.Cursor(f.fptr) && f.View().Valid()
    ensures other.Valid() && other.err == Ok && other.Core() && other.Cursor(other.fptr) && other.View().Valid()
  {
  }

  lemma BesideAgain(f: File, other: File, op: Op, spared: bool, sure: bool)
    requires Beside(f, other) <==> (op == DoTruncate ==> spared)
    requires sure ==> op != DoTruncate || spared
    ensures sure ==> Beside(f, other)
  {
  }

  /** An operation by a step on a pair in which its file comes first. */
  ghost predicate TurnedAt(g: Geometry, right: bool, t: Turn, e: Entry, p: Pair, p': Pair) {
    && e.first == t.first
    && if t.first then Turned(g, right, t.op, e.event, p, p') else Turned(g, right, t.op, e.event, p.Swap(), p'.Swap())
  }

  /** The log tells what became of the first turns, and `states` what the two files were before and after each. */
  ghost predicate Follows(g: Geometry, right: bool, turns: seq<Turn>, log: seq<Entry>, states: seq<Pair>) {
    && |log| <= |turns| && |states| == |log| + 1
    && forall k | 0 <= k < |log| :: TurnedAt(g, right, turns[k], log[k], states[k], states[k + 1])
  }

  /** The last operation carried out was a truncation. */
  predicate EndsInCut(turns: seq<Turn>, log: seq<Entry>) {
    0 < |log| <= |turns| && turns[|log| - 1].op == DoTruncate
  }

  lemma NothingYet(g: Geometry, right: bool, turns: seq<Turn>, p: Pair)
    requires p.first.file.Valid() && p.second.file.Valid()
    ensures Follows(g, right, turns, [], [p]) && Own([], true) == Own([], false) == []
    ensures Explains(p.first.file, [], p.first.file) && Explains(p.second.file, [], p.second.file)
  {
  }

  lemma FollowsMore(g: Geometry, right: bool, now: bool, turns: seq<Turn>, log: seq<Entry>, states: seq<Pair>, t: Turn,
                    e: Event, p: Pair, p': Pair)
    requires Follows(g, right, turns, log, states) && |log| < |turns| && turns[|log|] == t && states[|log|] == p
    requires right ==> now
    requires if t.first then Turned(g, now, t.op, e, p, p') else Turned(g, now, t.op, e, p.Swap(), p'.Swap())
    ensures Follows(g, right, turns, log + [Entry(t.first, e)], states + [p'])
    ensures t.op == DoTruncate ==> EndsInCut(turns, log + [Entry(t.first, e)])
  {
    var log', states' := log + [Entry(t.first, e)], states + [p'];
    forall k | 0 <= k < |log'| ensures TurnedAt(g, right, turns[k], log'[k], states'[k], states'[k + 1]) {
      if k < |log| {
        assert TurnedAt(g, right, turns[k], log[k], states[k], states[k + 1]);
      }
    }
  }

  /** The pair seen from the other file. */
  lemma OtherPair(f: File, other: File)
    requires f.fs == other.fs && f.Core() && f.Cursor(f.fptr) && other.Core() && other.Cursor(other.fptr)
    ensures PairOf(other, f) == PairOf(f, other).Swap() && PairOf(f, other) == PairOf(other, f).Swap()
    ensures PairOf(f, other).first.file == f.View() && PairOf(f, other).second.file == other.View()
    ensures Counted(f) <==> Counted(other)
  {
  }

  /** One of these operations, with the log of the file it is on. */
  method TakeTurn(f: File, other: File, op: Op, buff: array<byte>, ghost events: seq<Event>, ghost start: Flat)
    returns (res: FResult, sure: bool, ghost e: Event)
    requires Beside(f, other) && f.readable && f.writable
    requires buff != f.buf && buff != other.buf && buff != f.fs.win && Fits(op, buff.Length)
    requires start.Valid() && Explains(start, events, f.View())
    modifies f, f.fs, f.fs.disk, f.fs.win, f.buf, buff
    ensures res == Ok ==>
              && f.Valid() && f.err == Ok && other.Valid() && other.err == Ok && other.View() == old(other.View())
              && Turned(f.fs.geo, old(Counted(f)), op, e, old(PairOf(f, other)), PairOf(f, other))
              && (old(Counted(f)) ==> Counted(f)) && Explains(start, events + [e], f.View())
              && (sure ==> Beside(f, other)) && (!sure ==> op == DoTruncate)
  {
    hide *;
    BesideParts(f, other);
    sure := op != DoTruncate || f.SparesForSure();
    ghost var p, spared, right := PairOf(f, other), f.CutSparesBuffer(), Counted(f);
    PairIs(f, other);
    if sure && op == DoTruncate {
      BesideOwn(f, other);
      f.SureIsSpared();
    }
    res, e := Perform(f, other, op, buff);
    if res == Ok {
      f.ValidParts();
      other.ValidParts();
      PairIs(f, other);
      TurnedParts(f.fs.geo, right, op, e, p, PairOf(f, other));
      OneMoreEvent(start, events, p.first.file, e);
      BesideAgain(f, other, op, spared, sure);
    }
  }

  lemma BesideOwn(f: File, other: File)
    requires Beside(f, other)
    ensures f.ShowsOwn() && other.ShowsOwn()
  {
  }

  lemma TurnedParts(g: Geometry, right: bool, op: Op, e: Event, p: Pair, p': Pair)
    requires Turned(g, right, op, e, p, p')
    ensures p.first.file.Valid() && Happens(p.first.file, e) && After(p.first.file, e) == p'.first.file
  {
  }

  /**
    * Any sequence of operations on two open files, in any order: each file goes through its own operations as a flat
    * file of its own, and they share nothing but the free clusters. With a free count that is right or invalid, how
    * much is written and how far a seek goes is determined by the sizes of the files and the number of free clusters
    * (`TurnIsDetermined`). The run ends early only on an error, or after a truncation that may have left the buffer at
    * a cluster which was given up.
    */
  method Alternate(f: File, g: File, turns: seq<Turn>, buff: array<byte>)
    returns (res: FResult, ghost log: seq<Entry>, ghost states: seq<Pair>)
    requires Beside(f, g) && f.readable && f.writable && g.readable && g.writable
    requires buff != f.buf && buff != g.buf && buff != f.fs.win && forall t | t in turns :: Fits(t.op, buff.Length)
    modifies f, g, f.fs, f.fs.disk, f.fs.win, f.buf, g.buf, buff
    ensures Follows(f.fs.geo, old(Counted(f)), turns, log, states) && states[0] == old(PairOf(f, g))
    ensures res == Ok ==>
              && f.Valid() && f.err == Ok && Explains(old(f.View()), Own(log, true), f.View())
              && g.Valid() && g.err == Ok && Explains(old(g.View()), Own(log, false), g.View())
              && states[|log|] == PairOf(f, g)
              && (Beside(f, g) || EndsInCut(turns, log)) && (|log| == |turns| || EndsInCut(turns, log))
  {
    hide *;
    BesideParts(f, g);
    OtherPair(f, g);
    ghost var p, v, w, right := PairOf(f, g), f.View(), g.View(), Counted(f);
    res, log, states := Ok, [], [p];
    NothingYet(f.fs.geo, right, turns, p);
    var k, apart := 0, true;
    while k < |turns| && apart
      invariant 0 <= k == |log| <= |turns| && res == Ok && |states| == k + 1 && states[0] == p
      invariant Follows(f.fs.geo, right, turns, log, states)
      invariant f.Valid() && f.err == Ok && f.Core() && f.Cursor(f.fptr) && Explains(v, Own(log, true), f.View())
      invariant g.Valid() && g.err == Ok && g.Core() && g.Cursor(g.fptr) && Explains(w, Own(log, false), g.View())
      invariant states[k] == PairOf(f, g) && f.fs.Valid() && (right ==> Counted(f))
      invariant if apart then Beside(f, g) else EndsInCut(turns, log)
    {
      var t := turns[k];
      var sure;
      ghost var e;
      BesideParts(f, g);
      OtherPair(f, g);
      ghost var now := Counted(f);
      if t.first {
        res, sure, e := TakeTurn(f, g, t.op, buff, Own(log, true), v);
      } else {
        BesideEachOther(f, g);
        res, sure, e := TakeTurn(g, f, t.op, buff, Own(log, false), w);
      }
      if res != Ok {
        return;
      }
      f.ValidParts();
      g.ValidParts();
      f.BaseOfCore();
      OtherPair(f, g);
      FollowsMore(f.fs.geo, right, now, turns, log, states, t, e, states[k], PairOf(f, g));
      OwnMore(log, Entry(t.first, e), true);
      OwnMore(log, Entry(t.first, e), false);
      log, states := log + [Entry(t.first, e)], states + [PairOf(f, g)];
      k, apart := k + 1, sure;
      if apart && !t.first {
        BesideEachOther(g, f);
      }
    }
  }
}
