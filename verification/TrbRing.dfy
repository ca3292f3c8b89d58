/**
  * The cycle-bit protocol of transfer, command and event rings. A transfer or command ring has a link TRB in its
  * last slot, is written by software and read by the controller; an event ring has no link TRB, is written by the
  * controller and read by software. Both directions are one state machine with a writer and a reader.
  */
module TrbRing {
  /** A TRB: its cycle bit, the toggle-cycle bit that matters in a link TRB, and everything else as one value. */
  datatype Trb = Trb(cycle: bool, toggle: bool, payload: int)

  /** Slots, the writer's index and cycle state. */
  datatype Ring = Ring(trbs: seq<Trb>, index: nat, cycle: bool, link: bool) {
    /** The slots that carry data. */
    function Data(): int {
      if link then |trbs| - 1 else |trbs|
    }

    predicate Shape() {
      index < Data()
    }
  }

  /** The reader's index and cycle state. */
  datatype Reader = Reader(index: nat, cycle: bool)

  /** A new ring: every TRB zero but the link TRB, which has the toggle bit. */
  function NewRing(n: nat, link: bool): (r: Ring)
    requires n >= 2
    ensures r.Shape()
  {
    Ring(seq(n, i => Trb(false, link && i == n - 1, 0)), 0, true, link)
  }

  const NEW_READER: Reader := Reader(0, true)

  /** The writer's index moved on; at the end of the ring the link TRB is handed over and the cycle state toggles. */
  function Increment(r: Ring): (r1: Ring)
    requires r.Shape()
    ensures r1.Shape() && r1.link == r.link && |r1.trbs| == |r.trbs|
  {
    if r.index + 1 < r.Data() then r.(index := r.index + 1)
    else if r.link then
      var l := r.trbs[r.Data()];
      Ring(r.trbs[r.Data() := l.(cycle := !l.cycle)], 0, if l.toggle then !r.cycle else r.cycle, true)
    else r.(index := 0, cycle := !r.cycle)
  }

  /** Data written to the writer's slot with the writer's cycle state, then the index moved on. */
  function Put(r: Ring, payload: int): (r1: Ring)
    requires r.Shape()
    ensures r1.Shape() && r1.link == r.link && |r1.trbs| == |r.trbs|
  {
    Increment(r.(trbs := r.trbs[r.index := Trb(r.cycle, false, payload)]))
  }

  /** The reader's test. */
  predicate Ready(trbs: seq<Trb>, c: Reader) {
    c.index < |trbs| && trbs[c.index].cycle == c.cycle
  }

  predicate AtLink(trbs: seq<Trb>, link: bool, c: Reader) {
    link && c.index == |trbs| - 1
  }

  /** The reader moves on: past a link TRB to the first slot, past data to the next slot. */
  function Advance(trbs: seq<Trb>, link: bool, c: Reader): Reader
    requires Ready(trbs, c)
  {
    if AtLink(trbs, link, c) then Reader(0, if trbs[c.index].toggle then !c.cycle else c.cycle)
    else if c.index + 1 < |trbs| then Reader(c.index + 1, c.cycle)
    else Reader(0, !c.cycle)
  }

  /** What was written so far, in laps around the ring: full ones and the current one. */
  datatype History = History(laps: seq<seq<int>>, current: seq<int>) {
    function Lap(k: nat): seq<int>
      requires k <= |laps|
    {
      if k < |laps| then laps[k] else current
    }
  }

  function Flat(laps: seq<seq<int>>): seq<int> {
    if laps == [] then [] else Flat(laps[..|laps| - 1]) + laps[|laps| - 1]
  }

  /** Everything written, in order. */
  function Sent(h: History): seq<int> {
    Flat(h.laps) + h.current
  }

  /** Everything read by a reader that is at slot `index` of lap `lap`. */
  function Got(h: History, lap: nat, index: nat): seq<int>
    requires lap <= |h.laps| && index <= |h.Lap(lap)|
  {
    Flat(h.laps[..lap]) + h.Lap(lap)[..index]
  }

  /** The cycle state in lap `k`. */
  predicate CycleOf(k: nat) {
    k % 2 == 0
  }

  /** Every slot before the index holds the current lap, every other one the lap before, by data and by cycle bit. */
  ghost predicate Written(r: Ring, h: History) {
    && r.Shape() && r.index == |h.current| && r.cycle == CycleOf(|h.laps|)
    && (forall k | 0 <= k < |h.laps| :: |h.laps[k]| == r.Data())
    && (forall i | 0 <= i < r.index :: r.trbs[i].cycle == r.cycle && r.trbs[i].payload == h.current[i])
    && (forall i | r.index <= i < r.Data() :: r.trbs[i].cycle == !r.cycle)
    && (|h.laps| > 0 ==> forall i | r.index <= i < r.Data() :: r.trbs[i].payload == h.laps[|h.laps| - 1][i])
    && (r.link ==> r.trbs[r.Data()].cycle == !r.cycle && r.trbs[r.Data()].toggle)
  }

  ghost predicate Reads(r: Ring, c: Reader, h: History, lap: nat) {
    && lap <= |h.laps| && c.cycle == CycleOf(lap) && c.index <= |h.Lap(lap)|
    && c.index < |r.trbs| && c.index <= r.Data()
  }

  /** The reader is at most one whole ring behind. */
  ghost predicate Near(r: Ring, c: Reader, h: History, lap: nat) {
    lap == |h.laps| || (lap + 1 == |h.laps| && c.index >= r.index)
  }

  function HistoryPut(h: History, payload: int, data: int): History {
    if |h.current| + 1 < data then History(h.laps, h.current + [payload])
    else History(h.laps + [h.current + [payload]], [])
  }

  /** Where the writer is after so many TRBs: all slots are used in turn, but for the last one if it holds the link. */
  lemma WriterPosition(r: Ring, h: History)
    requires Written(r, h)
    ensures r.link ==> |Sent(h)| == |h.laps| * (|r.trbs| - 1) + r.index && r.index < |r.trbs| - 1
    ensures !r.link ==> |Sent(h)| == |h.laps| * |r.trbs| + r.index && r.index < |r.trbs|
    ensures r.cycle <==> |h.laps| % 2 == 0
  {
    FlatSize(h.laps, r.Data());
  }

  lemma {:induction false} FlatSize(laps: seq<seq<int>>, n: nat)
    requires forall k | 0 <= k < |laps| :: |laps[k]| == n
    ensures |Flat(laps)| == |laps| * n
  {
    if laps != [] {
      FlatSize(laps[..|laps| - 1], n);
      assert |laps| * n == (|laps| - 1) * n + n;
    }
  }

  lemma NewRingWritten(n: nat, link: bool)
    requires n >= 2
    ensures Written(NewRing(n, link), History([], []))
    ensures Reads(NewRing(n, link), NEW_READER, History([], []), 0)
  {
  }

  lemma PutInLap(r: Ring, h: History, payload: int)
    requires Written(r, h) && r.index + 1 < r.Data()
    ensures Written(Put(r, payload), History(h.laps, h.current + [payload]))
  {
    var r1, c := Put(r, payload), h.current + [payload];
    assert r1 == r.(trbs := r.trbs[r.index := Trb(r.cycle, false, payload)], index := r.index + 1);
    forall i | 0 <= i < r1.index ensures r1.trbs[i].cycle == r1.cycle && r1.trbs[i].payload == c[i] {
      assert c[i] == if i < r.index then h.current[i] else payload;
    }
  }

  /** With the last slot of a lap the cycle state toggles, and all slots hold the lap that is over. */
  lemma PutAtEnd(r: Ring, h: History, payload: int)
    requires Written(r, h) && r.index + 1 >= r.Data()
    ensures Written(Put(r, payload), History(h.laps + [h.current + [payload]], []))
  {
    var r1, c := Put(r, payload), h.current + [payload];
    assert r1.index == 0 && r1.cycle == !r.cycle && r1.Data() == r.Data() == |c|;
    forall i | 0 <= i < r.Data() ensures r1.trbs[i].cycle == r.cycle && r1.trbs[i].payload == c[i] {
      assert r1.trbs[i] == if i == r.index then Trb(r.cycle, false, payload) else r.trbs[i];
      assert c[i] == if i < r.index then h.current[i] else payload;
    }
    assert r1.cycle == CycleOf(|h.laps| + 1);
  }

  /** Writing keeps the two-lap picture of the slots and appends to what was sent. */
  lemma PutWritten(r: Ring, h: History, payload: int)
    requires Written(r, h)
    ensures Written(Put(r, payload), HistoryPut(h, payload, r.Data()))
    ensures Sent(HistoryPut(h, payload, r.Data())) == Sent(h) + [payload]
  {
    hide Written, Put;
    WrittenIndex(r, h);
    var h1 := HistoryPut(h, payload, r.Data());
    if |h.current| + 1 >= r.Data() {
      PutAtEnd(r, h, payload);
      assert h1.laps[..|h1.laps| - 1] == h.laps;
    } else {
      PutInLap(r, h, payload);
    }
  }

  lemma WrittenIndex(r: Ring, h: History)
    requires Written(r, h)
    ensures r.index == |h.current| && r.Shape()
  {
  }

  /** The writer's own test for a full ring never holds, however far behind the reader is. */
  lemma FullIsNeverSeen(r: Ring, h: History)
    requires Written(r, h)
    ensures r.trbs[r.index].cycle != r.cycle
  {
  }

  /**
    * A reader at most one ring behind finds its slot ready exactly while something is unread,
    * and then finds what was written there.
    */
  lemma ReadyExactly(r: Ring, c: Reader, h: History, lap: nat)
    requires Written(r, h) && Reads(r, c, h, lap) && Near(r, c, h, lap)
    ensures Ready(r.trbs, c) <==> !(lap == |h.laps| && c.index == r.index)
    ensures Ready(r.trbs, c) && !AtLink(r.trbs, r.link, c) ==>
              c.index < |h.Lap(lap)| && r.trbs[c.index].payload == h.Lap(lap)[c.index]
  {
  }

  /** A reader that falls further behind, up to two rings, takes a slot with unread data for an empty one. */
  lemma TooFarBehind(r: Ring, c: Reader, h: History, lap: nat)
    requires Written(r, h) && Reads(r, c, h, lap)
    requires (lap + 1 == |h.laps| && c.index < r.index) || (lap + 2 == |h.laps| && c.index >= r.index)
    ensures !Ready(r.trbs, c)
  {
  }

  /** The lap that the reader is in after it moves on. */
  function LapAfter(r: Ring, c: Reader, lap: nat): nat {
    if AtLink(r.trbs, r.link, c) || c.index + 1 == |r.trbs| then lap + 1 else lap
  }

  lemma AdvanceReads(r: Ring, c: Reader, h: History, lap: nat)
    requires Written(r, h) && Reads(r, c, h, lap) && Near(r, c, h, lap) && Ready(r.trbs, c)
    ensures var c1, lap1 := Advance(r.trbs, r.link, c), LapAfter(r, c, lap);
            && Reads(r, c1, h, lap1) && Near(r, c1, h, lap1)
            && Got(h, lap1, c1.index) ==
               if AtLink(r.trbs, r.link, c) then Got(h, lap, c.index)
               else Got(h, lap, c.index) + [r.trbs[c.index].payload]
  {
    ReadyExactly(r, c, h, lap);
    var lap1 := LapAfter(r, c, lap);
    if lap1 == lap + 1 {
      assert lap < |h.laps|;
      assert h.laps[..lap1][..lap] == h.laps[..lap];
      assert h.laps[lap][..r.Data()] == h.laps[lap];
    }
  }

  lemma {:induction false} FlatGrows(laps: seq<seq<int>>, k: nat)
    requires k <= |laps|
    ensures |Flat(laps[..k])| <= |Flat(laps)|
  {
    if k == |laps| {
      assert laps[..k] == laps;
    } else {
      var front := laps[..|laps| - 1];
      assert front[..k] == laps[..k];
      FlatGrows(front, k);
    }
  }

  lemma FlatNext(laps: seq<seq<int>>, k: nat)
    requires k < |laps|
    ensures |Flat(laps[..k + 1])| == |Flat(laps[..k])| + |laps[k]|
  {
    assert laps[..k + 1][..k] == laps[..k];
  }

  /** The bound on the TRBs written and not yet read: all data slots, or one less for a reader at the link TRB. */
  predicate Bounded(unread: int, trbs: seq<Trb>, link: bool, c: Reader) {
    var data := if link then |trbs| - 1 else |trbs|;
    unread <= data && !(unread == data && AtLink(trbs, link, c))
  }

  /** Counted in TRBs, the bound says exactly that the reader is at most one ring behind. */
  lemma BoundIsExact(r: Ring, c: Reader, h: History, lap: nat)
    requires Written(r, h) && Reads(r, c, h, lap)
    ensures Bounded(|Sent(h)| - |Got(h, lap, c.index)|, r.trbs, r.link, c) <==> Near(r, c, h, lap)
  {
    var laps := |h.laps|;
    assert h.laps[..laps] == h.laps;
    if lap < laps {
      FlatNext(h.laps, lap);
      FlatGrows(h.laps, lap + 1);
      if lap + 1 < laps {
        FlatNext(h.laps, lap + 1);
        FlatGrows(h.laps, lap + 2);
        if lap + 2 < laps {
          FlatNext(h.laps, lap + 2);
          FlatGrows(h.laps, lap + 3);
        }
      }
    }
  }

  /** A ring, its reader, and what the two sides have written and read. */
  datatype State = State(ring: Ring, reader: Reader, sent: seq<int>, got: seq<int>)

  datatype Event = Write(payload: int) | Read

  function Start(n: nat, link: bool): State
    requires n >= 2
  {
    State(NewRing(n, link), NEW_READER, [], [])
  }

  function Apply(s: State, e: Event): (s1: State)
    requires s.ring.Shape()
    ensures s1.ring.Shape()
  {
    match e
    case Write(p) => State(Put(s.ring, p), s.reader, s.sent + [p], s.got)
    case Read =>
      if !Ready(s.ring.trbs, s.reader) then s
      else State(s.ring, Advance(s.ring.trbs, s.ring.link, s.reader), s.sent,
                 if AtLink(s.ring.trbs, s.ring.link, s.reader) then s.got
                 else s.got + [s.ring.trbs[s.reader.index].payload])
  }

  predicate Within(s: State) {
    Bounded(|s.sent| - |s.got|, s.ring.trbs, s.ring.link, s.reader)
  }

  /** The reader stays within the bound after each of the events. */
  ghost predicate KeepsUp(s: State, events: seq<Event>)
    requires s.ring.Shape()
    decreases |events|
  {
    Within(s) && (events == [] || KeepsUp(Apply(s, events[0]), events[1..]))
  }

  ghost function After(s: State, events: seq<Event>): (s1: State)
    requires s.ring.Shape()
    ensures s1.ring.Shape()
    decreases |events|
  {
    if events == [] then s else After(Apply(s, events[0]), events[1..])
  }

  /** The state has some history behind it. */
  ghost predicate Explained(s: State, h: History, lap: nat) {
    && Written(s.ring, h) && Reads(s.ring, s.reader, h, lap) && Near(s.ring, s.reader, h, lap)
    && s.sent == Sent(h) && s.got == Got(h, lap, s.reader.index)
  }

  lemma ApplyExplained(s: State, e: Event, h: History, lap: nat) returns (h1: History, lap1: nat)
    requires Explained(s, h, lap) && Within(Apply(s, e))
    ensures Explained(Apply(s, e), h1, lap1)
  {
    match e
    case Write(p) => {
      PutWritten(s.ring, h, p);
      h1, lap1 := HistoryPut(h, p, s.ring.Data()), lap;
      PutReads(s.ring, s.reader, h, lap, p);
      BoundIsExact(Apply(s, e).ring, s.reader, h1, lap);
    }
    case Read => {
      h1, lap1 := h, lap;
      if Ready(s.ring.trbs, s.reader) {
        AdvanceReads(s.ring, s.reader, h, lap);
        lap1 := LapAfter(s.ring, s.reader, lap);
      }
    }
  }

  /** Writing leaves the reader where it is. */
  lemma PutReads(r: Ring, c: Reader, h: History, lap: nat, payload: int)
    requires Written(r, h) && Reads(r, c, h, lap)
    ensures var h1 := HistoryPut(h, payload, r.Data());
            Reads(Put(r, payload), c, h1, lap) && Got(h1, lap, c.index) == Got(h, lap, c.index)
  {
    var h1 := HistoryPut(h, payload, r.Data());
    assert h1.laps[..lap] == h.laps[..lap];
    assert h1.Lap(lap)[..c.index] == h.Lap(lap)[..c.index];
  }

  lemma {:induction false} RunExplained(s: State, events: seq<Event>, h: History, lap: nat)
      returns (h1: History, lap1: nat)
    requires Explained(s, h, lap) && KeepsUp(s, events)
    ensures Explained(After(s, events), h1, lap1)
    decreases |events|
  {
    if events == [] {
      h1, lap1 := h, lap;
    } else {
      var s1 := Apply(s, events[0]);
      assert Within(s1);
      h1, lap1 := ApplyExplained(s, events[0], h, lap);
      h1, lap1 := RunExplained(s1, events[1..], h1, lap1);
    }
  }

  lemma {:induction false} FlatPrefix(laps: seq<seq<int>>, k: nat)
    requires k <= |laps|
    ensures Flat(laps[..k]) <= Flat(laps)
    ensures k < |laps| ==> Flat(laps[..k]) + laps[k] <= Flat(laps)
  {
    if k == |laps| {
      assert laps[..k] == laps;
    } else {
      var front := laps[..|laps| - 1];
      assert front[..k] == laps[..k];
      FlatPrefix(front, k);
    }
  }

  lemma GotIsPrefix(h: History, lap: nat, index: nat)
    requires lap <= |h.laps| && index <= |h.Lap(lap)|
    ensures Got(h, lap, index) <= Sent(h)
    ensures index < |h.Lap(lap)| ==>
              |Got(h, lap, index)| < |Sent(h)| && Sent(h)[|Got(h, lap, index)|] == h.Lap(lap)[index]
  {
    FlatPrefix(h.laps, lap);
    assert h.laps[..|h.laps|] == h.laps;
  }

  /**
    * Over every run in which the reader keeps within the bound, it has received a prefix of what was written,
    * each TRB once and in order; its next TRB is the next one written; and it stops exactly at the writer's index
    * with everything received.
    */
  lemma InOrderOnceEach(n: nat, link: bool, events: seq<Event>)
    requires n >= 2 && KeepsUp(Start(n, link), events)
    ensures var s := After(Start(n, link), events);
            && s.got <= s.sent
            && (Ready(s.ring.trbs, s.reader) && !AtLink(s.ring.trbs, link, s.reader) ==>
                  |s.got| < |s.sent| && s.ring.trbs[s.reader.index].payload == s.sent[|s.got|])
            && (!Ready(s.ring.trbs, s.reader) ==> s.got == s.sent && s.reader.index == s.ring.index)
  {
    NewRingWritten(n, link);
    var h, lap := RunExplained(Start(n, link), events, History([], []), 0);
    var s := After(Start(n, link), events);
    LinkKept(Start(n, link), events);
    ReadyExactly(s.ring, s.reader, h, lap);
    GotIsPrefix(h, lap, s.reader.index);
    assert h.laps[..|h.laps|] == h.laps;
  }

  lemma {:induction false} LinkKept(s: State, events: seq<Event>)
    requires s.ring.Shape()
    ensures After(s, events).ring.link == s.ring.link
    decreases |events|
  {
    if events != [] {
      LinkKept(Apply(s, events[0]), events[1..]);
    }
  }

  function WriteEvents(k: nat): seq<Event> {
    seq(k, _ => Write(0))
  }

  function ReadEvents(k: nat): seq<Event> {
    seq(k, _ => Read)
  }

  lemma {:induction false} AfterBoth(s: State, a: seq<Event>, b: seq<Event>)
    requires s.ring.Shape()
    ensures After(s, a + b) == After(After(s, a), b)
    ensures KeepsUp(s, a) && KeepsUp(After(s, a), b) ==> KeepsUp(s, a + b)
    decreases |a|
  {
    if a == [] {
      assert a + b == b;
    } else {
      assert (a + b)[1..] == a[1..] + b;
      AfterBoth(Apply(s, a[0]), a[1..], b);
    }
  }

  /** Writing `k` TRBs while the reader stands still. */
  lemma {:induction false} AfterWrites(s: State, k: nat)
    requires s.ring.Shape()
    requires Bounded(|s.sent| - |s.got| + k, s.ring.trbs, s.ring.link, s.reader)
    ensures var s1 := After(s, WriteEvents(k));
            s1.reader == s.reader && s1.got == s.got && |s1.sent| == |s.sent| + k && KeepsUp(s, WriteEvents(k))
            && |s1.ring.trbs| == |s.ring.trbs| && s1.ring.link == s.ring.link
    decreases k
  {
    if k > 0 {
      assert WriteEvents(k)[1..] == WriteEvents(k - 1);
      AfterWrites(Apply(s, Write(0)), k - 1);
    }
  }

  /** A reader that reads `k` of the first `data` TRBs written. */
  lemma {:induction false} AfterReads(n: nat, k: nat)
    requires n >= 2 && k <= n - 1
    ensures var events := WriteEvents(n - 1) + ReadEvents(k);
            var s := After(Start(n, true), events);
            KeepsUp(Start(n, true), events) && s.reader == Reader(k, true) && |s.got| == k && |s.sent| == n - 1
            && |s.ring.trbs| == n && s.ring.link
    decreases k
  {
    if k == 0 {
      assert WriteEvents(n - 1) + ReadEvents(0) == WriteEvents(n - 1);
      AfterWrites(Start(n, true), n - 1);
    } else {
      AfterReads(n, k - 1);
      var before := WriteEvents(n - 1) + ReadEvents(k - 1);
      assert WriteEvents(n - 1) + ReadEvents(k) == before + [Read];
      InOrderOnceEach(n, true, before);
      AfterBoth(Start(n, true), before, [Read]);
      var s := After(Start(n, true), before);
      assert After(s, [Read]) == Apply(s, Read);
      assert KeepsUp(s, [Read]);
    }
  }

  /**
    * A bound of all data slots alone is not enough: in every ring with a link TRB there is a run at whose end just
    * that many TRBs are unread, the reader stands at the link TRB, and it takes the ring for empty.
    */
  lemma StallAtLink(n: nat)
    requires n >= 2
    ensures var events := WriteEvents(n - 1) + ReadEvents(n - 1) + WriteEvents(n - 1);
            var s := After(Start(n, true), events);
            && |s.sent| - |s.got| == n - 1 && !Ready(s.ring.trbs, s.reader)
  {
    hide Flat, Sent, Got, Written, Reads, Apply, Explained, Ready;
    var first := WriteEvents(n - 1) + ReadEvents(n - 1);
    AfterReads(n, n - 1);
    var s1 := After(Start(n, true), first);
    AfterWrites(s1, n - 2);
    var s2 := After(s1, WriteEvents(n - 2));
    AfterBoth(Start(n, true), first, WriteEvents(n - 2));
    StartExplained(n);
    var h, lap := RunExplained(Start(n, true), first + WriteEvents(n - 2), History([], []), 0);
    assert WriteEvents(n - 1) == WriteEvents(n - 2) + [Write(0)];
    AfterBoth(s1, WriteEvents(n - 2), [Write(0)]);
    AfterBoth(Start(n, true), first, WriteEvents(n - 1));
    assert After(s2, [Write(0)]) == Apply(s2, Write(0));
    OneMoreStalls(s2, h, lap, n);
  }

  lemma StartExplained(n: nat)
    requires n >= 2
    ensures Explained(Start(n, true), History([], []), 0)
  {
    NewRingWritten(n, true);
  }

  lemma OneMoreStalls(s: State, h: History, lap: nat, n: nat)
    requires Explained(s, h, lap) && s.ring.link && |s.ring.trbs| == n >= 2 && s.reader.index == n - 1
    requires |s.sent| - |s.got| == n - 2
    ensures var s1 := Apply(s, Write(0)); |s1.sent| - |s1.got| == n - 1 && !Ready(s1.ring.trbs, s1.reader)
  {
    PutWritten(s.ring, h, 0);
    PutReads(s.ring, s.reader, h, lap, 0);
    var s1, h1 := Apply(s, Write(0)), HistoryPut(h, 0, n - 1);
    BoundIsExact(s1.ring, s.reader, h1, lap);
    Behind(s1.ring, s.reader, h1, lap);
    TooFarBehind(s1.ring, s.reader, h1, lap);
  }

  /** A whole ring and a link TRB behind. */
  lemma Behind(r: Ring, c: Reader, h: History, lap: nat)
    requires Written(r, h) && Reads(r, c, h, lap) && r.link && c.index == r.Data()
    requires |Sent(h)| - |Got(h, lap, c.index)| == r.Data()
    ensures lap + 2 == |h.laps| && r.index == 0
  {
    var laps := |h.laps|;
    assert h.laps[..laps] == h.laps;
    if lap < laps {
      FlatNext(h.laps, lap);
      FlatGrows(h.laps, lap + 1);
      if lap + 1 < laps {
        FlatNext(h.laps, lap + 1);
        FlatGrows(h.laps, lap + 2);
        if lap + 2 < laps {
          FlatNext(h.laps, lap + 2);
          FlatGrows(h.laps, lap + 3);
        }
      }
    }
  }

  /** `CXHCIRing`: the slots in memory and the side of the protocol that software runs. */
  class XhciRing {
    const isEvent: bool
    /** Null when no memory for the ring was to be had. */
    const trbs: array?<Trb>
    var enqueueIndex: nat
    var dequeueIndex: nat
    var cycleState: bool

    /** Every other method asserts it. */
    predicate IsValid() {
      trbs != null
    }

    predicate Valid()
      reads this
    {
      IsValid() &&
      2 <= trbs.Length && dequeueIndex < trbs.Length &&
      enqueueIndex < if isEvent then trbs.Length else trbs.Length - 1
    }

    /** Software as the writer of a transfer or command ring. */
    function Writer(): Ring
      requires IsValid()
      reads this, trbs
    {
      Ring(trbs[..], enqueueIndex, cycleState, true)
    }

    /** Software as the reader of an event ring. */
    function Consumer(): Reader
      reads this
    {
      Reader(dequeueIndex, cycleState)
    }

    /** `memory` tells whether the allocator has room for the ring. */
    constructor (isEvent: bool, count: nat, memory: bool)
      requires count >= 16 && count % 4 == 0
      ensures this.isEvent == isEvent && Consumer() == NEW_READER && (IsValid() <==> memory)
      ensures enqueueIndex == dequeueIndex == 0 && cycleState
      ensures IsValid() ==> Valid() && fresh(trbs) && trbs[..] == NewRing(count, !isEvent).trbs
      ensures IsValid() ==>
                && trbs.Length == count
                && forall i | 0 <= i < count :: trbs[i] == Trb(false, !isEvent && i == count - 1, 0)
      ensures IsValid() && !isEvent ==> Writer() == NewRing(count, true)
    {
      this.isEvent, enqueueIndex, dequeueIndex, cycleState := isEvent, 0, 0, true;
      trbs := null;
      if memory {
        trbs := new Trb[count](_ => Trb(false, false, 0));
      }
      new;
      if IsValid() && !isEvent {
        trbs[count - 1] := Trb(false, true, 0);
      }
    }

    /** The slot to write, or -1 when the ring looks full; it never does (see `FullIsNeverSeen`). */
    method GetEnqueueTRB(ghost h: History) returns (slot: int)
      requires Valid() && !isEvent && Written(Writer(), h)
      ensures slot == enqueueIndex
    {
      FullIsNeverSeen(Writer(), h);
      if trbs[enqueueIndex].cycle == cycleState {
        return -1;
      }
      return enqueueIndex;
    }

    method IncrementEnqueue()
      requires Valid() && !isEvent && trbs[enqueueIndex].cycle == cycleState
      modifies this`enqueueIndex, this`cycleState, trbs
      ensures Valid() && Writer() == Increment(old(Writer()))
    {
      enqueueIndex := enqueueIndex + 1;
      if enqueueIndex == trbs.Length - 1 {
        trbs[enqueueIndex] := trbs[enqueueIndex].(cycle := !trbs[enqueueIndex].cycle);
        if trbs[enqueueIndex].toggle {
          cycleState := !cycleState;
        }
        enqueueIndex := 0;
      }
    }

    /** `CXHCIEndpoint::EnqueueTRB`: the slot is filled with the current cycle state and handed over. */
    method Enqueue(payload: int, ghost h: History) returns (ok: bool, ghost h1: History)
      requires Valid() && !isEvent && Written(Writer(), h)
      modifies this`enqueueIndex, this`cycleState, trbs
      ensures Valid() && ok && Writer() == Put(old(Writer()), payload)
      ensures Written(Writer(), h1) && Sent(h1) == Sent(h) + [payload]
    {
      PutWritten(Writer(), h, payload);
      h1 := HistoryPut(h, payload, Writer().Data());
      var slot := GetEnqueueTRB(h);
      if slot < 0 {
        return false, h;
      }
      ghost var before := Writer();
      trbs[slot] := Trb(cycleState, false, payload);
      assert Writer() == before.(trbs := before.trbs[before.index := Trb(before.cycle, false, payload)]);
      IncrementEnqueue();
      ok := true;
    }

    /** The slot to read, or -1 when the ring is empty. */
    method GetDequeueTRB() returns (slot: int)
      requires Valid()
      ensures slot == if Ready(trbs[..], Consumer()) then dequeueIndex else -1
    {
      if trbs[dequeueIndex].cycle != cycleState {
        return -1;
      }
      return dequeueIndex;
    }

    method IncrementDequeue() returns (slot: nat)
      requires Valid() && isEvent && Ready(trbs[..], Consumer())
      modifies this`dequeueIndex, this`cycleState
      ensures Valid() && Consumer() == Advance(trbs[..], false, old(Consumer())) && slot == dequeueIndex
    {
      dequeueIndex := dequeueIndex + 1;
      if dequeueIndex == trbs.Length {
        dequeueIndex := 0;
        cycleState := !cycleState;
      }
      return dequeueIndex;
    }
  }
}
