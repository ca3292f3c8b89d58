/** The USB configuration descriptor: a validating pass, and walks that rely on it. */
module UsbConfig {
  import opened Machine

  const CONFIGURATION: byte := 2
  const INTERFACE: byte := 4
  const ENDPOINT: byte := 5
  const CONFIGURATION_SIZE: nat := 9
  const INTERFACE_SIZE: nat := 9
  const ENDPOINT_SIZE: nat := 7
  const AUDIO_ENDPOINT_SIZE: nat := 9

  type Bytes = seq<byte>

  /** A descriptor with its two header bytes inside the buffer. */
  predicate HasHeader(b: Bytes, p: nat) {
    p + 1 < |b|
  }

  function Length(b: Bytes, p: nat): nat
    requires HasHeader(b, p)
  {
    b[p] as nat
  }

  function Type(b: Bytes, p: nat): byte
    requires HasHeader(b, p)
  {
    b[p + 1]
  }

  /** `wTotalLength`, least significant byte first. */
  function TotalLength(b: Bytes): nat
    requires |b| >= 4
  {
    b[2] as nat + 256 * b[3] as nat
  }

  predicate HeaderOk(b: Bytes) {
    && 4 <= |b| <= 1024
    && Length(b, 0) == CONFIGURATION_SIZE && Type(b, 0) == CONFIGURATION && TotalLength(b) <= |b|
  }

  /** Where a descriptor may stand and how long it must be; `last` is the type before it, 0 at the start. */
  predicate InPlace(b: Bytes, p: nat, last: byte, audio: bool)
    requires HasHeader(b, p)
  {
    match Type(b, p)
    case 2 => last == 0 && Length(b, p) == CONFIGURATION_SIZE
    case 4 => last != 0 && Length(b, p) == INTERFACE_SIZE
    case 5 =>
      last != 0 && last != CONFIGURATION
      && (Length(b, p) == ENDPOINT_SIZE || (audio && Length(b, p) == AUDIO_ENDPOINT_SIZE))
    case _ => true
  }

  /** Whether endpoints after this descriptor belong to an audio class 1.0 interface. */
  function Audio(b: Bytes, p: nat, audio: bool): bool
    requires HasHeader(b, p)
  {
    if Type(b, p) == INTERFACE && p + INTERFACE_SIZE <= |b| then b[p + 5] == 1 && b[p + 7] != 0x20 else audio
  }

  /**
    * Descriptors of non-zero length lie end to end from `p` to `end`, each in its place,
    * with room for more than a header before `total` where each begins.
    */
  ghost predicate Laid(b: Bytes, p: nat, end: nat, total: nat, last: byte, audio: bool)
    requires total <= |b|
    decreases end - p
  {
    p == end ||
    (p < end && p + 2 < total && Length(b, p) > 0 && p + Length(b, p) <= total
     && InPlace(b, p, last, audio)
     && p + Length(b, p) <= end
     && Laid(b, p + Length(b, p), end, total, Type(b, p), Audio(b, p, audio)))
  }

  /** Where descriptors may end: at the total length, or at a zero length byte before it. */
  predicate IsEnd(b: Bytes, end: nat, total: nat)
    requires total <= |b|
  {
    end == total || (end + 2 < total && Length(b, end) == 0)
  }

  /** What the validating pass is for. */
  ghost predicate WellFormed(b: Bytes, end: nat) {
    HeaderOk(b) && end <= TotalLength(b) && IsEnd(b, end, TotalLength(b))
    && Laid(b, 0, end, TotalLength(b), 0, false)
  }

  /** A buffer is well formed up to at most one end. */
  lemma {:induction false} EndIsUnique(b: Bytes, p: nat, end0: nat, end1: nat, total: nat, last: byte, audio: bool)
    requires total <= |b| && IsEnd(b, end0, total) && IsEnd(b, end1, total)
    requires Laid(b, p, end0, total, last, audio) && Laid(b, p, end1, total, last, audio)
    ensures end0 == end1
    decreases total - p
  {
    if p != end0 && p != end1 {
      EndIsUnique(b, p + Length(b, p), end0, end1, total, Type(b, p), Audio(b, p, audio));
    }
  }

  /** The tiling alone, without the rules of place. */
  ghost predicate Tiled(b: Bytes, p: nat, end: nat)
    requires end <= |b|
    decreases end - p
  {
    p == end || (p < end && HasHeader(b, p) && Length(b, p) > 0 && p + Length(b, p) <= end
                 && Tiled(b, p + Length(b, p), end))
  }

  lemma {:induction false} LaidIsTiled(b: Bytes, p: nat, end: nat, total: nat, last: byte, audio: bool)
    requires total <= |b| && end <= total && Laid(b, p, end, total, last, audio)
    ensures Tiled(b, p, end)
    decreases end - p
  {
    if p != end {
      LaidIsTiled(b, p + Length(b, p), end, total, Type(b, p), Audio(b, p, audio));
    }
  }

  /** The positions of the descriptors of a tiling, in order. */
  ghost function Starts(b: Bytes, p: nat, end: nat): (s: seq<nat>)
    requires end <= |b| && Tiled(b, p, end)
    ensures forall i | 0 <= i < |s| :: p <= s[i] < end && HasHeader(b, s[i]) && s[i] + Length(b, s[i]) <= end
    decreases end - p
  {
    if p == end then [] else [p] + Starts(b, p + Length(b, p), end)
  }

  // ---------- The same in plain bytes ----------

  /** The descriptors of `b` begin at the positions `s`, one after the other from 0 to `end`, and none is empty. */
  ghost predicate EndToEnd(b: Bytes, s: seq<nat>, end: nat, total: nat) {
    && total <= |b| && (if s == [] then end == 0 else s[0] == 0)
    && forall i | 0 <= i < |s| ::
         s[i] + 2 < total && 0 < b[s[i]] as nat <= total - s[i]
         && s[i] + b[s[i]] as nat == if i + 1 < |s| then s[i + 1] else end
  }

  /** The last interface among the first `i` descriptors is one of audio class 1.0. */
  ghost predicate InAudio(b: Bytes, s: seq<nat>, i: nat)
    requires i <= |s| && forall k | 0 <= k < i :: s[k] + 1 < |b|
  {
    exists j | 0 <= j < i ::
      && b[s[j] + 1] == 4 && (forall k | j < k < i :: b[s[k] + 1] != 4)
      && s[j] + 7 < |b| && b[s[j] + 5] == 1 && b[s[j] + 7] != 0x20
  }

  /** Descriptor `i` may stand where it does, after one of type `b[s[i - 1] + 1]`, and has the length of its type. */
  ghost predicate Fitting(b: Bytes, s: seq<nat>, i: nat)
    requires i < |s| && forall k | 0 <= k <= i :: s[k] + 1 < |b|
  {
    && (b[s[i] + 1] == 2 ==> b[s[i]] == 9 && (i == 0 || b[s[i - 1] + 1] == 0))
    && (b[s[i] + 1] == 4 ==> b[s[i]] == 9 && i > 0 && b[s[i - 1] + 1] != 0)
    && (b[s[i] + 1] == 5 ==>
          && i > 0 && b[s[i - 1] + 1] != 0 && b[s[i - 1] + 1] != 2
          && (b[s[i]] == 7 || (b[s[i]] == 9 && InAudio(b, s, i))))
  }

  /** A configuration whose total length is in bytes 2 and 3, the low one first, with descriptors at `s` up to `end`. */
  ghost predicate IsConfiguration(b: Bytes, s: seq<nat>, end: nat) {
    && 4 <= |b| <= 1024 && b[0] == 9 && b[1] == 2 && b[2] as nat + 256 * b[3] as nat <= |b|
    && var total := b[2] as nat + 256 * b[3] as nat;
       && EndToEnd(b, s, end, total) && (forall i | 0 <= i < |s| :: Fitting(b, s, i))
       && (end == total || (end + 2 < total && b[end] == 0))
  }

  /** Only what comes before descriptor `i` matters for its place. */
  lemma SamePrefix(b: Bytes, s: seq<nat>, t: seq<nat>, i: nat)
    requires s <= t && i <= |s| && forall k | 0 <= k < |t| :: t[k] + 1 < |b|
    ensures InAudio(b, t, i) == InAudio(b, s, i)
    ensures i < |s| ==> Fitting(b, t, i) == Fitting(b, s, i)
  {
  }

  /** The flag of the parser is about the last interface passed. */
  lemma AudioStep(b: Bytes, s: seq<nat>, i: nat)
    requires i < |s| && forall k | 0 <= k <= i :: s[k] + 1 < |b|
    requires b[s[i] + 1] == 4 ==> s[i] + 9 <= |b|
    ensures InAudio(b, s, i + 1) == Audio(b, s[i], InAudio(b, s, i))
  {
    if b[s[i] + 1] != 4 && InAudio(b, s, i) {
      var j :| 0 <= j < i && b[s[j] + 1] == 4 && (forall k | j < k < i :: b[s[k] + 1] != 4)
               && s[j] + 7 < |b| && b[s[j] + 5] == 1 && b[s[j] + 7] != 0x20;
      assert forall k | j < k < i + 1 :: b[s[k] + 1] != 4;
    }
  }

  /** Place `i` of the sequence: a descriptor or the end. */
  ghost function At(s: seq<nat>, end: nat, i: nat): nat
    requires i <= |s|
  {
    if i < |s| then s[i] else end
  }

  ghost function TypeBefore(b: Bytes, s: seq<nat>, i: nat): byte
    requires i <= |s| && forall k | 0 <= k < |s| :: s[k] + 1 < |b|
  {
    if i == 0 then 0 else b[s[i - 1] + 1]
  }

  lemma InPlaceIs(b: Bytes, s: seq<nat>, i: nat)
    requires i < |s| && forall k | 0 <= k < |s| :: s[k] + 1 < |b|
    ensures Fitting(b, s, i) <==> InPlace(b, s[i], TypeBefore(b, s, i), InAudio(b, s, i))
  {
    hide InAudio;
  }

  lemma StepOf(b: Bytes, s: seq<nat>, end: nat, total: nat, i: nat)
    requires EndToEnd(b, s, end, total) && i <= |s|
    ensures total <= |b| && forall k | 0 <= k < |s| :: s[k] + 2 < total
    ensures i == |s| ==> At(s, end, i) == end
    ensures i < |s| ==>
              && At(s, end, i) == s[i] && Length(b, s[i]) > 0 && s[i] + Length(b, s[i]) == At(s, end, i + 1) <= total
              && TypeBefore(b, s, i + 1) == Type(b, s[i])
    ensures At(s, end, 0) == 0
  {
  }

  lemma {:induction false} FittingIsLaid(b: Bytes, s: seq<nat>, end: nat, total: nat, i: nat)
    requires EndToEnd(b, s, end, total) && i <= |s| && forall k | 0 <= k < |s| :: Fitting(b, s, k)
    ensures At(s, end, i) <= end && Laid(b, At(s, end, i), end, total, TypeBefore(b, s, i), InAudio(b, s, i))
    decreases |s| - i
  {
    hide EndToEnd, InPlace, Fitting, InAudio, Audio, At, TypeBefore;
    StepOf(b, s, end, total, i);
    if i < |s| {
      assert b[s[i] + 1] == 4 ==> s[i] + 9 <= |b| by {
        FittingLength(b, s, i);
      }
      AudioStep(b, s, i);
      InPlaceIs(b, s, i);
      FittingIsLaid(b, s, end, total, i + 1);
    }
  }

  lemma FittingLength(b: Bytes, s: seq<nat>, i: nat)
    requires i < |s| && (forall k | 0 <= k < |s| :: s[k] + 1 < |b|) && s[i] + b[s[i]] as nat <= |b| && Fitting(b, s, i)
    ensures b[s[i] + 1] == 4 ==> s[i] + 9 <= |b|
  {
  }

  /** One more descriptor. */
  lemma OneMore(b: Bytes, s: seq<nat>, p: nat, total: nat)
    requires EndToEnd(b, s, p, total) && p + 2 < total && Length(b, p) > 0 && p + Length(b, p) <= total
    ensures EndToEnd(b, s + [p], p + Length(b, p), total)
    ensures TypeBefore(b, s + [p], |s|) == TypeBefore(b, s, |s|)
    ensures TypeBefore(b, s + [p], |s| + 1) == Type(b, p)
  {
    var t := s + [p];
    forall i | 0 <= i < |t|
      ensures t[i] + 2 < total && 0 < b[t[i]] as nat <= total - t[i]
      ensures t[i] + b[t[i]] as nat == if i + 1 < |t| then t[i + 1] else p + Length(b, p)
    {
      if i < |s| {
        assert s[i] + 2 < total;
        assert s[i] + b[s[i]] as nat == if i + 1 < |s| then s[i + 1] else p;
        assert t[i] == s[i] && t[i + 1] == if i + 1 < |s| then s[i + 1] else p;
      } else {
        assert t[i] == p && i + 1 == |t|;
      }
    }
  }

  lemma {:induction false} LaidIsFitting(b: Bytes, s: seq<nat>, p: nat, end: nat, total: nat)
    requires EndToEnd(b, s, p, total) && end <= total && forall k | 0 <= k < |s| :: Fitting(b, s, k)
    requires Laid(b, p, end, total, TypeBefore(b, s, |s|), InAudio(b, s, |s|)) && Tiled(b, p, end)
    ensures var t := s + Starts(b, p, end);
            EndToEnd(b, t, end, total) && forall k | 0 <= k < |t| :: Fitting(b, t, k)
    decreases end - p
  {
    hide EndToEnd, InPlace, Fitting, InAudio, Audio, TypeBefore;
    StepOf(b, s, p, total, 0);
    if p == end {
      assert s + Starts(b, p, end) == s;
    } else {
      var t := s + [p];
      OneMore(b, s, p, total);
      StepOf(b, t, p + Length(b, p), total, 0);
      SamePrefix(b, s, t, |s|);
      InPlaceIs(b, t, |s|);
      FittingLength(b, t, |s|);
      AudioStep(b, t, |s|);
      forall k | 0 <= k < |t| ensures Fitting(b, t, k) {
        if k < |s| {
          SamePrefix(b, s, t, k);
        }
      }
      LaidIsFitting(b, t, p + Length(b, p), end, total);
      assert s + Starts(b, p, end) == t + Starts(b, p + Length(b, p), end);
    }
  }

  lemma ConfigurationIsWellFormed(b: Bytes, s: seq<nat>, end: nat)
    requires IsConfiguration(b, s, end)
    ensures WellFormed(b, end)
  {
    hide EndToEnd, Fitting, Laid;
    FittingIsLaid(b, s, end, TotalLength(b), 0);
    StepOf(b, s, end, TotalLength(b), 0);
    assert !InAudio(b, s, 0);
  }

  lemma WellFormedIsConfiguration(b: Bytes, end: nat)
    requires WellFormed(b, end)
    ensures end <= |b| && Tiled(b, 0, end) && IsConfiguration(b, Starts(b, 0, end), end)
  {
    hide Laid, Tiled, Starts, Fitting;
    LaidIsTiled(b, 0, end, TotalLength(b), 0, false);
    assert !InAudio(b, [], 0);
    LaidIsFitting(b, [], 0, end, TotalLength(b));
    assert [] + Starts(b, 0, end) == Starts(b, 0, end);
  }

  /** What the parser accepts is exactly this. */
  lemma AcceptedExactly(b: Bytes, end: nat)
    ensures WellFormed(b, end) <==> exists s :: IsConfiguration(b, s, end)
    ensures WellFormed(b, end) ==> end <= |b| && Tiled(b, 0, end) && IsConfiguration(b, Starts(b, 0, end), end)
  {
    hide *;
    if WellFormed(b, end) {
      WellFormedIsConfiguration(b, end);
    }
    if s :| IsConfiguration(b, s, end) {
      ConfigurationIsWellFormed(b, s, end);
    }
  }

  lemma AcceptedSomewhere(b: Bytes)
    ensures (exists end :: WellFormed(b, end)) <==> exists s, end :: IsConfiguration(b, s, end)
  {
    hide *;
    if end :| WellFormed(b, end) {
      AcceptedExactly(b, end);
    }
    if s, end :| IsConfiguration(b, s, end) {
      AcceptedExactly(b, end);
    }
  }

  const KEYBOARD: Bytes := [0x09, 0x02, 0x19, 0x00, 0x01, 0x01, 0x00, 0x80, 0x32,
                            0x09, 0x04, 0x00, 0x00, 0x01, 0x03, 0x01, 0x01, 0x00,
                            0x07, 0x05, 0x81, 0x03, 0x08, 0x00, 0x0A]

  /** An ordinary keyboard: configuration, interface, and an interrupt endpoint of 7 bytes. */
  lemma KeyboardIsAccepted()
    ensures IsConfiguration(KEYBOARD, [0, 9, 18], 25)
  {
    hide InAudio;
    var b, s: seq<nat> := KEYBOARD, [0, 9, 18];
    assert b[s[0]] == 9 && b[s[0] + 1] == 2;
    assert b[s[1]] == 9 && b[s[1] + 1] == 4;
    assert b[s[2]] == 7 && b[s[2] + 1] == 5;
  }

  /** A configuration comes first, and later only behind a descriptor of type 0. */
  lemma ConfigurationFirst(b: Bytes, s: seq<nat>, end: nat, i: nat)
    requires IsConfiguration(b, s, end) && i < |s|
    ensures s[i] + 1 < |b|
    ensures i == 0 ==> b[s[i] + 1] == 2
    ensures i > 0 ==> (b[s[i] + 1] == 2 ==> b[s[i - 1] + 1] == 0)
    ensures b[s[i] + 1] == 5 ==> i > 1
  {
    assert Fitting(b, s, i);
    if i == 1 {
      assert Fitting(b, s, 0);
    }
  }

  const TWO_CONFIGURATIONS: Bytes := [0x09, 0x02, 0x14, 0x00, 0x01, 0x01, 0x00, 0x80, 0x32,
                                      0x02, 0x00,
                                      0x09, 0x02, 0x14, 0x00, 0x01, 0x01, 0x00, 0x80, 0x32]

  /** A second configuration is accepted behind a descriptor of type 0, which the parser takes for the start. */
  lemma SecondConfiguration()
    ensures IsConfiguration(TWO_CONFIGURATIONS, [0, 9, 11], 20)
  {
    hide InAudio;
    var b, s: seq<nat> := TWO_CONFIGURATIONS, [0, 9, 11];
    assert b[s[0]] == 9 && b[s[0] + 1] == 2;
    assert b[s[1]] == 2 && b[s[1] + 1] == 0;
    assert b[s[2]] == 9 && b[s[2] + 1] == 2;
  }

  /** A search for `kind` ends at a descriptor of that type, and a search for an endpoint also at the next interface. */
  predicate Stops(kind: byte, t: byte) {
    t == kind || (kind == ENDPOINT && t == INTERFACE)
  }

  /** Where a search from `p` ends: the first descriptor at which it stops, or the end. */
  ghost function StopAt(b: Bytes, p: nat, end: nat, kind: byte): (q: nat)
    requires end <= |b| && Tiled(b, p, end)
    ensures p <= q <= end && Tiled(b, q, end)
    ensures q < end ==> HasHeader(b, q) && Stops(kind, Type(b, q))
    decreases end - p
  {
    if p == end || Stops(kind, Type(b, p)) then p else StopAt(b, p + Length(b, p), end, kind)
  }

  ghost predicate Hit(b: Bytes, q: nat, end: nat, kind: byte)
    requires end <= |b| && Tiled(b, q, end)
  {
    q < end && Type(b, q) == kind
  }

  /** Where the next search goes on. */
  ghost function Resume(b: Bytes, p: nat, end: nat, kind: byte): (r: nat)
    requires end <= |b| && Tiled(b, p, end)
    ensures p <= r <= end && Tiled(b, r, end)
  {
    var q := StopAt(b, p, end, kind);
    if Hit(b, q, end, kind) then q + Length(b, q) else q
  }

  /** None of the descriptors at `s` before position `q` is one at which the search stops. */
  ghost predicate PassedOver(b: Bytes, s: seq<nat>, q: nat, kind: byte) {
    forall i | 0 <= i < |s| && s[i] < q :: HasHeader(b, s[i]) && !Stops(kind, Type(b, s[i]))
  }

  /** The descriptors between `p` and where the search ends are of other types. */
  lemma {:induction false} SkipsOthers(b: Bytes, p: nat, end: nat, kind: byte)
    requires end <= |b| && Tiled(b, p, end)
    ensures var q := StopAt(b, p, end, kind);
            (q == end || q in Starts(b, p, end)) && PassedOver(b, Starts(b, p, end), q, kind)
    decreases end - p
  {
    var s, q := Starts(b, p, end), StopAt(b, p, end, kind);
    if p != end && !Stops(kind, Type(b, p)) {
      SkipsOthers(b, p + Length(b, p), end, kind);
      var rest := Starts(b, p + Length(b, p), end);
      assert s == [p] + rest && PassedOver(b, rest, q, kind);
      forall i | 0 <= i < |s| && s[i] < q ensures !Stops(kind, Type(b, s[i])) {
        assert s[i] == if i == 0 then p else rest[i - 1];
      }
    }
  }

  /** The positions among `s` whose descriptors have type `kind`. */
  ghost function OfType(b: Bytes, s: seq<nat>, kind: byte): seq<nat>
    requires forall i | 0 <= i < |s| :: HasHeader(b, s[i])
  {
    if s == [] then []
    else if Type(b, s[0]) == kind then [s[0]] + OfType(b, s[1..], kind) else OfType(b, s[1..], kind)
  }

  /** What repeated searches for `kind` return until the first that fails. */
  ghost function Repeated(b: Bytes, p: nat, end: nat, kind: byte): seq<nat>
    requires end <= |b| && Tiled(b, p, end)
    decreases end - p
  {
    var q := StopAt(b, p, end, kind);
    if Hit(b, q, end, kind) then [q] + Repeated(b, q + Length(b, q), end, kind) else []
  }

  /** Repeated searches for any type but the endpoint return every descriptor of that type once, in order. */
  lemma {:induction false} RepeatedFindsAll(b: Bytes, p: nat, end: nat, kind: byte)
    requires end <= |b| && Tiled(b, p, end) && kind != ENDPOINT
    ensures Repeated(b, p, end, kind) == OfType(b, Starts(b, p, end), kind)
    decreases end - p
  {
    if p != end {
      RepeatedFindsAll(b, p + Length(b, p), end, kind);
    }
  }

  /** The position of the next interface from `p` on, or the end. */
  ghost function NextInterface(b: Bytes, p: nat, end: nat): (q: nat)
    requires end <= |b| && Tiled(b, p, end)
    ensures p <= q <= end
  {
    StopAt(b, p, end, INTERFACE)
  }

  /** Starts up to the next interface. */
  ghost function OwnStarts(b: Bytes, p: nat, end: nat): (s: seq<nat>)
    requires end <= |b| && Tiled(b, p, end)
    ensures forall i | 0 <= i < |s| :: p <= s[i] < NextInterface(b, p, end) && HasHeader(b, s[i])
    decreases end - p
  {
    if p == end || Type(b, p) == INTERFACE then [] else [p] + OwnStarts(b, p + Length(b, p), end)
  }

  /** Repeated endpoint searches return the endpoints before the next interface, once each and in order. */
  lemma {:induction false} EndpointsOfInterface(b: Bytes, p: nat, end: nat)
    requires end <= |b| && Tiled(b, p, end)
    ensures Repeated(b, p, end, ENDPOINT) == OfType(b, OwnStarts(b, p, end), ENDPOINT)
    decreases end - p
  {
    if p != end && Type(b, p) != INTERFACE {
      EndpointsOfInterface(b, p + Length(b, p), end);
    }
  }

  /** `CUSBConfigurationParser`, with positions in the buffer for pointers. */
  class ConfigurationParser {
    const buffer: Bytes
    var valid: bool
    var endPosition: nat
    var nextPosition: nat
    var currentDescriptor: int
    var errorPosition: nat

    ghost predicate Ready()
      reads this
    {
      valid && WellFormed(buffer, endPosition) && nextPosition <= endPosition <= |buffer|
      && Tiled(buffer, nextPosition, endPosition)
    }

    /**
      * The validating constructor accepts exactly the buffers that hold a configuration, and then ends where its
      * descriptors do.
      */
    constructor (buffer: Bytes)
      ensures this.buffer == buffer && nextPosition == 0
      ensures valid <==> exists s, end :: IsConfiguration(buffer, s, end)
      ensures valid ==> Ready() && IsConfiguration(buffer, Starts(buffer, 0, endPosition), endPosition)
      ensures valid <==> exists end :: WellFormed(buffer, end)
    {
      this.buffer := buffer;
      valid, endPosition, nextPosition, currentDescriptor, errorPosition := false, |buffer|, 0, -1, 0;
      new;
      AcceptedSomewhere(buffer);
      if |buffer| < 4 || |buffer| > 1024 {
        return;
      }
      if buffer[0] as nat != CONFIGURATION_SIZE || buffer[1] != CONFIGURATION || TotalLength(buffer) > |buffer| {
        return;
      }
      if TotalLength(buffer) < |buffer| {
        endPosition := TotalLength(buffer);
      }
      Validate();
      AcceptedExactly(buffer, endPosition);
    }

    /** The loop of the constructor and what follows it. */
    method Validate()
      requires HeaderOk(buffer) && !valid && nextPosition == 0 && endPosition == TotalLength(buffer)
      modifies this
      ensures nextPosition == old(nextPosition)
      ensures valid <==> exists end :: WellFormed(buffer, end)
      ensures valid ==> Ready()
    {
      ghost var total := endPosition;
      var current := 0;
      var lastType: byte := 0;
      var audio := false;
      while current + 2 < endPosition
        invariant endPosition == total && current <= total && !valid && nextPosition == 0
        invariant forall end: nat | end <= total && IsEnd(buffer, end, total) ::
            Laid(buffer, 0, end, total, 0, false) <==> Laid(buffer, current, end, total, lastType, audio)
        decreases total - current
      {
        var descLen, descType := buffer[current] as nat, buffer[current + 1];
        if descLen == 0 {
          assert IsEnd(buffer, current, total) && Laid(buffer, current, current, total, lastType, audio);
          assert WellFormed(buffer, current);
          LaidIsTiled(buffer, 0, current, total, 0, false);
          endPosition := current;
          valid := true;
          return;
        }
        var descEnd := current + descLen;
        if descEnd > endPosition {
          errorPosition := current;
          return;
        }
        var expectedLen, alternateLen := 0, 0;
        ghost var audioBefore := audio;
        if descType == CONFIGURATION {
          if lastType != 0 {
            errorPosition := current;
            return;
          }
          expectedLen := CONFIGURATION_SIZE;
        } else if descType == INTERFACE {
          if lastType == 0 {
            errorPosition := current;
            return;
          }
          expectedLen := INTERFACE_SIZE;
          audio := Audio(buffer, current, audio);
        } else if descType == ENDPOINT {
          if lastType == 0 || lastType == CONFIGURATION {
            errorPosition := current;
            return;
          }
          expectedLen := ENDPOINT_SIZE;
          if audio {
            alternateLen := AUDIO_ENDPOINT_SIZE;
          }
        }
        if expectedLen != 0 && descLen != expectedLen && (alternateLen == 0 || descLen != alternateLen) {
          errorPosition := current;
          return;
        }
        assert InPlace(buffer, current, lastType, audioBefore) && audio == Audio(buffer, current, audioBefore);
        lastType := descType;
        current := descEnd;
      }
      if current != endPosition {
        errorPosition := current;
        return;
      }
      assert IsEnd(buffer, total, total) && WellFormed(buffer, total);
      LaidIsTiled(buffer, 0, total, total, 0, false);
      valid := true;
    }

    /** The walk: it stays inside the buffer, and its effect is that of `StopAt` and `Resume`. */
    method GetDescriptor(kind: byte) returns (result: int)
      requires Ready()
      modifies this`nextPosition, this`currentDescriptor, this`errorPosition
      ensures Ready() && nextPosition == Resume(buffer, old(nextPosition), endPosition, kind)
      ensures var q := StopAt(buffer, old(nextPosition), endPosition, kind);
              result == if Hit(buffer, q, endPosition, kind) then q else -1
      ensures currentDescriptor == result
      ensures errorPosition == if result >= 0 then result else old(errorPosition)
    {
      ghost var p := nextPosition;
      result := -1;
      while nextPosition < endPosition
        invariant Ready() && p <= nextPosition && result == -1 && errorPosition == old(errorPosition)
        invariant StopAt(buffer, nextPosition, endPosition, kind) == StopAt(buffer, p, endPosition, kind)
        decreases endPosition - nextPosition
      {
        var descLen, descType := buffer[nextPosition] as nat, buffer[nextPosition + 1];
        var descEnd := nextPosition + descLen;
        if kind == ENDPOINT && descType == INTERFACE {
          break;
        }
        if descType == kind {
          result := nextPosition;
          nextPosition := descEnd;
          break;
        }
        nextPosition := descEnd;
      }
      if result >= 0 {
        errorPosition := result;
      }
      currentDescriptor := result;
    }
  }
}
