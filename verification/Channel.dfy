/** The network between the two ends: frames in flight, and the fate the environment chooses
    for each of them. */
module Channel {
  import opened Wire
  import opened Window

  /** A transmission carries the absolute index k of its packet beside its bytes; the programs
      only ever see the bytes, whose sequence number is k mod 16. */
  datatype Transmission = Transmission(k: nat, frame: Bytes)

  /** What happens next to the transmission at position `pick` (modulo the number in flight).
      `socket` says whether the receiving host has an AF_XDP socket on the queue. */
  datatype Fate =
    | Lose(pick: nat)
    | Corrupt(pick: nat, garbage: Bytes)
    | Arrive(pick: nat, socket: bool)

  /** Detected corruption: the frame is unreadable, or its checksum is wrong while its sequence
      number survives, so that a NACK names the right slot. */
  predicate Detected(frame: Bytes, garbage: Bytes) {
    match Decode(garbage)
    case Unreadable => true
    case View(good, seqNum, _) => !good && (Decode(frame).View? ==> seqNum == Decode(frame).seqNum)
  }

  /** A good frame altered in one byte outside the length field is corrupted detectably if and only if
      the byte is the protocol, part of the checksum, or covered by it. */
  lemma AlteredIsDetected(f: Bytes, i: nat, v: bv8)
    requires ChecksumMatches(f) && i < |f| && v != f[i] && !(42 <= i < 50)
    ensures HDR_LEN < |f|
    ensures Detected(f, f[i := v]) <==> i == 23 || 50 <= i < 52 || 57 <= i < 57 + CoveredLen(f)
  {
    hide LittleEndian, XorAll, Checksum, CoveredLen;
    LongEnough(f);
    if i < COVERED_AT {
      HeaderByteDetection(f, i, v);
    } else {
      SingleByteDetection(f, i, v);
    }
    DecodeBytes(f);
    DecodeBytes(f[i := v]);
  }

  /** The position a fate picks among n transmissions in flight. */
  function Picked(f: Fate, n: nat): (p: nat)
    requires n > 0
    ensures p < n && (f.pick < n ==> p == f.pick)
  {
    if f.pick < n then f.pick else f.pick % n
  }

  /** A network step that disturbs Go-Back-N: anything but the arrival of the oldest frame in flight
      at a host with a socket. */
  predicate Disturbs(f: Fate) {
    f != Arrive(0, true)
  }

  /** A network step that keeps a frame from Selective Repeat: anything but an arrival at a host with
      a socket. */
  predicate Spoils(f: Fate) {
    !(f.Arrive? && f.socket)
  }

  /** A network step that brings a good frame to a host without a socket. */
  predicate Refuses(f: Fate) {
    f.Arrive? && !f.socket
  }

  /** How many of the first n network steps are of a kind. */
  ghost function Count(fate: nat -> Fate, kind: Fate -> bool, n: nat): (c: nat)
    ensures c <= n
  {
    if n == 0 then 0 else Count(fate, kind, n - 1) + if kind(fate(n - 1)) then 1 else 0
  }

  ghost function StepsOf(fate: nat -> Fate, kind: Fate -> bool, n: nat): set<nat> {
    set c: nat | c < n && kind(fate(c))
  }

  lemma StepsNext(fate: nat -> Fate, kind: Fate -> bool, n: nat)
    ensures StepsOf(fate, kind, 0) == {}
    ensures StepsOf(fate, kind, n + 1) == if kind(fate(n)) then StepsOf(fate, kind, n) + {n} else StepsOf(fate, kind, n)
    ensures n !in StepsOf(fate, kind, n)
  {
  }

  /** It is the size of the set of those steps. */
  lemma {:induction false} CountIsCardinality(fate: nat -> Fate, kind: Fate -> bool, n: nat)
    ensures Count(fate, kind, n) == |StepsOf(fate, kind, n)|
  {
    hide StepsOf;
    if n == 0 {
      StepsNext(fate, kind, 0);
    } else {
      CountIsCardinality(fate, kind, n - 1);
      StepsNext(fate, kind, n - 1);
    }
  }

  lemma {:induction false} CountSome(fate: nat -> Fate, kind: Fate -> bool, c: nat, n: nat)
    requires c < n && kind(fate(c))
    ensures Count(fate, kind, n) > 0
    decreases n
  {
    if c < n - 1 {
      CountSome(fate, kind, c, n - 1);
    }
  }

  lemma {:induction false} CountNone(fate: nat -> Fate, kind: Fate -> bool, n: nat)
    requires forall c :: !kind(fate(c))
    ensures Count(fate, kind, n) == 0
  {
    if n > 0 {
      CountNone(fate, kind, n - 1);
    }
  }

  function Without<T>(s: seq<T>, p: nat): (r: seq<T>)
    requires p < |s|
    ensures |r| == |s| - 1
    ensures forall i :: 0 <= i < |r| ==> r[i] == if i < p then s[i] else s[i + 1]
  {
    s[..p] + s[p + 1..]
  }

  /** First index of the run of sixteen packets that the last of m packets belongs to. */
  function Base(m: nat): (b: nat)
    ensures b % 16 == 0 && b <= m <= b + 16
    ensures 0 < m ==> b < m
  {
    if m == 0 then 0 else if (m - 1) % 16 == 0 then m - 1 else Base(m - 1)
  }

  lemma BaseStep(m: nat)
    ensures (m % 16 + 1) % 16 == (m + 1) % 16
    ensures m % 16 == 0 ==> Base(m + 1) == m
    ensures m % 16 != 0 ==> Base(m + 1) == Base(m) && m < Base(m) + 16 && m % 16 == m - Base(m)
  {
    var q := m / 16;
    assert m == 16 * q + m % 16;
    if m % 16 == 15 {
      assert m + 1 == 16 * (q + 1);
    } else {
      SlotOf(16 * q, m + 1);
    }
    if m % 16 != 0 {
      SlotOf(Base(m), m);
    }
  }

  lemma SlotOf(b: nat, k: nat)
    requires b % 16 == 0 && b <= k < b + 16
    ensures k % 16 == k - b
  {
    var q := b / 16;
    assert b == 16 * q;
    assert (16 * q + (k - b)) % 16 == k - b;
  }

  /** A flush follows every sixteenth packet and every short one. */
  ghost predicate FlushAfter(packets: seq<Bytes>, k: nat)
    requires 0 < k <= |packets|
  {
    k % WND_SIZE == 0 || |packets[k - 1]| < ON_WIRE_SIZE
  }

  /** Every flush among the first `taken` packets, but for the last one if it was not complete, came after
      at most n packets. */
  ghost predicate Flushed(packets: seq<Bytes>, taken: nat, complete: bool, n: nat) {
    taken <= |packets| && forall k :: 0 < k <= taken && FlushAfter(packets, k) && (k < taken || complete) ==> k <= n
  }

  lemma FlushedNone(packets: seq<Bytes>)
    ensures Flushed(packets, 0, true, 0)
  {
  }

  lemma FlushedNext(packets: seq<Bytes>, taken: nat, n: nat, complete: bool, m: nat)
    requires Flushed(packets, taken, true, n) && taken < |packets| && n <= m
    requires complete && FlushAfter(packets, taken + 1) ==> m == taken + 1
    ensures Flushed(packets, taken + 1, complete, m)
  {
  }

  lemma FlushedMore(packets: seq<Bytes>, taken: nat, complete: bool, n: nat, count: nat)
    requires Flushed(packets, taken, complete, n) && n <= count
    ensures Flushed(packets, taken, complete, count)
  {
  }

  lemma FlushAfterNext(packets: seq<Bytes>, taken: nat)
    requires taken < |packets|
    ensures FlushAfter(packets, taken + 1) <==> taken % WND_SIZE == WND_SIZE - 1 || |packets[taken]| < ON_WIRE_SIZE
  {
    BaseStep(taken);
    var r := taken % WND_SIZE;
    assert r < 15 ==> (r + 1) % 16 == r + 1;
  }

  lemma FlushAfterAll(packets: seq<Bytes>)
    ensures packets != [] ==> (FlushAfter(packets, |packets|) <==> |packets| % WND_SIZE == 0 || |packets[|packets| - 1]| < ON_WIRE_SIZE)
  {
  }

  /** The frames first transmitted, one per packet of the stream: the k-th carries payload
      stream[k] under sequence number k mod 16. */
  ghost predicate Transmitted(wire: seq<Bytes>, stream: seq<Bytes>) {
    |wire| == |stream| && forall k :: 0 <= k < |wire| ==> Decode(wire[k]) == View(true, k % 16, stream[k])
  }

  /** Every transmission in flight repeats the first transmission of its packet byte for byte,
      and no packet is in flight twice. */
  ghost predicate FlightOk(flight: seq<Transmission>, wire: seq<Bytes>) {
    && (forall t :: 0 <= t < |flight| ==> flight[t].k < |wire| && flight[t].frame == wire[flight[t].k])
    && (forall t, u :: 0 <= t < u < |flight| ==> flight[t].k != flight[u].k)
  }

  /** The transmissions of frames from slots, in order. */
  function Carried(base: nat, slots: seq<nat>, frames: seq<Bytes>): (f: seq<Transmission>)
    requires |slots| == |frames|
    ensures |f| == |slots| && forall t :: 0 <= t < |f| ==> f[t] == Transmission(base + slots[t], frames[t])
  {
    seq(|slots|, t requires 0 <= t < |slots| => Transmission(base + slots[t], frames[t]))
  }

  lemma CarriedJoin(base: nat, s: seq<nat>, f: seq<Bytes>, t: seq<nat>, g: seq<Bytes>)
    requires |s| == |f| && |t| == |g|
    ensures Carried(base, s + t, f + g) == Carried(base, s, f) + Carried(base, t, g)
  {
  }

  lemma FlightShrinks(flight: seq<Transmission>, wire: seq<Bytes>, p: nat)
    requires FlightOk(flight, wire) && p < |flight|
    ensures FlightOk(Without(flight, p), wire)
    ensures forall t :: 0 <= t < |flight| - 1 ==> Without(flight, p)[t] in flight && Without(flight, p)[t].k != flight[p].k
  {
  }

  lemma FlightFrame(flight: seq<Transmission>, wire: seq<Bytes>, stream: seq<Bytes>, p: nat)
    requires FlightOk(flight, wire) && Transmitted(wire, stream) && p < |flight|
    ensures var k := flight[p].k; k < |wire| == |stream| && flight[p].frame == wire[k] && Decode(wire[k]) == View(true, k % 16, stream[k])
  {
    hide Decode;
  }

  lemma FlightGrows(flight: seq<Transmission>, wire: seq<Bytes>, f: Bytes)
    requires FlightOk(flight, wire)
    ensures FlightOk(flight + [Transmission(|wire|, f)], wire + [f])
  {
  }

  lemma FlightRepeats(flight: seq<Transmission>, wire: seq<Bytes>, k: nat)
    requires FlightOk(flight, wire) && k < |wire|
    requires forall t :: 0 <= t < |flight| ==> flight[t].k < k
    ensures FlightOk(flight + [Transmission(k, wire[k])], wire)
  {
  }

  lemma TransmittedGrows(wire: seq<Bytes>, stream: seq<Bytes>, f: Bytes, payload: Bytes)
    requires Transmitted(wire, stream) && Decode(f) == View(true, |wire| % 16, payload)
    ensures Transmitted(wire + [f], stream + [payload])
  {
    hide Decode;
  }

  /** The slots of the current run of sixteen hold the frames of their packets. */
  ghost predicate SavedOk(lenWnd: seq<nat>, bufWnd: seq<Bytes>, wire: seq<Bytes>)
    requires |lenWnd| == |bufWnd| == WND_SIZE
  {
    var b := Base(|wire|);
    forall s :: 0 <= s < |wire| - b ==>
      lenWnd[s] == |wire[b + s]| <= ON_WIRE_SIZE == |bufWnd[s]| && Cut(bufWnd[s], lenWnd[s]) == wire[b + s]
  }

  lemma SavedGrows(len0: seq<nat>, buf0: seq<Bytes>, len: seq<nat>, buf: seq<Bytes>, wire: seq<Bytes>, f: Bytes)
    requires |len0| == |buf0| == |len| == |buf| == WND_SIZE
    requires SavedOk(len0, buf0, wire)
    requires forall j :: 0 <= j < WND_SIZE && j != |wire| % WND_SIZE ==> len[j] == len0[j] && buf[j] == buf0[j]
    requires var s := |wire| % WND_SIZE; len[s] == |f| <= ON_WIRE_SIZE == |buf[s]| && Cut(buf[s], len[s]) == f
    ensures SavedOk(len, buf, wire + [f])
  {
    BaseStep(|wire|);
  }
}
