/** Selective Repeat (XTFsPool/store/egress_sr_graft.c, ingress_sr_graft.c and the reassembly
    buffer of dbr/dbr.c). */
module SelectiveRepeat {
  import opened Finite
  import opened Wire
  import opened Window
  import opened Channel
  import opened Reassembly

  // ----- The rounds of a flush -----

  /** Slots seen acknowledged in one round; each is turned back to IDLE and counted. */
  ghost function AckSet(seen: seq<Event>): (s: set<nat>) {
    set i: nat | i < |seen| && seen[i] == RecvAck
  }

  /** Slots seen timed out in one round, in increasing order. */
  function TimedOut(seen: seq<Event>): (slots: seq<nat>)
    ensures |slots| <= |seen|
  {
    if seen == [] then []
    else
      var i := |seen| - 1;
      TimedOut(seen[..i]) + if seen[i] == Timeout then [i] else []
  }

  lemma {:induction false} TimedOutIsIncreasing(seen: seq<Event>)
    ensures forall i :: 0 <= i < |seen| ==> (seen[i] == Timeout <==> i in TimedOut(seen))
    ensures forall t :: 0 <= t < |TimedOut(seen)| ==> TimedOut(seen)[t] < |seen|
    ensures forall t, u :: 0 <= t < u < |TimedOut(seen)| ==> TimedOut(seen)[t] < TimedOut(seen)[u]
  {
    if seen != [] {
      TimedOutIsIncreasing(seen[..|seen| - 1]);
    }
  }

  lemma AckSetGrows(seen: seq<Event>, e: Event)
    ensures |AckSet(seen + [e])| == |AckSet(seen)| + if e == RecvAck then 1 else 0
  {
    if e == RecvAck {
      assert AckSet(seen + [e]) == AckSet(seen) + {|seen|};
    } else {
      assert AckSet(seen + [e]) == AckSet(seen);
    }
  }

  lemma {:induction false} AckCount(seen: seq<Event>)
    ensures |AckSet(seen)| == multiset(seen)[RecvAck]
  {
    if seen == [] {
      assert AckSet(seen) == {};
    } else {
      var front, e := seen[..|seen| - 1], seen[|seen| - 1];
      AckCount(front);
      AckSetGrows(front, e);
      assert seen == front + [e];
    }
  }

  /** The number of RECV_ACK-to-IDLE conversions over the rounds of a flush. */
  ghost function Conversions(log: seq<seq<Event>>): nat {
    if log == [] then 0 else Conversions(log[..|log| - 1]) + |AckSet(log[|log| - 1])|
  }

  /** The counter in terms of what was seen. */
  lemma ConversionsCount(log: seq<seq<Event>>, seen: seq<Event>)
    ensures Conversions([]) == 0 && Conversions(log + [seen]) == Conversions(log) + multiset(seen)[RecvAck]
  {
    hide AckSet;
    AckCount(seen);
    ConversionsNext(log, seen);
  }

  ghost function AckedIn(log: seq<seq<Event>>): set<nat> {
    if log == [] then {} else AckedIn(log[..|log| - 1]) + AckSet(log[|log| - 1])
  }

  /** No slot was seen acknowledged in two rounds. */
  ghost predicate AckedAtMostOnce(log: seq<seq<Event>>) {
    forall r :: 0 <= r < |log| ==> AckSet(log[r]) !! AckedIn(log[..r])
  }

  lemma {:induction false} ConversionsCountSlots(log: seq<seq<Event>>, last: nat)
    requires AckedAtMostOnce(log)
    requires forall r :: 0 <= r < |log| ==> |log[r]| == last + 1
    ensures Conversions(log) == |AckedIn(log)|
    ensures forall i :: i in AckedIn(log) ==> i <= last
  {
    if log != [] {
      var rest := log[..|log| - 1];
      assert forall r :: 0 <= r < |rest| ==> rest[..r] == log[..r];
      ConversionsCountSlots(rest, last);
    }
  }

  /** If no slot is acknowledged twice, a counter that reaches last + 1 has counted every slot. */
  lemma CounterReachedMeansAllAcked(log: seq<seq<Event>>, last: nat)
    requires AckedAtMostOnce(log)
    requires forall r :: 0 <= r < |log| ==> |log[r]| == last + 1
    requires Conversions(log) >= last + 1
    ensures forall i :: 0 <= i <= last ==> i in AckedIn(log)
  {
    ConversionsCountSlots(log, last);
    Bounded(AckedIn(log), last + 1);
  }

  /** The counter was too low before each round. */
  ghost predicate Early(log: seq<seq<Event>>, last: nat) {
    forall r :: 0 <= r < |log| ==> Conversions(log[..r]) < last + 1
  }

  lemma EarlyGrows(log: seq<seq<Event>>, last: nat, seen: seq<Event>)
    requires Early(log, last) && Conversions(log) < last + 1
    ensures Early(log + [seen], last)
  {
    hide Conversions;
    var more := log + [seen];
    forall r | 0 <= r < |more|
      ensures Conversions(more[..r]) < last + 1
    {
      assert more[..r] == if r < |log| then log[..r] else log;
    }
  }

  /** The rounds so far: what each resent, and the counter. */
  ghost predicate Rounds(log: seq<seq<Event>>, resent: seq<seq<nat>>, last: nat, acked: nat) {
    && |log| == |resent| <= RETX_MAX
    && (forall r :: 0 <= r < |log| ==> |log[r]| == last + 1 && resent[r] == TimedOut(log[r]))
    && Early(log, last) && acked == Conversions(log)
  }

  lemma RoundsGrow(log: seq<seq<Event>>, resent: seq<seq<nat>>, last: nat, acked: nat, seen: seq<Event>)
    requires Rounds(log, resent, last, acked) && |log| < RETX_MAX && acked < last + 1 && |seen| == last + 1
    ensures Rounds(log + [seen], resent + [TimedOut(seen)], last, acked + |AckSet(seen)|)
  {
    hide TimedOut, AckSet, Conversions, Early;
    ConversionsNext(log, seen);
    EarlyGrows(log, last, seen);
  }

  lemma ConversionsNext(log: seq<seq<Event>>, seen: seq<Event>)
    ensures Conversions(log + [seen]) == Conversions(log) + |AckSet(seen)|
  {
    assert (log + [seen])[..|log|] == log;
  }

  /** What each round resent, and how the flush ended: after the first round that brings the counter
      to the size of the window, or after RETX_MAX of them. */
  ghost predicate FlushLog(log: seq<seq<Event>>, resent: seq<seq<nat>>, last: nat, acked: nat, out: bool) {
    && Rounds(log, resent, last, acked)
    && (out <==> acked >= last + 1)
    && (!out ==> |log| == RETX_MAX)
  }

  lemma RoundsSized(log: seq<seq<Event>>, resent: seq<seq<nat>>, last: nat, acked: nat)
    requires Rounds(log, resent, last, acked)
    ensures acked == Conversions(log) && forall r :: 0 <= r < |log| ==> |log[r]| == last + 1
  {
  }

  // ----- What the scans see -----

  /** The slots and the tick at one time. */
  datatype Sight = Sight(ack: seq<Event>, tick: nat)

  /** What a visit leaves in a slot. */
  function Counted(e: Event): Event {
    if e == RecvAck then Idle else e
  }

  /** The listener runs once. */
  ghost function Waited(s: Sight, l: Listener): (u: Sight)
    ensures |u.ack| == |s.ack|
  {
    Sight(Showing(s.ack, l, s.tick, 1), s.tick + 1)
  }

  /** A visit to slot i. */
  ghost function Visited(s: Sight, l: Listener, i: nat): (u: Sight)
    requires i < |s.ack|
    ensures |u.ack| == |s.ack|
  {
    var now := Waited(s, l);
    now.(ack := now.ack[i := Counted(now.ack[i])])
  }

  /** Visits to the first n slots. */
  ghost function Swept(s: Sight, l: Listener, n: nat): (u: Sight)
    requires n <= |s.ack|
    ensures |u.ack| == |s.ack|
  {
    if n == 0 then s else Visited(Swept(s, l, n - 1), l, n - 1)
  }

  /** What the visits saw. */
  ghost function Seen(s: Sight, l: Listener, n: nat): (seen: seq<Event>)
    requires n <= |s.ack|
    ensures |seen| == n
  {
    if n == 0 then [] else Seen(s, l, n - 1) + [Waited(Swept(s, l, n - 1), l).ack[n - 1]]
  }

  /** The first n rounds, each a wait and a scan of slots 0..last. */
  ghost function AfterRounds(s: Sight, l: Listener, last: nat, n: nat): (u: Sight)
    requires last < |s.ack|
    ensures |u.ack| == |s.ack|
  {
    if n == 0 then s else Swept(Waited(AfterRounds(s, l, last, n - 1), l), l, last + 1)
  }

  /** What their scans saw. */
  ghost function Watched(s: Sight, l: Listener, last: nat, n: nat): (log: seq<seq<Event>>)
    requires last < |s.ack|
    ensures |log| == n
  {
    if n == 0 then [] else Watched(s, l, last, n - 1) + [Seen(Waited(AfterRounds(s, l, last, n - 1), l), l, last + 1)]
  }

  lemma {:induction false} WatchedPrefix(s: Sight, l: Listener, last: nat, m: nat, n: nat)
    requires last < |s.ack| && m <= n
    ensures Watched(s, l, last, n)[..m] == Watched(s, l, last, m)
  {
    hide Seen, Swept, Waited, AfterRounds;
    if m < n {
      WatchedPrefix(s, l, last, m, n - 1);
      assert Watched(s, l, last, n)[..m] == Watched(s, l, last, n - 1)[..m];
    }
  }

  lemma NoShorter(a: seq<seq<Event>>, b: seq<seq<Event>>, x: seq<seq<nat>>, y: seq<seq<nat>>, last: nat,
                  m: nat, n: nat, p: bool, q: bool, s: Sight, l: Listener)
    requires FlushLog(a, x, last, m, p) && FlushLog(b, y, last, n, q) && last < |s.ack|
    requires a == Watched(s, l, last, |a|) && b == Watched(s, l, last, |b|)
    ensures |a| >= |b|
  {
    hide Watched, Conversions, TimedOut;
    if |a| < |b| {
      WatchedPrefix(s, l, last, |a|, |b|);
    }
  }

  /** The slots at the start and what the listener hears determine the whole flush. */
  lemma FlushIsDetermined(a: seq<seq<Event>>, b: seq<seq<Event>>, x: seq<seq<nat>>, y: seq<seq<nat>>, last: nat,
                          m: nat, n: nat, p: bool, q: bool, s: Sight, l: Listener)
    requires FlushLog(a, x, last, m, p) && FlushLog(b, y, last, n, q) && last < |s.ack|
    requires a == Watched(s, l, last, |a|) && b == Watched(s, l, last, |b|)
    ensures a == b && x == y && m == n && p == q
  {
    hide Watched, Conversions, TimedOut;
    NoShorter(a, b, x, y, last, m, n, p, q, s, l);
    NoShorter(b, a, y, x, last, n, m, q, p, s, l);
    assert forall r :: 0 <= r < |x| ==> x[r] == TimedOut(a[r]) == y[r];
    assert x == y;
  }

  /** Where nothing is heard, a scan sees the slots as they were and leaves them counted. */
  lemma {:induction false} SweptSilence(s: Sight, l: Listener, n: nat)
    requires n <= |s.ack| && forall t :: l.script(t) == []
    ensures Scanned(s.ack, Swept(s, l, n).ack, Seen(s, l, n))
  {
    if n > 0 {
      SweptSilence(s, l, n - 1);
      var before := Swept(s, l, n - 1);
      ShowingSilence(before.ack, l, before.tick, 1);
    }
  }

  /** All slots resent, in order. */
  ghost function AllAgain(resent: seq<seq<nat>>): seq<nat> {
    if resent == [] then [] else AllAgain(resent[..|resent| - 1]) + resent[|resent| - 1]
  }

  lemma AgainNext(resent: seq<seq<nat>>, slots: seq<nat>)
    ensures AllAgain(resent + [slots]) == AllAgain(resent) + slots
  {
    assert (resent + [slots])[..|resent|] == resent;
  }

  // ----- Both ends and the network between them -----

  /** What the receiving program does with a frame. */
  datatype Verdict = Ignored | Redirected(seqNum: nat, payload: Bytes) | Nacked(seqNum: nat)

  method Ingress(frame: Bytes, socket: bool) returns (v: Verdict)
    ensures v == match Decode(frame)
                 case Unreadable => Ignored
                 case View(good, seqNum, payload) => if good && socket then Redirected(seqNum, payload) else Nacked(seqNum)
  {
    var sum := ComputeChecksum(frame);
    if sum.None? {
      return Ignored;
    }
    if FieldHolds(frame, sum.value) && socket {
      return Redirected(SeqNum(frame), Payload(frame));
    }
    return Nacked(SeqNum(frame));
  }

  ghost predicate Received(e: Event) {
    e == RecvAck || e == Idle
  }

  /** An environment that loses and reorders frames, and may make them unreadable, but never has one
      answered with a NACK: every host has a socket, and no frame gets a wrong checksum. */
  ghost predicate NeverRefuses(fate: nat -> Fate) {
    forall c :: match fate(c) case Lose(_) => true case Arrive(_, socket) => socket case Corrupt(_, garbage) => Decode(garbage).View? ==> Decode(garbage).good
  }

  /** A slot of the current run is acknowledged, counted or not, exactly when its packet has arrived. */
  ghost predicate EventsOk(ackWnd: seq<Event>, m: nat, arrived: set<nat>)
    requires |ackWnd| == WND_SIZE
  {
    forall s :: 0 <= s < m - Base(m) ==> (Received(ackWnd[s]) <==> Base(m) + s in arrived)
  }

  /** The transmissions added since `before` carry the given frames from the given slots, in order. */
  ghost predicate Sent(before: seq<Transmission>, after: seq<Transmission>, base: nat, slots: seq<nat>, frames: seq<Bytes>) {
    |frames| == |slots| && after == before + Carried(base, slots, frames)
  }

  /** What a scan that nothing interferes with saw, and left behind. */
  ghost predicate Scanned(before: seq<Event>, after: seq<Event>, seen: seq<Event>) {
    && |before| == |after| && |seen| <= |before|
    && (forall s :: 0 <= s < |seen| ==> seen[s] == before[s] && after[s] == if seen[s] == RecvAck then Idle else seen[s])
    && (forall s :: |seen| <= s < |before| ==> after[s] == before[s])
  }

  lemma ScanBegins(s: Sight, l: Listener, flight: seq<Transmission>, base: nat)
    ensures Scanning(s, l, [], [], s, 0) && Sent(flight, flight, base, [], [])
  {
    assert flight + Carried(base, [], []) == flight;
    assert AckSet([]) == {};
  }

  lemma TimedOutNext(seen: seq<Event>, event: Event)
    ensures event == Timeout ==> TimedOut(seen + [event]) == TimedOut(seen) + [|seen|]
    ensures event != Timeout ==> TimedOut(seen + [event]) == TimedOut(seen)
  {
    assert (seen + [event])[..|seen|] == seen;
  }

  lemma SentMore(before: seq<Transmission>, flight: seq<Transmission>, base: nat, slots: seq<nat>, frames: seq<Bytes>,
                 more: seq<nat>, copies: seq<Bytes>)
    requires Sent(before, flight, base, slots, frames) && |more| == |copies|
    ensures Sent(before, flight + Carried(base, more, copies), base, slots + more, frames + copies)
  {
    hide Carried;
    CarriedJoin(base, slots, frames, more, copies);
  }

  lemma SentOne(before: seq<Transmission>, flight: seq<Transmission>, base: nat, slots: seq<nat>, frames: seq<Bytes>, slot: nat, skb: Bytes)
    requires Sent(before, flight, base, slots, frames)
    ensures Sent(before, flight + [Transmission(base + slot, skb)], base, slots + [slot], frames + [skb])
  {
    assert Carried(base, [slot], [skb]) == [Transmission(base + slot, skb)];
    SentMore(before, flight, base, slots, frames, [slot], [skb]);
  }

  /** The scan has met the first |seen| slots: what it saw, resent and counted. */
  ghost predicate Scanning(s: Sight, l: Listener, seen: seq<Event>, resent: seq<nat>, now: Sight, gained: int) {
    && |seen| <= |s.ack| && seen == Seen(s, l, |seen|) && now == Swept(s, l, |seen|)
    && resent == TimedOut(seen) && gained == |AckSet(seen)|
  }

  lemma ScanningOne(s: Sight, l: Listener, seen: seq<Event>, resent: seq<nat>, now: Sight, gained: nat, event: Event)
    requires Scanning(s, l, seen, resent, now, gained) && |seen| < |s.ack| == |now.ack| && event == Waited(now, l).ack[|seen|]
    ensures Scanning(s, l, seen + [event], if event == Timeout then resent + [|seen|] else resent, Visited(now, l, |seen|),
                     gained + if event == RecvAck then 1 else 0)
  {
    hide TimedOut, AckSet, Waited;
    AckSetGrows(seen, event);
    TimedOutNext(seen, event);
  }

  /** A scan is over; in a quiet window nothing has interfered with it. */
  lemma ScanEnds(s: Sight, l: Listener, seen: seq<Event>, resent: seq<nat>, now: Sight, gained: int, quiet: bool)
    requires Scanning(s, l, seen, resent, now, gained) && (quiet ==> forall t :: l.script(t) == [])
    ensures resent == TimedOut(seen) && |resent| <= |seen| && gained == |AckSet(seen)|
    ensures quiet ==> Scanned(s.ack, now.ack, seen)
  {
    if quiet {
      SweptSilence(s, l, |seen|);
    }
  }

  lemma SentLength(before: seq<Transmission>, after: seq<Transmission>, base: nat, slots: seq<nat>, frames: seq<Bytes>)
    requires Sent(before, after, base, slots, frames)
    ensures |after| == |before| + |slots|
  {
  }

  /** The rounds saw what the slots showed, and after `more` further waits the slots and the tick are `now`. */
  ghost predicate Watching(s: Sight, l: Listener, last: nat, log: seq<seq<Event>>, more: nat, now: Sight) {
    && last < |s.ack| && log == Watched(s, l, last, |log|)
    && var u := AfterRounds(s, l, last, |log|); now == if more == 0 then u else Waited(u, l)
  }

  lemma WatchingWait(s: Sight, l: Listener, last: nat, log: seq<seq<Event>>, now: Sight)
    requires Watching(s, l, last, log, 0, now)
    ensures Watching(s, l, last, log, 1, Waited(now, l))
  {
  }

  lemma WatchingRound(s: Sight, l: Listener, last: nat, log: seq<seq<Event>>, before: Sight, seen: seq<Event>, resent: seq<nat>, now: Sight, gained: int)
    requires Watching(s, l, last, log, 1, before) && Scanning(before, l, seen, resent, now, gained) && |seen| == last + 1
    ensures Watching(s, l, last, log + [seen], 0, now)
  {
    hide Seen, Swept, TimedOut, AckSet;
    assert Watched(s, l, last, |log| + 1) == Watched(s, l, last, |log|) + [Seen(before, l, last + 1)];
  }

  lemma SentJoin(before: seq<Transmission>, flight: seq<Transmission>, after: seq<Transmission>, base: nat,
                 slots: seq<nat>, frames: seq<Bytes>, more: seq<nat>, copies: seq<Bytes>)
    requires Sent(before, flight, base, slots, frames) && Sent(flight, after, base, more, copies)
    ensures Sent(before, after, base, slots + more, frames + copies)
  {
    hide Carried;
    SentMore(before, flight, base, slots, frames, more, copies);
  }

  lemma FlushBegins(s: Sight, l: Listener, last: nat, flight: seq<Transmission>, base: nat)
    requires last < |s.ack|
    ensures Rounds([], [], last, 0) && Watching(s, l, last, [], 0, s) && Sent(flight, flight, base, AllAgain([]), [])
    ensures AllAgain([]) == [] && (|s.ack| == WND_SIZE ==> Counts([], s.ack, s.ack))
  {
    assert flight + Carried(base, [], []) == flight;
  }

  /** In a quiet window no slot is counted twice, the slots counted are IDLE, and so are those that
      were IDLE at the start, none of which is counted. */
  ghost predicate Counts(log: seq<seq<Event>>, start: seq<Event>, now: seq<Event>) {
    && |start| == |now| == WND_SIZE && AckedAtMostOnce(log)
    && (forall s :: s in AckedIn(log) ==> s < WND_SIZE && now[s] == Idle)
    && (forall s :: 0 <= s < WND_SIZE && start[s] == Idle ==> now[s] == Idle && s !in AckedIn(log))
  }

  lemma CountsStay(log: seq<seq<Event>>, start: seq<Event>, before: seq<Event>, after: seq<Event>)
    requires Counts(log, start, before) && |after| == WND_SIZE
    requires forall s :: 0 <= s < WND_SIZE && before[s] != Timeout ==> after[s] == before[s]
    ensures Counts(log, start, after)
  {
  }

  /** A round adds the slots it saw acknowledged to those counted. */
  lemma RoundRecorded(log: seq<seq<Event>>, seen: seq<Event>, start: seq<Event>, before: seq<Event>, after: seq<Event>)
    requires Scanned(before, after, seen) && Counts(log, start, before)
    ensures Counts(log + [seen], start, after)
  {
    var more := log + [seen];
    assert more[..|log|] == log;
    forall r | 0 <= r < |more|
      ensures AckSet(more[r]) !! AckedIn(more[..r])
    {
      assert r < |log| ==> more[..r] == log[..r];
    }
  }

  /** A slot that is IDLE from the start keeps the counter from ever reaching the window size. */
  lemma IdleIsNotCounted(log: seq<seq<Event>>, last: nat, start: seq<Event>, now: seq<Event>)
    requires Counts(log, start, now) && last < WND_SIZE && forall r :: 0 <= r < |log| ==> |log[r]| == last + 1
    ensures (exists s :: 0 <= s <= last && start[s] == Idle) ==> Conversions(log) < last + 1
  {
    hide AckedIn, Conversions, AckedAtMostOnce;
    ConversionsCountSlots(log, last);
    Bounded(AckedIn(log), last + 1);
  }

  lemma EventAcked(ackWnd: seq<Event>, m: nat, arrived: set<nat>, k: nat)
    requires |ackWnd| == WND_SIZE && EventsOk(ackWnd, m, arrived) && Base(m) <= k < m
    ensures EventsOk(ackWnd[k - Base(m) := RecvAck], m, arrived + {k})
  {
  }

  lemma EventNacked(ackWnd: seq<Event>, m: nat, arrived: set<nat>, k: nat)
    requires |ackWnd| == WND_SIZE && EventsOk(ackWnd, m, arrived) && Base(m) <= k < m && k !in arrived
    ensures EventsOk(ackWnd[k - Base(m) := RecvNack], m, arrived)
  {
  }

  lemma EventCounted(ackWnd: seq<Event>, m: nat, arrived: set<nat>, i: nat)
    requires |ackWnd| == WND_SIZE && EventsOk(ackWnd, m, arrived) && i < WND_SIZE && ackWnd[i] == RecvAck
    ensures EventsOk(ackWnd[i := Idle], m, arrived)
  {
  }

  /** Some slot of the current run has been refused. */
  ghost predicate Doomed(ackWnd: seq<Event>, m: nat)
    requires |ackWnd| == WND_SIZE
  {
    exists s :: 0 <= s < m - Base(m) && ackWnd[s] == RecvNack
  }

  /** The slots of the packets in flight are timed out. */
  ghost predicate Pending(flight: seq<Transmission>, ackWnd: seq<Event>, m: nat)
    requires |ackWnd| == WND_SIZE
  {
    forall t :: 0 <= t < |flight| ==> Base(m) <= flight[t].k < m && ackWnd[flight[t].k - Base(m)] == Timeout
  }

  lemma PendingShrinks(flight: seq<Transmission>, ackWnd: seq<Event>, m: nat, p: nat)
    requires |ackWnd| == WND_SIZE && Pending(flight, ackWnd, m) && p < |flight|
    ensures Pending(Without(flight, p), ackWnd, m)
    ensures Base(m) <= flight[p].k < m && flight[p].k - Base(m) < WND_SIZE && ackWnd[flight[p].k - Base(m)] == Timeout
  {
    hide Base;
    var rest := Without(flight, p);
    forall t | 0 <= t < |rest|
      ensures Base(m) <= rest[t].k < m && ackWnd[rest[t].k - Base(m)] == Timeout
    {
      assert rest[t] == flight[if t < p then t else t + 1];
    }
  }

  lemma PendingElsewhere(flight: seq<Transmission>, ackWnd: seq<Event>, m: nat, k: nat, e: Event)
    requires |ackWnd| == WND_SIZE && Pending(flight, ackWnd, m) && Base(m) <= k < m
    requires forall t :: 0 <= t < |flight| ==> flight[t].k != k
    ensures Pending(flight, ackWnd[k - Base(m) := e], m)
  {
  }

  lemma PendingGrows(flight: seq<Transmission>, ackWnd: seq<Event>, m: nat, f: Bytes)
    requires |ackWnd| == WND_SIZE && Pending(flight, ackWnd, m) && (m % WND_SIZE == 0 ==> flight == [])
    requires forall t :: 0 <= t < |flight| ==> flight[t].k < m
    ensures Pending(flight + [Transmission(m, f)], ackWnd[m % WND_SIZE := Timeout], m + 1)
  {
    BaseStep(m);
  }

  lemma DoomedStays(before: seq<Event>, after: seq<Event>, m: nat)
    requires |before| == |after| == WND_SIZE && Doomed(before, m)
    requires forall s :: 0 <= s < WND_SIZE && before[s] == RecvNack ==> after[s] == RecvNack
    ensures Doomed(after, m)
  {
    var s :| 0 <= s < m - Base(m) && before[s] == RecvNack;
    assert after[s] == RecvNack;
  }

  lemma DoomedGrows(ackWnd: seq<Event>, m: nat)
    requires |ackWnd| == WND_SIZE && Doomed(ackWnd, m) && m % WND_SIZE != 0
    ensures Doomed(ackWnd[m % WND_SIZE := Timeout], m + 1)
  {
    BaseStep(m);
    var s :| 0 <= s < m - Base(m) && ackWnd[s] == RecvNack;
    assert ackWnd[m % WND_SIZE := Timeout][s] == RecvNack;
  }

  /** Every slot acknowledged means every packet arrived, and so every packet delivered. */
  lemma AllReceived(ackWnd: seq<Event>, arrived: map<nat, Bytes>, m: nat, n: nat)
    requires |ackWnd| == WND_SIZE && EventsOk(ackWnd, m, arrived.Keys) && 0 < m && Base(m) <= n <= m
    requires LongestPrefix(arrived, n)
    ensures (forall s :: 0 <= s <= m - 1 - Base(m) ==> Received(ackWnd[s])) <==> n == m
  {
    if n < m {
      assert !Received(ackWnd[n - Base(m)]);
    }
  }

  /** When everything sent has been delivered the network is empty. */
  lemma NothingInFlight(flight: seq<Transmission>, wire: seq<Bytes>, arrived: map<nat, Bytes>)
    requires FlightOk(flight, wire) && LongestPrefix(arrived, |wire|)
    requires forall t :: 0 <= t < |flight| ==> flight[t].k !in arrived
    ensures flight == []
  {
    assert flight != [] ==> flight[0].k in arrived;
  }

  lemma EventsGrow(ackWnd: seq<Event>, m: nat, arrived: map<nat, Bytes>)
    requires |ackWnd| == WND_SIZE && EventsOk(ackWnd, m, arrived.Keys)
    requires forall k :: k in arrived ==> k < m
    ensures EventsOk(ackWnd[m % WND_SIZE := Timeout], m + 1, arrived.Keys)
  {
    BaseStep(m);
  }

  ghost predicate Aloft(flight: seq<Transmission>, k: nat) {
    exists t :: 0 <= t < |flight| && flight[t].k == k
  }

  /** Every packet of the current run has arrived or is in flight. */
  ghost predicate Covered(flight: seq<Transmission>, arrived: set<nat>, m: nat) {
    forall k :: Base(m) <= k < m ==> k in arrived || Aloft(flight, k)
  }

  lemma CoveredGrows(flight: seq<Transmission>, arrived: set<nat>, m: nat, f: Bytes)
    requires Covered(flight, arrived, m)
    ensures Covered(flight + [Transmission(m, f)], arrived, m + 1)
  {
    var more := flight + [Transmission(m, f)];
    BaseStep(m);
    assert more[|flight|].k == m;
    forall k | Base(m + 1) <= k < m && k !in arrived
      ensures Aloft(more, k)
    {
      var t :| 0 <= t < |flight| && flight[t].k == k;
      assert more[t].k == k;
    }
  }

  /** One more packet is sent. */
  lemma LaunchedRun(flight: seq<Transmission>, arrived: set<nat>, ack: seq<Event>, m: nat, f: Bytes)
    requires |ack| == WND_SIZE
    ensures Covered(flight, arrived, m) ==> Covered(flight + [Transmission(m, f)], arrived, m + 1)
    ensures Doomed(ack, m) && m % WND_SIZE != 0 ==> Doomed(ack[m % WND_SIZE := Timeout], m + 1)
  {
    hide Covered, Doomed;
    if Covered(flight, arrived, m) {
      CoveredGrows(flight, arrived, m, f);
    }
    if Doomed(ack, m) && m % WND_SIZE != 0 {
      DoomedGrows(ack, m);
    }
  }

  lemma CoveredMore(flight: seq<Transmission>, t: Transmission, arrived: set<nat>, m: nat)
    requires Covered(flight, arrived, m)
    ensures Covered(flight + [t], arrived, m)
  {
    forall k | Base(m) <= k < m && k !in arrived
      ensures Aloft(flight + [t], k)
    {
      var u :| 0 <= u < |flight| && flight[u].k == k;
      assert (flight + [t])[u].k == k;
    }
  }

  /** A scan that resends every slot it sees timed out covers the run, if the others have arrived. */
  lemma CoveredAgain(flight: seq<Transmission>, seen: seq<Event>, frames: seq<Bytes>, arrived: set<nat>, m: nat)
    requires 0 < m && |seen| == m - Base(m) && Sent([], flight, Base(m), TimedOut(seen), frames)
    requires forall s :: 0 <= s < |seen| && seen[s] != Timeout ==> Base(m) + s in arrived
    ensures Covered(flight, arrived, m)
  {
    TimedOutIsIncreasing(seen);
    hide TimedOut, Base;
    forall k | Base(m) <= k < m && k !in arrived
      ensures Aloft(flight, k)
    {
      assert seen[k - Base(m)] == Timeout;
      var t :| 0 <= t < |TimedOut(seen)| && TimedOut(seen)[t] == k - Base(m);
      assert flight[0 + t].k == k;
    }
  }

  /** A transmission that arrives leaves the run covered. */
  lemma CoveredStep(flight: seq<Transmission>, p: nat, arrived: set<nat>, more: set<nat>, m: nat)
    requires Covered(flight, arrived, m) && p < |flight| && arrived <= more && flight[p].k in more
    ensures Covered(Without(flight, p), more, m)
  {
    var rest := Without(flight, p);
    forall k | Base(m) <= k < m && k !in more
      ensures Aloft(rest, k)
    {
      var t :| 0 <= t < |flight| && flight[t].k == k;
      assert rest[if t < p then t else t - 1].k == k;
    }
  }

  /** With nothing in flight, a run that is covered has arrived. */
  lemma CoveredAndIdle(arrived: map<nat, Bytes>, m: nat, n: nat)
    requires Covered([], arrived.Keys, m) && LongestPrefix(arrived, n) && Base(m) <= n <= m
    ensures n == m
  {
  }

  // ----- What window, network and receiver agree on -----

  /** The two ends at one time: the frames first transmitted, the payloads handed over, what is in
      flight, the length of the stream at the last flush, the packets delivered and arrived, and the
      maps of the sender. */
  datatype State = State(wire: seq<Bytes>, stream: seq<Bytes>, flight: seq<Transmission>, mark: nat, n: nat,
                         arrived: map<nat, Bytes>, ack: seq<Event>, len: seq<nat>, buf: seq<Bytes>)

  /** `unrefused` says that no frame is ever answered with a NACK. */
  ghost predicate Agreed(s: State, unrefused: bool) {
    var m := |s.wire|;
    && |s.ack| == |s.len| == |s.buf| == WND_SIZE
    && |s.stream| == m && Transmitted(s.wire, s.stream)
    && LongestPrefix(s.arrived, s.n) && (forall k :: k in s.arrived ==> k < m && s.arrived[k] == s.stream[k])
    && Base(m) <= s.n <= m && s.mark <= s.n
    && FlightOk(s.flight, s.wire) && (forall t :: 0 <= t < |s.flight| ==> s.flight[t].k !in s.arrived)
    && EventsOk(s.ack, m, s.arrived.Keys) && Pending(s.flight, s.ack, m)
    && SavedOk(s.len, s.buf, s.wire)
    && (unrefused ==> RecvNack !in s.ack)
    && (forall k :: s.mark <= k < m - 1 ==> |s.wire[k]| == ON_WIRE_SIZE)
  }

  lemma Sizes(s: State, unrefused: bool)
    requires Agreed(s, unrefused)
    ensures |s.ack| == |s.len| == |s.buf| == WND_SIZE && |s.stream| == |s.wire| && Base(|s.wire|) <= s.n <= |s.wire|
    ensures LongestPrefix(s.arrived, s.n) && EventsOk(s.ack, |s.wire|, s.arrived.Keys)
    ensures unrefused ==> RecvNack !in s.ack
    ensures forall k :: k in s.arrived ==> k < |s.stream| && s.arrived[k] == s.stream[k]
  {
  }

  /** Packet k has just left the flight. */
  ghost predicate Landing(s: State, k: nat) {
    && Base(|s.wire|) <= k < |s.wire| && k < |s.stream| && k !in s.arrived && k % WND_SIZE == k - Base(|s.wire|) < |s.ack|
    && s.ack[k - Base(|s.wire|)] == Timeout && Decode(s.wire[k]) == View(true, k % WND_SIZE, s.stream[k])
    && (forall t :: 0 <= t < |s.flight| ==> s.flight[t].k != k)
  }

  lemma Landed(s: State, unrefused: bool, p: nat)
    requires Agreed(s, unrefused) && p < |s.flight|
    ensures var u := s.(flight := Without(s.flight, p));
            Agreed(u, unrefused) && Landing(u, s.flight[p].k) && s.flight[p].frame == s.wire[s.flight[p].k]
  {
    hide Decode, SavedOk, EventsOk, LongestPrefix, Base, FlightOk, Pending, Transmitted, Without;
    var k := s.flight[p].k;
    FlightShrinks(s.flight, s.wire, p);
    PendingShrinks(s.flight, s.ack, |s.wire|, p);
    FlightFrame(s.flight, s.wire, s.stream, p);
    SlotOf(Base(|s.wire|), k);
  }

  lemma AckedState(s: State, unrefused: bool, k: nat, n: nat)
    requires Agreed(s, unrefused) && Landing(s, k) && s.n <= n && LongestPrefix(s.arrived[k := s.stream[k]], n)
    ensures Agreed(s.(arrived := s.arrived[k := s.stream[k]], n := n, ack := s.ack[k - Base(|s.wire|) := RecvAck]), unrefused)
  {
    hide Decode, FlightOk, SavedOk, EventsOk, Pending, Transmitted, Base;
    var arrived := s.arrived[k := s.stream[k]];
    EventAcked(s.ack, |s.wire|, s.arrived.Keys, k);
    PendingElsewhere(s.flight, s.ack, |s.wire|, k, RecvAck);
    assert arrived.Keys == s.arrived.Keys + {k};
    assert n > 0 ==> n - 1 in arrived;
  }

  lemma NackedState(s: State, k: nat)
    requires Agreed(s, false) && Landing(s, k)
    ensures var u := s.(ack := s.ack[k - Base(|s.wire|) := RecvNack]); Agreed(u, false) && Doomed(u.ack, |s.wire|)
  {
    hide Decode, FlightOk, SavedOk, EventsOk, Pending, Transmitted, Base, LongestPrefix;
    EventNacked(s.ack, |s.wire|, s.arrived.Keys, k);
    PendingElsewhere(s.flight, s.ack, |s.wire|, k, RecvNack);
    assert s.ack[k - Base(|s.wire|) := RecvNack][k - Base(|s.wire|)] == RecvNack;
  }

  lemma CountedState(s: State, unrefused: bool, i: nat)
    requires Agreed(s, unrefused) && i < WND_SIZE && s.ack[i] == RecvAck
    ensures Agreed(s.(ack := s.ack[i := Idle]), unrefused)
  {
    hide Decode, FlightOk, SavedOk, EventsOk, Transmitted, Base, LongestPrefix;
    EventCounted(s.ack, |s.wire|, s.arrived.Keys, i);
  }

  lemma MarkedState(s: State, unrefused: bool)
    requires Agreed(s, unrefused) && s.n == |s.wire|
    ensures Agreed(s.(mark := |s.wire|), unrefused)
  {
    hide Decode, FlightOk, SavedOk, EventsOk, Pending, Transmitted, Base, LongestPrefix;
  }

  /** A slot still timed out belongs to the part of the run not yet delivered, so that only the last
      one can be short. */
  lemma TimedOutSlot(s: State, unrefused: bool, i: nat)
    requires Agreed(s, unrefused) && i < |s.wire| - Base(|s.wire|) && i < WND_SIZE && s.ack[i] == Timeout
    ensures Base(|s.wire|) + i !in s.arrived
    ensures i < |s.wire| - 1 - Base(|s.wire|) ==> s.len[i] == ON_WIRE_SIZE == |s.buf[i]|
    ensures Cut(s.buf[i], s.len[i]) == s.wire[Base(|s.wire|) + i]
  {
    hide Decode, FlightOk, Pending, Transmitted, Base;
    assert !Received(s.ack[i]);
  }

  lemma ResentState(s: State, unrefused: bool, i: nat)
    requires Agreed(s, unrefused) && i < |s.wire| - Base(|s.wire|) && i < WND_SIZE && s.ack[i] == Timeout
    requires forall t :: 0 <= t < |s.flight| ==> s.flight[t].k < Base(|s.wire|) + i
    ensures Agreed(s.(flight := s.flight + [Transmission(Base(|s.wire|) + i, s.wire[Base(|s.wire|) + i])]), unrefused)
  {
    hide Decode, FlightOk, EventsOk, SavedOk, Transmitted, Base, LongestPrefix;
    TimedOutSlot(s, unrefused, i);
    FlightRepeats(s.flight, s.wire, Base(|s.wire|) + i);
  }

  /** If nothing is refused, a slot that is not timed out belongs to a packet that has arrived. */
  lemma SlotArrived(s: State, i: nat)
    requires Agreed(s, true) && i < |s.wire| - Base(|s.wire|) && i < WND_SIZE && s.ack[i] != Timeout
    ensures Base(|s.wire|) + i in s.arrived
  {
    hide Decode, FlightOk, Transmitted, SavedOk, Pending, Base;
    assert Received(s.ack[i]);
  }

  lemma LaunchedState(s: State, unrefused: bool, frame: Bytes, payload: Bytes, len: seq<nat>, buf: seq<Bytes>)
    requires Agreed(s, unrefused) && (|s.wire| % WND_SIZE == 0 ==> s.n == |s.wire|) && |len| == |buf| == WND_SIZE
    requires Decode(frame) == View(true, |s.wire| % WND_SIZE, payload)
    requires forall k :: s.mark <= k < |s.wire| ==> |s.wire[k]| == ON_WIRE_SIZE
    requires forall j :: 0 <= j < WND_SIZE && j != |s.wire| % WND_SIZE ==> len[j] == s.len[j] && buf[j] == s.buf[j]
    requires var i := |s.wire| % WND_SIZE; len[i] == |frame| <= ON_WIRE_SIZE == |buf[i]| && Cut(buf[i], len[i]) == frame
    ensures Agreed(State(s.wire + [frame], s.stream + [payload], s.flight + [Transmission(|s.wire|, frame)], s.mark, s.n,
                         s.arrived, s.ack[|s.wire| % WND_SIZE := Timeout], len, buf), unrefused)
    ensures |s.wire| % WND_SIZE == 0 ==> s.flight == [] && !Doomed(s.ack, |s.wire|)
  {
    hide Decode, FlightOk, SavedOk, EventsOk, Pending, Transmitted, Base, Cut;
    var m := |s.wire|;
    BaseStep(m);
    EventsGrow(s.ack, m, s.arrived);
    SavedGrows(s.len, s.buf, len, buf, s.wire, frame);
    TransmittedGrows(s.wire, s.stream, frame, payload);
    FlightGrows(s.flight, s.wire, frame);
    FlightBelow(s.flight, s.wire);
    if s.n == m {
      NothingInFlight(s.flight, s.wire, s.arrived);
      NotDoomed(s, unrefused);
    }
    PendingGrows(s.flight, s.ack, m, frame);
  }

  lemma FlightBelow(flight: seq<Transmission>, wire: seq<Bytes>)
    requires FlightOk(flight, wire)
    ensures forall t :: 0 <= t < |flight| ==> flight[t].k < |wire|
  {
  }

  lemma NotDoomed(s: State, unrefused: bool)
    requires Agreed(s, unrefused) && s.n == |s.wire|
    ensures !Doomed(s.ack, |s.wire|)
  {
    hide Decode, FlightOk, SavedOk, Pending, Transmitted, Base;
    forall i | 0 <= i < |s.wire| - Base(|s.wire|)
      ensures s.ack[i] != RecvNack
    {
      assert Received(s.ack[i]);
    }
  }

  class Link {
    const w: SendWindow
    const r: Reassembler
    const fate: nat -> Fate    // the environment's choices, one per network step
    const lull: nat -> nat     // how many network steps fit before the next packet is sent
    var clock: nat
    var flight: seq<Transmission>
    var wire: seq<Bytes>          // the frames first transmitted
    ghost var stream: seq<Bytes>  // the payloads handed to the sender
    ghost var mark: nat           // length of the stream at the last flush
    ghost var settled: nat        // frames spoilt before everything missing was last in flight

    /** The frames the network has spoilt so far. */
    ghost function Spoilt(): nat
      reads this`clock
    {
      Count(fate, Spoils, clock)
    }

    /** The good frames the network has brought to a host without a socket so far. */
    ghost function Refusals(): nat
      reads this`clock
    {
      Count(fate, Refuses, clock)
    }

    ghost function View(): State
      reads this`flight, this`wire, this`stream, this`mark, w, r
    {
      State(wire, stream, flight, mark, r.cntPkts, r.arrived, w.ackWnd, w.lenWnd, w.bufWnd)
    }

    ghost function Sighted(): Sight
      reads w`ackWnd, w`tick
    {
      Sight(w.ackWnd, w.tick)
    }

    ghost predicate Core()
      reads this`flight, this`wire, this`stream, this`mark, w, r, r.buff, r.stored
    {
      && w.Valid() && w.initial == Timeout && w.onNack == RecvNack && r.Valid() && w.numSeq == |wire| % WND_SIZE
      && Agreed(View(), NeverRefuses(fate))
    }

    /** Window, network and receiver agree; if no frame is refused, only a spoilt frame can have kept a
        packet from being in flight or arrived; if one has been, it still is. */
    ghost predicate Inv()
      reads this, w, r, r.buff, r.stored
    {
      && Core() && settled <= Spoilt()
      && (NeverRefuses(fate) && Spoilt() == settled ==> Covered(flight, r.arrived.Keys, |wire|))
      && (Refusals() > 0 ==> Doomed(w.ackWnd, |wire|))
    }

    /** Between two calls of the egress program every packet since the last flush was full-sized,
        and a completed run of sixteen has been delivered in full. */
    ghost predicate Ready()
      reads this, w, r, r.buff, r.stored
    {
      && Inv()
      && (forall k :: mark <= k < |wire| ==> |wire[k]| == ON_WIRE_SIZE)
      && (|wire| % WND_SIZE == 0 ==> r.cntPkts == |wire|)
    }

    constructor (truncates: bool, quiet: bool, script: nat -> seq<Feedback>, fate: nat -> Fate, lull: nat -> nat)
      ensures Ready() && mark == 0 && r.cntPkts == 0 && flight == [] && wire == [] && stream == []
      ensures fresh(w) && fresh(r) && fresh(r.buff) && fresh(r.stored)
      ensures w.quiet == quiet && this.fate == fate && clock == settled == 0
    {
      w := new SendWindow(Timeout, RecvNack, truncates, quiet, script);
      r := new Reassembler();
      this.fate, this.lull, clock := fate, lull, 0;
      flight, wire, stream, mark, settled := [], [], [], 0, 0;
    }

    /** The network changes no slot but those timed out. */
    twostate predicate Keeps()
      reads w
    {
      forall s :: 0 <= s < old(|w.ackWnd|) && old(w.ackWnd)[s] != Timeout ==> s < |w.ackWnd| && w.ackWnd[s] == old(w.ackWnd)[s]
    }

    /** A good frame goes to the reassembly buffer and is acknowledged. */
    method Accept(ghost k: nat, seqNum: nat, payload: Bytes)
      requires Core() && Landing(View(), k) && seqNum == k % WND_SIZE && payload == stream[k]
      modifies w`ackWnd, r, r.buff, r.stored
      ensures Core() && old(r.cntPkts) <= r.cntPkts && r.arrived.Keys == old(r.arrived.Keys) + {k} && Keeps()
    {
      hide Agreed, Base, Decode, Reassembler.Valid, IndexOf, LengthOf, LongestPrefix;
      ghost var s := View();
      Sizes(s, NeverRefuses(fate));
      IndexOfResidue(r.cntPkts, k);
      var ok := r.Process(seqNum, payload, true);
      r.Prefix();
      AckedState(s, NeverRefuses(fate), k, r.cntPkts);
      w.Listen(Feedback(seqNum, false));
    }

    /** A frame reaches the receiving host; a readable one that is not accepted is answered with a NACK. */
    method Deliver(ghost k: nat, arrived: Bytes, socket: bool)
      requires Core() && Landing(View(), k)
      requires arrived == wire[k] || Detected(wire[k], arrived)
      requires NeverRefuses(fate) ==> (arrived == wire[k] && socket) || Decode(arrived).Unreadable?
      modifies w`ackWnd, r, r.buff, r.stored
      ensures Core() && old(r.cntPkts) <= r.cntPkts && old(r.arrived.Keys) <= r.arrived.Keys && Keeps()
      ensures arrived == wire[k] && socket ==> k in r.arrived
      ensures arrived == wire[k] && !socket ==> Doomed(w.ackWnd, |wire|)
    {
      hide Agreed, Base, Decode, Reassembler.Valid, Doomed, NeverRefuses;
      var verdict := Ingress(arrived, socket);
      match verdict {
        case Ignored =>
        case Nacked(seqNum) =>
          NackedState(View(), k);
          w.Listen(Feedback(seqNum, true));
        case Redirected(seqNum, payload) =>
          Accept(k, seqNum, payload);
      }
    }

    /** One frame in flight meets its fate. */
    method Meet(f: Fate)
      requires Core() && flight != []
      requires NeverRefuses(fate) ==> f.Lose? || !Spoils(f) || (f.Corrupt? && (Decode(f.garbage).View? ==> Decode(f.garbage).good))
      modifies this`flight, w`ackWnd, r, r.buff, r.stored
      ensures Core() && flight == Without(old(flight), Picked(f, old(|flight|)))
      ensures old(r.cntPkts) <= r.cntPkts && old(r.arrived.Keys) <= r.arrived.Keys && Keeps()
      ensures !Spoils(f) ==> old(flight)[Picked(f, old(|flight|))].k in r.arrived
      ensures Refuses(f) ==> Doomed(w.ackWnd, |wire|)
    {
      hide Agreed, Base, Decode, Reassembler.Valid, Doomed, NeverRefuses, Picked, Without, Landing;
      var p := Picked(f, |flight|);
      var x := flight[p];
      Landed(View(), NeverRefuses(fate), p);
      flight := Without(flight, p);
      match f {
        case Lose(_) =>
        case Corrupt(_, garbage) =>
          if Detected(x.frame, garbage) {
            Deliver(x.k, garbage, true);
          }
        case Arrive(_, socket) =>
          Deliver(x.k, x.frame, socket);
      }
    }

    /** One network step. */
    method NetworkStep()
      requires Inv() && flight != []
      modifies this`clock, this`flight, w`ackWnd, r, r.buff, r.stored
      ensures Inv() && Keeps()
      ensures |flight| == old(|flight|) - 1 && clock == old(clock) + 1 && old(r.cntPkts) <= r.cntPkts
    {
      hide Agreed, Covered, Picked, Doomed, Decode, Reassembler.Valid;
      ghost var before, arrived, acks, f := flight, r.arrived.Keys, w.ackWnd, fate(clock);
      Meet(fate(clock));
      clock := clock + 1;
      if NeverRefuses(fate) && !Spoils(f) && Covered(before, arrived, |wire|) {
        CoveredStep(before, Picked(f, |before|), arrived, r.arrived.Keys, |wire|);
      }
      if Doomed(acks, |wire|) {
        DoomedStays(acks, w.ackWnd, |wire|);
      }
    }

    /** Up to `steps` network steps. */
    method Network(steps: nat)
      requires Inv()
      modifies this`clock, this`flight, w`ackWnd, r, r.buff, r.stored
      ensures Inv() && Keeps()
      ensures old(r.cntPkts) <= r.cntPkts
      ensures old(|flight|) <= steps ==> flight == []
      ensures clock + |flight| == old(clock + |flight|)
    {
      hide Inv;
      var i := 0;
      while i < steps && flight != []
        invariant i <= steps && Inv() && Keeps()
        invariant old(r.cntPkts) <= r.cntPkts && |flight| == old(|flight|) - i && clock == old(clock) + i
      {
        NetworkStep();
        i := i + 1;
      }
    }

    /** The flush is for the run of sixteen that the last packet belongs to. */
    ghost predicate Flushing(skb: Bytes, last: nat, lastLen: nat)
      reads this, w, r, r.buff, r.stored
    {
      && Inv() && 0 < |wire| && last == |wire| - 1 - Base(|wire|) && last < WND_SIZE
      && lastLen == w.lenWnd[last] && Reloadable(skb, w.bufWnd[last], w.lenWnd[last])
    }

    /** The ten-millisecond wait. In a quiet window it is long enough for every frame in flight to
        meet its fate; otherwise anything may be recorded meanwhile. */
    method Wait(ghost skb: Bytes, ghost last: nat, ghost lastLen: nat)
      requires w.Valid() && (w.quiet ==> Flushing(skb, last, lastLen))
      modifies this`clock, this`flight, w`ackWnd, w`tick, r, r.buff, r.stored
      ensures w.Valid()
      ensures w.quiet ==> Flushing(skb, last, lastLen) && flight == [] && old(r.cntPkts) <= r.cntPkts && Keeps()
      ensures !w.quiet ==> Sighted() == Waited(old(Sighted()), w.Ears()) && flight == old(flight)
      ensures clock + |flight| == old(clock + |flight|)
    {
      hide Reloadable, Agreed, Reassembler.Valid, Spoilt, Refusals, Covered, Doomed, NeverRefuses;
      if w.quiet {
        Network(|flight|);
      } else {
        w.Interfere();
      }
    }

    /** Resend one slot. */
    method Again(i: nat, last: nat, skb0: Bytes, lastLen: nat) returns (skb: Bytes)
      requires w.Valid() && i <= last < WND_SIZE
      requires w.quiet ==> Flushing(skb0, last, lastLen) && w.ackWnd[i] == Timeout
      requires w.quiet ==> forall t :: 0 <= t < |flight| ==> flight[t].k < Base(|wire|) + i
      modifies this`flight
      ensures flight == old(flight) + [Transmission(Base(|wire|) + i, skb)]
      ensures w.Faithful(skb0, last, lastLen) ==> w.Faithful(skb, last, lastLen) && skb == w.Saved(i)
      ensures w.quiet ==> Flushing(skb, last, lastLen)
    {
      hide Agreed, Reassembler.Valid, Base, Spoilt, Refusals, Covered, Doomed, NeverRefuses;
      if w.quiet {
        TimedOutSlot(View(), NeverRefuses(fate), i);
        ResentState(View(), NeverRefuses(fate), i);
      }
      skb := w.Reload(i, skb0, lastLen, last);
      if Covered(flight, r.arrived.Keys, |wire|) {
        CoveredMore(flight, Transmission(Base(|wire|) + i, skb), r.arrived.Keys, |wire|);
      }
      flight := flight + [Transmission(Base(|wire|) + i, skb)];
    }

    /** Count one slot. */
    method Tick(i: nat, ghost last: nat, ghost skb: Bytes, ghost lastLen: nat)
      requires w.Valid() && i <= last < WND_SIZE && w.ackWnd[i] == RecvAck
      requires w.quiet ==> Flushing(skb, last, lastLen)
      modifies w`ackWnd
      ensures w.Valid() && w.ackWnd == old(w.ackWnd)[i := Idle]
      ensures w.quiet ==> Flushing(skb, last, lastLen)
    {
      hide Agreed, Reassembler.Valid, Base, Spoilt, Refusals, Covered, Doomed, NeverRefuses, Reloadable;
      if w.quiet {
        CountedState(View(), NeverRefuses(fate), i);
        if Doomed(w.ackWnd, |wire|) {
          DoomedStays(w.ackWnd, w.ackWnd[i := Idle], |wire|);
        }
      }
      w.ackWnd := w.ackWnd[i := Idle];
    }

    /** The scan meets one slot. */
    method Visit(i: nat, last: nat, skb0: Bytes, lastLen: nat, acked0: nat)
        returns (skb: Bytes, event: Event, acked: nat)
      requires w.Valid() && i <= last < WND_SIZE
      requires w.quiet ==> Flushing(skb0, last, lastLen) && forall t :: 0 <= t < |flight| ==> flight[t].k < Base(|wire|) + i
      modifies this`flight, w`ackWnd, w`tick
      ensures w.Valid()
      ensures acked == acked0 + if event == RecvAck then 1 else 0
      ensures event == Waited(old(Sighted()), w.Ears()).ack[i] && Sighted() == Visited(old(Sighted()), w.Ears(), i)
      ensures if event == Timeout then flight == old(flight) + [Transmission(Base(|wire|) + i, skb)] else flight == old(flight)
      ensures w.Faithful(skb0, last, lastLen) ==> w.Faithful(skb, last, lastLen) && (event == Timeout ==> skb == w.Saved(i))
      ensures w.quiet ==> Flushing(skb, last, lastLen) && forall t :: 0 <= t < |flight| ==> flight[t].k < Base(|wire|) + i + 1
      ensures w.quiet ==> event == old(w.ackWnd)[i]
      ensures w.quiet && NeverRefuses(fate) && event != Timeout ==> Base(|wire|) + i in r.arrived
    {
      hide Agreed, Reassembler.Valid, Base, Spoilt, Refusals, Covered, Doomed, NeverRefuses, Reloadable, Showing,
           SendWindow.Faithful, SendWindow.Saved;
      if w.quiet && NeverRefuses(fate) && w.ackWnd[i] != Timeout {
        SlotArrived(View(), i);
      }
      w.Interfere();
      skb, event, acked := skb0, w.ackWnd[i], acked0;
      if event == Timeout {
        skb := Again(i, last, skb0, lastLen);
      } else if event == RecvAck {
        acked := acked + 1;
        Tick(i, last, skb0, lastLen);
      }
    }

    /** One scan of the window: every slot seen timed out is resent, every slot seen acknowledged
        is counted and turned back to IDLE. Whatever the listener hears, the scan saw what the slots
        showed at each visit. */
    method Round(last: nat, skb0: Bytes, lastLen: nat, acked0: nat)
        returns (skb: Bytes, acked: nat, out: bool, seen: seq<Event>, resent: seq<nat>, frames: seq<Bytes>)
      requires w.Valid() && last < WND_SIZE && acked0 < last + 1
      requires w.quiet ==> Flushing(skb0, last, lastLen) && flight == []
      modifies this`flight, w`ackWnd, w`tick
      ensures w.Valid() && |seen| == last + 1
      ensures Scanning(old(Sighted()), w.Ears(), seen, resent, Sighted(), acked - acked0) && (out <==> acked >= last + 1)
      ensures resent == TimedOut(seen) && acked == acked0 + |AckSet(seen)|
      ensures Sent(old(flight), flight, Base(|wire|), resent, frames) && |flight| <= old(|flight|) + WND_SIZE
      ensures w.Faithful(skb0, last, lastLen) ==> w.Faithful(skb, last, lastLen) && w.Copies(frames, resent)
      ensures w.quiet ==> Flushing(skb, last, lastLen) && Scanned(old(w.ackWnd), w.ackWnd, seen)
      ensures w.quiet && NeverRefuses(fate) ==> forall s :: 0 <= s < |seen| && seen[s] != Timeout ==> Base(|wire|) + s in r.arrived
    {
      hide Flushing, Base, NeverRefuses, Sent, Scanned, Scanning, TimedOut, AckSet, Visited, Waited,
           SendWindow.Faithful, SendWindow.Copies, SendWindow.Saved;
      skb, acked, out, seen, resent, frames := skb0, acked0, false, [], [], [];
      ScanBegins(Sighted(), w.Ears(), flight, Base(|wire|));
      w.NoCopies();
      var i := 0;
      while i < WND_SIZE
        invariant w.Valid() && i == |seen| <= last + 1 && (out <==> acked >= last + 1)
        invariant acked0 <= acked && Scanning(old(Sighted()), w.Ears(), seen, resent, Sighted(), acked - acked0)
        invariant Sent(old(flight), flight, Base(|wire|), resent, frames)
        invariant old(w.Faithful(skb0, last, lastLen)) ==> w.Faithful(skb, last, lastLen) && w.Copies(frames, resent)
        invariant w.quiet ==> Flushing(skb, last, lastLen) && forall t :: 0 <= t < |flight| ==> flight[t].k < Base(|wire|) + i
        invariant w.quiet && NeverRefuses(fate) ==> forall s :: 0 <= s < |seen| && seen[s] != Timeout ==> Base(|wire|) + s in r.arrived
      {
        if i > last {
          break;
        }
        var event;
        ghost var sofar, sight, gained := flight, Sighted(), acked - acked0;
        skb, event, acked := Visit(i, last, skb, lastLen, acked);
        if event == RecvAck && acked == last + 1 {
          out := true;
        }
        ScanningOne(old(Sighted()), w.Ears(), seen, resent, sight, gained, event);
        if event == Timeout {
          SentOne(old(flight), sofar, Base(|wire|), resent, frames, i, skb);
          if w.Faithful(skb0, last, lastLen) {
            w.CopiesOne(frames, resent, skb, i);
          }
          resent, frames := resent + [i], frames + [skb];
        }
        seen := seen + [event];
        i := i + 1;
      }
      ScanEnds(old(Sighted()), w.Ears(), seen, resent, Sighted(), acked - acked0, w.quiet);
      SentLength(old(flight), flight, Base(|wire|), resent, frames);
    }

    /** After a scan everything missing is in flight again. */
    ghost method Settle(skb: Bytes, last: nat, lastLen: nat, seen: seq<Event>, frames: seq<Bytes>)
      requires Flushing(skb, last, lastLen) && |seen| == last + 1
      requires Sent([], flight, Base(|wire|), TimedOut(seen), frames)
      requires NeverRefuses(fate) ==> forall s :: 0 <= s < |seen| && seen[s] != Timeout ==> Base(|wire|) + s in r.arrived
      modifies this`settled
      ensures Flushing(skb, last, lastLen) && settled == Spoilt()
    {
      hide Core, NeverRefuses, Covered, Spoilt, Refusals, Doomed, Base;
      if NeverRefuses(fate) {
        CoveredAgain(flight, seen, frames, r.arrived.Keys, |wire|);
      }
      settled := Spoilt();
    }

    /** A wait after which something is missing has spoilt a frame. */
    lemma Undelivered(skb: Bytes, last: nat, lastLen: nat)
      requires Flushing(skb, last, lastLen) && flight == []
      ensures Inv() && r.cntPkts <= |wire| && settled <= Spoilt()
      ensures NeverRefuses(fate) && r.cntPkts != |wire| ==> Spoilt() > settled
    {
      hide Agreed, Reassembler.Valid, Base, NeverRefuses, Covered, Spoilt, Refusals, Doomed;
      Sizes(View(), NeverRefuses(fate));
      if Covered([], r.arrived.Keys, |wire|) {
        CoveredAndIdle(r.arrived, |wire|, r.cntPkts);
      }
    }

    /** The counter has reached the size of the window, and every slot it counted is still IDLE: then
        every packet has been delivered. */
    lemma CountedIsDelivered(skb: Bytes, last: nat, lastLen: nat, log: seq<seq<Event>>)
      requires Flushing(skb, last, lastLen) && last < WND_SIZE && AckedAtMostOnce(log) && Conversions(log) >= last + 1
      requires forall p :: 0 <= p < |log| ==> |log[p]| == last + 1
      requires forall s :: s in AckedIn(log) ==> s < WND_SIZE && w.ackWnd[s] == Idle
      ensures r.cntPkts == |wire|
    {
      hide Agreed, Reassembler.Valid, Base, NeverRefuses, Covered, Spoilt, Refusals, Doomed, LongestPrefix, EventsOk,
           AckedIn, Conversions, AckedAtMostOnce;
      Sizes(View(), NeverRefuses(fate));
      CounterReachedMeansAllAcked(log, last);
      AllReceived(w.ackWnd, r.arrived, |wire|, r.cntPkts);
    }

    /** A quiet wait: the slots counted stay IDLE. */
    lemma WaitCounts(skb: Bytes, last: nat, lastLen: nat, log: seq<seq<Event>>, resent: seq<seq<nat>>, acked: nat, start: seq<Event>, before: seq<Event>)
      requires Flushing(skb, last, lastLen) && Rounds(log, resent, last, acked) && last < WND_SIZE
      requires Counts(log, start, before) && |w.ackWnd| == WND_SIZE
      requires forall s :: 0 <= s < WND_SIZE && before[s] != Timeout ==> w.ackWnd[s] == before[s]
      ensures Counts(log, start, w.ackWnd) && AckedAtMostOnce(log)
      ensures acked >= last + 1 ==> r.cntPkts == |wire|
      ensures (exists s :: 0 <= s <= last && start[s] == Idle) ==> acked < last + 1
    {
      hide Flushing, AckedIn, AckedAtMostOnce, Conversions, TimedOut;
      RoundsSized(log, resent, last, acked);
      CountsStay(log, start, before, w.ackWnd);
      if acked >= last + 1 {
        CountedIsDelivered(skb, last, lastLen, log);
      }
      IdleIsNotCounted(log, last, start, w.ackWnd);
    }

    /** The wait, scan and resend loop. Whatever the listener hears, every round saw what the slots
        showed, and what was put in flight are the frames of the slots seen timed out, in order, each
        as it was saved. */
    method Flush(skb0: Bytes, last: nat, lastLen: nat)
        returns (log: seq<seq<Event>>, resent: seq<seq<nat>>, acked: nat, out: bool, frames: seq<Bytes>)
      requires w.Valid() && last < WND_SIZE
      requires w.quiet ==> Flushing(skb0, last, lastLen)
      modifies this`clock, this`flight, this`settled, w`ackWnd, w`tick, r, r.buff, r.stored
      ensures w.Valid() && FlushLog(log, resent, last, acked, out)
      ensures !w.quiet ==> Watching(old(Sighted()), w.Ears(), last, log, 1, Sighted())
      ensures !w.quiet ==> Sent(old(flight), flight, Base(|wire|), AllAgain(resent), frames)
      ensures w.Faithful(skb0, last, lastLen) ==> w.Copies(frames, AllAgain(resent))
      ensures w.quiet ==> Inv() && flight == [] && AckedAtMostOnce(log) && old(settled) <= settled
      ensures w.quiet && out ==> r.cntPkts == |wire|
      ensures w.quiet && (exists s :: 0 <= s <= last && old(w.ackWnd)[s] == Idle) ==> !out
      ensures w.quiet && NeverRefuses(fate) && r.cntPkts != |wire| ==> Spoilt() > old(settled) + RETX_MAX
      ensures clock + |flight| <= old(clock + |flight|) + WND_SIZE * RETX_MAX
    {
      hide Flushing, Inv, Spoilt, NeverRefuses, AckedIn, AckedAtMostOnce, TimedOut, AckSet, Conversions, Rounds, Watching,
           Waited, Sent, AllAgain, Scanning, Scanned, Base, Counts, Carried, Showing, SendWindow.Faithful, SendWindow.Copies;
      var skb := skb0;
      var txNum := 0;
      log, resent, acked, out, frames := [], [], 0, false, [];
      FlushBegins(Sighted(), w.Ears(), last, flight, Base(|wire|));
      w.NoCopies();
      while true
        invariant w.Valid() && txNum == |log| <= RETX_MAX
        invariant Rounds(log, resent, last, acked) && (out <==> acked >= last + 1)
        invariant !w.quiet ==> Watching(old(Sighted()), w.Ears(), last, log, 0, Sighted())
        invariant !w.quiet ==> Sent(old(flight), flight, Base(|wire|), AllAgain(resent), frames)
        invariant old(w.Faithful(skb0, last, lastLen)) ==> w.Faithful(skb, last, lastLen) && w.Copies(frames, AllAgain(resent))
        invariant w.quiet ==> Flushing(skb, last, lastLen)
        invariant w.quiet ==> Counts(log, old(w.ackWnd), w.ackWnd)
        invariant w.quiet ==> old(settled) <= settled
        invariant w.quiet && NeverRefuses(fate) ==> r.cntPkts == |wire| || settled >= old(settled) + txNum
        invariant clock + |flight| <= old(clock + |flight|) + WND_SIZE * txNum
        decreases RETX_MAX - txNum
      {
        ghost var sight := Sighted();
        Wait(skb, last, lastLen);
        if w.quiet {
          Undelivered(skb, last, lastLen);
          WaitCounts(skb, last, lastLen, log, resent, acked, old(w.ackWnd), sight.ack);
        } else {
          WatchingWait(old(Sighted()), w.Ears(), last, log, sight);
        }
        txNum := txNum + 1;
        if txNum > RETX_MAX || out {
          break;
        }
        var seen, again, more;
        ghost var before, sofar, counted := Sighted(), flight, acked;
        skb, acked, out, seen, again, more := Round(last, skb, lastLen, acked);
        RoundsGrow(log, resent, last, counted, seen);
        AgainNext(resent, again);
        if w.quiet {
          RoundRecorded(log, seen, old(w.ackWnd), before.ack, w.ackWnd);
          Settle(skb, last, lastLen, seen, more);
        } else {
          WatchingRound(old(Sighted()), w.Ears(), last, log, before, seen, again, Sighted(), acked - counted);
          SentJoin(old(flight), sofar, flight, Base(|wire|), AllAgain(resent), frames, again, more);
        }
        if w.Faithful(skb0, last, lastLen) {
          w.CopiesJoin(frames, AllAgain(resent), more, again);
        }
        log, resent, frames := log + [seen], resent + [again], frames + more;
      }
    }

    /** The egress program up to the first transmission of a packet. */
    method Launch(packet: Bytes) returns (a: Admission)
      requires Ready() && WellFormed(packet)
      modifies this`flight, this`wire, this`stream, w
      ensures HDR_LEN < |packet| <= ON_WIRE_SIZE
      ensures a.Admitted? && Flushing(a.frame, a.slot, |packet|)
      ensures stream == old(stream) + [Payload(packet)] && wire == old(wire) + [a.frame] && |a.frame| == |packet|
      ensures a.flush == (old(|wire|) % WND_SIZE == WND_SIZE - 1 || |packet| < ON_WIRE_SIZE)
      ensures |flight| == old(|flight|) + 1
    {
      hide Departs, Checksum, PayloadLen, Resize, Transmitted, Agreed, Decode, WellFormed, Base, Payload, Reassembler.Valid, Covered, Spoilt, Refusals, Doomed, NeverRefuses;
      WellFormedFacts(packet);
      ghost var s := View();
      var m := |wire|;
      BaseStep(m);
      a := w.Admit(packet);
      LaunchedState(s, NeverRefuses(fate), a.frame, Payload(packet), w.lenWnd, w.bufWnd);
      LaunchedRun(flight, r.arrived.Keys, s.ack, m, a.frame);
      wire, stream := wire + [a.frame], stream + [Payload(packet)];
      flight := flight + [Transmission(m, a.frame)];
    }

    lemma Marked()
      requires Inv()
      ensures mark <= r.cntPkts
    {
      hide Decode, EventsOk, Base, Covered, Spoilt, Refusals, Doomed, NeverRefuses, Reassembler.Valid, LongestPrefix;
    }

    lemma Shape()
      requires Inv()
      ensures w.Valid() && |stream| == |wire| && Base(|wire|) <= r.cntPkts <= |wire|
      ensures LongestPrefix(r.arrived, r.cntPkts) && EventsOk(w.ackWnd, |wire|, r.arrived.Keys)
      ensures NeverRefuses(fate) ==> RecvNack !in w.ackWnd
    {
      hide Agreed, EventsOk, LongestPrefix, Base, NeverRefuses;
      Sizes(View(), NeverRefuses(fate));
    }

    /** Everything sent has been delivered. */
    ghost method Finish()
      requires Inv() && r.cntPkts == |wire|
      modifies this`mark
      ensures Inv() && mark == |wire| && Refusals() == 0
    {
      hide Agreed, Covered, Spoilt, Refusals, Doomed, NeverRefuses, Base, Reassembler.Valid;
      MarkedState(View(), NeverRefuses(fate));
      NotDoomed(View(), NeverRefuses(fate));
      mark := |wire|;
    }

    /** Flush the window; `complete` tells whether no slot was left timed out or refused. */
    method Drain(skb: Bytes, last: nat, lastLen: nat) returns (complete: bool, timedOut: bool)
      requires w.quiet && last < WND_SIZE && Flushing(skb, last, lastLen)
      modifies this`clock, this`flight, this`mark, this`settled, w`ackWnd, w`tick, r, r.buff, r.stored
      ensures Inv() && (complete <==> r.cntPkts == |wire|) && (complete ==> mark == |wire|) && old(settled) <= settled
      ensures (complete ==> !timedOut) && (NeverRefuses(fate) ==> complete == !timedOut)
      ensures NeverRefuses(fate) && !complete ==> Spoilt() > old(settled) + RETX_MAX
      ensures complete ==> Refusals() == 0
      ensures mark == if complete then |wire| else old(mark)
      ensures clock + |flight| <= old(clock + |flight|) + WND_SIZE * RETX_MAX
    {
      hide Inv, Spoilt, Refusals, NeverRefuses, Base, FlushLog, Reloadable, LongestPrefix, EventsOk;
      Shape();
      var log, resent, acked, out, frames := Flush(skb, last, lastLen);
      Shape();
      complete := forall s :: 0 <= s <= last ==> w.ackWnd[s] != Timeout && w.ackWnd[s] != RecvNack;
      timedOut := exists s :: 0 <= s <= last && w.ackWnd[s] == Timeout;
      AllReceived(w.ackWnd, r.arrived, |wire|, r.cntPkts);
      assert forall s :: 0 <= s <= last ==> (Received(w.ackWnd[s]) <==> w.ackWnd[s] != Timeout && w.ackWnd[s] != RecvNack);
      if complete {
        Finish();
      }
    }

    /** The egress program on one packet. `complete` tells whether the flush, if there was one,
        left no slot timed out or refused. */
    method Send(packet: Bytes) returns (flushed: bool, complete: bool, timedOut: bool)
      requires Ready() && w.quiet && WellFormed(packet)
      modifies this, w, r, r.buff, r.stored
      ensures Inv() && stream == old(stream) + [Payload(packet)]
      ensures flushed == (old(|stream|) % WND_SIZE == WND_SIZE - 1 || |packet| < ON_WIRE_SIZE)
      ensures mark == if flushed && complete then |stream| else old(mark)
      ensures old(mark) <= mark
      ensures if flushed then complete <==> r.cntPkts == |stream| else complete
      ensures (complete ==> !timedOut) && (NeverRefuses(fate) ==> complete == !timedOut)
      ensures (complete ==> Ready()) && old(settled) <= settled
      ensures NeverRefuses(fate) && !complete ==> Spoilt() > old(settled) + RETX_MAX
      ensures flushed && complete ==> Refusals() == 0
      ensures clock + |flight| <= old(clock + |flight|) + 1 + WND_SIZE * RETX_MAX
    {
      hide Inv, Spoilt, Refusals, NeverRefuses, WellFormed, Base, Payload, Reloadable, LongestPrefix, EventsOk;
      BaseStep(|wire|);
      Marked();
      Shape();
      var a := Launch(packet);
      flushed, complete, timedOut := a.flush, true, false;
      if a.flush {
        complete, timedOut := Drain(a.frame, a.slot, |packet|);
      } else {
        Network(lull(|wire|));
      }
      Shape();
    }

    /** What has been written to the receive buffer is the joined prefix of the stream. */
    lemma Output()
      requires Inv()
      ensures r.cntPkts <= |stream| && r.rxData == Concat(stream[..r.cntPkts])
    {
      hide Agreed, Reassembler.Buffered, Base, EventsOk;
      Sizes(View(), NeverRefuses(fate));
      JoinedIsConcat(r.arrived, stream, r.cntPkts);
    }
  }

  /** Selective Repeat end to end. For every sequence of packets and every choice of loss,
      reordering and detected corruption in each round: the bytes written to the receive buffer are
      always those of a prefix of the packets sent; a flush that leaves no slot timed out or refused
      has delivered everything sent so far; and a flush that leaves one has not. The transfer stops
      at the first flush of the second kind. When no frame is answered with a NACK, that is exactly a
      flush that ends with a slot still timed out, and it takes a network that loses more than RETX_MAX
      frames or makes them unreadable. A refused frame is never sent again, so that one is enough.
      `steps` is the number of network steps, one per frame sent and no longer in flight. */
  method Transfer(packets: seq<Bytes>, truncates: bool, fate: nat -> Fate, lull: nat -> nat)
      returns (output: Bytes, count: nat, taken: nat, complete: bool, timedOut: bool, steps: nat)
    requires AllWellFormed(packets)
    ensures count <= taken <= |packets| && output == Concat(Payloads(packets)[..count])
    ensures complete ==> taken == |packets|
    ensures !complete ==> count < taken && FlushAfter(packets, taken)
    ensures Flushed(packets, taken, complete, count)
    ensures (forall c :: match fate(c) case Lose(_) => true case Arrive(_, socket) => socket case Corrupt(_, g) => Decode(g).View? ==> Decode(g).good) ==>
              complete == !timedOut && (!complete ==> Count(fate, Spoils, steps) > RETX_MAX)
    ensures packets != [] && (|packets| % WND_SIZE == 0 || |packets[|packets| - 1]| < ON_WIRE_SIZE) ==>
              ((exists c :: 0 <= c < steps && fate(c).Arrive? && !fate(c).socket) ==> !complete)
    ensures steps <= (1 + WND_SIZE * RETX_MAX) * taken
    ensures (forall c :: fate(c).Arrive? && fate(c).socket) ==> complete
    ensures complete && packets != [] && (|packets| % WND_SIZE == 0 || |packets[|packets| - 1]| < ON_WIRE_SIZE) ==>
              output == Concat(Payloads(packets))
  {
    hide Decode, WellFormed, Link.Inv, Payload, Concat, Flushed, FlushAfter;
    FlushedNone(packets);
    var link := new Link(truncates, true, _ => [], fate, lull);
    var flushed := false;
    taken, complete, timedOut := 0, true, false;
    while taken < |packets| && complete
      invariant taken <= |packets| && link.w.quiet && link.Inv()
      invariant fresh(link) && fresh(link.w) && fresh(link.r) && fresh(link.r.buff) && fresh(link.r.stored)
      invariant link.stream == Payloads(packets)[..taken]
      invariant if complete then link.Ready() else 0 < taken && flushed && link.r.cntPkts != |link.stream|
      invariant link.fate == fate && (NeverRefuses(fate) ==> complete == !timedOut)
      invariant NeverRefuses(fate) && !complete ==> link.Spoilt() > RETX_MAX
      invariant 0 < taken && flushed && complete ==> link.Refusals() == 0
      invariant link.clock + |link.flight| <= (1 + WND_SIZE * RETX_MAX) * taken
      invariant 0 < taken && flushed && complete ==> link.r.cntPkts == |link.stream|
      invariant 0 < taken ==> (flushed <==> FlushAfter(packets, taken))
      invariant Flushed(packets, taken, complete, link.mark)
    {
      ghost var mark := link.mark;
      FlushAfterNext(packets, taken);
      flushed, complete, timedOut := link.Send(packets[taken]);
      FlushedNext(packets, taken, mark, complete, link.mark);
      taken := taken + 1;
    }
    link.Marked();
    FlushedMore(packets, taken, complete, link.mark, link.r.cntPkts);
    FlushAfterAll(packets);
    link.Output();
    output, count, steps := link.r.rxData, link.r.cntPkts, link.clock;
    if c :| 0 <= c < steps && fate(c).Arrive? && !fate(c).socket {
      CountSome(fate, Refuses, c, steps);
    }
    if forall c :: fate(c).Arrive? && fate(c).socket {
      CountNone(fate, Spoils, steps);
    }
    assert Payloads(packets)[..taken][..count] == Payloads(packets)[..count];
    assert taken == |packets| ==> Payloads(packets)[..taken] == Payloads(packets);
  }
}
