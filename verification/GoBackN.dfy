/** Go-Back-N (XTFsPool/store/egress_gobackn_graft.c, ingress_gobackn_graft.c). */
module GoBackN {
  import opened Options
  import opened Wire
  import opened Window
  import opened Channel

  // ----- The receiving program -----

  /** An ideal receiver that sees absolute indices accepts packet k exactly when it is the next one. */
  ghost function IdealCount(arrivals: seq<nat>): (n: nat)
    ensures n <= |arrivals|
  {
    if arrivals == [] then 0
    else
      var n := IdealCount(arrivals[..|arrivals| - 1]);
      if arrivals[|arrivals| - 1] == n then n + 1 else n
  }

  /** No arriving index other than the expected one has the expected residue modulo 16. */
  ghost predicate NoAlias(arrivals: seq<nat>) {
    forall i :: 0 <= i < |arrivals| ==> var n := IdealCount(arrivals[..i]); arrivals[i] % 16 == n % 16 ==> arrivals[i] == n
  }

  lemma SameResidue(k: nat, n: nat)
    requires n - 16 < k < n + 16
    ensures k % 16 == n % 16 <==> k == n
  {
  }

  /** Arrivals less than sixteen away from the number delivered are no aliases. */
  lemma ReachExcludesAlias(arrivals: seq<nat>)
    requires forall i :: 0 <= i < |arrivals| ==> var n := IdealCount(arrivals[..i]); n - 16 < arrivals[i] < n + 16
    ensures NoAlias(arrivals)
  {
    forall i | 0 <= i < |arrivals|
      ensures var n := IdealCount(arrivals[..i]); arrivals[i] % 16 == n % 16 ==> arrivals[i] == n
    {
      SameResidue(arrivals[i], IdealCount(arrivals[..i]));
    }
  }

  class Receiver {
    var numAck: nat
    var delivered: seq<Bytes>

    ghost predicate Valid()
      reads this
    {
      numAck == |delivered| % WND_SIZE
    }

    constructor ()
      ensures Valid() && delivered == []
    {
      numAck, delivered := 0, [];
    }

    /** The ingress program on one frame. The acknowledgement of an accepted frame is sent by
        code outside the repository and is taken as given. */
    method Receive(frame: Bytes, socket: bool) returns (feedback: Option<Feedback>)
      requires Valid()
      modifies this
      ensures Valid()
      ensures match Decode(frame)
              case Unreadable => feedback == None && delivered == old(delivered)
              case View(good, seqNum, payload) =>
                if !good || seqNum != old(|delivered|) % WND_SIZE
                then feedback == Some(Feedback(seqNum, true)) && delivered == old(delivered)
                else if socket
                then feedback == Some(Feedback(seqNum, false)) && delivered == old(delivered) + [payload]
                else feedback == None && delivered == old(delivered)
    {
      hide Checksum, PayloadLen, XorAll;
      var sum := ComputeChecksum(frame);
      if sum.None? {
        return None;
      }
      if FieldHolds(frame, sum.value) && numAck == SeqNum(frame) {
        if socket {
          numAck := (numAck + 1) % WND_SIZE;
          delivered := delivered + [Payload(frame)];
          return Some(Feedback(SeqNum(frame), false));
        }
        return None;
      }
      return Some(Feedback(SeqNum(frame), true));
    }
  }

  /** What a receiver that compares indices modulo 16 accepts. */
  ghost function Accepted(arrivals: seq<nat>): (a: seq<nat>)
    ensures |a| <= |arrivals| && forall j :: 0 <= j < |a| ==> a[j] in arrivals && a[j] % WND_SIZE == j % WND_SIZE
  {
    if arrivals == [] then []
    else
      var a, k := Accepted(arrivals[..|arrivals| - 1]), arrivals[|arrivals| - 1];
      if k % WND_SIZE == |a| % WND_SIZE then a + [k] else a
  }

  ghost predicate InSequence(accepted: seq<nat>) {
    forall j :: 0 <= j < |accepted| ==> accepted[j] == j
  }

  lemma NoAliasNext(front: seq<nat>, k: nat)
    ensures NoAlias(front + [k]) <==> NoAlias(front) && (k % 16 == IdealCount(front) % 16 ==> k == IdealCount(front))
  {
    hide IdealCount;
    var all := front + [k];
    assert forall i :: 0 <= i < |front| ==> front[i] == all[i] && front[..i] == all[..i];
    assert all[..|front|] == front;
  }

  lemma NoArrivals()
    ensures NoAlias([]) && InSequence([])
  {
  }

  lemma InSequenceNext(a: seq<nat>, k: nat)
    ensures InSequence(a + [k]) <==> InSequence(a) && k == |a|
  {
    assert (a + [k])[|a|] == k && forall j :: 0 <= j < |a| ==> (a + [k])[j] == a[j];
  }

  /** Packets are accepted in sequence, without gap or repetition, exactly when no arrival is an alias. */
  lemma {:induction false} InSequenceIffNoAlias(arrivals: seq<nat>)
    ensures InSequence(Accepted(arrivals)) <==> NoAlias(arrivals)
    ensures NoAlias(arrivals) ==> |Accepted(arrivals)| == IdealCount(arrivals)
  {
    hide NoAlias, InSequence;
    if arrivals == [] {
      NoArrivals();
    } else {
      var front, k := arrivals[..|arrivals| - 1], arrivals[|arrivals| - 1];
      InSequenceIffNoAlias(front);
      assert front + [k] == arrivals;
      NoAliasNext(front, k);
      InSequenceNext(Accepted(front), k);
    }
  }

  /** The receiver alone, under any loss, duplication and reordering: the payloads delivered are
      those of the packets accepted, and these are in sequence, so that what is delivered is a
      prefix of what was sent, exactly when no arrival is an alias (in particular when each is
      within reach). Then the modulo-16 test decides as the ideal receiver does. */
  method ReceiveAll(wire: seq<Bytes>, ghost stream: seq<Bytes>, arrivals: seq<nat>) returns (delivered: seq<Bytes>)
    requires Transmitted(wire, stream)
    requires forall i :: 0 <= i < |arrivals| ==> arrivals[i] < |wire|
    ensures |delivered| == |Accepted(arrivals)|
    ensures forall j :: 0 <= j < |delivered| ==> Accepted(arrivals)[j] < |stream| && delivered[j] == stream[Accepted(arrivals)[j]]
    ensures InSequence(Accepted(arrivals)) <==> NoAlias(arrivals)
    ensures NoAlias(arrivals) ==> IdealCount(arrivals) <= |stream| && delivered == stream[..IdealCount(arrivals)]
  {
    hide Decode, IdealCount;
    var r := new Receiver();
    var i := 0;
    while i < |arrivals|
      invariant i <= |arrivals| && r.Valid() && fresh(r)
      invariant var a := Accepted(arrivals[..i]);
                |r.delivered| == |a| && forall j :: 0 <= j < |a| ==> a[j] < |stream| && r.delivered[j] == stream[a[j]]
    {
      assert arrivals[..i + 1][..i] == arrivals[..i];
      var feedback := r.Receive(wire[arrivals[i]], true);
      i := i + 1;
    }
    assert arrivals[..i] == arrivals;
    InSequenceIffNoAlias(arrivals);
    delivered := r.delivered;
    if NoAlias(arrivals) && delivered != [] {
      assert Accepted(arrivals)[|delivered| - 1] == |delivered| - 1;
    }
  }

  lemma AcceptedNext(arrivals: seq<nat>, k: nat)
    ensures Accepted([]) == []
    ensures Accepted(arrivals + [k]) == Accepted(arrivals) + if k % WND_SIZE == |Accepted(arrivals)| % WND_SIZE then [k] else []
  {
    assert (arrivals + [k])[..|arrivals|] == arrivals;
  }

  /** After n packets in order, the receiver accepts any packet with the residue of n, and no other. */
  lemma {:induction false} AcceptedAfter(n: nat, k: nat)
    ensures Accepted(Interval(0, n)) == Interval(0, n)
    ensures Accepted(Interval(0, n) + [k]) == Interval(0, n) + if k % WND_SIZE == n % WND_SIZE then [k] else []
  {
    hide Accepted;
    if n > 0 {
      AcceptedAfter(n - 1, n - 1);
      assert Interval(0, n) == Interval(0, n - 1) + [n - 1];
    }
    AcceptedNext(Interval(0, n), k);
  }

  /** Why aliases must be excluded: with sixteen sequence numbers for a window of sixteen, a copy of
      packet 0 that arrives after packets 0..15 is accepted, and delivered as packet 16. */
  method AliasIsDelivered(wire: seq<Bytes>, ghost stream: seq<Bytes>) returns (delivered: seq<Bytes>)
    requires Transmitted(wire, stream) && |wire| >= WND_SIZE
    ensures Accepted(Interval(0, WND_SIZE) + [0]) == Interval(0, WND_SIZE) + [0]
    ensures |delivered| == WND_SIZE + 1 && delivered[..WND_SIZE] == stream[..WND_SIZE] && delivered[WND_SIZE] == stream[0]
  {
    hide Decode, Accepted, NoAlias;
    AcceptedAfter(WND_SIZE, 0);
    var arrivals := Interval(0, WND_SIZE) + [0];
    delivered := ReceiveAll(wire, stream, arrivals);
    assert forall j :: 0 <= j < WND_SIZE ==> delivered[j] == stream[arrivals[j]];
    assert delivered[WND_SIZE] == stream[arrivals[WND_SIZE]];
  }

  // ----- The flush -----

  /** A round that found a slot unacknowledged resends everything from that slot on. */
  ghost predicate Losing(r: Round, last: nat) {
    && |r.seen| > 0 && r.cursor + |r.seen| <= last + 1
    && (forall t :: 0 <= t < |r.seen| - 1 ==> r.seen[t] == RecvAck)
    && r.seen[|r.seen| - 1] != RecvAck
    && r.resent == Interval(r.cursor + |r.seen| - 1, last + 1)
  }

  /** A round that found every remaining slot acknowledged. */
  ghost predicate Clean(r: Round, last: nat) {
    && r.cursor + |r.seen| == last + 1
    && (forall t :: 0 <= t < |r.seen| ==> r.seen[t] == RecvAck)
    && r.resent == []
  }

  ghost predicate FlushLog(log: seq<Round>, last: nat, exhausted: bool) {
    && Chained(log)
    && 0 < |log| <= RETX_MAX
    && (forall r :: 0 <= r < |log| - 1 ==> Losing(log[r], last))
    && (if exhausted then |log| == RETX_MAX && Losing(log[|log| - 1], last) else Clean(log[|log| - 1], last))
  }

  /** The rounds so far were all losing, and the next scan starts at `cursor`. */
  ghost predicate LosingLog(log: seq<Round>, last: nat, cursor: nat) {
    && Chained(log)
    && (forall r :: 0 <= r < |log| ==> Losing(log[r], last))
    && cursor == NextStart(log)
  }

  lemma LosingLogGrows(log: seq<Round>, last: nat, r: Round)
    requires LosingLog(log, last, r.cursor) && Losing(r, last)
    ensures LosingLog(log + [r], last, r.cursor + |r.seen| - 1)
  {
  }

  lemma LogBegins(last: nat)
    ensures LosingLog([], last, 0)
  {
  }

  lemma LogExhausts(log: seq<Round>, last: nat, cursor: nat)
    requires LosingLog(log, last, cursor) && |log| == RETX_MAX
    ensures FlushLog(log, last, true)
  {
  }

  lemma LogEnds(log: seq<Round>, last: nat, r: Round)
    requires LosingLog(log, last, r.cursor) && Clean(r, last) && |log| < RETX_MAX
    ensures FlushLog(log + [r], last, false)
  {
  }

  /** What the log of a flush of slots 0 to last says, round by round. */
  lemma FlushLogMeans(log: seq<Round>, last: nat, exhausted: bool, r: nat)
    requires FlushLog(log, last, exhausted) && r < |log|
    ensures |log| <= 10 && (r == 0 ==> log[0].cursor == 0)
    ensures forall t :: 0 <= t < |log[r].seen| - 1 ==> log[r].seen[t] == RecvAck
    ensures exhausted ==> |log| == 10
    ensures r < |log| - 1 || exhausted ==>
              && |log[r].seen| > 0 && log[r].seen[|log[r].seen| - 1] != RecvAck
              && var stop := log[r].cursor + |log[r].seen| - 1;
                 && stop <= last && |log[r].resent| == last + 1 - stop
                 && (forall k :: 0 <= k < |log[r].resent| ==> log[r].resent[k] == stop + k)
                 && (r < |log| - 1 ==> log[r + 1].cursor == stop)
    ensures r == |log| - 1 && !exhausted ==>
              log[r].cursor + |log[r].seen| == last + 1 && log[r].resent == [] && forall t :: 0 <= t < |log[r].seen| ==> log[r].seen[t] == RecvAck
  {
    if r < |log| - 1 {
      assert Losing(log[r], last);
    }
  }

  ghost predicate SeenAcked(r: Round, slot: nat) {
    r.cursor <= slot < r.cursor + |r.seen| && r.seen[slot - r.cursor] == RecvAck
  }

  ghost predicate SeenAckedBy(log: seq<Round>, slot: nat) {
    exists r :: 0 <= r < |log| && SeenAcked(log[r], slot)
  }

  /** Every slot below the cursor of a round was seen acknowledged in an earlier round. */
  lemma {:induction false} BelowCursorSeenAcked(log: seq<Round>, last: nat, r: nat, slot: nat) returns (q: nat)
    requires Chained(log) && r < |log| && slot < log[r].cursor
    requires forall p :: 0 <= p < r ==> Losing(log[p], last)
    ensures q < r && SeenAcked(log[q], slot)
  {
    assert Losing(log[r - 1], last);
    if log[r - 1].cursor <= slot {
      q := r - 1;
    } else {
      q := BelowCursorSeenAcked(log, last, r - 1, slot);
    }
  }

  /** The cursor never moves back. */
  lemma {:induction false} CursorMonotone(log: seq<Round>, p: nat, r: nat)
    requires Chained(log) && p <= r < |log|
    ensures log[p].cursor <= log[r].cursor
  {
    if p < r {
      CursorMonotone(log, p, r - 1);
    }
  }

  /** A flush that ends normally has seen every slot of the window acknowledged. */
  lemma NormalExitSawAllAcked(log: seq<Round>, last: nat)
    requires FlushLog(log, last, false)
    ensures forall slot :: 0 <= slot <= last ==> SeenAckedBy(log, slot)
  {
    forall slot | 0 <= slot <= last
      ensures SeenAckedBy(log, slot)
    {
      var r := |log| - 1;
      if slot < log[r].cursor {
        r := BelowCursorSeenAcked(log, last, r, slot);
      }
      assert SeenAcked(log[r], slot);
    }
  }

  lemma RoundsAgree(a: Round, b: Round, last: nat)
    requires (Losing(a, last) || Clean(a, last)) && (Losing(b, last) || Clean(b, last)) && a.cursor == b.cursor
    requires forall t :: 0 <= t < |a.seen| && t < |b.seen| ==> a.seen[t] == b.seen[t]
    ensures a == b
  {
    hide Interval;
    assert |a.seen| == |b.seen|;
    assert a.seen == b.seen;
  }

  lemma {:induction false} LogsAgree(a: seq<Round>, b: seq<Round>, last: nat, p: bool, q: bool, ack: seq<Event>, l: Listener, tick: nat, r: nat)
    requires FlushLog(a, last, p) && FlushLog(b, last, q) && Observed(a, ack, l, tick) && Observed(b, ack, l, tick)
    requires r <= |a| && r <= |b|
    ensures a[..r] == b[..r]
  {
    hide Losing, Clean, Observed;
    if r > 0 {
      LogsAgree(a, b, last, p, q, ack, l, tick, r - 1);
      ChainedAgree(a, b, r - 1);
      ObservedAgree(a, b, r - 1, ack, l, tick);
      RoundsAgree(a[r - 1], b[r - 1], last);
      assert a[..r] == a[..r - 1] + [a[r - 1]] && b[..r] == b[..r - 1] + [b[r - 1]];
    }
  }

  lemma LogIsDetermined(a: seq<Round>, b: seq<Round>, last: nat, p: bool, q: bool, ack: seq<Event>, l: Listener, tick: nat)
    requires FlushLog(a, last, p) && FlushLog(b, last, q) && Observed(a, ack, l, tick) && Observed(b, ack, l, tick)
    ensures a == b && p == q
  {
    hide Observed;
    var r := if |a| < |b| then |a| else |b|;
    LogsAgree(a, b, last, p, q, ack, l, tick, r);
    assert a[r - 1] == a[..r][r - 1] == b[..r][r - 1] == b[r - 1];
    assert |a| == |b|;
    assert a[..r] == a && b[..r] == b;
  }

  /** The slots at the start and what the listener hears determine the whole flush: which rounds run,
      what they see and resend, how it ends, and what the slots show then. */
  lemma FlushIsDetermined(a: seq<Round>, b: seq<Round>, last: nat, p: bool, q: bool, ack: seq<Event>, l: Listener, tick: nat,
                          x: seq<Event>, y: seq<Event>, u: nat, v: nat)
    requires FlushLog(a, last, p) && Tracked(a, ack, l, tick, if p then 1 else 0, x, u)
    requires FlushLog(b, last, q) && Tracked(b, ack, l, tick, if q then 1 else 0, y, v)
    ensures a == b && p == q && x == y && u == v
  {
    hide FlushLog, Observed, Looks, Showing;
    LogIsDetermined(a, b, last, p, q, ack, l, tick);
  }

  /** The acknowledgement scan: the first slot from the cursor on that is not acknowledged.
      Feedback may be recorded before each look. */
  method Scan(w: SendWindow, cursor: nat, last: nat) returns (i: nat, lost: bool, seen: seq<Event>)
    requires w.Valid() && cursor <= last < WND_SIZE
    modifies w`ackWnd, w`tick
    ensures w.Valid()
    ensures cursor <= i <= last + 1 && |seen| == i - cursor + (if lost then 1 else 0)
    ensures forall t :: 0 <= t < i - cursor ==> seen[t] == RecvAck
    ensures if lost then i <= last && seen[i - cursor] != RecvAck else i == last + 1
    ensures Saw(seen, cursor, old(w.ackWnd), w.Ears(), old(w.tick))
    ensures w.tick == old(w.tick) + |seen| && w.ackWnd == Showing(old(w.ackWnd), w.Ears(), old(w.tick), |seen|)
    ensures w.quiet ==> w.ackWnd == old(w.ackWnd) && forall t :: 0 <= t < |seen| ==> seen[t] == w.ackWnd[cursor + t]
  {
    hide Showing, Saw;
    i, lost, seen := cursor, false, [];
    SawNothing(cursor, w.ackWnd, w.Ears(), w.tick);
    while i < WND_SIZE
      invariant w.Valid() && cursor <= i <= last + 1 && |seen| == i - cursor
      invariant forall t :: 0 <= t < |seen| ==> seen[t] == RecvAck
      invariant Saw(seen, cursor, old(w.ackWnd), w.Ears(), old(w.tick)) && w.tick == old(w.tick) + |seen|
      invariant w.ackWnd == Showing(old(w.ackWnd), w.Ears(), old(w.tick), |seen|)
      invariant w.quiet ==> w.ackWnd == old(w.ackWnd)
    {
      if i > last {
        break;
      }
      SawNext(seen, cursor, old(w.ackWnd), w.Ears(), old(w.tick));
      w.Interfere();
      var event := w.ackWnd[i];
      seen := seen + [event];
      if event != RecvAck {
        lost := true;
        break;
      }
      i := i + 1;
    }
    if w.quiet {
      SawSilence(seen, cursor, old(w.ackWnd), w.Ears(), old(w.tick));
    }
  }

  // ----- Both ends and the network between them -----

  /** A slot of the current run is acknowledged exactly when its packet has been delivered. */
  ghost predicate AcksOk(ackWnd: seq<Event>, m: nat, n: nat)
    requires |ackWnd| == WND_SIZE
  {
    forall s :: 0 <= s < m - Base(m) ==> (ackWnd[s] == RecvAck <==> Base(m) + s < n)
  }

  lemma AcksGrow(ackWnd: seq<Event>, m: nat, n: nat)
    requires |ackWnd| == WND_SIZE && AcksOk(ackWnd, m, n) && n <= m
    requires m % WND_SIZE == 0 ==> n == m
    ensures AcksOk(ackWnd[m % WND_SIZE := Idle], m + 1, n)
  {
    BaseStep(m);
  }

  lemma AllAcked(ackWnd: seq<Event>, m: nat, n: nat)
    requires |ackWnd| == WND_SIZE && AcksOk(ackWnd, m, n) && 0 < m && Base(m) <= n <= m
    ensures (forall s :: 0 <= s <= m - 1 - Base(m) ==> ackWnd[s] == RecvAck) <==> n == m
  {
    assert ackWnd[m - 1 - Base(m)] == RecvAck <==> m - 1 < n;
  }

  // ----- What window, network and receiver agree on -----

  /** The two ends at one time: the frames first transmitted, the payloads handed over, what is in
      flight, the length of the stream at the last flush, what has been delivered, and the maps of the
      sender. */
  datatype State = State(wire: seq<Bytes>, stream: seq<Bytes>, flight: seq<Transmission>, mark: nat,
                         delivered: seq<Bytes>, ack: seq<Event>, len: seq<nat>, buf: seq<Bytes>)

  ghost predicate Agreed(s: State) {
    var n, m := |s.delivered|, |s.wire|;
    && |s.ack| == |s.len| == |s.buf| == WND_SIZE
    && |s.stream| == m && Transmitted(s.wire, s.stream)
    && Base(m) <= n <= m && s.mark <= n && s.delivered == s.stream[..n]
    && FlightOk(s.flight, s.wire) && (forall t :: 0 <= t < |s.flight| ==> n <= s.flight[t].k)
    && AcksOk(s.ack, m, n) && SavedOk(s.len, s.buf, s.wire)
    && (forall k :: s.mark <= k < m - 1 ==> |s.wire[k]| == ON_WIRE_SIZE)
  }

  /** The packets not yet delivered are all in flight, in order. */
  ghost predicate InOrder(s: State) {
    |s.flight| == |s.wire| - |s.delivered| && forall t :: 0 <= t < |s.flight| ==> s.flight[t].k == |s.delivered| + t
  }

  lemma Sizes(s: State)
    requires Agreed(s)
    ensures |s.ack| == |s.len| == |s.buf| == WND_SIZE && |s.stream| == |s.wire| && AcksOk(s.ack, |s.wire|, |s.delivered|)
    ensures Base(|s.wire|) <= |s.delivered| <= |s.wire| && s.delivered <= s.stream
  {
  }

  /** Packet k has just left the flight. */
  ghost predicate Landing(s: State, k: nat) {
    && Base(|s.wire|) <= |s.delivered| <= k < |s.wire| && k < |s.stream| && k % WND_SIZE == k - Base(|s.wire|) < |s.ack|
    && (k % WND_SIZE == |s.delivered| % WND_SIZE <==> k == |s.delivered|)
    && Decode(s.wire[k]) == View(true, k % WND_SIZE, s.stream[k])
    && (forall t :: 0 <= t < |s.flight| ==> s.flight[t].k != k)
  }

  lemma Landed(s: State, p: nat)
    requires Agreed(s) && p < |s.flight|
    ensures var u := s.(flight := Without(s.flight, p));
            Agreed(u) && Landing(u, s.flight[p].k) && s.flight[p].frame == s.wire[s.flight[p].k]
  {
    hide Decode, SavedOk, AcksOk, Base, FlightOk, Transmitted, Without;
    FlightShrinks(s.flight, s.wire, p);
    FlightFrame(s.flight, s.wire, s.stream, p);
    SlotOf(Base(|s.wire|), s.flight[p].k);
    SameResidue(s.flight[p].k, |s.delivered|);
  }

  lemma AckedState(s: State, k: nat)
    requires Agreed(s) && Landing(s, k) && k == |s.delivered|
    ensures Agreed(s.(delivered := s.delivered + [s.stream[k]], ack := s.ack[k % WND_SIZE := RecvAck]))
  {
    hide Decode, SavedOk, FlightOk, Transmitted, Base;
  }

  lemma NackedState(s: State, k: nat)
    requires Agreed(s) && Landing(s, k)
    ensures Agreed(s.(ack := s.ack[k % WND_SIZE := Idle]))
  {
    hide Decode, SavedOk, FlightOk, Transmitted, Base;
  }

  lemma MarkedState(s: State)
    requires Agreed(s) && |s.delivered| == |s.wire|
    ensures Agreed(s.(mark := |s.wire|))
  {
    hide Decode, SavedOk, FlightOk, Transmitted, AcksOk, Base;
  }

  lemma LaunchedState(s: State, frame: Bytes, payload: Bytes, len: seq<nat>, buf: seq<Bytes>)
    requires Agreed(s) && (|s.wire| % WND_SIZE == 0 ==> |s.delivered| == |s.wire|) && |len| == |buf| == WND_SIZE
    requires Decode(frame) == View(true, |s.wire| % WND_SIZE, payload)
    requires forall k :: s.mark <= k < |s.wire| ==> |s.wire[k]| == ON_WIRE_SIZE
    requires forall j :: 0 <= j < WND_SIZE && j != |s.wire| % WND_SIZE ==> len[j] == s.len[j] && buf[j] == s.buf[j]
    requires var i := |s.wire| % WND_SIZE; len[i] == |frame| <= ON_WIRE_SIZE == |buf[i]| && Cut(buf[i], len[i]) == frame
    ensures var u := State(s.wire + [frame], s.stream + [payload], s.flight + [Transmission(|s.wire|, frame)], s.mark,
                           s.delivered, s.ack[|s.wire| % WND_SIZE := Idle], len, buf);
            Agreed(u) && (InOrder(s) ==> InOrder(u))
  {
    hide Decode, FlightOk, SavedOk, AcksOk, Transmitted, Base, Cut;
    var m := |s.wire|;
    BaseStep(m);
    AcksGrow(s.ack, m, |s.delivered|);
    SavedGrows(s.len, s.buf, len, buf, s.wire, frame);
    TransmittedGrows(s.wire, s.stream, frame, payload);
    FlightGrows(s.flight, s.wire, frame);
  }

  /** In the part of the window not yet delivered only the last frame can be short, and the slots
      hold the frames first transmitted. */
  lemma OnlyLastShort(s: State, i: nat)
    requires Agreed(s) && Base(|s.wire|) + i == |s.delivered| < |s.wire|
    ensures var last := |s.wire| - 1 - Base(|s.wire|);
            && (forall j :: i <= j < last ==> s.len[j] == ON_WIRE_SIZE == |s.buf[j]|)
            && (forall j :: i <= j <= last ==> Cut(s.buf[j], s.len[j]) == s.wire[Base(|s.wire|) + j])
  {
    hide Decode, Transmitted, AcksOk, FlightOk, Base, Cut;
    forall j | i <= j < |s.wire| - 1 - Base(|s.wire|)
      ensures s.len[j] == ON_WIRE_SIZE == |s.buf[j]|
    {
      assert |s.wire[Base(|s.wire|) + j]| == ON_WIRE_SIZE;
    }
  }

  lemma ResentState(s: State, slots: seq<nat>, frames: seq<Bytes>)
    requires Agreed(s) && |slots| == |frames| == |s.wire| - |s.delivered|
    requires forall t :: 0 <= t < |slots| ==> Base(|s.wire|) + slots[t] == |s.delivered| + t
    requires forall t :: 0 <= t < |frames| ==> frames[t] == s.wire[|s.delivered| + t]
    ensures var u := s.(flight := Carried(Base(|s.wire|), slots, frames)); Agreed(u) && InOrder(u)
  {
    hide Decode, Transmitted, AcksOk, SavedOk, Base;
  }

  /** What has been put in flight: the frames of the slots of all rounds, in order. */
  ghost predicate Resends(before: seq<Transmission>, after: seq<Transmission>, base: nat, log: seq<Round>, frames: seq<Bytes>) {
    |frames| == |AllResent(log)| && after == before + Carried(base, AllResent(log), frames)
  }

  lemma ResendsNone(flight: seq<Transmission>, base: nat)
    ensures Resends(flight, flight, base, [], []) && AllResent([]) == []
  {
    assert flight + Carried(base, [], []) == flight;
  }

  lemma ResendsMore(before: seq<Transmission>, flight: seq<Transmission>, base: nat, log: seq<Round>, frames: seq<Bytes>, x: Round, more: seq<Bytes>)
    requires Resends(before, flight, base, log, frames) && |more| == |x.resent|
    ensures Resends(before, flight + Carried(base, x.resent, more), base, log + [x], frames + more)
  {
    hide Carried, AllResent;
    ResentNext(log, x);
    CarriedJoin(base, AllResent(log), frames, x.resent, more);
  }

  class Link {
    const w: SendWindow
    const r: Receiver
    const fate: nat -> Fate    // the environment's choices, one per network step
    const lull: nat -> nat     // how many network steps fit before the next packet is sent
    var clock: nat
    var flight: seq<Transmission>
    var wire: seq<Bytes>          // the frames first transmitted
    ghost var stream: seq<Bytes>  // the payloads handed to the sender
    ghost var mark: nat           // length of the stream at the last flush
    ghost var settled: nat        // disturbances before the window was last sent in full

    /** The disturbances of the network so far. */
    ghost function Disturbances(): nat
      reads this`clock
    {
      Count(fate, Disturbs, clock)
    }

    ghost function View(): State
      reads this`flight, this`wire, this`stream, this`mark, w, r
    {
      State(wire, stream, flight, mark, r.delivered, w.ackWnd, w.lenWnd, w.bufWnd)
    }

    ghost predicate Core()
      reads this`flight, this`wire, this`stream, this`mark, w, r
    {
      && w.Valid() && w.initial == Idle && w.onNack == Idle && r.Valid() && w.numSeq == |wire| % WND_SIZE
      && Agreed(View())
    }

    /** Window, network and receiver agree, and only a disturbance can have put the flight out of order. */
    ghost predicate Inv()
      reads this, w, r
    {
      Core() && settled <= Disturbances() && (Disturbances() == settled ==> InOrder(View()))
    }

    /** Between two calls of the egress program every packet since the last flush was full-sized,
        and a completed run of sixteen has been delivered in full. */
    ghost predicate Ready()
      reads this, w, r
    {
      && Inv()
      && (forall k :: mark <= k < |wire| ==> |wire[k]| == ON_WIRE_SIZE)
      && (|wire| % WND_SIZE == 0 ==> |r.delivered| == |wire|)
    }

    constructor (truncates: bool, quiet: bool, script: nat -> seq<Feedback>, fate: nat -> Fate, lull: nat -> nat)
      ensures Ready() && mark == 0 && r.delivered == [] && flight == [] && wire == [] && stream == [] && fresh(w) && fresh(r)
      ensures w.quiet == quiet && this.fate == fate && clock == settled == 0
    {
      w := new SendWindow(Idle, Idle, truncates, quiet, script);
      r := new Receiver();
      this.fate, this.lull, clock := fate, lull, 0;
      flight, wire, stream, mark, settled := [], [], [], 0, 0;
    }

    /** A frame reaches the receiver, and the feedback it causes is recorded. */
    method Deliver(ghost k: nat, arrived: Bytes, socket: bool)
      requires Core() && Landing(View(), k)
      requires arrived == wire[k] || Detected(wire[k], arrived)
      modifies w`ackWnd, r
      ensures Core() && old(|r.delivered|) <= |r.delivered|
      ensures arrived == wire[k] && socket && k == old(|r.delivered|) ==> |r.delivered| == k + 1
    {
      hide Decode, Agreed, Base;
      if k == |r.delivered| {
        AckedState(View(), k);
      }
      NackedState(View(), k);
      Sizes(View());
      var feedback := r.Receive(arrived, socket);
      if feedback.Some? {
        w.Listen(feedback.value);
      }
    }

    /** One frame in flight meets its fate. */
    method Meet(f: Fate)
      requires Core() && flight != []
      modifies this`flight, w`ackWnd, r
      ensures Core() && flight == Without(old(flight), Picked(f, old(|flight|))) && old(|r.delivered|) <= |r.delivered|
      ensures !Disturbs(f) && old(flight[0].k == |r.delivered|) ==> |r.delivered| == old(|r.delivered|) + 1
    {
      hide Decode, Picked, Agreed, Landing, Without, Base;
      var p := Picked(f, |flight|);
      var x := flight[p];
      Landed(View(), p);
      flight := Without(flight, p);
      match f {
        case Lose(_) =>
        case Corrupt(_, garbage) =>
          if Detected(x.frame, garbage) {
            Deliver(x.k, garbage, true);
          }
        case Arrive(_, socket) =>
          Deliver(x.k, x.frame, socket);
      }
    }

    /** One network step. Unless it is a disturbance, it keeps the flight in order. */
    method NetworkStep()
      requires Inv() && flight != []
      modifies this`clock, this`flight, w`ackWnd, r
      ensures Inv()
      ensures |flight| == old(|flight|) - 1 && clock == old(clock) + 1 && old(|r.delivered|) <= |r.delivered|
    {
      hide Core, Picked;
      Meet(fate(clock));
      clock := clock + 1;
    }

    /** Up to `steps` network steps. */
    method Network(steps: nat)
      requires Inv()
      modifies this`clock, this`flight, w`ackWnd, r
      ensures Inv()
      ensures old(|r.delivered|) <= |r.delivered|
      ensures old(|flight|) <= steps ==> flight == []
      ensures clock + |flight| == old(clock + |flight|)
    {
      hide Inv;
      var i := 0;
      while i < steps && flight != []
        invariant i <= steps && Inv()
        invariant old(|r.delivered|) <= |r.delivered| && |flight| == old(|flight|) - i && clock == old(clock) + i
      {
        NetworkStep();
        i := i + 1;
      }
    }

    /** The flush is for the run of sixteen that the last packet belongs to. */
    ghost predicate Flushing(skb: Bytes, last: nat, lastLen: nat)
      reads this, w, r
    {
      && Inv() && 0 < |wire| && last == |wire| - 1 - Base(|wire|) && last < WND_SIZE
      && lastLen == w.lenWnd[last] && Reloadable(skb, w.bufWnd[last], w.lenWnd[last])
    }

    /** The ten-millisecond wait. In a quiet window it is long enough for every frame in flight to
        meet its fate; otherwise anything may be recorded meanwhile. */
    method Wait(ghost skb: Bytes, ghost last: nat, ghost lastLen: nat)
      requires w.Valid() && (w.quiet ==> Flushing(skb, last, lastLen))
      modifies this`clock, this`flight, w`ackWnd, w`tick, r
      ensures w.Valid()
      ensures w.quiet ==> Flushing(skb, last, lastLen) && flight == [] && old(|r.delivered|) <= |r.delivered|
      ensures !w.quiet ==> w.ackWnd == Showing(old(w.ackWnd), w.Ears(), old(w.tick), 1) && w.tick == old(w.tick) + 1 && flight == old(flight)
      ensures clock + |flight| == old(clock + |flight|)
    {
      hide Reloadable, Agreed, InOrder, Disturbances, Base;
      if w.quiet {
        Network(|flight|);
      } else {
        w.Interfere();
      }
    }

    /** The scan of a round. In a quiet window it stops at the first packet that has not been delivered. */
    method Look(cursor: nat, last: nat, ghost skb: Bytes, ghost lastLen: nat) returns (i: nat, lost: bool, seen: seq<Event>)
      requires w.Valid() && cursor <= last < WND_SIZE
      requires w.quiet ==> Flushing(skb, last, lastLen) && Base(|wire|) + cursor <= |r.delivered|
      modifies w`ackWnd, w`tick
      ensures w.Valid() && cursor <= i
      ensures lost ==> i <= last && Losing(Round(cursor, seen, Interval(i, last + 1)), last) && |seen| == i - cursor + 1
      ensures !lost ==> Clean(Round(cursor, seen, []), last)
      ensures Saw(seen, cursor, old(w.ackWnd), w.Ears(), old(w.tick))
      ensures w.tick == old(w.tick) + |seen| && w.ackWnd == Showing(old(w.ackWnd), w.Ears(), old(w.tick), |seen|)
      ensures w.quiet ==> Flushing(skb, last, lastLen) && |r.delivered| == if lost then Base(|wire|) + i else |wire|
    {
      hide Agreed, InOrder, Disturbances, Base, Reloadable, Showing, Saw;
      i, lost, seen := Scan(w, cursor, last);
      if w.quiet {
        Sizes(View());
        assert lost ==> seen[i - cursor] == w.ackWnd[i];
        assert cursor < i ==> seen[i - 1 - cursor] == w.ackWnd[i - 1];
      }
    }

    /** The retransmission part of a losing round. */
    method GoBack(i: nat, last: nat, skb0: Bytes, lastLen: nat) returns (skb: Bytes, slots: seq<nat>, frames: seq<Bytes>)
      requires w.Valid() && i <= last < WND_SIZE
      requires w.quiet ==> Flushing(skb0, last, lastLen) && flight == [] && Base(|wire|) + i == |r.delivered|
      modifies this`flight, this`settled
      ensures slots == Interval(i, last + 1) && |frames| == |slots|
      ensures flight == old(flight) + Carried(Base(|wire|), slots, frames)
      ensures w.Faithful(skb0, last, lastLen) ==> w.Faithful(skb, last, lastLen) && w.Copies(frames, slots)
      ensures w.quiet ==> old(settled) < settled == Disturbances()
      ensures w.quiet ==> Flushing(skb, last, lastLen)
    {
      hide Agreed, Reloadable, Disturbances, InOrder, Base, Cut, SendWindow.Faithful, SendWindow.Copies;
      if w.quiet {
        Undelivered(skb0, last, lastLen);
        OnlyLastShort(View(), i);
      }
      skb, frames, slots := w.ResendFrom(i, last, skb0, lastLen);
      if w.quiet {
        ResentState(View(), slots, frames);
        assert [] + Carried(Base(|wire|), slots, frames) == Carried(Base(|wire|), slots, frames);
      }
      flight := flight + Carried(Base(|wire|), slots, frames);
      settled := Disturbances();
    }

    /** A wait after which something is missing has met a disturbance. */
    lemma Undelivered(skb: Bytes, last: nat, lastLen: nat)
      requires Flushing(skb, last, lastLen) && flight == []
      ensures Inv() && (|r.delivered| != |wire| ==> Disturbances() > settled)
    {
      hide Core, Disturbances;
    }

    lemma RunBegun(skb: Bytes, last: nat, lastLen: nat)
      requires Flushing(skb, last, lastLen)
      ensures Base(|wire|) <= |r.delivered|
    {
      Sizes(View());
    }

    /** One round after its wait: the scan, and the retransmission if it found a slot unacknowledged. */
    method Turn(cursor: nat, last: nat, skb0: Bytes, lastLen: nat) returns (lost: bool, x: Round, skb: Bytes, more: seq<Bytes>)
      requires w.Valid() && cursor <= last < WND_SIZE
      requires w.quiet ==> Flushing(skb0, last, lastLen) && flight == [] && Base(|wire|) + cursor <= |r.delivered|
      modifies this`flight, this`settled, w`ackWnd, w`tick
      ensures w.Valid() && x.cursor == cursor && if lost then Losing(x, last) else Clean(x, last)
      ensures lost ==> |x.seen| > 0 && cursor + |x.seen| - 1 <= last
      ensures Saw(x.seen, cursor, old(w.ackWnd), w.Ears(), old(w.tick))
      ensures w.tick == old(w.tick) + |x.seen| && w.ackWnd == Showing(old(w.ackWnd), w.Ears(), old(w.tick), |x.seen|)
      ensures |more| == |x.resent| <= WND_SIZE && flight == old(flight) + Carried(Base(|wire|), x.resent, more)
      ensures w.Faithful(skb0, last, lastLen) ==> w.Faithful(skb, last, lastLen) && w.Copies(more, x.resent)
      ensures w.quiet ==> Flushing(skb, last, lastLen)
      ensures w.quiet && lost ==> old(settled) < settled && Base(|wire|) + cursor + |x.seen| - 1 <= |r.delivered|
      ensures w.quiet && !lost ==> |r.delivered| == |wire| && flight == [] && settled == old(settled)
    {
      hide Inv, Reloadable, Losing, Clean, Disturbances, Base, Showing, Saw, SendWindow.Faithful, SendWindow.Copies;
      skb, more := skb0, [];
      var i, seen;
      i, lost, seen := Look(cursor, last, skb, lastLen);
      if lost {
        var slots;
        skb, slots, more := GoBack(i, last, skb, lastLen);
        x := Round(cursor, seen, slots);
      } else {
        x := Round(cursor, seen, []);
        w.NoCopies();
        assert flight + Carried(Base(|wire|), [], []) == flight;
      }
    }

    /** The wait, scan and resend loop. Whatever the listener hears, every round saw what the slots
        showed, and what was put in flight are the frames of the slots of the rounds, in order, each
        as it was saved. */
    method Flush(skb0: Bytes, last: nat, lastLen: nat) returns (log: seq<Round>, exhausted: bool, frames: seq<Bytes>)
      requires w.Valid() && last < WND_SIZE
      requires w.quiet ==> Flushing(skb0, last, lastLen)
      modifies this`clock, this`flight, this`settled, w`ackWnd, w`tick, r
      ensures w.Valid() && FlushLog(log, last, exhausted)
      ensures !w.quiet ==> Tracked(log, old(w.ackWnd), w.Ears(), old(w.tick), if exhausted then 1 else 0, w.ackWnd, w.tick)
      ensures !w.quiet ==> Resends(old(flight), flight, Base(|wire|), log, frames)
      ensures w.Faithful(skb0, last, lastLen) ==> w.Copies(frames, AllResent(log))
      ensures w.quiet ==> Inv() && flight == [] && old(settled) <= settled
      ensures w.quiet && !exhausted ==> |r.delivered| == |wire|
      ensures w.quiet && |r.delivered| != |wire| ==> exhausted && Disturbances() > old(settled) + RETX_MAX
      ensures clock + |flight| <= old(clock + |flight|) + WND_SIZE * RETX_MAX
    {
      hide Inv, Reloadable, Losing, Clean, Disturbances, Base, Showing, Saw, Tracked, AllResent, Carried, Resends,
           LosingLog, FlushLog, SendWindow.Faithful, SendWindow.Copies;
      var skb := skb0;
      var cursor: nat, txNum: nat := 0, 0;
      log, exhausted, frames := [], false, [];
      TrackedNone(w.ackWnd, w.Ears(), w.tick);
      ResendsNone(flight, Base(|wire|));
      LogBegins(last);
      w.NoCopies();
      if w.quiet {
        RunBegun(skb, last, lastLen);
      }
      while true
        invariant w.Valid() && cursor <= last && txNum == |log| <= RETX_MAX
        invariant w.quiet ==> Flushing(skb, last, lastLen) && Base(|wire|) + cursor <= |r.delivered|
        invariant LosingLog(log, last, cursor)
        invariant !w.quiet ==> Tracked(log, old(w.ackWnd), w.Ears(), old(w.tick), 0, w.ackWnd, w.tick)
        invariant !w.quiet ==> Resends(old(flight), flight, Base(|wire|), log, frames)
        invariant old(w.Faithful(skb0, last, lastLen)) ==> w.Faithful(skb, last, lastLen) && w.Copies(frames, AllResent(log))
        invariant w.quiet ==> settled >= old(settled) + txNum
        invariant clock + |flight| <= old(clock + |flight|) + WND_SIZE * txNum
        decreases RETX_MAX - txNum
      {
        ghost var acks, ticks := w.ackWnd, w.tick;
        Wait(skb, last, lastLen);
        if w.quiet {
          Undelivered(skb, last, lastLen);
        } else {
          TrackedWait(log, old(w.ackWnd), w.Ears(), old(w.tick), acks, ticks);
        }
        txNum := txNum + 1;
        if txNum > RETX_MAX {
          LogExhausts(log, last, cursor);
          exhausted := true;
          break;
        }
        ghost var now, tick, sofar := w.ackWnd, w.tick, flight;
        var lost, x, more;
        lost, x, skb, more := Turn(cursor, last, skb, lastLen);
        if !w.quiet {
          TrackedRound(log, old(w.ackWnd), w.Ears(), old(w.tick), now, tick, x);
          ResendsMore(old(flight), sofar, Base(|wire|), log, frames, x, more);
        }
        if w.Faithful(skb0, last, lastLen) {
          w.CopiesJoin(frames, AllResent(log), more, x.resent);
        }
        ResentNext(log, x);
        frames := frames + more;
        if !lost {
          LogEnds(log, last, x);
          log := log + [x];
          break;
        }
        LosingLogGrows(log, last, x);
        log := log + [x];
        cursor := cursor + |x.seen| - 1;
      }
    }

    /** The egress program up to the first transmission of a packet. */
    method Launch(packet: Bytes) returns (a: Admission)
      requires Ready() && WellFormed(packet)
      modifies this`flight, this`wire, this`stream, w
      ensures HDR_LEN < |packet| <= ON_WIRE_SIZE
      ensures a.Admitted? && Flushing(a.frame, a.slot, |packet|)
      ensures stream == old(stream) + [Payload(packet)] && wire == old(wire) + [a.frame] && |a.frame| == |packet|
      ensures a.flush == (old(|wire|) % WND_SIZE == WND_SIZE - 1 || |packet| < ON_WIRE_SIZE)
      ensures |flight| == old(|flight|) + 1
    {
      hide Departs, Checksum, PayloadLen, Resize, Agreed, Decode, WellFormed, Base, Payload, InOrder, Disturbances;
      WellFormedFacts(packet);
      ghost var s := View();
      var m := |wire|;
      BaseStep(m);
      a := w.Admit(packet);
      LaunchedState(s, a.frame, Payload(packet), w.lenWnd, w.bufWnd);
      wire, stream := wire + [a.frame], stream + [Payload(packet)];
      flight := flight + [Transmission(m, a.frame)];
    }

    lemma Marked()
      requires Inv()
      ensures mark <= |r.delivered|
    {
      hide Decode, AcksOk, Base, InOrder, Disturbances;
    }

    lemma Shape()
      requires Inv()
      ensures w.Valid() && |stream| == |wire| && Base(|wire|) <= |r.delivered| <= |wire| && r.delivered <= stream
      ensures AcksOk(w.ackWnd, |wire|, |r.delivered|)
    {
      hide Agreed, AcksOk, Base, InOrder, Disturbances;
      Sizes(View());
    }

    /** Everything sent has been delivered. */
    ghost method Finish()
      requires Inv() && |r.delivered| == |wire|
      modifies this`mark
      ensures Inv() && mark == |wire|
    {
      hide Agreed, Base, Disturbances;
      MarkedState(View());
      mark := |wire|;
    }

    /** Flush the window; `complete` tells whether every slot was left acknowledged. */
    method Drain(skb: Bytes, last: nat, lastLen: nat) returns (complete: bool)
      requires w.quiet && last < WND_SIZE && Flushing(skb, last, lastLen)
      modifies this`clock, this`flight, this`mark, this`settled, w`ackWnd, w`tick, r
      ensures Inv() && (complete <==> |r.delivered| == |wire|) && (complete ==> Ready()) && old(settled) <= settled
      ensures mark == if complete then |wire| else old(mark)
      ensures !complete ==> Disturbances() > old(settled) + RETX_MAX
      ensures clock + |flight| <= old(clock + |flight|) + WND_SIZE * RETX_MAX
    {
      hide Inv, Base, FlushLog, Reloadable, Disturbances, AcksOk;
      Shape();
      var log, exhausted, frames := Flush(skb, last, lastLen);
      Shape();
      complete := forall s :: 0 <= s <= last ==> w.ackWnd[s] == RecvAck;
      AllAcked(w.ackWnd, |wire|, |r.delivered|);
      if complete {
        Finish();
      }
    }

    /** The egress program on one packet. `complete` tells whether the flush, if there was one,
        left every slot of the window acknowledged. */
    method Send(packet: Bytes) returns (flushed: bool, complete: bool)
      requires Ready() && w.quiet && WellFormed(packet)
      modifies this, w, r
      ensures Inv() && stream == old(stream) + [Payload(packet)] && r.delivered <= stream
      ensures flushed == (old(|stream|) % WND_SIZE == WND_SIZE - 1 || |packet| < ON_WIRE_SIZE)
      ensures mark == if flushed && complete then |stream| else old(mark)
      ensures old(mark) <= mark
      ensures if flushed then complete <==> r.delivered == stream else complete
      ensures (complete ==> Ready()) && old(settled) <= settled
      ensures !complete ==> Disturbances() > old(settled) + RETX_MAX
      ensures clock + |flight| <= old(clock + |flight|) + 1 + WND_SIZE * RETX_MAX
    {
      hide Inv, WellFormed, Base, Payload, Reloadable, Disturbances, AcksOk;
      BaseStep(|wire|);
      Marked();
      Shape();
      var a := Launch(packet);
      flushed, complete := a.flush, true;
      if a.flush {
        complete := Drain(a.frame, a.slot, |packet|);
      } else {
        Network(lull(|wire|));
      }
      Shape();
    }
  }

  /** Go-Back-N end to end. For every sequence of packets, every choice of loss, reordering and
      detected corruption in each round, and either behaviour of an over-long store: what has been
      delivered is always a prefix of what was sent; every flush that leaves no slot unacknowledged
      has delivered everything sent so far; and a flush that leaves one has not. The transfer stops
      at the first flush of the second kind, and that takes a network that disturbs the window more
      than RETX_MAX times: each retransmission succeeds unless the network prevents it. `steps` is
      the number of network steps, one per frame sent and no longer in flight. */
  method Transfer(packets: seq<Bytes>, truncates: bool, fate: nat -> Fate, lull: nat -> nat)
      returns (delivered: seq<Bytes>, taken: nat, complete: bool, steps: nat)
    requires AllWellFormed(packets)
    ensures taken <= |packets| && delivered <= Payloads(packets[..taken])
    ensures complete ==> taken == |packets|
    ensures !complete ==> 0 < taken && |delivered| < taken && Count(fate, Disturbs, steps) > RETX_MAX
    ensures !complete ==> FlushAfter(packets, taken)
    ensures Flushed(packets, taken, complete, |delivered|)
    ensures complete && packets != [] && (|packets| % WND_SIZE == 0 || |packets[|packets| - 1]| < ON_WIRE_SIZE) ==>
              delivered == Payloads(packets)
    ensures steps <= (1 + WND_SIZE * RETX_MAX) * taken
    ensures (forall c :: fate(c) == Arrive(0, true)) ==> complete
  {
    hide Decode, WellFormed, Link.Inv, Flushed, FlushAfter;
    FlushedNone(packets);
    var link := new Link(truncates, true, _ => [], fate, lull);
    var flushed := false;
    taken, complete := 0, true;
    while taken < |packets| && complete
      invariant taken <= |packets| && fresh(link) && fresh(link.w) && fresh(link.r) && link.w.quiet && link.fate == fate
      invariant link.stream == Payloads(packets[..taken]) && link.r.delivered <= link.stream
      invariant if complete then link.Ready() else 0 < taken && flushed && link.r.delivered != link.stream && link.Inv()
      invariant !complete ==> link.Disturbances() > RETX_MAX
      invariant 0 < taken && flushed && complete ==> link.r.delivered == link.stream
      invariant 0 < taken ==> (flushed <==> FlushAfter(packets, taken))
      invariant Flushed(packets, taken, complete, link.mark)
      invariant link.clock + |link.flight| <= (1 + WND_SIZE * RETX_MAX) * taken
    {
      ghost var mark := link.mark;
      FlushAfterNext(packets, taken);
      flushed, complete := link.Send(packets[taken]);
      FlushedNext(packets, taken, mark, complete, link.mark);
      assert packets[..taken + 1] == packets[..taken] + [packets[taken]];
      taken := taken + 1;
    }
    link.Marked();
    FlushedMore(packets, taken, complete, link.mark, |link.r.delivered|);
    FlushAfterAll(packets);
    assert packets[..|packets|] == packets;
    delivered, steps := link.r.delivered, link.clock;
    if forall c :: fate(c) == Arrive(0, true) {
      CountNone(fate, Disturbs, steps);
    }
  }
}
