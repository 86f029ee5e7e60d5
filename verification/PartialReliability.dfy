/** Partial reliability (XTFsPool/store/egress_partial_graft.c): each round of the flush lets up to
    DEFAULT_LOSS refused slots pass before it goes back. */
module PartialReliability {
  import opened Wire
  import opened Window

  const DEFAULT_LOSS: nat := 2

  ghost function NackSet(seen: seq<Event>): set<nat> {
    set i: nat | i < |seen| && seen[i] == RecvNack
  }

  lemma NackSetGrows(seen: seq<Event>, e: Event)
    ensures |NackSet(seen + [e])| == |NackSet(seen)| + if e == RecvNack then 1 else 0
  {
    if e == RecvNack {
      assert NackSet(seen + [e]) == NackSet(seen) + {|seen|};
    } else {
      assert NackSet(seen + [e]) == NackSet(seen);
    }
  }

  lemma NoNacks()
    ensures NackSet([]) == {}
  {
  }

  /** A round whose scan met one refused slot too many: it stops there and resends from there on. */
  ghost predicate Losing(r: Round, last: nat) {
    && |r.seen| > 0 && r.cursor + |r.seen| <= last + 1
    && |NackSet(r.seen[..|r.seen| - 1])| == DEFAULT_LOSS
    && r.seen[|r.seen| - 1] == RecvNack
    && r.resent == Interval(r.cursor + |r.seen| - 1, last + 1)
  }

  /** A round whose scan reached the end of the window. */
  ghost predicate Tolerated(r: Round, last: nat) {
    && r.cursor + |r.seen| == last + 1
    && |NackSet(r.seen)| <= DEFAULT_LOSS
    && r.resent == []
  }

  ghost predicate LosingLog(log: seq<Round>, last: nat, cursor: nat) {
    && Chained(log)
    && (forall r :: 0 <= r < |log| ==> Losing(log[r], last))
    && cursor == NextStart(log)
  }

  ghost predicate NormalExit(log: seq<Round>, last: nat) {
    && 0 < |log| <= RETX_MAX
    && LosingLog(log[..|log| - 1], last, log[|log| - 1].cursor)
    && Tolerated(log[|log| - 1], last)
  }

  lemma LosingLogGrows(log: seq<Round>, last: nat, r: Round)
    requires LosingLog(log, last, r.cursor) && Losing(r, last)
    ensures LosingLog(log + [r], last, r.cursor + |r.seen| - 1)
  {
    hide NackSet, Interval;
    assert log != [] ==> Losing(log[|log| - 1], last);
    ChainedGrows(log, r);
  }

  /** The event under which each slot below the cursor was passed over, slot by slot: a losing
      round passes over everything it saw but the slot it stopped at. */
  ghost function PassedOver(log: seq<Round>): seq<Event>
    requires forall r :: 0 <= r < |log| ==> |log[r].seen| > 0
  {
    if log == [] then []
    else
      var r := log[|log| - 1];
      PassedOver(log[..|log| - 1]) + r.seen[..|r.seen| - 1]
  }

  lemma NackSetJoin(a: seq<Event>, b: seq<Event>)
    ensures |NackSet(a + b)| == |NackSet(a)| + |NackSet(b)|
    decreases |b|
  {
    if b == [] {
      assert a + b == a && NackSet(b) == {};
    } else {
      var c, e := b[..|b| - 1], b[|b| - 1];
      assert b == c + [e] && a + b == (a + c) + [e];
      NackSetJoin(a, c);
      NackSetGrows(a + c, e);
      NackSetGrows(c, e);
    }
  }

  lemma {:induction false} PassedOverNacks(log: seq<Round>, last: nat, cursor: nat)
    requires LosingLog(log, last, cursor)
    ensures |PassedOver(log)| == cursor
    ensures |NackSet(PassedOver(log))| == DEFAULT_LOSS * |log|
  {
    hide NackSet, Interval;
    if log == [] {
      NoNacks();
    } else {
      var r := log[|log| - 1];
      var rest := log[..|log| - 1];
      assert Losing(r, last) && (rest != [] ==> Losing(rest[|rest| - 1], last));
      PassedOverNacks(rest, last, r.cursor);
      NackSetJoin(PassedOver(rest), r.seen[..|r.seen| - 1]);
    }
  }

  lemma {:induction false} NackCount(seen: seq<Event>)
    ensures |NackSet(seen)| == multiset(seen)[RecvNack]
  {
    if seen == [] {
      NoNacks();
    } else {
      var front, e := seen[..|seen| - 1], seen[|seen| - 1];
      NackCount(front);
      NackSetGrows(front, e);
      assert seen == front + [e];
    }
  }

  /** Each losing round leaves exactly DEFAULT_LOSS refused slots behind the cursor. */
  lemma LeftBehind(log: seq<Round>, last: nat, cursor: nat)
    requires LosingLog(log, last, cursor)
    ensures |PassedOver(log)| == cursor && multiset(PassedOver(log))[RecvNack] == 2 * |log|
  {
    hide PassedOver, NackSet, Losing;
    LosingAll(log, last, cursor);
    PassedOverNacks(log, last, cursor);
    NackCount(PassedOver(log));
  }

  lemma LosingAll(log: seq<Round>, last: nat, cursor: nat)
    requires LosingLog(log, last, cursor)
    ensures forall r :: 0 <= r < |log| ==> |log[r].seen| > 0
  {
    hide NackSet, Interval;
    assert forall r :: 0 <= r < |log| ==> Losing(log[r], last);
  }

  /** On a normal exit every slot of the window was passed over once, and in |log| rounds at most
      DEFAULT_LOSS * |log| of them were refused when they were. */
  lemma LossIsBounded(log: seq<Round>, last: nat)
    requires NormalExit(log, last)
    ensures var events := PassedOver(log[..|log| - 1]) + log[|log| - 1].seen;
            && |events| == last + 1
            && 2 * (|log| - 1) <= multiset(events)[RecvNack] <= 2 * |log|
  {
    hide NackSet;
    var r := log[|log| - 1];
    PassedOverNacks(log[..|log| - 1], last, r.cursor);
    NackSetJoin(PassedOver(log[..|log| - 1]), r.seen);
    NackCount(PassedOver(log[..|log| - 1]) + r.seen);
  }

  lemma NackSetPrefix(seen: seq<Event>, n: nat)
    requires n <= |seen|
    ensures |NackSet(seen[..n])| <= |NackSet(seen)|
  {
    assert seen == seen[..n] + seen[n..];
    NackSetJoin(seen[..n], seen[n..]);
  }

  /** A losing scan has met one refused slot too many. */
  lemma LosingCount(x: Round, last: nat)
    requires Losing(x, last)
    ensures |NackSet(x.seen)| == DEFAULT_LOSS + 1
  {
    var n := |x.seen| - 1;
    assert x.seen == x.seen[..n] + [x.seen[n]];
    NackSetGrows(x.seen[..n], x.seen[n]);
  }

  lemma RoundsAgreeIf(a: Round, b: Round, last: nat)
    requires (Losing(a, last) || Tolerated(a, last)) && (Losing(b, last) || Tolerated(b, last)) && a.cursor == b.cursor
    requires |a.seen| <= |b.seen| && forall t :: 0 <= t < |a.seen| ==> a.seen[t] == b.seen[t]
    ensures a == b
  {
    hide Interval, NackSet;
    assert b.seen[..|a.seen|] == a.seen;
    if |a.seen| < |b.seen| {
      LosingCount(a, last);
      NackSetPrefix(b.seen, |a.seen|);
      assert b.seen[..|b.seen| - 1][..|a.seen|] == a.seen;
      NackSetPrefix(b.seen[..|b.seen| - 1], |a.seen|);
      assert false;
    }
    assert a.seen == b.seen;
    if Losing(a, last) {
      LosingCount(a, last);
    }
    if Losing(b, last) {
      LosingCount(b, last);
    }
  }

  /** The rounds of a flush, however it ends. */
  ghost predicate FlushLog(log: seq<Round>, last: nat, exhausted: bool) {
    if exhausted then |log| == RETX_MAX && exists cursor :: LosingLog(log, last, cursor) else NormalExit(log, last)
  }

  lemma FlushRounds(log: seq<Round>, last: nat, exhausted: bool)
    requires FlushLog(log, last, exhausted)
    ensures 0 < |log| <= RETX_MAX && Chained(log) && forall r :: 0 <= r < |log| - 1 ==> Losing(log[r], last)
    ensures if exhausted then |log| == RETX_MAX && Losing(log[|log| - 1], last) else Tolerated(log[|log| - 1], last)
  {
    hide Losing, Tolerated;
    if !exhausted {
      var front := log[..|log| - 1];
      assert forall r :: 0 <= r < |front| ==> front[r] == log[r];
      if front != [] {
        LosingSeen(front[|front| - 1], last);
      }
      ChainedGrows(front, log[|log| - 1]);
      assert front + [log[|log| - 1]] == log;
    }
  }

  /** What a round says: it stopped at the third refused slot and resends from there on, or has passed
      over the rest of the window with at most two. */
  lemma RoundMeans(x: Round, last: nat)
    ensures Losing(x, last) ==>
              && |x.seen| > 0 && x.seen[|x.seen| - 1] == RecvNack && multiset(x.seen[..|x.seen| - 1])[RecvNack] == 2
              && var stop := x.cursor + |x.seen| - 1;
                 stop <= last && |x.resent| == last + 1 - stop && forall k :: 0 <= k < |x.resent| ==> x.resent[k] == stop + k
    ensures Tolerated(x, last) ==> x.cursor + |x.seen| == last + 1 && x.resent == [] && multiset(x.seen)[RecvNack] <= 2
  {
    hide NackSet;
    NackCount(x.seen);
    if |x.seen| > 0 {
      NackCount(x.seen[..|x.seen| - 1]);
    }
  }

  lemma LosingSeen(x: Round, last: nat)
    requires Losing(x, last)
    ensures |x.seen| > 0
  {
  }

  lemma {:induction false} LogsAgree(a: seq<Round>, b: seq<Round>, last: nat, p: bool, q: bool, ack: seq<Event>, l: Listener, tick: nat, r: nat)
    requires FlushLog(a, last, p) && FlushLog(b, last, q) && Observed(a, ack, l, tick) && Observed(b, ack, l, tick)
    requires r <= |a| && r <= |b|
    ensures a[..r] == b[..r]
  {
    hide Losing, Tolerated, Observed, FlushLog;
    if r > 0 {
      FlushRounds(a, last, p);
      FlushRounds(b, last, q);
      LogsAgree(a, b, last, p, q, ack, l, tick, r - 1);
      ChainedAgree(a, b, r - 1);
      ObservedAgree(a, b, r - 1, ack, l, tick);
      if |a[r - 1].seen| <= |b[r - 1].seen| {
        RoundsAgreeIf(a[r - 1], b[r - 1], last);
      } else {
        RoundsAgreeIf(b[r - 1], a[r - 1], last);
      }
      assert a[..r] == a[..r - 1] + [a[r - 1]] && b[..r] == b[..r - 1] + [b[r - 1]];
    }
  }

  lemma LogIsDetermined(a: seq<Round>, b: seq<Round>, last: nat, p: bool, q: bool, ack: seq<Event>, l: Listener, tick: nat)
    requires FlushLog(a, last, p) && FlushLog(b, last, q) && Observed(a, ack, l, tick) && Observed(b, ack, l, tick)
    ensures a == b && p == q
  {
    hide Observed, FlushLog, NackSet;
    FlushRounds(a, last, p);
    FlushRounds(b, last, q);
    var r := if |a| < |b| then |a| else |b|;
    LogsAgree(a, b, last, p, q, ack, l, tick, r);
    var x := a[r - 1];
    assert x == a[..r][r - 1] == b[..r][r - 1] == b[r - 1];
    if Losing(x, last) {
      LosingCount(x, last);
    }
    assert |a| == |b|;
    assert a[..r] == a && b[..r] == b;
  }

  /** The slots at the start and what the listener hears determine the whole flush: which rounds run,
      what they see and resend, how it ends, and what the slots show then. */
  lemma FlushIsDetermined(a: seq<Round>, b: seq<Round>, last: nat, p: bool, q: bool, ack: seq<Event>, l: Listener, tick: nat,
                          x: seq<Event>, y: seq<Event>, u: nat, v: nat)
    requires FlushLog(a, last, p) && Tracked(a, ack, l, tick, if p then 1 else 0, x, u)
    requires FlushLog(b, last, q) && Tracked(b, ack, l, tick, if q then 1 else 0, y, v)
    ensures a == b && p == q && x == y && u == v
  {
    hide FlushLog, Observed, Looks, Showing;
    LogIsDetermined(a, b, last, p, q, ack, l, tick);
  }

  /** The scan: count refused slots from the cursor on and stop at one too many. Feedback may be
      recorded before each look. */
  method Scan(w: SendWindow, cursor: nat, last: nat) returns (i: nat, lost: bool, seen: seq<Event>)
    requires w.Valid() && cursor <= last < WND_SIZE
    modifies w`ackWnd, w`tick
    ensures w.Valid() && cursor <= i
    ensures lost ==> i <= last && |seen| == i - cursor + 1 && Losing(Round(cursor, seen, Interval(i, last + 1)), last)
    ensures !lost ==> Tolerated(Round(cursor, seen, []), last)
    ensures Saw(seen, cursor, old(w.ackWnd), w.Ears(), old(w.tick))
    ensures w.tick == old(w.tick) + |seen| && w.ackWnd == Showing(old(w.ackWnd), w.Ears(), old(w.tick), |seen|)
    ensures w.quiet ==> w.ackWnd == old(w.ackWnd) && forall t :: 0 <= t < |seen| ==> seen[t] == w.ackWnd[cursor + t]
  {
    hide Showing, Saw, NackSet, Interval;
    var lostPackets := 0;
    i, lost, seen := cursor, false, [];
    NoNacks();
    SawNothing(cursor, w.ackWnd, w.Ears(), w.tick);
    while i < WND_SIZE
      invariant w.Valid() && cursor <= i <= last + 1 && |seen| == i - cursor
      invariant lostPackets == |NackSet(seen)| <= DEFAULT_LOSS
      invariant Saw(seen, cursor, old(w.ackWnd), w.Ears(), old(w.tick)) && w.tick == old(w.tick) + |seen|
      invariant w.ackWnd == Showing(old(w.ackWnd), w.Ears(), old(w.tick), |seen|)
      invariant w.quiet ==> w.ackWnd == old(w.ackWnd)
    {
      if i > last {
        break;
      }
      SawNext(seen, cursor, old(w.ackWnd), w.Ears(), old(w.tick));
      w.Interfere();
      var event := w.ackWnd[i];
      NackSetGrows(seen, event);
      ghost var before := seen;
      seen := seen + [event];
      assert seen[..|seen| - 1] == before;
      if event == RecvNack {
        lostPackets := lostPackets + 1;
        if lostPackets > DEFAULT_LOSS {
          lost := true;
          break;
        }
      }
      i := i + 1;
    }
    if w.quiet {
      SawSilence(seen, cursor, old(w.ackWnd), w.Ears(), old(w.tick));
    }
  }

  /** The wait, scan and resend loop, under any interference by the listener: every round saw what
      the slots showed at each look, and the frames resent are those of the slots of the rounds, in
      order, each as it was saved. */
  method Flush(w: SendWindow, skb0: Bytes, last: nat, lastLen: nat) returns (log: seq<Round>, exhausted: bool, frames: seq<Bytes>)
    requires w.Valid() && last < WND_SIZE
    modifies w`ackWnd, w`tick
    ensures w.Valid()
    ensures FlushLog(log, last, exhausted)
    ensures Tracked(log, old(w.ackWnd), w.Ears(), old(w.tick), if exhausted then 1 else 0, w.ackWnd, w.tick)
    ensures |frames| == |AllResent(log)| && (w.Faithful(skb0, last, lastLen) ==> w.Copies(frames, AllResent(log)))
  {
    hide Losing, Tolerated, Showing, Saw, Tracked, AllResent, SendWindow.Faithful, SendWindow.Copies;
    var skb := skb0;
    var cursor, txNum := 0, 0;
    log, exhausted, frames := [], false, [];
    TrackedNone(w.ackWnd, w.Ears(), w.tick);
    w.NoCopies();
    while true
      invariant w.Valid() && cursor <= last && txNum == |log| <= RETX_MAX
      invariant LosingLog(log, last, cursor)
      invariant Tracked(log, old(w.ackWnd), w.Ears(), old(w.tick), 0, w.ackWnd, w.tick)
      invariant |frames| == |AllResent(log)|
      invariant old(w.Faithful(skb0, last, lastLen)) ==> w.Faithful(skb, last, lastLen) && w.Copies(frames, AllResent(log))
      decreases RETX_MAX - txNum
    {
      TrackedWait(log, old(w.ackWnd), w.Ears(), old(w.tick), w.ackWnd, w.tick);
      w.Interfere();
      txNum := txNum + 1;
      if txNum > RETX_MAX {
        exhausted := true;
        break;
      }
      ghost var now, tick := w.ackWnd, w.tick;
      var i, lost, seen := Scan(w, cursor, last);
      ghost var x := Round(cursor, seen, if lost then Interval(i, last + 1) else []);
      TrackedRound(log, old(w.ackWnd), w.Ears(), old(w.tick), now, tick, x);
      ResentNext(log, x);
      if !lost {
        assert (log + [x])[..|log|] == log;
        assert AllResent(log) + [] == AllResent(log);
        log := log + [Round(cursor, seen, [])];
        break;
      }
      var more, slots;
      skb, more, slots := w.ResendFrom(i, last, skb, lastLen);
      if w.Faithful(skb0, last, lastLen) {
        w.CopiesJoin(frames, AllResent(log), more, slots);
      }
      frames := frames + more;
      LosingLogGrows(log, last, x);
      log := log + [Round(cursor, seen, slots)];
      cursor := i;
    }
  }
}
