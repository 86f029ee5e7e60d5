/** The sixteen-slot send window shared by the egress programs, and the listener program that
    records feedback in it (XTFsPool/store/egress_gobackn_graft.c, egress_sr_graft.c and
    egress_partial_graft.c). */
module Window {
  import opened Wire

  const WND_SIZE: nat := 16
  const RETX_MAX: nat := 10

  datatype Event = RecvAck | RecvNack | Timeout | Idle

  /** A packet seen by the listener program: its sequence number and whether it is a NACK. */
  datatype Feedback = Feedback(seqNum: nat, nack: bool)

  // ----- What the listener makes of the slots -----

  /** The listener program: the packets it hears before each look of the egress program, and the
      state that a NACK leaves behind. */
  datatype Listener = Listener(script: nat -> seq<Feedback>, onNack: Event)

  /** In a quiet window nothing is heard while the program looks. */
  function Audible(quiet: bool, script: nat -> seq<Feedback>): (s: nat -> seq<Feedback>)
    ensures quiet ==> forall t :: s(t) == []
  {
    (t: nat) => if quiet then [] else script(t)
  }

  /** The slots after some packets. */
  ghost function Heard(ack: seq<Event>, packets: seq<Feedback>, onNack: Event): (r: seq<Event>)
    ensures |r| == |ack|
  {
    if packets == [] then ack
    else
      var a, f := Heard(ack, packets[..|packets| - 1], onNack), packets[|packets| - 1];
      if f.seqNum < |a| then a[f.seqNum := if f.nack then onNack else RecvAck] else a
  }

  lemma HeardNone(ack: seq<Event>, onNack: Event)
    ensures Heard(ack, [], onNack) == ack
  {
  }

  lemma ShowingOne(ack: seq<Event>, l: Listener, tick: nat)
    ensures Showing(ack, l, tick, 0) == ack
    ensures Showing(ack, l, tick, 1) == Heard(ack, l.script(tick), l.onNack)
  {
    hide Heard;
    assert Showing(ack, l, tick, 0) == ack;
  }

  lemma HeardNext(ack: seq<Event>, packets: seq<Feedback>, i: nat, onNack: Event)
    requires i < |packets|
    ensures var a, f := Heard(ack, packets[..i], onNack), packets[i];
            Heard(ack, packets[..i + 1], onNack) == if f.seqNum < |a| then a[f.seqNum := if f.nack then onNack else RecvAck] else a
  {
    assert packets[..i + 1][..i] == packets[..i];
  }

  /** The slots after n looks, the first of them at a given tick. */
  ghost function Showing(ack: seq<Event>, l: Listener, tick: nat, n: nat): (r: seq<Event>)
    ensures |r| == |ack|
  {
    if n == 0 then ack else Heard(Showing(ack, l, tick, n - 1), l.script(tick + n - 1), l.onNack)
  }

  lemma {:induction false} ShowingJoin(ack: seq<Event>, l: Listener, tick: nat, m: nat, n: nat)
    ensures Showing(Showing(ack, l, tick, m), l, tick + m, n) == Showing(ack, l, tick, m + n)
  {
    hide Heard;
    if n > 0 {
      ShowingJoin(ack, l, tick, m, n - 1);
    }
  }

  /** A listener that hears nothing changes nothing. */
  lemma {:induction false} ShowingSilence(ack: seq<Event>, l: Listener, tick: nat, n: nat)
    requires forall t :: l.script(t) == []
    ensures Showing(ack, l, tick, n) == ack
  {
    if n > 0 {
      ShowingSilence(ack, l, tick, n - 1);
    }
  }

  // ----- The rounds of a flush -----

  /** One round of a flush: where the scan started, what it saw slot by slot, what was resent. */
  datatype Round = Round(cursor: nat, seen: seq<Event>, resent: seq<nat>)

  /** Where the scan after a round that stopped starts: at the slot it stopped at. */
  ghost function NextStart(log: seq<Round>): int {
    if log == [] then 0 else log[|log| - 1].cursor + |log[|log| - 1].seen| - 1
  }

  /** The rounds of a flush: each starts at the slot the one before stopped at. */
  ghost predicate Chained(log: seq<Round>) {
    && (|log| > 0 ==> log[0].cursor == 0)
    && (forall r :: 0 <= r < |log| - 1 ==> |log[r].seen| > 0 && log[r + 1].cursor == log[r].cursor + |log[r].seen| - 1)
  }

  lemma ChainedGrows(log: seq<Round>, r: Round)
    requires Chained(log) && r.cursor == NextStart(log) && (log != [] ==> |log[|log| - 1].seen| > 0)
    ensures Chained(log + [r])
  {
  }

  /** The looks of the first r rounds: one per wait and one per slot seen. */
  ghost function Looks(log: seq<Round>, r: nat): nat
    requires r <= |log|
  {
    if r == 0 then 0 else Looks(log, r - 1) + 1 + |log[r - 1].seen|
  }

  /** A scan that starts at a cursor saw what the slots showed at each look. */
  ghost predicate Saw(seen: seq<Event>, cursor: nat, ack: seq<Event>, l: Listener, tick: nat) {
    && (seen != [] ==> cursor + |seen| <= |ack|)
    && (forall t :: 0 <= t < |seen| ==> seen[t] == Showing(ack, l, tick, t + 1)[cursor + t])
  }

  lemma SawNext(seen: seq<Event>, cursor: nat, ack: seq<Event>, l: Listener, tick: nat)
    requires Saw(seen, cursor, ack, l, tick) && cursor + |seen| < |ack|
    ensures var now := Showing(Showing(ack, l, tick, |seen|), l, tick + |seen|, 1);
            now == Showing(ack, l, tick, |seen| + 1) && Saw(seen + [now[cursor + |seen|]], cursor, ack, l, tick)
  {
    hide Showing;
    ShowingJoin(ack, l, tick, |seen|, 1);
  }

  lemma SawNothing(cursor: nat, ack: seq<Event>, l: Listener, tick: nat)
    ensures Saw([], cursor, ack, l, tick) && Showing(ack, l, tick, 0) == ack
  {
  }

  /** Where nothing is heard, the scan saw the slots as they were. */
  lemma SawSilence(seen: seq<Event>, cursor: nat, ack: seq<Event>, l: Listener, tick: nat)
    requires Saw(seen, cursor, ack, l, tick) && forall t :: l.script(t) == []
    ensures forall t :: 0 <= t < |seen| ==> cursor + t < |ack| && seen[t] == ack[cursor + t]
  {
    forall t | 0 <= t < |seen|
      ensures cursor + t < |ack| && seen[t] == ack[cursor + t]
    {
      assert seen[t] == Showing(ack, l, tick, t + 1)[cursor + t];
      ShowingSilence(ack, l, tick, t + 1);
    }
  }

  /** A round whose scan came after n looks saw what the slots showed. */
  ghost predicate SawAfter(x: Round, ack: seq<Event>, l: Listener, tick: nat, n: nat) {
    Saw(x.seen, x.cursor, Showing(ack, l, tick, n), l, tick + n)
  }

  /** Every round saw what the slots showed after its wait. */
  ghost predicate Observed(log: seq<Round>, ack: seq<Event>, l: Listener, tick: nat) {
    forall r :: 0 <= r < |log| ==> SawAfter(log[r], ack, l, tick, Looks(log, r) + 1)
  }

  lemma {:induction false} LooksLonger(log: seq<Round>, x: Round, r: nat)
    requires r <= |log|
    ensures Looks(log + [x], r) == Looks(log, r)
  {
    if r > 0 {
      LooksLonger(log, x, r - 1);
    }
  }

  lemma LooksNext(log: seq<Round>, x: Round)
    ensures Looks(log + [x], |log| + 1) == Looks(log, |log|) + 1 + |x.seen|
  {
    LooksLonger(log, x, |log|);
  }

  lemma ObservedGrows(log: seq<Round>, ack: seq<Event>, l: Listener, tick: nat, x: Round)
    requires Observed(log, ack, l, tick) && SawAfter(x, ack, l, tick, Looks(log, |log|) + 1)
    ensures Observed(log + [x], ack, l, tick)
  {
    hide SawAfter, Looks;
    var more := log + [x];
    forall r | 0 <= r < |more|
      ensures SawAfter(more[r], ack, l, tick, Looks(more, r) + 1)
    {
      LooksLonger(log, x, r);
    }
  }

  /** The rounds saw what the slots showed at each look from a given tick on, and after `more` further
      waits the slots show `now` and the tick is `later`. */
  ghost predicate Tracked(log: seq<Round>, ack: seq<Event>, l: Listener, tick: nat, more: nat, now: seq<Event>, later: nat) {
    && Observed(log, ack, l, tick)
    && later == tick + Looks(log, |log|) + more && now == Showing(ack, l, tick, Looks(log, |log|) + more)
  }

  lemma TrackedNone(ack: seq<Event>, l: Listener, tick: nat)
    ensures Tracked([], ack, l, tick, 0, ack, tick) && AllResent([]) == []
  {
  }

  /** One wait. */
  lemma TrackedWait(log: seq<Round>, ack: seq<Event>, l: Listener, tick: nat, now: seq<Event>, later: nat)
    requires Tracked(log, ack, l, tick, 0, now, later)
    ensures Tracked(log, ack, l, tick, 1, Showing(now, l, later, 1), later + 1)
  {
    hide Showing, Looks, Observed;
    ShowingJoin(ack, l, tick, Looks(log, |log|), 1);
  }

  /** One scan after the wait. */
  lemma TrackedRound(log: seq<Round>, ack: seq<Event>, l: Listener, tick: nat, now: seq<Event>, later: nat, x: Round)
    requires Tracked(log, ack, l, tick, 1, now, later) && Saw(x.seen, x.cursor, now, l, later)
    ensures Tracked(log + [x], ack, l, tick, 0, Showing(now, l, later, |x.seen|), later + |x.seen|)
  {
    hide Showing, Looks, Observed, Saw;
    ObservedGrows(log, ack, l, tick, x);
    LooksNext(log, x);
    ShowingJoin(ack, l, tick, Looks(log, |log|) + 1, |x.seen|);
  }

  /** Two scans from the same slots agree as far as both go. */
  lemma SawAgree(a: seq<Event>, b: seq<Event>, cursor: nat, ack: seq<Event>, l: Listener, tick: nat)
    requires Saw(a, cursor, ack, l, tick) && Saw(b, cursor, ack, l, tick)
    ensures forall t :: 0 <= t < |a| && t < |b| ==> a[t] == b[t]
  {
    hide Showing;
  }

  lemma {:induction false} LooksAgree(a: seq<Round>, b: seq<Round>, r: nat)
    requires r <= |a| && r <= |b| && a[..r] == b[..r]
    ensures Looks(a, r) == Looks(b, r)
  {
    if r > 0 {
      assert a[..r - 1] == a[..r][..r - 1] == b[..r - 1] && a[r - 1] == a[..r][r - 1] == b[r - 1];
      LooksAgree(a, b, r - 1);
    }
  }

  /** Two logs that agree up to a round saw the same in it, as far as both looked. */
  lemma ObservedAgree(a: seq<Round>, b: seq<Round>, r: nat, ack: seq<Event>, l: Listener, tick: nat)
    requires Observed(a, ack, l, tick) && Observed(b, ack, l, tick) && r < |a| && r < |b| && a[..r] == b[..r] && a[r].cursor == b[r].cursor
    ensures forall t :: 0 <= t < |a[r].seen| && t < |b[r].seen| ==> a[r].seen[t] == b[r].seen[t]
  {
    hide Showing, Saw, Looks;
    LooksAgree(a, b, r);
    assert SawAfter(a[r], ack, l, tick, Looks(a, r) + 1) && SawAfter(b[r], ack, l, tick, Looks(b, r) + 1);
    var n := Looks(a, r) + 1;
    SawAgree(a[r].seen, b[r].seen, a[r].cursor, Showing(ack, l, tick, n), l, tick + n);
  }

  /** The next round of two chained logs that agree so far starts at the same slot. */
  lemma ChainedAgree(a: seq<Round>, b: seq<Round>, r: nat)
    requires Chained(a) && Chained(b) && r < |a| && r < |b| && a[..r] == b[..r]
    ensures a[r].cursor == b[r].cursor
  {
    if r > 0 {
      assert a[r - 1] == a[..r][r - 1] == b[..r][r - 1] == b[r - 1];
    }
  }

  /** All slots resent, in order. */
  ghost function AllResent(log: seq<Round>): seq<nat> {
    if log == [] then [] else AllResent(log[..|log| - 1]) + log[|log| - 1].resent
  }

  lemma ResentNext(log: seq<Round>, x: Round)
    ensures AllResent(log + [x]) == AllResent(log) + x.resent
  {
    assert (log + [x])[..|log|] == log;
  }

  function Interval(from: nat, to: nat): (s: seq<nat>)
    requires from <= to
    ensures |s| == to - from && forall i :: 0 <= i < |s| ==> s[i] == from + i
  {
    seq(to - from, i => from + i)
  }

  /** bpf_skb_change_tail: cut the buffer or extend it with zeros. */
  function Resize(b: Bytes, n: nat): (r: Bytes)
    ensures |r| == n
    ensures forall i :: 0 <= i < n ==> r[i] == if i < |b| then b[i] else 0
  {
    if n <= |b| then b[..n] else b + seq(n - |b|, _ => 0)
  }

  /** The frame kept as saved bytes and a saved length. */
  function Cut(b: Bytes, n: nat): Bytes {
    if n <= |b| then b[..n] else b
  }

  /** bpf_vtl_store_bytes at offset 0. What it does when the buffer is too short is not visible
      in the repository: it either cuts the data or fails and writes nothing. */
  function StoreBytes(skb: Bytes, data: Bytes, truncates: bool): (r: Bytes)
    ensures |r| == |skb| && forall i :: 0 <= i < |skb| ==> r[i] == if i < |data| && (|data| <= |skb| || truncates) then data[i] else skb[i]
  {
    if |data| <= |skb| then data + skb[|data|..]
    else if truncates then data[..|skb|]
    else skb
  }

  /** The program's packet buffer before a resend: full-sized, or still holding the frame saved
      as `buf` and `len` in the last slot of the window. */
  ghost predicate Reloadable(skb: Bytes, buf: Bytes, len: nat) {
    len <= ON_WIRE_SIZE == |buf| && (|skb| == ON_WIRE_SIZE || (len < ON_WIRE_SIZE && skb == buf[..len]))
  }

  /** Padding a short frame to full size loses nothing: its own length cuts it back. */
  lemma PadThenCut(f: Bytes, n: nat)
    requires |f| <= n
    ensures Resize(Resize(f, n), |f|) == f && Resize(f, n)[..|f|] == f
  {
    assert Resize(f, n)[..|f|] == f;
  }

  /** What the program does with a packet: hand it back to the stack (TC_ACT_OK) as `skb`, or transmit
      `frame` from window slot `slot`, waiting for the window when `flush` holds. */
  datatype Admission = Passed(skb: Bytes) | Admitted(frame: Bytes, slot: nat, flush: bool)

  /** The BPF maps of the egress program. Other processors run the listener at any time:
      `Interfere` stands for the feedback they record between two steps of the egress program.
      A quiet window is one whose feedback is recorded only while the program waits. */
  class SendWindow {
    var ackWnd: seq<Event>
    var bufWnd: seq<Bytes>
    var lenWnd: seq<nat>
    var numSeq: nat

    const initial: Event   // the state of a slot whose packet has just been sent
    const onNack: Event    // the state a NACK leaves behind
    const truncates: bool
    const quiet: bool
    const script: nat -> seq<Feedback>  // what the listener hears before each look; nothing in a quiet window
    var tick: nat

    ghost predicate Valid()
      reads this
    {
      |ackWnd| == |bufWnd| == |lenWnd| == WND_SIZE && numSeq < WND_SIZE && (quiet ==> forall t :: script(t) == [])
    }

    ghost function Ears(): Listener {
      Listener(script, onNack)
    }

    constructor (initial: Event, onNack: Event, truncates: bool, quiet: bool, script: nat -> seq<Feedback>)
      ensures Valid() && numSeq == 0 && forall i :: 0 <= i < WND_SIZE ==> ackWnd[i] == if i < 4 then Timeout else RecvAck
      ensures this.initial == initial && this.onNack == onNack && this.quiet == quiet
    {
      this.initial, this.onNack, this.truncates := initial, onNack, truncates;
      this.quiet, this.script, tick := quiet, Audible(quiet, script), 0;
      ackWnd := seq(WND_SIZE, i => if i < 4 then Timeout else RecvAck);  // the other slots of the map are zero
      bufWnd := seq(WND_SIZE, _ => []);
      lenWnd := seq(WND_SIZE, i => if i == 0 then 1 else 0);
      numSeq := 0;
    }

    /** The frame a slot holds. */
    ghost function Saved(slot: nat): Bytes
      requires |bufWnd| == |lenWnd| == WND_SIZE && slot < WND_SIZE
      reads this`bufWnd, this`lenWnd
    {
      Cut(bufWnd[slot], lenWnd[slot])
    }

    /** The listener program, for one packet. */
    method Listen(f: Feedback)
      requires Valid()
      modifies this`ackWnd
      ensures Valid()
      ensures ackWnd == if f.seqNum < WND_SIZE
                        then old(ackWnd)[f.seqNum := if f.nack then onNack else RecvAck]
                        else old(ackWnd)
    {
      if f.seqNum >= WND_SIZE {
        return;  // the map lookup fails
      }
      if f.nack {
        ackWnd := ackWnd[f.seqNum := onNack];
      } else {
        ackWnd := ackWnd[f.seqNum := RecvAck];
      }
    }

    /** The listener runs on whatever it hears before the next look. */
    method Interfere()
      requires Valid()
      modifies this`ackWnd, this`tick
      ensures Valid() && tick == old(tick) + 1
      ensures ackWnd == Showing(old(ackWnd), Ears(), old(tick), 1)
      ensures quiet ==> ackWnd == old(ackWnd)
    {
      hide Heard;
      var packets := script(tick);
      assert quiet ==> packets == [];
      ShowingOne(ackWnd, Ears(), tick);
      HeardNone(ackWnd, onNack);
      assert packets[..0] == [];
      for i := 0 to |packets|
        invariant Valid() && tick == old(tick) && ackWnd == Heard(old(ackWnd), packets[..i], onNack)
      {
        HeardNext(old(ackWnd), packets, i, onNack);
        Listen(packets[i]);
      }
      assert packets[..|packets|] == packets;
      tick := tick + 1;
    }

    /** Save a stamped frame and its length in a slot; the buffer is padded to full size for the
        copy and cut back to its own length afterwards. */
    method Save(slot: nat, skb0: Bytes) returns (ok: bool, skb: Bytes)
      requires Valid() && slot < WND_SIZE && HDR_LEN <= |skb0|
      modifies this`bufWnd, this`lenWnd
      ensures Valid()
      ensures forall j :: 0 <= j < WND_SIZE && j != slot ==> lenWnd[j] == old(lenWnd)[j] && bufWnd[j] == old(bufWnd)[j]
      ensures if ok then |bufWnd[slot]| == ON_WIRE_SIZE else skb == skb0
      ensures ok <==> |skb0| >= ON_WIRE_SIZE || PayloadLen(skb0) % 0x1_0000_0000 != VTL_DATA_SIZE
      ensures |skb0| <= ON_WIRE_SIZE ==> skb == skb0
      ensures forall i :: 0 <= i < |skb| && i < |skb0| && i < ON_WIRE_SIZE ==> skb[i] == skb0[i]
      ensures lenWnd[slot] == if PayloadLen(skb0) % 0x1_0000_0000 == VTL_DATA_SIZE then ON_WIRE_SIZE else |skb0| % 0x1_0000
      ensures ok ==> bufWnd[slot] == Resize(skb0, ON_WIRE_SIZE)
      ensures |skb0| <= ON_WIRE_SIZE && PayloadLen(skb0) == |skb0| - HDR_LEN ==>
                ok && skb == skb0 && lenWnd[slot] == |skb0| && Saved(slot) == skb0
    {
      skb := skb0;
      var lastLen := |skb0| % 0x1_0000;
      if PayloadLen(skb0) % 0x1_0000_0000 != VTL_DATA_SIZE {
        lenWnd := lenWnd[slot := lastLen];
        skb := Resize(skb, ON_WIRE_SIZE);
        bufWnd := bufWnd[slot := skb];
        skb := Resize(skb, lastLen);
        if |skb0| <= ON_WIRE_SIZE {
          PadThenCut(skb0, ON_WIRE_SIZE);
        }
      } else {
        lenWnd := lenWnd[slot := ON_WIRE_SIZE];
        if |skb| < ON_WIRE_SIZE {
          return false, skb;
        }
        bufWnd := bufWnd[slot := skb[..ON_WIRE_SIZE]];
      }
      ok := true;
    }

    /** The part of the egress program before the wait: stamp, save, advance the sequence number. */
    method Admit(skb0: Bytes) returns (a: Admission)
      requires Valid()
      modifies this`ackWnd, this`bufWnd, this`lenWnd, this`numSeq
      ensures Valid()
      ensures a.Admitted? ==>
                && a.slot == old(numSeq) && numSeq == (a.slot + 1) % WND_SIZE
                && ackWnd == old(ackWnd)[a.slot := initial]
                && (forall j :: 0 <= j < WND_SIZE && j != a.slot ==> lenWnd[j] == old(lenWnd)[j] && bufWnd[j] == old(bufWnd)[j])
                && |bufWnd[a.slot]| == ON_WIRE_SIZE
                && a.flush == (a.slot == WND_SIZE - 1 || lenWnd[a.slot] < ON_WIRE_SIZE)
      ensures a.Passed? ==> numSeq == old(numSeq)
      ensures |skb0| < 58 || skb0[23] != 253 ==> a == Passed(skb0)
      ensures Checksum(skb0).None? ==> a.Passed? && |a.skb| == |skb0| && unchanged(this)
      ensures Checksum(skb0).None? && |skb0| >= 58 && skb0[23] == 253 ==>
                forall i :: 0 <= i < |skb0| ==> a.skb[i] == if i == 38 then 1 else if 39 <= i < 42 then 0 else skb0[i]
      ensures Checksum(skb0).Some? ==>
                && |skb0| >= 58 && (a.Passed? <==> |skb0| < ON_WIRE_SIZE && PayloadLen(skb0) % 0x1_0000_0000 == VTL_DATA_SIZE)
                && ackWnd == old(ackWnd)[old(numSeq) := initial]
                && (a.Admitted? ==> lenWnd[a.slot] == if PayloadLen(skb0) % 0x1_0000_0000 == VTL_DATA_SIZE then ON_WIRE_SIZE else |skb0| % 0x1_0000)
                && (a.Admitted? && |skb0| <= ON_WIRE_SIZE ==> bufWnd[a.slot] == Resize(a.frame, ON_WIRE_SIZE))
                && Departs(if a.Passed? then a.skb else a.frame, skb0, Checksum(skb0).value, old(numSeq))
      ensures WellFormed(skb0) ==>
                && a.Admitted?
                && Carries(a.frame, skb0, a.slot)
                && lenWnd[a.slot] == |skb0| && Saved(a.slot) == a.frame
    {
      hide WellFormed, Checksum, FrameOf, Decode, PayloadLen, Cut;
      if WellFormed(skb0) {
        WellFormedFacts(skb0);
      }
      var stamped := StampFrame(skb0, numSeq);
      if stamped.None? {
        TypedBytes(skb0);
        return Passed(Typed(skb0));
      }
      var slot := numSeq;
      ackWnd := ackWnd[slot := initial];
      var ok, skb := Save(slot, stamped.value);
      if !ok {
        return Passed(skb);
      }
      numSeq := (numSeq + 1) % WND_SIZE;
      a := Admitted(skb, slot, slot == WND_SIZE - 1 || lenWnd[slot] < ON_WIRE_SIZE);
    }

    /** Rebuild the frame of a slot in the program's own packet buffer. Every frame but the one
        of the last slot must be full-sized, since the cut uses the length of the last packet. */
    method Reload(slot: nat, skb0: Bytes, lastLen: nat, ghost last: nat) returns (skb: Bytes)
      requires Valid() && slot < WND_SIZE && last < WND_SIZE
      ensures lenWnd[slot] == ON_WIRE_SIZE && |bufWnd[slot]| == ON_WIRE_SIZE ==> skb == Saved(slot) && |skb| == ON_WIRE_SIZE
      ensures slot == last && lastLen == lenWnd[last] && Reloadable(skb0, bufWnd[last], lenWnd[last]) ==> skb == Saved(last) && Reloadable(skb, bufWnd[last], lenWnd[last])
      ensures lenWnd[slot] < ON_WIRE_SIZE ==> |skb| == lastLen
      ensures lenWnd[slot] < ON_WIRE_SIZE && |bufWnd[slot]| <= |skb0| ==> forall i :: 0 <= i < lastLen && i < |bufWnd[slot]| ==> skb[i] == bufWnd[slot][i]
    {
      skb := skb0;
      if lenWnd[slot] == ON_WIRE_SIZE {
        skb := Resize(skb, ON_WIRE_SIZE);
      }
      skb := StoreBytes(skb, bufWnd[slot], truncates);
      if lenWnd[slot] < ON_WIRE_SIZE {
        skb := Resize(skb, lastLen);
      }
    }

    /** Slots from `from` up to but not including `last` were sent full-sized. */
    ghost predicate FullUpTo(from: nat, last: nat)
      requires |bufWnd| == |lenWnd| == WND_SIZE && last < WND_SIZE
      reads this`bufWnd, this`lenWnd
    {
      forall j :: from <= j < last ==> lenWnd[j] == ON_WIRE_SIZE && |bufWnd[j]| == ON_WIRE_SIZE
    }

    /** What a flush of slots 0..last needs for its copies to be exact. */
    ghost predicate Faithful(skb: Bytes, last: nat, lastLen: nat)
      requires |bufWnd| == |lenWnd| == WND_SIZE && last < WND_SIZE
      reads this`bufWnd, this`lenWnd
    {
      FullUpTo(0, last) && lastLen == lenWnd[last] && Reloadable(skb, bufWnd[last], lenWnd[last])
    }

    /** The frames are those saved in the slots. */
    ghost predicate Copies(frames: seq<Bytes>, slots: seq<nat>)
      requires |bufWnd| == |lenWnd| == WND_SIZE
      reads this`bufWnd, this`lenWnd
    {
      |frames| == |slots| && forall t :: 0 <= t < |frames| ==> slots[t] < WND_SIZE && frames[t] == Saved(slots[t])
    }

    lemma NoCopies()
      requires Valid()
      ensures Copies([], [])
    {
    }

    lemma CopiesOne(frames: seq<Bytes>, slots: seq<nat>, skb: Bytes, slot: nat)
      requires Valid() && Copies(frames, slots) && slot < WND_SIZE && skb == Saved(slot)
      ensures Copies(frames + [skb], slots + [slot])
    {
      hide Saved;
    }

    lemma CopiesJoin(a: seq<Bytes>, s: seq<nat>, b: seq<Bytes>, t: seq<nat>)
      requires Valid() && Copies(a, s) && Copies(b, t)
      ensures Copies(a + b, s + t)
    {
      hide Saved;
    }

    /** The retransmission loop of Go-Back-N and of partial reliability: slots from..last in order. */
    method ResendFrom(from: nat, last: nat, skb0: Bytes, lastLen: nat) 
      returns (skb: Bytes, frames: seq<Bytes>, slots: seq<nat>)
      requires Valid() && from <= last < WND_SIZE
      ensures |frames| == last + 1 - from && slots == Interval(from, last + 1)
      ensures FullUpTo(from, last) && lastLen == lenWnd[last] && Reloadable(skb0, bufWnd[last], lenWnd[last]) ==>
                Reloadable(skb, bufWnd[last], lenWnd[last]) && forall t :: 0 <= t < |frames| ==> frames[t] == Saved(from + t)
      ensures Faithful(skb0, last, lastLen) ==> Faithful(skb, last, lastLen) && Copies(frames, slots)
    {
      skb := skb0;
      frames, slots := [], [];
      ghost var faithful := FullUpTo(from, last) && lastLen == lenWnd[last] && Reloadable(skb0, bufWnd[last], lenWnd[last]);
      var j := from;
      while j < WND_SIZE
        invariant from <= j <= last + 1 && |frames| == j - from && slots == Interval(from, j)
        invariant faithful ==> Reloadable(skb, bufWnd[last], lenWnd[last]) && forall t :: 0 <= t < |frames| ==> frames[t] == Saved(from + t)
      {
        if j > last {
          break;
        }
        skb := Reload(j, skb, lastLen, last);
        frames, slots := frames + [skb], slots + [j];
        j := j + 1;
      }
    }
  }
}
