/** The circular reassembly buffer of the receive path (dbr/dbr.c, __process_packet). */
module Reassembly {
  import opened Wire

  const WIN_SIZE: nat := 16

  /** The contiguous prefix of what has arrived ends at n. */
  ghost predicate LongestPrefix(arrived: map<nat, Bytes>, n: nat) {
    (forall i :: 0 <= i < n ==> i in arrived) && n !in arrived
  }

  /** The payloads of packets 0..n, joined. */
  ghost function Joined(arrived: map<nat, Bytes>, n: nat): Bytes
    requires forall i :: 0 <= i < n ==> i in arrived
  {
    if n == 0 then [] else Joined(arrived, n - 1) + arrived[n - 1]
  }

  lemma {:induction false} JoinedExtends(arrived: map<nat, Bytes>, k: nat, data: Bytes, n: nat)
    requires forall i :: 0 <= i < n ==> i in arrived
    requires n <= k || (k in arrived && arrived[k] == data)
    ensures Joined(arrived[k := data], n) == Joined(arrived, n)
  {
    if n > 0 {
      JoinedExtends(arrived, k, data, n - 1);
    }
  }

  /** The bytes of packets m to n - 1. */
  ghost function LengthOf(arrived: map<nat, Bytes>, m: nat, n: nat): nat
    requires forall i :: 0 <= i < n ==> i in arrived
  {
    if n <= m then 0 else LengthOf(arrived, m, n - 1) + |arrived[n - 1]|
  }

  lemma {:induction false} JoinedLength(arrived: map<nat, Bytes>, m: nat, n: nat)
    requires m <= n && forall i :: 0 <= i < n ==> i in arrived
    ensures |Joined(arrived, n)| == |Joined(arrived, m)| + LengthOf(arrived, m, n)
    decreases n
  {
    if m < n {
      JoinedLength(arrived, m, n - 1);
    }
  }

  /** What n packets of one size amount to. */
  function Times(n: nat, size: nat): nat {
    n * size
  }

  lemma TimesNext(n: nat, size: nat)
    ensures Times(n + 1, size) == Times(n, size) + size && Times(0, size) == 0
  {
  }

  /** The index in n..n+16 that belongs to a slot. */
  ghost function IndexOf(n: nat, slot: nat): (k: nat)
    requires slot < WIN_SIZE
    ensures n <= k < n + WIN_SIZE && k % WIN_SIZE == slot
  {
    var here := n % WIN_SIZE;
    if here <= slot then n + (slot - here) else n + WIN_SIZE + slot - here
  }

  lemma IndexOfResidue(n: nat, k: nat)
    requires n <= k < n + WIN_SIZE
    ensures IndexOf(n, k % WIN_SIZE) == k
  {
  }

  /** Moving on by one packet changes the index of one slot only: the one just passed. */
  lemma IndexOfNext(n: nat, slot: nat)
    requires slot < WIN_SIZE
    ensures IndexOf(n + 1, slot) == if slot == n % WIN_SIZE then n + WIN_SIZE else IndexOf(n, slot)
    ensures (n % WIN_SIZE + 1) % WIN_SIZE == (n + 1) % WIN_SIZE
  {
  }

  class Reassembler {
    const buff: array<Bytes>
    const stored: array<bool>
    var nextNum: nat
    var rxData: Bytes
    var cntPkts: nat
    var cntBytes: nat
    ghost var arrived: map<nat, Bytes>  // what has arrived, by absolute index

    /** Seen from packet n on, a slot is occupied exactly when its packet has arrived, and then
        holds its payload. */
    ghost predicate Buffered(n: nat)
      reads this`arrived, buff, stored
      requires buff.Length == stored.Length == WIN_SIZE
    {
      forall j :: 0 <= j < WIN_SIZE ==>
        (stored[j] <==> IndexOf(n, j) in arrived) && (stored[j] ==> buff[j] == arrived[IndexOf(n, j)])
    }

    /** The first cntPkts packets have been delivered, and those ahead are buffered; nothing at
        `limit` or beyond has arrived. */
    ghost predicate Draining(limit: nat)
      reads this`arrived, this`rxData, this`cntPkts, buff, stored
    {
      && buff.Length == stored.Length == WIN_SIZE
      && (forall i :: 0 <= i < cntPkts ==> i in arrived)
      && (forall k :: k in arrived ==> k < limit)
      && cntPkts <= limit <= cntPkts + WIN_SIZE
      && Buffered(cntPkts)
      && rxData == Joined(arrived, cntPkts)
    }

    /** The invariant between packets. */
    ghost predicate Valid()
      reads this, buff, stored
    {
      && Draining(cntPkts + WIN_SIZE)
      && LongestPrefix(arrived, cntPkts)
      && nextNum == cntPkts % WIN_SIZE
    }

    constructor ()
      ensures Valid() && arrived == map[] && cntPkts == cntBytes == 0 && rxData == [] && fresh(buff) && fresh(stored)
    {
      buff := new Bytes[WIN_SIZE](_ => []);
      stored := new bool[WIN_SIZE](_ => false);
      nextNum, rxData, cntPkts, cntBytes, arrived := 0, [], 0, 0, map[];
    }

    lemma Prefix()
      requires Valid()
      ensures LongestPrefix(arrived, cntPkts) && forall i :: 0 <= i < cntPkts ==> i in arrived
    {
    }

    /** One packet, of which the code sees the number modulo 16 only: it is taken for the packet of
        that number among the next sixteen, and replaces what is stored for it. `canStore` is the
        outcome of the allocation for a packet out of order. (Where that fails for a slot in use, the
        C code would copy from a null pointer later.) */
    method Process(seqNum: nat, data: Bytes, canStore: bool) returns (ok: bool)
      requires Valid() && seqNum < WIN_SIZE && (canStore || !stored[seqNum])
      modifies this, buff, stored
      ensures Valid()
      ensures ok == (seqNum == old(cntPkts) % WIN_SIZE || canStore)
      ensures arrived == if ok then old(arrived)[IndexOf(old(cntPkts), seqNum) := data] else old(arrived)
      ensures old(cntPkts) <= cntPkts <= old(cntPkts) + WIN_SIZE
      ensures cntBytes == old(cntBytes) + Times(cntPkts - old(cntPkts), |data|)
      ensures |rxData| == old(|rxData|) + LengthOf(arrived, old(cntPkts), cntPkts)
    {
      hide Times, Joined;
      IndexOfResidue(cntPkts, cntPkts);
      if seqNum == nextNum {
        ghost var n, before := cntPkts, arrived;
        JoinedExtends(arrived, n, data, n);
        Accept(data);
        JoinedLength(arrived, n, cntPkts);
        ok := true;
      } else {
        TimesNext(0, |data|);
        if canStore {
          Store(seqNum, data);
        } else {
          buff[seqNum] := [];
        }
        ok := canStore;
      }
    }

    /** The branch for a packet out of order. */
    method Store(slot: nat, data: Bytes)
      requires Valid() && slot < WIN_SIZE && slot != cntPkts % WIN_SIZE
      modifies this`arrived, buff, stored
      ensures Valid() && arrived == old(arrived)[IndexOf(cntPkts, slot) := data]
    {
      hide IndexOf;
      ghost var k := IndexOf(cntPkts, slot);
      forall j | 0 <= j < WIN_SIZE
        ensures IndexOf(cntPkts, j) % WIN_SIZE == j
      {
      }
      JoinedExtends(arrived, k, data, cntPkts);
      buff[slot] := data;
      stored[slot] := true;
      arrived := arrived[k := data];
    }

    /** The branch for the next packet in order. */
    method Accept(data: Bytes)
      requires Valid()
      modifies this, buff, stored
      ensures Valid() && arrived == old(arrived)[old(cntPkts) := data]
      ensures old(cntPkts) < cntPkts <= old(cntPkts) + WIN_SIZE
      ensures cntBytes == old(cntBytes) + Times(cntPkts - old(cntPkts), |data|)
    {
      hide IndexOf, Times, Draining, LongestPrefix;
      ghost var n := cntPkts;
      IndexOfNext(n, 0);
      Deliver(data);
      nextNum := (nextNum + 1) % WIN_SIZE;
      Purge(|data|);
      TimesNext(cntPkts - n - 1, |data|);
    }

    /** The packet expected next is delivered. */
    method Deliver(data: Bytes)
      requires Valid()
      modifies this`arrived, this`rxData, this`cntPkts, this`cntBytes
      ensures cntPkts == old(cntPkts) + 1 && cntBytes == old(cntBytes) + |data| && arrived == old(arrived)[old(cntPkts) := data]
      ensures Draining(cntPkts + WIN_SIZE - 1)
    {
      hide IndexOf;
      ghost var n := cntPkts;
      IndexOfResidue(n, n);
      JoinedExtends(arrived, n, data, n);
      arrived := arrived[n := data];
      rxData := rxData + data;
      forall j | 0 <= j < WIN_SIZE
        ensures IndexOf(n + 1, j) == if j == n % WIN_SIZE then n + WIN_SIZE else IndexOf(n, j)
      {
        IndexOfNext(n, j);
      }
      cntPkts := cntPkts + 1;
      cntBytes := cntBytes + |data|;
    }

    /** One turn of the purge: deliver the packet stored in slot j. */
    method Take(j: nat, size: nat, ghost limit: nat)
      requires Draining(limit) && j == cntPkts % WIN_SIZE && stored[j]
      modifies this`rxData, this`cntPkts, this`cntBytes, buff, stored
      ensures cntPkts == old(cntPkts) + 1 && cntBytes == old(cntBytes) + size
      ensures Draining(limit)
    {
      hide IndexOf;
      IndexOfResidue(cntPkts, cntPkts);
      assert cntPkts in arrived;
      rxData := rxData + buff[j];
      buff[j] := [];
      stored[j] := false;
      forall i | 0 <= i < WIN_SIZE
        ensures IndexOf(cntPkts + 1, i) == if i == j then cntPkts + WIN_SIZE else IndexOf(cntPkts, i)
      {
        IndexOfNext(cntPkts, i);
      }
      cntPkts := cntPkts + 1;
      cntBytes := cntBytes + size;
    }

    /** The loop that drains the packets stored right after the one just delivered. It takes at
        most fifteen turns. */
    method Purge(size: nat)
      requires Draining(cntPkts + WIN_SIZE - 1) && nextNum == cntPkts % WIN_SIZE
      modifies this`nextNum, this`rxData, this`cntPkts, this`cntBytes, buff, stored
      ensures Valid()
      ensures old(cntPkts) <= cntPkts <= old(cntPkts) + WIN_SIZE - 1
      ensures cntBytes == old(cntBytes) + Times(cntPkts - old(cntPkts), size)
    {
      hide IndexOf, Times;
      TimesNext(0, size);
      var j := nextNum;
      ghost var limit := cntPkts + WIN_SIZE - 1;
      while stored[j]
        invariant j == cntPkts % WIN_SIZE && old(cntPkts) <= cntPkts <= limit
        invariant Draining(limit)
        invariant cntBytes == old(cntBytes) + Times(cntPkts - old(cntPkts), size)
        decreases limit - cntPkts
      {
        TimesNext(cntPkts - old(cntPkts), size);
        IndexOfNext(cntPkts, j);
        Take(j, size, limit);
        j := (j + 1) % WIN_SIZE;
      }
      IndexOfResidue(cntPkts, cntPkts);
      nextNum := j;
    }
  }

  // ----- Whole arrival orders -----

  /** The least index at or above n that is missing from s. */
  ghost function LeastMissing(s: set<nat>, n: nat): (m: nat)
    ensures n <= m && m !in s && forall i :: n <= i < m ==> i in s
    decreases s
  {
    if n in s then LeastMissing(s - {n}, n + 1) else n
  }

  /** Which packet is taken for which index: each arrival is taken for the index of its residue
      among the sixteen from the number delivered on, and the last one taken for an index counts. */
  ghost function Taken(arrivals: seq<nat>): map<nat, nat> {
    if arrivals == [] then map[]
    else
      var before, k := Taken(arrivals[..|arrivals| - 1]), arrivals[|arrivals| - 1];
      before[IndexOf(LeastMissing(before.Keys, 0), k % WIN_SIZE) := k]
  }

  /** The packets delivered, in order. */
  ghost function Delivered(arrivals: seq<nat>): (d: seq<nat>)
    ensures |d| == LeastMissing(Taken(arrivals).Keys, 0)
    ensures forall j :: 0 <= j < |d| ==> j in Taken(arrivals) && d[j] == Taken(arrivals)[j]
  {
    var t := Taken(arrivals);
    seq(LeastMissing(t.Keys, 0), j requires 0 <= j < LeastMissing(t.Keys, 0) => t[j])
  }

  ghost function Arrived(arrivals: seq<nat>): set<nat> {
    set k | k in arrivals
  }

  /** Each packet arrives within sixteen of the number delivered so far. */
  ghost predicate InWindow(arrivals: seq<nat>) {
    forall i :: 0 <= i < |arrivals| ==>
      var n := LeastMissing(Arrived(arrivals[..i]), 0); n <= arrivals[i] < n + WIN_SIZE
  }

  lemma InWindowNext(arrivals: seq<nat>, k: nat)
    ensures InWindow([])
    ensures var n := LeastMissing(Arrived(arrivals), 0); InWindow(arrivals + [k]) <==> InWindow(arrivals) && n <= k < n + 16
  {
    hide LeastMissing, Arrived;
    var all := arrivals + [k];
    assert forall i :: 0 <= i < |arrivals| ==> arrivals[i] == all[i] && arrivals[..i] == all[..i];
    assert all[..|arrivals|] == arrivals;
  }

  /** Within the window every packet is taken for itself. */
  lemma {:induction false} TakenInWindow(arrivals: seq<nat>)
    requires InWindow(arrivals)
    ensures Taken(arrivals).Keys == Arrived(arrivals) && forall k :: k in Taken(arrivals) ==> Taken(arrivals)[k] == k
  {
    hide IndexOf, LeastMissing;
    if arrivals != [] {
      var front, k := arrivals[..|arrivals| - 1], arrivals[|arrivals| - 1];
      assert forall i :: 0 <= i < |front| ==> front[i] == arrivals[i] && front[..i] == arrivals[..i];
      TakenInWindow(front);
      IndexOfResidue(LeastMissing(Arrived(front), 0), k);
      assert arrivals == front + [k];
    }
  }

  /** Exactly the indices below n have been taken. */
  ghost predicate Below(t: map<nat, nat>, n: nat) {
    forall k: nat :: k in t <==> k < n
  }

  lemma LeastIs(s: set<nat>, n: nat)
    requires n !in s && forall i :: 0 <= i < n ==> i in s
    ensures LeastMissing(s, 0) == n
  {
    hide LeastMissing;
    var m := LeastMissing(s, 0);
    assert m < n ==> m in s;
    assert n < m ==> n in s;
  }

  lemma TakenNext(arrivals: seq<nat>, k: nat, n: nat, index: nat)
    requires n !in Taken(arrivals) && (forall i :: 0 <= i < n ==> i in Taken(arrivals))
    requires n <= index < n + WIN_SIZE && k % WIN_SIZE == index % WIN_SIZE
    ensures Taken(arrivals + [k]) == Taken(arrivals)[index := k]
  {
    hide LeastMissing, IndexOf;
    LeastIs(Taken(arrivals).Keys, n);
    IndexOfResidue(n, index);
    assert (arrivals + [k])[..|arrivals|] == arrivals;
  }

  lemma DeliveredBelow(arrivals: seq<nat>, n: nat)
    requires Below(Taken(arrivals), n)
    ensures |Delivered(arrivals)| == n
  {
    hide LeastMissing;
    LeastIs(Taken(arrivals).Keys, n);
  }

  /** After the first sixteen packets, a copy of packet 1 is taken for packet 17, and delivered as
      such once packet 16 arrives ... */
  lemma StaleIsDelivered(arrivals: seq<nat>)
    requires Below(Taken(arrivals), 16)
    ensures |Delivered(arrivals + [1] + [16])| == 18 && Delivered(arrivals + [1] + [16])[17] == 1
  {
    hide Taken, Delivered;
    TakenNext(arrivals, 1, 16, 17);
    TakenNext(arrivals + [1], 16, 16, 16);
    DeliveredBelow(arrivals + [1] + [16], 18);
  }

  /** ... unless the real packet 17 takes its place first. */
  lemma StaleIsReplaced(arrivals: seq<nat>)
    requires Below(Taken(arrivals), 16)
    ensures |Delivered(arrivals + [1] + [17] + [16])| == 18 && Delivered(arrivals + [1] + [17] + [16])[17] == 17
  {
    hide Taken, Delivered;
    TakenNext(arrivals, 1, 16, 17);
    TakenNext(arrivals + [1], 17, 16, 17);
    TakenNext(arrivals + [1] + [17], 16, 16, 16);
    DeliveredBelow(arrivals + [1] + [17] + [16], 18);
  }

  /** Packets 0 to n - 1 arriving in order are taken for themselves. */
  lemma {:induction false} InOrderTaken(n: nat)
    ensures Below(Taken(seq(n, i => i)), n)
  {
    hide Taken;
    var s := seq(n, i => i);
    if n == 0 {
      assert s == [];
      NoneTaken();
    } else {
      InOrderTaken(n - 1);
      var front := seq(n - 1, i => i);
      assert s == front + [n - 1];
      TakenNext(front, n - 1, n - 1, n - 1);
    }
  }

  lemma NoneTaken()
    ensures Taken([]) == map[]
  {
  }

  lemma NothingTaken(arrivals: seq<nat>)
    ensures Taken(arrivals[..0]) == map[]
  {
  }

  // ----- When the right packets are delivered -----

  /** How many packets have been delivered after the first i arrivals. */
  ghost function CountAt(arrivals: seq<nat>, i: nat): (n: nat)
    requires i <= |arrivals|
    ensures n == |Delivered(arrivals[..i])|
  {
    LeastMissing(Taken(arrivals[..i]).Keys, 0)
  }

  /** The index that arrival i is taken for. */
  ghost function TakenFor(arrivals: seq<nat>, i: nat): nat
    requires i < |arrivals|
  {
    IndexOf(CountAt(arrivals, i), arrivals[i] % WIN_SIZE)
  }

  lemma TakenStep(arrivals: seq<nat>, i: nat)
    requires i < |arrivals|
    ensures Taken(arrivals[..i + 1]) == Taken(arrivals[..i])[TakenFor(arrivals, i) := arrivals[i]]
    ensures CountAt(arrivals, i) <= TakenFor(arrivals, i) < CountAt(arrivals, i) + WIN_SIZE && TakenFor(arrivals, i) % 16 == arrivals[i] % 16
  {
    hide LeastMissing, IndexOf;
    assert arrivals[..i + 1][..i] == arrivals[..i];
  }

  lemma LeastGrows(s: set<nat>, t: set<nat>)
    requires s <= t
    ensures LeastMissing(s, 0) <= LeastMissing(t, 0)
  {
    hide LeastMissing;
    var m, n := LeastMissing(s, 0), LeastMissing(t, 0);
    assert n < m ==> n in s;
  }

  lemma {:induction false} CountGrows(arrivals: seq<nat>, i: nat, j: nat)
    requires i <= j <= |arrivals|
    ensures CountAt(arrivals, i) <= CountAt(arrivals, j) && Taken(arrivals[..i]).Keys <= Taken(arrivals[..j]).Keys
    decreases j
  {
    hide LeastMissing, Taken, TakenFor;
    if i < j {
      CountGrows(arrivals, i, j - 1);
      TakenStep(arrivals, j - 1);
    }
    LeastGrows(Taken(arrivals[..i]).Keys, Taken(arrivals[..j]).Keys);
  }

  /** What is taken for an index is the last arrival taken for it. */
  lemma {:induction false} LastTaken(arrivals: seq<nat>, n: nat, k: nat) returns (i: nat)
    requires n <= |arrivals| && k in Taken(arrivals[..n])
    ensures i < n && TakenFor(arrivals, i) == k && Taken(arrivals[..n])[k] == arrivals[i]
    ensures forall j :: i < j < n ==> TakenFor(arrivals, j) != k
    decreases n
  {
    hide Taken, TakenFor;
    if n == 0 {
      NothingTaken(arrivals);
      assert false;
    } else {
      TakenStep(arrivals, n - 1);
      if TakenFor(arrivals, n - 1) == k {
        i := n - 1;
      } else {
        i := LastTaken(arrivals, n - 1, k);
      }
    }
  }

  /** An arrival does no harm: it is taken for itself, or its index is not delivered, or the packet
      of that index arrives later and before the index is delivered. */
  ghost predicate Harmless(arrivals: seq<nat>, i: nat)
    requires i < |arrivals|
  {
    var k := TakenFor(arrivals, i);
    || k == arrivals[i]
    || k >= CountAt(arrivals, |arrivals|)
    || exists j :: i < j < |arrivals| && arrivals[j] == k && CountAt(arrivals, j) <= k
  }

  ghost predicate RightPackets(arrivals: seq<nat>) {
    forall j :: 0 <= j < |Delivered(arrivals)| ==> Delivered(arrivals)[j] == j
  }

  lemma TakenIsHarmless(arrivals: seq<nat>, i: nat)
    requires i < |arrivals| && RightPackets(arrivals)
    ensures Harmless(arrivals, i)
  {
    hide Taken, LeastMissing, TakenFor;
    var n, k := |arrivals|, TakenFor(arrivals, i);
    assert arrivals[..n] == arrivals;
    if k != arrivals[i] && k < CountAt(arrivals, n) {
      assert Delivered(arrivals)[k] == k;
      var j := LastTaken(arrivals, n, k);
      TakenStep(arrivals, j);
      assert i < j && arrivals[j] == k && CountAt(arrivals, j) <= k;
    }
  }

  lemma HarmlessIsTaken(arrivals: seq<nat>, k: nat)
    requires k < |Delivered(arrivals)| && forall i :: 0 <= i < |arrivals| ==> Harmless(arrivals, i)
    ensures Delivered(arrivals)[k] == k
  {
    hide Taken, LeastMissing, TakenFor;
    var n := |arrivals|;
    assert arrivals[..n] == arrivals;
    var i := LastTaken(arrivals, n, k);
    assert Harmless(arrivals, i);
    if arrivals[i] != k {
      var j :| i < j < n && arrivals[j] == k && CountAt(arrivals, j) <= k;
      TakenStep(arrivals, i);
      CountGrows(arrivals, i, j);
      TakenForItself(arrivals, j);
    }
  }

  lemma TakenForItself(arrivals: seq<nat>, j: nat)
    requires j < |arrivals| && CountAt(arrivals, j) <= arrivals[j] < CountAt(arrivals, j) + WIN_SIZE
    ensures TakenFor(arrivals, j) == arrivals[j]
  {
    hide IndexOf;
    IndexOfResidue(CountAt(arrivals, j), arrivals[j]);
  }

  /** The right packets are delivered if and only if no arrival does harm. */
  lemma RightIffHarmless(arrivals: seq<nat>)
    ensures RightPackets(arrivals) <==> forall i :: 0 <= i < |arrivals| ==> Harmless(arrivals, i)
  {
    hide Harmless, Delivered;
    if RightPackets(arrivals) {
      forall i | 0 <= i < |arrivals|
        ensures Harmless(arrivals, i)
      {
        TakenIsHarmless(arrivals, i);
      }
    }
    if forall i :: 0 <= i < |arrivals| ==> Harmless(arrivals, i) {
      forall k | 0 <= k < |Delivered(arrivals)|
        ensures Delivered(arrivals)[k] == k
      {
        HarmlessIsTaken(arrivals, k);
      }
    }
  }

  // ----- The bytes counted -----

  /** What cnt_bytes comes to: every packet delivered counts with the size of the packet whose
      arrival released it. */
  ghost function Credited(stream: seq<Bytes>, arrivals: seq<nat>): nat
    requires forall i :: 0 <= i < |arrivals| ==> arrivals[i] < |stream|
  {
    if arrivals == [] then 0
    else
      var front, k := arrivals[..|arrivals| - 1], arrivals[|arrivals| - 1];
      var before, after := |Delivered(front)|, |Delivered(arrivals)|;
      Credited(stream, front) + if before <= after then Times(after - before, |stream[k]|) else 0
  }

  lemma {:induction false} CreditedOneSize(stream: seq<Bytes>, arrivals: seq<nat>, size: nat)
    requires forall i :: 0 <= i < |arrivals| ==> arrivals[i] < |stream| && |stream[arrivals[i]]| == size
    ensures Credited(stream, arrivals) == Times(|Delivered(arrivals)|, size)
  {
    hide Delivered, Taken, LeastMissing;
    if arrivals == [] {
      NoneTaken();
      DeliveredBelow([], 0);
    } else {
      var front := arrivals[..|arrivals| - 1];
      CreditedOneSize(stream, front, size);
      CountGrows(arrivals, |front|, |arrivals|);
      assert arrivals[..|arrivals|] == arrivals;
      TimesAdd(|Delivered(front)|, |Delivered(arrivals)| - |Delivered(front)|, size);
    }
  }

  lemma TimesAdd(m: nat, n: nat, size: nat)
    ensures Times(m + n, size) == Times(m, size) + Times(n, size)
  {
  }

  lemma {:induction false} ConcatLength(stream: seq<Bytes>, size: nat)
    requires forall i :: 0 <= i < |stream| ==> |stream[i]| == size
    ensures |Concat(stream)| == Times(|stream|, size)
  {
    hide Times;
    if stream == [] {
      TimesNext(0, size);
    } else {
      ConcatLength(stream[..|stream| - 1], size);
      TimesNext(|stream| - 1, size);
    }
  }

  lemma DeliveredArrived(arrivals: seq<nat>, j: nat)
    requires j < |Delivered(arrivals)|
    ensures Delivered(arrivals)[j] in arrivals
  {
    hide Taken, LeastMissing, TakenFor;
    assert arrivals[..|arrivals|] == arrivals;
    var i := LastTaken(arrivals, |arrivals|, j);
  }

  /** It is the number of bytes delivered when all packets have one size ... */
  lemma CreditedIsExact(stream: seq<Bytes>, arrivals: seq<nat>, size: nat)
    requires forall i :: 0 <= i < |arrivals| ==> arrivals[i] < |stream| && |stream[arrivals[i]]| == size
    ensures forall j :: 0 <= j < |Delivered(arrivals)| ==> Delivered(arrivals)[j] < |stream|
    ensures Credited(stream, arrivals) == |Concat(Select(stream, Delivered(arrivals)))|
  {
    hide Delivered, Concat, Credited, Times;
    forall j | 0 <= j < |Delivered(arrivals)|
      ensures Delivered(arrivals)[j] < |stream| && |stream[Delivered(arrivals)[j]]| == size
    {
      DeliveredArrived(arrivals, j);
    }
    CreditedOneSize(stream, arrivals, size);
    ConcatLength(Select(stream, Delivered(arrivals)), size);
  }

  /** ... and not in general: two packets of different sizes that arrive in reverse order are counted
      as two of the first one's size. */
  lemma CreditedDiffers(a: Bytes, b: Bytes)
    requires |a| != |b|
    ensures Delivered([1, 0]) == [0, 1]
    ensures Credited([a, b], [1, 0]) == 2 * |a| != |Concat([a, b])|
  {
    hide Taken, Delivered, Credited, Times;
    var stream, arrivals := [a, b], [1, 0];
    NoneTaken();
    DeliveredBelow([], 0);
    assert [] + [1] == [1] && [1] + [0] == [1, 0];
    TakenNext([], 1, 0, 1);
    DeliveredLeast([1], 0);
    TakenNext([1], 0, 0, 0);
    DeliveredBelow([1, 0], 2);
    assert arrivals[..0] == [] && arrivals[..1] == [1] && arrivals[..2] == arrivals;
    CreditedNext(stream, arrivals, 0);
    CreditedNext(stream, arrivals, 1);
    NoneCredited(stream);
    TimesNext(0, |b|);
    TimesNext(0, |a|);
    TimesNext(1, |a|);
    assert stream[..1] == [a] && [a][..0] == [];
    assert |Concat([a])| == |a|;
  }

  lemma NoneCredited(stream: seq<Bytes>)
    ensures Credited(stream, []) == 0
  {
  }

  lemma DeliveredLeast(arrivals: seq<nat>, n: nat)
    requires n !in Taken(arrivals) && forall i :: 0 <= i < n ==> i in Taken(arrivals)
    ensures |Delivered(arrivals)| == n
  {
    hide LeastMissing;
    LeastIs(Taken(arrivals).Keys, n);
  }

  lemma CreditedNext(stream: seq<Bytes>, arrivals: seq<nat>, i: nat)
    requires i < |arrivals| && forall j :: 0 <= j < |arrivals| ==> arrivals[j] < |stream|
    ensures |Delivered(arrivals[..i])| <= |Delivered(arrivals[..i + 1])|
    ensures Credited(stream, arrivals[..i + 1]) == Credited(stream, arrivals[..i])
              + Times(|Delivered(arrivals[..i + 1])| - |Delivered(arrivals[..i])|, |stream[arrivals[i]]|)
  {
    hide Delivered, Taken, Times, LeastMissing;
    CountGrows(arrivals, i, i + 1);
    assert arrivals[..i + 1][..i] == arrivals[..i];
  }

  ghost function Concat(stream: seq<Bytes>): Bytes {
    if stream == [] then [] else Concat(stream[..|stream| - 1]) + stream[|stream| - 1]
  }

  /** Joining goes from left to right. */
  lemma {:induction false} ConcatJoin(a: seq<Bytes>, b: seq<Bytes>)
    ensures Concat(a + b) == Concat(a) + Concat(b)
  {
    if b == [] {
      assert a + b == a;
    } else {
      assert (a + b)[..|a + b| - 1] == a + b[..|b| - 1];
      ConcatJoin(a, b[..|b| - 1]);
    }
  }

  lemma ConcatOne(x: Bytes)
    ensures Concat([]) == [] && Concat([x]) == x
  {
    assert [x][..0] == [];
  }

  /** When every arrived packet is that of the stream, the joined prefix is the stream's. */
  lemma {:induction false} JoinedIsConcat(arrived: map<nat, Bytes>, stream: seq<Bytes>, n: nat)
    requires n <= |stream| && forall i :: 0 <= i < n ==> i in arrived && arrived[i] == stream[i]
    ensures Joined(arrived, n) == Concat(stream[..n])
  {
    if n > 0 {
      JoinedIsConcat(arrived, stream, n - 1);
      assert stream[..n][..n - 1] == stream[..n - 1];
    }
  }

  lemma PrefixIsLeastMissing(arrived: map<nat, Bytes>, n: nat)
    requires LongestPrefix(arrived, n)
    ensures n == LeastMissing(arrived.Keys, 0)
  {
    var m := LeastMissing(arrived.Keys, 0);
    assert n < m ==> n in arrived.Keys;
    assert m < n ==> m in arrived;
  }

  /** The payloads of packets of a stream. */
  ghost function Select(stream: seq<Bytes>, ks: seq<nat>): (p: seq<Bytes>)
    requires forall j :: 0 <= j < |ks| ==> ks[j] < |stream|
    ensures |p| == |ks| && forall j :: 0 <= j < |ks| ==> p[j] == stream[ks[j]]
  {
    seq(|ks|, j requires 0 <= j < |ks| => stream[ks[j]])
  }

  /** Whatever arrives, in whatever order, the output is that of the packets taken for the indices
      below the first one missing. These are the packets themselves if and only if no arrival does
      harm, and then the output is a prefix of the stream; in particular when each packet arrives
      within the window, and then it is the longest contiguous prefix that has arrived. `bytes` is
      what cnt_bytes says. */
  method ReassembleAll(stream: seq<Bytes>, arrivals: seq<nat>) returns (output: Bytes, count: nat, bytes: nat)
    requires forall i :: 0 <= i < |arrivals| ==> arrivals[i] < |stream|
    ensures count == |Delivered(arrivals)| && forall j :: 0 <= j < count ==> Delivered(arrivals)[j] < |stream|
    ensures output == Concat(Select(stream, Delivered(arrivals)))
    ensures RightPackets(arrivals) <==> forall i :: 0 <= i < |arrivals| ==> Harmless(arrivals, i)
    ensures (forall i :: 0 <= i < |arrivals| ==> Harmless(arrivals, i)) ==> count <= |stream| && output == Concat(stream[..count])
    ensures bytes == Credited(stream, arrivals)
    ensures InWindow(arrivals) ==> count == LeastMissing(Arrived(arrivals), 0) <= |stream| && output == Concat(stream[..count])
  {
    hide Reassembler.Buffered, LeastMissing, IndexOf, Concat, Delivered, InWindow, Arrived, Harmless, RightPackets, Times, Credited, Taken, LengthOf;
    var r := new Reassembler();
    var i := 0;
    assert arrivals[..0] == [];
    NoneDelivered();
    NoneCredited(stream);
    while i < |arrivals|
      invariant i <= |arrivals| && r.Valid() && fresh(r) && fresh(r.buff) && fresh(r.stored)
      invariant Stands(r.arrived, Taken(arrivals[..i]), stream)
      invariant r.cntPkts == |Delivered(arrivals[..i])| && r.cntBytes == Credited(stream, arrivals[..i])
    {
      PrefixIsLeastMissing(r.arrived, r.cntPkts);
      var k := arrivals[i];
      TakenStep(arrivals, i);
      CreditedNext(stream, arrivals, i);
      var ok := r.Process(k % WIN_SIZE, stream[k], true);
      PrefixIsLeastMissing(r.arrived, r.cntPkts);
      DeliveredCount(arrivals[..i + 1]);
      i := i + 1;
    }
    assert arrivals[..i] == arrivals;
    output, count, bytes := r.rxData, r.cntPkts, r.cntBytes;
    RightIffHarmless(arrivals);
    OutputOf(r.arrived, stream, arrivals, count);
  }

  lemma NoneDelivered()
    ensures Delivered([]) == [] && Taken([]) == map[]
  {
  }

  lemma DeliveredCount(arrivals: seq<nat>)
    ensures |Delivered(arrivals)| == LeastMissing(Taken(arrivals).Keys, 0)
  {
  }

  /** What has arrived are the payloads of the packets taken. */
  ghost predicate Stands(arrived: map<nat, Bytes>, t: map<nat, nat>, stream: seq<Bytes>) {
    arrived.Keys == t.Keys && forall k :: k in t ==> t[k] < |stream| && arrived[k] == stream[t[k]]
  }

  lemma OutputOf(arrived: map<nat, Bytes>, stream: seq<Bytes>, arrivals: seq<nat>, n: nat)
    requires Stands(arrived, Taken(arrivals), stream) && LongestPrefix(arrived, n)
    ensures n == |Delivered(arrivals)| && forall j :: 0 <= j < n ==> Delivered(arrivals)[j] < |stream|
    ensures Joined(arrived, n) == Concat(Select(stream, Delivered(arrivals)))
    ensures RightPackets(arrivals) ==> n <= |stream| && Joined(arrived, n) == Concat(stream[..n])
    ensures InWindow(arrivals) ==> n == LeastMissing(Arrived(arrivals), 0) <= |stream| && Joined(arrived, n) == Concat(stream[..n])
  {
    hide LeastMissing, Concat, Taken, InWindow, Arrived, Joined;
    PrefixIsLeastMissing(arrived, n);
    var selected := Select(stream, Delivered(arrivals));
    JoinedIsConcat(arrived, selected, n);
    assert selected[..n] == selected;
    if InWindow(arrivals) {
      TakenInWindow(arrivals);
    }
    if RightPackets(arrivals) {
      assert n > 0 ==> Delivered(arrivals)[n - 1] == n - 1;
      assert selected == stream[..n];
    }
  }
}
