/** When the byte counter of the reassembly buffer (dbr/dbr.c) is right: an arrival credits every
    packet it releases with its own size. */
module ByteCount {
  import opened Wire
  import opened Channel
  import opened Reassembly

  // ----- The packets credited -----

  /** How many packets an arrival releases. */
  ghost function Released(arrivals: seq<nat>, i: nat): nat
    requires i < |arrivals|
  {
    CountGrows(arrivals, i, i + 1);
    CountAt(arrivals, i + 1) - CountAt(arrivals, i)
  }

  ghost predicate OneAtATime(arrivals: seq<nat>) {
    forall i :: 0 <= i < |arrivals| ==> Released(arrivals, i) <= 1
  }

  function Repeat(n: nat, k: nat): (ks: seq<nat>)
    ensures |ks| == n && forall j :: 0 <= j < n ==> ks[j] == k
  {
    seq(n, _ => k)
  }

  /** For each packet delivered, in order, the one whose arrival released it. */
  ghost function Releasers(arrivals: seq<nat>): (ks: seq<nat>)
    ensures |ks| == |Delivered(arrivals)|
  {
    if arrivals == [] then
      NoneDelivered();
      []
    else
      var i := |arrivals| - 1;
      assert arrivals[..i + 1] == arrivals;
      Releasers(arrivals[..i]) + Repeat(Released(arrivals, i), arrivals[i])
  }

  lemma ReleasersNext(arrivals: seq<nat>, i: nat)
    requires i < |arrivals|
    ensures Releasers(arrivals[..i + 1]) == Releasers(arrivals[..i]) + Repeat(Released(arrivals, i), arrivals[i])
  {
    hide Delivered, Taken, LeastMissing;
    var all := arrivals[..i + 1];
    assert all[..i] == arrivals[..i] && all[..i + 1] == all;
  }

  lemma NoReleasers(arrivals: seq<nat>)
    ensures Releasers(arrivals[..0]) == Delivered(arrivals[..0]) == []
  {
    NoneDelivered();
  }

  /** The stream holds every packet that arrives. */
  ghost predicate Covers(stream: seq<Bytes>, arrivals: seq<nat>) {
    forall i :: 0 <= i < |arrivals| ==> arrivals[i] < |stream|
  }

  /** The bytes of a packet. */
  ghost function Length(stream: seq<Bytes>, k: nat): nat {
    if k < |stream| then |stream[k]| else 0
  }

  /** The bytes of some packets of a stream. */
  ghost function Size(stream: seq<Bytes>, ks: seq<nat>): nat {
    if ks == [] then 0 else Size(stream, ks[..|ks| - 1]) + Length(stream, ks[|ks| - 1])
  }

  lemma {:induction false} SizeIsConcat(stream: seq<Bytes>, ks: seq<nat>)
    requires forall j :: 0 <= j < |ks| ==> ks[j] < |stream|
    ensures Size(stream, ks) == |Concat(Select(stream, ks))|
  {
    if ks != [] {
      var front := ks[..|ks| - 1];
      SizeIsConcat(stream, front);
      assert Select(stream, ks)[..|front|] == Select(stream, front);
    }
  }

  lemma {:induction false} SizeJoin(stream: seq<Bytes>, a: seq<nat>, b: seq<nat>)
    ensures Size(stream, a + b) == Size(stream, a) + Size(stream, b)
  {
    if b == [] {
      assert a + b == a;
    } else {
      var front := b[..|b| - 1];
      assert (a + b)[..|a + b| - 1] == a + front;
      SizeJoin(stream, a, front);
    }
  }

  lemma {:induction false} SizeRepeats(stream: seq<Bytes>, n: nat, k: nat)
    requires k < |stream|
    ensures Size(stream, Repeat(n, k)) == Times(n, |stream[k]|)
  {
    hide Times;
    if n == 0 {
      TimesNext(0, |stream[k]|);
    } else {
      assert Repeat(n, k)[..n - 1] == Repeat(n - 1, k);
      SizeRepeats(stream, n - 1, k);
      TimesNext(n - 1, |stream[k]|);
    }
  }

  /** cnt_bytes is the size of the packets credited. */
  lemma {:induction false} CreditedIsReleasers(stream: seq<Bytes>, arrivals: seq<nat>)
    requires Covers(stream, arrivals)
    ensures Credited(stream, arrivals) == Size(stream, Releasers(arrivals))
  {
    hide Times, Delivered;
    if arrivals == [] {
      NoneCredited(stream);
    } else {
      var i := |arrivals| - 1;
      assert arrivals[..i + 1] == arrivals;
      CreditedIsReleasers(stream, arrivals[..i]);
      CreditedNext(stream, arrivals, i);
      SizeJoin(stream, Releasers(arrivals[..i]), Repeat(Released(arrivals, i), arrivals[i]));
      SizeRepeats(stream, Released(arrivals, i), arrivals[i]);
    }
  }

  // ----- The exact condition -----

  lemma CountedOut(b: seq<nat>, i: nat)
    requires i < |b|
    ensures multiset(Without(b, i)) == multiset(b) - multiset{b[i]}
  {
    assert b == b[..i] + [b[i]] + b[i + 1..];
  }

  lemma TakeOut(stream: seq<Bytes>, b: seq<nat>, i: nat)
    requires i < |b|
    ensures |Without(b, i)| == |b| - 1 && multiset(Without(b, i)) == multiset(b) - multiset{b[i]}
    ensures Size(stream, b) == Size(stream, Without(b, i)) + Length(stream, b[i])
  {
    CountedOut(b, i);
    var head, tail := b[..i] + [b[i]], b[i + 1..];
    assert b == head + tail && head[..i] == b[..i] && Without(b, i) == b[..i] + tail;
    SizeJoin(stream, head, tail);
    SizeJoin(stream, b[..i], tail);
  }

  /** The size of packets does not depend on their order. */
  lemma {:induction false} SizePermuted(stream: seq<Bytes>, a: seq<nat>, b: seq<nat>)
    requires multiset(a) == multiset(b)
    ensures Size(stream, a) == Size(stream, b)
    decreases |a|
  {
    hide Size, Without, Length;
    if a == [] {
      assert |multiset(b)| == 0;
    } else {
      assert a[0] in multiset(a);
      var i :| 0 <= i < |b| && b[i] == a[0];
      TakeOut(stream, a, 0);
      TakeOut(stream, b, i);
      SizePermuted(stream, Without(a, 0), Without(b, i));
    }
  }

  /** A stream in which only packet p has any bytes, and only one. */
  function Single(p: nat, n: nat): (stream: seq<Bytes>)
    ensures |stream| == n
  {
    seq(n, i => if i == p then [0] else [])
  }

  lemma {:induction false} SizeCounts(p: nat, n: nat, ks: seq<nat>)
    requires p < n
    ensures Size(Single(p, n), ks) == multiset(ks)[p]
  {
    if ks != [] {
      SizeCounts(p, n, ks[..|ks| - 1]);
      assert ks == ks[..|ks| - 1] + [ks[|ks| - 1]];
    }
  }

  /** The packets delivered are those of the stream, and their size is that of the output. */
  lemma SizeOfOutput(stream: seq<Bytes>, arrivals: seq<nat>)
    requires Covers(stream, arrivals)
    ensures forall j :: 0 <= j < |Delivered(arrivals)| ==> Delivered(arrivals)[j] < |stream|
    ensures Size(stream, Delivered(arrivals)) == |Concat(Select(stream, Delivered(arrivals)))|
  {
    hide Delivered, Size, Concat;
    forall j | 0 <= j < |Delivered(arrivals)|
      ensures Delivered(arrivals)[j] < |stream|
    {
      DeliveredArrived(arrivals, j);
    }
    SizeIsConcat(stream, Delivered(arrivals));
  }

  /** cnt_bytes is the number of bytes delivered, for every stream. */
  ghost predicate Exact(arrivals: seq<nat>) {
    forall stream: seq<Bytes> :: Covers(stream, arrivals) ==> Credited(stream, arrivals) == Size(stream, Delivered(arrivals))
  }

  ghost function Above(arrivals: seq<nat>): (n: nat)
    ensures forall i :: 0 <= i < |arrivals| ==> arrivals[i] < n
  {
    if arrivals == [] then 0
    else
      var n, k := Above(arrivals[..|arrivals| - 1]), arrivals[|arrivals| - 1];
      if k < n then n else k + 1
  }

  /** The counter is right for every stream if and only if each packet is credited as often as it is
      delivered. */
  lemma ExactIffCreditedAsDelivered(arrivals: seq<nat>)
    ensures Exact(arrivals) <==> multiset(Releasers(arrivals)) == multiset(Delivered(arrivals))
  {
    hide Size, Credited, Releasers, Delivered, Single;
    var a, d := Releasers(arrivals), Delivered(arrivals);
    forall stream: seq<Bytes> | Covers(stream, arrivals)
      ensures Credited(stream, arrivals) == Size(stream, a)
      ensures multiset(a) == multiset(d) ==> Size(stream, a) == Size(stream, d)
    {
      CreditedIsReleasers(stream, arrivals);
      if multiset(a) == multiset(d) {
        SizePermuted(stream, a, d);
      }
    }
    if Exact(arrivals) {
      var credited: multiset<nat>, delivered: multiset<nat> := multiset(a), multiset(d);
      forall p: nat
        ensures credited[p] == delivered[p]
      {
        var n := Above(arrivals) + p + 1;
        assert Covers(Single(p, n), arrivals);
        SizeCounts(p, n, a);
        SizeCounts(p, n, d);
      }
    }
  }

  // ----- One packet at a time -----

  ghost predicate Distinct(ks: seq<nat>) {
    forall i, j :: 0 <= i < j < |ks| ==> ks[i] != ks[j]
  }

  lemma {:induction false} DistinctCounts(ks: seq<nat>, p: nat)
    requires Distinct(ks)
    ensures multiset(ks)[p] <= 1
  {
    if ks != [] {
      var front, k := ks[..|ks| - 1], ks[|ks| - 1];
      DistinctCounts(front, p);
      assert ks == front + [k];
      assert k !in front;
    }
  }

  /** What has been delivered stays, and an arrival that releases something is the first it releases. */
  lemma DeliveredGrows(arrivals: seq<nat>, i: nat)
    requires i < |arrivals|
    ensures Delivered(arrivals[..i]) <= Delivered(arrivals[..i + 1])
    ensures Released(arrivals, i) > 0 ==> Delivered(arrivals[..i + 1])[CountAt(arrivals, i)] == arrivals[i]
  {
    hide LeastMissing, TakenFor, Taken;
    TakenStep(arrivals, i);
    CountGrows(arrivals, i, i + 1);
    var n := CountAt(arrivals, i);
    LeastIsMissing(Taken(arrivals[..i]).Keys);
  }

  lemma LeastIsMissing(s: set<nat>)
    ensures LeastMissing(s, 0) !in s
  {
  }

  lemma {:induction false} OneAtATimeReleases(arrivals: seq<nat>, n: nat)
    requires OneAtATime(arrivals) && n <= |arrivals|
    ensures Releasers(arrivals[..n]) == Delivered(arrivals[..n])
  {
    hide Delivered, Releasers, Taken, LeastMissing;
    if n == 0 {
      NoReleasers(arrivals);
    } else {
      OneAtATimeReleases(arrivals, n - 1);
      ReleasersNext(arrivals, n - 1);
      DeliveredGrows(arrivals, n - 1);
      assert Released(arrivals, n - 1) <= 1;
    }
  }

  /** An arrival that releases two packets is credited twice. */
  lemma {:induction false} CreditedTwice(arrivals: seq<nat>, n: nat, i: nat)
    requires i < n <= |arrivals| && Released(arrivals, i) > 1
    ensures multiset(Releasers(arrivals[..n]))[arrivals[i]] > 1
    decreases n
  {
    hide Delivered, Releasers, Released, Repeat;
    ReleasersNext(arrivals, n - 1);
    if i < n - 1 {
      CreditedTwice(arrivals, n - 1, i);
    } else {
      Doubled(Released(arrivals, i), arrivals[i]);
    }
  }

  lemma Doubled(n: nat, k: nat)
    requires n > 1
    ensures multiset(Repeat(n, k))[k] > 1
  {
    assert Repeat(n, k) == [k] + [k] + Repeat(n - 2, k);
  }

  /** Where no packet is delivered twice, and so wherever the right ones are, the counter is right for
      every stream if and only if no arrival releases more than one packet. */
  lemma ExactIffOneAtATime(arrivals: seq<nat>)
    ensures OneAtATime(arrivals) ==> Exact(arrivals)
    ensures Distinct(Delivered(arrivals)) ==> (Exact(arrivals) <==> OneAtATime(arrivals))
    ensures RightPackets(arrivals) ==> Distinct(Delivered(arrivals))
  {
    hide Releasers, Delivered, Exact, Released;
    ExactIffCreditedAsDelivered(arrivals);
    assert arrivals[..|arrivals|] == arrivals;
    if OneAtATime(arrivals) {
      OneAtATimeReleases(arrivals, |arrivals|);
    } else if Distinct(Delivered(arrivals)) {
      var i :| 0 <= i < |arrivals| && Released(arrivals, i) > 1;
      CreditedTwice(arrivals, |arrivals|, i);
      DistinctCounts(Delivered(arrivals), arrivals[i]);
    }
  }

  // ----- Where packets are delivered twice -----

  function Residue(k: nat): nat {
    k % WIN_SIZE
  }

  /** The copies of packets 0 to 15 taken for the m pairs of indices from n on, each pair in reverse order. */
  function Crossed(n: nat, m: nat): seq<nat> {
    if m == 0 then [] else Crossed(n, m - 1) + [Residue(n + 2 * m - 1), Residue(n + 2 * m - 2)]
  }

  function Straight(n: nat, m: nat): seq<nat> {
    if m == 0 then [] else Straight(n, m - 1) + [Residue(n + 2 * m - 2), Residue(n + 2 * m - 1)]
  }

  function Leaders(n: nat, m: nat): seq<nat> {
    if m == 0 then [] else Leaders(n, m - 1) + [Residue(n + 2 * m - 2), Residue(n + 2 * m - 2)]
  }

  lemma PairNext(n: nat, m: nat, p: nat, q: nat)
    requires m > 0 && p == Residue(n + 2 * m - 2) && q == Residue(n + 2 * m - 1)
    ensures Crossed(n, m) == Crossed(n, m - 1) + [q, p] && Straight(n, m) == Straight(n, m - 1) + [p, q] && Leaders(n, m) == Leaders(n, m - 1) + [p, p]
  {
  }

  lemma NoPairs(n: nat)
    ensures Crossed(n, 0) == Straight(n, 0) == Leaders(n, 0) == []
  {
  }

  /** All indices below n have been taken; what has been delivered, and what has been credited. */
  ghost predicate Reached(arrivals: seq<nat>, n: nat, delivered: seq<nat>, credited: seq<nat>) {
    Below(Taken(arrivals), n) && Delivered(arrivals) == delivered && Releasers(arrivals) == credited
  }

  lemma ReachedOne(arrivals: seq<nat>, n: nat, delivered: seq<nat>, credited: seq<nat>, k: nat)
    requires Reached(arrivals, n, delivered, credited) && k % WIN_SIZE == n % WIN_SIZE
    ensures Reached(arrivals + [k], n + 1, delivered + [k], credited + [k])
  {
    hide Taken, Delivered, Releasers, LeastMissing;
    var all := arrivals + [k];
    TakenNext(arrivals, k, n, n);
    DeliveredBelow(arrivals, n);
    DeliveredBelow(all, n + 1);
    Prefixes(arrivals, [k]);
    ReleasersNext(all, |arrivals|);
    DeliveredGrows(all, |arrivals|);
    assert Repeat(1, k) == [k];
    assert Delivered(all) == delivered + [k];
  }

  lemma Prefixes(a: seq<nat>, b: seq<nat>)
    ensures (a + b)[..|a|] == a && (a + b)[..|a + b|] == a + b
  {
  }

  lemma ReachedTwo(arrivals: seq<nat>, n: nat, delivered: seq<nat>, credited: seq<nat>, p: nat, q: nat)
    requires Reached(arrivals, n, delivered, credited) && p % WIN_SIZE == n % WIN_SIZE && q % WIN_SIZE == (n + 1) % WIN_SIZE
    ensures Reached(arrivals + [q] + [p], n + 2, delivered + [p, q], credited + [p, p])
    ensures Released(arrivals + [q] + [p], |arrivals| + 1) == 2
  {
    hide Taken, Delivered, Releasers, LeastMissing;
    var mid, all := arrivals + [q], arrivals + [q] + [p];
    TakenNext(arrivals, q, n, n + 1);
    TakenNext(mid, p, n, n);
    DeliveredBelow(arrivals, n);
    DeliveredLeast(mid, n);
    DeliveredBelow(all, n + 2);
    Prefixes(arrivals, [q]);
    Prefixes(mid, [p]);
    ReleasersNext(mid, |arrivals|);
    ReleasersNext(all, |mid|);
    DeliveredGrows(mid, |arrivals|);
    DeliveredGrows(all, |mid|);
    assert Repeat(0, q) == [] && Repeat(2, p) == [p, p];
    DeliveredIs(all, n + 1);
    assert Delivered(all) == delivered + [p, q];
  }

  lemma DeliveredIs(arrivals: seq<nat>, j: nat)
    requires j < |Delivered(arrivals)|
    ensures j in Taken(arrivals) && Delivered(arrivals)[j] == Taken(arrivals)[j]
  {
  }

  lemma {:induction false} ReachedCrossed(arrivals: seq<nat>, n: nat, delivered: seq<nat>, credited: seq<nat>, m: nat)
    requires Reached(arrivals, n, delivered, credited)
    ensures Reached(arrivals + Crossed(n, m), n + 2 * m, delivered + Straight(n, m), credited + Leaders(n, m))
  {
    hide Reached, Released, Crossed, Straight, Leaders;
    if m == 0 {
      NoPairs(n);
      assert arrivals + [] == arrivals && delivered + [] == delivered && credited + [] == credited;
    } else {
      ReachedCrossed(arrivals, n, delivered, credited, m - 1);
      var p, q := Residue(n + 2 * m - 2), Residue(n + 2 * m - 1);
      PairNext(n, m, p, q);
      var before := arrivals + Crossed(n, m - 1);
      ReachedTwo(before, n + 2 * m - 2, delivered + Straight(n, m - 1), credited + Leaders(n, m - 1), p, q);
      assert arrivals + Crossed(n, m) == before + [q] + [p];
      assert delivered + Straight(n, m) == delivered + Straight(n, m - 1) + [p, q];
      assert credited + Leaders(n, m) == credited + Leaders(n, m - 1) + [p, p];
    }
  }

  lemma ReachedNone()
    ensures Reached([], 0, [], [])
  {
    NoneDelivered();
  }

  lemma SizeTwo(stream: seq<Bytes>, ks: seq<nat>, p: nat, q: nat)
    ensures Size(stream, ks + [p, q]) == Size(stream, ks) + Length(stream, p) + Length(stream, q)
  {
    assert (ks + [p, q])[..|ks| + 1] == ks + [p] && (ks + [p])[..|ks|] == ks;
  }

  /** Over eight pairs from 0 on and eight from 17 on, each packet leads one pair and follows in another. */
  lemma {:induction false} Cancelled(stream: seq<Bytes>, m: nat)
    requires m <= 8
    ensures Size(stream, Straight(0, m)) + Size(stream, Straight(17, m)) + Length(stream, 0)
         == Size(stream, Leaders(0, m)) + Size(stream, Leaders(17, m)) + Length(stream, Residue(2 * m))
  {
    hide Size, Length, Straight, Leaders, Residue;
    Residues(m);
    if m == 0 {
      SizeNone(stream);
      NoPairs(0);
      NoPairs(17);
    } else {
      Cancelled(stream, m - 1);
      var x, y, z := Residue(2 * m - 2), Residue(2 * m - 1), Residue(2 * m);
      PairNext(0, m, x, y);
      PairNext(17, m, y, z);
      SizeTwo(stream, Straight(0, m - 1), x, y);
      SizeTwo(stream, Straight(17, m - 1), y, z);
      SizeTwo(stream, Leaders(0, m - 1), x, x);
      SizeTwo(stream, Leaders(17, m - 1), y, y);
    }
  }

  lemma Residues(m: nat)
    ensures Residue(0) == 0 && (0 < m ==> Residue(17 + 2 * m - 2) == Residue(2 * m - 1) && Residue(17 + 2 * m - 1) == Residue(2 * m))
  {
  }

  lemma SizeNone(stream: seq<Bytes>)
    ensures Size(stream, []) == 0
  {
  }

  lemma {:induction false} FirstPair(m: nat)
    ensures |Straight(0, m)| == |Leaders(0, m)| == 2 * m
    ensures 0 < m ==> Straight(0, m)[1] == 1 && Leaders(0, m)[1] == 0
  {
    if m > 0 {
      FirstPair(m - 1);
    }
  }

  /** Where packets are delivered twice the errors can cancel: among these thirty-three arrivals
      sixteen release two packets each, and still the counter is right for every stream. */
  lemma ErrorsCancel()
    ensures var arrivals := Crossed(0, 8) + [0] + Crossed(17, 8); Exact(arrivals) && !OneAtATime(arrivals)
  {
    hide Reached, Exact, Releasers, Delivered, Crossed, Straight, Leaders;
    ReachedNone();
    ReachedCrossed([], 0, [], [], 8);
    var a, d, c := [] + Crossed(0, 8), [] + Straight(0, 8), [] + Leaders(0, 8);
    ReachedOne(a, 16, d, c, 0);
    ReachedCrossed(a + [0], 17, d + [0], c + [0], 8);
    var arrivals := Crossed(0, 8) + [0] + Crossed(17, 8);
    assert arrivals == a + [0] + Crossed(17, 8);
    CancelledOut(arrivals);
  }

  lemma CancelledOut(arrivals: seq<nat>)
    requires Reached(arrivals, 33, [] + Straight(0, 8) + [0] + Straight(17, 8), [] + Leaders(0, 8) + [0] + Leaders(17, 8))
    ensures Exact(arrivals) && !OneAtATime(arrivals)
  {
    hide Size, Credited, Releasers, Delivered, OneAtATime, Straight, Leaders;
    forall stream: seq<Bytes> | Covers(stream, arrivals)
      ensures Credited(stream, arrivals) == Size(stream, Delivered(arrivals))
    {
      CreditedIsReleasers(stream, arrivals);
      Cancelled(stream, 8);
      SizeThree(stream, Straight(0, 8), [0], Straight(17, 8));
      SizeThree(stream, Leaders(0, 8), [0], Leaders(17, 8));
    }
    FirstPair(8);
    assert Delivered(arrivals)[1] == 1 && Releasers(arrivals)[1] == 0;
    assert arrivals[..|arrivals|] == arrivals;
    if OneAtATime(arrivals) {
      OneAtATimeReleases(arrivals, |arrivals|);
    }
  }

  lemma SizeThree(stream: seq<Bytes>, a: seq<nat>, b: seq<nat>, c: seq<nat>)
    ensures Size(stream, [] + a + b + c) == Size(stream, a) + Size(stream, b) + Size(stream, c)
  {
    assert [] + a == a;
    SizeJoin(stream, a, b);
    SizeJoin(stream, a + b, c);
  }
}
